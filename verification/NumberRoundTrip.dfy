/** What vsnprintf prints for an integer, strtoull reads back. */
module NumberRoundTrip {
  import opened CText
  import Parsing = NumberParsing
  import opened Formatting
  import opened Words

  predicate Only(s: string, c: char) { forall k :: 0 <= k < |s| ==> s[k] == c }

  lemma {:induction false} SkipSpacesTo(s: string, i: nat, j: nat)
    requires i <= j <= |s| && !IsSpace(At(s, j))
    requires forall k :: i <= k < j ==> IsSpace(At(s, k))
    ensures Parsing.SkipSpaces(s, i) == j
    decreases j - i
  {
    if i < j { SkipSpacesTo(s, i + 1, j); }
  }

  lemma {:induction false} SkipDigitsTo(s: string, i: nat, j: nat, base: nat)
    requires i <= j <= |s| && !DigitOf(At(s, j), base)
    requires Parsing.AllDigits(s, i, j, base)
    ensures Parsing.SkipDigits(s, i, base) == j
    decreases j - i
  {
    if i < j { SkipDigitsTo(s, i + 1, j, base); }
  }

  /** Printed digits belong to their base, and none of them is an x. */
  lemma {:induction false} DigitsAreDigits(m: nat, base: nat, upper: bool, k: nat)
    requires IsBase(base) && k < |Digits(m, base, upper)|
    ensures DigitOf(Digits(m, base, upper)[k], base) && !IsX(Digits(m, base, upper)[k])
    decreases m
  {
    if m >= base && k < |Digits(m, base, upper)| - 1 {
      DigitsAreDigits(Quotient(m, base), base, upper, k);
    } else {
      DigitCharValue(Remainder(m, base), upper);
    }
  }

  lemma DigitCharValue(d: nat, upper: bool)
    requires d < 16
    ensures DigitValue(DigitChar(d, upper)) == d && !IsX(DigitChar(d, upper)) && !IsSpace(DigitChar(d, upper))
  {
  }

  lemma {:induction false} ValueOfZeros(s: string, from: nat, end: nat, base: nat)
    requires from <= end && forall k :: from <= k < end ==> At(s, k) == '0'
    ensures Parsing.Value(s, from, end, base) == 0
    decreases end
  {
    if from < end { ValueOfZeros(s, from, end - 1, base); }
  }

  lemma DivMod(m: nat, base: nat) returns (q: nat, r: nat)
    requires IsBase(base)
    ensures q == Quotient(m, base) && r == Remainder(m, base)
    ensures q * base + r == m && (m < base ==> r == m) && (m >= base ==> q < m)
  {
    q, r := Quotient(m, base), Remainder(m, base);
  }

  /** Of the digits of m, the last one and what stands before it. */
  lemma ValueOfLast(s: string, at: nat, end: nat, m: nat, base: nat, upper: bool)
    requires IsBase(base) && at < end <= |s| && s[at..end] == Digits(m, base, upper)
    ensures DigitValue(At(s, end - 1)) == Remainder(m, base)
    ensures if m < base then at == end - 1 else at < end - 1 && s[at..end - 1] == Digits(Quotient(m, base), base, upper)
  {
    var front := if m < base then "" else Digits(Quotient(m, base), base, upper);
    var last := DigitChar(Remainder(m, base), upper);
    DigitCharValue(Remainder(m, base), upper);
    assert s[at..end] == front + [last];
    LastAndFront(s, at, end, front, last);
  }

  lemma LastAndFront(s: string, at: nat, end: nat, front: string, last: char)
    requires at < end <= |s| && s[at..end] == front + [last]
    ensures At(s, end - 1) == last && end - at == |front| + 1 && s[at..end - 1] == front
  {
    assert s[end - 1] == s[at..end][end - 1 - at];
    assert s[at..end - 1] == s[at..end][..|front|];
  }

  lemma ValueOfOneDigit(s: string, from: nat, at: nat, m: nat, base: nat)
    requires IsBase(base) && from <= at < |s| && m < base
    requires forall k :: from <= k < at ==> At(s, k) == '0'
    requires DigitValue(At(s, at)) == m
    ensures Parsing.Value(s, from, at + 1, base) == m
  {
    ValueOfZeros(s, from, at, base);
    Parsing.ValueStep(s, from, at + 1, base, 0, m);
  }

  /** Zeros and then the digits of m denote m. */
  lemma {:induction false} ValueOfDigits(s: string, from: nat, at: nat, end: nat, m: nat, base: nat, upper: bool)
    requires IsBase(base) && from <= at < end <= |s|
    requires forall k :: from <= k < at ==> At(s, k) == '0'
    requires s[at..end] == Digits(m, base, upper)
    ensures Parsing.Value(s, from, end, base) == m
    decreases m
  {
    var q, r := DivMod(m, base);
    ValueOfLast(s, at, end, m, base, upper);
    if m < base {
      ValueOfOneDigit(s, from, at, m, base);
    } else {
      ValueOfDigits(s, from, at, end - 1, q, base, upper);
      Parsing.ValueStep(s, from, end, base, q, r);
    }
  }

  /** Blanks up to n, a sign, a prefix, zeros from `from`, digits from `at` to `end`, and blanks again. */
  ghost predicate LaidOut(s: string, n: nat, negative: bool, prefixed: bool, from: nat, at: nat, end: nat) {
    var k := if negative then n + 1 else n;
    && from == (if prefixed then k + 2 else k)
    && from <= at < end <= |s|
    && (forall i :: 0 <= i < n ==> At(s, i) == ' ')
    && (negative ==> At(s, n) == '-')
    && (prefixed ==> At(s, k) == '0' && At(s, k + 1) == 'x')
    && (forall i :: from <= i < at ==> At(s, i) == '0')
    && (forall i :: end <= i < |s| ==> At(s, i) == ' ')
  }

  lemma LaidOutDigits(s: string, from: nat, at: nat, end: nat, m: nat, base: nat, upper: bool)
    requires IsBase(base) && from <= at < end <= |s| && s[at..end] == Digits(m, base, upper)
    requires forall i :: from <= i < at ==> At(s, i) == '0'
    ensures forall i :: from <= i < end ==> DigitOf(At(s, i), base) && !IsX(At(s, i))
  {
    forall i | from <= i < end ensures DigitOf(At(s, i), base) && !IsX(At(s, i)) {
      if at <= i {
        assert At(s, i) == s[at..end][i - at];
        DigitsAreDigits(m, base, upper, i - at);
      }
    }
  }

  /** The number an integer conversion was given, as an unsigned 64-bit integer. */
  function Wrapped(negative: bool, magnitude: nat): nat
    requires magnitude < U64
  {
    if negative then (U64 - magnitude) % U64 else magnitude
  }

  lemma LaidOutStarts(s: string, n: nat, negative: bool, prefixed: bool, from: nat, at: nat, end: nat, base: nat)
    requires LaidOut(s, n, negative, prefixed, from, at, end)
    requires IsBase(base) && (prefixed ==> base == 16)
    requires forall i :: from <= i < end ==> DigitOf(At(s, i), base) && !IsX(At(s, i))
    ensures Parsing.SkipSpaces(s, 0) == n && Parsing.Reading(s, n, base) == (from, base)
    ensures Parsing.SkipDigits(s, from, base) == end
  {
    SkipSpacesTo(s, 0, n);
    SkipDigitsTo(s, from, end, base);
  }

  lemma LaidOutReads(s: string, n: nat, negative: bool, prefixed: bool, from: nat, at: nat, end: nat, m: nat,
                     base: nat, upper: bool)
    requires LaidOut(s, n, negative, prefixed, from, at, end)
    requires IsBase(base) && m < U64 && (prefixed ==> base == 16) && s[at..end] == Digits(m, base, upper)
    ensures Parsing.Strtoull(s, base) == Parsing.Parsed(Wrapped(negative, m), end, Parsing.Unset)
  {
    LaidOutDigits(s, from, at, end, m, base, upper);
    LaidOutStarts(s, n, negative, prefixed, from, at, end, base);
    ValueOfDigits(s, from, at, end, m, base, upper);
    assert !negative ==> At(s, n) != '-';
    Parsing.StrtoullOf(s, base, n, from, base, m);
  }

  lemma AssembledIsLaidOut(text: string, blanks: string, d: Directive, negative: bool, zeros: string, digits: string,
                           trailing: string)
    requires text == blanks + Sign(d, negative) + zeros + digits + trailing
    requires Only(blanks, ' ') && Only(zeros, '0') && Only(trailing, ' ') && digits != ""
    ensures var from := |blanks| + |Sign(d, negative)|;
            var at := from + |zeros|;
            && LaidOut(text, |blanks|, negative, d.conversion == 'p', from, at, at + |digits|)
            && text[at..at + |digits|] == digits && Only(text[at + |digits|..], ' ')
  {
  }

  /** The digits of a number, sign and all, are read back. */
  lemma TextIsRead(d: Directive, negative: bool, magnitude: nat)
    requires IsNumeric(d.conversion) && magnitude < U64
    requires !(d.precision == 0 && magnitude == 0)
    ensures var text := NumberText(d, negative, magnitude);
            var r := Parsing.Strtoull(text, BaseOf(d.conversion));
            && r.value == Wrapped(negative, magnitude) && r.errno == Parsing.Unset
            && 0 < r.end <= |text| && Only(text[r.end..], ' ')
  {
    var digits := NumberDigits(d, magnitude);
    var text := NumberText(d, negative, magnitude);
    var blanks, zeros, trailing := NumberTextParts(d, negative, magnitude);
    AssembledIsLaidOut(text, blanks, d, negative, zeros, digits, trailing);
    var from := |blanks| + |Sign(d, negative)|;
    var at := from + |zeros|;
    LaidOutReads(text, |blanks|, negative, d.conversion == 'p', from, at, at + |digits|,
                 magnitude, BaseOf(d.conversion), d.conversion == 'X');
  }

  /** The bits of an argument at the width its conversion takes, as an unsigned 64-bit integer. */
  function Widened(machine: Machine, d: Directive, bits: nat): nat {
    var modulus := Modulus(machine, if d.conversion == 'p' then 3 else d.length);
    var low := bits % modulus;
    var signed := (d.conversion == 'd' || d.conversion == 'i') && d.length != 3;
    if signed && low >= modulus / 2 then U64 - modulus + low else low
  }

  function Magnitude(v: int): nat { if v < 0 then -v else v }

  lemma SignedIsWrapped(bits: nat, modulus: nat)
    requires modulus == 0x1_0000_0000 || modulus == U64
    ensures var v, low := Signed(bits, modulus), bits % modulus;
            && Magnitude(v) < U64
            && Wrapped(v < 0, Magnitude(v)) == if low >= modulus / 2 then U64 - modulus + low else low
  {
    var low := bits % modulus;
    if low >= modulus / 2 {
      assert Signed(bits, modulus) == low - modulus;
    }
  }

  lemma WidenedIsWrapped(machine: Machine, d: Directive, args: seq<Arg>)
    ensures var (negative, magnitude) := Argument(machine, d, args);
            Wrapped(negative, magnitude) == Widened(machine, d, BitsOf(args))
  {
    if d.conversion == 'd' || d.conversion == 'i' {
      SignedIsWrapped(BitsOf(args), Modulus(machine, d.length));
    }
  }

  lemma WideIsWhole(machine: Machine, d: Directive, bits: nat)
    requires Modulus(machine, if d.conversion == 'p' then 3 else d.length) == U64
    ensures Widened(machine, d, bits) == bits % U64
  {
  }

  lemma DirectiveText(machine: Machine, d: Directive, args: seq<Arg>)
    requires IsNumeric(d.conversion)
    ensures OneDirective(machine, d, args).0 ==
            NumberText(d, Argument(machine, d, args).0, Argument(machine, d, args).1)
  {
  }

  /**
    * Whatever the flags, width and precision, printing an integer argument with d, i, u, x, X, o or p
    * and parsing the text in the matching base gives the argument's bits back, modulo 2^64 for the
    * 64-bit lengths and else sign- or zero-extended as the conversion asks, without a range error and up
    * to the trailing blanks; only a zero with precision zero prints no digits.
    */
  lemma PrintThenParse(machine: Machine, d: Directive, args: seq<Arg>)
    requires IsNumeric(d.conversion)
    requires !(d.precision == 0 && Widened(machine, d, BitsOf(args)) == 0)
    ensures var text := OneDirective(machine, d, args).0;
            var r := Parsing.Strtoull(text, BaseOf(d.conversion));
            && r.value == Widened(machine, d, BitsOf(args)) && r.errno == Parsing.Unset
            && (Modulus(machine, if d.conversion == 'p' then 3 else d.length) == U64 ==> r.value == BitsOf(args) % U64)
            && 0 < r.end <= |text| && Only(text[r.end..], ' ')
  {
    var (negative, magnitude) := Argument(machine, d, args);
    DirectiveText(machine, d, args);
    WidenedIsWrapped(machine, d, args);
    if Modulus(machine, if d.conversion == 'p' then 3 else d.length) == U64 { WideIsWhole(machine, d, BitsOf(args)); }
    TextIsRead(d, negative, magnitude);
  }

  lemma NumberTextParts(d: Directive, negative: bool, magnitude: nat)
    returns (blanks: string, zeros: string, trailing: string)
    ensures Only(blanks, ' ') && Only(zeros, '0') && Only(trailing, ' ')
    ensures NumberText(d, negative, magnitude) ==
            blanks + Sign(d, negative) + zeros + NumberDigits(d, magnitude) + trailing
  {
    var digits := NumberDigits(d, magnitude);
    var padding := Padding(d, negative, |digits|);
    blanks := Repeat(' ', if !d.left && !d.zero then padding else 0);
    zeros := Repeat('0', if !d.left && d.zero then padding else 0) + Repeat('0', d.precision - |digits|);
    trailing := Repeat(' ', if d.left then padding else 0);
    RegroupParts(blanks, Sign(d, negative), Repeat('0', if !d.left && d.zero then padding else 0),
            Repeat('0', d.precision - |digits|), digits, trailing);
  }

  lemma RegroupParts(a: string, b: string, c: string, d: string, e: string, f: string)
    ensures (a + b + c) + (d + e + f) == a + b + (c + d) + e + f
  {
  }
}
