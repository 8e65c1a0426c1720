/**
  * What section 7.21.6.1 of ISO C17 asks of the integer conversions d, i, o, u, x and X, and exactly
  * when vsnprintf does it.
  */
module FormatConformance {
  import opened CText
  import opened Formatting
  import opened Words

  predicate IsInteger(c: char) { IsNumeric(c) && c != 'p' }

  predicate IsSigned(c: char) { c == 'd' || c == 'i' }

  // ---------- The standard's text ----------

  /** 2 to the width of the type a length modifier names. */
  function StandardModulus(machine: Machine, length: nat): (m: nat)
    ensures m == 0x100 || m == 0x1_0000 || m == 0x1_0000_0000 || m == U64
  {
    if length == 5 then 0x100 else if length == 4 then 0x1_0000 else Modulus(machine, length)
  }

  /** Sign and magnitude of the argument, converted to that type; d and i take the signed one. */
  function StandardNumber(machine: Machine, d: Directive, args: seq<Arg>): (r: (bool, nat))
    ensures r.1 < U64 && (r.0 ==> r.1 > 0)
  {
    var modulus := StandardModulus(machine, d.length);
    var low := BitsOf(args) % modulus;
    if IsSigned(d.conversion) && low >= modulus / 2 then (true, modulus - low) else (false, low)
  }

  /** The precision is the least number of digits; # makes the first digit of an octal number a zero. */
  function StandardValue(d: Directive, magnitude: nat): string {
    var digits := NumberDigits(d, magnitude);
    var value := Repeat('0', d.precision - |digits|) + digits;
    if d.alternate && d.conversion == 'o' && (value == "" || value[0] != '0') then "0" + value else value
  }

  function StandardPrefix(d: Directive, negative: bool, magnitude: nat): string {
    if negative then "-"
    else if IsSigned(d.conversion) then if d.plus then "+" else if d.space then " " else ""
    else if d.alternate && magnitude != 0 && d.conversion == 'x' then "0x"
    else if d.alternate && magnitude != 0 && d.conversion == 'X' then "0X"
    else ""
  }

  /** Zeros of the precision count against the width, and a precision switches the 0 flag off. */
  function StandardForm(d: Directive, negative: bool, magnitude: nat): string {
    var prefix, value := StandardPrefix(d, negative, magnitude), StandardValue(d, magnitude);
    var padding := d.width - |prefix| - |value|;
    if d.left then prefix + value + Repeat(' ', padding)
    else if d.zero && d.precision < 0 then prefix + Repeat('0', padding) + value
    else Repeat(' ', padding) + prefix + value
  }

  function StandardText(machine: Machine, d: Directive, args: seq<Arg>): string {
    var (negative, magnitude) := StandardNumber(machine, d, args);
    StandardForm(d, negative, magnitude)
  }

  // ---------- The exact condition ----------

  /** The argument lies in the range of the type its length modifier names. */
  predicate Fits(machine: Machine, d: Directive, args: seq<Arg>) {
    if IsSigned(d.conversion) then
      var v := SignedArgument(machine, d.length, args);
      && (d.length == 5 ==> -0x80 <= v < 0x80)
      && (d.length == 4 ==> -0x8000 <= v < 0x8000)
      && (d.length == 3 && machine.I686? ==> v < 0x8000_0000)
    else
      var v := UnsignedArgument(machine, d.length, args);
      && (d.length == 5 ==> v < 0x100)
      && (d.length == 4 ==> v < 0x1_0000)
  }

  /** The field is to be padded, and a precision asks for more zeros or for no zero padding. */
  predicate WidthMisread(d: Directive, negative: bool, n: nat) {
    Padding(d, negative, n) > 0 && (d.precision > n || (d.zero && !d.left && d.precision >= 0))
  }

  /** A + flag shows, or a 0x that # puts in front. */
  predicate MarkDropped(d: Directive, negative: bool, magnitude: nat) {
    if IsSigned(d.conversion) then d.plus && !negative
    else d.alternate && magnitude != 0 && (d.conversion == 'x' || d.conversion == 'X')
  }

  /** # asks for one more zero in front of an octal number of `n` digits. */
  predicate ZeroAsked(d: Directive, magnitude: nat, n: nat) {
    d.alternate && d.conversion == 'o' && d.precision <= n && (magnitude != 0 || d.precision == 0)
  }

  /**
    * Which forms come out right. A zero asked for by # can hide in zero padding, and a blank asked for
    * by the space flag in blank padding.
    */
  predicate FormKept(d: Directive, negative: bool, magnitude: nat) {
    var n := |NumberDigits(d, magnitude)|;
    var padding := Padding(d, negative, n);
    if MarkDropped(d, negative, magnitude) then false
    else if ZeroAsked(d, magnitude, n) then
      !d.left && d.zero && padding > 0 && (d.precision < 0 || padding == 1)
    else if IsSigned(d.conversion) && d.space && !negative then
      if n == 0 then padding > 0 && (d.left || !d.zero)
      else !d.left && !d.zero && padding > 0 && (d.precision <= n || padding == 1)
    else !WidthMisread(d, negative, n)
  }

  /** Every integer conversion, whatever its flags: the text is the standard's exactly under these two conditions. */
  lemma StandardExactly(machine: Machine, d: Directive, args: seq<Arg>)
    requires IsInteger(d.conversion)
    ensures var (negative, magnitude) := Argument(machine, d, args);
            OneDirective(machine, d, args).0 == StandardText(machine, d, args) <==>
              Fits(machine, d, args) && FormKept(d, negative, magnitude)
  {
    var (negative, magnitude) := Argument(machine, d, args);
    var (negative', magnitude') := StandardNumber(machine, d, args);
    IntegerText(machine, d, args);
    FitsExactly(machine, d, args);
    FormExactly(d, negative, magnitude);
    if !Fits(machine, d, args) { OtherNumberDiffers(d, (negative, magnitude), (negative', magnitude')); }
  }

  lemma IntegerText(machine: Machine, d: Directive, args: seq<Arg>)
    requires IsInteger(d.conversion)
    ensures var (negative, magnitude) := Argument(machine, d, args);
            && OneDirective(machine, d, args).0 == NumberText(d, negative, magnitude)
            && (negative ==> IsSigned(d.conversion) && magnitude > 0)
  {
  }

  /** Of a 32-bit argument, the low bits are those of the whole. */
  lemma LowByte(bits: nat)
    ensures bits % 0x1_0000_0000 % 0x100 == bits % 0x100
  {
    var q, word := bits / 0x1_0000_0000, bits % 0x1_0000_0000;
    ByteOf(bits, 0x100_0000 * q + word / 0x100, word % 0x100);
  }

  lemma ByteOf(bits: nat, q: nat, r: nat)
    requires bits == 0x100 * q + r && r < 0x100
    ensures bits % 0x100 == r
  {
  }

  lemma LowHalf(bits: nat)
    ensures bits % 0x1_0000_0000 % 0x1_0000 == bits % 0x1_0000
  {
    var q, word := bits / 0x1_0000_0000, bits % 0x1_0000_0000;
    HalfOf(bits, 0x1_0000 * q + word / 0x1_0000, word % 0x1_0000);
  }

  lemma HalfOf(bits: nat, q: nat, r: nat)
    requires bits == 0x1_0000 * q + r && r < 0x1_0000
    ensures bits % 0x1_0000 == r
  {
  }

  lemma SignedFits(word: nat, low: nat, narrow: nat)
    requires word < 0x1_0000_0000
    requires (narrow == 0x100 && low == word % 0x100) || (narrow == 0x1_0000 && low == word % 0x1_0000)
    ensures var v := if word >= 0x8000_0000 then word - 0x1_0000_0000 else word;
            -(narrow / 2) <= v < narrow / 2 <==> v == if low >= narrow / 2 then low - narrow else low
  {
    if narrow == 0x100 {
      if word >= 0xFFFF_FF80 { ByteOf(word, 0xFF_FFFF, word - 0xFFFF_FF00); }
    } else {
      if word >= 0xFFFF_8000 { HalfOf(word, 0xFFFF, word - 0xFFFF_0000); }
    }
  }

  /** The value of a sign and magnitude. */
  function ValueOf(number: (bool, nat)): int {
    var magnitude: int := number.1;
    if number.0 then -magnitude else magnitude
  }

  lemma SameValue(a: (bool, nat), b: (bool, nat))
    requires (a.0 ==> a.1 > 0) && (b.0 ==> b.1 > 0)
    ensures a == b <==> ValueOf(a) == ValueOf(b)
  {
  }

  /** The low bits that h and hh leave of an argument. */
  lemma NarrowLow(bits: nat, length: nat)
    requires length == 4 || length == 5
    ensures var low := bits % 0x1_0000_0000 % (if length == 5 then 0x100 else 0x1_0000);
            forall machine :: low == bits % StandardModulus(machine, length)
  {
    LowByte(bits);
    LowHalf(bits);
  }

  lemma IntArgumentOf(machine: Machine, d: Directive, args: seq<Arg>)
    requires IsSigned(d.conversion) && (d.length == 4 || d.length == 5)
    ensures var word := BitsOf(args) % 0x1_0000_0000;
            var v := if word >= 0x8000_0000 then word - 0x1_0000_0000 else word;
            SignedArgument(machine, d.length, args) == v == ValueOf(Argument(machine, d, args))
  {
  }

  lemma StandardOf(machine: Machine, d: Directive, args: seq<Arg>, low: nat, narrow: nat)
    requires IsSigned(d.conversion) && narrow == StandardModulus(machine, d.length) && low == BitsOf(args) % narrow
    ensures ValueOf(StandardNumber(machine, d, args)) == if low >= narrow / 2 then low - narrow else low
  {
  }

  lemma NarrowSigned(machine: Machine, d: Directive, args: seq<Arg>)
    requires IsSigned(d.conversion) && (d.length == 4 || d.length == 5)
    ensures Fits(machine, d, args) <==>
            ValueOf(Argument(machine, d, args)) == ValueOf(StandardNumber(machine, d, args))
  {
    var bits := BitsOf(args);
    var word := bits % 0x1_0000_0000;
    var narrow := if d.length == 5 then 0x100 else 0x1_0000;
    var low := bits % StandardModulus(machine, d.length);
    NarrowLow(bits, d.length);
    SignedFits(word, low, narrow);
    IntArgumentOf(machine, d, args);
    StandardOf(machine, d, args, low, narrow);
  }

  lemma NarrowUnsigned(machine: Machine, d: Directive, args: seq<Arg>)
    requires IsInteger(d.conversion) && !IsSigned(d.conversion) && (d.length == 4 || d.length == 5)
    ensures Fits(machine, d, args) <==>
            ValueOf(Argument(machine, d, args)) == ValueOf(StandardNumber(machine, d, args))
  {
    NarrowLow(BitsOf(args), d.length);
  }

  lemma WideFits(machine: Machine, d: Directive, args: seq<Arg>)
    requires IsInteger(d.conversion) && d.length != 4 && d.length != 5
    ensures Fits(machine, d, args) <==>
            ValueOf(Argument(machine, d, args)) == ValueOf(StandardNumber(machine, d, args))
  {
  }

  lemma FitsExactly(machine: Machine, d: Directive, args: seq<Arg>)
    requires IsInteger(d.conversion)
    ensures Fits(machine, d, args) <==> Argument(machine, d, args) == StandardNumber(machine, d, args)
  {
    SameValue(Argument(machine, d, args), StandardNumber(machine, d, args));
    if d.length != 4 && d.length != 5 {
      WideFits(machine, d, args);
    } else if IsSigned(d.conversion) {
      NarrowSigned(machine, d, args);
    } else {
      NarrowUnsigned(machine, d, args);
    }
  }

  // ---------- The number a text spells ----------

  function Times(v: nat, base: nat): nat
    requires IsBase(base)
  {
    if base == 8 then v * 8 else if base == 10 then v * 10 else v * 16
  }

  /** The number the digits of a text spell, whatever stands between them. */
  function Spelled(s: string, base: nat): nat
    requires IsBase(base)
  {
    if s == "" then 0 else
    var front, last := Spelled(s[..|s| - 1], base), s[|s| - 1];
    if DigitOf(last, base) then Times(front, base) + DigitValue(last) else front
  }

  /** What stands around the digits. */
  predicate Around(c: char) { c == ' ' || c == '-' || c == '+' || c == '0' || c == 'x' || c == 'X' }

  lemma {:induction false} SpelledAround(front: string, s: string, base: nat)
    requires IsBase(base) && forall k :: 0 <= k < |front| ==> Around(front[k])
    ensures Spelled(front + s, base) == Spelled(s, base)
    decreases |s|, |front|
  {
    if s != "" {
      assert (front + s)[..|front + s| - 1] == front + s[..|s| - 1];
      SpelledAround(front, s[..|s| - 1], base);
    } else if front != "" {
      assert front + s == front && front[..|front| - 1] + "" == front[..|front| - 1];
      SpelledAround(front[..|front| - 1], "", base);
    }
  }

  lemma {:induction false} SpelledBefore(s: string, blanks: string, base: nat)
    requires IsBase(base) && forall k :: 0 <= k < |blanks| ==> blanks[k] == ' '
    ensures Spelled(s + blanks, base) == Spelled(s, base)
    decreases |blanks|
  {
    if blanks == "" {
      assert s + blanks == s;
    } else {
      assert (s + blanks)[..|s + blanks| - 1] == s + blanks[..|blanks| - 1];
      SpelledBefore(s, blanks[..|blanks| - 1], base);
    }
  }

  lemma {:induction false} DigitsSpell(m: nat, base: nat, upper: bool)
    requires IsBase(base)
    ensures Spelled(Digits(m, base, upper), base) == m
    decreases m
  {
    LastDigit(m, base, upper);
    QuotientAndRemainder(m, base);
    if m < base {
      OneDigitMore("", m, base, upper);
    } else {
      var q := Quotient(m, base);
      DigitsSpell(q, base, upper);
      OneDigitMore(Digits(q, base, upper), Remainder(m, base), base, upper);
    }
  }

  lemma LastDigit(m: nat, base: nat, upper: bool)
    requires IsBase(base)
    ensures Digits(m, base, upper) ==
            (if m < base then "" else Digits(Quotient(m, base), base, upper)) + [DigitChar(Remainder(m, base), upper)]
    ensures m < base ==> Remainder(m, base) == m
  {
  }

  lemma OneDigitMore(front: string, digit: nat, base: nat, upper: bool)
    requires IsBase(base) && digit < base
    ensures Spelled(front + [DigitChar(digit, upper)], base) == Times(Spelled(front, base), base) + digit
  {
    var s := front + [DigitChar(digit, upper)];
    assert s[..|s| - 1] == front && s[|s| - 1] == DigitChar(digit, upper);
    assert DigitValue(DigitChar(digit, upper)) == digit;
  }

  lemma QuotientAndRemainder(m: nat, base: nat)
    requires IsBase(base)
    ensures m == Times(if m < base then 0 else Quotient(m, base), base) + Remainder(m, base)
    ensures m >= base ==> Quotient(m, base) < m
  {
  }

  /** No digit is a sign, a blank or an x. */
  lemma {:induction false} DigitsAreNoMarks(m: nat, base: nat, upper: bool, k: nat)
    requires IsBase(base) && k < |Digits(m, base, upper)|
    ensures NoMark(Digits(m, base, upper)[k])
    decreases m
  {
    LastDigit(m, base, upper);
    QuotientAndRemainder(m, base);
    if m >= base && k < |Digits(m, base, upper)| - 1 {
      DigitsAreNoMarks(Quotient(m, base), base, upper, k);
    } else {
      DigitIsNoMark(Remainder(m, base), upper);
    }
  }

  predicate NoMark(c: char) { c != ' ' && c != '-' && c != '+' && c != 'x' && c != 'X' }

  lemma DigitIsNoMark(digit: nat, upper: bool)
    requires digit < 16
    ensures NoMark(DigitChar(digit, upper))
  {
  }

  // ---------- Layouts ----------

  /** How many blanks stand before, how many zeros in front of the digits, and how many blanks behind. */
  datatype Shape = Shape(before: nat, zeros: nat, behind: nat)

  /** Both texts are laid out like this. */
  function Laid(shape: Shape, prefix: string, digits: string): string {
    Repeat(' ', shape.before) + prefix + Repeat('0', shape.zeros) + digits + Repeat(' ', shape.behind)
  }

  function AtLeast0(n: int): nat { if n < 0 then 0 else n }

  lemma RepeatTwice(c: char, a: int, b: int)
    ensures Repeat(c, a) + Repeat(c, b) == Repeat(c, AtLeast0(a) + AtLeast0(b))
  {
  }

  function Minus(negative: bool): string { if negative then "-" else "" }

  /** Where the code puts its padding: blanks before, zeros, or blanks behind. */
  function Blanks(d: Directive, padding: int): nat { if !d.left && !d.zero then AtLeast0(padding) else 0 }

  function Fill(d: Directive, padding: int): nat { if !d.left && d.zero then AtLeast0(padding) else 0 }

  function Behind(d: Directive, padding: int): nat { if d.left then AtLeast0(padding) else 0 }

  function CodeShape(d: Directive, padding: int, n: nat): Shape {
    Shape(Blanks(d, padding), Fill(d, padding) + AtLeast0(d.precision - n), Behind(d, padding))
  }

  function CodeShapeOf(d: Directive, negative: bool, magnitude: nat): Shape {
    var n := |NumberDigits(d, magnitude)|;
    CodeShape(d, Padding(d, negative, n), n)
  }

  lemma HeadLayout(d: Directive, negative: bool, padding: int)
    requires d.conversion != 'p'
    ensures Head(d, negative, padding) ==
            Repeat(' ', Blanks(d, padding)) + Minus(negative) + Repeat('0', Fill(d, padding))
  {
    assert Sign(d, negative) == Minus(negative);
  }

  lemma TailLayout(d: Directive, padding: int, digits: string)
    ensures Tail(d, padding, digits) ==
            Repeat('0', AtLeast0(d.precision - |digits|)) + digits + Repeat(' ', Behind(d, padding))
  {
  }

  lemma CodeLaid(d: Directive, negative: bool, padding: int, digits: string)
    requires d.conversion != 'p'
    ensures Head(d, negative, padding) + Tail(d, padding, digits) ==
            Laid(CodeShape(d, padding, |digits|), Minus(negative), digits)
  {
    HeadLayout(d, negative, padding);
    TailLayout(d, padding, digits);
    ZerosTogether(Repeat(' ', Blanks(d, padding)), Minus(negative), Fill(d, padding),
                  AtLeast0(d.precision - |digits|), digits, Repeat(' ', Behind(d, padding)));
  }

  lemma ZerosTogether(blanks: string, prefix: string, fill: nat, zeros: nat, digits: string, trailing: string)
    ensures (blanks + prefix + Repeat('0', fill)) + (Repeat('0', zeros) + digits + trailing) ==
            blanks + prefix + Repeat('0', fill + zeros) + digits + trailing
  {
    RepeatTwice('0', fill, zeros);
    RegroupCode(blanks, prefix, Repeat('0', fill), Repeat('0', zeros), digits, trailing);
  }

  lemma RegroupCode(a: string, b: string, c: string, d: string, e: string, f: string)
    ensures (a + b + c) + (d + e + f) == a + b + (c + d) + e + f
  {
  }

  lemma CodeLayout(d: Directive, negative: bool, magnitude: nat)
    requires d.conversion != 'p'
    ensures NumberText(d, negative, magnitude) ==
            Laid(CodeShapeOf(d, negative, magnitude), Minus(negative), NumberDigits(d, magnitude))
  {
    var digits := NumberDigits(d, magnitude);
    CodeLaid(d, negative, Padding(d, negative, |digits|), digits);
  }

  /** How many zeros the standard has in front of the digits, the padding apart. */
  function StandardZeros(d: Directive, magnitude: nat): nat {
    var n := |NumberDigits(d, magnitude)|;
    AtLeast0(d.precision - n) + if ZeroAsked(d, magnitude, n) then 1 else 0
  }

  lemma {:induction false} FirstDigit(m: nat, base: nat, upper: bool)
    requires IsBase(base)
    ensures Digits(m, base, upper)[0] == '0' <==> m == 0
    decreases m
  {
    if m >= base {
      QuotientAndRemainder(m, base);
      FirstDigit(Quotient(m, base), base, upper);
    }
  }

  lemma ValueLayout(d: Directive, magnitude: nat)
    ensures StandardValue(d, magnitude) == Repeat('0', StandardZeros(d, magnitude)) + NumberDigits(d, magnitude)
  {
    var digits := NumberDigits(d, magnitude);
    var n := |digits|;
    var value := Repeat('0', d.precision - n) + digits;
    FirstDigit(magnitude, BaseOf(d.conversion), d.conversion == 'X');
    assert d.precision > n ==> value[0] == '0';
    assert d.precision <= n ==> value == digits;
    assert d.precision <= n ==> (value == "" || value[0] != '0' <==> magnitude != 0 || d.precision == 0);
    if ZeroAsked(d, magnitude, n) {
      assert Repeat('0', 1) == "0";
    }
  }

  predicate ZeroPadded(d: Directive) { !d.left && d.zero && d.precision < 0 }

  /** What is left of the width for the standard's padding. */
  function StandardPadding(d: Directive, negative: bool, magnitude: nat): int {
    d.width - |StandardPrefix(d, negative, magnitude)| - StandardZeros(d, magnitude) - |NumberDigits(d, magnitude)|
  }

  function StandardShape(d: Directive, negative: bool, magnitude: nat): Shape {
    var padding := AtLeast0(StandardPadding(d, negative, magnitude));
    Shape(if d.left || ZeroPadded(d) then 0 else padding,
          StandardZeros(d, magnitude) + (if ZeroPadded(d) then padding else 0),
          if d.left then padding else 0)
  }

  lemma StandardLayout(d: Directive, negative: bool, magnitude: nat)
    ensures StandardForm(d, negative, magnitude) ==
            Laid(StandardShape(d, negative, magnitude), StandardPrefix(d, negative, magnitude),
                 NumberDigits(d, magnitude))
  {
    var padding := StandardPadding(d, negative, magnitude);
    var prefix, digits := StandardPrefix(d, negative, magnitude), NumberDigits(d, magnitude);
    var zeros := StandardZeros(d, magnitude);
    ValueLayout(d, magnitude);
    RepeatTwice('0', if ZeroPadded(d) then padding else 0, zeros);
    RegroupStandard(prefix, Repeat('0', if ZeroPadded(d) then padding else 0), Repeat('0', zeros), digits,
                    Repeat(' ', padding));
  }

  lemma RegroupStandard(prefix: string, fill: string, zeros: string, digits: string, blanks: string)
    ensures prefix + (zeros + digits) + blanks == "" + prefix + zeros + digits + blanks
    ensures prefix + fill + (zeros + digits) == "" + prefix + (fill + zeros) + digits + ""
    ensures blanks + prefix + (zeros + digits) == blanks + prefix + zeros + digits + ""
  {
  }

  // ---------- Different numbers give different texts ----------

  /** What the two texts have for a sign or a base. */
  predicate PrefixFor(negative: bool, prefix: string) {
    if negative then prefix == "-"
    else prefix == "" || prefix == "+" || prefix == " " || prefix == "0x" || prefix == "0X"
  }

  lemma FrontIsAround(negative: bool, before: nat, prefix: string, zeros: nat)
    requires PrefixFor(negative, prefix)
    ensures var front := Repeat(' ', before) + prefix + Repeat('0', zeros);
            (forall k :: 0 <= k < |front| ==> Around(front[k])) && ('-' in front <==> negative)
  {
    var front := Repeat(' ', before) + prefix + Repeat('0', zeros);
    if negative { assert front[before] == '-'; }
  }

  lemma LayoutDenotes(d: Directive, negative: bool, magnitude: nat, shape: Shape, prefix: string)
    requires PrefixFor(negative, prefix)
    ensures var text := Laid(shape, prefix, NumberDigits(d, magnitude));
            Spelled(text, BaseOf(d.conversion)) == magnitude && ('-' in text <==> negative)
  {
    var base, digits := BaseOf(d.conversion), NumberDigits(d, magnitude);
    var front := Repeat(' ', shape.before) + prefix + Repeat('0', shape.zeros);
    FrontIsAround(negative, shape.before, prefix, shape.zeros);
    SpelledBefore(front + digits, Repeat(' ', shape.behind), base);
    SpelledAround(front, digits, base);
    if digits != "" { DigitsSpell(magnitude, base, d.conversion == 'X'); }
    MinusOnlyInFront(d, magnitude, front, shape.behind);
  }

  lemma MinusOnlyInFront(d: Directive, magnitude: nat, front: string, behind: nat)
    ensures '-' in front + NumberDigits(d, magnitude) + Repeat(' ', behind) <==> '-' in front
  {
    var digits := NumberDigits(d, magnitude);
    DigitsHaveNoMarks(d, magnitude);
    var text := front + digits + Repeat(' ', behind);
    forall k | 0 <= k < |front| ensures text[k] == front[k] {}
  }

  /** Texts of different numbers differ, whatever the flags. */
  lemma OtherNumberDiffers(d: Directive, a: (bool, nat), b: (bool, nat))
    requires d.conversion != 'p' && a != b
    ensures NumberText(d, a.0, a.1) != StandardForm(d, b.0, b.1)
  {
    CodeLayout(d, a.0, a.1);
    LayoutDenotes(d, a.0, a.1, CodeShapeOf(d, a.0, a.1), Minus(a.0));
    StandardLayout(d, b.0, b.1);
    LayoutDenotes(d, b.0, b.1, StandardShape(d, b.0, b.1), StandardPrefix(d, b.0, b.1));
  }

  // ---------- The forms ----------

  lemma DigitsHaveNoMarks(d: Directive, magnitude: nat)
    ensures forall k :: 0 <= k < |NumberDigits(d, magnitude)| ==> NoMark(NumberDigits(d, magnitude)[k])
  {
    var digits := NumberDigits(d, magnitude);
    forall k | 0 <= k < |digits| ensures NoMark(digits[k]) {
      DigitsAreNoMarks(magnitude, BaseOf(d.conversion), d.conversion == 'X', k);
    }
  }

  /** With digits in it, a text has one layout only. */
  lemma OneLayout(prefix: string, digits: string, a: Shape, b: Shape)
    requires digits != "" && ' ' !in digits && ' ' !in prefix
    ensures Laid(a, prefix, digits) == Laid(b, prefix, digits) <==> a == b
  {
    if Laid(a, prefix, digits) == Laid(b, prefix, digits) {
      FewerBlanks(prefix, digits, a, b);
      FewerBlanks(prefix, digits, b, a);
    }
  }

  lemma FewerBlanks(prefix: string, digits: string, a: Shape, b: Shape)
    requires digits != "" && ' ' !in digits && ' ' !in prefix
    requires Laid(a, prefix, digits) == Laid(b, prefix, digits)
    ensures a.before >= b.before && a.behind >= b.behind
  {
    var text := Laid(a, prefix, digits);
    CoreAt(prefix, digits, a);
    assert forall k :: 0 <= k < b.before ==> text[k] == ' ';
    assert forall k :: |text| - b.behind <= k < |text| ==> text[k] == ' ';
  }

  /** Where the blanks of a layout end. */
  lemma CoreAt(prefix: string, digits: string, a: Shape)
    requires digits != "" && ' ' !in digits && ' ' !in prefix
    ensures var text := Laid(a, prefix, digits);
            a.before + a.behind < |text| && text[a.before] != ' ' && text[|text| - 1 - a.behind] != ' '
  {
    var core := prefix + Repeat('0', a.zeros) + digits;
    assert Laid(a, prefix, digits) == Repeat(' ', a.before) + core + Repeat(' ', a.behind);
    assert core[|core| - 1] == digits[|digits| - 1];
  }

  lemma FormExactly(d: Directive, negative: bool, magnitude: nat)
    requires IsInteger(d.conversion) && (negative ==> IsSigned(d.conversion) && magnitude > 0)
    ensures NumberText(d, negative, magnitude) == StandardForm(d, negative, magnitude) <==>
            FormKept(d, negative, magnitude)
  {
    if MarkDropped(d, negative, magnitude) {
      MarkDiffers(d, negative, magnitude);
    } else if NumberDigits(d, magnitude) == "" {
      NothingPrinted(d, magnitude);
    } else {
      DigitsPrinted(d, negative, magnitude);
      SameShape(d, negative, magnitude);
    }
  }

  /** The code never writes a plus sign or an x. */
  lemma NoMarks(d: Directive, negative: bool, magnitude: nat)
    requires IsInteger(d.conversion)
    ensures var text := NumberText(d, negative, magnitude);
            '+' !in text && 'x' !in text && 'X' !in text
  {
    CodeLayout(d, negative, magnitude);
    DigitsHaveNoMarks(d, magnitude);
    LaidHasNoMarks(CodeShapeOf(d, negative, magnitude), Minus(negative), NumberDigits(d, magnitude));
  }

  lemma LaidHasNoMarks(shape: Shape, prefix: string, digits: string)
    requires prefix == "" || prefix == "-"
    requires forall k :: 0 <= k < |digits| ==> NoMark(digits[k])
    ensures var text := Laid(shape, prefix, digits);
            '+' !in text && 'x' !in text && 'X' !in text
  {
  }

  lemma MarkDiffers(d: Directive, negative: bool, magnitude: nat)
    requires IsInteger(d.conversion) && MarkDropped(d, negative, magnitude)
    requires negative ==> IsSigned(d.conversion)
    ensures NumberText(d, negative, magnitude) != StandardForm(d, negative, magnitude)
  {
    NoMarks(d, negative, magnitude);
    StandardLayout(d, negative, magnitude);
    var prefix := StandardPrefix(d, negative, magnitude);
    PrefixIn(StandardShape(d, negative, magnitude), prefix, NumberDigits(d, magnitude));
    assert prefix == "+" || prefix == "0x" || prefix == "0X";
  }

  /** The last character of the prefix is in the text. */
  lemma PrefixIn(shape: Shape, prefix: string, digits: string)
    requires prefix != ""
    ensures prefix[|prefix| - 1] in Laid(shape, prefix, digits)
  {
    assert Laid(shape, prefix, digits)[shape.before + |prefix| - 1] == prefix[|prefix| - 1];
  }

  /** The standard's shape, a blank prefix counted as a blank before. */
  function BlankShape(d: Directive, negative: bool, magnitude: nat): Shape {
    var shape := StandardShape(d, negative, magnitude);
    if StandardPrefix(d, negative, magnitude) == " " then shape.(before := shape.before + 1) else shape
  }

  lemma BlankPrefix(shape: Shape, digits: string)
    ensures Laid(shape, " ", digits) == Laid(shape.(before := shape.before + 1), "", digits)
  {
    assert Repeat(' ', shape.before) + " " == Repeat(' ', shape.before + 1) + "";
  }

  lemma StandardBlankLayout(d: Directive, negative: bool, magnitude: nat)
    requires IsInteger(d.conversion) && !MarkDropped(d, negative, magnitude)
    ensures StandardForm(d, negative, magnitude) ==
            Laid(BlankShape(d, negative, magnitude), Minus(negative), NumberDigits(d, magnitude))
  {
    StandardLayout(d, negative, magnitude);
    BlankPrefix(StandardShape(d, negative, magnitude), NumberDigits(d, magnitude));
  }

  lemma DigitsPrinted(d: Directive, negative: bool, magnitude: nat)
    requires IsInteger(d.conversion)
    requires !MarkDropped(d, negative, magnitude) && NumberDigits(d, magnitude) != ""
    ensures NumberText(d, negative, magnitude) == StandardForm(d, negative, magnitude) <==>
            CodeShapeOf(d, negative, magnitude) == BlankShape(d, negative, magnitude)
  {
    CodeLayout(d, negative, magnitude);
    StandardBlankLayout(d, negative, magnitude);
    DigitsHaveNoMarks(d, magnitude);
    OneLayout(Minus(negative), NumberDigits(d, magnitude), CodeShapeOf(d, negative, magnitude),
              BlankShape(d, negative, magnitude));
  }

  /** The two shapes agree exactly under the condition on the form. */
  lemma SameShape(d: Directive, negative: bool, magnitude: nat)
    requires IsInteger(d.conversion) && (negative ==> IsSigned(d.conversion) && magnitude > 0)
    requires !MarkDropped(d, negative, magnitude) && NumberDigits(d, magnitude) != ""
    ensures CodeShapeOf(d, negative, magnitude) == BlankShape(d, negative, magnitude) <==>
            FormKept(d, negative, magnitude)
  {
    if ZeroAsked(d, magnitude, |NumberDigits(d, magnitude)|) {
      SameWithZero(d, magnitude);
    } else if IsSigned(d.conversion) && d.space && !negative {
      SameWithBlank(d, magnitude);
    } else {
      SameWithout(d, negative, magnitude);
    }
  }

  lemma SameWithZero(d: Directive, magnitude: nat)
    requires ZeroAsked(d, magnitude, |NumberDigits(d, magnitude)|) && NumberDigits(d, magnitude) != ""
    ensures CodeShapeOf(d, false, magnitude) == BlankShape(d, false, magnitude) <==> FormKept(d, false, magnitude)
  {
    assert StandardPrefix(d, false, magnitude) == "";
  }

  lemma SameWithBlank(d: Directive, magnitude: nat)
    requires IsSigned(d.conversion) && d.space && !d.plus && NumberDigits(d, magnitude) != ""
    ensures CodeShapeOf(d, false, magnitude) == BlankShape(d, false, magnitude) <==> FormKept(d, false, magnitude)
  {
    assert StandardPrefix(d, false, magnitude) == " ";
  }

  lemma SameWithout(d: Directive, negative: bool, magnitude: nat)
    requires IsInteger(d.conversion) && (negative ==> IsSigned(d.conversion) && magnitude > 0)
    requires !MarkDropped(d, negative, magnitude) && NumberDigits(d, magnitude) != ""
    requires !ZeroAsked(d, magnitude, |NumberDigits(d, magnitude)|)
    requires !(IsSigned(d.conversion) && d.space && !negative)
    ensures CodeShapeOf(d, negative, magnitude) == BlankShape(d, negative, magnitude) <==>
            FormKept(d, negative, magnitude)
  {
    assert StandardPrefix(d, negative, magnitude) == Minus(negative);
  }

  lemma NoDigits(shape: Shape)
    ensures shape.zeros == 0 ==> Laid(shape, "", "") == Repeat(' ', shape.before + shape.behind)
    ensures shape.before == 0 && shape.behind == 0 ==> Laid(shape, "", "") == Repeat('0', shape.zeros)
    ensures |Laid(shape, "", "")| == shape.before + shape.zeros + shape.behind
    ensures shape.zeros > 0 ==> Laid(shape, "", "")[shape.before] == '0'
    ensures shape.before > 0 ==> Laid(shape, "", "")[0] == ' '
  {
  }

  lemma CodePrintsNothing(d: Directive, magnitude: nat)
    requires IsInteger(d.conversion) && NumberDigits(d, magnitude) == ""
    ensures NumberText(d, false, magnitude) == Repeat(if !d.left && d.zero then '0' else ' ', AtLeast0(d.width))
  {
    CodeLayout(d, false, magnitude);
    NoDigits(CodeShapeOf(d, false, magnitude));
  }

  /** A zero with precision zero: nothing but padding, and what # and the space flag ask for. */
  lemma NothingPrinted(d: Directive, magnitude: nat)
    requires IsInteger(d.conversion) && NumberDigits(d, magnitude) == "" && !MarkDropped(d, false, magnitude)
    ensures NumberText(d, false, magnitude) == StandardForm(d, false, magnitude) <==> FormKept(d, false, magnitude)
  {
    CodePrintsNothing(d, magnitude);
    StandardBlankLayout(d, false, magnitude);
    if ZeroAsked(d, magnitude, 0) {
      NothingWithZero(d, magnitude);
    } else {
      NothingWithout(d, magnitude);
    }
  }

  /** # asks for one zero: it is there exactly if the padding is that zero. */
  lemma NothingWithZero(d: Directive, magnitude: nat)
    requires NumberDigits(d, magnitude) == "" && ZeroAsked(d, magnitude, 0)
    ensures var text := Repeat(if !d.left && d.zero then '0' else ' ', AtLeast0(d.width));
            text == Laid(BlankShape(d, false, magnitude), "", "") <==> FormKept(d, false, magnitude)
  {
    var shape := BlankShape(d, false, magnitude);
    assert StandardPrefix(d, false, magnitude) == "" && shape.zeros == 1;
    NoDigits(shape);
    OneZero(if !d.left && d.zero then '0' else ' ', AtLeast0(d.width), shape);
  }

  lemma OneZero(c: char, width: nat, shape: Shape)
    requires shape.zeros == 1
    ensures Repeat(c, width) == Laid(shape, "", "") <==> c == '0' && width == 1 && shape.before == 0 == shape.behind
  {
    var text := Laid(shape, "", "");
    assert text[shape.before] == '0';
    assert shape.before > 0 ==> text[0] == ' ';
    assert shape.behind > 0 ==> text[|text| - 1] == ' ';
    assert Laid(Shape(0, 1, 0), "", "") == "0" && Repeat('0', 1) == "0";
  }

  /** The width, or the one blank of the space flag. */
  lemma BlanksOnly(d: Directive, magnitude: nat)
    requires IsInteger(d.conversion) && NumberDigits(d, magnitude) == "" && !MarkDropped(d, false, magnitude)
    requires !ZeroAsked(d, magnitude, 0)
    ensures var shape := BlankShape(d, false, magnitude);
            && shape.zeros == 0
            && shape.before + shape.behind ==
                 if IsSigned(d.conversion) && d.space && d.width < 1 then 1 else AtLeast0(d.width)
  {
    assert d.precision == 0 && magnitude == 0;
    assert StandardPrefix(d, false, magnitude) == if IsSigned(d.conversion) && d.space then " " else "";
  }

  lemma NothingWithout(d: Directive, magnitude: nat)
    requires IsInteger(d.conversion) && NumberDigits(d, magnitude) == "" && !MarkDropped(d, false, magnitude)
    requires !ZeroAsked(d, magnitude, 0)
    ensures var text := Repeat(if !d.left && d.zero then '0' else ' ', AtLeast0(d.width));
            text == Laid(BlankShape(d, false, magnitude), "", "") <==> FormKept(d, false, magnitude)
  {
    var shape := BlankShape(d, false, magnitude);
    BlanksOnly(d, magnitude);
    NoDigits(shape);
    SameBlanks(if !d.left && d.zero then '0' else ' ', AtLeast0(d.width), shape.before + shape.behind);
  }

  lemma SameBlanks(c: char, width: nat, blanks: nat)
    ensures Repeat(c, width) == Repeat(' ', blanks) <==> width == blanks && (c == ' ' || width == 0)
  {
    if width > 0 && blanks > 0 { assert Repeat(c, width)[0] == c && Repeat(' ', blanks)[0] == ' '; }
  }

  // ---------- One input for each way to miss it ----------

  /** A directive without flags, width, precision or length. */
  const PLAIN := Directive(false, false, false, false, false, 0, -1, 0, 'd')

  /** What a nonnegative number comes out as, and what the standard asks for. */
  predicate Prints(d: Directive, m: nat, text: string, standard: string) {
    NumberText(d, false, m) == text && StandardForm(d, false, m) == standard
  }

  /** Both texts, by their layouts. */
  lemma PrintsByLayout(d: Directive, m: nat, code: Shape, standard: Shape, prefix: string)
    requires d.conversion != 'p' && StandardPrefix(d, false, m) == prefix
    requires CodeShapeOf(d, false, m) == code && StandardShape(d, false, m) == standard
    ensures Prints(d, m, Laid(code, "", NumberDigits(d, m)), Laid(standard, prefix, NumberDigits(d, m)))
  {
    CodeLayout(d, false, m);
    StandardLayout(d, false, m);
  }

  /** Without a width or a precision, the standard may have a prefix or a zero that the code does not have. */
  lemma PrintsUnpadded(d: Directive, m: nat)
    requires d.conversion != 'p' && d.width == 0 && d.precision < 0
    ensures var digits := NumberDigits(d, m);
            var zero := if ZeroAsked(d, m, |digits|) then "0" else "";
            Prints(d, m, digits, StandardPrefix(d, false, m) + zero + digits)
  {
    UnpaddedShapes(d, m);
    var zeros := if ZeroAsked(d, m, |NumberDigits(d, m)|) then 1 else 0;
    PrintsByLayout(d, m, Shape(0, 0, 0), Shape(0, zeros, 0), StandardPrefix(d, false, m));
    UnpaddedLaid(zeros, StandardPrefix(d, false, m), NumberDigits(d, m));
    UnpaddedLaid(0, "", NumberDigits(d, m));
  }

  lemma UnpaddedShapes(d: Directive, m: nat)
    requires d.conversion != 'p' && d.width == 0 && d.precision < 0
    ensures CodeShapeOf(d, false, m) == Shape(0, 0, 0)
    ensures StandardShape(d, false, m) == Shape(0, if ZeroAsked(d, m, |NumberDigits(d, m)|) then 1 else 0, 0)
  {
  }

  lemma UnpaddedLaid(zeros: nat, prefix: string, digits: string)
    requires zeros <= 1
    ensures Laid(Shape(0, zeros, 0), prefix, digits) == prefix + (if zeros == 1 then "0" else "") + digits
    ensures "" + "" + digits == digits
  {
    assert Repeat('0', zeros) == if zeros == 1 then "0" else "";
    assert Repeat(' ', 0) + prefix == prefix;
  }

  /** %+d of any number that is not negative. */
  lemma PlusDropped(d: Directive, m: nat)
    requires d == PLAIN.(plus := true)
    ensures Prints(d, m, Digits(m, 10, false), "+" + Digits(m, 10, false))
  {
    PrintsUnpadded(d, m);
    assert "+" + "" == "+";
  }

  /** The space flag on any number that is not negative. */
  lemma SpaceDropped(d: Directive, m: nat)
    requires d == PLAIN.(space := true)
    ensures Prints(d, m, Digits(m, 10, false), " " + Digits(m, 10, false))
  {
    PrintsUnpadded(d, m);
    assert " " + "" == " ";
  }

  /** %#x of any number but zero. */
  lemma BaseDropped(d: Directive, m: nat)
    requires d == PLAIN.(alternate := true, conversion := 'x') && m > 0
    ensures Prints(d, m, Digits(m, 16, false), "0x" + Digits(m, 16, false))
  {
    PrintsUnpadded(d, m);
    assert "0x" + "" == "0x";
  }

  /** %#o of any number but zero. */
  lemma OctalZeroDropped(d: Directive, m: nat)
    requires d == PLAIN.(alternate := true, conversion := 'o') && m > 0
    ensures Prints(d, m, Digits(m, 8, false), "0" + Digits(m, 8, false))
  {
    PrintsUnpadded(d, m);
    assert "" + "0" == "0";
  }

  /** %5.3d of a one-digit number: two blanks too many. */
  lemma PrecisionZerosNotCounted(d: Directive, m: nat)
    requires d == PLAIN.(width := 5, precision := 3) && m < 10
    ensures var digit := Digits(m, 10, false);
            Prints(d, m, "    " + "00" + digit, "  " + "00" + digit)
  {
    var digit := Digits(m, 10, false);
    PrintsByLayout(d, m, Shape(4, 2, 0), Shape(2, 2, 0), "");
    TwoZeros(4, "    ", digit);
    TwoZeros(2, "  ", digit);
  }

  lemma TwoZeros(n: nat, blanks: string, digits: string)
    requires |blanks| == n && forall k :: 0 <= k < n ==> blanks[k] == ' '
    ensures Laid(Shape(n, 2, 0), "", digits) == blanks + "00" + digits
  {
    assert Repeat(' ', n) + "" == blanks && Repeat('0', 2) == "00";
  }

  lemma NoZeros(n: nat, blanks: string, digits: string)
    requires |blanks| == n && forall k :: 0 <= k < n ==> blanks[k] == ' '
    ensures Laid(Shape(n, 0, 0), "", digits) == blanks + digits
  {
    assert Repeat(' ', n) + "" == blanks;
  }

  lemma OnlyZeros(digits: string)
    ensures Laid(Shape(0, 2, 0), "", digits) == "00" + digits
  {
    TwoZeros(0, "", digits);
    assert "" + "00" == "00";
  }

  /** %03.1d of a one-digit number: zeros where blanks belong. */
  lemma ZeroFlagWithPrecision(d: Directive, m: nat)
    requires d == PLAIN.(zero := true, width := 3, precision := 1) && m < 10
    ensures var digit := Digits(m, 10, false);
            Prints(d, m, "00" + digit, "  " + digit)
  {
    var digit := NumberDigits(d, m);
    assert |digit| == 1;
    PrintsByLayout(d, m, Shape(0, 2, 0), Shape(2, 0, 0), "");
    OnlyZeros(digit);
    NoZeros(2, "  ", digit);
  }

  /** %hhd of 300: the code prints 300, the standard converts to 44. */
  lemma NarrowLengthIgnored(machine: Machine)
    ensures var d, args := PLAIN.(length := 5), [Bits(300)];
            && Argument(machine, d, args) == (false, 300) && StandardNumber(machine, d, args) == (false, 44)
            && OneDirective(machine, d, args).0 != StandardText(machine, d, args)
  {
    var d, args := PLAIN.(length := 5), [Bits(300)];
    assert Argument(machine, d, args) == (false, 300) && StandardNumber(machine, d, args) == (false, 44);
    IntegerText(machine, d, args);
    OtherNumberDiffers(d, (false, 300), (false, 44));
  }

  /** %zd of -1 on the 32-bit target: the size_t is not read back as a signed number. */
  lemma NegativeSizePrintedUnsigned()
    ensures var d, args := PLAIN.(length := 3), [Bits(0xFFFF_FFFF)];
            && Argument(I686, d, args) == (false, 0xFFFF_FFFF) && StandardNumber(I686, d, args) == (true, 1)
            && OneDirective(I686, d, args).0 != StandardText(I686, d, args)
  {
    var d, args := PLAIN.(length := 3), [Bits(0xFFFF_FFFF)];
    assert Argument(I686, d, args) == (false, 0xFFFF_FFFF) && StandardNumber(I686, d, args) == (true, 1);
    IntegerText(I686, d, args);
    OtherNumberDiffers(d, (false, 0xFFFF_FFFF), (true, 1));
  }
}
