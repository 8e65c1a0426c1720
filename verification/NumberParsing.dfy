/** strtoull: text to 64-bit integer, against section 7.22.1.4 of ISO C17. */
module NumberParsing {
  import opened CText
  import opened Words

  datatype Errno = Unset | Einval | Erange

  /** `end` is the offset stored through the end pointer. */
  datatype Parsed = Parsed(value: nat, end: nat, errno: Errno)

  // ---------- What the standard asks for ----------

  /** The digits in s[i..j] all belong to `base`. */
  predicate AllDigits(s: string, i: nat, j: nat, base: nat) {
    forall k :: i <= k < j ==> DigitOf(At(s, k), base)
  }

  /**
    * A digit sequence in s[i..j] that may stand in a subject sequence for `base`; `effective` is the base it is read
    * in.
    */
  predicate Numeral(s: string, i: nat, j: nat, base: int, effective: nat) {
    && i < j
    && AllDigits(s, i, j, effective)
    && (base == effective || (base == 0 && effective == if At(s, i) == '0' then 8 else 10))
  }

  predicate PrefixedHex(s: string, i: nat, j: nat, base: int) {
    (base == 0 || base == 16) && At(s, i) == '0' && IsX(At(s, i + 1)) && i + 2 < j && AllDigits(s, i + 2, j, 16)
  }

  function AfterSign(s: string, i: nat): nat { if IsSign(At(s, i)) then i + 1 else i }

  /** s[i..j] is a subject sequence whose digits, read in `effective`, begin at `from`. */
  predicate Subject(s: string, i: nat, from: nat, j: nat, base: int, effective: nat) {
    var k := AfterSign(s, i);
    || (from == k && Numeral(s, k, j, base, effective))
    || (from == k + 2 && effective == 16 && PrefixedHex(s, k, j, base))
  }

  /** The number the digits s[i..j] denote. */
  function Value(s: string, i: nat, j: nat, base: nat): (v: int) {
    if j <= i then 0 else Value(s, i, j - 1, base) * base + DigitValue(At(s, j - 1))
  }

  predicate SpacesTo(s: string, i: nat) {
    (forall k :: 0 <= k < i ==> IsSpace(At(s, k))) && !IsSpace(At(s, i))
  }

  /** The stored value: saturated, and negated modulo 2^64 after a minus sign if it fits. */
  function Stored(v: nat, negative: bool): nat {
    if v > U64_MAX then U64_MAX
    else if negative then (U64_MAX + 1 - v) % (U64_MAX + 1)
    else v
  }

  /** s[i..j] is the longest subject sequence at i. */
  ghost predicate Longest(s: string, i: nat, from: nat, j: nat, base: int, effective: nat) {
    && Subject(s, i, from, j, base, effective)
    && forall from': nat, j': nat, e': nat :: Subject(s, i, from', j', base, e') ==> j' <= j
  }

  ghost predicate NoSubject(s: string, i: nat, base: int) {
    forall from: nat, j: nat, e: nat :: !Subject(s, i, from, j, base, e)
  }

  /** `r` is what the standard requires of the text from the first non-space on. */
  ghost predicate ConformsFrom(s: string, i: nat, base: int, r: Parsed) {
    || (NoSubject(s, i, base) && r == Parsed(0, 0, Unset))
    || exists from: nat, e: nat ::
         && Longest(s, i, from, r.end, base, e)
         && Value(s, from, r.end, e) >= 0
         && r.value == Stored(Value(s, from, r.end, e), At(s, i) == '-')
         && r.errno == if Value(s, from, r.end, e) > U64_MAX then Erange else Unset
  }

  /** `r` is what the standard requires for `s` and `base`. */
  ghost predicate Conforms(s: string, base: int, r: Parsed) {
    if base < 0 || base == 1 || base > 36 then r == Parsed(0, 0, Einval)
    else exists i: nat :: SpacesTo(s, i) && ConformsFrom(s, i, base, r)
  }

  // ---------- What strtoull computes ----------

  function SkipSpaces(s: string, i: nat): (j: nat)
    requires i <= |s|
    ensures i <= j <= |s| && !IsSpace(At(s, j))
    ensures forall k :: i <= k < j ==> IsSpace(At(s, k))
    decreases |s| - i
  {
    if IsSpace(At(s, i)) then SkipSpaces(s, i + 1) else i
  }

  function SkipDigits(s: string, i: nat, base: nat): (j: nat)
    requires i <= |s|
    ensures i <= j <= |s| && AllDigits(s, i, j, base) && !DigitOf(At(s, j), base)
    decreases |s| - i
  {
    if DigitOf(At(s, i), base) then SkipDigits(s, i + 1, base) else i
  }

  predicate HexPrefix(s: string, i: nat, base: int) {
    (base == 0 || base == 16) && At(s, i) == '0' && IsX(At(s, i + 1)) && DigitOf(At(s, i + 2), 16)
  }

  /** Where the digits begin, and the base they are read in. */
  function Reading(s: string, start: nat, base: int): (r: (nat, int))
    requires start <= |s|
    ensures start <= r.0 <= |s|
  {
    var k := AfterSign(s, start);
    if HexPrefix(s, k, base) then (k + 2, 16)
    else (k, if base == 0 then if At(s, k) == '0' then 8 else 10 else base)
  }

  function Strtoull(s: string, base: int): Parsed {
    var start := SkipSpaces(s, 0);
    var (from, effective) := Reading(s, start, base);
    if effective < 2 || effective > 36 then Parsed(0, 0, Einval) else
    var end := SkipDigits(s, from, effective);
    ValueNat(s, from, end, effective);
    Finish(Value(s, from, end, effective), At(s, start) == '-', from, end)
  }

  function Finish(v: nat, negative: bool, from: nat, end: nat): Parsed {
    Parsed(Stored(v, negative), if end > from then end else 0, if v > U64_MAX then Erange else Unset)
  }

  /** One more digit. */
  lemma ValueStep(s: string, i: nat, j: nat, base: nat, front: int, digit: int)
    requires i < j && Value(s, i, j - 1, base) == front && DigitValue(At(s, j - 1)) == digit
    ensures Value(s, i, j, base) == front * base + digit
  {
  }

  /** strtoull from its parts. */
  lemma StrtoullOf(s: string, base: int, start: nat, from: nat, effective: nat, v: nat)
    requires SkipSpaces(s, 0) == start && Reading(s, start, base) == (from, effective) && 2 <= effective <= 36
    requires Value(s, from, SkipDigits(s, from, effective), effective) == v
    ensures Strtoull(s, base) == Finish(v, At(s, start) == '-', from, SkipDigits(s, from, effective))
  {
  }

  lemma MulNat(a: nat, b: nat)
    ensures a * b >= 0
  {
  }

  lemma {:induction false} ValueNat(s: string, i: nat, j: nat, base: nat)
    requires AllDigits(s, i, j, base)
    ensures Value(s, i, j, base) >= 0
    decreases j
  {
    if i < j {
      ValueNat(s, i, j - 1, base);
      MulNat(Value(s, i, j - 1, base), base);
      assert DigitOf(At(s, j - 1), base);
    }
  }

  /** No subject sequence reaches further than the digits strtoull takes. */
  lemma SubjectIsShorter(s: string, i: nat, from': nat, j: nat, base: int, e': nat)
    requires i <= |s| && 0 <= base <= 36 && base != 1
    requires Subject(s, i, from', j, base, e')
    ensures var (from, effective) := Reading(s, i, base);
            from <= |s| && SkipDigits(s, from, effective) > from && SkipDigits(s, from, effective) >= j
  {
    var k := AfterSign(s, i);
    var (from, effective) := Reading(s, i, base);
    var end := SkipDigits(s, from, effective);
    if HexPrefix(s, k, base) && from' == k {
      // the x cannot be a digit below the base, so the unprefixed subject is the lone zero
      assert j <= k + 1;
    } else {
      assert DigitOf(At(s, from'), e');
      assert j <= end;
    }
  }

  lemma ConformsFromStart(s: string, base: int)
    requires 0 <= base <= 36 && base != 1
    ensures ConformsFrom(s, SkipSpaces(s, 0), base, Strtoull(s, base))
  {
    var start := SkipSpaces(s, 0);
    var (from, effective) := Reading(s, start, base);
    var end := SkipDigits(s, from, effective);
    ValueNat(s, from, end, effective);
    forall from': nat, j: nat, e': nat | Subject(s, start, from', j, base, e')
      ensures end > from && j <= end
    {
      SubjectIsShorter(s, start, from', j, base, e');
    }
    if end > from {
      assert Subject(s, start, from, end, base, effective);
      assert Longest(s, start, from, end, base, effective);
    }
  }

  /** For every string and base, strtoull does what the standard requires. */
  lemma StrtoullConforms(s: string, base: int)
    ensures Conforms(s, base, Strtoull(s, base))
  {
    if 0 <= base <= 36 && base != 1 {
      ConformsFromStart(s, base);
      assert SpacesTo(s, SkipSpaces(s, 0));
    }
  }

  // ---------- The loop ----------

  lemma QuotientBounds(n: nat, base: nat)
    requires base > 0
    ensures n / base * base <= n < n / base * base + base
  {
  }

  lemma Monotone(a: nat, b: nat, base: nat)
    requires a <= b
    ensures a * base <= b * base
  {
  }

  lemma OneMoreTimes(q: nat, base: nat)
    ensures (q + 1) * base == q * base + base
  {
  }

  /** The overflow test decides exactly whether the next digit still fits. */
  lemma OverflowTest(value: nat, digit: nat, base: nat)
    requires digit < base <= U64_MAX
    ensures value > (U64_MAX - digit) / base <==> value * base + digit > U64_MAX
  {
    var room: nat := U64_MAX - digit;
    var q: nat := room / base;
    QuotientBounds(room, base);
    if value > q {
      Monotone(q + 1, value, base);
      OneMoreTimes(q, base);
    } else {
      Monotone(value, q, base);
    }
  }

  /** The digit loop: the value so far, saturated, and whether it has overflowed. */
  method Accumulate(s: string, from: nat, radix: nat) returns (value: nat, overflow: bool, end: nat)
    requires from <= |s| && 2 <= radix <= 36
    ensures end == SkipDigits(s, from, radix)
    ensures var v := Value(s, from, end, radix);
            v >= 0 && overflow == (v > U64_MAX) && value == if overflow then U64_MAX else v
  {
    value, overflow, end := 0, false, from;
    while true
      invariant from <= end <= |s|
      invariant SkipDigits(s, end, radix) == SkipDigits(s, from, radix)
      invariant Value(s, from, end, radix) >= 0
      invariant overflow == (Value(s, from, end, radix) > U64_MAX)
      invariant value == if overflow then U64_MAX else Value(s, from, end, radix)
      decreases |s| - end
    {
      var digit := DigitValue(At(s, end));
      if digit < 0 || digit >= radix { break; }
      OverflowTest(value, digit, radix);
      ghost var v := Value(s, from, end, radix);
      StillOverflows(v, digit, radix);
      assert Value(s, from, end + 1, radix) == v * radix + digit;
      if value > (U64_MAX - digit) / radix {
        overflow, value := true, U64_MAX;
      } else if !overflow {
        value := value * radix + digit;
      }
      end := end + 1;
    }
  }

  lemma StillOverflows(v: nat, digit: nat, base: nat)
    requires base >= 2
    ensures v * base + digit >= v && U64_MAX * base + digit > U64_MAX
  {
    assert v * base >= v * 1;
  }

  /** Skips the sign and the hexadecimal prefix, and settles the base. */
  method ReadPrefix(s: string, start: nat, base: int) returns (text: nat, negative: bool, radix: int)
    requires start <= |s|
    ensures (text, radix) == Reading(s, start, base) && negative == (At(s, start) == '-')
  {
    text, negative := start, false;
    if IsSign(At(s, text)) {
      negative := At(s, text) == '-';
      text := text + 1;
    }
    radix := base;
    if (base == 0 || base == 16) && At(s, text) == '0' && IsX(At(s, text + 1)) && DigitOf(At(s, text + 2), 16) {
      radix := 16;
      text := text + 2;
    } else if base == 0 {
      radix := if At(s, text) == '0' then 8 else 10;
    }
  }

  method ParseUnsigned(s: string, base: int) returns (r: Parsed)
    ensures r == Strtoull(s, base)
  {
    var start: nat := 0;
    while IsSpace(At(s, start))
      invariant start <= |s| && SkipSpaces(s, start) == SkipSpaces(s, 0)
      decreases |s| - start
    {
      start := start + 1;
    }
    var text, negative, radix := ReadPrefix(s, start, base);
    if radix < 2 || radix > 36 { return Parsed(0, 0, Einval); }
    var value, overflow, end := Accumulate(s, text, radix);
    StrtoullOf(s, base, start, text, radix, Value(s, text, end, radix));
    r := Parsed(if negative && !overflow then (U64_MAX + 1 - value) % (U64_MAX + 1) else value,
                if end > text then end else 0,
                if overflow then Erange else Unset);
  }
}
