/** vsnprintf: rendering a format and its arguments into a buffer of any capacity. */
module Formatting {
  import opened CText
  import opened Words

  const U64: nat := 0x1_0000_0000_0000_0000
  const INT_MAX: nat := 0x7FFF_FFFF

  /** The bits of one variadic argument; a string may be NULL. */
  datatype Arg = Bits(bits: nat) | Text(text: string) | NullText

  /**
    * `length` is 1 for l, 2 for ll, 3 for z, 4 for h and 5 for hh. The flags plus, space and alternate
    * are read over, and h and hh treated like none: no function below looks at them.
    */
  datatype Directive = Directive(
    left: bool, zero: bool, plus: bool, space: bool, alternate: bool,
    width: int, precision: int, length: nat, conversion: char)

  // ---------- Arguments ----------

  /** Reading past the list, or an argument of the wrong kind, is undefined in C; here it reads zero. */
  function BitsOf(args: seq<Arg>): nat {
    if args != [] && args[0].Bits? then args[0].bits else 0
  }

  function StringOf(args: seq<Arg>): string {
    if args != [] && args[0].Text? then args[0].text else "(null)"
  }

  function Rest(args: seq<Arg>): seq<Arg> { if args == [] then [] else args[1..] }

  /** 2 to the number of value bits va_arg takes: the targets differ in the width of long, size_t and pointers. */
  function Modulus(machine: Machine, length: nat): (m: nat)
    ensures m == 0x1_0000_0000 || m == U64
  {
    if length == 2 || ((length == 1 || length == 3) && machine.X64?) then U64 else 0x1_0000_0000
  }

  function Signed(bits: nat, modulus: nat): int
    requires modulus == 0x1_0000_0000 || modulus == U64
  {
    var low := bits % modulus;
    if low >= modulus / 2 then low - modulus else low
  }

  /** rincrt_format_signed: with `z` a size_t is read and converted to long long. */
  function SignedArgument(machine: Machine, length: nat, args: seq<Arg>): (v: int)
    ensures -0x8000_0000_0000_0000 <= v < 0x8000_0000_0000_0000
  {
    var modulus := Modulus(machine, length);
    if length == 3 && modulus != U64 then BitsOf(args) % modulus else Signed(BitsOf(args), modulus)
  }

  function UnsignedArgument(machine: Machine, length: nat, args: seq<Arg>): (v: nat)
    ensures v < U64
  {
    BitsOf(args) % Modulus(machine, length)
  }

  function IntArgument(args: seq<Arg>): int { Signed(BitsOf(args), 0x1_0000_0000) }

  // ---------- Directives ----------

  predicate IsFlag(c: char) { c == '-' || c == '0' || c == '+' || c == ' ' || c == '#' }

  function Flags(f: string, i: nat, left: bool, zero: bool): (r: (nat, bool, bool))
    requires i <= |f|
    ensures i <= r.0 <= |f|
    decreases |f| - i
  {
    if IsFlag(At(f, i)) then Flags(f, i + 1, left || At(f, i) == '-', zero || At(f, i) == '0') else (i, left, zero)
  }

  /** Whether this flag is among those from position `i` on. */
  predicate HasFlag(f: string, i: nat, flag: char)
    requires i <= |f|
    decreases |f| - i
  {
    IsFlag(At(f, i)) && (At(f, i) == flag || HasFlag(f, i + 1, flag))
  }

  function Number(f: string, i: nat, acc: int): (r: (nat, int))
    requires i <= |f|
    ensures i <= r.0 <= |f|
    decreases |f| - i
  {
    if IsDigit(At(f, i)) then Number(f, i + 1, acc * 10 + DigitValue(At(f, i))) else (i, acc)
  }

  function Width(f: string, i: nat, left: bool, args: seq<Arg>): (r: (nat, int, bool, seq<Arg>))
    requires i <= |f|
    ensures i <= r.0 <= |f|
  {
    if At(f, i) == '*' then
      var w := IntArgument(args);
      (i + 1, if w < 0 then -w else w, left || w < 0, Rest(args))
    else
      var (j, w) := Number(f, i, 0);
      (j, w, left, args)
  }

  function Precision(f: string, i: nat, args: seq<Arg>): (r: (nat, int, seq<Arg>))
    requires i <= |f|
    ensures i <= r.0 <= |f|
  {
    if At(f, i) != '.' then (i, -1, args)
    else if At(f, i + 1) == '*' then (i + 2, IntArgument(args), Rest(args))
    else
      var (j, p) := Number(f, i + 1, 0);
      (j, p, args)
  }

  function Length(f: string, i: nat): (r: (nat, nat))
    requires i <= |f|
    ensures i <= r.0 <= |f|
  {
    if At(f, i) == 'l' then if At(f, i + 1) == 'l' then (i + 2, 2) else (i + 1, 1)
    else if At(f, i) == 'z' then (i + 1, 3)
    else if At(f, i) == 'h' then if At(f, i + 1) == 'h' then (i + 2, 5) else (i + 1, 4)
    else (i, 0)
  }

  /** Reads one directive from behind its percent sign. */
  function Parse(f: string, i: nat, args: seq<Arg>): (r: (Directive, nat, seq<Arg>))
    requires i <= |f|
    ensures i <= r.1 <= |f|
  {
    var (i1, left, zero) := Flags(f, i, false, false);
    var (i2, width, left2, args2) := Width(f, i1, left, args);
    var (i3, precision, args3) := Precision(f, i2, args2);
    var (i4, length) := Length(f, i3);
    (Directive(left2, zero, HasFlag(f, i, '+'), HasFlag(f, i, ' '), HasFlag(f, i, '#'),
               width, precision, length, At(f, i4)),
     if At(f, i4) == NUL then i4 else i4 + 1,
     args3)
  }

  // ---------- Rendering ----------

  function Repeat(c: char, n: int): (r: string)
    ensures |r| == (if n < 0 then 0 else n) && forall k :: 0 <= k < |r| ==> r[k] == c
  {
    if n <= 0 then "" else Repeat(c, n - 1) + [c]
  }

  function DigitChar(d: nat, upper: bool): char
    requires d < 16
  {
    (if upper then "0123456789ABCDEF" else "0123456789abcdef")[d]
  }

  predicate IsBase(base: nat) { base == 8 || base == 10 || base == 16 }

  /** value / base, for the three bases of the conversions. */
  function Quotient(value: nat, base: nat): nat
    requires IsBase(base)
  {
    if base == 8 then value / 8 else if base == 10 then value / 10 else value / 16
  }

  /** value % base */
  function Remainder(value: nat, base: nat): (r: nat)
    requires IsBase(base)
    ensures r < base
  {
    if base == 8 then value % 8 else if base == 10 then value % 10 else value % 16
  }

  /** The digits of a value, most significant first. */
  function Digits(value: nat, base: nat, upper: bool): (r: string)
    requires IsBase(base)
    ensures |r| >= 1
    decreases value
  {
    (if value < base then "" else Digits(Quotient(value, base), base, upper))
    + [DigitChar(Remainder(value, base), upper)]
  }

  function Padded(d: Directive, body: string): string {
    if d.left then body + Repeat(' ', d.width - |body|) else Repeat(' ', d.width - |body|) + body
  }

  predicate IsNumeric(c: char) {
    c == 'd' || c == 'i' || c == 'u' || c == 'x' || c == 'X' || c == 'o' || c == 'p'
  }

  function BaseOf(c: char): (b: nat)
    ensures IsBase(b)
  {
    if c == 'o' then 8 else if c == 'x' || c == 'X' || c == 'p' then 16 else 10
  }

  /** Sign and magnitude of the argument of a numeric conversion. */
  function Argument(machine: Machine, d: Directive, args: seq<Arg>): (r: (bool, nat))
    ensures r.1 < U64 && (r.0 ==> r.1 > 0)
  {
    if d.conversion == 'd' || d.conversion == 'i' then
      var v := SignedArgument(machine, d.length, args);
      (v < 0, if v < 0 then -v else v)
    else if d.conversion == 'p' then (false, UnsignedArgument(machine, 3, args))
    else (false, UnsignedArgument(machine, d.length, args))
  }

  function NumberDigits(d: Directive, magnitude: nat): string {
    if d.precision == 0 && magnitude == 0 then "" else Digits(magnitude, BaseOf(d.conversion), d.conversion == 'X')
  }

  function Sign(d: Directive, negative: bool): string {
    (if negative then "-" else "") + (if d.conversion == 'p' then "0x" else "")
  }

  /** What the conversion writes in front of the digits. */
  function Head(d: Directive, negative: bool, padding: int): string {
    Repeat(' ', if !d.left && !d.zero then padding else 0)
    + Sign(d, negative)
    + Repeat('0', if !d.left && d.zero then padding else 0)
  }

  /** The digits with the zeros of the precision, and blanks behind them. */
  function Tail(d: Directive, padding: int, digits: string): string {
    Repeat('0', d.precision - |digits|) + digits + Repeat(' ', if d.left then padding else 0)
  }

  /** Precision zeros do not count against the padding. */
  function Padding(d: Directive, negative: bool, digitCount: nat): int {
    d.width - digitCount - (if d.conversion == 'p' then 2 else 0) - (if negative then 1 else 0)
  }

  function NumberText(d: Directive, negative: bool, magnitude: nat): string {
    var digits := NumberDigits(d, magnitude);
    Head(d, negative, Padding(d, negative, |digits|)) + Tail(d, Padding(d, negative, |digits|), digits)
  }

  /** The prefix of a C string a precision allows. */
  function Prefix(text: string, n: nat, precision: int): (r: nat)
    requires n <= |text|
    ensures n <= r <= |text|
    decreases |text| - n
  {
    if At(text, n) != NUL && (precision < 0 || n < precision) then Prefix(text, n + 1, precision) else n
  }

  function OneDirective(machine: Machine, d: Directive, args: seq<Arg>): (r: (string, seq<Arg>)) {
    if d.conversion == 's' then
      var text := StringOf(args);
      (Padded(d, text[..Prefix(text, 0, d.precision)]), Rest(args))
    else if d.conversion == 'c' then (Padded(d, [(BitsOf(args) % 0x100) as char]), Rest(args))
    else if d.conversion == '%' then ("%", args)
    else if IsNumeric(d.conversion) then
      var (negative, magnitude) := Argument(machine, d, args);
      (NumberText(d, negative, magnitude), Rest(args))
    else if d.conversion != NUL then (['%', d.conversion], args)
    else ("", args)
  }

  /** Everything the format produces from position `i` on; no buffer is involved. */
  function Rendered(machine: Machine, f: string, i: nat, args: seq<Arg>): string
    requires i <= |f|
    decreases |f| - i
  {
    if At(f, i) == NUL then ""
    else if At(f, i) != '%' then [At(f, i)] + Rendered(machine, f, i + 1, args)
    else
      var (d, j, args1) := Parse(f, i + 1, args);
      var (text, args2) := OneDirective(machine, d, args1);
      text + Rendered(machine, f, j, args2)
  }

  // ---------- No number is cut ----------

  function PowerOf8(n: nat): nat {
    if n == 0 then 1 else 8 * PowerOf8(n - 1)
  }

  lemma {:induction false} DigitsFit(value: nat, base: nat, upper: bool, n: nat)
    requires IsBase(base) && 1 <= n && value < PowerOf8(n)
    ensures |Digits(value, base, upper)| <= n
    decreases n
  {
    if value >= base {
      assert PowerOf8(1) == 8;
      DigitsFit(Quotient(value, base), base, upper, n - 1);
    }
  }

  lemma FourMore(n: nat)
    ensures PowerOf8(n + 4) == 0x1000 * PowerOf8(n)
  {
    assert PowerOf8(n + 2) == 64 * PowerOf8(n);
  }

  /**
    * A 64-bit magnitude never needs more than 22 digits, so the 32-digit limit of the conversion loop is not reached.
    */
  lemma AtMost22Digits(value: nat, base: nat, upper: bool)
    requires value < U64 && IsBase(base)
    ensures |Digits(value, base, upper)| <= 22
  {
    FourMore(0);
    FourMore(4);
    FourMore(8);
    FourMore(12);
    FourMore(16);
    assert PowerOf8(22) == 64 * PowerOf8(20);
    DigitsFit(value, base, upper, 22);
  }

  // ---------- The buffer ----------

  /** How many characters of a text a buffer has room for, beside the terminator. */
  function Kept(length: nat, capacity: nat): (m: nat)
    ensures m <= length && m <= capacity
  {
    if capacity == 0 then 0 else if length < capacity then length else capacity - 1
  }

  /** `original` with the front of `text` written over it. */
  function Filled(original: string, text: string, capacity: nat): (r: string)
    requires capacity <= |original|
    ensures |r| == |original|
  {
    text[..Kept(|text|, capacity)] + original[Kept(|text|, capacity)..]
  }

  /** The buffer as vsnprintf leaves it. */
  function Terminated(original: string, text: string, capacity: nat): (r: string)
    requires capacity <= |original|
    ensures |r| == |original|
    ensures forall k :: 0 <= k < |r| ==>
              r[k] == if capacity == 0 || k > Kept(|text|, capacity) then original[k]
                      else if k < Kept(|text|, capacity) then text[k] else NUL
  {
    if capacity == 0 then original
    else text[..Kept(|text|, capacity)] + [NUL] + original[Kept(|text|, capacity) + 1..]
  }

  class FormatOutput {
    const buffer: array<char>
    const capacity: nat
    var count: nat
    ghost var text: string
    ghost const original: string

    ghost predicate Valid()
      reads this, buffer
    {
      && capacity <= buffer.Length == |original|
      && count == |text|
      && buffer[..] == Filled(original, text, capacity)
    }

    constructor (buffer: array<char>, capacity: nat)
      requires capacity <= buffer.Length
      ensures Valid() && text == "" && original == buffer[..]
      ensures this.buffer == buffer && this.capacity == capacity
    {
      this.buffer, this.capacity, count, text, original := buffer, capacity, 0, "", buffer[..];
    }

    method Put(c: char)
      requires Valid()
      modifies this, buffer
      ensures Valid() && text == old(text) + [c]
    {
      if capacity != 0 && count + 1 < capacity { buffer[count] := c; }
      count := count + 1;
      text := text + [c];
      assert forall k :: 0 <= k < buffer.Length ==> buffer[..][k] == Filled(original, text, capacity)[k];
    }

    /** The terminator goes behind the last character that was kept. */
    method Terminate()
      requires Valid()
      modifies buffer
      ensures buffer[..] == Terminated(original, text, capacity)
    {
      if capacity != 0 {
        buffer[if count < capacity then count else capacity - 1] := NUL;
      }
      assert forall k :: 0 <= k < buffer.Length ==> buffer[..][k] == Terminated(original, text, capacity)[k];
    }

    method PutRepeat(c: char, n: int)
      requires Valid()
      modifies this, buffer
      ensures Valid() && text == old(text) + Repeat(c, n)
    {
      var left := n;
      ghost var put := "";
      assert text == text + put;
      while left > 0
        invariant Valid() && text == old(text) + put
        invariant |put| == (if n < 0 then 0 else n) - (if left < 0 then 0 else left)
        invariant forall k :: 0 <= k < |put| ==> put[k] == c
      {
        Put(c);
        left := left - 1;
        put := put + [c];
      }
      assert put == Repeat(c, n);
    }

    method PutAll(s: string)
      requires Valid()
      modifies this, buffer
      ensures Valid() && text == old(text) + s
    {
      assert s[..0] == "" && text == text + s[..0];
      for i := 0 to |s|
        invariant Valid() && text == old(text) + s[..i]
      {
        Put(s[i]);
        assert s[..i + 1] == s[..i] + [s[i]];
      }
      assert s[..|s|] == s;
    }
  }

  /** The digits of a value, least significant first, as the do-while loop collects them. */
  method ReverseDigits(reverse: array<char>, value: nat, base: nat, upper: bool) returns (count: nat)
    requires reverse.Length == 32 && value < U64 && IsBase(base)
    modifies reverse
    ensures count == |Digits(value, base, upper)| <= 32
    ensures forall k :: 0 <= k < count ==> reverse[k] == Digits(value, base, upper)[count - 1 - k]
  {
    var rest: nat := value;
    count := 0;
    AtMost22Digits(value, base, upper);
    ghost var done := "";
    ghost var digits := Digits(value, base, upper);
    while true
      invariant |done| == count && count + |Digits(rest, base, upper)| == |digits|
      invariant Digits(rest, base, upper) + done == digits
      invariant forall k :: 0 <= k < count ==> reverse[k] == done[count - 1 - k]
      decreases rest
    {
      var c := DigitChar(Remainder(rest, base), upper);
      LastDigit(rest, base, upper, done);
      reverse[count] := c;
      done := [c] + done;
      count := count + 1;
      if rest < base || count >= 32 { break; }
      rest := Quotient(rest, base);
    }
  }

  /** rincrt_unsigned_text: fills the front of `result` and returns the number of digits. */
  method UnsignedText(result: array<char>, value: nat, base: nat, upper: bool) returns (count: nat)
    requires result.Length == 32 && value < U64 && IsBase(base)
    modifies result
    ensures count <= 32 && result[..count] == Digits(value, base, upper)
  {
    var reverse := new char[32];
    count := ReverseDigits(reverse, value, base, upper);
    ghost var digits := Digits(value, base, upper);
    for index := 0 to count
      invariant forall k :: 0 <= k < count ==> reverse[k] == digits[count - 1 - k]
      invariant forall k :: 0 <= k < index ==> result[k] == digits[k]
    {
      result[index] := reverse[count - index - 1];
    }
  }

  lemma LastDigit(rest: nat, base: nat, upper: bool, done: string)
    requires IsBase(base)
    ensures var c := DigitChar(Remainder(rest, base), upper);
            if rest < base then Digits(rest, base, upper) + done == [c] + done
            else && Quotient(rest, base) < rest
                 && Digits(rest, base, upper) + done == Digits(Quotient(rest, base), base, upper) + ([c] + done)
                 && |Digits(Quotient(rest, base), base, upper)| == |Digits(rest, base, upper)| - 1
  {
    SplitLastDigit(rest, base, upper);
    if rest >= base {
      Regroup(Digits(Quotient(rest, base), base, upper), [DigitChar(Remainder(rest, base), upper)], done);
    }
  }

  lemma SplitLastDigit(rest: nat, base: nat, upper: bool)
    requires IsBase(base)
    ensures var c := DigitChar(Remainder(rest, base), upper);
            if rest < base then Digits(rest, base, upper) == [c]
            else
              && Quotient(rest, base) < rest
              && Digits(rest, base, upper) == Digits(Quotient(rest, base), base, upper) + [c]
  {
  }

  lemma Regroup(a: string, b: string, c: string)
    ensures a + b + c == a + (b + c)
  {
  }

  /** The digit buffer of a numeric conversion; a zero with precision zero has no digits. */
  method DigitsOf(d: Directive, magnitude: nat) returns (text: string)
    requires magnitude < U64
    ensures text == NumberDigits(d, magnitude)
  {
    var digits := new char[32];
    var count := UnsignedText(digits, magnitude, BaseOf(d.conversion), d.conversion == 'X');
    if d.precision == 0 && magnitude == 0 { count := 0; }
    text := digits[..count];
  }

  method PutSign(out: FormatOutput, d: Directive, negative: bool)
    requires out.Valid()
    modifies out, out.buffer
    ensures out.Valid() && out.text == old(out.text) + Sign(d, negative)
  {
    ghost var t := out.text;
    if negative { out.Put('-'); }
    if d.conversion == 'p' {
      out.Put('0');
      out.Put('x');
    }
    assert out.text == t + Sign(d, negative);
  }

  method PutHead(out: FormatOutput, d: Directive, negative: bool, padding: int)
    requires out.Valid()
    modifies out, out.buffer
    ensures out.Valid() && out.text == old(out.text) + Head(d, negative, padding)
  {
    ghost var t := out.text;
    if !d.left && !d.zero { out.PutRepeat(' ', padding); }
    PutSign(out, d, negative);
    if !d.left && d.zero { out.PutRepeat('0', padding); }
    assert out.text == t + Head(d, negative, padding);
  }

  method PutTail(out: FormatOutput, d: Directive, padding: int, digits: string)
    requires out.Valid()
    modifies out, out.buffer
    ensures out.Valid() && out.text == old(out.text) + Tail(d, padding, digits)
  {
    ghost var t := out.text;
    if d.precision > |digits| { out.PutRepeat('0', d.precision - |digits|); }
    out.PutAll(digits);
    assert out.text == t + (Repeat('0', d.precision - |digits|) + digits);
    if d.left { out.PutRepeat(' ', padding); }
  }

  method FormatNumber(out: FormatOutput, d: Directive, negative: bool, magnitude: nat)
    requires out.Valid() && magnitude < U64
    modifies out, out.buffer
    ensures out.Valid() && out.text == old(out.text) + NumberText(d, negative, magnitude)
  {
    var digits := DigitsOf(d, magnitude);
    var padding := Padding(d, negative, |digits|);
    ghost var t := out.text;
    PutHead(out, d, negative, padding);
    PutTail(out, d, padding, digits);
    assert out.text == t + (Head(d, negative, padding) + Tail(d, padding, digits));
  }

  /** Blanks around a string or a character. */
  method FormatPadded(out: FormatOutput, d: Directive, body: string)
    requires out.Valid()
    modifies out, out.buffer
    ensures out.Valid() && out.text == old(out.text) + Padded(d, body)
  {
    ghost var t := out.text;
    if !d.left { out.PutRepeat(' ', d.width - |body|); }
    out.PutAll(body);
    if d.left { out.PutRepeat(' ', d.width - |body|); }
    assert out.text == t + Padded(d, body);
  }

  /** Writes what one directive stands for, and returns the arguments it leaves. */
  method FormatOne(out: FormatOutput, machine: Machine, d: Directive, args: seq<Arg>) returns (rest: seq<Arg>)
    requires out.Valid()
    modifies out, out.buffer
    ensures out.Valid()
    ensures out.text == old(out.text) + OneDirective(machine, d, args).0 && rest == OneDirective(machine, d, args).1
  {
    rest := args;
    if d.conversion == 's' {
      var text := StringOf(args);
      var length := 0;
      while At(text, length) != NUL && (d.precision < 0 || length < d.precision)
        invariant length <= |text| && Prefix(text, length, d.precision) == Prefix(text, 0, d.precision)
        decreases |text| - length
      {
        length := length + 1;
      }
      FormatPadded(out, d, text[..length]);
      rest := Rest(args);
    } else if d.conversion == 'c' {
      FormatPadded(out, d, [(BitsOf(args) % 0x100) as char]);
      rest := Rest(args);
    } else if d.conversion == '%' {
      out.Put('%');
    } else if IsNumeric(d.conversion) {
      var (negative, magnitude) := Argument(machine, d, args);
      FormatNumber(out, d, negative, magnitude);
      rest := Rest(args);
    } else if d.conversion != NUL {
      out.Put('%');
      out.Put(d.conversion);
    }
  }

  /** Reads the flags with a cursor, as the source does. */
  method ReadFlags(f: string, from: nat) returns (i: nat, left: bool, zero: bool)
    requires from <= |f|
    ensures (i, left, zero) == Flags(f, from, false, false)
  {
    i, left, zero := from, false, false;
    while IsFlag(At(f, i))
      invariant i <= |f| && Flags(f, i, left, zero) == Flags(f, from, false, false)
      decreases |f| - i
    {
      if At(f, i) == '-' { left := true; }
      if At(f, i) == '0' { zero := true; }
      i := i + 1;
    }
  }

  method ReadNumber(f: string, from: nat) returns (i: nat, n: int)
    requires from <= |f|
    ensures (i, n) == Number(f, from, 0)
  {
    i, n := from, 0;
    while IsDigit(At(f, i))
      invariant i <= |f| && Number(f, i, n) == Number(f, from, 0)
      decreases |f| - i
    {
      n := n * 10 + DigitValue(At(f, i));
      i := i + 1;
    }
  }

  method ReadWidth(f: string, from: nat, flag: bool, args: seq<Arg>)
    returns (i: nat, width: int, left: bool, rest: seq<Arg>)
    requires from <= |f|
    ensures (i, width, left, rest) == Width(f, from, flag, args)
  {
    i, left, rest := from, flag, args;
    if At(f, i) == '*' {
      width := IntArgument(rest);
      rest := Rest(rest);
      i := i + 1;
      if width < 0 {
        left := true;
        width := -width;
      }
    } else {
      i, width := ReadNumber(f, i);
    }
  }

  method ReadPrecision(f: string, from: nat, args: seq<Arg>) returns (i: nat, precision: int, rest: seq<Arg>)
    requires from <= |f|
    ensures (i, precision, rest) == Precision(f, from, args)
  {
    i, precision, rest := from, -1, args;
    if At(f, i) == '.' {
      i := i + 1;
      if At(f, i) == '*' {
        precision := IntArgument(rest);
        rest := Rest(rest);
        i := i + 1;
      } else {
        i, precision := ReadNumber(f, i);
      }
    }
  }

  method ReadDirective(f: string, from: nat, args: seq<Arg>) returns (d: Directive, i: nat, rest: seq<Arg>)
    requires from <= |f|
    ensures (d, i, rest) == Parse(f, from, args)
  {
    var left, zero, width, precision;
    i, left, zero := ReadFlags(f, from);
    i, width, left, rest := ReadWidth(f, i, left, args);
    i, precision, rest := ReadPrecision(f, i, rest);
    var (j, length) := Length(f, i);
    // The source keeps nothing of the other flags.
    d := Directive(left, zero, HasFlag(f, from, '+'), HasFlag(f, from, ' '), HasFlag(f, from, '#'),
                   width, precision, length, At(f, j));
    i := if At(f, j) == NUL then j else j + 1;
  }

  lemma RenderedDirective(machine: Machine, f: string, i: nat, args: seq<Arg>, t: string)
    requires i < |f| && At(f, i) == '%'
    ensures var (d, j, args1) := Parse(f, i + 1, args);
            var (text, args2) := OneDirective(machine, d, args1);
            t + text + Rendered(machine, f, j, args2) == t + Rendered(machine, f, i, args)
  {
  }

  lemma RenderedPlain(machine: Machine, f: string, i: nat, args: seq<Arg>, t: string)
    requires i < |f| && At(f, i) != '%' && At(f, i) != NUL
    ensures t + [At(f, i)] + Rendered(machine, f, i + 1, args) == t + Rendered(machine, f, i, args)
  {
    var rest := Rendered(machine, f, i + 1, args);
    assert Rendered(machine, f, i, args) == [At(f, i)] + rest;
    Regroup(t, [At(f, i)], rest);
  }

  /** One round of the format loop. */
  method FormatNext(out: FormatOutput, machine: Machine, f: string, i: nat, args: seq<Arg>)
    returns (next: nat, rest: seq<Arg>)
    requires out.Valid() && i < |f| && At(f, i) != NUL
    modifies out, out.buffer
    ensures out.Valid() && i < next <= |f|
    ensures out.text + Rendered(machine, f, next, rest) == old(out.text) + Rendered(machine, f, i, args)
  {
    if At(f, i) != '%' {
      RenderedPlain(machine, f, i, args, out.text);
      out.Put(At(f, i));
      return i + 1, args;
    }
    RenderedDirective(machine, f, i, args, out.text);
    var d, args1;
    d, next, args1 := ReadDirective(f, i + 1, args);
    rest := FormatOne(out, machine, d, args1);
  }

  method FormatAll(out: FormatOutput, machine: Machine, f: string, args: seq<Arg>)
    requires out.Valid() && out.text == ""
    modifies out, out.buffer
    ensures out.Valid() && out.text == Rendered(machine, f, 0, args)
  {
    var i: nat, rest := 0, args;
    ghost var text := Rendered(machine, f, 0, args);
    assert "" + text == text;
    while At(f, i) != NUL
      invariant i <= |f| && out.Valid() && out.text + Rendered(machine, f, i, rest) == text
      decreases |f| - i
    {
      i, rest := FormatNext(out, machine, f, i, rest);
    }
    assert out.text + "" == text;
  }

  /**
    * vsnprintf; a NULL buffer is one of size zero. The buffer receives exactly the front of the
    * unbounded rendering that fits, then the terminator, and keeps every character behind it;
    * the returned length is that of the rendering, whatever the capacity.
    */
  method VsnPrintf(machine: Machine, buffer: array<char>, size: nat, f: string, args: seq<Arg>) returns (r: int)
    requires size <= buffer.Length
    modifies buffer
    ensures r == (if |Rendered(machine, f, 0, args)| > INT_MAX then -1 else |Rendered(machine, f, 0, args)|)
    ensures buffer[..] == Terminated(old(buffer[..]), Rendered(machine, f, 0, args), size)
  {
    var out := new FormatOutput(buffer, size);
    FormatAll(out, machine, f, args);
    out.Terminate();
    r := if out.count > INT_MAX then -1 else out.count;
  }
}
