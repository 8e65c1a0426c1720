/**
  * The second UTF-8 validator of the repository, the one of the text-input wire format, which
  * spells out the sequence lengths instead of folding bits. It accepts the same texts.
  */
module WireUtf8 {
  import opened Utf8
  import opened Words

  predicate Within(b: Byte, low: nat, high: nat) { low <= b <= high }

  /** The end of the sequence that starts at `i`; None if the validator refuses it. */
  function SequenceEnd(s: seq<Byte>, i: nat): (end: Option<nat>)
    requires i < |s|
    ensures end.Some? ==> i < end.value <= |s|
  {
    var a := s[i];
    var left := |s| - (i + 1);
    if a == 0 then None
    else if a <= 0x7F then Some(i + 1)
    else if 0xC2 <= a <= 0xDF then
      if left >= 1 && Within(s[i + 1], 0x80, 0xBF) then Some(i + 2) else None
    else if 0xE0 <= a <= 0xEF then
      if left >= 2 && Within(s[i + 2], 0x80, 0xBF) && SecondOfThree(a, s[i + 1]) then Some(i + 3) else None
    else if 0xF0 <= a <= 0xF4 then
      if left >= 3 && Within(s[i + 2], 0x80, 0xBF) && Within(s[i + 3], 0x80, 0xBF) && SecondOfFour(a, s[i + 1])
      then Some(i + 4) else None
    else None
  }

  predicate SecondOfThree(a: Byte, b: Byte) {
    if a == 0xE0 then Within(b, 0xA0, 0xBF) else if a == 0xED then Within(b, 0x80, 0x9F) else Within(b, 0x80, 0xBF)
  }

  predicate SecondOfFour(a: Byte, b: Byte) {
    if a == 0xF0 then Within(b, 0x90, 0xBF) else if a == 0xF4 then Within(b, 0x80, 0x8F) else Within(b, 0x80, 0xBF)
  }

  /** Both validators take the same step: same sequences, same lengths. */
  lemma SameStep(s: seq<Byte>, i: nat)
    requires i < |s|
    ensures SequenceEnd(s, i) == if Next(s, i).Some? then Some(Next(s, i).value.1) else None
  {
    FinalTestIsRedundant(s, i);
    var a := s[i];
    if Lead(a).Some? && Lead(a).value.0 > 0 && Lead(a).value.0 < |s| - i {
      var (count, bits) := Lead(a).value;
      FoldStep(s, i + 1, count, bits);
      if count > 1 {
        var cp := bits * 64 + s[i + 1] % 64;
        FoldStep(s, i + 2, count - 1, cp);
        if count > 2 { FoldStep(s, i + 3, 1, cp * 64 + s[i + 2] % 64); }
      }
    }
  }

  /** rin_ime_wire_utf8_v1 */
  method WireUtf8Valid(s: seq<Byte>) returns (valid: bool)
    ensures valid <==> exists cps :: AllScalar(cps) && EncodeAll(cps) == s
  {
    ValidIffEncoded(s);
    var i: nat := 0;
    while i < |s|
      invariant i <= |s| && (ValidFrom(s, i) <==> ValidFrom(s, 0))
    {
      SameStep(s, i);
      var a := s[i];
      i := i + 1;
      if a == 0 { return false; }
      if a <= 0x7F { continue; }
      if 0xC2 <= a <= 0xDF {
        if i >= |s| || s[i] < 0x80 || s[i] > 0xBF { return false; }
        i := i + 1;
        continue;
      }
      if 0xE0 <= a <= 0xEF {
        if |s| - i < 2 { return false; }
        var b, c := s[i], s[i + 1];
        i := i + 2;
        if c < 0x80 || c > 0xBF { return false; }
        if a == 0xE0 {
          if b < 0xA0 || b > 0xBF { return false; }
        } else if a == 0xED {
          if b < 0x80 || b > 0x9F { return false; }
        } else if b < 0x80 || b > 0xBF { return false; }
        continue;
      }
      if 0xF0 <= a <= 0xF4 {
        if |s| - i < 3 { return false; }
        var b, c, d := s[i], s[i + 1], s[i + 2];
        i := i + 3;
        if c < 0x80 || c > 0xBF || d < 0x80 || d > 0xBF { return false; }
        if a == 0xF0 {
          if b < 0x90 || b > 0xBF { return false; }
        } else if a == 0xF4 {
          if b < 0x80 || b > 0x8F { return false; }
        } else if b < 0x80 || b > 0xBF { return false; }
        continue;
      }
      return false;
    }
    return true;
  }
}
