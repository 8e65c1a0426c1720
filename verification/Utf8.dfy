/**
  * The UTF-8 validator of the SDK against the encoder of the IME provider: RFC 3629,
  * sections 3 and 4, for text without NUL.
  *
  * Masks and shifts by constants are written as division and remainder: b & 0x3f is b % 64,
  * (b & 0xc0) == 0x80 is b / 64 == 2, and (c << 6) | (b & 0x3f) is c * 64 + b % 64.
  */
module Utf8 {
  import opened Words

  predicate IsScalar(cp: nat) { 0 < cp <= 0x10FFFF && !(0xD800 <= cp <= 0xDFFF) }

  /** encode_utf8 on the code points it accepts. */
  function Encode(cp: nat): (text: seq<Byte>)
    requires IsScalar(cp)
    ensures 1 <= |text| <= 4
  {
    if cp <= 0x7F then [cp]
    else if cp <= 0x7FF then [0xC0 + cp / 64, 0x80 + cp % 64]
    else if cp <= 0xFFFF then [0xE0 + cp / 4096, 0x80 + cp / 64 % 64, 0x80 + cp % 64]
    else [0xF0 + cp / 262144, 0x80 + cp / 4096 % 64, 0x80 + cp / 64 % 64, 0x80 + cp % 64]
  }

  /** encode_utf8: fills the caller's buffer, or refuses the code point and leaves it alone. */
  method EncodeInto(cp: nat, text: array<Byte>) returns (size: Option<nat>)
    requires text.Length == 4
    modifies text
    ensures size == if IsScalar(cp) then Some(|Encode(cp)|) else None
    ensures size.Some? ==> text[..size.value] == Encode(cp) && text[size.value..] == old(text[..])[size.value..]
    ensures size.None? ==> text[..] == old(text[..])
  {
    if cp == 0 || cp > 0x10FFFF || (0xD800 <= cp <= 0xDFFF) { return None; }
    if cp <= 0x7F {
      text[0] := cp;
      size := Some(1);
    } else if cp <= 0x7FF {
      text[0] := 0xC0 + cp / 64;
      text[1] := 0x80 + cp % 64;
      size := Some(2);
    } else if cp <= 0xFFFF {
      text[0] := 0xE0 + cp / 4096;
      text[1] := 0x80 + cp / 64 % 64;
      text[2] := 0x80 + cp % 64;
      size := Some(3);
    } else {
      text[0] := 0xF0 + cp / 262144;
      text[1] := 0x80 + cp / 4096 % 64;
      text[2] := 0x80 + cp / 64 % 64;
      text[3] := 0x80 + cp % 64;
      size := Some(4);
    }
  }

  // ---------- One sequence ----------

  predicate IsContinuation(b: Byte) { b / 64 == 2 }

  /** How many bytes follow a lead byte, and the bits it contributes; None for a byte that cannot lead. */
  function Lead(b: Byte): Option<(nat, nat)> {
    if 0 < b < 0x80 then Some((0, b))
    else if 0xC2 <= b <= 0xDF then Some((1, b % 32))
    else if 0xE0 <= b <= 0xEF then Some((2, b % 16))
    else if 0xF0 <= b <= 0xF4 then Some((3, b % 8))
    else None
  }

  /** The tests on the second byte, which rule out overlong forms, surrogates and values past 0x10FFFF. */
  predicate SecondFits(lead: Byte, second: Byte) {
    && IsContinuation(second)
    && !(lead == 0xE0 && second < 0xA0)
    && !(lead == 0xED && second >= 0xA0)
    && !(lead == 0xF0 && second < 0x90)
    && !(lead == 0xF4 && second > 0x8F)
  }

  /** Folds `count` continuation bytes into `cp`; None if one of them is not a continuation. */
  function Fold(bytes: seq<Byte>, offset: nat, count: nat, cp: nat): Option<nat>
    requires offset + count <= |bytes|
    decreases count
  {
    if count == 0 then Some(cp)
    else if !IsContinuation(bytes[offset]) then None
    else Fold(bytes, offset + 1, count - 1, cp * 64 + bytes[offset] % 64)
  }

  /** The code point at `offset` and the offset behind it, before the final range test. */
  function Candidate(bytes: seq<Byte>, offset: nat): (r: Option<(nat, nat)>)
    requires offset < |bytes|
    ensures r.Some? ==> offset < r.value.1 <= |bytes|
  {
    var lead := bytes[offset];
    match Lead(lead)
    case None => None
    case Some((count, bits)) =>
      if count == 0 then Some((bits, offset + 1))
      else if count > |bytes| - (offset + 1) then None
      else if !SecondFits(lead, bytes[offset + 1]) then None
      else
        match Fold(bytes, offset + 1, count, bits)
        case None => None
        case Some(cp) => Some((cp, offset + 1 + count))
  }

  predicate InRange(cp: nat) { cp <= 0x10FFFF && !(0xD800 <= cp <= 0xDFFF) }

  /** What one round of the validator accepts. */
  function Next(bytes: seq<Byte>, offset: nat): (r: Option<(nat, nat)>)
    requires offset < |bytes|
    ensures r.Some? ==> offset < r.value.1 <= |bytes|
  {
    var r := Candidate(bytes, offset);
    if r.Some? && InRange(r.value.0) then r else None
  }

  // The same facts on byte values, one length at a time.

  lemma Shifts(cp: nat)
    ensures cp / 4096 == cp / 64 / 64 && cp / 262144 == cp / 64 / 64 / 64
  {
  }

  lemma Low6(high: nat, low: nat)
    requires low < 64
    ensures (high * 64 + low) / 64 == high && (high * 64 + low) % 64 == low
  {
  }

  lemma TwoBytes(b0: Byte, b1: Byte)
    requires 0xC2 <= b0 <= 0xDF && SecondFits(b0, b1)
    ensures var cp := b0 % 32 * 64 + b1 % 64;
            0x7F < cp <= 0x7FF && IsScalar(cp) && Encode(cp) == [b0, b1]
  {
    Low6(b0 % 32, b1 % 64);
  }

  lemma ThreeBytes(b0: Byte, b1: Byte, b2: Byte)
    requires 0xE0 <= b0 <= 0xEF && SecondFits(b0, b1) && IsContinuation(b2)
    ensures var cp := (b0 % 16 * 64 + b1 % 64) * 64 + b2 % 64;
            0x7FF < cp <= 0xFFFF && IsScalar(cp) && Encode(cp) == [b0, b1, b2]
  {
    var high := b0 % 16 * 64 + b1 % 64;
    Low6(b0 % 16, b1 % 64);
    Low6(high, b2 % 64);
    Shifts(high * 64 + b2 % 64);
  }

  lemma FourBytes(b0: Byte, b1: Byte, b2: Byte, b3: Byte)
    requires 0xF0 <= b0 <= 0xF4 && SecondFits(b0, b1) && IsContinuation(b2) && IsContinuation(b3)
    ensures var cp := ((b0 % 8 * 64 + b1 % 64) * 64 + b2 % 64) * 64 + b3 % 64;
            0xFFFF < cp && IsScalar(cp) && Encode(cp) == [b0, b1, b2, b3]
  {
    var high := b0 % 8 * 64 + b1 % 64;
    var middle := high * 64 + b2 % 64;
    Low6(b0 % 8, b1 % 64);
    Low6(high, b2 % 64);
    Low6(middle, b3 % 64);
    Shifts(middle * 64 + b3 % 64);
  }

  lemma FoldStep(bytes: seq<Byte>, offset: nat, count: nat, cp: nat)
    requires 0 < count && offset + count <= |bytes|
    ensures Fold(bytes, offset, count, cp) ==
            if !IsContinuation(bytes[offset]) then None
            else if count == 1 then Some(cp * 64 + bytes[offset] % 64)
            else Fold(bytes, offset + 1, count - 1, cp * 64 + bytes[offset] % 64)
  {
  }

  lemma Slice(bytes: seq<Byte>, offset: nat, text: seq<Byte>)
    requires offset + |text| <= |bytes| && forall k :: 0 <= k < |text| ==> text[k] == bytes[offset..][k]
    ensures bytes[offset..offset + |text|] == text
  {
  }

  lemma CandidateOfTwo(bytes: seq<Byte>, offset: nat)
    requires offset < |bytes| && 0xC2 <= bytes[offset] <= 0xDF && Candidate(bytes, offset).Some?
    ensures var (cp, end) := Candidate(bytes, offset).value;
            IsScalar(cp) && bytes[offset..end] == Encode(cp)
  {
    var b0, b1 := bytes[offset], bytes[offset + 1];
    FoldStep(bytes, offset + 1, 1, b0 % 32);
    TwoBytes(b0, b1);
    Slice(bytes, offset, [b0, b1]);
  }

  lemma CandidateOfThree(bytes: seq<Byte>, offset: nat)
    requires offset < |bytes| && 0xE0 <= bytes[offset] <= 0xEF && Candidate(bytes, offset).Some?
    ensures var (cp, end) := Candidate(bytes, offset).value;
            IsScalar(cp) && bytes[offset..end] == Encode(cp)
  {
    var b0, b1, b2 := bytes[offset], bytes[offset + 1], bytes[offset + 2];
    var bits: nat := b0 % 16;
    FoldStep(bytes, offset + 1, 2, bits);
    FoldStep(bytes, offset + 2, 1, bits * 64 + b1 % 64);
    ThreeBytes(b0, b1, b2);
    Slice(bytes, offset, [b0, b1, b2]);
  }

  lemma CandidateOfFour(bytes: seq<Byte>, offset: nat)
    requires offset < |bytes| && 0xF0 <= bytes[offset] <= 0xF4 && Candidate(bytes, offset).Some?
    ensures var (cp, end) := Candidate(bytes, offset).value;
            IsScalar(cp) && bytes[offset..end] == Encode(cp)
  {
    var b0, b1, b2, b3 := bytes[offset], bytes[offset + 1], bytes[offset + 2], bytes[offset + 3];
    var bits: nat := b0 % 8;
    FoldStep(bytes, offset + 1, 3, bits);
    FoldStep(bytes, offset + 2, 2, bits * 64 + b1 % 64);
    FoldStep(bytes, offset + 3, 1, (bits * 64 + b1 % 64) * 64 + b2 % 64);
    FourBytes(b0, b1, b2, b3);
    Slice(bytes, offset, [b0, b1, b2, b3]);
  }

  /** What the lead and second-byte tests let through is the encoding of a scalar value, and of no other. */
  lemma CandidateIsEncoding(bytes: seq<Byte>, offset: nat)
    requires offset < |bytes| && Candidate(bytes, offset).Some?
    ensures var (cp, end) := Candidate(bytes, offset).value;
            IsScalar(cp) && bytes[offset..end] == Encode(cp)
  {
    var b0 := bytes[offset];
    if b0 < 0x80 {
      Slice(bytes, offset, [b0]);
    } else if b0 <= 0xDF {
      CandidateOfTwo(bytes, offset);
    } else if b0 <= 0xEF {
      CandidateOfThree(bytes, offset);
    } else {
      CandidateOfFour(bytes, offset);
    }
  }

  /** The final range and surrogate test never rejects anything that reaches it. */
  lemma FinalTestIsRedundant(bytes: seq<Byte>, offset: nat)
    requires offset < |bytes|
    ensures Next(bytes, offset) == Candidate(bytes, offset)
  {
    if Candidate(bytes, offset).Some? {
      CandidateIsEncoding(bytes, offset);
    }
  }

  /** The bytes pass the validator's tests and the lead byte carries `bits`. */
  predicate Passes(t: seq<Byte>, bits: nat) {
    && t != [] && Lead(t[0]) == Some((|t| - 1, bits))
    && (|t| > 1 ==> SecondFits(t[0], t[1]))
    && (forall k :: 1 <= k < |t| ==> IsContinuation(t[k]))
  }

  lemma PassesTwo(cp: nat)
    requires 0x7F < cp <= 0x7FF
    ensures Passes([0xC0 + cp / 64, 0x80 + cp % 64], cp / 64)
  {
  }

  lemma PassesThree(cp: nat)
    requires 0x7FF < cp <= 0xFFFF && IsScalar(cp)
    ensures Passes([0xE0 + cp / 4096, 0x80 + cp / 64 % 64, 0x80 + cp % 64], cp / 4096)
  {
    Shifts(cp);
  }

  lemma PassesFour(cp: nat)
    requires 0xFFFF < cp <= 0x10FFFF
    ensures Passes([0xF0 + cp / 262144, 0x80 + cp / 4096 % 64, 0x80 + cp / 64 % 64, 0x80 + cp % 64], cp / 262144)
  {
    Shifts(cp);
  }

  /** Folding the bytes behind the lead undoes the shifts. */
  lemma PassingFolds(bytes: seq<Byte>, offset: nat, t: seq<Byte>, bits: nat)
    requires Passes(t, bits) && |t| > 1 && offset + |t| <= |bytes| && bytes[offset..offset + |t|] == t
    ensures Candidate(bytes, offset).Some?
    ensures Candidate(bytes, offset).value.1 == offset + |t|
    ensures Fold(t, 1, |t| - 1, bits) == Some(Candidate(bytes, offset).value.0)
  {
    assert bytes[offset] == t[0] && bytes[offset + 1] == t[1];
    FoldSlice(bytes, offset, t, 1, bits);
  }

  lemma {:induction false} FoldSlice(bytes: seq<Byte>, offset: nat, t: seq<Byte>, from: nat, cp: nat)
    requires from <= |t| && offset + |t| <= |bytes| && bytes[offset..offset + |t|] == t
    requires forall k :: from <= k < |t| ==> IsContinuation(t[k])
    ensures Fold(t, from, |t| - from, cp).Some?
    ensures Fold(bytes, offset + from, |t| - from, cp) == Fold(t, from, |t| - from, cp)
    decreases |t| - from
  {
    if from < |t| {
      assert bytes[offset + from] == bytes[offset..offset + |t|][from];
      FoldSlice(bytes, offset, t, from + 1, cp * 64 + t[from] % 64);
    }
  }

  lemma FoldUndoesShifts(cp: nat)
    requires IsScalar(cp) && cp > 0x7F
    ensures var t := Encode(cp);
            var bits := if |t| == 2 then cp / 64 else if |t| == 3 then cp / 4096 else cp / 262144;
            Passes(t, bits) && Fold(t, 1, |t| - 1, bits) == Some(cp)
  {
    var t := Encode(cp);
    Shifts(cp);
    if |t| == 2 {
      PassesTwo(cp);
      FoldStep(t, 1, 1, cp / 64);
    } else if |t| == 3 {
      PassesThree(cp);
      FoldStep(t, 1, 2, cp / 4096);
      FoldStep(t, 2, 1, cp / 64);
    } else {
      PassesFour(cp);
      FoldStep(t, 1, 3, cp / 262144);
      FoldStep(t, 2, 2, cp / 4096);
      FoldStep(t, 3, 1, cp / 64);
    }
  }

  /** The validator reads back every encoded scalar value, whatever follows it. */
  lemma EncodingIsNext(cp: nat, bytes: seq<Byte>, offset: nat)
    requires IsScalar(cp) && offset + |Encode(cp)| <= |bytes|
    requires bytes[offset..offset + |Encode(cp)|] == Encode(cp)
    ensures Next(bytes, offset) == Some((cp, offset + |Encode(cp)|))
  {
    var t := Encode(cp);
    if cp <= 0x7F {
      assert bytes[offset] == t[0];
    } else {
      FoldUndoesShifts(cp);
      PassingFolds(bytes, offset, t, if |t| == 2 then cp / 64 else if |t| == 3 then cp / 4096 else cp / 262144);
    }
  }

  // ---------- Whole texts ----------

  predicate AllScalar(cps: seq<nat>) { forall k :: 0 <= k < |cps| ==> IsScalar(cps[k]) }

  function EncodeAll(cps: seq<nat>): seq<Byte>
    requires AllScalar(cps)
  {
    if cps == [] then [] else Encode(cps[0]) + EncodeAll(cps[1..])
  }

  predicate ValidFrom(bytes: seq<Byte>, offset: nat)
    requires offset <= |bytes|
    decreases |bytes| - offset
  {
    offset == |bytes| || (Next(bytes, offset).Some? && ValidFrom(bytes, Next(bytes, offset).value.1))
  }

  /** The code points of a text the validator accepts. */
  function DecodeFrom(bytes: seq<Byte>, offset: nat): (cps: seq<nat>)
    requires offset <= |bytes| && ValidFrom(bytes, offset)
    decreases |bytes| - offset
  {
    if offset == |bytes| then [] else
    var (cp, end) := Next(bytes, offset).value;
    [cp] + DecodeFrom(bytes, end)
  }

  lemma EncodeOneMore(cp: nat, cps: seq<nat>)
    requires IsScalar(cp) && AllScalar(cps)
    ensures AllScalar([cp] + cps) && EncodeAll([cp] + cps) == Encode(cp) + EncodeAll(cps)
  {
    assert ([cp] + cps)[1..] == cps;
  }

  lemma {:induction false} DecodedEncodes(bytes: seq<Byte>, offset: nat)
    requires offset <= |bytes| && ValidFrom(bytes, offset)
    ensures AllScalar(DecodeFrom(bytes, offset)) && EncodeAll(DecodeFrom(bytes, offset)) == bytes[offset..]
    decreases |bytes| - offset
  {
    if offset < |bytes| {
      var (cp, end) := Next(bytes, offset).value;
      CandidateIsEncoding(bytes, offset);
      DecodedEncodes(bytes, end);
      EncodeOneMore(cp, DecodeFrom(bytes, end));
      assert bytes[offset..] == bytes[offset..end] + bytes[end..];
    }
  }

  lemma FrontAndRest(bytes: seq<Byte>, offset: nat, text: seq<Byte>, rest: seq<Byte>)
    requires offset <= |bytes| && bytes[offset..] == text + rest
    ensures offset + |text| <= |bytes|
    ensures bytes[offset..offset + |text|] == text && bytes[offset + |text|..] == rest
  {
    assert |bytes[offset..]| == |text| + |rest|;
    assert bytes[offset..offset + |text|] == bytes[offset..][..|text|];
    assert bytes[offset + |text|..] == bytes[offset..][|text|..];
  }

  /** The first of the encoded scalar values is what the validator finds first. */
  lemma FirstIsNext(cps: seq<nat>, bytes: seq<Byte>, offset: nat) returns (end: nat)
    requires AllScalar(cps) && cps != [] && offset <= |bytes| && bytes[offset..] == EncodeAll(cps)
    ensures offset < end <= |bytes| && Next(bytes, offset) == Some((cps[0], end)) && bytes[end..] == EncodeAll(cps[1..])
  {
    var text := Encode(cps[0]);
    FrontAndRest(bytes, offset, text, EncodeAll(cps[1..]));
    EncodingIsNext(cps[0], bytes, offset);
    end := offset + |text|;
  }

  lemma {:induction false} EncodedDecodes(cps: seq<nat>, bytes: seq<Byte>, offset: nat)
    requires AllScalar(cps) && offset <= |bytes| && bytes[offset..] == EncodeAll(cps)
    ensures ValidFrom(bytes, offset) && DecodeFrom(bytes, offset) == cps
    decreases |cps|
  {
    if cps != [] {
      var end := FirstIsNext(cps, bytes, offset);
      EncodedDecodes(cps[1..], bytes, end);
      OneMoreDecoded(bytes, offset, cps[0], end);
    }
  }

  lemma OneMoreDecoded(bytes: seq<Byte>, offset: nat, cp: nat, end: nat)
    requires offset < |bytes| && Next(bytes, offset) == Some((cp, end)) && ValidFrom(bytes, end)
    ensures ValidFrom(bytes, offset) && DecodeFrom(bytes, offset) == [cp] + DecodeFrom(bytes, end)
  {
  }

  /** A byte string is accepted exactly when it is a concatenation of encodings of nonzero scalar values. */
  lemma ValidIffEncoded(bytes: seq<Byte>)
    ensures ValidFrom(bytes, 0) <==> exists cps :: AllScalar(cps) && EncodeAll(cps) == bytes
  {
    assert bytes[0..] == bytes;
    if ValidFrom(bytes, 0) {
      DecodedEncodes(bytes, 0);
    }
    if cps :| AllScalar(cps) && EncodeAll(cps) == bytes {
      EncodedDecodes(cps, bytes, 0);
    }
  }

  /** No byte string encodes two different texts. */
  lemma DecodingIsUnique(a: seq<nat>, b: seq<nat>)
    requires AllScalar(a) && AllScalar(b) && EncodeAll(a) == EncodeAll(b)
    ensures a == b
  {
    var bytes := EncodeAll(a);
    assert bytes[0..] == bytes;
    EncodedDecodes(a, bytes, 0);
    EncodedDecodes(b, bytes, 0);
  }

  // ---------- The loop ----------

  /** The inner loop: folds the continuation bytes, or finds one that is none. */
  method FoldContinuations(bytes: seq<Byte>, from: nat, count: nat, bits: nat) returns (codepoint: Option<nat>)
    requires from + count <= |bytes|
    ensures codepoint == Fold(bytes, from, count, bits)
  {
    var offset, continuations: nat, cp: nat := from, count, bits;
    while continuations != 0
      invariant offset + continuations == from + count
      invariant Fold(bytes, offset, continuations, cp) == Fold(bytes, from, count, bits)
    {
      FoldStep(bytes, offset, continuations, cp);
      if !IsContinuation(bytes[offset]) { return None; }
      cp := cp * 64 + bytes[offset] % 64;
      offset := offset + 1;
      continuations := continuations - 1;
    }
    return Some(cp);
  }

  /** One round: the end of the sequence that starts at `start`, if it is accepted. */
  method AcceptSequence(bytes: seq<Byte>, start: nat) returns (end: Option<nat>)
    requires start < |bytes|
    ensures end == if Next(bytes, start).Some? then Some(Next(bytes, start).value.1) else None
  {
    var lead, offset := bytes[start], start + 1;
    if lead == 0 { return None; }
    if lead < 0x80 { return Some(offset); }
    var bits: nat, continuations: nat;
    if 0xC2 <= lead <= 0xDF {
      bits, continuations := lead % 32, 1;
    } else if 0xE0 <= lead <= 0xEF {
      bits, continuations := lead % 16, 2;
    } else if 0xF0 <= lead <= 0xF4 {
      bits, continuations := lead % 8, 3;
    } else {
      return None;
    }
    if continuations > |bytes| - offset { return None; }
    if !SecondFits(lead, bytes[offset]) { return None; }
    var codepoint := FoldContinuations(bytes, offset, continuations, bits);
    if codepoint.None? || codepoint.value > 0x10FFFF || 0xD800 <= codepoint.value <= 0xDFFF { return None; }
    return Some(offset + continuations);
  }

  /** rin_sdk_gui_utf8_valid */
  method Utf8Valid(bytes: seq<Byte>) returns (valid: bool)
    ensures valid <==> exists cps :: AllScalar(cps) && EncodeAll(cps) == bytes
  {
    ValidIffEncoded(bytes);
    var offset: nat := 0;
    while offset < |bytes|
      invariant offset <= |bytes| && (ValidFrom(bytes, offset) <==> ValidFrom(bytes, 0))
    {
      var end := AcceptSequence(bytes, offset);
      if end.None? { return false; }
      offset := end.value;
    }
    return true;
  }
}
