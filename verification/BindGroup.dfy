/**
  * Graphics bind groups: one pass over the bindings with a 64-bit mask of the numbers seen.
  *
  * The mask is the natural number whose binary digits it holds.
  */
module BindGroup {
  import opened Bits
  import opened Words

  // ---------- Masks ----------

  /** What the mask must be in the end; shifting a 64-bit one by 64 is not defined, so 64 is a case of its own. */
  function FullMask(count: nat): nat {
    if count == 64 then U64_MAX else Shifted(count) - 1
  }

  /** The mask with exactly the bits in `numbers` from `low` on, shifted down by `low`. */
  function MaskOf(numbers: set<nat>, low: nat, count: nat): nat
    requires low <= count
    decreases count - low
  {
    if low == count then 0 else (if low in numbers then 1 else 0) + 2 * MaskOf(numbers, low + 1, count)
  }

  lemma {:induction false} MaskOfBit(numbers: set<nat>, low: nat, count: nat, k: nat)
    requires low + k < count
    ensures Bit(MaskOf(numbers, low, count), k) <==> low + k in numbers
    decreases k
  {
    var rest := MaskOf(numbers, low + 1, count);
    assert MaskOf(numbers, low, count) / 2 == rest;
    if k > 0 { MaskOfBit(numbers, low + 1, count, k - 1); }
  }

  /** Setting a bit of the mask adds its number to the set. */
  lemma {:induction false} MaskOfWithBit(numbers: set<nat>, low: nat, count: nat, k: nat)
    requires low + k < count
    ensures WithBit(MaskOf(numbers, low, count), k) == MaskOf(numbers + {low + k}, low, count)
    decreases k
  {
    var rest := MaskOf(numbers, low + 1, count);
    assert MaskOf(numbers, low, count) / 2 == rest;
    if k > 0 {
      MaskOfWithBit(numbers, low + 1, count, k - 1);
    } else {
      MaskOfSame(numbers, numbers + {low}, low + 1, count);
    }
  }

  lemma {:induction false} MaskOfSame(a: set<nat>, b: set<nat>, low: nat, count: nat)
    requires low <= count && forall k: nat :: low <= k < count ==> (k in a <==> k in b)
    ensures MaskOf(a, low, count) == MaskOf(b, low, count)
    decreases count - low
  {
    if low < count { MaskOfSame(a, b, low + 1, count); }
  }

  /** The mask is full exactly when every number is there. */
  lemma {:induction false} FullExactlyWhenAllSeen(numbers: set<nat>, low: nat, count: nat)
    requires low <= count
    ensures MaskOf(numbers, low, count) < Shifted(count - low)
    ensures MaskOf(numbers, low, count) == Shifted(count - low) - 1 <==>
              forall k: nat :: low <= k < count ==> k in numbers
    decreases count - low
  {
    if low < count { FullExactlyWhenAllSeen(numbers, low + 1, count); }
  }

  /** The special case is the general rule. */
  lemma FullMaskIsOnes(count: nat)
    requires count <= 64
    ensures FullMask(count) == Shifted(count) - 1
  {
    if count == 64 { WordRange(X64); }
  }

  // ---------- Numbers ----------

  function Range(n: nat): (numbers: set<nat>)
    ensures forall k: nat :: k in numbers <==> k < n
  {
    if n == 0 then {} else Range(n - 1) + {n - 1}
  }

  lemma {:induction false} RangeSize(n: nat)
    ensures |Range(n)| == n
  {
    if n > 0 { RangeSize(n - 1); }
  }

  function Numbers(s: seq<nat>): set<nat> { set k | k in s }

  /** s is a permutation of 0 .. |s| - 1. */
  predicate Permutation(s: seq<nat>) {
    Distinct(s) && forall k: nat :: k < |s| ==> k in s
  }

  lemma {:induction false} DistinctSize(s: seq<nat>)
    requires Distinct(s)
    ensures |Numbers(s)| == |s|
  {
    if s == [] {
      assert Numbers(s) == {};
    } else {
      var n := |s| - 1;
      DistinctSize(s[..n]);
      assert Numbers(s) == Numbers(s[..n]) + {s[n]};
    }
  }

  lemma {:induction false} SubsetOfSameSize(a: set<nat>, b: set<nat>)
    requires a <= b && |a| == |b|
    ensures a == b
  {
    if a != {} {
      var x :| x in a;
      SubsetOfSameSize(a - {x}, b - {x});
    } else {
      assert |b| == 0;
    }
  }

  /** Pigeonhole: distinct numbers below their count are all the numbers below it. */
  lemma Pigeonhole(s: seq<nat>)
    requires Distinct(s) && forall i :: 0 <= i < |s| ==> s[i] < |s|
    ensures Permutation(s)
  {
    DistinctSize(s);
    RangeSize(|s|);
    SubsetOfSameSize(Numbers(s), Range(|s|));
    forall k: nat | k < |s| ensures k in s {
      assert k in Range(|s|);
    }
  }

  /** So the test behind the loop never fails: once every number has passed, the mask is full. */
  lemma LoopFillsTheMask(s: seq<nat>)
    requires |s| <= 64 && Distinct(s) && forall i :: 0 <= i < |s| ==> s[i] < |s|
    ensures MaskOf(Numbers(s), 0, |s|) == FullMask(|s|)
  {
    Pigeonhole(s);
    FullExactlyWhenAllSeen(Numbers(s), 0, |s|);
    FullMaskIsOnes(|s|);
  }

  // ---------- Bindings ----------

  datatype BindingV1 = BindingV1(sized: bool, version: nat, resource: nat, offset: nat, size: nat, number: nat,
                                 access: nat)

  const ACCESS_KNOWN: nat := 3

  /** What V1 checks of a binding, apart from its number. */
  predicate ValidV1(b: BindingV1) {
    && b.sized && b.version == 1 && b.resource != 0 && b.size != 0 && b.offset + b.size <= U64_MAX
    && b.offset % 4 == 0 && b.size % 4 == 0 && 0 < b.access <= ACCESS_KNOWN
  }

  datatype Outcome<B> = InvalidArgument | Submitted(bindings: seq<B>)

  /** What the caller must give besides the bindings. */
  datatype Target = Target(device: nat, generation: nat, group: nat, pipeline: nat)

  predicate ValidTarget(t: Target) {
    t.device != 0 && t.generation != 0 && t.group != 0 && t.pipeline != 0 && t.group != t.pipeline
  }

  function NumbersOf<B>(bindings: seq<B>, number: B -> nat): (s: seq<nat>)
    ensures |s| == |bindings| && forall i :: 0 <= i < |s| ==> s[i] == number(bindings[i])
  {
    seq(|bindings|, (i: nat) requires i < |bindings| => number(bindings[i]))
  }

  /** Taking one more distinct number. */
  lemma OneMoreNumber(s: seq<nat>, n: nat, k: nat)
    requires n < |s| && Distinct(s[..n]) && k == s[n] && k !in Numbers(s[..n])
    ensures Distinct(s[..n + 1]) && Numbers(s[..n + 1]) == Numbers(s[..n]) + {0 + k}
  {
    assert s[..n + 1] == s[..n] + [k];
  }

  /**
    * Creates a bind group: it is submitted exactly when every binding is valid and the binding
    * numbers are a permutation of 0 .. count - 1, and then as the caller gave it.
    */
  method CreateGraphicsBindGroup<B>(t: Target, bindings: seq<B>, most: nat, number: B -> nat, valid: B -> bool)
    returns (outcome: Outcome<B>)
    requires most <= 64
    ensures outcome.Submitted? <==>
              && ValidTarget(t) && 0 < |bindings| <= most
              && (forall i :: 0 <= i < |bindings| ==> valid(bindings[i]))
              && Permutation(NumbersOf(bindings, number))
    ensures outcome.Submitted? ==> outcome.bindings == bindings
  {
    var count := |bindings|;
    ghost var s := NumbersOf(bindings, number);
    if !ValidTarget(t) || count == 0 || count > most { return InvalidArgument; }
    var seen: nat := 0;
    var copy: seq<B> := [];
    AllClear(0, count);
    assert Numbers(s[..0]) == {};
    for index := 0 to count
      invariant copy == bindings[..index]
      invariant forall i :: 0 <= i < index ==> valid(bindings[i]) && s[i] < count
      invariant Distinct(s[..index]) && seen == MaskOf(Numbers(s[..index]), 0, count)
    {
      var k := number(bindings[index]);
      if !valid(bindings[index]) || k >= count {
        OutOfRangeRefused(s, index);
        return InvalidArgument;
      }
      MaskOfBit(Numbers(s[..index]), 0, count, k);
      if Bit(seen, k) {
        RepeatRefused(s, index);
        return InvalidArgument;
      }
      OneMoreNumber(s, index, k);
      MaskOfWithBit(Numbers(s[..index]), 0, count, k);
      seen := WithBit(seen, k);
      copy := copy + [bindings[index]];
    }
    assert s[..count] == s;
    LoopFillsTheMask(s);
    Pigeonhole(s);
    assert seen == FullMask(count);   // the source tests this and would refuse
    return Submitted(copy);
  }

  /** Nothing seen, no bit set. */
  lemma {:induction false} AllClear(low: nat, count: nat)
    requires low <= count
    ensures MaskOf({}, low, count) == 0
    decreases count - low
  {
    if low < count { AllClear(low + 1, count); }
  }

  /** A number that is too large leaves no room for a permutation. */
  lemma OutOfRangeRefused(s: seq<nat>, index: nat)
    requires index < |s|
    ensures s[index] >= |s| ==> !Permutation(s)
  {
    if Permutation(s) {
      DistinctSize(s);
      RangeSize(|s|);
      assert Range(|s|) <= Numbers(s);
      SubsetOfSameSize(Range(|s|), Numbers(s));
      assert s[index] in Numbers(s);
    }
  }

  lemma RepeatRefused(s: seq<nat>, index: nat)
    requires index < |s| && s[index] in Numbers(s[..index])
    ensures !Permutation(s)
  {
    var i :| 0 <= i < index && s[..index][i] == s[index];
    assert s[i] == s[index];
  }

  /** The V1 entry point; `most` is its bound on the number of bindings. */
  method CreateGraphicsBindGroupV1(t: Target, bindings: seq<BindingV1>, most: nat) returns (outcome: Outcome<BindingV1>)
    requires most <= 64
    ensures outcome.Submitted? <==>
              && ValidTarget(t) && 0 < |bindings| <= most
              && (forall i :: 0 <= i < |bindings| ==> ValidV1(bindings[i]))
              && Permutation(NumbersOf(bindings, (b: BindingV1) => b.number))
    ensures outcome.Submitted? ==> outcome.bindings == bindings
  {
    outcome := CreateGraphicsBindGroup(t, bindings, most, (b: BindingV1) => b.number, ValidV1);
  }
}
