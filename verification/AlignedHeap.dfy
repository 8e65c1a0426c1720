/**
  * Aligned allocation on top of a plain allocator: sixteen bytes of hidden metadata in front of
  * the aligned pointer, by which free and realloc find the block again.
  *
  * The plain allocator is a table of blocks; what it grants is a parameter of each call. Memory
  * is a total function, so that reading what lies in front of any pointer means something.
  */
module AlignedHeap {
  import opened Bits
  import opened Words

  /** The guard and the raw pointer. */
  function Meta(machine: Machine): nat { if machine.I686? then 8 else 16 }

  function Marker(machine: Machine): nat { if machine.I686? then 0xC0DE_C0DE else 0xC0DE_C0DE_BADC_0FFE }

  type Memory = nat -> Byte

  // ---------- Memory ----------

  function Loaded(mem: Memory, at: nat, n: nat): (bytes: seq<Byte>)
    ensures |bytes| == n && forall i :: 0 <= i < n ==> bytes[i] == mem(at + i)
  {
    seq(n, (i: nat) requires i < n => mem(at + i))
  }

  function WordAt(machine: Machine, mem: Memory, at: nat): nat {
    Field(Loaded(mem, at, PointerSize(machine)), 0, PointerSize(machine))
  }

  function Stored(mem: Memory, at: nat, bytes: seq<Byte>): Memory {
    (x: nat) => if at <= x < at + |bytes| then bytes[x - at] else mem(x)
  }

  function StoredWord(machine: Machine, mem: Memory, at: nat, word: nat): Memory {
    Stored(mem, at, LittleEndian(word, PointerSize(machine)))
  }

  lemma StoredWordIsRead(machine: Machine, mem: Memory, at: nat, word: nat)
    requires word <= WordMax(machine)
    ensures WordAt(machine, StoredWord(machine, mem, at, word), at) == word
  {
    var size := PointerSize(machine);
    assert Loaded(StoredWord(machine, mem, at, word), at, size) == LittleEndian(word, size);
    WordRange(machine);
    WordReadBack(LittleEndian(word, PointerSize(machine)), 0, word, PointerSize(machine));
  }

  lemma SameBytesSameWord(machine: Machine, a: Memory, b: Memory, at: nat)
    requires forall x: nat :: at <= x < at + PointerSize(machine) ==> a(x) == b(x)
    ensures WordAt(machine, a, at) == WordAt(machine, b, at)
  {
    assert Loaded(a, at, PointerSize(machine)) == Loaded(b, at, PointerSize(machine));
  }

  // ---------- Metadata ----------

  function Guard(machine: Machine, pointer: nat): nat { Xor(Marker(machine), pointer, 8 * PointerSize(machine)) }

  /** A guard is good for one pointer only: metadata copied elsewhere is not recognised. */
  lemma GuardNamesPointer(machine: Machine, p: nat, q: nat)
    requires p <= WordMax(machine) && q <= WordMax(machine) && Guard(machine, p) == Guard(machine, q)
    ensures p == q
  {
    WordRange(machine);
    XorDistinguishes(Marker(machine), p, q, 8 * PointerSize(machine));
  }

  /** The metadata in front of `pointer` names the raw block. */
  predicate Marked(machine: Machine, mem: Memory, pointer: nat, raw: nat) {
    && Meta(machine) <= pointer
    && WordAt(machine, mem, pointer - Meta(machine)) == Guard(machine, pointer)
    && WordAt(machine, mem, pointer - PointerSize(machine)) == raw
  }

  /** rincrt_load_aligned_raw */
  function LoadAlignedRaw(machine: Machine, mem: Memory, pointer: nat): Option<nat> {
    if pointer < Meta(machine) then None
    else if WordAt(machine, mem, pointer - Meta(machine)) != Guard(machine, pointer) then None
    else
    var raw := WordAt(machine, mem, pointer - PointerSize(machine));
    if raw == 0 || raw >= pointer then None else Some(raw)
  }

  function WithMeta(machine: Machine, mem: Memory, pointer: nat, raw: nat): Memory
    requires Meta(machine) <= pointer
  {
    var guarded := StoredWord(machine, mem, pointer - Meta(machine), Guard(machine, pointer));
    StoredWord(machine, guarded, pointer - PointerSize(machine), raw)
  }

  lemma MetaIsRead(machine: Machine, mem: Memory, pointer: nat, raw: nat)
    requires Meta(machine) <= pointer <= WordMax(machine) && raw <= WordMax(machine)
    ensures Marked(machine, WithMeta(machine, mem, pointer, raw), pointer, raw)
    ensures forall x: nat :: !(pointer - Meta(machine) <= x < pointer) ==>
              WithMeta(machine, mem, pointer, raw)(x) == mem(x)
  {
    WordRange(machine);
    var first := StoredWord(machine, mem, pointer - Meta(machine), Guard(machine, pointer));
    StoredWordIsRead(machine, mem, pointer - Meta(machine), Guard(machine, pointer));
    StoredWordIsRead(machine, first, pointer - PointerSize(machine), raw);
    SameBytesSameWord(machine, first, WithMeta(machine, mem, pointer, raw), pointer - Meta(machine));
  }

  lemma StillMarked(machine: Machine, a: Memory, b: Memory, pointer: nat, raw: nat)
    requires Marked(machine, a, pointer, raw)
    requires forall x: nat :: pointer - Meta(machine) <= x < pointer ==> a(x) == b(x)
    ensures Marked(machine, b, pointer, raw)
  {
    SameBytesSameWord(machine, a, b, pointer - Meta(machine));
    SameBytesSameWord(machine, a, b, pointer - PointerSize(machine));
  }

  // ---------- Alignment ----------

  /** The tests aligned_alloc makes on its arguments before it allocates. */
  predicate Refuses(machine: Machine, alignment: nat, size: nat) {
    || alignment < PointerSize(machine) || And(alignment, alignment - 1) != 0 || And(size, alignment - 1) != 0
    || size > WordMax(machine) - alignment || size + alignment > WordMax(machine) - Meta(machine)
  }

  /** What those tests mean. */
  lemma RefusesMeans(machine: Machine, alignment: nat, size: nat)
    ensures Refuses(machine, alignment, size) <==>
            !(alignment >= PointerSize(machine) && PowerOfTwo(alignment) && Multiple(size, alignment)
              && size + alignment + Meta(machine) <= WordMax(machine))
  {
    if alignment >= PointerSize(machine) {
      PowerOfTwoTest(alignment);
      if PowerOfTwo(alignment) {
        MaskIsRemainder(size, Exponent(alignment));
        MultipleExactlyWithoutLow(size, Exponent(alignment));
      }
    }
  }

  function RoundedUp(address: nat, alignment: nat): nat
    requires alignment > 0
  {
    AndNot(address + alignment - 1, alignment - 1)
  }

  lemma RoundedUpIsNextMultiple(address: nat, alignment: nat)
    requires PowerOfTwo(alignment)
    ensures alignment > 0 && Multiple(RoundedUp(address, alignment), alignment)
    ensures address <= RoundedUp(address, alignment) < address + alignment
  {
    var k := Exponent(alignment);
    var n := address + alignment - 1;
    MaskIsRemainder(n, k);
    LowCleared(n, k);
    MultipleExactlyWithoutLow(n - Low(n, k), k);
  }

  // ---------- The heap ----------

  datatype Grant = Refused | Granted(raw: nat, capacity: nat)

  /**
    * What the plain allocator's own realloc does: leaves the block, takes it back for an empty request, or resizes it.
    */
  datatype Regrant = Kept | TakenBack | Resized(raw: nat, capacity: nat)

  /** The plain allocator's blocks lie apart from each other, in the address space and not at its start. */
  ghost predicate Apart(machine: Machine, blocks: map<nat, nat>) {
    && (forall r :: r in blocks ==> Meta(machine) <= r && 0 < blocks[r] && r + blocks[r] <= WordMax(machine) + 1)
    && (forall r, s :: r in blocks && s in blocks && r < s ==> r + blocks[r] <= s)
  }

  /** Every aligned pointer lies in a block of its own, behind room for its metadata. */
  ghost predicate Placed(machine: Machine, blocks: map<nat, nat>, aligned: map<nat, nat>) {
    && (forall p :: p in aligned ==>
          && aligned[p] in blocks && aligned[p] + Meta(machine) <= p <= WordMax(machine)
          && p < aligned[p] + blocks[aligned[p]])
    && (forall p, q :: p in aligned && q in aligned && p != q ==> aligned[p] != aligned[q])
  }

  ghost predicate AllMarked(machine: Machine, mem: Memory, aligned: map<nat, nat>) {
    forall p {:trigger Marked(machine, mem, p, aligned[p])} :: p in aligned ==> Marked(machine, mem, p, aligned[p])
  }

  /** Writing outside the metadata of every pointer leaves them all marked. */
  lemma AllStillMarked(machine: Machine, a: Memory, b: Memory, aligned: map<nat, nat>)
    requires AllMarked(machine, a, aligned)
    requires forall p, x: nat :: p in aligned && p - Meta(machine) <= x < p ==> a(x) == b(x)
    ensures AllMarked(machine, b, aligned)
  {
    forall p | p in aligned ensures Marked(machine, b, p, aligned[p]) {
      StillMarked(machine, a, b, p, aligned[p]);
    }
  }

  /** Nothing but the `n` bytes from `from` has changed. */
  ghost predicate SameOutside(was: Memory, now: Memory, from: nat, n: nat) {
    forall x: nat {:trigger now(x)} :: !(from <= x < from + n) ==> now(x) == was(x)
  }

  /** `now` is `was` with `n` bytes from `from` copied to `at`. */
  ghost predicate IsCopy(was: Memory, now: Memory, at: nat, from: nat, n: nat) {
    forall x: nat {:trigger now(x)} :: now(x) == if at <= x < at + n then was(from + (x - at)) else was(x)
  }

  lemma CopyOneMore(was: Memory, now: Memory, at: nat, from: nat, n: nat)
    requires IsCopy(was, now, at, from, n) && !(at <= from + n < at + n)
    ensures IsCopy(was, Stored(now, at + n, [now(from + n)]), at, from, n + 1)
  {
    var next := Stored(now, at + n, [now(from + n)]);
    forall x: nat ensures next(x) == if at <= x < at + n + 1 then was(from + (x - at)) else was(x) {
      if x == at + n {
        assert from + (x - at) == from + n;
        assert now(from + n) == was(from + n);
      }
    }
  }

  /** The byte loop of realloc. */
  method CopyLoop(mem: Memory, at: nat, from: nat, n: nat) returns (now: Memory)
    requires at + n <= from || from + n <= at
    ensures IsCopy(mem, now, at, from, n)
  {
    now := mem;
    for index := 0 to n
      invariant IsCopy(mem, now, at, from, index)
    {
      CopyOneMore(mem, now, at, from, index);
      now := Stored(now, at + index, [now(from + index)]);
    }
  }

  /** `n` bytes moved at once, as if through a buffer. */
  function Moved(mem: Memory, at: nat, from: nat, n: nat): (now: Memory)
    ensures IsCopy(mem, now, at, from, n)
  {
    (x: nat) => if at <= x < at + n then mem(from + (x - at)) else mem(x)
  }

  function Least(a: nat, b: nat): nat { if a < b then a else b }

  class Heap {
    const machine: Machine
    var mem: Memory
    var blocks: map<nat, nat>          // the plain allocator's live blocks and their capacities
    ghost var aligned: map<nat, nat>   // the aligned pointers handed out and the block behind each

    ghost predicate Valid()
      reads this
    {
      Apart(machine, blocks) && Placed(machine, blocks, aligned) && AllMarked(machine, mem, aligned)
    }

    /** A plain block the caller holds. */
    ghost predicate Plain(p: nat)
      reads this
    {
      p in blocks && forall q :: q in aligned ==> aligned[q] != p
    }

    /** The caller holds `p`; a plain block does not look like an aligned one. */
    ghost predicate Holds(p: nat)
      reads this
    {
      p in aligned || (Plain(p) && LoadAlignedRaw(machine, mem, p) == None)
    }

    ghost function Usable(p: nat): nat
      requires Valid() && (p in aligned || Plain(p))
      reads this
    {
      if p in aligned then aligned[p] + blocks[aligned[p]] - p else blocks[p]
    }

    /** What the plain allocator may answer: nothing, or a block apart from all others. */
    ghost predicate Grantable(g: Grant, size: nat)
      reads this
    {
      g.Granted? ==>
        && size <= g.capacity && 0 < g.capacity && Meta(machine) <= g.raw && g.raw + g.capacity <= WordMax(machine) + 1
        && forall r :: r in blocks ==> r + blocks[r] <= g.raw || g.raw + g.capacity <= r
    }

    constructor (machine: Machine)
      ensures Valid() && blocks == map[] && aligned == map[] && this.machine == machine
    {
      this.machine := machine;
      mem, blocks, aligned := _ => 0, map[], map[];
    }

    /** The metadata is what free and realloc need: it names exactly the block. */
    lemma Unwraps(p: nat)
      requires Valid() && p in aligned
      ensures LoadAlignedRaw(machine, mem, p) == Some(aligned[p])
    {
      assert Marked(machine, mem, p, aligned[p]);
    }

    /** No user byte of one pointer is a user byte or a metadata byte of another, and none is its own metadata. */
    lemma UserBytesApart(p: nat, q: nat)
      requires Valid() && (p in aligned || Plain(p)) && (q in aligned || Plain(q)) && p != q
      ensures p + Usable(p) <= q || q + Usable(q) <= p
      ensures q in aligned ==> p + Usable(p) <= q - Meta(machine) || q <= p
    {
      var r := if p in aligned then aligned[p] else p;
      var s := if q in aligned then aligned[q] else q;
      assert r in blocks && s in blocks && r != s;
    }

    /** The plain allocator: a block, or 0. */
    method PlainMalloc(size: nat, g: Grant) returns (raw: nat)
      requires Valid() && Grantable(g, size)
      modifies this`blocks
      ensures Valid() && raw == if g.Granted? then g.raw else 0
      ensures g.Granted? ==> g.raw !in old(blocks) && blocks == old(blocks)[g.raw := g.capacity] && Plain(g.raw)
      ensures g.Refused? ==> unchanged(this)
    {
      match g
      case Refused => return 0;
      case Granted(at, capacity) =>
        blocks := blocks[at := capacity];
        return at;
    }

    method Malloc(size: nat, g: Grant) returns (pointer: nat)
      requires Valid() && Grantable(g, size)
      modifies this`blocks
      ensures Valid() && pointer == if size > 0 && g.Granted? then g.raw else 0
      ensures pointer != 0 ==> pointer !in old(blocks) && blocks == old(blocks)[pointer := g.capacity] && Plain(pointer)
      ensures pointer == 0 ==> unchanged(this)
    {
      if size == 0 { return 0; }
      pointer := PlainMalloc(size, g);
    }

    /** Where the aligned pointer of a granted block lies: behind its metadata, with room for the request. */
    lemma Fits(raw: nat, capacity: nat, alignment: nat, size: nat)
      requires PowerOfTwo(alignment) && raw + capacity <= WordMax(machine) + 1
      requires size + alignment + Meta(machine) <= capacity
      ensures raw + Meta(machine) + (alignment - 1) <= WordMax(machine)
      ensures alignment > 0
      ensures raw + Meta(machine) <= RoundedUp(raw + Meta(machine), alignment)
      ensures RoundedUp(raw + Meta(machine), alignment) + size < raw + capacity
      ensures Multiple(RoundedUp(raw + Meta(machine), alignment), alignment)
    {
      RoundedUpIsNextMultiple(raw + Meta(machine), alignment);
    }

    /** Writing metadata inside a fresh block marks the pointer and disturbs nobody else. */
    method Mark(pointer: nat, raw: nat)
      requires Valid() && Plain(raw) && raw + Meta(machine) <= pointer < raw + blocks[raw]
      modifies this`mem, this`aligned
      ensures Valid() && aligned == old(aligned)[pointer := raw]
      ensures SameOutside(old(mem), mem, raw, blocks[raw])
    {
      MetaIsRead(machine, mem, pointer, raw);
      AllStillMarked(machine, mem, WithMeta(machine, mem, pointer, raw), aligned);
      mem := WithMeta(machine, mem, pointer, raw);
      aligned := aligned[pointer := raw];
    }

    /** What a successful aligned allocation leaves. */
    ghost predicate Allocated(pointer: nat, size: nat, g: Grant, oldBlocks: map<nat, nat>, oldAligned: map<nat, nat>)
      reads this
    {
      && g.Granted? && g.raw !in oldBlocks
      && g.raw + Meta(machine) <= pointer && pointer + size <= g.raw + g.capacity
      && blocks == oldBlocks[g.raw := g.capacity] && aligned == oldAligned[pointer := g.raw]
    }

    /** Where the aligned pointer goes. */
    method Place(raw: nat, capacity: nat, alignment: nat, size: nat) returns (pointer: nat)
      requires !Refuses(machine, alignment, size) && raw + capacity <= WordMax(machine) + 1
      requires size + alignment + Meta(machine) <= capacity
      ensures raw + Meta(machine) <= pointer && pointer + size < raw + capacity
      ensures Multiple(pointer, alignment)
    {
      RefusesMeans(machine, alignment, size);
      var address := raw + Meta(machine);
      Fits(raw, capacity, alignment, size);
      // The source tests this sum for wrapping; it never wraps.
      assert address <= WordMax(machine) - (alignment - 1);
      return RoundedUp(address, alignment);
    }

    method PlaceAndMark(raw: nat, alignment: nat, size: nat) returns (pointer: nat)
      requires Valid() && Plain(raw) && !Refuses(machine, alignment, size)
      requires size + alignment + Meta(machine) <= blocks[raw]
      modifies this`mem, this`aligned
      ensures Valid() && aligned == old(aligned)[pointer := raw] && blocks == old(blocks)
      ensures raw + Meta(machine) <= pointer && pointer + size < raw + blocks[raw] && Multiple(pointer, alignment)
      ensures SameOutside(old(mem), mem, raw, blocks[raw])
    {
      pointer := Place(raw, blocks[raw], alignment, size);
      Mark(pointer, raw);
    }

    /** A block for the request, its metadata and the alignment, and the pointer in it. */
    method AllocateAligned(alignment: nat, size: nat, g: Grant) returns (pointer: nat)
      requires Valid() && Grantable(g, size + alignment + Meta(machine)) && !Refuses(machine, alignment, size)
      modifies this
      ensures Valid() && (pointer != 0 <==> g.Granted?)
      ensures pointer == 0 ==> unchanged(this)
      ensures pointer != 0 ==> Multiple(pointer, alignment) && Allocated(pointer, size, g, old(blocks), old(aligned))
      ensures pointer != 0 ==> SameOutside(old(mem), mem, g.raw, g.capacity)
    {
      var raw := Malloc(size + alignment + Meta(machine), g);
      if raw == 0 { return 0; }
      pointer := PlaceAndMark(raw, alignment, size);
    }

    /** aligned_alloc */
    method AlignedAlloc(alignment: nat, size: nat, g: Grant) returns (pointer: nat)
      requires Valid() && Grantable(g, size + alignment + Meta(machine))
      modifies this
      ensures Valid() && (pointer != 0 <==> !Refuses(machine, alignment, size) && g.Granted?)
      ensures pointer == 0 ==> unchanged(this)
      ensures pointer != 0 ==> Multiple(pointer, alignment) && Allocated(pointer, size, g, old(blocks), old(aligned))
      ensures pointer != 0 ==> SameOutside(old(mem), mem, g.raw, g.capacity)
    {
      if Refuses(machine, alignment, size) { return 0; }
      pointer := AllocateAligned(alignment, size, g);
    }

    /** posix_memalign: the error, and the pointer if there is none; the size is rounded up, never down. */
    method PosixMemalign(alignment: nat, size: nat, g: Grant) returns (error: Error, pointer: nat)
      requires Valid() && Grantable(g, RoundedSize(alignment, size) + alignment + Meta(machine))
      modifies this
      ensures Valid()
      ensures error == Invalid <==> !(alignment >= PointerSize(machine) && PowerOfTwo(alignment))
      ensures error == NoError <==>
                && alignment >= PointerSize(machine) && PowerOfTwo(alignment) && g.Granted?
                && RoundedUp(size, alignment) + alignment + Meta(machine) <= WordMax(machine)
      ensures error == NoError ==> Multiple(pointer, alignment)
      ensures error == NoError ==> Allocated(pointer, size, g, old(blocks), old(aligned))
      ensures error != NoError ==> unchanged(this)
    {
      pointer := 0;
      if alignment >= PointerSize(machine) { PowerOfTwoTest(alignment); }
      if alignment < PointerSize(machine) || And(alignment, alignment - 1) != 0 { return Invalid, pointer; }
      RoundedUpIsNextMultiple(size, alignment);
      if size > WordMax(machine) - (alignment - 1) { return NoMemory, pointer; }
      RefusesMeans(machine, alignment, RoundedUp(size, alignment));
      pointer := AlignedAlloc(alignment, RoundedUp(size, alignment), g);
      error := if pointer == 0 then NoMemory else NoError;
    }

    /** The plain allocator takes a block back. */
    method PlainFree(raw: nat)
      requires Valid() && Plain(raw)
      modifies this`blocks
      ensures Valid() && blocks == old(blocks) - {raw}
    {
      blocks := blocks - {raw};
    }

    /** free: exactly the block behind the pointer is given back, and nothing else changes. */
    method Free(pointer: nat)
      requires Valid() && (pointer == 0 || Holds(pointer))
      modifies this`blocks, this`aligned
      ensures Valid()
      ensures pointer == 0 ==> blocks == old(blocks) && aligned == old(aligned)
      ensures pointer != 0 ==>
                && blocks == old(blocks) - {if pointer in old(aligned) then old(aligned)[pointer] else pointer}
                && aligned == old(aligned) - {pointer}
    {
      if pointer == 0 { return; }
      if pointer in aligned { Unwraps(pointer); }
      var unwrapped := LoadAlignedRaw(machine, mem, pointer);
      var raw := if unwrapped.Some? then unwrapped.value else pointer;
      aligned := aligned - {pointer};
      PlainFree(raw);
    }

    /** Metadata lies outside the user bytes of every pointer. */
    lemma MetadataUntouched(p: nat, from: nat, end: nat, now: Memory)
      requires Valid() && (p in aligned || Plain(p)) && p <= from && end <= p + Usable(p)
      requires forall x: nat :: !(from <= x < end) ==> now(x) == mem(x)
      ensures AllMarked(machine, now, aligned)
    {
      forall q, x: nat | q in aligned && q - Meta(machine) <= x < q ensures now(x) == mem(x) {
        if p != q { UserBytesApart(p, q); }
      }
      AllStillMarked(machine, mem, now, aligned);
    }

    /** The caller writes one of its bytes. */
    method Write(pointer: nat, index: nat, b: Byte)
      requires Valid() && (pointer in aligned || Plain(pointer)) && index < Usable(pointer)
      modifies this`mem
      ensures Valid() && mem(pointer + index) == b
      ensures forall x: nat :: x != pointer + index ==> mem(x) == old(mem)(x)
    {
      var now := Stored(mem, pointer + index, [b]);
      MetadataUntouched(pointer, pointer + index, pointer + index + 1, now);
      mem := now;
    }

    /** Copies the first `n` user bytes of an aligned pointer into a plain block. */
    method CopyBytes(replacement: nat, pointer: nat, n: nat)
      requires Valid() && pointer in aligned && n <= Usable(pointer)
      requires Plain(replacement) && n <= blocks[replacement]
      modifies this`mem
      ensures Valid() && IsCopy(old(mem), mem, replacement, pointer, n)
    {
      UserBytesApart(pointer, replacement);
      var now := CopyLoop(mem, replacement, pointer, n);
      MetadataUntouched(replacement, replacement, replacement + n, now);
      mem := now;
    }

    /** The block behind an aligned pointer is given back. */
    method Drop(pointer: nat, raw: nat)
      requires Valid() && pointer in aligned && aligned[pointer] == raw
      modifies this`blocks, this`aligned
      ensures Valid() && blocks == old(blocks) - {raw} && aligned == old(aligned) - {pointer}
    {
      aligned := aligned - {pointer};
      PlainFree(raw);
    }

    /** What realloc of an aligned pointer leaves: a plain block with the common prefix in place of the old one. */
    ghost predicate Replaced(pointer: nat, raw: nat, size: nat, g: Grant, usable: nat,
                             oldMem: Memory, oldBlocks: map<nat, nat>, oldAligned: map<nat, nat>)
      reads this
    {
      && g.Granted? && blocks == oldBlocks[g.raw := g.capacity] - {raw} && aligned == oldAligned - {pointer}
      && IsCopy(oldMem, mem, g.raw, pointer, Least(size, usable))
    }

    method Replace(pointer: nat, raw: nat, size: nat, g: Grant) returns (replacement: nat)
      requires Valid() && pointer in aligned && aligned[pointer] == raw && size > 0 && Grantable(g, size)
      modifies this
      ensures Valid() && replacement == if g.Granted? then g.raw else 0
      ensures g.Refused? ==> unchanged(this)
      ensures g.Granted? ==> Replaced(pointer, raw, size, g, old(Usable(pointer)), old(mem), old(blocks), old(aligned))
    {
      var capacity, offset := blocks[raw], pointer - raw;
      assert offset < capacity;
      var copySize := capacity - offset;
      replacement := PlainMalloc(size, g);
      if replacement == 0 { return; }
      if copySize > size { copySize := size; }
      CopyBytes(replacement, pointer, copySize);
      Drop(pointer, raw);
    }

    /** What the plain allocator's own realloc may answer: a resized block lies apart from all others. */
    ghost predicate Regrantable(a: Regrant, pointer: nat, size: nat)
      reads this
    {
      && (a.TakenBack? ==> size == 0)
      && (a.Resized? ==>
            && size <= a.capacity && 0 < a.capacity
            && Meta(machine) <= a.raw && a.raw + a.capacity <= WordMax(machine) + 1
            && forall r :: r in blocks && r != pointer ==> r + blocks[r] <= a.raw || a.raw + a.capacity <= r)
    }

    /** What the plain allocator's own realloc leaves. */
    ghost predicate PlainResized(pointer: nat, size: nat, a: Regrant, oldMem: Memory, oldBlocks: map<nat, nat>)
      requires pointer in oldBlocks
      reads this
    {
      match a
      case Kept => blocks == oldBlocks && mem == oldMem
      case TakenBack => blocks == oldBlocks - {pointer} && mem == oldMem
      case Resized(raw, capacity) =>
        && blocks == (oldBlocks - {pointer})[raw := capacity]
        && IsCopy(oldMem, mem, raw, pointer, Least(size, oldBlocks[pointer]))
    }

    /** Neither the resized block nor what is copied into it touches an aligned pointer. */
    lemma ResizeKeeps(pointer: nat, size: nat, raw: nat, capacity: nat, now: Memory)
      requires Valid() && Plain(pointer) && Regrantable(Resized(raw, capacity), pointer, size)
      requires IsCopy(mem, now, raw, pointer, Least(size, blocks[pointer]))
      ensures var blocks' := (blocks - {pointer})[raw := capacity];
              Apart(machine, blocks') && Placed(machine, blocks', aligned) && AllMarked(machine, now, aligned)
    {
      forall q, x: nat | q in aligned && q - Meta(machine) <= x < q ensures now(x) == mem(x) {
        assert aligned[q] in blocks && aligned[q] != pointer;
      }
      AllStillMarked(machine, mem, now, aligned);
    }

    method PlainRealloc(pointer: nat, size: nat, a: Regrant) returns (replacement: nat)
      requires Valid() && Plain(pointer) && Regrantable(a, pointer, size)
      modifies this`mem, this`blocks
      ensures Valid() && PlainResized(pointer, size, a, old(mem), old(blocks))
      ensures replacement == if a.Resized? then a.raw else 0
    {
      match a
      case Kept => return 0;
      case TakenBack =>
        blocks := blocks - {pointer};
        return 0;
      case Resized(raw, capacity) =>
        var now := Moved(mem, raw, pointer, Least(size, blocks[pointer]));
        ResizeKeeps(pointer, size, raw, capacity, now);
        mem, blocks := now, (blocks - {pointer})[raw := capacity];
        return raw;
    }

    /** realloc; `g` is the plain allocator's answer to an allocation, `a` to a resize of one of its own blocks. */
    method Realloc(pointer: nat, size: nat, g: Grant, a: Regrant) returns (replacement: nat)
      requires Valid() && (pointer == 0 || Holds(pointer)) && Grantable(g, size)
      requires pointer != 0 && pointer !in aligned ==> Regrantable(a, pointer, size)
      modifies this
      ensures Valid()
      ensures replacement == if pointer != 0 && pointer !in old(aligned) then if a.Resized? then a.raw else 0
                             else if size > 0 && g.Granted? then g.raw else 0
      ensures pointer == 0 ==> aligned == old(aligned) && mem == old(mem)
      ensures pointer == 0 ==>
                blocks == if replacement == 0 then old(blocks) else old(blocks)[replacement := g.capacity]
      ensures pointer != 0 && pointer !in old(aligned) ==>
                aligned == old(aligned) && PlainResized(pointer, size, a, old(mem), old(blocks))
      ensures pointer in old(aligned) && size == 0 ==>
                && blocks == old(blocks) - {old(aligned)[pointer]} && aligned == old(aligned) - {pointer}
                && mem == old(mem)
      ensures pointer in old(aligned) && size > 0 && g.Refused? ==> unchanged(this)
      ensures pointer in old(aligned) && size > 0 && g.Granted? ==>
                Replaced(pointer, old(aligned)[pointer], size, g, old(Usable(pointer)),
                         old(mem), old(blocks), old(aligned))
    {
      if pointer == 0 {
        replacement := Malloc(size, g);
        return;
      }
      if pointer in aligned { Unwraps(pointer); }
      var unwrapped := LoadAlignedRaw(machine, mem, pointer);
      if unwrapped.None? {
        replacement := PlainRealloc(pointer, size, a);
        return;
      }
      if size == 0 {
        Drop(pointer, unwrapped.value);
        return 0;
      }
      replacement := Replace(pointer, unwrapped.value, size, g);
    }

    /** malloc_usable_size */
    method UsableSize(pointer: nat) returns (size: nat)
      requires Valid() && Holds(pointer)
      ensures size == Usable(pointer)
    {
      if pointer in aligned { Unwraps(pointer); }
      var unwrapped := LoadAlignedRaw(machine, mem, pointer);
      if unwrapped.None? { return blocks[pointer]; }
      var capacity, offset := blocks[unwrapped.value], pointer - unwrapped.value;
      // The source answers 0 for an offset past the capacity; there is none.
      assert offset < capacity;
      return capacity - offset;
    }
  }

  datatype Error = NoError | Invalid | NoMemory

  /** What posix_memalign asks aligned_alloc for. */
  function RoundedSize(alignment: nat, size: nat): nat {
    if alignment == 0 then size else RoundedUp(size, alignment)
  }
}
