/**
  * qsort: an in-place heapsort of `count` elements of `size` bytes each.
  *
  * The algorithm is specified on sequences of elements; the methods run it on the bytes.
  */
module HeapSort {
  import opened Strides
  import opened Words

  type Compare<!T> = (T, T) -> int

  /** A comparator that is a total preorder on the values in `s`, as the C standard asks of callers. */
  ghost predicate Consistent<T>(cmp: Compare<T>, s: set<T>) {
    && (forall a, b {:trigger cmp(a, b)} :: a in s && b in s ==> (cmp(a, b) < 0 <==> cmp(b, a) > 0))
    && (forall a, b, c {:trigger cmp(a, b), cmp(b, c)} ::
          a in s && b in s && c in s && cmp(a, b) <= 0 && cmp(b, c) <= 0 ==> cmp(a, c) <= 0)
  }

  ghost predicate Within<T>(es: seq<T>, s: set<T>) {
    forall i :: 0 <= i < |es| ==> es[i] in s
  }

  ghost predicate Sorted<T>(es: seq<T>, cmp: Compare<T>) {
    forall i, j :: 0 <= i < j < |es| ==> cmp(es[i], es[j]) <= 0
  }

  function Swap<T>(es: seq<T>, i: nat, j: nat): (r: seq<T>)
    requires i < |es| && j < |es|
    ensures |r| == |es|
  {
    es[i := es[j]][j := es[i]]
  }

  lemma SwapPermutes<T>(es: seq<T>, i: nat, j: nat)
    requires i < |es| && j < |es|
    ensures multiset(Swap(es, i, j)) == multiset(es)
  {
  }

  // ---------- The algorithm on elements ----------

  /** The root or whichever child the two comparisons pick. */
  function Selected<T>(es: seq<T>, root: nat, end: nat, cmp: Compare<T>): (selected: nat)
    requires 2 * root + 1 <= end < |es|
    ensures selected == root || selected == 2 * root + 1 || (selected == 2 * root + 2 && selected <= end)
  {
    var child := 2 * root + 1;
    var first := if cmp(es[root], es[child]) < 0 then child else root;
    if child + 1 <= end && cmp(es[first], es[child + 1]) < 0 then child + 1 else first
  }

  /** `end` is the index of the last element of the heap. */
  function SiftDown<T>(es: seq<T>, root: nat, end: nat, cmp: Compare<T>): (r: seq<T>)
    requires end < |es|
    ensures |r| == |es|
    decreases end - root
  {
    if end == 0 || root > (end - 1) / 2 then es else
    var selected := Selected(es, root, end, cmp);
    if selected == root then es else SiftDown(Swap(es, root, selected), selected, end, cmp)
  }

  /** Sifts every position below `start`, from the last to the first. */
  function Heapify<T>(es: seq<T>, start: nat, end: nat, cmp: Compare<T>): (r: seq<T>)
    requires end < |es|
    ensures |r| == |es|
    decreases start
  {
    if start == 0 then es else Heapify(SiftDown(es, start - 1, end, cmp), start - 1, end, cmp)
  }

  /** Moves the maximum of the heap 0..end behind it and repairs the rest, until nothing is left. */
  function Drain<T>(es: seq<T>, end: nat, cmp: Compare<T>): (r: seq<T>)
    requires end < |es|
    ensures |r| == |es|
    decreases end
  {
    if end == 0 then es else Drain(SiftDown(Swap(es, 0, end), 0, end - 1, cmp), end - 1, cmp)
  }

  function HeapSorted<T>(es: seq<T>, cmp: Compare<T>): (r: seq<T>)
    ensures |r| == |es|
  {
    if |es| < 2 then es else Drain(Built(es, cmp), |es| - 1, cmp)
  }

  // ---------- It permutes ----------

  /** Sifting only moves elements of the heap, none of them behind its end. */
  lemma {:induction false} SiftDownPermutes<T>(es: seq<T>, root: nat, end: nat, cmp: Compare<T>)
    requires end < |es|
    ensures var r := SiftDown(es, root, end, cmp);
            multiset(r[..end + 1]) == multiset(es[..end + 1]) && r[end + 1..] == es[end + 1..]
    decreases end - root
  {
    if end != 0 && root <= (end - 1) / 2 {
      var selected := Selected(es, root, end, cmp);
      if selected != root {
        var swapped := Swap(es, root, selected);
        assert swapped[..end + 1] == Swap(es[..end + 1], root, selected);
        SwapPermutes(es[..end + 1], root, selected);
        SiftDownPermutes(swapped, selected, end, cmp);
      }
    }
  }

  lemma PrefixPermutes<T>(es: seq<T>, r: seq<T>, n: nat)
    requires n <= |es| == |r| && multiset(r[..n]) == multiset(es[..n]) && r[n..] == es[n..]
    ensures multiset(r) == multiset(es)
  {
    assert es == es[..n] + es[n..] && r == r[..n] + r[n..];
  }

  lemma SiftDownPermutesAll<T>(es: seq<T>, root: nat, end: nat, cmp: Compare<T>)
    requires end < |es|
    ensures multiset(SiftDown(es, root, end, cmp)) == multiset(es)
  {
    SiftDownPermutes(es, root, end, cmp);
    PrefixPermutes(es, SiftDown(es, root, end, cmp), end + 1);
  }

  lemma {:induction false} HeapifyPermutes<T>(es: seq<T>, start: nat, end: nat, cmp: Compare<T>)
    requires end < |es|
    ensures multiset(Heapify(es, start, end, cmp)) == multiset(es)
    decreases start
  {
    if start > 0 {
      SiftDownPermutesAll(es, start - 1, end, cmp);
      HeapifyPermutes(SiftDown(es, start - 1, end, cmp), start - 1, end, cmp);
    }
  }

  // ---------- It builds heaps ----------

  predicate AtLeast<T>(es: seq<T>, i: nat, j: nat, cmp: Compare<T>)
    requires i < |es| && j < |es|
  {
    cmp(es[j], es[i]) <= 0
  }

  function Parent(c: nat): nat
    requires c > 0
  {
    (c - 1) / 2
  }

  /** Every position up to `end` whose parent is at or after `lo` is at most its parent. */
  ghost predicate Heap<T>(es: seq<T>, lo: nat, end: nat, cmp: Compare<T>)
    requires end < |es|
  {
    forall c :: 0 < c <= end && lo <= Parent(c) ==> AtLeast(es, Parent(c), c, cmp)
  }

  /** A heap but for the children of `hole`, which are still at most the hole's parent. */
  ghost predicate HeapBut<T>(es: seq<T>, lo: nat, end: nat, hole: nat, cmp: Compare<T>)
    requires end < |es|
  {
    && (forall c :: 0 < c <= end && lo <= Parent(c) && Parent(c) != hole ==> AtLeast(es, Parent(c), c, cmp))
    && (forall c :: 0 < c <= end && Parent(c) == hole && hole > 0 && lo <= Parent(hole) ==>
          AtLeast(es, Parent(hole), c, cmp))
  }

  lemma {:induction false} SiftDownMakesHeap<T>(es: seq<T>, lo: nat, root: nat, end: nat, cmp: Compare<T>, s: set<T>)
    requires end < |es| && lo <= root
    requires Consistent(cmp, s) && Within(es, s)
    requires HeapBut(es, lo, end, root, cmp)
    ensures Heap(SiftDown(es, root, end, cmp), lo, end, cmp)
    decreases end - root
  {
    if end != 0 && root <= (end - 1) / 2 {
      var selected := Selected(es, root, end, cmp);
      if selected == root {
        forall c | 0 < c <= end && lo <= Parent(c)
          ensures AtLeast(es, Parent(c), c, cmp)
        {
          if Parent(c) == root { assert c == 2 * root + 1 || c == 2 * root + 2; }
        }
      } else {
        var swapped := Swap(es, root, selected);
        SwapKeepsHeapBut(es, lo, root, end, cmp, s);
        SiftDownMakesHeap(swapped, lo, selected, end, cmp, s);
      }
    }
  }

  lemma SelectedIsMaximum<T>(es: seq<T>, root: nat, end: nat, c: nat, cmp: Compare<T>, s: set<T>)
    requires end < |es| && 2 * root + 1 <= end
    requires c == root || c == 2 * root + 1 || (c == 2 * root + 2 && c <= end)
    requires Consistent(cmp, s) && Within(es, s)
    ensures AtLeast(es, Selected(es, root, end, cmp), c, cmp)
  {
    assert cmp(es[c], es[c]) <= 0;
  }

  lemma SwapKeepsPair<T>(es: seq<T>, lo: nat, root: nat, end: nat, c: nat, cmp: Compare<T>, s: set<T>)
    requires end < |es| && lo <= root && 2 * root + 1 <= end
    requires Consistent(cmp, s) && Within(es, s)
    requires HeapBut(es, lo, end, root, cmp)
    requires var selected := Selected(es, root, end, cmp);
             selected != root && 0 < c <= end && lo <= Parent(c) && Parent(c) != selected
    ensures AtLeast(Swap(es, root, Selected(es, root, end, cmp)), Parent(c), c, cmp)
  {
    var selected := Selected(es, root, end, cmp);
    if Parent(c) == root {
      SelectedIsMaximum(es, root, end, if c == selected then root else c, cmp, s);
    } else if c == root {
      assert AtLeast(es, Parent(root), selected, cmp);
    } else {
      assert AtLeast(es, Parent(c), c, cmp);
    }
  }

  lemma SwapKeepsHeapBut<T>(es: seq<T>, lo: nat, root: nat, end: nat, cmp: Compare<T>, s: set<T>)
    requires end < |es| && lo <= root && 2 * root + 1 <= end
    requires Consistent(cmp, s) && Within(es, s)
    requires HeapBut(es, lo, end, root, cmp)
    requires Selected(es, root, end, cmp) != root
    ensures var selected := Selected(es, root, end, cmp);
            HeapBut(Swap(es, root, selected), lo, end, selected, cmp)
  {
    var selected := Selected(es, root, end, cmp);
    var swapped := Swap(es, root, selected);
    forall c | 0 < c <= end && lo <= Parent(c) && Parent(c) != selected
      ensures AtLeast(swapped, Parent(c), c, cmp)
    {
      SwapKeepsPair(es, lo, root, end, c, cmp, s);
    }
    forall c | 0 < c <= end && Parent(c) == selected
      ensures AtLeast(swapped, Parent(selected), c, cmp)
    {
      assert AtLeast(es, selected, c, cmp);
    }
  }

  lemma {:induction false} HeapifyMakesHeap<T>(es: seq<T>, start: nat, end: nat, cmp: Compare<T>, s: set<T>)
    requires end < |es|
    requires Consistent(cmp, s) && Within(es, s)
    requires Heap(es, start, end, cmp)
    ensures Heap(Heapify(es, start, end, cmp), 0, end, cmp)
    decreases start
  {
    if start > 0 {
      var r := SiftDown(es, start - 1, end, cmp);
      SiftDownMakesHeap(es, start - 1, start - 1, end, cmp, s);
      SiftDownPermutesAll(es, start - 1, end, cmp);
      SameElements(es, r, s);
      HeapifyMakesHeap(r, start - 1, end, cmp, s);
    }
  }

  lemma SameElements<T>(es: seq<T>, r: seq<T>, s: set<T>)
    requires multiset(r) == multiset(es) && Within(es, s)
    ensures Within(r, s)
  {
    forall i | 0 <= i < |r| ensures r[i] in s {
      assert r[i] in multiset(r);
    }
  }

  lemma {:induction false} RootIsMaximum<T>(es: seq<T>, end: nat, k: nat, cmp: Compare<T>, s: set<T>)
    requires k <= end < |es| && Heap(es, 0, end, cmp)
    requires Consistent(cmp, s) && Within(es, s)
    ensures AtLeast(es, 0, k, cmp)
  {
    if k > 0 {
      RootIsMaximum(es, end, Parent(k), cmp, s);
      assert AtLeast(es, Parent(k), k, cmp);
    } else {
      assert cmp(es[0], es[0]) <= 0;
    }
  }

  // ---------- It sorts ----------

  /** The part behind `end` is sorted and nothing in the heap exceeds it. */
  ghost predicate Settled<T>(es: seq<T>, end: nat, cmp: Compare<T>)
    requires end < |es|
  {
    forall i, j :: 0 <= i < j < |es| && end < j ==> cmp(es[i], es[j]) <= 0
  }

  lemma SettledAfterSwap<T>(es: seq<T>, end: nat, cmp: Compare<T>, s: set<T>)
    requires 0 < end < |es| && Heap(es, 0, end, cmp) && Settled(es, end, cmp)
    requires Consistent(cmp, s) && Within(es, s)
    ensures Settled(Swap(es, 0, end), end - 1, cmp)
  {
    var swapped := Swap(es, 0, end);
    forall i, j | 0 <= i < j < |es| && end - 1 < j
      ensures cmp(swapped[i], swapped[j]) <= 0
    {
      if j == end {
        RootIsMaximum(es, end, if i == 0 then end else i, cmp, s);
      }
    }
  }

  /** Permuting the heap in front of a settled part leaves it settled. */
  lemma SettledAfterPermuting<T>(es: seq<T>, r: seq<T>, end: nat, cmp: Compare<T>)
    requires 0 < end < |es| == |r| && Settled(es, end - 1, cmp)
    requires multiset(r[..end]) == multiset(es[..end]) && r[end..] == es[end..]
    ensures Settled(r, end - 1, cmp)
  {
    forall i, j | 0 <= i < j < |es| && end - 1 < j
      ensures cmp(r[i], r[j]) <= 0
    {
      assert r[j] == r[end..][j - end] == es[end..][j - end] == es[j];
      if i < end {
        assert r[..end][i] in multiset(es[..end]);
        var k :| 0 <= k < end && es[..end][k] == r[i];
        assert cmp(es[k], es[j]) <= 0;
      } else {
        assert r[i] == r[end..][i - end] == es[end..][i - end] == es[i];
      }
    }
  }

  lemma HeapButAfterSwap<T>(es: seq<T>, end: nat, cmp: Compare<T>)
    requires 0 < end < |es| && Heap(es, 0, end, cmp)
    ensures HeapBut(Swap(es, 0, end), 0, end - 1, 0, cmp)
  {
    forall c | 0 < c <= end - 1 && Parent(c) != 0
      ensures AtLeast(Swap(es, 0, end), Parent(c), c, cmp)
    {
      assert AtLeast(es, Parent(c), c, cmp);
    }
  }

  lemma DrainStepSettles<T>(es: seq<T>, end: nat, cmp: Compare<T>)
    requires 0 < end < |es| && Settled(Swap(es, 0, end), end - 1, cmp)
    ensures Settled(SiftDown(Swap(es, 0, end), 0, end - 1, cmp), end - 1, cmp)
  {
    var swapped := Swap(es, 0, end);
    SiftDownPermutes(swapped, 0, end - 1, cmp);
    SettledAfterPermuting(swapped, SiftDown(swapped, 0, end - 1, cmp), end, cmp);
  }

  lemma DrainStepPermutes<T>(es: seq<T>, end: nat, cmp: Compare<T>)
    requires 0 < end < |es|
    ensures multiset(SiftDown(Swap(es, 0, end), 0, end - 1, cmp)) == multiset(es)
  {
    SwapPermutes(es, 0, end);
    SiftDownPermutesAll(Swap(es, 0, end), 0, end - 1, cmp);
  }

  lemma DrainStep<T>(es: seq<T>, end: nat, cmp: Compare<T>, s: set<T>)
    requires 0 < end < |es| && Heap(es, 0, end, cmp)
    requires Consistent(cmp, s) && Within(es, s)
    ensures Heap(SiftDown(Swap(es, 0, end), 0, end - 1, cmp), 0, end - 1, cmp)
  {
    HeapButAfterSwap(es, end, cmp);
    SiftDownMakesHeap(Swap(es, 0, end), 0, 0, end - 1, cmp, s);
  }

  lemma {:induction false} DrainPermutes<T>(es: seq<T>, end: nat, cmp: Compare<T>)
    requires end < |es|
    ensures multiset(Drain(es, end, cmp)) == multiset(es)
    decreases end
  {
    if end > 0 {
      DrainStepPermutes(es, end, cmp);
      DrainPermutes(SiftDown(Swap(es, 0, end), 0, end - 1, cmp), end - 1, cmp);
    }
  }

  lemma {:induction false} DrainSorts<T>(es: seq<T>, end: nat, cmp: Compare<T>, s: set<T>)
    requires end < |es| && Heap(es, 0, end, cmp) && Settled(es, end, cmp)
    requires Consistent(cmp, s) && Within(es, s)
    ensures Sorted(Drain(es, end, cmp), cmp)
    decreases end
  {
    if end > 0 {
      var r := SiftDown(Swap(es, 0, end), 0, end - 1, cmp);
      SettledAfterSwap(es, end, cmp, s);
      DrainStepSettles(es, end, cmp);
      DrainStepPermutes(es, end, cmp);
      DrainStep(es, end, cmp, s);
      SameElements(es, r, s);
      DrainSorts(r, end - 1, cmp, s);
    }
  }

  /** The heap the first loop of qsort builds. */
  function Built<T>(es: seq<T>, cmp: Compare<T>): (r: seq<T>)
    requires |es| >= 2
    ensures |r| == |es|
  {
    Heapify(es, (|es| - 2) / 2 + 1, |es| - 1, cmp)
  }

  lemma BuiltIsHeap<T>(es: seq<T>, cmp: Compare<T>, s: set<T>)
    requires |es| >= 2 && Consistent(cmp, s) && Within(es, s)
    ensures Heap(Built(es, cmp), 0, |es| - 1, cmp)
  {
    HeapifyMakesHeap(es, (|es| - 2) / 2 + 1, |es| - 1, cmp, s);
  }

  lemma BuiltPermutes<T>(es: seq<T>, cmp: Compare<T>)
    requires |es| >= 2
    ensures multiset(Built(es, cmp)) == multiset(es)
  {
    HeapifyPermutes(es, (|es| - 2) / 2 + 1, |es| - 1, cmp);
  }

  lemma HeapSortedPermutes<T>(es: seq<T>, cmp: Compare<T>)
    ensures multiset(HeapSorted(es, cmp)) == multiset(es)
  {
    if |es| >= 2 {
      BuiltPermutes(es, cmp);
      DrainPermutes(Built(es, cmp), |es| - 1, cmp);
    }
  }

  lemma HeapSortedIsSorted<T>(es: seq<T>, cmp: Compare<T>, s: set<T>)
    requires Consistent(cmp, s) && Within(es, s)
    ensures Sorted(HeapSorted(es, cmp), cmp)
  {
    if |es| >= 2 {
      BuiltIsHeap(es, cmp, s);
      BuiltPermutes(es, cmp);
      SameElements(es, Built(es, cmp), s);
      DrainSorts(Built(es, cmp), |es| - 1, cmp, s);
    }
  }

  /** Heapsort returns a permutation of what it was given, sorted if the comparator is consistent on it. */
  lemma HeapSortedSorts<T>(es: seq<T>, cmp: Compare<T>)
    ensures multiset(HeapSorted(es, cmp)) == multiset(es)
    ensures Consistent(cmp, set e | e in es) ==> Sorted(HeapSorted(es, cmp), cmp)
  {
    HeapSortedPermutes(es, cmp);
    if Consistent(cmp, set e | e in es) {
      HeapSortedIsSorted(es, cmp, set e | e in es);
    }
  }

  // ---------- The bytes ----------

  function Element(bytes: seq<Byte>, i: nat, size: nat): (e: seq<Byte>)
    requires Offset(i, size) + size <= |bytes|
  {
    bytes[Offset(i, size)..Offset(i, size) + size]
  }

  /** The first `count` elements of `size` bytes. */
  function Elements(bytes: seq<Byte>, count: nat, size: nat): (es: seq<seq<Byte>>)
    requires Offset(count, size) <= |bytes|
    ensures |es| == count
  {
    if count == 0 then [] else Elements(bytes, count - 1, size) + [Element(bytes, count - 1, size)]
  }

  lemma {:induction false} ElementsAt(bytes: seq<Byte>, i: nat, count: nat, size: nat)
    requires Offset(count, size) <= |bytes| && i < count
    ensures Offset(i, size) + size <= |bytes| && Elements(bytes, count, size)[i] == Element(bytes, i, size)
  {
    OffsetGrows(i, count, size);
    if i < count - 1 { ElementsAt(bytes, i, count - 1, size); }
  }

  /** Two disjoint runs of `size` bytes exchanged. */
  ghost predicate Exchanged(was: seq<Byte>, now: seq<Byte>, left: nat, right: nat, size: nat)
    requires left + size <= |was| && right + size <= |was|
  {
    && |now| == |was|
    && now[left..left + size] == was[right..right + size]
    && now[right..right + size] == was[left..left + size]
    && (forall k :: 0 <= k < |was| && !(left <= k < left + size) && !(right <= k < right + size) ==> now[k] == was[k])
  }

  method SwapBytes(a: array<Byte>, left: nat, right: nat, size: nat)
    requires left + size <= a.Length && right + size <= a.Length
    requires left + size <= right || right + size <= left
    modifies a
    ensures Exchanged(old(a[..]), a[..], left, right, size)
  {
    ghost var was := a[..];
    var l, r := left, right;
    while l < left + size
      invariant left <= l <= left + size && r == right + (l - left)
      invariant forall k :: left <= k < l ==> a[k] == was[k - left + right]
      invariant forall k :: right <= k < r ==> a[k] == was[k - right + left]
      invariant forall k :: 0 <= k < a.Length && !(left <= k < l) && !(right <= k < r) ==> a[k] == was[k]
    {
      a[l], a[r] := a[r], a[l];
      l, r := l + 1, r + 1;
    }
  }

  lemma ExchangedAway(was: seq<Byte>, now: seq<Byte>, left: nat, right: nat, from: nat, size: nat)
    requires left + size <= |was| && right + size <= |was| && Exchanged(was, now, left, right, size)
    requires from + size <= |was|
    requires from + size <= left || left + size <= from
    requires from + size <= right || right + size <= from
    ensures now[from..from + size] == was[from..from + size]
  {
  }

  /** An element that is not one of the two exchanged stays. */
  lemma OtherElement(was: seq<Byte>, now: seq<Byte>, i: nat, j: nat, k: nat, size: nat)
    requires k != i && k != j
    requires Offset(i, size) + size <= |was| && Offset(j, size) + size <= |was| && Offset(k, size) + size <= |was|
    requires Exchanged(was, now, Offset(i, size), Offset(j, size), size)
    ensures Element(now, k, size) == Element(was, k, size)
  {
    ElementsApart(i, k, size);
    ElementsApart(j, k, size);
    ExchangedAway(was, now, Offset(i, size), Offset(j, size), Offset(k, size), size);
  }

  lemma ElementsApart(i: nat, k: nat, size: nat)
    requires i != k
    ensures Offset(k, size) + size <= Offset(i, size) || Offset(i, size) + size <= Offset(k, size)
  {
    if k < i { OffsetGrows(k, i, size); } else { OffsetGrows(i, k, size); }
  }

  /** Exchanging the bytes of two elements exchanges the elements and touches no other. */
  lemma ExchangedSwapsElements(was: seq<Byte>, now: seq<Byte>, i: nat, j: nat, count: nat, size: nat)
    requires Offset(count, size) <= |was| && i < count && j < count && i != j
    requires Offset(i, size) + size <= |was| && Offset(j, size) + size <= |was|
    requires Exchanged(was, now, Offset(i, size), Offset(j, size), size)
    ensures Elements(now, count, size) == Swap(Elements(was, count, size), i, j)
  {
    forall k | 0 <= k < count
      ensures Elements(now, count, size)[k] == Swap(Elements(was, count, size), i, j)[k]
    {
      var from := if k == i then j else if k == j then i else k;
      ElementsAt(now, k, count, size);
      ElementsAt(was, from, count, size);
      if k != i && k != j { OtherElement(was, now, i, j, k, size); }
      assert Element(now, k, size) == Element(was, from, size);
    }
  }

  method SwapElements(a: array<Byte>, i: nat, j: nat, count: nat, size: nat)
    requires Offset(count, size) <= a.Length && i < count && j < count && i != j
    modifies a
    ensures Elements(a[..], count, size) == Swap(old(Elements(a[..], count, size)), i, j)
    ensures a[Offset(count, size)..] == old(a[Offset(count, size)..])
  {
    OffsetGrows(i, count, size);
    OffsetGrows(j, count, size);
    if i < j { OffsetGrows(i, j, size); } else { OffsetGrows(j, i, size); }
    OffsetIsProduct(i, size);
    OffsetIsProduct(j, size);
    SwapBytes(a, i * size, j * size, size);
    ExchangedSwapsElements(old(a[..]), a[..], i, j, count, size);
    assert forall k :: Offset(count, size) <= k < a.Length ==> a[..][k] == old(a[..])[k];
  }

  method CompareElements(a: array<Byte>, i: nat, j: nat, count: nat, size: nat, cmp: Compare<seq<Byte>>)
    returns (order: int)
    requires Offset(count, size) <= a.Length && i < count && j < count
    ensures order == cmp(Elements(a[..], count, size)[i], Elements(a[..], count, size)[j])
  {
    ElementsAt(a[..], i, count, size);
    ElementsAt(a[..], j, count, size);
    OffsetIsProduct(i, size);
    OffsetIsProduct(j, size);
    var left, right := a[i * size..i * size + size], a[j * size..j * size + size];
    assert left == Element(a[..], i, size) && right == Element(a[..], j, size);
    order := cmp(left, right);
  }

  /** The two comparisons of one round of sifting. */
  method SelectChild(a: array<Byte>, root: nat, end: nat, count: nat, size: nat, cmp: Compare<seq<Byte>>)
    returns (selected: nat)
    requires Offset(count, size) <= a.Length && 2 * root + 1 <= end < count
    ensures selected == Selected(Elements(a[..], count, size), root, end, cmp)
  {
    var child := root * 2 + 1;
    selected := root;
    var order := CompareElements(a, selected, child, count, size, cmp);
    if order < 0 { selected := child; }
    if child + 1 <= end {
      order := CompareElements(a, selected, child + 1, count, size, cmp);
      if order < 0 { selected := child + 1; }
    }
  }

  lemma SiftDownStep<T>(es: seq<T>, root: nat, end: nat, cmp: Compare<T>)
    requires 0 < end < |es| && root <= (end - 1) / 2
    ensures var selected := Selected(es, root, end, cmp);
            SiftDown(es, root, end, cmp) ==
            if selected == root then es else SiftDown(Swap(es, root, selected), selected, end, cmp)
  {
  }

  method SiftDownBytes(a: array<Byte>, start: nat, end: nat, count: nat, size: nat, cmp: Compare<seq<Byte>>)
    requires Offset(count, size) <= a.Length && end < count
    modifies a
    ensures Elements(a[..], count, size) == SiftDown(old(Elements(a[..], count, size)), start, end, cmp)
    ensures a[Offset(count, size)..] == old(a[Offset(count, size)..])
  {
    var root := start;
    if start >= end { return; }
    ghost var es := Elements(a[..], count, size);
    ghost var result := SiftDown(es, start, end, cmp);
    while root <= (end - 1) / 2
      invariant es == Elements(a[..], count, size) && |es| == count
      invariant SiftDown(es, root, end, cmp) == result
      invariant a[Offset(count, size)..] == old(a[Offset(count, size)..])
      decreases end - root
    {
      var selected := SelectChild(a, root, end, count, size, cmp);
      SiftDownStep(es, root, end, cmp);
      if selected == root { return; }
      SwapElements(a, root, selected, count, size);
      es := Swap(es, root, selected);
      root := selected;
    }
  }

  lemma HeapifyStep<T>(es: seq<T>, start: nat, end: nat, next: seq<T>, cmp: Compare<T>)
    requires 0 < start && end < |es| && next == SiftDown(es, start - 1, end, cmp)
    ensures Heapify(es, start, end, cmp) == Heapify(next, start - 1, end, cmp)
  {
  }

  lemma DrainStepUnfolds<T>(es: seq<T>, end: nat, next: seq<T>, cmp: Compare<T>)
    requires 0 < end < |es| && next == SiftDown(Swap(es, 0, end), 0, end - 1, cmp)
    ensures Drain(es, end, cmp) == Drain(next, end - 1, cmp)
  {
  }

  /** The first loop of qsort. */
  method HeapifyBytes(a: array<Byte>, first: nat, end: nat, count: nat, size: nat, cmp: Compare<seq<Byte>>)
    requires Offset(count, size) <= a.Length && end < count
    modifies a
    ensures Elements(a[..], count, size) == Heapify(old(Elements(a[..], count, size)), first, end, cmp)
    ensures a[Offset(count, size)..] == old(a[Offset(count, size)..])
  {
    var start: nat := first;
    ghost var es := Elements(a[..], count, size);
    ghost var result := Heapify(es, first, end, cmp);
    while start != 0
      invariant es == Elements(a[..], count, size) && |es| == count
      invariant Heapify(es, start, end, cmp) == result
      invariant a[Offset(count, size)..] == old(a[Offset(count, size)..])
    {
      SiftDownBytes(a, start - 1, end, count, size, cmp);
      ghost var next := Elements(a[..], count, size);
      HeapifyStep(es, start, end, next, cmp);
      es, start := next, start - 1;
    }
  }

  /** The second loop of qsort. */
  method DrainHeap(a: array<Byte>, count: nat, size: nat, cmp: Compare<seq<Byte>>)
    requires Offset(count, size) <= a.Length && count >= 2
    modifies a
    ensures Elements(a[..], count, size) == Drain(old(Elements(a[..], count, size)), count - 1, cmp)
    ensures a[Offset(count, size)..] == old(a[Offset(count, size)..])
  {
    var end: nat := count - 1;
    ghost var es := Elements(a[..], count, size);
    ghost var result := Drain(es, end, cmp);
    while end != 0
      invariant es == Elements(a[..], count, size) && |es| == count
      invariant end < count && Drain(es, end, cmp) == result
      invariant a[Offset(count, size)..] == old(a[Offset(count, size)..])
    {
      SwapElements(a, 0, end, count, size);
      SiftDownBytes(a, 0, end - 1, count, size, cmp);
      ghost var next := Elements(a[..], count, size);
      DrainStepUnfolds(es, end, next, cmp);
      es, end := next, end - 1;
    }
  }

  lemma HeapSortedUnfolds<T>(es: seq<T>, built: seq<T>, cmp: Compare<T>)
    requires |es| >= 2 && built == Heapify(es, (|es| - 2) / 2 + 1, |es| - 1, cmp)
    ensures HeapSorted(es, cmp) == Drain(built, |es| - 1, cmp)
  {
  }

  /** qsort with a non-null base and comparator: sorts the elements in place and leaves the bytes behind them alone. */
  method QSort(a: array<Byte>, count: nat, size: nat, cmp: Compare<seq<Byte>>)
    requires Offset(count, size) <= a.Length
    modifies a
    ensures multiset(Elements(a[..], count, size)) == multiset(old(Elements(a[..], count, size)))
    ensures size > 0 && Consistent(cmp, set e | e in old(Elements(a[..], count, size))) ==>
              Sorted(Elements(a[..], count, size), cmp)
    ensures a[Offset(count, size)..] == old(a[Offset(count, size)..])
  {
    ghost var was := Elements(a[..], count, size);
    HeapSortedSorts(was, cmp);
    if size == 0 || count < 2 { return; }
    HeapifyBytes(a, (count - 2) / 2 + 1, count - 1, count, size, cmp);
    HeapSortedUnfolds(was, Elements(a[..], count, size), cmp);
    DrainHeap(a, count, size, cmp);
  }
}
