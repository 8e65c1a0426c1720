/** Rows or elements of equal size, one behind the other. */
module Strides {

  /** Where item `i` starts: i * size. */
  function Offset(i: nat, size: nat): nat {
    if i == 0 then 0 else Offset(i - 1, size) + size
  }

  lemma {:induction false} OffsetIsProduct(i: nat, size: nat)
    ensures Offset(i, size) == i * size
  {
    if i > 0 { OffsetIsProduct(i - 1, size); }
  }

  /** Items do not overlap. */
  lemma {:induction false} OffsetGrows(i: nat, j: nat, size: nat)
    requires i < j
    ensures Offset(i, size) + size <= Offset(j, size)
    decreases j
  {
    if i + 1 < j { OffsetGrows(i, j - 1, size); }
  }
}
