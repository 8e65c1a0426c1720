/** What several components share: bytes, machine words, optional values. */
module Words {

  type Byte = b: nat | b < 0x100

  const U64_MAX: nat := 0xFFFF_FFFF_FFFF_FFFF

  datatype Option<T> = None | Some(value: T)

  predicate Distinct<T(==)>(s: seq<T>) { forall i, j :: 0 <= i < j < |s| ==> s[i] != s[j] }

  /** The two supported targets: 32-bit and 64-bit words. */
  datatype Machine = I686 | X64

  function PointerSize(machine: Machine): nat { if machine.I686? then 4 else 8 }

  /** SIZE_MAX, which is also UINTPTR_MAX. */
  function WordMax(machine: Machine): nat { if machine.I686? then 0xFFFF_FFFF else U64_MAX }

  /** An unsigned little-endian field. */
  function Field(bytes: seq<Byte>, at: nat, size: nat): nat
    requires at + size <= |bytes|
    decreases size, bytes
  {
    if size == 0 then 0 else bytes[at] + 0x100 * Field(bytes, at + 1, size - 1)
  }
}
