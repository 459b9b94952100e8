/** Machine words and other things every part of the model uses. */
module Words {
  const PGSIZE: nat := 4096
  const U32: nat := 0x1_0000_0000
  const INT_MAX: int := 0x7FFF_FFFF
  /** Page-table entry bits. */
  const PTE_P: nat := 0x1
  const PTE_W: nat := 0x2
  const PTE_U: nat := 0x4

  datatype Option<+T> = None | Some(value: T)

  function One(b: bool): nat { if b then 1 else 0 }

  /** A value kept in an unsigned 32-bit register. */
  function Wrap(x: int): nat { x % 0x1_0000_0000 }

  /** A value kept in a signed 32-bit register. */
  function Int32(x: int): int { if Wrap(x) <= INT_MAX then Wrap(x) else Wrap(x) - 0x1_0000_0000 }

  lemma WrapAdd(x: int, q: int)
    ensures Wrap(x + 0x1_0000_0000 * q) == Wrap(x)
  {
  }

  lemma WrapLaps(x: int) returns (q: int)
    ensures x == Wrap(x) + 0x1_0000_0000 * q
  {
    q := x / 0x1_0000_0000;
  }
}
