/** The free-block bitmap of src/damnfs.c: one bit per block in an array of 32-bit words, tested and
    changed with shifts and masks. */
module Bitmap {
  import opened Words
  import opened Masks

  type Word = w: nat | w < U32

  // ---- the bitmap ------------------------------------------------------------------------------------------

  /** block_is_free is the negation of this, for a block of the disk. */
  predicate InUse(ocp: seq<Word>, b: nat)
    requires b / 32 < |ocp|
  {
    And(ocp[b / 32], Shift1(b % 32)) != 0
  }

  function Mark(ocp: seq<Word>, b: nat): (r: seq<Word>)
    requires b / 32 < |ocp|
    ensures |r| == |ocp|
  {
    MaskFits(b % 32);
    OrFits(ocp[b / 32], Shift1(b % 32), 32);
    ocp[b / 32 := Or(ocp[b / 32], Shift1(b % 32))]
  }

  function Clear(ocp: seq<Word>, b: nat): (r: seq<Word>)
    requires b / 32 < |ocp|
    ensures |r| == |ocp|
  {
    MaskFits(b % 32);
    ocp[b / 32 := And(ocp[b / 32], Not(Shift1(b % 32), 32))]
  }

  lemma MaskFits(k: nat)
    requires k < 32
    ensures Shift1(32) == U32 && Shift1(k) < U32
  {
    assert Shift1(8) == 0x100 && Shift1(12) == 0x1000;
    assert Shift1(16) == 0x1_0000 && Shift1(20) == 0x10_0000;
    assert Shift1(24) == 0x100_0000 && Shift1(28) == 0x1000_0000;
    assert Shift1(32) == U32;
    ShiftGrows(k, 32);
  }

  /** Marking and clearing touch one block's bit. */
  lemma BitmapPoint(ocp: seq<Word>, b: nat, c: nat)
    requires b / 32 < |ocp| && c / 32 < |ocp|
    ensures InUse(Mark(ocp, b), c) <==> c == b || InUse(ocp, c)
    ensures InUse(Clear(ocp, b), c) <==> c != b && InUse(ocp, c)
  {
    assert c == 32 * (c / 32) + c % 32 && b == 32 * (b / 32) + b % 32;
    hide And, Or, Not, Bit, Shift1;
    MaskFits(b % 32);
    BitOf(ocp, c);
    BitOf(Mark(ocp, b), c);
    BitOf(Clear(ocp, b), c);
    OrBit(ocp[b / 32], Shift1(b % 32), c % 32);
    ShiftBit(b % 32, c % 32);
    NotBit(Shift1(b % 32), 32, c % 32);
    AndBit(ocp[b / 32], Not(Shift1(b % 32), 32), c % 32);
  }

  lemma BitOf(ocp: seq<Word>, b: nat)
    requires b / 32 < |ocp|
    ensures InUse(ocp, b) <==> Bit(ocp[b / 32], b % 32)
  {
    AndTests(ocp[b / 32], b % 32);
  }
}
