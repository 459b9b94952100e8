/** Shifts and masks on natural numbers, bit by bit. */
module Masks {
  function Shift1(k: nat): (r: nat)
    ensures r > 0
  {
    if k == 0 then 1 else 2 * Shift1(k - 1)
  }

  function And(x: nat, y: nat): (r: nat)
    ensures r <= x
  {
    if x == 0 then 0 else 2 * And(x / 2, y / 2) + (if x % 2 == 1 && y % 2 == 1 then 1 else 0)
  }

  function Or(x: nat, y: nat): nat {
    if x == 0 then y else 2 * Or(x / 2, y / 2) + (if x % 2 == 1 || y % 2 == 1 then 1 else 0)
  }

  /** The complement of an n-bit number. */
  function Not(x: nat, n: nat): int { Shift1(n) - 1 - x }

  /** Bit k of a number. */
  predicate Bit(w: nat, k: nat) { if k == 0 then w % 2 == 1 else Bit(w / 2, k - 1) }

  lemma {:induction false} AndBit(x: nat, y: nat, k: nat)
    ensures Bit(And(x, y), k) <==> Bit(x, k) && Bit(y, k)
    decreases k
  {
    if x == 0 {
      ZeroBit(k);
    } else if k > 0 {
      AndBit(x / 2, y / 2, k - 1);
    }
  }

  lemma {:induction false} OrBit(x: nat, y: nat, k: nat)
    ensures Bit(Or(x, y), k) <==> Bit(x, k) || Bit(y, k)
    decreases k
  {
    if x == 0 {
      ZeroBit(k);
    } else if k > 0 {
      OrBit(x / 2, y / 2, k - 1);
    }
  }

  lemma {:induction false} ZeroBit(k: nat)
    ensures !Bit(0, k)
  {
    if k > 0 {
      ZeroBit(k - 1);
    }
  }

  lemma {:induction false} ShiftBit(k: nat, j: nat)
    ensures Bit(Shift1(k), j) <==> j == k
    decreases j
  {
    if k == 0 {
      if j > 0 {
        ZeroBit(j - 1);
      }
    } else if j > 0 {
      ShiftBit(k - 1, j - 1);
    }
  }

  lemma {:induction false} NotBit(x: nat, n: nat, k: nat)
    requires k < n && x < Shift1(n)
    ensures Not(x, n) >= 0 && (Bit(Not(x, n), k) <==> !Bit(x, k))
    decreases k
  {
    if k > 0 {
      NotBit(x / 2, n - 1, k - 1);
      assert Not(x, n) / 2 == Not(x / 2, n - 1);
    }
  }

  lemma {:induction false} OrFits(x: nat, y: nat, n: nat)
    requires x < Shift1(n) && y < Shift1(n)
    ensures Or(x, y) < Shift1(n)
    decreases n
  {
    if x != 0 {
      OrFits(x / 2, y / 2, n - 1);
    }
  }

  lemma {:induction false} ShiftGrows(k: nat, n: nat)
    requires k < n
    ensures Shift1(k) < Shift1(n)
    decreases n
  {
    if k < n - 1 {
      ShiftGrows(k, n - 1);
    }
  }

  /** Masking with a single bit tests it. */
  lemma {:induction false} AndTests(w: nat, k: nat)
    ensures And(w, Shift1(k)) != 0 <==> Bit(w, k)
    decreases k
  {
    if w == 0 {
      ZeroBit(k);
    } else if k == 0 {
      NothingInCommon(w / 2);
    } else {
      AndTests(w / 2, k - 1);
    }
  }

  lemma {:induction false} NothingInCommon(w: nat)
    ensures And(w, 0) == 0
  {
    if w != 0 {
      NothingInCommon(w / 2);
    }
  }
}
