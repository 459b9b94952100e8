/** The page operations: what each does to the references, and that each keeps the
    counts exact. */
module PagingOps {
  import opened Words
  import opened Paging
  import opened PagingLemmas

  function SlotRef(d: nat, vpn: nat): Ref { Page(d, vpn / NPTENTRIES, vpn % NPTENTRIES) }

  /** The flat map and the references agree: a page is mapped exactly when it is counted. */
  lemma TranslateIsRef(m: Phys, owed: multiset<nat>, d: nat, vpn: nat)
    requires InvOwing(m, owed) && d in m.dirs && vpn < USER_PAGES
    ensures Walkable(m, d, vpn)
    ensures Translate(m, d, vpn) == if SlotRef(d, vpn) in Refs(m) then Refs(m)[SlotRef(d, vpn)] else ZERO
    ensures Translate(m, d, vpn) != ZERO ==> Translate(m, d, vpn).Present() && Translate(m, d, vpn).ppn != 0
  {
    WalkableWhenInv(m, owed, d, vpn);
    assert IsRef(m, SlotRef(d, vpn)) <==> Translate(m, d, vpn) != ZERO;
  }

  /** Removing a mapped page drops exactly its reference; `page_free` is only reached for a
      frame whose count is zero and which is on no list. */
  lemma RemoveMapped(m: Phys, owed: multiset<nat>, d: nat, vpn: nat)
    requires InvOwing(m, owed) && d in m.dirs && vpn < USER_PAGES
    requires SlotRef(d, vpn) in Refs(m)
    ensures Walkable(m, d, vpn)
    ensures var m' := PageRemove(m, d, vpn);
            && InvOwing(m', owed) && Refs(m') == Refs(m) - {SlotRef(d, vpn)}
            && m'.dirs == m.dirs && |m'.refs| == |m.refs|
    ensures var f := Translate(m, d, vpn).ppn;
            0 < f < |m.refs| && m.refs[f] > 0 && f !in m.free
  {
    TranslateIsRef(m, owed, d, vpn);
    var i, j := vpn / NPTENTRIES, vpn % NPTENTRIES;
    var t := m.ram[d][i].ppn;
    var f := m.ram[t][j].ppn;
    var cleared := SetEntry(m, t, j, ZERO);
    ClearSlotOwes(m, owed, d, i, j);
    DecrefPays(cleared, owed + multiset{f}, f);
    assert PageRemove(m, d, vpn) == PageDecref(cleared, f);
    assert owed + multiset{f} - multiset{f} == owed;
  }

  /** Creating the page table for `vpn` adds at most the table's own reference. */
  lemma WalkCreateKeeps(m: Phys, owed: multiset<nat>, d: nat, vpn: nat)
    requires InvOwing(m, owed) && d in m.dirs && vpn < USER_PAGES
    ensures Walkable(m, d, vpn)
    ensures WalkCreate(m, d, vpn).None? <==> m.ram[d][vpn / NPTENTRIES] == ZERO && m.free == []
    ensures WalkCreate(m, d, vpn).Some? ==>
              var m' := WalkCreate(m, d, vpn).value;
              && InvOwing(m', owed) && m'.dirs == m.dirs && IsRef(m', Table(d, vpn / NPTENTRIES))
              && (m' == m ||
                  (&& m.free != [] && m'.free == m.free[1..] && m'.refs == m.refs[m.free[0] := 1]
                   && Refs(m') == Refs(m)[Table(d, vpn / NPTENTRIES) := Pte(m.free[0], PTE_P + PTE_W + PTE_U)]))
  {
    WalkableWhenInv(m, owed, d, vpn);
    var i := vpn / NPTENTRIES;
    if m.ram[d][i] == ZERO && m.free != [] {
      AllocKeeps(m, owed, true);
      var (m1, t) := PageAlloc(m, true).value;
      IncrefOwes(m1, owed, t);
      var m2 := Incref(m1, t);
      assert m2.ram[t] == ZeroFrame();
      assert t !in m2.dirs by {
        NotATable(m2, t);
      }
      assert d != t;
      WriteDirPays(m2, owed + multiset{t}, d, i, Pte(t, PTE_P + PTE_W + PTE_U));
      assert owed + multiset{t} - multiset{t} == owed;
    }
  }

  /** What the kernel may pass to page_insert: a frame that was allocated, is not a table,
      and whose 16-bit count has room unless it already sits in that slot. */
  ghost predicate Insertable(m: Phys, d: nat, pp: nat, vpn: nat)
    requires Walkable(m, d, vpn) && Shaped(m)
  {
    && 0 < pp < |m.ram| && pp !in m.free && DataFrame(m, pp)
    && (m.refs[pp] < REF_LIMIT - 1 || Translate(m, d, vpn).ppn == pp)
  }

  ghost function RefsAfterWalk(m: Phys, d: nat, vpn: nat): RefMap
    requires Shaped(m) && Walkable(m, d, vpn)
  {
    if m.ram[d][vpn / NPTENTRIES] != ZERO || m.free == [] then Refs(m)
    else Refs(m)[Table(d, vpn / NPTENTRIES) := Pte(m.free[0], PTE_P + PTE_W + PTE_U)]
  }

  lemma SetEntryTwice(m: Phys, t: nat, j: nat, e: Pte, e': Pte)
    requires t < |m.ram| && j < |m.ram[t]|
    ensures SetEntry(SetEntry(m, t, j, e), t, j, e') == SetEntry(m, t, j, e')
  {
    assert m.ram[t][j := e][j := e'] == m.ram[t][j := e'];
    assert SetEntry(SetEntry(m, t, j, e), t, j, e').ram == SetEntry(m, t, j, e').ram;
  }

  /** Re-inserting a frame where it already is changes nothing but the permission bits,
      at any count, because the increment comes before the decrement. */
  lemma InsertSame(m: Phys, d: nat, pp: nat, vpn: nat, perm: nat)
    requires Inv(m) && d in m.dirs && vpn < USER_PAGES && Walkable(m, d, vpn)
    requires Translate(m, d, vpn).ppn == pp && 0 < pp < |m.ram|
    ensures PageInsert(m, d, pp, vpn, perm) ==
              Some(SetEntry(m, m.ram[d][vpn / NPTENTRIES].ppn, vpn % NPTENTRIES, Pte(pp, WithPresent(perm))))
  {
    TranslateIsRef(m, multiset{}, d, vpn);
    assert m.refs[pp] > 0 by {
      RemoveMapped(m, multiset{}, d, vpn);
    }
    var m2 := Incref(m, pp);
    assert PageDecref(m2, pp) == m by {
      var c := (m2.refs[pp] + REF_LIMIT - 1) % REF_LIMIT;
      assert c == m.refs[pp];
      assert m2.refs[pp := c] == m.refs;
    }
    SetEntryTwice(m, m.ram[d][vpn / NPTENTRIES].ppn, vpn % NPTENTRIES, ZERO, Pte(pp, WithPresent(perm)));
  }

  /** Replacing the word of a counted slot by another word for the same frame. */
  lemma RewriteSlot(m: Phys, d: nat, i: nat, j: nat, e: Pte)
    requires Inv(m) && IsRef(m, Page(d, i, j)) && Word(m, Page(d, i, j)).ppn == e.ppn && e.Present()
    ensures var m' := SetEntry(m, m.ram[d][i].ppn, j, e);
            Inv(m') && Refs(m') == Refs(m)[Page(d, i, j) := e]
  {
    SetSlot(m, d, i, j, e);
    var rs, rs' := Refs(m), Refs(m)[Page(d, i, j) := e];
    forall f: nat
      ensures Count(rs', f) == Count(rs, f)
    {
      assert RefsTo(rs', f) == RefsTo(rs, f);
    }
  }

  lemma ReplaceSlot(m: Phys, d: nat, pp: nat, vpn: nat, e: Pte)
    requires InvOwing(m, multiset{pp}) && d in m.dirs && vpn < USER_PAGES && Walkable(m, d, vpn)
    requires IsRef(m, Table(d, vpn / NPTENTRIES)) && DataFrame(m, pp) && 0 < pp < |m.refs|
    requires e.ppn == pp && e.Present()
    ensures var t, j := m.ram[d][vpn / NPTENTRIES].ppn, vpn % NPTENTRIES;
            var m3 := if m.ram[t][j].ppn != 0 then PageRemove(m, d, vpn) else m;
            var m' := SetEntry(m3, t, j, e);
            && Inv(m') && m'.dirs == m.dirs && Refs(m') == Refs(m)[SlotRef(d, vpn) := e]
  {
    hide PageRemove, CountsOwing, FreeListOk, RefsOk;
    var i, j := vpn / NPTENTRIES, vpn % NPTENTRIES;
    var t := m.ram[d][i].ppn;
    TranslateIsRef(m, multiset{pp}, d, vpn);
    var m3 := if m.ram[t][j].ppn != 0 then PageRemove(m, d, vpn) else m;
    if m.ram[t][j].ppn != 0 {
      RemoveMapped(m, multiset{pp}, d, vpn);
    }
    assert Refs(m3) == Refs(m) - {SlotRef(d, vpn)};
    assert Refs(m3)[Table(d, i)] == Refs(m)[Table(d, i)];
    WriteSlotPays(m3, multiset{pp}, d, i, j, e);
    DropThenSet(Refs(m), SlotRef(d, vpn), e);
    assert multiset{pp} - multiset{pp} == multiset{};
  }

  lemma DropThenSet(rs: RefMap, r: Ref, e: Pte)
    ensures (rs - {r})[r := e] == rs[r := e]
  {
  }

  /** page_insert keeps every count exact and adds exactly the slot's reference, plus the
      table's when the table had to be created. */
  lemma InsertKeeps(m: Phys, d: nat, pp: nat, vpn: nat, perm: nat)
    requires Inv(m) && d in m.dirs && vpn < USER_PAGES && Walkable(m, d, vpn)
    requires Insertable(m, d, pp, vpn)
    requires PageInsert(m, d, pp, vpn, perm).Some?
    ensures var m' := PageInsert(m, d, pp, vpn, perm).value;
            && Inv(m') && m'.dirs == m.dirs
            && Refs(m') == RefsAfterWalk(m, d, vpn)[SlotRef(d, vpn) := Pte(pp, WithPresent(perm))]
  {
    hide CountsOwing, FreeListOk, MapSlot;
    var e := Pte(pp, WithPresent(perm));
    TranslateIsRef(m, multiset{}, d, vpn);
    if Translate(m, d, vpn).ppn == pp {
      InsertSame(m, d, pp, vpn, perm);
      RewriteSlot(m, d, vpn / NPTENTRIES, vpn % NPTENTRIES, e);
    } else {
      WalkCreateKeeps(m, multiset{}, d, vpn);
      var m1 := WalkCreate(m, d, vpn).value;
      assert Refs(m1) == RefsAfterWalk(m, d, vpn);
      InsertAfterWalk(m1, d, pp, vpn, perm);
    }
  }

  lemma InsertAfterWalk(m1: Phys, d: nat, pp: nat, vpn: nat, perm: nat)
    requires Inv(m1) && d in m1.dirs && vpn < USER_PAGES && Walkable(m1, d, vpn)
    requires IsRef(m1, Table(d, vpn / NPTENTRIES)) && DataFrame(m1, pp) && 0 < pp < |m1.refs|
    requires m1.refs[pp] < REF_LIMIT - 1 && pp !in m1.free
    ensures var m' := MapSlot(m1, d, pp, vpn, perm);
            && Inv(m') && m'.dirs == m1.dirs
            && Refs(m') == Refs(m1)[SlotRef(d, vpn) := Pte(pp, WithPresent(perm))]
  {
    IncrefOwes(m1, multiset{}, pp);
    assert multiset{} + multiset{pp} == multiset{pp};
    ReplaceSlot(Incref(m1, pp), d, pp, vpn, Pte(pp, WithPresent(perm)));
  }
}
