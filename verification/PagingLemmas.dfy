/** Exact reference counts and the flat-map view of the page tables. */
module PagingLemmas {
  import opened Words
  import opened Paging

  // ---- counting ---------------------------------------------------------------------

  lemma CountAdd(rs: RefMap, r: Ref, e: Pte, f: nat)
    requires r !in rs
    ensures Count(rs[r := e], f) == Count(rs, f) + One(f == e.ppn)
  {
    assert RefsTo(rs[r := e], f) == if f == e.ppn then RefsTo(rs, f) + {r} else RefsTo(rs, f);
  }

  lemma CountDrop(rs: RefMap, r: Ref, f: nat)
    requires r in rs
    ensures Count(rs, f) == Count(rs - {r}, f) + One(f == rs[r].ppn)
  {
    CountAdd(rs - {r}, r, rs[r], f);
    assert (rs - {r})[r := rs[r]] == rs;
  }

  /** A frame with count zero is the target of nothing. */
  lemma ZeroCountUnreferenced(rs: RefMap, f: nat)
    requires Count(rs, f) == 0
    ensures forall r :: r in rs ==> rs[r].ppn != f
  {
    forall r | r in rs
      ensures rs[r].ppn != f
    {
      assert r !in RefsTo(rs, f);
    }
  }

  // ---- what a single table write does to the references --------------------------------

  lemma DirsAreNotTables(m: Phys, d: nat, i: nat)
    requires Shaped(m) && RefsOk(Refs(m), m.boot) && IsRef(m, Table(d, i))
    ensures m.ram[d][i].ppn !in m.dirs
    ensures forall d', i' :: d' in m.dirs && 0 <= i' < PDX_UTOP && m.ram[d'][i'] != ZERO && (d', i') != (d, i) ==>
              m.ram[d'][i'].ppn != m.ram[d][i].ppn
  {
    var t := m.ram[d][i].ppn;
    assert Table(d, i) in Refs(m);
    forall d' | d' in m.dirs
      ensures d' != t
    {
      assert Root(d') in Refs(m);
    }
    forall d', i' | d' in m.dirs && 0 <= i' < PDX_UTOP && m.ram[d'][i'] != ZERO && (d', i') != (d, i)
      ensures m.ram[d'][i'].ppn != t
    {
      assert Table(d', i') in Refs(m);
    }
  }

  lemma SetSlotShaped(m: Phys, d: nat, i: nat, j: nat, e: Pte)
    requires Shaped(m) && RefsOk(Refs(m), m.boot) && IsRef(m, Table(d, i)) && j < NPTENTRIES
    ensures var m' := SetEntry(m, m.ram[d][i].ppn, j, e);
            Shaped(m') && forall d' :: d' in m.dirs ==> m'.ram[d'] == m.ram[d']
  {
    DirsAreNotTables(m, d, i);
  }

  lemma SetSlotAt(m: Phys, d: nat, i: nat, j: nat, e: Pte, r: Ref)
    requires Shaped(m) && RefsOk(Refs(m), m.boot) && IsRef(m, Table(d, i)) && j < NPTENTRIES
    requires Shaped(SetEntry(m, m.ram[d][i].ppn, j, e))
    ensures var m' := SetEntry(m, m.ram[d][i].ppn, j, e);
            && (IsRef(m', r) <==> if r == Page(d, i, j) then e != ZERO else IsRef(m, r))
            && (IsRef(m', r) ==> Word(m', r) == if r == Page(d, i, j) then e else Word(m, r))
  {
    DirsAreNotTables(m, d, i);
    SetSlotShaped(m, d, i, j, e);
  }

  /** Writing slot j of the page table at (d, i) touches the reference (d, i, j) alone. */
  lemma SetSlot(m: Phys, d: nat, i: nat, j: nat, e: Pte)
    requires Shaped(m) && RefsOk(Refs(m), m.boot) && IsRef(m, Table(d, i)) && j < NPTENTRIES
    ensures var m' := SetEntry(m, m.ram[d][i].ppn, j, e);
            && Shaped(m')
            && Refs(m') == if e == ZERO then Refs(m) - {Page(d, i, j)} else Refs(m)[Page(d, i, j) := e]
  {
    SetSlotShaped(m, d, i, j, e);
    var m' := SetEntry(m, m.ram[d][i].ppn, j, e);
    var rs := if e == ZERO then Refs(m) - {Page(d, i, j)} else Refs(m)[Page(d, i, j) := e];
    forall r
      ensures IsRef(m', r) <==> r in rs
      ensures r in rs ==> Word(m', r) == rs[r]
    {
      SetSlotAt(m, d, i, j, e, r);
    }
  }

  /** A frame that is neither a directory nor a page table. */
  ghost predicate DataFrame(m: Phys, f: nat)
    requires Shaped(m)
  {
    forall r :: r in Refs(m) && !r.Page? ==> Refs(m)[r].ppn != f
  }

  lemma NotATable(m: Phys, f: nat)
    requires Shaped(m) && DataFrame(m, f)
    ensures f !in m.dirs
    ensures forall d, i :: d in m.dirs && 0 <= i < PDX_UTOP && m.ram[d][i] != ZERO ==> m.ram[d][i].ppn != f
  {
    forall d | d in m.dirs
      ensures d != f
    {
      assert Root(d) in Refs(m);
    }
    forall d, i | d in m.dirs && 0 <= i < PDX_UTOP && m.ram[d][i] != ZERO
      ensures m.ram[d][i].ppn != f
    {
      assert Table(d, i) in Refs(m);
    }
  }

  /** The contents of a data frame do not matter to the tables. */
  lemma SetData(m: Phys, f: nat, content: seq<Pte>)
    requires Shaped(m) && DataFrame(m, f) && f < |m.ram| && |content| == NPTENTRIES
    ensures var m' := m.(ram := m.ram[f := content]);
            Shaped(m') && Refs(m') == Refs(m)
  {
    NotATable(m, f);
    var m' := m.(ram := m.ram[f := content]);
    forall r
      ensures IsRef(m', r) <==> IsRef(m, r)
      ensures IsRef(m, r) ==> Word(m', r) == Word(m, r)
    {
    }
  }

  ghost predicate EmptyTable(m: Phys, e: Pte)
    requires Shaped(m)
  {
    e != ZERO ==> e.ppn < |m.ram| && e.ppn !in m.dirs && m.ram[e.ppn] == ZeroFrame()
  }

  lemma SetDirAt(m: Phys, d: nat, i: nat, e: Pte, r: Ref)
    requires Shaped(m) && RefsOk(Refs(m), m.boot) && d in m.dirs && i < PDX_UTOP
    requires EmptyTable(m, m.ram[d][i]) && EmptyTable(m, e)
    requires Shaped(SetEntry(m, d, i, e))
    ensures var m' := SetEntry(m, d, i, e);
            && (IsRef(m', r) <==> if r == Table(d, i) then e != ZERO else IsRef(m, r))
            && (IsRef(m', r) ==> Word(m', r) == if r == Table(d, i) then e else Word(m, r))
  {
    if r.Page? && r.d in m.dirs && r.i < PDX_UTOP && m.ram[r.d][r.i] != ZERO {
      DirsAreNotTables(m, r.d, r.i);
    }
  }

  lemma SetDirShaped(m: Phys, d: nat, i: nat, e: Pte)
    requires Shaped(m) && d in m.dirs && i < PDX_UTOP && EmptyTable(m, e)
    ensures Shaped(SetEntry(m, d, i, e))
  {
  }

  /** Installing or clearing an empty page table touches the reference (d, i) alone. */
  lemma SetDir(m: Phys, d: nat, i: nat, e: Pte)
    requires Shaped(m) && RefsOk(Refs(m), m.boot) && d in m.dirs && i < PDX_UTOP
    requires EmptyTable(m, m.ram[d][i]) && EmptyTable(m, e)
    ensures var m' := SetEntry(m, d, i, e);
            && Shaped(m')
            && Refs(m') == if e == ZERO then Refs(m) - {Table(d, i)} else Refs(m)[Table(d, i) := e]
  {
    SetDirShaped(m, d, i, e);
    var m' := SetEntry(m, d, i, e);
    var rs := if e == ZERO then Refs(m) - {Table(d, i)} else Refs(m)[Table(d, i) := e];
    forall r
      ensures IsRef(m', r) <==> r in rs
      ensures r in rs ==> Word(m', r) == rs[r]
    {
      SetDirAt(m, d, i, e, r);
    }
  }

  /** Adding or dropping an empty directory touches its root reference alone. */
  lemma SetRoot(m: Phys, d: nat)
    requires Shaped(m) && d !in m.dirs && d < |m.ram|
    requires forall i :: 0 <= i < PDX_UTOP ==> m.ram[d][i] == ZERO
    ensures var m' := m.(dirs := m.dirs + {d});
            Shaped(m') && Refs(m') == Refs(m)[Root(d) := Pte(d, PTE_P)]
  {
    var m' := m.(dirs := m.dirs + {d});
    forall r
      ensures IsRef(m', r) <==> r == Root(d) || IsRef(m, r)
      ensures IsRef(m, r) ==> Word(m', r) == Word(m, r)
    {
    }
  }

  // ---- the operations keep the invariant --------------------------------------------------

  lemma WalkableWhenInv(m: Phys, owed: multiset<nat>, d: nat, vpn: nat)
    requires InvOwing(m, owed) && d in m.dirs && vpn < USER_PAGES
    ensures Walkable(m, d, vpn)
  {
    var e := m.ram[d][vpn / NPTENTRIES];
    if e != ZERO && m.ram[e.ppn][vpn % NPTENTRIES] != ZERO {
      assert Page(d, vpn / NPTENTRIES, vpn % NPTENTRIES) in Refs(m);
    }
  }

  lemma FreeFrameUnreferenced(m: Phys, owed: multiset<nat>, f: nat)
    requires InvOwing(m, owed) && 0 < f < |m.refs| && m.refs[f] == 0
    ensures DataFrame(m, f) && f !in owed && forall r :: r in Refs(m) ==> Refs(m)[r].ppn != f
  {
    ZeroCountUnreferenced(Refs(m), f);
  }

  lemma AllocKeeps(m: Phys, owed: multiset<nat>, zero: bool)
    requires InvOwing(m, owed) && m.free != []
    ensures var (m', f) := PageAlloc(m, zero).value;
            && InvOwing(m', owed) && Refs(m') == Refs(m)
            && 0 < f < |m.refs| && m'.refs[f] == 0 && f !in m'.free && m'.boot[f] == 0 && f !in owed
            && (forall r :: r in Refs(m') ==> Refs(m')[r].ppn != f)
  {
    var (m', f) := PageAlloc(m, zero).value;
    FreeFrameUnreferenced(m, owed, f);
    SetData(m, f, ZeroFrame());
    assert Refs(m.(ram := m'.ram)) == Refs(m);
    SameTables(m, m');
    NotATable(m, f);
  }

  /** `Refs` reads only the memory and the set of directories. */
  lemma SameTables(m: Phys, m': Phys)
    requires Shaped(m) && Shaped(m.(ram := m'.ram)) && m' == m.(ram := m'.ram, refs := m'.refs, free := m'.free)
    requires |m'.refs| == |m.refs|
    ensures Shaped(m') && Refs(m') == Refs(m.(ram := m'.ram))
  {
    var n := m.(ram := m'.ram);
    forall r
      ensures IsRef(m', r) <==> IsRef(n, r)
      ensures IsRef(n, r) ==> Word(m', r) == Word(n, r)
    {
    }
  }

  // Each half of an operation moves one unit between the references and `owed`.

  /** A frame with a positive count is not on the free list, so changing its count
      leaves the list in order. */
  lemma FreeListWithout(refs: seq<nat>, free: seq<nat>, boot: seq<nat>, f: nat, c: nat)
    requires |boot| == |refs| && FreeListOk(refs, free, boot) && f < |refs| && f !in free
    ensures FreeListOk(refs[f := c], free, boot)
    ensures 0 < f && c == 0 && boot[f] == 0 ==> FreeListOk(refs[f := c], [f] + free, boot)
  {
  }

  lemma IncrefOwes(m: Phys, owed: multiset<nat>, f: nat)
    requires InvOwing(m, owed) && 0 < f < |m.refs| && m.refs[f] < REF_LIMIT - 1 && f !in m.free
    ensures InvOwing(Incref(m, f), owed + multiset{f}) && Refs(Incref(m, f)) == Refs(m)
  {
    var m' := Incref(m, f);
    SameTables(m, m');
    FreeListWithout(m.refs, m.free, m.boot, f, m'.refs[f]);
    assert m'.refs[f] == m.refs[f] + 1;
  }

  lemma DecrefPays(m: Phys, owed: multiset<nat>, f: nat)
    requires InvOwing(m, owed) && 0 < f < |m.refs| && f in owed
    ensures InvOwing(PageDecref(m, f), owed - multiset{f}) && Refs(PageDecref(m, f)) == Refs(m)
    ensures m.refs[f] > 0 && f !in m.free
  {
    var m' := PageDecref(m, f);
    SameTables(m, m');
    assert m.refs[f] > 0;
    assert m'.refs[f] == m.refs[f] - 1;
    FreeListWithout(m.refs, m.free, m.boot, f, m'.refs[f]);
  }

  lemma ClearSlotOwes(m: Phys, owed: multiset<nat>, d: nat, i: nat, j: nat)
    requires InvOwing(m, owed) && IsRef(m, Page(d, i, j))
    ensures var m' := SetEntry(m, m.ram[d][i].ppn, j, ZERO);
            && InvOwing(m', owed + multiset{Word(m, Page(d, i, j)).ppn})
            && Refs(m') == Refs(m) - {Page(d, i, j)}
  {
    var m' := SetEntry(m, m.ram[d][i].ppn, j, ZERO);
    SetSlot(m, d, i, j, ZERO);
    forall f: nat { CountDrop(Refs(m), Page(d, i, j), f); }
  }

  lemma WriteSlotPays(m: Phys, owed: multiset<nat>, d: nat, i: nat, j: nat, e: Pte)
    requires InvOwing(m, owed) && IsRef(m, Table(d, i)) && j < NPTENTRIES && !IsRef(m, Page(d, i, j))
    requires 0 < e.ppn < |m.refs| && e.Present() && e.ppn in owed && DataFrame(m, e.ppn)
    ensures var m' := SetEntry(m, m.ram[d][i].ppn, j, e);
            && InvOwing(m', owed - multiset{e.ppn})
            && Refs(m') == Refs(m)[Page(d, i, j) := e]
  {
    SetSlot(m, d, i, j, e);
    forall f: nat { CountAdd(Refs(m), Page(d, i, j), e, f); }
  }

  lemma ClearDirOwes(m: Phys, owed: multiset<nat>, d: nat, i: nat)
    requires InvOwing(m, owed) && IsRef(m, Table(d, i)) && EmptyTable(m, m.ram[d][i])
    ensures var m' := SetEntry(m, d, i, ZERO);
            && InvOwing(m', owed + multiset{m.ram[d][i].ppn})
            && Refs(m') == Refs(m) - {Table(d, i)}
  {
    SetDir(m, d, i, ZERO);
    forall f: nat { CountDrop(Refs(m), Table(d, i), f); }
  }

  lemma WriteDirPays(m: Phys, owed: multiset<nat>, d: nat, i: nat, e: Pte)
    requires InvOwing(m, owed) && d in m.dirs && i < PDX_UTOP && m.ram[d][i] == ZERO
    requires e != ZERO && EmptyTable(m, e) && 0 < e.ppn && e.Present() && e.ppn in owed && m.boot[e.ppn] == 0
    requires forall r :: r in Refs(m) ==> Refs(m)[r].ppn != e.ppn
    ensures var m' := SetEntry(m, d, i, e);
            && InvOwing(m', owed - multiset{e.ppn})
            && Refs(m') == Refs(m)[Table(d, i) := e]
  {
    SetDir(m, d, i, e);
    forall f: nat { CountAdd(Refs(m), Table(d, i), e, f); }
  }
}
