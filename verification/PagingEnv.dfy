/** Address-space set-up and tear-down (env_setup_vm and env_free in src/env.c). */
module PagingEnv {
  import opened Words
  import opened Paging
  import opened PagingLemmas
  import opened PagingOps

  /** env_setup_vm: the new directory is a copy of the kernel's with its own UVPT entry. */
  function EnvSetupVm(m: Phys): Option<(Phys, nat)>
    requires |m.ram| == |m.refs| && |m.kern| == NPDENTRIES && (m.free != [] ==> m.free[0] < |m.ram|)
  {
    match PageAlloc(m, true)
    case None => None
    case Some((m1, d)) =>
      var dir := m1.kern[PDX_UVPT := Pte(d, PTE_P + PTE_U)];
      Some((Incref(m1.(ram := m1.ram[d := dir], dirs := m1.dirs + {d}), d), d))
  }

  lemma SetupKeeps(m: Phys)
    requires Inv(m) && m.free != []
    ensures var (m', d) := EnvSetupVm(m).value;
            && Inv(m') && d !in m.dirs && m'.dirs == m.dirs + {d}
            && Refs(m') == Refs(m)[Root(d) := Pte(d, PTE_P)]
            && Held(m') == Held(m)
  {
    hide CountsOwing, RefsOk;
    AllocKeeps(m, multiset{}, true);
    var (m1, d) := PageAlloc(m, true).value;
    var dir := m1.kern[PDX_UVPT := Pte(d, PTE_P + PTE_U)];
    assert d !in m1.dirs by { NotATable(m1, d); }
    DirReady(m1, d, dir);
    var m2 := m1.(ram := m1.ram[d := dir]);
    IncrefOwes(m2, multiset{}, d);
    assert multiset{} + multiset{d} == multiset{d} && multiset{d} - multiset{d} == multiset{};
    RootPays(Incref(m2, d), multiset{d}, d);
    SetupHeld(m);
  }

  lemma SetupHeld(m: Phys)
    requires Inv(m) && m.free != []
    ensures Held(EnvSetupVm(m).value.0) == Held(m)
  {
    var d := m.free[0];
    assert m.free == [d] + m.free[1..];
  }

  lemma DirReady(m: Phys, d: nat, dir: seq<Pte>)
    requires Inv(m) && d < |m.ram| && |dir| == NPTENTRIES && forall r :: r in Refs(m) ==> Refs(m)[r].ppn != d
    ensures var m2 := m.(ram := m.ram[d := dir]);
            Inv(m2) && Refs(m2) == Refs(m)
  {
    SetData(m, d, dir);
  }

  lemma RootPays(m: Phys, owed: multiset<nat>, d: nat)
    requires InvOwing(m, owed) && d !in m.dirs && 0 < d < |m.ram| && d in owed && m.boot[d] == 0
    requires forall r :: r in Refs(m) ==> Refs(m)[r].ppn != d
    requires forall i :: 0 <= i < PDX_UTOP ==> m.ram[d][i] == ZERO
    ensures var m' := m.(dirs := m.dirs + {d});
            && InvOwing(m', owed - multiset{d})
            && Refs(m') == Refs(m)[Root(d) := Pte(d, PTE_P)]
  {
    SetRoot(m, d);
    forall f: nat { CountAdd(Refs(m), Root(d), Pte(d, PTE_P), f); }
  }

  /** Dropping a count that is positive loses no frame: at zero it is on the free list. */
  lemma DecrefHeld(m: Phys, f: nat)
    requires 0 < f < |m.refs| && 0 < m.refs[f] < REF_LIMIT
    ensures Held(PageDecref(m, f)) == Held(m)
  {
    assert (m.refs[f] + REF_LIMIT - 1) % REF_LIMIT == m.refs[f] - 1;
  }

  ghost predicate Frees(m: Phys, m': Phys)
  {
    && Inv(m) && Inv(m') && Held(m') == Held(m) && m'.kern == m.kern && m'.boot == m.boot
    && |m'.refs| == |m.refs| && (0 < |m.refs| ==> m'.refs[0] == m.refs[0])
    && SameKernelHalf(m, m')
  }

  /** Directories that stay keep their entries from UTOP up. */
  ghost predicate SameKernelHalf(m: Phys, m': Phys)
    requires Shaped(m) && Shaped(m')
  {
    |m'.ram| == |m.ram| &&
    forall d, i :: d in m.dirs && d in m'.dirs && PDX_UTOP <= i < NPDENTRIES ==> m'.ram[d][i] == m.ram[d][i]
  }

  /** `rs'` is `rs` without the references of slots j and above of table (d, i). */
  ghost predicate WithoutSlots(rs: RefMap, rs': RefMap, d: nat, i: nat, j: nat) {
    && (forall r :: r in rs' <==> r in rs && !(r.Page? && r.d == d && r.i == i && j <= r.j))
    && (forall r :: r in rs' ==> rs'[r] == rs[r])
  }

  predicate Sized(m: Phys) {
    |m.refs| == |m.ram| && forall f :: 0 <= f < |m.ram| ==> |m.ram[f]| == NPTENTRIES
  }

  function ClearSlot(m: Phys, d: nat, vpn: nat): Phys
    requires Walkable(m, d, vpn)
  {
    if Translate(m, d, vpn).Present() then PageRemove(m, d, vpn) else m
  }

  /** The inner loop of env_free from slot j of table i on. (`Walkable` always holds under
      the invariant; it only makes the definition total.) */
  function FreeSlots(m: Phys, d: nat, i: nat, j: nat): (m': Phys)
    requires Sized(m)
    ensures Sized(m') && |m'.ram| == |m.ram|
    decreases NPTENTRIES - j
  {
    var vpn := i * NPTENTRIES + j;
    if j >= NPTENTRIES || !Walkable(m, d, vpn) then m
    else FreeSlots(ClearSlot(m, d, vpn), d, i, j + 1)
  }

  lemma {:induction false} FreeSlotsDrops(m: Phys, d: nat, i: nat, j: nat)
    requires Inv(m) && IsRef(m, Table(d, i)) && j <= NPTENTRIES
    ensures var m' := FreeSlots(m, d, i, j);
            Frees(m, m') && m'.dirs == m.dirs && WithoutSlots(Refs(m), Refs(m'), d, i, j)
    decreases NPTENTRIES - j
  {
    hide RefsOk, CountsOwing, FreeListOk, IsRefMap, WithoutSlots, ClearSlot;
    if j == NPTENTRIES {
      NoSlots(m, d, i);
    } else {
      var m1 := SlotStep(m, d, i, j);
      FreeSlotsDrops(m1, d, i, j + 1);
      WithoutOneMore(Refs(m), Refs(FreeSlots(m1, d, i, j + 1)), d, i, j);
    }
  }

  lemma SlotStep(m: Phys, d: nat, i: nat, j: nat) returns (m1: Phys)
    requires Inv(m) && IsRef(m, Table(d, i)) && j < NPTENTRIES
    ensures Frees(m, m1) && m1.dirs == m.dirs && Refs(m1) == Refs(m) - {Page(d, i, j)}
    ensures IsRef(m1, Table(d, i))
    ensures FreeSlots(m, d, i, j) == FreeSlots(m1, d, i, j + 1)
  {
    m1 := SlotStepExact(m, d, i, j);
  }

  lemma SlotStepExact(m: Phys, d: nat, i: nat, j: nat) returns (m1: Phys)
    requires Inv(m) && IsRef(m, Table(d, i)) && j < NPTENTRIES
    ensures Frees(m, m1) && m1.dirs == m.dirs && Refs(m1) == Refs(m) - {Page(d, i, j)}
    ensures IsRef(m1, Table(d, i)) && m1.ram[d][i] == m.ram[d][i]
    ensures FreeSlots(m, d, i, j) == FreeSlots(m1, d, i, j + 1)
    ensures Walkable(m, d, i * NPTENTRIES + j) && m1 == ClearSlot(m, d, i * NPTENTRIES + j)
  {
    hide RefsOk, CountsOwing, FreeListOk, PageRemove;
    var vpn := i * NPTENTRIES + j;
    WalkableWhenInv(m, multiset{}, d, vpn);
    if Translate(m, d, vpn).Present() {
      m1 := SlotRemoved(m, d, i, j);
    } else {
      SlotEmpty(m, d, i, j);
      m1 := m;
    }
  }

  lemma SlotOf(m: Phys, d: nat, i: nat, j: nat)
    requires i < PDX_UTOP && j < NPTENTRIES && Walkable(m, d, i * NPTENTRIES + j) && m.ram[d][i] != ZERO
    ensures m.ram[d][i].ppn < |m.ram|
    ensures Translate(m, d, i * NPTENTRIES + j) == m.ram[m.ram[d][i].ppn][j]
  {
    var vpn := i * NPTENTRIES + j;
    assert vpn / NPTENTRIES == i && vpn % NPTENTRIES == j;
  }

  lemma NoSlots(m: Phys, d: nat, i: nat)
    requires Shaped(m)
    ensures WithoutSlots(Refs(m), Refs(m), d, i, NPTENTRIES)
  {
  }

  lemma WithoutOneMore(rs: RefMap, rs': RefMap, d: nat, i: nat, j: nat)
    requires WithoutSlots(rs - {Page(d, i, j)}, rs', d, i, j + 1)
    ensures WithoutSlots(rs, rs', d, i, j)
  {
  }

  /** page_remove writes one word of one page table. */
  lemma RemoveWrites(m: Phys, d: nat, vpn: nat)
    requires Walkable(m, d, vpn)
    ensures |PageRemove(m, d, vpn).ram| == |m.ram|
    ensures forall f :: 0 <= f < |m.ram| && (m.ram[d][vpn / NPTENTRIES] == ZERO || f != m.ram[d][vpn / NPTENTRIES].ppn) ==>
              PageRemove(m, d, vpn).ram[f] == m.ram[f]
  {
  }

  lemma RemoveKernelHalf(m: Phys, d: nat, vpn: nat)
    requires Inv(m) && d in m.dirs && vpn < USER_PAGES && Walkable(m, d, vpn) && Shaped(PageRemove(m, d, vpn))
    ensures SameKernelHalf(m, PageRemove(m, d, vpn))
  {
    hide RefsOk, CountsOwing, FreeListOk, PageRemove;
    RemoveWrites(m, d, vpn);
    if m.ram[d][vpn / NPTENTRIES] != ZERO {
      DirsAreNotTables(m, d, vpn / NPTENTRIES);
    }
  }

  lemma SlotRemoved(m: Phys, d: nat, i: nat, j: nat) returns (m1: Phys)
    requires Inv(m) && IsRef(m, Table(d, i)) && j < NPTENTRIES && Walkable(m, d, i * NPTENTRIES + j)
    requires Translate(m, d, i * NPTENTRIES + j).Present()
    ensures m1 == PageRemove(m, d, i * NPTENTRIES + j)
    ensures Frees(m, m1) && m1.dirs == m.dirs && Refs(m1) == Refs(m) - {Page(d, i, j)}
    ensures IsRef(m1, Table(d, i)) && m1.ram[d][i] == m.ram[d][i]
  {
    var vpn := i * NPTENTRIES + j;
    assert SlotRef(d, vpn) == Page(d, i, j);
    RemoveMapped(m, multiset{}, d, vpn);
    DecrefHeld(m, Translate(m, d, vpn).ppn);
    RemoveKernelHalf(m, d, vpn);
    m1 := PageRemove(m, d, vpn);
    assert Refs(m1)[Table(d, i)] == Refs(m)[Table(d, i)];
  }

  lemma SlotEmpty(m: Phys, d: nat, i: nat, j: nat)
    requires Inv(m) && IsRef(m, Table(d, i)) && j < NPTENTRIES && Walkable(m, d, i * NPTENTRIES + j)
    requires !Translate(m, d, i * NPTENTRIES + j).Present()
    ensures Refs(m) - {Page(d, i, j)} == Refs(m)
  {
    assert SlotRef(d, i * NPTENTRIES + j) == Page(d, i, j);
    TranslateIsRef(m, multiset{}, d, i * NPTENTRIES + j);
  }

  /** One round of the outer loop of env_free: empty page table i and give it back. */
  function FreeTable(m: Phys, d: nat, i: nat): (m': Phys)
    requires Sized(m) && d < |m.ram| && i < PDX_UTOP
    ensures Sized(m') && |m'.ram| == |m.ram|
  {
    var e := m.ram[d][i];
    if !e.Present() || e.ppn >= |m.ram| then m
    else PageDecref(SetEntry(FreeSlots(m, d, i, 0), d, i, ZERO), e.ppn)
  }

  function FreeTables(m: Phys, d: nat, i: nat): (m': Phys)
    requires Sized(m) && d < |m.ram| && i <= PDX_UTOP
    ensures Sized(m') && |m'.ram| == |m.ram|
    decreases PDX_UTOP - i
  {
    if i == PDX_UTOP then m else FreeTables(FreeTable(m, d, i), d, i + 1)
  }

  /** env_free: every user page and page table, then the directory itself. */
  function EnvFree(m: Phys, d: nat): (m': Phys)
    requires Sized(m) && d < |m.ram|
  {
    var m1 := FreeTables(m, d, 0);
    PageDecref(m1.(dirs := m1.dirs - {d}), d)
  }

  /** `rs'` is `rs` without what tables i and above of directory d hold. */
  ghost predicate WithoutTables(rs: RefMap, rs': RefMap, d: nat, i: nat) {
    && (forall r :: r in rs' <==> r in rs && !(!r.Root? && r.d == d && i <= r.i))
    && (forall r :: r in rs' ==> rs'[r] == rs[r])
  }

  ghost predicate WithoutTable(rs: RefMap, rs': RefMap, d: nat, i: nat) {
    && (forall r :: r in rs' <==> r in rs && !(!r.Root? && r.d == d && i == r.i))
    && (forall r :: r in rs' ==> rs'[r] == rs[r])
  }

  lemma FreeTableDrops(m: Phys, d: nat, i: nat) returns (m': Phys)
    requires Inv(m) && d in m.dirs && i < PDX_UTOP
    ensures m' == FreeTable(m, d, i)
    ensures Frees(m, m') && m'.dirs == m.dirs && WithoutTable(Refs(m), Refs(m'), d, i)
  {
    m' := FreeTable(m, d, i);
    var e := m.ram[d][i];
    if e == ZERO {
      return;
    }
    assert Refs(m)[Table(d, i)] == e;
    FreeSlotsDrops(m, d, i, 0);
    var m1 := FreeSlots(m, d, i, 0);
    TableIsEmpty(m, m1, d, i);
    var m2 := TableReturned(m1, d, i);
  }

  lemma TableIsEmpty(m: Phys, m1: Phys, d: nat, i: nat)
    requires Inv(m) && Inv(m1) && Table(d, i) in Refs(m) && WithoutSlots(Refs(m), Refs(m1), d, i, 0)
    ensures IsRef(m1, Table(d, i)) && m1.ram[d][i] == m.ram[d][i]
    ensures EmptyTable(m1, m1.ram[d][i])
  {
    assert Table(d, i) in Refs(m1);
    DirsAreNotTables(m1, d, i);
    var t := m1.ram[d][i].ppn;
    forall j | 0 <= j < NPTENTRIES
      ensures m1.ram[t][j] == ZERO
    {
      assert Page(d, i, j) !in Refs(m1);
    }
    assert m1.ram[t] == ZeroFrame();
  }

  lemma TableReturned(m: Phys, d: nat, i: nat) returns (m': Phys)
    requires Inv(m) && IsRef(m, Table(d, i)) && EmptyTable(m, m.ram[d][i])
    ensures m' == PageDecref(SetEntry(m, d, i, ZERO), m.ram[d][i].ppn)
    ensures Frees(m, m') && m'.dirs == m.dirs && Refs(m') == Refs(m) - {Table(d, i)}
  {
    var t := m.ram[d][i].ppn;
    assert Refs(m)[Table(d, i)].ppn == t;
    ClearDirOwes(m, multiset{}, d, i);
    var m1 := SetEntry(m, d, i, ZERO);
    assert multiset{} + multiset{t} == multiset{t} && multiset{t} - multiset{t} == multiset{};
    DecrefPays(m1, multiset{t}, t);
    DecrefHeld(m1, t);
    m' := PageDecref(m1, t);
  }

  lemma WithoutTableThenTables(rs: RefMap, rs1: RefMap, rs': RefMap, d: nat, i: nat)
    requires WithoutTable(rs, rs1, d, i) && WithoutTables(rs1, rs', d, i + 1)
    ensures WithoutTables(rs, rs', d, i)
  {
  }

  lemma NoTables(m: Phys, d: nat)
    requires Shaped(m)
    ensures WithoutTables(Refs(m), Refs(m), d, PDX_UTOP)
  {
  }

  lemma {:induction false} FreeTablesDrops(m: Phys, d: nat, i: nat) returns (m': Phys)
    requires Inv(m) && d in m.dirs && i <= PDX_UTOP
    ensures m' == FreeTables(m, d, i)
    ensures Frees(m, m') && m'.dirs == m.dirs && WithoutTables(Refs(m), Refs(m'), d, i)
    decreases PDX_UTOP - i
  {
    if i == PDX_UTOP {
      NoTables(m, d);
      m' := m;
    } else {
      var m1 := FreeTableDrops(m, d, i);
      m' := FreeTablesDrops(m1, d, i + 1);
      WithoutTableThenTables(Refs(m), Refs(m1), Refs(m'), d, i);
    }
  }

  lemma RootReturned(m: Phys, d: nat) returns (m': Phys)
    requires Inv(m) && d in m.dirs && forall r :: r in Refs(m) && r.d == d ==> r.Root?
    ensures m' == PageDecref(m.(dirs := m.dirs - {d}), d)
    ensures Frees(m, m') && Refs(m') == Refs(m) - {Root(d)}
  {
    var m1 := m.(dirs := m.dirs - {d});
    forall i | 0 <= i < PDX_UTOP
      ensures m1.ram[d][i] == ZERO
    {
      assert Table(d, i) !in Refs(m);
    }
    assert Root(d) in Refs(m) && Refs(m)[Root(d)] == Pte(d, PTE_P);
    RootDropped(m, d);
    assert multiset{d} - multiset{d} == multiset{};
    DecrefPays(m1, multiset{d}, d);
    DecrefHeld(m1, d);
    m' := PageDecref(m1, d);
  }

  lemma RootDropped(m: Phys, d: nat)
    requires Inv(m) && d in m.dirs && forall i :: 0 <= i < PDX_UTOP ==> m.ram[d][i] == ZERO
    ensures var m1 := m.(dirs := m.dirs - {d});
            InvOwing(m1, multiset{d}) && Refs(m1) == Refs(m) - {Root(d)}
  {
    var m1 := m.(dirs := m.dirs - {d});
    SetRoot(m1, d);
    assert m1.(dirs := m1.dirs + {d}) == m;
    assert Root(d) in Refs(m) && Root(d) !in Refs(m1);
    assert Refs(m1) == Refs(m) - {Root(d)};
    forall f: nat { CountDrop(Refs(m), Root(d), f); }
  }

  /** No leak on exit. After env_free the references are those of the other address spaces,
      each with the word it had, and the counts are exact again: every count has dropped by
      what the dead environment held, and no frame was lost on the way to zero. */
  lemma EnvFreeDropsExactly(m: Phys, d: nat)
    requires Inv(m) && d in m.dirs
    ensures var m' := EnvFree(m, d);
            && Frees(m, m') && m'.dirs == m.dirs - {d}
            && (forall r :: r in Refs(m') <==> r in Refs(m) && r.d != d)
            && (forall r :: r in Refs(m') ==> Refs(m')[r] == Refs(m)[r])
  {
    var m1 := FreeTablesDrops(m, d, 0);
    var m2 := RootReturned(m1, d);
  }

  /** The same in terms of one frame: its count falls by the dead environment's references,
      and at zero it is on the free list, once. */
  lemma EnvFreeCounts(m: Phys, d: nat, f: nat)
    requires Inv(m) && d in m.dirs && 0 < f < |m.refs|
    ensures var m' := EnvFree(m, d);
            var own := set r | r in RefsTo(Refs(m), f) && r.d == d;
            && |m'.refs| == |m.refs|
            && m'.refs[f] == m.refs[f] - |own|
            && (own != {} && m'.refs[f] == 0 ==> multiset(m'.free)[f] == 1)
  {
    EnvFreeDropsExactly(m, d);
    var m' := EnvFree(m, d);
    CountWithout(Refs(m), Refs(m'), d, f);
    var own := set r | r in RefsTo(Refs(m), f) && r.d == d;
    if own != {} && m'.refs[f] == 0 {
      assert m.refs[f] > 0;
      NotLost(m, m', f);
    }
  }

  lemma CountWithout(rs: RefMap, rs': RefMap, d: nat, f: nat)
    requires forall r :: r in rs' <==> r in rs && r.d != d
    requires forall r :: r in rs' ==> rs'[r] == rs[r]
    ensures Count(rs', f) == Count(rs, f) - |set r | r in RefsTo(rs, f) && r.d == d|
  {
    assert RefsTo(rs', f) == RefsTo(rs, f) - set r | r in RefsTo(rs, f) && r.d == d;
  }

  lemma NotLost(m: Phys, m': Phys, f: nat)
    requires Frees(m, m') && 0 < f < |m'.refs| && f < |m.refs| && m.refs[f] > 0 && m'.refs[f] == 0
    ensures multiset(m'.free)[f] == 1
  {
    assert f !in Held(m);
    assert f !in Held(m');
    OnListOnce(m'.free, f);
  }

  lemma OnListOnce(free: seq<nat>, f: nat)
    requires f in free && forall k, l :: 0 <= k < l < |free| ==> free[k] != free[l]
    ensures multiset(free)[f] == 1
  {
    var k :| 0 <= k < |free| && free[k] == f;
    assert free == free[..k] + [f] + free[k + 1..];
    assert f !in multiset(free[..k]) && f !in multiset(free[k + 1..]);
  }
}
