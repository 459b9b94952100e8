/** Main results about the page allocator and the page tables. */
module PagingTheorems {
  import opened Words
  import Masks
  import opened Paging
  import opened PagingLemmas
  import opened PagingOps
  import opened PagingEnv

  lemma SlotRefInjective(d: nat, vpn: nat, d': nat, vpn': nat)
    requires SlotRef(d, vpn) == SlotRef(d', vpn')
    ensures d == d' && vpn == vpn'
  {
    assert vpn == (vpn / NPTENTRIES) * NPTENTRIES + vpn % NPTENTRIES;
    assert vpn' == (vpn' / NPTENTRIES) * NPTENTRIES + vpn' % NPTENTRIES;
  }

  /** page_insert refines a one-point update of the flat map; failing, it changes nothing. */
  lemma InsertRefinesFlatMap(m: Phys, d: nat, pp: nat, vpn: nat, perm: nat, d': nat, vpn': nat)
    requires Inv(m) && d in m.dirs && vpn < USER_PAGES && Walkable(m, d, vpn) && Insertable(m, d, pp, vpn)
    requires d' in m.dirs && vpn' < USER_PAGES
    ensures PageInsert(m, d, pp, vpn, perm).None? <==> m.ram[d][vpn / NPTENTRIES] == ZERO && m.free == []
    ensures var m' := match PageInsert(m, d, pp, vpn, perm) case None => m case Some(n) => n;
            && Walkable(m, d', vpn') && Walkable(m', d', vpn')
            && Translate(m', d', vpn') ==
                 if m' != m && (d', vpn') == (d, vpn) then Pte(pp, WithPresent(perm)) else Translate(m, d', vpn')
  {
    TranslateIsRef(m, multiset{}, d', vpn');
    WalkCreateKeeps(m, multiset{}, d, vpn);
    if PageInsert(m, d, pp, vpn, perm).Some? {
      var m' := PageInsert(m, d, pp, vpn, perm).value;
      InsertKeeps(m, d, pp, vpn, perm);
      TranslateIsRef(m', multiset{}, d', vpn');
      if SlotRef(d', vpn') == SlotRef(d, vpn) {
        SlotRefInjective(d, vpn, d', vpn');
      }
    }
  }

  /** page_insert keeps the counts exact exactly when the frame is not frame 0 and its 16-bit count
      has room for one more reference or the frame is already in that slot. */
  lemma InsertExactIff(m: Phys, d: nat, pp: nat, vpn: nat, perm: nat)
    requires Inv(m) && d in m.dirs && vpn < USER_PAGES && Walkable(m, d, vpn)
    requires pp < |m.ram| && pp !in m.free && DataFrame(m, pp)
    requires PageInsert(m, d, pp, vpn, perm).Some?
    ensures Inv(PageInsert(m, d, pp, vpn, perm).value)
            <==> pp != 0 && (m.refs[pp] < REF_LIMIT - 1 || Translate(m, d, vpn).ppn == pp)
  {
    if pp == 0 {
      var m' := InsertsZero(m, d, vpn, perm);
      if Inv(m') {
        TranslateIsRef(m', multiset{}, d, vpn);
      }
    } else if m.refs[pp] < REF_LIMIT - 1 || Translate(m, d, vpn).ppn == pp {
      InsertKeeps(m, d, pp, vpn, perm);
    } else {
      var m' := InsertWraps(m, d, pp, vpn, perm);
      if Inv(m') {
        MappedAtZero(m', d, pp, vpn);
      }
    }
  }

  /** Frame 0, which page_lookup finds behind an empty entry, can be mapped, present and all. */
  lemma InsertsZero(m: Phys, d: nat, vpn: nat, perm: nat) returns (m': Phys)
    requires Inv(m) && d in m.dirs && vpn < USER_PAGES && Walkable(m, d, vpn) && 0 < |m.ram|
    requires PageInsert(m, d, 0, vpn, perm).Some?
    ensures m' == PageInsert(m, d, 0, vpn, perm).value && m'.dirs == m.dirs
    ensures Walkable(m', d, vpn) ==> Translate(m', d, vpn) == Pte(0, WithPresent(perm)) != ZERO
  {
    WalkCreateKeeps(m, multiset{}, d, vpn);
    var m1 := WalkCreate(m, d, vpn).value;
    DirsAreNotTables(m1, d, vpn / NPTENTRIES);
    m' := ZeroTail(m1, d, vpn, perm);
  }

  lemma ZeroTail(m1: Phys, d: nat, vpn: nat, perm: nat) returns (m': Phys)
    requires Walkable(m1, d, vpn) && 0 < |m1.ram|
    requires m1.ram[d][vpn / NPTENTRIES] != ZERO && m1.ram[d][vpn / NPTENTRIES].ppn != d
    ensures m' == MapSlot(m1, d, 0, vpn, perm) && m'.dirs == m1.dirs
    ensures Walkable(m', d, vpn) ==> Translate(m', d, vpn) == Pte(0, WithPresent(perm)) != ZERO
  {
    m' := MapSlot(m1, d, 0, vpn, perm);
  }

  /** A mapped frame with count zero breaks the invariant. */
  lemma MappedAtZero(m: Phys, d: nat, pp: nat, vpn: nat)
    requires Inv(m) && d in m.dirs && vpn < USER_PAGES && 0 < pp < |m.refs|
    ensures Walkable(m, d, vpn)
    ensures !(m.refs[pp] == 0 && Translate(m, d, vpn).ppn == pp)
  {
    TranslateIsRef(m, multiset{}, d, vpn);
    if m.refs[pp] == 0 {
      FreeFrameUnreferenced(m, multiset{}, pp);
    }
  }

  lemma InsertWraps(m: Phys, d: nat, pp: nat, vpn: nat, perm: nat) returns (m': Phys)
    requires Inv(m) && d in m.dirs && vpn < USER_PAGES && Walkable(m, d, vpn)
    requires 0 < pp < |m.ram| && pp !in m.free && m.refs[pp] == REF_LIMIT - 1
    requires Translate(m, d, vpn).ppn != pp && PageInsert(m, d, pp, vpn, perm).Some?
    ensures m' == PageInsert(m, d, pp, vpn, perm).value
    ensures |m'.refs| == |m.refs| && m'.refs[pp] == 0 && m'.dirs == m.dirs
    ensures Walkable(m', d, vpn) ==> Translate(m', d, vpn).ppn == pp
  {
    WalkCreateKeeps(m, multiset{}, d, vpn);
    var m1 := WalkCreate(m, d, vpn).value;
    var i, j := vpn / NPTENTRIES, vpn % NPTENTRIES;
    var t := m1.ram[d][i].ppn;
    DirsAreNotTables(m1, d, i);
    assert m1.ram[t][j].ppn != pp;
    m' := WrappedTail(m1, d, pp, vpn, perm);
  }

  lemma WrappedTail(m1: Phys, d: nat, pp: nat, vpn: nat, perm: nat) returns (m': Phys)
    requires Walkable(m1, d, vpn) && 0 < pp < |m1.refs| && m1.refs[pp] == REF_LIMIT - 1
    requires var f := m1.ram[d][vpn / NPTENTRIES];
             f != ZERO && f.ppn != d && m1.ram[f.ppn][vpn % NPTENTRIES].ppn != pp
    ensures m' == MapSlot(m1, d, pp, vpn, perm)
    ensures |m'.refs| == |m1.refs| && m'.refs[pp] == 0 && m'.dirs == m1.dirs
    ensures Walkable(m', d, vpn) ==> Translate(m', d, vpn).ppn == pp
  {
    assert Incref(m1, pp).refs[pp] == 0;
    m' := MapSlot(m1, d, pp, vpn, perm);
  }

  /** page_remove where no page is mapped: silent without a page table, and otherwise one
      decrement of frame 0, which every later operation survives unless that count was 1. */
  lemma RemoveUnmapped(m: Phys, d: nat, vpn: nat)
    requires Inv(m) && d in m.dirs && vpn < USER_PAGES && Walkable(m, d, vpn)
    requires Translate(m, d, vpn) == ZERO && 0 < |m.refs|
    ensures var m' := PageRemove(m, d, vpn);
            && (m' == m <==> m.ram[d][vpn / NPTENTRIES] == ZERO)
            && (m.ram[d][vpn / NPTENTRIES] != ZERO ==>
                  && m'.refs == m.refs[0 := (m.refs[0] + REF_LIMIT - 1) % REF_LIMIT]
                  && (Inv(m') <==> m.refs[0] != 1))
            && (Inv(m') ==> Refs(m') == Refs(m) && m'.dirs == m.dirs)
  {
    var m' := PageRemove(m, d, vpn);
    var e := m.ram[d][vpn / NPTENTRIES];
    if e != ZERO {
      var t, j := e.ppn, vpn % NPTENTRIES;
      assert m.ram[t][j] == ZERO;
      assert m.ram[t][j := ZERO] == m.ram[t];
      assert m.ram[t := m.ram[t]] == m.ram;
      assert m'.ram == m.ram;
      SameTables(m, m');
      assert m'.refs[0] != m.refs[0];
      if m.refs[0] == 1 {
        assert m'.free[0] == 0;
      } else {
        FreeListWithout(m.refs, m.free, m.boot, 0, m'.refs[0]);
      }
    }
  }

  /** An address with a page table and an empty entry. */
  predicate EmptySlot(m: Phys, d: nat, vpn: nat) {
    0 < |m.refs| && Walkable(m, d, vpn) && m.ram[d][vpn / NPTENTRIES] != ZERO && Translate(m, d, vpn) == ZERO
  }

  lemma RemoveEmpty(m: Phys, d: nat, vpn: nat)
    requires EmptySlot(m, d, vpn)
    ensures PageRemove(m, d, vpn) == PageDecref(m, 0) && EmptySlot(PageRemove(m, d, vpn), d, vpn)
  {
    var t, j := m.ram[d][vpn / NPTENTRIES].ppn, vpn % NPTENTRIES;
    assert m.ram[t][j := ZERO] == m.ram[t] && m.ram[t := m.ram[t]] == m.ram;
  }

  /** The memory after n removals of it. */
  function Removed(m: Phys, d: nat, vpn: nat, n: nat): (m': Phys)
    requires EmptySlot(m, d, vpn)
    ensures EmptySlot(m', d, vpn)
  {
    if n == 0 then m
    else
      RemoveEmpty(Removed(m, d, vpn, n - 1), d, vpn);
      PageRemove(Removed(m, d, vpn, n - 1), d, vpn)
  }

  /** How many of them bring the count of frame 0 to zero; 65536 right after page_init. */
  function Fatal(m: Phys): nat
    requires 0 < |m.refs|
  {
    if m.refs[0] == 0 then REF_LIMIT else m.refs[0]
  }

  /** The memory with n units less on frame 0, and frame 0 on the free list if that brings it to zero. */
  function Lowered(m: Phys, n: nat): Phys
    requires 0 < |m.refs| && n <= REF_LIMIT
  {
    m.(refs := m.refs[0 := (m.refs[0] + REF_LIMIT - n) % REF_LIMIT],
       free := if n == Fatal(m) then [0] + m.free else m.free)
  }

  lemma LoweredStep(m: Phys, n: nat)
    requires 0 < |m.refs| && m.refs[0] < REF_LIMIT && n <= Fatal(m)
    ensures if n == 0 then Lowered(m, 0) == m
            else |Lowered(m, n - 1).refs| == |m.refs| && PageDecref(Lowered(m, n - 1), 0) == Lowered(m, n)
  {
    assert m.refs[0 := m.refs[0]] == m.refs;
  }

  /** The n-th removal of an empty entry takes the n-th unit off frame 0's 16-bit count and does nothing
      else, up to the one that brings the count to zero: that one puts frame 0 on the free list. */
  lemma {:induction false} RemovalsOfEmpty(m: Phys, d: nat, vpn: nat, n: nat)
    requires EmptySlot(m, d, vpn) && m.refs[0] < REF_LIMIT && n <= Fatal(m)
    ensures Removed(m, d, vpn, n) == Lowered(m, n)
  {
    hide Walkable, Translate, PageRemove, PageDecref, Lowered;
    LoweredStep(m, n);
    if n > 0 {
      RemovalsOfEmpty(m, d, vpn, n - 1);
      RemoveEmpty(Removed(m, d, vpn, n - 1), d, vpn);
    }
  }

  /** The invariant says nothing about frame 0's count. */
  lemma ZeroCountFree(m: Phys, c: nat)
    requires Inv(m) && 0 < |m.refs| && c < REF_LIMIT
    ensures Inv(m.(refs := m.refs[0 := c]))
  {
    var m' := m.(refs := m.refs[0 := c]);
    SameTables(m, m');
    FreeListWithout(m.refs, m.free, m.boot, 0, c);
  }

  /** The bookkeeping survives the first n removals of empty entries if and only if n is below that. */
  lemma RemovalsKeepIff(m: Phys, d: nat, vpn: nat, n: nat)
    requires Inv(m) && EmptySlot(m, d, vpn) && n <= Fatal(m)
    ensures Inv(Removed(m, d, vpn, n)) <==> n < Fatal(m)
  {
    hide Walkable, Translate, RefsOk, CountsOwing, Removed;
    RemovalsOfEmpty(m, d, vpn, n);
    if n == Fatal(m) {
      assert Removed(m, d, vpn, n).free[0] == 0;
    } else {
      ZeroCountFree(m, (m.refs[0] + REF_LIMIT - n) % REF_LIMIT);
    }
  }

  /** page_remove of a mapped page deletes exactly one pair of the flat map. */
  lemma RemoveRefinesFlatMap(m: Phys, d: nat, vpn: nat, d': nat, vpn': nat)
    requires Inv(m) && d in m.dirs && vpn < USER_PAGES && Walkable(m, d, vpn)
    requires Translate(m, d, vpn) != ZERO && d' in m.dirs && vpn' < USER_PAGES
    ensures var m' := PageRemove(m, d, vpn);
            && Inv(m') && Walkable(m, d', vpn') && Walkable(m', d', vpn')
            && Translate(m', d', vpn') == if (d', vpn') == (d, vpn) then ZERO else Translate(m, d', vpn')
  {
    TranslateIsRef(m, multiset{}, d, vpn);
    TranslateIsRef(m, multiset{}, d', vpn');
    RemoveMapped(m, multiset{}, d, vpn);
    TranslateIsRef(PageRemove(m, d, vpn), multiset{}, d', vpn');
    if SlotRef(d', vpn') == SlotRef(d, vpn) {
      SlotRefInjective(d, vpn, d', vpn');
    }
  }

  /** env_free leaves every other address space's flat map as it was. */
  lemma EnvFreeKeepsOthers(m: Phys, d: nat, d': nat, vpn': nat)
    requires Inv(m) && d in m.dirs && d' in m.dirs && d' != d && vpn' < USER_PAGES
    ensures var m' := EnvFree(m, d);
            && Walkable(m, d', vpn') && Walkable(m', d', vpn')
            && Translate(m', d', vpn') == Translate(m, d', vpn')
  {
    EnvFreeDropsExactly(m, d);
    TranslateIsRef(m, multiset{}, d', vpn');
    TranslateIsRef(EnvFree(m, d), multiset{}, d', vpn');
  }

  // ---- what the kernel passes to page_insert -----------------------------------------------

  /** A frame that was allocated and not mapped yet can be inserted anywhere. */
  lemma HeldInsertable(m: Phys, d: nat, pp: nat, vpn: nat)
    requires Inv(m) && Walkable(m, d, vpn) && pp in Held(m)
    ensures Insertable(m, d, pp, vpn)
  {
    FreeFrameUnreferenced(m, multiset{}, pp);
  }

  /** So can a frame that is found behind a mapped address, if its count has room. */
  lemma MappedInsertable(m: Phys, d': nat, vpn': nat, d: nat, vpn: nat)
    requires Inv(m) && Walkable(m, d, vpn) && d' in m.dirs && vpn' < USER_PAGES && Walkable(m, d', vpn')
    requires Translate(m, d', vpn') != ZERO
    ensures var pp := Translate(m, d', vpn').ppn;
            && 0 < pp < |m.ram| && pp !in m.free && DataFrame(m, pp)
            && (m.refs[pp] < REF_LIMIT - 1 || Translate(m, d, vpn).ppn == pp ==> Insertable(m, d, pp, vpn))
  {
    TranslateIsRef(m, multiset{}, d', vpn');
    RemoveMapped(m, multiset{}, d', vpn');
  }

  /** What sys_page_alloc, sys_page_map and sys_ipc_try_send insert: a frame just allocated, or the
      frame behind a mapped address of some environment. */
  ghost predicate Given(m: Phys, pp: nat) {
    pp in Held(m) || exists d, vpn :: d in m.dirs && Walkable(m, d, vpn) && Translate(m, d, vpn) != ZERO && Translate(m, d, vpn).ppn == pp
  }

  lemma GivenInsertable(m: Phys, d: nat, pp: nat, vpn: nat)
    requires Inv(m) && Walkable(m, d, vpn) && Given(m, pp)
    ensures 0 < pp < |m.ram| && pp !in m.free && DataFrame(m, pp)
    ensures m.refs[pp] < REF_LIMIT - 1 || Translate(m, d, vpn).ppn == pp ==> Insertable(m, d, pp, vpn)
  {
    if pp in Held(m) {
      HeldInsertable(m, d, pp, vpn);
    } else {
      var d', vpn' :| d' in m.dirs && Walkable(m, d', vpn') && Translate(m, d', vpn') != ZERO && Translate(m, d', vpn').ppn == pp;
      MappedInsertable(m, d', vpn', d, vpn);
    }
  }

  // ---- the kernel's own page tables -------------------------------------------------------------

  /** pgdir_walk on kern_pgdir for a missing table above UTOP, as boot_map_region calls it: the new
      table has a count that no environment accounts for. */
  function KernTable(m: Phys, i: nat): Phys
    requires |m.ram| == |m.refs| == |m.boot| && i < |m.kern| && (m.free != [] ==> m.free[0] < |m.ram|)
  {
    match PageAlloc(m, true)
    case None => m
    case Some((m1, t)) =>
      m1.(refs := m1.refs[t := (m1.refs[t] + 1) % REF_LIMIT], boot := m1.boot[t := 1],
          kern := m1.kern[i := Pte(t, PTE_P + PTE_W + PTE_U)])
  }

  lemma KernTableKeeps(m: Phys, i: nat)
    requires Inv(m) && PDX_UTOP <= i < NPDENTRIES
    ensures Inv(KernTable(m, i)) && Refs(KernTable(m, i)) == Refs(m) && Held(KernTable(m, i)) == Held(m)
    ensures m.free != [] ==> KernTable(m, i).kern == m.kern[i := Pte(m.free[0], 0x7)]
  {
    if m.free != [] {
      hide RefsOk, CountsOwing, FreeListOk;
      AllocKeeps(m, multiset{}, true);
      var (m1, t) := PageAlloc(m, true).value;
      var m' := KernTable(m, i);
      KernTableRefs(m1, m');
      KernTableCounts(m1, m', t);
      assert m.free == [t] + m.free[1..];
    }
  }

  lemma KernTableCounts(m1: Phys, m': Phys, t: nat)
    requires Inv(m1) && Shaped(m') && 0 < t < |m1.refs| && m1.refs[t] == 0 && t !in m1.free && m1.boot[t] == 0
    requires Refs(m') == Refs(m1) && forall r :: r in Refs(m1) ==> Refs(m1)[r].ppn != t
    requires m'.refs == m1.refs[t := 1] && m'.boot == m1.boot[t := 1] && m'.free == m1.free
    ensures Inv(m')
  {
    assert RefsTo(Refs(m1), t) == {};
  }

  lemma KernTableRefs(m: Phys, m': Phys)
    requires Shaped(m) && Shaped(m') && m'.ram == m.ram && m'.dirs == m.dirs
    ensures Refs(m') == Refs(m)
  {
    forall r
      ensures IsRef(m', r) <==> IsRef(m, r)
      ensures IsRef(m, r) ==> Word(m', r) == Word(m, r)
    {
    }
  }

  // ---- whole runs -------------------------------------------------------------------------

  /** A kernel operation on memory; `Free` gives back an allocated frame that was never mapped. */
  datatype Op =
    | Alloc(zero: bool)
    | Free(f: nat)
    | Insert(d: nat, pp: nat, vpn: nat, perm: nat)
    | Remove(d: nat, vpn: nat)
    | Setup
    | Exit(d: nat)
    | KernelTable(i: nat)

  /** What the callers of the allocator can ask for. page_insert gets a frame just allocated or what
      page_lookup finds, which for an empty entry is frame 0. */
  ghost predicate Possible(m: Phys, op: Op)
    requires Inv(m)
  {
    match op
    case Alloc(_) => true
    case Free(f) => f in Held(m) && m.boot[f] == 0
    case Insert(d, pp, vpn, _) => d in m.dirs && Walkable(m, d, vpn) && 0 < |m.ram| && (pp == 0 || Given(m, pp)) && pp < |m.ram|
    case Remove(d, vpn) => d in m.dirs && Walkable(m, d, vpn) && 0 < |m.ram|
    case Setup => true
    case Exit(d) => d in m.dirs
    case KernelTable(i) => PDX_UTOP <= i < NPDENTRIES
  }

  /** The two things that must not happen: an insertion, unless it fails, of frame 0 or of a frame whose
      16-bit count is full; and the removal of an empty entry when frame 0's count is 1. */
  ghost predicate Safe(m: Phys, op: Op)
    requires Inv(m) && Possible(m, op)
  {
    match op
    case Insert(d, pp, vpn, perm) =>
      && PageInsert(m, d, pp, vpn, perm).Some? ==>
           pp != 0 && (m.refs[pp] < REF_LIMIT - 1 || Translate(m, d, vpn).ppn == pp)
    case Remove(d, vpn) => Translate(m, d, vpn) == ZERO && m.ram[d][vpn / NPTENTRIES] != ZERO ==> m.refs[0] != 1
    case _ => true
  }

  ghost function Step(m: Phys, op: Op): Phys
    requires Inv(m) && Possible(m, op)
  {
    match op
    case Alloc(zero) => (match PageAlloc(m, zero) case None => m case Some(p) => p.0)
    case Free(f) => PageFree(m, f)
    case Insert(d, pp, vpn, perm) =>
      (match PageInsert(m, d, pp, vpn, perm) case None => m case Some(n) => n)
    case Remove(d, vpn) => PageRemove(m, d, vpn)
    case Setup => (match EnvSetupVm(m) case None => m case Some(p) => p.0)
    case Exit(d) => EnvFree(m, d)
    case KernelTable(i) => KernTable(m, i)
  }

  lemma FreeHeldKeeps(m: Phys, f: nat)
    requires Inv(m) && f in Held(m) && m.boot[f] == 0
    ensures Inv(PageFree(m, f))
  {
    SameTables(m, PageFree(m, f));
    FreeListWithout(m.refs, m.free, m.boot, f, 0);
    assert m.refs[f := 0] == m.refs;
  }

  lemma InsertSafeIff(m: Phys, d: nat, pp: nat, vpn: nat, perm: nat)
    requires Inv(m) && Possible(m, Insert(d, pp, vpn, perm))
    ensures Inv(Step(m, Insert(d, pp, vpn, perm))) <==> Safe(m, Insert(d, pp, vpn, perm))
  {
    if PageInsert(m, d, pp, vpn, perm).Some? {
      if pp != 0 {
        GivenInsertable(m, d, pp, vpn);
      }
      InsertExactIff(m, d, pp, vpn, perm);
    }
  }

  lemma RemoveSafeIff(m: Phys, d: nat, vpn: nat)
    requires Inv(m) && Possible(m, Remove(d, vpn))
    ensures Inv(Step(m, Remove(d, vpn))) <==> Safe(m, Remove(d, vpn))
  {
    TranslateIsRef(m, multiset{}, d, vpn);
    if Translate(m, d, vpn) == ZERO {
      RemoveUnmapped(m, d, vpn);
    } else {
      RemoveMapped(m, multiset{}, d, vpn);
    }
  }

  /** Every operation that the kernel can ask for keeps the counts exact and the free list sound, but
      for those two, which break them. */
  lemma StepKeepsInv(m: Phys, op: Op)
    requires Inv(m) && Possible(m, op)
    ensures Inv(Step(m, op)) <==> Safe(m, op)
  {
    match op
    case Alloc(zero) => if m.free != [] { AllocKeeps(m, multiset{}, zero); }
    case Free(f) => FreeHeldKeeps(m, f);
    case Insert(d, pp, vpn, perm) => InsertSafeIff(m, d, pp, vpn, perm);
    case Remove(d, vpn) => RemoveSafeIff(m, d, vpn);
    case Setup => if m.free != [] { SetupKeeps(m); }
    case Exit(d) => EnvFreeDropsExactly(m, d);
    case KernelTable(i) => KernTableKeeps(m, i);
  }

  /** A run is a sequence of states, each a possible step from the one before while that is sound. */
  ghost predicate Run(states: seq<Phys>, ops: seq<Op>) {
    && |states| == |ops| + 1 && Inv(states[0])
    && forall k :: 0 <= k < |ops| ==> Follows(states[k], ops[k], states[k + 1])
  }

  ghost predicate Follows(m: Phys, op: Op, m': Phys) { Inv(m) ==> Possible(m, op) && m' == Step(m, op) }

  lemma RunStep(states: seq<Phys>, ops: seq<Op>, k: nat)
    requires Run(states, ops) && k < |ops| && Inv(states[k])
    ensures Possible(states[k], ops[k]) && states[k + 1] == Step(states[k], ops[k])
  {
    assert Follows(states[k], ops[k], states[k + 1]);
  }

  ghost predicate SafeUpTo(states: seq<Phys>, ops: seq<Op>, n: nat)
    requires Run(states, ops) && n <= |ops|
  {
    forall k :: 0 <= k < n ==> Inv(states[k]) && Possible(states[k], ops[k]) && Safe(states[k], ops[k])
  }

  /** Over every run: exact counts, a duplicate-free list of unreferenced frames and private tables in
      all of the first n + 1 states, if and only if the first n steps are safe. */
  lemma {:induction false} RunKeepsInv(states: seq<Phys>, ops: seq<Op>, n: nat)
    requires Run(states, ops) && n <= |ops|
    ensures (forall k :: 0 <= k <= n ==> Inv(states[k])) <==> SafeUpTo(states, ops, n)
  {
    hide RefsOk, CountsOwing, FreeListOk, Safe, Step;
    if n > 0 {
      var p := n - 1;
      RunKeepsInv(states, ops, p);
      if Inv(states[p]) {
        RunStep(states, ops, p);
        StepKeepsInv(states[p], ops[p]);
      }
      assert SafeUpTo(states, ops, n) ==> SafeUpTo(states, ops, p);
    }
  }

  // ---- frame 0 over runs -------------------------------------------------------------------------

  /** The removal of an empty entry. */
  predicate EmptyRemoval(m: Phys, op: Op) { op.Remove? && EmptySlot(m, op.d, op.vpn) }

  lemma InsertFrameZero(m: Phys, d: nat, pp: nat, vpn: nat, perm: nat)
    requires Walkable(m, d, vpn) && 0 < pp < |m.ram| && PageInsert(m, d, pp, vpn, perm).Some?
    requires m.free != [] ==> m.free[0] != 0
    ensures var m' := PageInsert(m, d, pp, vpn, perm).value; |m'.refs| == |m.refs| && m'.refs[0] == m.refs[0]
  {
    WalkCreateWalkable(m, d, vpn);
    MapFrameZero(WalkCreate(m, d, vpn).value, d, pp, vpn, perm);
  }

  lemma MapFrameZero(m: Phys, d: nat, pp: nat, vpn: nat, perm: nat)
    requires Walkable(m, d, vpn) && 0 < pp < |m.ram| && m.ram[d][vpn / NPTENTRIES] != ZERO
    ensures var m' := MapSlot(m, d, pp, vpn, perm); |m'.refs| == |m.refs| && m'.refs[0] == m.refs[0]
  {
  }

  lemma RemoveFrameZero(m: Phys, d: nat, vpn: nat)
    requires Inv(m) && d in m.dirs && Walkable(m, d, vpn) && 0 < |m.refs|
    ensures var m' := PageRemove(m, d, vpn);
            && |m'.refs| == |m.refs|
            && m'.refs[0] == if EmptySlot(m, d, vpn) then (m.refs[0] + REF_LIMIT - 1) % REF_LIMIT else m.refs[0]
  {
    TranslateIsRef(m, multiset{}, d, vpn);
  }

  /** No safe step but the removal of an empty entry touches the count of frame 0. */
  lemma StepFrameZero(m: Phys, op: Op)
    requires Inv(m) && Possible(m, op) && Safe(m, op) && 0 < |m.refs|
    ensures var m' := Step(m, op);
            && |m'.refs| == |m.refs|
            && m'.refs[0] == if EmptyRemoval(m, op) then (m.refs[0] + REF_LIMIT - 1) % REF_LIMIT else m.refs[0]
  {
    hide RefsOk, CountsOwing, EmptySlot, PageInsert, PageRemove, EnvFree, Translate;
    match op
    case Alloc(zero) =>
    case Free(f) =>
    case Insert(d, pp, vpn, perm) => if PageInsert(m, d, pp, vpn, perm).Some? { InsertFrameZero(m, d, pp, vpn, perm); }
    case Remove(d, vpn) => RemoveFrameZero(m, d, vpn);
    case Setup =>
    case Exit(d) => EnvFreeDropsExactly(m, d);
    case KernelTable(i) =>
  }

  /** How many of the first n steps remove an empty entry. */
  ghost function EmptyRemovals(states: seq<Phys>, ops: seq<Op>, n: nat): nat
    requires n <= |ops| <= |states|
  {
    if n == 0 then 0 else EmptyRemovals(states, ops, n - 1) + One(EmptyRemoval(states[n - 1], ops[n - 1]))
  }

  /** Over every run of safe steps, whatever they are and in whatever order, the count of frame 0 is its
      first value less the number of empty removals so far, modulo 65536; and there have been fewer of
      them than bring it to zero. */
  lemma {:induction false} FrameZeroOverRun(states: seq<Phys>, ops: seq<Op>, n: nat)
    requires Run(states, ops) && n <= |ops| && SafeUpTo(states, ops, n) && 0 < |states[0].refs|
    ensures |states[n].refs| == |states[0].refs| && EmptyRemovals(states, ops, n) < Fatal(states[0])
    ensures states[n].refs[0] == (states[0].refs[0] + REF_LIMIT - EmptyRemovals(states, ops, n)) % REF_LIMIT
    decreases n, 1
  {
    hide RefsOk, CountsOwing, FreeListOk, Safe, Step, Possible, EmptyRemoval;
    if n > 0 {
      var p := n - 1;
      assert SafeUpTo(states, ops, p);
      FrameZeroOverRun(states, ops, p);
      RunStep(states, ops, p);
      StepFrameZero(states[p], ops[p]);
      FatalRemovalIff(states, ops, p);
    }
  }

  /** A step that removes an empty entry is the fatal one, after which frame 0 is on the free list, if and
      only if it is the 65536-th of its kind since boot, or the one that an earlier count decides. */
  lemma {:induction false} FatalRemovalIff(states: seq<Phys>, ops: seq<Op>, n: nat)
    requires Run(states, ops) && n < |ops| && SafeUpTo(states, ops, n) && 0 < |states[0].refs|
    ensures Inv(states[n]) && Possible(states[n], ops[n])
    ensures EmptyRemoval(states[n], ops[n]) ==>
              (Safe(states[n], ops[n]) <==> EmptyRemovals(states, ops, n) + 1 < Fatal(states[0]))
    decreases n, 2
  {
    hide RefsOk, CountsOwing, FreeListOk, Step;
    RunKeepsInv(states, ops, n);
    RunStep(states, ops, n);
    FrameZeroOverRun(states, ops, n);
    var r, c := states[0].refs[0], EmptyRemovals(states, ops, n);
    assert states[n].refs[0] == 1 <==> c + 1 == Fatal(states[0]);
  }

  // ---- contents --------------------------------------------------------------------------------------

  /** page_alloc clears the frame it hands out when asked to, and writes no other. */
  lemma AllocWrites(m: Phys, zero: bool, f: nat, j: nat)
    requires Inv(m) && m.free != [] && f < |m.ram| && j < NPTENTRIES
    ensures PageAlloc(m, zero).Some? && PageAlloc(m, zero).value.1 == m.free[0]
    ensures var m' := PageAlloc(m, zero).value.0;
            && |m'.ram| == |m.ram| && |m'.ram[f]| == NPTENTRIES
            && m'.ram[f][j] == (if zero && f == m.free[0] then Pte(0, 0) else m.ram[f][j])
            && m'.free == m.free[1..] && m'.refs == m.refs
  {
  }

  /** What page_insert writes: one word of the page table, and of the directory the entry that names the
      table. Every page that is neither keeps its contents. */
  lemma InsertWrites(m: Phys, d: nat, pp: nat, vpn: nat, perm: nat)
    requires Inv(m) && d in m.dirs && Walkable(m, d, vpn) && pp < |m.ram| && PageInsert(m, d, pp, vpn, perm).Some?
    ensures var i := vpn / NPTENTRIES;
            var m' := PageInsert(m, d, pp, vpn, perm).value;
            && |m'.ram| == |m.ram| && m'.dirs == m.dirs
            && (m.ram[d][i] == ZERO ==> m.free != [])
            && var t := if m.ram[d][i] != ZERO then m.ram[d][i].ppn else m.free[0];
            && t !in m.dirs && |m'.ram[d]| == NPTENTRIES
            && (forall f: nat :: f < |m.ram| && f != d && f != t ==> m'.ram[f] == m.ram[f])
            && (forall j :: 0 <= j < NPDENTRIES && j != i ==> m'.ram[d][j] == m.ram[d][j])
  {
    hide RefsOk, CountsOwing, FreeListOk, MapSlot;
    var i := vpn / NPTENTRIES;
    WalkCreateKeeps(m, multiset{}, d, vpn);
    var m1 := WalkCreate(m, d, vpn).value;
    DirsAreNotTables(m1, d, i);
    if m.free != [] {
      FreeHeadNotLive(m);
    }
    WalkWrites(m, d, vpn);
    MapWrites(m1, d, pp, vpn, perm);
  }

  lemma WalkWrites(m: Phys, d: nat, vpn: nat)
    requires Walkable(m, d, vpn) && WalkCreate(m, d, vpn).Some?
    requires m.free != [] ==> m.free[0] != d
    ensures var i := vpn / NPTENTRIES;
            var m' := WalkCreate(m, d, vpn).value;
            && |m'.ram| == |m.ram| && m'.dirs == m.dirs && |m'.ram[d]| == NPTENTRIES
            && (m.ram[d][i] == ZERO ==> m.free != [])
            && var t := if m.ram[d][i] != ZERO then m.ram[d][i].ppn else m.free[0];
            && m'.ram[d][i].ppn == t
            && (forall f: nat :: f < |m.ram| && f != d && f != t ==> m'.ram[f] == m.ram[f])
            && (forall j :: 0 <= j < NPDENTRIES && j != i ==> m'.ram[d][j] == m.ram[d][j])
  {
  }

  lemma MapWrites(m: Phys, d: nat, pp: nat, vpn: nat, perm: nat)
    requires Walkable(m, d, vpn) && pp < |m.ram| && m.ram[d][vpn / NPTENTRIES] != ZERO
    ensures var m' := MapSlot(m, d, pp, vpn, perm);
            && |m'.ram| == |m.ram| && m'.dirs == m.dirs
            && forall f: nat :: f < |m.ram| && f != m.ram[d][vpn / NPTENTRIES].ppn ==> m'.ram[f] == m.ram[f]
  {
  }

  /** The permissions of a message or call, with PTE_P added and nothing else changed: perm | PTE_P. */
  lemma PermissionBits(perm: nat, k: nat)
    ensures Masks.Bit(WithPresent(perm), k) <==> k == 0 || Masks.Bit(perm, k)
  {
    if perm % 2 == 0 && k > 0 {
      assert (perm + 1) / 2 == perm / 2;
    }
  }

  /** env_setup_vm copies the kernel's half of the address space, gives the directory its own entry at
      UVPT, which users may read and not write, and leaves the user's half empty. */
  lemma SetupCopiesKernel(m: Phys)
    requires Inv(m) && m.free != []
    ensures var (m', d) := EnvSetupVm(m).value;
            && d == m.free[0] && |m'.ram| == |m.ram| && |m'.ram[d]| == 1024
            && (forall i :: 955 <= i < 1024 && i != 957 ==> m'.ram[d][i] == m.kern[i])
            && m'.ram[d][957] == Pte(d, 0x5)
            && (forall i :: 0 <= i < 955 ==> m'.ram[d][i] == Pte(0, 0))
            && (forall f: nat :: f < |m.ram| && f != d ==> m'.ram[f] == m.ram[f])
  {
  }

  lemma FreeHeadNotLive(m: Phys)
    requires Inv(m) && m.free != []
    ensures 0 < m.free[0] < |m.ram| && m.free[0] !in m.dirs
  {
    FreeFrameUnreferenced(m, multiset{}, m.free[0]);
    NotATable(m, m.free[0]);
  }

  /** No safe step changes the kernel's half of a directory that stays alive. */
  lemma StepKeepsKernelHalf(m: Phys, op: Op)
    requires Inv(m) && Possible(m, op) && Safe(m, op)
    ensures Inv(Step(m, op)) && SameKernelHalf(m, Step(m, op))
  {
    hide RefsOk, CountsOwing, FreeListOk, PageInsert, PageRemove, EnvFree, Given;
    StepKeepsInv(m, op);
    if m.free != [] {
      FreeHeadNotLive(m);
    }
    match op
    case Alloc(zero) =>
    case Free(f) =>
    case Insert(d, pp, vpn, perm) => if PageInsert(m, d, pp, vpn, perm).Some? { InsertWrites(m, d, pp, vpn, perm); }
    case Remove(d, vpn) => RemoveKernelHalf(m, d, vpn);
    case Setup => if m.free != [] { SetupCopiesKernel(m); }
    case Exit(d) => EnvFreeDropsExactly(m, d);
    case KernelTable(i) =>
  }

  /** Directory d was set up by step k of the run and is alive up to state n. */
  ghost predicate AliveSince(states: seq<Phys>, ops: seq<Op>, d: nat, k: nat, n: nat) {
    && Run(states, ops) && k < n <= |ops| && SafeUpTo(states, ops, n)
    && ops[k].Setup? && d !in states[k].dirs && forall j :: k < j <= n ==> d in states[j].dirs
  }

  /** Over every run of safe steps, the kernel's half of a live directory is what kern_pgdir held when
      the directory was set up, with the directory itself at UVPT. */
  lemma {:induction false} KernelHalfOverRun(states: seq<Phys>, ops: seq<Op>, d: nat, k: nat, n: nat)
    requires AliveSince(states, ops, d, k, n)
    ensures Inv(states[n]) && d < |states[n].ram| && |states[n].ram[d]| == 1024 && |states[k].kern| == 1024
    ensures forall i :: 955 <= i < 1024 ==>
              states[n].ram[d][i] == if i == 957 then Pte(d, 0x5) else states[k].kern[i]
    decreases n
  {
    hide RefsOk, CountsOwing, FreeListOk, Possible, Safe, Step;
    RunKeepsInv(states, ops, n);
    var p := n - 1;
    RunStep(states, ops, p);
    if p == k {
      SetupMakes(states[k], d);
    } else {
      KernelHalfOverRun(states, ops, d, k, p);
      StepKeepsKernelHalf(states[p], ops[p]);
    }
  }

  lemma SetupMakes(m: Phys, d: nat)
    requires Inv(m) && d !in m.dirs && Possible(m, Setup) && d in Step(m, Setup).dirs
    ensures var m' := Step(m, Setup);
            && d < |m'.ram| && |m'.ram[d]| == 1024 && |m.kern| == 1024
            && forall i :: 955 <= i < 1024 ==> m'.ram[d][i] == if i == 957 then Pte(d, 0x5) else m.kern[i]
  {
    if m.free != [] {
      SetupCopiesKernel(m);
    }
  }
}
