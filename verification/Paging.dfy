/** Physical frames, reference counts and two-level page tables (src/pmap.c and the
    memory half of src/env.c), as operations on values.

    A frame is named by its page number. A table word is a pair of page number and
    low twelve bits, so the all-zero word is `ZERO`. An address space is named by the
    frame of its page directory, and a virtual page below UTOP by its number
    `vpn == pdx * 1024 + ptx`. */
module Paging {
  import opened Words

  const NPDENTRIES: nat := 1024
  const NPTENTRIES: nat := 1024
  const PDX_UTOP: nat := 955
  const PDX_UVPT: nat := 957
  const USER_PAGES: nat := PDX_UTOP * NPTENTRIES
  /** `pp_ref` is a 16-bit field (src/pmap.h:19). */
  const REF_LIMIT: nat := 0x1_0000

  datatype Pte = Pte(ppn: nat, flags: nat) {
    predicate Present() { flags % 2 == 1 }
  }

  const ZERO: Pte := Pte(0, 0)

  function ZeroFrame(): (z: seq<Pte>)
    ensures |z| == NPTENTRIES && forall j :: 0 <= j < NPTENTRIES ==> z[j] == ZERO
  {
    seq(NPTENTRIES, _ => ZERO)
  }

  /** The kernel's memory state.
      `refs[f]` is `pages[f].pp_ref`; `free` is the list that starts at `page_free_list`;
      `ram[f]` is frame f read as 1024 table words; `dirs` are the page directories of
      live environments; `kern` is `kern_pgdir`; `boot[f]` is the count that boot code
      left in a frame the allocator never hands out. */
  datatype Phys = Phys(refs: seq<nat>, free: seq<nat>, ram: seq<seq<Pte>>, dirs: set<nat>,
                       kern: seq<Pte>, boot: seq<nat>)

  // ---- counted references ------------------------------------------------------

  /** Everything that holds a count on a frame: an environment's directory pointer,
      a directory entry below UTOP, and a page-table entry below UTOP. */
  datatype Ref = Root(d: nat) | Table(d: nat, i: nat) | Page(d: nat, i: nat, j: nat)

  ghost predicate Shaped(m: Phys) {
    && |m.boot| == |m.ram| == |m.refs|
    && |m.kern| == NPDENTRIES
    && (forall i :: 0 <= i < PDX_UTOP ==> m.kern[i] == ZERO)
    && (forall f :: 0 <= f < |m.ram| ==> |m.ram[f]| == NPTENTRIES)
    && (forall d :: d in m.dirs ==> d < |m.ram|)
    && (forall d, i :: d in m.dirs && 0 <= i < PDX_UTOP ==> m.ram[d][i].ppn < |m.ram|)
  }

  ghost predicate IsRef(m: Phys, r: Ref)
    requires Shaped(m)
  {
    r.d in m.dirs &&
    match r
    case Root(_) => true
    case Table(d, i) => i < PDX_UTOP && m.ram[d][i] != ZERO
    case Page(d, i, j) =>
      i < PDX_UTOP && j < NPTENTRIES && m.ram[d][i] != ZERO && m.ram[m.ram[d][i].ppn][j] != ZERO
  }

  /** The word behind a reference; a directory pointer counts as a present entry. */
  ghost function Word(m: Phys, r: Ref): Pte
    requires Shaped(m) && IsRef(m, r)
  {
    match r
    case Root(d) => Pte(d, PTE_P)
    case Table(d, i) => m.ram[d][i]
    case Page(d, i, j) => m.ram[m.ram[d][i].ppn][j]
  }

  ghost function RefSet(m: Phys): (s: set<Ref>)
    requires Shaped(m)
    ensures forall r :: r in s <==> IsRef(m, r)
  {
    (set d | d in m.dirs && IsRef(m, Root(d)) :: Root(d))
    + (set d, i: nat | d in m.dirs && i < PDX_UTOP && IsRef(m, Table(d, i)) :: Table(d, i))
    + (set d, i: nat, j: nat |
         d in m.dirs && i < PDX_UTOP && j < NPTENTRIES && IsRef(m, Page(d, i, j)) :: Page(d, i, j))
  }

  type RefMap = map<Ref, Pte>

  ghost predicate IsRefMap(m: Phys, rs: RefMap)
    requires Shaped(m)
  {
    && (forall r :: r in rs <==> IsRef(m, r))
    && (forall r :: r in rs ==> rs[r] == Word(m, r))
  }

  lemma RefMapExists(m: Phys)
    requires Shaped(m)
    ensures exists rs :: IsRefMap(m, rs)
  {
    var rs := map r | r in RefSet(m) :: Word(m, r);
    assert IsRefMap(m, rs);
  }

  /** All counted references, each with the word that holds it. */
  ghost function Refs(m: Phys): (rs: RefMap)
    requires Shaped(m)
    ensures IsRefMap(m, rs)
  {
    RefMapExists(m);
    var rs :| IsRefMap(m, rs);
    rs
  }

  ghost function RefsTo(rs: RefMap, f: nat): (s: set<Ref>)
    ensures forall r :: r in s <==> r in rs && rs[r].ppn == f
  {
    set r | r in rs && rs[r].ppn == f
  }

  /** The number of references to frame f. */
  ghost function Count(rs: RefMap, f: nat): nat { |RefsTo(rs, f)| }

  // ---- the invariant -------------------------------------------------------------

  ghost predicate FreeListOk(refs: seq<nat>, free: seq<nat>, boot: seq<nat>)
    requires |boot| == |refs|
  {
    && (forall k :: 0 <= k < |free| ==> 0 < free[k] < |refs| && refs[free[k]] == 0 && boot[free[k]] == 0)
    && (forall k, l :: 0 <= k < l < |free| ==> free[k] != free[l])
  }

  /** Every word names a frame other than 0 and is marked present; directories and page
      tables are referenced exactly once and are not boot frames. */
  ghost predicate RefsOk(rs: RefMap, boot: seq<nat>) {
    && (forall r :: r in rs ==>
          0 < rs[r].ppn < |boot| && rs[r].Present() && (!r.Page? ==> boot[rs[r].ppn] == 0))
    && (forall r, r' :: r in rs && r' in rs && !r.Page? && rs[r'].ppn == rs[r].ppn ==> r' == r)
  }

  /** Every frame but frame 0 has an exact count. `owed` holds the frames whose count is
      one above their references because an operation is half done. */
  ghost predicate CountsOwing(refs: seq<nat>, boot: seq<nat>, rs: RefMap, owed: multiset<nat>)
    requires |boot| == |refs|
  {
    forall f :: 0 < f < |refs| ==> refs[f] == boot[f] + Count(rs, f) + owed[f]
  }

  ghost predicate InvOwing(m: Phys, owed: multiset<nat>) {
    && Shaped(m)
    && (forall f :: 0 <= f < |m.refs| ==> m.refs[f] < REF_LIMIT)
    && FreeListOk(m.refs, m.free, m.boot)
    && RefsOk(Refs(m), m.boot)
    && CountsOwing(m.refs, m.boot, Refs(m), owed)
  }

  ghost predicate Inv(m: Phys) { InvOwing(m, multiset{}) }

  /** Frames handed out by `page_alloc` that nothing refers to yet. */
  ghost function Held(m: Phys): set<nat> {
    set f: nat | 0 < f < |m.refs| && m.refs[f] == 0 && f !in m.free
  }

  // ---- operations ------------------------------------------------------------------

  /** page_alloc with ALLOC_ZERO or without it. */
  function PageAlloc(m: Phys, zero: bool): Option<(Phys, nat)>
    requires |m.ram| == |m.refs| && (m.free != [] ==> m.free[0] < |m.ram|)
  {
    if m.free == [] then None
    else
      var f := m.free[0];
      Some((m.(free := m.free[1..], ram := if zero then m.ram[f := ZeroFrame()] else m.ram), f))
  }

  function PageFree(m: Phys, f: nat): Phys {
    m.(free := [f] + m.free)
  }

  /** page_decref, with the 16-bit decrement written out. */
  function PageDecref(m: Phys, f: nat): Phys
    requires f < |m.refs|
  {
    var m' := m.(refs := m.refs[f := (m.refs[f] + REF_LIMIT - 1) % REF_LIMIT]);
    if m'.refs[f] == 0 then PageFree(m', f) else m'
  }

  function Incref(m: Phys, f: nat): Phys
    requires f < |m.refs|
  {
    m.(refs := m.refs[f := (m.refs[f] + 1) % REF_LIMIT])
  }

  function SetEntry(m: Phys, f: nat, k: nat, e: Pte): Phys
    requires f < |m.ram| && k < |m.ram[f]|
  {
    m.(ram := m.ram[f := m.ram[f][k := e]])
  }

  /** What any walk needs: the directory and the tables it names are frames of 1024 words. */
  predicate Walkable(m: Phys, d: nat, vpn: nat) {
    && |m.ram| == |m.refs|
    && (forall k :: 0 <= k < |m.free| ==> m.free[k] < |m.ram|)
    && (forall f :: 0 <= f < |m.ram| ==> |m.ram[f]| == NPTENTRIES)
    && d < |m.ram| && vpn < USER_PAGES
    && (m.ram[d][vpn / NPTENTRIES] != ZERO ==>
          && m.ram[d][vpn / NPTENTRIES].ppn < |m.ram|
          && m.ram[m.ram[d][vpn / NPTENTRIES].ppn][vpn % NPTENTRIES].ppn < |m.ram|)
  }

  /** pgdir_walk with create set: the state in which the table for `vpn` exists. */
  function WalkCreate(m: Phys, d: nat, vpn: nat): Option<Phys>
    requires Walkable(m, d, vpn)
  {
    if m.ram[d][vpn / NPTENTRIES] != ZERO then Some(m)
    else match PageAlloc(m, true)
      case None => None
      case Some((m1, t)) =>
        Some(SetEntry(Incref(m1, t), d, vpn / NPTENTRIES, Pte(t, PTE_P + PTE_W + PTE_U)))
  }

  /** The flat map: what the hardware finds for `vpn`, or ZERO. */
  function Translate(m: Phys, d: nat, vpn: nat): Pte
    requires Walkable(m, d, vpn)
  {
    var e := m.ram[d][vpn / NPTENTRIES];
    if e == ZERO then ZERO else m.ram[e.ppn][vpn % NPTENTRIES]
  }

  /** page_remove: an existing table with an empty slot still decrements frame 0. */
  function PageRemove(m: Phys, d: nat, vpn: nat): Phys
    requires Walkable(m, d, vpn)
  {
    var e := m.ram[d][vpn / NPTENTRIES];
    if e == ZERO then m
    else
      SetEntry(PageDecref(m, m.ram[e.ppn][vpn % NPTENTRIES].ppn), e.ppn, vpn % NPTENTRIES, ZERO)
  }

  function WithPresent(perm: nat): nat { if perm % 2 == 1 then perm else perm + 1 }

  /** The part of page_insert after the walk: count the new reference, drop the old page,
      write the entry. */
  function MapSlot(m: Phys, d: nat, pp: nat, vpn: nat, perm: nat): Phys
    requires Walkable(m, d, vpn) && pp < |m.ram| && m.ram[d][vpn / NPTENTRIES] != ZERO
  {
    var t := m.ram[d][vpn / NPTENTRIES].ppn;
    var j := vpn % NPTENTRIES;
    var m2 := Incref(m, pp);
    var m3 := if m2.ram[t][j].ppn != 0 then PageRemove(m2, d, vpn) else m2;
    SetEntry(m3, t, j, Pte(pp, WithPresent(perm)))
  }

  /** page_insert: None when the page table could not be allocated. */
  function PageInsert(m: Phys, d: nat, pp: nat, vpn: nat, perm: nat): Option<Phys>
    requires Walkable(m, d, vpn) && pp < |m.ram|
  {
    match WalkCreate(m, d, vpn)
    case None => None
    case Some(m1) =>
      WalkCreateWalkable(m, d, vpn);
      Some(MapSlot(m1, d, pp, vpn, perm))
  }

  lemma WalkCreateWalkable(m: Phys, d: nat, vpn: nat)
    requires Walkable(m, d, vpn) && WalkCreate(m, d, vpn).Some?
    ensures var m1 := WalkCreate(m, d, vpn).value;
            Walkable(m1, d, vpn) && |m1.ram| == |m.ram| && m1.ram[d][vpn / NPTENTRIES] != ZERO
  {
  }
}
