/** Copy-on-write fork (src/fork.c) as a system of environments that interleave at the
    granularity of single system calls, single stores and single copied bytes, and the
    eager-copy machine that it implements. */
module Cow {

  import opened Words

  /** Page numbers of USTACKTOP, of the exception stack and of PFTEMP. */
  const USTACKTOP_PN: nat := 0xEEBFE
  const UXSTACK_PN: nat := 0xEEBFF
  const PFTEMP_PN: nat := 0x7FF

  type Page = p: seq<bv8> | |p| == PGSIZE witness seq(PGSIZE, _ => 0)

  function ZeroPage(): (p: Page)
    ensures forall i :: 0 <= i < PGSIZE ==> p[i] == 0
  {
    seq(PGSIZE, _ => 0)
  }

  /** The software-visible bits of a user mapping; PTE_P and PTE_U are always set. */
  datatype Perm = Perm(w: bool, cow: bool, share: bool)
  datatype Mapping = Mapping(frame: nat, perm: Perm)
  datatype Key = Key(e: nat, v: nat)

  /** Where a duppage of a private writable or copy-on-write page stands: the child is mapped
      but the parent is not yet remapped. `Aliased`: the parent could still write the frame
      when the child got it. */
  datatype Phase = Start | Aliased | Snapshot
  datatype Forking = Forking(child: nat, pn: nat, phase: Phase)
  /** Where pgfault stands: copying into PFTEMP, or remapped and about to unmap PFTEMP. */
  datatype Faulting = Copying(v: nat, k: nat) | Remapped(v: nat)

  datatype Sys = Sys(
    frames: map<nat, Page>,
    space: map<Key, Mapping>,
    forks: map<nat, Forking>,
    faults: map<nat, Faulting>,
    envs: set<nat>,
    blocked: set<nat>)

  const RO := Perm(false, false, false)
  const RW := Perm(true, false, false)
  const COW := Perm(false, true, false)
  /** PTE_SHARE | PTE_SYSCALL sets every available bit and PTE_W. */
  const SHARED := Perm(true, true, true)

  // ---- steps -------------------------------------------------------------------------

  datatype Op =
    | Alloc(e: nat, v: nat, perm: Perm, f: nat)
    | Unmap(e: nat, v: nat)
    | Store(e: nat, v: nat, off: nat, b: bv8)
    | Exit(e: nat)
    | FaultAlloc(e: nat, v: nat, f: nat)
    | FaultCopy(e: nat)
    | FaultMap(e: nat)
    | FaultUnmap(e: nat)
    | ForkBegin(e: nat, c: nat)
    | DupSkip(e: nat)
    | DupShare(e: nat)
    | DupReadOnly(e: nat)
    | DupCowChild(e: nat)
    | DupCowSelf(e: nat)
    | ForkEnd(e: nat, f: nat)

  ghost predicate Fresh(s: Sys, f: nat) { forall k :: k in s.space ==> s.space[k].frame != f }

  predicate Running(s: Sys, e: nat) { e in s.envs && e !in s.blocked }

  /** The environment executes its own code, not fork's or pgfault's. */
  predicate Idle(s: Sys, e: nat) { Running(s, e) && e !in s.forks && e !in s.faults }

  predicate Dups(s: Sys, e: nat, phase: Phase) {
    && Running(s, e) && e in s.forks && e !in s.faults
    && s.forks[e].phase == phase && s.forks[e].pn < USTACKTOP_PN
  }

  predicate DupsMapped(s: Sys, e: nat, phase: Phase) {
    Dups(s, e, phase) && Key(e, s.forks[e].pn) in s.space
  }

  ghost predicate Enabled(s: Sys, op: Op) {
    match op
    case Alloc(e, v, perm, f) => Idle(s, e) && v != PFTEMP_PN && (perm.share ==> perm.w) && Fresh(s, f)
    case Unmap(e, v) => Idle(s, e) && v != PFTEMP_PN && Key(e, v) in s.space
    case Store(e, v, off, b) =>
      && Running(s, e) && v != PFTEMP_PN && off < PGSIZE
      && Key(e, v) in s.space && s.space[Key(e, v)].perm.w && s.space[Key(e, v)].frame in s.frames
    case Exit(e) => Idle(s, e)
    case FaultAlloc(e, v, f) =>
      && Running(s, e) && e !in s.faults && v != PFTEMP_PN && Fresh(s, f)
      && Key(e, v) in s.space && !s.space[Key(e, v)].perm.w
    case FaultCopy(e) =>
      && Running(s, e) && e in s.faults && s.faults[e].Copying? && s.faults[e].k < PGSIZE
      && Key(e, s.faults[e].v) in s.space && s.space[Key(e, s.faults[e].v)].frame in s.frames
      && Key(e, PFTEMP_PN) in s.space && s.space[Key(e, PFTEMP_PN)].frame in s.frames
    case FaultMap(e) =>
      && Running(s, e) && e in s.faults && s.faults[e].Copying? && s.faults[e].k == PGSIZE
      && Key(e, PFTEMP_PN) in s.space
    case FaultUnmap(e) => Running(s, e) && e in s.faults && s.faults[e].Remapped?
    case ForkBegin(e, c) => Idle(s, e) && c !in s.envs
    case DupSkip(e) => Dups(s, e, Start) && Key(e, s.forks[e].pn) !in s.space
    case DupShare(e) => DupsMapped(s, e, Start) && s.space[Key(e, s.forks[e].pn)].perm.share
    case DupReadOnly(e) =>
      && DupsMapped(s, e, Start)
      && var p := s.space[Key(e, s.forks[e].pn)].perm; !p.share && !p.w && !p.cow
    case DupCowChild(e) =>
      && DupsMapped(s, e, Start)
      && var p := s.space[Key(e, s.forks[e].pn)].perm; !p.share && (p.w || p.cow)
    case DupCowSelf(e) => DupsMapped(s, e, Aliased) || DupsMapped(s, e, Snapshot)
    case ForkEnd(e, f) =>
      && Running(s, e) && e in s.forks && e !in s.faults
      && s.forks[e].pn == USTACKTOP_PN && s.forks[e].phase == Start && Fresh(s, f)
  }

  function Map(s: Sys, k: Key, m: Mapping): Sys { s.(space := s.space[k := m]) }

  /** Next page of fork's loop. */
  function Advance(s: Sys, e: nat): Sys
    requires e in s.forks
  {
    s.(forks := s.forks[e := s.forks[e].(pn := s.forks[e].pn + 1, phase := Start)])
  }

  function WithByte(p: Page, off: nat, b: bv8): Page
    requires off < PGSIZE
  {
    p[off := b]
  }

  function Step(s: Sys, op: Op): Sys
    requires Enabled(s, op)
  {
    match op
    case Alloc(e, v, perm, f) => Map(s.(frames := s.frames[f := ZeroPage()]), Key(e, v), Mapping(f, perm))
    case Unmap(e, v) => s.(space := s.space - {Key(e, v)})
    case Store(e, v, off, b) =>
      var f := s.space[Key(e, v)].frame;
      s.(frames := s.frames[f := WithByte(s.frames[f], off, b)])
    case Exit(e) => s.(space := map k | k in s.space && k.e != e :: s.space[k], envs := s.envs - {e})
    case FaultAlloc(e, v, f) =>
      Map(s.(frames := s.frames[f := ZeroPage()], faults := s.faults[e := Copying(v, 0)]),
          Key(e, PFTEMP_PN), Mapping(f, RW))
    case FaultCopy(e) =>
      var Copying(v, k) := s.faults[e];
      var src, dst := s.space[Key(e, v)].frame, s.space[Key(e, PFTEMP_PN)].frame;
      s.(frames := s.frames[dst := WithByte(s.frames[dst], k, s.frames[src][k])],
         faults := s.faults[e := Copying(v, k + 1)])
    case FaultMap(e) =>
      var v := s.faults[e].v;
      Map(s.(faults := s.faults[e := Remapped(v)]), Key(e, v), Mapping(s.space[Key(e, PFTEMP_PN)].frame, RW))
    case FaultUnmap(e) => s.(space := s.space - {Key(e, PFTEMP_PN)}, faults := s.faults - {e})
    case ForkBegin(e, c) =>
      s.(forks := s.forks[e := Forking(c, 0, Start)], envs := s.envs + {c}, blocked := s.blocked + {c})
    case DupSkip(e) => Advance(s, e)
    case DupShare(e) => DupTo(Advance(s, e), s.forks[e], e, SHARED)
    case DupReadOnly(e) => DupTo(Advance(s, e), s.forks[e], e, RO)
    case DupCowChild(e) =>
      var fk := s.forks[e];
      var phase := if s.space[Key(e, fk.pn)].perm.w then Aliased else Snapshot;
      DupTo(s.(forks := s.forks[e := fk.(phase := phase)]), fk, e, COW)
    case DupCowSelf(e) =>
      var k := Key(e, s.forks[e].pn);
      Map(Advance(s, e), k, Mapping(s.space[k].frame, COW))
    case ForkEnd(e, f) =>
      var c := s.forks[e].child;
      Map(s.(frames := s.frames[f := ZeroPage()], forks := s.forks - {e}, blocked := s.blocked - {c}),
          Key(c, UXSTACK_PN), Mapping(f, RW))
  }

  /** sys_page_map of the current page to the child at the same address. */
  function DupTo(s: Sys, fk: Forking, e: nat, perm: Perm): Sys
    requires Key(e, fk.pn) in s.space
  {
    Map(s, Key(fk.child, fk.pn), Mapping(s.space[Key(e, fk.pn)].frame, perm))
  }

  // ---- the invariant --------------------------------------------------------------------

  /** `k'` is the child's view of a page its parent `k` can still write. */
  ghost predicate Alias(s: Sys, k: Key, k': Key) {
    k.e in s.forks && s.forks[k.e] == Forking(k'.e, k.v, Aliased) && k'.v == k.v
  }

  /** `k` is PFTEMP and `k'` the page being resolved, both naming the private copy. */
  ghost predicate Temp(s: Sys, k: Key, k': Key) {
    k.e in s.faults && s.faults[k.e] == Remapped(k'.v) && k == Key(k'.e, PFTEMP_PN)
  }

  /** A second mapping `k'` of the frame behind `k`: shared pages are shared by everyone, and
      a private writable page has no other mapping except in the middle of an operation. */
  ghost predicate PairOk(s: Sys, k: Key, k': Key)
    requires k in s.space && k' in s.space
  {
    var p, p' := s.space[k].perm, s.space[k'].perm;
    && (p.share ==> p'.share)
    && (p.w && !p.share ==> Alias(s, k, k') || Temp(s, k, k') || Temp(s, k', k))
  }

  ghost predicate PairsOk(s: Sys) {
    forall k, k' :: k in s.space && k' in s.space && k != k' && s.space[k].frame == s.space[k'].frame ==>
      PairOk(s, k, k')
  }

  ghost predicate MappingsOk(s: Sys) {
    forall k :: k in s.space ==>
      && s.space[k].frame in s.frames && k.e in s.envs
      && (s.space[k].perm.share ==> s.space[k].perm.w)
      && (k.v == PFTEMP_PN ==> k.e in s.faults && !s.space[k].perm.share)
  }

  ghost predicate FaultOk(s: Sys, e: nat)
    requires e in s.faults
  {
    var v, temp := s.faults[e].v, Key(e, PFTEMP_PN);
    && Running(s, e) && v != PFTEMP_PN && Key(e, v) in s.space && temp in s.space
    && s.space[temp].perm == RW
    && s.space[Key(e, v)].frame in s.frames && s.space[temp].frame in s.frames
    && match s.faults[e]
       case Copying(_, k) =>
         && !s.space[Key(e, v)].perm.w && k <= PGSIZE
         && s.frames[s.space[temp].frame][..k] == s.frames[s.space[Key(e, v)].frame][..k]
       case Remapped(_) => s.space[Key(e, v)] == s.space[temp]
  }

  ghost predicate ForkOk(s: Sys, e: nat)
    requires e in s.forks
  {
    var fk := s.forks[e];
    && Running(s, e) && fk.child in s.blocked && fk.child in s.envs && fk.child !in s.forks
    && fk.pn <= USTACKTOP_PN && (fk.phase != Start ==> fk.pn < USTACKTOP_PN && fk.pn != PFTEMP_PN)
    && (forall k :: k in s.space && k.e == fk.child ==> k.v < fk.pn || (k.v == fk.pn && fk.phase != Start))
    && (fk.phase != Start ==> Key(e, fk.pn) in s.space && !s.space[Key(e, fk.pn)].perm.share)
    && (fk.phase == Aliased ==>
          && Key(fk.child, fk.pn) in s.space
          && s.space[Key(e, fk.pn)].perm.w && s.space[Key(fk.child, fk.pn)].perm == COW
          && s.space[Key(fk.child, fk.pn)].frame == s.space[Key(e, fk.pn)].frame)
  }

  ghost predicate TasksOk(s: Sys) {
    && (forall e :: e in s.faults ==> FaultOk(s, e))
    && (forall e :: e in s.forks ==> ForkOk(s, e))
    && (forall e, e' :: e in s.forks && e' in s.forks && e != e' ==> s.forks[e].child != s.forks[e'].child)
    && s.blocked <= s.envs
  }

  ghost predicate Inv(s: Sys) { MappingsOk(s) && PairsOk(s) && TasksOk(s) }

  // ---- the eager machine ------------------------------------------------------------------

  /** A page as a program sees it: its bytes, and the object it is part of if shared. */
  datatype Storage = Private | Object(id: nat)
  datatype Cell = Cell(data: Page, storage: Storage)

  type Memory = map<Key, Cell>

  datatype EagerOp =
    | New(k: Key, storage: Storage)
    | Drop(k: Key)
    | Write(k: Key, off: nat, b: bv8)
    | DropAll(e: nat)
    | Copy(src: Key, dst: Key)
    | Nothing

  predicate SameStorage(m: Memory, k: Key, k': Key)
    requires k in m && k' in m
  {
    k == k' || (m[k].storage.Object? && m[k'].storage == m[k].storage)
  }

  /** The eager machine: fork copies pages, and a store writes the storing environment's own
      page or the one shared object. */
  ghost function Eager(m: Memory, op: EagerOp): Memory {
    match op
    case New(k, storage) => m[k := Cell(ZeroPage(), storage)]
    case Drop(k) => m - {k}
    case Write(k, off, b) =>
      if k !in m || off >= PGSIZE then m
      else (map k' | k' in m ::
              if SameStorage(m, k, k') then m[k'].(data := WithByte(m[k'].data, off, b)) else m[k'])
    case DropAll(e) => map k | k in m && k.e != e :: m[k]
    case Copy(src, dst) => if src in m then m[dst := m[src]] else m
    case Nothing => m
  }

  function StorageOf(m: Mapping): Storage { if m.perm.share then Object(m.frame) else Private }

  ghost predicate Hidden(s: Sys, k: Key) {
    k.v == PFTEMP_PN || exists e :: e in s.forks && s.forks[e] == Forking(k.e, k.v, Aliased)
  }

  /** What the programs see: no PFTEMP, and a child's page only once it is the child's own. */
  ghost function Abs(s: Sys): Memory
    requires MappingsOk(s)
  {
    map k | k in s.space && !Hidden(s, k) :: Cell(s.frames[s.space[k].frame], StorageOf(s.space[k]))
  }

  /** Which eager operation a step performs. A private page that the parent could write is
      copied when the parent gives up its write permission, any other page when the child's
      mapping is made. */
  ghost function Label(s: Sys, op: Op): EagerOp
    requires Enabled(s, op)
  {
    match op
    case Alloc(e, v, perm, f) => New(Key(e, v), if perm.share then Object(f) else Private)
    case Unmap(e, v) => Drop(Key(e, v))
    case Store(e, v, off, b) => Write(Key(e, v), off, b)
    case Exit(e) => DropAll(e)
    case DupShare(e) => CopyOf(s, e)
    case DupReadOnly(e) => CopyOf(s, e)
    case DupCowChild(e) => if s.space[Key(e, s.forks[e].pn)].perm.w then Nothing else CopyOf(s, e)
    case DupCowSelf(e) => if s.forks[e].phase == Aliased then CopyOf(s, e) else Nothing
    case ForkEnd(e, f) => New(Key(s.forks[e].child, UXSTACK_PN), Private)
    case _ => Nothing
  }

  ghost function CopyOf(s: Sys, e: nat): EagerOp
    requires e in s.forks
  {
    Copy(Key(e, s.forks[e].pn), Key(s.forks[e].child, s.forks[e].pn))
  }
}
