/** Copy-on-write fork implements eager fork, one step at a time and over whole runs. */
module CowProofs {
  import opened Words
  import opened Cow

  ghost predicate SameFrame(s: Sys, k: Key, k': Key) {
    k in s.space && k' in s.space && k != k' && s.space[k].frame == s.space[k'].frame
  }

  // ---- facts about one state ------------------------------------------------------------

  lemma NotAChild(s: Sys, e: nat)
    requires Inv(s) && Running(s, e)
    ensures forall p :: p in s.forks ==> s.forks[p].child != e
  {
    assert forall p :: p in s.forks ==> ForkOk(s, p);
  }

  lemma ForkFacts(s: Sys, e: nat)
    requires Inv(s) && e in s.forks
    ensures ForkOk(s, e)
  {
  }

  /** While pgfault copies, the frame at PFTEMP has no other mapping. */
  lemma TempFrameAlone(s: Sys, e: nat, k: Key)
    requires Inv(s) && e in s.faults && s.faults[e].Copying?
    ensures Key(e, PFTEMP_PN) in s.space && !SameFrame(s, Key(e, PFTEMP_PN), k)
  {
    assert FaultOk(s, e);
    var temp := Key(e, PFTEMP_PN);
    assert e in s.forks ==> ForkOk(s, e);
    assert SameFrame(s, temp, k) ==> PairOk(s, temp, k);
  }

  /** A running environment outside pgfault: its private writable pages are its own, and any
      page it maps privately is written by nobody else. */
  lemma NoForeignWriter(s: Sys, k: Key, own: Key)
    requires Inv(s) && Running(s, own.e) && own.e !in s.faults && SameFrame(s, k, own)
    requires !s.space[own].perm.share
    ensures !s.space[k].perm.share && !s.space[k].perm.w
  {
    assert PairOk(s, k, own);
    NotAChild(s, own.e);
  }

  // ---- mappings of one frame ------------------------------------------------------------

  lemma PairSameSpace(s: Sys, op: Op, k: Key, k': Key)
    requires Inv(s) && Enabled(s, op) && (op.Store? || op.FaultCopy? || op.ForkBegin? || op.DupSkip?)
    requires SameFrame(Step(s, op), k, k')
    ensures PairOk(Step(s, op), k, k')
  {
    hide TasksOk, MappingsOk;
    assert PairOk(s, k, k');
  }

  lemma PairFewer(s: Sys, op: Op, k: Key, k': Key)
    requires Inv(s) && Enabled(s, op) && (op.Unmap? || op.Exit? || op.FaultUnmap?)
    requires SameFrame(Step(s, op), k, k')
    ensures PairOk(Step(s, op), k, k')
  {
    hide TasksOk, MappingsOk;
    assert PairOk(s, k, k');
  }

  lemma PairFresh(s: Sys, op: Op, k: Key, k': Key)
    requires Inv(s) && Enabled(s, op) && (op.Alloc? || op.FaultAlloc? || op.ForkEnd?)
    requires SameFrame(Step(s, op), k, k')
    ensures PairOk(Step(s, op), k, k')
  {
    hide TasksOk, MappingsOk;
    assert PairOk(s, k, k');
  }

  lemma PairDup(s: Sys, op: Op, k: Key, k': Key)
    requires Inv(s) && Enabled(s, op) && (op.DupShare? || op.DupReadOnly? || op.DupCowChild?)
    requires SameFrame(Step(s, op), k, k')
    ensures PairOk(Step(s, op), k, k')
  {
    var own := Key(op.e, s.forks[op.e].pn);
    var theirs := Key(s.forks[op.e].child, s.forks[op.e].pn);
    assert ForkOk(s, op.e);
    if k != theirs && k' != theirs {
      assert PairOk(s, k, k');
    } else if k == theirs {
      if k' != own { assert PairOk(s, own, k'); }
    } else if k != own {
      assert PairOk(s, own, k) && PairOk(s, k, own);
      if !op.DupShare? { NoForeignWriter(s, k, own); }
    }
  }

  lemma PairCowSelf(s: Sys, op: Op, k: Key, k': Key)
    requires Inv(s) && Enabled(s, op) && op.DupCowSelf?
    requires SameFrame(Step(s, op), k, k')
    ensures PairOk(Step(s, op), k, k')
  {
    var own := Key(op.e, s.forks[op.e].pn);
    assert ForkOk(s, op.e);
    assert PairOk(s, k, k');
    if k' == own { NoForeignWriter(s, k, own); }
  }

  lemma PairFaultMap(s: Sys, op: Op, k: Key, k': Key)
    requires Inv(s) && Enabled(s, op) && op.FaultMap?
    requires SameFrame(Step(s, op), k, k')
    ensures PairOk(Step(s, op), k, k')
  {
    var v := s.faults[op.e].v;
    assert FaultOk(s, op.e);
    if k == Key(op.e, v) {
      TempFrameAlone(s, op.e, k');
    } else if k' == Key(op.e, v) {
      TempFrameAlone(s, op.e, k);
    } else {
      assert PairOk(s, k, k');
    }
  }

  lemma PairsKept(s: Sys, op: Op)
    requires Inv(s) && Enabled(s, op)
    ensures PairsOk(Step(s, op))
  {
    hide Inv, PairOk;
    forall k, k' | SameFrame(Step(s, op), k, k')
      ensures PairOk(Step(s, op), k, k')
    {
      match op
      case Alloc(_, _, _, _) => PairFresh(s, op, k, k');
      case Unmap(_, _) => PairFewer(s, op, k, k');
      case Store(_, _, _, _) => PairSameSpace(s, op, k, k');
      case Exit(_) => PairFewer(s, op, k, k');
      case FaultAlloc(_, _, _) => PairFresh(s, op, k, k');
      case FaultCopy(_) => PairSameSpace(s, op, k, k');
      case FaultMap(_) => PairFaultMap(s, op, k, k');
      case FaultUnmap(_) => PairFewer(s, op, k, k');
      case ForkBegin(_, _) => PairSameSpace(s, op, k, k');
      case DupSkip(_) => PairSameSpace(s, op, k, k');
      case DupShare(_) => PairDup(s, op, k, k');
      case DupReadOnly(_) => PairDup(s, op, k, k');
      case DupCowChild(_) => PairDup(s, op, k, k');
      case DupCowSelf(_) => PairCowSelf(s, op, k, k');
      case ForkEnd(_, _) => PairFresh(s, op, k, k');
    }
  }

  // ---- mappings, forks and faults in progress -----------------------------------------------

  lemma MappingsKept(s: Sys, op: Op)
    requires Inv(s) && Enabled(s, op)
    ensures MappingsOk(Step(s, op))
  {
    hide PairsOk;
  }

  /** A store never touches the page another environment is copying from or into. */
  lemma FaultStore(s: Sys, op: Op, e: nat)
    requires Inv(s) && Enabled(s, op) && op.Store? && e in s.faults
    ensures FaultOk(Step(s, op), e)
  {
    assert FaultOk(s, e);
    var src, temp, dst := Key(e, s.faults[e].v), Key(e, PFTEMP_PN), Key(op.e, op.v);
    if s.faults[e].Copying? {
      TempFrameAlone(s, e, dst);
      SourceNotWritten(s, e, dst);
    }
  }

  /** Nobody can write the page pgfault copies from. */
  lemma SourceNotWritten(s: Sys, e: nat, k: Key)
    requires Inv(s) && e in s.faults && s.faults[e].Copying? && k in s.space && s.space[k].perm.w
    ensures Key(e, s.faults[e].v) in s.space && s.space[k].frame != s.space[Key(e, s.faults[e].v)].frame
  {
    assert FaultOk(s, e);
    var src := Key(e, s.faults[e].v);
    NotAChild(s, e);
    assert SameFrame(s, k, src) ==> PairOk(s, k, src);
  }

  lemma FaultCopy(s: Sys, op: Op, e: nat)
    requires Inv(s) && Enabled(s, op) && op.FaultCopy? && e in s.faults
    ensures FaultOk(Step(s, op), e)
  {
    assert FaultOk(s, e) && FaultOk(s, op.e);
    var temp := Key(op.e, PFTEMP_PN);
    TempFrameAlone(s, op.e, Key(e, s.faults[e].v));
    TempFrameAlone(s, op.e, Key(e, PFTEMP_PN));
    if e == op.e {
      var k := s.faults[e].k;
      var src, dst := s.frames[s.space[Key(e, s.faults[e].v)].frame], s.frames[s.space[temp].frame];
      assert WithByte(dst, k, src[k])[..k + 1] == dst[..k] + [src[k]];
      assert src[..k + 1] == src[..k] + [src[k]];
    }
  }

  predicate IsMemoryOp(op: Op) { op.Alloc? || op.Unmap? || op.Store? || op.Exit? }

  predicate IsFaultOp(op: Op) { op.FaultAlloc? || op.FaultCopy? || op.FaultMap? || op.FaultUnmap? }

  lemma FaultKept(s: Sys, op: Op, e: nat)
    requires Inv(s) && Enabled(s, op) && e in Step(s, op).faults
    ensures FaultOk(Step(s, op), e)
  {
    if op.Store? {
      FaultStore(s, op, e);
    } else if op.FaultCopy? {
      FaultCopy(s, op, e);
    } else if IsMemoryOp(op) || IsFaultOp(op) {
      FaultKeptByOwn(s, op, e);
    } else {
      FaultKeptByFork(s, op, e);
    }
  }

  lemma FaultKeptByOwn(s: Sys, op: Op, e: nat)
    requires Inv(s) && Enabled(s, op) && (IsMemoryOp(op) || IsFaultOp(op)) && !op.Store? && !op.FaultCopy?
    requires e in Step(s, op).faults
    ensures FaultOk(Step(s, op), e)
  {
    hide PairsOk;
    assert e in s.faults ==> FaultOk(s, e);
  }

  /** The environment that fork is building, or is about to build. */
  function ChildOf(s: Sys, op: Op): nat
    requires !IsMemoryOp(op) && !IsFaultOp(op) && (op.ForkBegin? || op.e in s.forks)
  {
    if op.ForkBegin? then op.c else s.forks[op.e].child
  }

  /** A step of fork touches only the pages of the parent and of its child, no frame that is
      mapped, and no other fork or fault. */
  lemma ForkStepFrame(s: Sys, op: Op)
    requires Enabled(s, op) && !IsMemoryOp(op) && !IsFaultOp(op)
    ensures var s' := Step(s, op);
            && (forall k: Key :: k.e != op.e && k.e != ChildOf(s, op) ==>
                  (k in s'.space <==> k in s.space) && (k in s.space ==> s'.space[k] == s.space[k]))
            && (forall k :: k in s.space && s.space[k].frame in s.frames ==>
                  s.space[k].frame in s'.frames && s'.frames[s.space[k].frame] == s.frames[s.space[k].frame])
            && s'.faults == s.faults
            && (forall e :: e != op.e ==>
                  (e in s'.forks <==> e in s.forks) && (e in s.forks ==> s'.forks[e] == s.forks[e]))
            && s'.envs - {ChildOf(s, op)} == s.envs - {ChildOf(s, op)}
            && s'.blocked - {ChildOf(s, op)} == s.blocked - {ChildOf(s, op)}
  {
  }

  lemma FaultKeptByFork(s: Sys, op: Op, e: nat)
    requires Inv(s) && Enabled(s, op) && !IsMemoryOp(op) && !IsFaultOp(op) && e in Step(s, op).faults
    ensures FaultOk(Step(s, op), e)
  {
    ForkStepFrame(s, op);
    FaultElsewhere(s, op, e);
    hide Step, Enabled, Inv;
    assert FaultOk(Step(s, op), e);
  }

  lemma FaultElsewhere(s: Sys, op: Op, e: nat)
    requires Inv(s) && Enabled(s, op) && !IsMemoryOp(op) && !IsFaultOp(op) && e in s.faults
    ensures FaultOk(s, e) && e != op.e && e != ChildOf(s, op)
  {
    hide PairsOk, MappingsOk;
    assert op.e in s.forks ==> ForkOk(s, op.e);
  }

  lemma ForkKept(s: Sys, op: Op, e: nat)
    requires Inv(s) && Enabled(s, op) && e in Step(s, op).forks
    ensures ForkOk(Step(s, op), e)
  {
    hide Inv, ForkOk;
    if IsMemoryOp(op) {
      ForkKeptByMemory(s, op, e);
    } else if IsFaultOp(op) {
      ForkKeptByFault(s, op, e);
    } else if op.e == e {
      ForkKeptByItself(s, op);
    } else {
      ForkKeptByOther(s, op, e);
    }
  }

  lemma ForkKeptByMemory(s: Sys, op: Op, e: nat)
    requires Inv(s) && Enabled(s, op) && IsMemoryOp(op) && e in s.forks
    ensures ForkOk(Step(s, op), e)
  {
    hide PairsOk, FaultOk;
    assert ForkOk(s, e);
  }

  lemma ForkKeptByFault(s: Sys, op: Op, e: nat)
    requires Inv(s) && Enabled(s, op) && IsFaultOp(op) && e in s.forks
    ensures ForkOk(Step(s, op), e)
  {
    hide PairsOk;
    assert ForkOk(s, e);
    assert op.e in s.faults ==> FaultOk(s, op.e);
  }

  lemma ForkKeptByItself(s: Sys, op: Op)
    requires Inv(s) && Enabled(s, op) && !IsMemoryOp(op) && !IsFaultOp(op) && op.e in Step(s, op).forks
    ensures ForkOk(Step(s, op), op.e)
  {
    hide PairsOk, FaultOk;
    assert op.e in s.forks ==> ForkOk(s, op.e);
    assert op.ForkBegin? ==> forall p :: p in s.forks ==> ForkOk(s, p);
  }

  lemma ForkKeptByOther(s: Sys, op: Op, e: nat)
    requires Inv(s) && Enabled(s, op) && !IsMemoryOp(op) && !IsFaultOp(op) && op.e != e && e in Step(s, op).forks
    ensures ForkOk(Step(s, op), e)
  {
    ForkStepFrame(s, op);
    OtherChild(s, op, e);
    hide Step, Enabled, Inv;
    assert ForkOk(Step(s, op), e);
  }

  /** Two forks in progress involve four different environments. */
  lemma OtherChild(s: Sys, op: Op, e: nat)
    requires Inv(s) && Enabled(s, op) && !IsMemoryOp(op) && !IsFaultOp(op) && e in s.forks && op.e != e
    ensures ForkOk(s, e) && s.forks[e].child != op.e
    ensures ChildOf(s, op) != e && ChildOf(s, op) != s.forks[e].child
  {
    hide PairsOk, MappingsOk, FaultOk;
    ForkFacts(s, e);
    if op.e in s.forks {
      ForkFacts(s, op.e);
    }
  }

  lemma OneParent(s: Sys, op: Op, e: nat, e': nat)
    requires Inv(s) && Enabled(s, op) && e in Step(s, op).forks && e' in Step(s, op).forks && e != e'
    ensures Step(s, op).forks[e].child != Step(s, op).forks[e'].child
  {
    hide PairsOk, MappingsOk, FaultOk;
    assert forall p :: p in s.forks ==> ForkOk(s, p);
  }

  lemma BlockedKept(s: Sys, op: Op)
    requires Inv(s) && Enabled(s, op)
    ensures Step(s, op).blocked <= Step(s, op).envs
  {
    hide PairsOk, MappingsOk, FaultOk, ForkOk;
  }

  lemma TasksKept(s: Sys, op: Op)
    requires Inv(s) && Enabled(s, op)
    ensures TasksOk(Step(s, op))
  {
    hide Inv, FaultOk, ForkOk, Step;
    var s' := Step(s, op);
    forall e | e in s'.faults ensures FaultOk(s', e) { FaultKept(s, op, e); }
    forall e | e in s'.forks ensures ForkOk(s', e) { ForkKept(s, op, e); }
    forall e, e' | e in s'.forks && e' in s'.forks && e != e'
      ensures s'.forks[e].child != s'.forks[e'].child
    {
      OneParent(s, op, e, e');
    }
    BlockedKept(s, op);
  }

  /** Every step keeps the invariant. */
  lemma StepKeepsInv(s: Sys, op: Op)
    requires Inv(s) && Enabled(s, op)
    ensures Inv(Step(s, op))
  {
    hide MappingsOk, PairsOk, TasksOk;
    MappingsKept(s, op);
    PairsKept(s, op);
    TasksKept(s, op);
  }

  // ---- the simulation -------------------------------------------------------------------------

  ghost predicate SeenAs(s: Sys, m: Memory, k: Key)
    requires MappingsOk(s)
  {
    if k in s.space && !Hidden(s, k) then k in m && m[k] == Cell(s.frames[s.space[k].frame], StorageOf(s.space[k]))
    else k !in m
  }

  /** One key of the simulation: the programs see after the step what the eager machine has. */
  ghost predicate SimulatedAt(s: Sys, op: Op, k: Key)
    requires Inv(s) && Enabled(s, op)
  {
    MappingsOk(Step(s, op)) && SeenAs(Step(s, op), Eager(Abs(s), Label(s, op)), k)
  }

  lemma SimMemory(s: Sys, op: Op, k: Key)
    requires Inv(s) && Enabled(s, op) && (op.Alloc? || op.Unmap? || op.Exit?)
    ensures SimulatedAt(s, op, k)
  {
    hide PairsOk, TasksOk;
    MappingsKept(s, op);
    NotAChild(s, op.e);
  }

  lemma SimStore(s: Sys, op: Op, k: Key)
    requires Inv(s) && Enabled(s, op) && op.Store?
    ensures SimulatedAt(s, op, k)
  {
    MappingsKept(s, op);
    NotAChild(s, op.e);
    var own := Key(op.e, op.v);
    assert own in Abs(s);
    if SameFrame(s, own, k) {
      assert PairOk(s, own, k);
    }
  }

  /** The new page has the bytes of the old one when it takes its place. */
  lemma SimFaultMap(s: Sys, op: Op, k: Key)
    requires Inv(s) && Enabled(s, op) && op.FaultMap?
    ensures SimulatedAt(s, op, k)
  {
    hide PairsOk, TasksOk;
    MappingsKept(s, op);
    FaultFacts(s, op.e);
    var src, dst := s.frames[s.space[Key(op.e, s.faults[op.e].v)].frame], s.frames[s.space[Key(op.e, PFTEMP_PN)].frame];
    assert src[..PGSIZE] == src && dst[..PGSIZE] == dst;
  }

  lemma FaultFacts(s: Sys, e: nat)
    requires Inv(s) && e in s.faults
    ensures FaultOk(s, e)
  {
  }

  lemma SimFaultRest(s: Sys, op: Op, k: Key)
    requires Inv(s) && Enabled(s, op) && IsFaultOp(op) && !op.FaultMap?
    ensures SimulatedAt(s, op, k)
  {
    hide SimulatedAt, Inv;
    if op.FaultCopy? {
      SimFaultCopy(s, op, k);
    } else {
      SimFaultTemp(s, op, k);
    }
  }

  lemma SimFaultCopy(s: Sys, op: Op, k: Key)
    requires Inv(s) && Enabled(s, op) && op.FaultCopy?
    ensures SimulatedAt(s, op, k)
  {
    hide PairsOk, TasksOk;
    MappingsKept(s, op);
    TempFrameAlone(s, op.e, k);
  }

  lemma SimFaultTemp(s: Sys, op: Op, k: Key)
    requires Inv(s) && Enabled(s, op) && (op.FaultAlloc? || op.FaultUnmap?)
    ensures SimulatedAt(s, op, k)
  {
    hide PairsOk, TasksOk;
    MappingsKept(s, op);
  }

  /** Which of the parent's and child's pages are hidden around one step of fork. */
  lemma HiddenInFork(s: Sys, op: Op, k: Key)
    requires Inv(s) && Enabled(s, op) && !IsMemoryOp(op) && !IsFaultOp(op)
    ensures op.e in s.forks ==> !Hidden(s, Key(op.e, s.forks[op.e].pn)) || s.forks[op.e].pn == PFTEMP_PN
    ensures op.DupCowSelf? || (op.DupCowChild? && s.space[Key(op.e, s.forks[op.e].pn)].perm.w) ||
            (Hidden(Step(s, op), k) <==> Hidden(s, k))
    ensures op.DupCowSelf? || op.DupCowChild? ==>
            (k != Key(s.forks[op.e].child, s.forks[op.e].pn) ==> (Hidden(Step(s, op), k) <==> Hidden(s, k)))
    ensures op.DupCowSelf? ==> !Hidden(Step(s, op), Key(s.forks[op.e].child, s.forks[op.e].pn))
    ensures op.DupCowChild? && s.space[Key(op.e, s.forks[op.e].pn)].perm.w ==>
              Hidden(Step(s, op), Key(s.forks[op.e].child, s.forks[op.e].pn))
  {
    NotAChild(s, op.e);
    if op.e in s.forks {
      ForkFacts(s, op.e);
    }
    ForkStepFrame(s, op);
    OwnForkAfter(s, op);
    hide Inv, Step;
    var s' := Step(s, op);
    if op.e in s'.forks && s'.forks[op.e].phase == Aliased {
      assert s'.forks[op.e] == Forking(s.forks[op.e].child, s.forks[op.e].pn, Aliased);
    }
  }

  lemma OwnForkAfter(s: Sys, op: Op)
    requires Enabled(s, op) && !IsMemoryOp(op) && !IsFaultOp(op)
    ensures var s' := Step(s, op);
            if op.DupCowChild? && s.space[Key(op.e, s.forks[op.e].pn)].perm.w
            then op.e in s'.forks && s'.forks[op.e] == Forking(s.forks[op.e].child, s.forks[op.e].pn, Aliased)
            else op.e in s'.forks ==> s'.forks[op.e].phase != Aliased
    ensures op.e in s.forks && !op.DupCowSelf? ==> s.forks[op.e].phase != Aliased
  {
  }

  lemma HiddenTemp(s: Sys)
    ensures forall k: Key :: k.v == PFTEMP_PN ==> Hidden(s, k)
  {
  }

  lemma SimForkIdle(s: Sys, op: Op, k: Key)
    requires Inv(s) && Enabled(s, op) && (op.ForkBegin? || op.DupSkip?)
    ensures SimulatedAt(s, op, k)
  {
    hide PairsOk, TasksOk, Hidden;
    MappingsKept(s, op);
    HiddenInFork(s, op, k);
  }

  lemma SimForkEnd(s: Sys, op: Op, k: Key)
    requires Inv(s) && Enabled(s, op) && op.ForkEnd?
    ensures SimulatedAt(s, op, k)
  {
    hide PairsOk, TasksOk, Hidden;
    MappingsKept(s, op);
    HiddenInFork(s, op, k);
    ForkFacts(s, op.e);
    NotHiddenAbove(s, s.forks[op.e].child);
  }

  /** No page at the exception stack is ever half duplicated. */
  lemma NotHiddenAbove(s: Sys, e: nat)
    requires Inv(s)
    ensures !Hidden(s, Key(e, UXSTACK_PN))
  {
    assert forall p :: p in s.forks ==> ForkOk(s, p);
  }

  lemma SimDup(s: Sys, op: Op, k: Key)
    requires Inv(s) && Enabled(s, op) && (op.DupShare? || op.DupReadOnly? || op.DupCowChild?)
    ensures SimulatedAt(s, op, k)
  {
    hide SimulatedAt, Inv;
    if op.DupShare? {
      SimDupShare(s, op, k);
    } else if op.DupReadOnly? {
      SimDupReadOnly(s, op, k);
    } else {
      SimDupCowChild(s, op, k);
    }
  }

  lemma SimDupShare(s: Sys, op: Op, k: Key)
    requires Inv(s) && Enabled(s, op) && op.DupShare?
    ensures SimulatedAt(s, op, k)
  {
    hide PairsOk, TasksOk, Hidden;
    MappingsKept(s, op);
    HiddenInFork(s, op, k);
    HiddenTemp(s);
    HiddenTemp(Step(s, op));
    ForkFacts(s, op.e);
    OneHiddenPage(s, op.e);
  }

  lemma SimDupReadOnly(s: Sys, op: Op, k: Key)
    requires Inv(s) && Enabled(s, op) && op.DupReadOnly?
    ensures SimulatedAt(s, op, k)
  {
    hide PairsOk, TasksOk, Hidden;
    MappingsKept(s, op);
    HiddenInFork(s, op, k);
    HiddenTemp(s);
    HiddenTemp(Step(s, op));
    ForkFacts(s, op.e);
    OneHiddenPage(s, op.e);
  }

  lemma SimDupCowChild(s: Sys, op: Op, k: Key)
    requires Inv(s) && Enabled(s, op) && op.DupCowChild?
    ensures SimulatedAt(s, op, k)
  {
    hide PairsOk, TasksOk, Hidden;
    MappingsKept(s, op);
    HiddenInFork(s, op, k);
    HiddenTemp(s);
    HiddenTemp(Step(s, op));
    ForkFacts(s, op.e);
    OneHiddenPage(s, op.e);
  }

  /** A child page that fork has not started on is not hidden by another fork. */
  lemma OneHiddenPage(s: Sys, e: nat)
    requires Inv(s) && e in s.forks && s.forks[e].phase != Aliased && s.forks[e].pn != PFTEMP_PN
    ensures !Hidden(s, Key(s.forks[e].child, s.forks[e].pn))
  {
  }

  lemma SimCowSelf(s: Sys, op: Op, k: Key)
    requires Inv(s) && Enabled(s, op) && op.DupCowSelf?
    ensures SimulatedAt(s, op, k)
  {
    hide PairsOk, TasksOk, Hidden;
    MappingsKept(s, op);
    HiddenInFork(s, op, k);
    HiddenTemp(s);
    HiddenTemp(Step(s, op));
    ForkFacts(s, op.e);
    if s.forks[op.e].phase != Aliased {
      OneHiddenPage(s, op.e);
    }
  }

  /** One step of copy-on-write is one step of the eager machine. */
  lemma StepSimulates(s: Sys, op: Op)
    requires Inv(s) && Enabled(s, op)
    ensures Inv(Step(s, op))
    ensures Abs(Step(s, op)) == Eager(Abs(s), Label(s, op))
  {
    StepKeepsInv(s, op);
    hide Inv, Step, Eager, Label;
    var s', m' := Step(s, op), Eager(Abs(s), Label(s, op));
    forall k
      ensures SeenAs(s', m', k)
    {
      if op.Store? { SimStore(s, op, k); }
      else if IsMemoryOp(op) { SimMemory(s, op, k); }
      else if op.FaultMap? { SimFaultMap(s, op, k); }
      else if IsFaultOp(op) { SimFaultRest(s, op, k); }
      else if op.DupCowSelf? { SimCowSelf(s, op, k); }
      else if op.ForkBegin? || op.DupSkip? { SimForkIdle(s, op, k); }
      else if op.ForkEnd? { SimForkEnd(s, op, k); }
      else { SimDup(s, op, k); }
    }
    SeenEverywhere(s', m');
  }

  lemma SeenEverywhere(s: Sys, m: Memory)
    requires MappingsOk(s) && forall k :: SeenAs(s, m, k)
    ensures Abs(s) == m
  {
    forall k
      ensures k in Abs(s) <==> k in m
      ensures k in m ==> Abs(s)[k] == m[k]
    {
      assert SeenAs(s, m, k);
    }
  }
}
