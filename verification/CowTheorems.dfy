/** Main results about copy-on-write fork. */
module CowTheorems {
  import opened Words
  import opened Cow
  import opened CowProofs

  ghost predicate Run(states: seq<Sys>, ops: seq<Op>, labels: seq<EagerOp>) {
    && |states| == |ops| + 1 && |labels| == |ops|
    && forall i :: 0 <= i < |ops| ==>
         && Enabled(states[i], ops[i]) && states[i + 1] == Step(states[i], ops[i])
         && labels[i] == Label(states[i], ops[i])
  }

  ghost function EagerRun(m: Memory, labels: seq<EagerOp>): Memory {
    if labels == [] then m else Eager(EagerRun(m, labels[..|labels| - 1]), labels[|labels| - 1])
  }

  /** Over every interleaving of forks, faults, stores and exits, what the programs see is what
      the eager machine computes from the same operations. */
  lemma {:induction false} CowRefinesEager(states: seq<Sys>, ops: seq<Op>, labels: seq<EagerOp>, n: nat)
    requires Run(states, ops, labels) && Inv(states[0]) && n <= |ops|
    ensures Inv(states[n])
    ensures Abs(states[n]) == EagerRun(Abs(states[0]), labels[..n])
  {
    hide Step, Enabled, Label, Eager, PairsOk, TasksOk, MappingsOk, Abs;
    if n > 0 {
      CowRefinesEager(states, ops, labels, n - 1);
      StepSimulates(states[n - 1], ops[n - 1]);
      assert labels[..n][..n - 1] == labels[..n - 1];
    }
  }

  /** A system at rest: nobody is in fork or pgfault, every page has a frame of its own, none is
      PTE_SHARE yet, and nothing is mapped at PFTEMP. */
  ghost predicate AtRest(s: Sys) {
    && s.forks == map[] && s.faults == map[] && s.blocked == {}
    && (forall k :: k in s.space ==>
          k.e in s.envs && s.space[k].frame in s.frames && !s.space[k].perm.share && k.v != PFTEMP_PN)
    && (forall k, k' :: k in s.space && k' in s.space && k != k' ==> s.space[k].frame != s.space[k'].frame)
  }

  lemma AtRestInv(s: Sys)
    requires AtRest(s)
    ensures Inv(s)
  {
  }

  /** So from any such system on, without further assumption. */
  lemma CowFromRest(states: seq<Sys>, ops: seq<Op>, labels: seq<EagerOp>, n: nat)
    requires Run(states, ops, labels) && AtRest(states[0]) && n <= |ops|
    ensures Inv(states[0]) && Inv(states[n]) && Abs(states[n]) == EagerRun(Abs(states[0]), labels[..n])
  {
    AtRestInv(states[0]);
    CowRefinesEager(states, ops, labels, n);
  }

  /** In every reachable state a writable page that is not PTE_SHARE, of an environment that is
      in neither fork nor pgfault, has exactly one mapping. */
  lemma WritableFrameMappedOnce(s: Sys, k: Key, k': Key)
    requires Inv(s) && k in s.space && k' in s.space && Idle(s, k.e)
    requires s.space[k].perm.w && !s.space[k].perm.share && s.space[k].frame == s.space[k'].frame
    ensures k == k'
  {
    assert k != k' ==> PairOk(s, k, k');
  }

  /** A store changes the storing page, the pages that share its object, and nothing else. */
  lemma StoreChangesOnly(s: Sys, op: Op, k: Key)
    requires Inv(s) && op.Store? && Enabled(s, op) && k in Abs(s)
    ensures Inv(Step(s, op)) && Key(op.e, op.v) in Abs(s)
    ensures k in Abs(Step(s, op))
    ensures var own := Key(op.e, op.v);
            Abs(Step(s, op))[k] ==
              if k == own || (s.space[own].perm.share && Abs(s)[k].storage == Object(s.space[own].frame))
              then Abs(s)[k].(data := Abs(s)[k].data[op.off := op.b])
              else Abs(s)[k]
  {
    StepSimulates(s, op);
    NotAChild(s, op.e);
    assert Key(op.e, op.v) in Abs(s);
  }

  /** The child's memory after a fork that nothing interrupts: below USTACKTOP the parent's page
      at each address, its own exception stack, and nothing else; everyone else unchanged. */
  ghost predicate ForkedUpTo(m: Memory, m': Memory, e: nat, c: nat, pn: nat, done: bool) {
    forall k: Key ::
      if k.e != c then (k in m' <==> k in m) && (k in m ==> m'[k] == m[k])
      else if k.v < pn then (k in m' <==> Key(e, k.v) in m) && (k in m' ==> m'[k] == m[Key(e, k.v)])
      else if done && k.v == UXSTACK_PN then k in m' && m'[k] == Cell(ZeroPage(), Private)
      else k !in m'
  }

  lemma FirstCall(s: Sys, s1: Sys, e: nat)
    requires Inv(s) && Enabled(s, DupCowChild(e)) && s1 == Step(s, DupCowChild(e))
    ensures Inv(s1) && Enabled(s1, DupCowSelf(e))
    ensures Abs(s1) == if s.space[Key(e, s.forks[e].pn)].perm.w then Abs(s) else Eager(Abs(s), CopyOf(s, e))
  {
    hide PairsOk, TasksOk, MappingsOk, Abs, Eager;
    StepSimulates(s, DupCowChild(e));
    NothingHappens(Abs(s));
  }

  lemma NothingHappens(m: Memory)
    ensures Eager(m, Nothing) == m
  {
  }

  lemma SecondCall(s1: Sys, e: nat)
    requires Inv(s1) && Enabled(s1, DupCowSelf(e))
    ensures Inv(Step(s1, DupCowSelf(e)))
    ensures Abs(Step(s1, DupCowSelf(e))) ==
              if s1.forks[e].phase == Aliased then Eager(Abs(s1), CopyOf(s1, e)) else Abs(s1)
  {
    hide PairsOk, TasksOk, MappingsOk, Abs, Eager;
    StepSimulates(s1, DupCowSelf(e));
    NothingHappens(Abs(s1));
  }

  lemma PlainDupCopies(s: Sys, op: Op)
    requires Inv(s) && Enabled(s, op) && (op.DupShare? || op.DupReadOnly?)
    ensures Inv(Step(s, op)) && Abs(Step(s, op)) == Eager(Abs(s), CopyOf(s, op.e))
  {
    StepSimulates(s, op);
  }

  ghost predicate SameTasks(s: Sys, s': Sys, e: nat) {
    && e in s.forks && e in s'.forks && s'.forks[e] == Forking(s.forks[e].child, s.forks[e].pn + 1, Start)
    && s'.faults == s.faults && s'.envs == s.envs && s'.blocked == s.blocked
  }

  lemma ChildApart(s: Sys, e: nat)
    requires Inv(s) && e in s.forks
    ensures s.forks[e].child != e
  {
    assert ForkOk(s, e);
  }

  /** The mappings duppage makes: the child gets the parent's frame, a PTE_SHARE page with all bits, a
      writable or copy-on-write one as copy-on-write and not writable, any other read-only; the parent
      keeps its own mapping, but that the second kind becomes copy-on-write for it too. */
  ghost predicate Mapped(s: Sys, s': Sys, e: nat)
    requires e in s.forks && Key(e, s.forks[e].pn) in s.space
  {
    var k, kc := Key(e, s.forks[e].pn), Key(s.forks[e].child, s.forks[e].pn);
    var p := s.space[k].perm;
    && k in s'.space && kc in s'.space
    && s'.space[kc].frame == s'.space[k].frame == s.space[k].frame
    && s'.space[kc].perm == (if p.share then Perm(true, true, true) else Perm(false, p.w || p.cow, false))
    && s'.space[k].perm == (if p.share || !(p.w || p.cow) then p else Perm(false, true, false))
    && forall k' :: k' != k && k' != kc ==> (k' in s'.space <==> k' in s.space) && (k' in s.space ==> s'.space[k'] == s.space[k'])
  }

  lemma ForkGrows(m: Memory, m': Memory, m'': Memory, e: nat, c: nat, pn: nat)
    requires e != c && ForkedUpTo(m, m', e, c, pn, false)
    requires m'' == Eager(m', Copy(Key(e, pn), Key(c, pn)))
    ensures ForkedUpTo(m, m'', e, c, pn + 1, false)
  {
  }

  lemma ForkStarts(s: Sys, e: nat, c: nat)
    requires Inv(s) && Enabled(s, ForkBegin(e, c))
    ensures Inv(Step(s, ForkBegin(e, c))) && e != c
    ensures ForkedUpTo(Abs(s), Abs(Step(s, ForkBegin(e, c))), e, c, 0, false)
  {
    StepSimulates(s, ForkBegin(e, c));
  }

  lemma ForkFinishes(s: Sys, op: Op, m: Memory)
    requires Inv(s) && op.ForkEnd? && Enabled(s, op)
    requires ForkedUpTo(m, Abs(s), op.e, s.forks[op.e].child, USTACKTOP_PN, false)
    ensures Inv(Step(s, op))
    ensures ForkedUpTo(m, Abs(Step(s, op)), op.e, s.forks[op.e].child, USTACKTOP_PN, true)
  {
    StepSimulates(s, op);
  }

  lemma SkipCopiesNothing(s: Sys, e: nat)
    requires Inv(s) && Enabled(s, DupSkip(e))
    ensures Inv(Step(s, DupSkip(e)))
    ensures Abs(Step(s, DupSkip(e))) == Eager(Abs(s), CopyOf(s, e))
  {
    StepSimulates(s, DupSkip(e));
  }

  lemma FrameExists(s: Sys, k: Key)
    requires Inv(s) && k in s.space
    ensures s.space[k].frame in s.frames
  {
  }

  /** No step of pgfault changes what any program sees. */
  lemma FaultIsInvisible(s: Sys, op: Op)
    requires Inv(s) && Enabled(s, op) && IsFaultOp(op)
    ensures Inv(Step(s, op)) && Abs(Step(s, op)) == Abs(s)
  {
    StepSimulates(s, op);
    NothingHappens(Abs(s));
    hide Inv, Abs, Eager, Step;
  }

  class Machine {
    var s: Sys

    constructor (s: Sys)
      ensures this.s == s
    {
      this.s := s;
    }

    /** pgfault, run without interruption: invisible to every program, it leaves the page private
        and writable in the fresh frame f. */
    method Pgfault(e: nat, v: nat, f: nat)
      requires Inv(s) && Enabled(s, FaultAlloc(e, v, f))
      modifies this
      ensures Inv(s) && Abs(s) == old(Abs(s)) && e !in s.faults
      ensures Key(e, v) in s.space && s.space[Key(e, v)] == Mapping(f, RW)
      ensures forall off: nat, b :: off < PGSIZE ==> Enabled(s, Store(e, v, off, b))
    {
      hide PairsOk, TasksOk, MappingsOk, Abs;
      FrameExists(s, Key(e, v));
      FaultIsInvisible(s, FaultAlloc(e, v, f));
      s := Step(s, FaultAlloc(e, v, f));
      var i := 0;
      while i < PGSIZE
        invariant i <= PGSIZE && Inv(s) && Abs(s) == old(Abs(s))
        invariant Running(s, e) && e in s.faults && s.faults[e] == Copying(v, i) && v != PFTEMP_PN
        invariant Key(e, v) in s.space && s.space[Key(e, v)].frame in s.frames
        invariant Key(e, PFTEMP_PN) in s.space && s.space[Key(e, PFTEMP_PN)] == Mapping(f, RW) && f in s.frames
      {
        FaultIsInvisible(s, FaultCopy(e));
        s := Step(s, FaultCopy(e));
        i := i + 1;
      }
      FaultIsInvisible(s, FaultMap(e));
      s := Step(s, FaultMap(e));
      FaultIsInvisible(s, FaultUnmap(e));
      s := Step(s, FaultUnmap(e));
    }

    /** duppage for the current page of e's fork: one or two system calls. */
    method Duppage(e: nat)
      requires Inv(s) && DupsMapped(s, e, Start)
      modifies this
      ensures Inv(s) && SameTasks(old(s), s, e)
      ensures Abs(s) == Eager(old(Abs(s)), CopyOf(old(s), e))
      ensures Mapped(old(s), s, e)
      ensures forall f :: Fresh(old(s), f) ==> Fresh(s, f)
    {
      hide PairsOk, TasksOk, MappingsOk, Abs, Eager;
      ChildApart(s, e);
      var perm := s.space[Key(e, s.forks[e].pn)].perm;
      if perm.share {
        PlainDupCopies(s, DupShare(e));
        s := Step(s, DupShare(e));
      } else if perm.w || perm.cow {
        DupCow(e);
      } else {
        PlainDupCopies(s, DupReadOnly(e));
        s := Step(s, DupReadOnly(e));
      }
    }

    /** The two map calls of a copy-on-write page. */
    method DupCow(e: nat)
      requires Inv(s) && Enabled(s, DupCowChild(e))
      modifies this
      ensures Inv(s) && SameTasks(old(s), s, e) && Mapped(old(s), s, e)
      ensures Abs(s) == Eager(old(Abs(s)), CopyOf(old(s), e))
      ensures forall f :: Fresh(old(s), f) ==> Fresh(s, f)
    {
      hide PairsOk, TasksOk, MappingsOk, Abs, Eager;
      ghost var s0 := s;
      s := Step(s, DupCowChild(e));
      FirstCall(s0, s, e);
      SecondCall(s, e);
      s := Step(s, DupCowSelf(e));
    }

    /** fork, run without interruption: lazy sharing that looks like an eager copy. */
    method Fork(e: nat, c: nat, f: nat)
      requires Inv(s) && Idle(s, e) && c !in s.envs && Fresh(s, f)
      modifies this
      ensures Inv(s) && Idle(s, e) && Running(s, c)
      ensures ForkedUpTo(old(Abs(s)), Abs(s), e, c, USTACKTOP_PN, true)
    {
      hide PairsOk, TasksOk, MappingsOk, Abs, Eager, ForkedUpTo;
      ghost var m := Abs(s);
      ForkStarts(s, e, c);
      s := Step(s, ForkBegin(e, c));
      var i := 0;
      while i < USTACKTOP_PN
        invariant i <= USTACKTOP_PN && Inv(s) && e != c
        invariant Running(s, e) && e !in s.faults && e in s.forks && s.forks[e] == Forking(c, i, Start)
        invariant c in s.envs && Fresh(s, f)
        invariant ForkedUpTo(m, Abs(s), e, c, i, false)
      {
        ghost var before := Abs(s);
        if Key(e, i) in s.space {
          Duppage(e);
        } else {
          SkipCopiesNothing(s, e);
          s := Step(s, DupSkip(e));
        }
        ForkGrows(m, before, Abs(s), e, c, i);
        i := i + 1;
      }
      ForkFinishes(s, ForkEnd(e, f), m);
      s := Step(s, ForkEnd(e, f));
    }
  }
}
