/** Main results about environments: the lifecycle, the scheduler, message passing and ids. */
module EnvTheorems {
  import opened Words
  import opened Envs

  // ---- the invariant ------------------------------------------------------------------------------

  /** How many generations there are before the sign bit of an id is reached. */
  const GENERATIONS: nat := 0x7_FFFF

  function MakeId(generation: nat, e: nat): nat { generation * ENVGEN + e }

  /** An id that env_alloc has given to slot e. */
  predicate IdOf(id: nat, e: nat) {
    e < NENV && 1 <= id / ENVGEN <= GENERATIONS && id == MakeId(id / ENVGEN, e)
  }

  ghost predicate StatusOk(k: Kernel) {
    && |k.envs| == NENV && -1 <= k.cur < NENV
    && (forall e :: 0 <= e < NENV ==> k.envs[e].status != Dying && (k.envs[e].status == Running ==> e == k.cur))
    && (k.cur >= 0 ==> k.envs[k.cur].status != Free)
  }

  /** The free list holds exactly the free environments, once each. */
  ghost predicate FreeOk(k: Kernel)
    requires |k.envs| == NENV
  {
    && (forall j :: 0 <= j < |k.free| ==> k.free[j] < NENV && k.envs[k.free[j]].status == Free)
    && (forall j, l :: 0 <= j < l < |k.free| ==> k.free[j] != k.free[l])
    && (forall e :: 0 <= e < NENV && k.envs[e].status == Free ==> e in k.free)
  }

  ghost predicate IdsOk(k: Kernel)
    requires |k.envs| == NENV
  {
    forall e :: 0 <= e < NENV ==>
      (k.envs[e].id == 0 && k.envs[e].status == Free) || IdOf(k.envs[e].id, e)
  }

  ghost predicate Inv(k: Kernel) { StatusOk(k) && FreeOk(k) && IdsOk(k) }

  // ---- ids ------------------------------------------------------------------------------------------

  lemma GenerationOf(g: nat, e: nat)
    requires e < NENV
    ensures MakeId(g, e) / ENVGEN == g && MakeId(g, e) % NENV == e
  {
  }

  /** An id is a positive 32-bit integer and decodes to its slot. */
  lemma IdDecodes(id: nat, e: nat)
    requires IdOf(id, e)
    ensures 0 < id <= INT_MAX && Envx(id) == e
  {
    GenerationOf(id / ENVGEN, e);
  }

  /** The next generation, going round past the sign bit. */
  function After(g: nat): nat { if g < GENERATIONS then g + 1 else 1 }

  lemma NextIdOk(last: nat, slot: nat)
    requires slot < NENV && (last == 0 || IdOf(last, slot))
    ensures NextId(last, slot) == MakeId(After(last / ENVGEN), slot)
    ensures IdOf(NextId(last, slot), slot)
  {
    var g := last / ENVGEN;
    GenerationOf(After(g), slot);
    GenerationOf(g + 1, slot);
    if last == 0 {
      assert NextId(0, slot) == ENVGEN + slot;
    } else {
      assert last + ENVGEN == MakeId(g + 1, slot);
      GenerationWraps(g + 1, slot);
    }
  }

  lemma GenerationWraps(g: nat, slot: nat)
    requires slot < NENV && 1 <= g <= GENERATIONS + 1
    ensures var sum := Int32(MakeId(g, slot));
            var generation := sum - sum % NENV;
            if g <= GENERATIONS then generation == g * ENVGEN else generation <= 0
  {
    GenerationOf(g, slot);
    if g <= GENERATIONS {
      assert Int32(MakeId(g, slot)) == MakeId(g, slot);
    } else {
      assert Int32(MakeId(g, slot)) < 0;
    }
  }

  // ---- each part of the kernel keeps the invariant -----------------------------------------------------

  lemma AllocKeeps(k: Kernel, parent: nat)
    requires Inv(k) && k.free != []
    ensures k.free[0] < NENV
    ensures var e := k.free[0];
            var k' := EnvAlloc(k, parent);
            Inv(k') && k'.cur == k.cur && e != k.cur && k'.envs[e].status == Runnable
  {
    var e := k.free[0];
    NextIdOk(k.envs[e].id, e);
    var k' := EnvAlloc(k, parent);
    forall f | 0 <= f < NENV && k'.envs[f].status == Free
      ensures f in k'.free
    {
      assert f in k.free;
      var j :| 0 <= j < |k.free| && k.free[j] == f;
      assert k'.free[j - 1] == f;
    }
  }

  lemma FreeListGrows(k: Kernel, e: nat)
    requires Inv(k) && e < NENV && k.envs[e].status != Free
    ensures FreeOk(EnvFree(k, e))
  {
    hide IdsOk;
    var k' := EnvFree(k, e);
    assert forall j :: 0 < j < |k'.free| ==> k'.free[j] == k.free[j - 1];
    forall f | 0 <= f < NENV && k'.envs[f].status == Free && f != e
      ensures f in k'.free
    {
      assert f in k.free;
    }
    assert e == k'.free[0];
  }

  /** Freeing an environment; when it is the current one, curenv becomes NULL. */
  lemma FreeKeeps(k: Kernel, e: nat)
    requires Inv(k) && e < NENV && k.envs[e].status != Free
    ensures Inv(EnvFree(k, e).(cur := if e == k.cur then -1 else k.cur))
  {
    FreeListGrows(k, e);
    hide FreeOk;
    var k' := EnvFree(k, e).(cur := if e == k.cur then -1 else k.cur);
    FreeOkIgnoresCur(EnvFree(k, e), k'.cur);
  }

  lemma FreeOkIgnoresCur(k: Kernel, cur: int)
    requires |k.envs| == NENV && FreeOk(k)
    ensures FreeOk(k.(cur := cur))
  {
  }

  lemma StatusKeeps(k: Kernel, e: nat, env: Env)
    requires Inv(k) && e < NENV && k.envs[e].status != Free && (env.status == Runnable || env.status == NotRunnable)
    requires env.id == k.envs[e].id
    ensures Inv(Put(k, e, env))
  {
  }

  lemma SameStatusKeeps(k: Kernel, e: nat, env: Env)
    requires Inv(k) && e < NENV && env.status == k.envs[e].status && env.id == k.envs[e].id
    ensures Inv(Put(k, e, env))
  {
  }

  lemma RunKeeps(k: Kernel, e: nat)
    requires Inv(k) && e < NENV && k.envs[e].status == Runnable
    ensures var k' := EnvRun(k, e);
            Inv(k') && k'.cur == e && k'.free == k.free
  {
  }

  // ---- the scheduler ---------------------------------------------------------------------------------

  /** Every slot is some candidate of the round-robin search. */
  lemma EverySlotIsCandidate(start: nat, e: nat)
    requires e < NENV && start < NENV
    ensures var i := if e >= start then e - start else e + NENV - start;
            i < NENV && Candidate(start, i) == e
  {
  }

  /** When the search finds nobody, nobody is runnable. */
  lemma NobodyRunnable(k: Kernel, start: nat)
    requires |k.envs| == NENV && start < NENV && FirstRunnable(k, start, 0) == NENV
    ensures forall e :: 0 <= e < NENV ==> k.envs[e].status != Runnable
  {
    forall e | 0 <= e < NENV
      ensures k.envs[e].status != Runnable
    {
      EverySlotIsCandidate(start, e);
      assert !CanRun(k, e);
    }
  }

  function StartOf(k: Kernel): nat
    requires |k.envs| == NENV && k.cur < NENV
  {
    if k.cur >= 0 then Envx(k.envs[k.cur].id) else 0
  }

  /** The search starts at the current environment's own slot. */
  lemma StartIsCur(k: Kernel)
    requires Inv(k)
    ensures StartOf(k) == if k.cur >= 0 then k.cur else 0
  {
    if k.cur >= 0 {
      IdDecodes(k.envs[k.cur].id, k.cur);
    }
  }

  /** Exactly when the CPU would halt, in any table at all: nobody can run, the current environment does
      not, and yet some environment is RUNNING or DYING. */
  lemma YieldHaltsIff(k: Kernel)
    requires |k.envs| == NENV && k.cur < NENV
    ensures Yield(k).Halted? <==>
            && (forall e :: 0 <= e < NENV ==> k.envs[e].status != Runnable)
            && !(k.cur >= 0 && k.envs[k.cur].status == Running)
            && exists e :: 0 <= e < NENV && (k.envs[e].status == Running || k.envs[e].status == Dying)
  {
    if FirstRunnable(k, StartOf(k), 0) == NENV {
      NobodyRunnable(k, StartOf(k));
    }
  }

  /** The first runnable environment after the current one, if there is one, is what runs next. */
  lemma YieldRuns(k: Kernel)
    requires Inv(k)
    ensures var start := if k.cur >= 0 then k.cur else 0;
            var i := FirstRunnable(k, start, 0);
            if i < NENV then CanRun(k, Candidate(start, i)) && Yield(k) == User(EnvRun(k, Candidate(start, i)))
            else Yield(k) == if k.cur >= 0 && k.envs[k.cur].status == Running then User(k) else Monitor(k)
  {
    hide FreeOk, IdsOk, EnvRun, CanRun, Candidate;
    StartIsCur(k);
    var start := if k.cur >= 0 then k.cur else 0;
    if FirstRunnable(k, start, 0) == NENV {
      NobodyRunnable(k, start);
    }
  }

  /** The scheduler ends in a user environment or in the monitor, never in the halt loop. */
  lemma YieldKeeps(k: Kernel)
    requires Inv(k)
    ensures Yield(k).User? ==> Inv(Yield(k).k) && Yield(k).k.cur >= 0
    ensures !Yield(k).Halted?
  {
    hide FreeOk, IdsOk, Yield, EnvRun, Candidate;
    YieldRuns(k);
    var start := if k.cur >= 0 then k.cur else 0;
    var i := FirstRunnable(k, start, 0);
    if i < NENV {
      RunKeeps(k, Candidate(start, i));
    }
  }

  lemma TailKeeps(k: Kernel)
    requires Inv(k)
    ensures Tail(k).User? ==> Inv(Tail(k).k) && Tail(k).k.cur >= 0
    ensures !Tail(k).Halted?
  {
    hide FreeOk, IdsOk, Yield;
    YieldKeeps(k);
  }

  lemma DestroyKeeps(k: Kernel, e: nat)
    requires Inv(k) && e < NENV && k.envs[e].status != Free
    ensures Inv(EnvDestroy(k, e).0)
  {
    hide FreeOk, IdsOk;
    FreeKeeps(k, e);
  }

  /** Exactly which environment an id names, with and without the permission check: the caller itself
      for 0; otherwise the one in the id's slot, if that is in use and has this very id, and, under
      the check, is the caller or a child of the caller. */
  lemma LookupIff(k: Kernel, id: int, checkperm: bool, e: nat)
    requires |k.envs| == NENV && 0 <= k.cur < NENV
    ensures Envid2Env(k, id, checkperm) == Some(e) <==>
            (id == 0 && e == k.cur) ||
            (&& id != 0 && e == id % 1024 && k.envs[e].status != Free && k.envs[e].id == id
             && (checkperm ==> e == k.cur || k.envs[e].parent == k.envs[k.cur].id))
  {
  }

  lemma LookupIsLive(k: Kernel, id: int, checkperm: bool)
    requires Inv(k) && k.cur >= 0 && Envid2Env(k, id, checkperm).Some?
    ensures Envid2Env(k, id, checkperm).value < NENV && k.envs[Envid2Env(k, id, checkperm).value].status != Free
  {
  }

  lemma SendKeeps(k: Kernel, e: nat, value: nat, page: SendPage)
    requires Inv(k) && k.cur >= 0 && e < NENV && k.envs[e].status != Free
    ensures Inv(SendTo(k, e, value, page)) && SendTo(k, e, value, page).cur == k.cur
  {
  }

  lemma ServeKeeps(k: Kernel, t: Trap)
    requires Inv(k) && k.cur >= 0
    ensures Inv(Serve(k, t).0)
  {
    hide FreeOk, IdsOk, EnvDestroy, EnvAlloc, Envid2Env, SendTo;
    match t
    case Quiet =>
    case Timer =>
    case Crash => DestroyKeeps(k, k.cur);
    case Destroy(envid) =>
      if Envid2Env(k, envid, true).Some? {
        LookupIsLive(k, envid, true);
        DestroyKeeps(k, Envid2Env(k, envid, true).value);
      }
    case Exofork(memory) =>
      if k.free != [] {
        AllocKeeps(k, k.envs[k.cur].id);
        var k1, e := EnvAlloc(k, k.envs[k.cur].id), k.free[0];
        StatusKeeps(k1, e, k1.envs[e].(status := NotRunnable));
      }
    case SetStatus(envid, status) =>
      if (status == Runnable || status == NotRunnable) && Envid2Env(k, envid, true).Some? {
        LookupIsLive(k, envid, true);
        var e := Envid2Env(k, envid, true).value;
        StatusKeeps(k, e, k.envs[e].(status := status));
      }
    case TrySend(envid, value, page) =>
      if Envid2Env(k, envid, false).Some? {
        LookupIsLive(k, envid, false);
        SendKeeps(k, Envid2Env(k, envid, false).value, value, page);
      }
    case Recv(dstva) =>
      StatusKeeps(k, k.cur, Receiving(k.envs[k.cur], dstva));
      SameStatusKeeps(k, k.cur, k.envs[k.cur].(ret := -E_INVAL));
  }

  /** Every trap keeps the invariant: at most one environment is RUNNING and it is curenv, none is
      ever DYING, the free list is exact, ids are sound; and the CPU never enters the halt loop. */
  lemma HandleKeepsInv(k: Kernel, t: Trap)
    requires Inv(k) && k.cur >= 0
    ensures Handle(k, t).User? ==> Inv(Handle(k, t).k) && Handle(k, t).k.cur >= 0
    ensures !Handle(k, t).Halted?
  {
    hide IdsOk, Yield, Tail, Serve;
    ServeKeeps(k, t);
    YieldKeeps(Serve(k, t).0);
    TailKeeps(Serve(k, t).0);
  }

  /** env_init makes a table that satisfies the invariant. */
  lemma EnvInitOk(envs: seq<Env>)
    requires |envs| == NENV
    ensures Inv(EnvInit(envs))
  {
    var k := EnvInit(envs);
    forall e | 0 <= e < NENV
      ensures e in k.free
    {
      assert k.free[e] == e;
    }
  }

  // ---- whole runs -------------------------------------------------------------------------------------

  ghost predicate Run(states: seq<Kernel>, traps: seq<Trap>) {
    && |states| == |traps| + 1 && Inv(states[0]) && states[0].cur >= 0
    && forall i :: 0 <= i < |traps| ==>
         && |states[i].envs| == NENV && 0 <= states[i].cur < NENV && (states[i].free != [] ==> states[i].free[0] < NENV)
         && Handle(states[i], traps[i]) == User(states[i + 1])
  }

  lemma {:induction false} RunKeepsInv(states: seq<Kernel>, traps: seq<Trap>, n: nat)
    requires Run(states, traps) && n < |states|
    ensures Inv(states[n]) && states[n].cur >= 0
  {
    if n > 0 {
      var i := n - 1;
      RunKeepsInv(states, traps, i);
      HandleKeepsInv(states[i], traps[i]);
      hide Handle;
      assert Handle(states[i], traps[i]) == User(states[i + 1]);
    }
  }

  // ---- bounded waiting ---------------------------------------------------------------------------------

  /** How far slot j is ahead of slot c, going round. */
  function Distance(c: nat, j: nat): nat
    requires c < NENV && j < NENV
  {
    if j >= c then j - c else j + NENV - c
  }

  /** While the yielding environment is not itself RUNNABLE, every yield brings the scheduler
      strictly closer to any environment that is; it never jumps over one. */
  lemma YieldApproaches(k: Kernel, j: nat)
    requires Inv(k) && k.cur >= 0 && k.envs[k.cur].status != Runnable
    requires j < NENV && k.envs[j].status == Runnable
    ensures Yield(k).User? && 0 <= Yield(k).k.cur < NENV
    ensures Distance(Yield(k).k.cur, j) < Distance(k.cur, j)
  {
    hide FreeOk, IdsOk, Yield, EnvRun, Candidate, Distance;
    YieldRuns(k);
    var d, i := Distance(k.cur, j), FirstRunnable(k, k.cur, 0);
    CandidateIs(k.cur, j);
    assert CanRun(k, Candidate(k.cur, d));
    CandidateDistance(k.cur, i, j);
    RunKeeps(k, Candidate(k.cur, i));
  }

  lemma CandidateIs(c: nat, j: nat)
    requires c < NENV && j < NENV
    ensures Candidate(c, 0) == c && Distance(c, j) < NENV && Candidate(c, Distance(c, j)) == j
  {
    EverySlotIsCandidate(c, j);
  }

  lemma CandidateDistance(c: nat, i: nat, j: nat)
    requires c < NENV && j < NENV && 0 < i <= Distance(c, j)
    ensures Distance(Candidate(c, i), j) == Distance(c, j) - i
  {
  }

  /** A yield by an environment that is itself RUNNABLE goes back to it and nowhere else. */
  lemma YieldStays(k: Kernel)
    requires Inv(k) && k.cur >= 0 && k.envs[k.cur].status == Runnable
    ensures Yield(k) == User(k)
  {
    StartIsCur(k);
    assert Candidate(k.cur, 0) == k.cur;
    assert CanRun(k, Candidate(k.cur, 0));
  }

  /** After curenv has died the search starts over at slot 0: whatever ran before, the lowest RUNNABLE
      slot runs next, and the distance to slot j becomes what it is from there. */
  lemma YieldFromNull(k: Kernel, j: nat)
    requires Inv(k) && k.cur == -1 && j < NENV && k.envs[j].status == Runnable
    ensures Yield(k).User? && 0 <= Yield(k).k.cur <= j && k.envs[Yield(k).k.cur].status == Runnable
    ensures forall e :: 0 <= e < Yield(k).k.cur ==> k.envs[e].status != Runnable
    ensures Distance(Yield(k).k.cur, j) == j - Yield(k).k.cur
  {
    hide FreeOk, IdsOk, Yield, EnvRun, Candidate;
    YieldRuns(k);
    var i := FirstRunnable(k, 0, 0);
    FromZero(j);
    assert CanRun(k, Candidate(0, j));
    FromZero(i);
    RunKeeps(k, i);
    forall e | 0 <= e < i
      ensures k.envs[e].status != Runnable
    {
      FromZero(e);
      assert !CanRun(k, Candidate(0, e));
    }
  }

  lemma FromZero(i: nat)
    ensures i < NENV ==> Candidate(0, i) == i
  {
  }

  /** Kernel states in which the scheduler is entered, one after another: between two yields anything
      may happen to the table, but curenv changes only in the scheduler, except that it can die. */
  ghost predicate Yields(states: seq<Kernel>, j: nat) {
    && (forall i :: 0 <= i < |states| ==>
          && Inv(states[i]) && (states[i].cur >= 0 ==> states[i].envs[states[i].cur].status != Runnable)
          && j < NENV && states[i].envs[j].status == Runnable)
    && (forall i, l :: 0 <= i < l < |states| && l == i + 1 ==>
          Yield(states[i]).User? && (states[l].cur == Yield(states[i]).k.cur || states[l].cur == -1))
  }

  lemma YieldLands(states: seq<Kernel>, j: nat, i: nat)
    requires Yields(states, j) && i < |states|
    ensures Yield(states[i]).User? && 0 <= Yield(states[i]).k.cur < NENV
    ensures states[i].cur >= 0 ==> Distance(Yield(states[i]).k.cur, j) < Distance(states[i].cur, j)
  {
    hide Yield;
    if states[i].cur >= 0 {
      YieldApproaches(states[i], j);
    } else {
      YieldFromNull(states[i], j);
    }
  }

  lemma {:induction false} DistanceShrinks(states: seq<Kernel>, j: nat, lo: nat, i: nat)
    requires Yields(states, j) && lo <= i < |states| && forall l :: lo < l <= i ==> states[l].cur >= 0
    ensures Yield(states[i]).User? && 0 <= Yield(states[i]).k.cur < NENV
    ensures Distance(Yield(states[i]).k.cur, j) + (i - lo) + (if states[lo].cur >= 0 then 1 else 0) < NENV
    decreases i
  {
    hide Yield, FreeOk, IdsOk;
    YieldLands(states, j, i);
    if i > lo {
      var p := i - 1;
      DistanceShrinks(states, j, lo, p);
      assert states[i].cur == Yield(states[p]).k.cur;
    }
  }

  /** Of any yields lo to hi between which curenv does not die, whatever else happens to the table, one
      dispatches an environment that stays RUNNABLE, if there are NENV - 1 of them, or NENV when the
      first is made by the death of curenv. */
  lemma BoundedWaiting(states: seq<Kernel>, j: nat, lo: nat, hi: nat)
    requires Yields(states, j) && lo <= hi < |states| && forall l :: lo < l <= hi ==> states[l].cur >= 0
    requires forall i :: lo <= i <= hi ==> Yield(states[i]).User? ==> Yield(states[i]).k.cur != j
    ensures hi - lo + 1 < (if states[lo].cur >= 0 then NENV - 1 else NENV)
  {
    hide Yield, FreeOk, IdsOk;
    DistanceShrinks(states, j, lo, hi);
  }
}
