/** What whole runs of the kernel promise about waiting and ids (src/env.c, src/sched.c,
    src/trap.c). */
module EnvHistory {
  import opened Words
  import opened Envs
  import opened EnvTheorems

  // ---- what the scheduler leaves alone --------------------------------------------------------------

  predicate Ready(s: Status) { s == Runnable || s == Running }

  /** k is m after the scheduler or the tail of trap: only curenv, run counts and the statuses of
      the old and the new current environment have changed. */
  ghost predicate Dispatched(m: Kernel, k: Kernel)
    requires |m.envs| == NENV
  {
    && |k.envs| == NENV && 0 <= k.cur < NENV && k.free == m.free
    && Ready(m.envs[k.cur].status) && (k.cur != m.cur ==> k.envs[k.cur].status == Running)
    && forall e :: 0 <= e < NENV ==>
         && k.envs[e] == m.envs[e].(status := k.envs[e].status, runs := k.envs[e].runs)
         && (k.envs[e].status == m.envs[e].status || (Ready(k.envs[e].status) && Ready(m.envs[e].status)))
         && (e != k.cur && e != m.cur ==> k.envs[e].status == m.envs[e].status)
         && k.envs[e].runs == if e == k.cur && e != m.cur then (m.envs[e].runs + 1) % U32 else m.envs[e].runs
  }

  lemma RunDispatches(m: Kernel, e: nat)
    requires StatusOk(m) && e < NENV && m.envs[e].status == Runnable
    ensures Dispatched(m, EnvRun(m, e))
  {
  }

  lemma StayDispatches(m: Kernel)
    requires StatusOk(m) && m.cur >= 0 && m.envs[m.cur].status == Running
    ensures Dispatched(m, m)
  {
  }

  lemma YieldDispatches(m: Kernel)
    requires Inv(m) && Yield(m).User?
    ensures Dispatched(m, Yield(m).k)
  {
    hide FreeOk, IdsOk, Yield, EnvRun, Candidate, Dispatched;
    YieldRuns(m);
    var start := if m.cur >= 0 then m.cur else 0;
    var i := FirstRunnable(m, start, 0);
    if i < NENV {
      RunDispatches(m, Candidate(start, i));
    } else {
      StayDispatches(m);
    }
  }

  /** One trap that ends in user mode. */
  ghost predicate Steps(k: Kernel, t: Trap, k': Kernel) {
    Inv(k) && k.cur >= 0 && Handle(k, t) == User(k')
  }

  lemma StepShape(k: Kernel, t: Trap, k': Kernel)
    requires Steps(k, t, k')
    ensures Inv(Serve(k, t).0) && Dispatched(Serve(k, t).0, k') && Inv(k') && k'.cur >= 0
  {
    HandleKeepsInv(k, t);
    ServeKeeps(k, t);
    hide IdsOk, Yield, Serve, Dispatched;
    var (m, switches) := Serve(k, t);
    if switches || m.cur < 0 || m.envs[m.cur].status != Running {
      YieldDispatches(m);
    } else {
      StayDispatches(m);
    }
  }

  lemma RunSteps(states: seq<Kernel>, traps: seq<Trap>, i: nat)
    requires Run(states, traps) && i < |traps|
    ensures Steps(states[i], traps[i], states[i + 1])
  {
    hide Handle;
    RunKeepsInv(states, traps, i);
    assert Handle(states[i], traps[i]) == User(states[i + 1]);
  }

  // ---- waiting -----------------------------------------------------------------------------------------

  /** The trap ends in sched_yield. */
  predicate EntersScheduler(k: Kernel, t: Trap)
    requires |k.envs| == NENV && 0 <= k.cur < NENV && (k.free != [] ==> k.free[0] < NENV)
  {
    var (m, switches) := Serve(k, t);
    switches || m.cur < 0 || m.cur >= |m.envs| || m.envs[m.cur].status != Running
  }

  /** When the trap is over, slot j is RUNNABLE, and curenv, if it is still there, is not waiting for
      its turn itself. */
  predicate Waits(k: Kernel, t: Trap, j: nat)
    requires |k.envs| == NENV && 0 <= k.cur < NENV && (k.free != [] ==> k.free[0] < NENV)
  {
    var m := Serve(k, t).0;
    && |m.envs| == NENV && m.cur < NENV && j < NENV
    && m.envs[j].status == Runnable && (m.cur >= 0 ==> m.envs[m.cur].status != Runnable)
  }

  /** The trap is the end of curenv. */
  predicate Exits(k: Kernel, t: Trap)
    requires |k.envs| == NENV && 0 <= k.cur < NENV && (k.free != [] ==> k.free[0] < NENV)
  {
    Serve(k, t).0.cur < 0
  }

  lemma ServeKeepsCur(k: Kernel, t: Trap)
    requires Inv(k) && k.cur >= 0
    ensures Serve(k, t).0.cur == k.cur || Serve(k, t).0.cur == -1
  {
  }

  /** A trap that enters the scheduler brings it closer to slot j, and no other trap moves it away,
      unless curenv exits: then the search has started over at slot 0. */
  lemma StepApproaches(k: Kernel, t: Trap, k': Kernel, j: nat)
    requires Steps(k, t, k') && Waits(k, t, j)
    ensures 0 <= k'.cur < NENV
    ensures if Exits(k, t) then EntersScheduler(k, t) && k'.cur <= j && Distance(k'.cur, j) == j - k'.cur
            else Distance(k'.cur, j) + (if EntersScheduler(k, t) then 1 else 0) <= Distance(k.cur, j)
  {
    ServeKeeps(k, t);
    ServeKeepsCur(k, t);
    hide IdsOk, Yield, Serve, Distance;
    var (m, switches) := Serve(k, t);
    if m.cur >= 0 {
      YieldApproaches(m, j);
    } else {
      YieldFromNull(m, j);
    }
  }

  /** How many of the first n traps enter the scheduler, and how many end curenv. */
  ghost function Entries(states: seq<Kernel>, traps: seq<Trap>, n: nat): nat
    requires Run(states, traps) && n <= |traps|
  {
    if n == 0 then 0
    else
      assert n - 1 < |traps| && n - 1 < |states|;
      Entries(states, traps, n - 1) + One(EntersScheduler(states[n - 1], traps[n - 1]))
  }

  ghost function Deaths(states: seq<Kernel>, traps: seq<Trap>, n: nat): nat
    requires Run(states, traps) && n <= |traps|
  {
    if n == 0 then 0
    else
      assert n - 1 < |traps| && n - 1 < |states|;
      Deaths(states, traps, n - 1) + One(Exits(states[n - 1], traps[n - 1]))
  }

  lemma {:induction false} EntriesBounded(states: seq<Kernel>, traps: seq<Trap>, j: nat, n: nat)
    requires Run(states, traps) && n <= |traps| && j < NENV
    requires forall i :: 0 <= i < n ==> Waits(states[i], traps[i], j)
    ensures 0 <= states[n].cur < NENV && 0 <= states[0].cur < NENV
    ensures Entries(states, traps, n) + Distance(states[n].cur, j)
         <= Distance(states[0].cur, j) + Deaths(states, traps, n) * (j + 1)
  {
    hide Waits, Steps, EntersScheduler, Exits, Distance, Handle, FreeOk, IdsOk;
    if n > 0 {
      var p := n - 1;
      EntriesBounded(states, traps, j, p);
      RunSteps(states, traps, p);
      StepHasShape(states[p], traps[p], states[n]);
      assert Waits(states[p], traps[p], j);
      StepApproaches(states[p], traps[p], states[n], j);
      OneMore(Deaths(states, traps, p), Exits(states[p], traps[p]), j + 1);
    }
  }

  lemma StepHasShape(k: Kernel, t: Trap, k': Kernel)
    requires Steps(k, t, k')
    ensures |k.envs| == NENV && 0 <= k.cur < NENV && (k.free != [] ==> k.free[0] < NENV)
  {
  }

  lemma OneMore(x: nat, b: bool, y: nat)
    ensures (x + One(b)) * y == x * y + (if b then y else 0)
  {
  }

  /** Over every run of traps: an environment that stays RUNNABLE, while nobody who enters the scheduler
      is RUNNABLE itself, has the CPU by the (NENV - 1)-th yield if no curenv dies, and each death of
      one costs slot j at most j + 1 more. */
  lemma WaitIsBounded(states: seq<Kernel>, traps: seq<Trap>, j: nat)
    requires Run(states, traps) && j < NENV
    requires forall i :: 0 <= i < |traps| ==> Waits(states[i], traps[i], j)
    ensures Entries(states, traps, |traps|) >= NENV - 1 + Deaths(states, traps, |traps|) * (j + 1) ==>
              states[|traps|].cur == j
  {
    hide Waits, Entries, Deaths;
    EntriesBounded(states, traps, j, |traps|);
  }

  // ---- starvation ----------------------------------------------------------------------------------------

  /** Environment 0 runs, slot 1 is the next to be given out, and environment 2 waits. */
  ghost predicate Starving(k: Kernel) {
    && Inv(k) && k.cur == 0 && k.envs[0].status == Running && k.envs[2].status == Runnable
    && k.free != [] && k.free[0] == 1
  }

  /** Such a state arises when three environments are made, the second exits and the first is run. */
  lemma StarvingState(envs: seq<Env>) returns (k: Kernel)
    requires |envs| == NENV
    ensures Starving(k)
  {
    hide IdsOk, NextId;
    var k0 := EnvInit(envs);
    EnvInitOk(envs);
    AllocKeeps(k0, 0);
    var k1 := EnvAlloc(k0, 0);
    AllocKeeps(k1, 0);
    var k2 := EnvAlloc(k1, 0);
    AllocKeeps(k2, 0);
    var k3 := EnvAlloc(k2, 0);
    FreeKeeps(k3, 1);
    RunKeeps(EnvFree(k3, 1), 0);
    k := EnvRun(EnvFree(k3, 1), 0);
  }

  lemma ForkChild(k: Kernel) returns (k': Kernel)
    requires Starving(k)
    ensures Steps(k, Exofork(true), k') && Inv(k') && k'.cur == 0 && k'.envs[0] == k.envs[0] && k'.envs[2] == k.envs[2]
    ensures k'.envs[1].status == NotRunnable && k'.envs[1].parent == k'.envs[0].id && k'.envs[0].status == Running
    ensures !EntersScheduler(k, Exofork(true)) && Waits(k, Exofork(true), 2)
  {
    HandleKeepsInv(k, Exofork(true));
    hide NextId, Yield;
    k' := Serve(k, Exofork(true)).0;
  }

  lemma WakeChild(k: Kernel) returns (k': Kernel)
    requires Inv(k) && k.cur == 0 && k.envs[0].status == Running && k.envs[2].status == Runnable
    requires k.envs[1].status == NotRunnable && k.envs[1].parent == k.envs[0].id
    ensures var t := SetStatus(k.envs[1].id, Runnable);
            Steps(k, t, k') && !EntersScheduler(k, t) && Waits(k, t, 2)
    ensures Inv(k') && k'.cur == 0 && k'.envs[0] == k.envs[0] && k'.envs[2] == k.envs[2] && k'.envs[1].status == Runnable
  {
    IdDecodes(k.envs[1].id, 1);
    HandleKeepsInv(k, SetStatus(k.envs[1].id, Runnable));
    hide Yield, FreeOk;
    k' := Put(k, 1, k.envs[1].(status := Runnable));
  }

  /** The child is next after its parent. */
  lemma RunChild(k: Kernel) returns (k': Kernel)
    requires Inv(k) && k.cur == 0 && k.envs[0].status == Running && k.envs[2].status == Runnable
    requires k.envs[1].status == Runnable
    ensures Steps(k, Timer, k') && EntersScheduler(k, Timer) && Waits(k, Timer, 2)
    ensures Inv(k') && k'.cur == 1 && k'.envs[0].status == Runnable && k'.envs[2] == k.envs[2] && k'.envs[1].status == Running
  {
    HandleKeepsInv(k, Timer);
    YieldRuns(k);
    FromZero(0);
    FromZero(1);
    hide IdsOk, Candidate, Yield;
    assert FirstRunnable(k, 0, 0) == 1 by {
      assert !CanRun(k, Candidate(0, 0)) && CanRun(k, Candidate(0, 1));
    }
    k' := EnvRun(k, 1);
  }

  /** When it exits, the search starts over and finds the parent. */
  lemma ChildExits(k: Kernel) returns (k': Kernel)
    requires Inv(k) && k.cur == 1 && k.envs[0].status == Runnable && k.envs[2].status == Runnable
    ensures Steps(k, Crash, k') && EntersScheduler(k, Crash) && Waits(k, Crash, 2) && Starving(k')
  {
    HandleKeepsInv(k, Crash);
    ServeKeeps(k, Crash);
    var m := EnvFree(k, 1).(cur := -1);
    YieldRuns(m);
    FromZero(0);
    hide IdsOk, FreeOk, Candidate, Yield;
    assert CanRun(m, Candidate(0, 0));
    k' := EnvRun(m, 0);
  }

  lemma Extend(states: seq<Kernel>, traps: seq<Trap>, t: Trap, k': Kernel) returns (states': seq<Kernel>, traps': seq<Trap>)
    requires Run(states, traps) && Steps(states[|traps|], t, k')
    ensures states' == states + [k'] && traps' == traps + [t] && Run(states', traps')
    ensures Entries(states', traps', |traps'|) == Entries(states, traps, |traps|) + One(EntersScheduler(states[|traps|], t))
  {
    hide Handle, IdsOk;
    states', traps' := states + [k'], traps + [t];
    forall i | 0 <= i < |traps'|
      ensures && |states'[i].envs| == NENV && 0 <= states'[i].cur < NENV && (states'[i].free != [] ==> states'[i].free[0] < NENV)
              && Handle(states'[i], traps'[i]) == User(states'[i + 1])
    {
      assert i < |traps| ==>
        && |states[i].envs| == NENV && 0 <= states[i].cur < NENV && (states[i].free != [] ==> states[i].free[0] < NENV)
        && Handle(states[i], traps[i]) == User(states[i + 1]);
    }
    EntriesOfPrefix(states, traps, states', traps', |traps|);
  }

  lemma {:induction false} EntriesOfPrefix(states: seq<Kernel>, traps: seq<Trap>, states': seq<Kernel>, traps': seq<Trap>, n: nat)
    requires Run(states, traps) && Run(states', traps') && states <= states' && traps <= traps' && n <= |traps|
    ensures Entries(states', traps', n) == Entries(states, traps, n)
  {
    hide Handle, EntersScheduler, FreeOk, IdsOk;
    if n > 0 {
      EntriesOfPrefix(states, traps, states', traps', n - 1);
    }
  }

  /** Environment 2 stays RUNNABLE in every state of the run, and never runs. */
  ghost predicate PassedOver(states: seq<Kernel>) {
    forall i :: 0 <= i < |states| ==> |states[i].envs| == NENV && states[i].cur != 2 && states[i].envs[2].status == Runnable
  }

  /** A parent in slot 0 that forks a short-lived child into slot 1 again and again starves slot 2: for
      every n there is a run with n such children and 2 * n entries into the scheduler, in none of which
      slot 2 gets the CPU. */
  lemma {:induction false} StarvationRun(k: Kernel, n: nat) returns (states: seq<Kernel>, traps: seq<Trap>)
    requires Starving(k)
    ensures Run(states, traps) && states[0] == k && PassedOver(states) && Starving(states[|traps|])
    ensures Entries(states, traps, |traps|) == 2 * n
    ensures forall i :: 0 <= i < |traps| ==> Waits(states[i], traps[i], 2)
  {
    if n == 0 {
      states, traps := [k], [];
    } else {
      states, traps := StarvationRun(k, n - 1);
      hide Inv, Handle, Waits, EntersScheduler, Entries, Run, Steps;
      states, traps := StarveOnce(states, traps);
    }
  }

  lemma StarveOnce(states: seq<Kernel>, traps: seq<Trap>) returns (states': seq<Kernel>, traps': seq<Trap>)
    requires Run(states, traps) && PassedOver(states) && Starving(states[|traps|])
    requires forall i :: 0 <= i < |traps| ==> Waits(states[i], traps[i], 2)
    ensures Run(states', traps') && states'[0] == states[0] && PassedOver(states') && Starving(states'[|traps'|])
    ensures Entries(states', traps', |traps'|) == Entries(states, traps, |traps|) + 2
    ensures forall i :: 0 <= i < |traps'| ==> Waits(states'[i], traps'[i], 2)
  {
    hide FreeOk, IdsOk, Handle, Waits, EntersScheduler, Entries;
    var k1 := ForkChild(states[|traps|]);
    states', traps' := Extend(states, traps, Exofork(true), k1);
    var k2 := WakeChild(k1);
    states', traps' := Extend(states', traps', SetStatus(k1.envs[1].id, Runnable), k2);
    var k3 := RunChild(k2);
    states', traps' := Extend(states', traps', Timer, k3);
    var k4 := ChildExits(k3);
    states', traps' := Extend(states', traps', Crash, k4);
  }

  // ---- ids over runs -------------------------------------------------------------------------------------

  /** The trap is a sys_exofork that gives out slot e. */
  predicate Allocates(k: Kernel, t: Trap, e: nat) { t.Exofork? && t.memory && k.free != [] && k.free[0] == e }

  lemma StepId(k: Kernel, t: Trap, k': Kernel, e: nat)
    requires Steps(k, t, k') && e < NENV
    ensures |k'.envs| == NENV
    ensures k'.envs[e].id == if Allocates(k, t, e) then NextId(k.envs[e].id, e) else k.envs[e].id
  {
    StepShape(k, t, k');
    ServeId(k, t, e);
    hide Serve, Handle, IdsOk, FreeOk, NextId;
  }

  lemma ServeId(k: Kernel, t: Trap, e: nat)
    requires Inv(k) && k.cur >= 0 && e < NENV
    ensures |Serve(k, t).0.envs| == NENV
    ensures Serve(k, t).0.envs[e].id == if Allocates(k, t, e) then NextId(k.envs[e].id, e) else k.envs[e].id
  {
    hide NextId, IdsOk;
  }

  /** The run counter of an environment that is not new rises, by one, exactly when it gets the CPU
      from another one. */
  lemma StepRuns(k: Kernel, t: Trap, k': Kernel, e: nat)
    requires Steps(k, t, k') && e < NENV && !Allocates(k, t, e)
    ensures |k'.envs| == NENV
    ensures k'.envs[e].runs == if k'.cur == e && k.cur != e then (k.envs[e].runs + 1) % U32 else k.envs[e].runs
  {
    hide Serve, Handle, IdsOk, FreeOk, Allocates;
    StepShape(k, t, k');
    ServeRuns(k, t, e);
    ServeKeepsCur(k, t);
  }

  lemma ServeRuns(k: Kernel, t: Trap, e: nat)
    requires Inv(k) && k.cur >= 0 && e < NENV && !Allocates(k, t, e)
    ensures |Serve(k, t).0.envs| == NENV && Serve(k, t).0.envs[e].runs == k.envs[e].runs
    ensures Serve(k, t).0.cur != k.cur ==> Serve(k, t).0.envs[k.cur].status == Free
  {
    hide NextId, IdsOk;
  }

  /** How often traps i up to n have given out slot e. */
  ghost function Allocations(states: seq<Kernel>, traps: seq<Trap>, e: nat, i: nat, n: nat): nat
    requires i <= n <= |traps| <= |states|
    decreases n
  {
    if n == i then 0
    else Allocations(states, traps, e, i, n - 1) + (if Allocates(states[n - 1], traps[n - 1], e) then 1 else 0)
  }

  /** The generation that c allocations make of generation g. */
  function Advanced(g: nat, c: nat): (r: nat)
    requires 1 <= g <= GENERATIONS
    ensures 1 <= r <= GENERATIONS
  {
    (g - 1 + c) % GENERATIONS + 1
  }

  lemma AdvanceOne(g: nat, c: nat)
    requires 1 <= g <= GENERATIONS
    ensures After(Advanced(g, c)) == Advanced(g, c + 1)
  {
  }

  /** Two generations apart by c allocations are the same exactly when c is a multiple of 2^19 - 1. */
  lemma AdvancedIff(g: nat, c: nat)
    requires 1 <= g <= GENERATIONS
    ensures Advanced(g, c) == g <==> c % GENERATIONS == 0
  {
  }

  lemma {:induction false} IdsAdvance(states: seq<Kernel>, traps: seq<Trap>, e: nat, i: nat, n: nat)
    requires Run(states, traps) && e < NENV && i <= n <= |traps|
    requires |states[i].envs| == NENV && states[i].envs[e].id != 0
    ensures Inv(states[n]) && IdOf(states[i].envs[e].id, e)
    ensures states[n].envs[e].id
         == MakeId(Advanced(states[i].envs[e].id / ENVGEN, Allocations(states, traps, e, i, n)), e)
  {
    hide Handle, FreeOk, IdsOk, Advanced, IdOf, Allocates;
    RunKeepsInv(states, traps, i);
    RunKeepsInv(states, traps, n);
    SlotId(states[i], e);
    if n == i {
      FirstAdvance(states[i].envs[e].id, e);
    } else {
      var p := n - 1;
      IdsAdvance(states, traps, e, i, p);
      IdsAdvanceStep(states, traps, e, i, p);
    }
  }

  lemma SlotId(k: Kernel, e: nat)
    requires Inv(k) && e < NENV && k.envs[e].id != 0
    ensures IdOf(k.envs[e].id, e)
  {
  }

  lemma IdsAdvanceStep(states: seq<Kernel>, traps: seq<Trap>, e: nat, i: nat, p: nat)
    requires Run(states, traps) && e < NENV && i <= p < |traps|
    requires |states[i].envs| == NENV && IdOf(states[i].envs[e].id, e) && Inv(states[p])
    requires states[p].envs[e].id
          == MakeId(Advanced(states[i].envs[e].id / ENVGEN, Allocations(states, traps, e, i, p)), e)
    ensures |states[p + 1].envs| == NENV
    ensures states[p + 1].envs[e].id
         == MakeId(Advanced(states[i].envs[e].id / ENVGEN, Allocations(states, traps, e, i, p + 1)), e)
  {
    RunSteps(states, traps, p);
    StepId(states[p], traps[p], states[p + 1], e);
    hide Run, NextId, FreeOk, StatusOk, IdsOk, Steps, Handle, MakeId, After, Advanced;
    var g, c := states[i].envs[e].id / ENVGEN, Allocations(states, traps, e, i, p);
    assert Allocations(states, traps, e, i, p + 1) == if Allocates(states[p], traps[p], e) then c + 1 else c;
    AdvanceOne(g, c);
    NextIdAfter(Advanced(g, c), e);
  }

  lemma FirstAdvance(id: nat, e: nat)
    requires IdOf(id, e)
    ensures id == MakeId(Advanced(id / ENVGEN, 0), e)
  {
  }

  lemma NextIdAfter(g: nat, e: nat)
    requires 1 <= g <= GENERATIONS && e < NENV
    ensures NextId(MakeId(g, e), e) == MakeId(After(g), e)
  {
    GenerationOf(g, e);
    NextIdOk(MakeId(g, e), e);
  }

  /** An id that slot e had at some time is accepted later exactly when the slot is in use and has
      been given out a multiple of 2^19 - 1 times in between; permissions can only refuse more. */
  lemma StaleIdIff(states: seq<Kernel>, traps: seq<Trap>, e: nat, i: nat, n: nat)
    requires Run(states, traps) && e < NENV && i <= n <= |traps|
    requires |states[i].envs| == NENV && states[i].envs[e].id != 0
    ensures |states[n].envs| == NENV && 0 <= states[n].cur < NENV
    ensures var id, c := states[i].envs[e].id, Allocations(states, traps, e, i, n);
            var accepted := states[n].envs[e].status != Free && c % GENERATIONS == 0;
            && Envid2Env(states[n], id, false) == (if accepted then Some(e) else None)
            && (Envid2Env(states[n], id, true).Some? ==> accepted)
  {
    IdsAdvance(states, traps, e, i, n);
    RunKeepsInv(states, traps, n);
    hide Run, FreeOk, IdsOk, Allocations, Advanced;
    var id, c := states[i].envs[e].id, Allocations(states, traps, e, i, n);
    IdDecodes(id, e);
    AdvancedIff(id / ENVGEN, c);
    GenerationOf(Advanced(id / ENVGEN, c), e);
  }

  /** No two slots have the same id. */
  lemma IdsDistinct(k: Kernel, e: nat, f: nat)
    requires Inv(k) && e < NENV && f < NENV && k.envs[e].id == k.envs[f].id != 0
    ensures e == f
  {
    IdDecodes(k.envs[e].id, e);
    IdDecodes(k.envs[f].id, f);
  }
}
