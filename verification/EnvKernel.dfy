/** src/env.c, src/sched.c and the environment half of src/trap.c in their own form: `envs[]` and
    its links updated in place, with the scheduler's search as a loop. */
module EnvKernel {
  import opened Words
  import opened Envs
  import opened EnvTheorems

  /** Where the kernel is left to. */
  datatype Exit = ToUser | ToMonitor | ToHalt

  function Ends(x: Exit, k: Kernel): Outcome {
    match x case ToUser => User(k) case ToMonitor => Monitor(k) case ToHalt => Halted(k)
  }

  class EnvTable {
    const envs: array<Env>
    const link: array<int>
    var envFreeList: int
    var curenv: int
    ghost var free: seq<nat>

    ghost predicate Valid()
      reads this, envs, link
    {
      && envs as object != link && envs.Length == link.Length == NENV && -1 <= curenv < NENV
      && (forall i :: 0 <= i < |free| ==> free[i] < NENV)
      && (forall i, l :: 0 <= i < l < |free| ==> free[i] != free[l])
      && envFreeList == (if free == [] then -1 else free[0])
      && (forall i, l :: 0 <= i < l < |free| && l == i + 1 ==> link[free[i]] == free[l])
      && (free != [] ==> link[free[|free| - 1]] == -1)
    }

    ghost function View(): Kernel
      reads this, envs
    {
      Kernel(envs[..], curenv, free)
    }

    /** env_init over whatever the memory holds. */
    constructor (memory: seq<Env>)
      requires |memory| == NENV
      ensures Valid() && View() == EnvInit(memory) && Inv(View()) && fresh(envs) && fresh(link)
    {
      envs := new Env[NENV](i requires 0 <= i < NENV => memory[i]);
      link := new int[NENV](_ => -1);
      envFreeList, curenv, free := -1, -1, [];
      new;
      InitLoop();
      assert envs[..] == EnvInit(memory).envs;
      EnvInitOk(memory);
    }

    method InitLoop()
      requires Valid() && free == []
      modifies this`envFreeList, this`free, envs, link
      ensures Valid() && free == seq(NENV, i => i)
      ensures forall i :: 0 <= i < NENV ==> envs[i] == old(envs[i]).(id := 0, status := Free)
    {
      var i := NENV - 1;
      while i >= 0
        invariant -1 <= i < NENV && Valid() && free == seq(NENV - 1 - i, j => i + 1 + j)
        invariant forall j :: 0 <= j <= i ==> envs[j] == old(envs[j])
        invariant forall j :: i < j < NENV ==> envs[j] == old(envs[j]).(id := 0, status := Free)
      {
        envs[i] := envs[i].(id := 0, status := Free);
        PushFree(i);
        i := i - 1;
      }
    }

    method PushFree(e: nat)
      requires Valid() && e < NENV && e !in free
      modifies this`envFreeList, this`free, link
      ensures Valid() && free == [e] + old(free)
    {
      link[e] := envFreeList;
      envFreeList := e;
      free := [e] + free;
      assert forall i :: 0 < i < |free| ==> free[i] == old(free)[i - 1];
    }

    method LookupEnv(envid: int, checkperm: bool) returns (r: Option<nat>)
      requires Valid() && curenv >= 0
      ensures r == Envid2Env(View(), envid, checkperm)
    {
      if envid == 0 { return Some(curenv); }
      var e := envid % NENV;
      if envs[e].status == Free || envs[e].id != envid { return None; }
      if checkperm && e != curenv && envs[e].parent != envs[curenv].id { return None; }
      return Some(e);
    }

    /** `memory` says whether env_setup_vm finds a page. */
    method Alloc(parent: nat, memory: bool) returns (r: Option<nat>)
      requires Valid()
      modifies this`envFreeList, this`free, envs
      ensures Valid() && (r.Some? <==> memory && old(free) != [])
      ensures r.None? ==> View() == old(View())
      ensures r.Some? ==> r.value == old(free)[0] && View() == EnvAlloc(old(View()), parent)
    {
      var e := envFreeList;
      if e == -1 || !memory { return None; }
      envs[e] := envs[e].(id := NextId(envs[e].id, e), parent := parent, status := Runnable, runs := 0, recving := false, ret := 0);
      envFreeList := link[e];
      assert |free| > 1 ==> link[free[0]] == free[1];
      free := free[1..];
      return Some(e);
    }

    method Release(e: nat)
      requires Valid() && e < NENV && e !in free
      modifies this`envFreeList, this`free, envs, link
      ensures Valid() && View() == EnvFree(old(View()), e)
    {
      envs[e] := envs[e].(status := Free);
      PushFree(e);
    }

    method Switch(e: nat)
      requires Valid() && e < NENV
      modifies this`curenv, envs
      ensures Valid() && View() == EnvRun(old(View()), e)
    {
      if curenv != e {
        if curenv >= 0 && envs[curenv].status == Running {
          envs[curenv] := envs[curenv].(status := Runnable);
        }
        curenv := e;
        envs[e] := envs[e].(status := Running, runs := (envs[e].runs + 1) % U32);
      }
    }

    /** The scheduler's search: how many slots after `start` the first runnable one is, or NENV. */
    method Search(start: nat) returns (i: nat)
      requires Valid()
      ensures i <= NENV && i == FirstRunnable(View(), start, 0)
    {
      hide FirstRunnable, Candidate, CanRun;
      i := 0;
      while i < NENV
        invariant i <= NENV && FirstRunnable(View(), start, 0) == FirstRunnable(View(), start, i)
      {
        FirstStep(View(), start, i);
        if envs[(start + i) % NENV].status == Runnable { return; }
        i := i + 1;
      }
      FirstStep(View(), start, NENV);
    }

    method SchedYield() returns (x: Exit)
      requires Valid()
      modifies this`curenv, envs
      ensures Valid() && Yield(old(View())) == Ends(x, View())
    {
      hide EnvRun, FirstRunnable, AnyAlive;
      var start := if curenv >= 0 then envs[curenv].id % NENV else 0;
      var i := Search(start);
      if i < NENV {
        Switch((start + i) % NENV);
        x := ToUser;
      } else if curenv >= 0 && envs[curenv].status == Running {
        x := ToUser;
      } else {
        x := SchedHalt();
      }
    }

    method SchedHalt() returns (x: Exit)
      requires Valid()
      modifies this`curenv
      ensures x == if AnyAlive(old(View())) then ToHalt else ToMonitor
      ensures Valid() && View() == old(View()).(cur := if x == ToHalt then -1 else old(curenv))
    {
      var i := 0;
      while i < NENV && !Alive(envs[i].status)
        invariant 0 <= i <= NENV
        invariant forall e :: 0 <= e < i ==> !Alive(envs[e].status)
      {
        i := i + 1;
      }
      if i == NENV { return ToMonitor; }
      assert Alive(View().envs[i].status);
      curenv := -1;
      return ToHalt;
    }

    /** env_destroy up to its call of sched_yield. */
    method Destroy(e: nat) returns (switches: bool)
      requires Valid() && e < NENV && e !in free
      modifies this, envs, link
      ensures Valid() && (View(), switches) == EnvDestroy(old(View()), e)
    {
      if envs[e].status == Running && curenv != e {
        envs[e] := envs[e].(status := Dying);
        return false;
      }
      Release(e);
      switches := curenv == e;
      if switches { curenv := -1; }
    }

    method TrySendTo(e: nat, value: nat, page: SendPage)
      requires Valid() && curenv >= 0 && e < NENV
      modifies envs
      ensures Valid() && View() == SendTo(old(View()), e, value, page)
    {
      if !envs[e].recving { return; }
      envs[e] := envs[e].(recving := false);
      if MovePage(page, envs[e].dstva) == PageError { return; }
      envs[e] := envs[e].(from := envs[curenv].id, value := value, status := Runnable, ret := 0);
    }

    method Exofork(memory: bool)
      requires Valid() && curenv >= 0
      modifies this, envs
      ensures Valid() && (View(), false) == Serve(old(View()), Trap.Exofork(memory))
    {
      hide NextId;
      var r := Alloc(envs[curenv].id, memory);
      if r.Some? {
        envs[r.value] := envs[r.value].(status := NotRunnable);
      }
    }

    method SetStatusOf(e: nat, status: Status)
      requires Valid() && e < NENV
      modifies envs
      ensures Valid() && View() == Put(old(View()), e, old(envs[e]).(status := status))
    {
      envs[e] := envs[e].(status := status);
    }

    method BlockForMessage(dstva: nat)
      requires Valid() && curenv >= 0
      modifies envs
      ensures Valid()
      ensures View() == Put(old(View()), curenv, Receiving(old(envs[curenv]), dstva))
    {
      envs[curenv] := Receiving(envs[curenv], dstva);
    }

    /** The system calls and faults, up to a call of sched_yield or the return to trap. */
    method Dispatch(t: Trap) returns (switches: bool)
      requires Valid() && Inv(View()) && curenv >= 0
      modifies this, envs, link
      ensures Valid() && (View(), switches) == Serve(old(View()), t)
    {
      hide Inv, EnvDestroy, EnvAlloc, SendTo, Envid2Env;
      switches := false;
      match t
      case Quiet =>
      case Timer => switches := true;
      case Crash =>
        LiveNotFree(View(), curenv);
        switches := Destroy(curenv);
      case Destroy(envid) =>
        var r := LookupEnv(envid, true);
        if r.Some? {
          LookupNotFree(View(), envid, true);
          switches := Destroy(r.value);
        }
      case Exofork(memory) =>
        Exofork(memory);
      case SetStatus(envid, status) =>
        if status == Runnable || status == NotRunnable {
          var r := LookupEnv(envid, true);
          if r.Some? {
            LookupNotFree(View(), envid, true);
            SetStatusOf(r.value, status);
          }
        }
      case TrySend(envid, value, page) =>
        var r := LookupEnv(envid, false);
        if r.Some? {
          LookupNotFree(View(), envid, false);
          TrySendTo(r.value, value, page);
        }
      case Recv(dstva) =>
        if dstva >= UTOP || dstva % PGSIZE == 0 {
          BlockForMessage(dstva);
          switches := true;
        } else {
          envs[curenv] := envs[curenv].(ret := -E_INVAL);
        }
    }

    /** trap: on return the CPU is in user mode or in the monitor, never halted, and the table is
        sound again. */
    method HandleTrap(t: Trap) returns (x: Exit)
      requires Valid() && Inv(View()) && curenv >= 0
      modifies this, envs, link
      ensures Valid() && Handle(old(View()), t) == Ends(x, View())
      ensures x != ToHalt && (x == ToUser ==> Inv(View()) && curenv >= 0)
    {
      hide Yield, Serve;
      HandleKeepsInv(View(), t);
      if envs[curenv].status == Dying {
        assert false;
      }
      var switches := Dispatch(t);
      if !switches && curenv >= 0 && envs[curenv].status == Running {
        x := ToUser;
      } else {
        x := SchedYield();
      }
    }
  }

  lemma FirstStep(k: Kernel, start: nat, i: nat)
    requires |k.envs| == NENV && i <= NENV
    ensures FirstRunnable(k, start, i)
         == if i == NENV || k.envs[(start + i) % NENV].status == Runnable then i else FirstRunnable(k, start, i + 1)
  {
  }

  lemma LiveNotFree(k: Kernel, e: nat)
    requires Inv(k) && (k.cur == e || (e < NENV && k.envs[e].status != Free))
    ensures e !in k.free
  {
  }

  lemma LookupNotFree(k: Kernel, id: int, checkperm: bool)
    requires |k.envs| == NENV && Inv(k) && 0 <= k.cur < NENV && Envid2Env(k, id, checkperm).Some?
    ensures Envid2Env(k, id, checkperm).value < NENV && Envid2Env(k, id, checkperm).value !in k.free
  {
    LookupIsLive(k, id, checkperm);
    LiveNotFree(k, Envid2Env(k, id, checkperm).value);
  }
}
