/** Environments, scheduling and message passing (src/env.c, src/sched.c, src/trap.c) as a state
    machine over the environment table, stepped by traps from user mode. */
module Envs {
  import opened Words
  import Masks

  const NENV: nat := 1024
  const ENVGEN: nat := 0x1000
  const UTOP: nat := 0xEEC0_0000
  const SYS_IPC_RECV: int := 13
  const E_INVAL: int := 3

  datatype Status = Free | Dying | Runnable | Running | NotRunnable

  /** `ret` is eax in the saved frame as the last sys_ipc_recv of the environment left it, which is what
      that call returns when it comes back. */
  datatype Env = Env(id: nat, parent: nat, status: Status, runs: nat, recving: bool, dstva: nat, value: nat, from: nat, ret: int)

  /** `cur` is the slot of curenv, or -1; `free` the list that starts at env_free_list. */
  datatype Kernel = Kernel(envs: seq<Env>, cur: int, free: seq<nat>)

  // ---- environment ids -------------------------------------------------------------------------

  function Envx(id: nat): nat { id % NENV }

  /** The id env_alloc gives to `slot` when the slot last had id `last`. */
  function NextId(last: nat, slot: nat): nat {
    var sum := Int32(last + ENVGEN);
    var generation := sum - sum % NENV;
    (if generation <= 0 then ENVGEN else generation) + slot
  }

  /** envid2env: the slot, or None for -E_BAD_ENV. */
  function Envid2Env(k: Kernel, id: int, checkperm: bool): (r: Option<nat>)
    requires |k.envs| == NENV && 0 <= k.cur < NENV
  {
    if id == 0 then Some(k.cur)
    else
      var e := id % NENV;
      if k.envs[e].status == Free || k.envs[e].id != id then None
      else if checkperm && e != k.cur && k.envs[e].parent != k.envs[k.cur].id then None
      else Some(e)
  }

  // ---- allocation, destruction, switching ---------------------------------------------------------

  function Put(k: Kernel, e: nat, env: Env): Kernel
    requires e < |k.envs|
  {
    k.(envs := k.envs[e := env])
  }

  /** env_alloc once the page directory has been set up. */
  function EnvAlloc(k: Kernel, parent: nat): Kernel
    requires k.free != [] && k.free[0] < |k.envs|
  {
    var e := k.free[0];
    var env := k.envs[e];
    Put(k, e, env.(id := NextId(env.id, e), parent := parent, status := Runnable, runs := 0, recving := false, ret := 0))
      .(free := k.free[1..])
  }

  function EnvFree(k: Kernel, e: nat): Kernel
    requires e < |k.envs|
  {
    Put(k, e, k.envs[e].(status := Free)).(free := [e] + k.free)
  }

  /** env_run up to the point where it leaves the kernel. */
  function EnvRun(k: Kernel, e: nat): Kernel
    requires e < |k.envs| && k.cur < |k.envs|
  {
    if k.cur == e then k
    else
      var k1 := if 0 <= k.cur && k.envs[k.cur].status == Running
                then Put(k, k.cur, k.envs[k.cur].(status := Runnable)) else k;
      Put(k1, e, k1.envs[e].(status := Running, runs := (k1.envs[e].runs + 1) % U32)).(cur := e)
  }

  /** What the scheduler ends in: a user environment, the kernel monitor, or the halt loop. */
  datatype Outcome = User(k: Kernel) | Monitor(k: Kernel) | Halted(k: Kernel)

  /** The i-th slot after `start`, going round. */
  function Candidate(start: nat, i: nat): nat { (start + i) % NENV }

  predicate CanRun(k: Kernel, e: nat)
    requires |k.envs| == NENV
  {
    e < NENV && k.envs[e].status == Runnable
  }

  /** The scheduler's search from the i-th candidate on: the number of the first one that can
      run, or NENV. */
  function FirstRunnable(k: Kernel, start: nat, i: nat): (r: nat)
    requires |k.envs| == NENV && i <= NENV
    ensures i <= r <= NENV && (r < NENV ==> CanRun(k, Candidate(start, r)))
    ensures forall c :: i <= c < r ==> !CanRun(k, Candidate(start, c))
    decreases NENV - i
  {
    if i == NENV || CanRun(k, Candidate(start, i)) then i else FirstRunnable(k, start, i + 1)
  }

  predicate Alive(s: Status) { s == Runnable || s == Running || s == Dying }

  predicate AnyAlive(k: Kernel) { exists e :: 0 <= e < |k.envs| && Alive(k.envs[e].status) }

  /** sched_yield and sched_halt. */
  function Yield(k: Kernel): Outcome
    requires |k.envs| == NENV && k.cur < NENV
  {
    var start := if k.cur >= 0 then Envx(k.envs[k.cur].id) else 0;
    var i := FirstRunnable(k, start, 0);
    if i < NENV then User(EnvRun(k, Candidate(start, i)))
    else if k.cur >= 0 && k.envs[k.cur].status == Running then User(k)
    else if AnyAlive(k) then Halted(k.(cur := -1)) else Monitor(k)
  }

  /** env_destroy up to its call of sched_yield; the flag says whether it makes that call. */
  function EnvDestroy(k: Kernel, e: nat): (Kernel, bool)
    requires |k.envs| == NENV && k.cur < NENV && e < NENV
  {
    if k.envs[e].status == Running && k.cur != e then (Put(k, e, k.envs[e].(status := Dying)), false)
    else if k.cur == e then (EnvFree(k, e).(cur := -1), true)
    else (EnvFree(k, e), false)
  }

  // ---- traps --------------------------------------------------------------------------------------

  /** PTE_P, PTE_W, PTE_U and the three available bits. */
  const PTE_SYSCALL: nat := 0xE07

  /** The page argument of a send. `table`: the sender has a page table for srcva; `entryW`: the entry
      there has PTE_W; `room`: page_insert at the receiver's address finds a page table or a frame. */
  datatype SendPage = SendPage(srcva: nat, perm: nat, table: bool, entryW: bool, room: bool)

  datatype Moved = NoPage | PageMapped | PageError

  /** What becomes of it, in the order in which sys_ipc_try_send looks at it. */
  function MovePage(p: SendPage, dstva: nat): Moved {
    if p.srcva >= UTOP then NoPage
    else if p.srcva % PGSIZE != 0 then PageError
    else if Masks.And(p.perm, PTE_U) == 0 || Masks.And(p.perm, PTE_P) == 0 then PageError
    else if Masks.And(p.perm, U32 - 1 - PTE_SYSCALL) != 0 then PageError
    else if !p.table then PageError
    else if Masks.And(p.perm, PTE_W) != 0 && !p.entryW then PageError
    else if dstva >= UTOP then NoPage
    else if !p.room then PageError
    else PageMapped
  }

  /** A trap by the current environment. `memory` says whether a page directory could be had. */
  datatype Trap =
    | Quiet
    | Timer
    | Crash
    | Destroy(envid: int)
    | Exofork(memory: bool)
    | SetStatus(envid: int, status: Status)
    | TrySend(envid: int, value: nat, page: SendPage)
    | Recv(dstva: nat)

  /** sys_ipc_try_send */
  function SendTo(k: Kernel, e: nat, value: nat, page: SendPage): Kernel
    requires |k.envs| == NENV && 0 <= k.cur < NENV && e < NENV
  {
    if !k.envs[e].recving then k
    else
      var k1 := Put(k, e, k.envs[e].(recving := false));
      if MovePage(page, k.envs[e].dstva) == PageError then k1
      else Put(k1, e, k1.envs[e].(from := k1.envs[k.cur].id, value := value, status := Runnable, ret := 0))
  }

  /** An environment that goes to sleep in sys_ipc_recv. The scheduler does not return, so its saved eax
      remains the number of the system call. */
  function Receiving(env: Env, dstva: nat): Env {
    env.(recving := true, dstva := dstva, status := NotRunnable, ret := SYS_IPC_RECV)
  }

  /** The last lines of trap. */
  function Tail(k: Kernel): Outcome
    requires |k.envs| == NENV && k.cur < NENV
  {
    if k.cur >= 0 && k.envs[k.cur].status == Running then User(k) else Yield(k)
  }

  /** What the handler of a trap does to the table; the flag says whether it then calls
      sched_yield itself instead of returning to trap. */
  function Serve(k: Kernel, t: Trap): (Kernel, bool)
    requires |k.envs| == NENV && 0 <= k.cur < NENV
    requires k.free != [] ==> k.free[0] < NENV
  {
    match t
    case Quiet => (k, false)
    case Timer => (k, true)
    case Crash => EnvDestroy(k, k.cur)
    case Destroy(envid) =>
      (match Envid2Env(k, envid, true)
       case None => (k, false)
       case Some(e) => EnvDestroy(k, e))
    case Exofork(memory) =>
      if k.free == [] || !memory then (k, false)
      else
        var e := k.free[0];
        var k1 := EnvAlloc(k, k.envs[k.cur].id);
        (Put(k1, e, k1.envs[e].(status := NotRunnable)), false)
    case SetStatus(envid, status) =>
      if status != Runnable && status != NotRunnable then (k, false)
      else (match Envid2Env(k, envid, true)
            case None => (k, false)
            case Some(e) => (Put(k, e, k.envs[e].(status := status)), false))
    case TrySend(envid, value, page) =>
      (match Envid2Env(k, envid, false)
       case None => (k, false)
       case Some(e) => (SendTo(k, e, value, page), false))
    case Recv(dstva) =>
      if dstva < UTOP && dstva % PGSIZE != 0 then (Put(k, k.cur, k.envs[k.cur].(ret := -E_INVAL)), false)
      else (Put(k, k.cur, Receiving(k.envs[k.cur], dstva)), true)
  }

  /** A trap from its entry, where a zombie is collected, to the point where the kernel is left. */
  function Handle(k: Kernel, t: Trap): Outcome
    requires |k.envs| == NENV && 0 <= k.cur < NENV
    requires k.free != [] ==> k.free[0] < NENV
  {
    var (m, switches) := if k.envs[k.cur].status == Dying then (EnvFree(k, k.cur).(cur := -1), true) else Serve(k, t);
    if switches then Yield(m) else Tail(m)
  }

  // ---- the table before the first trap -------------------------------------------------------------

  /** env_init */
  function EnvInit(envs: seq<Env>): Kernel {
    Kernel(seq(|envs|, i requires 0 <= i < |envs| => envs[i].(id := 0, status := Free)), -1, seq(|envs|, i => i))
  }
}
