/** Message passing over whole runs (sys_ipc_try_send and sys_ipc_recv in src/trap.c, their callers
    in src/ipc.c): every receive gets one message, in the order in which they were sent. */
module EnvIpc {
  import opened Words
  import opened Envs
  import opened EnvTheorems
  import opened EnvHistory
  import Masks

  // ---- what a trap does to one slot -------------------------------------------------------------------

  predicate Addresses(k: Kernel, id: int, checkperm: bool, e: nat)
    requires |k.envs| == NENV && 0 <= k.cur < NENV
  {
    Envid2Env(k, id, checkperm) == Some(e)
  }

  /** The trap is a sys_ipc_recv by slot e. */
  predicate Receives(k: Kernel, t: Trap, e: nat) {
    t.Recv? && (t.dstva < UTOP ==> t.dstva % PGSIZE == 0) && k.cur == e
  }

  /** The trap is a sys_ipc_recv by slot e that is refused. */
  predicate Refused(k: Kernel, t: Trap, e: nat) { t.Recv? && t.dstva < UTOP && t.dstva % PGSIZE != 0 && k.cur == e }

  /** The trap is a send to slot e while e is receiving, and it fails after clearing e's flag. */
  predicate Strands(k: Kernel, t: Trap, e: nat)
    requires |k.envs| == NENV && 0 <= k.cur < NENV && e < NENV
  {
    t.TrySend? && Addresses(k, t.envid, false, e) && k.envs[e].recving && MovePage(t.page, k.envs[e].dstva) == PageError
  }

  /** The trap is a successful send to slot e. */
  predicate Delivers(k: Kernel, t: Trap, e: nat)
    requires |k.envs| == NENV && 0 <= k.cur < NENV && e < NENV
  {
    t.TrySend? && Addresses(k, t.envid, false, e) && k.envs[e].recving && MovePage(t.page, k.envs[e].dstva) != PageError
  }

  /** The trap is a successful sys_env_set_status of slot e. */
  predicate Interferes(k: Kernel, t: Trap, e: nat)
    requires |k.envs| == NENV && 0 <= k.cur < NENV
  {
    t.SetStatus? && (t.status == Runnable || t.status == NotRunnable) && Addresses(k, t.envid, true, e)
  }

  predicate Kills(k: Kernel, t: Trap, e: nat)
    requires |k.envs| == NENV && 0 <= k.cur < NENV
  {
    (t.Crash? && k.cur == e) || (t.Destroy? && Addresses(k, t.envid, true, e))
  }

  lemma ServeSlot(k: Kernel, t: Trap, e: nat)
    requires Inv(k) && k.cur >= 0 && e < NENV
    ensures |Serve(k, t).0.envs| == NENV
    ensures var env, env' := k.envs[e], Serve(k, t).0.envs[e];
            if Allocates(k, t, e) then env' == env.(id := env'.id, parent := k.envs[k.cur].id, status := NotRunnable, runs := 0, recving := false, ret := 0)
            else if Receives(k, t, e) then env' == env.(recving := true, dstva := t.dstva, status := NotRunnable, ret := 13)
            else if Refused(k, t, e) then env' == env.(ret := -3)
            else if Strands(k, t, e) then env' == env.(recving := false)
            else if Delivers(k, t, e) then
              env' == env.(recving := false, from := k.envs[k.cur].id, value := t.value, status := Runnable, ret := 0)
            else if Interferes(k, t, e) then env' == env.(status := t.status)
            else if Kills(k, t, e) then env' == env.(status := Free)
            else env' == env
  {
    hide NextId, IdsOk, MovePage;
  }

  /** sys_env_destroy and sys_env_set_status by one environment leave every other that is not its child
      as it was, but that the scheduler may then give it the CPU. */
  lemma StrangersUntouched(k: Kernel, t: Trap, k': Kernel, e: nat)
    requires Steps(k, t, k') && e < NENV && (t.Destroy? || t.SetStatus?)
    requires e != k.cur && k.envs[e].parent != k.envs[k.cur].id
    ensures |k'.envs| == NENV
    ensures if k'.cur == e then
              && k.envs[e].status == Runnable
              && k'.envs[e] == k.envs[e].(status := Running, runs := (k.envs[e].runs + 1) % U32)
            else k'.envs[e] == k.envs[e]
  {
    hide Serve, Handle, FreeOk, IdsOk, Envid2Env, Addresses;
    StepShape(k, t, k');
    StrangerServed(k, t, e);
    ServeKeepsCur(k, t);
  }

  lemma StrangerServed(k: Kernel, t: Trap, e: nat)
    requires Inv(k) && k.cur >= 0 && e < NENV && (t.Destroy? || t.SetStatus?)
    requires e != k.cur && k.envs[e].parent != k.envs[k.cur].id
    ensures |Serve(k, t).0.envs| == NENV && Serve(k, t).0.envs[e] == k.envs[e]
  {
    hide Serve, FreeOk, IdsOk, Envid2Env;
    ServeSlot(k, t, e);
    LookupIff(k, t.envid, true, e);
  }

  /** Value and sender of slot e change only when a message is delivered to it, which happens only
      while it is receiving and ends its receiving; only sys_ipc_recv starts that again. */
  lemma FieldsChange(k: Kernel, t: Trap, k': Kernel, e: nat)
    requires Steps(k, t, k') && e < NENV
    ensures |k'.envs| == NENV
    ensures (k'.envs[e].from, k'.envs[e].value)
         == if Delivers(k, t, e) then (k.envs[k.cur].id, t.value) else (k.envs[e].from, k.envs[e].value)
    ensures Delivers(k, t, e) ==> k.envs[e].recving && !k'.envs[e].recving
    ensures k'.envs[e].recving ==> k.envs[e].recving || Receives(k, t, e)
  {
    StepShape(k, t, k');
    ServeSlot(k, t, e);
    hide Serve, Handle, FreeOk, IdsOk, Addresses, Allocates;
    AllocatesOnly(t, k, e);
  }

  lemma AllocatesOnly(t: Trap, k: Kernel, e: nat)
    ensures Allocates(k, t, e) ==> t.Exofork?
  {
  }

  // ---- each receive is matched by at most one send ---------------------------------------------------------

  ghost function Deliveries(states: seq<Kernel>, traps: seq<Trap>, e: nat, n: nat): nat
    requires Run(states, traps) && n <= |traps| && e < NENV
  {
    if n == 0 then 0
    else
      assert n - 1 < |traps| && n - 1 < |states|;
      Deliveries(states, traps, e, n - 1) + One(Delivers(states[n - 1], traps[n - 1], e))
  }

  ghost function Receptions(states: seq<Kernel>, traps: seq<Trap>, e: nat, n: nat): nat
    requires Run(states, traps) && n <= |traps| && e < NENV
  {
    if n == 0 then 0
    else Receptions(states, traps, e, n - 1) + One(Receives(states[n - 1], traps[n - 1], e))
  }

  /** At every point of every run the sends that have succeeded, and the one still awaited, are
      covered by receives. */
  lemma {:induction false} SendsMatchReceives(states: seq<Kernel>, traps: seq<Trap>, e: nat, n: nat)
    requires Run(states, traps) && n <= |traps| && e < NENV
    ensures |states[n].envs| == |states[0].envs| == NENV
    ensures Deliveries(states, traps, e, n) + One(states[n].envs[e].recving)
         <= Receptions(states, traps, e, n) + One(states[0].envs[e].recving)
  {
    hide Steps, Handle, Delivers, Receives, FreeOk, IdsOk;
    if n > 0 {
      var p := n - 1;
      SendsMatchReceives(states, traps, e, p);
      RunSteps(states, traps, p);
      FieldsChange(states[p], traps[p], states[n], e);
    }
  }

  // ---- exactly once, in order ---------------------------------------------------------------------------------

  type Message = (nat, nat)

  /** What ipc_recv gives its caller when sys_ipc_recv comes back: the system-call wrapper panics on a
      positive result; any other result, an error included, is followed by a read of the two fields. */
  function IpcRecv(env: Env): Option<Message> { if env.ret > 0 then None else Some((env.from, env.value)) }

  /** Where slot e stands with its last ipc_recv: it is back, or it waits for sys_ipc_recv to come back,
      or it has panicked. */
  datatype Stage = Back | Waiting | Panicked

  /** The history of slot e since it was last given out: the (sender, value) pairs successfully sent to
      it, and those its calls of ipc_recv returned. */
  datatype Mail = Mail(stage: Stage, sent: seq<Message>, seen: seq<Message>)

  function Returned(h: Mail, env: Env): Mail {
    match IpcRecv(env)
    case None => h.(stage := Panicked)
    case Some(message) => h.(stage := Back, seen := h.seen + [message])
  }

  /** What the handler of a trap adds; a refused receive is back at once. */
  ghost function MailServed(h: Mail, k: Kernel, t: Trap, e: nat): Mail
    requires |k.envs| == NENV && 0 <= k.cur < NENV && e < NENV
  {
    if Allocates(k, t, e) then Mail(Back, [], [])
    else if Receives(k, t, e) then h.(stage := Waiting)
    else if Refused(k, t, e) then Returned(h, k.envs[e].(ret := -E_INVAL))
    else if Delivers(k, t, e) then h.(sent := h.sent + [(k.envs[k.cur].id, t.value)])
    else h
  }

  /** A receive that slept comes back when its environment next has the CPU. */
  ghost function MailStep(h: Mail, k: Kernel, t: Trap, k': Kernel, e: nat): Mail
    requires |k.envs| == NENV && 0 <= k.cur < NENV && e < NENV && |k'.envs| == NENV
  {
    var h1 := MailServed(h, k, t, e);
    if h1.stage.Waiting? && k'.cur == e then Returned(h1, k'.envs[e]) else h1
  }

  /** The promise: messages are received once each and in order, at most one being on its way. */
  predicate InOrder(h: Mail) { h.seen <= h.sent && |h.sent| <= |h.seen| + 1 }

  /** How the history of slot e fits its fields. */
  ghost predicate MailOk(env: Env, current: bool, h: Mail) {
    match h.stage
    case Back => h.sent == h.seen && (env.status != Free ==> !env.recving)
    case Waiting =>
      && !current && env.status != Running && env.status != Dying
      && if env.ret == 0 then !env.recving && h.sent == h.seen + [(env.from, env.value)]
         else env.ret == SYS_IPC_RECV && h.sent == h.seen
    case Panicked => InOrder(h) && (env.status != Free && env.recving ==> h.sent == h.seen)
  }

  lemma LooksUpLive(k: Kernel, id: int, checkperm: bool, e: nat)
    requires Inv(k) && k.cur >= 0 && e < NENV && Addresses(k, id, checkperm, e)
    ensures k.envs[e].status != Free
  {
  }

  /** A panicked environment stays in the loop of _panic: it makes no further receive. */
  predicate StaysPanicked(h: Mail, k: Kernel, t: Trap, e: nat) { h.stage.Panicked? && k.cur == e ==> !t.Recv? }

  lemma ServeKeepsMail(k: Kernel, t: Trap, e: nat, h: Mail)
    requires Inv(k) && k.cur >= 0 && e < NENV && MailOk(k.envs[e], k.cur == e, h)
    requires StaysPanicked(h, k, t, e) && !Refused(k, t, e)
    ensures |Serve(k, t).0.envs| == NENV
    ensures MailOk(Serve(k, t).0.envs[e], Serve(k, t).0.cur == e && !Receives(k, t, e), MailServed(h, k, t, e))
  {
    hide Serve, FreeOk, IdsOk, Envid2Env, Addresses, MovePage;
    ServeSlot(k, t, e);
    ServeKeepsCur(k, t);
    if t.TrySend? && Addresses(k, t.envid, false, e) {
      LooksUpLive(k, t.envid, false, e);
    }
    if (t.Destroy? || t.SetStatus?) && Addresses(k, t.envid, true, e) {
      LooksUpLive(k, t.envid, true, e);
    }
  }

  /** The fields of slot e after the scheduler, for the history's purposes. */
  lemma Redispatched(k: Kernel, t: Trap, k': Kernel, e: nat)
    requires Steps(k, t, k') && e < NENV
    ensures |Serve(k, t).0.envs| == NENV && |k'.envs| == NENV
    ensures var env, env' := Serve(k, t).0.envs[e], k'.envs[e];
            && env' == env.(status := env'.status, runs := env'.runs)
            && (k'.cur == e ==> Ready(env.status))
            && (env'.status == env.status || (Ready(env.status) && Ready(env'.status)))
            && (k'.cur != e && env.status != Running ==> env'.status == env.status)
    ensures Receives(k, t, e) ==> k'.cur != e
  {
    hide Serve, Handle, FreeOk, IdsOk, Addresses, Allocates, MovePage, Delivers, Interferes, Strands, Kills, Refused;
    StepShape(k, t, k');
    ServeSlot(k, t, e);
    AllocatesOnly(t, k, e);
  }

  /** Every trap except a refused receive keeps history and fields in step, whatever anybody does to the
      status of the receiver. */
  lemma StepKeepsMail(k: Kernel, t: Trap, k': Kernel, e: nat, h: Mail)
    requires Steps(k, t, k') && e < NENV && MailOk(k.envs[e], k.cur == e, h)
    requires StaysPanicked(h, k, t, e) && !Refused(k, t, e)
    ensures |k'.envs| == NENV && MailOk(k'.envs[e], k'.cur == e, MailStep(h, k, t, k', e))
  {
    ServeKeepsMail(k, t, e, h);
    Redispatched(k, t, k', e);
    hide Serve, Handle, FreeOk, IdsOk, MailServed, Receives;
  }

  /** A refused receive returns the last message, or whatever the fields hold, once more. */
  lemma RefusedReturns(k: Kernel, t: Trap, k': Kernel, e: nat, h: Mail)
    requires Steps(k, t, k') && e < NENV && MailOk(k.envs[e], k.cur == e, h)
    requires StaysPanicked(h, k, t, e) && Refused(k, t, e)
    ensures |k'.envs| == NENV
    ensures var h' := MailStep(h, k, t, k', e);
            h'.sent == h.sent == h.seen && h'.seen == h.sent + [(k.envs[e].from, k.envs[e].value)]
  {
    hide Serve, Handle, FreeOk, IdsOk, Addresses, Allocates;
    StepShape(k, t, k');
    AllocatesOnly(t, k, e);
  }

  /** One trap keeps the promise if and only if it is not a refused receive. */
  lemma StepInOrderIff(k: Kernel, t: Trap, k': Kernel, e: nat, h: Mail)
    requires Steps(k, t, k') && e < NENV && MailOk(k.envs[e], k.cur == e, h) && StaysPanicked(h, k, t, e)
    ensures |k'.envs| == NENV && (InOrder(MailStep(h, k, t, k', e)) <==> !Refused(k, t, e))
  {
    hide Handle, FreeOk, IdsOk, MailStep, Refused, StaysPanicked;
    if Refused(k, t, e) {
      RefusedReturns(k, t, k', e, h);
    } else {
      StepKeepsMail(k, t, k', e, h);
    }
  }

  /** A receiver that gets the CPU before a message has come, because somebody set it to RUNNABLE,
      panics in the system-call wrapper: its saved eax is the number of the call. It returns nothing. */
  lemma WokenReceiverPanics(k: Kernel, t: Trap, k': Kernel, e: nat, h: Mail)
    requires Steps(k, t, k') && e < NENV && MailOk(k.envs[e], k.cur == e, h) && h.stage.Waiting?
    requires h.sent == h.seen && !Delivers(k, t, e) && !Allocates(k, t, e) && k'.cur == e
    ensures |k'.envs| == NENV && k'.envs[e].ret == SYS_IPC_RECV
    ensures MailStep(h, k, t, k', e) == h.(stage := Panicked)
  {
    hide Serve, Handle, FreeOk, IdsOk, Addresses, Allocates, MovePage;
    Redispatched(k, t, k', e);
    ServeSlot(k, t, e);
  }

  // ---- over runs -----------------------------------------------------------------------------------------------

  lemma RunTables(states: seq<Kernel>, traps: seq<Trap>)
    requires Run(states, traps)
    ensures forall i :: 0 <= i < |states| ==> |states[i].envs| == NENV && 0 <= states[i].cur < NENV
  {
    forall i | 0 <= i < |states|
      ensures |states[i].envs| == NENV && 0 <= states[i].cur < NENV
    {
      RunKeepsInv(states, traps, i);
    }
  }

  /** The history of slot e after n traps of a run in which it starts out not receiving. */
  ghost function MailAfter(states: seq<Kernel>, traps: seq<Trap>, e: nat, n: nat): Mail
    requires Run(states, traps) && n <= |traps| && e < NENV
  {
    if n == 0 then Mail(Back, [], [])
    else
      RunTables(states, traps);
      MailStep(MailAfter(states, traps, e, n - 1), states[n - 1], traps[n - 1], states[n], e)
  }

  /** Slot e receives through ipc_recv, so that a panic in it is final. */
  ghost predicate PanicIsFinal(states: seq<Kernel>, traps: seq<Trap>, e: nat, n: nat)
    requires Run(states, traps) && n <= |traps| && e < NENV
  {
    forall i: nat :: i < n ==> StaysPanicked(MailAfter(states, traps, e, i), states[i], traps[i], e)
  }

  ghost predicate NeverRefused(states: seq<Kernel>, traps: seq<Trap>, e: nat, n: nat)
    requires n <= |traps| && n <= |states|
  {
    forall i: nat :: i < n ==> !Refused(states[i], traps[i], e)
  }

  ghost predicate AlwaysInOrder(states: seq<Kernel>, traps: seq<Trap>, e: nat, n: nat)
    requires Run(states, traps) && n <= |traps| && e < NENV
  {
    forall i: nat :: i <= n ==> InOrder(MailAfter(states, traps, e, i))
  }

  ghost predicate NotReceiving(k: Kernel, e: nat)
    requires |k.envs| == NENV && e < NENV
  {
    k.envs[e].status == Free || !k.envs[e].recving
  }

  lemma {:induction false} RunKeepsMail(states: seq<Kernel>, traps: seq<Trap>, e: nat, n: nat)
    requires Run(states, traps) && n <= |traps| && e < NENV && NotReceiving(states[0], e)
    requires PanicIsFinal(states, traps, e, n) && NeverRefused(states, traps, e, n)
    ensures |states[n].envs| == NENV
    ensures MailOk(states[n].envs[e], states[n].cur == e, MailAfter(states, traps, e, n))
  {
    hide Handle, FreeOk, IdsOk, Steps, MailStep, StaysPanicked, Refused;
    RunTables(states, traps);
    if n > 0 {
      var p := n - 1;
      RunKeepsMail(states, traps, e, p);
      RunSteps(states, traps, p);
      StepKeepsMail(states[p], traps[p], states[n], e, MailAfter(states, traps, e, p));
    }
  }

  /** What the history says in step with the fields. */
  lemma MailOkMeans(env: Env, current: bool, h: Mail)
    requires MailOk(env, current, h)
    ensures InOrder(h) && (h.stage.Back? ==> h.seen == h.sent)
    ensures h.stage.Waiting? && h.seen != h.sent ==> h.sent == h.seen + [(env.from, env.value)]
    ensures current ==> h.stage.Panicked? || h.seen == h.sent
  {
  }

  /** Delivery is exactly once and in order: in every run in which slot e makes no refused receive,
      whatever anybody does to its status, the messages that its receives returned are those sent to
      it, but for at most one, which is then in its fields unless it has panicked; and whenever it has
      the CPU, and has not panicked, they are all of them. */
  lemma ExactlyOnce(states: seq<Kernel>, traps: seq<Trap>, e: nat, n: nat)
    requires Run(states, traps) && n <= |traps| && e < NENV && NotReceiving(states[0], e)
    requires PanicIsFinal(states, traps, e, n) && NeverRefused(states, traps, e, n)
    ensures |states[n].envs| == NENV
    ensures var h := MailAfter(states, traps, e, n);
            && InOrder(h)
            && (!h.stage.Panicked? && (states[n].cur == e || h.stage.Back?) ==> h.seen == h.sent)
            && (!h.stage.Panicked? && h.seen != h.sent ==>
                  h.sent == h.seen + [(states[n].envs[e].from, states[n].envs[e].value)])
  {
    hide Handle, FreeOk, IdsOk, MailAfter, MailOk, PanicIsFinal, NeverRefused;
    RunKeepsMail(states, traps, e, n);
    MailOkMeans(states[n].envs[e], states[n].cur == e, MailAfter(states, traps, e, n));
  }

  lemma {:induction false} InOrderMeansNeverRefused(states: seq<Kernel>, traps: seq<Trap>, e: nat, n: nat)
    requires Run(states, traps) && n <= |traps| && e < NENV && NotReceiving(states[0], e)
    requires PanicIsFinal(states, traps, e, n) && AlwaysInOrder(states, traps, e, n)
    ensures NeverRefused(states, traps, e, n)
  {
    hide Handle, FreeOk, IdsOk, Steps, MailStep, InOrder, Refused, StaysPanicked;
    RunTables(states, traps);
    if n > 0 {
      var p := n - 1;
      InOrderMeansNeverRefused(states, traps, e, p);
      RunKeepsMail(states, traps, e, p);
      RunSteps(states, traps, p);
      assert InOrder(MailAfter(states, traps, e, n));
      StepInOrderIff(states[p], traps[p], states[n], e, MailAfter(states, traps, e, p));
    }
  }

  lemma NeverRefusedMeansInOrder(states: seq<Kernel>, traps: seq<Trap>, e: nat, n: nat)
    requires Run(states, traps) && n <= |traps| && e < NENV && NotReceiving(states[0], e)
    requires PanicIsFinal(states, traps, e, n) && NeverRefused(states, traps, e, n)
    ensures AlwaysInOrder(states, traps, e, n)
  {
    hide Handle, FreeOk, IdsOk, MailAfter, Refused, StaysPanicked, InOrder;
    forall i: nat | i <= n
      ensures InOrder(MailAfter(states, traps, e, i))
    {
      ExactlyOnce(states, traps, e, i);
    }
  }

  /** Over every run, reception is once and in order throughout if and only if slot e never calls
      ipc_recv with a page address below UTOP that is not aligned. */
  lemma ExactlyOnceIff(states: seq<Kernel>, traps: seq<Trap>, e: nat, n: nat)
    requires Run(states, traps) && n <= |traps| && e < NENV && NotReceiving(states[0], e)
    requires PanicIsFinal(states, traps, e, n)
    ensures AlwaysInOrder(states, traps, e, n) <==> NeverRefused(states, traps, e, n)
  {
    hide Handle, FreeOk, IdsOk, NotReceiving, AlwaysInOrder, NeverRefused, PanicIsFinal;
    if NeverRefused(states, traps, e, n) {
      NeverRefusedMeansInOrder(states, traps, e, n);
    }
    if AlwaysInOrder(states, traps, e, n) {
      InOrderMeansNeverRefused(states, traps, e, n);
    }
  }

  // ---- the two ways a receive goes wrong ---------------------------------------------------------------------------

  /** When one environment is RUNNABLE, the scheduler runs it. */
  lemma OnlyOneYields(m: Kernel, e: nat)
    requires Inv(m) && e < NENV && m.envs[e].status == Runnable
    requires forall f :: 0 <= f < NENV && m.envs[f].status == Runnable ==> f == e
    ensures Yield(m) == User(EnvRun(m, e))
  {
    hide FreeOk, IdsOk, Yield, Candidate, EnvRun;
    YieldRuns(m);
    var start := if m.cur >= 0 then m.cur else 0;
    if FirstRunnable(m, start, 0) == NENV {
      NobodyRunnable(m, start);
      assert false;
    }
  }

  /** Slot 0 runs and can be sent to; slot 1 is the only one that waits for the CPU. */
  ghost predicate TwoReady(k: Kernel) {
    && Inv(k) && k.cur == 0 && k.envs[0].status == Running && !k.envs[0].recving && k.envs[1].status == Runnable
    && forall f :: 0 <= f < NENV && k.envs[f].status == Runnable ==> f == 1
  }

  lemma TwoReadyState(envs: seq<Env>) returns (k: Kernel)
    requires |envs| == NENV
    ensures TwoReady(k)
  {
    hide IdsOk, NextId;
    var k0 := EnvInit(envs);
    EnvInitOk(envs);
    AllocKeeps(k0, 0);
    var k1 := EnvAlloc(k0, 0);
    AllocKeeps(k1, 0);
    var k2 := EnvAlloc(k1, 0);
    RunKeeps(k2, 0);
    k := EnvRun(k2, 0);
  }

  lemma SleepStep(k: Kernel) returns (k': Kernel)
    requires TwoReady(k)
    ensures Steps(k, Recv(UTOP), k') && Inv(k') && k'.cur == 1 && k'.envs[1].status == Running
    ensures k'.envs[1] == k.envs[1].(status := Running, runs := k'.envs[1].runs) && k'.envs[0] == Receiving(k.envs[0], UTOP)
    ensures forall f :: 0 <= f < NENV ==> k'.envs[f].status != Runnable
  {
    hide FreeOk, IdsOk, Yield;
    FreeHead(k);
    var m := Put(k, 0, Receiving(k.envs[0], UTOP));
    assert Serve(k, Recv(UTOP)) == (m, true);
    ServeKeeps(k, Recv(UTOP));
    OnlyOneYields(m, 1);
    k' := EnvRun(m, 1);
    RunKeeps(m, 1);
  }

  /** A send without a page. */
  const NO_PAGE := SendPage(UTOP, 0, false, false, false)

  lemma SendStep(k: Kernel, value: nat) returns (k': Kernel)
    requires Inv(k) && k.cur == 1 && k.envs[1].status == Running && k.envs[0].recving && k.envs[0].status == NotRunnable
    requires forall f :: 0 <= f < NENV ==> k.envs[f].status != Runnable
    ensures var t := TrySend(k.envs[0].id, value, NO_PAGE); Steps(k, t, k') && Delivers(k, t, 0)
    ensures Inv(k') && k'.cur == 1 && k'.envs[1] == k.envs[1] && k'.envs[0].ret == 0 && !k'.envs[0].recving
    ensures k'.envs[0].status == Runnable && k'.envs[0].from == k.envs[1].id && k'.envs[0].value == value
    ensures forall f :: 0 <= f < NENV && k'.envs[f].status == Runnable ==> f == 0
  {
    hide FreeOk, Yield;
    var t := TrySend(k.envs[0].id, value, NO_PAGE);
    FreeHead(k);
    IdDecodes(k.envs[0].id, 0);
    assert Envid2Env(k, k.envs[0].id, false) == Some(0);
    ServeKeeps(k, t);
    hide IdsOk, Envid2Env;
    k' := SendTo(k, 0, value, NO_PAGE);
  }

  lemma TimerStep(k: Kernel, e: nat) returns (k': Kernel)
    requires Inv(k) && k.cur >= 0 && e < NENV && e != k.cur && k.envs[e].status == Runnable
    requires forall f :: 0 <= f < NENV && k.envs[f].status == Runnable ==> f == e
    ensures Steps(k, Timer, k') && Inv(k') && k'.cur == e && k'.envs[e].status == Running
    ensures k'.envs[e] == k.envs[e].(status := Running, runs := k'.envs[e].runs)
  {
    HandleKeepsInv(k, Timer);
    hide FreeOk, IdsOk, Yield;
    OnlyOneYields(k, e);
    k' := EnvRun(k, e);
    FreeHead(k);
  }

  lemma FreeHead(k: Kernel)
    requires Inv(k)
    ensures k.free != [] ==> k.free[0] < NENV
  {
  }

  lemma RefusedStep(k: Kernel) returns (k': Kernel)
    requires Inv(k) && k.cur == 0 && k.envs[0].status == Running
    ensures Steps(k, Recv(1), k') && Refused(k, Recv(1), 0)
  {
    hide FreeOk, IdsOk, Yield;
    FreeHead(k);
    k' := Serve(k, Recv(1)).0;
  }

  /** A run in which slot 0 receives the one message that is sent to it, then calls ipc_recv with the
      page address 1, and gets the same message again. */
  lemma ReceivedTwice(k: Kernel, value: nat) returns (states: seq<Kernel>, traps: seq<Trap>)
    requires TwoReady(k)
    ensures Run(states, traps) && |traps| == 4 && states[0] == k && PanicIsFinal(states, traps, 0, 4)
    ensures MailAfter(states, traps, 0, 4)
         == Mail(Back, [(k.envs[1].id, value)], [(k.envs[1].id, value), (k.envs[1].id, value)])
  {
    hide Handle, FreeOk, IdsOk, MovePage, Addresses;
    var k1 := SleepStep(k);
    var k2 := SendStep(k1, value);
    var k3 := TimerStep(k2, 0);
    var k4 := RefusedStep(k3);
    states, traps := FourSteps(k, Recv(UTOP), k1, TrySend(k1.envs[0].id, value, NO_PAGE), k2, Timer, k3, Recv(1), k4);
    var m := (k.envs[1].id, value);
    assert MailAfter(states, traps, 0, 0) == Mail(Back, [], []);
    assert MailAfter(states, traps, 0, 1) == Mail(Waiting, [], []);
    assert MailAfter(states, traps, 0, 2) == Mail(Waiting, [m], []);
    assert MailAfter(states, traps, 0, 3) == Mail(Back, [m], [m]);
    assert MailAfter(states, traps, 0, 4) == Mail(Back, [m], [m, m]);
  }

  lemma FourSteps(k: Kernel, t1: Trap, k1: Kernel, t2: Trap, k2: Kernel, t3: Trap, k3: Kernel, t4: Trap, k4: Kernel)
    returns (states: seq<Kernel>, traps: seq<Trap>)
    requires Steps(k, t1, k1) && Steps(k1, t2, k2) && Steps(k2, t3, k3) && Steps(k3, t4, k4)
    ensures states == [k, k1, k2, k3, k4] && traps == [t1, t2, t3, t4] && Run(states, traps)
  {
    hide Handle, FreeOk, IdsOk, Entries;
    states, traps := [k], [];
    states, traps := Extend(states, traps, t1, k1);
    states, traps := Extend(states, traps, t2, k2);
    states, traps := Extend(states, traps, t3, k3);
    states, traps := Extend(states, traps, t4, k4);
  }

  /** The parent of a sleeping receiver sets it to RUNNABLE and is preempted: the receiver panics. */
  lemma WakingPanics(k: Kernel, e: nat, h: Mail) returns (k1: Kernel, k2: Kernel)
    requires Inv(k) && k.cur >= 0 && k.envs[k.cur].status == Running && e < NENV && e != k.cur
    requires k.envs[e].status == NotRunnable && k.envs[e].parent == k.envs[k.cur].id
    requires forall f :: 0 <= f < NENV ==> k.envs[f].status != Runnable
    requires h.stage.Waiting? && h.sent == h.seen && MailOk(k.envs[e], false, h)
    ensures Steps(k, SetStatus(k.envs[e].id, Runnable), k1) && Steps(k1, Timer, k2) && |k1.envs| == |k2.envs| == NENV
    ensures MailStep(MailStep(h, k, SetStatus(k.envs[e].id, Runnable), k1, e), k1, Timer, k2, e) == h.(stage := Panicked)
  {
    k1 := WokenByParent(k, e);
    k2 := TimerStep(k1, e);
    hide Handle, FreeOk, IdsOk, MovePage, Addresses;
    WokenReceiverPanics(k1, Timer, k2, e, h);
  }

  lemma WokenByParent(k: Kernel, e: nat) returns (k1: Kernel)
    requires Inv(k) && k.cur >= 0 && k.envs[k.cur].status == Running && e < NENV && e != k.cur
    requires k.envs[e].status == NotRunnable && k.envs[e].parent == k.envs[k.cur].id
    ensures k1 == Put(k, e, k.envs[e].(status := Runnable)) && Steps(k, SetStatus(k.envs[e].id, Runnable), k1) && Inv(k1)
  {
    IdDecodes(k.envs[e].id, e);
    k1 := Put(k, e, k.envs[e].(status := Runnable));
    HandleKeepsInv(k, SetStatus(k.envs[e].id, Runnable));
    hide Yield, FreeOk;
  }

  // ---- sends that fail -------------------------------------------------------------------------------------------

  ghost predicate Blocked(k: Kernel, e: nat) { e < |k.envs| && k.cur != e && k.envs[e].status == NotRunnable }

  /** A send to a blocked receiver wakes it exactly when it offers no page, or an aligned page with
      proper permissions from an address with a page table, not writable beyond its own entry, for
      which the receiver's address, if it wants a page, has room. Otherwise the receiver stays blocked
      and no longer receives. */
  lemma SendWakesIff(k: Kernel, t: Trap, k': Kernel, e: nat)
    requires Steps(k, t, k') && e < NENV && Blocked(k, e) && k.envs[e].recving
    requires t.TrySend? && Addresses(k, t.envid, false, e)
    ensures |k'.envs| == NENV && !k'.envs[e].recving
    ensures var p, dstva := t.page, k.envs[e].dstva;
            Ready(k'.envs[e].status) <==>
              p.srcva >= UTOP ||
              (&& p.srcva % PGSIZE == 0
               && Masks.And(p.perm, PTE_U) != 0 && Masks.And(p.perm, PTE_P) != 0
               && Masks.And(p.perm, U32 - 1 - PTE_SYSCALL) == 0
               && p.table && (Masks.And(p.perm, PTE_W) != 0 ==> p.entryW)
               && (dstva < UTOP ==> p.room))
    ensures Blocked(k', e) <==> !Ready(k'.envs[e].status)
  {
    StepShape(k, t, k');
    ServeSlot(k, t, e);
    ServeKeepsCur(k, t);
    hide Serve, Handle, FreeOk, IdsOk, Addresses;
  }

  /** Exactly when a page moves: one is offered that is fit to be sent, and the receiver wants one and
      has room; and exactly when the message goes without one. */
  lemma MovedIff(p: SendPage, dstva: nat)
    ensures var fit := p.srcva % 4096 == 0 && Masks.And(p.perm, 4) != 0 && Masks.And(p.perm, 1) != 0 &&
                       Masks.And(p.perm, 0xFFFF_F1F8) == 0 && p.table && (Masks.And(p.perm, 2) != 0 ==> p.entryW);
            && (MovePage(p, dstva) == PageMapped <==> p.srcva < 0xEEC0_0000 && fit && dstva < 0xEEC0_0000 && p.room)
            && (MovePage(p, dstva) == NoPage <==> p.srcva >= 0xEEC0_0000 || (fit && dstva >= 0xEEC0_0000))
  {
  }

  /** A stranded receiver stays stranded, and every later send to it fails, until some other
      environment sets its status or destroys it. */
  lemma StrandedStays(k: Kernel, t: Trap, k': Kernel, e: nat)
    requires Steps(k, t, k') && e < NENV && Blocked(k, e) && !k.envs[e].recving
    requires !Interferes(k, t, e) && !Kills(k, t, e)
    ensures Blocked(k', e) && !k'.envs[e].recving && !Delivers(k, t, e)
  {
    StepShape(k, t, k');
    ServeSlot(k, t, e);
    ServeKeepsCur(k, t);
    hide Serve, Handle, IdsOk, Addresses;
  }
}
