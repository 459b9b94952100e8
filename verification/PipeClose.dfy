/** The mappings behind one pipe (src/pipe.c, src/fd.c): which descriptors have the Fd page of an end
    and which have the pipe page, while any number of environments dup, close, fork and die. Every
    system call is one step, and the running environment can be changed between any two. */
module PipeClose {
  import opened Words

  const MAXFD: nat := 32

  datatype End = ReadEnd | WriteEnd

  /** Descriptor number `i` of environment `e`. */
  datatype Fd = Fd(e: nat, i: nat)

  /** The next system call of an environment inside the library.
      Close*: fd_close of descriptor i, on its own or, with `dup`, at the start of dup(dup.value, i).
      Dup*: the two map calls of dup(src, i). Undo*: its error exit.
      Copying: the ascending copy loop of fork and spawn, whose position is born[child].
      Sweeping: the ascending sweep of env_free, which is at the k-th descriptor or data page. */
  datatype Task =
    | CloseFd(i: nat, dup: Option<nat>)
    | CloseData(i: nat, dup: Option<nat>)
    | CloseAgain(i: nat, dup: Option<nat>)
    | DupData(src: nat, i: nat)
    | DupFd(src: nat, i: nat)
    | UndoFd(i: nat)
    | UndoData(i: nat)
    | Copying(child: nat)
    | Sweeping(k: nat)

  /** `fds`: the descriptors whose Fd page is the one of an end; `datas`: those whose data page is
      the pipe page; `cur`: who runs; `runs`: env_runs of every environment that ever was; `born`: how
      far a child that cannot run yet has been copied. */
  datatype State = State(
    fds: map<Fd, End>, datas: set<Fd>, cur: nat, runs: map<nat, nat>, tasks: map<nat, Task>, born: map<nat, nat>)

  /** `Go` is the next call of the running environment's task; `Fail` is that call when it is a
      sys_page_map without memory. `Sweep` is one page_remove of env_free. */
  datatype Step =
    | BeginClose(i: nat)
    | BeginDup(src: nat, i: nat)
    | BeginFork(c: nat)
    | Go
    | Fail
    | Kill(v: nat)
    | Sweep(v: nat)
    | Switch(e: nat)

  predicate Alive(s: State, e: nat) { e in s.runs && e !in s.born && !(e in s.tasks && s.tasks[e].Sweeping?) }

  predicate Idle(s: State, e: nat) { Alive(s, e) && e !in s.tasks }

  predicate Busy(s: State) {
    Alive(s, s.cur) && s.cur in s.tasks && (s.tasks[s.cur].Copying? ==> s.tasks[s.cur].child in s.born)
  }

  /** No page of the pipe is mapped in environment c, so that its page table may be missing. */
  ghost predicate Untouched(s: State, c: nat) {
    (forall x :: x in s.fds ==> x.e != c) && (forall x :: x in s.datas ==> x.e != c)
  }

  ghost predicate Enabled(s: State, t: Step) {
    match t
    case BeginClose(i) => Idle(s, s.cur) && i < MAXFD
    case BeginDup(src, i) => Idle(s, s.cur) && src < MAXFD && i < MAXFD
    case BeginFork(c) => Idle(s, s.cur) && c !in s.runs
    case Go => Busy(s)
    case Fail =>
      && Busy(s)
      && (match s.tasks[s.cur]
          case DupData(_, _) => true
          case DupFd(_, _) => true
          case Copying(c) => Untouched(s, c) && s.born[c] < 2 * MAXFD
          case _ => false)
    case Kill(v) => Alive(s, v)
    case Sweep(v) => v in s.tasks && s.tasks[v].Sweeping? && s.tasks[v].k < 2 * MAXFD
    case Switch(e) => Alive(s, e)
  }

  function At(s: State, t: Task): State { s.(tasks := s.tasks[s.cur := t]) }

  function Done(s: State): State { s.(tasks := s.tasks - {s.cur}) }

  /** One call of the running environment's task. Descriptors that are not of this pipe are left out:
      closing one changes nothing here, and dup of one puts something else into the target. */
  function Advance(s: State): State
    requires Busy(s)
  {
    var e := s.cur;
    match s.tasks[e]
    case CloseFd(i, src) => At(s.(fds := s.fds - {Fd(e, i)}), CloseData(i, src))
    case CloseData(i, src) => At(s.(datas := s.datas - {Fd(e, i)}), CloseAgain(i, src))
    case CloseAgain(i, src) =>
      var s1 := s.(fds := s.fds - {Fd(e, i)});
      if src.None? then Done(s1) else At(s1, DupData(src.value, i))
    case DupData(src, i) =>
      At(if Fd(e, src) in s.datas then s.(datas := s.datas + {Fd(e, i)}) else s, DupFd(src, i))
    case DupFd(src, i) =>
      Done(if Fd(e, src) in s.fds then s.(fds := s.fds[Fd(e, i) := s.fds[Fd(e, src)]])
           else s.(fds := s.fds - {Fd(e, i)}))
    case UndoFd(i) => At(s.(fds := s.fds - {Fd(e, i)}), UndoData(i))
    case UndoData(i) => Done(s.(datas := s.datas - {Fd(e, i)}))
    case Copying(c) =>
      var k := s.born[c];
      if k < MAXFD then
        s.(fds := if Fd(e, k) in s.fds then s.fds[Fd(c, k) := s.fds[Fd(e, k)]] else s.fds, born := s.born[c := k + 1])
      else if k < 2 * MAXFD then
        s.(datas := if Fd(e, k - MAXFD) in s.datas then s.datas + {Fd(c, k - MAXFD)} else s.datas,
           born := s.born[c := k + 1])
      else Done(s.(born := s.born - {c}))
    case Sweeping(_) => s
  }

  function Next(s: State, t: Step): State
    requires Enabled(s, t)
  {
    match t
    case BeginClose(i) => if Fd(s.cur, i) in s.fds then At(s, CloseFd(i, None)) else s
    case BeginDup(src, i) => At(s, if Fd(s.cur, i) in s.fds then CloseFd(i, Some(src)) else DupData(src, i))
    case BeginFork(c) => At(s.(runs := s.runs[c := 0], born := s.born[c := 0]), Copying(c))
    case Go => Advance(s)
    case Fail =>
      (match s.tasks[s.cur]
       case DupData(_, i) => At(s, UndoFd(i))
       case DupFd(_, i) => At(s, UndoFd(i))
       case Copying(c) => s.(born := s.born[c := s.born[c] + 1])
       case _ => s)
    case Kill(v) => s.(tasks := s.tasks[v := Sweeping(0)])
    case Sweep(v) =>
      var k := s.tasks[v].k;
      var s1 := s.(tasks := s.tasks[v := Sweeping(k + 1)]);
      if k < MAXFD then s1.(fds := s1.fds - {Fd(v, k)}) else s1.(datas := s1.datas - {Fd(v, k - MAXFD)})
    case Switch(e) => if e == s.cur then s else s.(cur := e, runs := s.runs[e := s.runs[e] + 1])
  }

  // ---- the invariant -----------------------------------------------------------------------------------

  /** Only a child that is still being copied can have an Fd page without the pipe page. */
  ghost predicate Backed(s: State) { forall x :: x in s.fds ==> x in s.datas || x.e in s.born }

  ghost predicate Ranged(s: State) {
    && (forall x :: x in s.fds ==> x.i < MAXFD && x.e in s.runs)
    && (forall x :: x in s.datas ==> x.e in s.runs)
    && s.cur in s.runs && s.cur !in s.born
    && (forall c :: c in s.born ==> c in s.runs && c !in s.tasks && s.born[c] <= 2 * MAXFD)
  }

  ghost predicate CopyOk(s: State, e: nat, c: nat) {
    && e !in s.born && c in s.born
    && forall j: nat :: Fd(c, j) in s.fds ==>
         Fd(e, j) in s.fds && (s.born[c] > MAXFD + j ==> Fd(c, j) in s.datas)
  }

  ghost predicate TaskOk(s: State, e: nat)
    requires e in s.tasks
  {
    match s.tasks[e]
    case CloseFd(i, _) => i < MAXFD
    case CloseData(i, _) => i < MAXFD && Fd(e, i) !in s.fds
    case CloseAgain(i, _) => i < MAXFD && Fd(e, i) !in s.fds
    case DupData(_, i) => i < MAXFD && Fd(e, i) !in s.fds
    case DupFd(src, i) => i < MAXFD && Fd(e, i) !in s.fds && (Fd(e, src) in s.fds ==> Fd(e, i) in s.datas)
    case UndoFd(i) => true
    case UndoData(i) => Fd(e, i) !in s.fds
    case Copying(c) => CopyOk(s, e, c)
    case Sweeping(k) => forall j :: 0 <= j < k ==> Fd(e, j) !in s.fds
  }

  ghost predicate TasksOk(s: State) {
    && (forall e :: e in s.tasks ==> e in s.runs && TaskOk(s, e))
    && (forall e, e' :: e in s.tasks && e' in s.tasks && e != e' && s.tasks[e].Copying? && s.tasks[e'].Copying? ==>
          s.tasks[e].child != s.tasks[e'].child)
  }

  ghost predicate Inv(s: State) { Backed(s) && Ranged(s) && TasksOk(s) }

  /** Right after pipe: one environment has both ends, with both pages of each. */
  ghost predicate JustMade(s: State) {
    && s.tasks == map[] && s.born == map[] && s.cur in s.runs
    && exists i: nat, j: nat :: i < MAXFD && j < MAXFD && BothEnds(s, i, j)
  }

  ghost predicate BothEnds(s: State, i: nat, j: nat) {
    && i != j && s.fds == map[Fd(s.cur, i) := ReadEnd, Fd(s.cur, j) := WriteEnd]
    && s.datas == {Fd(s.cur, i), Fd(s.cur, j)}
  }

  lemma JustMadeInv(s: State)
    requires JustMade(s)
    ensures Inv(s)
  {
  }

  // ---- every step keeps it -------------------------------------------------------------------------------

  /** Whose pages and task a step changes. */
  function Owner(s: State, t: Step): nat { if t.Kill? || t.Sweep? then t.v else s.cur }

  /** The child it is copying, if any. */
  function Kid(s: State, t: Step): Option<nat> {
    if t.BeginFork? then Some(t.c)
    else if (t.Go? || t.Fail?) && s.cur in s.tasks && s.tasks[s.cur].Copying? then Some(s.tasks[s.cur].child)
    else None
  }

  /** Everything else is left alone. */
  ghost predicate Framed(s: State, s': State, own: nat, kid: Option<nat>) {
    && (forall x: Fd :: x.e != own && kid != Some(x.e) ==>
          (x in s'.fds <==> x in s.fds) && (x in s'.datas <==> x in s.datas))
    && (forall c :: kid != Some(c) ==> (c in s'.born <==> c in s.born) && (c in s.born ==> s'.born[c] == s.born[c]))
    && (forall e :: e != own ==> (e in s'.tasks <==> e in s.tasks) && (e in s.tasks ==> s'.tasks[e] == s.tasks[e]))
    && s.runs.Keys <= s'.runs.Keys
  }

  lemma StepFrame(s: State, t: Step)
    requires Enabled(s, t)
    ensures Framed(s, Next(s, t), Owner(s, t), Kid(s, t))
  {
  }

  lemma BackedKept(s: State, t: Step)
    requires Inv(s) && Enabled(s, t)
    ensures Backed(Next(s, t))
  {
    assert t.Go? || t.Fail? ==> TaskOk(s, s.cur);
    assert t.Sweep? ==> TaskOk(s, t.v);
  }

  lemma BornKept(s: State, t: Step, c: nat)
    requires Inv(s) && Enabled(s, t) && c in Next(s, t).born
    ensures var s' := Next(s, t); c in s'.runs && c !in s'.tasks && s'.born[c] <= 2 * MAXFD
  {
    hide Backed, Framed;
    StepFrame(s, t);
    assert s.cur in s.tasks ==> TaskOk(s, s.cur);
    assert Kid(s, t) != Some(c) ==> Framed(s, Next(s, t), Owner(s, t), Kid(s, t));
  }

  lemma PagesRanged(s: State, t: Step)
    requires Inv(s) && Enabled(s, t)
    ensures forall x :: x in Next(s, t).fds ==> x.i < MAXFD && x.e in Next(s, t).runs
    ensures forall x :: x in Next(s, t).datas ==> x.e in Next(s, t).runs
    ensures Next(s, t).cur in Next(s, t).runs && Next(s, t).cur !in Next(s, t).born
  {
    hide Backed;
    assert t.Go? ==> TaskOk(s, s.cur);
  }

  /** Nobody touches the pages of somebody else's task. */
  lemma Apart(s: State, t: Step, e: nat)
    requires Inv(s) && Enabled(s, t) && e in s.tasks && e != Owner(s, t)
    ensures Kid(s, t) != Some(e)
    ensures s.tasks[e].Copying? ==> s.tasks[e].child != Owner(s, t) && Kid(s, t) != Some(s.tasks[e].child)
  {
    hide Backed, Next;
    assert TaskOk(s, e);
    assert s.cur in s.tasks ==> TaskOk(s, s.cur);
  }

  lemma TaskFramed(s: State, s': State, own: nat, kid: Option<nat>, e: nat)
    requires Framed(s, s', own, kid) && e in s.tasks && e != own && kid != Some(e) && TaskOk(s, e)
    requires s.tasks[e].Copying? ==> s.tasks[e].child != own && kid != Some(s.tasks[e].child)
    ensures e in s'.tasks && s'.tasks[e] == s.tasks[e] && TaskOk(s', e)
  {
  }

  /** Somebody else's task is not disturbed. */
  lemma OtherTaskKept(s: State, t: Step, e: nat)
    requires Inv(s) && Enabled(s, t) && e in s.tasks && e != Owner(s, t)
    ensures e in Next(s, t).tasks && Next(s, t).tasks[e] == s.tasks[e] && TaskOk(Next(s, t), e)
  {
    hide Next, Enabled, Backed, Ranged, Framed, TaskOk, Kid, Owner;
    StepFrame(s, t);
    Apart(s, t, e);
    TaskFramed(s, Next(s, t), Owner(s, t), Kid(s, t), e);
  }

  lemma CopyKept(s: State, t: Step)
    requires Inv(s) && Enabled(s, t) && (t.Go? || t.Fail?) && s.tasks[s.cur].Copying?
    requires s.cur in Next(s, t).tasks
    ensures TaskOk(Next(s, t), s.cur)
  {
    assert TaskOk(s, s.cur);
  }

  lemma CallKept(s: State, t: Step)
    requires Inv(s) && Enabled(s, t) && (t.Go? || t.Fail?) && !s.tasks[s.cur].Copying?
    requires s.cur in Next(s, t).tasks
    ensures TaskOk(Next(s, t), s.cur)
  {
    hide CopyOk;
    assert TaskOk(s, s.cur);
  }

  lemma OwnTaskKept(s: State, t: Step)
    requires Inv(s) && Enabled(s, t) && Owner(s, t) in Next(s, t).tasks
    ensures TaskOk(Next(s, t), Owner(s, t))
  {
    hide Backed, Advance;
    if t.Go? || t.Fail? {
      if s.tasks[s.cur].Copying? {
        CopyKept(s, t);
      } else {
        CallKept(s, t);
      }
    } else if t.BeginFork? {
      ForkBegun(s, t);
    } else {
      assert Owner(s, t) in s.tasks ==> TaskOk(s, Owner(s, t));
    }
  }

  lemma ForkBegun(s: State, t: Step)
    requires Inv(s) && Enabled(s, t) && t.BeginFork?
    ensures CopyOk(Next(s, t), s.cur, t.c)
  {
  }

  lemma OwnerRuns(s: State, t: Step)
    requires Inv(s) && Enabled(s, t) && Owner(s, t) in Next(s, t).tasks
    ensures Owner(s, t) in Next(s, t).runs
    ensures var task := Next(s, t).tasks[Owner(s, t)];
            task.Copying? ==> Kid(s, t) == Some(task.child) || (Owner(s, t) in s.tasks && s.tasks[Owner(s, t)] == task)
  {
    hide Backed, TaskOk;
  }

  lemma TasksKept(s: State, t: Step)
    requires Inv(s) && Enabled(s, t)
    ensures TasksOk(Next(s, t))
  {
    hide Backed, Ranged, Next, Enabled, TaskOk, Kid, Owner;
    StepFrame(s, t);
    var s', own := Next(s, t), Owner(s, t);
    if own in s'.tasks {
      OwnTaskKept(s, t);
      OwnerRuns(s, t);
    }
    forall e | e in s'.tasks && e != own
      ensures e in s'.runs && TaskOk(s', e)
      ensures s'.tasks[e].Copying? ==> Kid(s, t) != Some(s'.tasks[e].child)
    {
      OtherTaskKept(s, t, e);
      Apart(s, t, e);
    }
  }

  /** Every single call of dup, close, fork and teardown, by anybody at any time, keeps the invariant. */
  lemma StepKeepsInv(s: State, t: Step)
    requires Inv(s) && Enabled(s, t)
    ensures Inv(Next(s, t))
  {
    hide Backed, TasksOk, Next, Enabled;
    BackedKept(s, t);
    PagesRanged(s, t);
    TasksKept(s, t);
    forall c | c in Next(s, t).born
      ensures var s' := Next(s, t); c in s'.runs && c !in s'.tasks && s'.born[c] <= 2 * MAXFD
    {
      BornKept(s, t, c);
    }
  }
}
