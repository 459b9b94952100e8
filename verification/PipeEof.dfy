/** How a pipe end learns that the other end is gone (_pipeisclosed in src/pipe.c): it compares the
    reference counts of its Fd page and of the pipe page between two reads of its env_runs. */
module PipeEof {
  import opened Words
  import opened PipeClose

  ghost function Holders(s: State, end: End): set<Fd> { set x | x in s.fds && s.fds[x] == end }

  /** pageref of an end's Fd page and of the pipe page. */
  ghost function EndRefs(s: State, end: End): nat { |Holders(s, end)| }
  ghost function PipeRefs(s: State): nat { |s.datas| }

  function Other(end: End): End { if end.ReadEnd? then WriteEnd else ReadEnd }

  // ---- counts ---------------------------------------------------------------------------------------------

  lemma SubsetCard<T>(a: set<T>, b: set<T>)
    requires a <= b
    ensures |b| == |a| + |b - a|
  {
    assert b == a + (b - a);
  }

  lemma DifferenceCard<T>(a: set<T>, b: set<T>)
    ensures |a| + |b - a| == |b| + |a - b|
  {
    SubsetCard(a, a + b);
    SubsetCard(b, a + b);
    assert a + b - a == b - a && a + b - b == a - b;
  }

  lemma EndsPartition(s: State)
    ensures EndRefs(s, ReadEnd) + EndRefs(s, WriteEnd) == |s.fds.Keys|
  {
    assert s.fds.Keys == Holders(s, ReadEnd) + Holders(s, WriteEnd);
    assert Holders(s, ReadEnd) !! Holders(s, WriteEnd);
  }

  /** Descriptors of children that are still being copied and do not have the pipe page yet. */
  ghost function HalfMade(s: State): set<Fd> { set x | x in s.fds && x.e in s.born && x !in s.datas }

  /** In every reachable state the pipe page lacks references only for half-made descriptors. */
  lemma PipeOutnumbersEnds(s: State)
    requires Inv(s)
    ensures PipeRefs(s) + |HalfMade(s)| >= EndRefs(s, ReadEnd) + EndRefs(s, WriteEnd)
    ensures HalfMade(s) == s.fds.Keys - s.datas
  {
    EndsPartition(s);
    assert HalfMade(s) == s.fds.Keys - s.datas;
    DifferenceCard(s.fds.Keys, s.datas);
  }

  /** A true answer is right exactly when as many descriptors lack the pipe page as there are pipe
      pages without a descriptor, in any state at all. */
  lemma TrueAnswerIff(s: State, mine: End)
    requires EndRefs(s, mine) == PipeRefs(s)
    ensures EndRefs(s, Other(mine)) == 0 <==> |s.fds.Keys - s.datas| == |s.datas - s.fds.Keys|
  {
    hide Holders;
    EndsPartition(s);
    DifferenceCard(s.fds.Keys, s.datas);
  }

  // ---- runs -------------------------------------------------------------------------------------------------

  ghost predicate Run(states: seq<State>, steps: seq<Step>) {
    && |states| == |steps| + 1 && JustMade(states[0])
    && forall k :: 0 <= k < |steps| ==> Enabled(states[k], steps[k]) && states[k + 1] == Next(states[k], steps[k])
  }

  lemma RunStep(states: seq<State>, steps: seq<Step>, k: nat)
    requires Run(states, steps) && k < |steps|
    ensures Enabled(states[k], steps[k]) && states[k + 1] == Next(states[k], steps[k])
  {
  }

  /** From the making of the pipe on, in every state of every interleaved run. */
  lemma {:induction false} RunKeepsInv(states: seq<State>, steps: seq<Step>, k: nat)
    requires Run(states, steps) && k < |states|
    ensures Inv(states[k])
  {
    hide JustMade, Enabled, Next, Backed, Ranged, TasksOk;
    if k == 0 {
      JustMadeInv(states[0]);
    } else {
      var p := k - 1;
      RunKeepsInv(states, steps, p);
      RunStep(states, steps, p);
      StepKeepsInv(states[p], steps[p]);
    }
  }

  /** From state lo to state hi environment e makes no system call of its own: every step is a
      change of the running environment, or is taken while somebody else runs. */
  ghost predicate OnlyOthersAct(states: seq<State>, steps: seq<Step>, e: nat, lo: nat, hi: nat) {
    lo <= hi <= |steps| < |states| && forall k :: lo <= k < hi ==> steps[k].Switch? || states[k].cur != e
  }

  lemma RunsStep(s: State, t: Step, e: nat)
    requires Enabled(s, t) && e in s.runs
    ensures var s' := Next(s, t);
            e in s'.runs && s'.runs[e] == (if t.Switch? && t.e == e && s.cur != e then s.runs[e] + 1 else s.runs[e])
    ensures Next(s, t).cur == if t.Switch? then t.e else s.cur
    ensures t.Switch? && t.e == s.cur ==> Next(s, t) == s
  {
  }

  /** The counter never falls. */
  lemma {:induction false} RunsGrow(states: seq<State>, steps: seq<Step>, e: nat, i: nat, j: nat)
    requires Run(states, steps) && i <= j < |states| && e in states[i].runs
    ensures e in states[j].runs && states[i].runs[e] <= states[j].runs[e]
    decreases j
  {
    hide JustMade, Enabled, Next;
    if i < j {
      var k := j - 1;
      RunsGrow(states, steps, e, i, k);
      RunStep(states, steps, k);
      RunsStep(states[k], steps[k], e);
    }
  }

  /** Somebody else ran and we are back: the counter has risen. */
  lemma {:induction false} ComingBackCounts(states: seq<State>, steps: seq<Step>, e: nat, i: nat, j: nat)
    requires Run(states, steps) && i < j < |states| && e in states[i].runs
    requires states[i].cur != e && states[j].cur == e
    ensures e in states[j].runs && states[i].runs[e] < states[j].runs[e]
    decreases j - i
  {
    hide JustMade, Enabled, Next;
    RunStep(states, steps, i);
    RunsStep(states[i], steps[i], e);
    if states[i + 1].cur == e {
      RunsGrow(states, steps, e, i + 1, j);
    } else {
      ComingBackCounts(states, steps, e, i + 1, j);
    }
  }

  /** What _pipeisclosed sees when its two 32-bit readings of env_runs are equal and the environment
      has not been dispatched 2^32 times between them. */
  ghost predicate SameRuns(states: seq<State>, steps: seq<Step>, e: nat, lo: nat, hi: nat) {
    && Run(states, steps) && OnlyOthersAct(states, steps, e, lo, hi)
    && states[lo].cur == e && states[hi].cur == e && e in states[lo].runs && e in states[hi].runs
    && Wrap(states[lo].runs[e]) == Wrap(states[hi].runs[e]) && states[hi].runs[e] - states[lo].runs[e] < U32
  }

  /** Then nothing ran in between. */
  lemma {:induction false} EqualRunsMeansAlone(states: seq<State>, steps: seq<Step>, e: nat, lo: nat, hi: nat, k: nat)
    requires SameRuns(states, steps, e, lo, hi) && lo <= k <= hi
    ensures states[k] == states[lo]
    decreases k
  {
    hide JustMade, Enabled, Next;
    RunsGrow(states, steps, e, lo, hi);
    assert states[lo].runs[e] == states[hi].runs[e];
    if k > lo {
      var j := k - 1;
      EqualRunsMeansAlone(states, steps, e, lo, hi, j);
      RunStep(states, steps, j);
      RunsStep(states[j], steps[j], e);
      assert steps[j].Switch?;
      if steps[j].e != e {
        assert k < hi;
        ComingBackCounts(states, steps, e, k, hi);
        assert false;
      }
    }
  }

  /** _pipeisclosed answers true: the count of its own Fd page was read at a, that of the pipe page
      at b, and its counter was the same before and after. */
  ghost predicate AnswersTrue(states: seq<State>, steps: seq<Step>, e: nat, mine: End, lo: nat, a: nat, b: nat, hi: nat) {
    && SameRuns(states, steps, e, lo, hi) && lo <= a <= hi && lo <= b <= hi
    && EndRefs(states[a], mine) == PipeRefs(states[b])
  }

  /** At any time of any run in which environments dup, close, fork, die and are switched at will, a
      true answer means that the other end has no references, unless a child is being copied and has
      an Fd page but not yet the pipe page. */
  lemma NoFalseEof(states: seq<State>, steps: seq<Step>, e: nat, mine: End, lo: nat, a: nat, b: nat, hi: nat)
    requires AnswersTrue(states, steps, e, mine, lo, a, b, hi) && HalfMade(states[hi]) == {}
    ensures EndRefs(states[hi], Other(mine)) == 0
  {
    hide JustMade, Enabled, Next, Backed, Ranged, TasksOk, HalfMade, EndRefs, PipeRefs;
    RightAnswerIff(states, steps, e, mine, lo, a, b, hi);
  }

  /** In such a run a true answer is right if and only if as many child descriptors are half made as
      dup and close calls are under way with the pipe page but no Fd page. */
  lemma RightAnswerIff(states: seq<State>, steps: seq<Step>, e: nat, mine: End, lo: nat, a: nat, b: nat, hi: nat)
    requires AnswersTrue(states, steps, e, mine, lo, a, b, hi)
    ensures EndRefs(states[hi], Other(mine)) == 0 <==>
            |HalfMade(states[hi])| == |states[hi].datas - states[hi].fds.Keys|
    ensures HalfMade(states[hi]) == {} ==> EndRefs(states[hi], Other(mine)) == 0
  {
    hide JustMade, Enabled, Next, Backed, Ranged, TasksOk, Holders;
    EqualRunsMeansAlone(states, steps, e, lo, hi, a);
    EqualRunsMeansAlone(states, steps, e, lo, hi, b);
    EqualRunsMeansAlone(states, steps, e, lo, hi, hi);
    RunKeepsInv(states, steps, hi);
    PipeOutnumbersEnds(states[hi]);
    TrueAnswerIff(states[hi], mine);
  }

  // ---- the window that fork leaves -----------------------------------------------------------------------------

  lemma Extend(states: seq<State>, steps: seq<Step>, t: Step) returns (states': seq<State>, steps': seq<Step>)
    requires Run(states, steps) && Enabled(states[|steps|], t)
    ensures Run(states', steps') && |steps'| == |steps| + 1 && states'[|steps'|] == Next(states[|steps|], t)
  {
    hide JustMade, Enabled, Next;
    states', steps' := states + [Next(states[|steps|], t)], steps + [t];
    forall k | 0 <= k < |steps'|
      ensures Enabled(states'[k], steps'[k]) && states'[k + 1] == Next(states'[k], steps'[k])
    {
      if k < |steps| {
        RunStep(states, steps, k);
        assert states'[k] == states[k] && states'[k + 1] == states[k + 1];
      }
    }
  }

  /** Environment 1 has made a pipe, and its fork of environment 2 has copied k pages. */
  function Forked(k: nat): State {
    State(
      if k == 0 then map[Fd(1, 0) := ReadEnd, Fd(1, 1) := WriteEnd]
      else if k == 1 then map[Fd(1, 0) := ReadEnd, Fd(1, 1) := WriteEnd, Fd(2, 0) := ReadEnd]
      else map[Fd(1, 0) := ReadEnd, Fd(1, 1) := WriteEnd, Fd(2, 0) := ReadEnd, Fd(2, 1) := WriteEnd],
      if k <= MAXFD then {Fd(1, 0), Fd(1, 1)}
      else if k == MAXFD + 1 then {Fd(1, 0), Fd(1, 1), Fd(2, 0)}
      else {Fd(1, 0), Fd(1, 1), Fd(2, 0), Fd(2, 1)},
      1, map[1 := 1, 2 := 0], map[1 := Copying(2)], map[2 := k])
  }

  lemma ForkedStep(k: nat)
    requires k < 2 * MAXFD
    ensures Enabled(Forked(k), Go) && Next(Forked(k), Go) == Forked(k + 1)
  {
    assert map[2 := k][2 := k + 1] == map[2 := k + 1];
  }

  lemma {:induction false} ForkedRun(k: nat) returns (states: seq<State>, steps: seq<Step>)
    requires k <= 2 * MAXFD
    ensures Run(states, steps) && states[|steps|] == Forked(k)
  {
    hide Enabled, Next, Forked;
    if k == 0 {
      var s0 := State(map[Fd(1, 0) := ReadEnd, Fd(1, 1) := WriteEnd], {Fd(1, 0), Fd(1, 1)}, 1, map[1 := 1], map[], map[]);
      FirstStep(s0);
      states, steps := Extend([s0], [], BeginFork(2));
    } else {
      states, steps := ForkedRun(k - 1);
      ForkedStep(k - 1);
      states, steps := Extend(states, steps, Go);
    }
  }

  lemma FirstStep(s0: State)
    requires s0 == State(map[Fd(1, 0) := ReadEnd, Fd(1, 1) := WriteEnd], {Fd(1, 0), Fd(1, 1)}, 1, map[1 := 1], map[], map[])
    ensures JustMade(s0) && Enabled(s0, BeginFork(2)) && Next(s0, BeginFork(2)) == Forked(0)
  {
    assert BothEnds(s0, 0, 1);
  }

  /** What follows: environment 1 closes its write end, and environment 2, which has both ends, is
      interrupted in a fork of environment 3 right after its first page. */
  function Afterwards(n: nat): (State, Step)
    requires n <= 9
  {
    var four := map[Fd(1, 0) := ReadEnd, Fd(1, 1) := WriteEnd, Fd(2, 0) := ReadEnd, Fd(2, 1) := WriteEnd];
    var three := map[Fd(1, 0) := ReadEnd, Fd(2, 0) := ReadEnd, Fd(2, 1) := WriteEnd];
    var pages := {Fd(1, 0), Fd(2, 0), Fd(2, 1)};
    var all := pages + {Fd(1, 1)};
    if n == 0 then (Forked(2 * MAXFD), Go)
    else if n == 1 then (State(four, all, 1, map[1 := 1, 2 := 0], map[], map[]), BeginClose(1))
    else if n == 2 then (State(four, all, 1, map[1 := 1, 2 := 0], map[1 := CloseFd(1, None)], map[]), Go)
    else if n == 3 then (State(three, all, 1, map[1 := 1, 2 := 0], map[1 := CloseData(1, None)], map[]), Go)
    else if n == 4 then (State(three, pages, 1, map[1 := 1, 2 := 0], map[1 := CloseAgain(1, None)], map[]), Go)
    else if n == 5 then (State(three, pages, 1, map[1 := 1, 2 := 0], map[], map[]), Switch(2))
    else if n == 6 then (State(three, pages, 2, map[1 := 1, 2 := 1], map[], map[]), BeginFork(3))
    else if n == 7 then
      (State(three, pages, 2, map[1 := 1, 2 := 1, 3 := 0], map[2 := Copying(3)], map[3 := 0]), Go)
    else
      var more := three[Fd(3, 0) := ReadEnd];
      if n == 8 then (State(more, pages, 2, map[1 := 1, 2 := 1, 3 := 0], map[2 := Copying(3)], map[3 := 1]), Switch(1))
      else (State(more, pages, 1, map[1 := 2, 2 := 1, 3 := 0], map[2 := Copying(3)], map[3 := 1]), Go)
  }

  lemma AfterwardsStep(n: nat)
    requires n < 9
    ensures var (s, t) := Afterwards(n); Enabled(s, t) && Next(s, t) == Afterwards(n + 1).0
  {
    if n < 5 {
      CloseSteps(n);
    } else {
      SecondFork(n);
    }
  }

  lemma CloseSteps(n: nat)
    requires n < 5
    ensures var (s, t) := Afterwards(n); Enabled(s, t) && Next(s, t) == Afterwards(n + 1).0
  {
    var (s, t) := Afterwards(n);
    var s' := Afterwards(n + 1).0;
    assert Enabled(s, t);
    assert Next(s, t).fds == s'.fds && Next(s, t).datas == s'.datas;
    assert Next(s, t).tasks == s'.tasks && Next(s, t).born == s'.born;
  }

  lemma SecondFork(n: nat)
    requires 5 <= n < 9
    ensures var (s, t) := Afterwards(n); Enabled(s, t) && Next(s, t) == Afterwards(n + 1).0
  {
    var (s, t) := Afterwards(n);
    var s' := Afterwards(n + 1).0;
    assert Enabled(s, t);
    assert Next(s, t).runs == s'.runs && Next(s, t).tasks == s'.tasks && Next(s, t).born == s'.born;
  }

  lemma {:induction false} AfterwardsRun(n: nat) returns (states: seq<State>, steps: seq<Step>)
    requires n <= 9
    ensures Run(states, steps) && states[|steps|] == Afterwards(n).0
  {
    hide Enabled, Next, Forked, JustMade;
    if n == 0 {
      states, steps := ForkedRun(2 * MAXFD);
    } else {
      states, steps := AfterwardsRun(n - 1);
      AfterwardsStep(n - 1);
      states, steps := Extend(states, steps, Afterwards(n - 1).1);
    }
  }

  /** A run in which environment 1, which reads, is told that the writer is gone, although environment
      2 has the write end open. */
  lemma AscendingCopyBreaks() returns (states: seq<State>, steps: seq<Step>)
    ensures var n := |steps|; AnswersTrue(states, steps, 1, ReadEnd, n, n, n, n)
    ensures Fd(2, 1) in Holders(states[|steps|], WriteEnd) && EndRefs(states[|steps|], WriteEnd) == 1
  {
    hide JustMade, Enabled, Next;
    states, steps := AfterwardsRun(9);
    var s := states[|steps|];
    assert Holders(s, ReadEnd) == {Fd(1, 0), Fd(2, 0), Fd(3, 0)};
    assert Holders(s, WriteEnd) == {Fd(2, 1)};
  }

  // ---- the library's calls, undisturbed ---------------------------------------------------------------------------

  lemma SourceBacked(s: State, e: nat, i: nat)
    requires Inv(s) && e !in s.born && Fd(e, i) in s.fds
    ensures Fd(e, i) in s.datas
  {
  }

  /** Environment v has died, and the first k of its descriptor and data pages are gone. */
  ghost predicate Swept(s0: State, s: State, v: nat, k: nat) {
    && s.cur == s0.cur && s.runs == s0.runs && v in s.tasks && s.tasks[v] == Sweeping(k)
    && (forall x :: x in s.fds <==> x in s0.fds && !(x.e == v && x.i < k))
    && (forall x :: x in s.fds ==> s.fds[x] == s0.fds[x])
    && (forall x :: x in s.datas <==> x in s0.datas && !(x.e == v && x.i + MAXFD < k))
  }

  lemma SweepStarts(s: State, v: nat)
    requires Alive(s, v)
    ensures Enabled(s, Kill(v)) && Swept(s, Next(s, Kill(v)), v, 0)
  {
  }

  lemma SweepOne(s0: State, s: State, v: nat, k: nat)
    requires Swept(s0, s, v, k) && k < 2 * MAXFD && Inv(s0)
    ensures Enabled(s, Sweep(v)) && Swept(s0, Next(s, Sweep(v)), v, k + 1)
  {
    hide Backed, TasksOk;
  }

  lemma SweepEnds(s0: State, s: State, v: nat)
    requires Swept(s0, s, v, 2 * MAXFD) && Inv(s0)
    ensures s.cur == s0.cur && s.runs == s0.runs && !Alive(s, v)
    ensures forall x :: x in s.fds <==> x in s0.fds && x.e != v
    ensures forall x :: x in s.fds ==> s.fds[x] == s0.fds[x]
    ensures forall x :: x in s.datas <==> x in s0.datas && !(x.e == v && x.i < MAXFD)
  {
  }

  /** The parent is in its fork of c, and the first k of its descriptor and data pages are copied. */
  ghost predicate Copied(s0: State, s: State, c: nat, k: nat) {
    && s.cur == s0.cur && c != s.cur && c !in s0.runs && s.cur !in s0.tasks
    && s.runs == s0.runs[c := 0] && s.tasks == s0.tasks[s.cur := Copying(c)] && s.born == s0.born[c := k]
    && (forall x: Fd :: x.e != c ==> (x in s.fds <==> x in s0.fds) && (x in s.fds ==> s.fds[x] == s0.fds[x]))
    && (forall x: Fd :: x.e != c ==> (x in s.datas <==> x in s0.datas))
    && (forall j: nat :: (Fd(c, j) in s.fds <==> j < k && j < MAXFD && Fd(s.cur, j) in s0.fds)
          && (Fd(c, j) in s.fds ==> s.fds[Fd(c, j)] == s0.fds[Fd(s.cur, j)]))
    && (forall j: nat :: j < MAXFD ==> (Fd(c, j) in s.datas <==> j + MAXFD < k && Fd(s.cur, j) in s0.datas))
  }

  lemma CopyStarts(s: State, c: nat)
    requires Inv(s) && Idle(s, s.cur) && c !in s.runs
    ensures Enabled(s, BeginFork(c)) && Copied(s, Next(s, BeginFork(c)), c, 0)
  {
  }

  lemma CopyOne(s0: State, s: State, c: nat, k: nat)
    requires Inv(s0) && Idle(s0, s0.cur) && Copied(s0, s, c, k) && k < 2 * MAXFD
    ensures Enabled(s, Go) && Copied(s0, Next(s, Go), c, k + 1)
  {
    hide Backed, TasksOk;
    var s' := Next(s, Go);
    assert s'.born == s0.born[c := k + 1];
  }

  lemma CopyEnds(s0: State, s: State, c: nat)
    requires Inv(s0) && Idle(s0, s0.cur) && Copied(s0, s, c, 2 * MAXFD)
    ensures Enabled(s, Go)
    ensures var s' := Next(s, Go);
            && s'.cur == s0.cur && Idle(s', s'.cur) && Idle(s', c)
            && (forall x: Fd :: x.e != c ==> (x in s'.fds <==> x in s0.fds) && (x in s'.fds ==> s'.fds[x] == s0.fds[x]))
            && (forall x: Fd :: x.e != c ==> (x in s'.datas <==> x in s0.datas))
            && (forall j: nat :: (Fd(c, j) in s'.fds <==> Fd(s'.cur, j) in s'.fds) && (Fd(c, j) in s'.fds ==> s'.fds[Fd(c, j)] == s'.fds[Fd(s'.cur, j)]))
            && (forall j: nat :: j < MAXFD ==> (Fd(c, j) in s'.datas <==> Fd(s'.cur, j) in s'.datas))
  {
    hide Backed;
  }

  class Table {
    var s: State

    constructor (s: State)
      ensures this.s == s
    {
      this.s := s;
    }

    /** One system call; the invariant holds after each one, not only at the end. */
    method Call(t: Step)
      requires Inv(s) && Enabled(s, t)
      modifies this
      ensures Inv(s) && s == Next(old(s), t)
    {
      StepKeepsInv(s, t);
      s := Next(s, t);
    }

    /** close: both pages of the descriptor are unmapped, the Fd page twice. */
    method Close(i: nat)
      requires Inv(s) && Idle(s, s.cur) && i < MAXFD
      modifies this
      ensures Inv(s) && s.tasks == old(s.tasks) && s.born == old(s.born) && s.cur == old(s.cur) && s.runs == old(s.runs)
      ensures s.fds == old(s.fds) - {Fd(s.cur, i)}
      ensures s.datas == if Fd(s.cur, i) in old(s.fds) then old(s.datas) - {Fd(s.cur, i)} else old(s.datas)
    {
      hide Backed, Ranged, TasksOk;
      ghost var s0 := s;
      Call(BeginClose(i));
      if Fd(s.cur, i) in s.fds {
        Call(Go);
        Call(Go);
        Call(Go);
        assert s.tasks == s0.tasks;
      }
    }

    /** dup: the target becomes a second descriptor of the same end. */
    method Dup(src: nat, i: nat)
      requires Inv(s) && Idle(s, s.cur) && src < MAXFD && i < MAXFD && src != i
      requires Fd(s.cur, src) in s.fds
      modifies this
      ensures Inv(s) && s.tasks == old(s.tasks) && s.born == old(s.born) && s.cur == old(s.cur) && s.runs == old(s.runs)
      ensures s.fds == old(s.fds)[Fd(s.cur, i) := old(s.fds)[Fd(s.cur, src)]]
      ensures s.datas == old(s.datas) + {Fd(s.cur, i)}
    {
      hide Backed, Ranged, TasksOk, Advance;
      ghost var s0 := s;
      SourceBacked(s, s.cur, src);
      Call(BeginDup(src, i));
      if Fd(s.cur, i) in s.fds {
        CloseTarget(src, i);
      }
      MapBoth(src, i);
      assert s.tasks == s0.tasks;
    }

    /** The close inside dup. */
    method CloseTarget(src: nat, i: nat)
      requires Inv(s) && Busy(s) && s.tasks[s.cur] == CloseFd(i, Some(src))
      modifies this
      ensures Inv(s) && s == At(old(s), DupData(src, i)).(fds := s.fds, datas := s.datas)
      ensures s.fds == old(s.fds) - {Fd(s.cur, i)} && s.datas == old(s.datas) - {Fd(s.cur, i)}
    {
      hide Backed, Ranged, TasksOk;
      ghost var s0 := s;
      Call(Go);
      Call(Go);
      Call(Go);
      assert s.tasks == s0.tasks[s.cur := DupData(src, i)];
    }

    /** The two map calls of dup. */
    method MapBoth(src: nat, i: nat)
      requires Inv(s) && Busy(s) && s.tasks[s.cur] == DupData(src, i)
      requires Fd(s.cur, src) in s.fds && Fd(s.cur, src) in s.datas
      modifies this
      ensures Inv(s) && s == Done(old(s)).(fds := s.fds, datas := s.datas)
      ensures s.fds == old(s.fds)[Fd(s.cur, i) := old(s.fds)[Fd(s.cur, src)]]
      ensures s.datas == old(s.datas) + {Fd(s.cur, i)}
    {
      hide Backed, Ranged, TasksOk;
      ghost var s0 := s;
      Call(Go);
      Call(Go);
      assert s.tasks == s0.tasks - {s.cur};
    }

    /** close_all: afterwards the environment holds no descriptor of the pipe. */
    method CloseAll()
      requires Inv(s) && Idle(s, s.cur)
      modifies this
      ensures Inv(s) && s.tasks == old(s.tasks) && s.born == old(s.born) && s.cur == old(s.cur)
      ensures forall x :: x in s.fds <==> x in old(s.fds) && x.e != s.cur
      ensures forall x :: x in s.fds ==> s.fds[x] == old(s.fds)[x]
    {
      hide Backed, TasksOk;
      var i := 0;
      while i < MAXFD
        invariant i <= MAXFD && Inv(s) && Idle(s, s.cur)
        invariant s.tasks == old(s.tasks) && s.born == old(s.born) && s.cur == old(s.cur)
        invariant forall x :: x in s.fds <==> x in old(s.fds) && !(x.e == s.cur && x.i < i)
        invariant forall x :: x in s.fds ==> s.fds[x] == old(s.fds)[x]
      {
        Close(i);
        i := i + 1;
      }
    }

    /** fork or spawn: afterwards the child can run and has exactly its parent's descriptors. */
    method Fork(c: nat)
      requires Inv(s) && Idle(s, s.cur) && c !in s.runs
      modifies this
      ensures Inv(s) && s.cur == old(s.cur) && Idle(s, s.cur) && Idle(s, c)
      ensures forall x: Fd :: x.e != c ==> (x in s.fds <==> x in old(s.fds)) && (x in s.fds ==> s.fds[x] == old(s.fds)[x])
      ensures forall x: Fd :: x.e != c ==> (x in s.datas <==> x in old(s.datas))
      ensures forall j: nat :: (Fd(c, j) in s.fds <==> Fd(s.cur, j) in s.fds) && (Fd(c, j) in s.fds ==> s.fds[Fd(c, j)] == s.fds[Fd(s.cur, j)])
      ensures forall j: nat :: j < MAXFD ==> (Fd(c, j) in s.datas <==> Fd(s.cur, j) in s.datas)
    {
      hide Backed, Ranged, TasksOk, Next, Enabled, Copied;
      ghost var s0 := s;
      CopyStarts(s, c);
      Call(BeginFork(c));
      var k := 0;
      while k < 2 * MAXFD
        invariant k <= 2 * MAXFD && Inv(s) && Copied(s0, s, c, k)
      {
        CopyOne(s0, s, c, k);
        Call(Go);
        k := k + 1;
      }
      CopyEnds(s0, s, c);
      Call(Go);
    }

    /** dup without memory for the map call that is due: the target is left closed. */
    method DupFails(i: nat)
      requires Inv(s) && Busy(s) && (s.tasks[s.cur].DupData? || s.tasks[s.cur].DupFd?) && s.tasks[s.cur].i == i
      modifies this
      ensures Inv(s) && Idle(s, s.cur) && s.cur == old(s.cur) && s.runs == old(s.runs) && s.born == old(s.born)
      ensures s.fds == old(s.fds) - {Fd(s.cur, i)} && s.datas == old(s.datas) - {Fd(s.cur, i)}
    {
      hide Backed, Ranged, TasksOk;
      Call(Fail);
      Call(Go);
      Call(Go);
    }

    /** env_free of an environment: the sweep in ascending order meets all its Fd pages before any
        of its data pages. */
    method Teardown(v: nat)
      requires Inv(s) && Alive(s, v)
      modifies this
      ensures Inv(s) && s.cur == old(s.cur) && s.runs == old(s.runs) && !Alive(s, v)
      ensures forall x :: x in s.fds <==> x in old(s.fds) && x.e != v
      ensures forall x :: x in s.fds ==> s.fds[x] == old(s.fds)[x]
      ensures forall x :: x in s.datas <==> x in old(s.datas) && !(x.e == v && x.i < MAXFD)
    {
      hide Backed, Ranged, TasksOk, Next, Enabled, Swept;
      ghost var s0 := s;
      SweepStarts(s, v);
      Call(Kill(v));
      var k := 0;
      while k < 2 * MAXFD
        invariant k <= 2 * MAXFD && Inv(s) && Swept(s0, s, v, k)
      {
        SweepOne(s0, s, v, k);
        Call(Sweep(v));
        k := k + 1;
      }
      SweepEnds(s0, s, v);
    }
  }
}
