/** The pipe of src/pipe.c with one reader and one writer, where every check, copy and increment
    is a separate step that the other side may interleave with. */
module Pipe {
  import opened Words

  const PIPEBUFSIZ: nat := 32

  type Byte = bv8

  /** devpipe_read: `got` are the bytes already in the caller's buffer, and between calls those that
      the last call returned. */
  datatype Reader =
    | RIdle(got: seq<Byte>)
    | RCheck(n: nat, got: seq<Byte>)
    | RAsk(n: nat)
    | RTake(n: nat, got: seq<Byte>)
    | RBump(n: nat, got: seq<Byte>)

  /** devpipe_write: `i` bytes of the caller's `data` have been written; between calls, the result of
      the last one. */
  datatype Writer =
    | WIdle(result: nat)
    | WCheck(data: seq<Byte>, i: nat)
    | WAsk(data: seq<Byte>, i: nat)
    | WStore(data: seq<Byte>, i: nat)
    | WBump(data: seq<Byte>, i: nat)

  /** `put` and `taken` record the bytes stored into and copied out of the buffer so far. */
  datatype State = State(
    rpos: nat, wpos: nat, buf: seq<Byte>, reader: Reader, writer: Writer,
    writerOpen: bool, readerOpen: bool, put: seq<Byte>, taken: seq<Byte>)

  datatype Step =
    | ReadCall(n: nat)
    | ReadStep
    | WriteCall(data: seq<Byte>)
    | WriteStep
    | CloseWriter
    | CloseReader

  predicate Enabled(s: State, t: Step) {
    match t
    case ReadCall(_) => s.reader.RIdle? && s.readerOpen
    case ReadStep => !s.reader.RIdle?
    case WriteCall(_) => s.writer.WIdle? && s.writerOpen
    case WriteStep => !s.writer.WIdle? && (s.writer.WStore? ==> s.writer.i < |s.writer.data|)
    case CloseWriter => s.writer.WIdle?
    case CloseReader => s.reader.RIdle?
  }

  /** One step of devpipe_read; `p->p_rpos == p->p_wpos` is read once. */
  function ReaderStep(s: State): State
    requires !s.reader.RIdle? && |s.buf| == PIPEBUFSIZ
  {
    match s.reader
    case RCheck(n, got) =>
      if |got| >= n then s.(reader := RIdle(got))
      else if s.rpos == s.wpos then
        if |got| > 0 then s.(reader := RIdle(got)) else s.(reader := RAsk(n))
      else s.(reader := RTake(n, got))
    case RAsk(n) => if !s.writerOpen then s.(reader := RIdle([])) else s.(reader := RCheck(n, []))
    case RTake(n, got) =>
      var b := s.buf[s.rpos % PIPEBUFSIZ];
      s.(reader := RBump(n, got + [b]), taken := s.taken + [b])
    case RBump(n, got) => s.(reader := RCheck(n, got), rpos := s.rpos + 1)
  }

  /** One step of devpipe_write. */
  function WriterStep(s: State): State
    requires !s.writer.WIdle? && |s.buf| == PIPEBUFSIZ
    requires s.writer.WStore? ==> s.writer.i < |s.writer.data|
  {
    match s.writer
    case WCheck(data, i) =>
      if i >= |data| then s.(writer := WIdle(i))
      else if s.wpos >= s.rpos + PIPEBUFSIZ then s.(writer := WAsk(data, i))
      else s.(writer := WStore(data, i))
    case WAsk(data, i) => if !s.readerOpen then s.(writer := WIdle(0)) else s.(writer := WCheck(data, i))
    case WStore(data, i) =>
      s.(writer := WBump(data, i), buf := s.buf[s.wpos % PIPEBUFSIZ := data[i]], put := s.put + [data[i]])
    case WBump(data, i) => s.(writer := WCheck(data, i + 1), wpos := s.wpos + 1)
  }

  function Next(s: State, t: Step): State
    requires Enabled(s, t) && |s.buf| == PIPEBUFSIZ
  {
    match t
    case ReadCall(n) => s.(reader := RCheck(n, []))
    case ReadStep => ReaderStep(s)
    case WriteCall(data) => s.(writer := WCheck(data, 0))
    case WriteStep => WriterStep(s)
    case CloseWriter => s.(writerOpen := false)
    case CloseReader => s.(readerOpen := false)
  }

  /** Positions stay within one buffer of each other, the bytes between them are the bytes put
      there, and what was taken is a prefix of what was put. */
  ghost predicate Inv(s: State) {
    && |s.buf| == PIPEBUFSIZ && s.rpos <= s.wpos <= s.rpos + PIPEBUFSIZ
    && |s.put| == s.wpos + (if s.writer.WBump? then 1 else 0)
    && |s.taken| == s.rpos + (if s.reader.RBump? then 1 else 0)
    && |s.taken| <= s.wpos && s.taken == s.put[..|s.taken|]
    && (s.reader.RTake? || s.reader.RBump? ==> s.rpos < s.wpos)
    && (!s.writerOpen ==> s.writer.WIdle?) && (!s.readerOpen ==> s.reader.RIdle?)
    && (s.writer.WStore? || s.writer.WBump? ==> s.wpos < s.rpos + PIPEBUFSIZ && s.writer.i < |s.writer.data|)
    && Holds(s.buf, s.put, s.rpos)
  }

  function At(buf: seq<Byte>, k: nat): Byte
    requires |buf| == PIPEBUFSIZ
  {
    buf[k % PIPEBUFSIZ]
  }

  /** The ring holds the bytes put from position `lo` on. */
  ghost predicate Holds(buf: seq<Byte>, put: seq<Byte>, lo: nat)
    requires |buf| == PIPEBUFSIZ
  {
    forall k :: lo <= k < |put| ==> At(buf, k) == put[k]
  }

  predicate Start(s: State) {
    && |s.buf| == PIPEBUFSIZ && s.rpos == s.wpos == 0 && s.put == [] && s.taken == []
    && s.reader == RIdle([]) && s.writer == WIdle(0) && s.writerOpen && s.readerOpen
  }

  lemma SameSlot(j: nat, k: nat)
    requires j <= k < j + PIPEBUFSIZ && j % PIPEBUFSIZ == k % PIPEBUFSIZ
    ensures j == k
  {
  }

  lemma StoreHolds(buf: seq<Byte>, put: seq<Byte>, lo: nat, b: Byte)
    requires |buf| == PIPEBUFSIZ && Holds(buf, put, lo) && lo <= |put| < lo + PIPEBUFSIZ
    ensures Holds(buf[|put| % PIPEBUFSIZ := b], put + [b], lo)
  {
    var buf' := buf[|put| % PIPEBUFSIZ := b];
    forall k | lo <= k < |put|
      ensures At(buf', k) == put[k]
    {
      assert At(buf, k) == put[k];
      if k % PIPEBUFSIZ == |put| % PIPEBUFSIZ {
        SameSlot(k, |put|);
      }
    }
  }

  lemma HoldsLess(buf: seq<Byte>, put: seq<Byte>, lo: nat)
    requires |buf| == PIPEBUFSIZ && Holds(buf, put, lo)
    ensures Holds(buf, put, lo + 1) && (lo < |put| ==> buf[lo % PIPEBUFSIZ] == put[lo])
  {
    assert lo < |put| ==> At(buf, lo) == put[lo];
  }

  lemma ReaderStepKeeps(s: State)
    requires Inv(s) && !s.reader.RIdle?
    ensures Inv(ReaderStep(s))
  {
    hide Holds;
    HoldsLess(s.buf, s.put, s.rpos);
  }

  lemma WriterStepKeeps(s: State)
    requires Inv(s) && !s.writer.WIdle?
    ensures Inv(WriterStep(s))
  {
    hide Holds;
    if s.writer.WStore? {
      StoreHolds(s.buf, s.put, s.rpos, s.writer.data[s.writer.i]);
    }
  }

  lemma StepKeepsInv(s: State, t: Step)
    requires Inv(s) && Enabled(s, t)
    ensures Inv(Next(s, t))
  {
    match t
    case ReadStep => ReaderStepKeeps(s);
    case WriteStep => WriterStepKeeps(s);
    case _ =>
  }

  ghost predicate Run(states: seq<State>, steps: seq<Step>) {
    && |states| == |steps| + 1 && Start(states[0])
    && forall k :: 0 <= k < |steps| ==>
         |states[k].buf| == PIPEBUFSIZ && Enabled(states[k], steps[k]) && states[k + 1] == Next(states[k], steps[k])
  }

  /** The pipe is first-in first-out under every interleaving of reader and writer. */
  lemma {:induction false} PipeIsFifo(states: seq<State>, steps: seq<Step>, k: nat)
    requires Run(states, steps) && k < |states|
    ensures Inv(states[k])
    ensures states[k].taken <= states[k].put && 0 <= states[k].wpos - states[k].rpos <= PIPEBUFSIZ
  {
    if k > 0 {
      var j := k - 1;
      PipeIsFifo(states, steps, j);
      assert Enabled(states[j], steps[j]) && states[j + 1] == Next(states[j], steps[j]);
      StepKeepsInv(states[j], steps[j]);
    }
  }

  lemma RunStep(states: seq<State>, steps: seq<Step>, k: nat)
    requires Run(states, steps) && k < |steps|
    ensures Inv(states[k]) && Enabled(states[k], steps[k]) && states[k + 1] == Next(states[k], steps[k])
  {
    PipeIsFifo(states, steps, k);
  }

  // ---- what a call returns ----------------------------------------------------------------------

  /** A call of read for n bytes, made when `base` bytes had been taken, has the bytes after those. */
  ghost predicate ReadSoFar(s: State, base: nat, n: nat) {
    && base <= |s.taken|
    && match s.reader
       case RIdle(got) => got == s.taken[base..] && |got| <= n
       case RAsk(m) => |s.taken| == base && m == n
       case RCheck(m, got) => got == s.taken[base..] && |got| <= n && m == n
       case RTake(m, got) => got == s.taken[base..] && |got| < n && m == n
       case RBump(m, got) => got == s.taken[base..] && |got| <= n && m == n
  }

  lemma ReadStepKeeps(s: State, t: Step, base: nat, n: nat)
    requires Inv(s) && Enabled(s, t) && !s.reader.RIdle? && ReadSoFar(s, base, n)
    ensures ReadSoFar(Next(s, t), base, n)
  {
    hide Holds;
    if t.ReadStep? && s.reader.RTake? {
      var s' := Next(s, t);
      assert s'.taken[base..] == s.taken[base..] + [s.buf[s.rpos % PIPEBUFSIZ]];
    }
  }

  /** Call c of a run is a call of read for n bytes that has not returned before state r. */
  ghost predicate Reading(states: seq<State>, steps: seq<Step>, c: nat, n: nat, r: nat) {
    && Run(states, steps) && c < r < |states| && steps[c] == ReadCall(n)
    && forall i :: c < i < r ==> !states[i].reader.RIdle?
  }

  lemma {:induction false} ReadingSoFar(states: seq<State>, steps: seq<Step>, c: nat, n: nat, r: nat)
    requires Reading(states, steps, c, n, r)
    ensures ReadSoFar(states[r], |states[c].taken|, n)
    decreases r
  {
    hide Inv, Enabled, ReadSoFar;
    if r == c + 1 {
      RunStep(states, steps, c);
      ReadBegins(states[c], n);
    } else {
      ReadingSoFar(states, steps, c, n, r - 1);
      RunStep(states, steps, r - 1);
      ReadStepKeeps(states[r - 1], steps[r - 1], |states[c].taken|, n);
    }
  }

  lemma ReadBegins(s: State, n: nat)
    requires Inv(s) && Enabled(s, ReadCall(n))
    ensures ReadSoFar(Next(s, ReadCall(n)), |s.taken|, n)
  {
  }

  /** When a call of read for n bytes returns, it returns at most n bytes, namely those that were put
      right after the ones taken before the call; and it returns none only if none were asked for or
      the writer is gone. */
  lemma ReadReturnsNextBytes(states: seq<State>, steps: seq<Step>, c: nat, n: nat, r: nat)
    requires Reading(states, steps, c, n, r) && states[r].reader.RIdle?
    ensures var base, got := |states[c].taken|, states[r].reader.got;
            && |got| <= n && base + |got| <= |states[r].put| && got == states[r].put[base..base + |got|]
            && states[r].taken == states[c].taken + got
            && (got == [] ==> n == 0 || !states[r].writerOpen)
  {
    hide Enabled, Inv, ReadSoFar, Next;
    ReadingSoFar(states, steps, c, n, r);
    PipeIsFifo(states, steps, r);
    TakenGrows(states, steps, c, r);
    ReturnedBytes(states[c].taken, states[r], n);
    RunStep(states, steps, r - 1);
    if r > c + 1 {
      ReadingSoFar(states, steps, c, n, r - 1);
    } else {
      NotYet(states[c], n);
    }
    ReadEnds(states[r - 1], steps[r - 1], |states[c].taken|, n);
  }

  lemma ReturnedBytes(before: seq<Byte>, s: State, n: nat)
    requires Inv(s) && s.reader.RIdle? && ReadSoFar(s, |before|, n) && before <= s.taken
    ensures var base, got := |before|, s.reader.got;
            && |got| <= n && base + |got| <= |s.put| && got == s.put[base..base + |got|]
            && s.taken == before + got
  {
    hide Holds;
  }

  lemma NotYet(s: State, n: nat)
    requires |s.buf| == PIPEBUFSIZ && Enabled(s, ReadCall(n))
    ensures !Next(s, ReadCall(n)).reader.RIdle?
  {
  }

  lemma ReadEnds(s: State, t: Step, base: nat, n: nat)
    requires Inv(s) && Enabled(s, t)
    ensures !s.reader.RIdle? && ReadSoFar(s, base, n) && Next(s, t).reader.RIdle? && Next(s, t).reader.got == [] ==>
              n == 0 || !Next(s, t).writerOpen
  {
  }

  /** What has been put or taken stays so. */
  lemma {:induction false} TakenGrows(states: seq<State>, steps: seq<Step>, c: nat, r: nat)
    requires Run(states, steps) && c <= r < |states|
    ensures states[c].taken <= states[r].taken && states[c].put <= states[r].put
    decreases r
  {
    hide Inv, Enabled, Next;
    if c < r {
      TakenGrows(states, steps, c, r - 1);
      RunStep(states, steps, r - 1);
      StepGrows(states[r - 1], steps[r - 1]);
    }
  }

  lemma StepGrows(s: State, t: Step)
    requires Inv(s) && Enabled(s, t)
    ensures s.taken <= Next(s, t).taken && s.put <= Next(s, t).put
  {
    hide Holds;
  }

  // ---- what a call writes -----------------------------------------------------------------------

  /** A call of write, made when `before` had been put, has put the bytes of its data so far. */
  ghost predicate WriteSoFar(s: State, before: seq<Byte>, data: seq<Byte>) {
    match s.writer
    case WIdle(result) => WroteAll(s, before, data, result) || GaveUp(s, before, data, result)
    case WCheck(d, i) => d == data && i <= |data| && s.put == before + data[..i]
    case WBump(d, i) => d == data && i < |data| && s.put == before + data[..i + 1]
    case _ => s.writer.data == data && s.writer.i < |data| && s.put == before + data[..s.writer.i]
  }

  ghost predicate WroteAll(s: State, before: seq<Byte>, data: seq<Byte>, result: nat) {
    result == |data| && s.put == before + data
  }

  /** The readers are gone and the bytes from k on are not written. */
  ghost predicate GaveUp(s: State, before: seq<Byte>, data: seq<Byte>, result: nat) {
    result == 0 && !s.readerOpen && exists k: nat :: k < |data| && s.put == before + data[..k]
  }

  lemma WriteStepKeeps(s: State, t: Step, before: seq<Byte>, data: seq<Byte>)
    requires Inv(s) && Enabled(s, t) && !s.writer.WIdle? && WriteSoFar(s, before, data)
    ensures WriteSoFar(Next(s, t), before, data)
  {
    hide Holds;
    if s.writer.WStore? {
      var i := s.writer.i;
      assert before + data[..i] + [data[i]] == before + data[..i + 1];
    } else if s.writer.WCheck? {
      assert s.writer.i == |data| ==> data[..s.writer.i] == data;
    }
  }

  /** Step c of a run is a call of write that has not returned before state r. */
  ghost predicate Writing(states: seq<State>, steps: seq<Step>, c: nat, data: seq<Byte>, r: nat) {
    && Run(states, steps) && c < r < |states| && steps[c] == WriteCall(data)
    && forall i :: c < i < r ==> !states[i].writer.WIdle?
  }

  lemma {:induction false} WritingSoFar(states: seq<State>, steps: seq<Step>, c: nat, data: seq<Byte>, r: nat)
    requires Writing(states, steps, c, data, r)
    ensures WriteSoFar(states[r], states[c].put, data)
    decreases r
  {
    hide Inv, Enabled, WriteSoFar;
    if r == c + 1 {
      RunStep(states, steps, c);
      WriteBegins(states[c], data);
    } else {
      WritingSoFar(states, steps, c, data, r - 1);
      RunStep(states, steps, r - 1);
      WriteStepKeeps(states[r - 1], steps[r - 1], states[c].put, data);
    }
  }

  lemma WriteBegins(s: State, data: seq<Byte>)
    requires Inv(s) && Enabled(s, WriteCall(data))
    ensures WriteSoFar(Next(s, WriteCall(data)), s.put, data)
  {
    assert s.put + data[..0] == s.put;
  }

  /** In every run, as long as a call of write has not returned, it has put a prefix of the caller's
      data and nothing else. When it returns it has put all of them and says so, or the readers are
      gone and it answers 0. */
  lemma WritePutsItsData(states: seq<State>, steps: seq<Step>, c: nat, data: seq<Byte>, r: nat)
    requires Writing(states, steps, c, data, r)
    ensures exists k: nat :: k <= |data| && states[r].put == states[c].put + data[..k]
    ensures states[r].writer.WIdle? ==>
              if states[r].readerOpen then states[r].writer.result == |data| && states[r].put == states[c].put + data
              else states[r].writer.result == |data| || states[r].writer.result == 0
  {
    hide Holds;
    WritingSoFar(states, steps, c, data, r);
    PrefixPut(states[r], states[c].put, data);
  }

  lemma PrefixPut(s: State, before: seq<Byte>, data: seq<Byte>)
    requires WriteSoFar(s, before, data)
    ensures exists k: nat :: k <= |data| && s.put == before + data[..k]
  {
    match s.writer
    case WIdle(result) =>
      if WroteAll(s, before, data, result) {
        assert data[..|data|] == data;
      }
    case WCheck(_, i) =>
    case WAsk(_, i) =>
    case WStore(_, i) =>
    case WBump(_, i) => assert i + 1 <= |data| && s.put == before + data[..i + 1];
  }

  /** The data of the first n steps' calls of write, one after the other. */
  function Asked(steps: seq<Step>, n: nat): seq<Byte>
    requires n <= |steps|
  {
    if n == 0 then [] else Asked(steps, n - 1) + (if steps[n - 1].WriteCall? then steps[n - 1].data else [])
  }

  /** What the current call of write has not put yet. */
  function Remaining(w: Writer): seq<Byte> {
    match w
    case WIdle(_) => []
    case WBump(data, i) => if i < |data| then data[i + 1..] else []
    case _ => if w.i <= |w.data| then w.data[w.i..] else []
  }

  ghost predicate Accounted(s: State, asked: seq<Byte>) {
    && (s.readerOpen ==> s.put + Remaining(s.writer) == asked && s.taken <= asked)
    && (!s.readerOpen ==> s.taken <= asked)
    && (!s.writer.WIdle? ==> s.writer.i <= |s.writer.data|)
  }

  lemma AccountedStep(s: State, t: Step, asked: seq<Byte>)
    requires Inv(s) && Enabled(s, t) && Accounted(s, asked)
    ensures Accounted(Next(s, t), asked + (if t.WriteCall? then t.data else []))
  {
    hide Holds;
    var s' := Next(s, t);
    assert asked + [] == asked;
    if t.WriteStep? && s.writer.WStore? {
      var data, i := s.writer.data, s.writer.i;
      assert s.put + data[i..] == s.put + [data[i]] + data[i + 1..];
    } else if t.ReadStep? && s.reader.RTake? {
      StepKeepsInv(s, t);
      assert s'.taken <= s'.put && s'.put == s.put;
    } else if t.WriteCall? {
      assert s.put + [] == s.put;
    }
  }

  lemma {:induction false} AccountedOverRun(states: seq<State>, steps: seq<Step>, n: nat)
    requires Run(states, steps) && n <= |steps|
    ensures Accounted(states[n], Asked(steps, n))
  {
    hide Inv, Enabled, Accounted, Next;
    if n == 0 {
      StartAccounted(states[0]);
    } else {
      AccountedOverRun(states, steps, n - 1);
      RunStep(states, steps, n - 1);
      AccountedStep(states[n - 1], steps[n - 1], Asked(steps, n - 1));
    }
  }

  /** Under every interleaving what the reader has taken is a prefix of the data of the calls of write,
      one after the other; and while the reader is there, what has been put is all of it but for what
      the current call still has to write. */
  lemma TakenIsWritten(states: seq<State>, steps: seq<Step>, n: nat)
    requires Run(states, steps) && n <= |steps|
    ensures states[n].taken <= Asked(steps, n)
    ensures states[n].readerOpen ==> states[n].put + Remaining(states[n].writer) == Asked(steps, n)
  {
    AccountedOverRun(states, steps, n);
  }

  lemma StartAccounted(s: State)
    requires Start(s)
    ensures Accounted(s, [])
  {
  }

  // ---- end of file -----------------------------------------------------------------------------

  /** Step c of a run finds the pipe empty, and step r, the reader's next, reports end of file. */
  ghost predicate ReportsEof(states: seq<State>, steps: seq<Step>, c: nat, r: nat) {
    && Run(states, steps) && c < r < |steps|
    && steps[c].ReadStep? && states[c].reader.RCheck? && states[c + 1].reader.RAsk?
    && (forall i :: c < i < r ==> !steps[i].ReadStep?)
    && steps[r].ReadStep? && !states[r].writerOpen
  }

  /** Step i publishes a byte. */
  predicate Publishes(s: State, t: Step) { t.WriteStep? && s.writer.WBump? }

  lemma AskingStep(s: State, t: Step)
    requires Inv(s) && Enabled(s, t) && s.reader.RAsk? && !t.ReadStep?
    ensures var s' := Next(s, t);
            && s'.reader == s.reader && s'.rpos == s.rpos && s'.taken == s.taken
            && s'.wpos == s.wpos + (if Publishes(s, t) then 1 else 0)
            && (Publishes(s, t) ==> s.writerOpen) && (!s.writerOpen ==> !s'.writerOpen)
  {
  }

  /** While the reader asks, its position stays and the writer's counts what is published. */
  lemma {:induction false} WhileAsking(states: seq<State>, steps: seq<Step>, c: nat, r: nat, k: nat)
    requires ReportsEof(states, steps, c, r) && c < k <= r
    ensures states[k].reader.RAsk? && states[k].rpos == states[c].rpos <= states[k].wpos
    ensures states[k].wpos == states[k].rpos <==> forall i :: c < i < k ==> !Publishes(states[i], steps[i])
    ensures !states[c].writerOpen ==> !states[k].writerOpen && states[k].wpos == states[k].rpos
    decreases k
  {
    hide Holds, Publishes;
    if k == c + 1 {
      RunStep(states, steps, c);
    } else {
      var p := k - 1;
      WhileAsking(states, steps, c, r, p);
      RunStep(states, steps, p);
      AskingStep(states[p], steps[p]);
    }
  }

  /** End of file is the truth, every byte put having been taken, if and only if nothing was published
      between the reader's look at the pipe and its answer. */
  lemma EofIsFinalIff(states: seq<State>, steps: seq<Step>, c: nat, r: nat)
    requires ReportsEof(states, steps, c, r)
    ensures states[r].taken == states[r].put <==> forall i :: c < i < r ==> !Publishes(states[i], steps[i])
  {
    hide Holds, Publishes;
    WhileAsking(states, steps, c, r, r);
    RunStep(states, steps, r);
  }

  /** In particular when the writer was gone before the reader looked. */
  lemma ClosedBeforeIsFinal(states: seq<State>, steps: seq<Step>, c: nat, r: nat)
    requires ReportsEof(states, steps, c, r) && !states[c].writerOpen
    ensures states[r].taken == states[r].put
  {
    hide Holds;
    WhileAsking(states, steps, c, r, r);
    RunStep(states, steps, r);
  }

  /** And nothing is ever put after the writer is gone. */
  lemma {:induction false} NothingAfterClose(states: seq<State>, steps: seq<Step>, r: nat, k: nat)
    requires Run(states, steps) && r <= k < |states| && !states[r].writerOpen
    ensures states[k].put == states[r].put && !states[k].writerOpen
    decreases k
  {
    hide Holds;
    if r < k {
      NothingAfterClose(states, steps, r, k - 1);
      RunStep(states, steps, k - 1);
    }
  }

  lemma Extend(states: seq<State>, steps: seq<Step>, t: Step) returns (states': seq<State>, steps': seq<Step>)
    requires Run(states, steps) && Enabled(states[|steps|], t)
    ensures |states[|steps|].buf| == PIPEBUFSIZ
    ensures states' == states + [Next(states[|steps|], t)] && steps' == steps + [t] && Run(states', steps')
  {
    PipeIsFifo(states, steps, |steps|);
    hide Enabled, Next;
    states', steps' := states + [Next(states[|steps|], t)], steps + [t];
    forall k | 0 <= k < |steps'|
      ensures |states'[k].buf| == PIPEBUFSIZ && Enabled(states'[k], steps'[k]) && states'[k + 1] == Next(states'[k], steps'[k])
    {
      assert k < |steps| ==> |states[k].buf| == PIPEBUFSIZ && Enabled(states[k], steps[k]) && states[k + 1] == Next(states[k], steps[k]);
    }
  }

  /** The reader has found the pipe empty, and the writer has then put the byte 7 in n steps. */
  function Overtaken(buf: seq<Byte>, n: nat): State
    requires |buf| == PIPEBUFSIZ && n <= 6
  {
    var writer := if n == 0 then WIdle(0) else if n == 1 then WCheck([7], 0) else if n == 2 then WStore([7], 0)
                  else if n == 3 then WBump([7], 0) else if n == 4 then WCheck([7], 1) else WIdle(1);
    State(0, if n >= 4 then 1 else 0, if n >= 3 then buf[0 := 7] else buf, RAsk(1), writer, n < 6, true,
          if n >= 3 then [7] else [], [])
  }

  function OvertakingStep(n: nat): Step { if n == 0 then WriteCall([7]) else if n == 5 then CloseWriter else WriteStep }

  lemma OvertakenStep(buf: seq<Byte>, n: nat)
    requires |buf| == PIPEBUFSIZ && n < 6
    ensures Enabled(Overtaken(buf, n), OvertakingStep(n))
    ensures Next(Overtaken(buf, n), OvertakingStep(n)) == Overtaken(buf, n + 1)
  {
    var byte: seq<Byte> := [7];
    assert [] + byte == byte;
  }

  lemma {:induction false} OvertakenRun(buf: seq<Byte>, n: nat) returns (states: seq<State>, steps: seq<Step>)
    requires |buf| == PIPEBUFSIZ && n <= 6
    ensures Run(states, steps) && |steps| == n + 2 && states[n + 2] == Overtaken(buf, n)
    ensures steps[1].ReadStep? && states[1].reader.RCheck? && states[2].reader.RAsk?
    ensures forall i :: 1 < i < n + 2 ==> !steps[i].ReadStep?
  {
    hide Enabled, Next;
    if n == 0 {
      states, steps := EmptyRead(buf);
    } else {
      states, steps := OvertakenRun(buf, n - 1);
      OvertakenStep(buf, n - 1);
      states, steps := Extend(states, steps, OvertakingStep(n - 1));
    }
  }

  lemma EmptyRead(buf: seq<Byte>) returns (states: seq<State>, steps: seq<Step>)
    requires |buf| == PIPEBUFSIZ
    ensures Run(states, steps) && steps == [ReadCall(1), ReadStep] && states[2] == Overtaken(buf, 0)
    ensures states[1].reader.RCheck?
  {
    var s0 := State(0, 0, buf, RIdle([]), WIdle(0), true, true, [], []);
    var s1 := Next(s0, ReadCall(1));
    steps := [ReadCall(1), ReadStep];
    states := [s0, s1, Next(s1, ReadStep)];
  }

  /** A run in which read answers 0 while the byte 7 is still in the pipe. */
  lemma EofCanHideBytes(buf: seq<Byte>) returns (states: seq<State>, steps: seq<Step>)
    requires |buf| == PIPEBUFSIZ
    ensures ReportsEof(states, steps, 1, 8) && states[8].rpos < states[8].wpos && states[8].put == [7]
  {
    states, steps := OvertakenRun(buf, 6);
    hide Next;
    states, steps := Extend(states, steps, ReadStep);
  }

  // ---- 32-bit positions --------------------------------------------------------------------------

  /** The C remainder, truncated towards zero. */
  function CRem(x: int, d: nat): int
    requires d > 0
  {
    if x >= 0 then x % d else -((-x) % d)
  }

  /** The subscript that the code computes is the one of the model as long as the position has not
      overflowed; after that it is negative except at multiples of the buffer size. */
  lemma SubscriptIff(n: nat)
    requires n < U32
    ensures n <= INT_MAX ==> CRem(Int32(n), PIPEBUFSIZ) == n % PIPEBUFSIZ
    ensures 0 <= CRem(Int32(n), PIPEBUFSIZ) <==> n <= INT_MAX || n % PIPEBUFSIZ == 0
  {
  }

  // ---- the two loops between two switches ----------------------------------------------------------

  /** The shared page, with the loops of devpipe_write and devpipe_read as they run while nobody
      else does: up to the point where they are done or would wait. */
  class Ring {
    const buf: array<Byte>
    var rpos: nat
    var wpos: nat
    ghost var put: seq<Byte>

    ghost predicate Valid()
      reads this, buf
    {
      && buf.Length == PIPEBUFSIZ && rpos <= wpos <= rpos + PIPEBUFSIZ && |put| == wpos
      && Holds(buf[..], put, rpos)
    }

    /** The bytes in the pipe, oldest first. */
    ghost function Contents(): (c: seq<Byte>)
      reads this, buf
      requires Valid()
      ensures |c| == wpos - rpos <= PIPEBUFSIZ
    {
      put[rpos..]
    }

    constructor ()
      ensures Valid() && Contents() == [] && fresh(buf)
    {
      buf := new Byte[PIPEBUFSIZ](_ => 0);
      rpos, wpos, put := 0, 0, [];
    }

    /** As many bytes as there is room for go to the end of the pipe. */
    method Write(data: seq<Byte>) returns (i: nat)
      requires Valid()
      modifies this`wpos, this`put, buf
      ensures Valid() && i <= |data| && Contents() == old(Contents()) + data[..i]
      ensures i == |data| || |Contents()| == PIPEBUFSIZ
    {
      hide Holds;
      i := 0;
      while i < |data| && wpos < rpos + PIPEBUFSIZ
        invariant Valid() && i <= |data| && put == old(put) + data[..i]
      {
        StoreHolds(buf[..], put, rpos, data[i]);
        ghost var ring := buf[..];
        buf[wpos % PIPEBUFSIZ] := data[i];
        assert buf[..] == ring[wpos % PIPEBUFSIZ := data[i]];
        put := put + [data[i]];
        wpos := wpos + 1;
        i := i + 1;
      }
    }

    /** As many bytes as were asked for, or as there are, come off the front of the pipe. */
    method Read(n: nat) returns (got: seq<Byte>)
      requires Valid()
      modifies this`rpos
      ensures Valid() && got + Contents() == old(Contents())
      ensures |got| == n || (|got| < n && Contents() == [])
    {
      hide Holds;
      got := [];
      while |got| < n && rpos < wpos
        invariant Valid() && |got| <= n && rpos == old(rpos) + |got| && got == put[old(rpos)..rpos]
        decreases n - |got|
      {
        HoldsLess(buf[..], put, rpos);
        got := got + [buf[rpos % PIPEBUFSIZ]];
        rpos := rpos + 1;
      }
    }
  }
}
