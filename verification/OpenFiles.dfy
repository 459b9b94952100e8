/** The file server's table of open files and its generation-tagged ids (src/serv.c). */
module OpenFiles {
  import opened Words

  const MAXOPEN: nat := 1024
  const LAPS: nat := 0x40_0000

  /** ids[i] is opentab[i].o_fileid; refs[i] what pageref says of its Fd page, which is the server's
      own mapping, once it has made one, and one for every mapping that clients have. */
  datatype Table = Table(ids: seq<nat>, refs: seq<nat>)

  datatype Answer = Issued(slot: nat, id: nat) | NoMemory | MaxOpen

  ghost predicate Shaped(t: Table) { |t.ids| == |t.refs| == MAXOPEN }

  /** Every id is a 32-bit number that decodes to its slot. */
  ghost predicate Inv(t: Table) {
    Shaped(t) && forall i :: 0 <= i < MAXOPEN ==> t.ids[i] < U32 && t.ids[i] % MAXOPEN == i
  }

  /** The first slot from i on that no client maps, or MAXOPEN. */
  function FirstUnused(t: Table, i: nat): (r: nat)
    requires |t.refs| == MAXOPEN && i <= MAXOPEN
    ensures i <= r <= MAXOPEN && (r < MAXOPEN ==> t.refs[r] <= 1)
    ensures forall j :: i <= j < r ==> t.refs[j] > 1
    decreases MAXOPEN - i
  {
    if i == MAXOPEN || t.refs[i] <= 1 then i else FirstUnused(t, i + 1)
  }

  /** The id of a slot after it has been given out c more times. */
  function Later(id: nat, c: nat): nat { (id + MAXOPEN * c) % U32 }

  predicate Held(t: Table, e: nat)
    requires |t.refs| == MAXOPEN && e < MAXOPEN
  {
    t.refs[e] > 1
  }

  /** openfile_alloc; `memory` says whether a page can be had. */
  function OpenfileAlloc(t: Table, memory: bool): (Table, Answer)
    requires |t.ids| == |t.refs| == MAXOPEN
  {
    var i := FirstUnused(t, 0);
    if i == MAXOPEN then (t, MaxOpen)
    else if t.refs[i] == 0 && !memory then (t, NoMemory)
    else
      var id := (t.ids[i] + MAXOPEN) % U32;
      (Table(t.ids[i := id], t.refs[i := 1]), Issued(i, id))
  }

  /** openfile_lookup */
  function OpenfileLookup(t: Table, id: nat): Option<nat>
    requires |t.ids| == |t.refs| == MAXOPEN
  {
    var i := id % MAXOPEN;
    if t.refs[i] <= 1 || t.ids[i] != id then None else Some(i)
  }

  /** A request to open, or a client that gains or gives up a mapping of an Fd page. */
  datatype Event = Open(memory: bool) | Gain(slot: nat) | Drop(slot: nat)

  function Next(t: Table, v: Event): Table
    requires |t.ids| == |t.refs| == MAXOPEN
  {
    match v
    case Open(memory) => OpenfileAlloc(t, memory).0
    case Gain(i) => if i < MAXOPEN && t.refs[i] >= 1 then t.(refs := t.refs[i := t.refs[i] + 1]) else t
    case Drop(i) => if i < MAXOPEN && t.refs[i] >= 2 then t.(refs := t.refs[i := t.refs[i] - 1]) else t
  }

  predicate Issues(t: Table, v: Event, e: nat)
    requires |t.ids| == |t.refs| == MAXOPEN
  {
    v.Open? && OpenfileAlloc(t, v.memory).1.Issued? && OpenfileAlloc(t, v.memory).1.slot == e
  }

  lemma NextIdFits(id: nat, e: nat)
    requires id < U32 && id % MAXOPEN == e
    ensures (id + MAXOPEN) % U32 % MAXOPEN == e
  {
  }

  /** A step keeps ids sound, moves the id of a slot only when it gives the slot out, and gives it
      out only when no client maps its page. */
  lemma NextKeeps(t: Table, v: Event, e: nat)
    requires Inv(t) && e < MAXOPEN
    ensures Inv(Next(t, v))
    ensures Next(t, v).ids[e] == if Issues(t, v, e) then (t.ids[e] + MAXOPEN) % U32 else t.ids[e]
    ensures Issues(t, v, e) ==> t.refs[e] <= 1 && Next(t, v).refs[e] == 1
  {
    var i := FirstUnused(t, 0);
    if i < MAXOPEN {
      NextIdFits(t.ids[i], i);
    }
  }

  ghost predicate Run(states: seq<Table>, events: seq<Event>) {
    && |states| == |events| + 1 && Inv(states[0])
    && forall i :: 0 <= i < |events| ==> Shaped(states[i]) && states[i + 1] == Next(states[i], events[i])
  }

  lemma {:induction false} RunKeepsInv(states: seq<Table>, events: seq<Event>, n: nat)
    requires Run(states, events) && n < |states|
    ensures Inv(states[n])
  {
    if n > 0 {
      var p := n - 1;
      RunKeepsInv(states, events, p);
      NextKeeps(states[p], events[p], 0);
      hide Next;
      assert states[p + 1] == Next(states[p], events[p]);
    }
  }

  ghost function Issuances(states: seq<Table>, events: seq<Event>, e: nat, i: nat, n: nat): nat
    requires Run(states, events) && i <= n <= |events|
    decreases n
  {
    if n == i then 0
    else
      assert n - 1 < |events|;
      Issuances(states, events, e, i, n - 1) + (if Issues(states[n - 1], events[n - 1], e) then 1 else 0)
  }

  lemma {:induction false} IdsAdvance(states: seq<Table>, events: seq<Event>, e: nat, i: nat, n: nat)
    requires Run(states, events) && e < MAXOPEN && i <= n <= |events|
    ensures Inv(states[i]) && Inv(states[n])
    ensures states[n].ids[e] == Later(states[i].ids[e], Issuances(states, events, e, i, n))
  {
    hide Next, Issues, Later;
    RunKeepsInv(states, events, i);
    RunKeepsInv(states, events, n);
    LaterZero(states[i].ids[e]);
    if n > i {
      var p := n - 1;
      IdsAdvance(states, events, e, i, p);
      IdStep(states[p], events[p], e);
      assert states[p + 1] == Next(states[p], events[p]);
      LaterOne(states[i].ids[e], Issuances(states, events, e, i, p));
    }
  }

  lemma IdStep(t: Table, v: Event, e: nat)
    requires Inv(t) && e < MAXOPEN
    ensures |Next(t, v).ids| == MAXOPEN && Next(t, v).ids[e] == if Issues(t, v, e) then Later(t.ids[e], 1) else t.ids[e]
  {
    NextKeeps(t, v, e);
  }

  lemma LaterZero(id: nat)
    ensures id < U32 ==> Later(id, 0) == id
  {
  }

  lemma LaterOne(id: nat, c: nat)
    ensures Later(Later(id, c), 1) == Later(id, c + 1)
  {
  }

  lemma SameIdIff(id: nat, c: nat)
    requires id < U32
    ensures Later(id, c) == id <==> c % LAPS == 0
  {
    var q, r := c / LAPS, c % LAPS;
    assert id + MAXOPEN * c == id + MAXOPEN * r + U32 * q;
    assert MAXOPEN * r < U32;
  }

  /** An id that slot e had at some time is accepted later exactly when a client maps the slot's Fd
      page and the slot has been given out a multiple of 2^22 times in between. */
  lemma StaleIdIff(states: seq<Table>, events: seq<Event>, e: nat, i: nat, n: nat)
    requires Run(states, events) && e < MAXOPEN && i <= n <= |events|
    ensures Shaped(states[i]) && Shaped(states[n])
    ensures OpenfileLookup(states[n], states[i].ids[e])
         == if Held(states[n], e) && Issuances(states, events, e, i, n) % LAPS == 0 then Some(e) else None
  {
    hide Issuances, Later, Next;
    IdsAdvance(states, events, e, i, n);
    SameIdIff(states[i].ids[e], Issuances(states, events, e, i, n));
    LookupIs(states[n], states[i].ids[e], e);
  }

  lemma LookupIs(t: Table, id: nat, e: nat)
    requires Shaped(t) && e < MAXOPEN && id % MAXOPEN == e
    ensures OpenfileLookup(t, id) == if Held(t, e) && t.ids[e] == id then Some(e) else None
  {
  }

  ghost predicate HeldThroughout(states: seq<Table>, e: nat, i: nat, n: nat) {
    e < MAXOPEN && n < |states| && forall m :: i <= m <= n ==> Shaped(states[m]) && Held(states[m], e)
  }

  /** While some client maps the Fd page of a slot, the slot is not given out again and its id stays
      valid, whatever the other clients do. */
  lemma {:induction false} HeldIsNeverReissued(states: seq<Table>, events: seq<Event>, e: nat, i: nat, n: nat)
    requires Run(states, events) && e < MAXOPEN && i <= n <= |events|
    requires HeldThroughout(states, e, i, n)
    ensures Issuances(states, events, e, i, n) == 0
    ensures OpenfileLookup(states[n], states[i].ids[e]) == Some(e)
  {
    StaleIdIff(states, events, e, i, n);
    hide OpenfileLookup, Next;
    if n > i {
      var p := n - 1;
      HeldIsNeverReissued(states, events, e, i, p);
      RunKeepsInv(states, events, p);
      NextKeeps(states[p], events[p], e);
    }
  }

  /** No two slots share an id, so an accepted id names one open file. */
  lemma IdsDistinct(t: Table, e: nat, f: nat)
    requires Inv(t) && e < MAXOPEN && f < MAXOPEN && t.ids[e] == t.ids[f]
    ensures e == f
  {
  }

  /** The id that slot e gets the c-th time, returned as a signed number, looks like an error exactly when the
      slot has been given out 2^21 times or more in this lap. */
  lemma IssueLooksFailedIff(e: nat, c: nat)
    requires e < MAXOPEN
    ensures Int32(Later(e, c)) < 0 <==> c % LAPS >= LAPS / 2
  {
    var q, r := c / LAPS, c % LAPS;
    assert e + MAXOPEN * c == e + MAXOPEN * r + U32 * q;
    assert e + MAXOPEN * r < U32;
  }

  /** What openfile_alloc answers and does: -E_MAX_OPEN exactly when clients map every Fd page, -E_NO_MEM
      exactly when the first page that no client maps is missing and cannot be had, and nothing changes
      then; otherwise that slot gets the next id, which is the answer, and the server's one mapping,
      and no other slot changes. */
  lemma AllocAnswers(t: Table, memory: bool)
    requires Inv(t)
    ensures var (t', a) := OpenfileAlloc(t, memory);
            match a
            case MaxOpen => t' == t && forall i :: 0 <= i < 1024 ==> t.refs[i] > 1
            case NoMemory =>
              && t' == t && !memory
              && exists i :: 0 <= i < 1024 && t.refs[i] == 0 && forall j :: 0 <= j < i ==> t.refs[j] > 1
            case Issued(e, id) =>
              && e < 1024 && t.refs[e] <= 1 && (t.refs[e] == 1 || memory) && (forall j :: 0 <= j < e ==> t.refs[j] > 1)
              && id == Wrap(t.ids[e] + 1024) && t' == Table(t.ids[e := id], t.refs[e := 1])
  {
  }

  lemma UnusedStep(t: Table, i: nat)
    requires |t.refs| == MAXOPEN && i <= MAXOPEN
    ensures FirstUnused(t, i) == if i == MAXOPEN || t.refs[i] <= 1 then i else FirstUnused(t, i + 1)
  {
  }

  class OpenTable {
    const fileid: array<nat>
    const refs: array<nat>

    ghost predicate Valid() { fileid != refs && fileid.Length == refs.Length == MAXOPEN }

    ghost function View(): Table
      reads fileid, refs
    {
      Table(fileid[..], refs[..])
    }

    /** serve_init, before any Fd page is mapped. */
    constructor ()
      ensures Valid() && Inv(View()) && fresh(fileid) && fresh(refs)
      ensures forall i :: 0 <= i < MAXOPEN ==> fileid[i] == i && refs[i] == 0
    {
      fileid := new nat[MAXOPEN];
      refs := new nat[MAXOPEN](_ => 0);
      new;
      var i := 0;
      while i < MAXOPEN
        invariant i <= MAXOPEN && forall j :: 0 <= j < i ==> fileid[j] == j
        modifies fileid
      {
        fileid[i] := i;
        i := i + 1;
      }
    }

    method Alloc(memory: bool) returns (a: Answer)
      requires Valid()
      modifies fileid, refs
      ensures (View(), a) == OpenfileAlloc(old(View()), memory)
    {
      ghost var t := View();
      hide FirstUnused;
      var i := 0;
      while i < MAXOPEN
        invariant i <= MAXOPEN && View() == t && FirstUnused(t, 0) == FirstUnused(t, i)
      {
        UnusedStep(t, i);
        if refs[i] <= 1 {
          if refs[i] == 0 {
            if !memory { return NoMemory; }
            refs[i] := 1;
          }
          fileid[i] := (fileid[i] + MAXOPEN) % U32;
          assert View().refs == t.refs[i := 1];
          return Issued(i, fileid[i]);
        }
        i := i + 1;
      }
      UnusedStep(t, i);
      return MaxOpen;
    }

    method Lookup(id: nat) returns (r: Option<nat>)
      requires Valid()
      ensures r == OpenfileLookup(View(), id)
    {
      var i := id % MAXOPEN;
      if refs[i] <= 1 || fileid[i] != id { return None; }
      return Some(i);
    }
  }
}
