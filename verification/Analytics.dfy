/** The analytics write buffer: `record` and `flush` of src/analytics/analytics.service.ts. A flush
    awaits Redis and the database, so it is split at its awaits into steps that other calls may
    interleave with. */
module Analytics {

  datatype Entry = Entry(endpoint: string, timestamp: int)

  /** Where a flush that has begun stands, with the entries it has taken so far. A flush that is
      trimming has read `raw` but has not yet taken it off the Redis list. */
  datatype Flush =
    | Reading(records: seq<Entry>)
    | Trimming(records: seq<Entry>, raw: seq<Entry>)
    | Inserting(records: seq<Entry>)

  datatype State = State(buffer: seq<Entry>, list: seq<Entry>, flushes: seq<Flush>, database: seq<Entry>)

  const MAX_BUFFER_SIZE: nat := 500

  const EMPTY := State([], [], [], [])

  datatype Event =
    | Recorded(entry: Entry, pushed: bool)  // whether Redis accepts the entry
    | Begun
    | Read(flush: nat, ok: bool)
    | Trimmed(flush: nat, ok: bool)
    | Inserted(flush: nat, ok: bool)

  /** The part of `flush` before its first await: without Redis, an empty buffer ends the flush. */
  function Begin(redis: bool, s: State): State {
    if redis then s.(buffer := [], flushes := s.flushes + [Reading(s.buffer)])
    else if s.buffer == [] then s
    else s.(buffer := [], flushes := s.flushes + [Inserting(s.buffer)])
  }

  function Remove(flushes: seq<Flush>, i: nat): seq<Flush>
    requires i < |flushes|
  {
    flushes[..i] + flushes[i + 1..]
  }

  function Drop(list: seq<Entry>, n: nat): seq<Entry> {
    if n <= |list| then list[n..] else []
  }

  /** Whether the event can happen: only a flush that waits for an answer gets one. */
  predicate Enabled(redis: bool, s: State, e: Event) {
    match e
    case Recorded(_, _) => true
    case Begun => true
    case Read(i, _) => i < |s.flushes| && s.flushes[i].Reading?
    case Trimmed(i, _) => i < |s.flushes| && s.flushes[i].Trimming?
    case Inserted(i, _) => i < |s.flushes| && s.flushes[i].Inserting?
  }

  function Step(redis: bool, s: State, e: Event): State
    requires Enabled(redis, s, e)
  {
    match e
    case Recorded(entry, pushed) =>
      if redis then
        if pushed then s.(list := s.list + [entry]) else s.(buffer := s.buffer + [entry])
      else
        var more := s.(buffer := s.buffer + [entry]);
        if |more.buffer| >= MAX_BUFFER_SIZE then Begin(redis, more) else more
    case Begun => Begin(redis, s)
    case Read(i, ok) =>
      var records := s.flushes[i].records;
      s.(flushes := s.flushes[i := if ok && s.list != [] then Trimming(records, s.list) else Inserting(records)])
    case Trimmed(i, ok) =>
      var f := s.flushes[i];
      if ok then s.(list := Drop(s.list, |f.raw|), flushes := s.flushes[i := Inserting(f.records + f.raw)])
      else s.(flushes := s.flushes[i := Inserting(f.records)])
    case Inserted(i, ok) =>
      var records := s.flushes[i].records;
      var rest := s.(flushes := Remove(s.flushes, i));
      if ok then rest.(database := s.database + records) else rest.(buffer := records + s.buffer)
  }

  // --- the service -----------------------------------------------------------------------------

  class AnalyticsService {
    const redis: bool
    var buffer: seq<Entry>
    var list: seq<Entry>
    var flushes: seq<Flush>
    var database: seq<Entry>

    function Current(): State
      reads this
    {
      State(buffer, list, flushes, database)
    }

    constructor (redis: bool)
      ensures this.redis == redis && Current() == EMPTY
    {
      this.redis, buffer, list, flushes, database := redis, [], [], [], [];
    }

    method Record(entry: Entry, pushed: bool)
      modifies this
      ensures Current() == Step(redis, old(Current()), Recorded(entry, pushed))
    {
      if redis {
        if pushed { list := list + [entry]; } else { buffer := buffer + [entry]; }
        return;
      }
      buffer := buffer + [entry];
      if |buffer| >= MAX_BUFFER_SIZE { BeginFlush(); }
    }

    method BeginFlush()
      modifies this
      ensures Current() == Step(redis, old(Current()), Begun)
    {
      var records := buffer;
      buffer := [];
      if redis {
        flushes := flushes + [Reading(records)];
      } else if |records| > 0 {
        flushes := flushes + [Inserting(records)];
      }
    }

    method ReadList(i: nat, ok: bool)
      requires Enabled(redis, Current(), Read(i, ok))
      modifies this
      ensures Current() == Step(redis, old(Current()), Read(i, ok))
    {
      var raw := if ok then list else [];
      var records := flushes[i].records;
      flushes := flushes[i := if |raw| > 0 then Trimming(records, raw) else Inserting(records)];
    }

    method TrimList(i: nat, ok: bool)
      requires Enabled(redis, Current(), Trimmed(i, ok))
      modifies this
      ensures Current() == Step(redis, old(Current()), Trimmed(i, ok))
    {
      var records, raw := flushes[i].records, flushes[i].raw;
      if ok {
        list := Drop(list, |raw|);
        var k := 0;
        while k < |raw|
          invariant 0 <= k <= |raw| && records == flushes[i].records + raw[..k]
        {
          records := records + [raw[k]];
          k := k + 1;
        }
        assert raw[..k] == raw;
      }
      flushes := flushes[i := Inserting(records)];
    }

    method Insert(i: nat, ok: bool)
      requires Enabled(redis, Current(), Inserted(i, ok))
      modifies this
      ensures Current() == Step(redis, old(Current()), Inserted(i, ok))
    {
      var records := flushes[i].records;
      flushes := Remove(flushes, i);
      if ok { database := database + records; } else { buffer := records + buffer; }
    }
  }

  // --- conservation ----------------------------------------------------------------------------

  function Taken(flushes: seq<Flush>): multiset<Entry> {
    if flushes == [] then multiset{}
    else Taken(flushes[..|flushes| - 1]) + multiset(flushes[|flushes| - 1].records)
  }

  /** Everything the service holds. */
  function Held(s: State): multiset<Entry> {
    multiset(s.buffer) + multiset(s.list) + Taken(s.flushes) + multiset(s.database)
  }

  function Draining(flushes: seq<Flush>): nat {
    if flushes == [] then 0
    else Draining(flushes[..|flushes| - 1]) + if flushes[|flushes| - 1].Trimming? then 1 else 0
  }

  /** At most one flush is between reading the list and trimming it, and what it read is still the front
      of the list. */
  predicate DrainsApart(s: State) {
    && Draining(s.flushes) <= 1
    && forall i | 0 <= i < |s.flushes| && s.flushes[i].Trimming? :: s.flushes[i].raw <= s.list
  }

  lemma TakenMore(flushes: seq<Flush>, f: Flush)
    ensures Taken(flushes + [f]) == Taken(flushes) + multiset(f.records)
    ensures Draining(flushes + [f]) == Draining(flushes) + if f.Trimming? then 1 else 0
  {
    assert (flushes + [f])[..|flushes|] == flushes;
  }

  function Weight(f: Flush): nat { if f.Trimming? then 1 else 0 }

  lemma {:induction false} TakenReplaced(flushes: seq<Flush>, i: nat, f: Flush)
    requires i < |flushes|
    ensures Taken(flushes[i := f]) + multiset(flushes[i].records) == Taken(flushes) + multiset(f.records)
    ensures Draining(flushes[i := f]) + Weight(flushes[i]) == Draining(flushes) + Weight(f)
  {
    hide Taken, Draining;
    var n := |flushes| - 1;
    var rest, last := flushes[..n], flushes[n];
    assert flushes == rest + [last];
    TakenMore(rest, last);
    if i == n {
      assert flushes[i := f] == rest + [f];
      TakenMore(rest, f);
    } else {
      assert flushes[i := f] == rest[i := f] + [last];
      TakenReplaced(rest, i, f);
      TakenMore(rest[i := f], last);
    }
  }

  lemma TakenGrown(flushes: seq<Flush>, i: nat, f: Flush, raw: seq<Entry>)
    requires i < |flushes| && f.records == flushes[i].records + raw
    ensures Taken(flushes[i := f]) == Taken(flushes) + multiset(raw)
    ensures Draining(flushes[i := f]) + Weight(flushes[i]) == Draining(flushes) + Weight(f)
  {
    hide Taken;
    TakenReplaced(flushes, i, f);
    Cancel(Taken(flushes[i := f]), Taken(flushes) + multiset(raw), multiset(flushes[i].records));
  }

  lemma Cancel(a: multiset<Entry>, b: multiset<Entry>, c: multiset<Entry>)
    requires a + c == b + c
    ensures a == b
  {
    assert a == (a + c) - c && b == (b + c) - c;
  }

  lemma {:induction false} TakenRemoved(flushes: seq<Flush>, i: nat)
    requires i < |flushes|
    ensures Taken(Remove(flushes, i)) + multiset(flushes[i].records) == Taken(flushes)
    ensures Draining(Remove(flushes, i)) + Weight(flushes[i]) == Draining(flushes)
  {
    hide Taken, Draining;
    var n := |flushes| - 1;
    var rest, last := flushes[..n], flushes[n];
    assert flushes == rest + [last];
    TakenMore(rest, last);
    if i == n {
      assert Remove(flushes, i) == rest;
    } else {
      assert Remove(flushes, i) == Remove(rest, i) + [last];
      TakenRemoved(rest, i);
      TakenMore(Remove(rest, i), last);
    }
  }

  lemma {:induction false} OneIsDraining(flushes: seq<Flush>, i: nat)
    requires i < |flushes| && flushes[i].Trimming?
    ensures Draining(flushes) >= 1
  {
    if i < |flushes| - 1 { OneIsDraining(flushes[..|flushes| - 1], i); }
  }

  function Added(e: Event): multiset<Entry> {
    if e.Recorded? then multiset{e.entry} else multiset{}
  }

  /** A read of the list while another flush is still to trim it. */
  predicate OverlapsDrain(s: State, e: Event) { e.Read? && e.ok && Draining(s.flushes) > 0 }

  /** The front of the list that a trim takes off. */
  function Front(list: seq<Entry>, n: nat): seq<Entry> {
    if n <= |list| then list[..n] else list
  }

  /** A trim removes from the list the very entries that its flush has read. */
  predicate TrimsWhatItRead(s: State, e: Event)
    requires e.Trimmed? ==> e.flush < |s.flushes| && s.flushes[e.flush].Trimming?
  {
    e.Trimmed? && e.ok ==>
      var raw := s.flushes[e.flush].raw;
      multiset(Front(s.list, |raw|)) == multiset(raw)
  }

  lemma ListSplits(list: seq<Entry>, n: nat)
    ensures multiset(list) == multiset(Front(list, n)) + multiset(Drop(list, n))
  {
    assert list == Front(list, n) + Drop(list, n);
  }

  lemma HeldAfterBegin(redis: bool, s: State)
    ensures Held(Begin(redis, s)) == Held(s) && Draining(Begin(redis, s).flushes) == Draining(s.flushes)
  {
    hide Taken, Draining;
    TakenMore(s.flushes, Reading(s.buffer));
    TakenMore(s.flushes, Inserting(s.buffer));
  }

  lemma ReadConserves(redis: bool, s: State, i: nat, ok: bool)
    requires Enabled(redis, s, Read(i, ok))
    ensures Held(Step(redis, s, Read(i, ok))) == Held(s)
  {
    hide Taken, Draining;
    TakenGrown(s.flushes, i, Trimming(s.flushes[i].records, s.list), []);
    TakenGrown(s.flushes, i, Inserting(s.flushes[i].records), []);
  }

  /** A trim that fails changes nothing of what is held. One that succeeds adds what its flush has read
      and takes away what it removes: the former may be kept twice, the latter lost. */
  lemma TrimBalance(redis: bool, s: State, i: nat, ok: bool)
    requires Enabled(redis, s, Trimmed(i, ok))
    ensures var t, raw := Step(redis, s, Trimmed(i, ok)), s.flushes[i].raw;
      if ok then Held(t) + multiset(Front(s.list, |raw|)) == Held(s) + multiset(raw) else Held(t) == Held(s)
  {
    hide Taken, Draining;
    var f := s.flushes[i];
    TakenGrown(s.flushes, i, Inserting(f.records), []);
    TakenGrown(s.flushes, i, Inserting(f.records + f.raw), f.raw);
    ListSplits(s.list, |f.raw|);
  }

  lemma TrimConserves(redis: bool, s: State, i: nat, ok: bool)
    requires Enabled(redis, s, Trimmed(i, ok))
    ensures Held(Step(redis, s, Trimmed(i, ok))) == Held(s) <==> TrimsWhatItRead(s, Trimmed(i, ok))
  {
    hide Step, Held, Front;
    TrimBalance(redis, s, i, ok);
    if ok {
      var raw, t := s.flushes[i].raw, Step(redis, s, Trimmed(i, ok));
      var front := multiset(Front(s.list, |raw|));
      if Held(t) == Held(s) {
        assert front + Held(s) == Held(t) + front && Held(s) + multiset(raw) == multiset(raw) + Held(s);
        Cancel(front, multiset(raw), Held(s));
      } else if front == multiset(raw) {
        Cancel(Held(t), Held(s), front);
      }
    }
  }

  lemma InsertConserves(redis: bool, s: State, i: nat, ok: bool)
    requires Enabled(redis, s, Inserted(i, ok))
    ensures Held(Step(redis, s, Inserted(i, ok))) == Held(s)
  {
    hide Taken, Draining;
    TakenRemoved(s.flushes, i);
  }

  lemma RecordConserves(redis: bool, s: State, entry: Entry, pushed: bool)
    ensures Held(Step(redis, s, Recorded(entry, pushed))) == Held(s) + multiset{entry}
  {
    hide Taken, Draining, Begin;
    HeldAfterBegin(redis, s.(buffer := s.buffer + [entry]));
  }

  lemma BeginConserves(redis: bool, s: State)
    ensures Held(Step(redis, s, Begun)) == Held(s)
  {
    hide Taken, Draining;
    HeldAfterBegin(redis, s);
  }

  /** One step neither loses nor duplicates an entry, exactly unless it is a trim that removes other
      entries than its flush has read. */
  lemma StepConserves(redis: bool, s: State, e: Event)
    requires Enabled(redis, s, e)
    ensures Held(Step(redis, s, e)) == Held(s) + Added(e) <==> TrimsWhatItRead(s, e)
  {
    hide Step, Held, Front;
    match e
    case Recorded(entry, pushed) => RecordConserves(redis, s, entry, pushed);
    case Begun => BeginConserves(redis, s);
    case Read(i, ok) => ReadConserves(redis, s, i, ok);
    case Trimmed(i, ok) => TrimConserves(redis, s, i, ok);
    case Inserted(i, ok) => InsertConserves(redis, s, i, ok);
  }

  lemma StepKeepsApart(redis: bool, s: State, e: Event)
    requires Enabled(redis, s, e) && DrainsApart(s) && !OverlapsDrain(s, e)
    ensures DrainsApart(Step(redis, s, e))
  {
    hide Taken, Draining;
    match e
    case Recorded(entry, pushed) =>
      HeldAfterBegin(redis, s.(buffer := s.buffer + [entry]));
    case Begun => HeldAfterBegin(redis, s);
    case Read(i, ok) =>
      TakenGrown(s.flushes, i, Trimming(s.flushes[i].records, s.list), []);
      TakenGrown(s.flushes, i, Inserting(s.flushes[i].records), []);
      NoneDraining(s.flushes);
    case Trimmed(i, ok) =>
      var f := s.flushes[i];
      TakenGrown(s.flushes, i, Inserting(f.records), []);
      TakenGrown(s.flushes, i, Inserting(f.records + f.raw), f.raw);
      NoneDraining(Step(redis, s, e).flushes);
      OneIsDraining(s.flushes, i);
    case Inserted(i, ok) => TakenRemoved(s.flushes, i);
  }

  lemma NoneDraining(flushes: seq<Flush>)
    ensures Draining(flushes) == 0 ==> forall i | 0 <= i < |flushes| :: !flushes[i].Trimming?
  {
    if i :| 0 <= i < |flushes| && flushes[i].Trimming? { OneIsDraining(flushes, i); }
  }

  /** A run of events, each of them possible when it happens. */
  ghost predicate Run(redis: bool, states: seq<State>, events: seq<Event>) {
    && |states| == |events| + 1 && states[0] == EMPTY
    && forall i | 0 <= i < |events| ::
         Enabled(redis, states[i], events[i]) && states[i + 1] == Step(redis, states[i], events[i])
  }

  function AllRecorded(events: seq<Event>): seq<Entry> {
    if events == [] then []
    else
      var e := events[|events| - 1];
      AllRecorded(events[..|events| - 1]) + if e.Recorded? then [e.entry] else []
  }

  /** The first k events: every entry recorded is in exactly one place, as often as it was recorded. */
  predicate Conserved(states: seq<State>, events: seq<Event>, k: nat)
    requires k <= |events| && k < |states|
  {
    Held(states[k]) == multiset(AllRecorded(events[..k]))
  }

  lemma RecordedNext(events: seq<Event>, k: nat)
    requires k < |events|
    ensures multiset(AllRecorded(events[..k + 1])) == multiset(AllRecorded(events[..k])) + Added(events[k])
  {
    assert events[..k + 1][..k] == events[..k];
  }

  /** As long as entries are conserved, the next step conserves them exactly if it trims what was read. */
  lemma ConservedNext(redis: bool, states: seq<State>, events: seq<Event>, k: nat)
    requires Run(redis, states, events) && k < |events| && Conserved(states, events, k)
    ensures Conserved(states, events, k + 1) <==> TrimsWhatItRead(states[k], events[k])
  {
    hide Step, Held, AllRecorded, TrimsWhatItRead, Added;
    StepConserves(redis, states[k], events[k]);
    RecordedNext(events, k);
  }

  lemma {:induction false} TrimsConserve(redis: bool, states: seq<State>, events: seq<Event>, k: nat)
    requires Run(redis, states, events) && k <= |events|
    requires forall i | 0 <= i < k :: TrimsWhatItRead(states[i], events[i])
    ensures Conserved(states, events, k)
  {
    hide Step, TrimsWhatItRead;
    if k == 0 {
      EmptyHoldsNothing();
    } else {
      hide Conserved, AllRecorded, Held;
      TrimsConserve(redis, states, events, k - 1);
      ConservedNext(redis, states, events, k - 1);
    }
  }

  /** A run conserves its entries all along exactly if every trim in it removes what its flush has read. */
  lemma RunConserves(redis: bool, states: seq<State>, events: seq<Event>)
    requires Run(redis, states, events)
    ensures (forall k | 0 <= k <= |events| :: Conserved(states, events, k)) <==>
      (forall i | 0 <= i < |events| :: TrimsWhatItRead(states[i], events[i]))
  {
    hide Step, TrimsWhatItRead, Conserved;
    if forall k | 0 <= k <= |events| :: Conserved(states, events, k) {
      forall i | 0 <= i < |events| ensures TrimsWhatItRead(states[i], events[i]) {
        assert Conserved(states, events, i) && Conserved(states, events, i + 1);
        ConservedNext(redis, states, events, i);
      }
    }
    if forall i | 0 <= i < |events| :: TrimsWhatItRead(states[i], events[i]) {
      forall k | 0 <= k <= |events| ensures Conserved(states, events, k) {
        TrimsConserve(redis, states, events, k);
      }
    }
  }

  lemma {:induction false} RunKeepsApart(redis: bool, states: seq<State>, events: seq<Event>, k: nat)
    requires Run(redis, states, events) && k <= |events|
    requires forall i | 0 <= i < k :: !OverlapsDrain(states[i], events[i])
    ensures DrainsApart(states[k])
  {
    if k == 0 {
      EmptyHoldsNothing();
    } else {
      hide Draining, Step, OverlapsDrain;
      RunKeepsApart(redis, states, events, k - 1);
      StepKeepsApart(redis, states[k - 1], events[k - 1]);
    }
  }

  lemma ApartTrims(redis: bool, s: State, e: Event)
    requires Enabled(redis, s, e) && DrainsApart(s)
    ensures TrimsWhatItRead(s, e)
  {
    if e.Trimmed? {
      var raw := s.flushes[e.flush].raw;
      assert Front(s.list, |raw|) == raw;
    }
  }

  /** So entries are conserved in every run in which no flush reads the list while another one is still
      to trim it. */
  lemma ApartConserves(redis: bool, states: seq<State>, events: seq<Event>)
    requires Run(redis, states, events)
    requires forall i | 0 <= i < |events| :: !OverlapsDrain(states[i], events[i])
    ensures forall k | 0 <= k <= |events| :: Conserved(states, events, k)
  {
    hide Step, TrimsWhatItRead, Conserved, OverlapsDrain, DrainsApart;
    forall i | 0 <= i < |events| ensures TrimsWhatItRead(states[i], events[i]) {
      RunKeepsApart(redis, states, events, i);
      ApartTrims(redis, states[i], events[i]);
    }
    RunConserves(redis, states, events);
  }

  // --- every flush ends ------------------------------------------------------------------------

  /** How many answers a flush still waits for at most. */
  function Left(f: Flush): nat {
    match f
    case Reading(_) => 3
    case Trimming(_, _) => 2
    case Inserting(_) => 1
  }

  function AllLeft(flushes: seq<Flush>): nat {
    if flushes == [] then 0 else AllLeft(flushes[..|flushes| - 1]) + Left(flushes[|flushes| - 1])
  }

  predicate Answers(e: Event) { e.Read? || e.Trimmed? || e.Inserted? }

  lemma {:induction false} LeftReplaced(flushes: seq<Flush>, i: nat, f: Flush)
    requires i < |flushes|
    ensures AllLeft(flushes[i := f]) + Left(flushes[i]) == AllLeft(flushes) + Left(f)
  {
    hide Left;
    var n := |flushes| - 1;
    if i < n {
      LeftReplaced(flushes[..n], i, f);
      assert flushes[i := f][..n] == flushes[..n][i := f];
    } else {
      assert flushes[i := f][..n] == flushes[..n];
    }
  }

  lemma {:induction false} LeftRemoved(flushes: seq<Flush>, i: nat)
    requires i < |flushes|
    ensures AllLeft(Remove(flushes, i)) + Left(flushes[i]) == AllLeft(flushes)
  {
    hide Left;
    var n := |flushes| - 1;
    if i < n {
      LeftRemoved(flushes[..n], i);
      assert Remove(flushes, i)[..n - 1] == Remove(flushes[..n], i);
    } else {
      assert Remove(flushes, i) == flushes[..n];
    }
  }

  lemma LeftBegun(redis: bool, s: State)
    ensures AllLeft(Begin(redis, s).flushes) <= AllLeft(s.flushes) + 3
  {
    var flushes := Begin(redis, s).flushes;
    if |flushes| > |s.flushes| { assert flushes[..|flushes| - 1] == s.flushes; }
  }

  /** An answer, also that of a failed call, brings its flush on; only `record` and `flush` begin new ones. */
  lemma StepBringsOn(redis: bool, s: State, e: Event)
    requires Enabled(redis, s, e)
    ensures AllLeft(Step(redis, s, e).flushes) <= AllLeft(s.flushes) + if Answers(e) then -1 else 3
  {
    hide AllLeft;
    match e {
      case Read(i, ok) => LeftReplaced(s.flushes, i, Step(redis, s, e).flushes[i]);
      case Trimmed(i, ok) => LeftReplaced(s.flushes, i, Step(redis, s, e).flushes[i]);
      case Inserted(i, ok) => LeftRemoved(s.flushes, i);
      case Recorded(entry, _) => LeftBegun(redis, s.(buffer := s.buffer + [entry]));
      case Begun => LeftBegun(redis, s);
    }
  }

  function CountAnswers(events: seq<Event>): nat {
    if events == [] then 0
    else CountAnswers(events[..|events| - 1]) + if Answers(events[|events| - 1]) then 1 else 0
  }

  /** In every run each flush ends: there are at most three answers for each event that is none. */
  lemma {:induction false} FlushesEnd(redis: bool, states: seq<State>, events: seq<Event>, k: nat)
    requires Run(redis, states, events) && k <= |events|
    ensures CountAnswers(events[..k]) + AllLeft(states[k].flushes) <= 3 * (k - CountAnswers(events[..k]))
  {
    if k > 0 {
      FlushesEnd(redis, states, events, k - 1);
      StepBringsOn(redis, states[k - 1], events[k - 1]);
      assert events[..k][..k - 1] == events[..k - 1];
      hide AllLeft, Step;
    }
  }

  lemma EmptyHoldsNothing()
    ensures Held(EMPTY) == multiset{} && DrainsApart(EMPTY)
  {
  }

  // --- where entries go ------------------------------------------------------------------------

  /** What the successful inserts among the first k events stored, in order. */
  function Stored(states: seq<State>, events: seq<Event>, k: nat): seq<Entry>
    requires k <= |events| && k < |states|
  {
    if k == 0 then []
    else
      var s, e := states[k - 1], events[k - 1];
      Stored(states, events, k - 1)
      + if e.Inserted? && e.ok && e.flush < |s.flushes| then s.flushes[e.flush].records else []
  }

  /** The entries that Redis accepted. */
  function Accepted(events: seq<Event>): seq<Entry> {
    if events == [] then []
    else
      var e := events[|events| - 1];
      Accepted(events[..|events| - 1]) + if e.Recorded? && e.pushed then [e.entry] else []
  }

  /** How many entries the successful trims took off the list: as many as were read, if there are that many. */
  function TakenOff(states: seq<State>, events: seq<Event>, k: nat): nat
    requires k <= |events| && k < |states|
  {
    if k == 0 then 0
    else
      var s, e := states[k - 1], events[k - 1];
      TakenOff(states, events, k - 1)
      + if e.Trimmed? && e.ok && e.flush < |s.flushes| && s.flushes[e.flush].Trimming?
        then |Front(s.list, |s.flushes[e.flush].raw|)| else 0
  }

  /** In every run the database is what successful inserts stored, and nothing of a failed one. */
  lemma {:induction false} DatabaseIsHistory(redis: bool, states: seq<State>, events: seq<Event>, k: nat)
    requires Run(redis, states, events) && k <= |events|
    ensures states[k].database == Stored(states, events, k)
  {
    if k > 0 { DatabaseIsHistory(redis, states, events, k - 1); }
  }

  /** In every run the Redis list is the entries it accepted, less those trimmed off its front. */
  lemma {:induction false} ListIsHistory(states: seq<State>, events: seq<Event>, k: nat)
    requires Run(true, states, events) && k <= |events|
    ensures TakenOff(states, events, k) <= |Accepted(events[..k])|
    ensures states[k].list == Accepted(events[..k])[TakenOff(states, events, k)..]
  {
    if k > 0 {
      ListIsHistory(states, events, k - 1);
      assert events[..k][..k - 1] == events[..k - 1];
    }
  }

  /** A flush begins when it is asked for, without Redis only if there is something to store, and with the
      entry that fills the buffer to 500. It takes the whole buffer. */
  lemma FlushBegins(redis: bool, s: State, e: Event)
    requires Enabled(redis, s, e)
    ensures var t := Step(redis, s, e);
      var entries := s.buffer + if e.Recorded? then [e.entry] else [];
      var begins := if redis then e.Begun? else if e.Begun? then s.buffer != [] else e.Recorded? && |entries| >= 500;
      && |t.flushes| == |s.flushes| + (if begins then 1 else if e.Inserted? then -1 else 0)
      && (begins ==> t.buffer == [] && t.flushes[|s.flushes|].records == entries)
  {
  }

  // --- without Redis ---------------------------------------------------------------------------

  predicate OnlyInserting(s: State) {
    s.list == [] && forall i | 0 <= i < |s.flushes| :: s.flushes[i].Inserting?
  }

  lemma {:induction false} MemoryRunInserts(states: seq<State>, events: seq<Event>)
    requires Run(false, states, events)
    ensures OnlyInserting(states[|events|])
  {
    if events != [] {
      hide Step, Enabled, OnlyInserting;
      var n := |events| - 1;
      MemoryRunInserts(states[..n + 1], events[..n]);
      StepInserts(states[n], events[n]);
    } else {
      EmptyInserts();
    }
  }

  lemma StepInserts(s: State, e: Event)
    requires Enabled(false, s, e) && OnlyInserting(s)
    ensures OnlyInserting(Step(false, s, e))
  {
  }

  lemma EmptyInserts()
    ensures OnlyInserting(EMPTY)
  {
  }

  /** Without Redis there is nothing to trim, so flushes may overlap in any way. */
  lemma MemoryConserves(states: seq<State>, events: seq<Event>)
    requires Run(false, states, events)
    ensures forall k | 0 <= k <= |events| :: Conserved(states, events, k)
  {
    hide Held, Step, Conserved;
    forall i | 0 <= i < |events| ensures TrimsWhatItRead(states[i], events[i]) {
      assert Enabled(false, states[i], events[i]);
      MemoryRunInserts(states[..i + 1], events[..i]);
    }
    RunConserves(false, states, events);
  }

  /** Without Redis and without a failed insert the buffer stays below its limit, and no flush takes more. */
  lemma {:induction false} MemoryBufferBound(states: seq<State>, events: seq<Event>)
    requires Run(false, states, events) && forall e | e in events :: !(e.Inserted? && !e.ok)
    ensures |states[|events|].buffer| < MAX_BUFFER_SIZE
    ensures forall f | f in states[|events|].flushes :: |f.records| <= MAX_BUFFER_SIZE
  {
    if events != [] {
      hide Step, Enabled, OnlyInserting;
      var n := |events| - 1;
      MemoryBufferBound(states[..n + 1], events[..n]);
      MemoryRunInserts(states[..n + 1], events[..n]);
      assert events[n] in events;
      StepKeepsBound(states[n], events[n]);
    }
  }

  lemma StepKeepsBound(s: State, e: Event)
    requires Enabled(false, s, e) && OnlyInserting(s) && !(e.Inserted? && !e.ok)
    requires |s.buffer| < MAX_BUFFER_SIZE && forall f | f in s.flushes :: |f.records| <= MAX_BUFFER_SIZE
    ensures var t := Step(false, s, e);
      |t.buffer| < MAX_BUFFER_SIZE && forall f | f in t.flushes :: |f.records| <= MAX_BUFFER_SIZE
  {
  }

  /** The database, the flush under way and the buffer, one after the other. */
  function InLine(s: State): seq<Entry> {
    s.database + (if s.flushes == [] then [] else s.flushes[0].records) + s.buffer
  }

  /** With one flush at a time, entries reach the database in the order in which they were recorded. */
  lemma {:induction false} MemoryKeepsOrder(states: seq<State>, events: seq<Event>)
    requires Run(false, states, events) && forall s | s in states :: |s.flushes| <= 1
    ensures InLine(states[|events|]) == AllRecorded(events)
  {
    if events != [] {
      hide Step, Enabled, InLine, OnlyInserting;
      var n := |events| - 1;
      MemoryKeepsOrder(states[..n + 1], events[..n]);
      MemoryRunInserts(states[..n + 1], events[..n]);
      assert states[n] in states && states[n + 1] in states;
      StepKeepsLine(states[n], events[n]);
    }
  }

  lemma StepKeepsLine(s: State, e: Event)
    requires Enabled(false, s, e) && OnlyInserting(s) && |s.flushes| <= 1 && |Step(false, s, e).flushes| <= 1
    ensures InLine(Step(false, s, e)) == InLine(s) + if e.Recorded? then [e.entry] else []
  {
  }

  function OverlapEvent(a: Entry, b: Entry, k: nat): Event {
    match k
    case 0 => Recorded(a, true)
    case 1 => Begun
    case 2 => Begun
    case 3 => Read(0, true)
    case 4 => Read(1, true)
    case 5 => Trimmed(0, true)
    case 6 => Recorded(b, true)
    case 7 => Trimmed(1, true)
    case _ => Inserted(0, true)
  }

  function OverlapState(a: Entry, b: Entry, k: nat): State {
    var t := Trimming([], [a]);
    match k
    case 0 => EMPTY
    case 1 => State([], [a], [], [])
    case 2 => State([], [a], [Reading([])], [])
    case 3 => State([], [a], [Reading([]), Reading([])], [])
    case 4 => State([], [a], [t, Reading([])], [])
    case 5 => State([], [a], [t, t], [])
    case 6 => State([], [], [Inserting([a]), t], [])
    case 7 => State([], [b], [Inserting([a]), t], [])
    case 8 => State([], [], [Inserting([a]), Inserting([a])], [])
    case 9 => State([], [], [Inserting([a])], [a])
    case _ => State([], [], [], [a, a])
  }

  function OverlapEvents(a: Entry, b: Entry): seq<Event> { seq(10, (k: nat) => OverlapEvent(a, b, k)) }

  function OverlapStates(a: Entry, b: Entry): seq<State> { seq(11, (k: nat) => OverlapState(a, b, k)) }

  lemma OverlapStep(a: Entry, b: Entry, k: nat)
    requires k < 10
    ensures Enabled(true, OverlapState(a, b, k), OverlapEvent(a, b, k))
    ensures Step(true, OverlapState(a, b, k), OverlapEvent(a, b, k)) == OverlapState(a, b, k + 1)
  {
    var s := Step(true, OverlapState(a, b, k), OverlapEvent(a, b, k));
    var t := OverlapState(a, b, k + 1);
    assert [] + [a] == [a];
    assert s.flushes == t.flushes;
  }

  /** Overlapping reads break it: two flushes read one entry, and the second trim drops an entry that
      was recorded in between, so the first entry is kept twice and the second is lost. */
  lemma OverlappingDrains(a: Entry, b: Entry)
    requires a != b
    ensures var events, states := OverlapEvents(a, b), OverlapStates(a, b);
            && Run(true, states, events) && AllRecorded(events) == [a, b]
            && states[10] == State([], [], [], [a, a]) && !Conserved(states, events, 10)
  {
    hide OverlapState, OverlapEvent, Step, Enabled;
    var events, states := OverlapEvents(a, b), OverlapStates(a, b);
    forall i | 0 <= i < 10
      ensures Enabled(true, states[i], events[i]) && states[i + 1] == Step(true, states[i], events[i])
    {
      OverlapStep(a, b, i);
    }
    OverlapEnds(a, b);
    RecordedTwo(events, a, b);
    assert events[..10] == events && multiset([a, a])[b] == 0 && multiset([a, b])[b] == 1;
  }

  lemma OverlapEnds(a: Entry, b: Entry)
    ensures OverlapState(a, b, 0) == EMPTY && OverlapState(a, b, 10) == State([], [], [], [a, a])
    ensures OverlapEvent(a, b, 0) == Recorded(a, true) && OverlapEvent(a, b, 6) == Recorded(b, true)
    ensures forall i: nat | i < 10 && i != 0 && i != 6 :: !OverlapEvent(a, b, i).Recorded?
  {
  }

  lemma RecordedTwo(events: seq<Event>, a: Entry, b: Entry)
    requires |events| == 10 && events[0] == Recorded(a, true) && events[6] == Recorded(b, true)
    requires forall i | 0 <= i < 10 && i != 0 && i != 6 :: !events[i].Recorded?
    ensures AllRecorded(events) == [a, b]
  {
    RecordedNone(events, 10, 7);
    RecordedNone(events, 6, 1);
    assert events[..10] == events && events[..7][..6] == events[..6] && events[..1][..0] == [];
  }

  lemma {:induction false} RecordedNone(events: seq<Event>, n: nat, m: nat)
    requires m <= n <= |events| && forall i | m <= i < n :: !events[i].Recorded?
    ensures AllRecorded(events[..n]) == AllRecorded(events[..m])
  {
    if m < n {
      RecordedNone(events, n - 1, m);
      assert events[..n][..n - 1] == events[..n - 1];
    }
  }
}
