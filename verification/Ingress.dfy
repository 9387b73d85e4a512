/** Admission of inbound messages (switchyardd/src/engine.rs, `handle_inbound`): peek at the
    duplicate cache, ask the sender limiter, and record only what both let through.

    The three are separate lock sections, and every plugin connection has its own task, so any
    number of messages, also with one key, may be between them at once. A configuration reload
    is two more sections: one replaces the limiter, the other changes the time-to-live of later
    records. Each section reads the clock while it holds its lock. */
module Ingress {
  import opened Common
  import L = Limits
  import D = DedupCache

  // ---------- the step machine ----------

  datatype Message = Message(key: string, sender: string, bytes: nat)

  datatype Stage = Peeked | Cleared | Repeated | RateLimited | Accepted

  /** A message and what it has seen: the time of its peek and how many records there were. */
  datatype Flight = Flight(msg: Message, peek: int, seen: nat, stage: Stage)

  /** An accepted message, in the order of the records. */
  datatype Admission = Admission(key: string, peek: int, seen: nat, stamp: int, ttl: nat)

  /** What later answers can depend on. */
  datatype View = View(records: seq<D.Sighting>, ttl: nat, cfg: L.Config, accepted: map<string, seq<L.Entry>>)

  datatype World = World(view: View, flights: map<nat, Flight>, log: seq<Admission>, clock: int)

  datatype Action =
    | Peek(id: nat, msg: Message)
    | Check(id: nat)
    | Record(id: nat)
    | SwapLimiter(cfg: L.Config)
    | SetTtl(ttl: nat)

  datatype Event = Event(now: int, act: Action)

  predicate Enabled(w: World, e: Event) {
    && w.clock <= e.now
    && match e.act
       case Peek(id, _) => id !in w.flights
       case Check(id) => id in w.flights && w.flights[id].stage == Peeked
       case Record(id) => id in w.flights && w.flights[id].stage == Cleared
       case SwapLimiter(_) => true
       case SetTtl(_) => true
  }

  predicate HasRoom(v: View, m: Message, now: int) {
    L.Admits(v.cfg, L.Get(v.accepted, m.sender), m.bytes, now)
  }

  function Step(w: World, e: Event): World
    requires Enabled(w, e)
  {
    var v := w.view;
    match e.act
    case Peek(id, m) =>
      var stage := if D.Duplicate(v.records, m.key, e.now) then Repeated else Peeked;
      w.(flights := w.flights[id := Flight(m, e.now, |v.records|, stage)], clock := e.now)
    case Check(id) =>
      var f := w.flights[id];
      if HasRoom(v, f.msg, e.now) then
        var entries := L.Get(v.accepted, f.msg.sender) + [L.Entry(e.now, f.msg.bytes)];
        World(v.(accepted := v.accepted[f.msg.sender := entries]), w.flights[id := f.(stage := Cleared)], w.log, e.now)
      else w.(flights := w.flights[id := f.(stage := RateLimited)], clock := e.now)
    case Record(id) =>
      var f := w.flights[id];
      World(v.(records := v.records + [D.Sighting(f.msg.key, e.now, v.ttl)]),
            w.flights[id := f.(stage := Accepted)],
            w.log + [Admission(f.msg.key, f.peek, f.seen, e.now, v.ttl)],
            e.now)
    case SwapLimiter(cfg) => w.(view := v.(cfg := cfg, accepted := map[]), clock := e.now)
    case SetTtl(ttl) => w.(view := v.(ttl := ttl), clock := e.now)
  }

  /** A run from a fresh daemon. */
  ghost predicate IsRun(run: seq<World>, events: seq<Event>) {
    && |run| == |events| + 1
    && run[0].view.records == [] && run[0].view.accepted == map[] && run[0].flights == map[] && run[0].log == []
    && forall i | 0 <= i < |events| :: Enabled(run[i], events[i]) && run[i + 1] == Step(run[i], events[i])
  }

  // ---------- what every step keeps ----------

  /** At `peek` the first `seen` records existed and made no duplicate of `key`; the others are
      later. */
  ghost predicate Fair(records: seq<D.Sighting>, key: string, peek: int, seen: nat) {
    && seen <= |records|
    && !D.Duplicate(records[..seen], key, peek)
    && (forall i | 0 <= i < seen :: records[i].time <= peek)
    && (forall i | seen <= i < |records| :: records[i].time >= peek)
  }

  ghost predicate RecordsOk(records: seq<D.Sighting>, clock: int) {
    && (forall i | 0 <= i < |records| :: records[i].time <= clock)
    && (forall i, j | 0 <= i < j < |records| :: records[i].time <= records[j].time)
  }

  ghost predicate LogOk(records: seq<D.Sighting>, log: seq<Admission>) {
    && |log| == |records|
    && forall n | 0 <= n < |log| ::
         && records[n] == D.Sighting(log[n].key, log[n].stamp, log[n].ttl)
         && log[n].seen <= n && Fair(records, log[n].key, log[n].peek, log[n].seen)
  }

  ghost predicate FlightOk(records: seq<D.Sighting>, f: Flight, clock: int) {
    f.peek <= clock && (f.stage != Repeated ==> Fair(records, f.msg.key, f.peek, f.seen))
  }

  ghost predicate Inv(w: World) {
    && RecordsOk(w.view.records, w.clock)
    && LogOk(w.view.records, w.log)
    && forall id | id in w.flights :: FlightOk(w.view.records, w.flights[id], w.clock)
  }

  lemma {:induction false} FairLater(records: seq<D.Sighting>, r: D.Sighting, key: string, peek: int, seen: nat)
    requires Fair(records, key, peek, seen) && peek <= r.time
    ensures Fair(records + [r], key, peek, seen)
  {
    hide D.Duplicate;
    assert (records + [r])[..seen] == records[..seen];
  }

  lemma {:induction false} RecordKeepsInv(w: World, e: Event)
    requires Inv(w) && Enabled(w, e) && e.act.Record?
    ensures Inv(Step(w, e))
  {
    hide Fair;
    var f := w.flights[e.act.id];
    var records, r := w.view.records, D.Sighting(f.msg.key, e.now, w.view.ttl);
    forall n | 0 <= n < |w.log| ensures Fair(records + [r], w.log[n].key, w.log[n].peek, w.log[n].seen) {
      PeekIsPast(records, w.log[n].key, w.log[n].peek, w.log[n].seen, n);
      FairLater(records, r, w.log[n].key, w.log[n].peek, w.log[n].seen);
    }
    forall id | id in w.flights && w.flights[id].stage != Repeated
      ensures Fair(records + [r], w.flights[id].msg.key, w.flights[id].peek, w.flights[id].seen)
    {
      assert FlightOk(records, w.flights[id], w.clock);
      FairLater(records, r, w.flights[id].msg.key, w.flights[id].peek, w.flights[id].seen);
    }
    assert FlightOk(records, f, w.clock);
    SeenFits(records, f.msg.key, f.peek, f.seen);
  }

  lemma {:induction false} PeekIsPast(records: seq<D.Sighting>, key: string, peek: int, seen: nat, n: nat)
    requires Fair(records, key, peek, seen) && seen <= n < |records|
    ensures peek <= records[n].time
  {
  }

  lemma {:induction false} SeenFits(records: seq<D.Sighting>, key: string, peek: int, seen: nat)
    requires Fair(records, key, peek, seen)
    ensures seen <= |records|
  {
  }

  lemma {:induction false} StepKeepsInv(w: World, e: Event)
    requires Inv(w) && Enabled(w, e)
    ensures Inv(Step(w, e))
  {
    match e.act
    case Peek(id, m) =>
      hide LogOk, D.Duplicate;
      assert w.view.records[..|w.view.records|] == w.view.records;
    case Record(id) => RecordKeepsInv(w, e);
    case Check(id) =>
      hide LogOk, Fair, HasRoom;
      assert FlightOk(w.view.records, w.flights[id], w.clock);
    case SwapLimiter(_) =>
      hide LogOk, Fair;
    case SetTtl(_) =>
      hide LogOk, Fair;
  }

  lemma {:induction false} RunKeepsInv(run: seq<World>, events: seq<Event>, i: nat)
    requires IsRun(run, events) && i < |run|
    ensures Inv(run[i])
  {
    if i > 0 {
      RunKeepsInv(run, events, i - 1);
      StepKeepsInv(run[i - 1], events[i - 1]);
    }
  }

  // ---------- how far apart one key's messages are ----------

  /** Admission `j` is a later one with the key of admission `i`. */
  predicate Again(log: seq<Admission>, i: nat, j: nat) {
    i < j < |log| && log[j].key == log[i].key
  }

  /** `j` looked no earlier than the time-to-live of `i` after the record of `i`. */
  predicate Apart(log: seq<Admission>, i: nat, j: nat)
    requires i < |log| && j < |log|
  {
    log[j].peek >= log[i].stamp + log[i].ttl
  }

  /** A fair peek at `key` that could see record `i` found the newest one run out. */
  lemma {:induction false} NewestRanOut(records: seq<D.Sighting>, key: string, peek: int, seen: nat, i: nat)
    returns (n: nat)
    requires Fair(records, key, peek, seen) && i < seen && records[i].key == key
    ensures i <= n < seen && records[n].key == key && peek >= records[n].time + records[n].ttl
  {
    var visible := records[..seen];
    n := D.LatestIsLatest(visible, key);
    assert visible[i].key == key;
    assert records[n] == visible[n];
  }

  /** If every later message with the key peeked after `i` had recorded, each did so only once
      the time-to-live of `i` had passed. */
  lemma {:induction false} SeenIsApart(w: World, i: nat, j: nat)
    requires Inv(w) && Again(w.log, i, j)
    requires forall k: nat | Again(w.log, i, k) :: w.log[k].seen > i
    ensures Apart(w.log, i, j) && w.log[j].stamp >= w.log[j].peek
    decreases j
  {
    hide Fair, RecordsOk;
    var records, e := w.view.records, w.log[j];
    var n := NewestRanOut(records, e.key, e.peek, e.seen, i);
    PeekIsPast(records, e.key, e.peek, e.seen, j);
    if n > i {
      assert Again(w.log, i, n);
      SeenIsApart(w, i, n);
    }
  }

  lemma {:induction false} UnseenIsClose(w: World, i: nat, j: nat)
    requires Inv(w) && Again(w.log, i, j) && w.log[j].seen <= i
    ensures w.log[j].peek <= w.log[i].stamp
  {
    PeekIsPast(w.view.records, w.log[j].key, w.log[j].peek, w.log[j].seen, i);
  }

  /** In every interleaving: the messages accepted after `i` with its key all peeked at least its
      time-to-live after its record exactly if none of them had peeked before that record. (A
      time-to-live of zero keeps nothing out.) */
  lemma {:induction false} SameKeyApartIff(run: seq<World>, events: seq<Event>, s: nat, i: nat)
    requires IsRun(run, events) && s < |run| && i < |run[s].log| && run[s].log[i].ttl > 0
    ensures (forall j: nat | Again(run[s].log, i, j) :: Apart(run[s].log, i, j))
       <==> (forall j: nat | Again(run[s].log, i, j) :: run[s].log[j].seen > i)
  {
    RunKeepsInv(run, events, s);
    var w := run[s];
    if forall j: nat | Again(w.log, i, j) :: w.log[j].seen > i {
      forall j: nat | Again(w.log, i, j) ensures Apart(w.log, i, j) {
        SeenIsApart(w, i, j);
      }
    } else {
      var j: nat :| Again(w.log, i, j) && w.log[j].seen <= i;
      UnseenIsClose(w, i, j);
    }
  }

  /** Under that condition the records are apart as well, whatever the time-to-live. */
  lemma {:induction false} SameKeyApart(run: seq<World>, events: seq<Event>, s: nat, i: nat, j: nat)
    requires IsRun(run, events) && s < |run| && Again(run[s].log, i, j)
    requires forall k: nat | Again(run[s].log, i, k) :: run[s].log[k].seen > i
    ensures run[s].log[j].stamp >= run[s].log[i].stamp + run[s].log[i].ttl
  {
    RunKeepsInv(run, events, s);
    SeenIsApart(run[s], i, j);
  }

  // ---------- runs in which they are not ----------

  lemma {:induction false} Extend(run: seq<World>, events: seq<Event>, e: Event)
    returns (run': seq<World>, events': seq<Event>)
    requires IsRun(run, events) && Enabled(run[|events|], e)
    ensures IsRun(run', events') && |run'| == |events'| + 1 && run'[|events'|] == Step(run[|events|], e)
  {
    hide Enabled, Step;
    run', events' := run + [Step(run[|events|], e)], events + [e];
  }

  /** Two messages with one key, past the limiter before either has recorded. */
  function BothCleared(m: Message, ttl: nat): World {
    var f := Flight(m, 0, 0, Cleared);
    var entries := [L.Entry(0, m.bytes), L.Entry(0, m.bytes)];
    World(View([], ttl, L.Config(0, 0), map[m.sender := entries]), map[0 := f, 1 := f], [], 0)
  }

  lemma {:induction false} BothClear(m: Message, ttl: nat) returns (run: seq<World>, events: seq<Event>)
    ensures IsRun(run, events) && |run| == |events| + 1 && run[|events|] == BothCleared(m, ttl)
  {
    var v := View([], ttl, L.Config(0, 0), map[]);
    run, events := [World(v, map[], [], 0)], [];
    run, events := Extend(run, events, Event(0, Peek(0, m)));
    run, events := Extend(run, events, Event(0, Peek(1, m)));
    var f := Flight(m, 0, 0, Peeked);
    assert run[|events|] == World(v, map[0 := f, 1 := f], [], 0);
    run, events := Extend(run, events, Event(0, Check(0)));
    assert [] + [L.Entry(0, m.bytes)] == [L.Entry(0, m.bytes)];
    var one := v.(accepted := map[m.sender := [L.Entry(0, m.bytes)]]);
    assert run[|events|] == World(one, map[0 := f.(stage := Cleared), 1 := f], [], 0);
    run, events := Extend(run, events, Event(0, Check(1)));
    assert [L.Entry(0, m.bytes)] + [L.Entry(0, m.bytes)] == [L.Entry(0, m.bytes), L.Entry(0, m.bytes)];
  }

  /** Two messages with one key both peek before either records, and both are accepted: at the
      same instant, or any time apart. */
  lemma {:induction false} RaceAcceptsTwice(m: Message, ttl: nat, gap: nat)
    returns (run: seq<World>, events: seq<Event>)
    ensures IsRun(run, events) && |run| == |events| + 1
    ensures var log := run[|events|].log;
            && |log| == 2 && Again(log, 0, 1) && log[0].ttl == ttl && log[1].seen == 0
            && log[0].stamp == log[0].peek == log[1].peek == 0 && log[1].stamp == gap
  {
    hide IsRun;
    run, events := BothClear(m, ttl);
    run, events := Extend(run, events, Event(0, Record(0)));
    run, events := Extend(run, events, Event(gap, Record(1)));
  }

  /** It is not enough that the later of two messages peeked after the earlier had recorded: a
      third, that raced the first and recorded under a shorter time-to-live, lets it in early. */
  lemma {:induction false} ThirdLetsIn(m: Message) returns (run: seq<World>, events: seq<Event>)
    ensures IsRun(run, events) && |run| == |events| + 1
    ensures var log := run[|events|].log;
            |log| == 3 && Again(log, 0, 2) && log[2].seen > 0 && !Apart(log, 0, 2)
  {
    hide IsRun, L.Later, L.TotalBytes;
    run, events := BothClear(m, 100);
    run, events := Extend(run, events, Event(0, Record(0)));
    run, events := Extend(run, events, Event(0, SetTtl(1)));
    run, events := Extend(run, events, Event(0, Record(1)));
    var records := [D.Sighting(m.key, 0, 100), D.Sighting(m.key, 0, 1)];
    assert run[|events|].view.records == records && run[|events|].clock == 0;
    assert !D.Duplicate(records, m.key, 1);
    run, events := Extend(run, events, Event(1, Peek(2, m)));
    run, events := Extend(run, events, Event(1, Check(2)));
    run, events := Extend(run, events, Event(1, Record(2)));
  }

  // ---------- retries ----------

  lemma {:induction false} LatestSplit(a: seq<D.Sighting>, b: seq<D.Sighting>, key: string)
    ensures D.Latest(a + b, key) == if D.Latest(b, key).Some? then D.Latest(b, key) else D.Latest(a, key)
  {
    if b == [] {
      assert a + b == a;
    } else {
      var n := |b| - 1;
      LatestSplit(a, b[..n], key);
      assert (a + b)[..|a + b| - 1] == a + b[..n];
    }
  }

  /** A message refused by the limiter and sent again: the retry is taken for a duplicate exactly
      if the records made since the first attempt peeked make it one by themselves; otherwise it
      is cleared exactly if its sender then has room. */
  lemma {:induction false} RetryIsAccepted(run: seq<World>, events: seq<Event>, id: nat, q: nat, jd: nat)
    requires IsRun(run, events) && q < |events|
    requires id in run[q].flights && run[q].flights[id].stage == RateLimited
    requires events[q].act == Peek(jd, run[q].flights[id].msg)
    ensures run[q].flights[id].seen <= |run[q].view.records|
    ensures var since := run[q].view.records[run[q].flights[id].seen..];
            run[q + 1].flights[jd].stage
            == if D.Duplicate(since, run[q].flights[id].msg.key, events[q].now) then Repeated else Peeked
    ensures forall c | q < c < |events| && events[c].act == Check(jd) ::
              run[c + 1].flights[jd].stage
              == if HasRoom(run[c].view, run[q].flights[id].msg, events[c].now) then Cleared else RateLimited
  {
    hide Inv, D.Duplicate, HasRoom;
    RunKeepsInv(run, events, q);
    var f := run[q].flights[id];
    assert FlightOk(run[q].view.records, f, run[q].clock) by {
      FlightOfInv(run[q], id);
    }
    SinceDecides(run[q].view.records, f, run[q].clock, events[q].now);
    assert run[q + 1] == Step(run[q], events[q]);
    forall c | q < c < |events| && events[c].act == Check(jd)
      ensures run[c + 1].flights[jd].stage
           == if HasRoom(run[c].view, f.msg, events[c].now) then Cleared else RateLimited
    {
      FlightKeepsMessage(run, events, q + 1, c, jd);
      assert run[c + 1] == Step(run[c], events[c]);
    }
  }

  lemma {:induction false} FlightOfInv(w: World, id: nat)
    requires Inv(w) && id in w.flights
    ensures FlightOk(w.view.records, w.flights[id], w.clock)
  {
  }

  lemma {:induction false} SinceDecides(records: seq<D.Sighting>, f: Flight, clock: int, now: int)
    requires FlightOk(records, f, clock) && f.stage != Repeated && clock <= now
    ensures f.seen <= |records|
    ensures D.Duplicate(records, f.msg.key, now) <==> D.Duplicate(records[f.seen..], f.msg.key, now)
  {
    LatestSplit(records[..f.seen], records[f.seen..], f.msg.key);
    assert records == records[..f.seen] + records[f.seen..];
  }

  lemma {:induction false} FlightKeepsMessage(run: seq<World>, events: seq<Event>, i: nat, j: nat, id: nat)
    requires IsRun(run, events) && i <= j < |run| && id in run[i].flights
    ensures id in run[j].flights && run[j].flights[id].msg == run[i].flights[id].msg
    decreases j - i
  {
    if i < j {
      FlightKeepsMessage(run, events, i, j - 1, id);
    }
  }

  // ---------- what reloads do to the limits ----------

  /** What the limiter knows of a sender keeps within its limits and lies in the past. */
  ghost predicate SenderOk(v: View, clock: int, sender: string) {
    L.WithinLimits(v.cfg, L.Get(v.accepted, sender)) && L.NotAfter(L.Get(v.accepted, sender), clock)
  }

  /** One more entry that is admitted, or none, keeps a history within its limits. */
  lemma {:induction false} HistoryGrows(
    cfg: L.Config, s: seq<L.Entry>, clock: int, now: int, more: seq<L.Entry>, bytes: nat)
    requires L.WithinLimits(cfg, s) && L.NotAfter(s, clock) && clock <= now
    requires more == [] || (more == [L.Entry(now, bytes)] && L.Admits(cfg, s, bytes, now))
    ensures L.WithinLimits(cfg, s + more) && L.NotAfter(s + more, now)
  {
    if more == [] {
      assert s + more == s;
    } else {
      hide L.WithinLimits;
      L.AdmitsIffWithinLimits(cfg, s, bytes, now);
    }
  }

  lemma {:induction false} RunKeepsSender(run: seq<World>, events: seq<Event>, i: nat, sender: string)
    requires IsRun(run, events) && i < |run|
    ensures SenderOk(run[i].view, run[i].clock, sender)
  {
    hide L.WithinLimits, L.NotAfter, L.Admits;
    if i == 0 {
      UnknownSender(run[0].view, run[0].clock, sender);
    } else {
      var w, e := run[i - 1], events[i - 1];
      RunKeepsSender(run, events, i - 1, sender);
      StepClock(w, e);
      if e.act.SwapLimiter? {
        UnknownSender(run[i].view, run[i].clock, sender);
      } else {
        KnownStep(w, e, sender);
        HistoryGrows(w.view.cfg, L.Get(w.view.accepted, sender), w.clock, e.now, ClearedBy(w, e, sender),
                     if e.act.Check? then w.flights[e.act.id].msg.bytes else 0);
      }
    }
  }

  lemma {:induction false} UnknownSender(v: View, clock: int, sender: string)
    requires v.accepted == map[]
    ensures SenderOk(v, clock, sender)
  {
  }

  lemma {:induction false} StepClock(w: World, e: Event)
    requires Enabled(w, e)
    ensures Step(w, e).clock == e.now
  {
  }

  /** What step `e` clears for a sender. */
  function ClearedBy(w: World, e: Event, sender: string): seq<L.Entry>
    requires Enabled(w, e)
  {
    if e.act.Check? && w.flights[e.act.id].msg.sender == sender && HasRoom(w.view, w.flights[e.act.id].msg, e.now)
    then [L.Entry(e.now, w.flights[e.act.id].msg.bytes)] else []
  }

  /** Everything cleared for a sender from step `a` up to step `b`. */
  ghost function ClearedIn(run: seq<World>, events: seq<Event>, a: nat, b: nat, sender: string): seq<L.Entry>
    requires IsRun(run, events) && a <= b < |run|
    decreases b
  {
    if a == b then [] else ClearedIn(run, events, a, b - 1, sender) + ClearedBy(run[b - 1], events[b - 1], sender)
  }

  lemma {:induction false} KnownSince(run: seq<World>, events: seq<Event>, a: nat, b: nat, sender: string)
    requires IsRun(run, events) && a <= b < |run| && run[a].view.accepted == map[]
    requires forall j | a <= j < b :: !events[j].act.SwapLimiter?
    ensures L.Get(run[b].view.accepted, sender) == ClearedIn(run, events, a, b, sender)
    ensures run[b].view.cfg == run[a].view.cfg
    decreases b
  {
    hide Enabled, Step, ClearedBy;
    if a < b {
      KnownSince(run, events, a, b - 1, sender);
      KnownStep(run[b - 1], events[b - 1], sender);
    }
  }

  lemma {:induction false} KnownStep(w: World, e: Event, sender: string)
    requires Enabled(w, e) && !e.act.SwapLimiter?
    ensures L.Get(Step(w, e).view.accepted, sender) == L.Get(w.view.accepted, sender) + ClearedBy(w, e, sender)
    ensures Step(w, e).view.cfg == w.view.cfg
  {
    hide HasRoom, D.Duplicate;
  }

  /** From a start or a reload up to the next, whatever else happens, every minute and every hour of
      what is cleared for a sender keeps within the limits. */
  lemma {:induction false} WithinLimitsBetweenReloads(
    run: seq<World>, events: seq<Event>, a: nat, b: nat, sender: string)
    requires IsRun(run, events) && a <= b < |run| && run[a].view.accepted == map[]
    requires forall j | a <= j < b :: !events[j].act.SwapLimiter?
    ensures L.WithinLimits(run[a].view.cfg, ClearedIn(run, events, a, b, sender))
  {
    KnownSince(run, events, a, b, sender);
    RunKeepsSender(run, events, b, sender);
  }

  /** Across a reload they do not: with one message a minute allowed, a reload to the same limits lets a
      second one through in the same instant. */
  lemma {:induction false} ReloadDoubles(first: Message, second: Message) returns (run: seq<World>, events: seq<Event>)
    requires first.sender == second.sender
    ensures IsRun(run, events) && |run| == |events| + 1
    ensures forall i | 0 <= i < |run| :: run[i].view.cfg == L.Config(1, 0)
    ensures !L.WithinLimits(L.Config(1, 0), ClearedIn(run, events, 0, |events|, first.sender))
  {
    var cfg := L.Config(1, 0);
    var one, two := L.Entry(0, first.bytes), L.Entry(0, second.bytes);
    var f := Flight(first, 0, 0, Peeked);
    var none := View([], 0, cfg, map[]);
    var w0 := World(none, map[], [], 0);
    var w1 := World(none, map[0 := f], [], 0);
    var w2 := World(none.(accepted := map[first.sender := [one]]), map[0 := f.(stage := Cleared)], [], 0);
    var w3 := World(none, map[0 := f.(stage := Cleared)], [], 0);
    var w4 := w3.(flights := w3.flights[1 := Flight(second, 0, 0, Peeked)]);
    var w5 := Step(w4, Event(0, Check(1)));
    events := [Event(0, Peek(0, first)), Event(0, Check(0)), Event(0, SwapLimiter(cfg)),
               Event(0, Peek(1, second)), Event(0, Check(1))];
    run := [w0, w1, w2, w3, w4, w5];
    RoomInNone(none, first);
    RoomInNone(none, second);
    hide HasRoom, L.WithinLimits;
    assert Step(w0, events[0]) == w1;
    assert Step(w1, events[1]) == w2 by {
      assert [] + [one] == [one];
    }
    assert Step(w2, events[2]) == w3;
    assert Step(w3, events[3]) == w4;
    ClearedTwice(run, events, first.sender, one, two);
    TwoInAMinute(one, two);
  }

  lemma {:induction false} RoomInNone(v: View, m: Message)
    requires v.cfg == L.Config(1, 0) && v.accepted == map[]
    ensures HasRoom(v, m, 0)
  {
  }

  lemma {:induction false} ClearedTwice(run: seq<World>, events: seq<Event>, sender: string, one: L.Entry, two: L.Entry)
    requires IsRun(run, events) && |events| == 5
    requires ClearedBy(run[0], events[0], sender) == [] && ClearedBy(run[1], events[1], sender) == [one]
    requires ClearedBy(run[2], events[2], sender) == [] && ClearedBy(run[3], events[3], sender) == []
    requires ClearedBy(run[4], events[4], sender) == [two]
    ensures ClearedIn(run, events, 0, 5, sender) == [one, two]
  {
    assert ClearedIn(run, events, 0, 1, sender) == [];
    assert ClearedIn(run, events, 0, 2, sender) == [one];
    assert ClearedIn(run, events, 0, 3, sender) == [one];
    assert ClearedIn(run, events, 0, 4, sender) == [one];
  }

  lemma {:induction false} TwoInAMinute(one: L.Entry, two: L.Entry)
    requires one.time == two.time == 0
    ensures !L.WithinLimits(L.Config(1, 0), [one, two])
  {
    assert [one, two] == [] + [one] + [two] && [] + [one] == [one];
    L.MinuteSnoc([one], two, -1);
    L.MinuteSnoc([], one, -1);
    assert L.MinuteFrom([one, two], -1) == 2;
  }

  // ---------- the running daemon ----------

  /** The two caches. Each method is one lock section, so any interleaving of messages and
      reloads is some sequence of calls. */
  class Gate {
    var dedup: D.Dedup
    var limiter: L.SenderLimiter
    ghost var flights: map<nat, Flight>
    ghost var log: seq<Admission>
    ghost var clock: int

    ghost predicate Valid()
      reads this, dedup, limiter
    {
      dedup.Valid() && limiter.Valid() && dedup.clock <= clock && limiter.clock <= clock
    }

    ghost function Value(): World
      reads this, dedup, limiter
    {
      World(View(dedup.records, dedup.ttl, limiter.cfg, limiter.accepted), flights, log, clock)
    }

    constructor (ttl: nat, cfg: L.Config, ghost now: int)
      requires cfg.messagesPerMinute < L.U32
      ensures Valid() && fresh(dedup) && fresh(limiter)
      ensures Value() == World(View([], ttl, cfg, map[]), map[], [], now)
    {
      dedup := new D.Dedup(ttl, now);
      limiter := new L.SenderLimiter(cfg, now);
      flights, log, clock := map[], [], now;
    }

    method PeekAt(ghost id: nat, m: Message, now: int) returns (dup: bool)
      requires Valid() && Enabled(Value(), Event(now, Peek(id, m)))
      modifies this`flights, this`clock, dedup
      ensures Valid() && Value() == Step(old(Value()), Event(now, Peek(id, m)))
      ensures dup <==> flights[id].stage == Repeated
    {
      dup := dedup.IsDuplicate(m.key, now);
      flights := flights[id := Flight(m, now, |dedup.records|, if dup then Repeated else Peeked)];
      clock := now;
    }

    method CheckAt(ghost id: nat, m: Message, now: int) returns (ok: bool)
      requires Valid() && Enabled(Value(), Event(now, Check(id))) && flights[id].msg == m
      modifies this`flights, this`clock, limiter
      ensures Valid() && Value() == Step(old(Value()), Event(now, Check(id)))
      ensures ok <==> flights[id].stage == Cleared
    {
      ok := limiter.Allow(m.sender, m.bytes, now);
      flights := flights[id := flights[id].(stage := if ok then Cleared else RateLimited)];
      clock := now;
    }

    method RecordAt(ghost id: nat, m: Message, now: int)
      requires Valid() && Enabled(Value(), Event(now, Record(id))) && flights[id].msg == m
      modifies this`flights, this`log, this`clock, dedup
      ensures Valid() && Value() == Step(old(Value()), Event(now, Record(id)))
    {
      dedup.Record(m.key, now);
      log := log + [Admission(m.key, flights[id].peek, flights[id].seen, now, dedup.ttl)];
      flights := flights[id := flights[id].(stage := Accepted)];
      clock := now;
    }

    method ReplaceLimiter(cfg: L.Config, ghost now: int)
      requires Valid() && clock <= now && cfg.messagesPerMinute < L.U32
      modifies this`limiter, this`clock
      ensures Valid() && fresh(limiter) && Value() == Step(old(Value()), Event(now, SwapLimiter(cfg)))
    {
      limiter := new L.SenderLimiter(cfg, now);
      clock := now;
    }

    method ChangeTtl(ttl: nat, ghost now: int)
      requires Valid() && clock <= now
      modifies this`clock, dedup
      ensures Valid() && Value() == Step(old(Value()), Event(now, SetTtl(ttl)))
    {
      dedup.SetTtl(ttl);
      clock := now;
    }

    /** A whole call with nothing in between. */
    method HandleInbound(ghost id: nat, m: Message, t: int, u: int, v: int) returns (r: Stage)
      requires Valid() && clock <= t <= u <= v && id !in flights
      modifies this`flights, this`log, this`clock, dedup, limiter
      ensures Valid() && clock <= v && id in flights && flights[id].stage == r
      ensures r == if D.Duplicate(old(dedup.records), m.key, t) then Repeated
                   else if HasRoom(old(Value()).view, m, u) then Accepted else RateLimited
      ensures dedup.records == old(dedup.records) + if r == Accepted then [D.Sighting(m.key, v, dedup.ttl)] else []
      ensures limiter.accepted == if r != Accepted then old(limiter.accepted) else
                old(limiter.accepted)[m.sender := L.Get(old(limiter.accepted), m.sender) + [L.Entry(u, m.bytes)]]
    {
      var dup := PeekAt(id, m, t);
      if dup {
        return Repeated;
      }
      var ok := CheckAt(id, m, u);
      if !ok {
        return RateLimited;
      }
      RecordAt(id, m, v);
      r := Accepted;
    }
  }
}
