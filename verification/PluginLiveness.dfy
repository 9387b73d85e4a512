/** Wedge detection (switchyardd/src/plugins.rs, `is_wedged` and `monitor_child`): every 15
    seconds the supervisor looks at the child's handle and kills a child that has gone silent or
    never attached. The read loop of a connection gives up by itself when no frame has come for 90
    seconds since it last began to read, and then clears `connected`. Times are in nanoseconds. */
module PluginLiveness {
  import opened Common

  const LIVENESS: int := 90_000_000_000
  const CONNECT: int := 60_000_000_000
  const POLL: int := 15_000_000_000

  predicate IsWedged(connected: bool, sinceLastSeen: int, sinceSpawn: int) {
    if connected then sinceLastSeen > LIVENESS
    else sinceSpawn > CONNECT && sinceLastSeen > CONNECT
  }

  // ---------- the handle over time ----------

  datatype Link = Absent | Present(connected: bool, lastSeen: int)

  datatype Event = Connect(time: int) | Frame(time: int) | Drop(time: int)

  /** A frame refreshes `last_seen`; a drop keeps it and clears `connected`. */
  function Touch(l: Link, e: Event): Link {
    match e
    case Connect(t) => Present(true, t)
    case Frame(t) => if l.Present? && l.connected then l.(lastSeen := t) else l
    case Drop(_) => if l.Present? then l.(connected := false) else l
  }

  /** The handle at time `t`: a child may find one left behind by an earlier process. */
  function LinkAt(start: Link, events: seq<Event>, t: int): Link {
    if events == [] then start
    else
      var before := LinkAt(start, events[..|events| - 1], t);
      var e := events[|events| - 1];
      if e.time <= t then Touch(before, e) else before
  }

  predicate WedgedAt(start: Link, events: seq<Event>, spawn: int, t: int) {
    var l := LinkAt(start, events, t);
    if l.Present? then IsWedged(l.connected, t - l.lastSeen, t - spawn)
    else IsWedged(false, t - spawn, t - spawn)
  }

  ghost predicate Chronological(events: seq<Event>) {
    forall i, j | 0 <= i < j < |events| :: events[i].time <= events[j].time
  }

  /** What is left behind by an earlier process is not newer than the spawn. */
  ghost predicate Stale(start: Link, spawn: int) {
    start.Present? ==> start.lastSeen <= spawn
  }

  // ---------- the monitor ----------

  /** The poll loop over the child's life: the child exits by itself at `exit`, if ever. */
  method MonitorChild(start: Link, events: seq<Event>, spawn: int, exit: Option<int>, polls: nat)
    returns (killed: Option<int>)
    ensures killed.Some? ==>
              exists k :: 1 <= k <= polls && KilledAt(start, events, spawn, exit, k) && killed == Some(spawn + k * POLL)
    ensures killed.None? ==> forall k | 1 <= k <= polls :: !KilledAt(start, events, spawn, exit, k)
  {
    var k := 1;
    while k <= polls
      invariant 1 <= k <= polls + 1
      invariant forall j | 1 <= j < k :: Survives(start, events, spawn, exit, j)
    {
      var now := spawn + k * POLL;
      if exit.Some? && exit.value <= now {
        forall j | 1 <= j <= polls ensures !KilledAt(start, events, spawn, exit, j) {
          assert j < k ==> Survives(start, events, spawn, exit, j);
        }
        return None; // exited on its own
      }
      if WedgedAt(start, events, spawn, now) {
        assert KilledAt(start, events, spawn, exit, k);
        return Some(now);
      }
      assert Survives(start, events, spawn, exit, k);
      k := k + 1;
    }
    killed := None;
    forall j | 1 <= j <= polls ensures !KilledAt(start, events, spawn, exit, j) {
      assert Survives(start, events, spawn, exit, j);
    }
  }

  ghost predicate Survives(start: Link, events: seq<Event>, spawn: int, exit: Option<int>, k: nat) {
    && (exit.Some? ==> exit.value > spawn + k * POLL)
    && !WedgedAt(start, events, spawn, spawn + k * POLL)
  }

  /** Poll `k` is the first to find the running child wedged. */
  ghost predicate KilledAt(start: Link, events: seq<Event>, spawn: int, exit: Option<int>, k: nat) {
    && (exit.Some? ==> exit.value > spawn + k * POLL)
    && WedgedAt(start, events, spawn, spawn + k * POLL)
    && forall j | 1 <= j < k :: Survives(start, events, spawn, exit, j)
  }

  // ---------- a silent child is killed ----------

  /** Nothing was seen after `last`. */
  lemma {:induction false} SeenBy(start: Link, events: seq<Event>, spawn: int, last: int, t: int)
    requires Stale(start, spawn) && spawn <= last
    requires forall i | 0 <= i < |events| :: !events[i].Drop? ==> events[i].time <= last
    ensures var l := LinkAt(start, events, t); l.Present? ==> l.lastSeen <= last
  {
    if events != [] {
      SeenBy(start, events[..|events| - 1], spawn, last, t);
    }
  }

  /** The first poll found wedged, if poll `k` is and the child does not exit. */
  lemma {:induction false} SomePollKills(start: Link, events: seq<Event>, spawn: int, k: nat) returns (j: nat)
    requires 1 <= k && WedgedAt(start, events, spawn, spawn + k * POLL)
    ensures 1 <= j <= k && KilledAt(start, events, spawn, None, j)
  {
    j := 1;
    while !WedgedAt(start, events, spawn, spawn + j * POLL)
      invariant 1 <= j <= k
      invariant forall i | 1 <= i < j :: Survives(start, events, spawn, None, i)
      decreases k - j
    {
      assert Survives(start, events, spawn, None, j);
      j := j + 1;
    }
  }

  /** A child that never again sends a frame or connects is killed within 105 seconds of the last
      time it did, whether or not its connection is torn down meanwhile. */
  lemma {:induction false} SilentChildIsKilled(start: Link, events: seq<Event>, spawn: int, last: int) returns (j: nat)
    requires Stale(start, spawn) && spawn <= last
    requires forall i | 0 <= i < |events| :: !events[i].Drop? ==> events[i].time <= last
    ensures 1 <= j && KilledAt(start, events, spawn, None, j)
    ensures spawn + j * POLL <= last + LIVENESS + POLL
  {
    var k := (last + LIVENESS - spawn) / POLL + 1;
    assert last + LIVENESS < spawn + k * POLL <= last + LIVENESS + POLL;
    SeenBy(start, events, spawn, last, spawn + k * POLL);
    j := SomePollKills(start, events, spawn, k);
    assert j * POLL <= k * POLL;
  }

  lemma {:induction false} NeverConnected(start: Link, events: seq<Event>, spawn: int, t: int)
    requires Stale(start, spawn) && !(start.Present? && start.connected)
    requires forall i | 0 <= i < |events| :: events[i].Connect? ==> events[i].time > t
    ensures var l := LinkAt(start, events, t); l.Present? ==> !l.connected && l.lastSeen <= spawn
  {
    if events != [] {
      NeverConnected(start, events[..|events| - 1], spawn, t);
    }
  }

  /** A child that never connects is killed at the fifth poll, 75 seconds after its spawn. */
  lemma {:induction false} UnattachedChildIsKilled(start: Link, events: seq<Event>, spawn: int)
    requires Stale(start, spawn) && !(start.Present? && start.connected)
    requires forall i | 0 <= i < |events| :: !events[i].Connect?
    ensures KilledAt(start, events, spawn, None, 5)
  {
    NeverConnected(start, events, spawn, spawn + 5 * POLL);
    forall j | 1 <= j < 5 ensures Survives(start, events, spawn, None, j) {
      NeverConnected(start, events, spawn, spawn + j * POLL);
    }
  }

  /** If what an earlier process left behind sends nothing more, a child that never connects is killed
      within 75 seconds exactly if that was down, or had been silent for more than 15 seconds, at the
      spawn. */
  lemma {:induction false} UnattachedIff(start: Link, spawn: int)
    requires Stale(start, spawn)
    ensures (exists k :: 1 <= k <= 5 && KilledAt(start, [], spawn, None, k))
       <==> !(start.Present? && start.connected && spawn - start.lastSeen <= LIVENESS - 5 * POLL)
  {
    if start.Present? && start.connected && spawn - start.lastSeen <= LIVENESS - 5 * POLL {
      forall k | 1 <= k <= 5 ensures !KilledAt(start, [], spawn, None, k) {
        assert spawn + k * POLL - start.lastSeen <= LIVENESS;
      }
    } else {
      var j := SomePollKills(start, [], spawn, 5);
    }
  }

  // ---------- a healthy child is not ----------

  /** While connected, the handle was seen no earlier than any event so far. */
  lemma {:induction false} AttachedSince(start: Link, events: seq<Event>, c: nat, t: int)
    requires Chronological(events) && c < |events| && events[c].Connect? && events[c].time <= t
    requires forall i | c < i < |events| :: !events[i].Drop?
    ensures var l := LinkAt(start, events, t);
            && l.Present? && l.connected
            && forall i | c <= i < |events| && events[i].time <= t :: events[i].time <= l.lastSeen
  {
    var n := |events| - 1;
    if c < n {
      AttachedSince(start, events[..n], c, t);
      assert forall i | c <= i < n :: events[..n][i] == events[i];
    }
  }

  /** Some event at or after the connection lies within the 90 seconds before `t`. */
  ghost predicate Heard(events: seq<Event>, c: nat, t: int) {
    exists i :: c <= i < |events| && t - LIVENESS <= events[i].time <= t
  }

  /** Event `c` connects the child within 60 seconds of its spawn; from then on it stays connected,
      with no gap of more than 90 seconds up to `until`. What an earlier process left behind, and
      what that still sends, is free. */
  ghost predicate Healthy(events: seq<Event>, spawn: int, c: nat, until: int) {
    && Chronological(events) && (forall i | 0 <= i < |events| :: events[i].time >= spawn)
    && c < |events| && events[c].Connect? && events[c].time <= spawn + CONNECT
    && (forall i | c < i < |events| :: !events[i].Drop?)
    && (forall t | events[c].time <= t <= until :: Heard(events, c, t))
  }

  /** The handle shows a connection that has been silent for more than 90 seconds. */
  predicate Lingers(start: Link, events: seq<Event>, t: int) {
    var l := LinkAt(start, events, t);
    l.Present? && l.connected && t - l.lastSeen > LIVENESS
  }

  /** A poll finds a healthy child wedged only before it has connected, and exactly if the handle
      then shows a left-over connection gone silent. */
  lemma {:induction false} WedgedIffLingers(start: Link, events: seq<Event>, spawn: int, c: nat, until: int, t: int)
    requires Healthy(events, spawn, c, until) && spawn <= t <= until
    ensures WedgedAt(start, events, spawn, t) <==> t < events[c].time && Lingers(start, events, t)
  {
    if t >= events[c].time {
      AttachedSince(start, events, c, t);
      assert Heard(events, c, t);
    }
  }

  /** Poll `k` comes before the child connects and finds a silent left-over connection. */
  predicate StalePoll(start: Link, events: seq<Event>, spawn: int, c: nat, k: nat)
    requires c < |events|
  {
    1 <= k && spawn + k * POLL < events[c].time && Lingers(start, events, spawn + k * POLL)
  }

  /** Polls are numbered from 1. */
  predicate InTime(spawn: int, k: nat, until: int) { 1 <= k && spawn + k * POLL <= until }

  /** A healthy child is killed by `until` exactly if some poll before it connects finds a
      left-over connection silent for more than 90 seconds. */
  lemma {:induction false} HealthyChildIsSparedIff(start: Link, events: seq<Event>, spawn: int, c: nat, until: int)
    requires Healthy(events, spawn, c, until) && events[c].time <= until
    ensures (exists k :: InTime(spawn, k, until) && KilledAt(start, events, spawn, None, k))
       <==> (exists k :: StalePoll(start, events, spawn, c, k))
  {
    if k: nat :| InTime(spawn, k, until) && KilledAt(start, events, spawn, None, k) {
      WedgedIffLingers(start, events, spawn, c, until, spawn + k * POLL);
      assert StalePoll(start, events, spawn, c, k);
    }
    if k: nat :| StalePoll(start, events, spawn, c, k) {
      WedgedIffLingers(start, events, spawn, c, until, spawn + k * POLL);
      var j := SomePollKills(start, events, spawn, k);
      assert j * POLL <= k * POLL;
      assert InTime(spawn, j, until);
    }
  }

  // ---------- what a poll finds, in terms of the events ----------

  /** After these events a connection is up: one was made, or left up at the start, and has not been
      dropped. */
  ghost predicate Up(start: Link, past: seq<Event>) {
    || (exists i :: 0 <= i < |past| && past[i].Connect? && !DroppedSince(past, i + 1))
    || (start.Present? && start.connected && !DroppedSince(past, 0))
  }

  ghost predicate DroppedSince(past: seq<Event>, n: nat) {
    exists j :: n <= j < |past| && past[j].Drop?
  }

  /** Event `i` is a sign of life: a connect, or a frame on a connection that is up. */
  ghost predicate Sign(start: Link, past: seq<Event>, i: nat) {
    i < |past| && (past[i].Connect? || (past[i].Frame? && Up(start, past[..i])))
  }

  /** Something was seen of the plugin at most `d` before `t`. */
  ghost predicate SeenWithin(start: Link, past: seq<Event>, t: int, d: int) {
    || (start.Present? && t - start.lastSeen <= d)
    || (exists i: nat :: Sign(start, past, i) && t - past[i].time <= d)
  }

  /** The events up to `t`, of a list in order of time. */
  function Past(events: seq<Event>, t: int): seq<Event> {
    if events == [] || events[|events| - 1].time <= t then events else Past(events[..|events| - 1], t)
  }

  lemma {:induction false} PastMeans(events: seq<Event>, t: int)
    requires Chronological(events)
    ensures Past(events, t) <= events
    ensures forall i | 0 <= i < |Past(events, t)| :: events[i].time <= t
    ensures forall i | |Past(events, t)| <= i < |events| :: events[i].time > t
    ensures forall start :: LinkAt(start, events, t) == LinkAt(start, Past(events, t), t)
  {
    if events != [] && events[|events| - 1].time > t {
      var front := events[..|events| - 1];
      PastMeans(front, t);
      assert forall i | 0 <= i < |front| :: front[i] == events[i];
    }
  }

  lemma {:induction false} UpSnoc(start: Link, past: seq<Event>, e: Event)
    ensures Up(start, past + [e]) <==> e.Connect? || (!e.Drop? && Up(start, past))
  {
    var longer := past + [e];
    assert longer[|past|] == e && forall i | 0 <= i < |past| :: longer[i] == past[i];
    if e.Drop? {
      assert forall n: nat | n <= |past| :: DroppedSince(longer, n);
    } else {
      assert forall n: nat | n <= |past| :: DroppedSince(longer, n) <==> DroppedSince(past, n);
    }
  }

  lemma {:induction false} SignSnoc(start: Link, past: seq<Event>, e: Event, i: nat)
    ensures i < |past| ==> (Sign(start, past + [e], i) <==> Sign(start, past, i))
    ensures Sign(start, past + [e], |past|) <==> e.Connect? || (e.Frame? && Up(start, past))
  {
    assert (past + [e])[..|past|] == past;
    assert i < |past| ==> (past + [e])[..i] == past[..i];
  }

  lemma {:induction false} SeenSnoc(start: Link, past: seq<Event>, e: Event, t: int, d: int)
    ensures SeenWithin(start, past + [e], t, d)
       <==> SeenWithin(start, past, t, d) || (Sign(start, past + [e], |past|) && t - e.time <= d)
  {
    var longer := past + [e];
    hide Sign;
    forall i: nat | i < |past| ensures Sign(start, longer, i) <==> Sign(start, past, i) {
      SignSnoc(start, past, e, i);
    }
    assert forall i: nat | Sign(start, past, i) || Sign(start, longer, i) :: i < |longer| by {
      SignsInside(start, past);
      SignsInside(start, longer);
    }
    SignsInside(start, past);
    assert longer[|past|] == e && forall i | 0 <= i < |past| :: longer[i] == past[i];
    if i: nat :| Sign(start, past, i) && t - past[i].time <= d {
      assert Sign(start, longer, i) && t - longer[i].time <= d;
    }
  }

  lemma {:induction false} SignsInside(start: Link, past: seq<Event>)
    ensures forall i: nat | Sign(start, past, i) :: i < |past|
  {
  }

  /** What the handle says at `t` after events up to `t`. */
  ghost predicate Tells(l: Link, start: Link, past: seq<Event>, t: int, d: int) {
    && (l.Present? && l.connected <==> Up(start, past))
    && (l.Present? && t - l.lastSeen <= d <==> SeenWithin(start, past, t, d))
  }

  lemma {:induction false} TellsAtFirst(start: Link, t: int, d: int)
    ensures Tells(start, start, [], t, d)
  {
    assert !DroppedSince([], 0);
  }

  lemma {:induction false} TellsNext(l: Link, start: Link, past: seq<Event>, e: Event, t: int, d: int)
    requires Tells(l, start, past, t, d) && (l.Present? ==> l.lastSeen <= e.time)
    ensures Tells(Touch(l, e), start, past + [e], t, d)
  {
    hide Up, Sign, SeenWithin;
    UpSnoc(start, past, e);
    SignSnoc(start, past, e, 0);
    SeenSnoc(start, past, e, t, d);
  }

  /** Events in order of time, between the spawn and `t`. */
  ghost predicate Within(past: seq<Event>, spawn: int, t: int) {
    Chronological(past) && forall i | 0 <= i < |past| :: spawn <= past[i].time <= t
  }

  lemma {:induction false} WithinFront(past: seq<Event>, spawn: int, t: int)
    requires Within(past, spawn, t) && past != []
    ensures var front, e := past[..|past| - 1], past[|past| - 1];
            Within(front, spawn, e.time) && Within(front, spawn, t) && spawn <= e.time <= t
  {
  }

  /** Nothing was seen later than the last event. */
  lemma {:induction false} SeenByLast(start: Link, past: seq<Event>, spawn: int, t: int, last: int)
    requires Stale(start, spawn) && Within(past, spawn, last) && spawn <= last <= t
    ensures var l := LinkAt(start, past, t); l.Present? ==> l.lastSeen <= last
  {
    hide Within;
    if past != [] {
      WithinFront(past, spawn, last);
      SeenByLast(start, past[..|past| - 1], spawn, t, past[|past| - 1].time);
    }
  }

  /** The handle is connected exactly while a connection is up, and last seen as recently as anything
      was. */
  lemma {:induction false} HandleTells(start: Link, past: seq<Event>, spawn: int, t: int, d: int)
    requires Stale(start, spawn) && Within(past, spawn, t)
    ensures Tells(LinkAt(start, past, t), start, past, t, d)
  {
    hide Tells, Within;
    if past == [] {
      TellsAtFirst(start, t, d);
    } else {
      var front, e := past[..|past| - 1], past[|past| - 1];
      assert past == front + [e];
      WithinFront(past, spawn, t);
      HandleTells(start, front, spawn, t, d);
      SeenByLast(start, front, spawn, t, e.time);
      TellsNext(LinkAt(start, front, t), start, front, e, t, d);
    }
  }

  /** What a poll at `t` finds, whatever was left behind and however often the child drops and comes
      back: wedged exactly if the plugin is connected and nothing was seen of it for 90 seconds, or it
      is not connected, was spawned more than 60 seconds ago, and nothing was seen of it for 60. */
  lemma {:induction false} WedgedIff(start: Link, events: seq<Event>, spawn: int, t: int)
    requires Chronological(events) && Stale(start, spawn) && forall i | 0 <= i < |events| :: events[i].time >= spawn
    ensures WedgedAt(start, events, spawn, t)
       <==> if Up(start, Past(events, t)) then !SeenWithin(start, Past(events, t), t, LIVENESS)
            else t - spawn > CONNECT && !SeenWithin(start, Past(events, t), t, CONNECT)
  {
    PastMeans(events, t);
    hide Up, SeenWithin;
    HandleTells(start, Past(events, t), spawn, t, LIVENESS);
    HandleTells(start, Past(events, t), spawn, t, CONNECT);
  }

  /** A child whose connection is down has 60 seconds from the last sign of life to come back. */
  lemma {:induction false} DownHasGrace(start: Link, events: seq<Event>, spawn: int, t: int)
    requires Chronological(events) && Stale(start, spawn) && forall i | 0 <= i < |events| :: events[i].time >= spawn
    requires !Up(start, Past(events, t)) && SeenWithin(start, Past(events, t), t, CONNECT)
    ensures !WedgedAt(start, events, spawn, t)
  {
    WedgedIff(start, events, spawn, t);
  }

  // ---------- a child that drops and comes back ----------

  /** By `limit` a connection is made after event `i`, or the time of interest is over. */
  ghost predicate BackBy(events: seq<Event>, i: int, limit: int, until: int) {
    until <= limit || exists j :: i < j < |events| && j >= 0 && events[j].Connect? && events[j].time <= limit
  }

  /** After drop `i` the child is back within 60 seconds of a sign of life before it. */
  ghost predicate BackInTime(start: Link, events: seq<Event>, spawn: int, i: nat, until: int) {
    || BackBy(events, i, spawn + CONNECT, until)
    || (exists m: nat :: m < i && Sign(start, events, m) && BackBy(events, i, events[m].time + CONNECT, until))
  }

  /** The child connects within 60 seconds of its spawn and, after every drop, again within 60 seconds
      of its last sign of life. */
  ghost predicate Returning(start: Link, events: seq<Event>, spawn: int, until: int) {
    && Chronological(events) && Stale(start, spawn) && (forall i | 0 <= i < |events| :: events[i].time >= spawn)
    && BackBy(events, -1, spawn + CONNECT, until)
    && (forall i | 0 <= i < |events| && events[i].Drop? :: BackInTime(start, events, spawn, i, until))
  }

  /** While no connection is up after some were, the last change was a drop. */
  lemma {:induction false} LastDrop(start: Link, past: seq<Event>, c: nat) returns (i: nat)
    requires !Up(start, past) && c < |past| && past[c].Connect?
    ensures c < i < |past| && past[i].Drop? && forall j | i < j < |past| :: !past[j].Connect?
    decreases |past|
  {
    i := |past| - 1;
    var front := past[..i];
    assert past == front + [past[i]];
    UpSnoc(start, front, past[i]);
    if !past[i].Drop? {
      assert front[c] == past[c];
      i := LastDrop(start, front, c);
      assert forall j | 0 <= j < |front| :: front[j] == past[j];
    } else if c == i {
      assert false;
    }
  }

  /** Such a child, with a read deadline kept to the moment, is found wedged by no poll, whatever an
      earlier process left behind. */
  lemma {:induction false} ReturningChildIsSpared(start: Link, events: seq<Event>, spawn: int, until: int, k: nat)
    requires Returning(start, events, spawn, until) && Deadlined(start, events, spawn, until, 0)
    requires InTime(spawn, k, until)
    ensures !WedgedAt(start, events, spawn, spawn + k * POLL)
  {
    hide Up, SeenWithin, BackInTime;
    var t := spawn + k * POLL;
    var past := Past(events, t);
    PastMeans(events, t);
    WedgedIff(start, events, spawn, t);
    if Up(start, past) {
      HandleTells(start, past, spawn, t, LIVENESS);
      assert UpInTime(LinkAt(start, events, t), t, 0);
    } else if t - spawn > CONNECT {
      var c :| 0 <= c < |events| && events[c].Connect? && events[c].time <= spawn + CONNECT;
      assert past[c] == events[c];
      var i := LastDrop(start, past, c);
      assert events[i] == past[i] && forall j | i < j < |past| :: events[j] == past[j];
      DropSpares(start, events, spawn, until, t, i);
    }
  }

  lemma {:induction false} DropSpares(start: Link, events: seq<Event>, spawn: int, until: int, t: int, i: nat)
    requires Returning(start, events, spawn, until) && spawn + CONNECT < t <= until
    requires i < |Past(events, t)| <= |events| && events[i].Drop?
    requires forall j | i < j < |Past(events, t)| :: !events[j].Connect?
    ensures SeenWithin(start, Past(events, t), t, CONNECT)
  {
    var past := Past(events, t);
    PastMeans(events, t);
    assert BackInTime(start, events, spawn, i, until);
    assert forall j | i < j < |events| && events[j].Connect? :: events[j].time > t;
    var m: nat :| m < i && Sign(start, events, m) && BackBy(events, i, events[m].time + CONNECT, until);
    assert past[m] == events[m] && past[..m] == events[..m];
    assert Sign(start, past, m) && t - past[m].time <= CONNECT;
  }

  /** A poll that finds a gap: connected and silent for 90 seconds, or not connected and silent for 60
      although spawned more than 60 seconds ago. */
  ghost predicate GapPoll(start: Link, events: seq<Event>, spawn: int, k: nat) {
    var t := spawn + k * POLL;
    var past := Past(events, t);
    if Up(start, past) then !SeenWithin(start, past, t, LIVENESS)
    else t - spawn > CONNECT && !SeenWithin(start, past, t, CONNECT)
  }

  /** For every course of events: the child is killed by `until` exactly if a poll by then finds a gap. */
  lemma {:induction false} KilledIffGap(start: Link, events: seq<Event>, spawn: int, until: int)
    requires Chronological(events) && Stale(start, spawn) && forall i | 0 <= i < |events| :: events[i].time >= spawn
    ensures (exists k :: InTime(spawn, k, until) && KilledAt(start, events, spawn, None, k))
       <==> (exists k :: InTime(spawn, k, until) && GapPoll(start, events, spawn, k))
  {
    hide Up, SeenWithin;
    if k: nat :| InTime(spawn, k, until) && KilledAt(start, events, spawn, None, k) {
      WedgedIff(start, events, spawn, spawn + k * POLL);
      assert GapPoll(start, events, spawn, k);
    }
    if k: nat :| InTime(spawn, k, until) && GapPoll(start, events, spawn, k) {
      WedgedIff(start, events, spawn, spawn + k * POLL);
      var j := SomePollKills(start, events, spawn, k);
      assert j * POLL <= k * POLL;
      assert InTime(spawn, j, until);
    }
  }

  // ---------- the deadline of the read loop ----------

  /** A connection is up for at most 90 seconds after its last frame, plus `late`: the time spent on
      handling that frame before the next read began, and on tearing down. */
  ghost predicate Deadlined(start: Link, events: seq<Event>, spawn: int, until: int, late: nat) {
    forall t | spawn <= t <= until :: UpInTime(LinkAt(start, events, t), t, late)
  }

  predicate UpInTime(l: Link, t: int, late: nat) {
    l.Present? && l.connected ==> t - l.lastSeen <= LIVENESS + late
  }

  /** With a deadline that is kept to the moment, a healthy child is found wedged by no poll, whatever
      an earlier process left behind. */
  lemma {:induction false} HealthyChildIsSpared(start: Link, events: seq<Event>, spawn: int, c: nat, until: int, k: nat)
    requires Healthy(events, spawn, c, until) && InTime(spawn, k, until)
    requires Deadlined(start, events, spawn, until, 0)
    ensures !WedgedAt(start, events, spawn, spawn + k * POLL)
  {
    WedgedIffLingers(start, events, spawn, c, until, spawn + k * POLL);
    assert UpInTime(LinkAt(start, events, spawn + k * POLL), spawn + k * POLL, 0);
  }

  /** However little it is late, a connection left up by an earlier process, last heard 75 seconds and
      that little before the spawn, is silent for more than 90 seconds at the first poll, and gets a
      child killed that connects just after. */
  lemma {:induction false} LateDeadlineKills(spawn: int, late: nat)
    requires late > 0
    ensures var start := Present(true, spawn - LIVENESS + POLL - late);
            var events := [Connect(spawn + POLL + 1)];
            var until := spawn + CONNECT;
            && Stale(start, spawn) && Healthy(events, spawn, 0, until)
            && Deadlined(start, events, spawn, until, late)
            && KilledAt(start, events, spawn, None, 1)
  {
    var start, events := Present(true, spawn - LIVENESS + POLL - late), [Connect(spawn + POLL + 1)];
    var until := spawn + CONNECT;
    forall t | events[0].time <= t <= until ensures Heard(events, 0, t) {
      assert t - LIVENESS <= events[0].time <= t;
    }
    forall t | spawn <= t <= until ensures UpInTime(LinkAt(start, events, t), t, late) {
      OneConnect(start, events[0], t);
    }
    OneConnect(start, events[0], spawn + POLL);
  }

  lemma {:induction false} OneConnect(start: Link, e: Event, t: int)
    ensures LinkAt(start, [e], t) == if e.time <= t then Touch(start, e) else start
  {
    assert [e][..0] == [];
  }

  /** A healthy child, with connections that are torn down at most `late` after their deadline, is found
      wedged by some poll. */
  ghost predicate HealthyKilled(late: nat) {
    exists start, events, spawn, c: nat, until, k: nat ::
      && Healthy(events, spawn, c, until) && InTime(spawn, k, until)
      && Deadlined(start, events, spawn, until, late) && WedgedAt(start, events, spawn, spawn + k * POLL)
  }

  /** Healthy children are safe, from every start, exactly if the deadline is never late. */
  lemma {:induction false} SparedIffOnTime(late: nat)
    ensures !HealthyKilled(late) <==> late == 0
  {
    if late == 0 {
      forall start, events, spawn, c: nat, until, k: nat
        | Healthy(events, spawn, c, until) && InTime(spawn, k, until) && Deadlined(start, events, spawn, until, late)
        ensures !WedgedAt(start, events, spawn, spawn + k * POLL)
      {
        HealthyChildIsSpared(start, events, spawn, c, until, k);
      }
    } else {
      LateDeadlineKills(0, late);
      var start, events := Present(true, POLL - LIVENESS - late), [Connect(POLL + 1)];
      assert InTime(0, 1, CONNECT) && WedgedAt(start, events, 0, 0 + 1 * POLL);
    }
  }

  // ---------- what an earlier process left behind ----------

  /** If no connection is up at the spawn, whatever is up later was heard since. */
  lemma {:induction false} UpSinceSpawn(start: Link, events: seq<Event>, spawn: int, t: int)
    requires !(start.Present? && start.connected)
    requires forall i | 0 <= i < |events| :: events[i].time >= spawn
    ensures var l := LinkAt(start, events, t); l.Present? && l.connected ==> l.lastSeen >= spawn
  {
    if events != [] {
      UpSinceSpawn(start, events[..|events| - 1], spawn, t);
    }
  }

  /** If no connection is up at the spawn, a healthy child is found wedged by no poll, however late
      deadlines are. */
  lemma {:induction false} FreshStartIsSpared(start: Link, events: seq<Event>, spawn: int, c: nat, until: int, k: nat)
    requires Healthy(events, spawn, c, until) && InTime(spawn, k, until)
    requires !(start.Present? && start.connected)
    ensures !WedgedAt(start, events, spawn, spawn + k * POLL)
  {
    WedgedIffLingers(start, events, spawn, c, until, spawn + k * POLL);
    UpSinceSpawn(start, events, spawn, spawn + k * POLL);
  }

  lemma {:induction false} BeforeFirst(start: Link, events: seq<Event>, t: int)
    requires forall i | 0 <= i < |events| :: events[i].time > t
    ensures LinkAt(start, events, t) == start
  {
    if events != [] {
      BeforeFirst(start, events[..|events| - 1], t);
    }
  }

  /** After a teardown and before the next connect no connection is up. */
  lemma {:induction false} DownBetween(start: Link, events: seq<Event>, t: int)
    requires events != [] && events[0].Drop? && events[0].time <= t
    requires forall i | 0 < i < |events| :: events[i].time > t
    ensures var l := LinkAt(start, events, t); l.Present? ==> !l.connected
  {
    var n := |events| - 1;
    if n > 0 {
      DownBetween(start, events[..n], t);
    } else {
      assert events[..0] == [];
    }
  }

  /** Poll `k` comes more than 90 seconds after the last frame, and before `end`. */
  predicate LatePoll(spawn: int, lastSeen: int, end: int, k: nat) {
    1 <= k && spawn + k * POLL < end && spawn + k * POLL - lastSeen > LIVENESS
  }

  /** In terms of what is left behind, if that sends nothing more: a healthy child is killed exactly if
      it is up at the spawn and some poll more than 90 seconds after its last frame comes before it is
      torn down or the child displaces it. */
  lemma {:induction false} QuietStartIff(start: Link, events: seq<Event>, spawn: int, c: nat, until: int)
    requires Healthy(events, spawn, c, until) && events[c].time <= until
    requires c == 0 || (c == 1 && events[0].Drop?)
    ensures (exists k :: InTime(spawn, k, until) && KilledAt(start, events, spawn, None, k))
       <==> start.Present? && start.connected && exists k :: LatePoll(spawn, start.lastSeen, events[0].time, k)
  {
    HealthyChildIsSparedIff(start, events, spawn, c, until);
    forall k: nat | 1 <= k
      ensures StalePoll(start, events, spawn, c, k)
         <==> start.Present? && start.connected && LatePoll(spawn, start.lastSeen, events[0].time, k)
    {
      QuietPoll(start, events, spawn, c, until, k);
    }
    if k: nat :| StalePoll(start, events, spawn, c, k) {
      assert LatePoll(spawn, start.lastSeen, events[0].time, k);
    }
    if start.Present? && start.connected {
      if k: nat :| LatePoll(spawn, start.lastSeen, events[0].time, k) {
        assert StalePoll(start, events, spawn, c, k);
      }
    }
  }

  lemma {:induction false} QuietPoll(start: Link, events: seq<Event>, spawn: int, c: nat, until: int, k: nat)
    requires Healthy(events, spawn, c, until) && (c == 0 || (c == 1 && events[0].Drop?)) && 1 <= k
    ensures StalePoll(start, events, spawn, c, k)
       <==> start.Present? && start.connected && LatePoll(spawn, start.lastSeen, events[0].time, k)
  {
    var t := spawn + k * POLL;
    assert forall i | 0 <= i < |events| :: events[0].time <= events[i].time;
    assert forall i | c <= i < |events| :: events[c].time <= events[i].time;
    if t < events[0].time {
      BeforeFirst(start, events, t);
    } else if t < events[c].time {
      DownBetween(start, events, t);
    }
  }
}
