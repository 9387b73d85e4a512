/** Direct sends in the LXMF plugin (plugins/lxmf/relayfabric_lxmf.py, `handle_send_direct` and
    `_direct_done`): one recipient, no tracker. Every callback releases the delivery id and sends a
    result, without looking whether an earlier one did. */
module DirectSend {
  /** `calls` counts the callbacks that have released, `sent` those that have sent their result. */
  datatype Send = Send(corr: string, calls: nat, sent: nat)

  /** `owner` says, for each claimed id, which send claimed it. */
  datatype World = World(owner: map<string, nat>, sends: map<nat, Send>, next: nat)

  /** The two steps of a callback are separate; refused references claim nothing. */
  datatype Event = Dispatch(corr: string) | Release(id: nat) | Report(id: nat)

  predicate Enabled(w: World, e: Event) {
    match e
    case Dispatch(_) => true
    case Release(id) => id in w.sends
    case Report(id) => id in w.sends && w.sends[id].sent < w.sends[id].calls
  }

  function Step(w: World, e: Event): World
    requires Enabled(w, e)
  {
    match e
    case Dispatch(corr) =>
      if corr in w.owner then w // already in flight
      else World(w.owner[corr := w.next], w.sends[w.next := Send(corr, 0, 0)], w.next + 1)
    case Release(id) =>
      var s := w.sends[id];
      w.(owner := w.owner - {s.corr}, sends := w.sends[id := s.(calls := s.calls + 1)])
    case Report(id) => w.(sends := w.sends[id := w.sends[id].(sent := w.sends[id].sent + 1)])
  }

  ghost predicate IsRun(run: seq<World>, events: seq<Event>) {
    && |run| == |events| + 1 && run[0] == World(map[], map[], 0)
    && forall i | 0 <= i < |events| :: Enabled(run[i], events[i]) && run[i + 1] == Step(run[i], events[i])
  }

  /** This step takes away a claim that another send made. */
  predicate Steals(w: World, e: Event) {
    e.Release? && e.id in w.sends && w.sends[e.id].corr in w.owner && w.owner[w.sends[e.id].corr] != e.id
  }

  /** This step is a repeated callback while a newer send of the id waits for its first. */
  ghost predicate Late(w: World, e: Event) {
    && e.Release? && e.id in w.sends && w.sends[e.id].calls >= 1
    && exists j :: j in w.sends && w.sends[j].corr == w.sends[e.id].corr && w.sends[j].calls == 0
  }

  // ---------- what holds until the first theft ----------

  /** A send holds its claim exactly until its first callback. */
  ghost predicate Held(w: World) {
    && (forall id | id in w.sends :: id < w.next)
    && (forall id | id in w.sends :: w.sends[id].calls == 0 <==>
          w.sends[id].corr in w.owner && w.owner[w.sends[id].corr] == id)
    && (forall corr | corr in w.owner :: w.owner[corr] in w.sends && w.sends[w.owner[corr]].corr == corr)
  }

  lemma {:induction false} StepKeepsHeld(w: World, e: Event)
    requires Held(w) && Enabled(w, e) && !Steals(w, e)
    ensures Held(Step(w, e))
  {
  }

  lemma {:induction false} RunHeld(run: seq<World>, events: seq<Event>, i: nat)
    requires IsRun(run, events) && i < |run| && forall j | 0 <= j < i :: !Steals(run[j], events[j])
    ensures Held(run[i])
  {
    if i > 0 {
      RunHeld(run, events, i - 1);
      StepKeepsHeld(run[i - 1], events[i - 1]);
    }
  }

  /** The first time a callback takes away another send's claim is exactly the first time one is
      repeated while a newer send of the id is waiting. */
  lemma {:induction false} StealsIffLate(run: seq<World>, events: seq<Event>, i: nat)
    requires IsRun(run, events) && i < |events| && forall j | 0 <= j < i :: !Steals(run[j], events[j])
    ensures Steals(run[i], events[i]) <==> Late(run[i], events[i])
  {
    RunHeld(run, events, i);
    var w, e := run[i], events[i];
    if Steals(w, e) {
      var j := w.owner[w.sends[e.id].corr];
      assert j in w.sends && w.sends[j].corr == w.sends[e.id].corr && w.sends[j].calls == 0;
    }
  }

  /** So if no send is called back twice, no claim is ever taken away, and at most one send of an id
      is waiting at any time. */
  lemma {:induction false} OnceEach(run: seq<World>, events: seq<Event>, i: nat)
    requires IsRun(run, events) && i < |run|
    requires forall j | 0 <= j < i && events[j].Release? :: run[j].sends[events[j].id].calls == 0
    ensures Held(run[i]) && forall j | 0 <= j < i :: !Steals(run[j], events[j])
  {
    if i > 0 {
      OnceEach(run, events, i - 1);
      StealsIffLate(run, events, i - 1);
      RunHeld(run, events, i);
    }
  }

  // ---------- results ----------

  lemma {:induction false} SentAtMostCalls(run: seq<World>, events: seq<Event>, i: nat, id: nat)
    requires IsRun(run, events) && i < |run| && id in run[i].sends
    ensures run[i].sends[id].sent <= run[i].sends[id].calls
  {
    if i > 0 {
      if id in run[i - 1].sends {
        SentAtMostCalls(run, events, i - 1, id);
      }
    }
  }

  /** With nothing half done, a send has sent one result exactly if it was called back once: none if
      it was not, and one more for every repetition. */
  lemma {:induction false} OneResultIff(run: seq<World>, events: seq<Event>, i: nat, id: nat)
    requires IsRun(run, events) && i < |run| && id in run[i].sends && !Enabled(run[i], Report(id))
    ensures run[i].sends[id].sent == 1 <==> run[i].sends[id].calls == 1
    ensures run[i].sends[id].sent == run[i].sends[id].calls
  {
    SentAtMostCalls(run, events, i, id);
  }

  /** A send left to itself: its id is claimed until the callback, and then it has sent one result. */
  lemma {:induction false} OneRound(w: World, corr: string)
    requires corr !in w.owner && (forall id | id in w.sends :: id < w.next)
    ensures var w1 := Step(w, Dispatch(corr));
            && corr in w1.owner && Enabled(w1, Release(w.next))
            && var w2 := Step(w1, Release(w.next));
               && w2.owner == w.owner && Enabled(w2, Report(w.next))
               && var w3 := Step(w2, Report(w.next));
                  w3.owner == w.owner && w3.sends == w.sends[w.next := Send(corr, 1, 1)]
  {
    var w1 := Step(w, Dispatch(corr));
    assert w1.owner - {corr} == w.owner;
    var w2 := Step(w1, Release(w.next));
    assert w2.sends[w.next := Send(corr, 1, 1)] == w.sends[w.next := Send(corr, 1, 1)];
  }

  /** A late second callback of one send releases the claim of the next, so that a third dispatch of
      the id is sent as well while the second is still on its way. */
  lemma {:induction false} LateCallback(corr: string) returns (run: seq<World>, events: seq<Event>)
    ensures IsRun(run, events) && |events| == 5 && Steals(run[3], events[3])
    ensures var w := run[5];
            && 1 in w.sends && 2 in w.sends && w.sends[1] == w.sends[2] == Send(corr, 0, 0)
            && 0 in w.sends && w.sends[0].calls == 2
  {
    events := [Dispatch(corr), Release(0), Dispatch(corr), Release(0), Dispatch(corr)];
    var w0 := World(map[], map[], 0);
    var w1 := World(map[corr := 0], map[0 := Send(corr, 0, 0)], 1);
    var w2 := World(map[], map[0 := Send(corr, 1, 0)], 1);
    var w3 := World(map[corr := 1], map[0 := Send(corr, 1, 0), 1 := Send(corr, 0, 0)], 2);
    var w4 := World(map[], map[0 := Send(corr, 2, 0), 1 := Send(corr, 0, 0)], 2);
    var w5 := World(map[corr := 2], map[0 := Send(corr, 2, 0), 1 := Send(corr, 0, 0), 2 := Send(corr, 0, 0)], 3);
    assert Step(w0, Dispatch(corr)) == w1;
    assert Step(w1, Release(0)) == w2;
    assert Step(w2, Dispatch(corr)) == w3;
    assert Step(w3, Release(0)) == w4;
    assert Step(w4, Dispatch(corr)) == w5;
    run := [w0, w1, w2, w3, w4, w5];
  }
}
