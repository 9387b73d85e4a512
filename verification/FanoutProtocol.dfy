/** The whole fan-out protocol: dispatches and re-dispatches, preparation after the claim (which may
    fail), callbacks, watchdog firings, and the two steps (release the claim, send the frame) that
    follow a report, interleaved in any order. */
module FanoutProtocol {
  import opened Common
  import opened Fanout

  /** How far the one thread that obtained a result has come with it. `cut` is the number of
      callbacks the tracker had received when it reported. */
  datatype Phase =
    | Claimed // no tracker yet
    | Leaked // the preparation raised an exception, which the plugin runner swallows
    | Running
    | Reported(result: Result, cut: nat, timedOut: bool)
    | Released(result: Result, cut: nat, timedOut: bool)
    | Sent(result: Result, cut: nat, timedOut: bool)

  /** One claimed send. `log` holds every callback, including those that come too late. */
  datatype Fan = Fan(corr: string, members: seq<string>, tracker: Tracker, phase: Phase, log: seq<Callback>) {
    predicate Holds() { Early() || phase.Running? || phase.Reported? }

    /** Without a tracker that could report. */
    predicate Early() { phase.Claimed? || phase.Leaked? }

    /** With a result, on its way out or sent. */
    predicate Decided() { phase.Reported? || phase.Released? || phase.Sent? }
  }

  datatype Frame = Frame(owner: Option<nat>, result: Result)

  /** `owner` says, for each claimed delivery id, which fan-out claimed it. */
  datatype World = World(owner: map<string, nat>, fans: map<nat, Fan>, frames: seq<Frame>, next: nat)

  datatype Event =
    | Dispatch(corr: string, members: seq<string>)
    | Prepare(id: nat)
    | Leak(id: nat)
    | Callback(id: nat, c: Fanout.Callback)
    | Timeout(id: nat)
    | Release(id: nat)
    | Send(id: nat)

  predicate Enabled(w: World, e: Event) {
    match e
    case Dispatch(_, _) => true
    case Prepare(id) => id in w.fans && w.fans[id].phase.Claimed?
    case Leak(id) => id in w.fans && w.fans[id].phase.Claimed?
    case Callback(id, c) => id in w.fans && !w.fans[id].Early() && c.member in w.fans[id].members
    case Timeout(id) => id in w.fans && !w.fans[id].Early()
    case Release(id) => id in w.fans && w.fans[id].phase.Reported?
    case Send(id) => id in w.fans && w.fans[id].phase.Released?
  }

  function OnCallback(f: Fan, c: Fanout.Callback): Fan {
    var (t, r) := MemberDone(f.tracker, Prefix(c.member), c.success, c.kind);
    f.(tracker := t, log := f.log + [c],
       phase := if r.Some? then Reported(r.value, |f.log| + 1, false) else f.phase)
  }

  function OnTimeout(f: Fan): Fan {
    var (t, r) := FinalizeOnTimeout(f.tracker);
    f.(tracker := t, phase := if r.Some? then Reported(r.value, |f.log|, true) else f.phase)
  }

  function Step(w: World, e: Event): World
    requires Enabled(w, e)
  {
    match e
    case Dispatch(corr, members) =>
      if members == [] then w.(frames := w.frames + [Frame(None, Result(corr, false, Some(Refused("no members"))))])
      else if corr in w.owner then w // already in flight: the duplicate is ignored
      else w.(owner := w.owner[corr := w.next],
              fans := w.fans[w.next := Fan(corr, members, NewTracker(corr, members), Claimed, [])],
              next := w.next + 1)
    case Prepare(id) => w.(fans := w.fans[id := w.fans[id].(phase := Running)])
    case Leak(id) => w.(fans := w.fans[id := w.fans[id].(phase := Leaked)])
    case Callback(id, c) => w.(fans := w.fans[id := OnCallback(w.fans[id], c)])
    case Timeout(id) => w.(fans := w.fans[id := OnTimeout(w.fans[id])])
    case Release(id) =>
      var f := w.fans[id];
      w.(owner := w.owner - {f.corr},
         fans := w.fans[id := f.(phase := Released(f.phase.result, f.phase.cut, f.phase.timedOut))])
    case Send(id) =>
      var f := w.fans[id];
      w.(frames := w.frames + [Frame(Some(id), f.phase.result)],
         fans := w.fans[id := f.(phase := Sent(f.phase.result, f.phase.cut, f.phase.timedOut))])
  }

  // ---------- what every fan-out keeps ----------

  ghost predicate Everyone(members: seq<string>, log: seq<Fanout.Callback>) {
    Elements(Prefixes(members)) <= Heard(log)
  }

  /** The result owed after the callbacks `seen`. */
  ghost function TrueResult(corr: string, members: seq<string>, seen: seq<Fanout.Callback>): Result {
    Result(corr, Successes(seen) > 0,
           DetailFor(FailedOf(seen), Unresolved(Prefixes(members), Heard(seen)), SoftOf(seen)))
  }

  /** What a true result says: delivered if anyone succeeded; no detail if everyone was heard
      from and confirmed; otherwise exactly who failed, who was not heard from and who took delivery
      unconfirmed, by which means. */
  lemma {:induction false} TrueResultMeans(
    corr: string, members: seq<string>, seen: seq<Fanout.Callback>, p: string, kind: string)
    ensures var r := TrueResult(corr, members, seen);
            && r.corr == corr
            && (r.delivered <==> AnySuccess(seen))
            && (r.detail.None? <==> AllConfirmed(seen) && Everyone(members, seen))
            && (r.detail.Some? ==> r.detail.value.Clauses? && ClausesTell(r.detail.value, members, seen, p, kind))
  {
    SuccessesMeans(seen);
    ConfirmedMeans(seen);
    FailedMeans(seen, p);
    SoftMeans(seen, p, kind);
    UnresolvedNone(Prefixes(members), Heard(seen));
    UnresolvedMeans(Prefixes(members), Heard(seen), p);
  }

  ghost predicate ClausesTell(d: Detail, members: seq<string>, seen: seq<Fanout.Callback>, p: string, kind: string)
    requires d.Clauses?
  {
    && (p in d.pending <==> p in Prefixes(members) && p !in Heard(seen))
    && (p in d.failed <==> exists i :: 0 <= i < |seen| && !seen[i].success && Prefix(seen[i].member) == p)
    && ((p, kind) in d.soft <==>
          exists i :: && 0 <= i < |seen| && seen[i].success && !Confirmed(seen[i])
                      && seen[i].kind == Some(kind) && Prefix(seen[i].member) == p)
  }

  /** The result is the true one for the callbacks that came before the report; without the
      watchdog everyone was heard from by then. */
  ghost predicate Truthful(f: Fan)
    requires f.Decided() && f.phase.cut <= |f.log|
  {
    var seen := f.log[..f.phase.cut];
    && f.phase.result == TrueResult(f.corr, f.members, seen)
    && (!f.phase.timedOut ==> Everyone(f.members, seen))
  }

  ghost predicate FanOk(f: Fan) {
    && f.members != [] && f.tracker.corr == f.corr && FromMembers(f.log, f.members)
    && if !f.Decided() then !f.tracker.reported && Tracks(f.tracker, f.members, f.log)
       else f.tracker.reported && f.phase.cut <= |f.log| && Truthful(f)
  }

  /** A tracker that has resolved as many prefixes as it has members has heard everyone. */
  lemma {:induction false} FullyHeard(u: Tracker, members: seq<string>, log: seq<Fanout.Callback>)
    requires Knows(u, members, log) && FromMembers(log, members) && |u.resolved| >= |members|
    ensures Everyone(members, log) && ResultOf(u) == TrueResult(u.corr, members, log)
  {
    HeardFromMembers(log, members);
    ElementsSize(Prefixes(members));
    SubsetSize(u.resolved, Elements(Prefixes(members)));
    UnresolvedNone(Prefixes(members), u.resolved);
  }

  lemma {:induction false} RunningCallback(f: Fan, c: Fanout.Callback)
    requires FanOk(f) && f.phase.Running? && c.member in f.members
    ensures FanOk(OnCallback(f, c)) && OnCallback(f, c).Holds()
  {
    hide Successes, FailedOf, SoftOf, Heard, Prefixes, Everyone, TrueResult;
    var u := Resolve(f.tracker, Prefix(c.member), c.success, c.kind);
    var log' := f.log + [c];
    ResolveKnows(f.tracker, f.members, f.log, c);
    if |u.resolved| >= |f.members| {
      FullyHeard(u, f.members, log');
      assert log'[..|f.log| + 1] == log';
    }
  }

  lemma {:induction false} CallbackKeepsFan(f: Fan, c: Fanout.Callback)
    requires FanOk(f) && !f.Early() && c.member in f.members
    ensures FanOk(OnCallback(f, c)) && !OnCallback(f, c).Early()
    ensures var g := OnCallback(f, c); g.log == f.log + [c] && g.corr == f.corr && g.members == f.members
    ensures !f.phase.Running? ==> OnCallback(f, c).phase == f.phase
    ensures f.Holds() <==> OnCallback(f, c).Holds()
  {
    if f.phase.Running? {
      RunningCallback(f, c);
    } else {
      var g := OnCallback(f, c);
      assert g == f.(log := f.log + [c]);
      assert g.log[..f.phase.cut] == f.log[..f.phase.cut];
    }
  }

  lemma {:induction false} UnresolvedNone(members: seq<string>, resolved: set<string>)
    ensures Unresolved(members, resolved) == [] <==> Elements(members) <= resolved
  {
    if members != [] {
      var front, last := members[..|members| - 1], members[|members| - 1];
      UnresolvedNone(front, resolved);
      assert Elements(members) == Elements(front) + {last};
    }
  }

  lemma {:induction false} TimeoutKeepsFan(f: Fan)
    requires FanOk(f) && !f.Early()
    ensures FanOk(OnTimeout(f)) && OnTimeout(f).Decided()
    ensures var g := OnTimeout(f); g.log == f.log && g.corr == f.corr && g.members == f.members
    ensures !f.phase.Running? ==> OnTimeout(f) == f
    ensures f.Holds() <==> OnTimeout(f).Holds()
  {
    if f.phase.Running? {
      assert f.log[..|f.log|] == f.log;
      UnresolvedNone(f.tracker.members, f.tracker.resolved);
    }
  }

  /** Going on with a result already obtained keeps it truthful. */
  lemma {:induction false} AdvanceKeepsFan(f: Fan, p: Phase)
    requires FanOk(f) && f.Decided() && f.(phase := p).Decided()
    requires p.result == f.phase.result && p.cut == f.phase.cut && p.timedOut == f.phase.timedOut
    ensures FanOk(f.(phase := p))
  {
    hide TrueResult, Everyone;
  }

  lemma {:induction false} NewFanOk(corr: string, members: seq<string>)
    requires members != []
    ensures FanOk(Fan(corr, members, NewTracker(corr, members), Claimed, []))
  {
    assert Heard([]) == {};
  }

  lemma {:induction false} PreparedKeepsFan(f: Fan, p: Phase)
    requires FanOk(f) && f.phase.Claimed? && (p.Running? || p.Leaked?)
    ensures FanOk(f.(phase := p))
  {
    hide Tracks, FromMembers;
  }

  // ---------- what every run keeps ----------

  /** The results sent for one fan-out, in order. */
  function FramesOf(frames: seq<Frame>, id: nat): seq<Result> {
    if frames == [] then []
    else
      var front := FramesOf(frames[..|frames| - 1], id);
      if frames[|frames| - 1].owner == Some(id) then front + [frames[|frames| - 1].result] else front
  }

  lemma {:induction false} FramesOfSnoc(frames: seq<Frame>, f: Frame, id: nat)
    ensures FramesOf(frames + [f], id)
         == if f.owner == Some(id) then FramesOf(frames, id) + [f.result] else FramesOf(frames, id)
  {
    assert (frames + [f])[..|frames|] == frames;
  }

  ghost predicate FansOk(w: World) {
    forall id | id in w.fans :: id < w.next && FanOk(w.fans[id])
  }

  /** The claimed ids are exactly those of the fan-outs that have not released theirs, and no
      two such fan-outs share one. */
  ghost predicate ClaimsOk(w: World) {
    && (forall id | id in w.fans && w.fans[id].Holds() ::
          w.fans[id].corr in w.owner && w.owner[w.fans[id].corr] == id)
    && (forall corr | corr in w.owner ::
          var id := w.owner[corr]; id in w.fans && w.fans[id].Holds() && w.fans[id].corr == corr)
  }

  /** What a fan-out should have sent by now. */
  function Owed(w: World, id: nat): seq<Result> {
    if id in w.fans && w.fans[id].phase.Sent? then [w.fans[id].phase.result] else []
  }

  /** A fan-out has sent its one result, or none yet. */
  ghost predicate FramesOk(w: World) {
    forall id: nat :: FramesOf(w.frames, id) == Owed(w, id)
  }

  ghost predicate Inv(w: World) {
    FansOk(w) && ClaimsOk(w) && FramesOk(w)
  }

  /** `w` with fan-out `id` replaced by `g`. */
  function With(w: World, id: nat, g: Fan): World {
    w.(fans := w.fans[id := g])
  }

  /** A change to one fan-out that leaves its claim and its sent result alone. */
  ghost predicate Quiet(f: Fan, g: Fan) {
    && g.corr == f.corr && g.members == f.members
    && (f.Holds() <==> g.Holds())
    && !f.phase.Sent? && !g.phase.Sent?
  }

  lemma {:induction false} QuietKeepsInv(w: World, id: nat, g: Fan)
    requires Inv(w) && id in w.fans && FanOk(g)
    requires Quiet(w.fans[id], g) || g == w.fans[id].(tracker := g.tracker, log := g.log)
    ensures Inv(With(w, id, g))
  {
    hide FanOk;
    var w' := With(w, id, g);
    forall j: nat ensures FramesOf(w'.frames, j) == Owed(w', j) {
      assert FramesOf(w.frames, j) == Owed(w, j);
    }
  }

  lemma {:induction false} DispatchKeepsInv(w: World, corr: string, members: seq<string>)
    requires Inv(w)
    ensures Inv(Step(w, Dispatch(corr, members)))
  {
    hide FanOk;
    var w' := Step(w, Dispatch(corr, members));
    if members == [] {
      forall id: nat ensures FramesOf(w'.frames, id) == Owed(w', id) {
        FramesOfSnoc(w.frames, Frame(None, Result(corr, false, Some(Refused("no members")))), id);
        assert FramesOf(w.frames, id) == Owed(w, id);
      }
    } else if corr !in w.owner {
      NewFanOk(corr, members);
      assert w'.fans[w.next].Holds() && w'.fans[w.next].corr == corr;
      forall id: nat ensures FramesOf(w'.frames, id) == Owed(w', id) {
        assert FramesOf(w.frames, id) == Owed(w, id);
      }
    }
  }

  lemma {:induction false} ReleaseKeepsInv(w: World, id: nat)
    requires Inv(w) && Enabled(w, Release(id))
    ensures Inv(Step(w, Release(id)))
  {
    hide FanOk;
    var w' := Step(w, Release(id));
    AdvanceKeepsFan(w.fans[id], w'.fans[id].phase);
    forall j: nat ensures FramesOf(w'.frames, j) == Owed(w', j) {
      assert FramesOf(w.frames, j) == Owed(w, j);
    }
  }

  lemma {:induction false} SendKeepsInv(w: World, id: nat)
    requires Inv(w) && Enabled(w, Send(id))
    ensures Inv(Step(w, Send(id)))
  {
    hide FanOk;
    var w' := Step(w, Send(id));
    AdvanceKeepsFan(w.fans[id], w'.fans[id].phase);
    forall j: nat ensures FramesOf(w'.frames, j) == Owed(w', j) {
      assert FramesOf(w.frames, j) == Owed(w, j);
      FramesOfSnoc(w.frames, Frame(Some(id), w.fans[id].phase.result), j);
    }
  }

  lemma {:induction false} StepKeepsInv(w: World, e: Event)
    requires Inv(w) && Enabled(w, e)
    ensures Inv(Step(w, e))
  {
    hide FanOk, ClaimsOk, FramesOk;
    match e
    case Dispatch(corr, members) => DispatchKeepsInv(w, corr, members);
    case Prepare(id) =>
      PreparedKeepsFan(w.fans[id], Running);
      QuietKeepsInv(w, id, w.fans[id].(phase := Running));
    case Leak(id) =>
      PreparedKeepsFan(w.fans[id], Leaked);
      QuietKeepsInv(w, id, w.fans[id].(phase := Leaked));
    case Callback(id, c) =>
      CallbackKeepsFan(w.fans[id], c);
      QuietKeepsInv(w, id, OnCallback(w.fans[id], c));
    case Timeout(id) =>
      TimeoutKeepsFan(w.fans[id]);
      QuietKeepsInv(w, id, OnTimeout(w.fans[id]));
    case Release(id) => ReleaseKeepsInv(w, id);
    case Send(id) => SendKeepsInv(w, id);
  }

  /** A fan-out that has reported never runs again. */
  lemma {:induction false} ReportIsFinal(w: World, e: Event, id: nat)
    requires Inv(w) && Enabled(w, e) && id in w.fans && w.fans[id].Decided()
    ensures id in Step(w, e).fans && Step(w, e).fans[id].Decided()
  {
    hide FanOk, ClaimsOk, FramesOk;
    if e.Callback? {
      CallbackKeepsFan(w.fans[e.id], e.c);
    } else if e.Timeout? {
      TimeoutKeepsFan(w.fans[e.id]);
    }
  }

  ghost predicate IsRun(run: seq<World>, events: seq<Event>) {
    && |run| == |events| + 1
    && run[0] == World(map[], map[], [], 0)
    && forall i | 0 <= i < |events| :: Enabled(run[i], events[i]) && run[i + 1] == Step(run[i], events[i])
  }

  /** In every interleaving, at every moment: at most one unreleased tracker owns a claim, and
      no fan-out sends more than its one result. */
  lemma {:induction false} RunKeepsInv(run: seq<World>, events: seq<Event>, i: nat)
    requires IsRun(run, events) && i < |run|
    ensures Inv(run[i])
  {
    if i > 0 {
      RunKeepsInv(run, events, i - 1);
      StepKeepsInv(run[i - 1], events[i - 1]);
    }
  }

  /** Nothing is half done: no preparation under way, and every result obtained has been sent. */
  ghost predicate Settled(w: World) {
    forall id | id in w.fans :: w.fans[id].phase.Leaked? || w.fans[id].phase.Running? || w.fans[id].phase.Sent?
  }

  ghost predicate AllCalledBack(f: Fan) {
    forall m | m in f.members :: exists i :: 0 <= i < |f.log| && f.log[i].member == m
  }

  /** Once nothing is half done, a fan-out whose watchdog fired, or whose members (with distinct
      prefixes) have all called back, has sent exactly one result: the true one for the callbacks
      that came before the report. */
  lemma {:induction false} ExactlyOneResult(run: seq<World>, events: seq<Event>, i: nat, id: nat)
    requires IsRun(run, events) && i < |run| && Settled(run[i]) && id in run[i].fans
    requires
      || (exists j :: 0 <= j < i && events[j] == Timeout(id))
      || (!run[i].fans[id].Early() && AllCalledBack(run[i].fans[id]) && Distinct(Prefixes(run[i].fans[id].members)))
    ensures var f := run[i].fans[id];
            && f.phase.Sent? && f.phase.cut <= |f.log|
            && FramesOf(run[i].frames, id) == [f.phase.result]
            && f.phase.result == TrueResult(f.corr, f.members, f.log[..f.phase.cut])
  {
    RunKeepsInv(run, events, i);
    var f := run[i].fans[id];
    if exists j :: 0 <= j < i && events[j] == Timeout(id) {
      var j :| 0 <= j < i && events[j] == Timeout(id);
      TimeoutEndsRunning(run, events, j, i, id);
    } else {
      if f.phase.Running? {
        NeverRunningWhenAllHeard(f);
      }
    }
  }

  lemma {:induction false} NeverRunningWhenAllHeard(f: Fan)
    requires FanOk(f) && AllCalledBack(f) && Distinct(Prefixes(f.members))
    ensures !f.phase.Running?
  {
    EveryoneHeard(f.members, f.log);
    ElementsSize(Prefixes(f.members));
    SubsetSize(Elements(Prefixes(f.members)), Heard(f.log));
  }

  lemma {:induction false} TimeoutEndsRunning(run: seq<World>, events: seq<Event>, j: nat, i: nat, id: nat)
    requires IsRun(run, events) && j < i < |run| && events[j] == Timeout(id)
    ensures id in run[i].fans && run[i].fans[id].Decided()
  {
    hide FanOk, ClaimsOk, FramesOk;
    RunKeepsInv(run, events, i - 1);
    if i > j + 1 {
      TimeoutEndsRunning(run, events, j, i - 1, id);
      ReportIsFinal(run[i - 1], events[i - 1], id);
    } else {
      TimeoutKeepsFan(run[j].fans[id]);
    }
  }

  // ---------- every frame on the wire ----------

  /** What a dispatch does: to a channel without members it sends one refusal and touches nothing else;
      of an id in flight it is ignored; otherwise a new fan-out of those members claims the id. */
  lemma {:induction false} DispatchDoes(w: World, corr: string, members: seq<string>)
    ensures var w' := Step(w, Dispatch(corr, members));
            && (members == [] ==>
                  && w'.owner == w.owner && w'.fans == w.fans && w'.next == w.next
                  && |w'.frames| == |w.frames| + 1 && w'.frames[..|w.frames|] == w.frames
                  && var f := w'.frames[|w.frames|];
                     f.owner == None && f.result.corr == corr && !f.result.delivered && f.result.detail.Some?)
            && (members != [] && corr in w.owner ==> w' == w)
            && (members != [] && corr !in w.owner ==>
                  && w'.frames == w.frames && w'.owner == w.owner[corr := w.next] && w.next in w'.fans
                  && w'.fans - {w.next} == w.fans - {w.next} && w'.next == w.next + 1
                  && var f := w'.fans[w.next];
                     f.corr == corr && f.members == members && f.phase.Claimed? && f.log == [])
  {
  }

  /** A frame is the result of the fan-out that sent it, or a refusal. */
  ghost predicate FrameTold(w: World, f: Frame) {
    if f.owner.Some? then
      f.owner.value in w.fans && w.fans[f.owner.value].phase.Sent? && f.result == w.fans[f.owner.value].phase.result
    else !f.result.delivered && f.result.detail.Some?
  }

  ghost predicate FramesTold(w: World) {
    forall k | 0 <= k < |w.frames| :: FrameTold(w, w.frames[k])
  }

  lemma {:induction false} StepKeepsTold(w: World, e: Event)
    requires Inv(w) && FramesTold(w) && Enabled(w, e)
    ensures FramesTold(Step(w, e))
  {
    var w' := Step(w, e);
    forall k | 0 <= k < |w'.frames| ensures FrameTold(w', w'.frames[k]) {
      if k < |w.frames| {
        assert w'.frames[k] == w.frames[k] && FrameTold(w, w.frames[k]);
        if w.frames[k].owner.Some? {
          SentStays(w, e, w.frames[k].owner.value);
        }
      }
    }
  }

  lemma {:induction false} SentStays(w: World, e: Event, id: nat)
    requires Inv(w) && Enabled(w, e) && id in w.fans && w.fans[id].phase.Sent?
    ensures id in Step(w, e).fans && Step(w, e).fans[id].phase == w.fans[id].phase
  {
    hide FanOk, ClaimsOk, FramesOk;
    assert id < w.next;
    if e.Callback? {
      CallbackKeepsFan(w.fans[e.id], e.c);
    } else if e.Timeout? {
      TimeoutKeepsFan(w.fans[e.id]);
    }
  }

  lemma {:induction false} RunKeepsTold(run: seq<World>, events: seq<Event>, i: nat)
    requires IsRun(run, events) && i < |run|
    ensures FramesTold(run[i])
  {
    hide Inv, Enabled, Step;
    if i > 0 {
      RunKeepsTold(run, events, i - 1);
      RunKeepsInv(run, events, i - 1);
      StepKeepsTold(run[i - 1], events[i - 1]);
    }
  }

  /** Fan-out `id` has reported, and some callback before its report was a success. */
  ghost predicate Succeeded(w: World, id: nat) {
    && id in w.fans && w.fans[id].Decided() && w.fans[id].phase.cut <= |w.fans[id].log|
    && AnySuccess(w.fans[id].log[..w.fans[id].phase.cut])
  }

  /** In every run, any frame on the wire says delivered exactly if a fan-out sent it that had a success
      among the callbacks before its report. */
  lemma {:induction false} FrameTells(run: seq<World>, events: seq<Event>, i: nat, k: nat)
    requires IsRun(run, events) && i < |run| && k < |run[i].frames|
    ensures var f := run[i].frames[k];
            f.result.delivered <==> f.owner.Some? && Succeeded(run[i], f.owner.value)
  {
    RunKeepsInv(run, events, i);
    RunKeepsTold(run, events, i);
    var w, f := run[i], run[i].frames[k];
    assert FrameTold(w, f);
    if f.owner.Some? {
      var g := w.fans[f.owner.value];
      assert FanOk(g);
      TrueResultMeans(g.corr, g.members, g.log[..g.phase.cut], "", "");
    }
  }

  /** The refusals of an id on the wire. */
  function Refusals(frames: seq<Frame>, corr: string): nat {
    if frames == [] then 0
    else
      var f := frames[|frames| - 1];
      Refusals(frames[..|frames| - 1], corr) + if f.owner == None && f.result.corr == corr then 1 else 0
  }

  /** The dispatches of an id to channels without members. */
  function EmptyDispatches(events: seq<Event>, corr: string): nat {
    if events == [] then 0
    else EmptyDispatches(events[..|events| - 1], corr) + if events[|events| - 1] == Dispatch(corr, []) then 1 else 0
  }

  lemma {:induction false} RefusalSnoc(frames: seq<Frame>, f: Frame, corr: string)
    ensures Refusals(frames + [f], corr)
         == Refusals(frames, corr) + if f.owner == None && f.result.corr == corr then 1 else 0
  {
    assert (frames + [f])[..|frames|] == frames;
  }

  lemma {:induction false} RefusalStep(w: World, e: Event, corr: string)
    requires Enabled(w, e)
    ensures Refusals(Step(w, e).frames, corr) == Refusals(w.frames, corr) + if e == Dispatch(corr, []) then 1 else 0
  {
    hide OnCallback, OnTimeout, Refusals;
    if e.Dispatch? && e.members == [] {
      RefusalSnoc(w.frames, Frame(None, Result(e.corr, false, Some(Refused("no members")))), corr);
    } else if e.Send? {
      RefusalSnoc(w.frames, Frame(Some(e.id), w.fans[e.id].phase.result), corr);
    }
  }

  /** In every run each dispatch to no members is answered by exactly one refusal, and nothing else is. */
  lemma {:induction false} RefusedOnce(run: seq<World>, events: seq<Event>, i: nat, corr: string)
    requires IsRun(run, events) && i < |run|
    ensures Refusals(run[i].frames, corr) == EmptyDispatches(events[..i], corr)
  {
    hide Enabled, Step;
    if i > 0 {
      RefusedOnce(run, events, i - 1, corr);
      RefusalStep(run[i - 1], events[i - 1], corr);
      assert events[..i][..i - 1] == events[..i - 1];
    }
  }

  // ---------- a fan-out left to itself ----------

  lemma {:induction false} Extend(run: seq<World>, events: seq<Event>, e: Event)
    returns (run': seq<World>, events': seq<Event>)
    requires IsRun(run, events) && Enabled(run[|events|], e)
    ensures IsRun(run', events') && |run'| == |events'| + 1 && run'[|events'|] == Step(run[|events|], e)
  {
    hide Enabled, Step;
    run', events' := run + [Step(run[|events|], e)], events + [e];
  }

  /** The fan-out and the frames in a world with one fan-out. */
  ghost predicate Alone(w: World, corr: string, members: seq<string>, log: seq<Fanout.Callback>) {
    && 0 in w.fans && w.fans.Keys == {0} && w.frames == []
    && w.fans[0].corr == corr && w.fans[0].members == members && w.fans[0].log == log
  }

  /** Still running, or with a result that its callbacks brought about. */
  predicate Undisturbed(f: Fan) { f.phase.Running? || (f.phase.Reported? && !f.phase.timedOut) }

  lemma {:induction false} CallbackAlone(
    w: World, corr: string, members: seq<string>, log: seq<Fanout.Callback>, c: Fanout.Callback)
    requires Alone(w, corr, members, log) && Undisturbed(w.fans[0]) && c.member in members
    ensures Enabled(w, Event.Callback(0, c))
    ensures var w' := Step(w, Event.Callback(0, c)); Alone(w', corr, members, log + [c]) && Undisturbed(w'.fans[0])
  {
    hide MemberDone, Prefix;
  }

  lemma {:induction false} CalledBack(
    run: seq<World>, events: seq<Event>, corr: string, members: seq<string>, log: seq<Fanout.Callback>,
    c: Fanout.Callback)
    returns (run': seq<World>, events': seq<Event>)
    requires IsRun(run, events) && |run| == |events| + 1 && Alone(run[|events|], corr, members, log)
    requires Undisturbed(run[|events|].fans[0]) && c.member in members
    ensures IsRun(run', events') && |run'| == |events'| + 1 && Alone(run'[|events'|], corr, members, log + [c])
    ensures Undisturbed(run'[|events'|].fans[0])
  {
    CallbackAlone(run[|events|], corr, members, log, c);
    hide IsRun, Alone, Step, Enabled, Undisturbed;
    run', events' := Extend(run, events, Event.Callback(0, c));
  }

  /** Members with distinct prefixes all call back, with whatever outcomes: the dispatch ends with the
      claim given up and one frame, the true result for what they said. */
  lemma {:induction false} FanOutCompletes(corr: string, members: seq<string>, log: seq<Fanout.Callback>)
    returns (run: seq<World>, events: seq<Event>)
    requires members != [] && Distinct(Prefixes(members)) && |log| == |members|
    requires forall i | 0 <= i < |members| :: log[i].member == members[i]
    ensures IsRun(run, events) && |run| == |events| + 1
    ensures var w := run[|events|];
            && w.owner == map[] && |w.frames| == 1
            && exists n :: 0 <= n <= |log| && w.frames[0].result == TrueResult(corr, members, log[..n])
                           && Everyone(members, log[..n])
  {
    hide IsRun, TrueResult, Everyone, Distinct, Step, Enabled;
    run, events := BeginFanOut(corr, members);
    for n := 0 to |log|
      invariant IsRun(run, events) && |run| == |events| + 1 && Alone(run[|events|], corr, members, log[..n])
      invariant Undisturbed(run[|events|].fans[0])
    {
      assert log[..n + 1] == log[..n] + [log[n]];
      run, events := CalledBack(run, events, corr, members, log[..n], log[n]);
    }
    assert log[..|log|] == log;
    LastSteps(run, events, corr, members, log);
    var cut := run[|events|].fans[0].phase.cut;
    run, events := EndFanOut(run, events, corr, members, log);
    assert run[|events|].frames[0].result == TrueResult(corr, members, log[..cut]) && Everyone(members, log[..cut]);
  }

  lemma {:induction false} BeginFanOut(corr: string, members: seq<string>) returns (run: seq<World>, events: seq<Event>)
    requires members != []
    ensures IsRun(run, events) && |run| == |events| + 1 && Alone(run[|events|], corr, members, [])
    ensures Undisturbed(run[|events|].fans[0])
  {
    run, events := [World(map[], map[], [], 0)], [];
    run, events := Extend(run, events, Dispatch(corr, members));
    run, events := Extend(run, events, Prepare(0));
  }

  lemma {:induction false} EndFanOut(
    run: seq<World>, events: seq<Event>, corr: string, members: seq<string>, log: seq<Fanout.Callback>)
    returns (run': seq<World>, events': seq<Event>)
    requires IsRun(run, events) && |run| == |events| + 1 && Alone(run[|events|], corr, members, log)
    requires run[|events|].fans[0].phase.Reported? && run[|events|].owner == map[corr := 0]
    ensures IsRun(run', events') && |run'| == |events'| + 1
    ensures run'[|events'|].owner == map[] && |run'[|events'|].frames| == 1
    ensures run'[|events'|].frames[0].result == run[|events|].fans[0].phase.result
  {
    hide IsRun;
    run', events' := Extend(run, events, Release(0));
    run', events' := Extend(run', events', Send(0));
  }

  lemma {:induction false} InOrderHeard(f: Fan)
    requires |f.log| == |f.members| && forall i | 0 <= i < |f.members| :: f.log[i].member == f.members[i]
    ensures AllCalledBack(f)
  {
    forall m | m in f.members ensures exists i :: 0 <= i < |f.log| && f.log[i].member == m {
      var i :| 0 <= i < |f.members| && f.members[i] == m;
      assert f.log[i].member == m;
    }
  }

  lemma {:induction false} OneClaim(w: World)
    requires ClaimsOk(w) && 0 in w.fans && w.fans.Keys == {0} && w.fans[0].Holds()
    ensures w.owner == map[w.fans[0].corr := 0]
  {
  }

  lemma {:induction false} LastSteps(
    run: seq<World>, events: seq<Event>, corr: string, members: seq<string>, log: seq<Fanout.Callback>)
    requires IsRun(run, events) && |run| == |events| + 1 && Alone(run[|events|], corr, members, log)
    requires Distinct(Prefixes(members)) && Undisturbed(run[|events|].fans[0])
    requires |log| == |members| && forall i | 0 <= i < |members| :: log[i].member == members[i]
    ensures var f := run[|events|].fans[0];
            && f.phase.Reported? && run[|events|].owner == map[corr := 0]
            && f.phase.cut <= |log| && f.phase.result == TrueResult(corr, members, log[..f.phase.cut])
            && Everyone(members, log[..f.phase.cut])
  {
    hide IsRun, TrueResult, Everyone, Distinct, ClaimsOk, FramesOk, AllCalledBack, Tracks, FromMembers;
    var w := run[|events|];
    RunKeepsInv(run, events, |events|);
    assert FanOk(w.fans[0]);
    InOrderHeard(w.fans[0]);
    NeverRunningWhenAllHeard(w.fans[0]);
    OneClaim(w);
  }

  /** Or its preparation fails, and the id stays claimed for ever. */
  lemma {:induction false} FanOutLeaks(corr: string, members: seq<string>) returns (run: seq<World>, events: seq<Event>)
    requires members != []
    ensures IsRun(run, events) && |run| == |events| + 1
    ensures var w := run[|events|];
            0 in w.fans && w.fans[0].phase.Leaked? && w.owner == map[corr := 0] && w.frames == []
  {
    run, events := [World(map[], map[], [], 0)], [];
    run, events := Extend(run, events, Dispatch(corr, members));
    run, events := Extend(run, events, Leak(0));
  }

  // ---------- claims that are never given up ----------

  lemma {:induction false} LeakStep(w: World, e: Event, id: nat)
    requires Inv(w) && Enabled(w, e) && id in w.fans && w.fans[id].phase.Leaked?
    ensures id in Step(w, e).fans && Step(w, e).fans[id] == w.fans[id]
  {
    hide FanOk, ClaimsOk, FramesOk, OnCallback, OnTimeout;
    assert id < w.next;
  }

  lemma {:induction false} LeakStays(run: seq<World>, events: seq<Event>, i: nat, j: nat, id: nat)
    requires IsRun(run, events) && i <= j < |run| && id in run[i].fans && run[i].fans[id].phase.Leaked?
    ensures id in run[j].fans && run[j].fans[id] == run[i].fans[id]
    decreases j - i
  {
    hide Inv, Enabled, Step;
    if i < j {
      LeakStays(run, events, i, j - 1, id);
      RunKeepsInv(run, events, j - 1);
      LeakStep(run[j - 1], events[j - 1], id);
    }
  }

  /** A claim whose preparation failed is never given up: nothing is ever sent for it, and every
      later dispatch of the id to a channel with members is ignored. */
  lemma {:induction false} LeakIsForever(run: seq<World>, events: seq<Event>, i: nat, j: nat, id: nat)
    requires IsRun(run, events) && i <= j < |run| && id in run[i].fans && run[i].fans[id].phase.Leaked?
    ensures FramesOf(run[j].frames, id) == [] && run[i].fans[id].corr in run[j].owner
    ensures j < |events| && events[j].Dispatch? && events[j].corr == run[i].fans[id].corr && events[j].members != [] ==>
              run[j + 1] == run[j]
  {
    LeakStays(run, events, i, j, id);
    RunKeepsInv(run, events, j);
    assert FramesOf(run[j].frames, id) == Owed(run[j], id);
  }

  /** When nothing is half done, an id is claimed exactly if a fan-out of it still waits for its
      members or its preparation failed. */
  lemma {:induction false} ClaimedIff(run: seq<World>, events: seq<Event>, i: nat, corr: string)
    requires IsRun(run, events) && i < |run| && Settled(run[i])
    ensures corr in run[i].owner
       <==> exists id :: && id in run[i].fans && run[i].fans[id].corr == corr
                         && (run[i].fans[id].phase.Running? || run[i].fans[id].phase.Leaked?)
  {
    hide FansOk, FramesOk;
    RunKeepsInv(run, events, i);
    if corr in run[i].owner {
      var id := run[i].owner[corr];
      assert run[i].fans[id].phase.Running? || run[i].fans[id].phase.Leaked?;
    }
  }

  /** A callback or watchdog that comes after the report changes nothing others can see; and a
      release gives up its own claim, never one that a newer dispatch holds. */
  lemma {:induction false} LateEventsAreHarmless(run: seq<World>, events: seq<Event>, i: nat)
    requires IsRun(run, events) && i < |events|
    ensures var e := events[i]; var w, w' := run[i], run[i + 1];
            (e.Callback? || e.Timeout?) && w.fans[e.id].Decided()
            ==> w'.owner == w.owner && w'.frames == w.frames && w'.fans[e.id].phase == w.fans[e.id].phase
    ensures var e := events[i]; var w, w' := run[i], run[i + 1];
            e.Release? ==>
              && w.fans[e.id].corr in w.owner
              && forall jd | jd in w.fans && jd != e.id && w.fans[jd].Holds() :: w.fans[jd].corr in w'.owner
  {
    RunKeepsInv(run, events, i);
    var e := events[i];
    if e.Callback? {
      CallbackKeepsFan(run[i].fans[e.id], e.c);
    } else if e.Timeout? {
      TimeoutKeepsFan(run[i].fans[e.id]);
    }
  }
}
