/** Channel fan-out in the LXMF plugin (plugins/lxmf/relayfabric_lxmf.py): one tracker for each
    dispatched send, callbacks from many threads, a watchdog timer, and a set of claimed
    delivery ids that keeps a re-dispatched delivery from being sent twice. */
module Fanout {
  import opened Common

  // ---------- the tracker ----------

  datatype Detail =
    | Refused(reason: string)
    | Clauses(failed: seq<string>, pending: seq<string>, soft: seq<(string, string)>)

  datatype Result = Result(corr: string, delivered: bool, detail: Option<Detail>)

  datatype Tracker = Tracker(
    corr: string, members: seq<string>, resolved: set<string>, delivered: nat,
    failed: seq<string>, soft: seq<(string, string)>, pending: seq<string>, reported: bool)

  /** Members are tracked by the first eight characters of their address. */
  function Prefix(member: string): string {
    if |member| <= 8 then member else member[..8]
  }

  /** Two members are told apart exactly if their addresses differ within eight characters. */
  lemma {:induction false} PrefixMeans(a: string, b: string)
    ensures Prefix(a) == Prefix(b)
       <==> (|a| >= 8 && |b| >= 8 && forall i | 0 <= i < 8 :: a[i] == b[i]) || (|a| < 8 && a == b)
  {
    if |a| >= 8 && |b| >= 8 {
      assert Prefix(a) == a[..8] && Prefix(b) == b[..8];
    }
  }

  function Prefixes(members: seq<string>): (r: seq<string>)
    ensures |r| == |members| && forall i | 0 <= i < |r| :: r[i] == Prefix(members[i])
  {
    if members == [] then [] else Prefixes(members[..|members| - 1]) + [Prefix(members[|members| - 1])]
  }

  function NewTracker(corr: string, members: seq<string>): Tracker {
    Tracker(corr, Prefixes(members), {}, 0, [], [], [], false)
  }

  /** No clause to report means no detail at all. */
  function DetailFor(failed: seq<string>, pending: seq<string>, soft: seq<(string, string)>): Option<Detail> {
    if failed == [] && pending == [] && soft == [] then None else Some(Clauses(failed, pending, soft))
  }

  function ResultOf(t: Tracker): Result {
    Result(t.corr, t.delivered > 0, DetailFor(t.failed, t.pending, t.soft))
  }

  /** A kind other than "direct" marks a delivery the device has not confirmed. */
  predicate IsSoft(kind: Option<string>) {
    kind.Some? && kind.value != "" && kind.value != "direct"
  }

  function Resolve(t: Tracker, member: string, success: bool, kind: Option<string>): Tracker {
    t.(resolved := t.resolved + {member},
       delivered := if success then t.delivered + 1 else t.delivered,
       soft := if success && IsSoft(kind) then t.soft + [(member, kind.value)] else t.soft,
       failed := if success then t.failed else t.failed + [member])
  }

  function MemberDone(t: Tracker, member: string, success: bool, kind: Option<string>): (Tracker, Option<Result>) {
    if t.reported then (t, None)
    else
      var u := Resolve(t, member, success, kind);
      if |u.resolved| < |u.members| then (u, None)
      else (u.(reported := true), Some(ResultOf(u)))
  }

  function Unresolved(members: seq<string>, resolved: set<string>): seq<string> {
    if members == [] then []
    else
      var front := Unresolved(members[..|members| - 1], resolved);
      if members[|members| - 1] in resolved then front else front + [members[|members| - 1]]
  }

  function FinalizeOnTimeout(t: Tracker): (Tracker, Option<Result>) {
    if t.reported then (t, None)
    else
      var u := t.(reported := true, pending := Unresolved(t.members, t.resolved));
      (u, Some(ResultOf(u)))
  }

  /** The tracker object; each method runs under the tracker's own lock. */
  class FanoutTracker {
    const corr: string
    const members: seq<string>
    const total: nat
    var resolved: set<string>
    var delivered: nat
    var failed: seq<string>
    var soft: seq<(string, string)>
    var pending: seq<string>
    var reported: bool

    ghost predicate Valid() { total == |members| }

    ghost function Value(): Tracker
      reads this
    {
      Tracker(corr, members, resolved, delivered, failed, soft, pending, reported)
    }

    constructor (corr: string, members: seq<string>)
      ensures Valid() && Value() == NewTracker(corr, members)
    {
      this.corr := corr;
      this.members := Prefixes(members);
      total := |members|;
      resolved, delivered, failed, soft, pending := {}, 0, [], [], [];
      reported := false;
    }

    method Done(member: string, success: bool, kind: Option<string>) returns (r: Option<Result>)
      requires Valid()
      modifies this
      ensures (Value(), r) == MemberDone(old(Value()), member, success, kind)
    {
      if reported {
        return None;
      }
      resolved := resolved + {member};
      if success {
        delivered := delivered + 1;
        if IsSoft(kind) {
          soft := soft + [(member, kind.value)];
        }
      } else {
        failed := failed + [member];
      }
      if |resolved| < total {
        return None;
      }
      reported := true;
      r := Some(Result(corr, delivered > 0, CurrentDetail()));
    }

    method Finalize() returns (r: Option<Result>)
      modifies this
      ensures (Value(), r) == FinalizeOnTimeout(old(Value()))
    {
      if reported {
        return None;
      }
      reported := true;
      pending := Unresolved(members, resolved);
      r := Some(Result(corr, delivered > 0, CurrentDetail()));
    }

    function CurrentDetail(): Option<Detail>
      reads this
    {
      DetailFor(failed, pending, soft)
    }
  }

  // ---------- one tracker under callbacks ----------

  datatype Callback = Callback(member: string, success: bool, kind: Option<string>)

  function Replay(t: Tracker, log: seq<Callback>): Tracker {
    if log == [] then t
    else
      var c := log[|log| - 1];
      MemberDone(Replay(t, log[..|log| - 1]), Prefix(c.member), c.success, c.kind).0
  }

  ghost predicate FromMembers(log: seq<Callback>, members: seq<string>) {
    forall i | 0 <= i < |log| :: log[i].member in members
  }

  /** The prefixes heard from. */
  ghost function Heard(log: seq<Callback>): set<string> {
    set i | 0 <= i < |log| :: Prefix(log[i].member)
  }

  ghost predicate AnySuccess(log: seq<Callback>) {
    exists i :: 0 <= i < |log| && log[i].success
  }

  /** A success the device confirmed: of the kind "direct", or of none. */
  predicate Confirmed(c: Callback) {
    c.success && (c.kind == None || c.kind == Some("") || c.kind == Some("direct"))
  }

  ghost predicate AllConfirmed(log: seq<Callback>) {
    forall i | 0 <= i < |log| :: Confirmed(log[i])
  }

  function Successes(log: seq<Callback>): nat {
    if log == [] then 0
    else Successes(log[..|log| - 1]) + if log[|log| - 1].success then 1 else 0
  }

  /** The prefixes that failed, in the order of their callbacks. */
  function FailedOf(log: seq<Callback>): seq<string> {
    if log == [] then []
    else
      var front, c := FailedOf(log[..|log| - 1]), log[|log| - 1];
      if c.success then front else front + [Prefix(c.member)]
  }

  /** The deliveries not confirmed by the device, in the order of their callbacks. */
  function SoftOf(log: seq<Callback>): seq<(string, string)> {
    if log == [] then []
    else
      var front, c := SoftOf(log[..|log| - 1]), log[|log| - 1];
      if c.success && IsSoft(c.kind) then front + [(Prefix(c.member), c.kind.value)] else front
  }

  lemma {:induction false} SuccessesMeans(log: seq<Callback>)
    ensures Successes(log) > 0 <==> AnySuccess(log)
  {
    if log != [] {
      var front, c := log[..|log| - 1], log[|log| - 1];
      SuccessesMeans(front);
      if AnySuccess(front) {
        var i :| 0 <= i < |front| && front[i].success;
        assert log[i].success;
      }
    }
  }

  lemma {:induction false} ConfirmedMeans(log: seq<Callback>)
    ensures FailedOf(log) == [] && SoftOf(log) == [] <==> AllConfirmed(log)
  {
    if log != [] {
      var front, c := log[..|log| - 1], log[|log| - 1];
      ConfirmedMeans(front);
      assert AllConfirmed(log) <==> AllConfirmed(front) && Confirmed(c);
    }
  }

  lemma {:induction false} FailedMeans(log: seq<Callback>, p: string)
    ensures p in FailedOf(log) <==> exists i :: 0 <= i < |log| && !log[i].success && Prefix(log[i].member) == p
  {
    if log != [] {
      var front := log[..|log| - 1];
      FailedMeans(front, p);
      if p in FailedOf(front) {
        var i :| 0 <= i < |front| && !front[i].success && Prefix(front[i].member) == p;
        assert !log[i].success && Prefix(log[i].member) == p;
      }
    }
  }

  /** Listed as unconfirmed are exactly the successes that are not confirmed, each with its kind. */
  lemma {:induction false} SoftMeans(log: seq<Callback>, p: string, kind: string)
    ensures (p, kind) in SoftOf(log) <==>
      exists i :: && 0 <= i < |log| && log[i].success && !Confirmed(log[i])
                  && log[i].kind == Some(kind) && Prefix(log[i].member) == p
  {
    if log != [] {
      var front := log[..|log| - 1];
      SoftMeans(front, p, kind);
      if (p, kind) in SoftOf(front) {
        var i :| && 0 <= i < |front| && front[i].success && !Confirmed(front[i])
                 && front[i].kind == Some(kind) && Prefix(front[i].member) == p;
        assert log[i] == front[i];
      }
    }
  }

  lemma {:induction false} UnresolvedMeans(members: seq<string>, resolved: set<string>, p: string)
    ensures p in Unresolved(members, resolved) <==> p in members && p !in resolved
  {
    if members != [] {
      var front, last := members[..|members| - 1], members[|members| - 1];
      UnresolvedMeans(front, resolved, p);
      assert members == front + [last];
    }
  }

  /** What a tracker that has not reported knows of the callbacks it received. */
  ghost predicate Knows(t: Tracker, members: seq<string>, log: seq<Callback>) {
    && t.members == Prefixes(members)
    && t.resolved == Heard(log)
    && t.delivered == Successes(log)
    && t.failed == FailedOf(log) && t.soft == SoftOf(log) && t.pending == []
  }

  lemma {:induction false} HeardSnoc(log: seq<Callback>, c: Callback)
    ensures Heard(log + [c]) == Heard(log) + {Prefix(c.member)}
  {
    var log' := log + [c];
    forall p | p in Heard(log) + {Prefix(c.member)} ensures p in Heard(log') {
      if p in Heard(log) {
        var i :| 0 <= i < |log| && Prefix(log[i].member) == p;
        assert Prefix(log'[i].member) == p;
      } else {
        assert Prefix(log'[|log|].member) == p;
      }
    }
  }

  lemma {:induction false} ResolveKnows(t: Tracker, members: seq<string>, log: seq<Callback>, c: Callback)
    requires Knows(t, members, log)
    ensures Knows(Resolve(t, Prefix(c.member), c.success, c.kind), members, log + [c])
  {
    HeardSnoc(log, c);
    assert (log + [c])[..|log|] == log;
  }

  /** Before it reports, a tracker knows its callbacks and is short of members; when a callback
      makes it report, it has heard from as many prefixes as it has members. */
  ghost predicate Tracks(t: Tracker, members: seq<string>, log: seq<Callback>) {
    if t.reported then |members| <= |t.resolved| && t.resolved <= Elements(Prefixes(members))
    else Knows(t, members, log) && |t.resolved| < |members|
  }

  lemma {:induction false} DoneTracks(t: Tracker, members: seq<string>, log: seq<Callback>, c: Callback)
    requires Tracks(t, members, log) && FromMembers(log + [c], members)
    ensures Tracks(MemberDone(t, Prefix(c.member), c.success, c.kind).0, members, log + [c])
  {
    if !t.reported {
      ResolveKnows(t, members, log, c);
      HeardFromMembers(log + [c], members);
    }
  }

  lemma {:induction false} ReplayTracks(corr: string, members: seq<string>, log: seq<Callback>)
    requires members != [] && FromMembers(log, members)
    ensures Tracks(Replay(NewTracker(corr, members), log), members, log)
  {
    if log == [] {
      assert Heard(log) == {};
    } else {
      var front, c := log[..|log| - 1], log[|log| - 1];
      assert front + [c] == log;
      ReplayTracks(corr, members, front);
      DoneTracks(Replay(NewTracker(corr, members), front), members, front, c);
    }
  }

  lemma {:induction false} HeardFromMembers(log: seq<Callback>, members: seq<string>)
    requires FromMembers(log, members)
    ensures Heard(log) <= Elements(Prefixes(members))
  {
    forall p | p in Heard(log) ensures p in Prefixes(members) {
      var i :| 0 <= i < |log| && Prefix(log[i].member) == p;
      var j :| 0 <= j < |members| && members[j] == log[i].member;
      assert Prefixes(members)[j] == p;
    }
  }

  /** When every member has called back, the callbacks alone make the tracker report exactly
      when no two members share an eight-character prefix. */
  lemma {:induction false} CompletesIffDistinct(corr: string, members: seq<string>, log: seq<Callback>)
    requires members != [] && FromMembers(log, members)
    requires forall m | m in members :: exists i :: 0 <= i < |log| && log[i].member == m
    ensures Replay(NewTracker(corr, members), log).reported <==> Distinct(Prefixes(members))
  {
    hide Heard, Elements, Distinct;
    var t, all := Replay(NewTracker(corr, members), log), Elements(Prefixes(members));
    ReplayTracks(corr, members, log);
    HeardFromMembers(log, members);
    EveryoneHeard(members, log);
    ElementsSize(Prefixes(members));
    hide Replay;
    if t.reported {
      SubsetSize(t.resolved, all);
    } else {
      SubsetSize(Heard(log), all);
      SubsetSize(all, Heard(log));
    }
  }

  lemma {:induction false} EveryoneHeard(members: seq<string>, log: seq<Callback>)
    requires forall m | m in members :: exists i :: 0 <= i < |log| && log[i].member == m
    ensures Elements(Prefixes(members)) <= Heard(log)
  {
    forall p | p in Prefixes(members) ensures p in Heard(log) {
      var j :| 0 <= j < |members| && Prefixes(members)[j] == p;
      assert members[j] in members;
      var i :| 0 <= i < |log| && log[i].member == members[j];
      assert Prefix(log[i].member) == p;
    }
  }

  lemma {:induction false} SubsetSize<T>(a: set<T>, b: set<T>)
    requires a <= b
    ensures |a| <= |b|
    ensures |a| == |b| ==> a == b
  {
    assert b == a + (b - a);
  }
}
