/** Policy evaluation (switchyardd/src/policy.rs, `evaluate`) and the admin view of which
    policies apply to a route (switchyardd/src/admin.rs, `policies_for_route`). */
module PolicyEvaluation {
  import opened Common

  datatype Policy = Policy(
    name: string, protocols: seq<string>, deny: bool, dropKinds: seq<string>,
    maxPayload: Option<nat>, attachments: Option<string>, maxAttachmentBytes: Option<nat>)

  datatype Decision =
    | Allow(maxPayload: Option<nat>, attachmentsAllowed: bool, maxAttachmentBytes: Option<nat>)
    | Deny(policy: string)

  predicate Matches(p: Policy, protocol: string) { p.protocols == [] || protocol in p.protocols }

  predicate Denies(p: Policy, kind: string) { p.deny || kind in p.dropKinds }

  predicate Rejects(p: Policy) { p.attachments == Some("reject") }

  function PayloadCap(p: Policy): Option<nat> { p.maxPayload }

  function AttachmentCap(p: Policy): Option<nat> { p.maxAttachmentBytes }

  /** The tighter of two caps; no cap is the loosest. */
  function Tightest(a: Option<nat>, b: Option<nat>): Option<nat> {
    if a.None? then b else if b.None? || a.value <= b.value then a else b
  }

  // ---------- evaluation ----------

  function FirstDeny(ps: seq<Policy>, kind: string, protocol: string): Option<string> {
    if ps == [] then None
    else
      var front := FirstDeny(ps[..|ps| - 1], kind, protocol);
      var p := ps[|ps| - 1];
      if front.Some? then front else if Matches(p, protocol) && Denies(p, kind) then Some(p.name) else None
  }

  function LeastCap(ps: seq<Policy>, protocol: string, cap: Policy -> Option<nat>): Option<nat> {
    if ps == [] then None
    else
      var front := LeastCap(ps[..|ps| - 1], protocol, cap);
      var p := ps[|ps| - 1];
      if Matches(p, protocol) then Tightest(front, cap(p)) else front
  }

  predicate NoneRejects(ps: seq<Policy>, protocol: string) {
    ps == [] ||
    (NoneRejects(ps[..|ps| - 1], protocol) && (Matches(ps[|ps| - 1], protocol) ==> !Rejects(ps[|ps| - 1])))
  }

  function Decide(ps: seq<Policy>, kind: string, protocol: string): Decision {
    var denied := FirstDeny(ps, kind, protocol);
    if denied.Some? then Deny(denied.value)
    else Allow(LeastCap(ps, protocol, PayloadCap), NoneRejects(ps, protocol), LeastCap(ps, protocol, AttachmentCap))
  }

  method Evaluate(ps: seq<Policy>, kind: string, protocol: string) returns (d: Decision)
    ensures d == Decide(ps, kind, protocol)
  {
    var maxPayload: Option<nat> := None;
    var attachmentsAllowed := true;
    var maxAttachmentBytes: Option<nat> := None;
    for i := 0 to |ps|
      invariant FirstDeny(ps[..i], kind, protocol) == None
      invariant maxPayload == LeastCap(ps[..i], protocol, PayloadCap)
      invariant attachmentsAllowed == NoneRejects(ps[..i], protocol)
      invariant maxAttachmentBytes == LeastCap(ps[..i], protocol, AttachmentCap)
    {
      var p := ps[i];
      assert ps[..i + 1][..i] == ps[..i] && ps[..i + 1][i] == p;
      if p.protocols != [] && protocol !in p.protocols {
        continue;
      }
      if p.deny || kind in p.dropKinds {
        DenyIsFinal(ps, i + 1, kind, protocol);
        return Deny(p.name);
      }
      if p.maxPayload.Some? {
        maxPayload := Some(if maxPayload.Some? then Min(maxPayload.value, p.maxPayload.value) else p.maxPayload.value);
      }
      if p.attachments == Some("reject") {
        attachmentsAllowed := false;
      }
      if p.maxAttachmentBytes.Some? {
        var cap := p.maxAttachmentBytes.value;
        maxAttachmentBytes := Some(if maxAttachmentBytes.Some? then Min(maxAttachmentBytes.value, cap) else cap);
      }
    }
    assert ps[..|ps|] == ps;
    d := Allow(maxPayload, attachmentsAllowed, maxAttachmentBytes);
  }

  /** What a deny early in the list decides, the rest of the list cannot change. */
  lemma {:induction false} DenyIsFinal(ps: seq<Policy>, n: nat, kind: string, protocol: string)
    requires n <= |ps| && FirstDeny(ps[..n], kind, protocol).Some?
    ensures FirstDeny(ps, kind, protocol) == FirstDeny(ps[..n], kind, protocol)
  {
    if n < |ps| {
      var front := ps[..|ps| - 1];
      assert front[..n] == ps[..n];
      DenyIsFinal(front, n, kind, protocol);
    } else {
      assert ps[..n] == ps;
    }
  }

  // ---------- what a decision means ----------

  ghost predicate Denied(ps: seq<Policy>, kind: string, protocol: string) {
    exists p :: p in ps && Matches(p, protocol) && Denies(p, kind)
  }

  /** `m` is the least cap that a matching policy sets, if any does. */
  ghost predicate IsLeast(ps: seq<Policy>, protocol: string, cap: Policy -> Option<nat>, m: Option<nat>) {
    && (m.Some? ==> exists p :: p in ps && Matches(p, protocol) && cap(p) == m)
    && (forall p | p in ps && Matches(p, protocol) && cap(p).Some? :: m.Some? && m.value <= cap(p).value)
  }

  lemma {:induction false} FirstDenyMeans(ps: seq<Policy>, kind: string, protocol: string)
    ensures FirstDeny(ps, kind, protocol).Some? <==> Denied(ps, kind, protocol)
  {
    if ps != [] {
      var front, p := ps[..|ps| - 1], ps[|ps| - 1];
      FirstDenyMeans(front, kind, protocol);
      assert ps == front + [p];
    }
  }

  /** Policy `i` is the first of the list to match and deny. */
  ghost predicate DeniesFirst(ps: seq<Policy>, kind: string, protocol: string, i: nat) {
    && i < |ps| && Matches(ps[i], protocol) && Denies(ps[i], kind)
    && forall j | 0 <= j < i :: !(Matches(ps[j], protocol) && Denies(ps[j], kind))
  }

  /** A deny names the first policy in the list that matches and denies. */
  lemma {:induction false} DenyNamesFirst(ps: seq<Policy>, kind: string, protocol: string, i: nat)
    requires DeniesFirst(ps, kind, protocol, i)
    ensures Decide(ps, kind, protocol) == Deny(ps[i].name)
  {
    var front := ps[..|ps| - 1];
    if i < |ps| - 1 {
      DenyNamesFirst(front, kind, protocol, i);
    } else {
      FirstDenyMeans(front, kind, protocol);
      assert forall p | p in front :: exists j :: 0 <= j < i && ps[j] == p;
    }
  }

  lemma {:induction false} LeastCapMeans(ps: seq<Policy>, protocol: string, cap: Policy -> Option<nat>)
    ensures IsLeast(ps, protocol, cap, LeastCap(ps, protocol, cap))
  {
    if ps != [] {
      var front, p := ps[..|ps| - 1], ps[|ps| - 1];
      LeastCapMeans(front, protocol, cap);
      assert ps == front + [p];
    }
  }

  lemma {:induction false} NoneRejectsMeans(ps: seq<Policy>, protocol: string)
    ensures NoneRejects(ps, protocol) <==> forall p | p in ps && Matches(p, protocol) :: !Rejects(p)
  {
    if ps != [] {
      var front, p := ps[..|ps| - 1], ps[|ps| - 1];
      NoneRejectsMeans(front, protocol);
      assert ps == front + [p];
    }
  }

  /** A decision in terms of the set of policies alone: denied if some matching policy denies,
      otherwise every cap is the least one set and attachments pass unless one rejects them. */
  lemma {:induction false} DecisionMeans(ps: seq<Policy>, kind: string, protocol: string)
    ensures var d := Decide(ps, kind, protocol);
            && (d.Deny? <==> Denied(ps, kind, protocol))
            && (d.Allow? ==>
                 && IsLeast(ps, protocol, PayloadCap, d.maxPayload)
                 && IsLeast(ps, protocol, AttachmentCap, d.maxAttachmentBytes)
                 && (d.attachmentsAllowed <==> forall p | p in ps && Matches(p, protocol) :: !Rejects(p)))
  {
    FirstDenyMeans(ps, kind, protocol);
    LeastCapMeans(ps, protocol, PayloadCap);
    LeastCapMeans(ps, protocol, AttachmentCap);
    NoneRejectsMeans(ps, protocol);
  }

  /** The same in the fields of the policies: one without protocols applies to every destination; a deny
      or a dropped kind denies; the caps are the least ones set; and "reject" stops attachments. */
  lemma {:induction false} DecisionInFields(ps: seq<Policy>, kind: string, protocol: string)
    ensures var d := Decide(ps, kind, protocol);
            && (d.Deny? <==> exists p :: && p in ps && (p.protocols == [] || protocol in p.protocols)
                                         && (p.deny || kind in p.dropKinds))
            && (d.Allow? ==>
                 && (d.attachmentsAllowed <==>
                       !exists p :: && p in ps && (p.protocols == [] || protocol in p.protocols)
                                    && p.attachments.Some? && p.attachments.value == "reject")
                 && (forall p | p in ps && (p.protocols == [] || protocol in p.protocols) ::
                       && (p.maxPayload.Some? ==> d.maxPayload.Some? && d.maxPayload.value <= p.maxPayload.value)
                       && (p.maxAttachmentBytes.Some? ==>
                             && d.maxAttachmentBytes.Some?
                             && d.maxAttachmentBytes.value <= p.maxAttachmentBytes.value))
                 && (d.maxPayload.Some? ==>
                       exists p :: && p in ps && (p.protocols == [] || protocol in p.protocols)
                                   && p.maxPayload == d.maxPayload)
                 && (d.maxAttachmentBytes.Some? ==>
                       exists p :: && p in ps && (p.protocols == [] || protocol in p.protocols)
                                   && p.maxAttachmentBytes == d.maxAttachmentBytes))
  {
    DecisionMeans(ps, kind, protocol);
  }

  /** `a` lets through at most what `b` does. */
  predicate CapAtMost(a: Option<nat>, b: Option<nat>) {
    b.Some? ==> a.Some? && a.value <= b.value
  }

  predicate NoLooser(a: Decision, b: Decision) {
    a.Deny? ||
    (b.Allow?
     && CapAtMost(a.maxPayload, b.maxPayload)
     && CapAtMost(a.maxAttachmentBytes, b.maxAttachmentBytes)
     && (a.attachmentsAllowed ==> b.attachmentsAllowed))
  }

  /** Adding policies, anywhere in the list, never loosens the decision. */
  lemma {:induction false} MoreIsNoLooser(ps: seq<Policy>, qs: seq<Policy>, kind: string, protocol: string)
    requires forall p | p in ps :: p in qs
    ensures NoLooser(Decide(qs, kind, protocol), Decide(ps, kind, protocol))
  {
    DecisionMeans(ps, kind, protocol);
    DecisionMeans(qs, kind, protocol);
  }

  /** The decision does not depend on the order of the policies, nor on repetitions; only the
      name reported with a deny can. */
  lemma {:induction false} OrderDoesNotMatter(ps: seq<Policy>, qs: seq<Policy>, kind: string, protocol: string)
    requires forall p :: p in ps <==> p in qs
    ensures var d, e := Decide(ps, kind, protocol), Decide(qs, kind, protocol);
            (d.Deny? <==> e.Deny?) && (d.Allow? ==> d == e)
  {
    MoreIsNoLooser(ps, qs, kind, protocol);
    MoreIsNoLooser(qs, ps, kind, protocol);
  }

  // ---------- the admin view ----------

  predicate AppliesTo(p: Policy, destinations: seq<string>) {
    p.protocols == [] || exists i :: 0 <= i < |p.protocols| && p.protocols[i] in destinations
  }

  /** The policies whose names `policies_for_route` lists, in order, for a route to destinations
      with these protocols. */
  function ForRoute(ps: seq<Policy>, destinations: seq<string>): seq<Policy> {
    if ps == [] then []
    else
      var front := ForRoute(ps[..|ps| - 1], destinations);
      if AppliesTo(ps[|ps| - 1], destinations) then front + [ps[|ps| - 1]] else front
  }

  /** A policy that can match a destination of the route is on its list. */
  lemma {:induction false} MatchingApplies(p: Policy, destinations: seq<string>, protocol: string)
    requires protocol in destinations && Matches(p, protocol)
    ensures AppliesTo(p, destinations)
  {
    if p.protocols != [] {
      var i :| 0 <= i < |p.protocols| && p.protocols[i] == protocol;
      assert p.protocols[i] in destinations;
    }
  }

  /** Listed are exactly the policies that can match a destination of the route, or any destination. */
  lemma {:induction false} ListedIff(ps: seq<Policy>, destinations: seq<string>, p: Policy)
    ensures p in ForRoute(ps, destinations)
       <==> p in ps && (p.protocols == [] || exists protocol :: protocol in destinations && protocol in p.protocols)
  {
    if ps != [] {
      var front, last := ps[..|ps| - 1], ps[|ps| - 1];
      ListedIff(front, destinations, p);
      assert ps == front + [last];
      if p.protocols != [] && AppliesTo(p, destinations) {
        var i :| 0 <= i < |p.protocols| && p.protocols[i] in destinations;
        assert p.protocols[i] in p.protocols;
      }
      if protocol :| protocol in destinations && protocol in p.protocols {
        MatchingApplies(p, destinations, protocol);
      }
    }
  }

  /** They are listed in the order they are declared in. */
  lemma {:induction false} ListedInOrder(ps: seq<Policy>, qs: seq<Policy>, destinations: seq<string>)
    ensures ForRoute(ps + qs, destinations) == ForRoute(ps, destinations) + ForRoute(qs, destinations)
  {
    if qs == [] {
      assert ps + qs == ps;
    } else {
      ListedInOrder(ps, qs[..|qs| - 1], destinations);
      assert (ps + qs)[..|ps + qs| - 1] == ps + qs[..|qs| - 1];
    }
  }

  lemma {:induction false} RouteKeepsDeny(ps: seq<Policy>, destinations: seq<string>, kind: string, protocol: string)
    requires protocol in destinations
    ensures FirstDeny(ForRoute(ps, destinations), kind, protocol) == FirstDeny(ps, kind, protocol)
  {
    if ps != [] {
      var p := ps[|ps| - 1];
      RouteKeepsDeny(ps[..|ps| - 1], destinations, kind, protocol);
      var qs := ForRoute(ps[..|ps| - 1], destinations);
      assert (qs + [p])[..|qs|] == qs;
      if Matches(p, protocol) {
        MatchingApplies(p, destinations, protocol);
      }
    }
  }

  lemma {:induction false} RouteKeepsCap(
    ps: seq<Policy>, destinations: seq<string>, protocol: string, cap: Policy -> Option<nat>)
    requires protocol in destinations
    ensures LeastCap(ForRoute(ps, destinations), protocol, cap) == LeastCap(ps, protocol, cap)
  {
    if ps != [] {
      var p := ps[|ps| - 1];
      RouteKeepsCap(ps[..|ps| - 1], destinations, protocol, cap);
      var qs := ForRoute(ps[..|ps| - 1], destinations);
      assert (qs + [p])[..|qs|] == qs;
      if Matches(p, protocol) {
        MatchingApplies(p, destinations, protocol);
      }
    }
  }

  lemma {:induction false} RouteKeepsRejects(ps: seq<Policy>, destinations: seq<string>, protocol: string)
    requires protocol in destinations
    ensures NoneRejects(ForRoute(ps, destinations), protocol) <==> NoneRejects(ps, protocol)
  {
    if ps != [] {
      var p := ps[|ps| - 1];
      RouteKeepsRejects(ps[..|ps| - 1], destinations, protocol);
      var qs := ForRoute(ps[..|ps| - 1], destinations);
      assert (qs + [p])[..|qs|] == qs;
      if Matches(p, protocol) {
        MatchingApplies(p, destinations, protocol);
      }
    }
  }

  /** For every destination of a route, the policies the admin view lists for it decide exactly
      as all policies do, down to the policy named in a deny. */
  lemma {:induction false} AdminViewAgrees(ps: seq<Policy>, destinations: seq<string>, kind: string, protocol: string)
    requires protocol in destinations
    ensures Decide(ForRoute(ps, destinations), kind, protocol) == Decide(ps, kind, protocol)
  {
    RouteKeepsDeny(ps, destinations, kind, protocol);
    RouteKeepsCap(ps, destinations, protocol, PayloadCap);
    RouteKeepsCap(ps, destinations, protocol, AttachmentCap);
    RouteKeepsRejects(ps, destinations, protocol);
  }
}
