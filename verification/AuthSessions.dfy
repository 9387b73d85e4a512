/** Sessions under interleaving (relayfabric-ui/src/auth.rs): `login` checks the credential and
    stores its count in one lock section and opens the session in a later one, and credentials
    may be removed, and registered again, in between. Removal revokes the sessions there are.

    The list of all registrations and removals says exactly which sessions are linked. */
module AuthSessions {
  import opened Common
  import opened Auth

  datatype Change = Registered(id: string, role: Role) | Removed(id: string)

  /** A login between its two sections; `from` counts the changes before the first. */
  datatype Pending = Pending(credId: string, role: Role, from: nat)

  /** A session, with the changes before the first and before the second section of its login. */
  datatype Opened = Opened(credId: string, role: Role, from: nat, until: nat)

  datatype State = State(
    creds: seq<Credential>, sessions: map<string, Opened>, pending: map<nat, Pending>, changes: seq<Change>)

  datatype Event =
    | Push(cred: Credential)
    | Check(id: nat, credId: string)
    | Open(id: nat, tok: string)
    | Remove(credId: string)
    | Drop(tok: string) // expired, evicted or logged out

  predicate Enabled(s: State, e: Event) {
    match e
    case Push(c) => IndexOf(s.creds, c.id) >= |s.creds| && (s.creds == [] ==> c.role == Administrator)
    case Check(id, credId) => id !in s.pending && IndexOf(s.creds, credId) < |s.creds|
    case Open(id, tok) => id in s.pending && tok !in s.sessions
    case Remove(credId) =>
      var i := IndexOf(s.creds, credId);
      i < |s.creds| && !(s.creds[i].role == Administrator && Administrators(s.creds) == 1)
    case Drop(tok) => tok in s.sessions
  }

  function OpenedOwner(o: Opened): string { o.credId }

  function Step(s: State, e: Event): State
    requires Enabled(s, e)
  {
    match e
    case Push(c) => s.(creds := s.creds + [c], changes := s.changes + [Registered(c.id, c.role)])
    case Check(id, credId) =>
      s.(pending := s.pending[id := Pending(credId, s.creds[IndexOf(s.creds, credId)].role, |s.changes|)])
    case Open(id, tok) =>
      var p := s.pending[id];
      s.(sessions := s.sessions[tok := Opened(p.credId, p.role, p.from, |s.changes|)], pending := s.pending - {id})
    case Remove(credId) =>
      State(Without(s.creds, IndexOf(s.creds, credId)), Revoked(s.sessions, OpenedOwner, credId), s.pending,
            s.changes + [Removed(credId)])
    case Drop(tok) => s.(sessions := s.sessions - {tok})
  }

  // ---------- what the changes say ----------

  /** The role the changes leave a credential id with. */
  function LastRole(changes: seq<Change>, id: string): Option<Role> {
    if changes == [] then None
    else
      var c := changes[|changes| - 1];
      if c.id != id then LastRole(changes[..|changes| - 1], id)
      else if c.Registered? then Some(c.role) else None
  }

  /** An id is registered only while it is not stored. */
  ghost predicate Proper(changes: seq<Change>) {
    forall n | 0 <= n < |changes| :: changes[n].Registered? ==> LastRole(changes[..n], changes[n].id) == None
  }

  ghost predicate RemovedIn(changes: seq<Change>, id: string, a: nat, b: nat) {
    exists n :: a <= n < b && n < |changes| && changes[n] == Removed(id)
  }

  /** The last change of `id`, made since `from`, registered it with `role`. */
  ghost predicate RegisteredAgain(changes: seq<Change>, id: string, role: Role, from: nat) {
    exists n :: from <= n < |changes| && changes[n] == Registered(id, role) && LastAbout(changes, id, n)
  }

  ghost predicate LastAbout(changes: seq<Change>, id: string, n: nat) {
    n < |changes| && changes[n].id == id && forall m | n < m < |changes| :: changes[m].id != id
  }

  lemma {:induction false} LastRoleSnoc(changes: seq<Change>, c: Change, id: string)
    ensures LastRole(changes + [c], id)
         == if c.id != id then LastRole(changes, id) else if c.Registered? then Some(c.role) else None
  {
    assert (changes + [c])[..|changes|] == changes;
  }

  lemma {:induction false} FindLast(changes: seq<Change>, id: string, k: nat) returns (n: nat)
    requires k < |changes| && changes[k].id == id
    ensures k <= n && LastAbout(changes, id, n)
    ensures LastRole(changes, id) == if changes[n].Registered? then Some(changes[n].role) else None
  {
    n := |changes| - 1;
    if changes[n].id != id {
      n := FindLast(changes[..n], id, k);
      assert forall m | 0 <= m < |changes| - 1 :: changes[..|changes| - 1][m] == changes[m];
    }
  }

  /** Without a removal the id keeps the role it had. */
  lemma {:induction false} RoleStays(changes: seq<Change>, id: string, role: Role, from: nat)
    requires Proper(changes) && from <= |changes| && LastRole(changes[..from], id) == Some(role)
    requires !RemovedIn(changes, id, from, |changes|)
    ensures LastRole(changes, id) == Some(role)
    decreases |changes|
  {
    var n := |changes| - 1;
    if from == |changes| {
      assert changes[..from] == changes;
    } else {
      var front := changes[..n];
      assert forall m | 0 <= m < n :: front[m] == changes[m] && front[..m] == changes[..m];
      assert front[..from] == changes[..from];
      RoleStays(front, id, role, from);
      assert changes[n] != Removed(id);
    }
  }

  /** What the last change left, in terms of a removal since `from`. */
  lemma {:induction false} RoleAfterRemoval(changes: seq<Change>, id: string, role: Role, from: nat)
    requires RemovedIn(changes, id, from, |changes|)
    ensures LastRole(changes, id) == Some(role) <==> RegisteredAgain(changes, id, role, from)
  {
    var k :| from <= k < |changes| && changes[k] == Removed(id);
    var n := FindLast(changes, id, k);
    if RegisteredAgain(changes, id, role, from) {
      var m :| from <= m < |changes| && changes[m] == Registered(id, role) && LastAbout(changes, id, m);
      assert m == n;
    }
  }

  // ---------- what every step keeps ----------

  ghost predicate Tracked(creds: seq<Credential>, changes: seq<Change>) {
    forall id :: RoleOf(creds, id) == LastRole(changes, id)
  }

  ghost predicate PendingOk(p: Pending, changes: seq<Change>) {
    p.from <= |changes| && LastRole(changes[..p.from], p.credId) == Some(p.role)
  }

  /** A session in the map has not lost its credential since it was opened. */
  ghost predicate OpenedOk(o: Opened, changes: seq<Change>) {
    && o.from <= o.until <= |changes| && LastRole(changes[..o.from], o.credId) == Some(o.role)
    && !RemovedIn(changes, o.credId, o.until, |changes|)
  }

  ghost predicate Inv(s: State) {
    && CredsOk(s.creds) && Proper(s.changes) && Tracked(s.creds, s.changes)
    && (forall id | id in s.pending :: PendingOk(s.pending[id], s.changes))
    && (forall t | t in s.sessions :: OpenedOk(s.sessions[t], s.changes))
  }

  lemma {:induction false} PendingLater(p: Pending, changes: seq<Change>, c: Change)
    requires PendingOk(p, changes)
    ensures PendingOk(p, changes + [c])
  {
    assert (changes + [c])[..p.from] == changes[..p.from];
  }

  lemma {:induction false} OpenedLater(o: Opened, changes: seq<Change>, c: Change)
    requires OpenedOk(o, changes) && c != Removed(o.credId)
    ensures OpenedOk(o, changes + [c])
  {
    assert (changes + [c])[..o.from] == changes[..o.from];
  }

  lemma {:induction false} ProperSnoc(changes: seq<Change>, c: Change)
    requires Proper(changes) && (c.Registered? ==> LastRole(changes, c.id) == None)
    ensures Proper(changes + [c])
  {
    var longer := changes + [c];
    forall n | 0 <= n < |longer| && longer[n].Registered? ensures LastRole(longer[..n], longer[n].id) == None {
      assert longer[..n] == changes[..n];
      assert changes[..|changes|] == changes;
    }
  }

  lemma {:induction false} PushKeepsInv(s: State, c: Credential)
    requires Inv(s) && Enabled(s, Push(c))
    ensures Inv(Step(s, Push(c)))
  {
    hide LastRole, OpenedOk, PendingOk, Administrators;
    var change := Registered(c.id, c.role);
    PushTracked(s.creds, s.changes, c);
    assert RoleOf(s.creds, c.id) == None;
    ProperSnoc(s.changes, change);
    forall id | id in s.pending ensures PendingOk(s.pending[id], s.changes + [change]) {
      PendingLater(s.pending[id], s.changes, change);
    }
    forall t | t in s.sessions ensures OpenedOk(s.sessions[t], s.changes + [change]) {
      OpenedLater(s.sessions[t], s.changes, change);
    }
  }

  lemma {:induction false} PushTracked(creds: seq<Credential>, changes: seq<Change>, c: Credential)
    requires CredsOk(creds) && Tracked(creds, changes)
    requires IndexOf(creds, c.id) >= |creds| && (creds == [] ==> c.role == Administrator)
    ensures CredsOk(creds + [c]) && Tracked(creds + [c], changes + [Registered(c.id, c.role)])
  {
    PushKeepsCreds(creds, c);
    forall id ensures RoleOf(creds + [c], id) == LastRole(changes + [Registered(c.id, c.role)], id) {
      LastRoleSnoc(changes, Registered(c.id, c.role), id);
      assert RoleOf(creds, id) == LastRole(changes, id);
      PushRole(creds, c, id);
    }
  }

  lemma {:induction false} RemoveTracked(creds: seq<Credential>, changes: seq<Change>, i: nat)
    requires CredsOk(creds) && Tracked(creds, changes) && i < |creds|
    ensures Tracked(Without(creds, i), changes + [Removed(creds[i].id)])
  {
    var rest := Without(creds, i);
    RemovalKeepsUnique(creds, i);
    forall id ensures RoleOf(rest, id) == LastRole(changes + [Removed(creds[i].id)], id) {
      LastRoleSnoc(changes, Removed(creds[i].id), id);
      assert RoleOf(creds, id) == LastRole(changes, id);
      RemoveRole(creds, i, id);
    }
  }

  lemma {:induction false} RemoveRole(creds: seq<Credential>, i: nat, id: string)
    requires UniqueIds(creds) && i < |creds|
    ensures RoleOf(Without(creds, i), id) == if creds[i].id == id then None else RoleOf(creds, id)
  {
    var rest := Without(creds, i);
    RemovalKeepsUnique(creds, i);
    IndexOfMeans(rest, id);
    IndexOfMeans(creds, id);
    if creds[i].id != id && RoleOf(creds, id).Some? {
      RemovalKeepsRole(creds, i, id);
    }
    assert forall j | 0 <= j < |rest| :: rest[j] == creds[if j < i then j else j + 1];
  }

  lemma {:induction false} RemoveKeepsInv(s: State, credId: string)
    requires Inv(s) && Enabled(s, Remove(credId))
    ensures Inv(Step(s, Remove(credId)))
  {
    hide LastRole, OpenedOk, PendingOk, Administrators, CredsOk;
    var i := IndexOf(s.creds, credId);
    IndexOfMeans(s.creds, credId);
    RemovalKeepsAdmin(s.creds, i);
    RemoveTracked(s.creds, s.changes, i);
    ProperSnoc(s.changes, Removed(credId));
    forall id | id in s.pending ensures PendingOk(s.pending[id], s.changes + [Removed(credId)]) {
      PendingLater(s.pending[id], s.changes, Removed(credId));
    }
    forall t | t in Revoked(s.sessions, OpenedOwner, credId)
      ensures OpenedOk(s.sessions[t], s.changes + [Removed(credId)])
    {
      OpenedLater(s.sessions[t], s.changes, Removed(credId));
    }
  }

  lemma {:induction false} StepKeepsInv(s: State, e: Event)
    requires Inv(s) && Enabled(s, e)
    ensures Inv(Step(s, e))
  {
    match e
    case Push(c) => PushKeepsInv(s, c);
    case Remove(credId) => RemoveKeepsInv(s, credId);
    case Check(id, credId) =>
      hide CredsOk, Proper, OpenedOk;
      assert s.changes[..|s.changes|] == s.changes;
      assert RoleOf(s.creds, credId) == LastRole(s.changes, credId);
    case Open(id, tok) =>
      hide CredsOk, Proper, Tracked;
      assert PendingOk(s.pending[id], s.changes);
    case Drop(tok) =>
      hide CredsOk, Proper, Tracked, OpenedOk, PendingOk;
  }

  // ---------- which sessions are linked ----------

  ghost predicate IsRun(run: seq<State>, events: seq<Event>) {
    && |run| == |events| + 1 && run[0] == State([], map[], map[], [])
    && forall i | 0 <= i < |events| :: Enabled(run[i], events[i]) && run[i + 1] == Step(run[i], events[i])
  }

  lemma {:induction false} RunKeepsInv(run: seq<State>, events: seq<Event>, i: nat)
    requires IsRun(run, events) && i < |run|
    ensures Inv(run[i])
  {
    if i > 0 {
      RunKeepsInv(run, events, i - 1);
      StepKeepsInv(run[i - 1], events[i - 1]);
    }
  }

  /** In every interleaving a session names a stored credential with its role exactly if no
      removal of that id fell between the two sections of its login, or the id has been
      registered again with that role since. */
  lemma {:induction false} LinkedIff(run: seq<State>, events: seq<Event>, i: nat, tok: string)
    requires IsRun(run, events) && i < |run| && tok in run[i].sessions
    ensures var s, o := run[i], run[i].sessions[tok];
            RoleOf(s.creds, o.credId) == Some(o.role)
            <==> || !RemovedIn(s.changes, o.credId, o.from, o.until)
                 || RegisteredAgain(s.changes, o.credId, o.role, o.from)
  {
    hide Inv, RegisteredAgain, LastRole;
    RunKeepsInv(run, events, i);
    SessionOfInv(run[i], tok);
    var s, o := run[i], run[i].sessions[tok];
    if RemovedIn(s.changes, o.credId, o.from, o.until) {
      assert RemovedIn(s.changes, o.credId, o.from, |s.changes|);
      RoleAfterRemoval(s.changes, o.credId, o.role, o.from);
    } else {
      RoleStays(s.changes, o.credId, o.role, o.from);
    }
  }

  lemma {:induction false} SessionOfInv(s: State, tok: string)
    requires Inv(s) && tok in s.sessions
    ensures OpenedOk(s.sessions[tok], s.changes) && Proper(s.changes)
    ensures RoleOf(s.creds, s.sessions[tok].credId) == LastRole(s.changes, s.sessions[tok].credId)
  {
  }

  /** A session stays, as it is, until it is dropped or its own credential is removed. */
  lemma {:induction false} SessionStays(s: State, e: Event, tok: string)
    requires Enabled(s, e) && tok in s.sessions
    ensures var s' := Step(s, e);
            if e == Drop(tok) || e == Remove(s.sessions[tok].credId) then tok !in s'.sessions
            else tok in s'.sessions && s'.sessions[tok] == s.sessions[tok]
  {
  }

  /** So in every run it is there exactly as long as neither has happened since. */
  lemma {:induction false} ThereIff(run: seq<State>, events: seq<Event>, i: nat, j: nat, tok: string)
    requires IsRun(run, events) && i <= j < |run| && tok in run[i].sessions
    requires forall n | i <= n < j :: !(events[n].Open? && events[n].tok == tok)
    ensures tok in run[j].sessions
       <==> forall n | i <= n < j :: events[n] != Drop(tok) && events[n] != Remove(run[i].sessions[tok].credId)
    ensures tok in run[j].sessions ==> run[j].sessions[tok] == run[i].sessions[tok]
    decreases j
  {
    if i < j {
      ThereIff(run, events, i, j - 1, tok);
      if tok in run[j - 1].sessions {
        SessionStays(run[j - 1], events[j - 1], tok);
      }
    }
  }

  lemma {:induction false} Extend(run: seq<State>, events: seq<Event>, e: Event)
    returns (run': seq<State>, events': seq<Event>)
    requires IsRun(run, events) && Enabled(run[|events|], e)
    ensures IsRun(run', events') && |run'| == |events'| + 1 && run'[|events'|] == Step(run[|events|], e)
  {
    hide Enabled, Step;
    run', events' := run + [Step(run[|events|], e)], events + [e];
  }

  /** The gap is real: a removal between the sections leaves a session, of any role, whose
      credential is stored no more. */
  lemma {:induction false} RemovalInTheGap(role: Role) returns (run: seq<State>, events: seq<Event>)
    ensures IsRun(run, events) && |run| == |events| + 1
    ensures var s := run[|events|];
            "t" in s.sessions && s.sessions["t"].role == role && RoleOf(s.creds, s.sessions["t"].credId) == None
  {
    var a, b := Credential("a", 0, Administrator), Credential("b", 0, role);
    run, events := [State([], map[], map[], [])], [];
    run, events := Extend(run, events, Push(a));
    assert [] + [a] == [a];
    run, events := Extend(run, events, Push(b));
    assert [a] + [b] == [a, b];
    assert run[|events|].creds == [a, b];
    TwoCreds(a, b);
    run, events := Extend(run, events, Check(0, "b"));
    run, events := Extend(run, events, Remove("b"));
    run, events := Extend(run, events, Open(0, "t"));
  }

  lemma {:induction false} TwoCreds(a: Credential, b: Credential)
    requires a.id != b.id && a.role == Administrator
    ensures IndexOf([a, b], b.id) == 1 && Without([a, b], 1) == [a] && RoleOf([a], b.id) == None
    ensures b.role == Administrator ==> Administrators([a, b]) == 2
  {
    assert [a, b][1..] == [b] && [a, b][..1] == [a] && [a][1..] == [];
    assert Administrators([a]) == 1 by {
      assert [a][..0] == [];
    }
  }
}
