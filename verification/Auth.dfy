/** The passkey store of the admin UI (relayfabric-ui/src/auth.rs) and the gate in front of it
    (relayfabric-ui/src/main.rs, `auth_endpoint`).

    Each method is one whole call. Signature, clientData and attestation checks are parameters,
    as are the random tokens, the clock and whether the store could be written to disk. */
module Auth {
  import opened Common

  datatype Role = Viewer | Operator | RouteAdmin | IdentityAdmin | SecurityAdmin | Administrator

  datatype Purpose = Register | Login

  datatype Credential = Credential(id: string, counter: nat, role: Role)

  datatype Session = Session(credId: string, role: Role, expires: int)

  datatype Challenge = Challenge(bytes: string, purpose: Purpose, expires: int)

  datatype Error =
    | BadChallenge | BadClientData | BadAttestation | SetupDone | AlreadyRegistered | NotPersisted
    | UnknownCredential | BadAssertion | CounterRegressed | LastAdministrator | Forbidden | Malformed

  datatype Result<+T> = Ok(value: T) | Err(error: Error)

  const MAX_CHALLENGES: nat := 4096
  const MAX_SESSIONS: nat := 4096
  const CHALLENGE_TTL: int := 300_000_000_000
  const SESSION_TTL: int := 43_200_000_000_000

  // ---------- signature counters ----------

  /** The comparison of section 7.2 of W3C Web Authentication Level 2: counts are compared unless
      the reported and the stored one are both zero. */
  predicate Regressed(counter: nat, stored: nat) {
    (counter != 0 || stored != 0) && counter <= stored
  }

  /** Zeros, possible only above an attested zero, then strictly increasing above `attested`. */
  ghost predicate Ladder(attested: nat, counts: seq<nat>) {
    exists z :: LadderFrom(attested, counts, z)
  }

  ghost predicate LadderFrom(attested: nat, counts: seq<nat>, z: nat) {
    && z <= |counts|
    && (z > 0 ==> attested == 0)
    && (forall i | 0 <= i < z :: counts[i] == 0)
    && (forall i | z <= i < |counts| :: counts[i] > attested)
    && (forall i, j | z <= i < j < |counts| :: counts[i] < counts[j])
  }

  /** The count a new one is compared with. */
  function Stored(attested: nat, counts: seq<nat>): nat {
    if counts == [] then attested else counts[|counts| - 1]
  }

  lemma {:induction false} LadderGrows(attested: nat, counts: seq<nat>, counter: nat)
    requires Ladder(attested, counts) && !Regressed(counter, Stored(attested, counts))
    ensures Ladder(attested, counts + [counter])
  {
    var longer := counts + [counter];
    var z :| LadderFrom(attested, counts, z);
    if counter == 0 {
      assert z == |counts|;
      assert LadderFrom(attested, longer, |counts| + 1);
    } else {
      assert LadderFrom(attested, longer, z);
    }
  }

  lemma {:induction false} LadderAdmits(attested: nat, counts: seq<nat>, counter: nat)
    requires Ladder(attested, counts + [counter])
    ensures !Regressed(counter, Stored(attested, counts))
  {
    var longer := counts + [counter];
    var z :| LadderFrom(attested, longer, z);
    assert longer[|counts|] == counter;
    assert counts != [] ==> longer[|counts| - 1] == Stored(attested, counts);
  }

  /** A count passes the comparison exactly when the accepted counts stay a ladder with it. */
  lemma {:induction false} AcceptedIffLadder(attested: nat, counts: seq<nat>, counter: nat)
    requires Ladder(attested, counts)
    ensures !Regressed(counter, Stored(attested, counts)) <==> Ladder(attested, counts + [counter])
  {
    if !Regressed(counter, Stored(attested, counts)) {
      LadderGrows(attested, counts, counter);
    } else if Ladder(attested, counts + [counter]) {
      LadderAdmits(attested, counts, counter);
    }
  }

  /** Each count passed when it came in. */
  predicate AllPass(attested: nat, counts: seq<nat>) {
    counts == [] ||
    (AllPass(attested, counts[..|counts| - 1])
     && !Regressed(counts[|counts| - 1], Stored(attested, counts[..|counts| - 1])))
  }

  /** The accepted counts of a credential are zeros followed by a strictly increasing sequence
      above the attested count. */
  lemma {:induction false} AllPassIsLadder(attested: nat, counts: seq<nat>)
    ensures AllPass(attested, counts) <==> Ladder(attested, counts)
  {
    if counts == [] {
      assert LadderFrom(attested, [], 0);
    } else {
      var front, last := counts[..|counts| - 1], counts[|counts| - 1];
      assert counts == front + [last];
      AllPassIsLadder(attested, front);
      if Ladder(attested, counts) {
        LadderFront(attested, front, last);
      }
      if Ladder(attested, front) {
        AcceptedIffLadder(attested, front, last);
      }
    }
  }

  lemma {:induction false} LadderFront(attested: nat, front: seq<nat>, last: nat)
    requires Ladder(attested, front + [last])
    ensures Ladder(attested, front)
  {
    var longer := front + [last];
    var z: nat :| LadderFrom(attested, longer, z);
    assert forall i | 0 <= i < |front| :: front[i] == longer[i];
    assert LadderFrom(attested, front, if z <= |front| then z else |front|);
  }

  // ---------- what the store keeps ----------

  /** The position of a credential id; the length of the list when it is not there. */
  function IndexOf(creds: seq<Credential>, id: string): nat {
    if creds == [] || creds[0].id == id then 0 else 1 + IndexOf(creds[1..], id)
  }

  function RoleOf(creds: seq<Credential>, id: string): Option<Role> {
    if IndexOf(creds, id) < |creds| then Some(creds[IndexOf(creds, id)].role) else None
  }

  function Administrators(creds: seq<Credential>): nat {
    if creds == [] then 0
    else Administrators(creds[..|creds| - 1]) + if creds[|creds| - 1].role == Administrator then 1 else 0
  }

  ghost predicate UniqueIds(creds: seq<Credential>) {
    forall i, j | 0 <= i < j < |creds| :: creds[i].id != creds[j].id
  }

  /** Unique ids, and an administrator as soon as there is anyone. */
  ghost predicate CredsOk(creds: seq<Credential>) {
    UniqueIds(creds) && (creds != [] ==> Administrators(creds) > 0)
  }

  /** Every session names a stored credential and has its role. */
  ghost predicate SessionsOk(creds: seq<Credential>, sessions: map<string, Session>) {
    forall t | t in sessions :: RoleOf(creds, sessions[t].credId) == Some(sessions[t].role)
  }

  /** Every outstanding challenge was issued for its purpose and not yet redeemed. */
  ghost predicate ChallengesOk(
    challenges: map<string, Challenge>, issued: map<string, Purpose>, redeemed: set<string>)
  {
    && (forall t | t in challenges :: t in issued && issued[t] == challenges[t].purpose && t !in redeemed)
    && (forall t | t in redeemed :: t in issued)
  }

  /** The life of one credential id: the attested count and the counts accepted since. */
  datatype History = History(attested: nat, counts: seq<nat>)

  ghost predicate CountersOk(creds: seq<Credential>, histories: map<string, History>) {
    forall i | 0 <= i < |creds| :: CounterOk(creds[i], histories)
  }

  ghost predicate CounterOk(c: Credential, histories: map<string, History>) {
    && c.id in histories
    && AllPass(histories[c.id].attested, histories[c.id].counts)
    && c.counter == Stored(histories[c.id].attested, histories[c.id].counts)
  }

  // ---------- bounded maps ----------

  /** In a finite non-empty map something expires first. */
  lemma {:induction false} SomeOldest<V>(m: map<string, V>, expiry: V -> int) returns (k: string)
    requires m != map[]
    ensures k in m && forall j | j in m :: expiry(m[k]) <= expiry(m[j])
    decreases |m|
  {
    k :| k in m;
    if m - {k} != map[] {
      var l := SomeOldest(m - {k}, expiry);
      if expiry(m[l]) < expiry(m[k]) {
        assert forall j | j in m && j != k :: j in m - {k};
        k := l;
      } else {
        assert forall j | j in m && j != k :: j in m - {k};
      }
    }
  }

  /** The eviction loop of `new_challenge` and `login`: make room by dropping what expires first. */
  method Evict<V>(m: map<string, V>, expiry: V -> int, cap: nat) returns (r: map<string, V>)
    requires cap >= 1
    ensures forall k | k in r :: k in m && r[k] == m[k]
    ensures forall k, j | k in r && j in m && j !in r :: expiry(m[j]) <= expiry(m[k])
    ensures |m| < cap ==> r == m
    ensures |r| == Min(|m|, cap - 1)
  {
    r := m;
    while |r| >= cap
      invariant forall k | k in r :: k in m && r[k] == m[k]
      invariant forall k, j | k in r && j in m && j !in r :: expiry(m[j]) <= expiry(m[k])
      invariant |m| < cap ==> r == m
      invariant Min(|m|, cap - 1) <= |r| <= |m|
      decreases |r|
    {
      assert r != map[];
      ghost var first := SomeOldest(r, expiry);
      var oldest :| oldest in r && forall j | j in r :: expiry(r[oldest]) <= expiry(r[j]);
      r := r - {oldest};
    }
  }

  function SessionExpiry(s: Session): int { s.expires }

  function ChallengeExpiry(c: Challenge): int { c.expires }

  // ---------- credential lists ----------

  lemma {:induction false} IndexOfMeans(creds: seq<Credential>, id: string)
    ensures IndexOf(creds, id) <= |creds|
    ensures IndexOf(creds, id) < |creds| ==> creds[IndexOf(creds, id)].id == id
    ensures forall j | 0 <= j < IndexOf(creds, id) :: creds[j].id != id
  {
    if creds != [] && creds[0].id != id {
      IndexOfMeans(creds[1..], id);
      assert forall j | 1 <= j < |creds| :: creds[j] == creds[1..][j - 1];
    }
  }

  lemma {:induction false} IndexOfUnique(creds: seq<Credential>, i: nat)
    requires UniqueIds(creds) && i < |creds|
    ensures IndexOf(creds, creds[i].id) == i && RoleOf(creds, creds[i].id) == Some(creds[i].role)
  {
    IndexOfMeans(creds, creds[i].id);
  }

  lemma {:induction false} AdministratorsConcat(a: seq<Credential>, b: seq<Credential>)
    ensures Administrators(a + b) == Administrators(a) + Administrators(b)
  {
    if b == [] {
      assert a + b == a;
    } else {
      var n := |b| - 1;
      AdministratorsConcat(a, b[..n]);
      assert (a + b)[..|a + b| - 1] == a + b[..n];
    }
  }

  lemma {:induction false} AdministratorsMeans(creds: seq<Credential>)
    ensures Administrators(creds) > 0 <==> exists i :: 0 <= i < |creds| && creds[i].role == Administrator
  {
    if creds != [] {
      var n := |creds| - 1;
      AdministratorsMeans(creds[..n]);
      assert forall i | 0 <= i < n :: creds[..n][i] == creds[i];
    }
  }

  function Without(creds: seq<Credential>, i: nat): seq<Credential>
    requires i < |creds|
  {
    creds[..i] + creds[i + 1..]
  }

  lemma {:induction false} RemovalCount(creds: seq<Credential>, i: nat)
    requires i < |creds|
    ensures Administrators(creds) == Administrators(Without(creds, i)) + if creds[i].role == Administrator then 1 else 0
  {
    var head, one, tail := creds[..i], [creds[i]], creds[i + 1..];
    assert creds == head + (one + tail);
    AdministratorsConcat(head, one + tail);
    AdministratorsConcat(one, tail);
    AdministratorsConcat(head, tail);
    assert one[..0] == [];
  }

  lemma {:induction false} RemovalKeepsUnique(creds: seq<Credential>, i: nat)
    requires i < |creds| && UniqueIds(creds)
    ensures UniqueIds(Without(creds, i))
    ensures forall j | 0 <= j < |creds| - 1 :: Without(creds, i)[j].id != creds[i].id
  {
    var rest := Without(creds, i);
    assert forall j | 0 <= j < |rest| :: rest[j] == creds[if j < i then j else j + 1];
  }

  /** Taking out a credential other than the last administrator leaves an administrator. */
  lemma {:induction false} RemovalKeepsAdmin(creds: seq<Credential>, i: nat)
    requires CredsOk(creds) && i < |creds|
    requires !(creds[i].role == Administrator && Administrators(creds) == 1)
    ensures CredsOk(Without(creds, i)) && Without(creds, i) != []
  {
    RemovalCount(creds, i);
    RemovalKeepsUnique(creds, i);
  }

  lemma {:induction false} RemovalKeepsRole(creds: seq<Credential>, i: nat, id: string)
    requires UniqueIds(creds) && i < |creds| && RoleOf(creds, id).Some? && id != creds[i].id
    ensures RoleOf(Without(creds, i), id) == RoleOf(creds, id)
  {
    IndexOfMeans(creds, id);
    var j := IndexOf(creds, id);
    var k := if j < i then j else j - 1;
    assert Without(creds, i)[k] == creds[j];
    RemovalKeepsUnique(creds, i);
    IndexOfUnique(Without(creds, i), k);
  }

  /** The sessions left when those of a credential are revoked. */
  function Revoked<V>(sessions: map<string, V>, owner: V -> string, id: string): map<string, V> {
    map t | t in sessions && owner(sessions[t]) != id :: sessions[t]
  }

  function SessionOwner(s: Session): string { s.credId }

  lemma {:induction false} PushKeepsCreds(creds: seq<Credential>, c: Credential)
    requires CredsOk(creds) && IndexOf(creds, c.id) >= |creds| && (creds == [] ==> c.role == Administrator)
    ensures CredsOk(creds + [c])
  {
    IndexOfMeans(creds, c.id);
    assert (creds + [c])[..|creds|] == creds;
  }

  lemma {:induction false} PushRole(creds: seq<Credential>, c: Credential, id: string)
    requires UniqueIds(creds + [c])
    ensures RoleOf(creds + [c], id) == if c.id == id then Some(c.role) else RoleOf(creds, id)
  {
    var longer := creds + [c];
    IndexOfMeans(creds, id);
    IndexOfMeans(longer, id);
    if c.id == id {
      IndexOfUnique(longer, |creds|);
    } else if IndexOf(creds, id) < |creds| {
      IndexOfUnique(longer, IndexOf(creds, id));
    }
  }

  // ---------- constant-time comparison ----------

  /** `ct_eq`: one pass that accumulates differences, equal to plain equality. */
  method CtEq(a: seq<bv8>, b: seq<bv8>) returns (r: bool)
    ensures r <==> a == b
  {
    if |a| != |b| {
      return false;
    }
    var diff: bv8 := 0;
    for i := 0 to |a|
      invariant diff == 0 <==> a[..i] == b[..i]
    {
      assert a[..i + 1] == a[..i] + [a[i]] && b[..i + 1] == b[..i] + [b[i]];
      OrXor(diff, a[i], b[i]);
      diff := diff | (a[i] ^ b[i]);
    }
    assert a[..|a|] == a && b[..|b|] == b;
    r := diff == 0;
  }

  lemma {:induction false} OrXor(d: bv8, x: bv8, y: bv8)
    ensures d | (x ^ y) == 0 <==> d == 0 && x == y
  {
  }
}
