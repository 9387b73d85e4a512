/** The passkey store as an object, and the endpoints that guard it. `Valid` is kept by every
    call, so it holds in every run from an empty store. `Linked` (every session names a stored
    credential with its role) is kept by every call that runs undisturbed; `login` has two lock
    sections, and AuthSessions says exactly when a session stays linked if others come between. */
module AuthStore {
  import opened Common
  import opened Auth

  /** A challenge token is good for one redemption, for its purpose, until it expires. */
  predicate Redeems(challenges: map<string, Challenge>, tok: string, purpose: Purpose, now: int) {
    tok in challenges && challenges[tok].purpose == purpose && challenges[tok].expires > now
  }

  /** What a registration ceremony presents: the clientData check against the challenge, and the
      parsed attestation (credential id and attested count), if it parses. */
  datatype Ceremony = Ceremony(tok: string, client: string -> bool, attestation: Option<(string, nat)>)

  /** The first check of a registration, in the order they are made, that fails. */
  function RegisterFault(
    challenges: map<string, Challenge>, creds: seq<Credential>, c: Ceremony, requireEmpty: bool, now: int)
    : Option<Error>
  {
    if !Redeems(challenges, c.tok, Purpose.Register, now) then Some(BadChallenge)
    else if !c.client(challenges[c.tok].bytes) then Some(BadClientData)
    else if c.attestation.None? then Some(BadAttestation)
    else if requireEmpty && creds != [] then Some(SetupDone)
    else if IndexOf(creds, c.attestation.value.0) < |creds| then Some(AlreadyRegistered)
    else None
  }

  /** The record an accepted registration adds: the first is always an administrator's, later
      ones take the role asked for, viewer by default. */
  function NewCredential(body: (Ceremony, Option<Role>), bootstrap: bool): Credential
    requires body.0.attestation.Some?
  {
    Credential(body.0.attestation.value.0, body.0.attestation.value.1,
               if bootstrap then Administrator else if body.1.Some? then body.1.value else Viewer)
  }

  /** The outcome of a registration that got past the gate, and the list after it. */
  predicate Posted(
    challenges: map<string, Challenge>, creds: seq<Credential>, body: (Ceremony, Option<Role>), bootstrap: bool,
    persisted: bool, now: int, r: Result<string>, after: seq<Credential>)
  {
    var fault := RegisterFault(challenges, creds, body.0, bootstrap, now);
    if fault.Some? then r == Err(fault.value) && after == creds
    else
      && r == (if persisted then Ok(body.0.attestation.value.0) else Err(NotPersisted))
      && after == creds + [NewCredential(body, bootstrap)]
  }

  /** The one credential added is the attested one, with the role asked for, viewer by default. */
  ghost predicate AddsAsked(creds: seq<Credential>, body: (Ceremony, Option<Role>), after: seq<Credential>) {
    && body.0.attestation.Some? && |after| == |creds| + 1 && after[..|creds|] == creds
    && var c := after[|creds|];
       && c.id == body.0.attestation.value.0 && c.counter == body.0.attestation.value.1
       && match body.1 case None => c.role == Viewer case Some(role) => c.role == role
  }

  /** What a login presents: the clientData check and the signature check, which yields the
      reported count. */
  datatype Assertion = Assertion(tok: string, id: string, client: string -> bool, verify: Credential -> Option<nat>)

  /** The first check of a login that fails. */
  function LoginFault(
    challenges: map<string, Challenge>, creds: seq<Credential>, a: Assertion, now: int): Option<Error>
  {
    if !Redeems(challenges, a.tok, Purpose.Login, now) then Some(BadChallenge)
    else if !a.client(challenges[a.tok].bytes) then Some(BadClientData)
    else if IndexOf(creds, a.id) >= |creds| then Some(UnknownCredential)
    else
      var cred := creds[IndexOf(creds, a.id)];
      if a.verify(cred).None? then Some(BadAssertion)
      else if Regressed(a.verify(cred).value, cred.counter) then Some(CounterRegressed)
      else None
  }

  /** The redeemed tokens after an attempt with `tok`. */
  function Spent(challenges: map<string, Challenge>, redeemed: set<string>, tok: string, purpose: Purpose, now: int)
    : set<string>
  {
    if Redeems(challenges, tok, purpose, now) then redeemed + {tok} else redeemed
  }

  /** `after` is `before` with a new entry: expired entries are gone, and unexpired ones are
      dropped only at the cap, only as many as needed, and those that expire first. */
  ghost predicate Admitted<V(!new)>(
    before: map<string, V>, after: map<string, V>, expiry: V -> int, tok: string, v: V, cap: nat, now: int)
    requires cap >= 1
  {
    && tok in after && after[tok] == v
    && (forall t | t in after && t != tok :: t in before && after[t] == before[t] && expiry(before[t]) > now)
    && (forall t, k | t in before && expiry(before[t]) > now && t !in after && k in after && k != tok ::
          expiry(before[t]) <= expiry(after[k]))
    && |after| == Min(|LiveKeys(before, expiry, now)|, cap - 1) + 1
  }

  /** The keys of what has not expired. */
  ghost function LiveKeys<V>(m: map<string, V>, expiry: V -> int, now: int): set<string> {
    set t | t in m && expiry(m[t]) > now
  }

  function Unexpired<V>(m: map<string, V>, expiry: V -> int, now: int): map<string, V> {
    map t | t in m && expiry(m[t]) > now :: m[t]
  }

  /** `retain`, the eviction loop and `insert`, for a token not in the map. */
  method Admit<V(!new)>(m: map<string, V>, expiry: V -> int, tok: string, v: V, cap: nat, now: int)
    returns (r: map<string, V>)
    requires cap >= 1 && tok !in m
    ensures Admitted(m, r, expiry, tok, v, cap, now)
  {
    var live := Unexpired(m, expiry, now);
    assert live.Keys == LiveKeys(m, expiry, now);
    assert |live| == |live.Keys|;
    var kept := Evict(live, expiry, cap);
    InsertSize(kept, tok, v);
    r := kept[tok := v];
    assert forall t | t in r && t != tok :: t in kept && r[t] == kept[t];
    assert forall t | t in m && expiry(m[t]) > now && t !in r :: t in live && t !in kept;
  }

  /** Below the cap nothing unexpired is dropped. */
  lemma {:induction false} StaysBelowCap<V(!new)>(
    before: map<string, V>, after: map<string, V>, expiry: V -> int, tok: string, v: V, cap: nat, now: int)
    requires cap >= 1 && tok !in before && Admitted(before, after, expiry, tok, v, cap, now)
    requires |LiveKeys(before, expiry, now)| < cap
    ensures forall t | t in before && expiry(before[t]) > now :: t in after
  {
    var live := LiveKeys(before, expiry, now);
    assert after.Keys - {tok} <= live && |after.Keys - {tok}| == |after.Keys| - 1;
    assert |after| == |after.Keys|;
    SameSize(after.Keys - {tok}, live);
    forall t | t in before && expiry(before[t]) > now ensures t in after {
      assert t in live;
    }
  }

  lemma {:induction false} SameSize(a: set<string>, b: set<string>)
    requires a <= b && |a| == |b|
    ensures a == b
  {
    assert b == a + (b - a);
  }

  lemma {:induction false} ChallengesStay(
    before: map<string, Challenge>, after: map<string, Challenge>, tok: string, c: Challenge, now: int)
    requires tok !in before && Admitted(before, after, ChallengeExpiry, tok, c, MAX_CHALLENGES, now)
    ensures forall t | t in after && t != tok :: t in before && before[t].expires > now
    ensures |set t | t in before && before[t].expires > now| < 4096 ==>
              forall t | t in before && before[t].expires > now :: t in after
  {
    assert (set t | t in before && before[t].expires > now) == LiveKeys(before, ChallengeExpiry, now);
    if |set t | t in before && before[t].expires > now| < 4096 {
      StaysBelowCap(before, after, ChallengeExpiry, tok, c, MAX_CHALLENGES, now);
    }
  }

  lemma {:induction false} SessionsStay(
    before: map<string, Session>, after: map<string, Session>, tok: string, s: Session, now: int)
    requires tok !in before && Admitted(before, after, SessionExpiry, tok, s, MAX_SESSIONS, now)
    ensures forall t | t in after && t != tok :: t in before && before[t].expires > now
    ensures |set t | t in before && before[t].expires > now| < 4096 ==>
              forall t | t in before && before[t].expires > now :: t in after
  {
    assert (set t | t in before && before[t].expires > now) == LiveKeys(before, SessionExpiry, now);
    if |set t | t in before && before[t].expires > now| < 4096 {
      StaysBelowCap(before, after, SessionExpiry, tok, s, MAX_SESSIONS, now);
    }
  }

  lemma {:induction false} InsertSize<V>(m: map<string, V>, k: string, v: V)
    requires k !in m
    ensures |m[k := v]| == |m| + 1
  {
    assert m[k := v].Keys == m.Keys + {k};
    assert |m[k := v].Keys| == |m.Keys| + 1;
  }

  /** The sessions after one was looked up: it is dropped if it has expired. */
  function AfterLookup(sessions: map<string, Session>, session: Option<string>, now: int): map<string, Session> {
    if session.Some? && !(session.value in sessions && sessions[session.value].expires > now)
    then sessions - {session.value} else sessions
  }

  /** The id is stored and does not belong to the last administrator. */
  predicate Removable(creds: seq<Credential>, id: string) {
    var i := IndexOf(creds, id);
    i < |creds| && !(creds[i].role == Administrator && Administrators(creds) == 1)
  }

  function RemovalResult(creds: seq<Credential>, id: string, persisted: bool): Result<()> {
    if IndexOf(creds, id) >= |creds| then Err(UnknownCredential)
    else if !Removable(creds, id) then Err(LastAdministrator)
    else if persisted then Ok(()) else Err(NotPersisted)
  }

  ghost predicate AdminSession(sessions: map<string, Session>, session: Option<string>, now: int) {
    && session.Some? && session.value in sessions
    && sessions[session.value].role == Administrator && sessions[session.value].expires > now
  }

  // ---------- which check decides ----------

  /** Checks made in order, each with its error: `e` is the error of the first that fails, if any does. */
  ghost predicate Explains(checks: seq<bool>, errors: seq<Error>, e: Option<Error>)
  {
    && |checks| == |errors|
    && if e.None? then forall k | 0 <= k < |checks| :: checks[k]
       else exists k :: 0 <= k < |checks| && !checks[k] && errors[k] == e.value && forall j | 0 <= j < k :: checks[j]
  }

  function ErrorOf<T>(r: Result<T>): Option<Error> {
    if r.Ok? then None else Some(r.error)
  }

  /** The token is outstanding, was issued for that purpose, and has not expired. */
  ghost predicate Outstanding(challenges: map<string, Challenge>, tok: string, purpose: Purpose, now: int) {
    tok in challenges && challenges[tok].purpose == purpose && now < challenges[tok].expires
  }

  lemma {:induction false} RedeemsIff(challenges: map<string, Challenge>, tok: string, purpose: Purpose, now: int)
    ensures Redeems(challenges, tok, purpose, now) <==> Outstanding(challenges, tok, purpose, now)
  {
  }

  /** What a login needs, in the order it is looked at: the challenge, the clientData, a stored
      credential, its signature, and a count with which the accepted ones stay a ladder. */
  ghost function LoginChecks(
    challenges: map<string, Challenge>, creds: seq<Credential>, histories: map<string, History>, a: Assertion, now: int)
    : (r: seq<bool>)
    ensures |r| == 5
  {
    [Outstanding(challenges, a.tok, Purpose.Login, now),
     a.tok in challenges && a.client(challenges[a.tok].bytes),
     exists i :: 0 <= i < |creds| && creds[i].id == a.id,
     exists i :: 0 <= i < |creds| && creds[i].id == a.id && a.verify(creds[i]).Some?,
     exists i :: 0 <= i < |creds| && creds[i].id == a.id && Continues(histories, a.id, a.verify(creds[i]))]
  }

  ghost predicate Continues(histories: map<string, History>, id: string, count: Option<nat>) {
    && id in histories && count.Some?
    && Ladder(histories[id].attested, histories[id].counts + [count.value])
  }

  function LoginErrors(): (r: seq<Error>)
    ensures |r| == 5
  {
    [BadChallenge, BadClientData, UnknownCredential, BadAssertion, CounterRegressed]
  }

  lemma {:induction false} LoginFaultMeans(
    challenges: map<string, Challenge>, creds: seq<Credential>, histories: map<string, History>, a: Assertion, now: int)
    requires CredsOk(creds) && CountersOk(creds, histories)
    ensures Explains(LoginChecks(challenges, creds, histories, a, now), LoginErrors(),
                     LoginFault(challenges, creds, a, now))
  {
    var checks, e := LoginChecks(challenges, creds, histories, a, now), LoginFault(challenges, creds, a, now);
    var n := IndexOf(creds, a.id);
    IndexOfMeans(creds, a.id);
    OnlyOne(creds, a.id);
    if n < |creds| && a.verify(creds[n]).Some? {
      CountDecides(creds, histories, n, a.verify(creds[n]).value);
    }
    var errors := LoginErrors();
    if e.Some? {
      var k := if e.value == BadChallenge then 0 else if e.value == BadClientData then 1
               else if e.value == UnknownCredential then 2 else if e.value == BadAssertion then 3 else 4;
      assert errors[k] == e.value && !checks[k] && forall j | 0 <= j < k :: checks[j];
    }
  }

  lemma {:induction false} OnlyOne(creds: seq<Credential>, id: string)
    requires CredsOk(creds)
    ensures forall i | 0 <= i < |creds| && creds[i].id == id :: i == IndexOf(creds, id)
  {
    forall i | 0 <= i < |creds| && creds[i].id == id ensures i == IndexOf(creds, id) {
      IndexOfUnique(creds, i);
    }
  }

  lemma {:induction false} CountDecides(creds: seq<Credential>, histories: map<string, History>, i: nat, count: nat)
    requires CountersOk(creds, histories) && i < |creds|
    ensures !Regressed(count, creds[i].counter) <==> Continues(histories, creds[i].id, Some(count))
  {
    assert CounterOk(creds[i], histories);
    var h := histories[creds[i].id];
    AllPassIsLadder(h.attested, h.counts);
    AcceptedIffLadder(h.attested, h.counts, count);
  }

  /** What a registration needs, in the order it is looked at. */
  ghost function RegisterChecks(
    challenges: map<string, Challenge>, creds: seq<Credential>, c: Ceremony, requireEmpty: bool, persisted: bool,
    now: int)
    : (r: seq<bool>)
    ensures |r| == 6
  {
    [Outstanding(challenges, c.tok, Purpose.Register, now),
     c.tok in challenges && c.client(challenges[c.tok].bytes),
     c.attestation.Some?,
     requireEmpty ==> creds == [],
     c.attestation.Some? && forall i | 0 <= i < |creds| :: creds[i].id != c.attestation.value.0,
     persisted]
  }

  function RegisterErrors(): (r: seq<Error>)
    ensures |r| == 6
  {
    [BadChallenge, BadClientData, BadAttestation, SetupDone, AlreadyRegistered, NotPersisted]
  }

  lemma {:induction false} RegisterFaultMeans(
    challenges: map<string, Challenge>, creds: seq<Credential>, c: Ceremony, requireEmpty: bool, persisted: bool,
    now: int)
    ensures var fault := RegisterFault(challenges, creds, c, requireEmpty, now);
            Explains(RegisterChecks(challenges, creds, c, requireEmpty, persisted, now), RegisterErrors(),
                     if fault.Some? || persisted then fault else Some(NotPersisted))
  {
    var checks, errors := RegisterChecks(challenges, creds, c, requireEmpty, persisted, now), RegisterErrors();
    var fault := RegisterFault(challenges, creds, c, requireEmpty, now);
    if c.attestation.Some? {
      IndexOfMeans(creds, c.attestation.value.0);
    }
    if fault.Some? || !persisted {
      var e := if fault.Some? then fault.value else NotPersisted;
      var k := if e == BadChallenge then 0 else if e == BadClientData then 1 else if e == BadAttestation then 2
               else if e == SetupDone then 3 else if e == AlreadyRegistered then 4 else 5;
      assert errors[k] == e && !checks[k] && forall j | 0 <= j < k :: checks[j];
    }
  }

  /** What a removal needs: the credential is stored, and someone else is an administrator. */
  ghost function RemovalChecks(creds: seq<Credential>, id: string, persisted: bool): (r: seq<bool>)
    ensures |r| == 3
  {
    [exists i :: 0 <= i < |creds| && creds[i].id == id,
     exists i :: 0 <= i < |creds| && creds[i].id != id && creds[i].role == Administrator,
     persisted]
  }

  function RemovalErrors(): (r: seq<Error>)
    ensures |r| == 3
  {
    [UnknownCredential, LastAdministrator, NotPersisted]
  }

  lemma {:induction false} RemovalMeans(creds: seq<Credential>, id: string, persisted: bool)
    requires CredsOk(creds)
    ensures Explains(RemovalChecks(creds, id, persisted), RemovalErrors(), ErrorOf(RemovalResult(creds, id, persisted)))
    ensures RemovalChecks(creds, id, persisted)[0] && RemovalChecks(creds, id, persisted)[1] <==> Removable(creds, id)
  {
    var checks, errors := RemovalChecks(creds, id, persisted), RemovalErrors();
    var n := IndexOf(creds, id);
    IndexOfMeans(creds, id);
    OnlyOne(creds, id);
    if n < |creds| {
      RemovalCount(creds, n);
      AdministratorsMeans(Without(creds, n));
      OthersStay(creds, n);
    }
    var e := ErrorOf(RemovalResult(creds, id, persisted));
    if e.Some? {
      var k := if e.value == UnknownCredential then 0 else if e.value == LastAdministrator then 1 else 2;
      assert errors[k] == e.value && !checks[k] && forall j | 0 <= j < k :: checks[j];
    }
  }

  lemma {:induction false} OthersStay(creds: seq<Credential>, n: nat)
    requires CredsOk(creds) && n < |creds|
    ensures (exists i :: 0 <= i < |creds| && creds[i].id != creds[n].id && creds[i].role == Administrator)
       <==> (exists i :: 0 <= i < |Without(creds, n)| && Without(creds, n)[i].role == Administrator)
  {
    var rest := Without(creds, n);
    assert forall i | 0 <= i < |rest| :: rest[i] == creds[if i < n then i else i + 1];
    if i :| 0 <= i < |creds| && creds[i].id != creds[n].id && creds[i].role == Administrator {
      var j := if i < n then i else i - 1;
      assert rest[j] == creds[i];
    }
    if i :| 0 <= i < |rest| && rest[i].role == Administrator {
      var j := if i < n then i else i + 1;
      assert creds[j].id != creds[n].id;
    }
  }

  lemma {:induction false} GoneFrom(creds: seq<Credential>, n: nat)
    requires CredsOk(creds) && n < |creds|
    ensures forall c :: c in Without(creds, n) <==> c in creds && c.id != creds[n].id
  {
    var rest := Without(creds, n);
    RemovalKeepsUnique(creds, n);
    forall c ensures c in rest <==> c in creds && c.id != creds[n].id {
      if c in rest {
        var i :| 0 <= i < |rest| && rest[i] == c;
        assert c == creds[if i < n then i else i + 1];
      }
      if c in creds && c.id != creds[n].id {
        var i :| 0 <= i < |creds| && creds[i] == c;
        assert rest[if i < n then i else i - 1] == c;
      }
    }
  }

  /** What a posted registration needs: permission, a readable body, and what a registration needs. */
  ghost function PostChecks(
    allowed: bool, challenges: map<string, Challenge>, creds: seq<Credential>, body: Option<(Ceremony, Option<Role>)>,
    persisted: bool, now: int): seq<bool>
  {
    [allowed, body.Some?] +
    if body.Some? then RegisterChecks(challenges, creds, body.value.0, creds == [], persisted, now) else []
  }

  function PostErrors(readable: bool): seq<Error> {
    [Forbidden, Malformed] + if readable then RegisterErrors() else []
  }

  /** A refusal before the ceremony is looked at. */
  lemma {:induction false} PostRefused(
    allowed: bool, challenges: map<string, Challenge>, creds: seq<Credential>, body: Option<(Ceremony, Option<Role>)>,
    persisted: bool, now: int)
    ensures !allowed ==> Explains(PostChecks(allowed, challenges, creds, body, persisted, now), PostErrors(body.Some?),
                                  Some(Forbidden))
    ensures allowed && body.None? ==>
              Explains(PostChecks(allowed, challenges, creds, body, persisted, now), PostErrors(body.Some?),
                       Some(Malformed))
  {
    var checks, errors := PostChecks(allowed, challenges, creds, body, persisted, now), PostErrors(body.Some?);
    hide RegisterChecks;
    assert checks[0] == allowed && errors[0] == Forbidden && checks[1] == body.Some? && errors[1] == Malformed;
  }

  /** Whether the store was found empty at the gate makes no difference to a registration by itself. */
  lemma {:induction false} PostedExplains(
    challenges: map<string, Challenge>, creds: seq<Credential>, body: (Ceremony, Option<Role>), bootstrap: bool,
    persisted: bool, now: int, e: Option<Error>)
    requires bootstrap ==> creds == []
    requires Explains(RegisterChecks(challenges, creds, body.0, bootstrap, persisted, now), RegisterErrors(), e)
    ensures Explains(PostChecks(true, challenges, creds, Some(body), persisted, now), PostErrors(true), e)
  {
    assert RegisterChecks(challenges, creds, body.0, bootstrap, persisted, now)
        == RegisterChecks(challenges, creds, body.0, creds == [], persisted, now);
    ExplainsLater([true, true], [Forbidden, Malformed],
                  RegisterChecks(challenges, creds, body.0, creds == [], persisted, now), RegisterErrors(), e);
  }

  ghost function DeleteChecks(allowed: bool, creds: seq<Credential>, id: string, persisted: bool): (r: seq<bool>)
    ensures |r| == 4
  {
    [allowed] + RemovalChecks(creds, id, persisted)
  }

  lemma {:induction false} DeleteRefused(creds: seq<Credential>, id: string, persisted: bool)
    ensures Explains(DeleteChecks(false, creds, id, persisted), [Forbidden] + RemovalErrors(), Some(Forbidden))
  {
    hide RemovalChecks;
    var checks, errors := DeleteChecks(false, creds, id, persisted), [Forbidden] + RemovalErrors();
    assert !checks[0] && errors[0] == Forbidden;
  }

  lemma {:induction false} DeleteExplains(creds: seq<Credential>, id: string, persisted: bool, e: Option<Error>)
    requires Explains(RemovalChecks(creds, id, persisted), RemovalErrors(), e)
    ensures Explains(DeleteChecks(true, creds, id, persisted), [Forbidden] + RemovalErrors(), e)
  {
    hide RemovalChecks;
    ExplainsLater([true], [Forbidden], RemovalChecks(creds, id, persisted), RemovalErrors(), e);
  }

  lemma {:induction false} ExplainsLater(
    checks: seq<bool>, errors: seq<Error>, more: seq<bool>, moreErrors: seq<Error>, e: Option<Error>)
    requires |checks| == |errors| && |more| == |moreErrors| && (forall k | 0 <= k < |checks| :: checks[k])
    requires Explains(more, moreErrors, e)
    ensures Explains(checks + more, errors + moreErrors, e)
  {
    if e.Some? {
      var k :| 0 <= k < |more| && !more[k] && moreErrors[k] == e.value && forall j | 0 <= j < k :: more[j];
      var n := |checks| + k;
      assert (checks + more)[n] == more[k] && (errors + moreErrors)[n] == e.value;
    }
  }

  // ---------- one change at a time ----------

  lemma {:induction false} PushKeeps(creds: seq<Credential>, histories: map<string, History>, c: Credential)
    requires CredsOk(creds) && CountersOk(creds, histories)
    requires IndexOf(creds, c.id) >= |creds| && (creds == [] ==> c.role == Administrator)
    ensures CredsOk(creds + [c])
    ensures CountersOk(creds + [c], histories[c.id := History(c.counter, [])])
  {
    var longer := creds + [c];
    PushKeepsCreds(creds, c);
    forall i | 0 <= i < |longer| ensures CounterOk(longer[i], histories[c.id := History(c.counter, [])]) {
      assert i < |creds| ==> longer[i] == creds[i] && CounterOk(creds[i], histories);
    }
  }

  lemma {:induction false} PushLinks(creds: seq<Credential>, sessions: map<string, Session>, c: Credential)
    requires CredsOk(creds + [c]) && SessionsOk(creds, sessions) && IndexOf(creds, c.id) >= |creds|
    ensures SessionsOk(creds + [c], sessions)
  {
    forall t | t in sessions ensures RoleOf(creds + [c], sessions[t].credId) == Some(sessions[t].role) {
      PushRole(creds, c, sessions[t].credId);
    }
  }

  lemma {:induction false} SameAdministrators(creds: seq<Credential>, i: nat, c: Credential)
    requires i < |creds| && c.role == creds[i].role
    ensures Administrators(creds[i := c]) == Administrators(creds)
  {
    RemovalCount(creds, i);
    RemovalCount(creds[i := c], i);
    assert Without(creds[i := c], i) == Without(creds, i);
  }

  lemma {:induction false} CountKeeps(
    creds: seq<Credential>, histories: map<string, History>, i: nat, counter: nat)
    requires CredsOk(creds) && CountersOk(creds, histories)
    requires i < |creds| && !Regressed(counter, creds[i].counter)
    ensures CredsOk(creds[i := creds[i].(counter := counter)])
    ensures CountersOk(creds[i := creds[i].(counter := counter)], Counted(histories, creds[i].id, counter))
    ensures RoleOf(creds[i := creds[i].(counter := counter)], creds[i].id) == Some(creds[i].role)
  {
    var creds' := creds[i := creds[i].(counter := counter)];
    SameAdministrators(creds, i, creds[i].(counter := counter));
    assert UniqueIds(creds');
    IndexOfUnique(creds', i);
    CountersAfter(creds, histories, i, counter);
  }

  lemma {:induction false} CountLinks(creds: seq<Credential>, sessions: map<string, Session>, i: nat, counter: nat)
    requires CredsOk(creds) && SessionsOk(creds, sessions) && i < |creds|
    ensures SessionsOk(creds[i := creds[i].(counter := counter)], sessions)
  {
    var creds' := creds[i := creds[i].(counter := counter)];
    assert UniqueIds(creds');
    forall t | t in sessions ensures RoleOf(creds', sessions[t].credId) == Some(sessions[t].role) {
      IndexOfMeans(creds, sessions[t].credId);
      IndexOfUnique(creds', IndexOf(creds, sessions[t].credId));
    }
  }

  /** The histories with one more accepted count. */
  function Counted(histories: map<string, History>, id: string, counter: nat): map<string, History> {
    if id in histories then histories[id := histories[id].(counts := histories[id].counts + [counter])] else histories
  }

  lemma {:induction false} CountersAfter(creds: seq<Credential>, histories: map<string, History>, i: nat, counter: nat)
    requires UniqueIds(creds) && CountersOk(creds, histories)
    requires i < |creds| && !Regressed(counter, creds[i].counter)
    ensures CountersOk(creds[i := creds[i].(counter := counter)], Counted(histories, creds[i].id, counter))
  {
    var creds' := creds[i := creds[i].(counter := counter)];
    forall j | 0 <= j < |creds'| ensures CounterOk(creds'[j], Counted(histories, creds[i].id, counter)) {
      assert CounterOk(creds[j], histories);
      if j == i {
        var counts := histories[creds[i].id].counts;
        assert (counts + [counter])[..|counts|] == counts;
      } else {
        assert creds[j].id != creds[i].id;
      }
    }
  }

  lemma {:induction false} RemoveKeeps(
    creds: seq<Credential>, sessions: map<string, Session>, histories: map<string, History>, i: nat)
    requires CredsOk(creds) && CountersOk(creds, histories) && i < |creds|
    requires !(creds[i].role == Administrator && Administrators(creds) == 1)
    ensures Without(creds, i) != [] && CredsOk(Without(creds, i))
    ensures CountersOk(Without(creds, i), histories)
    ensures |Revoked(sessions, SessionOwner, creds[i].id)| <= |sessions|
  {
    RemovalKeepsAdmin(creds, i);
    var rest := Without(creds, i);
    forall j | 0 <= j < |rest| ensures CounterOk(rest[j], histories) {
      assert rest[j] == creds[if j < i then j else j + 1];
    }
    SmallerKeys(Revoked(sessions, SessionOwner, creds[i].id), sessions);
  }

  lemma {:induction false} RemoveLinks(creds: seq<Credential>, sessions: map<string, Session>, i: nat)
    requires CredsOk(creds) && SessionsOk(creds, sessions) && i < |creds|
    ensures SessionsOk(Without(creds, i), Revoked(sessions, SessionOwner, creds[i].id))
  {
    var rest, left := Without(creds, i), Revoked(sessions, SessionOwner, creds[i].id);
    forall t | t in left ensures RoleOf(rest, left[t].credId) == Some(left[t].role) {
      RemovalKeepsRole(creds, i, sessions[t].credId);
    }
  }

  lemma {:induction false} OpenLinks(
    creds: seq<Credential>, sessions: map<string, Session>, after: map<string, Session>, tok: string, s: Session,
    now: int)
    requires Admitted(sessions, after, SessionExpiry, tok, s, MAX_SESSIONS, now)
    ensures |after| <= MAX_SESSIONS && after != map[]
    ensures SessionsOk(creds, sessions) ==> (SessionsOk(creds, after) <==> RoleOf(creds, s.credId) == Some(s.role))
  {
  }

  lemma {:induction false} DropLinks(creds: seq<Credential>, sessions: map<string, Session>, tok: string)
    ensures |sessions - {tok}| <= |sessions|
    ensures SessionsOk(creds, sessions) ==> SessionsOk(creds, sessions - {tok})
    ensures SessionsOk(creds, sessions) && tok in sessions ==>
              RoleOf(creds, sessions[tok].credId) == Some(sessions[tok].role)
  {
    SmallerKeys(sessions - {tok}, sessions);
  }

  lemma {:induction false} IssueKeeps(
    challenges: map<string, Challenge>, kept: map<string, Challenge>, issued: map<string, Purpose>,
    redeemed: set<string>, tok: string, c: Challenge)
    requires ChallengesOk(challenges, issued, redeemed) && tok !in issued
    requires tok in kept && kept[tok] == c
    requires forall t | t in kept && t != tok :: t in challenges && kept[t] == challenges[t]
    ensures ChallengesOk(kept, issued[tok := c.purpose], redeemed)
  {
  }

  lemma {:induction false} TakeKeeps(
    challenges: map<string, Challenge>, issued: map<string, Purpose>, redeemed: set<string>, tok: string)
    requires ChallengesOk(challenges, issued, redeemed) && tok in challenges
    ensures ChallengesOk(challenges - {tok}, issued, redeemed)
    ensures ChallengesOk(challenges - {tok}, issued, redeemed + {tok})
    ensures |challenges - {tok}| <= |challenges|
    ensures tok !in redeemed && tok in issued && issued[tok] == challenges[tok].purpose
  {
    SmallerKeys(challenges - {tok}, challenges);
  }

  /** What the invariants say in plain terms: a store with anyone in it has an administrator, a
      linked session names a stored credential and has its role, and the counts accepted for each
      credential are zeros followed by a strictly increasing sequence above the attested one. */
  lemma {:induction false} InvariantMeans(
    creds: seq<Credential>, sessions: map<string, Session>, histories: map<string, History>)
    requires CredsOk(creds) && SessionsOk(creds, sessions) && CountersOk(creds, histories)
    ensures creds != [] ==> exists i :: 0 <= i < |creds| && creds[i].role == Administrator
    ensures forall t | t in sessions ::
              exists i :: 0 <= i < |creds| && creds[i].id == sessions[t].credId && creds[i].role == sessions[t].role
    ensures forall i | 0 <= i < |creds| ::
              creds[i].id in histories && Ladder(histories[creds[i].id].attested, histories[creds[i].id].counts)
  {
    AdministratorsMeans(creds);
    forall t | t in sessions
      ensures exists i :: 0 <= i < |creds| && creds[i].id == sessions[t].credId && creds[i].role == sessions[t].role
    {
      IndexOfMeans(creds, sessions[t].credId);
    }
    forall i | 0 <= i < |creds|
      ensures creds[i].id in histories && Ladder(histories[creds[i].id].attested, histories[creds[i].id].counts)
    {
      assert CounterOk(creds[i], histories);
      AllPassIsLadder(histories[creds[i].id].attested, histories[creds[i].id].counts);
    }
  }

  // ---------- the store ----------

  class PasskeyStore {
    const setupToken: seq<bv8>
    var creds: seq<Credential>
    var sessions: map<string, Session>
    var challenges: map<string, Challenge>
    /** Every challenge ever issued, the ones redeemed, and the counts of each credential. */
    ghost var issued: map<string, Purpose>
    ghost var redeemed: set<string>
    ghost var histories: map<string, History>

    ghost predicate Valid()
      reads this
    {
      && CredsOk(creds) && CountersOk(creds, histories)
      && ChallengesOk(challenges, issued, redeemed)
      && |sessions| <= MAX_SESSIONS && |challenges| <= MAX_CHALLENGES
      && (creds == [] ==> sessions == map[])
    }

    /** Every session names a stored credential and has its role. */
    ghost predicate Linked()
      reads this
    {
      SessionsOk(creds, sessions)
    }

    constructor (setupToken: seq<bv8>)
      ensures Valid() && Linked() && creds == [] && sessions == map[] && challenges == map[]
      ensures this.setupToken == setupToken
      ensures issued == map[] && redeemed == {}
    {
      this.setupToken := setupToken;
      creds, sessions, challenges := [], map[], map[];
      issued, redeemed, histories := map[], {}, map[];
    }

    /** `new_challenge`; a token is fresh, being 32 random bytes. */
    method NewChallenge(purpose: Purpose, tok: string, bytes: string, now: int)
      requires Valid() && tok !in issued
      modifies this`challenges, this`issued
      ensures Valid() && issued == old(issued)[tok := purpose]
      ensures Admitted(old(challenges), challenges, ChallengeExpiry, tok,
                       Challenge(bytes, purpose, now + CHALLENGE_TTL), MAX_CHALLENGES, now)
      // in its fields: good for five minutes; expired ones are gone, others too only from 4096 on
      ensures tok in challenges && challenges[tok].expires == now + 300_000_000_000
      ensures forall t | t in challenges && t != tok :: old(challenges)[t].expires > now
      ensures |set t | t in old(challenges) && old(challenges)[t].expires > now| < 4096 ==>
                forall t | t in old(challenges) && old(challenges)[t].expires > now :: t in challenges
    {
      hide CredsOk, SessionsOk, CountersOk;
      var c := Challenge(bytes, purpose, now + CHALLENGE_TTL);
      var after := Admit(challenges, ChallengeExpiry, tok, c, MAX_CHALLENGES, now);
      ChallengesStay(challenges, after, tok, c, now);
      IssueKeeps(challenges, after, issued, redeemed, tok, c);
      challenges := after;
      issued := issued[tok := purpose];
    }

    /** `take_challenge`: redeems a token at most once, and only for its purpose. */
    method TakeChallenge(tok: string, purpose: Purpose, now: int) returns (r: Option<string>)
      requires Valid()
      modifies this`challenges, this`redeemed
      ensures Valid()
      ensures challenges == old(challenges) - {tok}
      ensures r == if Redeems(old(challenges), tok, purpose, now) then Some(old(challenges)[tok].bytes) else None
      ensures r.Some? <==> Outstanding(old(challenges), tok, purpose, now)
      ensures r.Some? ==> tok !in old(redeemed) && tok in issued && issued[tok] == purpose
      ensures redeemed == Spent(old(challenges), old(redeemed), tok, purpose, now)
    {
      hide CredsOk, SessionsOk, CountersOk, ChallengesOk, Outstanding;
      RedeemsIff(challenges, tok, purpose, now);
      if tok !in challenges {
        WithoutAbsent(challenges, tok);
        return None;
      }
      var c := challenges[tok];
      TakeKeeps(challenges, issued, redeemed, tok);
      challenges := challenges - {tok};
      if c.purpose == purpose && c.expires > now {
        redeemed := redeemed + {tok};
        return Some(c.bytes);
      }
      r := None;
    }

    /** `register`; the endpoint below establishes that a first credential is an administrator's. */
    method Register(c: Ceremony, role: Role, requireEmpty: bool, persisted: bool, now: int) returns (r: Result<string>)
      requires Valid() && (creds == [] ==> role == Administrator)
      modifies this`challenges, this`redeemed, this`creds, this`histories
      ensures Valid() && (old(Linked()) ==> Linked())
      ensures var fault := RegisterFault(old(challenges), old(creds), c, requireEmpty, now);
              if fault.Some? then r == Err(fault.value) && creds == old(creds) && histories == old(histories)
              else
                var (id, counter) := c.attestation.value;
                && r == (if persisted then Ok(id) else Err(NotPersisted))
                && creds == old(creds) + [Credential(id, counter, role)]
                && histories == old(histories)[id := History(counter, [])]
                && c.tok !in old(redeemed)
      ensures challenges == old(challenges) - {c.tok}
      ensures redeemed == Spent(old(challenges), old(redeemed), c.tok, Purpose.Register, now)
      ensures Explains(RegisterChecks(old(challenges), old(creds), c, requireEmpty, persisted, now), RegisterErrors(),
                       ErrorOf(r))
    {
      hide CredsOk, SessionsOk, CountersOk, ChallengesOk, Explains, RegisterChecks, Outstanding, Spent, IndexOf;
      RegisterFaultMeans(challenges, creds, c, requireEmpty, persisted, now);
      var challenge := TakeChallenge(c.tok, Purpose.Register, now);
      if challenge.None? {
        return Err(BadChallenge);
      }
      if !c.client(challenge.value) {
        return Err(BadClientData);
      }
      if c.attestation.None? {
        return Err(BadAttestation);
      }
      var (id, counter) := c.attestation.value;
      if requireEmpty && creds != [] {
        return Err(SetupDone);
      }
      if IndexOf(creds, id) < |creds| {
        return Err(AlreadyRegistered);
      }
      AddCredential(Credential(id, counter, role));
      r := if persisted then Ok(id) else Err(NotPersisted);
    }

    method AddCredential(c: Credential)
      requires Valid() && IndexOf(creds, c.id) >= |creds| && (creds == [] ==> c.role == Administrator)
      modifies this`creds, this`histories
      ensures Valid() && (old(Linked()) ==> Linked())
      ensures creds == old(creds) + [c] && histories == old(histories)[c.id := History(c.counter, [])]
    {
      hide CredsOk, SessionsOk, CountersOk, ChallengesOk, IndexOf;
      PushKeeps(creds, histories, c);
      if Linked() {
        PushLinks(creds, sessions, c);
      }
      creds := creds + [c];
      histories := histories[c.id := History(c.counter, [])];
    }

    /** `login`: on success the reported count is stored and a session with the credential's role
        is opened, making room among the sessions if need be. */
    method Login(a: Assertion, sessionTok: string, now: int) returns (r: Result<(string, Role)>)
      requires Valid() && sessionTok !in sessions
      modifies this`challenges, this`redeemed, this`creds, this`histories, this`sessions
      ensures Valid() && (old(Linked()) ==> Linked())
      ensures ErrorOf(r) == LoginFault(old(challenges), old(creds), a, now)
      ensures r.Err? ==> creds == old(creds) && sessions == old(sessions) && histories == old(histories)
      ensures r.Ok? ==>
                var i := IndexOf(old(creds), a.id);
                && i < |old(creds)| && old(creds)[i].id == a.id && a.verify(old(creds)[i]).Some?
                && a.tok !in old(redeemed)
                && var cred, counter := old(creds)[i], a.verify(old(creds)[i]).value;
                   && r == Ok((sessionTok, cred.role))
                   && creds == old(creds)[i := cred.(counter := counter)]
                   && histories == Counted(old(histories), a.id, counter)
                   && Admitted(old(sessions), sessions, SessionExpiry, sessionTok,
                               Session(a.id, cred.role, now + SESSION_TTL), MAX_SESSIONS, now)
      ensures challenges == old(challenges) - {a.tok}
      ensures redeemed == Spent(old(challenges), old(redeemed), a.tok, Purpose.Login, now)
      // in terms of what is stored: the first of its five needs that is not met
      ensures Explains(LoginChecks(old(challenges), old(creds), old(histories), a, now), LoginErrors(), ErrorOf(r))
    {
      hide CredsOk, SessionsOk, CountersOk, ChallengesOk, Explains, LoginChecks, LoginFault;
      var checked := CheckAssertion(a, now);
      if checked.Err? {
        return Err(checked.error);
      }
      var (i, counter) := checked.value;
      var cred := creds[i];
      StoreCount(i, counter);
      OpenSession(sessionTok, Session(cred.id, cred.role, now + SESSION_TTL), now);
      r := Ok((sessionTok, cred.role));
    }

    /** The checks of `login`, up to the counter: the credential's position and the new count. */
    method CheckAssertion(a: Assertion, now: int) returns (r: Result<(nat, nat)>)
      requires Valid()
      modifies this`challenges, this`redeemed
      ensures Valid() && (old(Linked()) ==> Linked())
      ensures ErrorOf(r) == LoginFault(old(challenges), creds, a, now)
      ensures r.Ok? ==>
                var i := IndexOf(creds, a.id);
                && i < |creds| && creds[i].id == a.id && a.verify(creds[i]).Some? && a.tok !in old(redeemed)
                && r == Ok((i, a.verify(creds[i]).value))
                && !Regressed(a.verify(creds[i]).value, creds[i].counter)
      ensures challenges == old(challenges) - {a.tok}
      ensures redeemed == Spent(old(challenges), old(redeemed), a.tok, Purpose.Login, now)
      ensures Explains(LoginChecks(old(challenges), creds, histories, a, now), LoginErrors(), ErrorOf(r))
    {
      hide CredsOk, SessionsOk, CountersOk, ChallengesOk, Explains, LoginChecks, Outstanding;
      LoginFaultMeans(challenges, creds, histories, a, now);
      var challenge := TakeChallenge(a.tok, Purpose.Login, now);
      if challenge.None? {
        return Err(BadChallenge);
      }
      if !a.client(challenge.value) {
        return Err(BadClientData);
      }
      var i := IndexOf(creds, a.id);
      if i >= |creds| {
        return Err(UnknownCredential);
      }
      IndexOfMeans(creds, a.id);
      var reported := a.verify(creds[i]);
      if reported.None? {
        return Err(BadAssertion);
      }
      var counter := reported.value;
      if (counter != 0 || creds[i].counter != 0) && counter <= creds[i].counter {
        return Err(CounterRegressed);
      }
      r := Ok((i, counter));
    }

    /** The reported count is written only when it moved on; two zeros leave the record alone. */
    method StoreCount(i: nat, counter: nat)
      requires Valid() && i < |creds| && !Regressed(counter, creds[i].counter)
      modifies this`creds, this`histories
      ensures Valid() && (old(Linked()) ==> Linked())
      ensures creds == old(creds)[i := old(creds)[i].(counter := counter)]
      ensures histories == Counted(old(histories), old(creds)[i].id, counter)
      ensures RoleOf(creds, old(creds)[i].id) == Some(old(creds)[i].role)
    {
      hide CredsOk, SessionsOk, CountersOk, ChallengesOk;
      CountKeeps(creds, histories, i, counter);
      if Linked() {
        CountLinks(creds, sessions, i, counter);
      }
      histories := Counted(histories, creds[i].id, counter);
      if counter > creds[i].counter {
        creds := creds[i := creds[i].(counter := counter)];
      } else {
        assert creds[i].(counter := counter) == creds[i];
        assert creds[i := creds[i]] == creds;
      }
    }

    /** The second section of `login`: it does not look at the credentials again, so the session is
        linked exactly if its credential is still there with that role. */
    method OpenSession(tok: string, s: Session, now: int)
      requires Valid() && creds != [] && tok !in sessions
      modifies this`sessions
      ensures Valid() && (old(Linked()) ==> (Linked() <==> RoleOf(creds, s.credId) == Some(s.role)))
      ensures Admitted(old(sessions), sessions, SessionExpiry, tok, s, MAX_SESSIONS, now)
      ensures forall t | t in sessions && t != tok :: t in old(sessions) && old(sessions)[t].expires > now
      ensures |set t | t in old(sessions) && old(sessions)[t].expires > now| < 4096 ==>
                forall t | t in old(sessions) && old(sessions)[t].expires > now :: t in sessions
    {
      hide CredsOk, SessionsOk, CountersOk, ChallengesOk, Admitted;
      var after := Admit(sessions, SessionExpiry, tok, s, MAX_SESSIONS, now);
      OpenLinks(creds, sessions, after, tok, s, now);
      SessionsStay(sessions, after, tok, s, now);
      sessions := after;
    }

    /** `remove_credential`: refuses the last administrator, and revokes the sessions of the
        credential it removes. */
    method RemoveCredential(id: string, persisted: bool) returns (r: Result<()>)
      requires Valid()
      modifies this`creds, this`sessions
      ensures Valid() && (old(Linked()) ==> Linked())
      ensures old(creds) != [] ==> creds != []
      ensures var i := IndexOf(old(creds), id);
              var removed := Removable(old(creds), id);
              && creds == (if removed then Without(old(creds), i) else old(creds))
              && sessions == (if removed then Revoked(old(sessions), SessionOwner, id) else old(sessions))
              && r == RemovalResult(old(creds), id, persisted)
      ensures Explains(RemovalChecks(old(creds), id, persisted), RemovalErrors(), ErrorOf(r))
      ensures r.Ok? || r.error == NotPersisted ==>
                && (forall c :: c in creds <==> c in old(creds) && c.id != id)
                && (forall t :: t in sessions <==> t in old(sessions) && old(sessions)[t].credId != id)
    {
      hide CredsOk, SessionsOk, CountersOk, ChallengesOk, Explains, RemovalChecks;
      RemovalMeans(creds, id, persisted);
      var i := IndexOf(creds, id);
      if i >= |creds| {
        return Err(UnknownCredential);
      }
      IndexOfMeans(creds, id);
      var admins := Administrators(creds);
      if creds[i].role == Administrator && admins == 1 {
        return Err(LastAdministrator);
      }
      RemoveKeeps(creds, sessions, histories, i);
      GoneFrom(creds, i);
      if Linked() {
        RemoveLinks(creds, sessions, i);
      }
      creds := Without(creds, i);
      sessions := Revoked(sessions, SessionOwner, id);
      r := if persisted then Ok(()) else Err(NotPersisted);
    }

    /** `session_info`: a live session's credential and role; an expired one is dropped. */
    method SessionInfo(tok: string, now: int) returns (r: Option<(string, Role)>)
      requires Valid()
      modifies this`sessions
      ensures Valid() && (old(Linked()) ==> Linked())
      ensures r == if tok in old(sessions) && old(sessions)[tok].expires > now
                   then Some((old(sessions)[tok].credId, old(sessions)[tok].role)) else None
      ensures r.Some? && Linked() ==> RoleOf(creds, r.value.0) == Some(r.value.1)
      ensures sessions == if r.Some? then old(sessions) else old(sessions) - {tok}
    {
      hide CredsOk, SessionsOk, CountersOk, ChallengesOk;
      if tok !in sessions {
        WithoutAbsent(sessions, tok);
        return None;
      }
      var s := sessions[tok];
      DropLinks(creds, sessions, tok);
      if s.expires > now {
        return Some((s.credId, s.role));
      }
      sessions := sessions - {tok};
      r := None;
    }

    /** `POST /auth/register`: only an administrator, or the bearer of the setup token while the
        store is empty, adds a credential; and the first one is always an administrator's. */
    method PostRegister(
      session: Option<string>, setup: Option<seq<bv8>>, body: Option<(Ceremony, Option<Role>)>, persisted: bool,
      now: int)
      returns (r: Result<string>)
      requires Valid()
      modifies this`challenges, this`redeemed, this`creds, this`histories, this`sessions
      ensures Valid() && (old(Linked()) ==> Linked())
      ensures
        var bootstrap := old(creds) == [] && setup == Some(setupToken);
        var allowed := AdminSession(old(sessions), session, now) || bootstrap;
        if !allowed || body.None? then
          r == Err(if !allowed then Forbidden else Malformed) && creds == old(creds) && challenges == old(challenges)
        else
          && challenges == old(challenges) - {body.value.0.tok}
          && Posted(old(challenges), old(creds), body.value, bootstrap, persisted, now, r, creds)
      ensures sessions == AfterLookup(old(sessions), session, now)
      ensures old(creds) == [] && creds != [] ==> setup == Some(setupToken) && creds[0].role == Administrator
      ensures
        var allowed := AdminSession(old(sessions), session, now) || (old(creds) == [] && setup == Some(setupToken));
        Explains(PostChecks(allowed, old(challenges), old(creds), body, persisted, now), PostErrors(body.Some?),
                 ErrorOf(r))
      // a new credential is the attested one, with the role asked for, viewer by default
      ensures creds != old(creds) && old(creds) != [] ==> body.Some? && AddsAsked(old(creds), body.value, creds)
    {
      hide CredsOk, SessionsOk, CountersOk, ChallengesOk, RegisterChecks, Explains, PostChecks, Posted, AddsAsked;
      var isAdmin := false;
      if session.Some? {
        var info := SessionInfo(session.value, now);
        isAdmin := info.Some? && info.value.1 == Administrator;
      }
      var bootstrap := false;
      if creds == [] && setup.Some? {
        bootstrap := CtEq(setup.value, setupToken);
      }
      PostRefused(isAdmin || bootstrap, challenges, creds, body, persisted, now);
      if !isAdmin && !bootstrap {
        return Err(Forbidden);
      }
      if body.None? {
        return Err(Malformed);
      }
      var role := if bootstrap then Administrator else if body.value.1.Some? then body.value.1.value else Viewer;
      r := RegisterAs(body.value, role, bootstrap, persisted, now);
      PostedExplains(old(challenges), old(creds), body.value, bootstrap, persisted, now, ErrorOf(r));
    }

    /** The registration behind the gate. */
    method RegisterAs(body: (Ceremony, Option<Role>), role: Role, bootstrap: bool, persisted: bool, now: int)
      returns (r: Result<string>)
      requires Valid() && (creds == [] ==> bootstrap)
      requires role == if bootstrap then Administrator else if body.1.Some? then body.1.value else Viewer
      modifies this`challenges, this`redeemed, this`creds, this`histories
      ensures Valid() && (old(Linked()) ==> Linked())
      ensures challenges == old(challenges) - {body.0.tok}
      ensures Posted(old(challenges), old(creds), body, bootstrap, persisted, now, r, creds)
      ensures creds != old(creds) && !bootstrap ==> AddsAsked(old(creds), body, creds)
      ensures old(creds) == [] && creds != [] ==> creds[0].role == Administrator
      ensures Explains(RegisterChecks(old(challenges), old(creds), body.0, bootstrap, persisted, now), RegisterErrors(),
                       ErrorOf(r))
    {
      hide CredsOk, SessionsOk, CountersOk, ChallengesOk, Spent, RegisterChecks, Explains;
      r := Register(body.0, role, bootstrap, persisted, now);
    }

    /** `DELETE /auth/credentials/{id}`: administrators only. */
    method DeleteCredential(session: Option<string>, id: string, persisted: bool, now: int) returns (r: Result<()>)
      requires Valid()
      modifies this`creds, this`sessions
      ensures Valid() && (old(Linked()) ==> Linked())
      ensures old(creds) != [] ==> creds != []
      ensures r == if AdminSession(old(sessions), session, now) then RemovalResult(old(creds), id, persisted)
                   else Err(Forbidden)
      ensures
        var looked := AfterLookup(old(sessions), session, now);
        if AdminSession(old(sessions), session, now) && Removable(old(creds), id) then
          creds == Without(old(creds), IndexOf(old(creds), id)) && sessions == Revoked(looked, SessionOwner, id)
        else creds == old(creds) && sessions == looked
      ensures Explains(DeleteChecks(AdminSession(old(sessions), session, now), old(creds), id, persisted),
                       [Forbidden] + RemovalErrors(), ErrorOf(r))
    {
      hide CredsOk, SessionsOk, CountersOk, ChallengesOk, RemovalChecks, DeleteChecks, Explains;
      var isAdmin := false;
      if session.Some? {
        var info := SessionInfo(session.value, now);
        isAdmin := info.Some? && info.value.1 == Administrator;
      }
      if !isAdmin {
        DeleteRefused(creds, id, persisted);
        return Err(Forbidden);
      }
      r := RemoveCredential(id, persisted);
      DeleteExplains(old(creds), id, persisted, ErrorOf(r));
    }
  }

  lemma {:induction false} WithoutAbsent<V>(m: map<string, V>, k: string)
    requires k !in m
    ensures m - {k} == m
  {
  }

  lemma {:induction false} SmallerKeys<V>(a: map<string, V>, b: map<string, V>)
    requires a.Keys <= b.Keys
    ensures |a| <= |b|
  {
    assert b.Keys == a.Keys + (b.Keys - a.Keys);
    assert |a.Keys| <= |b.Keys|;
  }
}
