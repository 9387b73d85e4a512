/** Registration under interleaving (relayfabric-ui/src/main.rs, `POST /auth/register`, and
    relayfabric-ui/src/auth.rs, `register`): the gate looks at the store in one step and the
    credential is pushed in a later one, so several requests may have passed the gate while the
    store was empty. The push repeats the emptiness check under the lock. */
module AuthBootstrap {
  import opened Common
  import opened Auth

  /** A request that has passed the gate, by the setup token or as an administrator. */
  datatype Attempt = Attempt(bootstrap: bool, role: Role)

  /** `byToken` holds what was ever added with the setup token. */
  datatype State = State(creds: seq<Credential>, pending: map<nat, Attempt>, byToken: seq<Credential>)

  datatype Event =
    | Gate(id: nat, admin: bool, token: bool, asked: Option<Role>)
    | Push(id: nat, credId: string, counter: nat)
    | Remove(index: nat)

  /** Only a store with credentials has administrator sessions; a session's credential may since
      have been removed. */
  predicate Enabled(s: State, e: Event) {
    match e
    case Gate(id, admin, token, asked) =>
      id !in s.pending && (admin ==> s.creds != []) && (admin || (token && s.creds == []))
    case Push(id, _, _) => id in s.pending
    case Remove(i) => i < |s.creds| && !(s.creds[i].role == Administrator && Administrators(s.creds) == 1)
  }

  function Step(s: State, e: Event): State
    requires Enabled(s, e)
  {
    match e
    case Gate(id, admin, token, asked) =>
      var bootstrap := s.creds == [] && token;
      var role := if bootstrap then Administrator else if asked.Some? then asked.value else Viewer;
      s.(pending := s.pending[id := Attempt(bootstrap, role)])
    case Push(id, credId, counter) =>
      var a := s.pending[id];
      var c := Credential(credId, counter, a.role);
      if (a.bootstrap && s.creds != []) || IndexOf(s.creds, credId) < |s.creds|
      then s.(pending := s.pending - {id})
      else State(s.creds + [c], s.pending - {id}, if a.bootstrap then s.byToken + [c] else s.byToken)
    case Remove(i) => s.(creds := Without(s.creds, i))
  }

  /** What passes the gate: an attempt with the setup token becomes an administrator's, any other takes
      the role asked for, viewer by default. */
  lemma {:induction false} GateGrants(s: State, e: Event)
    requires e.Gate? && Enabled(s, e)
    ensures var s' := Step(s, e);
            && e.id in s'.pending && s'.creds == s.creds && s'.byToken == s.byToken
            && (s'.pending[e.id].bootstrap <==> e.token && s.creds == [])
            && (s'.pending[e.id].bootstrap ==> s'.pending[e.id].role == Administrator)
            && (!s'.pending[e.id].bootstrap ==>
                  match e.asked case None => s'.pending[e.id].role == Viewer case Some(r) => s'.pending[e.id].role == r)
  {
  }

  /** A push adds the one credential, unless its id is stored already or the setup token came too late. */
  lemma {:induction false} PushAdds(s: State, e: Event)
    requires e.Push? && Enabled(s, e)
    ensures var s', a := Step(s, e), s.pending[e.id];
            if (a.bootstrap && s.creds != []) || (exists i :: 0 <= i < |s.creds| && s.creds[i].id == e.credId)
            then s'.creds == s.creds && s'.byToken == s.byToken
            else s'.creds == s.creds + [Credential(e.credId, e.counter, a.role)]
                 && |s'.byToken| == |s.byToken| + if a.bootstrap then 1 else 0
  {
    IndexOfMeans(s.creds, e.credId);
  }

  ghost predicate AttemptOk(a: Attempt, creds: seq<Credential>) {
    if a.bootstrap then a.role == Administrator else creds != []
  }

  /** An empty store has never had a credential; a store with any has an administrator. */
  ghost predicate Inv(s: State) {
    && CredsOk(s.creds)
    && (forall id | id in s.pending :: AttemptOk(s.pending[id], s.creds))
    && |s.byToken| == (if s.creds == [] then 0 else 1)
    && (forall i | 0 <= i < |s.byToken| :: s.byToken[i].role == Administrator)
  }

  lemma {:induction false} StepKeepsInv(s: State, e: Event)
    requires Inv(s) && Enabled(s, e)
    ensures Inv(Step(s, e))
    ensures s.creds != [] ==> Step(s, e).creds != []
  {
    hide CredsOk, Administrators, IndexOf;
    match e
    case Gate(id, _, _, _) =>
    case Push(id, credId, counter) =>
      assert AttemptOk(s.pending[id], s.creds);
      if IndexOf(s.creds, credId) >= |s.creds| {
        PushKeepsCreds(s.creds, Credential(credId, counter, s.pending[id].role));
      }
    case Remove(i) => RemovalKeepsAdmin(s.creds, i);
  }

  ghost predicate IsRun(run: seq<State>, events: seq<Event>) {
    && |run| == |events| + 1
    && run[0] == State([], map[], [])
    && forall i | 0 <= i < |events| :: Enabled(run[i], events[i]) && run[i + 1] == Step(run[i], events[i])
  }

  lemma {:induction false} RunKeepsInv(run: seq<State>, events: seq<Event>, i: nat)
    requires IsRun(run, events) && i < |run|
    ensures Inv(run[i])
  {
    if i > 0 {
      RunKeepsInv(run, events, i - 1);
      StepKeepsInv(run[i - 1], events[i - 1]);
    }
  }

  /** However many requests pass the gate while the store is empty, the setup token adds exactly
      one credential, an administrator's, by the time there is any; from then on some
      administrator is always left. */
  lemma {:induction false} OneTokenOneAdministrator(run: seq<State>, events: seq<Event>, i: nat)
    requires IsRun(run, events) && i < |run|
    ensures run[i].creds == [] ==> run[i].byToken == []
    ensures run[i].creds != [] ==> |run[i].byToken| == 1 && run[i].byToken[0].role == Administrator
    ensures run[i].creds != [] ==> exists j :: 0 <= j < |run[i].creds| && run[i].creds[j].role == Administrator
  {
    RunKeepsInv(run, events, i);
    AdministratorsMeans(run[i].creds);
  }

  /** Request `k` passed the gate by the setup token and has not pushed yet. */
  predicate PastGate(s: State, k: nat) {
    k in s.pending && s.pending[k].bootstrap
  }

  /** The check at the gate alone would not do: any number of requests can be past it at once. */
  lemma {:induction false} ManyPassTheGate(n: nat) returns (run: seq<State>, events: seq<Event>)
    ensures IsRun(run, events)
    ensures forall k: nat | k < n :: PastGate(run[|events|], k)
  {
    run, events := [State([], map[], [])], [];
    for i := 0 to n
      invariant IsRun(run, events) && |events| == i && run[i].creds == []
      invariant forall k: nat | k < i :: PastGate(run[i], k)
      invariant forall k | k in run[i].pending :: k < i
    {
      var e := Gate(i, false, true, None);
      forall k: nat | k < i + 1 ensures PastGate(Step(run[i], e), k) {
        assert k < i ==> PastGate(run[i], k);
      }
      run, events := run + [Step(run[i], e)], events + [e];
    }
  }
}
