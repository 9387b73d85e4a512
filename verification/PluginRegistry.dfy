/** The plugin handle map (switchyardd/src/plugins.rs, `handle_conn`): a connection takes a fresh
    id, installs its handle under its plugin's name, and on teardown clears `connected` only if
    it is still the installed one.

    Each method is one step under its lock, so any interleaving of connections is some sequence
    of calls. In particular ids may be installed in another order than they were taken. */
module PluginRegistry {
  import opened Common

  datatype Handle = Handle(connId: nat, connected: bool)

  /** What happened, with the decision taken at that step. */
  datatype Event =
    | Installed(name: string, id: nat, displaced: bool)
    | TornDown(name: string, id: nat, down: bool)

  // ---------- what the log says ----------

  function LastInstalled(log: seq<Event>, name: string): Option<nat> {
    if log == [] then None
    else
      var e := log[|log| - 1];
      if e.Installed? && e.name == name then Some(e.id) else LastInstalled(log[..|log| - 1], name)
  }

  ghost predicate Gone(log: seq<Event>, id: nat) {
    exists i :: 0 <= i < |log| && log[i].TornDown? && log[i].id == id
  }

  ghost predicate Arrived(log: seq<Event>, name: string, id: nat) {
    exists i :: 0 <= i < |log| && log[i].Installed? && log[i].id == id && log[i].name == name
  }

  /** The last connection installed under the name has not torn down. */
  ghost predicate Up(log: seq<Event>, name: string) {
    LastInstalled(log, name).Some? && !Gone(log, LastInstalled(log, name).value)
  }

  function Installs(log: seq<Event>, name: string): nat {
    if log == [] then 0
    else
      var e := log[|log| - 1];
      Installs(log[..|log| - 1], name) + if e.Installed? && e.name == name then 1 else 0
  }

  /** Live displacements and down decisions. */
  function Endings(log: seq<Event>, name: string): nat {
    if log == [] then 0
    else
      var e := log[|log| - 1];
      Endings(log[..|log| - 1], name)
      + if e.name == name && (if e.Installed? then e.displaced else e.down) then 1 else 0
  }

  lemma {:induction false} Snoc(log: seq<Event>, e: Event, name: string)
    ensures LastInstalled(log + [e], name)
         == if e.Installed? && e.name == name then Some(e.id) else LastInstalled(log, name)
    ensures Installs(log + [e], name) == Installs(log, name) + if e.Installed? && e.name == name then 1 else 0
    ensures Endings(log + [e], name) == Endings(log, name)
      + if e.name == name && (if e.Installed? then e.displaced else e.down) then 1 else 0
  {
    assert (log + [e])[..|log|] == log;
  }

  lemma {:induction false} SnocPast(log: seq<Event>, e: Event)
    ensures forall id :: Gone(log + [e], id) <==> Gone(log, id) || (e.TornDown? && e.id == id)
    ensures forall name, id :: Arrived(log + [e], name, id)
                          <==> Arrived(log, name, id) || (e.Installed? && e.id == id && e.name == name)
  {
    var log' := log + [e];
    assert log'[|log|] == e;
    forall id ensures Gone(log', id) <==> Gone(log, id) || (e.TornDown? && e.id == id) {
      if Gone(log, id) {
        var i :| 0 <= i < |log| && log[i].TornDown? && log[i].id == id;
        assert log'[i] == log[i];
      }
    }
    forall name, id
      ensures Arrived(log', name, id) <==> Arrived(log, name, id) || (e.Installed? && e.id == id && e.name == name)
    {
      if Arrived(log, name, id) {
        var i :| 0 <= i < |log| && log[i].Installed? && log[i].id == id && log[i].name == name;
        assert log'[i] == log[i];
      }
    }
  }

  // ---------- what the map says ----------

  ghost predicate Connected(handles: map<string, Handle>, name: string) {
    name in handles && handles[name].connected
  }

  /** For every name: the map shows the last-installed connection, `connected` exactly while it
      has not torn down, and every install so far has been ended by one down decision or one
      live displacement, except the one that is still up. */
  ghost predicate Agrees(handles: map<string, Handle>, log: seq<Event>, name: string) {
    && (name in handles <==> LastInstalled(log, name).Some?)
    && (name in handles ==> LastInstalled(log, name) == Some(handles[name].connId))
    && (Connected(handles, name) <==> Up(log, name))
    && Installs(log, name) == Endings(log, name) + if Connected(handles, name) then 1 else 0
  }

  /** An id is installed once, under one name, and torn down only after that. */
  ghost predicate IdsOk(log: seq<Event>, next: nat) {
    && (forall name, id: nat :: Arrived(log, name, id) ==> id < next)
    && (forall n, m, id :: Arrived(log, n, id) && Arrived(log, m, id) ==> n == m)
    && (forall name :: LastInstalled(log, name).Some? ==> Arrived(log, name, LastInstalled(log, name).value))
    && (forall id :: Gone(log, id) ==> exists name :: Arrived(log, name, id))
  }

  ghost predicate AllAgree(handles: map<string, Handle>, log: seq<Event>) {
    forall name :: Agrees(handles, log, name)
  }

  class Registry {
    var handles: map<string, Handle>
    var nextConnId: nat
    ghost var log: seq<Event>

    ghost predicate Valid()
      reads this
    {
      IdsOk(log, nextConnId) && AllAgree(handles, log)
    }

    constructor ()
      ensures Valid() && log == []
    {
      handles := map[];
      nextConnId := 1;
      log := [];
    }

    /** `NEXT_CONN_ID.fetch_add(1)`: a step of its own, before the handle is installed. */
    method TakeId() returns (id: nat)
      requires Valid()
      modifies this
      ensures Valid() && log == old(log) && handles == old(handles)
      ensures id == old(nextConnId) < nextConnId && forall name :: !Arrived(log, name, id)
    {
      id := nextConnId;
      nextConnId := nextConnId + 1;
    }

    method Install(name: string, id: nat) returns (replacedLive: bool)
      requires Valid() && id < nextConnId && forall n :: !Arrived(log, n, id)
      modifies this
      ensures Valid() && log == old(log) + [Installed(name, id, replacedLive)]
      ensures replacedLive <==> Up(old(log), name)
      ensures nextConnId == old(nextConnId) && handles == old(handles)[name := Handle(id, true)]
    {
      replacedLive := name in handles && handles[name].connected;
      assert Agrees(handles, log, name);
      handles := handles[name := Handle(id, true)];
      log := log + [Installed(name, id, replacedLive)];
      InstallAgrees(old(handles), old(log), nextConnId, name, id, replacedLive);
    }

    method Teardown(name: string, id: nat) returns (stillCurrent: bool)
      requires Valid() && Arrived(log, name, id) && !Gone(log, id)
      modifies this
      ensures Valid() && log == old(log) + [TornDown(name, id, stillCurrent)]
      ensures stillCurrent <==> LastInstalled(old(log), name) == Some(id)
      ensures nextConnId == old(nextConnId)
      ensures handles == if stillCurrent then old(handles)[name := Handle(id, false)] else old(handles)
    {
      assert Agrees(handles, log, name);
      stillCurrent := name in handles && handles[name].connId == id;
      if stillCurrent {
        handles := handles[name := handles[name].(connected := false)];
      }
      log := log + [TornDown(name, id, stillCurrent)];
      TeardownAgrees(old(handles), old(log), nextConnId, name, id);
    }
  }

  lemma {:induction false} InstallAgrees(
    handles: map<string, Handle>, log: seq<Event>, next: nat, name: string, id: nat, displaced: bool)
    requires IdsOk(log, next) && AllAgree(handles, log) && (forall n :: !Arrived(log, n, id)) && id < next
    requires displaced <==> Connected(handles, name)
    ensures var log' := log + [Installed(name, id, displaced)];
            IdsOk(log', next) && AllAgree(handles[name := Handle(id, true)], log')
  {
    var e := Installed(name, id, displaced);
    var log' := log + [e];
    SnocPast(log, e);
    forall n ensures LastInstalled(log', n).Some? ==> Arrived(log', n, LastInstalled(log', n).value) {
      Snoc(log, e, n);
    }
    assert IdsOk(log', next);
    var handles' := handles[name := Handle(id, true)];
    forall n ensures Agrees(handles', log', n) {
      Snoc(log, e, n);
      assert Agrees(handles, log, n);
    }
  }

  lemma {:induction false} TeardownAgrees(
    handles: map<string, Handle>, log: seq<Event>, next: nat, name: string, id: nat)
    requires IdsOk(log, next) && AllAgree(handles, log) && Arrived(log, name, id) && !Gone(log, id)
    ensures var current := name in handles && handles[name].connId == id;
            var log' := log + [TornDown(name, id, current)];
            && IdsOk(log', next)
            && AllAgree(if current then handles[name := handles[name].(connected := false)] else handles, log')
  {
    var current := name in handles && handles[name].connId == id;
    var e := TornDown(name, id, current);
    var log' := log + [e];
    SnocPast(log, e);
    forall n ensures LastInstalled(log', n) == LastInstalled(log, n) {
      Snoc(log, e, n);
    }
    assert IdsOk(log', next);
    var handles' := if current then handles[name := handles[name].(connected := false)] else handles;
    forall n ensures Agrees(handles', log', n) {
      Snoc(log, e, n);
      assert Agrees(handles, log, n);
    }
  }
}
