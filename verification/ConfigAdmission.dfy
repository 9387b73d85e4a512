/** Which configurations the admin API can bring to life (switchyardd/src/admin.rs, `config_put`,
    `config_rollback` and the two `rejected_*` checks).

    A `PUT` makes its three checks against separate snapshots of the running configuration, then
    writes and applies under the write lock; other requests, and stops or failures part-way
    through the file steps, may come in between. A restart forgets the requests and runs what the
    live file then holds. Parsing is a parameter. */
module ConfigAdmission {
  import opened Common
  import opened ConfigHistory

  /** What the checks look at: plugin commands, secret references by plugin, the data directory. */
  datatype Config = Config(commands: map<string, Option<string>>, refs: set<(string, string)>, dataDir: string)

  /** The (plugin, command) pairs that would be executed. */
  function Commands(commands: map<string, Option<string>>): set<(string, string)> {
    set n | n in commands && commands[n].Some? :: (n, commands[n].value)
  }

  /** `rejected_command_changes`: the plugins whose command is new or changed. */
  function RejectedCommands(current: map<string, Option<string>>, proposed: Config): set<string> {
    set n | && n in proposed.commands && proposed.commands[n].Some?
            && !(n in current && current[n] == proposed.commands[n])
  }

  /** `rejected_secret_ref_changes`. */
  function RejectedRefs(current: set<(string, string)>, proposed: Config): set<(string, string)> {
    proposed.refs - current
  }

  /** A plugin is named exactly if it has a command that is not running for it. */
  lemma {:induction false} RejectedMeans(current: map<string, Option<string>>, proposed: Config, n: string)
    ensures n in RejectedCommands(current, proposed)
       <==> exists cmd :: (n, cmd) in Commands(proposed.commands) && (n, cmd) !in Commands(current)
  {
    if n in RejectedCommands(current, proposed) {
      var cmd := proposed.commands[n].value;
      assert (n, cmd) in Commands(proposed.commands) && (n, cmd) !in Commands(current);
    }
  }

  /** Nothing is rejected exactly when every pair is already running. */
  lemma {:induction false} AcceptedCommands(current: map<string, Option<string>>, proposed: Config)
    ensures RejectedCommands(current, proposed) == {} <==> Commands(proposed.commands) <= Commands(current)
  {
    if RejectedCommands(current, proposed) == {} {
      forall p | p in Commands(proposed.commands) ensures p in Commands(current) {
        assert p.0 !in RejectedCommands(current, proposed);
      }
    } else {
      var n :| n in RejectedCommands(current, proposed);
      var p := (n, proposed.commands[n].value);
      assert p in Commands(proposed.commands) && p !in Commands(current);
    }
  }

  lemma {:induction false} AcceptedRefs(current: set<(string, string)>, proposed: Config)
    ensures RejectedRefs(current, proposed) == {} <==> proposed.refs <= current
  {
    assert forall p | p in proposed.refs && p !in current :: p in RejectedRefs(current, proposed);
  }

  // ---------- requests in flight ----------

  datatype Request = Request(text: string, commandsOk: bool, dirOk: bool, refsOk: bool)

  datatype State = State(files: Files, running: Config, pending: map<nat, Request>)

  /** `stop` is where the file steps end when they do not all complete. */
  datatype Event =
    | Submit(id: nat, text: string)
    | CheckCommands(id: nat)
    | CheckDataDir(id: nat)
    | CheckRefs(id: nat)
    | Commit(id: nat, partial: string, stop: Option<nat>)
    | Undo(stop: Option<nat>)
    | Restart

  predicate Enabled(parse: string -> Config, s: State, e: Event) {
    match e
    case Submit(id, text) => id !in s.pending
    case CheckCommands(id) =>
      id in s.pending && RejectedCommands(s.running.commands, parse(s.pending[id].text)) == {}
    case CheckDataDir(id) => id in s.pending && parse(s.pending[id].text).dataDir == s.running.dataDir
    case CheckRefs(id) => id in s.pending && RejectedRefs(s.running.refs, parse(s.pending[id].text)) == {}
    case Commit(id, partial, stop) =>
      && id in s.pending
      && s.pending[id].commandsOk && s.pending[id].dirOk && s.pending[id].refsOk
      && (stop.Some? ==> stop.value < |ApplyTrail(s.files, s.pending[id].text, partial)|)
    case Undo(stop) => Live in s.files && Slot(1) in s.files && (stop.Some? ==> stop.value < 4)
    case Restart => Live in s.files
  }

  function Step(parse: string -> Config, s: State, e: Event): State
    requires Enabled(parse, s, e)
  {
    match e
    case Submit(id, text) => s.(pending := s.pending[id := Request(text, false, false, false)])
    case CheckCommands(id) => s.(pending := s.pending[id := s.pending[id].(commandsOk := true)])
    case CheckDataDir(id) => s.(pending := s.pending[id := s.pending[id].(dirOk := true)])
    case CheckRefs(id) => s.(pending := s.pending[id := s.pending[id].(refsOk := true)])
    case Commit(id, partial, stop) =>
      var text := s.pending[id].text;
      if stop.Some? then State(ApplyTrail(s.files, text, partial)[stop.value], s.running, s.pending - {id})
      else State(AfterApply(s.files, text), parse(text), s.pending - {id})
    case Undo(stop) =>
      if stop.Some? then s.(files := SwapTrail(s.files)[stop.value])
      else s.(files := SwapTrail(s.files)[3], running := parse(s.files[Slot(1)]))
    case Restart => State(s.files, parse(s.files[Live]), map[])
  }

  // ---------- what can ever be live ----------

  datatype Origin = Origin(commands: set<(string, string)>, refs: set<(string, string)>, dirs: set<string>)

  /** Everything the live file and the retained revisions mention. */
  function OriginOf(parse: string -> Config, files: Files): Origin {
    Origin(set f, p | f in files && f != Tmp && p in Commands(parse(files[f]).commands) :: p,
           set f, p | f in files && f != Tmp && p in parse(files[f]).refs :: p,
           set f | f in files && f != Tmp :: parse(files[f]).dataDir)
  }

  ghost predicate From(c: Config, o: Origin) {
    Commands(c.commands) <= o.commands && c.refs <= o.refs && c.dataDir in o.dirs
  }

  ghost predicate FilesFrom(parse: string -> Config, files: Files, o: Origin) {
    forall f | f in files && f != Tmp :: From(parse(files[f]), o)
  }

  ghost predicate RequestFrom(parse: string -> Config, r: Request, o: Origin) {
    && (r.commandsOk ==> Commands(parse(r.text).commands) <= o.commands)
    && (r.refsOk ==> parse(r.text).refs <= o.refs)
    && (r.dirOk ==> parse(r.text).dataDir in o.dirs)
  }

  ghost predicate Inv(parse: string -> Config, s: State, o: Origin) {
    && From(s.running, o)
    && FilesFrom(parse, s.files, o)
    && forall id | id in s.pending :: RequestFrom(parse, s.pending[id], o)
  }

  lemma {:induction false} StoppedFrom(parse: string -> Config, before: Files, s: Files, text: string, o: Origin)
    requires FilesFrom(parse, before, o) && From(parse(text), o) && OnlyTexts(before, s, text)
    ensures FilesFrom(parse, s, o)
  {
    forall f | f in s && f != Tmp ensures From(parse(s[f]), o) {
      if s[f] != text {
        var g :| g in before && g != Tmp && before[g] == s[f];
      }
    }
  }

  lemma {:induction false} MidSwapFrom(parse: string -> Config, before: Files, s: Files, o: Origin)
    requires FilesFrom(parse, before, o) && MidSwap(before, s)
    ensures FilesFrom(parse, s, o)
  {
    forall f | f in s && f != Tmp ensures From(parse(s[f]), o) {
      if f != Live && f != Slot(1) {
        assert Lookup(s, f) == Lookup(before, f);
      }
    }
  }

  lemma {:induction false} CommitKeepsOrigin(
    parse: string -> Config, s: State, id: nat, partial: string, stop: Option<nat>, o: Origin)
    requires Inv(parse, s, o) && Enabled(parse, s, Commit(id, partial, stop))
    ensures Inv(parse, Step(parse, s, Commit(id, partial, stop)), o)
  {
    var text := s.pending[id].text;
    assert From(parse(text), o);
    var trail := ApplyTrail(s.files, text, partial);
    ApplyIsSafe(s.files, text, partial);
    var i := if stop.Some? then stop.value else |trail| - 1;
    assert Stopped(s.files, trail[i], text);
    StoppedFrom(parse, s.files, trail[i], text, o);
  }

  lemma {:induction false} StepKeepsOrigin(parse: string -> Config, s: State, e: Event, o: Origin)
    requires Inv(parse, s, o) && Enabled(parse, s, e)
    ensures Inv(parse, Step(parse, s, e), o)
  {
    match e
    case Submit(id, text) =>
    case CheckCommands(id) => AcceptedCommands(s.running.commands, parse(s.pending[id].text));
    case CheckDataDir(id) =>
    case CheckRefs(id) => AcceptedRefs(s.running.refs, parse(s.pending[id].text));
    case Commit(id, partial, stop) => CommitKeepsOrigin(parse, s, id, partial, stop, o);
    case Undo(stop) =>
      SwapIsSafe(s.files);
      MidSwapFrom(parse, s.files, SwapTrail(s.files)[if stop.Some? then stop.value else 3], o);
    case Restart =>
  }

  ghost predicate IsRun(parse: string -> Config, run: seq<State>, events: seq<Event>) {
    && |run| == |events| + 1
    && Live in run[0].files && run[0].running == parse(run[0].files[Live]) && run[0].pending == map[]
    && forall i | 0 <= i < |events| :: Enabled(parse, run[i], events[i]) && run[i + 1] == Step(parse, run[i], events[i])
  }

  // ---------- which configuration runs ----------

  /** After step `i`: nothing was stopped part-way since the last apply, rollback or restart that
      completed. */
  predicate InOrder(events: seq<Event>, i: nat)
    requires i <= |events|
  {
    i == 0 ||
    match events[i - 1]
    case Commit(_, _, stop) => stop.None?
    case Undo(stop) => stop.None?
    case Restart => true
    case _ => InOrder(events, i - 1)
  }

  /** A completed apply makes the submitted text live and runs it. */
  lemma {:induction false} ApplyRuns(parse: string -> Config, s: State, id: nat, partial: string)
    requires Enabled(parse, s, Commit(id, partial, None))
    ensures var s' := Step(parse, s, Commit(id, partial, None));
            && Lookup(s'.files, Live) == Some(s.pending[id].text) && s'.running == parse(s.pending[id].text)
            && Rotated(s.files, s'.files, s.pending[id].text)
  {
    hide AfterApply;
    ApplyRotates(s.files, s.pending[id].text);
  }

  /** A completed rollback makes what slot 1 held live and runs it, and keeps the old live text in
      slot 1. */
  lemma {:induction false} RollbackRuns(parse: string -> Config, s: State)
    requires Enabled(parse, s, Event.Undo(None))
    ensures var s' := Step(parse, s, Event.Undo(None));
            && Lookup(s'.files, Live) == Some(s.files[Slot(1)]) && s'.running == parse(s.files[Slot(1)])
            && Lookup(s'.files, Slot(1)) == Some(s.files[Live]) && s'.pending == s.pending
  {
    SwapIsSafe(s.files);
  }

  lemma {:induction false} StepRunsLive(parse: string -> Config, s: State, e: Event)
    requires Enabled(parse, s, e) && !(e.Commit? && e.stop.Some?) && !(e.Undo? && e.stop.Some?)
    requires e.Commit? || e.Undo? || e.Restart? || (Live in s.files && s.running == parse(s.files[Live]))
    ensures var s' := Step(parse, s, e); Live in s'.files && s'.running == parse(s'.files[Live])
  {
    match e
    case Commit(id, partial, stop) => ApplyRuns(parse, s, id, partial);
    case Undo(stop) => RollbackRuns(parse, s);
    case _ =>
  }

  /** In every run, what runs is what the live file says, in every state with nothing stopped part-way
      since the last apply, rollback or restart that completed. */
  lemma {:induction false} RunningIsLive(parse: string -> Config, run: seq<State>, events: seq<Event>, i: nat)
    requires IsRun(parse, run, events) && i < |run| && InOrder(events, i)
    ensures Live in run[i].files && run[i].running == parse(run[i].files[Live])
  {
    if i > 0 {
      if !events[i - 1].Commit? && !events[i - 1].Undo? && !events[i - 1].Restart? {
        RunningIsLive(parse, run, events, i - 1);
      }
      StepRunsLive(parse, run[i - 1], events[i - 1]);
    }
  }

  /** A stop changes files only; so an apply whose last step was its stop leaves the submitted text
      live, and what runs is that text exactly if it parses to what was running. */
  lemma {:induction false} StoppedApplyRuns(parse: string -> Config, s: State, id: nat, partial: string, stop: nat)
    requires Enabled(parse, s, Commit(id, partial, Some(stop)))
    ensures var s' := Step(parse, s, Commit(id, partial, Some(stop))); s'.running == s.running
    ensures stop == |ApplyTrail(s.files, s.pending[id].text, partial)| - 1 ==>
              var s' := Step(parse, s, Commit(id, partial, Some(stop)));
              && Lookup(s'.files, Live) == Some(s.pending[id].text)
              && (s'.running == parse(s'.files[Live]) <==> parse(s.pending[id].text) == s.running)
  {
    ApplyRotates(s.files, s.pending[id].text);
  }

  /** A request whose pairs and data directory are all running already passes its checks. */
  lemma {:induction false} ChecksPassIff(parse: string -> Config, s: State, id: nat)
    requires id in s.pending
    ensures Enabled(parse, s, CheckCommands(id))
       <==> Commands(parse(s.pending[id].text).commands) <= Commands(s.running.commands)
    ensures Enabled(parse, s, CheckRefs(id)) <==> parse(s.pending[id].text).refs <= s.running.refs
    ensures Enabled(parse, s, CheckDataDir(id)) <==> parse(s.pending[id].text).dataDir == s.running.dataDir
  {
    AcceptedCommands(s.running.commands, parse(s.pending[id].text));
    AcceptedRefs(s.running.refs, parse(s.pending[id].text));
  }

  /** A stopped rollback leaves the directory as it was after that many renames, and what runs alone. */
  lemma {:induction false} StoppedRollbackRuns(parse: string -> Config, s: State, stop: nat)
    requires Enabled(parse, s, Event.Undo(Some(stop)))
    ensures var s' := Step(parse, s, Event.Undo(Some(stop)));
            && s'.running == s.running && s'.pending == s.pending
            && Lookup(s'.files, Live) == (if stop == 0 then Some(s.files[Live]) else if stop == 1 then None
                                          else Some(s.files[Slot(1)]))
            && Lookup(s'.files, Slot(1)) == (if stop <= 1 then Some(s.files[Slot(1)]) else if stop == 2 then None
                                             else Some(s.files[Live]))
            && (stop == 1 || stop == 2 ==> Lookup(s'.files, Tmp) == Some(s.files[Live]))
  {
  }

  /** A request with nothing new in it, left to itself, goes through: every check passes, and in the end
      its text is live and runs. */
  lemma {:induction false} AcceptableApplies(parse: string -> Config, s: State, id: nat, text: string, partial: string)
    requires id !in s.pending
    requires Commands(parse(text).commands) <= Commands(s.running.commands)
    requires parse(text).refs <= s.running.refs && parse(text).dataDir == s.running.dataDir
    ensures Enabled(parse, s, Submit(id, text))
    ensures var s1 := Step(parse, s, Submit(id, text));
            && Enabled(parse, s1, CheckCommands(id))
            && var s2 := Step(parse, s1, CheckCommands(id));
               && Enabled(parse, s2, CheckDataDir(id))
               && var s3 := Step(parse, s2, CheckDataDir(id));
                  && Enabled(parse, s3, CheckRefs(id))
                  && var s4 := Step(parse, s3, CheckRefs(id));
                     && Enabled(parse, s4, Commit(id, partial, None))
                     && var s5 := Step(parse, s4, Commit(id, partial, None));
                        Lookup(s5.files, Live) == Some(text) && s5.running == parse(text)
  {
    AcceptedCommands(s.running.commands, parse(text));
    AcceptedRefs(s.running.refs, parse(text));
    ApplyRotates(s.files, text);
    hide AfterApply, ApplyTrail;
  }

  // ---------- what can ever run ----------

  /** Through any interleaving of writes, rollbacks, stale checks, part-way stops and restarts, every
      command, secret reference and data directory in the running configuration, the live file
      or a retained revision was in one of those files at the start. */
  lemma {:induction false} NothingIsIntroduced(parse: string -> Config, run: seq<State>, events: seq<Event>, i: nat)
    requires IsRun(parse, run, events) && i < |run|
    ensures var o := OriginOf(parse, run[0].files);
            From(run[i].running, o) && FilesFrom(parse, run[i].files, o)
  {
    RunKeepsOrigin(parse, run, events, i);
  }

  lemma {:induction false} RunKeepsOrigin(parse: string -> Config, run: seq<State>, events: seq<Event>, i: nat)
    requires IsRun(parse, run, events) && i < |run|
    ensures Inv(parse, run[i], OriginOf(parse, run[0].files))
  {
    var o := OriginOf(parse, run[0].files);
    if i == 0 {
      StartIsFrom(parse, run[0].files);
    } else {
      RunKeepsOrigin(parse, run, events, i - 1);
      StepKeepsOrigin(parse, run[i - 1], events[i - 1], o);
    }
  }

  lemma {:induction false} StartIsFrom(parse: string -> Config, files: Files)
    ensures FilesFrom(parse, files, OriginOf(parse, files))
  {
    var o := OriginOf(parse, files);
    forall f | f in files && f != Tmp ensures From(parse(files[f]), o) {
      forall p | p in Commands(parse(files[f]).commands) ensures p in o.commands {
      }
    }
  }
}
