/** The configuration file and its retained revisions (switchyardd/src/admin.rs,
    `write_config_replacing_current` and `swap_with_prev`).

    An apply or a rollback is a sequence of file steps, and the daemon may stop, or a step may
    fail, between any two of them. Each operation also returns, as a ghost, the trail of states
    the directory passed through. */
module ConfigHistory {
  import opened Common

  /** The live file, the scratch file, and history slots 1 (newest) to 5. */
  datatype File = Live | Tmp | Slot(n: nat)

  const HISTORY: nat := 5

  type Files = map<File, string>

  /** `prev_slot_path` and `tmp_path_for`, for the slots in use. */
  function FileName(path: string, f: File): string
    requires f.Slot? ==> f.n <= HISTORY
  {
    match f
    case Live => path
    case Tmp => path + ".tmp"
    case Slot(n) => if n <= 1 then path + ".prev" else path + ".prev." + ["0123456789"[n]]
  }

  /** Different files have different names. */
  lemma {:induction false} NamesDiffer(path: string, f: File, g: File)
    requires f.Slot? ==> 1 <= f.n <= HISTORY
    requires g.Slot? ==> 1 <= g.n <= HISTORY
    ensures FileName(path, f) == FileName(path, g) <==> f == g
  {
    var a, b := FileName(path, f), FileName(path, g);
    if f.Slot? && g.Slot? && f.n > 1 && g.n > 1 {
      assert a[|path| + 6] == "0123456789"[f.n] && b[|path| + 6] == "0123456789"[g.n];
    }
  }

  function Lookup(files: Files, f: File): Option<string> {
    if f in files then Some(files[f]) else None
  }

  /** `rename`: one atomic step that replaces the target. */
  function Rename(files: Files, source: File, target: File): Files
    requires source in files && source != target
  {
    files[target := files[source]] - {source}
  }

  // ---------- what an apply leaves, stopped or finished ----------

  /** A text that was at `f` is at `f` or at `g`. */
  ghost predicate AtEither(before: Files, s: Files, f: File, g: File) {
    f in before ==> Lookup(s, f) == Some(before[f]) || Lookup(s, g) == Some(before[f])
  }

  /** Wherever an apply of `text` stops: each kept revision is in its slot or the next, the old
      live text is live or in slot 1, and no file that is ever loaded holds anything else. */
  ghost predicate Stopped(before: Files, s: Files, text: string) {
    && (forall n | 1 <= n < HISTORY :: AtEither(before, s, Slot(n), Slot(n + 1)))
    && AtEither(before, s, Live, Slot(1))
    && (Lookup(s, Live) == Lookup(before, Live)
        || (Live !in s && Lookup(s, Tmp) == Some(text))
        || Lookup(s, Live) == Some(text))
    && OnlyTexts(before, s, text)
  }

  /** Outside the scratch file, `s` holds `text` and texts that were there before. */
  ghost predicate OnlyTexts(before: Files, s: Files, text: string) {
    forall f | f in s && f != Tmp :: s[f] == text || exists g :: g in before && g != Tmp && before[g] == s[f]
  }

  /** A finished apply: everything one place down, `text` live, the oldest dropped. */
  ghost predicate Rotated(before: Files, after: Files, text: string) {
    && Lookup(after, Live) == Some(text)
    && Tmp !in after
    && Lookup(after, Slot(1)) == Lookup(before, Live)
    && (forall n | 1 <= n < HISTORY :: Lookup(after, Slot(n + 1)) == Lookup(before, Slot(n)))
  }

  /** The text that was at `f` is in one of the three files a rollback moves. */
  ghost predicate Kept(before: Files, s: Files, f: File) {
    f in before ==>
      || Lookup(s, Live) == Some(before[f])
      || Lookup(s, Tmp) == Some(before[f])
      || Lookup(s, Slot(1)) == Some(before[f])
  }

  /** Wherever a rollback stops, both texts are in some file, the older slots are untouched, and
      no file that is ever loaded holds anything new. */
  ghost predicate MidSwap(before: Files, s: Files) {
    && Kept(before, s, Live) && Kept(before, s, Slot(1))
    && (forall f | f != Live && f != Tmp && f != Slot(1) :: Lookup(s, f) == Lookup(before, f))
    && (forall f | f == Live || f == Slot(1) ::
          f in s ==> Lookup(s, f) == Lookup(before, Live) || Lookup(s, f) == Lookup(before, Slot(1)))
  }

  ghost predicate Swapped(before: Files, after: Files) {
    && Lookup(after, Live) == Lookup(before, Slot(1))
    && Lookup(after, Slot(1)) == Lookup(before, Live)
    && Tmp !in after
    && forall f | f != Live && f != Tmp && f != Slot(1) :: Lookup(after, f) == Lookup(before, f)
  }

  ghost predicate AllStopped(before: Files, trail: seq<Files>, text: string) {
    forall i | 0 <= i < |trail| :: Stopped(before, trail[i], text)
  }

  /** The directory while the rotation is at slot `n`: slots above `n + 1` hold what was one
      place up, slot `n + 1` is free, and slots up to `n` are as before. */
  ghost predicate Rotating(before: Files, s: Files, text: string, n: nat) {
    && Lookup(s, Live) == Lookup(before, Live) && Lookup(s, Tmp) == Some(text)
    && (forall k | n < k < HISTORY :: Lookup(s, Slot(k + 1)) == Lookup(before, Slot(k)))
    && Slot(n + 1) !in s
    && (forall k | 1 <= k <= n :: Lookup(s, Slot(k)) == Lookup(before, Slot(k)))
    && (forall k | k == 0 || k > HISTORY :: Lookup(s, Slot(k)) == Lookup(before, Slot(k)))
  }

  lemma {:induction false} RotatingIsStopped(before: Files, s: Files, text: string, n: nat)
    requires n < HISTORY && Rotating(before, s, text, n)
    ensures Stopped(before, s, text)
  {
    forall k | 1 <= k < HISTORY ensures AtEither(before, s, Slot(k), Slot(k + 1)) {
      assert k <= n ==> Lookup(s, Slot(k)) == Lookup(before, Slot(k));
      assert k > n ==> Lookup(s, Slot(k + 1)) == Lookup(before, Slot(k));
    }
    forall f | f in s && f != Tmp ensures exists g :: g in before && g != Tmp && before[g] == s[f] {
      match f
      case Live => assert Live in before;
      case Slot(k) =>
        if 1 <= k <= n || k == 0 || k > HISTORY {
          assert Lookup(s, Slot(k)) == Lookup(before, Slot(k));
          assert Slot(k) in before;
        } else {
          assert k != n + 1;
          assert Lookup(s, Slot(k - 1 + 1)) == Lookup(before, Slot(k - 1));
          assert Slot(k - 1) in before;
        }
    }
  }

  lemma {:induction false} RotateStep(before: Files, s: Files, text: string, n: nat)
    requires 1 <= n < HISTORY && Rotating(before, s, text, n)
    ensures Slot(n) in s ==> Slot(n + 1) !in s && Rotating(before, Rename(s, Slot(n), Slot(n + 1)), text, n - 1)
    ensures Slot(n) !in s ==> Rotating(before, s, text, n - 1)
  {
    assert Lookup(s, Slot(n)) == Lookup(before, Slot(n));
  }

  /** One turn of the rotation loop. */
  function Shift(files: Files, n: nat): Files {
    if Slot(n) in files then Rename(files, Slot(n), Slot(n + 1)) else files
  }

  /** The rotation loop from slot `n` down to slot 1, and the states it passes through. */
  function RotateFrom(files: Files, n: nat): Files
    decreases n
  {
    if n == 0 then files else RotateFrom(Shift(files, n), n - 1)
  }

  function RotationTrail(files: Files, n: nat): seq<Files>
    decreases n
  {
    if n == 0 then [] else [Shift(files, n)] + RotationTrail(Shift(files, n), n - 1)
  }

  /** The states from the start of the call up to the rotation. */
  function WriteTrail(files: Files, text: string, partial: string): seq<Files> {
    [files, files[Tmp := partial], files[Tmp := text], ReadyToRotate(files, text)]
  }

  function ReadyToRotate(files: Files, text: string): Files {
    files[Tmp := text] - {Slot(HISTORY)}
  }

  /** The live file becomes slot 1, then the scratch file becomes live. */
  function Retire(files: Files): Files {
    if Live in files then Rename(files, Live, Slot(1)) else files
  }

  function Publish(files: Files): Files {
    if Tmp in files then Rename(files, Tmp, Live) else files
  }

  /** The directory after an apply, and every state on the way. */
  function AfterApply(files: Files, text: string): Files {
    Publish(Retire(RotateFrom(ReadyToRotate(files, text), HISTORY - 1)))
  }

  function ApplyTrail(files: Files, text: string, partial: string): seq<Files> {
    var ready := ReadyToRotate(files, text);
    var retired := Retire(RotateFrom(ready, HISTORY - 1));
    WriteTrail(files, text, partial) + RotationTrail(ready, HISTORY - 1) + [retired, Publish(retired)]
  }

  lemma {:induction false} RotationIsSafe(before: Files, s: Files, text: string, n: nat)
    requires n < HISTORY && Rotating(before, s, text, n)
    ensures AllStopped(before, RotationTrail(s, n), text)
    ensures Rotating(before, RotateFrom(s, n), text, 0)
    decreases n
  {
    if n > 0 {
      RotateStep(before, s, text, n);
      RotatingIsStopped(before, Shift(s, n), text, n - 1);
      RotationIsSafe(before, Shift(s, n), text, n - 1);
    }
  }

  /** Wherever an apply stops, no text is lost but the one in slot 5. */
  lemma {:induction false} ApplyIsSafe(before: Files, text: string, partial: string)
    ensures AllStopped(before, ApplyTrail(before, text, partial), text)
  {
    var ready := ReadyToRotate(before, text);
    WriteIsSafe(before, text, partial);
    ReadyIsRotating(before, text);
    RotationIsSafe(before, ready, text, HISTORY - 1);
    var done := RotateFrom(ready, HISTORY - 1);
    FinishIsStopped(before, done, text);
    Joined(before, WriteTrail(before, text, partial), RotationTrail(ready, HISTORY - 1), text);
    Joined(before, WriteTrail(before, text, partial) + RotationTrail(ready, HISTORY - 1),
           [Retire(done), Publish(Retire(done))], text);
  }

  /** A finished apply has moved every revision one place down. */
  lemma {:induction false} ApplyRotates(before: Files, text: string)
    ensures Rotated(before, AfterApply(before, text), text)
  {
    ReadyIsRotating(before, text);
    RotationIsSafe(before, ReadyToRotate(before, text), text, HISTORY - 1);
    FinishIsStopped(before, RotateFrom(ReadyToRotate(before, text), HISTORY - 1), text);
  }

  lemma {:induction false} Joined(before: Files, a: seq<Files>, b: seq<Files>, text: string)
    requires AllStopped(before, a, text) && AllStopped(before, b, text)
    ensures AllStopped(before, a + b, text)
  {
  }

  lemma {:induction false} WriteIsSafe(before: Files, text: string, partial: string)
    ensures AllStopped(before, WriteTrail(before, text, partial), text)
  {
    ScratchIsStopped(before, text, partial);
    ReadyIsRotating(before, text);
    RotatingIsStopped(before, ReadyToRotate(before, text), text, HISTORY - 1);
  }

  lemma {:induction false} ScratchIsStopped(before: Files, text: string, partial: string)
    ensures Stopped(before, before, text)
    ensures Stopped(before, before[Tmp := partial], text)
    ensures Stopped(before, before[Tmp := text], text)
  {
  }

  lemma {:induction false} ReadyIsRotating(before: Files, text: string)
    ensures Rotating(before, ReadyToRotate(before, text), text, HISTORY - 1)
  {
  }

  lemma {:induction false} TrailStep(files: Files, n: nat)
    requires n >= 1
    ensures RotationTrail(files, n) == [Shift(files, n)] + RotationTrail(Shift(files, n), n - 1)
    ensures RotateFrom(files, n) == RotateFrom(Shift(files, n), n - 1)
  {
  }

  class ConfigFiles {
    var files: Files

    constructor (files: Files)
      ensures this.files == files
    {
      this.files := files;
    }

    /** `write_config_replacing_current`; `partial` is what a stop during the write leaves in the
        scratch file. */
    method WriteReplacing(text: string, ghost partial: string) returns (ghost trail: seq<Files>)
      modifies this
      ensures files == AfterApply(old(files), text)
      ensures trail == ApplyTrail(old(files), text, partial)
    {
      ghost var ready := ReadyToRotate(files, text);
      trail := [files, files[Tmp := partial]];
      files := files[Tmp := text];
      trail := trail + [files];
      files := files - {Slot(HISTORY)};
      trail := trail + [files];
      ghost var written := WriteTrail(old(files), text, partial);
      assert trail == written;
      var n := HISTORY - 1;
      while n >= 1
        invariant 0 <= n < HISTORY && Tmp in files
        invariant RotateFrom(files, n) == RotateFrom(ready, HISTORY - 1)
        invariant trail + RotationTrail(files, n) == written + RotationTrail(ready, HISTORY - 1)
      {
        ghost var from := files;
        if Slot(n) in files {
          files := Rename(files, Slot(n), Slot(n + 1));
        }
        assert files == Shift(from, n);
        TrailStep(from, n);
        trail := trail + [files];
        n := n - 1;
      }
      assert trail == trail + RotationTrail(files, 0) == written + RotationTrail(ready, HISTORY - 1);
      if Live in files {
        files := Rename(files, Live, Slot(1));
      }
      trail := trail + [files];
      files := Rename(files, Tmp, Live);
      trail := trail + [files];
    }

    /** `swap_with_prev` behind the checks of `config_rollback`: `loads` is whether the previous
        text still validates. */
    method Rollback(loads: bool) returns (r: RollbackResult, ghost trail: seq<Files>)
      modifies this
      ensures r == (if Slot(1) !in old(files) then NoPrevious else if !loads then Invalid
                    else if Live !in old(files) then IoError else RolledBack)
      ensures trail == if r.RolledBack? then SwapTrail(old(files)) else [old(files)]
      ensures files == trail[|trail| - 1]
    {
      trail := [files];
      if Slot(1) !in files {
        return NoPrevious, trail;
      }
      if !loads {
        return Invalid, trail;
      }
      if Live !in files {
        return IoError, trail; // the first rename fails and nothing has moved
      }
      files := Rename(files, Live, Tmp);
      trail := trail + [files];
      files := Rename(files, Slot(1), Live);
      trail := trail + [files];
      files := Rename(files, Tmp, Slot(1));
      trail := trail + [files];
      r := RolledBack;
    }
  }

  datatype RollbackResult = RolledBack | NoPrevious | Invalid | IoError

  lemma {:induction false} RetireIsStopped(before: Files, s: Files, text: string)
    requires Rotating(before, s, text, 0)
    ensures Stopped(before, Retire(s), text)
  {
    RotatingIsStopped(before, s, text, 0);
    var t := Retire(s);
    assert forall f | f != Live && f != Tmp && f != Slot(1) :: Lookup(t, f) == Lookup(s, f);
    forall f | f in t && f != Tmp
      ensures t[f] == text || exists g :: g in before && g != Tmp && before[g] == t[f]
    {
      if f == Slot(1) && Live in s {
        assert Live in before && before[Live] == t[f];
      } else {
        assert Lookup(t, f) == Lookup(s, f);
      }
    }
    forall n | 1 <= n < HISTORY ensures AtEither(before, t, Slot(n), Slot(n + 1)) {
      assert Lookup(s, Slot(n + 1)) == Lookup(before, Slot(n));
    }
  }

  lemma {:induction false} PublishIsStopped(before: Files, t: Files, text: string)
    requires Stopped(before, t, text) && Live !in t && Lookup(t, Tmp) == Some(text)
    ensures Stopped(before, Publish(t), text)
  {
    var u := Publish(t);
    assert forall f | f != Live && f != Tmp :: Lookup(u, f) == Lookup(t, f);
    forall f | f in u && f != Tmp
      ensures u[f] == text || exists g :: g in before && g != Tmp && before[g] == u[f]
    {
      if f != Live {
        assert Lookup(u, f) == Lookup(t, f);
      }
    }
    forall n | 1 <= n < HISTORY ensures AtEither(before, u, Slot(n), Slot(n + 1)) {
      assert AtEither(before, t, Slot(n), Slot(n + 1));
    }
  }

  lemma {:induction false} FinishRotates(before: Files, s: Files, text: string)
    requires Rotating(before, s, text, 0)
    ensures Rotated(before, Publish(Retire(s)), text)
    ensures Live !in Retire(s) && Lookup(Retire(s), Tmp) == Some(text)
    ensures Lookup(Retire(s), Slot(1)) == Lookup(before, Live)
  {
    var t := Retire(s);
    var u := Publish(t);
    assert forall f | f != Live && f != Tmp && f != Slot(1) :: Lookup(t, f) == Lookup(s, f);
    assert forall f | f != Live && f != Tmp :: Lookup(u, f) == Lookup(t, f);
    forall n | 1 <= n < HISTORY ensures Lookup(u, Slot(n + 1)) == Lookup(before, Slot(n)) {
      assert Lookup(s, Slot(n + 1)) == Lookup(before, Slot(n));
    }
  }

  /** The states after the rotation. */
  lemma {:induction false} FinishIsStopped(before: Files, s: Files, text: string)
    requires Rotating(before, s, text, 0)
    ensures Stopped(before, Retire(s), text)
    ensures Stopped(before, Publish(Retire(s)), text)
    ensures Rotated(before, Publish(Retire(s)), text)
  {
    hide Stopped, Retire, Publish, Rotated;
    RetireIsStopped(before, s, text);
    FinishRotates(before, s, text);
    PublishIsStopped(before, Retire(s), text);
  }

  /** The states a rollback passes through. */
  function SwapTrail(files: Files): seq<Files>
    requires Live in files && Slot(1) in files
  {
    var a := Rename(files, Live, Tmp);
    var b := Rename(a, Slot(1), Live);
    [files, a, b, Rename(b, Tmp, Slot(1))]
  }

  ghost predicate AllMidSwap(before: Files, trail: seq<Files>) {
    forall i | 0 <= i < |trail| :: MidSwap(before, trail[i])
  }

  /** Wherever a rollback stops both texts are still there; finished, they have changed places. */
  lemma {:induction false} SwapIsSafe(before: Files)
    requires Live in before && Slot(1) in before
    ensures AllMidSwap(before, SwapTrail(before))
    ensures Swapped(before, SwapTrail(before)[3])
  {
  }

  // ---------- completed operations refine a list of revisions ----------

  datatype Revisions = Revisions(live: string, history: seq<string>)

  /** The directory holds the live text and the revisions, newest first, in slots 1, 2, ... with
      no gap. */
  ghost predicate Represents(files: Files, r: Revisions) {
    && |r.history| <= HISTORY
    && Lookup(files, Live) == Some(r.live)
    && forall n | 1 <= n <= HISTORY ::
         Lookup(files, Slot(n)) == if n <= |r.history| then Some(r.history[n - 1]) else None
  }

  function Applied(r: Revisions, text: string): Revisions {
    var all := [r.live] + r.history;
    Revisions(text, if |all| <= HISTORY then all else all[..HISTORY])
  }

  function RolledBackTo(r: Revisions): Revisions
    requires r.history != []
  {
    Revisions(r.history[0], [r.live] + r.history[1..])
  }

  /** An apply pushes the live text onto the history and keeps the first five. */
  lemma {:induction false} ApplyRefines(before: Files, after: Files, r: Revisions, text: string)
    requires Represents(before, r) && Rotated(before, after, text)
    ensures Represents(after, Applied(r, text))
  {
    forall n | 1 <= n <= HISTORY
      ensures Lookup(after, Slot(n))
           == if n <= |Applied(r, text).history| then Some(Applied(r, text).history[n - 1]) else None
    {
      if n > 1 {
        assert Lookup(after, Slot(n - 1 + 1)) == Lookup(before, Slot(n - 1));
      }
    }
  }

  /** A rollback exchanges the live text with the newest revision, and a second one undoes it. */
  lemma {:induction false} RollbackRefines(before: Files, after: Files, r: Revisions)
    requires Represents(before, r) && r.history != [] && Swapped(before, after)
    ensures Represents(after, RolledBackTo(r))
    ensures RolledBackTo(RolledBackTo(r)) == r
  {
    assert Lookup(before, Slot(1)) == Some(r.history[0]);
    assert [r.history[0]] + r.history[1..] == r.history;
  }

  datatype Operation = Apply(text: string) | Undo

  /** A completed operation on the directory; a rollback needs a revision to return to. */
  function Perform(files: Files, op: Operation): Files {
    match op
    case Apply(text) => AfterApply(files, text)
    case Undo => if Live in files && Slot(1) in files then SwapTrail(files)[3] else files
  }

  function PerformAll(files: Files, ops: seq<Operation>): Files {
    if ops == [] then files else Perform(PerformAll(files, ops[..|ops| - 1]), ops[|ops| - 1])
  }

  /** The same operations on the list of revisions. */
  function Revise(r: Revisions, op: Operation): Revisions {
    match op
    case Apply(text) => Applied(r, text)
    case Undo => if r.history == [] then r else RolledBackTo(r)
  }

  function ReviseAll(r: Revisions, ops: seq<Operation>): Revisions {
    if ops == [] then r else Revise(ReviseAll(r, ops[..|ops| - 1]), ops[|ops| - 1])
  }

  /** Every run of completed applies and rollbacks keeps the directory a live text and a gapless
      history of at most five, and treats it as that list. */
  lemma {:induction false} RunRefines(files: Files, r: Revisions, ops: seq<Operation>)
    requires Represents(files, r)
    ensures Represents(PerformAll(files, ops), ReviseAll(r, ops))
  {
    if ops != [] {
      var front, op := ops[..|ops| - 1], ops[|ops| - 1];
      RunRefines(files, r, front);
      var before, now := PerformAll(files, front), ReviseAll(r, front);
      assert Lookup(before, Slot(1)) == if now.history != [] then Some(now.history[0]) else None;
      match op
      case Apply(text) =>
        ApplyRotates(before, text);
        ApplyRefines(before, AfterApply(before, text), now, text);
      case Undo =>
        if now.history != [] {
          SwapIsSafe(before);
          RollbackRefines(before, SwapTrail(before)[3], now);
        }
    }
  }

  /** The filled slots run from 1 without a gap. */
  ghost predicate Contiguous(files: Files) {
    forall n | 1 <= n < HISTORY :: Slot(n + 1) in files ==> Slot(n) in files
  }

  /** An apply keeps the slots contiguous exactly when there was a live file to push, or nothing
      to push it in front of. */
  lemma {:induction false} ContiguousIff(before: Files, after: Files, text: string)
    requires Contiguous(before) && Rotated(before, after, text)
    ensures Contiguous(after) <==> Live in before || Slot(1) !in before
  {
    assert Lookup(after, Slot(1 + 1)) == Lookup(before, Slot(1));
    assert Lookup(after, Slot(1)) == Lookup(before, Live);
    if Live in before || Slot(1) !in before {
      forall n | 1 <= n < HISTORY ensures Slot(n + 1) in after ==> Slot(n) in after {
        assert Lookup(after, Slot(n + 1)) == Lookup(before, Slot(n));
        if n > 1 {
          assert Lookup(after, Slot(n - 1 + 1)) == Lookup(before, Slot(n - 1));
          assert Slot(n - 1 + 1) in before ==> Slot(n - 1) in before;
        }
      }
    }
  }

  /** Some file of the configuration holds `text`. */
  predicate Holds(files: Files, text: string) {
    || Lookup(files, Live) == Some(text)
    || Lookup(files, Tmp) == Some(text)
    || exists n | 1 <= n <= HISTORY :: Lookup(files, Slot(n)) == Some(text)
  }

  /** Where an apply leaves what it found, slot by slot. */
  lemma {:induction false} HoldsAfterApply(files: Files, text: string, wanted: string)
    ensures Holds(AfterApply(files, text), wanted)
       <==> || text == wanted || Lookup(files, Live) == Some(wanted)
            || exists n | 1 <= n < HISTORY :: Lookup(files, Slot(n)) == Some(wanted)
  {
    hide AfterApply;
    var after := AfterApply(files, text);
    ApplyRotates(files, text);
    if n :| 1 <= n < HISTORY && Lookup(files, Slot(n)) == Some(wanted) {
      assert Lookup(after, Slot(n + 1)) == Some(wanted);
    }
    if Lookup(files, Live) == Some(wanted) {
      assert Lookup(after, Slot(1)) == Some(wanted);
    }
    if n :| 1 <= n <= HISTORY && Lookup(after, Slot(n)) == Some(wanted) {
      if n > 1 {
        assert Lookup(after, Slot(n - 1 + 1)) == Lookup(files, Slot(n - 1));
      }
    }
  }

  /** A rollback stopped anywhere, then an apply: the previous revision always survives. The old
      live text survives a stop before the first rename or after the third; in between it is in the
      scratch file only, which the apply overwrites, so it survives exactly if one of the four
      newest revisions or the new text equals it. */
  lemma {:induction false} StoppedRollbackThenApply(before: Files, stop: nat, text: string)
    requires Live in before && Slot(1) in before && stop < 4
    ensures Holds(AfterApply(SwapTrail(before)[stop], text), before[Slot(1)])
    ensures Holds(AfterApply(SwapTrail(before)[stop], text), before[Live])
       <==> || stop == 0 || stop == 3 || text == before[Live]
            || exists n | 1 <= n < HISTORY :: Lookup(before, Slot(n)) == Some(before[Live])
  {
    var s := SwapTrail(before)[stop];
    HoldsAfterApply(s, text, before[Live]);
    HoldsAfterApply(s, text, before[Slot(1)]);
    hide AfterApply, Holds;
    assert forall n | 2 <= n <= HISTORY :: Lookup(s, Slot(n)) == Lookup(before, Slot(n));
    assert Lookup(s, Live) == (if stop == 0 then Some(before[Live])
                               else if stop == 1 then None else Some(before[Slot(1)]));
    assert Lookup(s, Slot(1)) == (if stop <= 1 then Some(before[Slot(1)])
                                  else if stop == 2 then None else Some(before[Live]));
  }
}
