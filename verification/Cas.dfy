/** The content-addressed attachment store (switchyardd/src/cas.rs).

    A call of `put` or `remove` is a sequence of atomic steps on two shared things, the blob
    files and the byte counter, and steps of any number of calls may interleave. SHA-256 is a
    parameter; no two blobs that are put collide. Files found at the start may be damaged; the
    accounting needs only that none is longer than the blob whose name it bears. */
module CasStore {
  import opened Common
  import opened Sums

  type Bytes = seq<bv8>

  datatype Error = BudgetExceeded | InvalidSha | NotFound | Corrupt | Io

  datatype Outcome = Stored(sha: string) | Removed | Failed(error: Error)

  /** What a store fixes at start: the digest and the budget (0 is unlimited). */
  datatype Store = Store(hash: Bytes -> string, budget: nat)

  /** How the start-up walk went: bytes it found in files that are no blobs, and bytes of blobs it
      could not read. */
  datatype Walk = Walk(found: nat, missed: nat)

  predicate IsValidSha(sha: string) {
    |sha| == 64 && forall c | c in sha :: '0' <= c <= '9' || 'a' <= c <= 'f'
  }

  /** Sixty-four hexadecimal digits in lower case: no name that passes leads out of the directory. */
  lemma {:induction false} ValidShaIff(sha: string)
    ensures IsValidSha(sha) <==> |sha| == 64 && forall i | 0 <= i < 64 :: sha[i] in "0123456789abcdef"
  {
    if IsValidSha(sha) {
      forall i | 0 <= i < 64 ensures sha[i] in "0123456789abcdef" {
        assert sha[i] in sha;
        HexDigit(sha[i]);
      }
    }
    if |sha| == 64 && forall i | 0 <= i < 64 :: sha[i] in "0123456789abcdef" {
      forall c | c in sha ensures '0' <= c <= '9' || 'a' <= c <= 'f' {
        var i :| 0 <= i < 64 && sha[i] == c;
        HexDigit(c);
      }
    }
  }

  lemma {:induction false} HexDigit(c: char)
    ensures c in "0123456789abcdef" <==> '0' <= c <= '9' || 'a' <= c <= 'f'
  {
    var digits := "0123456789abcdef";
    if '0' <= c <= '9' {
      assert digits[c as int - '0' as int] == c;
    } else if 'a' <= c <= 'f' {
      assert digits[10 + c as int - 'a' as int] == c;
    }
  }

  /** `blobs` are the contents that are put; their digests are well formed and distinct. */
  ghost predicate Digests(c: Store, blobs: set<Bytes>) {
    && (forall d | d in blobs :: IsValidSha(c.hash(d)))
    && (forall d, e | d in blobs && e in blobs && c.hash(d) == c.hash(e) :: d == e)
  }

  // ---------- the step machine ----------

  /** Where one call stands: each constructor names the last step it has completed. */
  datatype Proc =
    | PutStart(data: Bytes)
    | PutFresh(data: Bytes)     // no file of that name was seen
    | PutAdmitted(data: Bytes)  // the budget check passed
    | PutStaged(data: Bytes)    // the temporary file is written
    | PutRenamed(data: Bytes)   // published, not yet added to the counter
    | RemoveStart(sha: string)
    | RemoveStatted(sha: string, size: Option<nat>)
    | RemoveUnlinked(owed: nat) // unlinked, not yet subtracted from the counter
    | Done(outcome: Outcome)

  /** `orphans` are the bytes that failed puts have left behind in temporary files. */
  datatype State = State(files: map<string, Bytes>, counter: nat, orphans: nat, procs: map<nat, Proc>)

  function Saturate(counter: nat, size: nat): nat {
    if counter >= size then counter - size else 0
  }

  /** The new position of call `p`, and its effect on the files and the counter. */
  function StepProc(c: Store, files: map<string, Bytes>, counter: nat, p: Proc)
    : (map<string, Bytes>, nat, Proc)
  {
    match p
    case PutStart(d) =>
      (files, counter, if c.hash(d) in files then Done(Stored(c.hash(d))) else PutFresh(d))
    case PutFresh(d) =>
      (files, counter,
       if c.budget > 0 && counter + |d| > c.budget then Done(Failed(BudgetExceeded)) else PutAdmitted(d))
    case PutAdmitted(d) => (files, counter, PutStaged(d))
    case PutStaged(d) => (files[c.hash(d) := d], counter, PutRenamed(d))
    case PutRenamed(d) => (files, counter + |d|, Done(Stored(c.hash(d))))
    case RemoveStart(sha) =>
      (files, counter,
       if IsValidSha(sha)
       then RemoveStatted(sha, if sha in files then Some(|files[sha]|) else None)
       else Done(Failed(InvalidSha)))
    case RemoveStatted(sha, size) =>
      if sha !in files then (files, counter, Done(Removed))
      else (files - {sha}, counter, if size.Some? then RemoveUnlinked(size.value) else Done(Removed))
    case RemoveUnlinked(size) => (files, Saturate(counter, size), Done(Removed))
    case Done(_) => (files, counter, p)
  }

  /** A step fails on the disk; `left` is what it leaves of a temporary file. */
  datatype Event = Call(pid: nat, proc: Proc) | Advance(pid: nat) | Fault(pid: nat, left: nat)

  /** A call starts, takes its next step, or fails in a step that touches the disk: a failed write
      leaves any part of the temporary file, a failed rename all of it. */
  ghost predicate Enabled(blobs: set<Bytes>, s: State, e: Event) {
    match e
    case Call(pid, p) => pid !in s.procs && (p.RemoveStart? || (p.PutStart? && p.data in blobs))
    case Advance(pid) => pid in s.procs
    case Fault(pid, left) =>
      pid in s.procs
      && var p := s.procs[pid];
         || (p.PutAdmitted? && left <= |p.data|)
         || (p.PutStaged? && left == |p.data|)
         || (p.RemoveStatted? && left == 0)
  }

  function Apply(c: Store, s: State, e: Event): State {
    match e
    case Call(pid, p) => s.(procs := s.procs[pid := p])
    case Advance(pid) =>
      if pid !in s.procs then s else
      var (files, counter, p) := StepProc(c, s.files, s.counter, s.procs[pid]);
      State(files, counter, s.orphans, s.procs[pid := p])
    case Fault(pid, left) =>
      s.(orphans := s.orphans + left, procs := s.procs[pid := Done(Failed(Io))])
  }

  ghost predicate IsRun(c: Store, blobs: set<Bytes>, run: seq<State>, events: seq<Event>) {
    && |run| == |events| + 1
    && forall i | 0 <= i < |events| :: Enabled(blobs, run[i], events[i]) && run[i + 1] == Apply(c, run[i], events[i])
  }

  // ---------- byte accounting ----------

  function BlobBytes(d: Bytes): nat { |d| }

  function RenamedBytes(p: Proc): nat { if p.PutRenamed? then |p.data| else 0 }

  function UnlinkedBytes(p: Proc): nat { if p.RemoveUnlinked? then p.owed else 0 }

  /** At most this much of a temporary file is on disk: past the check it may be partly written. */
  function StagedBytes(p: Proc): nat { if p.PutAdmitted? || p.PutStaged? then |p.data| else 0 }

  /** A `put` is in its window from the budget check until the counter is bumped. */
  function WindowCount(p: Proc): nat { if p.PutAdmitted? || p.PutStaged? || p.PutRenamed? then 1 else 0 }

  function WindowBytes(p: Proc): nat { if WindowCount(p) == 1 then |p.data| else 0 }

  /** Bytes of the published blobs. */
  ghost function Live(files: map<string, Bytes>): nat { SumBy(files, BlobBytes) }

  /** Everything in the directory: published blobs, temporary files of calls in flight, those that
      failed calls left behind, and what was there at the start. */
  ghost function DiskUse(w: Walk, s: State): nat {
    Live(s.files) + SumBy(s.procs, StagedBytes) + s.orphans + w.found
  }

  /** No file is longer than a blob that has its name for a digest. */
  ghost predicate NotLonger(c: Store, blobs: set<Bytes>, files: map<string, Bytes>) {
    forall d | d in blobs && c.hash(d) in files :: |files[c.hash(d)]| <= |d|
  }

  /** What a `remove` has seen of the size is no more than what it will unlink, now or later. */
  ghost predicate ProcOk(c: Store, blobs: set<Bytes>, files: map<string, Bytes>, p: Proc) {
    match p
    case RemoveStatted(sha, size) =>
      size.Some? ==>
        && (sha in files ==> size.value <= |files[sha]|)
        && (forall d | d in blobs && c.hash(d) == sha :: size.value <= |d|)
    case RemoveStart(_) => true
    case RemoveUnlinked(_) => true
    case Done(_) => true
    case _ => p.data in blobs
  }

  ghost predicate Placed(c: Store, blobs: set<Bytes>, s: State) {
    NotLonger(c, blobs, s.files) && forall pid | pid in s.procs :: ProcOk(c, blobs, s.files, s.procs[pid])
  }

  /** Counter, bytes renamed but not yet added, and what the walk missed are at least the live
      bytes, those unlinked but not yet subtracted, and what the walk found besides blobs. */
  ghost predicate Accounted(w: Walk, s: State) {
    s.counter + SumBy(s.procs, RenamedBytes) + w.missed >= Live(s.files) + SumBy(s.procs, UnlinkedBytes) + w.found
  }

  ghost predicate Inv(c: Store, w: Walk, blobs: set<Bytes>, s: State) {
    Placed(c, blobs, s) && Accounted(w, s)
  }

  lemma {:induction false} PutPublishes(c: Store, files: map<string, Bytes>, d: Bytes)
    ensures Live(files[c.hash(d) := d]) <= Live(files) + |d|
    ensures c.hash(d) !in files ==> Live(files[c.hash(d) := d]) == Live(files) + |d|
  {
    SumByUpdate(files, BlobBytes, c.hash(d), d);
  }

  /** A step keeps what every call knows of the files. */
  lemma {:induction false} StepKeepsPlaces(c: Store, blobs: set<Bytes>, s: State, pid: nat)
    requires Digests(c, blobs) && Placed(c, blobs, s) && pid in s.procs
    ensures Placed(c, blobs, Apply(c, s, Advance(pid)))
  {
    assert ProcOk(c, blobs, s.files, s.procs[pid]);
  }

  /** What a step does to files and counter, against the bytes its call has in transit. */
  lemma {:induction false} StepBalances(c: Store, blobs: set<Bytes>, files: map<string, Bytes>, counter: nat, p: Proc)
    requires ProcOk(c, blobs, files, p)
    ensures var (files', counter', q) := StepProc(c, files, counter, p);
            Live(files') + RenamedBytes(p) + UnlinkedBytes(q) + counter
            <= Live(files) + RenamedBytes(q) + UnlinkedBytes(p) + counter'
  {
    if p.PutStaged? {
      PutPublishes(c, files, p.data);
    } else if p.RemoveStatted? && p.sha in files {
      SumByRemove(files, BlobBytes, p.sha);
    }
  }

  /** One step of one call keeps the accounting. */
  lemma {:induction false} StepKeepsAccounts(c: Store, w: Walk, blobs: set<Bytes>, s: State, pid: nat)
    requires Digests(c, blobs) && Inv(c, w, blobs, s) && pid in s.procs
    ensures Inv(c, w, blobs, Apply(c, s, Advance(pid)))
  {
    StepKeepsPlaces(c, blobs, s, pid);
    var p := s.procs[pid];
    assert ProcOk(c, blobs, s.files, p);
    StepBalances(c, blobs, s.files, s.counter, p);
    hide Placed, StepProc, Live;
    var (files, counter, q) := StepProc(c, s.files, s.counter, p);
    SumByUpdate(s.procs, RenamedBytes, pid, q);
    SumByUpdate(s.procs, UnlinkedBytes, pid, q);
  }

  lemma {:induction false} EventKeepsAccounts(c: Store, w: Walk, blobs: set<Bytes>, s: State, e: Event)
    requires Digests(c, blobs) && Inv(c, w, blobs, s) && Enabled(blobs, s, e)
    ensures Inv(c, w, blobs, Apply(c, s, e))
  {
    if e.Advance? {
      StepKeepsAccounts(c, w, blobs, s, e.pid);
    } else {
      var q := if e.Call? then e.proc else Done(Failed(Io));
      SumByUpdate(s.procs, RenamedBytes, e.pid, q);
      SumByUpdate(s.procs, UnlinkedBytes, e.pid, q);
    }
  }

  /** In every interleaving, at every moment, the counter accounts for the disk; after a walk that
      missed nothing it never counts too little. */
  lemma {:induction false} CounterNeverUndercounts(
    c: Store, w: Walk, blobs: set<Bytes>, run: seq<State>, events: seq<Event>, i: nat)
    requires Digests(c, blobs) && IsRun(c, blobs, run, events) && Inv(c, w, blobs, run[0]) && i < |run|
    ensures Inv(c, w, blobs, run[i])
  {
    if i > 0 {
      CounterNeverUndercounts(c, w, blobs, run, events, i - 1);
      EventKeepsAccounts(c, w, blobs, run[i - 1], events[i - 1]);
    }
  }

  /** No run damages a file: each hashes to its name or was there, as it is, at the start. */
  lemma {:induction false} NoNewDamage(
    c: Store, blobs: set<Bytes>, run: seq<State>, events: seq<Event>, i: nat, sha: string)
    requires IsRun(c, blobs, run, events) && i < |run| && sha in run[i].files
    ensures || c.hash(run[i].files[sha]) == sha
            || (sha in run[0].files && run[0].files[sha] == run[i].files[sha])
  {
    if i > 0 {
      if sha in run[i - 1].files {
        NoNewDamage(c, blobs, run, events, i - 1, sha);
      }
    }
  }

  // ---------- the budget ----------

  /** The counter and the bytes in the window together stay below `bound`. */
  ghost predicate Within(bound: nat, s: State) {
    s.counter + SumBy(s.procs, WindowBytes) <= bound
  }

  /** At most `k` puts share the window in any state of the run. */
  ghost predicate Crowd(run: seq<State>, k: nat) {
    forall j | 0 <= j < |run| :: SumBy(run[j].procs, WindowCount) <= k
  }

  lemma {:induction false} WindowFits(s: State, k: nat, largest: nat)
    requires SumBy(s.procs, WindowCount) <= k
    requires forall pid | pid in s.procs :: WindowBytes(s.procs[pid]) <= largest
    ensures SumBy(s.procs, WindowBytes) <= k * largest
  {
    SumByScaled(s.procs, WindowBytes, WindowCount, largest);
    Monotone(SumBy(s.procs, WindowCount), k, largest);
  }

  lemma {:induction false} Monotone(a: nat, b: nat, factor: nat)
    requires a <= b
    ensures factor * a <= b * factor
  {
  }

  /** The step that admits a blob: the others in the window hold at most `k - 1` blobs. */
  lemma {:induction false} AdmitStaysWithin(
    c: Store, w: Walk, blobs: set<Bytes>, s: State, pid: nat, d: Bytes, k: nat, largest: nat)
    requires Inv(c, w, blobs, s) && pid in s.procs && s.procs[pid] == PutFresh(d) && s.counter + |d| <= c.budget
    requires forall e | e in blobs :: |e| <= largest
    requires SumBy(s.procs[pid := PutAdmitted(d)], WindowCount) <= k
    ensures k >= 1 && s.counter + SumBy(s.procs[pid := PutAdmitted(d)], WindowBytes) <= c.budget + (k - 1) * largest
  {
    SumByUpdate(s.procs, WindowBytes, pid, PutAdmitted(d));
    SumByUpdate(s.procs, WindowCount, pid, PutAdmitted(d));
    forall q | q in s.procs ensures WindowBytes(s.procs[q]) <= largest {
      assert ProcOk(c, blobs, s.files, s.procs[q]);
    }
    WindowFits(s, k - 1, largest);
  }

  /** Any other step moves at most the bytes it takes out of the window into the counter. */
  lemma {:induction false} WindowBalances(c: Store, files: map<string, Bytes>, counter: nat, p: Proc)
    ensures var (_, counter', q) := StepProc(c, files, counter, p);
            !(p.PutFresh? && q.PutAdmitted?) ==> counter' + WindowBytes(q) <= counter + WindowBytes(p)
  {
  }

  lemma {:induction false} EventStaysWithin(
    c: Store, w: Walk, blobs: set<Bytes>, s: State, e: Event, k: nat, largest: nat, bound: nat)
    requires c.budget > 0 && k >= 1 && c.budget + (k - 1) * largest <= bound
    requires Inv(c, w, blobs, s) && Enabled(blobs, s, e)
    requires forall d | d in blobs :: |d| <= largest
    requires Within(bound, s) && SumBy(Apply(c, s, e).procs, WindowCount) <= k
    ensures Within(bound, Apply(c, s, e))
  {
    var q := Apply(c, s, e).procs[e.pid];
    if e.Advance? && s.procs[e.pid].PutFresh? && q.PutAdmitted? {
      AdmitStaysWithin(c, w, blobs, s, e.pid, q.data, k, largest);
    } else {
      hide Inv, StepProc, Digests;
      SumByUpdate(s.procs, WindowBytes, e.pid, q);
      if e.Advance? {
        WindowBalances(c, s.files, s.counter, s.procs[e.pid]);
      }
    }
  }

  lemma {:induction false} RunStaysWithin(
    c: Store, w: Walk, blobs: set<Bytes>, run: seq<State>, events: seq<Event>, k: nat, largest: nat, bound: nat, i: nat)
    requires c.budget > 0 && k >= 1 && c.budget + (k - 1) * largest <= bound
    requires Digests(c, blobs) && IsRun(c, blobs, run, events) && Inv(c, w, blobs, run[0])
    requires forall d | d in blobs :: |d| <= largest
    requires Crowd(run, k) && Within(bound, run[0]) && i < |run|
    ensures Within(bound, run[i])
  {
    if i > 0 {
      RunStaysWithin(c, w, blobs, run, events, k, largest, bound, i - 1);
      CounterNeverUndercounts(c, w, blobs, run, events, i - 1);
      assert SumBy(run[i].procs, WindowCount) <= k;
      EventStaysWithin(c, w, blobs, run[i - 1], events[i - 1], k, largest, bound);
    }
  }

  /** Whatever the interleaving, what is on the disk stays below the larger of the recovered total
      and the budget plus one blob for each further `put` that shares the window, plus what the
      walk missed and what failed puts have left behind. */
  lemma {:induction false} OvershootIsBounded(
    c: Store, w: Walk, blobs: set<Bytes>, run: seq<State>, events: seq<Event>, k: nat, largest: nat, i: nat)
    requires c.budget > 0 && k >= 1 && Digests(c, blobs) && IsRun(c, blobs, run, events)
    requires Inv(c, w, blobs, run[0]) && run[0].procs == map[]
    requires forall d | d in blobs :: |d| <= largest
    requires Crowd(run, k) && i < |run|
    ensures DiskUse(w, run[i]) <= Max(run[0].counter, c.budget + (k - 1) * largest) + w.missed + run[i].orphans
    ensures run[i].counter <= Max(run[0].counter, c.budget + (k - 1) * largest)
  {
    RunStaysWithin(c, w, blobs, run, events, k, largest, Max(run[0].counter, c.budget + (k - 1) * largest), i);
    CounterNeverUndercounts(c, w, blobs, run, events, i);
    SumByPair(run[i].procs, RenamedBytes, StagedBytes, WindowBytes);
  }

  // ---------- start-up: the directory walk ----------

  datatype Entry = Unreadable | NotAFile | RegularFile(len: nat)

  function EntryBytes(e: Entry): nat { if e.RegularFile? then e.len else 0 }

  /** `existing_bytes`: entries whose metadata cannot be read are skipped. */
  method ExistingBytes(dir: map<string, Entry>) returns (total: nat)
    ensures total == SumBy(dir, EntryBytes)
  {
    total := 0;
    var rest := dir;
    while rest != map[]
      invariant total + SumBy(rest, EntryBytes) == SumBy(dir, EntryBytes)
      decreases |rest|
    {
      var name :| name in rest;
      SumByRemove(rest, EntryBytes, name);
      if rest[name].RegularFile? {
        total := total + rest[name].len;
      }
      rest := rest - {name};
    }
  }

  /** The blobs the walk could not read, or did not see. */
  function Overlooked(dir: map<string, Entry>, files: map<string, Bytes>): map<string, Bytes> {
    map n | n in files && !(n in dir && dir[n].RegularFile?) :: files[n]
  }

  ghost function WalkOf(dir: map<string, Entry>, files: map<string, Bytes>): Walk {
    Walk(SumBy(dir - files.Keys, EntryBytes), SumBy(Overlooked(dir, files), BlobBytes))
  }

  lemma {:induction false} OverlookedStep(dir: map<string, Entry>, files: map<string, Bytes>, n: string)
    requires n in files
    ensures SumBy(Overlooked(dir, files), BlobBytes) == SumBy(Overlooked(dir - {n}, files - {n}), BlobBytes)
      + if n in dir && dir[n].RegularFile? then 0 else |files[n]|
  {
    if n in Overlooked(dir, files) {
      SumByRemove(Overlooked(dir, files), BlobBytes, n);
      assert Overlooked(dir, files) - {n} == Overlooked(dir - {n}, files - {n});
    } else {
      assert Overlooked(dir, files) == Overlooked(dir - {n}, files - {n});
    }
  }

  lemma {:induction false} DirStep(dir: map<string, Entry>, n: string)
    ensures SumBy(dir, EntryBytes) == SumBy(dir - {n}, EntryBytes) + if n in dir then EntryBytes(dir[n]) else 0
  {
    if n in dir {
      SumByRemove(dir, EntryBytes, n);
    } else {
      assert dir - {n} == dir;
    }
  }

  /** What the walk recovers: the live bytes, and those of files that are no blobs, less those of
      the blobs it missed. */
  lemma {:induction false} RecoveredTotal(dir: map<string, Entry>, files: map<string, Bytes>)
    requires forall n | n in files && n in dir && dir[n].RegularFile? :: dir[n].len == |files[n]|
    ensures SumBy(dir, EntryBytes) + SumBy(Overlooked(dir, files), BlobBytes)
         == Live(files) + SumBy(dir - files.Keys, EntryBytes)
    decreases |files|
  {
    if files == map[] {
      assert dir - files.Keys == dir && Overlooked(dir, files) == map[];
    } else {
      var n := Pick(files);
      RecoveredTotal(dir - {n}, files - {n});
      hide Overlooked;
      SumByRemove(files, BlobBytes, n);
      OverlookedStep(dir, files, n);
      DirStep(dir, n);
      OthersStep(dir, files, n);
    }
  }

  lemma {:induction false} OthersStep(dir: map<string, Entry>, files: map<string, Bytes>, n: string)
    requires n in files
    ensures dir - files.Keys == (dir - {n}) - (files - {n}).Keys
  {
  }

  /** So, if no file is longer than its blob, a run may start from what the walk recovers. */
  lemma {:induction false} RecoveredStart(
    c: Store, blobs: set<Bytes>, dir: map<string, Entry>, files: map<string, Bytes>)
    requires forall n | n in files && n in dir && dir[n].RegularFile? :: dir[n].len == |files[n]|
    requires NotLonger(c, blobs, files)
    ensures Inv(c, WalkOf(dir, files), blobs, State(files, SumBy(dir, EntryBytes), 0, map[]))
  {
    RecoveredTotal(dir, files);
  }

  // ---------- calls that run one at a time ----------

  /** A whole `put` with no other call in between; `fails` if its write or rename would. */
  function PutCall(c: Store, files: map<string, Bytes>, counter: nat, d: Bytes, fails: bool)
    : (map<string, Bytes>, nat, Outcome)
  {
    if c.hash(d) in files then (files, counter, Stored(c.hash(d)))
    else if c.budget > 0 && counter + |d| > c.budget then (files, counter, Failed(BudgetExceeded))
    else if fails then (files, counter, Failed(Io))
    else (files[c.hash(d) := d], counter + |d|, Stored(c.hash(d)))
  }

  /** A whole `remove` with no other call in between; `fails` if the file cannot be unlinked. */
  function RemoveCall(files: map<string, Bytes>, counter: nat, sha: string, fails: bool)
    : (map<string, Bytes>, nat, Outcome)
  {
    if !IsValidSha(sha) then (files, counter, Failed(InvalidSha))
    else if sha !in files then (files, counter, Removed)
    else if fails then (files, counter, Failed(Io))
    else (files - {sha}, Saturate(counter, |files[sha]|), Removed)
  }

  /** What a whole `put` reports: an existing blob costs nothing, whatever the budget; a new one is
      refused exactly if it would take the counter past a budget that is set. */
  lemma {:induction false} PutReports(c: Store, files: map<string, Bytes>, counter: nat, d: Bytes, fails: bool)
    ensures var (f, k, r) := PutCall(c, files, counter, d, fails);
            && (r == Failed(BudgetExceeded) <==> c.hash(d) !in files && c.budget != 0 && c.budget < counter + |d|)
            && (r == Failed(Io) ==> fails)
            && (r.Failed? ==> f == files && k == counter && (r.error == BudgetExceeded || r.error == Io))
            && (r.Stored? ==> r.sha == c.hash(d) && r.sha in f)
            && (c.hash(d) in files ==> r.Stored? && f == files && k == counter)
            && (!fails && r != Failed(BudgetExceeded) ==> r.Stored?)
            && forall sha | sha != c.hash(d) :: (sha in f <==> sha in files) && (sha in f ==> f[sha] == files[sha])
  {
  }

  /** What a whole `remove` reports: a malformed name is refused; otherwise the file is gone, or was not
      there, or could not be unlinked; and no other file is touched. */
  lemma {:induction false} RemoveReports(files: map<string, Bytes>, counter: nat, sha: string, fails: bool)
    ensures var (f, k, r) := RemoveCall(files, counter, sha, fails);
            && (r == Failed(InvalidSha) <==> !IsValidSha(sha))
            && (r.Failed? ==> f == files && k == counter && (r.error == InvalidSha || (r.error == Io && fails)))
            && (!r.Failed? ==> r == Removed && sha !in f)
            && (!fails && IsValidSha(sha) ==> r == Removed)
            && (sha !in files ==> f == files && k == counter)
            && forall n | n != sha :: (n in f <==> n in files) && (n in f ==> f[n] == files[n])
  {
  }

  function StepProcs(c: Store, files: map<string, Bytes>, counter: nat, p: Proc, n: nat)
    : (map<string, Bytes>, nat, Proc)
    decreases n
  {
    if n == 0 then (files, counter, p)
    else var (f, k, q) := StepProc(c, files, counter, p); StepProcs(c, f, k, q, n - 1)
  }

  /** The outcome if the step after position `p` fails. */
  function FaultAt(p: Proc): Outcome {
    if p.Done? then p.outcome else Failed(Io)
  }

  /** The step machine left undisturbed does what a whole `put` does, failing or not. */
  lemma {:induction false} UndisturbedPut(c: Store, files: map<string, Bytes>, counter: nat, d: Bytes)
    ensures var (f, k, r) := PutCall(c, files, counter, d, false);
            StepProcs(c, files, counter, PutStart(d), 5) == (f, k, Done(r))
    ensures var (f, k, p) := StepProcs(c, files, counter, PutStart(d), 2);
            PutCall(c, files, counter, d, true) == (f, k, FaultAt(p)) && (p.Done? || p.PutAdmitted?)
  {
    var (f1, k1, p1) := StepProc(c, files, counter, PutStart(d));
    var (f2, k2, p2) := StepProc(c, f1, k1, p1);
    var (f3, k3, p3) := StepProc(c, f2, k2, p2);
    var (f4, k4, p4) := StepProc(c, f3, k3, p3);
    assert StepProcs(c, files, counter, PutStart(d), 5) == StepProcs(c, f2, k2, p2, 3) == StepProcs(c, f4, k4, p4, 1);
  }

  /** The same for a whole `remove`. */
  lemma {:induction false} UndisturbedRemove(c: Store, files: map<string, Bytes>, counter: nat, sha: string)
    ensures var (f, k, r) := RemoveCall(files, counter, sha, false);
            StepProcs(c, files, counter, RemoveStart(sha), 3) == (f, k, Done(r))
    ensures var (f, k, p) := StepProcs(c, files, counter, RemoveStart(sha), 1);
            sha in files ==> RemoveCall(files, counter, sha, true) == (f, k, FaultAt(p))
  {
    var (g1, j1, q1) := StepProc(c, files, counter, RemoveStart(sha));
    var (g2, j2, q2) := StepProc(c, g1, j1, q1);
    assert StepProcs(c, files, counter, RemoveStart(sha), 3) == StepProcs(c, g2, j2, q2, 1);
  }

  /** How the counter stands to the live bytes when it started `drift` above them: exactly that far
      above, or, if it started below, no further below and not above. */
  predicate InStep(counter: nat, live: nat, drift: int) {
    if drift >= 0 then counter == live + drift else live + drift <= counter <= live
  }

  /** One at a time, calls keep the counter in step; from an exact start it stays exact. */
  lemma {:induction false} ExactWhenAlone(
    c: Store, files: map<string, Bytes>, counter: nat, drift: int, d: Bytes, sha: string, fails: bool)
    requires InStep(counter, Live(files), drift)
    ensures var (f, k, _) := PutCall(c, files, counter, d, fails); InStep(k, Live(f), drift)
    ensures var (f, k, _) := RemoveCall(files, counter, sha, fails); InStep(k, Live(f), drift)
  {
    PutPublishes(c, files, d);
    if sha in files {
      SumByRemove(files, BlobBytes, sha);
    }
  }

  /** The bytes stored are the bytes read back, unless a damaged file was there before, which `put`
      leaves in place; and removing a fresh blob undoes its `put`. */
  lemma {:induction false} PutGetRemove(c: Store, files: map<string, Bytes>, counter: nat, d: Bytes)
    requires IsValidSha(c.hash(d))
    ensures var (f, k, r) := PutCall(c, files, counter, d, false);
            r.Stored? ==> (GetCall(c, f, r.sha) == Found(d) <==> c.hash(d) in files ==> files[c.hash(d)] == d)
    ensures var (f, k, r) := PutCall(c, files, counter, d, false);
            r.Stored? && r.sha !in files ==> RemoveCall(f, k, r.sha, false) == (files, counter, Removed)
  {
    var (f, k, r) := PutCall(c, files, counter, d, false);
    if r.Stored? && r.sha !in files {
      assert f - {r.sha} == files;
    }
  }

  datatype Lookup = Found(data: Bytes) | Missing(error: Error)

  /** `get` re-hashes what it read, so a damaged blob is never handed out. */
  function GetCall(c: Store, files: map<string, Bytes>, sha: string): (r: Lookup)
    ensures r.Found? ==> IsValidSha(sha) && c.hash(r.data) == sha
  {
    if !IsValidSha(sha) then Missing(InvalidSha)
    else if sha !in files then Missing(NotFound)
    else if c.hash(files[sha]) != sha then Missing(Corrupt)
    else Found(files[sha])
  }

  /** The first of its needs that a `get` finds missing: a well-formed name, a file, and contents that
      hash to the name. */
  lemma {:induction false} GetReports(c: Store, files: map<string, Bytes>, sha: string)
    ensures var r := GetCall(c, files, sha);
            && (r == Missing(InvalidSha) <==> !IsValidSha(sha))
            && (r == Missing(NotFound) <==> IsValidSha(sha) && sha !in files)
            && (r == Missing(Corrupt) <==> IsValidSha(sha) && sha in files && c.hash(files[sha]) != sha)
            && (r.Found? <==> IsValidSha(sha) && sha in files && c.hash(files[sha]) == sha)
            && (r.Found? ==> r.data == files[sha])
  {
  }

  /** The store as callers see it when calls do not overlap. */
  class Cas {
    const store: Store
    var files: map<string, Bytes>
    var totalBytes: nat
    /** Bytes in temporary files that failed puts have left behind. */
    ghost var orphans: nat
    /** How far above the live bytes the counter started. */
    ghost const drift: int

    ghost predicate Valid()
      reads this
    {
      InStep(totalBytes, Live(files), drift)
    }

    constructor (store: Store, files: map<string, Bytes>, dir: map<string, Entry>)
      requires forall n | n in files && n in dir && dir[n].RegularFile? :: dir[n].len == |files[n]|
      ensures Valid() && this.store == store && this.files == files && orphans == 0
      ensures drift == WalkOf(dir, files).found - WalkOf(dir, files).missed
    {
      this.store := store;
      this.files := files;
      var total := ExistingBytes(dir);
      RecoveredTotal(dir, files);
      totalBytes := total;
      orphans := 0;
      drift := total - Live(files);
    }

    method Put(data: Bytes, fails: bool, ghost left: nat) returns (r: Outcome)
      requires Valid() && left <= |data|
      modifies this
      ensures Valid()
      ensures (files, totalBytes, r) == PutCall(store, old(files), old(totalBytes), data, fails)
      ensures orphans == old(orphans) + if r == Failed(Io) then left else 0
    {
      ExactWhenAlone(store, files, totalBytes, drift, data, "", fails);
      var sha := store.hash(data);
      if sha in files {
        return Stored(sha);
      }
      if store.budget > 0 && totalBytes + |data| > store.budget {
        return Failed(BudgetExceeded);
      }
      if fails {
        orphans := orphans + left;
        return Failed(Io);
      }
      files := files[sha := data];
      totalBytes := totalBytes + |data|;
      r := Stored(sha);
    }

    method Get(sha: string) returns (r: Lookup)
      ensures r == GetCall(store, files, sha)
    {
      if !IsValidSha(sha) {
        return Missing(InvalidSha);
      }
      if sha !in files {
        return Missing(NotFound);
      }
      var data := files[sha];
      r := if store.hash(data) != sha then Missing(Corrupt) else Found(data);
    }

    method Remove(sha: string, fails: bool) returns (r: Outcome)
      requires Valid()
      modifies this`files, this`totalBytes
      ensures Valid()
      ensures (files, totalBytes, r) == RemoveCall(old(files), old(totalBytes), sha, fails)
    {
      ExactWhenAlone(store, files, totalBytes, drift, [], sha, fails);
      if !IsValidSha(sha) {
        return Failed(InvalidSha);
      }
      if sha in files {
        var size := |files[sha]|;
        if fails {
          return Failed(Io);
        }
        files := files - {sha};
        totalBytes := Saturate(totalBytes, size);
      }
      r := Removed;
    }
  }
}
