/** Runs of the attachment store that show its bounds to be exact: any number of puts can reach the
    overshoot bound, bytes that failed puts leave behind come on top of it, and a damaged file longer
    than its blob upsets the accounting. */
module CasRuns {
  import opened Common
  import opened Sums
  import opened CasStore

  // ---------- building runs ----------

  ghost predicate RunsTo(
    c: Store, blobs: set<Bytes>, run: seq<State>, events: seq<Event>, first: State, last: State)
  {
    IsRun(c, blobs, run, events) && run[0] == first && run[|events|] == last
  }

  /** A run from `first` to `last` in which at most `k` puts share the window and failed puts have left
      `left` bytes. */
  ghost predicate Reaches(
    c: Store, blobs: set<Bytes>, run: seq<State>, events: seq<Event>, k: nat, left: nat, first: State, last: State)
  {
    RunsTo(c, blobs, run, events, first, last) && Crowd(run, k) && Left(events) == left
  }

  /** Bytes left behind by the failures among `events`. */
  function Left(events: seq<Event>): nat {
    if events == [] then 0 else Left(events[..|events| - 1]) + LeftBy(events[|events| - 1])
  }

  function LeftBy(e: Event): nat { if e.Fault? then e.left else 0 }

  lemma {:induction false} OrphansAreLeft(
    c: Store, blobs: set<Bytes>, run: seq<State>, events: seq<Event>, i: nat)
    requires IsRun(c, blobs, run, events) && i < |run|
    ensures run[i].orphans == run[0].orphans + Left(events[..i])
  {
    if i > 0 {
      OrphansAreLeft(c, blobs, run, events, i - 1);
      assert events[..i][..i - 1] == events[..i - 1];
    }
  }

  lemma {:induction false} Begin(c: Store, blobs: set<Bytes>, s: State, k: nat)
    requires SumBy(s.procs, WindowCount) <= k
    ensures Reaches(c, blobs, [s], [], k, 0, s, s)
  {
  }

  lemma {:induction false} Grow(
    c: Store, blobs: set<Bytes>, run: seq<State>, events: seq<Event>, first: State, s: State, e: Event, s': State)
    returns (run': seq<State>, events': seq<Event>)
    requires RunsTo(c, blobs, run, events, first, s) && Enabled(blobs, s, e) && s' == Apply(c, s, e)
    ensures RunsTo(c, blobs, run', events', first, s') && run' == run + [s'] && events' == events + [e]
  {
    hide Enabled, Apply;
    run', events' := run + [s'], events + [e];
  }

  lemma {:induction false} Extend(
    c: Store, blobs: set<Bytes>, run: seq<State>, events: seq<Event>, k: nat, left: nat, first: State, s: State,
    e: Event, s': State)
    returns (run': seq<State>, events': seq<Event>)
    requires Reaches(c, blobs, run, events, k, left, first, s) && Enabled(blobs, s, e) && s' == Apply(c, s, e)
    requires SumBy(s'.procs, WindowCount) <= k
    ensures Reaches(c, blobs, run', events', k, left + LeftBy(e), first, s')
  {
    hide Enabled, Apply, RunsTo;
    run', events' := Grow(c, blobs, run, events, first, s, e, s');
    assert events'[..|events|] == events;
  }

  /** The first three steps of a `put` that passes the check. */
  lemma {:induction false} Admit(
    c: Store, blobs: set<Bytes>, run: seq<State>, events: seq<Event>, k: nat, left: nat, first: State, s: State,
    pid: nat, d: Bytes)
    returns (run': seq<State>, events': seq<Event>)
    requires Reaches(c, blobs, run, events, k, left, first, s) && d in blobs && pid !in s.procs
    requires c.hash(d) !in s.files && s.counter + |d| <= c.budget && SumBy(s.procs, WindowCount) < k
    ensures Reaches(c, blobs, run', events', k, left, first, s.(procs := s.procs[pid := PutAdmitted(d)]))
    ensures SumBy(s.procs[pid := PutAdmitted(d)], WindowCount) == SumBy(s.procs, WindowCount) + 1
  {
    hide Reaches;
    SumByUpdate(s.procs, WindowCount, pid, PutStart(d));
    SumByUpdate(s.procs, WindowCount, pid, PutFresh(d));
    SumByUpdate(s.procs, WindowCount, pid, PutAdmitted(d));
    var s1 := s.(procs := s.procs[pid := PutStart(d)]);
    var s2 := s.(procs := s.procs[pid := PutFresh(d)]);
    var s3 := s.(procs := s.procs[pid := PutAdmitted(d)]);
    assert s1.procs[pid := PutFresh(d)] == s2.procs && s2.procs[pid := PutAdmitted(d)] == s3.procs;
    run', events' := Extend(c, blobs, run, events, k, left, first, s, Call(pid, PutStart(d)), s1);
    run', events' := Extend(c, blobs, run', events', k, left, first, s1, Advance(pid), s2);
    run', events' := Extend(c, blobs, run', events', k, left, first, s2, Advance(pid), s3);
  }

  // ---------- what failed puts leave behind ----------

  /** A `put` whose write fails and leaves `bytes` of the temporary file. */
  lemma {:induction false} Abandon(
    c: Store, blobs: set<Bytes>, run: seq<State>, events: seq<Event>, k: nat, left: nat, first: State, s: State,
    pid: nat, d: Bytes, bytes: nat)
    returns (run': seq<State>, events': seq<Event>, s': State)
    requires Reaches(c, blobs, run, events, k, left, first, s) && d in blobs && pid !in s.procs && bytes <= |d|
    requires c.hash(d) !in s.files && s.counter + |d| <= c.budget && SumBy(s.procs, WindowCount) < k
    ensures Reaches(c, blobs, run', events', k, left + bytes, first, s')
    ensures s' == s.(orphans := s.orphans + bytes, procs := s.procs[pid := Done(Failed(Io))])
    ensures SumBy(s'.procs, WindowCount) == SumBy(s.procs, WindowCount)
  {
    hide Reaches;
    SumByUpdate(s.procs, WindowCount, pid, Done(Failed(Io)));
    var s1 := s.(procs := s.procs[pid := PutAdmitted(d)]);
    s' := s.(orphans := s.orphans + bytes, procs := s.procs[pid := Done(Failed(Io))]);
    assert s1.procs[pid := Done(Failed(Io))] == s'.procs;
    run', events' := Admit(c, blobs, run, events, k, left, first, s, pid, d);
    run', events' := Extend(c, blobs, run', events', k, left, first, s1, Fault(pid, bytes), s');
  }

  /** The calls that have failed, with ids from `from` on. */
  function Abandoned(from: nat, n: nat): map<nat, Proc> {
    if n == 0 then map[] else Abandoned(from, n - 1)[from + n - 1 := Done(Failed(Io))]
  }

  lemma {:induction false} AbandonedAt(from: nat, n: nat, i: nat)
    ensures i in Abandoned(from, n) ==> from <= i < from + n && Abandoned(from, n)[i].Done?
  {
    if n > 0 {
      AbandonedAt(from, n - 1, i);
    }
  }

  /** `n` puts one after another that each fail and leave `bytes` behind, without moving the counter. */
  lemma {:induction false} AbandonAll(
    c: Store, blobs: set<Bytes>, files: map<string, Bytes>, counter: nat, k: nat, d: Bytes, bytes: nat, from: nat,
    n: nat)
    returns (run: seq<State>, events: seq<Event>)
    requires d in blobs && c.hash(d) !in files && counter + |d| <= c.budget && bytes <= |d| && k >= 1
    ensures Reaches(c, blobs, run, events, k, n * bytes, State(files, counter, 0, map[]),
                    State(files, counter, n * bytes, Abandoned(from, n)))
    ensures SumBy(Abandoned(from, n), WindowCount) == 0
  {
    hide Reaches;
    var first := State(files, counter, 0, map[]);
    run, events := [first], [];
    Begin(c, blobs, first, k);
    for m := 0 to n
      invariant Reaches(c, blobs, run, events, k, m * bytes, first,
                        State(files, counter, m * bytes, Abandoned(from, m)))
      invariant SumBy(Abandoned(from, m), WindowCount) == 0
    {
      AbandonedAt(from, m, from + m);
      ghost var s;
      run, events, s := Abandon(c, blobs, run, events, k, m * bytes, first,
                                State(files, counter, m * bytes, Abandoned(from, m)), from + m, d, bytes);
      assert (m + 1) * bytes == m * bytes + bytes;
    }
  }

  /** Failures add up: puts one at a time fill the disk with any number of blobs while the counter
      stays 0. */
  lemma {:induction false} OrphansExceed(c: Store, blobs: set<Bytes>, d: Bytes, n: nat)
    returns (run: seq<State>, events: seq<Event>, last: State)
    requires d in blobs && |d| <= c.budget
    ensures Reaches(c, blobs, run, events, 1, n * |d|, State(map[], 0, 0, map[]), last)
    ensures last.counter == 0 && DiskUse(Walk(0, 0), last) >= n * |d|
  {
    run, events := AbandonAll(c, blobs, map[], 0, 1, d, |d|, 0, n);
    last := State(map[], 0, n * |d|, Abandoned(0, n));
  }

  // ---------- the bound is attained ----------

  /** `files` with the first `n` of `ds` published. */
  function Published(c: Store, files: map<string, Bytes>, ds: seq<Bytes>, n: nat): map<string, Bytes>
    requires n <= |ds|
  {
    if n == 0 then files else Published(c, files, ds, n - 1)[c.hash(ds[n - 1]) := ds[n - 1]]
  }

  /** Different blobs of one size, none of them in `files`. */
  ghost predicate NewBlobs(c: Store, blobs: set<Bytes>, files: map<string, Bytes>, ds: seq<Bytes>, size: nat) {
    && Digests(c, blobs) && Distinct(ds)
    && forall i | 0 <= i < |ds| :: ds[i] in blobs && |ds[i]| == size && c.hash(ds[i]) !in files
  }

  lemma {:induction false} PublishedLive(
    c: Store, blobs: set<Bytes>, files: map<string, Bytes>, ds: seq<Bytes>, size: nat, n: nat)
    requires NewBlobs(c, blobs, files, ds, size) && n <= |ds|
    ensures Live(Published(c, files, ds, n)) == Live(files) + n * size
    ensures forall i | n <= i < |ds| :: c.hash(ds[i]) !in Published(c, files, ds, n)
  {
    if n > 0 {
      PublishedLive(c, blobs, files, ds, size, n - 1);
      PutPublishes(c, Published(c, files, ds, n - 1), ds[n - 1]);
      assert n * size == (n - 1) * size + size;
    }
  }

  /** The first `p` calls are past the check; the calls in `base` have ended. */
  function Admitted(base: map<nat, Proc>, ds: seq<Bytes>, p: nat): map<nat, Proc>
    requires p <= |ds|
  {
    if p == 0 then base else Admitted(base, ds, p - 1)[p - 1 := PutAdmitted(ds[p - 1])]
  }

  /** All are past the check, and the first `q` have renamed. */
  function Renamed(base: map<nat, Proc>, ds: seq<Bytes>, q: nat): map<nat, Proc>
    requires q <= |ds|
  {
    if q == 0 then Admitted(base, ds, |ds|) else Renamed(base, ds, q - 1)[q - 1 := PutRenamed(ds[q - 1])]
  }

  lemma {:induction false} AdmittedAt(base: map<nat, Proc>, ds: seq<Bytes>, p: nat, i: nat)
    requires p <= |ds|
    ensures i in Admitted(base, ds, p) <==> i in base || i < p
    ensures i < p ==> Admitted(base, ds, p)[i] == PutAdmitted(ds[i])
    ensures i >= p && i in base ==> Admitted(base, ds, p)[i] == base[i]
  {
    if p > 0 {
      AdmittedAt(base, ds, p - 1, i);
    }
  }

  lemma {:induction false} RenamedAt(base: map<nat, Proc>, ds: seq<Bytes>, q: nat, i: nat)
    requires q <= |ds|
    ensures i in Renamed(base, ds, q) <==> i in base || i < |ds|
    ensures i < q ==> Renamed(base, ds, q)[i] == PutRenamed(ds[i])
    ensures q <= i < |ds| ==> Renamed(base, ds, q)[i] == PutAdmitted(ds[i])
    ensures i >= |ds| && i in base ==> Renamed(base, ds, q)[i] == base[i]
  {
    if q > 0 {
      RenamedAt(base, ds, q - 1, i);
    } else {
      AdmittedAt(base, ds, |ds|, i);
    }
  }

  /** The calls in `base` have ids of their own and have ended. */
  ghost predicate Ended(base: map<nat, Proc>, n: nat) {
    SumBy(base, WindowCount) == 0 && forall i | i in base :: i >= n && base[i].Done?
  }

  /** All the puts pass the check, one after another. */
  lemma {:induction false} AdmitAll(
    c: Store, blobs: set<Bytes>, run: seq<State>, events: seq<Event>, left: nat, first: State, s: State,
    ds: seq<Bytes>, size: nat)
    returns (run': seq<State>, events': seq<Event>)
    requires Reaches(c, blobs, run, events, |ds|, left, first, s) && Ended(s.procs, |ds|)
    requires NewBlobs(c, blobs, s.files, ds, size) && s.counter + size <= c.budget
    ensures Reaches(c, blobs, run', events', |ds|, left, first, s.(procs := Admitted(s.procs, ds, |ds|)))
    ensures SumBy(Admitted(s.procs, ds, |ds|), WindowCount) == |ds|
  {
    hide Reaches;
    run', events' := run, events;
    for p := 0 to |ds|
      invariant Reaches(c, blobs, run', events', |ds|, left, first, s.(procs := Admitted(s.procs, ds, p)))
      invariant SumBy(Admitted(s.procs, ds, p), WindowCount) == p
    {
      AdmittedAt(s.procs, ds, p, p);
      ghost var t := s.(procs := Admitted(s.procs, ds, p));
      run', events' := Admit(c, blobs, run', events', |ds|, left, first, t, p, ds[p]);
    }
  }

  /** All are past the check, and `q` of them are published. */
  function Halfway(c: Store, s: State, ds: seq<Bytes>, q: nat): State
    requires q <= |ds|
  {
    s.(files := Published(c, s.files, ds, q), procs := Renamed(s.procs, ds, q))
  }

  /** Two more steps of call `q`: its temporary file is written, then renamed. */
  lemma {:induction false} Publish(
    c: Store, blobs: set<Bytes>, run: seq<State>, events: seq<Event>, left: nat, first: State, s: State,
    ds: seq<Bytes>, q: nat)
    returns (run': seq<State>, events': seq<Event>)
    requires q < |ds| && Reaches(c, blobs, run, events, |ds|, left, first, Halfway(c, s, ds, q))
    requires SumBy(Renamed(s.procs, ds, q), WindowCount) == |ds|
    ensures Reaches(c, blobs, run', events', |ds|, left, first, Halfway(c, s, ds, q + 1))
    ensures SumBy(Renamed(s.procs, ds, q + 1), WindowCount) == |ds|
  {
    hide Reaches;
    RenamedAt(s.procs, ds, q, q);
    var t, procs := Halfway(c, s, ds, q), Renamed(s.procs, ds, q);
    SumByUpdate(procs, WindowCount, q, PutStaged(ds[q]));
    SumByUpdate(procs, WindowCount, q, PutRenamed(ds[q]));
    var t1 := t.(procs := procs[q := PutStaged(ds[q])]);
    assert t1.procs[q := PutRenamed(ds[q])] == Renamed(s.procs, ds, q + 1);
    run', events' := Extend(c, blobs, run, events, |ds|, left, first, t, Advance(q), t1);
    run', events' := Extend(c, blobs, run', events', |ds|, left, first, t1, Advance(q), Halfway(c, s, ds, q + 1));
  }

  lemma {:induction false} NonePublished(c: Store, s: State, ds: seq<Bytes>)
    ensures Halfway(c, s, ds, 0) == s.(procs := Admitted(s.procs, ds, |ds|))
    ensures Renamed(s.procs, ds, 0) == Admitted(s.procs, ds, |ds|)
  {
  }

  lemma {:induction false} PublishAll(
    c: Store, blobs: set<Bytes>, run: seq<State>, events: seq<Event>, left: nat, first: State, s: State,
    ds: seq<Bytes>, size: nat)
    returns (run': seq<State>, events': seq<Event>)
    requires Reaches(c, blobs, run, events, |ds|, left, first, s) && Ended(s.procs, |ds|)
    requires NewBlobs(c, blobs, s.files, ds, size) && s.counter + size <= c.budget
    ensures Reaches(c, blobs, run', events', |ds|, left, first, Halfway(c, s, ds, |ds|))
  {
    hide Reaches, Published, Renamed, NewBlobs, Ended;
    run', events' := AdmitAll(c, blobs, run, events, left, first, s, ds, size);
    NonePublished(c, s, ds);
    for q := 0 to |ds|
      invariant Reaches(c, blobs, run', events', |ds|, left, first, Halfway(c, s, ds, q))
      invariant SumBy(Renamed(s.procs, ds, q), WindowCount) == |ds|
    {
      run', events' := Publish(c, blobs, run', events', left, first, s, ds, q);
    }
  }

  lemma {:induction false} AllPublished(c: Store, blobs: set<Bytes>, s: State, ds: seq<Bytes>, size: nat)
    requires NewBlobs(c, blobs, s.files, ds, size) && Ended(s.procs, |ds|) && |ds| >= 1
    ensures DiskUse(Walk(0, 0), Halfway(c, s, ds, |ds|)) == Live(s.files) + size + (|ds| - 1) * size + s.orphans
  {
    PublishedLive(c, blobs, s.files, ds, size, |ds|);
    var procs := Renamed(s.procs, ds, |ds|);
    forall i | i in procs ensures StagedBytes(procs[i]) == 0 {
      RenamedAt(s.procs, ds, |ds|, i);
    }
    SumByScaled(procs, StagedBytes, StagedBytes, 0);
    assert |ds| * size == (|ds| - 1) * size + size;
  }

  /** The bound is attained for any number of puts and any blob size: with one blob's room left in the
      budget, any number of puts of different blobs can all pass the check, and the disk then ends
      exactly at the bound for as many. */
  lemma {:induction false} OvershootIsReached(
    c: Store, blobs: set<Bytes>, files: map<string, Bytes>, ds: seq<Bytes>, size: nat)
    returns (run: seq<State>, events: seq<Event>, last: State)
    requires NewBlobs(c, blobs, files, ds, size) && |ds| >= 1 && Live(files) + size == c.budget
    ensures Reaches(c, blobs, run, events, |ds|, 0, State(files, Live(files), 0, map[]), last)
    ensures DiskUse(Walk(0, 0), last) == c.budget + (|ds| - 1) * size
  {
    hide Reaches, NewBlobs;
    var first := State(files, Live(files), 0, map[]);
    Begin(c, blobs, first, |ds|);
    run, events := PublishAll(c, blobs, [first], [], 0, first, first, ds, size);
    last := Halfway(c, first, ds, |ds|);
    AllPublished(c, blobs, first, ds, size);
  }

  // ---------- when the plain bound is one of the disk ----------

  /** One byte left behind by each of `left` failures, then the overshoot. */
  lemma {:induction false} OvershootWithLeftovers(
    c: Store, blobs: set<Bytes>, files: map<string, Bytes>, ds: seq<Bytes>, size: nat, left: nat)
    returns (run: seq<State>, events: seq<Event>, last: State)
    requires NewBlobs(c, blobs, files, ds, size) && |ds| >= 1 && size >= 1 && Live(files) + size == c.budget
    ensures Reaches(c, blobs, run, events, |ds|, left, State(files, Live(files), 0, map[]), last)
    ensures DiskUse(Walk(0, 0), last) == c.budget + (|ds| - 1) * size + left
  {
    hide Reaches;
    var first := State(files, Live(files), 0, map[]);
    run, events := AbandonAll(c, blobs, files, Live(files), |ds|, ds[0], 1, |ds|, left);
    var s := State(files, Live(files), left, Abandoned(|ds|, left));
    forall i | i in s.procs ensures i >= |ds| && s.procs[i].Done? {
      AbandonedAt(|ds|, left, i);
    }
    run, events := PublishAll(c, blobs, run, events, left, first, s, ds, size);
    last := Halfway(c, s, ds, |ds|);
    AllPublished(c, blobs, s, ds, size);
  }

  /** Some run with that crowd and those leftovers ends with more than `bound` on the disk. */
  ghost predicate Exceeds(c: Store, blobs: set<Bytes>, k: nat, left: nat, first: State, bound: nat) {
    exists run, events, last ::
      Reaches(c, blobs, run, events, k, left, first, last) && DiskUse(Walk(0, 0), last) > bound
  }

  /** The bound without what failed puts leave behind is one of the disk, for all runs in which they
      leave so many bytes, exactly if they leave none. */
  lemma {:induction false} PlainBoundIff(
    c: Store, blobs: set<Bytes>, files: map<string, Bytes>, ds: seq<Bytes>, size: nat, left: nat)
    requires NewBlobs(c, blobs, files, ds, size) && |ds| >= 1 && size >= 1 && Live(files) + size == c.budget
    requires NotLonger(c, blobs, files) && forall d | d in blobs :: |d| <= size
    ensures Exceeds(c, blobs, |ds|, left, State(files, Live(files), 0, map[]), c.budget + (|ds| - 1) * size)
       <==> left > 0
  {
    hide Reaches, DiskUse;
    var first, bound := State(files, Live(files), 0, map[]), c.budget + (|ds| - 1) * size;
    if left > 0 {
      var run, events, last := OvershootWithLeftovers(c, blobs, files, ds, size, left);
      assert DiskUse(Walk(0, 0), last) > bound;
    } else {
      forall run, events, last | Reaches(c, blobs, run, events, |ds|, left, first, last)
        ensures DiskUse(Walk(0, 0), last) <= bound
      {
        BoundedWithoutLeftovers(c, blobs, run, events, |ds|, files, last, size);
      }
    }
  }

  lemma {:induction false} BoundedWithoutLeftovers(
    c: Store, blobs: set<Bytes>, run: seq<State>, events: seq<Event>, k: nat, files: map<string, Bytes>, last: State,
    size: nat)
    requires Digests(c, blobs) && NotLonger(c, blobs, files) && k >= 1 && 0 < c.budget && Live(files) <= c.budget
    requires forall d | d in blobs :: |d| <= size
    requires Reaches(c, blobs, run, events, k, 0, State(files, Live(files), 0, map[]), last)
    ensures DiskUse(Walk(0, 0), last) <= c.budget + (k - 1) * size
  {
    hide Inv, Enabled, Apply, Crowd, DiskUse, Live, NotLonger, Digests;
    assert events[..|events|] == events;
    OrphansAreLeft(c, blobs, run, events, |events|);
    ExactStart(c, blobs, files);
    OvershootIsBounded(c, Walk(0, 0), blobs, run, events, k, size, |events|);
    NoLess(k - 1, size);
  }

  lemma {:induction false} ExactStart(c: Store, blobs: set<Bytes>, files: map<string, Bytes>)
    requires NotLonger(c, blobs, files)
    ensures Inv(c, Walk(0, 0), blobs, State(files, Live(files), 0, map[]))
  {
  }

  lemma {:induction false} NoLess(a: nat, b: nat)
    ensures a * b >= 0
  {
  }

  // ---------- damaged files ----------

  /** The next step of call `pid`. */
  lemma {:induction false} Proceed(
    c: Store, blobs: set<Bytes>, run: seq<State>, events: seq<Event>, first: State, s: State, pid: nat,
    files: map<string, Bytes>, counter: nat, q: Proc)
    returns (run': seq<State>, events': seq<Event>)
    requires RunsTo(c, blobs, run, events, first, s) && pid in s.procs
    requires StepProc(c, s.files, s.counter, s.procs[pid]) == (files, counter, q)
    ensures RunsTo(c, blobs, run', events', first, State(files, counter, s.orphans, s.procs[pid := q]))
  {
    hide RunsTo, StepProc;
    run', events' := Grow(c, blobs, run, events, first, s, Advance(pid),
                          State(files, counter, s.orphans, s.procs[pid := q]));
  }

  /** Two removes have both seen the size of a file, and one of them has removed it. */
  lemma {:induction false} RemoveWatched(c: Store, blobs: set<Bytes>, files: map<string, Bytes>, sha: string)
    returns (run: seq<State>, events: seq<Event>)
    requires IsValidSha(sha) && sha in files && |files[sha]| <= Live(files)
    ensures RunsTo(c, blobs, run, events, State(files, Live(files), 0, map[]),
                   State(files - {sha}, Live(files) - |files[sha]|, 0,
                         map[0 := RemoveStatted(sha, Some(|files[sha]|)), 1 := Done(Removed)]))
  {
    var total, size := Live(files), |files[sha]|;
    var first := State(files, total, 0, map[]);
    var seen := RemoveStatted(sha, Some(size));
    var s1 := State(files, total, 0, map[0 := RemoveStart(sha)]);
    var s2 := State(files, total, 0, map[0 := seen]);
    var s3 := State(files, total, 0, map[0 := seen, 1 := RemoveStart(sha)]);
    var s4 := State(files, total, 0, map[0 := seen, 1 := seen]);
    var s5 := State(files - {sha}, total, 0, map[0 := seen, 1 := RemoveUnlinked(size)]);
    run, events := [first], [];
    hide Live, RunsTo;
    assert RunsTo(c, blobs, run, events, first, first) by {
      Begin(c, blobs, first, 0);
    }
    run, events := Grow(c, blobs, run, events, first, first, Call(0, RemoveStart(sha)), s1);
    run, events := Proceed(c, blobs, run, events, first, s1, 0, files, total, seen);
    assert s1.procs[0 := seen] == s2.procs;
    run, events := Grow(c, blobs, run, events, first, s2, Call(1, RemoveStart(sha)), s3);
    run, events := Proceed(c, blobs, run, events, first, s3, 1, files, total, seen);
    assert s3.procs[1 := seen] == s4.procs;
    run, events := Proceed(c, blobs, run, events, first, s4, 1, files - {sha}, total, RemoveUnlinked(size));
    assert s4.procs[1 := RemoveUnlinked(size)] == s5.procs;
    run, events := Proceed(c, blobs, run, events, first, s5, 1, files - {sha}, total - size, Done(Removed));
    assert s5.procs[1 := Done(Removed)] == map[0 := seen, 1 := Done(Removed)];
  }

  /** A whole `put` of a blob that is not there, by call 2. */
  lemma {:induction false} PutAlone(
    c: Store, blobs: set<Bytes>, run: seq<State>, events: seq<Event>, first: State, s: State, d: Bytes)
    returns (run': seq<State>, events': seq<Event>)
    requires RunsTo(c, blobs, run, events, first, s) && 2 !in s.procs && d in blobs && c.hash(d) !in s.files
    requires c.budget == 0 || s.counter + |d| <= c.budget
    ensures RunsTo(c, blobs, run', events', first,
                   State(s.files[c.hash(d) := d], s.counter + |d|, s.orphans, s.procs[2 := Done(Stored(c.hash(d)))]))
  {
    hide RunsTo;
    var procs, files := s.procs, s.files[c.hash(d) := d];
    var s1 := s.(procs := procs[2 := PutStart(d)]);
    run', events' := Grow(c, blobs, run, events, first, s, Call(2, PutStart(d)), s1);
    run', events' := Proceed(c, blobs, run', events', first, s1, 2, s.files, s.counter, PutFresh(d));
    var s2 := s.(procs := procs[2 := PutFresh(d)]);
    assert s1.procs[2 := PutFresh(d)] == s2.procs;
    run', events' := Proceed(c, blobs, run', events', first, s2, 2, s.files, s.counter, PutAdmitted(d));
    var s3 := s.(procs := procs[2 := PutAdmitted(d)]);
    assert s2.procs[2 := PutAdmitted(d)] == s3.procs;
    run', events' := Proceed(c, blobs, run', events', first, s3, 2, s.files, s.counter, PutStaged(d));
    var s4 := s.(procs := procs[2 := PutStaged(d)]);
    assert s3.procs[2 := PutStaged(d)] == s4.procs;
    run', events' := Proceed(c, blobs, run', events', first, s4, 2, files, s.counter, PutRenamed(d));
    var s5 := s.(files := files, procs := procs[2 := PutRenamed(d)]);
    assert s4.procs[2 := PutRenamed(d)] == s5.procs;
    run', events' := Proceed(c, blobs, run', events', first, s5, 2, files, s.counter + |d|, Done(Stored(c.hash(d))));
    assert s5.procs[2 := Done(Stored(c.hash(d)))] == procs[2 := Done(Stored(c.hash(d)))];
  }

  /** A damaged file longer than its blob: one `remove` sees its size, another removes it, the blob is
      put again, and the first unlinks that and owes the size of the damaged file. */
  lemma {:induction false} LongerUpsets(c: Store, blobs: set<Bytes>, files: map<string, Bytes>, d: Bytes)
    returns (run: seq<State>, events: seq<Event>, last: State)
    requires Digests(c, blobs) && d in blobs && c.hash(d) in files && |files[c.hash(d)]| > |d|
    requires c.budget == 0 || Live(files) <= c.budget
    ensures RunsTo(c, blobs, run, events, State(files, Live(files), 0, map[]), last) && !Accounted(Walk(0, 0), last)
  {
    var sha := c.hash(d);
    var size, first := |files[sha]|, State(files, Live(files), 0, map[]);
    SumByRemove(files, BlobBytes, sha);
    var seen, rest := RemoveStatted(sha, Some(size)), files - {sha};
    run, events := RemoveWatched(c, blobs, files, sha);
    var s := State(rest, Live(files) - size, 0, map[0 := seen, 1 := Done(Removed)]);
    run, events := PutAlone(c, blobs, run, events, first, s, d);
    var t := State(rest[sha := d], Live(files) - size + |d|, 0,
                   map[0 := seen, 1 := Done(Removed), 2 := Done(Stored(sha))]);
    assert s.procs[2 := Done(Stored(sha))] == t.procs;
    run, events := Proceed(c, blobs, run, events, first, t, 0, rest[sha := d] - {sha}, t.counter, RemoveUnlinked(size));
    last := State(rest[sha := d] - {sha}, t.counter, 0, t.procs[0 := RemoveUnlinked(size)]);
    assert rest[sha := d] - {sha} == rest;
    OweOnly(t.procs, size);
  }

  lemma {:induction false} OweOnly(procs: map<nat, Proc>, size: nat)
    requires 0 in procs && forall i | i in procs && i != 0 :: procs[i].Done?
    ensures SumBy(procs[0 := RemoveUnlinked(size)], UnlinkedBytes) == size
    ensures SumBy(procs[0 := RemoveUnlinked(size)], RenamedBytes) == 0
  {
    var after := procs[0 := RemoveUnlinked(size)];
    SumByRemove(after, UnlinkedBytes, 0);
    SumByScaled(after - {0}, UnlinkedBytes, UnlinkedBytes, 0);
    SumByScaled(after, RenamedBytes, RenamedBytes, 0);
  }

  ghost predicate Upset(c: Store, blobs: set<Bytes>, first: State) {
    exists run, events, last :: RunsTo(c, blobs, run, events, first, last) && !Accounted(Walk(0, 0), last)
  }

  /** From an exact start, every run keeps the accounts exactly if no file is longer than a blob with
      its name. */
  lemma {:induction false} AccountsIff(c: Store, blobs: set<Bytes>, files: map<string, Bytes>)
    requires Digests(c, blobs) && (c.budget == 0 || Live(files) <= c.budget)
    ensures !Upset(c, blobs, State(files, Live(files), 0, map[])) <==> NotLonger(c, blobs, files)
  {
    var first := State(files, Live(files), 0, map[]);
    if NotLonger(c, blobs, files) {
      ExactStart(c, blobs, files);
      forall run, events, last | RunsTo(c, blobs, run, events, first, last) ensures Accounted(Walk(0, 0), last) {
        CounterNeverUndercounts(c, Walk(0, 0), blobs, run, events, |events|);
      }
    } else {
      var d :| d in blobs && c.hash(d) in files && |files[c.hash(d)]| > |d|;
      var run, events, last := LongerUpsets(c, blobs, files, d);
    }
  }
}
