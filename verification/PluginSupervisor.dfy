/** The restart loop (switchyardd/src/plugins.rs, `supervise`): after each exit the plugin waits
    1, 5, 30 or 120 seconds before it is started again, further up the ladder on every strike,
    and a run of more than 60 seconds resets the ladder. Durations are in nanoseconds. */
module PluginSupervisor {
  const SECOND: nat := 1_000_000_000
  const HEALTHY: nat := 60_000_000_000
  const RECHECK: nat := 5_000_000_000

  /** One turn of the loop as the environment decides it: how long the child ran, and how many
      times the configuration was then found disabled before the next start. */
  datatype Cycle = Cycle(run: nat, parked: nat)

  /** `backoffs[strikes.min(3)]`, in nanoseconds. */
  function Backoff(strikes: nat): nat {
    if strikes == 0 then 1_000_000_000
    else if strikes == 1 then 5_000_000_000
    else if strikes == 2 then 30_000_000_000
    else 120_000_000_000
  }

  /** The strikes cycle `i` is charged for: the exits since the last healthy run. */
  function Strikes(cycles: seq<Cycle>, i: nat): nat
    requires i < |cycles|
  {
    if cycles[i].run > HEALTHY || i == 0 then 0 else Strikes(cycles, i - 1) + 1
  }

  /** From the start of cycle `i` to the next start. */
  function Turn(cycles: seq<Cycle>, i: nat): nat
    requires i < |cycles|
  {
    cycles[i].run + Backoff(Strikes(cycles, i)) + cycles[i].parked * RECHECK
  }

  /** How far a schedule may run ahead of one start every 32 seconds: the potential. */
  function Slack(strikes: nat): nat {
    if strikes == 0 then 0
    else if strikes == 1 then 31_000_000_000
    else if strikes == 2 then 58_000_000_000
    else 60_000_000_000
  }

  /** The start after `n` completed cycles comes at least 32n - 60 seconds after the first,
      for every mix of short and healthy runs. */
  method Supervise(cycles: seq<Cycle>, first: int) returns (spawns: seq<int>)
    ensures |spawns| == |cycles| + 1 && spawns[0] == first
    ensures forall i | 0 <= i < |cycles| :: spawns[i + 1] == spawns[i] + Turn(cycles, i)
    ensures forall n | 0 <= n <= |cycles| :: spawns[n] - spawns[0] >= (32 * n - 60) * SECOND
  {
    var strikes := 0;
    var now := first;
    spawns := [first];
    for i := 0 to |cycles|
      invariant |spawns| == i + 1 && spawns[0] == first && spawns[i] == now
      invariant strikes == if i == 0 then 0 else Strikes(cycles, i - 1) + 1
      invariant forall k | 0 <= k < i :: spawns[k + 1] == spawns[k] + Turn(cycles, k)
      invariant now - first >= 32 * i * SECOND - Slack(strikes)
      invariant forall n | 0 <= n <= i :: spawns[n] - first >= (32 * n - 60) * SECOND
    {
      now := now + cycles[i].run;
      if cycles[i].run > HEALTHY {
        strikes := 0;
      }
      var delay := Backoff(strikes);
      strikes := strikes + 1;
      now := now + delay;
      now := now + cycles[i].parked * RECHECK;
      spawns := spawns + [now];
    }
  }

  // ---------- the ladder, turn by turn ----------

  /** The wait after an exit, in seconds, when it is the first since a healthy run (or the start), the
      second, the third, and any later one. */
  function Wait(exits: nat): nat
    requires exits >= 1
  {
    [1, 5, 30, 120][if exits <= 4 then exits - 1 else 3]
  }

  /** Cycle `j` is the first, or ran for more than a minute, and none since then up to `i` did. */
  ghost predicate LadderSince(cycles: seq<Cycle>, j: nat, i: nat) {
    && j <= i < |cycles|
    && (j == 0 || cycles[j].run > 60 * SECOND)
    && forall m | j < m <= i :: cycles[m].run <= 60 * SECOND
  }

  /** What each turn takes: the run, the wait for the number of exits since the last run of more than a
      minute, and five seconds for every time the plugin was then found disabled. */
  lemma {:induction false} TurnMeans(cycles: seq<Cycle>, j: nat, i: nat)
    requires LadderSince(cycles, j, i)
    ensures Turn(cycles, i) == cycles[i].run + Wait(i - j + 1) * SECOND + cycles[i].parked * 5 * SECOND
  {
    StrikesMean(cycles, j, i);
  }

  lemma {:induction false} StrikesMean(cycles: seq<Cycle>, j: nat, i: nat)
    requires LadderSince(cycles, j, i)
    ensures Strikes(cycles, i) == i - j
  {
    if j < i {
      StrikesMean(cycles, j, i - 1);
    }
  }

  /** A crash loop: after three exits the plugin is started once every two minutes. */
  lemma {:induction false} CrashLoop(cycles: seq<Cycle>, n: nat)
    requires n <= |cycles| && forall i | 0 <= i < n :: cycles[i] == Cycle(0, 0)
    ensures Elapsed(cycles, n)
         == (if n == 0 then 0 else if n == 1 then 1 else if n == 2 then 6 else 36 + 120 * (n - 3)) * SECOND
  {
    if n > 0 {
      CrashLoop(cycles, n - 1);
      TurnMeans(cycles, 0, n - 1);
    }
  }

  // ---------- the bound is the best one ----------

  /** Time taken by the first `n` cycles. */
  function Elapsed(cycles: seq<Cycle>, n: nat): nat
    requires n <= |cycles|
  {
    if n == 0 then 0 else Elapsed(cycles, n - 1) + Turn(cycles, n - 1)
  }

  /** Three immediate exits, then `m` rounds of one run just over a minute and two exits. */
  function Fastest(m: nat): (r: seq<Cycle>)
    ensures |r| == 3 * m + 3
  {
    var crash := Cycle(0, 0);
    if m == 0 then [crash, crash, crash] else Fastest(m - 1) + [Cycle(HEALTHY + 1, 0), crash, crash]
  }

  lemma {:induction false} PrefixElapsed(a: seq<Cycle>, b: seq<Cycle>, n: nat)
    requires n <= |a|
    ensures Elapsed(a + b, n) == Elapsed(a, n)
    ensures n > 0 ==> Strikes(a + b, n - 1) == Strikes(a, n - 1)
  {
    if n > 0 {
      PrefixElapsed(a, b, n - 1);
      assert (a + b)[n - 1] == a[n - 1];
    }
  }

  /** Some schedule keeps to the bound for ever, up to one nanosecond for each healthy run: with
      n = 3m + 3 cycles it takes 32n - 60 seconds plus m nanoseconds. */
  lemma {:induction false} BoundIsTight(m: nat)
    ensures Elapsed(Fastest(m), 3 * m + 3) == (32 * (3 * m + 3) - 60) * SECOND + m
  {
    var crash := Cycle(0, 0);
    var c := Fastest(m);
    var n := 3 * m + 3;
    if m == 0 {
      assert c == [crash, crash, crash];
      assert Strikes(c, 0) == 0 && Strikes(c, 1) == 1 && Strikes(c, 2) == 2;
      assert Elapsed(c, 1) == Turn(c, 0);
      assert Elapsed(c, 3) == Elapsed(c, 1) + Turn(c, 1) + Turn(c, 2);
    } else {
      BoundIsTight(m - 1);
      PrefixElapsed(Fastest(m - 1), [Cycle(HEALTHY + 1, 0), crash, crash], n - 3);
      assert c[n - 3] == Cycle(HEALTHY + 1, 0) && c[n - 2] == crash && c[n - 1] == crash;
      assert Strikes(c, n - 3) == 0 && Strikes(c, n - 2) == 1 && Strikes(c, n - 1) == 2;
      assert Turn(c, n - 3) == 61 * SECOND + 1 && Turn(c, n - 2) == 5 * SECOND && Turn(c, n - 1) == 30 * SECOND;
      assert Elapsed(c, n) == Elapsed(c, n - 2) + Turn(c, n - 2) + Turn(c, n - 1);
      assert Elapsed(c, n - 2) == Elapsed(c, n - 3) + Turn(c, n - 3);
    }
  }
}
