/** The per-sender sliding-window limiter (switchyardd/src/limits.rs).

    The limiter prunes its whole map on every call, at a horizon that depends on the
    configuration. It is proved to answer exactly as a limiter that never forgets, and that
    answer is exactly whether accepting keeps every window of the history within its limit.
    Times are nanosecond ticks of a clock that never goes back. */
module Limits {
  import opened Common

  const MINUTE: int := 60_000_000_000
  const HOUR: int := 3600_000_000_000
  const U32: nat := 4294967296

  /** The cast `as u32`. */
  function Narrow(n: nat): (r: nat)
    ensures n < U32 ==> r == n
  {
    n % 4294967296
  }

  datatype Entry = Entry(time: int, bytes: nat)

  datatype Config = Config(messagesPerMinute: nat, bytesPerHour: nat) {
    predicate Unlimited() { messagesPerMinute == 0 && bytesPerHour == 0 }

    function Horizon(): int { if bytesPerHour > 0 then HOUR else MINUTE }
  }

  // ---------- windows of a history ----------

  /** The entries with a time in (lo, hi]. */
  function Window(s: seq<Entry>, lo: int, hi: int): seq<Entry> {
    if s == [] then []
    else
      var front := Window(s[..|s| - 1], lo, hi);
      if lo < s[|s| - 1].time <= hi then front + [s[|s| - 1]] else front
  }

  /** What `retain` keeps: the entries later than `lo`. */
  function Later(s: seq<Entry>, lo: int): seq<Entry> {
    if s == [] then []
    else
      var front := Later(s[..|s| - 1], lo);
      if s[|s| - 1].time > lo then front + [s[|s| - 1]] else front
  }

  function TotalBytes(s: seq<Entry>): nat {
    if s == [] then 0 else TotalBytes(s[..|s| - 1]) + s[|s| - 1].bytes
  }

  /** Messages in the minute that follows `a`. */
  function MinuteFrom(s: seq<Entry>, a: int): nat { |Window(s, a, a + MINUTE)| }

  /** Bytes in the hour that follows `a`. */
  function HourFrom(s: seq<Entry>, a: int): nat { TotalBytes(Window(s, a, a + HOUR)) }

  /** Every minute holds at most the message limit and every hour at most the byte limit. */
  ghost predicate WithinLimits(cfg: Config, s: seq<Entry>) {
    && (cfg.messagesPerMinute > 0 ==> forall a :: MinuteFrom(s, a) <= cfg.messagesPerMinute)
    && (cfg.bytesPerHour > 0 ==> forall a :: HourFrom(s, a) <= cfg.bytesPerHour)
  }

  /** The test a limiter with full memory makes. */
  predicate Admits(cfg: Config, s: seq<Entry>, bytes: nat, now: int) {
    && (cfg.messagesPerMinute > 0 ==> |Later(s, now - MINUTE)| < cfg.messagesPerMinute)
    && (cfg.bytesPerHour > 0 ==> TotalBytes(Later(s, now - HOUR)) + bytes <= cfg.bytesPerHour)
  }

  ghost predicate NotAfter(s: seq<Entry>, now: int) {
    forall i | 0 <= i < |s| :: s[i].time <= now
  }

  lemma {:induction false} WindowIsLater(s: seq<Entry>, lo: int, hi: int)
    requires NotAfter(s, hi)
    ensures Window(s, lo, hi) == Later(s, lo)
  {
    if s != [] {
      WindowIsLater(s[..|s| - 1], lo, hi);
    }
  }

  /** Of a history that ends by `hi'`, a window that starts later never holds more. */
  lemma {:induction false} WindowShrinks(s: seq<Entry>, lo: int, hi: int, lo': int, hi': int)
    requires lo' <= lo && NotAfter(s, hi')
    ensures |Window(s, lo, hi)| <= |Window(s, lo', hi')|
    ensures TotalBytes(Window(s, lo, hi)) <= TotalBytes(Window(s, lo', hi'))
  {
    if s != [] {
      var n := |s| - 1;
      WindowShrinks(s[..n], lo, hi, lo', hi');
      TotalBytesSnoc(Window(s[..n], lo, hi), s[n]);
      TotalBytesSnoc(Window(s[..n], lo', hi'), s[n]);
    }
  }

  lemma {:induction false} TotalBytesSnoc(s: seq<Entry>, e: Entry)
    ensures TotalBytes(s + [e]) == TotalBytes(s) + e.bytes
  {
    assert (s + [e])[..|s|] == s;
  }

  /** The window of a history with one more entry. */
  lemma {:induction false} WindowSnoc(s: seq<Entry>, e: Entry, lo: int, hi: int)
    ensures Window(s + [e], lo, hi)
         == if lo < e.time <= hi then Window(s, lo, hi) + [e] else Window(s, lo, hi)
  {
    assert (s + [e])[..|s|] == s;
  }

  lemma {:induction false} LaterSnoc(s: seq<Entry>, e: Entry, lo: int)
    ensures Later(s + [e], lo) == if lo < e.time then Later(s, lo) + [e] else Later(s, lo)
  {
    assert (s + [e])[..|s|] == s;
  }

  /** Pruning twice is pruning once at the later horizon. */
  lemma {:induction false} LaterLater(s: seq<Entry>, lo: int, lo': int)
    requires lo <= lo'
    ensures Later(Later(s, lo), lo') == Later(s, lo')
  {
    if s != [] {
      var n := |s| - 1;
      LaterLater(s[..n], lo, lo');
      LaterSnoc(Later(s[..n], lo), s[n], lo');
    }
  }

  lemma {:induction false} MinuteSnoc(s: seq<Entry>, e: Entry, a: int)
    ensures MinuteFrom(s + [e], a) == MinuteFrom(s, a) + if a < e.time <= a + MINUTE then 1 else 0
  {
    WindowSnoc(s, e, a, a + MINUTE);
  }

  lemma {:induction false} HourSnoc(s: seq<Entry>, e: Entry, a: int)
    ensures HourFrom(s + [e], a) == HourFrom(s, a) + if a < e.time <= a + HOUR then e.bytes else 0
  {
    WindowSnoc(s, e, a, a + HOUR);
    TotalBytesSnoc(Window(s, a, a + HOUR), e);
  }

  /** The code's two sums are the last minute and the last hour. */
  lemma {:induction false} LastWindows(s: seq<Entry>, now: int)
    requires NotAfter(s, now)
    ensures MinuteFrom(s, now - MINUTE) == |Later(s, now - MINUTE)|
    ensures HourFrom(s, now - HOUR) == TotalBytes(Later(s, now - HOUR))
  {
    WindowIsLater(s, now - MINUTE, now);
    WindowIsLater(s, now - HOUR, now);
  }

  lemma {:induction false} AdmittedStaysWithin(cfg: Config, s: seq<Entry>, bytes: nat, now: int)
    requires WithinLimits(cfg, s) && NotAfter(s, now) && Admits(cfg, s, bytes, now)
    ensures WithinLimits(cfg, s + [Entry(now, bytes)])
  {
    var e := Entry(now, bytes);
    LastWindows(s, now);
    forall a ensures cfg.messagesPerMinute > 0 ==> MinuteFrom(s + [e], a) <= cfg.messagesPerMinute {
      MinuteSnoc(s, e, a);
      if a < now <= a + MINUTE {
        WindowShrinks(s, a, a + MINUTE, now - MINUTE, now);
      }
    }
    forall a ensures cfg.bytesPerHour > 0 ==> HourFrom(s + [e], a) <= cfg.bytesPerHour {
      HourSnoc(s, e, a);
      if a < now <= a + HOUR {
        WindowShrinks(s, a, a + HOUR, now - HOUR, now);
      }
    }
  }

  /** Accepting now is right exactly when it leaves every window of the history, past and
      future, within its limit. */
  lemma {:induction false} AdmitsIffWithinLimits(cfg: Config, s: seq<Entry>, bytes: nat, now: int)
    requires WithinLimits(cfg, s) && NotAfter(s, now)
    ensures Admits(cfg, s, bytes, now) <==> WithinLimits(cfg, s + [Entry(now, bytes)])
  {
    if Admits(cfg, s, bytes, now) {
      AdmittedStaysWithin(cfg, s, bytes, now);
    } else {
      var e := Entry(now, bytes);
      LastWindows(s, now);
      MinuteSnoc(s, e, now - MINUTE);
      HourSnoc(s, e, now - HOUR);
    }
  }

  lemma {:induction false} NoLimits(cfg: Config, s: seq<Entry>, bytes: nat, now: int)
    requires cfg.Unlimited()
    ensures Admits(cfg, s, bytes, now) && WithinLimits(cfg, s + [Entry(now, bytes)])
  {
  }

  // ---------- the limiter ----------

  function Get(m: map<string, seq<Entry>>, key: string): seq<Entry> {
    if key in m then m[key] else []
  }

  /** The prune over the whole map: stale entries go, and so do keys left without any. */
  function Prune(m: map<string, seq<Entry>>, lo: int): map<string, seq<Entry>> {
    map k | k in m && Later(m[k], lo) != [] :: Later(m[k], lo)
  }

  /** The map is the whole history cut at the horizon, with no empty key. */
  ghost predicate Pruned(windows: map<string, seq<Entry>>, accepted: map<string, seq<Entry>>, lo: int) {
    && (forall k | k in windows :: windows[k] != [])
    && (forall k :: Get(windows, k) == Later(Get(accepted, k), lo))
  }

  /** Pruning a map already cut at an earlier horizon cuts the history at the later one. */
  lemma {:induction false} PruneCatchesUp(m: map<string, seq<Entry>>, h: map<string, seq<Entry>>, lo: int, lo': int)
    requires lo <= lo' && Pruned(m, h, lo)
    ensures Pruned(Prune(m, lo'), h, lo')
  {
    forall k ensures Get(Prune(m, lo'), k) == Later(Get(h, k), lo') {
      LaterLater(Get(h, k), lo, lo');
      assert Get(m, k) == Later(Get(h, k), lo);
    }
  }

  lemma {:induction false} PushKeepsPruned(
    m: map<string, seq<Entry>>, h: map<string, seq<Entry>>, lo: int, key: string, e: Entry)
    requires Pruned(m, h, lo) && lo < e.time
    ensures Pruned(m[key := Get(m, key) + [e]], h[key := Get(h, key) + [e]], lo)
  {
    var m', h' := m[key := Get(m, key) + [e]], h[key := Get(h, key) + [e]];
    forall k ensures Get(m', k) == Later(Get(h', k), lo) {
      LaterSnoc(Get(h, key), e, lo);
      assert Get(m, k) == Later(Get(h, k), lo);
    }
  }

  /** What is left after the prune decides as the whole history would. The count of the current
      minute never exceeds the limit, so narrowing it to 32 bits does not change it. */
  lemma {:induction false} PrunedDecides(cfg: Config, history: seq<Entry>, existing: seq<Entry>, bytes: nat, now: int)
    requires 0 < cfg.messagesPerMinute < U32 || cfg.bytesPerHour > 0
    requires cfg.messagesPerMinute < U32
    requires WithinLimits(cfg, history) && NotAfter(history, now)
    requires existing == Later(history, now - cfg.Horizon())
    ensures Admits(cfg, history, bytes, now) <==>
      && !(cfg.messagesPerMinute > 0 && Narrow(|Later(existing, now - MINUTE)|) >= cfg.messagesPerMinute)
      && !(cfg.bytesPerHour > 0 && TotalBytes(existing) + bytes > cfg.bytesPerHour)
  {
    hide Window, Later, TotalBytes, Narrow, NotAfter;
    LaterLater(history, now - cfg.Horizon(), now - MINUTE);
    LastWindows(history, now);
    assert cfg.messagesPerMinute > 0 ==> MinuteFrom(history, now - MINUTE) <= cfg.messagesPerMinute;
  }

  /** What the limiter's fields say about the whole accepted history. */
  ghost predicate Coherent(
    cfg: Config, windows: map<string, seq<Entry>>, accepted: map<string, seq<Entry>>, clock: int)
  {
    && cfg.messagesPerMinute < U32
    && (forall k | k in accepted :: NotAfter(accepted[k], clock) && WithinLimits(cfg, accepted[k]))
    && if cfg.Unlimited() then windows == map[] else Pruned(windows, accepted, clock - cfg.Horizon())
  }

  lemma {:induction false} PruneKeepsCoherent(
    cfg: Config, windows: map<string, seq<Entry>>, accepted: map<string, seq<Entry>>, clock: int, now: int)
    requires !cfg.Unlimited() && clock <= now && Coherent(cfg, windows, accepted, clock)
    ensures Coherent(cfg, Prune(windows, now - cfg.Horizon()), accepted, now)
  {
    PruneCatchesUp(windows, accepted, clock - cfg.Horizon(), now - cfg.Horizon());
  }

  /** What one key's entries say when the fields are coherent. */
  lemma {:induction false} CoherentKey(
    cfg: Config, windows: map<string, seq<Entry>>, accepted: map<string, seq<Entry>>, clock: int, key: string)
    requires Coherent(cfg, windows, accepted, clock)
    ensures cfg.messagesPerMinute < U32
    ensures WithinLimits(cfg, Get(accepted, key)) && NotAfter(Get(accepted, key), clock)
    ensures !cfg.Unlimited() ==> Get(windows, key) == Later(Get(accepted, key), clock - cfg.Horizon())
  {
    hide WithinLimits, Later;
    EmptyWithin(cfg);
  }

  lemma {:induction false} EmptyWithin(cfg: Config)
    ensures WithinLimits(cfg, [])
  {
    assert forall a :: MinuteFrom([], a) == 0 && HourFrom([], a) == 0;
  }

  lemma {:induction false} TimePasses(
    cfg: Config, windows: map<string, seq<Entry>>, accepted: map<string, seq<Entry>>, clock: int, now: int)
    requires cfg.Unlimited() && clock <= now && Coherent(cfg, windows, accepted, clock)
    ensures Coherent(cfg, windows, accepted, now)
  {
  }

  lemma {:induction false} PushKeepsCoherent(
    cfg: Config, windows: map<string, seq<Entry>>, accepted: map<string, seq<Entry>>, key: string, e: Entry)
    requires Coherent(cfg, windows, accepted, e.time)
    requires WithinLimits(cfg, Get(accepted, key) + [e])
    ensures !cfg.Unlimited() ==>
              Coherent(cfg, windows[key := Get(windows, key) + [e]], accepted[key := Get(accepted, key) + [e]], e.time)
    ensures cfg.Unlimited() ==>
              Coherent(cfg, windows, accepted[key := Get(accepted, key) + [e]], e.time)
  {
    if !cfg.Unlimited() {
      PushKeepsPruned(windows, accepted, e.time - cfg.Horizon(), key, e);
    }
  }

  class SenderLimiter {
    const cfg: Config
    var windows: map<string, seq<Entry>>
    /** Everything ever accepted, per key, and the time of the last call. */
    ghost var accepted: map<string, seq<Entry>>
    ghost var clock: int

    ghost predicate Valid()
      reads this
    {
      Coherent(cfg, windows, accepted, clock)
    }

    constructor (cfg: Config, ghost now: int)
      requires cfg.messagesPerMinute < U32
      ensures Valid() && this.cfg == cfg && accepted == map[] && clock == now
    {
      this.cfg := cfg;
      windows := map[];
      accepted := map[];
      clock := now;
    }

    method Allow(key: string, bytes: nat, now: int) returns (ok: bool)
      requires Valid() && clock <= now
      modifies this
      ensures Valid() && clock == now
      // the answer of a limiter with full memory ...
      ensures ok == Admits(cfg, Get(old(accepted), key), bytes, now)
      // ... which is whether the history stays within its limits
      ensures ok <==> WithinLimits(cfg, Get(old(accepted), key) + [Entry(now, bytes)])
      ensures accepted == if ok then old(accepted)[key := Get(old(accepted), key) + [Entry(now, bytes)]]
                          else old(accepted)
    {
      hide Coherent, WithinLimits, NotAfter, Admits, Prune, Later;
      ghost var history := Get(accepted, key);
      clock := now;
      if cfg.messagesPerMinute == 0 && cfg.bytesPerHour == 0 {
        TimePasses(cfg, windows, accepted, old(clock), now);
        CoherentKey(cfg, windows, accepted, now, key);
        NoLimits(cfg, history, bytes, now);
        PushKeepsCoherent(cfg, windows, accepted, key, Entry(now, bytes));
        accepted := accepted[key := history + [Entry(now, bytes)]];
        return true;
      }
      var horizon := if cfg.bytesPerHour > 0 then HOUR else MINUTE;
      PruneKeepsCoherent(cfg, windows, accepted, old(clock), now);
      windows := Prune(windows, now - horizon);
      CoherentKey(cfg, windows, accepted, now, key);
      AdmitsIffWithinLimits(cfg, history, bytes, now);
      var existing := Get(windows, key);
      PrunedDecides(cfg, history, existing, bytes, now);
      if cfg.messagesPerMinute > 0 {
        var countInMinute := |Later(existing, now - MINUTE)|;
        if Narrow(countInMinute) >= cfg.messagesPerMinute {
          return false;
        }
      }
      if cfg.bytesPerHour > 0 {
        if TotalBytes(existing) + bytes > cfg.bytesPerHour {
          return false;
        }
      }
      PushKeepsCoherent(cfg, windows, accepted, key, Entry(now, bytes));
      windows := windows[key := existing + [Entry(now, bytes)]];
      accepted := accepted[key := history + [Entry(now, bytes)]];
      ok := true;
    }
  }

  /** In every state a call leaves behind that reached the prune, no key is empty and no entry
      is at or past the horizon. */
  lemma {:induction false} NothingStale(
    cfg: Config, windows: map<string, seq<Entry>>, accepted: map<string, seq<Entry>>, clock: int)
    requires !cfg.Unlimited() && Coherent(cfg, windows, accepted, clock)
    ensures forall k | k in windows ::
              && windows[k] != []
              && forall i | 0 <= i < |windows[k]| ::
                   clock - windows[k][i].time < if cfg.bytesPerHour > 0 then 3600_000_000_000 else 60_000_000_000
  {
    var lo := clock - cfg.Horizon();
    forall k | k in windows ensures forall i | 0 <= i < |windows[k]| :: windows[k][i].time > lo {
      assert Get(windows, k) == Later(Get(accepted, k), lo);
      LaterIsLater(Get(accepted, k), lo);
    }
  }

  lemma {:induction false} LaterIsLater(s: seq<Entry>, lo: int)
    ensures forall i | 0 <= i < |Later(s, lo)| :: Later(s, lo)[i].time > lo
  {
    if s != [] {
      LaterIsLater(s[..|s| - 1], lo);
    }
  }
}
