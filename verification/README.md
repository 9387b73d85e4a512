# RelayFabric: verified models of the stateful core

RelayFabric is a message-routing daemon (`switchyardd`) with transport plugins and an admin UI.
Its hard logic sits in small stateful components whose guarantees are about whole runs: byte
accounting that several writers share without a lock, caches that forget and must still answer as
if they did not, a fan-out protocol with callbacks from many threads, file rotations that may be
cut short, and a passkey store behind a bootstrap gate. This project models those components in
Dafny and proves what they keep over every run or interleaving.

`dafny verify dfyconfig.toml` checks everything.

| file | component |
|---|---|
| `Cas.dfy`, `CasRuns.dfy` | content-addressed attachment store, as a step machine and as an object, and runs that show its bounds exact |
| `Limits.dfy`, `Dedup.dfy`, `Ingress.dfy` | sender limiter, duplicate cache, and the admission path that combines them |
| `DedupKey.dfy` | the bytes hashed into a duplicate key |
| `Fanout.dfy`, `FanoutProtocol.dfy`, `DirectSend.dfy` | LXMF fan-out tracker, the claim/report/release protocol around it, and direct sends |
| `PluginRegistry.dfy`, `PluginSupervisor.dfy`, `PluginLiveness.dfy` | reconnect race, restart ladder, wedge detection |
| `ConfigHistory.dfy`, `ConfigAdmission.dfy` | config revisions on disk, and what the admin API can bring to life |
| `Auth.dfy`, `AuthStore.dfy` | passkey store and its endpoints |
| `AuthBootstrap.dfy`, `AuthSessions.dfy` | registration and login with their lock sections as separate steps |
| `Transform.dfy`, `Policy.dfy` | two-stage truncation, policy evaluation |
| `Common.dfy` | options, sums over maps |

## How the model reads the program

- An object whose methods update its fields is a class with those fields. Where a guarantee is
  about the past (everything ever accepted, recorded, installed, redeemed), the class carries that
  past in ghost fields, and `Valid()` ties the real fields to it. As every method keeps `Valid()`,
  it holds after any sequence of calls.
- Where steps of several callers interleave (store, message admission, fan-out, config requests,
  registration, login), there is a step machine over values, one step for each lock section or
  system call, and the theorems quantify over its runs.
- SHA-256, signature, clientData, attestation and YAML parsing are parameters. Collision freedom
  is assumed only of the blobs that are put; files found at the start may be damaged. Clocks are integers in nanoseconds that never
  go back; random tokens, process exits and disk errors are inputs.

Several guarantees a first reading suggests hold only under a condition. Each has a theorem that says
when it holds, and most a run or an input that breaks it otherwise.

- Messages accepted with one key are the time-to-live apart exactly if none of the later ones had
  peeked before the first recorded (`Ingress.SameKeyApartIff`); two connections of one plugin can
  race (`Ingress.RaceAcceptsTwice`), and it is not enough to look at one pair
  (`Ingress.ThirdLetsIn`).
- A session names a stored credential with its role exactly if no removal of the credential fell
  between the two lock sections of its login, or it was registered again with that role
  (`AuthSessions.LinkedIff`, `AuthSessions.RemovalInTheGap`).
- A healthy child is killed by no poll, whatever connection an earlier process left up, exactly if the
  read loop's 90 second deadline never tears a connection down late (`PluginLiveness.SparedIffOnTime`).
  The deadline starts anew with each read, so handling a frame makes it late by that time.
- The byte counter accounts for the disk in every run exactly if no file at the start is longer than a
  blob with its name (`CasRuns.AccountsIff`); shorter, torn files do no harm.
- The overshoot bound of the store, without a term for what failed puts leave behind, is one of the
  disk exactly if they leave nothing (`CasRuns.PlainBoundIff`).
- Every minute and hour of a sender keeps within its limits between two reloads, not across one
  (`Ingress.WithinLimitsBetweenReloads`, `Ingress.ReloadDoubles`).
- Capping a rendered text twice equals capping it once at the smaller cap exactly when the first
  cap is below 3, or the second is at least 3, or the first exceeds the second by 3 or more
  (`Transform.CapCapIff`). `truncate_body` composes for all caps, zero included.
- With notes between the two truncation stages both markers can survive; `Transform.FirstMarkerIff`
  says when.
- Callbacks alone complete a fan-out exactly when no two members share an eight-character prefix
  (`Fanout.CompletesIffDistinct`); otherwise it is the watchdog that reports. A claim whose
  preparation fails is never released (`FanoutProtocol.LeakIsForever`).
- A repeated callback of a direct send takes away the claim of a newer one exactly while that waits
  (`DirectSend.StealsIffLate`).
- A rollback stopped after its first or second rename keeps the old live text only in the scratch
  file, which the next apply overwrites (`ConfigHistory.StoppedRollbackThenApply`).

The comments on `PUT /v1/config` speak of a single retained revision; the code keeps five, and the
model follows the code.

## Model

| member | source | states |
|---|---|---|
| CasStore.StepKeepsAccounts | switchyardd/src/cas.rs:104-192 | one atomic step of any `put` or `remove` keeps: counter, bytes renamed but not yet added and bytes the start-up walk missed are at least live bytes, bytes unlinked but not yet subtracted and bytes the walk found besides blobs |
| CasStore.CounterNeverUndercounts | switchyardd/src/cas.rs:104-192 | if no file at the start is longer than a blob with its name, that inequality holds in every state of every interleaving of any number of calls, including calls that fail part-way |
| CasRuns.AccountsIff | switchyardd/src/cas.rs:146-192 | from an exact start it holds in every run iff no file is longer than a blob with its name |
| CasRuns.LongerUpsets | switchyardd/src/cas.rs:175-192 | the run otherwise: one remove sees the size of a damaged file, another removes it, the blob is put again, and the first unlinks that owing the damaged size |
| CasStore.NoNewDamage | switchyardd/src/cas.rs:119-132 | in every run each file hashes to its name or was there, as it is, at the start |
| CasStore.AdmitStaysWithin | switchyardd/src/cas.rs:111-118 | the step that passes the budget check leaves counter plus all bytes between check and add within budget plus one blob for each other `put` in that window |
| CasStore.OvershootIsBounded | switchyardd/src/cas.rs:98-132 | what is on the disk (blobs, temporary files in flight, files left by failed puts, files found at the start) never exceeds the larger of the recovered total and budget + (k-1) * largest blob, plus what the walk missed and what failed puts left, for at most k puts at once between check and add; the counter never exceeds the first of these |
| CasRuns.OvershootIsReached | switchyardd/src/cas.rs:100-118 | for any number of different blobs of any one size the bound is attained, by a run in which at most as many puts share the window and none fails |
| CasRuns.PlainBoundIff | switchyardd/src/cas.rs:42-47 | over all runs in which failed puts leave a given number of bytes, the bound without them is exceeded by some run iff that number is not 0 |
| CasRuns.OrphansExceed | switchyardd/src/cas.rs:128-130 | failing puts, one at a time, fill the disk with any number of blobs while the counter stays 0 |
| CasStore.ExistingBytes | switchyardd/src/cas.rs:48-59 | the directory walk sums the sizes of the regular files it can read |
| CasStore.RecoveredTotal | switchyardd/src/cas.rs:37-59 | the recovered total is the live bytes plus those of files that are no blobs less those of blobs the walk could not read |
| CasStore.RecoveredStart | switchyardd/src/cas.rs:74-82 | so a run may start from it, if no file is longer than a blob with its name |
| CasStore.UndisturbedPut | switchyardd/src/cas.rs:104-132 | the step machine left alone for one `put` does what the whole-call description says, failing or not |
| CasStore.UndisturbedRemove | switchyardd/src/cas.rs:175-192 | the same for one `remove` |
| CasStore.ExactWhenAlone | switchyardd/src/cas.rs:16-25 | calls one at a time, failing or not, keep the counter in step: an exact start stays exact, a surplus stays the same, a deficit never grows |
| CasStore.PutGetRemove | switchyardd/src/cas.rs:91-192 | the bytes stored are the bytes read back iff no damaged file was there before, and removing a freshly stored blob restores files and counter |
| CasStore.PutReports | switchyardd/src/cas.rs:104-132 | a put is refused iff it is new and would take the counter past a budget that is set; an existing blob costs nothing; a failed put changes nothing, and no put touches another file |
| CasStore.RemoveReports | switchyardd/src/cas.rs:160-192 | a malformed name is refused; otherwise the file is gone or could not be unlinked; no other file is touched |
| CasStore.ValidShaIff | switchyardd/src/cas.rs:61-71 | a name is accepted iff it is 64 of the sixteen lower-case hexadecimal digits |
| CasStore.GetCall | switchyardd/src/cas.rs:146-158 | whatever is handed out hashes to the well-formed name it was asked for |
| CasStore.GetReports | switchyardd/src/cas.rs:146-158 | which of malformed, missing, corrupt and found a get reports, iff which of its needs is the first not met |
| CasStore.Cas.constructor | switchyardd/src/cas.rs:74-82 | the counter starts above the live bytes by what the walk found besides blobs less what it missed |
| CasStore.Cas.Put | switchyardd/src/cas.rs:104-132 | new files, counter, result and orphaned bytes of an undisturbed `put`: existing blob, budget refusal and disk error included |
| CasStore.Cas.Get | switchyardd/src/cas.rs:146-158 | found, malformed name, missing and corrupt cases |
| CasStore.Cas.Remove | switchyardd/src/cas.rs:175-192 | new files, counter and result of an undisturbed `remove`: malformed and missing names and disk error included |
| Limits.AdmitsIffWithinLimits | switchyardd/src/limits.rs:77-97 | a limiter with full memory accepts iff accepting keeps every 60 s window within the message limit and every 3600 s window within the byte limit |
| Limits.PruneCatchesUp | switchyardd/src/limits.rs:63-71 | pruning a map already cut at an earlier horizon gives the whole history cut at the later one, with no empty key |
| Limits.PrunedDecides | switchyardd/src/limits.rs:77-97 | what the prune leaves decides as the whole history would, and the 32-bit cast of the count never changes it |
| Limits.NothingStale | switchyardd/src/limits.rs:63-71 | after every call that reaches the prune no key is empty and no entry is 3600 s old, or 60 s if no byte limit is set |
| Limits.SenderLimiter.constructor | switchyardd/src/limits.rs:27-33 | a new limiter starts with an empty history |
| Limits.SenderLimiter.Allow | switchyardd/src/limits.rs:41-103 | the answer equals that of a limiter that never forgets, is true iff the extended history stays within its limits, and the accepted history grows exactly on true |
| DedupCache.LatestIsLatest | switchyardd/src/dedup.rs:68-80 | the reference answer looks at the last record of the key on the whole list |
| DedupCache.Dedup.constructor | switchyardd/src/dedup.rs:50-55 | starts with no records |
| DedupCache.Dedup.SetTtl | switchyardd/src/dedup.rs:64-66 | changes the time-to-live of later records only |
| DedupCache.Dedup.IsDuplicate | switchyardd/src/dedup.rs:73-80 | true iff the most recent record of the key is younger than the time-to-live in force when it was made, despite pruning; a peek leaves the record history alone |
| DedupCache.Dedup.Record | switchyardd/src/dedup.rs:85-87 | adds one record under the current time-to-live |
| Ingress.StepKeepsInv | switchyardd/src/engine.rs:450-488 | every lock section of any message or reload keeps: each accepted message found no live record among those made before its peek, and records are in order of time |
| Ingress.SameKeyApartIff | switchyardd/src/engine.rs:450-488 | in every interleaving of messages and reloads, all later messages with a key peeked at least the time-to-live after the record of the first iff none of them had peeked before it |
| Ingress.SameKeyApart | switchyardd/src/engine.rs:450-488 | if no later message with the key had peeked before the first recorded, the records are at least the time-to-live of the first apart |
| Ingress.RaceAcceptsTwice | switchyardd/src/engine.rs:455-488 | two messages with one key that both peek before either records are both accepted, at the same instant or any time apart |
| Ingress.ThirdLetsIn | switchyardd/src/engine.rs:455-488 | that a later message peeked after the first recorded is not enough: one that raced the first under a shorter time-to-live lets it in early |
| Ingress.RetryIsAccepted | switchyardd/src/dedup.rs:164-213 | in every interleaving, a message refused by the limiter and sent again is taken for a duplicate iff the records made since its first peek make it one by themselves; otherwise it is cleared iff its sender then has room |
| Ingress.WithinLimitsBetweenReloads | switchyardd/src/engine.rs:369-369 | in every interleaving, what is cleared for a sender from a start or reload up to the next keeps every minute and hour within the limits |
| Ingress.ReloadDoubles | switchyardd/src/engine.rs:369-369 | a run in which a reload to the same limits lets twice as much through in a minute |
| Ingress.Gate.constructor | switchyardd/src/dedup.rs:50-55 | both caches start empty |
| Ingress.Gate.PeekAt | switchyardd/src/engine.rs:455-458 | the pruning cache takes the peek step of the machine with full memory |
| Ingress.Gate.CheckAt | switchyardd/src/engine.rs:473-483 | the pruning limiter takes its check step |
| Ingress.Gate.RecordAt | switchyardd/src/engine.rs:488-488 | the cache takes its record step |
| Ingress.Gate.ReplaceLimiter | switchyardd/src/engine.rs:369-369 | the first section of a reload empties the limiter and keeps the duplicate records |
| Ingress.Gate.ChangeTtl | switchyardd/src/engine.rs:371-374 | the second section changes the time-to-live of later records only |
| Ingress.Gate.HandleInbound | switchyardd/src/engine.rs:450-488 | an undisturbed call is repeated, refused or accepted as the caches with full memory say, and records only what is accepted |
| DedupKey.LengthPrefixRoundTrip | switchyardd/src/dedup.rs:29-29 | a 64-bit length is read back from its eight little-endian bytes |
| DedupKey.FieldIsPrefixFree | switchyardd/src/dedup.rs:23-31 | whatever follows, a length-prefixed field is read back uniquely |
| DedupKey.FieldsInjective | switchyardd/src/dedup.rs:27-31 | equal encodings of equally many fields have equal fields |
| DedupKey.StampInjective | switchyardd/src/dedup.rs:14-16 | the timestamp texts agree iff both are absent or both times lie in the same second, before or after the origin of the clock |
| DedupKey.DecimalRoundTrip | switchyardd/src/dedup.rs:14-16 | the decimal text of a number is read back, negative or not |
| DedupKey.LeqMeans | switchyardd/src/dedup.rs:20-21 | digests are ordered by the first byte in which they differ, a prefix first |
| DedupKey.SortIsCanonical | switchyardd/src/dedup.rs:17-21 | two digest lists sort to the same list iff they are permutations |
| DedupKey.JoinInjective | switchyardd/src/dedup.rs:22-22 | non-empty comma-free digests are recovered from their join |
| DedupKey.KeyIdentifiesMessage | switchyardd/src/dedup.rs:6-33 | the bytes hashed are equal iff protocol, sender, endpoint and body are equal, the times lie in the same second, and the attachments are permutations |
| DedupKey.PlainIsNeeded | switchyardd/src/dedup.rs:20-22 | with an empty digest or a comma inside one, different messages share their bytes |
| DedupKey.FeedFields | switchyardd/src/dedup.rs:28-31 | the hashing loop feeds the concatenation of the length-prefixed fields |
| DedupKey.KeyBytes | switchyardd/src/dedup.rs:6-33 | the bytes fed are the six length-prefixed fields one after another: protocol, sender, endpoint, timestamp, body, digests |
| Fanout.FanoutTracker.constructor | plugins/lxmf/relayfabric_lxmf.py:315-331 | a new tracker, members by eight-character prefix |
| Fanout.FanoutTracker.Done | plugins/lxmf/relayfabric_lxmf.py:333-350 | new state and result of one member callback |
| Fanout.FanoutTracker.Finalize | plugins/lxmf/relayfabric_lxmf.py:352-364 | new state and result of the watchdog's early report |
| Fanout.ResolveKnows | plugins/lxmf/relayfabric_lxmf.py:336-345 | what a tracker holds is a function of the callbacks it received: prefixes heard, number of successes, failures and unconfirmed deliveries in order |
| Fanout.FailedMeans | plugins/lxmf/relayfabric_lxmf.py:345-345 | the failures listed are exactly the prefixes with a failing callback |
| Fanout.SoftMeans | plugins/lxmf/relayfabric_lxmf.py:342-343 | listed as unconfirmed are exactly the successes of a kind other than "direct", each with its kind |
| Fanout.PrefixMeans | plugins/lxmf/relayfabric_lxmf.py:317-317 | two members are told apart iff their addresses differ within eight characters |
| Fanout.UnresolvedMeans | plugins/lxmf/relayfabric_lxmf.py:362-362 | the members listed as pending are exactly those not heard from |
| Fanout.CompletesIffDistinct | plugins/lxmf/relayfabric_lxmf.py:333-350 | once every member has called back, the tracker has reported iff no two members share a prefix |
| FanoutProtocol.CallbackKeepsFan | plugins/lxmf/relayfabric_lxmf.py:684-690 | a callback is logged and keeps the fan-out truthful (its result, once obtained, is the true one for the callbacks before the report); after the report it changes no result |
| FanoutProtocol.TimeoutKeepsFan | plugins/lxmf/relayfabric_lxmf.py:692-699 | the same for the watchdog, which reports on whatever came before it |
| FanoutProtocol.TrueResultMeans | plugins/lxmf/relayfabric_lxmf.py:366-382 | the true result has the id, says delivered iff some callback succeeded, has no detail iff everyone was heard and confirmed, and otherwise names exactly who failed, who was not heard from and who took delivery unconfirmed |
| FanoutProtocol.FullyHeard | plugins/lxmf/relayfabric_lxmf.py:346-350 | a tracker that counts as many prefixes as members has heard everyone, and reports the true result |
| FanoutProtocol.StepKeepsInv | plugins/lxmf/relayfabric_lxmf.py:607-699 | every step keeps: the claimed ids are exactly those of unreleased fan-outs, prepared or not, at most one each, and a fan-out has sent its one result or none |
| FanoutProtocol.RunKeepsInv | plugins/lxmf/relayfabric_lxmf.py:607-699 | that holds in every state of every interleaving of dispatches, preparations, callbacks, watchdogs, releases and sends |
| FanoutProtocol.ExactlyOneResult | plugins/lxmf/relayfabric_lxmf.py:645-699 | with nothing half done, a fan-out whose watchdog fired or whose members (distinct prefixes) all called back has sent exactly one result, the true one for the callbacks before the report |
| FanoutProtocol.FrameTells | plugins/lxmf/relayfabric_lxmf.py:628-699 | in every run any frame on the wire says delivered iff a fan-out sent it that had a success among the callbacks before its report |
| FanoutProtocol.RefusedOnce | plugins/lxmf/relayfabric_lxmf.py:628-631 | in every run each dispatch of an id to no members is answered by exactly one refusal of that id, and there are no other refusals |
| FanoutProtocol.DispatchDoes | plugins/lxmf/relayfabric_lxmf.py:628-645 | to no members: one frame, not delivered and with a detail, and no claim or fan-out changes; of an id in flight: nothing; otherwise a new fan-out of those members claims the id |
| FanoutProtocol.FanOutCompletes | plugins/lxmf/relayfabric_lxmf.py:645-690 | members with distinct prefixes who all call back, with whatever outcomes, end a dispatch with the claim given up and one true frame |
| FanoutProtocol.ReportIsFinal | plugins/lxmf/relayfabric_lxmf.py:336-338 | a fan-out that has reported never runs again |
| FanoutProtocol.LateEventsAreHarmless | plugins/lxmf/relayfabric_lxmf.py:684-699 | a late callback or watchdog changes neither claims nor frames, and a release gives up its own claim, never one held by a newer dispatch |
| FanoutProtocol.LeakIsForever | plugins/lxmf/relayfabric_lxmf.py:629-645 | a claim whose preparation raised an exception is never given up: nothing is sent for it, and later dispatches of the id are ignored |
| FanoutProtocol.FanOutLeaks | plugins/lxmf/relayfabric_lxmf.py:629-645 | a run in which the preparation fails and the id stays claimed |
| FanoutProtocol.ClaimedIff | plugins/lxmf/relayfabric_lxmf.py:607-618 | with nothing half done, an id is claimed iff a fan-out of it waits for its members or its preparation failed |
| DirectSend.StealsIffLate | plugins/lxmf/relayfabric_lxmf.py:705-732 | the first time a callback takes away the claim of another send is the first time one is repeated while a newer send of the id waits |
| DirectSend.OnceEach | plugins/lxmf/relayfabric_lxmf.py:716-732 | if no send is called back twice, a send holds its claim exactly until its callback |
| DirectSend.OneResultIff | plugins/lxmf/relayfabric_lxmf.py:722-732 | with nothing half done, a send has sent exactly one result iff it was called back exactly once |
| DirectSend.OneRound | plugins/lxmf/relayfabric_lxmf.py:716-732 | a send left to itself claims its id until the callback, and then has sent one result |
| DirectSend.LateCallback | plugins/lxmf/relayfabric_lxmf.py:722-732 | a run in which a late second callback lets a third send of the id out while the second is on its way |
| PluginRegistry.InstallAgrees | switchyardd/src/plugins.rs:321-348 | an install keeps, for every name: connected iff the last-installed connection has not torn down, and installs = down decisions + live displacements + (1 if connected) |
| PluginRegistry.TeardownAgrees | switchyardd/src/plugins.rs:459-482 | a teardown, current or stale, keeps the same |
| PluginRegistry.Registry.constructor | switchyardd/src/plugins.rs:14-14 | no handles, ids from 1 |
| PluginRegistry.Registry.TakeId | switchyardd/src/plugins.rs:322-322 | a fresh id, in a step of its own, so ids may be installed out of order |
| PluginRegistry.Registry.Install | switchyardd/src/plugins.rs:324-348 | installs the handle; reports a displacement iff the last-installed connection was still up |
| PluginRegistry.Registry.Teardown | switchyardd/src/plugins.rs:464-482 | clears `connected`, and decides down, iff this connection is the last installed |
| PluginSupervisor.Supervise | switchyardd/src/plugins.rs:486-517 | the start after n completed cycles is at least 32n - 60 seconds after the first, for every mix of short and healthy runs, each turn being run + back-off by strikes since the last healthy run + parking |
| PluginSupervisor.BoundIsTight | switchyardd/src/plugins.rs:487-510 | no better rate holds: a schedule of 3m + 3 cycles takes 32(3m + 3) - 60 seconds plus m nanoseconds |
| PluginSupervisor.TurnMeans | switchyardd/src/plugins.rs:486-517 | a turn takes the run, 1, 5, 30 or 120 seconds by the number of exits since the last run of more than a minute, and 5 seconds for each time found disabled |
| PluginSupervisor.CrashLoop | switchyardd/src/plugins.rs:487-510 | n immediate exits take 36 + 120(n - 3) seconds from the third on |
| PluginLiveness.MonitorChild | switchyardd/src/plugins.rs:62-90 | a kill happens at the first poll that finds the running child wedged, and none otherwise |
| PluginLiveness.WedgedIff | switchyardd/src/plugins.rs:42-90 | in terms of the events, for every course of connects, frames and drops and every start: a poll finds the child wedged iff it is connected and nothing was seen of it for 90 s, or it is not, was spawned more than 60 s ago, and nothing was seen of it for 60 s |
| PluginLiveness.KilledIffGap | switchyardd/src/plugins.rs:62-90 | it is killed by a given time iff some poll by then finds such a gap |
| PluginLiveness.DownHasGrace | switchyardd/src/plugins.rs:42-54 | a child whose connection is down has 60 s from its last sign of life to come back |
| PluginLiveness.ReturningChildIsSpared | switchyardd/src/plugins.rs:42-90 | a child that connects within 60 s of its spawn, and after every drop again within 60 s of its last sign of life, is found wedged by no poll |
| PluginLiveness.SilentChildIsKilled | switchyardd/src/plugins.rs:49-90 | a child that never again sends a frame or connects is killed within 105 s of the last time it did, torn down meanwhile or not |
| PluginLiveness.UnattachedChildIsKilled | switchyardd/src/plugins.rs:49-90 | a child that never connects, with no connection left up from before, is killed 75 s after its spawn |
| PluginLiveness.UnattachedIff | switchyardd/src/plugins.rs:49-90 | with a left-over connection that sends nothing more, that holds iff it was down or silent for more than 15 s at the spawn |
| PluginLiveness.HealthyChildIsSpared | switchyardd/src/plugins.rs:42-90 | with a read deadline kept to the moment, a child that connects within 60 s and stays connected with no gap above 90 s is found wedged by no poll, whatever an earlier process left behind |
| PluginLiveness.SparedIffOnTime | switchyardd/src/plugins.rs:396-409 | that holds for all such children and all starts iff connections are never torn down later than 90 s after their last frame |
| PluginLiveness.LateDeadlineKills | switchyardd/src/plugins.rs:396-414 | for every lateness, a start and a child that is killed at its first poll |
| PluginLiveness.FreshStartIsSpared | switchyardd/src/plugins.rs:42-90 | with no connection up at the spawn it holds however late the deadline is |
| PluginLiveness.HealthyChildIsSparedIff | switchyardd/src/plugins.rs:42-90 | whatever an earlier process left behind and however late the deadline, such a child is killed iff some poll before it connects finds the left-over connection up and silent for more than 90 s |
| PluginLiveness.QuietStartIff | switchyardd/src/plugins.rs:62-90 | if what is left behind sends nothing more: killed iff it is up at the spawn and a poll more than 90 s after its last frame comes before it is torn down or displaced |
| ConfigHistory.NamesDiffer | switchyardd/src/admin.rs:693-717 | live, scratch and the five slots have pairwise different file names |
| ConfigHistory.ConfigFiles.WriteReplacing | switchyardd/src/admin.rs:742-786 | the final directory and every state on the way of an apply |
| ConfigHistory.ApplyIsSafe | switchyardd/src/admin.rs:742-786 | wherever an apply stops, each of slots 1 to 4 is in its slot or the next, the old live text is live or in slot 1, and no loaded file holds anything but old texts and the new one |
| ConfigHistory.RotateStep | switchyardd/src/admin.rs:763-770 | a rotation rename never lands on a kept revision |
| ConfigHistory.ApplyRotates | switchyardd/src/admin.rs:742-786 | a finished apply has moved everything one place down and dropped slot 5 |
| ConfigHistory.SwapIsSafe | switchyardd/src/admin.rs:804-816 | wherever a rollback stops both texts are in some file and older slots are untouched; finished, the two have changed places |
| ConfigHistory.ConfigFiles.Rollback | switchyardd/src/admin.rs:1098-1131 | outcome, final directory and every state on the way, missing, invalid and unreadable cases included |
| ConfigHistory.ApplyRefines | switchyardd/src/admin.rs:757-781 | on (live, history) an apply gives (text, first five of live + history), slots contiguous from 1 |
| ConfigHistory.RollbackRefines | switchyardd/src/admin.rs:804-816 | on (live, history) a rollback swaps live with the newest revision and is its own inverse |
| ConfigHistory.RunRefines | switchyardd/src/admin.rs:742-816 | every run of completed applies and rollbacks keeps the directory a live text with a gapless history of at most five, and acts on it as on that list |
| ConfigHistory.ContiguousIff | switchyardd/src/admin.rs:776-781 | an apply keeps the slots contiguous iff there was a live file or no revision |
| ConfigHistory.StoppedRollbackThenApply | switchyardd/src/admin.rs:788-816 | after a rollback stopped anywhere and an apply, the previous revision is still there; the old live text is iff the stop was before the first or after the third rename, or one of the four newest revisions or the new text equals it |
| ConfigAdmission.AcceptedCommands | switchyardd/src/admin.rs:928-948 | no command change is rejected iff every (plugin, command) pair is already running |
| ConfigAdmission.RejectedMeans | switchyardd/src/admin.rs:928-948 | a plugin is named iff it has a command that is not running for it |
| ConfigAdmission.AcceptedRefs | switchyardd/src/admin.rs:1051-1059 | no secret reference is rejected iff every (plugin, reference) pair is already running |
| ConfigAdmission.StepKeepsOrigin | switchyardd/src/admin.rs:966-1038 | every step of every request keeps running, live, retained and checked configurations inside the original pairs |
| ConfigAdmission.NothingIsIntroduced | switchyardd/src/admin.rs:966-1131 | over all interleavings, with checks against an older running config, file steps stopped part-way and restarts, every command, reference and data directory running, live or retained was in the initial live file or history |
| ConfigAdmission.RunningIsLive | switchyardd/src/admin.rs:1026-1131 | in every run, what runs is what the live file says in every state with nothing stopped part-way since the last completed apply, rollback or restart |
| ConfigAdmission.ApplyRuns | switchyardd/src/admin.rs:1026-1038 | a completed apply makes the submitted text live and runs it |
| ConfigAdmission.RollbackRuns | switchyardd/src/admin.rs:1107-1131 | a completed rollback makes what slot 1 held live and runs it, with the old live text in slot 1 |
| ConfigAdmission.StoppedApplyRuns | switchyardd/src/admin.rs:1027-1032 | a stopped apply leaves what runs alone; stopped at its last step, that is the live text iff it parses to what was running |
| ConfigAdmission.StoppedRollbackRuns | switchyardd/src/admin.rs:1120-1125 | a stopped rollback leaves what runs alone and the two texts where that many renames put them |
| ConfigAdmission.AcceptableApplies | switchyardd/src/admin.rs:966-1038 | a request with no new command, reference or data directory, left to itself, passes its checks and ends up live and running |
| Auth.AcceptedIffLadder | relayfabric-ui/src/auth.rs:374-381 | a signature count passes iff the accepted counts stay zeros followed by a strictly increasing sequence above the attested one |
| Auth.AllPassIsLadder | relayfabric-ui/src/auth.rs:374-396 | counts that each passed in turn are exactly such sequences |
| Auth.Evict | relayfabric-ui/src/auth.rs:268-281 | the eviction loop drops exactly as many entries as needed, those that expire first |
| Auth.RemovalKeepsAdmin | relayfabric-ui/src/auth.rs:237-246 | removing anyone but the last administrator leaves an administrator and unique ids |
| Auth.CtEq | relayfabric-ui/src/main.rs:618-627 | the accumulating comparison is equality |
| AuthStore.InvariantMeans | relayfabric-ui/src/auth.rs:231-423 | what the invariants of the store mean: an administrator if anyone; every credential's counts a ladder; and, where sessions are linked, each names a stored credential with its role |
| AuthStore.PasskeyStore.constructor | relayfabric-ui/src/auth.rs:199-208 | an empty store |
| AuthStore.PasskeyStore.NewChallenge | relayfabric-ui/src/auth.rs:261-284 | issues a fresh challenge, good for five minutes, within the cap of 4096; expired ones are gone, unexpired ones are dropped only at the cap, only one, and the one that expires first |
| AuthStore.Admit | relayfabric-ui/src/auth.rs:400-421 | retain, evict and insert: expired entries go, unexpired ones only as needed and in order of expiry |
| AuthStore.PasskeyStore.TakeChallenge | relayfabric-ui/src/auth.rs:286-290 | a challenge is redeemed iff it is outstanding, for that purpose and unexpired; at most once; and is spent by any attempt |
| AuthStore.PasskeyStore.Register | relayfabric-ui/src/auth.rs:294-343 | the error is that of the first need not met (challenge, clientData, attestation, empty store if required, new id, disk), and the credential is added iff all but the last are |
| AuthStore.PasskeyStore.CheckAssertion | relayfabric-ui/src/auth.rs:355-381 | the error is that of the first of the five needs of a login not met; otherwise the credential and its new count; the challenge is spent either way |
| AuthStore.PasskeyStore.StoreCount | relayfabric-ui/src/auth.rs:382-396 | the accepted count becomes the stored one |
| AuthStore.PasskeyStore.OpenSession | relayfabric-ui/src/auth.rs:399-421 | the second section of `login`: opens the session within the cap of 4096, dropping unexpired ones only as needed; sessions stay linked iff its credential is still stored with that role |
| AuthStore.PasskeyStore.Login | relayfabric-ui/src/auth.rs:347-423 | an undisturbed login succeeds iff the challenge is outstanding, the clientData matches it, the credential is stored, its signature verifies, and the accepted counts stay a ladder; the error is that of the first of these not met; on success the count is stored and a session with the role opened |
| AuthStore.LoginFaultMeans | relayfabric-ui/src/auth.rs:355-381 | which check decides, in terms of what is stored and accepted so far |
| AuthStore.RegisterFaultMeans | relayfabric-ui/src/auth.rs:303-337 | the same for a registration |
| AuthStore.PasskeyStore.RemoveCredential | relayfabric-ui/src/auth.rs:231-258 | refused iff the id is not stored or no one else is an administrator; otherwise exactly that credential and its sessions are gone, on disk or not |
| AuthStore.PasskeyStore.SessionInfo | relayfabric-ui/src/auth.rs:437-447 | a live session's credential and role; an expired one is dropped |
| AuthStore.PasskeyStore.PostRegister | relayfabric-ui/src/main.rs:386-425 | the error is that of the first need not met (permission, readable body, those of a registration); permitted are administrators and, on an empty store, the bearer of the setup token; the new credential is the attested one with the role asked for, viewer by default, the first an administrator's |
| AuthStore.PasskeyStore.DeleteCredential | relayfabric-ui/src/main.rs:447-460 | refused first to anyone but an administrator, then as a removal is; the sessions go with the credential, and the store never becomes empty again |
| AuthBootstrap.StepKeepsInv | relayfabric-ui/src/main.rs:386-425 | with the gate and the push as separate steps, every step keeps an administrator in a non-empty store and never empties it |
| AuthBootstrap.OneTokenOneAdministrator | relayfabric-ui/src/auth.rs:315-335 | in every interleaving of gates, pushes and removals, the setup token adds exactly one credential, an administrator's, by the time there is any |
| AuthBootstrap.ManyPassTheGate | relayfabric-ui/src/main.rs:387-394 | the check at the gate alone would not do: any number of requests can be past it while the store is empty |
| AuthBootstrap.GateGrants | relayfabric-ui/src/main.rs:387-420 | an attempt is by the token iff the store is empty and the token given, and is then an administrator's; any other has the role asked for, viewer by default |
| AuthBootstrap.PushAdds | relayfabric-ui/src/auth.rs:322-335 | a push adds its one credential unless its id is stored or the token came too late |
| AuthSessions.StepKeepsInv | relayfabric-ui/src/auth.rs:231-423 | with the two sections of `login` as separate steps: stored roles are those of the last registrations, and no stored session has lost its credential since it was opened |
| AuthSessions.LinkedIff | relayfabric-ui/src/auth.rs:347-423 | in every interleaving, a session names a stored credential with its role iff no removal of that id fell between the two sections of its login, or the id was registered again with that role |
| AuthSessions.ThereIff | relayfabric-ui/src/auth.rs:246-250 | a session is there, as it was opened, iff it has not been dropped and its own credential not removed since |
| AuthSessions.RemovalInTheGap | relayfabric-ui/src/auth.rs:397-421 | a run with a removal in the gap leaves a session, of any role, whose credential is stored no more |
| Transform.Utf8RoundTrip | switchyardd/src/transform.rs:58-77 | characters are encoded in the form section 3 of RFC 3629 prescribes for their value, and can be read back |
| Transform.LastBoundary | switchyardd/src/transform.rs:64-76 | the last character boundary within a budget is the end of the longest prefix that fits |
| Transform.CutBack | switchyardd/src/transform.rs:63-76 | the boundary loop stops at the longest fitting prefix |
| Transform.Render | switchyardd/src/transform.rs:50-78 | the bytes are the UTF-8 text of the assembled message, cut to the longest fitting prefix with a marker when there is room for one |
| Transform.CapMeans | switchyardd/src/transform.rs:58-77 | within the cap nothing changes; otherwise a prefix that fits is kept, as long as any that does, with the marker unless there is no room for it |
| Transform.AssembledBytes | switchyardd/src/transform.rs:51-54 | the bytes assembled: the tag in square brackets and a newline in front of the body, or the body alone; and the bytes of the marker |
| Transform.CapFits | switchyardd/src/transform.rs:58-77 | the output never exceeds the cap, whatever the cap |
| Transform.CapCap | switchyardd/src/transform.rs:58-77 | capping twice is capping once at the smaller cap, under the condition below |
| Transform.CapLoses | switchyardd/src/transform.rs:62-77 | what capping twice keeps, for every text, when the condition fails |
| Transform.CapCapIff | switchyardd/src/transform.rs:58-77 | the law holds for all texts iff the first cap is below 3, the second at least 3, or they differ by 3 or more |
| Transform.TruncateBody | switchyardd/src/transform.rs:21-30 | a body within the cap is kept as it is; a longer one becomes a prefix of it and the marker, of exactly the cap, or the bare marker when the cap is 0 |
| Transform.TruncateTruncate | switchyardd/src/transform.rs:21-30 | the character stage composes to the smaller cap, for all caps |
| Transform.OneMarker | switchyardd/src/transform.rs:32-78 | without notes, when the byte stage cuts a body the character stage had cut, the first marker is removed entirely |
| Transform.FirstMarkerIff | switchyardd/src/engine.rs:2389-2393 | with notes appended in between, the first marker survives the second cut iff tag, kept body and marker fit into what it keeps; otherwise only text in front of it is left |
| Transform.TwoMarkers | switchyardd/src/engine.rs:2389-2393 | a body, notes and a cap with which both markers survive |
| PolicyEvaluation.Evaluate | switchyardd/src/policy.rs:22-50 | the loop with its early return computes the decision |
| PolicyEvaluation.DecisionMeans | switchyardd/src/policy.rs:22-50 | denied iff some matching policy denies; else each cap is the least one set and attachments pass iff none rejects them |
| PolicyEvaluation.DecisionInFields | switchyardd/src/policy.rs:26-44 | the same in the fields of the policies: no protocols means every destination; a deny or a dropped kind denies; caps are the least ones set; "reject" stops attachments |
| PolicyEvaluation.DenyNamesFirst | switchyardd/src/policy.rs:32-34 | a deny names the first policy in the list that matches and denies |
| PolicyEvaluation.MoreIsNoLooser | switchyardd/src/policy.rs:35-43 | adding policies anywhere never loosens the decision |
| PolicyEvaluation.OrderDoesNotMatter | switchyardd/src/policy.rs:22-50 | allow or deny and both caps do not depend on the order or repetition of policies |
| PolicyEvaluation.AdminViewAgrees | switchyardd/src/admin.rs:519-547 | for each destination of a route, the policies listed for the route decide exactly as all policies do |
| PolicyEvaluation.ListedIff | switchyardd/src/admin.rs:536-547 | a policy is listed for a route iff it has no protocols or one of a destination of the route |
| PolicyEvaluation.ListedInOrder | switchyardd/src/admin.rs:525-547 | policies are listed in the order they are declared in |

## Left out

- 64-bit wrap-around of the byte counter, the byte sums, the counters of connections and strikes: integers are unbounded; `CasStore.OvershootIsBounded` bounds the byte counter by the budget, and 32-bit narrowing is modelled where the code narrows.
- A `remove` that cannot read the size of a file it then unlinks: it leaves the counter too high, which keeps every bound.
- `BudgetLimiter`: one window, one key at a time; an easier copy of the sender limiter.
- AuthStore.PasskeyStore.Login: the two lock sections run undisturbed; AuthSessions has what others may do in between, without signature counts.
- Ingress.Gate.HandleInbound: the three lock sections run undisturbed; the machine has the interleavings.
- The lock that keeps two reloads apart: the machine lets their sections interleave as well.
- Propagation resubmits and the `/join` and `/leave` membership commands of the LXMF plugin: one-branch code with only easy claims.
- A delivery id used for a channel send and a direct send at once: the two are modelled apart.
- The order in which plugin up and down events reach subscribers: they are emitted outside the lock.
- A failure to delete the oldest revision, which an apply ignores: the delete is modelled as done.
- Cancelling the watchdog after a normal report: the model lets it fire, without effect.
- Sends to an unknown channel, which are refused like those to a channel without members.
- Persistence of credentials across a restart of the UI.
- What the result of a direct send says: it passes on what the callback said.
- The list of rejected plugin names is modelled as a set, not as the sorted list in the error message.
- HTTP, event streams, proxying, metrics, alerts, queue storage, federation and the other transport plugins.
- File permissions, process groups, signals and environment scrubbing.
