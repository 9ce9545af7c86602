# A verified model of the tanzhen hub and agent

tanzhen is a VPS monitor. Agents report heartbeats to a hub; the hub keeps live state and a short history in
memory, a downsampled log in SQLite, bills traffic against quotas, raises webhook alerts, and guards its
admin login. This project models that state as Dafny classes and pure step functions, and proves what holds
over whole runs: any order of heartbeats, restarts, prunes, edits, checks and logins.

`dafny verify dfyconfig.toml` checks everything.

## How it is laid out

| file | part of the program |
|---|---|
| `Basics.dfy` | instants (integers, nanoseconds), `Unix`, tables ordered by key, a pigeonhole lemma |
| `Samples.dfy` | heartbeat and history point |
| `History.dfy` | the in-memory ring: a slice shifted in place, its copies, and rehydration |
| `SampleLog.dfy` | persistence of samples: what is due, spacing under interleavings, storage bound |
| `Pruning.dfy` | retention: the pruning store against one that keeps everything |
| `Traffic.dfy`, `TrafficRuns.dfy` | quota accounting: one step, and whole runs against the bytes really moved |
| `Alerts.dfy`, `Detection.dfy`, `TrafficAlerts.dfy` | the webhook debouncer, its timing, and quota alerts per period |
| `Store.dfy`, `Server.dfy` | the hub's store and the handlers, tied step by step to the machines above |
| `Limiter.dfy`, `Sessions.dfy` | login limiter and session table |
| `Network.dfy`, `Disks.dfy`, `Probes.dfy`, `Sorting.dfy` | the agent's arithmetic and selections |
| `Quota.dfy`, `Quoting.dfy`, `Provinces.dfy`, `Text.dfy` | printers, parsers and quoting |

Objects the source updates are classes whose methods state their whole new state through a step function;
the properties are lemmas about runs of those steps. Clock readings are parameters, one for each time the
source reads the clock inside a call, except where a second reading cannot matter. SQLite tables are maps;
each statement is one atomic, successful step. Random ids are parameters assumed fresh, JSON is the identity,
`float64` is `real`, counters and quotas are unbounded naturals (the source assumes they stay below 2^63),
and a day is 86400 seconds.

## What turned out not to hold as promised

* Pruning is meant to drop only what no reader can ask for. Where the clock does not go back that is so exactly when
  retention is at least one second and samples are persisted at least every `floor(retention) + 1` seconds
  (`Pruning.PruningInvisibleIff`).
* On any clock and under any settings, a query that read the clock before a prune that has already run can miss rows
  exactly when its window is not empty and starts before that prune's cutoff (`Pruning.LateQueryIff`, with
  `Pruning.LateQueryShows` as its input), and a heartbeat after a restart can be stored that a keeping store skips,
  and show, exactly when its second lies at or past the cutoff of a prune before the restart, but too close to it
  (`Pruning.LateHeartbeatIff`).
* The accounting treats a falling counter as a host that restarted from zero. The agent reports a sum over
  interfaces, which also falls when one interface disappears or resets alone. The bill is right for every history
  of the interfaces exactly when the total has not fallen or every interface of the baseline has itself started
  over (`Network.BillingInterfaceTotals`); an interface that just vanishes is the input
  (`Network.VanishedInterfaceOvercharges`).
* The bill is bounded by what moved while heartbeats are taken in the order they were read. When an older one
  overtakes a newer one in the hub, the host's lifetime counts can be billed
  (`TrafficRuns.NeverOverCharged`, `TrafficRuns.HonestIff`, `TrafficRuns.OvertakingOvercharges`).
* `RetryAfter`'s comment promises 0 when a client is not locked out. The code answers the rest of the window for
  any client with a recent failure; the model follows the code (`Limiter.RetryAfterIgnoresTheCount`).
* `advanceReset` gives up after 100000 periods; the boundary then stays on its lattice only if the clock happens
  to be on it (`Traffic.BoundaryDriftsIff`). Two first heartbeats that both find no baseline set the lattice twice
  (`TrafficRuns.RacingFirstRollsDriftIff`); `TrafficRuns.LatticeIff` says of every roll when it keeps the lattice.
* Two rolls of one rollover that race can lower the bill within a period, so that its alert is raised twice
  (`TrafficAlerts.RacingRollsAlertTwice`), also after the period has ended
  (`TrafficAlerts.SetBackBoundaryAlertsAgain`). `TrafficAlerts.AlertAfterWriteIff` says of every write, in every
  state, when fresh rolls can raise an alert of a given period after it.
* A node deleted while its status list is being made is shown offline and raises node.offline, if the list before
  showed it online (`Detection.AlarmIff`, `Detection.DeletedNodeAlarms`).
* Deleting a node clears its rows first and its live state later. If by then a row has come back or an insert is
  still in flight, another heartbeat can overwrite a row or land too close to one; otherwise nothing that follows
  ever does. The token stops resolving with the transaction, so such heartbeats are ones that were let in before it
  (`SampleLog.ForgettingIsSafeIff`, `SampleLog.ForgottenInsertIsReplaced`,
  `SampleLog.ForgottenDistanceIsLost`).
* `psQuote` survives PowerShell exactly when the text holds no typographic quote (`Quoting.PsQuoteRoundTripIff`).
* `fmtQuota` rounds; a byte count is read back unchanged exactly when a numeral of the printed precision can
  denote it (`Quota.RoundTripIff`).
* The login limiter counts in fixed windows. Its default of five failures per five minutes admits up to nine in
  some five-minute interval, and never ten (`Limiter.SlidingWindowBound`, `Limiter.SlidingWindowBoundIsTight`).

## Model

| member | source | states |
|---|---|---|
| History.RingHoldsTheLast | internal/hub/store.go:329-341 | However pushes are spread, the ring holds the last `cap` points ever pushed, also when it starts over capacity |
| History.Ring.Push | internal/hub/store.go:329-341 | The in-place re-slice and left shift on the shared backing array has exactly the effect of one push |
| History.Ring.Append | internal/hub/store.go:340 | Appending writes in place or moves to a larger array, and adds one point either way |
| History.Ring.Snapshot | internal/hub/store.go:587-589 | A fresh array holding the points |
| History.Ring.SnapshotThenPush | internal/hub/store.go:587-589 | A snapshot handed to a reader is unchanged by any number of later in-place shifts |
| History.HistoryTable.Push | internal/hub/store.go:329-341 | Pushing in place for one node leaves every other node's slice alone: no two share a backing array |
| History.HistoryTable.Append | internal/hub/store.go:384 | Appending for one node leaves every other node's slice alone |
| History.HistoryTable.Remove | internal/hub/store.go:216 | Removing one node's slice leaves every other alone |
| History.HydrationIsReplay | internal/hub/store.go:357-388 | Reading back the rows SQL ranks newest-first leaves the ring that pushing every stored row in time order would |
| Basics.TopRankedIsLastK | internal/hub/store.go:358-366 | ROW_NUMBER() OVER (ORDER BY t DESC) <= k, re-ordered by t, is the last k rows |
| SampleLog.SpacingHolds | internal/hub/store.go:279-293 | Under every interleaving of locked sections, inserts, prunes, restarts and unraced deletes and any clock, rows and pending inserts are pairwise persistEvery apart and never past lastPersist |
| SampleLog.InsertNeverOverwrites | internal/hub/store.go:343-349 | INSERT OR REPLACE never replaces a row: each insert adds one, keeps all others, and keeps its distance |
| SampleLog.ForgettingIsSafeIff | internal/hub/store.go:193-220 | Clearing a deleted node's live state keeps samples apart and every insert adding a row, in every continuation by heartbeats let in before the deletion, exactly when no row of it is stored and none is in flight |
| SampleLog.ForgottenInsertIsReplaced | internal/hub/store.go:213-218 | The failing run: forgotten under a pending insert, a second heartbeat of that second replaces its row |
| SampleLog.ForgottenDistanceIsLost | internal/hub/store.go:318-327 | The failing run for distance: with samples meant more than a second apart, the next one lands a second later |
| SampleLog.PruneLeavesFewRows | internal/hub/store.go:290-293 | In any interleaving, clock readings taking effect in any order, a prune that read `at` leaves at most (latest reading - its cutoff) / persistEvery + 1 rows, in whole seconds |
| SampleLog.StorageStaysBounded | internal/hub/store.go:290-293 | With any positive settings and a clock that does not go back, a node's rows stay within ceil(retention) / ceil(persistEvery) + 1 |
| SampleLog.StorageBound | internal/hub/store.go:352-355 | For whole seconds R and P: never more than R / P + 1 rows after any sequence of heartbeats, sweeps and restarts |
| Pruning.AnswerIsExact | internal/hub/server.go:746-774 | With and without from and to: the answer holds, in time order, exactly the stored samples no older than retention (two hours if that is under a second), not before from if given, and not after to or else now |
| Pruning.PruningIsInvisible | internal/hub/server.go:746-774 | Under any settings and on any clock, a query whose window is empty or starts at or past the cutoff of the prunes that have run is answered as by a store that never prunes, in all runs where every heartbeat after a restart lies before, or far enough past, the cutoff of the prunes before that restart |
| Pruning.PruningInvisibleIff | internal/hub/store.go:352-388 | Every query that reads the clock no earlier than the prunes before it is so answered, in all runs where no heartbeat reads it earlier than a prune before the last restart, if and only if retention >= 1 s and persistEvery <= floor(retention) + 1 s |
| Pruning.LateQueryIff | internal/hub/server.go:746-774 | Over all such runs whose latest prune read p, a query of any reading misses nothing if and only if its clamped window is empty or starts at or past p's cutoff |
| Pruning.LateHeartbeatIff | internal/hub/store.go:352-388 | Over all such runs whose last restart came after a prune that read p, one more heartbeat changes no answer if and only if its second lies before p's cutoff, or at least persistEvery after the last second before it |
| Pruning.LateQueryShows | internal/hub/server.go:746-774 | The failing input, under any settings: everything is asked for at a time before the prune |
| Pruning.SubSecondRetentionShows | internal/hub/server.go:747-750 | Retention under a second makes the endpoint fall back to two hours and show the gap |
| Pruning.SparsePersistenceShows | internal/hub/store.go:318-327 | Persisting more rarely lets a restart forget the last write and store a sample the other store skips |
| Traffic.AdvanceReset | internal/hub/store.go:492-507 | The bounded walk returns the closed form: the first boundary after now, or now plus one period when it gives up |
| Traffic.FirstAfterIsFirst | internal/hub/store.go:490-507 | The closed form lies after now, at most one period ahead, on the lattice of the previous boundary |
| Traffic.BoundaryDriftsIff | internal/hub/store.go:499-506 | The walk's result is that boundary if and only if fewer than 100000 periods passed or now is on the lattice |
| Traffic.QuotaIsConserved | internal/hub/store.go:538-552 | Used and remaining add up to the quota until it is spent, the percentage is the used share of the quota, stays in 0..100 and is 100 exactly when nothing remains |
| Traffic.BillIsShown | internal/hub/store.go:518-554 | Every figure of the quota view in the numbers of the row and the heartbeat, in all its cases |
| TrafficRuns.NeverOverCharged | internal/hub/store.go:510-554 | Over all runs of traffic, reboots, racing rolls, edits and hub restarts, heartbeats entering in reading order, the bill is at most what moved since the baseline heartbeat, exactly that without reboots, and zero without a baseline |
| TrafficRuns.HonestUnlessOvertaken | internal/hub/store.go:275-298 | In any order of heartbeats at all, the same while the baseline's reading is not later than the one in memory |
| TrafficRuns.HonestIff | internal/hub/store.go:510-554 | After any run at all, no more is billed than moved since the baseline's reading if and only if that reading is not later than the one in memory, or each counter in memory equals the baseline's or is zero |
| TrafficRuns.OvertakingOvercharges | internal/hub/store.go:275-298 | Out of reading order it fails: each counter that moved in between is billed for its lifetime |
| TrafficRuns.AnchoringIsFree | internal/hub/store.go:428-445 | A roll that anchors on the heartbeat in memory shows zero used, whatever the host moved before, and the boundary lies ahead |
| TrafficRuns.PeriodEditAnchors | internal/hub/store.go:466-488 | After an edit to another positive period the boundary is that many days after the edit, the baseline the heartbeat in memory, and nothing is used; without a heartbeat the next one's roll starts the period |
| TrafficRuns.LatticeIff | internal/hub/store.go:428-445 | From a new node, through host events, racing rolls whose clock readings take effect in any order, restarts and quota edits at an unchanged period, no event takes the boundary off its lattice if and only if each roll that moves a boundary either started from one less than 100000 periods old or on its clock's lattice, or loaded none and writes at an instant of the stored lattice |
| TrafficRuns.BoundariesNeverDrift | internal/hub/store.go:490-507 | In such runs any two boundaries lie on one lattice and each within a period after the reading of the roll that set it; with readings in order, it is the next lattice point after the last roll's reading |
| TrafficRuns.RacingFirstRollsDriftIff | internal/hub/store.go:428-445 | The failing run: two first heartbeats both load no baseline; the second write keeps the lattice if and only if the readings are whole periods apart |
| Alerts.AlertState.VisitNode | internal/hub/webhook.go:62-103 | One pass of the first loop: the three maps and the events appended |
| Alerts.AlertState.ForgetOthers | internal/hub/webhook.go:104-110 | The second loop forgets exactly the nodes no longer listed, in all three maps |
| Alerts.AlertState.CheckAlerts | internal/hub/webhook.go:47-111 | The two loops compute the step function on the three maps and its list of events, with the configured threshold, and each event tells of a node as the list shows it |
| Alerts.CheckIsEdgeDetector | internal/hub/webhook.go:61-111 | A check sends exactly the falling online edges and rising over-quota edges since the last list, and then remembers exactly this list |
| Alerts.RunIsEdgeDetector | internal/hub/webhook.go:37-116 | For any sequence of lists, check k's events are the edges from list k - 1 to k, for every cooldown: the cooldown test never decides |
| Detection.DetectionBound | internal/hub/server.go:185-213 | In any run of heartbeats, deletions and checks, a node seen alive and then silent for more than offlineAfter plus one tick raises exactly one node.offline, at the first list made past offlineAfter and less than a tick late |
| Detection.AlarmIff | internal/hub/store.go:557-592 | In any run, deletions included, a check raises node.offline if and only if it names the node and has not heard of it in time, or at all, and the check before it named the node and had |
| Detection.DeletedNodeAlarms | internal/hub/store.go:557-565 | So a list read before a node is deleted and filled in after it raises the alarm for a node shown online before |
| Detection.NoFalseAlarm | internal/hub/store.go:590-592 | In any run, a node that no list finds silent for offlineAfter or names after its deletion never raises node.offline |
| TrafficAlerts.CheckProjectsToNode | internal/hub/webhook.go:86-102 | One node's traffic alert depends on that node's status alone, whatever else is in the list |
| TrafficAlerts.UsageGrows | internal/hub/store.go:538-552 | While the baseline stands and counters do not restart, each heartbeat in reading order only raises usage and keeps the node over its threshold |
| TrafficAlerts.AtMostOnePerPeriod | internal/hub/webhook.go:86-102 | In every interleaving of traffic, heartbeats, rolls' loads and writes and checks, one accounting period of one node raises at most one node.traffic if every roll that moves the boundary finds the state it loaded still stored |
| TrafficAlerts.AlertAfterWriteIff | internal/hub/store.go:428-445 | After a roll's write that moves the boundary, whatever it loaded and whatever the state, an alert of the period ending at r can go out in some continuation by fresh rolls if and only if the quota and threshold allow one and the write stores r with no alert remembered or usage below the threshold, or an earlier boundary from which rolls reach r |
| TrafficAlerts.SecondAlertIff | internal/hub/store.go:428-445 | While a period's alert stands: its write lets a second one out, in some continuation by fresh rolls, if and only if it keeps the boundary but takes the node below the threshold, or sets it back to where rolls reach it again |
| TrafficAlerts.RacingRollsAlertTwice | internal/hub/store.go:428-445 | The failing run, from a new node: two rolls of one rollover race and its period raises two alerts |
| TrafficAlerts.SetBackBoundaryAlertsAgain | internal/hub/store.go:428-445 | The same race when a fresh roll has already ended the period: the late write sets the boundary back and the period's alert is raised again |
| Store.Store.constructor | internal/hub/store.go:42-84 | Opening a database restarts every node's persistence and accounting machines and leaves each ring as a replay of its rows |
| Store.Store.Hydrate | internal/hub/store.go:372-387 | The scan leaves each node its rows of the answer and the time of its last one |
| Store.Store.ClaimPersist | internal/hub/store.go:284-287 | Says whether the sample is due and claims it: the claim of the persistence machine |
| Store.Store.SaveLocked | internal/hub/store.go:276-288 | The critical section is the claim step of the persistence machine and the arrival step of the accounting machine for this node, one in-place push of its history, and no step for the others |
| Store.Store.InsertSample | internal/hub/store.go:343-349 | The insert is the insert step of the claimed sample |
| Store.Store.PruneSamples | internal/hub/store.go:352-355 | The prune is the prune step of every node |
| Store.Store.RollTraffic | internal/hub/store.go:428-445 | The stored accounting state rolls over as the step function says, and nothing else changes |
| Store.Store.SaveHeartbeat | internal/hub/store.go:275-298 | Run alone, a heartbeat is one save of the persistence machine and one heartbeat of the accounting machine; its point carries its figures field by field, in the history and, if due, in its row |
| SampleLog.SaveStoresIfDue | internal/hub/store.go:284-293 | A heartbeat is stored exactly when none was persisted before or the last one at least persistEvery earlier, unless its own prune already finds it too old |
| Store.Store.DeleteStored | internal/hub/store.go:193-212 | The transaction removes the node and its rows, and touches no other node |
| Store.Store.ForgetLive | internal/hub/store.go:213-219 | Clearing live state forgets one node in all four maps |
| Store.Store.DeleteNode | internal/hub/store.go:193-220 | The two in sequence, or nothing for an unknown id |
| Store.Store.SetTrafficBaseline | internal/hub/store.go:466-488 | Starts a period now: the boundary is that many days ahead and the baseline the last heartbeat's totals, or none without one; nothing without a period or for an unknown id |
| Store.Store.UpdateNode | internal/hub/store.go:224-260 | A partial edit that starts a period at the edit exactly when the period changes to a positive one, and else leaves boundary and baseline alone; one edit step of the accounting machine |
| Store.Store.NodeHistory | internal/hub/server.go:734-784 | Not found for an unknown node, else exactly those samples of its rows |
| Store.Store.ListStatus | internal/hub/store.go:557-602 | One status per node in order: online exactly while the last heartbeat is younger than offlineAfter, the bill computed from the stored baseline and that heartbeat's totals, equal to the accounting machine's view, and a fresh copy of its history |
| Store.Store.StatusShowsNode | internal/hub/store.go:518-554 | Each figure of a status in numbers: used bytes per direction from the totals and the baseline, what remains of the quota, the percentage |
| Store.Store.StatusNeverOverCharges | internal/hub/store.go:538-552 | What a status says is used is at most what moved between the baseline heartbeat and the one in memory, exactly that without reboots, after every run with heartbeats in reading order |
| Store.Store.ListThenSave | internal/hub/store.go:587-589 | A status answer's history is not disturbed by the heartbeats that follow it |
| Server.Server.CheckAlerts | internal/hub/webhook.go:40-116 | Without a webhook nothing happens; else one round of the alert machine, at the configured percentage or 90, on a list naming each node once with its figures; each event carries the name, time, share and bytes of its node |
| Server.Server.HandleLogin | internal/hub/server.go:620-656 | The Allow / Fail / Reset protocol: a locked client is refused before its password counts, a wrong password counts once in the live window or opens one, a malformed body does not count, success clears the bucket |
| Limiter.LoginLimiter.Allow | internal/hub/ratelimit.go:38-50 | Lets a key in unless its live bucket is full, dropping an expired bucket, other keys untouched |
| Limiter.LoginLimiter.Fail | internal/hub/ratelimit.go:53-63 | Counts in the live bucket or opens a new one; reports the lock; other keys untouched |
| Limiter.LoginLimiter.Reset | internal/hub/ratelimit.go:66-70 | Forgets the key and nothing else |
| Limiter.LoginLimiter.RetryAfter | internal/hub/ratelimit.go:73-85 | The rest of a live bucket's window in whole seconds, else 0, with both readings of the clock |
| Limiter.RetryAfterIgnoresTheCount | internal/hub/ratelimit.go:72-85 | It is positive for every live bucket, full or not |
| Limiter.SlidingWindowBound | internal/hub/ratelimit.go:38-63 | Logins one at a time: no half-open interval of one window holds more than 2 * limit - 1 failures |
| Limiter.SlidingWindowBoundIsTight | internal/hub/ratelimit.go:38-63 | For every limit some run reaches that number |
| Limiter.OvershootIsBounded | internal/hub/server.go:620-647 | With at most m requests in flight, in any interleaving and on any clock, a bucket never counts past limit - 1 + m |
| Limiter.LockHolds | internal/hub/ratelimit.go:45-63 | Until its deadline a live bucket is neither extended nor reopened, its count only grows, and a full one lets nobody in, short of a success already in flight |
| Limiter.RetryAfterIsExact | internal/hub/ratelimit.go:73-85 | A locked client is let in n whole seconds after the answer's second reading of the clock if and only if n is at least RetryAfter |
| Sessions.SessionStore.Evict | internal/hub/session.go:86-95 | Eviction drops exactly the expired deadlines and counts them |
| Sessions.SessionStore.Create | internal/hub/session.go:28-47 | Creating evicts only when full and never exceeds the cap |
| Sessions.SessionStore.Check | internal/hub/session.go:50-66 | A live session is refreshed, an expired one dropped, an unknown or empty id refused |
| Sessions.SessionStore.Revoke | internal/hub/session.go:69-76 | Drops one session, and nothing for the empty id |
| Sessions.SessionStore.Sweep | internal/hub/session.go:98-102 | Drops exactly the expired sessions and counts them |
| Sessions.EvictionIsInvisible | internal/hub/session.go:28-102 | Every Create and Check answers as a table that never evicts and counts unexpired sessions against the cap, whenever eviction runs, and after every call the table is within its cap |
| Sessions.SessionsRefineReference | internal/hub/session.go:20-102 | The same from an empty table, for every run with fresh ids and a clock that does not go back |
| Network.Collector.FillNet | internal/agent/collector.go:237-284 | Totals, by-name counters and both rates of one reading; over a window longer than a quarter second the rate is the bytes gained per second rounded down, else zero |
| Network.Collector.SumGains | internal/agent/collector.go:263-277 | The loop over a map in arbitrary order sums what each interface known at both readings gained |
| Network.NeverOverReported | internal/agent/collector.go:258-283 | Over any run of movement, appearing, vanishing and resetting interfaces, reported rates times intervals never exceed the bytes moved |
| Network.DeltasAddUp | internal/agent/collector.go:258-283 | With fixed interfaces and no resets, reported deltas and those lost to windows of a quarter second or less add up to last total minus first |
| Network.DeltasTelescope | internal/agent/collector.go:258-283 | So when every window is longer the reported deltas telescope |
| Network.RatesAccountForAll | internal/agent/collector.go:258-283 | The reported rates times their windows, summed, stay within a byte per second of what moved, less what moved in windows too short |
| Network.GainsAreExact | internal/agent/collector.go:263-277 | An interface known at both readings gains the difference, nothing if its counter fell; a new or vanished one does not count |
| Network.InterfaceGainsWhatMoved | internal/agent/collector.go:263-277 | An interface that neither vanishes nor resets gains exactly what it moved, whatever the others do |
| Network.CountersByName | internal/agent/collector.go:245-252 | The counters of each direction are those of the listed interfaces but the loopback ones |
| Network.LoopbackIff | internal/agent/collector.go:288-294 | Left out are lo, lo0 and every name beginning with loopback in any case |
| Network.TotalIsSum | internal/agent/collector.go:243-254 | The cumulative total is the sum over the interfaces when each is listed once |
| Network.BillingInterfaceTotals | internal/hub/store.go:510-515 | Billing a total over interfaces is honest for every run from one reading to the next if and only if the total has not fallen or every interface of the baseline has started over |
| Network.VanishedInterfaceOvercharges | internal/hub/store.go:510-515 | A vanished interface makes the other one's lifetime count be billed although nothing moved |
| Disks.ArrangeDisks | internal/agent/collector.go:197-222 | Leaves the disk list of the partitions, and its head as primary |
| Disks.DedupeInPlace | internal/agent/collector.go:206-217 | The in-place filter keeps the first entry per device and every entry without one |
| Disks.DedupedIsSubsequence | internal/agent/collector.go:206-217 | The kept entries are a subsequence, each the first of its device |
| Disks.DiskListSpec | internal/agent/collector.go:195-222 | For every order the sort may leave: totals do not increase along the list and equal ones follow mount points; each device once, by the largest of its partitions; nothing unnamed lost; the primary's total is at least every partition's |
| Disks.StringLessIff | internal/agent/collector.go:201 | One string precedes another exactly when the first difference is a smaller character or its end |
| Probes.PickHost | internal/agent/probes.go:175-216 | Of two or more hosts the leftmost fastest that answered, else the first; the only host unprobed; none for no hosts |
| Probes.AnyStableSortPicksBest | internal/agent/probes.go:202-215 | The same choice from every stable sort of the results, whatever its algorithm |
| Probes.ComputeMedian | internal/agent/probes.go:159-170 | Sorts a private copy and leaves the samples unchanged |
| Probes.MedianSplits | internal/agent/probes.go:157-170 | At least half the samples are at most, and at least half at least, the median |
| Probes.MedianIsMiddle | internal/agent/probes.go:157-170 | For an odd count it is the sample in the middle, for an even count half the sum of the two in the middle |
| Probes.ProbeISP | internal/agent/probes.go:109-136 | Loss is the failed share of the dials in percent, within 0..100, the latency the median of the answers, and negative exactly when all dials failed |
| Probes.AnswersAreKept | internal/agent/probes.go:117-125 | Those are the answers of all dials that did not fail, each as often as it came |
| Sorting.InsertionSort | internal/agent/probes.go:202-210 | The in-place insertion sort computes the stable sort function, for any comparator |
| Sorting.AnyStableSortFront | internal/agent/probes.go:202-212 | The head of any stable sort is the leftmost least element |
| Sorting.SortIsStable | internal/agent/probes.go:202-210 | The insertion sort is one such sort |
| Quota.ReadBack | cmd/hub/static/assets/admin.js:52-72 | Reading a printed quota yields the printed numeral times its unit, rounded to bytes |
| Quota.StrippedValue | cmd/hub/static/assets/admin.js:69 | Stripping trailing zeros never changes the value a numeral denotes |
| Quota.SmallQuotasRoundTrip | cmd/hub/static/assets/admin.js:65-72 | No quota and every count below 1024 bytes are read back unchanged |
| Quota.PrintedForm | cmd/hub/static/assets/admin.js:65-72 | From 1024 bytes on: the largest unit not above the count, and the nearest numeral of two decimals under ten and one from there, without trailing zeros |
| Quota.UnitsAreRead | cmd/hub/static/assets/admin.js:41-63 | A numeral, white space and any accepted spelling of a unit in any case give the numeral times that unit's bytes, rounded; any other letters are refused |
| Quota.UnderstoodIsAmount | cmd/hub/static/assets/admin.js:49-63 | Blank text and the words for no quota mean 0; whatever else is understood is a numeral, white space and letters |
| Quota.ErrorBound | cmd/hub/static/assets/admin.js:65-72 | Otherwise the error is at most half the last printed digit times the unit, plus half a byte |
| Quota.HalfPercent | cmd/hub/static/assets/admin.js:65-72 | Whatever unit and precision are chosen, at most half a percent and half a byte is lost |
| Quota.RoundTripIff | cmd/hub/static/assets/admin.js:52-72 | A count is read back unchanged if and only if a numeral of the printed precision denotes it, which a remainder of the count decides; whole units always do |
| Quoting.ShQuoteRoundTrip | internal/hub/server.go:530 | A POSIX shell reads shQuote of every string back as that one word |
| Quoting.PsQuoteRoundTripIff | internal/hub/server.go:532 | PowerShell reads psQuote of a string back if and only if it holds no typographic quote |
| Provinces.SelectedProvinces | internal/agent/probe_config.go:35-55 | The loop computes the selection function |
| Provinces.SelectedIsExact | internal/agent/probe_config.go:35-65 | Selected are exactly the valid codes some comma-separated token trims and lower-cases to, in order of first appearance, and the seven defaults exactly when there is none |
| Provinces.SplitIsExact | internal/agent/probe_config.go:40 | The tokens hold no comma and joined by commas are the text |
| Provinces.SelectedIsWellFormed | internal/agent/probe_config.go:35-65 | The selection is never empty, has no duplicates, and holds only valid non-empty codes |
| Provinces.SelectedIsIdempotent | internal/agent/probe_config.go:35-65 | Joining the selection with commas and selecting again changes nothing |

## Left out

- Store.Store.SaveHeartbeat: the whole call run alone; its sections in any interleaving are the steps of SampleLog, Pruning and TrafficRuns
- Server.Server.CheckAlerts: the list is read and processed in one step; checks racing each other on stale lists are covered only as an arbitrary sequence of lists in Alerts
- SampleLog.StorageBound: whole calls, one after the other; a late insert of a concurrent heartbeat can exceed the bound until its own prune, see `SampleLog.PruneLeavesFewRows`
- Disks.ArrangeDisks: uses one particular sort; `Disks.DiskListSpec` covers every order an unstable sort may leave
- Probes.PickHost: the concurrent dials are their results, which arrive in one array before the sort
- Sorting.InsertionSort: Go merges insertion-sorted blocks for more than 20 elements; `Probes.AnyStableSortPicksBest` holds for that sort too
- Collecting partitions and counters, pseudo file systems, TCP dials, the eight-minute host cache: foreign input, or no further property
- HTTP routing, cookies, headers, password hashing and token comparison, JSON encoding, the webhook POST
- Calendar arithmetic in local time zones: a period is a whole number of 86400-second days
- Overflow of 64-bit counters and of durations beyond 292 years; SQL errors, which the source ignores
- Numbers of 10^21 units and more, which JavaScript prints in exponent form, and input large enough to overflow to infinity
- Double quotes, parameters and other expansions of the shell beyond rejecting them when unquoted
- Appearance settings, the dashboard, install and backup scripts
