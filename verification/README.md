# Verified models of the timing board's software

A GNSS timing board disciplines its clock from pulse edges and time-of-day sentences, serves NTP,
watches itself and is configured through a web panel. This project models the parts of it that carry
state and arithmetic, each in the form the program has it (fields and arrays updated in place become
classes and arrays; expressions become functions), and proves over every run, every interleaving or
every input what those parts are for.

`dafny verify dfyconfig.toml` checks everything.

| component | modules |
|---|---|
| PPS/TOD pairing daemon: shared-memory hand-over, labelling, strikes, quota, clock steps | `ShmProtocol`, `Pairing`, `PairingInputs`, `PairingHistory`, `PairingQuota`, `PairingDecisions`, `PairingLabels`, `PpsTod` |
| Per-interface NTP traffic monitor: rings, counters, client table | `TrafficLog`, `CounterReadings`, `NicMonitor`, `ClientTable` |
| Sync watchdog: restart budget, modes and serving guard | `Watchdog`, `WatchdogModes` |
| SHA-256 and the stored password record | `Sha256`, `Sha256Standard`, `PasswordRecord` |
| Users, sessions and audit rows | `Accounts`, `AccountHistory` |
| Log viewer, NTP monitor page, network settings | `JsonString`, `LogTail`, `LogLines`, `CsvRing`, `DottedText`, `Netmask` |
| C integer operators, rate limits, options | `CInt`, `Spans`, `Wrappers` |

How the pieces fit. Stateful components come twice: as a machine on values (`Step`, `Run`), about which
the theorems over whole runs are proved, and as a class whose methods are the program's own functions.
Each class keeps a ghost list of what it has handled, and its `Valid()` says that its fields are those of
the run (or show the log) of that list; every method extends the list. So a theorem about every run is a
theorem about every sequence of calls. History variables are ghost in the classes: the code never reads
them. What a machine does is in turn said from its inputs alone, without its own step functions: in
`PairingInputs`, `PairingDecisions`, `WatchdogModes` and `AccountHistory`, and for the shared leaves in
`Sha256Standard` and `LogLines`.

Nine statements hold only under a condition; each condition comes with an input that needs it.

- Hand-over through shared memory. The two barriers of `shm_write` leave the first increment of `count`
  unordered among the data stores, and the second unordered with the raising of `valid`. `SafeIff` is
  exact: every interleaving is safe iff the second increment is ordered before `valid` is raised and
  either the first is ordered before the data or the reader loads `valid` after all data. Stores that
  become visible in program order are safe for every reader; on a processor that reorders stores between
  the barriers the code is not, as `LateIncrementAdmitsTornCopy` and, for a reader that copies the struct
  in its own order, `EarlyStoreAdmitsTornCopy` show.
- Even then a copy is one whole sample only while `count`, 32 bits wide, does not go once round during the
  copy (`WrapAdmitsTornCopy`).
- The gate decision on the fresh path follows the distance between rounding and chain except for stamps
  before 1970 in the upper half of their second, where C's truncating division rounds wrongly
  (`FreshPathGate`, `RoundingFailsBefore1970`).
- The edges flushed by sentences are all labelled right exactly if every sentence finds its own edge queued
  or nothing queued in the last second (`ChainIsTrue`). With edges 1 s apart that fails only for a sentence
  at the very instant of its edge, when that edge found the queue full (`FlushIsWrongIff`,
  `OverflowMislabels`).
- The two stamp domains give the same samples on the fresh path (`DomainsAgree`), but not on a flush, which
  compares stamps with CLOCK_MONOTONIC whatever their domain: stamps of the system clock are never flushed
  (`SystemStampsAreNeverFlushed`).
- The window figures are exact and ordered while the window holds fewer than 2^32 events, since sums are 32
  bits wide (`WindowDoesNotWrap` is exact; `OverflowDisorders` is one request past it).
- Expiry of clients leaves no tombstones, so one slot per key holds in runs without expiry. With expiry,
  `UniqueAfterTouchIff` says exactly which requests keep it and `RunStaysUniqueIff` which runs do. Any two
  clients that start at the same slot have a run in which it fails (`SweepCanDuplicate`), two such clients
  under the code's own hash among them (`MonitorCanDuplicate`).
- Serving stays off outside mode OK if `GOOD_WINDOW` is at least 10; for every shorter window there is a run
  in which it does not (`ShortWindowCanServeUnvouched`).
- Deleting an admin is never blocked if only roots create users; a user created by an admin blocks it
  (`AdminCreatorBlocksDeletion`).

Where code and comment disagree the code is followed: `strike` is written by the serial thread too
(through `emit_sample`), and the gpio thread reads and resets it without the lock, so a reset can be lost
to a concurrent increment; the second written by a coarse step is read under a second lock, so it can be
newer than the snapshot that justified the step.

## Model

| member | source | states |
|---|---|---|
| ShmProtocol.AcceptedCopyIsOneSample | pps_tod/pps_tod.c:297-314 | for every interleaving of any number of writes by both threads with a reader that checks valid and re-checks count, under a safe ordering (SafeIff) an accepted copy is exactly one written sample, the one its count value numbers, if count did not wrap round during the copy |
| ShmProtocol.AcceptedFields | pps_tod/pps_tod.c:301-310 | field by field, an accepted copy holds the four times of one call, microseconds that agree with the nanoseconds, no leap second and precision -20 |
| ShmProtocol.SafeIff | pps_tod/pps_tod.c:299-313 | over all eight orderings of what the barriers leave open: every interleaving is safe iff the second increment precedes the raising of valid, and the first increment precedes the data or the reader loads valid last |
| ShmProtocol.LateIncrementAdmitsTornCopy | pps_tod/pps_tod.c:311-313 | a torn copy is accepted, without wrap, whenever valid may be raised before the second increment |
| ShmProtocol.EarlyStoreAdmitsTornCopy | pps_tod/pps_tod.c:58-67 | a reader copying the struct in its own order accepts a torn copy, without wrap, whenever data may be stored before the first increment |
| ShmProtocol.SingleWriter | pps_tod/pps_tod.c:721-761 | in every run, under any ordering, the mutex admits one thread at a time, valid is down from its lowering until it is raised, and from the second barrier on the data is the writer's whole sample |
| ShmProtocol.StepKeepsInv | pps_tod/pps_tod.c:297-314 | under every ordering, every single store, load, barrier, lock and unlock keeps the invariant: increments owed at each point of a call, whole data outside the stores, what a copy holds while count stands still |
| ShmProtocol.RunKeepsInv | pps_tod/pps_tod.c:297-314 | the invariant holds after every run from a state that has it |
| ShmProtocol.OneCall | pps_tod/pps_tod.c:297-314 | an undisturbed call publishes its whole sample, adds two to count and raises valid |
| ShmProtocol.WrapAdmitsTornCopy | pps_tod/pps_tod.c:58-67 | the wrap condition is needed under every ordering: a run in which a reader stalled for exactly 2^31 calls accepts a mixture of two samples |
| Pairing.BestEdge | pps_tod/pps_tod.c:735-743 | the flushed edge is the newest queued one at most a second before the sentence; none iff no queued edge qualifies |
| PairingInputs.StateIsFromInputs | pps_tod/pps_tod.c:721-733 | in every run the anchor is the latest sentence, the edge count the edges less than 3 s after it, the queue the first eight other edges since it |
| PairingInputs.EdgeIsEmittedIff | pps_tod/pps_tod.c:907-949 | after every run an edge is emitted at once iff it comes less than 3 s after the latest sentence, with the system clock's reading at the pulse in either stamp domain, the chain second, and the nearest second unless that is more than one off the chain |
| PairingInputs.SentenceEmitsIff | pps_tod/pps_tod.c:735-757 | after every run a sentence emits exactly the newest waiting edge at most 1 s old, if any, with its own second and what the clock reads for that pulse |
| PairingInputs.DomainsAgree | pps_tod/pps_tod.c:528-534 | the same inputs stamped with the system clock or with CLOCK_MONOTONIC give the same fresh samples: reading, label, chain, acceptance |
| PairingInputs.SystemStampsAreNeverFlushed | pps_tod/pps_tod.c:737-742 | stamps ahead of CLOCK_MONOTONIC, as those of the system clock are, are never flushed |
| PairingHistory.CountersMeanRuns | pps_tod/pps_tod.c:728-733 | in every run anchor_seq is the length, capped at 10^6, of the longest suffix of anchors advancing by exactly 1, and strike the longest suffix of same-sign gated samples since the last accepted sample or reset that took effect |
| PairingHistory.EveryStepIsJustified | pps_tod/pps_tod.c:810-826 | every coarse-step attempt of every run, its unlocked reads falling anywhere between or inside the serial thread's updates, had three consecutive-second anchors at its snapshot, and an offset beyond 1 s as it read the offset if urgent, strike_max same-sign gated samples as it read strike otherwise |
| PairingDecisions.AttemptIffDue | pps_tod/pps_tod.c:810-833 | at every decision of every run an attempt is made iff the last three sentences before the snapshot were consecutive and the latest under 3 s old, the latest sample was under 3 s old when tested, it was more than a second off when read or strike_max same-sign gated samples stood behind the strike read, and the last attempt was more than 10 s ago |
| PairingDecisions.WriteFollowsIff | pps_tod/pps_tod.c:827-853 | an attempt opens a quota window iff an hour has passed since the last opening, and leads to a clock write iff the open window has had fewer than reset_max, else to CAPPED |
| PairingDecisions.WriteTarget | pps_tod/pps_tod.c:852-856 | a clock write sets the second of the latest sentence handled before it |
| PairingDecisions.WriteIsFollowedByReset | pps_tod/pps_tod.c:857-858 | the gpio thread's next step after a write is the strike reset, which unless lost leaves no strikes |
| PairingHistory.AnchorRunIsLongest | pps_tod/pps_tod.c:728-733 | the counting recursion gives a consecutive suffix and no longer one exists |
| PairingHistory.GatedRunIsLongest | pps_tod/pps_tod.c:538-554 | the counting recursion gives a same-sign gated suffix and no longer one exists |
| PairingQuota.QuotaPerWindow | pps_tod/pps_tod.c:825-863 | in every run at most reset_max clock writes fall between two openings of the quota window; CAPPED implies the quota is exactly used up |
| PairingQuota.AttemptsAreThrottled | pps_tod/pps_tod.c:825-833 | in every run with a monotonic clock, attempts are more than 10 s apart |
| PairingQuota.WritesPerHour | pps_tod/pps_tod.c:825-863 | every half-open span of 3600 s of every run holds at most 2 * reset_max clock writes |
| PairingLabels.FreshPathGate | pps_tod/pps_tod.c:928-943 | a fresh sample is accepted iff rounding and chain differ by at most 1 and the stamp rounds well; a gated one that rounds well is at least 1.5 s off |
| PairingLabels.StampsSince1970RoundWell | pps_tod/pps_tod.c:928-931 | no stamp since 1970 is an exception, and the truncating rounding is rounding to the nearest second there |
| PairingLabels.RoundingFailsBefore1970 | pps_tod/pps_tod.c:928-931 | a stamp before 1970 on which rounding and chain agree and which the gate rejects |
| PairingLabels.AccuracyWithRightChain | pps_tod/pps_tod.c:528-566 | with a right chain, acceptance iff clock error in [-1.5 s, 1.5 s); the label is at most one second wrong, right iff the error is in [-0.5 s, 0.5 s) |
| PairingLabels.ChainIsTrue | pps_tod/pps_tod.c:721-761 | in every run in step with the receiver, any sentences missing: every fresh edge was arbitrated against its true second, and the edges flushed by sentences are all labelled with their true seconds iff every sentence found its own edge queued or nothing queued in the last second |
| PairingLabels.FlushIsWrongIff | pps_tod/pps_tod.c:735-743 | with edges 1 s apart, the next sentence flushes another edge iff it comes at the instant of its edge, which found the queue full, while the edge before is queued |
| PairingLabels.OverflowMislabels | pps_tod/pps_tod.c:735-748 | that case is real: in a run in step, after nine edges without a sentence, the eighth is labelled with the ninth second |
| PairingLabels.FreshEdgesAreAccurate | pps_tod/pps_tod.c:923-943 | after every run in order with the receiver, any sentences missing and in either stamp domain: an edge less than 3 s after the latest sentence has its true second as S_chain, is handed over iff the system clock read within [-1.5 s, 1.5 s) of the truth at the pulse, and is then labelled at most one second wrong, right iff within half a second |
| PairingLabels.QueueHoldsEight | pps_tod/pps_tod.c:944-948 | in every run at most 8 edges are queued |
| PpsTod.Segment.Write | pps_tod/pps_tod.c:297-314 | every field of the sample by name, valid raised, count two further modulo 2^32 |
| PpsTod.PublishedOffsets | pps_tod/pps_tod.c:555-566 | every sample handed over has clock and receive stamps at most half a second apart |
| PpsTod.PublishedIsWithinGate | pps_tod/pps_tod.c:555-558 | what is published is, one for one and in order, the outcomes within half a second: the clock's reading at the pulse beside the labelled second |
| PpsTod.AcceptedOffsetsAreGated | pps_tod/pps_tod.c:297-314 | from gate to reader: in every interleaving of calls that hand over gated samples, every accepted copy shows an offset of at most half a second |
| PpsTod.Daemon.constructor | pps_tod/pps_tod.c:317-345 | the globals start as the run of no events |
| PpsTod.Daemon.EmitSample | pps_tod/pps_tod.c:528-566 | takes the machine's sample step, and shared memory always shows the latest accepted sample with count twice their number |
| PpsTod.Daemon.UpdateGate | pps_tod/pps_tod.c:536-554 | strike, sign and last offset follow the outcome; acceptance iff within half a second |
| PpsTod.Daemon.NewestQueued | pps_tod/pps_tod.c:735-743 | the flush loop finds exactly the newest eligible queued edge |
| PpsTod.Daemon.UpdateAnchor | pps_tod/pps_tod.c:722-733 | the anchor and its run advance as the machine's anchor does |
| PpsTod.Daemon.TakeSentence | pps_tod/pps_tod.c:721-761 | a sentence's critical section is the machine's sentence step |
| PpsTod.Daemon.HandleSentence | pps_tod/pps_tod.c:721-761 | the globals are those of the run with this sentence appended, and shared memory shows its latest accepted sample |
| PpsTod.Daemon.AssignSecond | pps_tod/pps_tod.c:928-940 | the label is the rounded second unless it is more than one off the chain |
| PpsTod.Daemon.QueueEdge | pps_tod/pps_tod.c:944-948 | an edge without a fresh anchor is queued while fewer than 8 wait |
| PpsTod.Daemon.TakeEdge | pps_tod/pps_tod.c:907-949 | an edge's critical section is the machine's edge step |
| PpsTod.Daemon.HandleEdge | pps_tod/pps_tod.c:907-949 | the same for the run with this edge appended |
| PpsTod.Daemon.CoarseSnapshot | pps_tod/pps_tod.c:810-813 | the first critical section of the coarse block extends the run by a snapshot |
| PpsTod.Daemon.CoarseMeasure | pps_tod/pps_tod.c:819 | the unlocked read of the measurement's age extends the run |
| PpsTod.Daemon.CoarseWeigh | pps_tod/pps_tod.c:820 | the unlocked read of the offset extends the run |
| PpsTod.Daemon.CoarseDecide | pps_tod/pps_tod.c:822-840 | the decision on what the unlocked read of strike found extends the run: throttle, window opening, quota |
| PpsTod.Daemon.CoarseWrite | pps_tod/pps_tod.c:852-857 | the write uses the anchor as it is now and extends the run |
| PpsTod.Daemon.CoarseClear | pps_tod/pps_tod.c:858 | the unlocked strike reset, taking effect or lost, extends the run |
| TrafficLog.AdvanceRing | ntp_nic_monitor.c:185-195 | clearing the skipped slots re-bases a ring that shows the log on the new time; a backward jump forgets the log |
| TrafficLog.AddToRing | ntp_nic_monitor.c:233-240 | adding to the newest slot shows the log with that update appended |
| TrafficLog.LiveIsAll | ntp_nic_monitor.c:185-195 | under a nondecreasing clock nothing is forgotten |
| TrafficLog.WindowIsExact | ntp_nic_monitor.c:200-209 | under a nondecreasing clock a window of up to a day is the exact event count of its minutes, modulo 2^32 |
| TrafficLog.WindowDoesNotWrap | ntp_nic_monitor.c:200-209 | it is the count itself iff the window holds fewer than 2^32 |
| TrafficLog.ValidWithinRequests | ntp_nic_monitor.c:455-464 | valid requests never exceed requests in a window holding fewer than 2^32 |
| TrafficLog.WindowsAreOrdered | ntp_nic_monitor.c:455-464 | a shorter window never exceeds a longer one that holds fewer than 2^32: req_1m <= req_1h <= req_5h <= req_24h |
| TrafficLog.WindowWithinTotal | ntp_nic_monitor.c:455-464 | no window exceeds the grand total, for every clock and whatever wraps |
| TrafficLog.OverflowDisorders | ntp_nic_monitor.c:200-209 | at 2^32 requests both orders fail: the wider window shows less than the narrower, and less than its own valid ones |
| TrafficLog.ShownIsExact | ntp_nic_monitor.c:475-504 | under a nondecreasing clock every published minute or second of the trailing ring is the exact count |
| NicMonitor.NicStat.constructor | ntp_nic_monitor.c:128-147 | zeroed rings show the empty log |
| NicMonitor.NicStat.BucketAdvance | ntp_nic_monitor.c:185-195 | the three minute rings show the surviving log at the new minute, for forward and backward jumps of any size |
| NicMonitor.NicStat.SecAdvance | ntp_nic_monitor.c:215-226 | the same for the second ring, including its unset start |
| NicMonitor.NicStat.BumpMinute | ntp_nic_monitor.c:234-235 | the increments show the log with the request appended |
| NicMonitor.NicStat.BumpSecond | ntp_nic_monitor.c:239 | the increment of the second ring does too |
| NicMonitor.NicStat.CountMinute | ntp_nic_monitor.c:233-235 | advance and increment keep the rings equal to the log since the last backward jump |
| NicMonitor.NicStat.CountSecond | ntp_nic_monitor.c:236-240 | the same per second |
| NicMonitor.NicStat.Account | ntp_nic_monitor.c:228-247 | one request: all rings and totals equal the log with it appended |
| NicMonitor.NicStat.CountResponses | ntp_nic_monitor.c:395-419 | a response delta enters the ring of its minute only |
| NicMonitor.NicStat.PollResponses | ntp_nic_monitor.c:395-419 | one reading: a rise over a nonzero reading enters the ring, anything else does not; ring total and reported total equal their functions of all readings |
| NicMonitor.NicStat.BucketSum | ntp_nic_monitor.c:200-209 | the summing loop gives the live traffic of exactly the asked minutes the ring covers |
| NicMonitor.NicStat.WindowSums | ntp_nic_monitor.c:455-464 | the four published figures of each kind are the sums over 1, 60, 300 and 1440 minutes |
| NicMonitor.NicStat.PublishMinutes | ntp_nic_monitor.c:475-488 | the published hour is, minute by minute, the live count or 0 once aged out |
| NicMonitor.NicStat.PublishSeconds | ntp_nic_monitor.c:491-505 | the published two minutes are, second by second, the live count or 0 once aged out |
| CounterReadings.AddedTelescopes | ntp_nic_monitor.c:395-419 | with nondecreasing readings, what was ever added is last minus first nonzero reading |
| CounterReadings.AddedWithinReported | ntp_nic_monitor.c:385-419 | ... and never exceeds the reported total |
| CounterReadings.ResetAddsNothing | ntp_nic_monitor.c:395-419 | a counter reset adds nothing |
| ClientTable.Probe | ntp_nic_monitor.c:153-171 | the slot found is the first on the probe path that is free or holds the key; none iff all 1024 hold other keys |
| ClientTable.RefinesMap | ntp_nic_monitor.c:153-171 | for every hash and expiry-free run the table is the map from client to statistics, one slot per key |
| ClientTable.StatisticsAreCounts | ntp_nic_monitor.c:241-246 | in every expiry-free run the map holds for each client its number of requests, of valid ones and the time of the latest; a client that asked is missing only beside 1024 others |
| ClientTable.ProbesGoUp | ntp_nic_monitor.c:156-160 | probing starts at the hash modulo 1024 and goes up by one, round the end |
| ClientTable.ChainedFindsKeys | ntp_nic_monitor.c:153-171 | in a table without holes keys are unique and every stored key is found again |
| ClientTable.FullOfOthers | ntp_nic_monitor.c:153-171 | NULL only from a table full of other keys |
| ClientTable.SweepIs | ntp_nic_monitor.c:173-178 | a sweep frees exactly the clients last heard more than a day ago and changes nothing else |
| ClientTable.SweepKeepsChains | ntp_nic_monitor.c:173-178 | expiry keeps the table without holes iff no survivor has an aged entry before it on its probe path |
| ClientTable.FoundAgainIff | ntp_nic_monitor.c:153-178 | a stored key is found again iff every earlier slot on its path is in use |
| ClientTable.UniqueAfterTouchIff | ntp_nic_monitor.c:153-178 | a request keeps one slot per key iff every slot before its client's on the path is in use |
| ClientTable.RunStaysUniqueIff | ntp_nic_monitor.c:153-178 | a run with any sweeps has one slot per key all along iff every request meets such a path |
| ClientTable.SweepCanDuplicate | ntp_nic_monitor.c:153-178 | for every hash and every two clients that start at the same slot, a run with expiry after which one occupies two slots |
| ClientTable.MonitorCanDuplicate | ntp_nic_monitor.c:154 | under the code's hash addresses 1 and 1025 on interface 1 are two such clients |
| ClientTable.MonitorCollides | ntp_nic_monitor.c:154 | both start at slot 432 in 32-bit arithmetic |
| ClientTable.RequestsAreConserved | ntp_nic_monitor.c:228-247 | in every run live plus expired plus dropped requests equal all requests |
| ClientTable.Clients.Get | ntp_nic_monitor.c:153-171 | the probing loop finds the first stop and claims it if free |
| ClientTable.Clients.Record | ntp_nic_monitor.c:241-246 | the array is the run with this request appended; dropped iff the probe fails |
| ClientTable.Clients.ExpireAll | ntp_nic_monitor.c:173-178 | the array is the run with this sweep appended |
| Watchdog.RestartBudget | pps_tod/pps_tod_watchdog.sh:167-206 | in every run restarts are RESTART_COOLDOWN apart, at most MAX_RESTARTS in any half-open hour, only from mode OK, and the lazily pruned strike list never outgrows MAX_RESTARTS |
| Watchdog.NeverServesUnvouched | pps_tod/pps_tod_watchdog.sh:100-133 | with the guard on, GOOD_WINDOW >= 10 and deny commands that succeed, every pass outside OK ends with serving off |
| Watchdog.ShortWindowCanServeUnvouched | pps_tod/pps_tod_watchdog.sh:100-133 | for any shorter window there is a run, all commands succeeding, that ends serving outside OK |
| Watchdog.ServingReturns | pps_tod/pps_tod_watchdog.sh:156-166 | after any history, healthy passes end serving or inside the throttle of an earlier attempt |
| Watchdog.ServingIsBackInTenSeconds | pps_tod/pps_tod_watchdog.sh:156-166 | ten seconds of uninterrupted healthy passes bring serving back |
| Watchdog.RecentIsTail | pps_tod/pps_tod_watchdog.sh:174-178 | pruning keeps exactly the strikes under an hour old, a tail of the list |
| WatchdogModes.NextMode | pps_tod/pps_tod_watchdog.sh:156-214 | after every run the next pass, in each mode: a good pass restores OK; a restart is ordered iff the bad spell has lasted GOOD_WINDOW, the cooldown has passed and the last hour had fewer than MAX_RESTARTS, and leads to RECOVERING or, failing, DEGRADED; RECOVERING ends at the first bad pass OBSERVE_GRACE after the restart; nothing else changes mode or restarts |
| WatchdogModes.RecoveringIsObserved | pps_tod/pps_tod_watchdog.sh:201-206 | a bad pass leaves RECOVERING only inside the observation window, unless it ordered the restart |
| WatchdogModes.DegradedIsEarned | pps_tod/pps_tod_watchdog.sh:180-206 | DEGRADED is entered only by a used-up budget, a failed restart or a run-out window |
| WatchdogModes.NextServing | pps_tod/pps_tod_watchdog.sh:100-133 | serving after a pass: the unthrottled deny in DEGRADED, then one try of what is wanted, ten seconds after the last, holding iff the command succeeds |
| Watchdog.Script.NtpServe | pps_tod/pps_tod_watchdog.sh:100-133 | one throttled attempt is the machine's |
| Watchdog.Script.PruneStrikes | pps_tod/pps_tod_watchdog.sh:174-178 | the loop keeps exactly the recent strikes |
| Watchdog.Script.ConsiderRestart | pps_tod/pps_tod_watchdog.sh:174-197 | the restart branch is the machine's |
| Watchdog.Script.HandleBad | pps_tod/pps_tod_watchdog.sh:167-214 | the bad branch is the machine's in each mode |
| Watchdog.Script.DoPass | pps_tod/pps_tod_watchdog.sh:145-221 | after any number of passes the variables are those of the run |
| Sha256.HashPieces | src/sha256.c:61-96 | for every message below 2^61 bytes and every split over update calls the digest is that of FIPS 180-4 on the whole message |
| Sha256.MacrosAreSigmas | src/sha256.c:6-12 | the shift-and-or macros are the rotations of the standard |
| Sha256Standard.CubeRoots0 | src/sha256.c:15-16 | constants 0 to 7 are the first 32 bits of the fractions of cube roots of primes |
| Sha256Standard.CubeRoots1 | src/sha256.c:17-18 | constants 8 to 15 are the first 32 bits of the fractions of cube roots of primes |
| Sha256Standard.CubeRoots2 | src/sha256.c:19-20 | constants 16 to 23 are the first 32 bits of the fractions of cube roots of primes |
| Sha256Standard.CubeRoots3 | src/sha256.c:21-22 | constants 24 to 31 are the first 32 bits of the fractions of cube roots of primes |
| Sha256Standard.CubeRoots4 | src/sha256.c:23-24 | constants 32 to 39 are the first 32 bits of the fractions of cube roots of primes |
| Sha256Standard.CubeRoots5 | src/sha256.c:25-26 | constants 40 to 47 are the first 32 bits of the fractions of cube roots of primes |
| Sha256Standard.CubeRoots6 | src/sha256.c:27-28 | constants 48 to 55 are the first 32 bits of the fractions of cube roots of primes |
| Sha256Standard.CubeRoots7 | src/sha256.c:29-30 | constants 56 to 63 are the first 32 bits of the fractions of cube roots of primes |
| Sha256Standard.RowsOfK | src/sha256.c:14-31 | the constants are these eight rows in order |
| Sha256Standard.SquareRoots | src/sha256.c:61-67 | the initial hash value is the fractions of square roots of the first eight primes |
| Sha256Standard.ChWhereSet | src/sha256.c:7 | Ch takes the bits of y where x is set |
| Sha256Standard.ChElsewhere | src/sha256.c:7 | and those of z elsewhere |
| Sha256Standard.MajIsMajority | src/sha256.c:8 | Maj is the majority of each bit |
| Sha256Standard.SigmaAmounts | src/sha256.c:9-12 | the rotation and shift amounts, on single bits |
| Sha256Standard.RoundIs | src/sha256.c:48-53 | one round of section 6.2.2, variable by variable |
| Sha256Standard.ScheduleIs | src/sha256.c:40-41 | one schedule step of section 6.2.2 |
| Sha256Standard.CompressIs | src/sha256.c:43-58 | the rounds use constants and words in order and are added to the start |
| Sha256Standard.BytesRoundTrip | src/sha256.c:37-39 | reading a word from bytes and writing it undo each other, most significant first |
| Sha256Standard.PadIs | src/sha256.c:79-89 | the padded message byte by byte: message, 0x80, zeros, length in bits, whole blocks |
| Sha256.AbsorbByte | src/sha256.c:69-77 | one more byte either waits or completes a block and compresses it |
| Sha256.FirstStop | src/sha256.c:84-85 | the padding loop's exit test is met first by the standard's number of zeros |
| Sha256.LengthByteAt | src/sha256.c:86-89 | the shifted length bytes are the big-endian length field |
| Sha256.Context.constructor | src/sha256.c:61-67 | the initial state is the hash of nothing |
| Sha256.Context.ScheduleStep | src/sha256.c:40-41 | the schedule recurrence of section 6.2.2 |
| Sha256.Context.RoundStep | src/sha256.c:44-53 | one round of section 6.2.2 by shifting the eight variables |
| Sha256.Context.LoadWords | src/sha256.c:37-39 | the first sixteen words of the schedule |
| Sha256.Context.ExtendWords | src/sha256.c:40-41 | all sixty-four words of the schedule |
| Sha256.Context.AllRounds | src/sha256.c:37-53 | the working variables go through the 64 rounds of the buffered block |
| Sha256.Context.Transform | src/sha256.c:33-59 | the state becomes its compression with the buffered block |
| Sha256.Context.UpdateByte | src/sha256.c:69-77 | state and buffer stay the hash and remainder of everything seen |
| Sha256.Context.Update | src/sha256.c:69-77 | the same for any number of bytes |
| Sha256.Context.PutZeros | src/sha256.c:84-85 | the zero loop ends, having appended the standard's zeros |
| Sha256.Context.PutLength | src/sha256.c:86-89 | the length field is appended |
| Sha256.Context.Emit | src/sha256.c:90-95 | the digest is the state's words, big-endian |
| Sha256.Context.Final | src/sha256.c:79-96 | the digest of everything updated so far; the last block has been compressed |
| PasswordRecord.ParsePrinted | src/auth.c:459-522 | parsing undoes printing for every round count, salt text without separator and digest text |
| PasswordRecord.ParseIff | src/auth.c:459-490 | any text parses iff it is prefix, a field without separator, a 32-character salt without separator and the rest, and gives back salt and digest |
| PasswordRecord.RecordFits | src/auth.c:389-457 | for every password of 1 to 64 bytes and every salt the record is printed whole into any buffer callers may pass |
| PasswordRecord.VerifiesIffSameDigest | src/auth.c:459-522 | a record accepts its own password, and any other iff the chain of digests of salt, colon and that password ends in the same digest |
| PasswordRecord.VerifiesIffChain | src/auth.c:491-522 | any stored text accepts a password iff it parses and the chain (first the digest of salt, colon and password, each next that of the one before and the round number in four little-endian bytes) ends in its digest |
| PasswordRecord.HashedIsChain | src/auth.c:426-457 | the record is the literal text with salt and the end of the 100000-digest chain, for exactly the passwords of 1 to 64 bytes and buffers of 128 |
| PasswordRecord.AtoiOfDecimal | src/auth.c:459-522 | reading a printed number gives it back, whatever non-digit follows |
| PasswordRecord.AtoiIs | src/auth.c:470-476 | white space is skipped, a sign is read, a non-number is 0 |
| PasswordRecord.HexInjective | src/auth.c:389-457 | different bytes print differently |
| PasswordRecord.HexAt | src/auth.c:418-423 | two digits per byte, the high half first |
| PasswordRecord.HexDigits | src/auth.c:399 | the sixteen lower-case digits |
| PasswordRecord.HexHasNoDollar | src/auth.c:389-457 | hex text contains neither separator nor NUL |
| PasswordRecord.HexEncode | src/auth.c:418-423 | the buffer-filling loop prints the bytes |
| PasswordRecord.Stretch | src/auth.c:426-444 | the hashing loop computes the iterated digest, which is the end of the chain |
| PasswordRecord.HashPassword | src/auth.c:389-457 | the record of the password's chain, or an error iff the length is outside 1..64 or the buffer under 128 |
| PasswordRecord.VerifyPassword | src/auth.c:459-522 | true iff the stored text parses and the password's chain ends in its digest |
| Accounts.RunsStayConsistent | src/users.c:31-339 | from any consistent state every run by root actors keeps an enabled root, unique names, no dangling session or audit reference, and creators that are roots |
| Accounts.ApplyKeeps | src/users.c:31-339 | each operation keeps that, and deletion is never blocked |
| Accounts.AdminsCanAlwaysBeDeleted | src/users.c:84-135 | after every such run deleting any other admin succeeds and removes it |
| Accounts.AdminCreatorBlocksDeletion | src/auth.c:57-91 | the restriction to root actors is needed: a user created by an admin blocks deleting that admin |
| Accounts.DeadForever | src/auth.c:320-362 | a removed token never comes back, whatever follows |
| Accounts.ResetEndsSessions | src/users.c:203-246 | after a reset no earlier session of the target verifies again, whatever follows |
| Accounts.ChangeEndsOtherSessions | src/users.c:252-339 | after a change only the session that made it can survive |
| Accounts.ResetSetsPassword | src/users.c:203-246 | after a reset the account opens to exactly the passwords whose chain ends in the new one's digest |
| AccountHistory.SessionVerifiesIff | src/auth.c:320-362 | after every run a 64-character token verifies as u at now iff it was opened for u less than an hour ago, has not been closed, cleaned up, kicked or deleted with its user since, and u stands enabled by the latest switch or its creation |
| AccountHistory.DisableEndsSessions | src/users.c:137-201 | after a successful disable no session of the target verifies until an enable, whatever else happens |
| AccountHistory.FreshSessionVerifies | src/auth.c:274-318 | a session just opened for an enabled user verifies for exactly an hour |
| AccountHistory.CreateIs | src/users.c:31-82 | when creation succeeds, and the one row it adds: an enabled admin who opens to the given password |
| AccountHistory.DeleteIs | src/users.c:84-135 | when deletion succeeds, and what goes with the row |
| AccountHistory.ToggleIs | src/users.c:137-201 | when a switch succeeds, and that it changes one flag |
| AccountHistory.ResetIs | src/users.c:203-246 | when a reset succeeds, and that it changes one password and ends the user's sessions |
| AccountHistory.ChangeIs | src/users.c:252-339 | a change succeeds iff the enabled user gives the current password and a different acceptable one; only the keeping session stays |
| AccountHistory.GoneForever | src/users.c:84-135 | a deleted user's id never comes back |
| Accounts.CheckPolicy | src/auth.c:560-592 | accepts exactly 10 to 64 visible characters with all four classes |
| Accounts.PolicyBounds | src/auth.c:560-592 | the character classes by their ASCII bounds, the length by its own |
| Accounts.Store.AuditLog | src/auth.c:666-686 | a row is added iff both referenced users exist |
| Accounts.Store.CreateUser | src/users.c:31-82 | tables and outcome of creation, with every refusal |
| Accounts.Store.DeleteUser | src/users.c:84-135 | tables and outcome of deletion: cascade, set-null, no-action |
| Accounts.Store.ToggleUser | src/users.c:137-201 | tables and outcome; the last enabled root cannot be disabled |
| Accounts.Store.KickSessions | src/auth.c:632-646 | exactly the user's sessions but the kept one are gone; nothing for ids at or below zero |
| Accounts.Store.ResetUserPassword | src/users.c:203-246 | tables and outcome of a reset |
| Accounts.Store.ChangeOwnPassword | src/users.c:252-339 | tables and outcome of a self-service change |
| Accounts.Store.CreateSession | src/auth.c:274-318 | a session of an existing user under a new token, or refusal |
| Accounts.Store.DestroySession | src/auth.c:364-374 | exactly that session is gone |
| Accounts.Store.CleanupSessions | src/auth.c:376-385 | exactly the expired sessions are gone |
| Accounts.Store.Perform | src/users.c:31-339 | the tables are those of the run with this operation appended |
| Accounts.Store.VerifySession | src/auth.c:320-362 | whose session it is: present, unexpired, of an enabled user |
| JsonString.DecodeEscape | src/log.cgi.c:74-87 | escaped text is a JSON string of RFC 8259 section 7 that decodes to the original with other control characters as spaces |
| JsonString.SanitizedIs | src/log.cgi.c:74-87 | only control characters other than newline, return and tab are lost |
| JsonString.JsonStr | src/log.cgi.c:74-87 | the buffer gets the escaped prefix that fits; a source under half the buffer is never cut |
| LogTail.HandleTail | src/log.cgi.c:172-269 | for every window the strings sent are, in file order, the last min(want, matched) matching lines, capped, and each decodes to its line (up to a NUL in it) |
| LogLines.LinesTogether | src/log.cgi.c:225-241 | the lines with their newlines are the text again |
| LogLines.LinesHaveNoNewline | src/log.cgi.c:225-241 | no line holds a newline |
| LogLines.MatchesIff | src/log.cgi.c:230 | a line matches iff, as C sees it, it is something, the word and something |
| LogLines.MatchingSnoc | src/log.cgi.c:230-239 | matching goes line by line in order |
| LogLines.CrIs | src/log.cgi.c:229 | one carriage return goes, from the end |
| LogLines.CappedIs | src/log.cgi.c:231 | a line is cut to its first 1000 characters |
| LogLines.CStringIs | src/log.cgi.c:230 | a line is seen up to its first NUL |
| LogLines.FirstLineIs | src/log.cgi.c:221-224 | a window inside a file starts after its first newline |
| LogLines.LastIs | src/log.cgi.c:254-259 | the last want items, or all |
| LogTail.KeepMatching | src/log.cgi.c:218-242 | the ring holds the last matching lines of the original window although it is cut up in place |
| LogTail.KeepLine | src/log.cgi.c:226-241 | one turn keeps the line iff it matches and leaves the rest of the window as it was |
| LogTail.CStringOfText | src/log.cgi.c:230-264 | a line without NUL is matched and sent whole |
| LogTail.CutLine | src/log.cgi.c:226-229 | ends a line in place and touches nothing else that is still to be read |
| LogTail.TakeLine | src/log.cgi.c:226-241 | the next line and the next start as in the untouched window |
| LogTail.RingPut | src/log.cgi.c:231-238 | overwriting the next slot shows the last want items, oldest at the base |
| LogTail.PutMark | src/log.cgi.c:231-238 | the ring positions modulo want follow that |
| LogTail.ReadRing | src/log.cgi.c:255-259 | the i-th item from the base is the i-th of the last kept items |
| LogTail.EscapeLine | src/log.cgi.c:260-264 | a capped line is escaped whole |
| LogTail.EmitKept | src/log.cgi.c:254-266 | the output is the last kept lines in order |
| LogTail.DecodeAll | src/log.cgi.c:254-266 | every string decodes to its line |
| CsvRing.LoadRows | src/ntpmon.c:345-358 | the ring holds exactly the newest min(n, 1441) parsed rows in order |
| CsvRing.StoreRow | src/ntpmon.c:352-355 | one more row, the oldest dropped when full |
| CsvRing.EthDelta | src/ntpmon.c:236-250 | the growth, never negative, since the start of the longest run of rows inside the window |
| CsvRing.BaseIsOldestInside | src/ntpmon.c:236-250 | for nondecreasing timestamps that start is the oldest row inside the window, and all later rows are inside |
| CsvRing.WiderStartsEarlier | src/ntpmon.c:223-250 | a wider window starts no later |
| CsvRing.DeltasAreOrdered | src/ntpmon.c:223-250 | for nondecreasing nonnegative counters the deltas are ordered by window and bounded by the total |
| CsvRing.EthDeltas | src/ntpmon.c:230-250 | the deltas of the trailing 90 s, hour, 5 hours and day, ordered and bounded for ordered counters |
| CsvRing.GrowthIs | src/ntpmon.c:248-249 | the difference of the counters, or 0 if it fell |
| DottedText.ValidIpv4 | src/nmcli.c:110-126 | accepts exactly two to four dot-separated octets of at most 255, of any length and with leading zeros |
| DottedText.PartsJoin | src/nmcli.c:110-126 | the parts joined by dots are the text, and none holds a dot |
| DottedText.ReadOctets | src/nmcli.c:134-140 | after the validator the octet index stays in bounds and the four values are the octets, missing ones zero |
| DottedText.DottedIsDotted | src/nmcli.c:232-236 | printing four octets gives accepted text of that value |
| Netmask.Contiguous | src/nmcli.c:141-150 | the bit loop accepts exactly the numbers 2^32 - 2^(32-p) |
| Netmask.ValidMask | src/nmcli.c:128-151 | accepts exactly the dotted texts of such a number |
| Netmask.CountLeading | src/nmcli.c:227-229 | the shift loop ends with the number of leading ones |
| Netmask.MaskToPrefix | src/nmcli.c:215-230 | the leading ones of the text's value; for an accepted mask that value is 2^32 - 2^(32-p) |
| Netmask.PrefixToMask | src/nmcli.c:232-236 | for 0..32 the text is accepted, has value 2^32 - 2^(32-p) and at most 15 characters |
| Netmask.MaskRoundTrip | src/nmcli.c:128-236 | every accepted mask text goes to its prefix and back to accepted text of equal value |
| Netmask.PrefixRoundTrip | src/nmcli.c:215-236 | prefix to mask to prefix is the identity on 0..32 |

## Left out

- Stores do not cross the two barriers of `shm_write` or the mutex, and the reader's two loads of `count` enclose its other loads; a processor that reorders the reader's loads of `count` as well is not modelled.
- `-A ntp` mode of the daemon: its mid-second path leaves the loop body with the mutex held, so steps at mutex granularity do not describe it.
- The conversion from edge time to realtime is computed twice per edge in the code; each event has one conversion offset here. A clock write and its quota increment are one step.
- The log-throttle timestamp of the CAPPED message, the status file, `prune_old_logs`, `acc_sample` and `emit_summary`: logging and display.
- NMEA parsing and calendar conversion: a sentence arrives as its positive second.
- PairingLabels.ChainIsTrue: about edges stamped with CLOCK_MONOTONIC, all handled in order of their stamps, and sentences handled between their own edge and the next.
- PairingHistory.EveryStepIsJustified: the unlocked reads see the serial thread's stores in program order, a processor that reorders them is not modelled; a stale read of `strike` is allowed after any flushed sample and a lost reset after any clock write, not only at the instant of the update; clock readings of the two threads follow the order of their steps.
- NicMonitor.NicStat.Account: times are positive and 64-bit counters do not wrap; only the 32-bit ring slots do.
- NicMonitor.NicStat.BucketSum: asked for minutes at least a day after the epoch, so that C's remainder is never taken of a negative number.
- The client hash is any function, the code's own (`MonitorHash`) included; iptables, chronyc and systemctl are oracles whose answers are inputs.
- Watchdog log pruning, alerts, its state file and the ACL replay.
- PasswordRecord.AtoiOfDecimal: numbers beyond the range of `int`, where the C library's behaviour is undefined, are not cut off.
- Random salts and tokens are parameters; session tokens are taken to be fresh.
- SQLite itself, schema migrations, the client_ip, detail and last_login columns, CSRF tokens, and usernames beyond 63 characters in the change-password lookup.
- Opening and reading the log file.
- JsonString.DecodeEscape: the decoder does not read \uXXXX escapes, which the escaper never writes, and characters are bytes, so a line cut inside a multi-byte UTF-8 character counts as valid.
- CSV row parsing and the per-minute series of the monitor page.
- CsvRing.EthDelta: windows are nonnegative, as the four in use are.
- Netmask.PrefixToMask: prefixes outside 0..32, for which the C shift is undefined.
- DNS-list and IPv6 validation, NetworkManager profiles and rollback, GPIO, serial and packet capture, CGI mains, HTML and scripts: input, output or finite tables.
