# Verified model of the traffic accounting service

The service counts Ethernet traffic per (interface index, MAC address). Packet handlers in the
kernel add to counters in a shared map; a flush loop compares each counter with a stored
checkpoint and books the difference in SQLite; a housekeeping loop deletes old daily rows; an HTTP
API answers queries over date windows; an attachment manager owns the kernel links of the packet
handlers. This project models that pipeline in Dafny and proves what it conserves, over every
interleaving.

`dafny verify dfyconfig.toml` checks everything.

## How it is organised

- `Counters.dfy`: the six counters, 64-bit addition and subtraction, finite sums. Laws are stated
  field by field (`Get(c, f)`).
- `Calendar.dfy`: text order, the Gregorian calendar of the years 0000 to 9999, and the text
  `YYYY-MM-DD` (the full-date of section 5.6 of RFC 3339) under which rows are compared.
- `Kernel.dfy`: the handlers as concurrent step sequences over a bounded map, including the race
  between lookup and insertion.
- `Store.dfy`: the three tables, the per-key flush transaction, schedules of flushes, pruning.
- `Pipeline.dfy`: handlers, flush walk, housekeeping, dates and restarts as one state machine, with
  the laws of every run.
- `Conservation.dfy`: growth of the tables within one date, and conservation of traffic within one
  date and one map lifetime, from any state.
- `FullFlush.dfy`: what a flush with no handler in flight books, and what a restart does to it.
- `Collector.dfy`: repository, map iterator, flush loop and housekeeping loop as objects.
- `Shutdown.dfy`: the start/stop protocol with concurrent callers of Stop.
- `MacText.dfy`, `Windows.dfy`: the queries.
- `Attachment.dfy`, `Service.dfy`: link ownership, service start and stop.

A run is a sequence of step labels; a label whose step is not possible leaves the state alone, so
every sequence is a run. History components of a state (pruned rows, last readings, counters that
were replaced, orphaned links) are read by no step.

## Where the code does not keep a promise

Each of these has an exact condition, proved in both directions where it is an equivalence.

- A restart creates a fresh kernel map, but deltas of the same date are still taken against the old
  checkpoint (the service's own `README.md`, line 120, promises that checkpoints restored on restart
  avoid double-counting). Over any run after a restart, an undisturbed flush has booked exactly the
  new traffic if and only if nothing of that date was booked before the restart:
  `FullFlush.RestartExactIffNothingBooked`. A delta against a higher checkpoint wraps
  (`FullFlush.RestartSameDateWraps`). The database driver refuses unsigned parameters of 2^63 and
  more, and a delta that wraps below an accepted checkpoint is always one
  (`Pipeline.FallIsRefused`): the transaction is rolled back, the flush fails at that key, and the
  later keys of the walk wait (`Store.UnreachedKeysWait`), until the counter has overtaken the
  checkpoint or the date changes. Nothing is then booked wrongly (`Pipeline.AcceptedRunsAreExact`),
  but the restart has swallowed exactly the reading booked before it
  (`FullFlush.RestartSwallowsBookedReading`; `FullFlush.RestartSameDateSwallows` is a run whose
  every write is accepted).
- `docs/zh/README.md` line 369 says a negative delta is dropped. The code has no such branch: a
  reading is skipped if and only if it equals the booked one (`Store.SkippedIffUnchanged`). What is
  booked for a key, day and field is the last reading plus 2^64 for every commit of that day whose
  reading was below the checkpoint, hence the reading itself if and only if none was
  (`Pipeline.BookedIsLastReadingPlusFalls`, `Pipeline.TotalExactIffNeverFell`).
- On a new date the whole raw value is booked again, so across dates the all-time total exceeds the
  newest reading by the last readings of all earlier days (`Pipeline.EarlierDaysAreCountedAgain`).
- A first packet that inserts late replaces a live counter (`Kernel.OnlyLateInsertLowers`, reachable
  by `Kernel.LateInsertLosesPacket`). Once a key is settled nothing more is lost
  (`Kernel.SettledLosesNothing`), and with atomic insertion no counter is ever replaced
  (`Conservation.AtomicInsertionReplacesNothing`).
- Flush reports success when the map iterator stops on an error, having booked only the keys before
  it (contract of `Collector.FlushLoop.Flush`, example `Collector.IteratorFailureIsSilent`). All
  entries were delivered if and only if no answer was a failure (`Collector.DeliveredWholeFeed`).
- The interface name is stored empty, so the interface filter of the API matches no row
  (`Windows.InterfaceFilterMatchesNothing`).
- A failed interface lookup marks an attached direction failed and its link is never closed. After
  any operations that leave nothing attached, every link was closed exactly once if and only if this
  never happened (`Attachment.AllClosedIffNeverUnresolved`). In one start and stop of the service it
  happens if and only if an interface is configured again and no longer resolves after it could be
  attached (`Service.StartThenStop`).
- Starting the flush loop twice is not guarded against. A run can go on to close a channel twice if
  and only if it contains two or more Starts, wherever the first loop is by then
  (`Shutdown.ClosesTwiceIffStartedTwice`), and to overlapping flushes if and only if two loops are
  live, or one is beside another loop while the final flush is ahead (`Shutdown.FlushesOverlapIff`).
  `Shutdown.SecondStartRuns` has a run for each.

## Model

| member | source | states |
|---|---|---|
| `Calendar.DayNumberOfDate` | internal/storage/storage.go:630-643 | counting days one at a time agrees with the closed formula for the day number |
| `Calendar.DateOfDayNumber` | internal/storage/storage.go:635-638 | every date of the years 0000 to 9999 is the date of exactly one day number, and back |
| `Calendar.DateOrder` | internal/storage/storage.go:640-643 | day numbers and calendar dates are ordered alike |
| `Calendar.MonthStartFormula` | internal/storage/storage.go:635-638 | the months have the lengths of the Gregorian calendar: from March on the running total is the whole part of 30.6 days per month |
| `Calendar.TextLayout` | internal/storage/storage.go:635-638 | the text of a day is its year, month and day as decimal digits with hyphens, character by character |
| `Calendar.TextOrder` | internal/storage/storage.go:553-557 | comparing `YYYY-MM-DD` as text is comparing days, for all years 0000 to 9999 |
| `Calendar.TextInjective` | internal/runtime/flush.go:133 | two days have the same text exactly if they are the same day, so text equality decides the same-day branch |
| `Calendar.StartOfMonth` | internal/http/http.go:244-250 | the month window starts at most 30 days before the request date |
| `Calendar.StartOfMonthDate` | internal/http/http.go:246 | that start is the first day of the same month and year |
| `Lex.DigitsOrder` | internal/storage/storage.go:632 | zero-padded numerals of equal width are ordered as numbers, ties broken by what follows |
| `Kernel.ReachableAccounted` | bpf/ingress.c:27-39 | in every interleaving each counter holds, modulo 2^64, exactly what the handlers holding it have added, and the map keeps within capacity |
| `Kernel.DirectionsLagByInFlight` | bpf/ingress.c:36-39 | bytes minus both directions is what handlers in flight have added to the total only; zero at rest; likewise packets |
| `Kernel.TrafficIsWhatArrived` | bpf/ingress.c:22-25 | whose traffic a frame is, in terms of the frame's own fields: a frame with room for a header counts for its interface index and its destination on the way in, its source on the way out; length and one packet in the totals and in the fields of its direction, nothing in the other direction |
| `Kernel.HandlersAreArrivals` | bpf/ingress.c:12-20 | in every interleaving there is one handler per arrived frame, in order |
| `Kernel.VisibleWithinTraffic` | bpf/ingress.c:5-10 | races included, the counter of a MAC at an interface never exceeds what its frames count, and at most 262144 keys exist |
| `Kernel.RefusedAddsNothing` | bpf/ingress.c:31-34 | a refused packet has added nothing to any counter, and does not in any continuation |
| `Kernel.NewKeyFindsRoom` | bpf/ingress.c:28-30 | with memory and fewer than 262144 keys a new key gets a zeroed counter and no other key changes |
| `Kernel.FullMapRefuses` | bpf/ingress.c:28-34 | whatever other handlers do in between, a full map turns a new key away with the third step of its handler, which has added nothing and whose steps change no counter and not the table |
| `Kernel.TrafficIsCountedOrLost` | bpf/ingress.c:27-42 | at rest, the counter of a MAC at an interface is, modulo 2^64, all that its arrived frames count but what was lost |
| `Kernel.SettledLosesNothing` | bpf/ingress.c:27-34 | once a key has a counter and no insertion is pending, it keeps the counter and loses no packet in any continuation |
| `Kernel.OnlyLateInsertLowers` | bpf/ingress.c:28-39 | a late insertion zeroes the counter; every other step moves it by exactly what its handler adds, modulo 2^64, so nothing else lowers a counter whose traffic fits 64 bits |
| `Kernel.PromptInsertsAreFirst` | bpf/ingress.c:27-30 | if every failed lookup is followed by its own insertion, no insertion meets an existing counter |
| `Kernel.LateInsertLosesPacket` | bpf/ingress.c:59-66 | a run in which a late insertion wipes counted bytes |
| `Store.FlushKeyEffect` | internal/runtime/flush.go:189-288 | one transaction moves total and bucket by the same delta, sets the checkpoint, and leaves all other rows |
| `Store.FlushTwice` | internal/runtime/flush.go:132-178 | two transactions of one key equal the second alone if and only if the second reading is not behind, counted from the checkpoint |
| `Store.OnlyLastReadingCounts` | internal/runtime/flush.go:104-178 | after any flushes on one day, complete or aborted, a key's rows are those its last reading alone would give |
| `Store.ScheduleIndependence` | internal/runtime/flush.go:104-178 | two flush schedules of one day with the same last readings give the same tables |
| `Store.CrashAndRetry` | internal/runtime/flush.go:93-99 | an aborted flush followed by a full one gives the tables of the full one, whatever the prefix and order |
| `Store.AnyEnumerationOrder` | internal/ebpf/map.go:51-67 | the order in which the walk meets distinct keys does not matter |
| `Store.UnreachedKeysWait` | internal/runtime/flush.go:174-177 | keys an aborted flush did not get to keep their rows as they were |
| `Store.FlushIdempotent` | internal/runtime/flush.go:104-105 | repeating a flush without new traffic changes nothing |
| `Store.OverlappingFlushesBookTwice` | internal/runtime/flush.go:126-177 | two flushes that read the same checkpoint book the delta twice; harmless if and only if it is zero |
| `Store.SkippedIffUnchanged` | internal/runtime/flush.go:156-172 | nothing is booked if and only if the reading equals the booked one |
| `Store.PruneTextIsPrune` | internal/storage/storage.go:553-557 | deleting by text cutoff deletes exactly the earlier days |
| `Store.PruneCommutes` | internal/runtime/housekeeping.go:99-128 | a prune commutes with a transaction if and only if it spares the day being written or the delta is zero |
| `Store.PruneTwice` | internal/storage/storage.go:553-557 | successive prunes equal one with the later cutoff |
| `Store.PrunesMoveToEnd` | internal/runtime/housekeeping.go:74-96 | prunes anywhere between transactions equal one prune after all of them |
| `Store.PruneMovesToFront` | internal/runtime/housekeeping.go:99-128 | a prune before a whole flush equals the prune after it |
| `Pipeline.TotalIsLivePlusPruned` | internal/runtime/flush.go:226-281 | in every reachable state, restarts and wrapped deltas included, a total equals its live daily rows plus all rows ever pruned |
| `Pipeline.BookedIsLastReadingPlusFalls` | internal/runtime/flush.go:133-178 | per key, day and field, in every run: what is booked, live or pruned, is the day's last reading plus 2^64 for every commit whose reading was below the same day's checkpoint; equal to the reading if and only if no such commit happened |
| `Pipeline.TotalIsSumOfLastReadings` | internal/runtime/flush.go:133-178 | in every run the total is the sum of each day's last reading plus 2^64 for every fall, and the bucket of the checkpoint's day holds the checkpoint's reading, likewise |
| `Pipeline.TotalExactIffNeverFell` | internal/runtime/flush.go:133-178 | the total is the sum of the last readings if and only if no reading of the field ever fell within a day |
| `Pipeline.EarlierDaysAreCountedAgain` | internal/runtime/flush.go:143-154 | across dates the total is the newest reading, plus the last readings of all earlier days, plus 2^64 for every fall |
| `Pipeline.CommitExactIffNotFallen` | internal/runtime/flush.go:133-142 | after a commit the bucket equals the reading if and only if it was exact before and the reading did not fall |
| `Pipeline.FallIsRefused` | internal/runtime/flush.go:135-142 | with an accepted checkpoint, a delta that wraps is 9223372036854775808 or more, so the driver refuses it |
| `Pipeline.AcceptedRunsAreExact` | internal/runtime/flush.go:174-177 | in a run whose every write the driver accepts, restarts and replaced counters included, each day's bookings are the day's last reading and the total is their sum |
| `Pipeline.RowsHaveTotals` | internal/runtime/flush.go:226-281 | in every reachable state each daily row belongs to a key with a total |
| `Pipeline.EarlierRowsFrozen` | internal/runtime/flush.go:254-281 | in every continuation, rows of days before a key's checkpoint never change except by deletion |
| `Pipeline.RecentRowsStay` | internal/storage/storage.go:640-643 | no run deletes a row that is at most 400 days old at its end |
| `Pipeline.OldRowsGo` | internal/storage/storage.go:553-568 | a prune keeps exactly the rows that are at most 400 days old |
| `Pipeline.InterfaceNamesStayEmpty` | internal/runtime/flush.go:120-124 | no reachable table has a row with an interface name |
| `Pipeline.ReachableInv` | internal/runtime/flush.go:106-288 | the invariant tying checkpoints, totals, daily rows, pruned rows and last readings holds in every reachable state |
| `Conservation.OneDateGrowth` | internal/runtime/flush.go:106-288 | from any state, within one date and through restarts, total and daily row grow alike: by the growth of the booked reading plus 2^64 for every fall |
| `Conservation.ReachableSound` | internal/runtime/flush.go:114-178 | in every reachable state the counters hold what the handlers added, and what a walk has seen is what it checkpointed |
| `Conservation.TrafficSinceRestart` | bpf/ingress.c:22-39 | in every run the traffic of a MAC at an interface is what its frames since the last restart count, by their own fields |
| `Conservation.ChainKept` | internal/ebpf/map.go:51-67 | within one date and map lifetime checkpoint, reading and live counter never overtake each other, although the fields of a reading are copied one by one while handlers keep adding; so no reading falls |
| `Conservation.ConservationSince` | internal/runtime/flush.go:106-288 | from any state in which checkpoint and counter are in order: total and daily row grow exactly as the booked reading, which stays within the live counter and the traffic presented |
| `Conservation.OneDateConservation` | internal/runtime/flush.go:106-288 | on one date from an empty database, for every interleaving: total and daily row are equal and exceed the checkpoint by 2^64 per fall; with one map lifetime, no replaced counter and traffic below 2^64 all three agree and never exceed the traffic presented |
| `Conservation.WalkCatchesUp` | internal/runtime/flush.go:114-178 | while handlers keep running and across dates: once a walk has committed a key, its checkpoint is at least what the counter was at any moment before the walk and at most what it is now |
| `Conservation.WalkBooksBetween` | internal/runtime/flush.go:114-178 | within one date the total has then grown to at least what was counted before the walk and at most what is counted now |
| `Conservation.AtomicInsertionReplacesNothing` | bpf/ingress.c:27-31 | in every run in which lookup and insertion are atomic no counter is ever replaced |
| `Conservation.AtomicInsertionConserves` | bpf/ingress.c:27-39 | in such a run of one date and map lifetime total, row and checkpoint agree and never exceed the traffic |
| `FullFlush.OneKeyCommitsCounter` | internal/ebpf/map.go:51-67 | fetching a key, copying its six fields with no handler step in between and committing books exactly the live counter in one transaction |
| `FullFlush.WalkCommitsCounters` | internal/runtime/flush.go:114-178 | a walk over any list of keys, repetitions included, commits the live counter of each and leaves the kernel as it was |
| `FullFlush.CommittedIsTraffic` | internal/runtime/flush.go:114-186 | once the walk has committed the live counter and no handler is in flight, the booked reading plus lost packets is all traffic presented for the key |
| `FullFlush.FullFlushBooks` | internal/runtime/flush.go:106-186 | from any state, after any run within one date, an undisturbed flush has booked the traffic of the map that was not lost, less the reading booked at the start, plus 2^64 per fall |
| `FullFlush.FullFlushIsExact` | internal/runtime/flush.go:106-186 | within one map lifetime and starting with checkpoint and counter in order, nothing falls and that is exact; without refused packets nothing is lost |
| `FullFlush.FirstDateIsExact` | internal/runtime/flush.go:106-186 | from an empty database, total and daily row under (empty name, interface index, MAC) plus lost packets are what the arrived frames of that MAC count; without refused packets nothing is lost |
| `FullFlush.RestartExactIffNothingBooked` | internal/runtime/flush.go:133-154 | over any run of one date after a restart and an undisturbed flush, total and daily row have grown by exactly the new traffic that was not lost, if and only if no reading of that date was booked in the field before (for a counter not replaced since the restart and traffic below 2^64) |
| `FullFlush.RestartSwallowsBookedReading` | internal/runtime/flush.go:133-142 | if every write is accepted, the growth falls short of the new traffic by exactly the reading booked before the restart |
| `FullFlush.RestartedIsSound` | internal/runtime/flush.go:106-186 | every reachable state, restarted, satisfies the premises of the two laws above |
| `FullFlush.RestartSameDateWraps` | internal/runtime/flush.go:133-142 | a run from an empty database (packet, flush, restart, shorter packet, flush) in which the delta wraps: the total would end 18446744073709551616 above the second packet, by a write that is refused |
| `FullFlush.RestartSameDateSwallows` | internal/runtime/flush.go:133-142 | the same run with a second packet that is not shorter: every write of all six fields is accepted, and only the second packet is in the total |
| `Collector.Repository.PersistAll` | internal/runtime/flush.go:189-288 | checkpoint set, total and bucket accumulated, or nothing changed |
| `Collector.Repository.PruneDaily` | internal/storage/storage.go:553-568 | deletes exactly the rows before the cutoff text and reports their number; a failure changes nothing |
| `Collector.Repository.PruneBefore` | internal/storage/storage.go:640-643 | with the text of a day as cutoff, exactly the rows of earlier days go |
| `Collector.MapIterator.constructor` | internal/ebpf/map.go:41-49 | starts before the first key |
| `Collector.MapIterator.Next` | internal/ebpf/map.go:51-67 | delivers the entries before the first failure in order, then stays exhausted; the current key is the last delivered one |
| `Collector.FlushLoop.BookReading` | internal/runtime/flush.go:126-177 | one pass of the walk books its reading or leaves the tables alone |
| `Collector.DeliveredWholeFeed` | internal/ebpf/map.go:51-67 | all entries are delivered if and only if no answer is a failure |
| `Collector.FlushLoop.Flush` | internal/runtime/flush.go:106-186 | books the delivered readings up to the first database failure; reports that failure and no iterator failure; mock mode does nothing |
| `Collector.IteratorFailureIsSilent` | internal/runtime/flush.go:114-186 | a failing lookup hides the entries behind it and the flush still reports success |
| `Collector.FlushLoop.Tick` | internal/runtime/flush.go:92-99 | a failed tick keeps the booked prefix, records the error and not the time; a successful one clears the error; mock mode changes nothing |
| `Collector.TickFailsThenRetries` | internal/runtime/flush.go:93-99 | a failed tick and the next successful one leave what one undisturbed flush would |
| `Collector.HousekeepingLoop.RunOnce` | internal/runtime/housekeeping.go:99-128 | a daily row stays, unchanged, if and only if it is at most 400 days old; totals and checkpoints are never touched; records the text of the day 400 days before, the run and the error; without a repository does nothing |
| `Shutdown.ReachableInv` | internal/runtime/flush.go:54-102 | the protocol invariant holds in every run |
| `Shutdown.ShutdownIsSafe` | internal/runtime/flush.go:54-102 | with one Start, each channel is closed at most once, flushes never overlap, one Stop wins and flushes only after the loop exited, and a loop exits only when stopped or cancelled |
| `Shutdown.OnlyForward` | internal/runtime/flush.go:54-102 | in every run a caller of Stop only moves forward, so it flushes at most once, and a loop that left its select never flushes again |
| `Shutdown.ClosesTwiceIffStartedTwice` | internal/runtime/flush.go:44-80 | a run can go on without a further Start to close a channel twice if and only if it contains more than one Start |
| `Shutdown.FlushesOverlapIff` | internal/runtime/flush.go:44-102 | a run can go on without a further Start to overlapping flushes if and only if two loops are live, or one is beside another loop while a final flush is ahead (which books a delta twice, see `Store.OverlappingFlushesBookTwice`) |
| `Shutdown.LoopsAreStarts` | internal/runtime/flush.go:44-51 | there is one loop per Start |
| `Shutdown.SecondStartRuns` | internal/runtime/flush.go:44-102 | a run from a fresh loop that closes a channel twice and one with overlapping flushes, each with two Starts |
| `Shutdown.StopReachesFinalFlush` | internal/runtime/flush.go:64-74 | a waiting Stop and an idle loop reach the final flush in three steps |
| `MacText.FilterMeansMac` | internal/http/http.go:200-203 | for every accepted filter, case-folded equality with a printed MAC holds exactly if the filter denotes that MAC |
| `MacText.MacToStringRoundTrip` | internal/http/http.go:185-187 | printed MACs match the filter syntax, parse back, and are injective |
| `MacText.MacLayout` | internal/http/http.go:185-187 | two lower-case hexadecimal digits per octet in order, with colons in between, 17 characters |
| `MacText.FilterLayout` | internal/http/http.go:18 | an accepted filter has 17 characters, hexadecimal digits of either case in pairs with colons in between, and denotes the octets so written |
| `Windows.Page` | internal/http/http.go:199-227 | min(limit, max(0, n - offset)) entries, the slice from offset |
| `Windows.PagesTile` | internal/http/http.go:205-212 | consecutive pages tile the list |
| `Windows.PassesIffWanted` | internal/http/http.go:200-203 | for an accepted filter a row passes if and only if its MAC is the one the filter denotes, or the filter is empty |
| `Windows.QueryAll` | internal/http/http.go:189-230 | the page of the filtered totals in order; for an accepted filter these are exactly the rows of the MAC it denotes, or all, in the order of the table |
| `Windows.ListingOrder` | internal/storage/storage.go:496-513 | the scan of the totals goes by interface name, then index, then the bytes of the MAC |
| `Windows.TotalListingUnique` | internal/storage/storage.go:496-513 | the ordered scan of the totals is unique, so successive pages belong to one list |
| `Windows.Aggregate` | internal/http/http.go:258-293 | one record per key with a matching row, each field the 64-bit sum of that key's rows; for an accepted filter the keys are those with a row and the MAC it denotes, or all |
| `Windows.Paginate` | internal/http/http.go:295-311 | the page of the records in the order the map is walked |
| `Windows.QueryDateRange` | internal/http/http.go:252-312 | for any walk order of the n keys with a matching row, the page has min(limit, max(0, n - offset)) records with distinct keys, each holding the sums of its key; for an accepted filter the keys are those of the MAC it denotes, or all |
| `Windows.WindowRange` | internal/http/http.go:232-250 | the text bounds of a window select a row dated up to today if and only if it is less than 1, 7 or 30 days old, or of the same year and month |
| `Windows.ScanIsWindowSum` | internal/http/http.go:232-250 | a scan with a window's bounds adds up to the key's rows on exactly those days |
| `Windows.QueryWindow` | internal/http/http.go:232-312 | today, 7days, 30days or month: the page shows the keys with a live row on a day of the window and the asked MAC, each with its sums over exactly those days and the name of the window |
| `Windows.BalancedRowsGiveBalancedRecords` | internal/http/http.go:272-278 | total = ingress + egress survives aggregation, modulo 2^64 |
| `Windows.TextListingIsDayListing` | internal/storage/storage.go:436-456 | the text range selects exactly the rows between the two days |
| `Windows.ListingSum` | internal/http/http.go:265-293 | adding up a scan row by row is the sum of the key's live rows over the days of the window |
| `Windows.WindowsNest` | internal/http/http.go:232-250 | for every reachable database and text-bounded scans, the records shown for today, 7days, 30days, all and for today, month, all are ordered field by field, and a key shown by one is shown by the next |
| `Windows.PruneKeepsListing` | internal/storage/storage.go:553-557 | pruning leaves a scan as it was if and only if no scanned row is older than the cutoff |
| `Windows.RetentionSparesWindows` | internal/http/http.go:232-250 | pruning at 400 days never changes the scan of a today, 7days, 30days or month query |
| `Windows.RetentionSparesSums` | internal/storage/storage.go:640-643 | nor the sum over the days of any window |
| `Windows.InterfaceFilterMatchesNothing` | internal/storage/storage.go:440-447 | in every reachable database an interface filter matches no row |
| `Attachment.LinksAccountedFor` | internal/ebpf/attachment.go:98-198 | over any operations, Attached means a held link, no link is closed twice, and each link is held, closed or orphaned |
| `Attachment.OrphanedOnlyByFailedResolve` | internal/ebpf/attachment.go:76-81 | a link is orphaned exactly when its interface fails to resolve while attached |
| `Attachment.OrphansIffResolveFails` | internal/ebpf/attachment.go:75-81 | over any operations, a link is orphaned if and only if some interface failed to resolve while attached |
| `Attachment.AllClosedIffNoOrphans` | internal/ebpf/attachment.go:208-239 | with nothing attached, every link was closed once if and only if none was orphaned |
| `Attachment.AllClosedIffNeverUnresolved` | internal/ebpf/attachment.go:75-198 | after any operations that leave nothing attached, every link was closed exactly once if and only if no interface failed to resolve while attached |
| `Attachment.FailedResolveLeaks` | internal/ebpf/attachment.go:221-225 | an example of such a leak |
| `Attachment.AttachmentManager.GetDirectionState` | internal/ebpf/attachment.go:260-274 | the state of a direction |
| `Attachment.AttachmentManager.SetDirectionState` | internal/ebpf/attachment.go:241-258 | replaces one direction's state and no other |
| `Attachment.AttachmentManager.MarkDirectionFailed` | internal/ebpf/attachment.go:208-239 | the stored state is failed with the link it had |
| `Attachment.AttachmentManager.AttachOne` | internal/ebpf/attachment.go:98-145 | attaches a direction unless it is attached already; the stored state is the reported one, with the new link exactly on success |
| `Attachment.AttachmentManager.AttachIface` | internal/ebpf/attachment.go:75-96 | attaches the available directions and reports their stored states, or stores both as failed with the links they had if the interface does not resolve |
| `Attachment.AttachmentManager.DetachOne` | internal/ebpf/attachment.go:158-189 | closes a held link once and forgets it, also when Close fails; stores and reports detached if it closed and failed if not; a direction without a held link keeps its state |
| `Attachment.AttachmentManager.DetachIface` | internal/ebpf/attachment.go:147-156 | both directions, ingress first, a result for each, and the stored states as reported |
| `Attachment.AttachmentManager.DetachAll` | internal/ebpf/attachment.go:191-198 | nothing stays attached; every held link is closed exactly once more, no other link is; one result per interface and direction, failed if and only if its link did not close; every stored state is the reported one, or unchanged where no link was held |
| `Service.NoteFailures` | internal/runtime/runtime.go:87-96 | the name is appended once if some direction failed |
| `Service.Service.constructor` | internal/runtime/runtime.go:30-45 | a fresh service is healthy with an empty manager whose links are in order |
| `Service.Service.StartIface` | internal/runtime/runtime.go:65-106 | an interface lands in the attached or failed list according to the answers it got; the manager is as after starting that interface, links in order |
| `Service.Service.StartIfaces` | internal/runtime/runtime.go:65-106 | every interface is listed, for distinct names as the environment answered; links were orphaned if and only if an interface vanished |
| `Service.Service.Start` | internal/runtime/runtime.go:47-127 | every interface is listed; degraded exactly if some failed, which needs allow_partial and one attached; otherwise healthy with all attached; for distinct names the lists say exactly what the environment answered; a link is orphaned if and only if an interface vanished |
| `Service.Service.Stop` | internal/runtime/runtime.go:129-163 | nothing stays attached, every held link is closed once more, both directions of every configured interface in the table are detached without a link, and other interfaces are as detaching left them |
| `Service.StartOneFacts` | internal/runtime/runtime.go:65-106 | starting one interface orphans a link if and only if it is up and does not resolve; otherwise it is up afterwards exactly if it was or could be attached |
| `Service.AsConfiguredStep` | internal/runtime/runtime.go:65-106 | after each configured interface, links were orphaned if and only if one vanished, and otherwise exactly those that could be attached are up |
| `Service.VanishingExample` | internal/runtime/runtime.go:65-106 | an interface listed twice that is gone the second time |
| `Service.StartThenStop` | internal/runtime/runtime.go:47-163 | start and stop of a fresh service: every link was closed exactly once if and only if no interface is configured again and unresolvable after it could be attached, in particular for distinct names |

## Left out

- Column overflow: database columns are unbounded naturals; sums beyond SQLite's 63-bit integers, WAL and busy timeouts are not modelled. A transaction happens or does not. The driver's refusal of parameters from 2^63 on is a condition on runs (`Pipeline.Accepted`), not part of a step.
- Word tearing: a counter is copied field by field while handlers keep adding, but each 64-bit field is read in one step.
- Cell reuse: a cell of the kernel map is not reused while a handler holds a pointer to it.
- Enumeration by the kernel: which keys NextKey yields is a parameter; no claim that a walk meets every key.
- Dates outside the years 0000 to 9999, a request in the first 30 days or a prune in the first 400 days of the year 0000, and a date that runs backwards. A request uses one date.
- The standard listings: `ListDaily` and `ListTotals` are characterised (each matching row once; totals in key order), the SQL engine is not modelled.
- Windows.WindowsNest: is about scans that succeed; a total of 2^64 or more cannot be scanned into unsigned integers.
- Timestamps: `updated_at` is not stored.
- Service.Service.Start: loading the object file and raising the memory limit are not modelled; the branch for missing programs outside mock mode cannot be reached, because having no program is what mock mode means.
- Stand-alone `UpsertDaily` and `UpsertTotal`, `GetDaily`, `GetTotal` and `ListCheckpoints`: used by tests or as an accessibility probe only.
- HTTP routing, JSON, query-string parsing, health and status handlers, staleness, configuration, bootstrap validation, loader, packaging: plumbing that would only add easy members.
