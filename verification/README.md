# Verified model of the uptime monitor agent

The agent keeps a local mirror of the checks assigned to it, runs each of them on a
time grid shared by the whole fleet without talking to the other monitors, buffers
every result in SQLite and drains the buffer to a server. This project states what
that machinery is for and proves it.

* **The grid** (`Fnv`, `Schedule`, `ScheduleLoop`): every monitor computes its own
  phase from its rank, the interval and the 32-bit FNV-1a hash of the guid, in which
  every byte counts; the grids partition time exactly, and a goroutine that walks one
  neither drifts, bursts nor targets a slot twice. Integer arithmetic is int64 with
  Go's truncated `%`.
* **The agent as a state machine** (`Agent`, with `AgentSafety`, `Delivery`,
  `Wakeup`, `Recovery`, `Tracking`, `Counterexamples`, `Alone`, `DrainAlone`): any
  number of executions, the reporter, the connectivity gate, the sync and import
  writers, crashes and restarts, interleaved step by step.
  Theorems quantify over every sequence of events; an event that is not possible
  changes nothing. `Alone` and `DrainAlone` show that the machine's steps, played
  without interference, are the sequential `Execution.Execute` and
  `Reporter.ReportOnce`; `Recovery` says what the timer, a shutdown, a restart, a lost
  reply, a purge and the gate's recheck bring about, and `Tracking` that the agent's
  runs are those of `Attribution`.
* **The database** (`Tables` as values, `Stores.Store` as the object that updates
  them; `RoundTrip`, `Mirror`, `DeltaSync`, `Sync`, `Attribution`, `Reporter`): what is
  put in comes out column by column, where each column of a mirrored check comes from,
  that delta sync opens no gap, under which guid a result is uploaded, and the drain
  loop in closed form.
* **The schedule of goroutines** (`Runners`, and `Refreshing` for a whole tick of it),
  **the gate** (`Gate`) and one run of a check (`Execution`), as objects with methods.
* **Encodings** (`Utf8`, `Text`, `Timestamp`): truncation on arbitrary bytes, against
  UTF-8 as sections 3 and 4 of RFC 3629 define it; timestamps whose text order is
  time order (section 5.1 of RFC 3339).
* **Two loops over sets**: `Migrate` and `Restricted`.

Values are modelled by datatypes and functions; what the source updates in place is a
class whose methods are proved against those functions. Instants are nanoseconds since
the Unix epoch; Go strings are byte sequences.

## Where the code falls short of its description

* *The mirror equals the server's snapshot* holds of every row's presence and metadata,
  but not of all content. A check whose payload carries no URL keeps whatever content
  an earlier version left (`DeltaSync.ContentDependsOnHistory`). One application gives
  such a row the server's content iff the new version carries any, or there was no row,
  or the row had no URL (`DeltaSync.AppliedContentIff`); over runs, iff the current
  version carries content or none that did was applied here since the guid's last
  applied removal (`DeltaSync.NoGap`).
* *Results go out under their own check's guid* fails when SQLite reuses a rowid:
  `checks.id` has no AUTOINCREMENT and a deletion leaves the buffer alone. It fails for
  a result already buffered (`Attribution.ReuseMisattributes`) and for one whose lookup
  is done and whose INSERT is not (`Counterexamples.LateInsertMisattributes`).
  `Attribution.AlwaysAttributedIff` and `Attribution.NeverMisuploadedIff` say exactly
  which runs are free of it, by conditions on each insert as it comes.
* *A transition is reported at once* fails for a result whose check is removed before
  the listing and whose rowid then goes to another check
  (`Counterexamples.ReuseStrands`); `Wakeup.CoveredIff` gives the condition.
* *The gate shuts when the monitor's own uplink is down* fails when a reconcile cancels a
  check while it runs: its failure looks like a dead uplink, and the probe fails under
  the same cancelled context (`Counterexamples.CancelShutsGate`). `AgentSafety.ShutIff`
  says when the gate is shut.
* The address rule of `model/restricted.go` lets a zone change the verdict of three
  kinds of IPv6 address, `::` and those in the two reserved IPv6 prefixes
  (`Restricted.ZoneChangesVerdictIff`).
* A drain of an exact multiple of 500 results lists once more after its last post; if
  that listing fails, the drain reports an error although everything was sent
  (`Reporter.FiveHundredAndAnError`, and `Reporter.ErrsWithNothingLeftIff` for when).

## Model

| member | source | states |
|---|---|---|
| Base.TruncModEuclid | monitor/schedule.go:68-74 | Go's truncated remainder, corrected by the divisor when negative, is the Euclidean remainder |
| Fnv.EveryByteMatters | monitor/schedule.go:41-44 | two guids that differ in one byte, wherever it is, hash differently |
| Fnv.Published | monitor/schedule.go:41-44 | the hash has the published 32-bit FNV-1a values of the empty string, "a" and "foobar" |
| Schedule.Mod64 | monitor/schedule.go:68-74 | the result is the Euclidean remainder for every dividend, negative ones included |
| Schedule.LoneMonitor | monitor/schedule.go:17-23 | a count of one, zero or below degenerates to the check's own interval |
| Schedule.PhaseExact | monitor/schedule.go:36-45 | for any monitor count, those below one included, the phase without overflow is rank spacing plus hash rotation, reduced mathematically |
| Schedule.OwnsIff | monitor/schedule.go:36-45 | a second lies on a rank's grid iff it is a multiple of the interval from the hash offset, at a distance congruent to the rank |
| Schedule.FleetPartition | monitor/schedule.go:17-45 | a rank owns a second iff it is congruent to the guid's hash modulo the interval and it is that rank's turn |
| Schedule.ExactlyOneOwner | monitor/schedule.go:17-45 | every slot second has exactly one owner among ranks 0..n-1, no other second has any |
| Schedule.OwnersRotate | monitor/schedule.go:25-45 | one interval later is again a slot, owned by the next rank cyclically |
| Schedule.WindowCoverage | monitor/schedule.go:10-45 | any window of one interval has exactly one slot, any window of one effective interval exactly one per monitor, wherever it starts |
| Schedule.NextSlotIsLeast | monitor/schedule.go:47-63 | the first target is not before now, is in a slot second, and no earlier second is one; it is now itself or a whole second |
| Schedule.WithoutGrid | monitor/runner.go:432-438 | an effective interval of zero or below has no grid: phase zero, the first target is now, and the step is one second |
| Schedule.NoOverflow | monitor/schedule.go:17-45 | up to a day's interval and 106751 monitors, any count below included, no product or sum of the schedule leaves int64 |
| Schedule.StepExactIff | monitor/runner.go:432-437 | the nanosecond step is the effective interval iff that is at most 9223372036 seconds |
| Schedule.OneMoreOverflows | monitor/runner.go:432-437 | 106752 monitors at the longest interval wrap the step, which the fallback then makes one second |
| ScheduleLoop.SkipForward | monitor/runner.go:454-455 | terminates at the first point of the progression in the future by the clock reading taken when it was tried, for any readings |
| ScheduleLoop.ScheduleLoop | monitor/runner.go:427-457 | the first target is the first slot, each later one comes of one skip, and the check ran once per target passed plus the immediate run |
| ScheduleLoop.NeverDrifts | monitor/runner.go:415-457 | however often slots were missed, every target lies in a slot second of this monitor's grid, with the first one's sub-second part |
| ScheduleLoop.NeverRepeats | monitor/runner.go:450-455 | two targets of a goroutine are at least one step apart |
| ScheduleLoop.NeverBursts | monitor/runner.go:450-455 | for one clock reading the next target is the least future point, one step ahead at most: missed slots are not made up |
| Utf8.EncodeThenDecode | model/model.go:518-521 | encoded characters are well formed and decode to themselves |
| Utf8.DecodeThenEncode | model/model.go:518-521 | well-formed bytes are the encoding of exactly the characters counted in them |
| Utf8.SanitizeIsValid | model/model.go:522-523 | any bytes become well formed |
| Utf8.SanitizeKeepsValid | model/model.go:522-523 | well-formed content is left alone |
| Utf8.SanitizePrefix | model/model.go:518-523 | a well-formed prefix passes through and what follows is treated as if it stood alone |
| Utf8.SanitizeRun | model/model.go:518-523 | a whole run of bytes that start no character becomes one replacement |
| Utf8.ReplacementCharacter | model/model.go:522-523 | what replaces such a run is the encoding of U+FFFD |
| Utf8.CutAfter | model/model.go:524-531 | the counting loop returns the first maxChars characters, or everything for a negative cap |
| Utf8.TruncateContent | model/model.go:522-532 | on arbitrary bytes, the method computes the truncation the lemmas below are about |
| Utf8.TruncationSound | model/model.go:518-532 | the output is well formed, has at most maxChars characters, is a prefix of the sanitised input and encodes its first maxChars characters |
| Utf8.TruncateTwice | model/model.go:522-532 | capping at a then at b is capping at the smaller |
| Utf8.SampledThenCapped | monitor/runner.go:506-508 | the response sampled at 1024 characters, then capped, is one cap of the raw body; a negative limit leaves the sample |
| Text.RenderOrder | model/model.go:552-568 | records of fixed-width decimal fields sort as text exactly as their values do |
| Timestamp.CivilDateOf | model/model.go:568-577 | the calendar date found for a day is a real one and has that day number |
| Timestamp.DateOfDay | model/model.go:568-577 | every real date is found back from its day number |
| Timestamp.ClosedForm | model/model.go:568-577 | the leap-year recursion agrees with the proleptic Gregorian closed form |
| Timestamp.EpochAndBounds | model/model.go:568-577 | the day count used for the Unix epoch is that of 1970-01-01, and years 0 to 9999 end where the instants do |
| Timestamp.Layout | model/model.go:568-577 | the text is year, month and day of a real date joined by hyphens, T, the clock joined by colons, nine digits after a point, Z (section 5.6 of RFC 3339), and those numbers give the instant back |
| Timestamp.TimestampOrder | model/model.go:552-577 | for UTC years 0 to 9999, text order is chronological order, at nanosecond precision, both ways |
| Timestamp.TimestampRoundTrip | model/model.go:570-577 | parsing gives the instant back exactly |
| Timestamp.AnyFraction | model/model.go:570-577 | the parser takes any number of fraction digits: the trimmed text gives the instant back too, and digits past the ninth are dropped |
| Timestamp.SecondOrder | monitor/store.go:417-420 | the whole-second text orders instants by their whole seconds |
| Timestamp.SecondRoundTrip | monitor/store.go:458-462 | a stored ran_at parses to its whole second |
| Timestamp.TrimmedBreaksOrder | model/model.go:562-567 | with a trimmed fraction the later of two instants sorts first iff they share a second and its fraction extends the other's, a whole second having none |
| Checks.SameDefinitionIff | monitor/runner.go:343-346 | two copies of a check run identically iff every column but the update time is the same |
| Checks.DefaultTexts | monitor/store.go:338-341 | the match mode an empty one becomes is `contains`, and the reason of an inverted pass is not empty |
| Tables.ListedAsBuffered | monitor/store.go:417-467 | a result buffered for a check goes on the wire, while the check keeps its rowid, as itself with its time cut to the second, and as nothing else |
| Tables.ImportedColumns | monitor/store.go:338-396 | an import writes each column as given, but an empty match mode as `contains` and a limit as the larger of 0 and itself; with neither it writes exactly what was given |
| Tables.SeededColumns | monitor/store.go:351-396 | the metadata of a row an import creates, column by column: interval 0 becomes 10, a negative detail limit 0, one monitor of rank 0 |
| Tables.CountIsOfUnsent | monitor/store.go:471-477 | the count is the number of distinct results in the buffer not marked sent |
| Tables.PurgeExact | monitor/store.go:500-506 | text comparison selects exactly the sent rows whose whole second precedes the cutoff's |
| Tables.ApplyWriteValid | monitor/store.go:152-199 | every write keeps rowids positive and distinct |
| Tables.WatermarkRoundTrip | monitor/sync.go:62-75 | whatever delta came with it, the time a sync stored is, to the nanosecond, the one the next sync starts from |
| Tables.ValidPurge | monitor/store.go:500-506 | deleting rows keeps the buffer's id order |
| Tables.EligibleSorted | monitor/store.go:441-446 | the rows a listing ranges over are in id order |
| Stores.Store.constructor | monitor/store.go:31-42 | a fresh database is empty, never synced, and valid |
| Stores.Store.AssignId | monitor/migrations/0001_init.sql:2 | an insert gets one above the largest rowid present, not the largest ever given |
| Stores.Store.ApplyChecksDelta | monitor/store.go:103-210 | the whole delta and the new watermark land together, or, failing at any statement, nothing changes |
| Stores.Store.GetLastSyncedAt | monitor/store.go:83-97 | reads back exactly the instant any committed sync wrote, the epoch when none has, and an error for text no sync writes |
| Stores.Store.ImportPrivateCheck | monitor/store.go:330-401 | refused exactly without a guid; otherwise one row changes, the rest of the database does not, and its content is the given one when the match mode is named and no limit is negative |
| Stores.NameOrder | monitor/store.go:238-243 | names compare by the first byte that differs, a proper prefix first |
| Stores.Store.ListEnabledChecks | monitor/store.go:238-268 | exactly the enabled rows, no id twice, in byte order of their names; or nothing, when the query fails |
| Stores.Store.ResolveCheck | monitor/store.go:413-416 | finds the rowid of the guid, which no other guid has, or fails |
| Stores.Store.InsertResult | monitor/store.go:417-424 | appends one unsent row with a fresh id under the rowid it is given, there still or not, or fails and changes nothing |
| Stores.Store.BufferResult | monitor/store.go:412-425 | fails iff the guid is unknown or either statement fails, changing nothing; otherwise one unsent row under that guid's rowid is appended |
| Stores.Store.ListUnsent | monitor/store.go:441-467 | the first rows, in id order, that are unsent and joined, each in its check's guid; fails exactly when one of them has an unreadable time |
| Stores.Store.CountUnsent | monitor/store.go:471-477 | the number of distinct results not yet marked sent, joined or not |
| Stores.Store.MarkSent | monitor/store.go:482-496 | flags exactly the named rows and changes nothing else |
| Stores.Store.PurgeSentOlderThan | monitor/store.go:500-506 | deletes exactly the purgeable rows and changes nothing else |
| RoundTrip.BufferThenList | monitor/store.go:412-467 | a result buffered, then listed, comes last with its own guid, verdict, status, latency and texts, and its time to the second |
| RoundTrip.ImportThenList | monitor/store.go:238-401 | a definition imported, then listed for the runner, has every column it was given; a known check keeps its metadata and id, a new one is one of one monitor |
| Mirror.Provenance | monitor/store.go:110-199 | over any writes: a guid has a row iff written since its removal; content and locally_defined come from the last content-bearing write, metadata from the last sync or the seeding insert |
| Mirror.ImportsAndBareSyncsCommute | monitor/store.go:113-173 | every interleaving of imports and url-less syncs of a guid ends in one row: last import's content, last sync's metadata, first rowid |
| Mirror.OthersUntouched | monitor/store.go:152-199 | writes to other guids leave a row alone |
| DeltaSync.AppliesKeeps | monitor/store.go:103-210 | applying a reply moves the watermark to its time and brings every guid in step with the server as of then |
| DeltaSync.NextKeeps | monitor/sync.go:62-80 | server edits, fetches, applied, dropped or rolled-back replies and imports keep the mirror in step with its watermark |
| DeltaSync.AppliedContentIff | monitor/store.go:152-173 | a never-imported check just applied has the server's content iff its new version carries any, it had no row, or its row had no URL |
| DeltaSync.ContentByHistory | monitor/store.go:114-133 | a never-imported row has a URL iff a version with content was applied since its last removal, and is empty of content otherwise |
| DeltaSync.NoGap | monitor/sync.go:62-80 | over any run, live checks are present with the server's metadata; for guids never imported no other row exists, and content is the server's iff its version carries any or none that did was applied since the last applied removal |
| DeltaSync.ContentDependsOnHistory | monitor/store.go:114-126 | two mirrors at one watermark differ in the content of a check gone private, when only one saw it before |
| DeltaSync.WipedIsEmpty | monitor/store.go:114-126 | the payload of a private definition has every content column at its zero value |
| Sync.SyncOnce | monitor/sync.go:62-80 | succeeds iff the watermark reads, a reply arrives and the transaction commits; then it is applied, otherwise nothing changes |
| Sync.Backoffs | monitor/sync.go:41-59 | the waits are 1, 2, 4, 8, 16 and from then on 30 seconds |
| Sync.WaitForInitialSync | monitor/sync.go:37-60 | waits double from one second up to thirty, and until an attempt succeeds nothing changes |
| Attribution.BookkeepingHolds | monitor/store.go:412-446 | in every run rowids 1..highest are in use or were removed, and every buffered or resolved result names one of them |
| Attribution.ReuseIff | monitor/migrations/0001_init.sql:2 | the next insert reuses a rowid iff the check with the highest one ever given is gone |
| Attribution.InsertKeepsAttributionIff | monitor/store.go:179-199 | one insert keeps attribution right iff no other guid's unsent result, nor one already resolved to that rowid, is waiting for the rowid it gets |
| Attribution.OthersKeepAttribution | monitor/store.go:412-506 | no update, removal, lookup, result, mark or purge misattributes anything |
| Attribution.AlwaysAttributedIff | monitor/store.go:179-467 | over any run attribution is right at every moment, for results on their way in too, iff every insert meets that condition |
| Attribution.NeverMisuploadedIff | monitor/store.go:412-467 | over any run no listing could show a result under a wrong guid iff no check gets a rowid another guid's unsent result waits under and no result lands once another guid has its rowid |
| Attribution.RightGuid | monitor/store.go:433-467 | with rowids never reused, a listed row goes out under the guid it was buffered with, removal between lookup and insert included, and exactly the rows of removed checks are left out |
| Attribution.ReuseMisattributes | monitor/store.go:179-191 | a concrete run lists a result under another check's guid |
| Tracking.RunFollows | monitor/runner.go:459-521 | every interleaving of the agent, restarts included, is a run of the database with its history: same tables, same results on their way in, each result on record with its execution's guid |
| Tracking.ListsRightIff | monitor/store.go:433-467 | in every reachable state a listing would show each result under its execution's guid iff no unsent row waits under another guid's rowid |
| Tracking.ListsRightWhile | monitor/store.go:433-467 | in every interleaving listings are right as long as each insert of a check and of a result meets its condition |
| Tracking.GoesOutRight | monitor/store.go:433-467 | with rowids never reused, in every interleaving an unsent result is listed iff its check was not removed, and goes out as its execution had it |
| Reporter.MarkedBacklog | monitor/store.go:482-496 | marking rows removes exactly them from what is to be listed, keeping the order |
| Reporter.BufferedIsReadable | monitor/store.go:417-420 | what BufferResult stores as a time can be read back |
| Reporter.DrainForm | monitor/reporter.go:88-119 | after k rounds exactly the first 500k rows of the original backlog are marked and the rest remains, and the next listing is its next batch |
| Reporter.PostedInOrder | monitor/reporter.go:88-119 | post i carries batch i of the original backlog, whatever was marked meanwhile |
| Reporter.BatchesJoin | monitor/reporter.go:88-119 | the batches joined are the backlog: no gap and no repeat |
| Reporter.Round | monitor/reporter.go:91-118 | one turn of the loop ends as list length, outcome and `first` say, and marks its batch only if that was confirmed |
| Reporter.ReportOnce | monitor/reporter.go:88-119 | stops at the first fault, a row with an unreadable time included, or after max(1, ceil(n/500)) rounds; exactly the confirmed rounds are marked, and every round posts but one that cannot list |
| Reporter.CleanDrain | monitor/reporter.go:82-119 | without a fault and with readable times exactly max(1, ceil(n/500)) posts leave nothing eligible unsent |
| Reporter.ErrsWithNothingLeftIff | monitor/reporter.go:91-118 | a drain of a non-empty backlog errs with nothing left iff the backlog is a multiple of 500, every round was confirmed and the one listing more fails |
| Reporter.FiveHundredAndAnError | monitor/reporter.go:91-118 | five hundred rows, all sent and marked, and an error |
| Gate.ConnectivityGate.constructor | monitor/gate.go:76-87 | a new gate is online with no outage |
| Gate.ConnectivityGate.Probe | monitor/gate.go:146-163 | reachable iff some target answers, or the replacing probe does, and the context was not cancelled |
| Gate.ConnectivityGate.Verify | monitor/gate.go:120-139 | returns this probe's finding, and afterwards the gate is online iff it was reachable |
| Gate.GateHistory | monitor/gate.go:108-139 | after any verdicts the gate is online iff the last one was, and the last outage is the latest completed run of unreachable verdicts, timed end to end |
| Runners.Runner.CheckStatusTransition | monitor/runner.go:291-297 | reports a change iff the verdict is the first for the id or differs, and records it |
| Runners.Runner.ForgetStatus | monitor/runner.go:301-305 | drops just that id's verdict |
| Runners.Runner.Schedule | monitor/runner.go:383-406 | one listed check: its goroutine kept, or replaced and the stale one cancelled, or started |
| Runners.Runner.Unschedule | monitor/runner.go:408-414 | each id not listed loses its entry, its goroutine and its status, in whatever order the map is walked |
| Runners.Runner.Reconcile | monitor/runner.go:373-414 | scheduled keys become the enabled ids, one live goroutine each and none besides, running the listed columns; entries are kept iff they are the same; a failed listing changes nothing |
| Runners.EditIsPickedUp | monitor/runner.go:319-391 | after a readable listing the live goroutine of each check has the listed id, guid, content, metadata and deleted flag; it is the one there before iff none of these differed, and otherwise that one is cancelled |
| Runners.Runner.Shutdown | monitor/runner.go:353-357 | every goroutine is cancelled |
| Refreshing.Refresh | monitor/runner.go:359-414 | after a tick exactly the store's enabled rows have a live goroutine, each with its row's id, guid, content and metadata; a failed query changes nothing |
| Runners.ImmediateIffEntered | monitor/runner.go:390-405 | over any reconciles a check was run immediately exactly as often as it entered the schedule, never for a restart |
| Runners.ScheduleIsLastListing | monitor/runner.go:343-414 | whatever failed since, keys and definitions are those of the last listing read |
| Execution.Execute | monitor/runner.go:459-521 | each outcome iff its cause, on the raw columns; a result is discarded iff it failed with no status and no sample and the probe was cancelled or unanswered; nothing but the gate changes unless the result is kept, which also notes the verdict and signals iff it changed |
| Execution.CookedVerdict | monitor/runner.go:492-508 | the buffered verdict is raw success XOR invert; error and sample are the raw ones, or the reason of an inverted pass, cut to the check's limit; other fields untouched |
| AgentSafety.GoCounts | monitor/runner.go:465-470 | a step takes a slot on entering the semaphore and gives it back on every way out |
| AgentSafety.SlotsBounded | monitor/runner.go:274-282 | in every interleaving the slots taken are the executions past the semaphore, at most as many as configured |
| AgentSafety.VerdictsHold | monitor/runner.go:474-490 | in every interleaving each execution's and each written result's clearance is in order |
| AgentSafety.GateSafety | monitor/runner.go:459-534 | at most maxConcurrent (20 when not positive) in flight; a result that failed with no status and no sample is on record only after a probe, begun after it, that answered, and thrown away only after one that did not; any other result is neither probed nor thrown away |
| AgentSafety.ShutIff | monitor/gate.go:120-163 | in every interleaving the gate is shut iff its last verdict came of a probe the internet would not have answered, or whose execution had been cancelled |
| Counterexamples.CancelShutsGate | monitor/runner.go:383-388 | a check cancelled while it runs shuts the gate although the internet answers every probe |
| Delivery.MarkedSound | monitor/store.go:479-496 | marking a confirmed batch keeps every marked row confirmed and every result accounted for |
| Delivery.NextKeeps | monitor/reporter.go:88-119 | every step of any goroutine, crash included, keeps the accounting |
| Delivery.AtLeastOnce | monitor/reporter.go:20-22 | in every run each result ever buffered is, unchanged, still unsent in the table or was confirmed; sent rows were confirmed, confirmed ones reached the server |
| Delivery.UnsentUntilConfirmed | monitor/store.go:479-506 | a row unsent at some point is still there after any more events, or was confirmed: none is deleted unsent |
| Wakeup.SignalledNext | monitor/runner.go:514-520 | a transition noted is about to be signalled or has been |
| Wakeup.HeardNext | monitor/reporter.go:49-66 | no step leaves a signalled, unsent row without a token, a pass that reaches it, or a failed pass |
| Wakeup.NoLostWakeup | monitor/runner.go:307-317 | in every interleaving an unsent transition row is covered by a token, a pass begun after it that will list it, or such a pass that failed, unless the last short listing of the latest pass found it without a check, and then no pass will reach it |
| Wakeup.CoveredIff | monitor/reporter.go:49-119 | an unsent transition row past its signal is covered iff it was not so passed over, or a token or a failed pass stands in |
| Wakeup.UncoveredIff | monitor/store.go:441-446 | a listing leaves a waiting row uncovered iff it was short and found the row without a check |
| Counterexamples.ReuseStrands | monitor/store.go:179-191 | a concrete run strands an unsent, joined transition row with no signal and no failed pass |
| Counterexamples.LateInsertMisattributes | monitor/store.go:412-424 | a delta between lookup and insert makes a result listed under the check that took the rowid |
| Alone.AloneIs | monitor/runner.go:459-521 | an execution's steps without interference end in one outcome fixed by gate, probe, cancellation, lookup and insert, with its slot given back |
| Alone.AloneIsExecute | monitor/runner.go:459-521 | running the sequential execute on objects in the agent's state ends where those steps do: same database, verdicts noted, gate and signal |
| DrainAlone.PassIsReportOnce | monitor/reporter.go:49-119 | a pass without interference or fault ends after its last batch in the database reportOnce reaches, with nothing eligible unsent and no error |
| DrainAlone.ReachedSound | monitor/store.go:458-462 | in every reachable state the tables are valid and every stored time parses, so no listing fails on a row |
| Recovery.FinalNext | monitor/reporter.go:49-79 | the reporter leaves only through a final pass, and only a shutdown makes a pass final |
| Recovery.TimerDrains | monitor/reporter.go:55-65 | in any reachable state the timer alone, or a signal, begins a pass that without interference leaves nothing eligible unsent and waits again |
| Recovery.StopDrains | monitor/reporter.go:68-79 | a shutdown, without interference, leaves nothing eligible unsent before the reporter is gone |
| Recovery.LostReplyComesAgain | monitor/reporter.go:108-110 | a batch whose reply is lost has reached the server and stays unsent, to be listed again |
| Recovery.PurgeClears | monitor/store.go:500-506 | over any run, a purge removes exactly the sent rows whose execution lies in a second before the cutoff's |
| Recovery.RecheckReopens | monitor/gate.go:166-183 | a shut gate reopens at a recheck that answers, its outage timed from when it shut |
| Recovery.NewStatusSignals | monitor/runner.go:291-297 | a noted verdict is followed by a signal iff the check has none on record or a different one, and no other check's is touched |
| Recovery.ForgetIsOne | monitor/runner.go:301-305 | forgetting one status leaves the others |
| Recovery.LeavesWaitingIff | monitor/runner.go:465-469 | an execution waiting for a slot leaves without one iff its context is cancelled |
| Recovery.CrashThenDrain | monitor/reporter.go:68-79 | after a crash at any point the database is as it was, and the timer alone drains what was eligible |
| Recovery.GoesOutAs | monitor/runner.go:492-512 | over any run, while its check keeps its rowid a listed row has its execution's guid, second, status and latency, the verdict flipped for an inverted check, the texts cut to its limit |
| Migrate.NamesInOrder | internal/migrate/migrate.go:64-74 | the names gone through are exactly the directory's files, strictly in byte order |
| Migrate.Database.Apply | internal/migrate/migrate.go:59-121 | stopped before any name, recorded or not, exactly the unrecorded names before it are applied in order; no error iff it got through all of them |
| Migrate.CrashSafe | internal/migrate/migrate.go:90-119 | after any interrupted runs the recorded migrations are the prefix the furthest run reached, and the data is that prefix applied once each |
| Migrate.CompletedEqualsOneRun | internal/migrate/migrate.go:59-121 | a completed run equals one uninterrupted run on a fresh database, and running again, to any point, changes nothing |
| Restricted.RefusalsV4 | model/restricted.go:120-167 | an IPv4 address is refused iff it lies in one of fourteen CIDR blocks |
| Restricted.RefusedBlocksDisjoint | model/restricted.go:120-167 | no address lies in two refused blocks of its family |
| Restricted.ReasonOfBlock | model/restricted.go:120-151 | a refused address is refused for the one reason of its block, and what is no address is refused |
| Restricted.MappedSameVerdict | model/restricted.go:121-124 | an IPv4 address and its IPv4-mapped form (section 2.5.5.2 of RFC 4291) get one verdict with one reason, zoned or not |
| Restricted.RefusalsV6 | model/restricted.go:120-167 | an unzoned IPv6 address is refused iff it lies in one of seven blocks, or is mapped and its IPv4 form is refused |
| Restricted.ZoneChangesVerdictIff | model/restricted.go:141-149 | a zone changes the verdict exactly for :: and inside the two reserved IPv6 prefixes |
| Restricted.FirstContainingExact | model/restricted.go:145-149 | comparing leading bits finds a range iff the address lies in its interval |
| Restricted.PinnedDialContext | model/restricted.go:209-246 | nothing is dialled for a host that does not split or resolve or has one refused address; a literal address is dialled itself; otherwise the resolved addresses in order up to the first that connects |

## Left out

- HTTP, TCP and TLS checkers: a checker is an oracle that returns any raw result with a time in years 0 to 9999.
- Client, proxy, status reports, enrolment, flags and printing: a post or fetch succeeds, is refused, or loses its reply.
- The server: only what it promises about `since` and its reported time, that later changes are stamped later, and that a payload without a URL carries no definition at all, is assumed in `DeltaSync`.
- SQL text, locking and the SQLite driver: a statement or transaction is one atomic table update or none; rowids never reach the largest int64.
- JSON of headers, URL parsing, DNS resolution and `RestrictedURL`: decoded maps, parsed hosts and resolved lists are inputs; a header map that fails to encode or decode is not modelled.
- `CheckExportOf`, `ListAllChecks`, `ListPrivateChecks`, identity columns: copying of columns, which would only add easy members.
- Rules of a single branch (`StatusCodeAcceptable`, `ResponseTimeExceeded`, `CertExpiryExceeded`) and jitter.
- Logging and the wording of reasons; that a synthesised reason is not empty is all that is kept of it.
- GetLastSyncedAt: `Timestamp.Parse` accepts the zone Z only, since every writer formats in UTC.
- NextSlotIsLeast: counts in whole seconds; when now is already in a slot second the first target is now itself, fraction included, and the loop carries that fraction on.
- SkipForward: the clock stands still after the last reading given, so that an endless backward clock is excluded; the monotone-clock part of Go's time.Time and overflow of time.Time itself are not modelled.
- NeverRepeats: speaks of one goroutine; a restart within a slot second may run that slot again.
- GateSafety: an execution may still begin after its context is cancelled and may re-add a forgotten id to the status map; neither is excluded by the code, so neither is claimed.
- GateHistory: outages are timed by clock readings taken before the lock, so a length may be negative under concurrency.
- Agent: the goroutines of the schedule are not tied to its executions; any check may be started at any time, which includes every schedule. Each batch is handed over in one step, and its rows are compared as buffered; what they go out as is the subject of `Recovery.GoesOutAs` and `Tracking`.
- Execute: one run without interference; interleavings are the subject of `Agent`.
- AloneIsExecute: a run that gets a slot; one cancelled while it waits for a slot just leaves, in both.
- AlwaysAttributedIff: looks between the statements of one delta too, which no listing can; a delta that touches each guid once, as the server's do, cannot repair a wrong insert of its own.
- CancelShutsGate: a probe whose context is cancelled before it ends is taken to fail; one answered earlier has ended earlier.
