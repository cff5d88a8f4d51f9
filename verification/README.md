# Proofs about the qualification tooling

This project models the part of the repository that replays numeric evidence and
guards shared objects while a qualification runs, and proves what its acceptance
means. The evidence comes from programs that are not trusted; a replay that accepts
it claims that some run of the observed system exists that would have produced it.
Most results here are of that kind: **accepted if and only if such a run exists**,
and, from the other side, **an honest run is never refused**.

The modules follow the program's files; `Wrappers`, `Limits` and `Sets` hold what several share.

* `Sums`, `Histogram`, `Percentile`, `SchedulerWindow`: the power-of-two wait
  histograms. One record, one interval and a whole window are accepted exactly when
  waits exist that explain them, and percentile ranges are tight.
  `SchedulerProducer` models the Go aggregate that produces the rows and proves its
  snapshots acceptable.
* `ScanHistory`, `StandardWindow`: recovery of a scan log from polls that show only
  its last 32 entries.
* `Activity`, `Pressure`: spans bracketed by unchanged kernel observations under
  clock uncertainty, and two-sided bounds on an independently counted producer.
* `VerifierWindow`, `VerifierProducer`: cumulative count, sum and maximum without
  buckets. For log bytes the checks are exact. For durations they are not: the code
  accepts records that no calls produce, `DurationsNotExact` gives one, and
  `DurationsExact` says exactly when accepted rows are possible.
* `OwnedResources`, `OwnedMutations`, `Admissions`, `Processes`: protocols among
  other actors. The cluster, the API and the operating system are classes whose
  methods first let everyone else take any number of steps and may lose an answer
  after taking effect. Ghost logs record what was asked and answered, and every
  property is about those logs.
* `Replacement`, `CpuList`, `Memory`, `SchedulerObservations`: a bijection of nodes
  and routes kept across one machine replacement, a parser inverted by a printer, a
  memory bound over every sample alignment, and telescoping over gaps.

What a check decides is stated twice: once as the predicate that the method evaluates,
and once, independently, over the fields, all pairs of rows, the events or the possible
histories. The lemmas named `...Exact` connect the two for all inputs, in both directions.

Conventions. A raised error is `None`, `false` or a status; the wording of messages is
not modelled. Nanoseconds and bytes are integers. Fields that the source reads from
JSON are typed fields, with the bounds that `integer` and `exact` enforce kept as
predicates where they limit numbers; booleans in numeric fields and unknown keys are
thereby excluded by type. Closed sets of strings are enumerations, with a constructor
for any other text where the source meets one. Deadlines are the number of times the
clock is found before them. Where a row of the table names a method of a class, its
contract gives the new state, and the invariant it keeps is the class's `Valid()`.

Three remarks on the code. The explicit test `left < right` in `bracket_windows` and the
contiguity and positive-denominator checks of `compare_pressure` never fail for
validated input (`BracketOrder`, `CommonContiguous`, `Compare`). The separate duration
checks of `verifier_window` are weaker than their bytes counterpart together with the
two-nanosecond floor (`DurationsExact`). A revocation in `owned_mutations.py` that is
applied while its answer is lost is never undone: `_patch` raises before the `try` that
restores (`RevocationCanStay`; `Suspend` says exactly when).

## Model

| member | source | states |
|---|---|---|
| Sums.Fill | hack/ebpf-active-qualification/scheduler_window.py:47-55 | Discrete intermediate values: every integer between the sum of the lower ends and the sum of the upper ends is the sum of some choice, each element within its own bounds. |
| Histogram.BucketExact | hack/ebpf-active-qualification/scheduler_window.py:28-30 | A wait lies in the range of bucket k if and only if k is its bit length, so the ranges tile the naturals. |
| Histogram.BucketBounds | hack/ebpf-active-qualification/scheduler_window.py:28-30 | Refused exactly outside 0..64; the returned range holds exactly the waits of that bit length. |
| Histogram.SumsOfWaits | hack/ebpf-active-qualification/scheduler_window.py:47-55 | Waits bounded by the maximum number as many as their buckets hold, and sum to something between the two bounds. |
| Histogram.SumsWithMaximum | hack/ebpf-active-qualification/scheduler_window.py:53-54 | If one of the waits is the maximum, its bucket is occupied and the lower bound rises by the maximum less that bucket's lower end. |
| Histogram.Realise | hack/ebpf-active-qualification/scheduler_window.py:47-55 | Every sum between the bounds is attained by waits in those buckets that stay within the maximum. |
| Histogram.RealiseMaximum | hack/ebpf-active-qualification/scheduler_window.py:53-54 | The same with one wait pinned to the maximum. |
| Histogram.ComputeSumBounds | hack/ebpf-active-qualification/scheduler_window.py:47-55 | The loop returns the bounds that the realisation lemmas are about. |
| Histogram.AcceptedIsRealisable | hack/ebpf-active-qualification/scheduler_window.py:58-74 | An accepted record is produced by some finite sequence of waits: its buckets, count, sum and maximum. |
| Histogram.RealisableIsAccepted | hack/ebpf-active-qualification/scheduler_window.py:58-74 | Waits within the elapsed time and the numeric limits are never refused. |
| Histogram.CheckHistogram | hack/ebpf-active-qualification/scheduler_window.py:58-74 | Accepts if and only if, within the count and 64-bit limits, some waits of at most the elapsed time produce exactly this record. |
| Percentile.SortedIsSorted | hack/ebpf-qualification/idle_evaluate.py:55-57 | The specification's sort is ascending and a permutation. |
| Percentile.RankInRange | hack/ebpf-qualification/idle_evaluate.py:55-57 | The exact rank, the integer ceiling of n * percent / 100, is a position of the list. |
| Percentile.CeilingIsRank | hack/ebpf-qualification/idle_evaluate.py:55-57 | Rounding the product's quotient to 53 bits before taking the ceiling, as the division does, gives that exact rank whenever the product has at most 53 bits. |
| Percentile.PercentileIsMember | hack/ebpf-qualification/idle_evaluate.py:55-57 | The nearest-rank percentile is one of the values. |
| Percentile.RankBucketHolds | hack/ebpf-active-qualification/scheduler_window.py:38-44 | The nearest-rank percentile of any waits with these buckets lies in the bucket where the running count first reaches the rank. |
| Percentile.EndsAttained | hack/ebpf-active-qualification/scheduler_window.py:38-44 | Each end of that bucket is the percentile of some waits with these buckets. |
| Percentile.RangeIsTight | hack/ebpf-active-qualification/scheduler_window.py:33-44 | The reported range encloses the percentile of all waits with these buckets, and both ends are attained. |
| Percentile.PercentileBounds | hack/ebpf-active-qualification/scheduler_window.py:33-44 | Nothing is reported exactly when there are no waits, a bad percentage is refused, and otherwise a bucket is always found and its range is tight. |
| SchedulerWindow.StepExtendsRun | hack/ebpf-active-qualification/scheduler_window.py:131-142 | An accepted interval is explained by waits appended to any explanation of the row before, whether or not the maximum changed. |
| SchedulerWindow.RunMakesStep | hack/ebpf-active-qualification/scheduler_window.py:131-142 | Waits appended to an explained run always pass the interval checks, and fill exactly the difference of the buckets and sums. |
| SchedulerWindow.BuildRun | hack/ebpf-active-qualification/scheduler_window.py:117-142 | By induction over the window: rows that pass the histogram checks are explained by prefixes of one run of waits. |
| SchedulerWindow.HistogramsExact | hack/ebpf-active-qualification/scheduler_window.py:117-142 | The histogram checks accept a window if and only if, within the limits, one append-only run of waits explains every row and no row reports a wait longer than index seconds. |
| SchedulerWindow.IntervalOfRun | hack/ebpf-active-qualification/scheduler_window.py:131-142 | The waits of the run between two rows have exactly the difference of buckets and sum that the interval reports. |
| SchedulerWindow.ComputeDistribution | hack/ebpf-active-qualification/scheduler_window.py:77-81 | The distribution holds of all waits with these buckets and this sum: whether any was observed, the count, the mean and the percentile ranges. |
| SchedulerWindow.CheckStep | hack/ebpf-active-qualification/scheduler_window.py:131-142 | Decides the histogram part of a step. |
| SchedulerWindow.CheckRow | hack/ebpf-active-qualification/scheduler_window.py:90-144 | One pass of the loop decides acceptance of one row given the row before; WindowExact says what accepted rows have in common. |
| SchedulerWindow.ReportInterval | hack/ebpf-active-qualification/scheduler_window.py:145-146 | The interval report describes exactly the interval between the two rows. |
| SchedulerWindow.CloseReport | hack/ebpf-active-qualification/scheduler_window.py:147-158 | The report over the window gives the totals between the first and the last row, with a distribution true of any waits that fill the difference, the CPU time with both mean quotients, and the last peak RSS; whatever stopped being pending completed or exited, and completed and unmatched switch-ins are at most the events. |
| SchedulerWindow.ReplayRows | hack/ebpf-active-qualification/scheduler_window.py:90-146 | The loop accepts exactly when every row is accepted, and has then reported every interval. |
| SchedulerWindow.Replay | hack/ebpf-active-qualification/scheduler_window.py:84-159 | A report exists exactly for accepted rows; it gives every interval, coverage, pending counts, CPU time, peak RSS and both mean quotients, and distributions true of any waits that fill the differences. From any row to any later one nothing falls, events account for all that was completed, unmatched, replaced or ended, and no pending wait disappears without completion or exit. |
| SchedulerWindow.WindowExact | hack/ebpf-active-qualification/scheduler_window.py:84-144 | A window is accepted if and only if every row is on schedule and complete by itself, every later row follows every earlier one (disjoint reads, nothing reset, waits and events conserved), and one timely run of waits within the limits explains all histograms. |
| SchedulerWindow.IntervalsAddUp | hack/ebpf-active-qualification/scheduler_window.py:145-158 | The intervals' completed waits, their sums and their coverage add up to those of the window. |
| SchedulerWindow.IntervalFits | hack/ebpf-active-qualification/scheduler_window.py:131-146 | An interval report is true of the waits that any explaining run had in that interval. |
| SchedulerWindow.ReportIsTruthful | hack/ebpf-active-qualification/scheduler_window.py:84-159 | Some run of waits, within the elapsed time, explains all rows of an accepted window, and the report is true of every such run, interval by interval and as a whole. |
| SchedulerWindow.ReadsOrdered | hack/ebpf-active-qualification/scheduler_window.py:124-151 | Reads never overlap, so both denominators of the mean CPU bounds are positive. |
| SchedulerProducer.Aggregate.EnqueueTask | prototype/trace/qualification/scheduler/aggregate.go:72-84 | The method changes the object exactly as the specification of an enqueue says, or fails. |
| SchedulerProducer.Aggregate.SwitchInTask | prototype/trace/qualification/scheduler/aggregate.go:86-111 | Likewise for a switch-in, which completes a wait or counts an unmatched one. |
| SchedulerProducer.Aggregate.ApplyEvent | prototype/trace/qualification/scheduler/aggregate.go:136-165 | Likewise for the switch over the event kinds. |
| SchedulerProducer.Aggregate.ObserveEvent | prototype/trace/qualification/scheduler/aggregate.go:129-166 | Fails for good on the first invalid event; otherwise refines the specification of one event. |
| SchedulerProducer.Drain | prototype/trace/qualification/scheduler/merge.go:106-117 | Feeding the object a whole sequence of events succeeds exactly when the functional run exists, and then leaves the object in that run's state. |
| SchedulerProducer.Aggregate.TakeSnapshot | prototype/trace/qualification/scheduler/aggregate.go:170-177 | A failed aggregate gives no snapshot. |
| SchedulerProducer.ObserveKeepsInv | prototype/trace/qualification/scheduler/aggregate.go:129-166 | Every event keeps the aggregate explained by the waits emitted so far and its counters within the replay's bounds. |
| SchedulerProducer.RunKeepsInv | prototype/trace/qualification/scheduler/aggregate.go:129-166 | Over every run of events the histogram is exactly that of the waits the run completed. |
| SchedulerProducer.PendingExact | prototype/trace/qualification/scheduler/aggregate.go:72-111 | A task is pending since a time if and only if the last event that queued it, after which it neither ran nor ended, has that time. |
| SchedulerProducer.WaitsAreQueueTimes | prototype/trace/qualification/scheduler/aggregate.go:86-111 | The waits of a run are, read off the events alone, the times from each task's last enqueue to the switch to it. |
| SchedulerProducer.HistogramExact | prototype/trace/qualification/scheduler/aggregate.go:98-108 | The histogram of every run is that of those waits. |
| SchedulerProducer.CountersExact | prototype/trace/qualification/scheduler/aggregate.go:72-165 | Unmatched, replaced and ended count exactly the switches to a task not queued, the enqueues of a queued one and the exits of a queued one. |
| SchedulerProducer.SnapshotExact | prototype/trace/qualification/scheduler/aggregate.go:170-177 | A snapshot shows the number of events, their waits, what each was, and how many tasks are queued after them. |
| SchedulerProducer.NextEventAccepted | prototype/trace/qualification/scheduler/aggregate.go:113-165 | A run goes on with an event if and only if it names tasks, comes in time and within the count of events, queues no new task twice, finds room, and leaves the sum of the waits a 64-bit number. |
| SchedulerProducer.PrefixRun | prototype/trace/qualification/scheduler/aggregate.go:129-166 | A prefix of a run is a run whose waits and counters precede those of the run. |
| SchedulerProducer.HonestRunAccepted | prototype/trace/qualification/scheduler/aggregate.go:129-177 | Snapshots of any honest run at one-second cutoffs pass every check the Python replay makes on an observation and between two observations. |
| ScanHistory.ValidateHistory | hack/ebpf-active-qualification/scan_history.py:8-30 | Accepts exactly the histories that are the last min(total, 32) well-formed consecutive entries and agree with the counters and gauges. |
| ScanHistory.HistoryScans | hack/ebpf-active-qualification/scan_history.py:33-50 | Succeeds exactly when both views agree where they overlap, at most 32 entries are new and each is a success completed after the earlier read; returns one scan for each new entry, from when it started to when it completed. |
| ScanHistory.CollectScans | hack/ebpf-active-qualification/scan_history.py:42-50 | The final loop finds each new number once, stops at the first unusable entry, and gives each scan the interval in which it ran. |
| ScanHistory.RingNew | hack/ebpf-active-qualification/scan_history.py:33-50 | For views of one log the new entries are the log's entries between the two totals. |
| ScanHistory.ViewsAgree | hack/ebpf-active-qualification/scan_history.py:36-39 | Two views of one log never disagree, so an honest producer is not refused there. |
| ScanHistory.BuildLog | hack/ebpf-active-qualification/scan_history.py:8-50 | For arbitrary accepted polls there is one log that explains them all. |
| ScanHistory.HistoriesExact | hack/ebpf-active-qualification/scan_history.py:8-50 | The history checks accept a window of polls if and only if one append-only log explains every view, counter and gauge with no scan overwritten unseen. |
| ScanHistory.RecoveredIsLog | hack/ebpf-active-qualification/standard_window.py:55-75 | For any log of which every poll shows the last entries, the recovered scans are the log's entries between the first and the last total, in order, each once, numbering last minus first success, each with the real start and end of its entry and the poll that first showed it. |
| StandardWindow.LegacyEncloses | hack/ebpf-active-qualification/standard_window.py:93-103 | A scan that completed within the reported second lies in the reported interval, whatever the fraction. |
| StandardWindow.RequestsConserved | hack/ebpf-active-qualification/standard_window.py:76-86 | Every request is counted in one interval, and each interval knows the duration of exactly one of its requests. |
| StandardWindow.LegacyCount | hack/ebpf-active-qualification/standard_window.py:93-103 | The legacy schema recovers as many scans as the counter advanced. |
| StandardWindow.LegacyEnclosed | hack/ebpf-active-qualification/standard_window.py:93-103 | In schema 1 each advance of the counter is one scan at the row that shows it, whose interval holds every completion in the reported second and is no longer than that requires. |
| StandardWindow.IngestedOnce | hack/ebpf-active-qualification/standard_window.py:76-86 | Each interval with new requests is reported once, in order, with their number and latest duration, and no other is. |
| StandardWindow.ScansAreTheLog | hack/ebpf-active-qualification/standard_window.py:55-75 | In an accepted schema-2 window some log explains all polls, and the scans are exactly those of any log the polls show, with their real starts and ends. |
| StandardWindow.ScanCount | hack/ebpf-active-qualification/standard_window.py:55-75 | In either schema as many scans are recovered as the success counter advanced. |
| StandardWindow.CheckStep | hack/ebpf-active-qualification/standard_window.py:55-86 | Decides a step between two rows and returns exactly the scans it adds. |
| StandardWindow.ValidateRows | hack/ebpf-active-qualification/standard_window.py:24-86 | The loop accepts exactly when every row and every step is acceptable. |
| StandardWindow.Validate | hack/ebpf-active-qualification/standard_window.py:20-90 | Accepted exactly when every row and step is; in schema 2 the scans are those of any log that the polls show, in schema 1 one encloses each advance of the counter; every request is in one ingestion, in order, with the interval's latest duration. |
| StandardWindow.WindowExact | hack/ebpf-active-qualification/standard_window.py:20-90 | A window is accepted if and only if every row is on time and sound by itself, every row follows every earlier one, and the scans can be explained: by one log, or in schema 1 by a plausible scan wherever the counter advanced. |
| Activity.BisectRight | hack/ebpf-active-qualification/activity.py:125 | How many elements of a sorted list are at most x, by binary search. |
| Activity.BisectLeft | hack/ebpf-active-qualification/activity.py:126 | How many elements of a sorted list are below x. |
| Activity.BracketOrder | hack/ebpf-active-qualification/activity.py:127 | For ordered disjoint reads the explicit test left < right is implied. |
| Activity.BracketWindow | hack/ebpf-active-qualification/activity.py:124-130 | A span is proven if and only if one observation read wholly before it and one read wholly after it agree, not missing, with everything between. |
| Activity.BracketWindows | hack/ebpf-active-qualification/activity.py:121-131 | Refused exactly when some span is empty; otherwise each span is judged exactly. |
| Activity.ProvenOnWall | hack/ebpf-active-qualification/activity.py:121-131 | A wall-clock span is proven if and only if some observation ended before it whatever the clock error, some later one began after it, and all between show the expected activity on the same objects. |
| Activity.ProvenOnMonotonic | hack/ebpf-active-qualification/activity.py:137-141 | The same on the monotonic clock. |
| Activity.ShrinkKeepsProof | hack/ebpf-active-qualification/activity.py:121-131 | Whatever proves a span proves every span inside it. |
| Activity.LossNeverProves | hack/ebpf-active-qualification/activity.py:121-131 | Losing an observation never makes a span proven. |
| Activity.Cadence | hack/ebpf-active-qualification/activity.py:68-87 | Any two rows are at least 900 ms apart for each step between them, and their wall reads do not overlap. |
| Activity.MonotonicGap | hack/ebpf-active-qualification/activity.py:66-87 | The monotonic reads, which are never compared, are at least 580 ms apart. |
| Activity.GapAttained | hack/ebpf-active-qualification/activity.py:66-87 | An accepted witness attains 580 ms, so no larger gap follows. |
| Activity.WitnessOrdered | hack/ebpf-active-qualification/activity.py:37-89 | An accepted witness meets the precondition of the search on both clocks. |
| Activity.ValidateWitness | hack/ebpf-active-qualification/activity.py:37-89 | Decides acceptance and returns read intervals that are ordered and disjoint. |
| Activity.WitnessExact | hack/ebpf-active-qualification/activity.py:37-89 | A witness is accepted if and only if every row is on time and sound by itself and every row follows every earlier one. |
| Activity.ActiveSignatures | hack/ebpf-active-qualification/activity.py:102-118 | One signature per row, missing exactly when the row does not show the expected active workers and objects. |
| Activity.SignatureExact | hack/ebpf-active-qualification/activity.py:108-117 | A row has a signature if and only if it shows just the expected workers with their controls, one for each of two targets, nobody else's, with memory and the expected number of objects; and then it is those objects. |
| Activity.ActiveIntervals | hack/ebpf-active-qualification/activity.py:92-99 | Refused exactly for a bad witness, window or object count; otherwise each resource interval is proven exactly when observations bracket it on the wall clock. |
| Activity.OperationActivity | hack/ebpf-active-qualification/activity.py:134-141 | The same for operations, bracketed on the monotonic clock. |
| Pressure.Boundaries | hack/ebpf-active-qualification/pressure_metrics.py:14-25 | The loop carries each boundary's enclosure from one interval to the next. |
| Pressure.ValidatePressure | prototype/trace/qualification/filecache/verify_pressure.py:29-78 | Accepts exactly the streams whose index, clocks and totals are sound; their enclosures are then valid. |
| Pressure.StreamExact | prototype/trace/qualification/filecache/verify_pressure.py:29-78 | A stream is valid if and only if it has a header read within a millisecond and one interval of whole batches for each second, dated within 5 ms, of at most 2 * 10^10 reads. |
| Pressure.BoundariesEnclose | hack/ebpf-active-qualification/pressure_metrics.py:14-25 | If each wall reading fell between its monotonic readings and the clocks drift by no more than the margin, every enclosure holds the true wall time. |
| Pressure.EnclosureExact | hack/ebpf-active-qualification/pressure_metrics.py:14-25 | In a validated stream a boundary's enclosure holds exactly the wall times that some reading instant and a drift of at most 5 ms allow. |
| Pressure.EnclosuresOrdered | hack/ebpf-active-qualification/pressure_metrics.py:14-25 | In a validated stream the enclosures of different boundaries never overlap. |
| Pressure.CoveredWithin | hack/ebpf-active-qualification/pressure_replay.py:30-36 | Intervals inside a session hold no more reads than the session. |
| Pressure.CoveredCover | hack/ebpf-active-qualification/pressure_replay.py:32-36 | Intervals that cover a session hold no fewer. |
| Pressure.CheckCounts | hack/ebpf-active-qualification/pressure_replay.py:30-40 | Decides the interval count, the inclusion of the two index lists and the two bounds on the produced count. |
| Pressure.UpperExact | hack/ebpf-active-qualification/pressure_replay.py:27-32 | An interval counts from above if and only if for some boundary times within the enclosures it overlaps the time from the earliest request to the latest clean-up. |
| Pressure.LowerExact | hack/ebpf-active-qualification/pressure_replay.py:27-31 | An interval counts from below if and only if it is proven linked and, for all boundary times within the enclosures, lies between the latest attachment and the expiry. |
| Pressure.PauseExact | hack/ebpf-active-qualification/pressure_replay.py:45-46 | An interval counts for the pause if and only if it lies in it for all boundary times within the enclosures. |
| Pressure.BoundsExact | hack/ebpf-active-qualification/pressure_replay.py:30-38 | The count checks decide exactly: what may have overlapped the session includes all that surely lay in it, and the produced count is between the reads of the two. |
| Pressure.PauseAcceptedExact | hack/ebpf-active-qualification/pressure_replay.py:41-48 | A pause is accepted if and only if it lies between the earliest request and the expiry and more than 10,000 reads surely fell into it. |
| Pressure.ProducerBounds | hack/ebpf-active-qualification/pressure_replay.py:13-50 | Exact acceptance of producer_bounds, with the proof mask of the link observations and exact counts and sums in the result. |
| Pressure.LinkedIsAttached | hack/ebpf-active-qualification/pressure_replay.py:22-31 | If every observation that shows the session's own links saw them at some instant of its read, an interval proven linked began after the session attached and ended before it detached. |
| Pressure.CountsFollow | hack/ebpf-active-qualification/pressure_replay.py:30-38 | A produced count of exactly the reads of a lifetime within the session's outer bounds passes the count checks, if every lower interval lies in the lifetime. |
| Pressure.HonestSessionAccepted | hack/ebpf-active-qualification/pressure_replay.py:30-38 | A session that counted exactly the reads of its lifetime is never refused by the count checks, whenever its kernel state went away: it need only have attached after the request, been gone before the clean-up was witnessed, and been seen only while it existed. |
| Pressure.FullSessionAccepted | hack/ebpf-active-qualification/pressure_replay.py:30-38 | In particular for a session that lived from before the lower start to after its expiry, whichever intervals were proven linked. |
| Pressure.MaximumAttained | hack/ebpf-active-qualification/pressure_replay.py:32-38 | For every valid stream and every session whose clean-up came after its request there are boundary times, reads and a lifetime with exactly the reported maximum of reads, so no smaller upper bound is sound. |
| Pressure.PauseMinimumSound | hack/ebpf-active-qualification/pressure_replay.py:41-49 | The reads reported for a pause really happened during it. |
| Pressure.InsideExact | hack/ebpf-active-qualification/pressure_metrics.py:34-38 | An interval is eligible if and only if, for all boundary times within the enclosures, it lies between the first read's end and the last read's start. |
| Pressure.CoversExact | hack/ebpf-active-qualification/pressure_metrics.py:29-33 | The window is covered if and only if the stream began before it and ended after it for all boundary times within the enclosures. |
| Pressure.InsideContiguous | hack/ebpf-active-qualification/pressure_metrics.py:37-38 | The intervals inside a resource window are contiguous. |
| Pressure.CommonContiguous | hack/ebpf-active-qualification/pressure_metrics.py:51-53 | For validated streams the contiguity check never fails. |
| Pressure.BytesOfReads | hack/ebpf-active-qualification/pressure_metrics.py:56-61 | In a valid stream the bytes of a range are 64 for each of its read calls. |
| Pressure.BudgetIsThroughput | hack/ebpf-active-qualification/pressure_metrics.py:66-76 | The integer comparison of the verdict is the comparison of the two throughputs at 98 per cent. |
| Pressure.Compare | hack/ebpf-active-qualification/pressure_metrics.py:42-77 | Succeeds exactly when both streams are valid, both windows are covered and two common intervals lie far enough apart; the pairs are one contiguous range, the times are those between its ends, and the verdict compares the throughputs. |
| VerifierWindow.StepRealised | hack/ebpf-active-qualification/verifier_window.py:62-75 | An interval with room is filled by values appended to what came before. |
| VerifierWindow.StepHasRoom | hack/ebpf-active-qualification/verifier_window.py:62-75 | Values appended to a meter always leave an interval with room. |
| VerifierWindow.RunExact | hack/ebpf-active-qualification/verifier_window.py:40-75 | Rows of count, sum and maximum come from one growing sequence of values of at least a floor if and only if every step leaves room. |
| VerifierWindow.BytesExact | hack/ebpf-active-qualification/verifier_window.py:50-73 | For log bytes the checks are exact: rows pass if and only if one growing sequence of calls reports them, none above 32 bits. |
| VerifierWindow.DurationsExact | hack/ebpf-active-qualification/verifier_window.py:50-74 | Accepted durations come from calls of at least 2 ns if and only if each new maximum also leaves room for the interval's other calls. |
| VerifierWindow.DurationChecksExact | hack/ebpf-active-qualification/verifier_window.py:50-74 | The duration checks accept exactly the rows whose counts, sums and maxima some values explain, within the elapsed time and half a minute, and whose sum grows by at least 2 ns a call between any two rows. |
| VerifierWindow.DurationsNotExact | hack/ebpf-active-qualification/verifier_window.py:50-74 | Two calls of 4 ns in all with a maximum of 3 ns are accepted though impossible. |
| VerifierWindow.DurationsNecessary | hack/ebpf-active-qualification/verifier_window.py:50-74 | Durations of real calls within the limits always pass. |
| VerifierWindow.Replay | hack/ebpf-active-qualification/verifier_window.py:78-146 | A report exists exactly for accepted rows bound to the one valid source and owner; it gives every interval's differences, the totals, and the observer's CPU time and peak RSS with positive denominators; one growing sequence of log sizes explains all rows, and at the end every perf record is accounted for. |
| VerifierWindow.WindowExact | hack/ebpf-active-qualification/verifier_window.py:78-137 | A window is accepted if and only if one valid binding is in every row, every row is on schedule and accounts for its records, every row follows every earlier one (no pending call gone without ending), one growing sequence of log sizes explains all rows, and the durations fit. |
| VerifierProducer.Aggregate.ApplyEvent | prototype/trace/qualification/verifier/aggregate.go:79-118 | The method refines the specification of the enter, log, return machine. |
| VerifierProducer.Aggregate.ObserveEvent | prototype/trace/qualification/verifier/aggregate.go:67-119 | Fails for good on the first impossible record, and refuses after the end. |
| VerifierProducer.Drain | prototype/trace/qualification/verifier/merge.go:72-87 | Feeding the object a whole sequence of records succeeds exactly when the functional run exists, and then leaves the object in that run's state. |
| VerifierProducer.Aggregate.TakeSnapshot | prototype/trace/qualification/verifier/aggregate.go:123-130 | A failed aggregate gives no totals. |
| VerifierProducer.Aggregate.FinishCapture | prototype/trace/qualification/verifier/aggregate.go:150-156 | Succeeds exactly when nothing failed and no call is pending. |
| VerifierProducer.RunKeepsInv | prototype/trace/qualification/verifier/aggregate.go:67-119 | Over every run the totals measure exactly the completed calls' durations and log sizes. |
| VerifierProducer.PendingExact | prototype/trace/qualification/verifier/aggregate.go:79-118 | A call is pending since a time if and only if its thread entered then and has not returned, with a log if and only if one was recorded since. |
| VerifierProducer.ValuesExact | prototype/trace/qualification/verifier/aggregate.go:98-107 | The durations and log sizes of a run are, read off the records alone, the times from entry to return and the log sizes in between. |
| VerifierProducer.TotalsExact | prototype/trace/qualification/verifier/aggregate.go:86-118 | Every total of a run is what its name says of the records, and each maximum is the greatest value. |
| VerifierProducer.SnapshotExact | prototype/trace/qualification/verifier/aggregate.go:123-130 | A snapshot shows the totals of the run and how many threads are in a call. |
| VerifierProducer.NextRecordAccepted | prototype/trace/qualification/verifier/aggregate.go:67-119 | A run goes on with a record if and only if it comes in time and within the count, names a thread and a result, comes in order within its thread's call and within 30 s of its entry, and opens no call beyond 64 at once and 4096 in all. |
| VerifierProducer.EventsConserved | prototype/trace/qualification/verifier/aggregate.go:67-130 | Every run satisfies the event inequality of a row, and reaches equality once nothing is pending. |
| VerifierProducer.HonestTotals | hack/ebpf-active-qualification/verifier_window.py:40-55 | Totals of an honest run pass the checks on one row. |
| VerifierProducer.HonestInterval | hack/ebpf-active-qualification/verifier_window.py:62-75 | Totals of a run and of its prefix pass the checks on an interval, with the pending rule. |
| VerifierProducer.HonestRunAccepted | hack/ebpf-active-qualification/verifier_window.py:117-137 | Snapshots of one honest run at one-second cutoffs pass every check on totals, perf records and steps; the last row passes its final check exactly when nothing is pending and every perf record was observed or discarded. |
| OwnedResources.Cluster.Get | hack/node-qualification/owned_resources.py:64-73 | A read answers what is there after any steps of others, or fails. |
| OwnedResources.Cluster.Create | hack/node-qualification/owned_resources.py:90-97 | A create may take effect and its answer still be lost; an answer is the UID of the object that is then there. |
| OwnedResources.Cluster.Delete | hack/node-qualification/owned_resources.py:125-127 | A delete with a UID precondition removes nothing but that very object. |
| OwnedResources.ChildrenFirst | hack/node-qualification/owned_resources.py:131-134 | In clean-up order every owned object that is not a namespace comes before any namespace. |
| OwnedResources.CleanupDescends | hack/node-qualification/owned_resources.py:131-134 | In clean-up order, of two children or two namespaces the one recorded later comes first. |
| OwnedResources.NamespacesExtended | hack/node-qualification/owned_resources.py:131-140 | Appending calls keeps the order of deletions when the children were settled first. |
| OwnedResources.OwnedResources.constructor | hack/node-qualification/owned_resources.py:59-62 | The ledger starts empty. |
| OwnedResources.OwnedResources.Remember | hack/node-qualification/owned_resources.py:79-88 | The record is kept even if its receipt cannot be written; no earlier record or receipt is replaced; succeeds exactly for a new resource with a usable UID and a written receipt. |
| OwnedResources.OwnedResources.Create | hack/node-qualification/owned_resources.py:90-103 | Succeeds exactly for a resource not yet owned whose creation was answered and receipt written; every other outcome leaves it among the conflicts, and a resource already owned changes nothing. Valid() keeps, over all calls, that every creation not confirmed by an owned UID is in conflicts. |
| OwnedResources.OwnedResources.Conflict | hack/node-qualification/owned_resources.py:111-117 | Adds the resource to the conflicts and removes none. |
| OwnedResources.OwnedResources.Verify | hack/node-qualification/owned_resources.py:105-109 | Succeeds exactly on reading the recorded UID. |
| OwnedResources.OwnedResources.Delete | hack/node-qualification/owned_resources.py:119-127 | At most one deletion, of the recorded UID and right after reading it; a resource found under its UID is always asked to be deleted; success means gone or accepted. |
| OwnedResources.OwnedResources.CleanupOne | hack/node-qualification/owned_resources.py:134-140 | One pass of the loop keeps the order of deletions and tries the resource whatever failed before. |
| OwnedResources.OwnedResources.DeleteAll | hack/node-qualification/owned_resources.py:130-142 | The first loop: deletions in order, every child tried, every namespace before which all was settled tried too, and an error exactly if something is not settled. |
| OwnedResources.OwnedResources.AwaitGone | hack/node-qualification/owned_resources.py:143-149 | Only reads; returns normally when one poll found everything absent, and raises only after a failed read or as many polls as allowed that each found something. |
| OwnedResources.OwnedResources.Cleanup | hack/node-qualification/owned_resources.py:129-149 | Over all interleavings: only recorded objects are ever deleted; of two deletions of children, or of namespaces, the first is of the object recorded later; no namespace deletion with a conflict or before every child was settled; every child is tried; a conflict, so a creation of unknown outcome in any earlier call, always raises; a normal return means all owned were read absent after the last deletion; without conflicts it raises only for something not settled, a failed read or the deadline. |
| OwnedMutations.CurrentIsLast | hack/node-qualification/owned_mutations.py:18-21 | The current document is the last write to its resource. |
| OwnedMutations.Cluster.Patch | hack/node-qualification/owned_mutations.py:20-26 | A JSON patch that tests UID and version is applied as a whole to exactly the tested version, or not at all; sections 4.6 and 5 of RFC 6902. |
| OwnedMutations.Patch | hack/node-qualification/owned_mutations.py:11-29 | Sent only for the recorded object; accepted exactly on an answer of the same object in a new version, which is then our write. |
| OwnedMutations.Undone | hack/node-qualification/owned_mutations.py:40-47 | A revocation and a restoration based on it leave the original content. |
| OwnedMutations.Revoke | hack/node-qualification/owned_mutations.py:34-39 | Reads, and revokes exactly when the document is the recorded object, has something to revoke and is as the contract says; our write is in the history exactly when that patch was applied. |
| OwnedMutations.Suspend | hack/node-qualification/owned_mutations.py:31-47 | For every interleaving: a successful restoration means nobody wrote in between and the content is the original; a foreign write after the revocation survives; a restoration is tried once the revocation's answer is accepted; the object is left revoked with none tried if and only if the revocation was applied and its answer was not accepted. |
| OwnedMutations.RevocationCanStay | hack/node-qualification/owned_mutations.py:40-47 | Exhibits that history: the revocation of a one-rule policy is applied, its answer is lost, and the policy stays empty. |
| Admissions.KeptStep | hack/ebpf-active-qualification/admissions.py:23-56 | A call changes the pending slots without losing any returned identity. |
| Admissions.Admissions.constructor | hack/ebpf-active-qualification/concurrent_admissions.py:7-11 | One client per namespace and, for a concurrent owner, a third for the probe. |
| Admissions.Admissions.Retain | hack/ebpf-active-qualification/admissions.py:32-45 | The identity is kept before the rest of the answer is checked; a busy or unknown slot refuses. |
| Admissions.Admissions.Create | hack/ebpf-active-qualification/admissions.py:23-30 | A busy or unknown slot sends nothing; otherwise one POST, and whatever identity it returned is kept even if the call fails. |
| Admissions.Admissions.Cancel | hack/ebpf-active-qualification/admissions.py:50-56 | The slot is freed exactly by an answer of 200, 404 or 410 to the deletion of its identity. |
| Admissions.Admissions.CancelAll | hack/ebpf-active-qualification/admissions.py:58-66 | Every slot is tried; exactly the unconfirmed ones stay, and it raises exactly if there are any. |
| Admissions.Admissions.ActivePair | hack/ebpf-active-qualification/concurrent_admissions.py:13-23 | Succeeds exactly when two admissions are held and both answer as active, under their own names and engine. |
| Admissions.Admissions.ProbeCapacity | hack/ebpf-active-qualification/concurrent_admissions.py:25-42 | Succeeds exactly on the capacity error between two proofs that both are active; an accepted probe is retained in slot 2 and reported as a failure. |
| Processes.Host.Poll | hack/ebpf-active-qualification/processes.py:85 | An exit code, once seen, is the process's one code. |
| Processes.Processes.Start | hack/ebpf-active-qualification/processes.py:25-37 | Succeeds exactly for a well-formed new label whose process launches; otherwise nothing is started. |
| Processes.Processes.Scheduler | hack/ebpf-active-qualification/processes.py:42-47 | The scheduler is started with its completion input open. |
| Processes.Processes.AcceptDeliveryBudgetFailure | hack/ebpf-active-qualification/processes.py:66-69 | Accepted if and only if it is a started delivery process whose polled code is 1. |
| Processes.Processes.ReleaseScheduler | hack/ebpf-active-qualification/processes.py:49-60 | Raises exactly when the completion can no longer be acknowledged; otherwise sends end-of-input exactly when the verifier was seen to exit cleanly. |
| Processes.Processes.OnePass | hack/ebpf-active-qualification/processes.py:85-94 | One pass of the polling loop stops exactly for a failure not accepted or a broken completion, finishes exactly when everything has exited, and otherwise goes on. |
| Processes.Processes.WaitAll | hack/ebpf-active-qualification/processes.py:83-97 | A normal return means all exited, cleanly or as accepted, and a scheduler started with an open completion input was released in an earlier round by which the verifier had exited 0 while the scheduler ran; it raises only for the three stated reasons, and in every round but the last something still ran and nothing had failed. |
| Replacement.HostRoutes | hack/node-qualification/provider_plan.py:44-59 | Accepts exactly non-empty lists of at most so many distinct allowed host routes. |
| Replacement.DistinctSize | hack/node-qualification/provider_inventory.py:117-118 | The set of a list is as large as the list if and only if nothing is listed twice. |
| Replacement.Pigeonhole | hack/node-qualification/provider_inventory.py:111-118 | As many distinctly routed bindings as there are routes use every route. |
| Replacement.SortOrders | hack/node-qualification/provider_inventory.py:127 | The bindings come ordered by name. |
| Replacement.Collect | hack/node-qualification/provider_inventory.py:97-115 | The loop succeeds exactly when every Linux node is of the approved pool, version and runtime, takes any workload, and has exactly one approved route. |
| Replacement.BindNodes | hack/node-qualification/provider_inventory.py:90-128 | Succeeds exactly when the inventory is bindable and the control plane has the approved version, and returns every Linux node bound to its one route. |
| Replacement.BindableExact | hack/node-qualification/provider_inventory.py:90-126 | An inventory is bindable if and only if it is the approved pool, node by node and pair by pair: at most 128 items with the profile's number of Linux nodes, each eligible with one configured route and instance, one runtime, nothing shared, and the approved version. |
| Replacement.BoundExact | hack/node-qualification/provider_inventory.py:111-128 | What is bound: exactly each Linux node with its only route, in the order of the names. |
| Replacement.BoundIsOneToOne | hack/node-qualification/provider_inventory.py:111-118 | Under the route-count rule of the configuration, nodes and approved routes correspond one to one. |
| Replacement.LinuxByUid | hack/node-qualification/replacement_binding.py:13-20 | The map of identified Linux nodes exists exactly when no identity is missing or repeated. |
| Replacement.Capture | hack/node-qualification/replacement_binding.py:37-45 | Succeeds exactly when each bound node is live under its own name and instance with a proper machine, and no other Linux node is. |
| Replacement.CapturableExact | hack/node-qualification/replacement_binding.py:37-45 | Capture is possible if and only if every Linux node is bound, named and on a proper machine, and every bound node is live as it was bound. |
| Replacement.Detect | hack/node-qualification/replacement_binding.py:48-57 | Names a new node exactly when the approved one is gone and exactly one other has come; waits exactly while the pool is unchanged or of another size. |
| Replacement.SubstituteChangesOne | hack/node-qualification/replacement_policy.py:34-35 | Exchanging one of distinct routes changes one place, and leaves them distinct exactly when the new one was not there. |
| Replacement.ReplaceRoute | hack/node-qualification/replacement_policy.py:25-33 | Succeeds exactly for a valid list that holds the old route and not the new one, of the same family; exactly one element changes. |
| Replacement.ProveReplacement | hack/node-qualification/replacement_binding.py:61-77 | Finds the new node and its route exactly when the identities, the machines and the addresses prove the replacement. |
| Replacement.ProvenExact | hack/node-qualification/replacement_binding.py:48-76 | A replacement is proven if and only if, under the same receipt, the approved node is gone and one new one has come on another machine and boot with one route, and all others are the same nodes on the same machines. |
| Replacement.Rebind | hack/node-qualification/replacement_binding.py:60-89 | Succeeds exactly when a replacement is proven under the same seven receipt fields and every node binds as before with the substituted route; slots keep their order. |
| Replacement.NewNodeHasNewRoute | hack/node-qualification/replacement_binding.py:72-78 | The new node is bound to the substituted route and no other. |
| Replacement.ReboundIsOneToOne | hack/node-qualification/replacement_binding.py:78-88 | Nodes and routes correspond one to one again; every slot but the approved one holds exactly what it held. |
| CpuList.ParsePart | hack/ebpf-active-qualification/scheduler_capture.py:20-27 | One part is accepted exactly when it is a CPU or a rising range that fits above what was read. |
| CpuList.ParseParts | hack/ebpf-active-qualification/scheduler_capture.py:20-27 | The loop accepts exactly the lists whose parts are all readable, ascend and hold at most 64 CPUs. |
| CpuList.CpuCount | hack/ebpf-active-qualification/scheduler_capture.py:17-28 | Accepts exactly the texts, within 512 characters, that list some roster, and returns its size. |
| CpuList.AcceptedExact | hack/ebpf-active-qualification/scheduler_capture.py:17-28 | A text is accepted if and only if it consists of numerals and rising ranges of numerals, ascending and separated by commas, that denote at most 64 CPUs below 4096. |
| CpuList.ZerosDoNotCount | hack/ebpf-active-qualification/scheduler_capture.py:23 | Leading zeros of a numeral do not count. |
| CpuList.RosterIsCpuSet | hack/ebpf-active-qualification/scheduler_capture.py:17-28 | Whatever is accepted denotes 1 to 64 strictly increasing CPUs in 0..4095. |
| CpuList.PrintedIsRead | hack/ebpf-active-qualification/scheduler_capture.py:17-28 | For every such CPU set the text of its maximal runs has at most 319 characters, is accepted and denotes the set. |
| CpuList.PrintIsCanonical | hack/ebpf-active-qualification/scheduler_capture.py:17-28 | Two accepted texts denote the same CPUs if and only if they print alike. |
| Memory.LowestWorkingSet | hack/ebpf-active-qualification/memory.py:22-23 | The floor is attained by a control sample and below none. |
| Memory.WorkingSetIsLeast | hack/ebpf-active-qualification/resources.py:9-10 | The working set is the least number that with the inactive file pages covers what is charged. |
| Memory.GrowthIsLeast | hack/ebpf-active-qualification/memory.py:25-28 | The growth over a baseline is the least sum of increases that covers every shared role, none paying for another. |
| Memory.FloorsDominate | hack/ebpf-active-qualification/memory.py:26-28 | No choice of control samples gives more growth than the floors do. |
| Memory.FloorsAttained | hack/ebpf-active-qualification/memory.py:22-28 | Some choice of control samples is the floors. |
| Memory.PeakIsLeastBound | hack/ebpf-active-qualification/memory.py:25-32 | The peak bounds every alignment and some alignment reaches it. |
| Memory.PassedMeansBounded | hack/ebpf-active-qualification/memory.py:32-38 | A limit holds of every alignment exactly when the peak is within it. |
| Memory.PairedMemory | hack/ebpf-active-qualification/memory.py:9-39 | Refused exactly for invalid roles or windows; floors, the three peaks and the verdict are exact over every alignment of the two streams. |
| Memory.NetIncreaseBounded | hack/ebpf-active-qualification/memory.py:12-17 | The peak also bounds the net increase between any one control and any one enabled sample, reductions credited. |
| SchedulerObservations.SchedulingDeltas | hack/ebpf-active-qualification/samples.py:126-148 | Every adjacent pair gets exactly one of four states, each characterised by the two readings, and a delta only between comparable ones, which added to the first reading gives the second. |
| SchedulerObservations.Tally | hack/ebpf-active-qualification/scheduler_observations.py:10-15 | Each state is counted as often as it occurs. |
| SchedulerObservations.RunsAreMaximal | hack/ebpf-active-qualification/scheduler_observations.py:16-18 | The runs hold exactly the observed intervals and are separated by others. |
| SchedulerObservations.TotalsTelescope | hack/ebpf-active-qualification/scheduler_observations.py:16-22 | Totals and time covered are last minus first, summed over the maximal observed runs. |
| SchedulerObservations.CompleteIsWholeWindow | hack/ebpf-active-qualification/scheduler_observations.py:28-32 | With complete coverage they are those of the whole window. |
| SchedulerObservations.CompleteIffCovered | hack/ebpf-active-qualification/scheduler_observations.py:17-31 | Coverage is complete if and only if the observed time is the window's. |
| SchedulerObservations.Observe | hack/ebpf-active-qualification/scheduler_observations.py:7-34 | The report: exact state counts, totals and time over the maximal runs, complete exactly when one run spans the window. |

## Left out

- Reading files and streams, JSON decoding, digests, envelopes and receipts: records arrive as typed values.
- Subprocess, Docker, kubectl, Helm, AWS, TLS and PTY plumbing: calls into them are nondeterministic steps.
- The Go commands, contract programs and the product itself under `cmd/` and `internal/`: wiring, or not what the replays are about.
- `validate_pressure_session`, `validate_flood`, `validate_series` and `replay_pressure_session`: frozen-profile equalities; only what their accepted records guarantee is used.
- Displayed percentages and floating-point means: the integer decisions are modelled.
- `resource_summary`, `role_summary`, `evaluate_pair`: averages and budgets of plain sums, easy members.
- `restart_workload`: one call of `_patch` with a fresh annotation.
- `require_absent`, `healthy`, `wait` and `close`: single checks or process clean-up without a protocol of their own.
- The result that recovered scans are sorted by completion time: the code does not establish it when all 32 entries are new.
- Percentile.CeilingIsRank: products of more than 53 bits, more than 9 * 10^13 values at 100 per cent, are outside it.
- SchedulerProducer.HonestRunAccepted: the merge of per-CPU frames before the aggregate is not modelled beyond its order, so events are given in time order.
- SchedulerProducer.Aggregate.constructor: an invalid maximum is excluded rather than refused.
- VerifierProducer.HonestRunAccepted: the watermark that `Advance` keeps between records is not modelled.
- VerifierWindow.DurationsNecessary: for durations the code's checks are necessary only; the exact condition is DurationsExact.
- StandardWindow.Validate: the fifteen request outcomes are a sequence of counts, and observer averages are not reported.
- Activity.ValidateWitness: the field checks on snapshots appear as predicates on numbers; object names are integers.
- Pressure.ProducerBounds: index lists are masks over the intervals, and the stream's own validation is a premise of the soundness lemmas.
- Pressure.Compare: the resource samples are taken as validated and of equal length; the bytes of the two pressure streams are not decoded.
- OwnedResources.OwnedResources.Remember: the journal holds ownership receipts only; conflict receipts, which nothing reads back, are not kept.
- OwnedResources.OwnedResources.Cleanup: identity checks on read documents count as failed reads, and the deadline is a number of polls.
- OwnedMutations.Suspend: the two context managers are one method over a field and the rest of the contract; the content of a role binding or policy is a map of opaque text.
- Admissions.Admissions.ProbeCapacity: the five fields of the capacity error are one flag of the answer's body.
- Processes.Processes.Start: the output files are not written; a launch may fail.
- Processes.Processes.WaitAll: the receipt of failed processes is not written.
- Replacement.BindNodes: addresses are values and the three patterns are predicates on text; a node that fails to show a field the source requires counts as not serving.
- Replacement.Rebind: the allowed address classes are a parameter, and an address that fails to parse is refused with the binding rather than before it.
- Replacement.ReplaceRoute: the comparison of the live policy with the expected one is left out, and it returns the new list; that writing it loses no foreign write is OwnedMutations.Patch.
- Memory.PairedMemory: the clock, counter and field checks of `validate_window` are one flag of each stream; the set of roles is the sequence in which it is walked.
- SchedulerObservations.Observe: sources arrive as already validated, and the constant texts of the report are not modelled.
