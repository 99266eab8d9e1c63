# LoadBear, verified

LoadBear turns noisy hardware counters into a displayed overload tier and a named cause. This project models the parts
of it that carry its safety claims and proves those claims of the model, for every input and every run, under these
assumptions:

- The theorems about runs of the tracker, and about the bursts of samples it is fed, are for timestamps that never
  decrease. What is shown was observed, and its reason fits its tier, even without that.
- The theorems about what readers of the shared record are given are for fewer than 2^31 publishes begun within any one
  attempt to read it; `SoundIff` proves that bound exact.
- The theorems about package power are for energy that never falls and a positive unit, which every register value
  gives.

| file | what it models |
|---|---|
| `Basics.dfy`, `Text.dfy`, `Sorting.dfy`, `Types.dfy` | machine arithmetic, ASCII text, a stable sort, the readings |
| `Specs.dfy`, `Verdicts.dfy`, `Merging.dfy` | published limits, the absolute checks, and what merging ambiguous products preserves |
| `Tiers.dfy`, `TierRuns.dfy`, `TierBounds.dfy` | the judgement of one window, the tracker, and what it shows over whole runs |
| `Counters.dfy`, `Baseline.dfy`, `Power.dfy` | the sample window and its medians, the learned disk baseline, the wrapping energy counter |
| `Monitor.dfy` | the sampling loop's chain from raw samples to the tier shown |
| `SharedRecord.dfy` | the published temperature record and its zones |
| `Seqlock.dfy`, `SeqlockSteps.dfy`, `SeqlockWrap.dfy`, `SharedMapping.dfy` | the shared-memory protocol between one publisher and any number of readers |
| `RecordLayout.dfy` | the record in words, and the zones from the helper to the reader |
| `Http.dfy`, `JsonScan.dfy`, `ContainerList.dfy` | the chunked decoder, the array scanner, and the two together |
| `Grouping.dfy`, `Attribution.dfy`, `Containers.dfy` | process groups, the groups and containers named as causes |

Classes stand for the objects the source updates in place (`TierTracker`, `SampleWindow`, `DiskBaseline`,
`PackagePower`, and the mapped record); each of their methods is proved to do exactly what a function of the old state
says, and the theorems are about runs of those functions. Floating-point numbers are real numbers, a figure that may be
"not a number" is optional, and 64-bit saturation, 32-bit wrap-around and truncation are written out.

## Where the code and its own comments differ

The model follows the code. For each difference there is an exact condition, and the input that fails it is in a lemma
or in the condition's proof.

- spec.rs:118-122 says merging only ever makes a verdict less likely, and spec.rs:215-217 that a wider set of products
  is safe. A product that leaves out an end of its power band is judged by its rating instead, which is merged by
  minimum; `MergingCanAccuseAHealthyMachine` gives the input, `MergingIsExactIffBandsAgree`,
  `WideningIsSafeIffBandsAgree` and `ReportsAreTrueIff` the conditions.
- tier.rs:140-143 says one sample never moves the tier. It does after a gap longer than a window, and so does the first
  one if it comes at the origin of the clock. `LoneMovesNeedALongGap` gives the exact bound on gaps under which that
  first one is the only exception, and `FirstObservationMovesIff` says exactly when it is one.
- tier.rs:218-220 says a fresh tracker does not move before its window is covered. Near the origin of the clock the
  cutoff is clamped to zero, so an observation at time zero is shown at once (`ShownAtTheOrigin`); `CalmAtFirstIff`
  shows that this start of the clock is the only exception.
- counters.rs:272-276 says a single spike cannot move the median. Of one or two samples, at the first two ticks or in a
  window of so small a capacity, it can; `LoneSpikeIsOutvotedIff` shows that three samples held is the exact condition.
- power.rs:45-50 treats a figure above a kilowatt as the sign that the counter came round more than once. It may come
  round and look plausible: `LappedIntervalIsReported` gives the input. `NeverMisreportedIff` gives the condition on the
  energy unit, the sampling interval and the most the machine draws, and `ReportIsTrueEnergyIff` what a report is worth
  in terms of the energy really used.
- attribution.rs:107 calls the representative the largest member. The test at line 145 is against the running mean;
  `RepresentativeNeedNotBeLargest` gives the input and `RepresentativeIsLargestIff` the condition.
- attribution.rs:286-322 names a container although none uses anything, and then whichever comes first in the list;
  `OrderMattersOnlyWhenIdle` shows that this is the only case in which the order of the list decides.

## Model

| member | source | states |
|---|---|---|
| Types.WorstIsGreatest | crates/loadbear-core/src/types.rs:37-56 | the worst resource's value is its own, is known, no known value exceeds it, and what ties with it comes later in the order cpu, memory, io |
| Verdicts.Evaluate | crates/loadbear-core/src/verdict.rs:136-249 | the list of verdicts is the checks that fire, in the order they are made |
| Verdicts.JudgeIssuesWhatFires | crates/loadbear-core/src/verdict.rs:136-249 | a verdict is listed if and only if its check fires, always with its own severity |
| Verdicts.ThermalBoundary | crates/loadbear-core/src/verdict.rs:136-249 | headroom is low from five degrees below the limit on, when both temperatures are known |
| Verdicts.LoadBoundaries | crates/loadbear-core/src/verdict.rs:136-249 | under a load of 80 the clock is low below the published base, or the reported one without a specification, and power below the floor; power is high above the ceiling at any load; none fires on its boundary |
| Verdicts.SeverityOfKinds | crates/loadbear-core/src/verdict.rs:136-249 | a clock below base and throttling are out of specification, the rest degraded |
| Specs.CandidatesAreThoseItCouldBe | crates/loadbear-core/src/spec.rs:199-233 | the candidates are exactly the products with this identity that the thread count does not rule out, and are counted; none exactly when no product has the identity |
| Merging.MergedCeiling | crates/loadbear-core/src/spec.rs:123-151 | the merged ceiling never exceeds every product's, and is at least every product's exactly when ceilings agree |
| Merging.MergedFloor | crates/loadbear-core/src/spec.rs:123-151 | the mirror image for the power floor |
| Merging.MergedIdentity | crates/loadbear-core/src/spec.rs:131-150 | merging keeps the shared identity, the first product's cores, threads and stepping, and a boost clock that some product publishes and none exceeds |
| Merging.MergingHidesNothing | crates/loadbear-core/src/spec.rs:118-151 | a verdict every product would earn is issued against the merged specification, for any candidates (at least one) and any reading |
| Merging.MergingInventsNothing | crates/loadbear-core/src/spec.rs:118-151 | when bands agree, a verdict against the merged specification is earned by every product |
| Merging.DisagreeingBandsInvent | crates/loadbear-core/src/spec.rs:136-140 | whenever bands disagree there is a reading that earns a merged verdict some product does not earn |
| Merging.MergingIsExactIffBandsAgree | crates/loadbear-core/src/spec.rs:118-151 | merging preserves the meaning of every verdict on every reading if and only if the bands agree |
| Merging.PublishedBandsAgree | crates/loadbear-core/src/spec.rs:136-140 | if every candidate publishes both ends of its band, merging is exact |
| Merging.WideningIsSafeIffBandsAgree | crates/loadbear-core/src/spec.rs:215-217 | no subset of the candidates, merged, misses a verdict that all of them merged earn, if and only if the bands of all of them agree |
| Merging.MergingCanAccuseAHealthyMachine | crates/loadbear-core/src/spec.rs:136-140 | a database of two products with one identity and no bands: the processor they resolve to is reported, at a reading within rating for one of them |
| Merging.ThermalReportIsExact | crates/loadbear-app/src/main.rs:958-967 | with the junction limit taken from silicon or else from the specification, the thermal verdict against the highest limit is exact when all candidates publish one or none does |
| Merging.DisagreeingLimitsInvent | crates/loadbear-app/src/main.rs:958-967 | otherwise some reading is reported hot although one product would say nothing |
| Merging.SiliconDecides | crates/loadbear-app/src/main.rs:953-967 | a junction limit the silicon reports decides alone; the published one stands in where there is none |
| Merging.ReportsAreExactIff | crates/loadbear-core/src/spec.rs:118-151 | as the sampling loop assembles readings, merging is exact if and only if bands and junction limits agree |
| Merging.ReportsAreTrueIff | crates/loadbear-core/src/spec.rs:181-233 | no report made through the database is false for any product the machine could be (its thread count its own or matching no sibling), if and only if the candidates' bands and junction limits agree |
| Tiers.WorstVerdictIsLastOfTheWorst | crates/loadbear-core/src/tier.rs:70 | the verdict that decides is the last listed of the most severe |
| Tiers.TierTracker.Observe | crates/loadbear-core/src/tier.rs:180-213 | after each observation the tracker is in exactly the state of the run over everything ever observed |
| Tiers.TierTracker.SupportedByAll | crates/loadbear-core/src/tier.rs:221-238 | the loop's answer is the first extreme judgement in a covered window, and nothing when it is not covered |
| TierRuns.ClassifyTakesTheWorstInput | crates/loadbear-core/src/tier.rs:69-102 | a tier is reached if and only if one input reaches it alone: Strained by an out-of-spec verdict or a stall of four fifths, Braced by any verdict above Ok or a stall of two fifths |
| TierRuns.ClassifyNamesWhatReachedIt | crates/loadbear-core/src/tier.rs:88-101 | the reason is clear exactly when the tier is Easy; a verdict that reaches the tier is named before any stall, the last of the most severe; otherwise the worst resource is |
| TierRuns.ClassifyIsMonotone | crates/loadbear-core/src/tier.rs:69-102 | adding verdicts and raising or learning stall values never lowers the tier |
| TierRuns.HistoryIsThePrunedLog | crates/loadbear-core/src/tier.rs:182-191 | what is kept is the whole log without what is older than twice the longest window |
| TierRuns.AnswerOfThePrunedLog | crates/loadbear-core/src/tier.rs:221-238 | a window is answered from all observations ever made exactly when one of them is both kept and old enough to cover it |
| TierRuns.TierMovesExactlyWhenItsWindowAgrees | crates/loadbear-core/src/tier.rs:135-138 | the tier rises if and only if the covered escalation window is unanimously above it, then to the window's lowest assessment, the earliest where several share that tier; falls likewise to the highest; never both; otherwise only the reason may change |
| TierRuns.EveryObservationHasAVeto | crates/loadbear-core/src/tier.rs:140-143 | every observation inside a window can keep the tier from moving by that window |
| TierRuns.TierMovesTowardsTheObservation | crates/loadbear-core/src/tier.rs:193-204 | a step ends between the tier before and the tier just observed |
| TierRuns.ShownWasObserved | crates/loadbear-core/src/tier.rs:180-213 | what is shown is the initial assessment or one that was observed, whatever the timestamps |
| TierRuns.TierAndReasonNeverDisagree | crates/loadbear-core/src/tier.rs:51-56 | fed by the classifier, the shown reason is clear exactly when the shown tier is Easy, whatever the timestamps |
| TierBounds.ReversalTakesItsWindow | crates/loadbear-core/src/tier.rs:193-204 | a fall comes more than the settling window after the rise before it, and a rise more than the escalation window after the fall before it |
| TierBounds.FlickerIsBounded | crates/loadbear-core/src/tier.rs:140-143 | on any stretch of any run the two kinds of reversal differ by at most one and take at least their windows, each plus a millisecond |
| TierBounds.EvenReversalsNeedBothWindows | crates/loadbear-core/src/tier.rs:140-143 | an even, positive number of reversals takes more than half of it times both windows together |
| TierBounds.LoneMovesNeedALongGap | crates/loadbear-core/src/tier.rs:140-143 | on runs with gaps up to a bound, no observation moves the tier alone in its window, other than a run's first at the origin of the clock (or with an empty escalation window), if and only if the bound is at most the shorter window |
| TierBounds.BriefBurstNeverShows | crates/loadbear-core/src/tier.rs:119-122 | a burst that, with the calm observation before it, lies within the escalation window never shows |
| TierBounds.StreakNeverOvershoots | crates/loadbear-core/src/tier.rs:180-213 | while all observations are of one tier the shown tier never crosses it |
| TierBounds.StreakHolds | crates/loadbear-core/src/tier.rs:180-213 | once shown while all observations are of one tier, that tier stays |
| TierBounds.SustainedIsReached | crates/loadbear-core/src/tier.rs:180-238 | observations begun strictly after all others, with gaps up to twice the longest window, that have been at least a tier for the escalation window make the tier shown at least that, and at most a tier for the settling window at most that |
| TierBounds.StreakIsAnswered | crates/loadbear-core/src/tier.rs:180-238 | observations of one tier, begun strictly after all others and with gaps up to twice the longest window, have raised a lower tier to their own after the escalation window, and lowered a higher one after the settling window |
| TierBounds.PrunedAnswersAreTrue | crates/loadbear-core/src/tier.rs:183-191 | any answer the pruned history gives is the full log's; they differ only when the window is covered by forgotten observations alone |
| TierBounds.ForgettingIsInvisible | crates/loadbear-core/src/tier.rs:183-191 | with gaps up to twice the longest window, the tracker shows what one that never forgets would show |
| TierBounds.ForgettingIsInvisibleIff | crates/loadbear-core/src/tier.rs:183-191 | pruning cannot be noticed on any run with gaps up to a bound, if and only if the bound is at most twice the longest window (or both windows are empty) |
| TierBounds.FirstObservationMovesIff | crates/loadbear-core/src/tier.rs:222-226 | a run's first observation moves the tier if and only if it is not Easy and comes at the origin of the clock (or the escalation window is empty) |
| TierBounds.ShownAtTheOrigin | crates/loadbear-core/src/tier.rs:222-226 | an observation at the origin of the clock is shown at once |
| TierBounds.CalmAtFirstIff | crates/loadbear-core/src/tier.rs:218-220 | whatever it is told, a fresh tracker shows nothing before a whole escalation window has passed since its first observation, if and only if that one is after the origin of the clock (or the window is empty) |
| Counters.SampleWindow.Push | crates/loadbear-sensors-windows/src/counters.rs:248-253 | the window holds exactly the last samples pushed, up to its capacity, in order |
| Counters.SampleWindow.Median | crates/loadbear-sensors-windows/src/counters.rs:283-307 | the median is that of the last samples pushed, field by field |
| Counters.MedianIsMidway | crates/loadbear-sensors-windows/src/counters.rs:287-296 | the median is half way between the values that stand at the two middle places (one place for an odd count), where standing at place k is having at most k values below and more than k not above |
| Counters.MiddlesExist | crates/loadbear-sensors-windows/src/counters.rs:287-296 | any values have such middles among them |
| Counters.MajorityBelow | crates/loadbear-sensors-windows/src/counters.rs:287-296 | a strict majority below a level keeps the median below it |
| Counters.MajorityAtLeast | crates/loadbear-sensors-windows/src/counters.rs:287-296 | a strict majority at or above a level keeps the median there |
| Counters.MajorityWithin | crates/loadbear-sensors-windows/src/counters.rs:287-296 | if a strict majority lie in an interval, so does the median |
| Counters.QuietIsBelow | crates/loadbear-sensors-windows/src/counters.rs:400-413 | for a level above 0 and up to 1, a resource's stall is below it exactly when its counter is below that share of the value at which it is saturated; always for an unlearned disk |
| Counters.MostlyQuietIsJudgedQuiet | crates/loadbear-sensors-windows/src/counters.rs:272-307 | if more than half of the samples are below such a level for a resource, the judged sample is |
| Counters.BurstIsOutvoted | crates/loadbear-sensors-windows/src/counters.rs:216-233 | through a full window a burst of m loud samples is judged loud only within m+1 given ticks, and never when it is shorter than half a window |
| Counters.LoneSpikeIsNeverJudgedLoud | crates/loadbear-sensors-windows/src/counters.rs:204-214 | in a window of any capacity, while at least three samples are held, one loud sample is not judged loud |
| Counters.LoneSpikeIsOutvotedIff | crates/loadbear-sensors-windows/src/counters.rs:272-278 | in a window of any capacity, one loud sample, wherever it comes, is not judged loud at a tick if and only if at least three samples are held by then |
| Baseline.DiskBaseline.Observe | crates/loadbear-sensors-windows/src/baseline.rs:92-103 | memory and file after a sample are those of the model's run: only a quiet sample with real traffic changes the window, by sliding it, and marks it unsaved |
| Baseline.DiskBaseline.SaveIfChanged | crates/loadbear-sensors-windows/src/baseline.rs:177-195 | memory and file after a save are those of the model's run: the file holds the window, or is untouched, or is as a failed write left it; what is marked saved is what loading would give |
| Baseline.DiskBaseline.Load | crates/loadbear-sensors-windows/src/baseline.rs:145-170 | loading yields a window of positive figures with nothing waiting to be saved |
| Baseline.DiskBaseline.SaturationPoint | crates/loadbear-sensors-windows/src/baseline.rs:114-128 | nothing below 120 samples; otherwise ten times a sample that at most half of the window is below and more than half is not above |
| Baseline.NormalIsTheMiddle | crates/loadbear-sensors-windows/src/baseline.rs:114-122 | a figure is the learned normal if and only if it is in a window of at least 120, at most half of the window is below it, and more than half is not above it |
| Baseline.SavedComesBack | crates/loadbear-sensors-windows/src/baseline.rs:145-195 | every window is a fixed point of saving and loading |
| Baseline.LoadingTakesFiguresInOrder | crates/loadbear-sensors-windows/src/baseline.rs:156-165 | loading takes a stored list's positive figures in order into a sliding window, so the latest are kept |
| Baseline.NothingLearnedIsLost | crates/loadbear-sensors-windows/src/baseline.rs:92-195 | along every interleaving of samples, failed and successful saves, a clear dirty flag means that loading again would give exactly what is in memory |
| Baseline.WindowHoldsTheLatest | crates/loadbear-sensors-windows/src/baseline.rs:92-103 | from any window of at most 512, learning leaves exactly the last 512 qualifying latencies in order |
| Baseline.ReplacedDiskIsRelearned | crates/loadbear-sensors-windows/src/baseline.rs:114-128 | after 257 qualifying samples of a new disk within bounds, the saturation point lies within ten times those bounds |
| Baseline.RelearnedAfterHalfAWindow | crates/loadbear-sensors-windows/src/baseline.rs:92-122 | as a full window of a slow disk's samples takes in those of a quick one, the normal is the slow figure up to the 256th sample and the quick one from the 257th |
| Power.EnergyUnitJoules | crates/loadbear-sensors-windows/src/power.rs:57-60 | for every register value the unit is positive, and two to the register's exponent of them make a joule |
| Power.PackagePower.Read | crates/loadbear-sensors-windows/src/power.rs:90-110 | a failed read changes nothing; a successful one becomes the previous reading and reports what its interval supports |
| Power.TicksAreTrueIff | crates/loadbear-sensors-windows/src/power.rs:100-104 | energy never falling, the ticks of an interval are the counts really used modulo 2^32, hence equal to them if and only if those are fewer than 2^32 |
| Power.TicksTelescopeIff | crates/loadbear-sensors-windows/src/power.rs:100-104 | over a run in which energy never falls, the ticks never add up to more than the counts really used, and to exactly those if and only if fewer than 2^32 were used in every interval |
| Power.ReportIsTrueEnergyIff | crates/loadbear-sensors-windows/src/power.rs:100-109 | energy never falling, a reported wattage lies in 0 to 1000; times its interval it is never more than the energy really used, and is that energy if and only if fewer than 2^32 counts were used |
| Power.LappedIntervalIsReported | crates/loadbear-sensors-windows/src/power.rs:45-50 | a thousand seconds at 65 watts in which the counter goes round once are reported as no power at all |
| Power.NeverMisreportedIff | crates/loadbear-sensors-windows/src/power.rs:45-50 | on a machine drawing less than some wattage, read at some interval, every report is the energy really used, if and only if that wattage over that interval is within what the counter holds |
| Power.ReportedExactlyWhenPlausible | crates/loadbear-sensors-windows/src/power.rs:95-109 | energy never falling, a wattage is reported if and only if time has passed and the counts used, modulo 2^32, come to less than a kilowatt on average; so less than a kilowatt is always reported, and more only when 2^32 counts or more were used |
| Power.ReportsAddUp | crates/loadbear-sensors-windows/src/power.rs:90-110 | energy never falling, what is reported over a run never exceeds the energy really used; when every interval reports it is all of it if and only if fewer than 2^32 counts were used in every interval |
| Monitor.MinoritiesAreOutvoted | crates/loadbear-app/src/main.rs:871-985 | when no verdict fires and for each resource more than half of the held samples are below Braced, the judgement is calm |
| Monitor.SpikesNeverShow | crates/loadbear-app/src/main.rs:871-985 | if that holds at every tick, nothing but calm is ever judged or shown |
| Monitor.HeldAreTheLatest | crates/loadbear-app/src/main.rs:871-985 | the samples judged are the raw samples of the last four ticks, in order |
| Monitor.JudgedIff | crates/loadbear-app/src/main.rs:871-985 | a tier above Easy is judged if and only if some check fires on the newest reading with a severity that reaches it, or for some resource the median over the held samples reaches its share of saturation |
| Monitor.MajorityIsHeard | crates/loadbear-app/src/main.rs:871-985 | a resource at or above a tier's share of saturation in more than half of the held samples makes the judgement at least that tier |
| Monitor.DiskIsJudgedByItsOwn | crates/loadbear-app/src/main.rs:871-985 | once 257 qualifying samples within bounds have been taken, the disk is judged against a saturation within ten times those bounds |
| Monitor.SustainedJudgementShows | crates/loadbear-app/src/main.rs:871-985 | with a clock that does not run back and ticks no further apart than twice the longest window, judgements of at least a tier for the escalation window show at least that tier, and of at most a tier for the settling window at most that |
| Monitor.OutlastedBurstNeverShows | crates/loadbear-app/src/main.rs:871-985 | while no verdict fires and the clock does not run back, a burst of loud samples among ones below Braced, wherever it begins, never shows if each tick at which it is half of the samples held comes within the escalation window after one at which it is not, or before that window is covered |
| Monitor.BriefBurstOfSamplesNeverShows | crates/loadbear-app/src/main.rs:871-985 | so, under the same conditions, a burst whose ticks, to two after its end, span no more than the escalation window never shows, nor does a single loud sample after two others |
| SharedRecord.SetLabel | crates/loadbear-sensors-windows/src/shared.rs:199-204 | the slot holds at most seven bytes of the label, then zeros |
| SharedRecord.Pack | crates/loadbear-service/src/main.rs:215-228 | the record holds the first sixteen zones, each in its own slot, nothing in the other slots, and the other figures as read |
| SharedRecord.PublishedZonesRoundTrip | crates/loadbear-sensors-windows/src/shared.rs:169-182 | packed, stamped and listed, those of the first sixteen zones that have a temperature come back in order, with labels cut to seven bytes and at a NUL, under the writer's version and revision, fresh exactly while no older than the limit |
| SharedRecord.ShortLabelsComeBackUnchanged | crates/loadbear-sensors-windows/src/shared.rs:198-204 | when every zone has a temperature and a label of at most seven bytes without NUL, the labels come back unchanged and no zone is lost |
| SharedRecord.FreshIff | crates/loadbear-sensors-windows/src/shared.rs:193-196 | a record is fresh if and only if its version is this layout's and it is at most fifteen seconds old |
| Seqlock.StepKeepsInv | crates/loadbear-sensors-windows/src/mapping.rs:115-127 | every step of publisher or reader keeps the protocol's invariant |
| Seqlock.SequenceIsOddExactlyWhileWriting | crates/loadbear-sensors-windows/src/mapping.rs:110-114 | the sequence is odd exactly while a record is being written |
| Seqlock.CheckPassesExactlyWhenUndisturbed | crates/loadbear-sensors-windows/src/mapping.rs:230-232 | with fewer than 2^31 publishes begun, the final check passes if and only if the sequence was not stored to since the attempt began |
| Seqlock.AcceptedIsNewest | crates/loadbear-sensors-windows/src/mapping.rs:219-236 | with fewer than 2^31 publishes begun in the attempt, what a passing check returns is all of memory and the newest settled record |
| Seqlock.ReadersOnlyMoveForward | crates/loadbear-sensors-windows/src/mapping.rs:214-236 | in every interleaving with fewer than 2^31 publishes begun in any attempt, every record given is one whole settled record, and one reader never goes back in time |
| Seqlock.AttemptIsAcceptedExactlyWhenUndisturbed | crates/loadbear-sensors-windows/src/mapping.rs:219-236 | with fewer than 2^31 publishes begun in any attempt, an attempt that reaches its check is accepted if and only if no publish began during it, and then returns what memory held throughout |
| Seqlock.EveryResultWasNewest | crates/loadbear-sensors-windows/src/mapping.rs:219-236 | with fewer than 2^31 publishes begun in any attempt, every record given was, at an instant within its call, memory and the newest settled record |
| Seqlock.GaveUpOnlyWhenDisturbed | crates/loadbear-sensors-windows/src/mapping.rs:216-235 | a call that gave up found, in each of its eight attempts, a record being written or a publish begun during the attempt |
| Seqlock.CallsEnd | crates/loadbear-sensors-windows/src/mapping.rs:216-218 | each of a reader's own steps brings the end of its call closer, whatever the publisher does |
| SeqlockWrap.ComingRoundAcceptsATornRecord | crates/loadbear-sensors-windows/src/mapping.rs:118-125 | exactly 2^31 publishes inside one attempt can end in a torn record being accepted |
| SeqlockWrap.SoundIff | crates/loadbear-sensors-windows/src/mapping.rs:110-127 | on every run whose attempts span at most n publishes only settled records are given, if and only if n is below 2^31 |
| SharedMapping.SharedView.Read | crates/loadbear-sensors-windows/src/mapping.rs:219-236 | whatever the others do in the pauses between its words, short of 2^31 publishes in an attempt, the retry loop returns the newest settled record, no older than at the call; it returns nothing only if a record was or came to be written; and while nobody publishes it returns the record there is |
| SharedMapping.SharedView.Attempt | crates/loadbear-sensors-windows/src/mapping.rs:222-233 | short of 2^31 publishes meanwhile, one attempt returns the newest settled record after a pause for others before each of its words, or fails, only if a record was or came to be written, and moves on |
| SharedMapping.SharedView.Publish | crates/loadbear-sensors-windows/src/mapping.rs:115-127 | whatever readers do in the pause before each of its words, the log gains exactly this reading, stamped, and memory holds it |
| RecordLayout.RecordComesBack | crates/loadbear-sensors-windows/src/shared.rs:95-121 | laid out in its 58 words and read back, a record whose figures each fit in a word is the same record |
| RecordLayout.StampedWordsAreThePayload | crates/loadbear-sensors-windows/src/mapping.rs:143-150 | stamping the words is stamping the record |
| RecordLayout.ReadersSeePackedZones | crates/loadbear-sensors-windows/src/mapping.rs:214-236 | from the helper's zones to the reader's, in every interleaving with fewer than 2^31 publishes in any attempt: a record given since the first publish reads back as one the helper packed, and lists its zones |
| Http.Dechunk | crates/loadbear-sensors-windows/src/docker.rs:184-196 | the loop computes the decoding the lemmas below are about |
| Http.Body | crates/loadbear-sensors-windows/src/docker.rs:167-197 | the body of a successful response, decoded when it is chunked, and nothing otherwise |
| Http.SizeLineReadsBack | crates/loadbear-sensors-windows/src/docker.rs:187-189 | a size line gives its size back whatever extension, case or leading zeros it has, and zero when it does not fit in 64 bits |
| Http.PaddedSizeReadsBack | crates/loadbear-sensors-windows/src/docker.rs:186-188 | a size gives itself back within any white space, and after a plus sign |
| Text.HexDigitsInEitherCase | crates/loadbear-sensors-windows/src/docker.rs:186-188 | the hexadecimal digits are the sixteen, in either case |
| Http.CutBodyDecodesToWholeChunks | crates/loadbear-sensors-windows/src/docker.rs:184-196 | cut anywhere, an encoded body (section 7.1 of RFC 9112) decodes to the data of exactly the chunks that arrived whole |
| Http.ChunkingIsUndone | crates/loadbear-sensors-windows/src/docker.rs:163-166 | a complete body decodes to the concatenation of its data, however it was chunked |
| Http.AnyDataMakesAChunk | crates/loadbear-sensors-windows/src/docker.rs:187-189 | any data of 1 up to 2^64 - 1 characters can be sent as a chunk, so the round trip is not vacuous |
| Http.HeadIsSplitOff | crates/loadbear-sensors-windows/src/docker.rs:167-182 | what follows a head's own blank line is the body, decoded when the head says so, if the response succeeded |
| Http.ChunkedHeaderInAnyCase | crates/loadbear-sensors-windows/src/docker.rs:179 | a head announces chunks if and only if the header stands somewhere in it letter by letter, whatever the case |
| Http.UsualHeaderIsChunked | crates/loadbear-sensors-windows/src/docker.rs:358-364 | a head with the header as the engine writes it announces chunks |
| Http.StatusLineDecides | crates/loadbear-sensors-windows/src/docker.rs:170-177 | a response succeeds exactly when its first line, or all of a head that has no line end, contains the success code |
| JsonScan.ArrayItems | crates/loadbear-sensors-windows/src/docker.rs:206-239 | the loop over indices computes the scan the lemmas below are about |
| JsonScan.ValueIsInert | crates/loadbear-sensors-windows/src/docker.rs:206-239 | outside strings and below the top level, any printed value only lengthens the current item |
| JsonScan.ItemsOfAPrintedArray | crates/loadbear-sensors-windows/src/docker.rs:205-239 | the items of a printed array of objects, of any nesting, escapes and white space (RFC 8259), the empty array included, are exactly the printed objects in order |
| JsonScan.ItemsOfAPrefix | crates/loadbear-sensors-windows/src/docker.rs:206-239 | the items of a prefix of a text are the first items of the text |
| JsonScan.ItemsOfACutArray | crates/loadbear-sensors-windows/src/docker.rs:206-239 | cut anywhere, a printed array yields exactly the objects that end before the cut, in order |
| ContainerList.ReadList | crates/loadbear-sensors-windows/src/docker.rs:53-58 | the list read from a response is what its decoded body lists |
| ContainerList.CutReplyListsWhatArrived | crates/loadbear-sensors-windows/src/docker.rs:163-239 | wherever a successful chunked response carrying a printed array is cut, its head included, what is listed is exactly the objects that end within the data of the chunks that arrived whole |
| ContainerList.CutReplyListsAPrefix | crates/loadbear-sensors-windows/src/docker.rs:163-239 | so it is a prefix of the objects sent, and all of them when nothing is missing |
| Grouping.GroupByName | crates/loadbear-core/src/attribution.rs:130-161 | there is one group for each name, in order of first appearance, built from exactly the processes of that name |
| Grouping.KeysAreTheNames | crates/loadbear-core/src/attribution.rs:133-136 | the names grouped by are exactly those that occur, each once |
| Grouping.GroupedTogetherIff | crates/loadbear-core/src/attribution.rs:133-135 | two processes are in one group if and only if their names differ, letter by letter, in nothing but case |
| Grouping.MembersAreTheNamesakes | crates/loadbear-core/src/attribution.rs:133-135 | the processes in a group are exactly those whose names differ from the group's own in nothing but case |
| Grouping.GroupsHaveTheirKeys | crates/loadbear-core/src/attribution.rs:133-136 | each group has its own name and at least one member |
| Grouping.GroupTotals | crates/loadbear-core/src/attribution.rs:136-157 | a group counts its members, adds up their use (memory capped at the 64-bit maximum), is represented by a member, and displays the first display name a member carries |
| Grouping.GroupingConserves | crates/loadbear-core/src/attribution.rs:130-161 | the counts of all groups add up to the number of processes and their processor shares to the sum of all; their memory never to more than all of it, and to all of it when that is below 2^64 |
| Grouping.EachProcessHasOneGroup | crates/loadbear-core/src/attribution.rs:132-136 | each process is a member of exactly one group |
| Grouping.RepresentativeIsTheOneNamed | crates/loadbear-core/src/attribution.rs:143-147 | the representative is the last member to exceed the running mean at its place, or else the first |
| Grouping.RepresentativeIsLargestIff | crates/loadbear-core/src/attribution.rs:107 | that member is a largest one if and only if no smaller member listed after every largest exceeds the mean at its place |
| Grouping.RepresentativeNeedNotBeLargest | crates/loadbear-core/src/attribution.rs:143-147 | three processes whose group is not represented by its largest |
| Attribution.CoverageIsEnough | crates/loadbear-core/src/attribution.rs:168-178 | coverage is known when the utilization is, lies in 0 to 1, is the ratio where that does, is 1 for an idle machine, and passes its gate exactly when the visible processes account for three fifths of the utilization |
| Attribution.CpuLeader | crates/loadbear-core/src/attribution.rs:181-205 | a group is named if and only if enough is visible, it holds a fifth of the machine, and it is at least 1.5 times every other group |
| Attribution.MemoryLeader | crates/loadbear-core/src/attribution.rs:208-229 | a group is named if and only if the total (modulo 2^64) is not zero, and it holds three tenths of that total and is at least 1.5 times every other group |
| Attribution.CausesAreUnique | crates/loadbear-core/src/attribution.rs:49-56 | at most one group is a cause |
| Attribution.CpuCauseIgnoresOrder | crates/loadbear-core/src/attribution.rs:181-205 | when a group is a cause, one of the same name is the cause after any rearrangement of the process list |
| Attribution.MemoryCauseIgnoresOrder | crates/loadbear-core/src/attribution.rs:208-229 | the same for memory |
| Attribution.TotalIsAllObserved | crates/loadbear-core/src/attribution.rs:212 | while everything observed fits in 64 bits, shares are taken of all of it |
| Attribution.TotalWraps | crates/loadbear-core/src/attribution.rs:212 | the total differs from what all groups hold by whole multiples of 2^64 |
| Containers.ResolveContainer | crates/loadbear-core/src/attribution.rs:293-322 | a container is named if and only if one is at least 1.5 times every other, and then the first such |
| Containers.NamedByItsFigure | crates/loadbear-core/src/attribution.rs:302-318 | for the processor containers are compared by their processor share, for memory and disk by their memory |
| Containers.OnlyIdleContainersTie | crates/loadbear-core/src/attribution.rs:309-321 | two containers qualify at once exactly when there are several and nothing uses anything |
| Containers.OrderMattersOnlyWhenIdle | crates/loadbear-core/src/attribution.rs:293-322 | every rearrangement of the list names the same container, if and only if something uses the resource or all containers are alike |

## Left out

- Win32 and driver calls (performance counters, process enumeration, the PawnIO driver, service control, installer): register values and samples are inputs.
- The Tauri shell, status assembly and the graph in `crates/loadbear-app`: only the order of the sampling loop is modelled, and the processor reading a tick judges is an input of that tick.
- The memory model behind the fences of the seqlock, its initialisation, and a restarting helper: word loads and stores are sequentially consistent and the mapping is initialised.
- RecordLayout.RecordComesBack: how a 32-bit float is written is a parameter, and a record is one whose figures come back from it; the padding word is zero.
- Floating-point rounding, NaN ordering and the JSON formatting of the baseline file: numbers are real, and the file holds a list of numbers or nothing readable.
- Unicode: text is ASCII, so case folding and trimming are those of ASCII, and slicing by bytes is slicing by characters.
- Attribution.MemoryLeader: the sum of all groups' bytes wraps at 64 bits, as a release build does; the panic of a debug build on overflow is not modelled.
- `attribute`, `diagnose`, `io_leader` and the name tables for Docker and system processes: they dispatch on a leader already characterised.
- `SampleWindow::average`, `actual_mhz`, `thermal_band`, `is_settling`, `reported_base_mhz` and the decoders of other registers: single expressions, or for display only.
- `json::string`, `first_name` and `nested_u64`: first-match searches without scoping, with no specification worth proving.
- Verdict prose, labels, and the name of a merged specification (the model keeps the first product's).
