# Verified model of the runner

The runner is an unattended job dispatcher with a command-line companion that audits its evidence.
This project models the parts whose correctness is arithmetic, string reasoning or state kept over a
whole run, and proves what they promise.

- **Evidence arithmetic** (`Calendar`, `Timestamps`, `EpochSeconds`, `IdleGaps`, `GapSummary`, `IdleReport`,
  `IdleCoverage`, `CheckHealth`, `Ancestry`, `JsonSchema`): the calendar formula counts days and a timestamp
  the seconds since the epoch, the idle-gap sweep finds exactly the maximal stretches without a counted
  run, the bounded process walk agrees with reachability as far as its bound allows, the schema searches
  are sound and complete, and check classification is order-free.
- **Snapshot merging and counting** (`OrderedMap`, `QueueMerge`, `QueueKeys`, `FleetMerge`, `LabelCounts`,
  `QueueAudit`, `QueueListing`, `QueueTotals`): merges are characterised key by key and the counts add up.
- **Secret redaction** (`Redaction`, `RedactionMeaning`, `RedactionWitnesses`, `RedactionStretches`): when a
  sequence of replacement passes leaves no registered secret, with the exact condition for one secret,
  for a last secret that straddles the placeholder, and for all secrets without angle quotation marks.
- **Admission ledgers** (`RateLimit`, `SingleFlight`, `Governor` with `TierLevels` and `Doubles`,
  `LoopGuard`, `Recovery`, `Quarantine`): each is a class whose methods are tied to a function of its
  whole history, and the guarantees are lemmas about all histories.
- **The dispatch pipeline** (`Dispatch`, `DispatchRuns`, `DispatchAdvice`): the ledgers behind the ordered
  gates of the request handler, what holds over every sequence of frames, and what the advice in a
  refusal is worth.
- **Configuration lines** (`ConfigLines`): the de-duplicator and its separate counter agree, and the
  gitignore rewrite removes exactly what its test objects to.

`Text` holds the ASCII case folding, trimming and substring facts the others share, `Numbers` the integer
widths and saturating sums, and `Wrappers` the option type.

Where a statement that the documentation suggests is not true of the code, the model follows the code
and states exactly when it holds:

- The redactor's documentation says no registered secret survives. A secret that is part of the
  placeholder, or that can run into or out of it, can survive (`Redaction.OneSecretExactly`,
  `Redaction.QuoteFreeRegistryIsScrubbed`).
- The tier is computed in `f64`. It reads `Full` under a zero cap that denies everything, and `Halted`
  one short of a large cap that rounds like its predecessor (`Governor.HaltedExactly`); the nine-tenths
  level is exact for caps below 3002399751580339 (`Governor.TierThresholds`).
- The timestamp parser accepts day 31 in every month and second 60, and these are not ordered like their
  fields (`Timestamps.StrictOrderExactly`); it also ignores anything between the seconds and the final Z
  (`Timestamps.TailIsIgnored`).
- Single-flight numbers saturate. A stale lease can come back and free a newer flight exactly when it has
  the maximum number (`SingleFlight.StaleLeaseReturnsExactly`); runs reach that number
  (`SingleFlight.SaturatedSequenceRepeats`), and every other lease keeps the guarantee.
- The rate window's expiry saturates, so in the last second of the clock everything is admitted
  (`RateLimit.CappedSpansExactly`).
- The process walk is exact for tables of up to 64 processes and for no larger bound
  (`Ancestry.BoundIsExact`).
- Event and workflow counts total the runs scanned exactly when no merged run leaves the field empty
  (`QueueTotals.TriggerEventsAddUp`, `QueueTotals.RowTotalsAddUp`).
- The state gate tells a deferred job to retry later, but nothing a client sends can end the deferral
  (`DispatchAdvice.DeferralIsForGood`); a cooling route's advice can run into a full window
  (`DispatchAdvice.AdvisedWaitExactly`), and a kernel failure's backoff into the cooldown the failure
  starts (`DispatchAdvice.KernelAdviceExactly`).

## Model

| member | source | states |
|---|---|---|
| Calendar.FormulaCountsDays | crates/runner-cli/src/forge_loop.rs:2709-2718 | For every Gregorian date, negative years included, the formula's number is the count of calendar days: that many steps forward from 1970-01-01 reach the date, and for an earlier date its negation reaches 1970-01-01 from the date. |
| Calendar.NextDayAddsOne | crates/runner-cli/src/forge_loop.rs:2709-2718 | The next calendar day is numbered exactly one higher, across month ends, year ends and leap days. |
| Calendar.DayNumberIncreases | crates/runner-cli/src/forge_loop.rs:2709-2718 | Strictly increasing in (year, month, day) from any real date, even towards a triple whose day runs past its month. |
| Calendar.OverflowingDayIsNotBeforeNextMonth | crates/runner-cli/src/forge_loop.rs:2693-2718 | A day past the end of its month, which the parser accepts, is numbered no earlier than the first day of the next month although its fields come before it. |
| Calendar.EraLength | crates/runner-cli/src/forge_loop.rs:2710-2717 | Four hundred years are exactly 146097 days, for all field values. |
| Calendar.NoOverflow | crates/runner-cli/src/forge_loop.rs:2709-2718 | For every year a timestamp can hold, every intermediate value of the 32-bit computation stays in range, from the shifted year to the sum before the last subtraction, so computing on unbounded integers loses nothing. |
| Timestamps.ReadsBackWhatIsWritten | crates/runner-cli/src/forge_loop.rs:2681-2707 | Writing any readable fields, years -999 to 9999, and parsing the text gives the fields back, and no text is read as any other fields; the seconds are those EpochSeconds counts. |
| Timestamps.AcceptedExactly | crates/runner-cli/src/forge_loop.rs:2681-2705 | A text is read as given fields if and only if it spells them and they are in range: fixed separators, two characters a field with an optional plus sign, a year of four digits or of a sign and three, anything after that, and Z at the end. |
| Timestamps.SecondsFollowFields | crates/runner-cli/src/forge_loop.rs:2681-2707 | Parsed times order like their fields: never out of order from a real date, strictly in order for seconds up to 59. |
| Timestamps.StrictOrderExactly | crates/runner-cli/src/forge_loop.rs:2693-2707 | A readable timestamp is strictly earlier than every later readable one if and only if its date is real and its second is below 60, or it is the last one there is, 9999-12-31T23:59:60. |
| Timestamps.TailIsIgnored | crates/runner-cli/src/forge_loop.rs:2682-2692 | Whatever stands between the nineteenth character and the final Z is ignored, a zone offset included. |
| EpochSeconds.StartReadsZero | crates/runner-cli/src/forge_loop.rs:2681-2707 | The text 1970-01-01T00:00:00Z is read as 0. |
| EpochSeconds.TickAddsOne | crates/runner-cli/src/forge_loop.rs:2705-2706 | The next second of the clock, across minutes, hours, days and years, reads exactly one higher. |
| EpochSeconds.SecondsCountTicks | crates/runner-cli/src/forge_loop.rs:2681-2707 | The text of any real date with a second below 60 is read as the signed number of clock steps from the start of 1970. |
| EpochSeconds.OffClockSeconds | crates/runner-cli/src/forge_loop.rs:2681-2707 | Off the clock, second 60 reads as one more than 59, and a day past its month as so many days after the month's last. |
| CheckHealth.OneMoreEntry | crates/runner-cli/src/forge_loop.rs:2873-2954 | Merging one more entry into a check's state agrees with the order-free verdict, so `merged_with` computes the join over all of that check's entries. |
| CheckHealth.MergeStates | crates/runner-cli/src/forge_loop.rs:2873-2890 | The state map holds exactly the required checks that have entries, each with its order-free verdict over all its entries. |
| CheckHealth.ClassifyRunnerHealth | crates/runner-cli/src/forge_loop.rs:2873-2925 | The loop over required checks yields the four lists and the pressure flag of the order-free report. |
| CheckHealth.ListsPartitionRequiredChecks | crates/runner-cli/src/forge_loop.rs:2873-2954 | Each required check is in exactly one list: failed iff it has entries and all failed, pending iff some entry is pending, missing iff it has none, passed otherwise; pressure iff a required check has a pending entry. |
| CheckHealth.OrderAndRepetitionDoNotMatter | crates/runner-cli/src/forge_loop.rs:2873-2941 | Lists with the same entries, in any order and any number of copies, get the same report. |
| CheckHealth.VerdictsAreRead | crates/runner-cli/src/forge_loop.rs:2873-2954 | The lists told from the entries' own status and conclusion: pending if some entry is waiting or has no conclusion, passed if none is and one succeeded, failed with entries otherwise, missing without. |
| IdleGaps.GapsAreExact | crates/runner-cli/src/forge_loop.rs:2428-2443 | Over arbitrary intervals and any window, the sweep's gaps are ordered and disjoint and are exactly the maximal stretches of the window no interval touches. |
| IdleGaps.IdleLiesInAGap | crates/runner-cli/src/forge_loop.rs:2428-2443 | Every untouched stretch of the window, maximal or not, lies inside one recorded gap. |
| IdleGaps.SameIntervalsSameGaps | crates/runner-cli/src/forge_loop.rs:2415-2443 | The gaps depend only on which intervals occur, not on their order or repetition. |
| IdleGaps.GapsAndCoverFillWindow | crates/runner-cli/src/forge_loop.rs:2428-2443 | Gap lengths plus the unit seconds covered by some interval add up to the window's length. |
| GapSummary.GapRecorder.Record | crates/runner-cli/src/forge_loop.rs:2446-2462 | One recorded gap updates the running totals so that they stay the totals of all gaps recorded so far: a count of the recovered ones and three maxima in minutes rounded up. |
| GapSummary.Sweep | crates/runner-cli/src/forge_loop.rs:2428-2444 | The cursor loop over sorted intervals, recording as it goes, ends with the totals of exactly the sweep's gaps. |
| GapSummary.LongestIsAMaximum | crates/runner-cli/src/forge_loop.rs:2446-2462 | The running maximum bounds every recorded gap and is attained by one of them. |
| IdleReport.LocalRunnerIdleGapRecovery | crates/runner-cli/src/forge_loop.rs:2409-2444 | Collecting, sorting and sweeping the productive runs returns the totals of the exact gaps, judged for recovery by the run and pull-request history. |
| IdleReport.ObservedIsBruteForce | crates/runner-cli/src/forge_loop.rs:2409-2462 | The observed maximum is the longest idle stretch of the window over all stretches there are, in minutes rounded up. |
| IdleReport.RecoveryTotalsAreBruteForce | crates/runner-cli/src/forge_loop.rs:2409-2477 | The recovered and unrecovered maxima are those of the maximal idle stretches with and without a recovery; the larger is the observed maximum, and each recovered stretch is counted once. |
| IdleReport.SustainRunsMustLast | crates/runner-cli/src/forge_loop.rs:2516-2565 | A finished sustain run is productive exactly when it succeeded and lasted the required minutes, and its interval is at least that long. |
| IdleCoverage.IntervalsAreRuns | crates/runner-cli/src/forge_loop.rs:2516-2565 | The intervals are exactly those of the counted runs, told from name, status and timestamps: sustain runs that wait, go on or lasted, CI, PR-title and forge-loop runs, from creation to the last later update. |
| IdleCoverage.CoveredIsBusy | crates/runner-cli/src/forge_loop.rs:2516-2565 | A second is covered if and only if some counted run was created by then and updated after it. |
| IdleCoverage.GapsAreTheIdleSeconds | crates/runner-cli/src/forge_loop.rs:2409-2444 | A second of the window lies in a recorded gap if and only if no counted run was under way at it. |
| IdleCoverage.GapsHoldNoStart | crates/runner-cli/src/forge_loop.rs:2409-2444 | No counted run, not even one without length, was created strictly inside a recorded gap. |
| IdleCoverage.RecoveryIsExact | crates/runner-cli/src/forge_loop.rs:2464-2514 | A gap counts as recovered if and only if some merged pull request that speaks of idle or sustained runners, with no required check failed, followed its end within ninety minutes and was itself followed within an hour by a successful sustain or watch run. |
| IdleCoverage.MinutesRoundUp | crates/runner-cli/src/forge_loop.rs:2453 | A gap's minutes are its seconds rounded up. |
| IdleReport.SameEntriesSameReport | crates/runner-cli/src/forge_loop.rs:2409-2477 | The whole report is the same for every reordering or repetition of the runs and of the pull requests. |
| IdleReport.MoreRunsNeverMoreIdle | crates/runner-cli/src/forge_loop.rs:2409-2462 | With the window fixed, more runs never lengthen the longest observed gap. |
| IdleReport.MorePullRequestsNeverMoreUnrecovered | crates/runner-cli/src/forge_loop.rs:2464-2514 | More merged-pull-request history never lengthens the longest unrecovered gap and leaves the observed maximum alone. |
| Ancestry.HasRunnerWorkerAncestor | crates/runner-cli/src/forge_loop.rs:2174-2194 | The walk ends on every table, cycles included, and is true exactly when one of the first 64 links of the parent chain is a runner worker. |
| Ancestry.WalkFollowsPaths | crates/runner-cli/src/forge_loop.rs:2174-2194 | The walk succeeds exactly when a path of at most 64 recorded parents, none of them zero or the process itself, leads to a process whose command line holds Runner.Worker. |
| Ancestry.BoundIsEnoughForSmallTables | crates/runner-cli/src/forge_loop.rs:2174-2194 | On a table of at most 64 processes the bounded walk agrees with unbounded reachability. |
| Ancestry.BoundMissesLongerChains | crates/runner-cli/src/forge_loop.rs:2176-2193 | For every length above 64, a straight chain of that many processes has a worker ancestor that the walk misses. |
| Ancestry.BoundIsExact | crates/runner-cli/src/forge_loop.rs:2174-2194 | The walk agrees with unbounded reachability on every table of at most n processes if and only if n is at most 64. |
| JsonSchema.SearchFindsExactlyDeclaredPaths | crates/runner-cli/src/forge_loop.rs:3267-3469 | A path search is true exactly when some route into the document takes the path's names in order as property steps, with free descent between them, and ends at an object passing the leaf test. |
| JsonSchema.SearchLooksEverywhere | crates/runner-cli/src/forge_loop.rs:3267-3469 | What is found in any part of a document is found in the document. |
| JsonSchema.BoundsAreRead | crates/runner-cli/src/forge_loop.rs:3340-3469 | The number tests compare a declared whole number in range with the bound, inclusively, and fail without one. |
| JsonSchema.TextsAreRead | crates/runner-cli/src/forge_loop.rs:3267-3437 | The text tests: an enum lists every required value, directly or under items, and a pattern is the one asked for. |
| JsonSchema.RequirementSearchIsExact | crates/runner-cli/src/forge_loop.rs:3246-3265 | The key search is true exactly when some object anywhere in the document lists the key as required. |
| OrderedMap.CollectIsGroupwise | crates/runner-cli/src/forge_loop.rs:2230-2261 | Filling an ordered map leaves keys strictly ascending, and under each key the fold of exactly that key's inputs in input order. |
| OrderedMap.CollectSorted | crates/runner-cli/src/forge_loop.rs:2230-2261 | Collecting a list that is already in key order changes nothing. |
| OrderedMap.LessIsLexicographic | crates/runner-cli/src/forge_loop.rs:2230-2276 | The order of the keys is the dictionary's: a proper prefix or a smaller first difference comes first. |
| OrderedMap.KeyLessByFirstDifference | crates/runner-cli/src/forge_loop.rs:2230-2276 | Key tuples are ordered by the first field they differ in. |
| QueueMerge.DedupeRunnerQueueJobs | crates/runner-cli/src/forge_loop.rs:2263-2276 | The map-filling loop returns the collected list whose meaning JobsAreFirstOfTheirKey states. |
| QueueMerge.DedupeRunnerQueueRuns | crates/runner-cli/src/forge_loop.rs:2230-2261 | The map-filling loop, with job lists joined and de-duplicated at each meeting, returns the collected list whose meaning RunsAreMergedByKey states. |
| QueueMerge.JobsAreFirstOfTheirKey | crates/runner-cli/src/forge_loop.rs:2263-2276 | De-duplicated jobs are in strictly ascending key order, one for each key that occurs, and each is the first input with its key. |
| QueueKeys.OneJobPerCombination | crates/runner-cli/src/forge_loop.rs:2263-2276 | There is exactly one de-duplicated job for each combination of name, status, runner name and url, and it is one of the inputs. |
| QueueMerge.JobKeysAreTheUnion | crates/runner-cli/src/forge_loop.rs:2263-2276 | No job key is lost and none appears from nowhere. |
| QueueMerge.DedupeEarlyOrLate | crates/runner-cli/src/forge_loop.rs:2246-2257 | De-duplicating part of the jobs before joining the rest gives the same list as joining everything first. |
| QueueMerge.RunsAreMergedByKey | crates/runner-cli/src/forge_loop.rs:2230-2261 | Merged runs are in strictly ascending (repository, run) order, one for each key; each text field is the first non-empty value among that key's snapshots in input order, and the jobs are those of all of them, de-duplicated when there are several snapshots. |
| QueueKeys.OneRunPerPair | crates/runner-cli/src/forge_loop.rs:2230-2261 | There is exactly one merged run for each pair of repository and run id among the snapshots. |
| QueueMerge.MergingIsIdempotent | crates/runner-cli/src/forge_loop.rs:2230-2276 | Merging merged runs, or de-duplicated jobs, changes nothing. |
| FleetMerge.DedupeRunnerFleetJobs | crates/runner-cli/src/forge_loop.rs:2209-2228 | The map-filling loop returns the collected list whose meaning FleetJobsAreUnions states. |
| FleetMerge.FleetJobsAreUnions | crates/runner-cli/src/forge_loop.rs:2209-2228 | One entry per job key in ascending order, holding exactly the process ids of all its sightings; sorted and distinct when there were several. |
| QueueKeys.OneFleetJobPerCombination | crates/runner-cli/src/forge_loop.rs:2209-2228 | There is exactly one merged fleet job for each combination of repository, run id, job and workspace. |
| QueueAudit.CountRuns | crates/runner-cli/src/forge_loop.rs:1748-1790 | Each counting map holds exactly the labels that occur with their number of occurrences, empty events and workflows skipped, per repository and overall; the jobs are those of all runs in order. |
| QueueListing.SummariesTell | crates/runner-cli/src/forge_loop.rs:1766-1790 | There is one summary for each job of each run, and each repeats its run's and its job's fields, the run's url standing in for an empty one. |
| QueueListing.CountsAreRuns | crates/runner-cli/src/forge_loop.rs:1748-1765 | A label's count is the number of runs, of the repository or of all, that say it. |
| QueueAudit.CountJobsByRepository | crates/runner-cli/src/forge_loop.rs:2838-2844 | The map holds exactly the repositories of the jobs, each with its number of jobs. |
| QueueAudit.RunnerQueueAudit | crates/runner-cli/src/forge_loop.rs:1739-1876 | From raw snapshots: merge, count and list; every number, list and row of the report is tied to the merged runs, and the queue is ready exactly when there are runs and no more local jobs are queued than allowed. |
| QueueAudit.ReportAddsUp | crates/runner-cli/src/forge_loop.rs:1739-1838 | In every lane the repository rows' counts add up to the length of the lane's list, so no listed job lacks a row; the lists and the unlisted jobs make up the jobs scanned. |
| QueueAudit.RepositoryCountsAddUp | crates/runner-cli/src/forge_loop.rs:1748-1770 | The per-repository run counts add up to the runs scanned. |
| QueueAudit.TableColumnsAddUp | crates/runner-cli/src/forge_loop.rs:1748-1770 | An event's counts over all repositories add up to its overall count; likewise a workflow's. What the counts total is stated by the four rows on totals. |
| QueueTotals.TriggerEventsAddUp | crates/runner-cli/src/forge_loop.rs:1748-1765 | The trigger-event counts and the runs with an empty event make up the runs scanned; the counts alone total the runs scanned if and only if no merged run has an empty event. |
| QueueTotals.RowTotalsAddUp | crates/runner-cli/src/forge_loop.rs:1748-1770 | All rows' event counts, or workflow counts, together total the runs scanned short of exactly the runs that leave the field empty, hence equal it if and only if none does. |
| QueueTotals.RowAddsUp | crates/runner-cli/src/forge_loop.rs:1748-1770 | The same within one repository's row, against that repository's number of runs. |
| QueueTotals.FilledExactlyWhenSomeSnapshotIs | crates/runner-cli/src/forge_loop.rs:1740-1770 | No merged run leaves the field empty, so the counts total the runs scanned, if and only if every run has a snapshot that fills it. |
| QueueAudit.ListsAreDisjointAndComplete | crates/runner-cli/src/forge_loop.rs:1792-1809 | No job is in two of the three lists, and the lists and the unlisted jobs together number all jobs. |
| QueueListing.ListedExactly | crates/runner-cli/src/forge_loop.rs:1792-1809 | Each list holds exactly the jobs of its kind, told from labels and status in any letter case: going on or waiting with all three local labels, or waiting without. |
| LabelCounts.CountsSumToTotal | crates/runner-cli/src/forge_loop.rs:2838-2844 | Counts of labels over any set that holds them all add up to the number of entries counted. |
| Redaction.Redactor.Register | crates/runner-core/src/redact.rs:56-64 | A secret is added exactly when it has at least the minimum bytes and is new; the list stays free of duplicates, longest first and above the minimum. |
| RedactionMeaning.ByteLenIsUtf8 | crates/runner-core/src/redact.rs:56-62 | The length secrets are measured and sorted by is the number of bytes of their UTF-8 encoding, from which each character reads back. |
| Redaction.Redactor.RegisterAll | crates/runner-core/src/redact.rs:73-83 | The list ends up holding exactly the old secrets and the candidates that are long enough. |
| Redaction.Redactor.Redact | crates/runner-core/src/redact.rs:98-106 | The loop of guarded replacements equals the plain sequence of replacement passes over the list, and returns a clean text as it is. |
| RedactionMeaning.PassReplacesLeftmost | crates/runner-core/src/redact.rs:98-106 | A pass replaces the leftmost occurrences that do not overlap and nothing else: however a text is cut at them, the result is the parts around placeholders, and every text can be cut so. |
| Redaction.PassReintroducesNothing | crates/runner-core/src/redact.rs:98-106 | A pass for one secret creates no occurrence of another that was absent, unless that other lies in or straddles the placeholder. |
| Redaction.RedactRemovesEverySecret | crates/runner-core/src/redact.rs:98-106 | If no registered secret lies in or straddles the placeholder, no text keeps any of them. |
| Redaction.RedactIsCleanExactly | crates/runner-core/src/redact.rs:98-106 | With no straddling secret, the result is clean if and only if the text was clean or no secret is part of the placeholder. |
| Redaction.QuoteFreeRegistryIsScrubbed | crates/runner-core/src/redact.rs:43-106 | For every well-kept list of secrets without angle quotation marks, redaction leaves none of them in a text if and only if the text had none or none is part of the word inside the placeholder. |
| Redaction.OneSecretExactly | crates/runner-core/src/redact.rs:98-106 | One pass removes its own secret from every text if and only if the secret is not part of the placeholder, does not begin with an end of it, and does not run into it with no earlier copy of itself. |
| Redaction.LastSecretExactly | crates/runner-core/src/redact.rs:98-106 | With several secrets of which the last may straddle or be part of the placeholder, no text keeps any of them if and only if the last pass removes its own secret from every text that holds none of the others: those texts are what the earlier passes hand on. |
| RedactionWitnesses.LastSecretWitnessed | crates/runner-core/src/redact.rs:98-106 | When that last secret has no opening quotation mark, finitely many texts read off the registry decide: the registry leaks on some text if and only if the last secret, being part of the placeholder, or the last secret followed by its rest after an end of the placeholder it begins with, holds none of the others. |
| Redaction.PlaceholderPartSurvives | crates/runner-core/src/redact.rs:43-106 | Whatever is part of the placeholder is present in the result whenever anything was replaced. |
| Redaction.RedactIsIdempotent | crates/runner-core/src/redact.rs:98-106 | Redacting twice is redacting once, under the same condition. |
| RedactionStretches.LongestSecretIsReplacedWhole | crates/runner-core/src/redact.rs:61-62 | Wherever a registered secret occurs and no other occurrence sticks out of it, that stretch becomes one placeholder and the text on either side is redacted by itself, whatever secrets it holds: no shorter secret breaks the stretch up first. |
| RateLimit.RateLimiter.Prune | crates/runner-core/src/ratelimit.rs:158-168 | Popping expired entries off the front leaves exactly the entries of the whole admission history still in the window. |
| RateLimit.RateLimiter.CheckRoute | crates/runner-core/src/ratelimit.rs:173-216 | Cooldown first, then the window; the stored deque and map keep representing the whole admission history and the cooldowns. |
| RateLimit.RateLimiter.ReserveSlot | crates/runner-core/src/ratelimit.rs:186-216 | Admits exactly when fewer than the cap are in the window, recording the slot; a denial records none; the narrowing of the count to 32 bits loses nothing. |
| RateLimit.RateLimiter.Failed | crates/runner-core/src/ratelimit.rs:221-226 | A failure sets only its route's expiry, saturating. |
| RateLimit.RateLimiter.Clear | crates/runner-core/src/ratelimit.rs:230-232 | Clearing forgets only its route's expiry. |
| RateLimit.RateLimiter.CountInWindow | crates/runner-core/src/ratelimit.rs:235-238 | Counts the entries of the whole history still in the window. |
| RateLimit.LiveIsSuffix | crates/runner-core/src/ratelimit.rs:158-168 | The entries in the window are always the last ones of the admission history, all before them having expired. |
| RateLimit.NewPolicy | crates/runner-core/src/ratelimit.rs:47-53 | Zero turns the cap or the cooldown off, a zero window becomes one second, and every other value is kept. |
| RateLimit.NeverMoreThanCapInAnyWindow | crates/runner-core/src/ratelimit.rs:173-216 | Over any run of checks, failures, clears and counts with a clock that never goes back and stays below its last value, at most the cap is admitted in any span of the window's width, wherever it starts. |
| RateLimit.CappedSpansExactly | crates/runner-core/src/ratelimit.rs:173-216 | Over every run a 64-bit clock allows, a span of the window's width is capped if and only if it ends by the last second; in that second every window has ended and everything is admitted. |
| RateLimit.WindowHintIsExact | crates/runner-core/src/ratelimit.rs:173-216 | After a window denial with hint r, whatever happens in between, nothing is admitted before now + r, and at now + r every route that is not cooling is admitted. |
| RateLimit.AdviceSuffices | crates/runner-core/src/ratelimit.rs:173-216 | A route checked again exactly when advised is denied if and only if it was cooling and the window is full when its cooldown ends. |
| RateLimit.AfterFailure | crates/runner-core/src/ratelimit.rs:173-226 | After an admitted check fails, its route is denied at a later moment if and only if the cooldown is not over or the window is full then. |
| RateLimit.CoolingUntilExpiry | crates/runner-core/src/ratelimit.rs:173-232 | A cooling route that is not cleared is denied at every check before its expiry, and its expiry never moves earlier. |
| RateLimit.CoolingHintIsExact | crates/runner-core/src/ratelimit.rs:173-184 | A cooldown denial changes nothing, and its hint is at least a second and exactly the time until the route stops cooling. |
| RateLimit.NoAdmitWhileCooling | crates/runner-core/src/ratelimit.rs:173-232 | After a cooldown denial with hint r, no check of the route before now + r is admitted without a clear, whatever happens in between. |
| RateLimit.CooldownRunsFromFailure | crates/runner-core/src/ratelimit.rs:173-226 | Until a route's next failure or clear, it is denied for the cooldown exactly while less than the configured time has passed since its failure, and the hint leads exactly to that moment. |
| SingleFlight.SingleFlightLedger.Acquire | crates/runner-core/src/singleflight.rs:104-130 | The ledger stays that of its whole history. Acquires exactly when no lease on the normalised target is outstanding, and then exactly the new lease becomes outstanding; otherwise names the outstanding lease and hands out nothing. |
| SingleFlight.SingleFlightLedger.ReleaseLease | crates/runner-core/src/singleflight.rs:134-144 | The ledger stays that of its whole history. Succeeds exactly when the presented lease is outstanding, and then that lease alone no longer is. |
| SingleFlight.OneLeasePerTarget | crates/runner-core/src/singleflight.rs:104-144 | After any run: outstanding leases differ in target, and in number unless it is the maximum; numbers below the maximum are below the next one; the active count is acquires minus releases; a release succeeds exactly for an outstanding lease. |
| SingleFlight.OlderWins | crates/runner-core/src/singleflight.rs:104-130 | After any run a job is refused exactly when a lease on its target is outstanding, and the refusal names that lease, which is strictly older unless it has the maximum number. |
| SingleFlight.NumbersCountTries | crates/runner-core/src/singleflight.rs:104-130 | Every attempt uses up a number, a refused one too, up to the maximum; releases use none. |
| SingleFlight.StaleLeaseFreesNothing | crates/runner-core/src/singleflight.rs:134-144 | A lease numbered below the next number that is not outstanding never frees anything again, however the run goes on, also once the numbers have run out. |
| SingleFlight.StaleLeaseReturnsExactly | crates/runner-core/src/singleflight.rs:104-144 | A lease that was handed out and is no longer outstanding can become outstanding again in some continuation of the run if and only if it has the maximum number. |
| SingleFlight.StaleLeaseWouldFreeExactly | crates/runner-core/src/singleflight.rs:104-144 | In every ledger with the target free, acquiring, releasing and acquiring again gives back the stale lease that frees the second flight if and only if the next number is the maximum. |
| SingleFlight.SaturatedSequenceRepeats | crates/runner-core/src/singleflight.rs:104-144 | A run reaches that state: after as many rounds of acquiring and releasing as there are numbers, the ledger is empty and a stale lease frees a later flight. |
| SingleFlight.TargetSpelling | crates/runner-core/src/singleflight.rs:21-23 | Normalising a target is idempotent. |
| SingleFlight.TargetsShared | crates/runner-core/src/singleflight.rs:21-23 | Two spellings share a target if and only if, up to white space around them, they differ in letter case only. |
| Text.WhiteSpaceCodes | crates/runner-core/src/singleflight.rs:21-23 | The white space trimmed is the twenty-five characters of the Unicode property White_Space. |
| Governor.BudgetGovernor.TryAdmit | crates/runner-core/src/governor.rs:196-241 | The spend stays that of the whole history. Denies exactly when the admissions and costs so far have met a cap and as many requests as the grace were already let in past a met cap, naming that cap and spending nothing; the jobs spent stay the admissions, at most the job cap plus the grace used. |
| Governor.BudgetGovernor.ChargeCost | crates/runner-core/src/governor.rs:267-269 | The accumulated cost stays the exact sum of everything charged, clipped once at the 64-bit maximum; jobs and grace are untouched. |
| Governor.SpendIsHistory | crates/runner-core/src/governor.rs:196-269 | The stored counters are the admissions, the clipped sums and the requests let in on grace of the whole history, and decide the next request as the history does. |
| Governor.AdmissionsAreBounded | crates/runner-core/src/governor.rs:228-241 | Over any run of admissions and charges, the jobs spent are the admissions, at most the job cap plus the grace used, and grace is never overdrawn. |
| Governor.JobCapIsExact | crates/runner-core/src/governor.rs:228-241 | With only a job cap, exactly the first cap + grace requests of any run are admitted. |
| Governor.CostIsClippedSum | crates/runner-core/src/cost.rs:55-60 | Saturating at every charge accumulates the same cost as clipping the exact sum once at the end. |
| Governor.DenialLatches | crates/runner-core/src/governor.rs:196-241 | After one denial nothing is ever admitted again, whatever is charged. |
| Governor.TierNeverFalls | crates/runner-core/src/governor.rs:246-258 | The survival tier never improves over a run; TierLevels says which tier it is. |
| TierLevels.TierIsWorstDimension | crates/runner-core/src/governor.rs:246-258 | In every state the tier is the worst of the three dimensions' tiers, one without a positive cap counting as Full. |
| TierLevels.TierInWholeNumbers | crates/runner-core/src/governor.rs:73-83 | For caps below the least misread one: at least Conserving, Distress or Halted exactly when some dimension has used three quarters, nine tenths or all of its cap. |
| Governor.TierThresholds | crates/runner-core/src/governor.rs:73-83 | Every positive cap up to n gives the documented tier (three quarters, nine tenths, all of the cap, as whole-number comparisons) for every amount used, if and only if n is below 3002399751580339, the least cap for which `f64` rounding shows. |
| Governor.LevelsAreRounded | crates/runner-core/src/governor.rs:73-83 | The levels an exact quotient is compared with are those of the quotient rounded to a double, with 0.9 read as its nearest double. |
| Governor.HaltedExactly | crates/runner-core/src/governor.rs:152-258 | With amounts converted and divided as `f64`, Halted coincides with exhaustion in every state if and only if every cap is positive and a different double from the number before it: a zero cap denies everything while the tier reads Full, and a large cap that rounds like its predecessor reads Halted one short of it. |
| Governor.SmallCapsAreToldApart | crates/runner-core/src/governor.rs:246-258 | Every positive cap up to 2^53 meets that condition, and 2^53 + 1 does not. |
| Doubles.ToDoubleIsNear | crates/runner-core/src/governor.rs:247-256 | The conversion of a whole number is off by at most half the distance between neighbouring doubles there. |
| Doubles.ToDoubleOrdered | crates/runner-core/src/governor.rs:247-256 | The conversion keeps order across every change of that distance, so the tier cannot fall by rounding. |
| LoopGuard.Guard.Observe | crates/runner-core/src/loopguard.rs:89-101 | The bounded deque always holds the last fingerprints of the whole history, and the verdict counts this one among them; a tripped observation is recorded too. |
| LoopGuard.NewLimits | crates/runner-core/src/loopguard.rs:66-74 | The constructor's clamping yields a window of at least one and a threshold between one and the window. |
| LoopGuard.LimitsAreClamped | crates/runner-core/src/loopguard.rs:66-74 | An empty window becomes one, and the threshold the nearest value in the window. |
| LoopGuard.FewPassInAnyWindow | crates/runner-core/src/loopguard.rs:89-101 | Among any `window` consecutive observations, wherever they start, fewer than the threshold of one fingerprint pass. |
| LoopGuard.PassesNextExactly | crates/runner-core/src/loopguard.rs:89-101 | A fingerprint passes next if and only if the last window - 1 observations hold fewer than threshold - 1 of it, tripped ones included. |
| LoopGuard.TripCountIsExact | crates/runner-core/src/loopguard.rs:89-101 | A trip reports how often the fingerprint occurs in the window, this observation included. |
| LoopGuard.OtherWorkResets | crates/runner-core/src/loopguard.rs:89-101 | With a threshold above one, window - 1 observations of other work always make a fingerprint pass again. |
| Recovery.RetryLedger.Decide | crates/runner-core/src/recovery.rs:194-309 | The stored counter is the number of retryable failures since the last clear and determines the directive, whose every field DirectivesFollowAttempts states; other kinds of failure leave the counters alone. |
| Recovery.RetryLedger.Clear | crates/runner-core/src/recovery.rs:316-318 | Clearing resets exactly this fingerprint's count. |
| Recovery.RetriesAreTheFirstFailures | crates/runner-core/src/recovery.rs:194-280 | Between clears exactly the first max-retries retryable failures are answered with a retry; everything else escalates. |
| Recovery.DirectivesFollowAttempts | crates/runner-core/src/recovery.rs:186-280 | Over any run, the n-th retryable failure since the last clear gets attempt n and, up to the maximum, a retry after the base wait doubled once per earlier attempt until the seventeenth; later ones escalate without a wait, and other kinds escalate with attempt 0. |
| Recovery.EscalationIsFinal | crates/runner-core/src/recovery.rs:194-280 | Once the retries are used up, every later failure escalates until the fingerprint is cleared. |
| Recovery.FingerprintsAreIndependent | crates/runner-core/src/recovery.rs:293-318 | Events of other fingerprints never change a fingerprint's count. |
| Recovery.BackoffDoublesThenStays | crates/runner-core/src/recovery.rs:186-189 | The first wait is the base; each next doubles, saturating, until attempt 17 and then stays; the wait never falls. |
| Recovery.NewPolicy | crates/runner-core/src/recovery.rs:168-173 | A zero base wait becomes one second, and every other value is kept. |
| Recovery.FatalStaysFatal | crates/runner-core/src/recovery.rs:87-113 | Text around a fatal message, in any letter case, never makes it transient. |
| Recovery.FatalExactly | crates/runner-core/src/recovery.rs:87-113 | A kernel error is fatal if and only if it says one of the eleven fatal patterns in any letter case, and transient otherwise. |
| Quarantine.QuarantineLedger.OnFailure | crates/runner-core/src/quarantine.rs:62-73 | With the latch kept exact, returns true exactly at the failure that reaches the threshold; an inactive policy records nothing. |
| Quarantine.QuarantineLedger.RecordFailure | crates/runner-core/src/quarantine.rs:99-103 | Returns the number of failures since the fingerprint's last clear or the last release. |
| Quarantine.QuarantineLedger.ClearFingerprint | crates/runner-core/src/quarantine.rs:122-125 | Clearing resets this fingerprint's count and latch together. |
| Quarantine.QuarantineLedger.Release | crates/runner-core/src/quarantine.rs:128-131 | Release resets every count and latch. |
| Quarantine.StaysQuarantined | crates/runner-core/src/quarantine.rs:62-131 | A quarantined fingerprint stays so through any events but its own clear or a release. |
| Quarantine.LatchesOncePerPeriod | crates/runner-core/src/quarantine.rs:62-73 | Since the last reset the latching edge was reported once if the fingerprint is quarantined and never otherwise. |
| Quarantine.FingerprintsAreIndependent | crates/runner-core/src/quarantine.rs:99-131 | Nothing but a release lets one fingerprint's events affect another. |
| Dispatch.Dispatcher.HandleRequest | crates/runner-dispatch/src/main.rs:599-1086 | Serving a frame on the stored ledgers, gate by gate in order, gives the reply and the new state of the pipeline function about which the run theorems speak; with quarantine on, no 32-bit counter can run over. |
| Dispatch.HandleKeepsBounds | crates/runner-dispatch/src/main.rs:599-1086 | With quarantine on, every frame keeps each fingerprint's counted retries at most its counted failures and those at most the threshold. |
| Dispatch.Dispatcher.ServeWithTarget | crates/runner-dispatch/src/main.rs:855-881 | The target is taken before the rate gate and given back on every path out, as the permit's drop does. |
| Dispatch.Dispatcher.ServeHeld | crates/runner-dispatch/src/main.rs:889-914 | The rate gate acts only under an active policy; its refusal takes neither the breaker's window nor a retry. |
| Dispatch.Dispatcher.ServePastRate | crates/runner-dispatch/src/main.rs:916-945 | Breaker before budget: a tripped job costs no budget, a budget denial carries no directive. |
| Dispatch.Dispatcher.RunKernel | crates/runner-dispatch/src/main.rs:957-1086 | A delivery charges and clears; every kind of failure is recorded with recovery, quarantine and the route's cooldown. |
| DispatchRuns.FirstRefusalDecides | crates/runner-dispatch/src/main.rs:599-1086 | The gate that answers is the first, in the documented order, that would refuse the frame judged alone on the state before it; a frame is accepted exactly when none would and the kernel delivers. |
| DispatchAdvice.RefusalsAdvise | crates/runner-dispatch/src/main.rs:599-1086 | What each refusal advises: the state and rate gates say to retry later with attempt 0, the budget gate says nothing, kernel failures are answered by the fingerprint's retry count, and every other gate that advises escalates with attempt 0. |
| DispatchAdvice.DeferralIsForGood | crates/runner-dispatch/src/main.rs:829-853 | The state gate's advice to retry never helps: a deferred route stays deferred whatever is sent, and no frame of the route reaches the kernel again. |
| DispatchRuns.FrameStage | crates/runner-dispatch/src/main.rs:599-1086 | For every state, frame and gate: exactly what a refusal there may change, and what a kernel run changes in each ledger. |
| DispatchRuns.RefusalSpendsNothing | crates/runner-dispatch/src/main.rs:599-1086 | A frame that does not reach the kernel spends no budget, counts towards no quarantine, uses no retry of any fingerprint and holds no target. |
| DispatchRuns.SequentialServerIsNeverBusy | crates/runner-dispatch/src/main.rs:568-588 | Serving one frame at a time, no target is held between frames, so none is refused as busy. |
| DispatchRuns.CleanDeliveryResets | crates/runner-dispatch/src/main.rs:957-970 | A clean delivery leaves the fingerprint with no counted retries or failures and its route without a cooldown. |
| DispatchRuns.KernelRunsAreBudgeted | crates/runner-dispatch/src/main.rs:936-945 | Over any run of frames the kernel is reached at most job cap + grace used times, and exactly as often as jobs were spent. |
| DispatchRuns.BudgetDenialIsFinal | crates/runner-dispatch/src/main.rs:936-945 | Once the budget denies, no later frame of any kind reaches the kernel or spends anything. |
| DispatchRuns.QuarantineIsForGood | crates/runner-dispatch/src/main.rs:779-800 | No sequence of frames releases a quarantined fingerprint or brings it to the kernel. |
| DispatchRuns.FailuresStopAtThreshold | crates/runner-dispatch/src/main.rs:779-800 | Between clean deliveries a fingerprint fails at the kernel at most threshold times. |
| DispatchRuns.KernelRunsAreRateCapped | crates/runner-dispatch/src/main.rs:889-914 | In any span of the window's width the kernel is reached at most as often as the rate cap allows. |
| DispatchAdvice.AdvisedWaitExactly | crates/runner-dispatch/src/main.rs:889-914 | A frame refused by the rate gate and sent again exactly when advised is refused by it again if and only if its route was cooling and the window is full when the cooldown ends; after a full window the advice always suffices. |
| DispatchAdvice.KernelAdviceExactly | crates/runner-dispatch/src/main.rs:106-152 | A frame the kernel failed, sent again after exactly the advised backoff, is refused by the rate gate if and only if it is neither quarantined nor deferred by then and the cooldown the failure started outlasts the backoff or the window is full. |
| DispatchAdvice.KernelFailuresAnswered | crates/runner-dispatch/src/main.rs:106-152 | A time-out or an error that is not fatal is retried after its attempt's wait while the fingerprint has retries left; otherwise the job escalates. |
| DispatchRuns.KernelRepeatsAreBounded | crates/runner-dispatch/src/main.rs:916-934 | Among any window of consecutive breaker observations, fewer than the threshold of one fingerprint reached the kernel. |
| ConfigLines.SafeDirectoryDuplicates | crates/runner-cli/src/runner_state.rs:628-645 | The counting loop with its set of seen values returns the number of lines that repeat an earlier directory value. |
| ConfigLines.DedupeSafeDirectories | crates/runner-cli/src/runner_state.rs:647-669 | The cleaning loop keeps exactly the lines that do not repeat an earlier directory value, in order. |
| ConfigLines.KeptGrows | crates/runner-cli/src/runner_state.rs:647-669 | Lines kept so far stay first whatever follows, so of the lines that declare a directory the first is the one kept. |
| ConfigLines.KeptNext | crates/runner-cli/src/runner_state.rs:647-669 | A further line is kept unless it declares a directory that an earlier line did; a line that declares none always is. |
| ConfigLines.DeclaresExactly | crates/runner-cli/src/runner_state.rs:628-669 | A line declares a directory exactly when it is white space, `directory = `, the trimmed non-empty directory after any further white space, and white space. |
| ConfigLines.RemovesWhatIsCounted | crates/runner-cli/src/runner_state.rs:628-669 | The cleaner removes exactly as many lines as the separate counter counted. |
| ConfigLines.KeptDeclaresTheSame | crates/runner-cli/src/runner_state.rs:647-669 | Cleaning loses no directory value and adds none. |
| ConfigLines.CleanedIsClean | crates/runner-cli/src/runner_state.rs:628-669 | Cleaned lines have a duplicate count of zero, and cleaning twice is cleaning once. |
| ConfigLines.RewriteHidesNothing | crates/runner-cli/src/runner_state.rs:671-708 | After the rewrite the hiding test is false. |
| ConfigLines.RewriteJudgesOneLine | crates/runner-cli/src/runner_state.rs:671-708 | A single line is dropped exactly when the separate hiding test would object to it. |
| ConfigLines.HidesExactly | crates/runner-cli/src/runner_state.rs:671-708 | The dropped lines are exactly _work, _work/, /_work and /_work/ with white space around them. |
| ConfigLines.RewriteJoins | crates/runner-cli/src/runner_state.rs:686-708 | Rewriting is line by line: the rewrite of two joined parts is the join of their rewrites. |
| ConfigLines.RewriteKeepsCleanFiles | crates/runner-cli/src/runner_state.rs:671-708 | A file that hides nothing is not changed. |

## Left out

- Dispatch.Dispatcher.HandleRequest: with quarantine off, needs the job's retry counter below 2^32 - 1, because the source increments a 32-bit counter unchecked and its behaviour at the maximum depends on the build; needs a clock that never goes back, which the rate window's exactness rests on.
- Recovery.RetryLedger.Decide: needs the fingerprint's counter below 2^32 - 1, for the same reason.
- Quarantine.QuarantineLedger.OnFailure: needs the fingerprint's counter below 2^32 - 1, for the same reason.
- Quarantine.QuarantineLedger.RecordFailure: needs the fingerprint's counter below 2^32 - 1, for the same reason.
- RateLimit.RateLimiter.CheckRoute: needs a clock that never goes back; with one that does, the deque need not be in time order.
- RateLimit.NeverMoreThanCapInAnyWindow: needs the clock below its last value; RateLimit.CappedSpansExactly says which spans stay capped without that.
- Redaction.RedactRemovesEverySecret: with several secrets of which one before the last straddles the placeholder the condition is sufficient only; it is exact for one secret, for lists whose last alone straddles (RedactionWitnesses.LastSecretWitnessed decides those from the registry), for lists without straddling secrets and for lists without angle quotation marks.
- Governor.AdmissionsAreBounded: the job counter is unbounded here; the source's machine-word counter would need that many admissions to wrap.
- JsonSchema.SearchFindsExactlyDeclaredPaths: the path functions share one descent, modelled once with the leaf test as a parameter; pattern tests compare the pattern text, as the source does.
- QueueAudit.RunnerQueueAudit: repository rows are keyed by repository instead of listed in key order; the fixed texts of the report, its label constants and the two busy-repository maps, which repeat counts of the rows, are left out.
- OrderedMap.CollectIsGroupwise: the ordered map is a list of entries in ascending key order; the map's own tree is not modelled.
- ConfigLines.CleanedIsClean: works on lists of lines; the joining of lines, a trailing newline and a stray carriage return are not modelled, nor is a fixpoint of the whole runner-state audit.
- Text is a sequence of Unicode scalar values; UTF-8 length is modelled where the source measures bytes.
- Job fingerprints are opaque strings: hashing, signatures, JSON decoding, and the constitution, authority, lint, content-scan, fork and approval verdicts enter the pipeline as one input, the screening result.
- The kernel's outcome, its reported cost and the clock are inputs of a frame.
- The risk ledger, the event sink, log details, reason texts and the deadline and liveness limits: advice or a single minimum, with no effect on admission.
- Process, file, network and command-line access, and the other command-line audits.
