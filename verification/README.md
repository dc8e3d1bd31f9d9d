# Verified model of registry-ui

This project models the four stateful cores of the registry UI and proves what they promise, for all inputs, all runs
and all interleavings.

* **Cron engine** (`Clock`, `Text`, `CronParser`, `CronRendering`, `CronForms`, `Calendar`, `CronSearch`,
  `CronAnswers`, `CrontabRule`, `SchedulerRun`, `SchedulerProgress`, `ScheduleExamples`): the five-field parser with its
  64-bit step loop, the Gregorian calendar, the minute-by-minute search capped at 366 days, and the scheduler goroutine
  as a state machine, with what it never does and that it goes on. The day rule is compared with the INPUT FILES
  section of the `crontab` page of IEEE Std 1003.1-2017; steps, a bare `/n` and 7 as Sunday are this program's own
  additions.
* **Retention purge** (`Sorting`, `Selection`, `Sums`, `Retention`, `RetentionRules`, `RegistryClient`, `PurgeRun`,
  `PurgeAccounting`, `PurgeSizes`, `PurgeOutcome`, `PurgeRepeat`, `PurgeCache`, `PurgeTargets`, `PurgeOrder`,
  `RepeatedScan`, `PurgeExamples`): the in-place sort, the split by age and protection, the top-up to `keep_count`, the bookkeeping,
  deletion by digest, and what is left in the registry and in the cache.
* **Tag cache and repository tree** (`CacheProtocol`, `CacheWindow`, `RepoTree`, `CatalogView`): the cache under
  interleaved fetches and deletions, subtree counts over path prefixes, the in-place dedupe, and the drill-down pages.
* **Login limiter** (`Sets`, `LoginLimiter`, `LoginHistory`, `LoginProtocol`): the per-address attempt records as mutable
  objects, their meaning in terms of the request history, and the bound under concurrent handlers.

Code that works step by step is a method or a class whose contract ties it to a function of its inputs; the theorems are
lemmas about those functions. Instants are nanoseconds since the start of year 1; the zone is a fixed offset of whole
minutes. Everything outside the client is one value `Env`: which remote calls fail (`refuses`), what other users do to
the registry before each call (`drift`), whether it still holds a manifest without tags, and the image behind each
digest. Universally quantified, it stands for every pattern of failures and every interference. `Quiet` means that
nobody else changes the registry, `Served` that no call fails.

## What the proofs found

* `2/9223372036854775807` in the minute field also allows minute 0: the loop variable overflows and comes back lower. A
  token yields what it says within the field's bounds if and only if `start+step` fits in 64 bits or `start+2*step-2^64`
  is below the lower bound; a field does if and only if every value that wraps around into the bounds is denoted by some
  token (`TokenDenotation`, `FieldDenotation`, `OverflowExample`).
* A schedule whose only real dates are 29 February, or none, makes `Next` answer one minute after its argument, so the
  scheduler arms its timer for minutes the expression does not name. This happens exactly when the day of month is not
  `*`, the weekday is `*`, and no allowed date exists in every year (`SearchCompleteness`, `ArmedOnScheduleIffRecurs`).
  `0 0 30 2 *` is accepted, and then any number of purges run, each one minute after the end of the one before
  (`ImpossibleDateExample`, `EveryMinuteRun`, `LeapDayExample`).
* A job can start later than its timer. An execution of a recurring schedule starts outside a matching minute only if it
  is at least a minute late; without a bound on lateness it can start at any instant (`OffMinuteIsLate`,
  `PromptStartsIffRecurs`, `AllStartsIffEveryMinute`).
* The day rule departs from the `crontab` standard when month and weekday are both restricted: `0 0 1 6 1` runs on 1
  June and the Mondays of June, and the standard names all Mondays of the year (`StandardDaysIff`, `MondayExample`).
* Protecting an old tag can cause a newer one to be purged (`ProtectionCanAddToPurge`). It does if and only if a tag of
  the purge list gets protected and the keep count has rescued a tag that stays unprotected; as many rescued tags, the
  oldest first, then move to the purge list (`ProtectionEffect`, `ProtectionAddsNothingIff`).
* A repository named `n` times, as in the include list `app,app`, is purged as if its keep count were divided by `n`. It
  loses tags that it would otherwise keep if and only if the keep count had rescued an old tag and a share of it rescues
  fewer (`RepeatedRepository`, `RepeatedScanCostsIff`, `NamedTwiceRun`).
* A kept tag is lost with a candidate of the same manifest, the cache then lists a tag that is gone, and a second
  candidate of one manifest is reported as a failed deletion; each holds exactly when a manifest is shared
  (`KeptTagSurvivesIff`, `CacheAfterPurgeIff`, `AllSucceedIffDistinct`; the runs `KeptTagLostRun`, `FailedDeletionRun`).
* A deletion resolves its tag again. If the tag has moved since the scan, an image that the policy keeps can be deleted;
  the deleted manifest is the scanned one if and only if the tag names the same one at both calls (`DeletesScannedIff`,
  `MovedTagRun`).
* A fetch that lists before a deletion and writes after it brings the deleted tag back into the cache
  (`StaleListExample`). Without shared manifests and other users, a cached list is wrong if and only if some listed tag
  was deleted after the listing and not filtered after the write; once nothing is pending, that is a deletion wholly
  between the listing and the write, with no later one of the same tag (`CachedExactIff`, `AtRestExactIff`).
* With `k` login handlers in flight up to `max_attempts - 1 + k` failures are recorded, and that many can be
  (`ConcurrentBound`, `BoundIsAttained`).

## Model

| member | source | states |
|---|---|---|
| Calendar.DayNumberOfCivil | registry/scheduler.go:116-122 | every day number has an existing date, and the date gives the day number back |
| Calendar.CivilOfDayNumber | registry/scheduler.go:116-122 | every existing date is the date of its day number, so month, day and weekday read by the matcher are right |
| Calendar.ValidDateIff | registry/scheduler.go:116-122 | which dates exist: the lengths of the months |
| Calendar.KnownDays | registry/scheduler.go:116-122 | 1 January of year 1 is day 0 and a Monday, 1 January 1970 is day 719162 and a Thursday, 29 February 2024 is day 738944 and a Thursday |
| Calendar.NextDay | registry/scheduler.go:116-122 | from one date to the next, day number and weekday advance by one, also over the ends of months and years |
| CronParser.ExpandCronToken | registry/scheduler.go:164-218 | the loop over a token's range, in wrapping 64-bit arithmetic, terminates and yields the values of `Steps`, or the token's error |
| CronRendering.ParseRenderedWeekdays | registry/scheduler.go:198-207 | any non-empty list of values from 0 to 7 in the weekday field parses to the set of those values modulo 7 |
| CronRendering.NoRangeToSeven | registry/scheduler.go:184-211 | a weekday range ending in 7 is out of range |
| CronParser.StepsDenoteProgression | registry/scheduler.go:213-216 | counting every value appended, in range or not: exactly start, start+step, ... up to end if and only if start + step does not overflow |
| CronParser.StepsClosedForm | registry/scheduler.go:213-216 | a non-negative value is appended if and only if it is in the progression, or the first addition overflows and the value is start - j*(2^64 - 2*step) for some j > 0 |
| CronParser.TokenDenotation | registry/scheduler.go:213-216 | between the field's bounds the loop yields exactly the progression if and only if start + step fits in 64 bits or start + 2*step - 2^64 is below the lower bound |
| CronParser.ParseCronField | registry/scheduler.go:135-162 | the loop over comma tokens collects the union and the wildcard flag, or stops at the first bad token's error |
| CronParser.AcceptedTokens | registry/scheduler.go:138-150 | a field is accepted if and only if every comma token is non-empty and has a range within the bounds |
| CronParser.FieldDenotation | registry/scheduler.go:135-218 | within its bounds an accepted field allows exactly the union of its tokens' progressions if and only if every value added by wrapping around is denoted by some token; wildcard if and only if some token is `*` |
| CronParser.HarmlessField | registry/scheduler.go:135-218 | a field means what it says when each token meets the condition of TokenDenotation |
| CronParser.KeyDenotation | registry/scheduler.go:135-218 | the whole map, with keys that are never asked for, is the union of the progressions if and only if no token overflows |
| CronParser.FieldUsable | registry/scheduler.go:135-218 | every accepted field allows an in-range value, overflow or not; a wildcard field allows all of them |
| CronParser.ParsedIsUsable | registry/scheduler.go:68-102 | all five fields of every accepted expression are usable within their bounds |
| CronRendering.ParseRenderedField | registry/scheduler.go:135-162 | any non-empty list of in-range values, written with commas, parses to exactly that set |
| CronForms.ParseItem | registry/scheduler.go:164-218 | a token `*`, `a` or `a-b`, with or without `/k`, or a bare `/k` is accepted if and only if its numbers are 64-bit ones, k is not 0 and first and last value are in order and within the bounds (7 as Sunday included); it then has that first and last value and step, otherwise the error of its first fault |
| CronForms.ParseItems | registry/scheduler.go:135-218 | a comma list of such tokens allows exactly the values a + i*k <= b of one of them, and is a wildcard if and only if one is `*` |
| CronForms.RejectItems | registry/scheduler.go:135-218 | a list with a bad token is rejected with the error of the first one |
| CronForms.ParseSchedule | registry/scheduler.go:68-102 | five such lists, written with blanks between, parse to exactly the schedule that they mean |
| CronForms.WrongCount | registry/scheduler.go:69-72 | any other number of words than five is rejected with that number |
| CronForms.TooManySlashes | registry/scheduler.go:165-171 | a token with two slashes or more is a bad step |
| CronForms.TooManyDashes | registry/scheduler.go:184-189 | a range with two dashes or more is a bad range |
| CronForms.NotANumber | registry/scheduler.go:198-202 | any other word that is not a number is a bad value |
| CronForms.AtoiIff | registry/scheduler.go:173-173 | what counts as a number: decimal digits, perhaps after a sign, with a value within 64 bits |
| CronForms.SpacingIrrelevant | registry/scheduler.go:69-69 | which white space separates the fields, how much of it and whether some is around them does not matter |
| CronForms.PaddingIrrelevant | registry/scheduler.go:140-140 | white space around a token of a field does not matter |
| CronForms.FirstBadField | registry/scheduler.go:74-93 | of five words the first bad one, from the minute on, decides the error |
| ScheduleExamples.WorkdaysExample | registry/scheduler.go:184-211 | `1-5` in the weekday field is Monday to Friday |
| ScheduleExamples.BackwardsExample | registry/scheduler.go:209-211 | `5-1` there is out of range |
| ScheduleExamples.QuartersExample | registry/scheduler.go:164-218 | `*/15` in the minute field is 0, 15, 30, 45 |
| CronRendering.OverflowExample | registry/scheduler.go:213-216 | the accepted field `2/9223372036854775807` allows minute 0, which it does not denote |
| CronSearch.Next | registry/scheduler.go:104-114 | the search loop computes `NextInstant` for every schedule, zone and instant |
| CronAnswers.MatchesIffNamed | registry/scheduler.go:116-133 | an instant matches if and only if minute, hour and month of the local minute it falls into are allowed and the day rule holds of its date and weekday |
| CronAnswers.NextIsFirstNamed | registry/scheduler.go:104-114 | the answer begins a local minute whose parts the fields allow, the first such minute after the argument, if the next 366 days have one; if none, it is the argument plus one minute |
| CronAnswers.ParsedNextIsFirstNamed | registry/scheduler.go:68-133 | the same for every expression the parser accepts |
| CronSearch.NextIsLeast | registry/scheduler.go:104-114 | the result is strictly later and is the least matching minute boundary within 366 days; only when there is none is it input plus one minute |
| CronSearch.NextMonotone | registry/scheduler.go:104-114 | a later start never gives an earlier result, fallback included |
| CronSearch.FallbackDoesNotMatch | registry/scheduler.go:113-113 | the result matches if and only if the search succeeded |
| CronSearch.DayRule | registry/scheduler.go:121-132 | of a parsed schedule, two restricted day fields are alternatives and otherwise both must match |
| CrontabRule.StandardDaysIff | registry/scheduler.go:116-133 | over all days of the calendar, the rule is that of the crontab standard if and only if weekday or month is `*`, or month lists all months and, with day `*`, weekday all weekdays |
| CronSearch.AnnualDateInWindow | registry/scheduler.go:106-107 | every 366-day window contains every date that exists in all years, at every time of day |
| CronSearch.WeekdayInWindow | registry/scheduler.go:106-107 | every 366-day window contains every weekday of every month, at every time of day |
| CronSearch.SearchCompleteness | registry/scheduler.go:104-133 | a match is found from every start if and only if day is `*`, or weekday is not, or some allowed date exists in every year |
| CronSearch.ParsedSearchCompleteness | registry/scheduler.go:68-133 | the same for every expression the parser accepts |
| CronSearch.SomeStartMatches | registry/scheduler.go:104-133 | some start finds a match if and only if the schedule recurs or allows 29 February |
| SchedulerRun.QuietKeepsInv | registry/scheduler.go:48-53 | the compare-and-swap never fails: the skip branch is unreachable |
| SchedulerRun.SchedulerSafety | registry/scheduler.go:43-63 | in every run: no skip, armed instants strictly increase, each timer is set for what `Next` answers and not before the execution ahead of it has ended, executions are disjoint, one per timer and never early, and a matching instant between two timers is passed over only if already past when the second was armed |
| SchedulerProgress.NeverStuck | registry/scheduler.go:43-63 | in every reachable state that is not stopped the loop can take its next step: arm a timer for the next instant, receive it once its instant has come, start the job, end it and arm again |
| SchedulerProgress.StopsForGood | registry/scheduler.go:58-61 | a waiting loop can be stopped at any time, and nothing runs after that |
| SchedulerProgress.RunsGoOn | registry/scheduler.go:43-63 | for every start and all durations some run has that many executions, each started when `Next` says at the end of the one before |
| SchedulerProgress.EveryMinuteRun | registry/scheduler.go:43-63 | with `0 0 30 2 *` some run has any number of executions, each one minute after the end of the one before |
| SchedulerRun.ArmedOnScheduleIffRecurs | registry/scheduler.go:43-63 | every execution of every run is armed for a matching minute if and only if the schedule recurs |
| SchedulerRun.OffMinuteIsLate | registry/scheduler.go:43-63 | in a run of a recurring schedule an execution is armed at the start of a matching minute, and starts in a non-matching one only if at least a minute late |
| SchedulerRun.PromptStartsIffRecurs | registry/scheduler.go:43-63 | in runs without such delays every execution starts in a matching minute if and only if the schedule recurs |
| SchedulerRun.AllStartsIffEveryMinute | registry/scheduler.go:43-63 | in all runs, however late, every execution starts in a matching minute if and only if every minute matches |
| ScheduleExamples.ImpossibleDateExample | registry/scheduler.go:104-114 | `0 0 30 2 *` is accepted, matches never, is always answered by the fallback, and some run executes it off schedule |
| ScheduleExamples.LeapDayExample | registry/scheduler.go:104-114 | `0 0 29 2 *` is accepted and found from some starts; from others the fallback makes a run execute it off schedule |
| ScheduleExamples.MondayExample | registry/scheduler.go:116-133 | `0 0 1 6 1` is accepted, and the standard names a day that the program does not match |
| Sorting.SortInPlace | registry/tasks.go:205-205 | sorting by Less and Swap in place yields the sorted arrangement of the input |
| Sorting.SortedIsUnique | registry/tasks.go:40-51 | under a strict total order two sorted arrangements of the same elements are equal |
| Sorting.StringLessIff | registry/common.go:26-34 | strings are ordered by proper prefix or by the smaller character where they first differ |
| Retention.NewerStrictTotal | registry/tasks.go:40-47 | Less is a strict total order on tags, so ties cannot make the result depend on the input order |
| Retention.DaysOldMonotone | registry/tasks.go:215-215 | the age in days, saturated and truncated, never decreases with time |
| RetentionRules.OldIff | registry/tasks.go:215-221 | for keep_days d >= 0 a tag is old if and only if its age is at least (d + 1) * 86 400 seconds, for negative d if and only if its age exceeds d such days |
| RetentionRules.ThirtyHoursExample | registry/tasks.go:215-221 | with keep_days 1 a tag of 30 hours is not old; it becomes old at 48 |
| Retention.FilterTags | registry/tasks.go:214-226 | the filter loop splits the sorted tags into candidates and the rest, in order |
| Retention.PlanRepo | registry/tasks.go:203-234 | sort, filter and top-up compute the plan of the repository |
| Retention.ClosedForm | registry/tasks.go:203-234 | the purge list is the unprotected tags after the first max(young, min(their number, keepCount - protected)); the rest is kept, in number max(protected + young, min(keepCount, all)) |
| Retention.PurgeIsSafe | registry/tasks.go:214-226 | every purged tag is listed, unprotected and older than keepDays, and none is newer than an unprotected kept one |
| RetentionRules.PurgedAreLongAgo | registry/tasks.go:214-226 | each name on the purge list is that of a listed, unprotected tag of at least that age, whatever the listing |
| RetentionRules.PurgedIff | registry/tasks.go:203-234 | a listed tag is purged if and only if it is unprotected, at least that old, and the protected tags plus the unprotected ones created later, or at once with a greater name, are at least keep_count |
| RetentionRules.KeptIff | registry/tasks.go:203-234 | each listed tag is kept or purged, and not both |
| RetentionRules.PurgeInOrder | registry/tasks.go:203-234 | the purge list goes from the newest tag to the oldest |
| RetentionRules.SameDateExample | registry/tasks.go:40-47 | of `1.9` and `1.10` with one date, keep_count 1 keeps `1.9` |
| PurgeTargets.RequestWasSeen | registry/tasks.go:165-226 | in every run, for each requested deletion the scan resolved the tag to an image with a date that the policy allows to purge |
| PurgeTargets.ScanIff | registry/tasks.go:165-189 | in every environment an error is reported for exactly the listed tags whose image could not be read, and exactly the tags read with a date are collected |
| PurgeTargets.RequestsAreSafe | registry/tasks.go:165-226 | without other users, whichever calls fail, each requested deletion is of an existing tag whose image is dated, old and unprotected |
| PurgeTargets.DeletesScannedIff | registry/client.go:453-479 | in every run, a successful deletion removes the manifest the scan saw if and only if the tag names the same manifest at the resolving call as at the scan's |
| PurgeExamples.MovedTagRun | registry/client.go:461-477 | a tag pushed anew between scan and deletion: the run deletes the new image, which the policy keeps |
| Retention.OrderIndependent | registry/tasks.go:205-234 | every permutation of the registry's listing gives the same plan |
| PurgeOrder.ListingOrderIrrelevant | registry/tasks.go:165-254 | two served runs over registries that differ only in listing order report the same candidates, tags and bytes |
| Retention.PurgeMonotone | registry/tasks.go:205-234 | later, or with fewer days or tags to keep, the old purge list is a suffix of the new one |
| Retention.NothingLeft | registry/tasks.go:214-234 | planning any part of the kept tags again purges nothing |
| Retention.ProtectionEffect | registry/tasks.go:214-234 | under a policy that protects more, the purge list is the old one less the newly protected tags, preceded by the last min(m, r) of the r rescued tags that stay unprotected, for m newly protected ones |
| Retention.ProtectionAddsNothingIff | registry/tasks.go:214-234 | nothing is added to the purge list if and only if nothing on it gets protected or no rescued tag stays unprotected |
| Retention.ProtectionCanAddToPurge | registry/tasks.go:219-234 | protecting the older of two old tags moves the newer one into the purge list |
| RepeatedScan.RepeatedRepository | registry/tasks.go:141-189 | in a served run a repository named n times has the candidates that it would have, named once, with keepCount divided by n |
| RepeatedScan.RepeatedScanCostsIff | registry/tasks.go:187-234 | naming it n times never removes a candidate, and adds one if and only if topping up reaches beyond the young tags and a share of keepCount less the protected does not reach as far |
| PurgeExamples.NamedTwiceRun | registry/tasks.go:142-144 | keepCount 1 and one old tag: a run over `app` leaves it in the registry, a run over `app,app` does not |
| RegistryClient.SplitRefOfRef | registry/tasks.go:172-172 | `repo:tag` determines repository and tag, since tags have no colon |
| RegistryClient.SplitBareRef | registry/client.go:237-237 | a reference without a colon means the tag `latest` |
| RegistryClient.Client.FetchAndCacheTagsForRepo | registry/client.go:210-232 | lists remotely and, only on success, replaces the repository's cache entry |
| RegistryClient.Client.GetImageInfo | registry/client.go:235-315 | resolves the reference; creation time and size of its image, or an error |
| RegistryClient.Client.DeleteTag | registry/client.go:453-497 | resolves, deletes by digest with every tag of that digest, then filters the cached list by name; nothing but the log changes on error |
| RegistryClient.Client.ListTags | registry/client.go:182-207 | when it refreshes, when it answers from the cache, and that a cached answer is the cache entry |
| RegistryClient.Client.RefreshTagsOnce | registry/client.go:443-445 | one pass fetches the repositories in order |
| RegistryClient.FilterOut | registry/client.go:485-490 | the loop keeps the other names in order |
| PurgeRun.ChooseCatalog | registry/tasks.go:141-159 | the repositories to scan, from the include list or the catalog, less the excluded ones |
| PurgeRun.ScanCatalog | registry/tasks.go:163-189 | the scan collects dated tags, sizes and errors; unreadable and undated tags are skipped |
| PurgeRun.PlanAll | registry/tasks.go:199-249 | every scanned repository is planned once and the candidate total is the sum |
| PurgeRun.DeletePlanned | registry/tasks.go:260-279 | the delete loop requests the planned deletions in key order, counting successes and recording errors; none in a dry run |
| PurgeRun.RunPurgeOldTags | registry/tasks.go:98-283 | the whole run: final client state and result as a function of responses, configuration and clock |
| PurgeAccounting.RunAccounting | registry/tasks.go:251-279 | over every failure pattern: totals are sums of per-repository results, deleted plus delete errors equals candidates, success if and only if no error; the result names the number of repositories and the kind of run |
| PurgeAccounting.CatalogMember | registry/tasks.go:141-159 | a repository is worked on if and only if it is included and not excluded |
| PurgeAccounting.CatalogOccurrences | registry/tasks.go:141-159 | it is worked on as often as it is named there |
| PurgeAccounting.MissingKeepFile | registry/tasks.go:120-137 | when the configured keep-file cannot be read nothing changes, no call is made, and the result has one error, no success and zero totals |
| PurgeAccounting.DeleteTargets | registry/tasks.go:141-159 | the requests are exactly the planned ones, all for selected repositories and candidates, and the result reports the plan |
| PurgeAccounting.DryRunAgrees | registry/tasks.go:265-267 | a dry run with the same responses reports the same candidates, bytes and scan errors and requests no deletion |
| PurgeSizes.OneEntryPerCandidate | registry/tasks.go:236-238 | no two candidates of a run share an entry of the size map |
| PurgeSizes.FreedIsImageSizes | registry/tasks.go:236-238 | the byte estimate of a repository is the summed image sizes of its candidates |
| PurgeOutcome.QuietDelete | registry/client.go:453-497 | a deletion succeeds if and only if both calls are served and the tag exists, and what it then changes |
| PurgeOutcome.DeleteOutcome | registry/client.go:453-497 | in every environment: exactly when a deletion succeeds, that it then removes all tags of the manifest resolved at its first call and one name from the cached list, and that a failed one removes nothing |
| PurgeOutcome.RegistryAfterPurge | registry/tasks.go:260-279 | with any failures a repository loses exactly the tags sharing a digest with a successfully deleted candidate, order kept, and no manifest is deleted twice |
| PurgeRepeat.AllSucceedIffDistinct | registry/tasks.go:260-279 | with all calls served every deletion succeeds if and only if no two candidates are one manifest |
| PurgeRepeat.EveryCandidateIsHit | registry/tasks.go:260-279 | after a served real run the manifest of every candidate has been deleted, even where its deletion was reported as failed |
| PurgeRepeat.ScanAllFound | registry/tasks.go:165-189 | the scan finds the registry's dated tags at most once for each time their repository is named, and exactly so when served |
| PurgeRepeat.SecondRunFindsNothing | registry/tasks.go:98-283 | after a served real run a second run at the same time, with any calls failing, has no candidate; shared manifests and repeated names included |
| PurgeCache.DeleteKeepsSyncIff | registry/client.go:475-495 | a cached list stays exact after a deletion if and only if no other tag had the deleted digest |
| PurgeCache.CacheAfterPurge | registry/tasks.go:165-189 | whichever calls fail, after a run the cached list of a repository with unique digests is the registry's list if it was before, or if one of its list calls in the run was served |
| PurgeCache.SurvivorsAreTheRest | registry/tasks.go:260-279 | in a repository with unique digests exactly the candidates are gone after a served run; kept, unreadable and undated tags survive in order |
| PurgeCache.KeptTagSurvivesIff | registry/client.go:475-477 | after any served run, shared manifests or not, a tag survives if and only if no candidate of its repository has its digest |
| PurgeCache.SyncedAfterRunIff | registry/client.go:479-495 | after a real run, whichever calls fail, a list that was exact or served is exact if and only if every tag whose manifest was deleted was itself deleted by name |
| PurgeCache.CacheAfterPurgeIff | registry/client.go:475-495 | after a served real run the cached list of a scanned repository is exact if and only if no candidate shares its manifest with another tag |
| PurgeCache.SharedManifestExample | registry/client.go:475-495 | deleting `1.0` removes `latest` of the same digest from the registry and leaves it in the cache |
| PurgeExamples.KeptTagLostRun | registry/client.go:475-495 | a whole run in which a protected tag, never requested, is gone from the registry and still cached |
| PurgeExamples.FailedDeletionRun | registry/tasks.go:269-277 | a whole served run of two candidates of one manifest that reports a failed deletion |
| CacheProtocol.CacheComesFromLists | registry/client.go:210-232 | in every interleaving each cached list is an earlier list response without some deleted tags, in its order |
| CacheProtocol.OperationIsPath | registry/client.go:210-497 | every whole operation, successful or not and whatever others do before its calls, is a run of the interleaving steps, with other operations in flight |
| CacheProtocol.StaleListExample | registry/client.go:219-228 | a run of one fetch and one deletion that ends with the deleted tag in the cache |
| CacheWindow.CachedExactIff | registry/client.go:210-232 | in every undisturbed run from a registry with unique digests, a cached list is the registry's if and only if every listed tag deleted after the last-written list was taken has been filtered after that write |
| CacheWindow.AtRestExactIff | registry/client.go:453-497 | with nothing pending, it is wrong if and only if a listed tag was deleted wholly between listing and write, and no repeated deletion of it was filtered later |
| CacheWindow.OneAtATimeIsExact | registry/client.go:210-232 | runs that start an operation only when none is pending leave every cached list exact |
| CacheProtocol.AtomicCacheIsExact | registry/client.go:210-232 | any sequence of whole client operations, whichever calls fail, keeps every cached list equal to the registry's, given unique digests and no other user |
| CacheProtocol.RefreshMakesExact | registry/client.go:439-450 | after a served refresh pass every listed repository is cached exactly |
| Sums.SortedMapKeys | registry/common.go:26-34 | the keys in ascending order, each once |
| Text.ItemInSlice | registry/common.go:53-60 | the search succeeds if and only if the item is in the slice |
| RepoTree.GetTotalTagCount | registry/client.go:381-390 | the sum of the cached list lengths, in any iteration order |
| RepoTree.SubRepoTagCounts | registry/client.go:418-436 | a listed name gets its subtree count times its multiplicity, is present if and only if something is cached under it, and nothing else is present |
| RepoTree.CountsAreEntries | registry/client.go:381-436 | a path's count is the number of entries in all cached lists at it or below it, the total that in all lists |
| RepoTree.NextSegmentIs | web.go:57-61 | the paths with next segment c below p are exactly those at or below p/c; `a` does not absorb `ab` |
| RepoTree.TreeConservation | registry/client.go:418-436 | a path's count is its own tags plus the counts of its distinct children |
| RepoTree.RootConservation | registry/client.go:381-390 | the counts of the distinct top-level entries add up to the total |
| CatalogView.UniqueSortedSlice | registry/common.go:63-76 | compacting the slice it ranges over yields a strictly increasing slice with the same elements |
| CatalogView.ListChildren | web.go:43-63 | the listing loop collects the next segments and the tag flag |
| CatalogView.ViewCatalog | web.go:28-76 | which answer a path gets: not found, image, redirect, or the sorted distinct children with the tag flag |
| CatalogView.AnswerIs | web.go:28-76 | slashes around a path do not matter; `__event-log` is not found, a path with a colon is its image page or, unreadable, a redirect, and any other path lists, in order and each once, exactly the next parts of repository names below it and shows tags if and only if it is a repository |
| CatalogView.DrillDown | web.go:39-63 | following listed entries from the root leads along exactly the paths towards catalog repositories |
| CatalogView.TagsShownAtRepositories | web.go:52-56 | a reached page shows tags if and only if its path is a repository |
| CatalogView.EveryRepositoryIsReached | web.go:39-63 | every catalog repository is reached by its own segments, and its page shows tags |
| CatalogView.ShownCountsAddUp | web.go:99-99 | the entries of the count map passed to a page add up to the page's count less its own tags, at the root to the total, when every cached repository is in the catalog |
| LoginLimiter.Limiter.CheckRateLimit | auth.go:31-59 | verdict and remaining attempts, and that an expired record is dropped |
| LoginLimiter.Limiter.RecordFailure | auth.go:61-72 | one more failure at the current time for this address, all others unchanged |
| LoginLimiter.Limiter.ClearAttempts | auth.go:74-78 | the address is forgotten, all others unchanged |
| LoginLimiter.Limiter.Post | auth.go:150-181 | the sequential POST path: blocked, accepted or failed, and the records after it |
| LoginHistory.BlockedIffStreak | auth.go:41-78 | blocked if and only if a success-free streak of exactly max_attempts evaluated failures without a gap above the lockout ended within the lockout; a blocked request changes nothing |
| LoginHistory.BlockedFor | auth.go:36-57 | after a streak of max_attempts wrong passwords the address is blocked up to lockout_minutes * 60 000 000 000 ns after the last, 15 minutes if that setting is not positive, and no longer |
| LoginHistory.StreakIsRecorded | auth.go:41-72 | a streak still within the lockout is on record in full |
| LoginHistory.RecordHasStreak | auth.go:41-72 | every record comes from a streak of exactly its count |
| LoginHistory.RemainingCounts | auth.go:178-180 | the reported number of remaining attempts is max_attempts less the streak on record |
| LoginHistory.OtherReports | auth.go:33-53 | with no limit nobody is blocked and 0 is reported; all attempts remain when the lockout has passed by the time of the report |
| LoginHistory.WindowBound | auth.go:150-180 | a success-free interval no longer than the lockout evaluates at most max_attempts wrong passwords |
| LoginProtocol.ConcurrentBound | auth.go:31-78 | with at most k handlers in flight, recorded failures plus handlers past their check never exceed max_attempts - 1 + k |
| LoginProtocol.AloneIsHandle | auth.go:150-181 | when no other handler steps in, the steps of a request have the effect and the outcome of the handler as a whole |
| LoginProtocol.HandlersGoOn | auth.go:150-181 | a request can enter below the limit of handlers, and one in flight can always take its next step |
| LoginProtocol.BoundIsAttained | auth.go:150-180 | for every max_attempts and k some run records exactly that many failures |

## Left out

- SQL storage, event decoding and retention of events and purge runs: the behaviour lives in the database.
- HTTP, routing, cookies, signatures, templates, logging and configuration reading: I/O or library code; configuration values are parameters.
- Regexp matching and keep-file parsing: two abstract predicates on the tag name and the repository.
- Catalog paging in RefreshCatalog and the unsynchronised reads of the catalog: the catalog is an input of the run.
- GetImageInfo: an image is its creation time and size, and one remote call stands for the several that read manifest, configuration and media type.
- DeleteTag: replies lost after a remote deletion took effect; a refused call changes nothing.
- Names that the reference parser rejects: they count as refused calls.
- Daylight saving, zone changes and backward clock steps in the scheduler, and panics in the purge job.
- DaysOldMonotone: the age is exact truncated division; the program divides in floating point, which can differ within about a nanosecond of a day boundary.
- TotalFreed: byte sums are unbounded integers, not 64-bit ones.
- Lockout: the lockout period is not reduced to 64 bits, so absurdly long ones do not wrap.
- PrettySize, GetTopReposByTagCount and the start and finish times of a run: formatting, a plain sort and clock readings.
