# Verified models of the code-audit service

Dafny models of the parts of the service whose specification is much simpler than their code, with
proofs that the two agree for all inputs, all runs or all reachable states. Each module follows one
component, in the source's own form: dictionaries rewritten in place are class fields, loops are
loops with invariants, pure expressions are functions. `dafny verify dfyconfig.toml` checks
everything.

- `CycleComponents`: the union-find over import cycles, with path halving and lazy insertion, and the
  theorem that its groups are the strongly connected components of the cycle edges.
- `SlidingWindow`: the Redis rate limiter as a state machine over runs of calls, refined to a log of
  admitted events.
- `NpmLock`, `BfsDepth`, `NpmVersions`: flattening and Node-style lookup in lockfiles, dependency
  depth, version order and the freshness score.
- `ScanClaim`: the claim protocol of scan tasks as an interleaved transition system with duplicate
  deliveries, retries, kills and reapers.
- `Roc`, `Ranks`: the threshold sweep and trapezoids as a pairwise count, and tie-averaged ranks, over
  exact reals.
- `Dedup`, `ScanDiff`: grouping and merging of co-located findings, and the comparison of two scans as
  multisets. `DedupLines` says in line numbers, categories and messages what is merged.
- `PathQuoting`, `GitLog`: the git log parser as the inverse of git's record format and path quoting.
- `CiGates`: the closure of `needs` over cyclic and dangling jobs, and the gates built on it.
- `SyntaxTrees`, `ErrorHandling`: promise chains read both ways, try bodies, and the counters behind the
  error-handling ratios. `ErrorCounts` says of the syntax trees alone what each counter counts.
- `Paths`, `Sorting`, `Collections`, `Reals`, `Wrappers`: finite walks of a relation, Python's stable
  `sorted`, and small facts and types that the others share.

Where the code does not keep what one would expect, the exact condition is proved. Path names with a
plain U+0085, U+2028 or U+2029 do not survive `parse_log`, and all others do
(`GitLog.ParseInvertsPrint`). Two analyses can overlap if a task may live longer than the scan timeout
plus 60 seconds, or if a delivery raises before its claim, and in no other way
(`ScanClaim.ExclusiveExactly`). An exception after results were stored marks a finished scan queued or
failed again, and finished scans stay finished in all runs exactly without such exceptions and with tasks
killed in time (`ScanClaim.FinalExactly`). `deduplicate` loses the further listings of an object that it
keeps, so every input with given identities is accounted for in full exactly if no identity is listed twice
(`Dedup.ConservedExactlyIfDistinct`). Findings without a category are merged with the same rule only,
unless the name of the analyzer or the rule has a colon (`DedupLines.OnlySameRuleExactly`).

The docstring of `parse_npm_version` promises the order of Semantic Versioning 2.0.0; its pattern also
accepts leading zeros, missing numbers and empty identifiers, which that standard does not have. The
model orders those as the code does.

## Model

| member | source | states |
|---|---|---|
| `CycleComponents.Forest.Find` | validation/rubric/export.py:63-67 | `find` terminates although it rewrites `parent` while walking it; it returns the root where the links really end, inserts only a missing `start`, rewrites a parent only to the old grandparent, and leaves every module's root unchanged |
| `CycleComponents.Forest.Union` | validation/rubric/export.py:72 | one union step moves exactly the class of `other` to the root of `first` and leaves all other classes alone |
| `CycleComponents.ClimbEndsAtRoot` | validation/rubric/export.py:64-66 | climbing the parent links of any forest ends at the ghost root, in a number of steps bounded by the rank |
| `CycleComponents.UniteIssues` | validation/rubric/export.py:69-72 | after the union loop two modules share a root if and only if a chain of cycles with shared modules connects them |
| `CycleComponents.ConnectedIsEquivalence` | validation/rubric/export.py:69-72 | that relation is an equivalence, for every list of cycles |
| `CycleComponents.GroupIssues` | validation/rubric/export.py:73-78 | the grouping loop fails exactly if some cycle lists no modules, and otherwise files every cycle under the root of its first module, roots in order of first appearance |
| `CycleComponents.BuildComponents` | validation/rubric/export.py:61-78 | from the list of cycles to the components: none exactly if a cycle lists no modules, else the classes of connected modules, disjoint, with sizes and cycle counts that add up |
| `CycleComponents.ComponentsAreClasses` | validation/rubric/export.py:73-78 | each component is one class of connected modules, every module is in one, and none is empty |
| `CycleComponents.ComponentSizesAdd` | validation/rubric/export.py:109-112 | module sets of different components are disjoint and their sizes sum to the number of distinct modules |
| `CycleComponents.ComponentCyclesAdd` | validation/rubric/export.py:78 | the severity lists of the components together have one entry for each cycle |
| `CycleComponents.SeveritiesOfItsCycles` | validation/rubric/export.py:73-78 | a component lists the severities of exactly the cycles that start in one of its modules, in their order |
| `CycleComponents.ComponentsFollowCycles` | validation/rubric/export.py:73-78 | components come in the order in which their first cycles are reported |
| `CycleComponents.ConnectedIsStronglyConnected` | validation/rubric/export.py:53-54 | being connected by shared modules is the same as reaching each other along the directed edges of the cycles |
| `CycleComponents.ComponentsAreStronglyConnected` | validation/rubric/export.py:53-78 | the components are exactly the strongly connected components of the cycle-edge graph |
| `SlidingWindow.RedisKey.Eval` | backend/app/services/quotas.py:56-78 | the script, statement by statement, is the step and answer functions that the theorems are about |
| `SlidingWindow.NothingLost` | backend/app/services/quotas.py:63-73 | in every run the key and the log of admitted events hold the same events later than any window start still to come |
| `SlidingWindow.Outdated` | backend/app/services/quotas.py:63-73 | a key past its expiry holds only events that no window of a later call reaches |
| `SlidingWindow.NoWindowOverAdmits` | backend/app/services/quotas.py:54-78 | in every run of calls with one limit, every interval of window length less the clock skew holds at most `limit` admitted events; with no skew that is the full window |
| `SlidingWindow.AnswersFollowLog` | backend/app/services/quotas.py:63-77 | on one clock every answer (allowed, count, oldest) is a function of the log of admitted events alone |
| `SlidingWindow.AdmittedIffRoom` | backend/app/services/quotas.py:66-72 | a call is admitted if and only if its cost, at least 1, fits on top of the admitted events in (now - window, now] |
| `SlidingWindow.LogIsSpecLog` | backend/app/services/quotas.py:63-77 | the log itself is the one a specification without key, purge and expiry produces |
| `SlidingWindow.PeeksAndExpiryAreInvisible` | backend/app/services/quotas.py:66-73 | two runs with the same consuming requests give the same request the same answer, however many peeks they made and whenever the key expired |
| `SlidingWindow.OldestInWindow` | backend/app/services/quotas.py:74-77 | whenever something is counted the oldest counted event lies in (now - window, now] |
| `SlidingWindow.ResetInRange` | backend/app/services/quotas.py:182 | the reset is 0 with nothing counted and otherwise between 1 and window + 1 seconds |
| `SlidingWindow.ResetIsTight` | backend/app/services/quotas.py:182 | in every run, with something counted, 1000 * (reset - 1) <= oldest + 1000 * window - now < 1000 * reset |
| `SlidingWindow.AdmittedOnceOldestLeft` | backend/app/services/quotas.py:66-72 | after a refusal of cost 1, with no call in between, the next call of cost 1 is admitted exactly once the oldest counted event is a whole window old |
| `SlidingWindow.RetryTooEarly` | backend/app/services/quotas.py:182-183 | whoever comes back a whole second or more before the reset, with no call in between, is refused again |
| `SlidingWindow.RetryAfterIsEnough` | backend/app/services/quotas.py:182-183 | a refused request of cost 1 that comes back after its `Retry-After`, with no call in between, is admitted |
| `SlidingWindow.WindowIsFull` | backend/app/services/quotas.py:68 | a request of cost 1 is refused only when the window holds exactly `limit` events |
| `SlidingWindow.RemainingIsExact` | backend/app/services/quotas.py:94-96 | at the same instant a further request is admitted exactly if it costs no more than `remaining` said |
| `SlidingWindow.Window` | backend/app/services/quotas.py:165-183 | `_window` runs the script once and reports its count, decision and reset |
| `SlidingWindow.Consume` | backend/app/services/quotas.py:195-227 | `consume` lists the state, refused or not, and then returns it or refuses with the reset as `Retry-After` |
| `SlidingWindow.Peek` | backend/app/services/quotas.py:230-231 | `peek` adds no event: the key keeps exactly what the purge leaves |
| `NpmLock.Entries.Walk` | backend/app/services/analyzers/dep_health.py:801-812 | the recursive `walk` adds to the dictionary exactly the flattening of its tree |
| `NpmLock.Entries.NodeResolve` | backend/app/services/analyzers/dep_health.py:775-785 | the lookup loop terminates and finds the first candidate on the way out |
| `NpmLock.EnclosingInstalled` | backend/app/services/analyzers/dep_health.py:784-785 | cutting an install path at its last marker gives back the path it was installed under |
| `NpmLock.PlaceSpelled` | backend/app/services/analyzers/dep_health.py:801-812 | a package is installed under `node_modules/` in the install path of the package it is nested in, or of the root |
| `NpmLock.PlaceInjective` | backend/app/services/analyzers/dep_health.py:801-812 | different positions in the tree have different install paths |
| `NpmLock.FlattenOnly` | backend/app/services/analyzers/dep_health.py:801-812 | every key of the flat dictionary is the install path of a package of the tree |
| `NpmLock.FlattenIsTree` | backend/app/services/analyzers/dep_health.py:801-812 | a good path's key is present exactly for a package of the tree, and holds that package's version and requirements |
| `NpmLock.ScopedIsNearest` | backend/app/services/analyzers/dep_health.py:775-785 | of the places where a name may be, from the package outwards to the root, scope takes the nearest that has it |
| `NpmLock.ResolveIsScoped` | backend/app/services/analyzers/dep_health.py:775-785 | looking a name up in the flattened lockfile finds exactly what lexical scope finds in the nested tree |
| `NpmLock.ResolveInLock` | backend/app/services/analyzers/dep_health.py:775-814 | flattening and then resolving returns the entry of the package that lexical scope names, or nothing if it names none |
| `BfsDepth.BfsDepth` | backend/app/services/analyzers/dep_health.py:745-759 | terminates on cyclic graphs and returns the greatest of the shortest distances of everything reachable, roots at depth 1, and 0 without roots |
| `BfsDepth.Expand` | backend/app/services/analyzers/dep_health.py:755-758 | the inner loop puts exactly the unseen children of a node one level below it |
| `BfsDepth.DepthsAreShortest` | backend/app/services/analyzers/dep_health.py:753-758 | once all that was seen is expanded, the dictionary holds exactly the reachable nodes, each with its shortest distance |
| `NpmVersions.CompareMirrored` | backend/app/services/analyzers/dep_health.py:406-410 | Python's comparison of nested tuples, integers and strings: `>` mirrors `<`, and only equal values compare as equal |
| `NpmVersions.CompareTransitive` | backend/app/services/analyzers/dep_health.py:406-410 | it is transitive on all such values |
| `NpmVersions.KeysFollowSemVer` | backend/app/services/analyzers/dep_health.py:397-410 | keys never fail to compare, and their order is precedence as section 11 of Semantic Versioning 2.0.0 defines it |
| `NpmVersions.PrecedenceIsTotalPreorder` | backend/app/services/analyzers/dep_health.py:397-410 | the order is a total preorder whose ties are the versions of equal precedence |
| `NpmVersions.MajorKeyMonotone` | backend/app/services/analyzers/dep_health.py:359-362 | a higher version never has a lower major key, the rule for versions below 1.0.0 included |
| `NpmVersions.ComputeFreshness` | backend/app/services/analyzers/dep_health.py:1257-1281 | the loop over the registry's versions computes the freshness function the theorems are about |
| `NpmVersions.BehindIsCounted` | backend/app/services/analyzers/dep_health.py:1261-1273 | versions behind is the number of listed releases above the installed version and not above the ceiling; majors behind is the number of distinct majors, or minors below 1.0.0, among them above the installed one |
| `NpmVersions.ScoreInNumbers` | backend/app/services/analyzers/dep_health.py:1274-1280 | the score times one more than the majors behind is 1 up to two versions behind, 4/5 up to ten and 3/5 beyond |
| `NpmVersions.FreshnessInRange` | backend/app/services/analyzers/dep_health.py:1273-1281 | never more majors than versions behind, and a score in (0, 1] |
| `NpmVersions.FreshnessMonotone` | backend/app/services/analyzers/dep_health.py:1257-1281 | upgrading the installed version never lowers the score or adds versions or majors behind; a `latest` tag moving up never raises it |
| `NpmVersions.PublishingNeverRaises` | backend/app/services/analyzers/dep_health.py:1265-1272 | one more version anywhere in the list never raises the score while `latest` stays; it adds one version behind exactly if it is a release above the installed one and not above `latest` |
| `NpmVersions.UpToDateIsFresh` | backend/app/services/analyzers/dep_health.py:1262-1281 | whoever has the latest release, or anything above it, is 0 behind with score 1 |
| `CiGates.Ancestors` | backend/app/services/analyzers/ci_quality.py:454-464 | terminates on cyclic and dangling `needs` and returns exactly the names reachable by one or more of them |
| `CiGates.GatedJobs` | backend/app/services/analyzers/ci_quality.py:467-490 | the gates are the build jobs in file order with their first reason; "needs" is given exactly if a test job is in the transitive closure |
| `CiGates.GateMeans` | backend/app/services/analyzers/ci_quality.py:472-489 | a build job is gated by the test jobs it waits for through `needs`, if there are any; else because a test step of its own comes before a build step; else because a test job has an earlier stage; and for no other reason |
| `CiGates.GatesInFileOrder` | backend/app/services/analyzers/ci_quality.py:467-490 | the gates are exactly the jobs with such a reason, each once, in file order |
| `CiGates.NoTestsNoGates` | backend/app/services/analyzers/ci_quality.py:467-490 | without a test step anywhere nothing is gated |
| `ScanClaim.ScanRow.TryClaim` | backend/app/workers/tasks.py:141-158 | the conditional update claims a queued, failed or stale running row and changes nothing otherwise |
| `ScanClaim.ScanRow.StartEnrichment` | backend/app/services/llm/enrichment.py:40-48 | only a scan that waits for enrichment is marked as enriching |
| `ScanClaim.ScanRow.Reap` | backend/app/workers/maintenance.py:61-83 | both reapers on one row, in order, and how many rows each counts |
| `ScanClaim.ClaimWrites` | backend/app/workers/tasks.py:141-163 | a claim succeeds exactly on a scan that is queued, has failed, or has been running for more than timeout + 60 seconds, and then restarts its clock |
| `ScanClaim.HandlerWrites` | backend/app/workers/tasks.py:189-228 | a delivery that raises queues the scan again exactly if the error is transient and retries are left; otherwise the scan has failed, with the time; a handler whose write fails changes nothing |
| `ScanClaim.ReapersWrite` | backend/app/workers/maintenance.py:61-83 | a running scan fails once its claim is more than timeout + 60 + grace seconds old, a queued one once it is more than 21600 seconds old, and no other scan is touched |
| `ScanClaim.TimesFollowStatus` | backend/app/workers/tasks.py:82-163 | in every run, whatever fails, a running scan has a start and no completion time and a failed one has a completion time |
| `ScanClaim.StepKeepsInv` | backend/app/workers/tasks.py:113-232 | unless something is raised before a claim, every step of deliveries, retries, kills, reapers and enrichment keeps: a held row is not claimable, a running row carries its holder's start time, one holder at most |
| `ScanClaim.MutualExclusion` | backend/app/workers/tasks.py:139-163 | then no run reaches a state with two deliveries inside the analysis of one scan, if tasks are killed in time |
| `ScanClaim.ExclusiveExactly` | backend/app/core/celery_app.py:42-43 | analyses are exclusive in all runs if and only if nothing is raised before a claim and tasks are killed no later than scan timeout + 60 after their start, which is the configured limit |
| `ScanClaim.UnclaimedRaisesOverlap` | backend/app/workers/tasks.py:189-228 | a run for every setting in which a delivery that raises before its claim lets two others analyze together |
| `ScanClaim.LateTasksOverlap` | backend/app/workers/tasks.py:142-147 | a run for every longer limit in which a running scan is claimed a second time |
| `ScanClaim.OnlyTheHolderStores` | backend/app/workers/tasks.py:168 | whoever stores results is the scan's only holder and nobody can claim the row under it |
| `ScanClaim.OnlyHandlersUnfinish` | backend/app/workers/tasks.py:82-110 | of all statements exactly the status write of an exception handler takes a finished scan back, whoever raised |
| `ScanClaim.StepKeepsSettling` | backend/app/services/llm/enrichment.py:40-48 | without raises before a claim or after a store, a row is running while it is held and finished once results are stored and whenever an enrichment write is still to come, although the job's check and its writes are apart |
| `ScanClaim.FinishedIsFinal` | backend/app/workers/tasks.py:131-137 | then no retry, duplicate, kill, reaper or enrichment write takes a finished scan back |
| `ScanClaim.FinalExactly` | backend/app/workers/tasks.py:113-232 | finished scans stay finished in all runs if and only if nothing is raised before a claim or after results were stored, and tasks are killed no later than scan timeout + 60 after their start |
| `ScanClaim.UnclaimedRaisesUndo` | backend/app/workers/tasks.py:189-228 | a run for every setting in which a raise before a claim marks a finished scan failed |
| `ScanClaim.RaiseAfterStoreUndoes` | backend/app/workers/tasks.py:189-228 | a run for every setting, stored status and error in which the handler marks a finished scan queued or failed again |
| `ScanClaim.LateTasksUndo` | backend/app/workers/tasks.py:189-228 | a run for every longer limit in which the slower of two overlapping deliveries marks the other's finished scan failed |
| `Roc.SortingReversesSweep` | validation/phishing/report.py:50-58 | sorting the swept points lexicographically is reversing the sweep |
| `Roc.AreaCountsPairs` | validation/phishing/report.py:50-58 | 2 * P * N times the trapezoid area is the doubled pair count, for scores 0 to 100 |
| `Roc.AucIsPairwise` | validation/phishing/report.py:41-58 | with both classes present the area equals (pairs ranked right + half the ties) / (P * N) |
| `Roc.AucAndCliffsDelta` | validation/rubric/signals_experiment.py:80-86 | the area lies in [0, 1] and `cliffs_delta` of the two classes is twice the area less one |
| `Ranks.ComputeRanks` | validation/rubric/report.py:54-65 | the nested loops give every position #smaller + (#equal + 1) / 2 |
| `Ranks.StretchRank` | validation/rubric/report.py:61-63 | the mean place of a stretch of equal values is that count |
| `Ranks.RanksFollowValues` | validation/rubric/report.py:54-65 | equal values share a rank and a larger value has a larger one |
| `Ranks.RanksSum` | validation/rubric/report.py:54-65 | ranks sum to n(n+1)/2, ties or not |
| `Ranks.RanksKeepOrder` | validation/rubric/report.py:54-65 | ranks are unchanged by any strictly increasing transform |
| `Ranks.VarianceOfRanks` | validation/rubric/report.py:73-74 | the ranks have no variance exactly if all values are equal |
| `Ranks.SpearmanExists` | validation/rubric/report.py:68-74 | the correlation is None exactly below three pairs or with a constant list |
| `Ranks.SpearmanBounded` | validation/rubric/report.py:75 | its square is at most 1 |
| `Ranks.SpearmanInRanks` | validation/rubric/report.py:73-75 | covariance and variances are the sums of the products of ranks less n times the square of (n + 1) / 2 |
| `Ranks.SameOrderIsOne` | validation/rubric/report.py:68-75 | lists in the same order have covariance = both variances > 0, that is correlation 1 |
| `Ranks.ReverseOrderIsMinusOne` | validation/rubric/report.py:68-75 | lists in reverse order have the negated variance as covariance, that is correlation -1 |
| `Ranks.SpearmanKept` | validation/rubric/report.py:68-75 | strictly increasing transforms of either list do not change it |
| `Dedup.GroupBucket` | backend/app/services/analyzers/dedup.py:87-98 | on a bucket sorted by line, each item joins the first group whose anchor it is co-located with, or opens one |
| `Dedup.Deduplicate` | backend/app/services/analyzers/dedup.py:79-101 | the merged findings are the merges of a grouping: every finding in a group of its (path, category), groups pairwise separate, ordered by smallest input position |
| `Dedup.ExactlyOneGroup` | backend/app/services/analyzers/dedup.py:79-101 | every input finding is in exactly one group |
| `Dedup.AnchorsApart` | backend/app/services/analyzers/dedup.py:87-98 | anchors of a bucket are pairwise not co-located, and no member of a later group matches an earlier anchor |
| `Dedup.SameLineSameGroup` | backend/app/services/analyzers/dedup.py:32-39 | findings of a bucket with equal start line always share a group |
| `DedupLines.MembersNearAnchor` | backend/app/services/analyzers/dedup.py:32-39 | every member of a group starts on the line of its anchor, or below it on a line of the anchor when that spans at most 5 |
| `DedupLines.MergedWithinFiveLines` | backend/app/services/analyzers/dedup.py:17-39 | no two findings that are merged start more than 5 lines apart |
| `DedupLines.FarFromEarlierAnchors` | backend/app/services/analyzers/dedup.py:90-93 | a member of a later group starts below each earlier anchor of its bucket, past its end unless the anchor spans more than 5 lines |
| `DedupLines.JoinsFirstNearAnchor` | backend/app/services/analyzers/dedup.py:87-98 | a finding is in a group if and only if the group's anchor is the first of the finding's bucket that does not come after it and is near to it |
| `DedupLines.BucketMeans` | backend/app/services/analyzers/dedup.py:27-29 | two findings that both have a category, or both none, share a bucket exactly if they are in one file and have that category in common, or spell the same `analyzer:rule` |
| `DedupLines.OnlySameRuleExactly` | backend/app/services/analyzers/dedup.py:27-29 | uncategorized findings share a bucket with the same rule only, as the docstring promises, if and only if neither analyzer nor rule has a colon in its name |
| `DedupLines.OutputFollowsInput` | backend/app/services/analyzers/dedup.py:79-101 | the output is in the order in which the first member of each group appears in the input |
| `DedupLines.SeverityIsWorst` | backend/app/services/analyzers/dedup.py:58 | a merged finding is critical if a member is, else error if a member is, else warning, else info |
| `DedupLines.KeptSaysMost` | backend/app/services/analyzers/dedup.py:42-52 | the kept finding has the longest stripped message, on ties the gravest severity, on ties a snippet, and it is the first such |
| `DedupLines.StrippedMeans` | backend/app/services/analyzers/dedup.py:45 | stripping takes white space from both ends, and nothing else |
| `Dedup.SurvivorsOnDifferentLines` | backend/app/services/analyzers/dedup.py:32-39 | surviving findings of a bucket have distinct start lines |
| `Dedup.MergeMeaning` | backend/app/services/analyzers/dedup.py:51-76 | a merged finding has the words and place of a richest member and the worst severity of its group, and lists as corroborating exactly what that member listed and the analyzers of the other members other than its own |
| `Dedup.KeeperIsFirst` | backend/app/services/analyzers/dedup.py:52 | of equally rich members the first is kept |
| `Dedup.CwesUnited` | backend/app/services/analyzers/dedup.py:59 | a merge of several findings has every CWE of every member, and each once |
| `Dedup.EvidenceListed` | backend/app/services/analyzers/dedup.py:56-75 | starting from none, `merged_from` lists analyzer, rule, severity, start line and message of exactly the members that are not the kept object, in the order of the group |
| `Dedup.EvidenceConserved` | backend/app/services/analyzers/dedup.py:51-76 | 1 + length of `merged_from` summed over the output is the input length if and only if no kept object is listed twice in its group; otherwise exactly the repeats are missing |
| `Dedup.DistinctObjectsConserved` | backend/app/services/analyzers/dedup.py:51-76 | with distinct input objects nothing is lost |
| `Dedup.ConservedExactlyIfDistinct` | backend/app/services/analyzers/dedup.py:56-69 | for the identities of an input: every input with them is accounted for in full if and only if no object is listed twice |
| `Dedup.PassedTwice` | backend/app/services/analyzers/dedup.py:56-69 | any finding passed twice comes back once, with no trace of the second listing |
| `ScanDiff.DiffFindings` | backend/app/services/compare.py:49-68 | bucket pops give the surplus of each identity on either side, in report order, where ties keep the order of the head, and in the base the order in which identities first appear |
| `ScanDiff.DiffIsMultisetDifference` | backend/app/services/compare.py:49-68 | new = head - base and resolved = base - head as multisets of identities; both counts add up; no identity is new and resolved |
| `ScanDiff.SurplusReported` | backend/app/services/compare.py:55-62 | of an identity the later copies of the head and the earlier copies of the base are reported |
| `ScanDiff.TriangleInequality` | backend/app/services/compare.py:49-68 | the new findings from a to c number at most those from a to b plus those from b to c |
| `PathQuoting.UnquotePath` | backend/app/services/analyzers/git_log.py:72-97 | the loop over the quoted body computes the unquoting function |
| `PathQuoting.TurnUndoesUnit` | backend/app/services/analyzers/git_log.py:83-96 | one turn of the loop takes back exactly one escaped or plain unit, whatever follows it |
| `PathQuoting.UnquoteInvertsGit` | backend/app/services/analyzers/git_log.py:72-97 | unquoting inverts git's C-style quoting for every path, control, quote, backslash and octal escapes included |
| `PathQuoting.EveryByteStringRoundTrips` | backend/app/services/analyzers/git_log.py:72-97 | quoting and unquoting is the identity on every byte string |
| `GitLog.ParseLog` | backend/app/services/analyzers/git_log.py:100-137 | the loops over records and lines compute the parsing function |
| `GitLog.RecordParses` | backend/app/services/analyzers/git_log.py:104-137 | one printed record is read as one commit with its own fields |
| `GitLog.QuoteNeverSpells` | backend/app/services/analyzers/git_log.py:78-80 | an opening quote in front of escaped text never spells the bytes of the path itself |
| `GitLog.BrokenLine` | backend/app/services/analyzers/git_log.py:124-135 | a path with a plain Unicode line break is read as a different path |
| `GitLog.ParseInvertsPrint` | backend/app/services/analyzers/git_log.py:31-137 | parsing what git prints returns the same commits, e-mails lower-cased, if and only if no path has such a break |
| `SyntaxTrees.Walk` | backend/app/services/graph/parser.py:148-154 | the stack loop yields the pre-order listing |
| `SyntaxTrees.WalkIsExact` | backend/app/services/graph/parser.py:148-154 | the listing has every node of the tree, and each once |
| `ErrorHandling.ChainMethodsAbove` | backend/app/services/analyzers/error_handling.py:490-506 | the upward walk computes the chain above a call |
| `ErrorHandling.ChainMethodsBelow` | backend/app/services/analyzers/error_handling.py:509-520 | the downward walk computes the chain below a call |
| `ErrorHandling.ChainDuality` | backend/app/services/analyzers/error_handling.py:490-520 | the chain read downward from the outermost call is the chain read upward, reversed, followed by what is below the call |
| `ErrorHandling.InnermostCall` | backend/app/services/analyzers/error_handling.py:490-520 | for an innermost call that rest is its own method, if it calls a member |
| `ErrorHandling.ReadingsAgree` | backend/app/services/analyzers/error_handling.py:535-536 | both readings agree on whether a chain handles its rejection |
| `ErrorHandling.InsideTryBody` | backend/app/services/analyzers/error_handling.py:205-214 | the climb over the parents computes the predicate below |
| `ErrorHandling.InsideMeansInsideTry` | backend/app/services/analyzers/error_handling.py:205-214 | it holds exactly if the node is lexically in a try body with no function in between |
| `ErrorHandling.FindHandled` | backend/app/services/analyzers/error_handling.py:423-433 | the loop over a handler's own nodes, with its early exit, computes the predicate below |
| `ErrorHandling.HandledMeansOwnNode` | backend/app/services/analyzers/error_handling.py:352-359 | a handler handles the error exactly if some node outside nested definitions raises, logs or uses it |
| `ErrorHandling.PythonRule` | backend/app/services/analyzers/error_handling.py:407-435 | which rule an except clause breaks, and that it breaks at most one of them |
| `ErrorHandling.JsRule` | backend/app/services/analyzers/error_handling.py:606-630 | which rule a catch clause breaks, and that it breaks at most one of them |
| `ErrorHandling.Collected.CollectTree` | backend/app/services/analyzers/error_handling.py:395-603 | one traversal adds to each counter the sum over all nodes of the tree |
| `ErrorHandling.Analyze` | backend/app/services/analyzers/error_handling.py:636-707 | the report is the ratios of those sums over all parsed files |
| `ErrorCounts.CountersAreCounts` | backend/app/services/analyzers/error_handling.py:395-603 | every counter over all trees is the number of (tree, node) pairs that it counts |
| `ErrorCounts.NodeCounted` | backend/app/services/analyzers/error_handling.py:395-603 | what it counts, said of the tree: handlers and the discarding ones; I/O calls and those inside or outside a try body or a handled chain; `then` statements and awaited I/O chains, and the unhandled ones |
| `ErrorCounts.TryMeans` | backend/app/services/analyzers/error_handling.py:205-214 | a node is in a try body exactly if a try statement above it has it in its body field, with no function between the two |
| `ErrorCounts.SwallowsMeansPython` | backend/app/services/analyzers/error_handling.py:407-428 | an except clause discards the error exactly if it names no type, or a broad one over a block that does nothing, or an unexpected one over a block that ignores the error |
| `ErrorCounts.LargeTryMeans` | backend/app/services/analyzers/error_handling.py:430-435 | the large-block finding is given exactly to broad handlers of a try body of more than 25 rows |
| `ErrorCounts.SwallowsMeansJs` | backend/app/services/analyzers/error_handling.py:606-630 | a catch clause discards the error exactly if all statements of its body, if any, are calls of console members |
| `ErrorCounts.AboveMeans` | backend/app/services/analyzers/error_handling.py:490-506 | the chain above a node has a link for each call chained onto it, from the nearest outwards |
| `ErrorCounts.BelowMeans` | backend/app/services/analyzers/error_handling.py:509-520 | the chain from a call down has a link if it calls a member, followed by what is below the object of the member |
| `ErrorCounts.NothingBelow` | backend/app/services/analyzers/error_handling.py:509-520 | and it has no link if it calls no member |
| `ErrorCounts.LinkMeans` | backend/app/services/analyzers/error_handling.py:485-520 | a link is the name after the dot and the number of arguments, comments not counted |
| `ErrorCounts.CallsBelowMeans` | backend/app/services/analyzers/error_handling.py:523-533 | the calls below a call are exactly the calls of its chain |
| `ErrorCounts.AsyncMeans` | backend/app/services/analyzers/error_handling.py:539-549 | an `await` counts only in a nearest enclosing function with the keyword `async` |
| `ErrorCounts.UnwrappedMeans` | backend/app/services/analyzers/error_handling.py:552-555 | what a statement or an `await` consists of is its first named child with the parentheses taken off |
| `ErrorCounts.ReportInNumbers` | backend/app/services/analyzers/error_handling.py:678-682 | a ratio is there exactly if there is something to measure, and times that many it is the number not swallowed, wrapped, or not unhandled |
| `ErrorCounts.ScoreIsMean` | backend/app/services/analyzers/signals.py:46-49 | the score is the mean of the ratios that are there, and is there exactly if one is |
| `ErrorHandling.CountsRelated` | backend/app/services/analyzers/error_handling.py:395-603 | swallow findings <= handlers, wrapped + unwrapped = I/O sites, promise findings <= promise sites, over every list of trees |
| `ErrorHandling.ReportInRange` | backend/app/services/analyzers/error_handling.py:666-707 | every ratio and the score lie in [0, 1], and the score is 1 or absent exactly if nothing is swallowed, unwrapped or unhandled |

## Left out

- ScanClaim.MutualExclusion: for runs in which nothing is raised before a claim and tasks are killed in time; ExclusiveExactly shows that both are needed.
- ScanClaim.FinishedIsFinal: for runs in which, besides, nothing is raised after results are stored; FinalExactly shows that all three are needed.
- SlidingWindow.AnswersFollowLog: assumes one nondecreasing clock for callers and Redis; only NoWindowOverAdmits covers clock skew.
- NpmLock.ResolveIsScoped: for package names that are not empty, do not contain `node_modules/` and do not end in `/`; other names make install paths ambiguous.
- Roc.AucIsPairwise: for integer scores from 0 to 100, which is what the scorer produces, with both classes present.
- Ranks.SpearmanBounded: keeps covariance and variances apart instead of dividing by a square root, and uses exact reals instead of floats.
- ScanClaim: one clock for all workers; a scan that fails to be queued is assumed never delivered, so the write of `backend/app/api/routes/scans.py` after a failed enqueue is not a step. The reaper of stuck enrichments may act as soon as a scan waits for enrichment, where the code waits for a deadline.
- ScanClaim: a scan row that no longer exists, the error message column, the analyzer-run rows that a failure closes, the enrichment columns, and the reapers of web captures and pull requests.
- SlidingWindow: sorted-set members are unique because each call draws a fresh UUID, so the set is modelled by its scores; the limit of a key does not change during a run; the key never disappears before its expiry.
- SlidingWindow: which limit and subject a request has, metrics, and the wording of refusals.
- NpmLock: lockfile versions 2 and 3, links, root dependencies and the counts that `parse_package_lock` returns; a JSON object has each key once.
- NpmVersions: the regular expression that splits a version text, which is a parameter; PyPI versions, whose order is the `packaging` library's.
- CiGates: the parsing of CI files and the patterns that classify commands, which give each step its two flags; upstream jobs are a set where the source prints sorted names.
- CycleComponents: the severity that the export picks for a component, and the database queries around it.
- DedupLines.BucketMeans: compares two findings that both have a category or both have none; a category spelled like `rule:analyzer:rule` would share a bucket with that rule.
- Dedup: `normalize_path` is a parameter, and corroborating analyzers are a set where the source sorts them. `deduplicate` is not idempotent and nothing here says it is.
- ScanDiff: how a finding's identity is built from its text, and the severity order behind the report order, are parameters.
- Roc: the precision and F1 fields of `confusion`, and one-class inputs, where rates are None.
- Ranks: NumPy's argsort, whose result is a parameter required to sort the values; bootstrap intervals.
- PathQuoting, GitLog: decoding bytes as UTF-8 with replacement; integers and digits outside ASCII; `str.lower`, which is a parameter. Header fields are free of the record and unit separators and of line breaks, and commit and parent hashes of white space.
- ErrorHandling: tree-sitter itself, the name tables that say which calls do I/O or log and what an except clause catches (labels of the tree here), snippets, line numbers and the cap on reported findings.
- Nothing is modelled of routes, schemas, storage, GitHub and HTTP clients, sandboxes, the pull-request builder, the LLM client and its budget, or the frontend.
