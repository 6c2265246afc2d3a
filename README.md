# imagesync core, modelled in Dafny

imagesync copies container images between OCI layouts, image archives and
registries without a daemon. Its one substantive file, `imagesync.go`, does
two things, and this project models both:

- `DetectAndCopyImage` decides what kind of source it was given. A directory
  is an OCI layout. A file is an OCI archive or a docker archive. A tagged
  reference is a single image. An untagged reference is a whole repository.
  It then starts the matching copy.
- `copyRepository` turns the tag listing of a repository into a plan. It
  sorts the listing. It removes the comma-separated skip list, keeps the tags
  the include pattern matches and drops those the exclude pattern matches.
  It subtracts the destination's tags unless `Overwrite` is set or that
  listing failed. An empty plan exits as "already synced". Otherwise it
  clamps the worker count to the plan length and hands the plan to a worker
  pool through a buffered channel.

The foreign calls appear as inputs. Reference parsing, `os.Stat`, each
`copyImage` result, `docker.GetRepositoryTags` and the regexp engine are
each given as a value or a function (`Detect.Observations`, `Types.Regexp`,
`Repository.Lister`). The model follows the code as written, including its
repository branch. That branch looks wrong, and the three places where it
does are recorded under "## Findings" with a corrected version beside them.

Files, one module each:

- `types.dfy`: the options record `CliInput`, image references, the regexp engine.
- `strings.dfy`: `strings.Split` and `strings.HasSuffix`, written out.
- `tagorder.dfy`: Go's string order, a reference sort, and the in-place array sort behind `slices.Sort`.
- `tagsets.dfy`: `lo.Filter` and `subtract`, which is a loop proved against its specification `Diff`.
- `repository.dfy`: `copyRepository` up to the start of the worker pool. It is a method proved equal to the reference function `CopyRepositorySpec`.
- `plan_properties.dfy`: what the plan satisfies, proved about `CopyRepositorySpec`.
- `scheduler.dfy`: the buffered tag channel, the producer that fills and closes it, and one worker's receive loop run on its own.
- `detect.dfy`: the decision tree of `DetectAndCopyImage` and `hasTag`.
- `findings.dfy`: the intended repository branch, and concrete runs of the branch as written.

Behaviour of the code worth knowing:

- An untagged source with a tagged destination is not rejected. It is the only way into the repository sync (imagesync.go:149).
- The include and exclude patterns are compiled only after the source tags have been listed, sorted and skipped, so an invalid pattern is reported after the source listing succeeds (imagesync.go:168-197).
- A `MaxConcurrentTags` of 0 or less is not rejected. No worker starts, and the pool returns nil (imagesync.go:215-224).
- Duplicate tags in a listing are kept by the sort and by the skip stage (imagesync.go:173-177).

## Model

| member | source | states |
|---|---|---|
| GoStrings.HasSuffixMeansEndsWith | imagesync.go:272 | `HasSuffix(s, t)` holds exactly when `s` is some string followed by `t` |
| GoStrings.Split | imagesync.go:177 | the skip string splits into at least one piece, and no piece contains a comma |
| GoStrings.JoinSplit | imagesync.go:177 | joining the pieces of `strings.Split` with the separator gives back the original string |
| GoStrings.SplitJoin | imagesync.go:177 | splitting a join of separator-free pieces gives back exactly those pieces |
| TagOrder.LeTotal | imagesync.go:173 | any two tags are comparable in Go's string order |
| TagOrder.LeTransitive | imagesync.go:173 | Go's string order is transitive |
| TagOrder.LeAntisymmetric | imagesync.go:173 | two tags that are each at most the other are equal |
| TagOrder.Insert | imagesync.go:173 | inserting into an ascending list keeps it ascending and adds exactly one copy of the element |
| TagOrder.SortSpec | imagesync.go:173 | the reference sort returns an ascending permutation of its input |
| TagOrder.SortedUnique | imagesync.go:173 | two ascending lists with the same elements and multiplicities are equal, so any correct sort gives the same listing |
| TagOrder.SortTags | imagesync.go:173 | `slices.Sort` leaves the array ascending and a permutation of its old contents, equal to the reference sort |
| TagSets.Filter | imagesync.go:187 | `lo.Filter` keeps exactly the elements that satisfy the condition and never lengthens the list |
| TagSets.FilterCount | imagesync.go:187 | filtering keeps every copy of an accepted tag and drops every copy of a rejected one |
| TagSets.FilterIsSubsequence | imagesync.go:187 | a filtering stage only deletes elements, so its result is a subsequence of its input |
| TagSets.FilterSorted | imagesync.go:196 | filtering an ascending list leaves it ascending |
| TagSets.FilterFilter | imagesync.go:187-196 | two filters in a row equal one filter by both conditions |
| TagSets.FilterIdempotent | imagesync.go:187 | filtering twice by the same condition is filtering once |
| TagSets.FilterKeepsAll | imagesync.go:187 | a condition that accepts every element leaves the list unchanged |
| TagSets.FilterRejectsAll | imagesync.go:196 | a condition that accepts no element leaves the list empty |
| TagSets.FilterExt | imagesync.go:187 | conditions that agree on the list's elements give the same result |
| TagSets.FilterAppend | imagesync.go:281 | filtering a list with one more element at the end appends that element exactly when it is accepted |
| TagSets.Diff | imagesync.go:275-284 | a tag is in `subtract(ts1, ts2)` exactly when it is in `ts1` and not in `ts2` |
| TagSets.DiffCount | imagesync.go:275-284 | every copy of a tag absent from `ts2` is kept, including duplicates, and no copy of a tag present in `ts2` |
| TagSets.DiffIsSubsequence | imagesync.go:275-284 | the difference is a subsequence of `ts1`, in `ts1`'s order |
| TagSets.DiffIdempotent | imagesync.go:275-284 | subtracting the same list twice is subtracting it once |
| TagSets.DiffEmpty | imagesync.go:275-284 | subtracting the empty list changes nothing |
| TagSets.DiffEmptyIff | imagesync.go:275-284 | the difference is empty exactly when every tag of `ts1` occurs in `ts2` |
| TagSets.Subtract | imagesync.go:275-284 | the loop that skips `lo.Contains` hits and appends the rest returns exactly `Diff(ts1, ts2)` |
| Repository.Min | imagesync.go:215-218 | the clamp is at most both arguments and equal to one of them |
| Repository.CopyRepository | imagesync.go:168-218 | the listing, sorting, stage-by-stage narrowing, early error returns, subtraction, "already synced" exit and worker clamp give exactly the outcome of the reference definition `CopyRepositorySpec` |
| PlanProperties.SkipStage | imagesync.go:176-178 | the skip-list stage is a filter by "not in the split skip list", and does nothing when the skip string is empty |
| PlanProperties.IncludeStage | imagesync.go:181-188 | the include stage is a filter by "matches", and does nothing when the pattern is empty |
| PlanProperties.ExcludeStage | imagesync.go:191-197 | the exclude stage is a filter by "does not match", and does nothing when the pattern is empty |
| PlanProperties.FilteredIsSelection | imagesync.go:175-197 | the three stages in their fixed order equal one filter by all three rules |
| PlanProperties.NoRulesNoFiltering | imagesync.go:176-197 | with an empty skip string and empty patterns no tag is removed |
| PlanProperties.FilteringIdempotent | imagesync.go:175-197 | filtering an already filtered list again changes nothing |
| PlanProperties.PlanIsSelectionOfSortedListing | imagesync.go:173-205 | the plan is the sorted listing filtered by one condition: the rules, plus absence from the destination unless subtraction is skipped |
| PlanProperties.StartedPlanShape | imagesync.go:173-205 | a started plan is ascending, is a subsequence of the sorted listing, and holds a tag exactly when the tag is listed, passes the rules and survives the subtraction |
| PlanProperties.PlannedTagsObeyRules | imagesync.go:176-197 | every planned tag is outside the skip list, matches the include pattern and avoids the exclude pattern, each rule applying only when its option is set |
| PlanProperties.PlanAgainstDestination | imagesync.go:199-205 | with `Overwrite` or a failed destination listing the plan is the filtered tags; otherwise it is their difference with the destination tags and shares no tag with them |
| PlanProperties.EarlyErrors | imagesync.go:168-197 | a failed source listing or a non-compiling pattern is an error that comes before the destination listing and before any copy; the include pattern is checked first; otherwise no error is returned and both repositories are listed |
| PlanProperties.AlreadySyncedExactlyWhenPlanEmpty | imagesync.go:207-210 | the run exits as "already synced" exactly when the plan is empty, and starts workers only on a non-empty plan |
| PlanProperties.WorkerCountBounds | imagesync.go:215-218 | the worker count is `min(MaxConcurrentTags, len(tags))`, and is between 1 and the plan length when `MaxConcurrentTags` is at least 1 |
| PlanProperties.InSyncWhenDestinationHasAll | imagesync.go:199-210 | when every listed tag is already at the destination and `Overwrite` is off, the run ends as "already synced" |
| PlanProperties.ExampleListingSorted | imagesync.go:173 | sorting the listing a, b, c, latest leaves it unchanged |
| PlanProperties.ExampleSkip | imagesync.go:177 | the skip string "b" splits into ["b"], and subtracting it from a, b, c, latest leaves a, c, latest |
| PlanProperties.ExampleInclude | imagesync.go:187 | an include pattern matching only a and c keeps a and c from a, c, latest |
| PlanProperties.ExampleStages | imagesync.go:175-197 | skip list "b" and include pattern "^[ac]$" narrow a, b, c, latest to a, c |
| PlanProperties.ExampleSubtract | imagesync.go:204 | subtracting the destination tag a from a, c leaves c |
| Scheduler.TagQueue.constructor | imagesync.go:223 | a new channel of the given capacity is empty and open |
| Scheduler.TagQueue.Send | imagesync.go:248 | a send on an open channel with room appends the tag to the buffer |
| Scheduler.TagQueue.Close | imagesync.go:250 | closing marks the channel closed and keeps the buffered tags |
| Scheduler.TagQueue.Receive | imagesync.go:227-230 | a receive returns the oldest buffered tag and removes it, or reports `ok == false` with the zero value once the channel is closed and empty |
| Scheduler.EnqueuePlan | imagesync.go:246-252 | the producer enqueues every plan tag exactly once, in plan order, into a channel sized to the plan, and closes it |
| Scheduler.Drain | imagesync.go:226-230 | one worker's receive loop, run alone on a closed channel, receives every buffered tag exactly once, oldest first, and leaves the buffer empty |
| Scheduler.EnqueueThenDrain | imagesync.go:223-252 | with the producer run first and one worker after it, the worker receives exactly the plan, in plan order |
| Detect.CopyLocalSource | imagesync.go:113-137 | a directory leads to at most one OCI-layout copy; a file always tries the OCI-archive copy first, and tries docker-archive exactly when that copy failed and the docker-archive reference parsed |
| Detect.CopyTaggedImage | imagesync.go:144-147 | a tagged source is exactly one single-image copy, and succeeds exactly when that copy does |
| Detect.RepositoryStatus | imagesync.go:150-152 | the wrapped result of `copyRepository` is never success |
| Detect.HasTag | imagesync.go:271-273 | `hasTag` holds exactly when the normalised reference is some string followed by the user's reference |
| Detect.UntaggedSource | imagesync.go:148-154 | an untagged destination copies nothing and succeeds; a tagged one makes exactly one repository copy, which lists from the destination reference first, then the source, and never reports success |
| Detect.DetectAndCopy | imagesync.go:94-159 | a destination parse failure returns its error before any copy; at most two copies are attempted; the "already synced" exit happens only from the repository sync |
| Detect.AttemptsFollowKind | imagesync.go:86-155 | once the destination parses, every copy attempted is of the kind the source was classified as, with the archive fallback order of the code |
| Detect.CompletedExactlyWhen | imagesync.go:94-158 | success is reported exactly when the copy for the detected kind succeeded; for an untagged source, exactly when the destination is untagged |
| Detect.RepositoryBranchNeverCompletes | imagesync.go:148-153 | whenever `copyRepository` runs, the result is a "copy repository" error or the "already synced" exit, never success |
| Detect.RepositorySyncListsDestinationFirst | imagesync.go:149-168 | `copyRepository` runs exactly for an untagged source with a tagged destination; it then lists the "source" tags from the destination reference and the "destination" tags from the source reference |
| Detect.UntaggedBothCopiesNothing | imagesync.go:148-158 | an untagged source with an untagged destination copies nothing and reports success |
| Findings.IntendedRepositoryStatus | imagesync.go:150-152 | the intended wrapping reports success exactly when the worker pool ran without a worker error |
| Findings.DetectAndCopyIntended | imagesync.go:94-159 | the corrected decision tree still fails first on a destination parse error and attempts at most two copies |
| Findings.IntendedAgreesOutsideRepositoryBranch | imagesync.go:94-147 | the correction changes nothing outside the untagged-source branch |
| Findings.IntendedRepositorySyncRuns | imagesync.go:86-93 | with the correction, an untagged source into an untagged destination runs the repository sync with the references in parameter order |
| Findings.IntendedRepositorySyncCompletes | imagesync.go:150-152 | with the correction, that sync reports success exactly when `copyRepository` returned nil |
| Findings.IntendedListsSourceFirst | imagesync.go:164-168 | with the correction, the source tags are listed from the source reference and the destination tags from the destination reference |
| Findings.ExampleUntaggedDestinationSkipsSync | imagesync.go:148-158 | syncing `registry.example.com/app` into `mirror.example.com/app` copies nothing and reports success |
| Findings.ExampleSuccessfulSyncReportsError | imagesync.go:149-152 | syncing `registry.example.com/app` into `mirror.example.com/app:v1` with `Overwrite` set and `MaxConcurrentTags` 0, so that no worker starts and the pool returns nil, returns a "copy repository" error with no cause whatever the workers' outcome, and plans from the destination's tags |

## Left out

- `Execute`, the cobra flags and `cmd/imagesync/main.go` (imagesync.go:48-84): command-line plumbing and the process exit code.
- `copyImage` and its accept-anything signature policy (imagesync.go:257-269), and every parser of the containers/image library. These are foreign library and network calls. Each one is a success or failure value in `Detect.Observations`. `docker.GetRepositoryTags` is a function from reference to optional listing (`Repository.Lister`).
- The error from `ociarchive.ParseReference` is discarded (imagesync.go:128). When that parse fails, the code passes a nil reference to `copyImage`, and what the image library does with it is outside this model; it may panic rather than fail. The model assumes it is a failed copy followed by the docker-archive fallback, and always attempts the OCI-archive copy.
- The Go regexp engine: compilation is a boolean and matching an uninterpreted relation (`Types.Regexp`).
- The errgroup worker pool (imagesync.go:222-245, 254): its point is concurrency. The model keeps the channel, its producer and one worker's receive loop run on its own (`Scheduler`). The workers' per-tag reference parsing and copies are not modelled. Neither is the cancellation of the errgroup context. Their combined result is the single observation `workersOk`, and with zero workers it cannot be an error. `workersOk` is otherwise unconstrained. In the untagged-source branch, though, `c.Destination` normally carries a tag, so a worker's parse of `//<destination>:<tag>` at imagesync.go:231 sees two tags and fails; a run with at least one worker then ends in a worker error, which the model does not derive. (A destination such as `test`, whose normalized form ends in the string itself without naming a tag, is the exception.) errgroup returns the first worker error, although the comment at imagesync.go:220-221 says per-tag errors are ignored. The model follows the code.
- Logging through logrus and the `os.Stdout` report writer. `os.Exit(0)` on an empty plan (imagesync.go:209) is the distinct status `ExitAlreadySynced`, not a process exit.
- The TLS `SystemContext` setup (imagesync.go:101-110): that configuration only reaches foreign calls. The two `StrictTLS` fields are carried in `CliInput` and not read.
- `slices.Sort` is Go's pattern-defeating quicksort. `TagOrder.SortTags` sorts by insertion instead. The sorted result is unique (`TagOrder.SortedUnique`), so the algorithm does not affect the plan.
- `GoStrings.Split`: only a one-character separator, which is what the code uses.
- Go's nil slice and empty slice are not told apart: the code only takes their length.

## Findings

| source | as written | input that shows it | evidently intended | confidence | as-written member | corrected member |
|---|---|---|---|---|---|---|
| imagesync.go:149 | the repository sync runs only when the destination HAS a tag; an untagged destination copies nothing and reports success | `--src registry.example.com/app --dest mirror.example.com/app` | sync the whole repository when the destination is untagged (doc comment at imagesync.go:86-93); the corrected member also rejects a tagged destination, which is a choice of this model: a worker's parse of `//<destination>:<tag>` at imagesync.go:231 cannot succeed on one | high; not executed | Findings.ExampleUntaggedDestinationSkipsSync | Findings.IntendedRepositorySyncRuns |
| imagesync.go:150-152 | the `if err != nil` body is empty and the wrapped error is returned unconditionally, so a successful sync returns "copy repository: %!w(<nil>)" | `--src registry.example.com/app --dest mirror.example.com/app:v1 --overwrite --max-concurrent-tags 0`: no worker starts and `wg.Wait()` returns nil | return the error only when `copyRepository` failed | high; not executed | Findings.ExampleSuccessfulSyncReportsError | Findings.IntendedRepositorySyncCompletes |
| imagesync.go:150 | `copyRepository(ctx, c, srcRef, destRef, opts)` fills the parameters `(destRepository, srcRepository)`, so the "source" tags are listed from the destination | the same input as the row above: the plan comes from the tags of `mirror.example.com/app` | `copyRepository(ctx, c, destRef, srcRef, opts)` | high; not executed | Detect.RepositorySyncListsDestinationFirst | Findings.IntendedListsSourceFirst |
