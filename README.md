# Skaffold deployment status checker, modelled in Dafny

After Skaffold applies a run's resources to a cluster, its status checker waits
for every deployment of that run to roll out. It then reports each deployment
as it finishes and returns one verdict. This project models the four sequential
units of that checker whose behaviour the test suite
`pkg/skaffold/deploy/status_check_test.go` pins down:

- `deadlines.dfy` (module `Deadlines`) models `getDeployments`. It keeps the
  deployments of the current run in the target namespace and maps each name to
  its effective progress deadline: the smaller of the declared
  `spec.progressDeadlineSeconds` and the default. A deployment with no declared
  deadline gets the default. A listing error is passed on.
- `deploy_status.dfy` (module `DeployStatus`) models `getSkaffoldDeployStatus`.
  The result store maps each deployment to `Succeeded`, `Running(status)` or
  `Failed(cause)`. The result is no error when nothing failed. Otherwise it is
  one error holding `deployment <name> failed due to <cause>` for every failure,
  one per line (the line-break separator is assumed). The store's iteration order is a parameter, `order`, and every
  property is proved for every order.
- `counter.dfy` (module `Progress`) models the pending counter. This is the
  class `Counter`, with `newCounter` as its constructor and `markProcessed` as
  `MarkProcessed`. `pending` is a Go `int32`, so the decrement wraps around
  explicitly. The module also models `getPendingMessage` and the read-back the
  race test performs with the pattern `.*\[(\d+)/.*` and `strconv.Atoi`.
  `ReportAll` runs that race test sequentially on one counter.
- `summary.dfy` (module `Summary`) models `printStatusCheckSummary` as the line
  it writes: the head (` - deployment/<name> is ready.` or `... failed.`), then
  the pending fragment, then the tail (`\n`, or ` Error: <cause>.\n`).
- `text.dfy` (module `Text`) holds the decimal rendering and parsing of
  integers, `strings.Join`, and substring containment. `wrappers.dfy` holds
  `Option` and `Result`.

Durations are whole seconds. The default deadline in the tests is 200 seconds.

## Model

| member | source | states |
|---|---|---|
| Deadlines.BelongsToRun | pkg/skaffold/deploy/status_check_test.go:121-178 | by definition, a deployment is selected when it is in the target namespace and its run-id label equals the current run's id |
| Deadlines.EffectiveDeadline | pkg/skaffold/deploy/status_check_test.go:76-90 | the effective deadline is never above the default. It is the default when none is declared. Otherwise it is the declared deadline or the default, and no larger than the declared one |
| Deadlines.ResolveDeadlines | pkg/skaffold/deploy/status_check_test.go:121-178 | the keys are exactly the names of the listed deployments that are in the namespace and carry the run's id. Every deadline is at most the default |
| Deadlines.GetDeployments | pkg/skaffold/deploy/status_check_test.go:187-189 | it is an error exactly when listing fails, and the error is the listing's cause. Otherwise the map is the resolved deadlines of the listed deployments |
| Deadlines.EntryComesFromRun | pkg/skaffold/deploy/status_check_test.go:121-178 | every entry of the map is the effective deadline of a deployment of the run with that name |
| Deadlines.LastEntryWins | pkg/skaffold/deploy/status_check_test.go:49-74 | a deployment of the run that no later deployment of the run shares a name with is in the map with exactly its effective deadline |
| Deadlines.ResolvedExactly | pkg/skaffold/deploy/status_check_test.go:49-178 | when no two deployments of the run share a name, every deployment of the run is in the map with exactly its own effective deadline, whatever deployments in other namespaces are called |
| Deadlines.SameNameElsewhere | pkg/skaffold/deploy/status_check_test.go:121-145 | a deployment of the same name in another namespace leaves the run's deployment and its deadline in place |
| Deadlines.DeclaredBelowDefaultKept | pkg/skaffold/deploy/status_check_test.go:49-74 | declared deadlines of 10s and 20s under a 200s default give exactly {dep1: 10, dep2: 20}, with no error |
| Deadlines.DeclaredAboveDefaultCapped | pkg/skaffold/deploy/status_check_test.go:76-90 | a declared deadline of 300s under a 200s default gives exactly {dep1: 200} |
| Deadlines.UnsetDeadlineGetsDefault | pkg/skaffold/deploy/status_check_test.go:92-116 | 100s declared and nothing declared give exactly {dep1: 100, dep2: 200} |
| Deadlines.NoDeploymentsEmptyMap | pkg/skaffold/deploy/status_check_test.go:117-120 | no deployments give the empty map and no error, for any namespace, run id and default |
| Deadlines.ForeignDeploymentsLeftOut | pkg/skaffold/deploy/status_check_test.go:121-178 | another namespace, a missing run-id label and another run's id each leave the deployment out of the map |
| DeployStatus.FailedNames | pkg/skaffold/deploy/status_check_test.go:262-272 | a name is collected if and only if it is visited and its outcome is a failure |
| DeployStatus.FailureMessage | pkg/skaffold/deploy/status_check_test.go:252 | by definition, the line `deployment <name> failed due to <cause>` |
| DeployStatus.ErrorLinesAreFailures | pkg/skaffold/deploy/status_check_test.go:262-272 | an error's text is failure lines joined by line breaks: one `deployment <name> failed due to <cause>` line for each failed deployment exactly once, with that deployment's own cause, and no line for any other deployment |
| DeployStatus.GetDeployStatus | pkg/skaffold/deploy/status_check_test.go:246-282 | there is no error if and only if no outcome in the store is a failure |
| DeployStatus.ReportsEveryFailure | pkg/skaffold/deploy/status_check_test.go:283-285 | for every failed deployment, the error text contains its `deployment <name> failed due to <cause>` line |
| DeployStatus.FailedExactlyOnce | pkg/skaffold/deploy/status_check_test.go:262-272 | each deployment is collected once if it failed and never otherwise |
| DeployStatus.OrderIndependent | pkg/skaffold/deploy/status_check_test.go:277-281 | any two visiting orders of the store collect the same failures |
| DeployStatus.OneFailureReported | pkg/skaffold/deploy/status_check_test.go:247-254 | one failure among successes gives exactly the error `deployment dep2 failed due to <cause>`, in every visiting order |
| DeployStatus.NoFailureNoError | pkg/skaffold/deploy/status_check_test.go:255-261 | a success and a running deployment give no error, in either visiting order |
| DeployStatus.TwoFailuresReported | pkg/skaffold/deploy/status_check_test.go:262-272 | two failures give an error that contains both failure lines, in every visiting order |
| Progress.Int32 | pkg/skaffold/deploy/status_check_test.go:339 | the pending value stays within the int32 range and is congruent to the exact value modulo 2^32 |
| Progress.Int32Decrement | pkg/skaffold/deploy/status_check_test.go:389 | decrementing the wrapped value equals wrapping the decremented value |
| Progress.PendingMessage | pkg/skaffold/deploy/status_check_test.go:390 | the fragment is empty if and only if the pending value is not positive |
| Progress.PendingMessageLayout | pkg/skaffold/deploy/status_check_test.go:390-393 | a positive pending value renders as ` [`, its digits, `/`, with no further `[` |
| Progress.PendingMessageShowsCount | pkg/skaffold/deploy/status_check_test.go:390-393 | for a positive pending value the fragment contains `[<pending>/` |
| Progress.PendingMessageOneLine | pkg/skaffold/deploy/status_check_test.go:359 | the fragment never contains a line break |
| Progress.Counter.constructor | pkg/skaffold/deploy/status_check_test.go:384 | a new counter holds the total, starts `pending` at the total converted to int32, and has handed out nothing |
| Progress.Counter.MarkProcessed | pkg/skaffold/deploy/status_check_test.go:389 | `pending` drops by one with int32 wrap-around. The new value is returned and recorded as handed out |
| Progress.HandedOutDistinct | pkg/skaffold/deploy/status_check_test.go:384-405 | on a counter whose total fits in int32, call i returns total-1-i. The returned values are pairwise distinct, and after `total` calls they are exactly [0, total) |
| Progress.OnlyLastIsSilent | pkg/skaffold/deploy/status_check_test.go:390-395 | of the `total` values handed out, only the last one renders an empty fragment |
| Progress.LastMatch | pkg/skaffold/deploy/status_check_test.go:392-393 | the last index at which `[`, one or more digits and `/` begin, as the greedy leading `.*` picks it: no index when there is no match, otherwise a match with no match after it |
| Progress.ReportedPending | pkg/skaffold/deploy/status_check_test.go:391-400 | text in which the pattern matches nowhere reads back as 0; otherwise the value is the digits after the last match's `[`, parsed |
| Progress.ReportedPendingOfMessage | pkg/skaffold/deploy/status_check_test.go:392-400 | text holding a positive pending value's fragment, with no `[` after it, reads back as that pending value |
| Progress.ReportedPendingNoBracket | pkg/skaffold/deploy/status_check_test.go:394-395 | text without `[` does not match the pattern and reads back as 0 |
| Progress.ReadBack | pkg/skaffold/deploy/status_check_test.go:389-400 | a counter's own fragment reads back as the pending value when it is positive and as 0 otherwise |
| Progress.ReportAll | pkg/skaffold/deploy/status_check_test.go:382-406 | `total` callers on one counter read back `total` values. No value is read twice, and the values are exactly 0 .. total-1 |
| Text.ParseNatToString | pkg/skaffold/deploy/status_check_test.go:398 | parsing the decimal rendering of a natural number gives the number back |
| Text.JoinContains | pkg/skaffold/deploy/status_check_test.go:283-285 | the joined error text contains each of its lines |
| Summary.StatusLine | pkg/skaffold/deploy/status_check_test.go:376-377 | the summary is non-empty and ends with a line break |
| Summary.StatusLineIsOneLine | pkg/skaffold/deploy/status_check_test.go:344-366 | when the name and cause hold no line break, the final character is the only line break |
| Summary.StatusLineReportsPending | pkg/skaffold/deploy/status_check_test.go:357-365 | when the name and cause hold no `[`, the pending count read back from the summary is the pending value when positive and 0 otherwise |
| Summary.StatusLineShowsCause | pkg/skaffold/deploy/status_check_test.go:352-353 | a failure's summary contains ` Error: <cause>.` |
| Summary.ReadyNonePending | pkg/skaffold/deploy/status_check_test.go:344-348 | success with nothing pending is exactly ` - deployment/dep is ready.\n` |
| Summary.FailedNonePending | pkg/skaffold/deploy/status_check_test.go:350-354 | failure with nothing pending is exactly ` - deployment/dep failed. Error: context deadline expired.\n` |
| Summary.ReadySomePending | pkg/skaffold/deploy/status_check_test.go:356-360 | success with 4 of 10 pending is exactly ` - deployment/dep is ready. [4/10 deployment(s) still pending]\n` |
| Summary.FailedSomePending | pkg/skaffold/deploy/status_check_test.go:362-366 | failure with 8 of 10 pending is exactly ` - deployment/dep failed. [8/10 deployment(s) still pending] Error: context deadline expired.\n` |
| Summary.FourOfTenFragment | pkg/skaffold/deploy/status_check_test.go:359 | the fragment for 4 of 10 is exactly ` [4/10 deployment(s) still pending]` |
| Summary.EightOfTenFragment | pkg/skaffold/deploy/status_check_test.go:365 | the fragment for 8 of 10 is exactly ` [8/10 deployment(s) still pending]` |

## Left out

- Rollout polling (`pollDeploymentRolloutStatus`) and `getRollOutStatus` are not modelled. They run `kubectl rollout status` as a process, sleep between polls and time out on the wall clock.
- The checker runs one goroutine per deployment, and the result store is a `sync.Map`. Neither is modelled. The model runs the checkers one after another, so the atomicity of the decrement under real threads is not captured. `ReportAll` is the race test's sequential form.
- The Kubernetes client, the label selector and the labeller are not modelled. A listing is either the list of deployments or a failure. The run id is a parameter.
- The run-id label key is Go's constant `RunIDLabel`, written `RUN_ID_LABEL` here. Its value `"skaffold.dev/run-id"` is assumed: the file that defines it is not part of this model, and no property depends on the value.
- The tests only check that the aggregated error contains each failure line. The line-break separator between the lines is an assumption of this model, and `DeployStatus.ErrorLinesAreFailures` is stated for it. Any header the composite error adds is not modelled.
- Deadlines.GetDeployments: the listing error is passed on as its cause text. Any wrapping text the Go error adds is not modelled.
- Durations are whole seconds. Go's `time.Duration` arithmetic is not modelled.
- Progress.ReportedPending: the model takes the last match in the whole text. Go's `.` does not match a line break, so Go takes the last match on the first line that has one: on `"[3/\n[5/"` Go reads 3 and the model reads 5. The two agree whenever every `[` of the text lies on one line. That holds for every pending fragment, and for every summary whose name and cause hold no `[`, as `Summary.StatusLineReportsPending` requires.
- Progress.ReportedPending: `strconv.Atoi` fails on a value beyond the int64 range; that failure is not modelled. A pending value rendered by the counter fits in int32.
- Progress.ReportAll requires the total to fit in int32. `newCounter` converts the total to int32, so a larger total wraps. `Counter` models that wrap; the read-back property is stated only for totals that fit.
- Progress.Counter.MarkProcessed: no floor at 0 is applied. Nothing in the tests shows one, so the model decrements with int32 wrap-around, as `atomic.AddInt32` would. Within the `total` calls the tests make, the count never goes below 0.
- Summary.StatusLine: the write to the output buffer is not modelled. The function returns the line that would be written.
