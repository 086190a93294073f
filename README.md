# Bulk video download: the run-state machine, modelled in Dafny

`downloadVideos` in `App.js` probes and downloads the videos whose ids follow
one another from a starting id. A pool of five tasks runs at once. Every task
claims the next id, builds the URL from a template and the file name from the
id, asks the server for the size (a HEAD request), skips files over 100 MB,
and otherwise downloads the file. A shared counter of consecutive failures is
reset by every completed download, raised by one by every thrown failure, and
left alone by a skip. When a task ends, its `finally` block frees its slot and
calls `addTask` again. `addTask` admits nothing once the counter has reached
80. The run waits until no task is active and returns the URL of the last
completed download, or `null`.

The model has four modules:

- `Candidates` (`candidate.dfy`) derives the candidate. The URL is the
  template with its first `{id}` replaced by the decimal id. This is what
  JavaScript's `String.replace` does with a string pattern; the replacement,
  a decimal number, holds no `$` pattern. The file name is the decimal id
  followed by `.mp4`. The file name is injective in the id, and so is the
  URL when the template contains `{id}`.
- `Outcomes` (`outcome.dfy`) holds the probe result, the strict size test,
  and the fate of one task. It also defines the two specification functions
  `Streak` and `LastSuccess`. They give the counter and the last successful
  URL after any sequence of finished tasks.
- `RunStates` (`runstate.dfy`) holds the run state as a value, the steps of
  the run as functions, and the invariant of a run. Lemmas prove that every
  step keeps it: each claimed id is in flight or finished exactly once, the
  counter equals `Streak` of the finished tasks, the last URL equals
  `LastSuccess` of them, at most the pool size is active, and the pool runs
  dry only once the counter has reached the threshold.
- `Scheduler` (`scheduler.dfy`) holds the class `Run`. Its fields are the
  shared locals of `downloadVideos` (`consecutiveFailures`,
  `lastSuccessfulUrl`, `activeTasks`, `currentId`) and the suspended tasks.
  Its methods update those fields in place, and each method's `ensures` ties
  the new state to the corresponding step function. `Drive` resumes the
  tasks until the pool is dry, `RunPool` performs one whole run and returns
  exactly what `RunStates.Execute` (start-up, then the scheduled answers)
  computes, and `DownloadVideos` instantiates it with the source's pool of 5
  and threshold of 80.

The asynchronous code is modelled as a sequence of answers. JavaScript runs
each continuation up to its next `await` without interruption. So a run is a
sequence of steps, each of which answers one pending request (a probe or a
download) of one task in flight. Which request is answered next comes from
the `schedule` argument. The answers come from the functions `probeOf` and
`fetchOf` of the id. Each id is claimed once, so answers given per id cover
every behaviour of the network.

Two consequences of following the code rather than an idealised drain:

- The threshold is only checked when a task is admitted. So a late success
  from a task still in flight resets the counter, and that task's `finally`
  admits new work again (`RunStates.FinishRefill`).
- Failures of tasks already in flight keep counting after the threshold is
  reached. The final count therefore lies between the threshold and the
  threshold plus the pool size minus one: 80 to 84 in the source
  (`RunStates.StoppedRun`). With a single worker it is exactly the threshold
  (`RunStates.SoloStopsAtFirstCrossing`).

## Model

| member | source | states |
|---|---|---|
| `Candidates.Digits` | App.js:25 | the decimal rendering of a natural number is a non-empty string of digits with no leading zero |
| `Candidates.ValueOfDigits` | App.js:25 | reading the decimal digits back gives the number |
| `Candidates.Decimal` | App.js:24-25 | an id prints as a non-empty string that starts with `-` exactly when the id is negative |
| `Candidates.DecimalInjective` | App.js:24-25 | two different ids never print the same |
| `Candidates.IndexOf` | App.js:24 | the result is the first position where the pattern occurs, or none when it occurs nowhere |
| `Candidates.ReplaceFirst` | App.js:24 | the result is the input with only its first occurrence of the pattern replaced, or the input unchanged when there is none |
| `Candidates.CandidateUrl` | App.js:24 | the URL is the template up to its first `{id}`, then the decimal id, then the rest of the template after that `{id}`; with no `{id}` it is the template unchanged |
| `Candidates.CandidateUrlInjective` | App.js:24 | with a `{id}` in the template, distinct ids give distinct URLs |
| `Candidates.CandidateUrlWithoutPlaceholder` | App.js:24 | with no `{id}` in the template, every id gets the template itself as its URL |
| `Candidates.FileName` | App.js:25 | the file name is the decimal id followed by `.mp4` |
| `Candidates.FileNameInjective` | App.js:25-26 | distinct ids are saved under distinct file names |
| `Outcomes.Oversized` | App.js:33 | a size counts as oversized exactly when it is more than 104857600 bytes (100 MB) |
| `Outcomes.Downloads` | App.js:33-37 | the download is called exactly when the probe gave a size that is not over 104857600 bytes |
| `Outcomes.TaskFate` | App.js:29-44 | a task is skipped exactly when its probed size is over the limit; it completes exactly when the probe allowed the download and the download succeeded; it fails exactly when the probe or the download threw |
| `Outcomes.SizeLimitBoundary` | App.js:6 | the limit is 104857600 bytes; a file of exactly that size is downloaded and one byte more is skipped |
| `Outcomes.NoDownloadNoDependence` | App.js:31-37 | when the probe failed or the file is oversized, the task ends the same whatever the download would have answered, and never completes |
| `Outcomes.Streak` | App.js:40-44 | the failure streak never exceeds the number of finished tasks |
| `Outcomes.LastSuccess` | App.js:39 | the last successful URL is absent only when no finished task completed |
| `Outcomes.StreakCountsFailuresSinceCompletion` | App.js:40-44 | the streak equals the number of failures since the last completed download; skips count for nothing |
| `Outcomes.StreakAfterFailures` | App.js:44 | N failures in a row add exactly N to the streak |
| `Outcomes.LastSuccessIsLastCompletion` | App.js:39 | the last successful URL is the URL of the last completed task |
| `Outcomes.NoCompletionNoUrl` | App.js:10 | with no completed task the last successful URL stays null |
| `Outcomes.LastSuccessKeptWithoutCompletion` | App.js:33-44 | failures and skips leave the last successful URL as it was |
| `RunStates.IdRangeExact` | App.js:12-23 | the range from the start id to the next id holds every id in between exactly once and nothing else |
| `RunStates.AddTask` | App.js:20-28 | once the counter has reached the threshold nothing changes; otherwise the task claims `currentId`, which rises by one, one more task is active, and the counter, the last URL and the finished tasks are untouched |
| `RunStates.Release` | App.js:37-46 | the finished task is appended to the finished tasks with its fate, one task fewer is in flight and active, and no id is claimed |
| `RunStates.StartDownload` | App.js:33-37 | the task in the slot keeps its id and is now downloading; every other task in flight, the counter, the last URL, the finished tasks, the next id and the active count are unchanged |
| `RunStates.Initial` | App.js:9-12 | the locals start at 0 failures, a null URL, 0 active tasks and the start id, with nothing in flight or finished; this state meets the run invariant exactly when the pool has at least one slot |
| `RunStates.Started` | App.js:53-55 | after the start-up loop the counter is 0, the URL null and nothing has finished; the active tasks are exactly those in flight, they number at most the calls made, and they account for every id claimed |
| `RunStates.Finish` | App.js:37-49 | the ended task is appended to the finished tasks with its fate; the other tasks in flight keep their order, and the refill adds at most one task, a fresh one with the next id awaiting its probe |
| `RunStates.Answer` | App.js:29-49 | a probe that allows the download moves the task to its download and finishes nothing; otherwise the task finishes with the fate its probe and download dictate (for a failed or oversized probe whatever the download would have said); a download's answer finishes it as completed or failed |
| `RunStates.Steps` | App.js:29-60 | answering pending requests as the schedule picks them only appends to the finished tasks, at most one per answer, and keeps the active tasks equal to those in flight |
| `RunStates.StepsUnfold` | App.js:29-60 | while a task is active and the schedule lasts, the run continues from the state after the answer the schedule picks |
| `RunStates.StepsInv` | App.js:29-60 | any number of answers keeps the invariant, the liveness of the pool and the faithfulness of the outcomes |
| `RunStates.Execute` | App.js:8-60 | a whole run is the start-up loop followed by `Steps` over the schedule; its active tasks are those in flight and it finishes at most one task per answer; `ExecuteInv` and `ExecuteOutcome` state what it guarantees |
| `RunStates.ExecuteInv` | App.js:8-60 | every whole run, whatever the network answers and in whatever order, keeps the invariant, the liveness of the pool and the faithfulness of the outcomes |
| `RunStates.ExecuteOutcome` | App.js:8-64 | after every whole run the counter and URL are `Streak` and `LastSuccess` of the finished tasks, each of which ended as the network dictated; once the pool is dry the count lies between the threshold and the threshold plus the pool size and every claimed id finished exactly once; with one worker the count equals the threshold and ids finished in order |
| `RunStates.StartedShape` | App.js:9-55 | the start-up loop leaves the counter at 0 and the URL null, and admits the pool's worth of tasks with ids from the start id upwards, or none when the threshold is 0 |
| `RunStates.StartedInv` | App.js:53-55 | the start-up loop establishes the run invariant |
| `RunStates.StartedLive` | App.js:53-55 | after the start-up loop the pool is dry only if the counter has reached the threshold |
| `RunStates.AddTaskInv` | App.js:21-28 | an admission with a free slot keeps the invariant, and afterwards the pool is dry only if the counter has reached the threshold |
| `RunStates.ReleaseIds` | App.js:23-46 | releasing a slot moves its id from in flight to finished: each claimed id is still in exactly one place |
| `RunStates.ReleaseSequential` | App.js:21-48 | with one worker, tasks finish in id order and each was admitted while the counter was below the threshold |
| `RunStates.ReleaseInv` | App.js:37-46 | folding in an outcome and freeing the slot keeps the invariant and leaves a slot free |
| `RunStates.FinishInv` | App.js:37-49 | a completion followed by its refill keeps the invariant, and afterwards the pool is dry only if the counter has reached the threshold |
| `RunStates.StartDownloadInv` | App.js:33-37 | starting a download keeps the invariant |
| `RunStates.StartDownloadFaithful` | App.js:31-37 | a task is only ever downloading when its probe allowed the download |
| `RunStates.FinishFaithful` | App.js:29-48 | a task ending with the fate its probe and download dictate keeps every finished task's fate faithful to the network |
| `RunStates.AnswerInv` | App.js:29-49 | every answer from the network keeps the invariant, the liveness of the pool and the faithfulness of the outcomes |
| `RunStates.FinishRefill` | App.js:21-48 | a completion admits at most one task, and exactly one when the counter it leaves is below the threshold; a completed download re-admits work even after the threshold was reached |
| `RunStates.FinishOutcome` | App.js:37-44 | a completed download sets the counter to 0 and the last URL to the task's URL; a failure adds exactly 1 and keeps the URL; a skip changes neither |
| `RunStates.StoppedRun` | App.js:58-64 | once no task is active, the counter is at least the threshold and below the threshold plus the pool size, and every id from the start id to the last claimed one has finished exactly once |
| `RunStates.SoloStopsAtFirstCrossing` | App.js:21-64 | with one worker, the run stops right when the counter first reaches the threshold: ids finished in order, every earlier streak was below the threshold, and the final count equals it |
| `Scheduler.Run.constructor` | App.js:9-55 | the shared locals start at 0, null and the start id, the start-up loop runs, and the run invariant holds |
| `Scheduler.Run.AddTask` | App.js:20-28 | updates the fields in place exactly as the step `RunStates.AddTask`, and reports whether it admitted, which happens exactly when the counter was below the threshold |
| `Scheduler.Run.Finish` | App.js:37-49 | updates the fields in place exactly as a completion followed by its refill, keeping the invariant |
| `Scheduler.Run.OnProbe` | App.js:31-35 | a probe that allows the download moves the task to its download; a failed probe or an oversized file ends the task as failed or skipped |
| `Scheduler.Run.OnDownload` | App.js:37-44 | a download's answer ends the task as completed or failed |
| `Scheduler.Drive` | App.js:29-60 | resumes the suspended tasks in place, one answer at a time as the schedule picks them, until no task is active or the schedule is used up; the new state is `RunStates.Steps` of the old one and the invariant holds |
| `Scheduler.RunPool` | App.js:8-64 | the returned URL, count, next id, finished tasks and stop flag are exactly those of `RunStates.Execute` for the same inputs; the returned URL and count are `LastSuccess` and `Streak` of the finished tasks, and each task's fate is what the network said for its id; when the run stops, the count lies between the threshold and the threshold plus the pool size, every claimed id finished exactly once, and with one worker the count equals the threshold and ids finished in order |
| `Scheduler.DownloadVideos` | App.js:5-64 | with a pool of 5 and a threshold of 80, the outputs are exactly those of `RunStates.Execute`; when the run stops the count is between 80 and 84 and each id from the start id on finished exactly once; the returned URL is that of the last completed download |

## Left out

- The HTTP transport inside `getFileSize` and `downloadFile` (App.js:67-98) is
  not modelled. Its answers are the inputs `probeOf` and `fetchOf`.
- A response without a parseable `content-length` makes `parseInt` return
  `NaN` (App.js:71). `NaN > MAX_FILE_SIZE` is false, so the code goes on to
  download such a file rather than treating the probe as failed. The model's
  probe answer is a natural number or a failure, so it does not cover this
  path, nor a negative length.
- A response stream that errors during `response.pipe` is not handled by
  `downloadFile`, so its promise never settles. In the model this is a
  request the schedule never answers: the run then never stops.
- Filesystem work is not modelled: creating the output directory, the write
  stream, `path.join`, and deleting the file after a transport error
  (App.js:15-17, 26, 82, 95). Only the file name is modelled. On a non-200
  download status the code leaves the empty file it created; that is outside
  the model too.
- The size in megabytes printed with `toFixed(2)` and all `console.log`
  narration (App.js:30-43, 62-63) are output only.
- The `setTimeout` polling loop (App.js:58-60) is modelled as "the run ends
  when no task is active". Its 100 ms delay is not modelled. When the
  schedule runs out first, `RunPool` returns with `stopped` false.
- Pool size and threshold are parameters of `Run` and `RunPool`, so that the
  one-worker property can be stated. `DownloadVideos` fixes them to the
  source's 5 and 80.
- Ids are unbounded integers. JavaScript numbers lose precision above 2^53,
  and from 10^21 on they print in exponent notation. Neither is modelled.
- The hard-coded usage block (App.js:100-107) is not modelled.
