/** downloadVideos and its addTask (App.js lines 8-65) as a class whose
    fields are the shared locals, updated in place by each step of the run. */
module Scheduler {
  import opened Candidates
  import opened Outcomes
  import opened RunStates

  /** Number of tasks started at once, and the cap on tasks in flight. */
  const MAX_CONCURRENT_DOWNLOADS: nat := 5

  /** No new id is admitted while this many failures have happened in a row. */
  const FAILURE_THRESHOLD: nat := 80

  class Run {
    const startId: int
    const urlTemplate: string
    const poolSize: nat
    const threshold: nat

    var consecutiveFailures: nat
    var lastSuccessfulUrl: Option<string>
    var activeTasks: int
    var currentId: int

    /** The suspended addTask invocations, in admission order. */
    var inFlight: seq<Task>

    /** The tasks finished so far, in the order they finished. */
    ghost var history: seq<Record>

    function Cfg(): Config {
      Config(startId, urlTemplate, poolSize, threshold)
    }

    ghost function Snapshot(): RunState
      reads this
    {
      RunState(consecutiveFailures, lastSuccessfulUrl, activeTasks, currentId, inFlight, history)
    }

    ghost predicate Valid()
      reads this
    {
      Inv(Cfg(), Snapshot()) && Live(Cfg(), Snapshot())
    }

    /** Sets up the shared locals (App.js lines 9-12) and runs the start-up
        loop (lines 53-55). */
    constructor (startId: int, urlTemplate: string, poolSize: nat, threshold: nat)
      requires 1 <= poolSize
      ensures Valid()
      ensures Cfg() == Config(startId, urlTemplate, poolSize, threshold)
      ensures Snapshot() == Started(Cfg(), poolSize)
      ensures consecutiveFailures == 0 && lastSuccessfulUrl == None && history == []
      ensures var started := if threshold > 0 then poolSize else 0;
              && currentId == startId + started
              && activeTasks == started
              && inFlight == seq(started, k => Task(startId + k, Probing))
    {
      this.startId := startId;
      this.urlTemplate := urlTemplate;
      this.poolSize := poolSize;
      this.threshold := threshold;
      consecutiveFailures := 0;
      lastSuccessfulUrl := None;
      activeTasks := 0;
      currentId := startId;
      inFlight := [];
      history := [];
      new;
      for i := 0 to poolSize
        invariant Snapshot() == Started(Cfg(), i)
      {
        StartedInv(Cfg(), i);
        StartedShape(Cfg(), i);
        var _ := AddTask();
      }
      StartedLive(Cfg());
      StartedShape(Cfg(), poolSize);
    }

    /** addTask (App.js lines 20-28). */
    method AddTask() returns (admitted: bool)
      requires Inv(Cfg(), Snapshot()) && activeTasks < poolSize
      modifies this
      ensures Valid()
      ensures Snapshot() == RunStates.AddTask(Cfg(), old(Snapshot()))
      ensures admitted == (old(consecutiveFailures) < threshold)
    {
      AddTaskInv(Cfg(), Snapshot());
      if consecutiveFailures >= threshold {
        return false;
      }
      var id := currentId;
      currentId := currentId + 1;
      activeTasks := activeTasks + 1;
      inFlight := inFlight + [Task(id, Probing)];
      admitted := true;
    }

    /** The end of a task (App.js lines 39-40 or 44, then the `finally` block
        of lines 45-49): fold in its fate, release the slot, refill. */
    method Finish(slot: nat, fate: Fate)
      requires Valid() && slot < activeTasks
      modifies this
      ensures Valid()
      ensures Snapshot() == RunStates.Finish(Cfg(), old(Snapshot()), slot, fate)
    {
      ghost var before := Snapshot();
      var id := inFlight[slot].id;
      history := history + [Record(id, fate)];
      match fate {
        case Completed =>
          lastSuccessfulUrl := Some(CandidateUrl(urlTemplate, id));
          consecutiveFailures := 0;
        case Failed =>
          consecutiveFailures := consecutiveFailures + 1;
        case Skipped =>
      }
      activeTasks := activeTasks - 1;
      inFlight := Remove(inFlight, slot);
      assert Snapshot() == Release(Cfg(), before, slot, fate);
      ReleaseInv(Cfg(), before, slot, fate);
      var _ := AddTask();
    }

    /** The size probe of the task in `slot` answered (App.js lines 31-35):
        a failure or an oversized file ends the task, otherwise its download
        starts. */
    method OnProbe(slot: nat, probe: ProbeResult)
      requires Valid() && slot < activeTasks && inFlight[slot].phase == Probing
      modifies this
      ensures Valid()
      ensures Snapshot() == if Downloads(probe) then StartDownload(old(Snapshot()), slot)
                            else RunStates.Finish(Cfg(), old(Snapshot()), slot, TaskFate(probe, false))
    {
      match probe {
        case ProbeFailed =>
          Finish(slot, Failed);
        case Sized(bytes) =>
          if Oversized(bytes) {
            Finish(slot, Skipped);
          } else {
            StartDownloadInv(Cfg(), Snapshot(), slot);
            inFlight := inFlight[slot := Task(inFlight[slot].id, Downloading)];
          }
      }
    }

    /** The download of the task in `slot` answered (App.js lines 37-44). */
    method OnDownload(slot: nat, ok: bool)
      requires Valid() && slot < activeTasks && inFlight[slot].phase == Downloading
      modifies this
      ensures Valid()
      ensures Snapshot() == RunStates.Finish(Cfg(), old(Snapshot()), slot, if ok then Completed else Failed)
    {
      if ok {
        Finish(slot, Completed);
      } else {
        Finish(slot, Failed);
      }
    }
  }

  /** Resumes the suspended tasks of `run` one answer at a time (the awaits
      of App.js lines 31 and 37), in the order `schedule` picks them, until
      no task is active (lines 58-60) or the schedule is used up. */
  method Drive(run: Run, probeOf: int -> ProbeResult, fetchOf: int -> bool, schedule: seq<nat>)
    requires run.Valid()
    modifies run
    ensures run.Valid()
    ensures run.Snapshot() == Steps(run.Cfg(), old(run.Snapshot()), schedule, probeOf, fetchOf)
  {
    var i := 0;
    assert schedule[i..] == schedule;
    while run.activeTasks > 0 && i < |schedule|
      invariant run.Valid() && i <= |schedule|
      invariant Steps(run.Cfg(), run.Snapshot(), schedule[i..], probeOf, fetchOf)
                == Steps(run.Cfg(), old(run.Snapshot()), schedule, probeOf, fetchOf)
      decreases |schedule| - i
    {
      var slot := schedule[i] % run.activeTasks;
      var task := run.inFlight[slot];
      ghost var before := run.Snapshot();
      StepsUnfold(run.Cfg(), before, schedule, i, probeOf, fetchOf);
      if task.phase == Probing {
        run.OnProbe(slot, probeOf(task.id));
      } else {
        run.OnDownload(slot, fetchOf(task.id));
      }
      assert run.Snapshot() == Answer(run.Cfg(), before, slot, probeOf, fetchOf);
      i := i + 1;
    }
  }

  /** One whole run. The network is `probeOf` and `fetchOf`, the answers for
      each id; `schedule` says, at each step, which pending request is
      answered next (an index among the tasks in flight). The run ends when
      no task is in flight (App.js lines 58-60), or when the schedule runs
      out. Its outputs are those of `RunStates.Execute` for the same inputs. */
  method RunPool(startId: int, urlTemplate: string, poolSize: nat, threshold: nat,
                 probeOf: int -> ProbeResult, fetchOf: int -> bool, schedule: seq<nat>)
    returns (lastUrl: Option<string>, failures: nat, stopped: bool, nextId: int, ghost finished: seq<Record>)
    requires 1 <= poolSize
    ensures var r := Execute(Config(startId, urlTemplate, poolSize, threshold), schedule, probeOf, fetchOf);
            && lastUrl == r.lastUrl && failures == r.failures && nextId == r.nextId
            && finished == r.history && stopped == (r.active == 0)
    ensures failures == Streak(finished) && lastUrl == LastSuccess(urlTemplate, finished)
    ensures forall j :: 0 <= j < |finished| ==>
              finished[j].fate == TaskFate(probeOf(finished[j].id), fetchOf(finished[j].id))
    ensures stopped ==> threshold <= failures < threshold + poolSize
    ensures stopped ==> nextId == startId + |finished|
    ensures stopped ==> forall x :: multiset(RecordIds(finished))[x] == if startId <= x < nextId then 1 else 0
    ensures stopped && poolSize == 1 ==>
              && failures == threshold
              && forall j :: 0 <= j < |finished| ==>
                   finished[j].id == startId + j && Streak(finished[..j]) < threshold
  {
    ExecuteOutcome(Config(startId, urlTemplate, poolSize, threshold), schedule, probeOf, fetchOf);
    var run := new Run(startId, urlTemplate, poolSize, threshold);
    Drive(run, probeOf, fetchOf, schedule);
    lastUrl, failures, stopped, nextId := run.lastSuccessfulUrl, run.consecutiveFailures, run.activeTasks == 0, run.currentId;
    finished := run.history;
  }

  /** downloadVideos with its pool of 5 and its threshold of 80: it returns
      the last successful URL; when it stops, the final streak is between 80
      and 84 and every claimed id has finished exactly once. */
  method DownloadVideos(startId: int, urlTemplate: string,
                        probeOf: int -> ProbeResult, fetchOf: int -> bool, schedule: seq<nat>)
    returns (lastUrl: Option<string>, failures: nat, stopped: bool, ghost finished: seq<Record>)
    ensures var r := Execute(Config(startId, urlTemplate, MAX_CONCURRENT_DOWNLOADS, FAILURE_THRESHOLD),
                             schedule, probeOf, fetchOf);
            && lastUrl == r.lastUrl && failures == r.failures
            && finished == r.history && stopped == (r.active == 0)
    ensures failures == Streak(finished) && lastUrl == LastSuccess(urlTemplate, finished)
    ensures forall j :: 0 <= j < |finished| ==>
              finished[j].fate == TaskFate(probeOf(finished[j].id), fetchOf(finished[j].id))
    ensures stopped ==> FAILURE_THRESHOLD <= failures < FAILURE_THRESHOLD + MAX_CONCURRENT_DOWNLOADS
    ensures stopped ==> forall x :: multiset(RecordIds(finished))[x] ==
                          if startId <= x < startId + |finished| then 1 else 0
  {
    var nextId;
    lastUrl, failures, stopped, nextId, finished :=
      RunPool(startId, urlTemplate, MAX_CONCURRENT_DOWNLOADS, FAILURE_THRESHOLD, probeOf, fetchOf, schedule);
  }
}
