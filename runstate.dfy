/** The run state of downloadVideos as a value, its transitions, and the
    invariant every transition keeps (App.js lines 8-65). The class in
    module Scheduler performs these transitions in place. */
module RunStates {
  import opened Candidates
  import opened Outcomes

  /** Where a task in flight is suspended: awaiting the size probe or the
      download. */
  datatype Phase = Probing | Downloading

  datatype Task = Task(id: int, phase: Phase)

  /** The parameters of one run: the first id, the URL template, the number
      of tasks started at once and the failure threshold. */
  datatype Config = Config(startId: int, urlTemplate: string, poolSize: nat, threshold: nat)

  /** The shared locals of downloadVideos (`consecutiveFailures`,
      `lastSuccessfulUrl`, `activeTasks`, `currentId`), the tasks in flight
      in admission order, and the tasks finished so far in the order they
      finished. */
  datatype RunState = RunState(
    failures: nat,
    lastUrl: Option<string>,
    active: int,
    nextId: int,
    inFlight: seq<Task>,
    history: seq<Record>)

  /** The ids lo, lo + 1, ..., hi - 1. */
  function IdRange(lo: int, hi: int): seq<int>
    requires lo <= hi
    decreases hi - lo
  {
    if lo == hi then [] else IdRange(lo, hi - 1) + [hi - 1]
  }

  /** Each of lo .. hi - 1 occurs in IdRange(lo, hi) exactly once, and
      nothing else occurs in it. */
  lemma {:induction false} IdRangeExact(lo: int, hi: int)
    requires lo <= hi
    ensures |IdRange(lo, hi)| == hi - lo
    ensures forall x :: multiset(IdRange(lo, hi))[x] == if lo <= x < hi then 1 else 0
    decreases hi - lo
  {
    if lo < hi {
      IdRangeExact(lo, hi - 1);
    }
  }

  function TaskIds(ts: seq<Task>): seq<int> {
    seq(|ts|, i requires 0 <= i < |ts| => ts[i].id)
  }

  function RecordIds(h: seq<Record>): seq<int> {
    seq(|h|, i requires 0 <= i < |h| => h[i].id)
  }

  /** `s` without its element at position k, the others in order. */
  function Remove<T>(s: seq<T>, k: nat): (r: seq<T>)
    requires k < |s|
    ensures |r| == |s| - 1
    ensures multiset(r) + multiset{s[k]} == multiset(s)
    ensures forall x :: x in r ==> x in s
  {
    assert s == s[..k] + [s[k]] + s[k + 1..];
    s[..k] + s[k + 1..]
  }

  lemma TaskIdsRemove(ts: seq<Task>, k: nat)
    requires k < |ts|
    ensures multiset(TaskIds(Remove(ts, k))) + multiset{ts[k].id} == multiset(TaskIds(ts))
  {
    var ids := TaskIds(ts);
    assert TaskIds(Remove(ts, k)) == ids[..k] + ids[k + 1..];
    assert ids == ids[..k] + [ids[k]] + ids[k + 1..];
  }

  /** The state before the first task is started (App.js lines 9-12). */
  function Initial(c: Config): (r: RunState)
    ensures r.failures == 0 && r.lastUrl == None && r.active == 0 && r.nextId == c.startId
    ensures r.inFlight == [] && r.history == []
    ensures Inv(c, r) <==> 1 <= c.poolSize
  {
    RunState(0, None, 0, c.startId, [], [])
  }

  /** addTask (App.js lines 20-28): nothing happens once the streak has
      reached the threshold; otherwise the task claims the next id, bumps
      it, and becomes active awaiting its probe. */
  function AddTask(c: Config, s: RunState): (r: RunState)
    ensures r.failures == s.failures && r.lastUrl == s.lastUrl && r.history == s.history
    ensures r == s <==> s.failures >= c.threshold
    ensures r != s ==> && r.nextId == s.nextId + 1 && r.active == s.active + 1
                       && r.inFlight == s.inFlight + [Task(s.nextId, Probing)]
  {
    if s.failures >= c.threshold then s
    else s.(active := s.active + 1,
            nextId := s.nextId + 1,
            inFlight := s.inFlight + [Task(s.nextId, Probing)])
  }

  /** The start-up loop (App.js lines 53-55): `n` calls of addTask. */
  function Started(c: Config, n: nat): (r: RunState)
    ensures r.failures == 0 && r.lastUrl == None && r.history == []
    ensures r.active == |r.inFlight| == r.nextId - c.startId <= n
  {
    if n == 0 then Initial(c) else AddTask(c, Started(c, n - 1))
  }

  /** Folding the fate of the task in `slot` into the shared state and
      releasing its slot (App.js lines 39-40, 44 and 46). */
  function Release(c: Config, s: RunState, slot: nat, fate: Fate): (r: RunState)
    requires slot < |s.inFlight|
    ensures r.history == s.history + [Record(s.inFlight[slot].id, fate)]
    ensures |r.inFlight| == |s.inFlight| - 1 && r.active == s.active - 1 && r.nextId == s.nextId
  {
    var id := s.inFlight[slot].id;
    s.(failures := match fate
                   case Completed => 0
                   case Failed => s.failures + 1
                   case Skipped => s.failures,
       lastUrl := if fate == Completed then Some(CandidateUrl(c.urlTemplate, id)) else s.lastUrl,
       active := s.active - 1,
       inFlight := Remove(s.inFlight, slot),
       history := s.history + [Record(id, fate)])
  }

  /** A task ends: its fate is folded in, its slot released, and the
      `finally` block attempts one admission (App.js lines 37-48). */
  function Finish(c: Config, s: RunState, slot: nat, fate: Fate): (r: RunState)
    requires slot < |s.inFlight|
    ensures r.history == s.history + [Record(s.inFlight[slot].id, fate)]
    ensures |s.inFlight| - 1 <= |r.inFlight| <= |s.inFlight|
    ensures r.inFlight[..|s.inFlight| - 1] == Remove(s.inFlight, slot)
    ensures |r.inFlight| == |s.inFlight| ==> r.inFlight[|s.inFlight| - 1] == Task(s.nextId, Probing)
  {
    AddTask(c, Release(c, s, slot, fate))
  }

  /** The probe of the task in `slot` allowed the download to start. */
  function StartDownload(s: RunState, slot: nat): (r: RunState)
    requires slot < |s.inFlight|
    ensures r.(inFlight := s.inFlight) == s
    ensures |r.inFlight| == |s.inFlight| && r.inFlight[slot] == Task(s.inFlight[slot].id, Downloading)
    ensures forall j :: 0 <= j < |s.inFlight| && j != slot ==> r.inFlight[j] == s.inFlight[j]
  {
    s.(inFlight := s.inFlight[slot := Task(s.inFlight[slot].id, Downloading)])
  }

  /** With one worker the tasks run one after the other, in id order, and
      each was admitted while the streak was below the threshold. */
  ghost predicate Sequential(c: Config, s: RunState) {
    && (forall j :: 0 <= j < |s.history| ==>
          s.history[j].id == c.startId + j && Streak(s.history[..j]) < c.threshold)
    && (|s.inFlight| == 1 ==> s.inFlight[0].id == s.nextId - 1)
  }

  /** The invariant of a run, kept by every step, also in the middle of a
      completion before its refill. */
  ghost predicate Inv(c: Config, s: RunState) {
    && 1 <= c.poolSize
    && s.active == |s.inFlight| <= c.poolSize
    && c.startId <= s.nextId
    && s.nextId - c.startId == |s.history| + s.active
    // every claimed id is in flight or finished, exactly once
    && multiset(TaskIds(s.inFlight)) + multiset(RecordIds(s.history)) == multiset(IdRange(c.startId, s.nextId))
    && s.failures == Streak(s.history)
    && s.lastUrl == LastSuccess(c.urlTemplate, s.history)
    // past the threshold, each further failure used up one task in flight
    && (s.failures >= c.threshold ==> s.failures - c.threshold + s.active < c.poolSize)
    && (c.poolSize == 1 ==> Sequential(c, s))
  }

  /** The pool runs dry only once the streak has reached the threshold. */
  ghost predicate Live(c: Config, s: RunState) {
    s.active == 0 ==> s.failures >= c.threshold
  }

  /** The start-up loop admits tasks with ids startId, startId + 1, ...
      awaiting their probes (none when the threshold is 0). */
  lemma {:induction false} StartedShape(c: Config, n: nat)
    ensures var k := if c.threshold > 0 then n else 0;
            Started(c, n) == RunState(0, None, k, c.startId + k, seq(k, i => Task(c.startId + i, Probing)), [])
    decreases n
  {
    if n > 0 {
      StartedShape(c, n - 1);
      var k := if c.threshold > 0 then n else 0;
      assert Started(c, n).inFlight == seq(k, i => Task(c.startId + i, Probing));
    }
  }

  /** The start-up loop establishes the invariant. */
  lemma {:induction false} StartedInv(c: Config, n: nat)
    requires 1 <= c.poolSize && n <= c.poolSize
    ensures Inv(c, Started(c, n))
    decreases n
  {
    if n > 0 {
      StartedInv(c, n - 1);
      StartedShape(c, n - 1);
      AddTaskInv(c, Started(c, n - 1));
    }
  }

  /** After the start-up loop the pool is full unless the threshold is 0,
      so it is not dry while the streak is below the threshold. */
  lemma StartedLive(c: Config)
    requires 1 <= c.poolSize
    ensures Inv(c, Started(c, c.poolSize)) && Live(c, Started(c, c.poolSize))
  {
    StartedInv(c, c.poolSize);
    StartedShape(c, c.poolSize);
  }

  /** addTask keeps the invariant whenever a slot is free, and afterwards the
      pool is not dry unless the streak has reached the threshold. */
  lemma AddTaskInv(c: Config, s: RunState)
    requires Inv(c, s) && s.active < c.poolSize
    ensures Inv(c, AddTask(c, s)) && Live(c, AddTask(c, s))
  {
    if s.failures < c.threshold {
      var r := AddTask(c, s);
      assert TaskIds(r.inFlight) == TaskIds(s.inFlight) + [s.nextId];
      assert IdRange(c.startId, r.nextId) == IdRange(c.startId, s.nextId) + [s.nextId];
    }
  }

  /** Releasing a slot moves its id from the tasks in flight to the
      finished ones: still every claimed id is in exactly one place. */
  lemma ReleaseIds(c: Config, s: RunState, slot: nat, fate: Fate)
    requires Inv(c, s) && slot < s.active
    ensures var r := Release(c, s, slot, fate);
            multiset(TaskIds(r.inFlight)) + multiset(RecordIds(r.history)) == multiset(IdRange(c.startId, r.nextId))
  {
    var r := Release(c, s, slot, fate);
    assert RecordIds(r.history) == RecordIds(s.history) + [s.inFlight[slot].id];
    TaskIdsRemove(s.inFlight, slot);
  }

  /** With one worker, the task that finishes is the one claimed last, and
      it was admitted while the streak was below the threshold. */
  lemma ReleaseSequential(c: Config, s: RunState, slot: nat, fate: Fate)
    requires Inv(c, s) && slot < s.active && c.poolSize == 1
    ensures Sequential(c, Release(c, s, slot, fate))
  {
    var r := Release(c, s, slot, fate);
    assert s.failures < c.threshold;
    forall j | 0 <= j < |r.history|
      ensures r.history[j].id == c.startId + j && Streak(r.history[..j]) < c.threshold
    {
      if j == |s.history| {
        assert r.history[..j] == s.history;
      } else {
        assert r.history[..j] == s.history[..j];
      }
    }
  }

  /** Folding in an outcome and releasing the slot keeps the invariant and
      leaves a slot free. */
  lemma ReleaseInv(c: Config, s: RunState, slot: nat, fate: Fate)
    requires Inv(c, s) && slot < s.active
    ensures Inv(c, Release(c, s, slot, fate))
    ensures Release(c, s, slot, fate).active < c.poolSize
  {
    var r := Release(c, s, slot, fate);
    ReleaseIds(c, s, slot, fate);
    assert r.history[..|r.history| - 1] == s.history;
    if c.poolSize == 1 {
      ReleaseSequential(c, s, slot, fate);
    }
  }

  /** A completion keeps the invariant and the pool alive. */
  lemma FinishInv(c: Config, s: RunState, slot: nat, fate: Fate)
    requires Inv(c, s) && slot < s.active
    ensures Inv(c, Finish(c, s, slot, fate)) && Live(c, Finish(c, s, slot, fate))
  {
    ReleaseInv(c, s, slot, fate);
    AddTaskInv(c, Release(c, s, slot, fate));
  }

  /** Moving a task from its probe to its download keeps the invariant. */
  lemma StartDownloadInv(c: Config, s: RunState, slot: nat)
    requires Inv(c, s) && Live(c, s) && slot < s.active
    ensures Inv(c, StartDownload(s, slot)) && Live(c, StartDownload(s, slot))
  {
    assert TaskIds(StartDownload(s, slot).inFlight) == TaskIds(s.inFlight);
  }

  /** The state after the network answers the pending request of the task
      in `slot`: its probe when it is probing, its download otherwise. The
      network is given as the answers for each id. */
  function Answer(c: Config, s: RunState, slot: nat,
                  probeOf: int -> ProbeResult, fetchOf: int -> bool): (r: RunState)
    requires slot < |s.inFlight|
    ensures var id := s.inFlight[slot].id;
            s.inFlight[slot].phase == Probing && Downloads(probeOf(id)) ==>
              && r.history == s.history && |r.inFlight| == |s.inFlight|
              && r.inFlight[slot] == Task(id, Downloading)
    ensures var id := s.inFlight[slot].id;
            s.inFlight[slot].phase == Probing && !Downloads(probeOf(id)) ==>
              r.history == s.history + [Record(id, TaskFate(probeOf(id), fetchOf(id)))]
    ensures var id := s.inFlight[slot].id;
            s.inFlight[slot].phase == Downloading ==>
              r.history == s.history + [Record(id, if fetchOf(id) then Completed else Failed)]
    ensures s.active == |s.inFlight| ==> r.active == |r.inFlight|
  {
    var t := s.inFlight[slot];
    match t.phase
    case Probing =>
      if Downloads(probeOf(t.id)) then StartDownload(s, slot)
      else Finish(c, s, slot, TaskFate(probeOf(t.id), false))
    case Downloading =>
      Finish(c, s, slot, if fetchOf(t.id) then Completed else Failed)
  }

  /** Every finished task ended as the network's answers for its id dictate,
      and every task that is downloading had a probe that allowed it. */
  ghost predicate Faithful(s: RunState, probeOf: int -> ProbeResult, fetchOf: int -> bool) {
    && (forall j :: 0 <= j < |s.history| ==>
          s.history[j].fate == TaskFate(probeOf(s.history[j].id), fetchOf(s.history[j].id)))
    && (forall t :: t in s.inFlight && t.phase == Downloading ==> Downloads(probeOf(t.id)))
  }

  /** Starting the download of a task whose probe allowed it keeps the
      outcomes faithful to the network. */
  lemma StartDownloadFaithful(s: RunState, slot: nat, probeOf: int -> ProbeResult, fetchOf: int -> bool)
    requires Faithful(s, probeOf, fetchOf) && slot < |s.inFlight|
    requires Downloads(probeOf(s.inFlight[slot].id))
    ensures Faithful(StartDownload(s, slot), probeOf, fetchOf)
  {
  }

  /** Ending a task with the fate the network dictates for its id keeps the
      outcomes faithful to the network. */
  lemma FinishFaithful(c: Config, s: RunState, slot: nat, fate: Fate,
                       probeOf: int -> ProbeResult, fetchOf: int -> bool)
    requires Faithful(s, probeOf, fetchOf) && slot < |s.inFlight|
    requires fate == TaskFate(probeOf(s.inFlight[slot].id), fetchOf(s.inFlight[slot].id))
    ensures Faithful(Finish(c, s, slot, fate), probeOf, fetchOf)
  {
  }

  /** Each answer keeps the invariant, the pool alive, and the outcomes
      faithful to the network. */
  lemma AnswerInv(c: Config, s: RunState, slot: nat,
                  probeOf: int -> ProbeResult, fetchOf: int -> bool)
    requires Inv(c, s) && Live(c, s) && Faithful(s, probeOf, fetchOf) && slot < s.active
    ensures var r := Answer(c, s, slot, probeOf, fetchOf);
            Inv(c, r) && Live(c, r) && Faithful(r, probeOf, fetchOf)
  {
    var t := s.inFlight[slot];
    if t.phase == Probing && Downloads(probeOf(t.id)) {
      StartDownloadInv(c, s, slot);
      StartDownloadFaithful(s, slot, probeOf, fetchOf);
    } else {
      var fate := if t.phase == Probing then TaskFate(probeOf(t.id), false)
                  else if fetchOf(t.id) then Completed else Failed;
      assert fate == TaskFate(probeOf(t.id), fetchOf(t.id));
      FinishInv(c, s, slot, fate);
      FinishFaithful(c, s, slot, fate, probeOf, fetchOf);
    }
  }

  /** The state after the network answers pending requests in the order
      `sched` picks them: at each step the next entry, modulo the number of
      active tasks, names the slot answered. The run ends once no task is
      active (App.js lines 58-60) or when the schedule is used up. */
  function Steps(c: Config, s: RunState, sched: seq<nat>,
                 probeOf: int -> ProbeResult, fetchOf: int -> bool): (r: RunState)
    requires s.active == |s.inFlight|
    ensures r.active == |r.inFlight|
    ensures |s.history| <= |r.history| <= |s.history| + |sched|
    ensures r.history[..|s.history|] == s.history
    decreases |sched|
  {
    if s.active == 0 || sched == [] then s
    else
      var a := Answer(c, s, sched[0] % s.active, probeOf, fetchOf);
      var r := Steps(c, a, sched[1..], probeOf, fetchOf);
      assert r.history[..|s.history|] == r.history[..|a.history|][..|s.history|];
      r
  }

  /** A whole run: the start-up loop, then the answers `sched` picks. */
  function Execute(c: Config, sched: seq<nat>,
                   probeOf: int -> ProbeResult, fetchOf: int -> bool): (r: RunState)
    ensures r.active == |r.inFlight|
    ensures |r.history| <= |sched|
  {
    Steps(c, Started(c, c.poolSize), sched, probeOf, fetchOf)
  }

  /** Any number of answers keeps the invariant, the pool alive, and the
      outcomes faithful to the network. */
  lemma {:induction false} StepsInv(c: Config, s: RunState, sched: seq<nat>,
                                    probeOf: int -> ProbeResult, fetchOf: int -> bool)
    requires Inv(c, s) && Live(c, s) && Faithful(s, probeOf, fetchOf)
    ensures var r := Steps(c, s, sched, probeOf, fetchOf);
            Inv(c, r) && Live(c, r) && Faithful(r, probeOf, fetchOf)
    decreases |sched|
  {
    if s.active > 0 && sched != [] {
      AnswerInv(c, s, sched[0] % s.active, probeOf, fetchOf);
      StepsInv(c, Answer(c, s, sched[0] % s.active, probeOf, fetchOf), sched[1..], probeOf, fetchOf);
    }
  }

  /** Every whole run, however the network answers and in whatever order,
      keeps the invariant, the pool alive, and the outcomes faithful. */
  lemma ExecuteInv(c: Config, sched: seq<nat>, probeOf: int -> ProbeResult, fetchOf: int -> bool)
    requires 1 <= c.poolSize
    ensures var r := Execute(c, sched, probeOf, fetchOf);
            Inv(c, r) && Live(c, r) && Faithful(r, probeOf, fetchOf)
  {
    StartedLive(c);
    StartedShape(c, c.poolSize);
    StepsInv(c, Started(c, c.poolSize), sched, probeOf, fetchOf);
  }

  /** One answer more: with a task active and the schedule not used up, the
      run goes on from the state after the answer the schedule picks. */
  lemma StepsUnfold(c: Config, s: RunState, sched: seq<nat>, i: nat,
                    probeOf: int -> ProbeResult, fetchOf: int -> bool)
    requires s.active == |s.inFlight| > 0 && i < |sched|
    ensures Steps(c, s, sched[i..], probeOf, fetchOf)
            == Steps(c, Answer(c, s, sched[i] % s.active, probeOf, fetchOf), sched[i + 1..], probeOf, fetchOf)
  {
    assert sched[i..][1..] == sched[i + 1..];
  }

  /** What every whole run delivers: the counter and the last URL are those
      of its finished tasks, each of which ended as the network dictated;
      once the pool runs dry the counter is between the threshold and the
      threshold plus the pool size, and every claimed id finished exactly
      once; with one worker the count is exactly the threshold and the ids
      finished in order. */
  lemma ExecuteOutcome(c: Config, sched: seq<nat>, probeOf: int -> ProbeResult, fetchOf: int -> bool)
    requires 1 <= c.poolSize
    ensures var r := Execute(c, sched, probeOf, fetchOf);
            && r.failures == Streak(r.history) && r.lastUrl == LastSuccess(c.urlTemplate, r.history)
            && (forall j :: 0 <= j < |r.history| ==>
                  r.history[j].fate == TaskFate(probeOf(r.history[j].id), fetchOf(r.history[j].id)))
    ensures var r := Execute(c, sched, probeOf, fetchOf);
            r.active == 0 ==>
              && c.threshold <= r.failures < c.threshold + c.poolSize
              && r.nextId == c.startId + |r.history|
              && forall x :: multiset(RecordIds(r.history))[x] == if c.startId <= x < r.nextId then 1 else 0
    ensures var r := Execute(c, sched, probeOf, fetchOf);
            r.active == 0 && c.poolSize == 1 ==>
              && r.failures == c.threshold
              && forall j :: 0 <= j < |r.history| ==>
                   r.history[j].id == c.startId + j && Streak(r.history[..j]) < c.threshold
  {
    var r := Execute(c, sched, probeOf, fetchOf);
    ExecuteInv(c, sched, probeOf, fetchOf);
    if r.active == 0 {
      StoppedRun(c, r);
      if c.poolSize == 1 {
        SoloStopsAtFirstCrossing(c, r);
      }
    }
  }

  /** A completion admits at most one task, and exactly one when the streak
      it leaves is below the threshold; a completed download resets the
      streak, so even a late success re-admits work. */
  lemma FinishRefill(c: Config, s: RunState, slot: nat, fate: Fate)
    requires Inv(c, s) && slot < s.active
    ensures var r := Finish(c, s, slot, fate);
            && r.nextId - s.nextId == (if r.failures < c.threshold then 1 else 0)
            && r.active == s.active - 1 + (r.nextId - s.nextId)
            && (fate == Completed && c.threshold > 0 ==> r.nextId == s.nextId + 1)
  {
  }

  /** What a completion does to the streak and the last successful URL. */
  lemma FinishOutcome(c: Config, s: RunState, slot: nat, fate: Fate)
    requires Inv(c, s) && slot < s.active
    ensures var r := Finish(c, s, slot, fate);
            var id := s.inFlight[slot].id;
            && (fate == Completed ==> r.failures == 0 && r.lastUrl == Some(CandidateUrl(c.urlTemplate, id)))
            && (fate == Failed ==> r.failures == s.failures + 1 && r.lastUrl == s.lastUrl)
            && (fate == Skipped ==> r.failures == s.failures && r.lastUrl == s.lastUrl)
  {
  }

  /** When the pool has run dry, the final streak is at least the threshold
      and below threshold + poolSize, and every id from startId to the last
      claimed one has finished exactly once. */
  lemma StoppedRun(c: Config, s: RunState)
    requires Inv(c, s) && Live(c, s) && s.active == 0
    ensures c.threshold <= s.failures < c.threshold + c.poolSize
    ensures s.nextId == c.startId + |s.history|
    ensures forall x :: multiset(RecordIds(s.history))[x] == if c.startId <= x < s.nextId then 1 else 0
  {
    assert multiset(TaskIds(s.inFlight)) == multiset{};
    assert multiset(RecordIds(s.history)) == multiset(IdRange(c.startId, s.nextId));
    IdRangeExact(c.startId, s.nextId);
  }

  /** With one worker, the run stops exactly when the streak first reaches
      the threshold: ids were finished in order, every earlier prefix had a
      streak below the threshold, and the final streak equals it. */
  lemma SoloStopsAtFirstCrossing(c: Config, s: RunState)
    requires Inv(c, s) && Live(c, s) && s.active == 0 && c.poolSize == 1
    ensures forall j :: 0 <= j < |s.history| ==>
              s.history[j].id == c.startId + j && Streak(s.history[..j]) < c.threshold
    ensures s.failures == c.threshold
  {
  }
}
