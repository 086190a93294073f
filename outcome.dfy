/** What one task's probe and download amount to, and how a sequence of
    finished tasks determines the failure streak and the last successful URL
    (App.js lines 6 and 29-45). */
module Outcomes {
  import opened Candidates

  /** 100 MB: the largest file that is still downloaded. */
  const MAX_FILE_SIZE: nat := 100 * 1024 * 1024

  /** The answer to the size probe: the declared length, or a thrown error
      (a transport error or a status other than 200). */
  datatype ProbeResult = Sized(bytes: nat) | ProbeFailed

  /** How a task ends: downloaded, skipped as too large, or failed. */
  datatype Fate = Completed | Skipped | Failed

  /** A finished task: its id and how it ended. */
  datatype Record = Record(id: int, fate: Fate)

  /** The size test: strictly greater than the limit. */
  predicate Oversized(bytes: nat)
    ensures Oversized(bytes) <==> 104857600 < bytes
  {
    bytes > MAX_FILE_SIZE
  }

  /** Whether the worker goes on to call the download after its probe. */
  predicate Downloads(probe: ProbeResult)
    ensures Downloads(probe) <==> probe.Sized? && probe.bytes <= 104857600
  {
    probe.Sized? && !Oversized(probe.bytes)
  }

  /** The fate of a task whose probe answered `probe` and whose download, if
      it is started at all, succeeds exactly when `fetched`. */
  function TaskFate(probe: ProbeResult, fetched: bool): (f: Fate)
    ensures f == Skipped <==> probe.Sized? && Oversized(probe.bytes)
    ensures f == Completed <==> Downloads(probe) && fetched
    ensures f == Failed <==> probe.ProbeFailed? || (Downloads(probe) && !fetched)
  {
    match probe
    case ProbeFailed => Failed
    case Sized(bytes) =>
      if Oversized(bytes) then Skipped
      else if fetched then Completed
      else Failed
  }

  /** A file exactly at the limit is downloaded; one byte more is skipped. */
  lemma SizeLimitBoundary()
    ensures !Oversized(MAX_FILE_SIZE) && Oversized(MAX_FILE_SIZE + 1)
    ensures MAX_FILE_SIZE == 104857600
  {
  }

  /** A task whose probe does not lead to a download ends the same way
      whatever the download would have answered: the download is not used. */
  lemma NoDownloadNoDependence(probe: ProbeResult)
    requires !Downloads(probe)
    ensures TaskFate(probe, true) == TaskFate(probe, false)
    ensures TaskFate(probe, true) != Completed
  {
  }

  /** The value of `consecutiveFailures` after the given tasks finished, in
      order: a completion resets it, a failure adds one, a skip leaves it. */
  function Streak(h: seq<Record>): (n: nat)
    ensures n <= |h|
  {
    if h == [] then 0
    else
      match h[|h| - 1].fate
      case Completed => 0
      case Failed => Streak(h[..|h| - 1]) + 1
      case Skipped => Streak(h[..|h| - 1])
  }

  /** The value of `lastSuccessfulUrl` after the given tasks finished, in
      order: the URL of the last completed one, or none. */
  function LastSuccess(template: string, h: seq<Record>): (u: Option<string>)
    ensures u.None? ==> forall j :: 0 <= j < |h| ==> h[j].fate != Completed
  {
    if h == [] then None
    else if h[|h| - 1].fate == Completed then Some(CandidateUrl(template, h[|h| - 1].id))
    else LastSuccess(template, h[..|h| - 1])
  }

  /** How many of the given tasks failed. */
  function FailedCount(h: seq<Record>): (n: nat)
    ensures n <= |h|
  {
    if h == [] then 0
    else FailedCount(h[..|h| - 1]) + (if h[|h| - 1].fate == Failed then 1 else 0)
  }

  /** The streak counts exactly the failures since the last completion
      (skips in between count for nothing). */
  lemma {:induction false} StreakCountsFailuresSinceCompletion(h: seq<Record>, k: nat)
    requires k <= |h|
    requires k == 0 || h[k - 1].fate == Completed
    requires forall j :: k <= j < |h| ==> h[j].fate != Completed
    ensures Streak(h) == FailedCount(h[k..])
    decreases |h|
  {
    if |h| > k {
      var init := h[..|h| - 1];
      assert h[k..][..|h[k..]| - 1] == init[k..];
      StreakCountsFailuresSinceCompletion(init, k);
    } else if k > 0 {
      assert h[k..] == [];
    }
  }

  /** N failures in a row add exactly N to the streak. */
  lemma {:induction false} StreakAfterFailures(h: seq<Record>, tail: seq<Record>)
    requires forall j :: 0 <= j < |tail| ==> tail[j].fate == Failed
    ensures Streak(h + tail) == Streak(h) + |tail|
    decreases |tail|
  {
    if tail != [] {
      var init := tail[..|tail| - 1];
      assert (h + tail)[..|h + tail| - 1] == h + init;
      StreakAfterFailures(h, init);
    } else {
      assert h + tail == h;
    }
  }

  /** The last successful URL is that of the last completed task. */
  lemma {:induction false} LastSuccessIsLastCompletion(template: string, h: seq<Record>, k: nat)
    requires k < |h| && h[k].fate == Completed
    requires forall j :: k < j < |h| ==> h[j].fate != Completed
    ensures LastSuccess(template, h) == Some(CandidateUrl(template, h[k].id))
    decreases |h|
  {
    if k < |h| - 1 {
      LastSuccessIsLastCompletion(template, h[..|h| - 1], k);
    }
  }

  /** With no completed task there is no last successful URL. */
  lemma {:induction false} NoCompletionNoUrl(template: string, h: seq<Record>)
    requires forall j :: 0 <= j < |h| ==> h[j].fate != Completed
    ensures LastSuccess(template, h) == None
    decreases |h|
  {
    if h != [] {
      NoCompletionNoUrl(template, h[..|h| - 1]);
    }
  }

  /** Failures and skips leave the last successful URL as it was. */
  lemma {:induction false} LastSuccessKeptWithoutCompletion(template: string, h: seq<Record>, tail: seq<Record>)
    requires forall j :: 0 <= j < |tail| ==> tail[j].fate != Completed
    ensures LastSuccess(template, h + tail) == LastSuccess(template, h)
    decreases |tail|
  {
    if tail != [] {
      var init := tail[..|tail| - 1];
      assert (h + tail)[..|h + tail| - 1] == h + init;
      LastSuccessKeptWithoutCompletion(template, h, init);
    } else {
      assert h + tail == h;
    }
  }
}
