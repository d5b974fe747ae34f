/** workers/tasks.py and workers/maintenance.py: claiming a scan row, retries, and the reapers. */
module ScanClaim {
  import opened Wrappers

  datatype Status = Queued | Running | AnalysisComplete | Enriching | Completed | Partial | Failed

  /** The columns of a scan row that decide who may analyze it. Times are seconds. */
  datatype Row = Row(status: Status, createdAt: int, startedAt: Option<int>, completedAt: Option<int>)

  datatype Error = Transient | SoftTimeLimit | AnalysisFailure | Crash

  /** Which exceptions may happen besides those inside the analysis: before a claim, and after
      results were stored. */
  datatype Faults = Faults(beforeClaim: bool, afterStore: bool)

  /** What the settings fix: the scan timeout, the hard limit after which a task is killed, the
      reaper's grace and the number of retries. */
  datatype Settings = Settings(timeout: nat, hardLimit: nat, grace: nat, maxRetries: nat)

  const MAX_QUEUED: int := 6 * 3600

  // ------------------------------------------------------------------ statements on the row

  predicate Stale(row: Row, margin: int, asOf: int) {
    row.status == Running && row.startedAt.Some? && row.startedAt.value < asOf - margin
  }

  predicate Claimable(row: Row, settings: Settings, asOf: int) {
    row.status == Queued || row.status == Failed || Stale(row, settings.timeout + 60, asOf)
  }

  function Claimed(row: Row, stamp: int): Row {
    row.(status := Running, startedAt := Some(stamp), completedAt := None)
  }

  /** Whether the handler of an exception retries, or gives up. */
  predicate Retries(error: Error, attempt: nat, settings: Settings) {
    error == Transient && attempt < settings.maxRetries
  }

  /** The status an exception handler writes. */
  function Target(retry: bool): Status {
    if retry then Queued else Failed
  }

  function Marked(row: Row, status: Status, at: int): Row {
    row.(status := status, completedAt := if status == Failed then Some(at) else row.completedAt)
  }

  function Stored(row: Row, status: Status, at: int): Row {
    row.(status := status, completedAt := Some(at))
  }

  function RunningReaped(row: Row, settings: Settings, asOf: int, at: int): Row {
    if Stale(row, settings.timeout + 60 + settings.grace, asOf) then Marked(row, Failed, at) else row
  }

  function QueuedReaped(row: Row, asOf: int, at: int): Row {
    if row.status == Queued && row.createdAt < asOf - MAX_QUEUED then Marked(row, Failed, at) else row
  }

  predicate AwaitsEnrichment(status: Status) {
    status == AnalysisComplete || status == Enriching
  }

  /** The status that ends the enrichment stage. */
  function Enriched(partial: bool): Status {
    if partial then Partial else Completed
  }

  /** The scan row as the workers' statements change it. */
  class ScanRow {
    var status: Status
    var createdAt: int
    var startedAt: Option<int>
    var completedAt: Option<int>

    ghost function Value(): Row
      reads this
    {
      Row(status, createdAt, startedAt, completedAt)
    }

    constructor (now: int)
      ensures Value() == Row(Queued, now, None, None)
    {
      status, createdAt, startedAt, completedAt := Queued, now, None, None;
    }

    /** The conditional UPDATE of `run_scan`: it claims, or changes nothing. */
    method TryClaim(settings: Settings, cutoffAt: int, stampAt: int) returns (claimed: bool)
      modifies this
      ensures claimed == Claimable(old(Value()), settings, cutoffAt)
      ensures Value() == if claimed then Claimed(old(Value()), stampAt) else old(Value())
    {
      claimed := status == Queued || status == Failed ||
                 (status == Running && startedAt.Some? && startedAt.value < cutoffAt - (settings.timeout + 60));
      if claimed {
        status, startedAt, completedAt := Running, Some(stampAt), None;
      }
    }

    /** `_set_status`: unconditional, whoever calls it. */
    method SetStatus(next: Status, at: int)
      modifies this
      ensures Value() == Marked(old(Value()), next, at)
    {
      status := next;
      if next == Failed {
        completedAt := Some(at);
      }
    }

    /** The last write of `persist_results`. */
    method StoreResults(next: Status, at: int)
      modifies this
      ensures Value() == Stored(old(Value()), next, at)
    {
      status, completedAt := next, Some(at);
    }

    /** `start_enrichment`: only a scan that waits for enrichment is marked. */
    method StartEnrichment() returns (started: bool)
      modifies this
      ensures started == AwaitsEnrichment(old(status))
      ensures Value() == if started then old(Value()).(status := Enriching) else old(Value())
    {
      started := status == AnalysisComplete || status == Enriching;
      if started {
        status := Enriching;
      }
    }

    /** `finish_enrichment`: unconditional. */
    method FinishEnrichment(partial: bool)
      modifies this
      ensures Value() == old(Value()).(status := if partial then Partial else Completed)
    {
      status := if partial then Partial else Completed;
    }

    /** `reap_stale_jobs_once` on this row: both updates, in order, and how many rows each changed. */
    method Reap(settings: Settings, deadlineAt: int, queuedAt: int, at: int) returns (running: nat, queued: nat)
      modifies this
      ensures Value() == QueuedReaped(RunningReaped(old(Value()), settings, deadlineAt, at), queuedAt, at)
      ensures running == if Stale(old(Value()), settings.timeout + 60 + settings.grace, deadlineAt) then 1 else 0
      ensures queued == if old(status) == Queued && queuedAt - createdAt > 21600 then 1 else 0
    {
      running, queued := 0, 0;
      if status == Running && startedAt.Some? && startedAt.value < deadlineAt - (settings.timeout + 60) - settings.grace {
        SetStatus(Failed, at);
        running := 1;
      }
      if status == Queued && createdAt < queuedAt - MAX_QUEUED {
        SetStatus(Failed, at);
        queued := 1;
      }
    }
  }

  // ------------------------------------------------------------------ the interleaved system

  /** Where a delivery is. `Ready` has passed the status check; `Analyzing` has claimed;
      `Settled` has stored results; `Recovering` is in an exception handler, before its write. */
  datatype Phase = Fresh | Ready | Analyzing | Settled | Recovering(retry: bool) | Done

  datatype Delivery = Delivery(taskStart: int, attempt: nat, claimedAt: int, phase: Phase)

  /** A writer of the enrichment stage, after it has read the row: the enrichment job before its
      start, or whoever will close the stage: the started job, the reaper of stuck enrichments, or a
      delivery that could not queue the job. */
  datatype Enricher = Starting | Closing

  /** One scan, one clock, every delivery of its task so far, and the enrichment writers. A writer
      that dies simply takes no further step. */
  datatype System = System(now: int, row: Row, deliveries: map<nat, Delivery>, enrichers: map<nat, Enricher>)

  datatype Step =
    | Deliver(id: nat, attempt: nat)          // first delivery, duplicate, retry or redelivery
    | CheckStatus(id: nat)                    // early return for finished scans
    | Claim(id: nat, cutoffAt: int, stampAt: int)
    | Store(id: nat, status: Status)
    | Return(id: nat)
    | Raise(id: nat, error: Error)            // an exception after the claim
    | RaiseUnclaimed(id: nat, error: Error)   // an exception before or at the claim
    | WriteBack(id: nat, stored: bool)        // the handler's write, which may itself fail
    | Kill(id: nat)                           // hard limit, lost worker, deploy
    | ReapRunning(asOf: int)
    | ReapQueued(asOf: int)
    | EnrichRead(id: nat, role: Enricher)     // the job's check, or the reaper's query
    | QueueFails(id: nat, enricher: nat)      // after storing, the enrichment job cannot be queued
    | EnrichStart(id: nat)                    // the job's write, some time after its check
    | EnrichFinish(id: nat, partial: bool)    // the closing write
    | Tick(to: int)

  predicate Live(d: Delivery) {
    d.phase != Done
  }

  /** From its claim until its last write a delivery holds the scan. */
  predicate Holds(d: Delivery) {
    d.phase == Analyzing || d.phase == Settled || d.phase.Recovering?
  }

  predicate Finished(status: Status) {
    status == Completed || status == Partial || status == Enriching || status == AnalysisComplete
  }

  predicate Current(s: System, id: nat) {
    id in s.deliveries && Live(s.deliveries[id])
  }

  predicate Enabled(s: System, settings: Settings, faults: Faults, step: Step) {
    match step
    case Deliver(id, _) => id !in s.deliveries
    case CheckStatus(id) => Current(s, id) && s.deliveries[id].phase == Fresh
    case Claim(id, cutoffAt, stampAt) =>
      && Current(s, id) && s.deliveries[id].phase == Ready
      && s.deliveries[id].taskStart <= cutoffAt <= stampAt <= s.now
    case Store(id, status) =>
      Current(s, id) && s.deliveries[id].phase == Analyzing
      && (status == AnalysisComplete || status == Completed || status == Partial)
    case Return(id) => Current(s, id) && s.deliveries[id].phase == Settled
    case Raise(id, _) =>
      && Current(s, id)
      && (s.deliveries[id].phase == Analyzing || (faults.afterStore && s.deliveries[id].phase == Settled))
    case RaiseUnclaimed(id, _) =>
      faults.beforeClaim && Current(s, id) && (s.deliveries[id].phase == Fresh || s.deliveries[id].phase == Ready)
    case WriteBack(id, _) => Current(s, id) && s.deliveries[id].phase.Recovering?
    case Kill(id) => Current(s, id)
    case ReapRunning(asOf) => asOf <= s.now
    case ReapQueued(asOf) => asOf <= s.now
    case EnrichRead(id, _) => id !in s.enrichers && AwaitsEnrichment(s.row.status)
    case QueueFails(id, enricher) =>
      Current(s, id) && s.deliveries[id].phase == Settled && enricher !in s.enrichers
    case EnrichStart(id) => id in s.enrichers && s.enrichers[id] == Starting
    case EnrichFinish(id, _) => id in s.enrichers && s.enrichers[id] == Closing
    case Tick(to) =>
      s.now <= to && forall id | id in s.deliveries && Live(s.deliveries[id]) ::
        to <= s.deliveries[id].taskStart + settings.hardLimit
  }

  function Moved(s: System, id: nat, phase: Phase): map<nat, Delivery>
    requires id in s.deliveries
  {
    s.deliveries[id := s.deliveries[id].(phase := phase)]
  }

  function Apply(s: System, settings: Settings, faults: Faults, step: Step): System
    requires Enabled(s, settings, faults, step)
  {
    match step
    case Deliver(id, attempt) => s.(deliveries := s.deliveries[id := Delivery(s.now, attempt, s.now, Fresh)])
    case CheckStatus(id) => s.(deliveries := Moved(s, id, if Finished(s.row.status) then Done else Ready))
    case Claim(id, cutoffAt, stampAt) =>
      if Claimable(s.row, settings, cutoffAt) then
        s.(row := Claimed(s.row, stampAt),
           deliveries := s.deliveries[id := s.deliveries[id].(phase := Analyzing, claimedAt := stampAt)])
      else s.(deliveries := Moved(s, id, Done))
    case Store(id, status) => s.(row := Stored(s.row, status, s.now), deliveries := Moved(s, id, Settled))
    case Return(id) => s.(deliveries := Moved(s, id, Done))
    case Raise(id, error) =>
      s.(deliveries := Moved(s, id, Recovering(Retries(error, s.deliveries[id].attempt, settings))))
    case RaiseUnclaimed(id, error) =>
      s.(deliveries := Moved(s, id, Recovering(Retries(error, s.deliveries[id].attempt, settings))))
    case WriteBack(id, stored) =>
      s.(row := if stored then Marked(s.row, Target(s.deliveries[id].phase.retry), s.now) else s.row,
         deliveries := Moved(s, id, Done))
    case Kill(id) => s.(deliveries := Moved(s, id, Done))
    case ReapRunning(asOf) => s.(row := RunningReaped(s.row, settings, asOf, s.now))
    case ReapQueued(asOf) => s.(row := QueuedReaped(s.row, asOf, s.now))
    case EnrichRead(id, role) => s.(enrichers := s.enrichers[id := role])
    case QueueFails(_, enricher) => s.(enrichers := s.enrichers[enricher := Closing])
    case EnrichStart(id) => s.(row := s.row.(status := Enriching), enrichers := s.enrichers[id := Closing])
    case EnrichFinish(id, partial) => s.(row := s.row.(status := Enriched(partial)), enrichers := s.enrichers - {id})
    case Tick(to) => s.(now := to)
  }

  function Initial(now: int): System {
    System(now, Row(Queued, now, None, None), map[], map[])
  }

  /** The system after a run of steps, or None where a step is not enabled. */
  function After(start: int, settings: Settings, faults: Faults, steps: seq<Step>): Option<System>
    decreases |steps|
  {
    if steps == [] then Some(Initial(start)) else
      match After(start, settings, faults, steps[..|steps| - 1])
      case None => None
      case Some(s) =>
        var step := steps[|steps| - 1];
        if Enabled(s, settings, faults, step) then Some(Apply(s, settings, faults, step)) else None
  }

  /** At most one delivery is inside the analysis. */
  ghost predicate Exclusive(s: System) {
    forall i, j | i in s.deliveries && j in s.deliveries
      && s.deliveries[i].phase == Analyzing && s.deliveries[j].phase == Analyzing :: i == j
  }

  // ------------------------------------------------------------------ what the writes say

  /** A delivery that raises puts the scan back in the queue exactly if the error is transient and
      retries are left; otherwise the scan has failed, now. A handler whose write fails changes nothing. */
  lemma HandlerWrites(s: System, settings: Settings, faults: Faults, raised: Step, stored: bool)
    requires (raised.Raise? || raised.RaiseUnclaimed?) && Enabled(s, settings, faults, raised)
    ensures var t := Apply(s, settings, faults, raised);
      && t.row == s.row && Enabled(t, settings, faults, WriteBack(raised.id, stored))
      && var u := Apply(t, settings, faults, WriteBack(raised.id, stored));
      && u.deliveries[raised.id].phase == Done
      && u.row == (
           if !stored then s.row
           else if raised.error == Transient && s.deliveries[raised.id].attempt < settings.maxRetries then s.row.(status := Queued)
           else s.row.(status := Failed, completedAt := Some(s.now)))
  {
    var t := Apply(s, settings, faults, raised);
    assert t.deliveries[raised.id].phase.Recovering?;
  }

  /** A running scan fails once its claim is more than `timeout + 60 + grace` seconds old, a queued one
      once it is more than 21600 seconds old; the reapers leave every other scan as it is. */
  lemma ReapersWrite(s: System, settings: Settings, faults: Faults, asOf: int)
    requires asOf <= s.now
    ensures Apply(s, settings, faults, ReapRunning(asOf)).row ==
              if s.row.status == Running && s.row.startedAt.Some?
                 && asOf - s.row.startedAt.value > settings.timeout + 60 + settings.grace
              then s.row.(status := Failed, completedAt := Some(s.now)) else s.row
    ensures Apply(s, settings, faults, ReapQueued(asOf)).row ==
              if s.row.status == Queued && asOf - s.row.createdAt > 21600
              then s.row.(status := Failed, completedAt := Some(s.now)) else s.row
  {
    assert Enabled(s, settings, faults, ReapRunning(asOf)) && Enabled(s, settings, faults, ReapQueued(asOf));
  }

  /** A claim succeeds exactly on a scan that is queued, has failed, or has been running for more than
      `timeout + 60` seconds. */
  lemma ClaimWrites(s: System, settings: Settings, faults: Faults, id: nat, cutoffAt: int, stampAt: int)
    requires Enabled(s, settings, faults, Claim(id, cutoffAt, stampAt))
    ensures var t := Apply(s, settings, faults, Claim(id, cutoffAt, stampAt));
      var claims :=
        || s.row.status == Queued || s.row.status == Failed
        || (s.row.status == Running && s.row.startedAt.Some? && cutoffAt - s.row.startedAt.value > settings.timeout + 60);
      && t.deliveries[id].phase == (if claims then Analyzing else Done)
      && t.row == if claims then Row(Running, s.row.createdAt, Some(stampAt), None) else s.row
  {
    var t := Apply(s, settings, faults, Claim(id, cutoffAt, stampAt));
    assert t.row.createdAt == s.row.createdAt;
  }

  ghost predicate Stamped(row: Row) {
    && (row.status == Running ==> row.startedAt.Some? && row.completedAt == None)
    && (row.status == Failed ==> row.completedAt.Some?)
  }

  /** In every run, whatever fails, a running scan has a start and no completion time and a failed one
      has a completion time. */
  lemma {:induction false} TimesFollowStatus(start: int, settings: Settings, faults: Faults, steps: seq<Step>)
    requires After(start, settings, faults, steps).Some?
    ensures Stamped(After(start, settings, faults, steps).value.row)
    decreases |steps|
  {
    if steps != [] {
      TimesFollowStatus(start, settings, faults, steps[..|steps| - 1]);
    }
  }

  // ------------------------------------------------------------------ mutual exclusion

  ghost predicate InTime(s: System, settings: Settings, id: nat)
    requires id in s.deliveries
  {
    var d := s.deliveries[id];
    Live(d) ==>
      && d.taskStart <= s.now <= d.taskStart + settings.hardLimit
      && d.taskStart <= d.claimedAt <= s.now
  }

  /** While a delivery holds the scan, the row is not claimable as queued or failed, and a running row
      carries the holder's own start time. */
  ghost predicate Guarded(s: System, id: nat)
    requires id in s.deliveries
  {
    Holds(s.deliveries[id]) ==>
      && s.row.status != Queued && s.row.status != Failed
      && (s.row.status == Running ==> s.row.startedAt == Some(s.deliveries[id].claimedAt))
  }

  ghost predicate Inv(s: System, settings: Settings) {
    && (forall id {:trigger InTime(s, settings, id)} | id in s.deliveries :: InTime(s, settings, id))
    && (forall id {:trigger Guarded(s, id)} | id in s.deliveries :: Guarded(s, id))
    && (forall i, j | i in s.deliveries && j in s.deliveries
          && Holds(s.deliveries[i]) && Holds(s.deliveries[j]) :: i == j)
  }

  /** A stale row has no living holder: its start time is the holder's claim, which is no earlier
      than the holder's task start, and the holder is killed in time. */
  lemma StaleMeansUnheld(s: System, settings: Settings, margin: int, asOf: int, id: nat)
    requires Inv(s, settings) && settings.hardLimit <= settings.timeout + 60
    requires margin >= settings.timeout + 60 && asOf <= s.now && Stale(s.row, margin, asOf)
    requires id in s.deliveries
    ensures !Holds(s.deliveries[id])
  {
    assert InTime(s, settings, id) && Guarded(s, id);
  }

  lemma ClaimMeansUnheld(s: System, settings: Settings, asOf: int, id: nat)
    requires Inv(s, settings) && settings.hardLimit <= settings.timeout + 60
    requires asOf <= s.now && Claimable(s.row, settings, asOf)
    requires id in s.deliveries
    ensures !Holds(s.deliveries[id])
  {
    assert Guarded(s, id);
    if Stale(s.row, settings.timeout + 60, asOf) {
      StaleMeansUnheld(s, settings, settings.timeout + 60, asOf, id);
    }
  }

  lemma StepKeepsInv(s: System, settings: Settings, faults: Faults, step: Step)
    requires Inv(s, settings) && settings.hardLimit <= settings.timeout + 60 && !faults.beforeClaim
    requires Enabled(s, settings, faults, step)
    ensures Inv(Apply(s, settings, faults, step), settings)
  {
    var s' := Apply(s, settings, faults, step);
    forall id | id in s'.deliveries
      ensures InTime(s', settings, id) && Guarded(s', id)
    {
      if id in s.deliveries {
        assert InTime(s, settings, id) && Guarded(s, id);
        if step.Claim? && Claimable(s.row, settings, step.cutoffAt) {
          ClaimMeansUnheld(s, settings, step.cutoffAt, id);
        } else if step.ReapRunning? && Stale(s.row, settings.timeout + 60 + settings.grace, step.asOf) {
          StaleMeansUnheld(s, settings, settings.timeout + 60 + settings.grace, step.asOf, id);
        }
      }
    }
    forall i, j | i in s'.deliveries && j in s'.deliveries && Holds(s'.deliveries[i]) && Holds(s'.deliveries[j])
      ensures i == j
    {
      if step.Claim? && Claimable(s.row, settings, step.cutoffAt) {
        ClaimMeansUnheld(s, settings, step.cutoffAt, i);
        ClaimMeansUnheld(s, settings, step.cutoffAt, j);
      }
    }
  }

  lemma {:induction false} RunKeepsInv(start: int, settings: Settings, faults: Faults, steps: seq<Step>)
    requires settings.hardLimit <= settings.timeout + 60 && !faults.beforeClaim
    requires After(start, settings, faults, steps).Some?
    ensures Inv(After(start, settings, faults, steps).value, settings)
    decreases |steps|
  {
    if steps != [] {
      var earlier, last := steps[..|steps| - 1], steps[|steps| - 1];
      RunKeepsInv(start, settings, faults, earlier);
      StepKeepsInv(After(start, settings, faults, earlier).value, settings, faults, last);
    }
  }

  /** No run has two deliveries inside the analysis, across duplicates, retries, kills, stale
      re-claims, both reapers and the enrichment stage. */
  lemma MutualExclusion(start: int, settings: Settings, faults: Faults, steps: seq<Step>)
    requires settings.hardLimit <= settings.timeout + 60 && !faults.beforeClaim
    requires After(start, settings, faults, steps).Some?
    ensures Exclusive(After(start, settings, faults, steps).value)
  {
    RunKeepsInv(start, settings, faults, steps);
  }

  // ------------------------------------------------------------------ runs that go wrong

  lemma Extend(start: int, settings: Settings, faults: Faults, steps: seq<Step>, step: Step, s: System)
    requires After(start, settings, faults, steps) == Some(s) && Enabled(s, settings, faults, step)
    ensures After(start, settings, faults, steps + [step]) == Some(Apply(s, settings, faults, step))
  {
    assert (steps + [step])[..|steps|] == steps;
  }

  /** One more step of a run. */
  lemma Then(settings: Settings, faults: Faults, steps: seq<Step>, s: System, step: Step) returns (longer: seq<Step>, t: System)
    requires After(0, settings, faults, steps) == Some(s) && Enabled(s, settings, faults, step)
    ensures longer == steps + [step] && t == Apply(s, settings, faults, step)
    ensures After(0, settings, faults, longer) == Some(t)
  {
    Extend(0, settings, faults, steps, step, s);
    longer, t := steps + [step], Apply(s, settings, faults, step);
  }

  /** The first delivery is claimed at time 0 in every setting. */
  lemma FirstClaim(settings: Settings, faults: Faults) returns (steps: seq<Step>, s: System)
    ensures After(0, settings, faults, steps) == Some(s)
    ensures s == System(0, Row(Running, 0, Some(0), None), map[0 := Delivery(0, 0, 0, Analyzing)], map[])
  {
    var row := Row(Queued, 0, None, None);
    steps, s := Then(settings, faults, [], Initial(0), Deliver(0, 0));
    assert s == System(0, row, map[0 := Delivery(0, 0, 0, Fresh)], map[]);
    steps, s := Then(settings, faults, steps, s, CheckStatus(0));
    assert s == System(0, row, map[0 := Delivery(0, 0, 0, Ready)], map[]);
    steps, s := Then(settings, faults, steps, s, Claim(0, 0, 0));
  }

  /** A second delivery that arrives when the row is claimable joins the first in the analysis. */
  lemma SecondClaim(settings: Settings, faults: Faults, steps: seq<Step>, s: System, id: nat)
    returns (more: seq<Step>, t: System)
    requires After(0, settings, faults, steps) == Some(s) && id != 0 && id !in s.deliveries
    requires 0 in s.deliveries && s.deliveries[0].phase == Analyzing
    requires Claimable(s.row, settings, s.now) && !Finished(s.row.status)
    ensures After(0, settings, faults, more) == Some(t) && !Exclusive(t)
    ensures t.deliveries == s.deliveries[id := Delivery(s.now, 0, s.now, Analyzing)]
    ensures t.now == s.now && t.row.status == Running && t.enrichers == s.enrichers
  {
    more, t := Then(settings, faults, steps, s, Deliver(id, 0));
    more, t := Then(settings, faults, more, t, CheckStatus(id));
    more, t := Then(settings, faults, more, t, Claim(id, s.now, s.now));
    assert t.deliveries[0].phase == Analyzing && t.deliveries[id].phase == Analyzing;
  }

  /** With tasks that live longer than `timeout + 60`, a running scan is claimed a second time. */
  lemma LateTasksOverlap(settings: Settings, faults: Faults) returns (steps: seq<Step>, t: System)
    requires settings.hardLimit > settings.timeout + 60
    ensures After(0, settings, faults, steps) == Some(t) && !Exclusive(t)
    ensures t.deliveries.Keys == {0, 1} && t.deliveries[0].phase == Analyzing && t.deliveries[1].phase == Analyzing
  {
    var s;
    steps, s := FirstClaim(settings, faults);
    steps, s := Then(settings, faults, steps, s, Tick(settings.timeout + 61));
    steps, t := SecondClaim(settings, faults, steps, s, 1);
  }

  /** A delivery that raises without having claimed overwrites the status of a running scan, and a
      third delivery then analyzes it concurrently. */
  lemma UnclaimedRaisesOverlap(settings: Settings, faults: Faults) returns (steps: seq<Step>, t: System)
    requires faults.beforeClaim
    ensures After(0, settings, faults, steps) == Some(t) && !Exclusive(t)
  {
    var s;
    steps, s := FirstClaim(settings, faults);
    steps, s := Then(settings, faults, steps, s, Deliver(1, 0));
    steps, s := Then(settings, faults, steps, s, RaiseUnclaimed(1, Crash));
    steps, s := Then(settings, faults, steps, s, WriteBack(1, true));
    steps, t := SecondClaim(settings, faults, steps, s, 2);
  }

  ghost predicate AlwaysExclusive(settings: Settings, faults: Faults) {
    forall start, steps :: After(start, settings, faults, steps).Some? ==>
      Exclusive(After(start, settings, faults, steps).value)
  }

  /** The claim protocol excludes concurrent analyses in all runs if and only if nothing is raised
      before a claim and tasks are killed no later than `timeout + 60` after they start. */
  lemma ExclusiveExactly(settings: Settings, faults: Faults)
    ensures AlwaysExclusive(settings, faults) <==> !faults.beforeClaim && settings.hardLimit <= settings.timeout + 60
  {
    if faults.beforeClaim {
      var steps, t := UnclaimedRaisesOverlap(settings, faults);
      assert After(0, settings, faults, steps) == Some(t);
    } else if settings.hardLimit > settings.timeout + 60 {
      var steps, t := LateTasksOverlap(settings, faults);
      assert After(0, settings, faults, steps) == Some(t);
    } else {
      forall start, steps | After(start, settings, faults, steps).Some?
        ensures Exclusive(After(start, settings, faults, steps).value)
      {
        MutualExclusion(start, settings, faults, steps);
      }
    }
  }

  // ------------------------------------------------------------------ whose results are stored

  /** Fencing: whoever stores results is the scan's only holder, and no other delivery can claim the
      row before it is done. */
  lemma OnlyTheHolderStores(start: int, settings: Settings, faults: Faults, steps: seq<Step>, id: nat, status: Status,
                            other: nat, asOf: int)
    requires settings.hardLimit <= settings.timeout + 60 && !faults.beforeClaim
    requires After(start, settings, faults, steps).Some?
    requires Enabled(After(start, settings, faults, steps).value, settings, faults, Store(id, status))
    ensures var s := After(start, settings, faults, steps).value;
      && (s.row.status == Running ==> s.row.startedAt == Some(s.deliveries[id].claimedAt))
      && (other in s.deliveries && other != id ==> !Holds(s.deliveries[other]))
      && (asOf <= s.now ==> !Claimable(s.row, settings, asOf))
  {
    RunKeepsInv(start, settings, faults, steps);
    var s := After(start, settings, faults, steps).value;
    assert Guarded(s, id);
    if asOf <= s.now && Claimable(s.row, settings, asOf) {
      ClaimMeansUnheld(s, settings, asOf, id);
    }
  }

  // ------------------------------------------------------------------ finished scans stay finished

  /** Of all statements only an exception handler's write takes a finished scan back, and it always does. */
  lemma OnlyHandlersUnfinish(s: System, settings: Settings, faults: Faults, step: Step)
    requires Enabled(s, settings, faults, step) && Finished(s.row.status)
    ensures !Finished(Apply(s, settings, faults, step).row.status) <==> step.WriteBack? && step.stored
  {
  }

  /** Until results are stored a holder's row is running; afterwards, and while anybody is about to
      write for the enrichment stage, it is finished. */
  ghost predicate Settling(s: System) {
    && (forall id | id in s.deliveries :: InStage(s.deliveries[id].phase, s.row.status))
    && (s.enrichers != map[] ==> Finished(s.row.status))
  }

  predicate InStage(phase: Phase, status: Status) {
    && (phase == Analyzing || phase.Recovering? ==> status == Running)
    && (phase == Settled ==> Finished(status))
  }

  lemma StepKeepsSettling(s: System, settings: Settings, faults: Faults, step: Step)
    requires settings.hardLimit <= settings.timeout + 60 && !faults.beforeClaim && !faults.afterStore
    requires Inv(s, settings) && Settling(s) && Enabled(s, settings, faults, step)
    ensures Settling(Apply(s, settings, faults, step))
    ensures Finished(s.row.status) ==> Finished(Apply(s, settings, faults, step).row.status)
  {
    var s' := Apply(s, settings, faults, step);
    forall id | id in s'.deliveries
      ensures InStage(s'.deliveries[id].phase, s'.row.status)
    {
      if id in s.deliveries {
        assert InStage(s.deliveries[id].phase, s.row.status) && Guarded(s, id);
        if step.ReapRunning? && Stale(s.row, settings.timeout + 60 + settings.grace, step.asOf) {
          StaleMeansUnheld(s, settings, settings.timeout + 60 + settings.grace, step.asOf, id);
        } else if step.Claim? && Claimable(s.row, settings, step.cutoffAt) {
          ClaimMeansUnheld(s, settings, step.cutoffAt, id);
        }
      }
    }
    if step.WriteBack? || step.QueueFails? || step.Store? {
      assert InStage(s.deliveries[step.id].phase, s.row.status);
    }
  }

  lemma {:induction false} RunSettles(start: int, settings: Settings, faults: Faults, steps: seq<Step>)
    requires settings.hardLimit <= settings.timeout + 60 && !faults.beforeClaim && !faults.afterStore
    requires After(start, settings, faults, steps).Some?
    ensures Settling(After(start, settings, faults, steps).value)
    decreases |steps|
  {
    if steps != [] {
      var earlier, last := steps[..|steps| - 1], steps[|steps| - 1];
      RunKeepsInv(start, settings, faults, earlier);
      RunSettles(start, settings, faults, earlier);
      StepKeepsSettling(After(start, settings, faults, earlier).value, settings, faults, last);
    }
  }

  /** The scan is finished after the first `k` steps of the run. */
  ghost predicate FinishedAfter(start: int, settings: Settings, faults: Faults, steps: seq<Step>, k: nat)
    requires k <= |steps|
  {
    After(start, settings, faults, steps[..k]).Some? && Finished(After(start, settings, faults, steps[..k]).value.row.status)
  }

  /** Stored results are final: no retry, kill, duplicate, reaper or enrichment write puts a finished
      scan back to queued, running or failed. */
  lemma {:induction false} FinishedIsFinal(start: int, settings: Settings, faults: Faults, steps: seq<Step>, k: nat)
    requires settings.hardLimit <= settings.timeout + 60 && !faults.beforeClaim && !faults.afterStore
    requires k <= |steps| && After(start, settings, faults, steps).Some?
    requires FinishedAfter(start, settings, faults, steps, k)
    ensures FinishedAfter(start, settings, faults, steps, |steps|)
    decreases |steps|
  {
    assert steps[..|steps|] == steps;
    if k < |steps| {
      var earlier, last := steps[..|steps| - 1], steps[|steps| - 1];
      assert earlier[..k] == steps[..k] && earlier[..|earlier|] == earlier;
      FinishedIsFinal(start, settings, faults, earlier, k);
      RunKeepsInv(start, settings, faults, earlier);
      RunSettles(start, settings, faults, earlier);
      StepKeepsSettling(After(start, settings, faults, earlier).value, settings, faults, last);
    }
  }

  /** A delivery's handler writes to a finished scan, and it is finished no more. */
  lemma Unfinish(settings: Settings, faults: Faults, steps: seq<Step>, s: System, id: nat)
    returns (more: seq<Step>, t: System)
    requires After(0, settings, faults, steps) == Some(s) && Finished(s.row.status)
    requires Current(s, id) && s.deliveries[id].phase.Recovering?
    ensures After(0, settings, faults, more) == Some(t) && !Finished(t.row.status)
    ensures |more| == |steps| + 1 && FinishedAfter(0, settings, faults, more, |steps|)
    ensures t.row.status == Target(s.deliveries[id].phase.retry)
  {
    more, t := Then(settings, faults, steps, s, WriteBack(id, true));
    assert more[..|steps|] == steps;
  }

  /** A delivery that was only queued behind the one that finished raises before its claim. */
  lemma UnclaimedRaisesUndo(settings: Settings, faults: Faults) returns (steps: seq<Step>, t: System)
    requires faults.beforeClaim
    ensures After(0, settings, faults, steps) == Some(t) && !Finished(t.row.status)
    ensures |steps| > 0 && FinishedAfter(0, settings, faults, steps, |steps| - 1)
  {
    var s;
    steps, s := FirstClaim(settings, faults);
    steps, s := Then(settings, faults, steps, s, Deliver(1, 0));
    steps, s := Then(settings, faults, steps, s, Store(0, Completed));
    steps, s := Then(settings, faults, steps, s, RaiseUnclaimed(1, Crash));
    steps, t := Unfinish(settings, faults, steps, s, 1);
  }

  /** An exception after the results were stored marks the finished scan queued or failed again. */
  lemma RaiseAfterStoreUndoes(settings: Settings, faults: Faults, status: Status, error: Error)
    returns (steps: seq<Step>, t: System)
    requires faults.afterStore && (status == AnalysisComplete || status == Completed || status == Partial)
    ensures After(0, settings, faults, steps) == Some(t) && !Finished(t.row.status)
    ensures |steps| > 0 && FinishedAfter(0, settings, faults, steps, |steps| - 1)
    ensures t.row.status == if error == Transient && settings.maxRetries > 0 then Queued else Failed
  {
    var s;
    steps, s := FirstClaim(settings, faults);
    steps, s := Then(settings, faults, steps, s, Store(0, status));
    steps, s := Then(settings, faults, steps, s, Raise(0, error));
    steps, t := Unfinish(settings, faults, steps, s, 0);
  }

  /** The second of two overlapping deliveries stores; the first then fails and marks the scan. */
  lemma LateTasksUndo(settings: Settings, faults: Faults) returns (steps: seq<Step>, t: System)
    requires settings.hardLimit > settings.timeout + 60
    ensures After(0, settings, faults, steps) == Some(t) && !Finished(t.row.status)
    ensures |steps| > 0 && FinishedAfter(0, settings, faults, steps, |steps| - 1)
  {
    var s;
    steps, s := LateTasksOverlap(settings, faults);
    steps, s := Then(settings, faults, steps, s, Store(1, Completed));
    steps, s := Then(settings, faults, steps, s, Raise(0, Crash));
    steps, t := Unfinish(settings, faults, steps, s, 0);
  }

  ghost predicate FinalFrom(start: int, settings: Settings, faults: Faults, steps: seq<Step>, k: nat)
    requires k <= |steps|
  {
    After(start, settings, faults, steps).Some? && FinishedAfter(start, settings, faults, steps, k) ==>
      FinishedAfter(start, settings, faults, steps, |steps|)
  }

  ghost predicate AlwaysFinal(settings: Settings, faults: Faults) {
    forall start, steps, k: nat | k <= |steps| :: FinalFrom(start, settings, faults, steps, k)
  }

  /** Finished scans stay finished in all runs if and only if nothing is raised before a claim or after
      results were stored, and tasks are killed no later than `timeout + 60` after they start. */
  lemma FinalExactly(settings: Settings, faults: Faults)
    ensures AlwaysFinal(settings, faults) <==>
              !faults.beforeClaim && !faults.afterStore && settings.hardLimit <= settings.timeout + 60
  {
    if !faults.beforeClaim && !faults.afterStore && settings.hardLimit <= settings.timeout + 60 {
      forall start, steps, k: nat | k <= |steps|
        ensures FinalFrom(start, settings, faults, steps, k)
      {
        if After(start, settings, faults, steps).Some? && FinishedAfter(start, settings, faults, steps, k) {
          FinishedIsFinal(start, settings, faults, steps, k);
        }
      }
    } else {
      var steps, t;
      if faults.beforeClaim {
        steps, t := UnclaimedRaisesUndo(settings, faults);
      } else if faults.afterStore {
        steps, t := RaiseAfterStoreUndoes(settings, faults, Completed, Crash);
      } else {
        steps, t := LateTasksUndo(settings, faults);
      }
      assert steps[..|steps|] == steps;
      assert !FinalFrom(0, settings, faults, steps, |steps| - 1);
    }
  }
}
