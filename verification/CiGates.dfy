/** ci_quality.py: the transitive closure of `needs`, and which build jobs wait for tests. */
module CiGates {
  import opened Paths
  import opened Wrappers

  /** A step of a job, by the two categories the gates look at. */
  datatype Item = Item(tests: bool, build: bool)

  datatype Job = Job(name: string, items: seq<Item>, needs: seq<string>, stage: Option<int>)

  /** Why a build job only runs after tests; `names` are the test jobs upstream of it. */
  datatype Reason = Upstream(names: set<string>) | SameJob | LaterStage

  datatype Gate = Gate(job: string, reason: Reason)

  // ------------------------------------------------------------------ what is meant

  /** `a` is a job of the file that needs `b`. Names of no job need nothing. */
  ghost function Needs(byName: map<string, Job>): (string, string) -> bool {
    (a, b) => a in byName && b in byName[a].needs
  }

  /** `name` is reached from `needs` by following any number of `needs`. */
  ghost predicate Required(needs: seq<string>, byName: map<string, Job>, name: string) {
    exists first :: first in needs && Reach(Needs(byName), first, name)
  }

  predicate Tests(job: Job) {
    exists item :: item in job.items && item.tests
  }

  /** `{job.name: job for job in jobs}`: of jobs with one name, the last. */
  function ByName(jobs: seq<Job>): map<string, Job> {
    if jobs == [] then map[] else ByName(jobs[..|jobs| - 1])[jobs[|jobs| - 1].name := jobs[|jobs| - 1]]
  }

  function TestJobs(jobs: seq<Job>): set<string> {
    set i | 0 <= i < |jobs| && Tests(jobs[i]) :: jobs[i].name
  }

  ghost predicate IsUpstream(jobs: seq<Job>, job: Job, name: string) {
    name in TestJobs(jobs) && Required(job.needs, ByName(jobs), name)
  }

  ghost function UpstreamTests(jobs: seq<Job>, job: Job): set<string> {
    set name | name in TestJobs(jobs) && IsUpstream(jobs, job, name)
  }

  /** Some test step comes before some build step. */
  ghost predicate TestedFirst(items: seq<Item>) {
    exists i, j :: 0 <= i < j < |items| && items[i].tests && items[j].build
  }

  ghost predicate StagedAfterTests(jobs: seq<Job>, job: Job) {
    && job.stage.Some?
    && exists i :: 0 <= i < |jobs| && jobs[i].name in TestJobs(jobs)
                && jobs[i].stage.Some? && jobs[i].stage.value < job.stage.value
  }

  ghost predicate Builds(job: Job) {
    exists item :: item in job.items && item.build
  }

  ghost function GateOf(jobs: seq<Job>, job: Job): Option<Reason> {
    if !Builds(job) then None
    else if exists name :: IsUpstream(jobs, job, name) then Some(Upstream(UpstreamTests(jobs, job)))
    else if TestedFirst(job.items) then Some(SameJob)
    else if StagedAfterTests(jobs, job) then Some(LaterStage)
    else None
  }

  ghost function Gates(jobs: seq<Job>, upTo: nat): seq<Gate>
    requires upTo <= |jobs|
  {
    if upTo == 0 then [] else
      Gates(jobs, upTo - 1) +
      match GateOf(jobs, jobs[upTo - 1]) case None => [] case Some(reason) => [Gate(jobs[upTo - 1].name, reason)]
  }

  // ------------------------------------------------------------------ the worklist

  ghost function Universe(needs: seq<string>, byName: map<string, Job>): set<string> {
    (set n | n in needs) + (set a, b | a in byName && b in byName[a].needs :: b)
  }

  /** The names found so far: seen or waiting, all required, and closed except for what waits. */
  ghost predicate Closing(needs: seq<string>, byName: map<string, Job>, seen: set<string>, stack: seq<string>) {
    && (forall n | n in needs :: n in seen || n in stack)
    && (forall n | n in seen || n in stack :: Required(needs, byName, n) && n in Universe(needs, byName))
    && (forall a, b | a in seen && Needs(byName)(a, b) :: b in seen || b in stack)
  }

  lemma ClosingStep(needs: seq<string>, byName: map<string, Job>, seen: set<string>, stack: seq<string>)
    requires Closing(needs, byName, seen, stack) && stack != []
    ensures var name, rest := stack[|stack| - 1], stack[..|stack| - 1];
      && name in Universe(needs, byName)
      && (name in seen ==> Closing(needs, byName, seen, rest))
      && (name !in seen && name !in byName ==> Closing(needs, byName, seen + {name}, rest))
      && (name !in seen && name in byName ==> Closing(needs, byName, seen + {name}, rest + byName[name].needs))
  {
    var name, rest := stack[|stack| - 1], stack[..|stack| - 1];
    assert stack == rest + [name] && name in stack;
    var first :| first in needs && Reach(Needs(byName), first, name);
    var stack' := if name in seen || name !in byName then rest else rest + byName[name].needs;
    forall n | n in seen + {name} || n in stack'
      ensures Required(needs, byName, n) && n in Universe(needs, byName)
    {
      if n !in seen && n !in stack {
        assert Needs(byName)(name, n);
        ReachStep(Needs(byName), name, n);
        ReachTrans(Needs(byName), first, name, n);
      }
    }
  }

  lemma Shrinks(universe: set<string>, seen: set<string>, name: string)
    requires name in universe
    ensures name !in seen ==> universe - (seen + {name}) < universe - seen
  {
    assert name !in seen ==> name in universe - seen;
  }

  lemma ClosedIsRequired(needs: seq<string>, byName: map<string, Job>, seen: set<string>)
    requires Closing(needs, byName, seen, [])
    ensures forall n :: n in seen <==> Required(needs, byName, n)
  {
    forall n | Required(needs, byName, n)
      ensures n in seen
    {
      var first :| first in needs && Reach(Needs(byName), first, n);
      ReachCarries(Needs(byName), x => x in seen, first, n);
    }
  }

  /** `_ancestors`: terminates on cyclic and dangling `needs`, and returns their exact closure. */
  method Ancestors(job: Job, byName: map<string, Job>) returns (seen: set<string>)
    ensures forall n :: n in seen <==> Required(job.needs, byName, n)
  {
    seen := {};
    var stack := job.needs;
    forall n | n in stack
      ensures Required(job.needs, byName, n)
    {
      ReachSelf(Needs(byName), n);
    }
    ghost var universe := Universe(job.needs, byName);
    while stack != []
      invariant Closing(job.needs, byName, seen, stack)
      decreases universe - seen, |stack|
    {
      ClosingStep(job.needs, byName, seen, stack);
      var name := stack[|stack| - 1];
      Shrinks(universe, seen, name);
      stack := stack[..|stack| - 1];
      if name in seen {
        continue;
      }
      seen := seen + {name};
      if name in byName {
        stack := stack + byName[name].needs;
      }
    }
    ClosedIsRequired(job.needs, byName, seen);
  }

  method NamedJobs(jobs: seq<Job>) returns (byName: map<string, Job>)
    ensures byName == ByName(jobs)
  {
    byName := map[];
    for i := 0 to |jobs|
      invariant byName == ByName(jobs[..i])
    {
      assert jobs[..i + 1][..i] == jobs[..i];
      byName := byName[jobs[i].name := jobs[i]];
    }
    assert jobs[..|jobs|] == jobs;
  }

  /** The first test step and the last build step of a job, as positions. */
  method Positions(items: seq<Item>) returns (firstTest: Option<nat>, lastBuild: Option<nat>)
    ensures match firstTest case None => forall i | 0 <= i < |items| :: !items[i].tests
            case Some(t) => t < |items| && items[t].tests && forall i | 0 <= i < t :: !items[i].tests
    ensures match lastBuild case None => forall i | 0 <= i < |items| :: !items[i].build
            case Some(b) => b < |items| && items[b].build && forall i | b < i < |items| :: !items[i].build
  {
    firstTest, lastBuild := None, None;
    for k := 0 to |items|
      invariant match firstTest case None => forall i | 0 <= i < k :: !items[i].tests
                case Some(t) => t < k && items[t].tests && forall i | 0 <= i < t :: !items[i].tests
      invariant match lastBuild case None => forall i | 0 <= i < k :: !items[i].build
                case Some(b) => b < k && items[b].build && forall i | b < i < k :: !items[i].build
    {
      if items[k].tests && firstTest.None? {
        firstTest := Some(k);
      }
      if items[k].build {
        lastBuild := Some(k);
      }
    }
  }

  method EarlierStage(jobs: seq<Job>, job: Job, testJobs: set<string>) returns (after: bool)
    requires testJobs == TestJobs(jobs)
    ensures after <==> StagedAfterTests(jobs, job)
  {
    after := false;
    if job.stage.Some? {
      for i := 0 to |jobs|
        invariant after <==> exists k :: 0 <= k < i && jobs[k].name in testJobs
                                      && jobs[k].stage.Some? && jobs[k].stage.value < job.stage.value
      {
        if jobs[i].name in testJobs && jobs[i].stage.Some? && jobs[i].stage.value < job.stage.value {
          after := true;
        }
      }
    }
  }

  /** `gated_jobs`: the build jobs that wait for tests, in file order, each with its first reason. A
      "needs" reason is given exactly to the build jobs with a test job in their closure of `needs`. */
  method GatedJobs(jobs: seq<Job>) returns (gated: seq<Gate>)
    ensures gated == Gates(jobs, |jobs|)
  {
    var byName := NamedJobs(jobs);
    var testJobs := TestJobs(jobs);
    gated := [];
    for k := 0 to |jobs|
      invariant gated == Gates(jobs, k)
    {
      var job := jobs[k];
      var firstTest, lastBuild := Positions(job.items);
      assert lastBuild.Some? ==> job.items[lastBuild.value] in job.items;
      if lastBuild.None? {
        assert !Builds(job);
        continue;
      }
      var ancestors := Ancestors(job, byName);
      var upstream := ancestors * testJobs;
      assert upstream == UpstreamTests(jobs, job);
      assert upstream != {} <==> exists name :: IsUpstream(jobs, job, name) by {
        if name :| name in upstream {
          assert IsUpstream(jobs, job, name);
        }
        if name :| IsUpstream(jobs, job, name) {
          assert name in upstream;
        }
      }
      if upstream != {} {
        gated := gated + [Gate(job.name, Upstream(upstream))];
        continue;
      }
      assert firstTest.Some? && firstTest.value < lastBuild.value <==> TestedFirst(job.items);
      if firstTest.Some? && firstTest.value < lastBuild.value {
        gated := gated + [Gate(job.name, SameJob)];
        continue;
      }
      var after := EarlierStage(jobs, job, testJobs);
      if after {
        gated := gated + [Gate(job.name, LaterStage)];
      }
    }
  }

  // ------------------------------------------------------------------ what the gates say

  /** Some job of this name has a test step. */
  ghost predicate IsTestJob(jobs: seq<Job>, name: string) {
    exists i, j :: 0 <= i < |jobs| && 0 <= j < |jobs[i].items| && jobs[i].name == name && jobs[i].items[j].tests
  }

  /** `jobs[i]` is the last job of its name. */
  ghost predicate LastNamed(jobs: seq<Job>, i: nat, name: string) {
    i < |jobs| && jobs[i].name == name && forall k | i < k < |jobs| :: jobs[k].name != name
  }

  ghost predicate NeedsDirectly(jobs: seq<Job>, a: string, b: string) {
    exists i: nat :: LastNamed(jobs, i, a) && b in jobs[i].needs
  }

  /** `name` is needed by a job that is needed by a job ... that `job` needs. */
  ghost predicate WaitsFor(jobs: seq<Job>, job: Job, name: string) {
    exists p: seq<string> :: p != [] && p[0] in job.needs && p[|p| - 1] == name && IsChain(jobs, p)
  }

  ghost predicate IsChain(jobs: seq<Job>, p: seq<string>) {
    forall i | 0 <= i < |p| - 1 :: NeedsDirectly(jobs, p[i], p[i + 1])
  }

  ghost predicate WaitsForTests(jobs: seq<Job>, job: Job) {
    exists name :: IsTestJob(jobs, name) && WaitsFor(jobs, job, name)
  }

  ghost predicate TestThenBuild(job: Job) {
    exists i, j :: 0 <= i < j < |job.items| && job.items[i].tests && job.items[j].build
  }

  ghost predicate StageAfterTests(jobs: seq<Job>, job: Job) {
    && job.stage.Some?
    && (exists k :: 0 <= k < |jobs| && IsTestJob(jobs, jobs[k].name)
                    && jobs[k].stage.Some? && jobs[k].stage.value < job.stage.value)
  }

  ghost predicate HasBuild(job: Job) {
    exists j :: 0 <= j < |job.items| && job.items[j].build
  }

  /** The names are those of the test jobs that `job` waits for, and there are some. */
  ghost predicate AreTestsBefore(jobs: seq<Job>, job: Job, names: set<string>) {
    names != {} && forall name :: name in names <==> IsTestJob(jobs, name) && WaitsFor(jobs, job, name)
  }

  /** The reason why a build job waits for tests: the jobs it needs, else its own steps, else stages. */
  ghost predicate HasReason(jobs: seq<Job>, job: Job, reason: Reason) {
    && HasBuild(job)
    && match reason
       case Upstream(names) => AreTestsBefore(jobs, job, names)
       case SameJob => !WaitsForTests(jobs, job) && TestThenBuild(job)
       case LaterStage => !WaitsForTests(jobs, job) && !TestThenBuild(job) && StageAfterTests(jobs, job)
  }

  lemma TestJobMeans(jobs: seq<Job>, name: string)
    ensures name in TestJobs(jobs) <==> IsTestJob(jobs, name)
  {
    if i :| 0 <= i < |jobs| && Tests(jobs[i]) && jobs[i].name == name {
      var item :| item in jobs[i].items && item.tests;
      var j :| 0 <= j < |jobs[i].items| && jobs[i].items[j] == item;
    }
    if i, j :| 0 <= i < |jobs| && 0 <= j < |jobs[i].items| && jobs[i].name == name && jobs[i].items[j].tests {
      assert jobs[i].items[j] in jobs[i].items && Tests(jobs[i]);
    }
  }

  lemma {:induction false} ByNameMeans(jobs: seq<Job>, name: string)
    ensures name in ByName(jobs) <==> exists i: nat :: LastNamed(jobs, i, name)
    ensures forall i: nat | LastNamed(jobs, i, name) :: name in ByName(jobs) && ByName(jobs)[name] == jobs[i]
  {
    if jobs != [] {
      var n := |jobs| - 1;
      ByNameMeans(jobs[..n], name);
      if jobs[n].name == name {
        assert LastNamed(jobs, n, name);
      } else {
        forall i: nat
          ensures LastNamed(jobs, i, name) <==> LastNamed(jobs[..n], i, name)
        {
          if LastNamed(jobs[..n], i, name) {
            assert forall k | i < k < n :: jobs[..n][k] == jobs[k];
          }
        }
      }
    }
  }

  lemma NeedsMeans(jobs: seq<Job>, a: string, b: string)
    ensures Needs(ByName(jobs))(a, b) <==> NeedsDirectly(jobs, a, b)
  {
    ByNameMeans(jobs, a);
  }

  lemma WaitsForMeans(jobs: seq<Job>, job: Job, name: string)
    ensures Required(job.needs, ByName(jobs), name) <==> WaitsFor(jobs, job, name)
  {
    var edge := Needs(ByName(jobs));
    forall a, b
      ensures edge(a, b) <==> NeedsDirectly(jobs, a, b)
    {
      NeedsMeans(jobs, a, b);
    }
    if first :| first in job.needs && Reach(edge, first, name) {
      var p :| IsPath(edge, p, first, name);
      assert p != [] && p[0] in job.needs && IsChain(jobs, p);
    }
    if p: seq<string> :| p != [] && p[0] in job.needs && p[|p| - 1] == name && IsChain(jobs, p) {
      assert IsPath(edge, p, p[0], name);
    }
  }

  lemma UpstreamMeans(jobs: seq<Job>, job: Job)
    ensures forall name :: IsUpstream(jobs, job, name) <==> IsTestJob(jobs, name) && WaitsFor(jobs, job, name)
  {
    forall name
      ensures IsUpstream(jobs, job, name) <==> IsTestJob(jobs, name) && WaitsFor(jobs, job, name)
    {
      TestJobMeans(jobs, name);
      WaitsForMeans(jobs, job, name);
    }
  }

  lemma WaitsForTestsMeans(jobs: seq<Job>, job: Job)
    ensures (exists name :: IsUpstream(jobs, job, name)) <==> WaitsForTests(jobs, job)
  {
    UpstreamMeans(jobs, job);
    if name :| IsTestJob(jobs, name) && WaitsFor(jobs, job, name) {
      assert IsUpstream(jobs, job, name);
    }
  }

  lemma NamesMean(jobs: seq<Job>, job: Job, names: set<string>)
    ensures AreTestsBefore(jobs, job, names) <==> WaitsForTests(jobs, job) && names == UpstreamTests(jobs, job)
  {
    UpstreamMeans(jobs, job);
    assert forall name :: name in UpstreamTests(jobs, job) <==> IsUpstream(jobs, job, name);
    if AreTestsBefore(jobs, job, names) {
      var name :| name in names;
    }
    if name :| IsTestJob(jobs, name) && WaitsFor(jobs, job, name) {
      assert name in UpstreamTests(jobs, job);
    }
  }

  lemma BuildsMeans(job: Job)
    ensures Builds(job) <==> HasBuild(job)
  {
    if j :| 0 <= j < |job.items| && job.items[j].build {
      assert job.items[j] in job.items;
    }
  }

  lemma StageMeans(jobs: seq<Job>, job: Job)
    ensures StagedAfterTests(jobs, job) <==> StageAfterTests(jobs, job)
  {
    forall name
      ensures name in TestJobs(jobs) <==> IsTestJob(jobs, name)
    {
      TestJobMeans(jobs, name);
    }
  }

  /** Every build job is gated for its first reason, and for no other. */
  lemma GateMeans(jobs: seq<Job>, job: Job, reason: Reason)
    ensures GateOf(jobs, job) == Some(reason) <==> HasReason(jobs, job, reason)
  {
    BuildsMeans(job);
    WaitsForTestsMeans(jobs, job);
    StageMeans(jobs, job);
    assert TestedFirst(job.items) <==> TestThenBuild(job);
    if reason.Upstream? {
      NamesMean(jobs, job, reason.names);
    }
  }

  ghost predicate IsGated(jobs: seq<Job>, job: Job) {
    exists reason :: HasReason(jobs, job, reason)
  }

  /** The gate names the job at position `i` and its reason. */
  ghost predicate IsGateOf(jobs: seq<Job>, gate: Gate, i: nat) {
    i < |jobs| && gate.job == jobs[i].name && HasReason(jobs, jobs[i], gate.reason)
  }

  /** `at` lists the positions of the gated jobs among the first `upTo`, in file order. */
  ghost predicate GatedAt(jobs: seq<Job>, upTo: nat, gates: seq<Gate>, at: seq<nat>)
    requires upTo <= |jobs|
  {
    && |at| == |gates|
    && (forall k | 0 <= k < |at| :: at[k] < upTo && IsGateOf(jobs, gates[k], at[k]))
    && (forall k, l | 0 <= k < l < |at| :: at[k] < at[l])
    && (forall i: nat | i < upTo && IsGated(jobs, jobs[i]) :: i in at)
  }

  lemma GatedNext(jobs: seq<Job>, upTo: nat, gates: seq<Gate>, at: seq<nat>, gate: Gate)
    requires upTo < |jobs| && GatedAt(jobs, upTo, gates, at) && IsGateOf(jobs, gate, upTo)
    ensures GatedAt(jobs, upTo + 1, gates + [gate], at + [upTo])
  {
    forall i: nat | i < upTo + 1 && IsGated(jobs, jobs[i])
      ensures i in at + [upTo]
    {
      assert i < upTo ==> i in at;
    }
  }

  lemma NotGatedNext(jobs: seq<Job>, upTo: nat, gates: seq<Gate>, at: seq<nat>)
    requires upTo < |jobs| && GatedAt(jobs, upTo, gates, at) && !IsGated(jobs, jobs[upTo])
    ensures GatedAt(jobs, upTo + 1, gates, at)
  {
  }

  lemma GatedMeans(jobs: seq<Job>, job: Job)
    ensures IsGated(jobs, job) <==> GateOf(jobs, job).Some?
  {
    if reason :| HasReason(jobs, job, reason) {
      GateMeans(jobs, job, reason);
    }
    if GateOf(jobs, job).Some? {
      GateMeans(jobs, job, GateOf(jobs, job).value);
    }
  }

  lemma GatesGrow(jobs: seq<Job>, n: nat) returns (gate: Option<Gate>)
    requires n < |jobs|
    ensures gate.None? ==> !IsGated(jobs, jobs[n]) && Gates(jobs, n + 1) == Gates(jobs, n)
    ensures gate.Some? ==> IsGateOf(jobs, gate.value, n) && Gates(jobs, n + 1) == Gates(jobs, n) + [gate.value]
  {
    GatedMeans(jobs, jobs[n]);
    gate := match GateOf(jobs, jobs[n]) case None => None case Some(reason) => Some(Gate(jobs[n].name, reason));
    if gate.Some? {
      GateMeans(jobs, jobs[n], gate.value.reason);
    }
  }

  /** The gates are exactly the jobs with a reason, each once and with it, in file order. */
  lemma {:induction false} GatesInFileOrder(jobs: seq<Job>, upTo: nat) returns (at: seq<nat>)
    requires upTo <= |jobs|
    ensures GatedAt(jobs, upTo, Gates(jobs, upTo), at)
  {
    at := [];
    if upTo > 0 {
      at := GatesInFileOrder(jobs, upTo - 1);
      var gate := GatesGrow(jobs, upTo - 1);
      if gate.Some? {
        GatedNext(jobs, upTo - 1, Gates(jobs, upTo - 1), at, gate.value);
        at := at + [upTo - 1];
      } else {
        NotGatedNext(jobs, upTo - 1, Gates(jobs, upTo - 1), at);
      }
    }
  }

  lemma ReasonNeedsTest(jobs: seq<Job>, i: nat, reason: Reason)
    requires i < |jobs| && HasReason(jobs, jobs[i], reason)
    ensures exists name :: IsTestJob(jobs, name)
  {
    if reason.Upstream? {
      var name :| name in reason.names;
      assert IsTestJob(jobs, name);
    } else if reason.SameJob? {
      assert IsTestJob(jobs, jobs[i].name);
    }
  }

  /** Without a test step anywhere nothing is gated. */
  lemma NoTestsNoGates(jobs: seq<Job>)
    requires forall name :: !IsTestJob(jobs, name)
    ensures Gates(jobs, |jobs|) == []
  {
    var at := GatesInFileOrder(jobs, |jobs|);
    if at != [] {
      assert IsGateOf(jobs, Gates(jobs, |jobs|)[0], at[0]);
      ReasonNeedsTest(jobs, at[0], Gates(jobs, |jobs|)[0].reason);
    }
  }
}
