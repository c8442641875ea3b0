/** Any number of publishers racing for one destination, each of which may crash at any step. */
module PublishRuns {
  import opened Core
  import opened Publish

  type Pid = nat

  /** What one publisher wants published. */
  datatype Job = Job(outputs: Dir, manifest: Manifest)

  datatype Outcome = Returned | Raised

  /** Where a publisher stands. `Writing` names the outputs it has yet to write. */
  datatype Phase =
    | Starting
    | Writing(left: set<string>)
    | Staged
    | Cleaning(outcome: Outcome)
    | Finished(outcome: Outcome)
    | Crashed

  datatype State = State(destination: Option<Dir>, staging: map<Pid, Dir>, phases: map<Pid, Phase>)

  datatype Step =
    | Look(pid: Pid)
    | WriteOutput(pid: Pid, name: string)
    | WriteManifest(pid: Pid)
    | Rename(pid: Pid)
    | Fail(pid: Pid)
    | Clean(pid: Pid)
    | Crash(pid: Pid)

  ghost predicate GoodJobs(jobs: map<Pid, Job>, tools: Tools) {
    Sound(tools) && forall p :: p in jobs ==> GoodJob(jobs[p], tools)
  }

  ghost predicate GoodJob(job: Job, tools: Tools) {
    Lists(job.manifest, job.outputs, tools) && MANIFEST !in job.outputs
  }

  function PhaseOf(s: State, p: Pid): Phase {
    if p in s.phases then s.phases[p] else Starting
  }

  function FilesOf(s: State, p: Pid): Dir {
    if p in s.staging then s.staging[p] else map[]
  }

  /** What `_verify_existing` makes of the directory that is there. */
  ghost function Judged(dir: Dir, job: Job, tools: Tools): Outcome {
    if Verdict(dir, job.manifest, tools, Success(())) then Returned else Raised
  }

  /** A rename replaces nothing, or an empty directory. */
  predicate Replaceable(destination: Option<Dir>) {
    destination.None? || destination.value == map[]
  }

  predicate Enabled(s: State, step: Step, jobs: map<Pid, Job>) {
    step.pid in jobs &&
    var phase := PhaseOf(s, step.pid);
    match step
    case Look(p) => phase.Starting?
    case WriteOutput(p, name) => phase.Writing? && name in phase.left && name in jobs[p].outputs
    case WriteManifest(p) => phase == Writing({})
    case Rename(p) => phase.Staged?
    case Fail(p) => phase.Writing? || phase.Staged?
    case Clean(p) => phase.Cleaning?
    case Crash(p) => !phase.Finished?
  }

  ghost function Next(s: State, step: Step, jobs: map<Pid, Job>, tools: Tools): State
    requires Enabled(s, step, jobs)
  {
    var p := step.pid;
    var job, files := jobs[p], FilesOf(s, p);
    match step
    case Look(_) =>
      if s.destination.Some? then s.(phases := s.phases[p := Finished(Judged(s.destination.value, job, tools))])
      else s.(staging := s.staging[p := map[]], phases := s.phases[p := Writing(job.outputs.Keys)])
    case WriteOutput(_, name) =>
      s.(staging := s.staging[p := files[name := job.outputs[name]]],
         phases := s.phases[p := Writing(PhaseOf(s, p).left - {name})])
    case WriteManifest(_) =>
      s.(staging := s.staging[p := files[MANIFEST := tools.dumps(job.manifest)]], phases := s.phases[p := Staged])
    case Rename(_) =>
      if Replaceable(s.destination)
      then State(Some(files), s.staging - {p}, s.phases[p := Cleaning(Returned)])
      else s.(phases := s.phases[p := Cleaning(Judged(s.destination.value, job, tools))])
    case Fail(_) =>
      var outcome :=
        if PhaseOf(s, p).Staged? && s.destination.Some? then Judged(s.destination.value, job, tools) else Raised;
      s.(phases := s.phases[p := Cleaning(outcome)])
    case Clean(_) =>
      s.(staging := s.staging - {p}, phases := s.phases[p := Finished(PhaseOf(s, p).outcome)])
    case Crash(_) =>
      s.(phases := s.phases[p := Crashed])
  }

  /** The states a run reaches from a destination that is absent or holds whatever it holds. */
  ghost predicate Run(start: Option<Dir>, jobs: map<Pid, Job>, tools: Tools, steps: seq<Step>, s: State)
    decreases |steps|
  {
    if steps == [] then s == State(start, map[], map[])
    else
      var n := |steps| - 1;
      exists before :: Run(start, jobs, tools, steps[..n], before) && Enabled(before, steps[n], jobs)
                       && s == Next(before, steps[n], jobs, tools)
  }

  // ------------------------------------------------------------------------------ the invariant

  /** A staging directory holds exactly what its publisher has written so far. */
  ghost predicate StagingIsInStep(s: State, p: Pid, job: Job, start: Option<Dir>, tools: Tools) {
    match PhaseOf(s, p)
    case Writing(left) => start.None? && left <= job.outputs.Keys && FilesOf(s, p) == job.outputs - left
    case Staged => start.None? && FilesOf(s, p) == Snapshot(job.outputs, job.manifest, tools)
    case _ => true
  }

  ghost predicate Complete(dir: Dir, jobs: map<Pid, Job>, tools: Tools) {
    exists p :: p in jobs && dir == Snapshot(jobs[p].outputs, jobs[p].manifest, tools)
  }

  ghost predicate DestinationIsSound(destination: Option<Dir>, start: Option<Dir>, jobs: map<Pid, Job>, tools: Tools) {
    if start.Some? then destination == start else destination.None? || Complete(destination.value, jobs, tools)
  }

  ghost predicate ReturnIsAPromise(s: State, p: Pid, job: Job, tools: Tools) {
    PhaseOf(s, p) in {Cleaning(Returned), Finished(Returned)} ==>
      s.destination.Some? && Holds(s.destination.value, job.outputs, job.manifest, tools)
  }

  ghost predicate Invariant(s: State, start: Option<Dir>, jobs: map<Pid, Job>, tools: Tools) {
    && DestinationIsSound(s.destination, start, jobs, tools)
    && (forall p :: p in jobs ==> StagingIsInStep(s, p, jobs[p], start, tools))
    && (forall p :: p in jobs ==> ReturnIsAPromise(s, p, jobs[p], tools))
  }

  lemma JudgedMeansHolds(dir: Dir, job: Job, tools: Tools)
    requires Sound(tools) && GoodJob(job, tools)
    ensures Judged(dir, job, tools) == Returned <==> Holds(dir, job.outputs, job.manifest, tools)
  {
    if Verdict(dir, job.manifest, tools, Success(())) {
      AcceptedExactlyWhenItHoldsTheOutputs(dir, job.outputs, job.manifest, tools, Success(()));
    } else if Holds(dir, job.outputs, job.manifest, tools) {
      HoldsIsAccepted(dir, job, tools);
    }
  }

  lemma HoldsIsAccepted(dir: Dir, job: Job, tools: Tools)
    requires GoodJob(job, tools) && Holds(dir, job.outputs, job.manifest, tools)
    ensures Verdict(dir, job.manifest, tools, Success(()))
  {
    assert dir.Keys == (dir - {MANIFEST}).Keys + {MANIFEST};
    forall name | name in job.outputs ensures dir[name] == job.outputs[name] {
      assert (dir - {MANIFEST})[name] == job.outputs[name];
    }
  }

  /** The destination does not move unless it was absent, and then by one rename of a whole snapshot. */
  lemma TheDestinationMovesOnce(s: State, step: Step, start: Option<Dir>, jobs: map<Pid, Job>, tools: Tools)
    requires GoodJobs(jobs, tools) && Invariant(s, start, jobs, tools) && Enabled(s, step, jobs)
    ensures var t := Next(s, step, jobs, tools);
      || t.destination == s.destination
      || (s.destination.None? && step.Rename? && start.None?
          && t.destination == Some(Snapshot(jobs[step.pid].outputs, jobs[step.pid].manifest, tools)))
  {
    assert StagingIsInStep(s, step.pid, jobs[step.pid], start, tools);
    assert s.destination.Some? && start.None? ==> MANIFEST in s.destination.value;
  }

  lemma OthersKeepTheirStep(s: State, step: Step, p: Pid, start: Option<Dir>, jobs: map<Pid, Job>, tools: Tools)
    requires Enabled(s, step, jobs) && p in jobs && p != step.pid
    ensures var t := Next(s, step, jobs, tools); PhaseOf(t, p) == PhaseOf(s, p) && FilesOf(t, p) == FilesOf(s, p)
  {
  }

  lemma OwnStagingStaysInStep(s: State, step: Step, start: Option<Dir>, jobs: map<Pid, Job>, tools: Tools)
    requires GoodJobs(jobs, tools) && Enabled(s, step, jobs)
    requires StagingIsInStep(s, step.pid, jobs[step.pid], start, tools)
    requires DestinationIsSound(s.destination, start, jobs, tools)
    ensures StagingIsInStep(Next(s, step, jobs, tools), step.pid, jobs[step.pid], start, tools)
  {
    var job := jobs[step.pid];
    match step {
      case Look(_) => assert job.outputs - job.outputs.Keys == map[];
      case WriteOutput(p, name) => OneFileMore(job.outputs, PhaseOf(s, p).left, name);
      case WriteManifest(_) => assert job.outputs - {} == job.outputs;
      case _ =>
    }
  }

  lemma OwnReturnIsAPromise(s: State, step: Step, start: Option<Dir>, jobs: map<Pid, Job>, tools: Tools)
    requires GoodJobs(jobs, tools) && Invariant(s, start, jobs, tools) && Enabled(s, step, jobs)
    ensures ReturnIsAPromise(Next(s, step, jobs, tools), step.pid, jobs[step.pid], tools)
  {
    var job := jobs[step.pid];
    assert StagingIsInStep(s, step.pid, job, start, tools) && ReturnIsAPromise(s, step.pid, job, tools);
    ASnapshotHoldsItsOutputs(job.outputs, job.manifest, tools);
    if s.destination.Some? {
      JudgedMeansHolds(s.destination.value, job, tools);
    }
  }

  lemma StepKeepsTheInvariant(s: State, step: Step, start: Option<Dir>, jobs: map<Pid, Job>, tools: Tools)
    requires GoodJobs(jobs, tools) && Invariant(s, start, jobs, tools) && Enabled(s, step, jobs)
    ensures Invariant(Next(s, step, jobs, tools), start, jobs, tools)
  {
    var t := Next(s, step, jobs, tools);
    TheDestinationMovesOnce(s, step, start, jobs, tools);
    OwnStagingStaysInStep(s, step, start, jobs, tools);
    OwnReturnIsAPromise(s, step, start, jobs, tools);
    forall p | p in jobs
      ensures StagingIsInStep(t, p, jobs[p], start, tools) && ReturnIsAPromise(t, p, jobs[p], tools)
    {
      if p != step.pid {
        OthersKeepTheirStep(s, step, p, start, jobs, tools);
        assert StagingIsInStep(s, p, jobs[p], start, tools) && ReturnIsAPromise(s, p, jobs[p], tools);
      }
    }
  }

  lemma {:induction false} ReachableStatesAreSound(start: Option<Dir>, jobs: map<Pid, Job>, tools: Tools,
                                                   steps: seq<Step>, s: State)
    requires GoodJobs(jobs, tools) && Run(start, jobs, tools, steps, s)
    ensures Invariant(s, start, jobs, tools)
    decreases |steps|
  {
    if steps != [] {
      var n := |steps| - 1;
      var before :| Run(start, jobs, tools, steps[..n], before) && Enabled(before, steps[n], jobs)
                    && s == Next(before, steps[n], jobs, tools);
      ReachableStatesAreSound(start, jobs, tools, steps[..n], before);
      StepKeepsTheInvariant(before, steps[n], start, jobs, tools);
    }
  }

  // ------------------------------------------------------------------------------- the promises

  /** Absent, or one publisher's whole snapshot: no run leaves a part of one at the destination. */
  lemma TheDestinationIsAbsentOrComplete(jobs: map<Pid, Job>, tools: Tools, steps: seq<Step>, s: State)
    requires GoodJobs(jobs, tools) && Run(None, jobs, tools, steps, s)
    ensures s.destination.None? || Complete(s.destination.value, jobs, tools)
  {
    ReachableStatesAreSound(None, jobs, tools, steps, s);
  }

  lemma {:induction false} ARunEndsInOneState(start: Option<Dir>, jobs: map<Pid, Job>, tools: Tools, steps: seq<Step>,
                                              s: State, t: State)
    requires Run(start, jobs, tools, steps, s) && Run(start, jobs, tools, steps, t)
    ensures s == t
    decreases |steps|
  {
    hide Next, Enabled;
    if steps != [] {
      var n := |steps| - 1;
      var b :| Run(start, jobs, tools, steps[..n], b) && Enabled(b, steps[n], jobs)
        && s == Next(b, steps[n], jobs, tools);
      var c :| Run(start, jobs, tools, steps[..n], c) && Enabled(c, steps[n], jobs)
        && t == Next(c, steps[n], jobs, tools);
      ARunEndsInOneState(start, jobs, tools, steps[..n], b, c);
    }
  }

  /** Once something is at the destination, no later step of any publisher changes it. */
  lemma {:induction false} OncePresentItNeverChanges(start: Option<Dir>, jobs: map<Pid, Job>, tools: Tools,
                                   steps: seq<Step>, s: State, i: nat, earlier: State)
    requires GoodJobs(jobs, tools) && Run(start, jobs, tools, steps, s)
    requires i <= |steps| && Run(start, jobs, tools, steps[..i], earlier)
    ensures earlier.destination.Some? ==> s.destination == earlier.destination
    decreases |steps|
  {
    hide Next, Enabled, Invariant, GoodJobs;
    if i == |steps| {
      assert steps[..i] == steps;
      ARunEndsInOneState(start, jobs, tools, steps, s, earlier);
    } else {
      var n := |steps| - 1;
      var before :| Run(start, jobs, tools, steps[..n], before) && Enabled(before, steps[n], jobs)
                    && s == Next(before, steps[n], jobs, tools);
      assert steps[..n][..i] == steps[..i];
      OncePresentItNeverChanges(start, jobs, tools, steps[..n], before, i, earlier);
      ReachableStatesAreSound(start, jobs, tools, steps[..n], before);
      TheDestinationMovesOnce(before, steps[n], start, jobs, tools);
    }
  }

  /** A normal return says what is at the destination: the caller's own outputs and manifest. */
  lemma AReturnMeansItIsThere(start: Option<Dir>, jobs: map<Pid, Job>, tools: Tools, steps: seq<Step>, s: State, p: Pid)
    requires GoodJobs(jobs, tools) && Run(start, jobs, tools, steps, s)
    requires p in jobs && PhaseOf(s, p) == Finished(Returned)
    ensures s.destination.Some? && Holds(s.destination.value, jobs[p].outputs, jobs[p].manifest, tools)
  {
    ReachableStatesAreSound(start, jobs, tools, steps, s);
    assert ReturnIsAPromise(s, p, jobs[p], tools);
  }

  /** So two publishers that return wanted the same thing published. */
  lemma ReturnsAgree(start: Option<Dir>, jobs: map<Pid, Job>, tools: Tools, steps: seq<Step>, s: State, p: Pid, q: Pid)
    requires GoodJobs(jobs, tools) && Run(start, jobs, tools, steps, s)
    requires p in jobs && PhaseOf(s, p) == Finished(Returned)
    requires q in jobs && PhaseOf(s, q) == Finished(Returned)
    ensures jobs[p] == jobs[q]
  {
    AReturnMeansItIsThere(start, jobs, tools, steps, s, p);
    AReturnMeansItIsThere(start, jobs, tools, steps, s, q);
  }

  ghost predicate SameJobs(jobs: map<Pid, Job>) {
    forall p, q :: p in jobs && q in jobs ==> jobs[p] == jobs[q]
  }

  ghost predicate HasRaised(s: State, p: Pid) {
    PhaseOf(s, p) in {Cleaning(Raised), Finished(Raised)}
  }

  /** Publishers of one snapshot never report each other as a collision: whoever raises met a disk error. */
  lemma {:induction false} OneSnapshotNeverCollides(jobs: map<Pid, Job>, tools: Tools, steps: seq<Step>, s: State,
                                                    p: Pid)
    requires GoodJobs(jobs, tools) && SameJobs(jobs) && Run(None, jobs, tools, steps, s)
    requires p in jobs && HasRaised(s, p)
    ensures Fail(p) in steps
    decreases |steps|
  {
    var n := |steps| - 1;
    var before :| Run(None, jobs, tools, steps[..n], before) && Enabled(before, steps[n], jobs)
                  && s == Next(before, steps[n], jobs, tools);
    if HasRaised(before, p) {
      OneSnapshotNeverCollides(jobs, tools, steps[..n], before, p);
    } else if steps[n] != Fail(p) {
      ReachableStatesAreSound(None, jobs, tools, steps[..n], before);
      if steps[n].pid != p {
        OthersKeepTheirStep(before, steps[n], p, None, jobs, tools);
      } else if before.destination.Some? {
        var q :| q in jobs && before.destination.value == Snapshot(jobs[q].outputs, jobs[q].manifest, tools);
        ASnapshotHoldsItsOutputs(jobs[q].outputs, jobs[q].manifest, tools);
        JudgedMeansHolds(before.destination.value, jobs[p], tools);
      }
    }
  }

  // ------------------------------------------------------------------- one publisher, undisturbed

  lemma OneStepMore(start: Option<Dir>, jobs: map<Pid, Job>, tools: Tools, steps: seq<Step>, s: State, step: Step)
    requires Run(start, jobs, tools, steps, s) && Enabled(s, step, jobs)
    ensures Run(start, jobs, tools, steps + [step], Next(s, step, jobs, tools))
  {
    hide Next, Enabled;
    assert (steps + [step])[..|steps|] == steps;
  }

  lemma AWriteLeavesOneLess(jobs: map<Pid, Job>, tools: Tools, s: State, p: Pid, name: string)
    requires Invariant(s, None, jobs, tools) && p in jobs && PhaseOf(s, p).Writing? && name in PhaseOf(s, p).left
    ensures Enabled(s, WriteOutput(p, name), jobs)
    ensures var t := Next(s, WriteOutput(p, name), jobs, tools);
      PhaseOf(t, p) == Writing(PhaseOf(s, p).left - {name}) && t.destination == s.destination
  {
    assert StagingIsInStep(s, p, jobs[p], None, tools);
  }

  /** A publisher left alone writes all that it has left to write, and moves nothing else. */
  lemma {:induction false} WritesAlone(jobs: map<Pid, Job>, tools: Tools, steps: seq<Step>, s: State, p: Pid,
                                       left: set<string>)
    returns (more: seq<Step>, t: State)
    requires GoodJobs(jobs, tools) && Run(None, jobs, tools, steps, s) && p in jobs && PhaseOf(s, p) == Writing(left)
    ensures Run(None, jobs, tools, steps + more, t) && PhaseOf(t, p) == Writing({}) && t.destination == s.destination
    decreases |left|
  {
    hide Run, Next, GoodJobs;
    if left == {} {
      more, t := [], s;
      assert steps + more == steps;
    } else {
      ReachableStatesAreSound(None, jobs, tools, steps, s);
      var name :| name in left;
      var write := WriteOutput(p, name);
      AWriteLeavesOneLess(jobs, tools, s, p, name);
      OneStepMore(None, jobs, tools, steps, s, write);
      more, t := WritesAlone(jobs, tools, steps + [write], Next(s, write, jobs, tools), p, left - {name});
      assert steps + [write] + more == steps + ([write] + more);
      more := [write] + more;
    }
  }

  /** And so it can always finish: from any reachable state with nothing at the destination, a publisher
    * that has not started can, by its own steps alone, return with its whole snapshot there. */
  lemma APublisherAloneSucceeds(jobs: map<Pid, Job>, tools: Tools, steps: seq<Step>, s: State, p: Pid)
    returns (more: seq<Step>, t: State)
    requires GoodJobs(jobs, tools) && Run(None, jobs, tools, steps, s) && p in jobs
    requires PhaseOf(s, p).Starting? && s.destination.None?
    ensures Run(None, jobs, tools, steps + more, t) && PhaseOf(t, p) == Finished(Returned) && p !in t.staging
    ensures t.destination == Some(Snapshot(jobs[p].outputs, jobs[p].manifest, tools))
  {
    hide Run;
    OneStepMore(None, jobs, tools, steps, s, Look(p));
    var looked := Next(s, Look(p), jobs, tools);
    var writes, staged := WritesAlone(jobs, tools, steps + [Look(p)], looked, p, jobs[p].outputs.Keys);
    var before := steps + [Look(p)] + writes;
    t := FinishesAlone(jobs, tools, before, staged, p);
    more := [Look(p)] + writes + [WriteManifest(p), Rename(p), Clean(p)];
    assert before + [WriteManifest(p)] + [Rename(p)] + [Clean(p)] == steps + more;
  }

  lemma FinishesAlone(jobs: map<Pid, Job>, tools: Tools, steps: seq<Step>, s: State, p: Pid) returns (t: State)
    requires GoodJobs(jobs, tools) && Run(None, jobs, tools, steps, s) && p in jobs
    requires PhaseOf(s, p) == Writing({}) && s.destination.None?
    ensures Run(None, jobs, tools, steps + [WriteManifest(p)] + [Rename(p)] + [Clean(p)], t)
    ensures PhaseOf(t, p) == Finished(Returned) && p !in t.staging
    ensures t.destination == Some(Snapshot(jobs[p].outputs, jobs[p].manifest, tools))
  {
    hide Run;
    ReachableStatesAreSound(None, jobs, tools, steps, s);
    assert StagingIsInStep(s, p, jobs[p], None, tools);
    assert jobs[p].outputs - {} == jobs[p].outputs;
    var a := Next(s, WriteManifest(p), jobs, tools);
    OneStepMore(None, jobs, tools, steps, s, WriteManifest(p));
    var b := Next(a, Rename(p), jobs, tools);
    OneStepMore(None, jobs, tools, steps + [WriteManifest(p)], a, Rename(p));
    t := Next(b, Clean(p), jobs, tools);
    OneStepMore(None, jobs, tools, steps + [WriteManifest(p)] + [Rename(p)], b, Clean(p));
  }
}
