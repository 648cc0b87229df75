/**
 * Every capture ends: with no new callers, documents, edits or crashes the callers at hand take a
 * bounded number of steps, in whatever order, and none is left behind.
 */
module CaptureProgress {
  import opened CaptureSteps
  import opened CaptureSolo
  import opened CaptureSystem

  /** The steps of the callers at hand, a panic included. */
  predicate Works(l: Label) { l.Acquire? || l.Advance? || l.Release? || l.Panic? }

  function JobCost(job: Job): nat {
    match job
    case Waiting(_) => 20
    case Running(_, pc) => Rank(pc) + 1
  }

  ghost function JobsCost(jobs: map<ThreadId, Job>): nat
    decreases |jobs|
  {
    if jobs == map[] then 0
    else
      var t :| t in jobs;
      Smaller(jobs, t);
      JobCost(jobs[t]) + JobsCost(jobs - {t})
  }

  lemma Smaller(jobs: map<ThreadId, Job>, t: ThreadId)
    requires t in jobs
    ensures |jobs - {t}| < |jobs|
  {
    assert jobs.Keys == (jobs - {t}).Keys + {t};
    assert |jobs.Keys| == |jobs| && |(jobs - {t}).Keys| == |jobs - {t}|;
  }

  lemma {:induction false} JobsCostOf(jobs: map<ThreadId, Job>, t: ThreadId)
    requires t in jobs
    ensures JobsCost(jobs) == JobCost(jobs[t]) + JobsCost(jobs - {t})
    decreases |jobs|
  {
    var u :| u in jobs && JobsCost(jobs) == JobCost(jobs[u]) + JobsCost(jobs - {u});
    if u != t {
      Smaller(jobs, u);
      Smaller(jobs, t);
      JobsCostOf(jobs - {u}, t);
      JobsCostOf(jobs - {t}, u);
      assert jobs - {u} - {t} == jobs - {t} - {u};
    }
  }

  lemma JobsCostOfUpdate(jobs: map<ThreadId, Job>, t: ThreadId, job: Job)
    requires t in jobs
    ensures JobsCost(jobs[t := job]) + JobCost(jobs[t]) == JobsCost(jobs) + JobCost(job)
  {
    JobsCostOf(jobs, t);
    JobsCostOf(jobs[t := job], t);
    assert jobs[t := job] - {t} == jobs - {t};
  }

  lemma WorkCosts(s: System, l: Label)
    requires Enabled(true, s, l) && Works(l)
    ensures JobsCost(Next(s, l).jobs) < JobsCost(s.jobs)
  {
    hide LocalStep;
    match l
    case Acquire(t) => JobsCostOfUpdate(s.jobs, t, Running(s.jobs[t].doc, Inspect));
    case Advance(t, c) =>
      StepsTerminate(Here(s, t), c);
      JobsCostOfUpdate(s.jobs, t, Running(s.jobs[t].doc, LocalStep(Here(s, t), c).pc));
    case Release(t) => JobsCostOf(s.jobs, t);
    case Panic(t) => JobsCostOf(s.jobs, t);
  }

  /** While any caller is left, some caller can take the lock, move on or leave, without a panic. */
  lemma SomebodyWorks(s: System)
    requires Inv(s) && s.jobs != map[]
    ensures exists l :: Enabled(true, s, l) && Works(l) && !l.Panic?
  {
    var t :| t in s.jobs;
    if s.jobs[t].Running? {
      RunnerWorks(s, t);
    } else if Enabled(true, s, Acquire(t)) {
      assert Works(Acquire(t));
    } else {
      NoDeadlock(s, t);
      var u :| u in s.jobs && s.jobs[u].Running? && s.jobs[u].doc == s.jobs[t].doc;
      RunnerWorks(s, u);
    }
  }

  lemma RunnerWorks(s: System, t: ThreadId)
    requires Inv(s) && t in s.jobs && s.jobs[t].Running?
    ensures exists l :: Enabled(true, s, l) && Works(l) && !l.Panic?
  {
    if s.jobs[t].pc.Done? {
      assert Enabled(true, s, Release(t)) && Works(Release(t));
    } else {
      var c := SomeChoice(s.jobs[t].pc);
      assert Enabled(true, s, Advance(t, c)) && Works(Advance(t, c));
    }
  }

  /**
   * EVERY CAPTURE ENDS. From any reachable state, any run of the callers' own steps is bounded, and one
   * that cannot be extended has left no caller waiting or inside a capture.
   */
  lemma {:induction false} CapturesEnd(s: System, run: seq<Label>)
    requires Inv(s) && Runs(true, s, run) && forall l | l in run :: Works(l)
    ensures |run| + JobsCost(End(s, run).jobs) <= JobsCost(s.jobs)
    ensures End(s, run).jobs == map[] || exists l :: Enabled(true, End(s, run), l) && Works(l) && !l.Panic?
    decreases run
  {
    if run == [] {
      if s.jobs != map[] { SomebodyWorks(s); }
    } else {
      assert Works(run[0]);
      WorkCosts(s, run[0]);
      NextKeepsInv(s, run[0]);
      CapturesEnd(Next(s, run[0]), run[1..]);
    }
  }

  /** So from any reachable state every caller can be served, without a panic. */
  lemma {:induction false} CapturesComplete(s: System) returns (run: seq<Label>)
    requires Inv(s)
    ensures Runs(true, s, run) && (forall l | l in run :: Works(l) && !l.Panic?) && End(s, run).jobs == map[]
    decreases JobsCost(s.jobs)
  {
    if s.jobs == map[] {
      run := [];
    } else {
      SomebodyWorks(s);
      var l :| Enabled(true, s, l) && Works(l) && !l.Panic?;
      WorkCosts(s, l);
      NextKeepsInv(s, l);
      var rest := CapturesComplete(Next(s, l));
      run := [l] + rest;
      assert run[1..] == rest;
    }
  }
}
