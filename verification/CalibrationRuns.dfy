/**
 What whole calibration runs guarantee: a run that passes has asked and passed everything it should, in order, and
 its reports and figures of merit are those of its log.
 */
module CalibrationRuns {
  import opened Modular
  import Deskew
  import opened Calibrate
  import opened CalibrationLog

  // ---- what backs a stage that passed --------------------------------------------------------------

  /**
   The events from event `n` to the end of the log are those of a stage that passed: a VFIFO stage ends in a search
   of its group that works, a write stage is one write that passes, a read-after-write stage is one successful
   centring for each shadow register in use, and the search for the read latency keeps no event.
   */
  ghost predicate Backs(cfg: Config, log: seq<Event>, n: nat, stage: Stage) {
    match stage
    case Vfifo(g) => Phased(cfg, g, log, n, cfg.attempts, 0) && exists i: nat :: WorksFor(cfg, log, n, g, i)
    case Writes(sr, g) => |log| == n + 1 && IsPassedWrite(log[n], sr, g)
    case VfifoEnd(g) =>
      |log| == n + InUse(cfg.skipShadowRegs) && OnlyCentring(FromVfifoEnd(g), log, n) && AllCentre(log, n)
    case Lfifo => |log| == n
  }

  ghost predicate WorksFor(cfg: Config, log: seq<Event>, n: nat, g: nat, i: nat) {
    EndsInWorking(cfg, log, n, i) && log[i].at.group == g
  }

  predicate IsPassedWrite(e: Event, sr: nat, g: nat) {
    e.Write? && e.sr == sr && e.group == g && e.written.Passed()
  }

  /** The events from event `n` to the end of the log are those of a stage that failed. */
  ghost predicate Fails(cfg: Config, log: seq<Event>, n: nat, stage: Stage) {
    match stage
    case Vfifo(g) => Phased(cfg, g, log, n, cfg.attempts, 0) && NoneWorks(log, n, |log|)
    case Writes(sr, g) =>
      |log| == n + 1 && log[n].Write? && log[n].sr == sr && log[n].group == g && !log[n].written.Passed()
    case VfifoEnd(g) =>
      |log| == n + InUse(cfg.skipShadowRegs) && OnlyCentring(FromVfifoEnd(g), log, n) && !AllCentre(log, n)
    case Lfifo => |log| == n
  }

  /** What a stage reports that fails with the events from event `n` on. */
  function FailureOf(stage: Stage, log: seq<Event>, n: nat): Report {
    match stage
    case Vfifo(g) => Report(g, STAGE_VFIFO, SubstageOf(log, n))
    case Writes(_, g) => Report(g, STAGE_WRITES, SUBSTAGE_WRITES_CENTER)
    case VfifoEnd(g) => Report(g, STAGE_VFIFO_AFTER_WRITES, SUBSTAGE_VFIFO_CENTER)
    case Lfifo => Report(0xff, STAGE_LFIFO, SUBSTAGE_READ_LATENCY)
  }

  /** The log is made of the events of the stages passed, in order. */
  ghost predicate Backed(cfg: Config, log: seq<Event>, passed: seq<Stage>)
    decreases |passed|
  {
    if passed == [] then log == [] else exists n: nat :: BackedLast(cfg, log, passed, n)
  }

  /** The last stage passed has the events from event `n` on. */
  ghost predicate BackedLast(cfg: Config, log: seq<Event>, passed: seq<Stage>, n: nat)
    requires passed != []
    decreases |passed|, 0
  {
    var last := |passed| - 1;
    n <= |log| && Backs(cfg, log, n, passed[last]) && Backed(cfg, log[..n], passed[..last])
  }

  lemma BackedMore(cfg: Config, log: seq<Event>, passed: seq<Stage>, log': seq<Event>, stage: Stage)
    requires Backed(cfg, log, passed) && log <= log' && Backs(cfg, log', |log|, stage)
    ensures Backed(cfg, log', passed + [stage])
  {
    var passed' := passed + [stage];
    assert passed'[..|passed|] == passed && log'[..|log|] == log;
    assert BackedLast(cfg, log', passed', |log|);
  }

  /** The events of stage number `k`: from `n` to `m`, after those of all stages before it. */
  ghost predicate HasEvents(cfg: Config, log: seq<Event>, passed: seq<Stage>, k: nat, n: nat, m: nat) {
    && k < |passed| && n <= m <= |log|
    && Backs(cfg, log[..m], n, passed[k]) && Backed(cfg, log[..n], passed[..k])
  }

  lemma {:induction false} StageHasEvents(cfg: Config, log: seq<Event>, passed: seq<Stage>, k: nat)
      returns (n: nat, m: nat)
    requires Backed(cfg, log, passed) && k < |passed|
    ensures HasEvents(cfg, log, passed, k, n, m)
    decreases |passed|
  {
    var last := |passed| - 1;
    n :| BackedLast(cfg, log, passed, n);
    if k == last {
      m := |log|;
      assert log[..m] == log;
    } else {
      var end := n;
      n, m := StageHasEvents(cfg, log[..end], passed[..last], k);
      assert log[..end][..m] == log[..m] && log[..end][..n] == log[..n] && passed[..last][..k] == passed[..k];
    }
  }

  // ---- what a run adds up to -----------------------------------------------------------------------

  /**
   While nothing has failed, only pins have been reported, only good results have been added up, and every stage
   passed is backed by its events.
   */
  ghost predicate Good(a: Answers, cfg: Config, r: Run) {
    && r.reports == PinReports(cfg, r.log) && Clean(r.log) && Answered(a, r.log)
    && Backed(cfg, r.log, r.passed)
  }

  /**
   The first stage of the plan that is not among those passed has failed, with the events from event `n` on, after
   which nothing more was asked; it is reported after all pins without a window.
   */
  ghost predicate FailsAt(a: Answers, cfg: Config, r: Run, plan: seq<Stage>, n: nat, stage: Stage) {
    && n <= |r.log| && Answered(a, r.log)
    && Backed(cfg, r.log[..n], r.passed) && r.passed + [stage] <= plan && Fails(cfg, r.log, n, stage)
    && r.reports == PinReports(cfg, r.log) + [FailureOf(stage, r.log, n)]
  }

  ghost predicate FailsIn(a: Answers, cfg: Config, r: Run, plan: seq<Stage>) {
    exists n: nat, stage: Stage :: FailsAt(a, cfg, r, plan, n, stage)
  }

  /**
   From r to r': at most `n` results and the stages `passed`, unless something failed and not all of them passed. The
   first failure ends it unless all groups are swept.
   */
  ghost predicate Goes(a: Answers, cfg: Config, r: Run, r': Run, n: nat, passed: seq<Stage>) {
    && r.log <= r'.log
    && (r'.ok ==> Results(r'.log) <= Results(r.log) + n && r'.passed == r.passed + passed)
    && (r'.ok && Good(a, cfg, r) ==> Good(a, cfg, r'))
    && (!r'.ok ==> |r'.passed| < |r.passed| + |passed|)
    && (!r'.ok && Good(a, cfg, r) && !cfg.sweepAllGroups ==> FailsIn(a, cfg, r', r.passed + passed))
  }

  /** A plan may go on after the stage that fails. */
  lemma FailsInLonger(a: Answers, cfg: Config, r: Run, plan: seq<Stage>, plan': seq<Stage>)
    requires FailsIn(a, cfg, r, plan) && plan <= plan'
    ensures FailsIn(a, cfg, r, plan')
  {
    var n: nat, stage: Stage :| FailsAt(a, cfg, r, plan, n, stage);
    assert FailsAt(a, cfg, r, plan', n, stage);
  }

  /** Two steps; the second is made after a failure only when all groups are swept. */
  lemma GoesThen(a: Answers, cfg: Config, r: Run, r1: Run, r2: Run, n: nat, m: nat, passed: seq<Stage>,
                 passed': seq<Stage>)
    requires Goes(a, cfg, r, r1, n, passed) && Goes(a, cfg, r1, r2, m, passed')
    requires r1.ok || cfg.sweepAllGroups
    ensures Goes(a, cfg, r, r2.(ok := r1.ok && r2.ok), n + m, passed + passed')
  {
    assert r.passed + (passed + passed') == (r.passed + passed) + passed';
    if r1.ok {
      assert r2.(ok := r1.ok && r2.ok) == r2;
    }
  }

  lemma GoesNoFurther(a: Answers, cfg: Config, r: Run, r1: Run, n: nat, m: nat, passed: seq<Stage>,
                      passed': seq<Stage>)
    requires Goes(a, cfg, r, r1, n, passed) && (!r1.ok || passed' == [])
    ensures Goes(a, cfg, r, r1, n + m, passed + passed')
  {
    if passed' == [] {
      assert passed + passed' == passed;
    } else if Good(a, cfg, r) && !cfg.sweepAllGroups {
      FailsInLonger(a, cfg, r1, r.passed + passed, r.passed + (passed + passed'));
    }
  }

  /** What one stage adds, and the events that back it or make it fail. */
  ghost predicate StageAdds(a: Answers, cfg: Config, r: Run, ok: bool, log: seq<Event>, reports: seq<Report>, n: nat,
                            stage: Stage, failure: Report) {
    && r.log <= log && Results(log) <= Results(r.log) + n
    && (Answered(a, r.log) ==> Answered(a, log))
    && (r.reports == PinReports(cfg, r.log) ==> reports == PinReports(cfg, log))
    && (ok && Clean(r.log) ==> Clean(log))
    && (ok ==> Backs(cfg, log, |r.log|, stage))
    && (!ok ==> Fails(cfg, log, |r.log|, stage) && failure == FailureOf(stage, log, |r.log|))
  }

  lemma StageGoes(a: Answers, cfg: Config, r: Run, ok: bool, log: seq<Event>, reports: seq<Report>, n: nat,
                  stage: Stage, failure: Report)
    requires StageAdds(a, cfg, r, ok, log, reports, n, stage, failure)
    ensures Goes(a, cfg, r, Close(ok, log, reports, r.passed, stage, failure), n, [stage])
  {
    if Good(a, cfg, r) {
      if ok {
        BackedMore(cfg, r.log, r.passed, log, stage);
      } else {
        assert log[..|r.log|] == r.log;
        assert FailsAt(a, cfg, Close(ok, log, reports, r.passed, stage, failure), r.passed + [stage], |r.log|, stage);
      }
    }
  }

  lemma VfifoGoes(a: Answers, cfg: Config, g: nat, r: Run)
    ensures Goes(a, cfg, r, VfifoStage(a, cfg, g, r), 0, [Vfifo(g)])
  {
    var t := TryDelays(a, cfg, g, Start(cfg, r), 0);
    DelaysFacts(a, cfg, g, Start(cfg, r), 0, |r.log|);
    StageIsPhased(a, cfg, g, r);
    DelaysSubstage(a, cfg, g, Start(cfg, r), 0, |r.log|);
    if t.ok {
      var i: nat :| EndsInWorking(cfg, t.log, |r.log|, i);
      var s := PhasedPlace(cfg, g, t.log, |r.log|, cfg.attempts, 0, i);
      assert WorksFor(cfg, t.log, |r.log|, g, i);
    }
    StageGoes(a, cfg, r, t.ok, t.log, t.reports, 0, Vfifo(g), Report(g, STAGE_VFIFO, t.failed));
  }

  lemma WriteGoes(a: Answers, cfg: Config, sr: nat, g: nat, r: Run)
    ensures Goes(a, cfg, r, WriteStage(a, cfg, sr, g, r), 1, [Writes(sr, g)])
  {
    var w := a.writeCentre(|r.log|, g);
    var e := Write(sr, g, w);
    SingleEvent(cfg, e);
    OneMoreEvent(cfg, r.log, e);
    AddsEvent(a, cfg, r.log, r.reports, e);
    StageGoes(a, cfg, r, w.Passed(), r.log + [e], r.reports + WritePinReport(cfg, g, w.outcome), 1, Writes(sr, g),
              Report(g, STAGE_WRITES, SUBSTAGE_WRITES_CENTER));
  }

  lemma VfifoEndGoes(a: Answers, cfg: Config, g: nat, r: Run)
    ensures Goes(a, cfg, r, VfifoEndStage(a, cfg, g, r), |cfg.skipShadowRegs|, [VfifoEnd(g)])
  {
    var from, c0 := FromVfifoEnd(g), Centring(true, 0, r.log, r.reports);
    var c := CentreEach(a, cfg, from, 0, c0, cfg.skipShadowRegs);
    CentreEachLog(a, cfg, from, 0, c0, cfg.skipShadowRegs);
    CentreEachAdds(a, cfg, from, 0, c0, cfg.skipShadowRegs);
    if c.ok && Clean(r.log) {
      forall i: nat | i < |c.log|
        ensures CleanEvent(c.log[i])
      {
        if i < |r.log| {
          assert c.log[i] == r.log[i];
        }
      }
    }
    StageGoes(a, cfg, r, c.ok, c.log, c.reports, |cfg.skipShadowRegs|, VfifoEnd(g),
              Report(g, STAGE_VFIFO_AFTER_WRITES, SUBSTAGE_VFIFO_CENTER));
  }

  /** One more stage of each kind, unless something has failed before. */
  lemma OneMoreVfifo(a: Answers, cfg: Config, g: nat, r: Run, r1: Run, passed: seq<Stage>)
    requires Goes(a, cfg, r, r1, 0, passed)
    ensures Goes(a, cfg, r, if r1.ok then VfifoStage(a, cfg, g, r1) else r1, 0, passed + [Vfifo(g)])
  {
    if r1.ok {
      VfifoGoes(a, cfg, g, r1);
      GoesThen(a, cfg, r, r1, VfifoStage(a, cfg, g, r1), 0, 0, passed, [Vfifo(g)]);
    } else {
      GoesNoFurther(a, cfg, r, r1, 0, 0, passed, [Vfifo(g)]);
    }
  }

  lemma OneMoreWrite(a: Answers, cfg: Config, sr: nat, g: nat, r: Run, r1: Run, n: nat, passed: seq<Stage>)
    requires Goes(a, cfg, r, r1, n, passed) && (r1.ok || cfg.sweepAllGroups)
    ensures var r2 := WriteStage(a, cfg, sr, g, r1);
            Goes(a, cfg, r, r2.(ok := r1.ok && r2.ok), n + 1, passed + [Writes(sr, g)])
  {
    WriteGoes(a, cfg, sr, g, r1);
    GoesThen(a, cfg, r, r1, WriteStage(a, cfg, sr, g, r1), n, 1, passed, [Writes(sr, g)]);
  }

  lemma OneMoreVfifoEnd(a: Answers, cfg: Config, g: nat, r: Run, r1: Run, n: nat, passed: seq<Stage>)
    requires Goes(a, cfg, r, r1, n, passed)
    ensures Goes(a, cfg, r, if r1.ok then VfifoEndStage(a, cfg, g, r1) else r1, n + |cfg.skipShadowRegs|,
                 passed + [VfifoEnd(g)])
  {
    if r1.ok {
      VfifoEndGoes(a, cfg, g, r1);
      GoesThen(a, cfg, r, r1, VfifoEndStage(a, cfg, g, r1), n, |cfg.skipShadowRegs|, passed, [VfifoEnd(g)]);
    } else {
      GoesNoFurther(a, cfg, r, r1, n, |cfg.skipShadowRegs|, passed, [VfifoEnd(g)]);
    }
  }

  lemma NothingGoes(a: Answers, cfg: Config, r: Run)
    requires r.ok
    ensures Goes(a, cfg, r, r, 0, [])
  {
    assert r.passed + [] == r.passed;
  }

  lemma {:induction false} VfifosGo(a: Answers, cfg: Config, bgn: nat, r: Run, n: nat)
    requires r.ok
    ensures Goes(a, cfg, r, VfifoRun(a, cfg, bgn, r, n), 0, VfifoPlan(bgn, n))
    decreases n
  {
    if n == 0 {
      NothingGoes(a, cfg, r);
    } else {
      VfifosGo(a, cfg, bgn, r, n - 1);
      OneMoreVfifo(a, cfg, bgn + n - 1, r, VfifoRun(a, cfg, bgn, r, n - 1), VfifoPlan(bgn, n - 1));
    }
  }

  lemma {:induction false} WritesGo(a: Answers, cfg: Config, g: nat, r: Run, skip: seq<bool>)
    requires r.ok
    ensures Goes(a, cfg, r, WritesRun(a, cfg, g, r, skip), |skip|, WritesPlan(g, skip))
    decreases |skip|
  {
    if skip == [] {
      NothingGoes(a, cfg, r);
    } else {
      var n := |skip| - 1;
      WritesGo(a, cfg, g, r, skip[..n]);
      var r1, plan := WritesRun(a, cfg, g, r, skip[..n]), WritesPlan(g, skip[..n]);
      if skip[n] || (!r1.ok && !cfg.sweepAllGroups) {
        GoesNoFurther(a, cfg, r, r1, n, 1, plan, if skip[n] then [] else [Writes(n, g)]);
      } else {
        OneMoreWrite(a, cfg, n, g, r, r1, n, plan);
      }
    }
  }

  lemma OneMoreTime(n: nat, m: nat) returns (before: nat)
    requires n > 0
    ensures before == (n - 1) * m && before + m == n * m
  {
    MulNonNegative(n - 1, m);
    before := (n - 1) * m;
  }

  lemma {:induction false} VfifoEndsGo(a: Answers, cfg: Config, bgn: nat, r: Run, n: nat)
    requires r.ok
    ensures Goes(a, cfg, r, VfifoEndRun(a, cfg, bgn, r, n), n * |cfg.skipShadowRegs|, VfifoEndPlan(bgn, n))
    decreases n
  {
    if n == 0 {
      NothingGoes(a, cfg, r);
    } else {
      VfifoEndsGo(a, cfg, bgn, r, n - 1);
      var before := OneMoreTime(n, |cfg.skipShadowRegs|);
      OneMoreVfifoEnd(a, cfg, bgn + n - 1, r, VfifoEndRun(a, cfg, bgn, r, n - 1), before, VfifoEndPlan(bgn, n - 1));
    }
  }

  lemma GroupGoes(a: Answers, cfg: Config, g: nat, r: Run)
    ensures Goes(a, cfg, r.(ok := true), GroupRun(a, cfg, g, r), cfg.ResultsPerGroup(), GroupPlan(cfg, g))
  {
    var bgn, begun, s := g * cfg.ratio, r.(ok := true), |cfg.skipShadowRegs|;
    MulNonNegative(cfg.ratio, s);
    VfifosGo(a, cfg, bgn, begun, cfg.ratio);
    var read := VfifoRun(a, cfg, bgn, begun, cfg.ratio);
    var vp, wp, ep := VfifoPlan(bgn, cfg.ratio), WritesPlan(g, cfg.skipShadowRegs), VfifoEndPlan(bgn, cfg.ratio);
    assert vp + wp + ep == vp + (wp + ep);
    if !read.ok {
      GoesNoFurther(a, cfg, begun, read, 0, s + cfg.ratio * s, vp, wp + ep);
    } else {
      WritesGo(a, cfg, g, read, cfg.skipShadowRegs);
      var written := WritesRun(a, cfg, g, read, cfg.skipShadowRegs);
      GoesThen(a, cfg, begun, read, written, 0, s, vp, wp);
      if !written.ok {
        GoesNoFurther(a, cfg, begun, written, s, cfg.ratio * s, vp + wp, ep);
      } else {
        VfifoEndsGo(a, cfg, bgn, written, cfg.ratio);
        GoesThen(a, cfg, begun, written, VfifoEndRun(a, cfg, bgn, written, cfg.ratio), s, cfg.ratio * s, vp + wp, ep);
      }
    }
  }

  /** A group starts afresh, also after another has failed. */
  lemma OneMoreGroup(a: Answers, cfg: Config, g: nat, r: Run, r1: Run, n: nat, passed: seq<Stage>)
    requires Goes(a, cfg, r, r1, n, passed) && (r1.ok || cfg.sweepAllGroups)
    ensures var r2 := GroupRun(a, cfg, g, r1);
            Goes(a, cfg, r, r2.(ok := r1.ok && r2.ok), n + cfg.ResultsPerGroup(), passed + GroupPlan(cfg, g))
  {
    var m, r2 := cfg.ResultsPerGroup(), GroupRun(a, cfg, g, r1);
    GroupGoes(a, cfg, g, r1);
    if r1.ok {
      assert r1.(ok := true) == r1;
    }
    assert Goes(a, cfg, r1, r2, m, GroupPlan(cfg, g));
    GoesThen(a, cfg, r, r1, r2, n, m, passed, GroupPlan(cfg, g));
  }

  lemma {:induction false} GroupsGo(a: Answers, cfg: Config, n: nat)
    ensures Goes(a, cfg, Run(true, [], [], []), GroupsRun(a, cfg, n), n * cfg.ResultsPerGroup(), Plan(cfg, n))
    decreases n
  {
    var r := Run(true, [], [], []);
    if n == 0 {
      NothingGoes(a, cfg, r);
    } else {
      GroupsGo(a, cfg, n - 1);
      var r1, plan := GroupsRun(a, cfg, n - 1), Plan(cfg, n - 1);
      var before := OneMoreTime(n, cfg.ResultsPerGroup());
      if !cfg.Runs(n - 1) || (!r1.ok && !cfg.sweepAllGroups) {
        GoesNoFurther(a, cfg, r, r1, before, cfg.ResultsPerGroup(), plan,
                      if cfg.Runs(n - 1) then GroupPlan(cfg, n - 1) else []);
      } else {
        OneMoreGroup(a, cfg, n - 1, r, r1, before, plan);
      }
    }
  }

  /** All that a run has to pass. */
  function FullPlan(cfg: Config): seq<Stage> {
    Plan(cfg, cfg.groups) + if cfg.skipGroups == {} then [Lfifo] else []
  }

  /**
   A run passes iff it has passed as many stages as the plan holds. Then these are the stages of the plan, in order,
   and its log is made of the events that back them, stage by stage; it has reported exactly the pins without a
   window that its log shows, every result in it is good, and there are no more than the sizes allow.
   */
  lemma PassedRun(a: Answers, cfg: Config, readLatency: nat)
    ensures !cfg.skipAll ==>
              (Calibration(a, cfg, readLatency).ok <==> |Calibration(a, cfg, readLatency).passed| == |FullPlan(cfg)|)
    ensures var r := Calibration(a, cfg, readLatency);
            r.ok ==>
              && r.passed == (if cfg.skipAll then [] else FullPlan(cfg))
              && Good(a, cfg, r) && Results(r.log) <= cfg.groups * cfg.ResultsPerGroup()
  {
    MulNonNegative(cfg.ratio, |cfg.skipShadowRegs|);
    MulNonNegative(cfg.groups, cfg.ResultsPerGroup());
    GroupsGo(a, cfg, cfg.groups);
    var begun, r := Run(true, [], [], []), GroupsRun(a, cfg, cfg.groups);
    assert Good(a, cfg, begun);
    assert [] + Plan(cfg, cfg.groups) == Plan(cfg, cfg.groups) == Plan(cfg, cfg.groups) + [];
    if r.ok {
      BackedMore(cfg, r.log, r.passed, r.log, Lfifo);
    }
  }

  /**
   A run that fails, when groups are not swept, has passed the stages of the plan up to one that failed, whose events
   end the log. It has reported the pins without a window that its log shows, and that stage last.
   */
  lemma FailedRun(a: Answers, cfg: Config, readLatency: nat)
    requires !Calibration(a, cfg, readLatency).ok && !cfg.sweepAllGroups
    ensures FailsIn(a, cfg, Calibration(a, cfg, readLatency), FullPlan(cfg))
  {
    GroupsGo(a, cfg, cfg.groups);
    var begun, r, r' := Run(true, [], [], []), GroupsRun(a, cfg, cfg.groups), Calibration(a, cfg, readLatency);
    assert Good(a, cfg, begun);
    assert [] + Plan(cfg, cfg.groups) == Plan(cfg, cfg.groups) == Plan(cfg, cfg.groups) + [];
    if r.ok {
      assert r.log[..|r.log|] == r.log;
      assert FailsAt(a, cfg, r', FullPlan(cfg), |r.log|, Lfifo);
    } else {
      FailsInLonger(a, cfg, r, Plan(cfg, cfg.groups), FullPlan(cfg));
    }
  }

  /** Every stage that a passing run has passed occupies events of its own in the log, after those of earlier stages. */
  lemma PassedWasAsked(a: Answers, cfg: Config, readLatency: nat, k: nat) returns (n: nat, m: nat)
    requires Calibration(a, cfg, readLatency).ok && k < |Calibration(a, cfg, readLatency).passed|
    ensures var r := Calibration(a, cfg, readLatency);
            HasEvents(cfg, r.log, r.passed, k, n, m) && Answered(a, r.log)
  {
    PassedRun(a, cfg, readLatency);
    var r := Calibration(a, cfg, readLatency);
    n, m := StageHasEvents(cfg, r.log, r.passed, k);
  }

  /**
   In a passing run every write group that runs was written with success for every shadow register in use, and
   every one of its read groups has a search that works and one successful centring for each of them after the writes.
   */
  lemma PassedGroupWasAsked(a: Answers, cfg: Config, readLatency: nat, stage: Stage)
    requires Calibration(a, cfg, readLatency).ok && stage in Calibration(a, cfg, readLatency).passed
    ensures var log := Calibration(a, cfg, readLatency).log;
            match stage
            case Vfifo(g) =>
              exists m: nat, i: nat ::
                m <= |log| && Works(log[..m], i) && log[i].at.group == g && log[i].found == a.dqsEnable(i, log[i].at)
            case Writes(sr, g) =>
              exists i: nat :: i < |log| && IsPassedWrite(log[i], sr, g) && log[i].written == a.writeCentre(i, g)
            case VfifoEnd(g) =>
              exists n: nat :: n + InUse(cfg.skipShadowRegs) <= |log| && CentredFrom(a, cfg, log, n, g)
            case Lfifo => a.latency(StartLatency(readLatency))
  {
    var r := Calibration(a, cfg, readLatency);
    var k: nat :| k < |r.passed| && r.passed[k] == stage;
    var n, m := PassedWasAsked(a, cfg, readLatency, k);
    match stage {
      case Vfifo(g) =>
        var i: nat :| WorksFor(cfg, r.log[..m], n, g, i);
        assert Works(r.log[..m], i) && r.log[..m][i] == r.log[i] && IsAnswer(a, i, r.log[i]);
      case Writes(sr, g) =>
        assert r.log[..m][n] == r.log[n] && IsAnswer(a, n, r.log[n]);
      case VfifoEnd(g) =>
        forall i: nat | n <= i < n + InUse(cfg.skipShadowRegs)
          ensures r.log[i].Centre? && r.log[i].from == FromVfifoEnd(g) && Centres(r.log[i].read)
          ensures IsAnswer(a, i, r.log[i])
        {
          assert r.log[..m][i] == r.log[i];
        }
        assert CentredFrom(a, cfg, r.log, n, g);
      case Lfifo =>
        LfifoIsLast(a, cfg, readLatency);
    }
  }

  /** One successful centring after the writes for each shadow register in use, from event `n` on. */
  ghost predicate CentredFrom(a: Answers, cfg: Config, log: seq<Event>, n: nat, g: nat)
    requires n + InUse(cfg.skipShadowRegs) <= |log|
  {
    forall i: nat :: n <= i < n + InUse(cfg.skipShadowRegs) ==>
      && log[i].Centre? && log[i].from == FromVfifoEnd(g)
      && Centres(log[i].read) && log[i].read == a.readCentre(i, FromVfifoEnd(g))
  }

  lemma LfifoIsLast(a: Answers, cfg: Config, readLatency: nat)
    requires Calibration(a, cfg, readLatency).ok && Lfifo in Calibration(a, cfg, readLatency).passed
    ensures a.latency(StartLatency(readLatency))
  {
    PassedRun(a, cfg, readLatency);
    NoLatencyInPlan(cfg, cfg.groups);
  }

  lemma {:induction false} NoLatencyInPlan(cfg: Config, n: nat)
    ensures Lfifo !in Plan(cfg, n)
    decreases n
  {
    if n > 0 {
      NoLatencyInPlan(cfg, n - 1);
      ReadPlans((n - 1) * cfg.ratio, cfg.ratio);
      WritesPlanHolds(cfg, n - 1, cfg.skipShadowRegs);
    }
  }

  // ---- what the plan holds -------------------------------------------------------------------------

  /** The write group that a stage belongs to; the read latency comes after all of them. */
  function WriteGroup(cfg: Config, stage: Stage): nat
    requires cfg.ratio > 0
  {
    match stage
    case Vfifo(g) => g / cfg.ratio
    case Writes(_, g) => g
    case VfifoEnd(g) => g / cfg.ratio
    case Lfifo => cfg.groups
  }

  /** Within a write group: all VFIFO stages, then the writes, then the read-after-write stages, each kind in order. */
  function Place(stage: Stage): (nat, nat) {
    match stage
    case Vfifo(g) => (0, g)
    case Writes(sr, _) => (1, sr)
    case VfifoEnd(g) => (2, g)
    case Lfifo => (3, 0)
  }

  predicate Before(cfg: Config, s: Stage, s': Stage)
    requires cfg.ratio > 0
  {
    var (g, g') := (WriteGroup(cfg, s), WriteGroup(cfg, s'));
    var (p, p') := (Place(s), Place(s'));
    g < g' || (g == g' && (p.0 < p'.0 || (p.0 == p'.0 && p.1 < p'.1)))
  }

  ghost predicate InOrder(cfg: Config, stages: seq<Stage>)
    requires cfg.ratio > 0
  {
    forall i: nat, j: nat :: i < j < |stages| ==> Before(cfg, stages[i], stages[j])
  }

  /** A stage to be passed: its write group runs, and its shadow register, if it has one, is not skipped. */
  predicate Due(cfg: Config, stage: Stage)
    requires cfg.ratio > 0
  {
    && !stage.Lfifo? && cfg.Runs(WriteGroup(cfg, stage))
    && (stage.Writes? ==> stage.sr < |cfg.skipShadowRegs| && !cfg.skipShadowRegs[stage.sr])
  }

  lemma {:induction false} ReadPlans(bgn: nat, n: nat)
    ensures |VfifoPlan(bgn, n)| == n == |VfifoEndPlan(bgn, n)|
    ensures forall i: nat :: i < n ==> VfifoPlan(bgn, n)[i] == Vfifo(bgn + i)
    ensures forall i: nat :: i < n ==> VfifoEndPlan(bgn, n)[i] == VfifoEnd(bgn + i)
    decreases n
  {
    if n > 0 {
      ReadPlans(bgn, n - 1);
    }
  }

  lemma {:induction false} WritesPlanHolds(cfg: Config, g: nat, skip: seq<bool>)
    ensures forall stage: Stage :: stage in WritesPlan(g, skip) <==>
              stage.Writes? && stage.group == g && stage.sr < |skip| && !skip[stage.sr]
    ensures forall i: nat, j: nat :: i < j < |WritesPlan(g, skip)| ==>
              Place(WritesPlan(g, skip)[i]).1 < Place(WritesPlan(g, skip)[j]).1
    decreases |skip|
  {
    if skip != [] {
      var n := |skip| - 1;
      WritesPlanHolds(cfg, g, skip[..n]);
      var plan := WritesPlan(g, skip[..n]);
      assert forall i: nat :: i < |plan| ==> plan[i] in plan;
    }
  }

  lemma OrderedThen(cfg: Config, s: seq<Stage>, t: seq<Stage>)
    requires cfg.ratio > 0 && InOrder(cfg, s) && InOrder(cfg, t)
    requires forall x: Stage, y: Stage :: x in s && y in t ==> Before(cfg, x, y)
    ensures InOrder(cfg, s + t)
  {
    forall i: nat, j: nat | i < j < |s + t|
      ensures Before(cfg, (s + t)[i], (s + t)[j])
    {
      if i < |s| <= j {
        assert s[i] in s && t[j - |s|] in t;
      }
    }
  }

  predicate InWriteGroup(cfg: Config, r: nat, g: nat)
    requires cfg.ratio > 0
  {
    r / cfg.ratio == g
  }

  /** The read groups of write group `g` are those from `bgn` on. */
  ghost predicate ReadGroups(cfg: Config, g: nat, bgn: nat)
    requires cfg.ratio > 0
  {
    forall r: nat :: InWriteGroup(cfg, r, g) <==> bgn <= r < bgn + cfg.ratio
  }

  lemma ReadGroupsOf(cfg: Config, g: nat)
    requires cfg.ratio > 0
    ensures ReadGroups(cfg, g, g * cfg.ratio)
  {
    forall r: nat
      ensures InWriteGroup(cfg, r, g) <==> g * cfg.ratio <= r < g * cfg.ratio + cfg.ratio
    {
      assert r == (r / cfg.ratio) * cfg.ratio + r % cfg.ratio;
      if g * cfg.ratio <= r < g * cfg.ratio + cfg.ratio {
        DivModUnique(r, g, r - g * cfg.ratio, cfg.ratio);
      }
    }
  }

  /** Stages of one write group, each after the one before. */
  ghost predicate OfGroup(cfg: Config, stages: seq<Stage>, g: nat)
    requires cfg.ratio > 0
  {
    && (forall i: nat :: i < |stages| ==> WriteGroup(cfg, stages[i]) == g)
    && forall i: nat, j: nat :: i < j < |stages| ==>
         Place(stages[i]).0 == Place(stages[j]).0 && Place(stages[i]).1 < Place(stages[j]).1
  }

  lemma WritesPlanOfGroup(cfg: Config, g: nat)
    requires cfg.ratio > 0
    ensures var plan := WritesPlan(g, cfg.skipShadowRegs);
            && (forall stage: Stage :: stage in plan <==>
                  stage.Writes? && stage.group == g && stage.sr < |cfg.skipShadowRegs| && !cfg.skipShadowRegs[stage.sr])
            && OfGroup(cfg, plan, g) && forall i: nat :: i < |plan| ==> plan[i].Writes?
  {
    var plan := WritesPlan(g, cfg.skipShadowRegs);
    WritesPlanHolds(cfg, g, cfg.skipShadowRegs);
    assert forall i: nat :: i < |plan| ==> plan[i] in plan;
  }

  lemma VfifoPlanHolds(cfg: Config, g: nat, bgn: nat)
    requires cfg.ratio > 0 && ReadGroups(cfg, g, bgn)
    ensures var plan := VfifoPlan(bgn, cfg.ratio);
            && (forall stage: Stage :: stage in plan <==> stage.Vfifo? && WriteGroup(cfg, stage) == g)
            && OfGroup(cfg, plan, g) && forall i: nat :: i < |plan| ==> plan[i].Vfifo?
  {
    var plan := VfifoPlan(bgn, cfg.ratio);
    ReadPlans(bgn, cfg.ratio);
    forall r: nat | InWriteGroup(cfg, r, g)
      ensures Vfifo(r) in plan
    {
      assert plan[r - bgn] == Vfifo(r);
    }
    forall i: nat | i < |plan|
      ensures WriteGroup(cfg, plan[i]) == g
    {
      assert InWriteGroup(cfg, bgn + i, g);
    }
  }

  lemma VfifoEndPlanHolds(cfg: Config, g: nat, bgn: nat)
    requires cfg.ratio > 0 && ReadGroups(cfg, g, bgn)
    ensures var plan := VfifoEndPlan(bgn, cfg.ratio);
            && (forall stage: Stage :: stage in plan <==> stage.VfifoEnd? && WriteGroup(cfg, stage) == g)
            && OfGroup(cfg, plan, g) && forall i: nat :: i < |plan| ==> plan[i].VfifoEnd?
  {
    var plan := VfifoEndPlan(bgn, cfg.ratio);
    ReadPlans(bgn, cfg.ratio);
    forall r: nat | InWriteGroup(cfg, r, g)
      ensures VfifoEnd(r) in plan
    {
      assert plan[r - bgn] == VfifoEnd(r);
    }
    forall i: nat | i < |plan|
      ensures WriteGroup(cfg, plan[i]) == g
    {
      assert InWriteGroup(cfg, bgn + i, g);
    }
  }

  lemma GroupPlanHolds(cfg: Config, g: nat)
    requires cfg.ratio > 0 && cfg.Runs(g)
    ensures forall stage: Stage :: stage in GroupPlan(cfg, g) <==> Due(cfg, stage) && WriteGroup(cfg, stage) == g
    ensures InOrder(cfg, GroupPlan(cfg, g))
  {
    var bgn, n, skip := g * cfg.ratio, cfg.ratio, cfg.skipShadowRegs;
    var vp, wp, ep := VfifoPlan(bgn, n), WritesPlan(g, skip), VfifoEndPlan(bgn, n);
    ReadGroupsOf(cfg, g);
    VfifoPlanHolds(cfg, g, bgn);
    VfifoEndPlanHolds(cfg, g, bgn);
    WritesPlanOfGroup(cfg, g);
    GroupInOrder(cfg, g, vp, wp, ep);
    GroupHolds(cfg, g, vp, wp, ep);
  }

  lemma GroupHolds(cfg: Config, g: nat, vp: seq<Stage>, wp: seq<Stage>, ep: seq<Stage>)
    requires cfg.ratio > 0 && cfg.Runs(g)
    requires forall stage: Stage :: stage in vp <==> stage.Vfifo? && WriteGroup(cfg, stage) == g
    requires forall stage: Stage :: stage in wp <==>
               stage.Writes? && stage.group == g && stage.sr < |cfg.skipShadowRegs| && !cfg.skipShadowRegs[stage.sr]
    requires forall stage: Stage :: stage in ep <==> stage.VfifoEnd? && WriteGroup(cfg, stage) == g
    ensures forall stage: Stage :: stage in vp + wp + ep <==> Due(cfg, stage) && WriteGroup(cfg, stage) == g
  {
  }

  lemma GroupInOrder(cfg: Config, g: nat, vp: seq<Stage>, wp: seq<Stage>, ep: seq<Stage>)
    requires cfg.ratio > 0 && OfGroup(cfg, vp, g) && OfGroup(cfg, wp, g) && OfGroup(cfg, ep, g)
    requires forall i: nat :: i < |vp| ==> vp[i].Vfifo?
    requires forall i: nat :: i < |wp| ==> wp[i].Writes?
    requires forall i: nat :: i < |ep| ==> ep[i].VfifoEnd?
    ensures InOrder(cfg, vp + wp + ep)
  {
    OrderedThen(cfg, vp, wp);
    OrderedThen(cfg, vp + wp, ep);
  }

  /** The plan holds the stages due in groups 0..n-1, each once, in order. */
  lemma {:induction false} PlanHolds(cfg: Config, n: nat)
    requires cfg.ratio > 0
    ensures forall stage: Stage :: stage in Plan(cfg, n) <==> Due(cfg, stage) && WriteGroup(cfg, stage) < n
    ensures InOrder(cfg, Plan(cfg, n))
    decreases n
  {
    if n > 0 {
      PlanHolds(cfg, n - 1);
      if cfg.Runs(n - 1) {
        GroupPlanHolds(cfg, n - 1);
        OrderedThen(cfg, Plan(cfg, n - 1), GroupPlan(cfg, n - 1));
      }
    }
  }

  // ---- sweeping all groups -------------------------------------------------------------------------

  /** The first question of a VFIFO stage: its group, at the first output delay and phase and the reserve delay. */
  predicate FirstQuestion(cfg: Config, e: Event, g: nat) {
    && (if cfg.disableGuaranteedRead then e.Search? else e.GuaranteedRead?)
    && e.at == Setting(g, 0, 0, cfg.reserve)
  }

  lemma VfifoIsAsked(a: Answers, cfg: Config, g: nat, r: Run)
    requires Tries(cfg)
    ensures var log := VfifoStage(a, cfg, g, r).log; |r.log| < |log| && FirstQuestion(cfg, log[|r.log|], g)
  {
    var t, at := Start(cfg, r), Setting(g, 0, 0, cfg.reserve);
    var (pass, t1) := Guaranteed(a, cfg, t, at);
    var t2 := TryTap(a, cfg, t1, cfg.reserve, at);
    CentreEachLog(a, cfg, FromVfifo(at), cfg.reserve,
                  Centring(true, cfg.reserve, t1.log + [Search(at, true)], t.reports), cfg.skipShadowRegs);
    assert Loaded(cfg, t1.dqs, at) == at;
    assert t1.log < t2.log;
    TapsGrow(a, cfg, t2, cfg.reserve, at.(dqs := at.dqs + 1));
    var t3 := TryTaps(a, cfg, t1, cfg.reserve, at);
    assert t3 == TryTaps(a, cfg, t2, cfg.reserve, at.(dqs := at.dqs + 1));
    PhasesGrow(a, cfg, g, 0, t3, 1);
    DelaysGrow(a, cfg, g, TryPhases(a, cfg, g, 0, t, 0), 1);
  }

  lemma {:induction false} VfifosAreAsked(a: Answers, cfg: Config, bgn: nat, r: Run, n: nat)
    requires r.ok && Tries(cfg) && n > 0
    ensures var log := VfifoRun(a, cfg, bgn, r, n).log; |r.log| < |log| && FirstQuestion(cfg, log[|r.log|], bgn)
    decreases n
  {
    if n == 1 {
      assert VfifoRun(a, cfg, bgn, r, 0) == r;
      VfifoIsAsked(a, cfg, bgn, r);
    } else {
      VfifosAreAsked(a, cfg, bgn, r, n - 1);
      var r1 := VfifoRun(a, cfg, bgn, r, n - 1);
      if r1.ok {
        StageIsPhased(a, cfg, bgn + n - 1, r1);
      }
    }
  }

  lemma GroupIsAsked(a: Answers, cfg: Config, g: nat, r: Run)
    requires Tries(cfg) && cfg.ratio > 0
    ensures var log := GroupRun(a, cfg, g, r).log; |r.log| < |log| && FirstQuestion(cfg, log[|r.log|], g * cfg.ratio)
  {
    var read := VfifoRun(a, cfg, g * cfg.ratio, r.(ok := true), cfg.ratio);
    VfifosAreAsked(a, cfg, g * cfg.ratio, r.(ok := true), cfg.ratio);
    if read.ok {
      WritesGo(a, cfg, g, read, cfg.skipShadowRegs);
      var written := WritesRun(a, cfg, g, read, cfg.skipShadowRegs);
      if written.ok {
        VfifoEndsGo(a, cfg, g * cfg.ratio, written, cfg.ratio);
      }
    }
  }

  /** Nothing asked about earlier groups is lost. */
  lemma GroupsGrow(a: Answers, cfg: Config, n: nat)
    ensures GroupsRun(a, cfg, n).log <= GroupsRun(a, cfg, n + 1).log
  {
    GroupGoes(a, cfg, n, GroupsRun(a, cfg, n));
  }

  /** When all groups are swept every group that runs is begun, whatever became of those before it. */
  lemma {:induction false} SweptGroupIsAsked(a: Answers, cfg: Config, n: nat, g: nat) returns (i: nat)
    requires cfg.sweepAllGroups && Tries(cfg) && cfg.ratio > 0 && g < n && cfg.Runs(g)
    ensures i < |GroupsRun(a, cfg, n).log| && FirstQuestion(cfg, GroupsRun(a, cfg, n).log[i], g * cfg.ratio)
    decreases n
  {
    if g == n - 1 {
      i := |GroupsRun(a, cfg, g).log|;
      GroupIsAsked(a, cfg, g, GroupsRun(a, cfg, g));
    } else {
      i := SweptGroupIsAsked(a, cfg, n - 1, g);
      GroupsGrow(a, cfg, n - 1);
    }
  }

  /** A group that is swept is written for every shadow register in use, whatever became of those before it. */
  lemma {:induction false} SweptRegIsWritten(a: Answers, cfg: Config, g: nat, r: Run, skip: seq<bool>, sr: nat)
      returns (i: nat)
    requires cfg.sweepAllGroups && r.ok && sr < |skip| && !skip[sr]
    ensures |r.log| <= i < |WritesRun(a, cfg, g, r, skip).log|
    ensures var e := WritesRun(a, cfg, g, r, skip).log[i]; e.Write? && e.sr == sr && e.group == g
    decreases |skip|
  {
    var n := |skip| - 1;
    var r1 := WritesRun(a, cfg, g, r, skip[..n]);
    WritesGo(a, cfg, g, r, skip[..n]);
    if sr == n {
      i := |r1.log|;
    } else {
      i := SweptRegIsWritten(a, cfg, g, r, skip[..n], sr);
      assert WritesRun(a, cfg, g, r, skip).log[i] == r1.log[i];
    }
  }

  lemma {:induction false} NoPinReports(cfg: Config, log: seq<Event>)
    requires Clean(log)
    ensures PinReports(cfg, log) == [] <==>
            forall i: nat :: i < |log| ==> !(log[i].Centre? && log[i].read.NoWindow?)
    decreases |log|
  {
    if log != [] {
      var n := |log| - 1;
      assert forall i: nat :: i < n ==> log[..n][i] == log[i];
      NoPinReports(cfg, log[..n]);
      assert CleanEvent(log[n]);
    }
  }

  /**
   A run that passes leaves the record empty iff no centring it asked for found a pin without a window. Such
   a centring belongs to an attempt of a VFIFO stage that was tried again.
   */
  lemma PassRecordsNothingIff(a: Answers, cfg: Config, readLatency: nat)
    requires Calibration(a, cfg, readLatency).ok
    ensures var r := Calibration(a, cfg, readLatency);
            && (r.reports == [] <==> forall i: nat :: i < |r.log| ==> !(r.log[i].Centre? && r.log[i].read.NoWindow?))
            && forall i: nat :: i < |r.log| && r.log[i].Centre? && r.log[i].read.NoWindow? ==> r.log[i].from.FromVfifo?
  {
    PassedRun(a, cfg, readLatency);
    var r := Calibration(a, cfg, readLatency);
    NoPinReports(cfg, r.log);
    assert forall i: nat :: i < |r.log| ==> CleanEvent(r.log[i]);
  }

  /** A memory in which every pin always has a window: whatever else fails and is retried, a pass records nothing. */
  lemma WindowsNeverRecord(a: Answers, cfg: Config, readLatency: nat)
    requires forall k: nat, from: Caller :: a.readCentre(k, from).Margins?
    requires Calibration(a, cfg, readLatency).ok
    ensures Calibration(a, cfg, readLatency).reports == []
  {
    PassedRun(a, cfg, readLatency);
    PassRecordsNothingIff(a, cfg, readLatency);
    var r := Calibration(a, cfg, readLatency);
    assert forall i: nat :: i < |r.log| ==> IsAnswer(a, i, r.log[i]);
  }

  // ---- the figures of merit ------------------------------------------------------------------------

  /** No margin in the log exceeds `bound`. */
  ghost predicate Bounded(log: seq<Event>, bound: nat) {
    forall i: nat :: i < |log| ==>
      && (log[i].Centre? && log[i].read.Margins? ==> log[i].read.dq <= bound && log[i].read.dqs <= bound)
      && (log[i].Write? && log[i].written.outcome.Margins? ==>
            log[i].written.outcome.dq <= bound && log[i].written.outcome.dqs <= bound)
  }

  /** Division towards zero: the remainder is smaller than the divisor and has the sign of the dividend. */
  lemma TruncateMeans(x: int, n: nat)
    requires n > 0
    ensures var rest := x - Truncate(x, n) * n;
            if x >= 0 then 0 <= rest < n && Truncate(x, n) >= 0 else -(n as int) < rest <= 0 && Truncate(x, n) <= 0
  {
    if x >= 0 {
      QuotientBounds(x, n);
    } else {
      QuotientBounds(-x, n);
      var q := -x / n;
      NegatedProduct(q, n);
    }
  }

  lemma QuotientBounds(x: int, n: nat)
    requires n > 0 && x >= 0
    ensures 0 <= x - (x / n) * n < n && x / n >= 0
  {
    assert x == (x / n) * n + x % n;
  }

  lemma NegatedProduct(q: int, n: int)
    ensures -q * n == -(q * n)
  {
  }

  lemma TruncateBounds(x: int, n: nat, bound: int)
    requires n > 0 && 0 <= x <= bound
    ensures 0 <= Truncate(x, n) <= bound
  {
    var q := Truncate(x, n);
    TruncateMeans(x, n);
    MulNonNegative(q, n - 1);
    assert q * (n - 1) == q * n - q;
  }

  /**
   What a question adds: the margins of a write go into the output figure, and those of a centring after the writes,
   shared among the read groups of a write group, into the input figure.
   */
  lemma FomOfOne(ratio: nat, log: seq<Event>, e: Event)
    requires ratio > 0
    ensures FomOut(log + [e]) - FomOut(log) ==
              if e.Write? && e.written.outcome.Margins? then e.written.outcome.dq + e.written.outcome.dqs else 0
    ensures var added := FomIn(ratio, log + [e]) - FomIn(ratio, log);
            if e.Centre? && e.from.FromVfifoEnd? && e.read.Margins? then
              var sum := e.read.dq + e.read.dqs;
              if sum >= 0 then added * ratio <= sum < added * ratio + ratio else sum <= added * ratio < sum + ratio
            else added == 0
  {
    FomOfMore(ratio, log, e);
    if e.Centre? && e.from.FromVfifoEnd? && e.read.Margins? {
      TruncateMeans(e.read.dq + e.read.dqs, ratio);
    }
  }

  /** Each good result adds between nothing and twice the bound. */
  lemma {:induction false} FomBounds(ratio: nat, log: seq<Event>, bound: nat)
    requires ratio > 0 && Clean(log) && Bounded(log, bound)
    ensures 0 <= FomIn(ratio, log) <= 2 * bound * Results(log)
    ensures 0 <= FomOut(log) <= 2 * bound * Results(log)
    decreases |log|
  {
    if log != [] {
      var n := |log| - 1;
      assert forall i: nat :: i < n ==> log[..n][i] == log[i];
      FomBounds(ratio, log[..n], bound);
      var e := log[n];
      assert log == log[..n] + [e];
      FomOfMore(ratio, log[..n], e);
      assert CleanEvent(e);
      assert 2 * bound * (Results(log[..n]) + 1) == 2 * bound * Results(log[..n]) + 2 * bound;
      if e.Centre? && e.from.FromVfifoEnd? {
        TruncateBounds(e.read.dq + e.read.dqs, ratio, 2 * bound);
      }
    }
  }

  /**
   In a run that passes the 32-bit figures are the true sums, provided the largest sum that the sizes allow
   fits; none is negative.
   */
  lemma FomNeverWraps(a: Answers, cfg: Config, readLatency: nat, bound: nat)
    requires cfg.Valid() && Calibration(a, cfg, readLatency).ok
    requires Bounded(Calibration(a, cfg, readLatency).log, bound)
    requires 2 * bound * (cfg.groups * cfg.ResultsPerGroup()) < TWO_TO_32
    ensures var log := Calibration(a, cfg, readLatency).log;
            && 0 <= FomIn(cfg.ratio, log) == FomIn(cfg.ratio, log) % TWO_TO_32
            && 0 <= FomOut(log) == FomOut(log) % TWO_TO_32
  {
    PassedRun(a, cfg, readLatency);
    var log := Calibration(a, cfg, readLatency).log;
    FomBounds(cfg.ratio, log, bound);
    SumFits(FomIn(cfg.ratio, log), bound, Results(log), cfg.groups * cfg.ResultsPerGroup());
    SumFits(FomOut(log), bound, Results(log), cfg.groups * cfg.ResultsPerGroup());
  }

  lemma SumFits(x: int, bound: nat, n: nat, most: int)
    requires 0 <= x <= 2 * bound * n && n <= most && 2 * bound * most < TWO_TO_32
    ensures x % TWO_TO_32 == x
  {
    MulMonotone(n, most, 2 * bound);
    assert n * (2 * bound) == 2 * bound * n && most * (2 * bound) == 2 * bound * most;
  }

  // ---- memories that answer well -------------------------------------------------------------------

  /** Every answer from question `k` on is good. */
  ghost predicate GoodFrom(a: Answers, k: nat) {
    && (forall q: nat, at: Setting :: q >= k ==> a.guaranteedRead(q, at) && a.dqsEnable(q, at))
    && (forall q: nat, from: Caller :: q >= k ==> Centres(a.readCentre(q, from)))
    && (forall q: nat, g: nat :: q >= k ==> a.writeCentre(q, g).Passed())
  }

  /** The settings try anything at all. */
  predicate Tries(cfg: Config) {
    cfg.reserve <= cfg.dqsInMax && cfg.phases > 0 && cfg.attempts > 0
  }

  lemma {:induction false} GoodCentres(a: Answers, cfg: Config, from: Caller, start: nat, c: Centring, skip: seq<bool>)
    requires GoodFrom(a, |c.log|) && c.ok
    ensures var c' := CentreEach(a, cfg, from, start, c, skip);
            c'.ok && |c'.log| >= |c.log| && c'.reports == c.reports
    decreases |skip|
  {
    if skip != [] {
      GoodCentres(a, cfg, from, start, c, skip[..|skip| - 1]);
    }
  }

  lemma GoodTap(a: Answers, cfg: Config, t: Attempt, start: nat, at: Setting)
    requires GoodFrom(a, |t.log|)
    ensures var u := TryTap(a, cfg, t, start, at); u.ok && |u.log| >= |t.log| && u.reports == t.reports
  {
    var loaded := Loaded(cfg, t.dqs, at);
    var c := Centring(true, loaded.dqs, t.log + [Search(loaded, true)], t.reports);
    GoodCentres(a, cfg, FromVfifo(at.(dqs := start)), start, c, cfg.skipShadowRegs);
  }

  /** A phase that works ends all loops. */
  lemma FirstPhaseEnds(a: Answers, cfg: Config, g: nat, r: Run, u: Attempt)
    requires cfg.phases > 0 && cfg.attempts > 0 && u.ok
    requires var at := Setting(g, 0, 0, cfg.reserve);
             var (pass, t1) := Guaranteed(a, cfg, Start(cfg, r), at);
             pass && u == TryTaps(a, cfg, t1, cfg.reserve, at)
    ensures TryDelays(a, cfg, g, Start(cfg, r), 0) == u
  {
    var t := Start(cfg, r);
    assert TryPhases(a, cfg, g, 0, t, 0) == TryPhases(a, cfg, g, 0, u, 1) == u;
    assert TryDelays(a, cfg, g, t, 0) == TryDelays(a, cfg, g, u, 1) == u;
  }

  /** A good answer is taken at the first attempt, and nothing is reported. */
  lemma GoodVfifo(a: Answers, cfg: Config, g: nat, r: Run)
    requires GoodFrom(a, |r.log|) && Tries(cfg)
    ensures var r' := VfifoStage(a, cfg, g, r); r'.ok && |r'.log| >= |r.log| && r'.reports == r.reports
  {
    var at := Setting(g, 0, 0, cfg.reserve);
    var (pass, t1) := Guaranteed(a, cfg, Start(cfg, r), at);
    GoodTap(a, cfg, t1, cfg.reserve, at);
    var u := TryTap(a, cfg, t1, cfg.reserve, at);
    assert TryTaps(a, cfg, t1, cfg.reserve, at) == TryTaps(a, cfg, u, cfg.reserve, at.(dqs := at.dqs + 1)) == u;
    FirstPhaseEnds(a, cfg, g, r, u);
  }

  lemma {:induction false} GoodVfifos(a: Answers, cfg: Config, bgn: nat, r: Run, n: nat)
    requires GoodFrom(a, |r.log|) && Tries(cfg) && r.ok
    ensures var r' := VfifoRun(a, cfg, bgn, r, n); r'.ok && |r'.log| >= |r.log| && r'.reports == r.reports
    decreases n
  {
    if n > 0 {
      GoodVfifos(a, cfg, bgn, r, n - 1);
      GoodVfifo(a, cfg, bgn + n - 1, VfifoRun(a, cfg, bgn, r, n - 1));
    }
  }

  lemma {:induction false} GoodWrites(a: Answers, cfg: Config, g: nat, r: Run, skip: seq<bool>)
    requires GoodFrom(a, |r.log|) && r.ok
    ensures var r' := WritesRun(a, cfg, g, r, skip); r'.ok && |r'.log| >= |r.log| && r'.reports == r.reports
    decreases |skip|
  {
    if skip != [] {
      GoodWrites(a, cfg, g, r, skip[..|skip| - 1]);
    }
  }

  lemma {:induction false} GoodVfifoEnds(a: Answers, cfg: Config, bgn: nat, r: Run, n: nat)
    requires GoodFrom(a, |r.log|) && r.ok
    ensures var r' := VfifoEndRun(a, cfg, bgn, r, n); r'.ok && |r'.log| >= |r.log| && r'.reports == r.reports
    decreases n
  {
    if n > 0 {
      GoodVfifoEnds(a, cfg, bgn, r, n - 1);
      var r1 := VfifoEndRun(a, cfg, bgn, r, n - 1);
      GoodCentres(a, cfg, FromVfifoEnd(bgn + n - 1), 0, Centring(true, 0, r1.log, r1.reports), cfg.skipShadowRegs);
    }
  }

  lemma GoodGroup(a: Answers, cfg: Config, g: nat, r: Run)
    requires GoodFrom(a, |r.log|) && Tries(cfg)
    ensures var r' := GroupRun(a, cfg, g, r); r'.ok && |r'.log| >= |r.log| && r'.reports == r.reports
  {
    var begun := r.(ok := true);
    GoodVfifos(a, cfg, g * cfg.ratio, begun, cfg.ratio);
    var read := VfifoRun(a, cfg, g * cfg.ratio, begun, cfg.ratio);
    GoodWrites(a, cfg, g, read, cfg.skipShadowRegs);
    GoodVfifoEnds(a, cfg, g * cfg.ratio, WritesRun(a, cfg, g, read, cfg.skipShadowRegs), cfg.ratio);
  }

  lemma {:induction false} GoodGroups(a: Answers, cfg: Config, n: nat)
    requires GoodFrom(a, 0) && Tries(cfg)
    ensures var r := GroupsRun(a, cfg, n); r.ok && r.reports == []
    decreases n
  {
    if n > 0 {
      GoodGroups(a, cfg, n - 1);
      GoodGroup(a, cfg, n - 1, GroupsRun(a, cfg, n - 1));
    }
  }

  /** A memory that answers well every time calibrates, whatever the sizes, and nothing is reported. */
  lemma PerfectMemoryCalibrates(a: Answers, cfg: Config, readLatency: nat)
    requires GoodFrom(a, 0) && Tries(cfg) && a.latency(StartLatency(readLatency))
    ensures Calibration(a, cfg, readLatency).ok && Calibration(a, cfg, readLatency).reports == []
  {
    GoodGroups(a, cfg, cfg.groups);
  }

  // ---- a pass that records a failure ---------------------------------------------------------------

  /** An attempt that finds a pin without a window reports it, and the next one starts from the same delay. */
  lemma NoWindowTap(a: Answers, cfg: Config, t: Attempt, at: Setting, pin: nat)
    requires cfg.skipShadowRegs == [false] && a.dqsEnable(|t.log|, at)
    requires a.readCentre(|t.log| + 1, FromVfifo(at)) == Deskew.NoWindow(pin)
    ensures TryTap(a, cfg, t, at.dqs, at) ==
              Attempt(false, at.dqs, SUBSTAGE_VFIFO_CENTER,
                      t.log + [Search(at, true)] + [Centre(FromVfifo(at), Deskew.NoWindow(pin))],
                      t.reports + [Report(at.group * cfg.readPins + pin, STAGE_VFIFO, SUBSTAGE_VFIFO_CENTER)])
  {
    assert !cfg.skipShadowRegs[0] && cfg.skipShadowRegs[..0] == [];
    var from, c := FromVfifo(at), Centring(true, at.dqs, t.log + [Search(at, true)], t.reports);
    assert CentreEach(a, cfg, from, at.dqs, c, cfg.skipShadowRegs[..0]) == c;
    assert CentreEach(a, cfg, from, at.dqs, c, cfg.skipShadowRegs) == CentreOne(a, cfg, from, at.dqs, c);
  }

  /** The first attempt at group 0 finds a pin without a window, and every later answer is good. */
  ghost predicate FirstPinMissing(a: Answers, cfg: Config) {
    && cfg.skipShadowRegs == [false] && cfg.disableGuaranteedRead && cfg.reserve < cfg.dqsInMax && Tries(cfg)
    && a.dqsEnable(0, Setting(0, 0, 0, cfg.reserve))
    && a.readCentre(1, FromVfifo(Setting(0, 0, 0, cfg.reserve))) == Deskew.NoWindow(0)
    && GoodFrom(a, 2)
  }

  lemma SecondDelayWorks(a: Answers, cfg: Config)
    requires FirstPinMissing(a, cfg)
    ensures var r := VfifoStage(a, cfg, 0, Run(true, [], [], []));
            r.ok && |r.log| >= 2 && r.reports == [Report(0, STAGE_VFIFO, SUBSTAGE_VFIFO_CENTER)]
  {
    var begun, at := Run(true, [], [], []), Setting(0, 0, 0, cfg.reserve);
    var t := Start(cfg, begun);
    NoWindowTap(a, cfg, t, at, 0);
    var t1, at1 := TryTap(a, cfg, t, at.dqs, at), at.(dqs := at.dqs + 1);
    GoodTap(a, cfg, t1, at.dqs, at1);
    var t2 := TryTap(a, cfg, t1, at.dqs, at1);
    assert TryTaps(a, cfg, t1, at.dqs, at1) == TryTaps(a, cfg, t2, at.dqs, at1.(dqs := at1.dqs + 1)) == t2;
    FirstPhaseEnds(a, cfg, 0, begun, t2);
  }

  /** A run that passes and yet records a failure: a pass does not mean that the recorded stage is empty. */
  lemma PassMayRecordFailure(a: Answers, cfg: Config, readLatency: nat)
    requires cfg.groups == 1 && cfg.ratio == 1 && cfg.skipGroups == {} && !cfg.skipAll
    requires FirstPinMissing(a, cfg) && a.latency(StartLatency(readLatency))
    ensures var r := Calibration(a, cfg, readLatency);
            r.ok && r.reports == [Report(0, STAGE_VFIFO, SUBSTAGE_VFIFO_CENTER)]
  {
    var begun := Run(true, [], [], []);
    SecondDelayWorks(a, cfg);
    var read := VfifoStage(a, cfg, 0, begun);
    assert VfifoRun(a, cfg, 0, begun, 0) == begun && VfifoRun(a, cfg, 0, begun, 1) == read;
    GoodWrites(a, cfg, 0, read, cfg.skipShadowRegs);
    GoodVfifoEnds(a, cfg, 0, WritesRun(a, cfg, 0, read, cfg.skipShadowRegs), 1);
    assert 0 !in cfg.skipGroups && cfg.Runs(0);
    assert GroupsRun(a, cfg, 0) == begun && GroupsRun(a, cfg, 1) == GroupRun(a, cfg, 0, begun);
  }

  lemma PinNumberAsGroup(g: nat, pins: nat, pin: nat, groups: nat)
    requires pin < pins && g < groups
    ensures var number := g * pins + pin;
            && number / pins == g && number % pins == pin
            && (number == g <==> pin == 0 && (g == 0 || pins == 1))
            && (pins >= groups && g > 0 ==> number >= groups)
  {
    DivModUnique(g * pins + pin, g, pin, pins);
    if g > 0 {
      MulAtLeast(g, pins);
      if pins > 1 {
        MulMonotone(2, pins, g);
        assert g * pins == pins * g;
      }
    }
  }

  /** `report` names pin `pin` of group `g`, of `pins` each, by a number that is read where a group is expected. */
  predicate NamesPin(report: Report, g: nat, pins: nat, pin: nat, groups: nat)
    requires pins > 0
  {
    && report.group / pins == g && report.group % pins == pin
    && (report.group == g <==> pin == 0 && (g == 0 || pins == 1))
    && (pins >= groups && g > 0 ==> report.group >= groups)
  }

  /**
   A pin is reported where a group is expected. Group and pin can be told from the number, but it is that of the
   group only for the first pin of the first group, or when a group has one pin. With as many pins as groups it is
   no group at all from group 1 on.
   */
  lemma PinReportedAsGroup(cfg: Config, from: Caller, pin: nat, groups: nat)
    requires from.Group() < groups
    ensures pin < cfg.readPins ==>
              var reports := PinReport(cfg, from, Deskew.NoWindow(pin));
              && |reports| == 1 && NamesPin(reports[0], from.Group(), cfg.readPins, pin, groups)
              && reports[0].stage == from.Stage()
    ensures pin < cfg.writePins ==>
              var reports := WritePinReport(cfg, from.Group(), Deskew.NoWindow(pin));
              && |reports| == 1 && NamesPin(reports[0], from.Group(), cfg.writePins, pin, groups)
              && reports[0].stage == STAGE_WRITES
  {
    if pin < cfg.readPins {
      PinNumberAsGroup(from.Group(), cfg.readPins, pin, groups);
    }
    if pin < cfg.writePins {
      PinNumberAsGroup(from.Group(), cfg.writePins, pin, groups);
    }
  }
}
