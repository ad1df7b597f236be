/**
 The whole calibration run: the order of the stages, what is recorded when one fails, and the outcome
 that is published. What a stage finds out comes from the environment, attempt by attempt, and may depend
 on the settings and on everything asked before; the log of a run keeps every question with its answer.
 */
module Calibrate {
  import opened Modular
  import Deskew
  import WriteCentre

  const STAGE_NIL: nat := 0
  const STAGE_VFIFO: nat := 1
  const STAGE_LFIFO: nat := 3
  const STAGE_WRITES: nat := 4
  const STAGE_VFIFO_AFTER_WRITES: nat := 9

  const SUBSTAGE_NIL: nat := 0
  const SUBSTAGE_GUARANTEED_READ: nat := 1
  const SUBSTAGE_DQS_EN_PHASE: nat := 2
  const SUBSTAGE_VFIFO_CENTER: nat := 3
  const SUBSTAGE_WRITES_CENTER: nat := 1
  const SUBSTAGE_READ_LATENCY: nat := 1

  const TWO_TO_32: int := 0x1_0000_0000

  datatype CalStatus = CalReset | CalSuccess | CalFail

  /** The triple kept for the debugger. */
  datatype Report = Report(group: nat, stage: nat, substage: nat)

  const NO_REPORT := Report(0xff, STAGE_NIL, SUBSTAGE_NIL)

  /** Stages that passed; a write stage belongs to a shadow register as well. */
  datatype Stage = Vfifo(readGroup: nat) | Writes(sr: nat, group: nat) | VfifoEnd(readGroup: nat) | Lfifo

  /** Sizes and settings of a run. */
  datatype Config = Config(
    groups: nat,               // write groups
    ratio: nat,                // read groups per write group
    readPins: nat, writePins: nat,
    attempts: nat,             // DQ output delays tried by the VFIFO stage, every other tap
    phases: nat,               // output phases tried for each of them
    reserve: nat, dqsInMax: nat,
    skipGroups: set<nat>, skipShadowRegs: seq<bool>,
    sweepAllGroups: bool, disableGuaranteedRead: bool,
    skipAll: bool)
  {
    predicate Valid() {
      0 < groups && 0 < ratio && |skipShadowRegs| > 0
    }

    /** How many results of a write group may go into the figures of merit. */
    function ResultsPerGroup(): nat {
      |skipShadowRegs| + ratio * |skipShadowRegs|
    }

    /** A write group runs unless all its read groups are marked as skipped. */
    predicate Runs(g: nat) {
      exists r: nat :: g * ratio <= r < (g + 1) * ratio && r !in skipGroups
    }
  }

  /** Where an attempt of the VFIFO stage is made: output delay, output phase, DQS input delay. */
  datatype Setting = Setting(group: nat, delay: nat, phase: nat, dqs: nat)

  /** Read centring is called from the VFIFO stage, with DQS at a given delay, and again after the writes. */
  datatype Caller = FromVfifo(at: Setting) | FromVfifoEnd(readGroup: nat) {
    function Group(): nat {
      if FromVfifo? then at.group else readGroup
    }

    /** The stage that read centring reports. */
    function Stage(): nat {
      if FromVfifo? then STAGE_VFIFO else STAGE_VFIFO_AFTER_WRITES
    }
  }

  /** What was asked of the hardware, and the answer. */
  datatype Event =
    | GuaranteedRead(at: Setting, pass: bool)
    | Search(at: Setting, found: bool)                       // DQS enable
    | Centre(from: Caller, read: Deskew.Outcome)
    | Write(sr: nat, group: nat, written: WriteCentre.WriteResult)

  /** The answers; the first argument is the number of questions asked before. */
  datatype Answers = Answers(
    guaranteedRead: (nat, Setting) -> bool,
    dqsEnable: (nat, Setting) -> bool,
    readCentre: (nat, Caller) -> Deskew.Outcome,
    readDqs: (nat, Caller) -> nat,        // where read centring leaves the DQS input delay when every pin has a window
    writeCentre: (nat, nat) -> WriteCentre.WriteResult,
    latency: nat -> bool)                 // by read latency: each is tried at most once

  // ---- the plan of a full run --------------------------------------------------------------------

  function VfifoPlan(bgn: nat, n: nat): seq<Stage> {
    if n == 0 then [] else VfifoPlan(bgn, n - 1) + [Vfifo(bgn + n - 1)]
  }

  function VfifoEndPlan(bgn: nat, n: nat): seq<Stage> {
    if n == 0 then [] else VfifoEndPlan(bgn, n - 1) + [VfifoEnd(bgn + n - 1)]
  }

  function WritesPlan(g: nat, skip: seq<bool>): seq<Stage> {
    if skip == [] then []
    else WritesPlan(g, skip[..|skip| - 1]) + if skip[|skip| - 1] then [] else [Writes(|skip| - 1, g)]
  }

  function GroupPlan(cfg: Config, g: nat): seq<Stage> {
    VfifoPlan(g * cfg.ratio, cfg.ratio) + WritesPlan(g, cfg.skipShadowRegs) + VfifoEndPlan(g * cfg.ratio, cfg.ratio)
  }

  /** The stages of write groups 0..n-1, in order. */
  function Plan(cfg: Config, n: nat): seq<Stage> {
    if n == 0 then [] else Plan(cfg, n - 1) + if cfg.Runs(n - 1) then GroupPlan(cfg, n - 1) else []
  }

  // ---- the outcome as a function of the answers ----------------------------------------------------

  /** A centring that succeeded. */
  predicate Centres(o: Deskew.Outcome) {
    o.Margins? && o.dq >= 0 && o.dqs >= 0
  }

  /** A centring that programmed its pins succeeds exactly when every pin ends inside its window. */
  lemma CentresIff(windows: seq<(int, int)>, side: Deskew.Side, below: seq<int>, dqMax: nat, dqsMax: nat, start: int,
                   left: seq<int>, right: seq<int>, delays: seq<int>, dqs: int, o: Deskew.Outcome)
    requires o.Margins? && Deskew.EdgesMatch(windows, left, right)
    requires Deskew.Centred(side, below, dqMax, dqsMax, start, left, right, delays, dqs, o.dq, o.dqs)
    ensures Centres(o) <==> Deskew.Inside(windows, start, delays, dqs)
  {
    Deskew.MarginsExact(windows, side, below, dqMax, dqsMax, start, left, right, delays, dqs, o.dq, o.dqs);
  }

  predicate AllSkipped(skip: seq<bool>) {
    forall i :: 0 <= i < |skip| ==> skip[i]
  }

  /** What read centring reports by itself: a pin without a window, by pin number where a group is expected. */
  function PinReport(cfg: Config, from: Caller, o: Deskew.Outcome): seq<Report> {
    match o
    case NoWindow(pin) => [Report(from.Group() * cfg.readPins + pin, from.Stage(), SUBSTAGE_VFIFO_CENTER)]
    case _ => []
  }

  /** What came of centring: success, the DQS input delay, the log and all reports. */
  datatype Centring = Centring(ok: bool, dqs: nat, log: seq<Event>, reports: seq<Report>)

  /** Read centring for one shadow register, from DQS at `start`. */
  function CentreOne(a: Answers, cfg: Config, from: Caller, start: nat, c: Centring): Centring {
    var o := a.readCentre(|c.log|, from);
    Centring(Centres(o), if o.Margins? then a.readDqs(|c.log|, from) else start, c.log + [Centre(from, o)],
             c.reports + PinReport(cfg, from, o))
  }

  /** The same for every shadow register that is not skipped; all have to succeed. */
  function CentreEach(a: Answers, cfg: Config, from: Caller, start: nat, c: Centring, skip: seq<bool>): Centring {
    if skip == [] then c
    else
      var c1 := CentreEach(a, cfg, from, start, c, skip[..|skip| - 1]);
      if skip[|skip| - 1] then c1
      else
        var c2 := CentreOne(a, cfg, from, start, c1);
        c2.(ok := c1.ok && c2.ok)
  }

  /** What came of some attempts: success, the DQS input delay, what failed last, the log and all reports. */
  datatype Attempt = Attempt(ok: bool, dqs: nat, failed: nat, log: seq<Event>, reports: seq<Report>)

  /** The setting that a search is made at: DQS stays where it is when all shadow registers are skipped. */
  function Loaded(cfg: Config, dqs: nat, at: Setting): Setting {
    if AllSkipped(cfg.skipShadowRegs) then at.(dqs := dqs) else at
  }

  /** One attempt at a setting: DQS enable search there, then centring from DQS at `start`. */
  function TryTap(a: Answers, cfg: Config, t: Attempt, start: nat, at: Setting): Attempt {
    var loaded := Loaded(cfg, t.dqs, at);
    var found := a.dqsEnable(|t.log|, loaded);
    var log := t.log + [Search(loaded, found)];
    if !found then Attempt(false, loaded.dqs, SUBSTAGE_DQS_EN_PHASE, log, t.reports)
    else
      var c := CentreEach(a, cfg, FromVfifo(at.(dqs := start)), start, Centring(true, loaded.dqs, log, t.reports),
                          cfg.skipShadowRegs);
      Attempt(c.ok, c.dqs, SUBSTAGE_VFIFO_CENTER, c.log, c.reports)
  }

  /** DQS input delays from that of `at` on, until one works. */
  function TryTaps(a: Answers, cfg: Config, t: Attempt, start: nat, at: Setting): Attempt
    decreases cfg.dqsInMax + 1 - at.dqs
  {
    if at.dqs > cfg.dqsInMax || t.ok then t
    else TryTaps(a, cfg, TryTap(a, cfg, t, start, at), start, at.(dqs := at.dqs + 1))
  }

  /** The guaranteed read that comes before the delays of a phase, unless it is switched off. */
  function Guaranteed(a: Answers, cfg: Config, t: Attempt, at: Setting): (bool, Attempt) {
    if cfg.disableGuaranteedRead then (true, t)
    else
      var pass := a.guaranteedRead(|t.log|, at);
      (pass, t.(log := t.log + [GuaranteedRead(at, pass)]))
  }

  /**
   Output phases from `p` on, until one works or the guaranteed read fails. The delays start where the
   last attempt left them.
   */
  function TryPhases(a: Answers, cfg: Config, g: nat, d: nat, t: Attempt, p: nat): Attempt
    decreases cfg.phases - p
  {
    if p >= cfg.phases || t.ok then t
    else
      var at := Setting(g, d, p, t.dqs);
      var (pass, t1) := Guaranteed(a, cfg, t, at);
      if !pass then t1 else TryPhases(a, cfg, g, d, TryTaps(a, cfg, t1, t.dqs, at), p + 1)
  }

  /** Output delays from `d` on, until one works. */
  function TryDelays(a: Answers, cfg: Config, g: nat, t: Attempt, d: nat): Attempt
    decreases cfg.attempts - d
  {
    if d >= cfg.attempts || t.ok then t else TryDelays(a, cfg, g, TryPhases(a, cfg, g, d, t, 0), d + 1)
  }

  /** Success, the log, all reports, and all stages that passed. */
  datatype Run = Run(ok: bool, log: seq<Event>, reports: seq<Report>, passed: seq<Stage>)

  function Start(cfg: Config, r: Run): Attempt {
    Attempt(false, cfg.reserve, SUBSTAGE_GUARANTEED_READ, r.log, r.reports)
  }

  /** The end of a stage: it is passed, or its failure is reported. */
  function Close(ok: bool, log: seq<Event>, reports: seq<Report>, passed: seq<Stage>, stage: Stage,
                 failure: Report): Run
  {
    if ok then Run(true, log, reports, passed + [stage]) else Run(false, log, reports + [failure], passed)
  }

  /** The VFIFO stage of read group `g`. */
  function VfifoStage(a: Answers, cfg: Config, g: nat, r: Run): Run {
    var t := TryDelays(a, cfg, g, Start(cfg, r), 0);
    Close(t.ok, t.log, t.reports, r.passed, Vfifo(g), Report(g, STAGE_VFIFO, t.failed))
  }

  /** What write centring reports by itself. */
  function WritePinReport(cfg: Config, g: nat, o: Deskew.Outcome): seq<Report> {
    match o
    case NoWindow(pin) => [Report(g * cfg.writePins + pin, STAGE_WRITES, SUBSTAGE_WRITES_CENTER)]
    case _ => []
  }

  /** The write stage of group `g` for shadow register `sr`. */
  function WriteStage(a: Answers, cfg: Config, sr: nat, g: nat, r: Run): Run {
    var w := a.writeCentre(|r.log|, g);
    Close(w.Passed(), r.log + [Write(sr, g, w)], r.reports + WritePinReport(cfg, g, w.outcome), r.passed,
          Writes(sr, g), Report(g, STAGE_WRITES, SUBSTAGE_WRITES_CENTER))
  }

  /** The read-after-write stage of read group `g`. */
  function VfifoEndStage(a: Answers, cfg: Config, g: nat, r: Run): Run {
    var c := CentreEach(a, cfg, FromVfifoEnd(g), 0, Centring(true, 0, r.log, r.reports), cfg.skipShadowRegs);
    Close(c.ok, c.log, c.reports, r.passed, VfifoEnd(g), Report(g, STAGE_VFIFO_AFTER_WRITES, SUBSTAGE_VFIFO_CENTER))
  }

  /** The VFIFO stages of `n` read groups from `bgn` on, up to the first that fails. */
  function VfifoRun(a: Answers, cfg: Config, bgn: nat, r: Run, n: nat): Run {
    if n == 0 then r
    else
      var r1 := VfifoRun(a, cfg, bgn, r, n - 1);
      if r1.ok then VfifoStage(a, cfg, bgn + n - 1, r1) else r1
  }

  /** The write stages of the shadow registers; after a failure only when all are swept. */
  function WritesRun(a: Answers, cfg: Config, g: nat, r: Run, skip: seq<bool>): Run {
    if skip == [] then r
    else
      var r1 := WritesRun(a, cfg, g, r, skip[..|skip| - 1]);
      if skip[|skip| - 1] || (!r1.ok && !cfg.sweepAllGroups) then r1
      else
        var r2 := WriteStage(a, cfg, |skip| - 1, g, r1);
        r2.(ok := r1.ok && r2.ok)
  }

  /** The read-after-write stages of `n` read groups from `bgn` on, up to the first that fails. */
  function VfifoEndRun(a: Answers, cfg: Config, bgn: nat, r: Run, n: nat): Run {
    if n == 0 then r
    else
      var r1 := VfifoEndRun(a, cfg, bgn, r, n - 1);
      if r1.ok then VfifoEndStage(a, cfg, bgn + n - 1, r1) else r1
  }

  /** All stages of one write group, up to the first that fails. */
  function GroupRun(a: Answers, cfg: Config, g: nat, r: Run): Run {
    var read := VfifoRun(a, cfg, g * cfg.ratio, r.(ok := true), cfg.ratio);
    if !read.ok then read
    else
      var written := WritesRun(a, cfg, g, read, cfg.skipShadowRegs);
      if !written.ok then written else VfifoEndRun(a, cfg, g * cfg.ratio, written, cfg.ratio)
  }

  /** The first `n` write groups; after a failure only when all are swept. */
  function GroupsRun(a: Answers, cfg: Config, n: nat): Run {
    if n == 0 then Run(true, [], [], [])
    else
      var r1 := GroupsRun(a, cfg, n - 1);
      if !cfg.Runs(n - 1) || (!r1.ok && !cfg.sweepAllGroups) then r1
      else
        var r2 := GroupRun(a, cfg, n - 1, r1);
        r2.(ok := r1.ok && r2.ok)
  }

  const SKIP_LATENCY: nat := 8

  /** The read latency that the search starts from. */
  function StartLatency(readLatency: nat): (latency: nat)
    ensures latency <= 31 && latency <= readLatency + 16 && (latency == 31 || latency == readLatency + 16)
  {
    if readLatency + 16 > 31 then 31 else readLatency + 16
  }

  /** The whole run. */
  function Calibration(a: Answers, cfg: Config, readLatency: nat): Run {
    if cfg.skipAll then Run(true, [], [], [])
    else
      var r := GroupsRun(a, cfg, cfg.groups);
      if !r.ok || cfg.skipGroups != {} then r
      else Close(a.latency(StartLatency(readLatency)), r.log, r.reports, r.passed, Lfifo,
                 Report(0xff, STAGE_LFIFO, SUBSTAGE_READ_LATENCY))
  }

  // ---- the figures of merit of a log ---------------------------------------------------------------

  /** Division as C does it, towards zero. */
  function Truncate(x: int, n: nat): int
    requires n > 0
  {
    if x >= 0 then x / n else -(-x / n)
  }

  /** What one question adds to the input figure: margins found after the writes, shared among the read groups. */
  function InShare(ratio: nat, e: Event): int
    requires ratio > 0
  {
    match e
    case Centre(FromVfifoEnd(_), Margins(dq, dqs)) => Truncate(dq + dqs, ratio)
    case _ => 0
  }

  /** What one question adds to the output figure: margins found by the write stages. */
  function OutShare(e: Event): int {
    match e
    case Write(_, _, WriteResult(Margins(dq, dqs), _)) => dq + dqs
    case _ => 0
  }

  /** The input figure of the first `n` events. */
  function FomInOf(ratio: nat, log: seq<Event>, n: nat): int
    requires ratio > 0 && n <= |log|
  {
    if n == 0 then 0 else FomInOf(ratio, log, n - 1) + InShare(ratio, log[n - 1])
  }

  function FomIn(ratio: nat, log: seq<Event>): int
    requires ratio > 0
  {
    FomInOf(ratio, log, |log|)
  }

  /** The output figure of the first `n` events. */
  function FomOutOf(log: seq<Event>, n: nat): int
    requires n <= |log|
  {
    if n == 0 then 0 else FomOutOf(log, n - 1) + OutShare(log[n - 1])
  }

  function FomOut(log: seq<Event>): int {
    FomOutOf(log, |log|)
  }

  lemma {:induction false} FomOfPrefix(ratio: nat, log: seq<Event>, log': seq<Event>, n: nat)
    requires ratio > 0 && n <= |log| && log <= log'
    ensures FomInOf(ratio, log', n) == FomInOf(ratio, log, n) && FomOutOf(log', n) == FomOutOf(log, n)
    decreases n
  {
    if n > 0 {
      FomOfPrefix(ratio, log, log', n - 1);
    }
  }

  lemma FomOfMore(ratio: nat, log: seq<Event>, e: Event)
    requires ratio > 0
    ensures FomIn(ratio, log + [e]) == FomIn(ratio, log) + InShare(ratio, e)
    ensures FomOut(log + [e]) == FomOut(log) + OutShare(e)
  {
    FomOfPrefix(ratio, log, log + [e], |log|);
  }

  lemma WrapAdd(x: int, m: int)
    ensures (x % TWO_TO_32 + m) % TWO_TO_32 == (x + m) % TWO_TO_32
  {
  }

  /** The 32-bit figures after one more question. */
  lemma Sums(ratio: nat, log: seq<Event>, e: Event)
    requires ratio > 0
    ensures FomIn(ratio, log + [e]) % TWO_TO_32 == (FomIn(ratio, log) % TWO_TO_32 + InShare(ratio, e)) % TWO_TO_32
    ensures FomOut(log + [e]) % TWO_TO_32 == (FomOut(log) % TWO_TO_32 + OutShare(e)) % TWO_TO_32
  {
    FomOfMore(ratio, log, e);
    WrapAdd(FomIn(ratio, log), InShare(ratio, e));
    WrapAdd(FomOut(log), OutShare(e));
  }

  // ---- the run -----------------------------------------------------------------------------------

  class Calibrator {
    const cfg: Config
    var answers: Answers         // what the hardware will answer in this run
    var log: seq<Event>          // the questions asked in this run, with their answers
    var error: Report
    var reports: seq<Report>     // every failure reported in this run, in order
    var passed: seq<Stage>       // every stage passed in this run, in order
    var currReadLat: nat
    var fomIn: nat               // 32 bits wide
    var fomOut: nat

    constructor (cfg: Config, answers: Answers)
      requires cfg.Valid()
      ensures Valid() && this.cfg == cfg && this.answers == answers
    {
      this.cfg, this.answers := cfg, answers;
      log, error, reports, passed, currReadLat, fomIn, fomOut := [], NO_REPORT, [], [], 1, 0, 0;
    }

    /** The triple is that of the first failure reported. */
    ghost predicate Recorded()
      reads this
    {
      && error == (if reports == [] then NO_REPORT else reports[0])
      && (error.stage == STAGE_NIL <==> reports == [])
    }

    /** The figures of merit are those of the log, in 32 bits. */
    ghost predicate Summed()
      reads this
    {
      && cfg.Valid()
      && fomIn == FomIn(cfg.ratio, log) % TWO_TO_32
      && fomOut == FomOut(log) % TWO_TO_32
    }

    ghost predicate Valid()
      reads this
    {
      Recorded() && Summed()
    }

    /** What no stage changes. */
    twostate predicate Kept()
      reads this
    {
      answers == old(answers) && currReadLat == old(currReadLat)
    }

    /** The run so far. */
    ghost function Sofar(ok: bool): Run
      reads this
    {
      Run(ok, log, reports, passed)
    }

    method SetFailingGroupStage(group: nat, stage: nat, substage: nat)
      requires Recorded() && stage != STAGE_NIL
      modifies this`error, this`reports
      ensures Recorded() && reports == old(reports) + [Report(group, stage, substage)]
    {
      if error.stage == STAGE_NIL {
        error := Report(group, stage, substage);
      }
      reports := reports + [Report(group, stage, substage)];
    }

    /** A result goes into one of the figures of merit. */
    method AddFom(output: bool, m: int)
      modifies this`fomIn, this`fomOut
      ensures fomIn == if output then old(fomIn) else (old(fomIn) + m) % TWO_TO_32
      ensures fomOut == if output then (old(fomOut) + m) % TWO_TO_32 else old(fomOut)
    {
      if output {
        fomOut := (fomOut + m) % TWO_TO_32;
      } else {
        fomIn := (fomIn + m) % TWO_TO_32;
      }
    }

    /** A question and its answer, with what it adds to the figures of merit. */
    method Note(e: Event)
      requires Valid()
      modifies this`log, this`fomIn, this`fomOut
      ensures Valid() && log == old(log) + [e]
    {
      Sums(cfg.ratio, log, e);
      log := log + [e];
      match e {
        case Centre(FromVfifoEnd(_), Margins(dq, dqs)) =>
          AddFom(false, Truncate(dq + dqs, cfg.ratio));
        case Write(_, _, WriteResult(Margins(dq, dqs), _)) =>
          AddFom(true, dq + dqs);
        case _ =>
      }
    }

    /** Read centring of one read group from DQS at `start`, with its own report when a pin has no window. */
    method VfifoCenter(from: Caller, start: nat) returns (ok: bool, dqs: nat)
      requires Valid()
      modifies this
      ensures Valid() && Kept() && passed == old(passed)
      ensures Centring(ok, dqs, log, reports) ==
                CentreOne(answers, cfg, from, start, Centring(true, start, old(log), old(reports)))
    {
      var k, o := |log|, answers.readCentre(|log|, from);
      Note(Centre(from, o));
      match o
      case NoWindow(pin) =>
        SetFailingGroupStage(from.Group() * cfg.readPins + pin, from.Stage(), SUBSTAGE_VFIFO_CENTER);
        ok, dqs := false, start;
      case Margins(dqMargin, dqsMargin) =>
        dqs := answers.readDqs(k, from);
        ok := dqMargin >= 0 && dqsMargin >= 0;
    }

    /** Read centring of a group for every shadow register that is not skipped, each time from DQS at `start`. */
    method VfifoCenterAll(from: Caller, start: nat, dqs0: nat) returns (ok: bool, dqs: nat)
      requires Valid()
      modifies this
      ensures Valid() && Kept() && passed == old(passed)
      ensures Centring(ok, dqs, log, reports) ==
                CentreEach(answers, cfg, from, start, Centring(true, dqs0, old(log), old(reports)), cfg.skipShadowRegs)
    {
      ghost var c := Centring(true, dqs0, log, reports);
      ok, dqs := true, dqs0;
      var sr := 0;
      while sr < |cfg.skipShadowRegs|
        invariant sr <= |cfg.skipShadowRegs|
        invariant Valid() && Kept() && passed == old(passed)
        invariant Centring(ok, dqs, log, reports) == CentreEach(answers, cfg, from, start, c, cfg.skipShadowRegs[..sr])
      {
        assert cfg.skipShadowRegs[..sr + 1][..sr] == cfg.skipShadowRegs[..sr];
        if !cfg.skipShadowRegs[sr] {
          var centred;
          centred, dqs := VfifoCenter(from, start);
          if !centred {
            ok := false;
          }
        }
        sr := sr + 1;
      }
      assert cfg.skipShadowRegs[..sr] == cfg.skipShadowRegs;
    }

    /** DQS enable search and read centring at one DQS input delay. */
    method TryReadGroup(at: Setting, start: nat, dqs0: nat, ghost t: Attempt)
      returns (ok: bool, dqs: nat, failed: nat)
      requires Valid() && t.log == log && t.reports == reports && t.dqs == dqs0
      modifies this
      ensures Valid() && Kept() && passed == old(passed)
      ensures Attempt(ok, dqs, failed, log, reports) == TryTap(answers, cfg, t, start, at)
    {
      var loaded := Loaded(cfg, dqs0, at);
      ok, dqs, failed := answers.dqsEnable(|log|, loaded), loaded.dqs, SUBSTAGE_DQS_EN_PHASE;
      Note(Search(loaded, ok));
      if ok {
        ok, dqs := VfifoCenterAll(FromVfifo(at.(dqs := start)), start, dqs);
        failed := SUBSTAGE_VFIFO_CENTER;
      }
    }

    /** DQS input delays from where DQS is, until one works. */
    method TryReadDelays(at: Setting, failed0: nat, ghost t: Attempt) returns (ok: bool, dqs: nat, failed: nat)
      requires Valid() && t == Attempt(false, at.dqs, failed0, log, reports)
      modifies this
      ensures Valid() && Kept() && passed == old(passed)
      ensures Attempt(ok, dqs, failed, log, reports) == TryTaps(answers, cfg, t, at.dqs, at)
    {
      ok, dqs, failed := false, at.dqs, failed0;
      var tap := at.dqs;
      while tap <= cfg.dqsInMax && !ok
        invariant Valid() && Kept() && passed == old(passed)
        invariant TryTaps(answers, cfg, t, at.dqs, at) ==
                  TryTaps(answers, cfg, Attempt(ok, dqs, failed, log, reports), at.dqs, at.(dqs := tap))
      {
        ghost var t1 := Attempt(ok, dqs, failed, log, reports);
        OneMoreTap(answers, cfg, t1, at.dqs, at.(dqs := tap));
        ok, dqs, failed := TryReadGroup(at.(dqs := tap), at.dqs, dqs, t1);
        tap := tap + 1;
      }
    }

    /** Output phases until one works; the guaranteed read comes first, and ends them when it fails. */
    method TryReadPhases(g: nat, d: nat, dqs0: nat, failed0: nat, ghost t: Attempt)
      returns (ok: bool, dqs: nat, failed: nat)
      requires Valid() && t == Attempt(false, dqs0, failed0, log, reports)
      modifies this
      ensures Valid() && Kept() && passed == old(passed)
      ensures Attempt(ok, dqs, failed, log, reports) == TryPhases(answers, cfg, g, d, t, 0)
    {
      ok, dqs, failed := false, dqs0, failed0;
      var p := 0;
      while p < cfg.phases && !ok
        invariant Valid() && Kept() && passed == old(passed)
        invariant TryPhases(answers, cfg, g, d, t, 0) ==
                  TryPhases(answers, cfg, g, d, Attempt(ok, dqs, failed, log, reports), p)
      {
        var at := Setting(g, d, p, dqs);
        if !cfg.disableGuaranteedRead {
          var guaranteed := answers.guaranteedRead(|log|, at);
          Note(GuaranteedRead(at, guaranteed));
          if !guaranteed {
            break;
          }
        }
        ok, dqs, failed := TryReadDelays(at, failed, Attempt(false, dqs, failed, log, reports));
        p := p + 1;
      }
    }

    /** The VFIFO stage of a read group: output delays, output phases and DQS input delays until one works. */
    method CalibrateVfifo(g: nat) returns (ok: bool)
      requires Valid()
      modifies this
      ensures Valid() && Kept() && Sofar(ok) == VfifoStage(answers, cfg, g, old(Sofar(true)))
    {
      ghost var t := Start(cfg, Sofar(true));
      var dqs, failed := cfg.reserve, SUBSTAGE_GUARANTEED_READ;
      var d := 0;
      ok := false;
      while d < cfg.attempts && !ok
        invariant Valid() && Kept() && passed == old(passed)
        invariant TryDelays(answers, cfg, g, t, 0) ==
                  TryDelays(answers, cfg, g, Attempt(ok, dqs, failed, log, reports), d)
      {
        ghost var t1 := Attempt(ok, dqs, failed, log, reports);
        ok, dqs, failed := TryReadPhases(g, d, dqs, failed, t1);
        d := d + 1;
      }
      if ok {
        passed := passed + [Vfifo(g)];
      } else {
        SetFailingGroupStage(g, STAGE_VFIFO, failed);
      }
    }

    /** Write centring of a group, with its own report when a pin has no window. */
    method WritesCenter(sr: nat, g: nat) returns (ok: bool)
      requires Valid()
      modifies this
      ensures Valid() && Kept() && passed == old(passed)
      ensures var w := answers.writeCentre(|old(log)|, g);
              && ok == w.Passed() && log == old(log) + [Write(sr, g, w)]
              && reports == old(reports) + WritePinReport(cfg, g, w.outcome)
    {
      var w := answers.writeCentre(|log|, g);
      Note(Write(sr, g, w));
      if w.outcome.NoWindow? {
        SetFailingGroupStage(g * cfg.writePins + w.outcome.pin, STAGE_WRITES, SUBSTAGE_WRITES_CENTER);
      }
      ok := w.Passed();
    }

    /** The write stage of a group for one shadow register. */
    method CalibrateWrites(sr: nat, g: nat) returns (ok: bool)
      requires Valid()
      modifies this
      ensures Valid() && Kept() && Sofar(ok) == WriteStage(answers, cfg, sr, g, old(Sofar(true)))
    {
      ok := WritesCenter(sr, g);
      if ok {
        passed := passed + [Writes(sr, g)];
      } else {
        SetFailingGroupStage(g, STAGE_WRITES, SUBSTAGE_WRITES_CENTER);
      }
    }

    /** Read centring again, after the writes. */
    method CalibrateVfifoEnd(g: nat) returns (ok: bool)
      requires Valid()
      modifies this
      ensures Valid() && Kept() && Sofar(ok) == VfifoEndStage(answers, cfg, g, old(Sofar(true)))
    {
      var dqs;
      ok, dqs := VfifoCenterAll(FromVfifoEnd(g), 0, 0);
      if ok {
        passed := passed + [VfifoEnd(g)];
      } else {
        SetFailingGroupStage(g, STAGE_VFIFO_AFTER_WRITES, SUBSTAGE_VFIFO_CENTER);
      }
    }

    /** The smallest read latency reached from the current one through passing latencies, plus one. */
    method CalibrateLfifo() returns (ok: bool)
      requires Valid() && currReadLat > 0
      modifies this
      ensures Valid() && answers == old(answers)
      ensures Sofar(ok) == Close(answers.latency(old(currReadLat)), old(log), old(reports), old(passed), Lfifo,
                                 Report(0xff, STAGE_LFIFO, SUBSTAGE_READ_LATENCY))
      ensures ok ==> SmallestReachable(answers.latency, old(currReadLat), currReadLat - 1)
      ensures !ok ==> currReadLat == old(currReadLat)
    {
      var found := false;
      var lat := currReadLat;
      while true
        invariant 0 < lat <= old(currReadLat) && (found <==> lat < old(currReadLat))
        invariant forall l :: lat < l <= old(currReadLat) ==> answers.latency(l)
        decreases lat
      {
        if !answers.latency(lat) {
          break;
        }
        found := true;
        lat := lat - 1;
        if !(lat > 0) {
          break;
        }
      }
      if found {
        currReadLat := lat + 2;
        passed := passed + [Lfifo];
      } else {
        SetFailingGroupStage(0xff, STAGE_LFIFO, SUBSTAGE_READ_LATENCY);
      }
      ok := found;
    }

    /** The VFIFO stages of the read groups of a write group, up to the first that fails. */
    method GroupVfifo(g: nat) returns (ok: bool)
      requires Valid()
      modifies this
      ensures Valid() && Kept() && Sofar(ok) == VfifoRun(answers, cfg, g * cfg.ratio, old(Sofar(true)), cfg.ratio)
    {
      var r := 0;
      ok := true;
      while r < cfg.ratio && ok
        invariant r <= cfg.ratio && Valid() && Kept()
        invariant Sofar(ok) == VfifoRun(answers, cfg, g * cfg.ratio, old(Sofar(true)), r)
      {
        ok := CalibrateVfifo(g * cfg.ratio + r);
        r := r + 1;
      }
      VfifoRunEnds(answers, cfg, g * cfg.ratio, old(Sofar(true)), r, cfg.ratio);
    }

    /** The write stages of all shadow registers; the first failure ends them unless all are swept. */
    method GroupWrites(g: nat) returns (ok: bool)
      requires Valid()
      modifies this
      ensures Valid() && Kept() && Sofar(ok) == WritesRun(answers, cfg, g, old(Sofar(true)), cfg.skipShadowRegs)
    {
      ghost var r := Sofar(true);
      var sr := 0;
      ok := true;
      while sr < |cfg.skipShadowRegs|
        invariant sr <= |cfg.skipShadowRegs| && Valid() && Kept()
        invariant !ok ==> cfg.sweepAllGroups
        invariant Sofar(ok) == WritesRun(answers, cfg, g, r, cfg.skipShadowRegs[..sr])
      {
        OneMoreShadowReg(answers, cfg, g, r, cfg.skipShadowRegs, sr);
        if !cfg.skipShadowRegs[sr] {
          var written := CalibrateWrites(sr, g);
          if !written {
            ok := false;
            if !cfg.sweepAllGroups {
              WritesRunEnds(answers, cfg, g, r, cfg.skipShadowRegs, sr + 1);
              return;
            }
          }
        }
        sr := sr + 1;
      }
      assert cfg.skipShadowRegs[..sr] == cfg.skipShadowRegs;
    }

    /** The read-after-write stages of the read groups, up to the first that fails. */
    method GroupVfifoEnd(g: nat) returns (ok: bool)
      requires Valid()
      modifies this
      ensures Valid() && Kept() && Sofar(ok) == VfifoEndRun(answers, cfg, g * cfg.ratio, old(Sofar(true)), cfg.ratio)
    {
      var r := 0;
      ok := true;
      while r < cfg.ratio && ok
        invariant r <= cfg.ratio && Valid() && Kept()
        invariant Sofar(ok) == VfifoEndRun(answers, cfg, g * cfg.ratio, old(Sofar(true)), r)
      {
        ok := CalibrateVfifoEnd(g * cfg.ratio + r);
        r := r + 1;
      }
      VfifoEndRunEnds(answers, cfg, g * cfg.ratio, old(Sofar(true)), r, cfg.ratio);
    }

    /** All stages of one write group. */
    method CalibrateGroup(g: nat) returns (ok: bool)
      requires Valid()
      modifies this
      ensures Valid() && Kept() && Sofar(ok) == GroupRun(answers, cfg, g, old(Sofar(true)))
    {
      ok := GroupVfifo(g);
      if ok {
        ok := GroupWrites(g);
        if ok {
          ok := GroupVfifoEnd(g);
        }
      }
    }

    /** All write groups that run, in order; the first failure ends the run unless all are swept. */
    method CalibrateGroups() returns (ok: bool)
      requires Valid() && log == [] && reports == [] && passed == []
      modifies this
      ensures Valid() && Kept() && Sofar(ok) == GroupsRun(answers, cfg, cfg.groups)
    {
      var failing := 0;
      var g := 0;
      while g < cfg.groups
        invariant g <= cfg.groups && Valid() && Kept()
        invariant failing > 0 ==> cfg.sweepAllGroups
        invariant Sofar(failing == 0) == GroupsRun(answers, cfg, g)
      {
        if cfg.Runs(g) {
          var calibrated := CalibrateGroup(g);
          if !calibrated {
            if !cfg.sweepAllGroups {
              GroupsRunEnds(answers, cfg, g + 1, cfg.groups);
              return false;
            }
            failing := failing + 1;
          }
        }
        g := g + 1;
      }
      ok := failing == 0;
    }

    /** Forget everything about an earlier run, and configure the memory. */
    method Begin(answers: Answers, readLatency: nat)
      requires cfg.Valid() && readLatency + 16 < TWO_TO_32
      modifies this
      ensures Valid() && log == [] && reports == [] && passed == []
      ensures this.answers == answers && currReadLat == StartLatency(readLatency)
    {
      this.answers := answers;
      log, error, reports, passed := [], NO_REPORT, [], [];
      fomIn, fomOut := 0, 0;
      currReadLat := StartLatency(readLatency);
    }

    /** The calibration entry point. */
    method MemCalibrate(answers: Answers, readLatency: nat) returns (ok: bool)
      requires cfg.Valid() && readLatency + 16 < TWO_TO_32
      modifies this
      ensures Valid() && Sofar(ok) == Calibration(answers, cfg, readLatency)
      ensures ok && !cfg.skipAll && cfg.skipGroups == {} ==>
                SmallestReachable(answers.latency, StartLatency(readLatency), currReadLat - 1)
    {
      Begin(answers, readLatency);
      if cfg.skipAll {
        currReadLat := SKIP_LATENCY;
        return true;
      }
      ok := CalibrateGroups();
      if ok && cfg.skipGroups == {} {
        ok := CalibrateLfifo();
      }
    }

    // ---- publishing the outcome ------------------------------------------------------------------

    /** Run the calibration and publish its outcome: the status, and one word that says how good or why not. */
    method RunMemCalibrate(answers: Answers, readLatency: nat) returns (ok: bool, status: CalStatus, word: nat)
      requires cfg.Valid() && readLatency + 16 < TWO_TO_32
      modifies this
      ensures Sofar(ok) == Calibration(answers, cfg, readLatency)
      ensures status == if ok then CalSuccess else CalFail
      ensures ok ==>
                word == PackFom(Capped(FomIn(cfg.ratio, log) % TWO_TO_32 / 2), Capped(FomOut(log) % TWO_TO_32 / 2))
      ensures !ok ==> reports != [] && reports[0].stage != STAGE_NIL && word == PackReport(reports[0])
    {
      status := CalReset;
      ok := MemCalibrate(answers, readLatency);
      if ok {
        fomIn, fomOut := fomIn / 2, fomOut / 2;
        if fomIn > 0xff {
          fomIn := 0xff;
        }
        if fomOut > 0xff {
          fomOut := 0xff;
        }
        word := PackFom(fomIn, fomOut);
        status := CalSuccess;
      } else {
        FailureIsReported(answers, cfg, readLatency);
        word := PackReport(error);
        status := CalFail;
      }
    }
  }

  lemma OneMoreTap(a: Answers, cfg: Config, t: Attempt, start: nat, at: Setting)
    requires at.dqs <= cfg.dqsInMax && !t.ok
    ensures TryTaps(a, cfg, t, start, at) ==
              TryTaps(a, cfg, TryTap(a, cfg, t, start, at), start, at.(dqs := at.dqs + 1))
  {
  }

  // ---- runs that end early -----------------------------------------------------------------------

  lemma {:induction false} VfifoRunEnds(a: Answers, cfg: Config, bgn: nat, r: Run, m: nat, n: nat)
    requires m <= n && (m < n ==> !VfifoRun(a, cfg, bgn, r, m).ok)
    ensures VfifoRun(a, cfg, bgn, r, n) == VfifoRun(a, cfg, bgn, r, m)
    decreases n
  {
    if m < n {
      VfifoRunEnds(a, cfg, bgn, r, m, n - 1);
    }
  }

  lemma {:induction false} VfifoEndRunEnds(a: Answers, cfg: Config, bgn: nat, r: Run, m: nat, n: nat)
    requires m <= n && (m < n ==> !VfifoEndRun(a, cfg, bgn, r, m).ok)
    ensures VfifoEndRun(a, cfg, bgn, r, n) == VfifoEndRun(a, cfg, bgn, r, m)
    decreases n
  {
    if m < n {
      VfifoEndRunEnds(a, cfg, bgn, r, m, n - 1);
    }
  }

  lemma {:induction false} WritesRunEnds(a: Answers, cfg: Config, g: nat, r: Run, skip: seq<bool>, m: nat)
    requires m <= |skip| && !cfg.sweepAllGroups && !WritesRun(a, cfg, g, r, skip[..m]).ok
    ensures WritesRun(a, cfg, g, r, skip) == WritesRun(a, cfg, g, r, skip[..m])
    decreases |skip|
  {
    if m < |skip| {
      assert skip[..|skip| - 1][..m] == skip[..m];
      WritesRunEnds(a, cfg, g, r, skip[..|skip| - 1], m);
    } else {
      assert skip[..m] == skip;
    }
  }

  lemma OneMoreShadowReg(a: Answers, cfg: Config, g: nat, r: Run, skip: seq<bool>, sr: nat)
    requires sr < |skip|
    ensures WritesRun(a, cfg, g, r, skip[..sr + 1]) ==
              var r1 := WritesRun(a, cfg, g, r, skip[..sr]);
              if skip[sr] || (!r1.ok && !cfg.sweepAllGroups) then r1
              else
                var r2 := WriteStage(a, cfg, sr, g, r1);
                r2.(ok := r1.ok && r2.ok)
  {
    assert skip[..sr + 1][..sr] == skip[..sr];
  }

  /** Once a write group has failed, nothing later is asked unless all are swept. */
  lemma {:induction false} GroupsRunEnds(a: Answers, cfg: Config, m: nat, n: nat)
    requires m <= n && !cfg.sweepAllGroups && !GroupsRun(a, cfg, m).ok
    ensures GroupsRun(a, cfg, n) == GroupsRun(a, cfg, m)
    decreases n
  {
    if m < n {
      GroupsRunEnds(a, cfg, m, n - 1);
    }
  }

  // ---- failures are reported -----------------------------------------------------------------------

  /** Nothing that was reported is lost, and what is added carries the stage. */
  ghost predicate Reporting(reports: seq<Report>, reports': seq<Report>, stage: nat) {
    reports <= reports' && forall i :: |reports| <= i < |reports'| ==> reports'[i].stage == stage
  }

  lemma {:induction false} CentreEachReports(a: Answers, cfg: Config, from: Caller, start: nat, c: Centring,
                                             skip: seq<bool>)
    ensures Reporting(c.reports, CentreEach(a, cfg, from, start, c, skip).reports, from.Stage())
    decreases |skip|
  {
    if skip != [] {
      CentreEachReports(a, cfg, from, start, c, skip[..|skip| - 1]);
    }
  }

  lemma {:induction false} TapsReport(a: Answers, cfg: Config, t: Attempt, start: nat, at: Setting)
    ensures Reporting(t.reports, TryTaps(a, cfg, t, start, at).reports, STAGE_VFIFO)
    decreases cfg.dqsInMax + 1 - at.dqs
  {
    if at.dqs <= cfg.dqsInMax && !t.ok {
      var loaded := Loaded(cfg, t.dqs, at);
      CentreEachReports(a, cfg, FromVfifo(at.(dqs := start)), start,
                        Centring(true, loaded.dqs, t.log + [Search(loaded, true)], t.reports), cfg.skipShadowRegs);
      TapsReport(a, cfg, TryTap(a, cfg, t, start, at), start, at.(dqs := at.dqs + 1));
    }
  }

  lemma {:induction false} PhasesReport(a: Answers, cfg: Config, g: nat, d: nat, t: Attempt, p: nat)
    ensures Reporting(t.reports, TryPhases(a, cfg, g, d, t, p).reports, STAGE_VFIFO)
    decreases cfg.phases - p
  {
    if p < cfg.phases && !t.ok {
      var at := Setting(g, d, p, t.dqs);
      var (pass, t1) := Guaranteed(a, cfg, t, at);
      if pass {
        TapsReport(a, cfg, t1, t.dqs, at);
        PhasesReport(a, cfg, g, d, TryTaps(a, cfg, t1, t.dqs, at), p + 1);
      }
    }
  }

  lemma {:induction false} DelaysReport(a: Answers, cfg: Config, g: nat, t: Attempt, d: nat)
    ensures Reporting(t.reports, TryDelays(a, cfg, g, t, d).reports, STAGE_VFIFO)
    decreases cfg.attempts - d
  {
    if d < cfg.attempts && !t.ok {
      PhasesReport(a, cfg, g, d, t, 0);
      DelaysReport(a, cfg, g, TryPhases(a, cfg, g, d, t, 0), d + 1);
    }
  }

  /** A stage that fails reports this last. */
  ghost predicate EndsReporting(r: Run, report: Report) {
    r.ok || (|r.reports| > 0 && r.reports[|r.reports| - 1] == report)
  }

  /** All reports of a stage carry it, and a stage that fails reports its group last. */
  lemma StagesReport(a: Answers, cfg: Config, sr: nat, g: nat, r: Run)
    ensures Reporting(r.reports, VfifoStage(a, cfg, g, r).reports, STAGE_VFIFO)
    ensures Reporting(r.reports, WriteStage(a, cfg, sr, g, r).reports, STAGE_WRITES)
    ensures Reporting(r.reports, VfifoEndStage(a, cfg, g, r).reports, STAGE_VFIFO_AFTER_WRITES)
    ensures EndsReporting(WriteStage(a, cfg, sr, g, r), Report(g, STAGE_WRITES, SUBSTAGE_WRITES_CENTER))
    ensures EndsReporting(VfifoEndStage(a, cfg, g, r), Report(g, STAGE_VFIFO_AFTER_WRITES, SUBSTAGE_VFIFO_CENTER))
  {
    DelaysReport(a, cfg, g, Start(cfg, r), 0);
    CentreEachReports(a, cfg, FromVfifoEnd(g), 0, Centring(true, 0, r.log, r.reports), cfg.skipShadowRegs);
  }

  /** Nothing that was reported is lost, and what fails has reported something. */
  ghost predicate Reported(r: Run, r': Run) {
    r.reports <= r'.reports && (r'.ok || r'.reports != [])
  }

  lemma {:induction false} VfifoRunReports(a: Answers, cfg: Config, bgn: nat, r: Run, n: nat)
    requires r.ok
    ensures Reported(r, VfifoRun(a, cfg, bgn, r, n))
    decreases n
  {
    if n > 0 {
      VfifoRunReports(a, cfg, bgn, r, n - 1);
      StagesReport(a, cfg, 0, bgn + n - 1, VfifoRun(a, cfg, bgn, r, n - 1));
    }
  }

  lemma {:induction false} WritesRunReports(a: Answers, cfg: Config, g: nat, r: Run, skip: seq<bool>)
    requires r.ok
    ensures Reported(r, WritesRun(a, cfg, g, r, skip))
    decreases |skip|
  {
    if skip != [] {
      WritesRunReports(a, cfg, g, r, skip[..|skip| - 1]);
      StagesReport(a, cfg, |skip| - 1, g, WritesRun(a, cfg, g, r, skip[..|skip| - 1]));
    }
  }

  lemma {:induction false} VfifoEndRunReports(a: Answers, cfg: Config, bgn: nat, r: Run, n: nat)
    requires r.ok
    ensures Reported(r, VfifoEndRun(a, cfg, bgn, r, n))
    decreases n
  {
    if n > 0 {
      VfifoEndRunReports(a, cfg, bgn, r, n - 1);
      StagesReport(a, cfg, 0, bgn + n - 1, VfifoEndRun(a, cfg, bgn, r, n - 1));
    }
  }

  lemma GroupReports(a: Answers, cfg: Config, g: nat, r: Run)
    ensures Reported(r, GroupRun(a, cfg, g, r))
  {
    var begun := r.(ok := true);
    VfifoRunReports(a, cfg, g * cfg.ratio, begun, cfg.ratio);
    var read := VfifoRun(a, cfg, g * cfg.ratio, begun, cfg.ratio);
    if read.ok {
      WritesRunReports(a, cfg, g, read, cfg.skipShadowRegs);
      var written := WritesRun(a, cfg, g, read, cfg.skipShadowRegs);
      if written.ok {
        VfifoEndRunReports(a, cfg, g * cfg.ratio, written, cfg.ratio);
      }
    }
  }

  lemma {:induction false} GroupsReport(a: Answers, cfg: Config, n: nat)
    ensures GroupsRun(a, cfg, n).ok || GroupsRun(a, cfg, n).reports != []
    decreases n
  {
    if n > 0 {
      GroupsReport(a, cfg, n - 1);
      GroupReports(a, cfg, n - 1, GroupsRun(a, cfg, n - 1));
    }
  }

  /** A run that fails has reported something. */
  lemma FailureIsReported(a: Answers, cfg: Config, readLatency: nat)
    requires !Calibration(a, cfg, readLatency).ok
    ensures Calibration(a, cfg, readLatency).reports != []
  {
    GroupsReport(a, cfg, cfg.groups);
  }

  // ---- what is published -------------------------------------------------------------------------

  function Capped(x: int): int {
    if x > 0xff then 0xff else x
  }

  /** Two bytes side by side: the bits do not overlap, so the disjunction is a sum. */
  function PackFom(fomIn: int, fomOut: int): nat
    requires 0 <= fomIn <= 0xff && 0 <= fomOut <= 0xff
  {
    fomIn + fomOut * 0x100
  }

  /** Both figures of merit can be read back from the word. */
  lemma FomUnpacks(fomIn: int, fomOut: int)
    requires 0 <= fomIn <= 0xff && 0 <= fomOut <= 0xff
    ensures PackFom(fomIn, fomOut) % 0x100 == fomIn && PackFom(fomIn, fomOut) / 0x100 == fomOut
  {
  }

  function PackReport(r: Report): nat {
    r.stage + r.substage * 0x100 + r.group * 0x1_0000
  }

  lemma PackReportUnique(r: Report)
    requires r.stage < 0x100 && r.substage < 0x100
    ensures var word := PackReport(r);
            word % 0x100 == r.stage && word / 0x100 % 0x100 == r.substage && word / 0x100 / 0x100 == r.group
  {
    var rest := r.substage + r.group * 0x100;
    DivModUnique(PackReport(r), rest, r.stage, 0x100);
    DivModUnique(rest, r.group, r.substage, 0x100);
  }

  /** Two failures are published as the same word only if their triples are the same. */
  lemma ReportUnpacks(r: Report, r': Report)
    requires r.stage < 0x100 && r.substage < 0x100 && r'.stage < 0x100 && r'.substage < 0x100
    requires PackReport(r) == PackReport(r')
    ensures r == r'
  {
    PackReportUnique(r);
    PackReportUnique(r');
  }

  /** `least` ends the unbroken run of passing latencies down from `start`. */
  ghost predicate SmallestReachable(pass: nat -> bool, start: nat, least: int) {
    && 1 <= least <= start
    && (forall l: nat :: least <= l <= start ==> pass(l))
    && (least == 1 || !pass(least - 1))
  }
}
