/**
 What the log of a calibration run tells: every answer is the one the hardware gives, attempts of the VFIFO stage
 work or fail for the reasons in the log, and its phases and guaranteed reads come in the order of the source.
 */
module CalibrationLog {
  import opened Modular
  import Deskew
  import opened Calibrate

  // ---- what the log of a run tells -----------------------------------------------------------------

  /** Question number `i` and its answer, as the hardware gives it. */
  predicate IsAnswer(a: Answers, i: nat, e: Event) {
    match e
    case GuaranteedRead(at, pass) => pass == a.guaranteedRead(i, at)
    case Search(at, found) => found == a.dqsEnable(i, at)
    case Centre(from, read) => read == a.readCentre(i, from)
    case Write(_, g, written) => written == a.writeCentre(i, g)
  }

  ghost predicate Answered(a: Answers, log: seq<Event>) {
    forall i: nat :: i < |log| ==> IsAnswer(a, i, log[i])
  }

  /** A result that goes into a figure of merit belongs to a stage that succeeds. */
  predicate CleanEvent(e: Event) {
    && (e.Centre? && e.from.FromVfifoEnd? ==> Centres(e.read))
    && (e.Write? ==> e.written.Passed())
  }

  ghost predicate Clean(log: seq<Event>) {
    forall i: nat :: i < |log| ==> CleanEvent(log[i])
  }

  /** How many results may have gone into the figures of merit. */
  function Results(log: seq<Event>): nat {
    if log == [] then 0
    else
      Results(log[..|log| - 1])
      + match log[|log| - 1]
        case Centre(FromVfifoEnd(_), _) => 1
        case Write(_, _, _) => 1
        case _ => 0
  }

  /** The reports of pins without a window, in order. */
  function PinReports(cfg: Config, log: seq<Event>): seq<Report> {
    if log == [] then []
    else
      PinReports(cfg, log[..|log| - 1])
      + match log[|log| - 1]
        case Centre(from, o) => PinReport(cfg, from, o)
        case Write(_, g, w) => WritePinReport(cfg, g, w.outcome)
        case _ => []
  }

  lemma OneMoreEvent(cfg: Config, log: seq<Event>, e: Event)
    ensures Results(log + [e]) == Results(log) + Results([e])
    ensures PinReports(cfg, log + [e]) == PinReports(cfg, log) + PinReports(cfg, [e])
  {
    assert (log + [e])[..|log|] == log && [e][..0] == [];
    assert Results([]) == 0 && PinReports(cfg, []) == [];
  }

  /** What a stage adds to the log and to the reports, as long as nothing but pins is reported. */
  ghost predicate Adds(a: Answers, cfg: Config, log: seq<Event>, reports: seq<Report>, log': seq<Event>,
                       reports': seq<Report>, n: nat) {
    && Results(log') <= Results(log) + n
    && (Answered(a, log) ==> Answered(a, log'))
    && (n == 0 && Clean(log) ==> Clean(log'))
    && (reports == PinReports(cfg, log) ==> reports' == PinReports(cfg, log'))
  }

  lemma AddsEvent(a: Answers, cfg: Config, log: seq<Event>, reports: seq<Report>, e: Event)
    requires Answered(a, log) ==> Answered(a, log + [e])
    ensures Adds(a, cfg, log, reports, log + [e], reports + PinReports(cfg, [e]), Results([e]))
  {
    OneMoreEvent(cfg, log, e);
    SingleEvent(cfg, e);
  }

  lemma AddsThen(a: Answers, cfg: Config, log: seq<Event>, reports: seq<Report>, log1: seq<Event>,
                 reports1: seq<Report>, log2: seq<Event>, reports2: seq<Report>, n: nat, m: nat)
    requires Adds(a, cfg, log, reports, log1, reports1, n) && Adds(a, cfg, log1, reports1, log2, reports2, m)
    ensures Adds(a, cfg, log, reports, log2, reports2, n + m)
  {
  }

  /** The shadow registers that are not skipped. */
  function InUse(skip: seq<bool>): nat {
    if skip == [] then 0 else InUse(skip[..|skip| - 1]) + if skip[|skip| - 1] then 0 else 1
  }

  lemma {:induction false} NoneInUse(skip: seq<bool>)
    ensures InUse(skip) == 0 <==> AllSkipped(skip)
    decreases |skip|
  {
    if skip != [] {
      NoneInUse(skip[..|skip| - 1]);
      assert forall i :: 0 <= i < |skip| - 1 ==> skip[..|skip| - 1][i] == skip[i];
    }
  }

  /** From event `n` on the log holds calls of read centring only. */
  ghost predicate OnlyCentring(from: Caller, log: seq<Event>, n: nat) {
    forall i: nat :: n <= i < |log| ==> log[i].Centre? && log[i].from == from
  }

  /** From event `n` on every call of read centring succeeds. */
  ghost predicate AllCentre(log: seq<Event>, n: nat) {
    forall i: nat :: n <= i < |log| && log[i].Centre? ==> Centres(log[i].read)
  }

  /** Centring asks one question for each shadow register in use, and succeeds iff every answer is a success. */
  lemma {:induction false} CentreEachLog(a: Answers, cfg: Config, from: Caller, start: nat, c: Centring,
                                         skip: seq<bool>)
    ensures var c' := CentreEach(a, cfg, from, start, c, skip);
            && c.log <= c'.log && |c'.log| == |c.log| + InUse(skip)
            && OnlyCentring(from, c'.log, |c.log|)
            && (c'.ok <==> c.ok && AllCentre(c'.log, |c.log|))
    decreases |skip|
  {
    if skip != [] {
      CentreEachLog(a, cfg, from, start, c, skip[..|skip| - 1]);
      var c1 := CentreEach(a, cfg, from, start, c, skip[..|skip| - 1]);
      if !skip[|skip| - 1] {
        OneMoreCentring(from, c1.log, |c.log|, a.readCentre(|c1.log|, from));
      }
    }
  }

  lemma OneMoreCentring(from: Caller, log: seq<Event>, n: nat, o: Deskew.Outcome)
    requires OnlyCentring(from, log, n) && n <= |log|
    ensures OnlyCentring(from, log + [Centre(from, o)], n)
    ensures AllCentre(log + [Centre(from, o)], n) <==> AllCentre(log, n) && Centres(o)
  {
    var log' := log + [Centre(from, o)];
    assert log'[|log|] == Centre(from, o);
    if AllCentre(log', n) {
      assert forall i: nat :: n <= i < |log| ==> log'[i] == log[i];
    }
  }

  /** Where centring leaves DQS: as it was when no shadow register is in use, else as the last call says. */
  lemma {:induction false} CentreEachDqs(a: Answers, cfg: Config, from: Caller, start: nat, c: Centring,
                                         skip: seq<bool>)
    ensures var c' := CentreEach(a, cfg, from, start, c, skip);
            if InUse(skip) == 0 then c' == c
            else
              && |c'.log| > 0 && c'.log[|c'.log| - 1].Centre?
              && c'.dqs == if c'.log[|c'.log| - 1].read.Margins? then a.readDqs(|c'.log| - 1, from) else start
    decreases |skip|
  {
    if skip != [] {
      CentreEachDqs(a, cfg, from, start, c, skip[..|skip| - 1]);
    }
  }

  /** What centring adds to log and reports. */
  lemma {:induction false} CentreEachAdds(a: Answers, cfg: Config, from: Caller, start: nat, c: Centring,
                                          skip: seq<bool>)
    ensures var c' := CentreEach(a, cfg, from, start, c, skip);
            Adds(a, cfg, c.log, c.reports, c'.log, c'.reports, if from.FromVfifoEnd? then |skip| else 0)
    decreases |skip|
  {
    if skip != [] {
      CentreEachAdds(a, cfg, from, start, c, skip[..|skip| - 1]);
      var c1 := CentreEach(a, cfg, from, start, c, skip[..|skip| - 1]);
      if !skip[|skip| - 1] {
        CentreOneAdds(a, cfg, from, c1.log, c1.reports);
      }
    }
  }

  lemma CentreOneAdds(a: Answers, cfg: Config, from: Caller, log: seq<Event>, reports: seq<Report>)
    ensures var o := a.readCentre(|log|, from);
            Adds(a, cfg, log, reports, log + [Centre(from, o)], reports + PinReport(cfg, from, o),
                 if from.FromVfifoEnd? then 1 else 0)
  {
    var e := Centre(from, a.readCentre(|log|, from));
    SingleEvent(cfg, e);
    AddsEvent(a, cfg, log, reports, e);
  }

  lemma SingleEvent(cfg: Config, e: Event)
    ensures Results([e]) == if e.Write? || (e.Centre? && e.from.FromVfifoEnd?) then 1 else 0
    ensures PinReports(cfg, [e]) ==
              if e.Centre? then PinReport(cfg, e.from, e.read)
              else if e.Write? then WritePinReport(cfg, e.group, e.written.outcome)
              else []
  {
    assert [e][..0] == [] && Results([]) == 0 && PinReports(cfg, []) == [];
  }

  /** A question of the VFIFO stage that is not reported. */
  lemma QuietAdds(a: Answers, cfg: Config, log: seq<Event>, reports: seq<Report>, e: Event)
    requires (e.Search? || e.GuaranteedRead?) && IsAnswer(a, |log|, e)
    ensures Adds(a, cfg, log, reports, log + [e], reports, 0)
  {
    SingleEvent(cfg, e);
    AddsEvent(a, cfg, log, reports, e);
    assert reports + [] == reports;
  }

  // ---- attempts of the VFIFO stage -----------------------------------------------------------------

  /** The search at event `i` succeeds, and so does every call of centring that follows it directly. */
  ghost predicate Works(log: seq<Event>, i: nat) {
    && i < |log| && log[i].Search? && log[i].found
    && forall j: nat :: i < j < |log| && OnlyCentringBetween(log, i, j) ==> Centres(log[j].read)
  }

  ghost predicate OnlyCentringBetween(log: seq<Event>, i: nat, j: nat) {
    forall m: nat :: i < m <= j && m < |log| ==> log[m].Centre?
  }

  /** No search before event `n` of those from `n0` on works, whatever comes later. */
  ghost predicate NoneWorks(log: seq<Event>, n0: nat, n: nat) {
    forall i: nat :: n0 <= i < n ==> !Works(log, i)
  }

  /** An attempt is over when the next question is not a centring. */
  lemma WorksStays(log: seq<Event>, log': seq<Event>, i: nat)
    requires i < |log| <= |log'| && log'[..|log|] == log
    requires |log| < |log'| ==> !log'[|log|].Centre?
    ensures Works(log', i) <==> Works(log, i)
  {
    forall j: nat | i < j < |log|
      ensures OnlyCentringBetween(log', i, j) <==> OnlyCentringBetween(log, i, j)
    {
      assert forall m: nat :: m <= j ==> log'[m] == log[m];
    }
    forall j: nat | |log| <= j < |log'|
      ensures !OnlyCentringBetween(log', i, j)
    {
      assert !log'[|log|].Centre?;
    }
    assert log'[i] == log[i];
    if Works(log, i) {
      forall j: nat | i < j < |log'| && OnlyCentringBetween(log', i, j)
        ensures Centres(log'[j].read)
      {
        assert j < |log| && log'[j] == log[j];
      }
    }
  }

  lemma NoneWorksStays(log: seq<Event>, log': seq<Event>, n: nat)
    requires |log| <= |log'| && log'[..|log|] == log && NoneWorks(log, n, |log|)
    requires |log| < |log'| ==> !log'[|log|].Centre?
    ensures NoneWorks(log', n, |log|)
  {
    forall i: nat | n <= i < |log|
      ensures !Works(log', i)
    {
      WorksStays(log, log', i);
    }
  }

  /** Event `i` is the first search from event `n` on that works, and its centrings end the log. */
  ghost predicate EndsInWorking(cfg: Config, log: seq<Event>, n: nat, i: nat) {
    && n <= i < |log| == i + 1 + InUse(cfg.skipShadowRegs)
    && Works(log, i) && NoneWorks(log, n, i)
    && forall j: nat :: i < j < |log| ==>
         log[j].Centre? && log[j].from.FromVfifo? && SamePhase(log[j].from.at, log[i].at)
  }

  predicate SamePhase(s: Setting, s': Setting) {
    s.group == s'.group && s.delay == s'.delay && s.phase == s'.phase
  }

  /** The attempts made from event `n` on: the last one works, or none does. */
  ghost predicate Tried(cfg: Config, n: nat, t: Attempt) {
    && n <= |t.log|
    && (t.ok ==> exists i: nat :: EndsInWorking(cfg, t.log, n, i))
    && (!t.ok ==> NoneWorks(t.log, n, |t.log|))
  }

  /** What attempts come to, told from the log that they leave, and what they add to log and reports. */
  ghost predicate Facts(a: Answers, cfg: Config, n: nat, t: Attempt, u: Attempt) {
    Tried(cfg, n, u) && Adds(a, cfg, t.log, t.reports, u.log, u.reports, 0)
  }

  lemma FactsThen(a: Answers, cfg: Config, n: nat, t: Attempt, t1: Attempt, u: Attempt)
    requires Facts(a, cfg, n, t, t1) && Facts(a, cfg, n, t1, u)
    ensures Facts(a, cfg, n, t, u)
  {
    AddsThen(a, cfg, t.log, t.reports, t1.log, t1.reports, u.log, u.reports, 0, 0);
  }

  lemma NoFacts(a: Answers, cfg: Config, n: nat, t: Attempt)
    requires Tried(cfg, n, t)
    ensures Facts(a, cfg, n, t, t)
  {
  }

  /** One attempt works iff the search finds something and all centrings succeed. */
  lemma TapFacts(a: Answers, cfg: Config, t: Attempt, start: nat, at: Setting, n: nat)
    requires Tried(cfg, n, t) && !t.ok
    ensures Facts(a, cfg, n, t, TryTap(a, cfg, t, start, at))
  {
    var u := TryTap(a, cfg, t, start, at);
    var loaded := Loaded(cfg, t.dqs, at);
    var e := Search(loaded, a.dqsEnable(|t.log|, loaded));
    var log := t.log + [e];
    QuietAdds(a, cfg, t.log, t.reports, e);
    if e.found {
      var from, c := FromVfifo(at.(dqs := start)), Centring(true, loaded.dqs, log, t.reports);
      CentreEachLog(a, cfg, from, start, c, cfg.skipShadowRegs);
      CentreEachAdds(a, cfg, from, start, c, cfg.skipShadowRegs);
      AddsThen(a, cfg, t.log, t.reports, log, t.reports, u.log, u.reports, 0, 0);
    }
    assert u.log[..|t.log|] == t.log && u.log[|t.log|] == e;
    TapTried(cfg, t.log, u, n);
  }

  lemma TapTried(cfg: Config, log: seq<Event>, u: Attempt, n: nat)
    requires n <= |log| < |u.log| && u.log[..|log|] == log && NoneWorks(log, n, |log|)
    requires u.log[|log|].Search?
    requires forall j: nat :: |log| < j < |u.log| ==>
               u.log[j].Centre? && u.log[j].from.FromVfifo? && SamePhase(u.log[j].from.at, u.log[|log|].at)
    requires u.ok <==> u.log[|log|].found && AllCentre(u.log, |log| + 1)
    requires u.ok ==> |u.log| == |log| + 1 + InUse(cfg.skipShadowRegs)
    ensures Tried(cfg, n, u)
  {
    NoneWorksStays(log, u.log, n);
    if u.ok {
      assert Works(u.log, |log|);
      assert EndsInWorking(cfg, u.log, n, |log|);
    } else {
      assert !Works(u.log, |log|) by {
        if u.log[|log|].found {
          var j: nat :| |log| + 1 <= j < |u.log| && u.log[j].Centre? && !Centres(u.log[j].read);
          assert OnlyCentringBetween(u.log, |log|, j);
        }
      }
    }
  }

  lemma OneMoreTapFacts(a: Answers, cfg: Config, t: Attempt, start: nat, at: Setting, n: nat) returns (t1: Attempt)
    requires Tried(cfg, n, t) && at.dqs <= cfg.dqsInMax && !t.ok
    ensures Facts(a, cfg, n, t, t1)
    ensures TryTaps(a, cfg, t, start, at) == TryTaps(a, cfg, t1, start, at.(dqs := at.dqs + 1))
  {
    TapFacts(a, cfg, t, start, at, n);
    OneMoreTap(a, cfg, t, start, at);
    t1 := TryTap(a, cfg, t, start, at);
  }

  lemma {:induction false} TapsFacts(a: Answers, cfg: Config, t: Attempt, start: nat, at: Setting, n: nat)
    requires Tried(cfg, n, t)
    ensures Facts(a, cfg, n, t, TryTaps(a, cfg, t, start, at))
    decreases cfg.dqsInMax + 1 - at.dqs
  {
    if at.dqs <= cfg.dqsInMax && !t.ok {
      var t1 := OneMoreTapFacts(a, cfg, t, start, at, n);
      TapsFacts(a, cfg, t1, start, at.(dqs := at.dqs + 1), n);
      FactsThen(a, cfg, n, t, t1, TryTaps(a, cfg, t, start, at));
    } else {
      NoFacts(a, cfg, n, t);
    }
  }

  lemma GuaranteedFacts(a: Answers, cfg: Config, t: Attempt, at: Setting, n: nat)
    requires Tried(cfg, n, t) && !t.ok
    ensures var t1 := Guaranteed(a, cfg, t, at).1; !t1.ok && t1.dqs == t.dqs && Facts(a, cfg, n, t, t1)
  {
    var t1 := Guaranteed(a, cfg, t, at).1;
    if cfg.disableGuaranteedRead {
      NoFacts(a, cfg, n, t);
    } else {
      var e := GuaranteedRead(at, a.guaranteedRead(|t.log|, at));
      QuietAdds(a, cfg, t.log, t.reports, e);
      assert t1.log[..|t.log|] == t.log && t1.log[|t.log|] == e;
      NoneWorksStays(t.log, t1.log, n);
    }
  }

  /** One phase whose guaranteed read passes. */
  lemma PhaseFacts(a: Answers, cfg: Config, t: Attempt, at: Setting, n: nat)
    requires Tried(cfg, n, t) && !t.ok && at.dqs == t.dqs
    ensures Facts(a, cfg, n, t, TryTaps(a, cfg, Guaranteed(a, cfg, t, at).1, t.dqs, at))
  {
    GuaranteedFacts(a, cfg, t, at, n);
    var t1 := Guaranteed(a, cfg, t, at).1;
    TapsFacts(a, cfg, t1, t.dqs, at, n);
    FactsThen(a, cfg, n, t, t1, TryTaps(a, cfg, t1, t.dqs, at));
  }

  lemma {:induction false} PhasesFacts(a: Answers, cfg: Config, g: nat, d: nat, t: Attempt, p: nat, n: nat)
    requires Tried(cfg, n, t)
    ensures Facts(a, cfg, n, t, TryPhases(a, cfg, g, d, t, p))
    decreases cfg.phases - p
  {
    var u := TryPhases(a, cfg, g, d, t, p);
    if p < cfg.phases && !t.ok {
      var at := Setting(g, d, p, t.dqs);
      var (pass, t1) := Guaranteed(a, cfg, t, at);
      if pass {
        PhaseFacts(a, cfg, t, at, n);
        var t2 := TryTaps(a, cfg, t1, t.dqs, at);
        assert u == TryPhases(a, cfg, g, d, t2, p + 1);
        PhasesFacts(a, cfg, g, d, t2, p + 1, n);
        FactsThen(a, cfg, n, t, t2, u);
      } else {
        GuaranteedFacts(a, cfg, t, at, n);
        assert u == t1;
      }
    } else {
      NoFacts(a, cfg, n, t);
      assert u == t;
    }
  }

  lemma {:induction false} DelaysFacts(a: Answers, cfg: Config, g: nat, t: Attempt, d: nat, n: nat)
    requires Tried(cfg, n, t)
    ensures Facts(a, cfg, n, t, TryDelays(a, cfg, g, t, d))
    decreases cfg.attempts - d
  {
    if d < cfg.attempts && !t.ok {
      PhasesFacts(a, cfg, g, d, t, 0, n);
      var t1, u := TryPhases(a, cfg, g, d, t, 0), TryDelays(a, cfg, g, t, d);
      DelaysFacts(a, cfg, g, t1, d + 1, n);
      FactsThen(a, cfg, n, t, t1, u);
    } else {
      NoFacts(a, cfg, n, t);
    }
  }

  /**
   The VFIFO stage passes iff one of its searches works, together with all its centrings. That is then the
   last one made, with one centring for each shadow register in use.
   */
  lemma VfifoPassesIff(a: Answers, cfg: Config, g: nat, r: Run)
    ensures var r' := VfifoStage(a, cfg, g, r);
            && (r'.ok <==> exists i: nat :: |r.log| <= i < |r'.log| && Works(r'.log, i))
            && (r'.ok ==> exists i: nat :: EndsInWorking(cfg, r'.log, |r.log|, i))
  {
    DelaysFacts(a, cfg, g, Start(cfg, r), 0, |r.log|);
    var r' := VfifoStage(a, cfg, g, r);
    if r'.ok {
      var i: nat :| EndsInWorking(cfg, r'.log, |r.log|, i);
      assert Works(r'.log, i);
    }
  }

  // ---- the phases of the VFIFO stage ---------------------------------------------------------------

  /** A guaranteed read that fails. */
  predicate Refused(e: Event) {
    e.GuaranteedRead? && !e.pass
  }

  /** An event of the VFIFO stage, made for this group, output delay and phase. */
  predicate InPhase(e: Event, s: Setting) {
    match e
    case GuaranteedRead(at, _) => SamePhase(at, s)
    case Search(at, _) => SamePhase(at, s)
    case Centre(FromVfifo(at), _) => SamePhase(at, s)
    case _ => false
  }

  /** Where the searches of a phase begin that begins at event `m`. */
  function SearchesFrom(cfg: Config, m: nat): nat {
    if cfg.disableGuaranteedRead then m else m + 1
  }

  /** How many searches there are from event `k` up to event `i`. */
  function Searches(log: seq<Event>, k: nat, i: nat): nat
    requires i <= |log|
  {
    if i <= k then 0 else Searches(log, k, i - 1) + if log[i - 1].Search? then 1 else 0
  }

  /**
   From event `k` on the searches are at one tap after the other, from that of `s` on; when no shadow register is in
   use nothing loads the taps, and all searches are at that of `s`.
   */
  ghost predicate Sweeps(cfg: Config, log: seq<Event>, k: nat, s: Setting) {
    forall i: nat :: k <= i < |log| && log[i].Search? ==> log[i].at.dqs == TapAfter(cfg, s, Searches(log, k, i))
  }

  /** The tap that is searched after `n` others. */
  function TapAfter(cfg: Config, s: Setting, n: nat): nat {
    if AllSkipped(cfg.skipShadowRegs) then s.dqs else s.dqs + n
  }

  /**
   The events of one phase, from event `m` to the end of the log: the guaranteed read, if it is not switched off,
   which ends the phase when it fails; then searches, tap by tap, and centrings. The phase begins at setting `s`, and
   every centring starts from there.
   */
  ghost predicate PhaseAt(cfg: Config, log: seq<Event>, m: nat, s: Setting) {
    var k := SearchesFrom(cfg, m);
    && (!cfg.disableGuaranteedRead ==> m < |log| && log[m].GuaranteedRead? && log[m].at == s)
    && (!cfg.disableGuaranteedRead && m < |log| && Refused(log[m]) ==> |log| == k)
    && (k < |log| ==> log[k].Search? && log[k].at == s)
    && Sweeps(cfg, log, k, s)
    && forall i: nat :: k <= i < |log| ==> SearchOrCentre(log[i], s)
  }

  predicate SearchOrCentre(e: Event, s: Setting) {
    (e.Search? && SamePhase(e.at, s)) || (e.Centre? && e.from == FromVfifo(s))
  }

  /** Phase (d', p') comes before phase (d, p); when its guaranteed read failed, its delay is over as well. */
  predicate Earlier(d': nat, p': nat, refused: bool, d: nat, p: nat) {
    d' < d || (d' == d && p' < p && !refused)
  }

  /** From event `n` on the log of group `g` is made of phases in ascending order, all before (d, p). */
  ghost predicate Phased(cfg: Config, g: nat, log: seq<Event>, n: nat, d: nat, p: nat)
    decreases |log|
  {
    && n <= |log|
    && (n < |log| ==> exists m: nat, s: Setting :: LastPhase(cfg, g, log, n, d, p, m, s))
  }

  ghost predicate LastPhase(cfg: Config, g: nat, log: seq<Event>, n: nat, d: nat, p: nat, m: nat, s: Setting)
    decreases |log|, 0
  {
    && n <= m < |log| && s.group == g && PhaseAt(cfg, log, m, s)
    && Earlier(s.delay, s.phase, Refused(log[m]), d, p)
    && Phased(cfg, g, log[..m], n, s.delay, s.phase)
  }

  lemma PhasedLater(cfg: Config, g: nat, log: seq<Event>, n: nat, d: nat, p: nat, d': nat, p': nat)
    requires Phased(cfg, g, log, n, d, p) && (d < d' || (d == d' && p <= p'))
    ensures Phased(cfg, g, log, n, d', p')
  {
    if n < |log| {
      var m: nat, s: Setting :| LastPhase(cfg, g, log, n, d, p, m, s);
      assert LastPhase(cfg, g, log, n, d', p', m, s);
    }
  }

  lemma {:induction false} SearchesOfMore(log: seq<Event>, log': seq<Event>, k: nat, i: nat)
    requires log <= log' && i <= |log|
    ensures Searches(log', k, i) == Searches(log, k, i)
    decreases i
  {
    if i > k {
      SearchesOfMore(log, log', k, i - 1);
    }
  }

  /** Centrings do not count. */
  lemma {:induction false} SearchesOnly(from: Caller, log: seq<Event>, k: nat, n: nat, i: nat)
    requires n <= i <= |log| && OnlyCentring(from, log, n)
    ensures Searches(log, k, i) == Searches(log, k, n)
    decreases i
  {
    if i > n {
      SearchesOnly(from, log, k, n, i - 1);
    }
  }

  lemma SweepsMore(cfg: Config, log: seq<Event>, log': seq<Event>, k: nat, s: Setting)
    requires Sweeps(cfg, log, k, s) && log <= log'
    requires forall i: nat :: |log| <= i < |log'| && k <= i && log'[i].Search? ==>
               log'[i].at.dqs == TapAfter(cfg, s, Searches(log', k, i))
    ensures Sweeps(cfg, log', k, s)
  {
    forall i: nat | k <= i < |log'| && log'[i].Search?
      ensures log'[i].at.dqs == TapAfter(cfg, s, Searches(log', k, i))
    {
      if i < |log| {
        SearchesOfMore(log, log', k, i);
        assert log'[i] == log[i];
      }
    }
  }

  /** The next attempt of the phase that begins with event `m` at setting `s`: its tap, and where DQS is. */
  ghost predicate NextTap(cfg: Config, t: Attempt, at: Setting, m: nat, s: Setting) {
    && PhaseAt(cfg, t.log, m, s) && SamePhase(at, s) && m <= |t.log|
    && (!cfg.disableGuaranteedRead ==> !Refused(t.log[m]))
    && at.dqs == s.dqs + Searches(t.log, SearchesFrom(cfg, m), |t.log|)
    && (AllSkipped(cfg.skipShadowRegs) ==> t.dqs == s.dqs)
  }

  lemma SearchInPhase(cfg: Config, t: Attempt, at: Setting, m: nat, s: Setting, e: Event)
    requires NextTap(cfg, t, at, m, s) && e.Search? && e.at == Loaded(cfg, t.dqs, at)
    ensures PhaseAt(cfg, t.log + [e], m, s)
    ensures Searches(t.log + [e], SearchesFrom(cfg, m), |t.log| + 1) == at.dqs - s.dqs + 1
  {
    var log, k := t.log + [e], SearchesFrom(cfg, m);
    SearchesOfMore(t.log, log, k, |t.log|);
    SweepsMore(cfg, t.log, log, k, s);
    assert forall i: nat :: k <= i < |t.log| ==> log[i] == t.log[i];
  }

  /** Attempts add searches of their phase, and centrings from where it began. */
  lemma TapInPhase(a: Answers, cfg: Config, t: Attempt, at: Setting, m: nat, s: Setting)
    requires NextTap(cfg, t, at, m, s)
    ensures var u := TryTap(a, cfg, t, s.dqs, at); NextTap(cfg, u, at.(dqs := at.dqs + 1), m, s) && t.log < u.log
  {
    var loaded := Loaded(cfg, t.dqs, at);
    var e := Search(loaded, a.dqsEnable(|t.log|, loaded));
    var log := t.log + [e];
    SearchInPhase(cfg, t, at, m, s, e);
    if e.found {
      assert at.(dqs := s.dqs) == s;
      var c := Centring(true, loaded.dqs, log, t.reports);
      CentreEachLog(a, cfg, FromVfifo(s), s.dqs, c, cfg.skipShadowRegs);
      CentreEachDqs(a, cfg, FromVfifo(s), s.dqs, c, cfg.skipShadowRegs);
      NoneInUse(cfg.skipShadowRegs);
      var u := TryTap(a, cfg, t, s.dqs, at);
      MoreCentring(cfg, log, u.log, m, s);
    }
  }

  lemma MoreCentring(cfg: Config, log: seq<Event>, log': seq<Event>, m: nat, s: Setting)
    requires PhaseAt(cfg, log, m, s) && log <= log' && OnlyCentring(FromVfifo(s), log', |log|)
    requires SearchesFrom(cfg, m) < |log|
    ensures PhaseAt(cfg, log', m, s)
    ensures Searches(log', SearchesFrom(cfg, m), |log'|) == Searches(log, SearchesFrom(cfg, m), |log|)
  {
    var k := SearchesFrom(cfg, m);
    SearchesOnly(FromVfifo(s), log', k, |log|, |log'|);
    SearchesOfMore(log, log', k, |log|);
    SweepsMore(cfg, log, log', k, s);
    forall i: nat | k <= i < |log'|
      ensures SearchOrCentre(log'[i], s)
    {
      if i < |log| {
        assert log'[i] == log[i];
      }
    }
  }

  lemma {:induction false} TapsInPhase(a: Answers, cfg: Config, t: Attempt, at: Setting, m: nat, s: Setting)
    requires NextTap(cfg, t, at, m, s)
    ensures var u := TryTaps(a, cfg, t, s.dqs, at); PhaseAt(cfg, u.log, m, s) && t.log <= u.log
    decreases cfg.dqsInMax + 1 - at.dqs
  {
    if at.dqs <= cfg.dqsInMax && !t.ok {
      TapInPhase(a, cfg, t, at, m, s);
      var u := TryTap(a, cfg, t, s.dqs, at);
      TapsInPhase(a, cfg, u, at.(dqs := at.dqs + 1), m, s);
    }
  }

  /** One phase whose guaranteed read does not fail. */
  lemma PhaseIsPhased(a: Answers, cfg: Config, g: nat, t: Attempt, s: Setting, n: nat)
    requires Phased(cfg, g, t.log, n, s.delay, s.phase) && s.group == g && s.dqs == t.dqs
    requires Guaranteed(a, cfg, t, s).0
    ensures var u := TryTaps(a, cfg, Guaranteed(a, cfg, t, s).1, s.dqs, s);
            Phased(cfg, g, u.log, n, s.delay, s.phase + 1) && t.log <= u.log
  {
    var t1, m := Guaranteed(a, cfg, t, s).1, |t.log|;
    assert PhaseAt(cfg, t1.log, m, s);
    TapsInPhase(a, cfg, t1, s, m, s);
    var u := TryTaps(a, cfg, t1, s.dqs, s);
    assert u.log[..m] == t.log;
    if m < |u.log| {
      assert !cfg.disableGuaranteedRead ==> u.log[m] == t1.log[m];
      assert cfg.disableGuaranteedRead ==> SearchOrCentre(u.log[m], s);
      assert LastPhase(cfg, g, u.log, n, s.delay, s.phase + 1, m, s);
    } else {
      assert u.log == t.log;
      PhasedLater(cfg, g, t.log, n, s.delay, s.phase, s.delay, s.phase + 1);
    }
  }

  lemma RefusalIsPhased(a: Answers, cfg: Config, g: nat, t: Attempt, s: Setting, n: nat)
    requires Phased(cfg, g, t.log, n, s.delay, s.phase) && s.group == g && !Guaranteed(a, cfg, t, s).0
    ensures var t1 := Guaranteed(a, cfg, t, s).1;
            Phased(cfg, g, t1.log, n, s.delay + 1, 0) && t1.log == t.log + [GuaranteedRead(s, false)]
  {
    var t1, m := Guaranteed(a, cfg, t, s).1, |t.log|;
    assert t1.log[..m] == t.log;
    assert LastPhase(cfg, g, t1.log, n, s.delay + 1, 0, m, s);
  }

  lemma {:induction false} PhasesArePhased(a: Answers, cfg: Config, g: nat, d: nat, t: Attempt, p: nat, n: nat)
    requires Phased(cfg, g, t.log, n, d, p)
    ensures var u := TryPhases(a, cfg, g, d, t, p); Phased(cfg, g, u.log, n, d + 1, 0) && t.log <= u.log
    decreases cfg.phases - p
  {
    var u := TryPhases(a, cfg, g, d, t, p);
    if p < cfg.phases && !t.ok {
      var s := Setting(g, d, p, t.dqs);
      var (pass, t1) := Guaranteed(a, cfg, t, s);
      if pass {
        PhaseIsPhased(a, cfg, g, t, s, n);
        var t2 := TryTaps(a, cfg, t1, t.dqs, s);
        assert u == TryPhases(a, cfg, g, d, t2, p + 1);
        PhasesArePhased(a, cfg, g, d, t2, p + 1, n);
      } else {
        RefusalIsPhased(a, cfg, g, t, s, n);
        assert u == t1;
      }
    } else {
      PhasedLater(cfg, g, t.log, n, d, p, d + 1, 0);
      assert u == t;
    }
  }

  lemma {:induction false} DelaysArePhased(a: Answers, cfg: Config, g: nat, t: Attempt, d: nat, n: nat)
    requires Phased(cfg, g, t.log, n, d, 0) && d <= cfg.attempts
    ensures var u := TryDelays(a, cfg, g, t, d); Phased(cfg, g, u.log, n, cfg.attempts, 0) && t.log <= u.log
    decreases cfg.attempts - d
  {
    var u := TryDelays(a, cfg, g, t, d);
    if d < cfg.attempts && !t.ok {
      PhasesArePhased(a, cfg, g, d, t, 0, n);
      var t1 := TryPhases(a, cfg, g, d, t, 0);
      assert u == TryDelays(a, cfg, g, t1, d + 1);
      DelaysArePhased(a, cfg, g, t1, d + 1, n);
    } else {
      PhasedLater(cfg, g, t.log, n, d, 0, cfg.attempts, 0);
      assert u == t;
    }
  }

  // ---- what the phases tell ------------------------------------------------------------------------

  /** Event `i` belongs to phase `s`. */
  ghost predicate Within(log: seq<Event>, i: nat, s: Setting) {
    i < |log| && InPhase(log[i], s)
  }

  /** Every event of the stage is made for its group, in a phase before (d, p). */
  lemma {:induction false} PhasedPlace(cfg: Config, g: nat, log: seq<Event>, n: nat, d: nat, p: nat, i: nat)
      returns (s: Setting)
    requires Phased(cfg, g, log, n, d, p) && n <= i < |log|
    ensures s.group == g && InPhase(log[i], s) && Earlier(s.delay, s.phase, Refused(log[i]), d, p)
    decreases |log|
  {
    var m: nat;
    m, s :| LastPhase(cfg, g, log, n, d, p, m, s);
    if i < m {
      s := PhasedPlace(cfg, g, log[..m], n, s.delay, s.phase, i);
    } else {
      assert i > m ==> SearchOrCentre(log[i], s);
      assert i == m && cfg.disableGuaranteedRead ==> SearchOrCentre(log[i], s);
    }
  }

  /** A search is allowed by the guaranteed read at event `j`: it passed, in the same phase, and is the last one. */
  ghost predicate Allows(log: seq<Event>, j: nat, i: nat) {
    && j < i < |log| && log[j].GuaranteedRead? && log[j].pass
    && log[i].Search? && SamePhase(log[j].at, log[i].at)
    && forall k: nat :: j < k < i ==> !log[k].GuaranteedRead?
  }

  lemma {:induction false} PhasedGuard(cfg: Config, g: nat, log: seq<Event>, n: nat, d: nat, p: nat, i: nat)
      returns (j: nat)
    requires Phased(cfg, g, log, n, d, p) && n <= i < |log| && log[i].Search? && !cfg.disableGuaranteedRead
    ensures n <= j && Allows(log, j, i)
    decreases |log|
  {
    var m: nat, s: Setting :| LastPhase(cfg, g, log, n, d, p, m, s);
    if i < m {
      j := PhasedGuard(cfg, g, log[..m], n, s.delay, s.phase, i);
    } else {
      j := m;
      assert SearchOrCentre(log[i], s);
      assert forall k: nat :: m < k < i ==> SearchOrCentre(log[k], s);
    }
  }

  /** The centring at event `i` starts where the first search of its phase, event `j`, was made. */
  ghost predicate StartsFrom(log: seq<Event>, n: nat, j: nat, i: nat) {
    && n <= j < i < |log| && log[i].Centre? && log[i].from.FromVfifo?
    && log[j].Search? && log[j].at == log[i].from.at
    && forall k: nat :: n <= k < j && log[k].Search? ==> !SamePhase(log[k].at, log[i].from.at)
  }

  lemma {:induction false} PhasedStart(cfg: Config, g: nat, log: seq<Event>, n: nat, d: nat, p: nat, i: nat)
      returns (j: nat)
    requires Phased(cfg, g, log, n, d, p) && n <= i < |log| && log[i].Centre?
    ensures StartsFrom(log, n, j, i)
    decreases |log|
  {
    var m: nat, s: Setting :| LastPhase(cfg, g, log, n, d, p, m, s);
    if i < m {
      j := PhasedStart(cfg, g, log[..m], n, s.delay, s.phase, i);
      assert forall k: nat :: k < m ==> log[..m][k] == log[k];
    } else {
      j := SearchesFrom(cfg, m);
      assert SearchOrCentre(log[i], s);
      forall k: nat | n <= k < j && log[k].Search?
        ensures !SamePhase(log[k].at, s)
      {
        var s' := PhasedPlace(cfg, g, log[..m], n, s.delay, s.phase, k);
      }
    }
  }

  /**
   The search at event `i` belongs to the sweep that begins with event `j`, the first search of its phase: it is made
   one tap after the search before it.
   */
  ghost predicate InSweep(cfg: Config, log: seq<Event>, n: nat, j: nat, i: nat) {
    && n <= j <= i < |log| && log[i].Search? && log[j].Search? && SamePhase(log[j].at, log[i].at)
    && (forall k: nat :: n <= k < j && log[k].Search? ==> !SamePhase(log[k].at, log[i].at))
    && log[i].at.dqs == TapAfter(cfg, log[j].at, Searches(log, j, i))
  }

  lemma {:induction false} PhasedSweep(cfg: Config, g: nat, log: seq<Event>, n: nat, d: nat, p: nat, i: nat)
      returns (j: nat)
    requires Phased(cfg, g, log, n, d, p) && n <= i < |log| && log[i].Search?
    ensures InSweep(cfg, log, n, j, i)
    decreases |log|
  {
    var m: nat, s: Setting :| LastPhase(cfg, g, log, n, d, p, m, s);
    if i < m {
      j := PhasedSweep(cfg, g, log[..m], n, s.delay, s.phase, i);
      SearchesOfMore(log[..m], log, j, i);
      assert forall k: nat :: k < m ==> log[..m][k] == log[k];
    } else {
      j := SearchesFrom(cfg, m);
      assert SearchOrCentre(log[i], s);
      forall k: nat | n <= k < j && log[k].Search?
        ensures !SamePhase(log[k].at, s)
      {
        var s' := PhasedPlace(cfg, g, log[..m], n, s.delay, s.phase, k);
      }
    }
  }

  lemma RefusedIsLast(cfg: Config, log: seq<Event>, m: nat, s: Setting, i: nat)
    requires PhaseAt(cfg, log, m, s) && m <= i < |log| && Refused(log[i])
    ensures i == |log| - 1
  {
    assert forall k: nat :: SearchesFrom(cfg, m) <= k < |log| ==> SearchOrCentre(log[k], s) && !Refused(log[k]);
  }

  /** Once a guaranteed read has failed, nothing more is asked for its output delay. */
  lemma {:induction false} PhasedRefusal(cfg: Config, g: nat, log: seq<Event>, n: nat, d: nat, p: nat, i: nat, j: nat)
    requires Phased(cfg, g, log, n, d, p) && n <= i < j < |log| && Refused(log[i])
    ensures forall s: Setting :: InPhase(log[j], s) ==> s.delay != log[i].at.delay
    decreases |log|
  {
    var m: nat, s: Setting :| LastPhase(cfg, g, log, n, d, p, m, s);
    if j < m {
      PhasedRefusal(cfg, g, log[..m], n, s.delay, s.phase, i, j);
    } else if i >= m {
      RefusedIsLast(cfg, log, m, s, i);
    } else {
      var s' := PhasedPlace(cfg, g, log[..m], n, s.delay, s.phase, i);
      assert j > m ==> SearchOrCentre(log[j], s);
      assert j == m && cfg.disableGuaranteedRead ==> SearchOrCentre(log[j], s);
      assert InPhase(log[j], s);
    }
  }

  // ---- every delay and phase is tried --------------------------------------------------------------

  /** Phase (d, p) was asked about, or an earlier phase at this delay was refused. */
  ghost predicate Asked(log: seq<Event>, n: nat, d: nat, p: nat) {
    exists i: nat :: AskedAt(log, n, d, p, i)
  }

  ghost predicate AskedAt(log: seq<Event>, n: nat, d: nat, p: nat, i: nat) {
    && n <= i < |log| && log[i].GuaranteedRead? && log[i].at.delay == d
    && (log[i].at.phase == p || (log[i].at.phase < p && !log[i].pass))
  }

  lemma AskedStays(log: seq<Event>, log': seq<Event>, n: nat, d: nat, p: nat)
    requires log <= log' && Asked(log, n, d, p)
    ensures Asked(log', n, d, p)
  {
    var i: nat :| AskedAt(log, n, d, p, i);
    assert AskedAt(log', n, d, p, i);
  }

  lemma {:induction false} TapsGrow(a: Answers, cfg: Config, t: Attempt, start: nat, at: Setting)
    ensures t.log <= TryTaps(a, cfg, t, start, at).log
    decreases cfg.dqsInMax + 1 - at.dqs
  {
    if at.dqs <= cfg.dqsInMax && !t.ok {
      var loaded := Loaded(cfg, t.dqs, at);
      CentreEachLog(a, cfg, FromVfifo(at.(dqs := start)), start,
                    Centring(true, loaded.dqs, t.log + [Search(loaded, true)], t.reports), cfg.skipShadowRegs);
      TapsGrow(a, cfg, TryTap(a, cfg, t, start, at), start, at.(dqs := at.dqs + 1));
    }
  }

  /** While nothing works, every phase from `p` on is asked about. */
  lemma {:induction false} PhasesAsked(a: Answers, cfg: Config, g: nat, d: nat, t: Attempt, p: nat, n: nat, q: nat)
    requires !cfg.disableGuaranteedRead && n <= |t.log| && p <= q < cfg.phases
    requires !TryPhases(a, cfg, g, d, t, p).ok
    ensures t.log <= TryPhases(a, cfg, g, d, t, p).log && Asked(TryPhases(a, cfg, g, d, t, p).log, n, d, q)
    decreases cfg.phases - p
  {
    var s := Setting(g, d, p, t.dqs);
    var u := TryPhases(a, cfg, g, d, t, p);
    var (pass, t1) := Guaranteed(a, cfg, t, s);
    assert t1.log[|t.log|] == GuaranteedRead(s, pass);
    if pass {
      var t2 := TryTaps(a, cfg, t1, t.dqs, s);
      TapsGrow(a, cfg, t1, t.dqs, s);
      assert u == TryPhases(a, cfg, g, d, t2, p + 1);
      PhasesGrow(a, cfg, g, d, t2, p + 1);
      if q == p {
        assert AskedAt(u.log, n, d, q, |t.log|);
      } else {
        PhasesAsked(a, cfg, g, d, t2, p + 1, n, q);
      }
    } else {
      assert u == t1;
      assert AskedAt(u.log, n, d, q, |t.log|);
    }
  }

  lemma {:induction false} PhasesGrow(a: Answers, cfg: Config, g: nat, d: nat, t: Attempt, p: nat)
    ensures t.log <= TryPhases(a, cfg, g, d, t, p).log
    decreases cfg.phases - p
  {
    if p < cfg.phases && !t.ok {
      var s := Setting(g, d, p, t.dqs);
      var (pass, t1) := Guaranteed(a, cfg, t, s);
      if pass {
        TapsGrow(a, cfg, t1, t.dqs, s);
        PhasesGrow(a, cfg, g, d, TryTaps(a, cfg, t1, t.dqs, s), p + 1);
      }
    }
  }

  lemma {:induction false} DelaysGrow(a: Answers, cfg: Config, g: nat, t: Attempt, d: nat)
    ensures t.log <= TryDelays(a, cfg, g, t, d).log && (t.ok ==> TryDelays(a, cfg, g, t, d) == t)
    decreases cfg.attempts - d
  {
    if d < cfg.attempts && !t.ok {
      PhasesGrow(a, cfg, g, d, t, 0);
      DelaysGrow(a, cfg, g, TryPhases(a, cfg, g, d, t, 0), d + 1);
    }
  }

  lemma {:induction false} DelaysAsked(a: Answers, cfg: Config, g: nat, t: Attempt, d: nat, n: nat, e: nat, q: nat)
    requires !cfg.disableGuaranteedRead && n <= |t.log| && d <= e < cfg.attempts && q < cfg.phases
    requires !TryDelays(a, cfg, g, t, d).ok
    ensures Asked(TryDelays(a, cfg, g, t, d).log, n, e, q)
    decreases cfg.attempts - d
  {
    var u := TryDelays(a, cfg, g, t, d);
    var t1 := TryPhases(a, cfg, g, d, t, 0);
    PhasesGrow(a, cfg, g, d, t, 0);
    DelaysGrow(a, cfg, g, t, d);
    assert u == TryDelays(a, cfg, g, t1, d + 1);
    DelaysGrow(a, cfg, g, t1, d + 1);
    if e == d {
      PhasesAsked(a, cfg, g, d, t, 0, n, q);
      AskedStays(t1.log, u.log, n, e, q);
    } else {
      DelaysAsked(a, cfg, g, t1, d + 1, n, e, q);
    }
  }

  // ---- the guaranteed reads of a stage -------------------------------------------------------------

  /** Every event of the VFIFO stage of a group is made for that group, at one of the delays and phases there are. */
  lemma VfifoStaysInGroup(a: Answers, cfg: Config, g: nat, r: Run, i: nat) returns (s: Setting)
    requires |r.log| <= i < |VfifoStage(a, cfg, g, r).log|
    ensures InPhase(VfifoStage(a, cfg, g, r).log[i], s) && s.group == g && s.delay < cfg.attempts
  {
    StageIsPhased(a, cfg, g, r);
    s := PhasedPlace(cfg, g, VfifoStage(a, cfg, g, r).log, |r.log|, cfg.attempts, 0, i);
  }

  lemma StageIsPhased(a: Answers, cfg: Config, g: nat, r: Run)
    ensures Phased(cfg, g, VfifoStage(a, cfg, g, r).log, |r.log|, cfg.attempts, 0)
    ensures r.log <= VfifoStage(a, cfg, g, r).log
  {
    DelaysArePhased(a, cfg, g, Start(cfg, r), 0, |r.log|);
  }

  /** With guaranteed reads, every search is allowed by one that passed in its phase. */
  lemma SearchIsAllowed(a: Answers, cfg: Config, g: nat, r: Run, i: nat)
    requires !cfg.disableGuaranteedRead && |r.log| <= i < |VfifoStage(a, cfg, g, r).log|
    requires VfifoStage(a, cfg, g, r).log[i].Search?
    ensures exists j: nat :: |r.log| <= j && Allows(VfifoStage(a, cfg, g, r).log, j, i)
  {
    StageIsPhased(a, cfg, g, r);
    var j := PhasedGuard(cfg, g, VfifoStage(a, cfg, g, r).log, |r.log|, cfg.attempts, 0, i);
  }

  /** A guaranteed read that fails ends its output delay, and no delay or phase is left out otherwise. */
  lemma RefusalEndsDelay(a: Answers, cfg: Config, g: nat, r: Run)
    ensures var log := VfifoStage(a, cfg, g, r).log;
            forall i: nat, j: nat, s: Setting :: |r.log| <= i < j < |log| && Refused(log[i]) && InPhase(log[j], s) ==>
              s.delay != log[i].at.delay
    ensures !cfg.disableGuaranteedRead && !VfifoStage(a, cfg, g, r).ok ==>
              forall d: nat, p: nat :: d < cfg.attempts && p < cfg.phases ==>
                Asked(VfifoStage(a, cfg, g, r).log, |r.log|, d, p)
  {
    StageIsPhased(a, cfg, g, r);
    var log := VfifoStage(a, cfg, g, r).log;
    forall i: nat, j: nat, s: Setting | |r.log| <= i < j < |log| && Refused(log[i]) && InPhase(log[j], s)
      ensures s.delay != log[i].at.delay
    {
      PhasedRefusal(cfg, g, log, |r.log|, cfg.attempts, 0, i, j);
    }
    if !cfg.disableGuaranteedRead && !VfifoStage(a, cfg, g, r).ok {
      forall d: nat, p: nat | d < cfg.attempts && p < cfg.phases
        ensures Asked(log, |r.log|, d, p)
      {
        DelaysAsked(a, cfg, g, Start(cfg, r), 0, |r.log|, d, p);
      }
    }
  }

  /** Every centring of the stage starts from the delay where the first search of its phase was made. */
  lemma CentringStartsFromSweep(a: Answers, cfg: Config, g: nat, r: Run, i: nat)
    requires |r.log| <= i < |VfifoStage(a, cfg, g, r).log| && VfifoStage(a, cfg, g, r).log[i].Centre?
    ensures exists j: nat :: StartsFrom(VfifoStage(a, cfg, g, r).log, |r.log|, j, i)
  {
    StageIsPhased(a, cfg, g, r);
    var j := PhasedStart(cfg, g, VfifoStage(a, cfg, g, r).log, |r.log|, cfg.attempts, 0, i);
  }

  /** The searches of a phase are made tap by tap. */
  lemma SearchIsInSweep(a: Answers, cfg: Config, g: nat, r: Run, i: nat)
    requires |r.log| <= i < |VfifoStage(a, cfg, g, r).log| && VfifoStage(a, cfg, g, r).log[i].Search?
    ensures exists j: nat :: InSweep(cfg, VfifoStage(a, cfg, g, r).log, |r.log|, j, i)
  {
    StageIsPhased(a, cfg, g, r);
    var j := PhasedSweep(cfg, g, VfifoStage(a, cfg, g, r).log, |r.log|, cfg.attempts, 0, i);
  }

  /** The substage of the last question that was not a guaranteed read. */
  function SubstageOf(log: seq<Event>, n: nat): nat {
    if |log| <= n then SUBSTAGE_GUARANTEED_READ
    else
      match log[|log| - 1]
      case GuaranteedRead(_, _) => SubstageOf(log[..|log| - 1], n)
      case Search(_, false) => SUBSTAGE_DQS_EN_PHASE
      case _ => SUBSTAGE_VFIFO_CENTER
  }

  lemma TapSubstage(a: Answers, cfg: Config, t: Attempt, start: nat, at: Setting, n: nat)
    requires n <= |t.log|
    ensures var u := TryTap(a, cfg, t, start, at); n <= |u.log| && u.failed == SubstageOf(u.log, n)
  {
    var loaded := Loaded(cfg, t.dqs, at);
    var log := t.log + [Search(loaded, true)];
    CentreEachLog(a, cfg, FromVfifo(at.(dqs := start)), start, Centring(true, loaded.dqs, log, t.reports),
                  cfg.skipShadowRegs);
  }

  lemma {:induction false} TapsSubstage(a: Answers, cfg: Config, t: Attempt, start: nat, at: Setting, n: nat)
    requires n <= |t.log| && t.failed == SubstageOf(t.log, n)
    ensures var u := TryTaps(a, cfg, t, start, at); n <= |u.log| && u.failed == SubstageOf(u.log, n)
    decreases cfg.dqsInMax + 1 - at.dqs
  {
    if at.dqs <= cfg.dqsInMax && !t.ok {
      TapSubstage(a, cfg, t, start, at, n);
      TapsSubstage(a, cfg, TryTap(a, cfg, t, start, at), start, at.(dqs := at.dqs + 1), n);
    }
  }

  lemma GuaranteedSubstage(a: Answers, cfg: Config, t: Attempt, at: Setting, n: nat)
    requires n <= |t.log| && t.failed == SubstageOf(t.log, n)
    ensures var t1 := Guaranteed(a, cfg, t, at).1; n <= |t1.log| && t1.failed == SubstageOf(t1.log, n)
  {
    var t1 := Guaranteed(a, cfg, t, at).1;
    if !cfg.disableGuaranteedRead {
      assert t1.log[..|t1.log| - 1] == t.log;
    }
  }

  lemma {:induction false} PhasesSubstage(a: Answers, cfg: Config, g: nat, d: nat, t: Attempt, p: nat, n: nat)
    requires n <= |t.log| && t.failed == SubstageOf(t.log, n)
    ensures var u := TryPhases(a, cfg, g, d, t, p); n <= |u.log| && u.failed == SubstageOf(u.log, n)
    decreases cfg.phases - p
  {
    if p < cfg.phases && !t.ok {
      var s := Setting(g, d, p, t.dqs);
      GuaranteedSubstage(a, cfg, t, s, n);
      var (pass, t1) := Guaranteed(a, cfg, t, s);
      if pass {
        TapsSubstage(a, cfg, t1, t.dqs, s, n);
        PhasesSubstage(a, cfg, g, d, TryTaps(a, cfg, t1, t.dqs, s), p + 1, n);
      }
    }
  }

  lemma {:induction false} DelaysSubstage(a: Answers, cfg: Config, g: nat, t: Attempt, d: nat, n: nat)
    requires n <= |t.log| && t.failed == SubstageOf(t.log, n)
    ensures var u := TryDelays(a, cfg, g, t, d); n <= |u.log| && u.failed == SubstageOf(u.log, n)
    decreases cfg.attempts - d
  {
    if d < cfg.attempts && !t.ok {
      PhasesSubstage(a, cfg, g, d, t, 0, n);
      DelaysSubstage(a, cfg, g, TryPhases(a, cfg, g, d, t, 0), d + 1, n);
    }
  }

  /** A VFIFO stage that fails reports its group last, with the substage of the last question but guaranteed reads. */
  lemma VfifoFailureNamed(a: Answers, cfg: Config, g: nat, r: Run)
    requires !VfifoStage(a, cfg, g, r).ok
    ensures var r' := VfifoStage(a, cfg, g, r);
            && |r'.reports| > 0
            && r'.reports[|r'.reports| - 1] == Report(g, STAGE_VFIFO, SubstageOf(r'.log, |r.log|))
  {
    DelaysSubstage(a, cfg, g, Start(cfg, r), 0, |r.log|);
  }

  /**
   When no guaranteed read passes the stage fails, without a single search and with the substage of guaranteed
   reads, after one such read for each output delay.
   */
  lemma NothingGuaranteed(a: Answers, cfg: Config, g: nat, r: Run)
    requires !cfg.disableGuaranteedRead && forall k: nat, at: Setting :: !a.guaranteedRead(k, at)
    ensures var r' := VfifoStage(a, cfg, g, r);
            && !r'.ok && |r'.reports| > 0
            && r'.reports[|r'.reports| - 1] == Report(g, STAGE_VFIFO, SUBSTAGE_GUARANTEED_READ)
            && forall i: nat :: |r.log| <= i < |r'.log| ==> Refused(r'.log[i])
    ensures cfg.phases > 0 ==> |VfifoStage(a, cfg, g, r).log| == |r.log| + cfg.attempts
  {
    NothingGuaranteedFrom(a, cfg, g, Start(cfg, r), 0, |r.log|);
  }

  lemma {:induction false} NothingGuaranteedFrom(a: Answers, cfg: Config, g: nat, t: Attempt, d: nat, n: nat)
    requires !cfg.disableGuaranteedRead && forall k: nat, at: Setting :: !a.guaranteedRead(k, at)
    requires !t.ok && d <= cfg.attempts && n <= |t.log| && forall i: nat :: n <= i < |t.log| ==> Refused(t.log[i])
    ensures var u := TryDelays(a, cfg, g, t, d);
            && !u.ok && u.failed == t.failed && |u.log| >= n
            && (forall i: nat :: n <= i < |u.log| ==> Refused(u.log[i]))
            && (cfg.phases > 0 ==> |u.log| == |t.log| + (cfg.attempts - d))
    decreases cfg.attempts - d
  {
    if d < cfg.attempts {
      var t1 := TryPhases(a, cfg, g, d, t, 0);
      assert cfg.phases > 0 ==> t1.log == t.log + [GuaranteedRead(Setting(g, d, 0, t.dqs), false)];
      assert TryDelays(a, cfg, g, t, d) == TryDelays(a, cfg, g, t1, d + 1);
      NothingGuaranteedFrom(a, cfg, g, t1, d + 1, n);
    }
  }

  // ---- where a phase leaves the DQS input delay ----------------------------------------------------

  /** The DQS input delay after an attempt at `tap`, told from the last question of its log. */
  function LeftBy(a: Answers, tap: nat, start: nat, log: seq<Event>): nat
    requires log != []
  {
    match log[|log| - 1]
    case Centre(from, Margins(_, _)) => a.readDqs(|log| - 1, from)
    case Centre(_, NoWindow(_)) => start
    case _ => tap
  }

  lemma TapLeaves(a: Answers, cfg: Config, t: Attempt, start: nat, at: Setting)
    requires !AllSkipped(cfg.skipShadowRegs)
    ensures var u := TryTap(a, cfg, t, start, at); u.log != [] && u.dqs == LeftBy(a, at.dqs, start, u.log)
  {
    var log := t.log + [Search(at, true)];
    NoneInUse(cfg.skipShadowRegs);
    CentreEachDqs(a, cfg, FromVfifo(at.(dqs := start)), start, Centring(true, at.dqs, log, t.reports),
                  cfg.skipShadowRegs);
    CentreEachLog(a, cfg, FromVfifo(at.(dqs := start)), start, Centring(true, at.dqs, log, t.reports),
                  cfg.skipShadowRegs);
  }

  /** A phase that fails leaves DQS as its attempt at the last tap does. */
  lemma {:induction false} FailingPhaseLeaves(a: Answers, cfg: Config, t: Attempt, start: nat, at: Setting)
    requires !AllSkipped(cfg.skipShadowRegs) && at.dqs <= cfg.dqsInMax && !t.ok
    requires !TryTaps(a, cfg, t, start, at).ok
    ensures var u := TryTaps(a, cfg, t, start, at);
            u.log != [] && u.dqs == LeftBy(a, cfg.dqsInMax, start, u.log)
    decreases cfg.dqsInMax - at.dqs
  {
    var u := TryTap(a, cfg, t, start, at);
    TapLeaves(a, cfg, t, start, at);
    if at.dqs < cfg.dqsInMax {
      FailingPhaseLeaves(a, cfg, u, start, at.(dqs := at.dqs + 1));
    } else {
      assert TryTaps(a, cfg, u, start, at.(dqs := at.dqs + 1)) == u;
    }
  }

  /**
   The sweep of the next phase starts from the same delay iff the last attempt found a pin without a window, or
   its centring happened to put DQS there; after a search that failed only when that delay is the last one.
   */
  lemma SweepRestartsIff(a: Answers, cfg: Config, t: Attempt, start: nat, at: Setting)
    requires !AllSkipped(cfg.skipShadowRegs) && at.dqs <= cfg.dqsInMax && !t.ok
    requires !TryTaps(a, cfg, t, start, at).ok
    ensures var u := TryTaps(a, cfg, t, start, at);
            && u.log != []
            && (u.dqs == start <==>
                match u.log[|u.log| - 1]
                case Centre(from, Margins(_, _)) => a.readDqs(|u.log| - 1, from) == start
                case Centre(_, NoWindow(_)) => true
                case _ => start == cfg.dqsInMax)
  {
    FailingPhaseLeaves(a, cfg, t, start, at);
  }

  /** From the last tap a phase tries this one delay only: the sweep over the delays is not repeated. */
  lemma LastTapIsTriedAlone(a: Answers, cfg: Config, t: Attempt, start: nat, at: Setting)
    requires !t.ok && at.dqs == cfg.dqsInMax
    ensures TryTaps(a, cfg, t, start, at) == TryTap(a, cfg, t, start, at)
  {
    var u := TryTap(a, cfg, t, start, at);
    assert TryTaps(a, cfg, t, start, at) == TryTaps(a, cfg, u, start, at.(dqs := at.dqs + 1)) == u;
  }

  /** Searches succeed at the settings in `works`, whenever they are made; everything else always succeeds. */
  ghost predicate SearchDecides(a: Answers, works: Setting -> bool) {
    && (forall k: nat, at: Setting :: a.dqsEnable(k, at) == works(at) && a.guaranteedRead(k, at))
    && (forall k: nat, from: Caller :: Centres(a.readCentre(k, from)))
  }

  predicate WorksAt(works: Setting -> bool, g: nat, d: nat, p: nat, tap: nat) {
    works(Setting(g, d, p, tap))
  }

  lemma TapDecided(a: Answers, cfg: Config, works: Setting -> bool, t: Attempt, start: nat, at: Setting)
    requires SearchDecides(a, works) && !AllSkipped(cfg.skipShadowRegs)
    ensures var u := TryTap(a, cfg, t, start, at); (u.ok <==> works(at)) && (!u.ok ==> u.dqs == at.dqs)
  {
    if works(at) {
      var from, c := FromVfifo(at.(dqs := start)), Centring(true, at.dqs, t.log + [Search(at, true)], t.reports);
      AllCentred(a, cfg, works, from, start, c, cfg.skipShadowRegs);
    }
  }

  lemma {:induction false} AllCentred(a: Answers, cfg: Config, works: Setting -> bool, from: Caller, start: nat,
                                      c: Centring, skip: seq<bool>)
    requires SearchDecides(a, works) && c.ok
    ensures CentreEach(a, cfg, from, start, c, skip).ok
    decreases |skip|
  {
    if skip != [] {
      AllCentred(a, cfg, works, from, start, c, skip[..|skip| - 1]);
    }
  }

  lemma {:induction false} TapsDecided(a: Answers, cfg: Config, works: Setting -> bool, t: Attempt, start: nat,
                                       at: Setting)
    requires SearchDecides(a, works) && !AllSkipped(cfg.skipShadowRegs) && at.dqs <= cfg.dqsInMax && !t.ok
    ensures var u := TryTaps(a, cfg, t, start, at);
            && (u.ok <==> exists tap: nat :: at.dqs <= tap <= cfg.dqsInMax
                                             && WorksAt(works, at.group, at.delay, at.phase, tap))
            && (!u.ok ==> u.dqs == cfg.dqsInMax)
    decreases cfg.dqsInMax - at.dqs
  {
    TapDecided(a, cfg, works, t, start, at);
    assert at == Setting(at.group, at.delay, at.phase, at.dqs);
    assert WorksAt(works, at.group, at.delay, at.phase, at.dqs) == works(at);
    var u := TryTap(a, cfg, t, start, at);
    if at.dqs < cfg.dqsInMax && !u.ok {
      TapsDecided(a, cfg, works, u, start, at.(dqs := at.dqs + 1));
    } else {
      assert TryTaps(a, cfg, u, start, at.(dqs := at.dqs + 1)) == u;
    }
  }

  /** From the last tap on, every phase is decided by that tap alone. */
  lemma {:induction false} PhasesDecided(a: Answers, cfg: Config, works: Setting -> bool, g: nat, d: nat, t: Attempt,
                                         p: nat)
    requires SearchDecides(a, works) && !AllSkipped(cfg.skipShadowRegs) && t.dqs == cfg.dqsInMax && !t.ok
    ensures var u := TryPhases(a, cfg, g, d, t, p);
            && (u.ok <==> exists q: nat :: p <= q < cfg.phases && WorksAt(works, g, d, q, cfg.dqsInMax))
            && (!u.ok ==> u.dqs == cfg.dqsInMax)
    decreases cfg.phases - p
  {
    if p < cfg.phases {
      var at := Setting(g, d, p, t.dqs);
      var t1 := Guaranteed(a, cfg, t, at).1;
      TapsDecided(a, cfg, works, t1, t.dqs, at);
      assert WorksAt(works, g, d, p, cfg.dqsInMax) == works(at);
      var t2 := TryTaps(a, cfg, t1, t.dqs, at);
      if t2.ok {
        assert TryPhases(a, cfg, g, d, t2, p + 1) == t2;
      } else {
        PhasesDecided(a, cfg, works, g, d, t2, p + 1);
      }
    }
  }

  lemma {:induction false} DelaysDecided(a: Answers, cfg: Config, works: Setting -> bool, g: nat, t: Attempt, d: nat)
    requires SearchDecides(a, works) && !AllSkipped(cfg.skipShadowRegs) && t.dqs == cfg.dqsInMax && !t.ok
    ensures TryDelays(a, cfg, g, t, d).ok <==>
            exists e: nat, q: nat :: d <= e < cfg.attempts && q < cfg.phases && WorksAt(works, g, e, q, cfg.dqsInMax)
    decreases cfg.attempts - d
  {
    if d < cfg.attempts {
      PhasesDecided(a, cfg, works, g, d, t, 0);
      var t1 := TryPhases(a, cfg, g, d, t, 0);
      if t1.ok {
        assert TryDelays(a, cfg, g, t1, d + 1) == t1;
      } else {
        DelaysDecided(a, cfg, works, g, t1, d + 1);
      }
    }
  }

  /**
   What the VFIFO stage really tries: every tap from the reserve on in the very first phase, and only the last tap
   anywhere else. Hence a memory that works at an earlier tap of a later phase fails.
   */
  lemma VfifoTriesIff(a: Answers, cfg: Config, works: Setting -> bool, g: nat, r: Run)
    requires SearchDecides(a, works) && !AllSkipped(cfg.skipShadowRegs)
    requires cfg.reserve <= cfg.dqsInMax && cfg.phases > 0 && cfg.attempts > 0
    ensures VfifoStage(a, cfg, g, r).ok <==>
            || (exists tap: nat :: cfg.reserve <= tap <= cfg.dqsInMax && WorksAt(works, g, 0, 0, tap))
            || (exists d: nat, p: nat :: d < cfg.attempts && p < cfg.phases && WorksAt(works, g, d, p, cfg.dqsInMax))
  {
    var t, at := Start(cfg, r), Setting(g, 0, 0, cfg.reserve);
    var t1 := Guaranteed(a, cfg, t, at).1;
    TapsDecided(a, cfg, works, t1, t.dqs, at);
    var t2 := TryTaps(a, cfg, t1, t.dqs, at);
    assert TryPhases(a, cfg, g, 0, t, 0) == TryPhases(a, cfg, g, 0, t2, 1);
    if t2.ok {
      assert TryPhases(a, cfg, g, 0, t2, 1) == t2;
      assert TryDelays(a, cfg, g, t, 0) == TryDelays(a, cfg, g, t2, 1) == t2;
    } else {
      PhasesDecided(a, cfg, works, g, 0, t2, 1);
      var t3 := TryPhases(a, cfg, g, 0, t2, 1);
      assert TryDelays(a, cfg, g, t, 0) == TryDelays(a, cfg, g, t3, 1);
      if t3.ok {
        assert TryDelays(a, cfg, g, t3, 1) == t3;
      } else {
        DelaysDecided(a, cfg, works, g, t3, 1);
      }
      LaterDelays(cfg, works, g);
    }
  }

  /** The phases at the last tap, those of the first output delay apart from the others. */
  lemma LaterDelays(cfg: Config, works: Setting -> bool, g: nat)
    requires forall tap: nat :: cfg.reserve <= tap <= cfg.dqsInMax ==> !WorksAt(works, g, 0, 0, tap)
    requires cfg.reserve <= cfg.dqsInMax && cfg.attempts > 0
    ensures (exists d: nat, p: nat :: d < cfg.attempts && p < cfg.phases && WorksAt(works, g, d, p, cfg.dqsInMax))
       <==> || (exists q: nat :: 1 <= q < cfg.phases && WorksAt(works, g, 0, q, cfg.dqsInMax))
            || (exists e: nat, q: nat ::
                  1 <= e < cfg.attempts && q < cfg.phases && WorksAt(works, g, e, q, cfg.dqsInMax))
  {
    assert !WorksAt(works, g, 0, 0, cfg.dqsInMax);
  }

  /** A memory that works in phase 1 at the reserve delay, where a full sweep would find it, and fails. */
  lemma WorkingPhaseIsMissed(a: Answers, cfg: Config, works: Setting -> bool, g: nat, r: Run)
    requires SearchDecides(a, works) && !AllSkipped(cfg.skipShadowRegs)
    requires cfg.reserve < cfg.dqsInMax && cfg.phases > 1 && cfg.attempts > 0
    requires forall at: Setting :: works(at) <==> at.phase == 1 && at.dqs == cfg.reserve
    ensures works(Setting(g, 0, 1, cfg.reserve)) && !VfifoStage(a, cfg, g, r).ok
  {
    VfifoTriesIff(a, cfg, works, g, r);
  }
}
