/**
 Search for the DQS enable window of a read group: push the VFIFO, sweep the phase taps and the
 delay taps, and put the enable in the middle of what passes. Every read test may answer anything; what a
 repeatable memory with one passing interval makes of the search is the subject of `DqsWindow`.
 */
module DqsEnable {
  import opened Modular

  const OPA_TAP: nat := 312  // delay of a phase tap
  const DTAP: nat := 25      // delay of a DQS enable delay tap
  const OPA_DTAPS: nat := 13 // delay taps that cover a phase tap

  /** What decides a read: the phase tap, the delay tap and the VFIFO pointer. */
  datatype Setting = Setting(phase: nat, delay: nat, vfifo: nat)

  /** A read test of some tries, all of which passed. */
  datatype Worked = Worked(at: Setting, tries: nat)

  datatype Event =
    | SetPhase(phase: nat)
    | SetDelay(delay: nat)
    | PushVfifo
    | Test(at: Setting, pass: bool)

  class Phy {
    const phaseMax: nat
    const delayMax: nat
    const vfifoSize: nat
    const answers: (nat, Setting) -> bool // the outcome of each read test, by its number and setting
    var phase: nat
    var delay: nat
    var vfifo: nat             // pointer inside the VFIFO
    var tests: nat
    var log: seq<Event>
    ghost var net: int         // steps forward less steps back
    ghost var origin: nat      // where the pointer was when the software count was 0
    ghost var mark: nat        // where the log of the current search begins
    ghost var failed: set<Setting> // settings at which a read test of this search failed
    ghost var worked: set<Worked>  // and those at which one passed

    ghost predicate Valid()
      reads this
    {
      && 1 <= phaseMax && OPA_DTAPS <= delayMax && 1 <= vfifoSize
      && vfifo == net % vfifoSize
      && Legal(log, phaseMax, delayMax, answers)
      && Shown(log, mark, failed, worked)
    }

    /** The software count agrees with the hardware pointer. */
    ghost predicate InStep(v: nat)
      requires Valid()
      reads this
    {
      vfifo == (origin + v) % vfifoSize
    }

    constructor (phaseMax: nat, delayMax: nat, vfifoSize: nat, answers: (nat, Setting) -> bool)
      requires 1 <= phaseMax && OPA_DTAPS <= delayMax && 1 <= vfifoSize
      ensures Valid() && log == [] && vfifo == 0
      ensures this.phaseMax == phaseMax && this.delayMax == delayMax && this.vfifoSize == vfifoSize
    {
      this.phaseMax, this.delayMax, this.vfifoSize, this.answers := phaseMax, delayMax, vfifoSize, answers;
      phase, delay, vfifo, tests, log := 0, 0, 0, 0, [];
      net, origin, mark, failed, worked := 0, 0, 0, {}, {};
    }

    /** A new search begins: its software count is 0, and nothing has been tested. */
    ghost method Begin()
      requires Valid()
      modifies this`origin, this`mark, this`failed, this`worked
      ensures Valid() && InStep(0) && origin == vfifo && mark == |log| && failed == {} && worked == {}
    {
      origin, mark, failed, worked := vfifo, |log|, {}, {};
      AddMod(net, 0, vfifoSize);
    }

    function Here(): Setting
      reads this
    {
      Setting(phase, delay, vfifo)
    }

    /** What is known about the current search is not lost. */
    twostate predicate Grows()
      reads this
    {
      mark == old(mark) && old(failed) <= failed && old(worked) <= worked && origin == old(origin)
    }

    twostate predicate SamePointer()
      reads this
    {
      vfifo == old(vfifo) && net == old(net)
    }

    method SetDqsEnPhase(p: nat)
      requires Valid() && 1 <= p <= phaseMax
      modifies this`phase, this`log
      ensures Valid() && phase == p && log == old(log) + [SetPhase(p)]
    {
      phase := p;
      ShownMore(log, mark, failed, worked, SetPhase(p));
      log := log + [SetPhase(p)];
    }

    method SetDqsEnDelay(d: nat)
      requires Valid() && d <= delayMax
      modifies this`delay, this`log
      ensures Valid() && delay == d && log == old(log) + [SetDelay(d)]
    {
      delay := d;
      ShownMore(log, mark, failed, worked, SetDelay(d));
      log := log + [SetDelay(d)];
    }

    /** Advance the hardware pointer and the software count together. */
    method IncrVfifo(v0: nat) returns (v: nat)
      requires Valid() && InStep(v0)
      modifies this`vfifo, this`net, this`log
      ensures Valid() && InStep(v) && v == v0 + 1 && net == old(net) + 1
      ensures vfifo == (old(vfifo) + 1) % vfifoSize
    {
      AddMod(net, 1, vfifoSize);
      AddMod(origin + v0, 1, vfifoSize);
      vfifo := (vfifo + 1) % vfifoSize;
      net := net + 1;
      ShownMore(log, mark, failed, worked, PushVfifo);
      log := log + [PushVfifo];
      v := v0 + 1;
    }

    /** One step back is all the other steps forward: it undoes a step forward. */
    method DecrVfifo(v0: nat) returns (v: nat)
      requires Valid() && InStep(v0)
      modifies this`vfifo, this`net, this`log
      ensures Valid() && InStep(v) && v == v0 + vfifoSize - 1 && net == old(net) - 1
      ensures (vfifo + 1) % vfifoSize == old(vfifo)
    {
      v := v0;
      for i := 0 to vfifoSize - 1
        invariant Valid() && InStep(v) && v == v0 + i && net == old(net) + i
      {
        v := IncrVfifo(v);
      }
      AddMultiple(net - vfifoSize, 1, vfifoSize);
      net := net - vfifoSize;
      AddMod(net, 1, vfifoSize);
    }

    /** Up to `tries` read tests at the current settings, at least one; the first failure ends them. */
    method ReadTest(tries: nat) returns (pass: bool)
      requires Valid() && tries > 0
      modifies this`tests, this`log, this`failed, this`worked
      ensures Valid() && old(log) <= log && tests - old(tests) == |log| - |old(log)| > 0
      ensures forall k :: |old(log)| <= k < |log| ==>
                log[k] == Test(Here(), answers(old(tests) + k - |old(log)|, Here()))
      ensures log[|log| - 1] == Test(Here(), pass)
      ensures failed == (if pass then old(failed) else old(failed) + {Here()})
      ensures worked == if pass then old(worked) + {Worked(Here(), tries)} else old(worked)
    {
      pass := true;
      var i, at := 0, Here();
      while i < tries
        invariant Valid() && i <= tries && pass && |log| == |old(log)| + i && old(log) <= log && tests == old(tests) + i
        invariant failed == old(failed) && worked == old(worked)
        invariant forall k :: |old(log)| <= k < |log| ==>
                    log[k] == Test(at, true) && answers(old(tests) + k - |old(log)|, at)
      {
        pass := answers(tests, at);
        assert IsAnswer(answers, Test(at, pass));
        ShownMore(log, mark, failed, worked, Test(at, pass));
        log := log + [Test(at, pass)];
        tests := tests + 1;
        i := i + 1;
        if !pass {
          assert log[|log| - 1] == Test(at, false);
          failed := failed + {at};
          return;
        }
      }
      assert AllPass(log, |old(log)|, tries, at);
      worked := worked + {Worked(at, tries)};
    }
  }

  /** Everything written is in range: phase 0 is never used. */
  predicate LegalEvent(e: Event, phaseMax: nat, delayMax: nat) {
    match e
    case SetPhase(p) => 1 <= p <= phaseMax
    case SetDelay(d) => d <= delayMax
    case PushVfifo => true
    case Test(_, _) => true
  }

  /** A test passes or fails as the memory answers. */
  ghost predicate IsAnswer(answers: (nat, Setting) -> bool, e: Event) {
    e.Test? ==> exists n: nat :: answers(n, e.at) == e.pass
  }

  ghost predicate Legal(log: seq<Event>, phaseMax: nat, delayMax: nat, answers: (nat, Setting) -> bool) {
    forall k :: 0 <= k < |log| ==> LegalEvent(log[k], phaseMax, delayMax) && IsAnswer(answers, log[k])
  }

  // ---- what the log shows ----------------------------------------------------------------------

  /** Since entry `from`, a read failed at this setting. */
  ghost predicate FailedSince(log: seq<Event>, from: nat, at: Setting) {
    exists k :: from <= k < |log| && log[k] == Test(at, false)
  }

  ghost predicate AllPass(log: seq<Event>, k: nat, tries: nat, at: Setting) {
    k + tries <= |log| && forall m :: k <= m < k + tries ==> log[m] == Test(at, true)
  }

  /** Since entry `from`, so many reads in a row passed at this setting. */
  ghost predicate PassedSince(log: seq<Event>, from: nat, tries: nat, at: Setting) {
    exists k: nat :: from <= k && AllPass(log, k, tries, at)
  }

  /** What is said to have failed or worked since entry `from` did. */
  ghost predicate Shown(log: seq<Event>, from: nat, failed: set<Setting>, worked: set<Worked>) {
    && from <= |log|
    && (forall at :: at in failed ==> FailedSince(log, from, at))
    && (forall w :: w in worked ==> PassedSince(log, from, w.tries, w.at))
  }

  lemma ShownMore(log: seq<Event>, from: nat, failed: set<Setting>, worked: set<Worked>, e: Event)
    requires Shown(log, from, failed, worked)
    ensures Shown(log + [e], from, failed, worked)
  {
    var more := log + [e];
    forall at | at in failed
      ensures FailedSince(more, from, at)
    {
      var k :| from <= k < |log| && log[k] == Test(at, false);
      assert more[k] == Test(at, false);
    }
    forall w | w in worked
      ensures PassedSince(more, from, w.tries, w.at)
    {
      var k: nat :| from <= k && AllPass(log, k, w.tries, w.at);
      assert AllPass(more, k, w.tries, w.at);
    }
  }

  // ---- delays and positions ------------------------------------------------------------------

  /** Delay of one VFIFO step: all the phase taps. */
  function CycleDelay(phaseMax: nat): nat {
    OPA_TAP * (phaseMax + 1)
  }

  /** Delay of `turns` VFIFO steps and phase `p`. */
  function Position(turns: int, p: int, phaseMax: nat): int {
    turns * CycleDelay(phaseMax) + OPA_TAP * p
  }

  lemma NextCycle(turns: int, phaseMax: nat)
    ensures Position(turns + 1, 0, phaseMax) == Position(turns, phaseMax + 1, phaseMax)
    ensures Position(turns, 0, phaseMax) == turns * CycleDelay(phaseMax)
  {
    assert (turns + 1) * CycleDelay(phaseMax) == turns * CycleDelay(phaseMax) + CycleDelay(phaseMax);
  }

  /** The VFIFO pointer `i` steps after `v0`. */
  function Slot(v0: nat, i: nat, size: nat): nat
    requires size > 0
  {
    (v0 + i) % size
  }

  lemma NextSlot(v0: nat, i: nat, size: nat)
    requires size > 0
    ensures Slot(v0, i + 1, size) == (Slot(v0, i, size) + 1) % size
    ensures v0 < size ==> Slot(v0, 0, size) == v0
  {
    AddMod(v0 + i, 1, size);
    if v0 < size {
      DivModUnique(v0, 0, v0, size);
    }
  }

  // ---- step 0: delay taps per phase tap -------------------------------------------------------

  /** The largest number of delay taps that stays below one phase tap. */
  method DtapsPerPtap() returns (n: nat)
    ensures n * DTAP < OPA_TAP <= (n + 1) * DTAP
    ensures n == OPA_DTAPS - 1
  {
    n := 0;
    var tmp := 0;
    while tmp < OPA_TAP
      invariant tmp == n * DTAP && (n > 0 ==> (n - 1) * DTAP < OPA_TAP)
    {
      n := n + 1;
      tmp := tmp + DTAP;
    }
    n := n - 1;
  }

  // ---- step 1: push the VFIFO to a failing read ------------------------------------------------

  /** Of the first `n` VFIFO positions all but number `x` work at these taps. */
  ghost predicate OthersWork(worked: set<Worked>, p: nat, d: nat, v0: nat, size: nat, n: nat, x: nat)
    requires size > 0
  {
    forall i: nat :: i < n && i != x ==> Worked(Setting(p, d, Slot(v0, i, size)), 5) in worked
  }

  /** Stops at the second failing read; fails when at most one VFIFO position does. */
  method PushToFailingRead(phy: Phy) returns (found: bool, v: nat, ghost first: nat)
    requires phy.Valid() && phy.InStep(0)
    modifies phy
    ensures phy.Valid() && phy.InStep(v) && phy.Grows()
    ensures phy.phase == old(phy.phase) && phy.delay == old(phy.delay)
    ensures v <= phy.vfifoSize && (found <==> v < phy.vfifoSize)
    ensures OthersWork(phy.worked, phy.phase, phy.delay, old(phy.vfifo), phy.vfifoSize, v, first)
    ensures found ==>
              && first < v && Setting(phy.phase, phy.delay, Slot(old(phy.vfifo), first, phy.vfifoSize)) in phy.failed
              && phy.vfifo == Slot(old(phy.vfifo), v, phy.vfifoSize) && phy.Here() in phy.failed
  {
    ghost var v0 := phy.vfifo;
    v, first := 0, phy.vfifoSize;
    var failures := 0;
    NextSlot(v0, 0, phy.vfifoSize);
    while v < phy.vfifoSize
      invariant phy.Valid() && phy.InStep(v) && phy.Grows()
      invariant phy.phase == old(phy.phase) && phy.delay == old(phy.delay) && phy.vfifo == Slot(v0, v, phy.vfifoSize)
      invariant v <= phy.vfifoSize && failures < 2
      invariant OthersWork(phy.worked, phy.phase, phy.delay, v0, phy.vfifoSize, v, first)
      invariant if failures == 0 then first == phy.vfifoSize
                else first < v && Setting(phy.phase, phy.delay, Slot(v0, first, phy.vfifoSize)) in phy.failed
    {
      var pass := phy.ReadTest(5);
      if !pass {
        failures := failures + 1;
        if failures == 2 {
          break;
        }
        first := v;
      }
      NextSlot(v0, v, phy.vfifoSize);
      v := phy.IncrVfifo(v);
    }
    found := v < phy.vfifoSize;
  }

  // ---- step 2: the first working phase ---------------------------------------------------------

  /** Every phase before `p` fails at this delay tap and VFIFO position. */
  ghost predicate RowFails(failed: set<Setting>, p: nat, d: nat, vfifo: nat) {
    forall q: nat :: 1 <= q < p ==> Setting(q, d, vfifo) in failed
  }

  /** At this delay tap every phase of the first `n` VFIFO positions fails. */
  ghost predicate RowsFail(failed: set<Setting>, d: nat, v0: nat, size: nat, phaseMax: nat, n: nat)
    requires size > 0
  {
    forall i: nat :: i < n ==> RowFails(failed, phaseMax + 1, d, Slot(v0, i, size))
  }

  /** Every setting before delay tap `d` fails. */
  ghost predicate TapsFail(failed: set<Setting>, v0: nat, size: nat, phaseMax: nat, d: nat)
    requires size > 0
  {
    forall e: nat :: e < d ==> RowsFail(failed, e, v0, size, phaseMax, size)
  }

  lemma TapsMore(failed: set<Setting>, failed': set<Setting>, v0: nat, size: nat, phaseMax: nat, d: nat)
    requires size > 0 && failed <= failed' && TapsFail(failed, v0, size, phaseMax, d)
    ensures TapsFail(failed', v0, size, phaseMax, d)
  {
    forall e: nat | e < d
      ensures RowsFail(failed', e, v0, size, phaseMax, size)
    {
      assert RowsFail(failed, e, v0, size, phaseMax, size);
    }
  }

  /** Delay tap `d`, VFIFO step `i` and phase `p`, in this order, are the first setting that works. */
  ghost predicate FirstWorks(failed: set<Setting>, worked: set<Worked>, v0: nat, size: nat, phaseMax: nat, d: nat,
                             i: nat, p: nat)
    requires size > 0
  {
    && TapsFail(failed, v0, size, phaseMax, d)
    && RowsFail(failed, d, v0, size, phaseMax, i)
    && RowFails(failed, p, d, Slot(v0, i, size))
    && Worked(Setting(p, d, Slot(v0, i, size)), 5) in worked
  }

  /** One VFIFO position: the first phase from 1 up that works. */
  method SweepPhases(phy: Phy, bgn: nat) returns (found: bool, p: nat, workBgn: nat)
    requires phy.Valid()
    modifies phy
    ensures phy.Valid() && phy.Grows() && phy.SamePointer() && phy.delay == old(phy.delay)
    ensures workBgn == bgn + OPA_TAP * p
    ensures RowFails(phy.failed, p, phy.delay, phy.vfifo)
    ensures if found then 1 <= p <= phy.phaseMax && phy.phase == p
            && Worked(Setting(p, phy.delay, phy.vfifo), 5) in phy.worked
            else p == phy.phaseMax + 1
  {
    found, p, workBgn := false, 0, bgn;
    while p <= phy.phaseMax
      invariant phy.Valid() && phy.Grows() && phy.SamePointer() && phy.delay == old(phy.delay)
      invariant p <= phy.phaseMax + 1 && workBgn == bgn + OPA_TAP * p
      invariant RowFails(phy.failed, p, phy.delay, phy.vfifo)
    {
      if p != 0 {
        phy.SetDqsEnPhase(p);
        var pass := phy.ReadTest(5);
        if pass {
          found := true;
          return;
        }
      }
      p, workBgn := p + 1, workBgn + OPA_TAP;
    }
  }

  /** All VFIFO positions at one delay tap. */
  method SweepVfifo(phy: Phy, v0: nat, bgn: nat) returns (found: bool, v: nat, i: nat, p: nat, workBgn: nat)
    requires phy.Valid() && phy.InStep(v0)
    modifies phy
    ensures phy.Valid() && phy.InStep(v) && phy.Grows() && phy.delay == old(phy.delay)
    ensures phy.vfifo == Slot(old(phy.vfifo), i, phy.vfifoSize) && phy.net == old(phy.net) + i && v == v0 + i
    ensures RowsFail(phy.failed, phy.delay, old(phy.vfifo), phy.vfifoSize, phy.phaseMax, i)
    ensures if !found then i == phy.vfifoSize
            else
              && i < phy.vfifoSize && 1 <= p <= phy.phaseMax && phy.phase == p
                 && workBgn == bgn + Position(i, p, phy.phaseMax)
              && RowFails(phy.failed, p, phy.delay, phy.vfifo)
              && Worked(Setting(p, phy.delay, phy.vfifo), 5) in phy.worked
  {
    ghost var start := phy.vfifo;
    found, v, i, p, workBgn := false, v0, 0, 0, bgn;
    NextSlot(start, 0, phy.vfifoSize);
    while i < phy.vfifoSize
      invariant phy.Valid() && phy.InStep(v) && phy.Grows() && phy.delay == old(phy.delay)
      invariant phy.vfifo == Slot(start, i, phy.vfifoSize) && phy.net == old(phy.net) + i && v == v0 + i
      invariant i <= phy.vfifoSize && workBgn == bgn + Position(i, 0, phy.phaseMax)
      invariant RowsFail(phy.failed, phy.delay, start, phy.vfifoSize, phy.phaseMax, i)
    {
      found, p, workBgn := SweepPhases(phy, workBgn);
      if found {
        return;
      }
      NextCycle(i, phy.phaseMax);
      NextSlot(start, i, phy.vfifoSize);
      v := phy.IncrVfifo(v);
      i := i + 1;
    }
  }

  /** On failure every setting was tried, and failed. */
  method FindWorkingPhase(phy: Phy, v0: nat, dtaps: nat)
    returns (found: bool, v: nat, i: nat, p: nat, d: nat, workBgn: nat, ghost home: int)
    requires phy.Valid() && phy.InStep(v0) && dtaps <= phy.delayMax
    modifies phy
    ensures phy.Valid() && phy.InStep(v) && phy.Grows()
    ensures if !found then TapsFail(phy.failed, old(phy.vfifo), phy.vfifoSize, phy.phaseMax, dtaps + 1)
            else
              && i < phy.vfifoSize && 1 <= p <= phy.phaseMax && d <= dtaps && phy.delay == d
              && phy.vfifo == Slot(old(phy.vfifo), i, phy.vfifoSize)
              && FirstWorks(phy.failed, phy.worked, old(phy.vfifo), phy.vfifoSize, phy.phaseMax, d, i, p)
              && phy.phase == p
              && phy.net == home + i && home % phy.vfifoSize == old(phy.vfifo)
              && workBgn == Position(i, p, phy.phaseMax) + DTAP * d
  {
    ghost var start := phy.vfifo;
    found, v, i, p, d, workBgn := false, v0, 0, 0, 0, 0;
    home := phy.net;
    var tmp := 0;
    while d <= dtaps
      invariant phy.Valid() && phy.InStep(v) && phy.Grows()
      invariant d <= dtaps + 1 && tmp == DTAP * d
      invariant phy.net == home && home % phy.vfifoSize == phy.vfifo == start
      invariant TapsFail(phy.failed, start, phy.vfifoSize, phy.phaseMax, d)
    {
      phy.SetDqsEnDelay(d);
      ghost var failed := phy.failed;
      found, v, i, p, workBgn := SweepVfifo(phy, v, tmp);
      TapsMore(failed, phy.failed, start, phy.vfifoSize, phy.phaseMax, d);
      if found {
        return;
      }
      AddMultiple(home, 1, phy.vfifoSize);
      home := phy.net;
      d, tmp := d + 1, tmp + DTAP;
    }
  }

  // ---- step 3a: back off one phase and look for an earlier begin ------------------------------

  /** The delay taps lo..hi-1 fail at this phase and VFIFO position. */
  ghost predicate DelaysFail(failed: set<Setting>, lo: nat, hi: nat, p: nat, vfifo: nat) {
    forall k: nat :: lo <= k < hi ==> Setting(p, k, vfifo) in failed
  }

  /** The delay taps lo..hi-1 work. */
  ghost predicate DelaysWork(worked: set<Worked>, tries: nat, lo: nat, hi: nat, p: nat, vfifo: nat) {
    forall k: nat :: lo <= k < hi ==> Worked(Setting(p, k, vfifo), tries) in worked
  }

  /** The first delay tap at which a phase works, or OPA_DTAPS when there is none below a whole phase tap. */
  ghost predicate EarlierTap(failed: set<Setting>, worked: set<Worked>, p: nat, vfifo: nat, earlier: nat) {
    && earlier <= OPA_DTAPS
    && DelaysFail(failed, 0, earlier, p, vfifo)
    && (earlier < OPA_DTAPS ==> Worked(Setting(p, earlier, vfifo), 5) in worked)
  }

  /** The begin of the window when the phase before the first working one works from tap `earlier` on. */
  function BeginAt(start: int, earlier: nat): int {
    if earlier < OPA_DTAPS then start - OPA_TAP + DTAP * earlier else start
  }

  /** What `workEnd` falls short of the position: one phase tap when the first working phase was 1. */
  function Skew(firstPhase: nat): nat {
    if firstPhase == 1 then OPA_TAP else 0
  }

  /** The next phase, at the next VFIFO position when this one has no more. */
  method NextPhase(phy: Phy, v0: nat, p0: nat, ghost home: int) returns (v: nat, p: nat)
    requires phy.Valid() && phy.InStep(v0) && p0 <= phy.phaseMax
    modifies phy
    ensures phy.Valid() && phy.InStep(v) && phy.Grows() && phy.delay == old(phy.delay)
    ensures p <= phy.phaseMax && phy.net >= old(phy.net)
    ensures Position(phy.net - home, p, phy.phaseMax) == Position(old(phy.net) - home, p0, phy.phaseMax) + OPA_TAP
  {
    v, p := v0, p0 + 1;
    if p > phy.phaseMax {
      NextCycle(phy.net - home, phy.phaseMax);
      p := 0;
      v := phy.IncrVfifo(v);
    }
  }

  /**
   Phase 0 is never programmed, so p0 >= 1 here, and backing off from phase 1 stays at phase 1. The
   phase is then stepped forward again; from phase 1 it ends up one phase further than it began.
   */
  method BackOffBegin(phy: Phy, v0: nat, p0: nat, workBgn0: nat, ghost home: int)
    returns (v: nat, p: nat, workBgn: nat, ghost earlier: nat)
    requires phy.Valid() && phy.InStep(v0) && 1 <= p0 <= phy.phaseMax
    requires workBgn0 == Position(phy.net - home, p0, phy.phaseMax) && workBgn0 >= OPA_TAP
    modifies phy
    ensures phy.Valid() && phy.InStep(v) && phy.Grows() && phy.delay == 0
    ensures p <= phy.phaseMax && phy.net >= old(phy.net)
    ensures Position(phy.net - home, p, phy.phaseMax) == workBgn0 + Skew(p0)
    ensures workBgn == BeginAt(workBgn0, earlier)
    ensures if p0 == 1 then earlier == OPA_DTAPS else EarlierTap(phy.failed, phy.worked, p0 - 1, old(phy.vfifo),
                                                                 earlier)
  {
    p, v, workBgn, earlier := p0 - 1, v0, workBgn0, OPA_DTAPS;
    var tmp := workBgn0 - OPA_TAP;
    if p == 0 {
      p, tmp := 1, workBgn0;
    }
    phy.SetDqsEnPhase(p);
    var d: nat := 0;
    while d <= phy.delayMax && tmp < workBgn0
      invariant phy.Valid() && phy.InStep(v) && phy.Grows() && phy.SamePointer() && phy.phase == p
      invariant d <= OPA_DTAPS
      invariant tmp == if p0 == 1 then workBgn0 else workBgn0 - OPA_TAP + DTAP * d
      invariant DelaysFail(phy.failed, 0, d, p, phy.vfifo)
    {
      phy.SetDqsEnDelay(d);
      var pass := phy.ReadTest(5);
      if pass {
        workBgn, earlier := tmp, d;
        break;
      }
      d, tmp := d + 1, tmp + DTAP;
    }
    v, p := NextPhase(phy, v, p, home);
    phy.SetDqsEnDelay(0);
  }

  // ---- step 4a: forward to the first failing phase ---------------------------------------------

  /** The phases lo..hi-1 but 0 work at one VFIFO position. */
  ghost predicate PhasesWork(worked: set<Worked>, lo: nat, hi: nat, vfifo: nat) {
    forall q: nat :: lo <= q < hi && q >= 1 ==> Worked(Setting(q, 0, vfifo), 5) in worked
  }

  /**
   The forward sweep: the VFIFO steps, pointer and phase it starts from, whether its first test fails,
   and the position and phase where it ends.
   */
  datatype Forward = Forward(turns: int, v0: nat, q0: nat, fuzzy: bool, n: nat, q: nat) {
    /** The first phase that has to work at the i-th position. */
    function From(i: nat): nat {
      if i > 0 then 0 else if fuzzy then q0 + 1 else q0
    }

    function To(i: nat, phaseMax: nat): nat {
      if i == n then q else phaseMax + 1
    }
  }

  /** The sweep meets working phases only, up to a failing one when it is found; a failing first test does not count. */
  ghost predicate Edge(failed: set<Setting>, worked: set<Worked>, size: nat, phaseMax: nat, f: Forward, found: bool)
    requires size > 0
  {
    && f.v0 < size && f.q0 <= phaseMax
    && (f.fuzzy ==> f.q0 >= 1 && Setting(f.q0, 0, f.v0) in failed)
    && (forall i: nat :: i <= f.n ==> PhasesWork(worked, f.From(i), f.To(i, phaseMax), Slot(f.v0, i, size)))
    && (found ==> 1 <= f.q <= phaseMax && Setting(f.q, 0, Slot(f.v0, f.n, size)) in failed && (f.n == 0 ==> f.q > f.q0))
  }

  /** One more row of the forward sweep, from phase q0 in the first position and from 0 in later ones. */
  lemma EdgeRow(failed: set<Setting>, worked: set<Worked>, failed': set<Setting>, worked': set<Worked>,
                size: nat, phaseMax: nat, f: Forward, f': Forward, found: bool)
    requires size > 0 && failed <= failed' && worked <= worked'
    requires f' == f.(fuzzy := f'.fuzzy, q := f'.q) && f.q == (if f.n == 0 then f.q0 else 0)
    requires Edge(failed, worked, size, phaseMax, f, false)
    requires f.fuzzy ==> f'.fuzzy && f.n > 0
    requires f'.fuzzy && !f.fuzzy ==> f.n == 0 && f.q0 >= 1 && Setting(f.q0, 0, f.v0) in failed'
    requires PhasesWork(worked', f'.From(f.n), f'.q, Slot(f.v0, f.n, size))
    requires found ==>
               && 1 <= f'.q <= phaseMax && Setting(f'.q, 0, Slot(f.v0, f.n, size)) in failed'
               && (f.n == 0 ==> f'.q > f.q0)
    ensures Edge(failed', worked', size, phaseMax, f', found)
  {
    forall i: nat | i <= f.n
      ensures PhasesWork(worked', f'.From(i), f'.To(i, phaseMax), Slot(f.v0, i, size))
    {
      if i < f.n {
        assert PhasesWork(worked, f.From(i), f.To(i, phaseMax), Slot(f.v0, i, size));
      }
    }
  }

  lemma EdgeNextRow(failed: set<Setting>, worked: set<Worked>, size: nat, phaseMax: nat, f: Forward)
    requires size > 0 && f.q == phaseMax + 1 && Edge(failed, worked, size, phaseMax, f, false)
    ensures Edge(failed, worked, size, phaseMax, f.(n := f.n + 1, q := 0), false)
  {
    var f' := f.(n := f.n + 1, q := 0);
    forall i: nat | i <= f'.n
      ensures PhasesWork(worked, f'.From(i), f'.To(i, phaseMax), Slot(f.v0, i, size))
    {
      if i <= f.n {
        assert PhasesWork(worked, f.From(i), f.To(i, phaseMax), Slot(f.v0, i, size));
      }
    }
  }

  /** The begin of the window, seen before test j + 1 at phase p; a fuzzy first test has moved it. */
  ghost predicate BeginKnown(start: int, j: nat, p: nat, fuzzy: bool, workBgn: int) {
    if fuzzy then workBgn == start + OPA_TAP && j >= 1 && (j == 1 ==> p != 1) else workBgn <= start
  }

  /** The rest of one VFIFO position. Only the very first test may fail without ending the sweep. */
  method SweepToEdge(phy: Phy, p0: nat, j0: nat, workBgn0: nat, workEnd0: nat, ghost start: nat, ghost fuzzy0: bool)
    returns (found: bool, p: nat, j: nat, workBgn: nat, workEnd: nat, ghost fuzzy: bool)
    requires phy.Valid() && p0 <= phy.phaseMax && phy.delay == 0 && (fuzzy0 ==> j0 > 0)
    requires workEnd0 == start + OPA_TAP * (j0 + 1) && BeginKnown(start, j0, p0, fuzzy0, workBgn0)
    modifies phy
    ensures phy.Valid() && phy.Grows() && phy.SamePointer() && phy.delay == 0
    ensures OPA_TAP * p - workEnd == OPA_TAP * p0 - workEnd0
    ensures fuzzy == (fuzzy0 || (j0 == 0 && p0 >= 1 && fuzzy))
    ensures workBgn == if fuzzy && !fuzzy0 then start + OPA_TAP else workBgn0
    ensures fuzzy && !fuzzy0 ==> Setting(p0, 0, phy.vfifo) in phy.failed
    ensures PhasesWork(phy.worked, if fuzzy && !fuzzy0 then p0 + 1 else p0, p, phy.vfifo)
    ensures found ==>
              && 1 <= p <= phy.phaseMax && phy.phase == p && (j0 == 0 ==> p > p0)
                 && Setting(p, 0, phy.vfifo) in phy.failed
              && workEnd >= workBgn + (if p == 1 then 2 * OPA_TAP else OPA_TAP) && workEnd >= start + 2 * OPA_TAP
    ensures !found ==>
              && p == phy.phaseMax + 1 && j == j0 + (phy.phaseMax + 1 - p0)
              && workEnd == start + OPA_TAP * (j + 1) && BeginKnown(start, j, 0, fuzzy, workBgn)
  {
    found, p, j, workBgn, workEnd, fuzzy := false, p0, j0, workBgn0, workEnd0, fuzzy0;
    while p <= phy.phaseMax
      invariant phy.Valid() && phy.Grows() && phy.SamePointer() && phy.delay == 0
      invariant p0 <= p <= phy.phaseMax + 1 && j == j0 + (p - p0)
      invariant workEnd == start + OPA_TAP * (j + 1) && BeginKnown(start, j, p, fuzzy, workBgn)
      invariant workBgn == if fuzzy && !fuzzy0 then start + OPA_TAP else workBgn0
      invariant fuzzy0 ==> fuzzy
      invariant fuzzy && !fuzzy0 ==> j0 == 0 && 1 <= p0 < p && Setting(p0, 0, phy.vfifo) in phy.failed
      invariant PhasesWork(phy.worked, if fuzzy && !fuzzy0 then p0 + 1 else p0, p, phy.vfifo)
    {
      j := j + 1;
      if p != 0 {
        phy.SetDqsEnPhase(p);
        var pass := phy.ReadTest(5);
        if !pass && j == 1 {
          workBgn, fuzzy := workEnd, true;
        } else if !pass {
          found := true;
          return;
        }
      }
      p, workEnd := p + 1, workEnd + OPA_TAP;
    }
  }

  /** The forward sweep stands where `f` says, `f.turns + f.n` VFIFO steps from `home`. */
  ghost predicate AtRow(phy: Phy, f: Forward, home: int)
    requires phy.Valid()
    reads phy
  {
    && phy.delay == 0 && phy.net - home == f.turns + f.n
    && phy.vfifo == Slot(f.v0, f.n, phy.vfifoSize)
    && Edge(phy.failed, phy.worked, phy.vfifoSize, phy.phaseMax, f, false)
  }

  /** One row of the forward sweep. */
  method SweepRow(phy: Phy, p0: nat, j0: nat, workBgn0: nat, workEnd0: nat, ghost start: nat, ghost f0: Forward,
                  ghost home: int)
    returns (found: bool, p: nat, j: nat, workBgn: nat, workEnd: nat, ghost f: Forward)
    requires phy.Valid() && AtRow(phy, f0, home) && p0 <= phy.phaseMax && (j0 == 0 <==> f0.n == 0)
    requires p0 == f0.q == (if f0.n == 0 then f0.q0 else 0) && (f0.fuzzy ==> f0.n > 0)
    requires workEnd0 == start + OPA_TAP * (j0 + 1) && BeginKnown(start, j0, p0, f0.fuzzy, workBgn0)
    modifies phy
    ensures phy.Valid() && phy.Grows() && phy.SamePointer() && AtRow(phy, f, home)
    ensures f == f0.(fuzzy := f.fuzzy, q := p) && (f0.fuzzy ==> f.fuzzy)
    ensures OPA_TAP * p - workEnd == OPA_TAP * p0 - workEnd0
    ensures workBgn == if f.fuzzy && !f0.fuzzy then start + OPA_TAP else workBgn0
    ensures found ==>
              && Edge(phy.failed, phy.worked, phy.vfifoSize, phy.phaseMax, f, true) && phy.phase == p
              && workEnd >= workBgn + (if p == 1 then 2 * OPA_TAP else OPA_TAP) && workEnd >= start + 2 * OPA_TAP
    ensures !found ==>
              && p == phy.phaseMax + 1 && j > 0
              && workEnd == start + OPA_TAP * (j + 1) && BeginKnown(start, j, 0, f.fuzzy, workBgn)
  {
    ghost var failed, worked, fuzzy := phy.failed, phy.worked, f0.fuzzy;
    NextSlot(f0.v0, 0, phy.vfifoSize);
    found, p, j, workBgn, workEnd, fuzzy := SweepToEdge(phy, p0, j0, workBgn0, workEnd0, start, fuzzy);
    f := f0.(fuzzy := fuzzy, q := p);
    EdgeRow(failed, worked, phy.failed, phy.worked, phy.vfifoSize, phy.phaseMax, f0, f, found);
  }

  /** On to the next VFIFO position. */
  method NextRow(phy: Phy, v0: nat, ghost f0: Forward, ghost home: int) returns (v: nat, p: nat, ghost f: Forward)
    requires phy.Valid() && phy.InStep(v0) && AtRow(phy, f0, home) && f0.q == phy.phaseMax + 1
    modifies phy
    ensures phy.Valid() && phy.InStep(v) && phy.Grows() && AtRow(phy, f, home)
    ensures p == 0 && f == f0.(n := f0.n + 1, q := 0)
    ensures Position(phy.net - home, 0, phy.phaseMax) == Position(old(phy.net) - home, phy.phaseMax + 1, phy.phaseMax)
  {
    NextCycle(phy.net - home, phy.phaseMax);
    NextSlot(f0.v0, f0.n, phy.vfifoSize);
    EdgeNextRow(phy.failed, phy.worked, phy.vfifoSize, phy.phaseMax, f0);
    v := phy.IncrVfifo(v0);
    p, f := 0, f0.(n := f0.n + 1, q := 0);
  }

  /** One round of the forward sweep: a row, and on to the next position unless its end was met. */
  method ForwardRound(phy: Phy, v0: nat, p0: nat, j0: nat, workBgn0: nat, workEnd0: nat, ghost start: nat,
                      ghost f0: Forward, ghost home: int, ghost skew: int)
    returns (found: bool, v: nat, p: nat, j: nat, workBgn: nat, workEnd: nat, ghost f: Forward)
    requires phy.Valid() && phy.InStep(v0) && AtRow(phy, f0, home) && p0 <= phy.phaseMax && (j0 == 0 <==> f0.n == 0)
    requires p0 == f0.q == (if f0.n == 0 then f0.q0 else 0) && (f0.fuzzy ==> f0.n > 0)
    requires Position(phy.net - home, p0, phy.phaseMax) == workEnd0 + skew
    requires workEnd0 == start + OPA_TAP * (j0 + 1) && BeginKnown(start, j0, p0, f0.fuzzy, workBgn0)
    modifies phy
    ensures phy.Valid() && phy.InStep(v) && phy.Grows() && AtRow(phy, f, home)
    ensures Position(phy.net - home, p, phy.phaseMax) == workEnd + skew
    ensures workBgn == if f.fuzzy && !f0.fuzzy then start + OPA_TAP else workBgn0
    ensures f0.fuzzy ==> f.fuzzy
    ensures found ==>
              && f == f0.(fuzzy := f.fuzzy, q := p) && phy.phase == p
              && Edge(phy.failed, phy.worked, phy.vfifoSize, phy.phaseMax, f, true)
              && workEnd >= workBgn + (if p == 1 then 2 * OPA_TAP else OPA_TAP) && workEnd >= start + 2 * OPA_TAP
    ensures !found ==>
              && f == f0.(fuzzy := f.fuzzy, n := f0.n + 1, q := 0) && p == 0 && j > 0
              && workEnd == start + OPA_TAP * (j + 1) && BeginKnown(start, j, 0, f.fuzzy, workBgn)
  {
    v := v0;
    found, p, j, workBgn, workEnd, f := SweepRow(phy, p0, j0, workBgn0, workEnd0, start, f0, home);
    if !found {
      v, p, f := NextRow(phy, v, f, home);
    }
  }

  /** Fails when more than a whole turn of the VFIFO works. */
  method FindFailingPhase(phy: Phy, v0: nat, i0: nat, p0: nat, workBgn0: nat, start: nat, ghost home: int,
                          ghost skew: int)
    returns (found: bool, v: nat, p: nat, workBgn: nat, workEnd: nat, ghost f: Forward)
    requires phy.Valid() && phy.InStep(v0) && i0 < phy.vfifoSize && p0 <= phy.phaseMax && phy.delay == 0
    requires workBgn0 <= start && Position(phy.net - home, p0, phy.phaseMax) == start + skew
    modifies phy
    ensures phy.Valid() && phy.InStep(v) && phy.Grows() && AtRow(phy, f, home)
    ensures Edge(phy.failed, phy.worked, phy.vfifoSize, phy.phaseMax, f, found)
    ensures f.turns >= old(phy.net) - home && Position(f.turns, f.q0, phy.phaseMax) == start + skew + OPA_TAP
    ensures f.v0 == (home + f.turns) % phy.vfifoSize
    ensures !found ==> f.n == phy.vfifoSize + 1 - i0 && f.q == 0
    ensures found ==>
              && p == f.q && phy.phase == p && Position(phy.net - home, p, phy.phaseMax) == workEnd + skew
              && workBgn == (if f.fuzzy then start + OPA_TAP else workBgn0)
              && workEnd >= workBgn + (if p == 1 then 2 * OPA_TAP else OPA_TAP) && workEnd >= start + 2 * OPA_TAP
  {
    workBgn, workEnd := workBgn0, start + OPA_TAP;
    v, p := NextPhase(phy, v0, p0, home);
    var i, j := i0, 0;
    found := false;
    f := Forward(phy.net - home, phy.vfifo, p, false, 0, p);
    NextSlot(phy.vfifo, 0, phy.vfifoSize);
    ghost var base := f;
    while i < phy.vfifoSize + 1
      invariant phy.Valid() && phy.InStep(v) && phy.Grows() && AtRow(phy, f, home)
      invariant i0 <= i <= phy.vfifoSize + 1 && (j == 0 <==> f.n == 0) && p <= phy.phaseMax
      invariant f == base.(fuzzy := f.fuzzy, n := i - i0, q := p) && p == (if f.n == 0 then f.q0 else 0)
      invariant f.fuzzy ==> f.n > 0
      invariant Position(phy.net - home, p, phy.phaseMax) == workEnd + skew
      invariant workEnd == start + OPA_TAP * (j + 1) && BeginKnown(start, j, p, f.fuzzy, workBgn)
      invariant workBgn == if f.fuzzy then start + OPA_TAP else workBgn0
    {
      found, v, p, j, workBgn, workEnd, f := ForwardRound(phy, v, p, j, workBgn, workEnd, start, f, home, skew);
      if found {
        return;
      }
      i := i + 1;
    }
  }

  // ---- step 5a: back off one phase -------------------------------------------------------------

  /** The VFIFO pointer and phase one working phase before phase `p` at `vfifo`. */
  ghost predicate BackedUp(vfifo: nat, p: nat, vfifo': nat, p': nat, size: nat, phaseMax: nat)
    requires size > 0
  {
    if p == 1 then p' == phaseMax && (vfifo' + 1) % size == vfifo else p' == p - 1 && vfifo' == vfifo
  }

  method BackOffEnd(phy: Phy, v0: nat, p0: nat, workEnd0: nat, ghost home: int, ghost skew: int)
    returns (v: nat, p: nat, workEnd: nat)
    requires phy.Valid() && phy.InStep(v0) && 1 <= p0 <= phy.phaseMax
    requires workEnd0 >= 2 * OPA_TAP && Position(phy.net - home, p0, phy.phaseMax) == workEnd0 + skew
    modifies phy
    ensures phy.Valid() && phy.InStep(v) && phy.Grows() && phy.delay == old(phy.delay)
    ensures 1 <= p <= phy.phaseMax && phy.phase == p
    ensures BackedUp(old(phy.vfifo), p0, phy.vfifo, p, phy.vfifoSize, phy.phaseMax)
    ensures workEnd == workEnd0 - (if p0 == 1 then 2 * OPA_TAP else OPA_TAP)
    ensures phy.net == old(phy.net) - if p0 == 1 then 1 else 0
    ensures Position(phy.net - home, p, phy.phaseMax) == workEnd + skew
  {
    v, p, workEnd := v0, p0, workEnd0;
    if p == 1 {
      p, workEnd := 0, workEnd - OPA_TAP;
    }
    if p == 0 {
      NextCycle(phy.net - home - 1, phy.phaseMax);
      p := phy.phaseMax;
      v := phy.DecrVfifo(v);
    } else {
      p := p - 1;
    }
    workEnd := workEnd - OPA_TAP;
    phy.SetDqsEnPhase(p);
  }

  // ---- the delay taps of the failing edge ------------------------------------------------------

  /** Delay tap `d` is the first from `lo` on that fails, or past the last one when none does. */
  ghost predicate FirstFailing(failed: set<Setting>, worked: set<Worked>, lo: nat, d: nat, delayMax: nat, p: nat,
                               vfifo: nat) {
    && lo <= d <= delayMax + 1
    && DelaysWork(worked, 5, lo, d, p, vfifo)
    && (d <= delayMax ==> Setting(p, d, vfifo) in failed)
  }

  method FindFailingDelay(phy: Phy, d0: nat, workEnd0: nat) returns (d: nat, workEnd: nat)
    requires phy.Valid() && d0 <= phy.delayMax && (d0 > 0 ==> workEnd0 >= DTAP)
    modifies phy
    ensures phy.Valid() && phy.Grows() && phy.SamePointer() && phy.phase == old(phy.phase)
    ensures FirstFailing(phy.failed, phy.worked, d0, d, phy.delayMax, phy.phase, phy.vfifo)
    ensures workEnd == workEnd0 + DTAP * (d - d0) - if d == 0 then 0 else DTAP
  {
    d, workEnd := d0, workEnd0;
    while d <= phy.delayMax
      invariant phy.Valid() && phy.Grows() && phy.SamePointer() && phy.phase == old(phy.phase)
      invariant d0 <= d <= phy.delayMax + 1 && workEnd == workEnd0 + DTAP * (d - d0)
      invariant DelaysWork(phy.worked, 5, d0, d, phy.phase, phy.vfifo)
    {
      phy.SetDqsEnDelay(d);
      var pass := phy.ReadTest(5);
      if !pass {
        break;
      }
      d, workEnd := d + 1, workEnd + DTAP;
    }
    if d != 0 {
      workEnd := workEnd - DTAP;
    }
  }

  // ---- delay taps per phase tap, for tracking --------------------------------------------------

  /** The delay taps from `d0` on: those before `on` fail, then those before `off` work, and `off` fails. */
  ghost predicate OnOff(failed: set<Setting>, worked: set<Worked>, d0: nat, on: nat, off: nat, delayMax: nat,
                        p: nat, vfifo: nat) {
    && d0 <= on <= off <= delayMax + 1
    && DelaysFail(failed, d0, on, p, vfifo)
    && DelaysWork(worked, 1, on, off, p, vfifo)
    && (on <= delayMax ==> on < off)
    && (off <= delayMax ==> Setting(p, off, vfifo) in failed)
  }

  /** Raise the delay to the first tap that works. */
  method RaiseToPassing(phy: Phy, d0: nat) returns (passing: bool, d: nat)
    requires phy.Valid() && d0 <= phy.delayMax + 1
    modifies phy
    ensures phy.Valid() && phy.Grows() && phy.SamePointer() && phy.phase == old(phy.phase)
    ensures d0 <= d <= phy.delayMax + 1 && DelaysFail(phy.failed, d0, d, phy.phase, phy.vfifo)
    ensures passing <==> d <= phy.delayMax
    ensures passing ==> Worked(Setting(phy.phase, d, phy.vfifo), 1) in phy.worked
  {
    d, passing := d0, false;
    while d <= phy.delayMax
      invariant phy.Valid() && phy.Grows() && phy.SamePointer() && phy.phase == old(phy.phase)
      invariant d0 <= d <= phy.delayMax + 1 && !passing && DelaysFail(phy.failed, d0, d, phy.phase, phy.vfifo)
    {
      phy.SetDqsEnDelay(d);
      passing := phy.ReadTest(1);
      if passing {
        break;
      }
      d := d + 1;
    }
  }

  /** Raise the delay from a tap that works to the next one that does not. */
  method RaiseToFailing(phy: Phy, on: nat) returns (failing: bool, d: nat)
    requires phy.Valid() && on <= phy.delayMax && Worked(Setting(phy.phase, on, phy.vfifo), 1) in phy.worked
    modifies phy
    ensures phy.Valid() && phy.Grows() && phy.SamePointer() && phy.phase == old(phy.phase)
    ensures on < d <= phy.delayMax + 1 && DelaysWork(phy.worked, 1, on, d, phy.phase, phy.vfifo)
    ensures failing <==> d <= phy.delayMax
    ensures failing ==> Setting(phy.phase, d, phy.vfifo) in phy.failed
  {
    d, failing := on + 1, false;
    while d <= phy.delayMax
      invariant phy.Valid() && phy.Grows() && phy.SamePointer() && phy.phase == old(phy.phase)
      invariant on < d <= phy.delayMax + 1 && !failing && DelaysWork(phy.worked, 1, on, d, phy.phase, phy.vfifo)
    {
      phy.SetDqsEnDelay(d);
      var pass := phy.ReadTest(1);
      if !pass {
        failing := true;
        break;
      }
      d := d + 1;
    }
  }

  /** Back up a phase and measure how many delay taps it takes to see the edge again. */
  method TrackDtaps(phy: Phy, v0: nat, p0: nat, d0: nat, fallback: nat)
    returns (v: nat, dtaps: nat, ghost on: nat, ghost off: nat)
    requires phy.Valid() && phy.InStep(v0) && 1 <= p0 <= phy.phaseMax && d0 <= phy.delayMax + 1
    requires fallback <= phy.delayMax
    modifies phy
    ensures phy.Valid() && phy.InStep(v) && phy.Grows()
    ensures BackedUp(old(phy.vfifo), p0, phy.vfifo, phy.phase, phy.vfifoSize, phy.phaseMax)
    ensures OnOff(phy.failed, phy.worked, d0, on, off, phy.delayMax, phy.phase, phy.vfifo)
    ensures dtaps == (if off <= phy.delayMax then off - d0 else fallback) && dtaps <= phy.delayMax
  {
    var p;
    v := v0;
    if p0 == 1 {
      p := phy.phaseMax;
      v := phy.DecrVfifo(v);
    } else {
      p := p0 - 1;
    }
    phy.SetDqsEnPhase(p);
    var passing, d := RaiseToPassing(phy, d0);
    on := d;
    var failing := false;
    if passing {
      failing, d := RaiseToFailing(phy, d);
    }
    off := d;
    dtaps := if passing && failing then d - d0 else fallback;
  }

  /** Where the edge was measured for tracking, and between which delay taps the read worked there. */
  datatype Track = Track(phase: nat, vfifo: nat, on: nat, off: nat)

  /** The taps per phase tap are those from the end of the window to the next failing tap, or the static value. */
  ghost predicate Tracked(failed: set<Setting>, worked: set<Worked>, w: Window, size: nat, phaseMax: nat, delayMax: nat,
                          k: Track, dtaps: nat, fallback: nat)
    requires size > 0
  {
    && BackedUp(w.vfifo, w.phase, k.vfifo, k.phase, size, phaseMax)
    && OnOff(failed, worked, w.delay, k.on, k.off, delayMax, k.phase, k.vfifo)
    && dtaps == if k.off <= delayMax then k.off - w.delay else fallback
  }

  lemma TrackedMore(failed: set<Setting>, worked: set<Worked>, failed': set<Setting>, worked': set<Worked>,
                    w: Window, size: nat, phaseMax: nat, delayMax: nat, k: Track, dtaps: nat, fallback: nat)
    requires size > 0 && failed <= failed' && worked <= worked'
    requires Tracked(failed, worked, w, size, phaseMax, delayMax, k, dtaps, fallback)
    ensures Tracked(failed', worked', w, size, phaseMax, delayMax, k, dtaps, fallback)
  {
  }

  // ---- step 6: the centre ----------------------------------------------------------------------

  /** The middle of the window, less whole VFIFO steps. */
  ghost predicate ReducedMid(workBgn: nat, workEnd: nat, phaseMax: nat, mid: nat) {
    0 < mid <= CycleDelay(phaseMax) && ((workBgn + workEnd) / 2 - mid) % CycleDelay(phaseMax) == 0
  }

  /** The settings for a reduced middle: at most one delay tap late, or phase 1 when phase 0 would be needed. */
  ghost predicate Centre(mid: nat, phase: nat, delay: nat) {
    if mid <= OPA_TAP then
      phase == 1 && delay == 0
    else
      phase >= 1 && 0 <= OPA_TAP * phase + DTAP * delay - mid < DTAP && delay > 0
  }

  method ReduceMid(workBgn: nat, workEnd: nat, phaseMax: nat) returns (mid: nat)
    requires 1 <= workBgn <= workEnd
    ensures ReducedMid(workBgn, workEnd, phaseMax, mid)
  {
    mid := (workBgn + workEnd) / 2;
    var cycle := 0;
    var p := 0;
    while p <= phaseMax
      invariant p <= phaseMax + 1 && cycle == OPA_TAP * p
    {
      p, cycle := p + 1, cycle + OPA_TAP;
    }
    while mid > cycle
      invariant mid > 0 && ((workBgn + workEnd) / 2 - mid) % cycle == 0
    {
      AddMultiple((workBgn + workEnd) / 2 - mid, 1, cycle);
      mid := mid - cycle;
    }
  }

  method SettleCentre(phy: Phy, mid: nat)
    requires phy.Valid() && 0 < mid <= CycleDelay(phy.phaseMax)
    modifies phy
    ensures phy.Valid() && phy.Grows() && phy.SamePointer()
    ensures Centre(mid, phy.phase, phy.delay) && phy.phase <= phy.phaseMax && phy.delay <= OPA_DTAPS
  {
    var p: nat, tmp: nat := 0, 0;
    while p <= phy.phaseMax && tmp < mid
      invariant p <= phy.phaseMax + 1 && tmp == OPA_TAP * p && (p > 0 ==> tmp - OPA_TAP < mid)
    {
      p, tmp := p + 1, tmp + OPA_TAP;
    }
    tmp := tmp - OPA_TAP;
    var d := 0;
    while d <= phy.delayMax && tmp < mid
      invariant d <= OPA_DTAPS && tmp == OPA_TAP * (p - 1) + DTAP * d && (d > 0 ==> tmp - DTAP < mid)
    {
      d, tmp := d + 1, tmp + DTAP;
    }
    if p == 1 {
      p, d := 2, 0;
    }
    phy.SetDqsEnPhase(p - 1);
    phy.SetDqsEnDelay(d);
  }

  /** The first `n` VFIFO positions fail at these taps. */
  ghost predicate SlotsFail(failed: set<Setting>, p: nat, d: nat, v0: nat, size: nat, n: nat)
    requires size > 0
  {
    forall i: nat :: i < n ==> Setting(p, d, Slot(v0, i, size)) in failed
  }

  /** The first VFIFO position that reads, or all of them fail. */
  method PushToPassingRead(phy: Phy, v0: nat) returns (found: bool, v: nat, n: nat)
    requires phy.Valid() && phy.InStep(v0)
    modifies phy
    ensures phy.Valid() && phy.InStep(v) && phy.Grows()
    ensures phy.phase == old(phy.phase) && phy.delay == old(phy.delay)
    ensures v == v0 + n && phy.vfifo == Slot(old(phy.vfifo), n, phy.vfifoSize)
    ensures SlotsFail(phy.failed, phy.phase, phy.delay, old(phy.vfifo), phy.vfifoSize, n)
    ensures if found then n < phy.vfifoSize && |phy.log| > 0 && phy.log[|phy.log| - 1] == Test(phy.Here(), true)
            else n == phy.vfifoSize
  {
    ghost var start := phy.vfifo;
    v, found, n := v0, false, 0;
    NextSlot(start, 0, phy.vfifoSize);
    while n < phy.vfifoSize
      invariant phy.Valid() && phy.InStep(v) && phy.Grows()
      invariant phy.phase == old(phy.phase) && phy.delay == old(phy.delay) && phy.vfifo == Slot(start, n, phy.vfifoSize)
      invariant n <= phy.vfifoSize && v == v0 + n && !found
      invariant SlotsFail(phy.failed, phy.phase, phy.delay, start, phy.vfifoSize, n)
    {
      found := phy.ReadTest(1);
      if found {
        return;
      }
      NextSlot(start, n, phy.vfifoSize);
      v := phy.IncrVfifo(v);
      n := n + 1;
    }
  }

  // ---- the search ------------------------------------------------------------------------------

  /** How a search ends. */
  datatype Verdict = Found | NeverFails | NothingWorks | NeverEnds | EmptyWindow | NoCentre

  /** The recorded window: its begin and end, and where its end was seen. */
  datatype Window = Window(bgn: nat, end: nat, phase: nat, delay: nat, vfifo: nat)

  /**
   What the search meets on its way: the first working delay tap, VFIFO step and phase; when no delay
   taps are needed, the delay tap at which the phase before already works, and the forward sweep.
   */
  datatype Path = Path(d: nat, i: nat, p: nat, earlier: nat, forward: Forward) {

    function Start(phaseMax: nat): int {
      Position(i, p, phaseMax) + DTAP * d
    }

    /** The last working phase, from which the failing edge is approached with delay taps. */
    function LastPhase(phaseMax: nat): int {
      if d > 0 then p else if forward.q == 1 then phaseMax else forward.q - 1
    }

    /** Its VFIFO step. */
    function LastTurn(): int {
      if d > 0 then i else forward.turns + forward.n - if forward.q == 1 then 1 else 0
    }

    /** What the recorded end falls short of the position where it was seen. */
    function EndSkew(): nat {
      if d == 0 then Skew(p) else 0
    }

    /** The begin of the window: the first working setting, unless an earlier tap works or the next phase fails. */
    function Begin(phaseMax: nat): int {
      if d > 0 then Start(phaseMax)
      else if forward.fuzzy then Start(phaseMax) + OPA_TAP
      else BeginAt(Start(phaseMax), earlier)
    }
  }

  /** The part of the path that is walked in phase taps, when no delay taps are needed. */
  ghost predicate Stepped(failed: set<Setting>, worked: set<Worked>, v0: nat, size: nat, phaseMax: nat, path: Path,
                          ended: bool)
    requires size > 0
  {
    && (if path.p == 1 then path.earlier == OPA_DTAPS
        else path.p > 1 && EarlierTap(failed, worked, path.p - 1, Slot(v0, path.i, size), path.earlier))
    && Position(path.forward.turns, path.forward.q0, phaseMax) == path.Start(phaseMax) + path.EndSkew() + OPA_TAP
    && path.forward.turns >= path.i && path.forward.v0 == Slot(v0, path.forward.turns, size)
    && Edge(failed, worked, size, phaseMax, path.forward, ended)
  }

  /** The path starts at the first setting that works, and the sweeps from it met what it says. */
  ghost predicate Walked(failed: set<Setting>, worked: set<Worked>, v0: nat, size: nat, phaseMax: nat, path: Path,
                         ended: bool)
    requires size > 0
  {
    && path.i < size && 1 <= path.p <= phaseMax
    && FirstWorks(failed, worked, v0, size, phaseMax, path.d, path.i, path.p)
    && (path.d == 0 ==> Stepped(failed, worked, v0, size, phaseMax, path, ended))
  }

  /** The position of the last delay tap that works before the failing one. */
  function LastWorking(w: Window, path: Path, phaseMax: nat): int {
    Position(path.LastTurn(), w.phase, phaseMax) + DTAP * (if w.delay == 0 then 0 else w.delay - 1)
  }

  /**
   The window is what the path says, and its end is where the delay taps begin to fail. As a position the end
   comes out one phase tap short when the first working phase was 1 at delay 0.
   */
  ghost predicate Measured(failed: set<Setting>, worked: set<Worked>, v0: nat, size: nat, phaseMax: nat, delayMax: nat,
                           path: Path, w: Window)
    requires size > 0
  {
    && Walked(failed, worked, v0, size, phaseMax, path, true)
    && w.phase == path.LastPhase(phaseMax) && w.vfifo == (v0 + path.LastTurn()) % size
    && FirstFailing(failed, worked, path.d, w.delay, delayMax, w.phase, w.vfifo)
    && w.bgn == path.Begin(phaseMax)
    && w.end + path.EndSkew() == LastWorking(w, path, phaseMax)
  }

  /** What was met stays met. */
  lemma MeasuredMore(failed: set<Setting>, worked: set<Worked>, failed': set<Setting>, worked': set<Worked>,
                     v0: nat, size: nat, phaseMax: nat, delayMax: nat, path: Path, w: Window)
    requires size > 0 && failed <= failed' && worked <= worked'
    requires Measured(failed, worked, v0, size, phaseMax, delayMax, path, w)
    ensures Measured(failed', worked', v0, size, phaseMax, delayMax, path, w)
  {
    WalkedMore(failed, worked, failed', worked', v0, size, phaseMax, path, true);
  }

  lemma WalkedMore(failed: set<Setting>, worked: set<Worked>, failed': set<Setting>, worked': set<Worked>,
                   v0: nat, size: nat, phaseMax: nat, path: Path, ended: bool)
    requires size > 0 && failed <= failed' && worked <= worked'
    requires Walked(failed, worked, v0, size, phaseMax, path, ended)
    ensures Walked(failed', worked', v0, size, phaseMax, path, ended)
  {
    TapsMore(failed, failed', v0, size, phaseMax, path.d);
    if path.d == 0 {
      EdgeMore(failed, worked, failed', worked', size, phaseMax, path.forward, ended);
    }
  }

  lemma EdgeMore(failed: set<Setting>, worked: set<Worked>, failed': set<Setting>, worked': set<Worked>,
                 size: nat, phaseMax: nat, f: Forward, ended: bool)
    requires size > 0 && failed <= failed' && worked <= worked' && Edge(failed, worked, size, phaseMax, f, ended)
    ensures Edge(failed', worked', size, phaseMax, f, ended)
  {
  }

  /** The recorded end is the true position if and only if the first working phase was not 1 without delay taps. */
  lemma EndExactIff(w: Window, path: Path, phaseMax: nat)
    requires w.end + path.EndSkew() == LastWorking(w, path, phaseMax)
    ensures w.end == LastWorking(w, path, phaseMax) <==> path.d > 0 || path.p != 1
  {
  }

  /** From the first working phase to the last one, in phase taps: steps 3a to 5a. */
  method WalkPhases(phy: Phy, v0: nat, i: nat, p0: nat, start: nat, ghost home: int, ghost slot: nat)
    returns (found: bool, v: nat, p: nat, workBgn: nat, workEnd: nat, ghost path: Path)
    requires phy.Valid() && phy.InStep(v0) && i < phy.vfifoSize && 1 <= p0 <= phy.phaseMax
    requires start == Position(i, p0, phy.phaseMax) && start >= OPA_TAP && phy.net == home + i
    requires slot == home % phy.vfifoSize && phy.vfifo == Slot(slot, i, phy.vfifoSize)
    modifies phy
    ensures phy.Valid() && phy.InStep(v) && phy.Grows()
    ensures path == Path(0, i, p0, path.earlier, path.forward)
    ensures Stepped(phy.failed, phy.worked, slot, phy.vfifoSize, phy.phaseMax, path, found)
    ensures !found ==> path.forward.n == phy.vfifoSize + 1 - i && path.forward.q == 0
    ensures found ==>
              && 1 <= p <= phy.phaseMax && phy.phase == p && workBgn == path.Begin(phy.phaseMax)
              && p == path.LastPhase(phy.phaseMax) && phy.net - home == path.LastTurn()
              && Position(phy.net - home, p, phy.phaseMax) == workEnd + path.EndSkew()
  {
    var p1;
    ghost var earlier, f;
    v, p1, workBgn, earlier := BackOffBegin(phy, v0, p0, start, home);
    found, v, p, workBgn, workEnd, f := FindFailingPhase(phy, v, i, p1, workBgn, start, home, Skew(p0));
    path := Path(0, i, p0, earlier, f);
    AddMod(home, f.turns, phy.vfifoSize);
    if found {
      ghost var failed, worked := phy.failed, phy.worked;
      v, p, workEnd := BackOffEnd(phy, v, p, workEnd, home, Skew(p0));
      EdgeMore(failed, worked, phy.failed, phy.worked, phy.vfifoSize, phy.phaseMax, f, true);
    }
  }

  /** Why the search ends as it does once the VFIFO has been pushed to `slot`. */
  ghost predicate Explained(failed: set<Setting>, worked: set<Worked>, slot: nat, size: nat, phaseMax: nat,
                            delayMax: nat,
                            dtaps: nat, verdict: Verdict, path: Path, w: Window)
    requires size > 0
  {
    match verdict
    case NeverFails => true
    case NothingWorks => TapsFail(failed, slot, size, phaseMax, dtaps + 1)
    case NeverEnds =>
      && Walked(failed, worked, slot, size, phaseMax, path, false)
      && path.d == 0 && path.forward.n == size + 1 - path.i && path.forward.q == 0
    case EmptyWindow =>
      Measured(failed, worked, slot, size, phaseMax, delayMax, path, w) && path.d <= dtaps && w.bgn > w.end
    case _ =>
      Measured(failed, worked, slot, size, phaseMax, delayMax, path, w) && path.d <= dtaps && 1 <= w.bgn <= w.end
  }

  /** Steps 2 to 5: the window, or why there is none. */
  method FindWindow(phy: Phy, v0: nat, dtaps: nat)
    returns (verdict: Verdict, v: nat, w: Window, ghost path: Path)
    requires phy.Valid() && phy.InStep(v0) && dtaps <= phy.delayMax
    modifies phy
    ensures phy.Valid() && phy.InStep(v) && phy.Grows()
    ensures verdict in {Found, NothingWorks, NeverEnds, EmptyWindow}
    ensures Explained(phy.failed, phy.worked, old(phy.vfifo), phy.vfifoSize, phy.phaseMax, phy.delayMax, dtaps,
                      verdict, path, w)
    ensures verdict == Found ==> 1 <= w.phase <= phy.phaseMax && w.delay <= phy.delayMax + 1 && w.vfifo == phy.vfifo
  {
    ghost var slot := phy.vfifo;
    w, path := Window(0, 0, 0, 0, 0), Path(0, 0, 0, 0, Forward(0, 0, 0, false, 0, 0));
    var found, i, p, d, workBgn;
    ghost var home: int;
    found, v, i, p, d, workBgn, home := FindWorkingPhase(phy, v0, dtaps);
    if !found {
      return NothingWorks, v, w, path;
    }
    MulNonNegative(i, CycleDelay(phy.phaseMax));
    var workEnd := workBgn;
    path := Path(d, i, p, OPA_DTAPS, Forward(0, 0, 0, false, 0, 0));
    if d == 0 {
      found, v, p, workBgn, workEnd, path := WalkPhases(phy, v, i, p, workBgn, home, slot);
      if !found {
        return NeverEnds, v, w, path;
      }
    }
    assert Walked(phy.failed, phy.worked, slot, phy.vfifoSize, phy.phaseMax, path, true);
    ghost var failed, worked := phy.failed, phy.worked;
    d, workEnd := FindFailingDelay(phy, d, workEnd);
    WalkedMore(failed, worked, phy.failed, phy.worked, slot, phy.vfifoSize, phy.phaseMax, path, true);
    w := Window(workBgn, workEnd, p, d, phy.vfifo);
    AddMod(home, phy.net - home, phy.vfifoSize);
    verdict := if workEnd >= workBgn then Found else EmptyWindow;
  }

  /**
   The end of the search: taps measured for tracking, the centre programmed, and `n` VFIFO steps at it, all of
   whose positions failed; the last read passed unless that is every position.
   */
  ghost predicate Settled(phy: Phy, w: Window, k: Track, dtaps: nat, fallback: nat, mid: nat, v: nat, n: nat)
    requires phy.Valid()
    reads phy
  {
    && Tracked(phy.failed, phy.worked, w, phy.vfifoSize, phy.phaseMax, phy.delayMax, k, dtaps, fallback)
    && ReducedMid(w.bgn, w.end, phy.phaseMax, mid) && Centre(mid, phy.phase, phy.delay)
    && n <= v && n <= phy.vfifoSize
    && SlotsFail(phy.failed, phy.phase, phy.delay, Slot(phy.origin, v - n, phy.vfifoSize), phy.vfifoSize, n)
    && (n < phy.vfifoSize ==> |phy.log| > 0 && phy.log[|phy.log| - 1] == Test(phy.Here(), true))
  }

  /** Step 6: measure the taps for tracking, program the centre, and push the VFIFO until it reads. */
  method CentreEnable(phy: Phy, v0: nat, w: Window, dtaps: nat, ghost slot: nat, ghost path: Path)
    returns (v: nat, dtapsPerPtap: nat, n: nat, ghost mid: nat, ghost k: Track)
    requires phy.Valid() && phy.InStep(v0) && dtaps <= phy.delayMax && phy.vfifo == w.vfifo
    requires Measured(phy.failed, phy.worked, slot, phy.vfifoSize, phy.phaseMax, phy.delayMax, path, w)
    requires 1 <= w.phase <= phy.phaseMax && w.delay <= phy.delayMax + 1 && 1 <= w.bgn <= w.end
    modifies phy
    ensures phy.Valid() && phy.InStep(v) && phy.Grows() && dtapsPerPtap <= phy.delayMax
    ensures Measured(phy.failed, phy.worked, slot, phy.vfifoSize, phy.phaseMax, phy.delayMax, path, w)
    ensures Settled(phy, w, k, dtapsPerPtap, dtaps, mid, v, n)
  {
    ghost var failed, worked := phy.failed, phy.worked;
    ghost var on, off;
    v, dtapsPerPtap, on, off := TrackDtaps(phy, v0, w.phase, w.delay, dtaps);
    k := Track(phy.phase, phy.vfifo, on, off);
    ghost var failed', worked' := phy.failed, phy.worked;
    var reduced := ReduceMid(w.bgn, w.end, phy.phaseMax);
    mid := reduced;
    SettleCentre(phy, reduced);
    var found;
    found, v, n := PushToPassingRead(phy, v);
    TrackedMore(failed', worked', phy.failed, phy.worked, w, phy.vfifoSize, phy.phaseMax, phy.delayMax, k,
                dtapsPerPtap, dtaps);
    MeasuredMore(failed, worked, phy.failed, phy.worked, slot, phy.vfifoSize, phy.phaseMax, phy.delayMax, path,
                 w);
  }

  /** Steps 2 to 6. */
  method FindCentre(phy: Phy, v0: nat, dtaps: nat)
    returns (verdict: Verdict, v: nat, dtapsPerPtap: nat, w: Window, n: nat,
             ghost path: Path, ghost mid: nat, ghost k: Track)
    requires phy.Valid() && phy.InStep(v0) && dtaps <= phy.delayMax
    modifies phy
    ensures phy.Valid() && phy.InStep(v) && phy.Grows() && dtapsPerPtap <= phy.delayMax && verdict != NeverFails
    ensures Explained(phy.failed, phy.worked, old(phy.vfifo), phy.vfifoSize, phy.phaseMax, phy.delayMax, dtaps,
                      verdict, path, w)
    ensures verdict == Found || verdict == NoCentre ==>
              Settled(phy, w, k, dtapsPerPtap, dtaps, mid, v, n) && (verdict == Found <==> n < phy.vfifoSize)
  {
    ghost var slot := phy.vfifo;
    dtapsPerPtap, mid, n, k := dtaps, 0, 0, Track(0, 0, 0, 0);
    verdict, v, w, path := FindWindow(phy, v0, dtaps);
    if verdict == Found {
      v, dtapsPerPtap, n, mid, k := CentreEnable(phy, v, w, dtaps, slot, path);
      if n == phy.vfifoSize {
        verdict := NoCentre;
      }
    }
  }

  /** Step 1 ends at the second VFIFO position that fails at phase 1 without delay; the first was number `first`. */
  ghost predicate SecondFailing(failed: set<Setting>, origin: nat, size: nat, pushed: nat, first: nat, slot: nat)
    requires size > 0
  {
    && first < pushed < size && slot == Slot(origin, pushed, size)
    && Setting(1, 0, Slot(origin, first, size)) in failed && Setting(1, 0, slot) in failed
  }

  /** What the tests of a search show about its results. */
  ghost predicate Searched(phy: Phy, verdict: Verdict, v: nat, dtaps: nat, w: Window, n: nat, pushed: nat, slot: nat,
                           other: nat, path: Path, mid: nat, k: Track)
    requires phy.Valid()
    reads phy
  {
    && phy.InStep(v) && dtaps <= phy.delayMax
    && OthersWork(phy.worked, 1, 0, phy.origin, phy.vfifoSize, pushed, other)
    && (verdict == NeverFails ==> pushed == phy.vfifoSize)
    && (verdict != NeverFails ==>
          && SecondFailing(phy.failed, phy.origin, phy.vfifoSize, pushed, other, slot)
          && Explained(phy.failed, phy.worked, slot, phy.vfifoSize, phy.phaseMax, phy.delayMax, OPA_DTAPS - 1,
                       verdict, path, w))
    && (verdict == Found || verdict == NoCentre ==>
          && Settled(phy, w, k, dtaps, OPA_DTAPS - 1, mid, v, n)
          && (verdict == Found <==> n < phy.vfifoSize))
  }

  /**
   The whole search, and why it ends as it does. `v` is the final software count of VFIFO steps; the window is
   searched from the pointer `slot`, which step 1 reaches after `pushed` VFIFO steps.
   */
  method FindDqsEnPhase(phy: Phy)
    returns (verdict: Verdict, v: nat, dtapsPerPtap: nat, w: Window, n: nat,
             ghost pushed: nat, ghost slot: nat, ghost other: nat, ghost path: Path, ghost mid: nat, ghost k: Track)
    requires phy.Valid()
    modifies phy
    ensures phy.Valid() && phy.mark == |old(phy.log)| && phy.origin == old(phy.vfifo)
    ensures Searched(phy, verdict, v, dtapsPerPtap, w, n, pushed, slot, other, path, mid, k)
  {
    slot, path, mid, n := 0, Path(0, 0, 0, 0, Forward(0, 0, 0, false, 0, 0)), 0, 0;
    w, k := Window(0, 0, 0, 0, 0), Track(0, 0, 0, 0);
    phy.Begin();
    phy.SetDqsEnDelay(0);
    phy.SetDqsEnPhase(1);
    dtapsPerPtap := DtapsPerPtap();
    var found;
    found, v, other := PushToFailingRead(phy);
    verdict, pushed := NeverFails, v;
    if found {
      slot := phy.vfifo;
      verdict, v, dtapsPerPtap, w, n, path, mid, k := FindCentre(phy, v, dtapsPerPtap);
    }
  }
}
