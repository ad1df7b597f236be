/**
 The DQS enable search on a repeatable memory: a read passes or fails by its setting alone, and the settings
 that pass form one interval of delays, counted around the whole VFIFO. Here it is settled when the recorded
 window is that interval, and that the read passes at its centre.
 */
module DqsWindow {
  import opened Modular
  import opened DqsEnable

  /** The delay that a setting stands for. */
  function Raw(at: Setting, phaseMax: nat): int {
    Position(at.vfifo, at.phase, phaseMax) + DTAP * at.delay
  }

  /** Delays repeat after all the steps of the VFIFO. */
  function Ring(size: nat, phaseMax: nat): nat {
    size * CycleDelay(phaseMax)
  }

  predicate Inside(x: int, a: int, b: int, ring: nat) {
    ring > 0 && (x - a) % ring <= b - a
  }

  /** Every read passes or fails by its delay: it passes from `a` to `b`, around the ring. */
  ghost predicate OneInterval(answers: (nat, Setting) -> bool, size: nat, phaseMax: nat, a: int, b: int) {
    forall n: nat, at: Setting :: at.vfifo < size ==>
      (answers(n, at) <==> Inside(Raw(at, phaseMax), a, b, Ring(size, phaseMax)))
  }

  /** The interval as seen from the VFIFO pointer `slot`, where the search for the window begins. */
  datatype View = View(slot: nat, size: nat, phaseMax: nat, a: int, b: int) {

    function Cycle(): nat {
      CycleDelay(phaseMax)
    }

    /** It begins after phase 1 of the first step, and leaves more than two phase taps of the ring failing. */
    predicate Valid() {
      && 0 < size && 3 <= phaseMax
      && OPA_TAP < a <= b < OPA_TAP + Ring(size, phaseMax)
      && b + 2 * OPA_TAP < a + Ring(size, phaseMax)
    }

    predicate Passes(x: int) {
      Inside(x, a, b, Ring(size, phaseMax))
    }
  }

  /** What was tested agrees with the interval. */
  ghost predicate Agrees(failed: set<Setting>, worked: set<Worked>, v: View) {
    && (forall at :: at in failed && at.vfifo < v.size ==> !v.Passes(Raw(at, v.phaseMax) - v.slot * v.Cycle()))
    && (forall w :: w in worked && w.tries > 0 && w.at.vfifo < v.size ==>
          v.Passes(Raw(w.at, v.phaseMax) - v.slot * v.Cycle()))
  }

  // ---- positions around the ring -----------------------------------------------------------------

  lemma AroundRing(x: int, k: int, a: int, b: int, ring: nat)
    requires ring > 0
    ensures Inside(x + k * ring, a, b, ring) == Inside(x, a, b, ring)
  {
    AddMultiple(x - a, k, ring);
    assert x + k * ring - a == x - a + k * ring;
  }

  /** The setting `t` VFIFO steps from the slot, by its delay from there. */
  lemma StepsFromSlot(v: View, t: int, p: nat, d: nat)
    requires v.Valid()
    ensures v.Passes(Raw(Setting(p, d, (v.slot + t) % v.size), v.phaseMax) - v.slot * v.Cycle())
         == v.Passes(Position(t, p, v.phaseMax) + DTAP * d)
  {
    var k, c, ring := (v.slot + t) / v.size, v.Cycle(), Ring(v.size, v.phaseMax);
    var vfifo := (v.slot + t) % v.size;
    assert v.slot + t == k * v.size + vfifo;
    assert vfifo * c == (v.slot + t - k * v.size) * c == v.slot * c + t * c - k * v.size * c;
    assert k * v.size * c == k * ring == -((-k) * ring);
    AroundRing(Position(t, p, v.phaseMax) + DTAP * d, -k, v.a, v.b, ring);
  }

  lemma FailedOutside(failed: set<Setting>, worked: set<Worked>, v: View, t: int, p: nat, d: nat)
    requires v.Valid() && Agrees(failed, worked, v) && Setting(p, d, (v.slot + t) % v.size) in failed
    ensures !v.Passes(Position(t, p, v.phaseMax) + DTAP * d)
  {
    StepsFromSlot(v, t, p, d);
  }

  lemma WorkedInside(failed: set<Setting>, worked: set<Worked>, v: View, t: int, p: nat, d: nat, tries: nat)
    requires v.Valid() && Agrees(failed, worked, v) && tries > 0
    requires Worked(Setting(p, d, (v.slot + t) % v.size), tries) in worked
    ensures v.Passes(Position(t, p, v.phaseMax) + DTAP * d)
  {
    StepsFromSlot(v, t, p, d);
  }

  /** Within one turn from the first step on, only the interval itself passes. */
  lemma OneTurn(v: View, x: int)
    requires v.Valid() && OPA_TAP <= x < v.a + Ring(v.size, v.phaseMax)
    ensures v.Passes(x) <==> v.a <= x <= v.b
  {
    var ring := Ring(v.size, v.phaseMax);
    if x >= v.a {
      DivModUnique(x - v.a, 0, x - v.a, ring);
    } else {
      DivModUnique(x - v.a, -1, x - v.a + ring, ring);
    }
  }

  /** A sweep in steps of at most two phase taps does not jump out of the interval unseen. */
  lemma StepStays(v: View, x: int, y: int)
    requires v.Valid() && v.a <= x <= v.b && x <= y <= x + 2 * OPA_TAP
    ensures v.Passes(y) <==> y <= v.b
  {
    OneTurn(v, y);
  }

  /** A setting that failed, up to the end of the interval, lies before it. */
  lemma FailsBefore(failed: set<Setting>, worked: set<Worked>, v: View, t: int, p: nat, d: nat)
    requires v.Valid() && Agrees(failed, worked, v) && Setting(p, d, (v.slot + t) % v.size) in failed
    requires OPA_TAP <= Position(t, p, v.phaseMax) + DTAP * d <= v.b
    ensures Position(t, p, v.phaseMax) + DTAP * d < v.a
  {
    FailedOutside(failed, worked, v, t, p, d);
    OneTurn(v, Position(t, p, v.phaseMax) + DTAP * d);
  }

  // ---- the begin ---------------------------------------------------------------------------------

  lemma StartInside(failed: set<Setting>, worked: set<Worked>, v: View, path: Path, ended: bool)
    requires v.Valid() && Agrees(failed, worked, v) && path.d < OPA_DTAPS
    requires Walked(failed, worked, v.slot, v.size, v.phaseMax, path, ended)
    ensures v.a <= path.Start(v.phaseMax) <= v.b
    ensures OPA_TAP <= path.Start(v.phaseMax) - DTAP * path.d
  {
    WorkedInside(failed, worked, v, path.i, path.p, path.d, 5);
    MulMonotone(path.i, v.size - 1, v.Cycle());
    assert (v.size - 1) * v.Cycle() == Ring(v.size, v.phaseMax) - v.Cycle();
    MulNonNegative(path.i, v.Cycle());
    OneTurn(v, path.Start(v.phaseMax));
  }

  /** With delay taps the begin is off by less than one of them. */
  lemma BeginInTaps(failed: set<Setting>, worked: set<Worked>, v: View, path: Path, ended: bool)
    requires v.Valid() && Agrees(failed, worked, v) && 0 < path.d < OPA_DTAPS
    requires Walked(failed, worked, v.slot, v.size, v.phaseMax, path, ended)
    ensures v.a <= path.Begin(v.phaseMax) < v.a + DTAP
  {
    StartInside(failed, worked, v, path, ended);
    var e := path.d - 1;
    assert RowsFail(failed, e, v.slot, v.size, v.phaseMax, v.size);
    assert RowFails(failed, v.phaseMax + 1, e, Slot(v.slot, path.i, v.size));
    assert Setting(path.p, e, Slot(v.slot, path.i, v.size)) in failed;
    assert Position(path.i, path.p, v.phaseMax) + DTAP * e == path.Start(v.phaseMax) - DTAP;
    FailsBefore(failed, worked, v, path.i, path.p, e);
  }

  /** A phase whose delay taps are tried from the first on, `earlier` being the first that works. */
  lemma EarlierExact(failed: set<Setting>, worked: set<Worked>, v: View, t: int, p: nat, earlier: nat)
    requires v.Valid() && Agrees(failed, worked, v)
    requires Setting(p, 0, (v.slot + t) % v.size) in failed
    requires EarlierTap(failed, worked, p, (v.slot + t) % v.size, earlier)
    requires var x := Position(t, p, v.phaseMax); OPA_TAP <= x && v.a <= x + OPA_TAP <= v.b
    ensures var begin := BeginAt(Position(t, p, v.phaseMax) + OPA_TAP, earlier); v.a <= begin < v.a + DTAP
  {
    var x := Position(t, p, v.phaseMax);
    FailsBefore(failed, worked, v, t, p, 0);
    if earlier < OPA_DTAPS {
      WorkedInside(failed, worked, v, t, p, earlier, 5);
      OneTurn(v, x + DTAP * earlier);
    }
    if earlier > 0 {
      assert Setting(p, earlier - 1, (v.slot + t) % v.size) in failed;
      FailsBefore(failed, worked, v, t, p, earlier - 1);
    }
  }

  /** So it is when the phase before the first working one has been tried with delay taps. */
  lemma BeginInPhases(failed: set<Setting>, worked: set<Worked>, v: View, path: Path, ended: bool)
    requires v.Valid() && Agrees(failed, worked, v) && path.d == 0 && path.p >= 2 && !path.forward.fuzzy
    requires Walked(failed, worked, v.slot, v.size, v.phaseMax, path, ended)
    ensures v.a <= path.Begin(v.phaseMax) < v.a + DTAP
  {
    StartInside(failed, worked, v, path, ended);
    assert Setting(path.p - 1, 0, Slot(v.slot, path.i, v.size)) in failed;
    MulNonNegative(path.i, v.Cycle());
    EarlierExact(failed, worked, v, path.i, path.p - 1, path.earlier);
  }

  /** The begin lies past the first working phase when the next one failed. */
  lemma FuzzyBegin(failed: set<Setting>, worked: set<Worked>, v: View, path: Path, ended: bool)
    requires v.Valid() && Agrees(failed, worked, v) && path.d == 0 && path.forward.fuzzy
    requires Walked(failed, worked, v.slot, v.size, v.phaseMax, path, ended)
    ensures path.Begin(v.phaseMax) >= v.a + OPA_TAP
  {
    StartInside(failed, worked, v, path, ended);
  }

  // ---- the end -----------------------------------------------------------------------------------

  /** Phase `q` of row `i` of the forward sweep. */
  function RowPosition(f: Forward, i: int, q: int, phaseMax: nat): int {
    Position(f.turns + i, q, phaseMax)
  }

  /** The pointer of row `i` is so many steps from the slot. */
  lemma RowSlot(v: View, f: Forward, i: nat)
    requires v.Valid() && 0 <= f.turns && f.v0 == Slot(v.slot, f.turns, v.size)
    ensures Slot(f.v0, i, v.size) == (v.slot + (f.turns + i)) % v.size
  {
    AddMod(v.slot + f.turns, i, v.size);
  }

  /** Two phase taps past phase 1 lies phase 3. */
  lemma PhaseThree(turns: int, q: nat, i: nat, phaseMax: nat)
    requires 3 <= phaseMax && q <= phaseMax
    requires Position(turns, q, phaseMax) == Position(i, 1, phaseMax) + 2 * OPA_TAP
    ensures q == 3
  {
    var x, c := Position(turns, q, phaseMax), CycleDelay(phaseMax);
    DivModUnique(x, turns, OPA_TAP * q, c);
    DivModUnique(x, i, OPA_TAP * 3, c);
  }

  /** The forward sweep starts two phase taps after a first working phase 1, at phase 3. */
  lemma FirstRow(v: View, path: Path)
    requires v.Valid() && path.d == 0 && 1 <= path.p <= v.phaseMax && path.forward.q0 <= v.phaseMax
    requires Position(path.forward.turns, path.forward.q0, v.phaseMax)
          == path.Start(v.phaseMax) + path.EndSkew() + OPA_TAP
    ensures path.p == 1 ==> path.forward.q0 == 3
  {
    if path.p == 1 {
      PhaseThree(path.forward.turns, path.forward.q0, path.i, v.phaseMax);
    }
  }

  /** What the forward sweep passes over stays inside the interval. */
  lemma {:induction false} SweepStays(failed: set<Setting>, worked: set<Worked>, v: View, path: Path, ended: bool,
                                      i: nat, q: nat)
    requires v.Valid() && Agrees(failed, worked, v) && path.d == 0 && !path.forward.fuzzy
    requires Walked(failed, worked, v.slot, v.size, v.phaseMax, path, ended)
    requires i <= path.forward.n && 1 <= q && path.forward.From(i) <= q < path.forward.To(i, v.phaseMax)
    requires q <= v.phaseMax
    ensures path.Start(v.phaseMax) < RowPosition(path.forward, i, q, v.phaseMax) <= v.b
    decreases i, q
  {
    var f, m := path.forward, v.phaseMax;
    StartInside(failed, worked, v, path, ended);
    FirstRow(v, path);
    assert PhasesWork(worked, f.From(i), f.To(i, m), Slot(f.v0, i, v.size));
    RowSlot(v, f, i);
    WorkedInside(failed, worked, v, f.turns + i, q, 0, 5);
    var before: int;
    if q >= 2 && q - 1 >= f.From(i) {
      SweepStays(failed, worked, v, path, ended, i, q - 1);
      before := RowPosition(f, i, q - 1, m);
    } else if i > 0 {
      SweepStays(failed, worked, v, path, ended, i - 1, m);
      before := RowPosition(f, i - 1, m, m);
      NextCycle(f.turns + i - 1, m);
    } else {
      before := path.Start(m);
    }
    StepStays(v, before, RowPosition(f, i, q, m));
  }

  /** So does the last working phase; the phase where the sweep ended, one or two taps later, does not pass. */
  lemma LastPhaseInside(failed: set<Setting>, worked: set<Worked>, v: View, path: Path)
    requires v.Valid() && Agrees(failed, worked, v) && path.d == 0 && !path.forward.fuzzy
    requires Walked(failed, worked, v.slot, v.size, v.phaseMax, path, true)
    ensures var last := Position(path.LastTurn(), path.LastPhase(v.phaseMax), v.phaseMax);
            v.a <= last <= v.b < last + 2 * OPA_TAP
  {
    var f, m := path.forward, v.phaseMax;
    var last := Position(path.LastTurn(), path.LastPhase(m), m);
    StartInside(failed, worked, v, path, true);
    FirstRow(v, path);
    NextCycle(f.turns + f.n - 1, m);
    if f.q >= 2 && f.q - 1 >= f.From(f.n) {
      SweepStays(failed, worked, v, path, true, f.n, f.q - 1);
    } else if f.n > 0 {
      SweepStays(failed, worked, v, path, true, f.n - 1, m);
    } else {
      assert last == path.Start(m);
    }
    RowSlot(v, f, f.n);
    FailedOutside(failed, worked, v, f.turns + f.n, f.q, 0);
    StepStays(v, last, RowPosition(f, f.n, f.q, m));
  }

  /** Delay taps do not leave the interval before its end. */
  lemma {:induction false} TapsStay(failed: set<Setting>, worked: set<Worked>, v: View, t: int, p: nat, lo: nat, d: nat)
    requires v.Valid() && Agrees(failed, worked, v) && lo <= d
    requires v.a <= Position(t, p, v.phaseMax) + DTAP * lo <= v.b
    requires DelaysWork(worked, 5, lo, d + 1, p, (v.slot + t) % v.size)
    ensures Position(t, p, v.phaseMax) + DTAP * d <= v.b
    decreases d
  {
    if d > lo {
      TapsStay(failed, worked, v, t, p, lo, d - 1);
      WorkedInside(failed, worked, v, t, p, d, 5);
      StepStays(v, Position(t, p, v.phaseMax) + DTAP * (d - 1), Position(t, p, v.phaseMax) + DTAP * d);
    }
  }

  /** The last delay tap that works lies within one delay tap of the end of the interval. */
  lemma LastTapExact(failed: set<Setting>, worked: set<Worked>, v: View, t: int, p: nat, lo: nat, d: nat, delayMax: nat)
    requires v.Valid() && Agrees(failed, worked, v) && 2 * OPA_TAP <= DTAP * delayMax
    requires FirstFailing(failed, worked, lo, d, delayMax, p, (v.slot + t) % v.size)
    requires v.a <= Position(t, p, v.phaseMax) + DTAP * lo <= v.b < Position(t, p, v.phaseMax) + 2 * OPA_TAP
    ensures d > lo && v.b - DTAP < Position(t, p, v.phaseMax) + DTAP * (d - 1) <= v.b
  {
    var x := Position(t, p, v.phaseMax);
    if d <= delayMax {
      FailedOutside(failed, worked, v, t, p, d);
    }
    if d == lo {
      StepStays(v, x + DTAP * lo, x + DTAP * lo);
    } else {
      TapsStay(failed, worked, v, t, p, lo, d - 1);
      assert d <= delayMax;
      StepStays(v, x + DTAP * (d - 1), x + DTAP * d);
    }
  }

  /** With delay taps from the start, the next tested phase fails, at most two phase taps later. */
  lemma NextPhaseFails(failed: set<Setting>, worked: set<Worked>, v: View, path: Path)
    requires v.Valid() && Agrees(failed, worked, v) && 0 < path.d < OPA_DTAPS
    requires Walked(failed, worked, v.slot, v.size, v.phaseMax, path, true)
    ensures v.b < Position(path.i, path.p, v.phaseMax) + 2 * OPA_TAP
  {
    StartInside(failed, worked, v, path, true);
    assert RowsFail(failed, 0, v.slot, v.size, v.phaseMax, v.size);
    var x := Position(path.i, path.p, v.phaseMax);
    if path.p < v.phaseMax {
      assert RowFails(failed, v.phaseMax + 1, 0, Slot(v.slot, path.i, v.size));
      assert Setting(path.p + 1, 0, Slot(v.slot, path.i, v.size)) in failed;
      FailedOutside(failed, worked, v, path.i, path.p + 1, 0);
      OneTurn(v, x + OPA_TAP);
    } else if path.i + 1 < v.size {
      assert RowFails(failed, v.phaseMax + 1, 0, Slot(v.slot, path.i + 1, v.size));
      assert Setting(1, 0, Slot(v.slot, path.i + 1, v.size)) in failed;
      FailedOutside(failed, worked, v, path.i + 1, 1, 0);
      NextCycle(path.i, v.phaseMax);
      MulMonotone(path.i + 1, v.size - 1, v.Cycle());
      OneTurn(v, x + 2 * OPA_TAP);
    } else {
      NextCycle(path.i, v.phaseMax);
    }
  }

  // ---- the window --------------------------------------------------------------------------------

  /** Begin and end are those of the interval, each to within one delay tap. */
  predicate Accurate(v: View, w: Window) {
    v.a <= w.bgn < v.a + DTAP && v.b - DTAP < w.end <= v.b
  }

  /** With delay taps from the start the window is accurate. */
  lemma AccurateInTaps(failed: set<Setting>, worked: set<Worked>, v: View, delayMax: nat, path: Path, w: Window)
    requires v.Valid() && Agrees(failed, worked, v) && 0 < path.d < OPA_DTAPS && 2 * OPA_TAP <= DTAP * delayMax
    requires Measured(failed, worked, v.slot, v.size, v.phaseMax, delayMax, path, w)
    ensures Accurate(v, w)
  {
    StartInside(failed, worked, v, path, true);
    BeginInTaps(failed, worked, v, path, true);
    NextPhaseFails(failed, worked, v, path);
    LastTapExact(failed, worked, v, path.i, path.p, path.d, w.delay, delayMax);
  }

  /** In phase taps the true end is within one delay tap, but the recorded one may be a phase tap short. */
  lemma EndInPhases(failed: set<Setting>, worked: set<Worked>, v: View, delayMax: nat, path: Path, w: Window)
    requires v.Valid() && Agrees(failed, worked, v) && path.d == 0 && 2 * OPA_TAP <= DTAP * delayMax
    requires Measured(failed, worked, v.slot, v.size, v.phaseMax, delayMax, path, w) && !path.forward.fuzzy
    ensures v.b - DTAP < w.end + Skew(path.p) <= v.b
  {
    LastPhaseInside(failed, worked, v, path);
    LastTapExact(failed, worked, v, path.LastTurn(), w.phase, 0, w.delay, delayMax);
  }

  /**
   The recorded window is the interval, to within one delay tap at either end, iff delay taps were needed from
   the start, or the first working phase is not 1 and the phase after it works too.
   */
  lemma AccurateIff(failed: set<Setting>, worked: set<Worked>, v: View, delayMax: nat, path: Path, w: Window)
    requires v.Valid() && Agrees(failed, worked, v) && path.d < OPA_DTAPS && 2 * OPA_TAP <= DTAP * delayMax
    requires Measured(failed, worked, v.slot, v.size, v.phaseMax, delayMax, path, w)
    ensures Accurate(v, w) <==> path.d > 0 || (path.p >= 2 && !path.forward.fuzzy)
    ensures path.d == 0 && path.forward.fuzzy ==> w.bgn >= v.a + OPA_TAP
    ensures path.d == 0 && path.p == 1 && !path.forward.fuzzy ==> v.b - DTAP < w.end + OPA_TAP <= v.b
  {
    if path.d > 0 {
      AccurateInTaps(failed, worked, v, delayMax, path, w);
    } else if path.forward.fuzzy {
      FuzzyBegin(failed, worked, v, path, true);
    } else {
      EndInPhases(failed, worked, v, delayMax, path, w);
      if path.p >= 2 {
        BeginInPhases(failed, worked, v, path, true);
      }
    }
  }

  // ---- wide intervals ----------------------------------------------------------------------------

  const WIDE: nat := 6 * OPA_TAP

  /** Where the first working phase lies: at most two phase taps after the begin of the interval. */
  lemma StartNearBegin(failed: set<Setting>, worked: set<Worked>, v: View, path: Path, ended: bool)
    requires v.Valid() && Agrees(failed, worked, v) && path.d == 0
    requires Walked(failed, worked, v.slot, v.size, v.phaseMax, path, ended)
    ensures v.a <= Position(path.i, path.p, v.phaseMax) <= v.b
    ensures path.p >= 2 ==> Position(path.i, path.p, v.phaseMax) < v.a + OPA_TAP
    ensures path.p == 1 ==> Position(path.i, path.p, v.phaseMax) < v.a + 2 * OPA_TAP
  {
    StartInside(failed, worked, v, path, ended);
    MulNonNegative(path.i, v.Cycle());
    if path.p >= 2 {
      assert Setting(path.p - 1, 0, Slot(v.slot, path.i, v.size)) in failed;
      FailsBefore(failed, worked, v, path.i, path.p - 1, 0);
    } else if path.i > 0 {
      assert RowFails(failed, v.phaseMax + 1, 0, Slot(v.slot, path.i - 1, v.size));
      assert Setting(v.phaseMax, 0, Slot(v.slot, path.i - 1, v.size)) in failed;
      NextCycle(path.i - 1, v.phaseMax);
      MulNonNegative(path.i - 1, v.Cycle());
      FailsBefore(failed, worked, v, path.i - 1, v.phaseMax, 0);
    }
  }

  /** No delay taps are needed in a wide interval. */
  lemma WideInPhases(failed: set<Setting>, worked: set<Worked>, v: View, path: Path)
    requires v.Valid() && Agrees(failed, worked, v) && path.d < OPA_DTAPS && v.b - v.a >= WIDE
    requires Walked(failed, worked, v.slot, v.size, v.phaseMax, path, true)
    ensures path.d == 0
  {
    if path.d > 0 {
      StartInside(failed, worked, v, path, true);
      NextPhaseFails(failed, worked, v, path);
      BeginInTaps(failed, worked, v, path, true);
    }
  }

  /** Nor is its begin taken for fuzzy. */
  lemma WideNotFuzzy(failed: set<Setting>, worked: set<Worked>, v: View, path: Path, ended: bool)
    requires v.Valid() && Agrees(failed, worked, v) && path.d == 0 && v.b - v.a >= WIDE
    requires Walked(failed, worked, v.slot, v.size, v.phaseMax, path, ended)
    ensures !path.forward.fuzzy
  {
    if path.forward.fuzzy {
      var f := path.forward;
      StartNearBegin(failed, worked, v, path, ended);
      RowSlot(v, f, 0);
      NextSlot(f.v0, 0, v.size);
      FailedOutside(failed, worked, v, f.turns, f.q0, 0);
      OneTurn(v, Position(f.turns, f.q0, v.phaseMax));
    }
  }

  /** An interval from `a` on begins after the last phase of a VFIFO step and not after phase 1 of the next. */
  predicate BeginsAroundPhase0(a: int, phaseMax: nat) {
    (a - OPA_TAP * phaseMax - 1) % CycleDelay(phaseMax) < 2 * OPA_TAP
  }

  lemma FirstPhaseIsOneIff(failed: set<Setting>, worked: set<Worked>, v: View, path: Path, ended: bool)
    requires v.Valid() && Agrees(failed, worked, v) && path.d == 0
    requires Walked(failed, worked, v.slot, v.size, v.phaseMax, path, ended)
    ensures path.p == 1 <==> BeginsAroundPhase0(v.a, v.phaseMax)
  {
    StartNearBegin(failed, worked, v, path, ended);
    NextCycle(path.i - 1, v.phaseMax);
    var x := v.a - OPA_TAP * v.phaseMax - 1;
    DivModUnique(x, path.i - 1, x - (path.i - 1) * v.Cycle(), v.Cycle());
  }

  /** An interval that is wide enough is recorded accurately unless it begins around phase 0. */
  lemma WideAccurateIff(failed: set<Setting>, worked: set<Worked>, v: View, delayMax: nat, path: Path, w: Window)
    requires v.Valid() && Agrees(failed, worked, v) && path.d < OPA_DTAPS && 2 * OPA_TAP <= DTAP * delayMax
    requires Measured(failed, worked, v.slot, v.size, v.phaseMax, delayMax, path, w) && v.b - v.a >= WIDE
    ensures path.d == 0 && (path.p == 1 <==> BeginsAroundPhase0(v.a, v.phaseMax))
    ensures Accurate(v, w) <==> !BeginsAroundPhase0(v.a, v.phaseMax)
    ensures v.b - DTAP < w.end + (if BeginsAroundPhase0(v.a, v.phaseMax) then OPA_TAP else 0) <= v.b
    ensures v.a <= w.bgn && w.end - w.bgn >= 2 * OPA_TAP
  {
    WideInPhases(failed, worked, v, path);
    WideNotFuzzy(failed, worked, v, path, true);
    AccurateIff(failed, worked, v, delayMax, path, w);
    FirstPhaseIsOneIff(failed, worked, v, path, true);
    StartNearBegin(failed, worked, v, path, true);
  }

  /** The centre of a window of two phase taps inside the interval lies inside, `k` VFIFO steps from the slot. */
  lemma CentreInside(v: View, w: Window, mid: nat, phase: nat, delay: nat) returns (k: int)
    requires v.Valid() && v.a <= w.bgn && w.end <= v.b && w.end - w.bgn >= 2 * OPA_TAP
    requires ReducedMid(w.bgn, w.end, v.phaseMax, mid) && Centre(mid, phase, delay)
    ensures v.Passes(Position(k, phase, v.phaseMax) + DTAP * delay)
  {
    k := ((w.bgn + w.end) / 2 - mid) / v.Cycle();
    assert (w.bgn + w.end) / 2 == k * v.Cycle() + mid;
    assert v.a <= Position(k, phase, v.phaseMax) + DTAP * delay <= v.b;
    OneTurn(v, Position(k, phase, v.phaseMax) + DTAP * delay);
  }

  /** Among all positions from `v0` on there is the one `k` steps from `slot`. */
  lemma SlotAmong(v0: nat, slot: nat, k: int, size: nat) returns (i: nat)
    requires size > 0
    ensures i < size && Slot(v0, i, size) == (slot + k) % size
  {
    i := (slot + k - v0) % size;
    AddMod(slot + k - v0, v0, size);
    assert (v0 + i) % size == (slot + k - v0 + v0) % size;
  }

  /** At the centre of such a window some VFIFO position reads. */
  lemma CentreReads(failed: set<Setting>, worked: set<Worked>, v: View, w: Window, mid: nat, phase: nat, delay: nat,
                    v0: nat, n: nat)
    requires v.Valid() && Agrees(failed, worked, v) && n <= v.size
    requires v.a <= w.bgn && w.end <= v.b && w.end - w.bgn >= 2 * OPA_TAP
    requires ReducedMid(w.bgn, w.end, v.phaseMax, mid) && Centre(mid, phase, delay)
    requires SlotsFail(failed, phase, delay, v0, v.size, n)
    ensures n < v.size
  {
    if n == v.size {
      var k := CentreInside(v, w, mid, phase, delay);
      var i := SlotAmong(v0, v.slot, k, v.size);
      FailedOutside(failed, worked, v, k, phase, delay);
    }
  }

  // ---- the search always ends well ---------------------------------------------------------------

  /** In a wide interval some phase works without delay taps. */
  lemma WidePhaseWorks(failed: set<Setting>, worked: set<Worked>, v: View)
    requires v.Valid() && Agrees(failed, worked, v) && v.b - v.a >= WIDE
    ensures !RowsFail(failed, 0, v.slot, v.size, v.phaseMax, v.size)
  {
    if RowsFail(failed, 0, v.slot, v.size, v.phaseMax, v.size) {
      var t, p := FirstPhaseFrom(v);
      assert RowFails(failed, v.phaseMax + 1, 0, Slot(v.slot, t, v.size));
      assert Setting(p, 0, Slot(v.slot, t, v.size)) in failed;
      FailedOutside(failed, worked, v, t, p, 0);
      OneTurn(v, Position(t, p, v.phaseMax));
    }
  }

  /** The first phase that is used, from the begin of the interval on. */
  lemma FirstPhaseFrom(v: View) returns (t: nat, p: nat)
    requires v.Valid() && v.b - v.a >= WIDE
    ensures t < v.size && 1 <= p <= v.phaseMax && v.a <= Position(t, p, v.phaseMax) <= v.b
  {
    t, p := v.a / v.Cycle(), (v.a % v.Cycle() + OPA_TAP - 1) / OPA_TAP;
    assert v.a == t * v.Cycle() + v.a % v.Cycle();
    NextCycle(t, v.phaseMax);
    if p == 0 {
      p := 1;
    } else if p > v.phaseMax {
      t, p := t + 1, 1;
    }
    if t >= v.size {
      MulMonotone(v.size, t, v.Cycle());
    }
  }

  /** The forward sweep of a wide interval meets its end. */
  lemma WideEnds(failed: set<Setting>, worked: set<Worked>, v: View, path: Path)
    requires v.Valid() && Agrees(failed, worked, v) && v.b - v.a >= WIDE && path.d == 0
    requires Walked(failed, worked, v.slot, v.size, v.phaseMax, path, false)
    ensures !(path.forward.n == v.size + 1 - path.i && path.forward.q == 0)
  {
    var f := path.forward;
    if f.n == v.size + 1 - path.i && f.q == 0 {
      WideNotFuzzy(failed, worked, v, path, false);
      SweepStays(failed, worked, v, path, false, f.n - 1, v.phaseMax);
      MulMonotone(v.size, f.turns + f.n - 1, v.Cycle());
    }
  }

  /** Two VFIFO positions fail at phase 1 when more than two VFIFO steps of the ring fail. */
  lemma TwoPositionsFail(b: int, a': int, phaseMax: nat) returns (j: int)
    requires b + 2 * CycleDelay(phaseMax) < a'
    ensures b < Position(j, 1, phaseMax) && Position(j + 1, 1, phaseMax) < a'
  {
    j := (b - OPA_TAP) / CycleDelay(phaseMax) + 1;
    NextCycle(j - 1, phaseMax);
    NextCycle(j, phaseMax);
  }

  /** The interval as a view from `slot`: its first copy from phase 1 of the slot on. */
  function FromSlot(slot: nat, size: nat, phaseMax: nat, a: int, b: int): View
    requires 0 < size
  {
    var first := OPA_TAP + (a - slot * CycleDelay(phaseMax) - OPA_TAP) % Ring(size, phaseMax);
    View(slot, size, phaseMax, first, first + b - a)
  }

  lemma TestedTruth(phy: Phy, a: int, b: int, at: Setting, tries: nat)
    requires phy.Valid() && OneInterval(phy.answers, phy.vfifoSize, phy.phaseMax, a, b) && at.vfifo < phy.vfifoSize
    ensures at in phy.failed ==> !Inside(Raw(at, phy.phaseMax), a, b, Ring(phy.vfifoSize, phy.phaseMax))
    ensures tries > 0 && Worked(at, tries) in phy.worked ==>
              Inside(Raw(at, phy.phaseMax), a, b, Ring(phy.vfifoSize, phy.phaseMax))
  {
    if at in phy.failed {
      var k :| phy.mark <= k < |phy.log| && phy.log[k] == Test(at, false);
      assert IsAnswer(phy.answers, phy.log[k]);
    }
    if tries > 0 && Worked(at, tries) in phy.worked {
      var k: nat :| phy.mark <= k && AllPass(phy.log, k, tries, at);
      assert phy.log[k] == Test(at, true) && IsAnswer(phy.answers, phy.log[k]);
    }
  }

  /** What the search tested agrees with the interval as seen from a slot that failed at phase 1. */
  lemma TestsAgree(phy: Phy, slot: nat, a: int, b: int)
    requires phy.Valid() && slot < phy.vfifoSize && 3 <= phy.phaseMax && Setting(1, 0, slot) in phy.failed
    requires OneInterval(phy.answers, phy.vfifoSize, phy.phaseMax, a, b)
    requires a <= b && b + 2 * OPA_TAP < a + Ring(phy.vfifoSize, phy.phaseMax)
    ensures var v := FromSlot(slot, phy.vfifoSize, phy.phaseMax, a, b);
            v.Valid() && Agrees(phy.failed, phy.worked, v)
  {
    var v, ring := FromSlot(slot, phy.vfifoSize, phy.phaseMax, a, b), Ring(phy.vfifoSize, phy.phaseMax);
    var turns := (a - slot * v.Cycle() - OPA_TAP) / ring;
    forall at: Setting
      ensures v.Passes(Raw(at, phy.phaseMax) - slot * v.Cycle()) == Inside(Raw(at, phy.phaseMax), a, b, ring)
    {
      SameInterval(Raw(at, phy.phaseMax), slot * v.Cycle(), turns, a, b, v.a, ring);
    }
    TestedTruth(phy, a, b, Setting(1, 0, slot), 1);
    AfterFailing(v);
    forall at | at in phy.failed && at.vfifo < v.size
      ensures !v.Passes(Raw(at, v.phaseMax) - v.slot * v.Cycle())
    {
      TestedTruth(phy, a, b, at, 1);
    }
    forall t | t in phy.worked && t.tries > 0 && t.at.vfifo < v.size
      ensures v.Passes(Raw(t.at, v.phaseMax) - v.slot * v.Cycle())
    {
      TestedTruth(phy, a, b, t.at, t.tries);
    }
  }

  lemma SameInterval(x: int, shift: int, turns: int, a: int, b: int, first: int, ring: nat)
    requires ring > 0 && first == a - shift - turns * ring
    ensures Inside(x - shift, first, first + b - a, ring) == Inside(x, a, b, ring)
  {
    AddMultiple(x - a, turns, ring);
    assert x - shift - first == x - a + turns * ring;
  }

  /** Phase 1 of the slot fails, so no copy of the interval reaches it. */
  lemma AfterFailing(v: View)
    requires 0 < v.size && OPA_TAP <= v.a < OPA_TAP + Ring(v.size, v.phaseMax) && v.a <= v.b
    requires !v.Passes(OPA_TAP)
    ensures OPA_TAP < v.a && v.b < OPA_TAP + Ring(v.size, v.phaseMax)
  {
    var ring := Ring(v.size, v.phaseMax);
    if v.a == OPA_TAP {
      DivModUnique(0, 0, 0, ring);
    } else {
      DivModUnique(OPA_TAP - v.a, -1, OPA_TAP - v.a + ring, ring);
    }
  }

  /** Step 1 finds two failing positions when more than two VFIFO steps of the ring fail. */
  lemma StepOneEnds(phy: Phy, a: int, b: int, other: nat)
    requires phy.Valid() && OneInterval(phy.answers, phy.vfifoSize, phy.phaseMax, a, b)
    requires a <= b && b + 2 * CycleDelay(phy.phaseMax) < a + Ring(phy.vfifoSize, phy.phaseMax)
    ensures !OthersWork(phy.worked, 1, 0, phy.origin, phy.vfifoSize, phy.vfifoSize, other)
  {
    var size, ring := phy.vfifoSize, Ring(phy.vfifoSize, phy.phaseMax);
    if OthersWork(phy.worked, 1, 0, phy.origin, size, size, other) {
      var j := TwoPositionsFail(b, a + ring, phy.phaseMax);
      var i := SlotAmong(phy.origin, 0, j, size);
      var i' := SlotAmong(phy.origin, 0, j + 1, size);
      DifferentSlots(j, size, phy.phaseMax);
      var t := if i != other then j else j + 1;
      NextCycle(j, phy.phaseMax);
      TestedTruth(phy, a, b, Setting(1, 0, t % size), 5);
      FailsInGap(t, size, phy.phaseMax, a, b);
    }
  }

  lemma DifferentSlots(j: int, size: nat, phaseMax: nat)
    requires size > 0 && 2 * CycleDelay(phaseMax) < Ring(size, phaseMax)
    ensures j % size != (j + 1) % size
  {
    assert size > 1;
    AddMod(j, 1, size);
  }

  lemma FailsInGap(t: int, size: nat, phaseMax: nat, a: int, b: int)
    requires size > 0 && a <= b < Position(t, 1, phaseMax) < a + Ring(size, phaseMax)
    ensures !Inside(Raw(Setting(1, 0, t % size), phaseMax), a, b, Ring(size, phaseMax))
  {
    var x, k, ring, c := Position(t, 1, phaseMax), t / size, Ring(size, phaseMax), CycleDelay(phaseMax);
    assert t == k * size + t % size;
    assert t % size * c == (t - k * size) * c == t * c - k * size * c;
    assert k * size * c == k * ring == -((-k) * ring);
    AroundRing(x, -k, a, b, ring);
    DivModUnique(x - a, 0, x - a, ring);
  }

  /**
   What the whole search makes of a memory that passes on one interval, at least six phase taps wide, and fails on
   more than two VFIFO steps: it always succeeds, and the window it records is the interval, to within one delay
   tap at either end, iff the interval does not begin around phase 0; if it does, the end is a phase tap short.
   The other arguments are the results of the search.
   */
  lemma OneIntervalIsFound(phy: Phy, a: int, b: int, verdict: Verdict, v: nat, dtaps: nat, w: Window, n: nat,
                           pushed: nat, slot: nat, other: nat, path: Path, mid: nat, k: Track)
    requires phy.Valid() && 3 <= phy.phaseMax && 2 * OPA_TAP <= DTAP * phy.delayMax
    requires OneInterval(phy.answers, phy.vfifoSize, phy.phaseMax, a, b)
    requires a + WIDE <= b && b + 2 * CycleDelay(phy.phaseMax) < a + Ring(phy.vfifoSize, phy.phaseMax)
    requires Searched(phy, verdict, v, dtaps, w, n, pushed, slot, other, path, mid, k)
    ensures verdict == Found
    ensures var view := FromSlot(slot, phy.vfifoSize, phy.phaseMax, a, b);
            && (Accurate(view, w) <==> !BeginsAroundPhase0(a, phy.phaseMax))
            && view.b - DTAP < w.end + (if BeginsAroundPhase0(a, phy.phaseMax) then OPA_TAP else 0) <= view.b
    ensures path.d == 0 && (path.p == 1 <==> BeginsAroundPhase0(a, phy.phaseMax))
  {
    StepOneEnds(phy, a, b, other);
    var view := FromSlot(slot, phy.vfifoSize, phy.phaseMax, a, b);
    TestsAgree(phy, slot, a, b);
    FoundFrom(phy.failed, phy.worked, view, phy.delayMax, verdict, path, w);
    WideAccurateIff(phy.failed, phy.worked, view, phy.delayMax, path, w);
    SameBegin(slot, phy.vfifoSize, phy.phaseMax, a, b);
    CentreReads(phy.failed, phy.worked, view, w, mid, phy.phase, phy.delay, Slot(phy.origin, v - n, phy.vfifoSize), n);
  }

  /** Whether the interval begins around phase 0 does not depend on the slot. */
  lemma SameBegin(slot: nat, size: nat, phaseMax: nat, a: int, b: int)
    requires size > 0
    ensures BeginsAroundPhase0(FromSlot(slot, size, phaseMax, a, b).a, phaseMax) == BeginsAroundPhase0(a, phaseMax)
  {
    var c, ring := CycleDelay(phaseMax), Ring(size, phaseMax);
    var turns := (a - slot * c - OPA_TAP) / ring;
    assert FromSlot(slot, size, phaseMax, a, b).a == a - slot * c - turns * ring;
    SameRemainder(a - OPA_TAP * phaseMax - 1, slot, turns, size, c);
  }

  lemma SameRemainder(x: int, slot: int, turns: int, size: int, c: nat)
    requires c > 0
    ensures (x - slot * c - turns * (size * c)) % c == x % c
  {
    var steps := slot + turns * size;
    assert steps * c == slot * c + turns * size * c == slot * c + turns * (size * c);
    assert (-steps) * c == -(steps * c);
    AddMultiple(x, -steps, c);
  }

  /**
   An interval that begins at phase 0 of the first VFIFO step: every search meets phase 1 first, and records an end
   one phase tap short of the last delay tap that works.
   */
  lemma BeginAtPhase0IsShort(phy: Phy, b: int, verdict: Verdict, v: nat, dtaps: nat, w: Window, n: nat, pushed: nat,
                             slot: nat, other: nat, path: Path, mid: nat, k: Track)
    requires phy.Valid() && 3 <= phy.phaseMax && 2 * OPA_TAP <= DTAP * phy.delayMax
    requires OneInterval(phy.answers, phy.vfifoSize, phy.phaseMax, 0, b)
    requires WIDE <= b && b + 2 * CycleDelay(phy.phaseMax) < Ring(phy.vfifoSize, phy.phaseMax)
    requires Searched(phy, verdict, v, dtaps, w, n, pushed, slot, other, path, mid, k)
    ensures verdict == Found && path.d == 0 && path.p == 1
    ensures w.end + OPA_TAP == LastWorking(w, path, phy.phaseMax)
  {
    var c := CycleDelay(phy.phaseMax);
    DivModUnique(-(OPA_TAP * phy.phaseMax) - 1, -1, c - OPA_TAP * phy.phaseMax - 1, c);
    OneIntervalIsFound(phy, 0, b, verdict, v, dtaps, w, n, pushed, slot, other, path, mid, k);
  }

  /** From a failing slot the search gets as far as a window that is not empty. */
  lemma FoundFrom(failed: set<Setting>, worked: set<Worked>, view: View, delayMax: nat, verdict: Verdict, path: Path,
                  w: Window)
    requires view.Valid() && Agrees(failed, worked, view) && 2 * OPA_TAP <= DTAP * delayMax
    requires view.b - view.a >= WIDE && verdict != NeverFails
    requires Explained(failed, worked, view.slot, view.size, view.phaseMax, delayMax, OPA_DTAPS - 1, verdict, path, w)
    ensures verdict == Found || verdict == NoCentre
  {
    match verdict
    case NothingWorks =>
      WidePhaseWorks(failed, worked, view);
    case NeverEnds =>
      WideEnds(failed, worked, view, path);
    case EmptyWindow =>
      WideAccurateIff(failed, worked, view, delayMax, path, w);
    case _ =>
  }
}
