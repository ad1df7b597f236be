/**
 Centring of the data-mask pin: one sweep moves DM, a second one moves DQS, and the longest run of
 passing positions over both wins. Position x <= 0 is a DM delay of -x, position x >= 0 is a DQS
 shift of x; position 0 is tested by both sweeps.
 */
module DmCentre {
  import opened SccManager
  import opened Deskew

  /**
   The outcomes of both sweeps: the first runs from position `low` to 0 with tests numbered from `t`,
   the second from 0 upwards with tests numbered from `t'`.
   */
  datatype DmSweep = DmSweep(pass: (nat, seq<int>, int, int) -> bool, dq: seq<int>, dqs: int, low: int, t: nat,
                             t': nat) {

    predicate Down(x: int)
      requires low <= x
    {
      pass(t + (x - low), dq, dqs, -x)
    }

    predicate Up(x: int)
      requires 0 <= x
    {
      pass(t' + x, dq, dqs + x, 0)
    }

    ghost predicate DownRun(b: int, e: int) {
      low <= b <= e <= 0 && forall x :: b <= x <= e ==> Down(x)
    }

    /** A run that the second sweep completes, possibly begun by the first one. */
    ghost predicate UpRun(b: int, e: int) {
      && low <= b <= e && 0 <= e
      && (b < 0 ==> DownRun(b, 0))
      && forall x :: 0 <= x && b <= x <= e ==> Up(x)
    }

    /** A run whose end lies before `bound`, the next position of the second sweep; none of those before it starts. */
    ghost predicate Run(b: int, e: int, bound: int) {
      DownRun(b, e) || (UpRun(b, e) && e < bound)
    }

    /** The longest run, and the leftmost of the longest ones. */
    ghost predicate Best(win: int, b: int, e: int, bound: int) {
      && (win == 0 || (win == e - b + 1 && win > 0 && Run(b, e, bound)))
      && win >= 0
      && forall b', e' :: Run(b', e', bound) ==> e' - b' + 1 <= win && (e' - b' + 1 == win ==> b <= b')
    }

    /** The same over the part of the first sweep that lies left of `next`. */
    ghost predicate BestDown(win: int, b: int, e: int, next: int) {
      && (win == 0 || (win == e - b + 1 && win > 0 && DownRun(b, e) && e < next))
      && win >= 0
      && forall b', e' :: DownRun(b', e') && e' < next ==> e' - b' + 1 <= win && (e' - b' + 1 == win ==> b <= b')
    }

    /** `b` is where the run that ends just left of `next` begins, or `none`. */
    ghost predicate CurrentDown(b: int, none: int, next: int)
      requires low <= next
    {
      && (b == none ==> next == low || !Down(next - 1))
      && (b != none ==> DownRun(b, next - 1) && (b == low || !Down(b - 1)))
    }

    /** No run that ends at `e` begins left of `b`. */
    ghost predicate NoneStartsBefore(b: int, e: int) {
      forall b' :: UpRun(b', e) ==> b <= b'
    }

    ghost predicate CurrentUp(b: int, none: int, next: int)
      requires low <= 0 <= next
    {
      if next == 0 then
        CurrentDown(b, none, 1)
      else
        && (b == none ==> !Up(next - 1))
        && (b != none ==> UpRun(b, next - 1) && NoneStartsBefore(b, next - 1))
    }
  }

  lemma DownPass(s: DmSweep, win: int, b: int, e: int, cur: int, none: int, x: int)
    requires s.low <= x <= 0 < none && s.Down(x)
    requires (x == s.low ==> cur == none) && s.CurrentDown(cur, none, x) && s.BestDown(win, b, e, x)
    ensures var cur' := if cur == none then x else cur;
            && s.CurrentDown(cur', none, x + 1)
            && if x - cur' + 1 > win then s.BestDown(x - cur' + 1, cur', x, x + 1) else s.BestDown(win, b, e, x + 1)
  {
    var cur' := if cur == none then x else cur;
    forall b', e' | s.DownRun(b', e') && e' < x + 1
      ensures e' < x || cur' <= b'
    {
      if e' == x {
        assert cur' > s.low ==> !s.Down(cur' - 1);
      }
    }
  }

  lemma DownFail(s: DmSweep, win: int, b: int, e: int, none: int, x: int)
    requires s.low <= x <= 0 < none && !s.Down(x) && s.BestDown(win, b, e, x)
    ensures s.CurrentDown(none, none, x + 1) && s.BestDown(win, b, e, x + 1)
  {
    assert forall b', e' :: s.DownRun(b', e') && e' < x + 1 ==> e' < x;
  }

  lemma UpPass(s: DmSweep, win: int, b: int, e: int, cur: int, none: int, x: int)
    requires s.low <= 0 <= x < none && s.Up(x) && s.CurrentUp(cur, none, x) && s.Best(win, b, e, x)
    ensures var cur' := if cur == none then x else cur;
            && s.CurrentUp(cur', none, x + 1)
            && if x - cur' + 1 > win then s.Best(x - cur' + 1, cur', x, x + 1) else s.Best(win, b, e, x + 1)
  {
    var cur' := if cur == none then x else cur;
    assert s.UpRun(cur', x);
    assert s.NoneStartsBefore(cur', x) by {
      forall b' | s.UpRun(b', x)
        ensures cur' <= b'
      {
        if x > 0 && b' < x {
          assert s.UpRun(b', x - 1) && s.Up(x - 1);
        } else if b' < x {
          assert s.DownRun(b', 0) && s.Down(0);
          assert cur' > s.low ==> !s.Down(cur' - 1);
        }
      }
    }
    var next := x + 1;
    forall b', e' | s.Run(b', e', next)
      ensures s.Run(b', e', x) || (e' == x && cur' <= b')
    {
    }
    assert s.Run(cur', x, next);
    assert win > 0 ==> s.Run(b, e, next);
  }

  lemma UpFail(s: DmSweep, win: int, b: int, e: int, none: int, x: int)
    requires s.low <= 0 <= x < none && !s.Up(x) && s.Best(win, b, e, x)
    ensures s.CurrentUp(none, none, x + 1) && s.Best(win, b, e, x + 1)
  {
    var next := x + 1;
    forall b', e' | s.Run(b', e', next)
      ensures s.Run(b', e', x)
    {
      assert s.UpRun(b', e') ==> s.Up(e');
    }
    assert win > 0 ==> s.Run(b, e, next);
  }

  /** Leaving the second sweep early loses nothing: what is left is too short. */
  lemma EarlyExit(s: DmSweep, win: int, b: int, e: int, x: int, bound: int)
    requires s.low <= 0 <= x < bound && !s.Up(x) && s.Best(win, b, e, x + 1) && win - 1 > bound - 1 - x
    ensures s.Best(win, b, e, bound)
  {
    forall b', e' | s.Run(b', e', bound)
      ensures e' - b' + 1 <= win && (e' - b' + 1 == win ==> b <= b')
    {
      if e' > x && s.UpRun(b', e') {
        assert b' > x;
      } else {
        assert s.Run(b', e', x + 1);
      }
    }
  }

  /** The first sweep, from the last DM tap down to 0. */
  method SweepDm(scc: Scc, newDqs: int) returns (win: int, b: int, e: int, cur: int, end: int, ghost s: DmSweep)
    requires scc.dqs == newDqs
    modifies scc`tests, scc`dm
    ensures s == DmSweep(scc.dmPass, scc.dq[..], newDqs, -(scc.dqMax as int), old(scc.tests), scc.tests)
    ensures scc.tests == old(scc.tests) + scc.dqMax + 1
    ensures s.low <= 0 && s.BestDown(win, b, e, 1) && s.CurrentDown(cur, scc.dqMax + 1, 1)
    ensures end == if cur == scc.dqMax + 1 then scc.dqMax + 1 else 0
    ensures win == 0 ==> b == e == scc.dqMax + 1
  {
    var none := scc.dqMax + 1;
    cur, end, b, e, win := none, none, none, none, 0;
    s := DmSweep(scc.dmPass, scc.dq[..], newDqs, -(scc.dqMax as int), scc.tests, 0);
    var d: int := scc.dqMax;
    while d >= 0
      invariant -1 <= d <= scc.dqMax && scc.tests == s.t + scc.dqMax - d
      invariant (d == scc.dqMax ==> cur == none) && s.CurrentDown(cur, none, -d) && s.BestDown(win, b, e, -d)
      invariant end == if cur == none then none else -d - 1
      invariant win == 0 ==> b == e == none
    {
      scc.dm := d;
      var pass := scc.TestMask();
      assert pass == s.Down(-d);
      if pass {
        DownPass(s, win, b, e, cur, none, -d);
        end := -d;
        if cur == none {
          cur := -d;
        }
        if end - cur + 1 > win {
          win, b, e := end - cur + 1, cur, end;
        }
      } else {
        DownFail(s, win, b, e, none, -d);
        cur, end := none, none;
      }
      d := d - 1;
    }
    ghost var s' := s.(t' := scc.tests);
    SameDown(s, s', win, b, e, cur, none);
    s := s';
  }

  lemma SameDown(s: DmSweep, s': DmSweep, win: int, b: int, e: int, cur: int, none: int)
    requires s' == s.(t' := s'.t')
    requires s.low <= 0 && s.BestDown(win, b, e, 1) && s.CurrentDown(cur, none, 1)
    ensures s'.BestDown(win, b, e, 1) && s'.CurrentDown(cur, none, 1)
  {
    assert forall x :: s.low <= x ==> s.Down(x) == s'.Down(x);
    assert forall b, e :: s.DownRun(b, e) <==> s'.DownRun(b, e);
  }

  /** Room between the position of DM and the left end of a window b..e, and room to its right end. */
  function DmLeftRoom(b: int, dm: int): int {
    -dm - b
  }

  function DmRightRoom(e: int, dm: int): int {
    e + dm
  }

  /** DM sits in the middle of the window, with a spare tap to its left; it cannot go right of position 0. */
  ghost predicate InMiddle(b: int, e: int, dm: int) {
    && (b + e <= 0 ==> 0 <= DmLeftRoom(b, dm) - DmRightRoom(e, dm) <= 1)
    && (b + e > 0 ==> dm == 0)
  }

  /** No other delay would put DM nearer to the middle of the window, and only a longer one as near. */
  lemma InMiddleIsNearest(b: int, e: int, dm: int, x: int)
    requires InMiddle(b, e, dm) && 0 <= x != dm
    ensures var off, off' := DmLeftRoom(b, dm) - DmRightRoom(e, dm), DmLeftRoom(b, x) - DmRightRoom(e, x);
            Abs(off) < Abs(off') || (Abs(off) == Abs(off') && dm < x)
  {
  }

  /** The second sweep, from DQS where it is up to its last tap; it stops when no longer run is left to find. */
  method SweepDqs(scc: Scc, newDqs: int, win0: int, b0: int, e0: int, cur0: int, ghost s: DmSweep)
    returns (win: int, b: int, e: int)
    requires scc.dm == 0 && 0 <= newDqs <= scc.dqsMax <= scc.dqMax
    requires s == DmSweep(scc.dmPass, scc.dq[..], newDqs, s.low, s.t, scc.tests) && s.low <= 0
    requires s.BestDown(win0, b0, e0, 1) && s.CurrentDown(cur0, scc.dqMax + 1, 1)
    requires win0 == 0 ==> b0 == e0 == scc.dqMax + 1
    modifies scc`tests, scc`dqs
    ensures s.Best(win, b, e, Taps(scc.dqsMax, newDqs)) && (win == 0 ==> b == e == scc.dqMax + 1)
    ensures s.t' < scc.tests
  {
    var none := scc.dqMax + 1;
    ghost var range := Taps(scc.dqsMax, newDqs);
    var cur := cur0;
    win, b, e := win0, b0, e0;
    BestBefore(s, win, b, e, cur, none);
    var d := 0;
    while d <= scc.dqsMax - newDqs
      invariant 0 <= d <= range && scc.tests == s.t' + d
      invariant s.CurrentUp(cur, none, d) && s.Best(win, b, e, d)
      invariant win == 0 ==> b == e == none
    {
      scc.dqs := d + newDqs;
      var pass := scc.TestMask();
      assert pass == s.Up(d);
      if pass {
        UpPass(s, win, b, e, cur, none, d);
        var end := d;
        if cur == none {
          cur := d;
        }
        if end - cur + 1 > win {
          win, b, e := end - cur + 1, cur, end;
        }
      } else {
        UpFail(s, win, b, e, none, d);
        cur := none;
        if win - 1 > scc.dqsMax - newDqs - d {
          EarlyExit(s, win, b, e, d, range);
          break;
        }
      }
      d := d + 1;
    }
  }

  /** Before the second sweep only the runs of the first one are known. */
  lemma BestBefore(s: DmSweep, win: int, b: int, e: int, cur: int, none: int)
    requires s.low <= 0 && s.BestDown(win, b, e, 1) && s.CurrentDown(cur, none, 1)
    ensures s.Best(win, b, e, 0) && s.CurrentUp(cur, none, 0)
  {
  }

  method CentreDm(scc: Scc, newDqs: int) returns (margin: int, win: int, b: int, e: int, ghost s: DmSweep)
    requires scc.dqs == newDqs && 0 <= newDqs <= scc.dqsMax <= scc.dqMax
    modifies scc`tests, scc`dqs, scc`dm
    ensures s == DmSweep(scc.dmPass, scc.dq[..], newDqs, -(scc.dqMax as int), old(scc.tests),
                         old(scc.tests) + scc.dqMax + 1)
    ensures s.t' < scc.tests
    ensures s.Best(win, b, e, Taps(scc.dqsMax, newDqs))
    ensures scc.dqs == newDqs && 0 <= scc.dm <= scc.dqMax
    ensures if win > 0 then InMiddle(b, e, scc.dm) else scc.dm == 0
    ensures margin == if win == 0 then -1 else -b - scc.dm
    ensures margin >= 0 <==> win > 0 && b <= -scc.dm <= e
    ensures margin >= 0 <==> win > 0 && b <= 0
  {
    var none := scc.dqMax + 1;
    var cur, end;
    win, b, e, cur, end, s := SweepDm(scc, newDqs);
    scc.dm := 0;
    if end != 0 {
      cur, end := none, none;
    }
    win, b, e := SweepDqs(scc, newDqs, win, b, e, cur, s);
    scc.dqs := newDqs;
    var left, right := -b, e;
    var mid := Half(left - right);
    if mid < 0 {
      mid := 0;
    }
    margin := if win == 0 then -1 else left - mid;
    scc.dm := mid;
  }

  // ---- a repeatable memory -------------------------------------------------------------------

  /** The answer depends on the settings only, so a position passes or fails once and for all. */
  ghost predicate Repeatable(pass: (nat, seq<int>, int, int) -> bool) {
    forall t: nat, t': nat, dq: seq<int>, dqs: int, dm: int :: pass(t, dq, dqs, dm) == pass(t', dq, dqs, dm)
  }

  ghost predicate PassesAt(pass: (nat, seq<int>, int, int) -> bool, dq: seq<int>, dqs: int, x: int) {
    if x <= 0 then pass(0, dq, dqs, -x) else pass(0, dq, dqs + x, 0)
  }

  ghost predicate PassingRun(pass: (nat, seq<int>, int, int) -> bool, dq: seq<int>, dqs: int, lo: int, bound: int,
                             b: int, e: int) {
    lo <= b <= e < bound && forall x :: b <= x <= e ==> PassesAt(pass, dq, dqs, x)
  }

  lemma RunsArePassingRuns(s: DmSweep, bound: int, b: int, e: int)
    requires s.low <= 0 < bound && Repeatable(s.pass)
    ensures s.Run(b, e, bound) <==> PassingRun(s.pass, s.dq, s.dqs, s.low, bound, b, e)
  {
    assert forall x :: s.low <= x <= 0 ==> s.Down(x) == PassesAt(s.pass, s.dq, s.dqs, x);
    assert forall x :: 0 <= x ==> s.Up(x) == PassesAt(s.pass, s.dq, s.dqs, x) by {
      assert s.Up(0) == s.pass(0, s.dq, s.dqs, 0);
    }
  }

  /**
   The window found is the longest passing run over all positions the two sweeps can reach, the
   leftmost one on a tie: the early exit and the stitch at 0 lose nothing.
   */
  lemma WindowOptimal(s: DmSweep, win: int, b: int, e: int, bound: int)
    requires s.low <= 0 < bound && Repeatable(s.pass) && s.Best(win, b, e, bound)
    ensures win > 0 ==> win == e - b + 1 && PassingRun(s.pass, s.dq, s.dqs, s.low, bound, b, e)
    ensures forall b', e' :: PassingRun(s.pass, s.dq, s.dqs, s.low, bound, b', e') ==>
              e' - b' + 1 <= win && (e' - b' + 1 == win ==> b <= b')
    ensures win == 0 <==> forall x :: s.low <= x < bound ==> !PassesAt(s.pass, s.dq, s.dqs, x)
  {
    forall b', e'
      ensures s.Run(b', e', bound) <==> PassingRun(s.pass, s.dq, s.dqs, s.low, bound, b', e')
    {
      RunsArePassingRuns(s, bound, b', e');
    }
    forall x | s.low <= x < bound && PassesAt(s.pass, s.dq, s.dqs, x)
      ensures win > 0
    {
      assert PassingRun(s.pass, s.dq, s.dqs, s.low, bound, x, x);
    }
    if win > 0 {
      assert PassesAt(s.pass, s.dq, s.dqs, b);
    }
  }

  /** A nonnegative margin means that masked writes pass at the position DM was put. */
  lemma CentredDmPasses(s: DmSweep, win: int, b: int, e: int, bound: int, dm: int, t: nat)
    requires s.low <= 0 < bound && Repeatable(s.pass) && s.Best(win, b, e, bound)
    requires win > 0 && 0 <= dm && b <= -dm <= e
    ensures s.pass(t, s.dq, s.dqs, dm)
  {
    RunsArePassingRuns(s, bound, b, e);
    assert PassesAt(s.pass, s.dq, s.dqs, -dm);
  }
}
