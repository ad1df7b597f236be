/**
 Per-bit deskew and centring of the DQ pins of one DQS group. The read side and the write side run
 the same algorithm and differ only where `Side` says so.

 A pin is described by its offset: the DQS shift minus the delay of the pin. Delaying the pins by d
 looks at offset -d, delaying DQS by d looks at offset d.
 */
module Deskew {
  import opened SccManager

  datatype Side = ReadSide | WriteSide

  /** A sweep whose first test has number `t`, made with DQS at `start`. */
  datatype Sweep =
    | DelayPins(pass: (nat, nat, int, int) -> bool, t: nat, start: int)
    | DelayStrobe(pass: (nat, nat, int, int) -> bool, t: nat, start: int)
  {
    /** Did pin `i` pass test `k` of the sweep? */
    predicate At(i: nat, k: nat) {
      match this
      case DelayPins(_, _, _) => pass(t + k, i, k, start)
      case DelayStrobe(_, _, _) => pass(t + k, i, 0, start + k)
    }
  }

  ghost predicate PassedBefore(s: Sweep, i: nat, d: nat) {
    exists k: nat :: k < d && s.At(i, k)
  }

  /** Test `d` ends a sweep: no pin passes it, and each was seen earlier, before the sweep or in it. */
  ghost predicate StopsAt(s: Sweep, pins: nat, seen: set<nat>, d: nat) {
    forall i: nat :: i < pins ==> !s.At(i, d) && (i in seen || PassedBefore(s, i, d))
  }

  /** How many of `range` tests a sweep makes: up to the first that ends it, or all of them. */
  ghost predicate SweepLength(s: Sweep, pins: nat, seen: set<nat>, range: nat, tested: nat) {
    && 0 < tested <= range
    && (forall d: nat :: d + 1 < tested ==> !StopsAt(s, pins, seen, d))
    && (tested < range ==> StopsAt(s, pins, seen, tested - 1))
  }

  /** The sticky bits before test `d`: the pins seen so far. */
  ghost predicate Sticky(s: Sweep, pins: nat, seen: set<nat>, d: nat, sticky: set<nat>) {
    forall i: nat :: i in sticky <==> i < pins && (i in seen || PassedBefore(s, i, d))
  }

  /** After test `d`: the pins seen by now, and whether the sweep is over. */
  method Judge(pins: nat, bits: set<nat>, sticky: set<nat>, ghost s: Sweep, ghost seen: set<nat>, ghost d: nat)
    returns (stop: bool, sticky': set<nat>)
    requires forall i: nat :: i in bits <==> i < pins && s.At(i, d)
    requires Sticky(s, pins, seen, d, sticky)
    ensures Sticky(s, pins, seen, d + 1, sticky')
    ensures stop <==> StopsAt(s, pins, seen, d)
  {
    stop := bits == {};
    sticky' := sticky + bits;
    stop := stop && sticky' == AllPins(pins);
    assert forall i: nat :: IsPin(i, pins) <==> i < pins;
    assert Sticky(s, pins, seen, d + 1, sticky') by {
      StickyRound(s, pins, seen, d, sticky, bits);
    }
    if stop {
      forall i: nat | i < pins
        ensures !s.At(i, d) && (i in seen || PassedBefore(s, i, d))
      {
        assert IsPin(i, pins) && i in sticky' && i !in bits;
      }
    }
    if StopsAt(s, pins, seen, d) {
      assert bits == {};
      assert sticky' == AllPins(pins);
    }
  }

  lemma StickyRound(s: Sweep, pins: nat, seen: set<nat>, d: nat, sticky: set<nat>, bits: set<nat>)
    requires Sticky(s, pins, seen, d, sticky)
    requires forall i: nat :: i in bits <==> i < pins && s.At(i, d)
    ensures Sticky(s, pins, seen, d + 1, sticky + bits)
  {
    forall i: nat
      ensures i in sticky + bits <==> i < pins && (i in seen || PassedBefore(s, i, d + 1))
    {
      assert PassedBefore(s, i, d + 1) <==> PassedBefore(s, i, d) || s.At(i, d);
    }
  }

  // ---- the left sweep ------------------------------------------------------------------------

  /** What one recorded test does to the two edges of a pin; `none` is the illegal value. */
  function LeftStep(pass: bool, d: nat, none: int, left: int, right: int): (int, int) {
    if pass then (d, right)
    else if left == none then (left, -(d + 1))
    else (left, right)
  }

  /** The edges of pin `i` once tests 0..d-1 of the left sweep are recorded. */
  ghost predicate LeftScan(l: Sweep, i: nat, d: nat, none: int, left: int, right: int) {
    && (left == none ==> (forall k: nat :: k < d ==> !l.At(i, k)) && right == (if d == 0 then none else -(d as int)))
    && (left != none ==>
          && 0 <= left < d && l.At(i, left) && (forall k: nat :: left < k < d ==> !l.At(i, k))
          && (right == none ==> l.At(i, 0))
          && (right != none ==> -left <= right < 0 && l.At(i, -right) && (forall k: nat :: k < -right ==> !l.At(i, k))))
  }

  lemma LeftStepKeepsScan(l: Sweep, i: nat, d: nat, none: int, left: int, right: int)
    requires d < none && LeftScan(l, i, d, none, left, right)
    ensures var (left', right') := LeftStep(l.At(i, d), d, none, left, right);
            LeftScan(l, i, d + 1, none, left', right')
  {
    var (left', right') := LeftStep(l.At(i, d), d, none, left, right);
    if left' != none && right' != none {
      assert forall k: nat :: k < -right' ==> !l.At(i, k);
    }
  }

  method RecordLeft(bits: set<nat>, d: nat, none: int, left: array<int>, right: array<int>)
    requires left != right && left.Length == right.Length
    modifies left, right
    ensures forall i: nat :: i < left.Length ==>
              (left[i], right[i]) == LeftStep(i in bits, d, none, old(left[i]), old(right[i]))
  {
    for i := 0 to left.Length
      invariant forall k: nat :: k < i ==>
                  (left[k], right[k]) == LeftStep(k in bits, d, none, old(left[k]), old(right[k]))
      invariant forall k: nat :: i <= k < left.Length ==> left[k] == old(left[k]) && right[k] == old(right[k])
    {
      if i in bits {
        left[i] := d;
      } else if left[i] == none {
        right[i] := -(d + 1);
      }
    }
  }

  /** `LeftScan` of every pin. */
  ghost predicate LeftScans(l: Sweep, pins: nat, d: nat, none: int, left: seq<int>, right: seq<int>) {
    && |left| == |right| == pins
    && forall i: nat :: i < pins ==> LeftScan(l, i, d, none, left[i], right[i])
  }

  lemma LeftRound(l: Sweep, pins: nat, d: nat, none: int, bits: set<nat>,
                  left: seq<int>, right: seq<int>, left': seq<int>, right': seq<int>)
    requires d < none && LeftScans(l, pins, d, none, left, right)
    requires |left'| == |right'| == pins
    requires forall i: nat :: i < pins ==> (i in bits <==> l.At(i, d))
    requires forall i: nat :: i < pins ==> (left'[i], right'[i]) == LeftStep(i in bits, d, none, left[i], right[i])
    ensures LeftScans(l, pins, d + 1, none, left', right')
  {
    forall i: nat | i < pins
      ensures LeftScan(l, i, d + 1, none, left'[i], right'[i])
    {
      LeftStepKeepsScan(l, i, d, none, left[i], right[i]);
    }
  }

  /** The test that ends the sweep would have changed nothing. */
  lemma LeftStop(l: Sweep, pins: nat, d: nat, none: int, left: seq<int>, right: seq<int>)
    requires d < none && LeftScans(l, pins, d, none, left, right) && StopsAt(l, pins, {}, d)
    ensures LeftScans(l, pins, d + 1, none, left, right)
  {
    forall i: nat | i < pins
      ensures left[i] != none && !l.At(i, d)
    {
      assert LeftScan(l, i, d, none, left[i], right[i]) && PassedBefore(l, i, d);
    }
    LeftRound(l, pins, d, none, {}, left, right, left, right);
  }

  /** The sweep makes the tests it should, and every pin is scanned. */
  ghost predicate LeftDone(l: Sweep, pins: nat, dqMax: nat, tested: nat, left: seq<int>, right: seq<int>) {
    && SweepLength(l, pins, {}, dqMax + 1, tested)
    && LeftScans(l, pins, tested, dqMax + 1, left, right)
  }

  /** Test `d` of the left sweep. */
  method TestDelayed(scc: Scc, bgn: nat, d: nat, ghost l: Sweep) returns (bits: set<nat>)
    requires bgn + scc.pins <= scc.dq.Length
    requires l == DelayPins(scc.pinPass, l.t, scc.dqs) && scc.tests == l.t + d
    modifies scc`tests, scc.dq
    ensures scc.tests == old(scc.tests) + 1
    ensures forall k :: 0 <= k < scc.dq.Length && !(bgn <= k < bgn + scc.pins) ==> scc.dq[k] == old(scc.dq[k])
    ensures forall i: nat :: i in bits <==> i < scc.pins && l.At(i, d)
  {
    scc.ApplyGroupDq(bgn, d);
    bits := scc.TestPins(bgn);
  }

  method LeftSweep(scc: Scc, bgn: nat, left: array<int>, right: array<int>) returns (ghost tested: nat)
    requires bgn + scc.pins <= scc.dq.Length
    requires left.Length == right.Length == scc.pins
    requires left != right && left != scc.dq && right != scc.dq
    requires forall i :: 0 <= i < left.Length ==> left[i] == right[i] == scc.dqMax + 1
    modifies scc`tests, scc.dq, left, right
    ensures LeftDone(DelayPins(scc.pinPass, old(scc.tests), scc.dqs), scc.pins, scc.dqMax, tested, left[..], right[..])
    ensures scc.tests == old(scc.tests) + tested
    ensures forall k :: 0 <= k < scc.dq.Length && !(bgn <= k < bgn + scc.pins) ==> scc.dq[k] == old(scc.dq[k])
  {
    var none := scc.dqMax + 1;
    ghost var l := DelayPins(scc.pinPass, scc.tests, scc.dqs);
    var sticky: set<nat> := {};
    var d: nat := 0;
    tested := 0;
    while d <= scc.dqMax
      invariant d <= none && tested == d && scc.tests == old(scc.tests) + d
      invariant LeftScans(l, scc.pins, d, none, left[..], right[..])
      invariant Sticky(l, scc.pins, {}, d, sticky)
      invariant forall k: nat :: k < d ==> !StopsAt(l, scc.pins, {}, k)
      invariant forall k :: 0 <= k < scc.dq.Length && !(bgn <= k < bgn + scc.pins) ==> scc.dq[k] == old(scc.dq[k])
    {
      ghost var left0, right0 := left[..], right[..];
      var bits := TestDelayed(scc, bgn, d, l);
      var stop;
      stop, sticky := Judge(scc.pins, bits, sticky, l, {}, d);
      tested := d + 1;
      if stop {
        LeftStop(l, scc.pins, d, none, left0, right0);
        break;
      }
      RecordLeft(bits, d, none, left, right);
      LeftRound(l, scc.pins, d, none, bits, left0, right0, left[..], right[..]);
      d := d + 1;
    }
  }

  // ---- between the sweeps --------------------------------------------------------------------

  /** A pin counts as seen when its left edge is known; the read side also wants its right edge. */
  predicate Seen(side: Side, none: int, left: int, right: int) {
    left != none && (side == ReadSide ==> right != none)
  }

  ghost function SeenPins(side: Side, none: int, left: seq<int>, right: seq<int>): set<nat>
    requires |left| == |right|
  {
    set i: nat | i < |left| && Seen(side, none, left[i], right[i])
  }

  /** Right edges without a left edge are dropped, nothing else changes. */
  ghost predicate Reset(none: int, left: seq<int>, right: seq<int>, left': seq<int>, right': seq<int>) {
    && |left| == |right| == |right'| && left' == left
    && forall i :: 0 <= i < |left| ==> right'[i] == if left[i] == none then none else right[i]
  }

  /** Drop right edges that have no left edge, and rebuild the sticky mask from the top pin down. */
  method ResetEdges(side: Side, none: int, left: array<int>, right: array<int>) returns (sticky: set<nat>)
    requires left != right && left.Length == right.Length
    modifies right
    ensures Reset(none, left[..], old(right[..]), left[..], right[..])
    ensures sticky == SeenPins(side, none, left[..], right[..])
  {
    sticky := {};
    var i := left.Length;
    while i > 0
      invariant 0 <= i <= left.Length
      invariant forall k :: i <= k < left.Length ==> right[k] == if left[k] == none then none else old(right[k])
      invariant forall k :: 0 <= k < i ==> right[k] == old(right[k])
      invariant forall b: nat :: b in sticky <==> i + b < left.Length && Seen(side, none, left[i + b], right[i + b])
    {
      i := i - 1;
      if left[i] == none && right[i] != none {
        right[i] := none;
      }
      ghost var before := sticky;
      sticky := set b | b in sticky :: b + 1;
      assert forall b: nat :: b in sticky <==> b > 0 && b - 1 in before by {
        forall b: nat | b > 0 && b - 1 in before
          ensures b in sticky
        {
          assert (b - 1) + 1 == b;
        }
      }
      if Seen(side, none, left[i], right[i]) {
        sticky := sticky + {0};
      }
    }
  }

  // ---- the right sweep -----------------------------------------------------------------------

  function RightStep(pass: bool, d: nat, none: int, left: int, right: int): (int, int) {
    if pass then (left, d)
    else if right != none then (left, right)
    else if d == 0 && left != none then (left, -1)
    else (-(d + 1), right)
  }

  /** The edges of pin `i`, which were (left0, right0), once tests 0..d-1 of the right sweep are recorded. */
  ghost predicate RightScan(r: Sweep, i: nat, d: nat, none: int, left0: int, right0: int, left: int, right: int) {
    && (left0 != none ==> left == left0)
    && ((forall k: nat :: k < d ==> !r.At(i, k)) ==>
          && right == (if d > 0 && left0 != none && right0 == none then -1 else right0)
          && (left0 == none ==> left == (if d == 0 then none else -(d as int))))
    && ((exists k: nat :: k < d && r.At(i, k)) ==>
          && 0 <= right < d && r.At(i, right) && (forall k: nat :: right < k < d ==> !r.At(i, k))
          && (left0 == none ==>
                && (left == none ==> r.At(i, 0))
                && (left != none ==>
                      -right <= left < 0 && r.At(i, -left) && (forall k: nat :: k < -left ==> !r.At(i, k)))))
  }

  lemma RightStepKeepsScan(r: Sweep, i: nat, d: nat, none: int, left0: int, right0: int, left: int, right: int)
    requires 0 <= d < none && RightScan(r, i, d, none, left0, right0, left, right)
    requires right0 != none ==> left0 != none
    ensures var (left', right') := RightStep(r.At(i, d), d, none, left, right);
            RightScan(r, i, d + 1, none, left0, right0, left', right')
  {
    var (left', right') := RightStep(r.At(i, d), d, none, left, right);
    if r.At(i, d) {
      if exists k: nat :: k < d && r.At(i, k) {
      } else {
        assert left0 == none && left' != none ==> left' == -(d as int);
      }
    } else {
      if k: nat :| k < d && r.At(i, k) {
        assert right' == right && left' == left;
      } else {
        assert forall k: nat :: k < d + 1 ==> !r.At(i, k);
      }
    }
  }

  method RecordRight(bits: set<nat>, d: nat, none: int, left: array<int>, right: array<int>)
    requires left != right && left.Length == right.Length
    modifies left, right
    ensures forall i: nat :: i < left.Length ==>
              (left[i], right[i]) == RightStep(i in bits, d, none, old(left[i]), old(right[i]))
  {
    for i := 0 to left.Length
      invariant forall k: nat :: k < i ==>
                  (left[k], right[k]) == RightStep(k in bits, d, none, old(left[k]), old(right[k]))
      invariant forall k: nat :: i <= k < left.Length ==> left[k] == old(left[k]) && right[k] == old(right[k])
    {
      if i in bits {
        right[i] := d;
      } else if d != 0 {
        if right[i] == none {
          left[i] := -(d + 1);
        }
      } else if right[i] == none && left[i] != none {
        right[i] := -1;
      } else if right[i] == none {
        left[i] := -(d + 1);
      }
    }
  }

  /** The write side, when it stops at d = 0: pins that failed there although they passed before are marginal. */
  method MarkMarginal(none: int, left: array<int>, right: array<int>)
    requires left != right && left.Length == right.Length
    modifies right
    ensures forall i :: 0 <= i < left.Length ==>
              right[i] == if old(right[i]) == none && left[i] != none then -1 else old(right[i])
  {
    for i := 0 to left.Length
      invariant forall k :: 0 <= k < left.Length ==>
                  right[k] == if k < i && old(right[k]) == none && left[k] != none then -1 else old(right[k])
    {
      if right[i] == none && left[i] != none {
        right[i] := -1;
      }
    }
  }

  /** `RightScan` of every pin. */
  ghost predicate RightScans(r: Sweep, pins: nat, d: nat, none: int,
                             left0: seq<int>, right0: seq<int>, left: seq<int>, right: seq<int>) {
    && |left0| == |right0| == |left| == |right| == pins
    && forall i: nat :: i < pins ==> RightScan(r, i, d, none, left0[i], right0[i], left[i], right[i])
  }

  ghost predicate RightEdgesNeedLeft(none: int, left: seq<int>, right: seq<int>) {
    && |left| == |right|
    && forall i :: 0 <= i < |left| ==> right[i] != none ==> left[i] != none
  }

  lemma RightRound(r: Sweep, pins: nat, d: nat, none: int, bits: set<nat>, left0: seq<int>, right0: seq<int>,
                   left: seq<int>, right: seq<int>, left': seq<int>, right': seq<int>)
    requires d < none && RightScans(r, pins, d, none, left0, right0, left, right)
    requires RightEdgesNeedLeft(none, left0, right0)
    requires |left'| == |right'| == pins
    requires forall i: nat :: i < pins ==> (i in bits <==> r.At(i, d))
    requires forall i: nat :: i < pins ==> (left'[i], right'[i]) == RightStep(i in bits, d, none, left[i], right[i])
    ensures RightScans(r, pins, d + 1, none, left0, right0, left', right')
  {
    forall i: nat | i < pins
      ensures RightScan(r, i, d + 1, none, left0[i], right0[i], left'[i], right'[i])
    {
      RightStepKeepsScan(r, i, d, none, left0[i], right0[i], left[i], right[i]);
    }
  }

  /** The test that ends the sweep leaves the edges; the write side marks pins marginal at d = 0. */
  lemma RightStop(r: Sweep, side: Side, pins: nat, d: nat, none: int, left0: seq<int>, right0: seq<int>,
                  left: seq<int>, right: seq<int>, right': seq<int>)
    requires d < none && RightScans(r, pins, d, none, left0, right0, left, right)
    requires RightEdgesNeedLeft(none, left0, right0)
    requires |right'| == pins && StopsAt(r, pins, SeenPins(side, none, left0, right0), d)
    requires forall i: nat :: i < pins ==>
               right'[i] == if side == WriteSide && d == 0 && right[i] == none && left[i] != none then -1 else right[i]
    ensures RightScans(r, pins, d + 1, none, left0, right0, left, right')
  {
    forall i: nat | i < pins
      ensures !r.At(i, d) && (left[i], right'[i]) == RightStep(i in {}, d, none, left[i], right[i])
    {
      assert RightScan(r, i, d, none, left0[i], right0[i], left[i], right[i]);
      assert Seen(side, none, left0[i], right0[i]) || PassedBefore(r, i, d);
    }
    RightRound(r, pins, d, none, {}, left0, right0, left, right, left, right');
  }

  ghost predicate RightDone(r: Sweep, side: Side, pins: nat, dqMax: nat, range: nat, tested: nat,
                            left0: seq<int>, right0: seq<int>, left: seq<int>, right: seq<int>) {
    && RightScans(r, pins, tested, dqMax + 1, left0, right0, left, right)
    && SweepLength(r, pins, SeenPins(side, dqMax + 1, left0, right0), range, tested)
  }

  /** Test `d` of the right sweep. */
  method TestShifted(scc: Scc, bgn: nat, start: int, d: nat, ghost r: Sweep) returns (bits: set<nat>)
    requires bgn + scc.pins <= scc.dq.Length
    requires forall k :: bgn <= k < bgn + scc.pins ==> scc.dq[k] == 0
    requires r == DelayStrobe(scc.pinPass, r.t, start) && scc.tests == r.t + d
    modifies scc`tests, scc`dqs
    ensures scc.tests == old(scc.tests) + 1 && scc.dqs == start + d
    ensures forall i: nat :: i in bits <==> i < scc.pins && r.At(i, d)
  {
    scc.dqs := d + start;
    bits := scc.TestPins(bgn);
  }

  /** The test that ends the sweep. */
  method EndRight(side: Side, pins: nat, d: nat, none: int, left: array<int>, right: array<int>, ghost r: Sweep,
                  ghost left0: seq<int>, ghost right0: seq<int>)
    requires left != right && left.Length == right.Length
    requires d < none && RightScans(r, pins, d, none, left0, right0, left[..], right[..])
    requires RightEdgesNeedLeft(none, left0, right0) && StopsAt(r, pins, SeenPins(side, none, left0, right0), d)
    modifies right
    ensures RightScans(r, pins, d + 1, none, left0, right0, left[..], right[..])
  {
    ghost var right1 := right[..];
    if d == 0 && side == WriteSide {
      MarkMarginal(none, left, right);
    }
    RightStop(r, side, pins, d, none, left0, right0, left[..], right1, right[..]);
  }

  /** Any other test. */
  method NextRight(pins: nat, bits: set<nat>, d: nat, none: int, left: array<int>, right: array<int>, ghost r: Sweep,
                   ghost left0: seq<int>, ghost right0: seq<int>)
    requires left != right && left.Length == right.Length
    requires d < none && RightScans(r, pins, d, none, left0, right0, left[..], right[..])
    requires RightEdgesNeedLeft(none, left0, right0)
    requires forall i: nat :: i in bits <==> i < pins && r.At(i, d)
    modifies left, right
    ensures RightScans(r, pins, d + 1, none, left0, right0, left[..], right[..])
  {
    ghost var left1, right1 := left[..], right[..];
    RecordRight(bits, d, none, left, right);
    RightRound(r, pins, d, none, bits, left0, right0, left1, right1, left[..], right[..]);
  }

  method RightSweep(scc: Scc, bgn: nat, side: Side, start: int, seen: set<nat>, left: array<int>, right: array<int>)
    returns (ghost tested: nat)
    requires bgn + scc.pins <= scc.dq.Length
    requires left.Length == right.Length == scc.pins
    requires left != right && left != scc.dq && right != scc.dq
    requires 0 <= start <= scc.dqsMax <= scc.dqMax
    requires forall k :: bgn <= k < bgn + scc.pins ==> scc.dq[k] == 0
    requires RightEdgesNeedLeft(scc.dqMax + 1, left[..], right[..])
    requires seen == SeenPins(side, scc.dqMax + 1, left[..], right[..])
    modifies scc`tests, scc`dqs, left, right
    ensures RightDone(DelayStrobe(scc.pinPass, old(scc.tests), start), side, scc.pins, scc.dqMax,
                      scc.dqsMax - start + 1, tested, old(left[..]), old(right[..]), left[..], right[..])
    ensures scc.tests == old(scc.tests) + tested
    ensures tested > 0 && scc.dqs == start + tested - 1
  {
    var none := scc.dqMax + 1;
    ghost var r := DelayStrobe(scc.pinPass, scc.tests, start);
    ghost var left0, right0 := left[..], right[..];
    var sticky := seen;
    var d: nat := 0;
    tested := 0;
    while d <= scc.dqsMax - start
      invariant d <= scc.dqsMax - start + 1 && tested == d && scc.tests == old(scc.tests) + d
      invariant d > 0 ==> scc.dqs == start + d - 1
      invariant RightScans(r, scc.pins, d, none, left0, right0, left[..], right[..])
      invariant Sticky(r, scc.pins, seen, d, sticky)
      invariant forall k: nat :: k < d ==> !StopsAt(r, scc.pins, seen, k)
    {
      var bits := TestShifted(scc, bgn, start, d, r);
      var stop;
      stop, sticky := Judge(scc.pins, bits, sticky, r, seen, d);
      tested := d + 1;
      if stop {
        EndRight(side, scc.pins, d, none, left, right, r, left0, right0);
        break;
      }
      NextRight(scc.pins, bits, d, none, left, right, r, left0, right0);
      d := d + 1;
    }
  }

  // ---- what the edges mean -------------------------------------------------------------------

  /** Edges after both sweeps, with the right edges reset in between. */
  ghost predicate Scanned(l: Sweep, r: Sweep, side: Side, pins: nat, dqMax: nat, range: nat, left: seq<int>,
                          right: seq<int>) {
    exists tested: nat, tested': nat, left0: seq<int>, right0: seq<int>, right1: seq<int> ::
      && LeftDone(l, pins, dqMax, tested, left0, right0)
      && Reset(dqMax + 1, left0, right0, left0, right1)
      && RightDone(r, side, pins, dqMax, range, tested', left0, right1, left, right)
  }

  /** The pins that count as seen when the right sweep begins, told from the answers to the left sweep. */
  ghost predicate LeftSees(l: Sweep, side: Side, i: nat, dqMax: nat) {
    (exists k: nat :: k <= dqMax && l.At(i, k)) && (side == ReadSide ==> !l.At(i, 0))
  }

  ghost function LeftSeen(l: Sweep, side: Side, pins: nat, dqMax: nat): set<nat> {
    set i: nat | i < pins && LeftSees(l, side, i, dqMax)
  }

  lemma SeenPinsAreLeftSeen(l: Sweep, side: Side, pins: nat, dqMax: nat, tested: nat, left: seq<int>, right: seq<int>,
                            right': seq<int>)
    requires LeftDone(l, pins, dqMax, tested, left, right) && Reset(dqMax + 1, left, right, left, right')
    ensures SeenPins(side, dqMax + 1, left, right') == LeftSeen(l, side, pins, dqMax)
  {
    forall i: nat | i < pins
      ensures Seen(side, dqMax + 1, left[i], right'[i]) <==> LeftSees(l, side, i, dqMax)
    {
      LeftEdgeIffPassed(l, pins, dqMax, tested, left, right, i);
    }
  }

  /** Pin `i` passes no test of the left sweep, and either none of the right sweep or already its first. */
  ghost predicate Missed(l: Sweep, r: Sweep, i: nat, dqMax: nat, range: nat) {
    && (forall k: nat :: k <= dqMax ==> !l.At(i, k))
    && (r.At(i, 0) || forall k: nat :: k < range ==> !r.At(i, k))
  }

  /** The left sweep finds an edge of every pin that passes any of its tests, also when it stops early. */
  lemma LeftEdgeIffPassed(l: Sweep, pins: nat, dqMax: nat, tested: nat, left: seq<int>, right: seq<int>, i: nat)
    requires i < pins && LeftDone(l, pins, dqMax, tested, left, right)
    ensures left[i] != dqMax + 1 <==> exists k: nat :: k <= dqMax && l.At(i, k)
    ensures left[i] != dqMax + 1 ==> (right[i] == dqMax + 1 <==> l.At(i, 0))
  {
    assert LeftScan(l, i, tested, dqMax + 1, left[i], right[i]);
    if tested <= dqMax {
      assert !l.At(i, tested - 1) && PassedBefore(l, i, tested - 1);
    }
  }

  /** A pin ends without an edge exactly when it is missed, whatever the memory answers. */
  lemma NoEdgeIffMissed(l: Sweep, r: Sweep, side: Side, pins: nat, dqMax: nat, range: nat,
                        left: seq<int>, right: seq<int>, i: nat)
    requires i < pins && 0 < range <= dqMax + 1
    requires Scanned(l, r, side, pins, dqMax, range, left, right)
    ensures |left| == |right| == pins
    ensures left[i] == dqMax + 1 || right[i] == dqMax + 1 <==> Missed(l, r, i, dqMax, range)
  {
    var tested: nat, tested': nat, left0: seq<int>, right0: seq<int>, right1: seq<int> :|
      && LeftDone(l, pins, dqMax, tested, left0, right0)
      && Reset(dqMax + 1, left0, right0, left0, right1)
      && RightDone(r, side, pins, dqMax, range, tested', left0, right1, left, right);
    NoEdgeAfterScans(l, r, side, pins, dqMax, range, tested, tested', left0, right0, right1, left, right, i);
  }

  lemma NoEdgeAfterScans(l: Sweep, r: Sweep, side: Side, pins: nat, dqMax: nat, range: nat, tested: nat, tested': nat,
                         left0: seq<int>, right0: seq<int>, right1: seq<int>, left: seq<int>, right: seq<int>, i: nat)
    requires i < pins && 0 < range <= dqMax + 1
    requires LeftDone(l, pins, dqMax, tested, left0, right0) && Reset(dqMax + 1, left0, right0, left0, right1)
    requires RightDone(r, side, pins, dqMax, range, tested', left0, right1, left, right)
    ensures left[i] == dqMax + 1 || right[i] == dqMax + 1 <==> Missed(l, r, i, dqMax, range)
  {
    LeftEdgeIffPassed(l, pins, dqMax, tested, left0, right0, i);
    assert LeftScan(l, i, tested, dqMax + 1, left0[i], right0[i]);
    assert RightScan(r, i, tested', dqMax + 1, left0[i], right1[i], left[i], right[i]);
    if left0[i] == dqMax + 1 && tested' < range {
      assert i !in SeenPins(side, dqMax + 1, left0, right1);
      assert PassedBefore(r, i, tested' - 1);
    }
  }

  /** The memory answers by the offset of the pin alone. */
  ghost predicate OffsetOnly(pass: (nat, nat, int, int) -> bool, start: int, p: (nat, int) -> bool) {
    forall t: nat, i: nat, x: int, y: int :: pass(t, i, x, y) == p(i, y - start - x)
  }

  /** The offsets at which pin `i` passes are, within the swept range, exactly a..b. */
  ghost predicate Window(p: (nat, int) -> bool, i: nat, lo: int, hi: int, a: int, b: int) {
    lo <= a <= b <= hi && forall o :: lo <= o <= hi ==> (p(i, o) <==> a <= o <= b)
  }

  /** The sweeps find the two ends of the window of a pin. */
  lemma EdgesExact(pass: (nat, nat, int, int) -> bool, t: nat, t': nat, start: int, p: (nat, int) -> bool,
                   side: Side, pins: nat, dqMax: nat, range: nat, left: seq<int>, right: seq<int>,
                   i: nat, a: int, b: int)
    requires i < pins && 0 < range <= dqMax + 1
    requires Scanned(DelayPins(pass, t, start), DelayStrobe(pass, t', start), side, pins, dqMax, range, left, right)
    requires OffsetOnly(pass, start, p) && Window(p, i, -(dqMax as int), range - 1, a, b)
    ensures |left| == |right| == pins
    ensures left[i] == -a && right[i] == b
  {
    var l, r := DelayPins(pass, t, start), DelayStrobe(pass, t', start);
    var tested: nat, tested': nat, left0: seq<int>, right0: seq<int>, right1: seq<int> :|
      && LeftDone(l, pins, dqMax, tested, left0, right0)
      && Reset(dqMax + 1, left0, right0, left0, right1)
      && RightDone(r, side, pins, dqMax, range, tested', left0, right1, left, right);
    OffsetsTested(pass, t, t', start, p, i, dqMax, range, a, b);
    LeftEdgeExact(l, pins, dqMax, tested, left0, right0, i, a, b);
    RightEdgeExact(r, side, pins, dqMax, range, tested', left0, right1, left, right, i, a, b);
  }

  /** Test k of the left sweep looks at offset -k, test k of the right sweep at offset k. */
  lemma OffsetsTested(pass: (nat, nat, int, int) -> bool, t: nat, t': nat, start: int, p: (nat, int) -> bool,
                      i: nat, dqMax: nat, range: nat, a: int, b: int)
    requires 0 < range && OffsetOnly(pass, start, p) && Window(p, i, -(dqMax as int), range - 1, a, b)
    ensures forall k: nat :: k <= dqMax ==> (DelayPins(pass, t, start).At(i, k) <==> a <= -(k as int) <= b)
    ensures forall k: nat :: k < range ==> (DelayStrobe(pass, t', start).At(i, k) <==> a <= k <= b)
  {
  }

  lemma LeftEdgeExact(l: Sweep, pins: nat, dqMax: nat, tested: nat, left: seq<int>, right: seq<int>, i: nat,
                      a: int, b: int)
    requires i < pins && a <= b && -(dqMax as int) <= a
    requires LeftDone(l, pins, dqMax, tested, left, right)
    requires forall k: nat :: k <= dqMax ==> (l.At(i, k) <==> a <= -(k as int) <= b)
    ensures left[i] == if a <= 0 then -a else dqMax + 1
    ensures a <= 0 ==> right[i] == if b < 0 then b else dqMax + 1
  {
    assert LeftScan(l, i, tested, dqMax + 1, left[i], right[i]);
    if a <= 0 {
      var first: nat := if b < 0 then -b else 0;
      assert l.At(i, first) && l.At(i, -a);
      LeftEdgeIffPassed(l, pins, dqMax, tested, left, right, i);
      if tested <= dqMax {
        assert !l.At(i, tested - 1) && PassedBefore(l, i, tested - 1);
      }
      if b < 0 {
        assert !l.At(i, 0);
      }
    }
  }

  lemma RightEdgeExact(r: Sweep, side: Side, pins: nat, dqMax: nat, range: nat, tested: nat, left0: seq<int>,
                       right0: seq<int>,
                       left: seq<int>, right: seq<int>, i: nat, a: int, b: int)
    requires i < pins && 0 < range <= dqMax + 1 && a <= b < range
    requires RightDone(r, side, pins, dqMax, range, tested, left0, right0, left, right)
    requires forall k: nat :: k < range ==> (r.At(i, k) <==> a <= k <= b)
    requires left0[i] == if a <= 0 then -a else dqMax + 1
    requires right0[i] == if b < 0 then b else dqMax + 1
    requires a <= 0 ==> -a <= dqMax
    ensures left[i] == -a && right[i] == b
  {
    assert RightScan(r, i, tested, dqMax + 1, left0[i], right0[i], left[i], right[i]);
    if tested < range {
      assert !r.At(i, tested - 1) && (Seen(side, dqMax + 1, left0[i], right0[i]) || PassedBefore(r, i, tested));
    }
    if b >= 0 {
      var first: nat := if a > 0 then a else 0;
      assert r.At(i, first) && r.At(i, b);
      assert b < tested;
    } else {
      assert forall k: nat :: k < tested ==> !r.At(i, k);
    }
  }

  // ---- centring ------------------------------------------------------------------------------

  /** Division by two as C does it, towards zero. */
  function Half(x: int): int {
    if x >= 0 then x / 2 else -(-x / 2)
  }

  ghost predicate LeastMid(left: seq<int>, right: seq<int>, mid: int) {
    && |left| == |right|
    && (forall i :: 0 <= i < |left| ==> mid <= left[i] - right[i])
    && (exists i :: 0 <= i < |left| && mid == left[i] - right[i])
  }

  method FindLeastMid(left: seq<int>, right: seq<int>) returns (mid: int, index: nat)
    requires 0 < |left| == |right|
    ensures index < |left| && mid == left[index] - right[index] && LeastMid(left, right, mid)
  {
    mid, index := left[0] - right[0], 0;
    for i := 1 to |left|
      invariant index < i && mid == left[index] - right[index]
      invariant forall k :: 0 <= k < i ==> mid <= left[k] - right[k]
    {
      if left[i] - right[i] < mid {
        mid, index := left[i] - right[i], i;
      }
    }
  }

  /** Half of the least mid, rounded up so that the later rounding is biased to the right. */
  function Bias(mid: int): int {
    Half(if mid > 0 then mid + 1 else mid)
  }

  /** Where DQS goes: the read side centres it within its range, the write side leaves it. */
  function NewDqs(side: Side, start: int, mid: int, dqsMax: int): int {
    if side == WriteSide then start
    else if start - Bias(mid) > dqsMax then dqsMax
    else if start - Bias(mid) < 0 then 0
    else start - Bias(mid)
  }

  /** How far a pin wants to be delayed, before its register range is taken into account. */
  function Shift(left: int, right: int, mid: int, start: int, newDqs: int): int {
    Half(left - right - mid) + (Bias(mid) - (start - newDqs))
  }

  /** The tap of balance that rounding costs: none when the edges differ by an even number, else one. */
  function Rounding(left: int, right: int, mid: int): int {
    if (left - right) % 2 == 0 then 0 else if mid % 2 != 0 then -1 else 1
  }

  /** Rounding costs an unclamped pin at most one tap of balance, and a clamped DQS costs nothing. */
  lemma Balanced(left: int, right: int, mid: int, start: int, newDqs: int)
    requires mid <= left - right
    ensures var offset := newDqs - start - Shift(left, right, mid, start, newDqs);
            (left + offset) - (right - offset) == Rounding(left, right, mid)
  {
  }

  /** Offset of a pin once its delay and the DQS delay are programmed. */
  function Offset(start: int, dqs: int, delay: int): int {
    dqs - start - delay
  }

  /**
   The register of a pin that wants `shift`: what it wants, or the lower end of its range. The upper clamp
   leaves out what register number i, not the register of the pin, holds at that time.
   */
  ghost predicate Programmed(shift: int, delay: int, dqMax: nat, other: int) {
    && 0 <= delay <= dqMax
    && (0 <= shift <= dqMax ==> delay == shift)
    && (shift < 0 ==> delay == 0)
    && (shift > dqMax ==> delay == dqMax - other)
  }

  /** What register i holds when pin i is programmed: a pin below the group, an earlier pin of it, or pin i itself. */
  function Other(below: seq<int>, delays: seq<int>, i: nat): int
    requires i <= |delays|
  {
    if i < |below| then below[i] else if below != [] then delays[i - |below|] else 0
  }

  /** Room to the left of a pin at its final offset, and room to the right. */
  function LeftRoom(left: int, start: int, dqs: int, delay: int): int {
    left + Offset(start, dqs, delay)
  }

  function RightRoom(right: int, start: int, dqs: int, delay: int): int {
    right - Offset(start, dqs, delay)
  }

  ghost predicate LeastLeftRoom(margin: int, none: int, left: seq<int>, start: int, dqs: int, delays: seq<int>) {
    && |delays| <= |left|
    && margin <= none
    && (forall i :: 0 <= i < |delays| ==> margin <= LeftRoom(left[i], start, dqs, delays[i]))
    && (margin == none || exists i :: 0 <= i < |delays| && margin == LeftRoom(left[i], start, dqs, delays[i]))
  }

  ghost predicate LeastRightRoom(margin: int, none: int, right: seq<int>, start: int, dqs: int, delays: seq<int>) {
    && |delays| <= |right|
    && margin <= none
    && (forall i :: 0 <= i < |delays| ==> margin <= RightRoom(right[i], start, dqs, delays[i]))
    && (margin == none || exists i :: 0 <= i < |delays| && margin == RightRoom(right[i], start, dqs, delays[i]))
  }

  ghost predicate AllProgrammed(below: seq<int>, dqMax: nat, start: int, mid: int, dqs: int,
                                left: seq<int>, right: seq<int>, delays: seq<int>) {
    && |delays| <= |left| == |right|
    && forall i :: 0 <= i < |delays| ==> Programmed(Shift(left[i], right[i], mid, start, dqs), delays[i], dqMax,
                                                    Other(below, delays, i))
  }

  /** The registers and margins that centring leaves behind for the edges it was given. */
  ghost predicate Centred(side: Side, below: seq<int>, dqMax: nat, dqsMax: nat, start: int, left: seq<int>,
                          right: seq<int>,
                          delays: seq<int>, dqs: int, dqMargin: int, dqsMargin: int) {
    && |left| == |right| == |delays|
    && 0 <= dqs <= dqsMax
    && LeastLeftRoom(dqMargin, dqMax + 1, left, start, dqs, delays)
    && LeastRightRoom(dqsMargin, dqMax + 1, right, start, dqs, delays)
    && exists mid ::
         && LeastMid(left, right, mid)
         && dqs == NewDqs(side, start, mid, dqsMax)
         && AllProgrammed(below, dqMax, start, mid, dqs, left, right, delays)
  }

  /** One pin more: its register, and the margins it may lower. */
  function Least(x: int, y: int): int {
    if x < y then x else y
  }

  lemma PinProgrammed(below: seq<int>, dqMax: nat, start: int, mid: int, dqs: int, left: seq<int>, right: seq<int>,
                      delays: seq<int>, delay: int, dqMargin: int, dqsMargin: int)
    requires |delays| < |left| == |right|
    requires PartlyCentred(below, dqMax, start, mid, dqs, left, right, delays, dqMargin, dqsMargin)
    requires Programmed(Shift(left[|delays|], right[|delays|], mid, start, dqs), delay, dqMax,
                        Other(below, delays, |delays|))
    ensures PartlyCentred(below, dqMax, start, mid, dqs, left, right, delays + [delay],
                          Least(LeftRoom(left[|delays|], start, dqs, delay), dqMargin),
                          Least(RightRoom(right[|delays|], start, dqs, delay), dqsMargin))
  {
    MoreProgrammed(below, dqMax, start, mid, dqs, left, right, delays, delay);
    MoreLeftRoom(dqMax + 1, left, start, dqs, delays, delay, dqMargin);
    MoreRightRoom(dqMax + 1, right, start, dqs, delays, delay, dqsMargin);
  }

  lemma MoreProgrammed(below: seq<int>, dqMax: nat, start: int, mid: int, dqs: int, left: seq<int>, right: seq<int>,
                       delays: seq<int>, delay: int)
    requires |delays| < |left| && AllProgrammed(below, dqMax, start, mid, dqs, left, right, delays)
    requires Programmed(Shift(left[|delays|], right[|delays|], mid, start, dqs), delay, dqMax,
                        Other(below, delays, |delays|))
    ensures AllProgrammed(below, dqMax, start, mid, dqs, left, right, delays + [delay])
  {
  }

  lemma MoreLeftRoom(none: int, left: seq<int>, start: int, dqs: int, delays: seq<int>, delay: int, margin: int)
    requires |delays| < |left| && LeastLeftRoom(margin, none, left, start, dqs, delays)
    ensures LeastLeftRoom(Least(LeftRoom(left[|delays|], start, dqs, delay), margin), none, left, start, dqs,
                          delays + [delay])
  {
    var more := delays + [delay];
    assert more[|delays|] == delay;
    if i :| 0 <= i < |delays| && margin == LeftRoom(left[i], start, dqs, delays[i]) {
      assert margin == LeftRoom(left[i], start, dqs, more[i]);
    }
  }

  lemma MoreRightRoom(none: int, right: seq<int>, start: int, dqs: int, delays: seq<int>, delay: int, margin: int)
    requires |delays| < |right| && LeastRightRoom(margin, none, right, start, dqs, delays)
    ensures LeastRightRoom(Least(RightRoom(right[|delays|], start, dqs, delay), margin), none, right, start, dqs,
                           delays + [delay])
  {
    var more := delays + [delay];
    assert more[|delays|] == delay;
    if i :| 0 <= i < |delays| && margin == RightRoom(right[i], start, dqs, delays[i]) {
      assert margin == RightRoom(right[i], start, dqs, more[i]);
    }
  }

  /** Everything about a partly programmed group: `delays` are the registers written so far. */
  ghost predicate PartlyCentred(below: seq<int>, dqMax: nat, start: int, mid: int, dqs: int, left: seq<int>,
                                right: seq<int>,
                                delays: seq<int>, dqMargin: int, dqsMargin: int) {
    && AllProgrammed(below, dqMax, start, mid, dqs, left, right, delays)
    && LeastLeftRoom(dqMargin, dqMax + 1, left, start, dqs, delays)
    && LeastRightRoom(dqsMargin, dqMax + 1, right, start, dqs, delays)
  }

  ghost predicate InRange(dq: seq<int>, dqMax: nat) {
    forall k :: 0 <= k < |dq| ==> 0 <= dq[k] <= dqMax
  }

  /** Program one pin. The upper clamp reads register i, everything else register p. */
  method CentrePin(scc: Scc, bgn: nat, i: nat, start: int, mid: int, newDqs: int, left: seq<int>, right: seq<int>,
                   ghost below: seq<int>, ghost delays: seq<int>, dqMargin0: int, dqsMargin0: int)
    returns (shift: int, dqMargin: int, dqsMargin: int)
    requires i == |delays| < scc.pins == |left| == |right| && bgn + scc.pins <= scc.dq.Length
    requires InRange(scc.dq[..], scc.dqMax) && scc.dq[bgn + i] == 0 && scc.dq[i] == Other(below, delays, i)
    requires PartlyCentred(below, scc.dqMax, start, mid, newDqs, left, right, delays, dqMargin0, dqsMargin0)
    modifies scc.dq
    ensures scc.dq[..] == old(scc.dq[..])[bgn + i := shift] && InRange(scc.dq[..], scc.dqMax)
    ensures PartlyCentred(below, scc.dqMax, start, mid, newDqs, left, right, delays + [shift], dqMargin, dqsMargin)
  {
    var p := bgn + i;
    var origMidMin, midMin := Bias(mid), start - newDqs;
    shift := Half(left[i] - right[i] - mid) + (origMidMin - midMin);
    assert scc.dq[..][i] == scc.dq[i];
    if shift + scc.dq[p] > scc.dqMax {
      shift := scc.dqMax - scc.dq[i];
    } else if shift + scc.dq[p] < 0 {
      shift := -scc.dq[p];
    }
    ghost var dq0 := scc.dq[..];
    scc.dq[p] := scc.dq[p] + shift;
    assert scc.dq[..] == dq0[p := shift];
    StaysInRange(dq0, scc.dqMax, p, shift);
    dqMargin := Least(LeftRoom(left[i], start, newDqs, shift), dqMargin0);
    dqsMargin := Least(RightRoom(right[i], start, newDqs, shift), dqsMargin0);
    PinProgrammed(below, scc.dqMax, start, mid, newDqs, left, right, delays, shift, dqMargin0, dqsMargin0);
  }

  lemma StaysInRange(dq: seq<int>, dqMax: nat, p: nat, value: int)
    requires InRange(dq, dqMax) && p < |dq| && 0 <= value <= dqMax
    ensures InRange(dq[p := value], dqMax)
  {
  }

  /** Program all pins of the group. */
  method ProgramPins(scc: Scc, bgn: nat, start: int, mid: int, newDqs: int, left: seq<int>, right: seq<int>)
    returns (dqMargin: int, dqsMargin: int, ghost delays: seq<int>)
    requires scc.pins == |left| == |right| && bgn + scc.pins <= scc.dq.Length
    requires InRange(scc.dq[..], scc.dqMax)
    requires forall k :: bgn <= k < bgn + scc.pins ==> scc.dq[k] == 0
    modifies scc.dq
    ensures |delays| == scc.pins && scc.dq[..] == Spliced(old(scc.dq[..]), bgn, delays)
    ensures PartlyCentred(old(scc.dq[..])[..bgn], scc.dqMax, start, mid, newDqs, left, right, delays, dqMargin,
                          dqsMargin)
  {
    dqMargin, dqsMargin := scc.dqMax + 1, scc.dqMax + 1;
    ghost var dq0, below := scc.dq[..], scc.dq[..][..bgn];
    delays := [];
    for i := 0 to scc.pins
      invariant |delays| == i && scc.dq[..] == Spliced(dq0, bgn, delays)
      invariant InRange(scc.dq[..], scc.dqMax)
      invariant PartlyCentred(below, scc.dqMax, start, mid, newDqs, left, right, delays, dqMargin, dqsMargin)
    {
      NextSpliced(dq0, bgn, delays, scc.dq[..]);
      var shift;
      OtherRegister(dq0, bgn, delays, scc.dq[..]);
      shift, dqMargin, dqsMargin := CentrePin(scc, bgn, i, start, mid, newDqs, left, right, below, delays,
                                              dqMargin, dqsMargin);
      SplicedMore(dq0, bgn, delays, shift);
      delays := delays + [shift];
    }
  }

  method CentrePins(scc: Scc, bgn: nat, side: Side, start: int, left: seq<int>, right: seq<int>)
    returns (dqMargin: int, dqsMargin: int, ghost delays: seq<int>)
    requires 0 < scc.pins == |left| == |right| && bgn + scc.pins <= scc.dq.Length
    requires 0 <= start <= scc.dqsMax
    requires InRange(scc.dq[..], scc.dqMax)
    requires forall k :: bgn <= k < bgn + scc.pins ==> scc.dq[k] == 0
    modifies scc.dq, scc`dqs
    ensures |delays| == scc.pins && scc.dq[..] == Spliced(old(scc.dq[..]), bgn, delays)
    ensures Centred(side, old(scc.dq[..])[..bgn], scc.dqMax, scc.dqsMax, start, left, right, delays, scc.dqs,
                    dqMargin, dqsMargin)
  {
    ghost var below := scc.dq[..][..bgn];
    var mid, minIndex := FindLeastMid(left, right);
    var newDqs := NewDqs(side, start, mid, scc.dqsMax);
    dqMargin, dqsMargin, delays := ProgramPins(scc, bgn, start, left[minIndex] - right[minIndex], newDqs, left, right);
    scc.dqs := newDqs;
    CentredIntro(side, below, scc.dqMax, scc.dqsMax, start, mid, left, right, delays, newDqs, dqMargin, dqsMargin);
  }

  lemma CentredIntro(side: Side, below: seq<int>, dqMax: nat, dqsMax: nat, start: int, mid: int, left: seq<int>,
                     right: seq<int>,
                     delays: seq<int>, dqs: int, dqMargin: int, dqsMargin: int)
    requires 0 <= start <= dqsMax && |left| == |right| == |delays| && LeastMid(left, right, mid)
    requires dqs == NewDqs(side, start, mid, dqsMax)
    requires PartlyCentred(below, dqMax, start, mid, dqs, left, right, delays, dqMargin, dqsMargin)
    ensures Centred(side, below, dqMax, dqsMax, start, left, right, delays, dqs, dqMargin, dqsMargin)
  {
  }

  /** The registers once the first pins from `bgn` on are programmed. */
  ghost function Spliced(dq: seq<int>, bgn: nat, delays: seq<int>): seq<int>
    requires bgn + |delays| <= |dq|
  {
    dq[..bgn] + delays + dq[bgn + |delays|..]
  }

  lemma NextSpliced(dq0: seq<int>, bgn: nat, delays: seq<int>, dq: seq<int>)
    requires bgn + |delays| < |dq0| && dq == Spliced(dq0, bgn, delays)
    ensures |dq| == |dq0| && dq[bgn + |delays|] == dq0[bgn + |delays|]
  {
  }

  lemma OtherRegister(dq0: seq<int>, bgn: nat, delays: seq<int>, dq: seq<int>)
    requires bgn + |delays| < |dq0| && dq == Spliced(dq0, bgn, delays) && dq0[bgn + |delays|] == 0
    ensures |dq| == |dq0| && dq[|delays|] == Other(dq0[..bgn], delays, |delays|)
  {
  }

  lemma SplicedMore(dq: seq<int>, bgn: nat, delays: seq<int>, shift: int)
    requires bgn + |delays| < |dq|
    ensures Spliced(dq, bgn, delays)[bgn + |delays| := shift] == Spliced(dq, bgn, delays + [shift])
  {
  }

  /** What the group held before does not matter. */
  lemma SplicedOver(dq: seq<int>, dq': seq<int>, bgn: nat, delays: seq<int>)
    requires |dq| == |dq'| && bgn + |delays| <= |dq|
    requires forall k :: 0 <= k < |dq| && !(bgn <= k < bgn + |delays|) ==> dq[k] == dq'[k]
    ensures Spliced(dq, bgn, delays) == Spliced(dq', bgn, delays)
  {
    assert dq[..bgn] == dq'[..bgn] && dq[bgn + |delays|..] == dq'[bgn + |delays|..];
  }

  function Zeros(n: nat): seq<int> {
    seq(n, _ => 0)
  }

  lemma SplicedZeros(dq: seq<int>, bgn: nat, n: nat, dq': seq<int>, dqMax: nat)
    requires bgn + n <= |dq| && dq' == Spliced(dq, bgn, Zeros(n)) && InRange(dq, dqMax)
    ensures |dq'| == |dq| && InRange(dq', dqMax) && dq'[..bgn] == dq[..bgn]
    ensures forall k :: 0 <= k < |dq| ==> dq'[k] == if bgn <= k < bgn + n then 0 else dq[k]
  {
  }

  // ---- the whole group -----------------------------------------------------------------------

  datatype Outcome = NoWindow(pin: nat) | Margins(dq: int, dqs: int)

  /** Number of steps of the right sweep. */
  function Taps(dqsMax: nat, start: int): nat
    requires start <= dqsMax
  {
    dqsMax - start + 1
  }

  /** The first half of a group: the left sweep, then pins back at 0 and the edges reset. */
  method SweepLeftHalf(scc: Scc, bgn: nat, side: Side, left: array<int>, right: array<int>)
    returns (seen: set<nat>, ghost tested: nat, ghost left0: seq<int>, ghost right0: seq<int>)
    requires bgn + scc.pins <= scc.dq.Length
    requires left.Length == right.Length == scc.pins
    requires left != right && left != scc.dq && right != scc.dq
    requires forall i :: 0 <= i < left.Length ==> left[i] == right[i] == scc.dqMax + 1
    modifies scc`tests, scc.dq, left, right
    ensures scc.tests == old(scc.tests) + tested
    ensures forall k :: 0 <= k < scc.dq.Length ==>
              scc.dq[k] == if bgn <= k < bgn + scc.pins then 0 else old(scc.dq[k])
    ensures LeftDone(DelayPins(scc.pinPass, old(scc.tests), scc.dqs), scc.pins, scc.dqMax, tested, left0, right0)
    ensures Reset(scc.dqMax + 1, left0, right0, left[..], right[..])
    ensures seen == SeenPins(side, scc.dqMax + 1, left[..], right[..])
    ensures seen == LeftSeen(DelayPins(scc.pinPass, old(scc.tests), scc.dqs), side, scc.pins, scc.dqMax)
  {
    ghost var l := DelayPins(scc.pinPass, scc.tests, scc.dqs);
    tested := LeftSweep(scc, bgn, left, right);
    left0, right0 := left[..], right[..];
    scc.ApplyGroupDq(bgn, 0);
    seen := ResetEdges(side, scc.dqMax + 1, left, right);
    assert left[..] == left0;
    SeenPinsAreLeftSeen(l, side, scc.pins, scc.dqMax, tested, left0, right0, right[..]);
  }

  /** Both sweeps, one after the other. */
  method SweepGroup(scc: Scc, bgn: nat, side: Side)
    returns (left: seq<int>, right: seq<int>, ghost l: Sweep, ghost r: Sweep)
    requires bgn + scc.pins <= scc.dq.Length
    requires 0 <= scc.dqs <= scc.dqsMax <= scc.dqMax
    modifies scc`tests, scc`dqs, scc.dq
    ensures l == DelayPins(scc.pinPass, old(scc.tests), old(scc.dqs))
    ensures r == DelayStrobe(scc.pinPass, r.t, old(scc.dqs)) && old(scc.tests) < r.t <= old(scc.tests) + scc.dqMax + 1
    ensures Scanned(l, r, side, scc.pins, scc.dqMax, Taps(scc.dqsMax, old(scc.dqs)), left, right)
    ensures old(scc.dqs) <= scc.dqs <= scc.dqsMax
    ensures SweepLength(r, scc.pins, LeftSeen(l, side, scc.pins, scc.dqMax), Taps(scc.dqsMax, old(scc.dqs)),
                        scc.dqs - old(scc.dqs) + 1)
    ensures scc.tests == r.t + (scc.dqs - old(scc.dqs) + 1)
    ensures forall k :: 0 <= k < scc.dq.Length ==>
              scc.dq[k] == if bgn <= k < bgn + scc.pins then 0 else old(scc.dq[k])
  {
    var start := scc.dqs;
    var none := scc.dqMax + 1;
    var leftEdge := new int[scc.pins](_ => none);
    var rightEdge := new int[scc.pins](_ => none);
    l := DelayPins(scc.pinPass, scc.tests, start);
    var seen;
    ghost var tested, left0, right0;
    seen, tested, left0, right0 := SweepLeftHalf(scc, bgn, side, leftEdge, rightEdge);
    ghost var right1 := rightEdge[..];
    r := DelayStrobe(scc.pinPass, scc.tests, start);
    ghost var tested' := RightSweep(scc, bgn, side, start, seen, leftEdge, rightEdge);
    left, right := leftEdge[..], rightEdge[..];
    ScannedIntro(l, r, side, scc.pins, scc.dqMax, Taps(scc.dqsMax, start), tested, tested', left0, right0,
                 right1, left, right);
  }

  lemma ScannedIntro(l: Sweep, r: Sweep, side: Side, pins: nat, dqMax: nat, range: nat, tested: nat, tested': nat,
                     left0: seq<int>, right0: seq<int>, right1: seq<int>, left: seq<int>, right: seq<int>)
    requires LeftDone(l, pins, dqMax, tested, left0, right0)
    requires Reset(dqMax + 1, left0, right0, left0, right1)
    requires RightDone(r, side, pins, dqMax, range, tested', left0, right1, left, right)
    ensures Scanned(l, r, side, pins, dqMax, range, left, right)
  {
  }

  /** The first pin without a window, or the number of pins. */
  method FirstMissing(none: int, left: seq<int>, right: seq<int>) returns (pin: nat)
    requires |left| == |right|
    ensures pin <= |left|
    ensures pin < |left| ==> left[pin] == none || right[pin] == none
    ensures forall i :: 0 <= i < pin ==> left[i] != none && right[i] != none
  {
    for i := 0 to |left|
      invariant forall k :: 0 <= k < i ==> left[k] != none && right[k] != none
    {
      if left[i] == none || right[i] == none {
        return i;
      }
    }
    pin := |left|;
  }

  /** `pin` is the first pin that was missed, or the number of pins when there is none. */
  ghost predicate FirstMissed(l: Sweep, r: Sweep, pins: nat, dqMax: nat, range: nat, pin: nat) {
    && pin <= pins
    && (pin < pins ==> Missed(l, r, pin, dqMax, range))
    && forall i: nat :: i < pin ==> !Missed(l, r, i, dqMax, range)
  }

  lemma FirstMissingIsFirstMissed(l: Sweep, r: Sweep, side: Side, pins: nat, dqMax: nat, range: nat,
                                  left: seq<int>, right: seq<int>, pin: nat)
    requires 0 < range <= dqMax + 1 && Scanned(l, r, side, pins, dqMax, range, left, right)
    requires |left| == |right| == pins && pin <= pins
    requires pin < pins ==> left[pin] == dqMax + 1 || right[pin] == dqMax + 1
    requires forall i :: 0 <= i < pin ==> left[i] != dqMax + 1 && right[i] != dqMax + 1
    ensures FirstMissed(l, r, pins, dqMax, range, pin)
  {
    forall i: nat | i < pins
      ensures left[i] == dqMax + 1 || right[i] == dqMax + 1 <==> Missed(l, r, i, dqMax, range)
    {
      NoEdgeIffMissed(l, r, side, pins, dqMax, range, left, right, i);
    }
  }

  /** The edges of all pins, and the first pin that was missed. */
  method FindEdges(scc: Scc, bgn: nat, side: Side)
    returns (pin: nat, left: seq<int>, right: seq<int>, ghost l: Sweep, ghost r: Sweep)
    requires bgn + scc.pins <= scc.dq.Length
    requires 0 <= scc.dqs <= scc.dqsMax <= scc.dqMax
    modifies scc`tests, scc`dqs, scc.dq
    ensures l == DelayPins(scc.pinPass, old(scc.tests), old(scc.dqs))
    ensures r == DelayStrobe(scc.pinPass, r.t, old(scc.dqs)) && old(scc.tests) < r.t <= old(scc.tests) + scc.dqMax + 1
    ensures Scanned(l, r, side, scc.pins, scc.dqMax, Taps(scc.dqsMax, old(scc.dqs)), left, right)
    ensures FirstMissed(l, r, scc.pins, scc.dqMax, Taps(scc.dqsMax, old(scc.dqs)), pin)
    ensures |left| == |right| == scc.pins && old(scc.dqs) <= scc.dqs <= scc.dqsMax
    ensures SweepLength(r, scc.pins, LeftSeen(l, side, scc.pins, scc.dqMax), Taps(scc.dqsMax, old(scc.dqs)),
                        scc.dqs - old(scc.dqs) + 1)
    ensures scc.tests > r.t
    ensures scc.dq[..] == Spliced(old(scc.dq[..]), bgn, Zeros(scc.pins))
  {
    ghost var dq0, start := scc.dq[..], scc.dqs;
    left, right, l, r := SweepGroup(scc, bgn, side);
    ScannedLengths(l, r, side, scc.pins, scc.dqMax, Taps(scc.dqsMax, start), left, right);
    pin := FirstMissing(scc.dqMax + 1, left, right);
    FirstMissingIsFirstMissed(l, r, side, scc.pins, scc.dqMax, Taps(scc.dqsMax, start), left, right, pin);
    assert scc.dq[..] == Spliced(dq0, bgn, Zeros(scc.pins));
  }

  /** DQS stands at the tap of the last test of the right sweep of the write side. */
  ghost predicate LeftWhereStopped(l: Sweep, r: Sweep, pins: nat, dqMax: nat, dqsMax: nat, start: int, dqs: int) {
    && 0 <= start <= dqs <= dqsMax
    && SweepLength(r, pins, LeftSeen(l, WriteSide, pins, dqMax), Taps(dqsMax, start), dqs - start + 1)
  }

  /** What becomes of the edges: centred pins, or the report of the first pin that has none. */
  method CentreOrReport(scc: Scc, bgn: nat, side: Side, start: int, pin: nat, left: seq<int>, right: seq<int>)
    returns (outcome: Outcome, ghost delays: seq<int>)
    requires pin <= scc.pins == |left| == |right| && 0 < scc.pins && bgn + scc.pins <= scc.dq.Length
    requires 0 <= start <= scc.dqsMax && InRange(scc.dq[..], scc.dqMax)
    requires forall k :: bgn <= k < bgn + scc.pins ==> scc.dq[k] == 0
    modifies scc`dqs, scc.dq
    ensures |delays| == scc.pins && scc.dq[..] == Spliced(old(scc.dq[..]), bgn, delays)
    ensures pin < scc.pins ==>
              && outcome == NoWindow(pin) && delays == Zeros(scc.pins)
              && scc.dqs == if side == ReadSide then start else old(scc.dqs)
    ensures pin == scc.pins ==>
              && outcome.Margins?
              && Centred(side, old(scc.dq[..])[..bgn], scc.dqMax, scc.dqsMax, start, left, right, delays, scc.dqs,
                         outcome.dq, outcome.dqs)
  {
    if pin < scc.pins {
      // The read side puts DQS back so that the caller can retry; the write side leaves it.
      if side == ReadSide {
        scc.dqs := start;
      }
      delays := Zeros(scc.pins);
      assert scc.dq[..] == Spliced(scc.dq[..], bgn, delays);
      outcome := NoWindow(pin);
    } else {
      var dqMargin, dqsMargin;
      dqMargin, dqsMargin, delays := CentrePins(scc, bgn, side, start, left, right);
      outcome := Margins(dqMargin, dqsMargin);
    }
  }

  /** On failure the pins are left undelayed; the write side also leaves DQS where the sweep stopped. */
  method CentreGroup(scc: Scc, bgn: nat, side: Side)
    returns (outcome: Outcome, left: seq<int>, right: seq<int>, ghost delays: seq<int>, ghost l: Sweep, ghost r: Sweep)
    requires 0 < scc.pins && bgn + scc.pins <= scc.dq.Length && InRange(scc.dq[..], scc.dqMax)
    requires 0 <= scc.dqs <= scc.dqsMax <= scc.dqMax
    modifies scc`tests, scc`dqs, scc.dq
    ensures l == DelayPins(scc.pinPass, old(scc.tests), old(scc.dqs))
    ensures r == DelayStrobe(scc.pinPass, r.t, old(scc.dqs)) && old(scc.tests) < r.t <= old(scc.tests) + scc.dqMax + 1
    ensures r.t < scc.tests
    ensures Scanned(l, r, side, scc.pins, scc.dqMax, Taps(scc.dqsMax, old(scc.dqs)), left, right)
    ensures FirstMissed(l, r, scc.pins, scc.dqMax, Taps(scc.dqsMax, old(scc.dqs)),
                        if outcome.NoWindow? then outcome.pin else scc.pins)
    ensures |delays| == scc.pins && scc.dq[..] == Spliced(old(scc.dq[..]), bgn, delays)
    ensures outcome.NoWindow? ==>
              && outcome.pin < scc.pins && delays == Zeros(scc.pins)
              && (side == ReadSide ==> scc.dqs == old(scc.dqs))
              && (side == WriteSide ==> LeftWhereStopped(l, r, scc.pins, scc.dqMax, scc.dqsMax, old(scc.dqs), scc.dqs))
    ensures outcome.Margins? ==>
              Centred(side, old(scc.dq[..])[..bgn], scc.dqMax, scc.dqsMax, old(scc.dqs), left, right, delays,
                      scc.dqs, outcome.dq, outcome.dqs)
  {
    var start := scc.dqs;
    ghost var dq0 := scc.dq[..];
    var pin;
    pin, left, right, l, r := FindEdges(scc, bgn, side);
    ghost var dq1 := scc.dq[..];
    SplicedZeros(dq0, bgn, scc.pins, dq1, scc.dqMax);
    outcome, delays := CentreOrReport(scc, bgn, side, start, pin, left, right);
    SplicedOver(dq0, dq1, bgn, delays);
  }

  // ---- what centring guarantees --------------------------------------------------------------

  /**
   A write side that misses a pin leaves DQS moved, unless there was no tap to move it to. It ends at the last
   tap when a missed pin passes no test of the right sweep.
   */
  lemma DqsRestoredIff(l: Sweep, r: Sweep, pins: nat, dqMax: nat, dqsMax: nat, start: int, dqs: int, pin: nat)
    requires LeftWhereStopped(l, r, pins, dqMax, dqsMax, start, dqs)
    requires pin < pins && Missed(l, r, pin, dqMax, Taps(dqsMax, start))
    ensures dqs == start <==> start == dqsMax
    ensures (forall k: nat :: k < Taps(dqsMax, start) ==> !r.At(pin, k)) ==> dqs == dqsMax
  {
    var seen := LeftSeen(l, WriteSide, pins, dqMax);
    assert pin !in seen;
    if dqs < dqsMax {
      assert StopsAt(r, pins, seen, dqs - start);
      assert !r.At(pin, dqs - start) && PassedBefore(r, pin, dqs - start);
    }
  }

  /** A memory that answers nothing correctly: the write side leaves DQS at its last tap, wherever it was. */
  lemma DeadMemoryMovesDqs(pass: (nat, nat, int, int) -> bool, t: nat, t': nat, pins: nat, dqMax: nat, dqsMax: nat,
                           start: int, dqs: int)
    requires 0 < pins && forall u: nat, i: nat, x: int, y: int :: !pass(u, i, x, y)
    requires LeftWhereStopped(DelayPins(pass, t, start), DelayStrobe(pass, t', start), pins, dqMax, dqsMax, start, dqs)
    ensures dqs == dqsMax
  {
    DqsRestoredIff(DelayPins(pass, t, start), DelayStrobe(pass, t', start), pins, dqMax, dqsMax, start, dqs, 0);
  }

  /** On a repeatable memory a pin is reported missing exactly when it passes nowhere in the swept range. */
  lemma MissedIffPassesNowhere(pass: (nat, nat, int, int) -> bool, t: nat, t': nat, start: int, p: (nat, int) -> bool,
                               i: nat, dqMax: nat, range: nat)
    requires 0 < range && OffsetOnly(pass, start, p)
    ensures Missed(DelayPins(pass, t, start), DelayStrobe(pass, t', start), i, dqMax, range)
       <==> forall o :: -(dqMax as int) <= o < range ==> !p(i, o)
  {
    var l, r := DelayPins(pass, t, start), DelayStrobe(pass, t', start);
    assert forall k: nat :: l.At(i, k) == p(i, -(k as int));
    assert forall k: nat :: r.At(i, k) == p(i, k);
    if Missed(l, r, i, dqMax, range) {
      assert !l.At(i, 0) && !p(i, 0);
      forall o | -(dqMax as int) <= o < range
        ensures !p(i, o)
      {
        if o <= 0 {
          var k: nat := -o;
          assert !l.At(i, k);
        } else {
          var k: nat := o;
          assert !r.At(i, k);
        }
      }
    }
  }

  /** A memory that passes at offset 0 only after the left sweep: the pin works, yet it is reported missing. */
  lemma MarginalPinCanBeMissed(pass: (nat, nat, int, int) -> bool, t: nat, start: int, dqMax: nat)
    requires forall u: nat, i: nat, x: int, y: int :: pass(u, i, x, y) <==> u > t + dqMax && x == 0
    ensures Missed(DelayPins(pass, t, start), DelayStrobe(pass, t + dqMax + 1, start), 0, dqMax, 1)
    ensures DelayStrobe(pass, t + dqMax + 1, start).At(0, 0)
  {
    assert DelayStrobe(pass, t + dqMax + 1, start).At(0, 0);
  }

  ghost predicate Windows(p: (nat, int) -> bool, lo: int, hi: int, windows: seq<(int, int)>) {
    forall i: nat :: i < |windows| ==> Window(p, i, lo, hi, windows[i].0, windows[i].1)
  }

  /** The recorded edges are the ends of the windows. */
  ghost predicate EdgesMatch(windows: seq<(int, int)>, left: seq<int>, right: seq<int>) {
    && |left| == |right| == |windows|
    && forall i: nat :: i < |windows| ==> left[i] == -windows[i].0 && right[i] == windows[i].1
  }

  lemma AllEdgesExact(pass: (nat, nat, int, int) -> bool, t: nat, t': nat, start: int, p: (nat, int) -> bool,
                      windows: seq<(int, int)>, side: Side, dqMax: nat, dqsMax: nat, left: seq<int>, right: seq<int>)
    requires 0 <= start <= dqsMax <= dqMax && OffsetOnly(pass, start, p)
    requires Windows(p, -(dqMax as int), dqsMax - start, windows)
    requires Scanned(DelayPins(pass, t, start), DelayStrobe(pass, t', start), side, |windows|, dqMax,
                     Taps(dqsMax, start), left, right)
    ensures EdgesMatch(windows, left, right)
  {
    ScannedLengths(DelayPins(pass, t, start), DelayStrobe(pass, t', start), side, |windows|, dqMax,
                   Taps(dqsMax, start), left, right);
    forall i: nat | i < |windows|
      ensures left[i] == -windows[i].0 && right[i] == windows[i].1
    {
      EdgesExact(pass, t, t', start, p, side, |windows|, dqMax, Taps(dqsMax, start), left, right, i,
                 windows[i].0, windows[i].1);
    }
  }

  lemma ScannedLengths(l: Sweep, r: Sweep, side: Side, pins: nat, dqMax: nat, range: nat, left: seq<int>,
                       right: seq<int>)
    requires Scanned(l, r, side, pins, dqMax, range, left, right)
    ensures |left| == |right| == pins
  {
  }

  /** Both margins are nonnegative exactly when every pin ends inside its window. */
  lemma MarginsExact(windows: seq<(int, int)>, side: Side, below: seq<int>, dqMax: nat, dqsMax: nat, start: int,
                     left: seq<int>, right: seq<int>, delays: seq<int>, dqs: int, dqMargin: int, dqsMargin: int)
    requires EdgesMatch(windows, left, right)
    requires Centred(side, below, dqMax, dqsMax, start, left, right, delays, dqs, dqMargin, dqsMargin)
    ensures dqMargin >= 0 && dqsMargin >= 0 <==> Inside(windows, start, delays, dqs)
  {
  }

  ghost predicate Inside(windows: seq<(int, int)>, start: int, delays: seq<int>, dqs: int) {
    && |delays| == |windows|
    && forall i: nat :: i < |windows| ==> windows[i].0 <= Offset(start, dqs, delays[i]) <= windows[i].1
  }

  lemma InsideAllPass(pass: (nat, nat, int, int) -> bool, start: int, p: (nat, int) -> bool,
                      windows: seq<(int, int)>, lo: int, hi: int, delays: seq<int>, dqs: int)
    requires OffsetOnly(pass, start, p) && Windows(p, lo, hi, windows) && Inside(windows, start, delays, dqs)
    ensures AllPass(pass, delays, dqs)
  {
    forall u: nat, i: nat | i < |windows|
      ensures pass(u, i, delays[i], dqs)
    {
      InsidePasses(pass, start, p, i, lo, hi, windows[i].0, windows[i].1, delays[i], dqs, u);
    }
  }

  lemma InsidePasses(pass: (nat, nat, int, int) -> bool, start: int, p: (nat, int) -> bool, i: nat, lo: int, hi: int,
                     a: int, b: int, delay: int, dqs: int, u: nat)
    requires OffsetOnly(pass, start, p) && Window(p, i, lo, hi, a, b) && a <= Offset(start, dqs, delay) <= b
    ensures pass(u, i, delay, dqs)
  {
  }

  ghost predicate AllPass(pass: (nat, nat, int, int) -> bool, delays: seq<int>, dqs: int) {
    forall u: nat, i: nat :: i < |delays| ==> pass(u, i, delays[i], dqs)
  }

  /** When centring succeeds, every pin passes every later test at the programmed settings. */
  lemma CentringSound(pass: (nat, nat, int, int) -> bool, t: nat, t': nat, start: int, p: (nat, int) -> bool,
                      windows: seq<(int, int)>, side: Side, below: seq<int>, dqMax: nat, dqsMax: nat,
                      left: seq<int>, right: seq<int>, delays: seq<int>, dqs: int, dqMargin: int, dqsMargin: int)
    requires 0 <= start <= dqsMax <= dqMax && OffsetOnly(pass, start, p)
    requires Windows(p, -(dqMax as int), dqsMax - start, windows)
    requires Scanned(DelayPins(pass, t, start), DelayStrobe(pass, t', start), side, |windows|, dqMax,
                     Taps(dqsMax, start), left, right)
    requires Centred(side, below, dqMax, dqsMax, start, left, right, delays, dqs, dqMargin, dqsMargin)
    requires dqMargin >= 0 && dqsMargin >= 0
    ensures AllPass(pass, delays, dqs)
  {
    AllEdgesExact(pass, t, t', start, p, windows, side, dqMax, dqsMax, left, right);
    CentredAllPass(pass, start, p, windows, side, below, dqMax, dqsMax, left, right, delays, dqs, dqMargin, dqsMargin);
  }

  lemma CentredAllPass(pass: (nat, nat, int, int) -> bool, start: int, p: (nat, int) -> bool, windows: seq<(int, int)>,
                       side: Side, below: seq<int>, dqMax: nat, dqsMax: nat,
                       left: seq<int>, right: seq<int>, delays: seq<int>, dqs: int, dqMargin: int, dqsMargin: int)
    requires OffsetOnly(pass, start, p) && Windows(p, -(dqMax as int), dqsMax - start, windows)
    requires EdgesMatch(windows, left, right)
    requires Centred(side, below, dqMax, dqsMax, start, left, right, delays, dqs, dqMargin, dqsMargin)
    requires dqMargin >= 0 && dqsMargin >= 0
    ensures AllPass(pass, delays, dqs)
  {
    MarginsExact(windows, side, below, dqMax, dqsMax, start, left, right, delays, dqs, dqMargin, dqsMargin);
    InsideAllPass(pass, start, p, windows, -(dqMax as int), dqsMax - start, delays, dqs);
  }

  /**
   A pin whose shift is in range sits in the middle, also when DQS was clamped; a tap that cannot be shared goes to
   the right when the least mid is odd, else to the left.
   */
  lemma CentringBalanced(side: Side, below: seq<int>, dqMax: nat, dqsMax: nat, start: int, mid: int, left: seq<int>,
                         right: seq<int>, delays: seq<int>, dqs: int, dqMargin: int, dqsMargin: int, i: nat)
    requires Centred(side, below, dqMax, dqsMax, start, left, right, delays, dqs, dqMargin, dqsMargin)
    requires LeastMid(left, right, mid) && i < |delays|
    requires 0 <= Shift(left[i], right[i], mid, start, dqs) <= dqMax
    ensures Imbalance(left[i], right[i], start, dqs, delays[i]) == Rounding(left[i], right[i], mid)
  {
    CentredDelay(side, below, dqMax, dqsMax, start, mid, left, right, delays, dqs, dqMargin, dqsMargin, i);
    Balanced(left[i], right[i], mid, start, dqs);
  }

  /** How much more room a pin has to its left than to its right. */
  function Imbalance(left: int, right: int, start: int, dqs: int, delay: int): int {
    LeftRoom(left, start, dqs, delay) - RightRoom(right, start, dqs, delay)
  }

  /** The register of a pin, in terms of the least mid. */
  lemma CentredDelay(side: Side, below: seq<int>, dqMax: nat, dqsMax: nat, start: int, mid: int, left: seq<int>,
                     right: seq<int>, delays: seq<int>, dqs: int, dqMargin: int, dqsMargin: int, i: nat)
    requires Centred(side, below, dqMax, dqsMax, start, left, right, delays, dqs, dqMargin, dqsMargin)
    requires LeastMid(left, right, mid) && i < |delays|
    ensures mid <= left[i] - right[i] && dqs == NewDqs(side, start, mid, dqsMax)
    ensures Programmed(Shift(left[i], right[i], mid, start, dqs), delays[i], dqMax, Other(below, delays, i))
  {
    var mid' :| LeastMid(left, right, mid') && dqs == NewDqs(side, start, mid', dqsMax)
                && AllProgrammed(below, dqMax, start, mid', dqs, left, right, delays);
    assert mid' == mid;
  }

  /** The pin that defines the least mid is balanced whenever the read side does not have to clamp DQS. */
  lemma LeastPinBalanced(below: seq<int>, dqMax: nat, dqsMax: nat, start: int, mid: int, left: seq<int>,
                         right: seq<int>, delays: seq<int>, dqs: int, dqMargin: int, dqsMargin: int, i: nat)
    requires Centred(ReadSide, below, dqMax, dqsMax, start, left, right, delays, dqs, dqMargin, dqsMargin)
    requires LeastMid(left, right, mid) && i < |delays| && left[i] - right[i] == mid
    requires 0 <= start - Bias(mid) <= dqsMax
    ensures delays[i] == 0 && Imbalance(left[i], right[i], start, dqs, 0) == -(mid % 2)
  {
    CentredDelay(ReadSide, below, dqMax, dqsMax, start, mid, left, right, delays, dqs, dqMargin, dqsMargin, i);
    CentringBalanced(ReadSide, below, dqMax, dqsMax, start, mid, left, right, delays, dqs, dqMargin, dqsMargin, i);
  }

  /** No position of DQS would put a pin without delay nearer to its middle, and no lower one as near. */
  ghost predicate DqsNearest(left: int, right: int, start: int, dqs: int, dqsMax: nat) {
    && 0 <= dqs <= dqsMax
    && forall x :: 0 <= x <= dqsMax && x != dqs ==>
         var off, off' := Abs(Imbalance(left, right, start, dqs, 0)), Abs(Imbalance(left, right, start, x, 0));
         off < off' || (off == off' && dqs < x)
  }

  /** DQS is put where it is best for the pin that defines the least mid, clamped or not; the write side leaves it. */
  lemma DqsIsNearest(side: Side, below: seq<int>, dqMax: nat, dqsMax: nat, start: int, mid: int, left: seq<int>,
                     right: seq<int>, delays: seq<int>, dqs: int, dqMargin: int, dqsMargin: int, i: nat)
    requires Centred(side, below, dqMax, dqsMax, start, left, right, delays, dqs, dqMargin, dqsMargin)
    requires LeastMid(left, right, mid) && i < |delays| && left[i] - right[i] == mid
    ensures side == ReadSide ==> DqsNearest(left[i], right[i], start, dqs, dqsMax)
    ensures side == WriteSide ==> dqs == start
  {
    CentredDelay(side, below, dqMax, dqsMax, start, mid, left, right, delays, dqs, dqMargin, dqsMargin, i);
    if side == ReadSide {
      ClampNearest(left[i], right[i], mid, start, dqsMax);
    }
  }

  lemma ClampNearest(left: int, right: int, mid: int, start: int, dqsMax: nat)
    requires left - right == mid
    ensures DqsNearest(left, right, start, NewDqs(ReadSide, start, mid, dqsMax), dqsMax)
  {
    assert forall x :: Imbalance(left, right, start, x, 0) == mid + 2 * (x - start);
    assert -1 <= mid - 2 * Bias(mid) <= 0;
  }

  /** No value of the register would put the pin nearer to the middle. */
  ghost predicate Nearest(left: int, right: int, start: int, dqs: int, delay: int, dqMax: nat) {
    forall x :: 0 <= x <= dqMax ==>
      Abs(Imbalance(left, right, start, dqs, delay)) <= Abs(Imbalance(left, right, start, dqs, x))
  }

  function Abs(x: int): int {
    if x < 0 then -x else x
  }

  /**
   Every pin is put as near to its middle as its register allows, except exactly those that want more than
   the last tap while register i, which the upper clamp looks at, is not 0.
   */
  lemma CentringNearest(side: Side, below: seq<int>, dqMax: nat, dqsMax: nat, start: int, mid: int, left: seq<int>,
                        right: seq<int>, delays: seq<int>, dqs: int, dqMargin: int, dqsMargin: int, i: nat)
    requires Centred(side, below, dqMax, dqsMax, start, left, right, delays, dqs, dqMargin, dqsMargin)
    requires LeastMid(left, right, mid) && i < |delays|
    ensures Nearest(left[i], right[i], start, dqs, delays[i], dqMax)
       <==> Shift(left[i], right[i], mid, start, dqs) <= dqMax || Other(below, delays, i) == 0
  {
    CentredDelay(side, below, dqMax, dqsMax, start, mid, left, right, delays, dqs, dqMargin, dqsMargin, i);
    ProgrammedNearest(left[i], right[i], mid, start, dqs, delays[i], dqMax, Other(below, delays, i));
  }

  lemma ProgrammedNearest(left: int, right: int, mid: int, start: int, dqs: int, delay: int, dqMax: nat, other: int)
    requires mid <= left - right
    requires Programmed(Shift(left, right, mid, start, dqs), delay, dqMax, other)
    ensures Nearest(left, right, start, dqs, delay, dqMax)
       <==> Shift(left, right, mid, start, dqs) <= dqMax || other == 0
  {
    var shift := Shift(left, right, mid, start, dqs);
    Balanced(left, right, mid, start, dqs);
    var atShift := Imbalance(left, right, start, dqs, shift);
    assert Imbalance(left, right, start, dqs, delay) == atShift + 2 * (shift - delay);
    if shift > dqMax && other != 0 {
      assert Imbalance(left, right, start, dqs, dqMax) == atShift + 2 * (shift - dqMax);
      assert Abs(Imbalance(left, right, start, dqs, dqMax)) < Abs(Imbalance(left, right, start, dqs, delay));
    } else {
      forall x | 0 <= x <= dqMax
        ensures Abs(Imbalance(left, right, start, dqs, delay)) <= Abs(Imbalance(left, right, start, dqs, x))
      {
        assert Imbalance(left, right, start, dqs, x) == atShift + 2 * (shift - x);
      }
    }
  }

  /** The second group of two pins, with 3 in the register of pin 1: pin 3 gets 28 although 31 is nearer. */
  lemma UpperClampFallsShort()
    ensures Centred(ReadSide, [0, 3], 31, 31, 4, [-27, 31], [27, -31], [0, 28], 31, 0, -30)
    ensures !Nearest(31, -31, 4, 31, 28, 31)
  {
    var left, right, delays := [-27, 31], [27, -31], [0, 28];
    assert LeastMid(left, right, -54) by {
      assert left[0] - right[0] == -54;
    }
    assert NewDqs(ReadSide, 4, -54, 31) == 31;
    FallsShortRegisters(left, right, delays);
    FallsShortRoom(left, right, delays);
    assert PartlyCentred([0, 3], 31, 4, -54, 31, left, right, delays, 0, -30);
    CentredIntro(ReadSide, [0, 3], 31, 31, 4, -54, left, right, delays, 31, 0, -30);
    assert Imbalance(31, -31, 4, 31, 28) == 60 && Imbalance(31, -31, 4, 31, 31) == 54;
  }

  lemma FallsShortRegisters(left: seq<int>, right: seq<int>, delays: seq<int>)
    requires left == [-27, 31] && right == [27, -31] && delays == [0, 28]
    ensures AllProgrammed([0, 3], 31, 4, -54, 31, left, right, delays)
  {
    assert Shift(-27, 27, -54, 4, 31) == 0 && Shift(31, -31, -54, 4, 31) == 58;
    assert Other([0, 3], delays, 1) == 3;
  }

  lemma FallsShortRoom(left: seq<int>, right: seq<int>, delays: seq<int>)
    requires left == [-27, 31] && right == [27, -31] && delays == [0, 28]
    ensures LeastLeftRoom(0, 32, left, 4, 31, delays) && LeastRightRoom(-30, 32, right, 4, 31, delays)
  {
    assert LeftRoom(left[0], 4, 31, delays[0]) == 0 && RightRoom(right[1], 4, 31, delays[1]) == -30;
  }
}
