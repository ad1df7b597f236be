/**
 The write side of one DQS group: per-bit deskew of the DQ pins, then centring of the data mask.
 */
module WriteCentre {
  import opened SccManager
  import opened Deskew
  import opened DmCentre

  datatype WriteResult = WriteResult(outcome: Outcome, dm: int) {
    /** The value returned to the caller. */
    predicate Passed() {
      outcome.Margins? && outcome.dq >= 0 && outcome.dqs >= 0 && dm >= 0
    }
  }

  /** What the two sweeps over the pins found and what centring then programmed. */
  ghost predicate PinsCentred(scc: Scc, start: int, t: nat, t': nat, left: seq<int>, right: seq<int>,
                              delays: seq<int>, dqs: int, outcome: Outcome)
  {
    && 0 <= start <= scc.dqsMax <= scc.dqMax && outcome.Margins? && |delays| == scc.pins
    && Scanned(DelayPins(scc.pinPass, t, start), DelayStrobe(scc.pinPass, t', start), WriteSide, scc.pins, scc.dqMax,
               Taps(scc.dqsMax, start), left, right)
    && Centred(WriteSide, [], scc.dqMax, scc.dqsMax, start, left, right, delays, dqs, outcome.dq, outcome.dqs)
  }

  /** What the two sweeps for the data mask found, with the pins as programmed, and where DM was put. */
  ghost predicate MaskCentred(scc: Scc, t: nat, delays: seq<int>, dqs: int, dm: int, win: int, b: int, e: int,
                              margin: int)
  {
    && 0 <= dqs <= scc.dqsMax && 0 <= dm <= scc.dqMax
    && DmSweep(scc.dmPass, delays, dqs, -(scc.dqMax as int), t, t + scc.dqMax + 1).Best(win, b, e,
                                                                                        Taps(scc.dqsMax, dqs))
    && (if win == 0 then dm == 0 else InMiddle(b, e, dm))
    && margin == (if win == 0 then -1 else DmLeftRoom(b, dm))
    && (margin >= 0 <==> win > 0 && b <= -dm <= e)
  }

  lemma SplicedAll(dq: seq<int>, delays: seq<int>)
    requires |dq| == |delays|
    ensures Spliced(dq, 0, delays) == delays
  {
  }

  /** The pins of the group, all of whose registers belong to it. */
  method CentreWritePins(scc: Scc)
    returns (outcome: Outcome, left: seq<int>, right: seq<int>, ghost t': nat)
    requires 0 < scc.pins == scc.dq.Length && InRange(scc.dq[..], scc.dqMax)
    requires 0 <= scc.dqs <= scc.dqsMax <= scc.dqMax
    modifies scc`tests, scc`dqs, scc.dq
    ensures FirstMissed(DelayPins(scc.pinPass, old(scc.tests), old(scc.dqs)),
                        DelayStrobe(scc.pinPass, t', old(scc.dqs)), scc.pins, scc.dqMax,
                        Taps(scc.dqsMax, old(scc.dqs)), if outcome.NoWindow? then outcome.pin else scc.pins)
    ensures old(scc.tests) < t' < scc.tests
    ensures outcome.NoWindow? ==>
              && outcome.pin < scc.pins && scc.dq[..] == Zeros(scc.pins)
              && LeftWhereStopped(DelayPins(scc.pinPass, old(scc.tests), old(scc.dqs)),
                                  DelayStrobe(scc.pinPass, t', old(scc.dqs)), scc.pins, scc.dqMax, scc.dqsMax,
                                  old(scc.dqs), scc.dqs)
    ensures outcome.Margins? ==>
              && scc.dqs == old(scc.dqs)
              && PinsCentred(scc, old(scc.dqs), old(scc.tests), t', left, right, scc.dq[..], scc.dqs, outcome)
  {
    ghost var delays, l, r;
    ghost var dq0 := scc.dq[..];
    outcome, left, right, delays, l, r := CentreGroup(scc, 0, WriteSide);
    t' := r.t;
    SplicedAll(dq0, delays);
  }

  /** The pins first; the data mask only when every pin has a window. */
  method CalibrateWritesCentre(scc: Scc)
    returns (result: WriteResult, left: seq<int>, right: seq<int>, win: int, b: int, e: int, ghost t': nat,
             ghost t'': nat)
    requires 0 < scc.pins == scc.dq.Length && InRange(scc.dq[..], scc.dqMax)
    requires 0 <= scc.dqs <= scc.dqsMax <= scc.dqMax
    modifies scc, scc.dq
    ensures FirstMissed(DelayPins(scc.pinPass, old(scc.tests), old(scc.dqs)),
                        DelayStrobe(scc.pinPass, t', old(scc.dqs)), scc.pins, scc.dqMax,
                        Taps(scc.dqsMax, old(scc.dqs)),
                        if result.outcome.NoWindow? then result.outcome.pin else scc.pins)
    ensures old(scc.tests) < t' < scc.tests
    ensures result.outcome.NoWindow? ==>
              && result.outcome.pin < scc.pins && scc.dm == old(scc.dm) && scc.dq[..] == Zeros(scc.pins)
              && LeftWhereStopped(DelayPins(scc.pinPass, old(scc.tests), old(scc.dqs)),
                                  DelayStrobe(scc.pinPass, t', old(scc.dqs)), scc.pins, scc.dqMax, scc.dqsMax,
                                  old(scc.dqs), scc.dqs)
    ensures result.outcome.Margins? ==>
              && scc.dqs == old(scc.dqs) && t' < t'' < scc.tests
              && PinsCentred(scc, old(scc.dqs), old(scc.tests), t', left, right, scc.dq[..], scc.dqs, result.outcome)
              && MaskCentred(scc, t'', scc.dq[..], scc.dqs, scc.dm, win, b, e, result.dm)
  {
    var outcome;
    win, b, e, t'' := 0, 0, 0, 0;
    outcome, left, right, t' := CentreWritePins(scc);
    if outcome.NoWindow? {
      result := WriteResult(outcome, 0);
    } else {
      t'' := scc.tests;
      var margin;
      ghost var s;
      margin, win, b, e, s := CentreDm(scc, scc.dqs);
      result := WriteResult(outcome, margin);
    }
  }

  lemma CentredPinsWork(scc: Scc, start: int, t: nat, t': nat, p: (nat, int) -> bool, windows: seq<(int, int)>,
                        left: seq<int>, right: seq<int>, delays: seq<int>, dqs: int, outcome: Outcome)
    requires PinsCentred(scc, start, t, t', left, right, delays, dqs, outcome) && |windows| == scc.pins
    requires OffsetOnly(scc.pinPass, start, p) && Windows(p, -(scc.dqMax as int), scc.dqsMax - start, windows)
    requires outcome.dq >= 0 && outcome.dqs >= 0
    ensures AllPass(scc.pinPass, delays, dqs)
  {
    CentringSound(scc.pinPass, t, t', start, p, windows, WriteSide, [], scc.dqMax, scc.dqsMax, left, right, delays, dqs,
                  outcome.dq, outcome.dqs);
  }

  lemma CentredMaskWorks(scc: Scc, t: nat, delays: seq<int>, dqs: int, dm: int, win: int, b: int, e: int,
                         margin: int, u: nat)
    requires MaskCentred(scc, t, delays, dqs, dm, win, b, e, margin) && Repeatable(scc.dmPass) && margin >= 0
    ensures scc.dmPass(u, delays, dqs, dm)
  {
    var s := DmSweep(scc.dmPass, delays, dqs, -(scc.dqMax as int), t, t + scc.dqMax + 1);
    CentredDmPasses(s, win, b, e, Taps(scc.dqsMax, dqs), dm, u);
  }

  /** Write calibration passes exactly when every pin ends inside its window and DM inside that of the masked test. */
  lemma PassedIff(scc: Scc, start: int, t: nat, t': nat, t'': nat, windows: seq<(int, int)>, left: seq<int>,
                  right: seq<int>, delays: seq<int>, dqs: int, dm: int, result: WriteResult, win: int, b: int, e: int)
    requires EdgesMatch(windows, left, right)
    requires PinsCentred(scc, start, t, t', left, right, delays, dqs, result.outcome)
    requires MaskCentred(scc, t'', delays, dqs, dm, win, b, e, result.dm)
    ensures result.Passed() <==> Inside(windows, start, delays, dqs) && win > 0 && b <= -dm <= e
  {
    MarginsExact(windows, WriteSide, [], scc.dqMax, scc.dqsMax, start, left, right, delays, dqs, result.outcome.dq,
                 result.outcome.dqs);
  }

  /**
   A write calibration that passes leaves a group on which every pin and the masked write pass,
   for every memory whose pins answer by offset with one window each and whose masked test is repeatable.
   */
  lemma PassedGroupWorks(scc: Scc, start: int, t: nat, t': nat, t'': nat, p: (nat, int) -> bool,
                         windows: seq<(int, int)>, left: seq<int>, right: seq<int>, delays: seq<int>, dqs: int,
                         dm: int, result: WriteResult, win: int, b: int, e: int, u: nat)
    requires OffsetOnly(scc.pinPass, start, p) && Windows(p, -(scc.dqMax as int), scc.dqsMax - start, windows)
    requires |windows| == scc.pins && Repeatable(scc.dmPass)
    requires result.Passed() && PinsCentred(scc, start, t, t', left, right, delays, dqs, result.outcome)
    requires MaskCentred(scc, t'', delays, dqs, dm, win, b, e, result.dm)
    ensures AllPass(scc.pinPass, delays, dqs) && scc.dmPass(u, delays, dqs, dm)
  {
    CentredPinsWork(scc, start, t, t', p, windows, left, right, delays, dqs, result.outcome);
    CentredMaskWorks(scc, t'', delays, dqs, dm, win, b, e, result.dm, u);
  }
}
