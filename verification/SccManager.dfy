/**
 The scan-chain configuration (SCC) registers of one DQS group and the memory test that is run
 against them. A test outcome may depend on when the test is run (the first argument of the
 oracles), so the model covers noisy as well as repeatable memories.
 */
module SccManager {

  /** Pin numbers of a group; the all-ones mask of a bit field of `pins` bits. */
  predicate IsPin(i: nat, pins: nat) { i < pins }

  function AllPins(pins: nat): (mask: set<nat>) {
    set i: nat | 0 <= i < pins && IsPin(i, pins)
  }

  class Scc {
    const pins: nat      // DQ pins of the group
    const dqMax: nat     // last tap of a DQ delay chain
    const dqsMax: nat    // last tap of the DQS delay chain
    const dq: array<int> // DQ delay registers, at least the pins of the group
    var dqs: int         // DQS delay register
    var dm: int          // DM delay register
    var tests: nat       // memory tests run so far

    // Test number, pin of the group, delay of that pin, DQS delay.
    const pinPass: (nat, nat, int, int) -> bool
    // Test number, all DQ delays, DQS delay, DM delay: do all bits pass with data masking on?
    const dmPass: (nat, seq<int>, int, int) -> bool

    constructor (pins: nat, dqMax: nat, dqsMax: nat, registers: nat,
                 pinPass: (nat, nat, int, int) -> bool, dmPass: (nat, seq<int>, int, int) -> bool)
      ensures fresh(dq) && dq.Length == registers && forall k :: 0 <= k < registers ==> dq[k] == 0
      ensures this.pins == pins && this.dqMax == dqMax && this.dqsMax == dqsMax
      ensures this.pinPass == pinPass && this.dmPass == dmPass
      ensures dqs == 0 && dm == 0 && tests == 0
    {
      this.pins, this.dqMax, this.dqsMax := pins, dqMax, dqsMax;
      this.pinPass, this.dmPass := pinPass, dmPass;
      dq := new int[registers](_ => 0);
      dqs, dm, tests := 0, 0, 0;
    }

    /** Load one delay into every DQ pin of the group, whose registers start at `bgn`. */
    method ApplyGroupDq(bgn: nat, delay: int)
      requires bgn + pins <= dq.Length
      modifies dq
      ensures forall k :: 0 <= k < dq.Length ==>
                dq[k] == if bgn <= k < bgn + pins then delay else old(dq[k])
    {
      for i := 0 to pins
        invariant forall k :: 0 <= k < dq.Length ==>
                    dq[k] == if bgn <= k < bgn + i then delay else old(dq[k])
      {
        dq[bgn + i] := delay;
      }
    }

    /** A test that reports every pin: the set of pins that read back correctly. */
    method TestPins(bgn: nat) returns (bits: set<nat>)
      requires bgn + pins <= dq.Length
      modifies this`tests
      ensures tests == old(tests) + 1
      ensures forall i: nat :: i in bits <==> i < pins && pinPass(old(tests), i, dq[bgn + i], dqs)
    {
      bits := set i: nat | 0 <= i < pins && IsPin(i, pins) && pinPass(tests, i, dq[bgn + i], dqs);
      assert forall i: nat :: IsPin(i, pins) <==> i < pins;
      tests := tests + 1;
    }

    /** A test with data masking that passes only when every bit passes. */
    method TestMask() returns (pass: bool)
      modifies this`tests
      ensures tests == old(tests) + 1
      ensures pass == dmPass(old(tests), dq[..], dqs, dm)
    {
      pass := dmPass(tests, dq[..], dqs, dm);
      tests := tests + 1;
    }
  }
}
