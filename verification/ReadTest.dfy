/**
 The read test of a group: the error words of its virtual groups, over all ranks that are not
 skipped, combined into one bit per pin. A set of bit numbers stands for a 32-bit field.
 */
module ReadTest {
  import opened Modular

  const WIDTH: nat := 32

  predicate IsBit(b: nat, n: nat) { b < n }

  /** The field (1 << n) - 1. */
  function LowBits(n: nat): (mask: set<nat>)
    ensures forall b: nat :: b in mask <==> b < n
  {
    var mask := set b: nat | 0 <= b < n && IsBit(b, n);
    assert forall b: nat :: b in mask <==> IsBit(b, n);
    mask
  }

  /** Shift left; bits that leave the field are lost. */
  function ShiftLeft(field: set<nat>, n: nat): (r: set<nat>)
    ensures forall b: nat :: b in r <==> n <= b < WIDTH && b - n in field
  {
    var r := set b: nat | 0 <= b < WIDTH && IsBit(b, WIDTH) && n <= b && b - n in field;
    assert forall b: nat :: b in r <==> IsBit(b, WIDTH) && n <= b && b - n in field;
    r
  }

  /** Bit `b` of the group belongs to virtual group b / w and is bit b % w of its error word. */
  predicate BitPasses(errors: (nat, nat) -> set<nat>, rank: nat, w: nat, b: nat)
    requires w > 0
  {
    b % w !in errors(rank, b / w)
  }

  /** The test of one rank: the virtual groups are read from the top one down. */
  method TestRank(errors: (nat, nat) -> set<nat>, rank: nat, groups: nat, w: nat) returns (field: set<nat>)
    requires 0 < groups && 0 < w && groups * w <= WIDTH
    ensures forall b: nat :: b in field <==> b < groups * w && BitPasses(errors, rank, w, b)
  {
    field := {};
    var v := groups;
    assert 0 * w == 0;
    while v > 0
      invariant v <= groups
      invariant forall b: nat :: b in field <==> b < (groups - v) * w && Clear(errors, rank, v, w, b)
    {
      v := v - 1;
      ghost var before := field;
      field := ShiftLeft(field, w);
      field := field + (LowBits(w) - errors(rank, v));
      ghost var lo, hi := (groups - (v + 1)) * w, (groups - v) * w;
      assert hi == lo + w && hi <= WIDTH && 0 <= lo by {
        assert groups * w == (groups - v) * w + v * w;
        MulNonNegative(v, w);
        MulNonNegative(groups - (v + 1), w);
      }
      ShiftIn(errors, rank, lo, hi, w, v, before, field);
    }
  }

  lemma ShiftedBit(b: nat, w: nat)
    requires w > 0
    ensures b < w ==> b / w == 0 && b % w == b
    ensures b >= w ==> (b - w) / w == b / w - 1 && (b - w) % w == b % w
  {
    if b < w {
      DivModUnique(b, 0, b, w);
    } else {
      AddMultiple(b - w, 1, w);
    }
  }

  /** Bit `b` is clear in the error words from virtual group `v` up. */
  predicate Clear(errors: (nat, nat) -> set<nat>, rank: nat, v: nat, w: nat, b: nat)
    requires w > 0
  {
    b % w !in errors(rank, v + b / w)
  }

  /** One bit after a group is shifted in: a low bit is new, another one comes from one group below. */
  lemma ShiftInBit(errors: (nat, nat) -> set<nat>, rank: nat, lo: nat, hi: nat, w: nat, v: nat, b: nat,
                   before: bool, after: bool)
    requires 0 < w && hi == lo + w <= WIDTH
    requires b >= w ==> (before <==> b - w < lo && Clear(errors, rank, v + 1, w, b - w))
    requires after <==> (w <= b < WIDTH && before) || (b < w && b !in errors(rank, v))
    ensures after <==> b < hi && Clear(errors, rank, v, w, b)
  {
    ShiftedBit(b, w);
    if b < w {
      assert v + b / w == v;
    } else {
      assert v + 1 + (b - w) / w == v + b / w;
    }
  }

  lemma ShiftIn(errors: (nat, nat) -> set<nat>, rank: nat, lo: nat, hi: nat, w: nat, v: nat, before: set<nat>,
                after: set<nat>)
    requires 0 < w && hi == lo + w <= WIDTH
    requires forall b: nat :: b in before <==> b < lo && Clear(errors, rank, v + 1, w, b)
    requires after == ShiftLeft(before, w) + (LowBits(w) - errors(rank, v))
    ensures forall b: nat :: b in after <==> b < hi && Clear(errors, rank, v, w, b)
  {
    forall b: nat
      ensures b in after <==> b < hi && Clear(errors, rank, v, w, b)
    {
      ShiftInBit(errors, rank, lo, hi, w, v, b, b >= w && b - w in before, b in after);
    }
  }

  /** Which ranks take part. */
  predicate Tested(skip: seq<bool>, bgn: nat, end: nat, r: nat) {
    bgn <= r < end <= |skip| && !skip[r]
  }

  /** Pin `b` passes on every rank tested. */
  ghost predicate PinPasses(errors: (nat, nat) -> set<nat>, skip: seq<bool>, bgn: nat, end: nat, w: nat, b: nat)
    requires w > 0
  {
    forall r: nat :: Tested(skip, bgn, end, r) ==> BitPasses(errors, r, w, b)
  }

  lemma OneMoreRank(errors: (nat, nat) -> set<nat>, skip: seq<bool>, bgn: nat, r: nat, w: nat, b: nat)
    requires w > 0 && bgn <= r < |skip|
    ensures PinPasses(errors, skip, bgn, r + 1, w, b)
       <==> PinPasses(errors, skip, bgn, r, w, b) && (!skip[r] ==> BitPasses(errors, r, w, b))
  {
    assert Tested(skip, bgn, r + 1, r) <==> !skip[r];
    assert forall q: nat :: Tested(skip, bgn, r, q) ==> Tested(skip, bgn, r + 1, q);
    assert forall q: nat :: Tested(skip, bgn, r + 1, q) && q != r ==> Tested(skip, bgn, r, q);
  }

  /**
   Bit b of the result is set exactly when pin b passes on every rank tested; the test passes when all
   pins pass, or when one does.
   */
  method CalibrateReadTest(errors: (nat, nat) -> set<nat>, skip: seq<bool>, bgn: nat, end: nat,
                           groups: nat, w: nat, allCorrect: bool)
    returns (bitChk: set<nat>, pass: bool)
    requires bgn <= end <= |skip| && 0 < groups && 0 < w && groups * w <= WIDTH
    ensures forall b: nat :: b in bitChk <==> b < groups * w && PinPasses(errors, skip, bgn, end, w, b)
    ensures allCorrect ==> (pass <==> forall b: nat :: b < groups * w ==> PinPasses(errors, skip, bgn, end, w, b))
    ensures !allCorrect ==> (pass <==> exists b: nat :: b < groups * w && PinPasses(errors, skip, bgn, end, w, b))
  {
    var correctMask := LowBits(groups * w);
    bitChk := correctMask;
    var r := bgn;
    while r < end
      invariant bgn <= r <= end
      invariant forall b: nat :: b in bitChk <==> b < groups * w && PinPasses(errors, skip, bgn, r, w, b)
    {
      ghost var before := bitChk;
      if !skip[r] {
        var field := TestRank(errors, r, groups, w);
        bitChk := bitChk * field;
      }
      forall b: nat
        ensures b in bitChk <==> b < groups * w && PinPasses(errors, skip, bgn, r + 1, w, b)
      {
        OneMoreRank(errors, skip, bgn, r, w, b);
      }
      r := r + 1;
    }
    pass := if allCorrect then bitChk == correctMask else bitChk != {};
  }
}
