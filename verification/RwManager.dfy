/**
 The read/write manager: a small machine that runs micro-programs from its instruction ROM, and the
 delays that the sequencer makes with it. Only what decides the run time of a program is modelled.
 */
module RwManager {
  import opened Modular

  /** What the sequencer writes into the instruction ROM. */
  const INST_ROM: seq<nat> := [
    0x80000, 0x80680, 0x8180, 0x8200, 0x8280, 0x8300, 0x8380, 0x8100,
    0x8480, 0x8500, 0x8580, 0x8600, 0x8400, 0x800, 0x8680, 0x880,
    0xa680, 0x80680, 0x900, 0x80680, 0x980, 0xa680, 0x8680, 0x80680,
    0xb68, 0xcce8, 0xae8, 0x8ce8, 0xb88, 0xec88, 0xa08, 0xac88,
    0x80680, 0xce00, 0xcd80, 0xe700, 0xc00, 0x20ce0, 0x20ce0, 0x20ce0,
    0x20ce0, 0xd00, 0x680, 0x680, 0x680, 0x680, 0x60e80, 0x61080,
    0x61080, 0x61080, 0xa680, 0x8680, 0x80680, 0xce00, 0xcd80, 0xe700,
    0xc00, 0x30ce0, 0x30ce0, 0x30ce0, 0x30ce0, 0xd00, 0x680, 0x680,
    0x680, 0x680, 0x70e80, 0x71080, 0x71080, 0x71080, 0xa680, 0x8680,
    0x80680, 0x1158, 0x6d8, 0x80680, 0x1168, 0x7e8, 0x7e8, 0x87e8,
    0x40fe8, 0x410e8, 0x410e8, 0x410e8, 0x1168, 0x7e8, 0x7e8, 0xa7e8,
    0x80680, 0x40e88, 0x41088, 0x41088, 0x41088, 0x40f68, 0x410e8, 0x410e8,
    0x410e8, 0xa680, 0x40fe8, 0x410e8, 0x410e8, 0x410e8, 0x41008, 0x41088,
    0x41088, 0x41088, 0x1100, 0xc680, 0x8680, 0xe680, 0x80680, 0x0,
    0x8000, 0xa000, 0xc000, 0x80000, 0x80, 0x8080, 0xa080, 0xc080,
    0x80080, 0x9180, 0x8680, 0xa680, 0x80680, 0x40f08, 0x80680
  ]

  const RETURN_BIT: nat := 0x80000
  const JUMP_BIT: nat := 0x8000
  const COUNTER_UNIT: nat := 0x2000

  const INIT_RESET_0_CKE_0: nat := 0x6F
  const INIT_RESET_1_CKE_0: nat := 0x74
  const IDLE_LOOP2: nat := 0x7A
  const IDLE_LOOP1: nat := 0x7B

  type Counter = c: nat | c < 4

  datatype Instr = Command | JumpNonZero(counter: Counter) | Return

  /** A word returns, jumps on one of the four counters, or just issues its command. */
  function Decode(word: nat): Instr {
    if word / RETURN_BIT % 2 == 1 then Return
    else if word / JUMP_BIT % 2 == 1 then JumpNonZero(word / COUNTER_UNIT % 4)
    else Command
  }

  function DecodeAll(rom: seq<nat>): (program: seq<Instr>)
    ensures |program| == |rom| && forall i :: 0 <= i < |rom| ==> program[i] == Decode(rom[i])
  {
    seq(|rom|, i requires 0 <= i < |rom| => Decode(rom[i]))
  }

  /** The program store, the counters, what they are reloaded with, and where their jumps go. */
  datatype State = State(program: seq<Instr>, pc: nat, counters: seq<nat>, reloads: seq<nat>, targets: seq<nat>,
                         running: bool) {
    predicate Valid() {
      |counters| == |reloads| == |targets| == 4
    }
  }

  /** One cycle. A jump tests before it decrements, and a counter that was zero is reloaded. */
  function Step(s: State): (s': State)
    requires s.Valid()
    ensures s'.Valid() && s'.program == s.program && s'.reloads == s.reloads && s'.targets == s.targets
  {
    if !s.running || s.pc >= |s.program| then s.(running := false)
    else
      match s.program[s.pc]
      case Return => s.(running := false)
      case Command => s.(pc := s.pc + 1)
      case JumpNonZero(c) =>
        if s.counters[c] == 0 then s.(pc := s.pc + 1, counters := s.counters[c := s.reloads[c]])
        else s.(pc := s.targets[c], counters := s.counters[c := s.counters[c] - 1])
  }

  function Steps(s: State, n: nat): (s': State)
    requires s.Valid()
    ensures s'.Valid() && s'.program == s.program && s'.reloads == s.reloads && s'.targets == s.targets
    decreases n
  {
    if n == 0 then s else Steps(Step(s), n - 1)
  }

  lemma {:induction false} StepsAdd(s: State, m: nat, n: nat)
    requires s.Valid()
    ensures Steps(s, m + n) == Steps(Steps(s, m), n)
    decreases m
  {
    if m > 0 {
      StepsAdd(Step(s), m - 1, n);
    }
  }

  /** From a state that is reached, run on. */
  lemma Then(s: State, m: nat, s1: State, n: nat)
    requires s.Valid() && Steps(s, m) == s1
    ensures Steps(s, m + n) == Steps(s1, n)
  {
    StepsAdd(s, m, n);
  }

  // ---- counted loops ---------------------------------------------------------------------------

  /** `s` with counter `c` at `k`. */
  function With(s: State, c: nat, k: nat): State
    requires s.Valid() && c < 4
  {
    s.(counters := s.counters[c := k])
  }

  /** One step from a jump that finds its counter at k. */
  lemma JumpStep(s: State, c: nat, k: nat, j: nat)
    requires s.Valid() && s.running && c < 4 && j < |s.program| && s.program[j] == JumpNonZero(c)
    ensures Steps(With(s, c, k).(pc := j), 1)
         == if k == 0 then With(s, c, s.reloads[c]).(pc := j + 1) else With(s, c, k - 1).(pc := s.targets[c])
  {
    var s0 := With(s, c, k).(pc := j);
    assert Steps(s0, 1) == Steps(Step(s0), 0) == Step(s0);
    assert s.counters[c := k][c := s.reloads[c]] == s.counters[c := s.reloads[c]];
    if k > 0 {
      assert s.counters[c := k][c := k - 1] == s.counters[c := k - 1];
    }
  }

  /** Cycles of n + 1 passes of m cycles and a jump each. */
  function Passes(n: nat, m: nat): nat {
    if n == 0 then m + 1 else (m + 1) + Passes(n - 1, m)
  }

  lemma {:induction false} PassesProduct(n: nat, m: nat)
    ensures Passes(n, m) == (n + 1) * (m + 1)
    decreases n
  {
    if n > 0 {
      PassesProduct(n - 1, m);
      assert (n + 1) * (m + 1) == (m + 1) + n * (m + 1);
    }
  }

  lemma OnePass(s: State, c: nat, j: nat, m: nat, k: nat)
    requires s.Valid() && s.running && c < 4 && s.targets[c] == s.pc
    requires j < |s.program| && s.program[j] == JumpNonZero(c)
    requires Steps(With(s, c, k), m) == With(s, c, k).(pc := j)
    ensures Steps(With(s, c, k), m + 1)
         == if k == 0 then With(s, c, s.reloads[c]).(pc := j + 1) else With(s, c, k - 1)
  {
    StepsAdd(With(s, c, k), m, 1);
    JumpStep(s, c, k, j);
  }

  /**
   A loop whose body takes `m` cycles to reach the jump at `j`, which goes back to where the body
   starts: from counter value n it leaves after n + 1 passes, with the counter reloaded.
   */
  lemma {:induction false} CountedLoop(s: State, c: nat, j: nat, m: nat, n: nat)
    requires s.Valid() && s.running && c < 4 && s.targets[c] == s.pc
    requires j < |s.program| && s.program[j] == JumpNonZero(c)
    requires forall k: nat :: k <= n ==> Steps(With(s, c, k), m) == With(s, c, k).(pc := j)
    ensures Steps(With(s, c, n), Passes(n, m)) == With(s, c, s.reloads[c]).(pc := j + 1)
    decreases n
  {
    assert Steps(With(s, c, n), m) == With(s, c, n).(pc := j);
    OnePass(s, c, j, m, n);
    if n > 0 {
      CountedLoop(s, c, j, m, n - 1);
      Then(With(s, c, n), m + 1, With(s, c, n - 1), Passes(n - 1, m));
    }
  }

  // ---- the reset programs ----------------------------------------------------------------------

  /** One command, then a jump on counters 0, 1 and 2 in turn, then a return. */
  ghost predicate ResetProgram(program: seq<Instr>, base: nat) {
    && base + 4 < |program|
    && program[base] == Command
    && program[base + 1] == JumpNonZero(0)
    && program[base + 2] == JumpNonZero(1)
    && program[base + 3] == JumpNonZero(2)
    && program[base + 4] == Return
  }

  lemma ResetProgramsInRom()
    ensures ResetProgram(DecodeAll(INST_ROM), INIT_RESET_0_CKE_0)
            && ResetProgram(DecodeAll(INST_ROM), INIT_RESET_1_CKE_0)
  {
  }

  /** All three jumps go back to the start of the program. */
  ghost predicate AtReset(s: State, base: nat) {
    && s.Valid() && s.running && s.pc == base && s.targets[0] == s.targets[1] == s.targets[2] == base
    && ResetProgram(s.program, base)
  }

  lemma InnerLoop(s: State, base: nat)
    requires AtReset(s, base)
    ensures Steps(s, Passes(s.counters[0], 1)) == With(s, 0, s.reloads[0]).(pc := base + 2)
  {
    forall k: nat
      ensures Steps(With(s, 0, k), 1) == With(s, 0, k).(pc := base + 1)
    {
      var s0 := With(s, 0, k);
      assert Steps(s0, 1) == Steps(Step(s0), 0) == Step(s0);
    }
    CountedLoop(s, 0, base + 1, 1, s.counters[0]);
    assert With(s, 0, s.counters[0]) == s;
  }

  lemma MiddleLoop(s: State, base: nat)
    requires AtReset(s, base) && s.counters[0] == s.reloads[0]
    ensures Steps(s, Passes(s.counters[1], Passes(s.reloads[0], 1))) == With(s, 1, s.reloads[1]).(pc := base + 3)
  {
    forall k: nat
      ensures Steps(With(s, 1, k), Passes(s.reloads[0], 1)) == With(s, 1, k).(pc := base + 2)
    {
      InnerLoop(With(s, 1, k), base);
      assert With(With(s, 1, k), 0, s.reloads[0]) == With(s, 1, k);
    }
    CountedLoop(s, 1, base + 2, Passes(s.reloads[0], 1), s.counters[1]);
    assert With(s, 1, s.counters[1]) == s;
  }

  lemma OuterLoop(s: State, base: nat)
    requires AtReset(s, base) && s.counters[0] == s.reloads[0] && s.counters[1] == s.reloads[1]
    ensures Steps(s, Passes(s.counters[2], Passes(s.reloads[1], Passes(s.reloads[0], 1))))
         == With(s, 2, s.reloads[2]).(pc := base + 4)
  {
    var m := Passes(s.reloads[1], Passes(s.reloads[0], 1));
    forall k: nat
      ensures Steps(With(s, 2, k), m) == With(s, 2, k).(pc := base + 3)
    {
      MiddleLoop(With(s, 2, k), base);
      assert With(With(s, 2, k), 1, s.reloads[1]) == With(s, 2, k);
    }
    CountedLoop(s, 2, base + 3, m, s.counters[2]);
    assert With(s, 2, s.counters[2]) == s;
  }

  /** The program stops at cycle `n` and not before. */
  ghost predicate HaltsAfter(s: State, n: nat)
    requires s.Valid()
  {
    !Steps(s, n).running && (n > 0 ==> Steps(s, n - 1).running)
  }

  /** Run time of a reset program, the formula the sequencer relies on. */
  function ResetCycles(c0: nat, c1: nat, c2: nat): nat {
    (c2 + 1) * ((c1 + 1) * (2 * (c0 + 1) + 1) + 1) + 1
  }

  lemma ResetCyclesArePasses(c0: nat, c1: nat, c2: nat)
    ensures ResetCycles(c0, c1, c2) == Passes(c2, Passes(c1, Passes(c0, 1))) + 1
  {
    PassesProduct(c0, 1);
    PassesProduct(c1, Passes(c0, 1));
    PassesProduct(c2, Passes(c1, Passes(c0, 1)));
  }

  lemma ReturnAt(s: State, m: nat, s1: State)
    requires s.Valid() && Steps(s, m) == s1 && s1.running && s1.pc < |s1.program| && s1.program[s1.pc] == Return
    ensures HaltsAfter(s, m + 1) && Steps(s, m + 1).counters == s1.counters
  {
    StepsAdd(s, m, 1);
    assert Steps(s1, 1) == Steps(Step(s1), 0) == Step(s1);
  }

  lemma ResetProgramTime(s: State, base: nat)
    requires AtReset(s, base) && s.counters == s.reloads
    ensures var n := ResetCycles(s.reloads[0], s.reloads[1], s.reloads[2]);
            HaltsAfter(s, n) && Steps(s, n).counters == s.reloads
  {
    var m := Passes(s.counters[2], Passes(s.reloads[1], Passes(s.reloads[0], 1)));
    OuterLoop(s, base);
    assert With(s, 2, s.reloads[2]).(pc := base + 4) == s.(pc := base + 4);
    ReturnAt(s, m, s.(pc := base + 4));
    ResetCyclesArePasses(s.reloads[0], s.reloads[1], s.reloads[2]);
  }

  // ---- the idle programs -----------------------------------------------------------------------

  ghost predicate IdlePrograms(program: seq<Instr>) {
    && IDLE_LOOP1 + 1 < |program|
    && program[IDLE_LOOP2] == JumpNonZero(0)
    && program[IDLE_LOOP1] == JumpNonZero(1)
    && program[IDLE_LOOP1 + 1] == Return
  }

  lemma IdleProgramsInRom()
    ensures IdlePrograms(DecodeAll(INST_ROM))
  {
  }

  lemma Spin(s: State, c: nat)
    requires s.Valid() && s.running && c < 4 && s.targets[c] == s.pc < |s.program| && s.program[s.pc] == JumpNonZero(c)
    ensures Steps(s, Passes(s.counters[c], 0)) == With(s, c, s.reloads[c]).(pc := s.pc + 1)
  {
    forall k: nat
      ensures Steps(With(s, c, k), 0) == With(s, c, k).(pc := s.pc)
    {
    }
    CountedLoop(s, c, s.pc, 0, s.counters[c]);
    assert With(s, c, s.counters[c]) == s;
  }

  lemma IdleLoop1Time(s: State)
    requires s.Valid() && IdlePrograms(s.program) && s.running && s.pc == s.targets[1] == IDLE_LOOP1
    requires s.counters == s.reloads
    ensures HaltsAfter(s, s.reloads[1] + 2) && Steps(s, s.reloads[1] + 2).counters == s.reloads
  {
    Spin(s, 1);
    assert With(s, 1, s.reloads[1]) == s;
    PassesProduct(s.reloads[1], 0);
    ReturnAt(s, s.reloads[1] + 1, s.(pc := IDLE_LOOP1 + 1));
  }

  lemma IdleLoop2Time(s: State)
    requires s.Valid() && IdlePrograms(s.program) && s.running && s.pc == s.targets[0] == s.targets[1] == IDLE_LOOP2
    requires s.counters == s.reloads
    ensures var n := (s.reloads[1] + 1) * (s.reloads[0] + 2) + 1;
            HaltsAfter(s, n) && Steps(s, n).counters == s.reloads
  {
    forall k: nat
      ensures Steps(With(s, 1, k), Passes(s.reloads[0], 0)) == With(s, 1, k).(pc := IDLE_LOOP1)
    {
      Spin(With(s, 1, k), 0);
      assert With(With(s, 1, k), 0, s.reloads[0]) == With(s, 1, k);
    }
    CountedLoop(s, 1, IDLE_LOOP1, Passes(s.reloads[0], 0), s.counters[1]);
    assert With(s, 1, s.counters[1]) == s && With(s, 1, s.reloads[1]) == s;
    PassesProduct(s.reloads[0], 0);
    PassesProduct(s.reloads[1], Passes(s.reloads[0], 0));
    ReturnAt(s, Passes(s.reloads[1], Passes(s.reloads[0], 0)), s.(pc := IDLE_LOOP1 + 1));
  }

  // ---- the manager as the sequencer sees it ----------------------------------------------------

  class RwMgr {
    var s: State
    var cycles: nat            // run time of all programs so far
    var programs: seq<nat>     // where they start, in the order they were run

    ghost predicate Valid()
      reads this
    {
      s.Valid() && s.counters == s.reloads
    }

    constructor (rom: seq<nat>)
      ensures Valid() && cycles == 0 && programs == [] && s.program == DecodeAll(rom)
    {
      s := State(DecodeAll(rom), 0, [0, 0, 0, 0], [0, 0, 0, 0], [0, 0, 0, 0], false);
      cycles, programs := 0, [];
    }

    method LoadCntr(i: nat, value: nat)
      requires Valid() && i < 4
      modifies this`s
      ensures Valid() && s.program == old(s.program) && s.reloads == old(s.reloads)[i := value]
              && s.targets == old(s.targets)
    {
      s := s.(counters := s.counters[i := value], reloads := s.reloads[i := value]);
    }

    method LoadJumpAdd(i: nat, address: nat)
      requires Valid() && i < 4
      modifies this`s
      ensures Valid() && s.program == old(s.program) && s.reloads == old(s.reloads)
              && s.targets == old(s.targets)[i := address]
    {
      s := s.(targets := s.targets[i := address]);
    }

    /** Run the program at `address`, which returns after `n` cycles. */
    method RunSingleGroup(address: nat, ghost n: nat)
      requires Valid()
      requires HaltsAfter(s.(pc := address, running := true), n)
      requires Steps(s.(pc := address, running := true), n).counters == s.reloads
      modifies this
      ensures Valid() && s.program == old(s.program) && s.reloads == old(s.reloads) && s.targets == old(s.targets)
      ensures cycles == old(cycles) + n && programs == old(programs) + [address]
    {
      s, programs := s.(pc := address, running := true), programs + [address];
      ghost var begin, k := s, 0;
      while s.running
        invariant k <= n && s == Steps(begin, k) && s.Valid()
        invariant s.program == old(s.program) && s.reloads == old(s.reloads) && s.targets == old(s.targets)
                  && cycles == old(cycles) + k && programs == old(programs) + [address]
        decreases n - k
      {
        RunsUntil(begin, k, n);
        StepsAdd(begin, k, 1);
        assert Steps(s, 1) == Steps(Step(s), 0) == Step(s);
        s, cycles, k := Step(s), cycles + 1, k + 1;
      }
      if k < n {
        RunsUntil(begin, k, n);
      }
    }
  }

  /** A stopped machine stays stopped, so it runs at every cycle before the one it stops at. */
  lemma {:induction false} RunsUntil(s: State, k: nat, n: nat)
    requires s.Valid() && HaltsAfter(s, n) && k <= n
    ensures Steps(s, k).running <==> k < n
  {
    if k < n && !Steps(s, k).running {
      StepsAdd(s, k, n - 1 - k);
      StaysStopped(Steps(s, k), n - 1 - k);
    }
  }

  lemma {:induction false} StaysStopped(s: State, n: nat)
    requires s.Valid() && !s.running
    ensures !Steps(s, n).running
    decreases n
  {
    if n > 0 {
      StaysStopped(Step(s), n - 1);
    }
  }

  // ---- delays ----------------------------------------------------------------------------------

  /** Run time of a delay of `afi` clocks of the AFI. */
  function DelayCycles(afi: nat): nat {
    if afi == 0 then 2
    else if afi <= 0x100 then afi + 1
    else if afi <= 0x10000 then ((afi - 1) / 0x100 + 1) * 0x101 + 1
    else ((afi - 1) / 0x10000 + 1) * (0x100 * 0x101 + 1)
  }

  /** A delay is never short, and up to 256 clocks it is one clock long. */
  lemma DelayLongEnough(afi: nat)
    ensures DelayCycles(afi) >= afi
    ensures 0 < afi <= 0x100 ==> DelayCycles(afi) == afi + 1
  {
  }

  /** A delay is not much too long either: up to 65536 clocks at most 512 more, above that one in 255 and a pass. */
  lemma DelayNotMuchLonger(afi: nat)
    ensures afi <= 0x10000 ==> DelayCycles(afi) <= afi + 512
    ensures afi > 0x10000 ==> 255 * DelayCycles(afi) <= 256 * (afi + 0xffff)
  {
  }

  const TWO_TO_32: nat := 0x1_0000_0000

  /** Clocks of the AFI for memory clocks, rounded up in 32-bit arithmetic. */
  function AfiClocks(clocks: nat, ratio: nat): nat
    requires 0 < ratio
  {
    (clocks + ratio - 1) % TWO_TO_32 / ratio
  }

  /** Wait in the single loop. */
  method IdleShort(mgr: RwMgr, inner: nat)
    requires mgr.Valid() && IdlePrograms(mgr.s.program)
    modifies mgr
    ensures mgr.Valid() && mgr.s.program == old(mgr.s.program)
    ensures mgr.cycles == old(mgr.cycles) + inner + 2 && mgr.programs == old(mgr.programs) + [IDLE_LOOP1]
  {
    mgr.LoadCntr(1, inner);
    mgr.LoadJumpAdd(1, IDLE_LOOP1);
    IdleLoop1Time(mgr.s.(pc := IDLE_LOOP1, running := true));
    mgr.RunSingleGroup(IDLE_LOOP1, inner + 2);
  }

  /** Run time of the nested loops for given counters. */
  function NestedCycles(inner: nat, outer: nat, loops: nat): nat {
    (loops + 1) * ((outer + 1) * (inner + 2) + 1)
  }

  /** The counters that a delay loads fit their widths and give the run time. */
  lemma DelayShape(afi: nat)
    requires 0 < afi < TWO_TO_32
    ensures afi <= 0x100 ==> DelayCycles(afi) == (afi - 1) % 0x100 + 2
    ensures 0x100 < afi <= 0x10000 ==> DelayCycles(afi) == NestedCycles(0xff, (afi - 1) / 0x100 % 0x100, 0)
    ensures 0x10000 < afi ==> DelayCycles(afi) == NestedCycles(0xff, 0xff, (afi - 1) / 0x10000 % 0x10000)
  {
    if 0x10000 < afi {
      var loops := (afi - 1) / 0x10000;
      assert loops < 0x10000 && loops % 0x10000 == loops;
      assert NestedCycles(0xff, 0xff, loops) == (loops + 1) * (0x100 * 0x101 + 1);
    } else if 0x100 < afi {
      var outer := (afi - 1) / 0x100;
      assert outer < 0x100 && outer % 0x100 == outer;
      assert NestedCycles(0xff, outer, 0) == (outer + 1) * 0x101 + 1;
    }
  }

  /** Wait in the nested loops, `loops` + 1 times: the test comes after the run and before the decrement. */
  method IdleNested(mgr: RwMgr, inner: nat, outer: nat, loops0: nat)
    requires mgr.Valid() && IdlePrograms(mgr.s.program)
    modifies mgr
    ensures mgr.Valid() && mgr.s.program == old(mgr.s.program)
    ensures mgr.cycles == old(mgr.cycles) + NestedCycles(inner, outer, loops0)
  {
    mgr.LoadCntr(0, inner);
    mgr.LoadCntr(1, outer);
    mgr.LoadJumpAdd(0, IDLE_LOOP2);
    mgr.LoadJumpAdd(1, IDLE_LOOP2);
    var loops: nat := loops0;
    ghost var pass := (outer + 1) * (inner + 2) + 1;
    while true
      invariant mgr.Valid() && IdlePrograms(mgr.s.program) && mgr.s.program == old(mgr.s.program)
      invariant mgr.s.reloads[0] == inner && mgr.s.reloads[1] == outer
      invariant mgr.s.targets[0] == mgr.s.targets[1] == IDLE_LOOP2
      invariant loops <= loops0 && mgr.cycles == old(mgr.cycles) + (loops0 - loops) * pass
      decreases loops
    {
      IdleLoop2Time(mgr.s.(pc := IDLE_LOOP2, running := true));
      mgr.RunSingleGroup(IDLE_LOOP2, pass);
      assert (loops0 - loops + 1) * pass == (loops0 - loops) * pass + pass;
      if loops == 0 {
        break;
      }
      loops := loops - 1;
    }
  }

  /** The three shapes of a delay; the counters are 8, 8 and 16 bits wide. */
  method DelayForMemClocks(mgr: RwMgr, clocks: nat, ratio: nat)
    requires mgr.Valid() && IdlePrograms(mgr.s.program) && clocks < TWO_TO_32 && 0 < ratio
    modifies mgr
    ensures mgr.Valid() && mgr.s.program == old(mgr.s.program)
    ensures mgr.cycles == old(mgr.cycles) + DelayCycles(AfiClocks(clocks, ratio))
    ensures AfiClocks(clocks, ratio) <= 0x100 ==> mgr.programs == old(mgr.programs) + [IDLE_LOOP1]
  {
    var afi := AfiClocks(clocks, ratio);
    AfiClocksFit(clocks, ratio);
    if afi > 0 {
      DelayShape(afi);
    }
    if afi == 0 {
      IdleShort(mgr, 0);
    } else if afi <= 0x100 {
      IdleShort(mgr, (afi - 1) % 0x100);
    } else if afi <= 0x10000 {
      IdleNested(mgr, 0xff, (afi - 1) / 0x100 % 0x100, 0);
    } else {
      IdleNested(mgr, 0xff, 0xff, (afi - 1) / 0x10000 % 0x10000);
    }
  }

  lemma AfiClocksFit(clocks: nat, ratio: nat)
    requires 0 < ratio
    ensures AfiClocks(clocks, ratio) < TWO_TO_32
  {
    var x := (clocks + ratio - 1) % TWO_TO_32;
    assert x == (x / ratio) * ratio + x % ratio;
    if x / ratio > x {
      assert (x / ratio - x) * ratio >= 1;
    }
  }

  /** Unless rounding up overflows 32 bits, the clocks of the AFI are the fewest that cover the memory clocks. */
  lemma RoundedUp(clocks: nat, ratio: nat)
    requires 0 < ratio && clocks + ratio - 1 < TWO_TO_32
    ensures clocks <= AfiClocks(clocks, ratio) * ratio < clocks + ratio
  {
    var afi := AfiClocks(clocks, ratio);
    assert clocks + ratio - 1 == afi * ratio + (clocks + ratio - 1) % ratio;
  }

  /** When rounding up overflows nothing is left of the request but the two clocks of an empty delay. */
  lemma OverflowLeavesNothing(clocks: nat, ratio: nat)
    requires 0 < ratio < TWO_TO_32 && clocks < TWO_TO_32 <= clocks + ratio - 1
    ensures AfiClocks(clocks, ratio) == 0
  {
    var x := clocks + ratio - 1 - TWO_TO_32;
    DivModUnique(clocks + ratio - 1, 1, x, TWO_TO_32);
    DivModUnique(x, 0, x, ratio);
  }

  /** The delay covers the memory clocks asked for iff rounding up fits 32 bits, or two clocks are enough. */
  lemma DelayCoversIff(clocks: nat, ratio: nat)
    requires 0 < ratio < TWO_TO_32 && clocks < TWO_TO_32
    ensures DelayCycles(AfiClocks(clocks, ratio)) * ratio >= clocks <==>
            clocks + ratio - 1 < TWO_TO_32 || 2 * ratio >= clocks
  {
    var afi := AfiClocks(clocks, ratio);
    if clocks + ratio - 1 < TWO_TO_32 {
      DelayLongEnough(afi);
      RoundedUp(clocks, ratio);
      MulMonotone(afi, DelayCycles(afi), ratio);
    } else {
      OverflowLeavesNothing(clocks, ratio);
    }
  }

  // ---- power-up --------------------------------------------------------------------------------

  const AFI_CLK_MHZ: nat := 401

  /** Run a reset program with the given counters. */
  method RunResetProgram(mgr: RwMgr, base: nat, c0: nat, c1: nat, c2: nat)
    requires mgr.Valid() && ResetProgram(mgr.s.program, base)
    modifies mgr
    ensures mgr.Valid() && mgr.s.program == old(mgr.s.program)
            && mgr.cycles == old(mgr.cycles) + ResetCycles(c0, c1, c2) && mgr.programs == old(mgr.programs) + [base]
  {
    mgr.LoadCntr(0, c0);
    mgr.LoadCntr(1, c1);
    mgr.LoadCntr(2, c2);
    mgr.LoadJumpAdd(0, base);
    mgr.LoadJumpAdd(1, base);
    mgr.LoadJumpAdd(2, base);
    ResetProgramTime(mgr.s.(pc := base, running := true), base);
    mgr.RunSingleGroup(base, ResetCycles(c0, c1, c2));
  }

  /**
   The waits of the power-up sequence (section 3.3.1 of JESD79-3): RESET low for 200 us and then high
   for 500 us before the clock enable, at the configured AFI clock, and 250 clocks after it. The counters give 545 us
   and 551 us.
   */
  method PowerUpWaits(mgr: RwMgr) returns (resetLow: nat, resetHigh: nat, exitPowerDown: nat)
    requires mgr.Valid() && mgr.s.program == DecodeAll(INST_ROM)
    modifies mgr
    ensures mgr.Valid() && mgr.s.program == old(mgr.s.program)
            && mgr.cycles == old(mgr.cycles) + resetLow + resetHigh + exitPowerDown
    ensures resetLow >= 200 * AFI_CLK_MHZ && resetHigh >= 500 * AFI_CLK_MHZ && exitPowerDown >= 250
    ensures resetLow == 218923 && resetHigh == 221112 && exitPowerDown == 251
    ensures mgr.programs == old(mgr.programs) + [INIT_RESET_0_CKE_0, INIT_RESET_1_CKE_0, IDLE_LOOP1]
  {
    ResetProgramsInRom();
    IdleProgramsInRom();
    var t0 := mgr.cycles;
    RunResetProgram(mgr, INIT_RESET_0_CKE_0, 99, 32, 32);
    var t1 := mgr.cycles;
    RunResetProgram(mgr, INIT_RESET_1_CKE_0, 99, 99, 10);
    var t2 := mgr.cycles;
    DelayForMemClocks(mgr, 250, 1);
    DelayLongEnough(250);
    resetLow, resetHigh, exitPowerDown := t1 - t0, t2 - t1, mgr.cycles - t2;
  }
}
