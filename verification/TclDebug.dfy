/**
 The debug command interface shared by the sequencer loop and the TCL host. Each step of the system
 is one access of one party to the shared words, so all interleavings are covered.
 */
module TclDebug {

  // ---- commands --------------------------------------------------------------------------------

  const CMD_NOP: nat := 0
  const CMD_RESPONSE_ACK: nat := 1
  const RUN_MEM_CALIBRATE: nat := 5
  const RUN_EYE_DIAGRAM_PATTERN: nat := 6
  const MARK_ALL_DQS_GROUPS_AS_VALID: nat := 14
  const MARK_GROUP_AS_SKIP: nat := 15
  const MARK_ALL_RANKS_AS_VALID: nat := 17
  const MARK_RANK_AS_SKIP: nat := 18
  const ENABLE_MARGIN_REPORT: nat := 21
  const ENABLE_SWEEP_ALL_GROUPS: nat := 22
  const DISABLE_GUARANTEED_READ: nat := 23
  const SET_NON_DESTRUCTIVE_CALIBRATION: nat := 24
  const SET_UPDATE_PARAMETERS: nat := 41
  const RUN_NON_DES_MEM_CALIBRATE: nat := 42
  const CMD_WAIT_CMD: nat := 1000

  datatype Flag = EnableMarginReport | SweepAllGroups | DisableGuaranteedRead | NonDestructive

  datatype Reply = ResponseReady | IllegalCmd

  datatype Command = Command(code: nat, args: seq<nat>) {
    function Arg0(): nat {
      if args == [] then 0 else args[0]
    }
  }

  /** What the commands act on; `calibrations` counts the runs of the memory calibration. */
  datatype Target = Target(groups: nat, ranks: nat, skipGroups: set<nat>, skipRanks: set<nat>,
                           flags: set<Flag>, calibrations: nat)

  /** The effect of one command and the answer to it. An illegal command has no effect. */
  function Execute(t: Target, c: Command): (r: (Target, Reply))
    ensures r.1 == IllegalCmd ==> r.0 == t
  {
    if c.code == SET_UPDATE_PARAMETERS || c.code == CMD_NOP || c.code == RUN_EYE_DIAGRAM_PATTERN then (t, ResponseReady)
    else if c.code == RUN_MEM_CALIBRATE || c.code == RUN_NON_DES_MEM_CALIBRATE then
      (t.(calibrations := t.calibrations + 1), ResponseReady)
    else if c.code == MARK_ALL_DQS_GROUPS_AS_VALID then (t.(skipGroups := {}), ResponseReady)
    else if c.code == MARK_GROUP_AS_SKIP then
      if c.Arg0() < t.groups then (t.(skipGroups := t.skipGroups + {c.Arg0()}), ResponseReady) else (t, IllegalCmd)
    else if c.code == MARK_ALL_RANKS_AS_VALID then (t.(skipRanks := {}), ResponseReady)
    else if c.code == MARK_RANK_AS_SKIP then
      if c.Arg0() < t.ranks then (t.(skipRanks := t.skipRanks + {c.Arg0()}), ResponseReady) else (t, IllegalCmd)
    else if c.code == ENABLE_MARGIN_REPORT then (t.(flags := t.flags + {EnableMarginReport}), ResponseReady)
    else if c.code == ENABLE_SWEEP_ALL_GROUPS then (t.(flags := t.flags + {SweepAllGroups}), ResponseReady)
    else if c.code == DISABLE_GUARANTEED_READ then (t.(flags := t.flags + {DisableGuaranteedRead}), ResponseReady)
    else if c.code == SET_NON_DESTRUCTIVE_CALIBRATION then
      (t.(flags := if c.Arg0() != 0 then t.flags + {NonDestructive} else t.flags - {NonDestructive}), ResponseReady)
    else (t, IllegalCmd)
  }

  /** Commands executed one after the other, as an atomic server would. */
  ghost function TargetAfter(t: Target, commands: seq<Command>): Target {
    if commands == [] then t
    else Execute(TargetAfter(t, commands[..|commands| - 1]), commands[|commands| - 1]).0
  }

  /** The answer an atomic server gives to command `k`. */
  ghost function ReplyOf(t: Target, commands: seq<Command>, k: nat): Reply
    requires k < |commands|
  {
    Execute(TargetAfter(t, commands[..k]), commands[k]).1
  }

  // ---- what a history of commands does -----------------------------------------------------------

  const CODES: set<nat> := {
    CMD_NOP, RUN_MEM_CALIBRATE, RUN_EYE_DIAGRAM_PATTERN, MARK_ALL_DQS_GROUPS_AS_VALID, MARK_GROUP_AS_SKIP,
    MARK_ALL_RANKS_AS_VALID, MARK_RANK_AS_SKIP, ENABLE_MARGIN_REPORT, ENABLE_SWEEP_ALL_GROUPS, DISABLE_GUARANTEED_READ,
    SET_NON_DESTRUCTIVE_CALIBRATION, SET_UPDATE_PARAMETERS, RUN_NON_DES_MEM_CALIBRATE
  }

  /** The command is known, and a group or rank that it names is one there is. */
  predicate Legal(t: Target, c: Command) {
    && c.code in CODES
    && (c.code == MARK_GROUP_AS_SKIP ==> c.Arg0() < t.groups)
    && (c.code == MARK_RANK_AS_SKIP ==> c.Arg0() < t.ranks)
  }

  /** Command `k` has this code and argument, and no later one has the code `undo`. */
  ghost predicate StandsAt(commands: seq<Command>, code: nat, arg: nat, undo: nat, k: nat) {
    && k < |commands| && commands[k].code == code && commands[k].Arg0() == arg
    && forall j: nat :: k < j < |commands| ==> commands[j].code != undo
  }

  ghost predicate Stands(commands: seq<Command>, code: nat, arg: nat, undo: nat) {
    exists k: nat :: StandsAt(commands, code, arg, undo, k)
  }

  ghost predicate Given(commands: seq<Command>, code: nat) {
    exists k: nat :: k < |commands| && commands[k].code == code
  }

  predicate Calibrates(c: Command) {
    c.code == RUN_MEM_CALIBRATE || c.code == RUN_NON_DES_MEM_CALIBRATE
  }

  /** The runs of the memory calibration. */
  ghost function Calibrations(commands: seq<Command>): set<nat> {
    set k: nat | k < |commands| && Calibrates(commands[k])
  }

  lemma StandsMore(commands: seq<Command>, c: Command, code: nat, arg: nat, undo: nat)
    ensures Stands(commands + [c], code, arg, undo) <==>
            (c.code == code && c.Arg0() == arg) || (Stands(commands, code, arg, undo) && c.code != undo)
  {
    var more := commands + [c];
    if Stands(more, code, arg, undo) {
      var k: nat :| StandsAt(more, code, arg, undo, k);
      if k < |commands| {
        assert more[|commands|] == c;
        assert forall j: nat :: k < j < |commands| ==> more[j] == commands[j];
        assert StandsAt(commands, code, arg, undo, k);
      }
    }
    if c.code == code && c.Arg0() == arg {
      assert StandsAt(more, code, arg, undo, |commands|);
    } else if Stands(commands, code, arg, undo) && c.code != undo {
      var k: nat :| StandsAt(commands, code, arg, undo, k);
      assert StandsAt(more, code, arg, undo, k);
    }
  }

  lemma GivenMore(commands: seq<Command>, c: Command, code: nat)
    ensures Given(commands + [c], code) <==> c.code == code || Given(commands, code)
  {
    var more := commands + [c];
    assert more[|commands|] == c;
    if Given(commands, code) {
      var k: nat :| k < |commands| && commands[k].code == code;
      assert more[k].code == code;
    }
  }

  lemma CalibrationsMore(commands: seq<Command>, c: Command)
    ensures |Calibrations(commands + [c])| == |Calibrations(commands)| + if Calibrates(c) then 1 else 0
  {
    var n := |commands|;
    if Calibrates(c) {
      assert Calibrations(commands + [c]) == Calibrations(commands) + {n};
    } else {
      assert Calibrations(commands + [c]) == Calibrations(commands);
    }
  }

  /** What is marked: everything there is that was named since all were last marked as valid. */
  ghost predicate IsMarked(before: set<nat>, after: set<nat>, n: nat, commands: seq<Command>, mark: nat, clear: nat) {
    forall x: nat :: x in after <==>
      (x < n && Stands(commands, mark, x, clear)) || (x in before && !Given(commands, clear))
  }

  lemma MarkedMore(before: set<nat>, after: set<nat>, after': set<nat>, n: nat, commands: seq<Command>, c: Command,
                   mark: nat, clear: nat)
    requires IsMarked(before, after, n, commands, mark, clear) && mark != clear
    requires after' == if c.code == clear then {}
                       else if c.code == mark && c.Arg0() < n then after + {c.Arg0()} else after
    ensures IsMarked(before, after', n, commands + [c], mark, clear)
  {
    forall x: nat
      ensures x in after' <==>
              (x < n && Stands(commands + [c], mark, x, clear)) || (x in before && !Given(commands + [c], clear))
    {
      StandsMore(commands, c, mark, x, clear);
      GivenMore(commands, c, clear);
    }
  }

  /** What a history of commands leaves behind, told without running it. */
  ghost predicate IsAfter(t: Target, commands: seq<Command>, t': Target) {
    && t'.groups == t.groups && t'.ranks == t.ranks
    && IsMarked(t.skipGroups, t'.skipGroups, t.groups, commands, MARK_GROUP_AS_SKIP, MARK_ALL_DQS_GROUPS_AS_VALID)
    && IsMarked(t.skipRanks, t'.skipRanks, t.ranks, commands, MARK_RANK_AS_SKIP, MARK_ALL_RANKS_AS_VALID)
    && (EnableMarginReport in t'.flags <==> EnableMarginReport in t.flags || Given(commands, ENABLE_MARGIN_REPORT))
    && (SweepAllGroups in t'.flags <==> SweepAllGroups in t.flags || Given(commands, ENABLE_SWEEP_ALL_GROUPS))
    && (DisableGuaranteedRead in t'.flags <==>
        DisableGuaranteedRead in t.flags || Given(commands, DISABLE_GUARANTEED_READ))
    && (NonDestructive in t'.flags <==> LastSetting(commands, NonDestructive in t.flags))
    && t'.calibrations == t.calibrations + |Calibrations(commands)|
  }

  /** The setting made last, if any. */
  ghost predicate LastSetting(commands: seq<Command>, before: bool) {
    var code := SET_NON_DESTRUCTIVE_CALIBRATION;
    if Given(commands, code) then exists arg: nat :: arg != 0 && Stands(commands, code, arg, code) else before
  }

  lemma LastSettingMore(commands: seq<Command>, c: Command, before: bool)
    ensures LastSetting(commands + [c], before) <==>
            if c.code == SET_NON_DESTRUCTIVE_CALIBRATION then c.Arg0() != 0 else LastSetting(commands, before)
  {
    var code := SET_NON_DESTRUCTIVE_CALIBRATION;
    GivenMore(commands, c, code);
    StandsMore(commands, c, code, c.Arg0(), code);
    forall arg: nat
      ensures Stands(commands + [c], code, arg, code) <==>
              if c.code == code then c.Arg0() == arg else Stands(commands, code, arg, code)
    {
      StandsMore(commands, c, code, arg, code);
    }
    if c.code == code {
      assert c.Arg0() != 0 ==> LastSetting(commands + [c], before);
    } else if Given(commands, code) && LastSetting(commands, before) {
      var arg: nat :| arg != 0 && Stands(commands, code, arg, code);
      assert Stands(commands + [c], code, arg, code);
    }
  }

  lemma IsAfterMore(t: Target, commands: seq<Command>, t1: Target, c: Command)
    requires IsAfter(t, commands, t1)
    ensures IsAfter(t, commands + [c], Execute(t1, c).0)
  {
    var t2 := Execute(t1, c).0;
    MarkedMore(t.skipGroups, t1.skipGroups, t2.skipGroups, t.groups, commands, c, MARK_GROUP_AS_SKIP,
               MARK_ALL_DQS_GROUPS_AS_VALID);
    MarkedMore(t.skipRanks, t1.skipRanks, t2.skipRanks, t.ranks, commands, c, MARK_RANK_AS_SKIP,
               MARK_ALL_RANKS_AS_VALID);
    GivenMore(commands, c, ENABLE_MARGIN_REPORT);
    GivenMore(commands, c, ENABLE_SWEEP_ALL_GROUPS);
    GivenMore(commands, c, DISABLE_GUARANTEED_READ);
    LastSettingMore(commands, c, NonDestructive in t.flags);
    CalibrationsMore(commands, c);
  }

  /**
   What commands add up to, whatever their number and order: a group is skipped iff it was named since all groups
   were last marked as valid, likewise a rank; a flag once set stays; the setting made last counts; every run command
   runs one calibration.
   */
  lemma {:induction false} HistoryTells(t: Target, commands: seq<Command>)
    ensures IsAfter(t, commands, TargetAfter(t, commands))
    decreases |commands|
  {
    if commands == [] {
      assert Calibrations(commands) == {};
    } else {
      var n := |commands| - 1;
      HistoryTells(t, commands[..n]);
      IsAfterMore(t, commands[..n], TargetAfter(t, commands[..n]), commands[n]);
      assert commands == commands[..n] + [commands[n]];
    }
  }

  lemma RefusedIff(t: Target, c: Command)
    ensures Execute(t, c).1 == IllegalCmd <==> !Legal(t, c)
  {
  }

  /** A command is refused iff it is unknown or names a group or rank that does not exist, whatever came before it. */
  lemma RefusalTold(t: Target, commands: seq<Command>, k: nat)
    requires k < |commands|
    ensures ReplyOf(t, commands, k) == IllegalCmd <==> !Legal(t, commands[k])
  {
    var before := TargetAfter(t, commands[..k]);
    HistoryTells(t, commands[..k]);
    RefusedIff(before, commands[k]);
    assert Legal(before, commands[k]) <==> Legal(t, commands[k]);
  }

  // ---- the system ------------------------------------------------------------------------------

  datatype Status = CmdReady | CmdExe | Answered(reply: Reply)

  /** Where the sequencer is: the next access it makes. */
  datatype Nios =
    | ResetCommand           // mark ready, first write: the command word
    | PublishReady           // mark ready, second write: the status word
    | ReadStatus
    | ReadForAck             // saw an answer standing
    | ReadForCommand         // saw the interface ready
    | Run(code: nat)
    | PublishReply(reply: Reply, last: bool)
    | Stopped

  /** Where the host is. */
  datatype Host =
    | Watch                  // waiting for the interface to be ready
    | WriteArgs(command: Command)
    | WriteCommand(command: Command)
    | Await                  // waiting for the answer
    | WriteAck

  datatype System = System(
    // the shared words
    status: Status, requested: nat, args: seq<nat>,
    // the two parties
    nios: Nios, host: Host, target: Target,
    // history
    issued: seq<Command>, executed: seq<Command>, replies: seq<Reply>, received: seq<Reply>, acks: nat)

  ghost predicate Init(s: System, t: Target) {
    && s.status == CmdExe && s.requested == CMD_NOP && s.nios == ResetCommand && s.host == Watch && s.target == t
    && s.issued == s.executed == [] && s.replies == s.received == [] && s.acks == 0
  }

  /** The sequencer has run a command with the given effect and answer. */
  function Executed(s: System, c: Command, r: (Target, Reply)): System {
    s.(target := r.0, nios := PublishReply(r.1, c.code == SET_UPDATE_PARAMETERS),
       executed := s.executed + [c], replies := s.replies + [r.1])
  }

  /** One access of the sequencer. */
  function NiosStep(s: System): System {
    match s.nios
    case ResetCommand => s.(requested := CMD_WAIT_CMD, nios := PublishReady)
    case PublishReady => s.(status := CmdReady, nios := ReadStatus)
    case ReadStatus =>
      if s.status.Answered? then s.(nios := ReadForAck)
      else if s.status == CmdReady then s.(nios := ReadForCommand)
      else s
    case ReadForAck =>
      if s.requested == CMD_RESPONSE_ACK then s.(nios := ResetCommand) else s.(nios := ReadStatus)
    case ReadForCommand =>
      if s.requested == CMD_WAIT_CMD then s.(nios := ReadStatus) else s.(nios := Run(s.requested))
    case Run(code) =>
      var c := Command(code, s.args);
      Executed(s, c, Execute(s.target, c))
    case PublishReply(reply, last) =>
      s.(status := Answered(reply), nios := if last then Stopped else ReadStatus)
    case Stopped => s
  }

  /** The two codes of the protocol itself are not commands. */
  predicate MaySend(code: nat) {
    code != CMD_WAIT_CMD && code != CMD_RESPONSE_ACK
  }

  /** One access of the host, which may choose any command when it sees the interface ready. */
  ghost predicate HostStep(s: System, s': System) {
    HostAccess(s, s') && (s'.host.WriteArgs? ==> MaySend(s'.host.command.code))
  }

  /** The same for a host that may also use the two codes of the protocol as commands. */
  ghost predicate HostAccess(s: System, s': System) {
    match s.host
    case Watch =>
      s' == s || (s.status == CmdReady && s'.host.WriteArgs? && s' == s.(host := s'.host))
    case WriteArgs(c) => s' == s.(args := c.args, host := WriteCommand(c))
    case WriteCommand(c) => s' == s.(requested := c.code, issued := s.issued + [c], host := Await)
    case Await =>
      if s.status.Answered? then s' == s.(received := s.received + [s.status.reply], host := WriteAck) else s' == s
    case WriteAck => s' == s.(requested := CMD_RESPONSE_ACK, acks := s.acks + 1, host := Watch)
  }

  ghost predicate Next(s: System, s': System) {
    s' == NiosStep(s) || HostStep(s, s')
  }

  // ---- the invariant ---------------------------------------------------------------------------

  /** Every command issued has run. */
  ghost predicate Idle(s: System) {
    s.executed == s.issued
  }

  /** The last command issued is the one that has not run, and it is still in the shared words. */
  ghost predicate Pending(s: System) {
    && s.issued != [] && s.executed == s.issued[..|s.issued| - 1]
    && s.requested == s.issued[|s.issued| - 1].code && s.args == s.issued[|s.issued| - 1].args
    && MaySend(s.issued[|s.issued| - 1].code)
  }

  ghost predicate HostPreparing(s: System) {
    match s.host
    case Watch => true
    case WriteArgs(c) => MaySend(c.code)
    case WriteCommand(c) => MaySend(c.code) && s.args == c.args
    case _ => false
  }

  /** All answers have been received and acknowledged. */
  ghost predicate Settled(s: System) {
    s.received == s.replies && s.acks == |s.replies|
  }

  /** The last answer has not been received yet. */
  ghost predicate Unread(s: System) {
    s.replies != [] && s.received == s.replies[..|s.replies| - 1] && s.acks == |s.received|
  }

  /** The last answer has been received but not acknowledged. */
  ghost predicate Unacknowledged(s: System) {
    s.replies != [] && s.received == s.replies && s.acks == |s.replies| - 1
  }

  ghost predicate Handshake(s: System) {
    match s.nios
    case ResetCommand =>
      s.host == Watch && s.status != CmdReady && Idle(s) && Settled(s)
      && (s.requested == CMD_RESPONSE_ACK || s.issued == [])
    case PublishReady =>
      s.host == Watch && s.status != CmdReady && s.requested == CMD_WAIT_CMD && Idle(s) && Settled(s)
    case Run(code) =>
      s.host == Await && s.status == CmdReady && Pending(s) && s.requested == code && Settled(s)
    case PublishReply(reply, _) =>
      && s.host == Await && s.status == CmdReady && Idle(s) && Unread(s) && MaySend(s.requested)
      && s.replies[|s.replies| - 1] == reply
    case _ =>
      if s.status == CmdReady then
        && (s.nios == ReadStatus || s.nios == ReadForCommand)
        && Settled(s)
        && if s.host == Await then Pending(s)
           else HostPreparing(s) && s.requested == CMD_WAIT_CMD && Idle(s)
      else
        && s.status.Answered? && s.nios != ReadForCommand
        && Idle(s) && s.replies != [] && s.status.reply == s.replies[|s.replies| - 1]
        && match s.host
           case Await => Unread(s) && MaySend(s.requested)
           case WriteAck => Unacknowledged(s) && MaySend(s.requested)
           case Watch => Settled(s) && s.requested == CMD_RESPONSE_ACK
           case _ => false
  }

  /** The target and the answers are those of an atomic server that ran the executed commands. */
  ghost predicate Atomic(s: System, t: Target) {
    && s.target == TargetAfter(t, s.executed)
    && |s.replies| == |s.executed|
    && forall k: nat :: k < |s.executed| ==> s.replies[k] == ReplyOf(t, s.executed, k)
  }

  ghost predicate Inv(s: System, t: Target) {
    Handshake(s) && Atomic(s, t)
  }

  lemma InitEstablishesInv(s: System, t: Target)
    requires Init(s, t)
    ensures Inv(s, t)
  {
  }

  lemma RunKeepsAtomic(s: System, t: Target, c: Command, r: (Target, Reply))
    requires Atomic(s, t) && r == Execute(s.target, c)
    ensures Atomic(Executed(s, c, r), t)
  {
    var more := s.executed + [c];
    assert more[..|more| - 1] == s.executed;
    forall k: nat | k < |more|
      ensures (s.replies + [r.1])[k] == ReplyOf(t, more, k)
    {
      if k < |s.executed| {
        assert more[..k] == s.executed[..k] && more[k] == s.executed[k];
      }
    }
  }

  /** Running the pending command leaves nothing pending and one answer unread. */
  lemma RunKeepsHandshake(s: System, c: Command, r: (Target, Reply))
    requires s.nios.Run? && c == Command(s.nios.code, s.args) && Handshake(s)
    ensures Handshake(Executed(s, c, r))
  {
    assert c == s.issued[|s.issued| - 1];
    assert s.issued == s.issued[..|s.issued| - 1] + [c];
    assert (s.replies + [r.1])[..|s.replies|] == s.replies;
  }

  lemma OtherStepKeepsAtomic(s: System, t: Target)
    requires Atomic(s, t) && !s.nios.Run?
    ensures Atomic(NiosStep(s), t)
  {
    var s' := NiosStep(s);
    assert s'.target == s.target && s'.executed == s.executed && s'.replies == s.replies;
  }

  lemma OtherStepKeepsHandshake(s: System)
    requires Handshake(s) && !s.nios.Run?
    ensures Handshake(NiosStep(s))
  {
  }

  lemma NiosKeepsInv(s: System, t: Target)
    requires Inv(s, t)
    ensures Inv(NiosStep(s), t)
  {
    if s.nios.Run? {
      var c := Command(s.nios.code, s.args);
      var r := Execute(s.target, c);
      RunKeepsAtomic(s, t, c, r);
      RunKeepsHandshake(s, c, r);
      assert NiosStep(s) == Executed(s, c, r);
    } else {
      OtherStepKeepsAtomic(s, t);
      OtherStepKeepsHandshake(s);
    }
  }

  lemma HostKeepsHandshake(s: System, s': System)
    requires Handshake(s) && HostStep(s, s')
    ensures Handshake(s')
  {
    match s.host
    case WriteCommand(c) =>
      assert s'.issued[..|s'.issued| - 1] == s.issued;
    case Await =>
      if s.status.Answered? {
        assert s.replies == s.replies[..|s.replies| - 1] + [s.status.reply];
      }
    case _ =>
  }

  lemma HostKeepsInv(s: System, s': System, t: Target)
    requires Inv(s, t) && HostStep(s, s')
    ensures Inv(s', t)
  {
    HostKeepsHandshake(s, s');
    assert s'.target == s.target && s'.executed == s.executed && s'.replies == s.replies;
  }

  // ---- every run -------------------------------------------------------------------------------

  ghost predicate IsRun(run: seq<System>, t: Target) {
    && |run| > 0 && Init(run[0], t)
    && forall i :: 0 <= i < |run| - 1 ==> Next(run[i], run[i + 1])
  }

  lemma {:induction false} RunKeepsInv(run: seq<System>, t: Target, i: nat)
    requires IsRun(run, t) && i < |run|
    ensures Inv(run[i], t)
    decreases i
  {
    if i == 0 {
      InitEstablishesInv(run[0], t);
    } else {
      RunKeepsInv(run, t, i - 1);
      assert Next(run[i - 1], run[i - 1 + 1]);
      if run[i] == NiosStep(run[i - 1]) {
        NiosKeepsInv(run[i - 1], t);
      } else {
        HostKeepsInv(run[i - 1], run[i], t);
      }
    }
  }

  /**
   Whatever the interleaving: the commands executed are the commands issued, in order, each once, with
   the arguments issued, and at most the last one has not run yet; the host has received exactly the
   answers that an atomic server would have given, and lacks at most the last one.
   */
  lemma EveryRunIsAtomic(run: seq<System>, t: Target, i: nat)
    requires IsRun(run, t) && i < |run|
    ensures var s := run[i];
            && s.executed <= s.issued && |s.issued| <= |s.executed| + 1
            && s.target == TargetAfter(t, s.executed)
            && |s.received| <= |s.executed| <= |s.received| + 1
            && forall k: nat :: k < |s.received| ==> s.received[k] == ReplyOf(t, s.issued, k)
  {
    RunKeepsInv(run, t, i);
    var s := run[i];
    assert s.executed <= s.issued && s.received <= s.replies;
    forall k: nat | k < |s.received|
      ensures s.received[k] == ReplyOf(t, s.issued, k)
    {
      assert s.issued[..k] == s.executed[..k] && s.issued[k] == s.executed[k];
    }
  }

  /** The last command run is the one that leaves the loop, and the sequencer is on its way out or gone. */
  ghost predicate Leaving(s: System) {
    s.executed != [] && s.executed[|s.executed| - 1].code == SET_UPDATE_PARAMETERS
  }

  ghost predicate LeavesOnce(s: System) {
    && (Leaving(s) <==> s.nios == Stopped || (s.nios.PublishReply? && s.nios.last))
    && forall k: nat :: k + 1 < |s.executed| ==> s.executed[k].code != SET_UPDATE_PARAMETERS
  }

  /** The sequencer stops, or is about to, exactly when the last command it has run is the update of parameters. */
  lemma {:induction false} RunLeavesOnce(run: seq<System>, t: Target, i: nat)
    requires IsRun(run, t) && i < |run|
    ensures LeavesOnce(run[i])
    decreases i
  {
    if i > 0 {
      RunLeavesOnce(run, t, i - 1);
      assert Next(run[i - 1], run[i - 1 + 1]);
    }
  }

  lemma NothingFollows(run: seq<System>, t: Target, i: nat)
    requires IsRun(run, t) && i + 1 < |run| && Leaving(run[i])
    ensures run[i + 1].executed == run[i].executed
  {
    RunLeavesOnce(run, t, i);
    assert Next(run[i], run[i + 1]);
  }

  /** Updating the parameters ends the command loop: once it has run, no command ever runs again. */
  lemma {:induction false} NothingRunsAfterUpdate(run: seq<System>, t: Target, i: nat, j: nat)
    requires IsRun(run, t) && i <= j < |run|
    ensures Leaving(run[i]) ==> run[j].executed == run[i].executed
    decreases j
  {
    if i < j && Leaving(run[i]) {
      NothingRunsAfterUpdate(run, t, i, j - 1);
      NothingFollows(run, t, j - 1);
    }
  }

  /** A command that has not run is not overwritten: neither its code nor its arguments change. */
  lemma PendingCommandSurvives(run: seq<System>, t: Target, i: nat)
    requires IsRun(run, t) && i + 1 < |run|
    requires |run[i].issued| > |run[i].executed|
    ensures run[i + 1].requested == run[i].requested == run[i].issued[|run[i].issued| - 1].code
    ensures run[i + 1].args == run[i].args == run[i].issued[|run[i].issued| - 1].args
    ensures run[i + 1].issued == run[i].issued
  {
    RunKeepsInv(run, t, i);
    assert Next(run[i], run[i + 1]);
  }

  /** An answer stays in the status word until the host has acknowledged it. */
  lemma AnswerStaysUntilAcknowledged(run: seq<System>, t: Target, i: nat)
    requires IsRun(run, t) && i + 1 < |run|
    requires run[i].status.Answered? && run[i].acks < |run[i].replies|
    ensures run[i + 1].status == run[i].status && run[i + 1].replies == run[i].replies
    ensures run[i].status == Answered(run[i].replies[|run[i].replies| - 1])
  {
    RunKeepsInv(run, t, i);
    assert Next(run[i], run[i + 1]);
  }

  function NiosSteps(s: System, n: nat): System
    decreases n
  {
    if n == 0 then s else NiosSteps(NiosStep(s), n - 1)
  }

  /** Accesses the sequencer needs to answer a pending command. */
  function AccessesToAnswer(s: System): nat {
    match s.nios
    case ReadStatus => 4
    case ReadForCommand => 3
    case Run(_) => 2
    case _ => 1
  }

  /** A pending command is answered after at most four accesses; the host cannot interfere meanwhile. */
  lemma PendingCommandIsAnswered(s: System)
    requires Handshake(s) && s.host == Await && s.status == CmdReady
    ensures var s' := NiosSteps(s, AccessesToAnswer(s));
            s'.status.Answered? && s'.executed == s'.issued == s.issued && s'.host == Await
    ensures forall s' :: HostStep(s, s') ==> s' == s
  {
    if s.nios == ReadStatus {
      assert NiosSteps(s, 4) == NiosSteps(NiosStep(s), 3);
      CommandSeenIsAnswered(NiosStep(s));
    } else if s.nios == ReadForCommand {
      CommandSeenIsAnswered(s);
    } else if s.nios.Run? {
      RunIsAnswered(s);
    } else {
      assert NiosSteps(s, 1) == NiosSteps(NiosStep(s), 0);
    }
  }

  lemma CommandSeenIsAnswered(s: System)
    requires Handshake(s) && s.host == Await && s.status == CmdReady && s.nios == ReadForCommand
    ensures var s' := NiosSteps(s, 3);
            s'.status.Answered? && s'.executed == s'.issued == s.issued && s'.host == Await
  {
    assert NiosSteps(s, 3) == NiosSteps(NiosStep(s), 2);
    OtherStepKeepsHandshake(s);
    RunIsAnswered(NiosStep(s));
  }

  lemma RunIsAnswered(s: System)
    requires Handshake(s) && s.nios.Run?
    ensures var s' := NiosSteps(s, 2);
            s'.status.Answered? && s'.executed == s'.issued == s.issued && s'.host == Await
  {
    var s1 := NiosStep(s);
    var c := Command(s.nios.code, s.args);
    assert s1 == Executed(s, c, Execute(s.target, c));
    RunKeepsHandshake(s, c, Execute(s.target, c));
    assert NiosSteps(s, 2) == NiosSteps(s1, 1) == NiosSteps(NiosStep(s1), 0) == NiosStep(s1);
  }

  // ---- why the order of the two writes matters --------------------------------------------------

  /** The sequencer with the two writes of "mark ready" exchanged. */
  function SwappedStep(s: System): System {
    match s.nios
    case ResetCommand => s.(status := CmdReady, nios := PublishReady)
    case PublishReady => s.(requested := CMD_WAIT_CMD, nios := ReadStatus)
    case _ => NiosStep(s)
  }

  ghost predicate SwappedRun(run: seq<System>, t: Target) {
    && |run| > 0 && Init(run[0], t)
    && forall i :: 0 <= i < |run| - 1 ==> run[i + 1] == SwappedStep(run[i]) || HostStep(run[i], run[i + 1])
  }

  /** Then a command slips in between the two writes and is wiped out: it never reaches the sequencer. */
  lemma SwappedWritesLoseACommand(t: Target) returns (run: seq<System>)
    ensures SwappedRun(run, t)
    ensures var s := run[|run| - 1];
            s.issued == [Command(RUN_MEM_CALIBRATE, [])] && s.executed == [] && s.requested == CMD_WAIT_CMD
            && s.nios == ReadStatus && s.host == Await
  {
    var c := Command(RUN_MEM_CALIBRATE, []);
    var s0 := System(CmdExe, CMD_NOP, [], ResetCommand, Watch, t, [], [], [], [], 0);
    var s1 := SwappedStep(s0);
    var s2 := s1.(host := WriteArgs(c));
    assert MaySend(c.code) && HostStep(s1, s2);
    var s3 := s2.(args := c.args, host := WriteCommand(c));
    var s4 := s3.(requested := c.code, issued := s3.issued + [c], host := Await);
    var s5 := SwappedStep(s4);
    run := [s0, s1, s2, s3, s4, s5];
    assert HostStep(s2, s3) && HostStep(s3, s4);
  }

  // ---- why two codes are not commands ------------------------------------------------------------

  ghost predicate IsAnyRun(run: seq<System>, t: Target) {
    && |run| > 0 && Init(run[0], t)
    && forall i :: 0 <= i < |run| - 1 ==> run[i + 1] == NiosStep(run[i]) || HostAccess(run[i], run[i + 1])
  }

  /** The host waits for its command to be answered, and the sequencer has not looked at it yet. */
  predicate Delivered(s: System) {
    s.host == Await && s.status == CmdReady && (s.nios == ReadStatus || s.nios == ReadForCommand)
  }

  lemma {:induction false} WaitCodeStays(s: System, n: nat)
    requires Delivered(s) && s.requested == CMD_WAIT_CMD
    ensures var s' := NiosSteps(s, n); Delivered(s') && s'.requested == CMD_WAIT_CMD && s'.executed == s.executed
    decreases n
  {
    if n > 0 {
      WaitCodeStays(NiosStep(s), n - 1);
    }
  }

  lemma TwoSteps(s: System)
    ensures NiosSteps(s, 2) == NiosStep(NiosStep(s))
  {
    assert NiosSteps(s, 2) == NiosSteps(NiosStep(s), 1) == NiosSteps(NiosStep(NiosStep(s)), 0);
  }

  /** After `n` accesses of the sequencer another command has run. */
  predicate RunBy(s: System, n: nat) {
    NiosSteps(s, n).executed != s.executed
  }

  /** A command delivered to the sequencer is run, sooner or later, iff its code is not that of waiting. */
  lemma CommandRunsIff(s: System)
    requires Delivered(s)
    ensures (exists n: nat :: RunBy(s, n)) <==> s.requested != CMD_WAIT_CMD
    ensures forall s' :: HostAccess(s, s') ==> s' == s
  {
    if s.requested == CMD_WAIT_CMD {
      forall n: nat
        ensures !RunBy(s, n)
      {
        WaitCodeStays(s, n);
      }
    } else if s.nios == ReadStatus {
      SeenCommandRuns(NiosStep(s));
      assert NiosSteps(s, 3) == NiosSteps(NiosStep(s), 2);
      assert RunBy(s, 3);
    } else {
      SeenCommandRuns(s);
      assert RunBy(s, 2);
    }
  }

  lemma SeenCommandRuns(s: System)
    requires s.nios == ReadForCommand && s.requested != CMD_WAIT_CMD
    ensures |NiosSteps(s, 2).executed| == |s.executed| + 1
  {
    TwoSteps(s);
  }

  /** An answer that stands and that the host has not read yet. */
  predicate Standing(s: System) {
    s.host == Await && s.status.Answered? && (s.nios == ReadStatus || s.nios == ReadForAck)
  }

  lemma {:induction false} AnswerStays(s: System, n: nat)
    requires Standing(s) && s.requested != CMD_RESPONSE_ACK
    ensures Standing(NiosSteps(s, n)) && NiosSteps(s, n).status == s.status
    decreases n
  {
    if n > 0 {
      AnswerStays(NiosStep(s), n - 1);
    }
  }

  /** The sequencer leaves an unread answer standing iff the code of the command is not that of acknowledging. */
  lemma AnswerStandsIff(s: System)
    requires Standing(s)
    ensures (forall n: nat :: NiosSteps(s, n).status == s.status) <==> s.requested != CMD_RESPONSE_ACK
  {
    if s.requested != CMD_RESPONSE_ACK {
      forall n: nat
        ensures NiosSteps(s, n).status == s.status
      {
        AnswerStays(s, n);
      }
    } else {
      var s1 := if s.nios == ReadStatus then NiosStep(s) else s;
      assert NiosSteps(s1, 3) == NiosSteps(NiosStep(s1), 2);
      TwoSteps(NiosStep(s1));
      assert NiosSteps(s1, 3).status == CmdReady;
      if s.nios == ReadStatus {
        assert NiosSteps(s, 4) == NiosSteps(s1, 3);
      } else {
        assert s1 == s;
      }
    }
  }

  /** The host issues a command with a given code as soon as the interface is ready. */
  function Issue(t: Target, code: nat): seq<System> {
    var c := Command(code, []);
    var s0 := System(CmdExe, CMD_NOP, [], ResetCommand, Watch, t, [], [], [], [], 0);
    var s1 := NiosStep(s0);
    var s2 := NiosStep(s1);
    var s3 := s2.(host := WriteArgs(c));
    var s4 := s3.(host := WriteCommand(c));
    var s5 := s4.(requested := code, issued := [c], host := Await);
    [s0, s1, s2, s3, s4, s5]
  }

  lemma IssueIsRun(t: Target, code: nat)
    ensures IsAnyRun(Issue(t, code), t) && |Issue(t, code)| == 6
    ensures var s := Issue(t, code)[5];
            Delivered(s) && s.requested == code && s.issued == [Command(code, [])] && s.executed == []
  {
    var run := Issue(t, code);
    assert run[1] == NiosStep(run[0]) && run[2] == NiosStep(run[1]);
    assert HostAccess(run[2], run[3]) && HostAccess(run[3], run[4]) && HostAccess(run[4], run[5]);
  }

  /** A run in which a command with the code of waiting is issued: however long it goes on, it never runs. */
  lemma WaitCodeIsLost(t: Target, n: nat) returns (run: seq<System>)
    ensures IsAnyRun(run, t) && run[|run| - 1].issued == [Command(CMD_WAIT_CMD, [])]
    ensures NiosSteps(run[|run| - 1], n).executed == []
  {
    run := Issue(t, CMD_WAIT_CMD);
    IssueIsRun(t, CMD_WAIT_CMD);
    WaitCodeStays(run[5], n);
  }

  /** A run in which a command with the code of acknowledging is issued: its answer is gone before it is read. */
  lemma AckCodeLosesAnswer(t: Target) returns (run: seq<System>)
    ensures IsAnyRun(run, t)
    ensures var s := run[|run| - 1];
            && s.issued == s.executed == [Command(CMD_RESPONSE_ACK, [])] && s.replies == [IllegalCmd]
            && s.received == [] && s.host == Await && s.status == CmdReady
  {
    run := Issue(t, CMD_RESPONSE_ACK);
    IssueIsRun(t, CMD_RESPONSE_ACK);
    AckedUnread(run[5]);
    run := SequencerGoesOn(run, t, 8);
  }

  /** A run may go on with the sequencer alone. */
  lemma {:induction false} SequencerGoesOn(run: seq<System>, t: Target, n: nat) returns (run': seq<System>)
    requires IsAnyRun(run, t)
    ensures IsAnyRun(run', t) && run'[|run'| - 1] == NiosSteps(run[|run| - 1], n)
    decreases n
  {
    run' := run;
    if n > 0 {
      var last := run[|run| - 1];
      run' := run + [NiosStep(last)];
      forall i | 0 <= i < |run'| - 1
        ensures run'[i + 1] == NiosStep(run'[i]) || HostAccess(run'[i], run'[i + 1])
      {
        if i < |run| - 1 {
          assert run'[i] == run[i] && run'[i + 1] == run[i + 1];
        }
      }
      run' := SequencerGoesOn(run', t, n - 1);
    }
  }

  /** The sequencer answers, takes the code for the acknowledgement, and makes the interface ready again. */
  lemma AckedUnread(s: System)
    requires Delivered(s) && s.nios == ReadStatus && s.requested == CMD_RESPONSE_ACK
    ensures var s' := NiosSteps(s, 8);
            && s'.executed == s.executed + [Command(CMD_RESPONSE_ACK, s.args)]
            && s'.replies == s.replies + [IllegalCmd] && s'.received == s.received && s'.issued == s.issued
            && s'.host == Await && s'.status == CmdReady
  {
    var s2 := NiosStep(NiosStep(s));
    var s4 := NiosStep(NiosStep(s2));
    var s6 := NiosStep(NiosStep(s4));
    EightSteps(s, s2, s4, s6);
    assert s2 == s.(nios := Run(CMD_RESPONSE_ACK));
    assert s4.nios == ReadStatus && s4.status == Answered(IllegalCmd) && s4.requested == CMD_RESPONSE_ACK;
    assert s6 == s4.(nios := ResetCommand);
  }

  lemma EightSteps(s: System, s2: System, s4: System, s6: System)
    requires s2 == NiosStep(NiosStep(s)) && s4 == NiosStep(NiosStep(s2)) && s6 == NiosStep(NiosStep(s4))
    ensures NiosSteps(s, 8) == NiosStep(NiosStep(s6))
  {
    assert NiosSteps(s, 8) == NiosSteps(NiosStep(s), 7) == NiosSteps(s2, 6);
    assert NiosSteps(s2, 6) == NiosSteps(NiosStep(s2), 5) == NiosSteps(s4, 4);
    assert NiosSteps(s4, 4) == NiosSteps(NiosStep(s4), 3) == NiosSteps(s6, 2);
    TwoSteps(s6);
  }
}
