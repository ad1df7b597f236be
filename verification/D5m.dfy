/**
 Access to the 16-bit registers of the D5M camera, and what it guarantees against a slave that
 stores what is written to a register and replays it.
 */
module D5m {
  import opened I2c

  const TRDB_D5M_I2C_ADDRESS: bv8 := 0xba

  function High(data: bv16): bv8 { ((data >> 8) & 0xff) as bv8 }
  function Low(data: bv16): bv8 { (data & 0xff) as bv8 }
  function Join(high: bv8, low: bv8): bv16 { ((high as bv16) << 8) + (low as bv16) }

  lemma JoinSplit(data: bv16)
    ensures Join(High(data), Low(data)) == data
  {
  }

  lemma SplitBits(data: bv16)
    ensures High(data) as bv16 == data / 0x100 && Low(data) as bv16 == data % 0x100
  {
  }

  lemma JoinBits(high: bv8, low: bv8)
    ensures Join(high, low) == (high as bv16) * 0x100 + (low as bv16)
  {
  }

  lemma QuotientAsInt(x: bv16)
    ensures (x / 0x100) as int == x as int / 0x100 && (x % 0x100) as int == x as int % 0x100
  {
  }

  lemma WidenedAsInt(x: bv8)
    ensures (x as bv16) as int == x as int
  {
  }

  lemma SumAsInt(high: bv8, low: bv8)
    ensures ((high as bv16) * 0x100 + (low as bv16)) as int == high as int * 0x100 + low as int
  {
  }

  /** The high byte counts 256 times as much as the low one; 23 is sent as 0 and 23. */
  lemma ByteOrder(data: bv16, high: bv8, low: bv8)
    ensures High(data) as int == data as int / 0x100 && Low(data) as int == data as int % 0x100
    ensures Join(high, low) as int == high as int * 0x100 + low as int
    ensures High(23) == 0 && Low(23) == 23
  {
    SplitBits(data);
    QuotientAsInt(data);
    WidenedAsInt(High(data));
    WidenedAsInt(Low(data));
    JoinBits(high, low);
    SumAsInt(high, low);
  }

  method TrdbD5mWrite(dev: I2cDev, offset: bv8, data: bv16) returns (ok: bool)
    modifies dev
    ensures dev.disturbed == old(dev.disturbed) && Released(dev.trace)
    ensures var bytes := [TRDB_D5M_I2C_ADDRESS, offset, High(data), Low(data)];
            var sent := SendUntilNack(dev.slaveAck, old(dev.trace) + [Start], bytes);
            && (ok <==> Complete(sent, 4))
            && (ok ==> dev.trace == old(dev.trace) + [Start] + sent + [Stop])
  {
    var value := new bv8[2];
    value[0], value[1] := High(data), Low(data);
    assert [TRDB_D5M_I2C_ADDRESS & 0xFE, offset] + value[..2] == [TRDB_D5M_I2C_ADDRESS, offset, High(data), Low(data)];
    var result := dev.WriteArray(TRDB_D5M_I2C_ADDRESS, offset, value, 2);
    ok := result == Success;
  }

  /** `data` is what was read, or `data0` when the read failed. */
  method TrdbD5mRead(dev: I2cDev, offset: bv8, data0: bv16) returns (ok: bool, data: bv16)
    modifies dev
    ensures dev.disturbed == old(dev.disturbed) && Released(dev.trace)
    ensures !ok ==> data == data0
    ensures ok ==>
              var sent := SendUntilNack(dev.slaveAck, old(dev.trace) + [Start], [TRDB_D5M_I2C_ADDRESS, offset]);
              var first := old(dev.trace) + [Start] + sent + [Start];
              var again := SendUntilNack(dev.slaveAck, first, [TRDB_D5M_I2C_ADDRESS | 0x01]);
              var received := ReceiveAll(dev.slaveData, first + again, 2);
              && Complete(sent, 2) && Complete(again, 1)
              && data == Join(received[0].value, received[1].value)
              && dev.trace == first + again + received + [Stop]
  {
    var value := new bv8[2](_ => 0);
    var result := dev.ReadArray(TRDB_D5M_I2C_ADDRESS, offset, value, 2);
    ok, data := result == Success, data0;
    if ok {
      assert value[0] == value[..2][0] && value[1] == value[..2][1];
      data := Join(value[0], value[1]);
    }
  }

  // ---- a slave with registers ------------------------------------------------------------------

  /** Where the slave is in a transfer; the counts are bytes of the register moved so far. */
  datatype Mode = Off | Addressed | Writing(count: nat) | WantsIndex | Reading(count: nat)

  /** The bytes stored in each register, and the register selected. */
  datatype Slave = Slave(mode: Mode, index: bv8, registers: map<(bv8, nat), bv8>)

  function SlaveStep(s: Slave, e: BusEvent): Slave {
    match e
    case Start => s.(mode := Addressed)
    case Stop => s.(mode := Off)
    case Sent(value, ack) =>
      if !ack then s.(mode := Off)
      else
        (match s.mode
         case Addressed =>
           if value == TRDB_D5M_I2C_ADDRESS then s.(mode := WantsIndex)
           else if value == TRDB_D5M_I2C_ADDRESS | 0x01 then s.(mode := Reading(0))
           else s.(mode := Off)
         case WantsIndex => s.(mode := Writing(0), index := value)
         case Writing(count) => s.(mode := Writing(count + 1), registers := s.registers[(s.index, count) := value])
         case _ => s)
    case Received(_, _) =>
      if s.mode.Reading? then s.(mode := Reading(s.mode.count + 1)) else s
  }

  function SlaveAfter(s: Slave, t: Trace): Slave
    decreases t
  {
    if t == [] then s else SlaveStep(SlaveAfter(s, t[..|t| - 1]), t[|t| - 1])
  }

  lemma SlaveAfterOne(s: Slave, t: Trace, e: BusEvent)
    ensures SlaveAfter(s, t + [e]) == SlaveStep(SlaveAfter(s, t), e)
  {
    assert (t + [e])[..|t|] == t;
  }

  /** The slave replays the selected register, from whatever state it started in. */
  ghost predicate Replays(slaveData: Trace -> bv8, s0: Slave) {
    forall t: Trace :: var s := SlaveAfter(s0, t);
      s.mode.Reading? && (s.index, s.mode.count) in s.registers ==> slaveData(t) == s.registers[(s.index, s.mode.count)]
  }

  lemma AllBytesSent(ack: (Trace, bv8) -> bool, t: Trace, bytes: seq<bv8>)
    requires Complete(SendUntilNack(ack, t, bytes), |bytes|)
    ensures SendUntilNack(ack, t, bytes) == seq(|bytes|, k requires 0 <= k < |bytes| => Sent(bytes[k], true))
  {
    var sent := SendUntilNack(ack, t, bytes);
    SentIsPrefixCutAtNack(ack, t, bytes);
    forall k | 0 <= k < |bytes|
      ensures sent[k] == Sent(bytes[k], true)
    {
      assert Values(sent)[k] == bytes[k];
    }
  }

  /** After a complete write the register holds the two bytes, and every other register is as before. */
  lemma WriteStores(ack: (Trace, bv8) -> bool, s0: Slave, t: Trace, offset: bv8, high: bv8, low: bv8)
    requires Complete(SendUntilNack(ack, t + [Start], [TRDB_D5M_I2C_ADDRESS, offset, high, low]), 4)
    ensures var sent := SendUntilNack(ack, t + [Start], [TRDB_D5M_I2C_ADDRESS, offset, high, low]);
            var before, after := SlaveAfter(s0, t), SlaveAfter(s0, t + [Start] + sent + [Stop]);
            after.registers == before.registers[(offset, 0) := high][(offset, 1) := low]
  {
    var t0 := t + [Start];
    var sent := SendUntilNack(ack, t0, [TRDB_D5M_I2C_ADDRESS, offset, high, low]);
    AllBytesSent(ack, t0, [TRDB_D5M_I2C_ADDRESS, offset, high, low]);
    SlaveAfterOne(s0, t, Start);
    SlaveAfterFour(s0, t0, sent);
    SlaveAfterOne(s0, t0 + sent, Stop);
  }

  lemma SlaveAfterFour(s: Slave, t: Trace, e: Trace)
    requires |e| == 4
    ensures SlaveAfter(s, t + e) == SlaveStep(SlaveStep(SlaveStep(SlaveStep(SlaveAfter(s, t), e[0]), e[1]), e[2]), e[3])
  {
    SlaveAfterOne(s, t, e[0]);
    SlaveAfterOne(s, t + [e[0]], e[1]);
    SlaveAfterOne(s, t + [e[0]] + [e[1]], e[2]);
    SlaveAfterOne(s, t + [e[0]] + [e[1]] + [e[2]], e[3]);
    assert t + [e[0]] + [e[1]] + [e[2]] + [e[3]] == t + e;
  }

  /** Selecting a register moves no data. */
  lemma SelectKeepsRegisters(ack: (Trace, bv8) -> bool, s0: Slave, t: Trace, offset: bv8)
    requires Complete(SendUntilNack(ack, t + [Start], [TRDB_D5M_I2C_ADDRESS, offset]), 2)
    ensures var first := t + [Start] + SendUntilNack(ack, t + [Start], [TRDB_D5M_I2C_ADDRESS, offset]) + [Start];
            SlaveAfter(s0, first) == SlaveAfter(s0, t).(mode := Addressed, index := offset)
  {
    var t0 := t + [Start];
    var sent := SendUntilNack(ack, t0, [TRDB_D5M_I2C_ADDRESS, offset]);
    AllBytesSent(ack, t0, [TRDB_D5M_I2C_ADDRESS, offset]);
    assert sent == [Sent(TRDB_D5M_I2C_ADDRESS, true), Sent(offset, true)];
    SlaveAfterOne(s0, t, Start);
    SlaveAfterOne(s0, t0, sent[0]);
    SlaveAfterOne(s0, t0 + [sent[0]], sent[1]);
    assert t0 + [sent[0]] + [sent[1]] == t0 + sent;
    SlaveAfterOne(s0, t0 + sent, Start);
  }

  /** A slave addressed for reading replays the two bytes of the selected register. */
  lemma AddressedReplays(ack: (Trace, bv8) -> bool, data: Trace -> bv8, s0: Slave, first: Trace, high: bv8, low: bv8)
    requires Replays(data, s0)
    requires var s := SlaveAfter(s0, first);
             && s.mode == Addressed && (s.index, 0) in s.registers && (s.index, 1) in s.registers
             && s.registers[(s.index, 0)] == high && s.registers[(s.index, 1)] == low
    requires Complete(SendUntilNack(ack, first, [TRDB_D5M_I2C_ADDRESS | 0x01]), 1)
    ensures var received := ReceiveAll(data, first + SendUntilNack(ack, first, [TRDB_D5M_I2C_ADDRESS | 0x01]), 2);
            received[0].value == high && received[1].value == low
  {
    var again := SendUntilNack(ack, first, [TRDB_D5M_I2C_ADDRESS | 0x01]);
    AllBytesSent(ack, first, [TRDB_D5M_I2C_ADDRESS | 0x01]);
    assert again == [Sent(TRDB_D5M_I2C_ADDRESS | 0x01, true)];
    SlaveAfterOne(s0, first, again[0]);
    var second := first + again;
    assert SlaveAfter(s0, second).mode == Reading(0);
    var received := ReceiveAll(data, second, 2);
    ReceivedAt(data, second, 2, 0);
    assert second + received[..0] == second;
    SlaveAfterOne(s0, second, received[0]);
    ReceivedAt(data, second, 2, 1);
    assert second + received[..1] == second + [received[0]];
  }

  /**
   Writing a register and reading it back, both with success, gives back the value written: for all
   values, registers and initial states of the slave, however it acknowledges.
   */
  method WriteThenRead(dev: I2cDev, offset: bv8, data: bv16, ghost s0: Slave) returns (ok: bool, readBack: bv16)
    requires Replays(dev.slaveData, s0)
    modifies dev
    ensures ok ==> readBack == data
    ensures dev.disturbed == old(dev.disturbed) && Released(dev.trace)
  {
    ghost var t := dev.trace;
    var written := TrdbD5mWrite(dev, offset, data);
    ghost var t1 := dev.trace;
    var read;
    read, readBack := TrdbD5mRead(dev, offset, 0);
    ok := written && read;
    if ok {
      WriteStores(dev.slaveAck, s0, t, offset, High(data), Low(data));
      SelectKeepsRegisters(dev.slaveAck, s0, t1, offset);
      ghost var first := t1 + [Start] +
                         SendUntilNack(dev.slaveAck, t1 + [Start], [TRDB_D5M_I2C_ADDRESS, offset]) + [Start];
      AddressedReplays(dev.slaveAck, dev.slaveData, s0, first, High(data), Low(data));
      JoinSplit(data);
    }
  }
}
