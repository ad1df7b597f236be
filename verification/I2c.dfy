/**
 The I2C master driver over its controller registers. The bus is the trace of what happened on it
 (UM10204, sections 3.1.4 to 3.1.6 and 3.1.10); the slave may acknowledge and send what it likes.
 */
module I2c {

  // ---- the bus ---------------------------------------------------------------------------------

  datatype BusEvent =
    | Start
    | Sent(value: bv8, ack: bool)     // by the master, acknowledged by the slave
    | Received(value: bv8, ack: bool) // by the slave, acknowledged by the master
    | Stop

  type Trace = seq<BusEvent>

  const CONTROL_ACKNOWLEDGE_READ: bv8 := 0x01 // set: do not acknowledge the byte read
  const CONTROL_STOP: bv8 := 0x02
  const CONTROL_START: bv8 := 0x04
  const CONTROL_READ: bv8 := 0x08
  const CONTROL_WRITE: bv8 := 0x10

  const STATUS_LAST_ACKNOWLEDGE: bv8 := 0x01  // set: the last byte was not acknowledged
  const STATUS_TRANSFER_IN_PROGRESS: bv8 := 0x08

  datatype Result = Success | NoDevice | BadAck

  /** The controller and the slave behind it. Its answers may depend on all that went over the bus. */
  class I2cDev {
    const slaveAck: (Trace, bv8) -> bool
    const slaveData: Trace -> bv8
    const latency: nat -> nat // status polls that a transfer takes, by position in the trace
    var data: bv8
    var nack: bool
    var busy: bool
    var polls: nat
    var trace: Trace
    var disturbed: bool       // a register was written while a transfer was in progress

    constructor (slaveAck: (Trace, bv8) -> bool, slaveData: Trace -> bv8, latency: nat -> nat)
      ensures this.slaveAck == slaveAck && this.slaveData == slaveData
      ensures trace == [] && !disturbed && !busy
    {
      this.slaveAck, this.slaveData, this.latency := slaveAck, slaveData, latency;
      data, nack, busy, polls, trace, disturbed := 0, false, false, 0, [], false;
    }

    method ReadStatus() returns (status: bv8)
      modifies this`busy, this`polls
      ensures status & STATUS_TRANSFER_IN_PROGRESS != 0 <==> busy
      ensures status & STATUS_LAST_ACKNOWLEDGE != 0 <==> nack
      ensures busy ==> old(busy) && polls < old(polls)
    {
      if polls == 0 {
        busy := false;
      } else {
        polls := polls - 1;
      }
      status := (if busy then STATUS_TRANSFER_IN_PROGRESS else 0) | (if nack then STATUS_LAST_ACKNOWLEDGE else 0);
    }

    method WriteData(value: bv8)
      modifies this`data, this`disturbed
      ensures data == value && disturbed == (old(disturbed) || busy)
    {
      disturbed := disturbed || busy;
      data := value;
    }

    /** Start the transfer that the control bits ask for. */
    method WriteControl(control: bv8)
      modifies this
      ensures disturbed == (old(disturbed) || old(busy)) && busy
      ensures var (t, d, n) := Transfer(control, old(trace), old(data), old(nack)); trace == t && data == d && nack == n
    {
      disturbed := disturbed || busy;
      var (t, d, n) := Transfer(control, trace, data, nack);
      trace, data, nack, busy := t, d, n, true;
      polls := latency(|trace|);
    }

    /** Trace, data register and acknowledge bit after a transfer. */
    function Transfer(control: bv8, t: Trace, d: bv8, n: bool): (Trace, bv8, bool) {
      var t1 := if control & CONTROL_START != 0 then t + [Start] else t;
      var ack := slaveAck(t1, d);
      var (t2, n2) := if control & CONTROL_WRITE != 0 then (t1 + [Sent(d, ack)], !ack) else (t1, n);
      var v := slaveData(t2);
      var (t3, d3) :=
        if control & CONTROL_READ == 0 then (t2, d)
        else (t2 + [Received(v, control & CONTROL_ACKNOWLEDGE_READ == 0)], v);
      (if control & CONTROL_STOP != 0 then t3 + [Stop] else t3, d3, n2)
    }

    // ---- the driver ----------------------------------------------------------------------------

    method WaitEndOfTransfer()
      modifies this`busy, this`polls
      ensures !busy
    {
      var status := ReadStatus();
      while status & STATUS_TRANSFER_IN_PROGRESS != 0
        invariant status & STATUS_TRANSFER_IN_PROGRESS != 0 <==> busy
        decreases if busy then polls + 1 else 0
      {
        status := ReadStatus();
      }
    }

    /** Send one byte, after a START if asked for, before a STOP if asked for. */
    method SetDataControl(value: bv8, control: bv8) returns (ghost acked: bool)
      requires control & CONTROL_WRITE != 0 && control & CONTROL_READ == 0
      modifies this
      ensures !busy && disturbed == old(disturbed) && nack == !acked
      ensures var begun := if control & CONTROL_START != 0 then old(trace) + [Start] else old(trace);
              acked == slaveAck(begun, value)
              && trace == begun + [Sent(value, acked)] + if control & CONTROL_STOP != 0 then [Stop] else []
    {
      WaitEndOfTransfer();
      WriteData(value);
      WriteControl(control);
      acked := !nack;
      WaitEndOfTransfer();
    }

    /** Receive one byte, before a STOP if asked for. */
    method GetDataSetControl(control: bv8) returns (value: bv8)
      requires control & CONTROL_READ != 0 && control & CONTROL_WRITE == 0 && control & CONTROL_START == 0
      modifies this
      ensures !busy && disturbed == old(disturbed) && value == slaveData(old(trace))
      ensures trace == old(trace) + [Received(value, control & CONTROL_ACKNOWLEDGE_READ == 0)]
                       + if control & CONTROL_STOP != 0 then [Stop] else []
    {
      WaitEndOfTransfer();
      WriteControl(control);
      WaitEndOfTransfer();
      value := data;
    }

    /** The error exit after a byte that was not acknowledged. */
    method CheckAck(error: Result) returns (result: Result)
      requires !busy && error != Success
      modifies this
      ensures disturbed == old(disturbed) && nack == old(nack)
      ensures result == (if old(nack) then error else Success)
      ensures trace == if old(nack) then old(trace) + [Stop] else old(trace)
      ensures !old(nack) ==> !busy
    {
      var status := ReadStatus();
      if status & STATUS_LAST_ACKNOWLEDGE != 0 {
        WriteControl(CONTROL_STOP);
        return error;
      }
      result := Success;
    }

    /** Address the device for writing and send the register index. */
    method Address(device: bv8, index: bv8) returns (result: Result)
      modifies this
      ensures disturbed == old(disturbed) && (result == Success ==> !busy)
      ensures var sent := SendUntilNack(slaveAck, old(trace) + [Start], [device & 0xFE, index]);
              && result == Outcome(sent, 2)
              && trace == old(trace) + [Start] + sent + if result == Success then [] else [Stop]
    {
      ghost var begun := trace + [Start];
      ghost var acked := SetDataControl(device & 0xFE, CONTROL_START | CONTROL_WRITE);
      ghost var first := Sent(device & 0xFE, acked);
      assert begun[..|begun|] == begun && trace == begun + [first];
      SendFirst(slaveAck, begun, [device & 0xFE, index]);
      result := CheckAck(NoDevice);
      if result != Success {
        return;
      }
      acked := SetDataControl(index, CONTROL_WRITE);
      SendFirst(slaveAck, begun + [first], [index]);
      result := CheckAck(BadAck);
      assert begun + [first] + [Sent(index, acked)] == begun + [first, Sent(index, acked)];
    }

    /** Send one value, the last one before a STOP, and take the error exit if it is not acknowledged. */
    method SendValue(value: bv8, last: bool) returns (result: Result)
      requires !busy
      modifies this
      ensures disturbed == old(disturbed) && (result == Success ==> !busy)
      ensures var e := Sent(value, slaveAck(old(trace), value));
              && result == (if e.ack then Success else BadAck)
              && trace == old(trace) + [e] + (if last then [Stop] else []) + if e.ack then [] else [Stop]
    {
      ghost var acked := SetDataControl(value, if last then CONTROL_STOP | CONTROL_WRITE else CONTROL_WRITE);
      result := CheckAck(BadAck);
    }

    /** The loop that sends the values; the last byte carries the STOP. */
    method SendValues(value: array<bv8>, size: nat) returns (result: Result)
      requires size <= value.Length && !busy
      modifies this
      ensures disturbed == old(disturbed)
      ensures var sent := SendUntilNack(slaveAck, old(trace), value[..size]);
              && result == (if Complete(sent, size) then Success else BadAck)
              && trace == old(trace) + sent + Stops(sent, size, result)
    {
      ghost var base := trace;
      ghost var values := value[..size];
      ghost var sent := SendUntilNack(slaveAck, base, values);
      var i := 0;
      result := Success;
      assert base + [] == base;
      while i < size
        invariant i <= |sent| <= size && (i < size ==> i < |sent|) && !busy && disturbed == old(disturbed)
        invariant trace == base + sent[..i] + if i == size && size > 0 then [Stop] else []
        invariant i == size && size > 0 ==> sent[size - 1].ack
        invariant result == Success
      {
        SentAt(slaveAck, base, values, i);
        NextSent(base, sent, i);
        result := SendValue(value[i], i == size - 1);
        if result != Success {
          return;
        }
        i := i + 1;
      }
      assert sent[..size] == sent;
    }

    /** Write `size` bytes to a register. */
    method WriteArray(device: bv8, index: bv8, value: array<bv8>, size: nat) returns (result: Result)
      requires size <= value.Length
      modifies this
      ensures disturbed == old(disturbed)
      ensures var sent := SendUntilNack(slaveAck, old(trace) + [Start], [device & 0xFE, index] + value[..size]);
              && result == Outcome(sent, size + 2)
              && trace == old(trace) + [Start] + sent + (if |sent| < 2 then [Stop] else Stops(sent[2..], size, result))
      ensures Reports(slaveAck, old(trace) + [Start], [device & 0xFE, index] + old(value[..size]), result)
      ensures Released(trace) <==> size > 0 || result != Success
    {
      ghost var begun, values := trace + [Start], value[..size];
      OutcomeReports(slaveAck, begun, [device & 0xFE, index] + values);
      ghost var sent := SendUntilNack(slaveAck, begun, [device & 0xFE, index]);
      WriteFrame(slaveAck, begun, [device & 0xFE, index], values);
      result := Address(device, index);
      if result == Success {
        assert trace == begun + sent;
        result := SendValues(value, size);
      }
    }

    /** The loop that receives the values; the last byte is not acknowledged and carries the STOP. */
    method ReceiveValues(value: array<bv8>, size: nat)
      requires size <= value.Length && !busy
      modifies this, value
      ensures disturbed == old(disturbed)
      ensures var received := ReceiveAll(slaveData, old(trace), size);
              && trace == old(trace) + received + (if size > 0 then [Stop] else [])
              && value[..size] == Values(received)
      ensures value[size..] == old(value[size..])
    {
      ghost var base := trace;
      ghost var received := ReceiveAll(slaveData, base, size);
      var i := 0;
      assert base + [] == base;
      while i < size
        invariant i <= size && !busy && disturbed == old(disturbed) && value[size..] == old(value[size..])
        invariant trace == base + received[..i] + if i == size && size > 0 then [Stop] else []
        invariant forall k :: 0 <= k < i ==> value[k] == received[k].value
      {
        ReceivedAt(slaveData, base, size, i);
        assert trace == base + received[..i];
        if i < size - 1 {
          value[i] := GetDataSetControl(CONTROL_READ);
        } else {
          value[i] := GetDataSetControl(CONTROL_STOP | CONTROL_READ | CONTROL_ACKNOWLEDGE_READ);
        }
        assert received[..i + 1] == received[..i] + [received[i]];
        i := i + 1;
      }
      assert received[..size] == received;
      assert value[..size] == Values(received);
    }

    /** Address the device for writing, send the register index, and address it again for reading. */
    method AddressForRead(device: bv8, index: bv8) returns (result: Result)
      modifies this
      ensures disturbed == old(disturbed) && (result == Success ==> !busy)
      ensures var sent := SendUntilNack(slaveAck, old(trace) + [Start], [device & 0xFE, index]);
              var first := old(trace) + [Start] + sent;
              if !Complete(sent, 2) then
                result == Outcome(sent, 2) && trace == first + [Stop]
              else
                var again := SendUntilNack(slaveAck, first + [Start], [device | 0x01]);
                if Complete(again, 1) then result == Success && trace == first + [Start] + again
                else result == NoDevice && trace == first + [Start] + again + [Stop]
      ensures ReadReports(slaveAck, old(trace) + [Start], device, index, result)
    {
      ReadOutcomeReports(slaveAck, trace + [Start], device, index);
      ghost var sent := SendUntilNack(slaveAck, trace + [Start], [device & 0xFE, index]);
      ghost var first := trace + [Start] + sent;
      result := Address(device, index);
      if result != Success {
        return;
      }
      assert trace == first;
      ghost var again := SendUntilNack(slaveAck, first + [Start], [device | 0x01]);
      assert [device | 0x01][1..] == [];
      SendFirst(slaveAck, first + [Start], [device | 0x01]);
      ghost var acked := SetDataControl(device | 0x01, CONTROL_START | CONTROL_WRITE);
      assert trace == first + [Start] + again;
      result := CheckAck(NoDevice);
    }

    /** Read `size` bytes from a register, addressing the device again after a repeated START. */
    method ReadArray(device: bv8, index: bv8, value: array<bv8>, size: nat) returns (result: Result)
      requires size <= value.Length
      modifies this, value
      ensures disturbed == old(disturbed)
      ensures var sent := SendUntilNack(slaveAck, old(trace) + [Start], [device & 0xFE, index]);
              var first := old(trace) + [Start] + sent;
              if !Complete(sent, 2) then
                result == Outcome(sent, 2) && trace == first + [Stop]
              else
                var again := SendUntilNack(slaveAck, first + [Start], [device | 0x01]);
                var second := first + [Start] + again;
                if !Complete(again, 1) then
                  result == NoDevice && trace == second + [Stop]
                else
                  var received := ReceiveAll(slaveData, second, size);
                  && result == Success
                  && trace == second + received + (if size > 0 then [Stop] else [])
                  && value[..size] == Values(received)
      ensures value[size..] == old(value[size..]) && (result != Success ==> value[..] == old(value[..]))
      ensures ReadReports(slaveAck, old(trace) + [Start], device, index, result)
      ensures Released(trace) <==> size > 0 || result != Success
    {
      result := AddressForRead(device, index);
      if result == Success {
        ReceiveValues(value, size);
      }
    }

    /** Read one byte from a register; `value` is `value0` when that fails. */
    method Read(device: bv8, index: bv8, value0: bv8) returns (result: Result, value: bv8)
      modifies this
      ensures disturbed == old(disturbed) && Released(trace)
      ensures var sent := SendUntilNack(slaveAck, old(trace) + [Start], [device & 0xFE, index]);
              var first := old(trace) + [Start] + sent;
              if !Complete(sent, 2) then
                result == Outcome(sent, 2) && trace == first + [Stop] && value == value0
              else
                var again := SendUntilNack(slaveAck, first + [Start], [device | 0x01]);
                var second := first + [Start] + again;
                if !Complete(again, 1) then
                  result == NoDevice && trace == second + [Stop] && value == value0
                else
                  && result == Success && value == slaveData(second)
                  && trace == second + ReceiveAll(slaveData, second, 1) + [Stop]
      ensures ReadReports(slaveAck, old(trace) + [Start], device, index, result)
    {
      value := value0;
      result := AddressForRead(device, index);
      if result == Success {
        ghost var second := trace;
        assert ReceiveAll(slaveData, second, 1) == [Received(slaveData(second), false)];
        value := GetDataSetControl(CONTROL_STOP | CONTROL_READ | CONTROL_ACKNOWLEDGE_READ);
      }
    }

    /** Write one byte to a register. */
    method Write(device: bv8, index: bv8, value: bv8) returns (result: Result)
      modifies this
      ensures disturbed == old(disturbed) && Released(trace)
      ensures var sent := SendUntilNack(slaveAck, old(trace) + [Start], [device & 0xFE, index] + [value]);
              && result == Outcome(sent, 3)
              && trace == old(trace) + [Start] + sent + (if |sent| < 2 then [Stop] else Stops(sent[2..], 1, result))
      ensures Reports(slaveAck, old(trace) + [Start], [device & 0xFE, index] + [value], result)
    {
      ghost var begun := trace + [Start];
      OutcomeReports(slaveAck, begun, [device & 0xFE, index] + [value]);
      ghost var sent := SendUntilNack(slaveAck, begun, [device & 0xFE, index]);
      WriteFrame(slaveAck, begun, [device & 0xFE, index], [value]);
      result := Address(device, index);
      if result == Success {
        assert trace == begun + sent && [value][1..] == [];
        SendFirst(slaveAck, trace, [value]);
        result := SendValue(value, true);
      }
    }
  }

  // ---- what a transfer looks like ----------------------------------------------------------------

  /** Bytes sent one after the other until one is not acknowledged. */
  function SendUntilNack(ack: (Trace, bv8) -> bool, t: Trace, bytes: seq<bv8>): (sent: Trace)
    ensures |sent| <= |bytes| && (bytes != [] ==> sent != [])
    ensures forall k :: 0 <= k < |sent| ==> sent[k].Sent?
    decreases bytes
  {
    if bytes == [] then []
    else
      var e := Sent(bytes[0], ack(t, bytes[0]));
      if e.ack then [e] + SendUntilNack(ack, t + [e], bytes[1..]) else [e]
  }

  /** The first byte and, if it is acknowledged, the rest. */
  lemma SendFirst(ack: (Trace, bv8) -> bool, t: Trace, bytes: seq<bv8>)
    requires bytes != []
    ensures var e := Sent(bytes[0], ack(t, bytes[0]));
            SendUntilNack(ack, t, bytes) == if e.ack then [e] + SendUntilNack(ack, t + [e], bytes[1..]) else [e]
    ensures bytes[1..] == [] ==> SendUntilNack(ack, t, bytes) == [Sent(bytes[0], ack(t, bytes[0]))]
  {
  }

  /** The bytes on the bus are a prefix of the bytes to send, cut right after the first one not acknowledged. */
  lemma SentIsPrefixCutAtNack(ack: (Trace, bv8) -> bool, t: Trace, bytes: seq<bv8>)
    ensures var sent := SendUntilNack(ack, t, bytes);
            && Values(sent) <= bytes
            && (forall k :: 0 <= k < |sent| - 1 ==> sent[k].ack)
            && (|sent| < |bytes| ==> |sent| > 0 && !sent[|sent| - 1].ack)
            && (Complete(sent, |bytes|) <==> |sent| == |bytes| && forall k :: 0 <= k < |sent| ==> sent[k].ack)
  {
    var sent := SendUntilNack(ack, t, bytes);
    forall k: nat | k < |sent|
      ensures sent[k].value == bytes[k] && (k + 1 < |sent| ==> sent[k].ack)
      ensures k + 1 == |sent| < |bytes| ==> !sent[k].ack
    {
      SentAt(ack, t, bytes, k);
    }
  }

  /** The last thing on the bus is a STOP. */
  predicate Released(t: Trace) {
    |t| > 0 && t[|t| - 1] == Stop
  }

  /** All `n` bytes went out and were acknowledged. */
  predicate Complete(sent: Trace, n: nat) {
    |sent| == n && (n > 0 ==> sent[n - 1].Sent? && sent[n - 1].ack)
  }

  /** The STOP that came with the last of `size` bytes, and the STOP of the error exit. */
  function Stops(sent: Trace, size: nat, result: Result): Trace {
    (if |sent| == size && size > 0 then [Stop] else []) + (if result != Success then [Stop] else [])
  }

  /** What is reported for the bytes that went out of `n`, of which the first addresses the device. */
  function Outcome(sent: Trace, n: nat): Result {
    if Complete(sent, n) then Success else if |sent| <= 1 then NoDevice else BadAck
  }

  /** Byte `i` is acknowledged or not after everything before it, and the next one follows only if it is. */
  lemma {:induction false} SentAt(ack: (Trace, bv8) -> bool, t: Trace, bytes: seq<bv8>, i: nat)
    requires i < |SendUntilNack(ack, t, bytes)|
    ensures var sent := SendUntilNack(ack, t, bytes);
            && sent[i] == Sent(bytes[i], ack(t + sent[..i], bytes[i]))
            && (i + 1 < |sent| <==> sent[i].ack && i + 1 < |bytes|)
    decreases bytes
  {
    var sent := SendUntilNack(ack, t, bytes);
    if i == 0 {
      assert t + sent[..0] == t;
    } else {
      var e := Sent(bytes[0], ack(t, bytes[0]));
      SentAt(ack, t + [e], bytes[1..], i - 1);
      assert t + sent[..i] == t + [e] + SendUntilNack(ack, t + [e], bytes[1..])[..i - 1];
    }
  }

  lemma Regroup(a: Trace, b: Trace, c: Trace)
    ensures a + b + c == a + (b + c)
  {
  }

  lemma CompleteAfter(e: BusEvent, rest: Trace, n: nat)
    requires e.Sent? && e.ack
    ensures Complete([e] + rest, n + 1) <==> Complete(rest, n)
  {
  }

  /** Sending a then b is sending a and, if all of it was acknowledged, sending b. */
  lemma {:induction false} SendAppend(ack: (Trace, bv8) -> bool, t: Trace, a: seq<bv8>, b: seq<bv8>)
    ensures var sent := SendUntilNack(ack, t, a);
            SendUntilNack(ack, t, a + b) == if Complete(sent, |a|) then sent + SendUntilNack(ack, t + sent, b) else sent
    decreases a
  {
    if a == [] {
      assert a + b == b && t + [] == t;
    } else {
      var e := Sent(a[0], ack(t, a[0]));
      assert (a + b)[1..] == a[1..] + b;
      SendFirst(ack, t, a);
      SendFirst(ack, t, a + b);
      if e.ack {
        var rest := SendUntilNack(ack, t + [e], a[1..]);
        SendAppend(ack, t + [e], a[1..], b);
        CompleteAfter(e, rest, |a| - 1);
        Regroup(t, [e], rest);
        Regroup([e], rest, SendUntilNack(ack, t + [e] + rest, b));
      }
    }
  }

  lemma NextSent(base: Trace, sent: Trace, i: nat)
    requires i < |sent|
    ensures base + sent[..i] + [] == base + sent[..i]
    ensures base + sent[..i] + [sent[i]] == base + sent[..i + 1]
    ensures i + 1 == |sent| ==> sent[..i + 1] == sent
  {
  }

  /** A frame of two head bytes and some values: what is on the bus, and what is reported. */
  lemma WriteFrame(ack: (Trace, bv8) -> bool, t: Trace, head: seq<bv8>, values: seq<bv8>)
    requires |head| == 2
    ensures var sent := SendUntilNack(ack, t, head);
            var all := SendUntilNack(ack, t, head + values);
            if Complete(sent, 2) then
              var rest := SendUntilNack(ack, t + sent, values);
              && all == sent + rest && all[2..] == rest && t + sent + rest == t + all
              && Outcome(all, |values| + 2) == if Complete(rest, |values|) then Success else BadAck
            else
              && all == sent && (|sent| == 2 ==> sent[2..] == [])
              && Outcome(all, |values| + 2) == Outcome(sent, 2)
  {
    SendAppend(ack, t, head, values);
    var sent := SendUntilNack(ack, t, head);
    Regroup(t, sent, SendUntilNack(ack, t + sent, values));
  }

  /** Bytes received one after the other; only the last one is not acknowledged. */
  function ReceiveAll(data: Trace -> bv8, t: Trace, n: nat): (received: Trace)
    ensures |received| == n && forall k :: 0 <= k < n ==> received[k].Received?
    decreases n
  {
    if n == 0 then []
    else
      var e := Received(data(t), n > 1);
      [e] + ReceiveAll(data, t + [e], n - 1)
  }

  /** Byte `i` is what the slave sends after everything before it. */
  lemma {:induction false} ReceivedAt(data: Trace -> bv8, t: Trace, n: nat, i: nat)
    requires i < n
    ensures var received := ReceiveAll(data, t, n);
            received[i] == Received(data(t + received[..i]), i + 1 < n)
    decreases n
  {
    var received := ReceiveAll(data, t, n);
    if i == 0 {
      assert t + received[..0] == t;
    } else {
      var e := Received(data(t), n > 1);
      ReceivedAt(data, t + [e], n - 1, i - 1);
      assert t + received[..i] == t + [e] + ReceiveAll(data, t + [e], n - 1)[..i - 1];
    }
  }

  function Values(events: Trace): seq<bv8>
    requires forall k :: 0 <= k < |events| ==> events[k].Sent? || events[k].Received?
  {
    seq(|events|, k requires 0 <= k < |events| => events[k].value)
  }

  // ---- results in terms of the slave -------------------------------------------------------------

  /** The first `k` bytes on the bus, all of them acknowledged. */
  function Acked(bytes: seq<bv8>, k: nat): (sent: Trace)
    requires k <= |bytes|
    ensures |sent| == k && forall i :: 0 <= i < k ==> sent[i] == Sent(bytes[i], true)
  {
    seq(k, i requires 0 <= i < k => Sent(bytes[i], true))
  }

  /** The slave acknowledges each of the bytes after all the bytes before it. */
  ghost predicate Takes(ack: (Trace, bv8) -> bool, t: Trace, bytes: seq<bv8>) {
    forall k: nat :: k < |bytes| ==> ack(t + Acked(bytes, k), bytes[k])
  }

  /** Success when the slave takes all bytes, no device when it refuses the first one, else a bad acknowledge. */
  ghost predicate Reports(ack: (Trace, bv8) -> bool, t: Trace, bytes: seq<bv8>, result: Result)
    requires bytes != []
  {
    && (result == Success <==> Takes(ack, t, bytes))
    && (result == NoDevice <==> !ack(t, bytes[0]))
  }

  /**
   The same for a read: the device is missing when it refuses its address for writing, or takes that and the
   register index and then refuses its address for reading.
   */
  ghost predicate ReadReports(ack: (Trace, bv8) -> bool, t: Trace, device: bv8, index: bv8, result: Result) {
    var head := [device & 0xFE, index];
    var again := t + Acked(head, 2) + [Start];
    && (result == Success <==> Takes(ack, t, head) && ack(again, device | 0x01))
    && (result == NoDevice <==> !ack(t, device & 0xFE) || (Takes(ack, t, head) && !ack(again, device | 0x01)))
  }

  /** Everything went out and was acknowledged iff the slave takes it. */
  lemma CompleteIffTaken(ack: (Trace, bv8) -> bool, t: Trace, bytes: seq<bv8>)
    ensures var sent := SendUntilNack(ack, t, bytes);
            && (Complete(sent, |bytes|) <==> Takes(ack, t, bytes))
            && (Complete(sent, |bytes|) ==> sent == Acked(bytes, |bytes|))
  {
    var sent := SendUntilNack(ack, t, bytes);
    SentIsPrefixCutAtNack(ack, t, bytes);
    forall k: nat | k < |sent|
      ensures sent[..k] == Acked(bytes, k) && (sent[k].ack <==> ack(t + Acked(bytes, k), bytes[k]))
    {
      SentAt(ack, t, bytes, k);
      AckedBefore(ack, t, bytes, k);
    }
    if |sent| == |bytes| && forall k :: 0 <= k < |sent| ==> sent[k].ack {
      forall k: nat | k < |sent|
        ensures sent[k] == Sent(bytes[k], true)
      {
        SentAt(ack, t, bytes, k);
      }
      assert sent == Acked(bytes, |bytes|);
    }
  }

  lemma AckedBefore(ack: (Trace, bv8) -> bool, t: Trace, bytes: seq<bv8>, k: nat)
    requires k < |SendUntilNack(ack, t, bytes)|
    ensures SendUntilNack(ack, t, bytes)[..k] == Acked(bytes, k)
  {
    var sent := SendUntilNack(ack, t, bytes);
    forall i: nat | i < k
      ensures sent[i] == Sent(bytes[i], true)
    {
      SentAt(ack, t, bytes, i);
    }
  }

  /** What is reported for bytes of which the first addresses the device, in terms of the slave. */
  lemma OutcomeReports(ack: (Trace, bv8) -> bool, t: Trace, bytes: seq<bv8>)
    requires |bytes| >= 2
    ensures Reports(ack, t, bytes, Outcome(SendUntilNack(ack, t, bytes), |bytes|))
  {
    var sent := SendUntilNack(ack, t, bytes);
    CompleteIffTaken(ack, t, bytes);
    SentAt(ack, t, bytes, 0);
    assert sent[..0] == [] && t + [] == t && t + Acked(bytes, 0) == t;
  }

  /** The same for the three bytes that begin a read. */
  lemma ReadOutcomeReports(ack: (Trace, bv8) -> bool, t: Trace, device: bv8, index: bv8)
    ensures var head := [device & 0xFE, index];
            var sent := SendUntilNack(ack, t, head);
            var again := SendUntilNack(ack, t + sent + [Start], [device | 0x01]);
            ReadReports(ack, t, device, index,
                        if !Complete(sent, 2) then Outcome(sent, 2)
                        else if Complete(again, 1) then Success else NoDevice)
  {
    var head := [device & 0xFE, index];
    var sent := SendUntilNack(ack, t, head);
    OutcomeReports(ack, t, head);
    CompleteIffTaken(ack, t, head);
    if Complete(sent, 2) {
      SendFirst(ack, t + sent + [Start], [device | 0x01]);
    }
  }
}
