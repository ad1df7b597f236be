/**
 Registration and dispatch of interrupt handlers. A set of interrupt numbers stands for a 32-bit mask.
 */
module Interrupts {

  datatype Handler = Null | Isr(id: nat)
  datatype Entry = Entry(handler: Handler, context: nat)

  /** How a registration ends: with a return code, or with a write outside the table. */
  datatype Registration = Code(rc: int) | OutsideTable(index: int)

  /** The interrupt number as a signed 32-bit integer. */
  function Signed(irq: nat): int {
    if irq < 0x8000_0000 then irq else irq - 0x1_0000_0000
  }

  class Controller {
    const count: nat              // number of interrupts
    const table: array<Entry>
    var enabled: set<nat>
    var raised: set<nat>
    var arrivals: seq<set<nat>>   // what is raised during each of the next handler calls
    var calls: seq<Entry>         // the handlers called so far, with their contexts

    /** Every enabled interrupt has a handler, and no call was made through a null one. */
    ghost predicate Valid()
      reads this, table
    {
      && table.Length == count && count <= 32
      && (forall i :: i in enabled ==> i < count && table[i].handler != Null)
      && (forall k :: 0 <= k < |calls| ==> calls[k].handler != Null)
    }

    constructor (count: nat, raised: set<nat>, arrivals: seq<set<nat>>)
      requires count <= 32
      ensures Valid() && enabled == {} && this.count == count && fresh(table)
    {
      this.count := count;
      table := new Entry[count](_ => Entry(Null, 0));
      enabled, this.raised, this.arrivals, calls := {}, raised, arrivals, [];
    }

    function Pending(): set<nat>
      reads this
    {
      raised * enabled
    }

    /**
     Register or, with a null handler, unregister. A number past the table changes nothing; one from 2^31 up is
     negative as a signed integer, passes the test, and writes before the table.
     */
    method Register(irq: nat, handler: Handler, context: nat) returns (r: Registration)
      requires Valid() && irq < 0x1_0000_0000
      modifies this`enabled, table
      ensures Valid()
      ensures r == if irq < count then Code(0) else if irq < 0x8000_0000 then Code(-22) else OutsideTable(Signed(irq))
      ensures r.OutsideTable? ==> r.index < 0
      ensures irq < count ==>
                && table[..] == old(table[..])[irq := Entry(handler, context)]
                && enabled == if handler == Null then old(enabled) - {irq} else old(enabled) + {irq}
      ensures irq >= count ==> table[..] == old(table[..]) && enabled == old(enabled)
    {
      r := Code(-22);
      var id := Signed(irq);
      if id < count {
        if id < 0 {
          return OutsideTable(id);
        }
        table[id] := Entry(handler, context);
        enabled := if handler == Null then enabled - {irq} else enabled + {irq};
        r := Code(0);
      }
    }

    /** A handler clears its own interrupt; others may be raised meanwhile. */
    method Call(i: nat)
      requires Valid() && i in enabled && i in raised
      modifies this`raised, this`arrivals, this`calls
      ensures Valid() && calls == old(calls) + [table[i]]
      ensures raised == After(old(raised), i, old(arrivals)) && arrivals == Later(old(arrivals))
    {
      calls := calls + [table[i]];
      raised, arrivals := After(raised, i, arrivals), Later(arrivals);
    }

    /** One pass: dispatch the lowest pending interrupt. */
    method DispatchLowest(active: set<nat>)
      requires Valid() && active == Pending() && active != {}
      modifies this`raised, this`arrivals, this`calls
      ensures Valid()
      ensures var i := Lowest(active, count, 0);
              && i in active && i < count
              && calls == old(calls) + [table[i]]
              && raised == After(old(raised), i, old(arrivals))
              && arrivals == Later(old(arrivals))
    {
      var i := 0;
      ghost var some :| some in active;
      LowestIsLeast(active, count, 0);
      while i !in active
        invariant i <= some && Lowest(active, count, i) == Lowest(active, count, 0)
        decreases some - i
      {
        i := i + 1;
      }
      Call(i);
    }

    /** The interrupt entry: dispatch the lowest pending interrupt until none is pending. */
    method Handle()
      requires Valid() && Pending() != {}
      modifies this`raised, this`arrivals, this`calls
      ensures Valid() && Pending() == {}
      ensures calls == old(calls) + Called(table[..], Dispatched(old(raised), enabled, count, old(arrivals)))
      ensures forall k :: |old(calls)| <= k < |calls| ==> calls[k].handler != Null
    {
      var active := Pending();
      ghost var all := Called(table[..], Dispatched(raised, enabled, count, arrivals));
      while active != {}
        invariant Valid() && active == Pending()
        invariant old(calls) + all == calls + Called(table[..], Dispatched(raised, enabled, count, arrivals))
        decreases |arrivals|, |active|
      {
        ghost var done := calls;
        LowestPending(raised, enabled, count);
        DispatchedNext(raised, enabled, count, arrivals);
        DispatchLowest(active);
        ghost var i := Lowest(active, count, 0);
        CalledNext(table[..], i, Dispatched(raised, enabled, count, arrivals));
        Regroup(done, calls, Called(table[..], Dispatched(raised, enabled, count, arrivals)), table[i]);
        active := Pending();
      }
    }
  }

  /** The table entries of interrupts dispatched one after the other. */
  ghost function Called(table: seq<Entry>, numbers: seq<nat>): seq<Entry> {
    if numbers == [] then []
    else (if numbers[0] < |table| then [table[numbers[0]]] else []) + Called(table, numbers[1..])
  }

  lemma CalledNext(table: seq<Entry>, i: nat, rest: seq<nat>)
    requires i < |table|
    ensures Called(table, [i] + rest) == [table[i]] + Called(table, rest)
  {
    assert ([i] + rest)[1..] == rest;
  }

  /** What is raised after interrupt `i` was handled, and what is still to arrive. */
  function After(raised: set<nat>, i: nat, arrivals: seq<set<nat>>): set<nat> {
    if arrivals == [] then raised - {i} else raised - {i} + arrivals[0]
  }

  function Later(arrivals: seq<set<nat>>): seq<set<nat>> {
    if arrivals == [] then [] else arrivals[1..]
  }

  /** The lowest member from `i` on, or the first number past the range. */
  function Lowest(s: set<nat>, count: nat, i: nat): nat
    decreases count - i
  {
    if i in s || i >= count then i else Lowest(s, count, i + 1)
  }

  lemma {:induction false} LowestIsLeast(s: set<nat>, count: nat, i: nat)
    requires exists x :: x in s && i <= x < count
    ensures Lowest(s, count, i) in s && forall x :: x in s && i <= x ==> Lowest(s, count, i) <= x
    decreases count - i
  {
    if i !in s {
      var x :| x in s && i <= x < count;
      LowestIsLeast(s, count, i + 1);
    }
  }

  /** The lowest pending interrupt is pending, and handling it when nothing arrives leaves the others. */
  lemma LowestPending(raised: set<nat>, enabled: set<nat>, count: nat)
    requires (forall i :: i in enabled ==> i < count) && raised * enabled != {}
    ensures var i := Lowest(raised * enabled, count, 0);
            && i in raised * enabled
            && (raised - {i}) * enabled == raised * enabled - {i}
  {
    var x :| x in raised * enabled;
    LowestIsLeast(raised * enabled, count, 0);
  }

  /** The interrupts dispatched, lowest pending first, while others arrive. */
  ghost function Dispatched(raised: set<nat>, enabled: set<nat>, count: nat, arrivals: seq<set<nat>>): seq<nat>
    requires forall i :: i in enabled ==> i < count
    decreases |arrivals|, |raised * enabled|
  {
    if raised * enabled == {} then []
    else
      var i := Lowest(raised * enabled, count, 0);
      LowestPending(raised, enabled, count);
      [i] + Dispatched(After(raised, i, arrivals), enabled, count, Later(arrivals))
  }

  /** The lowest pending interrupt goes first, and what arrives meanwhile joins the rest. */
  lemma DispatchedNext(raised: set<nat>, enabled: set<nat>, count: nat, arrivals: seq<set<nat>>)
    requires (forall i :: i in enabled ==> i < count) && raised * enabled != {}
    ensures Dispatched(raised, enabled, count, arrivals) ==
              var i := Lowest(raised * enabled, count, 0);
              [i] + Dispatched(After(raised, i, arrivals), enabled, count, Later(arrivals))
  {
  }

  lemma Regroup(done: seq<Entry>, calls: seq<Entry>, rest: seq<Entry>, e: Entry)
    requires calls == done + [e]
    ensures done + ([e] + rest) == calls + rest
  {
  }

  /** When nothing arrives, each pending interrupt is dispatched once, in ascending order. */
  lemma {:induction false} DispatchedAscending(raised: set<nat>, enabled: set<nat>, count: nat)
    requires forall i :: i in enabled ==> i < count
    ensures var d := Dispatched(raised, enabled, count, []);
            && |d| == |raised * enabled|
            && (forall i :: i in d <==> i in raised * enabled)
            && forall j, k :: 0 <= j < k < |d| ==> d[j] < d[k]
    decreases |raised * enabled|
  {
    var p := raised * enabled;
    if p != {} {
      LowestPending(raised, enabled, count);
      LowestIsLeast(p, count, 0);
      DispatchedNext(raised, enabled, count, []);
      var i := Lowest(p, count, 0);
      DispatchedAscending(raised - {i}, enabled, count);
      var rest := Dispatched(raised - {i}, enabled, count, []);
      forall k | 0 <= k < |rest|
        ensures i < rest[k]
      {
        assert rest[k] in rest;
      }
    }
  }

  /** Nothing is dispatched that is not enabled, and the first is the lowest of those pending. */
  lemma {:induction false} DispatchedEnabled(raised: set<nat>, enabled: set<nat>, count: nat, arrivals: seq<set<nat>>)
    requires forall i :: i in enabled ==> i < count
    ensures var d := Dispatched(raised, enabled, count, arrivals);
            && (forall i :: i in d ==> i in enabled)
            && (raised * enabled != {} ==> |d| > 0 && d[0] in raised && forall x :: x in raised * enabled ==> d[0] <= x)
    decreases |arrivals|, |raised * enabled|
  {
    var p := raised * enabled;
    if p != {} {
      var x :| x in p;
      LowestIsLeast(p, count, 0);
      var i := Lowest(p, count, 0);
      if arrivals == [] {
        assert (raised - {i}) * enabled == p - {i};
        DispatchedEnabled(raised - {i}, enabled, count, []);
      } else {
        DispatchedEnabled(raised - {i} + arrivals[0], enabled, count, arrivals[1..]);
      }
    }
  }

  /** Every interrupt dispatched has its handler called, with its context. */
  lemma {:induction false} CalledAt(table: seq<Entry>, numbers: seq<nat>, k: nat)
    requires k < |numbers| && forall j :: 0 <= j < |numbers| ==> numbers[j] < |table|
    ensures |Called(table, numbers)| == |numbers| && Called(table, numbers)[k] == table[numbers[k]]
    decreases |numbers|
  {
    if |numbers| > 1 {
      CalledAt(table, numbers[1..], if k == 0 then 0 else k - 1);
    }
  }
}
