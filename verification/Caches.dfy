/**
 The cache flush loops of the HAL, over a direct-mapped write-back data cache and a direct-mapped
 instruction cache. Addresses are 32 bits wide and line sizes divide the address space.
 */
module Caches {
  import opened Modular

  const TOP: nat := 0x1_0000_0000 // one past the last address

  // ---- the loop over a region ------------------------------------------------------------------

  /** The loop of a flush from `start` to `end` reaches the end before the addresses wrap. */
  predicate LoopEnds(start: nat, end: nat, lineSize: nat)
    requires lineSize > 0
  {
    start >= end || end <= TOP - lineSize + start % lineSize
  }

  /** Otherwise it never stops: every address it visits lies below the end. */
  lemma LoopNeverEnds(start: nat, end: nat, lineSize: nat, k: nat)
    requires 0 < lineSize <= TOP && TOP % lineSize == 0 && end < TOP && !LoopEnds(start, end, lineSize)
    ensures (start + k * lineSize) % TOP < end
  {
    var i := (start + k * lineSize) % TOP;
    var q := (start + k * lineSize) / TOP;
    var m := TOP / lineSize;
    assert TOP == m * lineSize;
    assert start + k * lineSize == q * TOP + i;
    assert q * TOP == (q * m) * lineSize;
    assert i == start + (k - q * m) * lineSize by {
      assert (k - q * m) * lineSize == k * lineSize - (q * m) * lineSize;
    }
    AddMultiple(start, k - q * m, lineSize);
    assert i % lineSize == start % lineSize;
    LastOfResidue(i, m, lineSize);
  }

  /** Blocks are ordered as their boundaries are. */
  lemma QuotientOrder(p: int, q: int, n: nat)
    requires n > 0 && p * n < q * n
    ensures p < q
  {
    assert (p - q) * n == p * n - q * n;
    if p >= q {
      MulNonNegative(p - q, n);
    }
  }

  /** The last number below m * n with the remainder of i is (m - 1) * n plus that remainder. */
  lemma LastOfResidue(i: nat, m: nat, n: nat)
    requires n > 0 && i < m * n
    ensures i <= m * n - n + i % n
  {
    var q := i / n;
    assert i == q * n + i % n;
    QuotientOrder(q, m, n);
    assert (m - 1 - q) * n == m * n - n - q * n;
    MulNonNegative(m - 1 - q, n);
  }

  /** One step of the loop advances by one block. */
  lemma NextBlock(i: nat, n: nat)
    requires n > 0
    ensures (i + n) / n == i / n + 1 && (i + n) % n == i % n
  {
    AddMultiple(i, 1, n);
  }

  /** An address below a line boundary lies in an earlier block. */
  lemma DivBelowBoundary(x: nat, y: nat, n: nat)
    requires n > 0 && x < y && y % n == 0
    ensures x / n < y / n
  {
    var p, q := x / n, y / n;
    assert x == p * n + x % n && y == q * n;
    QuotientOrder(p, q, n);
  }

  /** The blocks flushed from `start` up to block `last` cover every address of start..end. */
  lemma Covered(start: nat, end: nat, i: nat, n: nat, a: nat)
    requires n > 0 && start <= a < end <= i && i % n == start % n
    ensures start / n <= a / n
    ensures start % n == 0 ==> a / n < i / n
    ensures a / n <= i / n
  {
    DivMonotone(start, a, n);
    DivMonotone(a, i, n);
    if start % n == 0 {
      DivBelowBoundary(a, i, n);
    }
  }

  /** Where the loop stops: the first address from `start` on, in whole lines, that is not below the end. */
  function StopAt(start: nat, end: nat, lineSize: nat): nat
    requires lineSize > 0
  {
    if start >= end then start else start + WholeLines(end - start, lineSize)
  }

  /** A length rounded up to whole lines. */
  function WholeLines(len: nat, lineSize: nat): nat
    requires lineSize > 0
  {
    (len + lineSize - 1) / lineSize * lineSize
  }

  lemma WholeLinesUnique(len: nat, n: nat, k: int)
    requires n > 0 && len <= k * n < len + n
    ensures WholeLines(len, n) == k * n
  {
    DivModUnique(len + n - 1, k, len + n - 1 - k * n, n);
  }

  lemma StopIsFirst(start: nat, end: nat, lineSize: nat, i: nat)
    requires lineSize > 0 && start <= i && end <= i && i % lineSize == start % lineSize
    requires i == start || (start < end && i < end + lineSize)
    ensures i == StopAt(start, end, lineSize)
  {
    if start < end {
      var k := LinesBetween(start, i, lineSize);
      WholeLinesUnique(end - start, lineSize, k);
    }
  }

  lemma LinesBetween(start: nat, i: nat, n: nat) returns (k: int)
    requires n > 0 && i % n == start % n
    ensures i - start == k * n
  {
    k := i / n - start / n;
    assert i == i / n * n + i % n && start == start / n * n + start % n;
    assert k * n == i / n * n - start / n * n;
  }

  /** The blocks that are flushed: those the loop visits, and for an unaligned start the one where it stops. */
  predicate Flushed(start: nat, end: nat, lineSize: nat, block: nat)
    requires lineSize > 0
  {
    var stop := StopAt(start, end, lineSize);
    start / lineSize <= block < stop / lineSize || (start % lineSize != 0 && block == stop / lineSize)
  }

  /** Every byte of the region, which may run past the top of the address space, lies in a flushed block. */
  ghost predicate RegionFlushed(start: nat, len: nat, lineSize: nat)
    requires lineSize > 0
  {
    forall j: nat :: j < len ==> Flushed(start, (start + len) % TOP, lineSize, BlockOf(start, j, lineSize))
  }

  /** The block of byte `j` of a region. */
  function BlockOf(start: nat, j: nat, lineSize: nat): nat
    requires lineSize > 0
  {
    (start + j) % TOP / lineSize
  }

  lemma StopProperties(start: nat, end: nat, lineSize: nat)
    requires lineSize > 0
    ensures var stop := StopAt(start, end, lineSize);
            start <= stop && end <= stop && stop % lineSize == start % lineSize
  {
    if start < end {
      var k := (end - start + lineSize - 1) / lineSize;
      assert end - start + lineSize - 1 == k * lineSize + (end - start + lineSize - 1) % lineSize;
      AddMultiple(start, k, lineSize);
    }
  }

  /**
   A region is flushed iff it ends below the top of the address space, or lies in the last line and does not
   begin where that line does. A region that ends exactly at the top is otherwise not flushed at all.
   */
  lemma RegionFlushedIff(start: nat, len: nat, lineSize: nat)
    requires 0 < lineSize <= TOP && TOP % lineSize == 0 && start < TOP && 0 < len < TOP
    ensures RegionFlushed(start, len, lineSize) <==>
            || start + len < TOP
            || (start % lineSize != 0 && start / lineSize == (TOP - 1) / lineSize
                && (start + len == TOP || lineSize == TOP))
  {
    if start + len < TOP {
      RegionBelowTop(start, len, lineSize);
    } else {
      RegionAtTop(start, len, lineSize);
    }
  }

  lemma RegionBelowTop(start: nat, len: nat, lineSize: nat)
    requires lineSize > 0 && start + len < TOP
    ensures RegionFlushed(start, len, lineSize)
  {
    StopProperties(start, start + len, lineSize);
    forall j: nat | j < len
      ensures Flushed(start, (start + len) % TOP, lineSize, BlockOf(start, j, lineSize))
    {
      Covered(start, start + len, StopAt(start, start + len, lineSize), lineSize, start + j);
    }
  }

  /** From the top on the loop does nothing, and only the line of an unaligned start is flushed. */
  lemma RegionAtTop(start: nat, len: nat, lineSize: nat)
    requires 0 < lineSize <= TOP && TOP % lineSize == 0 && start < TOP && 0 < len < TOP && start + len >= TOP
    ensures var end := (start + len) % TOP;
            forall block: nat ::
              Flushed(start, end, lineSize, block) <==> start % lineSize != 0 && block == start / lineSize
    ensures RegionFlushed(start, len, lineSize) <==>
            start % lineSize != 0 && start / lineSize == (TOP - 1) / lineSize
            && (start + len == TOP || lineSize == TOP)
  {
    DivModUnique(start + len, 1, start + len - TOP, TOP);
    if RegionFlushed(start, len, lineSize) {
      EndsOfRegion(start, len, lineSize);
    }
    if start / lineSize == (TOP - 1) / lineSize && (start + len == TOP || lineSize == TOP) && start % lineSize != 0 {
      forall j: nat | j < len
        ensures BlockOf(start, j, lineSize) == start / lineSize
      {
        OneLine(start, len, lineSize, j);
      }
    }
  }

  /** A region up to the top reaches the last line, and one past it reaches the first. */
  lemma EndsOfRegion(start: nat, len: nat, lineSize: nat)
    requires 0 < lineSize <= TOP && TOP % lineSize == 0 && start < TOP && 0 < len < TOP && start + len >= TOP
    requires forall j: nat :: j < len ==> Flushed(start, (start + len) % TOP, lineSize, BlockOf(start, j, lineSize))
    requires (start + len) % TOP <= start
    ensures start % lineSize != 0 && start / lineSize == (TOP - 1) / lineSize
    ensures start + len == TOP || lineSize == TOP
  {
    assert BlockOf(start, 0, lineSize) == start / lineSize;
    assert BlockOf(start, TOP - 1 - start, lineSize) == (TOP - 1) / lineSize;
    if start + len > TOP {
      assert BlockOf(start, TOP - start, lineSize) == 0 / lineSize == 0;
      OneLineOnly(lineSize);
    }
  }

  /** A region inside the last line, or any region when there is one line only. */
  lemma OneLine(start: nat, len: nat, lineSize: nat, j: nat)
    requires 0 < lineSize <= TOP && start < TOP && start / lineSize == (TOP - 1) / lineSize
    requires (start + len == TOP || lineSize == TOP) && j < len
    ensures BlockOf(start, j, lineSize) == start / lineSize
  {
    var a := (start + j) % TOP;
    if lineSize == TOP {
      SameLine(0, start, lineSize);
      SameLine(0, a, lineSize);
    } else {
      assert a == start + j;
      SameLine(start, a, lineSize);
    }
  }

  lemma SameLine(start: nat, a: nat, lineSize: nat)
    requires 0 < lineSize <= TOP && start <= a < TOP
    requires start / lineSize == (TOP - 1) / lineSize || (lineSize == TOP && start == 0)
    ensures a / lineSize == start / lineSize
  {
    DivMonotone(start, a, lineSize);
    DivMonotone(a, TOP - 1, lineSize);
  }

  /** The first line is the last one only when there is no other. */
  lemma OneLineOnly(lineSize: nat)
    requires 0 < lineSize <= TOP && TOP % lineSize == 0
    ensures (TOP - 1) / lineSize == 0 <==> lineSize == TOP
  {
    var m := TOP / lineSize;
    assert TOP == m * lineSize;
    if lineSize < TOP {
      assert m >= 2 by {
        if m <= 1 {
          MulMonotone(m, 1, lineSize);
        }
      }
      DivMonotone(lineSize, TOP - 1, lineSize);
      DivModUnique(lineSize, 1, 0, lineSize);
    }
  }

  // ---- the data cache --------------------------------------------------------------------------

  datatype Line = Invalid | Holding(block: nat, bytes: seq<int>, dirty: bool)

  class DataCache {
    const lineSize: nat
    const lineCount: nat
    var lines: seq<Line>
    var memory: nat -> int

    ghost predicate Valid()
      reads this
    {
      && 0 < lineSize <= TOP && TOP % lineSize == 0 && 0 < lineCount == |lines|
      && forall i :: 0 <= i < lineCount ==> LineValid(i)
    }

    /** A line sits at the index of its block, and a clean line agrees with memory. */
    ghost predicate LineValid(i: int)
      requires lineSize > 0 && lineCount > 0 && 0 <= i < |lines|
      reads this
    {
      lines[i].Holding? ==>
        && lines[i].block % lineCount == i && |lines[i].bytes| == lineSize
        && (!lines[i].dirty ==>
              forall a: nat :: a / lineSize == lines[i].block ==> lines[i].bytes[a % lineSize] == memory(a))
    }

    predicate Holds(block: nat)
      requires lineCount > 0 && |lines| == lineCount
      reads this
    {
      lines[block % lineCount].Holding? && lines[block % lineCount].block == block
    }

    /** A line holds the byte at this address. */
    predicate Cached(a: nat)
      requires lineSize > 0 && lineCount > 0 && |lines| == lineCount
      reads this
    {
      Holds(a / lineSize)
    }

    /** What the CPU reads at an address. */
    ghost function View(a: nat): int
      requires Valid()
      reads this
    {
      var block := a / lineSize;
      if Holds(block) then
        assert LineValid(block % lineCount);
        lines[block % lineCount].bytes[a % lineSize]
      else memory(a)
    }

    /** The flush instruction: write the line of the address back if it is dirty, and drop it. */
    method FlushDa(a: nat)
      requires Valid()
      modifies this
      ensures Valid() && !Cached(a)
      ensures forall b: nat :: Holds(b) <==> old(Holds(b)) && b != a / lineSize
      ensures forall x: nat :: View(x) == old(View(x))
    {
      var block := a / lineSize;
      var i := block % lineCount;
      if Holds(block) {
        assert LineValid(i);
        if lines[i].dirty {
          var bytes, m, n := lines[i].bytes, memory, lineSize;
          memory := (x: nat) => if x / n == block && x % n < |bytes| then bytes[x % n] else m(x);
        }
        lines := lines[i := Invalid];
        forall j | 0 <= j < lineCount
          ensures LineValid(j)
        {
          assert old(LineValid(j));
        }
      }
    }

    /** The loop over whole lines, and the address where it stops. */
    method FlushLines(start: nat, end: nat) returns (i: nat)
      requires Valid() && start < TOP && end < TOP && LoopEnds(start, end, lineSize)
      modifies this
      ensures Valid() && i == StopAt(start, end, lineSize) && start / lineSize <= i / lineSize
      ensures forall b: nat :: Holds(b) <==> old(Holds(b)) && !(start / lineSize <= b < i / lineSize)
      ensures forall x: nat :: View(x) == old(View(x))
    {
      i := start;
      while i < end
        invariant Valid() && start <= i < TOP && i % lineSize == start % lineSize
        invariant i == start || (start < end && i < end + lineSize)
        invariant start / lineSize <= i / lineSize
        invariant forall b: nat :: Holds(b) <==> old(Holds(b)) && !(start / lineSize <= b < i / lineSize)
        invariant forall x: nat :: View(x) == old(View(x))
      {
        FlushDa(i);
        LoopStep(i, end, start, lineSize);
        i := (i + lineSize) % TOP;
      }
      StopIsFirst(start, end, lineSize, i);
    }

    /** Flush `len` bytes from `start`: exactly these blocks are dropped, and nothing changes for the CPU. */
    method Flush(start: nat, len: nat)
      requires Valid() && start < TOP && len < TOP
      requires LoopEnds(start, (start + len) % TOP, lineSize)
      modifies this
      ensures Valid()
      ensures forall b: nat :: Holds(b) <==> old(Holds(b)) && !Flushed(start, (start + len) % TOP, lineSize, b)
      ensures forall x: nat :: View(x) == old(View(x))
      ensures start + len < TOP ==> forall a: nat :: start <= a < start + len ==> !Cached(a)
      ensures start + len < TOP ==> forall a: nat :: start <= a < start + len ==> memory(a) == old(View(a))
    {
      var i := FlushLines(start, (start + len) % TOP);
      if start % lineSize != 0 {
        FlushDa(i);
      }
      if start + len < TOP {
        BytesFlushed(start, start + len, lineSize);
        forall a: nat | start <= a < start + len
          ensures !Cached(a) && memory(a) == old(View(a))
        {
          assert ByteFlushed(start, start + len, lineSize, a);
          assert View(a) == old(View(a));
        }
      }
    }
  }

  /** The block of an address is flushed. */
  predicate ByteFlushed(start: nat, end: nat, lineSize: nat, a: nat)
    requires lineSize > 0
  {
    Flushed(start, end, lineSize, a / lineSize)
  }

  lemma BytesFlushed(start: nat, end: nat, lineSize: nat)
    requires lineSize > 0 && start <= end < TOP
    ensures forall a: nat :: start <= a < end ==> ByteFlushed(start, end, lineSize, a)
  {
    RegionBelowTop(start, end - start, lineSize);
    forall a: nat | start <= a < end
      ensures ByteFlushed(start, end, lineSize, a)
    {
      assert BlockOf(start, a - start, lineSize) == a / lineSize;
    }
  }

  lemma BelowTop(i: nat, end: nat, start: nat, lineSize: nat)
    requires 0 < lineSize <= TOP && TOP % lineSize == 0 && start <= i < end < TOP && i % lineSize == start % lineSize
    requires LoopEnds(start, end, lineSize)
    ensures i + lineSize < TOP
  {
    var m, q, r := TOP / lineSize, i / lineSize, i % lineSize;
    assert TOP == m * lineSize && i == q * lineSize + r;
    assert (m - 1) * lineSize == m * lineSize - lineSize;
    QuotientOrder(q, m - 1, lineSize);
    assert (m - 2 - q) * lineSize == m * lineSize - 2 * lineSize - q * lineSize;
    MulNonNegative(m - 2 - q, lineSize);
  }

  /** The next address of the loop does not wrap and lies in the next block. */
  lemma LoopStep(i: nat, end: nat, start: nat, lineSize: nat)
    requires 0 < lineSize <= TOP && TOP % lineSize == 0 && start <= i < end < TOP && i % lineSize == start % lineSize
    requires LoopEnds(start, end, lineSize)
    ensures (i + lineSize) % TOP == i + lineSize < TOP
    ensures (i + lineSize) / lineSize == i / lineSize + 1 && (i + lineSize) % lineSize == start % lineSize
  {
    BelowTop(i, end, start, lineSize);
    NextBlock(i, lineSize);
  }

  /** An index is dropped when it is that of a flushed block. */
  ghost predicate IndexFlushed(start: nat, end: nat, lineSize: nat, lineCount: nat, index: nat)
    requires lineSize > 0 && lineCount > 0
  {
    exists b: nat :: Flushed(start, end, lineSize, b) && b % lineCount == index
  }

  /** The index of every byte of a region below the top is dropped, although no more than the cache is flushed. */
  lemma IndexesFlushed(start: nat, len: nat, lineSize: nat, lineCount: nat, a: nat)
    requires 0 < lineSize && 0 < lineCount && start <= a < start + len
    requires start + Capped(len, lineSize * lineCount) < TOP
    ensures IndexFlushed(start, start + Capped(len, lineSize * lineCount), lineSize, lineCount,
                         a / lineSize % lineCount)
  {
    var a' := SameIndex(start, a, lineSize, lineCount);
    IndexOfByte(start, Capped(len, lineSize * lineCount), lineSize, lineCount, a');
  }

  lemma IndexOfByte(start: nat, len: nat, lineSize: nat, lineCount: nat, a: nat)
    requires 0 < lineSize && 0 < lineCount && start <= a < start + len < TOP
    ensures IndexFlushed(start, start + len, lineSize, lineCount, a / lineSize % lineCount)
  {
    RegionBelowTop(start, len, lineSize);
    assert BlockOf(start, a - start, lineSize) == a / lineSize;
    assert Flushed(start, start + len, lineSize, a / lineSize);
  }

  ghost predicate IndexesGone(start: nat, bound: nat, end: nat, lineSize: nat, lineCount: nat)
    requires lineSize > 0 && lineCount > 0
  {
    forall a: nat :: start <= a < bound ==>
      IndexFlushed(start, end, lineSize, lineCount, Index(a, lineSize, lineCount))
  }

  /** A region up to the top: every index of it is dropped iff it ends below the top, or holds one index only. */
  lemma IndexesFlushedIff(start: nat, len: nat, lineSize: nat, lineCount: nat)
    requires 0 < lineSize <= TOP && TOP % lineSize == 0 && 0 < lineCount && 0 < len < TOP && start + len <= TOP
    ensures IndexesGone(start, start + len, (start + Capped(len, lineSize * lineCount)) % TOP, lineSize, lineCount)
       <==> || start + Capped(len, lineSize * lineCount) < TOP
            || (start % lineSize != 0 && (lineCount == 1 || start / lineSize == (TOP - 1) / lineSize))
  {
    var size := lineSize * lineCount;
    MulAtLeast(lineCount, lineSize);
    if start + Capped(len, size) < TOP {
      IndexesBelowTop(start, len, lineSize, lineCount);
    } else {
      assert Capped(len, size) == len;
      IndexesAtTop(start, len, lineSize, lineCount);
    }
  }

  lemma IndexesBelowTop(start: nat, len: nat, lineSize: nat, lineCount: nat)
    requires 0 < lineSize && 0 < lineCount && start + Capped(len, lineSize * lineCount) < TOP
    ensures IndexesGone(start, start + len, (start + Capped(len, lineSize * lineCount)) % TOP, lineSize, lineCount)
  {
    forall a: nat | start <= a < start + len
      ensures IndexFlushed(start, start + Capped(len, lineSize * lineCount), lineSize, lineCount,
                           Index(a, lineSize, lineCount))
    {
      IndexesFlushed(start, len, lineSize, lineCount, a);
    }
  }

  function Index(a: nat, lineSize: nat, lineCount: nat): nat
    requires lineSize > 0 && lineCount > 0
  {
    a / lineSize % lineCount
  }

  lemma IndexesAtTop(start: nat, len: nat, lineSize: nat, lineCount: nat)
    requires 0 < lineSize <= TOP && TOP % lineSize == 0 && 0 < lineCount && 0 < len < TOP && start + len == TOP
    ensures IndexesGone(start, TOP, 0, lineSize, lineCount)
       <==> start % lineSize != 0 && (lineCount == 1 || start / lineSize == (TOP - 1) / lineSize)
  {
    RegionAtTop(start, len, lineSize);
    var b := start / lineSize;
    OnlyBlock(start, lineSize, lineCount);
    if start % lineSize != 0 {
      if lineCount > 1 && b != (TOP - 1) / lineSize {
        DivMonotone(start, TOP - 1, lineSize);
        NextIndex(start, lineSize, lineCount);
      } else {
        forall a: nat | start <= a < TOP
          ensures Index(a, lineSize, lineCount) == b % lineCount
        {
          SameLineOrCount(start, a, lineSize, lineCount);
        }
      }
    } else {
      assert !IndexFlushed(start, 0, lineSize, lineCount, Index(start, lineSize, lineCount));
    }
  }

  lemma OnlyBlock(start: nat, lineSize: nat, lineCount: nat)
    requires lineSize > 0 && lineCount > 0
    requires forall b: nat :: Flushed(start, 0, lineSize, b) <==> start % lineSize != 0 && b == start / lineSize
    ensures forall x: nat :: IndexFlushed(start, 0, lineSize, lineCount, x) <==>
                             start % lineSize != 0 && x == start / lineSize % lineCount
  {
    assert Flushed(start, 0, lineSize, start / lineSize) <==> start % lineSize != 0;
  }

  lemma SameLineOrCount(start: nat, a: nat, lineSize: nat, lineCount: nat)
    requires 0 < lineSize <= TOP && lineCount > 0 && start <= a < TOP
    requires lineCount == 1 || start / lineSize == (TOP - 1) / lineSize
    ensures Index(a, lineSize, lineCount) == start / lineSize % lineCount
  {
    if lineCount != 1 {
      SameLine(start, a, lineSize);
    }
  }

  /** A line further on has another index. */
  lemma NextIndex(start: nat, lineSize: nat, lineCount: nat)
    requires 0 < lineSize && 1 < lineCount && start / lineSize < (TOP - 1) / lineSize
    ensures exists a: nat :: start <= a < TOP && Index(a, lineSize, lineCount) != start / lineSize % lineCount
  {
    var b := start / lineSize;
    var a := (b + 1) * lineSize;
    DivModUnique(a, b + 1, 0, lineSize);
    assert start == b * lineSize + start % lineSize;
    var last := (TOP - 1) / lineSize;
    MulMonotone(b + 1, last, lineSize);
    AddMod(b, 1, lineCount);
    assert Index(a, lineSize, lineCount) == (b + 1) % lineCount;
    assert (b + 1) % lineCount == (b % lineCount + 1) % lineCount;
  }

  // ---- the instruction cache -------------------------------------------------------------------

  class InstrCache {
    const lineSize: nat
    const lineCount: nat
    var cached: set<nat>      // the indices of valid lines
    var pipelineClean: bool

    ghost predicate Valid()
      reads this
    {
      0 < lineSize <= TOP && TOP % lineSize == 0 && 0 < lineCount
    }

    /** The flush instruction drops the line at the index of the address, whatever it holds. */
    method FlushI(a: nat)
      requires Valid()
      modifies this`cached
      ensures cached == old(cached) - {a / lineSize % lineCount}
    {
      cached := cached - {a / lineSize % lineCount};
    }

    /** The loop over whole lines, and the address where it stops. */
    method FlushLines(start: nat, end: nat) returns (i: nat)
      requires Valid() && start < TOP && end < TOP && LoopEnds(start, end, lineSize)
      modifies this`cached
      ensures i == StopAt(start, end, lineSize)
      ensures forall x: nat :: x in cached <==> x in old(cached) && !IndexVisited(start, i, lineSize, lineCount, x)
    {
      i := start;
      while i < end
        invariant start <= i < TOP && i % lineSize == start % lineSize
        invariant i == start || (start < end && i < end + lineSize)
        invariant forall x: nat :: x in cached <==> x in old(cached) && !IndexVisited(start, i, lineSize, lineCount, x)
      {
        DivMonotone(start, i, lineSize);
        FlushI(i);
        LoopStep(i, end, start, lineSize);
        VisitedMore(start, i, lineSize, lineCount);
        i := (i + lineSize) % TOP;
      }
      StopIsFirst(start, end, lineSize, i);
    }

    /** Flush `len` bytes from `start`, but never more than the whole cache. */
    method Flush(start: nat, len0: nat)
      requires Valid() && start < TOP && len0 < TOP
      requires LoopEnds(start, (start + Capped(len0, lineSize * lineCount)) % TOP, lineSize)
      modifies this
      ensures pipelineClean
      ensures var end := (start + Capped(len0, lineSize * lineCount)) % TOP;
              forall x: nat :: x in cached <==> x in old(cached) && !IndexFlushed(start, end, lineSize, lineCount, x)
      ensures start + Capped(len0, lineSize * lineCount) < TOP ==>
                forall a: nat :: start <= a < start + len0 ==> Index(a, lineSize, lineCount) !in cached
    {
      var len := Capped(len0, lineSize * lineCount);
      var end := (start + len) % TOP;
      var i := FlushLines(start, end);
      if start % lineSize != 0 {
        FlushI(i);
      }
      VisitedIsFlushed(start, end, lineSize, lineCount, i);
      pipelineClean := true;
      if start + len < TOP {
        IndexesBelowTop(start, len0, lineSize, lineCount);
      }
    }
  }

  /** An index is dropped by the loop before it reaches address `i`. */
  ghost predicate IndexVisited(start: nat, i: nat, lineSize: nat, lineCount: nat, index: nat)
    requires lineSize > 0 && lineCount > 0
  {
    exists b: nat :: start / lineSize <= b < i / lineSize && IndexOfBlock(b, lineCount) == index
  }

  function IndexOfBlock(b: nat, lineCount: nat): nat
    requires lineCount > 0
  {
    b % lineCount
  }

  lemma VisitedMore(start: nat, i: nat, lineSize: nat, lineCount: nat)
    requires 0 < lineSize && 0 < lineCount && start / lineSize <= i / lineSize
    requires (i + lineSize) / lineSize == i / lineSize + 1
    ensures forall x: nat :: IndexVisited(start, i + lineSize, lineSize, lineCount, x) <==>
                             IndexVisited(start, i, lineSize, lineCount, x) || x == i / lineSize % lineCount
  {
    assert IndexOfBlock(i / lineSize, lineCount) == i / lineSize % lineCount;
  }

  lemma VisitedIsFlushed(start: nat, end: nat, lineSize: nat, lineCount: nat, i: nat)
    requires 0 < lineSize && 0 < lineCount && i == StopAt(start, end, lineSize)
    ensures forall x: nat :: IndexFlushed(start, end, lineSize, lineCount, x) <==>
                             || IndexVisited(start, i, lineSize, lineCount, x)
                             || (start % lineSize != 0 && x == i / lineSize % lineCount)
  {
    forall x: nat
      ensures IndexFlushed(start, end, lineSize, lineCount, x) <==>
              || IndexVisited(start, i, lineSize, lineCount, x)
              || (start % lineSize != 0 && x == i / lineSize % lineCount)
    {
      if IndexVisited(start, i, lineSize, lineCount, x) {
        var b: nat :| start / lineSize <= b < i / lineSize && IndexOfBlock(b, lineCount) == x;
        assert Flushed(start, end, lineSize, b);
      }
      if start % lineSize != 0 {
        assert Flushed(start, end, lineSize, i / lineSize);
      }
      if b: nat :| Flushed(start, end, lineSize, b) && b % lineCount == x {
        assert IndexOfBlock(b, lineCount) == x;
      }
    }
  }

  /** The length that is flushed. */
  function Capped(len: nat, size: nat): nat {
    if len > size then size else len
  }

  /** Every address from `start` on has the index of one within a cache size of `start`. */
  lemma SameIndex(start: nat, a: nat, lineSize: nat, lineCount: nat) returns (a': nat)
    requires 0 < lineSize && 0 < lineCount && start <= a
    ensures start <= a' <= a && a' < start + lineSize * lineCount
    ensures a' / lineSize % lineCount == a / lineSize % lineCount
  {
    var size := lineSize * lineCount;
    MulAtLeast(lineCount, lineSize);
    assert size > 0;
    var q := (a - start) / size;
    a' := start + (a - start) % size;
    assert a == a' + q * size;
    assert q * size == (q * lineCount) * lineSize;
    MulNonNegative(q, size);
    AddMultiple(a', q * lineCount, lineSize);
    AddMultiple(a' / lineSize, q, lineCount);
  }
}
