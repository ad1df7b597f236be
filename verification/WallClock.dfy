/** The time of day from the clock ticks since reset. */
module WallClock {
  import opened Modular

  const US: int := 1000000 // microseconds in a second

  class Timeval {
    var sec: int
    var usec: int
    constructor (sec: int, usec: int)
      ensures this.sec == sec && this.usec == usec
    {
      this.sec, this.usec := sec, usec;
    }
  }

  function Micros(sec: int, usec: int): int {
    sec * US + usec
  }

  /** The time before it is normalised. */
  function RawSec(resetSec: int, nticks: nat, rate: nat): int
    requires rate > 0
  {
    resetSec + nticks / rate
  }

  function RawUsec(resetUsec: int, nticks: nat, rate: nat): int
    requires rate > 0
  {
    resetUsec + nticks * (US / rate) % US
  }

  /** The same time with a proper microsecond part; a time before 0 that had to borrow becomes 0. */
  function Normalised(sec: int, usec: int): (r: (int, int))
    ensures 0 <= r.1 < US
    ensures Micros(r.0, r.1) == if usec < 0 && Micros(sec, usec) < 0 then 0 else Micros(sec, usec)
  {
    if usec < 0 && Micros(sec, usec) < 0 then (0, 0) else (Micros(sec, usec) / US, Micros(sec, usec) % US)
  }

  /** Returns false, and changes nothing, when the clock does not run. */
  method GetTimeOfDay(tv: Timeval, reset: Timeval, nticks: nat, rate: nat) returns (ok: bool)
    modifies tv
    ensures ok <==> rate != 0
    ensures !ok ==> tv.sec == old(tv.sec) && tv.usec == old(tv.usec)
    ensures ok ==> (tv.sec, tv.usec) == Normalised(RawSec(old(reset.sec), nticks, rate), RawUsec(old(reset.usec),
                                                                                                 nticks, rate))
    ensures ok ==> 0 <= tv.usec < US
  {
    if rate == 0 {
      return false;
    }
    ok := true;
    tv.sec := reset.sec + nticks / rate;
    tv.usec := reset.usec + nticks * (US / rate) % US;
    ghost var total := Micros(tv.sec, tv.usec);
    ghost var borrows := tv.usec < 0;
    while tv.usec < 0
      invariant Micros(tv.sec, tv.usec) == total
      invariant !borrows ==> tv.usec >= 0
      invariant borrows ==> tv.usec < 0 || (tv.sec >= 0 && tv.usec < US)
      decreases -tv.usec
    {
      if tv.sec <= 0 {
        assert total < 0;
        tv.sec, tv.usec := 0, 0;
        break;
      }
      tv.sec, tv.usec := tv.sec - 1, tv.usec + US;
    }
    ghost var total' := if borrows && total < 0 then 0 else total;
    while tv.usec >= US
      invariant Micros(tv.sec, tv.usec) == total' && 0 <= tv.usec
      decreases tv.usec
    {
      tv.sec, tv.usec := tv.sec + 1, tv.usec - US;
    }
    DivModUnique(total', tv.sec, tv.usec, US);
  }

  // ---- what the clock tells ----------------------------------------------------------------------

  /** Microseconds told after `nticks`, for a reset time that is not negative. */
  function Told(resetSec: nat, resetUsec: nat, nticks: nat, rate: nat): int
    requires rate > 0
  {
    var (sec, usec) := Normalised(RawSec(resetSec, nticks, rate), RawUsec(resetUsec, nticks, rate));
    Micros(sec, usec)
  }

  lemma ToldRaw(resetSec: nat, resetUsec: nat, nticks: nat, rate: nat)
    requires rate > 0
    ensures Told(resetSec, resetUsec, nticks, rate)
         == Micros(resetSec, resetUsec) + nticks / rate * US + nticks * (US / rate) % US
  {
    var sec, usec := RawSec(resetSec, nticks, rate), RawUsec(resetUsec, nticks, rate);
    assert usec >= 0;
    assert Micros(sec, usec) == Micros(sec, usec) / US * US + Micros(sec, usec) % US;
  }

  lemma QuotientOfMicros(nticks: nat, rate: nat)
    requires rate > 0 && US % rate == 0
    ensures nticks * (US / rate) / US == nticks / rate
  {
    var q, a, b := US / rate, nticks / rate, nticks % rate;
    assert US == q * rate && nticks == a * rate + b;
    assert nticks * q == a * US + b * q by {
      assert nticks * q == a * rate * q + b * q;
      assert a * rate * q == a * (q * rate);
    }
    MulNonNegative(b, q);
    assert (rate - b) * q == rate * q - b * q;
    MulAtLeast(rate - b, q);
    DivModUnique(nticks * q, a, b * q, US);
  }

  /** The time told is the reset time plus the ticks, as far as the seconds and the microseconds agree. */
  lemma ToldExactIff(resetSec: nat, resetUsec: nat, nticks: nat, rate: nat)
    requires rate > 0
    ensures Told(resetSec, resetUsec, nticks, rate) == Micros(resetSec, resetUsec) + nticks * (US / rate)
       <==> nticks / rate == nticks * (US / rate) / US
  {
    ToldRaw(resetSec, resetUsec, nticks, rate);
    var x := nticks * (US / rate);
    assert x == x / US * US + x % US;
  }

  /** When the tick rate divides a second, every tick counts fully. */
  lemma ToldExact(resetSec: nat, resetUsec: nat, nticks: nat, rate: nat)
    requires rate > 0 && US % rate == 0
    ensures Told(resetSec, resetUsec, nticks, rate) == Micros(resetSec, resetUsec) + nticks * (US / rate)
  {
    QuotientOfMicros(nticks, rate);
    ToldExactIff(resetSec, resetUsec, nticks, rate);
  }

  /** Time never goes back for such a rate, nor for one of more than a tick per microsecond. */
  lemma ToldMonotone(resetSec: nat, resetUsec: nat, n: nat, m: nat, rate: nat)
    requires rate > 0 && n <= m && (US % rate == 0 || rate > US)
    ensures Told(resetSec, resetUsec, n, rate) <= Told(resetSec, resetUsec, m, rate)
  {
    if US % rate == 0 {
      ToldExact(resetSec, resetUsec, n, rate);
      ToldExact(resetSec, resetUsec, m, rate);
      MulNonNegative(m - n, US / rate);
      assert (m - n) * (US / rate) == m * (US / rate) - n * (US / rate);
    } else {
      ToldRaw(resetSec, resetUsec, n, rate);
      ToldRaw(resetSec, resetUsec, m, rate);
      DivModUnique(US, 0, US, rate);
      DivMonotone(n, m, rate);
    }
  }

  /** The tick at which the microseconds of a clock that does not divide a second wrap too early. */
  lemma EarlyWrap(rate: nat) returns (q: nat, r: nat, k: nat)
    requires 0 < rate < US && US % rate != 0
    ensures q == US / rate >= 1 && US == q * rate + r && 0 < r < rate
    ensures 0 < k < rate && r <= k * q < r + q
  {
    q, r := US / rate, US % rate;
    assert US == q * rate + r;
    assert q >= 1;
    k := (r + q - 1) / q;
    assert r + q - 1 == k * q + (r + q - 1) % q;
    MulNonNegative(r, q - 1);
    assert r * (q - 1) == r * q - r;
    assert (k - r) * q == k * q - r * q;
    if k > r {
      MulAtLeast(k - r, q);
    }
  }

  /** For every other rate the clock goes back within the first two seconds after reset. */
  lemma ToldGoesBack(resetSec: nat, resetUsec: nat, rate: nat) returns (n: nat, m: nat)
    requires 0 < rate < US && US % rate != 0
    ensures n < m < 2 * rate && Told(resetSec, resetUsec, n, rate) > Told(resetSec, resetUsec, m, rate)
  {
    var q, r, k := EarlyWrap(rate);
    n, m := rate, rate + k;
    MulAtLeast(rate, q);
    TickWraps(rate, q, r, k);
    ToldParts(resetSec, resetUsec, n, rate, q, 1, rate * q);
    ToldParts(resetSec, resetUsec, m, rate, q, 1, k * q - r);
  }

  lemma ToldParts(resetSec: nat, resetUsec: nat, nticks: nat, rate: nat, q: nat, seconds: int, micros: int)
    requires rate > 0 && q == US / rate && seconds == nticks / rate && micros == nticks * q % US
    ensures Told(resetSec, resetUsec, nticks, rate) == Micros(resetSec, resetUsec) + seconds * US + micros
  {
    ToldRaw(resetSec, resetUsec, nticks, rate);
  }

  lemma TickWraps(rate: nat, q: nat, r: nat, k: nat)
    requires 0 < k < rate && q >= 1 && US == q * rate + r && 0 < r <= k * q < r + q
    requires r + q <= US
    ensures rate / rate == 1 && (rate + k) / rate == 1
    ensures rate * q % US == rate * q && (rate + k) * q % US == k * q - r && k * q - r < rate * q
  {
    DivModUnique(rate, 1, 0, rate);
    DivModUnique(rate + k, 1, k, rate);
    assert (rate + k) * q == q * rate + k * q;
    MulAtLeast(rate, q);
    MulNonNegative(rate, q);
    DivModUnique(rate * q, 0, q * rate, US);
    DivModUnique((rate + k) * q, 1, k * q - r, US);
  }
}
