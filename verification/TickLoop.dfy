/** The POSIX timer thread: it turns samples of the monotonic clock into ticks. */
module TickLoop {

  const SECOND_IN_NANOS := 1_000_000_000

  /** struct timespec, passed by pointer. */
  class Timespec {
    var sec: int
    var nsec: int

    constructor (sec: int, nsec: int)
      ensures this.sec == sec && this.nsec == nsec
    {
      this.sec, this.nsec := sec, nsec;
    }

    ghost function Nanos(): int
      reads this
    {
      sec * SECOND_IN_NANOS + nsec
    }

    ghost predicate Normalised()
      reads this
    {
      0 <= nsec < SECOND_IN_NANOS
    }
  }

  /** The result may be one of the operands. The nanoseconds of the subtrahend may reach a full
      second, as they do for a tick period of one second. */
  method TimespecSub(minuend: Timespec, subtrahend: Timespec, result: Timespec)
    requires minuend.Normalised() && 0 <= subtrahend.nsec <= SECOND_IN_NANOS
    modifies result
    ensures result.Normalised() && result.Nanos() == old(minuend.Nanos()) - old(subtrahend.Nanos())
  {
    result.sec := minuend.sec - subtrahend.sec;
    result.nsec := minuend.nsec - subtrahend.nsec;
    if result.nsec < 0 {
      result.sec := result.sec - 1;
      result.nsec := result.nsec + SECOND_IN_NANOS;
    }
  }

  method TimespecAdd(start: Timespec, end: Timespec, result: Timespec)
    requires start.Normalised() && end.Normalised()
    modifies result
    ensures result.Normalised() && result.Nanos() == old(start.Nanos()) + old(end.Nanos())
  {
    result.sec := start.sec + end.sec;
    result.nsec := start.nsec + end.nsec;
    if result.nsec >= SECOND_IN_NANOS {
      result.sec := result.sec + 1;
      result.nsec := result.nsec - SECOND_IN_NANOS;
    }
  }

  method TimespecLessThan(lhs: Timespec, rhs: Timespec) returns (less: bool)
    requires lhs.Normalised() && 0 <= rhs.nsec <= SECOND_IN_NANOS
    ensures less <==> lhs.Nanos() < rhs.Nanos() || (lhs.sec < rhs.sec && lhs.Nanos() == rhs.Nanos())
  {
    if lhs.sec > rhs.sec {
      return false;
    }
    if lhs.sec == rhs.sec {
      if lhs.nsec >= rhs.nsec {
        return false;
      }
    }
    return true;
  }

  /** The length of a tick in nanoseconds. A tick of one second is not a normalised timespec. */
  function Period(ticksPerSecond: nat): (nanos: nat)
    requires 0 < ticksPerSecond
    ensures 0 < nanos <==> ticksPerSecond <= 1_000_000
    ensures nanos <= SECOND_IN_NANOS
  {
    var micros := 1_000_000 / ticksPerSecond;
    Quotient(1_000_000, ticksPerSecond);
    micros * 1000
  }

  lemma Product(b: int, q: int)
    requires 1 <= b
    ensures 1 <= q ==> b <= b * q && q <= b * q
    ensures q <= -1 ==> b * q <= -b
  {
    if 1 <= q {
      assert 0 <= b * (q - 1) == b * q - b;
      assert 0 <= (b - 1) * q == b * q - q;
    } else if q <= -1 {
      assert 0 <= b * (-1 - q) == -b - b * q;
    }
  }

  lemma Quotient(a: nat, b: nat)
    requires 0 < b
    ensures 0 <= a / b <= a && (0 < a / b <==> b <= a)
    ensures a == b * (a / b) + a % b
  {
    assert a == b * (a / b) + a % b;
    Product(b, a / b);
  }

  /** A reading of the monotonic clock. */
  datatype Sample = Sample(sec: nat, nsec: nat)

  function NanosOf(s: Sample): nat {
    s.sec * SECOND_IN_NANOS + s.nsec
  }

  /** What clock_gettime delivers: normalised readings that do not run backwards. */
  ghost predicate Monotonic(first: Sample, clock: seq<Sample>) {
    && first.nsec < SECOND_IN_NANOS
    && (forall i :: 0 <= i < |clock| ==> clock[i].nsec < SECOND_IN_NANOS && NanosOf(first) <= NanosOf(clock[i]))
    && (forall i, j :: 0 <= i < j < |clock| ==> NanosOf(clock[i]) <= NanosOf(clock[j]))
  }

  /** The whole ticks that have passed when the clock reads s. */
  function TicksDue(first: Sample, s: Sample, period: nat): int
    requires 0 < period
  {
    (NanosOf(s) - NanosOf(first)) / period
  }

  /** `elapsed` is split into the ticks given and the remaining time. */
  ghost predicate Accounted(elapsed: int, ticks: int, remaining: int, period: nat) {
    elapsed == ticks * period + remaining && 0 <= remaining < period
  }

  lemma StaysAccounted(elapsed: int, ticks: int, remaining: int, period: nat, late: int, more: int, left: int)
    requires Accounted(elapsed, ticks, remaining, period)
    requires Accounted(remaining + late, more, left, period)
    ensures Accounted(elapsed + late, ticks + more, left, period)
  {
    assert (ticks + more) * period == ticks * period + more * period;
  }

  lemma {:induction false} Multiple(d: nat, period: nat)
    requires d > 0
    ensures d * period >= period
  {
    if d > 1 {
      Multiple(d - 1, period);
      assert d * period == (d - 1) * period + period;
    }
  }

  lemma OneDivision(q: int, r: int, q': int, r': int, period: nat)
    requires q * period + r == q' * period + r' && 0 <= r < period && 0 <= r' < period
    ensures q == q' && r == r'
  {
    assert (q - q') * period == q * period - q' * period;
    assert (q' - q) * period == q' * period - q * period;
    if q > q' {
      Multiple(q - q', period);
    } else if q < q' {
      Multiple(q' - q, period);
    }
  }

  lemma AccountedIsDivision(elapsed: int, ticks: int, remaining: int, period: nat)
    requires Accounted(elapsed, ticks, remaining, period)
    ensures elapsed / period == ticks && elapsed % period == remaining
  {
    assert elapsed == (elapsed / period) * period + elapsed % period;
    OneDivision(ticks, remaining, elapsed / period, elapsed % period, period);
  }

  /** Takes whole ticks out of the remaining time, calling nextTick for each. */
  method TakeTicks(remaining: Timespec, period: Timespec) returns (ticks: nat)
    requires remaining != period && remaining.Normalised() && remaining.sec >= 0
    requires period.sec == 0 && 0 < period.nsec <= SECOND_IN_NANOS
    modifies remaining
    ensures remaining.Normalised() && 0 <= remaining.Nanos()
    ensures Accounted(old(remaining.Nanos()), ticks, remaining.Nanos(), period.Nanos())
  {
    ticks := 0;
    ghost var before := remaining.Nanos();
    ghost var p := period.Nanos();
    var less := TimespecLessThan(remaining, period);
    while !less
      invariant remaining.Normalised() && 0 <= remaining.Nanos()
      invariant period.Nanos() == p && period.sec == 0 && period.nsec == p
      invariant less <==> remaining.Nanos() < p
      invariant before == ticks * p + remaining.Nanos()
      decreases remaining.Nanos()
    {
      assert (ticks + 1) * p == ticks * p + p;
      ticks := ticks + 1;
      TimespecSub(remaining, period, remaining);
      less := TimespecLessThan(remaining, period);
    }
  }

  /** One round of the timer thread: the time since the last reading goes into the remaining time. */
  method TakeReading(reading: Sample, oldTime: Timespec, remaining: Timespec, period: Timespec)
    returns (ticks: nat)
    requires reading.nsec < SECOND_IN_NANOS && oldTime.Normalised() && oldTime.Nanos() <= NanosOf(reading)
    requires remaining.Normalised() && 0 <= remaining.Nanos()
    requires period.sec == 0 && 0 < period.nsec <= SECOND_IN_NANOS
    requires remaining != period && oldTime != period && remaining != oldTime
    modifies remaining, oldTime
    ensures oldTime.Normalised() && oldTime.Nanos() == NanosOf(reading)
    ensures remaining.Normalised() && 0 <= remaining.Nanos()
    ensures Accounted(old(remaining.Nanos()) + (NanosOf(reading) - old(oldTime.Nanos())), ticks,
                      remaining.Nanos(), period.Nanos())
  {
    var newTime := new Timespec(reading.sec, reading.nsec);
    var difference := new Timespec(0, 0);
    TimespecSub(newTime, oldTime, difference);
    TimespecAdd(remaining, difference, remaining);
    ticks := TakeTicks(remaining, period);
    oldTime.sec, oldTime.nsec := newTime.sec, newTime.nsec;
  }

  /** The timer thread over the clock readings taken until it is ended. `made[i]` is the number of
      ticks given after reading i: no reading loses or invents time, however late it comes. */
  method Run(ticksPerSecond: nat, first: Sample, clock: seq<Sample>) returns (made: seq<nat>, remaining: Timespec)
    requires 0 < ticksPerSecond <= 1_000_000
    requires Monotonic(first, clock)
    ensures |made| == |clock|
    ensures forall i :: 0 <= i < |made| ==> made[i] == TicksDue(first, clock[i], Period(ticksPerSecond))
    ensures remaining.Normalised()
    ensures |clock| > 0 ==>
      remaining.Nanos() == (NanosOf(clock[|clock| - 1]) - NanosOf(first)) % Period(ticksPerSecond)
  {
    ghost var p := Period(ticksPerSecond);
    var period := new Timespec(0, (1_000_000 / ticksPerSecond) * 1000);
    var oldTime := new Timespec(first.sec, first.nsec);
    remaining := new Timespec(0, 0);
    ghost var latest := first;
    var ticks: nat := 0;
    made := [];
    hide Period, TicksDue, Accounted, NanosOf;
    assert Accounted(0, 0, 0, p) by { NothingYet(p); }
    for k := 0 to |clock|
      invariant |made| == k
      invariant fresh(remaining) && fresh(oldTime) && fresh(period)
      invariant remaining != period && oldTime != period && remaining != oldTime
      invariant period.sec == 0 && period.nsec == p
      invariant latest == if k == 0 then first else clock[k - 1]
      invariant oldTime.Normalised() && oldTime.Nanos() == NanosOf(latest)
      invariant remaining.Normalised() && 0 <= remaining.Nanos()
      invariant Accounted(NanosOf(latest) - NanosOf(first), ticks, remaining.Nanos(), p)
      invariant forall i :: 0 <= i < k ==> made[i] == TicksDue(first, clock[i], p)
    {
      ghost var before := remaining.Nanos();
      var more := TakeReading(clock[k], oldTime, remaining, period);
      StaysAccounted(NanosOf(latest) - NanosOf(first), ticks, before, p,
                     NanosOf(clock[k]) - NanosOf(latest), more, remaining.Nanos());
      latest := clock[k];
      ticks := ticks + more;
      TicksDueWhen(first, latest, ticks, remaining.Nanos(), p);
      made := made + [ticks];
    }
    if |clock| > 0 {
      AccountedIsDivision(NanosOf(latest) - NanosOf(first), ticks, remaining.Nanos(), p);
    }
  }

  /** After k ticks the remaining time is below the tick length, so that the inner loop ends. */
  predicate EndsAt(remaining: nat, period: nat, k: nat) {
    remaining - k * period < period
  }

  /** Up to a million ticks per second the inner loop ends, whatever the remaining time; beyond
      that the tick length is rounded down to zero, and it never does. */
  lemma InnerLoopEndsIff(remaining: nat, ticksPerSecond: nat)
    requires 0 < ticksPerSecond
    ensures (exists k: nat :: EndsAt(remaining, Period(ticksPerSecond), k)) <==> ticksPerSecond <= 1_000_000
  {
    var p := Period(ticksPerSecond);
    if 0 < p {
      Quotient(remaining, p);
      assert EndsAt(remaining, p, remaining / p);
    } else {
      assert forall k: nat :: !EndsAt(remaining, p, k);
    }
  }

  lemma NothingYet(period: nat)
    requires 0 < period
    ensures Accounted(0, 0, 0, period)
  {
  }

  lemma TicksDueWhen(first: Sample, s: Sample, ticks: int, remaining: int, period: nat)
    requires Accounted(NanosOf(s) - NanosOf(first), ticks, remaining, period)
    ensures ticks == TicksDue(first, s, period)
  {
    AccountedIsDivision(NanosOf(s) - NanosOf(first), ticks, remaining, period);
  }

  /** The tick length is rounded down to a microsecond, so the timer keeps its nominal rate over
      every whole number of seconds exactly for the rates that divide a million; at any other rate
      it runs fast. */
  lemma NominalRateIff(ticksPerSecond: nat)
    requires 0 < ticksPerSecond <= 1_000_000
    ensures (forall seconds: nat :: (seconds * SECOND_IN_NANOS) / Period(ticksPerSecond) == seconds * ticksPerSecond)
      <==> 1_000_000 % ticksPerSecond == 0
  {
    var p := Period(ticksPerSecond);
    var left := 1_000_000 % ticksPerSecond;
    Quotient(1_000_000, ticksPerSecond);
    var micros := 1_000_000 / ticksPerSecond;
    assert ticksPerSecond * p == 1000 * (ticksPerSecond * micros);
    assert ticksPerSecond * p == SECOND_IN_NANOS - 1000 * left;
    if left == 0 {
      forall seconds: nat
        ensures (seconds * SECOND_IN_NANOS) / p == seconds * ticksPerSecond
      {
        assert seconds * SECOND_IN_NANOS == (seconds * ticksPerSecond) * p + 0;
        AccountedIsDivision(seconds * SECOND_IN_NANOS, seconds * ticksPerSecond, 0, p);
      }
    } else {
      AccountedIsDivision(p * SECOND_IN_NANOS, SECOND_IN_NANOS, 0, p);
      assert (p * SECOND_IN_NANOS) / p != p * ticksPerSecond;
    }
  }
  lemma Scaled(a: int, b: int, k: nat)
    requires a <= b
    ensures k * a <= k * b
  {
    assert k * b - k * a == k * (b - a) >= 0;
  }

  /** The tick length in whole microseconds that is nearest below the nominal one. */
  lemma PeriodBetween(ticksPerSecond: nat)
    requires 0 < ticksPerSecond
    ensures var p := Period(ticksPerSecond);
      p % 1000 == 0 && p * ticksPerSecond <= 1_000_000_000 < (p + 1000) * ticksPerSecond
  {
    Quotient(1_000_000, ticksPerSecond);
    var micros := 1_000_000 / ticksPerSecond;
    assert micros * 1000 * ticksPerSecond == 1000 * (ticksPerSecond * micros);
    assert (micros * 1000 + 1000) * ticksPerSecond == 1000 * (ticksPerSecond * micros) + 1000 * ticksPerSecond;
  }

  /** In every number of seconds the timer gives at least the nominal number of ticks, and at most
      as many more as a tick length that is one microsecond short comes to. */
  lemma TicksInSeconds(first: Sample, seconds: nat, ticksPerSecond: nat)
    requires 0 < ticksPerSecond <= 1_000_000
    ensures Period(ticksPerSecond) > 0
    ensures var n := TicksDue(first, Sample(first.sec + seconds, first.nsec), Period(ticksPerSecond));
      seconds * ticksPerSecond <= n && n * (1_000_000 - ticksPerSecond) <= seconds * 1_000_000 * ticksPerSecond
  {
    var p, later := Period(ticksPerSecond), Sample(first.sec + seconds, first.nsec);
    hide Period;
    var n := TicksDue(first, later, p);
    assert NanosOf(later) - NanosOf(first) == seconds * 1_000_000_000;
    Quotient(seconds * 1_000_000_000, p);
    PeriodBetween(ticksPerSecond);
    TicksBetween(seconds, ticksPerSecond, p, n);
  }

  lemma TicksBetween(seconds: nat, ticksPerSecond: nat, p: nat, n: nat)
    requires n * p <= seconds * 1_000_000_000 < n * p + p
    requires p * ticksPerSecond <= 1_000_000_000 < (p + 1000) * ticksPerSecond
    ensures seconds * ticksPerSecond <= n
    ensures n * (1_000_000 - ticksPerSecond) <= seconds * 1_000_000 * ticksPerSecond
  {
    AtLeast(seconds, ticksPerSecond, p, n);
    AtMost(seconds, ticksPerSecond, p, n);
  }

  lemma AtLeast(seconds: nat, ticksPerSecond: nat, p: nat, n: nat)
    requires seconds * 1_000_000_000 < n * p + p && p * ticksPerSecond <= 1_000_000_000
    ensures seconds * ticksPerSecond <= n
  {
    Scaled(p * ticksPerSecond, 1_000_000_000, seconds);
    assert seconds * (p * ticksPerSecond) == (seconds * ticksPerSecond) * p;
    assert p * (n + 1) == n * p + p;
    if seconds * ticksPerSecond >= n + 1 {
      Scaled(n + 1, seconds * ticksPerSecond, p);
    }
  }

  lemma AtMost(seconds: nat, ticksPerSecond: nat, p: nat, n: nat)
    requires n * p <= seconds * 1_000_000_000 && 1_000_000_000 < (p + 1000) * ticksPerSecond
    ensures n * (1_000_000 - ticksPerSecond) <= seconds * 1_000_000 * ticksPerSecond
  {
    var nominal := 1_000_000_000 - 1000 * ticksPerSecond;
    assert (p + 1000) * ticksPerSecond == p * ticksPerSecond + 1000 * ticksPerSecond;
    Scaled(nominal, p * ticksPerSecond, n);
    Scaled(n * p, seconds * 1_000_000_000, ticksPerSecond);
    assert n * (p * ticksPerSecond) == ticksPerSecond * (n * p);
    assert n * nominal == 1000 * (n * (1_000_000 - ticksPerSecond));
    assert ticksPerSecond * (seconds * 1_000_000_000) == 1000 * (seconds * 1_000_000 * ticksPerSecond);
  }
}
