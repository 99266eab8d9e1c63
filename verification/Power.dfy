/** Package power, by differencing a 32-bit energy counter that wraps. */
module Power {
  import opened Basics

  const COUNTER_MODULUS: nat := 0x1_0000_0000
  const IMPLAUSIBLE_WATTS := 1000.0

  function PowerOfTwo(n: nat): (p: nat)
    ensures p >= 1
  {
    if n == 0 then 1 else 2 * PowerOfTwo(n - 1)
  }

  /** Joules per count: the reciprocal of two to the exponent in bits 12 to 8 of the unit register. */
  function EnergyUnitJoules(raw: u64): (unit: real)
    ensures unit > 0.0 && unit * PowerOfTwo((raw / 256) % 32) as real == 1.0
  {
    1.0 / PowerOfTwo((raw / 256) % 32) as real
  }

  /** One successful reading of the counter register. */
  datatype Mark = Mark(counter: u32, ms: u64)

  /** The counts between two readings, taking a smaller second one as one wrap. */
  function Ticks(previous: u32, counter: u32): nat {
    if counter >= previous then counter - previous else counter + COUNTER_MODULUS - previous
  }

  /** Counts of energy over milliseconds, in watts. */
  function Wattage(unit: real, ticks: nat, elapsed: nat): real
    requires elapsed > 0
  {
    (ticks as real * unit) / (elapsed as real / 1000.0)
  }

  /** The wattage an interval supports, when it supports one. */
  function Watts(unit: real, previous: Mark, current: Mark): Option<real> {
    if current.ms <= previous.ms then None
    else
      var watts := Wattage(unit, Ticks(previous.counter, current.counter), current.ms - previous.ms);
      if 0.0 <= watts < IMPLAUSIBLE_WATTS then Some(watts) else None
  }

  class PackagePower {
    const joulesPerCount: real
    var previous: Option<Mark>

    constructor (raw: u64)
      ensures joulesPerCount == EnergyUnitJoules(raw) && previous == None
    {
      joulesPerCount := EnergyUnitJoules(raw);
      previous := None;
    }

    /** `raw` is the register, when the driver could read it. */
    method Read(raw: Option<u64>, now: u64) returns (watts: Option<real>)
      modifies this
      ensures raw.None? ==> watts == None && previous == old(previous)
      ensures raw.Some? ==>
                var mark := Mark(raw.value % COUNTER_MODULUS, now);
                && previous == Some(mark)
                && watts == if old(previous).None? then None else Watts(joulesPerCount, old(previous).value, mark)
    {
      if raw.None? {
        return None;
      }
      var counter := raw.value % COUNTER_MODULUS;
      var before := previous;
      previous := Some(Mark(counter, now));
      if before.None? || now < before.value.ms {
        return None;
      }
      var elapsed := now - before.value.ms;
      if elapsed == 0 {
        return None;
      }
      var ticks := if counter >= before.value.counter then counter - before.value.counter
                   else counter + COUNTER_MODULUS - before.value.counter;
      var joules := ticks as real * joulesPerCount;
      var w := joules / (elapsed as real / 1000.0);
      assert w == Wattage(joulesPerCount, Ticks(before.value.counter, counter), elapsed);
      return if 0.0 <= w < IMPLAUSIBLE_WATTS then Some(w) else None;
    }
  }

  // ---- Against the energy really used ----

  /** A successful reading, with the energy really used since boot, in counts. */
  datatype Truth = Truth(counts: nat, ms: u64) {
    function Seen(): Mark {
      Mark(counts % COUNTER_MODULUS, ms)
    }
  }

  /** The ticks of an interval are the counts really used exactly when they are fewer than the counter can hold. */
  lemma {:induction false} TicksAreTrueIff(a: Truth, b: Truth)
    requires a.counts <= b.counts
    ensures Ticks(a.Seen().counter, b.Seen().counter) == (b.counts - a.counts) % COUNTER_MODULUS
    ensures Ticks(a.Seen().counter, b.Seen().counter) == b.counts - a.counts <==> b.counts - a.counts < COUNTER_MODULUS
  {
    var x, y := a.counts % COUNTER_MODULUS, b.counts % COUNTER_MODULUS;
    var p, q := a.counts / COUNTER_MODULUS, b.counts / COUNTER_MODULUS;
    assert a.counts == 0x1_0000_0000 * p + x && b.counts == 0x1_0000_0000 * q + y;
    if y >= x {
      assert b.counts - a.counts == 0x1_0000_0000 * (q - p) + (y - x);
    } else {
      assert b.counts - a.counts == 0x1_0000_0000 * (q - p - 1) + (y + 0x1_0000_0000 - x);
    }
  }

  /** Energy only grows. */
  predicate Grows(run: seq<Truth>) {
    forall i | 0 < i < |run| :: run[i - 1].counts <= run[i].counts
  }

  /** Energy only grows, and by less than the counter can hold between readings. */
  predicate NeverLapped(run: seq<Truth>) {
    forall i | 0 < i < |run| :: run[i - 1].counts <= run[i].counts < run[i - 1].counts + COUNTER_MODULUS
  }

  /** The ticks of all intervals of a run. */
  function TotalTicks(run: seq<Truth>): nat {
    if |run| <= 1 then 0
    else TotalTicks(Front(run)) + Ticks(Last(Front(run)).Seen().counter, Last(run).Seen().counter)
  }

  /** Over a whole run the ticks add up to the counts really used exactly when the counter never came round. */
  lemma {:induction false} TicksTelescopeIff(run: seq<Truth>)
    requires run != [] && Grows(run)
    ensures TotalTicks(run) <= Last(run).counts - run[0].counts
    ensures TotalTicks(run) == Last(run).counts - run[0].counts <==> NeverLapped(run)
  {
    if |run| > 1 {
      var n := |run| - 1;
      OneMoreInterval(run);
      TicksTelescopeIff(Front(run));
      TicksNeverExceed(run[n - 1], run[n]);
    }
  }

  lemma {:induction false} OneMoreInterval(run: seq<Truth>)
    requires |run| > 1
    ensures Grows(run) <==> Grows(Front(run)) && run[|run| - 2].counts <= Last(run).counts
    ensures
      var a, b := run[|run| - 2].counts, Last(run).counts;
      NeverLapped(run) <==> NeverLapped(Front(run)) && a <= b < a + COUNTER_MODULUS
  {
    assert forall i | 0 <= i < |run| - 1 :: Front(run)[i] == run[i];
  }

  lemma {:induction false} TicksNeverExceed(a: Truth, b: Truth)
    requires a.counts <= b.counts
    ensures Ticks(a.Seen().counter, b.Seen().counter) <= b.counts - a.counts
    ensures Ticks(a.Seen().counter, b.Seen().counter) == b.counts - a.counts <==> b.counts - a.counts < COUNTER_MODULUS
  {
    TicksAreTrueIff(a, b);
  }

  /** What a reported wattage says was used over its interval; nothing when none is reported. */
  function IntervalJoules(unit: real, a: Truth, b: Truth): real {
    var w := Watts(unit, a.Seen(), b.Seen());
    if w.Some? then w.value * ((b.ms - a.ms) as real / 1000.0) else 0.0
  }

  /** The energy really used over an interval. */
  function TrueJoules(unit: real, a: Truth, b: Truth): real {
    (b.counts - a.counts) as real * unit
  }

  /** A figure added up over the intervals of a run. */
  function Sum(run: seq<Truth>, figure: (Truth, Truth) -> real): real {
    if |run| <= 1 then 0.0 else Sum(Front(run), figure) + figure(Last(Front(run)), Last(run))
  }

  function Reported(unit: real): (Truth, Truth) -> real {
    (a, b) => IntervalJoules(unit, a, b)
  }

  function Used(unit: real): (Truth, Truth) -> real {
    (a, b) => TrueJoules(unit, a, b)
  }

  predicate EveryIntervalReported(unit: real, run: seq<Truth>) {
    forall i | 0 < i < |run| :: Watts(unit, run[i - 1].Seen(), run[i].Seen()).Some?
  }

  /** The energy a report accounts for is the energy the ticks account for. */
  lemma {:induction false} ReportIsTicks(unit: real, a: Truth, b: Truth)
    requires Watts(unit, a.Seen(), b.Seen()).Some?
    ensures 0.0 <= Watts(unit, a.Seen(), b.Seen()).value < IMPLAUSIBLE_WATTS
    ensures IntervalJoules(unit, a, b) == Ticks(a.Seen().counter, b.Seen().counter) as real * unit
  {
    var joules := Ticks(a.Seen().counter, b.Seen().counter) as real * unit;
    QuotientOrder(joules, (b.ms - a.ms) as real / 1000.0, 0.0);
  }

  /**
   Every reported wattage is plausible; times its interval it is exactly the energy really used if and only if the
   counter did not come round in that interval. A report after it did is plausible and wrong.
   */
  lemma {:induction false} ReportIsTrueEnergyIff(unit: real, a: Truth, b: Truth)
    requires unit > 0.0 && a.counts <= b.counts && Watts(unit, a.Seen(), b.Seen()).Some?
    ensures 0.0 <= Watts(unit, a.Seen(), b.Seen()).value < 1000.0
    ensures IntervalJoules(unit, a, b) == TrueJoules(unit, a, b) <==> b.counts - a.counts < COUNTER_MODULUS
    ensures IntervalJoules(unit, a, b) <= TrueJoules(unit, a, b)
  {
    TicksAreTrueIff(a, b);
    ReportIsTicks(unit, a, b);
    var ticks, counts := Ticks(a.Seen().counter, b.Seen().counter), b.counts - a.counts;
    assert (counts - ticks) as real * unit == counts as real * unit - ticks as real * unit;
    assert ticks < counts ==> (counts - ticks) as real * unit > 0.0;
  }

  lemma {:induction false} FourMore(n: nat)
    ensures PowerOfTwo(n + 4) == 16 * PowerOfTwo(n)
  {
    assert PowerOfTwo(n + 2) == 4 * PowerOfTwo(n);
  }

  lemma {:induction false} UsualUnit()
    ensures EnergyUnitJoules(0x1000) == 1.0 / 65536.0
  {
    FourMore(0);
    FourMore(4);
    FourMore(8);
    FourMore(12);
    assert EnergyUnitJoules(0x1000) == 1.0 / PowerOfTwo(16) as real;
  }

  /** The counter goes round once in 1000 seconds at 65 watts, and no power at all is reported. */
  lemma {:induction false} LappedIntervalIsReported() returns (unit: real, a: Truth, b: Truth)
    ensures unit == EnergyUnitJoules(0x1000) == 1.0 / 65536.0
    ensures a.counts <= b.counts && b.ms - a.ms == 1_000_000 && TrueJoules(unit, a, b) == 65536.0
    ensures Watts(unit, a.Seen(), b.Seen()) == Some(0.0)
  {
    UsualUnit();
    unit := 1.0 / 65536.0;
    a, b := Truth(0, 0), Truth(COUNTER_MODULUS, 1_000_000);
  }

  /** A figure per second, over so many milliseconds. */
  function Over(perSecond: real, ms: nat): real {
    perSecond * (ms as real / 1000.0)
  }

  lemma {:induction false} CountsOrder(d: nat, n: nat, unit: real)
    requires unit > 0.0
    ensures d as real * unit < n as real * unit <==> d < n
  {
    assert (n - d) as real * unit == n as real * unit - d as real * unit;
    if d < n {
      assert (n - d) as real * unit > 0.0;
    } else {
      assert (d - n) as real * unit >= 0.0;
    }
  }

  /** Read every `elapsed` milliseconds, a machine that draws less than `watts` is never reported wrongly. */
  ghost predicate NeverMisreported(unit: real, watts: real, elapsed: nat) {
    forall a: Truth, b: Truth
      | && a.counts <= b.counts && b.ms - a.ms == elapsed && TrueJoules(unit, a, b) < Over(watts, elapsed)
        && Watts(unit, a.Seen(), b.Seen()).Some? ::
      IntervalJoules(unit, a, b) == TrueJoules(unit, a, b)
  }

  /** That is so exactly when the energy it could use in that time is within what the counter can hold. */
  lemma {:induction false} NeverMisreportedIff(unit: real, watts: real, elapsed: u64)
    requires unit > 0.0 && watts > 0.0 && elapsed > 0
    ensures NeverMisreported(unit, watts, elapsed) <==> Over(watts, elapsed) <= COUNTER_MODULUS as real * unit
  {
    if Over(watts, elapsed) <= COUNTER_MODULUS as real * unit {
      forall a: Truth, b: Truth
        | && a.counts <= b.counts && b.ms - a.ms == elapsed && TrueJoules(unit, a, b) < Over(watts, elapsed)
          && Watts(unit, a.Seen(), b.Seen()).Some?
        ensures IntervalJoules(unit, a, b) == TrueJoules(unit, a, b)
      {
        CountsOrder(b.counts - a.counts, COUNTER_MODULUS, unit);
        ReportIsTrueEnergyIff(unit, a, b);
      }
    } else {
      var a, b := Truth(0, 0), Truth(COUNTER_MODULUS, elapsed);
      assert Wattage(unit, 0, elapsed) == 0.0 && Watts(unit, a.Seen(), b.Seen()) == Some(0.0);
      ReportIsTrueEnergyIff(unit, a, b);
    }
  }

  /**
   A report is made exactly when time has passed and the energy used, as far as the counter tells, is below a
   kilowatt on average. So less than a kilowatt is always reported; and no more is, unless the counter came round.
   */
  lemma {:induction false} ReportedExactlyWhenPlausible(unit: real, a: Truth, b: Truth)
    requires unit > 0.0 && a.counts <= b.counts
    ensures Watts(unit, a.Seen(), b.Seen()).Some? <==>
            && b.ms > a.ms
            && ((b.counts - a.counts) % COUNTER_MODULUS) as real * unit < Over(1000.0, b.ms - a.ms)
    ensures b.ms > a.ms && TrueJoules(unit, a, b) < Over(1000.0, b.ms - a.ms) ==>
              Watts(unit, a.Seen(), b.Seen()).Some?
    ensures Watts(unit, a.Seen(), b.Seen()).Some? && b.counts - a.counts < COUNTER_MODULUS ==>
              b.ms > a.ms && TrueJoules(unit, a, b) < Over(1000.0, b.ms - a.ms)
  {
    TicksAreTrueIff(a, b);
    ReportedByTicks(unit, a.Seen(), b.Seen());
    TicksNeverExceed(a, b);
    CountsOrder(b.counts - a.counts, Ticks(a.Seen().counter, b.Seen().counter), unit);
  }

  lemma {:induction false} ReportedByTicks(unit: real, a: Mark, b: Mark)
    requires unit > 0.0
    ensures Watts(unit, a, b).Some? <==>
            b.ms > a.ms && Ticks(a.counter, b.counter) as real * unit < Over(1000.0, b.ms - a.ms)
  {
    if b.ms > a.ms {
      var joules, seconds := Ticks(a.counter, b.counter) as real * unit, (b.ms - a.ms) as real / 1000.0;
      assert joules >= 0.0;
      QuotientOrder(joules, seconds, IMPLAUSIBLE_WATTS);
      QuotientOrder(joules, seconds, 0.0);
    }
  }

  lemma {:induction false} IntervalNeverExceeds(unit: real, a: Truth, b: Truth)
    requires unit > 0.0 && a.counts <= b.counts
    ensures IntervalJoules(unit, a, b) <= TrueJoules(unit, a, b)
  {
    assert (b.counts - a.counts) as real * unit >= 0.0;
    if Watts(unit, a.Seen(), b.Seen()).Some? {
      ReportIsTrueEnergyIff(unit, a, b);
    }
  }

  /** A figure no larger than another over every interval is no larger over the run, and smaller if ever smaller. */
  lemma {:induction false} SumsCompare(run: seq<Truth>, f: (Truth, Truth) -> real, g: (Truth, Truth) -> real)
    requires forall i | 0 < i < |run| :: f(run[i - 1], run[i]) <= g(run[i - 1], run[i])
    ensures Sum(run, f) <= Sum(run, g)
    ensures (exists i :: 0 < i < |run| && f(run[i - 1], run[i]) < g(run[i - 1], run[i])) ==> Sum(run, f) < Sum(run, g)
  {
    if |run| > 1 {
      var front := Front(run);
      assert forall i | 0 <= i < |front| :: front[i] == run[i];
      SumsCompare(front, f, g);
      assert f(run[|run| - 2], run[|run| - 1]) <= g(run[|run| - 2], run[|run| - 1]);
    }
  }

  /** A figure that is a difference of levels adds up to the difference between the ends. */
  lemma {:induction false} DifferencesTelescope(run: seq<Truth>, f: (Truth, Truth) -> real, level: Truth -> real)
    requires run != [] && forall a, b :: f(a, b) == level(b) - level(a)
    ensures Sum(run, f) == level(Last(run)) - level(run[0])
  {
    if |run| > 1 {
      DifferencesTelescope(Front(run), f, level);
    }
  }

  function Level(unit: real): Truth -> real {
    (t: Truth) => t.counts as real * unit
  }

  lemma {:induction false} UsedTelescopes(unit: real, run: seq<Truth>)
    requires run != []
    ensures Sum(run, Used(unit)) == TrueJoules(unit, run[0], Last(run))
  {
    forall a, b ensures Used(unit)(a, b) == Level(unit)(b) - Level(unit)(a) {
      assert (b.counts - a.counts) as real == b.counts as real - a.counts as real;
    }
    DifferencesTelescope(run, Used(unit), Level(unit));
    assert TrueJoules(unit, run[0], Last(run)) == Used(unit)(run[0], Last(run));
  }

  lemma {:induction false} ReportsNeverExceed(unit: real, run: seq<Truth>)
    requires unit > 0.0 && Grows(run)
    ensures forall i | 0 < i < |run| :: Reported(unit)(run[i - 1], run[i]) <= Used(unit)(run[i - 1], run[i])
  {
    forall i | 0 < i < |run| ensures Reported(unit)(run[i - 1], run[i]) <= Used(unit)(run[i - 1], run[i]) {
      IntervalNeverExceeds(unit, run[i - 1], run[i]);
    }
  }

  lemma {:induction false} ReportsAreAllIff(unit: real, run: seq<Truth>)
    requires unit > 0.0 && Grows(run) && EveryIntervalReported(unit, run)
    ensures NeverLapped(run) <==>
            forall i | 0 < i < |run| :: Reported(unit)(run[i - 1], run[i]) == Used(unit)(run[i - 1], run[i])
  {
    forall i | 0 < i < |run|
      ensures Reported(unit)(run[i - 1], run[i]) == Used(unit)(run[i - 1], run[i])
         <==> run[i].counts < run[i - 1].counts + COUNTER_MODULUS
    {
      ReportIsTrueEnergyIff(unit, run[i - 1], run[i]);
    }
  }

  /**
   What is reported over a run never exceeds the energy really used, even when the counter came round. When every
   interval reports, it is all of that energy if and only if the counter never did.
   */
  lemma {:induction false} ReportsAddUp(unit: real, run: seq<Truth>)
    requires unit > 0.0 && run != [] && Grows(run)
    ensures Sum(run, Reported(unit)) <= TrueJoules(unit, run[0], Last(run))
    ensures EveryIntervalReported(unit, run) ==>
              (Sum(run, Reported(unit)) == TrueJoules(unit, run[0], Last(run)) <==> NeverLapped(run))
  {
    UsedTelescopes(unit, run);
    ReportsNeverExceed(unit, run);
    SumsCompare(run, Reported(unit), Used(unit));
    if EveryIntervalReported(unit, run) {
      ReportsAreAllIff(unit, run);
      if NeverLapped(run) {
        SumsCompare(run, Used(unit), Reported(unit));
      }
    }
  }
}
