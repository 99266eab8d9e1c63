/** The rolling window of samples, its median, and the stall signal read from it. */
module Counters {
  import opened Basics
  import opened Types
  import opened Sorting

  datatype CounterSample = CounterSample(
    processorPerformancePct: real,
    processorFrequencyMhz: real,
    processorTimePct: real,
    processorQueueLength: real,
    pagesInputPerSec: real,
    availableMbytes: real,
    diskSecondsPerTransfer: real,
    diskQueueLength: real)

  const WINDOW_SAMPLES: nat := 4
  const PAGES_INPUT_SATURATED := 20_000.0

  function Values(samples: seq<CounterSample>, field: CounterSample -> real): seq<real> {
    seq(|samples|, i requires 0 <= i < |samples| => field(samples[i]))
  }

  function Itself(x: real): real {
    x
  }

  function Sorted(values: seq<real>): seq<real> {
    SortBy(values, Itself)
  }

  /** The middle of the values in order, or the mean of the two middle ones. */
  function MedianOf(values: seq<real>): real
    requires values != []
  {
    var sorted := Sorted(values);
    SortByIsSorted(values, Itself);
    var mid := |sorted| / 2;
    if |sorted| % 2 == 0 then (sorted[mid - 1] + sorted[mid]) / 2.0 else sorted[mid]
  }

  /** Each field's own median. */
  function MedianSample(samples: seq<CounterSample>): CounterSample
    requires samples != []
  {
    CounterSample(
      MedianOf(Values(samples, (s: CounterSample) => s.processorPerformancePct)),
      MedianOf(Values(samples, (s: CounterSample) => s.processorFrequencyMhz)),
      MedianOf(Values(samples, (s: CounterSample) => s.processorTimePct)),
      MedianOf(Values(samples, (s: CounterSample) => s.processorQueueLength)),
      MedianOf(Values(samples, (s: CounterSample) => s.pagesInputPerSec)),
      MedianOf(Values(samples, (s: CounterSample) => s.availableMbytes)),
      MedianOf(Values(samples, (s: CounterSample) => s.diskSecondsPerTransfer)),
      MedianOf(Values(samples, (s: CounterSample) => s.diskQueueLength)))
  }

  /** The counters of a sample, by name. */
  datatype Counter = Performance | Frequency | Time | Queue | PagesInput | Available | DiskLatency | DiskQueue {

    function Of(s: CounterSample): real {
      match this
      case Performance => s.processorPerformancePct
      case Frequency => s.processorFrequencyMhz
      case Time => s.processorTimePct
      case Queue => s.processorQueueLength
      case PagesInput => s.pagesInputPerSec
      case Available => s.availableMbytes
      case DiskLatency => s.diskSecondsPerTransfer
      case DiskQueue => s.diskQueueLength
    }

    function Field(): CounterSample -> real {
      (s: CounterSample) => Of(s)
    }
  }

  /** Each counter of the median sample is that counter's own median. */
  lemma {:induction false} MedianIsFieldwise(samples: seq<CounterSample>, c: Counter)
    requires samples != []
    ensures c.Of(MedianSample(samples)) == MedianOf(Values(samples, c.Field()))
  {
    match c
    case Performance =>
      assert Values(samples, c.Field()) == Values(samples, (s: CounterSample) => s.processorPerformancePct);
    case Frequency =>
      assert Values(samples, c.Field()) == Values(samples, (s: CounterSample) => s.processorFrequencyMhz);
    case Time =>
      assert Values(samples, c.Field()) == Values(samples, (s: CounterSample) => s.processorTimePct);
    case Queue =>
      assert Values(samples, c.Field()) == Values(samples, (s: CounterSample) => s.processorQueueLength);
    case PagesInput =>
      assert Values(samples, c.Field()) == Values(samples, (s: CounterSample) => s.pagesInputPerSec);
    case Available =>
      assert Values(samples, c.Field()) == Values(samples, (s: CounterSample) => s.availableMbytes);
    case DiskLatency =>
      assert Values(samples, c.Field()) == Values(samples, (s: CounterSample) => s.diskSecondsPerTransfer);
    case DiskQueue =>
      assert Values(samples, c.Field()) == Values(samples, (s: CounterSample) => s.diskQueueLength);
  }

  /** The last `n` elements, or all of them when there are fewer. */
  function Tail<T>(s: seq<T>, n: nat): seq<T> {
    s[|s| - Min(|s|, n)..]
  }

  /** `log` is every sample ever pushed. */
  class SampleWindow {
    const capacity: nat
    var samples: seq<CounterSample>
    ghost var log: seq<CounterSample>

    ghost predicate Valid()
      reads this
    {
      capacity >= 1 && samples == Tail(log, capacity)
    }

    constructor (capacity: nat)
      ensures Valid() && log == [] && this.capacity == Max(capacity, 1)
    {
      this.capacity := Max(capacity, 1);
      samples := [];
      log := [];
    }

    method Push(sample: CounterSample)
      requires Valid()
      modifies this
      ensures Valid() && log == old(log) + [sample]
    {
      if |samples| == capacity {
        samples := samples[1..];
      }
      samples := samples + [sample];
      log := log + [sample];
    }

    method Median() returns (median: Option<CounterSample>)
      requires Valid()
      ensures median == if log == [] then None else Some(MedianSample(Tail(log, capacity)))
    {
      if samples == [] {
        return None;
      }
      return Some(MedianSample(samples));
    }
  }

  // ---- Medians resist minorities ----

  function Below(level: real): real -> bool {
    x => x < level
  }

  function AtLeast(level: real): real -> bool {
    x => x >= level
  }

  function Above(level: real): real -> bool {
    x => x > level
  }

  function UpTo(level: real): real -> bool {
    x => x <= level
  }

  function Within(lo: real, hi: real): real -> bool {
    x => lo <= x <= hi
  }

  /** More than half of the values satisfy the test. */
  predicate Majority(values: seq<real>, p: real -> bool) {
    2 * Count(values, p) > |values|
  }

  /** A majority below a level keeps the median below it. */
  lemma {:induction false} MajorityBelow(values: seq<real>, level: real)
    requires values != [] && Majority(values, Below(level))
    ensures MedianOf(values) < level
  {
    var sorted, below := Sorted(values), Below(level);
    SortByIsSorted(values, Itself);
    SortByCounts(values, Itself, below);
    var i := FoundAtOrAfter(sorted, |sorted| / 2, below);
    assert Itself(sorted[|sorted| / 2]) <= Itself(sorted[i]);
    assert |sorted| % 2 == 0 ==> Itself(sorted[|sorted| / 2 - 1]) <= Itself(sorted[|sorted| / 2]);
  }

  lemma {:induction false} FoundAtOrAfter(s: seq<real>, k: nat, p: real -> bool) returns (i: nat)
    requires k < |s| && Count(s, p) > k
    ensures k <= i < |s| && p(s[i])
    ensures Ascending(s, Itself) ==> s[k] <= s[i]
  {
    SomeAtOrAfter(s, k, p);
    i :| k <= i < |s| && p(s[i]);
    assert Ascending(s, Itself) && k < i ==> Itself(s[k]) <= Itself(s[i]);
  }

  lemma {:induction false} FoundAtOrBefore(s: seq<real>, k: nat, p: real -> bool) returns (i: nat)
    requires k < |s| && Count(s, p) > |s| - 1 - k
    ensures i <= k && p(s[i])
    ensures Ascending(s, Itself) ==> s[i] <= s[k]
  {
    SomeAtOrBefore(s, k, p);
    i :| 0 <= i <= k && p(s[i]);
    assert Ascending(s, Itself) && i < k ==> Itself(s[i]) <= Itself(s[k]);
  }

  /** A majority at or above a level keeps the median there. */
  lemma {:induction false} MajorityAtLeast(values: seq<real>, level: real)
    requires values != [] && Majority(values, AtLeast(level))
    ensures MedianOf(values) >= level
  {
    var sorted, above := Sorted(values), AtLeast(level);
    var n := |sorted|;
    SortByIsSorted(values, Itself);
    SortByCounts(values, Itself, above);
    var k := if n % 2 == 0 then n / 2 - 1 else n / 2;
    var i := FoundAtOrBefore(sorted, k, above);
    assert n % 2 == 0 ==> Itself(sorted[k]) <= Itself(sorted[n / 2]);
  }

  /** If a strict majority lie in an interval, so does the median. */
  lemma {:induction false} MajorityWithin(values: seq<real>, lo: real, hi: real)
    requires values != [] && Majority(values, Within(lo, hi))
    ensures lo <= MedianOf(values) <= hi
  {
    var within, atLeast := Within(lo, hi), AtLeast(lo);
    CountWeaker(values, within, atLeast);
    MajorityAtLeast(values, lo);
    if MedianOf(values) > hi {
      // A median above `hi` lies below some level that `hi` and the whole majority lie below as well.
      var level := MedianOf(values);
      var below := Below(level);
      CountWeaker(values, within, below);
      MajorityBelow(values, level);
    }
  }

  /** At most `k` of the values are below `m`, and more than `k` are not above it. */
  predicate StandsAt(values: seq<real>, k: nat, m: real) {
    Count(values, Below(m)) <= k < Count(values, UpTo(m))
  }

  /** In an ascending list, exactly the figure at `k` stands at `k`. */
  lemma {:induction false} AscendingStandsAt(sorted: seq<real>, k: nat, m: real)
    requires Ascending(sorted, Itself) && k < |sorted|
    ensures sorted[k] == m <==> StandsAt(sorted, k, m)
  {
    CountOpposite(sorted, Below(m), AtLeast(m));
    CountOpposite(sorted, UpTo(m), Above(m));
    if Count(sorted, Below(m)) > k {
      var i := FoundAtOrAfter(sorted, k, Below(m));
    } else {
      var i := FoundAtOrBefore(sorted, k, AtLeast(m));
    }
    if Count(sorted, UpTo(m)) > k {
      var i := FoundAtOrAfter(sorted, k, UpTo(m));
    } else {
      var i := FoundAtOrBefore(sorted, k, Above(m));
    }
  }

  /** The median is half way between the figures that stand at the two middle places, which are one for an odd count. */
  lemma {:induction false} MedianIsMidway(values: seq<real>, lo: real, hi: real)
    requires values != []
    requires StandsAt(values, (|values| - 1) / 2, lo) && StandsAt(values, |values| / 2, hi)
    ensures MedianOf(values) == (lo + hi) / 2.0
  {
    MedianOfTheMiddles(values);
    SortedStandsAt(values, (|values| - 1) / 2, lo);
    SortedStandsAt(values, |values| / 2, hi);
  }

  lemma {:induction false} MedianOfTheMiddles(values: seq<real>)
    requires values != []
    ensures |Sorted(values)| == |values|
    ensures MedianOf(values) == (Sorted(values)[(|values| - 1) / 2] + Sorted(values)[|values| / 2]) / 2.0
  {
    SortByIsSorted(values, Itself);
    var n := |values|;
    assert (n - 1) / 2 == if n % 2 == 0 then n / 2 - 1 else n / 2;
  }

  lemma {:induction false} SortedStandsAt(values: seq<real>, k: nat, m: real)
    requires k < |values|
    ensures |Sorted(values)| == |values| && (Sorted(values)[k] == m <==> StandsAt(values, k, m))
  {
    SortByIsSorted(values, Itself);
    SortByCounts(values, Itself, Below(m));
    SortByCounts(values, Itself, UpTo(m));
    AscendingStandsAt(Sorted(values), k, m);
  }

  /** For every count there are such figures, and they are among the values. */
  lemma {:induction false} MiddlesExist(values: seq<real>) returns (lo: real, hi: real)
    requires values != []
    ensures lo in values && hi in values && lo <= hi
    ensures StandsAt(values, (|values| - 1) / 2, lo) && StandsAt(values, |values| / 2, hi)
  {
    var k, l := (|values| - 1) / 2, |values| / 2;
    lo := StandingAt(values, k);
    hi := StandingAt(values, l);
    SortByIsSorted(values, Itself);
    assert k < l ==> Itself(Sorted(values)[k]) <= Itself(Sorted(values)[l]);
  }

  lemma {:induction false} StandingAt(values: seq<real>, k: nat) returns (m: real)
    requires k < |values|
    ensures m in values && StandsAt(values, k, m) && |Sorted(values)| == |values| && m == Sorted(values)[k]
  {
    SortByIsSorted(values, Itself);
    m := Sorted(values)[k];
    assert m in multiset(Sorted(values));
    SortedStandsAt(values, k, m);
  }

  // ---- Stall ----

  /** Counters turned into a stall signal; the disk says nothing until its own normal is known. */
  function ToStall(s: CounterSample, logicalCpus: u32, diskSaturation: Option<real>): StallSignal {
    StallSignal(
      Clamp(s.processorQueueLength / Max(logicalCpus, 1) as real, 0.0, 1.0),
      Clamp(s.pagesInputPerSec / PAGES_INPUT_SATURATED, 0.0, 1.0),
      if diskSaturation.Some? && diskSaturation.value > 0.0
      then Some(Clamp(s.diskSecondsPerTransfer / diskSaturation.value, 0.0, 1.0)) else None)
  }

  /** The counter behind a resource's stall. */
  function Behind(r: Resource): Counter {
    match r
    case Cpu => Queue
    case Memory => PagesInput
    case Io => DiskLatency
  }

  /** The value of that counter at which the resource counts as fully stalled, when there is one. */
  function FullAt(r: Resource, logicalCpus: u32, diskSaturation: Option<real>): Option<real> {
    match r
    case Cpu => Some(Max(logicalCpus, 1) as real)
    case Memory => Some(20_000.0)
    case Io => if diskSaturation.Some? && diskSaturation.value > 0.0 then diskSaturation else None
  }

  lemma {:induction false} StallIsAShare(s: CounterSample, logicalCpus: u32, diskSaturation: Option<real>, r: Resource)
    ensures ToStall(s, logicalCpus, diskSaturation).Of(r)
         == if FullAt(r, logicalCpus, diskSaturation).None? then None
            else Some(Clamp(Behind(r).Of(s) / FullAt(r, logicalCpus, diskSaturation).value, 0.0, 1.0))
    ensures FullAt(r, logicalCpus, diskSaturation).Some? ==> FullAt(r, logicalCpus, diskSaturation).value > 0.0
  {
    match r
    case Cpu =>
    case Memory =>
    case Io =>
  }

  lemma {:induction false} ShareBelow(x: real, full: real, level: real)
    requires full > 0.0 && 0.0 < level <= 1.0
    ensures Clamp(x / full, 0.0, 1.0) < level <==> x < level * full
  {
    QuotientOrder(x, full, level);
  }

  /** The resource's stall, if known, is below the level. */
  predicate QuietAt(s: CounterSample, logicalCpus: u32, diskSaturation: Option<real>, r: Resource, level: real) {
    var stall := ToStall(s, logicalCpus, diskSaturation).Of(r);
    stall.Some? ==> stall.value < level
  }

  function QuietTest(logicalCpus: u32, diskSaturation: Option<real>, r: Resource, level: real): CounterSample -> bool {
    (s: CounterSample) => QuietAt(s, logicalCpus, diskSaturation, r, level)
  }

  /** More than half of the samples are quiet for the resource. */
  predicate MostlyQuiet(
    samples: seq<CounterSample>, logicalCpus: u32, diskSaturation: Option<real>, r: Resource, level: real)
  {
    2 * Count(samples, QuietTest(logicalCpus, diskSaturation, r, level)) > |samples|
  }

  /** The value of its counter below which a resource is quiet; always quiet when there is none. */
  function QuietBound(logicalCpus: u32, diskSaturation: Option<real>, r: Resource, level: real): Option<real> {
    var full := FullAt(r, logicalCpus, diskSaturation);
    if full.None? then None else Some(level * full.value)
  }

  /** A resource is quiet exactly when its counter is below that share of the value at which it is saturated. */
  lemma {:induction false} QuietIsBelow(
    s: CounterSample, logicalCpus: u32, diskSaturation: Option<real>, r: Resource, level: real)
    requires 0.0 < level <= 1.0
    ensures
      var bound := QuietBound(logicalCpus, diskSaturation, r, level);
      QuietAt(s, logicalCpus, diskSaturation, r, level) <==> (bound.Some? ==> Behind(r).Of(s) < bound.value)
  {
    QuietIsASmallShare(s, logicalCpus, diskSaturation, r, level);
    var full := FullAt(r, logicalCpus, diskSaturation);
    if full.Some? {
      ShareBelow(Behind(r).Of(s), full.value, level);
    }
  }

  lemma {:induction false} QuietIsASmallShare(
    s: CounterSample, logicalCpus: u32, diskSaturation: Option<real>, r: Resource, level: real)
    ensures
      var full := FullAt(r, logicalCpus, diskSaturation);
      && (full.Some? ==> full.value > 0.0)
      && (QuietAt(s, logicalCpus, diskSaturation, r, level) <==>
          (full.Some? ==> Clamp(Behind(r).Of(s) / full.value, 0.0, 1.0) < level))
  {
    StallIsAShare(s, logicalCpus, diskSaturation, r);
  }

  lemma {:induction false} CountOfQuiet(
    samples: seq<CounterSample>, logicalCpus: u32, diskSaturation: Option<real>, r: Resource, level: real, bound: real)
    requires 0.0 < level <= 1.0 && QuietBound(logicalCpus, diskSaturation, r, level) == Some(bound)
    ensures Count(Values(samples, Behind(r).Field()), Below(bound))
         == Count(samples, QuietTest(logicalCpus, diskSaturation, r, level))
  {
    if samples != [] {
      CountOfQuiet(samples[1..], logicalCpus, diskSaturation, r, level, bound);
      assert Values(samples, Behind(r).Field())[1..] == Values(samples[1..], Behind(r).Field());
      QuietIsBelow(samples[0], logicalCpus, diskSaturation, r, level);
    }
  }

  /** A sample whose counter is the median of mostly quiet samples is quiet. */
  lemma {:induction false} MedianOfMostlyQuiet(
    samples: seq<CounterSample>, logicalCpus: u32, diskSaturation: Option<real>, r: Resource, level: real,
    median: CounterSample)
    requires samples != [] && 0.0 < level <= 1.0 && MostlyQuiet(samples, logicalCpus, diskSaturation, r, level)
    requires Behind(r).Of(median) == MedianOf(Values(samples, Behind(r).Field()))
    ensures QuietAt(median, logicalCpus, diskSaturation, r, level)
  {
    var bound := QuietBound(logicalCpus, diskSaturation, r, level);
    QuietIsBelow(median, logicalCpus, diskSaturation, r, level);
    if bound.Some? {
      CountOfQuiet(samples, logicalCpus, diskSaturation, r, level, bound.value);
      MajorityBelow(Values(samples, Behind(r).Field()), bound.value);
    }
  }

  /** If more than half of the samples are quiet for a resource, the median sample is. */
  lemma {:induction false} MostlyQuietIsJudgedQuiet(
    samples: seq<CounterSample>, logicalCpus: u32, diskSaturation: Option<real>, r: Resource, level: real)
    requires samples != [] && 0.0 < level <= 1.0 && MostlyQuiet(samples, logicalCpus, diskSaturation, r, level)
    ensures QuietAt(MedianSample(samples), logicalCpus, diskSaturation, r, level)
  {
    MedianIsFieldwise(samples, Behind(r));
    MedianOfMostlyQuiet(samples, logicalCpus, diskSaturation, r, level, MedianSample(samples));
  }

  // ---- Bursts ----

  /** The level is reached exactly from index `a` on, for `m` values. */
  predicate IsBurst(values: seq<real>, level: real, a: nat, m: nat) {
    forall i | 0 <= i < |values| :: values[i] >= level <==> a <= i < a + m
  }

  /**
   A burst seen through a full window: the median reaches the level only within the ticks from half a window into
   the burst, for at most `m + 1` ticks, and never when the burst is shorter than half a window.
   */
  lemma {:induction false} BurstIsOutvoted(values: seq<real>, level: real, a: nat, m: nat, capacity: nat, t: nat)
    requires IsBurst(values, level, a, m) && 1 <= capacity <= t + 1 <= |values|
    requires MedianOf(Tail(values[..t + 1], capacity)) >= level
    ensures m >= (capacity + 1) / 2
    ensures a + (capacity + 1) / 2 - 1 <= t <= a + (capacity + 1) / 2 - 1 + m
  {
    var window := values[t + 1 - capacity..t + 1];
    assert Tail(values[..t + 1], capacity) == window;
    CountOutside(values, Below(level), a, m, t + 1 - capacity, t + 1);
    if Majority(window, Below(level)) {
      MajorityBelow(window, level);
    }
  }

  /** Once three samples are held, a single loud sample is not judged loud. */
  lemma {:induction false} LoneSpikeIsNeverJudgedLoud(values: seq<real>, level: real, a: nat, capacity: nat, t: nat)
    requires IsBurst(values, level, a, 1) && t < |values| && Min(t + 1, capacity) >= 3
    ensures MedianOf(Tail(values[..t + 1], capacity)) < level
  {
    var lo := t + 1 - Min(t + 1, capacity);
    var window := values[lo..t + 1];
    assert Tail(values[..t + 1], capacity) == window;
    CountOutside(values, Below(level), a, 1, lo, t + 1);
    MajorityBelow(window, level);
  }

  lemma {:induction false} MedianOfTwo(x: real, y: real)
    requires x <= y
    ensures MedianOf([x, y]) == (x + y) / 2.0
  {
    assert [x, y][1..] == [y] && [y][1..] == [];
    assert SortBy([y], Itself) == [y];
    assert Sorted([x, y]) == [x, y];
  }

  /** Wherever among the samples it comes, a single loud one is not judged loud at tick `t`. */
  ghost predicate LoneSpikeOutvoted(level: real, capacity: nat, t: nat)
    requires capacity >= 1
  {
    forall values: seq<real>, a: nat | IsBurst(values, level, a, 1) && t < |values| ::
      MedianOf(Tail(values[..t + 1], capacity)) < level
  }

  /** Quiet samples and then a loud one, which a window of one or two samples judges loud. */
  lemma {:induction false} FreshSpike(level: real, capacity: nat, t: nat) returns (values: seq<real>)
    requires 1 <= Min(t + 1, capacity) <= 2
    ensures |values| == t + 1 && IsBurst(values, level, t, 1) && MedianOf(Tail(values[..t + 1], capacity)) >= level
  {
    values := seq(t, _ => level - 1.0) + [level + 2.0];
    assert values[..t + 1] == values;
    if Min(t + 1, capacity) == 1 {
      var window := [level + 2.0];
      assert Tail(values, capacity) == window;
      assert window[1..] == [] && Count(window[1..], AtLeast(level)) == 0;
      MajorityAtLeast(window, level);
    } else {
      assert Tail(values, capacity) == [level - 1.0, level + 2.0];
      MedianOfTwo(level - 1.0, level + 2.0);
    }
  }

  /** In a window of any capacity, a single loud sample is outvoted exactly once three samples are held. */
  lemma {:induction false} LoneSpikeIsOutvotedIff(level: real, capacity: nat, t: nat)
    requires capacity >= 1
    ensures LoneSpikeOutvoted(level, capacity, t) <==> Min(t + 1, capacity) >= 3
  {
    if Min(t + 1, capacity) >= 3 {
      forall values: seq<real>, a: nat | IsBurst(values, level, a, 1) && t < |values|
        ensures MedianOf(Tail(values[..t + 1], capacity)) < level
      {
        LoneSpikeIsNeverJudgedLoud(values, level, a, capacity, t);
      }
    } else {
      var values := FreshSpike(level, capacity, t);
    }
  }
}
