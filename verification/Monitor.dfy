/** The sampling loop's chain from raw samples to the tier shown, and what it ignores. */
module Monitor {
  import opened Basics
  import opened Types
  import opened Specs
  import opened Sorting
  import opened Verdicts
  import opened Tiers
  import opened TierRuns
  import opened TierBounds
  import opened Counters
  import Baseline

  /** One pass of the loop: when, what the counters read, and the processor reading assembled from it. */
  datatype Tick = Tick(now: u64, raw: CounterSample, cpu: CpuReading)

  /** What does not change while the program runs, and the disk latencies it started with. */
  datatype Machine = Machine(logicalCpus: u32, spec: Option<CpuSpec>, remembered: seq<real>)

  function Raws(ticks: seq<Tick>): seq<CounterSample> {
    seq(|ticks|, i requires 0 <= i < |ticks| => ticks[i].raw)
  }

  /** The samples held at the last of these ticks. */
  function Held(ticks: seq<Tick>): seq<CounterSample> {
    Tail(Raws(ticks), WINDOW_SAMPLES)
  }

  /** The window holds the raw samples of the last four ticks, or of all while there are fewer, in order. */
  lemma {:induction false} HeldAreTheLatest(ticks: seq<Tick>)
    ensures |Held(ticks)| == Min(|ticks|, 4)
    ensures forall i | 0 <= i < |Held(ticks)| :: Held(ticks)[i] == ticks[|ticks| - |Held(ticks)| + i].raw
  {
  }

  /** The disk's saturation point at the last of these ticks. */
  function DiskSaturation(m: Machine, ticks: seq<Tick>): Option<real> {
    Baseline.Saturation(Baseline.LearnAll(m.remembered, Raws(ticks)))
  }

  /** The judgement made at the last of these ticks. */
  function Judged(m: Machine, ticks: seq<Tick>): Assessment
    requires ticks != []
  {
    var stall := ToStall(MedianSample(Held(ticks)), m.logicalCpus, DiskSaturation(m, ticks));
    Classify(Judge(Last(ticks).cpu, m.spec), stall)
  }

  /** The judgement made at tick `i`, with what was known by then. */
  function JudgedAt(m: Machine, ticks: seq<Tick>, i: nat): Assessment
    requires i < |ticks|
  {
    Judged(m, ticks[..i + 1])
  }

  /** Every judgement made, each with what was known by then, as the tracker is given them. */
  function Log(m: Machine, ticks: seq<Tick>): seq<Observation> {
    seq(|ticks|, i requires 0 <= i < |ticks| => Observation(ticks[i].now, JudgedAt(m, ticks, i)))
  }

  function ShownAfter(m: Machine, w: Windows, ticks: seq<Tick>): Assessment {
    Shown(w, Log(m, ticks))
  }

  // ---- What is judged ----

  /** The stall from which a tier is reached. */
  function StallLevel(t: Tier): real {
    match t
    case Easy => 0.0
    case Braced => STALL_BRACED
    case Strained => STALL_STRAINED
  }

  /** The resource's counter, at its median over the samples held, is at or above that share of saturation. */
  predicate IsLoud(m: Machine, ticks: seq<Tick>, r: Resource, level: real)
    requires ticks != []
  {
    var bound := QuietBound(m.logicalCpus, DiskSaturation(m, ticks), r, level);
    bound.Some? && MedianOf(Values(Held(ticks), Behind(r).Field())) >= bound.value
  }

  lemma {:induction false} LoudIsStalled(m: Machine, ticks: seq<Tick>, r: Resource, level: real)
    requires ticks != [] && 0.0 < level <= 1.0
    ensures
      var stall := ToStall(MedianSample(Held(ticks)), m.logicalCpus, DiskSaturation(m, ticks)).Of(r);
      IsLoud(m, ticks, r, level) <==> stall.Some? && stall.value >= level
  {
    MedianIsFieldwise(Held(ticks), Behind(r));
    QuietIsBelow(MedianSample(Held(ticks)), m.logicalCpus, DiskSaturation(m, ticks), r, level);
    assert !QuietAt(MedianSample(Held(ticks)), m.logicalCpus, DiskSaturation(m, ticks), r, level)
      <==> IsLoud(m, ticks, r, level);
  }

  /**
   A tier above Easy is judged exactly when some check fires whose severity reaches it, on the newest reading, or some
   resource is loud enough over the samples held.
   */
  lemma {:induction false} JudgedIff(m: Machine, ticks: seq<Tick>, t: Tier)
    requires ticks != [] && t != Easy
    ensures Judged(m, ticks).tier.Rank() >= t.Rank() <==>
            || (exists k: VerdictKind :: Fires(k, Last(ticks).cpu, m.spec) && SeverityReaches(k.Severity(), t))
            || (exists r: Resource :: IsLoud(m, ticks, r, StallLevel(t)))
  {
    var verdicts := Judge(Last(ticks).cpu, m.spec);
    var stall := ToStall(MedianSample(Held(ticks)), m.logicalCpus, DiskSaturation(m, ticks));
    ClassifyTakesTheWorstInput(verdicts, stall, t);
    JudgeIssuesWhatFires(Last(ticks).cpu, m.spec);
    forall k: VerdictKind ensures Issue(k) in verdicts <==> Fires(k, Last(ticks).cpu, m.spec) {
      assert Issue(k).kind == k;
    }
    forall r: Resource
      ensures IsLoud(m, ticks, r, StallLevel(t)) <==> stall.Of(r).Some? && StallReaches(stall.Of(r).value, t)
    {
      LoudIsStalled(m, ticks, r, StallLevel(t));
    }
  }

  /** A resource whose counter is at or above a share of saturation in most of the samples held is judged so. */
  lemma {:induction false} MajorityIsHeard(m: Machine, ticks: seq<Tick>, r: Resource, t: Tier)
    requires ticks != [] && t != Easy
    requires
      var bound := QuietBound(m.logicalCpus, DiskSaturation(m, ticks), r, StallLevel(t));
      bound.Some? && Majority(Values(Held(ticks), Behind(r).Field()), AtLeast(bound.value))
    ensures Judged(m, ticks).tier.Rank() >= t.Rank()
  {
    var bound := QuietBound(m.logicalCpus, DiskSaturation(m, ticks), r, StallLevel(t));
    MajorityAtLeast(Values(Held(ticks), Behind(r).Field()), bound.value);
    assert IsLoud(m, ticks, r, StallLevel(t));
    JudgedIff(m, ticks, t);
  }

  /** The disk is judged against what it has taught: 257 qualifying samples within bounds fix ten times those bounds. */
  lemma {:induction false} DiskIsJudgedByItsOwn(m: Machine, ticks: seq<Tick>, lo: real, hi: real)
    requires |m.remembered| <= Baseline.WINDOW && |Baseline.Taught(Raws(ticks))| > 256
    requires forall i | 0 <= i < |Baseline.Taught(Raws(ticks))| :: lo <= Baseline.Taught(Raws(ticks))[i] <= hi
    ensures
      var full := DiskSaturation(m, ticks);
      full.Some? && 10.0 * lo <= full.value <= 10.0 * hi
  {
    Baseline.ReplacedDiskIsRelearned(m.remembered, Raws(ticks), lo, hi);
  }

  /** The ticks from `j` on come after all others, and often enough. */
  predicate TicksSteadily(w: Windows, ticks: seq<Tick>, j: nat) {
    && j < |ticks|
    && (j > 0 ==> ticks[j - 1].now < ticks[j].now)
    && (forall i | j < i < |ticks| :: ticks[i].now <= ticks[i - 1].now + SaturatingDouble(w.Longest()))
  }

  /** Every judgement from tick `j` on is at least (`up`), or at most, the tier. */
  predicate JudgedThroughout(m: Machine, ticks: seq<Tick>, j: nat, up: bool, t: Tier) {
    forall i | j <= i < |ticks| :: Reached(up, JudgedAt(m, ticks, i).tier, t)
  }

  lemma {:induction false} LogReaches(m: Machine, ticks: seq<Tick>, j: nat, up: bool, t: Tier)
    requires j < |ticks| && JudgedThroughout(m, ticks, j, up, t)
    ensures AllReach(Log(m, ticks), j, up, t)
  {
    var log := Log(m, ticks);
    forall i | j <= i < |log| ensures Reached(up, log[i].seen.tier, t) {
      assert log[i].seen == JudgedAt(m, ticks, i);
    }
  }

  /** The log has an entry for every tick, at its time. */
  predicate KeepsTime(log: seq<Observation>, ticks: seq<Tick>) {
    |log| == |ticks| && forall i | 0 <= i < |ticks| :: log[i].time == ticks[i].now
  }

  lemma {:induction false} LogKeepsTime(m: Machine, ticks: seq<Tick>)
    ensures KeepsTime(Log(m, ticks), ticks)
  {
  }

  lemma {:induction false} SustainedLogShows(
    w: Windows, log: seq<Observation>, ticks: seq<Tick>, j: nat, up: bool, t: Tier)
    requires ClockRuns(ticks) && TicksSteadily(w, ticks, j) && KeepsTime(log, ticks) && AllReach(log, j, up, t)
    requires Last(ticks).now >= ticks[j].now + WindowFor(w, up)
    ensures Reached(up, Shown(w, log).tier, t)
  {
    assert Ordered(log) && Steady(w, log, j);
    SustainedIsReached(w, log, j, up, t);
  }

  /**
   Sustained judgements show. Judged at least a tier for the escalation window, the machine is shown at least that;
   judged at most a tier for the settling window, at most that.
   */
  lemma {:induction false} SustainedJudgementShows(m: Machine, w: Windows, ticks: seq<Tick>, j: nat, up: bool, t: Tier)
    requires ClockRuns(ticks) && TicksSteadily(w, ticks, j) && JudgedThroughout(m, ticks, j, up, t)
    requires Last(ticks).now >= ticks[j].now + WindowFor(w, up)
    ensures Reached(up, ShownAfter(m, w, ticks).tier, t)
  {
    LogReaches(m, ticks, j, up, t);
    LogKeepsTime(m, ticks);
    SustainedLogShows(w, Log(m, ticks), ticks, j, up, t);
  }

  // ---- What is ignored ----

  predicate ClockRuns(ticks: seq<Tick>) {
    forall i, j | 0 <= i < j < |ticks| :: ticks[i].now <= ticks[j].now
  }

  /** No verdict fires, and for each resource more than half of the samples held are below the braced level. */
  predicate MostlyCalm(m: Machine, ticks: seq<Tick>) {
    && ticks != [] && Judge(Last(ticks).cpu, m.spec) == []
    && forall r: Resource :: MostlyQuiet(Held(ticks), m.logicalCpus, DiskSaturation(m, ticks), r, STALL_BRACED)
  }

  /** However loud the minority, a mostly calm window is judged calm. */
  lemma {:induction false} MinoritiesAreOutvoted(m: Machine, ticks: seq<Tick>)
    requires MostlyCalm(m, ticks)
    ensures Judged(m, ticks) == CALM
  {
    var median, disk := MedianSample(Held(ticks)), DiskSaturation(m, ticks);
    var stall := ToStall(median, m.logicalCpus, disk);
    WorstIsGreatest(stall);
    MostlyQuietIsJudgedQuiet(Held(ticks), m.logicalCpus, disk, stall.Worst().0, STALL_BRACED);
    assert QuietAt(median, m.logicalCpus, disk, stall.Worst().0, STALL_BRACED);
  }

  /** Spike rejection, end to end: if every window is mostly calm, nothing but calm is ever shown. */
  lemma {:induction false} SpikesNeverShow(m: Machine, w: Windows, ticks: seq<Tick>)
    requires forall n | 0 < n <= |ticks| :: MostlyCalm(m, ticks[..n])
    ensures ShownAfter(m, w, ticks) == CALM
    ensures forall n | 0 < n <= |ticks| :: Judged(m, ticks[..n]) == CALM
  {
    var log := Log(m, ticks);
    forall n | 0 < n <= |ticks| ensures Judged(m, ticks[..n]) == CALM {
      MinoritiesAreOutvoted(m, ticks[..n]);
    }
    forall o | o in log ensures o.seen == CALM {
      var i :| 0 <= i < |log| && log[i] == o;
      assert Judged(m, ticks[..i + 1]) == CALM;
    }
    ShownWasObserved(w, log);
  }

  // ---- A burst among quiet samples ----

  /** At every tick no verdict fires and every sample taken so far, outside the burst, is quiet for every resource. */
  predicate QuietOutside(m: Machine, ticks: seq<Tick>, a: nat, loud: nat) {
    forall n | 0 < n <= |ticks| ::
      && Judge(ticks[n - 1].cpu, m.spec) == []
      && forall i, r: Resource | 0 <= i < n && !(a <= i < a + loud) ::
           QuietAt(ticks[i].raw, m.logicalCpus, DiskSaturation(m, ticks[..n]), r, STALL_BRACED)
  }

  /** How many of the samples held at tick `t` belong to the burst. */
  function LoudHeld(a: nat, loud: nat, t: nat): int {
    Max(0, Min(t + 1, a + loud) - Max(t + 1 - Min(t + 1, 4), a))
  }

  /** The burst makes up at least half of the samples held at tick `t`, so it may be judged loud. */
  predicate HalfLoud(a: nat, loud: nat, t: nat) {
    2 * LoudHeld(a, loud, t) >= Min(t + 1, 4)
  }

  lemma {:induction false} MostlyQuietBesidesTheBurst(
    m: Machine, ticks: seq<Tick>, a: nat, loud: nat, t: nat, disk: Option<real>, r: Resource)
    requires t < |ticks| && !HalfLoud(a, loud, t)
    requires forall i | 0 <= i <= t && !(a <= i < a + loud) ::
               QuietAt(ticks[i].raw, m.logicalCpus, disk, r, STALL_BRACED)
    ensures MostlyQuiet(Held(ticks[..t + 1]), m.logicalCpus, disk, r, STALL_BRACED)
  {
    var raws, quiet := Raws(ticks[..t + 1]), QuietTest(m.logicalCpus, disk, r, STALL_BRACED);
    assert forall i | 0 <= i < |raws| && !(a <= i < a + loud) :: quiet(raws[i]);
    CountOutside(raws, quiet, a, loud, t + 1 - Min(t + 1, WINDOW_SAMPLES), t + 1);
    assert raws[..t + 1] == raws;
  }

  /** Where the burst is a minority of the samples held, the judgement is calm. */
  lemma {:induction false} CalmAwayFromTheBurst(m: Machine, ticks: seq<Tick>, a: nat, loud: nat, t: nat)
    requires QuietOutside(m, ticks, a, loud) && t < |ticks| && !HalfLoud(a, loud, t)
    ensures Judged(m, ticks[..t + 1]) == CALM
  {
    var now := ticks[..t + 1];
    var disk := DiskSaturation(m, now);
    forall r: Resource ensures MostlyQuiet(Held(now), m.logicalCpus, disk, r, STALL_BRACED) {
      MostlyQuietBesidesTheBurst(m, ticks, a, loud, t, disk, r);
    }
    assert Last(now).cpu == ticks[t + 1 - 1].cpu;
    MinoritiesAreOutvoted(m, now);
  }

  /** Some tick before `t`, at which the burst is a minority, lies within the escalation window. */
  predicate CalmJustBefore(w: Windows, ticks: seq<Tick>, a: nat, loud: nat, t: nat)
    requires t < |ticks|
  {
    exists j | 0 <= j < t :: !HalfLoud(a, loud, j) && ticks[t].now <= ticks[j].now + w.escalateMs
  }

  /**
   A burst of loud samples among quiet ones, wherever it begins, never shows, when each tick at which it makes up
   half of the samples held comes either within the escalation window after one at which it does not, or so early
   that the window is not covered yet.
   */
  lemma {:induction false} OutlastedBurstNeverShows(m: Machine, w: Windows, ticks: seq<Tick>, a: nat, loud: nat)
    requires ClockRuns(ticks) && QuietOutside(m, ticks, a, loud)
    requires forall t: nat | t < |ticks| && HalfLoud(a, loud, t) ::
               ticks[0].now > SaturatingSub(ticks[t].now, w.escalateMs) || CalmJustBefore(w, ticks, a, loud, t)
    ensures ShownAfter(m, w, ticks).tier == Easy
  {
    var log := Log(m, ticks);
    forall t: nat | t < |ticks| && !HalfLoud(a, loud, t) ensures log[t].seen.tier == Easy {
      CalmAwayFromTheBurst(m, ticks, a, loud, t);
    }
    forall t | 0 <= t < |log| ensures Vetoed(w, log, t) {
      if HalfLoud(a, loud, t) && ticks[0].now <= SaturatingSub(ticks[t].now, w.escalateMs) {
        var j :| 0 <= j < t && !HalfLoud(a, loud, j) && ticks[t].now <= ticks[j].now + w.escalateMs;
        assert log[j].seen.tier == Easy;
      }
    }
    VetoedNeverShows(w, log);
  }

  /**
   The ticks from the burst's start to two after its end span no more than the escalation window; a burst that begins
   with the very first sample has ended before the window is covered. One loud sample after two others is always brief.
   */
  predicate Brief(w: Windows, ticks: seq<Tick>, a: nat, loud: nat) {
    || (a >= 2 && loud <= 1)
    || (a == 0 && forall i | 0 <= i <= loud + 1 && i < |ticks| ::
          ticks[0].now > SaturatingSub(ticks[i].now, w.escalateMs))
    || (a >= 1 && var calm := if a == 1 then 0 else a;
                  forall i | calm < i <= a + loud + 1 && i < |ticks| :: ticks[i].now <= ticks[calm].now + w.escalateMs)
  }

  lemma {:induction false} HalfLoudWhile(a: nat, loud: nat, t: nat)
    requires HalfLoud(a, loud, t)
    ensures a <= t <= a + loud + 1 && (a >= 2 ==> a < t && loud >= 2)
  {
  }

  lemma {:induction false} NotYetHalfLoud(a: nat, loud: nat)
    requires a >= 1
    ensures !HalfLoud(a, loud, if a == 1 then 0 else a)
  {
  }

  /** A brief burst of loud samples among quiet ones never shows. */
  lemma {:induction false} BriefBurstOfSamplesNeverShows(m: Machine, w: Windows, ticks: seq<Tick>, a: nat, loud: nat)
    requires ClockRuns(ticks) && QuietOutside(m, ticks, a, loud) && Brief(w, ticks, a, loud)
    ensures ShownAfter(m, w, ticks).tier == Easy
  {
    forall t: nat | t < |ticks| && HalfLoud(a, loud, t)
      ensures ticks[0].now > SaturatingSub(ticks[t].now, w.escalateMs) || CalmJustBefore(w, ticks, a, loud, t)
    {
      HalfLoudWhile(a, loud, t);
      if a >= 1 && ticks[0].now <= SaturatingSub(ticks[t].now, w.escalateMs) {
        NotYetHalfLoud(a, loud);
      }
    }
    OutlastedBurstNeverShows(m, w, ticks, a, loud);
  }
}
