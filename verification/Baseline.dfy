/** The learned disk baseline: a window of quiet latencies, its middle, and its file. */
module Baseline {
  import opened Basics
  import opened Sorting
  import opened Counters

  const MIN_SAMPLES: nat := 120
  const WINDOW: nat := 512
  const QUIET_QUEUE := 1.0
  const SATURATION_RATIO := 10.0

  /** Real traffic, served while nothing was queued. */
  predicate Qualifies(s: CounterSample) {
    s.diskSecondsPerTransfer > 0.0 && s.diskQueueLength <= 1.0
  }

  /** The window after one more sample is offered. */
  function Learn(samples: seq<real>, s: CounterSample): seq<real> {
    if !Qualifies(s) then samples
    else (if |samples| == WINDOW then samples[1..] else samples) + [s.diskSecondsPerTransfer]
  }

  function Normal(samples: seq<real>): Option<real> {
    if |samples| < MIN_SAMPLES then None
    else
      SortByIsSorted(samples, Itself);
      Some(Sorted(samples)[|samples| / 2])
  }

  function Saturation(samples: seq<real>): Option<real> {
    var m := Normal(samples);
    if m.None? then None else Some(m.value * SATURATION_RATIO)
  }

  predicate Positive(x: real) {
    x > 0.0
  }

  /** What a stored list is worth: positive figures, and the latest of them. No readable list is worth nothing. */
  function Loaded(file: Option<seq<real>>): seq<real> {
    if file.None? then [] else Tail(Filter(file.value, Positive), WINDOW)
  }

  predicate IsWindow(samples: seq<real>) {
    |samples| <= WINDOW && forall i | 0 <= i < |samples| :: samples[i] > 0.0
  }

  /** The file, holding a readable list or nothing of use. */
  class Store {
    var content: Option<seq<real>>

    constructor (content: Option<seq<real>>)
      ensures this.content == content
    {
      this.content := content;
    }
  }

  /** How a write ends. A failed one may leave anything behind. */
  datatype Outcome = Written | Failed(left: Option<seq<real>>)

  datatype Event = Offered(s: CounterSample) | SaveTried(outcome: Outcome)

  datatype Memory = Memory(samples: seq<real>, dirty: bool, file: Option<seq<real>>)

  function Happen(m: Memory, e: Event): Memory {
    match e
    case Offered(s) => m.(samples := Learn(m.samples, s), dirty := m.dirty || Qualifies(s))
    case SaveTried(outcome) =>
      if !m.dirty then m
      else match outcome
           case Written => m.(dirty := false, file := Some(m.samples))
           case Failed(left) => m.(file := left)
  }

  class DiskBaseline {
    var samples: seq<real>
    var dirty: bool

    ghost predicate Valid()
      reads this
    {
      IsWindow(samples)
    }

    /** When nothing is waiting to be saved, loading again would give exactly what is in memory. */
    ghost predicate Coherent(store: Store)
      reads this, store
    {
      !dirty ==> Loaded(store.content) == samples
    }

    /** What is in memory and in the file. */
    ghost function Now(store: Store): Memory
      reads this, store
    {
      Memory(samples, dirty, store.content)
    }

    constructor Load(store: Store)
      ensures Valid() && Coherent(store) && Now(store) == Memory(Loaded(store.content), false, store.content)
    {
      samples := Loaded(store.content);
      dirty := false;
      LoadedIsAWindow(store.content);
    }

    method Observe(s: CounterSample, ghost store: Store)
      requires Valid()
      modifies this
      ensures Valid() && Now(store) == Happen(old(Now(store)), Offered(s))
    {
      var latency := s.diskSecondsPerTransfer;
      if latency <= 0.0 || s.diskQueueLength > QUIET_QUEUE {
        return;
      }
      if |samples| == WINDOW {
        samples := samples[1..];
      }
      samples := samples + [latency];
      dirty := true;
    }

    method SaturationPoint() returns (point: Option<real>)
      ensures point == Saturation(samples)
      ensures point.None? <==> |samples| < 120
      ensures point.Some? ==> exists m :: point.value == m * 10.0 && IsMiddle(samples, m)
    {
      if |samples| < MIN_SAMPLES {
        return None;
      }
      var sorted := Sorted(samples);
      SortByIsSorted(samples, Itself);
      NormalIsTheMiddle(samples, sorted[|sorted| / 2]);
      return Some(sorted[|sorted| / 2] * SATURATION_RATIO);
    }

    method SaveIfChanged(store: Store, outcome: Outcome) returns (saved: bool)
      requires Valid() && Coherent(store)
      modifies this`dirty, store
      ensures Coherent(store) && saved == (old(dirty) && outcome.Written?)
      ensures Now(store) == Happen(old(Now(store)), SaveTried(outcome))
      ensures saved ==> !dirty && store.content == Some(samples)
    {
      if !dirty {
        return false;
      }
      if outcome.Failed? {
        store.content := outcome.left;
        return false;
      }
      store.content := Some(samples);
      dirty := false;
      SavedComesBack(samples);
      return true;
    }
  }

  // ---- What is normal ----

  /** A sample that at most half of the window is below, and more than half is not above. */
  predicate IsMiddle(samples: seq<real>, m: real) {
    m in samples && StandsAt(samples, |samples| / 2, m)
  }

  /** The learned normal is the middle of the window, once the window holds 120 samples. */
  lemma {:induction false} NormalIsTheMiddle(samples: seq<real>, m: real)
    ensures Normal(samples) == Some(m) <==> |samples| >= 120 && IsMiddle(samples, m)
  {
    if |samples| >= MIN_SAMPLES {
      SortByIsSorted(samples, Itself);
      assert Sorted(samples)[|samples| / 2] in multiset(samples);
      SortedStandsAt(samples, |samples| / 2, m);
    }
  }

  // ---- Persistence ----

  /** Every window is a fixed point of saving and loading. */
  lemma {:induction false} SavedComesBack(samples: seq<real>)
    requires IsWindow(samples)
    ensures Loaded(Some(samples)) == samples
  {
    FilterKeepsAll(samples, Positive);
  }

  lemma {:induction false} LoadedIsAWindow(file: Option<seq<real>>)
    ensures IsWindow(Loaded(file))
  {
    if file.Some? {
      var kept := Filter(file.value, Positive);
      FilterSelects(file.value, Positive);
      forall i | 0 <= i < |kept| ensures kept[i] > 0.0 {
        assert kept[i] in kept;
      }
    }
  }

  /** Loading a stored list is taking its positive figures one by one into a sliding window. */
  lemma {:induction false} LoadingTakesFiguresInOrder(xs: seq<real>, y: real)
    ensures Loaded(Some(xs + [y])) == if Positive(y) then Tail(Loaded(Some(xs)) + [y], WINDOW) else Loaded(Some(xs))
    ensures Loaded(Some([])) == Loaded(None) == []
  {
    assert Front(xs + [y]) == xs;
    var kept := Filter(xs, Positive);
    if Positive(y) {
      assert Filter(xs + [y], Positive) == kept + [y];
    }
  }

  /** The program from its start, with whatever the file held, through any events. */
  function RunFrom(file: Option<seq<real>>, events: seq<Event>): Memory {
    if events == [] then Memory(Loaded(file), false, file) else Happen(RunFrom(file, Front(events)), Last(events))
  }

  /**
   Along every interleaving of samples, failed saves and successful ones, memory with nothing waiting to be saved is
   what loading again would give, and every window reached would survive being saved and loaded.
   */
  lemma {:induction false} NothingLearnedIsLost(file: Option<seq<real>>, events: seq<Event>)
    ensures
      var m := RunFrom(file, events);
      && IsWindow(m.samples) && Loaded(Some(m.samples)) == m.samples
      && (!m.dirty ==> Loaded(m.file) == m.samples)
  {
    LoadedIsAWindow(file);
    if events != [] {
      NothingLearnedIsLost(file, Front(events));
    }
    SavedComesBack(RunFrom(file, events).samples);
  }

  // ---- Relearning ----

  /** The latencies a list of samples teaches. */
  function Taught(obs: seq<CounterSample>): seq<real> {
    if obs == [] then []
    else Taught(Front(obs)) + if Qualifies(Last(obs)) then [Last(obs).diskSecondsPerTransfer] else []
  }

  function LearnAll(samples: seq<real>, obs: seq<CounterSample>): seq<real> {
    if obs == [] then samples else Learn(LearnAll(samples, Front(obs)), Last(obs))
  }

  /** The window holds exactly the last qualifying latencies, in order. */
  lemma {:induction false} WindowHoldsTheLatest(samples: seq<real>, obs: seq<CounterSample>)
    requires |samples| <= WINDOW
    ensures LearnAll(samples, obs) == Tail(samples + Taught(obs), 512)
  {
    if obs != [] {
      WindowHoldsTheLatest(samples, Front(obs));
      var before := samples + Taught(Front(obs));
      if Qualifies(Last(obs)) {
        assert samples + Taught(obs) == before + [Last(obs).diskSecondsPerTransfer];
      } else {
        assert samples + Taught(obs) == before;
      }
    } else {
      assert samples + [] == samples;
    }
  }

  /** A majority of the window within bounds keeps the learned normal within them. */
  lemma {:induction false} MajorityDecidesTheNormal(samples: seq<real>, lo: real, hi: real)
    requires |samples| >= MIN_SAMPLES && Majority(samples, Within(lo, hi))
    ensures Normal(samples).Some? && lo <= Normal(samples).value <= hi
  {
    var sorted, k, within := Sorted(samples), |samples| / 2, Within(lo, hi);
    SortByIsSorted(samples, Itself);
    SortByCounts(samples, Itself, within);
    var i := FoundAtOrAfter(sorted, k, within);
    var j := FoundAtOrBefore(sorted, k, within);
  }

  /**
   A replaced disk is relearned: whatever was known, once more than half a window of qualifying samples has come from
   the new disk, all with latencies within bounds, its saturation point lies within ten times those bounds.
   */
  lemma {:induction false} ReplacedDiskIsRelearned(samples: seq<real>, obs: seq<CounterSample>, lo: real, hi: real)
    requires |samples| <= WINDOW && |Taught(obs)| > 256
    requires forall i | 0 <= i < |Taught(obs)| :: lo <= Taught(obs)[i] <= hi
    ensures
      var point := Saturation(LearnAll(samples, obs));
      point.Some? && 10.0 * lo <= point.value <= 10.0 * hi
  {
    var taught, window := Taught(obs), LearnAll(samples, obs);
    WindowHoldsTheLatest(samples, obs);
    var latest := Tail(taught, WINDOW);
    var stale := window[..|window| - |latest|];
    assert window == stale + latest;
    CountOfTwo(stale, latest, Within(lo, hi));
    CountAtMost(latest, Within(lo, hi));
    MajorityDecidesTheNormal(window, lo, hi);
  }

  lemma {:induction false} TaughtAlike(obs: seq<CounterSample>, latency: real)
    requires forall o | o in obs :: Qualifies(o) && o.diskSecondsPerTransfer == latency
    ensures Taught(obs) == seq(|obs|, _ => latency)
  {
    if obs != [] {
      assert Last(obs) in obs && forall o | o in Front(obs) :: o in obs;
      TaughtAlike(Front(obs), latency);
    }
  }

  /**
   Exactly half a window is not enough and one sample more is: while a full window of a slow disk's samples takes in
   those of a quick one, its normal is the slow figure up to the 256th and the quick one from the 257th.
   */
  lemma {:induction false} RelearnedAfterHalfAWindow(slow: real, quick: real, obs: seq<CounterSample>)
    requires 0.0 < quick < slow && forall o | o in obs :: Qualifies(o) && o.diskSecondsPerTransfer == quick
    ensures Normal(LearnAll(seq(WINDOW, _ => slow), obs)) == Some(if |obs| > 256 then quick else slow)
  {
    var was := seq(WINDOW, _ => slow);
    TaughtAlike(obs, quick);
    if |obs| > WINDOW / 2 {
      ReplacedDiskIsRelearned(was, obs, quick, quick);
    } else {
      var a, b := seq(WINDOW - |obs|, _ => slow), seq(|obs|, _ => quick);
      WindowHoldsTheLatest(was, obs);
      assert LearnAll(was, obs) == a + b;
      SlowMajority(a, b, slow);
    }
  }

  lemma {:induction false} SlowMajority(a: seq<real>, b: seq<real>, slow: real)
    requires |a| + |b| == WINDOW && |b| <= WINDOW / 2
    requires (forall i | 0 <= i < |a| :: a[i] == slow) && (forall i | 0 <= i < |b| :: b[i] < slow)
    ensures Normal(a + b) == Some(slow)
  {
    CountOfTwo(a, b, Below(slow));
    CountOfTwo(a, b, UpTo(slow));
    CountAtMost(a, Below(slow));
    CountAtMost(a, UpTo(slow));
    CountAtMost(b, Below(slow));
    CountAtMost(b, UpTo(slow));
    assert (a + b)[0] == slow;
    NormalIsTheMiddle(a + b, slow);
  }
}
