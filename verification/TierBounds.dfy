/** How fast the tier may move, how fast it must, and when forgetting old observations cannot be noticed. */
module TierBounds {
  import opened Basics
  import opened Tiers
  import opened TierRuns

  // ---- Flicker ----

  datatype Direction = Up | Down

  /**
   The last change of tier, the reversals so far (`falls` after a rise, `rises` after a fall), and the time they owe:
   one settling window and a millisecond for a fall, one escalation window and a millisecond for a rise.
   */
  datatype Tally = Tally(last: Option<Direction>, at: nat, falls: nat, rises: nat, owed: nat) {

    function Change(w: Windows, d: Direction, i: nat): Tally {
      if d == Down && last == Some(Up) then Tally(Some(d), i, falls + 1, rises, owed + w.settleMs + 1)
      else if d == Up && last == Some(Down) then Tally(Some(d), i, falls, rises + 1, owed + w.escalateMs + 1)
      else Tally(Some(d), i, falls, rises, owed)
    }
  }

  /** The changes of tier made by the observations from index `from` on. */
  function Reversals(w: Windows, log: seq<Observation>, from: nat): Tally {
    if |log| <= from then Tally(None, from, 0, 0, 0)
    else
      var t := Reversals(w, Front(log), from);
      if Rises(w, log) then t.Change(w, Up, |log| - 1)
      else if Falls(w, log) then t.Change(w, Down, |log| - 1)
      else t
  }

  /** After a rise, the observation that caused it is at least the tier shown; after a fall, at most. */
  predicate Evidence(w: Windows, log: seq<Observation>, t: Tally) {
    t.last.Some? ==>
      && t.at < |log|
      && (t.last.value.Up? ==> !Shown(w, log).tier.Above(log[t.at].seen.tier))
      && (t.last.value.Down? ==> !log[t.at].seen.tier.Above(Shown(w, log).tier))
  }

  /** The observation that moves the tier supports the move; and it comes later than the opposite one by a window. */
  lemma {:induction false} ReversalTakesItsWindow(w: Windows, log: seq<Observation>, t: Tally)
    requires log != [] && Ordered(log) && Evidence(w, Front(log), t)
    ensures Rises(w, log) ==> !Shown(w, log).tier.Above(Last(log).seen.tier)
    ensures Falls(w, log) ==> !Last(log).seen.tier.Above(Shown(w, log).tier)
    ensures Falls(w, log) && t.last == Some(Up) ==> Last(log).time > log[t.at].time + w.settleMs
    ensures Rises(w, log) && t.last == Some(Down) ==> Last(log).time > log[t.at].time + w.escalateMs
  {
    EveryObservationHasAVeto(w, log, |log| - 1);
    if t.last.Some? {
      assert Front(log)[t.at] == log[t.at];
      EveryObservationHasAVeto(w, log, t.at);
    }
  }

  /** Falls after a rise and rises after a fall alternate, and the time they owe has passed. */
  predicate Accounted(w: Windows, log: seq<Observation>, from: nat, t: Tally) {
    && from < |log| && Evidence(w, log, t)
    && (t.last == Some(Up) ==> t.falls <= t.rises <= t.falls + 1)
    && (t.last == Some(Down) ==> t.rises <= t.falls <= t.rises + 1)
    && (t.last.None? ==> t.falls == t.rises == t.owed == 0)
    && (t.last.Some? ==> from <= t.at < |log| && log[t.at].time - log[from].time >= t.owed)
  }

  lemma {:induction false} ChangeIsAccounted(w: Windows, log: seq<Observation>, from: nat, t: Tally)
    requires Ordered(log) && from + 1 < |log| && Accounted(w, Front(log), from, t)
    ensures Rises(w, log) ==> Accounted(w, log, from, t.Change(w, Up, |log| - 1))
    ensures Falls(w, log) ==> Accounted(w, log, from, t.Change(w, Down, |log| - 1))
    ensures !Rises(w, log) && !Falls(w, log) ==> Accounted(w, log, from, t)
  {
    assert Front(log)[from] == log[from];
    if t.last.Some? {
      assert Front(log)[t.at] == log[t.at];
    }
    ReversalTakesItsWindow(w, log, t);
  }

  lemma {:induction false} OwedTimePasses(w: Windows, log: seq<Observation>, from: nat)
    requires Ordered(log) && from < |log|
    ensures Accounted(w, log, from, Reversals(w, log, from))
  {
    var t := Reversals(w, Front(log), from);
    if |log| > from + 1 {
      OwedTimePasses(w, Front(log), from);
      ChangeIsAccounted(w, log, from, t);
    } else {
      ReversalTakesItsWindow(w, log, t);
    }
  }

  /** What a tally owes is one window and a millisecond for each reversal. */
  predicate OwesWindows(w: Windows, t: Tally) {
    t.owed == t.falls * (w.settleMs + 1) + t.rises * (w.escalateMs + 1)
  }

  lemma {:induction false} ChangeOwesWindows(w: Windows, t: Tally, d: Direction, i: nat)
    requires OwesWindows(w, t)
    ensures OwesWindows(w, t.Change(w, d, i))
  {
    OneMore(t.falls, w.settleMs + 1);
    OneMore(t.rises, w.escalateMs + 1);
  }

  lemma {:induction false} OneMore(n: nat, x: nat)
    ensures (n + 1) * x == n * x + x
  {
  }

  lemma {:induction false} OwedIsTheSum(w: Windows, log: seq<Observation>, from: nat)
    ensures OwesWindows(w, Reversals(w, log, from))
  {
    if |log| > from {
      OwedIsTheSum(w, Front(log), from);
      var t := Reversals(w, Front(log), from);
      ChangeOwesWindows(w, t, Up, |log| - 1);
      ChangeOwesWindows(w, t, Down, |log| - 1);
    }
  }

  lemma {:induction false} ReversalsTakeWhatTheyOwe(w: Windows, log: seq<Observation>, from: nat, t: Tally)
    requires Ordered(log) && from < |log| && t == Reversals(w, log, from)
    ensures -1 <= t.falls - t.rises <= 1 && Last(log).time - log[from].time >= t.owed
  {
    OwedTimePasses(w, log, from);
  }

  /**
   On any stretch of any run, falls after a rise and rises after a fall differ by at most one, and together they
   take at least `falls * (settle + 1) + rises * (escalate + 1)` milliseconds.
   */
  lemma {:induction false} FlickerIsBounded(w: Windows, log: seq<Observation>, from: nat, t: Tally)
    requires Ordered(log) && from < |log| && t == Reversals(w, log, from)
    ensures -1 <= t.falls - t.rises <= 1
    ensures Last(log).time - log[from].time >= t.falls * (w.settleMs + 1) + t.rises * (w.escalateMs + 1)
  {
    ReversalsTakeWhatTheyOwe(w, log, from, t);
    OwedIsTheSum(w, log, from);
  }

  lemma {:induction false} BothWindows(w: Windows, t: Tally, half: nat)
    requires OwesWindows(w, t) && t.falls + t.rises == 2 * half && -1 <= t.falls - t.rises <= 1 && half > 0
    ensures t.owed > half * (w.escalateMs + w.settleMs)
  {
    assert t.falls == half && t.rises == half;
    assert half * (w.settleMs + 1) + half * (w.escalateMs + 1) == half * (w.escalateMs + w.settleMs) + 2 * half;
  }

  /** An even number of reversals, at least two, needs more than half of it times both windows together. */
  lemma {:induction false} EvenReversalsNeedBothWindows(
    w: Windows, log: seq<Observation>, from: nat, t: Tally, half: nat)
    requires Ordered(log) && from < |log| && t == Reversals(w, log, from)
    requires half > 0 && t.falls + t.rises == 2 * half
    ensures Last(log).time - log[from].time > half * (w.escalateMs + w.settleMs)
  {
    ReversalsTakeWhatTheyOwe(w, log, from, t);
    OwedIsTheSum(w, log, from);
    BothWindows(w, t, half);
  }

  // ---- Moving on one observation ----

  /** The newest observation moved the tier, and no other lies in the window that moved it. */
  predicate MovedAlone(w: Windows, log: seq<Observation>) {
    && log != []
    && (|| (Rises(w, log) && forall o | o in Front(log) :: o.time < Cutoff(log, w.escalateMs))
        || (Falls(w, log) && forall o | o in Front(log) :: o.time < Cutoff(log, w.settleMs)))
  }

  /** A run of two observations: one at the origin of the clock, and one a gap later. */
  function TwoObservations(first: Tier, second: Tier, gap: u64): seq<Observation> {
    [Observation(0, Assessment(first, Clear)), Observation(gap, Assessment(second, Clear))]
  }

  /** At the origin the cutoff is the origin too, so the first observation is shown at once; the window then covers. */
  lemma {:induction false} RunOfTwo(w: Windows, first: Tier, second: Tier, window: u64)
    requires window <= w.Longest() && window + 1 < U64_SPAN
    ensures
      var log := TwoObservations(first, second, window + 1);
      && Ordered(log) && GapsAtMost(log, window + 1)
      && Front(log) == [log[0]] && Shown(w, Front(log)).tier == first && Covered(w, log, window)
  {
    var log := TwoObservations(first, second, window + 1);
    var start := [log[0]];
    assert Front(log) == start && Front(start) == [];
    assert log[0] in start && Covered(w, start, w.escalateMs);
    TierMovesExactlyWhenItsWindowAgrees(w, start);
    assert log[0] in log && log[1] in log;
  }

  /** One observation, a millisecond more than a window after the last, moves the tier alone. */
  lemma {:induction false} LoneMove(w: Windows, rising: bool) returns (log: seq<Observation>)
    requires (if rising then w.escalateMs else w.settleMs) + 1 < U64_SPAN
    ensures |log| == 2 && MovedAlone(w, log)
    ensures Ordered(log) && GapsAtMost(log, (if rising then w.escalateMs else w.settleMs) + 1)
  {
    var window := if rising then w.escalateMs else w.settleMs;
    var first, second := if rising then Easy else Strained, if rising then Strained else Easy;
    log := TwoObservations(first, second, window + 1);
    RunOfTwo(w, first, second, window);
    assert forall i | 0 <= i < |log| && log[i].time >= Cutoff(log, window) :: log[i] == log[1];
    UnanimousWindowIsShown(w, log, second, window);
  }

  /** A first observation can be shown only at the origin of the clock, unless the escalation window is empty. */
  predicate MayShowTheFirst(w: Windows, log: seq<Observation>) {
    |log| == 1 && (log[0].time == 0 || w.escalateMs == 0)
  }

  /** Only in these cases does a run's first observation move the tier, and then it always does unless it is Easy. */
  lemma {:induction false} FirstObservationMovesIff(w: Windows, o: Observation)
    ensures MovedAlone(w, [o]) <==> o.seen.tier != Easy && MayShowTheFirst(w, [o])
  {
    var start := [o];
    assert Front(start) == [] && o in start;
    TierMovesTowardsTheObservation(w, start);
    if o.time > Cutoff(start, w.escalateMs) {
      FreshTrackerStaysCalm(w, start);
    } else {
      assert Covered(w, start, w.escalateMs);
      TierMovesExactlyWhenItsWindowAgrees(w, start);
    }
  }

  lemma {:induction false} LoneMoveIsTheFirst(w: Windows, log: seq<Observation>, gap: u64)
    requires GapsAtMost(log, gap) && gap <= Min(w.escalateMs, w.settleMs)
    ensures MovedAlone(w, log) ==> MayShowTheFirst(w, log)
  {
    if |log| >= 2 {
      assert Last(Front(log)) in Front(log) && Last(Front(log)) == log[|log| - 2];
    } else if |log| == 1 {
      assert log == [log[0]];
      FirstObservationMovesIff(w, log[0]);
    }
  }

  /**
   With gaps no longer than a bound, only a run's first observation, at the origin of the clock, can move the tier
   alone; and that holds exactly while the bound is at most the shorter window.
   */
  lemma {:induction false} LoneMovesNeedALongGap(w: Windows, gap: u64)
    ensures gap <= Min(w.escalateMs, w.settleMs) <==>
            forall log | Ordered(log) && GapsAtMost(log, gap) && MovedAlone(w, log) :: MayShowTheFirst(w, log)
  {
    if gap <= Min(w.escalateMs, w.settleMs) {
      forall log | Ordered(log) && GapsAtMost(log, gap) && MovedAlone(w, log) ensures MayShowTheFirst(w, log) {
        LoneMoveIsTheFirst(w, log, gap);
      }
    } else {
      var log := LoneMove(w, w.escalateMs < gap);
      assert GapsAtMost(log, gap) && |log| == 2;
    }
  }

  /** Calm, or with a calm observation in the escalation window before it, or with that window not covered. */
  predicate Vetoed(w: Windows, log: seq<Observation>, i: nat)
    requires i < |log|
  {
    || log[i].seen.tier == Easy
    || log[0].time > SaturatingSub(log[i].time, w.escalateMs)
    || exists j | 0 <= j < i :: log[j].seen.tier == Easy && log[i].time <= log[j].time + w.escalateMs
  }

  /** At a vetoed observation the tier does not rise. */
  lemma {:induction false} VetoedDoesNotRise(w: Windows, log: seq<Observation>)
    requires log != [] && Ordered(log) && Vetoed(w, log, |log| - 1)
    ensures !Rises(w, log)
  {
    if Last(log).seen.tier == Easy {
      EveryObservationHasAVeto(w, log, |log| - 1);
    } else if j :| 0 <= j < |log| - 1 && log[j].seen.tier == Easy && Last(log).time <= log[j].time + w.escalateMs {
      EveryObservationHasAVeto(w, log, j);
    } else {
      TierMovesExactlyWhenItsWindowAgrees(w, log);
      assert forall i | 0 <= i < |log| :: log[0].time <= log[i].time;
    }
  }

  lemma {:induction false} VetoedNeverShows(w: Windows, log: seq<Observation>)
    requires Ordered(log) && forall i | 0 <= i < |log| :: Vetoed(w, log, i)
    ensures Shown(w, log).tier == Easy
  {
    if log != [] {
      var front := Front(log);
      forall i | 0 <= i < |front| ensures Vetoed(w, front, i) {
        assert Vetoed(w, log, i) && front[i] == log[i] && front[0] == log[0];
        if j :| 0 <= j < i && log[j].seen.tier == Easy && log[i].time <= log[j].time + w.escalateMs {
          assert front[j] == log[j];
        }
      }
      VetoedNeverShows(w, front);
      VetoedDoesNotRise(w, log);
    }
  }

  /** A burst over, with the calm observation before it, within the escalation window never shows. */
  lemma {:induction false} BriefBurstNeverShows(w: Windows, log: seq<Observation>, lo: nat, hi: nat)
    requires Ordered(log) && 0 < lo
    requires forall i | 0 <= i < |log| && !(lo <= i <= hi) :: log[i].seen.tier == Easy
    requires forall i | lo <= i <= hi && i < |log| :: log[i].time <= log[lo - 1].time + w.escalateMs
    ensures Shown(w, log).tier == Easy
  {
    forall i | 0 <= i < |log| ensures Vetoed(w, log, i) {
      assert lo <= i <= hi ==> log[lo - 1].seen.tier == Easy;
    }
    VetoedNeverShows(w, log);
  }

  // ---- Response ----

  /** The tier is at least `t` (`up`), or at most. */
  predicate Reached(up: bool, x: Tier, t: Tier) {
    if up then !t.Above(x) else !x.Above(t)
  }

  /** Every observation from `m` on is at least, or at most, `t`. */
  predicate AllReach(log: seq<Observation>, m: nat, up: bool, t: Tier) {
    m < |log| && forall i | m <= i < |log| :: Reached(up, log[i].seen.tier, t)
  }

  /** Every observation from `m` on has tier `t`. */
  predicate Lasts(log: seq<Observation>, m: nat, t: Tier) {
    m < |log| && forall i | m <= i < |log| :: log[i].seen.tier == t
  }

  /** The observations from `m` on start after all others and come often enough. */
  predicate Steady(w: Windows, log: seq<Observation>, m: nat) {
    && m < |log|
    && (m > 0 ==> log[m - 1].time < log[m].time)
    && (forall i | m < i < |log| :: log[i].time <= log[i - 1].time + SaturatingDouble(w.Longest()))
  }

  /** The window that a move in this direction takes. */
  function WindowFor(w: Windows, up: bool): u64 {
    if up then w.escalateMs else w.settleMs
  }

  lemma {:induction false} AllReachInFront(log: seq<Observation>, m: nat, up: bool, t: Tier)
    requires AllReach(log, m, up, t) && |log| > m + 1
    ensures AllReach(Front(log), m, up, t)
  {
    assert forall i | 0 <= i < |log| - 1 :: Front(log)[i] == log[i];
  }

  /** A tier reached stays reached while every observation reaches it. */
  lemma {:induction false} ReachedHolds(w: Windows, log: seq<Observation>, m: nat, up: bool, t: Tier, p: nat)
    requires Ordered(log) && AllReach(log, m, up, t) && m <= p <= |log| && Reached(up, Shown(w, log[..p]).tier, t)
    ensures Reached(up, Shown(w, log).tier, t)
  {
    if p == |log| {
      assert log[..p] == log;
    } else {
      TierMovesTowardsTheObservation(w, log);
      if |log| == m + 1 {
        assert log[..p] == Front(log);
      } else {
        AllReachInFront(log, m, up, t);
        assert Front(log)[..p] == log[..p];
        ReachedHolds(w, Front(log), m, up, t, p);
      }
    }
  }

  /** Once shown while all observations are of one tier, that tier stays. */
  lemma {:induction false} StreakHolds(w: Windows, log: seq<Observation>, m: nat, t: Tier, p: nat)
    requires Ordered(log) && Lasts(log, m, t) && m <= p <= |log| && Shown(w, log[..p]).tier == t
    ensures Shown(w, log).tier == t
  {
    ReachedHolds(w, log, m, true, t, p);
    ReachedHolds(w, log, m, false, t, p);
  }

  /** While all observations are of one tier, the tier shown stays between where it was and that one. */
  lemma {:induction false} StreakNeverOvershoots(w: Windows, log: seq<Observation>, m: nat, t: Tier)
    requires Ordered(log) && Lasts(log, m, t)
    ensures Between(Shown(w, log[..m]).tier, t, Shown(w, log).tier)
  {
    var start := Shown(w, log[..m]).tier;
    if t.Above(start) {
      ReachedHolds(w, log, m, true, start, m);
      ReachedHolds(w, log, m, false, t, m);
    } else {
      ReachedHolds(w, log, m, true, t, m);
      ReachedHolds(w, log, m, false, start, m);
    }
  }

  /** A covered window that unanimously holds one tier brings that tier. */
  lemma {:induction false} UnanimousWindowIsShown(w: Windows, log: seq<Observation>, t: Tier, window: u64)
    requires log != [] && Ordered(log) && Covered(w, log, window)
    requires window == if t.Above(Shown(w, Front(log)).tier) then w.escalateMs else w.settleMs
    requires Last(log).seen.tier == t
    requires forall i | 0 <= i < |log| && log[i].time >= Cutoff(log, window) :: log[i].seen.tier == t
    ensures Shown(w, log).tier == t
  {
    TierMovesExactlyWhenItsWindowAgrees(w, log);
    TierMovesTowardsTheObservation(w, log);
  }

  /** A covered window in which every observation reaches a tier makes the tracker reach it. */
  lemma {:induction false} UnanimousWindowReaches(w: Windows, log: seq<Observation>, up: bool, t: Tier)
    requires log != [] && Ordered(log) && Covered(w, log, WindowFor(w, up))
    requires forall i | 0 <= i < |log| && log[i].time >= Cutoff(log, WindowFor(w, up)) ::
               Reached(up, log[i].seen.tier, t)
    ensures Reached(up, Shown(w, log).tier, t)
  {
    assert Reached(up, log[|log| - 1].seen.tier, t);
    TierMovesExactlyWhenItsWindowAgrees(w, log);
    TierMovesTowardsTheObservation(w, log);
  }

  /** An observation alone in both windows, after an older one that is still kept, is followed at once. */
  lemma {:induction false} LoneObservationReaches(w: Windows, log: seq<Observation>, up: bool, t: Tier)
    requires |log| >= 2 && Ordered(log) && Reached(up, Last(log).seen.tier, t)
    requires w.Longest() < Last(log).time - log[|log| - 2].time <= SaturatingDouble(w.Longest())
    ensures Reached(up, Shown(w, log).tier, t)
  {
    assert Covered(w, log, WindowFor(w, up)) by {
      assert log[|log| - 2] in log;
    }
    assert forall i | 0 <= i < |log| - 1 :: log[i].time <= log[|log| - 2].time;
    UnanimousWindowReaches(w, log, up, t);
  }

  /** When the window is covered, observations that reach a tier for as long make the tracker reach it. */
  lemma {:induction false} CoveredWindowReaches(w: Windows, log: seq<Observation>, m: nat, up: bool, t: Tier)
    requires Ordered(log) && AllReach(log, m, up, t) && Steady(w, log, m) && Covered(w, log, WindowFor(w, up))
    requires Last(log).time >= log[m].time + WindowFor(w, up)
    ensures Reached(up, Shown(w, log).tier, t)
  {
    assert forall i | 0 <= i < m :: log[i].time <= log[m - 1].time;
    UnanimousWindowReaches(w, log, up, t);
  }

  /** After a gap longer than either window, the observation after the gap decided alone. */
  lemma {:induction false} ReachedAfterAGap(w: Windows, log: seq<Observation>, m: nat, up: bool, t: Tier, k: nat)
    requires Ordered(log) && AllReach(log, m, up, t) && Steady(w, log, m) && m < k < |log|
    requires w.Longest() < log[k].time - log[k - 1].time
    ensures Reached(up, Shown(w, log).tier, t)
  {
    var cut := log[..k + 1];
    assert cut[|cut| - 2] == log[k - 1] && Last(cut) == log[k];
    LoneObservationReaches(w, cut, up, t);
    ReachedHolds(w, log, m, up, t, k + 1);
  }

  /** What is kept begins inside a gap longer than either window, if it leaves uncovered a window the log covered. */
  lemma {:induction false} GapBeforeWhatIsKept(w: Windows, now: u64, window: u64, before: u64, after: u64)
    requires window <= w.Longest() && before < w.Horizon(now) && after > SaturatingSub(now, window)
    ensures w.Longest() < after - before
  {
    assert w.Horizon(now) == now - 2 * w.Longest();
  }

  /**
   Sustained observations are answered: once all have been at least a tier for the escalation window, the tier shown
   is at least that; once all have been at most a tier for the settling window, it is at most that.
   */
  lemma {:induction false} SustainedIsReached(w: Windows, log: seq<Observation>, m: nat, up: bool, t: Tier)
    requires Ordered(log) && AllReach(log, m, up, t) && Steady(w, log, m)
    requires Last(log).time >= log[m].time + WindowFor(w, up)
    ensures Reached(up, Shown(w, log).tier, t)
  {
    var k := FirstKept(w, log);
    OldestCovers(w, log, WindowFor(w, up), k);
    if Covered(w, log, WindowFor(w, up)) {
      CoveredWindowReaches(w, log, m, up, t);
    } else {
      assert log[m].time <= Cutoff(log, WindowFor(w, up)) < log[k].time;
      GapBeforeWhatIsKept(w, Last(log).time, WindowFor(w, up), log[k - 1].time, log[k].time);
      ReachedAfterAGap(w, log, m, up, t, k);
    }
  }

  /**
   Bounded response. Once observations of one tier have lasted for the escalation window a lower tier has become
   theirs, and once they have lasted for the settling window a higher one has.
   */
  lemma {:induction false} StreakIsAnswered(w: Windows, log: seq<Observation>, m: nat, t: Tier)
    requires Ordered(log) && Lasts(log, m, t) && Steady(w, log, m)
    ensures !Shown(w, log[..m]).tier.Above(t) && Last(log).time >= log[m].time + w.escalateMs ==>
              Shown(w, log).tier == t
    ensures !t.Above(Shown(w, log[..m]).tier) && Last(log).time >= log[m].time + w.settleMs ==>
              Shown(w, log).tier == t
  {
    StreakNeverOvershoots(w, log, m, t);
    if Last(log).time >= log[m].time + w.escalateMs {
      SustainedIsReached(w, log, m, true, t);
    }
    if Last(log).time >= log[m].time + w.settleMs {
      SustainedIsReached(w, log, m, false, t);
    }
  }

  // ---- Forgetting ----

  /** What a tracker that never forgets would show. */
  function Remembered(w: Windows, log: seq<Observation>): Assessment {
    if log == [] then CALM else Decide(w, Remembered(w, Front(log)), log, Last(log))
  }

  /** Any answer the kept history gives is the answer of the whole log; silence differs only if the log would answer. */
  lemma {:induction false} PrunedAnswersAreTrue(w: Windows, log: seq<Observation>, window: u64, worst: bool)
    requires log != [] && Ordered(log) && window <= w.Longest()
    ensures
      var now := Last(log).time;
      var kept, full := Supported(Run(w, log).history, now, window, worst), Supported(log, now, window, worst);
      && (kept.Some? ==> kept == full)
      && (kept == full <==> Covered(w, log, window) || log[0].time > Cutoff(log, window))
  {
    AnswerOfThePrunedLog(w, log, window, worst);
    ChosenWasSeen(log, Cutoff(log, window), worst);
    assert Last(log) in log;
    if o :| o in log && w.Horizon(Last(log).time) <= o.time <= Cutoff(log, window) {
      assert log[0].time <= o.time;
    }
  }

  /** The tier a tracker that never forgets shows moves within the same two windows. */
  lemma {:induction false} RememberedStep(w: Windows, log: seq<Observation>)
    requires log != [] && Ordered(log)
    ensures
      var before, after := Remembered(w, Front(log)).tier, Remembered(w, log).tier;
      || after == before
      || exists o :: o in log && o.seen.tier == after && o.time >= Last(log).time - w.Longest()
  {
    ChosenWasSeen(log, Cutoff(log, w.escalateMs), true);
    ChosenWasSeen(log, Cutoff(log, w.settleMs), false);
  }

  /** After a gap longer than either window, a tracker that never forgets shows the newest observation's tier. */
  lemma {:induction false} RememberedAfterAGap(w: Windows, log: seq<Observation>)
    requires |log| >= 2 && Ordered(log) && w.Longest() < Last(log).time - log[|log| - 2].time
    ensures Remembered(w, log).tier == Last(log).seen.tier
  {
    assert forall i | 0 <= i < |log| - 1 :: log[i].time <= log[|log| - 2].time;
    assert Last(log) in log;
    ChosenWasSeen(log, Cutoff(log, w.escalateMs), true);
    ChosenWasSeen(log, Cutoff(log, w.settleMs), false);
  }

  /** After such a gap, every tier a tracker that never forgets shows is that of some observation made since. */
  lemma {:induction false} RememberedSinceTheGap(w: Windows, log: seq<Observation>, k: nat) returns (i: nat)
    requires Ordered(log) && 0 < k < |log| && w.Longest() < log[k].time - log[k - 1].time
    ensures k <= i < |log| && Remembered(w, log).tier == log[i].seen.tier
  {
    if |log| == k + 1 {
      RememberedAfterAGap(w, log);
      i := k;
    } else if Remembered(w, log).tier == Remembered(w, Front(log)).tier {
      i := RememberedSinceTheGap(w, Front(log), k);
    } else {
      RememberedStep(w, log);
      var o :| o in log && o.seen.tier == Remembered(w, log).tier && o.time >= Last(log).time - w.Longest();
      i :| 0 <= i < |log| && log[i] == o;
      assert forall j | 0 <= j < k :: log[j].time <= log[k - 1].time;
    }
  }

  /** A window the whole log covers and the kept history does not begins inside a gap longer than the window. */
  lemma {:induction false} LostCoverMeansAGap(w: Windows, log: seq<Observation>, window: u64) returns (k: nat)
    requires log != [] && Ordered(log) && GapsAtMost(log, SaturatingDouble(w.Longest())) && window <= w.Longest()
    requires !Covered(w, log, window) && log[0].time <= Cutoff(log, window)
    ensures 0 < k < |log| - 1 && log[k].time - log[k - 1].time > w.Longest()
    ensures forall j | k <= j < |log| :: log[j].time >= Cutoff(log, window)
  {
    k := FirstKept(w, log);
    assert log[k] in log && log[k].time > Cutoff(log, window);
  }

  /** An answer lost to pruning would not have moved the tier. */
  lemma {:induction false} LostAnswersDoNotMatter(w: Windows, log: seq<Observation>, window: u64, worst: bool)
    requires log != [] && Ordered(log) && GapsAtMost(log, SaturatingDouble(w.Longest())) && window <= w.Longest()
    requires !Covered(w, log, window) && log[0].time <= Cutoff(log, window)
    ensures
      var a, before := Chosen(log, Cutoff(log, window), worst), Remembered(w, Front(log)).tier;
      a.Some? && if worst then !a.value.tier.Above(before) else !before.Above(a.value.tier)
  {
    var k := LostCoverMeansAGap(w, log, window);
    var i := RememberedSinceTheGap(w, Front(log), k);
    assert Front(log)[i] == log[i] && log[i] in log;
    ChosenIsExtreme(log, Cutoff(log, window), worst);
  }

  /** With no gap longer than twice the longest window, forgetting is never noticed. */
  lemma {:induction false} ForgettingIsInvisible(w: Windows, log: seq<Observation>)
    requires Ordered(log) && GapsAtMost(log, SaturatingDouble(w.Longest()))
    ensures Shown(w, log) == Remembered(w, log)
  {
    if log != [] {
      ForgettingIsInvisible(w, Front(log));
      PrunedAnswersAreTrue(w, log, w.escalateMs, true);
      PrunedAnswersAreTrue(w, log, w.settleMs, false);
      if !Covered(w, log, w.escalateMs) && log[0].time <= Cutoff(log, w.escalateMs) {
        LostAnswersDoNotMatter(w, log, w.escalateMs, true);
      }
      if !Covered(w, log, w.settleMs) && log[0].time <= Cutoff(log, w.settleMs) {
        LostAnswersDoNotMatter(w, log, w.settleMs, false);
      }
    }
  }

  ghost predicate Invisible(w: Windows, gap: u64) {
    forall log | Ordered(log) && GapsAtMost(log, gap) :: Shown(w, log) == Remembered(w, log)
  }

  /** Pruning to twice the longest window cannot be noticed exactly while no gap is longer than what is kept. */
  lemma {:induction false} ForgettingIsInvisibleIff(w: Windows, gap: u64)
    ensures Invisible(w, gap) <==> gap <= SaturatingDouble(w.Longest()) || w.Longest() == 0
  {
    var kept := SaturatingDouble(w.Longest());
    if gap <= kept {
      forall log | Ordered(log) && GapsAtMost(log, gap) ensures Shown(w, log) == Remembered(w, log) {
        ForgettingIsInvisible(w, log);
      }
    } else if w.Longest() == 0 {
      forall log | Ordered(log) && GapsAtMost(log, gap) ensures Shown(w, log) == Remembered(w, log) {
        NoWindowsNothingToForget(w, log);
      }
    } else {
      var rising := w.escalateMs > 0;
      var first, second := if rising then Easy else Strained, if rising then Strained else Easy;
      ForgettingSeen(w, TwoObservations(first, second, kept + 1));
    }
  }

  lemma {:induction false} NoWindowsNothingToForget(w: Windows, log: seq<Observation>)
    requires Ordered(log) && w.Longest() == 0
    ensures Shown(w, log) == Remembered(w, log)
  {
    if log != [] {
      NoWindowsNothingToForget(w, Front(log));
      assert Last(log) in log;
      assert Covered(w, log, w.escalateMs) && Covered(w, log, w.settleMs);
      PrunedAnswersAreTrue(w, log, w.escalateMs, true);
      PrunedAnswersAreTrue(w, log, w.settleMs, false);
    }
  }

  /** An observation at the origin of the clock is shown at once, by either tracker. */
  lemma {:induction false} ShownAtTheOrigin(w: Windows, o: Observation)
    requires o.time == 0
    ensures Shown(w, [o]).tier == Remembered(w, [o]).tier == o.seen.tier
  {
    var start := [o];
    assert Front(start) == [] && o in start;
    assert Covered(w, start, w.escalateMs);
    TierMovesExactlyWhenItsWindowAgrees(w, start);
    ForgettingIsInvisible(w, start);
  }

  /** Whatever it is told, a tracker first told something at `start` shows nothing before a whole window has passed. */
  ghost predicate CalmAtFirst(w: Windows, start: u64) {
    forall log: seq<Observation>
      | log != [] && Ordered(log) && log[0].time == start && Last(log).time < start + w.escalateMs ::
      Shown(w, log).tier == Easy
  }

  /** With less history than its window a fresh tracker moves nothing, except from the very origin of the clock. */
  lemma {:induction false} CalmAtFirstIff(w: Windows, start: u64)
    ensures CalmAtFirst(w, start) <==> start > 0 || w.escalateMs == 0
  {
    if start > 0 || w.escalateMs == 0 {
      forall log: seq<Observation>
        | log != [] && Ordered(log) && log[0].time == start && Last(log).time < start + w.escalateMs
        ensures Shown(w, log).tier == Easy
      {
        assert log[0].time <= Last(log).time;
        FreshTrackerStaysCalm(w, log);
      }
    } else {
      var o := Observation(0, Assessment(Strained, Clear));
      ShownAtTheOrigin(w, o);
      assert Shown(w, [o]).tier != Easy && Last([o]).time < start + w.escalateMs;
    }
  }

  /** Past what is kept, one observation of the other tier moves a tracker that remembers and not the real one. */
  lemma {:induction false} ForgettingSeen(w: Windows, log: seq<Observation>)
    requires w.Longest() > 0 && SaturatingDouble(w.Longest()) + 1 < U64_SPAN
    requires log == if w.escalateMs > 0 then TwoObservations(Easy, Strained, SaturatingDouble(w.Longest()) + 1)
                                        else TwoObservations(Strained, Easy, SaturatingDouble(w.Longest()) + 1)
    ensures Ordered(log) && GapsAtMost(log, SaturatingDouble(w.Longest()) + 1)
    ensures Shown(w, log).tier == log[0].seen.tier && Remembered(w, log).tier == log[1].seen.tier
  {
    assert Front(log) == [log[0]];
    ShownAtTheOrigin(w, log[0]);
    RememberedAfterAGap(w, log);
    assert forall o | o in log :: o == log[0] || o == log[1];
    if w.escalateMs > 0 {
      assert !Covered(w, log, w.escalateMs);
      TierMovesExactlyWhenItsWindowAgrees(w, log);
    } else {
      assert !Covered(w, log, w.settleMs);
      TierMovesExactlyWhenItsWindowAgrees(w, log);
    }
  }
}
