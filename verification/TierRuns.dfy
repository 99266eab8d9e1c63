/** What the tier shown means, over every run of observations a tracker can be given. */
module TierRuns {
  import opened Basics
  import opened Types
  import opened Verdicts
  import opened Tiers

  // ---- One window's judgement ----

  /** What a verdict of this severity is worth by itself. */
  predicate SeverityReaches(s: Severity, t: Tier) {
    t == Easy || (t == Braced && s != Ok) || s == OutOfSpec
  }

  /** What a stall of this height is worth by itself. */
  predicate StallReaches(x: real, t: Tier) {
    t == Easy || (t == Braced && x >= 0.40) || x >= 0.80
  }

  /** Some verdict or some known stall value reaches the tier on its own. */
  predicate Reaches(verdicts: seq<Verdict>, stall: StallSignal, t: Tier) {
    || t == Easy
    || (exists v :: v in verdicts && SeverityReaches(v.severity, t))
    || (exists r: Resource :: stall.Of(r).Some? && StallReaches(stall.Of(r).value, t))
  }

  lemma {:induction false} WorstVerdictDecides(vs: seq<Verdict>, t: Tier)
    requires t != Easy
    ensures (exists v :: v in vs && SeverityReaches(v.severity, t))
       <==> WorstVerdict(vs).Some? && SeverityReaches(WorstVerdict(vs).value.severity, t)
  {
    if vs != [] {
      var i := WorstVerdictIsLastOfTheWorst(vs);
      forall v | v in vs ensures v.severity.Rank() <= vs[i].severity.Rank() {
        var j :| 0 <= j < |vs| && vs[j] == v;
      }
    }
  }

  /** The worst input wins: a tier is reached exactly when one input reaches it alone. */
  lemma {:induction false} ClassifyTakesTheWorstInput(verdicts: seq<Verdict>, stall: StallSignal, t: Tier)
    ensures Classify(verdicts, stall).tier.Rank() >= t.Rank() <==> Reaches(verdicts, stall, t)
  {
    WorstIsGreatest(stall);
    if t != Easy {
      WorstVerdictDecides(verdicts, t);
    }
  }

  /**
   The reason is clear exactly when nothing is wrong. A verdict that reaches the tier is named before any stall, the
   last of the most severe; otherwise the worst resource is.
   */
  lemma {:induction false} ClassifyNamesWhatReachedIt(verdicts: seq<Verdict>, stall: StallSignal)
    ensures
      var a := Classify(verdicts, stall);
      && (a.reason.Clear? <==> a.tier == Easy)
      && (a.reason.ByVerdict? <==> a.tier != Easy && exists v :: v in verdicts && SeverityReaches(v.severity, a.tier))
      && (a.reason.ByVerdict? ==> exists i ::
            0 <= i < |verdicts| && LastOfTheWorst(verdicts, i) && a.reason == ByVerdict(verdicts[i].kind))
      && (a.reason.ByStall? ==>
            a.reason == ByStall(stall.Worst().0) && StallReaches(stall.Worst().1, a.tier))
  {
    WorstIsGreatest(stall);
    var t := Classify(verdicts, stall).tier;
    if t != Easy {
      WorstVerdictDecides(verdicts, t);
    }
    if verdicts != [] {
      var i := WorstVerdictIsLastOfTheWorst(verdicts);
    }
  }

  /** Every known stall value of `a` is known and at least as high in `b`. */
  predicate NoQuieter(a: StallSignal, b: StallSignal) {
    forall r: Resource :: a.Of(r).Some? ==> b.Of(r).Some? && a.Of(r).value <= b.Of(r).value
  }

  /** Adding verdicts and raising stall never lowers the judgement. */
  lemma {:induction false} ClassifyIsMonotone(vs: seq<Verdict>, more: seq<Verdict>, a: StallSignal, b: StallSignal)
    requires (forall v | v in vs :: v in more) && NoQuieter(a, b)
    ensures !Classify(vs, a).tier.Above(Classify(more, b).tier)
  {
    var t := Classify(vs, a).tier;
    ClassifyTakesTheWorstInput(vs, a, t);
    ClassifyTakesTheWorstInput(more, b, t);
    if t != Easy && exists r: Resource :: a.Of(r).Some? && StallReaches(a.Of(r).value, t) {
      var r: Resource :| a.Of(r).Some? && StallReaches(a.Of(r).value, t);
      assert StallReaches(b.Of(r).value, t);
    }
  }

  // ---- Windows over a log ----

  predicate Ordered(log: seq<Observation>) {
    forall i, j | 0 <= i < j < |log| :: log[i].time <= log[j].time
  }

  predicate GapsAtMost(log: seq<Observation>, gap: u64) {
    forall i | 0 < i < |log| :: log[i].time <= log[i - 1].time + gap
  }

  /** One tier is lower than another (`worst`), or higher. */
  predicate Beats(worst: bool, a: Tier, b: Tier) {
    if worst then b.Above(a) else a.Above(b)
  }

  /** `a` is what was seen at `i`, since the cutoff, and it beats everything seen between the two. */
  predicate FirstSeen(log: seq<Observation>, cutoff: u64, worst: bool, a: Assessment, i: nat) {
    && i < |log| && log[i].time >= cutoff && log[i].seen == a
    && forall j | 0 <= j < i && log[j].time >= cutoff :: Beats(worst, a.tier, log[j].seen.tier)
  }

  /** `a` has the lowest (`worst`) or highest tier seen since the cutoff, and is the earliest seen with that tier. */
  predicate Extreme(log: seq<Observation>, cutoff: u64, worst: bool, a: Assessment) {
    && (forall o | o in log && o.time >= cutoff :: !Beats(worst, o.seen.tier, a.tier))
    && exists i | 0 <= i < |log| :: FirstSeen(log, cutoff, worst, a, i)
  }

  lemma {:induction false} ExtremeStays(f: seq<Observation>, cutoff: u64, worst: bool, a: Assessment, o: Observation)
    requires Extreme(f, cutoff, worst, a) && (o.time < cutoff || !Beats(worst, o.seen.tier, a.tier))
    ensures Extreme(f + [o], cutoff, worst, a)
  {
    var i :| 0 <= i < |f| && FirstSeen(f, cutoff, worst, a, i);
    assert FirstSeen(f + [o], cutoff, worst, a, i);
  }

  lemma {:induction false} ExtremeIsNew(f: seq<Observation>, cutoff: u64, worst: bool, o: Observation)
    requires o.time >= cutoff
    requires forall x | x in f && x.time >= cutoff :: Beats(worst, o.seen.tier, x.seen.tier)
    ensures Extreme(f + [o], cutoff, worst, o.seen)
  {
    assert FirstSeen(f + [o], cutoff, worst, o.seen, |f|);
  }

  /** Only an empty window leaves nothing to choose, and what is chosen was seen in the window. */
  lemma {:induction false} ChosenWasSeen(h: seq<Observation>, cutoff: u64, worst: bool)
    ensures Chosen(h, cutoff, worst).None? <==> forall o | o in h :: o.time < cutoff
    ensures Chosen(h, cutoff, worst).Some? ==>
              exists o :: o in h && o.time >= cutoff && o.seen == Chosen(h, cutoff, worst).value
  {
    if h != [] {
      ChosenWasSeen(Front(h), cutoff, worst);
      assert forall o :: o in h <==> o in Front(h) || o == Last(h);
    }
  }

  lemma {:induction false} ChosenIsExtreme(h: seq<Observation>, cutoff: u64, worst: bool)
    ensures Chosen(h, cutoff, worst).Some? ==> Extreme(h, cutoff, worst, Chosen(h, cutoff, worst).value)
  {
    if h != [] {
      var f, o := Front(h), Last(h);
      assert h == f + [o];
      var c := Chosen(f, cutoff, worst);
      ChosenIsExtreme(f, cutoff, worst);
      if o.time >= cutoff && (c.None? || Beats(worst, o.seen.tier, c.value.tier)) {
        ChosenWasSeen(f, cutoff, worst);
        ExtremeIsNew(f, cutoff, worst, o);
      } else if c.Some? {
        ExtremeStays(f, cutoff, worst, c.value, o);
      }
    }
  }

  lemma {:induction false} ChosenSkipsTheOld(past: seq<Observation>, h: seq<Observation>, cutoff: u64, worst: bool)
    requires forall o | o in past :: o.time < cutoff
    ensures Chosen(past + h, cutoff, worst) == Chosen(h, cutoff, worst)
  {
    if h == [] {
      assert past + h == past;
      ChosenWasSeen(past, cutoff, worst);
    } else {
      assert Front(past + h) == past + Front(h);
      ChosenSkipsTheOld(past, Front(h), cutoff, worst);
    }
  }

  lemma {:induction false} PruneIsASuffix(h: seq<Observation>, horizon: u64) returns (k: nat)
    ensures k <= |h| && Prune(h, horizon) == h[k..]
    ensures forall i | 0 <= i < k :: h[i].time < horizon
    ensures k < |h| ==> h[k].time >= horizon
  {
    k := 0;
    if h != [] && h[0].time < horizon {
      var j := PruneIsASuffix(h[1..], horizon);
      k := j + 1;
      assert h[1..][j..] == h[k..];
      forall i | 0 <= i < k ensures h[i].time < horizon {
        if i > 0 {
          assert h[i] == h[1..][i - 1];
        }
      }
    }
  }

  lemma {:induction false} PruneAgain(h: seq<Observation>, o: Observation, early: u64, late: u64)
    requires early <= late
    ensures Prune(Prune(h, early) + [o], late) == Prune(h + [o], late)
  {
    if h != [] && h[0].time < early {
      assert (h + [o])[1..] == h[1..] + [o];
      PruneAgain(h[1..], o, early, late);
    }
  }

  /** What a tracker keeps is its whole log without what is older than the horizon. */
  lemma {:induction false} HistoryIsThePrunedLog(w: Windows, log: seq<Observation>)
    requires log != [] && Ordered(log)
    ensures Run(w, log).history == Prune(log, w.Horizon(Last(log).time))
  {
    var o := Last(log);
    assert log == Front(log) + [o];
    if |log| > 1 {
      HistoryIsThePrunedLog(w, Front(log));
      PruneAgain(Front(log), o, w.Horizon(Last(Front(log)).time), w.Horizon(o.time));
    }
  }

  /** Some observation ever made is old enough to cover the window and recent enough to be kept. */
  predicate Covered(w: Windows, log: seq<Observation>, window: u64)
    requires log != []
  {
    exists o :: o in log && w.Horizon(Last(log).time) <= o.time <= SaturatingSub(Last(log).time, window)
  }

  function Cutoff(log: seq<Observation>, window: u64): u64
    requires log != []
  {
    SaturatingSub(Last(log).time, window)
  }

  /** The oldest observation still kept: everything before it is past the horizon. */
  lemma {:induction false} FirstKept(w: Windows, log: seq<Observation>) returns (k: nat)
    requires log != [] && Ordered(log)
    ensures k < |log| && log[k].time >= w.Horizon(Last(log).time)
    ensures forall i | 0 <= i < k :: log[i].time < w.Horizon(Last(log).time)
    ensures Run(w, log).history == log[k..]
  {
    HistoryIsThePrunedLog(w, log);
    k := PruneIsASuffix(log, w.Horizon(Last(log).time));
    assert log[|log| - 1].time >= w.Horizon(Last(log).time);
  }

  /** A window is covered exactly when the oldest observation kept covers it. */
  lemma {:induction false} OldestCovers(w: Windows, log: seq<Observation>, window: u64, k: nat)
    requires Ordered(log) && k < |log| && log[k].time >= w.Horizon(Last(log).time)
    requires forall i | 0 <= i < k :: log[i].time < w.Horizon(Last(log).time)
    ensures Covered(w, log, window) <==> log[k].time <= Cutoff(log, window)
  {
    assert log[k] in log;
  }

  /** A tracker's answer is the answer of its whole log when the window is covered, and silence otherwise. */
  lemma {:induction false} AnswerOfThePrunedLog(w: Windows, log: seq<Observation>, window: u64, worst: bool)
    requires log != [] && Ordered(log) && window <= w.Longest()
    ensures Supported(Run(w, log).history, Last(log).time, window, worst)
         == if Covered(w, log, window) then Chosen(log, Cutoff(log, window), worst) else None
  {
    var k := FirstKept(w, log);
    OldestCovers(w, log, window, k);
    if Covered(w, log, window) {
      var past, kept := log[..k], log[k..];
      assert log == past + kept;
      forall o | o in past ensures o.time < Cutoff(log, window) {
        var i :| 0 <= i < |past| && past[i] == o;
        assert log[i] == o;
      }
      ChosenSkipsTheOld(past, kept, Cutoff(log, window), worst);
    }
  }

  // ---- What moves the tier ----

  function Shown(w: Windows, log: seq<Observation>): Assessment {
    Run(w, log).current
  }

  /** Every observation ever made at or after the cutoff is above the tier. */
  predicate AllAbove(log: seq<Observation>, cutoff: u64, t: Tier) {
    forall o | o in log && o.time >= cutoff :: o.seen.tier.Above(t)
  }

  predicate AllBelow(log: seq<Observation>, cutoff: u64, t: Tier) {
    forall o | o in log && o.time >= cutoff :: t.Above(o.seen.tier)
  }

  predicate Rises(w: Windows, log: seq<Observation>)
    requires log != []
  {
    Shown(w, log).tier.Above(Shown(w, Front(log)).tier)
  }

  predicate Falls(w: Windows, log: seq<Observation>)
    requires log != []
  {
    Shown(w, Front(log)).tier.Above(Shown(w, log).tier)
  }

  /**
   The two rules, against every observation ever made. The tier rises exactly when the escalation window is covered
   and unanimously above it, and then to the earliest of the lowest assessments in that window; falls are the mirror
   image on the settling window. Both can never hold at once. Otherwise only the reason may follow the newest
   observation.
   */
  lemma {:induction false} TierMovesExactlyWhenItsWindowAgrees(w: Windows, log: seq<Observation>)
    requires log != [] && Ordered(log)
    ensures
      var before, after := Shown(w, Front(log)), Shown(w, log);
      var up := Covered(w, log, w.escalateMs) && AllAbove(log, Cutoff(log, w.escalateMs), before.tier);
      var down := Covered(w, log, w.settleMs) && AllBelow(log, Cutoff(log, w.settleMs), before.tier);
      && (Rises(w, log) <==> up) && (Falls(w, log) <==> down) && !(up && down)
      && (up ==> Extreme(log, Cutoff(log, w.escalateMs), true, after))
      && (down ==> Extreme(log, Cutoff(log, w.settleMs), false, after))
      && (!up && !down ==> after == if Last(log).seen.tier == before.tier then Last(log).seen else before)
  {
    var o := Last(log);
    assert o in log;
    AnswerOfThePrunedLog(w, log, w.escalateMs, true);
    AnswerOfThePrunedLog(w, log, w.settleMs, false);
    var before := Shown(w, Front(log)).tier;
    var lo := LowestDecides(log, Cutoff(log, w.escalateMs), before);
    var hi := HighestDecides(log, Cutoff(log, w.settleMs), before);
    assert !lo.tier.Above(o.seen.tier) && !o.seen.tier.Above(hi.tier);
  }

  lemma {:induction false} LowestDecides(log: seq<Observation>, cutoff: u64, t: Tier) returns (lo: Assessment)
    requires log != [] && Last(log).time >= cutoff
    ensures Chosen(log, cutoff, true) == Some(lo) && Extreme(log, cutoff, true, lo)
    ensures lo.tier.Above(t) <==> AllAbove(log, cutoff, t)
  {
    assert Last(log) in log;
    ChosenWasSeen(log, cutoff, true);
    ChosenIsExtreme(log, cutoff, true);
    lo := Chosen(log, cutoff, true).value;
  }

  lemma {:induction false} HighestDecides(log: seq<Observation>, cutoff: u64, t: Tier) returns (hi: Assessment)
    requires log != [] && Last(log).time >= cutoff
    ensures Chosen(log, cutoff, false) == Some(hi) && Extreme(log, cutoff, false, hi)
    ensures t.Above(hi.tier) <==> AllBelow(log, cutoff, t)
  {
    assert Last(log) in log;
    ChosenWasSeen(log, cutoff, false);
    ChosenIsExtreme(log, cutoff, false);
    hi := Chosen(log, cutoff, false).value;
  }

  /** Any one observation inside a window can keep the tier from moving by that window. */
  lemma {:induction false} EveryObservationHasAVeto(w: Windows, log: seq<Observation>, i: nat)
    requires i < |log| && Ordered(log)
    ensures Rises(w, log) && log[i].time >= Cutoff(log, w.escalateMs) ==>
              log[i].seen.tier.Above(Shown(w, Front(log)).tier) && !Shown(w, log).tier.Above(log[i].seen.tier)
    ensures Falls(w, log) && log[i].time >= Cutoff(log, w.settleMs) ==>
              Shown(w, Front(log)).tier.Above(log[i].seen.tier) && !log[i].seen.tier.Above(Shown(w, log).tier)
  {
    TierMovesExactlyWhenItsWindowAgrees(w, log);
    assert log[i] in log;
  }

  /** The third tier is one of the first two or lies between them. */
  predicate Between(a: Tier, b: Tier, x: Tier) {
    Min(a.Rank(), b.Rank()) <= x.Rank() <= Max(a.Rank(), b.Rank())
  }

  /** A step never overshoots: the tier ends between where it was and what was just observed. */
  lemma {:induction false} TierMovesTowardsTheObservation(w: Windows, log: seq<Observation>)
    requires log != [] && Ordered(log)
    ensures Between(Shown(w, Front(log)).tier, Last(log).seen.tier, Shown(w, log).tier)
  {
    TierMovesExactlyWhenItsWindowAgrees(w, log);
    assert Last(log) in log;
  }

  lemma {:induction false} HistoryWasObserved(w: Windows, log: seq<Observation>)
    ensures forall o | o in Run(w, log).history :: o in log
  {
    if log != [] {
      HistoryWasObserved(w, Front(log));
      var kept := Run(w, Front(log)).history + [Last(log)];
      var k := PruneIsASuffix(kept, w.Horizon(Last(log).time));
      assert forall o | o in kept[k..] :: o in kept;
      assert forall o | o in Front(log) :: o in log;
    }
  }

  /** The assessment shown is the initial one or one that was observed, even if the clock were to go backwards. */
  lemma {:induction false} ShownWasObserved(w: Windows, log: seq<Observation>)
    ensures Shown(w, log) == CALM || exists o :: o in log && o.seen == Shown(w, log)
  {
    if log != [] {
      var o, kept := Last(log), Run(w, log).history;
      ShownWasObserved(w, Front(log));
      HistoryWasObserved(w, log);
      ChosenWasSeen(kept, SaturatingSub(o.time, w.escalateMs), true);
      ChosenWasSeen(kept, SaturatingSub(o.time, w.settleMs), false);
      assert o in log && forall x | x in Front(log) :: x in log;
    }
  }

  predicate Consistent(a: Assessment) {
    a.reason.Clear? <==> a.tier == Easy
  }

  /** Fed only by `Classify`, the tier shown and its reason never disagree. */
  lemma {:induction false} TierAndReasonNeverDisagree(w: Windows, log: seq<Observation>)
    requires forall o | o in log :: exists verdicts, stall :: o.seen == Classify(verdicts, stall)
    ensures Consistent(Shown(w, log))
  {
    ShownWasObserved(w, log);
    if o :| o in log && o.seen == Shown(w, log) {
      var verdicts, stall :| o.seen == Classify(verdicts, stall);
      ClassifyNamesWhatReachedIt(verdicts, stall);
    }
  }

  /** A tracker stays calm, whatever it is told, as long as its first observation is inside the escalation window. */
  lemma {:induction false} FreshTrackerStaysCalm(w: Windows, log: seq<Observation>)
    requires log != [] && Ordered(log) && log[0].time > Cutoff(log, w.escalateMs)
    ensures Shown(w, log).tier == Easy
  {
    if |log| > 1 {
      FreshTrackerStaysCalm(w, Front(log));
    }
    TierMovesExactlyWhenItsWindowAgrees(w, log);
    assert forall i | 0 <= i < |log| :: log[0].time <= log[i].time;
  }
}
