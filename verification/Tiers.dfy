/** The judgement of one window, and the tracker that decides when a judgement has lasted long enough to show. */
module Tiers {
  import opened Basics
  import opened Types
  import opened Verdicts

  datatype Tier = Easy | Braced | Strained {
    function Rank(): nat {
      match this
      case Easy => 0
      case Braced => 1
      case Strained => 2
    }

    predicate Above(other: Tier) {
      Rank() > other.Rank()
    }
  }

  const STALL_BRACED := 0.40
  const STALL_STRAINED := 0.80
  const ESCALATE_MS: u64 := 1_500
  const SETTLE_MS: u64 := 6_000

  datatype TierReason = Clear | ByVerdict(kind: VerdictKind) | ByStall(resource: Resource)

  datatype Assessment = Assessment(tier: Tier, reason: TierReason)

  const CALM := Assessment(Easy, Clear)

  // ---- Judging one window ----

  /** The most severe verdict; among equals, the one listed last. */
  function WorstVerdict(vs: seq<Verdict>): Option<Verdict> {
    if vs == [] then None
    else
      var rest := WorstVerdict(Front(vs));
      if rest.None? || Last(vs).severity.Rank() >= rest.value.severity.Rank() then Some(Last(vs)) else rest
  }

  /** Nothing is more severe than the verdict at `i`, and nothing listed after it is as severe. */
  predicate LastOfTheWorst(vs: seq<Verdict>, i: nat)
    requires i < |vs|
  {
    && (forall j | 0 <= j < i :: vs[j].severity.Rank() <= vs[i].severity.Rank())
    && (forall j | i < j < |vs| :: vs[j].severity.Rank() < vs[i].severity.Rank())
  }

  lemma {:induction false} WorstVerdictIsLastOfTheWorst(vs: seq<Verdict>) returns (i: nat)
    requires vs != []
    ensures i < |vs| && LastOfTheWorst(vs, i) && WorstVerdict(vs) == Some(vs[i])
  {
    i := |vs| - 1;
    if |vs| > 1 {
      var k := WorstVerdictIsLastOfTheWorst(Front(vs));
      if Last(vs).severity.Rank() < vs[k].severity.Rank() {
        i := k;
        assert forall j | 0 <= j < |vs| - 1 :: vs[j] == Front(vs)[j];
      } else {
        assert forall j | 0 <= j < |vs| - 1 :: vs[j].severity.Rank() <= Front(vs)[k].severity.Rank() by {
          assert forall j | 0 <= j < |vs| - 1 :: vs[j] == Front(vs)[j];
        }
      }
    }
  }

  function TierOfSeverity(s: Severity): Tier {
    match s
    case OutOfSpec => Strained
    case Degraded => Braced
    case Ok => Easy
  }

  function TierOfStall(level: real): Tier {
    if level >= STALL_STRAINED then Strained else if level >= STALL_BRACED then Braced else Easy
  }

  /** The worst input wins, and a verdict explains a tie. */
  function Classify(verdicts: seq<Verdict>, stall: StallSignal): Assessment {
    var worst := WorstVerdict(verdicts);
    var fromVerdicts := if worst.Some? then TierOfSeverity(worst.value.severity) else Easy;
    var fromStall := TierOfStall(stall.Worst().1);
    if fromVerdicts.Rank() >= fromStall.Rank() then
      Assessment(fromVerdicts, if worst.Some? && fromVerdicts.Above(Easy) then ByVerdict(worst.value.kind) else Clear)
    else
      Assessment(fromStall, ByStall(stall.Worst().0))
  }

  // ---- Tracking ----

  datatype Observation = Observation(time: u64, seen: Assessment)

  datatype Windows = Windows(escalateMs: u64, settleMs: u64) {
    function Longest(): u64 {
      Max(escalateMs, settleMs)
    }

    /** Observations before this moment are forgotten. */
    function Horizon(now: u64): u64 {
      SaturatingSub(now, SaturatingDouble(Longest()))
    }
  }

  /** The earliest judgement of the worst-supported (lowest), or else highest, tier seen at or after `cutoff`. */
  function Chosen(h: seq<Observation>, cutoff: u64, worst: bool): Option<Assessment> {
    if h == [] then None
    else
      var c := Chosen(Front(h), cutoff, worst);
      var o := Last(h);
      if o.time < cutoff then c
      else if c.None? then Some(o.seen)
      else if worst && c.value.tier.Above(o.seen.tier) then Some(o.seen)
      else if !worst && o.seen.tier.Above(c.value.tier) then Some(o.seen)
      else c
  }

  /** What every observation of the last `window` milliseconds supports, once the window is covered. */
  function Supported(h: seq<Observation>, now: u64, window: u64, worst: bool): Option<Assessment> {
    var cutoff := SaturatingSub(now, window);
    if h == [] || h[0].time > cutoff then None else Chosen(h, cutoff, worst)
  }

  function Prune(h: seq<Observation>, horizon: u64): seq<Observation> {
    if h != [] && h[0].time < horizon then Prune(h[1..], horizon) else h
  }

  /** The assessment shown after a new observation, given what was shown before and what is remembered. */
  function Decide(w: Windows, current: Assessment, h: seq<Observation>, o: Observation): Assessment {
    var worse := Supported(h, o.time, w.escalateMs, true);
    var better := Supported(h, o.time, w.settleMs, false);
    if worse.Some? && worse.value.tier.Above(current.tier) then worse.value
    else if better.Some? && current.tier.Above(better.value.tier) then better.value
    else if o.seen.tier == current.tier then current.(reason := o.seen.reason)
    else current
  }

  datatype TrackerState = TrackerState(current: Assessment, latest: Assessment, history: seq<Observation>)

  function Step(w: Windows, m: TrackerState, o: Observation): TrackerState {
    var h := Prune(m.history + [o], w.Horizon(o.time));
    TrackerState(Decide(w, m.current, h, o), o.seen, h)
  }

  /** A tracker's memory after a whole run of observations. */
  function Run(w: Windows, log: seq<Observation>): TrackerState {
    if log == [] then TrackerState(CALM, CALM, []) else Step(w, Run(w, Front(log)), Last(log))
  }

  /** Applies the sustained requirement. `log` is every observation ever made; `history` is what is kept of it. */
  class TierTracker {
    const windows: Windows
    var current: Assessment
    var latest: Assessment
    var history: seq<Observation>
    ghost var log: seq<Observation>

    ghost predicate Valid()
      reads this
    {
      TrackerState(current, latest, history) == Run(windows, log)
    }

    constructor (escalateMs: u64, settleMs: u64)
      ensures Valid() && windows == Windows(escalateMs, settleMs)
      ensures log == [] && current == CALM
    {
      windows := Windows(escalateMs, settleMs);
      current := CALM;
      latest := CALM;
      history := [];
      log := [];
    }

    /** The windows the program runs with. */
    constructor Default()
      ensures Valid() && windows == Windows(1_500, 6_000)
      ensures log == [] && current == CALM
    {
      windows := Windows(ESCALATE_MS, SETTLE_MS);
      current := CALM;
      latest := CALM;
      history := [];
      log := [];
    }

    method Observe(assessment: Assessment, now: u64) returns (shown: Assessment)
      requires Valid()
      modifies this
      ensures Valid() && log == old(log) + [Observation(now, assessment)]
      ensures shown == current && latest == assessment
    {
      ghost var o := Observation(now, assessment);
      log := log + [o];
      assert Front(log) == old(log) && Last(log) == o;

      latest := assessment;
      history := history + [Observation(now, assessment)];
      var horizon := SaturatingSub(now, SaturatingDouble(Max(windows.escalateMs, windows.settleMs)));
      while history != [] && history[0].time < horizon
        invariant Prune(history, horizon) == Prune(old(history) + [o], horizon)
        invariant current == old(current) && latest == assessment && log == old(log) + [o]
        decreases |history|
      {
        history := history[1..];
      }

      var worse := SupportedByAll(now, windows.escalateMs, true);
      if worse.Some? && worse.value.tier.Above(current.tier) {
        current := worse.value;
        return current;
      }
      var better := SupportedByAll(now, windows.settleMs, false);
      if better.Some? && current.tier.Above(better.value.tier) {
        current := better.value;
        return current;
      }
      if assessment.tier == current.tier {
        current := current.(reason := assessment.reason);
      }
      return current;
    }

    method SupportedByAll(now: u64, window: u64, worst: bool) returns (chosen: Option<Assessment>)
      ensures chosen == Supported(history, now, window, worst)
    {
      var cutoff := SaturatingSub(now, window);
      if history == [] || history[0].time > cutoff {
        return None;
      }
      chosen := None;
      for i := 0 to |history|
        invariant chosen == Chosen(history[..i], cutoff, worst)
      {
        assert Front(history[..i + 1]) == history[..i];
        var a := history[i].seen;
        if history[i].time >= cutoff {
          if chosen.None? {
            chosen := Some(a);
          } else if worst && chosen.value.tier.Above(a.tier) {
            chosen := Some(a);
          } else if !worst && a.tier.Above(chosen.value.tier) {
            chosen := Some(a);
          }
        }
      }
      assert history[..|history|] == history;
    }
  }
}
