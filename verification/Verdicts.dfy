/** The absolute checks: what each needs, and the method that runs them. */
module Verdicts {
  import opened Basics
  import opened Types
  import opened Specs

  datatype Severity = Ok | Degraded | OutOfSpec {
    function Rank(): nat {
      match this
      case Ok => 0
      case Degraded => 1
      case OutOfSpec => 2
    }
  }

  datatype VerdictKind =
    | BelowBaseClock
    | Throttling
    | PowerOutsideBand
    | PowerBelowRating
    | ThermalHeadroomLow
  {
    function Severity(): Severity {
      match this
      case BelowBaseClock => OutOfSpec
      case Throttling => OutOfSpec
      case _ => Degraded
    }
  }

  datatype Verdict = Verdict(kind: VerdictKind, severity: Severity)

  const THERMAL_HEADROOM_LOW_C := 5.0
  const MIN_UTILIZATION_FOR_BASE_CLOCK_PCT := 80.0

  predicate UnderDemand(r: CpuReading) {
    r.utilizationPct.Some? && r.utilizationPct.value >= 80.0
  }

  /** The figure the clock is held to: the published base, or the machine's own report of it. */
  function BaseClock(r: CpuReading, spec: Option<CpuSpec>): Option<u32> {
    if spec.Some? then Some(spec.value.baseMhz) else r.reportedBaseMhz
  }

  /** What must be true of a reading for a verdict of each kind to be issued. */
  predicate Fires(k: VerdictKind, r: CpuReading, spec: Option<CpuSpec>) {
    match k
    case Throttling =>
      r.throttleAsserted
    case ThermalHeadroomLow =>
      r.packageTempC.Some? && r.tjmaxC.Some? && r.tjmaxC.value - r.packageTempC.value <= 5.0
    case BelowBaseClock =>
      && UnderDemand(r) && r.allCoreMhz.Some? && BaseClock(r, spec).Some?
      && r.allCoreMhz.value < BaseClock(r, spec).value
    case PowerOutsideBand =>
      spec.Some? && r.packageWatts.Some? && r.packageWatts.value > spec.value.Ceiling() as real
    case PowerBelowRating =>
      spec.Some? && UnderDemand(r) && r.packageWatts.Some? && r.packageWatts.value < spec.value.Floor() as real
  }

  function Issue(k: VerdictKind): Verdict {
    Verdict(k, k.Severity())
  }

  /** A machine under load that reports its clock, its own base clock and its power. */
  function Loaded(utilization: real, mhz: u32, reportedBase: Option<u32>, watts: real): CpuReading {
    CpuReading(Some(mhz), Some(utilization), reportedBase, Some(watts), None, None, false)
  }

  /** Thermal headroom is low from five degrees below the limit on, and only when both temperatures are known. */
  lemma {:induction false} ThermalBoundary(r: CpuReading, spec: Option<CpuSpec>)
    ensures Fires(ThermalHeadroomLow, r, spec)
       <==> exists t: real, l: real :: r.packageTempC == Some(t) && r.tjmaxC == Some(l) && t >= l - 5.0
  {
    if r.packageTempC.Some? && r.tjmaxC.Some? {
      assert r.packageTempC == Some(r.packageTempC.value) && r.tjmaxC == Some(r.tjmaxC.value);
    }
  }

  /**
   The clock and power checks at their boundaries. Under a load of four fifths a clock is low from one below the base,
   the published one where there is a specification, whatever the machine reports; power is too low below the floor.
   Power is too high above the ceiling, whatever the load. None of these fires on the boundary itself.
   */
  lemma {:induction false} LoadBoundaries(spec: CpuSpec, load: real, mhz: u32, reported: Option<u32>, watts: real)
    ensures Fires(BelowBaseClock, Loaded(load, mhz, reported, watts), Some(spec))
       <==> load >= 80.0 && mhz < spec.baseMhz
    ensures Fires(BelowBaseClock, Loaded(load, mhz, reported, watts), None)
       <==> load >= 80.0 && reported.Some? && mhz < reported.value
    ensures Fires(PowerBelowRating, Loaded(load, mhz, reported, watts), Some(spec))
       <==> load >= 80.0 && watts < (if spec.ctdpMinWatts.Some? then spec.ctdpMinWatts.value else spec.tdpWatts) as real
    ensures Fires(PowerOutsideBand, Loaded(load, mhz, reported, watts), Some(spec))
       <==> watts > (if spec.ctdpMaxWatts.Some? then spec.ctdpMaxWatts.value else spec.tdpWatts) as real
    ensures !Fires(PowerBelowRating, Loaded(load, mhz, reported, watts), None)
    ensures !Fires(PowerOutsideBand, Loaded(load, mhz, reported, watts), None)
  {
  }

  /** Breaking a guarantee, or throttling, is out of specification; everything else is degraded. */
  lemma {:induction false} SeverityOfKinds(k: VerdictKind)
    ensures k.Severity() == if k == BelowBaseClock || k == Throttling then OutOfSpec else Degraded
  {
    match k
    case BelowBaseClock =>
    case Throttling =>
    case _ =>
  }

  /** The list with one more verdict when its check fires. */
  function PushIf(acc: seq<Verdict>, fires: bool, k: VerdictKind): (r: seq<Verdict>)
    ensures forall v :: v in r <==> v in acc || (fires && v == Issue(k))
  {
    if fires then acc + [Issue(k)] else acc
  }

  const CHECK_ORDER := [Throttling, ThermalHeadroomLow, BelowBaseClock, PowerOutsideBand, PowerBelowRating]

  /** The verdicts of the first `n` checks, in the order the checks are made. */
  function JudgeFirst(r: CpuReading, spec: Option<CpuSpec>, n: nat): seq<Verdict>
    requires n <= |CHECK_ORDER|
  {
    if n == 0 then []
    else PushIf(JudgeFirst(r, spec, n - 1), Fires(CHECK_ORDER[n - 1], r, spec), CHECK_ORDER[n - 1])
  }

  function Judge(r: CpuReading, spec: Option<CpuSpec>): seq<Verdict> {
    JudgeFirst(r, spec, |CHECK_ORDER|)
  }

  lemma {:induction false} JudgeFirstHolds(r: CpuReading, spec: Option<CpuSpec>, n: nat)
    requires n <= |CHECK_ORDER|
    ensures forall v :: v in JudgeFirst(r, spec, n)
                   <==> v == Issue(v.kind) && Fires(v.kind, r, spec) && v.kind in CHECK_ORDER[..n]
  {
    if n > 0 {
      JudgeFirstHolds(r, spec, n - 1);
      assert CHECK_ORDER[..n] == CHECK_ORDER[..n - 1] + [CHECK_ORDER[n - 1]];
    }
  }

  /** A kind is issued exactly when its check fires, with its own severity, and nothing else is issued. */
  lemma {:induction false} JudgeIssuesWhatFires(r: CpuReading, spec: Option<CpuSpec>)
    ensures forall v :: v in Judge(r, spec) <==> v == Issue(v.kind) && Fires(v.kind, r, spec)
  {
    JudgeFirstHolds(r, spec, |CHECK_ORDER|);
    assert CHECK_ORDER[..|CHECK_ORDER|] == CHECK_ORDER;
    forall k: VerdictKind ensures k in CHECK_ORDER {
      match k
      case Throttling => assert CHECK_ORDER[0] == k;
      case ThermalHeadroomLow => assert CHECK_ORDER[1] == k;
      case BelowBaseClock => assert CHECK_ORDER[2] == k;
      case PowerOutsideBand => assert CHECK_ORDER[3] == k;
      case PowerBelowRating => assert CHECK_ORDER[4] == k;
    }
  }

  /** Every absolute check the available data supports. */
  method Evaluate(r: CpuReading, spec: Option<CpuSpec>) returns (verdicts: seq<Verdict>)
    ensures verdicts == Judge(r, spec)
  {
    verdicts := [];
    assert verdicts == JudgeFirst(r, spec, 0);

    if r.throttleAsserted {
      verdicts := verdicts + [Verdict(Throttling, OutOfSpec)];
    }
    assert verdicts == JudgeFirst(r, spec, 1);

    if r.packageTempC.Some? && r.tjmaxC.Some? {
      var headroom := r.tjmaxC.value - r.packageTempC.value;
      if headroom <= THERMAL_HEADROOM_LOW_C {
        verdicts := verdicts + [Verdict(ThermalHeadroomLow, Degraded)];
      }
    }
    assert verdicts == JudgeFirst(r, spec, 2);

    var underDemand := r.utilizationPct.Some? && r.utilizationPct.value >= MIN_UTILIZATION_FOR_BASE_CLOCK_PCT;
    var base := if spec.Some? then Some(spec.value.baseMhz) else r.reportedBaseMhz;
    if r.allCoreMhz.Some? && base.Some? && underDemand {
      if r.allCoreMhz.value < base.value {
        verdicts := verdicts + [Verdict(BelowBaseClock, OutOfSpec)];
      }
    }
    assert verdicts == JudgeFirst(r, spec, 3);

    // The power checks compare against published figures, so they end here without a specification.
    if spec.None? {
      assert verdicts == JudgeFirst(r, spec, 4);
      return;
    }
    if r.packageWatts.Some? {
      var ceiling := if spec.value.ctdpMaxWatts.Some? then spec.value.ctdpMaxWatts.value else spec.value.tdpWatts;
      if r.packageWatts.value > ceiling as real {
        verdicts := verdicts + [Verdict(PowerOutsideBand, Degraded)];
      }
      assert verdicts == JudgeFirst(r, spec, 4);
      var floor := if spec.value.ctdpMinWatts.Some? then spec.value.ctdpMinWatts.value else spec.value.tdpWatts;
      if underDemand && r.packageWatts.value < floor as real {
        verdicts := verdicts + [Verdict(PowerBelowRating, Degraded)];
      }
    } else {
      assert verdicts == JudgeFirst(r, spec, 4);
    }
  }
}
