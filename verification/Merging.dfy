/**
 Merging the products a processor could be, judged by what merging is for: a verdict against the merged
 specification should be issued exactly when it would be issued against every product.
 */
module Merging {
  import opened Basics
  import opened Types
  import opened Specs
  import opened Verdicts

  /** The verdict is issued whichever of the products the machine is. */
  predicate FiresForAll(k: VerdictKind, r: CpuReading, cs: seq<CpuSpec>) {
    forall c | c in cs :: Fires(k, r, Some(c))
  }

  predicate FiresMerged(k: VerdictKind, r: CpuReading, cs: seq<CpuSpec>)
    requires cs != []
  {
    Fires(k, r, Some(Conservative(cs)))
  }

  /** No product that leaves out the top of its band is rated above every published top. */
  predicate CeilingsAgree(cs: seq<CpuSpec>) {
    if exists d :: d in cs && d.ctdpMaxWatts.Some? then
      forall c | c in cs && c.ctdpMaxWatts.None? ::
        exists d :: d in cs && d.ctdpMaxWatts.Some? && c.tdpWatts <= d.ctdpMaxWatts.value
    else
      forall c, d | c in cs && d in cs :: c.tdpWatts == d.tdpWatts
  }

  /** No product that leaves out the bottom of its band is rated below every published bottom. */
  predicate FloorsAgree(cs: seq<CpuSpec>) {
    (exists d :: d in cs && d.ctdpMinWatts.Some?) ==>
      forall c | c in cs && c.ctdpMinWatts.None? ::
        exists d :: d in cs && d.ctdpMinWatts.Some? && d.ctdpMinWatts.value <= c.tdpWatts
  }

  predicate BandsAgree(cs: seq<CpuSpec>) {
    CeilingsAgree(cs) && FloorsAgree(cs)
  }

  predicate PublishesBand(c: CpuSpec) {
    c.ctdpMinWatts.Some? && c.ctdpMaxWatts.Some?
  }

  /** The merged base clock is some product's, and no product promises less. */
  lemma {:induction false} MergedBase(cs: seq<CpuSpec>)
    requires cs != []
    ensures exists c :: c in cs && c.baseMhz == Conservative(cs).baseMhz
    ensures forall c | c in cs :: Conservative(cs).baseMhz <= c.baseMhz
  {
    assert cs[0] in cs;
    if |cs| > 1 {
      forall c | c in cs ensures Some(c.baseMhz) in Bases(cs) {
        var i :| 0 <= i < |cs| && cs[i] == c;
        assert Bases(cs)[i] == Some(c.baseMhz);
      }
      var j :| 0 <= j < |cs| && Bases(cs)[j] == LeastSome(Bases(cs));
      assert cs[j] in cs;
    }
  }

  lemma {:induction false} MergedRating(cs: seq<CpuSpec>)
    requires cs != []
    ensures exists c :: c in cs && c.tdpWatts == Conservative(cs).tdpWatts
    ensures forall c | c in cs :: Conservative(cs).tdpWatts <= c.tdpWatts
  {
    assert cs[0] in cs;
    if |cs| > 1 {
      forall c | c in cs ensures Some(c.tdpWatts) in Ratings(cs) {
        var i :| 0 <= i < |cs| && cs[i] == c;
        assert Ratings(cs)[i] == Some(c.tdpWatts);
      }
      var j :| 0 <= j < |cs| && Ratings(cs)[j] == LeastSome(Ratings(cs));
      assert cs[j] in cs;
    }
  }

  lemma {:induction false} MergedBandTop(cs: seq<CpuSpec>)
    requires cs != []
    ensures Conservative(cs).ctdpMaxWatts.Some? <==> exists d :: d in cs && d.ctdpMaxWatts.Some?
    ensures Conservative(cs).ctdpMaxWatts.Some? ==>
              exists d :: d in cs && d.ctdpMaxWatts == Conservative(cs).ctdpMaxWatts
    ensures Conservative(cs).ctdpMaxWatts.Some? ==>
              forall d | d in cs && d.ctdpMaxWatts.Some? :: d.ctdpMaxWatts.value <= Conservative(cs).ctdpMaxWatts.value
  {
    if |cs| > 1 {
      forall c | c in cs ensures c.ctdpMaxWatts in BandMaxes(cs) {
        var i :| 0 <= i < |cs| && cs[i] == c;
        assert BandMaxes(cs)[i] == c.ctdpMaxWatts;
      }
      forall x | x in BandMaxes(cs) ensures exists d :: d in cs && d.ctdpMaxWatts == x {
        var j :| 0 <= j < |cs| && BandMaxes(cs)[j] == x;
        assert cs[j] in cs;
      }
    }
  }

  /** The merged specification keeps the shared identity and the highest boost clock published. */
  lemma {:induction false} MergedIdentity(cs: seq<CpuSpec>, key: CpuKey)
    requires cs != [] && forall c | c in cs :: c.Matches(key)
    ensures Conservative(cs).Matches(key)
    ensures Conservative(cs).cores == cs[0].cores && Conservative(cs).threads == cs[0].threads
    ensures Conservative(cs).stepping == cs[0].stepping
    ensures Conservative(cs).boostMhz.Some? <==> exists d :: d in cs && d.boostMhz.Some?
    ensures Conservative(cs).boostMhz.Some? ==>
              && (exists d :: d in cs && d.boostMhz == Conservative(cs).boostMhz)
              && forall d | d in cs && d.boostMhz.Some? :: d.boostMhz.value <= Conservative(cs).boostMhz.value
  {
    assert cs[0] in cs;
    if |cs| > 1 {
      forall c | c in cs ensures c.boostMhz in Boosts(cs) {
        var i :| 0 <= i < |cs| && cs[i] == c;
        assert Boosts(cs)[i] == c.boostMhz;
      }
      forall x | x in Boosts(cs) ensures exists d :: d in cs && d.boostMhz == x {
        var j :| 0 <= j < |cs| && Boosts(cs)[j] == x;
        assert cs[j] in cs;
      }
    }
  }

  lemma {:induction false} MergedBandBottom(cs: seq<CpuSpec>)
    requires cs != []
    ensures Conservative(cs).ctdpMinWatts.Some? <==> exists d :: d in cs && d.ctdpMinWatts.Some?
    ensures Conservative(cs).ctdpMinWatts.Some? ==>
              exists d :: d in cs && d.ctdpMinWatts == Conservative(cs).ctdpMinWatts
    ensures Conservative(cs).ctdpMinWatts.Some? ==>
              forall d | d in cs && d.ctdpMinWatts.Some? :: Conservative(cs).ctdpMinWatts.value <= d.ctdpMinWatts.value
  {
    if |cs| > 1 {
      forall c | c in cs ensures c.ctdpMinWatts in BandMins(cs) {
        var i :| 0 <= i < |cs| && cs[i] == c;
        assert BandMins(cs)[i] == c.ctdpMinWatts;
      }
      forall x | x in BandMins(cs) ensures exists d :: d in cs && d.ctdpMinWatts == x {
        var j :| 0 <= j < |cs| && BandMins(cs)[j] == x;
        assert cs[j] in cs;
      }
    }
  }

  lemma {:induction false} MergedLimit(cs: seq<CpuSpec>)
    requires cs != []
    ensures Conservative(cs).tjmaxC.Some? <==> exists d :: d in cs && d.tjmaxC.Some?
    ensures Conservative(cs).tjmaxC.Some? ==> exists d :: d in cs && d.tjmaxC == Conservative(cs).tjmaxC
    ensures Conservative(cs).tjmaxC.Some? ==>
              forall d | d in cs && d.tjmaxC.Some? :: d.tjmaxC.value <= Conservative(cs).tjmaxC.value
  {
    if |cs| > 1 {
      forall c | c in cs ensures c.tjmaxC in Limits(cs) {
        var i :| 0 <= i < |cs| && cs[i] == c;
        assert Limits(cs)[i] == c.tjmaxC;
      }
      forall x | x in Limits(cs) ensures exists d :: d in cs && d.tjmaxC == x {
        var j :| 0 <= j < |cs| && Limits(cs)[j] == x;
        assert cs[j] in cs;
      }
    }
  }

  /** The merged ceiling is at most some product's, and is at least every product's exactly when ceilings agree. */
  lemma {:induction false} MergedCeiling(cs: seq<CpuSpec>)
    requires cs != []
    ensures exists c :: c in cs && Conservative(cs).Ceiling() <= c.Ceiling()
    ensures CeilingsAgree(cs) <==> forall c | c in cs :: c.Ceiling() <= Conservative(cs).Ceiling()
  {
    MergedBandTop(cs);
    MergedRating(cs);
    var m := Conservative(cs);
    if m.ctdpMaxWatts.Some? {
      var d :| d in cs && d.ctdpMaxWatts == m.ctdpMaxWatts;
      assert m.Ceiling() <= d.Ceiling();
      forall c | c in cs && c.ctdpMaxWatts.None?
        ensures c.tdpWatts <= m.Ceiling() <==>
                exists e :: e in cs && e.ctdpMaxWatts.Some? && c.tdpWatts <= e.ctdpMaxWatts.value
      {
      }
      if forall c | c in cs :: c.Ceiling() <= m.Ceiling() {
        forall c | c in cs && c.ctdpMaxWatts.None? ensures c.tdpWatts <= m.Ceiling() {
          assert c.Ceiling() == c.tdpWatts;
        }
      }
    } else {
      assert forall c | c in cs :: c.Ceiling() == c.tdpWatts;
      var e :| e in cs && e.tdpWatts == m.tdpWatts;
      assert m.Ceiling() <= e.Ceiling();
      if forall c | c in cs :: c.Ceiling() <= m.Ceiling() {
        assert forall c | c in cs :: c.tdpWatts == m.tdpWatts;
      }
    }
  }

  /** The merged floor is at least some product's, and is at most every product's exactly when floors agree. */
  lemma {:induction false} MergedFloor(cs: seq<CpuSpec>)
    requires cs != []
    ensures exists c :: c in cs && c.Floor() <= Conservative(cs).Floor()
    ensures FloorsAgree(cs) <==> forall c | c in cs :: Conservative(cs).Floor() <= c.Floor()
  {
    MergedBandBottom(cs);
    MergedRating(cs);
    var m := Conservative(cs);
    if m.ctdpMinWatts.Some? {
      var d :| d in cs && d.ctdpMinWatts == m.ctdpMinWatts;
      assert d.Floor() <= m.Floor();
      if forall c | c in cs :: m.Floor() <= c.Floor() {
        forall c | c in cs && c.ctdpMinWatts.None? ensures m.Floor() <= c.tdpWatts {
          assert c.Floor() == c.tdpWatts;
        }
      }
    } else {
      assert forall c | c in cs :: c.Floor() == c.tdpWatts;
      var e :| e in cs && e.tdpWatts == m.tdpWatts;
      assert e.Floor() <= m.Floor();
    }
  }

  /** Merging never hides a verdict that every product would earn. */
  lemma {:induction false} MergingHidesNothing(k: VerdictKind, r: CpuReading, cs: seq<CpuSpec>)
    requires cs != [] && FiresForAll(k, r, cs)
    ensures FiresMerged(k, r, cs)
  {
    assert cs[0] in cs && Fires(k, r, Some(cs[0]));
    match k {
      case Throttling =>
      case ThermalHeadroomLow =>
      case BelowBaseClock =>
        MergedBase(cs);
        var c :| c in cs && c.baseMhz == Conservative(cs).baseMhz;
        assert Fires(k, r, Some(c));
      case PowerOutsideBand =>
        MergedCeiling(cs);
        var c :| c in cs && Conservative(cs).Ceiling() <= c.Ceiling();
        assert Fires(k, r, Some(c));
      case PowerBelowRating =>
        MergedFloor(cs);
        var c :| c in cs && c.Floor() <= Conservative(cs).Floor();
        assert Fires(k, r, Some(c));
    }
  }

  /** When the bands agree, a merged verdict is earned by every product. */
  lemma {:induction false} MergingInventsNothing(k: VerdictKind, r: CpuReading, cs: seq<CpuSpec>)
    requires cs != [] && BandsAgree(cs) && FiresMerged(k, r, cs)
    ensures FiresForAll(k, r, cs)
  {
    MergedBase(cs);
    MergedCeiling(cs);
    MergedFloor(cs);
    forall c | c in cs ensures Fires(k, r, Some(c)) {
      match k
      case Throttling =>
      case ThermalHeadroomLow =>
      case BelowBaseClock =>
      case PowerOutsideBand => assert c.Ceiling() <= Conservative(cs).Ceiling();
      case PowerBelowRating => assert Conservative(cs).Floor() <= c.Floor();
    }
  }

  /** A loaded machine with nothing known but the power it draws. */
  function DrawingWatts(watts: u32): CpuReading {
    CpuReading(None, Some(100.0), None, Some(watts as real), None, None, false)
  }

  /** When some band disagrees, one power reading earns a merged verdict that some product does not earn. */
  lemma {:induction false} DisagreeingBandsInvent(cs: seq<CpuSpec>) returns (k: VerdictKind, r: CpuReading)
    requires cs != [] && !BandsAgree(cs)
    ensures FiresMerged(k, r, cs) && !FiresForAll(k, r, cs)
  {
    MergedCeiling(cs);
    MergedFloor(cs);
    if !CeilingsAgree(cs) {
      var c :| c in cs && Conservative(cs).Ceiling() < c.Ceiling();
      k, r := PowerOutsideBand, DrawingWatts(c.Ceiling());
      assert !Fires(k, r, Some(c));
    } else {
      var c :| c in cs && c.Floor() < Conservative(cs).Floor();
      k, r := PowerBelowRating, DrawingWatts(c.Floor());
      assert !Fires(k, r, Some(c));
    }
  }

  ghost predicate Exact(cs: seq<CpuSpec>)
    requires cs != []
  {
    forall k: VerdictKind, r: CpuReading :: FiresMerged(k, r, cs) <==> FiresForAll(k, r, cs)
  }

  /** Merging preserves the meaning of every verdict on every reading exactly when the bands agree. */
  lemma {:induction false} MergingIsExactIffBandsAgree(cs: seq<CpuSpec>)
    requires cs != []
    ensures Exact(cs) <==> BandsAgree(cs)
  {
    if BandsAgree(cs) {
      forall k: VerdictKind, r: CpuReading ensures FiresMerged(k, r, cs) <==> FiresForAll(k, r, cs) {
        if FiresForAll(k, r, cs) {
          MergingHidesNothing(k, r, cs);
        } else if FiresMerged(k, r, cs) {
          MergingInventsNothing(k, r, cs);
        }
      }
    } else {
      var k, r := DisagreeingBandsInvent(cs);
    }
  }

  /** Publishing both ends of every band is enough. */
  lemma {:induction false} PublishedBandsAgree(cs: seq<CpuSpec>)
    requires cs != [] && forall c | c in cs :: PublishesBand(c)
    ensures BandsAgree(cs) && Exact(cs)
  {
    assert cs[0] in cs && PublishesBand(cs[0]);
    MergingIsExactIffBandsAgree(cs);
  }

  /** Taking in more candidates never adds a verdict, when the wider set's bands agree. */
  lemma {:induction false} WideningAddsNoVerdict(
    k: VerdictKind, r: CpuReading, narrow: seq<CpuSpec>, wide: seq<CpuSpec>)
    requires narrow != [] && (forall c | c in narrow :: c in wide) && BandsAgree(wide)
    requires wide != [] && FiresMerged(k, r, wide)
    ensures FiresMerged(k, r, narrow)
  {
    MergingInventsNothing(k, r, wide);
    MergingHidesNothing(k, r, narrow);
  }

  /** No candidate set within this one, merged, misses a verdict that this one earns merged. */
  ghost predicate WideningIsSafe(wide: seq<CpuSpec>)
    requires wide != []
  {
    forall k: VerdictKind, r: CpuReading, narrow: seq<CpuSpec>
      | narrow != [] && (forall c | c in narrow :: c in wide) && FiresMerged(k, r, wide) :: FiresMerged(k, r, narrow)
  }

  /** Taking in more candidates never adds a verdict exactly when the wider set's bands agree. */
  lemma {:induction false} WideningIsSafeIffBandsAgree(wide: seq<CpuSpec>)
    requires wide != []
    ensures WideningIsSafe(wide) <==> BandsAgree(wide)
  {
    if BandsAgree(wide) {
      forall k: VerdictKind, r: CpuReading, narrow: seq<CpuSpec>
        | narrow != [] && (forall c | c in narrow :: c in wide) && FiresMerged(k, r, wide)
        ensures FiresMerged(k, r, narrow)
      {
        WideningAddsNoVerdict(k, r, narrow, wide);
      }
    } else {
      var k, r := DisagreeingBandsInvent(wide);
      var c :| c in wide && !Fires(k, r, Some(c));
      assert !FiresMerged(k, r, [c]);
    }
  }

  /** A product with no published band or boost clock. */
  function Unbanded(name: string, watts: u32): CpuSpec {
    CpuSpec(Amd, 23, 96, 1, name, 2000, None, watts, None, None, None, 8, 16)
  }

  /** The merged rating of two products that publish no band is the lower one, and is their ceiling. */
  lemma {:induction false} MergedUnbanded(low: u32, high: u32)
    requires low <= high
    ensures Conservative([Unbanded("A", low), Unbanded("B", high)]).Ceiling() == low
  {
    var cs := [Unbanded("A", low), Unbanded("B", high)];
    MergedRating(cs);
    MergedBandTop(cs);
    assert cs[0] in cs;
  }

  /**
   A database of two products with one identity and thread count, neither publishing a band: 15 W and 28 W. At 20 W
   the processor they resolve to is reported out of band although the second product is within its rating.
   */
  lemma {:induction false} MergingCanAccuseAHealthyMachine() returns (db: seq<CpuSpec>, key: CpuKey, r: CpuReading)
    ensures |db| == 2 && Candidates(db, key, 16) == db
    ensures Resolve(db, key, 16).Some? && Fires(PowerOutsideBand, r, Some(Resolve(db, key, 16).value.spec))
    ensures !Fires(PowerOutsideBand, r, Some(db[1]))
  {
    db, key, r := [Unbanded("A", 15), Unbanded("B", 28)], CpuKey(Amd, 23, 96, 1), DrawingWatts(20);
    FilterKeepsAll(db, (s: CpuSpec) => s.Matches(key));
    FilterKeepsAll(db, (s: CpuSpec) => s.threads == 16);
    MergedUnbanded(15, 28);
  }

  // ---- The reading as the sampling loop assembles it ----

  /** The junction limit comes from the silicon when it reports one, and from the specification otherwise. */
  function Assemble(sensed: CpuReading, spec: CpuSpec): CpuReading {
    if sensed.tjmaxC.Some? then sensed else sensed.(tjmaxC := spec.tjmaxC)
  }

  predicate Reports(k: VerdictKind, sensed: CpuReading, spec: CpuSpec) {
    Fires(k, Assemble(sensed, spec), Some(spec))
  }

  /** A limit the silicon reports decides alone; the specification's stands in only where there is none. */
  lemma {:induction false} SiliconDecides(sensed: CpuReading, spec: CpuSpec)
    ensures Reports(ThermalHeadroomLow, sensed, spec)
       <==> && sensed.packageTempC.Some? && (sensed.tjmaxC.Some? || spec.tjmaxC.Some?)
            && sensed.packageTempC.value
               >= (if sensed.tjmaxC.Some? then sensed.tjmaxC.value else spec.tjmaxC.value) - 5.0
  {
  }

  predicate ReportsForAll(k: VerdictKind, sensed: CpuReading, cs: seq<CpuSpec>) {
    forall c | c in cs :: Reports(k, sensed, c)
  }

  /** Either every product publishes a junction limit or none does. */
  predicate LimitsAgree(cs: seq<CpuSpec>) {
    forall c, d | c in cs && d in cs :: c.tjmaxC.Some? <==> d.tjmaxC.Some?
  }

  ghost predicate ExactlyReported(cs: seq<CpuSpec>)
    requires cs != []
  {
    forall k: VerdictKind, r: CpuReading :: Reports(k, r, Conservative(cs)) <==> ReportsForAll(k, r, cs)
  }

  /** Checks other than the thermal one do not read the junction limit. */
  lemma {:induction false} OtherChecksIgnoreTheLimit(k: VerdictKind, r: CpuReading, spec: CpuSpec)
    requires k != ThermalHeadroomLow
    ensures Reports(k, r, spec) <==> Fires(k, r, Some(spec))
  {
    match k
    case Throttling =>
    case BelowBaseClock =>
    case PowerOutsideBand =>
    case PowerBelowRating =>
  }

  lemma {:induction false} ThermalReportIsExact(r: CpuReading, cs: seq<CpuSpec>)
    requires cs != [] && LimitsAgree(cs)
    ensures Reports(ThermalHeadroomLow, r, Conservative(cs)) <==> ReportsForAll(ThermalHeadroomLow, r, cs)
  {
    MergedLimit(cs);
    assert cs[0] in cs;
    if ReportsForAll(ThermalHeadroomLow, r, cs) {
      assert Reports(ThermalHeadroomLow, r, cs[0]);
      if r.tjmaxC.None? {
        var d :| d in cs && d.tjmaxC == Conservative(cs).tjmaxC;
        assert Reports(ThermalHeadroomLow, r, d);
      }
    }
    if Reports(ThermalHeadroomLow, r, Conservative(cs)) && r.tjmaxC.None? {
      forall c | c in cs ensures Reports(ThermalHeadroomLow, r, c) {
        assert c.tjmaxC.Some?;
      }
    }
  }

  /** A part at exactly the merged limit is reported hot although a product without a limit would say nothing. */
  lemma {:induction false} DisagreeingLimitsInvent(cs: seq<CpuSpec>) returns (r: CpuReading)
    requires cs != [] && !LimitsAgree(cs)
    ensures Reports(ThermalHeadroomLow, r, Conservative(cs)) && !ReportsForAll(ThermalHeadroomLow, r, cs)
  {
    MergedLimit(cs);
    var c :| c in cs && c.tjmaxC.None?;
    r := CpuReading(None, None, None, None, Conservative(cs).tjmaxC, None, false);
    assert !Reports(ThermalHeadroomLow, r, c);
  }

  /** Where bands or junction limits disagree, some reading is reported that one of the products does not earn. */
  lemma {:induction false} DisagreementIsReported(cs: seq<CpuSpec>) returns (k: VerdictKind, r: CpuReading, c: CpuSpec)
    requires cs != [] && !(BandsAgree(cs) && LimitsAgree(cs))
    ensures c in cs && Reports(k, r, Conservative(cs)) && !Reports(k, r, c)
  {
    if !LimitsAgree(cs) {
      k := ThermalHeadroomLow;
      r := DisagreeingLimitsInvent(cs);
      c :| c in cs && !Reports(k, r, c);
    } else {
      k, r := DisagreeingBandsInvent(cs);
      c :| c in cs && !Fires(k, r, Some(c));
      assert k != ThermalHeadroomLow;
      OtherChecksIgnoreTheLimit(k, r, Conservative(cs));
      OtherChecksIgnoreTheLimit(k, r, c);
    }
  }

  lemma {:induction false} AgreementIsExact(cs: seq<CpuSpec>, k: VerdictKind, r: CpuReading)
    requires cs != [] && BandsAgree(cs) && LimitsAgree(cs)
    ensures Reports(k, r, Conservative(cs)) <==> ReportsForAll(k, r, cs)
  {
    if k == ThermalHeadroomLow {
      ThermalReportIsExact(r, cs);
    } else {
      MergingIsExactIffBandsAgree(cs);
      assert FiresMerged(k, r, cs) <==> FiresForAll(k, r, cs);
      OtherChecksIgnoreTheLimit(k, r, Conservative(cs));
      forall c | c in cs ensures Reports(k, r, c) <==> Fires(k, r, Some(c)) {
        OtherChecksIgnoreTheLimit(k, r, c);
      }
    }
  }

  /** What the user is told about an ambiguous processor is exact if and only if bands and junction limits agree. */
  lemma {:induction false} ReportsAreExactIff(cs: seq<CpuSpec>)
    requires cs != []
    ensures ExactlyReported(cs) <==> BandsAgree(cs) && LimitsAgree(cs)
  {
    if BandsAgree(cs) && LimitsAgree(cs) {
      forall k: VerdictKind, r: CpuReading ensures Reports(k, r, Conservative(cs)) <==> ReportsForAll(k, r, cs) {
        AgreementIsExact(cs, k, r);
      }
    } else {
      var k, r, c := DisagreementIsReported(cs);
      assert !ReportsForAll(k, r, cs);
    }
  }

  /**
   No report made through the database is false, whichever product the machine is: its thread count is its own or
   matches no sibling.
   */
  ghost predicate ReportsAreTrue(db: seq<CpuSpec>, key: CpuKey, threads: u8) {
    forall product: CpuSpec, k: VerdictKind, r: CpuReading
      | CouldBe(db, key, threads, product) && Reported(k, r, db, key, threads) :: Reports(k, r, product)
  }

  /** The report is made of a processor looked up in the database; of an unknown one, nothing is. */
  predicate Reported(k: VerdictKind, r: CpuReading, db: seq<CpuSpec>, key: CpuKey, threads: u8) {
    Resolve(db, key, threads).Some? && Reports(k, r, Resolve(db, key, threads).value.spec)
  }

  /** Reports are true of every product the machine could be exactly when the candidates' bands and limits agree. */
  lemma {:induction false} ReportsAreTrueIff(db: seq<CpuSpec>, key: CpuKey, threads: u8)
    ensures ReportsAreTrue(db, key, threads)
       <==> BandsAgree(Candidates(db, key, threads)) && LimitsAgree(Candidates(db, key, threads))
  {
    var cs := Candidates(db, key, threads);
    CandidatesAreThoseItCouldBe(db, key, threads);
    if BandsAgree(cs) && LimitsAgree(cs) {
      forall product: CpuSpec, k: VerdictKind, r: CpuReading
        | CouldBe(db, key, threads, product) && Reported(k, r, db, key, threads) ensures Reports(k, r, product)
      {
        AgreementIsExact(cs, k, r);
      }
    } else {
      var k, r, c := DisagreementIsReported(cs);
      assert Reported(k, r, db, key, threads) && CouldBe(db, key, threads, c);
    }
  }
}
