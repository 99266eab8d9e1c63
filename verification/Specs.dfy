/** Published limits for processor models, and what an ambiguous processor can be held to. */
module Specs {
  import opened Basics

  datatype Vendor = Intel | Amd | Other

  datatype CpuKey = CpuKey(vendor: Vendor, family: u32, model: u32, stepping: u32)

  datatype CpuSpec = CpuSpec(
    vendor: Vendor,
    family: u32,
    model: u32,
    stepping: u32,
    name: string,
    baseMhz: u32,
    boostMhz: Option<u32>,
    tdpWatts: u32,
    ctdpMinWatts: Option<u32>,
    ctdpMaxWatts: Option<u32>,
    tjmaxC: Option<real>,
    cores: u8,
    threads: u8)
  {
    /** The most power the part may draw: the top of its band, or its rating. */
    function Ceiling(): u32 {
      if ctdpMaxWatts.Some? then ctdpMaxWatts.value else tdpWatts
    }

    /** The least power the part is rated to be given: the bottom of its band, or its rating. */
    function Floor(): u32 {
      if ctdpMinWatts.Some? then ctdpMinWatts.value else tdpWatts
    }

    /** Same silicon identity. Stepping is a revision of one product and is not compared. */
    predicate Matches(key: CpuKey) {
      vendor == key.vendor && family == key.family && model == key.model
    }
  }

  datatype SpecMatch = SpecMatch(spec: CpuSpec, candidates: nat)

  /** The figure that costs least among those published, if any is. */
  function Cheapest<T>(xs: seq<Option<T>>, cost: T -> real): (r: Option<T>)
    ensures r.Some? <==> exists x :: x in xs && x.Some?
    ensures r.Some? ==> r in xs && forall x | x in xs && x.Some? :: cost(r.value) <= cost(x.value)
  {
    if xs == [] then None
    else
      var rest := Cheapest(Front(xs), cost);
      var x := Last(xs);
      assert x in xs && forall y | y in xs :: y in Front(xs) || y == x;
      if x.None? then rest else if rest.None? || cost(x.value) < cost(rest.value) then x else rest
  }

  /** The smallest figure published, if any is. */
  function LeastSome(xs: seq<Option<u32>>): Option<u32> {
    Cheapest(xs, (x: u32) => x as real)
  }

  /** The largest figure published, if any is. */
  function GreatestSome(xs: seq<Option<u32>>): Option<u32> {
    Cheapest(xs, (x: u32) => -(x as real))
  }

  /** The highest junction limit published, if any is. */
  function HighestLimit(xs: seq<Option<real>>): Option<real> {
    Cheapest(xs, (x: real) => -x)
  }

  function Bases(cs: seq<CpuSpec>): seq<Option<u32>> { seq(|cs|, i requires 0 <= i < |cs| => Some(cs[i].baseMhz)) }
  function Boosts(cs: seq<CpuSpec>): seq<Option<u32>> { seq(|cs|, i requires 0 <= i < |cs| => cs[i].boostMhz) }
  function Ratings(cs: seq<CpuSpec>): seq<Option<u32>> { seq(|cs|, i requires 0 <= i < |cs| => Some(cs[i].tdpWatts)) }
  function BandMins(cs: seq<CpuSpec>): seq<Option<u32>> { seq(|cs|, i requires 0 <= i < |cs| => cs[i].ctdpMinWatts) }
  function BandMaxes(cs: seq<CpuSpec>): seq<Option<u32>> { seq(|cs|, i requires 0 <= i < |cs| => cs[i].ctdpMaxWatts) }
  function Limits(cs: seq<CpuSpec>): seq<Option<real>> { seq(|cs|, i requires 0 <= i < |cs| => cs[i].tjmaxC) }

  /** The weakest claim every candidate supports, field by field. */
  function Conservative(cs: seq<CpuSpec>): CpuSpec
    requires cs != []
  {
    if |cs| == 1 then cs[0]
    else
      assert Some(cs[0].baseMhz) == Bases(cs)[0] && Some(cs[0].tdpWatts) == Ratings(cs)[0];
      cs[0].(baseMhz := LeastSome(Bases(cs)).value,
             boostMhz := GreatestSome(Boosts(cs)),
             tdpWatts := LeastSome(Ratings(cs)).value,
             ctdpMinWatts := LeastSome(BandMins(cs)),
             ctdpMaxWatts := GreatestSome(BandMaxes(cs)),
             tjmaxC := HighestLimit(Limits(cs)))
  }

  /** The products a processor could be: its identity, narrowed by thread count when that leaves any. */
  function Candidates(db: seq<CpuSpec>, key: CpuKey, threads: u8): seq<CpuSpec> {
    var byKey := Filter(db, (s: CpuSpec) => s.Matches(key));
    var narrowed := Filter(byKey, (s: CpuSpec) => s.threads == threads);
    if narrowed == [] then byKey else narrowed
  }

  function Resolve(db: seq<CpuSpec>, key: CpuKey, threads: u8): Option<SpecMatch> {
    var cs := Candidates(db, key, threads);
    if cs == [] then None else Some(SpecMatch(Conservative(cs), |cs|))
  }

  /** The products whose identity matches and that the thread count does not rule out. */
  predicate CouldBe(db: seq<CpuSpec>, key: CpuKey, threads: u8, p: CpuSpec) {
    && p in db && p.Matches(key)
    && (p.threads == threads || forall s | s in db && s.Matches(key) :: s.threads != threads)
  }

  /** The candidates are exactly the products the machine could be; a processor with none is not resolved. */
  lemma {:induction false} CandidatesAreThoseItCouldBe(db: seq<CpuSpec>, key: CpuKey, threads: u8)
    ensures forall p :: p in Candidates(db, key, threads) <==> CouldBe(db, key, threads, p)
    ensures Resolve(db, key, threads).None? <==> forall p | p in db :: !p.Matches(key)
    ensures Resolve(db, key, threads).Some? ==>
              Resolve(db, key, threads).value.candidates == |Candidates(db, key, threads)|
  {
    var byKey := Filter(db, (s: CpuSpec) => s.Matches(key));
    var narrowed := Filter(byKey, (s: CpuSpec) => s.threads == threads);
    FilterSelects(db, (s: CpuSpec) => s.Matches(key));
    FilterSelects(byKey, (s: CpuSpec) => s.threads == threads);
    assert forall p :: p in byKey <==> p in db && p.Matches(key);
    assert forall p :: p in narrowed <==> p in byKey && p.threads == threads;
    assert byKey != [] ==> byKey[0] in byKey;
    assert narrowed != [] ==> narrowed[0] in narrowed;
  }
}
