/** The one container named, and when the order of the list decides which. */
module Containers {
  import opened Basics
  import opened Types
  import opened Sorting
  import Attribution

  /** A use is never negative: processor shares are clamped and byte counts are unsigned. */
  type Use = r: real | r >= 0.0

  datatype ContainerReading = ContainerReading(
    id: string,
    name: string,
    cpuPercent: Use,
    memoryBytes: u64,
    memoryLimitBytes: Option<u64>)
  {
    /** Disk pressure is ranked by memory as well. */
    function UseOf(r: Resource): real {
      match r
      case Cpu => cpuPercent
      case _ => memoryBytes as real
    }
  }

  /** The container at `i` uses at least half as much again as every other. */
  predicate Dominates(cs: seq<ContainerReading>, r: Resource, i: nat) {
    i < |cs| && forall j | 0 <= j < |cs| && j != i :: cs[i].UseOf(r) >= cs[j].UseOf(r) * 1.5
  }

  /** The container is at the first place that dominates. */
  predicate IsNamed(cs: seq<ContainerReading>, r: Resource, c: ContainerReading) {
    exists i | 0 <= i < |cs| :: cs[i] == c && Dominates(cs, r, i) && forall j | 0 <= j < i :: !Dominates(cs, r, j)
  }

  /** The first container that dominates, when one does. */
  method ResolveContainer(cs: seq<ContainerReading>, r: Resource) returns (named: Option<ContainerReading>)
    ensures named.None? <==> forall i: nat :: !Dominates(cs, r, i)
    ensures forall c :: named == Some(c) <==> IsNamed(cs, r, c)
  {
    if cs == [] {
      return None;
    }
    var negated := (c: ContainerReading) => -c.UseOf(r);
    var ranked := SortBy(cs, negated);
    ghost var i := HeadIsEarliestLeast(cs, negated);
    RestFollowsTheHead(cs, negated, i);
    FirstOrNobody(cs, r, i, ranked, negated);
    if |ranked| > 1 {
      var first, second := ranked[0].UseOf(r), ranked[1].UseOf(r);
      if second > 0.0 && first < second * Attribution.DOMINANCE {
        return None;
      }
    }
    return Some(ranked[0]);
  }

  /** The second in the ranking is another container, and no other uses more. */
  lemma {:induction false} SecondIsTheGreatestOther(
    cs: seq<ContainerReading>, r: Resource, i: nat, ranked: seq<ContainerReading>, negated: ContainerReading -> real)
    requires (forall c :: negated(c) == -c.UseOf(r)) && ranked == SortBy(cs, negated)
    requires i < |cs| == |ranked| && |ranked| > 1 && multiset(ranked[1..]) == multiset(cs[..i] + cs[i + 1..])
    ensures exists j :: 0 <= j < |cs| && j != i && cs[j] == ranked[1]
    ensures forall j | 0 <= j < |cs| && j != i :: cs[j].UseOf(r) <= ranked[1].UseOf(r)
  {
    var tail := ranked[1..];
    OthersOf(cs, i, tail);
    assert tail[0] in tail;
    SortByIsSorted(cs, negated);
    forall l | 0 <= l < |tail| ensures tail[l].UseOf(r) <= ranked[1].UseOf(r) {
      assert l > 0 ==> negated(ranked[1]) <= negated(ranked[l + 1]);
    }
  }

  /** Only the earliest of the largest can be the first to dominate, and it does unless the second is too close. */
  lemma {:induction false} FirstOrNobody(
    cs: seq<ContainerReading>, r: Resource, i: nat, ranked: seq<ContainerReading>, negated: ContainerReading -> real)
    requires (forall c :: negated(c) == -c.UseOf(r)) && ranked == SortBy(cs, negated)
    requires i < |cs| == |ranked| && ranked[0] == cs[i] && multiset(ranked[1..]) == multiset(cs[..i] + cs[i + 1..])
    requires forall j | 0 <= j < |cs| :: negated(cs[i]) <= negated(cs[j])
    requires forall j | 0 <= j < i :: negated(cs[i]) < negated(cs[j])
    ensures forall j: nat | j < i :: !Dominates(cs, r, j)
    ensures (exists j: nat :: Dominates(cs, r, j)) <==> Dominates(cs, r, i)
    ensures Dominates(cs, r, i) <==>
            |ranked| == 1 || ranked[1].UseOf(r) <= 0.0 || cs[i].UseOf(r) >= ranked[1].UseOf(r) * Attribution.DOMINANCE
  {
    forall j: nat | j != i && Dominates(cs, r, j) ensures j > i && Dominates(cs, r, i) {
      assert negated(cs[i]) <= negated(cs[j]);
      OthersAreNothing(cs, r, j, i);
    }
    if |ranked| > 1 {
      SecondIsTheGreatestOther(cs, r, i, ranked, negated);
    }
  }

  /** If one container dominates although another uses at least as much, nothing uses anything. */
  lemma {:induction false} OthersAreNothing(cs: seq<ContainerReading>, r: Resource, j: nat, i: nat)
    requires Dominates(cs, r, j) && i < |cs| && i != j && cs[i].UseOf(r) >= cs[j].UseOf(r)
    ensures forall k | 0 <= k < |cs| :: cs[k].UseOf(r) == 0.0
  {
  }

  /** Two containers dominate at once exactly when there are several and nothing uses anything. */
  lemma {:induction false} OnlyIdleContainersTie(cs: seq<ContainerReading>, r: Resource)
    ensures (exists i: nat, j: nat :: i != j && Dominates(cs, r, i) && Dominates(cs, r, j))
       <==> |cs| > 1 && forall k | 0 <= k < |cs| :: cs[k].UseOf(r) == 0.0
  {
    if i: nat, j: nat :| i != j && Dominates(cs, r, i) && Dominates(cs, r, j) {
      if cs[i].UseOf(r) >= cs[j].UseOf(r) {
        OthersAreNothing(cs, r, j, i);
      } else {
        OthersAreNothing(cs, r, i, j);
      }
    }
    if |cs| > 1 && forall k | 0 <= k < |cs| :: cs[k].UseOf(r) == 0.0 {
      assert Dominates(cs, r, 0) && Dominates(cs, r, 1);
    }
  }

  // ---- Whatever the order ----

  predicate SomethingUses(cs: seq<ContainerReading>, r: Resource) {
    exists k | 0 <= k < |cs| :: cs[k].UseOf(r) > 0.0
  }

  /** In any rearrangement of the list, a dominating container still dominates from its new place. */
  lemma {:induction false} DominatesFromItsNewPlace(
    cs: seq<ContainerReading>, ds: seq<ContainerReading>, r: Resource, i: nat) returns (j: nat)
    requires multiset(cs) == multiset(ds) && Dominates(cs, r, i)
    ensures Dominates(ds, r, j) && ds[j] == cs[i]
  {
    assert cs[i] in multiset(ds);
    j :| 0 <= j < |ds| && ds[j] == cs[i];
    WithoutOne(cs, i);
    WithoutOne(ds, j);
    var others := ds[..j] + ds[j + 1..];
    OthersOf(cs, i, others);
    OthersOf(ds, j, others);
  }

  /** While anything uses the resource, the container named in one order is named in every other. */
  lemma {:induction false} BusyCauseIgnoresOrder(
    cs: seq<ContainerReading>, ds: seq<ContainerReading>, r: Resource, c: ContainerReading)
    requires multiset(cs) == multiset(ds) && SomethingUses(cs, r) && IsNamed(cs, r, c)
    ensures SomethingUses(ds, r) && IsNamed(ds, r, c)
  {
    var k :| 0 <= k < |cs| && cs[k].UseOf(r) > 0.0;
    assert cs[k] in multiset(ds);
    var l :| 0 <= l < |ds| && ds[l] == cs[k];
    assert SomethingUses(ds, r);
    var i :| 0 <= i < |cs| && cs[i] == c && Dominates(cs, r, i);
    var j := DominatesFromItsNewPlace(cs, ds, r, i);
    OnlyIdleContainersTie(ds, r);
    assert ds[l].UseOf(r) != 0.0;
    assert forall other: nat | Dominates(ds, r, other) :: other == j;
  }

  /** While nothing uses anything, the first container is named, whichever it is. */
  lemma {:induction false} FirstIdleIsNamed(cs: seq<ContainerReading>, r: Resource)
    requires cs != [] && !SomethingUses(cs, r)
    ensures forall c :: IsNamed(cs, r, c) <==> c == cs[0]
  {
    assert forall k | 0 <= k < |cs| :: cs[k].UseOf(r) == 0.0;
    assert Dominates(cs, r, 0);
  }

  /** The one named holds its own against each other by the figure of its resource: processor share, or else memory. */
  lemma {:induction false} NamedByItsFigure(cs: seq<ContainerReading>, r: Resource, i: nat)
    requires i < |cs|
    ensures Dominates(cs, Cpu, i) <==>
            forall j | 0 <= j < |cs| && j != i :: cs[i].cpuPercent >= cs[j].cpuPercent * 1.5
    ensures r != Cpu ==>
              (Dominates(cs, r, i) <==>
               forall j | 0 <= j < |cs| && j != i ::
                 cs[i].memoryBytes as real >= cs[j].memoryBytes as real * 1.5)
  {
  }

  /** Every rearrangement of the list names the same container, if any. */
  ghost predicate OrderDoesNotMatter(cs: seq<ContainerReading>, r: Resource) {
    forall ds, c | multiset(ds) == multiset(cs) :: IsNamed(ds, r, c) <==> IsNamed(cs, r, c)
  }

  predicate AllAlike(cs: seq<ContainerReading>) {
    forall i, j | 0 <= i < |cs| && 0 <= j < |cs| :: cs[i] == cs[j]
  }

  /** Two different containers, when nothing uses anything: moving the second to the front names it instead. */
  lemma {:induction false} IdleCauseDependsOnOrder(cs: seq<ContainerReading>, r: Resource)
    requires !SomethingUses(cs, r) && !AllAlike(cs)
    ensures !OrderDoesNotMatter(cs, r)
  {
    var i :| 0 <= i < |cs| && cs[i] != cs[0];
    var rest := cs[..i] + cs[i + 1..];
    var ds := [cs[i]] + rest;
    assert cs == cs[..i] + [cs[i]] + cs[i + 1..];
    assert multiset(ds) == multiset(cs);
    forall k | 0 <= k < |ds| ensures ds[k] in cs {
      assert ds[k] in multiset(ds);
    }
    assert !SomethingUses(ds, r);
    FirstIdleIsNamed(cs, r);
    FirstIdleIsNamed(ds, r);
    assert IsNamed(ds, r, cs[i]) && !IsNamed(cs, r, cs[i]);
  }

  lemma {:induction false} AllAlikeIsAlikeAnyhow(cs: seq<ContainerReading>, ds: seq<ContainerReading>)
    requires AllAlike(cs) && multiset(ds) == multiset(cs)
    ensures ds == cs
  {
    assert |ds| == |multiset(ds)| == |multiset(cs)| == |cs|;
    forall k | 0 <= k < |ds| ensures ds[k] == cs[k] {
      assert ds[k] in multiset(cs);
    }
  }

  /** The order of the list decides exactly when nothing uses the resource and the containers differ. */
  lemma {:induction false} OrderMattersOnlyWhenIdle(cs: seq<ContainerReading>, r: Resource)
    ensures OrderDoesNotMatter(cs, r) <==> SomethingUses(cs, r) || AllAlike(cs)
  {
    if SomethingUses(cs, r) || AllAlike(cs) {
      forall ds, c | multiset(ds) == multiset(cs) ensures IsNamed(ds, r, c) <==> IsNamed(cs, r, c) {
        if AllAlike(cs) {
          AllAlikeIsAlikeAnyhow(cs, ds);
        } else if IsNamed(cs, r, c) {
          BusyCauseIgnoresOrder(cs, ds, r, c);
        } else if IsNamed(ds, r, c) {
          var k :| 0 <= k < |cs| && cs[k].UseOf(r) > 0.0;
          assert cs[k] in multiset(ds);
          var l :| 0 <= l < |ds| && ds[l] == cs[k];
          BusyCauseIgnoresOrder(ds, cs, r, c);
        }
      }
    } else {
      IdleCauseDependsOnOrder(cs, r);
    }
  }
}
