/** Naming the one group responsible for pressure, or nobody. */
module Attribution {
  import opened Basics
  import opened Types
  import opened Sorting
  import opened Grouping

  const MIN_CPU_SHARE_PCT := 20.0
  const MIN_MEMORY_SHARE := 0.30
  const DOMINANCE := 1.5
  const MIN_COVERAGE := 0.60

  // ---- What makes a cause ----

  /** The group uses at least half as much again as every other. */
  predicate Dominates(groups: seq<ProcessGroup>, use: ProcessGroup -> real, g: ProcessGroup) {
    g in groups && forall h | h in groups && h != g :: use(g) >= use(h) * 1.5
  }

  function CpuUse(g: ProcessGroup): real {
    g.cpuPercent
  }

  function ByteUse(g: ProcessGroup): real {
    g.workingSetBytes as real
  }

  /** The visible processes' total over the measured utilization, clamped to 1; nothing without a measurement. */
  function CpuCoverage(ps: seq<ProcessReading>, utilization: Option<real>): Option<real> {
    if utilization.None? then None
    else if utilization.value <= 0.0 then Some(1.0)
    else Some(Clamp(CpuSum(ps) / utilization.value, 0.0, 1.0))
  }

  /** The machine is busy with nothing, or the visible processes account for three fifths of it. */
  predicate EnoughVisible(ps: seq<ProcessReading>, utilization: Option<real>) {
    utilization.Some? && (utilization.value <= 0.0 || CpuSum(ps) >= 0.60 * utilization.value)
  }

  predicate IsCpuCause(ps: seq<ProcessReading>, utilization: Option<real>, g: ProcessGroup) {
    EnoughVisible(ps, utilization) && Dominates(Groups(ps), CpuUse, g) && g.cpuPercent >= 20.0
  }

  /** The total the shares are taken of, in 64-bit arithmetic that wraps. */
  function MemoryTotal(groups: seq<ProcessGroup>): u64 {
    BytesHeld(groups) % U64_SPAN
  }

  predicate IsMemoryCause(ps: seq<ProcessReading>, g: ProcessGroup) {
    var total := MemoryTotal(Groups(ps));
    total > 0 && Dominates(Groups(ps), ByteUse, g) && g.workingSetBytes as real >= 0.30 * total as real
  }

  // ---- Choosing it ----

  lemma {:induction false} NoRepeatsCounts<T>(s: seq<T>, x: T)
    requires NoRepeats(s)
    ensures multiset(s)[x] <= 1
  {
    if s != [] {
      assert s == Front(s) + [Last(s)];
      NoRepeatsCounts(Front(s), x);
    }
  }

  lemma {:induction false} RearrangedNoRepeats<T>(a: seq<T>, b: seq<T>)
    requires NoRepeats(a) && multiset(a) == multiset(b)
    ensures NoRepeats(b)
  {
    forall i, j | 0 <= i < j < |b| ensures b[i] != b[j] {
      NoRepeatsCounts(a, b[i]);
      assert b == b[..j] + b[j..];
      assert b[i] in b[..j] && b[j] in b[j..];
    }
  }

  lemma {:induction false} GroupsDoNotRepeat(ps: seq<ProcessReading>)
    ensures NoRepeats(Groups(ps))
    ensures forall g, h | g in Groups(ps) && h in Groups(ps) && g != h :: g.Key() != h.Key()
  {
    GroupsHaveTheirKeys(ps);
    KeysAreTheNames(ps);
  }

  /** Ranking rearranges, largest use first. */
  lemma {:induction false} RankingRearranges(
    groups: seq<ProcessGroup>, use: ProcessGroup -> real, ranked: seq<ProcessGroup>, negated: ProcessGroup -> real)
    requires NoRepeats(groups) && ranked == SortBy(groups, negated) && forall g :: negated(g) == -use(g)
    ensures NoRepeats(ranked) && |ranked| == |groups| && forall g :: g in groups <==> g in ranked
    ensures forall i, k | 0 <= i < k < |ranked| :: use(ranked[i]) >= use(ranked[k])
  {
    SortByIsSorted(groups, negated);
    RearrangedNoRepeats(groups, ranked);
    forall g ensures g in groups <==> g in ranked {
      assert g in multiset(groups) <==> g in multiset(ranked);
    }
    forall i, k | 0 <= i < k < |ranked| ensures use(ranked[i]) >= use(ranked[k]) {
      assert negated(ranked[i]) <= negated(ranked[k]);
    }
  }

  /** Of groups ranked by use, only the first can dominate, and it does unless the second is too close behind. */
  lemma {:induction false} OnlyTheFirstDominates(
    groups: seq<ProcessGroup>, use: ProcessGroup -> real, ranked: seq<ProcessGroup>, negated: ProcessGroup -> real)
    requires NoRepeats(groups) && groups != []
    requires ranked == SortBy(groups, negated) && forall g :: negated(g) == -use(g)
    ensures ranked != [] && ranked[0] in groups
    ensures forall g | Dominates(groups, use, g) && use(g) > 0.0 :: g == ranked[0]
    ensures use(ranked[0]) > 0.0 ==>
              (Dominates(groups, use, ranked[0]) <==>
               |ranked| == 1 || use(ranked[1]) <= 0.0 || use(ranked[0]) >= use(ranked[1]) * DOMINANCE)
  {
    RankingRearranges(groups, use, ranked, negated);
    var first := ranked[0];
    assert first in ranked;
    forall g | Dominates(groups, use, g) && use(g) > 0.0 ensures g == first {
      var k :| 0 <= k < |ranked| && ranked[k] == g;
    }
    if use(first) > 0.0 && |ranked| > 1 {
      assert ranked[1] in ranked && ranked[1] != first;
      forall h | h in groups && h != first ensures use(h) <= use(ranked[1]) {
        var k :| 0 <= k < |ranked| && ranked[k] == h;
      }
    } else if use(first) > 0.0 {
      assert forall h | h in groups :: h == first;
    }
  }

  /** Names exactly the processor cause, when there is one. */
  method CpuLeader(ps: seq<ProcessReading>, utilization: Option<real>) returns (leader: Option<ProcessGroup>)
    ensures forall g :: leader == Some(g) <==> IsCpuCause(ps, utilization, g)
  {
    var coverage := CpuCoverage(ps, utilization);
    CoverageIsEnough(ps, utilization);
    if coverage.None? || coverage.value < MIN_COVERAGE {
      return None;
    }
    var groups := GroupByName(ps);
    GroupsDoNotRepeat(ps);
    var negated := (g: ProcessGroup) => -CpuUse(g);
    groups := SortBy(groups, negated);
    if groups == [] {
      SortByIsSorted(Groups(ps), negated);
      return None;
    }
    OnlyTheFirstDominates(Groups(ps), CpuUse, groups, negated);
    var first := groups[0];
    if first.cpuPercent < MIN_CPU_SHARE_PCT {
      return None;
    }
    if |groups| > 1 {
      var second := groups[1];
      if second.cpuPercent > 0.0 && first.cpuPercent < second.cpuPercent * DOMINANCE {
        return None;
      }
    }
    return Some(first);
  }

  /** Coverage is known when the machine's activity is, and is a share; all of it when there is no activity. */
  lemma {:induction false} CoverageIsEnough(ps: seq<ProcessReading>, utilization: Option<real>)
    ensures CpuCoverage(ps, utilization).Some? <==> utilization.Some?
    ensures CpuCoverage(ps, utilization).Some? ==> 0.0 <= CpuCoverage(ps, utilization).value <= 1.0
    ensures utilization.Some? && (utilization.value <= 0.0 || CpuSum(ps) >= utilization.value) ==>
              CpuCoverage(ps, utilization).value == 1.0
    ensures utilization.Some? && 0.0 <= CpuSum(ps) <= utilization.value && 0.0 < utilization.value ==>
              CpuCoverage(ps, utilization).value * utilization.value == CpuSum(ps)
    ensures EnoughVisible(ps, utilization) <==>
            CpuCoverage(ps, utilization).Some? && CpuCoverage(ps, utilization).value >= MIN_COVERAGE
  {
    if utilization.Some? && utilization.value > 0.0 {
      QuotientOrder(CpuSum(ps), utilization.value, MIN_COVERAGE);
      QuotientOrder(CpuSum(ps), utilization.value, 1.0);
      QuotientOrder(CpuSum(ps), utilization.value, 0.0);
    }
  }

  /** The group holds at least the least share of the total worth naming. */
  predicate HoldsShare(g: ProcessGroup, total: nat)
    requires total > 0
  {
    g.workingSetBytes as real / total as real >= MIN_MEMORY_SHARE
  }

  /** Names exactly the memory cause, when there is one. */
  method MemoryLeader(ps: seq<ProcessReading>) returns (leader: Option<ProcessGroup>)
    ensures forall g :: leader == Some(g) <==> IsMemoryCause(ps, g)
  {
    var groups := GroupByName(ps);
    var total := MemoryTotal(groups);
    if total == 0 {
      return None;
    }
    var negated := (g: ProcessGroup) => -ByteUse(g);
    groups := SortBy(groups, negated);
    OnlyTheFirstIsMemoryCause(ps, groups, negated);
    var first := groups[0];
    if !HoldsShare(first, total) {
      return None;
    }
    if |groups| > 1 {
      var second := groups[1];
      if second.workingSetBytes > 0 && first.workingSetBytes as real < second.workingSetBytes as real * DOMINANCE {
        return None;
      }
    }
    return Some(first);
  }

  /** Only the first of the groups, ranked by memory, can be the cause: it is, unless the second is too close behind. */
  lemma {:induction false} OnlyTheFirstIsMemoryCause(
    ps: seq<ProcessReading>, ranked: seq<ProcessGroup>, negated: ProcessGroup -> real)
    requires ranked == SortBy(Groups(ps), negated) && (forall g :: negated(g) == -ByteUse(g))
    requires MemoryTotal(Groups(ps)) > 0
    ensures ranked != []
    ensures forall g :: IsMemoryCause(ps, g) <==>
              && g == ranked[0] && HoldsShare(g, MemoryTotal(Groups(ps)))
              && (|ranked| == 1 || ByteUse(ranked[1]) <= 0.0 || ByteUse(g) >= ByteUse(ranked[1]) * DOMINANCE)
  {
    GroupsDoNotRepeat(ps);
    SortByIsSorted(Groups(ps), negated);
    OnlyTheFirstDominates(Groups(ps), ByteUse, ranked, negated);
    forall g: ProcessGroup ensures HoldsShare(g, MemoryTotal(Groups(ps))) <==>
                                   g.workingSetBytes as real >= 0.30 * MemoryTotal(Groups(ps)) as real
    {
      ShareIsThreeTenths(g, MemoryTotal(Groups(ps)));
    }
  }

  lemma {:induction false} ShareIsThreeTenths(g: ProcessGroup, total: nat)
    requires total > 0
    ensures HoldsShare(g, total) <==> g.workingSetBytes as real >= 0.30 * total as real
  {
    QuotientOrder(g.workingSetBytes as real, total as real, MIN_MEMORY_SHARE);
  }

  // ---- At most one cause, whatever the order ----

  lemma {:induction false} CausesAreUnique(
    ps: seq<ProcessReading>, utilization: Option<real>, g: ProcessGroup, h: ProcessGroup)
    ensures IsCpuCause(ps, utilization, g) && IsCpuCause(ps, utilization, h) ==> g == h
    ensures IsMemoryCause(ps, g) && IsMemoryCause(ps, h) ==> g == h
  {
  }

  lemma {:induction false} MembersCount(ps: seq<ProcessReading>, key: string, p: ProcessReading)
    ensures multiset(Members(ps, key))[p] == if Key(p) == key then multiset(ps)[p] else 0
  {
    if ps != [] {
      assert ps == Front(ps) + [Last(ps)];
      MembersCount(Front(ps), key, p);
    }
  }

  lemma {:induction false} RearrangedMembers(ps: seq<ProcessReading>, qs: seq<ProcessReading>, key: string)
    requires multiset(ps) == multiset(qs)
    ensures multiset(Members(ps, key)) == multiset(Members(qs, key))
  {
    forall p ensures multiset(Members(ps, key))[p] == multiset(Members(qs, key))[p] {
      MembersCount(ps, key, p);
      MembersCount(qs, key, p);
    }
  }

  lemma {:induction false} TakeOut(ps: seq<ProcessReading>, i: nat)
    requires i < |ps|
    ensures CpuSum(ps) == CpuSum(ps[..i] + ps[i + 1..]) + ps[i].cpuPercent
    ensures ByteSum(ps) == ByteSum(ps[..i] + ps[i + 1..]) + ps[i].workingSetBytes
    ensures multiset(ps) == multiset(ps[..i] + ps[i + 1..]) + multiset{ps[i]}
  {
    assert ps == ps[..i] + [ps[i]] + ps[i + 1..];
    if i == |ps| - 1 {
      assert ps[..i] + ps[i + 1..] == Front(ps);
    } else {
      TakeOut(Front(ps), i);
      assert Front(ps[..i] + ps[i + 1..]) == Front(ps)[..i] + Front(ps)[i + 1..];
    }
  }

  lemma {:induction false} RearrangedSums(a: seq<ProcessReading>, b: seq<ProcessReading>)
    requires multiset(a) == multiset(b)
    ensures CpuSum(a) == CpuSum(b) && ByteSum(a) == ByteSum(b) && |a| == |b|
    decreases |a|
  {
    assert |a| == |multiset(a)| && |b| == |multiset(b)|;
    if a != [] {
      assert a == Front(a) + [Last(a)];
      assert Last(a) in multiset(b);
      var j :| 0 <= j < |b| && b[j] == Last(a);
      TakeOut(b, j);
      assert multiset(Front(a)) == multiset(a) - multiset{Last(a)};
      RearrangedSums(Front(a), b[..j] + b[j + 1..]);
    }
  }

  /** In any rearrangement of the process list, each group has a twin with the same name and the same totals. */
  lemma {:induction false} Twin(ps: seq<ProcessReading>, qs: seq<ProcessReading>, g: ProcessGroup)
    returns (h: ProcessGroup)
    requires multiset(ps) == multiset(qs) && g in Groups(ps)
    ensures h in Groups(qs) && h.Key() == g.Key() && h.count == g.count
    ensures h.cpuPercent == g.cpuPercent && h.workingSetBytes == g.workingSetBytes
  {
    GroupsHaveTheirKeys(ps);
    GroupsHaveTheirKeys(qs);
    var key := g.Key();
    var ms, ns := Members(ps, key), Members(qs, key);
    RearrangedMembers(ps, qs, key);
    RearrangedSums(ms, ns);
    KeysAreTheNames(qs);
    var i :| 0 <= i < |Keys(qs)| && Keys(qs)[i] == key;
    h := Groups(qs)[i];
    GroupTotals(ms);
    GroupTotals(ns);
  }

  /** A group dominating in one order has a twin dominating in any other. */
  lemma {:induction false} TwinDominates(
    ps: seq<ProcessReading>, qs: seq<ProcessReading>, use: ProcessGroup -> real, g: ProcessGroup, h: ProcessGroup)
    requires multiset(ps) == multiset(qs) && Dominates(Groups(ps), use, g) && h in Groups(qs) && h.Key() == g.Key()
    requires forall a: ProcessGroup, b: ProcessGroup
               | a.cpuPercent == b.cpuPercent && a.workingSetBytes == b.workingSetBytes :: use(a) == use(b)
    requires use(h) == use(g)
    ensures Dominates(Groups(qs), use, h)
  {
    GroupsDoNotRepeat(qs);
    forall other | other in Groups(qs) && other != h ensures use(h) >= use(other) * DOMINANCE {
      var twin := Twin(qs, ps, other);
      assert twin != g;
    }
  }

  /** The group named for processor pressure does not depend on the order of the process list. */
  lemma {:induction false} CpuCauseIgnoresOrder(
    ps: seq<ProcessReading>, qs: seq<ProcessReading>, utilization: Option<real>, g: ProcessGroup)
    returns (h: ProcessGroup)
    requires multiset(ps) == multiset(qs) && IsCpuCause(ps, utilization, g)
    ensures IsCpuCause(qs, utilization, h) && h.Key() == g.Key()
  {
    h := Twin(ps, qs, g);
    RearrangedSums(ps, qs);
    TwinDominates(ps, qs, CpuUse, g, h);
  }

  /** The bytes held by the groups of these names. */
  function BytesByName(ps: seq<ProcessReading>, keys: seq<string>): nat {
    if keys == [] then 0 else BytesByName(ps, Front(keys)) + Min(ByteSum(Members(ps, Last(keys))), U64_SPAN - 1)
  }

  lemma {:induction false} BytesHeldByName(ps: seq<ProcessReading>, n: nat)
    requires n <= |Keys(ps)| == |Groups(ps)|
    ensures BytesHeld(Groups(ps)[..n]) == BytesByName(ps, Keys(ps)[..n])
  {
    if n > 0 {
      BytesHeldByName(ps, n - 1);
      GroupsHaveTheirKeys(ps);
      GroupTotals(Members(ps, Keys(ps)[n - 1]));
      assert Front(Groups(ps)[..n]) == Groups(ps)[..n - 1] && Front(Keys(ps)[..n]) == Keys(ps)[..n - 1];
    }
  }

  lemma {:induction false} AllBytesHeldByName(ps: seq<ProcessReading>)
    ensures BytesHeld(Groups(ps)) == BytesByName(ps, Keys(ps))
  {
    GroupsHaveTheirKeys(ps);
    assert Groups(ps)[..|Keys(ps)|] == Groups(ps) && Keys(ps)[..|Keys(ps)|] == Keys(ps);
    BytesHeldByName(ps, |Keys(ps)|);
  }

  lemma {:induction false} BytesByNameOfRearranged(ps: seq<ProcessReading>, qs: seq<ProcessReading>, keys: seq<string>)
    requires multiset(ps) == multiset(qs)
    ensures BytesByName(ps, keys) == BytesByName(qs, keys)
  {
    if keys != [] {
      BytesByNameOfRearranged(ps, qs, Front(keys));
      RearrangedMembers(ps, qs, Last(keys));
      RearrangedSums(Members(ps, Last(keys)), Members(qs, Last(keys)));
    }
  }

  lemma {:induction false} TakeOutName(ps: seq<ProcessReading>, keys: seq<string>, i: nat)
    requires i < |keys|
    ensures BytesByName(ps, keys)
         == BytesByName(ps, keys[..i] + keys[i + 1..]) + Min(ByteSum(Members(ps, keys[i])), U64_SPAN - 1)
  {
    if i == |keys| - 1 {
      assert keys[..i] + keys[i + 1..] == Front(keys);
    } else {
      TakeOutName(ps, Front(keys), i);
      assert Front(keys[..i] + keys[i + 1..]) == Front(keys)[..i] + Front(keys)[i + 1..];
    }
  }

  lemma {:induction false} WithoutName(keys: seq<string>, i: nat)
    requires i < |keys| && NoRepeats(keys)
    ensures NoRepeats(keys[..i] + keys[i + 1..])
    ensures forall x :: x in keys[..i] + keys[i + 1..] <==> x in keys && x != keys[i]
  {
    var rest := keys[..i] + keys[i + 1..];
    forall x ensures x in rest <==> x in keys && x != keys[i] {
      if x in keys && x != keys[i] {
        var k :| 0 <= k < |keys| && keys[k] == x;
        assert rest[if k < i then k else k - 1] == x;
      }
    }
  }

  lemma {:induction false} BytesByRearrangedNames(ps: seq<ProcessReading>, a: seq<string>, b: seq<string>)
    requires NoRepeats(a) && NoRepeats(b) && forall k :: k in a <==> k in b
    ensures BytesByName(ps, a) == BytesByName(ps, b)
    decreases |a|
  {
    if a == [] {
      assert forall i | 0 <= i < |b| :: b[i] in a;
    } else {
      var k := Last(a);
      assert k in a;
      var j :| 0 <= j < |b| && b[j] == k;
      var rest := b[..j] + b[j + 1..];
      TakeOutName(ps, b, j);
      WithoutName(b, j);
      WithoutName(a, |a| - 1);
      assert a[..|a| - 1] + a[|a|..] == Front(a);
      assert forall x :: x in Front(a) <==> x in a && x != k;
      BytesByRearrangedNames(ps, Front(a), rest);
    }
  }

  lemma {:induction false} RearrangedTotal(ps: seq<ProcessReading>, qs: seq<ProcessReading>)
    requires multiset(ps) == multiset(qs)
    ensures BytesHeld(Groups(ps)) == BytesHeld(Groups(qs))
  {
    KeysAreTheNames(ps);
    KeysAreTheNames(qs);
    forall k ensures k in Keys(ps) <==> k in Keys(qs) {
      RearrangedMembers(ps, qs, k);
      RearrangedSums(Members(ps, k), Members(qs, k));
    }
    AllBytesHeldByName(ps);
    AllBytesHeldByName(qs);
    BytesByNameOfRearranged(ps, qs, Keys(ps));
    BytesByRearrangedNames(qs, Keys(ps), Keys(qs));
  }

  /** The group named for memory pressure does not depend on the order of the process list. */
  lemma {:induction false} MemoryCauseIgnoresOrder(ps: seq<ProcessReading>, qs: seq<ProcessReading>, g: ProcessGroup)
    returns (h: ProcessGroup)
    requires multiset(ps) == multiset(qs) && IsMemoryCause(ps, g)
    ensures IsMemoryCause(qs, h) && h.Key() == g.Key()
  {
    h := Twin(ps, qs, g);
    RearrangedTotal(ps, qs);
    TwinDominates(ps, qs, ByteUse, g, h);
  }

  /** The total differs from the bytes all groups hold by whole turns of a 64-bit counter. */
  lemma {:induction false} TotalWraps(groups: seq<ProcessGroup>)
    ensures MemoryTotal(groups) <= BytesHeld(groups) && (BytesHeld(groups) - MemoryTotal(groups)) % U64_SPAN == 0
  {
    var total := BytesHeld(groups);
    assert total == U64_SPAN * (total / U64_SPAN) + total % U64_SPAN;
    assert total - total % U64_SPAN == (total / U64_SPAN) * 0x1_0000_0000_0000_0000;
  }

  /** While everything observed fits in 64 bits, shares are taken of all of it. */
  lemma {:induction false} TotalIsAllObserved(ps: seq<ProcessReading>)
    requires ByteSum(ps) < U64_SPAN
    ensures MemoryTotal(Groups(ps)) == ByteSum(ps)
  {
    GroupingConserves(ps);
  }
}
