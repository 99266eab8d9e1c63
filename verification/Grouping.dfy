/** Process groups by case-folded name: how they are built, and what they hold together. */
module Grouping {
  import opened Basics
  import opened Types
  import opened Text

  datatype ProcessGroup = ProcessGroup(
    name: string,
    display: Option<string>,
    representativePid: u32,
    count: nat,
    cpuPercent: real,
    workingSetBytes: u64)
  {
    function Key(): string {
      ToLower(name)
    }
  }

  function Key(p: ProcessReading): string {
    ToLower(p.name)
  }

  /** A group of one. */
  function Alone(p: ProcessReading): ProcessGroup {
    ProcessGroup(p.name, p.displayName, p.pid, 1, p.cpuPercent, p.workingSetBytes)
  }

  /** The group with one more member, which becomes its representative when it is above the mean so far. */
  function Join(g: ProcessGroup, p: ProcessReading): ProcessGroup {
    var count := g.count + 1;
    var bytes := SaturatingAdd(g.workingSetBytes, p.workingSetBytes);
    ProcessGroup(
      g.name,
      if g.display.None? then p.displayName else g.display,
      if p.workingSetBytes > bytes / count then p.pid else g.representativePid,
      count,
      g.cpuPercent + p.cpuPercent,
      bytes)
  }

  /** The processes with one name, in order. */
  function Members(ps: seq<ProcessReading>, key: string): seq<ProcessReading> {
    if ps == [] then []
    else if Key(Last(ps)) == key then Members(Front(ps), key) + [Last(ps)]
    else Members(Front(ps), key)
  }

  function GroupOf(members: seq<ProcessReading>): ProcessGroup
    requires members != []
  {
    if |members| == 1 then Alone(members[0]) else Join(GroupOf(Front(members)), Last(members))
  }

  /** The names that occur, each once, in order of first appearance. */
  function Keys(ps: seq<ProcessReading>): seq<string> {
    if ps == [] then []
    else if Key(Last(ps)) in Keys(Front(ps)) then Keys(Front(ps))
    else Keys(Front(ps)) + [Key(Last(ps))]
  }

  lemma {:induction false} KeysAreTheNames(ps: seq<ProcessReading>)
    ensures forall k :: k in Keys(ps) <==> exists p :: p in ps && Key(p) == k
    ensures forall k :: k in Keys(ps) <==> Members(ps, k) != []
    ensures forall i, j | 0 <= i < j < |Keys(ps)| :: Keys(ps)[i] != Keys(ps)[j]
  {
    if ps != [] {
      KeysAreTheNames(Front(ps));
      assert forall p :: p in ps <==> p in Front(ps) || p == Last(ps);
    }
  }

  /** Every name's group, built from exactly the processes of that name. */
  function Groups(ps: seq<ProcessReading>): seq<ProcessGroup> {
    KeysAreTheNames(ps);
    seq(|Keys(ps)|, i requires 0 <= i < |Keys(ps)| =>
      assert Keys(ps)[i] in Keys(ps);
      GroupOf(Members(ps, Keys(ps)[i])))
  }

  lemma {:induction false} NameOfGroup(members: seq<ProcessReading>)
    requires members != []
    ensures GroupOf(members).name == members[0].name
  {
    if |members| > 1 {
      NameOfGroup(Front(members));
    }
  }

  lemma {:induction false} MembersShareTheName(ps: seq<ProcessReading>, key: string)
    ensures forall p | p in Members(ps, key) :: p in ps && Key(p) == key
    ensures forall p | p in ps && Key(p) == key :: p in Members(ps, key)
  {
    if ps != [] {
      MembersShareTheName(Front(ps), key);
      assert forall p :: p in ps <==> p in Front(ps) || p == Last(ps);
    }
  }

  /** The group at each place has the name at that place. */
  lemma {:induction false} GroupsHaveTheirKeys(ps: seq<ProcessReading>)
    ensures |Groups(ps)| == |Keys(ps)|
    ensures forall i | 0 <= i < |Keys(ps)| :: Members(ps, Keys(ps)[i]) != [] && Groups(ps)[i].Key() == Keys(ps)[i]
  {
    KeysAreTheNames(ps);
    forall i | 0 <= i < |Keys(ps)| ensures Members(ps, Keys(ps)[i]) != [] && Groups(ps)[i].Key() == Keys(ps)[i] {
      assert Keys(ps)[i] in Keys(ps);
      var ms := Members(ps, Keys(ps)[i]);
      NameOfGroup(ms);
      MembersShareTheName(ps, Keys(ps)[i]);
      assert ms[0] in ms;
    }
  }

  /** Two processes are grouped together exactly when their names differ in nothing but case. */
  lemma {:induction false} GroupedTogetherIff(ps: seq<ProcessReading>, p: ProcessReading, q: ProcessReading)
    requires p in ps && q in ps
    ensures (exists i :: 0 <= i < |Keys(ps)| && p in Members(ps, Keys(ps)[i]) && q in Members(ps, Keys(ps)[i]))
       <==> SameButCase(p.name, q.name)
  {
    KeysAreTheNames(ps);
    ToLowerIsSameButCase(p.name, q.name);
    assert Key(p) in Keys(ps);
    var i :| 0 <= i < |Keys(ps)| && Keys(ps)[i] == Key(p);
    forall k | 0 <= k < |Keys(ps)|
      ensures p in Members(ps, Keys(ps)[k]) <==> Key(p) == Keys(ps)[k]
      ensures q in Members(ps, Keys(ps)[k]) <==> Key(q) == Keys(ps)[k]
    {
      MembersShareTheName(ps, Keys(ps)[k]);
    }
  }

  /** The group at a place holds exactly the processes whose names are the group's own but for case. */
  lemma {:induction false} MembersAreTheNamesakes(ps: seq<ProcessReading>, i: nat, p: ProcessReading)
    requires i < |Keys(ps)| && p in ps
    ensures |Groups(ps)| == |Keys(ps)|
    ensures p in Members(ps, Keys(ps)[i]) <==> SameButCase(p.name, Groups(ps)[i].name)
  {
    GroupsHaveTheirKeys(ps);
    MembersShareTheName(ps, Keys(ps)[i]);
    ToLowerIsSameButCase(p.name, Groups(ps)[i].name);
  }

  lemma {:induction false} GroupAt(ps: seq<ProcessReading>, j: nat)
    requires j < |Keys(ps)|
    ensures |Groups(ps)| == |Keys(ps)| && Members(ps, Keys(ps)[j]) != []
    ensures Groups(ps)[j] == GroupOf(Members(ps, Keys(ps)[j]))
  {
    KeysAreTheNames(ps);
    assert Keys(ps)[j] in Keys(ps);
  }

  lemma {:induction false} KeysOfOneMore(ps: seq<ProcessReading>, p: ProcessReading)
    ensures Keys(ps + [p]) == if Key(p) in Keys(ps) then Keys(ps) else Keys(ps) + [Key(p)]
  {
    assert Front(ps + [p]) == ps;
  }

  lemma {:induction false} MembersOfOneMore(ps: seq<ProcessReading>, p: ProcessReading, key: string)
    ensures Members(ps + [p], key) == if Key(p) == key then Members(ps, key) + [p] else Members(ps, key)
  {
    assert Front(ps + [p]) == ps;
  }

  /** The group at the process's own place gains it as a member, or is its own. */
  lemma {:induction false} OwnGroupOfOneMore(ps: seq<ProcessReading>, p: ProcessReading, i: nat)
    requires i < |Keys(ps + [p])| && Keys(ps + [p])[i] == Key(p)
    ensures |Groups(ps + [p])| == |Keys(ps + [p])|
    ensures Members(ps, Key(p)) == [] ==> Groups(ps + [p])[i] == Alone(p)
    ensures Members(ps, Key(p)) != [] ==> Groups(ps + [p])[i] == Join(GroupOf(Members(ps, Key(p))), p)
  {
    GroupAt(ps + [p], i);
    MembersOfOneMore(ps, p, Key(p));
    assert Front(Members(ps, Key(p)) + [p]) == Members(ps, Key(p));
  }

  /** One more process changes the group of its own name, or adds that group at the end. */
  lemma {:induction false} OneMoreProcess(ps: seq<ProcessReading>, p: ProcessReading, i: nat)
    requires i <= |Keys(ps)| && (forall k | 0 <= k < i :: Keys(ps)[k] != Key(p))
    requires i < |Keys(ps)| ==> Keys(ps)[i] == Key(p)
    ensures |Groups(ps)| == |Keys(ps)|
    ensures Groups(ps + [p])
         == if i < |Keys(ps)| then Groups(ps)[i := Join(Groups(ps)[i], p)] else Groups(ps) + [Alone(p)]
  {
    var next := ps + [p];
    KeysAreTheNames(ps);
    KeysOfOneMore(ps, p);
    OwnGroupOfOneMore(ps, p, i);
    if i < |Keys(ps)| {
      GroupAt(ps, i);
    }
    forall j | 0 <= j < |Keys(ps)| && j != i ensures Groups(next)[j] == Groups(ps)[j] {
      GroupAt(ps, j);
      GroupAt(next, j);
      MembersOfOneMore(ps, p, Keys(ps)[j]);
    }
  }

  method GroupByName(ps: seq<ProcessReading>) returns (groups: seq<ProcessGroup>)
    ensures groups == Groups(ps)
  {
    groups := [];
    for n := 0 to |ps|
      invariant groups == Groups(ps[..n])
    {
      var p := ps[n];
      var key := Key(p);
      GroupsHaveTheirKeys(ps[..n]);
      var i := 0;
      while i < |groups| && groups[i].Key() != key
        invariant 0 <= i <= |groups|
        invariant forall k | 0 <= k < i :: Keys(ps[..n])[k] != key
      {
        i := i + 1;
      }
      OneMoreProcess(ps[..n], p, i);
      assert ps[..n] + [p] == ps[..n + 1];
      if i < |groups| {
        groups := groups[i := Join(groups[i], p)];
      } else {
        groups := groups + [Alone(p)];
      }
    }
    assert ps[..|ps|] == ps;
  }

  // ---- Conservation ----

  function CpuSum(ps: seq<ProcessReading>): real {
    if ps == [] then 0.0 else CpuSum(Front(ps)) + Last(ps).cpuPercent
  }

  function ByteSum(ps: seq<ProcessReading>): nat {
    if ps == [] then 0 else ByteSum(Front(ps)) + Last(ps).workingSetBytes
  }

  /** The first member that carries a display name. */
  predicate FirstNamed(ms: seq<ProcessReading>, i: nat) {
    i < |ms| && ms[i].displayName.Some? && forall j | 0 <= j < i :: ms[j].displayName.None?
  }

  lemma {:induction false} GroupSums(ms: seq<ProcessReading>)
    requires ms != []
    ensures
      var g := GroupOf(ms);
      g.count == |ms| && g.cpuPercent == CpuSum(ms) && g.workingSetBytes == Min(ByteSum(ms), U64_SPAN - 1)
  {
    if |ms| == 1 {
      assert Front(ms) == [] && CpuSum([]) == 0.0 && ByteSum([]) == 0;
    } else {
      GroupSums(Front(ms));
    }
  }

  lemma {:induction false} UnnamedGroup(ms: seq<ProcessReading>)
    requires ms != []
    ensures GroupOf(ms).display.None? <==> forall i | 0 <= i < |ms| :: ms[i].displayName.None?
  {
    if |ms| > 1 {
      UnnamedGroup(Front(ms));
      assert forall i | 0 <= i < |ms| - 1 :: Front(ms)[i] == ms[i];
    }
  }

  lemma {:induction false} NamedGroup(ms: seq<ProcessReading>) returns (i: nat)
    requires ms != [] && GroupOf(ms).display.Some?
    ensures FirstNamed(ms, i) && ms[i].displayName == GroupOf(ms).display
  {
    i := |ms| - 1;
    if i > 0 {
      UnnamedGroup(Front(ms));
      assert forall j | 0 <= j < |ms| - 1 :: Front(ms)[j] == ms[j];
      if GroupOf(Front(ms)).display.Some? {
        i := NamedGroup(Front(ms));
      }
    }
  }

  /** A group counts its members, adds up their use, and is represented by one of them. */
  lemma {:induction false} GroupTotals(ms: seq<ProcessReading>)
    requires ms != []
    ensures
      var g := GroupOf(ms);
      && g.count == |ms| && g.cpuPercent == CpuSum(ms) && g.workingSetBytes == Min(ByteSum(ms), U64_SPAN - 1)
      && g.name == ms[0].name && (exists p :: p in ms && p.pid == g.representativePid)
      && (g.display.None? <==> forall i | 0 <= i < |ms| :: ms[i].displayName.None?)
      && (g.display.Some? ==> exists i :: 0 <= i < |ms| && FirstNamed(ms, i) && ms[i].displayName == g.display)
  {
    GroupSums(ms);
    NameOfGroup(ms);
    UnnamedGroup(ms);
    if GroupOf(ms).display.Some? {
      var i := NamedGroup(ms);
    }
    RepresentativeIsTheOneNamed(ms);
    assert ms[Representative(ms)] in ms;
  }

  /** What the groups hold together. */
  function CountHeld(groups: seq<ProcessGroup>): nat {
    if groups == [] then 0 else CountHeld(Front(groups)) + Last(groups).count
  }

  function CpuHeld(groups: seq<ProcessGroup>): real {
    if groups == [] then 0.0 else CpuHeld(Front(groups)) + Last(groups).cpuPercent
  }

  function BytesHeld(groups: seq<ProcessGroup>): nat {
    if groups == [] then 0 else BytesHeld(Front(groups)) + Last(groups).workingSetBytes
  }

  lemma {:induction false} JoiningAdds(groups: seq<ProcessGroup>, i: nat, p: ProcessReading)
    requires i < |groups|
    ensures
      var joined := groups[i := Join(groups[i], p)];
      && CountHeld(joined) == CountHeld(groups) + 1 && CpuHeld(joined) == CpuHeld(groups) + p.cpuPercent
      && BytesHeld(joined) <= BytesHeld(groups) + p.workingSetBytes
      && (BytesHeld(groups) + p.workingSetBytes < U64_SPAN ==>
            BytesHeld(joined) == BytesHeld(groups) + p.workingSetBytes)
  {
    var joined := groups[i := Join(groups[i], p)];
    if i == |groups| - 1 {
      assert Front(joined) == Front(groups);
    } else {
      JoiningAdds(Front(groups), i, p);
      assert Front(joined) == Front(groups)[i := Join(groups[i], p)] && Last(joined) == Last(groups);
    }
  }

  /** Where the process's group is, or where it will be when there is none yet. */
  lemma {:induction false} PlaceOf(ps: seq<ProcessReading>, key: string) returns (i: nat)
    ensures i <= |Keys(ps)| && (forall k | 0 <= k < i :: Keys(ps)[k] != key)
    ensures i < |Keys(ps)| ==> Keys(ps)[i] == key
  {
    i := |Keys(ps)|;
    KeysAreTheNames(ps);
    if k :| 0 <= k < |Keys(ps)| && Keys(ps)[k] == key {
      i := k;
    }
  }

  /**
   The groups hold together what all processes hold: each process counted once, its share of the processor added
   once, and its memory too unless a total reaches the 64-bit maximum.
   */
  lemma {:induction false} GroupingConserves(ps: seq<ProcessReading>)
    ensures CountHeld(Groups(ps)) == |ps| && CpuHeld(Groups(ps)) == CpuSum(ps)
    ensures BytesHeld(Groups(ps)) <= ByteSum(ps)
    ensures ByteSum(ps) < U64_SPAN ==> BytesHeld(Groups(ps)) == ByteSum(ps)
  {
    if ps == [] {
      assert Groups(ps) == [];
    } else {
      var before, p := Front(ps), Last(ps);
      assert ps == before + [p];
      GroupingConserves(before);
      var i := PlaceOf(before, Key(p));
      OneMoreProcess(before, p, i);
      if i < |Keys(before)| {
        JoiningAdds(Groups(before), i, p);
      } else {
        assert Front(Groups(before) + [Alone(p)]) == Groups(before);
      }
    }
  }

  /** Each process is a member of the group of its own name and of no other. */
  lemma {:induction false} EachProcessHasOneGroup(ps: seq<ProcessReading>, p: ProcessReading)
    requires p in ps
    ensures exists i :: 0 <= i < |Keys(ps)| && p in Members(ps, Keys(ps)[i])
    ensures forall i, j | 0 <= i < |Keys(ps)| && 0 <= j < |Keys(ps)| && i != j ::
              !(p in Members(ps, Keys(ps)[i]) && p in Members(ps, Keys(ps)[j]))
  {
    KeysAreTheNames(ps);
    assert Key(p) in Keys(ps);
    var i :| 0 <= i < |Keys(ps)| && Keys(ps)[i] == Key(p);
    forall k | 0 <= k < |Keys(ps)| ensures p in Members(ps, Keys(ps)[k]) <==> k == i {
      MembersShareTheName(ps, Keys(ps)[k]);
    }
  }

  // ---- The representative ----

  /** The mean use of a group so far, as the program computes it. */
  function Mean(ms: seq<ProcessReading>): nat
    requires ms != []
  {
    Min(ByteSum(ms), U64_SPAN - 1) / |ms|
  }

  /** Which member represents the group: the last one to exceed the mean at its own place, or else the first. */
  function Representative(ms: seq<ProcessReading>): (i: nat)
    requires ms != []
    ensures i < |ms|
  {
    if |ms| == 1 then 0
    else if Last(ms).workingSetBytes > Mean(ms) then |ms| - 1
    else Representative(Front(ms))
  }

  predicate IsLargest(ms: seq<ProcessReading>, i: nat) {
    i < |ms| && forall j | 0 <= j < |ms| :: ms[j].workingSetBytes <= ms[i].workingSetBytes
  }

  /** A smaller member listed after every largest one, and above the mean at its place. */
  predicate LaterAboveTheMean(ms: seq<ProcessReading>, j: nat) {
    && 0 < j < |ms| && ms[j].workingSetBytes > Mean(ms[..j + 1])
    && forall i | j <= i < |ms| :: !IsLargest(ms, i)
  }

  lemma {:induction false} RepresentativeIsTheOneNamed(ms: seq<ProcessReading>)
    requires ms != []
    ensures GroupOf(ms).representativePid == ms[Representative(ms)].pid
  {
    if |ms| > 1 {
      RepresentativeIsTheOneNamed(Front(ms));
      GroupSums(Front(ms));
      GroupSums(ms);
    }
  }

  /** If no member exceeds `x`, each one's shortfall is missing from the sum. */
  lemma {:induction false} ShortfallIsMissing(ms: seq<ProcessReading>, x: nat, i: nat)
    requires i < |ms| && forall j | 0 <= j < |ms| :: ms[j].workingSetBytes <= x
    ensures ByteSum(ms) + (x - ms[i].workingSetBytes) <= |ms| * x
  {
    var n := |ms|;
    assert n * x == (n - 1) * x + x;
    if n > 1 {
      ShortfallIsMissing(Front(ms), x, if i < n - 1 then i else 0);
    }
  }

  lemma {:induction false} TimesAtMost(n: nat, x: nat, mean: nat, total: nat)
    requires n > 0 && x <= mean == total / n
    ensures n * x <= total
  {
    assert total == n * mean + total % n;
    assert n * x <= n * mean by {
      assert n * mean == n * x + n * (mean - x);
    }
  }

  /** A largest member that does not exceed the mean has only equals. */
  lemma {:induction false} NotAboveTheMeanMeansAllEqual(ms: seq<ProcessReading>, i: nat)
    requires ms != [] && IsLargest(ms, |ms| - 1) && Last(ms).workingSetBytes <= Mean(ms) && i < |ms|
    ensures ms[i].workingSetBytes == Last(ms).workingSetBytes
  {
    ShortfallIsMissing(ms, Last(ms).workingSetBytes, i);
    TimesAtMost(|ms|, Last(ms).workingSetBytes, Mean(ms), Min(ByteSum(ms), U64_SPAN - 1));
  }

  /**
   The member a group is represented by is a largest one exactly when no smaller member, listed after every largest,
   is above the mean at its own place.
   */
  lemma {:induction false} RepresentativeIsLargestIff(ms: seq<ProcessReading>)
    requires ms != []
    ensures IsLargest(ms, Representative(ms)) <==> forall j: nat :: !LaterAboveTheMean(ms, j)
  {
    var n := |ms|;
    if n > 1 {
      if IsLargest(ms, n - 1) {
        if Last(ms).workingSetBytes <= Mean(ms) {
          NotAboveTheMeanMeansAllEqual(ms, Representative(ms));
        }
      } else if Last(ms).workingSetBytes > Mean(ms) {
        assert ms[..n] == ms;
        assert LaterAboveTheMean(ms, n - 1);
      } else {
        RepresentativeIsLargestIff(Front(ms));
        LargestIsInFront(ms);
        LaterIsInFront(ms);
      }
    }
  }

  /** A last member that is neither largest nor above the mean decides nothing. */
  lemma {:induction false} LaterIsInFront(ms: seq<ProcessReading>)
    requires |ms| > 1 && !IsLargest(ms, |ms| - 1) && Last(ms).workingSetBytes <= Mean(ms)
    ensures forall j: nat :: LaterAboveTheMean(ms, j) <==> LaterAboveTheMean(Front(ms), j)
  {
    var front := Front(ms);
    assert ms[..|ms|] == ms;
    LargestIsInFront(ms);
    forall j: nat ensures LaterAboveTheMean(ms, j) <==> LaterAboveTheMean(front, j) {
      if 0 < j < |front| {
        assert ms[..j + 1] == front[..j + 1] && front[j] == ms[j];
      }
    }
  }

  /** When the last member is not a largest one, the largest are those of the rest. */
  lemma {:induction false} LargestIsInFront(ms: seq<ProcessReading>)
    requires |ms| > 1 && !IsLargest(ms, |ms| - 1)
    ensures forall i | 0 <= i < |ms| - 1 :: IsLargest(ms, i) <==> IsLargest(Front(ms), i)
  {
    var front := Front(ms);
    assert forall i | 0 <= i < |front| :: front[i] == ms[i];
    var k :| 0 <= k < |ms| && ms[k].workingSetBytes > Last(ms).workingSetBytes;
    assert Last(ms) == ms[|ms| - 1] && k < |ms| - 1;
    assert front[k] == ms[k];
  }

  /** Three processes of one name using 100, 1 and 60 bytes: the group is represented by the third. */
  lemma {:induction false} RepresentativeNeedNotBeLargest() returns (ms: seq<ProcessReading>)
    ensures |ms| == 3 && GroupOf(ms).representativePid == ms[2].pid != ms[0].pid
    ensures ms[2].workingSetBytes < ms[0].workingSetBytes
  {
    var a := ProcessReading(1, "build", None, 100, 0.0);
    var b, c := a.(pid := 2, workingSetBytes := 1), a.(pid := 3, workingSetBytes := 60);
    ms := [a, b, c];
    assert Front(ms) == [a, b] && Front([a, b]) == [a];
    assert GroupOf([a]).workingSetBytes == 100 && GroupOf([a, b]).workingSetBytes == 101;
  }
}
