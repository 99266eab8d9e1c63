/** A stable sort by a real key, and what majorities say about the middle of a sorted list. */
module Sorting {
  import opened Basics

  function Insert<T>(x: T, s: seq<T>, key: T -> real): seq<T> {
    if s == [] || key(x) <= key(s[0]) then [x] + s else [s[0]] + Insert(x, s[1..], key)
  }

  /** Ascending, equal keys in their original order. */
  function SortBy<T>(s: seq<T>, key: T -> real): seq<T> {
    if s == [] then [] else Insert(s[0], SortBy(s[1..], key), key)
  }

  predicate Ascending<T>(s: seq<T>, key: T -> real) {
    forall i, j | 0 <= i < j < |s| :: key(s[i]) <= key(s[j])
  }

  lemma {:induction false} InsertKeepsAll<T>(x: T, s: seq<T>, key: T -> real)
    ensures multiset(Insert(x, s, key)) == multiset{x} + multiset(s) && |Insert(x, s, key)| == |s| + 1
    ensures forall y | y in Insert(x, s, key) :: y == x || y in s
  {
    if s == [] || key(x) <= key(s[0]) {
      assert Insert(x, s, key) == [x] + s;
    } else {
      InsertKeepsAll(x, s[1..], key);
      assert s == [s[0]] + s[1..];
    }
  }

  lemma {:induction false} InsertIsSorted<T>(x: T, s: seq<T>, key: T -> real)
    requires Ascending(s, key)
    ensures Ascending(Insert(x, s, key), key)
  {
    if s != [] && key(x) > key(s[0]) {
      var t := Insert(x, s[1..], key);
      InsertIsSorted(x, s[1..], key);
      InsertKeepsAll(x, s[1..], key);
      forall k | 0 <= k < |t| ensures key(s[0]) <= key(t[k]) {
        assert t[k] in t;
        if t[k] != x {
          var i :| 0 <= i < |s[1..]| && s[1..][i] == t[k];
          assert key(s[0]) <= key(s[i + 1]);
        }
      }
    }
  }

  /** The sorted list is ascending and a rearrangement of the original. */
  lemma {:induction false} SortByIsSorted<T>(s: seq<T>, key: T -> real)
    ensures Ascending(SortBy(s, key), key) && multiset(SortBy(s, key)) == multiset(s) && |SortBy(s, key)| == |s|
  {
    if s != [] {
      SortByIsSorted(s[1..], key);
      InsertIsSorted(s[0], SortBy(s[1..], key), key);
      InsertKeepsAll(s[0], SortBy(s[1..], key), key);
      assert s == [s[0]] + s[1..];
    }
  }

  function Count<T>(s: seq<T>, p: T -> bool): nat {
    if s == [] then 0 else Count(s[1..], p) + if p(s[0]) then 1 else 0
  }

  lemma {:induction false} InsertCounts<T>(x: T, s: seq<T>, key: T -> real, p: T -> bool)
    ensures Count(Insert(x, s, key), p) == Count(s, p) + if p(x) then 1 else 0
  {
    if s != [] && key(x) > key(s[0]) {
      InsertCounts(x, s[1..], key, p);
      assert Insert(x, s, key)[1..] == Insert(x, s[1..], key);
    } else {
      assert ([x] + s)[1..] == s;
    }
  }

  lemma {:induction false} SortByCounts<T>(s: seq<T>, key: T -> real, p: T -> bool)
    ensures Count(SortBy(s, key), p) == Count(s, p)
  {
    if s != [] {
      SortByCounts(s[1..], key, p);
      InsertCounts(s[0], SortBy(s[1..], key), key, p);
    }
  }

  lemma {:induction false} CountOfTwo<T>(a: seq<T>, b: seq<T>, p: T -> bool)
    ensures Count(a + b, p) == Count(a, p) + Count(b, p)
  {
    if a == [] {
      assert a + b == b;
    } else {
      CountOfTwo(a[1..], b, p);
      assert (a + b)[1..] == a[1..] + b;
    }
  }

  lemma {:induction false} CountAtMost<T>(s: seq<T>, p: T -> bool)
    ensures Count(s, p) <= |s|
    ensures (forall i | 0 <= i < |s| :: !p(s[i])) ==> Count(s, p) == 0
    ensures (forall i | 0 <= i < |s| :: p(s[i])) ==> Count(s, p) == |s|
  {
    if s != [] {
      CountAtMost(s[1..], p);
    }
  }

  lemma {:induction false} CountOpposite<T>(s: seq<T>, p: T -> bool, q: T -> bool)
    requires forall i | 0 <= i < |s| :: p(s[i]) <==> !q(s[i])
    ensures Count(s, p) + Count(s, q) == |s|
  {
    if s != [] {
      CountOpposite(s[1..], p, q);
    }
  }

  lemma {:induction false} CountWeaker<T>(s: seq<T>, p: T -> bool, q: T -> bool)
    requires forall i | 0 <= i < |s| && p(s[i]) :: q(s[i])
    ensures Count(s, p) <= Count(s, q)
  {
    if s != [] {
      CountWeaker(s[1..], p, q);
    }
  }

  /** If more than `k` elements satisfy `p`, not all of them stand past index `k`. */
  lemma {:induction false} SomeAtOrBefore<T>(s: seq<T>, k: nat, p: T -> bool)
    requires k < |s| && Count(s, p) > |s| - 1 - k
    ensures exists i :: 0 <= i <= k && p(s[i])
  {
    assert s == s[..k + 1] + s[k + 1..];
    CountOfTwo(s[..k + 1], s[k + 1..], p);
    CountAtMost(s[k + 1..], p);
    if forall i | 0 <= i <= k :: !p(s[i]) {
      CountAtMost(s[..k + 1], p);
    }
  }

  lemma {:induction false} SomeAtOrAfter<T>(s: seq<T>, k: nat, p: T -> bool)
    requires k < |s| && Count(s, p) > k
    ensures exists i :: k <= i < |s| && p(s[i])
  {
    assert s == s[..k] + s[k..];
    CountOfTwo(s[..k], s[k..], p);
    CountAtMost(s[..k], p);
    if forall i | k <= i < |s| :: !p(s[i]) {
      CountAtMost(s[k..], p);
    }
  }

  /** Where `p` can fail only on `m` elements from index `a` on, a stretch fails it at most where it meets them. */
  lemma {:induction false} CountOutside<T>(s: seq<T>, p: T -> bool, a: nat, m: nat, lo: nat, hi: nat)
    requires lo <= hi <= |s| && forall i | 0 <= i < |s| && !(a <= i < a + m) :: p(s[i])
    ensures Count(s[lo..hi], p) >= (hi - lo) - Max(0, Min(hi, a + m) - Max(lo, a))
    decreases hi - lo
  {
    if lo < hi {
      CountOutside(s, p, a, m, lo + 1, hi);
      assert s[lo..hi][1..] == s[lo + 1..hi];
    }
  }

  /** The sort is stable: its head is the earliest of the least. */
  lemma {:induction false} HeadIsEarliestLeast<T>(s: seq<T>, key: T -> real) returns (i: nat)
    requires s != []
    ensures i < |s| && SortBy(s, key) != [] && SortBy(s, key)[0] == s[i]
    ensures forall j | 0 <= j < |s| :: key(s[i]) <= key(s[j])
    ensures forall j | 0 <= j < i :: key(s[i]) < key(s[j])
  {
    i := 0;
    if |s| > 1 {
      var k := HeadIsEarliestLeast(s[1..], key);
      assert forall j | 1 <= j < |s| :: s[j] == s[1..][j - 1];
      if key(s[0]) > key(s[k + 1]) {
        i := k + 1;
      }
    }
  }

  /** What follows the head is the rest of the list. */
  lemma {:induction false} RestFollowsTheHead<T>(s: seq<T>, key: T -> real, i: nat)
    requires i < |s| && SortBy(s, key) != [] && SortBy(s, key)[0] == s[i]
    ensures multiset(SortBy(s, key)[1..]) == multiset(s[..i] + s[i + 1..])
    ensures |SortBy(s, key)| == |s|
  {
    SortByIsSorted(s, key);
    var sorted, rest := SortBy(s, key), s[..i] + s[i + 1..];
    WithoutOne(sorted, 0);
    WithoutOne(s, i);
    assert sorted[..0] + sorted[1..] == sorted[1..];
    assert multiset(sorted[1..]) == multiset(sorted) - multiset{s[i]} == multiset(rest);
  }

  lemma {:induction false} WithoutOne<T>(s: seq<T>, i: nat)
    requires i < |s|
    ensures multiset(s[..i] + s[i + 1..]) == multiset(s) - multiset{s[i]}
  {
    assert s == s[..i] + [s[i]] + s[i + 1..];
    assert multiset(s) == multiset(s[..i]) + multiset{s[i]} + multiset(s[i + 1..]);
  }

  /** A rearrangement of all elements but one holds exactly what stands at the other places. */
  lemma {:induction false} OthersOf<T>(s: seq<T>, i: nat, others: seq<T>)
    requires i < |s| && multiset(others) == multiset(s[..i] + s[i + 1..])
    ensures forall x | x in others :: exists j :: 0 <= j < |s| && j != i && s[j] == x
    ensures forall j | 0 <= j < |s| && j != i :: s[j] in others
  {
    var rest := s[..i] + s[i + 1..];
    forall x | x in others ensures exists j :: 0 <= j < |s| && j != i && s[j] == x {
      assert x in multiset(others) && x in multiset(rest);
      var k :| 0 <= k < |rest| && rest[k] == x;
      assert s[if k < i then k else k + 1] == x;
    }
    forall j | 0 <= j < |s| && j != i ensures s[j] in others {
      assert rest[if j < i then j else j - 1] == s[j];
      assert s[j] in multiset(rest) && s[j] in multiset(others);
    }
  }
}
