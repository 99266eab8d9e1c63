/** The optional value and the unsigned machine arithmetic that every component uses. */
module Basics {

  datatype Option<+T> = None | Some(value: T)

  const U32_SPAN: nat := 0x1_0000_0000
  const U64_SPAN: nat := 0x1_0000_0000_0000_0000

  type u8 = n: nat | n < 256
  type u32 = n: nat | n < U32_SPAN
  type u64 = n: nat | n < U64_SPAN

  /** Subtraction that stops at zero. */
  function SaturatingSub(a: u64, b: u64): u64 {
    if a < b then 0 else a - b
  }

  /** Addition that stops at the largest 64-bit value. */
  function SaturatingAdd(a: u64, b: u64): u64 {
    if a + b < U64_SPAN then a + b else U64_SPAN - 1
  }

  /** Doubling that stops at the largest 64-bit value. */
  function SaturatingDouble(a: u64): u64 {
    SaturatingAdd(a, a)
  }

  function Max(a: int, b: int): int {
    if a < b then b else a
  }

  function Min(a: int, b: int): int {
    if a < b then a else b
  }

  function Clamp(x: real, lo: real, hi: real): real {
    if x < lo then lo else if x > hi then hi else x
  }

  /** Comparing a quotient is comparing products, and a quotient times its divisor is what was divided. */
  lemma {:induction false} QuotientOrder(a: real, b: real, m: real)
    requires b > 0.0
    ensures a / b < m <==> a < m * b
    ensures (a / b) * b == a
  {
    var q := a / b;
    assert a == q * b && (q - m) * b == q * b - m * b;
    if q < m {
      assert (m - q) * b > 0.0;
    } else {
      assert (q - m) * b >= 0.0;
    }
  }

  predicate NoRepeats<T(==)>(s: seq<T>) {
    forall i, j | 0 <= i < j < |s| :: s[i] != s[j]
  }

  /** All but the last element: runs and logs are read from their newest entry backwards. */
  function Front<T>(s: seq<T>): seq<T>
    requires s != []
  {
    s[..|s| - 1]
  }

  function Last<T>(s: seq<T>): T
    requires s != []
  {
    s[|s| - 1]
  }

  /** A prefix of two texts, one after the other, ends within the first or continues into the second. */
  lemma {:induction false} CutOfTwo<T>(a: seq<T>, b: seq<T>, cut: seq<T>)
    requires cut <= a + b
    ensures |cut| <= |a| ==> cut <= a
    ensures |cut| >= |a| ==> cut == a + cut[|a|..] && cut[|a|..] <= b
    ensures |cut| >= |a| && cut == a + b ==> cut[|a|..] == b
  {
    if |cut| >= |a| {
      assert cut[..|a|] == a && cut == cut[..|a|] + cut[|a|..];
      assert forall i | 0 <= i < |cut| - |a| :: cut[|a|..][i] == (a + b)[|a| + i] == b[i];
    } else {
      assert forall i | 0 <= i < |cut| :: cut[i] == (a + b)[i] == a[i];
    }
  }

  /** The elements satisfying `p`, in order. */
  function Filter<T>(s: seq<T>, p: T -> bool): seq<T> {
    if s == [] then []
    else if p(Last(s)) then Filter(Front(s), p) + [Last(s)]
    else Filter(Front(s), p)
  }

  lemma {:induction false} FilterSelects<T>(s: seq<T>, p: T -> bool)
    ensures forall x | x in Filter(s, p) :: x in s && p(x)
    ensures forall x | x in s && p(x) :: x in Filter(s, p)
  {
    if s != [] {
      FilterSelects(Front(s), p);
      assert forall x | x in s :: x in Front(s) || x == Last(s);
    }
  }

  lemma {:induction false} FilterKeepsAll<T>(s: seq<T>, p: T -> bool)
    requires forall x | x in s :: p(x)
    ensures Filter(s, p) == s
  {
    if s != [] {
      var front, x := Front(s), Last(s);
      assert s == front + [x] && x in s;
      FilterKeepsAll(front, p);
      assert Filter(s, p) == Filter(front, p) + [x];
    }
  }
}
