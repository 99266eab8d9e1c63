/** The string operations the response reader relies on, over ASCII text. */
module Text {
  import opened Basics

  predicate At(s: string, pat: string, i: nat) {
    i + |pat| <= |s| && s[i..i + |pat|] == pat
  }

  /** The first place at or after `i` where the pattern stands. */
  function FindFrom(s: string, pat: string, i: nat): (r: Option<nat>)
    requires i <= |s|
    ensures r.None? ==> forall j | i <= j :: !At(s, pat, j)
    ensures r.Some? ==> i <= r.value && At(s, pat, r.value) && forall j | i <= j < r.value :: !At(s, pat, j)
    decreases |s| - i
  {
    if At(s, pat, i) then Some(i) else if i == |s| then None else FindFrom(s, pat, i + 1)
  }

  function Find(s: string, pat: string): (r: Option<nat>)
    ensures r.None? ==> forall j: nat :: !At(s, pat, j)
    ensures r.Some? ==> At(s, pat, r.value) && forall j: nat | j < r.value :: !At(s, pat, j)
  {
    FindFrom(s, pat, 0)
  }

  predicate Contains(s: string, pat: string) {
    Find(s, pat).Some?
  }

  lemma {:induction false} FindIs(s: string, pat: string, i: nat)
    requires At(s, pat, i) && forall j: nat | j < i :: !At(s, pat, j)
    ensures Find(s, pat) == Some(i)
  {
  }

  predicate IsSpace(c: char) {
    c == ' ' || '\t' <= c <= '\r'
  }

  function TrimStart(s: string): string {
    if s != [] && IsSpace(s[0]) then TrimStart(s[1..]) else s
  }

  function TrimEnd(s: string): string {
    if s != [] && IsSpace(Last(s)) then TrimEnd(Front(s)) else s
  }

  function Trim(s: string): string {
    TrimEnd(TrimStart(s))
  }

  /** The part before the first semicolon. */
  function BeforeSemicolon(s: string): string {
    if s == [] || s[0] == ';' then [] else [s[0]] + BeforeSemicolon(s[1..])
  }

  function ToLower(s: string): string {
    seq(|s|, i requires 0 <= i < |s| => Lower(s[i]))
  }

  /** The same letter in either case, or the same character. */
  predicate SameLetter(c: char, d: char) {
    || c == d
    || ('A' <= c <= 'Z' && d as int == c as int + 32)
    || ('A' <= d <= 'Z' && c as int == d as int + 32)
  }

  /** The same text, letter by letter, whatever the case. */
  predicate SameButCase(s: string, t: string) {
    |s| == |t| && forall i | 0 <= i < |s| :: SameLetter(s[i], t[i])
  }

  function Lower(c: char): char {
    if 'A' <= c <= 'Z' then c - 'A' + 'a' else c
  }

  lemma {:induction false} LowerIsSameLetter(c: char, d: char)
    ensures Lower(c) == Lower(d) <==> SameLetter(c, d)
  {
    assert 'A' <= c <= 'Z' ==> Lower(c) as int == c as int + 32;
    assert 'A' <= d <= 'Z' ==> Lower(d) as int == d as int + 32;
  }

  /** Two texts have one lower-case form exactly when they differ in nothing but case. */
  lemma {:induction false} ToLowerIsSameButCase(s: string, t: string)
    ensures ToLower(s) == ToLower(t) <==> SameButCase(s, t)
  {
    assert |ToLower(s)| == |s| && |ToLower(t)| == |t|;
    forall i | 0 <= i < |s| && i < |t| ensures ToLower(s)[i] == ToLower(t)[i] <==> SameLetter(s[i], t[i]) {
      LowerIsSameLetter(s[i], t[i]);
    }
  }

  function HexDigit(c: char): Option<nat> {
    if '0' <= c <= '9' then Some((c - '0') as nat)
    else if 'a' <= c <= 'f' then Some((c - 'a') as nat + 10)
    else if 'A' <= c <= 'F' then Some((c - 'A') as nat + 10)
    else None
  }

  /** The digits are these sixteen, in either case, and no other character. */
  lemma {:induction false} HexDigitsInEitherCase(c: char, d: nat)
    ensures HexDigit(c) == Some(d) <==> d < 16 && (c == "0123456789abcdef"[d] || c == "0123456789ABCDEF"[d])
  {
    if '0' <= c <= '9' {
      assert c in "0123456789";
    } else if 'a' <= c <= 'f' {
      assert c in "abcdef";
    } else if 'A' <= c <= 'F' {
      assert c in "ABCDEF";
    }
  }

  /** The value of hexadecimal digits, when all are digits and it fits in 64 bits. */
  function HexValue(digits: string): Option<u64> {
    if digits == [] then Some(0)
    else
      var high := HexValue(Front(digits));
      var low := HexDigit(Last(digits));
      if high.None? || low.None? || high.value * 16 + low.value >= U64_SPAN then None
      else Some(high.value * 16 + low.value)
  }

  /** A size as the standard library parses it: digits, with one plus sign allowed before them. */
  function ParseHex(s: string): Option<u64> {
    var digits := if s != [] && s[0] == '+' then s[1..] else s;
    if digits == [] then None else HexValue(digits)
  }

  function HexChar(d: nat): char
    requires d < 16
  {
    if d < 10 then '0' + d as char else 'a' + (d - 10) as char
  }

  lemma {:induction false} HexCharReadsBack(d: nat)
    requires d < 16
    ensures HexDigit(HexChar(d)) == Some(d)
  {
    var c := HexChar(d);
    if d < 10 {
      assert '0' <= c <= '9';
    } else {
      assert 'a' <= c <= 'f';
    }
  }

  /** A number in hexadecimal, without leading zeros. */
  function ToHex(n: nat): string {
    (if n < 16 then [] else ToHex(n / 16)) + [HexChar(n % 16)]
  }

  lemma {:induction false} ToHexReadsBack(n: nat)
    requires n < U64_SPAN
    ensures ToHex(n) != [] && HexValue(ToHex(n)) == Some(n)
    ensures forall i | 0 <= i < |ToHex(n)| :: HexDigit(ToHex(n)[i]).Some?
  {
    var s := ToHex(n);
    HexCharReadsBack(n % 16);
    if n < 16 {
      assert Front(s) == [];
    } else {
      ToHexReadsBack(n / 16);
      assert Front(s) == ToHex(n / 16);
    }
  }

  lemma {:induction false} TrimEndKeeps(s: string, k: nat)
    requires k < |s| && !IsSpace(s[k])
    ensures k < |TrimEnd(s)| <= |s| && TrimEnd(s) == s[..|TrimEnd(s)|]
  {
    if IsSpace(Last(s)) {
      TrimEndKeeps(Front(s), k);
    }
  }

  lemma {:induction false} TrimEndDrops(s: string, spaces: string)
    requires forall i | 0 <= i < |spaces| :: IsSpace(spaces[i])
    requires s == [] || !IsSpace(Last(s))
    ensures TrimEnd(s + spaces) == s
  {
    if spaces == [] {
      assert s + spaces == s;
    } else {
      assert Front(s + spaces) == s + Front(spaces) && Last(s + spaces) == Last(spaces);
      TrimEndDrops(s, Front(spaces));
    }
  }

  lemma {:induction false} TrimStartDrops(spaces: string, s: string)
    requires forall i | 0 <= i < |spaces| :: IsSpace(spaces[i])
    requires s != [] && !IsSpace(s[0])
    ensures TrimStart(spaces + s) == s
  {
    if spaces == [] {
      assert spaces + s == s;
    } else {
      assert (spaces + s)[1..] == spaces[1..] + s;
      TrimStartDrops(spaces[1..], s);
    }
  }

  lemma {:induction false} BeforeSemicolonIs(s: string, k: nat)
    requires k <= |s| && (k < |s| ==> s[k] == ';') && forall i | 0 <= i < k :: s[i] != ';'
    ensures BeforeSemicolon(s) == s[..k]
  {
    if k > 0 {
      BeforeSemicolonIs(s[1..], k - 1);
      assert s[..k] == [s[0]] + s[1..][..k - 1];
    }
  }
}
