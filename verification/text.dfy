/** String helpers standing in for the Python `str` methods the bot uses
    (`strip`, `lower`, `upper`, `isdigit`, `in`, `int(...)`, `str(...)`),
    restricted to their behaviour on ASCII characters. */
module Text {

  // ---------------------------------------------------------------------------
  // Whitespace and str.strip()
  // ---------------------------------------------------------------------------

  /** The ASCII characters Python's `str.isspace` accepts, which `str.strip()` removes. */
  predicate IsSpace(c: char) {
    c == ' ' || c == '\t' || c == '\n' || c == '\r' || c == '\U{B}' || c == '\U{C}'
    || ('\U{1C}' <= c <= '\U{1F}')
  }

  predicate AllSpace(s: string) {
    forall i :: 0 <= i < |s| ==> IsSpace(s[i])
  }

  /** `s.lstrip()` */
  function TrimStart(s: string): (r: string)
    ensures |r| <= |s| && r == s[|s| - |r|..]
    ensures AllSpace(s[..|s| - |r|])
    ensures r == [] || !IsSpace(r[0])
  {
    if s != [] && IsSpace(s[0]) then
      var r := TrimStart(s[1..]);
      assert s[..|s| - |r|] == [s[0]] + s[1..][..|s| - 1 - |r|];
      r
    else
      s
  }

  /** `s.rstrip()` */
  function TrimEnd(s: string): (r: string)
    ensures |r| <= |s| && r == s[..|r|]
    ensures AllSpace(s[|r|..])
    ensures r == [] || !IsSpace(r[|r| - 1])
  {
    if s != [] && IsSpace(s[|s| - 1]) then
      var r := TrimEnd(s[..|s| - 1]);
      assert s[|r|..] == s[..|s| - 1][|r|..] + [s[|s| - 1]];
      r
    else
      s
  }

  /** `lstrip` drops a leading blank and carries on with the rest. */
  lemma TrimStartStep(s: string)
    requires s != [] && IsSpace(s[0])
    ensures TrimStart(s) == TrimStart(s[1..])
  {
  }

  /** `rstrip` drops a trailing blank and carries on with the rest. */
  lemma TrimEndStep(s: string)
    requires s != [] && IsSpace(s[|s| - 1])
    ensures TrimEnd(s) == TrimEnd(s[..|s| - 1])
  {
  }

  /** `s` is blanks, then `r` starting at index `k`, then blanks. */
  predicate BlanksAroundAt(r: string, s: string, k: int) {
    IsInfixAt(r, s, k) && AllSpace(s[..k]) && AllSpace(s[k + |r|..])
  }

  /** `s.strip()`: the infix of `s` left after dropping whitespace at both ends. */
  function Strip(s: string): (r: string)
    ensures |r| <= |s|
    ensures r == [] <==> AllSpace(s)
    ensures r != [] ==> !IsSpace(r[0]) && !IsSpace(r[|r| - 1])
    ensures IsInfix(r, s)
    ensures exists k :: BlanksAroundAt(r, s, k)
  {
    var t := TrimStart(s);
    var r := TrimEnd(t);
    BlanksAround(s, t, r);
    r
  }

  /** Cutting blanks off the front of `s` and then off the back of the rest
      leaves `s` cut into blanks, the kept text, and blanks. */
  lemma BlanksAround(s: string, t: string, r: string)
    requires |t| <= |s| && t == s[|s| - |t|..] && AllSpace(s[..|s| - |t|])
    requires t == [] || !IsSpace(t[0])
    requires |r| <= |t| && r == t[..|r|] && AllSpace(t[|r|..])
    requires r == [] || !IsSpace(r[|r| - 1])
    ensures |r| <= |s|
    ensures r == [] <==> AllSpace(s)
    ensures r != [] ==> !IsSpace(r[0]) && !IsSpace(r[|r| - 1])
    ensures IsInfix(r, s)
    ensures exists k :: BlanksAroundAt(r, s, k)
  {
    var k := |s| - |t|;
    assert s[k..k + |r|] == r by {
      assert s[k..][..|r|] == s[k..k + |r|];
    }
    assert s[k + |r|..] == t[|r|..];
    if r != [] {
      assert r[0] == t[0];
    }
    assert BlanksAroundAt(r, s, k);
    BlankIffEmpty(s, r, k);
  }

  /** With blanks on both sides of `r` in `s`, `s` is all blank exactly when `r` is empty. */
  lemma BlankIffEmpty(s: string, r: string, k: int)
    requires IsInfixAt(r, s, k) && AllSpace(s[..k]) && AllSpace(s[k + |r|..])
    requires r == [] || !IsSpace(r[0])
    ensures IsInfix(r, s)
    ensures r == [] <==> AllSpace(s)
  {
    if r == [] {
      forall i | 0 <= i < |s| ensures IsSpace(s[i]) {
        if i < k {
          assert s[..k][i] == s[i];
        } else {
          assert s[k..][i - k] == s[i];
        }
      }
    } else {
      assert s[k] == r[0];
    }
  }

  lemma {:induction false} StripIdempotent(s: string)
    ensures Strip(Strip(s)) == Strip(s)
  {
    StripFixed(Strip(s));
  }

  /** A string with no whitespace at either end is left as it is. */
  lemma StripFixed(r: string)
    requires r == [] || (!IsSpace(r[0]) && !IsSpace(r[|r| - 1]))
    ensures Strip(r) == r
  {
    if r != [] {
      assert TrimStart(r) == r;
      assert TrimEnd(r) == r;
    }
  }

  // ---------------------------------------------------------------------------
  // Case mapping: str.lower() and str.upper()
  // ---------------------------------------------------------------------------

  predicate IsUpperLetter(c: char) { 'A' <= c <= 'Z' }
  predicate IsLowerLetter(c: char) { 'a' <= c <= 'z' }

  function LowerChar(c: char): (d: char)
    ensures !IsUpperLetter(d)
    ensures IsUpperLetter(c) || d == c
  {
    if IsUpperLetter(c) then (c as int - 'A' as int + 'a' as int) as char else c
  }

  function UpperChar(c: char): (d: char)
    ensures !IsLowerLetter(d)
    ensures IsLowerLetter(c) || d == c
  {
    if IsLowerLetter(c) then (c as int - 'a' as int + 'A' as int) as char else c
  }

  function Lower(s: string): (r: string)
    ensures |r| == |s| && forall i :: 0 <= i < |s| ==> r[i] == LowerChar(s[i])
  {
    seq(|s|, i requires 0 <= i < |s| => LowerChar(s[i]))
  }

  function Upper(s: string): (r: string)
    ensures |r| == |s| && forall i :: 0 <= i < |s| ==> r[i] == UpperChar(s[i])
  {
    seq(|s|, i requires 0 <= i < |s| => UpperChar(s[i]))
  }

  // ---------------------------------------------------------------------------
  // Prefixes, suffixes and Python's `sub in s`
  // ---------------------------------------------------------------------------

  predicate StartsWith(s: string, prefix: string) {
    |prefix| <= |s| && s[..|prefix|] == prefix
  }

  predicate EndsWith(s: string, suffix: string) {
    |suffix| <= |s| && s[|s| - |suffix|..] == suffix
  }

  lemma SplitConcat(a: string, b: string)
    ensures StartsWith(a + b, a) && (a + b)[|a|..] == b
  {
    assert (a + b)[..|a|] == a;
  }

  /** A prefix of a prefix of `s` is a prefix of `s`. */
  lemma PrefixOfPrefix(s: string, p: string, q: string)
    requires StartsWith(s, p) && StartsWith(p, q)
    ensures StartsWith(s, q)
  {
    assert s[..|q|] == s[..|p|][..|q|];
  }

  lemma ConcatAssoc(a: string, b: string, c: string)
    ensures (a + b) + c == a + (b + c)
  {
  }

  predicate IsInfixAt(sub: string, s: string, i: int) {
    0 <= i <= |s| - |sub| && s[i..i + |sub|] == sub
  }

  ghost predicate IsInfix(sub: string, s: string) {
    exists i :: IsInfixAt(sub, s, i)
  }

  /** `sub in s`, scanning the start positions of `s` from left to right. */
  function Contains(sub: string, s: string): (b: bool)
    ensures b <==> IsInfix(sub, s)
    decreases |s|
  {
    if |sub| > |s| then
      false
    else if s[..|sub|] == sub then
      assert IsInfixAt(sub, s, 0);
      true
    else
      var b := Contains(sub, s[1..]);
      assert b ==> IsInfix(sub, s) by {
        if b {
          var k :| IsInfixAt(sub, s[1..], k);
          assert s[1..][k..k + |sub|] == s[k + 1..k + 1 + |sub|];
          assert IsInfixAt(sub, s, k + 1);
        }
      }
      assert IsInfix(sub, s) ==> b by {
        if IsInfix(sub, s) {
          var k :| IsInfixAt(sub, s, k);
          assert k != 0;
          assert s[1..][k - 1..k - 1 + |sub|] == s[k..k + |sub|];
          assert IsInfixAt(sub, s[1..], k - 1);
        }
      }
      b
  }

  lemma EmptyIsInfix(s: string)
    ensures Contains("", s)
  {
    assert IsInfixAt("", s, 0);
  }

  // ---------------------------------------------------------------------------
  // Decimal digits: str.isdigit(), int(s) and str(n)
  // ---------------------------------------------------------------------------

  predicate IsDigit(c: char) { '0' <= c <= '9' }

  /** `s.isdigit()` on ASCII input: non-empty and made of digits only. */
  predicate IsDecimal(s: string) {
    |s| > 0 && forall i :: 0 <= i < |s| ==> IsDigit(s[i])
  }

  function DigitValue(c: char): (d: nat)
    requires IsDigit(c)
    ensures d < 10
  {
    c as int - '0' as int
  }

  function DigitChar(d: nat): (c: char)
    requires d < 10
    ensures IsDigit(c) && DigitValue(c) == d
  {
    ('0' as int + d) as char
  }

  /** `int(s)` for a string of decimal digits (leading zeros allowed). */
  function ParseNat(s: string): (r: nat)
    requires forall i :: 0 <= i < |s| ==> IsDigit(s[i])
    ensures r == 0 <==> forall i :: 0 <= i < |s| ==> s[i] == '0'
  {
    if s == [] then 0
    else
      var front := s[..|s| - 1];
      var r := 10 * ParseNat(front) + DigitValue(s[|s| - 1]);
      assert (forall i :: 0 <= i < |s| ==> s[i] == '0') <==>
             (forall i :: 0 <= i < |front| ==> front[i] == '0') && s[|s| - 1] == '0';
      r
  }

  /** `str(n)` for a non-negative integer: no leading zeros except for "0" itself. */
  function NatToString(n: nat): (r: string)
    ensures IsDecimal(r)
    ensures r[0] == '0' ==> n == 0 && r == "0"
    ensures n == 0 ==> r == "0"
  {
    if n < 10 then [DigitChar(n)] else NatToString(n / 10) + [DigitChar(n % 10)]
  }

  lemma {:induction false} ParseNatToString(n: nat)
    ensures ParseNat(NatToString(n)) == n
  {
    if n >= 10 {
      var p := NatToString(n / 10);
      var s := p + [DigitChar(n % 10)];
      assert s[..|s| - 1] == p;
      ParseNatToString(n / 10);
    }
  }

  /** `str(i)` for any integer. */
  function IntToString(i: int): (r: string)
    ensures |r| > 0
    ensures r[0] == '-' <==> i < 0
    ensures i >= 0 ==> IsDecimal(r) && (r[0] == '0' ==> r == "0")
    ensures i < 0 ==> IsDecimal(r[1..]) && r[1] != '0'
  {
    if i < 0 then "-" + NatToString(-i) else NatToString(i)
  }

  /** `int(s)` for an optionally signed decimal string. */
  function ParseInt(s: string): int
    requires |s| > 0
    requires s[0] == '-' ==> IsDecimal(s[1..])
    requires s[0] != '-' ==> IsDecimal(s)
  {
    if s[0] == '-' then 0 - ParseNat(s[1..]) else ParseNat(s) as int
  }

  lemma IntToStringRoundTrip(i: int)
    ensures ParseInt(IntToString(i)) == i
  {
    if i < 0 {
      assert IntToString(i)[1..] == NatToString(-i);
      ParseNatToString(-i);
    } else {
      ParseNatToString(i);
    }
  }
}
