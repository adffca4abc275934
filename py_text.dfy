/**
 * The few Python `str` and `int` built-ins the core relies on:
 * `isspace`, `strip`/`lstrip`/`rstrip`, `replace` of one character,
 * `in`, `index`, `int(text)` and `str(int)`.
 */
module PyText {
  import opened Wrappers

  /** Python's `str.isspace()` for a single character. */
  predicate IsSpace(c: char) {
    || c == ' '
    || ('\t' <= c <= '\r')
    || ('\U{1C}' <= c <= '\U{1F}')
    || c == '\U{85}' || c == '\U{A0}' || c == '\U{1680}'
    || ('\U{2000}' <= c <= '\U{200A}')
    || c == '\U{2028}' || c == '\U{2029}' || c == '\U{202F}' || c == '\U{205F}' || c == '\U{3000}'
  }

  predicate IsDigit(c: char) { '0' <= c <= '9' }

  function DigitValue(c: char): (d: nat)
    requires IsDigit(c)
    ensures d < 10
  {
    (c as int) - ('0' as int)
  }

  function DigitChar(d: nat): (c: char)
    requires d < 10
    ensures IsDigit(c) && DigitValue(c) == d
  {
    ('0' as int + d) as char
  }

  /** `s.lstrip()`: the longest suffix of `s` that does not start with whitespace. */
  function LStrip(s: string): (r: string)
    ensures |r| <= |s| && r == s[|s| - |r|..]
    ensures forall i :: 0 <= i < |s| - |r| ==> IsSpace(s[i])
    ensures r == [] || !IsSpace(r[0])
  {
    if s == [] || !IsSpace(s[0]) then s else LStrip(s[1..])
  }

  /** `s.rstrip()`: the longest prefix of `s` that does not end with whitespace. */
  function RStrip(s: string): (r: string)
    ensures |r| <= |s| && r == s[..|r|]
    ensures forall i :: |r| <= i < |s| ==> IsSpace(s[i])
    ensures r == [] || !IsSpace(r[|r| - 1])
  {
    if s == [] || !IsSpace(s[|s| - 1]) then s else RStrip(s[..|s| - 1])
  }

  /** `s.rstrip(c)`: the longest prefix of `s` that does not end with `c`. */
  function RStripChar(s: string, c: char): (r: string)
    ensures |r| <= |s| && r == s[..|r|]
    ensures forall i :: |r| <= i < |s| ==> s[i] == c
    ensures r == [] || r[|r| - 1] != c
  {
    if s == [] || s[|s| - 1] != c then s else RStripChar(s[..|s| - 1], c)
  }

  /** `s.strip()`: leading and trailing whitespace removed, nothing else touched. */
  function Strip(s: string): (r: string)
    ensures r == [] || (!IsSpace(r[0]) && !IsSpace(r[|r| - 1]))
    ensures |s| > 0 && !IsSpace(s[0]) && !IsSpace(s[|s| - 1]) ==> r == s
  {
    RStrip(LStrip(s))
  }

  /** The stripped text is the slice `s[i..i + |Strip(s)|]` with only whitespace on either side. */
  lemma StripSlice(s: string) returns (i: nat)
    ensures i + |Strip(s)| <= |s| && Strip(s) == s[i..i + |Strip(s)|]
    ensures forall k :: 0 <= k < i ==> IsSpace(s[k])
    ensures forall k :: i + |Strip(s)| <= k < |s| ==> IsSpace(s[k])
  {
    var t := LStrip(s);
    i := |s| - |t|;
    var r := RStrip(t);
    assert r == Strip(s);
    SliceOfSuffix(s, t, r, i);
    SuffixSpaces(s, t, i, |r|);
  }

  lemma SuffixSpaces(s: string, t: string, i: nat, n: nat)
    requires i <= |s| && t == s[i..]
    requires forall j :: n <= j < |t| ==> IsSpace(t[j])
    ensures forall k :: i + n <= k < |s| ==> IsSpace(s[k])
  {
    forall k | i + n <= k < |s| ensures IsSpace(s[k]) {
      assert s[k] == t[k - i];
    }
  }

  lemma SliceOfSuffix(s: string, t: string, r: string, i: nat)
    requires i <= |s| && t == s[i..] && |r| <= |t| && r == t[..|r|]
    ensures i + |r| <= |s| && r == s[i..i + |r|]
  {
  }

  /** `s.replace(c, '')`: every occurrence of `c` deleted, the other characters kept. */
  function Remove(s: string, c: char): (r: string)
    ensures c !in r
    ensures c !in s ==> r == s
  {
    if s == [] then []
    else (if s[0] == c then [] else [s[0]]) + Remove(s[1..], c)
  }

  /** Every character other than `c` occurs as often after the deletion as before. */
  lemma {:induction false} RemoveCounts(s: string, c: char)
    ensures forall x :: x != c ==> multiset(Remove(s, c))[x] == multiset(s)[x]
  {
    if s != [] {
      assert s == [s[0]] + s[1..];
      RemoveCounts(s[1..], c);
    }
  }

  /** `s.replace(c, d)` for single characters `c` and `d`. */
  function Replace(s: string, c: char, d: char): (r: string)
    ensures |r| == |s|
    ensures forall i :: 0 <= i < |s| ==> r[i] == if s[i] == c then d else s[i]
  {
    if s == [] then [] else [if s[0] == c then d else s[0]] + Replace(s[1..], c, d)
  }

  /** `s.index(c)`: the first position of `c`. */
  function IndexOf(s: string, c: char): (r: nat)
    requires c in s
    ensures r < |s| && s[r] == c
    ensures forall k :: 0 <= k < r ==> s[k] != c
  {
    if s[0] == c then 0 else 1 + IndexOf(s[1..], c)
  }

  /** Digits, optionally separated by single underscores between digits (PEP 515). */
  predicate IsDigitGroups(s: string) {
    && |s| > 0 && IsDigit(s[0]) && IsDigit(s[|s| - 1])
    && forall i :: 0 <= i < |s| && !IsDigit(s[i]) ==> s[i] == '_' && i + 1 < |s| && IsDigit(s[i + 1])
  }

  /** The value of a digit string, underscores ignored. */
  function GroupsValue(s: string): nat
    requires forall k :: 0 <= k < |s| ==> IsDigit(s[k]) || s[k] == '_'
  {
    if s == [] then 0
    else if s[|s| - 1] == '_' then GroupsValue(s[..|s| - 1])
    else GroupsValue(s[..|s| - 1]) * 10 + DigitValue(s[|s| - 1])
  }

  /** `int(s)` for base-10 text: surrounding whitespace, an optional sign, digit groups; None where Python raises ValueError. */
  /** Text without a single digit never parses: `int("")` and `int("m")` raise. */
  function ParseInt(s: string): (r: Option<int>)
    ensures (forall k :: 0 <= k < |s| ==> !IsDigit(s[k])) ==> r.None?
  {
    StripKeepsNoDigit(s);
    ParseSigned(Strip(s))
  }

  /** Stripping takes a slice, so it brings no digit in. */
  lemma StripKeepsNoDigit(s: string)
    ensures (forall k :: 0 <= k < |s| ==> !IsDigit(s[k])) ==> forall k :: 0 <= k < |Strip(s)| ==> !IsDigit(Strip(s)[k])
  {
    var t := Strip(s);
    var i := StripSlice(s);
    assert forall k :: 0 <= k < |t| ==> t[k] == s[i + k];
  }

  /** An optional sign followed by digit groups, the text being already stripped. */
  function ParseSigned(t: string): (r: Option<int>)
    ensures (forall k :: 0 <= k < |t| ==> !IsDigit(t[k])) ==> r.None?
  {
    var signed := |t| > 0 && (t[0] == '+' || t[0] == '-');
    var body := if signed then t[1..] else t;
    if IsDigitGroups(body) then
      var v := GroupsValue(body);
      Some(if signed && t[0] == '-' then -(v as int) else v)
    else
      None
  }

  /** `str(n)` for a natural number. */
  function NatToString(n: nat): (r: string)
    ensures |r| > 0 && forall k :: 0 <= k < |r| ==> IsDigit(r[k])
  {
    if n < 10 then [DigitChar(n)] else NatToString(n / 10) + [DigitChar(n % 10)]
  }

  /** `str(i)` for an integer. */
  function IntToString(i: int): (s: string)
    ensures |s| > 0 && (s[0] == '-' <==> i < 0)
    ensures forall k :: 0 < k < |s| ==> IsDigit(s[k])
  {
    if i < 0 then "-" + NatToString(-i) else NatToString(i)
  }

  lemma {:induction false} NatToStringValue(n: nat)
    ensures GroupsValue(NatToString(n)) == n
  {
    if n >= 10 {
      var s := NatToString(n);
      assert s[..|s| - 1] == NatToString(n / 10);
      NatToStringValue(n / 10);
    }
  }

  lemma DigitsParse(n: nat)
    ensures ParseSigned(NatToString(n)) == Some(n as int)
  {
    var digits := NatToString(n);
    NatToStringValue(n);
    assert IsDigitGroups(digits);
    assert IsDigit(digits[0]);
  }

  lemma NegativeDigitsParse(n: nat, x: string)
    requires n > 0 && x == "-" + NatToString(n)
    ensures ParseSigned(x) == Some(-(n as int))
  {
    DigitsParse(n);
    assert x[1..] == NatToString(n);
  }

  lemma StripNoSpaceEnds(s: string)
    requires |s| > 0 && IsDigit(s[|s| - 1]) && (IsDigit(s[0]) || s[0] == '-')
    ensures Strip(s) == s
  {
  }

  lemma ParseIntOfStripped(x: string)
    requires Strip(x) == x
    ensures ParseInt(x) == ParseSigned(x)
  {
  }

  lemma NonNegativeRoundTrip(i: int)
    requires i >= 0
    ensures ParseInt(IntToString(i)) == Some(i)
  {
    var x := NatToString(i);
    assert IntToString(i) == x;
    DigitsParse(i);
    StripNoSpaceEnds(x);
    ParseIntOfStripped(x);
  }

  lemma NegativeRoundTrip(i: int)
    requires i < 0
    ensures ParseInt(IntToString(i)) == Some(i)
  {
    var digits := NatToString(-i);
    var x := IntToString(i);
    assert x == "-" + digits;
    NegativeDigitsParse(-i, x);
    assert ParseInt(x) == ParseSigned(x) by {
      MinusDigitsStripped(digits);
      ParseIntOfStripped(x);
    }
  }

  lemma MinusDigitsStripped(digits: string)
    requires |digits| > 0 && forall k :: 0 <= k < |digits| ==> IsDigit(digits[k])
    ensures Strip("-" + digits) == "-" + digits
  {
    var x := "-" + digits;
    assert x[0] == '-' && x[|x| - 1] == digits[|digits| - 1];
    StripNoSpaceEnds(x);
  }

  /** `int(str(i)) == i`: the decimal rendering parses back to the same integer. */
  lemma ParseIntRoundTrip(i: int)
    ensures ParseInt(IntToString(i)) == Some(i)
  {
    if i < 0 {
      NegativeRoundTrip(i);
    } else {
      NonNegativeRoundTrip(i);
    }
  }

  /** Distinct integers render to distinct strings. */
  lemma IntToStringInjective(a: int, b: int)
    requires IntToString(a) == IntToString(b)
    ensures a == b
  {
    ParseIntRoundTrip(a);
    ParseIntRoundTrip(b);
  }

  /** Deleting a character commutes with concatenation, so the kept characters stay in order. */
  lemma {:induction false} RemoveAppend(a: string, b: string, c: char)
    ensures Remove(a + b, c) == Remove(a, c) + Remove(b, c)
  {
    if a != [] {
      assert a == [a[0]] + a[1..];
      RemoveAppend(a[1..], b, c);
      RemoveAppendStep(a[0], a[1..], b, c);
    } else {
      assert a + b == b;
    }
  }

  lemma RemoveAppendStep(x: char, rest: string, b: string, c: char)
    requires Remove(rest + b, c) == Remove(rest, c) + Remove(b, c)
    ensures Remove([x] + rest + b, c) == Remove([x] + rest, c) + Remove(b, c)
  {
    AppendAssoc([x], rest, b);
    RemoveCons(x, rest + b, c);
    RemoveCons(x, rest, c);
    AppendAssoc(if x == c then [] else [x], Remove(rest, c), Remove(b, c));
  }

  lemma AppendAssoc(p: string, q: string, r: string)
    ensures p + (q + r) == (p + q) + r
  {
  }

  /** The first step of `Remove`. */
  lemma RemoveCons(x: char, t: string, c: char)
    ensures Remove([x] + t, c) == (if x == c then [] else [x]) + Remove(t, c)
  {
    var s := [x] + t;
    assert s[0] == x && s[1..] == t;
  }
}
