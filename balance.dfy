/**
 * Reading the account balance text and deriving the bankroll from it:
 * the cleanup in `extract_balance_from_page`, the separator rules of
 * `test_balance_parsing`, `float(...)` on the result and
 * `get_bankroll_from_balance`.
 */
module Balance {
  import opened Wrappers
  import opened PyText

  /** The balance used when the element is missing or its text cannot be read. */
  const FALLBACK_BALANCE: real := 50.0

  // ---------------------------------------------------------------------------
  // Cleanup and separators
  // ---------------------------------------------------------------------------

  /** `text.replace('€', '').replace(' ', '').strip()`. */
  function CleanBalanceText(text: string): (r: string)
    ensures r == [] || (!IsSpace(r[0]) && !IsSpace(r[|r| - 1]))
  {
    Strip(Remove(Remove(text, '€'), ' '))
  }

  /** The cleaned text has no euro sign, no ASCII space, and no whitespace at either end. */
  lemma CleanBalanceTextClean(text: string)
    ensures var r := CleanBalanceText(text);
      && '€' !in r && ' ' !in r && (r == [] || (!IsSpace(r[0]) && !IsSpace(r[|r| - 1])))
      && forall x :: x in r ==> x in text
  {
    var once := Remove(text, '€');
    var twice := Remove(once, ' ');
    var r := Strip(twice);
    var i := StripSlice(twice);
    RemoveCounts(text, '€');
    RemoveCounts(once, ' ');
    assert multiset(twice)['€'] == multiset(once)['€'] == 0;
    forall k | 0 <= k < |r| ensures r[k] != '€' && r[k] != ' ' && r[k] in text {
      assert r[k] == twice[i + k];
      assert multiset(twice)[r[k]] > 0;
    }
  }

  /** Lines 33-34: when a comma is present every comma becomes a dot. */
  function CommaAsDecimal(cleaned: string): (r: string)
    ensures |r| == |cleaned| && ',' !in r
    ensures forall i :: 0 <= i < |cleaned| ==> r[i] == if cleaned[i] == ',' then '.' else cleaned[i]
  {
    if ',' in cleaned then Replace(cleaned, ',', '.') else cleaned
  }

  /**
   * Lines 193-201: with both separators, the one that comes first is the
   * thousands separator and is deleted, and a decimal comma becomes a dot;
   * with commas only, every comma becomes a dot; otherwise unchanged.
   */
  function NormalizeSeparators(cleaned: string): (r: string)
    ensures ',' !in r
  {
    if ',' in cleaned && '.' in cleaned then
      if IndexOf(cleaned, ',') < IndexOf(cleaned, '.') then Remove(cleaned, ',')
      else Replace(Remove(cleaned, '.'), ',', '.')
    else if ',' in cleaned then Replace(cleaned, ',', '.')
    else cleaned
  }

  /** The digits of a text, in order. */
  function DigitsOf(s: string): (r: string)
    ensures forall k :: 0 <= k < |r| ==> IsDigit(r[k])
  {
    if s == [] then []
    else (if IsDigit(s[0]) then [s[0]] else []) + DigitsOf(s[1..])
  }

  lemma {:induction false} DigitsOfRemove(s: string, c: char)
    requires !IsDigit(c)
    ensures DigitsOf(Remove(s, c)) == DigitsOf(s)
  {
    if s != [] {
      DigitsOfRemove(s[1..], c);
      var head := if s[0] == c then [] else [s[0]];
      DigitsOfAppend(head, Remove(s[1..], c));
      if head != [] {
        assert head[1..] == [];
      }
    }
  }

  lemma {:induction false} DigitsOfReplace(s: string, c: char, d: char)
    requires !IsDigit(c) && !IsDigit(d)
    ensures DigitsOf(Replace(s, c, d)) == DigitsOf(s)
  {
    if s != [] {
      DigitsOfReplace(s[1..], c, d);
      assert Replace(s, c, d)[1..] == Replace(s[1..], c, d);
    }
  }

  lemma {:induction false} DigitsOfAppend(a: string, b: string)
    ensures DigitsOf(a + b) == DigitsOf(a) + DigitsOf(b)
  {
    if a != [] {
      assert (a + b)[1..] == a[1..] + b;
      DigitsOfAppend(a[1..], b);
    } else {
      assert a + b == b;
    }
  }

  /** Every branch of the separator logic keeps the digits, in order: only separators move or vanish. */
  lemma NormalizeKeepsDigits(cleaned: string)
    ensures DigitsOf(NormalizeSeparators(cleaned)) == DigitsOf(cleaned)
  {
    DigitsOfRemove(cleaned, ',');
    DigitsOfRemove(cleaned, '.');
    DigitsOfReplace(Remove(cleaned, '.'), ',', '.');
    DigitsOfReplace(cleaned, ',', '.');
  }

  /** "1,234.56": the comma comes first, so every comma is deleted and the dots stay. */
  lemma NormalizeCommaFirst(cleaned: string)
    requires ',' in cleaned && '.' in cleaned && IndexOf(cleaned, ',') < IndexOf(cleaned, '.')
    ensures var r := NormalizeSeparators(cleaned);
      && ',' !in r
      && |r| == |cleaned| - multiset(cleaned)[',']
      && forall x :: x != ',' ==> multiset(r)[x] == multiset(cleaned)[x]
  {
    RemoveLength(cleaned, ',');
    RemoveCounts(cleaned, ',');
  }

  /** "1.234,56": the dot comes first, so every dot is deleted and each comma becomes the decimal dot. */
  lemma NormalizeDotFirst(cleaned: string)
    requires ',' in cleaned && '.' in cleaned && IndexOf(cleaned, '.') < IndexOf(cleaned, ',')
    ensures var r := NormalizeSeparators(cleaned);
      && ',' !in r
      && |r| == |cleaned| - multiset(cleaned)['.']
      && multiset(r)['.'] == multiset(cleaned)[',']
  {
    var noDots := Remove(cleaned, '.');
    var r := Replace(noDots, ',', '.');
    assert |noDots| == |multiset(noDots)|;
    ReplaceCounts(noDots, ',', '.');
    RemoveLength(cleaned, '.');
    RemoveCounts(cleaned, '.');
  }

  lemma {:induction false} RemoveLength(s: string, c: char)
    ensures |Remove(s, c)| == |s| - multiset(s)[c]
  {
    if s != [] {
      assert s == [s[0]] + s[1..];
      RemoveLength(s[1..], c);
    }
  }

  lemma {:induction false} ReplaceCounts(s: string, c: char, d: char)
    requires c != d && multiset(s)[d] == 0
    ensures multiset(Replace(s, c, d))[d] == multiset(s)[c]
  {
    if s != [] {
      assert s == [s[0]] + s[1..];
      var r := Replace(s, c, d);
      assert r == [r[0]] + r[1..];
      assert r[1..] == Replace(s[1..], c, d);
      ReplaceCounts(s[1..], c, d);
    }
  }

  /** Without a comma the text goes through both separator routines unchanged. */
  lemma NoCommaUnchanged(cleaned: string)
    requires ',' !in cleaned
    ensures NormalizeSeparators(cleaned) == cleaned && CommaAsDecimal(cleaned) == cleaned
  {
  }

  /** Without a dot both routines agree: each comma becomes a dot. */
  lemma NoDotRoutinesAgree(cleaned: string)
    requires '.' !in cleaned
    ensures NormalizeSeparators(cleaned) == CommaAsDecimal(cleaned)
  {
  }

  // ---------------------------------------------------------------------------
  // float(...)
  // ---------------------------------------------------------------------------

  function Pow10(n: nat): (r: nat)
    ensures r >= 1
  {
    if n == 0 then 1 else 10 * Pow10(n - 1)
  }

  /** Digits, optionally with a fractional part after one dot; at least one digit overall. */
  function ParseUnsignedDecimal(b: string): Option<real> {
    if '.' in b then
      var k := IndexOf(b, '.');
      DecimalValue(b[..k], b[k + 1..])
    else if IsDigitGroups(b) then Some(GroupsValue(b) as real)
    else None
  }

  /** The value of `whole.frac`, where either part may be empty but not both. */
  function DecimalValue(whole: string, frac: string): Option<real> {
    if (whole == [] || IsDigitGroups(whole)) && (frac == [] || IsDigitGroups(frac)) && (whole != [] || frac != []) then
      Some(GroupsValue(whole) as real + GroupsValue(frac) as real / Pow10(|Remove(frac, '_')|) as real)
    else None
  }

  /**
   * `float(text)` for decimal notation: surrounding whitespace, an optional
   * sign, digit groups with an optional fractional part. None where Python
   * raises ValueError, which it does for any text holding a comma.
   */
  function ParseFloat(text: string): (r: Option<real>)
    ensures r.Some? ==> ',' !in text
  {
    SignedNoComma(Strip(text));
    StripKeepsComma(text);
    ParseSignedFloat(Strip(text))
  }

  /** A comma is not whitespace, so stripping keeps it. */
  lemma StripKeepsComma(s: string)
    ensures ',' in s ==> ',' in Strip(s)
  {
    if ',' in s {
      var k := IndexOf(s, ',');
      var i := StripSlice(s);
      var t := Strip(s);
      assert !IsSpace(s[k]);
      assert i <= k < i + |t|;
      assert t[k - i] == s[k];
    }
  }

  lemma GroupsNoComma(x: string)
    requires x == [] || IsDigitGroups(x)
    ensures ',' !in x
  {
    forall k | 0 <= k < |x| ensures x[k] != ',' {
    }
  }

  lemma SignedNoComma(t: string)
    ensures ParseSignedFloat(t).Some? ==> ',' !in t
  {
    var signed := |t| > 0 && (t[0] == '+' || t[0] == '-');
    var body := if signed then t[1..] else t;
    UnsignedNoComma(body);
    if signed && ',' !in body {
      forall i | 0 <= i < |t| ensures t[i] != ',' {
        if i > 0 {
          assert t[i] == body[i - 1];
        }
      }
    }
  }

  lemma UnsignedNoComma(b: string)
    ensures ParseUnsignedDecimal(b).Some? ==> ',' !in b
  {
    if ParseUnsignedDecimal(b).Some? {
      if '.' in b {
        var k := IndexOf(b, '.');
        DecimalAccepts(b[..k], b[k + 1..]);
        GroupsNoComma(b[..k]);
        GroupsNoComma(b[k + 1..]);
        AroundDotNoComma(b, k);
      } else {
        GroupsNoComma(b);
      }
    }
  }

  lemma DecimalAccepts(whole: string, frac: string)
    requires DecimalValue(whole, frac).Some?
    ensures (whole == [] || IsDigitGroups(whole)) && (frac == [] || IsDigitGroups(frac))
  {
  }

  lemma AroundDotNoComma(b: string, k: nat)
    requires k < |b| && b[k] == '.' && ',' !in b[..k] && ',' !in b[k + 1..]
    ensures ',' !in b
  {
    forall i | 0 <= i < |b| ensures b[i] != ',' {
      if i < k {
        assert b[i] == b[..k][i];
      } else if i > k {
        assert b[i] == b[k + 1..][i - k - 1];
      }
    }
  }


  /** `float` on text that has already been stripped. */
  function ParseSignedFloat(t: string): Option<real> {
    var signed := |t| > 0 && (t[0] == '+' || t[0] == '-');
    var body := if signed then t[1..] else t;
    match ParseUnsignedDecimal(body)
    case None => None
    case Some(v) => Some(if signed && t[0] == '-' then -v else v)
  }

  /** On stripped text without a dot `float` and `int` agree. */
  lemma SignedFloatOfInteger(t: string)
    requires '.' !in t
    ensures ParseSignedFloat(t) == match ParseSigned(t) case Some(n) => Some(n as real) case None => None
  {
    if |t| > 0 && (t[0] == '+' || t[0] == '-') {
      assert '.' !in t[1..] by {
        forall k | 0 <= k < |t| - 1 ensures t[1..][k] != '.' {
          assert t[1..][k] == t[k + 1];
        }
      }
    }
  }

  /** On text without a dot `float` and `int` agree. */
  lemma ParseFloatOfInteger(text: string)
    requires '.' !in text
    ensures ParseFloat(text) == match ParseInt(text) case Some(n) => Some(n as real) case None => None
  {
    var t := Strip(text);
    var i := StripSlice(text);
    assert '.' !in t by {
      forall k | 0 <= k < |t| ensures t[k] != '.' {
        assert t[k] == text[i + k];
      }
    }
    SignedFloatOfInteger(t);
  }

  /** Amounts in cents written as euros with two decimals and a dot. */
  function CentsText(cents: nat, sep: char): string {
    NatToString(cents / 100) + [sep, DigitChar(cents / 10 % 10), DigitChar(cents % 10)]
  }

  lemma TwoDigitsValue(cents: nat)
    ensures var frac := [DigitChar(cents / 10 % 10), DigitChar(cents % 10)];
      IsDigitGroups(frac) && GroupsValue(frac) == cents % 100 && Remove(frac, '_') == frac
  {
    TwoDigits(DigitChar(cents / 10 % 10), DigitChar(cents % 10));
    TensAndUnits(cents);
  }

  lemma TwoDigits(x: char, y: char)
    requires IsDigit(x) && IsDigit(y)
    ensures IsDigitGroups([x, y]) && GroupsValue([x, y]) == DigitValue(x) * 10 + DigitValue(y)
    ensures Remove([x, y], '_') == [x, y]
  {
    var frac := [x, y];
    assert frac[..1] == [x];
    assert frac[..1][..0] == [];
    assert GroupsValue(frac[..1]) == DigitValue(x);
    assert '_' !in frac;
  }

  lemma TensAndUnits(n: nat)
    ensures (n / 10 % 10) * 10 + n % 10 == n % 100
  {
    var q, r := n / 100, n % 100;
    assert n == 100 * q + r;
    assert n / 10 == 10 * q + r / 10;
    assert n % 10 == r % 10;
  }

  lemma NoDotInDigits(s: string)
    requires forall k :: 0 <= k < |s| ==> IsDigit(s[k])
    ensures '.' !in s && ',' !in s && ' ' !in s && '€' !in s
  {
  }

  /** A dot between a digit string and digit groups splits into the whole and the fractional part. */
  lemma DecimalParts(whole: string, frac: string)
    requires |whole| > 0 && forall k :: 0 <= k < |whole| ==> IsDigit(whole[k])
    ensures ParseUnsignedDecimal(whole + ['.'] + frac) == DecimalValue(whole, frac)
  {
    var s := whole + ['.'] + frac;
    NoDotInDigits(whole);
    assert s[|whole|] == '.';
    assert IndexOf(s, '.') == |whole| by {
      assert forall k :: 0 <= k < |whole| ==> s[k] == whole[k];
    }
    assert s[..|whole|] == whole;
    assert s[|whole| + 1..] == frac;
  }

  /** Without the sign and the whitespace: the digits, the dot and two decimals read back as the amount. */
  lemma UnsignedCents(cents: nat)
    ensures ParseUnsignedDecimal(CentsText(cents, '.')) == Some(cents as real / 100.0)
  {
    var whole := NatToString(cents / 100);
    var frac := [DigitChar(cents / 10 % 10), DigitChar(cents % 10)];
    assert CentsText(cents, '.') == whole + ['.'] + frac;
    DecimalParts(whole, frac);
    CentsValue(cents, whole, frac);
  }

  lemma CentsValue(cents: nat, whole: string, frac: string)
    requires whole == NatToString(cents / 100)
    requires frac == [DigitChar(cents / 10 % 10), DigitChar(cents % 10)]
    ensures DecimalValue(whole, frac) == Some(cents as real / 100.0)
  {
    TwoDigitsValue(cents);
    NatToStringValue(cents / 100);
    assert IsDigitGroups(whole);
    assert Pow10(|Remove(frac, '_')|) == 100 by {
      assert |frac| == 2;
    }
    CentsSplit(cents);
  }

  lemma CentsSplit(cents: nat)
    ensures (cents / 100) as real + (cents % 100) as real / 100 as real == cents as real / 100.0
  {
    assert (cents / 100) * 100 + cents % 100 == cents;
  }

  /** Text starting with a digit carries no sign. */
  lemma UnsignedFloat(t: string)
    requires |t| > 0 && IsDigit(t[0])
    ensures ParseSignedFloat(t) == ParseUnsignedDecimal(t)
  {
  }

  /** Reading back an amount written with two decimals gives that amount exactly. */
  lemma ParseFloatCents(cents: nat)
    ensures ParseFloat(CentsText(cents, '.')) == Some(cents as real / 100.0)
  {
    var s := CentsText(cents, '.');
    CentsTextEnds(cents, s);
    DigitEnds(s);
    UnsignedCents(cents);
  }

  /** Text that starts and ends with a digit reads as unsigned decimal text. */
  lemma DigitEnds(s: string)
    requires |s| > 0 && IsDigit(s[0]) && IsDigit(s[|s| - 1])
    ensures ParseFloat(s) == ParseUnsignedDecimal(s)
  {
    StripNoSpaceEnds(s);
    UnsignedFloat(s);
  }

  /** The written amount starts and ends with a digit. */
  lemma CentsTextEnds(cents: nat, s: string)
    requires s == CentsText(cents, '.')
    ensures |s| > 0 && IsDigit(s[0]) && IsDigit(s[|s| - 1])
  {
    var whole := NatToString(cents / 100);
    assert s[0] == whole[0];
  }

  // ---------------------------------------------------------------------------
  // extract_balance_from_page and get_bankroll_from_balance
  // ---------------------------------------------------------------------------

  /**
   * `extract_balance_from_page` after the page lookup: `element` is the
   * balance element's text, None when the element is missing or has no text.
   * A text without a comma is read by `float` straight after the cleanup.
   */
  function ExtractBalance(element: Option<string>): (v: real)
    ensures element.Some? && ',' !in element.value ==>
      v == match ParseFloat(CleanBalanceText(element.value)) case Some(x) => x case None => FALLBACK_BALANCE
  {
    match element
    case None => FALLBACK_BALANCE
    case Some(text) =>
      CleanKeepsNoComma(text);
      match ParseFloat(CommaAsDecimal(CleanBalanceText(text)))
      case Some(v) => v
      case None => FALLBACK_BALANCE
  }

  /** A balance shown as "145,70 €" (euros, decimal comma, space, euro sign) is read exactly. */
  lemma ExtractBalanceEuroText(cents: nat)
    ensures ExtractBalance(Some(CentsText(cents, ',') + " €")) == cents as real / 100.0
  {
    CleanEuroText(cents);
    CommaToDot(cents);
    ParseFloatCents(cents);
  }

  /** Cleaning drops the space and the euro sign after the amount and nothing else. */
  lemma CleanEuroText(cents: nat)
    ensures CleanBalanceText(CentsText(cents, ',') + " €") == CentsText(cents, ',')
  {
    var plain := CentsText(cents, ',');
    var whole := NatToString(cents / 100);
    NoDotInDigits(whole);
    assert '€' !in plain && ' ' !in plain;
    assert plain[0] == whole[0];
    CleanSuffix(plain);
  }

  lemma DropSuffix(plain: string)
    requires '€' !in plain && ' ' !in plain
    ensures Remove(Remove(plain + " €", '€'), ' ') == plain
  {
    RemoveAppend(plain, " €", '€');
    assert Remove(" €", '€') == " " by {
      assert " €"[1..] == "€";
      assert "€"[1..] == [];
    }
    RemoveAppend(plain, " ", ' ');
    assert Remove(" ", ' ') == [] by {
      assert " "[1..] == [];
    }
  }

  /** The decimal comma of the written amount is its only comma, and it becomes a dot. */
  lemma CommaToDot(cents: nat)
    ensures CommaAsDecimal(CentsText(cents, ',')) == CentsText(cents, '.')
  {
    var whole := NatToString(cents / 100);
    NoDotInDigits(whole);
    SeparatorToDot(whole, DigitChar(cents / 10 % 10), DigitChar(cents % 10));
  }

  lemma SeparatorToDot(whole: string, x: char, y: char)
    requires ',' !in whole && x != ',' && y != ','
    ensures CommaAsDecimal(whole + [',', x, y]) == whole + ['.', x, y]
  {
    var a, b := whole + [',', x, y], whole + ['.', x, y];
    var r := CommaAsDecimal(a);
    forall i | 0 <= i < |b| ensures r[i] == b[i] {
      if i < |whole| {
        assert a[i] == whole[i] == b[i];
      }
    }
  }

  /** A missing element, or a text `float` rejects, gives the fallback balance of 50. */
  lemma ExtractBalanceFallback(text: string)
    requires ParseFloat(CommaAsDecimal(CleanBalanceText(text))).None?
    ensures ExtractBalance(None) == 50.0 && ExtractBalance(Some(text)) == 50.0
  {
  }

  /** The cleanup brings no comma in, so the comma branch leaves comma-free text alone. */
  lemma CleanKeepsNoComma(text: string)
    ensures ',' !in text ==> CommaAsDecimal(CleanBalanceText(text)) == CleanBalanceText(text)
  {
    CleanBalanceTextClean(text);
  }

  /**
   * `extract_balance_from_page` with the separator rule of the parsing test:
   * a leading thousands separator is dropped before `float`. On text without
   * a dot the rule changes nothing, so both readings agree.
   */
  function ExtractBalanceNormalized(element: Option<string>): (v: real)
    ensures element.Some? && '.' !in element.value ==> v == ExtractBalance(element)
  {
    match element
    case None => FALLBACK_BALANCE
    case Some(text) =>
      NoDotAgrees(text);
      match ParseFloat(NormalizeSeparators(CleanBalanceText(text)))
      case Some(v) => v
      case None => FALLBACK_BALANCE
  }

  predicate AllDigits(s: string) {
    |s| > 0 && forall k :: 0 <= k < |s| ==> IsDigit(s[k])
  }

  /** An amount with a thousands comma, as in "1,234.56". */
  function ThousandsText(whole: string, group: string, frac: string): string {
    whole + [','] + group + ['.'] + frac
  }

  /**
   * As written, every amount shown with a thousands comma ("1,234.56 €")
   * becomes text with two dots ("1.234.56"), which `float` rejects, so the
   * balance falls back to 50.
   */
  lemma ExtractBalanceThousandsFallsBack(whole: string, group: string, frac: string)
    requires AllDigits(whole) && AllDigits(group) && AllDigits(frac)
    ensures ExtractBalance(Some(ThousandsText(whole, group, frac) + " €")) == 50.0
  {
    var s := ThousandsText(whole, group, frac);
    var dotted := whole + ['.'] + group + ['.'] + frac;
    ThousandsEnds(whole, group, frac);
    CleanSuffix(s);
    ThousandsCommaAsDecimal(whole, group, frac);
    RejectTwoDots(whole, group, frac);
    ReadAsWritten(s + " €", s, dotted);
  }

  /** The three steps of `extract_balance_from_page` once the element's text is known. */
  lemma ReadAsWritten(text: string, cleaned: string, converted: string)
    requires CleanBalanceText(text) == cleaned && CommaAsDecimal(cleaned) == converted
    ensures ExtractBalance(Some(text)) == match ParseFloat(converted) case Some(v) => v case None => 50.0
  {
  }

  /** The same steps with the separator rule in place of the comma replacement. */
  lemma ReadNormalized(text: string, cleaned: string, converted: string)
    requires CleanBalanceText(text) == cleaned && NormalizeSeparators(cleaned) == converted
    ensures ExtractBalanceNormalized(Some(text)) == match ParseFloat(converted) case Some(v) => v case None => 50.0
  {
  }

  lemma ThousandsEnds(whole: string, group: string, frac: string)
    requires AllDigits(whole) && AllDigits(group) && AllDigits(frac)
    ensures var s := ThousandsText(whole, group, frac);
      |s| > 0 && IsDigit(s[0]) && IsDigit(s[|s| - 1]) && '€' !in s && ' ' !in s
  {
    var s := ThousandsText(whole, group, frac);
    assert s[0] == whole[0];
    NoDotInDigits(whole);
    NoDotInDigits(group);
    NoDotInDigits(frac);
  }

  lemma ThousandsIndices(whole: string, group: string, frac: string)
    requires AllDigits(whole) && AllDigits(group) && AllDigits(frac)
    ensures var s := ThousandsText(whole, group, frac);
      ',' in s && '.' in s && IndexOf(s, ',') == |whole| && IndexOf(s, '.') == |whole| + 1 + |group|
  {
    var s := ThousandsText(whole, group, frac);
    assert forall k :: 0 <= k < |whole| ==> s[k] == whole[k];
    assert forall k :: 0 <= k < |group| ==> s[|whole| + 1 + k] == group[k];
    assert s[|whole|] == ',' && s[|whole| + 1 + |group|] == '.';
  }

  /** Cleaning removes a trailing " €" from text that starts and ends with a digit, and nothing else. */
  lemma CleanSuffix(plain: string)
    requires |plain| > 0 && IsDigit(plain[0]) && IsDigit(plain[|plain| - 1]) && '€' !in plain && ' ' !in plain
    ensures CleanBalanceText(plain + " €") == plain
  {
    DropSuffix(plain);
    StripNoSpaceEnds(plain);
  }

  lemma ThousandsCommaAsDecimal(whole: string, group: string, frac: string)
    requires AllDigits(whole) && AllDigits(group) && AllDigits(frac)
    ensures CommaAsDecimal(ThousandsText(whole, group, frac)) == whole + ['.'] + group + ['.'] + frac
  {
    var s := ThousandsText(whole, group, frac);
    var r := CommaAsDecimal(s);
    var d := whole + ['.'] + group + ['.'] + frac;
    assert |r| == |d|;
    forall i | 0 <= i < |d| ensures r[i] == d[i] {
      if i < |whole| {
        assert s[i] == whole[i] == d[i];
      } else if |whole| < i < |whole| + 1 + |group| {
        assert s[i] == group[i - |whole| - 1] == d[i];
      } else if i > |whole| + 1 + |group| {
        assert s[i] == frac[i - |whole| - 2 - |group|] == d[i];
      }
    }
  }

  lemma RejectTwoDots(whole: string, group: string, frac: string)
    requires AllDigits(whole) && AllDigits(group) && AllDigits(frac)
    ensures ParseFloat(whole + ['.'] + group + ['.'] + frac).None?
  {
    var d := whole + ['.'] + group + ['.'] + frac;
    var tail := group + ['.'] + frac;
    assert d == whole + ['.'] + tail;
    assert d[0] == whole[0];
    assert d[|d| - 1] == frac[|frac| - 1];
    DigitEnds(d);
    DecimalParts(whole, tail);
    assert tail[|group|] == '.';
    NotDigitGroups(tail, |group|);
  }

  /** Digit groups contain nothing but digits and underscores. */
  lemma NotDigitGroups(t: string, k: nat)
    requires k < |t| && !IsDigit(t[k]) && t[k] != '_'
    ensures !IsDigitGroups(t) && DecimalValue([], t).None?
    ensures forall w :: DecimalValue(w, t).None?
  {
  }

  /** With the separator rule the thousands comma is dropped and the amount reads in full. */
  lemma ExtractNormalizedThousands(whole: string, group: string, frac: string)
    requires AllDigits(whole) && AllDigits(group) && AllDigits(frac)
    ensures ExtractBalanceNormalized(Some(ThousandsText(whole, group, frac) + " €"))
      == GroupsValue(whole + group) as real + GroupsValue(frac) as real / Pow10(|frac|) as real
  {
    var s := ThousandsText(whole, group, frac);
    var plain := whole + group + ['.'] + frac;
    ThousandsEnds(whole, group, frac);
    ThousandsNormalized(whole, group, frac);
    ReadDecimal(whole + group, frac);
    NormalizedReading(s, plain);
  }

  /** A clean amount followed by " €" is read as whatever its normalized text parses to. */
  lemma NormalizedReading(s: string, plain: string)
    requires |s| > 0 && IsDigit(s[0]) && IsDigit(s[|s| - 1]) && '€' !in s && ' ' !in s
    requires NormalizeSeparators(s) == plain
    ensures ExtractBalanceNormalized(Some(s + " €")) == match ParseFloat(plain) case Some(v) => v case None => 50.0
  {
    CleanSuffix(s);
    ReadNormalized(s + " €", s, plain);
  }

  lemma ThousandsNormalized(whole: string, group: string, frac: string)
    requires AllDigits(whole) && AllDigits(group) && AllDigits(frac)
    ensures NormalizeSeparators(ThousandsText(whole, group, frac)) == whole + group + ['.'] + frac
  {
    ThousandsIndices(whole, group, frac);
    DropThousandsComma(whole, group, frac);
  }

  lemma DropThousandsComma(whole: string, group: string, frac: string)
    requires AllDigits(whole) && AllDigits(group) && AllDigits(frac)
    ensures Remove(ThousandsText(whole, group, frac), ',') == whole + group + ['.'] + frac
  {
    var left, rest := whole + [','], group + ['.'] + frac;
    assert ThousandsText(whole, group, frac) == left + rest by {
      AppendAssoc(left, group + ['.'], frac);
      AppendAssoc(left, group, ['.']);
    }
    NoCommaInRest(group, frac);
    RemoveAppend(left, rest, ',');
    DropTrailingComma(whole);
    AppendAssoc(whole, group + ['.'], frac);
    AppendAssoc(whole, group, ['.']);
  }

  lemma NoCommaInRest(group: string, frac: string)
    requires AllDigits(group) && AllDigits(frac)
    ensures Remove(group + ['.'] + frac, ',') == group + ['.'] + frac
  {
    NoDotInDigits(group);
    NoDotInDigits(frac);
    assert ',' !in group + ['.'] + frac;
  }

  lemma DropTrailingComma(whole: string)
    requires AllDigits(whole)
    ensures Remove(whole + [','], ',') == whole
  {
    NoDotInDigits(whole);
    RemoveAppend(whole, [','], ',');
    assert Remove([','], ',') == [] by {
      assert [','][1..] == [];
    }
  }

  /** An amount with a thousands dot and a decimal comma, as in "1.234,56". */
  function DotThousandsText(whole: string, group: string, frac: string): string {
    whole + ['.'] + group + [','] + frac
  }

  /** With the separator rule the thousands dot is dropped, the decimal comma becomes the dot, and the amount reads in full. */
  lemma ExtractNormalizedDotThousands(whole: string, group: string, frac: string)
    requires AllDigits(whole) && AllDigits(group) && AllDigits(frac)
    ensures ExtractBalanceNormalized(Some(DotThousandsText(whole, group, frac) + " €"))
      == GroupsValue(whole + group) as real + GroupsValue(frac) as real / Pow10(|frac|) as real
  {
    var s := DotThousandsText(whole, group, frac);
    var plain := whole + group + ['.'] + frac;
    DotThousandsEnds(whole, group, frac);
    DotThousandsNormalized(whole, group, frac);
    ReadDecimal(whole + group, frac);
    NormalizedReading(s, plain);
  }

  lemma DotThousandsEnds(whole: string, group: string, frac: string)
    requires AllDigits(whole) && AllDigits(group) && AllDigits(frac)
    ensures var s := DotThousandsText(whole, group, frac);
      |s| > 0 && IsDigit(s[0]) && IsDigit(s[|s| - 1]) && '€' !in s && ' ' !in s
  {
    var s := DotThousandsText(whole, group, frac);
    assert s[0] == whole[0];
    NoDotInDigits(whole);
    NoDotInDigits(group);
    NoDotInDigits(frac);
  }

  lemma DotThousandsIndices(whole: string, group: string, frac: string)
    requires AllDigits(whole) && AllDigits(group) && AllDigits(frac)
    ensures var s := DotThousandsText(whole, group, frac);
      ',' in s && '.' in s && IndexOf(s, '.') == |whole| && IndexOf(s, ',') == |whole| + 1 + |group|
  {
    var s := DotThousandsText(whole, group, frac);
    NoDotInDigits(whole);
    NoDotInDigits(group);
    assert forall k :: 0 <= k < |whole| ==> s[k] == whole[k];
    assert forall k :: 0 <= k < |group| ==> s[|whole| + 1 + k] == group[k];
    assert s[|whole|] == '.' && s[|whole| + 1 + |group|] == ',';
  }

  lemma DotThousandsNormalized(whole: string, group: string, frac: string)
    requires AllDigits(whole) && AllDigits(group) && AllDigits(frac)
    ensures NormalizeSeparators(DotThousandsText(whole, group, frac)) == whole + group + ['.'] + frac
  {
    var s := DotThousandsText(whole, group, frac);
    DotThousandsIndices(whole, group, frac);
    assert Remove(s, '.') == whole + group + [','] + frac by {
      var rest := group + [','] + frac;
      AppendAssoc(whole + ['.'], group + [','], frac);
      AppendAssoc(whole + ['.'], group, [',']);
      NoDotInDigits(group);
      NoDotInDigits(frac);
      assert '.' !in rest;
      DropLeadingSeparator(whole, '.', rest);
      AppendAssoc(whole, group + [','], frac);
      AppendAssoc(whole, group, [',']);
    }
    NoDotInDigits(whole);
    NoDotInDigits(group);
    NoDotInDigits(frac);
    ReplaceLoneComma(whole + group, frac);
  }

  /** Deleting a separator that follows the digits and occurs nowhere else leaves the two sides joined. */
  lemma DropLeadingSeparator(whole: string, sep: char, rest: string)
    requires AllDigits(whole) && !IsDigit(sep) && sep !in rest
    ensures Remove(whole + [sep] + rest, sep) == whole + rest
  {
    assert sep !in whole;
    RemoveAppend(whole + [sep], rest, sep);
    RemoveAppend(whole, [sep], sep);
    assert Remove([sep], sep) == [] by {
      assert [sep][1..] == [];
    }
    assert whole + [] == whole;
  }

  /** The only comma of a text becomes a dot. */
  lemma ReplaceLoneComma(head: string, tail: string)
    requires ',' !in head && ',' !in tail
    ensures Replace(head + [','] + tail, ',', '.') == head + ['.'] + tail
  {
    var a, b := head + [','] + tail, head + ['.'] + tail;
    var r := Replace(a, ',', '.');
    forall i | 0 <= i < |b| ensures r[i] == b[i] {
      if i < |head| {
        assert a[i] == head[i] == b[i];
      } else if i > |head| {
        assert a[i] == tail[i - |head| - 1] == b[i];
      }
    }
  }

  lemma ReadDecimal(whole: string, frac: string)
    requires AllDigits(whole) && AllDigits(frac)
    ensures ParseFloat(whole + ['.'] + frac)
      == Some(GroupsValue(whole) as real + GroupsValue(frac) as real / Pow10(|frac|) as real)
  {
    var d := whole + ['.'] + frac;
    assert d[0] == whole[0];
    assert d[|d| - 1] == frac[|frac| - 1];
    DigitEnds(d);
    DecimalParts(whole, frac);
    DigitsDecimalValue(whole, frac);
  }

  lemma DigitsDecimalValue(whole: string, frac: string)
    requires AllDigits(whole) && AllDigits(frac)
    ensures DecimalValue(whole, frac)
      == Some(GroupsValue(whole) as real + GroupsValue(frac) as real / Pow10(|frac|) as real)
  {
    assert IsDigitGroups(whole) && IsDigitGroups(frac);
    assert '_' !in frac;
  }

  /** The cleanup brings no dot in, so on text without one both separator routines agree. */
  lemma NoDotAgrees(text: string)
    ensures '.' !in text ==> NormalizeSeparators(CleanBalanceText(text)) == CommaAsDecimal(CleanBalanceText(text))
  {
    if '.' !in text {
      CleanBalanceTextClean(text);
      NoDotRoutinesAgree(CleanBalanceText(text));
    }
  }

  /** Python's `round`: the nearest integer, ties going to the even one. */
  function RoundHalfEven(x: real): (r: int)
    ensures -0.5 <= r as real - x <= 0.5
    ensures (r as real - x == 0.5 || x - r as real == 0.5) ==> r % 2 == 0
  {
    var f := x.Floor;
    var d := x - f as real;
    if d < 0.5 then f
    else if d > 0.5 then f + 1
    else if f % 2 == 0 then f else f + 1
  }

  /** `get_bankroll_from_balance`: half the balance, rounded, at least 1. */
  function Bankroll(balance: real): (r: int)
    ensures r >= 1
  {
    var half := RoundHalfEven(balance / 2.0);
    if half > 1 then half else 1
  }

  /** From a balance of 2 on, the bankroll is within half a unit of half the balance; below 1 it is 1. */
  lemma BankrollBounds(balance: real)
    ensures balance >= 2.0 ==> -0.5 <= Bankroll(balance) as real - balance / 2.0 <= 0.5
    ensures balance < 1.0 ==> Bankroll(balance) == 1
  {
  }

  /** Ties round to even: a balance of 5 gives 2 and one of 7 gives 4. */
  lemma BankrollTies()
    ensures Bankroll(5.0) == 2 && Bankroll(7.0) == 4 && Bankroll(145.7) == 73 && Bankroll(0.0) == 1
  {
  }
}
