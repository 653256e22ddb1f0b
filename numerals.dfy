/**
  Decimal numerals as Python's `float()` reads them, their exact values, and
  the fixed-point texts the format spec `,.2f` and `str(int(f))` produce.
  Values are exact: no binary rounding.
*/
module Numerals {
  import opened Wrappers
  import opened Strings

  predicate IsDigit(c: char) {
    '0' <= c <= '9'
  }

  predicate AllDigits(s: string) {
    forall i :: 0 <= i < |s| ==> IsDigit(s[i])
  }

  function DigitValue(c: char): nat
    requires IsDigit(c)
  {
    c as int - '0' as int
  }

  function DigitChar(d: nat): (c: char)
    requires d < 10
    ensures IsDigit(c) && DigitValue(c) == d
  {
    ('0' as int + d) as char
  }

  /** The number a digit string denotes in base 10; the empty string denotes 0. */
  function DigitsValue(s: string): nat
    requires AllDigits(s)
    decreases |s|
  {
    if s == [] then 0 else DigitsValue(s[..|s| - 1]) * 10 + DigitValue(s[|s| - 1])
  }

  function Pow10(k: nat): (p: nat)
    ensures p > 0
  {
    if k == 0 then 1 else 10 * Pow10(k - 1)
  }

  /** `str(n)` for a natural number: its decimal digits, with no leading zero. */
  function NatText(n: nat): (s: string)
    ensures AllDigits(s) && s != []
    ensures DigitsValue(s) == n
    ensures s[0] == '0' ==> n == 0
    ensures n > 0 ==> s[0] != '0'
  {
    if n < 10 then [DigitChar(n)]
    else
      var p := NatText(n / 10);
      var s := p + [DigitChar(n % 10)];
      assert s[..|s| - 1] == p;
      s
  }

  /** A digit string without a leading zero is the text of the number it denotes. */
  lemma {:induction false} NatTextOfDigits(s: string)
    requires AllDigits(s) && s != [] && (s[0] == '0' ==> |s| == 1)
    ensures NatText(DigitsValue(s)) == s
  {
    if |s| > 1 {
      var p := s[..|s| - 1];
      assert p[0] == s[0];
      NatTextOfDigits(p);
      DigitsValueZero(p);
      var n := DigitsValue(s);
      assert n / 10 == DigitsValue(p) && n % 10 == DigitValue(s[|s| - 1]);
      assert s == p + [s[|s| - 1]];
    }
  }

  lemma {:induction false} DigitsValueBound(s: string)
    requires AllDigits(s)
    ensures DigitsValue(s) < Pow10(|s|)
    decreases |s|
  {
    if s != [] {
      var p := s[..|s| - 1];
      DigitsValueBound(p);
      assert DigitsValue(p) * 10 <= (Pow10(|p|) - 1) * 10;
    }
  }

  /** A digit string denotes zero exactly when every digit is `0`. */
  lemma {:induction false} DigitsValueZero(s: string)
    requires AllDigits(s)
    ensures DigitsValue(s) == 0 <==> forall i :: 0 <= i < |s| ==> s[i] == '0'
    decreases |s|
  {
    if s != [] {
      var p := s[..|s| - 1];
      DigitsValueZero(p);
      assert forall i :: 0 <= i < |p| ==> p[i] == s[i];
    }
  }

  /** A finite numeral as `float()` reads it: a sign, whole digits and fraction digits. */
  datatype Decimal = Decimal(negative: bool, whole: string, frac: string)

  /** At least one digit, and nothing but digits on either side of the point. */
  predicate WellFormed(d: Decimal) {
    AllDigits(d.whole) && AllDigits(d.frac) && |d.whole| + |d.frac| > 0
  }

  /** What `float()` can return: a finite number, a signed infinity, or NaN. */
  datatype Float = Finite(d: Decimal) | Infinity(negative: bool) | NaN

  /** The absolute value of a numeral times `10^|frac|`: the digits read without the point. */
  function Scaled(d: Decimal): nat
    requires WellFormed(d)
  {
    DigitsValue(d.whole) * Pow10(|d.frac|) + DigitsValue(d.frac)
  }

  /** `float(text) >= 10.0`, compared exactly: a negative value (`-0.0` too) never qualifies. */
  predicate AtLeastTen(d: Decimal)
    requires WellFormed(d)
  {
    !d.negative && Scaled(d) >= 10 * Pow10(|d.frac|)
  }

  /** Only the whole part decides the comparison with ten. */
  lemma AtLeastTenByWhole(d: Decimal)
    requires WellFormed(d)
    ensures AtLeastTen(d) <==> !d.negative && DigitsValue(d.whole) >= 10
  {
    var w, p := DigitsValue(d.whole), Pow10(|d.frac|);
    DigitsValueBound(d.frac);
    if w >= 10 {
      assert w * p >= 10 * p;
    } else {
      assert w * p <= 9 * p;
    }
  }

  /** `float(s).is_integer()` for a finite numeral: no non-zero fraction digit. */
  predicate IsIntegral(d: Decimal) {
    forall i :: 0 <= i < |d.frac| ==> d.frac[i] == '0'
  }

  /** An integral numeral is its whole part scaled: the fraction contributes nothing. */
  lemma IntegralScaled(d: Decimal)
    requires WellFormed(d)
    ensures IsIntegral(d) <==> Scaled(d) == DigitsValue(d.whole) * Pow10(|d.frac|)
  {
    DigitsValueZero(d.frac);
  }

  /** The first position of `c` in `s`, if any. */
  function IndexOf(s: string, c: char): (r: Option<nat>)
    ensures r.Some? ==> r.value < |s| && s[r.value] == c && forall i :: 0 <= i < r.value ==> s[i] != c
    ensures r.None? ==> forall i :: 0 <= i < |s| ==> s[i] != c
  {
    if s == [] then None
    else if s[0] == c then Some(0)
    else match IndexOf(s[1..], c)
      case None => None
      case Some(k) => Some(k + 1)
  }

  /** Digits with at most one point and at least one digit, split at the point. */
  function ParseUnsigned(s: string): (r: Option<(string, string)>)
    ensures r.Some? ==> WellFormed(Decimal(false, r.value.0, r.value.1))
  {
    match IndexOf(s, '.')
    case None => if s != [] && AllDigits(s) then Some((s, "")) else None
    case Some(p) =>
      if AllDigits(s[..p]) && AllDigits(s[p + 1..]) && |s| > 1 then Some((s[..p], s[p + 1..])) else None
  }

  /**
    The whitespace `float()` skips around a numeral. Below U+007F it skips
    only the ASCII whitespace, so the separators U+001C to U+001F, which
    `str.isspace()` accepts, stay; every other whitespace character is
    turned into a blank first and skipped.
  */
  predicate IsFloatSpace(c: char) {
    IsSpace(c) && !('\U{1C}' <= c <= '\U{1F}')
  }

  predicate IsSeparator(c: char) {
    '\U{1C}' <= c <= '\U{1F}'
  }

  /** The text `float()` reads after dropping leading whitespace. */
  function FloatStripStart(s: string): (r: string)
    ensures |r| <= |s| && r == s[|s| - |r|..]
    ensures r == [] || !IsFloatSpace(r[0])
  {
    if s != [] && IsFloatSpace(s[0]) then
      var r := FloatStripStart(s[1..]);
      assert s[1..][|s| - 1 - |r|..] == s[|s| - |r|..];
      r
    else s
  }

  /** Only whitespace is dropped at the start. */
  lemma {:induction false} FloatStripStartSkips(s: string)
    ensures forall i :: 0 <= i < |s| - |FloatStripStart(s)| ==> IsFloatSpace(s[i])
  {
    if s != [] && IsFloatSpace(s[0]) {
      FloatStripStartSkips(s[1..]);
      assert forall i :: 1 <= i < |s| ==> s[1..][i - 1] == s[i];
    }
  }

  /** The text `float()` reads after dropping trailing whitespace. */
  function FloatStripEnd(s: string): (r: string)
    ensures |r| <= |s| && r == s[..|r|]
    ensures r == [] || !IsFloatSpace(r[|r| - 1])
  {
    if s != [] && IsFloatSpace(s[|s| - 1]) then FloatStripEnd(s[..|s| - 1]) else s
  }

  /** Only whitespace is dropped at the end. */
  lemma {:induction false} FloatStripEndSkips(s: string)
    ensures forall i :: |FloatStripEnd(s)| <= i < |s| ==> IsFloatSpace(s[i])
  {
    if s != [] && IsFloatSpace(s[|s| - 1]) {
      FloatStripEndSkips(s[..|s| - 1]);
    }
  }

  /**
    The text `float()` reads: `s` less the whitespace at both ends, a
    separator U+001C to U+001F included in the text.
  */
  function FloatStrip(s: string): (r: string)
    ensures r == [] || (!IsFloatSpace(r[0]) && !IsFloatSpace(r[|r| - 1]))
    ensures (s == [] || (!IsFloatSpace(s[0]) && !IsFloatSpace(s[|s| - 1]))) ==> r == s
    ensures IsTrimmed(s) ==> r == s
  {
    var t := FloatStripStart(s);
    var r := FloatStripEnd(t);
    assert r != [] ==> r[0] == t[0];
    r
  }

  /** A separator U+001C to U+001F is never stripped: it stays in the text `float()` reads. */
  lemma FloatStripKeepsSeparator(s: string, i: nat)
    requires i < |s| && IsSeparator(s[i])
    ensures exists j :: 0 <= j < |FloatStrip(s)| && FloatStrip(s)[j] == s[i]
  {
    var t := FloatStripStart(s);
    assert !IsFloatSpace(s[i]);
    assert i >= |s| - |t| by {
      FloatStripStartSkips(s);
    }
    var k := i - (|s| - |t|);
    assert t[k] == s[i];
    var r := FloatStripEnd(t);
    assert k < |r| by {
      FloatStripEndSkips(t);
    }
    assert r[k] == s[i];
    assert FloatStrip(s) == r;
  }

  /**
    `float(s)`: surrounding whitespace is ignored, a sign may lead, and
    `inf`, `infinity` and `nan` are read in any letter case. None stands for
    the ValueError Python raises.
  */
  function ParseFloat(s: string): (r: Option<Float>)
    ensures r.Some? && r.value.Finite? ==> WellFormed(r.value.d)
  {
    var t := FloatStrip(s);
    if t != [] && (t[0] == '+' || t[0] == '-') then ParseBody(t[0] == '-', t[1..]) else ParseBody(false, t)
  }

  /** What follows the sign: one of the special words, or digits with at most one point. */
  function ParseBody(negative: bool, body: string): (r: Option<Float>)
    ensures r.Some? && r.value.Finite? ==> WellFormed(r.value.d)
  {
    var word := Lower(body);
    if word == "inf" || word == "infinity" then Some(Infinity(negative))
    else if word == "nan" then Some(NaN)
    else match ParseUnsigned(body)
      case None => None
      case Some((w, f)) => Some(Finite(Decimal(negative, w, f)))
  }

  /** The plain text of a numeral: sign, whole digits, and the point only when fraction digits follow. */
  function Show(d: Decimal): string {
    (if d.negative then "-" else "") + d.whole + (if d.frac == [] then "" else "." + d.frac)
  }

  lemma ParseUnsignedShow(w: string, f: string)
    requires WellFormed(Decimal(false, w, f))
    ensures ParseUnsigned(w + (if f == [] then "" else "." + f)) == Some((w, f))
  {
    var b := w + (if f == [] then "" else "." + f);
    if f == [] {
      assert b == w;
    } else {
      assert b[|w|] == '.';
      assert forall i :: 0 <= i < |w| ==> b[i] == w[i];
      assert b[..|w|] == w && b[|w| + 1..] == f;
    }
  }

  /** Digits and a point are not the letters `inf`, `infinity` or `nan` spell. */
  lemma NotSpecialWord(b: string)
    requires b != [] && (IsDigit(b[0]) || b[0] == '.')
    ensures Lower(b) != "inf" && Lower(b) != "infinity" && Lower(b) != "nan"
  {
    assert Lower(b)[0] == b[0];
    assert "inf"[0] == 'i' && "infinity"[0] == 'i' && "nan"[0] == 'n';
  }

  lemma ShowIsTrimmed(d: Decimal)
    requires WellFormed(d)
    ensures IsTrimmed(Show(d))
  {
    var s := Show(d);
    assert IsDigit(s[|s| - 1]);
    assert IsDigit(s[0]) || s[0] == '.' || s[0] == '-';
  }

  /** Stripped text with no sign goes to `float()`'s body unchanged. */
  lemma ParseUnsignedText(s: string)
    requires IsTrimmed(s) && s != [] && s[0] != '+' && s[0] != '-'
    ensures ParseFloat(s) == ParseBody(false, s)
  {
    assert FloatStrip(s) == s;
  }

  lemma ParseSigned(negative: bool, b: string)
    requires b != [] && (IsDigit(b[0]) || b[0] == '.')
    requires IsTrimmed((if negative then "-" else "") + b)
    ensures ParseFloat((if negative then "-" else "") + b) == ParseBody(negative, b)
  {
    var s := (if negative then "-" else "") + b;
    assert FloatStrip(s) == s;
    if negative {
      assert s[0] == '-' && s[1..] == b;
    } else {
      assert s == b;
    }
  }

  lemma ParseBodyDigits(negative: bool, w: string, f: string)
    requires WellFormed(Decimal(false, w, f))
    ensures ParseBody(negative, w + (if f == [] then "" else "." + f)) == Some(Finite(Decimal(negative, w, f)))
  {
    var b := w + (if f == [] then "" else "." + f);
    assert b[0] == (if w != [] then w[0] else '.');
    NotSpecialWord(b);
    ParseUnsignedShow(w, f);
  }

  /** `float()` reads the plain text of a numeral back as that numeral. */
  lemma ParseShow(d: Decimal)
    requires WellFormed(d)
    ensures ParseFloat(Show(d)) == Some(Finite(d))
  {
    var b := d.whole + (if d.frac == [] then "" else "." + d.frac);
    assert Show(d) == (if d.negative then "-" else "") + b;
    ShowIsTrimmed(d);
    assert b[0] == (if d.whole != [] then d.whole[0] else '.');
    ParseSigned(d.negative, b);
    ParseBodyDigits(d.negative, d.whole, d.frac);
  }

  /** No special word and no numeral holds a separator U+001C to U+001F. */
  lemma ParseBodyRejectsSeparator(negative: bool, body: string, j: nat)
    requires j < |body| && IsSeparator(body[j])
    ensures ParseBody(negative, body) == None
  {
    var word := Lower(body);
    assert word[j] == body[j];
    assert word != "inf" && word != "infinity" && word != "nan";
    match IndexOf(body, '.')
    case None =>
      assert !IsDigit(body[j]);
    case Some(p) =>
      if j < p {
        assert body[..p][j] == body[j];
      } else {
        assert j > p && body[p + 1..][j - p - 1] == body[j];
      }
  }

  /**
    `float()` raises on any text that holds a separator U+001C to U+001F,
    wherever it stands: it is not skipped as whitespace at the ends.
  */
  lemma ParseFloatRejectsSeparator(s: string, i: nat)
    requires i < |s| && IsSeparator(s[i])
    ensures ParseFloat(s) == None
  {
    var t := FloatStrip(s);
    FloatStripKeepsSeparator(s, i);
    var j :| 0 <= j < |t| && t[j] == s[i];
    if t[0] == '+' || t[0] == '-' {
      assert j > 0 && t[1..][j - 1] == t[j];
      ParseBodyRejectsSeparator(t[0] == '-', t[1..], j - 1);
    } else {
      ParseBodyRejectsSeparator(false, t, j);
    }
  }

  /** `float("\x1c12")` raises: the leading separator is not skipped. */
  lemma SeparatorBeforeDigits()
    ensures ParseFloat("\U{1C}12") == None
  {
    ParseFloatRejectsSeparator("\U{1C}12", 0);
  }

  /** `str(int(f))` for an integral numeral (`-0.0` prints as `0`). */
  function IntText(d: Decimal): string
    requires WellFormed(d)
  {
    var n := DigitsValue(d.whole);
    (if d.negative && n != 0 then "-" else "") + NatText(n)
  }

  /**
    The integer text reads back as a numeral with no fraction whose whole part
    denotes the same number, and whose sign is kept unless the number is zero.
  */
  lemma IntTextReadsBack(d: Decimal)
    requires WellFormed(d)
    ensures var n := DigitsValue(d.whole);
      ParseFloat(IntText(d)) == Some(Finite(Decimal(d.negative && n != 0, NatText(n), "")))
  {
    var n := DigitsValue(d.whole);
    var e := Decimal(d.negative && n != 0, NatText(n), "");
    assert Show(e) == IntText(d);
    ParseShow(e);
  }

  /** The fraction digits padded with zeros to three places. */
  function Frac3(f: string): (p: string)
    requires AllDigits(f)
    ensures |p| == 3 && AllDigits(p)
  {
    (f + "000")[..3]
  }

  /** The magnitude in whole cents, half away from zero: the third fraction digit decides. */
  function Cents(d: Decimal): nat
    requires WellFormed(d)
  {
    var p := Frac3(d.frac);
    DigitsValue(d.whole) * 100 + DigitValue(p[0]) * 10 + DigitValue(p[1]) + (if DigitValue(p[2]) >= 5 then 1 else 0)
  }

  /** The `,` option of a format spec: a comma before every third digit counted from the right. */
  function GroupThousands(ds: string): string
    decreases |ds|
  {
    if |ds| <= 3 then ds else GroupThousands(ds[..|ds| - 3]) + "," + ds[|ds| - 3..]
  }

  lemma GroupThousandsUnfold(ds: string)
    requires |ds| > 3
    ensures GroupThousands(ds) == GroupThousands(ds[..|ds| - 3]) + ("," + ds[|ds| - 3..])
  {
  }

  lemma RemoveLeadingComma(t: string)
    requires AllDigits(t)
    ensures RemoveChar("," + t, ',') == t
  {
    assert ("," + t)[1..] == t;
    RemoveCharAbsent(t, ',');
  }

  /** Grouping only inserts commas: removing them gives the digits back. */
  lemma {:induction false} GroupThousandsDigits(ds: string)
    requires AllDigits(ds)
    ensures RemoveChar(GroupThousands(ds), ',') == ds
    decreases |ds|
  {
    if |ds| <= 3 {
      RemoveCharAbsent(ds, ',');
    } else {
      var p, t := ds[..|ds| - 3], ds[|ds| - 3..];
      GroupThousandsDigits(p);
      GroupThousandsUnfold(ds);
      RemoveCharAppend(GroupThousands(p), "," + t, ',');
      RemoveLeadingComma(t);
      assert p + t == ds;
    }
  }

  /** The positions of a grouped text, given those of its grouped prefix. */
  lemma CommaPositionsStep(gp: string, t: string)
    requires |t| == 3 && AllDigits(t) && 1 <= |gp| && |gp| % 4 != 0
    requires forall i :: 0 <= i < |gp| ==> (gp[i] == ',' <==> (|gp| - i) % 4 == 0)
    requires forall i :: 0 <= i < |gp| && gp[i] != ',' ==> IsDigit(gp[i])
    ensures var g := gp + ("," + t);
      && (forall i :: 0 <= i < |g| ==> (g[i] == ',' <==> (|g| - i) % 4 == 0))
      && (forall i :: 0 <= i < |g| && g[i] != ',' ==> IsDigit(g[i]))
      && |g| % 4 != 0
  {
    var g := gp + ("," + t);
    forall i | 0 <= i < |gp|
      ensures g[i] == gp[i] && |g| - i == (|gp| - i) + 4
    {
    }
    forall i | |gp| < i < |g|
      ensures g[i] == t[i - |gp| - 1] && 0 < |g| - i < 4
    {
    }
    assert g[|gp|] == ',' && |g| - |gp| == 4;
  }

  /**
    Commas stand exactly where a multiple of four characters remains to the
    end, and every other character is a digit.
  */
  lemma {:induction false} GroupThousandsCommas(ds: string)
    requires AllDigits(ds) && ds != []
    ensures var g := GroupThousands(ds);
      && (forall i :: 0 <= i < |g| ==> (g[i] == ',' <==> (|g| - i) % 4 == 0))
      && (forall i :: 0 <= i < |g| && g[i] != ',' ==> IsDigit(g[i]))
      && 1 <= |g| && |g| % 4 != 0
    decreases |ds|
  {
    if |ds| > 3 {
      var p, t := ds[..|ds| - 3], ds[|ds| - 3..];
      GroupThousandsCommas(p);
      GroupThousandsUnfold(ds);
      CommaPositionsStep(GroupThousands(p), t);
    }
  }

  lemma DigitsValueOfTwo(s: string)
    requires |s| == 2 && AllDigits(s)
    ensures DigitsValue(s) == DigitValue(s[0]) * 10 + DigitValue(s[1])
  {
    assert s[..1] == [s[0]];
    assert [s[0]][..0] == [];
    assert DigitsValue([s[0]]) == DigitValue(s[0]);
  }

  /** Two digits for `0 <= n < 100`, with a leading zero. */
  function TwoDigits(n: nat): (s: string)
    requires n < 100
    ensures |s| == 2 && AllDigits(s) && DigitsValue(s) == n
  {
    var s := [DigitChar(n / 10), DigitChar(n % 10)];
    DigitsValueOfTwo(s);
    s
  }

  /** `f"{v:,.2f}"` for a value whose sign is `negative` and whose magnitude rounds to `cents`. */
  function FormatFixed2(negative: bool, cents: nat): string {
    (if negative then "-" else "") + GroupThousands(NatText(cents / 100)) + "." + TwoDigits(cents % 100)
  }

  /** `f"{f:,.2f}"` for every value `float()` yields; Python keeps the sign of `-0.0`. */
  function FormatFloat(f: Float): string
    requires f.Finite? ==> WellFormed(f.d)
  {
    match f
    case Finite(d) => FormatFixed2(d.negative, Cents(d))
    case Infinity(negative) => if negative then "-inf" else "inf"
    case NaN => "nan"
  }

  lemma TwoDigitCents(negative: bool, w: string, dd: string)
    requires AllDigits(w) && AllDigits(dd) && |dd| == 2
    ensures Cents(Decimal(negative, w, dd)) == DigitsValue(w) * 100 + DigitsValue(dd)
  {
    var p := Frac3(dd);
    assert p == dd + "0";
    DigitsValueOfTwo(dd);
  }

  lemma RemoveCommasInside(sign: string, g: string, dd: string)
    requires forall i :: 0 <= i < |sign| ==> sign[i] != ','
    requires AllDigits(dd)
    ensures RemoveChar(sign + g + "." + dd, ',') == sign + RemoveChar(g, ',') + ("." + dd)
  {
    var tail := "." + dd;
    forall i | 0 <= i < |tail|
      ensures tail[i] != ','
    {
      if i > 0 {
        assert tail[i] == dd[i - 1];
      }
    }
    assert sign + g + "." + dd == sign + (g + tail);
    RemoveCharAppend(sign, g + tail, ',');
    RemoveCharAppend(g, tail, ',');
    RemoveCharAbsent(sign, ',');
    RemoveCharAbsent(tail, ',');
  }

  lemma Fixed2WithoutCommas(negative: bool, cents: nat)
    ensures RemoveChar(FormatFixed2(negative, cents), ',')
         == Show(Decimal(negative, NatText(cents / 100), TwoDigits(cents % 100)))
  {
    var ds := NatText(cents / 100);
    var dd := TwoDigits(cents % 100);
    var sign := if negative then "-" else "";
    GroupThousandsDigits(ds);
    RemoveCommasInside(sign, GroupThousands(ds), dd);
  }

  /** The two-decimal text with its commas removed reads back as exactly `cents` hundredths. */
  lemma Fixed2ReadsBack(negative: bool, cents: nat)
    ensures var d := Decimal(negative, NatText(cents / 100), TwoDigits(cents % 100));
      && WellFormed(d)
      && RemoveChar(FormatFixed2(negative, cents), ',') == Show(d)
      && ParseFloat(Show(d)) == Some(Finite(d))
      && Cents(d) == cents
  {
    var d := Decimal(negative, NatText(cents / 100), TwoDigits(cents % 100));
    Fixed2WithoutCommas(negative, cents);
    ParseShow(d);
    TwoDigitCents(negative, d.whole, d.frac);
  }
}
