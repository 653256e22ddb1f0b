/**
  The field helpers of execution.py: `coalesce`, `clean_street_number`,
  `build_full_address`, the two header resolvers, `normalize_key` and `money`.
  A cell is an `Option<string>`: None is an empty cell or Python's `None`.
*/
module Fields {
  import opened Wrappers
  import opened Strings
  import opened Numerals
  import opened Tables

  // ---------------------------------------------------------------- coalesce

  /** An argument `coalesce` accepts: present, and not blank once stripped. */
  predicate Usable(v: Option<string>) {
    v.Some? && Trim(v.value) != []
  }

  /** `coalesce(*vals)`: the first usable argument, stripped, or "" when none is usable. */
  function Coalesce(vals: seq<Option<string>>): (r: string)
    ensures IsTrimmed(r)
  {
    if vals == [] then []
    else if Usable(vals[0]) then Trim(vals[0].value)
    else Coalesce(vals[1..])
  }

  /** `coalesce` gives "" exactly when no argument is usable. */
  lemma {:induction false} CoalesceBlank(vals: seq<Option<string>>)
    ensures Coalesce(vals) == [] <==> forall i :: 0 <= i < |vals| ==> !Usable(vals[i])
  {
    if vals != [] && !Usable(vals[0]) {
      var rest := vals[1..];
      CoalesceBlank(rest);
      assert forall i :: 1 <= i < |vals| ==> vals[i] == rest[i - 1];
    }
  }

  /** When `vals[k]` is the first usable argument, `coalesce` gives its stripped text. */
  lemma {:induction false} CoalesceAt(vals: seq<Option<string>>, k: nat)
    requires k < |vals| && Usable(vals[k])
    requires forall j :: 0 <= j < k ==> !Usable(vals[j])
    ensures Coalesce(vals) == Trim(vals[k].value)
  {
    if k > 0 {
      var rest := vals[1..];
      assert !Usable(vals[0]) && rest[k - 1] == vals[k];
      assert forall j :: 0 <= j < k - 1 ==> rest[j] == vals[j + 1];
      CoalesceAt(rest, k - 1);
    }
  }

  /**
    `coalesce` gives "" exactly when no argument is usable, and otherwise the
    stripped text of the first usable one.
  */
  lemma CoalescePicksFirst(vals: seq<Option<string>>)
    ensures Coalesce(vals) == [] <==> forall i :: 0 <= i < |vals| ==> !Usable(vals[i])
    ensures forall k :: 0 <= k < |vals| && Usable(vals[k]) && (forall j :: 0 <= j < k ==> !Usable(vals[j]))
              ==> Coalesce(vals) == Trim(vals[k].value)
  {
    CoalesceBlank(vals);
    forall k | 0 <= k < |vals| && Usable(vals[k]) && (forall j :: 0 <= j < k ==> !Usable(vals[j]))
      ensures Coalesce(vals) == Trim(vals[k].value)
    {
      CoalesceAt(vals, k);
    }
  }

  /** `coalesce(v)` of one argument: its stripped text, or "" when it is absent. */
  lemma CoalesceOne(v: Option<string>)
    ensures Coalesce([v]) == if v.Some? then Trim(v.value) else []
  {
    assert [v][1..] == [];
  }

  // ------------------------------------------------------ clean_street_number

  /** The text handed to `float()`: the stripped cell less one trailing ".0". */
  function DropPointZero(s: string): string {
    if EndsWith(s, ".0") then s[..|s| - 2] else s
  }

  /** `clean_street_number(val)` */
  function CleanStreetNumber(v: Option<string>): string {
    var s := Coalesce([v]);
    if s == [] then [] else CleanText(s)
  }

  /** What `clean_street_number` does with the stripped, non-blank text `s`. */
  function CleanText(s: string): string {
    var u := DropPointZero(s);
    match ParseFloat(u)
    case Some(Finite(d)) => if IsIntegral(d) then IntText(d) else u
    case _ => u
  }

  /**
    Text holding a separator U+001C to U+001F is no numeral: it comes back
    with only the one trailing ".0" dropped.
  */
  lemma CleanTextKeepsSeparator(s: string, i: nat)
    requires i < |s| && IsSeparator(s[i])
    ensures CleanText(s) == DropPointZero(s)
  {
    var u := DropPointZero(s);
    if EndsWith(s, ".0") {
      assert i < |s| - 2 by {
        assert s[|s| - 2..] == ".0";
        assert s[|s| - 2] == '.' && s[|s| - 1] == '0';
      }
      assert u[i] == s[i];
    }
    ParseFloatRejectsSeparator(u, i);
  }

  /** A stripped cell goes straight to the numeric cleanup. */
  lemma CleanStreetNumberOfText(t: string)
    requires IsTrimmed(t) && t != []
    ensures CleanStreetNumber(Some(t)) == CleanText(t)
  {
    CoalesceOne(Some(t));
  }

  /** A stripped cell that `float()` rejects comes back with only its ".0" dropped. */
  lemma CleanStreetNumberOfRejected(t: string)
    requires IsTrimmed(t) && t != [] && ParseFloat(DropPointZero(t)) == None
    ensures CleanStreetNumber(Some(t)) == DropPointZero(t)
  {
    CleanStreetNumberOfText(t);
  }

  /** A stripped cell that `float()` reads as an integral value prints as that integer. */
  lemma CleanStreetNumberOfIntegral(t: string, d: Decimal)
    requires IsTrimmed(t) && t != [] && ParseFloat(DropPointZero(t)) == Some(Finite(d)) && IsIntegral(d)
    ensures CleanStreetNumber(Some(t)) == IntText(d)
  {
    CleanStreetNumberOfText(t);
  }

  /** Blank or absent input gives "". */
  lemma CleanStreetNumberBlank(v: Option<string>)
    requires !Usable(v)
    ensures CleanStreetNumber(v) == []
  {
    CoalesceOne(v);
  }

  /**
    A numeral that `float()` reads as an integral value (after one ".0" is
    dropped) becomes the bare integer text: it reads back as the same whole
    number with no fraction, and it carries no leading zero.
  */
  lemma CleanStreetNumberIntegral(v: Option<string>, d: Decimal)
    requires Usable(v)
    requires ParseFloat(DropPointZero(Trim(v.value))) == Some(Finite(d))
    requires IsIntegral(d)
    ensures var n := DigitsValue(d.whole);
      ParseFloat(CleanStreetNumber(v)) == Some(Finite(Decimal(d.negative && n != 0, NatText(n), "")))
  {
    var t := Trim(v.value);
    CoalesceOne(v);
    assert CleanStreetNumber(v) == CleanText(t);
    CleanTextIntegral(t, d);
    IntTextReadsBack(d);
  }

  /** Text that does not end in ".0" and is not an integral numeral comes back stripped and otherwise unchanged. */
  lemma CleanStreetNumberKeeps(v: Option<string>)
    requires Usable(v) && !EndsWith(Trim(v.value), ".0")
    requires match ParseFloat(Trim(v.value)) case Some(Finite(d)) => !IsIntegral(d) case _ => true
    ensures CleanStreetNumber(v) == Trim(v.value)
  {
    CoalesceOne(v);
  }

  /** The cleanup of a text that reads as an integral numeral. */
  lemma CleanTextIntegral(s: string, d: Decimal)
    requires ParseFloat(DropPointZero(s)) == Some(Finite(d)) && IsIntegral(d)
    ensures CleanText(s) == IntText(d)
  {
  }

  /** The cleanup of a text that does not read as an integral numeral. */
  lemma CleanTextKept(s: string)
    requires match ParseFloat(DropPointZero(s)) case Some(Finite(d)) => !IsIntegral(d) case _ => true
    ensures CleanText(s) == DropPointZero(s)
  {
  }

  /** `float()` of a plain numeral. */
  lemma ReadsAs(t: string, d: Decimal)
    requires WellFormed(d) && Show(d) == t
    ensures ParseFloat(t) == Some(Finite(d))
  {
    ParseShow(d);
  }

  lemma Read123()
    ensures ParseFloat("123") == Some(Finite(Decimal(false, "123", "")))
  {
    ReadsAs("123", Decimal(false, "123", ""));
  }

  lemma Read12300()
    ensures ParseFloat("123.00") == Some(Finite(Decimal(false, "123", "00")))
  {
    ReadsAs("123.00", Decimal(false, "123", "00"));
  }

  lemma Text123()
    ensures IntText(Decimal(false, "123", "")) == "123" && IntText(Decimal(false, "123", "00")) == "123"
  {
    NatTextOfDigits("123");
  }

  /** "123.0" loses its ".0" and prints as "123". */
  lemma CleanStreetNumberPointZero()
    ensures CleanStreetNumber(Some("123.0")) == "123"
  {
    Clean1230("123.0");
  }

  lemma Clean1230(t: string)
    requires t == "123.0"
    ensures CleanStreetNumber(Some(t)) == "123"
  {
    assert t[0] == '1' && t[|t| - 1] == '0';
    assert IsTrimmed(t);
    assert DropPointZero(t) == "123" by {
      assert EndsWith(t, ".0") && t[..|t| - 2] == "123";
    }
    Read123();
    CleanStreetNumberOfIntegral(t, Decimal(false, "123", ""));
    Text123();
  }

  /** "123.00" is read as the integer 123. */
  lemma CleanStreetNumberPointZeroZero()
    ensures CleanStreetNumber(Some("123.00")) == "123"
  {
    Clean12300("123.00");
  }

  lemma Clean12300(t: string)
    requires t == "123.00"
    ensures CleanStreetNumber(Some(t)) == "123"
  {
    assert t[0] == '1' && t[|t| - 1] == '0';
    assert IsTrimmed(t);
    assert DropPointZero(t) == t by {
      assert t[|t| - 2..] == "00";
    }
    Read12300();
    CleanStreetNumberOfIntegral(t, Decimal(false, "123", "00"));
    Text123();
  }

  lemma Read4550()
    ensures ParseFloat("45.50") == Some(Finite(Decimal(false, "45", "50")))
  {
    ReadsAs("45.50", Decimal(false, "45", "50"));
  }

  /** A non-integral numeral, "45.50", comes back unchanged. */
  lemma CleanStreetNumberFraction()
    ensures CleanStreetNumber(Some("45.50")) == "45.50"
  {
    CleanFraction("45.50");
  }

  lemma CleanFraction(t: string)
    requires t == "45.50"
    ensures CleanStreetNumber(Some(t)) == t
  {
    assert t[0] == '4' && t[|t| - 1] == '0';
    assert IsTrimmed(t);
    assert DropPointZero(t) == t by {
      assert t[|t| - 2..] == "50";
    }
    Read4550();
    assert !IsIntegral(Decimal(false, "45", "50"));
    CleanStreetNumberOfText(t);
    CleanTextKept(t);
  }

  lemma Lower12A()
    ensures Lower("12A") != "inf" && Lower("12A") != "infinity" && Lower("12A") != "nan"
  {
    assert Lower("12A")[0] == '1';
  }

  lemma Unsigned12A()
    ensures ParseUnsigned("12A") == None
  {
    assert IndexOf("12A", '.') == None;
    assert !AllDigits("12A") by {
      assert "12A"[2] == 'A';
    }
  }

  lemma Reject12A()
    ensures ParseFloat("12A") == None
  {
    assert FloatStrip("12A") == "12A";
    Lower12A();
    Unsigned12A();
    assert ParseBody(false, "12A") == None;
  }

  /** A unit number that is not a numeral, "12A", comes back unchanged. */
  lemma CleanStreetNumberUnit()
    ensures CleanStreetNumber(Some("12A")) == "12A"
  {
    CleanStreetNumberOfText("12A");
    assert DropPointZero("12A") == "12A";
    Reject12A();
    CleanTextKept("12A");
  }

  /** One ".0" is dropped even when another one remains in front of it. */
  lemma OnlyOnePointZero(s: string)
    requires EndsWith(s, ".0") && !EndsWith(s, ".0.0")
    ensures !EndsWith(DropPointZero(s), ".0")
  {
    var u := DropPointZero(s);
    assert s == u + ".0";
    assert |s| >= 4 ==> s[|s| - 4..] == u[|u| - 2..] + ".0";
  }

  /** An integer text is a plain numeral with no fraction, hence stripped and without a ".0" suffix. */
  lemma IntTextShape(d: Decimal)
    requires WellFormed(d)
    ensures var n := DigitsValue(d.whole); var e := Decimal(d.negative && n != 0, NatText(n), "");
      && IntText(d) == Show(e) && IntText(e) == IntText(d)
      && IsTrimmed(IntText(d)) && IntText(d) != [] && !EndsWith(IntText(d), ".0")
  {
    var t := IntText(d);
    var n := DigitsValue(d.whole);
    var e := Decimal(d.negative && n != 0, NatText(n), "");
    assert t == Show(e);
    assert IntText(e) == t;
    assert IsTrimmed(t) by {
      ShowIsTrimmed(e);
    }
    SignedDigitsNoPointZero(if d.negative && n != 0 then "-" else "", NatText(n));
  }

  /** An optional minus sign and some digits never end in ".0". */
  lemma SignedDigitsNoPointZero(sign: string, w: string)
    requires sign == "" || sign == "-"
    requires AllDigits(w) && w != []
    ensures !EndsWith(sign + w, ".0")
  {
    var t := sign + w;
    assert forall i :: 0 <= i < |t| ==> t[i] == '-' || IsDigit(t[i]);
    assert |t| >= 2 ==> t[|t| - 2..][0] == t[|t| - 2] != '.';
  }

  /** An integer text is left as it is by the cleanup. */
  lemma IntTextIsClean(d: Decimal)
    requires WellFormed(d)
    ensures CleanStreetNumber(Some(IntText(d))) == IntText(d)
  {
    var t := IntText(d);
    var n := DigitsValue(d.whole);
    var e := Decimal(d.negative && n != 0, NatText(n), "");
    IntTextShape(d);
    CleanStreetNumberOfText(t);
    assert DropPointZero(t) == t;
    IntTextReadsBack(d);
    CleanTextIntegral(t, e);
  }

  /**
    On text free of interior whitespace that does not end in ".0.0",
    cleaning twice is cleaning once.
  */
  lemma CleanStreetNumberIdempotent(v: Option<string>)
    requires v.Some? ==> NoSpace(Trim(v.value)) && !EndsWith(Trim(v.value), ".0.0")
    ensures CleanStreetNumber(Some(CleanStreetNumber(v))) == CleanStreetNumber(v)
  {
    CoalesceOne(v);
    var s := Coalesce([v]);
    if s == [] {
      CoalesceOne(Some([]));
    } else {
      CleanTextIdempotent(s);
    }
  }

  lemma CleanTextIdempotent(s: string)
    requires s != [] && IsTrimmed(s) && NoSpace(s) && !EndsWith(s, ".0.0")
    ensures CleanStreetNumber(Some(CleanText(s))) == CleanText(s)
  {
    var u := DropPointZero(s);
    match ParseFloat(u)
    case Some(Finite(d)) =>
      if IsIntegral(d) {
        CleanTextIntegral(s, d);
        IntTextIsClean(d);
      } else {
        CleanTextKept(s);
        CleanAgainKeeps(s);
      }
    case _ =>
      CleanTextKept(s);
      CleanAgainKeeps(s);
  }

  /** The text kept by a first cleaning is left alone by a second one. */
  lemma CleanAgainKeeps(s: string)
    requires s != [] && IsTrimmed(s) && NoSpace(s) && !EndsWith(s, ".0.0")
    requires match ParseFloat(DropPointZero(s)) case Some(Finite(d)) => !IsIntegral(d) case _ => true
    ensures CleanStreetNumber(Some(DropPointZero(s))) == DropPointZero(s)
  {
    var u := DropPointZero(s);
    if EndsWith(s, ".0") {
      OnlyOnePointZero(s);
      assert forall i :: 0 <= i < |u| ==> u[i] == s[i];
    }
    assert NoSpace(u);
    CoalesceOne(Some(u));
    if u != [] {
      assert IsTrimmed(u);
      assert DropPointZero(u) == u;
      CleanTextKept(u);
    }
  }

  lemma Lower100()
    ensures Lower("1.0.0") != "inf" && Lower("1.0.0") != "infinity" && Lower("1.0.0") != "nan"
  {
    assert Lower("1.0.0")[0] == '1';
  }

  lemma Unsigned100()
    ensures ParseUnsigned("1.0.0") == None
  {
    assert IndexOf("1.0.0", '.') == Some(1);
    assert "1.0.0"[2..] == "0.0";
    assert !AllDigits("0.0") by {
      assert "0.0"[1] == '.';
    }
  }

  lemma Reject100()
    ensures ParseFloat("1.0.0") == None
  {
    assert FloatStrip("1.0.0") == "1.0.0";
    Lower100();
    Unsigned100();
    assert ParseBody(false, "1.0.0") == None;
  }

  lemma Read10()
    ensures ParseFloat("1.0") == Some(Finite(Decimal(false, "1", "0")))
  {
    ReadsAs("1.0", Decimal(false, "1", "0"));
  }

  lemma Clean1000(t: string)
    requires t == "1.0.0.0"
    ensures CleanStreetNumber(Some(t)) == "1.0.0"
  {
    assert t[0] == '1' && t[|t| - 1] == '0';
    assert IsTrimmed(t);
    assert DropPointZero(t) == "1.0.0" by {
      assert EndsWith(t, ".0") && t[..|t| - 2] == "1.0.0";
    }
    Reject100();
    CleanStreetNumberOfRejected(t);
  }

  /** "1.0.0.0" loses one ".0" per cleaning: not idempotent on text ending in ".0.0". */
  lemma CleanStreetNumberRepeatedPointZero()
    ensures CleanStreetNumber(Some("1.0.0.0")) == "1.0.0"
    ensures CleanStreetNumber(Some("1.0.0")) == "1"
  {
    Clean1000("1.0.0.0");
    Clean100("1.0.0");
  }

  lemma Clean100(t: string)
    requires t == "1.0.0"
    ensures CleanStreetNumber(Some(t)) == "1"
  {
    assert t[0] == '1' && t[|t| - 1] == '0';
    assert IsTrimmed(t);
    var d := Decimal(false, "1", "0");
    assert DropPointZero(t) == "1.0" by {
      assert EndsWith(t, ".0") && t[..|t| - 2] == "1.0";
    }
    Read10();
    NatTextOfDigits("1");
    assert IntText(d) == "1";
    CleanStreetNumberOfIntegral(t, d);
  }

  lemma TrimX()
    ensures Trim("x ") == "x" && Trim("x") == "x"
  {
    assert TrimStart("x ") == "x ";
    assert TrimEnd("x ") == "x";
  }

  lemma BodyX()
    ensures ParseBody(false, "x") == None
  {
    assert Lower("x")[0] == 'x';
    assert IndexOf("x", '.') == None;
    assert ParseUnsigned("x") == None;
  }

  lemma FloatStripX()
    ensures FloatStrip("x ") == "x" && FloatStrip("x") == "x"
  {
    assert FloatStripStart("x ") == "x ";
    assert FloatStripEnd("x ") == "x";
  }

  lemma RejectX()
    ensures ParseFloat("x ") == None && ParseFloat("x") == None
  {
    FloatStripX();
    BodyX();
  }

  /** "x .0" keeps the space left in front of the dropped ".0"; a second cleaning strips it. */
  lemma CleanStreetNumberInnerSpace()
    ensures CleanStreetNumber(Some("x .0")) == "x "
    ensures CleanStreetNumber(Some("x ")) == "x"
  {
    CleanXPointZero("x .0");
    CleanXSpace("x ");
  }

  lemma CleanXPointZero(t: string)
    requires t == "x .0"
    ensures CleanStreetNumber(Some(t)) == "x "
  {
    assert t[0] == 'x' && t[|t| - 1] == '0';
    assert IsTrimmed(t);
    assert DropPointZero(t) == "x " by {
      assert EndsWith(t, ".0") && t[..|t| - 2] == "x ";
    }
    RejectX();
    CleanStreetNumberOfRejected(t);
  }

  lemma CleanXSpace(t: string)
    requires t == "x "
    ensures CleanStreetNumber(Some(t)) == "x"
  {
    var u := Trim(t);
    TrimX();
    CoalesceOne(Some(t));
    assert CleanStreetNumber(Some(t)) == CleanText(u);
    assert DropPointZero(u) == u;
    RejectX();
    CleanTextKept(u);
  }

  // ------------------------------------------------------- build_full_address

  /** The parts that are not empty, in order. */
  function NonEmpty(parts: seq<string>): (r: seq<string>)
    ensures forall i :: 0 <= i < |r| ==> r[i] != []
    ensures r == [] <==> forall i :: 0 <= i < |parts| ==> parts[i] == []
  {
    if parts == [] then []
    else (if parts[0] == [] then [] else [parts[0]]) + NonEmpty(parts[1..])
  }

  lemma {:induction false} NonEmptyAppend(p: seq<string>, q: seq<string>)
    ensures NonEmpty(p + q) == NonEmpty(p) + NonEmpty(q)
  {
    if p != [] {
      var h := if p[0] == [] then [] else [p[0]];
      assert (p + q)[0] == p[0];
      assert (p + q)[1..] == p[1..] + q;
      NonEmptyAppend(p[1..], q);
      assert NonEmpty(p + q) == h + NonEmpty(p[1..] + q);
      assert NonEmpty(p) == h + NonEmpty(p[1..]);
    } else {
      assert p + q == q;
    }
  }

  /** Parts that are all present are kept as they are. */
  lemma {:induction false} NonEmptyOfPresent(parts: seq<string>)
    requires forall i :: 0 <= i < |parts| ==> parts[i] != []
    ensures NonEmpty(parts) == parts
  {
    if parts != [] {
      NonEmptyOfPresent(parts[1..]);
    }
  }

  /** `sep.join(p for p in parts if p)` */
  function JoinNonEmpty(sep: string, parts: seq<string>): string {
    Join(sep, NonEmpty(parts))
  }

  lemma {:induction false} JoinOfPresent(sep: string, ws: seq<string>)
    requires forall i :: 0 <= i < |ws| ==> ws[i] != []
    ensures Join(sep, ws) == [] <==> ws == []
    ensures ws != [] ==> Join(sep, ws)[0] == ws[0][0]
    ensures ws != [] ==> var j := Join(sep, ws); var w := ws[|ws| - 1]; j[|j| - 1] == w[|w| - 1]
  {
    if |ws| > 1 {
      JoinOfPresent(sep, ws[1..]);
      var t := Join(sep, ws[1..]);
      assert Join(sep, ws) == ws[0] + sep + t;
      assert ws[1..][|ws| - 2] == ws[|ws| - 1];
    }
  }

  /**
    The joined text is empty exactly when every part is; otherwise it starts
    with the first character of the first non-empty part and ends with the
    last character of the last non-empty part.
  */
  lemma JoinNonEmptyEnds(sep: string, parts: seq<string>)
    ensures JoinNonEmpty(sep, parts) == [] <==> forall i :: 0 <= i < |parts| ==> parts[i] == []
    ensures JoinNonEmpty(sep, parts) != [] ==>
      var j := JoinNonEmpty(sep, parts); var ps := NonEmpty(parts);
      ps != [] && j[0] == ps[0][0] && j[|j| - 1] == ps[|ps| - 1][|ps[|ps| - 1]| - 1]
  {
    JoinOfPresent(sep, NonEmpty(parts));
  }

  /** An empty part contributes no separator: dropping it changes nothing. */
  lemma JoinNonEmptySkipsEmpty(sep: string, p: seq<string>, q: seq<string>)
    ensures JoinNonEmpty(sep, p + [[]] + q) == JoinNonEmpty(sep, p + q)
  {
    NonEmptyAppend(p + [[]], q);
    NonEmptyAppend(p, [[]]);
    var none: seq<string> := [[]];
    assert NonEmpty(none) == [] by {
      assert none[1..] == [];
    }
    assert NonEmpty(p + [[]]) == NonEmpty(p);
    NonEmptyAppend(p, q);
  }

  /** With all parts present the separator stands between each pair of neighbours. */
  lemma JoinNonEmptyOfPresent(sep: string, parts: seq<string>)
    requires forall i :: 0 <= i < |parts| ==> parts[i] != []
    ensures JoinNonEmpty(sep, parts) == Join(sep, parts)
  {
    NonEmptyOfPresent(parts);
  }

  /** The parts of a street line: the cleaned street number and the first address line. */
  function StreetParts(row: Row): seq<string> {
    [CleanStreetNumber(Get(row, "Street #")), Coalesce([Get(row, "Address 1")])]
  }

  /** The parts of the second line: city, state and zip code. */
  function CityStateZipParts(row: Row): seq<string> {
    [Coalesce([Get(row, "City")]), Coalesce([Get(row, "State")]), Coalesce([Get(row, "Zip Code")])]
  }

  /** "<first line>, <city state zip>" when both lines exist, else whichever one does. */
  function CombineLines(firstLine: string, cityStateZip: string): string {
    if firstLine != [] && cityStateZip != [] then firstLine + ", " + cityStateZip
    else if firstLine != [] then firstLine
    else cityStateZip
  }

  /** The address of street parts `s` and city/state/zip parts `c`. */
  function AddressOf(s: seq<string>, c: seq<string>): string {
    CombineLines(JoinNonEmpty(" ", s), JoinNonEmpty(" ", c))
  }

  /** `build_full_address(row)` */
  function BuildFullAddress(row: Row): string {
    AddressOf(StreetParts(row), CityStateZipParts(row))
  }

  /** The address is empty exactly when every part is. */
  lemma AddressOfEmpty(s: seq<string>, c: seq<string>)
    ensures AddressOf(s, c) == [] <==> NonEmpty(s + c) == []
  {
    JoinNonEmptyEnds(" ", s);
    JoinNonEmptyEnds(" ", c);
    NonEmptyAppend(s, c);
  }

  /**
    `text` starts with the first character of the first of `parts` and ends
    with the last character of the last one: nothing stands before or after.
    This fixes only the two ends; that an empty part adds no separator inside
    the text is what `JoinNonEmptySkipsEmpty` and `JoinNonEmptyOfPresent` state.
  */
  predicate StartsAndEndsWithParts(text: string, parts: seq<string>) {
    parts != [] && parts[0] != [] && parts[|parts| - 1] != [] && text != []
    && text[0] == parts[0][0]
    && text[|text| - 1] == parts[|parts| - 1][|parts[|parts| - 1]| - 1]
  }

  lemma JoinNonEmptyStartsAndEnds(sep: string, parts: seq<string>)
    requires JoinNonEmpty(sep, parts) != []
    ensures StartsAndEndsWithParts(JoinNonEmpty(sep, parts), NonEmpty(parts))
  {
    JoinNonEmptyEnds(sep, parts);
  }

  /**
    A non-empty address starts with the first character of the first
    non-empty part and ends with the last character of the last one, so no
    separator stands at either end (inner separators: `JoinNonEmptySkipsEmpty`).
  */
  lemma AddressOfEnds(s: seq<string>, c: seq<string>)
    requires AddressOf(s, c) != []
    ensures StartsAndEndsWithParts(AddressOf(s, c), NonEmpty(s + c))
  {
    var l1, l2 := JoinNonEmpty(" ", s), JoinNonEmpty(" ", c);
    var n1, n2 := NonEmpty(s), NonEmpty(c);
    assert NonEmpty(s + c) == n1 + n2 by {
      NonEmptyAppend(s, c);
    }
    if l1 != [] && l2 != [] {
      BothLinesEnds(s, c);
    } else if l1 != [] {
      assert n2 == [] by {
        JoinNonEmptyEnds(" ", c);
      }
      assert n1 + n2 == n1;
      JoinNonEmptyStartsAndEnds(" ", s);
    } else {
      assert n1 == [] by {
        JoinNonEmptyEnds(" ", s);
      }
      assert n1 + n2 == n2;
      JoinNonEmptyStartsAndEnds(" ", c);
    }
  }

  lemma BothLinesEnds(s: seq<string>, c: seq<string>)
    requires JoinNonEmpty(" ", s) != [] && JoinNonEmpty(" ", c) != []
    ensures StartsAndEndsWithParts(JoinNonEmpty(" ", s) + ", " + JoinNonEmpty(" ", c), NonEmpty(s) + NonEmpty(c))
  {
    JoinNonEmptyStartsAndEnds(" ", s);
    JoinNonEmptyStartsAndEnds(" ", c);
    CommaJoinStartsAndEnds(JoinNonEmpty(" ", s), JoinNonEmpty(" ", c), NonEmpty(s), NonEmpty(c));
  }

  /** Two lines joined by ", " start with the first line's first part and end with the second's last. */
  lemma CommaJoinStartsAndEnds(l1: string, l2: string, n1: seq<string>, n2: seq<string>)
    requires StartsAndEndsWithParts(l1, n1) && StartsAndEndsWithParts(l2, n2)
    ensures StartsAndEndsWithParts(l1 + ", " + l2, n1 + n2)
  {
    var a := l1 + ", " + l2;
    assert a[0] == l1[0];
    assert a[|a| - 1] == l2[|l2| - 1];
    var n := n1 + n2;
    assert n[0] == n1[0];
    assert n[|n| - 1] == n2[|n2| - 1];
  }


  /** The five parts of a row's address, in the order they are printed. */
  function AddressParts(row: Row): seq<string> {
    StreetParts(row) + CityStateZipParts(row)
  }

  /**
    A row's address is empty exactly when all five parts are; otherwise it
    starts with the first character of the first non-empty part and ends with
    the last character of the last one.
  */
  lemma BuildFullAddressEnds(row: Row)
    ensures BuildFullAddress(row) == [] <==> forall i :: 0 <= i < |AddressParts(row)| ==> AddressParts(row)[i] == []
    ensures BuildFullAddress(row) != [] ==> StartsAndEndsWithParts(BuildFullAddress(row), NonEmpty(AddressParts(row)))
  {
    AddressOfEmpty(StreetParts(row), CityStateZipParts(row));
    assert AddressParts(row) == StreetParts(row) + CityStateZipParts(row);
    if BuildFullAddress(row) != [] {
      AddressOfEnds(StreetParts(row), CityStateZipParts(row));
    }
  }

  /** With every part present: "<street> <addr1>, <city> <state> <zip>". */
  lemma AddressOfComplete(s: seq<string>, c: seq<string>)
    requires |s| == 2 && |c| == 3
    requires forall i :: 0 <= i < 2 ==> s[i] != []
    requires forall i :: 0 <= i < 3 ==> c[i] != []
    ensures AddressOf(s, c) == s[0] + " " + s[1] + ", " + c[0] + " " + c[1] + " " + c[2]
  {
    JoinNonEmptyOfPresent(" ", s);
    JoinNonEmptyOfPresent(" ", c);
    assert s[1..][1..] == [] && c[1..][1..][1..] == [];
    assert Join(" ", s) == s[0] + " " + s[1];
    assert Join(" ", c[1..]) == c[1] + " " + c[2];
  }

  /** With no city, state or zip code the address is the street line alone, without a comma. */
  lemma BuildFullAddressStreetOnly(row: Row)
    requires forall i :: 2 <= i < 5 ==> AddressParts(row)[i] == []
    ensures BuildFullAddress(row) == JoinNonEmpty(" ", StreetParts(row))
  {
    var c := CityStateZipParts(row);
    assert forall i :: 0 <= i < 3 ==> c[i] == AddressParts(row)[i + 2];
    JoinNonEmptyEnds(" ", c);
  }

  /** With no street number or first address line the address is the city line alone. */
  lemma BuildFullAddressCityOnly(row: Row)
    requires forall i :: 0 <= i < 2 ==> AddressParts(row)[i] == []
    ensures BuildFullAddress(row) == JoinNonEmpty(" ", CityStateZipParts(row))
  {
    var s := StreetParts(row);
    assert forall i :: 0 <= i < 2 ==> s[i] == AddressParts(row)[i];
    JoinNonEmptyEnds(" ", s);
  }

  /** The sample row used below. */
  function SampleRow(): Row {
    map["Street #" := "100", "Address 1" := "Main St", "City" := "Springfield",
        "State" := "IL", "Zip Code" := "62704"]
  }

  lemma Clean100Text(t: string)
    requires t == "100"
    ensures CleanStreetNumber(Some(t)) == t
  {
    assert t[0] == '1' && t[|t| - 1] == '0';
    assert IsTrimmed(t);
    assert DropPointZero(t) == t by {
      assert t[|t| - 2..] == "00";
    }
    ReadsAs(t, Decimal(false, "100", ""));
    CleanStreetNumberOfIntegral(t, Decimal(false, "100", ""));
    NatTextOfDigits(t);
  }

  /** A street line's parts: the cleaned number cell and the stripped first address line. */
  lemma StreetPartsOfCells(row: Row)
    requires "Street #" in row && "Address 1" in row && IsTrimmed(row["Address 1"])
    ensures StreetParts(row) == [CleanStreetNumber(Some(row["Street #"])), row["Address 1"]]
  {
    CoalesceCell(row, "Address 1");
  }

  lemma SampleStreetCells()
    ensures var row := SampleRow();
      && "Street #" in row && "Address 1" in row && row["Street #"] == "100" && row["Address 1"] == "Main St"
  {
  }

  lemma SampleStreetParts()
    ensures StreetParts(SampleRow()) == ["100", "Main St"]
  {
    SampleStreetCells();
    assert IsTrimmed("Main St");
    StreetPartsOfCells(SampleRow());
    Clean100Text("100");
  }

  /** A stripped cell is its own `coalesce`. */
  lemma CoalesceCell(row: Row, col: string)
    requires col in row && IsTrimmed(row[col])
    ensures Coalesce([Get(row, col)]) == row[col]
  {
    CoalesceOne(Get(row, col));
  }

  /** Stripped city, state and zip cells are the city line's parts as they stand. */
  lemma CityPartsOfCells(row: Row)
    requires "City" in row && "State" in row && "Zip Code" in row
    requires IsTrimmed(row["City"]) && IsTrimmed(row["State"]) && IsTrimmed(row["Zip Code"])
    ensures CityStateZipParts(row) == [row["City"], row["State"], row["Zip Code"]]
  {
    CoalesceCell(row, "City");
    CoalesceCell(row, "State");
    CoalesceCell(row, "Zip Code");
  }

  lemma SampleCells()
    ensures var row := SampleRow();
      && "City" in row && "State" in row && "Zip Code" in row
      && row["City"] == "Springfield" && row["State"] == "IL" && row["Zip Code"] == "62704"
  {
  }

  lemma SampleCityParts()
    ensures CityStateZipParts(SampleRow()) == ["Springfield", "IL", "62704"]
  {
    SampleCells();
    assert IsTrimmed("Springfield") && IsTrimmed("IL") && IsTrimmed("62704");
    CityPartsOfCells(SampleRow());
  }

  lemma SampleAddressText()
    ensures "100" + " " + "Main St" + ", " + "Springfield" + " " + "IL" + " " + "62704"
         == "100 Main St, Springfield IL 62704"
  {
  }

  lemma SampleAddressOfParts()
    ensures AddressOf(["100", "Main St"], ["Springfield", "IL", "62704"]) == "100 Main St, Springfield IL 62704"
  {
    AddressOfComplete(["100", "Main St"], ["Springfield", "IL", "62704"]);
    SampleAddressText();
  }

  /** 100 / Main St / Springfield / IL / 62704 gives "100 Main St, Springfield IL 62704". */
  lemma BuildFullAddressExample()
    ensures BuildFullAddress(SampleRow()) == "100 Main St, Springfield IL 62704"
  {
    SampleStreetParts();
    SampleCityParts();
    SampleAddressOfParts();
  }

  // ---------------------------------------------------------- header lookups

  /** The first header whose lower-cased form contains `needle`. */
  function FirstContaining(columns: seq<string>, needle: string): (r: Option<string>)
    ensures r.None? <==> forall i :: 0 <= i < |columns| ==> !Contains(Lower(columns[i]), needle)
    ensures r.Some? ==>
      exists i :: 0 <= i < |columns| && columns[i] == r.value && Contains(Lower(columns[i]), needle)
                && forall j :: 0 <= j < i ==> !Contains(Lower(columns[j]), needle)
  {
    if columns == [] then None
    else if Contains(Lower(columns[0]), needle) then Some(columns[0])
    else
      var r := FirstContaining(columns[1..], needle);
      assert forall i :: 1 <= i < |columns| ==> columns[i] == columns[1..][i - 1];
      r
  }

  /** The exact headers `pick_assoc_column` tries first, in priority order. */
  const AssocCandidates: seq<string> := ["Association Name", "HOA Name", "Association"]

  /** The first candidate that is a header, if any. */
  function FirstPresent(candidates: seq<string>, columns: seq<string>): (r: Option<string>)
    ensures r.None? <==> forall k :: 0 <= k < |candidates| ==> candidates[k] !in columns
    ensures r.Some? ==>
      exists k :: 0 <= k < |candidates| && candidates[k] == r.value && r.value in columns
                && forall j :: 0 <= j < k ==> candidates[j] !in columns
  {
    if candidates == [] then None
    else if candidates[0] in columns then Some(candidates[0])
    else
      var r := FirstPresent(candidates[1..], columns);
      assert forall k :: 1 <= k < |candidates| ==> candidates[k] == candidates[1..][k - 1];
      r
  }

  /** `pick_assoc_column(columns)` */
  function PickAssocColumn(columns: seq<string>): (r: Option<string>)
    ensures r.Some? ==> r.value in columns
    ensures "Association Name" in columns ==> r == Some("Association Name")
    ensures "Association Name" !in columns && "HOA Name" in columns ==> r == Some("HOA Name")
    ensures "Association Name" !in columns && "HOA Name" !in columns && "Association" in columns
            ==> r == Some("Association")
    ensures "Association Name" !in columns && "HOA Name" !in columns && "Association" !in columns
            ==> r == FirstContaining(columns, "assoc")
  {
    assert AssocCandidates[0] == "Association Name" && AssocCandidates[1] == "HOA Name";
    assert AssocCandidates[2] == "Association";
    match FirstPresent(AssocCandidates, columns)
    case Some(c) => Some(c)
    case None => FirstContaining(columns, "assoc")
  }

  /** `find_email_column(columns)`: the first header, in order, containing "email" in any case. */
  function FindEmailColumn(columns: seq<string>): (r: Option<string>)
    ensures r.None? <==> forall i :: 0 <= i < |columns| ==> !Contains(Lower(columns[i]), "email")
    ensures r.Some? ==>
      exists i :: 0 <= i < |columns| && columns[i] == r.value && Contains(Lower(r.value), "email")
                && forall j :: 0 <= j < i ==> !Contains(Lower(columns[j]), "email")
  {
    FirstContaining(columns, "email")
  }

  // ------------------------------------------------------------ normalize_key

  /** `normalize_key(s)`: lower-cased, with its whitespace runs collapsed to single spaces. */
  function NormalizeKey(s: Option<string>): (r: string)
    ensures IsLowerCase(r) && SingleSpaced(r) && IsTrimmed(r)
  {
    var ws := Words(Lower(Coalesce([s])));
    LowerIsLowerCase(Coalesce([s]));
    WordsLowerCase(Lower(Coalesce([s])));
    JoinLowerCase(ws);
    JoinSingleSpaced(ws);
    var r := Join(" ", ws);
    assert r != [] ==> !IsSpace(r[|r| - 1]);
    r
  }

  /** The text of a cell, "" when it is empty. */
  function TextOf(v: Option<string>): string {
    if v.Some? then v.value else []
  }

  /** A key is the name's lower-cased words joined by single spaces. */
  lemma KeyOfWords(a: Option<string>)
    ensures NormalizeKey(a) == Join(" ", Words(Lower(TextOf(a))))
  {
    CoalesceOne(a);
    WordsOfLowerTrim(TextOf(a));
  }

  /** The words of a key are the lower-cased words of the name. */
  lemma KeyWords(a: Option<string>)
    ensures Words(NormalizeKey(a)) == Words(Lower(TextOf(a)))
  {
    KeyOfWords(a);
    WordsOfJoin(Words(Lower(TextOf(a))));
  }

  /** Two names get the same key exactly when they have the same words up to letter case. */
  lemma NormalizeKeySame(a: Option<string>, b: Option<string>)
    ensures NormalizeKey(a) == NormalizeKey(b) <==> Words(Lower(TextOf(a))) == Words(Lower(TextOf(b)))
  {
    KeyOfWords(a);
    KeyOfWords(b);
    KeyWords(a);
    KeyWords(b);
  }

  /** Normalising a key again leaves it unchanged. */
  lemma NormalizeKeyIdempotent(a: Option<string>)
    ensures NormalizeKey(Some(NormalizeKey(a))) == NormalizeKey(a)
  {
    var k := NormalizeKey(a);
    KeyWords(a);
    KeyOfWords(Some(k));
    LowerOfLowerCase(k);
    KeyOfWords(a);
  }

  lemma OakRidgeLower()
    ensures Lower("  Oak Ridge HOA ") == "  " + ("oak ridge hoa" + " ")
    ensures Lower("oak ridge hoa") == "oak ridge hoa"
  {
    LowerOfLowerCase("oak ridge hoa");
  }

  lemma OakRidgeWords()
    ensures Words(Lower("  Oak Ridge HOA ")) == Words(Lower("oak ridge hoa"))
  {
    OakRidgeLower();
    WordsOfSpacePrefix("  ", "oak ridge hoa" + " ");
    WordsOfSpaceSuffix("oak ridge hoa", " ");
  }

  /** "  Oak Ridge HOA " and "oak ridge hoa" share a key. */
  lemma NormalizeKeyExample()
    ensures NormalizeKey(Some("  Oak Ridge HOA ")) == NormalizeKey(Some("oak ridge hoa"))
  {
    OakRidgeWords();
    NormalizeKeySame(Some("  Oak Ridge HOA "), Some("oak ridge hoa"));
  }

  // -------------------------------------------------------------------- money

  /** What `money` hands to `float()`: the text without its commas and dollar signs. */
  function MoneyInput(x: string): string {
    RemoveChar(RemoveChar(x, ','), '$')
  }

  /** `money(x)`: "$" and the value with thousands commas and two decimals, or "" when `float()` fails. */
  function Money(x: string): (r: string)
    ensures r == [] || r[0] == '$'
  {
    match ParseFloat(MoneyInput(x))
    case None => []
    case Some(f) => "$" + FormatFloat(f)
  }

  /** The money text of a parsed amount. */
  function MoneyOf(f: Float): string
    requires f.Finite? ==> WellFormed(f.d)
  {
    "$" + FormatFloat(f)
  }

  /** A finite amount becomes "$" and its two-decimal form with thousands commas. */
  lemma MoneyFinite(x: string, d: Decimal)
    requires ParseFloat(MoneyInput(x)) == Some(Finite(d))
    ensures Money(x) == "$" + FormatFixed2(d.negative, Cents(d))
  {
  }

  /**
    Without its commas, the money text of a finite amount reads back as the
    amount rounded to the cent.
  */
  lemma MoneyReadsBack(x: string, d: Decimal)
    requires ParseFloat(MoneyInput(x)) == Some(Finite(d))
    ensures var c := Cents(d); var e := Decimal(d.negative, NatText(c / 100), TwoDigits(c % 100));
      && RemoveChar(Money(x), ',') == "$" + Show(e)
      && ParseFloat(Show(e)) == Some(Finite(e))
      && Cents(e) == c
  {
    var c := Cents(d);
    MoneyFinite(x, d);
    Fixed2ReadsBack(d.negative, c);
    RemoveCharAppend("$", FormatFixed2(d.negative, c), ',');
  }

  /** Text that `float()` rejects gives "" rather than an exception. */
  lemma MoneyRejects(x: string)
    requires ParseFloat(MoneyInput(x)) == None
    ensures Money(x) == []
  {
  }

  /** A separator U+001C to U+001F anywhere in the text reaches `float()`, so `money` gives "". */
  lemma MoneyRejectsSeparator(x: string, i: nat)
    requires i < |x| && IsSeparator(x[i])
    ensures Money(x) == []
  {
    RemoveCharKeeps(x, ',', i);
    var y := RemoveChar(x, ',');
    var j :| 0 <= j < |y| && y[j] == x[i];
    RemoveCharKeeps(y, '$', j);
    var z := MoneyInput(x);
    var k :| 0 <= k < |z| && z[k] == x[i];
    ParseFloatRejectsSeparator(z, k);
  }

  /** "$" + t, for a `t` with no comma and no dollar sign, goes to `float()` as `t`. */
  lemma MoneyInputOfDollar(t: string)
    requires forall i :: 0 <= i < |t| ==> t[i] != ',' && t[i] != '$'
    ensures MoneyInput("$" + t) == t
  {
    RemoveCharAppend("$", t, ',');
    RemoveCharAbsent(t, ',');
    assert RemoveChar("$", ',') == "$";
    RemoveCharAppend("$", t, '$');
    RemoveCharAbsent(t, '$');
    assert RemoveChar("$", '$') == [];
  }

  /** Formatting money twice is formatting it once. */
  lemma MoneyIdempotent(x: string)
    requires Money(x) != []
    ensures Money(Money(x)) == Money(x)
  {
    match ParseFloat(MoneyInput(x))
    case Some(Finite(d)) =>
      var c := Cents(d);
      var e := Decimal(d.negative, NatText(c / 100), TwoDigits(c % 100));
      MoneyReadsBack(x, d);
      DollarShowReadsBack(Money(x), e);
      MoneyFinite(Money(x), e);
      MoneyFinite(x, d);
    case Some(Infinity(neg)) =>
      InfinityMoneyReadsBack(neg);
    case Some(NaN) =>
      NaNMoneyReadsBack();
  }

  /** Money text whose comma-free form is "$" + Show(e) goes to `float()` as Show(e). */
  lemma DollarShowReadsBack(m: string, e: Decimal)
    requires WellFormed(e) && RemoveChar(m, ',') == "$" + Show(e)
    ensures MoneyInput(m) == Show(e)
  {
    ShowChars(e);
    RemoveCharAppend("$", Show(e), '$');
    RemoveCharAbsent(Show(e), '$');
    assert RemoveChar("$", '$') == [];
  }

  lemma ShowChars(e: Decimal)
    requires WellFormed(e)
    ensures forall i :: 0 <= i < |Show(e)| ==> Show(e)[i] == '-' || Show(e)[i] == '.' || IsDigit(Show(e)[i])
  {
    var sign := if e.negative then "-" else "";
    var tail := if e.frac == [] then "" else "." + e.frac;
    assert Show(e) == sign + e.whole + tail;
  }

  /** `money` of the text `str()` writes for a finite amount is the money text of that amount. */
  lemma MoneyOfShown(d: Decimal)
    requires WellFormed(d)
    ensures Money(Show(d)) == MoneyOf(Finite(d))
  {
    ShowChars(d);
    RemoveCharAbsent(Show(d), ',');
    RemoveCharAbsent(Show(d), '$');
    ParseShow(d);
  }

  lemma ReadInf()
    ensures ParseFloat("inf") == Some(Infinity(false)) && ParseFloat("-inf") == Some(Infinity(true))
  {
    assert IsTrimmed("inf") && IsTrimmed("-inf");
    ParseUnsignedText("inf");
    assert IsLowerCase("inf");
    LowerOfLowerCase("inf");
    assert "-inf"[1..] == "inf";
    assert FloatStrip("-inf") == "-inf";
  }

  lemma InfinityMoneyReadsBack(neg: bool)
    ensures Money(MoneyOf(Infinity(neg))) == MoneyOf(Infinity(neg))
  {
    var t := if neg then "-inf" else "inf";
    assert MoneyOf(Infinity(neg)) == "$" + t;
    MoneyInputOfDollar(t);
    ReadInf();
  }

  lemma ReadNaN()
    ensures ParseFloat("nan") == Some(NaN)
  {
    assert IsTrimmed("nan");
    ParseUnsignedText("nan");
    assert IsLowerCase("nan");
    LowerOfLowerCase("nan");
  }

  lemma NaNMoneyReadsBack()
    ensures Money(MoneyOf(NaN)) == MoneyOf(NaN)
  {
    assert MoneyOf(NaN) == "$" + "nan";
    MoneyInputOfDollar("nan");
    ReadNaN();
  }

  lemma Read12345()
    ensures ParseFloat("1234.5") == Some(Finite(Decimal(false, "1234", "5")))
  {
    ReadsAs("1234.5", Decimal(false, "1234", "5"));
  }

  lemma Value1234()
    ensures DigitsValue("1234") == 1234
  {
    assert "1234"[..3] == "123" && "123"[..2] == "12" && "12"[..1] == "1";
  }

  lemma Cents12345()
    ensures Cents(Decimal(false, "1234", "5")) == 123450
  {
    assert Frac3("5") == "500";
    Value1234();
  }

  lemma Text1234()
    ensures NatText(1234) == "1234" && GroupThousands("1234") == "1,234"
  {
    NatTextOfDigits("1234");
    Value1234();
    assert "1234"[..1] == "1";
    assert "1234"[1..] == "234";
  }

  lemma Fixed12345()
    ensures FormatFixed2(false, 123450) == "1,234.50"
  {
    assert 123450 / 100 == 1234 && 123450 % 100 == 50;
    Text1234();
    assert TwoDigits(50) == "50";
    assert FormatFixed2(false, 123450) == "" + GroupThousands(NatText(1234)) + "." + TwoDigits(50);
  }

  lemma MoneyOfText(x: string, d: Decimal, text: string)
    requires ParseFloat(MoneyInput(x)) == Some(Finite(d))
    requires FormatFixed2(d.negative, Cents(d)) == text
    ensures Money(x) == "$" + text
  {
    MoneyFinite(x, d);
  }

  lemma MoneyOf12345(x: string)
    requires MoneyInput(x) == "1234.5"
    ensures Money(x) == "$1,234.50"
  {
    assert "$" + "1,234.50" == "$1,234.50";
    Read12345();
    Cents12345();
    Fixed12345();
    MoneyOfText(x, Decimal(false, "1234", "5"), "1,234.50");
  }

  /** 1234.5 gives "$1,234.50". */
  lemma MoneyExample()
    ensures Money("1234.5") == "$1,234.50"
  {
    RemoveCharAbsent("1234.5", ',');
    RemoveCharAbsent("1234.5", '$');
    MoneyOf12345("1234.5");
  }

  /** "$1,234.5" is read as the same amount. */
  lemma MoneyExampleWithSymbols()
    ensures Money("$1,234.5") == "$1,234.50"
  {
    assert "$1,234.5" == "$1" + [','] + "234.5";
    RemoveCharOnce("$1", "234.5", ',');
    assert "$1" + "234.5" == [] + ['$'] + "1234.5";
    RemoveCharOnce([], "1234.5", '$');
    MoneyOf12345("$1,234.5");
  }

  lemma BodyAbc()
    ensures ParseBody(false, "abc") == None
  {
    assert Lower("abc")[0] == 'a';
    assert IndexOf("abc", '.') == None;
    assert !AllDigits("abc") by {
      assert "abc"[0] == 'a';
    }
  }

  lemma RejectAbc()
    ensures ParseFloat("abc") == None
  {
    assert IsTrimmed("abc");
    ParseUnsignedText("abc");
    BodyAbc();
  }

  /** "abc" gives "". */
  lemma MoneyExampleRejected()
    ensures Money("abc") == ""
  {
    RemoveCharAbsent("abc", ',');
    RemoveCharAbsent("abc", '$');
    RejectAbc();
  }
}
