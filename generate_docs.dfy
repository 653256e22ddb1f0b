/**
  The per-row logic of generate_docs.py: cleaning cells, finding the columns
  of a placeholder among the suffixed headers pandas produces, the choice of
  Letter 1, Letter 2 or no document for each row, and the context and file
  name of each document. Reading the CSV, the file system, the clock and the
  rendering of the templates are outside: the table, which files exist, the
  fallback date and the month of a date come in as parameters.
*/
module GenerateDocs {
  import opened Wrappers
  import opened Strings
  import opened Tables
  import opened Sequences

  // ------------------------------------------------------------ clean_value

  /**
    Lines 16-21: an empty (NaN or None) cell, blank text and any casing of
    "nan" or "none" become ""; other text comes back stripped.
  */
  function CleanValue(v: Option<string>): (r: string)
    ensures IsTrimmed(r)
    ensures r != [] ==> Lower(r) != "nan" && Lower(r) != "none"
    ensures r == [] || (v.Some? && r == Trim(v.value))
  {
    match v
    case None => []
    case Some(x) =>
      var s := Trim(x);
      if Lower(s) == "nan" || Lower(s) == "none" then [] else s
  }

  /** Text that survives keeps its stripped form: cleaning is the identity on what it produces. */
  lemma CleanValueIdempotent(v: Option<string>)
    ensures CleanValue(Some(CleanValue(v))) == CleanValue(v)
  {
    var r := CleanValue(v);
    if r == [] {
      assert Lower(Trim(r)) == [];
    }
  }

  /** Stripped text that is not a spelling of "nan" or "none" is kept as it is. */
  lemma CleanValueKeeps(x: string)
    requires Lower(Trim(x)) != "nan" && Lower(Trim(x)) != "none"
    ensures CleanValue(Some(x)) == Trim(x)
  {
  }

  /** Any casing of "nan" or "none", with any whitespace around it, is empty. */
  lemma CleanValueDropsNanNone(x: string)
    requires Lower(Trim(x)) == "nan" || Lower(Trim(x)) == "none"
    ensures CleanValue(Some(x)) == []
  {
  }

  lemma LowerNaN()
    ensures Lower("NaN") == "nan" && Lower("None") == "none"
  {
    assert Lower("NaN")[1] == 'a';
    assert Lower("None")[1] == 'o';
  }

  /** The two spellings pandas and Python give an empty cell when it is written out as text. */
  lemma CleanValueExamples()
    ensures CleanValue(Some("NaN")) == [] && CleanValue(Some("None")) == []
  {
    assert IsTrimmed("NaN") && IsTrimmed("None");
    LowerNaN();
    CleanValueDropsNanNone("NaN");
    CleanValueDropsNanNone("None");
  }

  // ----------------------------------------------------------- resolve_cols

  /** Line 40: the header itself, or a copy pandas suffixed on reading ("h.1", "h.2", ...). */
  predicate Matches(c: string, base: string) {
    c == base || StartsWith(c, base + ".")
  }

  /** The matching columns in header order. */
  function MatchingColumns(columns: seq<string>, base: string): (r: seq<string>)
    ensures forall x :: x in r <==> x in columns && Matches(x, base)
  {
    if columns == [] then []
    else (if Matches(columns[0], base) then [columns[0]] else []) + MatchingColumns(columns[1..], base)
  }

  /** The sort key of line 42 as an order: the header itself first, then the rest by code points. */
  predicate KeyLe(a: string, b: string, base: string) {
    a == base || (b != base && (a == b || Less(a, b)))
  }

  predicate SortedByKey(s: seq<string>, base: string) {
    forall i, j :: 0 <= i < j < |s| ==> KeyLe(s[i], s[j], base)
  }

  lemma KeyLeTotal(a: string, b: string, base: string)
    ensures KeyLe(a, b, base) || KeyLe(b, a, base)
  {
    LessTotal(a, b);
  }

  lemma KeyLeTransitive(a: string, b: string, c: string, base: string)
    requires KeyLe(a, b, base) && KeyLe(b, c, base)
    ensures KeyLe(a, c, base)
  {
    if a != base && a != b && b != c {
      LessTransitive(a, b, c);
    }
  }

  lemma KeyLeAntisymmetric(a: string, b: string, base: string)
    requires KeyLe(a, b, base) && KeyLe(b, a, base)
    ensures a == b
  {
    if a != b && a != base && b != base {
      LessAsymmetric(a, b);
    }
  }

  function InsertByKey(x: string, s: seq<string>, base: string): (r: seq<string>)
    ensures multiset(r) == multiset(s) + multiset{x}
  {
    if s == [] then [x]
    else if KeyLe(x, s[0], base) then [x] + s
    else
      assert s == [s[0]] + s[1..];
      [s[0]] + InsertByKey(x, s[1..], base)
  }

  /** `sorted` with the key of line 42, written as an insertion sort. */
  function SortByKey(s: seq<string>, base: string): (r: seq<string>)
    ensures multiset(r) == multiset(s)
  {
    if s == [] then []
    else
      assert s == [s[0]] + s[1..];
      InsertByKey(s[0], SortByKey(s[1..], base), base)
  }

  /** Lines 34-42. */
  function ResolveCols(columns: seq<string>, base: string): seq<string> {
    SortByKey(MatchingColumns(columns, base), base)
  }

  lemma SortedCons(y: string, s: seq<string>, base: string)
    requires SortedByKey(s, base)
    requires forall z :: z in s ==> KeyLe(y, z, base)
    ensures SortedByKey([y] + s, base)
  {
    var t := [y] + s;
    forall i, j | 0 <= i < j < |t|
      ensures KeyLe(t[i], t[j], base)
    {
      assert t[j] == s[j - 1];
      if i > 0 {
        assert t[i] == s[i - 1];
      }
    }
  }

  lemma {:induction false} InsertSorted(x: string, s: seq<string>, base: string)
    requires SortedByKey(s, base)
    ensures SortedByKey(InsertByKey(x, s, base), base)
  {
    if s == [] {
    } else if KeyLe(x, s[0], base) {
      forall z | z in s
        ensures KeyLe(x, z, base)
      {
        var k :| 0 <= k < |s| && s[k] == z;
        if k > 0 {
          KeyLeTransitive(x, s[0], z, base);
        }
      }
      SortedCons(x, s, base);
    } else {
      KeyLeTotal(x, s[0], base);
      var t := s[1..];
      assert SortedByKey(t, base);
      InsertSorted(x, t, base);
      var r := InsertByKey(x, t, base);
      forall z | z in r
        ensures KeyLe(s[0], z, base)
      {
        assert z in multiset(r);
        if z != x {
          var k :| 0 <= k < |t| && t[k] == z;
          assert s[k + 1] == z;
        }
      }
      SortedCons(s[0], r, base);
    }
  }

  lemma {:induction false} SortByKeySorted(s: seq<string>, base: string)
    ensures SortedByKey(SortByKey(s, base), base)
  {
    if s != [] {
      SortByKeySorted(s[1..], base);
      InsertSorted(s[0], SortByKey(s[1..], base), base);
    }
  }

  lemma MultisetTail(s: seq<string>)
    requires s != []
    ensures multiset(s) == multiset{s[0]} + multiset(s[1..])
  {
    assert s == [s[0]] + s[1..];
  }

  /** Two arrangements of the same columns that both follow the key are the same list. */
  lemma {:induction false} SortedUnique(s: seq<string>, t: seq<string>, base: string)
    requires SortedByKey(s, base) && SortedByKey(t, base)
    requires multiset(s) == multiset(t)
    ensures s == t
    decreases |s|
  {
    if s != [] {
      assert |t| == |multiset(t)| == |s|;
      assert s[0] in multiset(t) && t[0] in multiset(s);
      var i :| 0 <= i < |t| && t[i] == s[0];
      var j :| 0 <= j < |s| && s[j] == t[0];
      assert KeyLe(t[0], s[0], base) by {
        if i > 0 {
          assert KeyLe(t[0], t[i], base);
        }
      }
      assert KeyLe(s[0], t[0], base) by {
        if j > 0 {
          assert KeyLe(s[0], s[j], base);
        }
      }
      KeyLeAntisymmetric(s[0], t[0], base);
      MultisetTail(s);
      MultisetTail(t);
      assert multiset(s[1..]) == multiset(s) - multiset{s[0]};
      assert multiset(t[1..]) == multiset(t) - multiset{t[0]};
      SortedUnique(s[1..], t[1..], base);
    }
  }

  /**
    The resolved columns are exactly the matching headers, none lost and none
    added, in the order of the key: the header itself first when present, the
    suffixed copies after it in code-point order (so "h.10" before "h.2"); and
    that arrangement is the only one the key allows.
  */
  lemma ResolveColsFacts(columns: seq<string>, base: string)
    ensures var r := ResolveCols(columns, base);
      && multiset(r) == multiset(MatchingColumns(columns, base))
      && (forall x :: x in r <==> x in columns && Matches(x, base))
      && SortedByKey(r, base)
      && (base in columns ==> r != [] && r[0] == base)
      && forall t :: multiset(t) == multiset(MatchingColumns(columns, base)) && SortedByKey(t, base) ==> t == r
  {
    var m := MatchingColumns(columns, base);
    var r := ResolveCols(columns, base);
    SortByKeySorted(m, base);
    forall x
      ensures x in r <==> x in m
    {
      assert x in r <==> x in multiset(r);
    }
    if base in columns {
      var k :| 0 <= k < |r| && r[k] == base;
      if k > 0 {
        assert KeyLe(r[0], r[k], base);
      }
    }
    forall t | multiset(t) == multiset(m) && SortedByKey(t, base)
      ensures t == r
    {
      SortedUnique(t, r, base);
    }
  }

  // ----------------------------------------------------- get_first_nonempty

  /** The first non-empty text of a list, or "" when all are empty. */
  function FirstNonEmpty(vals: seq<string>): string {
    if vals == [] then []
    else if vals[0] != [] then vals[0]
    else FirstNonEmpty(vals[1..])
  }

  lemma {:induction false} FirstNonEmptyPicksFirst(vals: seq<string>)
    ensures FirstNonEmpty(vals) == [] <==> forall i :: 0 <= i < |vals| ==> vals[i] == []
    ensures forall k :: (0 <= k < |vals| && vals[k] != [] && (forall j :: 0 <= j < k ==> vals[j] == [])
        ==> FirstNonEmpty(vals) == vals[k])
  {
    if vals != [] && vals[0] == [] {
      FirstNonEmptyPicksFirst(vals[1..]);
      assert forall i :: 1 <= i < |vals| ==> vals[i] == vals[1..][i - 1];
    }
  }

  /** The cleaned cells of the listed columns, in their order. */
  function CleanedCells(row: Row, cols: seq<string>): (vals: seq<string>)
    ensures |vals| == |cols|
    ensures forall i :: 0 <= i < |cols| ==> vals[i] == CleanValue(Get(row, cols[i]))
  {
    if cols == [] then []
    else [CleanValue(Get(row, cols[0]))] + CleanedCells(row, cols[1..])
  }

  /**
    Lines 44-51: the cleaned value of the first listed column that is
    non-empty after cleaning, or "" when there is none. A column absent from
    the row reads as an empty cell, so the membership test of line 47 needs
    no case of its own.
  */
  function GetFirstNonempty(row: Row, cols: seq<string>): string {
    FirstNonEmpty(CleanedCells(row, cols))
  }

  /**
    The search skips every column that is absent or empty after cleaning: it
    gives "" exactly when all are, and otherwise the cleaned value of the
    first that is not.
  */
  lemma GetFirstNonemptyPicksFirst(row: Row, cols: seq<string>)
    ensures GetFirstNonempty(row, cols) == [] <==> forall i :: 0 <= i < |cols| ==> CleanValue(Get(row, cols[i])) == []
    ensures forall k :: (0 <= k < |cols| && CleanValue(Get(row, cols[k])) != []
        && (forall j :: 0 <= j < k ==> CleanValue(Get(row, cols[j])) == [])
        ==> GetFirstNonempty(row, cols) == CleanValue(Get(row, cols[k])))
  {
    var vals := CleanedCells(row, cols);
    FirstNonEmptyPicksFirst(vals);
    assert GetFirstNonempty(row, cols) == FirstNonEmpty(vals);
    forall k | 0 <= k < |cols| && CleanValue(Get(row, cols[k])) != []
        && (forall j :: 0 <= j < k ==> CleanValue(Get(row, cols[j])) == [])
      ensures GetFirstNonempty(row, cols) == CleanValue(Get(row, cols[k]))
    {
      assert vals[k] == CleanValue(Get(row, cols[k]));
      assert forall j :: 0 <= j < k ==> vals[j] == [];
    }
  }

  // ------------------------------------------------------- safe_folder_name

  /** The characters of the pattern on line 56. */
  predicate Forbidden(c: char) {
    c == '<' || c == '>' || c == ':' || c == '"' || c == '/' || c == '\\' || c == '|' || c == '?' || c == '*'
  }

  predicate NoForbidden(s: string) {
    forall i :: 0 <= i < |s| ==> !Forbidden(s[i])
  }

  /** `s` without its leading run of forbidden characters. */
  function DropForbidden(s: string): (r: string)
    ensures |r| <= |s| && r == s[|s| - |r|..]
    ensures r == [] || !Forbidden(r[0])
    ensures forall i :: 0 <= i < |s| - |r| ==> Forbidden(s[i])
  {
    if s != [] && Forbidden(s[0]) then DropForbidden(s[1..]) else s
  }

  /** The substitution of line 56: each run of forbidden characters becomes one "_". */
  function ReplaceRuns(s: string): (r: string)
    ensures NoForbidden(r)
    ensures r == [] <==> s == []
    decreases |s|
  {
    if s == [] then []
    else if Forbidden(s[0]) then "_" + ReplaceRuns(DropForbidden(s[1..]))
    else [s[0]] + ReplaceRuns(s[1..])
  }

  /** Lines 53-56: the cleaned name, "Unknown" when that is empty, with the runs replaced. */
  function SafeFolderName(name: string): (r: string)
    ensures r != [] && NoForbidden(r)
  {
    var n := CleanValue(Some(name));
    ReplaceRuns(if n == [] then "Unknown" else n)
  }

  /** Text without forbidden characters is left unchanged. */
  lemma {:induction false} ReplaceRunsKeeps(s: string)
    requires NoForbidden(s)
    ensures ReplaceRuns(s) == s
  {
    if s != [] {
      ReplaceRunsKeeps(s[1..]);
    }
  }

  /** Two pieces that do not split a run are replaced piece by piece. */
  lemma {:induction false} ReplaceRunsAppend(a: string, b: string)
    requires a == [] || b == [] || !Forbidden(a[|a| - 1]) || !Forbidden(b[0])
    ensures ReplaceRuns(a + b) == ReplaceRuns(a) + ReplaceRuns(b)
    decreases |a|
  {
    if a == [] {
      assert a + b == b;
    } else if !Forbidden(a[0]) {
      ReplaceRunsAppend(a[1..], b);
      AppendAfterPlain(a, b);
    } else if DropForbidden(a[1..]) == [] {
      RunBeforeText(a, b);
      AppendAfterWholeRun(a, b);
    } else {
      var d := DropForbidden(a[1..]);
      assert d[|d| - 1] == a[|a| - 1];
      ReplaceRunsAppend(d, b);
      AppendAfterRun(a, b);
    }
  }

  lemma AppendAfterPlain(a: string, b: string)
    requires a != [] && !Forbidden(a[0])
    requires ReplaceRuns(a[1..] + b) == ReplaceRuns(a[1..]) + ReplaceRuns(b)
    ensures ReplaceRuns(a + b) == ReplaceRuns(a) + ReplaceRuns(b)
  {
    var ab := a + b;
    assert ab[0] == a[0] && ab[1..] == a[1..] + b;
    assert ReplaceRuns(ab) == [a[0]] + ReplaceRuns(a[1..] + b);
    ConcatAssoc([a[0]], ReplaceRuns(a[1..]), ReplaceRuns(b));
  }

  lemma AppendAfterWholeRun(a: string, b: string)
    requires a != [] && Forbidden(a[0])
    requires forall i :: 0 <= i < |a[1..]| ==> Forbidden(a[1..][i])
    requires b == [] || !Forbidden(b[0])
    ensures ReplaceRuns(a + b) == ReplaceRuns(a) + ReplaceRuns(b)
  {
    var ab := a + b;
    assert ab[0] == a[0] && ab[1..] == a[1..] + b;
    DropForbiddenPast(a[1..], b);
    assert DropForbidden(a[1..]) == [];
  }

  lemma AppendAfterRun(a: string, b: string)
    requires a != [] && Forbidden(a[0]) && DropForbidden(a[1..]) != []
    requires ReplaceRuns(DropForbidden(a[1..]) + b) == ReplaceRuns(DropForbidden(a[1..])) + ReplaceRuns(b)
    ensures ReplaceRuns(a + b) == ReplaceRuns(a) + ReplaceRuns(b)
  {
    var d := DropForbidden(a[1..]);
    TailOfAppend(a, b);
    DropForbiddenWithin(a[1..], b);
    calc {
      ReplaceRuns(a + b);
      "_" + ReplaceRuns(DropForbidden(a[1..] + b));
      "_" + ReplaceRuns(d + b);
      "_" + (ReplaceRuns(d) + ReplaceRuns(b));
      { ConcatAssoc("_", ReplaceRuns(d), ReplaceRuns(b)); }
      ("_" + ReplaceRuns(d)) + ReplaceRuns(b);
    }
  }

  lemma TailOfAppend(a: string, b: string)
    requires a != []
    ensures (a + b)[0] == a[0] && (a + b)[1..] == a[1..] + b
  {
  }

  /** When a whole piece is a run, what follows it starts with a plain character, if with anything. */
  lemma RunBeforeText(a: string, b: string)
    requires a != [] && Forbidden(a[0]) && DropForbidden(a[1..]) == []
    requires a == [] || b == [] || !Forbidden(a[|a| - 1]) || !Forbidden(b[0])
    ensures forall i :: 0 <= i < |a[1..]| ==> Forbidden(a[1..][i])
    ensures b == [] || !Forbidden(b[0])
  {
    if |a| > 1 {
      assert a[|a| - 1] == a[1..][|a| - 2];
    }
  }

  lemma {:induction false} DropForbiddenPast(x: string, y: string)
    requires forall i :: 0 <= i < |x| ==> Forbidden(x[i])
    requires y == [] || !Forbidden(y[0])
    ensures DropForbidden(x + y) == y
    decreases |x|
  {
    if x == [] {
      assert x + y == y;
    } else {
      assert (x + y)[1..] == x[1..] + y;
      DropForbiddenPast(x[1..], y);
    }
  }

  lemma {:induction false} DropForbiddenWithin(x: string, y: string)
    requires DropForbidden(x) != []
    ensures DropForbidden(x + y) == DropForbidden(x) + y
    decreases |x|
  {
    if Forbidden(x[0]) {
      assert (x + y)[1..] == x[1..] + y;
      DropForbiddenWithin(x[1..], y);
    }
  }

  /** A non-empty run of forbidden characters alone becomes "_". */
  lemma ReplaceRunsOfRun(run: string)
    requires run != [] && forall i :: 0 <= i < |run| ==> Forbidden(run[i])
    ensures ReplaceRuns(run) == "_"
  {
    assert DropForbidden(run[1..]) == [];
  }

  /** A maximal run of forbidden characters, however long, becomes a single "_"; what surrounds it is replaced on its own. */
  lemma ReplaceRunsMaximalRun(a: string, run: string, b: string)
    requires a == [] || !Forbidden(a[|a| - 1])
    requires run != [] && forall i :: 0 <= i < |run| ==> Forbidden(run[i])
    requires b == [] || !Forbidden(b[0])
    ensures ReplaceRuns(a + run + b) == ReplaceRuns(a) + "_" + ReplaceRuns(b)
  {
    ReplaceRunsAppend(a, run);
    ReplaceRunsOfRun(run);
    ReplaceRunsAppend(a + run, b);
  }

  lemma NoForbiddenInUnknown()
    ensures NoForbidden("Unknown") && NoForbidden("Unknown_Account") && NoForbidden("Unknown_Association")
  {
  }

  /** A blank name becomes "Unknown". */
  lemma SafeFolderNameBlank(name: string)
    requires CleanValue(Some(name)) == []
    ensures SafeFolderName(name) == "Unknown"
  {
    NoForbiddenInUnknown();
    ReplaceRunsKeeps("Unknown");
  }

  /** A name that cleans to text without forbidden characters is that text. */
  lemma SafeFolderNameClean(name: string)
    requires CleanValue(Some(name)) != [] && NoForbidden(CleanValue(Some(name)))
    ensures SafeFolderName(name) == CleanValue(Some(name))
  {
    ReplaceRunsKeeps(CleanValue(Some(name)));
  }

  // ---------------------------------------------------------- the templates

  /** Which of the two template files exist (lines 62-63). */
  datatype Templates = Templates(letter1: bool, letter2: bool)

  datatype Letter = Letter1 | Letter2

  /** What a row gets: a document from one of the templates, or nothing. */
  datatype Choice = Use(letter: Letter) | Skip

  predicate TemplateExists(t: Templates, l: Letter) {
    match l
    case Letter1 => t.letter1
    case Letter2 => t.letter2
  }

  /** A template a row may use: it exists, and Letter 2 needs an offsite address. */
  predicate Usable(offsite: string, t: Templates, l: Letter) {
    TemplateExists(t, l) && (l == Letter2 ==> offsite != [])
  }

  /**
    Lines 132-144: Letter 2 when the row has an offsite address and its
    template exists, otherwise Letter 1 when its template exists, otherwise
    no document. That is: the most preferred usable template, Letter 2 over
    Letter 1, and nothing only when neither is usable.
  */
  function ChooseTemplate(offsite: string, t: Templates): (c: Choice)
    ensures c.Use? ==> Usable(offsite, t, c.letter)
    ensures c == Use(Letter1) ==> !Usable(offsite, t, Letter2)
    ensures c == Skip <==> !Usable(offsite, t, Letter1) && !Usable(offsite, t, Letter2)
  {
    if offsite != [] && t.letter2 then Use(Letter2)
    else if t.letter1 then Use(Letter1)
    else Skip
  }

  /** Why a run of generate_docs.py stops before the first row. */
  datatype Error = CsvNotFound | NoTemplates

  /** Lines 59-69: the input file must exist, and at least one template. */
  function CheckInputs(csvPresent: bool, t: Templates): (r: Option<Error>)
    ensures r.None? <==> csvPresent && (t.letter1 || t.letter2)
    ensures !csvPresent ==> r == Some(CsvNotFound)
    ensures csvPresent && !t.letter1 && !t.letter2 ==> r == Some(NoTemplates)
  {
    if !csvPresent then Some(CsvNotFound)
    else if !t.letter1 && !t.letter2 then Some(NoTemplates)
    else None
  }

  /**
    The run aborts for want of templates exactly when no row could get a
    document, whatever its offsite address.
  */
  lemma AbortExactlyWhenNothingUsable(t: Templates)
    ensures CheckInputs(true, t) == Some(NoTemplates) <==> forall offsite :: ChooseTemplate(offsite, t) == Skip
  {
    if t.letter2 {
      assert ChooseTemplate("x", t) == Use(Letter2);
    } else if t.letter1 {
      assert ChooseTemplate("", t) == Use(Letter1);
    }
  }

  /** With the Letter 1 template present no row is skipped. */
  lemma NoSkipWithLetter1(offsite: string, t: Templates)
    requires t.letter1
    ensures ChooseTemplate(offsite, t).Use?
  {
  }

  // ------------------------------------------------------------ the context

  /** The values a row yields for the placeholders (lines 99-107). */
  datatype Values = Values(
    date: string, ownersName: string, propertyAddress: string, associationName: string, accNum: string,
    lastDayOfMonth: string, emailAddress: string, amount: string, offsiteAddress: string)

  const OffsiteKey: string := "ownersOffsiteAddress"

  /** The placeholders every template is given, without their braces. */
  const BaseKeys: set<string> := {"date", "ownersName", "propertyAddress", "associationName", "accNum",
                                   "last_day_of_month", "emailAddress", "amount"}

  /** Lines 118-127. */
  function BaseContext(v: Values): (m: map<string, string>)
    ensures m.Keys == BaseKeys
  {
    map["date" := v.date, "ownersName" := v.ownersName, "propertyAddress" := v.propertyAddress,
        "associationName" := v.associationName, "accNum" := v.accNum, "last_day_of_month" := v.lastDayOfMonth,
        "emailAddress" := v.emailAddress, "amount" := v.amount]
  }

  /** Lines 135 and 142: the context of the chosen template. */
  function Context(v: Values, l: Letter): map<string, string> {
    match l
    case Letter1 => BaseContext(v)
    case Letter2 => BaseContext(v)[OffsiteKey := v.offsiteAddress]
  }

  /**
    Letter 1 gets the base context unchanged; Letter 2 gets the base context
    plus exactly one key, the offsite address, which the base does not have.
  */
  lemma ContextExtendsBase(v: Values)
    ensures Context(v, Letter1) == BaseContext(v)
    ensures OffsiteKey !in BaseContext(v)
    ensures Context(v, Letter2).Keys == BaseContext(v).Keys + {OffsiteKey}
    ensures forall k :: k in BaseContext(v) ==> Context(v, Letter2)[k] == BaseContext(v)[k]
    ensures Context(v, Letter2)[OffsiteKey] == v.offsiteAddress
  {
    assert forall k :: k in BaseKeys ==> |k| < |OffsiteKey|;
  }

  // ---------------------------------------------------------- the file name

  function LetterNumber(l: Letter): char {
    match l
    case Letter1 => '1'
    case Letter2 => '2'
  }

  /** Lines 137 and 144: "<account> - <month> - Letter N.docx". */
  function FileName(accSafe: string, month: string, l: Letter): (r: string)
    ensures StartsWith(r, accSafe + " - ")
    ensures EndsWith(r, " - Letter " + [LetterNumber(l)] + ".docx")
  {
    var r := accSafe + " - " + month + " - Letter " + [LetterNumber(l)] + ".docx";
    assert r == (accSafe + " - ") + (month + " - Letter " + [LetterNumber(l)] + ".docx");
    assert r == (accSafe + " - " + month) + (" - Letter " + [LetterNumber(l)] + ".docx");
    r
  }

  /** The file name tells which template made the document. */
  lemma FileNameTellsLetter(a: string, m: string, l: Letter, a': string, m': string, l': Letter)
    requires FileName(a, m, l) == FileName(a', m', l')
    ensures l == l'
  {
    var r := FileName(a, m, l);
    var s := " - Letter " + [LetterNumber(l)] + ".docx";
    var s' := " - Letter " + [LetterNumber(l')] + ".docx";
    assert r[|r| - 6] == s[|s| - 6];
    assert r[|r| - 6] == s'[|s'| - 6];
  }

  // --------------------------------------------------------------- one row

  /** The headers looked up for every row (lines 79-90). */
  const WantedHeaders: seq<string> := [
    "{{date}}", "{{ownersName}}", "{{propertyAddress}}", "{{associationName}}", "{{accNum}}",
    "{{last_day_of_month}}", "{{emailAddress}}", "{{amount}}", "{{ownersOffsiteAddress}}"
  ]

  /** Each wanted header with the columns it resolves to. */
  type ColumnMap = map<string, seq<string>>

  /** Line 91. */
  function ResolveAll(columns: seq<string>): (m: ColumnMap)
    ensures forall h :: h in m <==> h in WantedHeaders
    ensures forall h :: h in m ==> m[h] == ResolveCols(columns, h)
  {
    map h | h in WantedHeaders :: ResolveCols(columns, h)
  }

  /** `colmap.get(h, [])`: the columns of header `h`, none when it was not resolved. */
  function ColumnsOf(colmap: ColumnMap, h: string): seq<string> {
    if h in colmap then colmap[h] else []
  }

  /** The value of one placeholder in a row: the first non-empty cell among its columns. */
  function Field(colmap: ColumnMap, row: Row, h: string): string {
    GetFirstNonempty(row, ColumnsOf(colmap, h))
  }

  /** Lines 99-107: the row's values, the date falling back to `now`. */
  function RowValues(colmap: ColumnMap, row: Row, now: string): Values {
    var date := Field(colmap, row, "{{date}}");
    Values(if date == [] then now else date,
           Field(colmap, row, "{{ownersName}}"),
           Field(colmap, row, "{{propertyAddress}}"),
           Field(colmap, row, "{{associationName}}"),
           Field(colmap, row, "{{accNum}}"),
           Field(colmap, row, "{{last_day_of_month}}"),
           Field(colmap, row, "{{emailAddress}}"),
           Field(colmap, row, "{{amount}}"),
           Field(colmap, row, "{{ownersOffsiteAddress}}"))
  }

  /** What becomes of one row: a document in the association's folder, or a skip. */
  datatype Outcome =
    | Generated(folder: string, fileName: string, letter: Letter, context: map<string, string>)
    | Skipped(accSafe: string, assocSafe: string)

  /** Lines 110-111: the sanitised account number and association, with their fallbacks. */
  function AccountPart(v: Values): string {
    SafeFolderName(if v.accNum == [] then "Unknown_Account" else v.accNum)
  }

  function AssociationPart(v: Values): string {
    SafeFolderName(if v.associationName == [] then "Unknown_Association" else v.associationName)
  }

  /** Lines 99-144 for one row; `monthOf` stands for `parse_month_from_date`. */
  function RowOutcome(colmap: ColumnMap, row: Row, t: Templates, now: string, monthOf: string -> string): Outcome {
    var v := RowValues(colmap, row, now);
    match ChooseTemplate(v.offsiteAddress, t)
    case Skip => Skipped(AccountPart(v), AssociationPart(v))
    case Use(l) => Generated(AssociationPart(v), FileName(AccountPart(v), monthOf(v.date), l), l, Context(v, l))
  }

  /** A fallback name: stripped, longer than "none", and free of forbidden characters, so kept as it is. */
  lemma SafeFolderNameKeeps(name: string)
    requires IsTrimmed(name) && |name| > 4 && NoForbidden(name)
    ensures SafeFolderName(name) == name
  {
    assert |Lower(name)| == |name|;
    ReplaceRunsKeeps(name);
  }

  /** An empty account number is written "Unknown_Account" in the file name. */
  lemma UnknownAccountPart(v: Values)
    requires v.accNum == []
    ensures AccountPart(v) == "Unknown_Account"
  {
    NoForbiddenInUnknown();
    SafeFolderNameKeeps("Unknown_Account");
  }

  /** An empty association is written "Unknown_Association" in the folder name. */
  lemma UnknownAssociationPart(v: Values)
    requires v.associationName == []
    ensures AssociationPart(v) == "Unknown_Association"
  {
    NoForbiddenInUnknown();
    SafeFolderNameKeeps("Unknown_Association");
  }

  /**
    Every document of a row uses a template that exists, Letter 2 exactly when
    the row has an offsite address and that template exists, with the matching
    context and a file name that ends in the letter's number and starts with
    the account part; a row is skipped exactly when neither template can be
    used.
  */
  lemma RowOutcomeFacts(colmap: ColumnMap, row: Row, t: Templates, now: string, monthOf: string -> string)
    ensures var v := RowValues(colmap, row, now);
      var o := RowOutcome(colmap, row, t, now, monthOf);
      && (o.Skipped? <==> !Usable(v.offsiteAddress, t, Letter1) && !Usable(v.offsiteAddress, t, Letter2))
      && (o.Generated? ==> (TemplateExists(t, o.letter)
          && (o.letter == Letter2 <==> v.offsiteAddress != [] && t.letter2)
          && o.context == Context(v, o.letter)
          && o.folder == AssociationPart(v) && o.folder != [] && NoForbidden(o.folder)
          && StartsWith(o.fileName, AccountPart(v) + " - ")
          && EndsWith(o.fileName, " - Letter " + [LetterNumber(o.letter)] + ".docx")))
  {
  }

  // ---------------------------------------------------------------- the run

  /** The per-row step of the loop, with everything but the row fixed. */
  function PerRow(colmap: ColumnMap, t: Templates, now: string, monthOf: string -> string): Row -> Outcome {
    row => RowOutcome(colmap, row, t, now, monthOf)
  }

  /** Every row's outcome: one per row, the `k`-th that of the `k`-th row. */
  function Plan(colmap: ColumnMap, rows: seq<Row>, t: Templates, now: string, monthOf: string -> string): (r: seq<Outcome>)
    ensures |r| == |rows|
    ensures forall k :: 0 <= k < |rows| ==> r[k] == RowOutcome(colmap, rows[k], t, now, monthOf)
  {
    Map(PerRow(colmap, t, now, monthOf), rows)
  }

  lemma PlanSnoc(colmap: ColumnMap, rows: seq<Row>, row: Row, t: Templates, now: string, monthOf: string -> string)
    ensures Plan(colmap, rows + [row], t, now, monthOf) == Plan(colmap, rows, t, now, monthOf) + [RowOutcome(colmap, row, t, now, monthOf)]
  {
    MapSnoc(PerRow(colmap, t, now, monthOf), rows, row);
  }

  /**
    Over a whole run: with the Letter 1 template present no row is skipped,
    every document comes from a template that exists, and Letter 2 only for
    rows with an offsite address.
  */
  lemma PlanFacts(colmap: ColumnMap, rows: seq<Row>, t: Templates, now: string, monthOf: string -> string)
    ensures var plan := Plan(colmap, rows, t, now, monthOf);
      forall k :: 0 <= k < |plan| ==>
        && (t.letter1 ==> plan[k].Generated?)
        && (plan[k].Generated? ==> TemplateExists(t, plan[k].letter))
        && (plan[k].Generated? && plan[k].letter == Letter2 ==> RowValues(colmap, rows[k], now).offsiteAddress != [])
  {
    var plan := Plan(colmap, rows, t, now, monthOf);
    forall k | 0 <= k < |plan|
      ensures t.letter1 ==> plan[k].Generated?
      ensures plan[k].Generated? ==> TemplateExists(t, plan[k].letter)
      ensures plan[k].Generated? && plan[k].letter == Letter2 ==> RowValues(colmap, rows[k], now).offsiteAddress != []
    {
      RowOutcomeFacts(colmap, rows[k], t, now, monthOf);
    }
  }

  /**
    Lines 59-144: the checks, then every row in turn. The documents listed
    are the ones the loop hands to the template engine.
  */
  method GenerateDocs(csvPresent: bool, t: Templates, table: Table, now: string, monthOf: string -> string)
    returns (r: Result<seq<Outcome>, Error>)
    ensures CheckInputs(csvPresent, t).Some? ==> r == Failure(CheckInputs(csvPresent, t).value)
    ensures CheckInputs(csvPresent, t).None? ==> r == Success(Plan(ResolveAll(table.columns), table.rows, t, now, monthOf))
  {
    if !csvPresent {
      return Failure(CsvNotFound);
    }
    if !t.letter1 && !t.letter2 {
      return Failure(NoTemplates);
    }
    var colmap := ResolveAll(table.columns);
    var outcomes: seq<Outcome> := [];
    var i := 0;
    while i < |table.rows|
      invariant 0 <= i <= |table.rows|
      invariant outcomes == Plan(colmap, table.rows[..i], t, now, monthOf)
    {
      var row := table.rows[i];
      var outcome := RowOutcome(colmap, row, t, now, monthOf);
      TakeSnoc(table.rows, i);
      PlanSnoc(colmap, table.rows[..i], row, t, now, monthOf);
      outcomes := outcomes + [outcome];
      i := i + 1;
    }
    TakeAll(table.rows);
    return Success(outcomes);
  }
}
