/**
  The script body of execution.py: the schema guards, the balance and
  address-type filter, the association-to-email index built from the roster,
  and one export row per account. File discovery, reading and writing the
  CSV files and the clock are outside: the tables, whether the roster exists
  and the two date strings come in as parameters.
*/
module Execution {
  import opened Wrappers
  import opened Strings
  import opened Numerals
  import opened Tables
  import opened Fields
  import opened Grouping
  import opened Sequences

  const BalanceColumn: string := "Balance"
  const AddressTypeColumn: string := "Address Type"
  const RequiredColumns: seq<string> := [BalanceColumn, AddressTypeColumn, AccountColumn]
  const PropertyAddress: string := "Property Address"
  const OffsiteAddress: string := "Owner's Offsite Address"
  const RosterAssociationColumn: string := "Association Name"

  /** The columns of the export, duplicates included, in their order. */
  const ExportHeaders: seq<string> := [
    "{{date}}", "{{ownersName}}", "{{propertyAddress}}", "{{associationName}}", "{{accNum}}",
    "{{propertyAddress}}", "{{last_day_of_month}}", "{{emailAddress}}", "{{accNum}}", "{{amount}}"
  ]

  /** Why the run stops (each is a `SystemExit`, or the ValueError of the balance conversion). */
  datatype Error =
    | MissingColumn(column: string)
    | NoAssociationColumn
    | BadBalance(text: string)
    | RosterNotFound
    | RosterWithoutAssociationName
    | RosterWithoutEmailColumn

  /** The two dates the export carries, formatted by the caller. */
  datatype Dates = Dates(today: string, lastDayOfMonth: string)

  // ----------------------------------------------------------------- guards

  /** The first required column the header lacks, if any. */
  function MissingRequired(columns: seq<string>): (r: Option<string>)
    ensures r.None? <==> forall i :: 0 <= i < |RequiredColumns| ==> RequiredColumns[i] in columns
    ensures r.Some? ==> exists i :: (0 <= i < |RequiredColumns| && r.value == RequiredColumns[i] && r.value !in columns
        && forall j :: 0 <= j < i ==> RequiredColumns[j] in columns)
  {
    assert RequiredColumns[0] == BalanceColumn && RequiredColumns[1] == AddressTypeColumn && RequiredColumns[2] == AccountColumn;
    if BalanceColumn !in columns then Some(BalanceColumn)
    else if AddressTypeColumn !in columns then Some(AddressTypeColumn)
    else if AccountColumn !in columns then Some(AccountColumn)
    else None
  }

  /** Lines 99-107: the required columns, then an association column; on success, that column. */
  function CheckColumns(columns: seq<string>): (r: Result<string, Error>)
    ensures r.Success? <==> MissingRequired(columns).None? && PickAssocColumn(columns).Some?
    ensures r.Success? ==> r.value == PickAssocColumn(columns).value && r.value in columns
    ensures MissingRequired(columns).Some? ==> r == Failure(MissingColumn(MissingRequired(columns).value))
    ensures MissingRequired(columns).None? && PickAssocColumn(columns).None? ==> r == Failure(NoAssociationColumn)
  {
    match MissingRequired(columns)
    case Some(c) => Failure(MissingColumn(c))
    case None =>
      match PickAssocColumn(columns)
      case None => Failure(NoAssociationColumn)
      case Some(a) => Success(a)
  }

  /** Lines 128-136: the roster must exist, have 'Association Name', and a column naming an email; on success, that column. */
  function CheckRoster(present: bool, columns: seq<string>): (r: Result<string, Error>)
    ensures r.Success? <==> present && RosterAssociationColumn in columns && FindEmailColumn(columns).Some?
    ensures r.Success? ==> r.value == FindEmailColumn(columns).value && r.value in columns
    ensures !present ==> r == Failure(RosterNotFound)
    ensures present && RosterAssociationColumn !in columns ==> r == Failure(RosterWithoutAssociationName)
    ensures present && RosterAssociationColumn in columns && FindEmailColumn(columns).None? ==> r == Failure(RosterWithoutEmailColumn)
  {
    if !present then Failure(RosterNotFound)
    else if RosterAssociationColumn !in columns then Failure(RosterWithoutAssociationName)
    else match FindEmailColumn(columns)
      case None => Failure(RosterWithoutEmailColumn)
      case Some(e) => Success(e)
  }

  // ---------------------------------------------------------------- filter

  /**
    Lines 110-115 on one row: an empty cell is NaN, "$" and "," are removed,
    text that is then empty is 0, and anything else must satisfy `float()`
    (None: the conversion raises and the run stops).
  */
  function BalanceOf(row: Row): (r: Option<Float>)
    ensures r.Some? && r.value.Finite? ==> WellFormed(r.value.d)
    ensures r.None? ==> BalanceColumn in row
  {
    if BalanceColumn !in row then Some(NaN)
    else
      var t := MoneyInput(row[BalanceColumn]);
      if t == [] then Some(Finite(Decimal(false, "0", ""))) else ParseFloat(t)
  }

  /** `balance >= 10.00` on what `float()` yields: NaN and negative infinity fail it. */
  predicate AtLeastTenDollars(f: Float)
    requires f.Finite? ==> WellFormed(f.d)
  {
    match f
    case Finite(d) => AtLeastTen(d)
    case Infinity(negative) => !negative
    case NaN => false
  }

  /** Line 121: the address type is one of the two kept exactly (an empty cell is neither). */
  predicate KeptType(row: Row) {
    AddressTypeColumn in row && (row[AddressTypeColumn] == PropertyAddress || row[AddressTypeColumn] == OffsiteAddress)
  }

  /** A row both filters keep. */
  predicate Eligible(row: Row) {
    BalanceOf(row).Some? && AtLeastTenDollars(BalanceOf(row).value) && KeptType(row)
  }

  /**
    Lines 110-121 on the whole table: the balance conversion runs over every
    row first, so one bad balance stops the run whatever its other cells hold;
    otherwise the rows both filters keep, in order.
  */
  function FilterRows(rows: seq<Row>): Result<seq<Row>, Error> {
    if rows == [] then Success([])
    else match BalanceOf(rows[0])
      case None => Failure(BadBalance(rows[0][BalanceColumn]))
      case Some(b) =>
        match FilterRows(rows[1..])
        case Failure(e) => Failure(e)
        case Success(kept) => Success(if Eligible(rows[0]) then [rows[0]] + kept else kept)
  }

  /**
    The filter fails exactly when some balance does not convert, on the first
    such row; otherwise it keeps exactly the eligible rows, in input order.
  */
  lemma {:induction false} FilterRowsFacts(rows: seq<Row>)
    ensures FilterRows(rows).Failure? <==> exists i :: 0 <= i < |rows| && BalanceOf(rows[i]).None?
    ensures FilterRows(rows).Failure? ==> exists i :: (0 <= i < |rows| && BalanceOf(rows[i]).None?
        && (forall j :: 0 <= j < i ==> BalanceOf(rows[j]).Some?)
        && FilterRows(rows).error == BadBalance(rows[i][BalanceColumn]))
    ensures FilterRows(rows).Success? ==> FilterRows(rows).value == Kept(rows)
  {
    if rows != [] {
      FilterRowsFacts(rows[1..]);
      assert forall i :: 1 <= i < |rows| ==> rows[i] == rows[1..][i - 1];
      if BalanceOf(rows[0]).Some? && FilterRows(rows[1..]).Failure? {
        var i :| 0 <= i < |rows[1..]| && BalanceOf(rows[1..][i]).None?
          && (forall j :: 0 <= j < i ==> BalanceOf(rows[1..][j]).Some?)
          && FilterRows(rows[1..]).error == BadBalance(rows[1..][i][BalanceColumn]);
        assert BalanceOf(rows[i + 1]).None?;
        assert forall j :: 1 <= j < i + 1 ==> BalanceOf(rows[j]).Some?;
      }
    }
  }

  /** The eligible rows, in input order. */
  function Kept(rows: seq<Row>): (r: seq<Row>)
    ensures forall k :: 0 <= k < |r| ==> Eligible(r[k])
    ensures forall x :: x in r <==> x in rows && Eligible(x)
  {
    if rows == [] then []
    else (if Eligible(rows[0]) then [rows[0]] else []) + Kept(rows[1..])
  }

  /** A balance cell whose cleaned text is non-empty is what `float()` reads from that text. */
  lemma BalanceOfText(row: Row, t: string, f: Float)
    requires BalanceColumn in row && MoneyInput(row[BalanceColumn]) == t
    requires t != [] && ParseFloat(t) == Some(f)
    ensures BalanceOf(row) == Some(f)
  {
  }

  lemma Input1000()
    ensures MoneyInput("10.00") == "10.00" && MoneyInput("9.99") == "9.99"
  {
    RemoveCharAbsent("10.00", ',');
    RemoveCharAbsent("10.00", '$');
    RemoveCharAbsent("9.99", ',');
    RemoveCharAbsent("9.99", '$');
  }

  lemma Read1000()
    ensures ParseFloat("10.00") == Some(Finite(Decimal(false, "10", "00")))
    ensures AtLeastTen(Decimal(false, "10", "00"))
  {
    ReadsAs("10.00", Decimal(false, "10", "00"));
    Ten();
  }

  lemma Ten()
    ensures AtLeastTen(Decimal(false, "10", "00"))
  {
    AtLeastTenByWhole(Decimal(false, "10", "00"));
    DigitsValueOfTwo("10");
  }

  lemma Read999()
    ensures ParseFloat("9.99") == Some(Finite(Decimal(false, "9", "99")))
    ensures !AtLeastTen(Decimal(false, "9", "99"))
  {
    ReadsAs("9.99", Decimal(false, "9", "99"));
    AtLeastTenByWhole(Decimal(false, "9", "99"));
  }

  /** Line 118's boundary is inclusive: a balance of exactly "10.00" passes it. */
  lemma TenDollarsKept(row: Row)
    requires BalanceColumn in row && row[BalanceColumn] == "10.00"
    ensures BalanceOf(row).Some? && AtLeastTenDollars(BalanceOf(row).value)
  {
    Input1000();
    Read1000();
    BalanceOfText(row, "10.00", Finite(Decimal(false, "10", "00")));
  }

  /** One cent below the boundary fails it. */
  lemma NineNinetyNineDropped(row: Row)
    requires BalanceColumn in row && row[BalanceColumn] == "9.99"
    ensures BalanceOf(row).Some? && !AtLeastTenDollars(BalanceOf(row).value)
  {
    Input1000();
    Read999();
    BalanceOfText(row, "9.99", Finite(Decimal(false, "9", "99")));
  }

  lemma Input1250()
    ensures MoneyInput("$1,250.00") == "1250.00"
  {
    assert "$1,250.00" == "$1" + [','] + "250.00";
    RemoveCharOnce("$1", "250.00", ',');
    assert "$1" + "250.00" == [] + ['$'] + "1250.00";
    RemoveCharOnce([], "1250.00", '$');
  }

  lemma Read1250()
    ensures ParseFloat("1250.00") == Some(Finite(Decimal(false, "1250", "00")))
  {
    ReadsAs("1250.00", Decimal(false, "1250", "00"));
  }

  /** "$" and "," are ignored: "$1,250.00" is a balance of 1250. */
  lemma SymbolsIgnored(row: Row)
    requires BalanceColumn in row && row[BalanceColumn] == "$1,250.00"
    ensures BalanceOf(row) == Some(Finite(Decimal(false, "1250", "00")))
  {
    Input1250();
    Read1250();
    BalanceOfText(row, "1250.00", Finite(Decimal(false, "1250", "00")));
  }

  /** A cell of only symbols is 0, below the boundary; it does not stop the run. */
  lemma SymbolsOnlyIsZero(row: Row)
    requires BalanceColumn in row && row[BalanceColumn] == "$"
    ensures BalanceOf(row) == Some(Finite(Decimal(false, "0", "")))
    ensures !AtLeastTenDollars(BalanceOf(row).value)
  {
    RemoveCharAbsent("$", ',');
    assert RemoveChar("$", '$') == [];
  }

  lemma InputAbc()
    ensures MoneyInput("abc") == "abc"
  {
    RemoveCharAbsent("abc", ',');
    RemoveCharAbsent("abc", '$');
  }

  /** Text that is not a number stops the run rather than counting as 0. */
  lemma TextBalanceFails(row: Row)
    requires BalanceColumn in row && row[BalanceColumn] == "abc"
    ensures BalanceOf(row).None?
  {
    InputAbc();
    RejectAbc();
  }

  /**
    A balance holding a separator U+001C to U+001F stops the run: `float()`
    does not skip it, even at either end of the cell.
  */
  lemma SeparatorBalanceFails(row: Row, i: nat)
    requires BalanceColumn in row && i < |row[BalanceColumn]| && IsSeparator(row[BalanceColumn][i])
    ensures BalanceOf(row).None?
  {
    var x := row[BalanceColumn];
    RemoveCharKeeps(x, ',', i);
    var y := RemoveChar(x, ',');
    var j :| 0 <= j < |y| && y[j] == x[i];
    RemoveCharKeeps(y, '$', j);
    var z := MoneyInput(x);
    var k :| 0 <= k < |z| && z[k] == x[i];
    ParseFloatRejectsSeparator(z, k);
  }

  // ------------------------------------------------------------ email index

  /** What one roster row offers: its normalised association and its email. */
  function RosterKey(r: Row): string {
    NormalizeKey(Get(r, RosterAssociationColumn))
  }

  function RosterEmail(r: Row, emailColumn: string): string {
    Coalesce([Get(r, emailColumn)])
  }

  /** A roster row seen as the (key, email) pair it offers. */
  datatype Entry = Entry(key: string, email: string)

  function EntryOf(emailColumn: string): Row -> Entry {
    (r: Row) => Entry(RosterKey(r), RosterEmail(r, emailColumn))
  }

  function Entries(roster: seq<Row>, emailColumn: string): (es: seq<Entry>)
    ensures |es| == |roster|
    ensures forall i :: 0 <= i < |roster| ==> es[i] == Entry(RosterKey(roster[i]), RosterEmail(roster[i], emailColumn))
  {
    Map(EntryOf(emailColumn), roster)
  }

  /** An entry enters the index under `k`: both its key and its email are non-empty. */
  predicate Offers(e: Entry, k: string) {
    k != [] && e.key == k && e.email != []
  }

  /** `setdefault` applied for each entry that has both a key and an email. */
  function SetDefaults(es: seq<Entry>): (m: map<string, string>)
    ensures forall k :: k in m ==> k != [] && m[k] != []
  {
    if es == [] then map[]
    else
      var m := SetDefaults(es[..|es| - 1]);
      var e := es[|es| - 1];
      if e.key != [] && e.email != [] && e.key !in m then m[e.key := e.email] else m
  }

  /** The association-to-email index of a roster. */
  function EmailIndex(roster: seq<Row>, emailColumn: string): map<string, string> {
    SetDefaults(Entries(roster, emailColumn))
  }

  /** One more entry: `setdefault` of its key and email when both are non-empty. */
  lemma SetDefaultsStep(es: seq<Entry>, i: nat, key: string, email: string)
    requires i < |es| && es[i] == Entry(key, email)
    ensures var m := SetDefaults(es[..i]);
      SetDefaults(es[..i + 1]) == if key != [] && email != [] && key !in m then m[key := email] else m
  {
    TakeSnoc(es, i);
    assert es[..i + 1][..i] == es[..i];
  }

  /** Lines 138-143: the index filled row by row. */
  method BuildEmailIndex(roster: seq<Row>, emailColumn: string) returns (index: map<string, string>)
    ensures index == EmailIndex(roster, emailColumn)
  {
    ghost var es := Entries(roster, emailColumn);
    index := map[];
    var i := 0;
    while i < |roster|
      invariant 0 <= i <= |roster|
      invariant index == SetDefaults(es[..i])
    {
      var key := RosterKey(roster[i]);
      var email := RosterEmail(roster[i], emailColumn);
      SetDefaultsStep(es, i, key, email);
      if key != [] && email != [] && key !in index {
        index := index[key := email];
      }
      i := i + 1;
    }
    TakeAll(es);
  }

  /**
    A key is in the index exactly when some entry offers it, and it maps to
    the email of the first entry that does: later entries never overwrite it.
  */
  lemma {:induction false} SetDefaultsFirstWins(es: seq<Entry>, k: string)
    ensures k in SetDefaults(es) <==> exists i :: 0 <= i < |es| && Offers(es[i], k)
    ensures forall i :: (0 <= i < |es| && Offers(es[i], k) && (forall j :: 0 <= j < i ==> !Offers(es[j], k))
        ==> SetDefaults(es)[k] == es[i].email)
  {
    if es != [] {
      var p := es[..|es| - 1];
      SetDefaultsFirstWins(p, k);
      assert forall i :: 0 <= i < |p| ==> p[i] == es[i];
    }
  }

  /** An entry for a key the index already holds changes nothing. */
  lemma SetDefaultKeeps(es: seq<Entry>, e: Entry)
    requires e.key in SetDefaults(es)
    ensures SetDefaults(es + [e]) == SetDefaults(es)
  {
    assert (es + [e])[..|es|] == es;
  }

  /** Line 184: `assoc_to_email.get(key, "")`. */
  function LookupEmail(index: map<string, string>, key: string): string {
    if key in index then index[key] else ""
  }

  /**
    The email found for a key: "" exactly when no roster row offers the key,
    and otherwise the email of the first roster row that does.
  */
  lemma LookupEmailOfRoster(roster: seq<Row>, emailColumn: string, k: string)
    ensures var es := Entries(roster, emailColumn);
      && (LookupEmail(EmailIndex(roster, emailColumn), k) == [] <==> forall i :: 0 <= i < |es| ==> !Offers(es[i], k))
      && forall i :: 0 <= i < |es| && Offers(es[i], k) && (forall j :: 0 <= j < i ==> !Offers(es[j], k))
          ==> LookupEmail(EmailIndex(roster, emailColumn), k) == RosterEmail(roster[i], emailColumn)
  {
    var es := Entries(roster, emailColumn);
    SetDefaultsFirstWins(es, k);
    forall i | 0 <= i < |es|
      ensures es[i].email == RosterEmail(roster[i], emailColumn)
    {
    }
  }

  // ----------------------------------------------------------------- records

  /** The first row of the given address type, if any. */
  function FirstOfType(rows: seq<Row>, addressType: string): (r: Option<Row>)
    ensures r.None? <==> forall i :: 0 <= i < |rows| ==> Get(rows[i], AddressTypeColumn) != Some(addressType)
    ensures r.Some? ==> exists i :: (0 <= i < |rows| && rows[i] == r.value && Get(rows[i], AddressTypeColumn) == Some(addressType)
        && forall j :: 0 <= j < i ==> Get(rows[j], AddressTypeColumn) != Some(addressType))
  {
    if rows == [] then None
    else if Get(rows[0], AddressTypeColumn) == Some(addressType) then Some(rows[0])
    else
      var r := FirstOfType(rows[1..], addressType);
      assert forall i :: 1 <= i < |rows| ==> rows[i] == rows[1..][i - 1];
      r
  }

  /** Line 174: the first Property Address row, else the group's first row. */
  function SourceRow(g: Group): Row
    requires g.rows != []
  {
    match FirstOfType(g.rows, PropertyAddress)
    case Some(r) => r
    case None => g.rows[0]
  }

  /** Line 181: the row the address comes from: the first Property Address row, else the source row. */
  function AddressRow(g: Group): Row
    requires g.rows != []
  {
    match FirstOfType(g.rows, PropertyAddress)
    case Some(r) => r
    case None => SourceRow(g)
  }

  /** Line 176: "First Last" with the ends stripped. */
  function OwnersName(row: Row): string {
    Trim(Coalesce([Get(row, "First Name")]) + " " + Coalesce([Get(row, "Last Name")]))
  }

  /** Line 187: `money` of the source row's converted balance, which `str()` writes out first. */
  function Amount(row: Row): string {
    match BalanceOf(row)
    case Some(f) => MoneyOf(f)
    case None => ""
  }

  /** Line 190-201: the values in the order of the headers, the repeated ones repeated. */
  function Layout(dates: Dates, ownersName: string, propertyAddress: string, association: string,
                  accNum: string, email: string, amount: string): seq<string>
  {
    [dates.today, ownersName, propertyAddress, association, accNum,
     propertyAddress, dates.lastDayOfMonth, email, accNum, amount]
  }

  /** Lines 176-201: the export row of one account. */
  function Record(g: Group, assocColumn: string, index: map<string, string>, dates: Dates): seq<string>
    requires g.rows != []
  {
    var src := SourceRow(g);
    var association := Coalesce([Get(src, assocColumn)]);
    Layout(dates, OwnersName(src), BuildFullAddress(AddressRow(g)), association, Coalesce([Some(g.account)]),
           LookupEmail(index, NormalizeKey(Some(association))), Amount(src))
  }

  /** The record of a group, as the step the loop of lines 168-201 takes. */
  function RecordOf(assocColumn: string, index: map<string, string>, dates: Dates): Group --> seq<string> {
    (g: Group) requires g.rows != [] => Record(g, assocColumn, index, dates)
  }

  /** One export row per group: as many, and the `k`-th is the record of the `k`-th group. */
  function Records(groups: seq<Group>, assocColumn: string, index: map<string, string>, dates: Dates): (m: seq<seq<string>>)
    requires NoEmptyGroup(groups)
    ensures |m| == |groups|
    ensures forall k :: 0 <= k < |groups| ==> m[k] == Record(groups[k], assocColumn, index, dates)
  {
    Map(RecordOf(assocColumn, index, dates), groups)
  }

  lemma RecordsSnoc(gs: seq<Group>, g: Group, assocColumn: string, index: map<string, string>, dates: Dates)
    requires NoEmptyGroup(gs) && g.rows != []
    ensures NoEmptyGroup(gs + [g])
    ensures Records(gs + [g], assocColumn, index, dates) == Records(gs, assocColumn, index, dates) + [Record(g, assocColumn, index, dates)]
  {
    NoEmptyGroupSnoc(gs, g);
    MapSnoc(RecordOf(assocColumn, index, dates), gs, g);
  }

  /** Lines 166-201: the export rows appended one group at a time. */
  method BuildRecords(groups: seq<Group>, assocColumn: string, index: map<string, string>, dates: Dates)
    returns (matrix: seq<seq<string>>)
    requires NoEmptyGroup(groups)
    ensures matrix == Records(groups, assocColumn, index, dates)
  {
    matrix := [];
    var i := 0;
    while i < |groups|
      invariant 0 <= i <= |groups|
      invariant NoEmptyGroup(groups[..i])
      invariant matrix == Records(groups[..i], assocColumn, index, dates)
    {
      var group := groups[i];
      var src := SourceRow(group);
      var ownersName := OwnersName(src);
      var association := Coalesce([Get(src, assocColumn)]);
      var accNum := Coalesce([Some(group.account)]);
      var propertyAddress := BuildFullAddress(AddressRow(group));
      var email := LookupEmail(index, NormalizeKey(Some(association)));
      var amount := Amount(src);
      var row := Layout(dates, ownersName, propertyAddress, association, accNum, email, amount);
      TakeSnoc(groups, i);
      RecordsSnoc(groups[..i], group, assocColumn, index, dates);
      matrix := matrix + [row];
      i := i + 1;
    }
    TakeAll(groups);
  }

  // ------------------------------------------------------------ record facts

  /** The source row is the first Property Address row when there is one, and otherwise the first row. */
  lemma SourceRowPrefersProperty(g: Group)
    requires g.rows != []
    ensures forall i :: (0 <= i < |g.rows| && Get(g.rows[i], AddressTypeColumn) == Some(PropertyAddress)
        && (forall j :: 0 <= j < i ==> Get(g.rows[j], AddressTypeColumn) != Some(PropertyAddress))
        ==> SourceRow(g) == g.rows[i])
    ensures (forall i :: 0 <= i < |g.rows| ==> Get(g.rows[i], AddressTypeColumn) != Some(PropertyAddress))
        ==> SourceRow(g) == g.rows[0]
  {
    var r := FirstOfType(g.rows, PropertyAddress);
    if r.Some? {
      var i0 :| 0 <= i0 < |g.rows| && g.rows[i0] == r.value && Get(g.rows[i0], AddressTypeColumn) == Some(PropertyAddress)
        && forall j :: 0 <= j < i0 ==> Get(g.rows[j], AddressTypeColumn) != Some(PropertyAddress);
      forall i | 0 <= i < |g.rows| && Get(g.rows[i], AddressTypeColumn) == Some(PropertyAddress)
          && (forall j :: 0 <= j < i ==> Get(g.rows[j], AddressTypeColumn) != Some(PropertyAddress))
        ensures SourceRow(g) == g.rows[i]
      {
        assert !(i < i0) && !(i0 < i);
      }
    }
  }

  /** The address comes from the source row in every case: the two choices at lines 174 and 181 agree. */
  lemma AddressRowIsSourceRow(g: Group)
    requires g.rows != []
    ensures AddressRow(g) == SourceRow(g)
  {
  }

  /** The owner's name: "First Last" when both are present, the one present otherwise, "" when neither is. */
  lemma OwnersNameCases(row: Row)
    ensures var first, last := Coalesce([Get(row, "First Name")]), Coalesce([Get(row, "Last Name")]);
      && (first != [] && last != [] ==> OwnersName(row) == first + " " + last)
      && (first != [] && last == [] ==> OwnersName(row) == first)
      && (first == [] ==> OwnersName(row) == last)
  {
    var first, last := Coalesce([Get(row, "First Name")]), Coalesce([Get(row, "Last Name")]);
    var s := first + " " + last;
    if first != [] && last != [] {
      assert s[0] == first[0] && s[|s| - 1] == last[|last| - 1];
      assert IsTrimmed(s);
    } else if first != [] {
      TrimDropsTrailingSpace(first);
    } else {
      TrimDropsLeadingSpace(last);
    }
  }

  lemma TrimDropsTrailingSpace(s: string)
    requires s != [] && IsTrimmed(s)
    ensures Trim(s + " " + "") == s
  {
    var t := s + " " + "";
    assert t[..|s|] == s;
    assert TrimStart(t) == t;
    var e := TrimEnd(t);
    assert e == TrimEnd(t[..|t| - 1]);
    assert t[..|t| - 1] == s;
  }

  lemma TrimDropsLeadingSpace(s: string)
    requires IsTrimmed(s)
    ensures Trim("" + " " + s) == s
  {
    assert "" + " " + s == " " + s;
    TrimStartSpace(s);
    assert TrimStart(s) == s;
    assert TrimEnd(s) == s;
  }

  /** The amount is what `money` makes of the balance written out by `str()`. */
  lemma AmountIsMoneyOfText(row: Row, d: Decimal)
    requires BalanceOf(row) == Some(Finite(d))
    ensures Amount(row) == Money(Show(d))
  {
    MoneyOfShown(d);
  }

  /** The layout follows the headers: ten values, and a repeated header repeats its value. */
  lemma LayoutFollowsHeaders(dates: Dates, ownersName: string, propertyAddress: string, association: string,
                             accNum: string, email: string, amount: string)
    ensures var rec := Layout(dates, ownersName, propertyAddress, association, accNum, email, amount);
      && |rec| == |ExportHeaders|
      && forall i, j :: 0 <= i < |rec| && 0 <= j < |rec| && ExportHeaders[i] == ExportHeaders[j] ==> rec[i] == rec[j]
  {
    HeadersRepeat();
  }

  /** The column each value of the layout lands in. */
  lemma LayoutAt(dates: Dates, ownersName: string, propertyAddress: string, association: string,
                 accNum: string, email: string, amount: string)
    ensures var rec := Layout(dates, ownersName, propertyAddress, association, accNum, email, amount);
      && |rec| == 10
      && rec[0] == dates.today && rec[1] == ownersName && rec[2] == propertyAddress && rec[3] == association
      && rec[4] == accNum && rec[5] == propertyAddress && rec[6] == dates.lastDayOfMonth && rec[7] == email
      && rec[8] == accNum && rec[9] == amount
  {
  }

  /** The export row follows the headers: ten values, and a repeated header repeats its value. */
  lemma RecordFollowsHeaders(g: Group, assocColumn: string, index: map<string, string>, dates: Dates)
    requires g.rows != []
    ensures var rec := Record(g, assocColumn, index, dates);
      && |rec| == |ExportHeaders|
      && forall i, j :: 0 <= i < |rec| && 0 <= j < |rec| && ExportHeaders[i] == ExportHeaders[j] ==> rec[i] == rec[j]
  {
    var src := SourceRow(g);
    var association := Coalesce([Get(src, assocColumn)]);
    LayoutFollowsHeaders(dates, OwnersName(src), BuildFullAddress(AddressRow(g)), association, Coalesce([Some(g.account)]),
                         LookupEmail(index, NormalizeKey(Some(association))), Amount(src));
  }

  /**
    Each value of the export row comes from the cell the script reads: the
    owner's name, address, association and amount from the source row, the
    account number from the group, the email from the index under the
    normalised association.
  */
  lemma RecordFields(g: Group, assocColumn: string, index: map<string, string>, dates: Dates)
    requires g.rows != []
    ensures var rec := Record(g, assocColumn, index, dates);
      && |rec| == 10
      && rec[0] == dates.today && rec[6] == dates.lastDayOfMonth
      && rec[1] == OwnersName(SourceRow(g))
      && rec[2] == BuildFullAddress(SourceRow(g))
      && rec[3] == Coalesce([Get(SourceRow(g), assocColumn)])
      && rec[4] == Trim(g.account)
      && rec[7] == LookupEmail(index, NormalizeKey(Some(rec[3])))
      && rec[9] == Amount(SourceRow(g))
  {
    CoalesceOne(Some(g.account));
    AddressRowIsSourceRow(g);
    var src := SourceRow(g);
    var association := Coalesce([Get(src, assocColumn)]);
    LayoutAt(dates, OwnersName(src), BuildFullAddress(AddressRow(g)), association, Coalesce([Some(g.account)]),
             LookupEmail(index, NormalizeKey(Some(association))), Amount(src));
  }

  /** Only the property address and the account number appear twice among the headers. */
  lemma HeadersRepeat()
    ensures |ExportHeaders| == 10
    ensures forall i, j :: (0 <= i < 10 && 0 <= j < 10 && i != j && ExportHeaders[i] == ExportHeaders[j]
        ==> (i == 2 && j == 5) || (i == 5 && j == 2) || (i == 4 && j == 8) || (i == 8 && j == 4))
  {
    forall i, j | 0 <= i < 10 && 0 <= j < 10 && i != j && ExportHeaders[i] == ExportHeaders[j]
      ensures (i == 2 && j == 5) || (i == 5 && j == 2) || (i == 4 && j == 8) || (i == 8 && j == 4)
    {
      HeaderText(i);
      HeaderText(j);
    }
  }

  /** The header at `i`, told apart from the others by its third character. */
  lemma HeaderText(i: nat)
    requires i < 10
    ensures |ExportHeaders[i]| > 2
    ensures ExportHeaders[i][2] == ['d', 'o', 'p', 'a', 'a', 'p', 'l', 'e', 'a', 'a'][i]
  {
  }

  // ----------------------------------------------------------------- the run

  /** The whole run of lines 99-201 as a value: the first failure, or the export rows. */
  function ExportRun(data: Table, rosterPresent: bool, roster: Table, dates: Dates): Result<seq<seq<string>>, Error> {
    match CheckColumns(data.columns)
    case Failure(e) => Failure(e)
    case Success(assocColumn) =>
      match FilterRows(data.rows)
      case Failure(e) => Failure(e)
      case Success(kept) =>
        match CheckRoster(rosterPresent, roster.columns)
        case Failure(e) => Failure(e)
        case Success(emailColumn) =>
          Success(Records(GroupByAccount(kept), assocColumn, EmailIndex(roster.rows, emailColumn), dates))
  }

  /** Lines 99-201 run in order: guards, filter, grouping, roster, index, rows. */
  method Export(data: Table, rosterPresent: bool, roster: Table, dates: Dates)
    returns (r: Result<seq<seq<string>>, Error>)
    ensures r == ExportRun(data, rosterPresent, roster, dates)
  {
    var checked := CheckColumns(data.columns);
    if checked.Failure? {
      return Failure(checked.error);
    }
    var filtered := FilterRows(data.rows);
    if filtered.Failure? {
      return Failure(filtered.error);
    }
    var groups := GroupByAccount(filtered.value);
    var rosterChecked := CheckRoster(rosterPresent, roster.columns);
    if rosterChecked.Failure? {
      return Failure(rosterChecked.error);
    }
    var index := BuildEmailIndex(roster.rows, rosterChecked.value);
    var matrix := BuildRecords(groups, checked.value, index, dates);
    return Success(matrix);
  }

  /**
    The run stops at the first check that fails, with that check's error, and
    otherwise yields the records of the groups of the kept rows.
  */
  lemma ExportRunOutcome(data: Table, rosterPresent: bool, roster: Table, dates: Dates)
    ensures var run := ExportRun(data, rosterPresent, roster, dates);
      && (CheckColumns(data.columns).Failure? ==> run == Failure(CheckColumns(data.columns).error))
      && (CheckColumns(data.columns).Success? && FilterRows(data.rows).Failure? ==> run == Failure(FilterRows(data.rows).error))
      && (CheckColumns(data.columns).Success? && FilterRows(data.rows).Success? && CheckRoster(rosterPresent, roster.columns).Failure?
          ==> run == Failure(CheckRoster(rosterPresent, roster.columns).error))
      && (run.Success? <==> CheckColumns(data.columns).Success? && FilterRows(data.rows).Success? && CheckRoster(rosterPresent, roster.columns).Success?)
      && (run.Success? ==> (FilterRows(data.rows).value == Kept(data.rows)
          && run.value == Records(GroupByAccount(Kept(data.rows)), CheckColumns(data.columns).value,
                                  EmailIndex(roster.rows, CheckRoster(rosterPresent, roster.columns).value), dates)))
  {
    FilterRowsFacts(data.rows);
  }

  /** The `k`-th export row carries the account of the `k`-th group, and there is one row per group. */
  lemma RecordsAccounts(groups: seq<Group>, assocColumn: string, index: map<string, string>, dates: Dates)
    requires NoEmptyGroup(groups)
    ensures var m := Records(groups, assocColumn, index, dates);
      && |m| == |groups|
      && forall k :: 0 <= k < |m| ==> |m[k]| == 10 && m[k][4] == Trim(groups[k].account)
  {
    forall k | 0 <= k < |groups|
      ensures |Records(groups, assocColumn, index, dates)[k]| == 10
      ensures Records(groups, assocColumn, index, dates)[k][4] == Trim(groups[k].account)
    {
      RecordFields(groups[k], assocColumn, index, dates);
    }
  }

  /**
    A run that gets through its checks writes exactly one row per account
    among the kept rows, in strictly ascending account order, and the group
    behind each row holds exactly the kept rows of its account.
  */
  lemma ExportOnePerAccount(data: Table, rosterPresent: bool, roster: Table, dates: Dates)
    requires ExportRun(data, rosterPresent, roster, dates).Success?
    ensures var kept := Kept(data.rows);
      var gs := GroupByAccount(kept);
      var m := ExportRun(data, rosterPresent, roster, dates).value;
      && |m| == |gs| == |AccountsIn(kept)|
      && Ascending(gs) && Accounts(gs) == AccountsIn(kept)
      && forall k :: 0 <= k < |m| ==> |m[k]| == 10 && m[k][4] == Trim(gs[k].account) && gs[k].rows == RowsWith(kept, gs[k].account)
  {
    ExportRunOutcome(data, rosterPresent, roster, dates);
    var kept := Kept(data.rows);
    var gs := GroupByAccount(kept);
    RecordsAccounts(gs, CheckColumns(data.columns).value, EmailIndex(roster.rows, CheckRoster(rosterPresent, roster.columns).value), dates);
    GroupByAccountFacts(kept);
    DistinctAccounts(gs);
    forall k | 0 <= k < |gs|
      ensures gs[k].rows == RowsWith(kept, gs[k].account)
    {
      GroupRows(kept, k);
    }
  }

  /** Strictly ascending accounts are distinct, so there are as many groups as accounts. */
  lemma {:induction false} DistinctAccounts(gs: seq<Group>)
    requires Ascending(gs)
    ensures |Accounts(gs)| == |gs|
  {
    if gs != [] {
      AscendingTail(gs);
      AccountsTail(gs);
      DistinctAccounts(gs[1..]);
      LessIrreflexive(gs[0].account);
    }
  }
}
