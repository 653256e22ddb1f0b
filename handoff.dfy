/**
  The two scripts together: execution.py writes letters_export.csv with the
  ten export headers, two of them twice, and generate_docs.py reads that file
  back. On reading, pandas renames the second copy of a repeated header to
  "<header>.1". The export has no "{{ownersOffsiteAddress}}" column, so a
  document made from it is always Letter 1.
*/
module Handoff {
  import opened Wrappers
  import opened Strings
  import opened Tables
  import opened Sequences
  import Execution
  import opened GenerateDocs

  /** The columns of the export as pandas names them when it reads the file. */
  const ReadColumns: seq<string> := [
    "{{date}}", "{{ownersName}}", "{{propertyAddress}}", "{{associationName}}", "{{accNum}}",
    "{{propertyAddress}}.1", "{{last_day_of_month}}", "{{emailAddress}}", "{{accNum}}.1", "{{amount}}"
  ]

  const OffsiteHeader: string := "{{ownersOffsiteAddress}}"

  /** Every column that was read back is matched to the header it was written under. */
  lemma ReadColumnsMatchHeaders()
    ensures |ReadColumns| == |Execution.ExportHeaders|
    ensures forall i :: 0 <= i < |ReadColumns| ==> Matches(ReadColumns[i], Execution.ExportHeaders[i])
  {
    assert StartsWith("{{propertyAddress}}.1", "{{propertyAddress}}" + ".");
    assert StartsWith("{{accNum}}.1", "{{accNum}}" + ".");
  }

  /** A column no longer than a header cannot match that header with a suffix. */
  lemma {:induction false} ShortColumnsDoNotMatch(columns: seq<string>, base: string)
    requires forall i :: 0 <= i < |columns| ==> |columns[i]| < |base|
    ensures ResolveCols(columns, base) == []
    decreases |columns|
  {
    if columns != [] {
      assert forall i :: 0 <= i < |columns| - 1 ==> columns[1..][i] == columns[i + 1];
      ShortColumnsDoNotMatch(columns[1..], base);
      assert !Matches(columns[0], base);
    }
  }

  /** No column of the export resolves to the offsite address. */
  lemma OffsiteUnresolved()
    ensures ResolveCols(ReadColumns, OffsiteHeader) == []
  {
    var base := OffsiteHeader;
    assert |base| == 24;
    assert forall i :: 0 <= i < |ReadColumns| ==> |ReadColumns[i]| <= 22;
    ShortColumnsDoNotMatch(ReadColumns, base);
  }

  /**
    Every row of the export is given an empty offsite address, so it gets
    Letter 1 when that template exists and is skipped otherwise; Letter 2 is
    never produced from the export.
  */
  lemma ExportNeverLetter2(rows: seq<Row>, t: Templates, now: string, monthOf: string -> string)
    ensures var plan := Plan(ResolveAll(ReadColumns), rows, t, now, monthOf);
      && |plan| == |rows|
      && forall k :: 0 <= k < |plan| ==>
        (if t.letter1 then plan[k].Generated? && plan[k].letter == Letter1 else plan[k].Skipped?)
  {
    var colmap := ResolveAll(ReadColumns);
    var plan := Plan(colmap, rows, t, now, monthOf);
    OffsiteUnresolved();
    assert OffsiteHeader in WantedHeaders;
    assert ColumnsOf(colmap, OffsiteHeader) == [];
    forall k | 0 <= k < |plan|
      ensures if t.letter1 then plan[k].Generated? && plan[k].letter == Letter1 else plan[k].Skipped?
    {
      var v := RowValues(colmap, rows[k], now);
      assert v.offsiteAddress == GetFirstNonempty(rows[k], []);
      RowOutcomeFacts(colmap, rows[k], t, now, monthOf);
    }
  }
}
