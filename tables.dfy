/** Rows of a CSV file as the scripts see them after `pd.read_csv(..., dtype=str)`. */
module Tables {
  import opened Wrappers

  /**
    One row: header to cell text. A header missing from the map stands for an
    empty (NaN) cell.
  */
  type Row = map<string, string>

  /** `row.get(col)`: the cell, or None when it is empty. */
  function Get(row: Row, col: string): (r: Option<string>)
    ensures r.Some? <==> col in row
    ensures r.Some? ==> r.value == row[col]
  {
    if col in row then Some(row[col]) else None
  }

  /** A file read into memory: its header line and its data rows. */
  datatype Table = Table(columns: seq<string>, rows: seq<Row>)
}
