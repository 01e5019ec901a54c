/** The data frames the handlers build from the request's `csvData`
    records: named columns and rows of cells. */
module Frames {

  /** One cell as the handlers see it: missing (`None`/`NaN`, what
      `pd.isna` accepts), a number (kept as the text `str()` gives it), or
      any other value (kept as its `str()` text). */
  datatype Cell = Null | Num(text: string) | Str(s: string)

  type Row = seq<Cell>

  /** A data frame: column names and rows. */
  datatype Frame = Frame(columns: seq<string>, rows: seq<Row>)

  /** Column names are distinct (they are the keys of the records) and
      every row has one cell per column. */
  predicate WellFormed(f: Frame) {
    && (forall a, b :: 0 <= a < b < |f.columns| ==> f.columns[a] != f.columns[b])
    && (forall i :: 0 <= i < |f.rows| ==> |f.rows[i]| == |f.columns|)
  }

  /** The position of column `name`. */
  function ColumnIndex(columns: seq<string>, name: string): (j: nat)
    requires name in columns
    ensures j < |columns| && columns[j] == name
    ensures forall k :: 0 <= k < j ==> columns[k] != name
  {
    if columns[0] == name then 0 else 1 + ColumnIndex(columns[1..], name)
  }
}
