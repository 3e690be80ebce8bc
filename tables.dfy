/** The table the cleaner works on: a DataFrame read from the CSV, whose cells are
    text or missing (NaN / pd.NA), with rows as maps from column name to cell. */
module Tables {

  datatype Cell = Missing | Text(text: string)

  type Row = map<string, Cell>

  datatype Table = Table(columns: seq<string>, rows: seq<Row>)

  /** `row.get(col, pd.NA)`: the cell, or Missing when the row has no such column. */
  function Get(row: Row, col: string): Cell {
    if col in row then row[col] else Missing
  }

  function ColumnSet(columns: seq<string>): set<string> {
    set c | c in columns
  }

  /** Distinct column names, and every row holds exactly the table's columns. */
  ghost predicate WellFormed(t: Table) {
    && (forall i, j :: 0 <= i < j < |t.columns| ==> t.columns[i] != t.columns[j])
    && (forall k :: 0 <= k < |t.rows| ==> t.rows[k].Keys == ColumnSet(t.columns))
  }
}
