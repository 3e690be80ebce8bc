/** strip_object_columns: every text (object-dtype) column is converted with
    astype(str) and stripped. Which columns pandas types as text is not modelled;
    the caller passes them. */
module Trim {
  import opened Text
  import opened Tables

  /** astype(str) then str.strip() on one cell: a missing cell becomes the text "nan". */
  function StripCell(c: Cell): (r: Cell)
    ensures r.Text?
    ensures r.text == [] || (!IsSpace(r.text[0]) && !IsSpace(r.text[|r.text| - 1]))
  {
    match c
    case Missing => Text("nan")
    case Text(s) => Text(Strip(s))
  }

  /** Stripping a cell twice is stripping it once. */
  lemma StripCellIdempotent(c: Cell)
    ensures StripCell(StripCell(c)) == StripCell(c)
  {
    match c
    case Missing =>
      StripLeftNoop("nan");
      StripRightNoop("nan");
    case Text(s) =>
      StripIdempotent(s);
  }

  /** A row after trimming the given text columns. */
  function TrimmedRow(row: Row, textCols: seq<string>): Row {
    map c | c in row :: if c in textCols then StripCell(row[c]) else row[c]
  }

  /** The table strip_object_columns returns: same header, same rows, each text
      column's cells stripped and every other cell untouched. */
  function Trimmed(t: Table, textCols: seq<string>): Table {
    Table(t.columns, seq(|t.rows|, k requires 0 <= k < |t.rows| => TrimmedRow(t.rows[k], textCols)))
  }

  /** `work[c] = work[c].astype(str).str.strip()` for one column c. */
  function StripColumn(rows: seq<Row>, c: string): seq<Row> {
    seq(|rows|, k requires 0 <= k < |rows| =>
      if c in rows[k] then rows[k][c := StripCell(rows[k][c])] else rows[k])
  }

  /** Stripping one more column extends the trimmed set by it; a column already
      stripped is unchanged, since stripping is idempotent. */
  lemma StripColumnStep(row: Row, cs: seq<string>, c: string)
    ensures (var r := TrimmedRow(row, cs); if c in r then r[c := StripCell(r[c])] else r)
            == TrimmedRow(row, cs + [c])
  {
    var r := TrimmedRow(row, cs);
    var lhs := if c in r then r[c := StripCell(r[c])] else r;
    var rhs := TrimmedRow(row, cs + [c]);
    forall d | d in row ensures d in lhs && lhs[d] == rhs[d] {
      assert (d in cs + [c]) <==> (d in cs || d == c);
      if d == c {
        StripCellIdempotent(row[c]);
      }
    }
    assert lhs.Keys == rhs.Keys;
  }

  /** strip_object_columns: a copy of the table, then one column at a time. */
  method StripObjectColumns(t: Table, textCols: seq<string>) returns (work: Table)
    ensures work == Trimmed(t, textCols)
    ensures work.columns == t.columns && |work.rows| == |t.rows|
    ensures forall k :: 0 <= k < |t.rows| ==> work.rows[k].Keys == t.rows[k].Keys
    ensures forall k, c :: 0 <= k < |t.rows| && c in t.rows[k] ==>
              work.rows[k][c] == if c in textCols then StripCell(t.rows[k][c]) else t.rows[k][c]
  {
    work := t;
    forall k | 0 <= k < |t.rows| ensures TrimmedRow(t.rows[k], []) == t.rows[k] {
    }
    assert work.rows == Trimmed(t, []).rows;
    for j := 0 to |textCols|
      invariant work == Trimmed(t, textCols[..j])
    {
      var c := textCols[j];
      forall k | 0 <= k < |t.rows| {
        StripColumnStep(t.rows[k], textCols[..j], c);
      }
      assert textCols[..j + 1] == textCols[..j] + [c];
      work := Table(work.columns, StripColumn(work.rows, c));
    }
    assert textCols[..|textCols|] == textCols;
  }

  /** Trimming twice is trimming once. */
  lemma TrimIdempotent(t: Table, textCols: seq<string>)
    ensures Trimmed(Trimmed(t, textCols), textCols) == Trimmed(t, textCols)
  {
    var once := Trimmed(t, textCols);
    forall k | 0 <= k < |t.rows|
      ensures TrimmedRow(once.rows[k], textCols) == once.rows[k]
    {
      forall c | c in t.rows[k] && c in textCols {
        StripCellIdempotent(t.rows[k][c]);
      }
    }
  }

  /** Trimming keeps a table well-formed. */
  lemma TrimmedWellFormed(t: Table, textCols: seq<string>)
    requires WellFormed(t)
    ensures WellFormed(Trimmed(t, textCols))
  {
    var r := Trimmed(t, textCols);
    forall k | 0 <= k < |r.rows| ensures r.rows[k].Keys == ColumnSet(r.columns) {
      assert r.rows[k].Keys == t.rows[k].Keys;
    }
  }
}
