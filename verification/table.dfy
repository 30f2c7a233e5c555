/**
 The tabular values both tools work on: a frame is the header row (its column
 names, in file order) and the data rows, each row a map from column name to
 the cell pandas hands back for it.
 */
module Table {

  datatype Option<+T> = None | Some(value: T)

  /** A cell as `row.get(...)` returns it: Python `None` (the column is absent,
      or was filled with `None`), a float NaN (an empty field in the file), or a
      value, kept as the text `str()` gives for it. */
  datatype Cell = Null | NaN | Str(text: string)

  type Row = map<string, Cell>

  datatype Frame = Frame(columns: seq<string>, rows: seq<Row>)

  /** `row.get(column)`: the cell, or `None` when the row has no such column. */
  function Get(row: Row, column: string): (c: Cell)
    ensures column in row ==> c == row[column]
    ensures column !in row ==> c == Null
  {
    if column in row then row[column] else Null
  }

  /** Every row holds exactly the frame's columns, as a frame read from a file does. */
  ghost predicate WellFormed(f: Frame) {
    forall i, c :: 0 <= i < |f.rows| ==> (c in f.rows[i] <==> c in f.columns)
  }
}
