/** The spreadsheet the exercises read with pandas, reduced to what they use: the rows in
    order, and in each row the first two cells (`row[0]` and `row[1]`). */
module Table {

  datatype Row<K> = Row(col0: K, col1: int)

  /** `row[0]` of every row, in row order. */
  function ColumnZero<K>(rows: seq<Row<K>>): (c: seq<K>)
    ensures |c| == |rows|
    ensures forall i :: 0 <= i < |rows| ==> c[i] == rows[i].col0
  {
    seq(|rows|, i requires 0 <= i < |rows| => rows[i].col0)
  }

  /** `row[1]` of every row, in row order. */
  function ColumnOne<K>(rows: seq<Row<K>>): (c: seq<int>)
    ensures |c| == |rows|
    ensures forall i :: 0 <= i < |rows| ==> c[i] == rows[i].col1
  {
    seq(|rows|, i requires 0 <= i < |rows| => rows[i].col1)
  }
}
