/** Values shared by both tables: SQL NULL as `Option`, and the row id SQLite
    assigns to an `INTEGER PRIMARY KEY` column when an INSERT leaves it out. */
module Rows {

  /** A nullable column or a lookup that may miss (Python `None`). */
  datatype Option<+T> = None | Some(value: T)

  /** The id column of a table, in row order. */
  function IdsOf<T>(rows: seq<T>, id: T -> nat): (ids: seq<nat>)
    ensures |ids| == |rows|
    ensures forall i :: 0 <= i < |rows| ==> ids[i] == id(rows[i])
  {
    seq(|rows|, i requires 0 <= i < |rows| => id(rows[i]))
  }

  /** The largest id present, or 0 for an empty table. */
  function MaxId(ids: seq<nat>): (m: nat)
    ensures forall i :: 0 <= i < |ids| ==> ids[i] <= m
    ensures |ids| > 0 ==> m in ids
    ensures |ids| == 0 ==> m == 0
  {
    if |ids| == 0 then 0
    else
      var rest := MaxId(ids[1..]);
      if ids[0] > rest then ids[0] else rest
  }

  /** SQLite's choice for a new row: one more than the largest id in the
      table, or 1 when the table is empty. It is larger than every id present,
      so it is fresh. */
  function NextRowId(ids: seq<nat>): (id: nat)
    ensures forall i :: 0 <= i < |ids| ==> ids[i] < id
    ensures |ids| == 0 ==> id == 1
    ensures |ids| > 0 ==> id - 1 in ids
  {
    MaxId(ids) + 1
  }
}
