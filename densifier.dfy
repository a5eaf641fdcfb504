/**
 * The densifier: reindexing a sparse (geo, date)-keyed table onto the
 * canonical index, with 0 wherever the table has no row for a label.
 */
module Densifier {
  import opened Tables

  /**
   * The value the table holds under `key`, or 0 when it has no row with
   * that label (the fill value of the reindex).
   */
  function ValueAt(cells: seq<Cell>, key: Key): (v: int)
    ensures (exists i :: 0 <= i < |cells| && cells[i].key == key && v == cells[i].value)
         || (v == 0 && forall i :: 0 <= i < |cells| ==> cells[i].key != key)
  {
    if |cells| == 0 then 0
    else if cells[0].key == key then cells[0].value
    else
      assert forall i :: 1 <= i < |cells| ==> cells[i] == cells[1..][i - 1];
      ValueAt(cells[1..], key)
  }

  /**
   * Reindexing onto `idx`: one row per label of `idx`, in the order of `idx`,
   * holding the table's value for that label when it has one and 0 otherwise.
   * Rows whose label is not in `idx` are not carried over.
   */
  function Densify(cells: seq<Cell>, idx: seq<Key>): (dense: seq<Cell>)
    requires UniqueKeys(cells)
    ensures |dense| == |idx|
    ensures forall k :: 0 <= k < |dense| ==> dense[k].key == idx[k]
    ensures forall k, i :: 0 <= k < |dense| && 0 <= i < |cells| && cells[i].key == idx[k] ==> dense[k].value == cells[i].value
    ensures forall k :: 0 <= k < |dense| && (forall i :: 0 <= i < |cells| ==> cells[i].key != idx[k]) ==> dense[k].value == 0
    ensures forall i :: 0 <= i < |cells| && cells[i].key !in idx ==> cells[i].key !in KeySet(dense)
  {
    seq(|idx|, k requires 0 <= k < |idx| => Cell(idx[k], ValueAt(cells, idx[k])))
  }
}
