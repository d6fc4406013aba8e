/**
 * The edge table and the three per-node lookups built from it
 * (`nodeColor`, `nodeParent`, `nodeLevels` in `parseCSV`).
 *
 * A row is one record of the parsed CSV. Levels are integers; the level -1
 * marks a category row ("the target belongs to the category named by the
 * source"), every other level marks a flow link.
 */
module Table {

  type Name = string
  type Color = string

  /** The level value that marks a category row rather than a flow link. */
  const Sentinel: int := -1

  datatype Row = Row(source: Name, target: Name, level: int, colorS: Color, colorT: Color)

  /** A flow link, as opposed to a category row. */
  predicate IsFlow(r: Row) {
    r.level != Sentinel
  }

  predicate Mentions(r: Row, n: Name) {
    r.source == n || r.target == n
  }

  /** The endpoints of the rows, source before target, row by row (`flatMap(ll => [ll.source, ll.target])`). */
  function Endpoints(rows: seq<Row>): (e: seq<Name>)
    ensures |e| == 2 * |rows|
    ensures forall k :: 0 <= k < |rows| ==> e[2 * k] == rows[k].source && e[2 * k + 1] == rows[k].target
    ensures forall n :: n in e <==> exists k :: 0 <= k < |rows| && Mentions(rows[k], n)
  {
    if rows == [] then []
    else
      assert forall k :: 0 < k < |rows| ==> rows[k] == rows[1..][k - 1];
      [rows[0].source, rows[0].target] + Endpoints(rows[1..])
  }

  /**
   * The colour a row writes for a node it mentions: the source's colour is
   * written, then the target's, so the target's wins when both are the node.
   */
  function ColorWritten(r: Row, n: Name): (c: Color)
    requires Mentions(r, n)
    ensures c == map[r.source := r.colorS][r.target := r.colorT][n]
  {
    if r.target == n then r.colorT else r.colorS
  }

  /** `nodeColor` after the rows are processed in order: both endpoints get their colour column. */
  function ColorMap(rows: seq<Row>): (m: map<Name, Color>)
    ensures forall n :: n in m <==> exists k :: 0 <= k < |rows| && Mentions(rows[k], n)
  {
    if rows == [] then map[]
    else
      var r := rows[|rows| - 1];
      assert forall k :: 0 <= k < |rows| - 1 ==> rows[k] == rows[..|rows| - 1][k];
      ColorMap(rows[..|rows| - 1])[r.source := r.colorS][r.target := r.colorT]
  }

  /** `nodeParent` after the rows are processed in order: only category rows write, target to source. */
  function CategoryMap(rows: seq<Row>): (m: map<Name, Name>)
    ensures forall n :: n in m <==> exists k :: 0 <= k < |rows| && !IsFlow(rows[k]) && rows[k].target == n
  {
    if rows == [] then map[]
    else
      var r := rows[|rows| - 1];
      assert forall k :: 0 <= k < |rows| - 1 ==> rows[k] == rows[..|rows| - 1][k];
      var m := CategoryMap(rows[..|rows| - 1]);
      if IsFlow(r) then m else m[r.target := r.source]
  }

  /** `nodeLevels` after the rows are processed in order: only flow links write, both endpoints to the row's level. */
  function LevelMap(rows: seq<Row>): (m: map<Name, int>)
    ensures forall n :: n in m <==> exists k :: 0 <= k < |rows| && IsFlow(rows[k]) && Mentions(rows[k], n)
    ensures forall n :: n in m ==> m[n] != Sentinel
  {
    if rows == [] then map[]
    else
      var r := rows[|rows| - 1];
      assert forall k :: 0 <= k < |rows| - 1 ==> rows[k] == rows[..|rows| - 1][k];
      var m := LevelMap(rows[..|rows| - 1]);
      if IsFlow(r) then m[r.source := r.level][r.target := r.level] else m
  }

  /** Last write wins: a node's colour is the one written by the last row that mentions it. */
  lemma {:induction false} ColorMapLastWriteWins(rows: seq<Row>, n: Name, i: nat)
    requires i < |rows| && Mentions(rows[i], n)
    requires forall j :: i < j < |rows| ==> !Mentions(rows[j], n)
    ensures n in ColorMap(rows) && ColorMap(rows)[n] == ColorWritten(rows[i], n)
  {
    if i < |rows| - 1 {
      var p := rows[..|rows| - 1];
      ColorMapLastWriteWins(p, n, i);
    }
  }

  /** Last write wins: a node's category is the source of the last category row whose target it is. */
  lemma {:induction false} CategoryMapLastWriteWins(rows: seq<Row>, n: Name, i: nat)
    requires i < |rows| && !IsFlow(rows[i]) && rows[i].target == n
    requires forall j :: i < j < |rows| ==> IsFlow(rows[j]) || rows[j].target != n
    ensures n in CategoryMap(rows) && CategoryMap(rows)[n] == rows[i].source
  {
    if i < |rows| - 1 {
      var p := rows[..|rows| - 1];
      CategoryMapLastWriteWins(p, n, i);
    }
  }

  /** Last write wins: a node's level is the level of the last flow link that mentions it. */
  lemma {:induction false} LevelMapLastWriteWins(rows: seq<Row>, n: Name, i: nat)
    requires i < |rows| && IsFlow(rows[i]) && Mentions(rows[i], n)
    requires forall j :: i < j < |rows| ==> !IsFlow(rows[j]) || !Mentions(rows[j], n)
    ensures n in LevelMap(rows) && LevelMap(rows)[n] == rows[i].level
  {
    if i < |rows| - 1 {
      var p := rows[..|rows| - 1];
      LevelMapLastWriteWins(p, n, i);
    }
  }
}
