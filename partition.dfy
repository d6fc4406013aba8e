/**
 * The level partition built by `parseCSV`: for every level, its links in
 * input order and its nodes (distinct endpoints in first-occurrence order,
 * annotated from the three lookups), plus the aggregate view of every flow
 * link, stored under the sentinel key -1.
 */
module Partition {
  import opened Wrappers
  import opened Seqs
  import opened Table

  /** A node of one level's view, before layout: any of its three attributes may be missing. */
  datatype Node = Node(name: Name, level: Option<int>, category: Option<Name>, color: Option<Color>)

  /** The three lookups `parseCSV` builds before partitioning. */
  datatype Lookups = Lookups(color: map<Name, Color>, category: map<Name, Name>, level: map<Name, int>)

  function LookupsOf(rows: seq<Row>): Lookups {
    Lookups(ColorMap(rows), CategoryMap(rows), LevelMap(rows))
  }

  /**
   * The record `{name, level, category, color}` made for one node name: each
   * attribute is present exactly when its lookup has the name, and then holds
   * the looked-up value.
   */
  function Annotate(n: Name, lk: Lookups): (nd: Node)
    ensures nd.name == n
    ensures (nd.level.Some? <==> n in lk.level) && (nd.level.Some? ==> nd.level.value == lk.level[n])
    ensures (nd.category.Some? <==> n in lk.category) && (nd.category.Some? ==> nd.category.value == lk.category[n])
    ensures (nd.color.Some? <==> n in lk.color) && (nd.color.Some? ==> nd.color.value == lk.color[n])
  {
    Node(n, Get(lk.level, n), Get(lk.category, n), Get(lk.color, n))
  }

  function Names(ns: seq<Node>): (names: seq<Name>)
    ensures |names| == |ns|
  {
    seq(|ns|, k requires 0 <= k < |ns| => ns[k].name)
  }

  /** One record per distinct endpoint of `links`, in first-occurrence order. */
  function NodesOf(links: seq<Row>, lk: Lookups): (ns: seq<Node>)
    ensures Names(ns) == Distinct(Endpoints(links))
    ensures forall k :: 0 <= k < |ns| ==> ns[k] == Annotate(ns[k].name, lk)
  {
    var names := Distinct(Endpoints(links));
    seq(|names|, k requires 0 <= k < |names| => Annotate(names[k], lk))
  }

  /** The level column (`links.flatMap(l => l.level)`). */
  function LevelColumn(rows: seq<Row>): (c: seq<int>)
    ensures |c| == |rows| && forall k :: 0 <= k < |rows| ==> c[k] == rows[k].level
  {
    seq(|rows|, k requires 0 <= k < |rows| => rows[k].level)
  }

  /** The distinct levels in first-occurrence order, the sentinel included when present. */
  function Levels(rows: seq<Row>): (ls: seq<int>)
    ensures NoDuplicates(ls)
    ensures forall l :: l in ls <==> exists k :: 0 <= k < |rows| && rows[k].level == l
  {
    Distinct(LevelColumn(rows))
  }

  function AtLevel(l: int): Row -> bool {
    (r: Row) => r.level == l
  }

  /** `links.filter(x => x.level == l)`. */
  function LevelLinks(rows: seq<Row>, l: int): (ls: seq<Row>)
    ensures forall r :: r in ls <==> r in rows && r.level == l
  {
    var ls := Filter(rows, AtLevel(l));
    assert forall r :: r in ls <==> multiset(ls)[r] > 0;
    ls
  }

  /** The nodes listed for level `l`: one annotated record per name its rows mention, no name twice. */
  function LevelNodes(rows: seq<Row>, l: int): (ns: seq<Node>)
    ensures NoDuplicates(Names(ns))
    ensures forall nd :: nd in ns <==>
      nd == Annotate(nd.name, LookupsOf(rows)) && exists r :: r in rows && r.level == l && Mentions(r, nd.name)
  {
    NodesOfSpec(LevelLinks(rows, l), LookupsOf(rows));
    InNodesOfAll(LevelLinks(rows, l), LookupsOf(rows));
    NodesOf(LevelLinks(rows, l), LookupsOf(rows))
  }

  /** `links.filter(x => x.level != -1)`: the aggregate view's links. */
  function AggregateLinks(rows: seq<Row>): (a: seq<Row>)
    ensures forall r :: r in a <==> r in rows && IsFlow(r)
  {
    var a := Filter(rows, IsFlow);
    assert forall r :: r in a <==> multiset(a)[r] > 0;
    a
  }

  /** The aggregate's nodes: one annotated record per name a flow row mentions, no name twice. */
  function AggregateNodes(rows: seq<Row>): (ns: seq<Node>)
    ensures NoDuplicates(Names(ns))
    ensures forall nd :: nd in ns <==>
      nd == Annotate(nd.name, LookupsOf(rows)) && exists r :: r in rows && IsFlow(r) && Mentions(r, nd.name)
  {
    NodesOfSpec(AggregateLinks(rows), LookupsOf(rows));
    InNodesOfAll(AggregateLinks(rows), LookupsOf(rows));
    NodesOf(AggregateLinks(rows), LookupsOf(rows))
  }

  /** The first `forEach` of `parseCSV`: both endpoints of every row get the row's colour column. */
  method BuildNodeColor(rows: seq<Row>) returns (nodeColor: map<Name, Color>)
    ensures nodeColor == ColorMap(rows)
  {
    nodeColor := map[];
    for i := 0 to |rows|
      invariant nodeColor == ColorMap(rows[..i])
    {
      assert rows[..i + 1][..i] == rows[..i];
      nodeColor := nodeColor[rows[i].source := rows[i].colorS][rows[i].target := rows[i].colorT];
    }
    assert rows[..|rows|] == rows;
  }

  /** The second `forEach` of `parseCSV`: category rows fill `nodeParent`, flow links fill `nodeLevels`. */
  method BuildNodeParentAndLevels(rows: seq<Row>) returns (nodeParent: map<Name, Name>, nodeLevels: map<Name, int>)
    ensures nodeParent == CategoryMap(rows)
    ensures nodeLevels == LevelMap(rows)
  {
    nodeParent, nodeLevels := map[], map[];
    for i := 0 to |rows|
      invariant nodeParent == CategoryMap(rows[..i])
      invariant nodeLevels == LevelMap(rows[..i])
    {
      assert rows[..i + 1][..i] == rows[..i];
      if rows[i].level == Sentinel {
        nodeParent := nodeParent[rows[i].target := rows[i].source];
      } else {
        nodeLevels := nodeLevels[rows[i].source := rows[i].level][rows[i].target := rows[i].level];
      }
    }
    assert rows[..|rows|] == rows;
  }

  /**
   * The `levels.forEach` of `parseCSV`: one entry per listed level, holding
   * the rows at that level and the records of their distinct endpoints.
   */
  method BuildLevelEntries(rows: seq<Row>, levels: seq<int>, lookups: Lookups)
    returns (level2links: map<int, seq<Row>>, level2nodes: map<int, seq<Node>>)
    ensures forall l :: l in level2links <==> l in levels
    ensures level2nodes.Keys == level2links.Keys
    ensures forall l :: l in level2links ==>
      level2links[l] == LevelLinks(rows, l) && level2nodes[l] == NodesOf(LevelLinks(rows, l), lookups)
  {
    level2links, level2nodes := map[], map[];
    for i := 0 to |levels|
      invariant forall l :: l in level2links <==> l in levels[..i]
      invariant level2nodes.Keys == level2links.Keys
      invariant forall l :: l in level2links ==>
        level2links[l] == LevelLinks(rows, l) && level2nodes[l] == NodesOf(LevelLinks(rows, l), lookups)
    {
      var l := levels[i];
      assert levels[..i + 1] == levels[..i] + [l];
      level2links := level2links[l := LevelLinks(rows, l)];
      level2nodes := level2nodes[l := NodesOf(level2links[l], lookups)];
    }
    assert levels[..|levels|] == levels;
  }

  /**
   * `parseCSV` from the parsed rows on: the two lookup loops, then one entry
   * per distinct level, then the aggregate entry under the sentinel key,
   * which replaces the sentinel level's own entry.
   */
  method ParseCsv(rows: seq<Row>) returns (levels: seq<int>, level2links: map<int, seq<Row>>, level2nodes: map<int, seq<Node>>)
    ensures levels == Levels(rows)
    ensures forall l :: l in level2links <==> l in levels || l == Sentinel
    ensures level2nodes.Keys == level2links.Keys
    ensures forall l :: l in level2links && l != Sentinel ==>
      level2links[l] == LevelLinks(rows, l) && level2nodes[l] == LevelNodes(rows, l)
    ensures level2links[Sentinel] == AggregateLinks(rows)
    ensures level2nodes[Sentinel] == AggregateNodes(rows)
  {
    var nodeColor := BuildNodeColor(rows);
    var nodeParent, nodeLevels := BuildNodeParentAndLevels(rows);
    var lookups := Lookups(nodeColor, nodeParent, nodeLevels);
    assert lookups == LookupsOf(rows);

    levels := Distinct(LevelColumn(rows));
    level2links, level2nodes := BuildLevelEntries(rows, levels, lookups);
    level2links := level2links[Sentinel := AggregateLinks(rows)];
    level2nodes := level2nodes[Sentinel := NodesOf(level2links[Sentinel], lookups)];
  }

  /** Membership in a node list: the name is an endpoint of some link, and the record carries the lookups. */
  lemma InNodesOf(links: seq<Row>, lk: Lookups, nd: Node)
    ensures nd in NodesOf(links, lk) <==> nd == Annotate(nd.name, lk) && exists r :: r in links && Mentions(r, nd.name)
  {
    var ns := NodesOf(links, lk);
    var e := Endpoints(links);
    if nd in ns {
      var k :| 0 <= k < |ns| && ns[k] == nd;
      assert Names(ns)[k] == nd.name;
      assert nd.name in e;
      var j :| 0 <= j < |links| && Mentions(links[j], nd.name);
      assert links[j] in links;
    }
    if nd == Annotate(nd.name, lk) && exists r :: r in links && Mentions(r, nd.name) {
      var r :| r in links && Mentions(r, nd.name);
      var j :| 0 <= j < |links| && links[j] == r;
      assert nd.name in e;
      assert nd.name in Names(ns);
      var k :| 0 <= k < |ns| && Names(ns)[k] == nd.name;
      assert ns[k] == nd;
    }
  }

  lemma InNodesOfAll(links: seq<Row>, lk: Lookups)
    ensures forall nd :: nd in NodesOf(links, lk) <==> nd == Annotate(nd.name, lk) && exists r :: r in links && Mentions(r, nd.name)
  {
    forall nd {
      InNodesOf(links, lk, nd);
    }
  }

  /**
   * Every level's node list (and the aggregate's) names each endpoint of its
   * links exactly once, in the order of first occurrence among the endpoints
   * (source before target within a row), and every record carries the three
   * lookups.
   */
  lemma NodesOfSpec(links: seq<Row>, lk: Lookups)
    ensures NoDuplicates(Names(NodesOf(links, lk)))
    ensures forall n :: n in Names(NodesOf(links, lk)) <==> exists k :: 0 <= k < |links| && Mentions(links[k], n)
    ensures forall i, j :: 0 <= i < j < |NodesOf(links, lk)| ==>
      IndexOf(Endpoints(links), NodesOf(links, lk)[i].name) < IndexOf(Endpoints(links), NodesOf(links, lk)[j].name)
    ensures forall nd :: nd in NodesOf(links, lk) ==> nd == Annotate(nd.name, lk)
  {
    var ns := NodesOf(links, lk);
    var e := Endpoints(links);
    forall i, j | 0 <= i < j < |ns|
      ensures IndexOf(e, ns[i].name) < IndexOf(e, ns[j].name)
    {
      assert ns[i].name == Distinct(e)[i] && ns[j].name == Distinct(e)[j];
      DistinctFirstOccurrenceOrder(e, i, j);
    }
  }

  /**
   * The flow test and the sentinel level split the table: every row is either
   * in the aggregate or among the rows of level -1, never both.
   */
  lemma FlowAndCategoryRowsSplitTable(rows: seq<Row>)
    ensures multiset(AggregateLinks(rows)) + multiset(LevelLinks(rows, Sentinel)) == multiset(rows)
  {
    var a, c := Filter(rows, IsFlow), Filter(rows, AtLevel(Sentinel));
    assert forall r :: (multiset(a) + multiset(c))[r] == multiset(rows)[r];
  }

  /** Per-level links are the aggregate's links at that level, in the same order. */
  lemma LevelLinksWithinAggregate(rows: seq<Row>, l: int)
    requires l != Sentinel
    ensures Filter(AggregateLinks(rows), AtLevel(l)) == LevelLinks(rows, l)
  {
    FilterNarrow(rows, IsFlow, AtLevel(l));
  }

  /** A row of the table that is a flow link lies in its own level's link list and in the aggregate's. */
  lemma FlowRowPlacement(rows: seq<Row>, r: Row)
    requires r in rows && IsFlow(r)
    ensures r.level in Levels(rows)
    ensures r in LevelLinks(rows, r.level) && r in AggregateLinks(rows)
  {
    var k :| 0 <= k < |rows| && rows[k] == r;
    assert LevelColumn(rows)[k] == r.level;
    assert multiset(LevelLinks(rows, r.level))[r] > 0;
    assert multiset(AggregateLinks(rows))[r] > 0;
  }

  /**
   * The aggregate node list is the union of the node lists of the flow levels:
   * a record is in it exactly when it is in some flow level's list.
   */
  lemma AggregateNodesAreUnion(rows: seq<Row>, nd: Node)
    ensures nd in AggregateNodes(rows) <==>
      exists l :: l in Levels(rows) && l != Sentinel && nd in LevelNodes(rows, l)
  {
    var lk := LookupsOf(rows);
    InNodesOf(AggregateLinks(rows), lk, nd);
    if nd in AggregateNodes(rows) {
      var r :| r in AggregateLinks(rows) && Mentions(r, nd.name);
      assert multiset(AggregateLinks(rows))[r] > 0;
      FlowRowPlacement(rows, r);
      InNodesOf(LevelLinks(rows, r.level), lk, nd);
      assert nd in LevelNodes(rows, r.level);
    }
    if exists l :: l in Levels(rows) && l != Sentinel && nd in LevelNodes(rows, l) {
      var l :| l in Levels(rows) && l != Sentinel && nd in LevelNodes(rows, l);
      InNodesOf(LevelLinks(rows, l), lk, nd);
      var r :| r in LevelLinks(rows, l) && Mentions(r, nd.name);
      assert multiset(LevelLinks(rows, l))[r] > 0;
      FlowRowPlacement(rows, r);
    }
  }

  /**
   * Every node listed for a flow level, and every node of the aggregate view,
   * has a level (a flow level) and a colour; only its category may be absent.
   */
  lemma FlowNodesHaveLevelAndColor(rows: seq<Row>, l: int, nd: Node)
    requires l != Sentinel
    requires nd in LevelNodes(rows, l) || nd in AggregateNodes(rows)
    ensures nd.level.Some? && nd.level.value != Sentinel && nd.color.Some?
  {
    var lk := LookupsOf(rows);
    var links := if nd in LevelNodes(rows, l) then LevelLinks(rows, l) else AggregateLinks(rows);
    InNodesOf(links, lk, nd);
    var r :| r in links && Mentions(r, nd.name);
    assert multiset(links)[r] > 0;
    assert r in rows && IsFlow(r);
    var k :| 0 <= k < |rows| && rows[k] == r;
    assert nd.name in LevelMap(rows) && nd.name in ColorMap(rows);
  }

  /**
   * A three-row table: two flows (A to B at level 1, B to C at level 2) and a
   * category row making X the category of A, with blank colours.
   */
  function ExampleRows(): seq<Row> {
    [Row("A", "B", 1, "red", "green"), Row("B", "C", 2, "green", "blue"), Row("X", "A", -1, "", "")]
  }

  /** The levels are listed in first-occurrence order, the sentinel included. */
  lemma ExampleLevels()
    ensures Levels(ExampleRows()) == [1, 2, Sentinel]
  {
    var column := LevelColumn(ExampleRows());
    assert column == [1, 2, Sentinel];
    DistinctOfNoDuplicates(column);
  }

  /** Level 1 holds the first row only. */
  lemma ExampleLevelOneLinks()
    ensures LevelLinks(ExampleRows(), 1) == ExampleRows()[..1]
  {
    var rows := ExampleRows();
    var head, tail := rows[..1], rows[1..];
    assert rows == head + tail by {
      assert head == [rows[0]] && tail == [rows[1], rows[2]];
    }
    assert Filter(head, AtLevel(1)) == head by {
      assert head == [rows[0]];
      FilterKeepsAll(head, AtLevel(1));
    }
    assert Filter(tail, AtLevel(1)) == [] by {
      assert tail == [rows[1], rows[2]];
      FilterDropsAll(tail, AtLevel(1));
    }
    FilterConcat(head, tail, AtLevel(1));
  }

  /** The aggregate holds both flows and not the category row. */
  lemma ExampleAggregateLinks()
    ensures AggregateLinks(ExampleRows()) == ExampleRows()[..2]
  {
    var rows := ExampleRows();
    var head, tail := rows[..2], rows[2..];
    assert rows == head + tail by {
      assert head == [rows[0], rows[1]] && tail == [rows[2]];
    }
    assert Filter(head, IsFlow) == head by {
      assert head == [rows[0], rows[1]];
      FilterKeepsAll(head, IsFlow);
    }
    assert Filter(tail, IsFlow) == [] by {
      assert tail == [rows[2]];
      FilterDropsAll(tail, IsFlow);
    }
    FilterConcat(head, tail, IsFlow);
  }

  /** The record made for A: level 1, category X, and the blank colour of the category row, its last write. */
  lemma ExampleRecordA()
    ensures Annotate("A", LookupsOf(ExampleRows())) == Node("A", Some(1), Some("X"), Some(""))
  {
    var rows := ExampleRows();
    ColorMapLastWriteWins(rows, "A", 2);
    CategoryMapLastWriteWins(rows, "A", 2);
    LevelMapLastWriteWins(rows, "A", 0);
  }

  /** The record made for B: level 2, the level of its last flow row, no category, and colour green. */
  lemma ExampleRecordB()
    ensures Annotate("B", LookupsOf(ExampleRows())) == Node("B", Some(2), None, Some("green"))
  {
    var rows := ExampleRows();
    ColorMapLastWriteWins(rows, "B", 1);
    assert "B" !in CategoryMap(rows);
    LevelMapLastWriteWins(rows, "B", 1);
  }

  /** The endpoints of the first row, A then B, are the names listed at level 1. */
  lemma ExampleLevelOneNames()
    ensures Distinct(Endpoints(ExampleRows()[..1])) == ["A", "B"]
  {
    var first := ExampleRows()[..1];
    assert first[0] == Row("A", "B", 1, "red", "green");
    var e := Endpoints(first);
    assert e[0] == "A" && e[1] == "B";
    assert e == ["A", "B"];
    DistinctOfNoDuplicates(e);
  }

  /** Level 1 lists A then B, B with the level of its last flow row rather than the level it is drawn at. */
  lemma ExampleLevelOneNodes()
    ensures LevelNodes(ExampleRows(), 1) == [Node("A", Some(1), Some("X"), Some("")), Node("B", Some(2), None, Some("green"))]
  {
    var ns := LevelNodes(ExampleRows(), 1);
    assert |ns| == 2 && ns[0].name == "A" && ns[1].name == "B" by {
      ExampleLevelOneLinks();
      ExampleLevelOneNames();
      assert Names(ns) == ["A", "B"];
      assert ns[0].name == Names(ns)[0] && ns[1].name == Names(ns)[1];
    }
    assert ns[0] == Node("A", Some(1), Some("X"), Some("")) && ns[1] == Node("B", Some(2), None, Some("green")) by {
      var lk := LookupsOf(ExampleRows());
      assert ns == NodesOf(LevelLinks(ExampleRows(), 1), lk);
      assert ns[0] == Annotate("A", lk) && ns[1] == Annotate("B", lk);
      ExampleRecordA();
      ExampleRecordB();
    }
    PairIsItsElements(ns);
  }
}
