/**
 * The interactive part of one drawn level (`_chart`): the node rectangles
 * and link paths with their `inactive` and `active` classes, the hover
 * handlers that dim everything unrelated to the hovered node, and the drag
 * handlers that move a node vertically inside the drawing.
 */
module SankeyChart {
  import opened Closure

  /** The drawing height (`const height = 800`). */
  const Height: real := 800.0

  function Max(a: real, b: real): real {
    if a >= b then a else b
  }

  function Min(a: real, b: real): real {
    if a <= b then a else b
  }

  function Dist(a: real, b: real): real {
    if a >= b then a - b else b - a
  }

  /**
   * The new top edge of a dragged node of height `h` when the mouse is at
   * `p`: `p` capped at `height - h` from above and at 0 from below, that is the
   * position nearest to `p` that keeps the node inside the drawing, or 0 when
   * the node is taller than the drawing.
   */
  function ClampTop(height: real, h: real, p: real): (y: real)
    ensures 0.0 <= y
    ensures h <= height ==> y + h <= height
    ensures h >= height ==> y == 0.0
    ensures forall q :: 0.0 <= q && q + h <= height ==> Dist(y, p) <= Dist(q, p)
  {
    Max(0.0, Min(height - h, p))
  }

  /** A node after layout; the drag handlers move its vertical extent in place. */
  class PositionedNode {
    const name: Name
    var x0: real
    var x1: real
    var y0: real
    var y1: real

    constructor (name: Name, x0: real, x1: real, y0: real, y1: real)
      ensures this.name == name
      ensures this.x0 == x0 && this.x1 == x1 && this.y0 == y0 && this.y1 == y1
    {
      this.name := name;
      this.x0, this.x1, this.y0, this.y1 := x0, x1, y0, y1;
    }
  }

  /**
   * One drawn level: its positioned nodes (one rectangle each) and its links
   * (one path each), with a flag per rectangle and per path for the
   * `inactive` class and a flag per rectangle for the `active` class.
   */
  class Chart {
    const nodes: seq<PositionedNode>
    const links: seq<Link>
    const rectInactive: array<bool>
    const linkInactive: array<bool>
    const rectActive: array<bool>

    /**
     * One flag per rectangle and per path, in three separate arrays; node
     * names are distinct, as the layout identifies nodes by name, so matching
     * a rectangle by its node's name matches exactly that node.
     */
    ghost predicate Valid() {
      && (forall i, j :: 0 <= i < j < |nodes| ==> nodes[i].name != nodes[j].name)
      && rectInactive.Length == |nodes|
      && rectActive.Length == |nodes|
      && linkInactive.Length == |links|
      && rectInactive != rectActive
      && rectInactive != linkInactive
      && linkInactive != rectActive
    }

    /** The rectangles and paths are created without either class. */
    constructor (nodes: seq<PositionedNode>, links: seq<Link>)
      requires forall i, j :: 0 <= i < j < |nodes| ==> nodes[i].name != nodes[j].name
      ensures Valid() && this.nodes == nodes && this.links == links
      ensures fresh(rectInactive) && fresh(linkInactive) && fresh(rectActive)
      ensures forall k :: 0 <= k < |nodes| ==> !rectInactive[k] && !rectActive[k]
      ensures forall j :: 0 <= j < |links| ==> !linkInactive[j]
    {
      this.nodes := nodes;
      this.links := links;
      rectInactive := new bool[|nodes|](_ => false);
      rectActive := new bool[|nodes|](_ => false);
      linkInactive := new bool[|links|](_ => false);
    }

    /**
     * `highlightRelatedNodes` (mouse over a node): the related nodes and
     * links are collected, then every rectangle and path outside them is
     * dimmed and every one inside them is not.
     */
    method HighlightRelatedNodes(focus: Name)
      requires Valid()
      modifies rectInactive, linkInactive
      ensures forall k :: 0 <= k < |nodes| ==> rectInactive[k] == (nodes[k].name !in RelatedNodes(links, focus))
      ensures forall j :: 0 <= j < |links| ==> linkInactive[j] == (j !in RelatedLinks(links, focus))
    {
      var relatedNodes, relatedLinks := Highlight(links, focus);
      DimAllExcept(relatedNodes, relatedLinks);
    }

    /**
     * Every rectangle and path takes the `inactive` class, then the
     * rectangles of `keepNodes` and the paths of `keepLinks` lose it again.
     */
    method DimAllExcept(keepNodes: set<Name>, keepLinks: set<nat>)
      requires Valid()
      modifies rectInactive, linkInactive
      ensures forall k :: 0 <= k < |nodes| ==> rectInactive[k] == (nodes[k].name !in keepNodes)
      ensures forall j :: 0 <= j < |links| ==> linkInactive[j] == (j !in keepLinks)
    {
      for k := 0 to |nodes|
        modifies rectInactive
        invariant forall m :: 0 <= m < k ==> rectInactive[m]
      {
        rectInactive[k] := true;
      }
      for j := 0 to |links|
        modifies linkInactive
        invariant forall m :: 0 <= m < j ==> linkInactive[m]
      {
        linkInactive[j] := true;
      }
      for k := 0 to |nodes|
        modifies rectInactive
        invariant forall m :: 0 <= m < k ==> rectInactive[m] == (nodes[m].name !in keepNodes)
        invariant forall m :: k <= m < |nodes| ==> rectInactive[m]
      {
        if nodes[k].name in keepNodes {
          rectInactive[k] := false;
        }
      }
      for j := 0 to |links|
        modifies linkInactive
        invariant forall m :: 0 <= m < j ==> linkInactive[m] == (m !in keepLinks)
        invariant forall m :: j <= m < |links| ==> linkInactive[m]
      {
        if j in keepLinks {
          linkInactive[j] := false;
        }
      }
    }

    /** `resetNodeStyles` (mouse out): nothing is dimmed any more. */
    method ResetNodeStyles()
      requires Valid()
      modifies rectInactive, linkInactive
      ensures forall k :: 0 <= k < |nodes| ==> !rectInactive[k]
      ensures forall j :: 0 <= j < |links| ==> !linkInactive[j]
    {
      for k := 0 to |nodes|
        modifies rectInactive
        invariant forall m :: 0 <= m < k ==> !rectInactive[m]
      {
        rectInactive[k] := false;
      }
      for j := 0 to |links|
        modifies linkInactive
        invariant forall m :: 0 <= m < j ==> !linkInactive[m]
      {
        linkInactive[j] := false;
      }
    }

    /** `dragstarted` on the rectangle of node `k`: it takes the `active` class. */
    method DragStarted(k: nat)
      requires Valid() && k < |nodes|
      modifies rectActive
      ensures rectActive[k]
      ensures forall m :: 0 <= m < |nodes| && m != k ==> rectActive[m] == old(rectActive[m])
    {
      rectActive[k] := true;
    }

    /**
     * `dragged` with the mouse at height `p`: the node keeps its height and
     * its top edge moves to the clamped mouse position; its horizontal
     * extent and every other node stay where they are.
     */
    method Dragged(d: PositionedNode, p: real)
      modifies d`y0, d`y1
      ensures d.y1 - d.y0 == old(d.y1 - d.y0)
      ensures d.y0 == ClampTop(Height, old(d.y1 - d.y0), p)
      ensures d.x0 == old(d.x0) && d.x1 == old(d.x1)
      ensures forall m :: m in nodes && m != d ==> m.y0 == old(m.y0) && m.y1 == old(m.y1)
    {
      var newY := Max(0.0, Min(Height - (d.y1 - d.y0), p));
      d.y1 := d.y1 + newY - d.y0;
      d.y0 := newY;
    }

    /** `dragended` on the rectangle of node `k`: it loses the `active` class. */
    method DragEnded(k: nat)
      requires Valid() && k < |nodes|
      modifies rectActive
      ensures !rectActive[k]
      ensures forall m :: 0 <= m < |nodes| && m != k ==> rectActive[m] == old(rectActive[m])
    {
      rectActive[k] := false;
    }
  }
}
