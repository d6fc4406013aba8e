/**
 * The relation-closure search run on hover (`highlightRelatedNodes`): a
 * depth-first search from the hovered node along the links of the level on
 * display, first towards children, then towards parents. Both passes share
 * one `visited` set, so nodes the child pass reached are not expanded again
 * by the parent pass.
 *
 * Nodes are identified by name, as the layout's node id is the name. Links
 * are identified by their position in the level's link list, as the source
 * keeps link objects, not name pairs, in its set of related links.
 */
module Closure {

  type Name = string

  datatype Link = Link(source: Name, target: Name)

  /** Children follows links from source to target (`findAllRelatedChild`); Parents the other way (`findAllRelatedParent`). */
  datatype Direction = Children | Parents

  function Reverse(dir: Direction): Direction {
    if dir == Children then Parents else Children
  }

  /** The end a search in direction `dir` leaves a link from. */
  function From(l: Link, dir: Direction): Name {
    if dir == Children then l.source else l.target
  }

  /** The end a search in direction `dir` reaches through a link. */
  function To(l: Link, dir: Direction): Name {
    if dir == Children then l.target else l.source
  }

  /** Every name that is an end of some link. */
  function Ends(links: seq<Link>): set<Name> {
    (set l | l in links :: l.source) + (set l | l in links :: l.target)
  }

  /** The links a search in direction `dir` follows out of the nodes `e`. */
  function LinksLeaving(links: seq<Link>, dir: Direction, e: set<Name>): set<nat> {
    set j: nat | j < |links| && From(links[j], dir) in e
  }

  /** The nodes those links lead to. */
  function Successors(links: seq<Link>, dir: Direction, e: set<Name>): set<Name> {
    set j: nat | j < |links| && From(links[j], dir) in e :: To(links[j], dir)
  }

  /**
   * `w` is a walk in direction `dir` from `a` to `b` that never enters a node
   * of `avoid`: a non-empty chain of link indices, each leaving the node the
   * previous one reached.
   */
  ghost predicate Walk(links: seq<Link>, dir: Direction, a: Name, b: Name, avoid: set<Name>, w: seq<nat>) {
    && |w| > 0
    && (forall k :: 0 <= k < |w| ==> w[k] < |links|)
    && From(links[w[0]], dir) == a
    && To(links[w[|w| - 1]], dir) == b
    && (forall k :: 0 <= k < |w| - 1 ==> To(links[w[k]], dir) == From(links[w[k + 1]], dir))
    && (forall k :: 0 <= k < |w| ==> To(links[w[k]], dir) !in avoid)
  }

  /** `b` is reachable from `a` in one or more steps without entering `avoid`. */
  ghost predicate Reaches(links: seq<Link>, dir: Direction, a: Name, b: Name, avoid: set<Name>) {
    exists w :: Walk(links, dir, a, b, avoid, w)
  }

  lemma ReachedIsEnd(links: seq<Link>, dir: Direction, a: Name, b: Name, avoid: set<Name>)
    requires Reaches(links, dir, a, b, avoid)
    ensures b in Ends(links)
  {
    var w :| Walk(links, dir, a, b, avoid, w);
    var l := links[w[|w| - 1]];
    assert l in links;
  }

  /** One link is a walk of length one. */
  lemma OneStep(links: seq<Link>, dir: Direction, j: nat, avoid: set<Name>)
    requires j < |links| && To(links[j], dir) !in avoid
    ensures Reaches(links, dir, From(links[j], dir), To(links[j], dir), avoid)
  {
    assert Walk(links, dir, From(links[j], dir), To(links[j], dir), avoid, [j]);
  }

  /** A walk may be extended at its start by a link into its first node. */
  lemma Prepend(links: seq<Link>, dir: Direction, j: nat, x: Name, avoid: set<Name>, avoid': set<Name>)
    requires j < |links| && To(links[j], dir) !in avoid && avoid <= avoid'
    requires Reaches(links, dir, To(links[j], dir), x, avoid')
    ensures Reaches(links, dir, From(links[j], dir), x, avoid)
  {
    var w :| Walk(links, dir, To(links[j], dir), x, avoid', w);
    var w' := [j] + w;
    assert forall k :: 0 < k < |w'| ==> w'[k] == w[k - 1];
    assert Walk(links, dir, From(links[j], dir), x, avoid, w');
  }

  /** A walk may be extended at its end by a link out of its last node. */
  lemma Append(links: seq<Link>, dir: Direction, a: Name, j: nat, avoid: set<Name>)
    requires j < |links| && To(links[j], dir) !in avoid
    requires Reaches(links, dir, a, From(links[j], dir), avoid)
    ensures Reaches(links, dir, a, To(links[j], dir), avoid)
  {
    var w :| Walk(links, dir, a, From(links[j], dir), avoid, w);
    var w' := w + [j];
    assert forall k :: 0 <= k < |w| ==> w'[k] == w[k];
    assert Walk(links, dir, a, To(links[j], dir), avoid, w');
  }

  /** Walks compose. */
  lemma Concat(links: seq<Link>, dir: Direction, a: Name, b: Name, c: Name, avoid: set<Name>)
    requires Reaches(links, dir, a, b, avoid) && Reaches(links, dir, b, c, avoid)
    ensures Reaches(links, dir, a, c, avoid)
  {
    var w1 :| Walk(links, dir, a, b, avoid, w1);
    var w2 :| Walk(links, dir, b, c, avoid, w2);
    var w := w1 + w2;
    assert forall k :: 0 <= k < |w1| ==> w[k] == w1[k];
    assert forall k :: |w1| <= k < |w| ==> w[k] == w2[k - |w1|];
    assert Walk(links, dir, a, c, avoid, w);
  }

  /** The node a walk reaches is the end of its last link, which leaves the start or a node reached before. */
  lemma LastLink(links: seq<Link>, dir: Direction, a: Name, x: Name, avoid: set<Name>) returns (j: nat)
    requires Reaches(links, dir, a, x, avoid)
    ensures j < |links| && To(links[j], dir) == x
    ensures From(links[j], dir) == a || Reaches(links, dir, a, From(links[j], dir), avoid)
  {
    var w :| Walk(links, dir, a, x, avoid, w);
    j := w[|w| - 1];
    if |w| > 1 {
      var p := w[..|w| - 1];
      assert Walk(links, dir, a, From(links[j], dir), avoid, p);
    }
  }

  /**
   * Reachability is direction-consistent: `b` is reachable from `a` along
   * parents exactly when `a` is reachable from `b` along children.
   */
  lemma {:induction false} ReachesReversed(links: seq<Link>, dir: Direction, a: Name, b: Name)
    ensures Reaches(links, dir, a, b, {}) <==> Reaches(links, Reverse(dir), b, a, {})
  {
    forall d: Direction, x: Name, y: Name | Reaches(links, d, x, y, {})
      ensures Reaches(links, Reverse(d), y, x, {})
    {
      var w :| Walk(links, d, x, y, {}, w);
      var n := |w|;
      var r := seq(n, k requires 0 <= k < n => w[n - 1 - k]);
      assert Walk(links, Reverse(d), y, x, {}, r);
    }
    assert Reverse(Reverse(dir)) == dir;
  }

  /**
   * Every node reachable from `n` without entering `visited` is in `visited'`,
   * provided every link out of `n` and out of a node newly in `visited'` leads
   * into `visited'`.
   */
  lemma ClosedUnderLinks(links: seq<Link>, dir: Direction, n: Name, x: Name, visited: set<Name>, visited': set<Name>)
    requires forall j :: 0 <= j < |links| && From(links[j], dir) in (visited' - visited) + {n} ==> To(links[j], dir) in visited'
    requires Reaches(links, dir, n, x, visited)
    ensures x in visited' - visited
  {
    var w :| Walk(links, dir, n, x, visited, w);
    var k := 0;
    while k < |w| - 1
      invariant 0 <= k < |w|
      invariant To(links[w[k]], dir) in visited' - visited
    {
      k := k + 1;
    }
  }

  lemma LinksLeavingUnion(links: seq<Link>, dir: Direction, a: set<Name>, b: set<Name>)
    ensures LinksLeaving(links, dir, a + b) == LinksLeaving(links, dir, a) + LinksLeaving(links, dir, b)
    ensures Successors(links, dir, a + b) == Successors(links, dir, a) + Successors(links, dir, b)
  {
  }

  lemma LinksLeavingPrefix(links: seq<Link>, dir: Direction, e: set<Name>, i: nat)
    requires i < |links|
    ensures LinksLeaving(links[..i + 1], dir, e) ==
      LinksLeaving(links[..i], dir, e) + if From(links[i], dir) in e then {i} else {}
    ensures Successors(links[..i + 1], dir, e) ==
      Successors(links[..i], dir, e) + if From(links[i], dir) in e then {To(links[i], dir)} else {}
  {
    var p, q := links[..i], links[..i + 1];
    assert forall j :: 0 <= j < i ==> q[j] == p[j] == links[j];
    assert q[i] == links[i];
    if From(links[i], dir) in e {
      assert To(q[i], dir) in Successors(q, dir, e);
    }
  }

  /** The nodes newly visited by one step of the loop in Expand, split by when they were visited. */
  lemma SplitNewlyVisited(visited: set<Name>, before: set<Name>, t: Name, after: set<Name>)
    requires visited <= before && before + {t} <= after && t !in before
    ensures after - visited == (after - (before + {t})) + (before - visited) + {t}
  {
  }

  /**
   * The bookkeeping of one link of `n` whose far end `t` was not yet visited:
   * the related sets before the link, plus the link and `t`, plus what the
   * expansion of `t` added, are the related sets the loop in Expand keeps.
   */
  lemma RelatedAfterExpansion(links: seq<Link>, dir: Direction, n: Name, i: nat,
                              visited: set<Name>, before: set<Name>, after: set<Name>,
                              rn0: set<Name>, rl0: set<nat>, rnBefore: set<Name>, rlBefore: set<nat>,
                              rnAfter: set<Name>, rlAfter: set<nat>)
    requires i < |links| && From(links[i], dir) == n
    requires visited <= before && before + {To(links[i], dir)} <= after && To(links[i], dir) !in before
    requires rnBefore == rn0 + Successors(links, dir, before - visited) + Successors(links[..i], dir, {n})
    requires rlBefore == rl0 + LinksLeaving(links, dir, before - visited) + LinksLeaving(links[..i], dir, {n})
    requires rnAfter == rnBefore + {To(links[i], dir)} +
      Successors(links, dir, (after - (before + {To(links[i], dir)})) + {To(links[i], dir)})
    requires rlAfter == rlBefore + {i} +
      LinksLeaving(links, dir, (after - (before + {To(links[i], dir)})) + {To(links[i], dir)})
    ensures rnAfter == rn0 + Successors(links, dir, after - visited) + Successors(links[..i + 1], dir, {n})
    ensures rlAfter == rl0 + LinksLeaving(links, dir, after - visited) + LinksLeaving(links[..i + 1], dir, {n})
  {
    var t := To(links[i], dir);
    var newer := after - (before + {t});
    SplitNewlyVisited(visited, before, t, after);
    LinksLeavingUnion(links, dir, newer + {t}, before - visited);
    assert newer + (before - visited) + {t} == (newer + {t}) + (before - visited);
    LinksLeavingPrefix(links, dir, {n}, i);
  }

  /**
   * The state of the search from `n` after the links before position `i`
   * have been looked at: `visited'`, `relatedNodes'` and `relatedLinks'`
   * against their values `visited`, `rn0` and `rl0` at entry.
   */
  ghost predicate ExpandedUpTo(links: seq<Link>, dir: Direction, n: Name, i: nat,
                               visited: set<Name>, rn0: set<Name>, rl0: set<nat>,
                               visited': set<Name>, relatedNodes': set<Name>, relatedLinks': set<nat>)
    requires i <= |links|
  {
    && visited <= visited'
    && (forall x :: x in visited' - visited ==> Reaches(links, dir, n, x, visited))
    && (forall j :: 0 <= j < |links| && From(links[j], dir) in visited' - visited ==> To(links[j], dir) in visited')
    && (forall j :: 0 <= j < i && From(links[j], dir) == n ==> To(links[j], dir) in visited')
    && relatedNodes' == rn0 + Successors(links, dir, visited' - visited) + Successors(links[..i], dir, {n})
    && relatedLinks' == rl0 + LinksLeaving(links, dir, visited' - visited) + LinksLeaving(links[..i], dir, {n})
  }

  /**
   * `findAllRelatedChild(n)` (dir = Children) and `findAllRelatedParent(n)`
   * (dir = Parents): every link of the level is handed to VisitLink.
   *
   * The nodes newly visited are exactly those reachable from `n` without
   * entering a node visited at entry; the nodes expanded are those and `n`;
   * the related sets gain every link leaving an expanded node and its far end.
   */
  method Expand(links: seq<Link>, dir: Direction, n: Name, visited: set<Name>, relatedNodes: set<Name>, relatedLinks: set<nat>)
    returns (visited': set<Name>, relatedNodes': set<Name>, relatedLinks': set<nat>)
    ensures visited <= visited'
    ensures forall x :: x in visited' - visited <==> Reaches(links, dir, n, x, visited)
    ensures forall j :: 0 <= j < |links| && From(links[j], dir) in (visited' - visited) + {n} ==> To(links[j], dir) in visited'
    ensures relatedNodes' == relatedNodes + Successors(links, dir, (visited' - visited) + {n})
    ensures relatedLinks' == relatedLinks + LinksLeaving(links, dir, (visited' - visited) + {n})
    decreases Ends(links) - visited, 1
  {
    visited', relatedNodes', relatedLinks' := visited, relatedNodes, relatedLinks;
    for i := 0 to |links|
      invariant ExpandedUpTo(links, dir, n, i, visited, relatedNodes, relatedLinks, visited', relatedNodes', relatedLinks')
    {
      visited', relatedNodes', relatedLinks' :=
        VisitLink(links, dir, n, i, visited, relatedNodes, relatedLinks, visited', relatedNodes', relatedLinks');
    }
    assert links[..|links|] == links;
    LinksLeavingUnion(links, dir, visited' - visited, {n});
    forall x | Reaches(links, dir, n, x, visited) ensures x in visited' - visited {
      ClosedUnderLinks(links, dir, n, x, visited, visited');
    }
  }

  /**
   * The `forEach` callback of the search from `n`, on the link at position
   * `i`: when the link leaves `n`, its far end joins the related nodes and the
   * link the related links; a far end not yet visited is marked visited and
   * expanded.
   */
  method VisitLink(links: seq<Link>, dir: Direction, n: Name, i: nat,
                   ghost visited: set<Name>, ghost rn0: set<Name>, ghost rl0: set<nat>,
                   v: set<Name>, rn: set<Name>, rl: set<nat>)
    returns (visited': set<Name>, relatedNodes': set<Name>, relatedLinks': set<nat>)
    requires i < |links|
    requires ExpandedUpTo(links, dir, n, i, visited, rn0, rl0, v, rn, rl)
    ensures ExpandedUpTo(links, dir, n, i + 1, visited, rn0, rl0, visited', relatedNodes', relatedLinks')
    decreases Ends(links) - visited, 0
  {
    LinksLeavingPrefix(links, dir, {n}, i);
    visited', relatedNodes', relatedLinks' := v, rn, rl;
    var l := links[i];
    if From(l, dir) == n {
      var t := To(l, dir);
      relatedNodes' := relatedNodes' + {t};
      relatedLinks' := relatedLinks' + {i};
      if t !in visited' {
        OneStep(links, dir, i, visited);
        assert l in links;
        visited' := visited' + {t};
        var v2, rn2, rl2 := Expand(links, dir, t, visited', relatedNodes', relatedLinks');
        forall x | x in v2 - visited' ensures Reaches(links, dir, n, x, visited) {
          Prepend(links, dir, i, x, visited, visited');
        }
        RelatedAfterExpansion(links, dir, n, i, visited, v, v2, rn0, rl0, rn, rl, rn2, rl2);
        visited', relatedNodes', relatedLinks' := v2, rn2, rl2;
      }
    }
  }

  /** The nodes the child pass visits: everything reachable from the focus along children. */
  ghost function Descendants(links: seq<Link>, focus: Name): set<Name> {
    set x | x in Ends(links) && Reaches(links, Children, focus, x, {})
  }

  /**
   * The nodes the parent pass visits: those reachable from the focus along
   * parents without entering a node the child pass already visited.
   */
  ghost function UnvisitedAncestors(links: seq<Link>, focus: Name): set<Name> {
    set x | x in Ends(links) && Reaches(links, Parents, focus, x, Descendants(links, focus))
  }

  /** `relatedNodes` after a hover on `focus`: the far ends of the links leaving every expanded node. */
  ghost function RelatedNodes(links: seq<Link>, focus: Name): set<Name> {
    Successors(links, Children, Descendants(links, focus) + {focus}) +
    Successors(links, Parents, UnvisitedAncestors(links, focus) + {focus})
  }

  /** `relatedLinks` after a hover on `focus`: the links leaving every expanded node. */
  ghost function RelatedLinks(links: seq<Link>, focus: Name): set<nat> {
    LinksLeaving(links, Children, Descendants(links, focus) + {focus}) +
    LinksLeaving(links, Parents, UnvisitedAncestors(links, focus) + {focus})
  }

  /**
   * The search part of `highlightRelatedNodes`: fresh related sets and a
   * fresh visited set, the child pass from the focus, then the parent pass
   * from the focus with the visited set the child pass left.
   */
  method Highlight(links: seq<Link>, focus: Name) returns (relatedNodes: set<Name>, relatedLinks: set<nat>)
    ensures relatedNodes == RelatedNodes(links, focus)
    ensures relatedLinks == RelatedLinks(links, focus)
  {
    var visited: set<Name> := {};
    relatedNodes, relatedLinks := {}, {};
    visited, relatedNodes, relatedLinks := Expand(links, Children, focus, visited, relatedNodes, relatedLinks);
    ghost var d, e := Descendants(links, focus), UnvisitedAncestors(links, focus);
    forall x ensures x in visited <==> x in d {
      if x in visited {
        ReachedIsEnd(links, Children, focus, x, {});
      }
    }
    assert (visited - {}) + {focus} == d + {focus};
    ghost var rn1, rl1 := relatedNodes, relatedLinks;
    assert rn1 == Successors(links, Children, d + {focus});
    assert rl1 == LinksLeaving(links, Children, d + {focus});
    ghost var before := visited;
    assert before == d;
    visited, relatedNodes, relatedLinks := Expand(links, Parents, focus, visited, relatedNodes, relatedLinks);
    forall x ensures x in visited - before <==> x in e {
      if x in visited - before {
        ReachedIsEnd(links, Parents, focus, x, before);
      }
    }
    assert (visited - before) + {focus} == e + {focus};
    assert relatedNodes == rn1 + Successors(links, Parents, e + {focus});
    assert relatedLinks == rl1 + LinksLeaving(links, Parents, e + {focus});
  }

  /** A node reachable from `a` (avoiding `avoid`) is the far end of a link leaving `a` or another such node. */
  lemma ReachedIsSuccessor(links: seq<Link>, dir: Direction, a: Name, x: Name, avoid: set<Name>)
    requires Reaches(links, dir, a, x, avoid)
    ensures x in Successors(links, dir, (set y | y in Ends(links) && Reaches(links, dir, a, y, avoid)) + {a})
  {
    var j := LastLink(links, dir, a, x, avoid);
    if From(links[j], dir) != a {
      ReachedIsEnd(links, dir, a, From(links[j], dir), avoid);
    }
  }

  /** Soundness: every related node is a descendant or an ancestor of the focus. */
  lemma RelatedNodesAreReachable(links: seq<Link>, focus: Name, x: Name)
    requires x in RelatedNodes(links, focus)
    ensures Reaches(links, Children, focus, x, {}) || Reaches(links, Parents, focus, x, {})
  {
    var d, a := Descendants(links, focus), UnvisitedAncestors(links, focus);
    if x in Successors(links, Children, d + {focus}) {
      var j: nat :| j < |links| && From(links[j], Children) in d + {focus} && To(links[j], Children) == x;
      if From(links[j], Children) == focus {
        OneStep(links, Children, j, {});
      } else {
        Append(links, Children, focus, j, {});
      }
    } else {
      var j: nat :| j < |links| && From(links[j], Parents) in a + {focus} && To(links[j], Parents) == x;
      if From(links[j], Parents) == focus {
        OneStep(links, Parents, j, {});
      } else {
        var w :| Walk(links, Parents, focus, From(links[j], Parents), d, w);
        assert Walk(links, Parents, focus, From(links[j], Parents), {}, w);
        Append(links, Parents, focus, j, {});
      }
    }
  }

  /** Every related link joins two related nodes, or a related node and the focus. */
  lemma RelatedLinksJoinRelatedNodes(links: seq<Link>, focus: Name, j: nat)
    requires j in RelatedLinks(links, focus)
    ensures j < |links|
    ensures links[j].source in RelatedNodes(links, focus) + {focus}
    ensures links[j].target in RelatedNodes(links, focus) + {focus}
  {
    var d, a := Descendants(links, focus), UnvisitedAncestors(links, focus);
    if j in LinksLeaving(links, Children, d + {focus}) {
      if links[j].source != focus {
        ReachedIsSuccessor(links, Children, focus, links[j].source, {});
      }
    } else {
      if links[j].target != focus {
        ReachedIsSuccessor(links, Parents, focus, links[j].target, d);
      }
    }
  }

  /** Forward completeness: every descendant of the focus is related, as the child pass starts from nothing visited. */
  lemma DescendantsAreRelated(links: seq<Link>, focus: Name, x: Name)
    requires Reaches(links, Children, focus, x, {})
    ensures x in RelatedNodes(links, focus)
  {
    ReachedIsSuccessor(links, Children, focus, x, {});
  }

  /** When the focus lies on no cycle, no ancestor of it was visited by the child pass. */
  lemma AncestorWalkAvoidsDescendants(links: seq<Link>, focus: Name, y: Name, w: seq<nat>)
    requires !Reaches(links, Children, focus, focus, {})
    requires Walk(links, Parents, focus, y, {}, w)
    ensures Walk(links, Parents, focus, y, Descendants(links, focus), w)
  {
    var d := Descendants(links, focus);
    forall k | 0 <= k < |w| ensures To(links[w[k]], Parents) !in d {
      var z := To(links[w[k]], Parents);
      assert Walk(links, Parents, focus, z, {}, w[..k + 1]);
      ReachesReversed(links, Parents, focus, z);
      if z in d {
        Concat(links, Children, focus, z, focus, {});
        assert false;
      }
    }
  }

  /**
   * Backward completeness: when the focus lies on no cycle, every ancestor of
   * the focus is related, although the parent pass reuses the child pass's
   * visited set.
   */
  lemma AncestorsAreRelatedOffCycle(links: seq<Link>, focus: Name, y: Name)
    requires !Reaches(links, Children, focus, focus, {})
    requires Reaches(links, Parents, focus, y, {})
    ensures y in RelatedNodes(links, focus)
  {
    var w :| Walk(links, Parents, focus, y, {}, w);
    AncestorWalkAvoidsDescendants(links, focus, y, w);
    ReachedIsSuccessor(links, Parents, focus, y, Descendants(links, focus));
  }

  /** The hovered node is itself related exactly when a cycle leads back to it. */
  lemma FocusRelatedIffOnCycle(links: seq<Link>, focus: Name)
    ensures focus in RelatedNodes(links, focus) <==> Reaches(links, Children, focus, focus, {})
  {
    if focus in RelatedNodes(links, focus) {
      RelatedNodesAreReachable(links, focus, focus);
      ReachesReversed(links, Parents, focus, focus);
    }
    if Reaches(links, Children, focus, focus, {}) {
      DescendantsAreRelated(links, focus, focus);
    }
  }

  /** No walk ends in a node it must avoid. */
  lemma AvoidedIsUnreached(links: seq<Link>, dir: Direction, a: Name, b: Name, avoid: set<Name>)
    requires b in avoid
    ensures !Reaches(links, dir, a, b, avoid)
  {
  }

  /** A node is no successor of `e` when every link leading to it in direction `dir` leaves a node outside `e`. */
  lemma NotASuccessor(links: seq<Link>, dir: Direction, e: set<Name>, x: Name)
    requires forall j :: 0 <= j < |links| && To(links[j], dir) == x ==> From(links[j], dir) !in e
    ensures x !in Successors(links, dir, e)
  {
  }

  /**
   * The shared visited set is observable: with links Z->A, A->B, B->A and
   * the focus B, the child pass visits A and B, so the parent pass does not
   * expand A, and Z, an ancestor of B, is not related.
   */
  lemma SharedVisitedMissesAncestor()
    ensures var links := [Link("Z", "A"), Link("A", "B"), Link("B", "A")];
      Reaches(links, Parents, "B", "Z", {}) && "Z" !in RelatedNodes(links, "B")
  {
    var links := [Link("Z", "A"), Link("A", "B"), Link("B", "A")];
    assert Reaches(links, Parents, "B", "Z", {}) by {
      assert Walk(links, Parents, "B", "Z", {}, [1, 0]);
    }
    var d := Descendants(links, "B");
    var u := UnvisitedAncestors(links, "B");
    assert "A" !in u by {
      assert "A" in d by {
        OneStep(links, Children, 2, {});
        assert links[0] in links;
      }
      AvoidedIsUnreached(links, Parents, "B", "A", d);
    }
    assert "Z" !in Successors(links, Children, d + {"B"}) by {
      NotASuccessor(links, Children, d + {"B"}, "Z");
    }
    assert "Z" !in Successors(links, Parents, u + {"B"}) by {
      var e := u + {"B"};
      assert "A" !in e;
      forall j | 0 <= j < |links| && To(links[j], Parents) == "Z"
        ensures From(links[j], Parents) !in e
      {
        assert j == 0;
      }
      NotASuccessor(links, Parents, e, "Z");
    }
  }
}
