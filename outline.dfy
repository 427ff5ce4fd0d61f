/**
 * The forest that a sequence of line levels describes (parser.c:359-365 and
 * 425-434). Line k becomes node k. Its parent is the nearest earlier line one
 * level up. Its first child is the earliest line hanging from it, and its
 * next sibling is the earliest later line with the same parent. `Describes`
 * states this of an arena. `OutlineWF` and `OutlineWalk` show that such an
 * arena is well formed and that its preorder walk visits the lines in
 * document order.
 */
module Outline {
  import opened GedcomTypes
  import opened Forest

  /** The first line has level 0, and no line is more than one level below the one before it. */
  predicate LevelsOk(levels: seq<nat>)
  {
    && (|levels| > 0 ==> levels[0] == 0)
    && forall k :: 0 < k < |levels| ==> levels[k] <= levels[k - 1] + 1
  }

  /** `p` is the parent line `k` gets: the nearest earlier line one level up, or Nil at level 0. */
  predicate ParentIs(levels: seq<nat>, k: nat, p: int)
    requires k < |levels|
  {
    if levels[k] == 0 then p == Nil
    else 0 <= p < k && levels[p] == levels[k] - 1 && forall j :: p < j < k ==> levels[j] >= levels[k]
  }

  /** `f` is the earliest node whose parent is `k`, or Nil when there is none. */
  predicate FirstIs(nodes: seq<Node>, k: nat, f: int)
  {
    if f == Nil then forall j :: 0 <= j < |nodes| ==> nodes[j].parent != k
    else k < f < |nodes| && nodes[f].parent == k && forall j :: k < j < f ==> nodes[j].parent != k
  }

  /** `x` is the earliest node after `k` with the same parent, or Nil when there is none. */
  predicate NextIs(nodes: seq<Node>, k: nat, x: int)
    requires k < |nodes|
  {
    if x == Nil then
      forall j :: k < j < |nodes| ==> nodes[j].parent != nodes[k].parent
    else
      && k < x < |nodes| && nodes[x].parent == nodes[k].parent
      && forall j :: k < j < x ==> nodes[j].parent != nodes[k].parent
  }

  /** Node k's links are the ones line k gets from the levels. */
  predicate LinksOf(nodes: seq<Node>, levels: seq<nat>, k: nat)
    requires k < |nodes| == |levels|
  {
    && ParentIs(levels, k, nodes[k].parent)
    && FirstIs(nodes, k, nodes[k].firstChild)
    && NextIs(nodes, k, nodes[k].nextSibling)
  }

  /** The arena is the forest the levels describe, node k for line k. */
  predicate Describes(nodes: seq<Node>, levels: seq<nat>)
  {
    && |nodes| == |levels|
    && LevelsOk(levels)
    && forall k :: 0 <= k < |nodes| ==> LinksOf(nodes, levels, k)
  }

  /** The lines `lo`, `lo + 1`, ..., `hi - 1`. */
  function Lines(lo: nat, hi: nat): (r: seq<nat>)
    requires lo <= hi
    ensures |r| == hi - lo && forall i :: 0 <= i < |r| ==> r[i] == lo + i
  {
    seq(hi - lo, i requires 0 <= i < hi - lo => lo + i)
  }

  /** Node k's parent is one level up, and every node between them is at k's level or deeper. */
  lemma ParentLevel(nodes: seq<Node>, levels: seq<nat>, k: nat)
    requires Describes(nodes, levels) && k < |nodes|
    ensures nodes[k].parent == Nil <==> levels[k] == 0
    ensures nodes[k].parent != Nil ==> 0 <= nodes[k].parent < k && levels[nodes[k].parent] + 1 == levels[k]
  {
    assert LinksOf(nodes, levels, k);
  }

  /** Two lines at the same level with nothing shallower between them share a parent. */
  lemma SameParent(nodes: seq<Node>, levels: seq<nat>, a: nat, m: nat)
    requires Describes(nodes, levels) && a < m < |nodes| && levels[m] == levels[a]
    requires forall j :: a < j < m ==> levels[j] > levels[a]
    ensures nodes[m].parent == nodes[a].parent
  {
    assert LinksOf(nodes, levels, a) && LinksOf(nodes, levels, m);
  }

  /** No node after `a` and before any shallower line hangs from `a`'s parent. */
  lemma NoSiblingBetween(nodes: seq<Node>, levels: seq<nat>, a: nat, x: nat)
    requires Describes(nodes, levels) && a < x < |nodes|
    requires levels[x] > levels[a]
    ensures nodes[x].parent != nodes[a].parent
  {
    assert LinksOf(nodes, levels, a) && LinksOf(nodes, levels, x);
  }

  /** Past a line shallower than `a`, no node hangs from `a`'s parent. */
  lemma NoSiblingPast(nodes: seq<Node>, levels: seq<nat>, a: nat, m: nat, x: nat)
    requires Describes(nodes, levels) && a < m <= x < |nodes|
    requires levels[m] < levels[a]
    ensures nodes[x].parent != nodes[a].parent
  {
    assert LinksOf(nodes, levels, a) && LinksOf(nodes, levels, x);
  }

  /**
   * Climbing from `a` reaches line `m` when `m` is no deeper than `a` and every
   * line between them is deeper.
   */
  lemma {:induction false} ClimbTo(nodes: seq<Node>, levels: seq<nat>, a: nat, m: nat)
    requires Describes(nodes, levels) && a < m < |nodes| && levels[m] <= levels[a]
    requires forall j :: a < j < m ==> levels[j] > levels[a]
    requires LinksInRange(nodes)
    ensures Climb(nodes, a) == m
    decreases a
  {
    assert LinksOf(nodes, levels, a);
    var x := nodes[a].nextSibling;
    if levels[m] == levels[a] {
      SameParent(nodes, levels, a, m);
      forall j | a < j < m ensures nodes[j].parent != nodes[a].parent {
        NoSiblingBetween(nodes, levels, a, j);
      }
    } else {
      forall j | a < j < |nodes| ensures nodes[j].parent != nodes[a].parent {
        if j < m {
          NoSiblingBetween(nodes, levels, a, j);
        } else {
          NoSiblingPast(nodes, levels, a, m, j);
        }
      }
      var p := nodes[a].parent;
      assert forall j :: p < j < m ==> levels[j] > levels[p] by {
        forall j | p < j < m ensures levels[j] > levels[p] {
          if j < a { assert levels[j] >= levels[a]; }
        }
      }
      ClimbTo(nodes, levels, p, m);
    }
  }

  /** Climbing from `a` finds nothing when every later line is deeper than `a`. */
  lemma {:induction false} ClimbEnd(nodes: seq<Node>, levels: seq<nat>, a: nat)
    requires Describes(nodes, levels) && a < |nodes|
    requires forall j :: a < j < |nodes| ==> levels[j] > levels[a]
    requires LinksInRange(nodes)
    ensures Climb(nodes, a) == Nil
    decreases a
  {
    assert LinksOf(nodes, levels, a);
    forall j | a < j < |nodes| ensures nodes[j].parent != nodes[a].parent {
      NoSiblingBetween(nodes, levels, a, j);
    }
    var p := nodes[a].parent;
    if p != Nil {
      assert forall j :: p < j < |nodes| ==> levels[j] > levels[p] by {
        forall j | p < j < |nodes| ensures levels[j] > levels[p] {
          if j < a { assert levels[j] >= levels[a]; }
        }
      }
      ClimbEnd(nodes, levels, p);
    }
  }

  lemma OutlineLinks(nodes: seq<Node>, levels: seq<nat>)
    requires Describes(nodes, levels)
    ensures LinksInRange(nodes) && ParentsAgree(nodes)
  {
    forall k | 0 <= k < |nodes|
      ensures IsRef(nodes[k].parent, |nodes|) && nodes[k].parent < k
    {
      assert LinksOf(nodes, levels, k);
    }
    assert LinksInRange(nodes) by {
      forall k | 0 <= k < |nodes| ensures
        && IsRef(nodes[k].firstChild, |nodes|) && (nodes[k].firstChild == Nil || nodes[k].firstChild > k)
        && IsRef(nodes[k].nextSibling, |nodes|) && (nodes[k].nextSibling == Nil || nodes[k].nextSibling > k)
      {
        assert LinksOf(nodes, levels, k);
      }
    }
    forall k | 0 <= k < |nodes| ensures ParentOk(nodes, k) {
      assert LinksOf(nodes, levels, k);
    }
  }

  /** The preorder successor of line k is line k + 1, and the last line has none. */
  lemma OutlineNext(nodes: seq<Node>, levels: seq<nat>, k: nat)
    requires Describes(nodes, levels) && k < |nodes|
    requires LinksInRange(nodes)
    ensures Next(nodes, k) == if k + 1 < |nodes| then k + 1 else Nil
  {
    assert LinksOf(nodes, levels, k);
    var f := nodes[k].firstChild;
    if k + 1 < |nodes| {
      assert LinksOf(nodes, levels, k + 1);
      if levels[k + 1] == levels[k] + 1 {
        assert nodes[k + 1].parent == k;
      } else {
        forall j | k < j < |nodes| ensures nodes[j].parent != k {
          assert LinksOf(nodes, levels, j);
        }
        ClimbTo(nodes, levels, k, k + 1);
      }
    } else {
      ClimbEnd(nodes, levels, k);
    }
  }

  /** An arena that follows the levels is well formed. */
  lemma OutlineWF(nodes: seq<Node>, levels: seq<nat>)
    requires Describes(nodes, levels)
    ensures WF(nodes)
    ensures forall k :: 0 <= k < |nodes| ==> Next(nodes, k) == if k + 1 < |nodes| then k + 1 else Nil
  {
    OutlineLinks(nodes, levels);
    forall k | 0 <= k < |nodes|
      ensures Next(nodes, k) == if k + 1 < |nodes| then k + 1 else Nil
    {
      OutlineNext(nodes, levels, k);
    }
  }

  /**
   * Every line is reachable from the first one: the walk lineOfStructure
   * makes from node 0 is the lines in order (parser.h:47).
   */
  lemma OutlineWalk(nodes: seq<Node>, levels: seq<nat>)
    requires Describes(nodes, levels) && |nodes| > 0
    ensures WF(nodes)
    ensures Walk(nodes, 0) == Lines(0, |nodes|)
    ensures Walk(nodes, 0) == Preorder(nodes, 0)
  {
    OutlineWF(nodes, levels);
    WalkFrom(nodes, 0);
    WalkIsPreorder(nodes, 0);
  }

  lemma {:induction false} WalkFrom(nodes: seq<Node>, k: nat)
    requires WF(nodes) && k < |nodes|
    requires forall j :: 0 <= j < |nodes| ==> Next(nodes, j) == if j + 1 < |nodes| then j + 1 else Nil
    ensures Walk(nodes, k) == Lines(k, |nodes|)
    decreases |nodes| - k
  {
    if k + 1 < |nodes| {
      WalkFrom(nodes, k + 1);
    }
  }

  /**
   * `x` is the node left open at depth `d` by the lines so far: the last
   * line at level `d`, with only deeper lines after it. At depth -1 it is
   * Nil, standing for the list of roots.
   */
  predicate OpenAt(levels: seq<nat>, x: int, d: int)
  {
    if d < 0 then x == Nil && d == -1
    else 0 <= x < |levels| && levels[x] == d && forall j :: x < j < |levels| ==> levels[j] > d
  }

  /** The parent of the node open at depth `d` is the node open at depth `d - 1`. */
  lemma OpenUp(nodes: seq<Node>, levels: seq<nat>, x: int, d: int)
    requires Describes(nodes, levels) && d >= 0 && OpenAt(levels, x, d)
    ensures OpenAt(levels, nodes[x].parent, d - 1)
  {
    assert LinksOf(nodes, levels, x);
  }

  /**
   * Links a new node in as parser.c:430-432 does: as the next sibling of
   * `sibling` when there is one, otherwise as the first child of its parent
   * (parser.c:425-429 give the new node its parent and no links of its own).
   */
  function Attach(nodes: seq<Node>, sibling: int, node: Node): (r: seq<Node>)
    requires IsRef(sibling, |nodes|) && IsRef(node.parent, |nodes|)
    ensures |r| == |nodes| + 1 && r[|nodes|] == node
    ensures forall k :: 0 <= k < |nodes| ==> r[k].parent == nodes[k].parent
    ensures forall k :: 0 <= k < |nodes| ==>
      r[k].tag == nodes[k].tag && r[k].id == nodes[k].id && r[k].payload == nodes[k].payload
  {
    var linked :=
      if sibling != Nil then nodes[sibling := nodes[sibling].(nextSibling := |nodes|)]
      else if node.parent != Nil then nodes[node.parent := nodes[node.parent].(firstChild := |nodes|)]
      else nodes;
    linked + [node]
  }

  /**
   * A node for a line at level `l`, hung from the node open at depth `l - 1`
   * after the last child that node has so far, keeps the arena in line with
   * the levels.
   */
  lemma AttachKeepsOutline(nodes: seq<Node>, levels: seq<nat>, l: nat, sibling: int, node: Node)
    requires Describes(nodes, levels)
    requires if |nodes| == 0 then l == 0 else l <= levels[|nodes| - 1] + 1
    requires OpenAt(levels, node.parent, l - 1)
    requires node.firstChild == Nil && node.nextSibling == Nil
    requires sibling == Nil ==> |nodes| == 0 || node.parent == |nodes| - 1
    requires sibling != Nil ==> OpenAt(levels, sibling, l) && nodes[sibling].parent == node.parent
    ensures Describes(Attach(nodes, sibling, node), levels + [l])
  {
    var n := |nodes|;
    var lv := levels + [l];
    assert forall j :: 0 <= j < n ==> lv[j] == levels[j];
    assert LevelsOk(lv);
    forall k | 0 <= k < n + 1 ensures LinksOf(Attach(nodes, sibling, node), lv, k) {
      if k < n {
        AttachOld(nodes, levels, l, sibling, node, k);
      } else {
        AttachNew(nodes, levels, l, sibling, node);
      }
    }
  }

  /** What the new node's links are. */
  lemma AttachNew(nodes: seq<Node>, levels: seq<nat>, l: nat, sibling: int, node: Node)
    requires Describes(nodes, levels)
    requires if |nodes| == 0 then l == 0 else l <= levels[|nodes| - 1] + 1
    requires OpenAt(levels, node.parent, l - 1)
    requires node.firstChild == Nil && node.nextSibling == Nil
    requires IsRef(sibling, |nodes|)
    ensures LinksOf(Attach(nodes, sibling, node), levels + [l], |nodes|)
  {
    var n := |nodes|;
    var lv := levels + [l];
    assert forall j :: 0 <= j < n ==> lv[j] == levels[j];
    assert ParentIs(lv, n, node.parent);
    forall j | 0 <= j < n ensures nodes[j].parent < j {
      assert LinksOf(nodes, levels, j);
    }
  }

  /** What an earlier node's links become. */
  lemma AttachOld(nodes: seq<Node>, levels: seq<nat>, l: nat, sibling: int, node: Node, k: nat)
    requires Describes(nodes, levels) && k < |nodes|
    requires OpenAt(levels, node.parent, l - 1)
    requires sibling == Nil ==> node.parent == |nodes| - 1
    requires sibling != Nil ==> OpenAt(levels, sibling, l) && nodes[sibling].parent == node.parent
    ensures LinksOf(Attach(nodes, sibling, node), levels + [l], k)
  {
    var n := |nodes|;
    var r := Attach(nodes, sibling, node);
    var p := node.parent;
    assert LinksOf(nodes, levels, k);
    ParentStays(levels, l, k, nodes[k].parent);
    if sibling == Nil {
      forall j | 0 <= j < n ensures nodes[j].parent != p {
        assert LinksOf(nodes, levels, j);
      }
    } else {
      forall j | sibling < j < n ensures nodes[j].parent != p {
        NoSiblingBetween(nodes, levels, sibling, j);
      }
      if k != sibling && nodes[k].nextSibling == Nil && nodes[k].parent == p {
        LastChild(nodes, levels, l, sibling, p, k);
      }
    }
  }

  lemma ParentStays(levels: seq<nat>, l: nat, k: nat, p: int)
    requires k < |levels| && ParentIs(levels, k, p)
    ensures ParentIs(levels + [l], k, p)
  {
    var lv := levels + [l];
    assert forall j :: 0 <= j <= k ==> lv[j] == levels[j];
  }

  /** The last child so far of the node open at depth `l - 1` is the node open at depth `l`. */
  lemma LastChild(nodes: seq<Node>, levels: seq<nat>, l: nat, sibling: int, p: int, k: nat)
    requires Describes(nodes, levels) && k < |nodes|
    requires OpenAt(levels, p, l - 1)
    requires sibling == Nil ==> |nodes| == 0 || p == |nodes| - 1
    requires sibling != Nil ==> OpenAt(levels, sibling, l) && nodes[sibling].parent == p
    requires nodes[k].nextSibling == Nil && nodes[k].parent == p
    ensures k == sibling
  {
    assert LinksOf(nodes, levels, k);
  }
}
