/**
 * The first-child/next-sibling forest built by parser.c, its two traversal
 * orders and the two whole-forest operations that are not part of a parse
 * pass: lineOfStructure and freeGedStructure.
 *
 * A well-formed arena (`WF`) has links that point forward (children and later
 * siblings have larger indices, parents smaller ones), children whose parent
 * field names the node they hang from, and a preorder successor (`Next`) that
 * always moves forward. The parser builds nodes in document order, so all of
 * this holds of what it builds, and the later passes keep it.
 */
module Forest {
  import opened GedcomTypes

  predicate LinksInRange(nodes: seq<Node>)
  {
    forall k :: 0 <= k < |nodes| ==>
      && IsRef(nodes[k].firstChild, |nodes|) && (nodes[k].firstChild == Nil || nodes[k].firstChild > k)
      && IsRef(nodes[k].nextSibling, |nodes|) && (nodes[k].nextSibling == Nil || nodes[k].nextSibling > k)
      && IsRef(nodes[k].parent, |nodes|) && nodes[k].parent < k
  }

  /** The first child of `k` and the next sibling of `k` hang from the right node. */
  predicate ParentOk(nodes: seq<Node>, k: nat)
    requires LinksInRange(nodes) && k < |nodes|
  {
    && (nodes[k].firstChild != Nil ==> nodes[nodes[k].firstChild].parent == k)
    && (nodes[k].nextSibling != Nil ==> nodes[nodes[k].nextSibling].parent == nodes[k].parent)
  }

  predicate ParentsAgree(nodes: seq<Node>)
    requires LinksInRange(nodes)
  {
    forall k :: 0 <= k < |nodes| ==> ParentOk(nodes, k)
  }

  /**
   * Where the preorder walk goes from a node that has no first child: its
   * next sibling, or the next sibling of the nearest ancestor that has one
   * (the inner loops at parser.c:32-33 and parser.c:448-449).
   */
  function Climb(nodes: seq<Node>, k: nat): (r: int)
    requires LinksInRange(nodes) && k < |nodes|
    ensures IsRef(r, |nodes|)
    decreases k
  {
    if nodes[k].nextSibling != Nil then nodes[k].nextSibling
    else if nodes[k].parent == Nil then Nil
    else Climb(nodes, nodes[k].parent)
  }

  /** The preorder successor: the first child, or else where `Climb` leads. */
  function Next(nodes: seq<Node>, k: nat): (r: int)
    requires LinksInRange(nodes) && k < |nodes|
    ensures IsRef(r, |nodes|)
  {
    if nodes[k].firstChild != Nil then nodes[k].firstChild else Climb(nodes, k)
  }

  predicate WF(nodes: seq<Node>)
  {
    && LinksInRange(nodes)
    && ParentsAgree(nodes)
    && forall k :: 0 <= k < |nodes| ==> Next(nodes, k) == Nil || Next(nodes, k) > k
  }

  /** Every element of `w` lies in [lo, hi). */
  predicate Within(w: seq<nat>, lo: int, hi: int)
  {
    forall i :: 0 <= i < |w| ==> lo <= w[i] < hi
  }

  predicate Increasing(s: seq<nat>)
  {
    forall i, j :: 0 <= i < j < |s| ==> s[i] < s[j]
  }

  /** The nodes the preorder walk of lineOfStructure visits from `p`, in order. */
  function Walk(nodes: seq<Node>, p: int): (w: seq<nat>)
    requires WF(nodes) && IsRef(p, |nodes|)
    ensures p != Nil ==> |w| > 0 && w[0] == p
    decreases if p == Nil then 0 else |nodes| - p
  {
    if p == Nil then [] else [p] + Walk(nodes, Next(nodes, p))
  }

  lemma {:induction false} WalkWithin(nodes: seq<Node>, p: int)
    requires WF(nodes) && IsRef(p, |nodes|)
    ensures Within(Walk(nodes, p), p, |nodes|)
    decreases if p == Nil then 0 else |nodes| - p
  {
    if p != Nil {
      WalkWithin(nodes, Next(nodes, p));
    }
  }

  /** The walk only moves forward, so it never visits a node twice. */
  lemma {:induction false} WalkIncreasing(nodes: seq<Node>, p: int)
    requires WF(nodes) && IsRef(p, |nodes|)
    ensures Increasing(Walk(nodes, p))
    decreases if p == Nil then 0 else |nodes| - p
  {
    if p != Nil {
      WalkIncreasing(nodes, Next(nodes, p));
    }
  }

  /**
   * The order in which the recursive passes (fixPointers, unCONT) visit the
   * binary tree below `p`: `p`, then everything below its first child, then
   * everything from its next sibling on.
   */
  function Preorder(nodes: seq<Node>, p: int): (w: seq<nat>)
    requires LinksInRange(nodes) && IsRef(p, |nodes|)
    ensures p != Nil ==> |w| > 0 && w[0] == p
    decreases if p == Nil then 0 else |nodes| - p
  {
    if p == Nil then []
    else [p] + Preorder(nodes, nodes[p].firstChild) + Preorder(nodes, nodes[p].nextSibling)
  }

  lemma {:induction false} PreorderWithin(nodes: seq<Node>, p: int)
    requires LinksInRange(nodes) && IsRef(p, |nodes|)
    ensures Within(Preorder(nodes, p), p, |nodes|)
    decreases if p == Nil then 0 else |nodes| - p
  {
    if p != Nil {
      PreorderWithin(nodes, nodes[p].firstChild);
      PreorderWithin(nodes, nodes[p].nextSibling);
    }
  }

  /** Where the walk goes once everything below `p`'s parent from `p` on is done. */
  function UpNext(nodes: seq<Node>, p: nat): (r: int)
    requires LinksInRange(nodes) && p < |nodes|
    ensures IsRef(r, |nodes|)
  {
    if nodes[p].parent == Nil then Nil else Climb(nodes, nodes[p].parent)
  }

  /**
   * The climbing walk and the binary recursion visit the same nodes in the
   * same order: from `p`, the walk first does everything the recursion does
   * and then carries on above it.
   */
  lemma {:induction false} WalkSplits(nodes: seq<Node>, p: nat)
    requires WF(nodes) && p < |nodes|
    ensures Walk(nodes, p) == Preorder(nodes, p) + Walk(nodes, UpNext(nodes, p))
    decreases |nodes| - p, 1
  {
    var c, s := nodes[p].firstChild, nodes[p].nextSibling;
    var after := Walk(nodes, UpNext(nodes, p));
    var tail := Walk(nodes, Climb(nodes, p));
    ClimbSplits(nodes, p);
    assert tail == Preorder(nodes, s) + after;
    var below: seq<nat>;
    if c != Nil {
      assert ParentOk(nodes, p);
      WalkSplits(nodes, c);
      assert UpNext(nodes, c) == Climb(nodes, p);
      below := Preorder(nodes, c);
      assert Walk(nodes, p) == [p] + (below + tail);
    } else {
      below := [];
      assert Walk(nodes, p) == [p] + (below + tail);
    }
    assert Preorder(nodes, p) == [p] + below + Preorder(nodes, s);
    Assoc(p, below, Preorder(nodes, s), after);
  }

  lemma Assoc(p: nat, a: seq<nat>, b: seq<nat>, c: seq<nat>)
    ensures [p] + (a + (b + c)) == [p] + a + b + c
  {
  }

  /** After `p` and everything below it, the walk does `p`'s later siblings and then climbs on. */
  lemma {:induction false} ClimbSplits(nodes: seq<Node>, p: nat)
    requires WF(nodes) && p < |nodes|
    ensures Walk(nodes, Climb(nodes, p))
         == Preorder(nodes, nodes[p].nextSibling) + Walk(nodes, UpNext(nodes, p))
    decreases |nodes| - p, 0
  {
    var s := nodes[p].nextSibling;
    if s != Nil {
      assert ParentOk(nodes, p);
      WalkSplits(nodes, s);
      assert UpNext(nodes, s) == UpNext(nodes, p);
    }
  }

  /** From a root, the two traversals coincide. */
  lemma WalkIsPreorder(nodes: seq<Node>, p: nat)
    requires WF(nodes) && p < |nodes| && nodes[p].parent == Nil
    ensures Walk(nodes, p) == Preorder(nodes, p)
  {
    WalkSplits(nodes, p);
  }

  /** The recursive passes never visit a node twice. */
  lemma PreorderIncreasing(nodes: seq<Node>, p: int)
    requires WF(nodes) && IsRef(p, |nodes|)
    ensures Increasing(Preorder(nodes, p))
  {
    if p != Nil {
      WalkSplits(nodes, p);
      WalkIncreasing(nodes, p);
      var w, pre := Walk(nodes, p), Preorder(nodes, p);
      assert pre == w[..|pre|];
    }
  }

  /**
   * lineOfStructure (parser.c:24-38): the 1-based position of `s` in the
   * preorder walk from `head`, or 0 when either is null or `s` is not reached.
   */
  method LineOfStructure(nodes: seq<Node>, s: int, head: int) returns (line: nat)
    requires WF(nodes) && IsRef(s, |nodes|) && IsRef(head, |nodes|)
    ensures s == Nil || head == Nil ==> line == 0
    ensures s != Nil && head != Nil ==> (line == 0 <==> s !in Walk(nodes, head))
    ensures line > 0 ==> line <= |Walk(nodes, head)| && Walk(nodes, head)[line - 1] == s
  {
    if s == Nil || head == Nil {
      return 0;
    }
    ghost var w := Walk(nodes, head);
    var ans := 1;
    var p := head;
    while p != Nil && p != s
      invariant IsRef(p, |nodes|)
      invariant 1 <= ans <= |w| + 1
      invariant p != Nil ==> Walk(nodes, p) == w[ans - 1..]
      invariant p == Nil ==> ans == |w| + 1
      invariant s !in w[..ans - 1]
      decreases if p == Nil then 0 else |nodes| - p
    {
      ghost var was := p;
      ans := ans + 1;
      if nodes[p].firstChild != Nil {
        p := nodes[p].firstChild;
      } else {
        while p != Nil && nodes[p].nextSibling == Nil
          invariant IsRef(p, |nodes|)
          invariant p != Nil ==> Climb(nodes, p) == Climb(nodes, was)
          invariant p == Nil ==> Climb(nodes, was) == Nil
          decreases p + 1
        {
          p := nodes[p].parent;
        }
        if p != Nil {
          p := nodes[p].nextSibling;
        }
      }
      StepAlong(nodes, w, ans - 2, was);
      assert p == Next(nodes, was);
    }
    if p == Nil {
      return 0;
    }
    return ans;
  }

  /** One step of the walk moves one place along the walk's sequence. */
  lemma StepAlong(nodes: seq<Node>, w: seq<nat>, i: nat, p: nat)
    requires WF(nodes) && p < |nodes| && i < |w| && Walk(nodes, p) == w[i..]
    ensures w[i] == p
    ensures Next(nodes, p) != Nil ==> Walk(nodes, Next(nodes, p)) == w[i + 1..]
    ensures Next(nodes, p) == Nil ==> i + 1 == |w|
    ensures w[..i + 1] == w[..i] + [p]
  {
    assert w[i..] == [w[i]] + w[i + 1..];
  }

  /**
   * freeGedStructure (parser.c:15-20): releases `g`, everything below it and
   * every later sibling; `released` is the set of nodes it frees. The arena
   * itself is left as it is: a released node is simply never reached again.
   */
  method FreeGedStructure(nodes: seq<Node>, g: int) returns (released: set<nat>)
    requires WF(nodes) && IsRef(g, |nodes|)
    ensures forall k :: k in released <==> k in Preorder(nodes, g)
    ensures g != Nil ==> nodes[g].parent !in released
    ensures forall k :: k in released ==> g <= k < |nodes|
    decreases if g == Nil then 0 else |nodes| - g
  {
    if g == Nil {
      return {};
    }
    PreorderWithin(nodes, g);
    var kids := FreeGedStructure(nodes, nodes[g].firstChild);
    var later := FreeGedStructure(nodes, nodes[g].nextSibling);
    released := kids + later + {g};
    assert Preorder(nodes, g) == [g] + Preorder(nodes, nodes[g].firstChild) + Preorder(nodes, nodes[g].nextSibling);
  }
}
