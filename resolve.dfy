/**
 * The cross-reference pass of parseGEDCOM (parser.c:439-468): the nodes
 * that carry an xref_id are collected, sorted by id, checked for
 * duplicates, and every pointer payload is looked up among them and
 * replaced by a reference to the node it names.
 */
module Resolve {
  import opened GedcomTypes
  import opened Forest
  import opened Outline

  /**
   * The sign of strcmp on two C strings: byte by byte, and a proper prefix
   * before the longer string. xrefCmp (parser.c:42-45) is strcmp on ids, and
   * qsort and bsearch only look at its sign.
   */
  function StrCmp(a: string, b: string): (r: int)
    ensures -1 <= r <= 1
    ensures r == 0 <==> a == b
  {
    if |a| == 0 && |b| == 0 then 0
    else if |a| == 0 then -1
    else if |b| == 0 then 1
    else if a[0] < b[0] then -1
    else if a[0] > b[0] then 1
    else
      assert a == [a[0]] + a[1..] && b == [b[0]] + b[1..];
      StrCmp(a[1..], b[1..])
  }

  lemma {:induction false} StrCmpFlip(a: string, b: string)
    ensures StrCmp(a, b) == -StrCmp(b, a)
  {
    if |a| > 0 && |b| > 0 && a[0] == b[0] {
      StrCmpFlip(a[1..], b[1..]);
    }
  }

  lemma {:induction false} StrCmpTrans(a: string, b: string, c: string)
    requires StrCmp(a, b) <= 0 && StrCmp(b, c) <= 0
    ensures StrCmp(a, c) <= 0
  {
    if |a| > 0 && |b| > 0 && |c| > 0 && a[0] == b[0] == c[0] {
      StrCmpTrans(a[1..], b[1..], c[1..]);
    }
  }

  /** Strictly below followed by below-or-equal is strictly below. */
  lemma StrCmpLessTrans(a: string, b: string, c: string)
    requires StrCmp(a, b) < 0 && StrCmp(b, c) <= 0
    ensures StrCmp(a, c) < 0
  {
    StrCmpTrans(a, b, c);
    if a == c {
      StrCmpFlip(a, b);
    }
  }

  /** Below-or-equal followed by strictly below is strictly below. */
  lemma StrCmpTransLess(a: string, b: string, c: string)
    requires StrCmp(a, b) <= 0 && StrCmp(b, c) < 0
    ensures StrCmp(a, c) < 0
  {
    StrCmpTrans(a, b, c);
    if a == c {
      StrCmpFlip(b, c);
    }
  }

  /** Every string a node refers to starts inside the buffer. */
  predicate InBuffer(s: seq<char>, nodes: seq<Node>, k: nat)
    requires k < |nodes|
  {
    && nodes[k].tag <= |s|
    && (nodes[k].id == Nil || 0 <= nodes[k].id <= |s|)
    && (nodes[k].payload.Text? || nodes[k].payload.PointerText? ==> nodes[k].payload.at <= |s|)
  }

  predicate Strings(s: seq<char>, nodes: seq<Node>)
  {
    forall k :: 0 <= k < |nodes| ==> InBuffer(s, nodes, k)
  }

  /** Node `k` carries an xref_id. */
  predicate Keyed(s: seq<char>, nodes: seq<Node>, k: int)
  {
    0 <= k < |nodes| && 0 <= nodes[k].id <= |s|
  }

  /** The xref_id of node `k`, without its '@'s (empty for a node without one). */
  function Key(s: seq<char>, nodes: seq<Node>, k: int): (r: string)
    ensures NUL !in r
  {
    if Keyed(s, nodes, k) then CString(s, nodes[k].id) else []
  }

  predicate AllKeyed(s: seq<char>, nodes: seq<Node>, w: seq<nat>)
  {
    forall i :: 0 <= i < |w| ==> Keyed(s, nodes, w[i])
  }

  /** xrefCmp(x, y) <= 0: the id of node `x` is not after the id of node `y`. */
  predicate Le(s: seq<char>, nodes: seq<Node>, x: int, y: int)
  {
    StrCmp(Key(s, nodes, x), Key(s, nodes, y)) <= 0
  }

  /** The result of qsort with xrefCmp: ids in strcmp order. */
  predicate SortedKeys(s: seq<char>, nodes: seq<Node>, w: seq<nat>)
  {
    forall i, j {:trigger Le(s, nodes, w[i], w[j])} :: 0 <= i < j < |w| ==> Le(s, nodes, w[i], w[j])
  }

  /** The nodes of `w`, in order, that carry an xref_id. */
  function WithIds(nodes: seq<Node>, w: seq<nat>): (r: seq<nat>)
    ensures |r| <= |w|
  {
    if |w| == 0 then []
    else if w[0] < |nodes| && nodes[w[0]].id != Nil then [w[0]] + WithIds(nodes, w[1..])
    else WithIds(nodes, w[1..])
  }

  /** The root chain from `p`: `p` and its later siblings (parser.c:453). */
  function Roots(nodes: seq<Node>, p: int): (w: seq<nat>)
    requires LinksInRange(nodes) && IsRef(p, |nodes|)
    ensures Within(w, if p == Nil then 0 else p, |nodes|)
    decreases if p == Nil then 0 else |nodes| - p
  {
    if p == Nil then [] else [p] + Roots(nodes, nodes[p].nextSibling)
  }

  /** Everything on the root chain of a first node without a parent is a root. */
  lemma {:induction false} RootsAreRoots(nodes: seq<Node>, p: int)
    requires WF(nodes) && IsRef(p, |nodes|) && (p != Nil ==> nodes[p].parent == Nil)
    ensures forall i :: 0 <= i < |Roots(nodes, p)| ==> nodes[Roots(nodes, p)[i]].parent == Nil
    decreases if p == Nil then 0 else |nodes| - p
  {
    if p != Nil {
      assert ParentOk(nodes, p);
      RootsAreRoots(nodes, nodes[p].nextSibling);
    }
  }

  /** The first node, which parseGEDCOM returns: node 0, or Nil for an empty forest. */
  function Root(nodes: seq<Node>): int
  {
    if |nodes| == 0 then Nil else 0
  }

  /**
   * The nodes step 1 of parser.c collects as pointer targets: in the
   * Legacy dialect every node with an id, in preorder (parser.c:443-451);
   * in the others only the roots with an id (parser.c:452-456), although
   * the line loop accepts an id at any depth in Mid.
   */
  function Targets(d: Dialect, nodes: seq<Node>): (r: seq<nat>)
    requires WF(nodes)
  {
    if d == Legacy then WithIds(nodes, Walk(nodes, Root(nodes)))
    else WithIds(nodes, Roots(nodes, Root(nodes)))
  }

  /** A strictly increasing sequence within [lo, hi) has at most hi - lo elements. */
  lemma {:induction false} IncreasingShort(w: seq<nat>, lo: int, hi: int)
    requires Increasing(w) && Within(w, lo, hi)
    ensures |w| <= hi - lo || |w| == 0
    decreases |w|
  {
    if |w| > 1 {
      IncreasingShort(w[1..], w[0] + 1, hi);
    }
  }

  /** The walk from a node visits nodes of the arena only, each at most once. */
  lemma WalkShort(nodes: seq<Node>, p: int)
    requires WF(nodes) && IsRef(p, |nodes|)
    ensures |Walk(nodes, p)| <= |nodes|
  {
    WalkWithin(nodes, p);
    WalkIncreasing(nodes, p);
    IncreasingShort(Walk(nodes, p), if p == Nil then 0 else p, |nodes|);
  }

  /** Filtering the walk from `p`: `p` itself if it has an id, then the rest. */
  lemma WalkIds(nodes: seq<Node>, p: nat)
    requires WF(nodes) && p < |nodes|
    ensures WithIds(nodes, Walk(nodes, p))
         == (if nodes[p].id != Nil then [p] else []) + WithIds(nodes, Walk(nodes, Next(nodes, p)))
  {
    assert Walk(nodes, p)[1..] == Walk(nodes, Next(nodes, p));
  }

  /**
   * One step of the collecting walk (parser.c:446-450): to the first child,
   * or else up while there is no next sibling and there is a parent, then to
   * the next sibling.
   */
  method WalkStep(nodes: seq<Node>, p: nat) returns (q: int)
    requires WF(nodes) && p < |nodes|
    ensures q == Next(nodes, p)
  {
    if nodes[p].firstChild != Nil {
      return nodes[p].firstChild;
    }
    var x := p;
    while nodes[x].nextSibling == Nil && nodes[x].parent != Nil
      invariant 0 <= x < |nodes| && Climb(nodes, x) == Climb(nodes, p)
      decreases x
    {
      x := nodes[x].parent;
    }
    q := nodes[x].nextSibling;
  }

  /**
   * Step 1 for the Legacy dialect (parser.c:443-451): the preorder walk from
   * the first node, keeping every node with an id.
   */
  method CollectWalk(nodes: seq<Node>, a: array<nat>) returns (len: nat)
    requires WF(nodes) && a.Length == |nodes|
    modifies a
    ensures len <= a.Length && a[..len] == WithIds(nodes, Walk(nodes, Root(nodes)))
  {
    ghost var all := WithIds(nodes, Walk(nodes, Root(nodes)));
    WalkShort(nodes, Root(nodes));
    len := 0;
    var p := Root(nodes);
    while p != Nil
      invariant IsRef(p, |nodes|)
      invariant len + |WithIds(nodes, Walk(nodes, p))| <= a.Length
      invariant a[..len] + WithIds(nodes, Walk(nodes, p)) == all
      decreases if p == Nil then 0 else |nodes| - p
    {
      WalkIds(nodes, p);
      ghost var rest := WithIds(nodes, Walk(nodes, Next(nodes, p)));
      if nodes[p].id != Nil {
        a[len] := p;
        assert a[..len + 1] + rest == a[..len] + ([p] + rest);
        len := len + 1;
      }
      p := WalkStep(nodes, p);
    }
  }

  /**
   * Step 1 for the other dialects (parser.c:452-456): the root chain from
   * the first node, keeping every root with an id.
   */
  method CollectRoots(nodes: seq<Node>, a: array<nat>) returns (len: nat)
    requires WF(nodes) && a.Length == |nodes|
    modifies a
    ensures len <= a.Length && a[..len] == WithIds(nodes, Roots(nodes, Root(nodes)))
  {
    ghost var w := Roots(nodes, Root(nodes));
    RootsShort(nodes, Root(nodes));
    len := 0;
    var p := Root(nodes);
    while p != Nil
      invariant IsRef(p, |nodes|)
      invariant len + |WithIds(nodes, Roots(nodes, p))| <= a.Length
      invariant a[..len] + WithIds(nodes, Roots(nodes, p)) == WithIds(nodes, w)
      decreases if p == Nil then 0 else |nodes| - p
    {
      assert Roots(nodes, p)[1..] == Roots(nodes, nodes[p].nextSibling);
      ghost var rest := WithIds(nodes, Roots(nodes, nodes[p].nextSibling));
      if nodes[p].id != Nil {
        a[len] := p;
        assert a[..len + 1] + rest == a[..len] + ([p] + rest);
        len := len + 1;
      }
      p := nodes[p].nextSibling;
    }
  }

  /** The root chain visits nodes of the arena only, each at most once. */
  lemma RootsShort(nodes: seq<Node>, p: int)
    requires WF(nodes) && IsRef(p, |nodes|)
    ensures |Roots(nodes, p)| <= |nodes|
  {
    RootsIncreasing(nodes, p);
    IncreasingShort(Roots(nodes, p), if p == Nil then 0 else p, |nodes|);
  }

  lemma {:induction false} RootsIncreasing(nodes: seq<Node>, p: int)
    requires LinksInRange(nodes) && IsRef(p, |nodes|)
    ensures Increasing(Roots(nodes, p))
    decreases if p == Nil then 0 else |nodes| - p
  {
    if p != Nil {
      RootsIncreasing(nodes, nodes[p].nextSibling);
    }
  }

  /**
   * The state of an insertion step: the first `i + 1` entries are in order
   * except for the moving entry at `j`, which is in order with everything
   * after it.
   */
  predicate Hole(s: seq<char>, nodes: seq<Node>, w: seq<nat>, j: nat, i: nat)
  {
    && j <= i < |w|
    && (forall p, q {:trigger Le(s, nodes, w[p], w[q])} :: 0 <= p < q <= i && p != j && q != j ==> Le(s, nodes, w[p], w[q]))
    && (forall q {:trigger Le(s, nodes, w[j], w[q])} :: j < q <= i ==> Le(s, nodes, w[j], w[q]))
  }

  lemma HoleStart(s: seq<char>, nodes: seq<Node>, w: seq<nat>, i: nat)
    requires i < |w| && SortedKeys(s, nodes, w[..i])
    ensures Hole(s, nodes, w, i, i)
  {
    forall p, q | 0 <= p < q < i
      ensures Le(s, nodes, w[p], w[q])
    {
      assert Le(s, nodes, w[..i][p], w[..i][q]);
    }
  }

  /** Swapping the moving entry with an earlier entry with a later id moves the hole down. */
  lemma HoleSwap(s: seq<char>, nodes: seq<Node>, w: seq<nat>, j: nat, i: nat)
    requires Hole(s, nodes, w, j, i) && 0 < j && !Le(s, nodes, w[j - 1], w[j])
    ensures Hole(s, nodes, w[j - 1 := w[j]][j := w[j - 1]], j - 1, i)
  {
    var v := w[j - 1 := w[j]][j := w[j - 1]];
    StrCmpFlip(Key(s, nodes, w[j - 1]), Key(s, nodes, w[j]));
    assert Le(s, nodes, w[j], w[j - 1]);
    forall p, q | 0 <= p < q <= i && p != j - 1 && q != j - 1
      ensures Le(s, nodes, v[p], v[q])
    {
      if q == j {
        assert Le(s, nodes, w[p], w[j - 1]);
      } else if p == j {
        assert Le(s, nodes, w[j - 1], w[q]);
      } else {
        assert Le(s, nodes, w[p], w[q]);
      }
    }
    forall q | j - 1 < q <= i
      ensures Le(s, nodes, v[j - 1], v[q])
    {
      if q > j {
        assert Le(s, nodes, w[j], w[q]);
      }
    }
  }

  /** Once the entry before the hole is not later, the first `i + 1` entries are in order. */
  lemma HoleDone(s: seq<char>, nodes: seq<Node>, w: seq<nat>, j: nat, i: nat)
    requires Hole(s, nodes, w, j, i) && (j == 0 || Le(s, nodes, w[j - 1], w[j]))
    ensures SortedKeys(s, nodes, w[..i + 1])
  {
    var u := w[..i + 1];
    forall p, q | 0 <= p < q < |u|
      ensures Le(s, nodes, u[p], u[q])
    {
      assert u[p] == w[p] && u[q] == w[q];
      if q == j {
        if p < j - 1 {
          assert Le(s, nodes, w[p], w[j - 1]);
          StrCmpTrans(Key(s, nodes, w[p]), Key(s, nodes, w[j - 1]), Key(s, nodes, w[j]));
        }
      } else if p == j {
        assert j < q <= i;
      } else {
        assert p != j && q != j;
      }
    }
  }

  /** Swapping two entries of the sorted range keeps its elements, and every element has an id. */
  lemma SwapKeeps(s: seq<char>, nodes: seq<Node>, w: seq<nat>, j: nat, len: nat)
    requires 0 < j < len <= |w| && AllKeyed(s, nodes, w[..len])
    ensures multiset(w[j - 1 := w[j]][j := w[j - 1]][..len]) == multiset(w[..len])
    ensures AllKeyed(s, nodes, w[j - 1 := w[j]][j := w[j - 1]][..len])
    ensures w[j - 1 := w[j]][j := w[j - 1]][len..] == w[len..]
  {
    var t := w[j - 1 := w[j]][j := w[j - 1]];
    assert t[..len] == w[..len][j - 1 := w[j]][j := w[j - 1]];
    assert AllKeyed(s, nodes, t[..len]) by {
      forall k | 0 <= k < len ensures Keyed(s, nodes, t[..len][k]) {
        assert Keyed(s, nodes, w[..len][k]);
        assert Keyed(s, nodes, w[..len][j - 1]) && Keyed(s, nodes, w[..len][j]);
      }
    }
  }

  /**
   * One insertion step of the sort: the node at `i` moves down past the
   * nodes with a later id, so that the first `i + 1` entries are in order.
   */
  method Insert(s: seq<char>, nodes: seq<Node>, a: array<nat>, len: nat, i: nat)
    requires i < len <= a.Length && AllKeyed(s, nodes, a[..len]) && SortedKeys(s, nodes, a[..i])
    modifies a
    ensures multiset(a[..len]) == multiset(old(a[..len])) && a[len..] == old(a[len..])
    ensures AllKeyed(s, nodes, a[..len]) && SortedKeys(s, nodes, a[..i + 1])
  {
    HoleStart(s, nodes, a[..], i);
    var j: nat := i;
    while j > 0 && !Le(s, nodes, a[j - 1], a[j])
      invariant Hole(s, nodes, a[..], j, i)
      invariant multiset(a[..len]) == multiset(old(a[..len])) && a[len..] == old(a[len..])
      invariant AllKeyed(s, nodes, a[..len])
      decreases j
    {
      ghost var w := a[..];
      HoleSwap(s, nodes, w, j, i);
      SwapKeeps(s, nodes, w, j, len);
      a[j - 1], a[j] := a[j], a[j - 1];
      assert a[..] == w[j - 1 := w[j]][j := w[j - 1]];
      j := j - 1;
    }
    HoleDone(s, nodes, a[..], j, i);
    assert a[..][..i + 1] == a[..i + 1];
  }

  /** Step 2 (parser.c:457-458): the first `len` entries sorted by id, in place. */
  method SortTargets(s: seq<char>, nodes: seq<Node>, a: array<nat>, len: nat)
    requires len <= a.Length && AllKeyed(s, nodes, a[..len])
    modifies a
    ensures multiset(a[..len]) == multiset(old(a[..len])) && a[len..] == old(a[len..])
    ensures AllKeyed(s, nodes, a[..len]) && SortedKeys(s, nodes, a[..len])
  {
    var i := 0;
    while i < len
      invariant i <= len
      invariant multiset(a[..len]) == multiset(old(a[..len])) && a[len..] == old(a[len..])
      invariant AllKeyed(s, nodes, a[..len]) && SortedKeys(s, nodes, a[..i])
    {
      Insert(s, nodes, a, len, i);
      i := i + 1;
    }
  }

  /** No two entries of `w` share an id. */
  predicate Unique(s: seq<char>, nodes: seq<Node>, w: seq<nat>)
  {
    forall i, j :: 0 <= i < j < |w| ==> Key(s, nodes, w[i]) != Key(s, nodes, w[j])
  }

  /** Ids strictly increasing: sorted, and no two the same. */
  predicate StrictKeys(s: seq<char>, nodes: seq<Node>, w: seq<nat>)
  {
    forall i, j {:trigger Lt(s, nodes, w[i], w[j])} :: 0 <= i < j < |w| ==> Lt(s, nodes, w[i], w[j])
  }

  /** The id of `x` sorts strictly before the id of `y`. */
  predicate Lt(s: seq<char>, nodes: seq<Node>, x: int, y: int)
  {
    StrCmp(Key(s, nodes, x), Key(s, nodes, y)) < 0
  }

  /** Entry `i` of `w` has another id than the entry before it. */
  predicate Apart(s: seq<char>, nodes: seq<Node>, w: seq<nat>, i: nat)
    requires 0 < i < |w|
  {
    Key(s, nodes, w[i - 1]) != Key(s, nodes, w[i])
  }

  /** Sorted ids with no two neighbours equal are strictly increasing. */
  lemma StrictNeighbours(s: seq<char>, nodes: seq<Node>, w: seq<nat>)
    requires SortedKeys(s, nodes, w)
    requires forall i :: 0 < i < |w| ==> Apart(s, nodes, w, i)
    ensures StrictKeys(s, nodes, w)
  {
    forall i, j | 0 <= i < j < |w|
      ensures Lt(s, nodes, w[i], w[j])
    {
      LtPair(s, nodes, w, i, j);
    }
  }

  /** Below a neighbour with another id, and that neighbour no higher than a later entry. */
  lemma LtPair(s: seq<char>, nodes: seq<Node>, w: seq<nat>, i: nat, j: nat)
    requires i < j < |w| && SortedKeys(s, nodes, w) && Apart(s, nodes, w, i + 1)
    ensures Lt(s, nodes, w[i], w[j])
  {
    var a, b, c := Key(s, nodes, w[i]), Key(s, nodes, w[i + 1]), Key(s, nodes, w[j]);
    assert StrCmp(a, b) < 0 by {
      assert Le(s, nodes, w[i], w[i + 1]);
    }
    if i + 1 < j {
      assert Le(s, nodes, w[i + 1], w[j]);
      StrCmpLessTrans(a, b, c);
    }
  }

  /**
   * The duplicate check of parser.c:459-463 on the sorted ids: the first
   * `j` whose id equals the one before it, or 0 when the ids are strictly
   * increasing.
   */
  method FindDuplicate(s: seq<char>, nodes: seq<Node>, a: array<nat>, len: nat) returns (j: nat)
    requires len <= a.Length && SortedKeys(s, nodes, a[..len])
    ensures j == 0 ==> StrictKeys(s, nodes, a[..len])
    ensures j != 0 ==> j < len && Key(s, nodes, a[j]) == Key(s, nodes, a[j - 1])
  {
    var w := a[..len];
    var k := 1;
    while k < len
      invariant 1 <= k && (len > 0 ==> k <= len)
      invariant forall i :: 0 < i < k && i < len ==> Apart(s, nodes, w, i)
    {
      if !Apart(s, nodes, w, k) {
        assert w[k] == a[k] && w[k - 1] == a[k - 1];
        return k;
      }
      k := k + 1;
    }
    StrictNeighbours(s, nodes, w);
    return 0;
  }

  /**
   * bsearch with xrefCmp over the sorted ids (parser.c:51-53): an entry
   * whose id is `w`, or -1 when there is none.
   */
  method Search(s: seq<char>, nodes: seq<Node>, a: array<nat>, len: nat, w: string) returns (i: int)
    requires len <= a.Length && SortedKeys(s, nodes, a[..len])
    ensures 0 <= i ==> i < len && Key(s, nodes, a[i]) == w
    ensures i < 0 ==> forall k :: 0 <= k < len ==> Key(s, nodes, a[k]) != w
  {
    var lo, hi := 0, len;
    while lo < hi
      invariant 0 <= lo <= hi <= len
      invariant forall k :: 0 <= k < lo ==> StrCmp(Key(s, nodes, a[k]), w) < 0
      invariant forall k :: hi <= k < len ==> StrCmp(w, Key(s, nodes, a[k])) < 0
    {
      var mid := (lo + hi) / 2;
      var c := StrCmp(w, Key(s, nodes, a[mid]));
      if c == 0 {
        return mid;
      }
      StrCmpFlip(w, Key(s, nodes, a[mid]));
      if c < 0 {
        forall k | mid <= k < len
          ensures StrCmp(w, Key(s, nodes, a[k])) < 0
        {
          assert Le(s, nodes, a[..len][mid], a[..len][k]) || k == mid;
          StrCmpLessTrans(w, Key(s, nodes, a[mid]), Key(s, nodes, a[k]));
        }
        hi := mid;
      } else {
        forall k | 0 <= k <= mid
          ensures StrCmp(Key(s, nodes, a[k]), w) < 0
        {
          assert Le(s, nodes, a[..len][k], a[..len][mid]) || k == mid;
          StrCmpTransLess(Key(s, nodes, a[k]), Key(s, nodes, a[mid]), w);
        }
        lo := mid + 1;
      }
    }
    return -1;
  }

  /** A node without its payload: what fixPointers leaves as it is. */
  function Shape(n: Node): Node
  {
    n.(payload := NoPayload)
  }

  /** The two arenas differ at most in payloads. */
  predicate Reshaped(a: seq<Node>, b: seq<Node>)
  {
    |a| == |b| && forall k :: 0 <= k < |a| ==> Shape(a[k]) == Shape(b[k])
  }

  lemma ReshapedKeys(s: seq<char>, a: seq<Node>, b: seq<Node>)
    requires Reshaped(a, b)
    ensures forall x :: Key(s, a, x) == Key(s, b, x)
  {
    forall x
      ensures Key(s, a, x) == Key(s, b, x)
    {
      if 0 <= x < |a| {
        assert Shape(a[x]).id == a[x].id && Shape(b[x]).id == b[x].id;
      }
    }
  }

  lemma SortedReshaped(s: seq<char>, a: seq<Node>, b: seq<Node>, w: seq<nat>)
    requires Reshaped(a, b) && SortedKeys(s, a, w)
    ensures SortedKeys(s, b, w)
  {
    ReshapedKeys(s, a, b);
    assert forall i, j :: 0 <= i < j < |w| ==> Le(s, a, w[i], w[j]);
  }

  lemma ReshapedLinks(a: seq<Node>, b: seq<Node>)
    requires Reshaped(a, b)
    ensures forall k :: 0 <= k < |a| ==>
      a[k].firstChild == b[k].firstChild && a[k].nextSibling == b[k].nextSibling && a[k].parent == b[k].parent
  {
    forall k | 0 <= k < |a|
      ensures a[k].firstChild == b[k].firstChild && a[k].nextSibling == b[k].nextSibling && a[k].parent == b[k].parent
    {
      assert Shape(a[k]) == Shape(b[k]);
    }
  }

  lemma {:induction false} ReshapedClimb(a: seq<Node>, b: seq<Node>, k: nat)
    requires Reshaped(a, b) && LinksInRange(a) && LinksInRange(b) && k < |a|
    ensures Climb(a, k) == Climb(b, k)
    decreases k
  {
    ReshapedLinks(a, b);
    if a[k].nextSibling == Nil && a[k].parent != Nil {
      ReshapedClimb(a, b, a[k].parent);
    }
  }

  /** Changing payloads keeps an arena well formed, and keeps every walk. */
  lemma ReshapedWF(a: seq<Node>, b: seq<Node>)
    requires Reshaped(a, b) && WF(a)
    ensures WF(b)
  {
    ReshapedLinks(a, b);
    assert LinksInRange(b);
    forall k | 0 <= k < |b|
      ensures ParentOk(b, k) && Next(a, k) == Next(b, k)
    {
      assert ParentOk(a, k);
      ReshapedClimb(a, b, k);
    }
  }

  lemma {:induction false} ReshapedPreorder(a: seq<Node>, b: seq<Node>, p: int)
    requires Reshaped(a, b) && LinksInRange(a) && LinksInRange(b) && IsRef(p, |a|)
    ensures Preorder(a, p) == Preorder(b, p)
    decreases if p == Nil then 0 else |a| - p
  {
    if p != Nil {
      ReshapedLinks(a, b);
      ReshapedPreorder(a, b, a[p].firstChild);
      ReshapedPreorder(a, b, a[p].nextSibling);
    }
  }

  /** The text of node `k`'s pointer payload, without its '@'s. */
  function PointerName(s: seq<char>, nodes: seq<Node>, k: int): string
  {
    if 0 <= k < |nodes| && nodes[k].payload.PointerText? && nodes[k].payload.at <= |s|
    then CString(s, nodes[k].payload.at) else []
  }

  /** Node `k` points at an id that is not VOID and that no collected target has (parser.c:54). */
  predicate Dangling(s: seq<char>, nodes: seq<Node>, targets: seq<nat>, k: int)
  {
    && 0 <= k < |nodes| && nodes[k].payload.PointerText?
    && PointerName(s, nodes, k) != "VOID"
    && forall t :: t in targets ==> Key(s, nodes, t) != PointerName(s, nodes, k)
  }

  /** `t` is what a pointer to `w` resolves to: Nil for VOID, else a target with id `w`. */
  predicate Resolves(s: seq<char>, nodes: seq<Node>, targets: seq<nat>, w: string, t: int)
  {
    if w == "VOID" then t == Nil else t in targets && Key(s, nodes, t) == w
  }

  /** `after` is node `k` once fixPointers has visited it (parser.c:49-59). */
  predicate Fixed(s: seq<char>, nodes: seq<Node>, targets: seq<nat>, k: nat, after: Node)
    requires k < |nodes|
  {
    if nodes[k].payload.PointerText? then
      && after.payload.PointerTo? && after == nodes[k].(payload := after.payload)
      && Resolves(s, nodes, targets, PointerName(s, nodes, k), after.payload.target)
    else after == nodes[k]
  }

  /** The position in `w` of the first dangling pointer, or |w| when there is none. */
  function FirstBad(s: seq<char>, nodes: seq<Node>, targets: seq<nat>, w: seq<nat>): (r: nat)
    ensures r <= |w|
  {
    if |w| == 0 then 0
    else if Dangling(s, nodes, targets, w[0]) then 0
    else 1 + FirstBad(s, nodes, targets, w[1..])
  }

  /** The first dangling pointer is dangling, and no pointer before it is. */
  lemma {:induction false} FirstBadIs(s: seq<char>, nodes: seq<Node>, targets: seq<nat>, w: seq<nat>)
    ensures FirstBad(s, nodes, targets, w) < |w| ==> Dangling(s, nodes, targets, w[FirstBad(s, nodes, targets, w)])
    ensures forall i :: 0 <= i < FirstBad(s, nodes, targets, w) ==> !Dangling(s, nodes, targets, w[i])
  {
    if |w| > 0 && !Dangling(s, nodes, targets, w[0]) {
      FirstBadIs(s, nodes, targets, w[1..]);
      assert forall i :: 1 <= i < |w| ==> w[1..][i - 1] == w[i];
    }
  }

  lemma {:induction false} FirstBadAppend(s: seq<char>, nodes: seq<Node>, targets: seq<nat>, x: seq<nat>, y: seq<nat>)
    ensures FirstBad(s, nodes, targets, x + y)
         == if FirstBad(s, nodes, targets, x) < |x| then FirstBad(s, nodes, targets, x)
            else |x| + FirstBad(s, nodes, targets, y)
    decreases |x|
  {
    if |x| > 0 {
      assert (x + y)[0] == x[0] && (x + y)[1..] == x[1..] + y;
      if !Dangling(s, nodes, targets, x[0]) {
        FirstBadAppend(s, nodes, targets, x[1..], y);
        assert FirstBad(s, nodes, targets, x + y) == 1 + FirstBad(s, nodes, targets, x[1..] + y);
      }
    } else {
      assert x + y == y;
    }
  }

  /** The visit from `p` is `p`, then the part below it, then its later siblings; no node comes twice. */
  lemma PreorderParts(nodes: seq<Node>, p: nat)
    requires WF(nodes) && p < |nodes|
    ensures Preorder(nodes, p) == [p] + Preorder(nodes, nodes[p].firstChild) + Preorder(nodes, nodes[p].nextSibling)
    ensures forall k :: k in Preorder(nodes, p) ==> p <= k < |nodes|
    ensures p !in Preorder(nodes, nodes[p].firstChild) && p !in Preorder(nodes, nodes[p].nextSibling)
    ensures forall k :: k in Preorder(nodes, nodes[p].firstChild) ==> k !in Preorder(nodes, nodes[p].nextSibling)
    ensures forall k :: k in Preorder(nodes, nodes[p].firstChild) ==> k in Preorder(nodes, p)
    ensures forall k :: k in Preorder(nodes, nodes[p].nextSibling) ==> k in Preorder(nodes, p)
  {
    var below, later := Preorder(nodes, nodes[p].firstChild), Preorder(nodes, nodes[p].nextSibling);
    var w := Preorder(nodes, p);
    PreorderWithin(nodes, p);
    PreorderIncreasing(nodes, p);
    assert forall i :: 0 <= i < |below| ==> w[1 + i] == below[i];
    assert forall j :: 0 <= j < |later| ==> w[1 + |below| + j] == later[j];
    forall k | k in below
      ensures k !in later && k != p
    {
      var i :| 0 <= i < |below| && below[i] == k;
      assert forall j :: 0 <= j < |later| ==> w[1 + i] < later[j];
      assert w[0] < w[1 + i];
    }
    forall k | k in later
      ensures k != p
    {
      var j :| 0 <= j < |later| && later[j] == k;
      assert w[0] < w[1 + |below| + j];
    }
  }

  /**
   * What fixPointers does at one node (parser.c:49-59): a pointer payload
   * other than VOID is looked up among the sorted targets, and VOID becomes
   * no target.
   */
  method FixOne(s: seq<char>, ghost orig: seq<Node>, nodes: seq<Node>, p: nat, a: array<nat>, len: nat,
                ghost targets: seq<nat>)
    returns (ok: bool, out: seq<Node>)
    requires p < |orig| && Strings(s, orig) && Reshaped(orig, nodes) && nodes[p] == orig[p]
    requires len <= a.Length && SortedKeys(s, orig, a[..len])
    requires forall x :: x in a[..len] <==> x in targets
    ensures ok <==> !Dangling(s, orig, targets, p)
    ensures ok ==> |out| == |nodes| && out == nodes[p := out[p]] && Fixed(s, orig, targets, p, out[p]) && Reshaped(orig, out)
  {
    out := nodes;
    if nodes[p].payload.PointerText? {
      assert InBuffer(s, orig, p);
      var w := CString(s, nodes[p].payload.at);
      if w != "VOID" {
        SortedReshaped(s, orig, nodes, a[..len]);
        var i := Search(s, nodes, a, len, w);
        ReshapedKeys(s, orig, nodes);
        if i < 0 {
          forall t | t in targets
            ensures Key(s, orig, t) != w
          {
            var k :| 0 <= k < len && a[..len][k] == t;
          }
          return false, out;
        }
        assert a[..len][i] == a[i];
        out := nodes[p := nodes[p].(payload := PointerTo(a[i]))];
      } else {
        out := nodes[p := nodes[p].(payload := PointerTo(Nil))];
      }
    }
    return true, out;
  }

  /** Node `k` is fixed if it is in `w`, and otherwise as it was in `nodes`. */
  predicate FixedAt(s: seq<char>, orig: seq<Node>, targets: seq<nat>, w: seq<nat>, nodes: seq<Node>, out: seq<Node>, k: nat)
    requires k < |orig| == |nodes| == |out|
  {
    if k in w then Fixed(s, orig, targets, k, out[k]) else out[k] == nodes[k]
  }

  /** `out` is `nodes` with exactly the nodes of `w` fixed. */
  predicate FixedOver(s: seq<char>, orig: seq<Node>, targets: seq<nat>, w: seq<nat>, nodes: seq<Node>, out: seq<Node>)
  {
    && |orig| == |nodes| == |out|
    && forall k :: 0 <= k < |orig| ==> FixedAt(s, orig, targets, w, nodes, out, k)
  }

  /** The nodes below `p` (or after it) are as they were before `p` was visited. */
  lemma Unvisited(orig: seq<Node>, nodes: seq<Node>, n1: seq<Node>, p: nat, q: int)
    requires WF(orig) && p < |orig| && (q == orig[p].firstChild || q == orig[p].nextSibling)
    requires |n1| == |nodes| == |orig|
    requires forall k :: k in Preorder(orig, p) ==> k < |orig| && nodes[k] == orig[k]
    requires forall k :: 0 <= k < |nodes| && k != p ==> n1[k] == nodes[k]
    ensures forall k :: k in Preorder(orig, q) ==> k < |orig| && n1[k] == orig[k]
  {
    PreorderParts(orig, p);
  }

  /** The later siblings are untouched by the visit of the nodes below `p`. */
  lemma UnvisitedLater(s: seq<char>, orig: seq<Node>, targets: seq<nat>, nodes: seq<Node>, n1: seq<Node>, n2: seq<Node>, p: nat)
    requires WF(orig) && p < |orig| && |n1| == |n2| == |nodes| == |orig|
    requires forall k :: k in Preorder(orig, p) ==> k < |orig| && nodes[k] == orig[k]
    requires forall k :: 0 <= k < |orig| && k != p ==> n1[k] == nodes[k]
    requires FixedOver(s, orig, targets, Preorder(orig, orig[p].firstChild), n1, n2)
    ensures forall k :: k in Preorder(orig, orig[p].nextSibling) ==> k < |orig| && n2[k] == orig[k]
  {
    PreorderParts(orig, p);
    forall k | k in Preorder(orig, orig[p].nextSibling)
      ensures k < |orig| && n2[k] == orig[k]
    {
      assert FixedAt(s, orig, targets, Preorder(orig, orig[p].firstChild), n1, n2, k);
    }
  }

  /** The three parts of a visit put together. */
  lemma FixedParts(s: seq<char>, orig: seq<Node>, targets: seq<nat>, p: nat,
                   nodes: seq<Node>, n1: seq<Node>, n2: seq<Node>, out: seq<Node>)
    requires WF(orig) && p < |orig| && |nodes| == |n1| == |n2| == |out| == |orig|
    requires forall k :: 0 <= k < |orig| && k != p ==> n1[k] == nodes[k]
    requires Fixed(s, orig, targets, p, n1[p])
    requires FixedOver(s, orig, targets, Preorder(orig, orig[p].firstChild), n1, n2)
    requires FixedOver(s, orig, targets, Preorder(orig, orig[p].nextSibling), n2, out)
    ensures FixedOver(s, orig, targets, Preorder(orig, p), nodes, out)
  {
    PreorderParts(orig, p);
    forall k | 0 <= k < |orig|
      ensures FixedAt(s, orig, targets, Preorder(orig, p), nodes, out, k)
    {
      assert FixedAt(s, orig, targets, Preorder(orig, orig[p].firstChild), n1, n2, k);
      assert FixedAt(s, orig, targets, Preorder(orig, orig[p].nextSibling), n2, out, k);
    }
  }

  /** Where the first dangling pointer of a visit from `p` lies, in terms of the visit's parts. */
  lemma FirstBadParts(s: seq<char>, orig: seq<Node>, targets: seq<nat>, p: nat)
    requires WF(orig) && p < |orig|
    ensures var below, later := Preorder(orig, orig[p].firstChild), Preorder(orig, orig[p].nextSibling);
      && |Preorder(orig, p)| == 1 + |below| + |later|
      && FirstBad(s, orig, targets, Preorder(orig, p))
         == if Dangling(s, orig, targets, p) then 0
            else if FirstBad(s, orig, targets, below) < |below| then 1 + FirstBad(s, orig, targets, below)
            else 1 + |below| + FirstBad(s, orig, targets, later)
  {
    var below, later := Preorder(orig, orig[p].firstChild), Preorder(orig, orig[p].nextSibling);
    PreorderParts(orig, p);
    FirstBadAppend(s, orig, targets, [p] + below, later);
    FirstBadAppend(s, orig, targets, [p], below);
    assert FirstBad(s, orig, targets, [p]) == if Dangling(s, orig, targets, p) then 0 else 1 by {
      assert [p][1..] == [];
    }
  }

  /**
   * fixPointers (parser.c:46-62): visits `p`, everything below it and its
   * later siblings in preorder, counting each visited node on `line`, and
   * stops at the first pointer that names no target. On success every
   * visited pointer payload names its target, and nothing else changes.
   */
  method FixPointers(s: seq<char>, ghost orig: seq<Node>, nodes: seq<Node>, p: int, a: array<nat>, len: nat,
                     ghost targets: seq<nat>, line: nat)
    returns (ok: bool, out: seq<Node>, line': nat)
    requires WF(orig) && Strings(s, orig) && IsRef(p, |orig|) && Reshaped(orig, nodes)
    requires forall k :: k in Preorder(orig, p) ==> k < |orig| && nodes[k] == orig[k]
    requires len <= a.Length && SortedKeys(s, orig, a[..len])
    requires forall x :: x in a[..len] <==> x in targets
    ensures Reshaped(orig, out)
    ensures ok <==> FirstBad(s, orig, targets, Preorder(orig, p)) == |Preorder(orig, p)|
    ensures line' == line + if ok then |Preorder(orig, p)| else FirstBad(s, orig, targets, Preorder(orig, p)) + 1
    ensures ok ==> FixedOver(s, orig, targets, Preorder(orig, p), nodes, out)
    decreases if p == Nil then 0 else |orig| - p
  {
    if p == Nil {
      return true, nodes, line;
    }
    FirstBadParts(s, orig, targets, p);
    ReshapedLinks(orig, nodes);
    var fine, n1 := FixOne(s, orig, nodes, p, a, len, targets);
    if !fine {
      return false, nodes, line + 1;
    }
    Unvisited(orig, nodes, n1, p, orig[p].firstChild);
    var ok1, n2, line1 := FixPointers(s, orig, n1, nodes[p].firstChild, a, len, targets, line + 1);
    if !ok1 {
      return false, n2, line1;
    }
    UnvisitedLater(s, orig, targets, nodes, n1, n2, p);
    ok, out, line' := FixPointers(s, orig, n2, nodes[p].nextSibling, a, len, targets, line1);
    if ok {
      FixedParts(s, orig, targets, p, nodes, n1, n2, out);
    }
  }

  /** The nodes WithIds keeps come from `w`, lie in the arena and carry an id. */
  lemma {:induction false} WithIdsFrom(nodes: seq<Node>, w: seq<nat>)
    ensures forall x :: x in WithIds(nodes, w) ==> x in w && x < |nodes| && nodes[x].id != Nil
  {
    if |w| > 0 {
      WithIdsFrom(nodes, w[1..]);
    }
  }

  /** Filtering keeps the order of an increasing sequence. */
  lemma {:induction false} WithIdsIncreasing(nodes: seq<Node>, w: seq<nat>)
    requires Increasing(w)
    ensures Increasing(WithIds(nodes, w))
  {
    if |w| > 0 {
      assert forall i :: 0 < i < |w| ==> w[1..][i - 1] == w[i];
      WithIdsIncreasing(nodes, w[1..]);
      WithIdsFrom(nodes, w[1..]);
      var rest := WithIds(nodes, w[1..]);
      assert forall x :: x in rest ==> w[0] < x;
      if w[0] < |nodes| && nodes[w[0]].id != Nil {
        var r := [w[0]] + rest;
        forall i, j | 0 <= i < j < |r|
          ensures r[i] < r[j]
        {
          assert r[j] == rest[j - 1] && rest[j - 1] in rest;
          if i > 0 {
            assert r[i] == rest[i - 1];
          }
        }
      }
    }
  }

  /** The collected targets are distinct nodes of the arena that carry an id. */
  lemma TargetsShape(d: Dialect, s: seq<char>, nodes: seq<Node>)
    requires WF(nodes) && Strings(s, nodes)
    ensures Increasing(Targets(d, nodes)) && AllKeyed(s, nodes, Targets(d, nodes))
  {
    var p := Root(nodes);
    var w := if d == Legacy then Walk(nodes, p) else Roots(nodes, p);
    if d == Legacy {
      WalkIncreasing(nodes, p);
    } else {
      RootsIncreasing(nodes, p);
    }
    WithIdsIncreasing(nodes, w);
    WithIdsFrom(nodes, w);
    var t := Targets(d, nodes);
    forall i | 0 <= i < |t|
      ensures Keyed(s, nodes, t[i])
    {
      assert t[i] in t;
      assert InBuffer(s, nodes, t[i]);
    }
  }

  /** An increasing sequence holds each value at most once. */
  lemma {:induction false} IncreasingOnce(w: seq<nat>, x: nat)
    requires Increasing(w)
    ensures multiset(w)[x] <= 1
  {
    if |w| > 0 {
      assert w == [w[0]] + w[1..];
      assert forall i :: 0 < i < |w| ==> w[1..][i - 1] == w[i];
      IncreasingOnce(w[1..], x);
      assert w[0] !in w[1..];
    }
  }

  /** Two positions of a sequence that holds a value at most once hold different values. */
  lemma OnceApart(w: seq<nat>, i: nat, j: nat)
    requires i < j < |w| && multiset(w)[w[i]] <= 1
    ensures w[i] != w[j]
  {
    assert w == w[..j] + w[j..];
    assert w[..j][i] == w[i] && w[j..][0] == w[j];
  }

  /** A rearrangement of an increasing sequence repeats no value. */
  lemma Distinct(w: seq<nat>, t: seq<nat>)
    requires multiset(w) == multiset(t) && Increasing(t)
    ensures forall i, j :: 0 <= i < j < |w| ==> w[i] != w[j]
  {
    forall i, j | 0 <= i < j < |w|
      ensures w[i] != w[j]
    {
      IncreasingOnce(t, w[i]);
      OnceApart(w, i, j);
    }
  }

  /** Strictly increasing ids on a rearrangement of the targets: no two targets share an id. */
  lemma UniqueTargets(s: seq<char>, nodes: seq<Node>, w: seq<nat>, t: seq<nat>)
    requires StrictKeys(s, nodes, w) && multiset(w) == multiset(t) && Increasing(t)
    ensures Unique(s, nodes, t)
  {
    forall i, j | 0 <= i < j < |t|
      ensures Key(s, nodes, t[i]) != Key(s, nodes, t[j])
    {
      assert t[i] in multiset(w) && t[j] in multiset(w);
      var p :| 0 <= p < |w| && w[p] == t[i];
      var q :| 0 <= q < |w| && w[q] == t[j];
      if p < q {
        assert Lt(s, nodes, w[p], w[q]);
      } else {
        assert Lt(s, nodes, w[q], w[p]);
      }
    }
  }

  /** Node `x` is a target and some other target has the same id. */
  predicate Twin(s: seq<char>, nodes: seq<Node>, t: seq<nat>, x: int)
  {
    x in t && exists y :: y in t && y != x && Key(s, nodes, y) == Key(s, nodes, x)
  }

  /** Neighbours with the same id on a rearrangement of the targets are two targets sharing an id. */
  lemma DuplicateTargets(s: seq<char>, nodes: seq<Node>, w: seq<nat>, t: seq<nat>, j: nat)
    requires multiset(w) == multiset(t) && Increasing(t)
    requires 0 < j < |w| && Key(s, nodes, w[j]) == Key(s, nodes, w[j - 1])
    ensures Twin(s, nodes, t, w[j]) && !Unique(s, nodes, t)
  {
    Distinct(w, t);
    assert w[j - 1] in multiset(t) && w[j] in multiset(t);
    var p :| 0 <= p < |t| && t[p] == w[j - 1];
    var q :| 0 <= q < |t| && t[q] == w[j];
    assert p != q;
    if p < q {
      assert Key(s, nodes, t[p]) == Key(s, nodes, t[q]);
    } else {
      assert Key(s, nodes, t[q]) == Key(s, nodes, t[p]);
    }
  }

  /** The line order the assembly pass leaves: the walk from node 0 is nodes 0, 1, 2, ... */
  predicate LineOrder(nodes: seq<Node>)
    requires WF(nodes)
  {
    |nodes| > 0 ==> Walk(nodes, 0) == Lines(0, |nodes|) == Preorder(nodes, 0)
  }

  /** No pointer among the first `n` nodes dangles. */
  predicate Clean(s: seq<char>, nodes: seq<Node>, targets: seq<nat>, n: int)
  {
    forall k :: 0 <= k < n ==> !Dangling(s, nodes, targets, k)
  }

  /** Every node of `out` is node `k` of `nodes` as fixPointers leaves it. */
  predicate AllFixed(s: seq<char>, nodes: seq<Node>, targets: seq<nat>, out: seq<Node>)
  {
    |out| == |nodes| && forall k :: 0 <= k < |nodes| ==> Fixed(s, nodes, targets, k, out[k])
  }

  /** A visit of every node that fixes each visited node fixes all of them. */
  lemma FixedAll(s: seq<char>, nodes: seq<Node>, targets: seq<nat>, out: seq<Node>)
    requires WF(nodes) && LineOrder(nodes)
    requires FixedOver(s, nodes, targets, Preorder(nodes, Root(nodes)), nodes, out)
    ensures AllFixed(s, nodes, targets, out)
  {
    forall k | 0 <= k < |nodes|
      ensures Fixed(s, nodes, targets, k, out[k])
    {
      assert FixedAt(s, nodes, targets, Preorder(nodes, Root(nodes)), nodes, out, k);
      assert Lines(0, |nodes|)[k] == k;
    }
  }

  /** Where the visit of every node first meets a dangling pointer, as a node index. */
  lemma FirstDangling(s: seq<char>, nodes: seq<Node>, targets: seq<nat>)
    requires WF(nodes) && LineOrder(nodes)
    ensures var b := FirstBad(s, nodes, targets, Preorder(nodes, Root(nodes)));
      && |Preorder(nodes, Root(nodes))| == |nodes|
      && (b < |nodes| ==> Dangling(s, nodes, targets, b))
      && Clean(s, nodes, targets, b)
  {
    var w := Preorder(nodes, Root(nodes));
    FirstBadIs(s, nodes, targets, w);
    assert |w| == |nodes|;
    forall k | 0 <= k < FirstBad(s, nodes, targets, w)
      ensures !Dangling(s, nodes, targets, k)
    {
      assert w[k] == k;
    }
  }

  /** Steps 1 and 2 (parser.c:439-458): the targets, collected into a fresh array and sorted by id. */
  method SortedTargets(d: Dialect, s: seq<char>, nodes: seq<Node>) returns (a: array<nat>, len: nat)
    requires WF(nodes) && Strings(s, nodes)
    ensures fresh(a) && len <= a.Length
    ensures multiset(a[..len]) == multiset(Targets(d, nodes))
    ensures forall x :: x in a[..len] <==> x in Targets(d, nodes)
    ensures SortedKeys(s, nodes, a[..len])
  {
    TargetsShape(d, s, nodes);
    a := new nat[|nodes|];
    if d == Legacy {
      len := CollectWalk(nodes, a);
    } else {
      len := CollectRoots(nodes, a);
    }
    SortTargets(s, nodes, a, len);
    assert forall x :: x in a[..len] <==> x in multiset(Targets(d, nodes));
  }

  /** The line parser.c:461 reports for a duplicate found at `j` of the sorted targets. */
  method DuplicateLine(d: Dialect, s: seq<char>, nodes: seq<Node>, a: array<nat>, len: nat, j: nat) returns (line: nat)
    requires WF(nodes) && Strings(s, nodes) && LineOrder(nodes)
    requires len <= a.Length && multiset(a[..len]) == multiset(Targets(d, nodes))
    requires 0 < j < len && Key(s, nodes, a[j]) == Key(s, nodes, a[j - 1])
    ensures line >= 1 && Twin(s, nodes, Targets(d, nodes), line - 1) && !Unique(s, nodes, Targets(d, nodes))
  {
    TargetsShape(d, s, nodes);
    DuplicateTargets(s, nodes, a[..len], Targets(d, nodes), j);
    assert a[..len][j] == a[j];
    TargetLine(d, nodes, a[j]);
    line := LineOfStructure(nodes, a[j], Root(nodes));
    assert line - 1 == a[j];
  }

  /** A target is a node, and its line is the one place the walk from the first node meets it. */
  lemma TargetLine(d: Dialect, nodes: seq<Node>, x: int)
    requires WF(nodes) && LineOrder(nodes) && x in Targets(d, nodes)
    ensures 0 <= x < |nodes| && Root(nodes) == 0
    ensures x in Walk(nodes, 0) && forall i :: 0 <= i < |Walk(nodes, 0)| && Walk(nodes, 0)[i] == x ==> i == x
  {
    WithIdsFrom(nodes, if d == Legacy then Walk(nodes, Root(nodes)) else Roots(nodes, Root(nodes)));
    assert Lines(0, |nodes|)[x] == x;
  }

  /**
   * What the pass reports for the targets `t`: a duplicate id exactly when
   * two targets share one, at the line of a node that shares it; otherwise
   * the first dangling pointer at its line; otherwise every node fixed.
   */
  predicate Reported(s: seq<char>, nodes: seq<Node>, t: seq<nat>, r: Result<seq<Node>>)
  {
    && (r.Err? ==> r.error.fault == DuplicateId || r.error.fault == NoTarget)
    && (r.Err? && r.error.fault == DuplicateId <==> !Unique(s, nodes, t))
    && (r.Err? && r.error.fault == DuplicateId ==> r.error.line >= 1 && Twin(s, nodes, t, r.error.line - 1))
    && (r.Err? && r.error.fault == NoTarget ==>
         && 1 <= r.error.line <= |nodes| && Dangling(s, nodes, t, r.error.line - 1)
         && Clean(s, nodes, t, r.error.line - 1))
    && (r.Ok? <==> Unique(s, nodes, t) && Clean(s, nodes, t, |nodes|))
    && (r.Ok? ==> AllFixed(s, nodes, t, r.value))
  }

  /** A duplicate id is reported at the line of a node that shares it. */
  lemma ReportDuplicate(s: seq<char>, nodes: seq<Node>, t: seq<nat>, line: nat)
    requires !Unique(s, nodes, t) && line >= 1 && Twin(s, nodes, t, line - 1)
    ensures Reported(s, nodes, t, Err(ParseError(DuplicateId, line)))
  {
  }

  /** The line fixPointers stops at is the line of the first dangling pointer. */
  lemma ReportDangling(s: seq<char>, nodes: seq<Node>, t: seq<nat>, line: nat)
    requires WF(nodes) && LineOrder(nodes) && Unique(s, nodes, t)
    requires FirstBad(s, nodes, t, Preorder(nodes, Root(nodes))) != |Preorder(nodes, Root(nodes))|
    requires line == FirstBad(s, nodes, t, Preorder(nodes, Root(nodes))) + 1
    ensures Reported(s, nodes, t, Err(ParseError(NoTarget, line)))
  {
    FirstDangling(s, nodes, t);
    assert Dangling(s, nodes, t, line - 1);
  }

  /** A visit of every node that meets no dangling pointer resolves them all. */
  lemma ReportFixed(s: seq<char>, nodes: seq<Node>, t: seq<nat>, out: seq<Node>)
    requires WF(nodes) && LineOrder(nodes) && Unique(s, nodes, t)
    requires FirstBad(s, nodes, t, Preorder(nodes, Root(nodes))) == |Preorder(nodes, Root(nodes))|
    requires FixedOver(s, nodes, t, Preorder(nodes, Root(nodes)), nodes, out)
    ensures Reported(s, nodes, t, Ok(out))
  {
    FirstDangling(s, nodes, t);
    FixedAll(s, nodes, t, out);
  }

  /**
   * Steps 1 to 3 of parser.c:439-468: collect the nodes with an id (all,
   * in the Legacy dialect; the roots, otherwise), sort them by id, reject a
   * duplicate id at the line of the later of two neighbours with the same
   * id, then look up every pointer with the line counter restarted, and
   * reject the first pointer with no target at its line.
   */
  method ResolvePointers(d: Dialect, s: seq<char>, nodes: seq<Node>) returns (r: Result<seq<Node>>)
    requires WF(nodes) && Strings(s, nodes) && LineOrder(nodes)
    ensures Reported(s, nodes, Targets(d, nodes), r)
  {
    ghost var t := Targets(d, nodes);
    var a, len := SortedTargets(d, s, nodes);
    var j := FindDuplicate(s, nodes, a, len);
    if j != 0 {
      var line := DuplicateLine(d, s, nodes, a, len, j);
      ReportDuplicate(s, nodes, t, line);
      return Err(ParseError(DuplicateId, line));
    }
    TargetsShape(d, s, nodes);
    UniqueTargets(s, nodes, a[..len], t);
    var ok, out, line := FixPointers(s, nodes, nodes, Root(nodes), a, len, t, 0);
    if !ok {
      ReportDangling(s, nodes, t, line);
      return Err(ParseError(NoTarget, line));
    }
    ReportFixed(s, nodes, t, out);
    return Ok(out);
  }
}
