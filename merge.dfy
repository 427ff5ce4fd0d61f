/**
 * The walk of unCONT and unCONTCONC (parser.c:63-154) over the forest that
 * the line loop built: the node at hand is checked, the run of continuation
 * lines that leads its children is folded into its text, and the walk goes
 * on into its remaining first child and then its next sibling.
 *
 * The lines are the nodes in document order (node k is line k, as the line
 * loop builds them), so the walk is stated line by line: from a node `p` it
 * covers the lines [p, Reach(p)), it rejects the first bad line among them
 * (`FirstBadIn`), and otherwise leaves every line it keeps as `KeptAt` says.
 */
module Merge {
  import opened GedcomTypes
  import opened Forest
  import opened Outline
  import opened Assembly
  import opened Unfold

  // ---------------------------------------------------------------- levels

  /** The first line from `j` on whose level is below `bound`, or the number of lines. */
  function Until(levels: seq<nat>, j: nat, bound: int): (r: nat)
    requires j <= |levels|
    ensures j <= r <= |levels|
    ensures r < |levels| ==> levels[r] < bound
    ensures forall i :: j <= i < r ==> levels[i] >= bound
    decreases |levels| - j
  {
    if j == |levels| || levels[j] < bound then j else Until(levels, j + 1, bound)
  }

  /** `Until` is the one line with its two properties. */
  lemma {:induction false} UntilIs(levels: seq<nat>, j: nat, bound: int, r: nat)
    requires j <= r <= |levels| && (r < |levels| ==> levels[r] < bound)
    requires forall i :: j <= i < r ==> levels[i] >= bound
    ensures Until(levels, j, bound) == r
    decreases |levels| - j
  {
    if j < r {
      UntilIs(levels, j + 1, bound, r);
    }
  }

  /** Where the subtree of line `p` ends: the first later line no deeper than `p`. */
  function SubEnd(levels: seq<nat>, p: nat): (r: nat)
    requires p < |levels|
    ensures p < r <= |levels|
  {
    Until(levels, p + 1, levels[p] + 1)
  }

  /** Where the lines the walk covers from `p` end: the first later line shallower than `p`. */
  function Reach(levels: seq<nat>, p: nat): (r: nat)
    requires p < |levels|
    ensures p < r <= |levels|
  {
    Until(levels, p + 1, levels[p])
  }

  /** A later line hangs from `k` exactly when it is one level deeper and nothing between is as shallow as `k`. */
  lemma ParentIff(nodes: seq<Node>, levels: seq<nat>, k: nat, j: nat)
    requires Describes(nodes, levels) && k < j < |nodes|
    ensures nodes[j].parent == k <==> levels[j] == levels[k] + 1 && forall i :: k < i < j ==> levels[i] > levels[k]
  {
    assert LinksOf(nodes, levels, j);
    var q := nodes[j].parent;
    if levels[j] == levels[k] + 1 && (forall i :: k < i < j ==> levels[i] > levels[k]) {
      assert q != Nil && 0 <= q < j;
    }
  }

  /** The first child of line `p` is the next line when that is one level deeper, and none otherwise. */
  lemma FirstChildLine(nodes: seq<Node>, levels: seq<nat>, p: nat)
    requires Describes(nodes, levels) && p < |nodes|
    ensures nodes[p].firstChild == if p + 1 < |nodes| && levels[p + 1] == levels[p] + 1 then p + 1 else Nil
    ensures nodes[p].firstChild == if p + 1 < SubEnd(levels, p) then p + 1 else Nil
  {
    assert LinksOf(nodes, levels, p);
    assert LevelsOk(levels);
    if p + 1 < |nodes| && levels[p + 1] == levels[p] + 1 {
      ParentIff(nodes, levels, p, p + 1);
    } else {
      forall j | 0 <= j < |nodes|
        ensures nodes[j].parent != p
      {
        assert LinksOf(nodes, levels, j);
        if p < j {
          ParentIff(nodes, levels, p, j);
          if j > p + 1 {
            assert levels[p + 1] <= levels[p];
          }
        }
      }
    }
  }

  /** The next sibling of line `k` is the line where its subtree ends, when that is at `k`'s level, and none otherwise. */
  lemma NextSiblingLine(nodes: seq<Node>, levels: seq<nat>, k: nat)
    requires Describes(nodes, levels) && k < |nodes|
    ensures var q := SubEnd(levels, k);
      nodes[k].nextSibling == if q < |nodes| && levels[q] == levels[k] then q else Nil
  {
    assert LinksOf(nodes, levels, k);
    var q := SubEnd(levels, k);
    forall j | k < j < q
      ensures nodes[j].parent != nodes[k].parent
    {
      NoSiblingBetween(nodes, levels, k, j);
    }
    if q < |nodes| && levels[q] == levels[k] {
      SameParent(nodes, levels, k, q);
    } else if q < |nodes| {
      forall j | q <= j < |nodes|
        ensures nodes[j].parent != nodes[k].parent
      {
        NoSiblingPast(nodes, levels, k, q, j);
      }
    }
  }

  /** Where the subtree of `p` ends and how the walk goes on past it, to its next sibling or out. */
  lemma SiblingReach(d: Dialect, s: seq<char>, nodes: seq<Node>, levels: seq<nat>, p: nat)
    requires Describes(nodes, levels) && p < |nodes| && !Folded(d, s, nodes, p)
    ensures var q, n := SubEnd(levels, p), nodes[p].nextSibling;
      && (n == Nil ==> q == Reach(levels, p))
      && (n != Nil ==> n == q < |nodes| && Reach(levels, q) == Reach(levels, p) && !Folded(d, s, nodes, q))
  {
    var q := SubEnd(levels, p);
    NextSiblingLine(nodes, levels, p);
    if q < |nodes| && levels[q] == levels[p] {
      UntilIs(levels, p + 1, levels[p], Reach(levels, q));
      if q == p + 1 {
        FirstChildLine(nodes, levels, p);
      } else {
        FirstChildLine(nodes, levels, q - 1);
        NextSiblingLine(nodes, levels, q - 1);
        assert SubEnd(levels, q - 1) == q;
        assert levels[q - 1] > levels[q];
      }
      NotFoldedAt(d, s, nodes, q);
    } else {
      UntilIs(levels, p + 1, levels[p], q);
    }
  }

  /** A line is not folded when the line before it neither has it as first child nor, if folded itself, as next sibling. */
  lemma NotFoldedAt(d: Dialect, s: seq<char>, nodes: seq<Node>, q: nat)
    requires 0 < q < |nodes| && nodes[q - 1].firstChild != q
    requires Folded(d, s, nodes, q - 1) ==> nodes[q - 1].nextSibling != q
    ensures !Folded(d, s, nodes, q)
  {
  }

  /** The walk from the first line covers every line. */
  lemma ReachAll(levels: seq<nat>)
    requires |levels| > 0 && levels[0] == 0
    ensures Reach(levels, 0) == |levels|
  {
    UntilIs(levels, 1, 0, |levels|);
  }

  // ------------------------------------------------------------ first bad line

  /** With no bad line in [b, e), `FirstBadIn` reaches `e`. */
  lemma {:induction false} FirstBadInNone(d: Dialect, s: seq<char>, orig: seq<Node>, b: nat, e: nat)
    requires b <= e <= |orig| && forall j :: b <= j < e ==> !Bad(d, s, orig, j)
    ensures FirstBadIn(d, s, orig, b, e) == e
    decreases e - b
  {
    if b < e {
      FirstBadInNone(d, s, orig, b + 1, e);
    }
  }

  /** The first bad line of [b, e) is the first of [b, mid) if there is one, else the first of [mid, e). */
  lemma {:induction false} FirstBadInSplit(d: Dialect, s: seq<char>, orig: seq<Node>, b: nat, mid: nat, e: nat)
    requires b <= mid <= e <= |orig|
    ensures FirstBadIn(d, s, orig, b, e)
      == if FirstBadIn(d, s, orig, b, mid) < mid then FirstBadIn(d, s, orig, b, mid) else FirstBadIn(d, s, orig, mid, e)
    decreases mid - b
  {
    if b < mid && !Bad(d, s, orig, b) {
      FirstBadInSplit(d, s, orig, b + 1, mid, e);
    }
  }

  // ------------------------------------------------------------------ buffers

  /** The forest the walk starts from: the lines as nodes, each line's strings inside its region of `s`. */
  predicate Setting(s: seq<char>, orig: seq<Node>, levels: seq<nat>, lo: seq<nat>)
  {
    Describes(orig, levels) && WF(orig) && Laid(s, orig, lo, |s|)
  }

  /** Region starts grow with the line. */
  lemma LoGrows(s: seq<char>, orig: seq<Node>, lo: seq<nat>, i: nat, j: nat)
    requires Laid(s, orig, lo, |s|) && i <= j
    ensures Lo(lo, |s|, i) <= Lo(lo, |s|, j) <= |s|
  {
  }

  /** Where the writes folding into line `p` may begin: its text, or past its line when it has none. */
  function Floor(s: seq<char>, orig: seq<Node>, lo: seq<nat>, p: nat): nat
    requires p < |orig|
  {
    if orig[p].payload.Text? then orig[p].payload.at else Lo(lo, |s|, p + 1)
  }

  /** A C string between `a` and `hi` reads the same in two buffers that agree there. */
  lemma CStringBetween(s: seq<char>, t: seq<char>, a: nat, hi: nat, k: int)
    requires |s| == |t| && Agree(s, t, a, hi) && a <= k && EndsBefore(s, k, hi)
    ensures EndsBefore(t, k, hi) && CString(t, k) == CString(s, k)
  {
    CStringLocal(s, t, k, k + |CString(s, k)|);
  }

  /** A line whose region and everything after it is untouched reads as it did. */
  lemma PristineNode(d: Dialect, s: seq<char>, t: seq<char>, y: Node, a: nat, z: nat)
    requires |s| == |t| && Agree(s, t, a, |s|) && Ordered(s, y, a) && SlicedBefore(s, y, z) && z <= |s|
    ensures Ordered(t, y, a) && SlicedBefore(t, y, z)
    ensures CString(t, y.tag) == CString(s, y.tag) && Txt(t, y) == Txt(s, y)
    ensures Joins(d, t, y) == Joins(d, s, y) && TagIs(t, y, "CONT") == TagIs(s, y, "CONT")
  {
    CStringFrom(s, t, a, y.tag);
    if y.id != Nil {
      CStringFrom(s, t, a, y.id);
    }
    if y.payload.Text? || y.payload.PointerText? {
      CStringFrom(s, t, a, y.payload.at);
    }
  }

  /** The tag, id and pointer text of line `p` lie in [lo[p], Floor), where no fold writes. */
  lemma HostStrings(s: seq<char>, t: seq<char>, orig: seq<Node>, lo: seq<nat>, p: nat)
    requires Laid(s, orig, lo, |s|) && p < |orig| && |t| == |s|
    requires Agree(s, t, lo[p], Floor(s, orig, lo, p))
    ensures var x := orig[p];
      && EndsBefore(t, x.tag, Floor(s, orig, lo, p)) && CString(t, x.tag) == CString(s, x.tag)
      && (x.id != Nil ==> EndsBefore(t, x.id, Floor(s, orig, lo, p)) && CString(t, x.id) == CString(s, x.id))
      && (x.payload.PointerText? ==> EndsBefore(t, x.payload.at, Floor(s, orig, lo, p)))
  {
    assert LaidAt(s, orig, lo, |s|, p);
    var x, f := orig[p], Floor(s, orig, lo, p);
    CStringBetween(s, t, lo[p], f, x.tag);
    if x.id != Nil {
      CStringBetween(s, t, lo[p], f, x.id);
    }
    if x.payload.PointerText? {
      CStringBetween(s, t, lo[p], f, x.payload.at);
    }
  }

  // ------------------------------------------------------------------ folding

  /**
   * Folds the joining child line `y` into the host `x` (parser.c:74-97,
   * 118-146): into no payload as `JoinInto` does, after a text as
   * `JoinAfter` does; `nul` caches where the host's text ends.
   */
  method FoldOne(d: Dialect, buf: array<char>, x: Node, y: Node, nul: int, ghost a: nat, ghost z: nat, ghost floor: nat)
      returns (x': Node, nul': int)
    requires !x.payload.IsPointer() && Child(d, buf[..], y, a, z) && Host(buf[..], x, nul, floor, a)
    modifies buf
    ensures x' == x.(payload := x'.payload) && (x'.payload == x.payload || (x.payload.NoPayload? && x'.payload.Text?))
    ensures Txt(buf[..], x') == Joined(TagIs(old(buf[..]), y, "CONT"), Txt(old(buf[..]), x), Txt(old(buf[..]), y))
    ensures Host(buf[..], x', nul', floor, z)
    ensures Agree(old(buf[..]), buf[..], 0, floor) && Agree(old(buf[..]), buf[..], z, buf.Length)
  {
    ChildBounds(d, buf[..], y, a, z);
    if x.payload.NoPayload? {
      x' := JoinInto(d, buf, x, y, a, z);
      nul' := nul;
    } else {
      nul' := JoinAfter(d, buf, x, y, nul, a, z);
      x' := x;
    }
  }

  /** No fold writes below the start of the host's line. */
  lemma FloorAbove(s: seq<char>, orig: seq<Node>, lo: seq<nat>, p: nat)
    requires Laid(s, orig, lo, |s|) && p < |orig|
    ensures lo[p] <= Floor(s, orig, lo, p) <= Lo(lo, |s|, p + 1)
  {
    assert LaidAt(s, orig, lo, |s|, p);
  }

  /**
   * The fold loop at line `p` before line `k` (parser.c:67-100), over the
   * buffer `t` that was `t0` when the loop began: the lines in (p, k) are
   * folded children of `p` that the walk accepts; `c` is the first child
   * left, which is line `k` while `k` is still in `p`'s subtree; the host
   * `x` is line `p` with that first child and a text that, with the rest of
   * the run gathered in, is the expected one; the loop has written only in
   * [Floor, lo[k]).
   */
  predicate Run(d: Dialect, s: seq<char>, orig: seq<Node>, levels: seq<nat>, lo: seq<nat>, t0: seq<char>, t: seq<char>,
                p: nat, k: nat, c: int, x: Node, nul: int)
    requires Setting(s, orig, levels, lo) && p < |orig|
  {
    && RunLines(d, s, orig, levels, p, k, c)
    && RunHost(d, s, orig, t, p, c, x)
    && RunBuffer(s, orig, lo, t0, t, p, k, x, nul)
  }

  /** The lines of the run so far: folded children of `p` that the walk accepts, and line `k` as first child left. */
  predicate RunLines(d: Dialect, s: seq<char>, orig: seq<Node>, levels: seq<nat>, p: nat, k: nat, c: int)
    requires p < |orig| == |levels|
  {
    && p < k <= SubEnd(levels, p)
    && c == (if k < SubEnd(levels, p) then k else Nil)
    && (if k == p + 1 then c == orig[p].firstChild else c == orig[k - 1].nextSibling)
    && forall j :: p < j < k ==> Accepted(d, s, orig, p, j)
  }

  /** Line `j` is a folded child of `p` that the walk accepts. */
  predicate Accepted(d: Dialect, s: seq<char>, orig: seq<Node>, p: nat, j: nat)
  {
    j < |orig| && Folded(d, s, orig, j) && !Bad(d, s, orig, j) && orig[j].parent == p
  }

  /** The host so far: line `p` with first child `c` and a text that, with the rest of the run, is the expected one. */
  predicate RunHost(d: Dialect, s: seq<char>, orig: seq<Node>, t: seq<char>, p: nat, c: int, x: Node)
    requires LinksInRange(orig) && p < |orig|
  {
    && IsRef(c, |orig|)
    && x == orig[p].(firstChild := c, payload := x.payload)
    && (x.payload == orig[p].payload || (orig[p].payload.NoPayload? && x.payload.Text?))
    && Gather(d, s, orig, Txt(t, x), c) == Expected(d, s, orig, p)
    && AfterRun(d, s, orig, c) == AfterRun(d, s, orig, orig[p].firstChild)
  }

  /** The buffer so far: the host's text ends before line `k`, and only [Floor, lo[k]) was written. */
  predicate RunBuffer(s: seq<char>, orig: seq<Node>, lo: seq<nat>, t0: seq<char>, t: seq<char>, p: nat, k: nat, x: Node, nul: int)
    requires p < |orig|
  {
    && |t0| == |t| == |s|
    && Host(t, x, nul, Floor(s, orig, lo, p), Lo(lo, |s|, k))
    && Agree(t0, t, 0, Floor(s, orig, lo, p)) && Agree(t0, t, Lo(lo, |s|, k), |s|)
  }

  /** The loop starts with line `p` as it is and nothing folded. */
  lemma RunStart(d: Dialect, s: seq<char>, orig: seq<Node>, levels: seq<nat>, lo: seq<nat>, t0: seq<char>, p: nat)
    requires Setting(s, orig, levels, lo) && p < |orig| && |t0| == |s| && Agree(s, t0, lo[p], |s|)
    ensures Run(d, s, orig, levels, lo, t0, t0, p, p + 1, orig[p].firstChild, orig[p], Nil)
    ensures lo[p] <= Floor(s, orig, lo, p)
  {
    FirstChildLine(orig, levels, p);
    FloorAbove(s, orig, lo, p);
    assert LaidAt(s, orig, lo, |s|, p);
    var x := orig[p];
    if x.payload.Text? {
      CStringFrom(s, t0, lo[p], x.payload.at);
    }
    assert Txt(t0, x) == Txt(s, x);
  }

  /** Line `k`, at and after which nothing was written, reads as it did. */
  lemma ChildText(d: Dialect, s: seq<char>, orig: seq<Node>, lo: seq<nat>, t0: seq<char>, t: seq<char>, p: nat, k: nat)
    requires Laid(s, orig, lo, |s|) && p < k < |orig| && |t0| == |t| == |s|
    requires Agree(s, t0, lo[p], |s|) && Agree(t0, t, lo[k], |s|)
    ensures Ordered(t, orig[k], lo[k]) && SlicedBefore(t, orig[k], Lo(lo, |s|, k + 1)) && Lo(lo, |s|, k + 1) <= |t|
    ensures Txt(t, orig[k]) == Txt(s, orig[k]) && TagIs(t, orig[k], "CONT") == TagIs(s, orig[k], "CONT")
    ensures Joins(d, t, orig[k]) == Joins(d, s, orig[k])
  {
    assert LaidAt(s, orig, lo, |s|, k);
    assert Agree(s, t, lo[k], |s|);
    PristineNode(d, s, t, orig[k], lo[k], Lo(lo, |s|, k + 1));
  }

  /**
   * While the loop goes on, its first child is line `k`: a folded child of
   * `p`, which the walk rejects exactly on the conditions of
   * parser.c:70-73 and 114-117.
   */
  lemma RunChild(d: Dialect, s: seq<char>, orig: seq<Node>, levels: seq<nat>, p: nat, k: nat, x: Node)
    requires Describes(orig, levels) && p < k < |orig| && !Folded(d, s, orig, p) && Joins(d, s, orig[k])
    requires if k == p + 1 then orig[p].firstChild == k
             else Folded(d, s, orig, k - 1) && orig[k - 1].parent == p && orig[k - 1].nextSibling == k
    requires x.payload.IsPointer() == orig[p].payload.IsPointer()
    ensures Folded(d, s, orig, k) && orig[k].parent == p
    ensures Bad(d, s, orig, k) <==>
      x.payload.IsPointer() || orig[k].id != Nil || orig[k].payload.IsPointer() || orig[k].firstChild != Nil
  {
    assert LinksOf(orig, levels, p);
    if k > p + 1 {
      assert LinksOf(orig, levels, k - 1);
    }
  }

  /** A folded child without children is followed by line k + 1 when that is still a child of `p`, else by none. */
  lemma RunNext(orig: seq<Node>, levels: seq<nat>, p: nat, k: nat)
    requires Describes(orig, levels) && p < k < |orig| && k < SubEnd(levels, p)
    requires orig[k].parent == p && orig[k].firstChild == Nil
    ensures orig[k].nextSibling == if k + 1 < SubEnd(levels, p) then k + 1 else Nil
  {
    ParentLevel(orig, levels, k);
    FirstChildLine(orig, levels, k);
    NextSiblingLine(orig, levels, k);
    assert SubEnd(levels, k) == k + 1;
  }

  /** Folding line `k`, which has no children, moves the run on to line k + 1. */
  lemma StepLines(d: Dialect, s: seq<char>, orig: seq<Node>, levels: seq<nat>, p: nat, k: nat)
    requires Describes(orig, levels) && p < |orig| && RunLines(d, s, orig, levels, p, k, k)
    requires Folded(d, s, orig, k) && !Bad(d, s, orig, k) && orig[k].parent == p
    ensures RunLines(d, s, orig, levels, p, k + 1, orig[k].nextSibling)
  {
    RunNext(orig, levels, p, k);
  }

  /** Folding line `k`'s text into the host as `Joined` says keeps the gathered text the expected one. */
  lemma StepHost(d: Dialect, s: seq<char>, orig: seq<Node>, t: seq<char>, t': seq<char>, p: nat, k: nat, x: Node, x1: Node)
    requires WF(orig) && p < k < |orig| && RunHost(d, s, orig, t, p, k, x) && Joins(d, s, orig[k])
    requires x1 == x.(payload := x1.payload) && (x1.payload == x.payload || (x.payload.NoPayload? && x1.payload.Text?))
    requires Txt(t', x1) == Joined(TagIs(s, orig[k], "CONT"), Txt(t, x), Txt(s, orig[k]))
    ensures RunHost(d, s, orig, t', p, orig[k].nextSibling, x1.(firstChild := orig[k].nextSibling))
  {
    assert Txt(t', x1.(firstChild := orig[k].nextSibling)) == Txt(t', x1);
  }

  /** The writes of one fold keep the buffer as the run needs it, up to line k + 1. */
  lemma StepBuffer(s: seq<char>, orig: seq<Node>, lo: seq<nat>, t0: seq<char>, t: seq<char>, t': seq<char>,
                   p: nat, k: nat, x: Node, nul: int, x1: Node, nul': int)
    requires Laid(s, orig, lo, |s|) && p < k < |orig| && RunBuffer(s, orig, lo, t0, t, p, k, x, nul)
    requires |t'| == |t| && Host(t', x1, nul', Floor(s, orig, lo, p), Lo(lo, |s|, k + 1))
    requires Agree(t, t', 0, Floor(s, orig, lo, p)) && Agree(t, t', Lo(lo, |s|, k + 1), |t|)
    ensures RunBuffer(s, orig, lo, t0, t', p, k + 1, x1.(firstChild := orig[k].nextSibling), nul')
  {
    LoGrows(s, orig, lo, k, k + 1);
  }

  /**
   * One pass of the fold loop: line `k` is folded into the host and
   * unlinked, the host's first child becoming its next sibling
   * (parser.c:74-100, 118-150).
   */
  method FoldStep(d: Dialect, buf: array<char>, ghost s: seq<char>, ghost orig: seq<Node>, ghost levels: seq<nat>,
                  ghost lo: seq<nat>, ghost t0: seq<char>, ghost p: nat, ghost k: nat, x: Node, nul: int, y: Node)
      returns (c': int, x': Node, nul': int)
    requires Setting(s, orig, levels, lo) && buf.Length == |s| && p < k < |orig| && y == orig[k]
    requires RunLines(d, s, orig, levels, p, k, k) && RunHost(d, s, orig, buf[..], p, k, x)
    requires RunBuffer(s, orig, lo, t0, buf[..], p, k, x, nul)
    requires Folded(d, s, orig, k) && !Bad(d, s, orig, k) && orig[k].parent == p && !x.payload.IsPointer()
    requires Child(d, buf[..], y, lo[k], Lo(lo, |s|, k + 1))
    requires Txt(buf[..], y) == Txt(s, y) && TagIs(buf[..], y, "CONT") == TagIs(s, y, "CONT")
    modifies buf
    ensures Run(d, s, orig, levels, lo, t0, buf[..], p, k + 1, c', x', nul')
  {
    ghost var t := buf[..];
    var x1;
    x1, nul' := FoldOne(d, buf, x, y, nul, lo[k], Lo(lo, |s|, k + 1), Floor(s, orig, lo, p));
    c' := y.nextSibling;
    x' := x1.(firstChild := c');
    StepLines(d, s, orig, levels, p, k);
    StepHost(d, s, orig, t, buf[..], p, k, x, x1);
    StepBuffer(s, orig, lo, t0, t, buf[..], p, k, x, nul, x1, nul');
  }

  /** When the loop stops, line `p` is kept as `KeptAt` says. */
  lemma RunKept(d: Dialect, s: seq<char>, orig: seq<Node>, levels: seq<nat>, lo: seq<nat>, t0: seq<char>, t: seq<char>,
                p: nat, k: nat, c: int, x: Node, nul: int)
    requires Setting(s, orig, levels, lo) && p < |orig| && Agree(s, t0, lo[p], |s|)
    requires Run(d, s, orig, levels, lo, t0, t, p, k, c, x, nul)
    requires c == Nil || (c < |orig| && !Joins(d, s, orig[c]))
    ensures KeptAt(d, s, orig, t, p, x, Lo(lo, |s|, k))
  {
    FloorAbove(s, orig, lo, p);
    LoGrows(s, orig, lo, p + 1, k);
    HostStrings(s, t, orig, lo, p);
  }

  /**
   * When the loop stops, the walk goes on into the first child left, which
   * is the next line, or the run has covered `p`'s whole subtree.
   */
  lemma RunExit(d: Dialect, s: seq<char>, orig: seq<Node>, levels: seq<nat>, lo: seq<nat>, t0: seq<char>, t: seq<char>,
                p: nat, k: nat, c: int, x: Node, nul: int)
    requires Setting(s, orig, levels, lo) && p < |orig|
    requires Run(d, s, orig, levels, lo, t0, t, p, k, c, x, nul)
    requires c == Nil || (c < |orig| && !Joins(d, s, orig[c]))
    ensures c == Nil ==> k == SubEnd(levels, p)
    ensures c != Nil ==> c == k && !Folded(d, s, orig, k) && Reach(levels, k) == SubEnd(levels, p)
  {
    if c != Nil {
      assert LinksOf(orig, levels, p);
      if k > p + 1 {
        assert Accepted(d, s, orig, p, k - 1);
        assert LinksOf(orig, levels, k - 1);
      }
      ParentLevel(orig, levels, k);
      UntilIs(levels, k + 1, levels[p] + 1, SubEnd(levels, p));
    }
  }

  /** When the loop stops over `t`, line `p` is kept and the walk goes on as `RunExit` says. */
  lemma RunDone(d: Dialect, s: seq<char>, orig: seq<Node>, levels: seq<nat>, lo: seq<nat>, t0: seq<char>, t: seq<char>,
                p: nat, k: nat, c: int, x: Node, nul: int)
    requires Setting(s, orig, levels, lo) && p < |orig| && Agree(s, t0, lo[p], |s|)
    requires Run(d, s, orig, levels, lo, t0, t, p, k, c, x, nul)
    requires c == Nil || (c < |orig| && !Joins(d, t, orig[c]))
    ensures KeptAt(d, s, orig, t, p, x, Lo(lo, |s|, k))
    ensures c == Nil ==> k == SubEnd(levels, p)
    ensures c != Nil ==> c == k && !Folded(d, s, orig, k) && Reach(levels, k) == SubEnd(levels, p)
  {
    if c != Nil {
      ChildText(d, s, orig, lo, t0, t, p, c);
    }
    RunKept(d, s, orig, levels, lo, t0, t, p, k, c, x, nul);
    RunExit(d, s, orig, levels, lo, t0, t, p, k, c, x, nul);
  }

  /**
   * One turn of the fold loop on the joining first child `y`, line `k`: it
   * is rejected on the conditions of parser.c:70-73 and 114-117, or folded.
   */
  method Advance(d: Dialect, buf: array<char>, ghost s: seq<char>, ghost orig: seq<Node>, ghost levels: seq<nat>,
                 ghost lo: seq<nat>, ghost t0: seq<char>, ghost p: nat, ghost k: nat, c: int, x: Node, nul: int, y: Node)
      returns (bad: bool, c': int, x': Node, nul': int, ghost k': nat)
    requires Setting(s, orig, levels, lo) && buf.Length == |s| && p < |orig| && !Folded(d, s, orig, p)
    requires Agree(s, t0, lo[p], |s|) && Run(d, s, orig, levels, lo, t0, buf[..], p, k, c, x, nul)
    requires c != Nil && c < |orig| && y == orig[c] && Joins(d, buf[..], y)
    modifies buf
    ensures c == k < SubEnd(levels, p)
    ensures bad ==> Bad(d, s, orig, k) && buf[..] == old(buf[..]) && c' == c && x' == x && nul' == nul && k' == k
    ensures !bad ==> k' == k + 1 && Run(d, s, orig, levels, lo, t0, buf[..], p, k', c', x', nul')
  {
    k' := k + 1;
    ChildText(d, s, orig, lo, t0, buf[..], p, c);
    if k > p + 1 {
      assert Accepted(d, s, orig, p, k - 1);
    }
    RunChild(d, s, orig, levels, p, k, x);
    bad := x.payload.IsPointer() || y.id != Nil || y.payload.IsPointer() || y.firstChild != Nil;
    if bad {
      c', x', nul', k' := c, x, nul, k;
    } else {
      c', x', nul' := FoldStep(d, buf, s, orig, levels, lo, t0, p, k, x, nul, y);
    }
  }

  /**
   * The loop of parser.c:67 (and 106) from the state `Run` describes: it
   * stops at a joining first child it rejects, or when the first child does
   * not join.
   */
  method FoldLoop(d: Dialect, buf: array<char>, ghost s: seq<char>, ghost orig: seq<Node>, ghost levels: seq<nat>,
                  ghost lo: seq<nat>, ghost t0: seq<char>, nodes: seq<Node>, p: nat, c0: int, x0: Node, line: nat)
      returns (bad: bool, c: int, x: Node, nul: int, ghost m: nat, line': nat)
    requires Setting(s, orig, levels, lo) && buf.Length == |s| && p < |orig| && !Folded(d, s, orig, p)
    requires |nodes| == |orig| && forall k :: p <= k < SubEnd(levels, p) ==> nodes[k] == orig[k]
    requires Agree(s, t0, lo[p], |s|) && Run(d, s, orig, levels, lo, t0, buf[..], p, p + 1, c0, x0, Nil)
    modifies buf
    ensures Run(d, s, orig, levels, lo, t0, buf[..], p, m, c, x, nul)
    ensures bad ==> c == m < SubEnd(levels, p) && Bad(d, s, orig, m) && line' == line + (m - p)
    ensures !bad ==> (c == Nil || (c < |orig| && !Joins(d, buf[..], orig[c]))) && line' == line + (m - p - 1)
  {
    bad := false;
    c, x, nul := c0, x0, Nil;
    m := p + 1;
    line' := line;
    while c != Nil && Joins(d, buf[..], nodes[c])
      invariant Run(d, s, orig, levels, lo, t0, buf[..], p, m, c, x, nul)
      invariant line' == line + (m - p - 1)
      decreases |orig| - m
    {
      line' := line' + 1;
      bad, c, x, nul, m := Advance(d, buf, s, orig, levels, lo, t0, p, m, c, x, nul, nodes[c]);
      if bad {
        break;
      }
    }
  }

  /**
   * The fold loop of parser.c:67-100 (and 106-149) at line `p`: while the
   * first child joins, it is counted, checked and folded in. It fails at the
   * first child the walk rejects; otherwise `p` is kept with its run folded.
   */
  method FoldRun(d: Dialect, buf: array<char>, ghost s: seq<char>, ghost orig: seq<Node>, ghost levels: seq<nat>,
                 ghost lo: seq<nat>, nodes: seq<Node>, p: nat, line: nat)
      returns (ok: bool, x: Node, ghost m: nat, line': nat)
    requires Setting(s, orig, levels, lo) && buf.Length == |s| && p < |orig| && !Folded(d, s, orig, p)
    requires |nodes| == |orig| && forall k :: p <= k < SubEnd(levels, p) ==> nodes[k] == orig[k]
    requires Agree(s, buf[..], lo[p], |s|)
    modifies buf
    ensures p < m <= SubEnd(levels, p)
    ensures forall j :: p < j < m ==> Accepted(d, s, orig, p, j)
    ensures !ok ==> m < SubEnd(levels, p) && Bad(d, s, orig, m) && line' == line + (m - p)
    ensures ok ==> line' == line + (m - p - 1) && KeptAt(d, s, orig, buf[..], p, x, Lo(lo, |s|, m))
    ensures ok ==> if x.firstChild == Nil then m == SubEnd(levels, p)
                   else x.firstChild == m && !Folded(d, s, orig, m) && Reach(levels, m) == SubEnd(levels, p)
    ensures Agree(old(buf[..]), buf[..], 0, lo[p]) && Agree(old(buf[..]), buf[..], Lo(lo, |s|, m), |s|)
  {
    ghost var t0 := buf[..];
    RunStart(d, s, orig, levels, lo, t0, p);
    var bad, c, nul;
    bad, c, x, nul, m, line' := FoldLoop(d, buf, s, orig, levels, lo, t0, nodes, p, nodes[p].firstChild, nodes[p], line);
    ok := !bad;
    if ok {
      RunDone(d, s, orig, levels, lo, t0, buf[..], p, m, c, x, nul);
    }
  }

  // --------------------------------------------------------------------- walk

  /** Line `k`, unless it is folded, is kept as `KeptAt` says over `t`, its strings ending before `z`. */
  predicate DoneAt(d: Dialect, s: seq<char>, orig: seq<Node>, t: seq<char>, nodes: seq<Node>, k: nat, z: nat)
    requires LinksInRange(orig) && k < |orig| == |nodes|
  {
    !Folded(d, s, orig, k) ==> KeptAt(d, s, orig, t, k, nodes[k], z)
  }

  /** Every line in [b, e) is done. */
  predicate Done(d: Dialect, s: seq<char>, orig: seq<Node>, t: seq<char>, nodes: seq<Node>, b: nat, e: nat, z: nat)
    requires LinksInRange(orig) && e <= |orig| == |nodes|
  {
    forall k :: b <= k < e ==> DoneAt(d, s, orig, t, nodes, k, z)
  }

  /** Writes at `z` or later leave a kept line kept. */
  lemma KeptMoves(d: Dialect, s: seq<char>, orig: seq<Node>, t: seq<char>, t': seq<char>, k: nat, x: Node, z: nat, z': nat)
    requires LinksInRange(orig) && k < |orig| && KeptAt(d, s, orig, t, k, x, z)
    requires |t'| == |t| && Agree(t, t', 0, z) && z <= z' <= |t|
    ensures KeptAt(d, s, orig, t', k, x, z')
  {
    StringKept(t, t', z, x.tag);
    if x.id != Nil {
      StringKept(t, t', z, x.id);
    }
    if x.payload.Text? || x.payload.PointerText? {
      StringKept(t, t', z, x.payload.at);
    }
    assert Txt(t', x) == Txt(t, x);
    assert SlicedBefore(t', x, z');
  }

  /** Writes at `z` or later, and changes to other nodes, leave the lines in [b, e) done. */
  lemma DoneMoves(d: Dialect, s: seq<char>, orig: seq<Node>, t: seq<char>, t': seq<char>, nodes: seq<Node>, nodes': seq<Node>,
                  b: nat, e: nat, z: nat, z': nat)
    requires LinksInRange(orig) && e <= |orig| == |nodes| == |nodes'| && Done(d, s, orig, t, nodes, b, e, z)
    requires |t'| == |t| && Agree(t, t', 0, z) && z <= z' <= |t|
    requires forall k :: b <= k < e ==> nodes'[k] == nodes[k]
    ensures Done(d, s, orig, t', nodes', b, e, z')
  {
    forall k | b <= k < e
      ensures DoneAt(d, s, orig, t', nodes', k, z')
    {
      assert DoneAt(d, s, orig, t, nodes, k, z);
      if !Folded(d, s, orig, k) {
        KeptMoves(d, s, orig, t, t', k, nodes[k], z, z');
      }
    }
  }

  /** Line `p` reads as it did while its region and what follows are untouched. */
  lemma VisitTag(d: Dialect, s: seq<char>, orig: seq<Node>, lo: seq<nat>, t: seq<char>, p: nat)
    requires Laid(s, orig, lo, |s|) && p < |orig| && |t| == |s| && Agree(s, t, lo[p], |s|)
    ensures Joins(d, t, orig[p]) == Joins(d, s, orig[p])
  {
    assert LaidAt(s, orig, lo, |s|, p);
    PristineNode(d, s, t, orig[p], lo[p], Lo(lo, |s|, p + 1));
  }

  /** A line the walk reaches itself and a run it accepts are not bad: the first bad line lies past them. */
  lemma PrefixGood(d: Dialect, s: seq<char>, orig: seq<Node>, p: nat, m: nat, e: nat)
    requires p < m <= e <= |orig| && !Folded(d, s, orig, p) && !Joins(d, s, orig[p])
    requires forall j :: p < j < m ==> Accepted(d, s, orig, p, j)
    ensures FirstBadIn(d, s, orig, p, e) == FirstBadIn(d, s, orig, m, e)
  {
    forall j | p <= j < m
      ensures !Bad(d, s, orig, j)
    {
      if j > p {
        assert Accepted(d, s, orig, p, j);
      }
    }
    FirstBadInNone(d, s, orig, p, m);
    FirstBadInSplit(d, s, orig, p, m, e);
  }

  /**
   * The walk of parser.c:63-104 (unCONT, for Strict) and 106-154
   * (unCONTCONC), from node `p`: `p` is counted and must not join, its run
   * is folded, then the walk goes on into its first child left and its next
   * sibling. From `p` it covers the lines [b, e) = [p, Reach(p)) (nothing
   * when `p` is Nil); it succeeds exactly when none of them is bad, and
   * otherwise stops with the line counter at the first bad one. When it
   * succeeds, every line in [b, e) that is not folded is kept as `KeptAt`
   * says. Only the nodes of [b, e) and the bytes of their regions change.
   */
  method UnCont(d: Dialect, buf: array<char>, ghost s: seq<char>, ghost orig: seq<Node>, ghost levels: seq<nat>,
                ghost lo: seq<nat>, nodes: seq<Node>, p: int, ghost b: nat, ghost e: nat, line: nat)
      returns (ok: bool, nodes': seq<Node>, line': nat)
    requires Setting(s, orig, levels, lo) && buf.Length == |s| && |nodes| == |orig| && IsRef(p, |orig|)
    requires if p == Nil then b == e <= |orig| else b == p && e == Reach(levels, p) && !Folded(d, s, orig, p)
    requires forall k :: b <= k < e ==> nodes[k] == orig[k]
    requires Agree(s, buf[..], Lo(lo, |s|, b), |s|)
    modifies buf
    ensures |nodes'| == |nodes| && forall k :: 0 <= k < |nodes| && !(b <= k < e) ==> nodes'[k] == nodes[k]
    ensures ok <==> FirstBadIn(d, s, orig, b, e) == e
    ensures line' == line + if ok then e - b else FirstBadIn(d, s, orig, b, e) - b + 1
    ensures ok ==> Done(d, s, orig, buf[..], nodes', b, e, Lo(lo, |s|, e))
    ensures Agree(old(buf[..]), buf[..], 0, Lo(lo, |s|, b)) && Agree(old(buf[..]), buf[..], Lo(lo, |s|, e), |s|)
    decreases e - b, 1
  {
    if p == Nil {
      return true, nodes, line;
    }
    var x;
    ghost var m;
    ghost var t0 := buf[..];
    ok, x, m, line' := Visit(d, buf, s, orig, levels, lo, nodes, p, line);
    LoGrows(s, orig, lo, m, e);
    nodes' := nodes;
    if ok {
      ghost var t1 := buf[..];
      ok, nodes', line' := Descend(d, buf, s, orig, levels, lo, nodes[p := x], p, x, m, e, line');
      AgreeChain(t0, t1, buf[..], Lo(lo, |s|, b), Lo(lo, |s|, m), Lo(lo, |s|, e));
    }
  }

  /** Two rounds of writes, each leaving [0, lo) and [hi, ...) alone, together leave them alone. */
  lemma AgreeChain(t0: seq<char>, t1: seq<char>, t2: seq<char>, lo: nat, mid: nat, hi: nat)
    requires lo <= mid <= hi && |t0| == |t1| == |t2|
    requires Agree(t0, t1, 0, lo) && Agree(t0, t1, mid, |t0|)
    requires Agree(t1, t2, 0, mid) && Agree(t1, t2, hi, |t1|)
    ensures Agree(t0, t2, 0, lo) && Agree(t0, t2, hi, |t0|)
  {
  }

  /**
   * The visit of line `p` (parser.c:64-101, 107-151): it is counted and
   * must not join; then its run is folded. On success the walk goes on from
   * line `m`, and the first bad line from `p` on is the first from `m` on.
   */
  method Visit(d: Dialect, buf: array<char>, ghost s: seq<char>, ghost orig: seq<Node>, ghost levels: seq<nat>,
               ghost lo: seq<nat>, nodes: seq<Node>, p: nat, line: nat)
      returns (ok: bool, x: Node, ghost m: nat, line': nat)
    requires Setting(s, orig, levels, lo) && buf.Length == |s| && |nodes| == |orig| && p < |orig| && !Folded(d, s, orig, p)
    requires forall k :: p <= k < Reach(levels, p) ==> nodes[k] == orig[k]
    requires Agree(s, buf[..], lo[p], |s|)
    modifies buf
    ensures p < m <= SubEnd(levels, p) <= Reach(levels, p)
    ensures !ok ==> (FirstBadIn(d, s, orig, p, Reach(levels, p)) < Reach(levels, p)
                     && line' == line + FirstBadIn(d, s, orig, p, Reach(levels, p)) - p + 1)
    ensures ok ==> (FirstBadIn(d, s, orig, p, Reach(levels, p)) == FirstBadIn(d, s, orig, m, Reach(levels, p))
                    && line' == line + (m - p))
    ensures ok ==> (forall j :: p < j < m ==> Accepted(d, s, orig, p, j)) && KeptAt(d, s, orig, buf[..], p, x, Lo(lo, |s|, m))
    ensures ok ==> if x.firstChild == Nil then m == SubEnd(levels, p)
                   else x.firstChild == m && !Folded(d, s, orig, m) && Reach(levels, m) == SubEnd(levels, p)
    ensures Agree(old(buf[..]), buf[..], 0, lo[p]) && Agree(old(buf[..]), buf[..], Lo(lo, |s|, m), |s|)
  {
    line' := line + 1;
    VisitTag(d, s, orig, lo, buf[..], p);
    SiblingReach(d, s, orig, levels, p);
    if Joins(d, buf[..], nodes[p]) {
      m := p + 1;
      LoGrows(s, orig, lo, p, m);
      return false, nodes[p], m, line';
    }
    ok, x, m, line' := FoldRun(d, buf, s, orig, levels, lo, nodes, p, line');
    PrefixGood(d, s, orig, p, m, Reach(levels, p));
  }

  /**
   * The two calls that end unCONT and unCONTCONC (parser.c:102-103,
   * 152-153) once line `p` is kept with its run [p + 1, m) folded: the walk
   * from its first child left covers the rest of its subtree, [m, q), and
   * the walk from its next sibling covers [q, e).
   */
  method Descend(d: Dialect, buf: array<char>, ghost s: seq<char>, ghost orig: seq<Node>, ghost levels: seq<nat>,
                 ghost lo: seq<nat>, nodes: seq<Node>, ghost p: nat, x: Node, ghost m: nat, ghost e: nat, line: nat)
      returns (ok: bool, nodes': seq<Node>, line': nat)
    requires Setting(s, orig, levels, lo) && buf.Length == |s| && |nodes| == |orig|
    requires p < |orig| && p < m <= SubEnd(levels, p) && e == Reach(levels, p) && !Folded(d, s, orig, p)
    requires forall j :: p < j < m ==> Accepted(d, s, orig, p, j)
    requires nodes[p] == x && KeptAt(d, s, orig, buf[..], p, x, Lo(lo, |s|, m))
    requires if x.firstChild == Nil then m == SubEnd(levels, p)
             else x.firstChild == m && !Folded(d, s, orig, m) && Reach(levels, m) == SubEnd(levels, p)
    requires forall k :: m <= k < e ==> nodes[k] == orig[k]
    requires Agree(s, buf[..], Lo(lo, |s|, m), |s|)
    modifies buf
    ensures |nodes'| == |nodes| && forall k :: 0 <= k < |nodes| && !(m <= k < e) ==> nodes'[k] == nodes[k]
    ensures ok <==> FirstBadIn(d, s, orig, m, e) == e
    ensures line' == line + if ok then e - m else FirstBadIn(d, s, orig, m, e) - m + 1
    ensures ok ==> Done(d, s, orig, buf[..], nodes', p, e, Lo(lo, |s|, e))
    ensures Agree(old(buf[..]), buf[..], 0, Lo(lo, |s|, m)) && Agree(old(buf[..]), buf[..], Lo(lo, |s|, e), |s|)
    decreases e - p, 0
  {
    ghost var q := SubEnd(levels, p);
    SiblingReach(d, s, orig, levels, p);
    ghost var t1 := buf[..];
    ok, nodes', line' := UnCont(d, buf, s, orig, levels, lo, nodes, x.firstChild, m, q, line);
    ghost var t2, n2 := buf[..], nodes';
    FirstBadInSplit(d, s, orig, m, q, e);
    LoGrows(s, orig, lo, m, q);
    if ok {
      ok, nodes', line' := UnCont(d, buf, s, orig, levels, lo, nodes', x.nextSibling, q, e, line');
      if ok {
        WalkDone(d, s, orig, levels, lo, t1, t2, buf[..], nodes, n2, nodes', p, x, m, q, e);
      }
    }
  }

  /** The lines the walk from `p` keeps, put together from the fold at `p` and the two walks after it. */
  lemma WalkDone(d: Dialect, s: seq<char>, orig: seq<Node>, levels: seq<nat>, lo: seq<nat>,
                 t1: seq<char>, t2: seq<char>, t3: seq<char>, nodes: seq<Node>, n2: seq<Node>, n3: seq<Node>,
                 p: nat, x: Node, m: nat, q: nat, e: nat)
    requires Setting(s, orig, levels, lo) && p < m <= q <= e <= |orig| && |nodes| == |n2| == |n3| == |orig|
    requires |t1| == |t2| == |t3| == |s|
    requires forall j :: p < j < m ==> Accepted(d, s, orig, p, j)
    requires KeptAt(d, s, orig, t1, p, x, Lo(lo, |s|, m))
    requires n2[p] == x && Done(d, s, orig, t2, n2, m, q, Lo(lo, |s|, q)) && Done(d, s, orig, t3, n3, q, e, Lo(lo, |s|, e))
    requires Agree(t1, t2, 0, Lo(lo, |s|, m)) && Agree(t2, t3, 0, Lo(lo, |s|, q))
    requires forall k :: 0 <= k < |n2| && !(q <= k < e) ==> n3[k] == n2[k]
    ensures Done(d, s, orig, t3, n3, p, e, Lo(lo, |s|, e))
  {
    LoGrows(s, orig, lo, m, q);
    LoGrows(s, orig, lo, q, e);
    DoneMoves(d, s, orig, t2, t3, n2, n3, m, q, Lo(lo, |s|, q), Lo(lo, |s|, e));
    KeptMoves(d, s, orig, t1, t3, p, x, Lo(lo, |s|, m), Lo(lo, |s|, e));
    forall k | p <= k < e
      ensures DoneAt(d, s, orig, t3, n3, k, Lo(lo, |s|, e))
    {
      if p < k < m {
        assert Accepted(d, s, orig, p, k);
      }
    }
  }
}
