/**
 * The line loop of parseGEDCOM (parser.c:351-434): each line's level decides
 * where its node hangs in the forest, and the line's parts are sliced out of
 * the buffer in place.
 */
module Build {
  import opened GedcomTypes
  import opened Scanners
  import opened LineParts
  import opened Forest
  import opened Outline
  import opened Grammar
  import opened Assembly

  /**
   * Closes the nodes deeper than a new line at level `l` (parser.c:360-364):
   * from the last line, open at `depth`, climb to the node open at `l - 1`;
   * the last node given up on is the new node's previous sibling.
   */
  method PopTo(nodes: seq<Node>, ghost levels: seq<nat>, l: nat, depth0: int, parent0: int) returns (parent: int, sibling: int)
    requires Describes(nodes, levels) && -1 <= depth0 && l <= depth0 + 1
    requires OpenAt(levels, parent0, depth0)
    requires |nodes| == 0 ==> depth0 == -1
    requires |nodes| > 0 ==> parent0 == |nodes| - 1
    ensures OpenAt(levels, parent, l - 1) && IsRef(parent, |nodes|) && IsRef(sibling, |nodes|)
    ensures sibling == Nil ==> |nodes| == 0 || parent == |nodes| - 1
    ensures sibling != Nil ==> OpenAt(levels, sibling, l) && nodes[sibling].parent == parent
  {
    parent, sibling := parent0, Nil;
    var depth := depth0;
    while l < depth + 1
      invariant -1 <= depth && l <= depth + 1
      invariant OpenAt(levels, parent, depth)
      invariant sibling == Nil ==> depth == depth0 && parent == parent0
      invariant sibling != Nil ==> OpenAt(levels, sibling, depth + 1) && nodes[sibling].parent == parent
      decreases depth
    {
      OpenUp(nodes, levels, parent, depth);
      sibling := parent;
      if parent != Nil {
        parent := nodes[parent].parent;
      }
      depth := depth - 1;
    }
  }

  /** Every node holds strings of its dialect's syntax, each ending with a NUL before `hi`. */
  predicate Sliced(d: Dialect, s: seq<char>, nodes: seq<Node>, levels: seq<nat>, hi: nat)
  {
    && |levels| == |nodes|
    && forall k :: 0 <= k < |nodes| ==> SlicedAt(d, s, nodes, levels, hi, k)
  }

  /** Node k holds strings of its dialect's syntax, each ending with a NUL before `hi`. */
  predicate SlicedAt(d: Dialect, s: seq<char>, nodes: seq<Node>, levels: seq<nat>, hi: nat, k: nat)
    requires k < |nodes| == |levels|
  {
    NodeSyntax(d, s, nodes[k], levels[k]) && SlicedBefore(s, nodes[k], hi)
  }

  /** A C string whose NUL lies at or before `c`, where the byte is not NUL, ends before `c`. */
  lemma EndsBeforeTight(s: seq<char>, k: int, c: nat)
    requires EndsBefore(s, k, c + 1) && c < |s| && s[c] != NUL
    ensures EndsBefore(s, k, c)
  {
  }

  /** Slicing a line that starts at `c` leaves a node of a line before it as it was. */
  lemma NodeKept(d: Dialect, s: seq<char>, t: seq<char>, node: Node, level: nat, c: nat, hi: nat)
    requires NodeSyntax(d, s, node, level) && SlicedBefore(s, node, c + 1) && c < |s| == |t| && s[c] != NUL
    requires Agree(s, t, 0, c) && c < hi
    ensures NodeSyntax(d, t, node, level) && SlicedBefore(t, node, hi)
  {
    EndsBeforeTight(s, node.tag, c);
    if node.id != Nil {
      EndsBeforeTight(s, node.id, c);
    }
    if node.payload.Text? || node.payload.PointerText? {
      EndsBeforeTight(s, node.payload.at, c);
    }
    SlicesKept(d, s, t, c, node, level);
  }

  /** Slicing a line that starts at `c` leaves the nodes of the lines before it as they were. */
  lemma SlicedKeep(d: Dialect, s: seq<char>, t: seq<char>, nodes: seq<Node>, levels: seq<nat>, c: nat, hi: nat)
    requires Sliced(d, s, nodes, levels, c + 1) && c < |s| == |t| && s[c] != NUL
    requires Agree(s, t, 0, c) && c < hi
    ensures Sliced(d, t, nodes, levels, hi)
  {
    forall k | 0 <= k < |nodes|
      ensures SlicedAt(d, t, nodes, levels, hi, k)
    {
      assert SlicedAt(d, s, nodes, levels, c + 1, k);
      NodeKept(d, s, t, nodes[k], levels[k], c, hi);
    }
  }

  /** Linking a node in changes none of the strings of the others. */
  lemma SlicedAttach(d: Dialect, s: seq<char>, nodes: seq<Node>, levels: seq<nat>, hi: nat, sibling: int, node: Node, l: nat)
    requires Sliced(d, s, nodes, levels, hi) && IsRef(sibling, |nodes|) && IsRef(node.parent, |nodes|)
    requires NodeSyntax(d, s, node, l) && SlicedBefore(s, node, hi)
    ensures Sliced(d, s, Attach(nodes, sibling, node), levels + [l], hi)
  {
    var r := Attach(nodes, sibling, node);
    forall k | 0 <= k < |r|
      ensures SlicedAt(d, s, r, levels + [l], hi, k)
    {
      if k < |nodes| {
        assert SlicedAt(d, s, nodes, levels, hi, k);
      }
    }
  }

  /** A node's strings that end before `hi` end before any later bound. */
  lemma SlicedWiden(d: Dialect, s: seq<char>, nodes: seq<Node>, levels: seq<nat>, hi: nat, hi': nat)
    requires Sliced(d, s, nodes, levels, hi) && hi <= hi'
    ensures Sliced(d, s, nodes, levels, hi')
  {
    forall k | 0 <= k < |nodes|
      ensures SlicedAt(d, s, nodes, levels, hi', k)
    {
      assert SlicedAt(d, s, nodes, levels, hi, k);
    }
  }

  /** Node `k` of `b` holds the strings and payload node `k` of `a` held. */
  predicate KeepsAt(a: seq<Node>, b: seq<Node>, k: nat)
    requires k < |a| <= |b|
  {
    a[k].tag == b[k].tag && a[k].id == b[k].id && a[k].payload == b[k].payload
  }

  /** Linking nodes in changes only links: every earlier node holds the strings and payload it held. */
  predicate Keeps(a: seq<Node>, b: seq<Node>)
  {
    |a| <= |b| && forall k :: 0 <= k < |a| ==> KeepsAt(a, b, k)
  }

  lemma AttachKeeps(nodes: seq<Node>, sibling: int, node: Node)
    requires IsRef(sibling, |nodes|) && IsRef(node.parent, |nodes|)
    ensures Keeps(nodes, Attach(nodes, sibling, node))
  {
    var r := Attach(nodes, sibling, node);
    forall k | 0 <= k < |nodes|
      ensures KeepsAt(nodes, r, k)
    {
    }
  }

  /** A node whose strings end before `hi`, at most one past `c`, keeps them when bytes from `c` on change. */
  lemma OrderedKept(s: seq<char>, t: seq<char>, x: Node, a: nat, hi: nat, c: nat)
    requires Ordered(s, x, a) && SlicedBefore(s, x, hi) && hi <= c + 1
    requires c < |s| == |t| && s[c] != NUL && Agree(s, t, 0, c)
    ensures Ordered(t, x, a) && SlicedBefore(t, x, if hi <= c then hi else c)
  {
    if hi == c + 1 {
      EndsBeforeTight(s, x.tag, c);
      if x.id != Nil {
        EndsBeforeTight(s, x.id, c);
      }
      if x.payload.Text? || x.payload.PointerText? {
        EndsBeforeTight(s, x.payload.at, c);
      }
    }
    StringKept(s, t, c, x.tag);
    if x.id != Nil {
      StringKept(s, t, c, x.id);
    }
    if x.payload.Text? || x.payload.PointerText? {
      StringKept(s, t, c, x.payload.at);
    }
  }

  /** One old node, cut before `c`, keeps its region once the line at `c` is laid after it. */
  lemma LaidAtKept(s: seq<char>, t: seq<char>, nodes: seq<Node>, nodes': seq<Node>, lo: seq<nat>, c: nat, next: nat, k: nat)
    requires k < |nodes| == |lo| && |nodes'| == |lo| + 1 && c < next
    requires LaidAt(s, nodes, lo, c + 1, k) && KeepsAt(nodes, nodes', k) && Lo(lo, c + 1, k + 1) <= c + 1
    requires c < |s| == |t| && s[c] != NUL && Agree(s, t, 0, c)
    ensures LaidAt(t, nodes', lo + [c], next + 1, k)
  {
    OrderedKept(s, t, nodes[k], lo[k], Lo(lo, c + 1, k + 1), c);
    assert Lo(lo + [c], next + 1, k + 1) == if k + 1 < |lo| then lo[k + 1] else c;
  }

  /** Starting the line at `c` after every earlier one keeps the starts increasing and below the new bound. */
  lemma StartsExtend(lo: seq<nat>, c: nat, hi: nat)
    requires (forall i, j :: 0 <= i < j < |lo| ==> lo[i] < lo[j]) && (|lo| > 0 ==> lo[|lo| - 1] < c) && c < hi
    ensures forall i, j :: 0 <= i < j < |lo + [c]| ==> (lo + [c])[i] < (lo + [c])[j]
    ensures forall i :: 0 <= i < |lo + [c]| ==> (lo + [c])[i] < hi
  {
    var lo' := lo + [c];
    forall i | 0 <= i < |lo'|
      ensures lo'[i] <= c
    {
      if i < |lo| - 1 {
        assert lo[i] < lo[|lo| - 1];
      }
    }
  }

  /** The old nodes, cut before `c`, keep their regions; the node of the line at `c` gets [c, next]. */
  lemma LaidStep(s: seq<char>, t: seq<char>, nodes: seq<Node>, lo: seq<nat>, c: nat, nodes': seq<Node>, next: nat)
    requires Laid(s, nodes, lo, c + 1) && (|lo| > 0 ==> lo[|lo| - 1] < c)
    requires c < |s| == |t| && s[c] != NUL && Agree(s, t, 0, c)
    requires Keeps(nodes, nodes') && |nodes'| == |nodes| + 1 && c < next < |t|
    requires Ordered(t, nodes'[|nodes|], c) && SlicedBefore(t, nodes'[|nodes|], next + 1)
    ensures Laid(t, nodes', lo + [c], next + 1)
  {
    var lo', hi' := lo + [c], next + 1;
    StartsExtend(lo, c, hi');
    forall k | 0 <= k < |nodes|
      ensures LaidAt(t, nodes', lo', hi', k)
    {
      assert LaidAt(s, nodes, lo, c + 1, k) && KeepsAt(nodes, nodes', k);
      LaidAtKept(s, t, nodes, nodes', lo, c, next, k);
    }
    assert LaidAt(t, nodes', lo', hi', |nodes|);
  }

  /** A line that grows the forest keeps the regions laid out, its own starting at `c`. */
  lemma GrownLaid(d: Dialect, s: seq<char>, t: seq<char>, nodes: seq<Node>, levels: seq<nat>, lo: seq<nat>, c: nat,
                  p: Progress, levels': seq<nat>)
    requires Laid(s, nodes, lo, c + 1) && (|lo| > 0 ==> lo[|lo| - 1] < c)
    requires c < |s| == |t| && s[c] != NUL && Agree(s, t, 0, c) && c < p.next < |t|
    requires Grown(d, t, nodes, levels, c, p, levels')
    ensures Laid(t, p.nodes, lo + [c], p.next + 1)
  {
    assert SlicedAt(d, t, p.nodes, levels', p.next + 1, |nodes|);
    LaidStep(s, t, nodes, lo, c, p.nodes, p.next);
  }

  /** Regions laid out before `hi` are laid out before any later bound within the buffer. */
  lemma LaidWiden(s: seq<char>, nodes: seq<Node>, lo: seq<nat>, hi: nat, hi': nat)
    requires Laid(s, nodes, lo, hi) && hi <= hi' <= |s|
    ensures Laid(s, nodes, lo, hi')
  {
    forall k | 0 <= k < |nodes|
      ensures LaidAt(s, nodes, lo, hi', k)
    {
      assert LaidAt(s, nodes, lo, hi, k);
    }
  }

  /** The last line is open at its own level. */
  lemma LastOpen(nodes: seq<Node>, levels: seq<nat>)
    requires Describes(nodes, levels) && |nodes| > 0
    ensures OpenAt(levels, |nodes| - 1, levels[|nodes| - 1])
  {
  }

  /** The state the loop of parseGEDCOM carries from one line to the next. */
  datatype Progress = Progress(nodes: seq<Node>, next: nat, line: nat, depth: int)

  /** The node open at the current depth: the last line, or Nil before the first. */
  function LastNode(nodes: seq<Node>): int
  {
    if |nodes| == 0 then Nil else |nodes| - 1
  }

  /** The current depth: the last line's level, or -1 before the first. */
  function Depth(levels: seq<nat>): int
  {
    if |levels| == 0 then -1 else levels[|levels| - 1]
  }

  /**
   * What a line adds to the forest: one node, linked in where its level `l`
   * puts it, with strings sliced before `next`, laid out after `c`, and the
   * earlier nodes holding the strings they held.
   */
  predicate Grown(d: Dialect, s: seq<char>, nodes: seq<Node>, levels: seq<nat>, c: nat, p: Progress, levels': seq<nat>)
  {
    && |p.nodes| == |nodes| + 1 && levels' == levels + [p.depth] && p.depth >= 0
    && Describes(p.nodes, levels')
    && Sliced(d, s, p.nodes, levels', p.next + 1)
    && Keeps(nodes, p.nodes) && Ordered(s, p.nodes[|nodes|], c)
  }

  /** Linking in the node of a line whose parts `p` were read from `at` on grows the forest. */
  lemma LinkedGrown(d: Dialect, s: seq<char>, t: seq<char>, nodes: seq<Node>, levels: seq<nat>, c: nat, at: nat, l: nat,
                    line: nat, parent: int, sibling: int, p: Parts)
    requires Describes(nodes, levels) && Sliced(d, s, nodes, levels, c + 1)
    requires c <= at && c < |s| == |t| && s[c] != NUL && Agree(s, t, 0, c) && c < p.next
    requires if |nodes| == 0 then l == 0 else l <= levels[|nodes| - 1] + 1
    requires OpenAt(levels, parent, l - 1) && IsRef(parent, |nodes|) && IsRef(sibling, |nodes|)
    requires sibling == Nil ==> |nodes| == 0 || parent == |nodes| - 1
    requires sibling != Nil ==> OpenAt(levels, sibling, l) && nodes[sibling].parent == parent
    requires NodeSyntax(d, t, p.Node(Nil), l) && SlicedBefore(t, p.Node(Nil), p.next + 1) && Ordered(t, p.Node(Nil), at)
    ensures Grown(d, t, nodes, levels, c, Progress(Attach(nodes, sibling, p.Node(parent)), p.next, line + p.breaks, l), levels + [l])
  {
    var node := p.Node(parent);
    AttachKeepsOutline(nodes, levels, l, sibling, node);
    SlicedLinked(d, s, t, nodes, levels, c, p.next + 1, sibling, node, l);
    AttachKeeps(nodes, sibling, node);
  }

  /** The nodes sliced before `c`, kept when only bytes from `c` on change, and a node sliced before `hi` linked in after them. */
  lemma SlicedLinked(d: Dialect, s: seq<char>, t: seq<char>, nodes: seq<Node>, levels: seq<nat>, c: nat, hi: nat,
                     sibling: int, node: Node, l: nat)
    requires Sliced(d, s, nodes, levels, c + 1) && c < |s| == |t| && s[c] != NUL && Agree(s, t, 0, c) && c < hi
    requires IsRef(sibling, |nodes|) && IsRef(node.parent, |nodes|)
    requires NodeSyntax(d, t, node, l) && SlicedBefore(t, node, hi)
    ensures Sliced(d, t, Attach(nodes, sibling, node), levels + [l], hi)
  {
    SlicedKeep(d, s, t, nodes, levels, c, hi);
    SlicedAttach(d, t, nodes, levels, hi, sibling, node, l);
  }

  /** The node made from a line with parts `p` holds its tag, id and payload. */
  predicate Made(node: Node, p: Parts)
  {
    node.tag == p.tag && node.id == p.id && node.payload == p.payload
  }

  /**
   * Node k was made from line k of `xs`, and its strings, sliced into `t`,
   * hold what that line holds in `s`.
   */
  predicate Records(d: Dialect, s: seq<char>, t: seq<char>, nodes: seq<Node>, xs: seq<Line>)
  {
    |nodes| == |xs| && forall k :: 0 <= k < |nodes| ==> RecordAt(d, s, t, nodes, xs, k)
  }

  predicate RecordAt(d: Dialect, s: seq<char>, t: seq<char>, nodes: seq<Node>, xs: seq<Line>, k: nat)
    requires k < |nodes| == |xs|
  {
    Made(nodes[k], xs[k].parts) && Holds(d, s, t, xs[k].parts)
  }

  /** What a node sliced before `c` holds is kept when only bytes from `c` on change. */
  lemma RecordKept(d: Dialect, s: seq<char>, t: seq<char>, u: seq<char>, node: Node, p: Parts, c: nat)
    requires Made(node, p) && Holds(d, s, t, p) && SlicedBefore(t, node, c + 1)
    requires c < |t| == |u| && t[c] != NUL && Agree(t, u, 0, c)
    ensures Holds(d, s, u, p)
  {
    EndsBeforeTight(t, node.tag, c);
    StringKept(t, u, c, node.tag);
    if node.id != Nil {
      EndsBeforeTight(t, node.id, c);
      StringKept(t, u, c, node.id);
    }
    if node.payload.Text? || node.payload.PointerText? {
      EndsBeforeTight(t, node.payload.at, c);
      StringKept(t, u, c, node.payload.at);
    }
  }

  /** Slicing a line that starts at `c` keeps what the nodes of the lines before it hold. */
  lemma RecordsKept(d: Dialect, s: seq<char>, t: seq<char>, u: seq<char>, nodes: seq<Node>, levels: seq<nat>, xs: seq<Line>, c: nat)
    requires Records(d, s, t, nodes, xs) && Sliced(d, t, nodes, levels, c + 1)
    requires c < |t| == |u| && t[c] != NUL && Agree(t, u, 0, c)
    ensures Records(d, s, u, nodes, xs)
  {
    forall k | 0 <= k < |nodes|
      ensures RecordAt(d, s, u, nodes, xs, k)
    {
      assert RecordAt(d, s, t, nodes, xs, k) && SlicedAt(d, t, nodes, levels, c + 1, k);
      RecordKept(d, s, t, u, nodes[k], xs[k].parts, c);
    }
  }

  /** Linking in the node made from line `x` adds its record after the others. */
  lemma RecordsGrow(d: Dialect, s: seq<char>, t: seq<char>, nodes: seq<Node>, nodes': seq<Node>, xs: seq<Line>, x: Line)
    requires Records(d, s, t, nodes, xs) && Keeps(nodes, nodes') && |nodes'| == |nodes| + 1
    requires Made(nodes'[|nodes|], x.parts) && Holds(d, s, t, x.parts)
    ensures Records(d, s, t, nodes', xs + [x])
  {
    var xs' := xs + [x];
    forall k | 0 <= k < |nodes'|
      ensures RecordAt(d, s, t, nodes', xs', k)
    {
      if k < |nodes| {
        assert RecordAt(d, s, t, nodes, xs, k) && KeepsAt(nodes, nodes', k);
      }
    }
  }

  /** Line k of `xs` is at level `levels[k]` and starts at `lo[k]`. */
  predicate Traced(xs: seq<Line>, levels: seq<nat>, lo: seq<nat>)
  {
    |levels| == |xs| && |lo| == |xs| && forall k :: 0 <= k < |xs| ==> levels[k] == xs[k].level && lo[k] == xs[k].start
  }

  /** One line more, its level and start last. */
  lemma TracedSnoc(xs: seq<Line>, levels: seq<nat>, lo: seq<nat>, x: Line)
    requires Traced(xs, levels, lo)
    ensures Traced(xs + [x], levels + [x.level], lo + [x.start])
  {
  }

  /**
   * The parts of the line at `c` (parser.c:367-422), read and sliced out
   * from `at`, where its level, `l`, ends. The line is refused exactly when
   * the reading from `c` stops there, with that error; otherwise the reading
   * from `c` is the line the parts make, then the reading after it, and
   * the parts' strings hold what the line holds in `s`.
   */
  method CutLine(d: Dialect, buf: array<char>, ghost s: seq<char>, ghost c: nat, ghost depth: int, ghost n: nat,
                 at: nat, l: nat, line: nat)
    returns (r: Result<Parts>)
    requires Terminated(buf[..]) && Terminated(s) && c < |s| && s[c] != NUL && at < buf.Length && SameFrom(s, buf[..], at)
    requires n == LevelAt(d, s, LevelStart(d, s, c)).0 && l == LevelAt(d, s, LevelStart(d, s, c)).1 && at == LevelEnd(d, s, c)
    requires n != 0 && l <= depth + 1
    modifies buf
    ensures Terminated(buf[..]) && Agree(old(buf[..]), buf[..], 0, at)
    ensures r.Err? ==> LinesFrom(d, s, c, depth, line) == Stopped(r.error)
    ensures r.Ok? ==> PartsAt(d, s, at, l) == Accept(r.value) && at <= r.value.tag < r.value.next < |s|
    ensures r.Ok? ==> Continues(d, s, Line(c, l, r.value), line, LinesFrom(d, s, c, depth, line))
    ensures r.Ok? ==> Holds(d, s, buf[..], r.value) && SameFrom(s, buf[..], r.value.next)
    ensures r.Ok? ==> var node := r.value.Node(Nil);
      NodeSyntax(d, buf[..], node, l) && SlicedBefore(buf[..], node, r.value.next + 1) && Ordered(buf[..], node, at)
  {
    ghost var t := buf[..];
    r := ScanLine(d, buf, s, at, l, line);
    if r.Err? {
      PartsStop(d, s, c, depth, line, n, l, PartsAt(d, s, at, l));
    } else {
      LineCutHolds(d, s, t, at, l, r.value);
      PartsGo(d, s, c, depth, line, n, l, PartsAt(d, s, at, l));
    }
  }

  /**
   * The second half of one pass of the loop (parser.c:367-434): the line at
   * `c`, whose level `l` ends at `at`, read and linked in under `parent`
   * after `sibling`. A refused line is where the reading from `c` stops,
   * with that error; otherwise the line `x` the reading from `c` starts
   * with is linked in as the new last node, made from its parts, its
   * strings holding what the line holds in `s`.
   */
  method LinkLine(d: Dialect, buf: array<char>, ghost s: seq<char>, ghost c: nat, ghost depth: int, ghost n: nat,
                  at: nat, l: nat, line: nat, parent: int, sibling: int, nodes: seq<Node>, ghost levels: seq<nat>)
    returns (r: Result<Progress>, ghost levels': seq<nat>, ghost x: Line)
    requires Terminated(buf[..]) && Terminated(s) && c < buf.Length && buf[c] != NUL && at < buf.Length && SameFrom(s, buf[..], c)
    requires n == LevelAt(d, s, LevelStart(d, s, c)).0 && l == LevelAt(d, s, LevelStart(d, s, c)).1 && at == LevelEnd(d, s, c)
    requires n != 0 && l <= depth + 1
    requires Describes(nodes, levels) && Sliced(d, buf[..], nodes, levels, c + 1)
    requires if |nodes| == 0 then l == 0 else l <= levels[|nodes| - 1] + 1
    requires OpenAt(levels, parent, l - 1) && IsRef(parent, |nodes|) && IsRef(sibling, |nodes|)
    requires sibling == Nil ==> |nodes| == 0 || parent == |nodes| - 1
    requires sibling != Nil ==> OpenAt(levels, sibling, l) && nodes[sibling].parent == parent
    modifies buf
    ensures Terminated(buf[..]) && Agree(old(buf[..]), buf[..], 0, c)
    ensures r.Err? ==> LinesFrom(d, s, c, depth, line) == Stopped(r.error)
    ensures r.Ok? ==> x.start == c < x.parts.next < |s| && x.level == l && PartsAt(d, s, LevelEnd(d, s, c), l) == Accept(x.parts)
    ensures r.Ok? ==> Continues(d, s, x, line, LinesFrom(d, s, c, depth, line))
    ensures r.Ok? ==> |r.value.nodes| == |nodes| + 1 && Made(r.value.nodes[|nodes|], x.parts)
    ensures r.Ok? ==> r.value.next == x.parts.next && r.value.line == line + x.parts.breaks && r.value.depth == l
    ensures r.Ok? ==> Holds(d, s, buf[..], x.parts) && SameFrom(s, buf[..], x.parts.next)
    ensures r.Ok? ==> Grown(d, buf[..], nodes, levels, c, r.value, levels')
  {
    levels' := levels + [l];
    x :| true;  // any line, until one is read
    ghost var t := buf[..];
    SameFromLater(s, buf[..], c, at);
    var parts := CutLine(d, buf, s, c, depth, n, at, l, line);
    if parts.Err? {
      return Err(parts.error), levels', x;
    }
    var p := parts.value;
    x := Line(c, l, p);
    LinkedGrown(d, t, buf[..], nodes, levels, c, at, l, line, parent, sibling, p);
    r := Ok(Progress(Attach(nodes, sibling, p.Node(parent)), p.next, line + p.breaks, l));
  }

  /** Where the level of the line at `c` starts, how many bytes it spans and its value, read from the buffer. */
  method ReadLevel(d: Dialect, buf: array<char>, ghost s: seq<char>, c: nat) returns (at: nat, n: nat, l: nat)
    requires Terminated(buf[..]) && Terminated(s) && c < buf.Length && SameFrom(s, buf[..], c)
    ensures at == LevelStart(d, s, c) && n == LevelAt(d, s, at).0 && l == LevelAt(d, s, at).1
    ensures at + n == LevelEnd(d, s, c) && SameFrom(s, buf[..], at + n)
  {
    var a := ScanLstart(d, buf, c);
    LevelStartIs(d, s, buf[..], c, a);
    at := c + a;
    n, l := ScanLevel(d, buf, at);
    SameFromLater(s, buf[..], c, at);
    LevelIs(d, s, buf[..], at, n, l);
    SameFromLater(s, buf[..], c, at + n);
  }

  /**
   * One pass of the loop of parseGEDCOM (parser.c:351-434), at line number
   * `line`, on the line at `c` after a line at `depth`: its level starts at
   * `at`, takes `n` bytes and is `l`. A missing level is refused with
   * MissingLevel, one that skips a level with SkippedLevel; every refusal
   * is where the reading from `c` stops, with that error. Otherwise the
   * line `x` the reading from `c` starts with is linked in: its node, made
   * from its parts, is the new last node, its strings hold what the line
   * holds in `s`, and the next line starts where it ends, numbered after
   * its line breaks, at its level.
   */
  method ParseLine(d: Dialect, buf: array<char>, ghost s: seq<char>, c: nat, line: nat, depth: int, nodes: seq<Node>, ghost levels: seq<nat>)
    returns (r: Result<Progress>, ghost levels': seq<nat>, ghost x: Line, ghost at: nat, ghost n: nat, ghost l: nat)
    requires Terminated(buf[..]) && Terminated(s) && c < buf.Length && buf[c] != NUL && SameFrom(s, buf[..], c)
    requires depth == Depth(levels) && Describes(nodes, levels) && Sliced(d, buf[..], nodes, levels, c + 1)
    modifies buf
    ensures at == LevelStart(d, s, c) && n == LevelAt(d, s, at).0 && l == LevelAt(d, s, at).1
    ensures Terminated(buf[..]) && Agree(old(buf[..]), buf[..], 0, c)
    ensures n == 0 ==> r == Err(ParseError(MissingLevel, line))
    ensures n != 0 && l > depth + 1 ==> r == Err(ParseError(SkippedLevel, line))
    ensures r.Err? ==> LinesFrom(d, s, c, depth, line) == Stopped(r.error)
    ensures r.Ok? ==> x.start == c < x.parts.next < |s| && x.level == l && PartsAt(d, s, LevelEnd(d, s, c), l) == Accept(x.parts)
    ensures r.Ok? ==> Continues(d, s, x, line, LinesFrom(d, s, c, depth, line))
    ensures r.Ok? ==> |r.value.nodes| == |nodes| + 1 && Made(r.value.nodes[|nodes|], x.parts)
    ensures r.Ok? ==> r.value.next == x.parts.next && r.value.line == line + x.parts.breaks && r.value.depth == l
    ensures r.Ok? ==> Holds(d, s, buf[..], x.parts) && SameFrom(s, buf[..], x.parts.next)
    ensures r.Ok? ==> Grown(d, buf[..], nodes, levels, c, r.value, levels')
  {
    levels' := levels;
    x :| true;  // any line, until one is read
    var start, width, level := ReadLevel(d, buf, s, c);
    at, n, l := start, width, level;
    if width == 0 {
      LevelStops(d, s, c, depth, line, n, l);
      return Err(ParseError(MissingLevel, line)), levels', x, at, n, l;
    }
    if level > depth + 1 {
      LevelStops(d, s, c, depth, line, n, l);
      return Err(ParseError(SkippedLevel, line)), levels', x, at, n, l;
    }
    if |nodes| > 0 {
      LastOpen(nodes, levels);
    }
    // parser.c's `parent` is the last node here, and `sibling` is null.
    var parent, sibling := PopTo(nodes, levels, level, depth, LastNode(nodes));
    r, levels', x := LinkLine(d, buf, s, c, depth, n, start + width, level, line, parent, sibling, nodes, levels);
  }


  /**
   * What the loop of parseGEDCOM has built once the lines `done` are read
   * and the next line starts at `c`: from `c` on the buffer `t` still holds
   * the bytes `s` held before parsing; the nodes are the forest the levels of
   * `done` describe, node k made from line k and holding what that line
   * holds; and each node's strings lie in its line's region, before `c`.
   */
  predicate Built(d: Dialect, s: seq<char>, t: seq<char>, nodes: seq<Node>, levels: seq<nat>, lo: seq<nat>, done: seq<Line>, c: nat)
  {
    && SameFrom(s, t, c)
    && Describes(nodes, levels) && Sliced(d, t, nodes, levels, c + 1)
    && Records(d, s, t, nodes, done) && Traced(done, levels, lo)
    && Laid(t, nodes, lo, c + 1) && (|lo| > 0 ==> lo[|lo| - 1] < c)
  }

  /** A line `x` read at `c` and linked in as ParseLine links it extends what is built by its node. */
  lemma BuiltStep(d: Dialect, s: seq<char>, t: seq<char>, u: seq<char>, nodes: seq<Node>, levels: seq<nat>, lo: seq<nat>,
                  done: seq<Line>, c: nat, x: Line, p: Progress, levels': seq<nat>)
    requires Built(d, s, t, nodes, levels, lo, done, c) && c < |t| == |u| && t[c] != NUL && Agree(t, u, 0, c)
    requires x.start == c < p.next < |u| && p.next == x.parts.next && p.depth == x.level
    requires Grown(d, u, nodes, levels, c, p, levels')
    requires Made(p.nodes[|nodes|], x.parts) && Holds(d, s, u, x.parts) && SameFrom(s, u, x.parts.next)
    ensures Built(d, s, u, p.nodes, levels', lo + [c], done + [x], p.next)
  {
    GrownLaid(d, t, u, nodes, levels, lo, c, p, levels');
    RecordsKept(d, s, t, u, nodes, levels, done, c);
    RecordsGrow(d, s, u, nodes, p.nodes, done, x);
    TracedSnoc(done, levels, lo, x);
  }

  /** Before the first line nothing is built. */
  lemma BuiltStart(d: Dialect, s: seq<char>)
    requires Terminated(s)
    ensures Built(d, s, s, [], [], [], [], 0)
  {
  }

  /**
   * One pass of the loop of parseGEDCOM (parser.c:351-434) as the loop
   * sees it: after the lines `done`, a line that is refused is where the
   * reading of the whole buffer stops, with the same error; a line `x` that
   * is read extends both the lines read and what is built by it.
   */
  method Advance(d: Dialect, buf: array<char>, ghost s: seq<char>, c: nat, line: nat, depth: int, nodes: seq<Node>,
                 ghost levels: seq<nat>, ghost lo: seq<nat>, ghost done: seq<Line>)
    returns (r: Result<Progress>, ghost levels': seq<nat>, ghost x: Line)
    requires Terminated(buf[..]) && Terminated(s) && c < buf.Length && buf[c] != NUL && depth == Depth(levels)
    requires Built(d, s, buf[..], nodes, levels, lo, done, c) && Reads(d, s, done, c, depth, line)
    modifies buf
    ensures Terminated(buf[..])
    ensures r.Err? ==> ReadAll(d, s) == Stopped(r.error)
    ensures r.Ok? ==> c < r.value.next < buf.Length && r.value.depth == Depth(levels') && |r.value.nodes| == |nodes| + 1
    ensures r.Ok? ==> Reads(d, s, done + [x], r.value.next, r.value.depth, r.value.line)
    ensures r.Ok? ==> Built(d, s, buf[..], r.value.nodes, levels', lo + [c], done + [x], r.value.next)
  {
    ghost var t := buf[..];
    ghost var at, n, l;
    r, levels', x, at, n, l := ParseLine(d, buf, s, c, line, depth, nodes, levels);
    if r.Err? {
      ReadsStopped(d, s, done, c, depth, line, r.error);
      return;
    }
    ReadsPast(d, s, done, c, depth, line, x, r.value.next, r.value.depth, r.value.line);
    BuiltStep(d, s, t, buf[..], nodes, levels, lo, done, c, x, r.value, levels');
  }

  /**
   * What is built when the loop reaches the terminating NUL at `c`: the
   * buffer reads as the lines `done`, and the nodes are the forest they
   * describe, in line order, with every string sliced out of the buffer.
   */
  lemma Finished(d: Dialect, s: seq<char>, t: seq<char>, nodes: seq<Node>, levels: seq<nat>, lo: seq<nat>,
                 done: seq<Line>, c: nat, depth: int, line: nat)
    requires Terminated(s) && c < |t| == |s| && t[c] == NUL
    requires Built(d, s, t, nodes, levels, lo, done, c) && Reads(d, s, done, c, depth, line)
    ensures ReadAll(d, s) == Complete(done)
    ensures Records(d, s, t, nodes, done) && Traced(done, levels, lo)
    ensures Describes(nodes, levels) && WF(nodes)
    ensures Sliced(d, t, nodes, levels, |t|)
    ensures |nodes| > 0 ==> Walk(nodes, 0) == Lines(0, |nodes|) == Preorder(nodes, 0)
    ensures Laid(t, nodes, lo, |t|)
  {
    ReadsEnd(d, s, done, c, depth, line);
    SlicedWiden(d, t, nodes, levels, c + 1, |t|);
    LaidWiden(t, nodes, lo, c + 1, |t|);
    if |nodes| > 0 {
      OutlineWalk(nodes, levels);
    } else {
      OutlineWF(nodes, levels);
    }
  }

  /**
   * The loop of parseGEDCOM over the lines of the buffer (parser.c:351-434).
   * It stops with an error exactly when ReadAll stops on the bytes the
   * buffer held before parsing, with the same fault and line number. On
   * success node k was made from the (k+1)-th line ReadAll reads, at that
   * line's level, and holds what that line holds; the nodes are the forest
   * the line levels describe, every string of a node is sliced out of the
   * buffer, and the walk from the first node visits every line in order. An
   * empty input gives an empty forest.
   */
  method Assemble(d: Dialect, buf: array<char>) returns (r: Result<seq<Node>>, ghost levels: seq<nat>, ghost lo: seq<nat>)
    requires Terminated(buf[..])
    modifies buf
    ensures Terminated(buf[..])
    ensures r.Err? <==> ReadAll(d, old(buf[..])).Stopped?
    ensures r.Err? ==> r.error == ReadAll(d, old(buf[..])).error
    ensures r.Ok? ==> var xs := ReadAll(d, old(buf[..])).lines;
      Records(d, old(buf[..]), buf[..], r.value, xs) && Traced(xs, levels, lo)
    ensures r.Ok? ==> Describes(r.value, levels) && WF(r.value)
    ensures r.Ok? ==> Sliced(d, buf[..], r.value, levels, buf.Length)
    ensures r.Ok? ==> (|r.value| == 0 <==> old(buf[0]) == NUL)
    ensures r.Ok? && |r.value| > 0 ==> Walk(r.value, 0) == Lines(0, |r.value|) == Preorder(r.value, 0)
    ensures r.Ok? ==> Laid(buf[..], r.value, lo, buf.Length)
  {
    ghost var s := buf[..];
    ghost var done: seq<Line> := [];
    var nodes: seq<Node> := [];
    levels, lo := [], [];
    var c: nat := 0;
    var line: nat := 1;
    var depth := -1;
    ReadsStart(d, s);
    BuiltStart(d, s);
    while buf[c] != NUL
      invariant Terminated(buf[..]) && c < buf.Length && depth == Depth(levels)
      invariant Built(d, s, buf[..], nodes, levels, lo, done, c) && Reads(d, s, done, c, depth, line)
      invariant |nodes| == 0 ==> c == 0 && buf[0] == old(buf[0])
      invariant |nodes| > 0 ==> old(buf[0]) != NUL
      decreases buf.Length - c
    {
      var step;
      ghost var x;
      step, levels, x := Advance(d, buf, s, c, line, depth, nodes, levels, lo, done);
      if step.Err? {
        return Err(step.error), levels, lo;
      }
      lo := lo + [c];
      done := done + [x];
      nodes, c, line, depth := step.value.nodes, step.value.next, step.value.line, step.value.depth;
    }
    Finished(d, s, buf[..], nodes, levels, lo, done, c, depth, line);
    return Ok(nodes), levels, lo;
  }
}
