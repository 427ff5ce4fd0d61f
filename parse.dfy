/**
 * parseGEDCOM (parser.c:300-485) as a whole: the dialect picks the
 * scanners, the line loop slices the buffer into records, the pointers are
 * resolved against the ids, and the continuation lines are folded into the
 * text of the records they continue. Each pass either rejects the input,
 * at a line, or hands its forest to the next.
 */
module Parse {
  import opened GedcomTypes
  import opened Forest
  import opened Outline
  import opened Grammar
  import opened Assembly
  import opened Build
  import opened Resolve
  import opened Unfold
  import opened Merge

  /** The message the last pass reports: CONC is only accepted below the strict dialect (parser.c:473-479). */
  function ContFault(d: Dialect): (f: Fault)
    ensures f == BadCont <==> d == Strict
    ensures f == BadCont || f == BadContConc
  {
    if d == Strict then BadCont else BadContConc
  }

  /** A kept link: none, or a line that was not folded away. */
  predicate KeptLink(d: Dialect, s: seq<char>, orig: seq<Node>, j: int)
  {
    j == Nil || (0 <= j < |orig| && !Folded(d, s, orig, j))
  }

  /** Strings the line loop sliced out lie inside the buffer. */
  lemma SlicedStrings(d: Dialect, s: seq<char>, nodes: seq<Node>, levels: seq<nat>)
    requires Sliced(d, s, nodes, levels, |s|)
    ensures Strings(s, nodes)
  {
    forall k | 0 <= k < |nodes|
      ensures InBuffer(s, nodes, k)
    {
      assert SlicedAt(d, s, nodes, levels, |s|, k);
    }
  }

  /**
   * Resolving the pointers changes payloads only, from a pointer's text to
   * the record it names, so the resolved forest is still the forest of the
   * lines and its strings still lie where the line loop cut them.
   */
  lemma FixedSetting(s: seq<char>, nodes: seq<Node>, targets: seq<nat>, out: seq<Node>, levels: seq<nat>, lo: seq<nat>)
    requires Describes(nodes, levels) && WF(nodes) && Laid(s, nodes, lo, |s|)
    requires AllFixed(s, nodes, targets, out)
    ensures Setting(s, out, levels, lo)
  {
    assert Reshaped(nodes, out) by {
      forall k | 0 <= k < |nodes|
        ensures Shape(nodes[k]) == Shape(out[k])
      {
        assert Fixed(s, nodes, targets, k, out[k]);
      }
    }
    ReshapedWF(nodes, out);
    ReshapedLinks(nodes, out);
    forall k | 0 <= k < |out|
      ensures LinksOf(out, levels, k) && LaidAt(s, out, lo, |s|, k)
    {
      assert LinksOf(nodes, levels, k) && LaidAt(s, nodes, lo, |s|, k);
      assert Fixed(s, nodes, targets, k, out[k]);
    }
  }

  /**
   * Once the walk accepts every line, the records it keeps only link to
   * records it keeps: the folded lines, which parser.c:98-100 frees, are
   * out of the forest.
   */
  lemma KeptClosed(d: Dialect, s: seq<char>, orig: seq<Node>, levels: seq<nat>, lo: seq<nat>,
                   t: seq<char>, nodes: seq<Node>, z: nat)
    requires Setting(s, orig, levels, lo) && |nodes| == |orig|
    requires FirstBadIn(d, s, orig, 0, |orig|) == |orig| && Done(d, s, orig, t, nodes, 0, |orig|, z)
    ensures forall k :: 0 <= k < |orig| && !Folded(d, s, orig, k) ==>
      && KeptLink(d, s, orig, nodes[k].firstChild)
      && KeptLink(d, s, orig, nodes[k].nextSibling)
      && KeptLink(d, s, orig, nodes[k].parent)
  {
    forall k | 0 <= k < |orig| && !Folded(d, s, orig, k)
      ensures KeptLink(d, s, orig, nodes[k].firstChild)
      ensures KeptLink(d, s, orig, nodes[k].nextSibling)
      ensures KeptLink(d, s, orig, nodes[k].parent)
    {
      assert DoneAt(d, s, orig, t, nodes, k, z);
      SiblingReach(d, s, orig, levels, k);
      assert LinksOf(orig, levels, k);
      var p := orig[k].parent;
      if p != Nil {
        assert LinksOf(orig, levels, p);
        NoneBad(d, s, orig, p);
      }
    }
  }

  /** Before the first bad line no line is bad. */
  lemma NoneBad(d: Dialect, s: seq<char>, orig: seq<Node>, k: nat)
    requires k < |orig| && FirstBadIn(d, s, orig, 0, |orig|) == |orig|
    ensures !Bad(d, s, orig, k)
  {
    FirstBadInSplit(d, s, orig, 0, k, |orig|);
  }

  /**
   * The passes after the line loop (parser.c:436-482) on the forest `lined`
   * it built from the buffer `s`: the pointers are resolved into `fixed`,
   * then the continuation lines are folded into the records they continue.
   * Only these two passes' faults can reject here.
   */
  method FixAndFold(d: Dialect, buf: array<char>, ghost s: seq<char>, lined: seq<Node>,
                    ghost levels: seq<nat>, ghost lo: seq<nat>)
      returns (r: Result<seq<Node>>, ghost fixed: seq<Node>)
    requires Terminated(buf[..]) && s == buf[..]
    requires Describes(lined, levels) && WF(lined) && LineOrder(lined)
    requires Sliced(d, s, lined, levels, |s|) && Laid(s, lined, lo, |s|)
    modifies buf
    ensures r.Err? ==> r.error.line >= 1 && r.error.fault in {DuplicateId, NoTarget, BadCont, BadContConc}
    ensures r.Err? && r.error.fault in {DuplicateId, NoTarget} ==> Reported(s, lined, Targets(d, lined), r)
    ensures r.Ok? || r.error.fault in {BadCont, BadContConc} ==>
      && Reported(s, lined, Targets(d, lined), Ok(fixed))
      && Setting(s, fixed, levels, lo)
    ensures r.Err? && r.error.fault in {BadCont, BadContConc} ==>
      && r.error.fault == ContFault(d)
      && r.error.line - 1 == FirstBadIn(d, s, fixed, 0, |fixed|) < |fixed|
    ensures r.Ok? ==>
      && FirstBadIn(d, s, fixed, 0, |fixed|) == |fixed| && |r.value| == |fixed|
      && LinksInRange(fixed) && Done(d, s, fixed, buf[..], r.value, 0, |fixed|, |s|)
    ensures r.Ok? ==> forall k :: 0 <= k < |fixed| && !Folded(d, s, fixed, k) ==>
      && KeptLink(d, s, fixed, r.value[k].firstChild)
      && KeptLink(d, s, fixed, r.value[k].nextSibling)
      && KeptLink(d, s, fixed, r.value[k].parent)
  {
    fixed := [];
    SlicedStrings(d, s, lined, levels);
    var resolved := ResolvePointers(d, buf[..], lined);
    if resolved.Err? {
      return resolved, fixed;
    }
    var nodes := resolved.value;
    fixed := nodes;
    FixedSetting(s, lined, Targets(d, lined), fixed, levels, lo);
    if |nodes| == 0 {
      return Ok(nodes), fixed;
    }
    ReachAll(levels);
    var ok, line;
    ok, nodes, line := UnCont(d, buf, s, fixed, levels, lo, nodes, 0, 0, |nodes|, 0);
    if !ok {
      return Err(ParseError(ContFault(d), line)), fixed;
    }
    KeptClosed(d, s, fixed, levels, lo, buf[..], nodes, |s|);
    return Ok(nodes), fixed;
  }

  /**
   * parseGEDCOM on the buffer `buf` in the dialect numbered `dialect`.
   * `s` is the buffer the line loop leaves, `lined` the forest it builds
   * (with `levels` and the line starts `lo`) and `fixed` that forest with
   * its pointers resolved. The line loop stops exactly when the reading
   * of the whole input stops, with the same fault and line; otherwise its
   * forest records the lines that reading yields, one node per line. A
   * rejection carries its message and a line number from 1; an empty
   * buffer gives the empty forest.
   */
  method ParseGEDCOM(dialect: int, buf: array<char>)
      returns (r: Result<seq<Node>>, ghost s: seq<char>, ghost levels: seq<nat>, ghost lo: seq<nat>,
               ghost lined: seq<Node>, ghost fixed: seq<Node>)
    requires Terminated(buf[..])
    modifies buf
    ensures r.Err? ==> r.error.line >= 1
    ensures ReadAll(DialectOf(dialect), old(buf[..])).Stopped? <==>
      r.Err? && r.error.fault !in {DuplicateId, NoTarget, BadCont, BadContConc}
    ensures ReadAll(DialectOf(dialect), old(buf[..])).Stopped? ==> r.error == ReadAll(DialectOf(dialect), old(buf[..])).error
    ensures ReadAll(DialectOf(dialect), old(buf[..])).Complete? ==>
      var xs := ReadAll(DialectOf(dialect), old(buf[..])).lines;
      Records(DialectOf(dialect), old(buf[..]), s, lined, xs) && Traced(xs, levels, lo)
    ensures r.Err? && !(r.error.fault in {DuplicateId, NoTarget, BadCont, BadContConc}) ==>
      LineFault(DialectOf(dialect), r.error.fault, 1)
    ensures r.Ok? || r.error.fault in {DuplicateId, NoTarget, BadCont, BadContConc} ==>
      && |s| == buf.Length && Describes(lined, levels) && WF(lined) && LineOrder(lined)
      && Sliced(DialectOf(dialect), s, lined, levels, |s|) && Laid(s, lined, lo, |s|)
      && (|lined| == 0 <==> old(buf[0]) == NUL)
    ensures r.Err? && r.error.fault in {DuplicateId, NoTarget} ==>
      Reported(s, lined, Targets(DialectOf(dialect), lined), r)
    ensures r.Ok? || r.error.fault in {BadCont, BadContConc} ==>
      && Reported(s, lined, Targets(DialectOf(dialect), lined), Ok(fixed))
      && Setting(s, fixed, levels, lo)
    ensures r.Err? && r.error.fault in {BadCont, BadContConc} ==>
      && r.error.fault == ContFault(DialectOf(dialect))
      && r.error.line - 1 == FirstBadIn(DialectOf(dialect), s, fixed, 0, |fixed|) < |fixed|
    ensures r.Ok? ==>
      && FirstBadIn(DialectOf(dialect), s, fixed, 0, |fixed|) == |fixed| && |r.value| == |fixed|
      && LinksInRange(fixed) && Done(DialectOf(dialect), s, fixed, buf[..], r.value, 0, |fixed|, |s|)
    ensures r.Ok? ==> forall k :: 0 <= k < |fixed| && !Folded(DialectOf(dialect), s, fixed, k) ==>
      && KeptLink(DialectOf(dialect), s, fixed, r.value[k].firstChild)
      && KeptLink(DialectOf(dialect), s, fixed, r.value[k].nextSibling)
      && KeptLink(DialectOf(dialect), s, fixed, r.value[k].parent)
  {
    var d := DialectOf(dialect);
    var assembled;
    assembled, levels, lo := Assemble(d, buf);
    s := buf[..];
    if assembled.Err? {
      return assembled, s, levels, lo, [], [];
    }
    var nodes := assembled.value;
    lined := nodes;
    r, fixed := FixAndFold(d, buf, s, nodes, levels, lo);
  }
}
