/**
 * The line loop of parseGEDCOM (parser.c:351-435): it reads one line after
 * another, slices tag, id and payload out of the buffer by writing NULs into
 * it, and links a node for each line into the forest.
 */
module Assembly {
  import opened GedcomTypes
  import opened Scanners
  import opened LineParts
  import opened Forest
  import opened Outline
  import opened Grammar

  /** The C string at `k` exists and its NUL lies before `hi`. */
  predicate EndsBefore(s: seq<char>, k: int, hi: nat)
  {
    0 <= k < |s| && k + |CString(s, k)| < hi
  }

  /** How a payload of a node looks in the buffer once the line is sliced. */
  predicate PayloadSyntax(d: Dialect, s: seq<char>, p: Payload)
  {
    match p
    case NoPayload => true
    case Text(at) =>
      && at < |s|
      && |CString(s, at)| > 0
      && (forall i :: 0 <= i < |CString(s, at)| ==> IsTextChar(CString(s, at)[i]))
      && LeadingAt(d, s, at)
    case PointerText(at) => at < |s| && XrefText(d, CString(s, at))
    case PointerTo(_) => false
  }

  /**
   * What a node made from a line at `level` holds: a tag the dialect allows,
   * an id the dialect allows, and a payload. In Strict only records have
   * ids, and no id is "VOID" (parser.c:374-377).
   */
  predicate NodeSyntax(d: Dialect, s: seq<char>, node: Node, level: nat)
  {
    && node.tag < |s| && TagText(d, CString(s, node.tag))
    && (node.id != Nil ==>
         && 0 <= node.id < |s| && XrefText(d, CString(s, node.id))
         && (d == Strict ==> level == 0 && CString(s, node.id) != "VOID"))
    && PayloadSyntax(d, s, node.payload)
  }

  /** Every string of `node` ends with a NUL before `hi`. */
  predicate SlicedBefore(s: seq<char>, node: Node, hi: nat)
  {
    && EndsBefore(s, node.tag, hi)
    && (node.id != Nil ==> EndsBefore(s, node.id, hi))
    && (node.payload.Text? ==> EndsBefore(s, node.payload.at, hi))
    && (node.payload.PointerText? ==> EndsBefore(s, node.payload.at, hi))
  }

  /**
   * The strings of `node` start at `lo` or later, and its tag and id end
   * before its payload starts, as they do on the line they were cut from.
   */
  predicate Ordered(s: seq<char>, node: Node, lo: nat)
  {
    && lo <= node.tag
    && (node.id != Nil ==> lo <= node.id)
    && (node.payload.Text? || node.payload.PointerText? ==>
         && node.tag < |s| && node.tag + |CString(s, node.tag)| < node.payload.at
         && (node.id != Nil ==> node.id < |s| && node.id + |CString(s, node.id)| < node.payload.at))
  }

  /** Where region `k` begins: the start of line `k`, or `hi` past the last line. */
  function Lo(lo: seq<nat>, hi: nat, k: nat): nat
  {
    if k < |lo| then lo[k] else hi
  }

  /**
   * The strings of node `k` lie in [lo[k], lo[k + 1]) (the last node's
   * before `hi`): each line's region follows the one before.
   */
  predicate Laid(s: seq<char>, nodes: seq<Node>, lo: seq<nat>, hi: nat)
  {
    && |lo| == |nodes| && hi <= |s|
    && (forall i, j :: 0 <= i < j < |lo| ==> lo[i] < lo[j])
    && (forall i :: 0 <= i < |lo| ==> lo[i] < hi)
    && forall k :: 0 <= k < |nodes| ==> LaidAt(s, nodes, lo, hi, k)
  }

  predicate LaidAt(s: seq<char>, nodes: seq<Node>, lo: seq<nat>, hi: nat, k: nat)
    requires k < |nodes| == |lo|
  {
    Ordered(s, nodes[k], lo[k]) && SlicedBefore(s, nodes[k], Lo(lo, hi, k + 1))
  }

  /** Writing at `hi` or later leaves a C string that ends before `hi` as it was. */
  lemma StringKept(s: seq<char>, t: seq<char>, hi: nat, k: int)
    requires hi <= |s| == |t| && Agree(s, t, 0, hi) && EndsBefore(s, k, hi)
    ensures EndsBefore(t, k, hi) && CString(t, k) == CString(s, k)
  {
    CStringLocal(s, t, k, k + |CString(s, k)|);
  }

  /** Writing at `hi` or later changes nothing about a node sliced before `hi`. */
  lemma SlicesKept(d: Dialect, s: seq<char>, t: seq<char>, hi: nat, node: Node, level: nat)
    requires hi <= |s| == |t| && Agree(s, t, 0, hi)
    requires SlicedBefore(s, node, hi) && NodeSyntax(d, s, node, level)
    ensures SlicedBefore(t, node, hi) && NodeSyntax(d, t, node, level)
  {
    StringKept(s, t, hi, node.tag);
    if node.id != Nil {
      StringKept(s, t, hi, node.id);
    }
    if node.payload.Text? || node.payload.PointerText? {
      var at := node.payload.at;
      StringKept(s, t, hi, at);
      if node.payload.Text? && d == Strict && t[at] == '@' {
        assert at > 0 && t[at - 1] == s[at - 1];
      }
    }
  }

  /** Writes the NUL that ends a slice (parser.c:379, 397, 403, 421). */
  method Cut(buf: array<char>, k: nat)
    requires Terminated(buf[..]) && k < buf.Length
    modifies buf
    ensures buf[..] == old(buf[..])[k := NUL]
    ensures Terminated(buf[..]) && Agree(old(buf[..]), buf[..], 0, k)
  {
    buf[k] := NUL;
  }

  // ---------------------------------------------------------------- what slicing writes

  /** `t` with the string [lo, hi) sliced out: its bytes as the dialect's recognisers leave them, then a NUL at `hi`. */
  function Slice(d: Dialect, t: seq<char>, lo: nat, hi: nat): (r: seq<char>)
    requires lo <= hi < |t|
    ensures |r| == |t|
  {
    FoldIn(d, t, lo, hi)[hi := NUL]
  }

  /** The buffer once the id `i` is sliced out of `t` (parser.c:371-381); without an id, `t` as it was. */
  function IdCut(d: Dialect, t: seq<char>, i: IdRead): (r: seq<char>)
    requires i.id != Nil ==> 0 <= i.id <= i.idEnd < |t|
    ensures |r| == |t|
  {
    if i.id == Nil then t else Slice(d, t, i.id, i.idEnd)
  }

  /** The buffer once a line value is sliced out of `t` (parser.c:396-404): a pointer is; a text waits for the line end. */
  function ValueCut(d: Dialect, t: seq<char>, p: Payload, end: nat): (r: seq<char>)
    requires p.PointerText? ==> p.at <= end < |t|
    ensures |r| == |t|
  {
    if p.PointerText? then Slice(d, t, p.at, end) else t
  }

  /**
   * The buffer once the rest of a line after a tag ending at `e` is sliced
   * out of `t` (parser.c:392-422): a NUL ends the tag, a pointer is sliced,
   * and a NUL at the line end ends the last string.
   */
  function TailCut(d: Dialect, t: seq<char>, e: nat, x: Ending): (r: seq<char>)
    requires e < |t| && BreakAt(x.payload, x.end) < |t|
    requires x.payload.PointerText? ==> x.payload.at <= x.end
    ensures |r| == |t|
  {
    ValueCut(d, t[e := NUL], x.payload, x.end)[BreakAt(x.payload, x.end) := NUL]
  }

  /** The buffer once the tag at `tag` and the rest `b` of its line are sliced out of `t` (parser.c:387-422). */
  function BodyCut(d: Dialect, t: seq<char>, tag: nat, b: Body): (r: seq<char>)
    requires tag <= b.tagEnd < |t| && BreakAt(b.ending.payload, b.ending.end) < |t|
    requires b.ending.payload.PointerText? ==> b.ending.payload.at <= b.ending.end
    ensures |r| == |t|
  {
    TailCut(d, FoldIn(d, t, tag, b.tagEnd), b.tagEnd, b.ending)
  }

  /** The buffer once the line with parts `p` is sliced out of `t` (parser.c:367-422). */
  function LineCut(d: Dialect, t: seq<char>, p: Parts): (r: seq<char>)
    requires Spans(p) && p.next < |t|
    ensures |r| == |t|
  {
    BodyCut(d, IdCut(d, t, IdRead(p.id, p.idEnd, p.tag)), p.tag, Body(p.tagEnd, Ending(p.payload, p.end, p.next, p.breaks)))
  }

  /** Slicing [lo, hi) out of `t` leaves every byte before `lo` and after `hi` as it was. */
  lemma SliceKeeps(d: Dialect, t: seq<char>, lo: nat, hi: nat)
    requires lo <= hi < |t|
    ensures Agree(t, Slice(d, t, lo, hi), 0, lo) && Agree(t, Slice(d, t, lo, hi), hi + 1, |t|)
  {
    FoldInBytes(d, t, lo, hi);
  }

  /**
   * An xref form `n` bytes long at `c`, folded by the recogniser and closed
   * by a NUL in place of its last '@', is sliced out as Slice says, and the
   * bytes after it still hold what `s` holds.
   */
  lemma XrefCut(d: Dialect, s: seq<char>, t: seq<char>, c: nat, n: nat, folded: nat)
    requires Terminated(t) && 3 <= n && c + n < |t| && SameFrom(s, t, c)
    requires if d == Mid then folded == n - 2 else folded == 0
    ensures var u := FoldIn(d, t, c + 1, c + 1 + folded)[c + n - 1 := NUL];
      && u == Slice(d, t, c + 1, c + n - 1)
      && Terminated(u) && Agree(t, u, 0, c + 1) && SameFrom(s, u, c + n)
  {
    SliceKeeps(d, t, c + 1, c + n - 1);
    SameFromKept(s, t, Slice(d, t, c + 1, c + n - 1), c, c + n);
  }

  /** Bytes kept from `k` on by a write still hold what `s` holds there. */
  lemma SameFromKept(s: seq<char>, t: seq<char>, u: seq<char>, c: nat, k: nat)
    requires SameFrom(s, t, c) && c <= k && |u| == |t| && Agree(t, u, k, |t|)
    ensures SameFrom(s, u, k)
  {
  }

  /*
   * Each method below slices one part of the line at `c` and is specified
   * against the reader of Grammar applied to `s`, the bytes the buffer held
   * before parsing, which it still holds from `c` on; on success the buffer
   * is the old one with that part sliced out.
   */

  /**
   * The dialect's xref recogniser at `c`, read against `s`: the width of the
   * form there, and the buffer as the recogniser leaves it.
   */
  method ReadXref(d: Dialect, buf: array<char>, ghost s: seq<char>, c: nat) returns (n: nat, ghost folded: nat)
    requires Terminated(buf[..]) && Terminated(s) && c < buf.Length && SameFrom(s, buf[..], c)
    modifies buf
    ensures n == XrefWidth(d, s, c) && c + 1 + folded <= buf.Length
    ensures buf[..] == FoldIn(d, old(buf[..]), c + 1, c + 1 + folded)
    ensures n != 0 ==> 3 <= n && c + n < buf.Length && if d == Mid then folded == n - 2 else folded == 0
    ensures folded > 0 ==> d == Mid && old(buf[..])[c] == '@' && IsIdent5(old(buf[..])[c + 1])
    ensures Terminated(buf[..]) && buf[c] == s[c] && Agree(old(buf[..]), buf[..], 0, c + 1)
  {
    ghost var before := buf[..];
    n, folded := ScanXref(d, buf, c);
    FoldInBytes(d, before, c + 1, c + 1 + folded);
    XrefWidthIs(d, before, c, n);
    XrefWidthLocal(d, s, before, c);
    SameFromLater(s, before, c, c);
    if n != 0 {
      XrefFormShape(d, before, c, n);
    }
  }

  /** Whether the form at `c` spells @VOID@ (parser.c:376). */
  method SaysVoid(buf: array<char>, ghost s: seq<char>, c: nat) returns (b: bool)
    requires c + 4 < buf.Length && SameFrom(s, buf[..], c)
    ensures b == VoidAt(s, c)
  {
    SameFromLater(s, buf[..], c, c + 1);
    SameFromLater(s, buf[..], c, c + 2);
    SameFromLater(s, buf[..], c, c + 3);
    SameFromLater(s, buf[..], c, c + 4);
    b := buf[c + 1] == 'V' && buf[c + 2] == 'O' && buf[c + 3] == 'I' && buf[c + 4] == 'D';
  }

  /**
   * The optional xref_id at `c` (parser.c:371-381): with one, its bytes are
   * folded, its closing '@' becomes a NUL, and the result is how many bytes
   * the form spans; without one, the result is 0 and nothing is written.
   */
  method SliceId(d: Dialect, buf: array<char>, ghost s: seq<char>, c: nat, level: nat, line: nat) returns (r: Result<nat>)
    requires Terminated(buf[..]) && Terminated(s) && c < buf.Length && SameFrom(s, buf[..], c)
    modifies buf
    ensures r == Outcome(IdForm(d, s, c, level), line)
    ensures Terminated(buf[..]) && Agree(old(buf[..]), buf[..], 0, c + 1)
    ensures r.Ok? ==> buf[..] == if r.value == 0 then old(buf[..]) else Slice(d, old(buf[..]), c + 1, c + r.value - 1)
    ensures r.Ok? && r.value != 0 ==> SameFrom(s, buf[..], c + r.value)
  {
    ghost var before := buf[..];
    var n;
    ghost var folded;
    n, folded := ReadXref(d, buf, s, c);
    if n == 0 {
      if buf[c] == '@' {
        r := Err(ParseError(InvalidId, line));
      } else {
        r := Ok(0);
      }
    } else if d == Strict && level > 0 {
      r := Err(ParseError(IdOnSubstructure, line));
    } else {
      var void := false;
      if d == Strict && n == 6 {
        void := SaysVoid(buf, s, c);
      }
      if void {
        r := Err(ParseError(VoidId, line));
      } else {
        CutXref(d, buf, s, c, n, before, folded);
        r := Ok(n);
      }
    }
  }

  /** The delimiter that must follow an xref_id spanning [c, c + n) (parser.c:382-384). */
  method DelimAfterId(d: Dialect, buf: array<char>, ghost s: seq<char>, c: nat, n: nat, line: nat) returns (r: Result<IdRead>)
    requires Terminated(buf[..]) && Terminated(s) && 3 <= n && c + n < buf.Length && SameFrom(s, buf[..], c + n)
    ensures r == Outcome(DelimAfter(d, s, c, n), line)
  {
    var m := ScanDelim(d, buf, c + n);
    DelimWidthLocal(d, s, buf[..], c + n);
    if d != Legacy && m == 0 {
      return Err(ParseError(NoIdDelim, line));
    }
    return Ok(IdRead(c + 1, c + n - 1, c + n + m));
  }

  /** The optional xref_id at `c` and the delimiter after it (parser.c:371-385). */
  method TakeId(d: Dialect, buf: array<char>, ghost s: seq<char>, c: nat, level: nat, line: nat) returns (r: Result<IdRead>)
    requires Terminated(buf[..]) && Terminated(s) && c < buf.Length && SameFrom(s, buf[..], c)
    modifies buf
    ensures r == Outcome(IdAt(d, s, c, level), line)
    ensures Terminated(buf[..]) && Agree(old(buf[..]), buf[..], 0, c + 1)
    ensures r.Ok? ==> buf[..] == IdCut(d, old(buf[..]), r.value)
  {
    ghost var before := buf[..];
    var x := SliceId(d, buf, s, c, level, line);
    if x.Err? {
      IdAtStep(d, s, c, level, Reject(x.error.fault));
      r := Err(x.error);
    } else if x.value == 0 {
      IdAtStep(d, s, c, level, Accept(0));
      r := Ok(IdRead(Nil, c, c));
    } else {
      IdAtStep(d, s, c, level, Accept(x.value));
      r := DelimAfterId(d, buf, s, c, x.value, line);
    }
  }

  /**
   * The part of a line after its level and before its tag (parser.c:367-385):
   * a delimiter, then an optional xref_id followed by another delimiter.
   */
  method ScanId(d: Dialect, buf: array<char>, ghost s: seq<char>, c0: nat, level: nat, line: nat) returns (r: Result<IdRead>)
    requires Terminated(buf[..]) && Terminated(s) && c0 < buf.Length && SameFrom(s, buf[..], c0)
    modifies buf
    ensures r == Outcome(AfterLevel(d, s, c0, level), line)
    ensures Terminated(buf[..]) && Agree(old(buf[..]), buf[..], 0, c0)
    ensures r.Ok? ==> buf[..] == IdCut(d, old(buf[..]), r.value)
  {
    var n := ScanDelim(d, buf, c0);
    DelimWidthLocal(d, s, buf[..], c0);
    AfterLevelStep(d, s, c0, level);
    if d != Legacy && n == 0 {
      r := Err(ParseError(NoLevelDelim, line));
    } else {
      r := TakeId(d, buf, s, c0 + n, level, line);
    }
  }

  /**
   * The tag of a line (parser.c:387-390): the dialect's maximal run of tag
   * bytes, which must not be empty; the recogniser folds them.
   */
  method TakeTag(d: Dialect, buf: array<char>, ghost s: seq<char>, c: nat, line: nat) returns (r: Result<nat>)
    requires Terminated(buf[..]) && Terminated(s) && c < buf.Length && SameFrom(s, buf[..], c)
    modifies buf
    ensures r == Outcome(TagAt(d, s, c), line)
    ensures Terminated(buf[..]) && Agree(old(buf[..]), buf[..], 0, c)
    ensures r.Err? ==> buf[..] == old(buf[..])
    ensures r.Ok? ==> buf[..] == FoldIn(d, old(buf[..]), c, c + r.value)
    ensures r.Ok? ==> SameFrom(s, buf[..], c + r.value)
  {
    ghost var before := buf[..];
    var n := ScanTag(d, buf, c);
    FoldInBytes(d, before, c, c + n);
    TagWidthIs(d, before, c, n);
    TagWidthLocal(d, s, before, c);
    if n == 0 {
      r := Err(ParseError(NoTag, line));
    } else {
      r := Ok(n);
      SameFromKept(s, before, buf[..], c, c + n);
    }
  }

  // ---------------------------------------------------------------- payload

  /**
   * A leading '@' of a text payload is allowed only where parser.c:405-412
   * lets it through: after an '@' the parser skipped ("@@" stands for "@"),
   * anywhere in Legacy, and before a '#' (an escape) in Mid.
   */
  predicate LeadingAt(d: Dialect, s: seq<char>, at: nat)
    requires at < |s|
  {
    s[at] == '@' ==>
      || (0 < at && s[at - 1] == '@')
      || d == Legacy
      || (d == Mid && at + 1 < |s| && s[at + 1] == '#')
  }

  /** A text payload at `at` whose bytes run up to the line break at `e`, where its NUL is still to be written. */
  predicate PendingText(d: Dialect, s: seq<char>, at: nat, e: nat)
  {
    && at < e < |s|
    && (forall k :: at <= k < e ==> IsTextChar(s[k]))
    && !IsTextChar(s[e])
    && LeadingAt(d, s, at)
  }

  /** The text branch of a line value (parser.c:406-416): a text run with its leading '@' checked. */
  method TextValue(d: Dialect, buf: array<char>, c: nat, line: nat) returns (r: Result<Value>)
    requires Terminated(buf[..]) && c < buf.Length
    ensures r == Outcome(TextAt(d, buf[..], c), line)
    ensures r.Ok? && r.value.payload.Text? ==> PendingText(d, buf[..], r.value.payload.at, r.value.next)
  {
    var n := Text7(buf, c);
    if n == 0 {
      if d == Strict {
        return Err(ParseError(EmptyPayload, line));
      }
      return Ok(Value(NoPayload, c, c));
    }
    var at := c;
    if buf[c] == '@' {
      if buf[c + 1] == '@' {
        at, n := c + 1, n - 1;
      } else if d == Strict {
        return Err(ParseError(SingleAtStrict, line));
      } else if d == Mid && buf[c + 1] != '#' {
        return Err(ParseError(SingleAtMid, line));
      }
    }
    return Ok(Value(Text(at), at + n, at + n));
  }

  /**
   * A line value after its delimiter (parser.c:396-416): a pointer, whose
   * closing '@' becomes a NUL, or else a text, which is not written yet.
   */
  method PayloadValue(d: Dialect, buf: array<char>, ghost s: seq<char>, c: nat, line: nat) returns (r: Result<Value>)
    requires Terminated(buf[..]) && Terminated(s) && c < buf.Length && SameFrom(s, buf[..], c)
    modifies buf
    ensures r == Outcome(ValueAt(d, s, c), line)
    ensures Terminated(buf[..]) && Agree(old(buf[..]), buf[..], 0, c + 1)
    ensures r.Ok? ==> buf[..] == ValueCut(d, old(buf[..]), r.value.payload, r.value.end)
    ensures r.Ok? ==> SameFrom(s, buf[..], r.value.next)
  {
    ghost var before := buf[..];
    var n;
    ghost var folded;
    n, folded := ReadXref(d, buf, s, c);
    ValueAtStep(d, s, c, n);
    if n != 0 {
      CutXref(d, buf, s, c, n, before, folded);
      r := Ok(Value(PointerText(c + 1), c + n - 1, c + n));
    } else {
      r := TextAfterScan(d, buf, s, c, line, before, folded);
    }
  }

  /** Ends the xref form the recogniser found at `c` with a NUL in place of its closing '@'. */
  method CutXref(d: Dialect, buf: array<char>, ghost s: seq<char>, c: nat, n: nat, ghost before: seq<char>, ghost folded: nat)
    requires Terminated(before) && 3 <= n && c + n < |before| && SameFrom(s, before, c)
    requires if d == Mid then folded == n - 2 else folded == 0
    requires buf[..] == FoldIn(d, before, c + 1, c + 1 + folded)
    modifies buf
    ensures buf[..] == Slice(d, before, c + 1, c + n - 1)
    ensures Terminated(buf[..]) && Agree(before, buf[..], 0, c + 1) && SameFrom(s, buf[..], c + n)
  {
    XrefCut(d, s, before, c, n, folded);
    Cut(buf, c + n - 1);
  }

  /**
   * A text value where no pointer was found. A text payload never sees the
   * folding the Mid xref recogniser may have done: TextValue refuses a value
   * that starts with '@' and a letter, digit or underscore in Mid.
   */
  method TextAfterScan(d: Dialect, buf: array<char>, ghost s: seq<char>, c: nat, line: nat, ghost before: seq<char>, ghost folded: nat)
      returns (r: Result<Value>)
    requires Terminated(buf[..]) && Terminated(s) && c < buf.Length && c + 1 + folded <= |before|
    requires buf[..] == FoldIn(d, before, c + 1, c + 1 + folded) && SameFrom(s, before, c)
    requires folded > 0 ==> d == Mid && before[c] == '@' && IsIdent5(before[c + 1])
    ensures r == Outcome(TextAt(d, s, c), line)
    ensures Terminated(buf[..]) && Agree(before, buf[..], 0, c + 1)
    ensures r.Ok? ==> buf[..] == before && (r.value.payload.NoPayload? || r.value.payload.Text?)
    ensures r.Ok? ==> SameFrom(s, buf[..], r.value.next)
  {
    r := TextValue(d, buf, c, line);
    FoldInBytes(d, before, c + 1, c + 1 + folded);
    FoldLeaves(d, before, buf[..], c, folded);
    if folded == 0 {
      TextAtLocal(d, s, buf[..], c);
    } else {
      TextAtCases(d, s, c);
      TextAtCases(d, buf[..], c);
    }
    if r.Ok? {
      SameFromLater(s, before, c, r.value.next);
    }
  }

  /**
   * The Mid xref recogniser folds bytes only after an '@' and a letter, digit
   * or underscore, and what it leaves there still starts so.
   */
  lemma FoldLeaves(d: Dialect, before: seq<char>, s: seq<char>, c: nat, folded: nat)
    requires c + 1 + folded <= |before| && s == FoldIn(d, before, c + 1, c + 1 + folded)
    requires folded > 0 ==> d == Mid && before[c] == '@' && IsIdent5(before[c + 1])
    ensures folded > 0 ==> d == Mid && c + 1 < |s| && s[c] == '@' && IsIdent5(s[c + 1])
    ensures folded == 0 ==> s == before
  {
    FoldInBytes(d, before, c + 1, c + 1 + folded);
  }

  /**
   * What follows a tag that ends at `e` (parser.c:392-418): with a delimiter,
   * a NUL at `e` ends the tag and a line value follows.
   */
  method TakePayload(d: Dialect, buf: array<char>, ghost s: seq<char>, e: nat, line: nat) returns (r: Result<Value>)
    requires Terminated(buf[..]) && Terminated(s) && e < buf.Length && SameFrom(s, buf[..], e)
    modifies buf
    ensures r == Outcome(PayloadAt(d, s, e), line)
    ensures Terminated(buf[..]) && Agree(old(buf[..]), buf[..], 0, e)
    ensures r.Ok? && DelimWidth(d, s, e) == 0 ==> buf[..] == old(buf[..])
    ensures r.Ok? && DelimWidth(d, s, e) != 0 ==> buf[..] == ValueCut(d, old(buf[..])[e := NUL], r.value.payload, r.value.end)
    ensures r.Ok? ==> SameFrom(s, buf[..], r.value.next)
  {
    ghost var before := buf[..];
    var n := ScanDelim(d, buf, e);
    DelimWidthLocal(d, s, buf[..], e);
    PayloadAtStep(d, s, e);
    if n == 0 {
      r := Ok(Value(NoPayload, e, e));
    } else {
      SameFromKept(s, before, before[e := NUL], e, e + 1);
      Cut(buf, e);
      ghost var mid := buf[..];
      r := PayloadValue(d, buf, s, e + n, line);
      AgreeTrans(before, mid, buf[..], e, e + n + 1);
    }
  }

  // ---------------------------------------------------------------- end of line

  /** Where the next line starts, and how many line breaks lie before it. */
  datatype LineEnd = LineEnd(next: nat, breaks: nat)

  /**
   * The end of a line (parser.c:419-422): a line break the dialect accepts,
   * or the end of the input; a NUL at `c` ends whatever the line's last
   * string is.
   */
  method EndLine(d: Dialect, buf: array<char>, ghost s: seq<char>, c: nat, line: nat) returns (r: Result<LineEnd>)
    requires Terminated(buf[..]) && Terminated(s) && c < buf.Length && SameFrom(s, buf[..], c)
    modifies buf
    ensures Terminated(buf[..]) && Agree(old(buf[..]), buf[..], 0, c)
    ensures r.Err? <==> EolOf(d, s, c).0 == 0 && s[c] != NUL
    ensures r.Err? ==> r.error == ParseError(NoLineBreak, line)
    ensures r.Ok? ==> buf[..] == old(buf[..])[c := NUL]
    ensures r.Ok? ==> r.value == LineEnd(c + EolOf(d, s, c).0, EolOf(d, s, c).1)
  {
    EolOfLocal(d, s, buf[..], c);
    SameFromLater(s, buf[..], c, c);
    var n, breaks := ScanEol(d, buf, c);
    if n == 0 && buf[c] != NUL {
      return Err(ParseError(NoLineBreak, line));
    }
    Cut(buf, c);
    return Ok(LineEnd(c + n, breaks));
  }

  // ---------------------------------------------------------------- line

  /**
   * The rest of a line after its tag (parser.c:392-422): the payload and the
   * line end, sliced out.
   */
  method LineTail(d: Dialect, buf: array<char>, ghost s: seq<char>, e: nat, line: nat) returns (r: Result<Ending>)
    requires Terminated(buf[..]) && Terminated(s) && e < buf.Length && SameFrom(s, buf[..], e)
    modifies buf
    ensures r == Outcome(EndingAt(d, s, e), line)
    ensures Terminated(buf[..]) && Agree(old(buf[..]), buf[..], 0, e)
    ensures r.Ok? ==> buf[..] == TailCut(d, old(buf[..]), e, r.value)
  {
    ghost var before := buf[..];
    var p := TakePayload(d, buf, s, e, line);
    if p.Err? {
      EndingAtStep(d, s, e, Reject(p.error.fault));
      r := Err(p.error);
    } else {
      var q := p.value.next;
      ghost var mid := buf[..];
      var end := EndLine(d, buf, s, q, line);
      AgreeTrans(before, mid, buf[..], e, q);
      TailOutcome(d, s, e, line, p.value, end);
      if end.Err? {
        r := Err(end.error);
      } else {
        r := Ok(Ending(p.value.payload, p.value.end, end.value.next, end.value.breaks));
        TailCutIs(d, s, before, e, p.value, r.value);
      }
    }
  }

  /** An accepted payload followed by the line end EndLine finds is the ending EndingAt reads. */
  lemma TailOutcome(d: Dialect, s: seq<char>, e: nat, line: nat, v: Value, end: Result<LineEnd>)
    requires Terminated(s) && e < |s| && PayloadAt(d, s, e) == Accept(v)
    requires end.Err? <==> EolOf(d, s, v.next).0 == 0 && s[v.next] != NUL
    requires end.Err? ==> end.error == ParseError(NoLineBreak, line)
    requires end.Ok? ==> end.value == LineEnd(v.next + EolOf(d, s, v.next).0, EolOf(d, s, v.next).1)
    ensures Outcome(EndingAt(d, s, e), line) ==
      if end.Err? then Err(end.error) else Ok(Ending(v.payload, v.end, end.value.next, end.value.breaks))
  {
    EndingAtStep(d, s, e, Accept(v));
  }

  /** The buffer TakePayload leaves, with the line end cut, is TailCut's. */
  lemma TailCutIs(d: Dialect, s: seq<char>, t: seq<char>, e: nat, v: Value, x: Ending)
    requires Terminated(s) && e < |s| == |t| && PayloadAt(d, s, e) == Accept(v)
    requires x.payload == v.payload && x.end == v.end
    ensures var u := if DelimWidth(d, s, e) == 0 then t else ValueCut(d, t[e := NUL], v.payload, v.end);
      u[v.next := NUL] == TailCut(d, t, e, x)
  {
    if DelimWidth(d, s, e) == 0 {
      assert t[e := NUL][e := NUL] == t[e := NUL];
    }
  }

  /** The tag folded and the rest of its line cut make BodyCut's buffer. */
  lemma BodyCutIs(d: Dialect, s: seq<char>, t: seq<char>, mid: seq<char>, u: seq<char>, tag: nat, b: Body)
    requires Terminated(s) && tag < |s| == |t| && TagAt(d, s, tag).Accept? && b.tagEnd == TagEnd(d, s, tag)
    requires EndingAt(d, s, b.tagEnd) == Accept(b.ending)
    requires mid == FoldIn(d, t, tag, b.tagEnd) && u == TailCut(d, mid, b.tagEnd, b.ending)
    ensures tag <= b.tagEnd < |t| && BreakAt(b.ending.payload, b.ending.end) < |t|
    ensures b.ending.payload.PointerText? ==> b.ending.payload.at <= b.ending.end
    ensures u == BodyCut(d, t, tag, b)
  {
  }

  /** A tag, a payload and the line end, from the tag's first byte `t` (parser.c:387-422). */
  method LineBody(d: Dialect, buf: array<char>, ghost s: seq<char>, t: nat, line: nat) returns (r: Result<Body>)
    requires Terminated(buf[..]) && Terminated(s) && t < buf.Length && SameFrom(s, buf[..], t)
    modifies buf
    ensures r == Outcome(BodyAt(d, s, t), line)
    ensures Terminated(buf[..]) && Agree(old(buf[..]), buf[..], 0, t)
    ensures r.Ok? ==> buf[..] == BodyCut(d, old(buf[..]), t, r.value)
  {
    ghost var before := buf[..];
    var n := TakeTag(d, buf, s, t, line);
    if n.Err? {
      BodyAtStep(d, s, t, t, line, n, Err(n.error));
      r := Err(n.error);
    } else {
      var e := t + n.value;
      ghost var mid := buf[..];
      var rest := LineTail(d, buf, s, e, line);
      BodyAtStep(d, s, t, e, line, n, rest);
      AgreeTrans(before, mid, buf[..], t, e);
      if rest.Err? {
        r := Err(rest.error);
      } else {
        r := Ok(Body(e, rest.value));
        BodyCutIs(d, s, before, mid, buf[..], t, r.value);
      }
    }
  }

  /**
   * One line from the byte after its level (parser.c:367-422), for a line at
   * `level`: the parts PartsAt reads there, and the buffer with the line
   * sliced out; LineCutHolds says what the strings cut out hold.
   */
  method ScanLine(d: Dialect, buf: array<char>, ghost s: seq<char>, c: nat, level: nat, line: nat) returns (r: Result<Parts>)
    requires Terminated(buf[..]) && Terminated(s) && c < buf.Length && SameFrom(s, buf[..], c)
    modifies buf
    ensures r == Outcome(PartsAt(d, s, c, level), line)
    ensures Terminated(buf[..]) && Agree(old(buf[..]), buf[..], 0, c)
    ensures r.Ok? ==> buf[..] == LineCut(d, old(buf[..]), r.value)
  {
    ghost var before := buf[..];
    var id := ScanId(d, buf, s, c, level, line);
    if id.Err? {
      PartsAtStep(d, s, c, level, line, id, Err(id.error));
      r := Err(id.error);
    } else {
      IdCutLeaves(d, s, before, c, level, id.value);
      ghost var mid := buf[..];
      var body := LineBody(d, buf, s, id.value.tag, line);
      AgreeTrans(before, mid, buf[..], c, id.value.tag);
      if body.Err? {
        PartsAtStep(d, s, c, level, line, id, body);
        r := Err(body.error);
      } else {
        PartsAtStep(d, s, c, level, line, id, body);
        var e := body.value.ending;
        r := Ok(Parts(id.value.id, id.value.idEnd, id.value.tag, body.value.tagEnd, e.payload, e.end, e.next, e.breaks));
      }
    }
  }

  /** Slicing out the id leaves the bytes from the tag on as they were. */
  lemma IdCutLeaves(d: Dialect, s: seq<char>, t: seq<char>, c: nat, level: nat, i: IdRead)
    requires Terminated(s) && c < |s| && SameFrom(s, t, c) && AfterLevel(d, s, c, level) == Accept(i)
    ensures SameFrom(s, IdCut(d, t, i), i.tag) && Agree(t, IdCut(d, t, i), 0, c + 1)
  {
    if i.id != Nil {
      SliceKeeps(d, t, i.id, i.idEnd);
      SameFromKept(s, t, IdCut(d, t, i), c, i.tag);
    }
  }

  // ---------------------------------------------------------------- what a sliced line holds

  /**
   * The byte the line with parts `p` leaves at `k` of `t` once sliced: a NUL
   * after each of its strings and where the line end starts, a folded byte
   * inside its id, tag or pointer, and otherwise the byte of `t`.
   */
  function CutAt(d: Dialect, t: seq<char>, p: Parts, k: nat): char
    requires k < |t|
  {
    if (p.id != Nil && k == p.idEnd) || k == p.tagEnd || k == p.end || k == BreakAt(p.payload, p.end) then NUL
    else if (p.id != Nil && p.id <= k < p.idEnd) || p.tag <= k < p.tagEnd
         || (p.payload.PointerText? && p.payload.at <= k < p.end) then Folded(d, t[k])
    else t[k]
  }

  /** LineCut writes, byte by byte, what CutAt says. */
  lemma LineCutBytes(d: Dialect, t: seq<char>, p: Parts)
    requires Spans(p) && p.next < |t|
    ensures forall k {:trigger LineCut(d, t, p)[k]} :: 0 <= k < |t| ==> LineCut(d, t, p)[k] == CutAt(d, t, p, k)
  {
    var u1 := IdCut(d, t, IdRead(p.id, p.idEnd, p.tag));
    if p.id != Nil {
      FoldInBytes(d, t, p.id, p.idEnd);
    }
    FoldInBytes(d, u1, p.tag, p.tagEnd);
    var u3 := FoldIn(d, u1, p.tag, p.tagEnd)[p.tagEnd := NUL];
    if p.payload.PointerText? {
      FoldInBytes(d, u3, p.payload.at, p.end);
    }
  }

  /** Folding keeps a byte other than NUL, and leaves no lower-case letter in Mid. */
  lemma FoldedByte(d: Dialect, ch: char)
    ensures Folded(d, ch) != NUL <==> ch != NUL
    ensures d == Mid ==> !IsLower(Folded(d, ch))
  {
  }

  /** Bytes [lo, hi) of `u` folded from those of `s`, none a NUL, then a NUL: the C string at `lo` is them. */
  lemma FoldedString(d: Dialect, s: seq<char>, u: seq<char>, lo: nat, hi: nat)
    requires lo <= hi < |u| == |s| && u[hi] == NUL
    requires forall k :: lo <= k < hi ==> s[k] != NUL && u[k] == Folded(d, s[k])
    ensures StringIs(u, lo, FoldText(d, s[lo..hi]))
  {
    forall k | lo <= k < hi
      ensures u[k] != NUL
    {
      FoldedByte(d, s[k]);
    }
    CStringIs(u, lo, hi);
  }

  /** Bytes [lo, hi) of `u` as they are in `s`, none a NUL, then a NUL: the C string at `lo` is them. */
  lemma KeptString(s: seq<char>, u: seq<char>, lo: nat, hi: nat)
    requires lo <= hi < |u| == |s| && u[hi] == NUL
    requires forall k :: lo <= k < hi ==> s[k] != NUL && u[k] == s[k]
    ensures StringIs(u, lo, s[lo..hi])
  {
    CStringIs(u, lo, hi);
  }

  /** The bytes between the '@'s of an xref form of `s`, folded, are an xref text. */
  lemma XrefTextFolded(d: Dialect, s: seq<char>, c: nat, n: nat)
    requires XrefForm(d, s, c, n)
    ensures 3 <= n && c + n <= |s| && XrefText(d, FoldText(d, s[c + 1..c + n - 1]))
  {
    XrefFormBytes(d, s, c, n);
    var w := FoldText(d, s[c + 1..c + n - 1]);
    forall i | 0 <= i < |w|
      ensures XrefByte(d, w[i], i) && (d == Mid ==> !IsLower(w[i]))
    {
      assert XrefByte(d, s[c + 1 + i], i);
    }
  }

  /** The bytes of a tag of `s`, folded, are a tag text. */
  lemma TagTextFolded(d: Dialect, s: seq<char>, t: nat, e: nat)
    requires t < e <= |s| && forall j :: t <= j < e ==> TagByteAt(d, s, t, j)
    ensures TagText(d, FoldText(d, s[t..e]))
  {
    var w := FoldText(d, s[t..e]);
    forall i | 0 <= i < |w|
      ensures TagByte(d, w[i], i) && (d == Mid ==> !IsLower(w[i]))
    {
      assert TagByteAt(d, s, t, t + i);
    }
  }

  /** An accepted text value lies pending: its bytes run to the line break, and a leading '@' is one the dialect allows. */
  lemma TextAtPending(d: Dialect, s: seq<char>, c: nat)
    requires Terminated(s) && c < |s| && TextAt(d, s, c).Accept? && TextAt(d, s, c).value.payload.Text?
    ensures var v := TextAt(d, s, c).value; PendingText(d, s, v.payload.at, v.end)
  {
  }

  /** The id of the parts `p` of a line at `level` is the inside of an xref form of `s` the dialect allows there. */
  predicate IdFormed(d: Dialect, s: seq<char>, level: nat, p: Parts)
  {
    p.id != Nil ==>
      && 0 < p.id <= p.idEnd
      && XrefForm(d, s, p.id - 1, p.idEnd - p.id + 2)
      && (d == Strict ==> level == 0 && !(p.idEnd == p.id + 4 && VoidAt(s, p.id - 1)))
  }

  /** The tag of the parts `p` is a run of bytes of `s` the dialect's tag recogniser accepts. */
  predicate TagFormed(d: Dialect, s: seq<char>, p: Parts)
  {
    forall j :: p.tag <= j < p.tagEnd ==> TagByteAt(d, s, p.tag, j)
  }

  /**
   * A payload ending at `end`, read after a tag ending at `e`, is the inside
   * of an xref form of `s`, or a text run to the line break whose leading
   * '@', right after the delimiter, is one the dialect allows.
   */
  predicate ValueFormed(d: Dialect, s: seq<char>, e: nat, payload: Payload, end: nat)
  {
    && (payload.PointerText? ==> 0 < payload.at <= end && XrefForm(d, s, payload.at - 1, end - payload.at + 2))
    && (payload.Text? ==> PendingText(d, s, payload.at, end))
    && (payload.Text? && payload.at <= e + 1 && payload.at + 1 < |s| && s[payload.at] == '@' ==>
         d == Legacy || (d == Mid && s[payload.at + 1] == '#'))
  }

  /** The payload of the parts `p` is formed as ValueFormed says; where the line end is looked for is a NUL if no line break follows. */
  predicate PayloadFormed(d: Dialect, s: seq<char>, p: Parts)
  {
    && ValueFormed(d, s, p.tagEnd, p.payload, p.end)
    && (p.next == BreakAt(p.payload, p.end) < |s| ==> s[p.next] == NUL)
  }

  /** What the bytes of `s` are where AfterLevel reads the id of the parts `p` of a line at `level`. */
  lemma IdBytes(d: Dialect, s: seq<char>, c: nat, level: nat, p: Parts)
    requires Terminated(s) && c < |s| && AfterLevel(d, s, c, level) == Accept(IdRead(p.id, p.idEnd, p.tag))
    ensures IdFormed(d, s, level, p)
  {
  }

  /** What the bytes of `s` are where ValueAt reads the value `v`, after a tag ending at `e`. */
  lemma ValueBytes(d: Dialect, s: seq<char>, e: nat, c: nat, v: Value)
    requires Terminated(s) && e < c < |s| && ValueAt(d, s, c) == Accept(v)
    ensures ValueFormed(d, s, e, v.payload, v.end)
  {
    var x := XrefWidth(d, s, c);
    ValueAtStep(d, s, c, x);
    if x == 0 && v.payload.Text? {
      TextAtPending(d, s, c);
      TextAtCases(d, s, c);
    }
  }

  /** What the bytes of `s` are where PayloadAt reads the value `v` after a tag ending at `e`. */
  lemma PayloadBytes(d: Dialect, s: seq<char>, e: nat, v: Value)
    requires Terminated(s) && e < |s| && PayloadAt(d, s, e) == Accept(v)
    ensures ValueFormed(d, s, e, v.payload, v.end)
  {
    var m := DelimWidth(d, s, e);
    PayloadAtStep(d, s, e);
    if m != 0 {
      ValueBytes(d, s, e, e + m, v);
    }
  }

  /** What the bytes of `s` are where EndingAt reads the rest of the line of the parts `p`. */
  lemma EndingBytes(d: Dialect, s: seq<char>, p: Parts)
    requires Terminated(s) && p.tagEnd < |s| && EndingAt(d, s, p.tagEnd) == Accept(Ending(p.payload, p.end, p.next, p.breaks))
    ensures PayloadFormed(d, s, p)
  {
    var v := PayloadAt(d, s, p.tagEnd);
    EndingAtStep(d, s, p.tagEnd, v);
    PayloadBytes(d, s, p.tagEnd, v.value);
  }

  /** The bytes of an accepted tag are tag bytes. */
  lemma TagBytes(d: Dialect, s: seq<char>, t: nat, n: nat)
    requires Terminated(s) && t < |s| && TagAt(d, s, t) == Accept(n)
    ensures forall j :: t <= j < t + n ==> TagByteAt(d, s, t, j)
  {
  }

  /** What the bytes of `s` are where BodyAt reads the tag and the rest of the line of the parts `p`. */
  lemma BodyBytes(d: Dialect, s: seq<char>, p: Parts)
    requires Terminated(s) && p.tag < |s| && BodyAt(d, s, p.tag) == Accept(Body(p.tagEnd, Ending(p.payload, p.end, p.next, p.breaks)))
    ensures TagFormed(d, s, p) && PayloadFormed(d, s, p)
  {
    var n := p.tagEnd - p.tag;
    assert TagAt(d, s, p.tag) == Accept(n);
    TagBytes(d, s, p.tag, n);
    EndingBytes(d, s, p);
  }

  /** What the bytes of `s` are where PartsAt reads the parts `p` of a line at `level` after its level ends at `c`. */
  lemma PartsBytes(d: Dialect, s: seq<char>, c: nat, level: nat, p: Parts)
    requires Terminated(s) && c < |s| && PartsAt(d, s, c, level) == Accept(p)
    ensures IdFormed(d, s, level, p) && TagFormed(d, s, p) && PayloadFormed(d, s, p)
  {
    PartsAtSplit(d, s, c, level, p);
    IdBytes(d, s, c, level, p);
    BodyBytes(d, s, p);
  }

  /** `u` holds, byte by byte, what slicing the line with parts `p` out of `t` leaves. */
  predicate CutBytes(d: Dialect, t: seq<char>, u: seq<char>, p: Parts)
  {
    |u| == |t| && forall k :: 0 <= k < |t| ==> u[k] == CutAt(d, t, p, k)
  }

  /** Sliced out, the bytes [lo, hi) of `t` are folded and followed by a NUL. */
  predicate FoldedRun(d: Dialect, t: seq<char>, u: seq<char>, lo: nat, hi: nat)
  {
    lo <= hi < |t| == |u| && u[hi] == NUL && forall k :: lo <= k < hi ==> u[k] == Folded(d, t[k])
  }

  /** The tag, any id and any pointer of a line are sliced out folded. */
  lemma CutRuns(d: Dialect, t: seq<char>, u: seq<char>, p: Parts)
    requires Spans(p) && p.next < |t| && CutBytes(d, t, u, p)
    ensures FoldedRun(d, t, u, p.tag, p.tagEnd)
    ensures p.id != Nil ==> FoldedRun(d, t, u, p.id, p.idEnd)
    ensures p.payload.PointerText? ==> FoldedRun(d, t, u, p.payload.at, p.end)
  {
    assert u[p.tagEnd] == CutAt(d, t, p, p.tagEnd);
    if p.id != Nil {
      assert u[p.idEnd] == CutAt(d, t, p, p.idEnd);
    }
    if p.payload.PointerText? {
      assert u[p.end] == CutAt(d, t, p, p.end);
    }
  }

  /** A text is sliced out as it was, followed by a NUL; the byte before it is a NUL only if it follows a one-byte delimiter. */
  lemma TextRun(d: Dialect, t: seq<char>, u: seq<char>, p: Parts)
    requires Spans(p) && p.next < |t| && CutBytes(d, t, u, p) && p.payload.Text?
    ensures u[p.end] == NUL && forall k :: p.payload.at <= k < p.end ==> u[k] == t[k]
    ensures p.payload.at > p.tagEnd + 1 ==> u[p.payload.at - 1] == t[p.payload.at - 1]
  {
    assert u[p.end] == CutAt(d, t, p, p.end);
    if p.payload.at > p.tagEnd + 1 {
      assert u[p.payload.at - 1] == CutAt(d, t, p, p.payload.at - 1);
    }
  }

  /** The tag sliced out holds the tag bytes of `s`, folded: a tag text. */
  lemma TagCutHolds(d: Dialect, s: seq<char>, t: seq<char>, u: seq<char>, c: nat, tag: nat, tagEnd: nat)
    requires FoldedRun(d, t, u, tag, tagEnd) && SameFrom(s, t, c) && c <= tag < tagEnd
    requires forall j :: tag <= j < tagEnd ==> TagByteAt(d, s, tag, j)
    ensures StringIs(u, tag, FoldText(d, s[tag..tagEnd])) && TagText(d, CString(u, tag))
    ensures |CString(u, tag)| == tagEnd - tag
  {
    forall k | tag <= k < tagEnd
      ensures s[k] != NUL && u[k] == Folded(d, s[k])
    {
      assert TagByteAt(d, s, tag, k);
    }
    FoldedString(d, s, u, tag, tagEnd);
    TagTextFolded(d, s, tag, tagEnd);
  }

  /** The bytes strictly between the '@'s of an xref form of `s` at `lo - 1`, sliced out, are its folded xref text. */
  lemma XrefCutHolds(d: Dialect, s: seq<char>, t: seq<char>, u: seq<char>, c: nat, lo: nat, hi: nat)
    requires FoldedRun(d, t, u, lo, hi) && SameFrom(s, t, c) && c < lo && XrefForm(d, s, lo - 1, hi - lo + 2)
    ensures StringIs(u, lo, FoldText(d, s[lo..hi])) && XrefText(d, CString(u, lo)) && |CString(u, lo)| == hi - lo
  {
    XrefFormBytes(d, s, lo - 1, hi - lo + 2);
    forall k | lo <= k < hi
      ensures s[k] != NUL && u[k] == Folded(d, s[k])
    {
      assert XrefByte(d, s[k], k - lo);
    }
    FoldedString(d, s, u, lo, hi);
    XrefTextFolded(d, s, lo - 1, hi - lo + 2);
  }

  /** A text sliced out holds its bytes of `s` as they were, and keeps the syntax of a text payload. */
  lemma TextCutHolds(d: Dialect, s: seq<char>, t: seq<char>, u: seq<char>, c: nat, e: nat, at: nat, end: nat)
    requires |u| == |t| && SameFrom(s, t, c) && c <= e < at && PendingText(d, s, at, end)
    requires u[end] == NUL && forall k :: at <= k < end ==> u[k] == t[k]
    requires at > e + 1 ==> u[at - 1] == t[at - 1]
    requires at <= e + 1 && s[at] == '@' ==> d == Legacy || (d == Mid && s[at + 1] == '#')
    ensures PayloadHolds(d, s, u, Text(at), end) && PayloadSyntax(d, u, Text(at))
    ensures |CString(u, at)| == end - at
  {
    KeptString(s, u, at, end);
    assert CString(u, at)[0] == u[at];
    if s[at] == '@' && d == Mid && s[at + 1] == '#' {
      assert at + 1 < end;
    }
  }

  /** In Strict, an id sliced out of a form that is not @VOID@ is not "VOID". */
  lemma NotVoid(s: seq<char>, u: seq<char>, id: nat, idEnd: nat)
    requires id <= idEnd <= |s| && 0 < id && StringIs(u, id, FoldText(Strict, s[id..idEnd]))
    requires !(idEnd == id + 4 && VoidAt(s, id - 1))
    ensures CString(u, id) != "VOID"
  {
  }

  /** Strings of the lengths a line gives them end before where the next line starts, and lie in order after `c`. */
  lemma CutBounds(u: seq<char>, c: nat, p: Parts)
    requires Spans(p) && p.next < |u| && c <= p.tag && (p.id != Nil ==> c < p.id) && !p.payload.PointerTo?
    requires |CString(u, p.tag)| == p.tagEnd - p.tag
    requires p.id != Nil ==> |CString(u, p.id)| == p.idEnd - p.id
    requires p.payload.Text? || p.payload.PointerText? ==> |CString(u, p.payload.at)| == p.end - p.payload.at
    ensures SlicedBefore(u, p.Node(Nil), p.next + 1) && Ordered(u, p.Node(Nil), c)
  {
  }

  /** The id of a line sliced out holds its bytes of `s`, folded, and has the syntax its dialect allows at `level`. */
  lemma IdCutHolds(d: Dialect, s: seq<char>, t: seq<char>, u: seq<char>, c: nat, level: nat, p: Parts)
    requires Spans(p) && p.next < |t| && CutBytes(d, t, u, p) && SameFrom(s, t, c) && (p.id != Nil ==> c < p.id)
    requires IdFormed(d, s, level, p)
    ensures IdHolds(d, s, u, p.id, p.idEnd)
    ensures p.id != Nil ==> XrefText(d, CString(u, p.id)) && (d == Strict ==> level == 0 && CString(u, p.id) != "VOID")
    ensures p.id != Nil ==> |CString(u, p.id)| == p.idEnd - p.id
  {
    if p.id != Nil {
      CutRuns(d, t, u, p);
      XrefCutHolds(d, s, t, u, c, p.id, p.idEnd);
      if d == Strict {
        NotVoid(s, u, p.id, p.idEnd);
      }
    }
  }

  /** The payload of a line sliced out holds its bytes of `s` and has the syntax its dialect allows. */
  lemma PayloadCutHolds(d: Dialect, s: seq<char>, t: seq<char>, u: seq<char>, c: nat, p: Parts)
    requires Spans(p) && p.next < |t| && CutBytes(d, t, u, p) && SameFrom(s, t, c) && c <= p.tag && !p.payload.PointerTo?
    requires ValueFormed(d, s, p.tagEnd, p.payload, p.end)
    ensures PayloadHolds(d, s, u, p.payload, p.end) && PayloadSyntax(d, u, p.payload)
    ensures p.payload.Text? || p.payload.PointerText? ==> |CString(u, p.payload.at)| == p.end - p.payload.at
  {
    if p.payload.PointerText? {
      CutRuns(d, t, u, p);
      XrefCutHolds(d, s, t, u, c, p.payload.at, p.end);
    }
    if p.payload.Text? {
      TextRun(d, t, u, p);
      TextCutHolds(d, s, t, u, c, p.tagEnd, p.payload.at, p.end);
    }
  }

  /** The strings a line slices into `u`, byte by byte as CutBytes says, hold its bytes of `s` and have its dialect's syntax. */
  lemma CutHolds(d: Dialect, s: seq<char>, t: seq<char>, u: seq<char>, c: nat, level: nat, p: Parts)
    requires Spans(p) && p.next < |t| && CutBytes(d, t, u, p) && SameFrom(s, t, c) && c <= p.tag
    requires (p.id != Nil ==> c < p.id) && !p.payload.PointerTo?
    requires IdFormed(d, s, level, p) && TagFormed(d, s, p) && PayloadFormed(d, s, p)
    ensures Holds(d, s, u, p) && NodeSyntax(d, u, p.Node(Nil), level)
    ensures SlicedBefore(u, p.Node(Nil), p.next + 1) && Ordered(u, p.Node(Nil), c)
  {
    CutRuns(d, t, u, p);
    TagCutHolds(d, s, t, u, c, p.tag, p.tagEnd);
    IdCutHolds(d, s, t, u, c, level, p);
    PayloadCutHolds(d, s, t, u, c, p);
    CutBounds(u, c, p);
  }

  /** From where the next line starts, a line sliced out leaves the bytes of `s`. */
  lemma CutKeepsRest(d: Dialect, s: seq<char>, t: seq<char>, u: seq<char>, c: nat, p: Parts)
    requires Spans(p) && p.next < |t| && CutBytes(d, t, u, p) && SameFrom(s, t, c) && c <= p.tag
    requires p.next == BreakAt(p.payload, p.end) < |s| ==> s[p.next] == NUL
    ensures SameFrom(s, u, p.next)
  {
    forall k | p.next <= k < |s|
      ensures u[k] == s[k]
    {
      assert u[k] == CutAt(d, t, p, k);
    }
  }

  /**
   * What slicing the line with parts `p` out of `t` leaves (parser.c:367-422),
   * where `t` holds the bytes of `s` from `c` on and PartsAt reads `p` there
   * for a line at `level`: each string of the line holds its bytes of `s`,
   * the node made from it has the syntax its dialect allows, its strings lie
   * in order after `c` and end before where the next line starts, and from
   * there on the buffer still holds the bytes of `s`.
   */
  lemma LineCutHolds(d: Dialect, s: seq<char>, t: seq<char>, c: nat, level: nat, p: Parts)
    requires Terminated(s) && c < |s| && SameFrom(s, t, c) && PartsAt(d, s, c, level) == Accept(p)
    ensures var u := LineCut(d, t, p);
      && Holds(d, s, u, p) && SameFrom(s, u, p.next)
      && NodeSyntax(d, u, p.Node(Nil), level) && SlicedBefore(u, p.Node(Nil), p.next + 1) && Ordered(u, p.Node(Nil), c)
  {
    var u := LineCut(d, t, p);
    PartsBytes(d, s, c, level, p);
    LineCutBytes(d, t, p);
    assert CutBytes(d, t, u, p);
    CutHolds(d, s, t, u, c, level, p);
    CutKeepsRest(d, s, t, u, c, p);
  }
}
