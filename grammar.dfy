/**
 * How the grammar of each dialect reads the lines of a buffer
 * (parser.c:351-422), stated over the bytes as they are before parsing:
 * for every line, where it starts, its level, and where its id, tag and
 * payload lie; or the first line that breaks the grammar, with its fault
 * and line number. The line loop slices the buffer as it goes, but every
 * test it makes on a line looks at bytes it has not yet written to, so it
 * reads exactly this.
 */
module Grammar {
  import opened GedcomTypes
  import opened Scanners
  import opened LineParts

  /** The outcome of reading a part of a line: the fault the grammar finds there, or what it reads. */
  datatype Verdict<T> = Reject(fault: Fault) | Accept(value: T)

  /** A verdict as parseGEDCOM reports it on the line numbered `line`. */
  function Outcome<T>(v: Verdict<T>, line: nat): (r: Result<T>)
    ensures r.Err? <==> v.Reject?
    ensures r.Err? ==> r.error == ParseError(v.fault, line)
    ensures r.Ok? ==> r.value == v.value
  {
    match v
    case Reject(f) => Err(ParseError(f, line))
    case Accept(x) => Ok(x)
  }

  /** The faults a line can draw in a dialect, for a line at `level` (parser.c:357-420). */
  predicate LineFault(d: Dialect, f: Fault, level: nat)
  {
    match f
    case NoLevelDelim | NoIdDelim => d != Legacy
    case IdOnSubstructure => d == Strict && level > 0
    case VoidId | SingleAtStrict | EmptyPayload => d == Strict
    case SingleAtMid => d == Mid
    case MissingLevel | SkippedLevel | InvalidId | NoTag | NoLineBreak => true
    case _ => false
  }

  // ---------------------------------------------------------------- widths

  /** The length of the run of digits at `i`. */
  function DigitWidth(s: seq<char>, i: nat): (n: nat)
    requires Terminated(s) && i < |s|
    ensures DigitRun(s, i, n)
    decreases |s| - i
  {
    if IsDigit(s[i]) then 1 + DigitWidth(s, i + 1) else 0
  }

  /** Where the level of the line at `c` starts, once the dialect has skipped what may lead it (parser.c:160-176). */
  function LevelStart(d: Dialect, s: seq<char>, c: nat): (at: nat)
    requires Terminated(s) && c < |s|
    ensures c <= at < |s|
  {
    if d == Strict then c + Lstart7(s, c) else SkipTrivia(s, c)
  }

  /** What the dialect's level recogniser reads at `i` (parser.c:177-189): how many bytes, and the level. */
  function LevelAt(d: Dialect, s: seq<char>, i: nat): (r: (nat, nat))
    requires Terminated(s) && i < |s|
    ensures i + r.0 < |s|
    ensures r.0 == 0 <==> !IsDigit(s[i])
  {
    if d != Legacy && s[i] == '0' then (1, 0)
    else
      var n := DigitWidth(s, i);
      (n, DigitsValue(s[i..i + n]))
  }

  /** How many bytes the dialect's xref recogniser takes at `i`: the length of its `@...@` form, or 0. */
  ghost function XrefWidth(d: Dialect, s: seq<char>, i: nat): (n: nat)
    ensures n != 0 ==> XrefForm(d, s, i, n)
    ensures n == 0 ==> forall m: nat :: !XrefForm(d, s, i, m)
  {
    if exists m: nat :: XrefForm(d, s, i, m) then
      var m: nat :| XrefForm(d, s, i, m);
      m
    else 0
  }

  /** An xref form has one length: it closes at the first '@' after the one that opens it. */
  lemma XrefFormUnique(d: Dialect, s: seq<char>, i: nat, m: nat, m': nat)
    requires XrefForm(d, s, i, m) && XrefForm(d, s, i, m')
    ensures m == m'
  {
    XrefFormBytes(d, s, i, m);
    XrefFormBytes(d, s, i, m');
  }

  /** A length described as the xref recogniser describes its result is XrefWidth. */
  lemma XrefWidthIs(d: Dialect, s: seq<char>, i: nat, n: nat)
    requires Terminated(s) && i < |s|
    requires n != 0 ==> XrefForm(d, s, i, n)
    requires n == 0 ==> forall m: nat :: !XrefForm(d, s, i, m)
    ensures n == XrefWidth(d, s, i)
  {
    var w := XrefWidth(d, s, i);
    if n != 0 && w != 0 {
      XrefFormUnique(d, s, i, n, w);
    }
  }

  /** The byte at `j` may stand at its offset in a tag starting at `i`. */
  predicate TagByteAt(d: Dialect, s: seq<char>, i: nat, j: nat)
  {
    i <= j < |s| && TagByte(d, s[j], j - i)
  }

  /** The length of the run of tag bytes at `i`, counted on from offset `k` of the tag. */
  function TagRun(d: Dialect, s: seq<char>, i: nat, k: nat): (n: nat)
    requires Terminated(s) && i + k < |s|
    ensures k <= n && i + n < |s|
    ensures forall j {:trigger TagByteAt(d, s, i, j)} :: i + k <= j < i + n ==> TagByteAt(d, s, i, j)
    ensures !TagByte(d, s[i + n], n)
    decreases |s| - (i + k)
  {
    if TagByte(d, s[i + k], k) then
      assert s[i + k] != NUL;
      TagRun(d, s, i, k + 1)
    else k
  }

  /** How many bytes the dialect's tag recogniser takes at `i`. */
  function TagWidth(d: Dialect, s: seq<char>, i: nat): (n: nat)
    requires Terminated(s) && i < |s|
    ensures i + n < |s|
    ensures n == 0 <==> !TagByte(d, s[i], 0)
  {
    TagRun(d, s, i, 0)
  }

  /** A length described as the tag recogniser describes its result is TagWidth. */
  lemma TagWidthIs(d: Dialect, s: seq<char>, i: nat, n: nat)
    requires Terminated(s) && i + n < |s|
    requires forall j :: i <= j < i + n ==> TagByte(d, s[j], j - i)
    requires !TagByte(d, s[i + n], n)
    ensures n == TagWidth(d, s, i)
  {
    var w := TagWidth(d, s, i);
    assert !TagByteAt(d, s, i, i + n) && !TagByteAt(d, s, i, i + w);
  }

  // ---------------------------------------------------------------- one line

  /** Where a line's id lies: its first byte (Nil for none) and the byte after it, and where the tag starts. */
  datatype IdRead = IdRead(id: int, idEnd: nat, tag: nat)

  /** The form at `c` spells @VOID@, the null pointer, once its closing '@' is known. */
  predicate VoidAt(s: seq<char>, c: nat)
  {
    c + 4 < |s| && s[c + 1] == 'V' && s[c + 2] == 'O' && s[c + 3] == 'I' && s[c + 4] == 'D'
  }

  /**
   * The optional xref_id at `c` of a line at `level` (parser.c:371-381): the
   * length of its `@...@` form, or 0 without one. An '@' that starts no form
   * is an invalid id; Strict allows ids on records only, and not "VOID".
   */
  ghost function IdForm(d: Dialect, s: seq<char>, c: nat, level: nat): (r: Verdict<nat>)
    requires Terminated(s) && c < |s|
    ensures r.Accept? && r.value != 0 ==> 3 <= r.value && XrefForm(d, s, c, r.value) && c + r.value < |s|
    ensures r.Accept? && r.value == 0 ==> s[c] != '@'
    ensures r.Reject? ==> r.fault in {InvalidId, IdOnSubstructure, VoidId} && LineFault(d, r.fault, level)
  {
    var x := XrefWidth(d, s, c);
    if x == 0 then
      if s[c] == '@' then Reject(InvalidId) else Accept(0)
    else
      XrefFormShape(d, s, c, x);
      if d == Strict && level > 0 then Reject(IdOnSubstructure)
      else if d == Strict && x == 6 && VoidAt(s, c) then
        Reject(VoidId)
      else Accept(x)
  }

  /** The delimiter that must follow an xref form `x` bytes long at `c` (parser.c:382-384). */
  function DelimAfter(d: Dialect, s: seq<char>, c: nat, x: nat): (r: Verdict<IdRead>)
    requires Terminated(s) && 3 <= x && c + x < |s|
    ensures r.Accept? ==> r.value.id == c + 1 && r.value.idEnd == c + x - 1 && c + x <= r.value.tag < |s|
    ensures r.Reject? ==> r.fault == NoIdDelim && LineFault(d, r.fault, 0)
  {
    var m := DelimWidth(d, s, c + x);
    if d != Legacy && m == 0 then Reject(NoIdDelim) else Accept(IdRead(c + 1, c + x - 1, c + x + m))
  }

  /** The optional xref_id at `c` and the delimiter after it (parser.c:371-385). */
  ghost function IdAt(d: Dialect, s: seq<char>, c: nat, level: nat): (r: Verdict<IdRead>)
    requires Terminated(s) && c < |s|
    ensures r.Accept? ==> c <= r.value.tag < |s|
    ensures r.Accept? && r.value.id == Nil ==> r.value.tag == c
    ensures r.Accept? && r.value.id != Nil ==> c < r.value.id < r.value.idEnd < r.value.tag
    ensures r.Reject? ==> r.fault in {InvalidId, IdOnSubstructure, VoidId, NoIdDelim} && LineFault(d, r.fault, level)
  {
    match IdForm(d, s, c, level)
    case Reject(f) => Reject(f)
    case Accept(x) => if x == 0 then Accept(IdRead(Nil, c, c)) else DelimAfter(d, s, c, x)
  }

  /** What follows the level: a delimiter, then the optional xref_id (parser.c:367-385). */
  ghost function AfterLevel(d: Dialect, s: seq<char>, c: nat, level: nat): (r: Verdict<IdRead>)
    requires Terminated(s) && c < |s|
    ensures r.Accept? ==> c <= r.value.tag < |s|
    ensures r.Accept? && r.value.id != Nil ==> c < r.value.id < r.value.idEnd < r.value.tag
    ensures r.Reject? ==> r.fault in {NoLevelDelim, InvalidId, IdOnSubstructure, VoidId, NoIdDelim} && LineFault(d, r.fault, level)
  {
    var m := DelimWidth(d, s, c);
    if d != Legacy && m == 0 then Reject(NoLevelDelim) else IdAt(d, s, c + m, level)
  }

  /** The tag at `t` (parser.c:387-390): its length, which must not be 0. */
  function TagAt(d: Dialect, s: seq<char>, t: nat): (r: Verdict<nat>)
    requires Terminated(s) && t < |s|
    ensures r.Accept? ==> 0 < r.value && t + r.value < |s|
    ensures r.Reject? ==> r.fault == NoTag
  {
    var n := TagWidth(d, s, t);
    if n == 0 then Reject(NoTag) else Accept(n)
  }

  /** A line value: the payload, where its bytes end, and where the line end is looked for. */
  datatype Value = Value(payload: Payload, end: nat, next: nat)

  /** Where the line end is looked for after a payload whose bytes end at `end`: past the closing '@' of a pointer. */
  function BreakAt(p: Payload, end: nat): nat
  {
    if p.PointerText? then end + 1 else end
  }

  /**
   * A text line value at `c` (parser.c:405-416): the rest of the line. Empty,
   * it is no payload, which Strict refuses. "@@" stands for "@"; any other
   * leading '@' is refused in Strict, and in Mid unless a '#' follows.
   */
  function TextAt(d: Dialect, s: seq<char>, c: nat): (r: Verdict<Value>)
    requires Terminated(s) && c < |s|
    ensures r.Accept? ==> c <= r.value.end == r.value.next < |s|
    ensures r.Accept? && r.value.payload.Text? ==> c <= r.value.payload.at < r.value.end
    ensures r.Accept? ==> r.value.payload.NoPayload? || r.value.payload.Text?
    ensures r.Reject? ==> r.fault in {EmptyPayload, SingleAtStrict, SingleAtMid} && LineFault(d, r.fault, 0)
  {
    var e := RestOfLine(s, c);
    if e == c then
      if d == Strict then Reject(EmptyPayload) else Accept(Value(NoPayload, c, c))
    else if s[c] == '@' && s[c + 1] == '@' then Accept(Value(Text(c + 1), e, e))
    else if s[c] == '@' && d == Strict then Reject(SingleAtStrict)
    else if s[c] == '@' && d == Mid && s[c + 1] != '#' then Reject(SingleAtMid)
    else Accept(Value(Text(c), e, e))
  }

  /**
   * When a text value is refused, and where an accepted one starts: "@@"
   * starts it one byte on; an empty value is refused in Strict only; a
   * single leading '@' is refused in Strict, and in Mid unless a '#' follows.
   */
  lemma TextAtCases(d: Dialect, s: seq<char>, c: nat)
    requires Terminated(s) && c < |s|
    ensures var r := TextAt(d, s, c);
      && (r.Accept? && r.value.payload.Text? ==> r.value.payload.at == if s[c] == '@' && s[c + 1] == '@' then c + 1 else c)
      && (r == Reject(EmptyPayload) <==> d == Strict && !IsTextChar(s[c]))
      && (r == Reject(SingleAtStrict) <==> d == Strict && s[c] == '@' && s[c + 1] != '@')
      && (r == Reject(SingleAtMid) <==> d == Mid && s[c] == '@' && s[c + 1] != '@' && s[c + 1] != '#')
  {
  }

  /** A line value at `c` (parser.c:396-416): a pointer if an xref form starts there, otherwise a text. */
  ghost function ValueAt(d: Dialect, s: seq<char>, c: nat): (r: Verdict<Value>)
    requires Terminated(s) && c < |s|
    ensures r.Accept? ==> c <= r.value.end && r.value.next == BreakAt(r.value.payload, r.value.end) < |s|
    ensures r.Accept? && (r.value.payload.Text? || r.value.payload.PointerText?) ==> c <= r.value.payload.at < r.value.end
    ensures r.Accept? ==> !r.value.payload.PointerTo?
    ensures r.Reject? ==> r.fault in {EmptyPayload, SingleAtStrict, SingleAtMid} && LineFault(d, r.fault, 0)
  {
    var x := XrefWidth(d, s, c);
    if x != 0 then
      XrefFormShape(d, s, c, x);
      Accept(Value(PointerText(c + 1), c + x - 1, c + x))
    else TextAt(d, s, c)
  }

  /** What follows a tag ending at `e` (parser.c:392-418): without a delimiter no payload, with one a line value. */
  ghost function PayloadAt(d: Dialect, s: seq<char>, e: nat): (r: Verdict<Value>)
    requires Terminated(s) && e < |s|
    ensures r.Accept? ==> e <= r.value.end && r.value.next == BreakAt(r.value.payload, r.value.end) < |s|
    ensures r.Accept? && DelimWidth(d, s, e) != 0 ==> e < r.value.end
    ensures r.Accept? && (r.value.payload.Text? || r.value.payload.PointerText?) ==> e < r.value.payload.at < r.value.end
    ensures r.Accept? ==> !r.value.payload.PointerTo?
    ensures r.Reject? ==> r.fault in {EmptyPayload, SingleAtStrict, SingleAtMid} && LineFault(d, r.fault, 0)
  {
    if DelimWidth(d, s, e) == 0 then Accept(Value(NoPayload, e, e)) else ValueAt(d, s, ValueStart(d, s, e))
  }

  /** Where the line value after a tag ending at `e` starts: past the delimiter. */
  function ValueStart(d: Dialect, s: seq<char>, e: nat): (c: nat)
    requires Terminated(s) && e < |s|
    ensures e <= c < |s|
  {
    e + DelimWidth(d, s, e)
  }

  /** The payload of a line, where it ends, where the next line starts, and how many line breaks lie between. */
  datatype Ending = Ending(payload: Payload, end: nat, next: nat, breaks: nat)

  /** The payload after a tag ending at `e`, then the line end (parser.c:392-422), which must be a break or the end of the input. */
  ghost function EndingAt(d: Dialect, s: seq<char>, e: nat): (r: Verdict<Ending>)
    requires Terminated(s) && e < |s|
    ensures r.Accept? ==> e <= r.value.end <= BreakAt(r.value.payload, r.value.end) <= r.value.next < |s|
    ensures r.Accept? && (r.value.payload.Text? || r.value.payload.PointerText?) ==> e < r.value.payload.at < r.value.end
    ensures r.Accept? ==> !r.value.payload.PointerTo?
    ensures r.Reject? ==> r.fault in {EmptyPayload, SingleAtStrict, SingleAtMid, NoLineBreak} && LineFault(d, r.fault, 0)
  {
    match PayloadAt(d, s, e)
    case Reject(f) => Reject(f)
    case Accept(v) =>
      var (n, b) := EolOf(d, s, v.next);
      if n == 0 && s[v.next] != NUL then Reject(NoLineBreak)
      else Accept(Ending(v.payload, v.end, v.next + n, b))
  }

  /** The tag at `t` and what follows it: where the tag ends, and the rest of the line. */
  datatype Body = Body(tagEnd: nat, ending: Ending)

  ghost function BodyAt(d: Dialect, s: seq<char>, t: nat): (r: Verdict<Body>)
    requires Terminated(s) && t < |s|
    ensures r.Accept? ==> t < r.value.tagEnd <= r.value.ending.end
    ensures r.Accept? ==> BreakAt(r.value.ending.payload, r.value.ending.end) <= r.value.ending.next < |s|
    ensures r.Accept? && (r.value.ending.payload.Text? || r.value.ending.payload.PointerText?) ==>
      r.value.tagEnd < r.value.ending.payload.at < r.value.ending.end
    ensures r.Accept? ==> !r.value.ending.payload.PointerTo?
    ensures r.Reject? ==> r.fault in {NoTag, EmptyPayload, SingleAtStrict, SingleAtMid, NoLineBreak} && LineFault(d, r.fault, 0)
  {
    match TagAt(d, s, t)
    case Reject(f) => Reject(f)
    case Accept(_) =>
      match EndingAt(d, s, TagEnd(d, s, t))
      case Reject(f) => Reject(f)
      case Accept(x) => Accept(Body(TagEnd(d, s, t), x))
  }

  /** Where the tag at `t` ends, and the rest of the line starts. */
  function TagEnd(d: Dialect, s: seq<char>, t: nat): (e: nat)
    requires Terminated(s) && t < |s|
    ensures TagAt(d, s, t).Accept? ==> e == t + TagAt(d, s, t).value
  {
    t + TagWidth(d, s, t)
  }

  /**
   * The parts of one line, each a stretch of the buffer: the id (Nil for
   * none) up to `idEnd`, the tag up to `tagEnd`, the payload up to `end`;
   * then where the next line starts and how many line breaks lie between.
   */
  datatype Parts = Parts(id: int, idEnd: nat, tag: nat, tagEnd: nat, payload: Payload, end: nat, next: nat, breaks: nat)
  {
    /** The node parseGEDCOM allocates for the line, before it is linked. */
    function Node(parent: int): Node
    {
      GedcomTypes.Node(tag, id, payload, Nil, Nil, parent)
    }
  }

  /**
   * The parts of a line lie in order: the id (if any) before the tag, the
   * tag before the payload, the payload before where the next line starts.
   */
  predicate Spans(p: Parts)
  {
    && p.tag < p.tagEnd <= p.end <= BreakAt(p.payload, p.end) <= p.next
    && (p.id != Nil ==> 0 <= p.id < p.idEnd < p.tag)
    && (p.payload.Text? || p.payload.PointerText? ==> p.tagEnd < p.payload.at < p.end)
  }

  /** The parts of a line at `level` after its level, which ends at `c` (parser.c:367-422). */
  ghost function PartsAt(d: Dialect, s: seq<char>, c: nat, level: nat): (r: Verdict<Parts>)
    requires Terminated(s) && c < |s|
    ensures r.Accept? ==> c <= r.value.tag && r.value.next < |s| && Spans(r.value)
    ensures r.Accept? && r.value.id != Nil ==> c < r.value.id
    ensures r.Accept? ==> !r.value.payload.PointerTo?
    ensures r.Reject? ==> r.fault !in {MissingLevel, SkippedLevel} && LineFault(d, r.fault, level)
  {
    match AfterLevel(d, s, c, level)
    case Reject(f) => Reject(f)
    case Accept(i) =>
      match BodyAt(d, s, i.tag)
      case Reject(f) => Reject(f)
      case Accept(b) =>
        Accept(Parts(i.id, i.idEnd, i.tag, b.tagEnd, b.ending.payload, b.ending.end, b.ending.next, b.ending.breaks))
  }

  /** A line: where it starts, its level and its parts. */
  datatype Line = Line(start: nat, level: nat, parts: Parts)

  /**
   * The line at `c`, after a line at `depth` (-1 before the first line)
   * (parser.c:354-422): a level must come first, and it may go at most one
   * deeper than the line before.
   */
  ghost function LineAt(d: Dialect, s: seq<char>, c: nat, depth: int): (r: Verdict<Line>)
    requires Terminated(s) && c < |s|
    ensures r.Accept? ==> r.value.start == c < r.value.parts.tag && r.value.parts.next < |s| && Spans(r.value.parts)
    ensures r.Accept? ==> r.value.level <= depth + 1
    ensures r.Reject? ==> LineFault(d, r.fault, 1)
  {
    var level := LevelAt(d, s, LevelStart(d, s, c));
    LineOf(c, depth, level.0, level.1, PartsAt(d, s, LevelEnd(d, s, c), level.1))
  }

  /** Where the level of the line at `c` ends, and the parts after it start. */
  function LevelEnd(d: Dialect, s: seq<char>, c: nat): (e: nat)
    requires Terminated(s) && c < |s|
    ensures c <= e < |s|
  {
    LevelStart(d, s, c) + LevelAt(d, s, LevelStart(d, s, c)).0
  }

  /**
   * The verdict on the line at `c` from its pieces: `n`, how many bytes its
   * level takes, `l`, the level, and `pv`, the verdict on the parts after it.
   */
  function LineOf(c: nat, depth: int, n: nat, l: nat, pv: Verdict<Parts>): Verdict<Line>
  {
    if n == 0 then Reject(MissingLevel)
    else if l > depth + 1 then Reject(SkippedLevel)
    else
      match pv
      case Reject(f) => Reject(f)
      case Accept(p) => Accept(Line(c, l, p))
  }

  /** The lines of a buffer, or the error that stops the parse at one of them. */
  datatype Reading = Complete(lines: seq<Line>) | Stopped(error: ParseError)

  /**
   * Lines `xs` read from `c` on follow one another: the first starts at `c`,
   * each starts where the one before ends, the last ends at the terminating
   * NUL, and each goes at most one level deeper than the one before (the
   * first, than `depth`).
   */
  predicate Chained(s: seq<char>, c: nat, depth: int, xs: seq<Line>)
  {
    && c < |s|
    && (xs == [] ==> s[c] == NUL)
    && (xs != [] ==> xs[0].start == c && xs[0].level <= depth + 1)
    && (xs != [] ==> xs[|xs| - 1].parts.next < |s| && s[xs[|xs| - 1].parts.next] == NUL)
    && (forall k :: 0 <= k < |xs| ==> xs[k].start < xs[k].parts.next < |s| && s[xs[k].start] != NUL)
    && (forall k :: 0 < k < |xs| ==> xs[k].start == xs[k - 1].parts.next && xs[k].level <= xs[k - 1].level + 1)
  }

  /** The lines from `c` on, after a line at `depth`, the first of them numbered `line` (parser.c:351-434). */
  ghost function LinesFrom(d: Dialect, s: seq<char>, c: nat, depth: int, line: nat): (r: Reading)
    requires Terminated(s) && c < |s|
    ensures r.Stopped? ==> LineFault(d, r.error.fault, 1) && line <= r.error.line
    ensures r.Complete? ==> Chained(s, c, depth, r.lines)
    decreases |s| - c, 1
  {
    if s[c] == NUL then Complete([]) else LinesAt(d, s, c, depth, line)
  }

  /** The lines from `c` on, where a line starts before the terminating NUL: that line, then the lines after it. */
  ghost function LinesAt(d: Dialect, s: seq<char>, c: nat, depth: int, line: nat): (r: Reading)
    requires Terminated(s) && c < |s| && s[c] != NUL
    ensures r.Stopped? ==> LineFault(d, r.error.fault, 1) && line <= r.error.line
    ensures r.Complete? ==> Chained(s, c, depth, r.lines)
    decreases |s| - c, 0
  {
    match LineAt(d, s, c, depth)
    case Reject(f) => Stopped(ParseError(f, line))
    case Accept(x) =>
      var rest := LinesFrom(d, s, x.parts.next, x.level, line + x.parts.breaks);
      ChainedJoin(s, c, depth, x, rest);
      Join([x], rest)
  }

  /** A line at `c` followed by the reading of the lines after it is a reading from `c`. */
  lemma ChainedJoin(s: seq<char>, c: nat, depth: int, x: Line, rest: Reading)
    requires x.start == c < x.parts.next < |s| && s[c] != NUL && x.level <= depth + 1
    requires rest.Complete? ==> Chained(s, x.parts.next, x.level, rest.lines)
    ensures rest.Complete? ==> Chained(s, c, depth, [x] + rest.lines)
  {
    if rest.Complete? {
      ChainedCons(s, c, depth, x, rest.lines);
    }
  }

  /** A line at `c` that ends where chained lines start, chained before them. */
  lemma ChainedCons(s: seq<char>, c: nat, depth: int, x: Line, xs: seq<Line>)
    requires x.start == c < x.parts.next < |s| && s[c] != NUL && x.level <= depth + 1
    requires Chained(s, x.parts.next, x.level, xs)
    ensures Chained(s, c, depth, [x] + xs)
  {
    var ys := [x] + xs;
    assert forall k :: 0 < k < |ys| ==> ys[k] == xs[k - 1];
  }

  /**
   * When a line is refused before its parts are read (parser.c:354-365):
   * MissingLevel exactly when no level is read, SkippedLevel exactly when the
   * level goes more than one deeper than `depth`. Otherwise the line is what
   * PartsAt reads after the level, at that level.
   */
  lemma LineAtCases(d: Dialect, s: seq<char>, c: nat, depth: int)
    requires Terminated(s) && c < |s|
    ensures var at := LevelStart(d, s, c);
      var n := LevelAt(d, s, at).0;
      var l := LevelAt(d, s, at).1;
      var r := LineAt(d, s, c, depth);
      && (r == Reject(MissingLevel) <==> n == 0)
      && (r == Reject(SkippedLevel) <==> n != 0 && l > depth + 1)
      && (n != 0 && l <= depth + 1 ==>
           && (r.Accept? <==> PartsAt(d, s, LevelEnd(d, s, c), l).Accept?)
           && (r.Accept? ==> r.value == Line(c, l, PartsAt(d, s, LevelEnd(d, s, c), l).value))
           && (r.Reject? ==> r.fault == PartsAt(d, s, LevelEnd(d, s, c), l).fault))
  {
  }

  /**
   * The verdict on the line at `c` is the one its pieces give: how many
   * bytes its level takes (`n`), the level (`l`), and the verdict on the
   * parts after it (`pv`).
   */
  lemma LineAtParts(d: Dialect, s: seq<char>, c: nat, depth: int, n: nat, l: nat, pv: Verdict<Parts>)
    requires Terminated(s) && c < |s|
    requires n == LevelAt(d, s, LevelStart(d, s, c)).0 && l == LevelAt(d, s, LevelStart(d, s, c)).1
    requires pv == PartsAt(d, s, LevelEnd(d, s, c), l)
    ensures LineAt(d, s, c, depth) == LineOf(c, depth, n, l, pv)
  {
  }

  /** The lines of a whole buffer: the first starts at 0 with no line before it, and is line 1. */
  ghost function ReadAll(d: Dialect, s: seq<char>): Reading
    requires Terminated(s)
  {
    LinesFrom(d, s, 0, -1, 1)
  }

  /** The lines `xs` read before a reading `r` of the rest. */
  function Join(xs: seq<Line>, r: Reading): (j: Reading)
    ensures r.Stopped? ==> j == r
    ensures r.Complete? ==> j == Complete(xs + r.lines)
  {
    match r
    case Stopped(_) => r
    case Complete(ys) => Complete(xs + ys)
  }

  /** `r` is the line `x` followed by the reading of the lines after it. */
  ghost predicate Continues(d: Dialect, s: seq<char>, x: Line, line: nat, r: Reading)
    requires Terminated(s) && x.parts.next < |s|
  {
    r == Join([x], LinesFrom(d, s, x.parts.next, x.level, line + x.parts.breaks))
  }

  /** Reading from a byte that is not the terminating NUL starts with a line. */
  lemma LinesFromLine(d: Dialect, s: seq<char>, c: nat, depth: int, line: nat)
    requires Terminated(s) && c < |s| && s[c] != NUL
    ensures LinesFrom(d, s, c, depth, line) == LinesAt(d, s, c, depth, line)
  {
  }

  /** Reading from a line that is accepted goes on after it. */
  lemma LinesAtAccept(d: Dialect, s: seq<char>, c: nat, depth: int, line: nat)
    requires Terminated(s) && c < |s| && s[c] != NUL && LineAt(d, s, c, depth).Accept?
    ensures Continues(d, s, LineAt(d, s, c, depth).value, line, LinesAt(d, s, c, depth, line))
  {
  }

  /** Reading from a line that is refused stops there, at that line's number. */
  lemma LinesAtReject(d: Dialect, s: seq<char>, c: nat, depth: int, line: nat)
    requires Terminated(s) && c < |s| && s[c] != NUL && LineAt(d, s, c, depth).Reject?
    ensures LinesAt(d, s, c, depth, line) == Stopped(ParseError(LineAt(d, s, c, depth).fault, line))
  {
  }

  /** Lines `xs` before a reading that starts with the line `x`: the lines `xs` and `x` before the rest. */
  lemma JoinStep(all: Reading, xs: seq<Line>, here: Reading, x: Line, rest: Reading)
    requires all == Join(xs, here) && here == Join([x], rest)
    ensures all == Join(xs + [x], rest)
  {
    if rest.Complete? {
      assert xs + ([x] + rest.lines) == (xs + [x]) + rest.lines;
    }
  }

  /**
   * The whole buffer reads as the lines `xs`, then the lines from `c` on,
   * after a line at `depth`, the first of them numbered `line`.
   */
  ghost predicate Reads(d: Dialect, s: seq<char>, xs: seq<Line>, c: nat, depth: int, line: nat)
    requires Terminated(s) && c < |s|
  {
    ReadAll(d, s) == Join(xs, LinesFrom(d, s, c, depth, line))
  }

  /** Before the first line, the whole buffer is still to be read. */
  lemma ReadsStart(d: Dialect, s: seq<char>)
    requires Terminated(s)
    ensures Reads(d, s, [], 0, -1, 1)
  {
    var r := ReadAll(d, s);
    if r.Complete? {
      assert [] + r.lines == r.lines;
    }
  }

  /** At the terminating NUL there are no lines left: the buffer reads as the lines read. */
  lemma ReadsEnd(d: Dialect, s: seq<char>, xs: seq<Line>, c: nat, depth: int, line: nat)
    requires Terminated(s) && c < |s| && s[c] == NUL && Reads(d, s, xs, c, depth, line)
    ensures ReadAll(d, s) == Complete(xs)
  {
    assert xs + [] == xs;
  }

  /** Reading from a line that is accepted, as the verdict `v` on it says, goes on after it. */
  lemma LinesFromAccept(d: Dialect, s: seq<char>, c: nat, depth: int, line: nat, v: Verdict<Line>)
    requires Terminated(s) && c < |s| && s[c] != NUL && v == LineAt(d, s, c, depth) && v.Accept?
    ensures v.value.parts.next < |s| && Continues(d, s, v.value, line, LinesFrom(d, s, c, depth, line))
  {
    LinesFromLine(d, s, c, depth, line);
    LinesAtAccept(d, s, c, depth, line);
  }

  /** Lines `xs` before a reading from `c` that starts with the line `x`: the lines `xs` and `x` before the reading after `x`. */
  lemma ReadsPast(d: Dialect, s: seq<char>, xs: seq<Line>, c: nat, depth: int, line: nat, x: Line, next: nat, level: nat, line': nat)
    requires Terminated(s) && c < |s| && next < |s| && Reads(d, s, xs, c, depth, line)
    requires next == x.parts.next && level == x.level && line' == line + x.parts.breaks
    requires Continues(d, s, x, line, LinesFrom(d, s, c, depth, line))
    ensures Reads(d, s, xs + [x], next, level, line')
  {
    JoinStep(ReadAll(d, s), xs, LinesFrom(d, s, c, depth, line), x, LinesFrom(d, s, next, level, line'));
  }

  /** Lines `xs` before a reading from `c` that stops: the whole reading stops with the same error. */
  lemma ReadsStopped(d: Dialect, s: seq<char>, xs: seq<Line>, c: nat, depth: int, line: nat, e: ParseError)
    requires Terminated(s) && c < |s| && Reads(d, s, xs, c, depth, line)
    requires LinesFrom(d, s, c, depth, line) == Stopped(e)
    ensures ReadAll(d, s) == Stopped(e)
  {
  }

  /**
   * The line at `c`, told by how many bytes its level takes (`n`) and the
   * level (`l`), when the level is missing or skips one: the reading stops
   * there, with MissingLevel or SkippedLevel, at line number `line`.
   */
  lemma LevelStops(d: Dialect, s: seq<char>, c: nat, depth: int, line: nat, n: nat, l: nat)
    requires Terminated(s) && c < |s| && s[c] != NUL
    requires n == LevelAt(d, s, LevelStart(d, s, c)).0 && l == LevelAt(d, s, LevelStart(d, s, c)).1
    requires n == 0 || l > depth + 1
    ensures n == 0 ==> LinesFrom(d, s, c, depth, line) == Stopped(ParseError(MissingLevel, line))
    ensures n != 0 ==> LinesFrom(d, s, c, depth, line) == Stopped(ParseError(SkippedLevel, line))
  {
    LineAtParts(d, s, c, depth, n, l, PartsAt(d, s, LevelEnd(d, s, c), l));
    LinesFromLine(d, s, c, depth, line);
    LinesAtReject(d, s, c, depth, line);
  }

  /**
   * The same line when its level is read and does not skip one, and `pv`,
   * the verdict on the parts after the level, refuses them: the reading
   * stops there, with the parts' fault, at line number `line`.
   */
  lemma PartsStop(d: Dialect, s: seq<char>, c: nat, depth: int, line: nat, n: nat, l: nat, pv: Verdict<Parts>)
    requires Terminated(s) && c < |s| && s[c] != NUL
    requires n == LevelAt(d, s, LevelStart(d, s, c)).0 && l == LevelAt(d, s, LevelStart(d, s, c)).1
    requires pv == PartsAt(d, s, LevelEnd(d, s, c), l)
    requires n != 0 && l <= depth + 1 && pv.Reject?
    ensures LinesFrom(d, s, c, depth, line) == Stopped(ParseError(pv.fault, line))
  {
    LineAtParts(d, s, c, depth, n, l, pv);
    LinesFromLine(d, s, c, depth, line);
    LinesAtReject(d, s, c, depth, line);
  }

  /**
   * The same line when `pv` accepts the parts: the reading from `c` is the
   * line they make at level `l`, then the reading after it.
   */
  lemma PartsGo(d: Dialect, s: seq<char>, c: nat, depth: int, line: nat, n: nat, l: nat, pv: Verdict<Parts>)
    requires Terminated(s) && c < |s| && s[c] != NUL
    requires n == LevelAt(d, s, LevelStart(d, s, c)).0 && l == LevelAt(d, s, LevelStart(d, s, c)).1
    requires pv == PartsAt(d, s, LevelEnd(d, s, c), l)
    requires n != 0 && l <= depth + 1 && pv.Accept?
    ensures pv.value.next < |s| && Continues(d, s, Line(c, l, pv.value), line, LinesFrom(d, s, c, depth, line))
  {
    LineAtParts(d, s, c, depth, n, l, pv);
    LinesFromAccept(d, s, c, depth, line, LineAt(d, s, c, depth));
  }

  // ---------------------------------------------------------------- steps

  /*
   * Each reader above, as the one step parseGEDCOM takes: what it is, given
   * what the readers it calls found. The slicing methods follow these steps.
   */

  lemma AfterLevelStep(d: Dialect, s: seq<char>, c: nat, level: nat)
    requires Terminated(s) && c < |s|
    ensures AfterLevel(d, s, c, level) ==
      if d != Legacy && DelimWidth(d, s, c) == 0 then Reject(NoLevelDelim) else IdAt(d, s, c + DelimWidth(d, s, c), level)
  {
  }

  lemma IdAtStep(d: Dialect, s: seq<char>, c: nat, level: nat, x: Verdict<nat>)
    requires Terminated(s) && c < |s| && IdForm(d, s, c, level) == x
    ensures IdAt(d, s, c, level) ==
      if x.Reject? then Reject(x.fault)
      else if x.value == 0 then Accept(IdRead(Nil, c, c))
      else DelimAfter(d, s, c, x.value)
  {
  }

  lemma ValueAtStep(d: Dialect, s: seq<char>, c: nat, x: nat)
    requires Terminated(s) && c < |s| && XrefWidth(d, s, c) == x
    ensures x != 0 ==> 3 <= x && ValueAt(d, s, c) == Accept(Value(PointerText(c + 1), c + x - 1, c + x))
    ensures x == 0 ==> ValueAt(d, s, c) == TextAt(d, s, c)
  {
  }

  lemma PayloadAtStep(d: Dialect, s: seq<char>, e: nat)
    requires Terminated(s) && e < |s|
    ensures PayloadAt(d, s, e) ==
      if DelimWidth(d, s, e) == 0 then Accept(Value(NoPayload, e, e)) else ValueAt(d, s, ValueStart(d, s, e))
  {
  }

  lemma EndingAtStep(d: Dialect, s: seq<char>, e: nat, v: Verdict<Value>)
    requires Terminated(s) && e < |s| && PayloadAt(d, s, e) == v
    ensures v.Accept? ==> var eol := EolOf(d, s, v.value.next);
      EndingAt(d, s, e) ==
        if eol.0 == 0 && s[v.value.next] != NUL then Reject(NoLineBreak)
        else Accept(Ending(v.value.payload, v.value.end, v.value.next + eol.0, eol.1))
    ensures v.Reject? ==> EndingAt(d, s, e) == Reject(v.fault)
  {
  }

  lemma BodyAtStep(d: Dialect, s: seq<char>, t: nat, e: nat, line: nat, tag: Result<nat>, x: Result<Ending>)
    requires Terminated(s) && t < |s| && tag == Outcome(TagAt(d, s, t), line)
    requires tag.Ok? ==> e == TagEnd(d, s, t) && x == Outcome(EndingAt(d, s, e), line)
    ensures Outcome(BodyAt(d, s, t), line) ==
      if tag.Err? then Err(tag.error)
      else if x.Err? then Err(x.error)
      else Ok(Body(e, x.value))
  {
  }

  lemma PartsAtStep(d: Dialect, s: seq<char>, c: nat, level: nat, line: nat, i: Result<IdRead>, b: Result<Body>)
    requires Terminated(s) && c < |s| && i == Outcome(AfterLevel(d, s, c, level), line)
    requires i.Ok? ==> b == Outcome(BodyAt(d, s, i.value.tag), line)
    ensures Outcome(PartsAt(d, s, c, level), line) ==
      if i.Err? then Err(i.error)
      else if b.Err? then Err(b.error)
      else Ok(Parts(i.value.id, i.value.idEnd, i.value.tag, b.value.tagEnd,
                    b.value.ending.payload, b.value.ending.end, b.value.ending.next, b.value.ending.breaks))
  {
  }

  /** Accepted parts are the id AfterLevel reads and the body BodyAt reads after it. */
  lemma PartsAtSplit(d: Dialect, s: seq<char>, c: nat, level: nat, p: Parts)
    requires Terminated(s) && c < |s| && PartsAt(d, s, c, level) == Accept(p)
    ensures AfterLevel(d, s, c, level) == Accept(IdRead(p.id, p.idEnd, p.tag))
    ensures BodyAt(d, s, p.tag) == Accept(Body(p.tagEnd, Ending(p.payload, p.end, p.next, p.breaks)))
  {
  }

  // ---------------------------------------------------------------- what the lines hold

  /** The bytes `w` as the dialect's recognisers leave them: upper-cased in Mid. */
  function FoldText(d: Dialect, w: seq<char>): (r: seq<char>)
    ensures |r| == |w| && forall i :: 0 <= i < |w| ==> r[i] == Folded(d, w[i])
  {
    seq(|w|, i requires 0 <= i < |w| => Folded(d, w[i]))
  }

  /** The C string at `k` of `t` is `w`. */
  predicate StringIs(t: seq<char>, k: int, w: seq<char>)
  {
    0 <= k <= |t| && CString(t, k) == w
  }

  /** An id sliced into `t` holds the bytes [id, idEnd) of `s`, folded. */
  predicate IdHolds(d: Dialect, s: seq<char>, t: seq<char>, id: int, idEnd: nat)
  {
    id != Nil ==> 0 <= id <= idEnd <= |s| && StringIs(t, id, FoldText(d, s[id..idEnd]))
  }

  /** A payload sliced into `t` holds the bytes of `s` up to `end`: a text as it was, a pointer folded. */
  predicate PayloadHolds(d: Dialect, s: seq<char>, t: seq<char>, p: Payload, end: nat)
  {
    match p
    case Text(at) => at <= end <= |s| && StringIs(t, at, s[at..end])
    case PointerText(at) => at <= end <= |s| && StringIs(t, at, FoldText(d, s[at..end]))
    case _ => true
  }

  /**
   * What the strings of a line sliced into `t` hold: its tag and any id or
   * pointer as the dialect folds them, any text as it was in `s`.
   */
  predicate Holds(d: Dialect, s: seq<char>, t: seq<char>, p: Parts)
  {
    && p.tag <= p.tagEnd <= |s| && StringIs(t, p.tag, FoldText(d, s[p.tag..p.tagEnd]))
    && IdHolds(d, s, t, p.id, p.idEnd)
    && PayloadHolds(d, s, t, p.payload, p.end)
  }

  // ---------------------------------------------------------------- reading forward

  /** `t` holds the bytes `s` holds from `c` on. */
  predicate SameFrom(s: seq<char>, t: seq<char>, c: nat)
  {
    |s| == |t| && forall k :: c <= k < |s| ==> s[k] == t[k]
  }

  /** Two buffers that agree from `c` on agree from every later point, and byte by byte. */
  lemma SameFromLater(s: seq<char>, t: seq<char>, c: nat, k: nat)
    requires SameFrom(s, t, c) && c <= k
    ensures SameFrom(s, t, k) && (k < |s| ==> s[k] == t[k])
  {
  }

  /** A maximal run of digits has one length. */
  lemma DigitRunUnique(s: seq<char>, i: nat, n: nat, m: nat)
    requires DigitRun(s, i, n) && DigitRun(s, i, m)
    ensures n == m
  {
  }

  /** Where the level recogniser starts, found on `t`, is where it starts on `s` when the two agree from `c` on. */
  lemma LevelStartIs(d: Dialect, s: seq<char>, t: seq<char>, c: nat, n: nat)
    requires Terminated(s) && Terminated(t) && c < |s| && SameFrom(s, t, c)
    requires d != Strict ==> c + n == SkipTrivia(t, c)
    requires d == Strict ==> n == Lstart7(t, c)
    ensures c + n == LevelStart(d, s, c)
  {
    if d != Strict {
      SkipTriviaLocal(s, t, c);
    }
  }

  /** What the level recogniser reads on `t` is what it reads on `s` when the two agree from `i` on. */
  lemma LevelIs(d: Dialect, s: seq<char>, t: seq<char>, i: nat, n: nat, level: nat)
    requires Terminated(s) && Terminated(t) && i < |s| && SameFrom(s, t, i)
    requires d != Legacy && t[i] == '0' ==> n == 1 && level == 0
    requires d == Legacy || t[i] != '0' ==> DigitRun(t, i, n) && level == DigitsValue(t[i..i + n])
    ensures (n, level) == LevelAt(d, s, i)
  {
    if d == Legacy || t[i] != '0' {
      DigitWidthLocal(s, t, i);
      DigitRunUnique(t, i, n, DigitWidth(t, i));
      assert t[i..i + n] == s[i..i + n];
    }
  }

  lemma Delim5Local(s: seq<char>, t: seq<char>, p: nat)
    requires Terminated(s) && p < |s| && SameFrom(s, t, p)
    ensures Terminated(t) && Delim5Count(s, p) == Delim5Count(t, p)
    decreases |s| - p
  {
    assert t[|t| - 1] == s[|s| - 1];
    if s[p] == NUL {
    } else if s[p] == ' ' || s[p] == '\t' {
      Delim5Local(s, t, p + 1);
    } else if NbspAt(s, p) {
      Delim5Local(s, t, p + 2);
    } else if BomAt(s, p) {
      Delim5Local(s, t, p + 3);
    }
  }

  lemma DelimWidthLocal(d: Dialect, s: seq<char>, t: seq<char>, p: nat)
    requires Terminated(s) && p < |s| && SameFrom(s, t, p)
    ensures Terminated(t) && DelimWidth(d, s, p) == DelimWidth(d, t, p)
  {
    Delim5Local(s, t, p);
  }

  lemma RestOfLineLocal(s: seq<char>, t: seq<char>, j: nat)
    requires Terminated(s) && j < |s| && SameFrom(s, t, j)
    ensures Terminated(t) && RestOfLine(s, j) == RestOfLine(t, j)
    decreases |s| - j
  {
    assert t[|t| - 1] == s[|s| - 1];
    if IsTextChar(s[j]) {
      RestOfLineLocal(s, t, j + 1);
    }
  }

  lemma SkipBlanksLocal(s: seq<char>, t: seq<char>, j: nat)
    requires Terminated(s) && j < |s| && SameFrom(s, t, j)
    ensures Terminated(t) && SkipBlanks(s, j) == SkipBlanks(t, j)
    decreases |s| - j
  {
    assert t[|t| - 1] == s[|s| - 1];
    if IsBlank(s[j]) {
      SkipBlanksLocal(s, t, j + 1);
    }
  }

  lemma BreaksLocal(s: seq<char>, t: seq<char>, j: nat)
    requires Terminated(s) && j < |s| && SameFrom(s, t, j)
    ensures Terminated(t) && Breaks(s, j) == Breaks(t, j)
    decreases |s| - j
  {
    assert t[|t| - 1] == s[|s| - 1];
    SameFromLater(s, t, j, j);
    if s[j] == '\n' || s[j] == '\r' {
      SameFromLater(s, t, j, j + 1);
      var a := AfterBreak(s, j);
      assert a == AfterBreak(t, j);
      SameFromLater(s, t, j, a);
      SkipBlanksLocal(s, t, a);
      SameFromLater(s, t, j, SkipBlanks(s, a));
      BreaksLocal(s, t, SkipBlanks(s, a));
    }
  }

  lemma EolOfLocal(d: Dialect, s: seq<char>, t: seq<char>, i: nat)
    requires Terminated(s) && i < |s| && SameFrom(s, t, i)
    ensures Terminated(t) && EolOf(d, s, i) == EolOf(d, t, i)
  {
    assert t[|t| - 1] == s[|s| - 1];
    match d
    case Legacy =>
      RestOfLineLocal(s, t, i);
      EolOutcomeLocal(s, t, i, RestOfLine(s, i));
    case Mid =>
      SkipBlanksLocal(s, t, i);
      EolOutcomeLocal(s, t, i, SkipBlanks(s, i));
    case Strict =>
  }

  lemma EolOutcomeLocal(s: seq<char>, t: seq<char>, i: nat, from: nat)
    requires Terminated(s) && i <= from < |s| && SameFrom(s, t, i)
    ensures Terminated(t) && EolOutcome(s, i, from) == EolOutcome(t, i, from)
  {
    BreaksLocal(s, t, from);
  }

  lemma SkipTriviaLocal(s: seq<char>, t: seq<char>, j: nat)
    requires Terminated(s) && j < |s| && SameFrom(s, t, j)
    ensures Terminated(t) && SkipTrivia(s, j) == SkipTrivia(t, j)
    decreases |s| - j
  {
    assert t[|t| - 1] == s[|s| - 1];
    if s[j] != NUL && TriviaUnit(s, j) != 0 {
      var u := TriviaUnit(s, j);
      assert u == TriviaUnit(t, j);
      SkipTriviaLocal(s, t, j + u);
    }
  }

  lemma DigitWidthLocal(s: seq<char>, t: seq<char>, i: nat)
    requires Terminated(s) && i < |s| && SameFrom(s, t, i)
    ensures Terminated(t) && DigitWidth(s, i) == DigitWidth(t, i)
    decreases |s| - i
  {
    assert t[|t| - 1] == s[|s| - 1];
    if IsDigit(s[i]) {
      DigitWidthLocal(s, t, i + 1);
    }
  }

  lemma XrefFormLocal(d: Dialect, s: seq<char>, t: seq<char>, i: nat, m: nat)
    requires SameFrom(s, t, i) && XrefForm(d, s, i, m)
    ensures XrefForm(d, t, i, m)
  {
  }

  lemma XrefWidthLocal(d: Dialect, s: seq<char>, t: seq<char>, i: nat)
    requires Terminated(s) && i < |s| && SameFrom(s, t, i)
    ensures XrefWidth(d, s, i) == XrefWidth(d, t, i)
  {
    var n := XrefWidth(d, s, i);
    if n != 0 {
      XrefFormLocal(d, s, t, i, n);
    } else {
      forall m: nat | XrefForm(d, t, i, m)
        ensures false
      {
        XrefFormLocal(d, t, s, i, m);
      }
    }
    assert t[|t| - 1] == s[|s| - 1];
    XrefWidthIs(d, t, i, n);
  }

  lemma TagWidthLocal(d: Dialect, s: seq<char>, t: seq<char>, i: nat)
    requires Terminated(s) && i < |s| && SameFrom(s, t, i)
    ensures Terminated(t) && TagWidth(d, s, i) == TagWidth(d, t, i)
  {
    assert t[|t| - 1] == s[|s| - 1];
    var n := TagWidth(d, s, i);
    forall j | i <= j < i + n
      ensures TagByte(d, t[j], j - i)
    {
      assert TagByteAt(d, s, i, j);
    }
    TagWidthIs(d, t, i, n);
  }

  lemma TextAtLocal(d: Dialect, s: seq<char>, t: seq<char>, c: nat)
    requires Terminated(s) && c < |s| && SameFrom(s, t, c)
    ensures Terminated(t) && TextAt(d, s, c) == TextAt(d, t, c)
  {
    RestOfLineLocal(s, t, c);
  }
}
