/**
 * The recognisers parseGEDCOM chooses for a dialect (parser.c:309-333), and
 * what the parts of a line they accept look like once sliced out of the
 * buffer.
 */
module LineParts {
  import opened GedcomTypes
  import opened Scanners

  /** A byte the dialect's tag recogniser accepts at offset `pos` of a tag, as it is in the input. */
  predicate TagByte(d: Dialect, ch: char, pos: nat)
  {
    match d
    case Legacy => IsTag1Char(ch) && (pos == 0 ==> ch != '@')
    case Mid => IsIdent5(ch)
    case Strict => IsTag7Char(ch, pos)
  }

  /** A byte the dialect's xref recogniser accepts at offset `pos` between the two '@'s. */
  predicate XrefByte(d: Dialect, ch: char, pos: nat)
  {
    match d
    case Legacy => IsXref1Char(ch) && (pos == 0 ==> ch != '#')
    case Mid => IsXref1Char(ch) && (pos == 0 ==> IsIdent5(ch))
    case Strict => IsXref7Char(ch)
  }

  /** What the Mid recognisers leave of a byte: lower-case letters are upper-cased (parser.c:220, 246). */
  function Folded(d: Dialect, ch: char): (r: char)
    ensures d != Mid ==> r == ch
    ensures d == Mid ==> r == Upcase(ch)
  {
    if d == Mid then Upcase(ch) else ch
  }

  /** A tag as the node holds it: non-empty, every byte allowed, upper case in Mid. */
  predicate TagText(d: Dialect, w: seq<char>)
  {
    && |w| > 0
    && forall i :: 0 <= i < |w| ==> TagByte(d, w[i], i) && (d == Mid ==> !IsLower(w[i]))
  }

  /** An id or pointer as the node holds it, without its '@'s. */
  predicate XrefText(d: Dialect, w: seq<char>)
  {
    && |w| > 0
    && forall i :: 0 <= i < |w| ==> XrefByte(d, w[i], i) && (d == Mid ==> !IsLower(w[i]))
  }

  /** The `@...@` form the dialect's xref recogniser accepts, `m` bytes long. */
  predicate XrefForm(d: Dialect, s: seq<char>, i: nat, m: nat)
  {
    match d
    case Legacy => Xref1Form(s, i, m)
    case Mid => Xref5Form(s, i, m)
    case Strict => Xref7Form(s, i, m)
  }

  /** Each form opens and closes with an '@' and holds at least one byte. */
  lemma XrefFormShape(d: Dialect, s: seq<char>, i: nat, m: nat)
    requires XrefForm(d, s, i, m)
    ensures 3 <= m && i + m <= |s| && s[i] == '@' && s[i + m - 1] == '@'
  {
  }

  /** Each form is an '@', at least one byte the dialect allows, and an '@'. */
  lemma XrefFormBytes(d: Dialect, s: seq<char>, i: nat, m: nat)
    requires XrefForm(d, s, i, m)
    ensures 3 <= m && i + m <= |s| && s[i] == '@' && s[i + m - 1] == '@'
    ensures forall k :: i < k < i + m - 1 ==> XrefByte(d, s[k], k - i - 1)
  {
  }

  method ScanLstart(d: Dialect, buf: array<char>, i: nat) returns (n: nat)
    requires Terminated(buf[..]) && i < buf.Length
    ensures d != Strict ==> i + n == SkipTrivia(buf[..], i)
    ensures d == Strict ==> n == Lstart7(buf[..], i)
    ensures i + n < buf.Length
  {
    if d == Strict {
      n := Lstart7(buf[..], i);
    } else {
      n := Lstart5(buf, i);
    }
  }

  method ScanLevel(d: Dialect, buf: array<char>, i: nat) returns (n: nat, level: nat)
    requires Terminated(buf[..]) && i < buf.Length
    ensures d != Legacy && buf[i] == '0' ==> n == 1 && level == 0
    ensures d == Legacy || buf[i] != '0' ==> DigitRun(buf[..], i, n) && level == DigitsValue(buf[i..i + n])
    ensures i + n < buf.Length
  {
    if d == Legacy {
      n, level := Level1(buf, i);
    } else {
      n, level := Level7(buf, i);
    }
  }

  /** How many delimiter bytes the dialect's recogniser takes at `i`: a run of them below Strict, one space in Strict. */
  function DelimWidth(d: Dialect, s: seq<char>, i: nat): (n: nat)
    requires Terminated(s) && i < |s|
    ensures i + n < |s| && NoNul(s, i, i + n)
  {
    if d == Strict then Delim7(s, i) else Delim5Count(s, i)
  }

  method ScanDelim(d: Dialect, buf: array<char>, i: nat) returns (n: nat)
    requires Terminated(buf[..]) && i < buf.Length
    ensures n == DelimWidth(d, buf[..], i)
  {
    if d == Strict {
      n := Delim7(buf[..], i);
    } else {
      n := Delim5(buf, i);
    }
  }

  /** `s` with the bytes in [lo, hi) as the dialect's recognisers leave them. */
  function FoldIn(d: Dialect, s: seq<char>, lo: nat, hi: nat): (r: seq<char>)
    requires lo <= hi <= |s|
    ensures |r| == |s|
    ensures d != Mid || lo == hi ==> r == s
    decreases hi - lo
  {
    if d != Mid || lo == hi then s else FoldIn(d, s, lo, hi - 1)[hi - 1 := Folded(d, s[hi - 1])]
  }

  /** Folding changes the bytes in [lo, hi) and no others. */
  lemma FoldInBytes(d: Dialect, s: seq<char>, lo: nat, hi: nat)
    requires lo <= hi <= |s|
    ensures forall k {:trigger FoldIn(d, s, lo, hi)[k]} :: 0 <= k < |s| ==>
      FoldIn(d, s, lo, hi)[k] == if lo <= k < hi then Folded(d, s[k]) else s[k]
    decreases hi - lo
  {
    if d == Mid && lo < hi {
      FoldInBytes(d, s, lo, hi - 1);
    }
  }

  /**
   * The dialect's xref recogniser. Only the Mid one writes to the buffer: it
   * upper-cases the `folded` bytes it scans after an '@' followed by a
   * letter, digit or underscore, even when no closing '@' follows.
   */
  method ScanXref(d: Dialect, buf: array<char>, i: nat) returns (n: nat, ghost folded: nat)
    requires Terminated(buf[..]) && i < buf.Length
    modifies buf
    ensures i + 1 + folded <= buf.Length
    ensures buf[..] == FoldIn(d, old(buf[..]), i + 1, i + 1 + folded)
    ensures n != 0 ==> XrefForm(d, old(buf[..]), i, n) && i + n < buf.Length
    ensures n != 0 && d == Mid ==> folded == n - 2
    ensures n == 0 ==> forall m: nat :: !XrefForm(d, old(buf[..]), i, m)
    ensures folded > 0 ==> d == Mid && old(buf[i]) == '@' && IsIdent5(old(buf[i + 1]))
  {
    folded := 0;
    match d
    case Legacy =>
      n := Xref1(buf, i);
    case Mid =>
      ghost var s := buf[..];
      n, folded := Xref5(buf, i);
      FoldInBytes(d, s, i + 1, i + 1 + folded);
      assert buf[..] == FoldIn(d, s, i + 1, i + 1 + folded);
    case Strict =>
      n := Xref7(buf, i);
  }

  /** The dialect's tag recogniser; the Mid one upper-cases the tag in place. */
  method ScanTag(d: Dialect, buf: array<char>, i: nat) returns (n: nat)
    requires Terminated(buf[..]) && i < buf.Length
    modifies buf
    ensures i + n < buf.Length
    ensures buf[..] == FoldIn(d, old(buf[..]), i, i + n)
    ensures forall k :: i <= k < i + n ==> TagByte(d, old(buf[k]), k - i)
    ensures !TagByte(d, old(buf[i + n]), n)
  {
    match d
    case Legacy =>
      n := Tag1(buf, i);
    case Mid =>
      ghost var s := buf[..];
      n := Tag5(buf, i);
      FoldInBytes(d, s, i, i + n);
      assert buf[..] == FoldIn(d, s, i, i + n);
    case Strict =>
      n := Tag7(buf, i);
  }

  /** What the dialect's end-of-line recogniser returns at `i`: how far to advance, and how many lines that passes. */
  function EolOf(d: Dialect, s: seq<char>, i: nat): (r: (nat, nat))
    requires Terminated(s) && i < |s|
    ensures i + r.0 < |s| && (r.0 == 0 ==> r.1 == 0)
  {
    match d
    case Legacy => EolOutcome(s, i, RestOfLine(s, i))
    case Mid => EolOutcome(s, i, SkipBlanks(s, i))
    case Strict => Eol7(s, i)
  }

  /** The dialect's end-of-line recogniser. */
  method ScanEol(d: Dialect, buf: array<char>, i: nat) returns (n: nat, breaks: nat)
    requires Terminated(buf[..]) && i < buf.Length
    ensures (n, breaks) == EolOf(d, buf[..], i)
  {
    match d
    case Legacy =>
      n, breaks := Eol1(buf, i);
    case Mid =>
      n, breaks := Eol5(buf, i);
    case Strict =>
      var r := Eol7(buf[..], i);
      n, breaks := r.0, r.1;
  }
}
