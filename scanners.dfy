/**
 * The line-part recognisers of parser.c (lines 157-296). Each looks at the
 * buffer from index `i` on and returns how many bytes it recognised, or 0.
 * parseGEDCOM picks one recogniser of each kind per dialect:
 *
 *   part       Legacy    Mid       Strict
 *   lstart     Lstart5   Lstart5   Lstart7
 *   level      Level1    Level7    Level7
 *   delim      Delim5    Delim5    Delim7
 *   xref       Xref1     Xref5     Xref7
 *   tag        Tag1      Tag5      Tag7
 *   text       Text7     Text7     Text7
 *   eol        Eol1      Eol5      Eol7
 *
 * The buffer is one NUL-terminated C string; every recogniser stops at a
 * NUL, so it never reads past the end.
 */
module Scanners {
  import opened GedcomTypes

  /** The UTF-8 encodings of U+00A0 (no-break space) and U+FEFF (byte order mark). */
  const NbspLead: char := '\U{00C2}'
  const NbspTrail: char := '\U{00A0}'
  const Bom0: char := '\U{00EF}'
  const Bom1: char := '\U{00BB}'
  const Bom2: char := '\U{00BF}'

  predicate IsDigit(ch: char) { '0' <= ch <= '9' }
  predicate IsUpper(ch: char) { 'A' <= ch <= 'Z' }
  predicate IsLower(ch: char) { 'a' <= ch <= 'z' }

  /** The in-place case normalisation of xref5 and tag5: a-z to A-Z, nothing else. */
  function Upcase(ch: char): (r: char)
    ensures IsLower(ch) ==> IsUpper(r) && r as int == ch as int - 32
    ensures !IsLower(ch) ==> r == ch
  {
    if IsLower(ch) then (ch as int - 32) as char else ch
  }

  /** Position `j` starts a two-byte no-break space. */
  predicate NbspAt(s: seq<char>, j: nat)
  {
    j + 1 < |s| && s[j] == NbspLead && s[j + 1] == NbspTrail
  }

  /** Position `j` starts a three-byte byte order mark. */
  predicate BomAt(s: seq<char>, j: nat)
  {
    j + 2 < |s| && s[j] == Bom0 && s[j + 1] == Bom1 && s[j + 2] == Bom2
  }

  /** A stretch of a C string scanned without meeting its NUL. */
  predicate NulAt(s: seq<char>, k: nat)
  {
    k < |s| && s[k] == NUL
  }

  predicate NoNul(s: seq<char>, lo: nat, hi: nat)
  {
    forall k {:trigger NulAt(s, k)} :: lo <= k < hi ==> !NulAt(s, k)
  }

  lemma NulStops(s: seq<char>, lo: nat, hi: nat)
    requires Terminated(s) && lo < |s| && lo <= hi && NoNul(s, lo, hi)
    ensures hi < |s| || lo == hi
  {
    assert NulAt(s, |s| - 1);
  }

  // ---------------------------------------------------------------- lstart

  /** The length of the leading-whitespace unit lstart5 skips at `j`, or 0. */
  function TriviaUnit(s: seq<char>, j: nat): (u: nat)
    requires j < |s|
    ensures u <= 3
    ensures u == 1 <==> s[j] in {' ', '\t', '\r'}
    ensures u == 2 <==> NbspAt(s, j)
    ensures u == 3 <==> BomAt(s, j)
  {
    if s[j] == ' ' || s[j] == '\t' || s[j] == '\r' then 1
    else if NbspAt(s, j) then 2
    else if BomAt(s, j) then 3
    else 0
  }

  /** A byte that can belong to a unit TriviaUnit recognises. */
  predicate IsTriviaByte(ch: char)
  {
    ch in {' ', '\t', '\r', NbspLead, NbspTrail, Bom0, Bom1, Bom2}
  }

  /**
   * Where lstart5 stops: it skips whole units (space, tab, carriage return,
   * no-break space, byte order mark) and stops at the first position where
   * none begins.
   */
  function SkipTrivia(s: seq<char>, j: nat): (e: nat)
    requires Terminated(s) && j < |s|
    ensures j <= e < |s|
    ensures s[e] == NUL || TriviaUnit(s, e) == 0
    ensures forall k {:trigger IsTriviaByte(s[k])} :: j <= k < e ==> IsTriviaByte(s[k])
    decreases |s| - j
  {
    if s[j] == NUL || TriviaUnit(s, j) == 0 then j
    else
      var u := TriviaUnit(s, j);
      assert NoNul(s, j, j + u);
      NulStops(s, j, j + u);
      SkipTrivia(s, j + u)
  }

  /**
   * lstart5 (parser.c:160-169). The source tests '\r' twice on line 163; the
   * second test adds nothing, so the model tests it once.
   */
  method Lstart5(buf: array<char>, i: nat) returns (n: nat)
    requires Terminated(buf[..]) && i < buf.Length
    ensures i + n == SkipTrivia(buf[..], i)
  {
    var j := 0;
    while buf[i + j] != NUL
      invariant i + j < buf.Length
      invariant SkipTrivia(buf[..], i + j) == SkipTrivia(buf[..], i)
      decreases buf.Length - j
    {
      var u := TriviaUnit(buf[..], i + j);
      if u == 0 {
        break;
      }
      j := j + u;
    }
    n := j;
  }

  /** lstart7 (parser.c:170-174): only a byte order mark may precede a line. */
  function Lstart7(s: seq<char>, i: nat): (n: nat)
    requires i < |s|
    ensures n == 3 <==> BomAt(s, i)
    ensures n == 0 <==> !BomAt(s, i)
  {
    if BomAt(s, i) then 3 else 0
  }

  // ---------------------------------------------------------------- level

  /** The value of a run of decimal digits, most significant first. */
  function DigitsValue(ds: seq<char>): (v: nat)
    requires forall k :: 0 <= k < |ds| ==> IsDigit(ds[k])
  {
    if ds == [] then 0
    else
      assert IsDigit(ds[|ds| - 1]);
      DigitsValue(ds[..|ds| - 1]) * 10 + (ds[|ds| - 1] as int - '0' as int)
  }

  /** A maximal run of digits starts at `i` and is `n` bytes long. */
  predicate DigitRun(s: seq<char>, i: nat, n: nat)
  {
    && i + n < |s|
    && (forall k :: i <= k < i + n ==> IsDigit(s[k]))
    && !IsDigit(s[i + n])
  }

  /**
   * level1 (parser.c:177-182): the maximal digit run and its decimal value.
   * C's `int` would overflow on a run of more than nine digits; the model's
   * integers do not.
   */
  method Level1(buf: array<char>, i: nat) returns (n: nat, level: nat)
    requires Terminated(buf[..]) && i < buf.Length
    ensures DigitRun(buf[..], i, n)
    ensures level == DigitsValue(buf[i..i + n])
  {
    n, level := 0, 0;
    while IsDigit(buf[i + n])
      invariant i + n < buf.Length
      invariant forall k :: i <= k < i + n ==> IsDigit(buf[k])
      invariant level == DigitsValue(buf[i..i + n])
      decreases buf.Length - n
    {
      assert buf[i..i + n + 1][..n] == buf[i..i + n];
      level := level * 10 + (buf[i + n] as int - '0' as int);
      n := n + 1;
    }
  }

  /**
   * level7 (parser.c:183-189): a leading '0' is the whole level, so "01"
   * reads as level 0 followed by '1'; otherwise as level1.
   */
  method Level7(buf: array<char>, i: nat) returns (n: nat, level: nat)
    requires Terminated(buf[..]) && i < buf.Length
    ensures buf[i] == '0' ==> n == 1 && level == 0
    ensures buf[i] != '0' ==> DigitRun(buf[..], i, n) && level == DigitsValue(buf[i..i + n])
    ensures n > 0 ==> i + n < buf.Length
  {
    if buf[i] == '0' {
      return 1, 0;
    }
    n, level := Level1(buf, i);
  }

  // ---------------------------------------------------------------- delim

  /**
   * The count delim5 returns from position `p`: spaces and tabs count one,
   * no-break spaces two. A byte order mark is skipped without being counted
   * (parser.c:197 advances the string pointer `s`, not the count `i`), so
   * after a byte order mark the count no longer matches the bytes scanned.
   */
  function Delim5Count(s: seq<char>, p: nat): (n: nat)
    requires Terminated(s) && p < |s|
    ensures p + n < |s| && NoNul(s, p, p + n)
    decreases |s| - p
  {
    if s[p] == NUL then 0
    else if s[p] == ' ' || s[p] == '\t' then 1 + Delim5Count(s, p + 1)
    else if NbspAt(s, p) then
      assert s[p + 1] != NUL;
      2 + Delim5Count(s, p + 2)
    else if BomAt(s, p) then
      assert s[p + 1] != NUL && s[p + 2] != NUL;
      Delim5Count(s, p + 3)
    else 0
  }

  /** Without byte order marks, delim5 returns the length of the whole delimiter run. */
  lemma {:induction false} Delim5CountsRun(s: seq<char>, p: nat)
    requires Terminated(s) && p < |s|
    requires !BomAt(s, p)
    ensures Delim5Count(s, p) == 0 <==> !(s[p] in {' ', '\t'} || NbspAt(s, p))
  {
  }

  /** The quirk of parser.c:197: after a byte order mark and one space, delim5 returns 1. */
  lemma Delim5BomQuirk()
    ensures Delim5Count([Bom0, Bom1, Bom2, ' ', 'X', NUL], 0) == 1
  {
    var s := [Bom0, Bom1, Bom2, ' ', 'X', NUL];
    assert BomAt(s, 0) && !NbspAt(s, 0);
    assert Delim5Count(s, 4) == 0;
    assert Delim5Count(s, 3) == 1;
  }

  /** delim5 (parser.c:192-201), with its byte order mark branch as written. */
  method Delim5(buf: array<char>, i: nat) returns (n: nat)
    requires Terminated(buf[..]) && i < buf.Length
    ensures n == Delim5Count(buf[..], i)
  {
    var base := i;
    n := 0;
    while buf[base + n] != NUL
      invariant base + n < buf.Length
      invariant n + Delim5Count(buf[..], base + n) == Delim5Count(buf[..], i)
      decreases buf.Length - (base + n)
    {
      if buf[base + n] == ' ' || buf[base + n] == '\t' {
        n := n + 1;
      } else if NbspAt(buf[..], base + n) {
        n := n + 2;
      } else if BomAt(buf[..], base + n) {
        base := base + 3;
      } else {
        break;
      }
    }
  }

  /** delim7 (parser.c:202-204): exactly one space. */
  function Delim7(s: seq<char>, i: nat): (n: nat)
    requires i < |s|
    ensures n <= 1
    ensures n == 1 <==> s[i] == ' '
  {
    if s[i] == ' ' then 1 else 0
  }

  // ---------------------------------------------------------------- xref

  /** A byte xref1 allows inside `@...@`. */
  predicate IsXref1Char(ch: char)
  {
    ch != NUL && ch != '@' && ch != '\r' && ch != '\n'
  }

  /** `s[i..i+m]` is a Legacy identifier or pointer `@...@`, not starting "@@" or "@#". */
  predicate Xref1Form(s: seq<char>, i: nat, m: nat)
  {
    && 3 <= m && i + m <= |s|
    && s[i] == '@' && s[i + m - 1] == '@'
    && s[i + 1] != '#'
    && forall k {:trigger IsXref1Char(s[k])} :: i < k < i + m - 1 ==> IsXref1Char(s[k])
  }

  /** xref1 (parser.c:207-214): the length of the `@...@` form at `i`, or 0. */
  method Xref1(buf: array<char>, i: nat) returns (n: nat)
    requires Terminated(buf[..]) && i < buf.Length
    ensures n != 0 ==> Xref1Form(buf[..], i, n) && i + n < buf.Length
    ensures n == 0 ==> forall m: nat :: !Xref1Form(buf[..], i, m)
  {
    if buf[i] != '@' {
      return 0;
    }
    var j := 1;
    if buf[i + j] == '@' || buf[i + j] == '#' {
      assert !IsXref1Char(buf[i + 1]) || buf[i + 1] == '#';
      return 0;
    }
    while IsXref1Char(buf[i + j])
      invariant i + j < buf.Length
      invariant forall k :: i < k < i + j ==> IsXref1Char(buf[k])
      decreases buf.Length - j
    {
      j := j + 1;
    }
    if buf[i + j] != '@' {
      return 0;
    }
    n := j + 1;
  }

  /** A byte Mid allows as the first byte of an identifier, and in tags. */
  predicate IsIdent5(ch: char)
  {
    ch == '_' || IsUpper(ch) || IsLower(ch) || IsDigit(ch)
  }

  /**
   * `s[i..i+m]` is a Mid identifier or pointer: like Legacy, but the first
   * byte inside must be a letter, digit or underscore. Later bytes are only
   * checked as Legacy checks them.
   */
  predicate Xref5Form(s: seq<char>, i: nat, m: nat)
  {
    && 3 <= m && i + m <= |s|
    && s[i] == '@' && s[i + m - 1] == '@'
    && IsIdent5(s[i + 1])
    && forall k {:trigger IsXref1Char(s[k])} :: i < k < i + m - 1 ==> IsXref1Char(s[k])
  }

  /**
   * xref5 (parser.c:215-225). It upper-cases every lower-case letter it
   * scans, whether or not it then finds the closing '@': `folded` is how many
   * bytes after the '@' it scanned.
   */
  method Xref5(buf: array<char>, i: nat) returns (n: nat, ghost folded: nat)
    requires Terminated(buf[..]) && i < buf.Length
    modifies buf
    ensures i + folded < buf.Length
    ensures forall k :: 0 <= k < buf.Length ==>
      buf[k] == if i < k <= i + folded then Upcase(old(buf[k])) else old(buf[k])
    ensures n != 0 ==> Xref5Form(old(buf[..]), i, n) && folded == n - 2 && i + n < buf.Length
    ensures n == 0 ==> forall m: nat :: !Xref5Form(old(buf[..]), i, m)
    ensures folded > 0 ==> old(buf[i]) == '@' && IsIdent5(old(buf[i + 1]))
  {
    folded := 0;
    if buf[i] != '@' {
      return 0, 0;
    }
    var j := 1;
    if !IsIdent5(buf[i + j]) {
      return 0, 0;
    }
    ghost var s := buf[..];
    while IsXref1Char(buf[i + j])
      invariant i + j < buf.Length
      invariant forall k :: i < k < i + j ==> IsXref1Char(s[k])
      invariant forall k :: 0 <= k < buf.Length ==>
        buf[k] == if i < k < i + j then Upcase(s[k]) else s[k]
      decreases buf.Length - j
    {
      if IsLower(buf[i + j]) {
        buf[i + j] := Upcase(buf[i + j]);
      }
      j := j + 1;
    }
    folded := j - 1;
    if buf[i + j] != '@' {
      return 0, folded;
    }
    n := j + 1;
  }

  /** A byte of a Strict identifier. */
  predicate IsXref7Char(ch: char)
  {
    ch == '_' || IsUpper(ch) || IsDigit(ch)
  }

  /** `s[i..i+m]` is a Strict identifier or pointer: '@', one or more of [A-Z0-9_], '@'. */
  predicate Xref7Form(s: seq<char>, i: nat, m: nat)
  {
    && 3 <= m && i + m <= |s|
    && s[i] == '@' && s[i + m - 1] == '@'
    && forall k {:trigger IsXref7Char(s[k])} :: i < k < i + m - 1 ==> IsXref7Char(s[k])
  }

  /** xref7 (parser.c:226-234): the length of the Strict `@...@` form at `i`, or 0. */
  method Xref7(buf: array<char>, i: nat) returns (n: nat)
    requires Terminated(buf[..]) && i < buf.Length
    ensures n != 0 ==> Xref7Form(buf[..], i, n) && i + n < buf.Length
    ensures n == 0 ==> forall m: nat :: !Xref7Form(buf[..], i, m)
  {
    if buf[i] != '@' {
      return 0;
    }
    var j := 1;
    while IsXref7Char(buf[i + j])
      invariant i + j < buf.Length
      invariant forall k :: i < k < i + j ==> IsXref7Char(buf[k])
      decreases buf.Length - j
    {
      j := j + 1;
    }
    if j == 1 || buf[i + j] != '@' {
      return 0;
    }
    n := j + 1;
  }

  // ---------------------------------------------------------------- tag

  /** A byte tag1 allows: anything but NUL, space, tab and line breaks. */
  predicate IsTag1Char(ch: char)
  {
    ch != NUL && ch != ' ' && ch != '\r' && ch != '\n' && ch != '\t'
  }

  /** tag1 (parser.c:237-242): no tag starts with '@'; otherwise the maximal run. */
  method Tag1(buf: array<char>, i: nat) returns (n: nat)
    requires Terminated(buf[..]) && i < buf.Length
    ensures i + n < buf.Length
    ensures buf[i] == '@' ==> n == 0
    ensures buf[i] != '@' ==> (forall k :: i <= k < i + n ==> IsTag1Char(buf[k])) && !IsTag1Char(buf[i + n])
  {
    if buf[i] == '@' {
      return 0;
    }
    n := 0;
    while IsTag1Char(buf[i + n])
      invariant i + n < buf.Length
      invariant forall k :: i <= k < i + n ==> IsTag1Char(buf[k])
      decreases buf.Length - n
    {
      n := n + 1;
    }
  }

  /** tag5 (parser.c:243-250): the maximal run of [A-Za-z0-9_], upper-cased in place. */
  method Tag5(buf: array<char>, i: nat) returns (n: nat)
    requires Terminated(buf[..]) && i < buf.Length
    modifies buf
    ensures i + n < buf.Length
    ensures forall k :: i <= k < i + n ==> IsIdent5(old(buf[k]))
    ensures !IsIdent5(old(buf[i + n]))
    ensures forall k :: 0 <= k < buf.Length ==>
      buf[k] == if i <= k < i + n then Upcase(old(buf[k])) else old(buf[k])
  {
    n := 0;
    while IsIdent5(buf[i + n])
      invariant i + n < buf.Length
      invariant forall k :: i <= k < i + n ==> IsIdent5(old(buf[k]))
      invariant forall k :: 0 <= k < buf.Length ==>
        buf[k] == if i <= k < i + n then Upcase(old(buf[k])) else old(buf[k])
      decreases buf.Length - n
    {
      if IsLower(buf[i + n]) {
        buf[i + n] := Upcase(buf[i + n]);
      }
      n := n + 1;
    }
  }

  /** A byte tag7 allows at offset `pos` of a tag: digits only after the first byte. */
  predicate IsTag7Char(ch: char, pos: nat)
  {
    ch == '_' || IsUpper(ch) || (pos > 0 && IsDigit(ch))
  }

  /** tag7 (parser.c:251-257): the maximal run of [_A-Z][_A-Z0-9]*. */
  method Tag7(buf: array<char>, i: nat) returns (n: nat)
    requires Terminated(buf[..]) && i < buf.Length
    ensures i + n < buf.Length
    ensures forall k :: i <= k < i + n ==> IsTag7Char(buf[k], k - i)
    ensures !IsTag7Char(buf[i + n], n)
  {
    n := 0;
    while IsTag7Char(buf[i + n], n)
      invariant i + n < buf.Length
      invariant forall k :: i <= k < i + n ==> IsTag7Char(buf[k], k - i)
      decreases buf.Length - n
    {
      n := n + 1;
    }
  }

  // ---------------------------------------------------------------- text

  /** A byte of a line value: anything but NUL and line breaks. */
  predicate IsTextChar(ch: char)
  {
    ch != NUL && ch != '\n' && ch != '\r'
  }

  /** text7 (parser.c:260-264): the rest of the line. */
  method Text7(buf: array<char>, i: nat) returns (n: nat)
    requires Terminated(buf[..]) && i < buf.Length
    ensures i + n < buf.Length
    ensures forall k :: i <= k < i + n ==> IsTextChar(buf[k])
    ensures !IsTextChar(buf[i + n])
  {
    n := 0;
    while IsTextChar(buf[i + n])
      invariant i + n < buf.Length
      invariant forall k :: i <= k < i + n ==> IsTextChar(buf[k])
      decreases buf.Length - n
    {
      n := n + 1;
    }
  }

  // ---------------------------------------------------------------- eol

  predicate IsBlank(ch: char) { ch == ' ' || ch == '\t' }
  predicate IsBreak(ch: char) { ch == '\n' || ch == '\r' }

  /** Where a run of blanks starting at `j` ends. */
  function SkipBlanks(s: seq<char>, j: nat): (e: nat)
    requires Terminated(s) && j < |s|
    ensures j <= e < |s| && !IsBlank(s[e])
    ensures forall k {:trigger IsBlank(s[k])} :: j <= k < e ==> IsBlank(s[k])
    decreases |s| - j
  {
    if IsBlank(s[j]) then SkipBlanks(s, j + 1) else j
  }

  /** Where a line break starting at `j` ends: "\n", "\r", "\n\r" and "\r\n" are each one break. */
  function AfterBreak(s: seq<char>, j: nat): (k: nat)
    requires Terminated(s) && j < |s| && (s[j] == '\n' || s[j] == '\r')
    ensures j < k <= j + 2 && k < |s|
    ensures forall x {:trigger IsBreak(s[x])} :: j <= x < k ==> IsBreak(s[x])
  {
    var other := if s[j] == '\n' then '\r' else '\n';
    if s[j + 1] == other then j + 2 else j + 1
  }

  /**
   * The line-break loop shared by eol1 and eol5 (parser.c:270-275 and
   * 283-288): each break counts one line, and blanks after a break are
   * skipped. The result is where the loop stops and how many breaks it
   * counted.
   */
  function Breaks(s: seq<char>, j: nat): (r: (nat, nat))
    requires Terminated(s) && j < |s|
    ensures j <= r.0 < |s|
    ensures r.1 == 0 <==> r.0 == j
    ensures s[r.0] != '\n' && s[r.0] != '\r'
    ensures forall k {:trigger IsBreak(s[k])} {:trigger IsBlank(s[k])} :: j <= k < r.0 ==> IsBreak(s[k]) || IsBlank(s[k])
    decreases |s| - j
  {
    if s[j] == '\n' || s[j] == '\r' then
      var rest := Breaks(s, SkipBlanks(s, AfterBreak(s, j)));
      (rest.0, rest.1 + 1)
    else (j, 0)
  }

  /** The loop of Breaks as parser.c writes it. */
  method BreakLoop(buf: array<char>, j: nat) returns (e: nat, count: nat)
    requires Terminated(buf[..]) && j < buf.Length
    ensures (e, count) == Breaks(buf[..], j)
  {
    e, count := j, 0;
    while buf[e] != NUL
      invariant e < buf.Length
      invariant Breaks(buf[..], e).0 == Breaks(buf[..], j).0
      invariant Breaks(buf[..], e).1 + count == Breaks(buf[..], j).1
      decreases buf.Length - e
    {
      if buf[e] == '\n' || buf[e] == '\r' {
        count := count + 1;
        e := StepBreak(buf, e);
      } else {
        break;
      }
      e := BlankLoop(buf, e);
    }
  }

  /** One line break, as the branches of parser.c:271-272 (and 284-285) take it. */
  method StepBreak(buf: array<char>, j: nat) returns (e: nat)
    requires Terminated(buf[..]) && j < buf.Length && (buf[j] == '\n' || buf[j] == '\r')
    ensures e == AfterBreak(buf[..], j)
  {
    e := j + 1;
    if buf[j] == '\n' {
      if buf[e] == '\r' { e := e + 1; }
    } else {
      if buf[e] == '\n' { e := e + 1; }
    }
  }

  /** The blank-skipping loop of parser.c:274, 281 and 287. */
  method BlankLoop(buf: array<char>, j: nat) returns (e: nat)
    requires Terminated(buf[..]) && j < buf.Length
    ensures e == SkipBlanks(buf[..], j)
  {
    e := j;
    while IsBlank(buf[e])
      invariant j <= e < buf.Length
      invariant SkipBlanks(buf[..], e) == SkipBlanks(buf[..], j)
      decreases buf.Length - e
    {
      e := e + 1;
    }
  }

  /** Where the rest of the line ends: the maximal run of text bytes from `j`. */
  function RestOfLine(s: seq<char>, j: nat): (e: nat)
    requires Terminated(s) && j < |s|
    ensures j <= e < |s| && !IsTextChar(s[e])
    ensures forall k {:trigger IsTextChar(s[k])} :: j <= k < e ==> IsTextChar(s[k])
    decreases |s| - j
  {
    if IsTextChar(s[j]) then RestOfLine(s, j + 1) else j
  }

  /**
   * What eol1 and eol5 return once their loops have stopped, for a scan of
   * the breaks from `from`: the length taken from `i` and the number of
   * lines to add. Without any break the line must end the input, otherwise
   * they return 0 (parser.c:276-277 and 289-290).
   */
  function EolOutcome(s: seq<char>, i: nat, from: nat): (r: (nat, nat))
    requires Terminated(s) && i <= from < |s|
    ensures i + r.0 < |s|
    ensures r.0 == 0 ==> r.1 == 0
    ensures r.1 == Breaks(s, from).1 || r == (0, 0)
    ensures r.0 > 0 ==> r.1 > 0 || s[i + r.0] == NUL
    ensures r.0 > 0 ==> i + r.0 == Breaks(s, from).0
    ensures r == (0, 0) ==> s[i] == NUL || s[Breaks(s, from).0] != NUL || from == i
  {
    var b := Breaks(s, from);
    if b.1 == 0 && s[b.0] != NUL then (0, 0) else (b.0 - i, b.1)
  }

  /**
   * eol1 (parser.c:267-278): whatever follows a Legacy line's value up to
   * the line break is skipped, then blank lines and indentation.
   */
  method Eol1(buf: array<char>, i: nat) returns (n: nat, breaks: nat)
    requires Terminated(buf[..]) && i < buf.Length
    ensures (n, breaks) == EolOutcome(buf[..], i, RestOfLine(buf[..], i))
    ensures n == 0 ==> buf[i] == NUL
  {
    var t := Text7(buf, i);
    var e, count := BreakLoop(buf, i + t);
    // The test of parser.c:276 never holds after text7: the text run stops
    // only at a break or at the terminator.
    n, breaks := 0, 0;
    if !(count == 0 && buf[e] != NUL) {
      n, breaks := e - i, count;
    }
  }

  /** eol5 (parser.c:279-291): trailing blanks, then breaks, blank lines and indentation. */
  method Eol5(buf: array<char>, i: nat) returns (n: nat, breaks: nat)
    requires Terminated(buf[..]) && i < buf.Length
    ensures (n, breaks) == EolOutcome(buf[..], i, SkipBlanks(buf[..], i))
  {
    var j := BlankLoop(buf, i);
    var e, count := BreakLoop(buf, j);
    if count == 0 && buf[e] != NUL {
      return 0, 0;
    }
    return e - i, count;
  }

  /**
   * eol7 (parser.c:292-296): one line break, counted as one line. As
   * written it takes two bytes for "\r\r" and one for "\r\n" (see
   * Eol7CrLf).
   */
  function Eol7(s: seq<char>, i: nat): (r: (nat, nat))
    requires Terminated(s) && i < |s|
    ensures r.1 == 1 <==> s[i] == '\r' || s[i] == '\n'
    ensures r.1 == 0 <==> r.0 == 0
    ensures r.1 <= 1 && r.0 <= 2 && i + r.0 < |s|
    ensures r.0 == 2 <==> s[i] == '\r' && s[i + 1] == '\r'
  {
    if s[i] == '\r' then (if s[i + 1] == '\r' then 2 else 1, 1)
    else if s[i] == '\n' then (1, 1)
    else (0, 0)
  }

  /**
   * The consequence of the test on parser.c:293: after "\r\n" a Strict
   * line ends at the '\r', and the next line begins with the '\n', where
   * neither lstart7 nor level7 accepts anything.
   */
  lemma Eol7CrLf(s: seq<char>, i: nat)
    requires Terminated(s) && i + 1 < |s| && s[i] == '\r' && s[i + 1] == '\n'
    ensures Eol7(s, i) == (1, 1)
    ensures Lstart7(s, i + 1) == 0 && !IsDigit(s[i + 1])
  {
  }
}
