/**
 * The continuation merger of parseGEDCOM (unCONT and unCONTCONC,
 * parser.c:63-154): every run of CONT (and, outside Strict, CONC) lines that
 * leads the children of a node is folded into that node's text, in place in
 * the buffer, and unlinked.
 *
 * The specification is stated on the forest as the earlier passes leave it
 * (`orig`, over the buffer `s`): which lines are folded (`Folded`), which
 * line the walk rejects (`Bad`), and the text a kept node ends up with
 * (`Expected`). The walk visits the lines in order, so the line it fails at
 * is the first bad one.
 */
module Unfold {
  import opened GedcomTypes
  import opened Forest
  import opened Outline
  import opened Assembly

  datatype Option<T> = None | Some(value: T)

  /** The text of an optional payload, empty when there is none. */
  function OrEmpty(a: Option<string>): string
  {
    if a.Some? then a.value else []
  }

  /**
   * A payload `a` with a continuation line's payload `b` folded in
   * (parser.c:77-97, 118-146): CONT adds a line break between them; CONC
   * (`cont` false) only joins them, and leaves no payload when neither has one.
   */
  function Joined(cont: bool, a: Option<string>, b: Option<string>): (r: Option<string>)
    ensures OrEmpty(r) == OrEmpty(a) + (if cont then [LineBreak] else []) + OrEmpty(b)
    ensures r.None? <==> !cont && a.None? && b.None?
  {
    if cont then Some(OrEmpty(a) + [LineBreak] + OrEmpty(b))
    else if a.None? && b.None? then None
    else Some(OrEmpty(a) + OrEmpty(b))
  }

  /** Node `x`'s tag reads `w`. */
  predicate TagIs(s: seq<char>, x: Node, w: string)
  {
    x.tag <= |s| && CString(s, x.tag) == w
  }

  /** A line the dialect folds into the payload above it: CONT, and CONC outside Strict. */
  predicate Joins(d: Dialect, s: seq<char>, x: Node)
  {
    TagIs(s, x, "CONT") || (d != Strict && TagIs(s, x, "CONC"))
  }

  /** The text payload of `x`, if it has one. */
  function Txt(s: seq<char>, x: Node): Option<string>
  {
    if x.payload.Text? && x.payload.at <= |s| then Some(CString(s, x.payload.at)) else None
  }

  /** Where the NUL of `x`'s text lies. */
  function TextEnd(s: seq<char>, x: Node): nat
    requires x.payload.Text? && x.payload.at <= |s|
  {
    x.payload.at + |CString(s, x.payload.at)|
  }

  /**
   * Line `k` is folded into the node above it: it joins, and it is the first
   * child of a node that is not folded or the next sibling of a folded line.
   */
  predicate Folded(d: Dialect, s: seq<char>, orig: seq<Node>, k: nat)
    decreases k
  {
    && 0 < k < |orig| && Joins(d, s, orig[k])
    && if Folded(d, s, orig, k - 1) then orig[k - 1].nextSibling == k else orig[k - 1].firstChild == k
  }

  /**
   * The walk rejects line `k` (parser.c:66, 70-73, 109, 114-117): a line it
   * reaches itself must not join; a folded line must not sit below a pointer
   * payload, and must have no id, no pointer payload and no children.
   */
  predicate Bad(d: Dialect, s: seq<char>, orig: seq<Node>, k: nat)
    requires k < |orig|
  {
    if Folded(d, s, orig, k) then
      || (0 <= orig[k].parent < |orig| && orig[orig[k].parent].payload.IsPointer())
      || orig[k].id != Nil || orig[k].payload.IsPointer() || orig[k].firstChild != Nil
    else Joins(d, s, orig[k])
  }

  /** The first bad line in [b, e), or `e` when there is none. */
  function FirstBadIn(d: Dialect, s: seq<char>, orig: seq<Node>, b: nat, e: nat): (r: nat)
    requires b <= e <= |orig|
    ensures b <= r <= e
    ensures r < e ==> Bad(d, s, orig, r)
    decreases e - b
  {
    if b == e then e else if Bad(d, s, orig, b) then b else FirstBadIn(d, s, orig, b + 1, e)
  }

  /** The text `acc` with the joining lines from sibling `c` on folded in. */
  function Gather(d: Dialect, s: seq<char>, orig: seq<Node>, acc: Option<string>, c: int): Option<string>
    requires LinksInRange(orig) && IsRef(c, |orig|)
    decreases if c == Nil then 0 else |orig| - c
  {
    if c == Nil || !Joins(d, s, orig[c]) then acc
    else Gather(d, s, orig, Joined(TagIs(s, orig[c], "CONT"), acc, Txt(s, orig[c])), orig[c].nextSibling)
  }

  /** The first sibling from `c` on that does not join: the first child left once the run is folded. */
  function AfterRun(d: Dialect, s: seq<char>, orig: seq<Node>, c: int): (r: int)
    requires LinksInRange(orig) && IsRef(c, |orig|)
    ensures IsRef(r, |orig|)
    ensures r != Nil ==> !Joins(d, s, orig[r])
    decreases if c == Nil then 0 else |orig| - c
  {
    if c == Nil || !Joins(d, s, orig[c]) then c else AfterRun(d, s, orig, orig[c].nextSibling)
  }

  /** The text node `k` is left with: its own, with the leading run of joining children folded in. */
  function Expected(d: Dialect, s: seq<char>, orig: seq<Node>, k: nat): Option<string>
    requires LinksInRange(orig) && k < |orig|
  {
    Gather(d, s, orig, Txt(s, orig[k]), orig[k].firstChild)
  }

  /**
   * `x` is line `k` once its run is folded, over the buffer `t`: the same
   * record with the first child left after the run and the expected text,
   * its tag and id reading as they did, and every string ending before `z`.
   */
  predicate KeptAt(d: Dialect, s: seq<char>, orig: seq<Node>, t: seq<char>, k: nat, x: Node, z: nat)
    requires LinksInRange(orig) && k < |orig|
  {
    && x == orig[k].(firstChild := AfterRun(d, s, orig, orig[k].firstChild), payload := x.payload)
    && (x.payload == orig[k].payload || (orig[k].payload.NoPayload? && x.payload.Text?))
    && |t| == |s| && SlicedBefore(t, x, z)
    && Txt(t, x) == Expected(d, s, orig, k)
    && CString(t, x.tag) == CString(s, x.tag)
    && (x.id != Nil ==> CString(t, x.id) == CString(s, x.id))
  }

  /** `t` with `w` written from index `i` on. */
  function Put(t: seq<char>, i: nat, w: seq<char>): (r: seq<char>)
    requires i + |w| <= |t|
    ensures |r| == |t|
  {
    seq(|t|, k requires 0 <= k < |t| => if i <= k < i + |w| then w[k - i] else t[k])
  }

  /** What a byte of `Put(t, i, w)` is. */
  lemma PutAt(t: seq<char>, i: nat, w: seq<char>, k: nat)
    requires i + |w| <= |t| && k < |t|
    ensures Put(t, i, w)[k] == if i <= k < i + |w| then w[k - i] else t[k]
  {
  }

  /** A write keeps the bytes below and above it. */
  lemma PutAgree(t: seq<char>, i: nat, w: seq<char>)
    requires i + |w| <= |t|
    ensures Agree(t, Put(t, i, w), 0, i) && Agree(t, Put(t, i, w), i + |w|, |t|)
  {
    forall k | 0 <= k < |t| && (k < i || i + |w| <= k)
      ensures t[k] == Put(t, i, w)[k]
    {
      PutAt(t, i, w, k);
    }
  }

  /** Bytes that agree from `a` on hold the same C strings from `a` on. */
  lemma {:induction false} CStringFrom(s: seq<char>, t: seq<char>, a: nat, k: nat)
    requires |s| == |t| && Agree(s, t, a, |s|) && a <= k <= |s|
    ensures CString(t, k) == CString(s, k)
    decreases |s| - k
  {
    if k < |s| && s[k] != NUL {
      CStringFrom(s, t, a, k + 1);
    }
  }

  /** Writing `w` and a NUL over the NUL of the string at `a` appends `w` to it. */
  lemma CStringAppend(t: seq<char>, a: nat, w: seq<char>)
    requires a <= |t| && a + |CString(t, a)| + |w| < |t| && NUL !in w
    ensures CString(Put(t, a + |CString(t, a)|, w + [NUL]), a) == CString(t, a) + w
  {
    var e := a + |CString(t, a)|;
    var r := Put(t, e, w + [NUL]);
    PutAt(t, e, w + [NUL], e + |w|);
    forall j | a <= j < e + |w|
      ensures r[j] != NUL && r[j] == (CString(t, a) + w)[j - a]
    {
      PutAt(t, e, w + [NUL], j);
      if j < e {
        assert t[j] == CString(t, a)[j - a];
      } else {
        assert r[j] == w[j - e];
      }
    }
    CStringIs(r, a, e + |w|);
  }

  /** The loop at parser.c:85 and parser.c:133: the NUL that ends the text at `a`. */
  method FindNul(buf: array<char>, a: nat) returns (e: nat)
    requires EndsBefore(buf[..], a, buf.Length)
    ensures e == a + |CString(buf[..], a)|
  {
    ghost var w := CString(buf[..], a);
    e := a;
    while buf[e] != NUL
      invariant a <= e <= a + |w|
      decreases a + |w| - e
    {
      assert buf[e] == w[e - a];
      e := e + 1;
    }
  }

  /**
   * The copy loop at parser.c:93-94 and parser.c:143-144: the string `w`
   * at `src` and its NUL, written from `dst` on. The copy runs forward and
   * writes below where it reads, so it reads every byte before it could
   * overwrite it.
   */
  method Copy(buf: array<char>, dst: nat, src: nat, ghost w: seq<char>) returns (end: nat)
    requires dst <= src && src + |w| < buf.Length && buf[src + |w|] == NUL
    requires forall k :: src <= k < src + |w| ==> buf[k] == w[k - src] && buf[k] != NUL
    modifies buf
    ensures end == dst + |w|
    ensures buf[..] == Put(old(buf[..]), dst, w + [NUL])
  {
    ghost var t := buf[..];
    var i := 0;
    while buf[src + i] != NUL
      invariant 0 <= i <= |w| && buf[src + i] == if i < |w| then w[i] else NUL
      invariant forall k :: 0 <= k < buf.Length ==> buf[k] == if dst <= k < dst + i then w[k - dst] else t[k]
      decreases |w| - i
    {
      buf[dst + i] := buf[src + i];
      i := i + 1;
    }
    buf[dst + i] := NUL;
    end := dst + i;
    PutIs(t, buf[..], dst, w);
  }

  /** A buffer with `w` and a NUL written from `i` on, byte by byte, is `Put(t, i, w + [NUL])`. */
  lemma PutIs(t: seq<char>, r: seq<char>, i: nat, w: seq<char>)
    requires i + |w| < |t| == |r|
    requires forall k :: 0 <= k < |r| ==> r[k] == if i <= k < i + |w| then w[k - i] else if k == i + |w| then NUL else t[k]
    ensures r == Put(t, i, w + [NUL])
  {
    forall k | 0 <= k < |r|
      ensures r[k] == Put(t, i, w + [NUL])[k]
    {
      PutAt(t, i, w + [NUL], k);
    }
  }

  /** The bytes of the C string at `a`, indexed by their place in the buffer. */
  lemma CStringBytes(t: seq<char>, a: nat)
    requires EndsBefore(t, a, |t|)
    ensures forall k :: a <= k < a + |CString(t, a)| ==> t[k] == CString(t, a)[k - a] && t[k] != NUL
    ensures t[a + |CString(t, a)|] == NUL
  {
    var w := CString(t, a);
    forall k | a <= k < a + |w|
      ensures t[k] == w[k - a] && t[k] != NUL
    {
      assert w[k - a] in w;
    }
  }

  /** Two writes side by side are one write. */
  lemma PutTwice(t: seq<char>, i: nat, u: seq<char>, v: seq<char>)
    requires i + |u| + |v| <= |t|
    ensures Put(Put(t, i, u), i + |u|, v) == Put(t, i, u + v)
  {
    var a, b := Put(Put(t, i, u), i + |u|, v), Put(t, i, u + v);
    forall k | 0 <= k < |t|
      ensures a[k] == b[k]
    {
      PutAt(Put(t, i, u), i + |u|, v, k);
      PutAt(t, i, u, k);
      PutAt(t, i, u + v, k);
    }
  }

  /** A joining child line between `a` and `z`: its tag, then its text, each ending before `z`. */
  predicate Child(d: Dialect, t: seq<char>, y: Node, a: nat, z: nat)
  {
    && !y.payload.IsPointer() && Joins(d, t, y)
    && Ordered(t, y, a) && SlicedBefore(t, y, z) && z <= |t|
  }

  /**
   * The node `x` that a run is being folded into, over `t`: its text, if it
   * has one, ends before `lim` and not below `floor`; with no text, `floor`
   * is at most `lim`; `nul` is Nil or caches where the text ends.
   */
  predicate Host(t: seq<char>, x: Node, nul: int, floor: nat, lim: nat)
  {
    && (x.payload.Text? ==> x.payload.at <= |t| && floor <= TextEnd(t, x) && EndsBefore(t, x.payload.at, lim))
    && (x.payload.NoPayload? ==> floor <= lim)
    && (nul == Nil || (x.payload.Text? && x.payload.at <= |t| && nul == TextEnd(t, x)))
  }

  /** "\n" and a NUL written at `i`: a one-break text there, in place of what was. */
  lemma LoneBreak(t: seq<char>, i: nat, a: nat, z: nat)
    requires a <= i && i + 1 < z <= |t|
    ensures var r := t[i := LineBreak][i + 1 := NUL];
      && CString(r, i) == [LineBreak] && EndsBefore(r, i, z)
      && Agree(t, r, 0, a) && Agree(t, r, z, |t|)
  {
    var r := t[i := LineBreak][i + 1 := NUL];
    assert CString(r, i) == [LineBreak] + CString(r, i + 1);
  }

  /** "\n" written at `i`, just before the string at `i + 1`: that string with a break in front. */
  lemma BreakBefore(t: seq<char>, i: nat, a: nat, z: nat)
    requires a <= i && EndsBefore(t, i + 1, z) && z <= |t|
    ensures var r := t[i := LineBreak];
      && CString(r, i) == [LineBreak] + CString(t, i + 1) && EndsBefore(r, i, z)
      && Agree(t, r, 0, a) && Agree(t, r, z, |t|)
  {
    var r := t[i := LineBreak];
    CStringFrom(t, r, i + 1, i + 1);
    assert CString(r, i) == [LineBreak] + CString(r, i + 1);
  }

  /** A CONT line's text folded into no payload starts with the break written before it. */
  lemma IntoCont(t: seq<char>, x: Node, y: Node, i: nat, a: nat, z: nat)
    requires y.payload.Text? && y.payload.at == i + 1
    requires a <= i && EndsBefore(t, i + 1, z) && z <= |t|
    ensures Txt(t[i := LineBreak], x.(payload := Text(i))) == Joined(true, None, Txt(t, y))
  {
    BreakBefore(t, i, a, z);
    JoinedNone(true, Txt(t, y));
  }

  /** Folding into no payload: the child's text, after a break for CONT. */
  lemma JoinedNone(cont: bool, b: Option<string>)
    ensures Joined(cont, None, b) == if cont then Some([LineBreak] + OrEmpty(b)) else b
  {
    if cont {
      assert OrEmpty(None) + [LineBreak] + OrEmpty(b) == [LineBreak] + OrEmpty(b);
    } else if b.Some? {
      assert OrEmpty(None) + OrEmpty(b) == b.value;
    }
  }

  /** The bounds a joining child line's strings keep within [a, z). */
  lemma ChildBounds(d: Dialect, t: seq<char>, y: Node, a: nat, z: nat)
    requires Child(d, t, y, a, z)
    ensures a <= y.tag && y.tag + 4 < z && |CString(t, y.tag)| == 4
    ensures y.payload.Text? ==> y.tag + 4 < y.payload.at && EndsBefore(t, y.payload.at, z)
  {
  }

  /**
   * Folding a child line `y` into a node with no payload (parser.c:74-83,
   * 118-131): a CONT with no text leaves "\n" over the child's tag; a CONT
   * with text puts "\n" just before it; a CONC shares the child's text, or
   * leaves no payload when the child has none.
   */
  method JoinInto(d: Dialect, buf: array<char>, x: Node, y: Node, ghost a: nat, ghost z: nat) returns (x': Node)
    requires x.payload.NoPayload? && Child(d, buf[..], y, a, z)
    modifies buf
    ensures x' == x.(payload := x'.payload) && (x'.payload.NoPayload? || x'.payload.Text?)
    ensures Txt(buf[..], x') == Joined(TagIs(old(buf[..]), y, "CONT"), None, Txt(old(buf[..]), y))
    ensures x'.payload.Text? ==> a <= x'.payload.at && EndsBefore(buf[..], x'.payload.at, z)
    ensures Agree(old(buf[..]), buf[..], 0, a) && Agree(old(buf[..]), buf[..], z, buf.Length)
  {
    ghost var t := buf[..];
    ChildBounds(d, t, y, a, z);
    var cont := TagIs(buf[..], y, "CONT");
    JoinedNone(cont, Txt(t, y));
    if y.payload.NoPayload? {
      if cont {
        LoneBreak(t, y.tag, a, z);
        buf[y.tag] := LineBreak;
        buf[y.tag + 1] := NUL;
        assert buf[..] == t[y.tag := LineBreak][y.tag + 1 := NUL];
        x' := x.(payload := Text(y.tag));
      } else {
        x' := x;
      }
    } else {
      var at := y.payload.at;
      if cont {
        var i := at - 1;
        BreakBefore(t, i, a, z);
        IntoCont(t, x, y, i, a, z);
        buf[i] := LineBreak;
        assert buf[..] == t[i := LineBreak];
        x' := x.(payload := Text(i));
      } else {
        x' := x.(payload := Text(at));
      }
    }
  }

  /** What folding line `y` appends to a text: a break for CONT, then `y`'s own text. */
  function Tail(t: seq<char>, y: Node, cont: bool): (r: seq<char>)
    ensures NUL !in r
    ensures |r| == (if cont then 1 else 0) + |OrEmpty(Txt(t, y))|
  {
    (if cont then [LineBreak] else []) + OrEmpty(Txt(t, y))
  }

  lemma Assoc(a: seq<char>, b: seq<char>, c: seq<char>)
    ensures a + (b + c) == a + b + c
  {
  }

  /** A NUL written over a NUL changes nothing. */
  lemma PutNul(t: seq<char>, e: nat)
    requires e < |t| && t[e] == NUL
    ensures Put(t, e, [NUL]) == t
  {
    forall k | 0 <= k < |t|
      ensures Put(t, e, [NUL])[k] == t[k]
    {
      PutAt(t, e, [NUL], k);
    }
  }

  /**
   * Appending a tail `u` and a NUL at the end of `x`'s text, below `z`:
   * the text grows by `u` and still ends before `z`, and the bytes below
   * the old end and from `z` on are kept.
   */
  lemma AfterFacts(t: seq<char>, x: Node, u: seq<char>, z: nat, r: seq<char>)
    requires x.payload.Text? && x.payload.at <= |t| && NUL !in u
    requires TextEnd(t, x) + |u| < z <= |t|
    requires r == Put(t, TextEnd(t, x), u + [NUL])
    ensures Txt(r, x) == Some(CString(t, x.payload.at) + u)
    ensures TextEnd(r, x) == TextEnd(t, x) + |u| && EndsBefore(r, x.payload.at, z)
    ensures Agree(t, r, 0, TextEnd(t, x)) && Agree(t, r, z, |t|)
  {
    AppendFacts(t, x.payload.at, TextEnd(t, x), u, z, r);
  }

  /** AfterFacts for the string at `a`, whose NUL is at `e`. */
  lemma AppendFacts(t: seq<char>, a: nat, e: nat, u: seq<char>, z: nat, r: seq<char>)
    requires a <= |t| && NUL !in u && e == a + |CString(t, a)|
    requires e + |u| < z <= |t|
    requires r == Put(t, e, u + [NUL])
    ensures CString(r, a) == CString(t, a) + u
    ensures EndsBefore(r, a, z)
    ensures Agree(t, r, 0, e) && Agree(t, r, z, |t|)
  {
    CStringAppend(t, a, u);
    PutAgree(t, e, u + [NUL]);
  }

  /** A text with a tail appended is the joined text. */
  lemma TailJoined(t: seq<char>, x: Node, y: Node, cont: bool)
    requires x.payload.Text? && x.payload.at <= |t|
    ensures Some(CString(t, x.payload.at) + Tail(t, y, cont)) == Joined(cont, Txt(t, x), Txt(t, y))
  {
    Assoc(OrEmpty(Txt(t, x)), if cont then [LineBreak] else [], OrEmpty(Txt(t, y)));
  }

  /** Where a tail appended to a text in front of a child line `y` ends: below `z`. */
  lemma TailFits(d: Dialect, t: seq<char>, x: Node, y: Node, a: nat, z: nat, cont: bool)
    requires x.payload.Text? && Child(d, t, y, a, z) && EndsBefore(t, x.payload.at, a)
    ensures TextEnd(t, x) + |Tail(t, y, cont)| < z
  {
    ChildBounds(d, t, y, a, z);
  }

  /** What folding `y` into `x` by appending leaves, stated on the buffer before (`t`) and after (`r`). */
  lemma AppendedFacts(d: Dialect, t: seq<char>, r: seq<char>, x: Node, y: Node, a: nat, z: nat, cont: bool)
    requires x.payload.Text? && Child(d, t, y, a, z) && EndsBefore(t, x.payload.at, a)
    requires TextEnd(t, x) + |Tail(t, y, cont)| < |t|
    requires r == Put(t, TextEnd(t, x), Tail(t, y, cont) + [NUL])
    ensures Txt(r, x) == Joined(cont, Txt(t, x), Txt(t, y))
    ensures TextEnd(r, x) == TextEnd(t, x) + |Tail(t, y, cont)| && EndsBefore(r, x.payload.at, z)
    ensures Agree(t, r, 0, TextEnd(t, x)) && Agree(t, r, z, |t|)
  {
    TailFits(d, t, x, y, a, z, cont);
    AfterFacts(t, x, Tail(t, y, cont), z, r);
    TailJoined(t, x, y, cont);
  }

  /**
   * Folding a child line `y` into a node with text (parser.c:84-97,
   * 134-146): find the text's NUL unless it is known, then write "\n" for
   * a CONT and copy the child's text after it.
   */
  method JoinAfter(d: Dialect, buf: array<char>, x: Node, y: Node, nul: int, ghost a: nat, ghost z: nat) returns (nul': nat)
    requires x.payload.Text? && Child(d, buf[..], y, a, z) && EndsBefore(buf[..], x.payload.at, a)
    requires nul == Nil || nul == TextEnd(buf[..], x)
    modifies buf
    ensures Txt(buf[..], x) == Joined(TagIs(old(buf[..]), y, "CONT"), Txt(old(buf[..]), x), Txt(old(buf[..]), y))
    ensures nul' == TextEnd(buf[..], x) && TextEnd(old(buf[..]), x) <= nul' && EndsBefore(buf[..], x.payload.at, z)
    ensures Agree(old(buf[..]), buf[..], 0, TextEnd(old(buf[..]), x)) && Agree(old(buf[..]), buf[..], z, buf.Length)
  {
    ghost var t := buf[..];
    var end := TextNul(buf, x, nul);
    var cont := TagIs(buf[..], y, "CONT");
    TailFits(d, t, x, y, a, z, cont);
    ChildBounds(d, t, y, a, z);
    nul' := Append(buf, end, y, cont, Tail(t, y, cont));
    AppendedFacts(d, t, buf[..], x, y, a, z, cont);
  }

  /** Where `x`'s text ends: `nul` when it is known, else found by the loop at parser.c:85 and 133. */
  method TextNul(buf: array<char>, x: Node, nul: int) returns (end: nat)
    requires x.payload.Text? && EndsBefore(buf[..], x.payload.at, buf.Length)
    requires nul == Nil || nul == TextEnd(buf[..], x)
    ensures end == TextEnd(buf[..], x) && end < buf.Length && buf[end] == NUL
  {
    if nul == Nil {
      end := FindNul(buf, x.payload.at);
    } else {
      end := nul;
    }
  }

  /**
   * The writes of a fold over the NUL at `e`: "\n" for a CONT, then the
   * copy of the child's text, which starts above `e` (parser.c:86-96,
   * 134-146).
   */
  method Append(buf: array<char>, e: nat, y: Node, cont: bool, ghost u: seq<char>) returns (end: nat)
    requires e < buf.Length && buf[e] == NUL && !y.payload.IsPointer()
    requires u == Tail(buf[..], y, cont) && e + |u| < buf.Length
    requires y.payload.Text? ==> e < y.payload.at && EndsBefore(buf[..], y.payload.at, buf.Length)
    modifies buf
    ensures end == e + |u| && buf[..] == Put(old(buf[..]), e, u + [NUL])
  {
    if y.payload.NoPayload? {
      end := AppendBreak(buf, e, cont);
    } else {
      ghost var w := CString(buf[..], y.payload.at);
      end := AppendText(buf, e, y.payload.at, cont, w);
      assert u == (if cont then [LineBreak] else []) + w;
    }
  }

  /** A fold of a child line without text: "\n" for a CONT, nothing for a CONC. */
  method AppendBreak(buf: array<char>, e: nat, cont: bool) returns (end: nat)
    requires e < buf.Length && buf[e] == NUL && (cont ==> e + 1 < buf.Length)
    modifies buf
    ensures end == e + (if cont then 1 else 0)
    ensures buf[..] == Put(old(buf[..]), e, (if cont then [LineBreak] else []) + [NUL])
  {
    ghost var t := buf[..];
    if cont {
      buf[e] := LineBreak;
      buf[e + 1] := NUL;
      PutIs(t, buf[..], e, [LineBreak]);
      end := e + 1;
    } else {
      PutNul(t, e);
      end := e;
    }
  }

  /** A fold of a child line with the text `w` at `src`: "\n" for a CONT, then a copy of `w`. */
  method AppendText(buf: array<char>, e: nat, src: nat, cont: bool, ghost w: seq<char>) returns (end: nat)
    requires e < src && EndsBefore(buf[..], src, buf.Length) && w == CString(buf[..], src)
    requires e < buf.Length && buf[e] == NUL
    modifies buf
    ensures end == e + |(if cont then [LineBreak] else []) + w|
    ensures buf[..] == Put(old(buf[..]), e, (if cont then [LineBreak] else []) + w + [NUL])
  {
    CStringBytes(buf[..], src);
    if cont {
      end := AppendLine(buf, e, src, w);
    } else {
      end := Copy(buf, e, src, w);
      assert [] + w + [NUL] == w + [NUL];
    }
  }

  /** The CONT case of `AppendText`: a line break at `e`, then the copy after it. */
  method AppendLine(buf: array<char>, e: nat, src: nat, ghost w: seq<char>) returns (end: nat)
    requires e < src && src + |w| < buf.Length && buf[src + |w|] == NUL
    requires forall k :: src <= k < src + |w| ==> buf[k] == w[k - src] && buf[k] != NUL
    modifies buf
    ensures end == e + 1 + |w|
    ensures buf[..] == Put(old(buf[..]), e, [LineBreak] + w + [NUL])
  {
    ghost var t := buf[..];
    buf[e] := LineBreak;
    assert buf[..] == Put(t, e, [LineBreak]);
    end := Copy(buf, e + 1, src, w);
    PutTwice(t, e, [LineBreak], w + [NUL]);
    assert [LineBreak] + (w + [NUL]) == [LineBreak] + w + [NUL];
  }
}
