/**
 * The record type, payload kinds, dialect selector and outcome of a parse
 * declared in parser.h.
 *
 * Character data never leaves the input buffer: every string-valued field of
 * a node is the index in the buffer where a NUL-terminated string starts.
 * Nodes live in an arena (a sequence indexed by node number); a reference to
 * a node is its index, and `Nil` plays the part of the C null pointer.
 */
module GedcomTypes {

  /** The byte that ends every C string. */
  const NUL: char := '\0'

  /** The null node reference. */
  const Nil: int := -1

  /** The line break that CONT adds to payloads (U+000A). */
  const LineBreak: char := '\n'

  /** A node reference into an arena of `n` nodes. */
  predicate IsRef(r: int, n: nat)
  {
    r == Nil || 0 <= r < n
  }

  /**
   * The three grammar profiles chosen by the integer `dialect` argument of
   * parseGEDCOM: 1 or less is the most forgiving parse, 2 to 6 is the
   * 5.5-like parse, 7 and above enforces the version 7 rules.
   */
  datatype Dialect = Legacy | Mid | Strict

  function DialectOf(dialect: int): (d: Dialect)
    ensures d == Legacy <==> dialect <= 1
    ensures d == Mid <==> 2 <= dialect < 7
    ensures d == Strict <==> 7 <= dialect
  {
    if dialect <= 1 then Legacy else if dialect < 7 then Mid else Strict
  }

  /**
   * The payload of a node. The C record keeps a payload-type code beside an
   * anonymous union of a string and a node pointer; a pointer payload holds
   * the target's id text until pointers are resolved, and the target node
   * (or null, for VOID) afterwards.
   */
  datatype Payload =
    | NoPayload
    | Text(at: nat)
    | PointerText(at: nat)
    | PointerTo(target: int)
  {
    predicate IsPointer() { PointerText? || PointerTo? }
  }

  const PAYLOAD_NONE: int := 0
  const PAYLOAD_STRING: int := 1
  const PAYLOAD_POINTER: int := 2

  /** The GEDC_PAYLOAD_* code the C record stores for a payload. */
  function PayloadType(p: Payload): (t: int)
    ensures t == PAYLOAD_NONE <==> p.NoPayload?
    ensures t == PAYLOAD_STRING <==> p.Text?
    ensures t == PAYLOAD_POINTER <==> p.IsPointer()
  {
    match p
    case NoPayload => PAYLOAD_NONE
    case Text(_) => PAYLOAD_STRING
    case _ => PAYLOAD_POINTER
  }

  /**
   * One GedStructure record: the buffer index of its tag, the buffer index of
   * its id (or Nil when it has none), its payload and its three links.
   */
  datatype Node = Node(
    tag: nat,
    id: int,
    payload: Payload,
    firstChild: int,
    nextSibling: int,
    parent: int)

  /** Why parseGEDCOM rejected its input: one case per DIE_ERROR site of parser.c. */
  datatype Fault =
    | MissingLevel
    | SkippedLevel
    | NoLevelDelim
    | IdOnSubstructure
    | VoidId
    | NoIdDelim
    | InvalidId
    | NoTag
    | SingleAtStrict
    | SingleAtMid
    | EmptyPayload
    | NoLineBreak
    | DuplicateId
    | NoTarget
    | BadContConc
    | BadCont
  {
    /** The text parseGEDCOM stores through errmsg. */
    function Message(): string
    {
      match this
      case MissingLevel => "Missing level"
      case SkippedLevel => "Levels cannot skip values"
      case NoLevelDelim => "Level must be followed by delimiter"
      case IdOnSubstructure => "Xref_id only allowed on records, not substructures"
      case VoidId => "@VOID@ is not allowed as an Xref_id"
      case NoIdDelim => "Xref_id must be followed by delimiter"
      case InvalidId => "Invalid Xref_id"
      case NoTag => "Line without a permitted tag"
      case SingleAtStrict => "Leading @ must be doubled (or be part of valid pointer)"
      case SingleAtMid => "Leading @ must be doubled (or be part of valid pointer or escape)"
      case EmptyPayload => "Empty payloads must be encoded as no line value"
      case NoLineBreak => "Expected line break not found"
      case DuplicateId => "Duplicate ID"
      case NoTarget => "Pointer with no target"
      case BadContConc => "Incorrect use of CONT or CONC"
      case BadCont => "Incorrect use of CONT"
    }
  }

  /** What parseGEDCOM stores through errmsg and errline for an invalid file. */
  datatype ParseError = ParseError(fault: Fault, line: nat)

  datatype Result<T> = Ok(value: T) | Err(error: ParseError)

  /** A buffer that can be handed to the parser: a C string, so it ends with NUL. */
  predicate Terminated(s: seq<char>)
  {
    |s| > 0 && s[|s| - 1] == NUL
  }

  /** `s` and `t` hold the same bytes in [lo, hi). */
  predicate Agree(s: seq<char>, t: seq<char>, lo: nat, hi: nat)
  {
    hi <= |s| && hi <= |t| && forall k :: lo <= k < hi ==> s[k] == t[k]
  }

  /** Agreement below a point carries across two writes, the second keeping at least as much. */
  lemma AgreeTrans(s: seq<char>, t: seq<char>, u: seq<char>, hi: nat, hi2: nat)
    requires hi <= hi2 && Agree(s, t, 0, hi) && Agree(t, u, 0, hi2)
    ensures Agree(s, u, 0, hi)
  {
  }

  /** The C string that starts at index `k` of `s`: everything up to the first NUL. */
  function CString(s: seq<char>, k: nat): (r: seq<char>)
    requires k <= |s|
    ensures k + |r| <= |s|
    ensures r == s[k..k + |r|]
    ensures NUL !in r
    ensures k + |r| < |s| ==> s[k + |r|] == NUL
    decreases |s| - k
  {
    if k >= |s| || s[k] == NUL then [] else [s[k]] + CString(s, k + 1)
  }

  /** A C string is the slice up to the first NUL, whichever way one finds it. */
  lemma CStringIs(s: seq<char>, k: nat, e: nat)
    requires k <= e < |s| && s[e] == NUL
    requires forall j :: k <= j < e ==> s[j] != NUL
    ensures CString(s, k) == s[k..e]
  {
    var r := CString(s, k);
    assert forall j :: k <= j < k + |r| ==> s[j] != NUL by {
      forall j | k <= j < k + |r| ensures s[j] != NUL { assert s[j] == r[j - k]; }
    }
  }

  /** A C string only depends on the bytes from its start up to its NUL. */
  lemma CStringLocal(s: seq<char>, t: seq<char>, k: nat, e: nat)
    requires k <= e < |s| && e < |t| && s[e] == NUL
    requires forall j :: k <= j <= e ==> s[j] == t[j]
    ensures CString(s, k) == CString(t, k)
  {
    var r := CString(s, k);
    assert k + |r| <= e by {
      assert forall j :: k <= j < k + |r| ==> s[j] == r[j - k];
    }
    forall j | k <= j < k + |r| ensures t[j] != NUL { assert s[j] == r[j - k]; }
    CStringIs(t, k, k + |r|);
  }
}
