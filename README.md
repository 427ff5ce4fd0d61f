# A verified model of the GEDCOM C parser

This project models `parseGEDCOM`, the single-pass GEDCOM reader in
`parser.c`/`parser.h`. It reads a whole file held in one mutable C string
and turns it into a forest of `GedStructure` records. Every tag, id and
payload stays in the input buffer: the parser writes NUL bytes into the
buffer to cut the strings out.

How the model represents the parser:

- **Buffer.** The input is an `array<char>` that ends with a NUL
  (`GedcomTypes.Terminated`). A string-valued field is the index where a
  NUL-terminated string starts, and `GedcomTypes.CString` reads it back.
- **Records.** Records live in an arena, a `seq<Node>`. A link is an
  index, and `Nil` (-1) plays the part of the C null pointer. The line
  loop allocates records in line order, so node k is the (k+1)-th record.
  Blank lines, which the Legacy and Mid line ends skip, make no record.
- **Dialects.** The `dialect` argument picks one of three scanner sets:
  `Legacy` (1 or less), `Mid` (2 to 6) and `Strict` (7 and above).
  `LineParts` dispatches to the right scanner for each dialect.

The model has four parts:

1. `Scanners` holds the sixteen scanners: lstart, level, delim, xref, tag,
   text and eol in each of their variants. Each loop is a method proved
   against a function or predicate that says which bytes it accepts.
2. `Grammar` says, over the bytes the buffer holds before parsing, how
   each dialect reads the lines: where each line starts, its level, and
   where its id, tag and payload lie; or the first line that breaks the
   grammar, with its fault and line number (`Grammar.ReadAll`). It slices
   nothing, and serves as the reference for the line loop.
   `Assembly` and `Build` hold the line loop, which is proved to stop
   exactly where `ReadAll` stops and otherwise to record its lines. Each line is a level, an
   optional xref_id, a tag, an optional payload and a line break. The loop
   cuts the line into NUL-terminated strings and links the new record in
   where its level puts it. `Outline` states the links as a property of
   the levels alone: the parent of a line is the nearest earlier line one
   level up, and so on. It proves that these links form a well-formed
   forest whose preorder walk is the lines in order.
3. `Resolve` handles pointers. It collects the records that may be
   targets and sorts them by id. It then checks for duplicate ids, looks
   up every pointer by binary search and turns pointer text into a link
   to the target.
4. `Unfold` and `Merge` handle continuation lines. They fold CONT lines
   (and CONC lines below `Strict`) into the payload of the record above,
   writing into the same buffer. Each record is checked against an
   independent specification: `Expected` is the text the record should
   end with, and `Bad` names the lines the walk rejects.

`Parse.ParseGEDCOM` chains the three passes. An error carries the
message's `Fault` and a line number.

Where the model follows the code rather than the comments or the
description of the format:

- The `Mid` xref scanner (parser.c:215-225) checks only the first byte
  after '@' against `[A-Za-z0-9_]`. Later bytes may be anything but '@',
  CR, LF or NUL.
- The BOM branch of the `Mid` delimiter scanner (parser.c:197) advances
  the string pointer and not the count. A BOM inside a delimiter therefore
  shortens the count it returns (`Scanners.Delim5BomQuirk`).
- The strict eol (parser.c:293) consumes "\r\r" as one break of width 2
  but counts one line. On "\r\n" it consumes only the CR
  (`Scanners.Eol7CrLf`).
- The strict tag scanner (parser.c:251-257) accepts a tag that is a lone
  "_".
- In `Mid`, the line loop accepts an xref_id at any depth, but only ids
  on the root chain become pointer targets (parser.c:452-456).
- The count `xref_id_count` (parser.c:338) is never incremented. The C
  code therefore stores the collected targets in an array of size zero.
  The model collects them into an array sized by the number of records.
- An empty input (a buffer holding only its NUL) makes parseGEDCOM return
  NULL without setting errmsg. The model returns `Ok` with an empty forest.
- The line numbers that fixPointers and unCONT report count records in
  preorder, not physical lines. The model states them that way.

## Model

| member | source | states |
|---|---|---|
| GedcomTypes.DialectOf | parser.c:309-333 | the scanner set is Legacy iff dialect <= 1, Mid iff 2 <= dialect < 7, Strict iff dialect >= 7 |
| GedcomTypes.PayloadType | parser.h:21-31 | the GEDC_PAYLOAD_ code is the none code iff there is no payload, the string code iff the payload is text, and the pointer code iff it is a pointer, unresolved or resolved |
| GedcomTypes.CString | parser.h:43-45 | the string at k is the buffer slice from k up to the first NUL; it holds no NUL, and a NUL follows it inside the buffer |
| GedcomTypes.CStringLocal | parser.h:43-45 | two buffers that agree from k through the terminating NUL hold the same string at k |
| Scanners.Upcase | parser.c:220 | a lower-case ASCII letter becomes its upper-case letter (code minus 32); every other byte is unchanged |
| Scanners.TriviaUnit | parser.c:162-166 | one leading-trivia unit is 1 byte for space, tab or CR, 2 for a UTF-8 NBSP and 3 for a UTF-8 BOM |
| Scanners.SkipTrivia | parser.c:160-169 | skipping stops inside the buffer at a NUL or at a byte that starts no trivia unit, and every skipped byte is trivia |
| Scanners.Lstart5 | parser.c:160-169 | the loop skips exactly the leading trivia `SkipTrivia` describes |
| Scanners.Lstart7 | parser.c:170-174 | the width is 3 iff a BOM starts here, and 0 otherwise |
| Scanners.Level1 | parser.c:177-182 | the width is the maximal run of ASCII digits, and the level is that run's decimal value |
| Scanners.Level7 | parser.c:183-189 | a leading '0' is level 0 of width 1; otherwise the result is the digit run and its value; a nonzero width stays inside the buffer |
| Scanners.Delim5CountsRun | parser.c:192-201 | outside a BOM, the delimiter count is zero iff the byte is not a space, a tab or the start of an NBSP |
| Scanners.Delim5BomQuirk | parser.c:197 | on BOM, space, 'X' the count is 1: the BOM branch advances the pointer and not the count |
| Scanners.Delim5 | parser.c:192-201 | the loop returns `Delim5Count`, which skips no NUL and stays inside the buffer |
| Scanners.Delim7 | parser.c:202-204 | the strict delimiter is one byte iff that byte is a space, and 0 otherwise |
| Scanners.Xref1 | parser.c:207-214 | a nonzero width is a Legacy xref form ('@', a first byte other than '@' or '#', bytes up to a closing '@'); zero means no form of any width starts here |
| Scanners.Xref5 | parser.c:215-225 | the same for the Mid form; the lower-case letters it walks over are upper-cased even when the form then fails, and no other byte changes |
| Scanners.Xref7 | parser.c:226-234 | the same for the strict form, '@' then at least one of `[A-Z0-9_]` then '@' |
| Scanners.Tag1 | parser.c:237-242 | width 0 on '@'; otherwise the maximal run of bytes that are not NUL, space, tab, CR or LF |
| Scanners.Tag5 | parser.c:243-250 | the maximal run of `[A-Za-z0-9_]`, upper-cased in place, with every byte outside the run unchanged |
| Scanners.Tag7 | parser.c:251-257 | the maximal run of `[A-Z_]`, with digits allowed after the first byte |
| Scanners.Text7 | parser.c:260-264 | the maximal run of bytes that are not NUL, CR or LF |
| Scanners.Breaks | parser.c:270-275 | the break loop stops on a byte that is not CR or LF, has skipped only breaks and blanks, and counts zero breaks iff it skipped nothing |
| Scanners.BreakLoop | parser.c:270-275 | the loop computes the end and the break count of `Breaks` |
| Scanners.EolOutcome | parser.c:276-277 | eol fails (returns 0) unless it saw a break or reached NUL; on success the width reaches the end of the breaks and the count is theirs |
| Scanners.Eol1 | parser.c:267-278 | after skipping the rest of the line, the result is `EolOutcome`; since text7 stops only at CR, LF or NUL, eol1 never fails and returns 0 only at a NUL |
| Scanners.Eol5 | parser.c:279-291 | the same after skipping spaces and tabs only |
| Scanners.Eol7 | parser.c:292-296 | one line is counted iff the byte is CR or LF; the width is 2 iff the bytes are CR CR, and 0 iff nothing was counted |
| Scanners.Eol7CrLf | parser.c:293 | on CR LF the strict eol consumes only the CR, and the LF left over is neither a BOM nor a digit, so the next line has no level |
| LineParts.Folded | parser.c:215-250 | Mid upper-cases the bytes of xrefs and tags it scans; the other dialects leave them unchanged |
| LineParts.ScanLstart | parser.c:309-333 | the dialect's lstart: `SkipTrivia` below Strict, `Lstart7` in Strict |
| LineParts.ScanLevel | parser.c:309-333 | the dialect's level scanner: a digit run and its value, with level7's single '0' outside Legacy |
| LineParts.DelimWidth | parser.c:192-204 | the delimiter width stays inside the buffer and skips no NUL |
| LineParts.ScanDelim | parser.c:309-333 | the dialect's delimiter scanner returns `DelimWidth` |
| LineParts.FoldIn | parser.c:215-250 | the buffer after a scan folds exactly the bytes in [lo, hi), and only in Mid |
| LineParts.XrefFormBytes | parser.c:207-234 | an accepted xref starts and ends with '@', is at least 3 bytes long, and every inner byte is a dialect xref byte |
| LineParts.ScanXref | parser.c:309-333 | the dialect's xref scanner: a nonzero width is an xref form, zero means none; the buffer changes only by folding, and only in Mid |
| LineParts.ScanTag | parser.c:309-333 | the dialect's tag scanner: the maximal run of tag bytes, folded in Mid |
| LineParts.ScanEol | parser.c:309-333 | the dialect's eol scanner |
| Forest.WalkWithin | parser.c:28-34 | the climbing walk from p visits only nodes p..n-1 |
| Forest.WalkIncreasing | parser.c:28-34 | the climbing walk visits nodes in strictly increasing arena order, so it visits no node twice |
| Forest.PreorderWithin | parser.c:60-61 | the first-child/next-sibling recursion from p visits only nodes p..n-1 |
| Forest.WalkSplits | parser.c:28-34 | the climbing walk from p is p's preorder followed by the walk from the next node above |
| Forest.ClimbSplits | parser.c:32-33 | climbing from p to the next node reached continues with the preorder of p's next sibling |
| Forest.WalkIsPreorder | parser.c:28-34 | from a root, the climbing walk of lineOfStructure is the recursion of fixPointers and unCONT |
| Forest.PreorderIncreasing | parser.c:60-61 | the preorder recursion visits nodes in strictly increasing order |
| Forest.LineOfStructure | parser.c:24-38 | 0 if either argument is null; otherwise 0 iff s is not reached from head, else the 1-based position of s in the walk |
| Forest.FreeGedStructure | parser.c:15-20 | the released records are exactly g's preorder (g, its descendants and its later siblings'), never g's parent |
| Outline.Lines | parser.c:425-434 | the line numbers lo..hi-1 in order |
| Outline.ParentLevel | parser.c:359-365 | a line has no parent iff its level is 0; otherwise its parent is an earlier line one level up |
| Outline.SameParent | parser.c:360-365 | two lines at one level with only deeper lines between them share a parent |
| Outline.NoSiblingBetween | parser.c:360-365 | a deeper line after a is never a's sibling |
| Outline.NoSiblingPast | parser.c:360-365 | once a line shallower than a appears, no later line is a's sibling |
| Outline.ClimbTo | parser.c:446-450 | climbing from a reaches the first later line at a's level or above |
| Outline.ClimbEnd | parser.c:446-450 | climbing from a reaches null when every later line is deeper |
| Outline.OutlineLinks | parser.c:425-434 | the links the levels determine stay inside the arena, and every child's parent link points back |
| Outline.OutlineNext | parser.c:28-34 | the preorder successor of line k is line k+1, or null after the last |
| Outline.OutlineWF | parser.c:425-434 | the records the levels describe form a well-formed forest in which each line's successor is the next line |
| Outline.OutlineWalk | parser.c:425-434 | the walk from the first record visits every line once, in order, and equals the preorder recursion |
| Outline.WalkFrom | parser.c:28-34 | in such a forest the walk from line k is lines k..n-1 |
| Outline.OpenUp | parser.c:360-363 | the parent of the line open at depth d is the line open at depth d-1 |
| Outline.Attach | parser.c:425-434 | linking a record appends it and changes no earlier record's parent, tag, id or payload |
| Outline.AttachKeepsOutline | parser.c:425-434 | linking the new line under the parent and after the sibling that the pop loop chose keeps the forest the one its levels describe |
| Outline.AttachNew | parser.c:425-433 | the new record's own links are those its level determines |
| Outline.AttachOld | parser.c:431-432 | the earlier records' links are still those the levels determine |
| Outline.LastChild | parser.c:431 | the pop loop's sibling is the parent's last child so far |
| Grammar.Outcome | parser.c:342-348 | a refused part becomes an error with its fault at the given line number; an accepted part is returned as read |
| Grammar.LevelStart | parser.c:354 | the level of a line starts at or after the line's first byte, inside the buffer |
| Grammar.LevelAt | parser.c:356-357 | the level recogniser takes no byte iff the byte is not a digit, and stays inside the buffer |
| Grammar.XrefWidth | parser.c:372 | a nonzero width is an xref form of the dialect of that length; zero means that no form of any length starts there |
| Grammar.XrefFormUnique | parser.c:372 | an xref form has exactly one length |
| Grammar.TagWidth | parser.c:387-388 | the tag recogniser takes no byte iff the first byte cannot start a tag, and stays inside the buffer |
| Grammar.IdForm | parser.c:371-381 | an accepted id is an xref form of at least 3 bytes, or none when no '@' starts the field; a refusal is InvalidId, IdOnSubstructure or VoidId, each only where the dialect and level allow it |
| Grammar.DelimAfter | parser.c:382-384 | the id is the inside of the form and the tag starts after the delimiter; a refusal is NoIdDelim, which Legacy never raises |
| Grammar.IdAt | parser.c:371-385 | with no id the tag starts where the field does; an id lies strictly before the tag; a refusal is one of the id faults the dialect allows |
| Grammar.IdAtStep | parser.c:371-385 | the optional id is IdForm's refusal, no id, or the form followed by DelimAfter |
| Grammar.AfterLevel | parser.c:367-385 | the field after the level: a refusal is NoLevelDelim outside Legacy or one of IdAt's faults; an accepted id lies strictly before the tag |
| Grammar.AfterLevelStep | parser.c:367-369 | NoLevelDelim iff the dialect is not Legacy and no delimiter follows the level; otherwise IdAt after the delimiter |
| Grammar.TagAt | parser.c:387-390 | NoTag, or a tag of nonzero width inside the buffer |
| Grammar.TagEnd | parser.c:389-390 | an accepted tag ends its width past its first byte |
| Grammar.TextAt | parser.c:405-416 | an accepted text value is no payload or a text running to where the line end is looked for; a refusal is EmptyPayload, SingleAtStrict or SingleAtMid, each only in the dialect that raises it |
| Grammar.TextAtCases | parser.c:405-416 | "@@" starts the text one byte on; EmptyPayload iff Strict with no text byte; SingleAtStrict iff Strict with '@' not followed by '@'; SingleAtMid iff Mid with '@' followed by neither '@' nor '#' |
| Grammar.ValueAt | parser.c:396-416 | a line value is never a resolved pointer, and the line end is looked for past a pointer's closing '@'; a refusal is one of TextAt's faults |
| Grammar.ValueAtStep | parser.c:399-404 | an xref form of x bytes gives the pointer text that starts after its '@' and ends before its closing '@'; no form gives TextAt's verdict |
| Grammar.PayloadAt | parser.c:392-418 | the payload lies after the tag, never a resolved pointer; with a delimiter it starts past the tag's end; a refusal is one of TextAt's faults |
| Grammar.PayloadAtStep | parser.c:393-398 | no delimiter after the tag gives no payload and leaves the position at the tag's end; a delimiter gives the line value after it |
| Grammar.EndingAt | parser.c:392-422 | the payload and then the line end, in order inside the buffer; a refusal is one of the payload's faults or NoLineBreak |
| Grammar.EndingAtStep | parser.c:419-422 | NoLineBreak iff eol reads nothing and the byte is not NUL; otherwise the next line starts past the breaks eol reads, which it counts |
| Grammar.BodyAt | parser.c:387-422 | the tag ends before the payload, the payload before the next line; a refusal is NoTag or one of EndingAt's faults |
| Grammar.BodyAtStep | parser.c:387-422 | the body is TagAt's refusal, or EndingAt's refusal after the tag, or the tag's end with the ending |
| Grammar.PartsAt | parser.c:367-422 | the parts lie in order after the level: id, tag, payload, next line; a refusal is a fault the dialect allows at that level, never MissingLevel or SkippedLevel |
| Grammar.PartsAtStep | parser.c:367-422 | the parts are AfterLevel's refusal, or BodyAt's refusal at the tag, or the id and the body together |
| Grammar.PartsAtSplit | parser.c:367-422 | accepted parts are exactly the id AfterLevel reads and the body BodyAt reads at the tag |
| Grammar.LineAt | parser.c:354-422 | an accepted line starts at c, goes at most one level deeper than the line before, and its parts lie in order; a refusal is a fault the dialect allows |
| Grammar.LineAtCases | parser.c:354-365 | MissingLevel iff no level is read; SkippedLevel iff the level is more than one deeper than the line before; otherwise the line is accepted iff PartsAt accepts, with PartsAt's parts at that level, or refused with PartsAt's fault |
| Grammar.LineAtParts | parser.c:354-422 | the verdict on a line is the one its level and the verdict on its parts give |
| Grammar.LinesFrom | parser.c:351-434 | reading stops at a fault the dialect allows, at a line number no smaller than the first; a complete reading is lines that follow one another to the terminating NUL, each at most one level deeper than the one before |
| Grammar.LinesAt | parser.c:353-434 | the same from a byte that starts a line |
| Grammar.ChainedCons | parser.c:422 | a line ending where chained lines start is chained before them |
| Grammar.LinesAtAccept | parser.c:353-434 | an accepted line is followed by the reading after it, from where it ends, at its level, numbered after its breaks |
| Grammar.LinesAtReject | parser.c:342-348 | a refused line stops the reading with its fault at its own line number |
| Grammar.ReadsStart | parser.c:335-351 | before the loop the whole buffer is still to be read, from line 1 with no line before |
| Grammar.ReadsEnd | parser.c:353 | at the terminating NUL the whole buffer reads as the lines read |
| Grammar.ReadsPast | parser.c:351-434 | after an accepted line the whole buffer reads as the lines read, that line, and the reading after it |
| Grammar.ReadsStopped | parser.c:342-348 | a reading that stops at a line makes the reading of the whole buffer stop with the same error |
| Grammar.LevelStops | parser.c:356-359 | no level stops the reading with MissingLevel, a skipped level with SkippedLevel, at that line's number |
| Grammar.PartsStop | parser.c:367-422 | refused parts stop the reading with their fault at that line's number |
| Grammar.PartsGo | parser.c:367-422 | accepted parts make the line at that level, followed by the reading after it |
| Assembly.Cut | parser.c:379 | writing a slicing NUL changes that byte only |
| Assembly.StringKept | parser.c:421 | a string that ends before hi reads the same after writes at or above hi |
| Assembly.SliceKeeps | parser.c:379 | slicing a string out leaves every byte before it and after its NUL as it was |
| Assembly.ReadXref | parser.c:372 | the width the xref recogniser returns is XrefWidth; it folds only the bytes after the '@', and only in Mid |
| Assembly.SaysVoid | parser.c:376 | true iff the form spells @VOID@ |
| Assembly.SliceId | parser.c:371-381 | the result is IdForm's verdict at that line number; with no id the buffer is unchanged, with one its inside is sliced out folded |
| Assembly.DelimAfterId | parser.c:382-384 | the result is DelimAfter's verdict at that line number |
| Assembly.TakeId | parser.c:371-385 | the result is IdAt's verdict at that line number; on success the buffer is the old one with the id cut as IdCut says |
| Assembly.ScanId | parser.c:367-385 | the result is AfterLevel's verdict at that line number; on success the buffer is the old one with the id cut |
| Assembly.TakeTag | parser.c:387-390 | the result is TagAt's verdict at that line number; a refusal changes nothing, an accepted tag is folded in Mid and nothing else changes |
| Assembly.TextValue | parser.c:405-416 | the result is TextAt's verdict at that line number (TextAtCases gives its cases); an accepted text runs to the line break, its leading '@' one the dialect allows |
| Assembly.TextAtPending | parser.c:405-416 | an accepted text runs to the line break, with a leading '@' the dialect allows |
| Assembly.PayloadValue | parser.c:396-416 | the result is ValueAt's verdict at that line number; a pointer's closing '@' becomes NUL, a text is not written yet |
| Assembly.TextAfterScan | parser.c:405-416 | after a failed xref scan the result is TextAt's verdict on the bytes before parsing, and the buffer is as the scan left it |
| Assembly.FoldLeaves | parser.c:372 | the Mid xref recogniser folds bytes only after an '@' followed by an xref byte |
| Assembly.TakePayload | parser.c:392-418 | the result is PayloadAt's verdict at that line number; without a delimiter nothing changes, with one the delimiter becomes NUL and the value is cut |
| Assembly.EndLine | parser.c:419-422 | NoLineBreak iff eol reads nothing before a byte other than NUL; otherwise the byte becomes NUL and the next line starts past the breaks, which are counted |
| Assembly.LineTail | parser.c:392-422 | the result is EndingAt's verdict at that line number; on success the buffer is the old one with the payload and line end cut as TailCut says |
| Assembly.TailOutcome | parser.c:419-422 | an accepted payload followed by EndLine's result gives EndingAt's verdict |
| Assembly.TailCutIs | parser.c:392-422 | the buffer TakePayload leaves, with the line end cut, is TailCut's |
| Assembly.BodyCutIs | parser.c:387-422 | the tag folded and the rest of its line cut make BodyCut's buffer |
| Assembly.LineBody | parser.c:387-422 | the result is BodyAt's verdict at that line number; on success the buffer is the old one with the tag and the rest of the line cut |
| Assembly.ScanLine | parser.c:367-422 | the result is PartsAt's verdict at that line number; on success the buffer is the old one with the whole line cut as LineCut says |
| Assembly.IdCutLeaves | parser.c:371-385 | cutting the id leaves the bytes from the tag on as they were before parsing |
| Assembly.LineCutBytes | parser.c:367-422 | the buffer with a line cut holds, byte by byte, a NUL after each string, folded id, tag and pointer bytes, and the old bytes elsewhere |
| Assembly.FoldedByte | parser.c:220 | folding keeps a byte other than NUL and leaves no lower-case letter in Mid |
| Assembly.XrefTextFolded | parser.c:215-225 | the folded inside of an xref form is an xref text of the dialect |
| Assembly.TagTextFolded | parser.c:243-250 | the folded bytes of a tag are a tag text of the dialect |
| Assembly.IdBytes | parser.c:371-385 | the id PartsAt reads is the inside of an xref form the dialect allows at that level |
| Assembly.ValueBytes | parser.c:396-416 | the value ValueAt reads is the inside of an xref form, or a text run to the line break with a leading '@' the dialect allows |
| Assembly.PayloadBytes | parser.c:392-418 | the same for the payload PayloadAt reads after a tag |
| Assembly.EndingBytes | parser.c:419-422 | the payload of accepted parts is formed as ValueBytes says, and a NUL follows where no line break does |
| Assembly.TagBytes | parser.c:387-390 | every byte of an accepted tag is a tag byte at its offset |
| Assembly.BodyBytes | parser.c:387-422 | the tag and payload BodyAt reads are formed as TagBytes and EndingBytes say |
| Assembly.PartsBytes | parser.c:367-422 | the id, tag and payload PartsAt reads are formed as the three lemmas above say |
| Assembly.CutRuns | parser.c:379-403 | the tag, any id and any pointer are cut out folded and followed by a NUL |
| Assembly.TextRun | parser.c:413-421 | a text is cut out as it was, followed by a NUL |
| Assembly.TagCutHolds | parser.c:387-397 | the tag cut out is its bytes, folded, and a tag text of the dialect, of the tag's width |
| Assembly.XrefCutHolds | parser.c:378-379 | the inside of an xref form cut out is its bytes, folded, and an xref text of the dialect |
| Assembly.TextCutHolds | parser.c:413-421 | a text cut out holds its bytes as they were and has the syntax of a text payload |
| Assembly.NotVoid | parser.c:376-377 | in Strict, an id cut out of a form that is not @VOID@ is not "VOID" |
| Assembly.IdCutHolds | parser.c:371-381 | the id cut out holds its bytes, folded, is an xref text, and in Strict is on a record and not "VOID" |
| Assembly.PayloadCutHolds | parser.c:392-418 | the payload cut out holds its bytes (folded for a pointer) and has the dialect's payload syntax |
| Assembly.CutHolds | parser.c:367-422 | the strings a line cuts hold its bytes, have the dialect's syntax, lie in order after the line start and end before the next line |
| Assembly.CutKeepsRest | parser.c:421-422 | from where the next line starts the buffer still holds the bytes before parsing |
| Assembly.LineCutHolds | parser.c:367-422 | the buffer with a line PartsAt accepts cut out holds each of its strings as read, with the dialect's syntax, in order, before the next line, and the bytes before parsing from there on |
| Build.PopTo | parser.c:360-365 | the pop loop leaves the parent open at level l-1, and a sibling that is null or the parent's child open at level l |
| Build.LinkedGrown | parser.c:425-434 | linking a scanned line adds one record, keeps the forest the one the levels describe, and keeps every earlier string |
| Build.SlicedLinked | parser.c:425-434 | the earlier records stay sliced, and the new one is sliced before the next line |
| Build.RecordsKept | parser.c:367-422 | cutting a line keeps what the nodes of the lines before it hold |
| Build.RecordsGrow | parser.c:425-434 | linking in the node made from a line adds its record after the others |
| Build.TracedSnoc | parser.c:365 | one more line appends its level and start |
| Build.CutLine | parser.c:367-422 | refused iff the reading from the line stops there, with the same error; accepted parts are PartsAt's at the level, the reading continues after them, and the strings cut hold what the line holds |
| Build.LinkLine | parser.c:367-434 | the same, with the line's node made from its parts and linked in as the new last node, at level l |
| Build.ReadLevel | parser.c:354-358 | the level starts at LevelStart, takes LevelAt's width and has its value |
| Build.ParseLine | parser.c:353-434 | MissingLevel when no level is read, SkippedLevel when it is more than one deeper than the line before, and every refusal is where the reading from the line stops; otherwise the line is at that level with PartsAt's parts, its node is linked in, and the next line starts where it ends, numbered after its breaks |
| Build.BuiltStart | parser.c:335-351 | before the first line nothing is built |
| Build.BuiltStep | parser.c:353-434 | a line read and linked in extends what is built by its node |
| Build.Advance | parser.c:351-434 | a refused line makes the reading of the whole buffer stop with the same error; an accepted one extends both the lines read and what is built |
| Build.Finished | parser.c:353 | at the terminating NUL the buffer reads as the lines read, node k records line k, and the nodes form the forest of their levels, walked in line order |
| Build.Assemble | parser.c:351-435 | an error iff ReadAll of the input stops, with the same fault and line; otherwise node k records the (k+1)-th line ReadAll reads, at its level and start, the nodes are the forest the levels describe, every string is cut out, the walk is the lines in order, and the forest is empty iff the input is |
| Resolve.StrCmp | parser.c:42-45 | the comparison of xrefCmp is -1, 0 or 1, and 0 iff the strings are equal |
| Resolve.StrCmpFlip | parser.c:42-45 | swapping the arguments negates the comparison |
| Resolve.StrCmpTrans | parser.c:42-45 | the comparison is transitive |
| Resolve.StrCmpLessTrans | parser.c:42-45 | less-than followed by at-most is less-than |
| Resolve.StrCmpTransLess | parser.c:42-45 | at-most followed by less-than is less-than |
| Resolve.Key | parser.c:44 | an id string holds no NUL |
| Resolve.RootsAreRoots | parser.c:452-456 | the chain of next siblings from the first record visits only roots |
| Resolve.WalkIds | parser.c:443-451 | the Legacy walk from p collects p if it has an id, then what the walk from p's successor collects |
| Resolve.WalkStep | parser.c:446-450 | one step of the Legacy walk moves to the preorder successor |
| Resolve.CollectWalk | parser.c:443-451 | the array holds the records with an id in walk order, every record in the forest |
| Resolve.CollectRoots | parser.c:452-456 | the array holds the root records with an id, in order |
| Resolve.TargetsShape | parser.c:441-456 | the collected targets are in increasing record order and each has an id |
| Resolve.Insert | parser.c:458 | one insertion step keeps the same targets and extends the sorted prefix by one |
| Resolve.SortTargets | parser.c:458 | the targets are permuted (same multiset) into non-decreasing id order |
| Resolve.SortedTargets | parser.c:439-458 | the array holds exactly the collected targets, sorted by id |
| Resolve.FindDuplicate | parser.c:459-460 | 0 iff neighbouring ids are strictly increasing; otherwise j with ids j-1 and j equal |
| Resolve.UniqueTargets | parser.c:459-463 | strictly increasing sorted ids mean no two targets share an id |
| Resolve.DuplicateTargets | parser.c:459-463 | two equal neighbours mean some target shares its id with another |
| Resolve.TargetLine | parser.c:461 | a target record is reached by the walk from the first record at its own line position |
| Resolve.DuplicateLine | parser.c:461 | the reported line is that of a record whose id another target shares |
| Resolve.Search | parser.c:53-54 | the binary search finds a target with the id, or none exists |
| Resolve.PreorderParts | parser.c:60-61 | the preorder of p is p, its children's preorder, then its later siblings', with the two disjoint |
| Resolve.FixOne | parser.c:49-59 | a pointer fails iff it names neither VOID nor a target; otherwise VOID becomes null and any other name becomes the target with that id, while other nodes and the shape are unchanged |
| Resolve.FirstBadParts | parser.c:47-61 | the first dangling pointer in p's preorder is at p, in its children's part, or in its siblings' part |
| Resolve.FixPointers | parser.c:46-62 | succeeds iff no pointer in the preorder dangles; the line counter stops at the first dangling one; every visited record is fixed and the shape is kept |
| Resolve.ReshapedWF | parser.c:55-57 | fixing payloads keeps the forest well formed |
| Resolve.ReshapedPreorder | parser.c:55-57 | fixing payloads keeps the preorder |
| Resolve.FirstDangling | parser.c:465-467 | the first failure of the walk is a dangling pointer with none before it |
| Resolve.FixedAll | parser.c:466 | a walk over every record fixes every record |
| Resolve.ReportDuplicate | parser.c:459-463 | a duplicate report satisfies `Reported` |
| Resolve.ReportDangling | parser.c:465-467 | a report of the first dangling pointer satisfies `Reported` |
| Resolve.ReportFixed | parser.c:468 | a fixed forest with unique ids and no dangling pointer satisfies `Reported` |
| Resolve.ResolvePointers | parser.c:439-468 | DuplicateId iff two targets share an id, at a sharing record's line; else NoTarget at the first dangling pointer; else Ok with every pointer resolved |
| Unfold.Joined | parser.c:118-146 | the joined text is the parent text, then a line break for CONT, then the child text; it is absent iff neither has text and the child is CONC |
| Unfold.FirstBadIn | parser.c:109-117 | the first rejected line in a range, or the range end |
| Unfold.AfterRun | parser.c:111-149 | the first child left once a run is folded is null or a line that does not join |
| Unfold.CStringAppend | parser.c:85-95 | writing w and a NUL at a string's NUL makes the string its old text followed by w |
| Unfold.FindNul | parser.c:133 | the scan stops at the NUL that ends the string |
| Unfold.Copy | parser.c:144-145 | the copy loop writes the string and a NUL at dst and nothing else |
| Unfold.JoinInto | parser.c:118-131 | a record with no payload takes the child's text (behind a new line break for CONT), written only between the two records |
| Unfold.JoinAfter | parser.c:132-146 | a text payload becomes the joined text; bytes before its old NUL and from z on are unchanged |
| Unfold.TextNul | parser.c:133 | the cached end is where the payload text's NUL lies |
| Unfold.Append | parser.c:134-146 | the append writes exactly the tail and a NUL at the end |
| Unfold.AppendBreak | parser.c:134-138 | a child without payload adds a line break for CONT and nothing for CONC |
| Unfold.AppendText | parser.c:139-146 | a child with text adds a line break for CONT, then its text, then a NUL |
| Unfold.AppendLine | parser.c:92-95 | the CONT case writes a line break, the child's text and a NUL |
| Merge.ParentIff | parser.c:425-434 | line k is the parent of line j iff j is one level deeper and every line between is deeper than k |
| Merge.FirstChildLine | parser.c:432 | a line's first child is the next line if it is one level deeper, else null |
| Merge.NextSiblingLine | parser.c:431 | a line's next sibling is the first line after its subtree if that is at its level, else null |
| Merge.SiblingReach | parser.c:152-153 | the sibling the walk moves to is the line after the subtree, and it is not folded |
| Merge.ReachAll | parser.c:477 | the walk from the first record covers every line |
| Merge.FirstBadInSplit | parser.c:102-103 | the first rejected line of a range is found in its first part, or else in its second |
| Merge.FoldOne | parser.c:118-150 | one fold gives the record the joined text of it and its child, writing only between the two |
| Merge.RunChild | parser.c:114-117 | a line in a run is folded, and is rejected iff the host has a pointer, or it has an id, a pointer or children |
| Merge.FoldStep | parser.c:118-150 | one fold keeps the run invariant over the next line |
| Merge.Advance | parser.c:111-117 | a joining child is rejected as `Bad` says with nothing changed, or folded in |
| Merge.FoldLoop | parser.c:111-151 | the loop stops at the first rejected child, or at the first child that does not join |
| Merge.FoldRun | parser.c:110-151 | the record's run is folded into `Expected` text, or the first bad child is reported with its line |
| Merge.VisitTag | parser.c:109 | whether the visited line joins is read as in the original buffer |
| Merge.Visit | parser.c:107-151 | a visited line that joins is rejected; otherwise its run is folded, or the first bad line of its subtree is reported |
| Merge.Descend | parser.c:152-153 | the recursion over children and then siblings succeeds iff no line in the range is bad |
| Merge.WalkDone | parser.c:152-153 | a kept record together with its finished children and siblings finishes the whole range |
| Merge.UnCont | parser.c:106-154 | succeeds iff no line is `Bad`; the line counter stops at the first bad line; every kept record holds its `Expected` text; nothing outside the range changes |
| Parse.ContFault | parser.c:473-479 | the CONT message in Strict, the CONT or CONC message otherwise |
| Parse.SlicedStrings | parser.c:379 | every string the line loop cut lies inside the buffer |
| Parse.FixedSetting | parser.c:55-57 | resolving pointers keeps the forest of the lines and where its strings lie |
| Parse.KeptClosed | parser.c:98-100 | after a successful walk, kept records link only to kept records; the folded ones are unlinked |
| Parse.FixAndFold | parser.c:436-482 | on the forest the line loop built: an error has a line from 1 and is DuplicateId or NoTarget as `Reported` says of the pointer pass, or the dialect's CONT message at the first line `Bad` names; success means ids unique, pointers resolved, and every kept record holding its `Expected` text and linking only to kept records |
| Parse.ParseGEDCOM | parser.c:300-485 | the line loop fails iff `ReadAll` of the input stops, and then with its fault and line; otherwise node k records the (k+1)-th line `ReadAll` reads; the later passes add only DuplicateId, NoTarget and the CONT faults, as `FixAndFold` states; success means the lines' forest, ids unique, pointers resolved, and every kept record holding its folded text |

## Left out

- Writing to stderr when a line is rejected (parser.c:346) is not modelled.
- calloc, malloc and free are not modelled. Allocation never fails in the
  model, and the C record leaks (unused array, records left behind on
  error) are not tracked. Folded records stay in the arena, unlinked;
  `Parse.KeptClosed` states that no kept record reaches them.
- Forest.FreeGedStructure: returns the set of records it would release; it does not model the deallocation itself.
- The target array sized by `xref_id_count` (parser.c:338,441) is
  modelled as an array as long as the arena, because the count is never
  incremented and the C writes past an array of size zero.
- Scanners.Level1: the level is an unbounded `nat`; the C `int` overflow on very long digit runs is not modelled.
- Scanners.Level7: the same `int` overflow is not modelled.
- Resolve.SortTargets: a stable insertion sort stands in for the C library `qsort`. The C sort is not stable, so which of two equal ids
  `lineOfStructure` reports is unspecified in C; the model reports the
  record that sorts second.
- Resolve.Search: a binary search over the sorted targets stands in for the C library `bsearch`, with the same found/not-found outcome.
- Merge.UnCont: one walk parameterised by the dialect models both unCONTCONC (parser.c:106-154) and unCONT (parser.c:63-104); the table cites the former, whose Strict case is the latter.
- parser_test.c (the test driver and its file reading) is not part of this model.
- Pointer-sized integers (`size_t` line counters) are unbounded in the model.

