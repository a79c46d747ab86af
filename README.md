# neon-diff: intraline diff refinement

neon-diff reads a unified diff, possibly already coloured, from standard
input. It prints the diff again in colour. Inside every block of removed
lines followed by added lines, it highlights the parts that differ.

This project models the core of that pipeline:

- **The line reader and classifier** (`DiffParser`, src/diffparser.cpp).
  - The reader appends one line at a time to a growing buffer (`readLine`,
    `resizeBuffer`).
  - The escape-skipping prefix matcher `handlerForLine` and the first-match
    handler table give each line a handler. The loop uses the matcher as
    corrected in "## Findings".
  - The `processInput` loop and its `inBlock_` state decide when a pending
    block of '-' and '+' lines is processed and when the buffer is reset.
  - The handlers print header, range and context lines without their escape
    runs (`printLineNoAnsi`). They strip block lines in place
    (`stripLineAnsi`) and accumulate them.
- **The intraline engine.**
  - `longestMatch` is a brute-force search for the longest common run.
  - `compareBlocks` splits recursively around that run.
  - `processBlock` paints the removed and added sides. Matched runs are
    plain, and the gaps between them are highlighted.
- **The output side of the older `NeonApp`** (src/neonapp.cpp).
  - `printChar` writes a colour or highlight code only when the selection
    differs from the code last written. It never highlights the first byte
    of a line. After a newline it forgets every code except the reset codes.
  - Its doubling `readLine`, `outputBlock` and `outputDiff`.
- **`utf8CharLen`** (src/main.cpp): the length of a UTF-8 sequence from its
  lead byte, as given in section 3 of RFC 3629.

Pointers into the buffer are `nat` offsets, and a null block pointer is
`None`. The parser's output is a log of the calls it makes on the
application object (`Directives.Call`): select a colour or highlight, print
a buffer range, print one byte. `NeonApp` turns such calls into escape-code
and byte tokens (`Render.Token`), and `Render` shows what those tokens put
on a terminal.

Modules:

- `Colors`: the escape-code constants as an enumeration.
- `Utf8`: `utf8CharLen`.
- `Ansi`: escape runs, `StripAnsi`, the visible text and `handlerForLine`.
- `Classify`: the handler table.
- `Lines`: what a `readLine` takes from the stream, and the buffer growth
  rule.
- `Engine`: `longestMatch` and `compareBlocks`.
- `Directives`: the calls `processBlock` makes, and how they tile the block.
- `Parser`: the `DiffParser` class, and the state machine of `processInput`
  as a function on a `State` value.
- `Steps`: one loop turn of `processInput`, case by case.
- `Render`: `printChar` as a pure step, and its terminal semantics.
- `App`: the `NeonApp` class.

The model follows the code where it differs from the design description:

- The block buffer keeps each line's '-' or '+' marker. The engine skips
  the marker, because it skips the byte after every newline.
- An "@@" line is not a block line. Its handler's table entry has
  `blockLine` false, so it flushes the pending block like any other
  header line.
- Whitespace is always skipped when comparing. The ignore-spaces option is
  parsed but never read.
- There is no match cache.

Three behaviours of the code are modelled as written and stated as lemmas.

- A '-' line that follows a '+' block is lost. `handleRemLine` processes
  the block, `processBlock` clears `inBlock_`, and `processInput` then
  resets the buffer, discarding that line. See
  `Steps.RemovedLineAfterAddedBlockIsDropped`.
- A line that no table entry matches is printed as it is. It neither
  flushes the pending block nor resets the buffer
  (`Steps.GenericLineKeepsBlock`).
- A last line without a newline is never dispatched, because `readLine`
  returns false once it hits the end of the stream. At the end only the
  pending block is processed (`Parser.Tail`, `Parser.Finish`,
  `Parser.DiffParser.ProcessInput`).

## Model

| member | source | states |
|---|---|---|
| Utf8.CharLen | src/main.cpp:35-46 | 1 exactly for 0xxxxxxx, 2 exactly for 110xxxxx, 3 exactly for 1110xxxx, 4 exactly for 11110xxx, 0 exactly for continuation bytes and 11111xxx; the result is at most 4 |
| Utf8.Promote | src/main.cpp:36-46 | the byte promoted from a signed or unsigned `char` keeps its low eight bits, so the masks see the same bits either way |
| Ansi.ThroughM | src/diffparser.cpp:74-76 | an escape run reaches up to and including the first 'm', or to the end of the budget when there is none |
| Ansi.StripAnsi | src/diffparser.cpp:165-182 | the stripped text is no longer than the line and holds no ESC |
| Ansi.Visible | src/diffparser.cpp:70-84 | the text the matcher compares holds no ESC and no NUL, and is no longer than the budget |
| Ansi.SkipEscape | src/diffparser.cpp:74-76 | the skip loop stops just after the first 'm', or at the end of the budget |
| Ansi.HandlerForLine | src/diffparser.cpp:70-84 | true exactly when the identifier is a prefix of the visible bytes within the budget (corrected so that the budget never goes below zero) |
| Ansi.HandlerAsWritten | src/diffparser.cpp:70-84 | the matcher as written, with a signed budget: an empty identifier with no budget matches |
| Ansi.AsWrittenAgreesWhenRunsClosed | src/diffparser.cpp:70-84 | when the budget never ends inside an escape run, the code as written gives exactly the corrected answer |
| Ansi.HandlerAsWrittenOverrunsLine | src/diffparser.cpp:73-76 | as written, a line holding only an escape run matches "---" by reading past its budget, although its visible text is empty |
| Ansi.VisiblePrefixOfStripped | src/diffparser.cpp:70-84 | the bytes the classifier compares are a prefix of the bytes the stripped line keeps |
| Ansi.LeadingEscapeInvisible | src/diffparser.cpp:74-77 | a complete escape sequence in front of a line changes neither its visible text nor its stripped text |
| Classify.HandlerIndex | src/diffparser.cpp:33-42 | the entry chosen is the first whose identifier prefixes the visible text; no earlier entry matches; the table size means none |
| Classify.FindHandler | src/diffparser.cpp:91-95 | the search loop returns the first entry that matches under the corrected matcher, or the table size |
| Classify.HandlerIndexIsFirst | src/diffparser.cpp:91-95 | any index that matches and has no earlier match is the chosen one |
| Classify.HandlerByPrefix | src/diffparser.cpp:33-42 | "---" and "+++" take the file-header handler before "-" and "+"; "@@" takes the range handler; " " takes the context handler; '-' and '+' lines otherwise take the block handlers; anything else takes the generic handler (each an if-and-only-if) |
| Classify.LeadingEscapesKeepHandler | src/diffparser.cpp:70-84 | escape sequences in front of a line do not change its handler |
| Classify.HandlerTestPlain | src/test/input.cpp:23-28 | "---" matches with budget sizeof and sizeof-1 but not sizeof-2 |
| Classify.HandlerTestLeadingEscapes | src/test/input.cpp:30-35 | the same with three leading escape sequences |
| Classify.HandlerTestMixedEscapes | src/test/input.cpp:37-42 | the same with escape sequences between the dashes |
| Classify.TestEscapes | src/test/input.cpp:31-38 | the escape strings of the tests are escape sequences |
| Engine.SkipBlank | src/diffparser.cpp:202-205 | the skip loop stops at a byte that is not a space, tab or newline and does not follow a newline, or at the range end |
| Engine.SkipBlankPassesBlanks | src/diffparser.cpp:202-205 | every byte the skip loop passes over is blank, so the byte it stops at is the first non-blank one |
| Engine.SkipBlanks | src/diffparser.cpp:202-205 | the skip loop computes SkipBlank |
| Engine.CommonPrefixSpec | src/diffparser.cpp:200-225 | the run length is a common prefix of both compared texts that cannot be extended |
| Engine.RunIsCommonPrefix | src/diffparser.cpp:198-225 | the run built from a start pair has, as its length, the common prefix of the two texts with blanks removed |
| Engine.RunSpansAgree | src/diffparser.cpp:198-225 | the two spans of a run hold the same compared text, of the run's length |
| Engine.MatchAt | src/diffparser.cpp:194-224 | a Block starts at its start pair, ends within the ranges, and each end lies at least `len` bytes after its start |
| Engine.ScanStep | src/diffparser.cpp:200-224 | one pass of the inner for-loop either stops the run or extends it by one compared byte |
| Engine.ScanRun | src/diffparser.cpp:194-225 | the for-loop builds exactly MatchAt for the start pair |
| Engine.Longest | src/diffparser.cpp:184-246 | a result lies in the ranges, has weight at least 1, and is the Block its start pair builds |
| Engine.LongestIsFirstMaximal | src/diffparser.cpp:184-246 | null exactly when every start pair has weight 0; otherwise no pair beats the result, and every pair visited before it has a smaller weight |
| Engine.RowPruned | src/diffparser.cpp:193 | leaving a row once no more than `best.len` add positions remain loses nothing |
| Engine.RestPruned | src/diffparser.cpp:192 | leaving the outer loop early loses nothing |
| Engine.LongestMatch | src/diffparser.cpp:184-246 | the nested loops with their pruning tests return exactly Longest |
| Engine.CompareBlocks | src/diffparser.cpp:248-262 | empty exactly when longestMatch finds nothing; the Blocks lie in the ranges, in order and without overlap on both sides |
| Engine.CompareBlocksSound | src/diffparser.cpp:248-262 | every Block returned has two spans of equal compared text, of its length |
| Directives.Spans | src/diffparser.cpp:286-304 | one span per Block, on the chosen side |
| Directives.SideFrom | src/diffparser.cpp:286-292 | one loop turn selects the highlight, prints the gap, clears the highlight, prints the match, and carries on from its end |
| Directives.Pending | src/diffparser.cpp:282 | the Blocks of a one-sided block are none; those of a two-sided block are ordered within [rem, add) and [add, line) |
| Directives.SidePaints | src/diffparser.cpp:284-294 | one side's calls paint ranges that tile its range in its colour; the plain ranges are exactly the Blocks and the highlighted ones exactly the gaps |
| Directives.ChainedOrdered | src/diffparser.cpp:248-262 | the Blocks of compareBlocks are ordered spans on each side |
| Directives.OneSidedPaints | src/diffparser.cpp:269-280 | with one side missing, the block is printed as one range in that side's colour, from its start to the current line |
| Directives.TwoSidedPaints | src/diffparser.cpp:282-310 | with both sides, [blockRem_, blockAdd_) is tiled in the removed colour and [blockAdd_, line_) in the added colour; on each side the gaps are highlighted and the matches are not; the highlight ends off |
| Lines.Grown | src/diffparser.cpp:11-13 | the size grows: doubled while at most 8192*1024, otherwise by 8192*1024 |
| Lines.ReadChunk | src/diffparser.cpp:142-163 | a line read is the bytes through the next newline; at the end of the input it is the rest and the EOF byte, and the stream is then at its end |
| Lines.Getc | src/diffparser.cpp:152 | fgetc yields the next byte, or EOF without advancing |
| Lines.TakenNext | src/diffparser.cpp:148-160 | one pass of the read loop appends the byte fgetc returned |
| Lines.ChunkTaken | src/diffparser.cpp:142-163 | the read loop takes exactly ReadChunk |
| Lines.CompleteLinesSpec | src/diffparser.cpp:91 | the complete lines each end in their only newline, concatenated they start the input, and what follows them holds no newline |
| Lines.ChunkStep | src/diffparser.cpp:142-163 | a read either yields the first complete line and leaves the rest, or finds none and yields the unterminated tail |
| Render.PrintChar | src/neonapp.cpp:375-411 | the byte is written last; a newline is written alone and starts a line; otherwise the colour code is written exactly when it differs from the one last written, and highlight-on is never written at line start; the selection is unchanged |
| Render.PrintAppend | src/neonapp.cpp:229-234 | printing two texts in turn equals printing them joined |
| Render.PrintCharShows | src/neonapp.cpp:375-411 | from a printer that is right about the terminal, the byte appears in the selected colour, highlighted as selected except at line start, and the printer stays right |
| Render.PrintShows | src/neonapp.cpp:229-234 | the same for a whole text printed by outputBlock |
| Render.InitialCoherent | src/neonapp.cpp:75-93 | the constructed printer remembers nothing, so it is right about any terminal |
| Render.ResetCancelsHighlight | src/neonapp.cpp:392-405 | with the reset colour and highlight on selected, a remembered highlight survives the "\33[m" that cancels it |
| Render.CodesOfChar | src/neonapp.cpp:392-405 | a byte costs one colour code only when the colour changed and one highlight code only when the wanted highlight changed |
| Render.LineCoalesces | src/neonapp.cpp:392-405 | within one line and selection, at most one colour code is written (none when that colour was the last written), and at most two highlight codes (off for the first byte, then the selection), whatever the length of the text |
| Render.IndentTracksBlanks | src/neonapp.cpp:390 | after a line's first byte, outLineIndent_ stays true exactly while every later byte is a space or tab |
| Render.IndentAfterStart | src/neonapp.cpp:390 | within a line, outLineIndent_ holds exactly when it held before and every byte is a space or tab |
| App.PlayBoth | src/neonapp.cpp:332-360 | a two-sided outputDiff prints the removed side from the removed colour, then the added side from the added colour |
| App.NeonApp.constructor | src/neonapp.cpp:75-93 | an empty buffer of 8192 bytes, no block, the initial printer, nothing written |
| App.NeonApp.Double | src/neonapp.cpp:190-200 | the buffer doubles and keeps its bytes; offsets need no rebasing |
| App.NeonApp.Put | src/neonapp.cpp:190-206 | one byte is appended to the buffer and the line, growing the buffer when full |
| App.NeonApp.ReadLine | src/neonapp.cpp:183-213 | the new line starts at the old end of the buffer; the bytes read are appended; the result is false exactly when the end of the input was hit |
| App.NeonApp.ReadBytes | src/neonapp.cpp:189-210 | the read loop stops just after the first newline or at the end of the input, appending what it took |
| App.NeonApp.SetColor | src/neonapp.cpp:363-367 | only the selected colour changes |
| App.NeonApp.SetHighlight | src/neonapp.cpp:369-373 | only the selected highlight changes |
| App.NeonApp.PrintChar | src/neonapp.cpp:375-411 | the printer fields and output advance exactly as Render.PrintChar says |
| App.NeonApp.OutputBlock | src/neonapp.cpp:229-234 | the bytes of the range are printed in order through printChar |
| App.NeonApp.OutputSide | src/neonapp.cpp:335-344 | one side's loop prints the gaps highlighted and the matches plain |
| App.NeonApp.OutputDiff | src/neonapp.cpp:316-360 | the output is what processBlock's calls print on this printer, and both block pointers are cleared |
| Parser.Chars | src/diffparser.cpp:329-335 | one printChar per byte kept |
| Parser.RawChars | src/diffparser.cpp:425-426 | one printCharNoAnsi per byte, in order |
| Parser.RangeLen | src/diffparser.cpp:360-365 | the range part never exceeds the line |
| Parser.RangeLenIsFourthAt | src/diffparser.cpp:360-365 | the range part ends at the fourth '@', or is the whole line when it holds fewer than four |
| Parser.PrintedChars | src/diffparser.cpp:329-335 | the bytes printed are the bytes kept |
| Parser.ShownPrintsStripped | src/diffparser.cpp:338-350 | a file-header or context line prints exactly the line without its escape runs |
| Parser.RangeShownPrintsParts | src/diffparser.cpp:352-373 | an "@@" line prints its range part and then its heading, each without escape runs |
| Parser.Load | src/diffparser.cpp:142-163 | a line read between two lines leaves a state ready for dispatch |
| Parser.Handle | src/diffparser.cpp:338-416 | the current line is passed over; the '-' handler starts or keeps the removed side and leaves inBlock_ set only if no added side was pending; the '+' handler starts or keeps the added side; the printing handlers keep the block |
| Parser.Step | src/diffparser.cpp:91-110 | one loop turn leaves the state between lines: a pending block exactly when inBlock_ is set, ordered offsets |
| Parser.Dispatched | src/diffparser.cpp:101-109 | a table handler's turn leaves the state between lines |
| Parser.StepFound | src/diffparser.cpp:93-110 | a matched block line is never empty once stripped, and the turn is the table handler's |
| Parser.Run | src/diffparser.cpp:91-111 | the loop over all complete lines leaves the state between lines |
| Parser.Fetched | src/diffparser.cpp:142-163 | a read at the end of the stream yields nothing; otherwise it advances the stream unless it hits the end |
| Parser.NextRead | src/diffparser.cpp:91 | a read either delivers the next complete line of the input or, at the end, the unterminated tail |
| Parser.RangeShownOf | src/diffparser.cpp:357-372 | the two printLineNoAnsi calls with the range part's length and with -1 print exactly the range part and then the heading |
| Parser.DiffParser.constructor | src/diffparser.cpp:45-56 | an empty buffer of 8192 bytes, no block, nothing printed |
| Parser.DiffParser.ResizeBuffer | src/diffparser.cpp:127-140 | the size grows by the Grown rule and the bytes are kept; offsets need no rebasing |
| Parser.DiffParser.Put | src/diffparser.cpp:149-156 | one byte is appended, resizing first when the buffer is full |
| Parser.DiffParser.ReadLine | src/diffparser.cpp:142-163 | the line starts at the old end of the buffer; the bytes of the read are appended; the result is false exactly when the end of the stream was hit |
| Parser.DiffParser.ReadBytes | src/diffparser.cpp:148-160 | the loop stops just after the first newline or at the end of the input |
| Parser.DiffParser.ResetBuffer | src/diffparser.cpp:117-125 | the buffer, line and block pointers are emptied |
| Parser.DiffParser.StripLineAnsi | src/diffparser.cpp:165-182 | the current line is replaced in place by its stripped text; the bytes before it are kept; bufLen_ and lineLen_ shrink together |
| Parser.StripKept | src/diffparser.cpp:168-181 | the compaction loop writes the stripped text at the line start and leaves the rest of the array alone |
| Parser.DiffParser.PrintLineNoAnsi | src/diffparser.cpp:316-336 | -1 or a too-large length means the rest of the line; the bytes printed are those of the range without escape runs; line_ advances by the length |
| Parser.PrintNoAnsi | src/diffparser.cpp:327-335 | the print loop prints the range's bytes without escape runs |
| Parser.DiffParser.HandleFileInfoLine | src/diffparser.cpp:338-350 | the line is printed stripped in the file colour, highlight off, then colour and highlight are reset |
| Parser.DiffParser.HandleRangeInfoLine | src/diffparser.cpp:352-373 | the range part (through the fourth '@') is printed in the range colour and the rest in the heading colour |
| Parser.DiffParser.RangePart | src/diffparser.cpp:360-365 | the '@'-counting loop computes RangeLen |
| Parser.DiffParser.HandleContextLine | src/diffparser.cpp:375-387 | the line is printed stripped in the context colour |
| Parser.DiffParser.HandleGenericLine | src/diffparser.cpp:418-427 | colour and highlight are reset, the pending codes are written, and every byte of the line is printed as it is |
| Parser.DiffParser.HandleRemLine | src/diffparser.cpp:389-403 | a pending added side is processed first; the removed side starts here if new; the line is stripped |
| Parser.DiffParser.HandleAddLine | src/diffparser.cpp:405-416 | the added side starts here if new; the line is stripped |
| Parser.DiffParser.ProcessBlock | src/diffparser.cpp:264-310 | the calls of Directives.Flush are made, and inBlock_ and both block pointers are cleared |
| Parser.FlushBlock | src/diffparser.cpp:264-310 | the calls processBlock makes are Directives.Flush |
| Parser.EmitSide | src/diffparser.cpp:284-306 | one side's loop makes the calls of Directives.SideCalls |
| Parser.DiffParser.Dispatch | src/diffparser.cpp:92-110 | one loop turn on the parser object does exactly Step |
| Parser.DiffParser.Enter | src/diffparser.cpp:101-104 | a pending block is processed only when the line is no block line; inBlock_ becomes the entry's blockLine |
| Parser.DiffParser.Settle | src/diffparser.cpp:108-109 | the buffer is reset exactly when inBlock_ is false |
| Parser.DiffParser.Callback | src/diffparser.cpp:106 | the handler's effect is Handle |
| Parser.DiffParser.ProcessInput | src/diffparser.cpp:86-115 | the final state is: every complete line dispatched in turn from inBlock_ false, then the unterminated tail read but not dispatched, then the pending block processed if inBlock_ is set |
| Steps.GenericLineKeepsBlock | src/diffparser.cpp:97-99 | a line no entry matches leaves the block pending and the buffer unreset, and prints the line as it is |
| Steps.NonBlockLineFlushes | src/diffparser.cpp:100-110 | a header, range or context line processes the pending block, prints itself and resets the buffer |
| Steps.BlockLineJoins | src/diffparser.cpp:100-110 | a '+' line, or a '-' line with no added side pending, joins the block stripped; nothing is printed |
| Steps.RemovedLineAfterAddedBlockIsDropped | src/diffparser.cpp:389-403 | a '-' line after a '+' block prints the block, and the line itself is discarded by the buffer reset |
| Steps.FinishFlushesPending | src/diffparser.cpp:113-114 | at the end, the pending block is processed exactly when inBlock_ is set |

## Left out

- Standard I/O: `fgetc`, `feof`, `fputc` and `fputs`. The input is a sequence of bytes and a position. The output is a log of calls or tokens.
- The driver in src/main.cpp:48-195: option parsing, file handling, help text and the application lifecycle.
- `printBlock`, `printAnsiCodes`, `printCharNoAnsi` and `printNewLine` have no definitions in the code shown. The parser records them as calls. Tab and indent rendering (`tabWidth_`, `indentWidth_`) is not modelled either.
- src/colors.cpp and src/colors.h are modelled only as an enumeration of their escape codes.
- Memory: `malloc` or `realloc` failure, `new` and `delete` of `Block`, and raw-pointer aliasing. Buffers are arrays with offsets, so rebasing after a reallocation is the identity.
- `int` overflow of `bufSize_`, `bufLen_` and `lineLen_`. Integers are unbounded.
- The `char` value -1 that `readLine` stores when `fgetc` returns EOF is modelled as the byte 255.
- The copies of `longestMatch` and `compareBlocks` in src/neonapp.cpp:236-314 are not modelled separately. They are identical to the `DiffParser` versions, which `Engine` models once.
- The older `NeonApp::processInput` and `NeonApp::stripAnsi` (src/neonapp.cpp:109-180, 216-227). `DiffParser` supersedes them.
- The declarations in src/diffparser.h and src/neonapp.h. src/test/input.cpp is used only for the test lemmas in `Classify`.
- Some helper methods (`Parser.PrintNoAnsi`, `Parser.FlushBlock`) take a copy of the buffer's contents as a value, where the source reads the buffer through a pointer. The bytes are the same.
- Classify.FindHandler, Parser.Step, Parser.DiffParser.Dispatch and Parser.DiffParser.ProcessInput classify each line with the corrected matcher `Ansi.HandlerForLine`, not with `handlerForLine` as written. A line whose budget ends inside an escape run is classified by its own visible bytes. The over-read of the "## Findings" row is not reproduced by the `processInput` model: after "@@---\n", a line of ESC and a newline goes to the generic handler, whereas the code as written takes it for a "---" header. `Ansi.AsWrittenAgreesWhenRunsClosed` shows the two agree on every line whose escape runs are closed within the budget.
- Render.PrintShows: requires that the reset colour is never selected with highlight on. With that selection, "\33[m" also cancels inverse video while the printer still remembers it as written (`Render.ResetCancelsHighlight`). The program never makes that selection.
- Render.LineCoalesces: bounds the number of codes written within one line and selection, rather than counting them exactly.

## Findings

| source | as written | input that shows it | evidently intended | confidence | as-written member | corrected member |
|---|---|---|---|---|---|---|
| src/diffparser.cpp:73-76 | `while(n-- && *line++ != 'm')` leaves the budget `n` at -1 when it runs out inside an escape run; the outer `while(n && ...)` then never stops on the budget, so matching reads past the line | a line of ESC and a newline (budget 2) read after a line "@@---\n", whose bytes "---\n" are still in the buffer: it is taken for a "---" file header | the budget stops the scan at zero, so only the line's own visible bytes are compared | high, not executed | Ansi.HandlerAsWrittenOverrunsLine | Ansi.HandlerForLine |
