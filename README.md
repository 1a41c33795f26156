# fudgedit: the piece-table hex editor, in Dafny

fudgedit is a browser hex editor. Its state is a **piece table**, kept by the class
`editController`:

- an immutable `original` byte array (the loaded file);
- a growable `added` byte array (the bytes of committed edits);
- an ordered list of `pieces`, each a window `{offset, length, source}` into one of the two arrays;
- at most one `inprogress` staging piece, which holds the bytes of the edit being typed;
- a `chunk` holding the first hex digit of a byte not yet complete.

The document is the concatenation of the piece buffers. The controller's operations work on that list:

- `initEdit` splits the piece at an offset around a new staging piece;
- `buildEdit` pairs two hex digits into a byte, appends it to the edit, and in overwrite mode takes one byte off the following piece;
- `commit` moves the staged bytes to the end of `added`;
- `render` reads a window of the document back, together with the document ranges that came from edits;
- the `length` getter sums the piece lengths.

On top of that sit two components:

- the `hex-editor` component drives the controller from keystrokes and mouse events, scrolls, and lays out the rendered window as lines of cells;
- the `to-bionic` component collects the text nodes of a page subtree and shows the first half of every word in bold.

The project has five modules:

- `Bytes` (`bytes.dfy`): the `byte` type, and the two-character hexadecimal notation typed by the user and drawn by the view.
- `PieceTable` (`piece_table.dfy`): the piece list as values. It defines:
  - `PieceBuffer`, which is `getPieceBuffer`;
  - `Total`, the length;
  - `Concat`, the document;
  - `Marks`, which bytes came from edits;
  - the three list rewrites `SplitAround`, `Consume` and the commit update.

  It proves what each rewrite does to the document.
- `EditControl` (`edit_controller.dfy`): the class `EditController`, with the source's fields and its methods.
  - `isInprogress` is the constructor test `Piece.Staged?`.
  - The staging piece's bytes are the content of `inProgress`.
  - The scans of `initEdit` and `render` are methods with loops over the piece sequence; `render` copies into an `array<byte>` buffer with a loop, as `set` does.
- `HexView` (`hex_editor.dfy`): the class `HexEditor`, with `edit`, `beginSelection`, `endSelection`, `scroll` and `buildHexView`, and the pure helpers for cells, lines and the scroll clamp.
- `Bionic` (`bionic.dfy`): the modelled parts of `to-bionic`:
  - the whitespace class `\s`;
  - `split(/(\s+)/g)`;
  - word halving;
  - the replacement nodes;
  - the text-node collection, over a small DOM tree datatype. A node is named by its path of child indices.

Two results follow by composing contracts:
- After construction, `Doc() == original` and `Render(0, |original|)` returns `original`.
- `Commit` leaves `Doc()` and `EditedMarks()` unchanged, so every later `Render` returns the same bytes and the same coverage.

## Model

| member | source | states |
|---|---|---|
| Bytes.HexTextOfTyped | src/components/hex-editor/editController.tsx:79-82 | two typed digits of either case parse to the byte the view then draws as the same two digits in upper case |
| Bytes.HexText | src/components/hex-editor/hex-editor.tsx:128 | a cell is two upper-case digits: the high nibble's, then the low nibble's |
| Bytes.HexTextRoundTrip | src/components/hex-editor/hex-editor.tsx:128 | parsing the two digits the view writes gives back the byte (typing and drawing agree) |
| Bytes.HexTextOfParsed | src/components/hex-editor/editController.tsx:82 | two upper-case digits are exactly what the view writes for the byte they parse to |
| PieceTable.Concat | src/components/hex-editor/editController.tsx:161-167 | the document read from the pieces is as long as the sum of their lengths |
| PieceTable.Marks | src/components/hex-editor/editController.tsx:130-131 | one edited/original flag per document byte |
| PieceTable.InitialDocument | src/components/hex-editor/editController.tsx:24-25 | the single origin piece `{0, original.length}` is well formed, reads as `original`, has length `original.length` and no edited byte |
| PieceTable.SplitAround | src/components/hex-editor/editController.tsx:45-51 | the split replaces one piece by three |
| PieceTable.CoveringSlicePoint | src/components/hex-editor/editController.tsx:35-43 | the slice point of the located piece lies between 0 and the piece's length |
| PieceTable.SplitHalves | src/components/hex-editor/editController.tsx:46-48 | the halves `{offset, sp}` and `{offset+sp, length-sp}` are valid windows, re-sum to the piece's length and concatenate to its bytes |
| PieceTable.SplitPieceReads | src/components/hex-editor/editController.tsx:45-49 | left part, empty staging piece and right part read exactly as the split piece: same bytes, same length, same marks |
| PieceTable.SplitAroundPreserves | src/components/hex-editor/editController.tsx:44-51 | after the split the staging piece is at `targetIndex + 1` and nowhere else, and the document, its length and its marks are unchanged |
| PieceTable.SplitAroundPrefix | src/components/hex-editor/editController.tsx:44-46 | the pieces before the staging piece end exactly at the edit offset |
| PieceTable.Behead | src/components/hex-editor/editController.tsx:89-93 | the shifted next piece is kept, or dropped when its length reaches 0 |
| PieceTable.BeheadReads | src/components/hex-editor/editController.tsx:88-93 | the shifted or dropped piece reads as the next piece without its first byte, with the same marks |
| PieceTable.ConsumeShape | src/components/hex-editor/editController.tsx:86-93 | consuming the next piece keeps the staging piece at its index and as the only staging piece |
| PieceTable.StagedLast | src/components/hex-editor/editController.tsx:82 | with the staging piece last, a staged byte is appended to the document as an edited byte |
| PieceTable.ConsumeOverwrites | src/components/hex-editor/editController.tsx:82-94 | overwrite with a following piece of positive length: the length is unchanged and exactly the byte after the staged bytes is replaced by the new byte, now marked edited |
| PieceTable.StagedGrows | src/components/hex-editor/editController.tsx:82 | insert mode, or a last staging piece: the document grows by exactly one byte, inserted after the staged bytes and marked edited |
| PieceTable.CommitPieceReads | src/components/hex-editor/editController.tsx:100-104 | the window `{old added.length, content.length, 'added'}` over the extended `added` reads as the staging piece did |
| PieceTable.CommitPreserves | src/components/hex-editor/editController.tsx:99-111 | commit leaves no staging piece and keeps the document, its length and its marks |
| PieceTable.TotalMonotone | src/components/hex-editor/editController.tsx:161-167 | running sums of piece lengths never decrease along a well-formed list |
| PieceTable.SpansAreEditedSpans | src/components/hex-editor/editController.tsx:139-141 | every range the scan reports is the absolute document span of an `added` or staging piece |
| PieceTable.SpansCover | src/components/hex-editor/editController.tsx:136-141 | a position is covered by the spans of the scanned pieces exactly when it lies in them and its byte came from an edit |
| EditControl.LocatePiece | src/components/hex-editor/editController.tsx:35-43 | the scan stops at the first piece whose running end reaches the offset; the slice point is the offset into that piece, inside it |
| EditControl.CopyInto | src/components/hex-editor/editController.tsx:135 | `set` writes the source at the given index and leaves every other byte |
| EditControl.EditController.constructor | src/components/hex-editor/editController.tsx:21-26 | one origin piece covering the file, empty `added`, no edit, empty chunk; the document is the file, with no edited byte |
| EditControl.EditController.InitEdit | src/components/hex-editor/editController.tsx:28-76 | the covering piece is split at the slice point around the staging piece, which is recorded at `targetIndex + 1`; the result is the same for both edit kinds; document and marks are unchanged |
| EditControl.SplitSession | src/components/hex-editor/editController.tsx:44-51 | the split opens a consistent session whose staging piece starts at the edit offset |
| EditControl.EditController.IndexOfStaged | src/components/hex-editor/editController.tsx:86 | `indexOf(inProgress)` finds the staging piece's recorded index |
| EditControl.EditController.BuildEdit | src/components/hex-editor/editController.tsx:78-97 | a non-hex key changes nothing; a first digit is only buffered; a second appends the byte `16*hi+lo`, clears the chunk, advances the cursor and consumes the next piece in overwrite mode; `added` never changes; without a zero-length next piece the document gains the byte, overwritten in place or inserted |
| EditControl.EditController.PushByte | src/components/hex-editor/editController.tsx:82-94 | the byte joins the edit's content; in overwrite mode with a following piece, that piece loses its first byte and is dropped at length 0; no other piece changes |
| EditControl.ConsumeInPlace | src/components/hex-editor/editController.tsx:88-93 | the in-place field updates and the splice build exactly `Consume` |
| EditControl.TypeByte | src/components/hex-editor/editController.tsx:82-94 | unless the next piece has length 0, the session stays consistent and the byte is overwritten or inserted at the edit position |
| EditControl.OverwriteByte | src/components/hex-editor/editController.tsx:86-94 | overwrite with a following piece: consistent session, byte replaced at the edit position |
| EditControl.InsertByte | src/components/hex-editor/editController.tsx:82-87 | insert, or a last staging piece: consistent session, byte inserted at the edit position |
| EditControl.StagedEnd | src/components/hex-editor/editController.tsx:82 | the edit position after the staged bytes is the end of the staging piece |
| EditControl.EditController.Commit | src/components/hex-editor/editController.tsx:99-111 | `added` becomes old `added` followed by the content; the staging slot becomes `{old added.length, content.length, 'added'}`; no edit is open and the chunk is empty; document and marks are unchanged |
| EditControl.EditController.Length | src/components/hex-editor/editController.tsx:161-167 | the loop's sum is the sum of the piece lengths, which is the document's length |
| EditControl.EditController.Render | src/components/hex-editor/editController.tsx:113-159 | without side effects: returns `min(length, docLength - start)` bytes, exactly the document from `start`. Inside that window, a position is in a reported range exactly when its byte came from an edit. Every reported range is the absolute span of an edited piece, or lies at or after the window's end |
| EditControl.RenderPieces | src/components/hex-editor/editController.tsx:113-159 | render on the field values, with the same result as `Render` |
| EditControl.RenderFirst | src/components/hex-editor/editController.tsx:117-135 | the first chunk is the document from `start` in the located piece; the scan starts after it, having reported that piece's span when it is an edit |
| EditControl.ScanPieces | src/components/hex-editor/editController.tsx:136-147 | the loop keeps the buffer prefix equal to the document from `start` and the reported ranges equal to the spans of the scanned edited pieces |
| EditControl.ScanStep | src/components/hex-editor/editController.tsx:137-146 | one iteration keeps that scan invariant |
| EditControl.CopyPiece | src/components/hex-editor/editController.tsx:142-146 | the bytes of the piece that still fit are the document's next bytes |
| EditControl.ScanSource | src/components/hex-editor/editController.tsx:143-146 | the copied prefix of a piece's buffer is the document at the piece's position |
| EditControl.ScanAdvance | src/components/hex-editor/editController.tsx:137-145 | the scan state after one piece, including the range a piece past a full window adds at or after the window end |
| EditControl.RenderEnd | src/components/hex-editor/editController.tsx:149-158 | the result length `min(tracker, length)` is `min(length, docLength - start)`; coverage inside the window is exact |
| HexView.Glyph | src/components/hex-editor/hex-editor.tsx:123-125 | a byte shows as itself (always for a word character) or as a bullet |
| HexView.CellText | src/components/hex-editor/hex-editor.tsx:127-128 | two characters: `"." + ascii` exactly for a word byte when characters are shown inline, otherwise the byte's two upper-case digits |
| HexView.CellTextInjective | src/components/hex-editor/hex-editor.tsx:127-128 | two bytes with the same cell text are the same byte |
| HexView.InAddedRanges | src/components/hex-editor/hex-editor.tsx:138-143 | the early-exit scan finds a range holding `p` exactly when some `[s, e)` has `s <= p < e` |
| HexView.Line | src/components/hex-editor/hex-editor.tsx:105 | a line holds at most `bytesPerLine` bytes |
| HexView.LineLength | src/components/hex-editor/hex-editor.tsx:105-118 | a line is empty exactly when the window ends at its start; otherwise it is full except the last |
| HexView.LineAt | src/components/hex-editor/hex-editor.tsx:105 | byte `j` of line `i` is window byte `i * bytesPerLine + j` |
| HexView.LineCount | src/components/hex-editor/hex-editor.tsx:118 | the view draws line `i` exactly when `i * bytesPerLine` is inside the window |
| HexView.ChunkLines | src/components/hex-editor/hex-editor.tsx:103-106 | the chunking loop builds the `maxLines` lines `[i*bytesPerLine, (i+1)*bytesPerLine)` of the window |
| HexView.LinesJoin | src/components/hex-editor/hex-editor.tsx:103-106 | the first `n` lines concatenate to the window's first `min(n*bytesPerLine, size)` bytes |
| HexView.DrawnLinesAreWindow | src/components/hex-editor/hex-editor.tsx:103-118 | the drawn lines fit in `maxLines` and together are the whole window |
| HexView.LinesAt | src/components/hex-editor/hex-editor.tsx:110 | line `i` of the chunked list is line `i` of the window |
| HexView.DrawLine | src/components/hex-editor/hex-editor.tsx:121-147 | each cell of a line shows its byte, marked `added` exactly when its absolute position is in a reported range |
| HexView.LineShowsDocument | src/components/hex-editor/hex-editor.tsx:112-143 | a line drawn from the rendered window shows the document's bytes, with `added` exactly on the edited ones |
| HexView.DrawRows | src/components/hex-editor/hex-editor.tsx:110-157 | drawing stops at the first empty line; each drawn row shows its document bytes and edit marks |
| HexView.PadRows | src/components/hex-editor/hex-editor.tsx:160-163 | padding keeps the drawn rows and fills up to exactly `maxLines` rows with placeholders |
| HexView.ViewRows | src/components/hex-editor/hex-editor.tsx:157-163 | drawn rows followed by placeholders form the whole view |
| HexView.HexEditor.BuildHexView | src/components/hex-editor/hex-editor.tsx:95-163 | exactly `maxLines` hex rows and `maxLines` character rows. The first rows show the window line by line: each cell shows its document byte and is marked `added` exactly when that byte came from an edit. Placeholders fill the rest |
| HexView.ScaledVelocity | src/components/hex-editor/hex-editor.tsx:299 | the step is never zero: a zero velocity becomes -1 and any other velocity is kept |
| HexView.LastLine | src/components/hex-editor/hex-editor.tsx:302 | `floor(length / bytesPerLine) - 1` is at least -1, its line starts a full line before the end, and it is at least 0 for a document of at least one line |
| HexView.ScrollAsWritten | src/components/hex-editor/hex-editor.tsx:301-303 | the handler's clamp as written: at least 0 unless the cap is -1, and at most the cap unless the result is 0 |
| HexView.ScrollAsWrittenLeavesDocument | src/components/hex-editor/hex-editor.tsx:302 | on a ten-byte document with 16 bytes per line, scrolling down from line 0 gives line -1 |
| HexView.ScrollClamped | src/components/hex-editor/hex-editor.tsx:301-303 | the intended clamp: never above line 0, never starting past the document, at most the cap when there is a full line, the plain step when it is in range, 0 below the top |
| HexView.ScrollClampedAgrees | src/components/hex-editor/hex-editor.tsx:301-303 | on a document of at least one line the two clamps agree |
| HexView.HexEditor.constructor | src/components/hex-editor/hex-editor.tsx:36-48 | the component over a loaded controller starts at line 0, with no selection and no edit |
| HexView.HexEditor.Edit | src/components/hex-editor/hex-editor.tsx:208-212 | a session is opened, in overwrite mode at the cursor, only when none is open; an open session keeps its offset and index; the key always goes to `buildEdit`, which advances the cursor on a completed byte; the document length is kept, or grows by one when the staging piece is last |
| HexView.HexEditor.BeginSelection | src/components/hex-editor/hex-editor.tsx:258-263 | the press position is remembered |
| HexView.HexEditor.EndSelection | src/components/hex-editor/hex-editor.tsx:265-287 | the selection is the press and release positions in order (`start <= end`, the same two positions); the cursor goes to the release position; any open edit is committed, so none is open and the document is unchanged |
| HexView.HexEditor.Scroll | src/components/hex-editor/hex-editor.tsx:297-304 | the new first line is the intended clamp of the old one, so the view keeps starting inside the document |
| Bionic.LeadingWordIsWord | src/components/bionic-transform/bionic-text.tsx:36 | the leading word holds no whitespace and ends at whitespace or at the end; it is empty exactly when the text is empty or starts with whitespace |
| Bionic.LeadingSpaceIsSpace | src/components/bionic-transform/bionic-text.tsx:36 | the leading whitespace run is all whitespace and maximal |
| Bionic.Split | src/components/bionic-transform/bionic-text.tsx:36 | the tokens of the split with a capture group are odd in number |
| Bionic.SplitJoin | src/components/bionic-transform/bionic-text.tsx:36 | the tokens concatenate back to the text |
| Bionic.SplitAlternates | src/components/bionic-transform/bionic-text.tsx:36 | words at even positions hold no whitespace; separators at odd positions are non-empty whitespace; only the first and last word may be empty |
| Bionic.SplitStartsWithWord | src/components/bionic-transform/bionic-text.tsx:36-38 | on a split, `whitespaceIdx` is always 1 |
| Bionic.Halve | src/components/bionic-transform/bionic-text.tsx:46-47 | the bold part has `ceil(n/2)` characters, bold followed by the rest is the word, and the rest is as long as the bold part or one shorter |
| Bionic.TokenSpansText | src/components/bionic-transform/bionic-text.tsx:41-60 | the nodes of one token show that token's text |
| Bionic.FormatTexts | src/components/bionic-transform/bionic-text.tsx:40-61 | the replacement nodes show the tokens' text in order |
| Bionic.TokenSpansShaped | src/components/bionic-transform/bionic-text.tsx:41-60 | a separator stays one plain node; a word is one bold span, then a normal span only when its second half is non-empty |
| Bionic.FormatShaped | src/components/bionic-transform/bionic-text.tsx:40-61 | on alternating tokens the replacement has plain nodes of whitespace only, bold and normal spans without whitespace, and every normal span directly after its word's bold span, as long or one shorter |
| Bionic.FormatText | src/components/bionic-transform/bionic-text.tsx:35-61 | one text node's loop builds the replacement of its split. The replacement shows exactly the node's text and is well shaped |
| Bionic.FormatSplit | src/components/bionic-transform/bionic-text.tsx:36-62 | the replacement of a whole text reproduces the text and is well shaped |
| Bionic.CollectedExactly | src/components/bionic-transform/bionic-text.tsx:7-17 | a node path is collected exactly when it leads to a text node through elements that are neither `SCRIPT` nor `no-bionic`, and the text holds a non-whitespace character unless whitespace nodes are wanted |
| Bionic.CollectedChildrenExactly | src/components/bionic-transform/bionic-text.tsx:13-15 | the same, for the children visited so far |
| Bionic.CollectedWithoutWhitespace | src/components/bionic-transform/bionic-text.tsx:9 | whitespace-only text nodes are collected only when asked for; nothing else differs |
| Bionic.CollectedInOrder | src/components/bionic-transform/bionic-text.tsx:13-15 | the collected nodes are in depth-first document order |
| Bionic.GetTextNodes | src/components/bionic-transform/bionic-text.tsx:7-17 | the recursive walk appends, to the shared list, exactly the collection below the node, visiting children by ascending index |
| Bionic.GetTextNodesIn | src/components/bionic-transform/bionic-text.tsx:4-21 | the result is exactly the collectable text nodes, in document order |
| Bionic.FormatContent | src/components/bionic-transform/bionic-text.tsx:31-64 | every non-whitespace text node of the component, in document order, with the replacement that shows its text and is well shaped |

## Left out

- File loading (`FileReader`), `console.log`, and all JSX, SVG and pixel output: the region polygons, the `MEASURE` element and the line labels. The loaded file is the constructor's `original` parameter.
- The cell classes `cursor`, `selected` and `padByte`, and the row class `selected`. They are layout only; the model keeps the `added` class.
- The DOM event paths of `beginSelection` and `endSelection`. The byte positions are parameters.
- The float part of `scroll`, `Math.ceil(evt.deltaY / 2)`. The velocity is an integer parameter.
- `rollback` and `save` are empty in this revision; undo, redo and search do not exist.
- `EditControl.EditController.InitEdit` requires `0 <= offset <= length`. Beyond the end, the scan never breaks and the source reads an undefined target piece. A negative offset breaks at the first piece with a negative slice point, so the left part gets a negative length and the right part is longer than the piece. The editor reaches a negative offset through a click after the scroll fault below has set `lineNumber` to -1. It reaches an offset past the end even under the corrected scroll: the view fills its unused rows with `-` placeholders (hex-editor.tsx:159-163), and a mouse-up on the placeholder of row r sets the cursor to `(lineNumber + r) * bytesPerLine` (hex-editor.tsx:266-269, 284). With a 10-byte file, 16 bytes per line and `lineNumber` 0, a click on row 1 sets the cursor to 16; the next key calls `initEdit(16, "overwrite")`, which assigns `inProgress` before its scan, finds no piece and throws on `target.offset`, leaving a session with an undefined index open for the following keys.
- `EditControl.EditController.InitEdit` requires that no edit is open. The only caller, `edit`, guarantees it; a second call would leave the old staging piece behind.
- `EditControl.EditController.Render` requires `0 <= start <= length` and `0 <= length` of the window. The source does not crash outside this range, but it returns nothing meaningful. With `start` past the end, the scan never breaks, so `startIndex` stays 0 and `startPlace` is undefined. The first chunk is then empty, the result holds the bytes of the pieces after the first, and an edited first piece reports a `NaN` range. A negative `start` makes `subarray` count from the end of the first piece's buffer. A negative window length throws a `RangeError` at `new Uint8Array(length)`. `buildHexView` always passes `start = lineNumber * bytesPerLine` with `0 <= start <= length`, because the corrected `Scroll` keeps `HexEditor.Valid()`. Under the scroll as written, `start` can be -16.
- `EditControl.EditController.BuildEdit` requires an open edit. Without one, the source ignores a non-hex key and still buffers a first digit; only the digit that completes a byte dereferences `inProgress`, which is `undefined` before the first `initEdit` and `null` after a `commit`. The only caller, `edit`, always opens an edit first.
- `EditControl.EditController.Commit` requires an open edit: the source reads `inProgress.content` first. Its only caller, `endSelection`, commits only when an edit is open.
- `EditControl.EditController.BuildEdit` states consistency and the document change only when the piece after the staging piece has positive length. An edit at a piece boundary splits off a zero-length right piece, and overwrite drives that piece to length -1 without removing it. The piece list the source then builds is stated exactly (`Consume`); what it reads as is not.
- `HexView.HexEditor.Edit` states the document's new length and the session's position, not its new content. The content is stated by `BuildEdit`.
- `HexView.HexEditor.Edit` states `Valid()` afterwards only without the zero-length hazard above.
- `HexView.HexEditor.Edit` requires the cursor to lie inside the document when no edit is open. The source does not guarantee this: a click on a placeholder row puts the cursor past the end, as described for `InitEdit` above, and the model does not follow the failed `initEdit` that results.
- `HexView.HexEditor` starts with the cursor at 0. In the source it is undefined until the first click, and a keystroke before one opens an edit at `undefined`.
- `HexView.HexEditor.EndSelection` requires a preceding mouse-down (`tempSelection` set). The source compares against `null` otherwise.
- Comment nodes and other DOM node kinds besides text and elements. The source calls `hasAttribute` on every node that is not text, so content holding an HTML comment makes `getTextNodes` throw a `TypeError`. The tree datatype has no such node. `createElement`, `setAttribute`, `innerText` and `replaceWith` are DOM mutation: the model returns each text node's replacement as a sequence of tagged strings, and names text nodes by their path from the root.
- JavaScript strings are UTF-16 code units. The model's strings are sequences of characters, so a word containing a surrogate pair is halved by characters, not code units.
- `src/components/tooltip/tooltip.tsx`, `src/components/hex-editor/interfaces.ts` and `src/components/hex-editor/hex-editor.e2e.ts` are not part of this model (a UI render function, type declarations and a browser test).

## Findings

| source | as written | input that shows it | evidently intended | confidence | as-written member | corrected member |
|---|---|---|---|---|---|---|
| src/components/hex-editor/hex-editor.tsx:301-303 | the upper clamp `Math.floor(length / bytesPerLine) - 1` is -1 on a document shorter than one line, so scrolling down sets `lineNumber` to -1 and the next view renders from a negative start | `lineNumber` 0, velocity 1, length 10, `bytesPerLine` 16 gives -1 | the first line stays at 0 or more and inside the document | not executed | HexView.ScrollAsWritten, HexView.ScrollAsWrittenLeavesDocument | HexView.ScrollClamped, HexView.HexEditor.Scroll |
