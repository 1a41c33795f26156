/** The hex editor component around the edit controller: keystrokes open and
    feed an overwrite session, mouse-up orders the selection and commits, the
    wheel moves the first shown line, and the rendered window is laid out as
    lines of cells. */
module HexView {
  import opened Bytes
  import opened PieceTable
  import opened EditControl

  // ---------------------------------------------------------------------------
  // cells

  /** `/\w/` on `String.fromCharCode(val)`: a letter, a digit or `_`. */
  predicate IsWordByte(v: byte) {
    var c := v as int;
    ('0' as int <= c <= '9' as int) || ('A' as int <= c <= 'Z' as int) || ('a' as int <= c <= 'z' as int) || c == '_' as int
  }

  /** The characters besides `\w` the view prints as themselves. */
  const Punctuation: string := "!@#$%^&*()_+=]\\:;\"'>.<,/?"

  /** The character a byte shows as in the character column: itself when it
      is a word character or one of `Punctuation`, otherwise a bullet. */
  function Glyph(v: byte): (c: char)
    ensures c == '•' || c as int == v as int
    ensures IsWordByte(v) ==> c as int == v as int
  {
    if IsWordByte(v) || (v as int as char) in Punctuation then v as int as char else '•'
  }

  /** The text of a cell of the hex column: `"." + ascii` for a word
      character when characters are shown inline, otherwise two upper-case
      digits. Either way the cell names its byte. */
  function CellText(asciiInline: bool, v: byte): (s: string)
    ensures |s| == 2
    ensures s[0] == '.' <==> asciiInline && IsWordByte(v)
    ensures s[0] == '.' ==> s[1] as int == v as int
    ensures s[0] != '.' ==> IsUpperHexDigit(s[0]) && IsUpperHexDigit(s[1]) && ParseHexPair(s[0], s[1]) == v
  {
    if asciiInline && IsWordByte(v) then ['.', v as int as char]
    else HexTextRoundTrip(v); HexText(v)
  }

  /** Two bytes with the same cell text are the same byte. */
  lemma CellTextInjective(asciiInline: bool, v: byte, w: byte)
    requires CellText(asciiInline, v) == CellText(asciiInline, w)
    ensures v == w
  {
    var s := CellText(asciiInline, v);
    if s[0] == '.' {
      assert s[1] as int == v as int == w as int;
    } else {
      assert ParseHexPair(s[0], s[1]) == v && ParseHexPair(s[0], s[1]) == w;
    }
  }

  /** The `for ... of addedRanges` test: whether some reported range
      `[s, e)` holds the absolute position `p` (scanned in order, stopping
      at the first hit). */
  function InAddedRanges(ranges: seq<(int, int)>, p: int): (b: bool)
    ensures b <==> Covered(ranges, p)
    decreases |ranges|
  {
    if ranges == [] then false
    else if ranges[0].0 <= p < ranges[0].1 then true
    else
      var rest := InAddedRanges(ranges[1..], p);
      assert Covered(ranges[1..], p) ==> Covered(ranges, p) by {
        if Covered(ranges[1..], p) {
          var k :| 0 <= k < |ranges[1..]| && ranges[1..][k].0 <= p < ranges[1..][k].1;
          assert ranges[k + 1] == ranges[1..][k];
        }
      }
      assert Covered(ranges, p) ==> Covered(ranges[1..], p) by {
        if Covered(ranges, p) {
          var k :| 0 <= k < |ranges| && ranges[k].0 <= p < ranges[k].1;
          assert k > 0 && ranges[1..][k - 1] == ranges[k];
        }
      }
      rest
  }

  // ---------------------------------------------------------------------------
  // lines

  /** `chunk.subarray(i * bytesPerLine, (i + 1) * bytesPerLine)`: line `i` of
      the window, empty once the window has run out. */
  function Line(chunk: seq<byte>, bytesPerLine: int, i: int): (line: seq<byte>)
    requires bytesPerLine > 0 && 0 <= i
    ensures |line| <= bytesPerLine
  {
    chunk[Min(i * bytesPerLine, |chunk|) .. Min(i * bytesPerLine + bytesPerLine, |chunk|)]
  }

  /** A line is empty exactly when the window ends at or before its start,
      and is otherwise full but for the window's last line. */
  lemma LineLength(chunk: seq<byte>, bytesPerLine: int, i: int)
    requires bytesPerLine > 0 && 0 <= i
    ensures Line(chunk, bytesPerLine, i) == [] <==> |chunk| <= i * bytesPerLine
    ensures |chunk| > i * bytesPerLine ==> |Line(chunk, bytesPerLine, i)| == Min(bytesPerLine, |chunk| - i * bytesPerLine)
  {
  }

  /** Byte `j` of line `i` is byte `i * bytesPerLine + j` of the window. */
  lemma LineAt(chunk: seq<byte>, bytesPerLine: int, i: int, j: int)
    requires bytesPerLine > 0 && 0 <= i && 0 <= j < |Line(chunk, bytesPerLine, i)|
    ensures i * bytesPerLine + j < |chunk| && Line(chunk, bytesPerLine, i)[j] == chunk[i * bytesPerLine + j]
  {
  }

  /** The number of lines `n` bytes fill: `n / bytesPerLine` rounded up. */
  function LineCount(n: nat, bytesPerLine: int): (c: nat)
    requires bytesPerLine > 0
    ensures forall i: nat {:trigger i * bytesPerLine} :: i < c <==> i * bytesPerLine < n
  {
    LineCountBound(n, bytesPerLine);
    (n + bytesPerLine - 1) / bytesPerLine
  }

  lemma LineCountBound(n: nat, b: int)
    requires b > 0
    ensures forall i: nat {:trigger i * b} :: i < (n + b - 1) / b <==> i * b < n
  {
    var q, r := (n + b - 1) / b, (n + b - 1) % b;
    assert n + b - 1 == q * b + r && 0 <= r < b;
    forall i: nat ensures i < q <==> i * b < n {
      if i < q {
        MulMono(i + 1, q, b);
        assert (i + 1) * b == i * b + b;
      } else {
        MulMono(q, i, b);
      }
    }
  }

  lemma MulMono(a: int, c: int, b: int)
    requires a <= c && b > 0
    ensures a * b <= c * b
  {
    assert c * b - a * b == (c - a) * b;
  }

  /** The first `n` lines of the window, as the first loop of `buildHexView`
      pushes them. */
  function Lines(chunk: seq<byte>, bytesPerLine: int, n: nat): (lines: seq<seq<byte>>)
    requires bytesPerLine > 0
    ensures |lines| == n
  {
    if n == 0 then [] else Lines(chunk, bytesPerLine, n - 1) + [Line(chunk, bytesPerLine, n - 1)]
  }

  /** The lines in order, concatenated. */
  function Join(lines: seq<seq<byte>>): seq<byte> {
    if lines == [] then [] else Join(lines[..|lines| - 1]) + lines[|lines| - 1]
  }

  /** The first `n` lines read back as the first `n * bytesPerLine` bytes of
      the window (all of it once `n` lines hold it). */
  lemma {:induction false} LinesJoin(chunk: seq<byte>, bytesPerLine: int, n: nat)
    requires bytesPerLine > 0
    ensures Join(Lines(chunk, bytesPerLine, n)) == chunk[..Min(n * bytesPerLine, |chunk|)]
  {
    if n > 0 {
      var ls := Lines(chunk, bytesPerLine, n);
      var lo := (n - 1) * bytesPerLine;
      NextLineStart(n, bytesPerLine);
      assert ls[..n - 1] == Lines(chunk, bytesPerLine, n - 1);
      LinesJoin(chunk, bytesPerLine, n - 1);
      JoinStep(chunk, Join(ls[..n - 1]), ls[n - 1], lo, bytesPerLine);
    }
  }

  /** Line `n - 1` starts `bytesPerLine` bytes before line `n`. */
  lemma NextLineStart(n: nat, bytesPerLine: int)
    requires n > 0 && bytesPerLine > 0
    ensures 0 <= (n - 1) * bytesPerLine && n * bytesPerLine == (n - 1) * bytesPerLine + bytesPerLine
  {
    MulMono(0, n - 1, bytesPerLine);
  }

  /** One more line joined to the lines before it. */
  lemma JoinStep(chunk: seq<byte>, front: seq<byte>, line: seq<byte>, lo: int, w: int)
    requires 0 <= lo && w > 0
    requires front == chunk[..Min(lo, |chunk|)]
    requires line == chunk[Min(lo, |chunk|) .. Min(lo + w, |chunk|)]
    ensures front + line == chunk[..Min(lo + w, |chunk|)]
  {
    var a, b := Min(lo, |chunk|), Min(lo + w, |chunk|);
    SliceJoin(chunk, 0, a, b);
    assert chunk[..a] == chunk[0..a] && chunk[..b] == chunk[0..b];
  }

  /** The window is drawn entirely: its lines up to the first empty one,
      when the window holds at most `maxLines` lines, are the whole window. */
  lemma DrawnLinesAreWindow(chunk: seq<byte>, bytesPerLine: int, maxLines: nat)
    requires bytesPerLine > 0 && |chunk| <= maxLines * bytesPerLine
    ensures LineCount(|chunk|, bytesPerLine) <= maxLines
    ensures Join(Lines(chunk, bytesPerLine, LineCount(|chunk|, bytesPerLine))) == chunk
  {
    var c := LineCount(|chunk|, bytesPerLine);
    assert !(maxLines < c);
    LinesJoin(chunk, bytesPerLine, c);
    assert !(c < c);
    assert Min(c * bytesPerLine, |chunk|) == |chunk|;
  }

  /** Line `i` of the first `n` is `Line(chunk, bytesPerLine, i)`. */
  lemma {:induction false} LinesAt(chunk: seq<byte>, bytesPerLine: int, n: nat, i: int)
    requires bytesPerLine > 0 && 0 <= i < n
    ensures Lines(chunk, bytesPerLine, n)[i] == Line(chunk, bytesPerLine, i)
  {
    if i < n - 1 {
      LinesAt(chunk, bytesPerLine, n - 1, i);
    }
  }

  /** The first loop of `buildHexView`: cut the window into `maxLines` lines. */
  method ChunkLines(chunk: seq<byte>, bytesPerLine: int, maxLines: nat) returns (lines: seq<seq<byte>>)
    requires bytesPerLine > 0
    ensures lines == Lines(chunk, bytesPerLine, maxLines)
  {
    lines := [];
    var i := 0;
    while i < maxLines
      invariant 0 <= i <= maxLines && lines == Lines(chunk, bytesPerLine, i)
    {
      var line := chunk[Min(i * bytesPerLine, |chunk|) .. Min(i * bytesPerLine + bytesPerLine, |chunk|)];
      lines := lines + [line];
      i := i + 1;
    }
  }

  // ---------------------------------------------------------------------------
  // scroll

  /** `if (scaledVelocity === -0) scaledVelocity -= 1`: a zero step scrolls
      one line up. */
  function ScaledVelocity(velocity: int): (v: int)
    ensures v != 0
    ensures velocity == 0 ==> v == -1
    ensures velocity != 0 ==> v == velocity
  {
    if velocity == 0 then velocity - 1 else velocity
  }

  /** `Math.floor(length / bytesPerLine) - 1`: the line the view may start
      at, at the latest. */
  function LastLine(length: nat, bytesPerLine: int): (last: int)
    requires bytesPerLine > 0
    ensures last >= -1
    ensures last * bytesPerLine <= length - bytesPerLine
    ensures length >= bytesPerLine ==> last >= 0
  {
    var q := length / bytesPerLine;
    assert q * bytesPerLine <= length;
    assert length >= bytesPerLine ==> q >= 1;
    q - 1
  }

  /** The scroll handler as written: clamp below at line 0, above at
      `LastLine`. When the document is shorter than one line, `LastLine` is
      -1 and the clamp above sets the line to -1. */
  function ScrollAsWritten(lineNumber: int, velocity: int, length: nat, bytesPerLine: int): (r: int)
    requires bytesPerLine > 0
    ensures r >= 0 || r == LastLine(length, bytesPerLine) == -1
    ensures r <= LastLine(length, bytesPerLine) || r == 0
  {
    var v := ScaledVelocity(velocity);
    if lineNumber + v < 0 then 0
    else if lineNumber + v > LastLine(length, bytesPerLine) then LastLine(length, bytesPerLine)
    else lineNumber + v
  }

  /** On a document shorter than one line, scrolling down from the top
      leaves the view at line -1, so the next view renders from byte -16. */
  lemma ScrollAsWrittenLeavesDocument()
    ensures ScrollAsWritten(0, 1, 10, 16) == -1
  {
  }

  /** The clamp the handler evidently intends: never above line 0, never
      past `LastLine` when there is a line to stop at. */
  function ScrollClamped(lineNumber: int, velocity: int, length: nat, bytesPerLine: int): (r: int)
    requires bytesPerLine > 0
    ensures 0 <= r && r * bytesPerLine <= length
    ensures length >= bytesPerLine ==> r <= LastLine(length, bytesPerLine)
    ensures 0 <= lineNumber + ScaledVelocity(velocity) <= LastLine(length, bytesPerLine) ==> r == lineNumber + ScaledVelocity(velocity)
    ensures lineNumber + ScaledVelocity(velocity) < 0 ==> r == 0
  {
    var v, last := ScaledVelocity(velocity), LastLine(length, bytesPerLine);
    if lineNumber + v < 0 then 0
    else if lineNumber + v > last then (if last < 0 then 0 else last)
    else lineNumber + v
  }

  /** The two clamps differ only when the document is shorter than one line. */
  lemma ScrollClampedAgrees(lineNumber: int, velocity: int, length: nat, bytesPerLine: int)
    requires bytesPerLine > 0 && length >= bytesPerLine
    ensures ScrollClamped(lineNumber, velocity, length, bytesPerLine) == ScrollAsWritten(lineNumber, velocity, length, bytesPerLine)
  {
  }

  // ---------------------------------------------------------------------------
  // the component

  /** `{start, end}`: the selected byte positions, both ends included. */
  datatype Selection = Selection(start: int, end: int)

  /** One cell of the view: its text and whether it has the class `added`. */
  datatype Cell = Cell(text: string, added: bool)

  /** A row of the view: the cells of one line, or the `-` placeholder. */
  datatype Row = Drawn(cells: seq<Cell>) | Placeholder

  /** The cell a byte gets in the hex column (`hex`) or in the character column. */
  function CellOf(hex: bool, asciiInline: bool, v: byte, added: bool): (c: Cell)
    ensures c.added == added
    ensures hex ==> c.text == CellText(asciiInline, v)
    ensures !hex ==> c.text == [Glyph(v)]
  {
    Cell(if hex then CellText(asciiInline, v) else [Glyph(v)], added)
  }

  /** `row` draws the `n` document bytes from position `base` on, each with
      the class `added` exactly when `marks` says the byte comes from an edit. */
  ghost predicate Shows(row: Row, doc: seq<byte>, marks: seq<bool>, base: int, n: int, asciiInline: bool, hex: bool) {
    var drawn := && row.Drawn? && |row.cells| == n && 0 <= base && base + n <= |doc| && |marks| == |doc|
                 && forall j :: 0 <= j < n ==> row.cells[j] == CellOf(hex, asciiInline, doc[base + j], marks[base + j]);
    drawn
  }

  /** The inner loop of `buildHexView`: the hex and character cells of one
      line whose first byte sits at position `base`. */
  method DrawLine(line: seq<byte>, base: int, ranges: seq<(int, int)>, asciiInline: bool)
    returns (hexCells: seq<Cell>, charCells: seq<Cell>)
    ensures |hexCells| == |line| && |charCells| == |line|
    ensures forall j :: 0 <= j < |line| ==>
              && hexCells[j] == CellOf(true, asciiInline, line[j], Covered(ranges, base + j))
              && charCells[j] == CellOf(false, asciiInline, line[j], Covered(ranges, base + j))
  {
    hexCells, charCells := [], [];
    var position := 0;
    while position < |line|
      invariant 0 <= position <= |line| && |hexCells| == position && |charCells| == position
      invariant forall j :: 0 <= j < position ==>
                  && hexCells[j] == CellOf(true, asciiInline, line[j], Covered(ranges, base + j))
                  && charCells[j] == CellOf(false, asciiInline, line[j], Covered(ranges, base + j))
    {
      var val := line[position];
      var added := InAddedRanges(ranges, base + position);
      hexCells := hexCells + [Cell(CellText(asciiInline, val), added)];
      charCells := charCells + [Cell([Glyph(val)], added)];
      position := position + 1;
    }
  }

  /** Cells drawn for document bytes show those bytes: a line that is the
      document from `base` on, inside a window of `n` bytes from `start` in
      which render's ranges mark exactly the edited positions, is drawn as
      those bytes with those marks. */
  lemma LineShowsDocument(doc: seq<byte>, marks: seq<bool>, ranges: seq<(int, int)>, start: int, n: int,
                          line: seq<byte>, base: int, asciiInline: bool, hexCells: seq<Cell>, charCells: seq<Cell>)
    requires 0 <= base && base + |line| <= |doc| && |marks| == |doc|
    requires line == doc[base .. base + |line|]
    requires 0 <= start <= base && base + |line| <= start + n <= |doc|
    requires forall p :: start <= p < start + n ==> (Covered(ranges, p) <==> marks[p])
    requires |hexCells| == |line| && |charCells| == |line|
    requires forall j :: 0 <= j < |line| ==>
               && hexCells[j] == CellOf(true, asciiInline, line[j], Covered(ranges, base + j))
               && charCells[j] == CellOf(false, asciiInline, line[j], Covered(ranges, base + j))
    ensures Shows(Drawn(hexCells), doc, marks, base, |line|, asciiInline, true)
    ensures Shows(Drawn(charCells), doc, marks, base, |line|, asciiInline, false)
  {
    forall j | 0 <= j < |line|
      ensures line[j] == doc[base + j] && (Covered(ranges, base + j) <==> marks[base + j])
    {
    }
  }

  /** Line `i` of a window read from position `start` is the document from
      `start + i * bytesPerLine` on. */
  lemma LineOfDocument(doc: seq<byte>, chunk: seq<byte>, start: int, bytesPerLine: int, i: int)
    requires bytesPerLine > 0 && 0 <= i && 0 <= start && start + |chunk| <= |doc|
    requires chunk == doc[start .. start + |chunk|]
    requires i * bytesPerLine < |chunk|
    ensures var line, base := Line(chunk, bytesPerLine, i), start + i * bytesPerLine;
            && |line| == Min(bytesPerLine, |chunk| - i * bytesPerLine)
            && base + |line| <= start + |chunk|
            && line == doc[base .. base + |line|]
  {
    var lo := i * bytesPerLine;
    var line := Line(chunk, bytesPerLine, i);
    assert line == chunk[lo .. lo + |line|];
    SliceOfSlice(doc, start, start + |chunk|, lo, lo + |line|);
  }

  /** The first `|hexRows|` lines of a window of `n` bytes read from
      position `start` are drawn: row `i` shows the line's bytes in both columns. */
  ghost predicate RowsShow(hexRows: seq<Row>, charRows: seq<Row>, doc: seq<byte>, marks: seq<bool>,
                           start: int, n: int, bytesPerLine: int, asciiInline: bool) {
    var drawn := && |charRows| == |hexRows|
                 && forall i :: 0 <= i < |hexRows| ==>
                      var base, m := start + i * bytesPerLine, Min(bytesPerLine, n - i * bytesPerLine);
                      && Shows(hexRows[i], doc, marks, base, m, asciiInline, true)
                      && Shows(charRows[i], doc, marks, base, m, asciiInline, false);
    drawn
  }

  lemma RowsShowSnoc(hexRows: seq<Row>, charRows: seq<Row>, doc: seq<byte>, marks: seq<bool>,
                     start: int, n: int, bytesPerLine: int, asciiInline: bool, h: Row, c: Row)
    requires RowsShow(hexRows, charRows, doc, marks, start, n, bytesPerLine, asciiInline)
    requires var base, m := start + |hexRows| * bytesPerLine, Min(bytesPerLine, n - |hexRows| * bytesPerLine);
             && Shows(h, doc, marks, base, m, asciiInline, true)
             && Shows(c, doc, marks, base, m, asciiInline, false)
    ensures RowsShow(hexRows + [h], charRows + [c], doc, marks, start, n, bytesPerLine, asciiInline)
  {
    var hs, cs := hexRows + [h], charRows + [c];
    forall i | 0 <= i < |hs|
      ensures var base, m := start + i * bytesPerLine, Min(bytesPerLine, n - i * bytesPerLine);
              && Shows(hs[i], doc, marks, base, m, asciiInline, true)
              && Shows(cs[i], doc, marks, base, m, asciiInline, false)
    {
      if i < |hexRows| {
        assert hs[i] == hexRows[i] && cs[i] == charRows[i];
      }
    }
  }

  /** Draw line `lineNum` of a window of the document read from position
      `start`: both rows show that part of the document with its marks. */
  method DrawWindowLine(line: seq<byte>, lineNum: int, ranges: seq<(int, int)>, start: int, bytesPerLine: int,
                        asciiInline: bool, ghost chunk: seq<byte>, ghost doc: seq<byte>, ghost marks: seq<bool>)
    returns (hexRow: Row, charRow: Row)
    requires bytesPerLine > 0 && 0 <= lineNum && line == Line(chunk, bytesPerLine, lineNum)
    requires lineNum * bytesPerLine < |chunk|
    requires 0 <= start && start + |chunk| <= |doc| && |marks| == |doc| && chunk == doc[start .. start + |chunk|]
    requires forall p :: start <= p < start + |chunk| ==> (Covered(ranges, p) <==> marks[p])
    ensures var base, m := start + lineNum * bytesPerLine, Min(bytesPerLine, |chunk| - lineNum * bytesPerLine);
            && Shows(hexRow, doc, marks, base, m, asciiInline, true)
            && Shows(charRow, doc, marks, base, m, asciiInline, false)
  {
    var base := start + lineNum * bytesPerLine;
    LineOfDocument(doc, chunk, start, bytesPerLine, lineNum);
    var hexCells, charCells := DrawLine(line, base, ranges, asciiInline);
    LineShowsDocument(doc, marks, ranges, start, |chunk|, line, base, asciiInline, hexCells, charCells);
    hexRow, charRow := Drawn(hexCells), Drawn(charCells);
  }

  /** The second loop of `buildHexView`: draw the lines of the window in
      order, stopping at the first empty one. */
  method DrawRows(lines: seq<seq<byte>>, ranges: seq<(int, int)>, start: int, bytesPerLine: int, asciiInline: bool,
                  ghost chunk: seq<byte>, ghost doc: seq<byte>, ghost marks: seq<bool>)
    returns (hexRows: seq<Row>, charRows: seq<Row>)
    requires bytesPerLine > 0 && lines == Lines(chunk, bytesPerLine, |lines|)
    requires LineCount(|chunk|, bytesPerLine) <= |lines|
    requires 0 <= start && start + |chunk| <= |doc| && |marks| == |doc| && chunk == doc[start .. start + |chunk|]
    requires forall p :: start <= p < start + |chunk| ==> (Covered(ranges, p) <==> marks[p])
    ensures |hexRows| == LineCount(|chunk|, bytesPerLine)
    ensures RowsShow(hexRows, charRows, doc, marks, start, |chunk|, bytesPerLine, asciiInline)
  {
    ghost var count := LineCount(|chunk|, bytesPerLine);
    hexRows, charRows := [], [];
    var lineNum := 0;
    while lineNum < |lines|
      invariant 0 <= lineNum <= count && |hexRows| == lineNum
      invariant RowsShow(hexRows, charRows, doc, marks, start, |chunk|, bytesPerLine, asciiInline)
    {
      var line := lines[lineNum];
      LinesAt(chunk, bytesPerLine, |lines|, lineNum);
      LineLength(chunk, bytesPerLine, lineNum);
      if |line| == 0 {
        break;
      }
      var h, c := DrawWindowLine(line, lineNum, ranges, start, bytesPerLine, asciiInline, chunk, doc, marks);
      RowsShowSnoc(hexRows, charRows, doc, marks, start, |chunk|, bytesPerLine, asciiInline, h, c);
      hexRows, charRows := hexRows + [h], charRows + [c];
      lineNum := lineNum + 1;
    }
  }

  /** The loop that fills the view up to `maxLines` rows with placeholders. */
  method PadRows(hexRows: seq<Row>, charRows: seq<Row>, maxLines: nat) returns (hexOut: seq<Row>, charOut: seq<Row>)
    requires |hexRows| == |charRows| <= maxLines
    ensures |hexOut| == maxLines && |charOut| == maxLines
    ensures hexOut[..|hexRows|] == hexRows && charOut[..|charRows|] == charRows
    ensures forall i :: |hexRows| <= i < maxLines ==> hexOut[i] == Placeholder && charOut[i] == Placeholder
  {
    hexOut, charOut := hexRows, charRows;
    while |hexOut| < maxLines
      invariant |hexRows| <= |hexOut| <= maxLines && |charOut| == |hexOut|
      invariant hexOut[..|hexRows|] == hexRows && charOut[..|charRows|] == charRows
      invariant forall i :: |hexRows| <= i < |hexOut| ==> hexOut[i] == Placeholder && charOut[i] == Placeholder
    {
      hexOut, charOut := hexOut + [Placeholder], charOut + [Placeholder];
    }
  }

  /** A whole view of `maxLines` rows over a window of `n` bytes read from
      position `start`: the rows for the window's lines draw those lines,
      placeholders fill the rest. */
  ghost predicate ViewShows(hexRows: seq<Row>, charRows: seq<Row>, doc: seq<byte>, marks: seq<bool>,
                            start: int, n: nat, bytesPerLine: int, asciiInline: bool, maxLines: nat)
    requires bytesPerLine > 0
  {
    var view := && |hexRows| == maxLines && |charRows| == maxLines
                && LineCount(n, bytesPerLine) <= maxLines
                && forall i :: 0 <= i < maxLines ==>
                     if i < LineCount(n, bytesPerLine) then
                       var base, m := start + i * bytesPerLine, Min(bytesPerLine, n - i * bytesPerLine);
                       && Shows(hexRows[i], doc, marks, base, m, asciiInline, true)
                       && Shows(charRows[i], doc, marks, base, m, asciiInline, false)
                     else hexRows[i] == Placeholder && charRows[i] == Placeholder;
    view
  }

  /** The drawn rows followed by placeholders make the whole view. */
  lemma ViewRows(hexRows: seq<Row>, charRows: seq<Row>, drawnHex: seq<Row>, drawnChar: seq<Row>, doc: seq<byte>,
                 marks: seq<bool>, start: int, n: nat, bytesPerLine: int, asciiInline: bool, maxLines: nat)
    requires bytesPerLine > 0
    requires RowsShow(drawnHex, drawnChar, doc, marks, start, n, bytesPerLine, asciiInline)
    requires |drawnHex| == LineCount(n, bytesPerLine) <= maxLines
    requires |hexRows| == maxLines && |charRows| == maxLines
    requires hexRows[..|drawnHex|] == drawnHex && charRows[..|drawnChar|] == drawnChar
    requires forall i :: |drawnHex| <= i < maxLines ==> hexRows[i] == Placeholder && charRows[i] == Placeholder
    ensures ViewShows(hexRows, charRows, doc, marks, start, n, bytesPerLine, asciiInline, maxLines)
  {
    forall i | 0 <= i < |drawnHex|
      ensures hexRows[i] == drawnHex[i] && charRows[i] == drawnChar[i]
    {
      assert hexRows[..|drawnHex|][i] == hexRows[i] && charRows[..|drawnHex|][i] == charRows[i];
    }
  }

  class HexEditor {
    const ctrl: EditController
    /** The props `maxLines`, `bytesPerLine` and `asciiInline`. */
    const maxLines: nat
    const bytesPerLine: int
    const asciiInline: bool
    /** The first line shown. */
    var lineNumber: int
    /** Where the mouse went down, until it comes up. */
    var tempSelection: Option<int>
    var selection: Option<Selection>
    var cursor: int

    /** The controller is consistent, every session it has open is an
        overwrite (the only kind this component opens), and the first line
        shown lies inside the document. */
    ghost predicate Valid()
      reads this, ctrl
    {
      && ctrl.Valid() && bytesPerLine > 0
      && (ctrl.inProgress.Some? ==> ctrl.inProgress.value.kind == Overwrite)
      && 0 <= lineNumber && lineNumber * bytesPerLine <= |ctrl.Doc()|
    }

    /** The component once its file is loaded, with the view at the top. */
    constructor (ctrl: EditController, maxLines: nat, bytesPerLine: int, asciiInline: bool)
      requires ctrl.Valid() && ctrl.inProgress.None? && bytesPerLine > 0
      ensures Valid()
      ensures this.ctrl == ctrl && this.maxLines == maxLines && this.bytesPerLine == bytesPerLine
      ensures this.asciiInline == asciiInline
      ensures lineNumber == 0 && tempSelection == None && selection == None && cursor == 0
    {
      this.ctrl := ctrl;
      this.maxLines := maxLines;
      this.bytesPerLine := bytesPerLine;
      this.asciiInline := asciiInline;
      lineNumber := 0;
      tempSelection := None;
      selection := None;
      cursor := 0;
    }

    /** `edit`: open an overwrite session at the cursor unless one is open,
        then hand the key to `buildEdit`. The ghost results say whether the
        piece after the staging piece had length 0 when the key arrived
        (`hazard`) and whether the staging piece was last (`grows`). */
    method Edit(key: string) returns (ghost hazard: bool, ghost grows: bool)
      requires Valid()
      requires ctrl.inProgress.None? ==> 0 <= cursor <= |ctrl.Doc()|
      modifies this, ctrl
      ensures lineNumber == old(lineNumber) && selection == old(selection) && tempSelection == old(tempSelection)
      ensures ctrl.added == old(ctrl.added)
      ensures ctrl.inProgress.Some? && ctrl.inProgress.value.kind == Overwrite
      ensures old(ctrl.inProgress).None? ==> ctrl.inProgress.value.offset == old(cursor) && !grows
      ensures old(ctrl.inProgress).Some? ==>
                && ctrl.inProgress.value.offset == old(ctrl.inProgress).value.offset
                && ctrl.inProgress.value.index == old(ctrl.inProgress).value.index
      ensures cursor == if IsHexKey(key) && |old(ctrl.chunk)| == 1 then old(cursor) + 1 else old(cursor)
      ensures !hazard ==> Valid()
      ensures !hazard ==> |ctrl.Doc()| == if grows && IsHexKey(key) && |old(ctrl.chunk)| == 1 then |old(ctrl.Doc())| + 1 else |old(ctrl.Doc())|
    {
      if ctrl.inProgress.None? {
        ghost var k, sp := ctrl.InitEdit(cursor, Overwrite);
        assert ctrl.pieces[k + 1].Staged? && k + 1 < |ctrl.pieces| - 1;
      }
      hazard := ctrl.ZeroLengthNext();
      grows := ctrl.inProgress.value.index == |ctrl.pieces| - 1;
      cursor := ctrl.BuildEdit(key, cursor);
    }

    /** `beginSelection`: remember where the mouse went down. */
    method BeginSelection(position: int)
      modifies this`tempSelection
      ensures tempSelection == Some(position)
    {
      tempSelection := Some(position);
    }

    /** `endSelection`: the selection runs from the lower to the higher of the
        two positions, the cursor goes where the mouse came up, and an open
        session is committed. */
    method EndSelection(chosen: int)
      requires Valid() && tempSelection.Some?
      modifies this, ctrl
      ensures var t := old(tempSelection).value;
              selection == Some(if t > chosen then Selection(chosen, t) else Selection(t, chosen))
      ensures selection.value.start <= selection.value.end
      ensures multiset{selection.value.start, selection.value.end} == multiset{old(tempSelection).value, chosen}
      ensures tempSelection == None && cursor == chosen && lineNumber == old(lineNumber)
      ensures Valid() && ctrl.inProgress.None?
      ensures ctrl.Doc() == old(ctrl.Doc()) && ctrl.EditedMarks() == old(ctrl.EditedMarks())
      ensures old(ctrl.inProgress).None? ==> ctrl.added == old(ctrl.added) && ctrl.pieces == old(ctrl.pieces)
      ensures old(ctrl.inProgress).Some? ==> ctrl.added == old(ctrl.added) + old(ctrl.inProgress).value.content
    {
      var t := tempSelection.value;
      if t > chosen {
        selection := Some(Selection(chosen, t));
      } else {
        selection := Some(Selection(t, chosen));
      }
      tempSelection := None;
      cursor := chosen;
      if ctrl.inProgress.Some? {
        ctrl.Commit();
      }
    }

    /** `scroll` with the integer velocity `velocity`, clamped so that the
        view keeps starting inside the document. */
    method Scroll(velocity: int)
      requires Valid()
      modifies this`lineNumber
      ensures lineNumber == ScrollClamped(old(lineNumber), velocity, |ctrl.Doc()|, bytesPerLine)
      ensures Valid()
    {
      var length := ctrl.Length();
      var scaled := velocity;
      if scaled == 0 {
        scaled := scaled - 1;
      }
      var last := length / bytesPerLine - 1;
      if lineNumber + scaled < 0 {
        lineNumber := 0;
      } else if lineNumber + scaled > last {
        lineNumber := if last < 0 then 0 else last;
      } else {
        lineNumber := lineNumber + scaled;
      }
      ghost var r := ScrollClamped(old(lineNumber), velocity, length, bytesPerLine);
    }

    /** The number of document bytes the view shows from its first line on. */
    ghost function Shown(): (n: nat)
      requires Valid()
      reads this, ctrl
    {
      MulMono(0, maxLines, bytesPerLine);
      Min(maxLines * bytesPerLine, |ctrl.Doc()| - lineNumber * bytesPerLine)
    }

    /** `buildHexView`, its line chunking and cells: exactly `maxLines` hex
        rows and `maxLines` character rows; the first rows draw the window line
        by line, each cell showing its document byte and marked `added` exactly
        when that byte comes from an edit; placeholders fill the rest. */
    method BuildHexView() returns (hexRows: seq<Row>, charRows: seq<Row>)
      requires Valid()
      ensures ViewShows(hexRows, charRows, ctrl.Doc(), ctrl.EditedMarks(), lineNumber * bytesPerLine, Shown(), bytesPerLine, asciiInline, maxLines)
    {
      var start := lineNumber * bytesPerLine;
      MulMono(0, maxLines, bytesPerLine);
      var chunk, ranges := ctrl.Render(start, maxLines * bytesPerLine);
      assert |chunk| == Shown();
      var lines := ChunkLines(chunk, bytesPerLine, maxLines);
      DrawnLinesAreWindow(chunk, bytesPerLine, maxLines);
      var drawnHex, drawnChar := DrawRows(lines, ranges, start, bytesPerLine, asciiInline, chunk, ctrl.Doc(), ctrl.EditedMarks());
      hexRows, charRows := PadRows(drawnHex, drawnChar, maxLines);
      ViewRows(hexRows, charRows, drawnHex, drawnChar, ctrl.Doc(), ctrl.EditedMarks(), start, |chunk|, bytesPerLine, asciiInline, maxLines);
    }
  }
}
