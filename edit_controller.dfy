/** The edit controller of the hex editor: a piece table whose methods update
    its fields in place. The document it stands for is `Doc()`, the pieces'
    buffers read in order (see module PieceTable). */
module EditControl {
  import opened Bytes
  import opened PieceTable

  datatype Option<T> = None | Some(value: T)

  /** `"insert" | "overwrite"`. */
  datatype EditType = Insert | Overwrite

  /** The edit in progress: the document offset it started at, its kind, the
      bytes typed so far and the index of its staging piece in `pieces`. */
  datatype Edit = Edit(offset: int, kind: EditType, content: seq<byte>, index: int)

  /** The controller's invariant, on the values of its fields: the pieces lie
      inside their buffers, at most one digit is buffered, and an open edit
      has exactly one staging piece, which starts at the edit's offset. */
  ghost predicate SessionOk(st: Store, ps: seq<Piece>, chunk: string, inProgress: Option<Edit>) {
    && |ps| > 0
    && WellFormed(st, ps)
    && |chunk| <= 1 && (forall i :: 0 <= i < |chunk| ==> IsHexDigit(chunk[i]))
    && (inProgress.None? ==> NoStaged(ps) && chunk == [] && st.staged == [])
    && (inProgress.Some? ==>
          && st.staged == inProgress.value.content
          && StagedOnlyAt(ps, inProgress.value.index)
          && Total(st, ps[..inProgress.value.index]) == inProgress.value.offset)
  }

  /** An overwrite whose staging piece is followed by a zero-length piece. */
  predicate Hazard(ps: seq<Piece>, e: Edit) {
    && e.kind == Overwrite && 0 <= e.index && e.index + 1 < |ps|
    && ps[e.index + 1].Window? && ps[e.index + 1].length == 0
  }

  /** The scan of `initEdit` and `render`: the first piece whose running end
      reaches `offset`, and the offset inside that piece. */
  method LocatePiece(st: Store, ps: seq<Piece>, offset: int) returns (k: int, slicePoint: int)
    requires |ps| > 0 && WellFormed(st, ps) && 0 <= offset <= Total(st, ps)
    ensures Covering(st, ps, offset, k)
    ensures slicePoint == offset - Total(st, ps[..k])
    ensures 0 <= slicePoint <= Len(st, ps[k])
  {
    k := 0;
    TotalStep(st, ps, 0);
    assert ps[..0] == [] && ps[..|ps|] == ps;
    var tracker := Len(st, ps[0]);
    while tracker < offset
      invariant 0 <= k < |ps|
      invariant tracker == Total(st, ps[..k + 1])
      invariant forall j :: 0 < j <= k ==> Total(st, ps[..j]) < offset
      decreases |ps| - k
    {
      assert k + 1 < |ps|;
      ghost var before := Total(st, ps[..k + 1]);
      TotalStep(st, ps, k + 1);
      tracker := tracker + Len(st, ps[k + 1]);
      k := k + 1;
      assert Total(st, ps[..k]) == before < offset;
    }
    slicePoint := Len(st, ps[k]) - tracker + offset;
    TotalStep(st, ps, k);
    CoveringSlicePoint(st, ps, offset, k);
  }

  /** `TypedArray.prototype.set`: writes `src` into `buf` starting at `at`. */
  method CopyInto(buf: array<byte>, src: seq<byte>, at: int)
    requires 0 <= at && at + |src| <= buf.Length
    modifies buf
    ensures forall j :: 0 <= j < buf.Length ==> buf[j] == if at <= j < at + |src| then src[j - at] else old(buf[j])
  {
    var i := 0;
    while i < |src|
      invariant 0 <= i <= |src|
      invariant forall j :: 0 <= j < buf.Length ==> buf[j] == if at <= j < at + i then src[j - at] else old(buf[j])
    {
      buf[at + i] := src[i];
      i := i + 1;
    }
  }

  class EditController {
    /** The loaded file; never written. */
    const original: seq<byte>
    /** The bytes of all committed edits, in commit order. */
    var added: seq<byte>
    var pieces: seq<Piece>
    var inProgress: Option<Edit>
    /** The hex digit typed so far towards the next byte, if any. */
    var chunk: string

    /** The buffers the pieces point into; the staging piece reads the
        content of the edit in progress. */
    function Buffers(): Store
      reads this`added, this`inProgress
    {
      Store(original, added, if inProgress.Some? then inProgress.value.content else [])
    }

    ghost predicate Valid()
      reads this
    {
      SessionOk(Buffers(), pieces, chunk, inProgress)
    }

    /** The document as it currently reads. */
    ghost function Doc(): seq<byte>
      requires Valid()
      reads this
    {
      Concat(Buffers(), pieces)
    }

    /** For each document position, whether its byte comes from an edit. */
    ghost function EditedMarks(): seq<bool>
      requires Valid()
      reads this
    {
      Marks(Buffers(), pieces)
    }

    /** The piece after the staging piece has length 0 while overwriting:
        the next overwritten byte would drive it to length -1. */
    predicate ZeroLengthNext()
      reads this
    {
      inProgress.Some? && Hazard(pieces, inProgress.value)
    }

    constructor (original: seq<byte>)
      ensures Valid()
      ensures this.original == original && added == [] && inProgress == None && chunk == []
      ensures pieces == [Window(0, |original|, Origin)]
      ensures Doc() == original && forall p :: 0 <= p < |original| ==> !EditedMarks()[p]
    {
      this.original := original;
      added := [];
      pieces := [Window(0, |original|, Origin)];
      inProgress := None;
      chunk := [];
      new;
      InitialDocument(original);
    }

    /** `initEdit`: split the piece covering `offset` around a new, empty
        staging piece. Both edit kinds build the same piece list. The ghost
        results name the located piece (`targetIndex`) and the offset into
        it (`slicePoint`). */
    method InitEdit(offset: int, kind: EditType) returns (ghost k: int, ghost slicePoint: int)
      requires Valid() && inProgress.None? && 0 <= offset <= |Doc()|
      modifies this
      ensures Valid() && added == old(added) && chunk == old(chunk)
      ensures inProgress == Some(Edit(offset, kind, [], k + 1))
      ensures Covering(old(Buffers()), old(pieces), offset, k)
      ensures slicePoint == offset - Total(old(Buffers()), old(pieces)[..k])
      ensures pieces == SplitAround(old(pieces), k, slicePoint)
      ensures Doc() == old(Doc()) && EditedMarks() == old(EditedMarks())
    {
      var st, ps := Buffers(), pieces;
      var target, sp := LocatePiece(st, ps, offset);
      SplitSession(st, ps, offset, kind, target, sp);
      pieces, inProgress := SplitAround(ps, target, sp), Some(Edit(offset, kind, [], target + 1));
      k, slicePoint := target, sp;
    }

    /** `pieces.indexOf(inProgress)`: the position of the staging piece. */
    method IndexOfStaged() returns (index: int)
      requires inProgress.Some? && StagedOnlyAt(pieces, inProgress.value.index)
      ensures index == inProgress.value.index
    {
      index := 0;
      while !pieces[index].Staged?
        invariant 0 <= index <= inProgress.value.index
        decreases inProgress.value.index - index
      {
        index := index + 1;
      }
    }

    /** `buildEdit`: buffer one hex digit; on the second, append the byte they
        spell to the edit, advance the cursor, and in overwrite mode take one
        byte off the front of the following piece. */
    method BuildEdit(key: string, cursor: int) returns (newCursor: int)
      requires Valid() && inProgress.Some?
      modifies this
      ensures added == old(added)
      ensures !IsHexKey(key) ==>
                && pieces == old(pieces) && inProgress == old(inProgress) && chunk == old(chunk)
                && newCursor == cursor && Valid()
      ensures IsHexKey(key) && old(chunk) == [] ==>
                && pieces == old(pieces) && inProgress == old(inProgress) && chunk == key
                && newCursor == cursor && Valid()
      ensures IsHexKey(key) && |old(chunk)| == 1 ==>
                var e := old(inProgress).value;
                && chunk == [] && newCursor == cursor + 1
                && inProgress == Some(e.(content := e.content + [ParseHexPair(old(chunk)[0], key[0])]))
                && pieces == if e.kind == Overwrite && e.index != |old(pieces)| - 1
                             then Consume(old(pieces), e.index) else old(pieces)
      ensures IsHexKey(key) && |old(chunk)| == 1 && !old(ZeroLengthNext()) ==>
                var e := old(inProgress).value;
                var b := ParseHexPair(old(chunk)[0], key[0]);
                var pos := e.offset + |e.content|;
                && Valid()
                && (e.kind == Overwrite && e.index != |old(pieces)| - 1 ==>
                      Overwrote(old(Buffers()), old(pieces), Buffers(), pieces, pos, b))
                && (e.kind == Insert || e.index == |old(pieces)| - 1 ==>
                      Inserted(old(Buffers()), old(pieces), Buffers(), pieces, pos, b))
    {
      newCursor := cursor;
      if IsHexKey(key) {
        ghost var pending := chunk;
        chunk := chunk + key;
        if |chunk| == 2 {
          ghost var c := chunk;
          assert c[0] == old(chunk)[0] && c[1] == key[0];
          ghost var st, ps, e := old(Buffers()), old(pieces), old(inProgress).value;
          ghost var b := ParseHexPair(c[0], c[1]);
          ghost var ps' := if e.kind == Overwrite && e.index != |ps| - 1 then Consume(ps, e.index) else ps;
          TypeByte(st, ps, pending, e, b);
          PushByte();
          assert pieces == ps' && Buffers() == st.(staged := st.staged + [b]);
          newCursor := cursor + 1;
        }
      }
    }

    /** The second digit of `buildEdit`: the byte the two buffered digits
        spell joins the edit, and an overwrite consumes the next piece's
        first byte. */
    method PushByte()
      requires inProgress.Some? && |chunk| == 2 && IsHexDigit(chunk[0]) && IsHexDigit(chunk[1])
      requires StagedOnlyAt(pieces, inProgress.value.index)
      modifies this
      ensures added == old(added) && chunk == []
      ensures var e := old(inProgress).value;
              && inProgress == Some(e.(content := e.content + [ParseHexPair(old(chunk)[0], old(chunk)[1])]))
              && pieces == if e.kind == Overwrite && e.index != |old(pieces)| - 1
                           then Consume(old(pieces), e.index) else old(pieces)
    {
      var e := inProgress.value;
      var b := ParseHexPair(chunk[0], chunk[1]);
      var index := IndexOfStaged();
      var ps := pieces;
      if e.kind == Overwrite && index != |ps| - 1 {
        var next := ps[index + 1];
        var shifted := Window(next.offset + 1, next.length - 1, next.source);
        ps := ps[index + 1 := shifted];
        if shifted.length == 0 {
          ps := ps[..index + 1] + ps[index + 2..];
        }
        ConsumeInPlace(pieces, index, ps);
      }
      inProgress, chunk, pieces := Some(e.(content := e.content + [b])), [], ps;
    }

    /** `commit`: append the edit's bytes to `added` and let a window onto
        them take the staging piece's place. A pending single digit is dropped. */
    method Commit()
      requires Valid() && inProgress.Some?
      modifies this
      ensures Valid()
      ensures added == old(added) + old(inProgress).value.content
      ensures pieces == old(pieces)[old(inProgress).value.index :=
                Window(|old(added)|, |old(inProgress).value.content|, Added)]
      ensures inProgress.None? && chunk == []
      ensures Doc() == old(Doc()) && EditedMarks() == old(EditedMarks())
    {
      var e := inProgress.value;
      CommitPreserves(Buffers(), pieces, e.index);
      pieces := pieces[e.index := Window(|added|, |e.content|, Added)];
      added := added + e.content;
      inProgress := None;
      chunk := [];
    }

    /** The `length` getter: the sum of the piece lengths. */
    method Length() returns (n: int)
      ensures n == Total(Buffers(), pieces)
      ensures Valid() ==> n == |Doc()|
    {
      n := 0;
      var i := 0;
      while i < |pieces|
        invariant 0 <= i <= |pieces|
        invariant n == Total(Buffers(), pieces[..i])
      {
        TotalStep(Buffers(), pieces, i);
        n := n + Len(Buffers(), pieces[i]);
        i := i + 1;
      }
      assert pieces[..|pieces|] == pieces;
    }

    /** `render(start, length)`: the document bytes from `start`, at most
        `length` of them, and the document spans of the edited pieces the
        scan passed. */
    method Render(start: int, length: int) returns (out: seq<byte>, meta: seq<(int, int)>)
      requires Valid() && 0 <= start <= |Doc()| && 0 <= length
      ensures |out| == Min(length, |Doc()| - start)
      ensures out == Doc()[start .. start + |out|]
      ensures forall p :: start <= p < start + |out| ==> (Covered(meta, p) <==> EditedMarks()[p])
      ensures forall r :: r in meta ==>
                r.0 >= start + length || exists i :: 0 <= i < |pieces| && Edited(pieces[i]) && r == Span(Buffers(), pieces, i)
    {
      var st, ps := Buffers(), pieces;
      out, meta := RenderPieces(st, ps, start, length);
    }
  }

  /** The pieces `initEdit` builds: the session opens with its staging piece
      right after the left part of the located piece, and the document and
      its marks read as before. */
  lemma SplitSession(st: Store, ps: seq<Piece>, offset: int, kind: EditType, k: int, sp: int)
    requires SessionOk(st, ps, [], None) && 0 <= offset
    requires Covering(st, ps, offset, k) && sp == offset - Total(st, ps[..k]) && 0 <= sp <= Len(st, ps[k])
    ensures SessionOk(st, SplitAround(ps, k, sp), [], Some(Edit(offset, kind, [], k + 1)))
    ensures ReadsAs(st, SplitAround(ps, k, sp), st, ps)
  {
    SplitAroundPreserves(st, ps, k, sp);
    SplitAroundPrefix(st, ps, k, sp);
    OpenSession(st, SplitAround(ps, k, sp), Edit(offset, kind, [], k + 1));
  }

  /** Overwriting in place, as `buildEdit` does it, builds `Consume(ps, k)`. */
  lemma ConsumeInPlace(ps: seq<Piece>, k: int, ps': seq<Piece>)
    requires 0 <= k && k + 1 < |ps| && ps[k + 1].Window?
    requires var next := ps[k + 1];
             var shifted := Window(next.offset + 1, next.length - 1, next.source);
             ps' == if shifted.length == 0 then ps[k + 1 := shifted][..k + 1] + ps[k + 1 := shifted][k + 2..]
                    else ps[k + 1 := shifted]
    ensures ps' == Consume(ps, k)
  {
    var next := ps[k + 1];
    var shifted := Window(next.offset + 1, next.length - 1, next.source);
    var u := ps[k + 1 := shifted];
    assert u[..k + 1] == ps[..k + 1] && u[k + 2..] == ps[k + 2..];
    if shifted.length != 0 {
      assert u == ps[..k + 1] + [shifted] + ps[k + 2..];
    }
  }

  /** The second digit of a byte: unless the overwrite would reach a
      zero-length piece, the session stays consistent and the document gains
      the byte at the edit's position, in place in overwrite mode with a
      following piece and inserted otherwise. */
  lemma TypeByte(st: Store, ps: seq<Piece>, pending: string, e: Edit, b: byte)
    requires SessionOk(st, ps, pending, Some(e))
    ensures var st' := st.(staged := st.staged + [b]);
            var overwrite := e.kind == Overwrite && e.index != |ps| - 1;
            var ps' := if overwrite then Consume(ps, e.index) else ps;
            var pos := e.offset + |e.content|;
            !Hazard(ps, e) ==>
              && SessionOk(st', ps', [], Some(e.(content := e.content + [b])))
              && (overwrite ==> Overwrote(st, ps, st', ps', pos, b))
              && (!overwrite ==> Inserted(st, ps, st', ps', pos, b))
  {
    if e.kind == Overwrite && e.index != |ps| - 1 {
      if !Hazard(ps, e) {
        OverwriteByte(st, ps, pending, e, b);
      }
    } else {
      InsertByte(st, ps, pending, e, b);
    }
  }

  /** The second digit of a byte in overwrite mode, with a following piece
      of positive length: the session stays consistent and the byte replaces
      the document's byte at the edit's position. */
  lemma OverwriteByte(st: Store, ps: seq<Piece>, pending: string, e: Edit, b: byte)
    requires SessionOk(st, ps, pending, Some(e)) && !Hazard(ps, e)
    requires e.kind == Overwrite && e.index != |ps| - 1
    ensures var st' := st.(staged := st.staged + [b]);
            var ps' := Consume(ps, e.index);
            var pos := e.offset + |e.content|;
            && SessionOk(st', ps', [], Some(e.(content := e.content + [b])))
            && Overwrote(st, ps, st', ps', pos, b)
  {
    var k, st', ps' := e.index, st.(staged := st.staged + [b]), Consume(ps, e.index);
    StagedEnd(st, ps, e);
    ConsumeOverwrites(st, ps, k, b);
    StagedPrefix(st, ps, ps', k, b);
    OpenSession(st', ps', e.(content := e.content + [b]));
  }

  /** The second digit of a byte in insert mode, or with the staging piece
      last: the session stays consistent and the byte is inserted at the
      edit's position. */
  lemma InsertByte(st: Store, ps: seq<Piece>, pending: string, e: Edit, b: byte)
    requires SessionOk(st, ps, pending, Some(e))
    requires e.kind == Insert || e.index == |ps| - 1
    ensures var st' := st.(staged := st.staged + [b]);
            var pos := e.offset + |e.content|;
            && SessionOk(st', ps, [], Some(e.(content := e.content + [b])))
            && Inserted(st, ps, st', ps, pos, b)
  {
    var k := e.index;
    TotalStep(st, ps, k);
    assert e.offset + |e.content| == Total(st, ps[..k + 1]);
    StagedGrows(st, ps, k, b);
    StagedPrefix(st, ps, ps, k, b);
    OpenSession(st.(staged := st.staged + [b]), ps, e.(content := e.content + [b]));
  }

  /** The edit's position, after the bytes staged so far, is the end of the
      staging piece. */
  lemma StagedEnd(st: Store, ps: seq<Piece>, e: Edit)
    requires WellFormed(st, ps) && st.staged == e.content
    requires StagedOnlyAt(ps, e.index) && Total(st, ps[..e.index]) == e.offset
    ensures e.offset + |e.content| == Total(st, ps[..e.index + 1])
  {
    TotalStep(st, ps, e.index);
  }

  /** An open edit with no digit pending, from its parts. */
  lemma OpenSession(st: Store, ps: seq<Piece>, e: Edit)
    requires WellFormed(st, ps) && st.staged == e.content
    requires StagedOnlyAt(ps, e.index) && Total(st, ps[..e.index]) == e.offset
    ensures SessionOk(st, ps, [], Some(e))
  {
  }

  /** The pieces before the staging piece keep their length when a byte is
      staged and the list is updated only from the staging piece on. */
  lemma StagedPrefix(st: Store, ps: seq<Piece>, ps': seq<Piece>, k: int, x: byte)
    requires WellFormed(st, ps) && StagedOnlyAt(ps, k) && k <= |ps'| && ps'[..k] == ps[..k]
    ensures Total(st.(staged := st.staged + [x]), ps'[..k]) == Total(st, ps[..k])
  {
    assert NoStaged(ps[..k]) && WellFormed(st, ps[..k]);
    ConcatStable(st, st.(staged := st.staged + [x]), ps[..k]);
  }

  // ---------------------------------------------------------------------------
  // render

  /** The body of `render`, on the values of the controller's fields. */
  method RenderPieces(st: Store, ps: seq<Piece>, start: int, length: int) returns (out: seq<byte>, meta: seq<(int, int)>)
    requires |ps| > 0 && WellFormed(st, ps) && 0 <= start <= Total(st, ps) && 0 <= length
    ensures |out| == Min(length, Total(st, ps) - start)
    ensures out == Concat(st, ps)[start .. start + |out|]
    ensures forall p :: start <= p < start + |out| ==> (Covered(meta, p) <==> Marks(st, ps)[p])
    ensures forall r :: r in meta ==>
              r.0 >= start + length || exists i :: 0 <= i < |ps| && Edited(ps[i]) && r == Span(st, ps, i)
  {
    var buf := new byte[length];
    var k, tracker;
    k, tracker, meta := RenderFirst(st, ps, start, length, buf);
    var i, done; ghost var kh, extra;
    tracker, meta, i, done, kh, extra := ScanPieces(st, ps, start, length, k, buf, tracker, meta);
    BufferPrefix(buf[..], Concat(st, ps), start, Min(tracker, length));
    out := buf[..Min(tracker, length)];
    RenderEnd(st, ps, start, length, k, i, kh, tracker, done, meta, extra);
  }

  /** The part of `render` before its loop: locate the piece holding `start`
      and copy its bytes from there into `buf`. */
  method RenderFirst(st: Store, ps: seq<Piece>, start: int, length: int, buf: array<byte>)
    returns (k: int, tracker: int, meta: seq<(int, int)>)
    requires |ps| > 0 && WellFormed(st, ps) && 0 <= start <= Total(st, ps) && 0 <= length
    requires buf.Length == length
    modifies buf
    ensures RenderScan(st, ps, start, length, k, k + 1, k + 1, tracker, false, meta, [])
    ensures forall j {:trigger buf[j]} :: 0 <= j < Min(tracker, length) ==> buf[j] == Concat(st, ps)[start + j]
  {
    var startPlace;
    k, startPlace := LocatePiece(st, ps, start);
    var first := PieceBuffer(st, ps[k]);
    meta := [];
    if Edited(ps[k]) {
      meta := [(start - startPlace, start - startPlace + Len(st, ps[k]))];
    }
    var stop := Min(startPlace + length, |first|);
    var firstChunk := first[startPlace .. stop];
    tracker := stop - startPlace;
    FirstChunk(st, ps, start, length, k, startPlace, stop, meta);
    assert |firstChunk| == tracker && start + 0 == start && Min(tracker, length) == 0 + |firstChunk|;
    Extend(buf, Concat(st, ps), start, 0, firstChunk);
  }

  /** What `render` has before its loop: the first chunk is the document
      from `start` on, and the scan starts after the located piece, having
      reported that piece's span when it is an edit. */
  lemma FirstChunk(st: Store, ps: seq<Piece>, start: int, length: int, k: int, sp: int, e: int, meta: seq<(int, int)>)
    requires WellFormed(st, ps) && 0 <= start && 0 <= length && 0 <= k < |ps|
    requires sp == start - Total(st, ps[..k]) && 0 <= sp <= Len(st, ps[k])
    requires e == Min(sp + length, Len(st, ps[k]))
    requires meta == if Edited(ps[k]) then [(start - sp, start - sp + Len(st, ps[k]))] else []
    ensures start + (e - sp) <= Total(st, ps)
    ensures PieceBuffer(st, ps[k])[sp .. e] == Concat(st, ps)[start .. start + (e - sp)]
    ensures RenderScan(st, ps, start, length, k, k + 1, k + 1, e - sp, false, meta, [])
  {
    FirstChunkBytes(st, ps, start, k, sp, e);
    FirstChunkScan(st, ps, start, length, k, sp, e, meta);
  }

  /** The bytes `render` takes from the piece holding `start`. */
  lemma FirstChunkBytes(st: Store, ps: seq<Piece>, start: int, k: int, sp: int, e: int)
    requires WellFormed(st, ps) && 0 <= start && 0 <= k < |ps|
    requires sp == start - Total(st, ps[..k]) && 0 <= sp <= e <= Len(st, ps[k])
    ensures start + (e - sp) <= Total(st, ps)
    ensures PieceBuffer(st, ps[k])[sp .. e] == Concat(st, ps)[start .. start + (e - sp)]
  {
    var lo, hi := Total(st, ps[..k]), Total(st, ps[..k + 1]);
    assert lo + Len(st, ps[k]) == hi <= Total(st, ps) && PieceBuffer(st, ps[k]) == Concat(st, ps)[lo .. hi] by {
      PieceBytes(st, ps, k);
    }
    SliceAt(Concat(st, ps), PieceBuffer(st, ps[k]), lo, hi, sp, e, start);
    assert lo + e == start + (e - sp);
  }

  /** The scan state once the piece holding `start` has been copied. */
  lemma FirstChunkScan(st: Store, ps: seq<Piece>, start: int, length: int, k: int, sp: int, e: int, meta: seq<(int, int)>)
    requires WellFormed(st, ps) && 0 <= start && 0 <= length && 0 <= k < |ps|
    requires sp == start - Total(st, ps[..k]) && 0 <= sp <= Len(st, ps[k])
    requires e == Min(sp + length, Len(st, ps[k]))
    requires meta == if Edited(ps[k]) then [(start - sp, start - sp + Len(st, ps[k]))] else []
    ensures RenderScan(st, ps, start, length, k, k + 1, k + 1, e - sp, false, meta, [])
  {
    var lo, hi := Total(st, ps[..k]), Total(st, ps[..k + 1]);
    assert lo + Len(st, ps[k]) == hi <= Total(st, ps) by {
      PieceBytes(st, ps, k);
    }
    assert meta == Spans(st, ps, k, k + 1) by {
      assert Spans(st, ps, k, k) == [];
      assert start - sp == lo;
      if Edited(ps[k]) {
        SpanIs(st, ps, k, lo);
        assert (start - sp, start - sp + Len(st, ps[k])) == Span(st, ps, k);
      }
    }
    ScanBegins(st, ps, start, length, k, e - sp, meta);
  }

  /** A buffer whose first `n` cells hold the document from `start` on. */
  lemma BufferPrefix(b: seq<byte>, d: seq<byte>, start: int, n: int)
    requires 0 <= n <= |b| && 0 <= start && start + n <= |d|
    requires forall j :: 0 <= j < n ==> b[j] == d[start + j]
    ensures b[..n] == d[start .. start + n]
  {
  }

  /** The loop of `render`: visit the pieces after the first one, copying
      their bytes into `buf`, until the window is full. */
  method ScanPieces(st: Store, ps: seq<Piece>, start: int, length: int, k: int, buf: array<byte>,
                    tracker0: int, meta0: seq<(int, int)>)
    returns (tracker: int, meta: seq<(int, int)>, i: int, done: bool, ghost kh: int, ghost extra: seq<(int, int)>)
    requires RenderScan(st, ps, start, length, k, k + 1, k + 1, tracker0, false, meta0, [])
    requires buf.Length == length
    requires forall j {:trigger buf[j]} :: 0 <= j < Min(tracker0, length) ==> buf[j] == Concat(st, ps)[start + j]
    modifies buf
    ensures RenderScan(st, ps, start, length, k, i, kh, tracker, done, meta, extra) && !(i < |ps| && !done)
    ensures forall j {:trigger buf[j]} :: 0 <= j < Min(tracker, length) ==> buf[j] == Concat(st, ps)[start + j]
  {
    tracker, meta := tracker0, meta0;
    i, kh, extra := k + 1, k + 1, [];
    done := false;
    while i < |ps| && !done
      invariant RenderScan(st, ps, start, length, k, i, kh, tracker, done, meta, extra)
      invariant buf.Length == length
      invariant forall j {:trigger buf[j]} :: 0 <= j < Min(tracker, length) ==> buf[j] == Concat(st, ps)[start + j]
      decreases |ps| - i, if done then 0 else 1
    {
      tracker, meta, done, kh, extra := ScanStep(st, ps, start, length, k, i, buf, tracker, meta);
      if !done {
        i := i + 1;
      }
    }
  }

  /** One iteration of render's loop: count piece `i`, report its range when
      it is an edit, and copy its bytes, or the part of them that still fits. */
  method ScanStep(st: Store, ps: seq<Piece>, start: int, length: int, k: int, i: int, buf: array<byte>,
                  tracker0: int, meta0: seq<(int, int)>)
    returns (tracker: int, meta: seq<(int, int)>, done: bool, ghost kh: int, ghost extra: seq<(int, int)>)
    requires RenderScan(st, ps, start, length, k, i, i, tracker0, false, meta0, []) && i < |ps|
    requires buf.Length == length
    requires forall j {:trigger buf[j]} :: 0 <= j < tracker0 ==> buf[j] == Concat(st, ps)[start + j]
    modifies buf
    ensures RenderScan(st, ps, start, length, k, if done then i else i + 1, kh, tracker, done, meta, extra)
    ensures forall j {:trigger buf[j]} :: 0 <= j < Min(tracker, length) ==> buf[j] == Concat(st, ps)[start + j]
  {
    var piece := ps[i];
    tracker := tracker0 + Len(st, piece);
    meta := meta0;
    if Edited(piece) {
      meta := meta + [(start + tracker - Len(st, piece), start + tracker)];
    }
    assert meta == meta0 + Pushed(st, ps, start, i, tracker0);
    ScanAdvance(st, ps, start, length, k, i, tracker0, meta0);
    kh, extra := NextKh(st, ps, start, i, tracker0), NextExtra(st, ps, start, i, tracker0);
    done := tracker >= length;
    CopyPiece(st, ps, start, length, i, buf, tracker0);
  }

  /** The copy of render's loop: the bytes of piece `i` that still fit in
      the window go into `buf` after the `tracker0` bytes already there. */
  method CopyPiece(st: Store, ps: seq<Piece>, start: int, length: int, i: int, buf: array<byte>, tracker0: int)
    requires WellFormed(st, ps) && 0 <= i < |ps| && 0 <= start && buf.Length == length
    requires 0 <= tracker0 <= length && start + tracker0 <= Total(st, ps)
    requires tracker0 == Total(st, ps[..i]) - start || tracker0 == length
    requires forall j {:trigger buf[j]} :: 0 <= j < tracker0 ==> buf[j] == Concat(st, ps)[start + j]
    modifies buf
    ensures start + Min(tracker0 + Len(st, ps[i]), length) <= |Concat(st, ps)|
    ensures forall j {:trigger buf[j]} :: 0 <= j < Min(tracker0 + Len(st, ps[i]), length) ==> buf[j] == Concat(st, ps)[start + j]
  {
    var piece := ps[i];
    var tracker := tracker0 + Len(st, piece);
    var src: seq<byte>;
    if tracker >= length {
      var n := Len(st, piece) - (tracker - length);
      src := PieceBuffer(st, piece)[..n];
      ScanSource(st, ps, start, i, tracker0, n);
      assert |src| == n && Min(tracker, length) == tracker0 + |src|;
    } else {
      src := PieceBuffer(st, piece);
      ScanSource(st, ps, start, i, tracker0, Len(st, piece));
      assert |src| == Len(st, piece) && Min(tracker, length) == tracker0 + |src|;
    }
    Extend(buf, Concat(st, ps), start, tracker0, src);
  }

  /** The bytes render's loop copies from piece `i`: its first `n` bytes are
      the document's bytes from the piece's start (none when the window is
      already full). */
  lemma ScanSource(st: Store, ps: seq<Piece>, start: int, i: int, tracker0: int, n: int)
    requires WellFormed(st, ps) && 0 <= i < |ps| && 0 <= n <= Len(st, ps[i])
    requires tracker0 == Total(st, ps[..i]) - start || (n == 0 && 0 <= start + tracker0 <= Total(st, ps))
    ensures 0 <= start + tracker0 && start + tracker0 + n <= Total(st, ps)
    ensures PieceBuffer(st, ps[i])[..n] == Concat(st, ps)[start + tracker0 .. start + tracker0 + n]
    ensures n == Len(st, ps[i]) ==> PieceBuffer(st, ps[i]) == Concat(st, ps)[start + tracker0 .. start + tracker0 + n]
  {
    if tracker0 == Total(st, ps[..i]) - start {
      PieceCopy(st, ps, start, i, tracker0, n);
    }
    assert n == Len(st, ps[i]) ==> PieceBuffer(st, ps[i])[..n] == PieceBuffer(st, ps[i]);
  }

  /** Where the reported spans end after visiting piece `i`. */
  ghost function NextKh(st: Store, ps: seq<Piece>, start: int, i: int, tracker0: int): int
    requires 0 <= i <= |ps|
  {
    if tracker0 == Total(st, ps[..i]) - start then i + 1 else i
  }

  /** The stray range reported when piece `i` lies past a full window. */
  function NextExtra(st: Store, ps: seq<Piece>, start: int, i: int, tracker0: int): seq<(int, int)>
    requires 0 <= i < |ps|
  {
    if tracker0 == Total(st, ps[..i]) - start then [] else Pushed(st, ps, start, i, tracker0)
  }

  /** The scan state after one iteration of render's loop. */
  lemma ScanAdvance(st: Store, ps: seq<Piece>, start: int, length: int, k: int, i: int, tracker0: int, meta0: seq<(int, int)>)
    requires RenderScan(st, ps, start, length, k, i, i, tracker0, false, meta0, []) && i < |ps|
    ensures var tracker := tracker0 + Len(st, ps[i]);
            var done := tracker >= length;
            RenderScan(st, ps, start, length, k, if done then i else i + 1, NextKh(st, ps, start, i, tracker0),
                       tracker, done, meta0 + Pushed(st, ps, start, i, tracker0), NextExtra(st, ps, start, i, tracker0))
  {
    if tracker0 == Total(st, ps[..i]) - start {
      StepInside(st, ps, start, length, k, i, tracker0, meta0);
    } else {
      StepPastEnd(st, ps, start, length, k, tracker0, meta0);
    }
  }

  /** Copying the next `|src|` document bytes after a buffer prefix that
      already holds the document from `start` on extends that prefix. */
  method Extend(buf: array<byte>, d: seq<byte>, start: int, n: int, src: seq<byte>)
    requires 0 <= n && n + |src| <= buf.Length && 0 <= start && start + n + |src| <= |d|
    requires forall j {:trigger buf[j]} :: 0 <= j < n ==> buf[j] == d[start + j]
    requires src == d[start + n .. start + n + |src|]
    modifies buf
    ensures forall j {:trigger buf[j]} :: 0 <= j < n + |src| ==> buf[j] == d[start + j]
  {
    CopyInto(buf, src, n);
    forall j | 0 <= j < n + |src| ensures buf[j] == d[start + j] {
      if j >= n {
        assert buf[j] == src[j - n];
      }
    }
  }

  /** The state of render's scan before visiting piece `i` (or after the
      break, when `done`): the ranges reported are the edited spans of pieces
      `k..kh-1`, plus at most one stray range at or after the window's end. */
  ghost predicate RenderScan(st: Store, ps: seq<Piece>, start: int, length: int, k: int, i: int, kh: int,
                             tracker: int, done: bool, meta: seq<(int, int)>, extra: seq<(int, int)>)
  {
    var scanned := && ScanFrame(st, ps, start, length, k, i, kh)
                   && ScanCount(st, ps, start, length, k, i, kh, tracker, done, extra)
                   && ScanRanges(st, ps, start, length, k, kh, meta, extra);
    scanned
  }

  /** The indices of the scan: piece `k` holds `start`, `i` is the next
      piece to visit and `kh` is one past the last piece reported. */
  ghost predicate ScanFrame(st: Store, ps: seq<Piece>, start: int, length: int, k: int, i: int, kh: int) {
    && WellFormed(st, ps) && 0 <= start && 0 <= length
    && 0 <= k < |ps| && k + 1 <= i <= |ps| && k + 1 <= kh <= |ps|
    && Total(st, ps[..k]) <= start
  }

  /** The running count: the bytes of the window filled so far. */
  ghost predicate ScanCount(st: Store, ps: seq<Piece>, start: int, length: int, k: int, i: int, kh: int,
                            tracker: int, done: bool, extra: seq<(int, int)>)
    requires 0 <= kh <= |ps|
  {
    && 0 <= tracker
    && (!done ==> kh == i && extra == [] && tracker <= length
                  && (tracker == Total(st, ps[..i]) - start || (i == k + 1 && tracker == length)))
    && (done ==> tracker >= length)
    && start + Min(tracker, length) <= Total(st, ps[..kh])
    && start + Min(tracker, length) <= Total(st, ps)
  }

  /** The ranges reported so far. */
  ghost predicate ScanRanges(st: Store, ps: seq<Piece>, start: int, length: int, k: int, kh: int,
                             meta: seq<(int, int)>, extra: seq<(int, int)>)
    requires 0 <= k <= kh <= |ps|
  {
    && meta == Spans(st, ps, k, kh) + extra
    && (forall r :: r in extra ==> r.0 >= start + length)
  }

  lemma SliceOfSlice<T>(s: seq<T>, a: int, b: int, c: int, e: int)
    requires 0 <= a <= b <= |s| && 0 <= c <= e <= b - a
    ensures s[a..b][c..e] == s[a + c .. a + e]
  {
    var x, y := s[a..b][c..e], s[a + c .. a + e];
    assert |x| == |y|;
    forall j | 0 <= j < |x| ensures x[j] == y[j] {
      assert x[j] == s[a..b][c + j] == s[a + c + j];
    }
  }

  /** A slice of a buffer that sits at `[lo, hi)` in `d` is the matching slice of `d`. */
  lemma SliceAt(d: seq<byte>, buffer: seq<byte>, lo: int, hi: int, sp: int, e: int, from: int)
    requires 0 <= lo <= hi <= |d| && d[lo .. hi] == buffer
    requires 0 <= sp <= e <= hi - lo && from == lo + sp
    ensures buffer[sp .. e] == d[from .. lo + e]
  {
    SliceOfSlice(d, lo, hi, sp, e);
  }

  /** The scan state before the first piece after `k`, from its parts. */
  lemma ScanBegins(st: Store, ps: seq<Piece>, start: int, length: int, k: int, tracker: int, meta: seq<(int, int)>)
    requires WellFormed(st, ps) && 0 <= start && 0 <= length && 0 <= k < |ps|
    requires Total(st, ps[..k]) <= start && 0 <= tracker <= length
    requires tracker == Total(st, ps[..k + 1]) - start || tracker == length
    requires start + tracker <= Total(st, ps[..k + 1]) <= Total(st, ps)
    requires meta == Spans(st, ps, k, k + 1)
    ensures RenderScan(st, ps, start, length, k, k + 1, k + 1, tracker, false, meta, [])
  {
    assert meta == Spans(st, ps, k, k + 1) + [];
  }

  /** The span of piece `k`, given where it starts. */
  lemma SpanIs(st: Store, ps: seq<Piece>, k: int, lo: int)
    requires 0 <= k < |ps| && lo == Total(st, ps[..k])
    ensures Span(st, ps, k) == (lo, lo + Len(st, ps[k]))
  {
    TotalStep(st, ps, k);
  }

  /** The bytes `render` copies from piece `i` are the document's bytes there. */
  lemma PieceBytes(st: Store, ps: seq<Piece>, i: int)
    requires WellFormed(st, ps) && 0 <= i < |ps|
    ensures var lo, hi := Total(st, ps[..i]), Total(st, ps[..i + 1]);
            && 0 <= lo && lo + Len(st, ps[i]) == hi && hi <= Total(st, ps)
            && PieceBuffer(st, ps[i]) == Concat(st, ps)[lo .. hi]
  {
    PieceAt(st, ps, i);
  }

  /** The first `m` bytes of piece `i` are the document's bytes from the
      piece's start. */
  lemma PieceCopy(st: Store, ps: seq<Piece>, start: int, i: int, tracker0: int, m: int)
    requires WellFormed(st, ps) && 0 <= i < |ps| && tracker0 == Total(st, ps[..i]) - start
    requires 0 <= m <= Len(st, ps[i])
    ensures 0 <= start + tracker0 && start + tracker0 + m <= Total(st, ps)
    ensures PieceBuffer(st, ps[i])[..m] == Concat(st, ps)[start + tracker0 .. start + tracker0 + m]
  {
    PieceBytes(st, ps, i);
    SliceAt(Concat(st, ps), PieceBuffer(st, ps[i]), Total(st, ps[..i]), Total(st, ps[..i + 1]), 0, m, start + tracker0);
    assert PieceBuffer(st, ps[i])[..m] == PieceBuffer(st, ps[i])[0..m];
  }

  /** The range `render` reports for piece `i` when it is an edit, given the
      running count before the piece. */
  function Pushed(st: Store, ps: seq<Piece>, start: int, i: int, tracker0: int): seq<(int, int)>
    requires 0 <= i < |ps|
  {
    if Edited(ps[i]) then [(start + tracker0, start + tracker0 + Len(st, ps[i]))] else []
  }

  /** Visiting a piece that starts inside the window: its span is reported,
      and the scan goes on when the window is not yet full. */
  lemma StepInside(st: Store, ps: seq<Piece>, start: int, length: int, k: int, i: int, tracker0: int, meta0: seq<(int, int)>)
    requires RenderScan(st, ps, start, length, k, i, i, tracker0, false, meta0, [])
    requires i < |ps| && tracker0 == Total(st, ps[..i]) - start
    ensures var tracker := tracker0 + Len(st, ps[i]);
            var meta := meta0 + Pushed(st, ps, start, i, tracker0);
            && (tracker < length ==> RenderScan(st, ps, start, length, k, i + 1, i + 1, tracker, false, meta, []))
            && (tracker >= length ==> RenderScan(st, ps, start, length, k, i, i + 1, tracker, true, meta, []))
  {
    TotalStep(st, ps, i);
    assert PieceOk(st, ps[i]);
    TotalMonotone(st, ps, i + 1, |ps|);
    assert ps[..|ps|] == ps;
    var pushed := Pushed(st, ps, start, i, tracker0);
    assert pushed == (if Edited(ps[i]) then [Span(st, ps, i)] else []);
    assert Spans(st, ps, k, i + 1) == Spans(st, ps, k, i) + pushed;
    assert meta0 == Spans(st, ps, k, i);
    assert meta0 + pushed == Spans(st, ps, k, i + 1) + [];
  }

  /** Visiting the piece after a first chunk that already filled the window:
      the scan stops, and the range it reports starts at the window's end. */
  lemma StepPastEnd(st: Store, ps: seq<Piece>, start: int, length: int, k: int, tracker0: int, meta0: seq<(int, int)>)
    requires RenderScan(st, ps, start, length, k, k + 1, k + 1, tracker0, false, meta0, [])
    requires k + 1 < |ps| && tracker0 == length
    ensures var tracker := tracker0 + Len(st, ps[k + 1]);
            var pushed := Pushed(st, ps, start, k + 1, tracker0);
            RenderScan(st, ps, start, length, k, k + 1, k + 1, tracker, true, meta0 + pushed, pushed)
  {
    assert PieceOk(st, ps[k + 1]);
    assert meta0 == Spans(st, ps, k, k + 1);
  }

  /** Nothing in `ranges` covers a position before `bound` when every range
      starts at or after it. */
  lemma NotCoveredBefore(ranges: seq<(int, int)>, bound: int, p: int)
    requires forall r :: r in ranges ==> r.0 >= bound
    requires p < bound
    ensures !Covered(ranges, p)
  {
    forall m | 0 <= m < |ranges| ensures !(ranges[m].0 <= p < ranges[m].1) {
      assert ranges[m] in ranges;
    }
  }

  lemma RenderEnd(st: Store, ps: seq<Piece>, start: int, length: int, k: int, i: int, kh: int,
                  tracker: int, done: bool, meta: seq<(int, int)>, extra: seq<(int, int)>)
    requires RenderScan(st, ps, start, length, k, i, kh, tracker, done, meta, extra)
    requires !(i < |ps| && !done)
    ensures Min(tracker, length) == Min(length, Total(st, ps) - start)
    ensures forall p :: start <= p < start + Min(tracker, length) ==> (Covered(meta, p) <==> Marks(st, ps)[p])
    ensures forall r :: r in meta ==> r.0 >= start + length || exists j :: 0 <= j < |ps| && Edited(ps[j]) && r == Span(st, ps, j)
  {
    assert ps[..|ps|] == ps;
    forall p | start <= p < start + Min(tracker, length) ensures Covered(meta, p) <==> Marks(st, ps)[p] {
      CoveredAppend(Spans(st, ps, k, kh), extra, p);
      SpansCover(st, ps, k, kh, p);
      NotCoveredBefore(extra, start + length, p);
    }
    forall r | r in meta ensures r.0 >= start + length || exists j :: 0 <= j < |ps| && Edited(ps[j]) && r == Span(st, ps, j) {
      if r in Spans(st, ps, k, kh) {
        SpansAreEditedSpans(st, ps, k, kh, r);
      }
    }
  }
}
