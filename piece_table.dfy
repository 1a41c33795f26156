/** The piece list of the edit controller as values: what a list of pieces
    reads as, how its length is summed, which of its bytes came from edits,
    and the three rewrites the controller applies to the list (split around
    a staging piece, consume the next piece on overwrite, commit). */
module PieceTable {
  import opened Bytes

  /** `"origin"` (the loaded file) or `"added"` (committed edit bytes). */
  datatype Source = Origin | Added

  /** A piece of the list: a window into one of the two buffers, or the one
      staging piece of the edit in progress, whose bytes are that edit's content. */
  datatype Piece = Window(offset: int, length: int, source: Source) | Staged

  /** The buffers pieces point into: `original`, `added`, and the content
      typed so far into the edit in progress. */
  datatype Store = Store(original: seq<byte>, added: seq<byte>, staged: seq<byte>)

  /** The length a piece contributes to the document. */
  function Len(st: Store, p: Piece): int {
    match p
    case Window(_, n, _) => n
    case Staged => |st.staged|
  }

  function Buffer(st: Store, s: Source): seq<byte> {
    match s
    case Origin => st.original
    case Added => st.added
  }

  /** A window with non-negative offset and length inside its buffer. */
  predicate PieceOk(st: Store, p: Piece) {
    p.Window? ==> 0 <= p.offset && 0 <= p.length && p.offset + p.length <= |Buffer(st, p.source)|
  }

  predicate WellFormed(st: Store, ps: seq<Piece>) {
    forall i :: 0 <= i < |ps| ==> PieceOk(st, ps[i])
  }

  /** `isInprogress(piece) || piece.source === 'added'`: the bytes of the piece
      come from an edit. */
  predicate Edited(p: Piece) {
    p.Staged? || p.source == Added
  }

  /** No piece of the list is the staging piece. */
  predicate NoStaged(ps: seq<Piece>) {
    forall j :: 0 <= j < |ps| ==> ps[j].Window?
  }

  /** The staging piece sits at index `k` and nowhere else. */
  predicate StagedOnlyAt(ps: seq<Piece>, k: int) {
    0 <= k < |ps| && ps[k].Staged? && forall j :: 0 <= j < |ps| && j != k ==> ps[j].Window?
  }

  /** `getPieceBuffer`: the bytes one piece contributes. */
  function PieceBuffer(st: Store, p: Piece): (r: seq<byte>)
    requires PieceOk(st, p)
    ensures |r| == Len(st, p)
    ensures p.Window? ==> r == Buffer(st, p.source)[p.offset .. p.offset + p.length]
    ensures p.Staged? ==> r == st.staged
  {
    match p
    case Staged => st.staged
    case Window(o, n, s) => Buffer(st, s)[o .. o + n]
  }

  /** The controller's `length` getter: the sum of the piece lengths. */
  function Total(st: Store, ps: seq<Piece>): int {
    if ps == [] then 0 else Total(st, ps[..|ps| - 1]) + Len(st, ps[|ps| - 1])
  }

  /** The document as the piece list reads: the piece buffers, concatenated in order. */
  function Concat(st: Store, ps: seq<Piece>): (d: seq<byte>)
    requires WellFormed(st, ps)
    ensures |d| == Total(st, ps)
  {
    if ps == [] then [] else Concat(st, ps[..|ps| - 1]) + PieceBuffer(st, ps[|ps| - 1])
  }

  /** `n` copies of the flag `v`: the marks of one piece. */
  function Run(n: nat, v: bool): (r: seq<bool>)
    ensures |r| == n && forall i :: 0 <= i < n ==> r[i] == v
  {
    seq(n, _ => v)
  }

  /** For each document position, whether its byte comes from an edited piece. */
  function Marks(st: Store, ps: seq<Piece>): (m: seq<bool>)
    requires WellFormed(st, ps)
    ensures |m| == Total(st, ps)
  {
    if ps == [] then []
    else
      var last := ps[|ps| - 1];
      Marks(st, ps[..|ps| - 1]) + Run(Len(st, last), Edited(last))
  }

  /** The document positions `[s, e)` of render's `meta.added`, as a membership test. */
  predicate Covered(ranges: seq<(int, int)>, p: int) {
    exists k :: 0 <= k < |ranges| && ranges[k].0 <= p < ranges[k].1
  }

  /** The scan of `initEdit` and `render`: `k` is the first piece at whose end
      the running total of lengths reaches `offset`. */
  predicate Covering(st: Store, ps: seq<Piece>, offset: int, k: int) {
    && 0 <= k < |ps|
    && offset <= Total(st, ps[..k + 1])
    && forall j :: 0 < j <= k ==> Total(st, ps[..j]) < offset
  }

  /** The list after `initEdit` has located piece `k` and split it `sp`
      bytes in: left part, the empty staging piece, right part. */
  function SplitAround(ps: seq<Piece>, k: int, sp: int): (r: seq<Piece>)
    requires 0 <= k < |ps| && ps[k].Window?
    ensures |r| == |ps| + 2
  {
    var t := ps[k];
    ps[..k] + [Window(t.offset, sp, t.source), Staged, Window(t.offset + sp, t.length - sp, t.source)] + ps[k + 1..]
  }

  /** The piece after the staging piece once overwrite has taken its first
      byte: the piece one byte shorter, or nothing once its length reaches 0. */
  function Behead(next: Piece): (r: seq<Piece>)
    requires next.Window?
    ensures |r| <= 1
  {
    var shifted := Window(next.offset + 1, next.length - 1, next.source);
    if shifted.length == 0 then [] else [shifted]
  }

  /** One overwritten byte: the piece after the staging piece at `k` loses
      its first byte, and is dropped when its length becomes 0. Nothing
      happens when the staging piece is last. */
  function Consume(ps: seq<Piece>, k: int): (r: seq<Piece>)
    requires 0 <= k < |ps| && (k + 1 < |ps| ==> ps[k + 1].Window?)
  {
    if k == |ps| - 1 then ps else ps[..k + 1] + Behead(ps[k + 1]) + ps[k + 2..]
  }

  // ---------------------------------------------------------------------------
  // Concatenation algebra

  lemma Singleton(st: Store, p: Piece)
    requires PieceOk(st, p)
    ensures WellFormed(st, [p]) && Total(st, [p]) == Len(st, p)
    ensures Concat(st, [p]) == PieceBuffer(st, p)
    ensures Marks(st, [p]) == Run(Len(st, p), Edited(p))
  {
    assert [p][..0] == [];
  }

  lemma WellFormedAppend(st: Store, a: seq<Piece>, b: seq<Piece>)
    requires WellFormed(st, a) && WellFormed(st, b)
    ensures WellFormed(st, a + b)
  {
    forall i | 0 <= i < |a + b| ensures PieceOk(st, (a + b)[i]) {
      if i < |a| { assert (a + b)[i] == a[i]; } else { assert (a + b)[i] == b[i - |a|]; }
    }
  }

  lemma {:induction false} TotalAppend(st: Store, a: seq<Piece>, b: seq<Piece>)
    ensures Total(st, a + b) == Total(st, a) + Total(st, b)
    decreases |b|
  {
    if b == [] {
      assert a + b == a;
    } else {
      var b', x := b[..|b| - 1], b[|b| - 1];
      assert (a + b)[..|a + b| - 1] == a + b';
      assert (a + b)[|a + b| - 1] == x;
      TotalAppend(st, a, b');
    }
  }

  lemma {:induction false} BytesAppend(st: Store, a: seq<Piece>, b: seq<Piece>)
    requires WellFormed(st, a) && WellFormed(st, b)
    ensures WellFormed(st, a + b)
    ensures Concat(st, a + b) == Concat(st, a) + Concat(st, b)
    decreases |b|
  {
    WellFormedAppend(st, a, b);
    if b == [] {
      assert a + b == a;
    } else {
      var b', x := b[..|b| - 1], b[|b| - 1];
      assert WellFormed(st, b') && PieceOk(st, x);
      assert a + b == (a + b') + [x] && b == b' + [x];
      BytesAppend(st, a, b');
      Snoc(st, a + b', x);
      Snoc(st, b', x);
      ConcatAssoc(Concat(st, a), Concat(st, b'), PieceBuffer(st, x));
    }
  }

  lemma {:induction false} MarksAppend(st: Store, a: seq<Piece>, b: seq<Piece>)
    requires WellFormed(st, a) && WellFormed(st, b)
    ensures WellFormed(st, a + b)
    ensures Marks(st, a + b) == Marks(st, a) + Marks(st, b)
    decreases |b|
  {
    WellFormedAppend(st, a, b);
    if b == [] {
      assert a + b == a;
    } else {
      var b', x := b[..|b| - 1], b[|b| - 1];
      assert WellFormed(st, b') && PieceOk(st, x);
      assert a + b == (a + b') + [x] && b == b' + [x];
      MarksAppend(st, a, b');
      Snoc(st, a + b', x);
      Snoc(st, b', x);
      ConcatAssoc(Marks(st, a), Marks(st, b'), Run(Len(st, x), Edited(x)));
    }
  }

  lemma ConcatAssoc<T>(x: seq<T>, y: seq<T>, z: seq<T>)
    ensures (x + y) + z == x + (y + z)
  {
  }

  /** Splitting a piece list into two consecutive parts splits its length,
      its document and its edit marks the same way. */
  lemma ConcatAppend(st: Store, a: seq<Piece>, b: seq<Piece>)
    requires WellFormed(st, a) && WellFormed(st, b)
    ensures WellFormed(st, a + b)
    ensures Total(st, a + b) == Total(st, a) + Total(st, b)
    ensures Concat(st, a + b) == Concat(st, a) + Concat(st, b)
    ensures Marks(st, a + b) == Marks(st, a) + Marks(st, b)
  {
    TotalAppend(st, a, b);
    BytesAppend(st, a, b);
    MarksAppend(st, a, b);
  }

  /** A list made of three consecutive runs reads as the three runs' documents,
      lengths and edit marks, in that order. */
  lemma Concat3(st: Store, a: seq<Piece>, b: seq<Piece>, c: seq<Piece>)
    requires WellFormed(st, a) && WellFormed(st, b) && WellFormed(st, c)
    ensures WellFormed(st, a + b + c)
    ensures Total(st, a + b + c) == Total(st, a) + Total(st, b) + Total(st, c)
    ensures Concat(st, a + b + c) == Concat(st, a) + Concat(st, b) + Concat(st, c)
    ensures Marks(st, a + b + c) == Marks(st, a) + Marks(st, b) + Marks(st, c)
  {
    WellFormedAppend(st, a, b);
    ConcatAppend(st, a, b);
    ConcatAppend(st, a + b, c);
  }

  /** Piece `i` occupies document positions `[Total(ps[..i]), Total(ps[..i+1]))`:
      there the document reads the piece's buffer, and the marks say whether
      the piece is an edit. */
  lemma PieceAt(st: Store, ps: seq<Piece>, i: int)
    requires WellFormed(st, ps) && 0 <= i < |ps|
    ensures 0 <= Total(st, ps[..i])
    ensures Total(st, ps[..i]) + Len(st, ps[i]) == Total(st, ps[..i + 1]) && Total(st, ps[..i + 1]) <= Total(st, ps)
    ensures Concat(st, ps)[Total(st, ps[..i]) .. Total(st, ps[..i + 1])] == PieceBuffer(st, ps[i])
    ensures forall p :: Total(st, ps[..i]) <= p < Total(st, ps[..i + 1]) ==> Marks(st, ps)[p] == Edited(ps[i])
  {
    var x := ps[i];
    var a, c := ps[..i], ps[i + 1..];
    assert ps == a + [x] + c by { Decompose(ps, i); }
    assert ps[..i + 1] == a + [x];
    assert WellFormed(st, a) && WellFormed(st, c);
    var lo := Total(st, a);
    assert 0 <= |Concat(st, a)| && lo == |Concat(st, a)|;
    assert Total(st, ps[..i + 1]) == lo + Len(st, x) by {
      Singleton(st, x);
      TotalAppend(st, a, [x]);
    }
    assert 0 <= |Concat(st, c)| && Total(st, c) == |Concat(st, c)|;
    assert Total(st, ps) == lo + Len(st, x) + Total(st, c) by {
      Singleton(st, x);
      Concat3(st, a, [x], c);
    }
    assert Concat(st, ps) == Concat(st, a) + PieceBuffer(st, x) + Concat(st, c) by {
      Singleton(st, x);
      Concat3(st, a, [x], c);
    }
    var mx := Run(Len(st, x), Edited(x));
    assert Marks(st, ps) == Marks(st, a) + mx + Marks(st, c) by {
      Singleton(st, x);
      Concat3(st, a, [x], c);
    }
    forall p | lo <= p < lo + Len(st, x) ensures Marks(st, ps)[p] == Edited(x) {
      assert Marks(st, ps)[p] == mx[p - lo];
    }
  }

  /** The edit mark of a position inside piece `i`'s span. */
  lemma MarkAt(st: Store, ps: seq<Piece>, i: int, p: int)
    requires WellFormed(st, ps) && 0 <= i < |ps|
    requires Total(st, ps[..i]) <= p < Total(st, ps[..i + 1])
    ensures 0 <= p < Total(st, ps) && Marks(st, ps)[p] == Edited(ps[i])
  {
    PieceAt(st, ps, i);
  }

  /** `ys` over store `st'` reads exactly as `xs` over store `st`: the same
      length, the same document and the same edit marks. */
  predicate ReadsAs(st': Store, ys: seq<Piece>, st: Store, xs: seq<Piece>) {
    && WellFormed(st', ys) && WellFormed(st, xs)
    && Total(st', ys) == Total(st, xs)
    && Concat(st', ys) == Concat(st, xs)
    && Marks(st', ys) == Marks(st, xs)
  }

  /** `ys` over `st'` reads as `xs` over `st` followed by one edited byte `x`. */
  predicate Grown(st': Store, ys: seq<Piece>, st: Store, xs: seq<Piece>, x: byte) {
    && WellFormed(st', ys) && WellFormed(st, xs)
    && Total(st', ys) == Total(st, xs) + 1
    && Concat(st', ys) == Concat(st, xs) + [x]
    && Marks(st', ys) == Marks(st, xs) + [true]
  }

  /** `ys` over `st'` reads as `xs` over `st` without its first byte. */
  predicate Tail(st': Store, ys: seq<Piece>, st: Store, xs: seq<Piece>) {
    && WellFormed(st', ys) && WellFormed(st, xs)
    && Total(st, xs) > 0
    && Total(st', ys) == Total(st, xs) - 1
    && Concat(st', ys) == Concat(st, xs)[1..]
    && Marks(st', ys) == Marks(st, xs)[1..]
  }

  /** Pieces that are all windows read the same after the staged content
      changes and after bytes are appended to `added`. */
  lemma {:induction false} ConcatStable(st: Store, st': Store, ps: seq<Piece>)
    requires WellFormed(st, ps) && NoStaged(ps)
    requires st'.original == st.original && st.added <= st'.added
    ensures ReadsAs(st', ps, st, ps)
    decreases |ps|
  {
    if ps != [] {
      var last := ps[|ps| - 1];
      ConcatStable(st, st', ps[..|ps| - 1]);
      assert PieceOk(st, last);
      assert PieceBuffer(st', last) == PieceBuffer(st, last);
    }
  }

  /** Replacing the middle run `x` of a list by a run `y` that reads the same,
      possibly over a different store in which the outer runs read the same,
      keeps the whole list's length, document and marks. */
  lemma Splice(st: Store, st': Store, a: seq<Piece>, x: seq<Piece>, y: seq<Piece>, c: seq<Piece>)
    requires ReadsAs(st', a, st, a) && ReadsAs(st', y, st, x) && ReadsAs(st', c, st, c)
    ensures ReadsAs(st', a + y + c, st, a + x + c)
  {
    Concat3(st, a, x, c);
    Concat3(st', a, y, c);
  }

  /** Writing `x` over the first element of the middle run. */
  lemma ReplaceFirst<T>(d: seq<T>, b: seq<T>, e: seq<T>, x: T)
    requires |b| > 0
    ensures (d + b + e)[|d| := x] == (d + [x]) + b[1..] + e
  {
  }

  /** Inserting `x` at the boundary of two sequences. */
  lemma InsertAt<T>(d: seq<T>, e: seq<T>, x: T)
    ensures d + [x] + e == (d + e)[..|d|] + [x] + (d + e)[|d|..]
  {
    assert (d + e)[..|d|] == d;
    assert (d + e)[|d|..] == e;
  }

  /** A run `f` that grew by byte `x`, a run `m` that lost its first byte and
      an unchanged run `c`: together they read as the old list with the byte
      after `f` overwritten by `x`. */
  lemma SpliceOverwrite(st: Store, st': Store, f: seq<Piece>, m: seq<Piece>, y: seq<Piece>, c: seq<Piece>, x: byte)
    requires Grown(st', f, st, f, x) && Tail(st', y, st, m) && ReadsAs(st', c, st, c)
    ensures WellFormed(st, f + m + c) && WellFormed(st', f + y + c)
    ensures 0 <= Total(st, f) < Total(st, f + m + c)
    ensures Total(st', f + y + c) == Total(st, f + m + c)
    ensures Concat(st', f + y + c) == Concat(st, f + m + c)[Total(st, f) := x]
    ensures Marks(st', f + y + c) == Marks(st, f + m + c)[Total(st, f) := true]
  {
    Concat3(st, f, m, c);
    Concat3(st', f, y, c);
    assert |Concat(st, f)| == Total(st, f) && |Marks(st, f)| == Total(st, f) && |Concat(st, c)| == Total(st, c);
    assert Concat(st', f + y + c) == Concat(st, f + m + c)[Total(st, f) := x] by {
      ReplaceFirst(Concat(st, f), Concat(st, m), Concat(st, c), x);
    }
    assert Marks(st', f + y + c) == Marks(st, f + m + c)[Total(st, f) := true] by {
      ReplaceFirst(Marks(st, f), Marks(st, m), Marks(st, c), true);
    }
  }

  /** A run `f` that grew by byte `x` followed by an unchanged run `c`: the
      list reads as before with `x` inserted after `f`. */
  lemma SpliceInsert(st: Store, st': Store, f: seq<Piece>, c: seq<Piece>, x: byte)
    requires Grown(st', f, st, f, x) && ReadsAs(st', c, st, c)
    ensures WellFormed(st, f + c) && WellFormed(st', f + c)
    ensures 0 <= Total(st, f) <= Total(st, f + c)
    ensures Total(st', f + c) == Total(st, f + c) + 1
    ensures Concat(st', f + c) == Concat(st, f + c)[..Total(st, f)] + [x] + Concat(st, f + c)[Total(st, f)..]
    ensures Marks(st', f + c) == Marks(st, f + c)[..Total(st, f)] + [true] + Marks(st, f + c)[Total(st, f)..]
  {
    ConcatAppend(st, f, c);
    ConcatAppend(st', f, c);
    assert |Concat(st, f)| == Total(st, f) && |Marks(st, f)| == Total(st, f) && |Concat(st, c)| == Total(st, c);
    InsertAt(Concat(st, f), Concat(st, c), x);
    InsertAt(Marks(st, f), Marks(st, c), true);
  }

  // ---------------------------------------------------------------------------
  // initEdit

  /** The local offset `offset - Total(ps[..k])` of the scan lies inside the
      located piece (both ends included). */
  lemma CoveringSlicePoint(st: Store, ps: seq<Piece>, offset: int, k: int)
    requires WellFormed(st, ps) && 0 <= offset && Covering(st, ps, offset, k)
    ensures 0 <= offset - Total(st, ps[..k]) <= Len(st, ps[k])
  {
    PieceAt(st, ps, k);
    if k > 0 {
      assert Total(st, ps[..k]) < offset;
    } else {
      assert ps[..0] == [];
    }
  }

  /** The two halves of a split re-sum to the split piece, byte for byte. */
  lemma SplitHalves(st: Store, t: Piece, sp: int)
    requires t.Window? && PieceOk(st, t) && 0 <= sp <= t.length
    ensures var left := Window(t.offset, sp, t.source);
            var right := Window(t.offset + sp, t.length - sp, t.source);
            && PieceOk(st, left) && PieceOk(st, right)
            && Len(st, left) + Len(st, right) == Len(st, t)
            && PieceBuffer(st, left) + PieceBuffer(st, right) == PieceBuffer(st, t)
  {
    SliceJoin(Buffer(st, t.source), t.offset, t.offset + sp, t.offset + t.length);
  }

  /** Two adjacent slices make one. */
  lemma SliceJoin<T>(s: seq<T>, i: int, j: int, k: int)
    requires 0 <= i <= j <= k <= |s|
    ensures s[i..j] + s[j..k] == s[i..k]
  {
    var x := s[i..j] + s[j..k];
    assert |x| == k - i;
    forall n | 0 <= n < k - i ensures x[n] == s[i..k][n] {
      if n < j - i { assert x[n] == s[i..j][n]; } else { assert x[n] == s[j..k][n - (j - i)]; }
    }
  }

  lemma SplitAroundShape(ps: seq<Piece>, k: int, sp: int)
    requires NoStaged(ps) && 0 <= k < |ps|
    ensures StagedOnlyAt(SplitAround(ps, k, sp), k + 1)
  {
    var r := SplitAround(ps, k, sp);
    forall j | 0 <= j < |r| && j != k + 1 ensures r[j].Window? {
      if j < k { assert r[j] == ps[j]; }
      else if j > k + 2 { assert r[j] == ps[j - 2]; }
    }
  }

  /** The three pieces a split puts in place of piece `t` read as `t` does. */
  lemma SplitPieceReads(st: Store, t: Piece, sp: int)
    requires t.Window? && PieceOk(st, t) && 0 <= sp <= t.length && st.staged == []
    ensures ReadsAs(st, [Window(t.offset, sp, t.source), Staged, Window(t.offset + sp, t.length - sp, t.source)], st, [t])
  {
    var left := Window(t.offset, sp, t.source);
    var right := Window(t.offset + sp, t.length - sp, t.source);
    SplitHalves(st, t, sp);
    assert PieceOk(st, Staged);
    ThreePieces(st, left, Staged, right);
    Singleton(st, t);
    assert Run(Len(st, Staged), Edited(Staged)) == [];
    ConstantRun(sp, t.length - sp, Edited(t));
  }

  /** A list of three pieces reads as their buffers, in order. */
  lemma ThreePieces(st: Store, a: Piece, b: Piece, c: Piece)
    requires PieceOk(st, a) && PieceOk(st, b) && PieceOk(st, c)
    ensures WellFormed(st, [a, b, c])
    ensures Total(st, [a, b, c]) == Len(st, a) + Len(st, b) + Len(st, c)
    ensures Concat(st, [a, b, c]) == PieceBuffer(st, a) + PieceBuffer(st, b) + PieceBuffer(st, c)
    ensures Marks(st, [a, b, c]) == Run(Len(st, a), Edited(a)) + Run(Len(st, b), Edited(b)) + Run(Len(st, c), Edited(c))
  {
    Singleton(st, a);
    Snoc(st, [a], b);
    assert [a] + [b] == [a, b];
    Snoc(st, [a, b], c);
    assert [a, b] + [c] == [a, b, c];
  }

  /** Appending one piece appends its length, bytes and marks. */
  lemma Snoc(st: Store, ps: seq<Piece>, p: Piece)
    requires WellFormed(st, ps) && PieceOk(st, p)
    ensures WellFormed(st, ps + [p])
    ensures Total(st, ps + [p]) == Total(st, ps) + Len(st, p)
    ensures Concat(st, ps + [p]) == Concat(st, ps) + PieceBuffer(st, p)
    ensures Marks(st, ps + [p]) == Marks(st, ps) + Run(Len(st, p), Edited(p))
  {
    assert (ps + [p])[..|ps|] == ps;
  }

  /** Two runs of the same flag make one run. */
  lemma ConstantRun(a: nat, b: nat, v: bool)
    ensures Run(a, v) + Run(b, v) == Run(a + b, v)
  {
    var x, y := Run(a, v) + Run(b, v), Run(a + b, v);
    assert |x| == |y|;
    forall j | 0 <= j < |x| ensures x[j] == y[j] {
      if j < a {
        assert x[j] == Run(a, v)[j];
      } else {
        assert x[j] == Run(b, v)[j - a];
      }
    }
  }

  lemma Decompose(ps: seq<Piece>, k: int)
    requires 0 <= k < |ps|
    ensures ps == ps[..k] + [ps[k]] + ps[k + 1..]
  {
  }

  /** A well-formed list reads as itself. */
  lemma ReadsAsSelf(st: Store, ps: seq<Piece>)
    requires WellFormed(st, ps)
    ensures ReadsAs(st, ps, st, ps)
  {
  }

  /** Splicing the empty staging piece into the located piece changes neither
      the document, nor its length, nor which bytes are edits. */
  lemma SplitAroundPreserves(st: Store, ps: seq<Piece>, k: int, sp: int)
    requires WellFormed(st, ps) && NoStaged(ps) && st.staged == []
    requires 0 <= k < |ps| && 0 <= sp <= ps[k].length
    ensures StagedOnlyAt(SplitAround(ps, k, sp), k + 1)
    ensures ReadsAs(st, SplitAround(ps, k, sp), st, ps)
  {
    var t := ps[k];
    var mid := [Window(t.offset, sp, t.source), Staged, Window(t.offset + sp, t.length - sp, t.source)];
    var a, c := ps[..k], ps[k + 1..];
    assert ps == a + [t] + c by { Decompose(ps, k); }
    assert SplitAround(ps, k, sp) == a + mid + c;
    SplitAroundShape(ps, k, sp);
    assert WellFormed(st, a) && WellFormed(st, c);
    ReadsAsSelf(st, a);
    ReadsAsSelf(st, c);
    SplitPieceReads(st, t, sp);
    Splice(st, st, a, [t], mid, c);
  }

  /** The pieces before the staging piece end where the edit starts. */
  lemma SplitAroundPrefix(st: Store, ps: seq<Piece>, k: int, sp: int)
    requires 0 <= k < |ps| && ps[k].Window?
    ensures Total(st, SplitAround(ps, k, sp)[..k + 1]) == Total(st, ps[..k]) + sp
  {
    var t := ps[k];
    assert SplitAround(ps, k, sp)[..k + 1] == ps[..k] + [Window(t.offset, sp, t.source)];
    assert [Window(t.offset, sp, t.source)][..0] == [];
    TotalAppend(st, ps[..k], [Window(t.offset, sp, t.source)]);
  }

  // ---------------------------------------------------------------------------
  // buildEdit

  /** The beheaded piece reads as the piece without its first byte, in any
      store that keeps both buffers. */
  lemma BeheadReads(st: Store, st': Store, next: Piece)
    requires next.Window? && PieceOk(st, next) && next.length > 0
    requires st'.original == st.original && st'.added == st.added
    ensures NoStaged(Behead(next)) && Tail(st', Behead(next), st, [next])
  {
    var shifted := Window(next.offset + 1, next.length - 1, next.source);
    var b := Buffer(st, next.source);
    Singleton(st, next);
    RunTail(next.length, Edited(next));
    if shifted.length == 0 {
      assert Behead(next) == [];
      assert PieceBuffer(st, next)[1..] == [];
    } else {
      assert Behead(next) == [shifted];
      assert PieceOk(st', shifted);
      Singleton(st', shifted);
      assert PieceBuffer(st', shifted) == PieceBuffer(st, next)[1..] by {
        assert PieceBuffer(st, next) == b[next.offset .. next.offset + next.length];
        assert PieceBuffer(st', shifted) == b[next.offset + 1 .. next.offset + next.length];
      }
    }
  }

  /** Dropping the first flag of a run. */
  lemma RunTail(n: nat, v: bool)
    requires n > 0
    ensures Run(n, v)[1..] == Run(n - 1, v)
  {
    assert |Run(n, v)[1..]| == n - 1;
    forall i | 0 <= i < n - 1 ensures Run(n, v)[1..][i] == v {
      assert Run(n, v)[1..][i] == Run(n, v)[i + 1];
    }
  }

  /** A list whose staging piece is last: appending `x` to the staged content
      appends `x` to its document and an edit mark to its marks. */
  lemma StagedLast(st: Store, ps: seq<Piece>, x: byte)
    requires WellFormed(st, ps) && StagedOnlyAt(ps, |ps| - 1)
    ensures Grown(st.(staged := st.staged + [x]), ps, st, ps, x)
  {
    var st' := st.(staged := st.staged + [x]);
    var a := ps[..|ps| - 1];
    assert NoStaged(a) && WellFormed(st, a) && ps == a + [Staged];
    ConcatStable(st, st', a);
    assert Run(|st'.staged|, true) == Run(|st.staged|, true) + [true];
  }

  lemma ConsumeShape(ps: seq<Piece>, k: int)
    requires StagedOnlyAt(ps, k) && k + 1 < |ps|
    ensures StagedOnlyAt(Consume(ps, k), k)
  {
    var r := Consume(ps, k);
    var front, b, c := ps[..k + 1], Behead(ps[k + 1]), ps[k + 2..];
    assert r == front + b + c;
    forall j | 0 <= j < |r| && j != k ensures r[j].Window? {
      if j < k { assert r[j] == front[j]; }
      else if j < |front + b| { assert r[j] == b[j - k - 1]; }
      else { assert r[j] == c[j - |front + b|]; }
    }
  }

  /** `ps'` over `st'` reads as `ps` over `st` with the byte at `pos`
      replaced by `x`, which is now marked as an edit. */
  ghost predicate Overwrote(st: Store, ps: seq<Piece>, st': Store, ps': seq<Piece>, pos: int, x: byte) {
    && WellFormed(st, ps) && WellFormed(st', ps')
    && 0 <= pos < Total(st, ps)
    && Concat(st', ps') == Concat(st, ps)[pos := x]
    && Marks(st', ps') == Marks(st, ps)[pos := true]
  }

  /** `ps'` over `st'` reads as `ps` over `st` with the edited byte `x`
      inserted at `pos`. */
  ghost predicate Inserted(st: Store, ps: seq<Piece>, st': Store, ps': seq<Piece>, pos: int, x: byte) {
    && WellFormed(st, ps) && WellFormed(st', ps')
    && 0 <= pos <= Total(st, ps)
    && Concat(st', ps') == Concat(st, ps)[..pos] + [x] + Concat(st, ps)[pos..]
    && Marks(st', ps') == Marks(st, ps)[..pos] + [true] + Marks(st, ps)[pos..]
  }

  /** Overwrite with a following piece of positive length: appending byte `x`
      to the staged content and consuming the next piece replaces exactly the
      document byte after the staged bytes with `x`, keeps the length, and
      marks that byte as edited. */
  lemma ConsumeOverwrites(st: Store, ps: seq<Piece>, k: int, x: byte)
    requires WellFormed(st, ps) && StagedOnlyAt(ps, k)
    requires k + 1 < |ps| && ps[k + 1].length > 0
    ensures var st' := st.(staged := st.staged + [x]);
            && StagedOnlyAt(Consume(ps, k), k)
            && Total(st', Consume(ps, k)) == Total(st, ps)
            && Overwrote(st, ps, st', Consume(ps, k), Total(st, ps[..k + 1]), x)
  {
    var st' := st.(staged := st.staged + [x]);
    var next := ps[k + 1];
    var front, c := ps[..k + 1], ps[k + 2..];
    assert Consume(ps, k) == front + Behead(next) + c;
    assert ps == front + [next] + c;
    assert NoStaged(c) && WellFormed(st, c) && WellFormed(st, front) && StagedOnlyAt(front, k);
    ConsumeShape(ps, k);
    StagedLast(st, front, x);
    BeheadReads(st, st', next);
    ConcatStable(st, st', c);
    SpliceOverwrite(st, st', front, [next], Behead(next), c, x);
  }

  /** Insert mode, or a staging piece that is last: appending byte `x` to the
      staged content inserts it into the document right after the staged
      bytes, growing the document by exactly one byte. */
  lemma StagedGrows(st: Store, ps: seq<Piece>, k: int, x: byte)
    requires WellFormed(st, ps) && StagedOnlyAt(ps, k)
    ensures var st' := st.(staged := st.staged + [x]);
            && Total(st', ps) == Total(st, ps) + 1
            && Inserted(st, ps, st', ps, Total(st, ps[..k + 1]), x)
  {
    var st' := st.(staged := st.staged + [x]);
    var front, c := ps[..k + 1], ps[k + 1..];
    assert ps == front + c;
    assert NoStaged(c) && WellFormed(st, c) && WellFormed(st, front) && StagedOnlyAt(front, k);
    StagedLast(st, front, x);
    ConcatStable(st, st', c);
    SpliceInsert(st, st', front, c, x);
  }

  // ---------------------------------------------------------------------------
  // commit

  /** The window onto the committed bytes reads as the staging piece did. */
  lemma CommitPieceReads(st: Store)
    ensures ReadsAs(Store(st.original, st.added + st.staged, []), [Window(|st.added|, |st.staged|, Added)], st, [Staged])
  {
    var st' := Store(st.original, st.added + st.staged, []);
    var w := Window(|st.added|, |st.staged|, Added);
    assert PieceOk(st', w) && PieceBuffer(st', w) == st.staged;
    Singleton(st, Staged);
    Singleton(st', w);
    assert Run(Len(st', w), Edited(w)) == Run(Len(st, Staged), Edited(Staged));
  }

  /** Commit: moving the staged bytes to the end of `added` and replacing the
      staging piece by a window onto them keeps the document and its marks. */
  lemma CommitPreserves(st: Store, ps: seq<Piece>, k: int)
    requires WellFormed(st, ps) && StagedOnlyAt(ps, k)
    ensures var st' := Store(st.original, st.added + st.staged, []);
            var ps' := ps[k := Window(|st.added|, |st.staged|, Added)];
            NoStaged(ps') && ReadsAs(st', ps', st, ps)
  {
    var st' := Store(st.original, st.added + st.staged, []);
    var w := Window(|st.added|, |st.staged|, Added);
    var ps' := ps[k := w];
    var a, c := ps[..k], ps[k + 1..];
    assert NoStaged(a) && NoStaged(c) && WellFormed(st, a) && WellFormed(st, c);
    assert ps == a + [Staged] + c by { Decompose(ps, k); }
    assert ps' == a + [w] + c;
    ConcatStable(st, st', a);
    ConcatStable(st, st', c);
    CommitPieceReads(st);
    Splice(st, st', a, [Staged], [w], c);
    forall j | 0 <= j < |ps'| ensures ps'[j].Window? {
      if j != k { assert ps'[j] == ps[j]; }
    }
  }

  // ---------------------------------------------------------------------------
  // Running totals and render's edit ranges

  /** The running total grows by one piece's length per step. */
  lemma TotalStep(st: Store, ps: seq<Piece>, i: int)
    requires 0 <= i < |ps|
    ensures Total(st, ps[..i + 1]) == Total(st, ps[..i]) + Len(st, ps[i])
  {
    assert ps[..i + 1][..i] == ps[..i];
  }

  /** Running totals are monotone in a well-formed list. */
  lemma {:induction false} TotalMonotone(st: Store, ps: seq<Piece>, j: int, i: int)
    requires WellFormed(st, ps) && 0 <= j <= i <= |ps|
    ensures Total(st, ps[..j]) <= Total(st, ps[..i])
    decreases i - j
  {
    if j < i {
      TotalStep(st, ps, i - 1);
      assert PieceOk(st, ps[i - 1]);
      TotalMonotone(st, ps, j, i - 1);
    }
  }

  /** The absolute document span `[Total(ps[..i]), Total(ps[..i+1]))` of piece `i`. */
  function Span(st: Store, ps: seq<Piece>, i: int): (int, int)
    requires 0 <= i < |ps|
  {
    (Total(st, ps[..i]), Total(st, ps[..i + 1]))
  }

  /** The spans of the edited pieces among `ps[lo..hi]`, in order: the ranges
      render's scan reports for those pieces. */
  function Spans(st: Store, ps: seq<Piece>, lo: int, hi: int): seq<(int, int)>
    requires 0 <= lo <= hi <= |ps|
    decreases hi - lo
  {
    if hi == lo then []
    else Spans(st, ps, lo, hi - 1) + (if Edited(ps[hi - 1]) then [Span(st, ps, hi - 1)] else [])
  }

  /** Every range in `Spans` is the span of an edited piece in `ps[lo..hi]`. */
  lemma {:induction false} SpansAreEditedSpans(st: Store, ps: seq<Piece>, lo: int, hi: int, r: (int, int))
    requires 0 <= lo <= hi <= |ps| && r in Spans(st, ps, lo, hi)
    ensures exists i :: lo <= i < hi && Edited(ps[i]) && r == Span(st, ps, i)
    decreases hi - lo
  {
    var r0 := Spans(st, ps, lo, hi - 1);
    if r in r0 {
      SpansAreEditedSpans(st, ps, lo, hi - 1, r);
    } else {
      assert Edited(ps[hi - 1]) && r == Span(st, ps, hi - 1);
    }
  }

  lemma CoveredAppend(a: seq<(int, int)>, b: seq<(int, int)>, p: int)
    ensures Covered(a + b, p) <==> Covered(a, p) || Covered(b, p)
  {
    if Covered(a + b, p) {
      var k :| 0 <= k < |a + b| && (a + b)[k].0 <= p < (a + b)[k].1;
      if k < |a| { assert a[k] == (a + b)[k]; } else { assert b[k - |a|] == (a + b)[k]; }
    }
    if Covered(a, p) {
      var k :| 0 <= k < |a| && a[k].0 <= p < a[k].1;
      assert (a + b)[k] == a[k];
    }
    if Covered(b, p) {
      var k :| 0 <= k < |b| && b[k].0 <= p < b[k].1;
      assert (a + b)[|a| + k] == b[k];
    }
  }

  /** A document position is covered by the edit spans of `ps[lo..hi]` exactly
      when it lies in those pieces and its byte comes from an edit. */
  lemma {:induction false} SpansCover(st: Store, ps: seq<Piece>, lo: int, hi: int, p: int)
    requires WellFormed(st, ps) && 0 <= lo <= hi <= |ps| && 0 <= p < Total(st, ps)
    ensures Covered(Spans(st, ps, lo, hi), p) <==> Total(st, ps[..lo]) <= p < Total(st, ps[..hi]) && Marks(st, ps)[p]
    decreases hi - lo
  {
    if hi > lo {
      SpansCover(st, ps, lo, hi - 1, p);
      SpansCoverStep(st, ps, lo, hi, p);
    }
  }

  /** One more piece's span. */
  lemma SpansCoverStep(st: Store, ps: seq<Piece>, lo: int, hi: int, p: int)
    requires WellFormed(st, ps) && 0 <= lo < hi <= |ps| && 0 <= p < Total(st, ps)
    requires Covered(Spans(st, ps, lo, hi - 1), p) <==> Total(st, ps[..lo]) <= p < Total(st, ps[..hi - 1]) && Marks(st, ps)[p]
    ensures Covered(Spans(st, ps, lo, hi), p) <==> Total(st, ps[..lo]) <= p < Total(st, ps[..hi]) && Marks(st, ps)[p]
  {
    var r0 := Spans(st, ps, lo, hi - 1);
    var r1 := if Edited(ps[hi - 1]) then [Span(st, ps, hi - 1)] else [];
    var s0, s1, s2 := Total(st, ps[..lo]), Total(st, ps[..hi - 1]), Total(st, ps[..hi]);
    var m := Marks(st, ps)[p];
    assert Covered(Spans(st, ps, lo, hi), p) <==> Covered(r0, p) || Covered(r1, p) by {
      CoveredAppend(r0, r1, p);
    }
    assert s1 <= p < s2 ==> m == Edited(ps[hi - 1]) by {
      if s1 <= p < s2 { MarkAt(st, ps, hi - 1, p); }
    }
    TotalsAround(st, ps, lo, hi);
    assert Covered(r1, p) <==> Edited(ps[hi - 1]) && s1 <= p < s2 by {
      CoveredOne(Span(st, ps, hi - 1), p);
    }
    Combine(Covered(Spans(st, ps, lo, hi), p), Covered(r0, p), Covered(r1, p), Edited(ps[hi - 1]), m, s0, s1, s2, p);
  }

  lemma TotalsAround(st: Store, ps: seq<Piece>, lo: int, hi: int)
    requires WellFormed(st, ps) && 0 <= lo < hi <= |ps|
    ensures Total(st, ps[..lo]) <= Total(st, ps[..hi - 1]) <= Total(st, ps[..hi])
  {
    TotalMonotone(st, ps, lo, hi - 1);
    TotalMonotone(st, ps, hi - 1, hi);
  }

  /** The case split of `SpansCover`: a position lies in `[s0, s2)` exactly
      when it lies in `[s0, s1)` or in `[s1, s2)`. */
  lemma Combine(all: bool, front: bool, last: bool, e: bool, m: bool, s0: int, s1: int, s2: int, p: int)
    requires all <==> front || last
    requires front <==> s0 <= p < s1 && m
    requires last <==> e && s1 <= p < s2
    requires s1 <= p < s2 ==> m == e
    requires s0 <= s1 <= s2
    ensures all <==> s0 <= p < s2 && m
  {
  }

  lemma CoveredOne(r: (int, int), p: int)
    ensures Covered([r], p) <==> r.0 <= p < r.1
    ensures !Covered([], p)
  {
    if r.0 <= p < r.1 { assert [r][0] == r; }
  }

  /** The piece list built at construction reads as the loaded file. */
  lemma InitialDocument(original: seq<byte>)
    ensures var st := Store(original, [], []);
            var ps := [Window(0, |original|, Origin)];
            && WellFormed(st, ps) && NoStaged(ps)
            && Total(st, ps) == |original|
            && Concat(st, ps) == original
            && (forall p :: 0 <= p < |original| ==> !Marks(st, ps)[p])
  {
    var st := Store(original, [], []);
    Singleton(st, Window(0, |original|, Origin));
    assert original[0..|original|] == original;
  }
}
