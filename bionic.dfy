/** The `to-bionic` component: collect the text nodes of a subtree, split
    each text into words and whitespace, and show the first half of every
    word in bold. */
module Bionic {

  // ---------------------------------------------------------------------------
  // whitespace

  /** A character of the JavaScript class `\s`: the ASCII blanks, the
      no-break spaces, the Unicode space separators, the line and paragraph
      separators and the byte order mark. */
  predicate IsSpace(c: char) {
    var n := c as int;
    || n == 0x09 || n == 0x0A || n == 0x0B || n == 0x0C || n == 0x0D || n == 0x20
    || n == 0xA0 || n == 0x1680 || (0x2000 <= n <= 0x200A) || n == 0x2028 || n == 0x2029
    || n == 0x202F || n == 0x205F || n == 0x3000 || n == 0xFEFF
  }

  predicate NoSpace(s: string) {
    forall i :: 0 <= i < |s| ==> !IsSpace(s[i])
  }

  predicate AllSpace(s: string) {
    forall i :: 0 <= i < |s| ==> IsSpace(s[i])
  }

  /** `/\s+/.test(s)`: some character of `s` is whitespace. */
  predicate HasSpace(s: string) {
    exists i :: 0 <= i < |s| && IsSpace(s[i])
  }

  /** `/\S/.test(s)`: some character of `s` is not whitespace. */
  predicate HasNonSpace(s: string) {
    exists i :: 0 <= i < |s| && !IsSpace(s[i])
  }

  // ---------------------------------------------------------------------------
  // splitting a text into tokens

  /** The length of the run of non-whitespace characters `s` starts with. */
  function LeadingWord(s: string): (n: nat)
    ensures n <= |s|
  {
    if s == [] || IsSpace(s[0]) then 0 else LeadingWord(s[1..]) + 1
  }

  /** The length of the run of whitespace characters `s` starts with. */
  function LeadingSpace(s: string): (n: nat)
    ensures n <= |s|
  {
    if s == [] || !IsSpace(s[0]) then 0 else LeadingSpace(s[1..]) + 1
  }

  /** The leading word holds no whitespace and ends at whitespace or at the
      end of `s`; it is empty exactly when `s` is empty or starts with whitespace. */
  lemma {:induction false} LeadingWordIsWord(s: string)
    ensures var n := LeadingWord(s);
            && NoSpace(s[..n]) && (n < |s| ==> IsSpace(s[n]))
            && (n == 0 <==> s == [] || IsSpace(s[0]))
  {
    if s != [] && !IsSpace(s[0]) {
      var m := LeadingWord(s[1..]);
      LeadingWordIsWord(s[1..]);
      assert s[..m + 1] == [s[0]] + s[1..][..m];
    }
  }

  /** The leading whitespace run is all whitespace and maximal; it is empty
      exactly when `s` is empty or starts with a non-whitespace character. */
  lemma {:induction false} LeadingSpaceIsSpace(s: string)
    ensures var n := LeadingSpace(s);
            && AllSpace(s[..n]) && (n < |s| ==> !IsSpace(s[n]))
            && (n == 0 <==> s == [] || !IsSpace(s[0]))
  {
    if s != [] && IsSpace(s[0]) {
      var m := LeadingSpace(s[1..]);
      LeadingSpaceIsSpace(s[1..]);
      assert s[..m + 1] == [s[0]] + s[1..][..m];
    }
  }

  /** `content.split(/(\s+)/g)`: the words of `content` at even positions and
      the maximal whitespace runs between them, captured, at odd positions. */
  function Split(s: string): (tokens: seq<string>)
    ensures |tokens| % 2 == 1
    decreases |s|
  {
    var w := LeadingWord(s);
    if w == |s| then [s]
    else
      var r := LeadingSpace(s[w..]);
      LeadingWordIsWord(s);
      LeadingSpaceIsSpace(s[w..]);
      [s[..w], s[w .. w + r]] + Split(s[w + r..])
  }

  /** The tokens in order, concatenated. */
  function Concat(tokens: seq<string>): string {
    if tokens == [] then [] else tokens[0] + Concat(tokens[1..])
  }

  /** Words (even positions) hold no whitespace; separators (odd positions)
      are non-empty whitespace; only the first and the last word may be empty. */
  predicate Alternating(tokens: seq<string>) {
    forall k :: 0 <= k < |tokens| ==> AlternatingAt(tokens, k)
  }

  predicate AlternatingAt(tokens: seq<string>, k: int)
    requires 0 <= k < |tokens|
  {
    if k % 2 == 0 then NoSpace(tokens[k]) && (0 < k < |tokens| - 1 ==> tokens[k] != [])
    else tokens[k] != [] && AllSpace(tokens[k])
  }

  /** A word and a whitespace run in front of alternating tokens that start
      with a non-empty word (or are a single word) still alternate. */
  lemma AlternatingCons(word: string, space: string, tail: seq<string>)
    requires NoSpace(word) && space != [] && AllSpace(space)
    requires Alternating(tail) && |tail| % 2 == 1 && (|tail| > 1 ==> tail[0] != [])
    ensures Alternating([word, space] + tail)
  {
    var ts := [word, space] + tail;
    forall k | 0 <= k < |ts| ensures AlternatingAt(ts, k) {
      if k >= 2 {
        assert ts[k] == tail[k - 2] && AlternatingAt(tail, k - 2);
      }
    }
  }

  /** Splitting loses nothing: the tokens read back as the text. */
  lemma {:induction false} SplitJoin(s: string)
    ensures Concat(Split(s)) == s
    decreases |s|
  {
    var w := LeadingWord(s);
    if w < |s| {
      var r := LeadingSpace(s[w..]);
      var tail := Split(s[w + r..]);
      SplitJoin(s[w + r..]);
      ConcatPair(s, w, w + r, tail);
      assert Split(s) == [s[..w], s[w .. w + r]] + tail;
    } else {
      assert Split(s) == [s];
      ConcatSingle(s);
    }
  }

  /** A word and a whitespace run cut from the front of `s`, in front of
      tokens that read back as the rest, read back as `s`. */
  lemma ConcatPair(s: string, i: int, j: int, tail: seq<string>)
    requires 0 <= i <= j <= |s| && Concat(tail) == s[j..]
    ensures Concat([s[..i], s[i .. j]] + tail) == s
  {
    var ts := [s[..i], s[i .. j]] + tail;
    assert ts[1..][1..] == tail;
    assert s == s[..i] + (s[i .. j] + s[j..]);
  }

  lemma ConcatSingle(t: string)
    ensures Concat([t]) == t
  {
    assert [t][1..] == [];
    assert t + [] == t;
  }

  /** The tokens alternate between words and maximal whitespace runs, and
      the first token is the (possibly empty) word the text starts with. */
  lemma {:induction false} SplitAlternates(s: string)
    ensures Alternating(Split(s))
    ensures Split(s)[0] == s[..LeadingWord(s)]
    decreases |s|
  {
    var w := LeadingWord(s);
    if w < |s| {
      var r := LeadingSpace(s[w..]);
      var rest := s[w + r..];
      var tail := Split(rest);
      SplitAlternates(rest);
      FrontTokens(s, w, r);
      RestStartsWithWord(rest, tail);
      AlternatingCons(s[..w], s[w .. w + r], tail);
      assert Split(s) == [s[..w], s[w .. w + r]] + tail;
    } else {
      LeadingWordIsWord(s);
      assert s[..w] == s;
      assert Split(s) == [s];
      assert AlternatingAt([s], 0);
    }
  }

  /** The word and the whitespace run `Split` cuts from the front of `s`. */
  lemma FrontTokens(s: string, w: nat, r: nat)
    requires w == LeadingWord(s) < |s| && r == LeadingSpace(s[w..])
    ensures NoSpace(s[..w]) && s[w .. w + r] != [] && AllSpace(s[w .. w + r])
    ensures w + r < |s| ==> !IsSpace(s[w + r])
  {
    LeadingWordIsWord(s);
    LeadingSpaceIsSpace(s[w..]);
    assert s[w .. w + r] == s[w..][..r];
    if w + r < |s| {
      assert s[w + r] == s[w..][r];
    }
  }

  /** After a maximal whitespace run the next word is not empty, unless the
      text ends there. */
  lemma RestStartsWithWord(rest: string, tail: seq<string>)
    requires tail == Split(rest) && tail[0] == rest[..LeadingWord(rest)]
    requires rest != [] ==> !IsSpace(rest[0])
    ensures |tail| > 1 ==> tail[0] != []
  {
    LeadingWordIsWord(rest);
    if rest == [] {
      assert tail == [rest];
    }
  }

  /** `whitespaceIdx`: the parity of the whitespace tokens, 0 when the first
      token contains whitespace and 1 otherwise. */
  function WhitespaceIdx(tokens: seq<string>): (idx: nat)
    requires |tokens| > 0
    ensures idx == 0 <==> HasSpace(tokens[0])
    ensures idx <= 1
  {
    if HasSpace(tokens[0]) then 0 else 1
  }

  /** The first token of a split never contains whitespace (a text that
      starts with whitespace starts with an empty word), so `whitespaceIdx`
      is always 1: the separators are exactly the odd positions. */
  lemma SplitStartsWithWord(s: string)
    ensures WhitespaceIdx(Split(s)) == 1
  {
    SplitAlternates(s);
    assert AlternatingAt(Split(s), 0);
  }

  // ---------------------------------------------------------------------------
  // halving a word

  /** `start` and `end` of a word: the first `Math.ceil(n / 2)` characters
      and the rest. */
  function Halve(word: string): (parts: (string, string))
    ensures |parts.0| == (|word| + 1) / 2 && parts.0 + parts.1 == word
    ensures |parts.1| <= |parts.0| <= |parts.1| + 1
  {
    var start := word[..(|word| + 1) / 2];
    (start, word[|start|..])
  }

  // ---------------------------------------------------------------------------
  // the replacement nodes

  /** A replacement node: a plain text node, a `span` with the attribute
      `bold`, or a `span` with the attribute `normal`. */
  datatype Span = Plain(text: string) | Bold(text: string) | Normal(text: string)

  /** The nodes one token becomes: a whitespace token stays plain text; a word
      becomes its bold half, followed by its normal half when that is not empty. */
  function TokenSpans(idx: nat, token: string, whitespaceIdx: nat): seq<Span> {
    if idx % 2 == whitespaceIdx then [Plain(token)]
    else
      var (start, end) := Halve(token);
      [Bold(start)] + (if |end| > 0 then [Normal(end)] else [])
  }

  /** The replacement for a sequence of tokens, as the loop of
      `formatContent` builds it. */
  function Format(tokens: seq<string>, whitespaceIdx: nat): seq<Span> {
    if tokens == [] then []
    else Format(tokens[..|tokens| - 1], whitespaceIdx) + TokenSpans(|tokens| - 1, tokens[|tokens| - 1], whitespaceIdx)
  }

  /** The text the replacement nodes show, in order. */
  function Texts(spans: seq<Span>): string {
    if spans == [] then [] else Texts(spans[..|spans| - 1]) + spans[|spans| - 1].text
  }

  lemma {:induction false} TextsAppend(a: seq<Span>, b: seq<Span>)
    ensures Texts(a + b) == Texts(a) + Texts(b)
    decreases |b|
  {
    if b != [] {
      var front := b[..|b| - 1];
      assert (a + b)[..|a + b| - 1] == a + front && (a + b)[|a + b| - 1] == b[|b| - 1];
      TextsAppend(a, front);
    } else {
      assert a + b == a;
    }
  }

  lemma {:induction false} ConcatLast(tokens: seq<string>)
    requires tokens != []
    ensures Concat(tokens) == Concat(tokens[..|tokens| - 1]) + tokens[|tokens| - 1]
    decreases |tokens|
  {
    if |tokens| > 1 {
      var tail := tokens[1..];
      ConcatLast(tail);
      assert tail[..|tail| - 1] == tokens[..|tokens| - 1][1..];
    } else {
      assert tokens[1..] == [] && tokens[..0] == [];
    }
  }

  /** Each token's nodes show exactly the token. */
  lemma TokenSpansText(idx: nat, token: string, whitespaceIdx: nat)
    ensures Texts(TokenSpans(idx, token, whitespaceIdx)) == token
  {
    var spans := TokenSpans(idx, token, whitespaceIdx);
    if idx % 2 != whitespaceIdx {
      var (start, end) := Halve(token);
      assert Texts([Bold(start)]) == start;
      if |end| > 0 {
        assert spans[..1] == [Bold(start)];
      }
    } else {
      assert Texts([Plain(token)]) == token;
    }
  }

  /** The replacement shows the text it replaces, whatever the parity. */
  lemma {:induction false} FormatTexts(tokens: seq<string>, whitespaceIdx: nat)
    ensures Texts(Format(tokens, whitespaceIdx)) == Concat(tokens)
    decreases |tokens|
  {
    if tokens != [] {
      var front, last := tokens[..|tokens| - 1], tokens[|tokens| - 1];
      FormatTexts(front, whitespaceIdx);
      TextsAppend(Format(front, whitespaceIdx), TokenSpans(|tokens| - 1, last, whitespaceIdx));
      TokenSpansText(|tokens| - 1, last, whitespaceIdx);
      ConcatLast(tokens);
    }
  }

  /** The shape of a replacement: plain nodes are non-empty whitespace, bold
      and normal spans hold no whitespace, and a normal span is non-empty and
      directly follows the bold span of the same word, which is as long or
      one character longer. */
  predicate Shaped(spans: seq<Span>) {
    forall k :: 0 <= k < |spans| ==> ShapedAt(spans, k)
  }

  predicate ShapedAt(spans: seq<Span>, k: int)
    requires 0 <= k < |spans|
  {
    match spans[k]
    case Plain(t) => t != [] && AllSpace(t)
    case Bold(t) => NoSpace(t)
    case Normal(t) =>
      && t != [] && NoSpace(t) && k > 0 && spans[k - 1].Bold?
      && |t| <= |spans[k - 1].text| <= |t| + 1
  }

  lemma ShapedAppend(a: seq<Span>, b: seq<Span>)
    requires Shaped(a) && Shaped(b) && (|b| > 0 ==> !b[0].Normal?)
    ensures Shaped(a + b)
  {
    var ab := a + b;
    forall k | 0 <= k < |ab| ensures ShapedAt(ab, k) {
      if k < |a| {
        assert ab[k] == a[k] && (k > 0 ==> ab[k - 1] == a[k - 1]);
        assert ShapedAt(a, k);
      } else {
        assert ab[k] == b[k - |a|] && (k > |a| ==> ab[k - 1] == b[k - |a| - 1]);
        assert ShapedAt(b, k - |a|);
      }
    }
  }

  /** The nodes of a single token are well shaped. */
  lemma TokenSpansShaped(idx: nat, token: string)
    requires idx % 2 == 1 ==> token != [] && AllSpace(token)
    requires idx % 2 == 0 ==> NoSpace(token)
    ensures Shaped(TokenSpans(idx, token, 1))
    ensures !TokenSpans(idx, token, 1)[0].Normal?
  {
    var spans := TokenSpans(idx, token, 1);
    if idx % 2 == 0 {
      var (start, end) := Halve(token);
      assert forall j :: 0 <= j < |start| ==> start[j] == token[j];
      assert forall j :: 0 <= j < |end| ==> end[j] == token[|start| + j];
      assert ShapedAt(spans, 0);
      if |end| > 0 {
        assert ShapedAt(spans, 1);
      }
    } else {
      assert ShapedAt(spans, 0);
    }
  }

  /** Formatting alternating tokens with separators at odd positions yields
      a well-shaped replacement. */
  lemma {:induction false} FormatShaped(tokens: seq<string>)
    requires Alternating(tokens)
    ensures Shaped(Format(tokens, 1))
    decreases |tokens|
  {
    if tokens != [] {
      var front, last := tokens[..|tokens| - 1], tokens[|tokens| - 1];
      var i := |tokens| - 1;
      assert Alternating(front) by {
        forall k | 0 <= k < |front| ensures AlternatingAt(front, k) {
          assert front[k] == tokens[k] && AlternatingAt(tokens, k);
        }
      }
      FormatShaped(front);
      assert AlternatingAt(tokens, i);
      TokenSpansShaped(i, last);
      ShapedAppend(Format(front, 1), TokenSpans(i, last, 1));
    }
  }

  /** The loop of `formatContent` for one text node: split the text, work
      out `whitespaceIdx`, and turn every token into its nodes. The
      replacement shows the same text and is well shaped. */
  method FormatText(content: string) returns (replacement: seq<Span>)
    ensures replacement == Format(Split(content), 1)
    ensures Texts(replacement) == content
    ensures Shaped(replacement)
  {
    var splitted := Split(content);
    var whitespaceIdx := WhitespaceIdx(splitted);
    SplitStartsWithWord(content);
    replacement := [];
    for idx := 0 to |splitted|
      invariant replacement == Format(splitted[..idx], whitespaceIdx)
    {
      var split := splitted[idx];
      FormatStep(splitted, idx, whitespaceIdx);
      if idx % 2 == whitespaceIdx {
        replacement := replacement + [Plain(split)];
      } else {
        var (start, end) := Halve(split);
        replacement := replacement + [Bold(start)];
        if |end| > 0 {
          replacement := replacement + [Normal(end)];
        }
      }
    }
    assert splitted[..|splitted|] == splitted;
    FormatSplit(content);
  }

  lemma FormatStep(tokens: seq<string>, idx: int, whitespaceIdx: nat)
    requires 0 <= idx < |tokens|
    ensures Format(tokens[..idx + 1], whitespaceIdx) == Format(tokens[..idx], whitespaceIdx) + TokenSpans(idx, tokens[idx], whitespaceIdx)
  {
    assert tokens[..idx + 1][..idx] == tokens[..idx];
  }

  /** The replacement of a whole text shows that text and is well shaped. */
  lemma FormatSplit(content: string)
    ensures Texts(Format(Split(content), 1)) == content
    ensures Shaped(Format(Split(content), 1))
  {
    FormatTexts(Split(content), 1);
    SplitJoin(content);
    SplitAlternates(content);
    FormatShaped(Split(content));
  }

  // ---------------------------------------------------------------------------
  // the document tree

  /** A DOM node: a text node with its data, or an element with its tag
      name, whether it carries the attribute `no-bionic`, and its children. */
  datatype Node = Text(data: string) | Element(tag: string, noBionic: bool, children: seq<Node>)

  /** A node by the child indices that lead to it. */
  type Path = seq<nat>

  /** An element whose subtree the collection does not enter. */
  predicate Skipped(node: Node) {
    node.Element? && (node.tag == "SCRIPT" || node.noBionic)
  }

  /** `p` leads from `node` through elements the collection enters. */
  predicate Visible(node: Node, p: Path)
    decreases p
  {
    p == [] || (node.Element? && !Skipped(node) && p[0] < |node.children| && Visible(node.children[p[0]], p[1..]))
  }

  function At(node: Node, p: Path): Node
    requires Visible(node, p)
    decreases p
  {
    if p == [] then node else At(node.children[p[0]], p[1..])
  }

  /** The node at `p` is one the collection keeps: a text node reached
      through entered elements, which holds a non-whitespace character
      unless whitespace nodes are wanted. */
  predicate Collectable(node: Node, p: Path, includeWhitespace: bool) {
    && Visible(node, p) && At(node, p).Text?
    && (includeWhitespace || HasNonSpace(At(node, p).data))
  }

  /** Every path of `paths` with `prefix` in front. */
  function Prefixed(prefix: Path, paths: seq<Path>): (r: seq<Path>)
    ensures |r| == |paths|
  {
    seq(|paths|, k requires 0 <= k < |paths| => prefix + paths[k])
  }

  /** The text nodes `getTextNodes` collects below `node`, as paths from it,
      in the order it collects them. */
  function Collected(node: Node, includeWhitespace: bool): seq<Path>
    decreases node, if node.Element? then |node.children| + 1 else 0
  {
    match node
    case Text(data) => if includeWhitespace || HasNonSpace(data) then [[]] else []
    case Element(tag, noBionic, children) =>
      if tag == "SCRIPT" || noBionic then [] else CollectedChildren(node, |children|, includeWhitespace)
  }

  /** What the collection finds below the first `n` children of an element. */
  function CollectedChildren(node: Node, n: nat, includeWhitespace: bool): seq<Path>
    requires node.Element? && n <= |node.children|
    decreases node, n
  {
    if n == 0 then []
    else CollectedChildren(node, n - 1, includeWhitespace) + Prefixed([n - 1], Collected(node.children[n - 1], includeWhitespace))
  }

  /** The collection finds exactly the collectable text nodes. */
  lemma {:induction false} CollectedExactly(node: Node, includeWhitespace: bool, p: Path)
    ensures p in Collected(node, includeWhitespace) <==> Collectable(node, p, includeWhitespace)
    decreases node, if node.Element? then |node.children| + 1 else 0
  {
    match node
    case Text(data) =>
    case Element(tag, noBionic, children) =>
      if !(tag == "SCRIPT" || noBionic) {
        CollectedChildrenExactly(node, |children|, includeWhitespace, p);
      }
  }

  lemma {:induction false} CollectedChildrenExactly(node: Node, n: nat, includeWhitespace: bool, p: Path)
    requires node.Element? && !Skipped(node) && n <= |node.children|
    ensures p in CollectedChildren(node, n, includeWhitespace) <==>
              |p| > 0 && p[0] < n && Collectable(node, p, includeWhitespace)
    decreases node, n
  {
    if n > 0 {
      var child := node.children[n - 1];
      var inner := Collected(child, includeWhitespace);
      CollectedChildrenExactly(node, n - 1, includeWhitespace, p);
      if |p| > 0 && p[0] == n - 1 {
        CollectedExactly(child, includeWhitespace, p[1..]);
        assert p in Prefixed([n - 1], inner) <==> p[1..] in inner by {
          if p[1..] in inner {
            var k :| 0 <= k < |inner| && inner[k] == p[1..];
            assert Prefixed([n - 1], inner)[k] == p;
          }
        }
      } else {
        assert p !in Prefixed([n - 1], inner);
      }
    }
  }

  /** Whitespace-only text nodes are collected only when asked for: without
      them the collection keeps exactly the nodes holding a non-whitespace
      character. */
  lemma CollectedWithoutWhitespace(node: Node, p: Path)
    ensures p in Collected(node, false) ==> p in Collected(node, true)
    ensures p in Collected(node, true) ==>
              && Collectable(node, p, true)
              && (p in Collected(node, false) <==> HasNonSpace(At(node, p).data))
  {
    CollectedExactly(node, false, p);
    CollectedExactly(node, true, p);
  }

  /** Lexicographic order on paths: document order, in which a node comes
      before its descendants and those of an earlier sibling come first. */
  predicate Before(a: Path, b: Path)
    decreases a
  {
    || (a == [] && b != [])
    || (a != [] && b != [] && (a[0] < b[0] || (a[0] == b[0] && Before(a[1..], b[1..]))))
  }

  predicate InDocumentOrder(paths: seq<Path>) {
    var ordered := forall i, j :: 0 <= i < j < |paths| ==> Before(paths[i], paths[j]);
    ordered
  }

  /** Every path leads into a child with index below `n`. */
  predicate HeadsBelow(paths: seq<Path>, n: int) {
    var below := forall q :: q in paths ==> |q| > 0 && q[0] < n;
    below
  }

  /** Every path leads into child `i`. */
  predicate HeadsAt(paths: seq<Path>, i: int) {
    var at := forall q :: q in paths ==> |q| > 0 && q[0] == i;
    at
  }

  lemma PrefixedInOrder(i: nat, paths: seq<Path>)
    requires InDocumentOrder(paths)
    ensures InDocumentOrder(Prefixed([i], paths))
  {
    var r := Prefixed([i], paths);
    forall a, b | 0 <= a < b < |r| ensures Before(r[a], r[b]) {
      assert r[a][1..] == paths[a] && r[b][1..] == paths[b];
    }
  }

  /** The collection visits the tree depth first, children by ascending
      index, so the nodes come out in document order. */
  lemma {:induction false} CollectedInOrder(node: Node, includeWhitespace: bool)
    ensures InDocumentOrder(Collected(node, includeWhitespace))
    decreases node, if node.Element? then |node.children| + 1 else 0
  {
    match node
    case Text(data) =>
    case Element(tag, noBionic, children) =>
      if !(tag == "SCRIPT" || noBionic) {
        CollectedChildrenInOrder(node, |children|, includeWhitespace);
      }
  }

  lemma {:induction false} CollectedChildrenInOrder(node: Node, n: nat, includeWhitespace: bool)
    requires node.Element? && n <= |node.children|
    ensures InDocumentOrder(CollectedChildren(node, n, includeWhitespace))
    ensures HeadsBelow(CollectedChildren(node, n, includeWhitespace), n)
    decreases node, n
  {
    if n > 0 {
      var front := CollectedChildren(node, n - 1, includeWhitespace);
      var inner := Collected(node.children[n - 1], includeWhitespace);
      CollectedChildrenInOrder(node, n - 1, includeWhitespace);
      CollectedInOrder(node.children[n - 1], includeWhitespace);
      PrefixedInOrder(n - 1, inner);
      PrefixedHeads(n - 1, inner);
      OrderedAppend(front, Prefixed([n - 1], inner), n - 1);
    }
  }

  lemma PrefixedHeads(i: nat, paths: seq<Path>)
    ensures HeadsAt(Prefixed([i], paths), i)
  {
    forall q | q in Prefixed([i], paths) ensures |q| > 0 && q[0] == i {
      var k :| 0 <= k < |paths| && Prefixed([i], paths)[k] == q;
    }
  }

  /** Paths below earlier children, then paths below child `i`, are in
      document order when each group is. */
  lemma OrderedAppend(front: seq<Path>, back: seq<Path>, i: nat)
    requires InDocumentOrder(front) && InDocumentOrder(back)
    requires HeadsBelow(front, i)
    requires HeadsAt(back, i)
    ensures InDocumentOrder(front + back)
    ensures HeadsBelow(front + back, i + 1)
  {
    var all := front + back;
    forall a, b | 0 <= a < b < |all| ensures Before(all[a], all[b]) {
      if a < |front| && b >= |front| {
        assert all[a] in front && all[b] == back[b - |front|];
        assert all[b] in back;
      } else if a >= |front| {
        assert all[a] == back[a - |front|] && all[b] == back[b - |front|];
      } else {
        assert all[a] == front[a] && all[b] == front[b];
      }
    }
  }

  /** `getTextNodes` below the node at path `at`: push every collected text
      node onto `textNodes`, visiting children by ascending index. */
  method GetTextNodes(node: Node, at: Path, includeWhitespace: bool, textNodes: seq<Path>) returns (out: seq<Path>)
    ensures out == textNodes + Prefixed(at, Collected(node, includeWhitespace))
    decreases node
  {
    out := textNodes;
    PrefixedLeaf(at);
    if node.Text? {
      if includeWhitespace || HasNonSpace(node.data) {
        out := out + [at];
      }
    } else if !(node.tag == "SCRIPT" || node.noBionic) {
      for i := 0 to |node.children|
        invariant out == textNodes + Prefixed(at, CollectedChildren(node, i, includeWhitespace))
      {
        out := GetTextNodes(node.children[i], at + [i], includeWhitespace, out);
        PrefixedChild(node, i, at, includeWhitespace);
      }
    }
  }

  lemma PrefixedLeaf(at: Path)
    ensures Prefixed(at, [[]]) == [at] && Prefixed(at, []) == []
  {
    var r: seq<Path> := Prefixed(at, [[]]);
    assert |r| == 1 && r[0] == at + [] == at;
    assert r == [at];
  }

  /** What the collection finds below child `i`, placed after what it found
      below the children before it. */
  lemma PrefixedChild(node: Node, i: nat, at: Path, includeWhitespace: bool)
    requires node.Element? && i < |node.children|
    ensures Prefixed(at, CollectedChildren(node, i + 1, includeWhitespace))
            == Prefixed(at, CollectedChildren(node, i, includeWhitespace)) + Prefixed(at + [i], Collected(node.children[i], includeWhitespace))
  {
    PrefixedStep(at, CollectedChildren(node, i, includeWhitespace), i, Collected(node.children[i], includeWhitespace));
  }

  lemma PrefixedStep(at: Path, before: seq<Path>, i: nat, inner: seq<Path>)
    ensures Prefixed(at, before) + Prefixed(at + [i], inner) == Prefixed(at, before + Prefixed([i], inner))
  {
    var l, r := Prefixed(at, before) + Prefixed(at + [i], inner), Prefixed(at, before + Prefixed([i], inner));
    forall k | |before| <= k < |l| ensures l[k] == r[k] {
      assert at + [i] + inner[k - |before|] == at + ([i] + inner[k - |before|]);
    }
  }

  /** `getTextNodesIn`: the text nodes below `root`, as paths from it, that
      hold a non-whitespace character (or all of them when asked), in
      document order. */
  method GetTextNodesIn(root: Node, includeWhitespace: bool) returns (textNodes: seq<Path>)
    ensures textNodes == Collected(root, includeWhitespace)
    ensures forall p :: p in textNodes <==> Collectable(root, p, includeWhitespace)
    ensures InDocumentOrder(textNodes)
  {
    textNodes := GetTextNodes(root, [], includeWhitespace, []);
    var c := Collected(root, includeWhitespace);
    assert Prefixed([], c) == c by {
      forall k | 0 <= k < |c| ensures Prefixed([], c)[k] == c[k] {
        assert [] + c[k] == c[k];
      }
    }
    forall p ensures p in textNodes <==> Collectable(root, p, includeWhitespace) {
      CollectedExactly(root, includeWhitespace, p);
    }
    CollectedInOrder(root, includeWhitespace);
  }

  /** `formatContent`: every text node of the component that holds a
      non-whitespace character, in document order, with the nodes that
      replace it; each replacement shows the node's text. */
  method FormatContent(root: Node) returns (textNodes: seq<Path>, replacements: seq<seq<Span>>)
    ensures textNodes == Collected(root, false) && |replacements| == |textNodes|
    ensures forall k :: 0 <= k < |textNodes| ==>
              && Collectable(root, textNodes[k], false)
              && replacements[k] == Format(Split(At(root, textNodes[k]).data), 1)
              && Texts(replacements[k]) == At(root, textNodes[k]).data
              && Shaped(replacements[k])
  {
    textNodes := GetTextNodesIn(root, false);
    replacements := [];
    for k := 0 to |textNodes|
      invariant |replacements| == k
      invariant forall j :: 0 <= j < k ==>
                  && Collectable(root, textNodes[j], false)
                  && replacements[j] == Format(Split(At(root, textNodes[j]).data), 1)
                  && Texts(replacements[j]) == At(root, textNodes[j]).data
                  && Shaped(replacements[j])
    {
      assert textNodes[k] in textNodes;
      var replacement := FormatText(At(root, textNodes[k]).data);
      replacements := replacements + [replacement];
    }
  }
}
