/**
 * The text chunker `DocumentProcessor._split_text` and the file-type filter
 * of `process_directory` (core/document_processor.py).
 *
 * The chunker walks a cursor `start` through the text. While the rest of the
 * text is longer than `chunk_size` it picks a split point in the window
 * `[start + chunk_size / 2, start + chunk_size)`: after the first blank line,
 * else after the latest of the six sentence endings' first occurrences, else
 * after the last space, else at the window's end. It emits the stripped piece
 * `text[start:split]` when that is not empty and moves the cursor back by the
 * overlap. The rest of the text, once short enough, is the last chunk, as is.
 */
module DocumentProcessor {
  import opened Wrappers
  import opened PyStr

  /** The sentence endings searched for, in the source's order, as pairs of characters. */
  const SentencePatterns: seq<(char, char)> := [('.', ' '), ('?', ' '), ('!', ' '), ('.', '\n'), ('?', '\n'), ('!', '\n')]

  /** `text.find(p, lo, hi)` for the `k`-th sentence ending `p`. */
  function FindSentence(text: string, k: nat, lo: int, hi: int): int
    requires k < |SentencePatterns| && 0 <= lo && hi <= |text|
  {
    FindPair(text, SentencePatterns[k].0, SentencePatterns[k].1, lo, hi)
  }

  /** `max(a, b)`. */
  function Max(a: int, b: int): int {
    if a >= b then a else b
  }

  /** The greatest element of `xs`, or -1 for no elements. */
  function MaxOf(xs: seq<int>): (m: int)
    ensures m >= -1
    ensures forall i :: 0 <= i < |xs| ==> xs[i] <= m
    ensures m == -1 || exists i :: 0 <= i < |xs| && xs[i] == m
  {
    if xs == [] then -1 else Max(MaxOf(xs[..|xs| - 1]), xs[|xs| - 1])
  }

  /** The six results of `text.find(p, lo, hi)`, in the patterns' order. */
  function SentenceFinds(text: string, lo: int, hi: int): (finds: seq<int>)
    requires 0 <= lo && hi <= |text|
    ensures |finds| == |SentencePatterns|
    ensures forall k :: 0 <= k < |SentencePatterns| ==> finds[k] == FindSentence(text, k, lo, hi)
  {
    seq(|SentencePatterns|, k requires 0 <= k < |SentencePatterns| => FindSentence(text, k, lo, hi))
  }

  /**
   * `max(e for e in [text.find(p, lo, hi) for p in patterns] if e != -1)`,
   * or -1 when no pattern occurs: the latest of the six patterns' FIRST
   * occurrences. Since `find` never returns less than -1, this is the plain
   * maximum of the six results.
   */
  function SentenceEnd(text: string, lo: int, hi: int): (r: int)
    requires 0 <= lo && hi <= |text|
    ensures r == -1 <==> forall k :: 0 <= k < |SentencePatterns| ==> FindSentence(text, k, lo, hi) == -1
    ensures r != -1 ==> lo <= r && r + 2 <= hi && exists k :: 0 <= k < |SentencePatterns| && FindSentence(text, k, lo, hi) == r
    ensures r != -1 ==> SentenceMark(text[r]) && (text[r + 1] == ' ' || text[r + 1] == '\n')
    ensures forall k :: 0 <= k < |SentencePatterns| ==> FindSentence(text, k, lo, hi) <= r
  {
    var finds := SentenceFinds(text, lo, hi);
    var r := MaxOf(finds);
    PatternsAreSentenceEnds();
    r
  }

  /** Every sentence ending is a punctuation mark followed by a space or a line break. */
  lemma PatternsAreSentenceEnds()
    ensures forall k :: 0 <= k < |SentencePatterns| ==>
      SentenceMark(SentencePatterns[k].0) && (SentencePatterns[k].1 == ' ' || SentencePatterns[k].1 == '\n')
  {
    forall k | 0 <= k < |SentencePatterns|
      ensures SentenceMark(SentencePatterns[k].0) && (SentencePatterns[k].1 == ' ' || SentencePatterns[k].1 == '\n')
    {
      if k == 0 {} else if k == 1 {} else if k == 2 {} else if k == 3 {} else if k == 4 {} else {}
    }
  }

  /** The punctuation that ends a sentence. */
  predicate SentenceMark(c: char) {
    c == '.' || c == '?' || c == '!'
  }

  /**
   * The split point chosen for a cursor `start` whose window ends before the
   * end of the text: lines 553-575 of the source.
   */
  function SplitPoint(text: string, start: nat, size: nat): (split: nat)
    requires 1 <= size && start + size < |text|
    ensures start + size / 2 + 1 <= split <= start + size
  {
    var lo, end := start + size / 2, start + size;
    var paragraphEnd := FindPair(text, '\n', '\n', lo, end);
    if paragraphEnd != -1 then paragraphEnd + 2
    else
      var sentenceEnd := SentenceEnd(text, lo, end);
      if sentenceEnd != -1 then sentenceEnd + 1
      else
        var space := RFind(text, ' ', lo, end);
        if space != -1 then space + 1 else end
  }

  /** A blank line in the window wins: the chunk ends just after the first one. */
  lemma SplitAtParagraph(text: string, start: nat, size: nat)
    requires 1 <= size && start + size < |text|
    requires FindPair(text, '\n', '\n', start + size / 2, start + size) != -1
    ensures var split := SplitPoint(text, start, size);
      && text[split - 2] == '\n' && text[split - 1] == '\n'
      && forall i :: start + size / 2 <= i < split - 2 ==> !PairAt(text, '\n', '\n', i)
  {
  }

  /**
   * Without a blank line, a sentence end in the window wins: the chunk ends
   * just after the punctuation of the latest of the six endings' first
   * occurrences.
   */
  lemma SplitAtSentence(text: string, start: nat, size: nat)
    requires 1 <= size && start + size < |text|
    requires FindPair(text, '\n', '\n', start + size / 2, start + size) == -1
    requires SentenceEnd(text, start + size / 2, start + size) != -1
    ensures SplitPoint(text, start, size) == SentenceEnd(text, start + size / 2, start + size) + 1
  {
  }

  /** Such a chunk ends with `.`, `?` or `!`, and the text goes on with a space or a line break. */
  lemma SentenceSplitEndsSentence(text: string, start: nat, size: nat)
    requires 1 <= size && start + size < |text|
    requires FindPair(text, '\n', '\n', start + size / 2, start + size) == -1
    requires SentenceEnd(text, start + size / 2, start + size) != -1
    ensures var split := SplitPoint(text, start, size);
      SentenceMark(text[split - 1]) && (text[split] == ' ' || text[split] == '\n')
  {
    SplitAtSentence(text, start, size);
  }

  /** Without a blank line or a sentence end, the chunk ends just after the last space in the window. */
  lemma SplitAtSpace(text: string, start: nat, size: nat)
    requires 1 <= size && start + size < |text|
    requires FindPair(text, '\n', '\n', start + size / 2, start + size) == -1
    requires SentenceEnd(text, start + size / 2, start + size) == -1
    requires exists i :: start + size / 2 <= i < start + size && text[i] == ' '
    ensures var split := SplitPoint(text, start, size);
      text[split - 1] == ' ' && forall i :: split <= i < start + size ==> text[i] != ' '
  {
  }

  /** With no boundary at all, the chunk is cut at exactly `size` characters. */
  lemma SplitHard(text: string, start: nat, size: nat)
    requires 1 <= size && start + size < |text|
    requires FindPair(text, '\n', '\n', start + size / 2, start + size) == -1
    requires SentenceEnd(text, start + size / 2, start + size) == -1
    requires forall i :: start + size / 2 <= i < start + size ==> text[i] != ' '
    ensures SplitPoint(text, start, size) == start + size
  {
  }

  /**
   * The split point is not the end of the last sentence in the window: in
   * "abcdef. x. yyyyyyy" with size 12 the window [6, 12) holds ". " at 6 and
   * 9 and no other ending; the first ". " wins and the chunk stops at offset
   * 7 although a later sentence end exists.
   */
  lemma SentenceSplitUsesFirstOccurrences()
    ensures SplitPoint("abcdef. x. yyyyyyy", 0, 12) == 7
  {
    TwoSentenceEnds();
    SplitAtSentence("abcdef. x. yyyyyyy", 0, 12);
  }

  /** In "abcdef. x. yyyyyyy" the window [6, 12) has no blank line and its first sentence ending is the ". " at 6. */
  lemma TwoSentenceEnds()
    ensures FindPair("abcdef. x. yyyyyyy", '\n', '\n', 6, 12) == -1
    ensures SentenceEnd("abcdef. x. yyyyyyy", 6, 12) == 6
    ensures PairAt("abcdef. x. yyyyyyy", '.', ' ', 9)
  {
    var t := "abcdef. x. yyyyyyy";
    assert FindPair(t, '\n', '\n', 6, 12) == -1;
    assert FindSentence(t, 0, 6, 12) == 6;
    assert FindSentence(t, 1, 6, 12) == -1;
    assert FindSentence(t, 2, 6, 12) == -1;
    assert FindSentence(t, 3, 6, 12) == -1;
    assert FindSentence(t, 4, 6, 12) == -1;
    assert FindSentence(t, 5, 6, 12) == -1;
  }

  /** `min(a, b)`. */
  function Min(a: int, b: int): int {
    if a <= b then a else b
  }

  /**
   * The next cursor exactly as lines 583-590 compute it: back by the overlap,
   * with two clamps that only fire when the overlap reaches `size`.
   */
  function NextStartAsWritten(split: int, size: nat, overlap: nat): int {
    var next := split - overlap;
    var next' := if next < split - size then split - Min(overlap, size / 2) else next;
    if next' <= split - size then split else next'
  }

  /**
   * What the two clamps amount to: back by the overlap when it is below the
   * chunk size, no overlap at all when it equals the chunk size, and back by
   * half the chunk size when it is larger.
   */
  lemma NextStartAsWrittenCases(split: int, size: nat, overlap: nat)
    ensures overlap < size ==> NextStartAsWritten(split, size, overlap) == split - overlap
    ensures overlap == size ==> NextStartAsWritten(split, size, overlap) == split
    ensures overlap > size ==> NextStartAsWritten(split, size, overlap) == split - size / 2
  {
  }

  /**
   * When the overlap is at most half the chunk size (or at least the whole
   * chunk size) the source's cursor step always moves forward.
   */
  lemma AsWrittenAdvances(start: nat, split: nat, size: nat, overlap: nat)
    requires 1 <= size
    requires start + size / 2 + 1 <= split <= start + size
    requires overlap <= size / 2 || size <= overlap
    ensures NextStartAsWritten(split, size, overlap) > start
    ensures overlap <= size / 2 ==> NextStartAsWritten(split, size, overlap) == split - overlap
  {
  }

  /**
   * As written, the cursor can fall back to where it was: with size 10,
   * overlap 8 and a ". " at offset 7, the split point is 8, the piece before
   * it is not blank (so it is emitted) and the next cursor is 0 again, so the
   * source loops forever emitting the same chunk.
   */
  lemma AsWrittenStalls()
    ensures SplitPoint("aaaaaaa. aaaaa", 0, 10) == 8
    ensures Strip("aaaaaaa. aaaaa"[0..8]) != []
    ensures NextStartAsWritten(8, 10, 8) == 0
  {
    OneSentenceEnd();
    SplitAtSentence("aaaaaaa. aaaaa", 0, 10);
    assert "aaaaaaa. aaaaa"[0..8][0] == 'a';
  }

  /**
   * With `chunk_size` 0 the window `[start, start)` is empty: no blank line,
   * no sentence end and no space is found, so the split point is `end`, which
   * is `start`; the piece is empty and the step returns `start` whatever the
   * overlap, so the source loops forever without emitting anything.
   */
  lemma ZeroSizeStalls(text: string, start: nat, overlap: nat)
    requires start < |text|
    ensures FindPair(text, '\n', '\n', start, start) == -1
    ensures SentenceEnd(text, start, start) == -1
    ensures RFind(text, ' ', start, start) == -1
    ensures Strip(text[start..start]) == []
    ensures NextStartAsWritten(start, 0, overlap) == start
  {
  }

  /** In "aaaaaaa. aaaaa" the window [5, 10) has no blank line and one sentence ending, the ". " at 7. */
  lemma OneSentenceEnd()
    ensures FindPair("aaaaaaa. aaaaa", '\n', '\n', 5, 10) == -1
    ensures SentenceEnd("aaaaaaa. aaaaa", 5, 10) == 7
  {
    var t := "aaaaaaa. aaaaa";
    assert FindPair(t, '\n', '\n', 5, 10) == -1;
    assert FindSentence(t, 0, 5, 10) == 7;
    assert FindSentence(t, 1, 5, 10) == -1;
    assert FindSentence(t, 2, 5, 10) == -1;
    assert FindSentence(t, 3, 5, 10) == -1;
    assert FindSentence(t, 4, 5, 10) == -1;
    assert FindSentence(t, 5, 5, 10) == -1;
  }

  /**
   * The cursor step the model uses: the source's step, except that a step
   * which would not move the cursor forward jumps to the split point instead.
   * It equals the source's step whenever that one moves forward.
   */
  function NextStart(start: nat, split: nat, size: nat, overlap: nat): (next: nat)
    requires start < split
    ensures start < next <= split
    ensures NextStartAsWritten(split, size, overlap) > start ==> next == NextStartAsWritten(split, size, overlap)
  {
    var next := NextStartAsWritten(split, size, overlap);
    if next <= start then split else next
  }

  /**
   * The cursors the loop visits from `start` on: each one but the last has
   * more than `size` characters after it, is followed by a later cursor that
   * is not past its split point, and the last one leaves at most `size`
   * characters.
   */
  function Cursors(text: string, start: nat, size: nat, overlap: nat): (cs: seq<nat>)
    requires 1 <= size && start < |text|
    decreases |text| - start
    ensures cs != [] && cs[0] == start
    ensures forall k :: 0 <= k < |cs| ==> start <= cs[k] < |text|
    ensures forall k :: 0 <= k < |cs| - 1 ==>
      cs[k] + size < |text| && cs[k] < cs[k + 1] <= SplitPoint(text, cs[k], size)
    ensures cs[|cs| - 1] + size >= |text|
  {
    if start + size >= |text| then [start]
    else [start] + Cursors(text, NextStart(start, SplitPoint(text, start, size), size, overlap), size, overlap)
  }

  /**
   * The chunks a run of cursors yields: for every cursor but the last, the
   * stripped piece up to its split point unless it is blank; then the whole
   * rest of the text from the last cursor.
   */
  function Pieces(text: string, cs: seq<nat>, size: nat): seq<string>
    requires 1 <= size && cs != []
    requires forall k :: 0 <= k < |cs| ==> cs[k] < |text|
    requires forall k :: 0 <= k < |cs| - 1 ==> cs[k] + size < |text|
  {
    if |cs| == 1 then [text[cs[0]..]]
    else
      var piece := Strip(text[cs[0]..SplitPoint(text, cs[0], size)]);
      (if piece == [] then [] else [piece]) + Pieces(text, cs[1..], size)
  }

  /**
   * The chunks produced from cursor `start` onwards: the loop of lines 541-590,
   * one iteration per call.
   */
  function ChunksFrom(text: string, start: nat, size: nat, overlap: nat): (chunks: seq<string>)
    requires 1 <= size
    decreases |text| - start
    ensures start < |text| ==> chunks != [] && |chunks[|chunks| - 1]| <= |text| - start
    ensures forall i :: 0 <= i < |chunks| ==> 0 < |chunks[i]| <= size
  {
    if start >= |text| then []
    else if start + size >= |text| then [text[start..]]
    else
      var split := SplitPoint(text, start, size);
      var piece := Strip(text[start..split]);
      (if piece == [] then [] else [piece]) + ChunksFrom(text, NextStart(start, split, size, overlap), size, overlap)
  }

  /**
   * What the chunks are: the non-blank stripped pieces between each cursor
   * and its split point, in cursor order, then the rest of the text from the
   * last cursor. Consecutive pieces leave no gap, since each cursor is at
   * most the previous split point.
   */
  lemma {:induction false} ChunksFromPieces(text: string, start: nat, size: nat, overlap: nat)
    requires 1 <= size && start < |text|
    decreases |text| - start
    ensures ChunksFrom(text, start, size, overlap) == Pieces(text, Cursors(text, start, size, overlap), size)
  {
    if start + size < |text| {
      var split := SplitPoint(text, start, size);
      var next := NextStart(start, split, size, overlap);
      var cs := Cursors(text, start, size, overlap);
      assert cs == [start] + Cursors(text, next, size, overlap);
      assert cs[1..] == Cursors(text, next, size, overlap);
      ChunksFromPieces(text, next, size, overlap);
    }
  }

  /**
   * Slices `[cs[k], ps[k])` whose next start `cs[k + 1]` is never past the
   * previous end `ps[k]` cover everything from `cs[0]` up to the last start.
   */
  lemma {:induction false} SlicesCover(cs: seq<nat>, ps: seq<nat>, i: nat)
    requires |cs| == |ps| + 1 && cs[0] <= i
    requires Chained(cs, ps)
    decreases |ps|
    ensures cs[|cs| - 1] <= i || exists k :: 0 <= k < |ps| && cs[k] <= i < ps[k]
  {
    if ps != [] && cs[|cs| - 1] > i {
      if cs[1] > i {
        assert cs[0] <= i < ps[0];
      } else {
        SlicesCover(cs[1..], ps[1..], i);
        var k :| 0 <= k < |ps| - 1 && cs[1..][k] <= i < ps[1..][k];
        assert cs[k + 1] <= i < ps[k + 1];
      }
    }
  }

  /** Each start `cs[k + 1]` is at most the previous end `ps[k]`. */
  predicate Chained(cs: seq<nat>, ps: seq<nat>)
    requires |cs| == |ps| + 1
  {
    forall k :: 0 <= k < |ps| ==> cs[k + 1] <= ps[k]
  }

  /** The split point of each cursor but the last. */
  function SplitsOf(text: string, cs: seq<nat>, size: nat): (ps: seq<nat>)
    requires 1 <= size && cs != []
    requires forall k :: 0 <= k < |cs| - 1 ==> cs[k] + size < |text|
    ensures |ps| == |cs| - 1
    ensures forall k :: 0 <= k < |ps| ==> ps[k] == SplitPoint(text, cs[k], size)
  {
    seq(|cs| - 1, k requires 0 <= k < |cs| - 1 => SplitPoint(text, cs[k], size))
  }

  /**
   * The slices leave no gap: every position from `start` on lies between a
   * cursor and its split point, or in the rest after the last cursor.
   */
  lemma CursorsCover(text: string, start: nat, size: nat, overlap: nat, i: nat)
    requires 1 <= size && start <= i < |text|
    ensures var cs := Cursors(text, start, size, overlap);
      var ps := SplitsOf(text, cs, size);
      cs[|cs| - 1] <= i || exists k :: 0 <= k < |ps| && cs[k] <= i < ps[k]
  {
    var cs := Cursors(text, start, size, overlap);
    var ps := SplitsOf(text, cs, size);
    assert Chained(cs, ps) by { CursorsChained(text, start, size, overlap); }
    SlicesCover(cs, ps, i);
  }

  /** Each cursor after the first is at most the previous cursor's split point. */
  lemma CursorsChained(text: string, start: nat, size: nat, overlap: nat)
    requires 1 <= size && start < |text|
    ensures var cs := Cursors(text, start, size, overlap); Chained(cs, SplitsOf(text, cs, size))
  {
  }

  /**
   * No character that is not whitespace is lost: one before the last cursor
   * lies in a slice whose stripped piece is not blank, so that piece is a chunk.
   */
  lemma TextCovered(text: string, start: nat, size: nat, overlap: nat, i: nat)
    requires 1 <= size && start <= i < |text| && !IsSpace(text[i])
    ensures var cs := Cursors(text, start, size, overlap);
      var ps := SplitsOf(text, cs, size);
      || cs[|cs| - 1] <= i
      || exists k :: 0 <= k < |ps| && cs[k] <= i < ps[k] && Strip(text[cs[k]..ps[k]]) != []
  {
    var cs := Cursors(text, start, size, overlap);
    var ps := SplitsOf(text, cs, size);
    CursorsCover(text, start, size, overlap, i);
    forall k | 0 <= k < |ps| && cs[k] <= i < ps[k] ensures Strip(text[cs[k]..ps[k]]) != [] {
      NotBlankSlice(text, cs[k], ps[k], i);
    }
  }

  /** A slice holding a character that is not whitespace does not strip to nothing. */
  lemma NotBlankSlice(text: string, lo: nat, hi: nat, i: nat)
    requires lo <= i < hi <= |text| && !IsSpace(text[i])
    ensures Strip(text[lo..hi]) != []
  {
    assert text[lo..hi][i - lo] == text[i];
  }

  /**
   * The last chunk is the rest of the text from the final cursor, unstripped:
   * nothing after it is lost.
   */
  lemma {:induction false} LastChunkIsSuffix(text: string, start: nat, size: nat, overlap: nat)
    requires 1 <= size && start < |text|
    decreases |text| - start
    ensures var chunks := ChunksFrom(text, start, size, overlap);
      chunks[|chunks| - 1] == text[|text| - |chunks[|chunks| - 1]|..]
  {
    if start + size < |text| {
      var split := SplitPoint(text, start, size);
      var chunk := Strip(text[start..split]);
      var next := NextStart(start, split, size, overlap);
      var rest := ChunksFrom(text, next, size, overlap);
      assert ChunksFrom(text, start, size, overlap) == (if chunk == [] then [] else [chunk]) + rest;
      LastChunkIsSuffix(text, next, size, overlap);
    }
  }

  /** `_split_text(text)` with the processor's `chunk_size` and `chunk_overlap`. */
  function SplitTextSpec(text: string, size: nat, overlap: nat): (chunks: seq<string>)
    requires 1 <= size
    ensures chunks == [] <==> IsBlank(text)
    ensures !IsBlank(text) && |text| <= size ==> chunks == [text]
    ensures forall i :: 0 <= i < |chunks| ==> 0 < |chunks[i]| <= size
    ensures !IsBlank(text) ==> chunks != []
    ensures !IsBlank(text) && |text| > size ==> chunks == Pieces(text, Cursors(text, 0, size, overlap), size)
  {
    if Strip(text) == [] then []
    else if |text| <= size then [text]
    else ChunksFromPieces(text, 0, size, overlap); ChunksFrom(text, 0, size, overlap)
  }

  /** `_split_text`: the two early returns, then the chunking loop. */
  method SplitText(text: string, size: nat, overlap: nat) returns (chunks: seq<string>)
    requires 1 <= size
    ensures chunks == SplitTextSpec(text, size, overlap)
  {
    if Strip(text) == [] {
      return [];
    }
    if |text| <= size {
      return [text];
    }
    chunks := ChunkLoop(text, size, overlap);
  }

  /** The loop of lines 541-590: one chunk per cursor, then the rest of the text. */
  method ChunkLoop(text: string, size: nat, overlap: nat) returns (chunks: seq<string>)
    requires 1 <= size
    ensures chunks == ChunksFrom(text, 0, size, overlap)
  {
    chunks := [];
    var start: nat := 0;
    while start < |text|
      invariant chunks + ChunksFrom(text, start, size, overlap) == ChunksFrom(text, 0, size, overlap)
      decreases |text| - start
    {
      var end := start + size;
      if end >= |text| {
        chunks := chunks + [text[start..]];
        break;
      }
      var split := SplitPoint(text, start, size);
      var chunk := Strip(text[start..split]);
      var next := NextStart(start, split, size, overlap);
      ghost var rest := ChunksFrom(text, next, size, overlap);
      assert ChunksFrom(text, start, size, overlap) == (if chunk == [] then [] else [chunk]) + rest;
      if chunk != [] {
        ConcatAssoc(chunks, [chunk], rest);
        chunks := chunks + [chunk];
      } else {
        assert [] + rest == rest;
      }
      start := next;
    }
  }

  /** Concatenation regroups freely. */
  lemma ConcatAssoc(a: seq<string>, b: seq<string>, c: seq<string>)
    ensures a + (b + c) == (a + b) + c
  {
  }

  /** The file types `process_directory` accepts. */
  const SupportedTypes: seq<string> := [".pdf", ".docx", ".txt", ".md", ".eml"]

  /** One requested extension, lower-cased and given a leading dot if it has none. */
  function NormalizeExtension(ext: string): (r: string)
    ensures r != [] && r[0] == '.'
    ensures |ext| > 0 && ext[0] == '.' ==> r == Lower(ext)
    ensures !(|ext| > 0 && ext[0] == '.') ==> r[1..] == Lower(ext)
  {
    if |ext| > 0 && ext[0] == '.' then Lower(ext) else "." + Lower(ext)
  }

  /** `[ext for ext in xs if ext in supported_types]`. */
  function KeepSupported(xs: seq<string>): (r: seq<string>)
    ensures |r| <= |xs|
    ensures forall e :: e in r <==> e in xs && e in SupportedTypes
  {
    if xs == [] then []
    else (if xs[0] in SupportedTypes then [xs[0]] else []) + KeepSupported(xs[1..])
  }

  /** `[normalize(ext) for ext in xs]`, in the order given. */
  function NormalizeAll(xs: seq<string>): (r: seq<string>)
    ensures |r| == |xs|
    ensures forall i :: 0 <= i < |xs| ==> r[i] == NormalizeExtension(xs[i])
  {
    seq(|xs|, i requires 0 <= i < |xs| => NormalizeExtension(xs[i]))
  }

  /**
   * Requesting `xs` then `ys` selects the types `xs` selects followed by
   * those `ys` selects: the selection keeps the order and the repetitions of
   * the request.
   */
  lemma SelectFileTypesAppend(xs: seq<string>, ys: seq<string>)
    requires xs != [] && ys != []
    ensures SelectFileTypes(Some(xs + ys)) == SelectFileTypes(Some(xs)) + SelectFileTypes(Some(ys))
  {
    assert NormalizeAll(xs + ys) == NormalizeAll(xs) + NormalizeAll(ys);
    KeepSupportedAppend(NormalizeAll(xs), NormalizeAll(ys));
  }

  /** A single requested extension selects its normalised form when that is supported, else nothing. */
  lemma SelectFileTypesOne(x: string)
    ensures SelectFileTypes(Some([x])) == if NormalizeExtension(x) in SupportedTypes then [NormalizeExtension(x)] else []
  {
    assert NormalizeAll([x]) == [NormalizeExtension(x)];
    assert NormalizeAll([x])[1..] == [];
  }

  /** Filtering keeps the input order: it distributes over concatenation. */
  lemma {:induction false} KeepSupportedAppend(xs: seq<string>, ys: seq<string>)
    ensures KeepSupported(xs + ys) == KeepSupported(xs) + KeepSupported(ys)
  {
    if xs != [] {
      assert (xs + ys)[1..] == xs[1..] + ys;
      KeepSupportedAppend(xs[1..], ys);
    } else {
      assert xs + ys == ys;
    }
  }

  /**
   * The file types `process_directory` will look for (lines 171-179): every
   * supported type when the argument is `None` or empty, otherwise the
   * normalised requested types that are supported, in the order given.
   */
  function SelectFileTypes(fileTypes: Option<seq<string>>): (r: seq<string>)
    ensures fileTypes == None || fileTypes == Some([]) ==> r == SupportedTypes
    ensures forall e :: e in r ==> e in SupportedTypes
    ensures fileTypes.Some? && fileTypes.value != [] ==>
      forall e :: e in r <==> e in SupportedTypes && exists i :: 0 <= i < |fileTypes.value| && NormalizeExtension(fileTypes.value[i]) == e
    ensures fileTypes.Some? && fileTypes.value != [] ==> r == KeepSupported(NormalizeAll(fileTypes.value))
  {
    match fileTypes
    case Some(xs) =>
      if xs != [] then
        var normalized := NormalizeAll(xs);
        assert forall e :: e in normalized <==> exists i :: 0 <= i < |xs| && NormalizeExtension(xs[i]) == e by {
          forall e ensures e in normalized <==> exists i :: 0 <= i < |xs| && NormalizeExtension(xs[i]) == e {
            if e in normalized {
              var i :| 0 <= i < |normalized| && normalized[i] == e;
            }
            if exists i :: 0 <= i < |xs| && NormalizeExtension(xs[i]) == e {
              var i :| 0 <= i < |xs| && NormalizeExtension(xs[i]) == e;
              assert normalized[i] == e;
            }
          }
        }
        KeepSupported(normalized)
      else SupportedTypes
    case None => SupportedTypes
  }
}
