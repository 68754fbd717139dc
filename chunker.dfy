/**
 * `chunkText` (src/lib/document-utils.ts:37-69): paragraphs are packed into a buffer,
 * joined by single spaces; when the next paragraph would take the buffer past 1000
 * code units the trimmed buffer is pushed as a chunk and a new buffer starts with the
 * last 20 space-separated words of the old one. The trimmed remainder is pushed last.
 *
 * `Accumulate` is the loop's state after a prefix of the paragraphs; the method
 * `ChunkText` runs the loop and is proved to end in that state.
 */
module Chunker {
  import opened Wrappers
  import opened JsString
  import opened ParagraphSplit

  const ChunkSize: nat := 1000
  const Overlap: nat := 200
  /** `overlap / 10`: how many trailing words of a closed buffer seed the next one. */
  const OverlapWords: nat := Overlap / 10

  /** The loop's variables: the chunks pushed so far and the buffer being filled. */
  datatype ChunkState = ChunkState(chunks: seq<string>, current: string)

  /** The test at line 49: adding `paragraph` would take `current` past the chunk size. */
  predicate Flushes(current: string, paragraph: string) {
    JsLength(current) + JsLength(paragraph) > ChunkSize
  }

  /** Index of the first of the last `OverlapWords` words: `Math.max(0, words.length - overlap / 10)`. */
  function OverlapStart(wordCount: nat): (r: nat)
  {
    if wordCount > OverlapWords then wordCount - OverlapWords else 0
  }

  /** `words.slice(...).join(' ')` for `words = buffer.split(' ')` (lines 54-55). */
  function OverlapText(buffer: string): string {
    var words := Split(buffer, ' ');
    Join(words[OverlapStart(|words|)..], " ")
  }

  /**
   * One iteration of the loop at lines 47-61: the chunks only grow, by the trimmed old
   * buffer exactly when the test at line 49 fires, and the new buffer ends with the paragraph.
   */
  function Step(st: ChunkState, paragraph: string): (r: ChunkState)
    ensures st.chunks <= r.chunks && |r.chunks| <= |st.chunks| + 1
    ensures |r.chunks| == |st.chunks| + 1 <==> Flushes(st.current, paragraph)
  {
    if Flushes(st.current, paragraph) then
      ChunkState(st.chunks + [Trim(st.current)], OverlapText(st.current) + " " + paragraph)
    else
      ChunkState(st.chunks, st.current + (if st.current != "" then " " else "") + paragraph)
  }

  /** The loop's state after the paragraphs `ps`, starting from no chunks and an empty buffer. */
  function Accumulate(ps: seq<string>): ChunkState {
    if ps == [] then ChunkState([], "")
    else Step(Accumulate(ps[..|ps| - 1]), ps[|ps| - 1])
  }

  /** Lines 63-65: the trimmed buffer is pushed, as a non-empty chunk, exactly when it is not all whitespace. */
  function Finish(st: ChunkState): (r: seq<string>)
    ensures st.chunks <= r && |r| <= |st.chunks| + 1
    ensures |r| == |st.chunks| + 1 <==> !IsBlank(st.current)
    ensures |r| == |st.chunks| + 1 ==> r[|st.chunks|] == Trim(st.current) && r[|st.chunks|] != ""
  {
    var last := Trim(st.current);
    if last != "" then st.chunks + [last] else st.chunks
  }

  /** The chunks `chunkText` returns for the paragraphs `ps`. */
  function ChunkParagraphs(ps: seq<string>): (r: seq<string>)
    ensures |r| <= |ps| + 1
    ensures forall k :: 0 <= k < |r| ==> IsTrimmed(r[k])
  {
    AccumulateChunksTrimmed(ps);
    Finish(Accumulate(ps))
  }

  /** The paragraphs with the leading empty ones dropped. */
  function DropLeadingEmpty(ps: seq<string>): (r: seq<string>)
    ensures r == [] || r[0] != ""
  {
    if ps == [] then []
    else if ps[0] == "" then DropLeadingEmpty(ps[1..])
    else ps
  }

  /** The buffer the append branch builds: the paragraphs joined by single spaces, where
      empty paragraphs met while the buffer is still empty add no separator. */
  function SpaceJoin(ps: seq<string>): string {
    Join(DropLeadingEmpty(ps), " ")
  }

  /** The index of the paragraph at which the buffer was last flushed, if any. */
  ghost function LastFlush(ps: seq<string>): (r: Option<nat>)
    ensures r.Some? ==> r.value < |ps|
  {
    if ps == [] then None
    else if Flushes(Accumulate(ps[..|ps| - 1]).current, ps[|ps| - 1]) then Some(|ps| - 1)
    else LastFlush(ps[..|ps| - 1])
  }

  method ChunkText(text: string) returns (chunks: seq<string>)
    ensures chunks == ChunkParagraphs(Paragraphs(text))
    ensures |chunks| <= |Paragraphs(text)| + 1
    ensures forall k :: 0 <= k < |chunks| ==> IsTrimmed(chunks[k])
  {
    var paragraphs := Paragraphs(text);
    chunks := [];
    var currentChunk := "";
    for i := 0 to |paragraphs|
      invariant ChunkState(chunks, currentChunk) == Accumulate(paragraphs[..i])
    {
      var paragraph := paragraphs[i];
      assert paragraphs[..i + 1][..i] == paragraphs[..i];
      if JsLength(currentChunk) + JsLength(paragraph) > ChunkSize {
        chunks := chunks + [Trim(currentChunk)];
        var words := Split(currentChunk, ' ');
        var overlapText := Join(words[OverlapStart(|words|)..], " ");
        currentChunk := overlapText + " " + paragraph;
      } else {
        currentChunk := currentChunk + (if currentChunk != "" then " " else "") + paragraph;
      }
    }
    assert paragraphs[..|paragraphs|] == paragraphs;
    var last := Trim(currentChunk);
    if last != "" {
      chunks := chunks + [last];
    }
    ChunksShape(paragraphs);
  }

  // ---------------------------------------------------------------- shape of the result

  /** Both push sites trim, and each iteration pushes at most once. */
  lemma {:induction false} AccumulateChunksTrimmed(ps: seq<string>)
    ensures |Accumulate(ps).chunks| <= |ps|
    ensures forall k :: 0 <= k < |Accumulate(ps).chunks| ==> IsTrimmed(Accumulate(ps).chunks[k])
  {
    if ps != [] {
      AccumulateChunksTrimmed(ps[..|ps| - 1]);
    }
  }

  /** Every chunk equals its own `trim()`, and there is at most one chunk more than paragraphs. */
  lemma ChunksShape(ps: seq<string>)
    ensures |ChunkParagraphs(ps)| <= |ps| + 1
    ensures forall k :: 0 <= k < |ChunkParagraphs(ps)| ==> IsTrimmed(ChunkParagraphs(ps)[k])
    ensures forall k :: 0 <= k < |ChunkParagraphs(ps)| ==> Trim(ChunkParagraphs(ps)[k]) == ChunkParagraphs(ps)[k]
  {
    AccumulateChunksTrimmed(ps);
    forall k | 0 <= k < |ChunkParagraphs(ps)|
      ensures Trim(ChunkParagraphs(ps)[k]) == ChunkParagraphs(ps)[k]
    {
      TrimOfTrimmed(ChunkParagraphs(ps)[k]);
    }
  }

  /** A pushed chunk is never changed: the chunks after a prefix of the paragraphs begin the result. */
  lemma {:induction false} ChunksGrow(ps: seq<string>, n: nat)
    requires n <= |ps|
    ensures Accumulate(ps[..n]).chunks <= Accumulate(ps).chunks
    ensures Accumulate(ps).chunks <= ChunkParagraphs(ps)
    decreases |ps| - n
  {
    if n < |ps| {
      var init := ps[..|ps| - 1];
      ChunksGrow(init, n);
      assert init[..n] == ps[..n];
      StepKeepsChunks(Accumulate(init), ps[|ps| - 1]);
    } else {
      assert ps[..n] == ps;
    }
    FinishKeepsChunks(Accumulate(ps));
  }

  lemma StepKeepsChunks(st: ChunkState, p: string)
    ensures st.chunks <= Step(st, p).chunks
  {
  }

  lemma FinishKeepsChunks(st: ChunkState)
    ensures st.chunks <= Finish(st)
  {
  }

  /** The last chunk is the trimmed final buffer whenever that buffer is not all whitespace. */
  lemma LastChunkIsFinalBuffer(ps: seq<string>)
    requires !IsBlank(Accumulate(ps).current)
    ensures |ChunkParagraphs(ps)| >= 1
    ensures ChunkParagraphs(ps)[|ChunkParagraphs(ps)| - 1] == Trim(Accumulate(ps).current)
    ensures ChunkParagraphs(ps)[|ChunkParagraphs(ps)| - 1] != ""
  {
  }

  // ---------------------------------------------------------------- the buffer

  lemma {:induction false} DropLeadingEmptySnoc(ps: seq<string>, p: string)
    ensures DropLeadingEmpty(ps) == [] ==> DropLeadingEmpty(ps + [p]) == (if p == "" then [] else [p])
    ensures DropLeadingEmpty(ps) != [] ==> DropLeadingEmpty(ps + [p]) == DropLeadingEmpty(ps) + [p]
  {
    if ps != [] {
      assert (ps + [p])[1..] == ps[1..] + [p];
      if ps[0] == "" {
        DropLeadingEmptySnoc(ps[1..], p);
      }
    } else {
      assert ps + [p] == [p];
    }
  }

  /** Adding a paragraph to `SpaceJoin` is what the append branch does to the buffer. */
  lemma SpaceJoinSnoc(ps: seq<string>, p: string)
    ensures SpaceJoin(ps + [p]) == SpaceJoin(ps) + (if SpaceJoin(ps) != "" then " " else "") + p
  {
    DropLeadingEmptySnoc(ps, p);
    var d := DropLeadingEmpty(ps);
    if d != [] {
      JoinSnoc(d, " ", p);
      assert |Join(d, " ")| >= |d[0]| > 0;
    }
  }

  /**
   * Paragraph order is preserved in the buffer: until the first flush the buffer is the
   * space-join of the paragraphs; after the flush at paragraph `i` it is the overlap taken
   * from the buffer closed there, a space, and paragraphs `i..` joined by single spaces.
   */
  lemma {:induction false} BufferLayout(ps: seq<string>)
    ensures LastFlush(ps).None? ==> Accumulate(ps) == ChunkState([], SpaceJoin(ps))
    ensures LastFlush(ps).Some? ==>
      var i := LastFlush(ps).value;
      Accumulate(ps).current == OverlapText(Accumulate(ps[..i]).current) + " " + Join(ps[i..], " ")
  {
    if ps != [] {
      var init, p := ps[..|ps| - 1], ps[|ps| - 1];
      assert ps == init + [p];
      BufferLayout(init);
      if Flushes(Accumulate(init).current, p) {
        BufferLayoutFlush(init, p);
      } else if LastFlush(init).None? {
        BufferLayoutFirst(init, p);
      } else {
        BufferLayoutAppend(init, p);
      }
    }
  }

  lemma BufferLayoutFlush(init: seq<string>, p: string)
    requires Flushes(Accumulate(init).current, p)
    ensures var ps := init + [p];
      && LastFlush(ps) == Some(|init|)
      && Accumulate(ps).current == OverlapText(Accumulate(ps[..|init|]).current) + " " + Join(ps[|init|..], " ")
  {
    var ps := init + [p];
    assert ps[..|ps| - 1] == init;
    assert ps[..|init|] == init;
    assert ps[|init|..] == [p];
  }

  lemma BufferLayoutAppend(init: seq<string>, p: string)
    requires !Flushes(Accumulate(init).current, p)
    requires LastFlush(init).Some?
    requires var i := LastFlush(init).value;
      Accumulate(init).current == OverlapText(Accumulate(init[..i]).current) + " " + Join(init[i..], " ")
    ensures var ps := init + [p];
      && LastFlush(ps) == LastFlush(init)
      && var i := LastFlush(ps).value;
      Accumulate(ps).current == OverlapText(Accumulate(ps[..i]).current) + " " + Join(ps[i..], " ")
  {
    var ps := init + [p];
    var i := LastFlush(init).value;
    var o, j := OverlapText(Accumulate(init[..i]).current), Join(init[i..], " ");
    AppendAfterNonEmpty(init, p);
    SnocSlices(init, p, i);
    JoinSnoc(init[i..], " ", p);
    ConcatAfterSpace(o, j, p);
  }

  /** Appending to a non-empty buffer adds a space and the paragraph, and moves no flush. */
  lemma AppendAfterNonEmpty(init: seq<string>, p: string)
    requires !Flushes(Accumulate(init).current, p)
    requires Accumulate(init).current != ""
    ensures Accumulate(init + [p]) == ChunkState(Accumulate(init).chunks, Accumulate(init).current + " " + p)
    ensures LastFlush(init + [p]) == LastFlush(init)
  {
    var ps := init + [p];
    assert ps[..|ps| - 1] == init;
  }

  lemma SnocSlices(init: seq<string>, p: string, i: nat)
    requires i <= |init|
    ensures (init + [p])[..i] == init[..i]
    ensures (init + [p])[i..] == init[i..] + [p]
  {
  }

  lemma BufferLayoutFirst(init: seq<string>, p: string)
    requires !Flushes(Accumulate(init).current, p)
    requires LastFlush(init).None? && Accumulate(init) == ChunkState([], SpaceJoin(init))
    ensures LastFlush(init + [p]).None? && Accumulate(init + [p]) == ChunkState([], SpaceJoin(init + [p]))
  {
    var ps := init + [p];
    assert ps[..|ps| - 1] == init;
    assert Accumulate(ps) == Step(Accumulate(init), p);
    SpaceJoinSnoc(init, p);
  }

  lemma ConcatAfterSpace(o: string, j: string, p: string)
    ensures o + " " + j + " " + p == o + " " + (j + " " + p)
  {
  }

  /** If the space-join of all the paragraphs fits in a chunk, the buffer is never flushed. */
  lemma {:induction false} NoFlushWhenShort(ps: seq<string>)
    requires JsLength(SpaceJoin(ps)) <= ChunkSize
    ensures LastFlush(ps).None?
    ensures Accumulate(ps) == ChunkState([], SpaceJoin(ps))
  {
    if ps != [] {
      var init, p := ps[..|ps| - 1], ps[|ps| - 1];
      assert ps == init + [p];
      SpaceJoinSnoc(init, p);
      var c := SpaceJoin(init);
      JsLengthConcat(c + (if c != "" then " " else ""), p);
      JsLengthConcat(c, if c != "" then " " else "");
      NoFlushWhenShort(init);
    }
    BufferLayout(ps);
  }

  /**
   * When the flush never fires, the result is at most one chunk: the trimmed space-join of
   * the paragraphs. This covers the flush-free runs whose buffer reaches 1001 units too.
   */
  lemma ShortParagraphsOneChunk(ps: seq<string>)
    requires LastFlush(ps).None?
    ensures ChunkParagraphs(ps) == (if IsBlank(SpaceJoin(ps)) then [] else [Trim(SpaceJoin(ps))])
  {
    BufferLayout(ps);
  }

  /** In particular, paragraphs whose space-join fits in a chunk give at most that one chunk. */
  lemma ShortSpaceJoinOneChunk(ps: seq<string>)
    requires JsLength(SpaceJoin(ps)) <= ChunkSize
    ensures ChunkParagraphs(ps) == (if IsBlank(SpaceJoin(ps)) then [] else [Trim(SpaceJoin(ps))])
  {
    NoFlushWhenShort(ps);
    ShortParagraphsOneChunk(ps);
  }

  /**
   * A flush pushes the trimmed old buffer, and the new buffer is the last `min(20, #words)`
   * space-separated words of the old one (all of it when there are at most 20), a space,
   * and the paragraph.
   */
  lemma FlushStep(st: ChunkState, p: string)
    requires Flushes(st.current, p)
    ensures Step(st, p).chunks == st.chunks + [Trim(st.current)]
    ensures var o, words := OverlapText(st.current), Split(st.current, ' ');
      && Step(st, p).current == o + " " + p
      && Split(o, ' ') == words[|words| - Min(OverlapWords, |words|)..]
      && |o| <= |st.current| && st.current[|st.current| - |o|..] == o
      && (|words| > OverlapWords ==>
            st.current == Join(words[..|words| - OverlapWords], " ") + " " + o)
      && (|words| <= OverlapWords ==> o == st.current)
  {
    OverlapTextProperties(st.current);
  }

  function Min(a: nat, b: nat): nat {
    if a <= b then a else b
  }

  /**
   * The overlap consists of exactly the last `min(20, #words)` space-separated words of the
   * buffer: splitting it gives those words, and when words were dropped the buffer is the
   * dropped words, one space, and the overlap.
   */
  lemma OverlapTextProperties(buffer: string)
    ensures var o, words := OverlapText(buffer), Split(buffer, ' ');
      && Split(o, ' ') == words[|words| - Min(OverlapWords, |words|)..]
      && |o| <= |buffer| && buffer[|buffer| - |o|..] == o
      && (|words| > OverlapWords ==>
            buffer == Join(words[..|words| - OverlapWords], " ") + " " + o)
      && (|words| <= OverlapWords ==> o == buffer)
  {
    var words := Split(buffer, ' ');
    var k := OverlapStart(|words|);
    var o := Join(words[k..], " ");
    JoinSplit(buffer, ' ');
    if k > 0 {
      JoinAt(words, " ", k);
      assert buffer == Join(words[..k], " ") + " " + o;
    } else {
      assert words[k..] == words;
    }
    SplitJoin(words[k..], ' ');
  }

  // ---------------------------------------------------------------- the whole text

  lemma {:induction false} DropLeadingEmptyShorter(ps: seq<string>)
    ensures JsLength(SpaceJoin(ps)) <= JsLength(Join(ps, " "))
  {
    if ps != [] && ps[0] == "" {
      DropLeadingEmptyShorter(ps[1..]);
      if |ps| > 1 {
        JsLengthConcat(ps[0] + " ", Join(ps[1..], " "));
      }
    }
  }

  lemma {:induction false} JoinShorterThanInterleave(ps: seq<string>, seps: seq<string>)
    requires |seps| + 1 == |ps|
    requires forall k :: 0 <= k < |seps| ==> |seps[k]| >= 1
    ensures JsLength(Join(ps, " ")) <= JsLength(Interleave(ps, seps))
  {
    if |ps| > 1 {
      JoinShorterThanInterleave(ps[1..], seps[1..]);
      JsLengthConcat(ps[0] + " ", Join(ps[1..], " "));
      JsLengthConcat(ps[0], " ");
      JsLengthConcat(ps[0] + seps[0], Interleave(ps[1..], seps[1..]));
      JsLengthConcat(ps[0], seps[0]);
    }
  }

  /**
   * A text of at most 1000 code units is never flushed: the result is the trimmed
   * space-join of its paragraphs, or nothing when that is all whitespace.
   */
  lemma ShortTextOneChunk(text: string)
    requires JsLength(text) <= ChunkSize
    ensures var j := SpaceJoin(Paragraphs(text));
      ChunkParagraphs(Paragraphs(text)) == (if IsBlank(j) then [] else [Trim(j)])
  {
    var ps := Paragraphs(text);
    ParagraphsRebuild(text);
    JoinShorterThanInterleave(ps, SeparatorsFrom(text, 0, 0));
    DropLeadingEmptyShorter(ps);
    ShortSpaceJoinOneChunk(ps);
  }

  /** A text of at most 1000 code units without a line feed gives its trimmed self, or nothing if blank. */
  lemma ShortLineOneChunk(text: string)
    requires JsLength(text) <= ChunkSize && '\n' !in text
    ensures ChunkParagraphs(Paragraphs(text)) == (if IsBlank(text) then [] else [Trim(text)])
  {
    var ps := Paragraphs(text);
    ParagraphsWithoutLineFeed(text);
    assert ps == [text];
    assert DropLeadingEmpty([text]) == (if text == "" then [] else [text]);
    assert SpaceJoin(ps) == text;
    ShortTextOneChunk(text);
  }

  /** `chunkText('')` is `[]`: the split gives `['']`, nothing is pushed, and the final trim is empty. */
  lemma ChunkTextOfEmpty()
    ensures ChunkParagraphs(Paragraphs("")) == []
  {
    ParagraphsWithoutLineFeed("");
    OneShortParagraph("");
    assert Trim("") == "";
  }

  // ---------------------------------------------------------------- quirks

  /** The append branch may leave 1001 code units in the buffer, one past the chunk size. */
  lemma AppendedBufferBound(st: ChunkState, p: string)
    requires !Flushes(st.current, p)
    ensures JsLength(Step(st, p).current) <= ChunkSize + 1
  {
    var sep := if st.current != "" then " " else "";
    JsLengthConcat(st.current + sep, p);
    JsLengthConcat(st.current, sep);
  }

  lemma BufferOf1001()
    ensures var a, b := seq(500, _ => 'a'), seq(500, _ => 'b');
      Accumulate([a, b]) == ChunkState([], a + " " + b) && JsLength(a + " " + b) == 1001
  {
    var a, b := seq(500, _ => 'a'), seq(500, _ => 'b');
    JsLengthBmp(a);
    JsLengthBmp(b);
    JsLengthBmp(a + " " + b);
    assert [a, b][..1] == [a];
    assert [a][..0] == [];
    assert Accumulate([a]) == ChunkState([], a) by {
      assert "" + "" + a == a;
    }
  }

  /** A first paragraph longer than the chunk size makes the first chunk the empty string. */
  lemma OversizedFirstParagraph(ps: seq<string>)
    requires |ps| >= 1 && JsLength(ps[0]) > ChunkSize
    ensures |ChunkParagraphs(ps)| >= 1 && ChunkParagraphs(ps)[0] == ""
  {
    ChunksGrow(ps, 1);
    assert ps[..1][..0] == [];
  }

  /** The last chunk can be empty too: a single paragraph of 1001 spaces gives `['']`. */
  lemma BlankOversizedText()
    ensures ChunkParagraphs(Paragraphs(seq(1001, _ => ' '))) == [""]
  {
    var t := seq(1001, _ => ' ');
    ParagraphsWithoutLineFeed(t);
    JsLengthBmp(t);
    assert [t][..0] == [];
    assert Trim("") == "";
    assert Split("", ' ') == [""];
    assert OverlapText("") == "";
    assert Accumulate([t]) == ChunkState([""], "" + " " + t);
    assert IsBlank("" + " " + t);
  }

  /**
   * A chunk seeded with overlap text has no size bound: after a one-word paragraph `w`,
   * any trimmed paragraph of at least 1000 code units becomes the chunk `w + " " + long`,
   * longer than the paragraph itself.
   */
  lemma SeededChunkUnbounded(w: string, long: string)
    requires w != "" && ' ' !in w && IsTrimmed(w) && JsLength(w) <= ChunkSize
    requires JsLength(long) >= ChunkSize && IsTrimmed(long)
    ensures ChunkParagraphs([w, long]) == [w, w + " " + long]
    ensures JsLength(w + " " + long) == JsLength(w) + 1 + JsLength(long) > ChunkSize + 1
  {
    SeededBuffer(w, long);
    SpacedPairTrimmed(w, long);
    TrimOfTrimmed(w + " " + long);
    SpacedPairLength(w, long);
  }

  lemma SpacedPairTrimmed(w: string, long: string)
    requires w != "" && long != "" && IsTrimmed(w) && IsTrimmed(long)
    ensures IsTrimmed(w + " " + long)
  {
    var c := w + " " + long;
    assert c[0] == w[0];
    assert c[|c| - 1] == long[|long| - 1];
  }

  lemma SpacedPairLength(w: string, long: string)
    ensures JsLength(w + " " + long) == JsLength(w) + 1 + JsLength(long)
  {
    JsLengthConcat(w + " ", long);
    JsLengthConcat(w, " ");
  }

  /** After `[w, long]` the buffer holds the one-word overlap `w`, a space and `long`. */
  lemma SeededBuffer(w: string, long: string)
    requires w != "" && ' ' !in w && IsTrimmed(w) && JsLength(w) <= ChunkSize
    requires JsLength(long) >= ChunkSize
    ensures Accumulate([w, long]) == ChunkState([w], w + " " + long)
  {
    OneShortParagraph(w);
    AccumulateSnoc([w], long);
    assert [w] + [long] == [w, long];
    SeededStep(w, long);
  }

  lemma SeededStep(w: string, long: string)
    requires w != "" && ' ' !in w && IsTrimmed(w)
    requires JsLength(long) >= ChunkSize
    ensures Step(ChunkState([], w), long) == ChunkState([w], w + " " + long)
  {
    assert Flushes(w, long);
    OverlapOfOneWord(w);
    TrimOfTrimmed(w);
  }

  /** The overlap of a one-word buffer is the word. */
  lemma OverlapOfOneWord(w: string)
    requires ' ' !in w
    ensures OverlapText(w) == w
  {
    SplitNoSeparator(w, ' ', []);
    assert [w][0..] == [w];
  }

  lemma AccumulateSnoc(init: seq<string>, p: string)
    ensures Accumulate(init + [p]) == Step(Accumulate(init), p)
  {
    assert (init + [p])[..|init|] == init;
  }

  lemma OneShortParagraph(p: string)
    requires JsLength(p) <= ChunkSize
    ensures Accumulate([p]) == ChunkState([], p)
  {
    AccumulateSnoc([], p);
    assert [] + [p] == [p];
    assert "" + "" + p == p;
  }
}
