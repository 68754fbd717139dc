/**
 * `text.split(/\n\s*\n/)`: the paragraph split at the start of `chunkText`
 * (src/lib/document-utils.ts:43), following the RegExp split algorithm of ECMAScript:
 * scan positions left to right, try the pattern at each one, and cut the text around
 * every match. Positions count characters; the pattern can only start at a line feed,
 * so this agrees with the code-unit positions JavaScript uses.
 */
module ParagraphSplit {
  import opened Wrappers
  import opened JsString

  /** A text the pattern /\n\s*\n/ matches as a whole: a blank line between two line feeds. */
  predicate IsBlankLine(t: string) {
    |t| >= 2 && t[0] == '\n' && t[|t| - 1] == '\n' && IsBlank(t)
  }

  /** Two line feeds in `t` with only whitespace between them. */
  ghost predicate ContainsBlankLine(t: string) {
    exists i, j :: 0 <= i < j < |t| && t[i] == '\n' && t[j] == '\n' && IsBlank(t[i + 1..j])
  }

  /** No line feed occurs in the whitespace that begins `t`. */
  predicate NoLeadingLineFeed(t: string) {
    forall m :: 0 <= m < |t| && t[m] == '\n' ==> !IsBlank(t[..m])
  }

  /** Position just past the run of whitespace that starts at `i`. */
  function SpaceRunEnd(s: string, i: nat): (w: nat)
    requires i <= |s|
    ensures i <= w <= |s|
    ensures IsBlank(s[i..w])
    ensures w < |s| ==> !IsJsSpace(s[w])
    decreases |s| - i
  {
    if i < |s| && IsJsSpace(s[i]) then
      var w := SpaceRunEnd(s, i + 1);
      assert s[i..w] == [s[i]] + s[i + 1..w];
      w
    else i
  }

  /** The last index in [lo, hi) that holds a line feed, if there is one. */
  function LastLineFeed(s: string, lo: nat, hi: nat): (r: Option<nat>)
    requires lo <= hi <= |s|
    ensures r.Some? ==> lo <= r.value < hi && s[r.value] == '\n'
    ensures r.Some? ==> forall k :: r.value < k < hi ==> s[k] != '\n'
    ensures r.None? ==> forall k :: lo <= k < hi ==> s[k] != '\n'
    decreases hi - lo
  {
    if hi == lo then None
    else if s[hi - 1] == '\n' then Some(hi - 1)
    else LastLineFeed(s, lo, hi - 1)
  }

  /**
   * Where a match of /\n\s*\n/ attempted at `q` ends, if it succeeds. The greedy `\s*`
   * first takes the whole whitespace run after the line feed at `q`, then gives characters
   * back until a line feed follows, so the match ends just past the run's last line feed.
   */
  function MatchEnd(s: string, q: nat): (e: Option<nat>)
    requires q < |s|
    ensures e.Some? ==> q + 2 <= e.value <= |s| && IsBlankLine(s[q..e.value])
  {
    if s[q] != '\n' then None
    else
      var w := SpaceRunEnd(s, q + 1);
      match LastLineFeed(s, q + 1, w)
      case None => None
      case Some(k) =>
        assert s[q..k + 1] == [s[q]] + s[q + 1..w][..k - q];
        Some(k + 1)
  }

  /**
   * The match attempted at `q` is exact. It fails only when no blank line starts at `q`,
   * and it is greedy: the text after a match has no line feed in its leading whitespace,
   * so no longer blank line starts at `q`.
   */
  lemma MatchEndExact(s: string, q: nat)
    requires q < |s|
    ensures MatchEnd(s, q).None? ==>
      forall j :: q < j < |s| && s[q] == '\n' && s[j] == '\n' ==> !IsBlank(s[q + 1..j])
    ensures MatchEnd(s, q).Some? ==> NoLeadingLineFeed(s[MatchEnd(s, q).value..])
  {
    if s[q] == '\n' {
      var w := SpaceRunEnd(s, q + 1);
      match LastLineFeed(s, q + 1, w)
      case None =>
        // a line feed after `q` lies at or past the end of the run, so a non-space precedes it
        forall j | q < j < |s| && s[j] == '\n'
          ensures !IsBlank(s[q + 1..j])
        {
          assert w < j;
          assert s[q + 1..j][w - q - 1] == s[w];
        }
      case Some(k) =>
        var e := k + 1;
        assert MatchEnd(s, q) == Some(e);
        var t := s[e..];
        // a line feed after the match lies past the end of the run, so a non-space precedes it
        forall m | 0 <= m < |t| && t[m] == '\n'
          ensures !IsBlank(t[..m])
        {
          assert s[e + m] == '\n';
          assert w < e + m;
          assert t[..m][w - e] == s[w];
        }
    }
  }

  /** The split from a piece that starts at `p`, with the scan at `q`. */
  function SplitFrom(s: string, p: nat, q: nat): (parts: seq<string>)
    requires p <= q <= |s|
    ensures |parts| >= 1
    decreases |s| - q
  {
    if q == |s| then [s[p..]]
    else match MatchEnd(s, q)
      case None => SplitFrom(s, p, q + 1)
      case Some(e) => [s[p..q]] + SplitFrom(s, e, e)
  }

  /** The text the split cut out between consecutive pieces, with the same scan. */
  ghost function SeparatorsFrom(s: string, p: nat, q: nat): (seps: seq<string>)
    requires p <= q <= |s|
    ensures |seps| + 1 == |SplitFrom(s, p, q)|
    ensures forall k :: 0 <= k < |seps| ==> IsBlankLine(seps[k])
    decreases |s| - q
  {
    if q == |s| then []
    else match MatchEnd(s, q)
      case None => SeparatorsFrom(s, p, q + 1)
      case Some(e) => [s[q..e]] + SeparatorsFrom(s, e, e)
  }

  /** `text.split(/\n\s*\n/)`. */
  function Paragraphs(text: string): (ps: seq<string>)
    ensures |ps| >= 1
  {
    SplitFrom(text, 0, 0)
  }

  /** Pieces put back together with the separators between them. */
  function Interleave(parts: seq<string>, seps: seq<string>): string
    requires |seps| + 1 == |parts|
  {
    if |parts| == 1 then parts[0] else parts[0] + seps[0] + Interleave(parts[1..], seps[1..])
  }

  /** The pieces and the separators the split removed rebuild the text. */
  lemma {:induction false} SplitFromRebuilds(s: string, p: nat, q: nat)
    requires p <= q <= |s|
    ensures Interleave(SplitFrom(s, p, q), SeparatorsFrom(s, p, q)) == s[p..]
    decreases |s| - q
  {
    if q < |s| {
      match MatchEnd(s, q)
      case None => SplitFromRebuilds(s, p, q + 1);
      case Some(e) =>
        SplitFromRebuilds(s, e, e);
        RebuildAtMatch(s, p, q, e);
    }
  }

  /** A match at `q` ends the piece from `p`; the rest is rebuilt from its end. */
  lemma RebuildAtMatch(s: string, p: nat, q: nat, e: nat)
    requires p <= q < |s| && MatchEnd(s, q) == Some(e)
    requires Interleave(SplitFrom(s, e, e), SeparatorsFrom(s, e, e)) == s[e..]
    ensures Interleave(SplitFrom(s, p, q), SeparatorsFrom(s, p, q)) == s[p..]
  {
    InterleaveCons(s[p..q], s[q..e], SplitFrom(s, e, e), SeparatorsFrom(s, e, e));
    assert s[p..] == s[p..q] + s[q..e] + s[e..];
  }

  lemma InterleaveCons(part: string, sep: string, parts: seq<string>, seps: seq<string>)
    requires |seps| + 1 == |parts|
    ensures Interleave([part] + parts, [sep] + seps) == part + sep + Interleave(parts, seps)
  {
    assert ([part] + parts)[1..] == parts;
    assert ([sep] + seps)[1..] == seps;
  }

  /** No piece of the split holds a blank line: every match was cut out. */
  lemma {:induction false} SplitFromNoBlankLine(s: string, p: nat, q: nat)
    requires p <= q <= |s|
    requires forall r :: p <= r < q ==> MatchEnd(s, r).None?
    ensures forall k :: 0 <= k < |SplitFrom(s, p, q)| ==> !ContainsBlankLine(SplitFrom(s, p, q)[k])
    decreases |s| - q
  {
    if q == |s| {
      PieceNoBlankLine(s, p, q);
      assert s[p..q] == s[p..];
    } else {
      match MatchEnd(s, q)
      case None => SplitFromNoBlankLine(s, p, q + 1);
      case Some(e) =>
        PieceNoBlankLine(s, p, q);
        SplitFromNoBlankLine(s, e, e);
    }
  }

  /** A slice at none of whose positions the pattern matches holds no blank line. */
  lemma PieceNoBlankLine(s: string, p: nat, q: nat)
    requires p <= q <= |s|
    requires forall r :: p <= r < q ==> MatchEnd(s, r).None?
    ensures !ContainsBlankLine(s[p..q])
  {
    var t := s[p..q];
    if ContainsBlankLine(t) {
      var i, j :| 0 <= i < j < |t| && t[i] == '\n' && t[j] == '\n' && IsBlank(t[i + 1..j]);
      forall k | p + i < k < p + j
        ensures IsJsSpace(s[k])
      {
        assert s[k] == t[i + 1..j][k - p - i - 1];
      }
      BlankLineMatches(s, p + i, p + j);
      assert false;
    }
  }

  /** Two line feeds with only whitespace between them: the pattern matches at the first. */
  lemma BlankLineMatches(s: string, a: nat, b: nat)
    requires a < b < |s| && s[a] == '\n' && s[b] == '\n'
    requires forall k :: a < k < b ==> IsJsSpace(s[k])
    ensures MatchEnd(s, a).Some?
  {
    var w := SpaceRunEnd(s, a + 1);
    assert b < w;
  }

  /** The first piece of the split is a prefix of the text from the piece start. */
  lemma {:induction false} SplitFromFirstPiece(s: string, p: nat, q: nat)
    requires p <= q <= |s|
    ensures SplitFrom(s, p, q)[0] <= s[p..]
    decreases |s| - q
  {
    if q < |s| {
      match MatchEnd(s, q)
      case None => SplitFromFirstPiece(s, p, q + 1);
      case Some(e) =>
    }
  }

  lemma NoLeadingLineFeedPrefix(t: string, u: string)
    requires t <= u && NoLeadingLineFeed(u)
    ensures NoLeadingLineFeed(t)
  {
    forall m | 0 <= m < |t| && t[m] == '\n'
      ensures !IsBlank(t[..m])
    {
      assert t[..m] == u[..m] && u[m] == '\n';
    }
  }

  /** Every piece after the first starts after a greedy match, so its leading whitespace has no line feed. */
  lemma {:induction false} SplitFromLaterPieces(s: string, p: nat, q: nat)
    requires p <= q <= |s|
    ensures forall k :: 1 <= k < |SplitFrom(s, p, q)| ==> NoLeadingLineFeed(SplitFrom(s, p, q)[k])
    decreases |s| - q
  {
    if q < |s| {
      match MatchEnd(s, q)
      case None => SplitFromLaterPieces(s, p, q + 1);
      case Some(e) =>
        var rest := SplitFrom(s, e, e);
        SplitFromLaterPieces(s, e, e);
        MatchEndExact(s, q);
        SplitFromFirstPiece(s, e, e);
        NoLeadingLineFeedPrefix(rest[0], s[e..]);
        var parts := SplitFrom(s, p, q);
        assert parts == [s[p..q]] + rest;
        forall k | 1 <= k < |parts|
          ensures NoLeadingLineFeed(parts[k])
        {
          assert parts[k] == rest[k - 1];
        }
    }
  }

  /**
   * A slice at none of whose positions the pattern matches, extended by the line feed at
   * which a match starts, still holds no blank line: no earlier match was possible.
   */
  lemma PieceToMatchNoBlankLine(s: string, p: nat, q: nat)
    requires p <= q < |s| && s[q] == '\n'
    requires forall r :: p <= r < q ==> MatchEnd(s, r).None?
    ensures !ContainsBlankLine(s[p..q] + "\n")
  {
    var t := s[p..q] + "\n";
    assert t == s[p..q + 1];
    if ContainsBlankLine(t) {
      var i, j :| 0 <= i < j < |t| && t[i] == '\n' && t[j] == '\n' && IsBlank(t[i + 1..j]);
      forall k | p + i < k < p + j
        ensures IsJsSpace(s[k])
      {
        assert s[k] == t[i + 1..j][k - p - i - 1];
      }
      BlankLineMatches(s, p + i, p + j);
      assert false;
    }
  }

  /** Every cut is leftmost: a piece followed by the line feed that opens its separator holds no blank line. */
  ghost predicate LeftmostCuts(parts: seq<string>, seps: seq<string>)
    requires |seps| + 1 == |parts|
  {
    forall k :: 0 <= k < |seps| ==> !ContainsBlankLine(parts[k] + "\n")
  }

  /** Every cut is longest: the text after each separator has no line feed in its leading whitespace. */
  ghost predicate LongestCuts(parts: seq<string>, seps: seq<string>)
    requires |seps| + 1 == |parts|
  {
    forall k :: 1 <= k < |parts| ==> NoLeadingLineFeed(Interleave(parts[k..], seps[k..]))
  }

  /** A leftmost, longest cut in front of leftmost, longest cuts keeps them so. */
  lemma ExactCutsCons(part: string, sep: string, rest: seq<string>, restSeps: seq<string>)
    requires |restSeps| + 1 == |rest|
    requires LeftmostCuts(rest, restSeps) && LongestCuts(rest, restSeps)
    requires !ContainsBlankLine(part + "\n") && NoLeadingLineFeed(Interleave(rest, restSeps))
    ensures LeftmostCuts([part] + rest, [sep] + restSeps) && LongestCuts([part] + rest, [sep] + restSeps)
  {
    var parts, seps := [part] + rest, [sep] + restSeps;
    forall k | 0 <= k < |seps|
      ensures !ContainsBlankLine(parts[k] + "\n")
    {
      if k > 0 {
        assert parts[k] == rest[k - 1];
      }
    }
    forall k | 1 <= k < |parts|
      ensures NoLeadingLineFeed(Interleave(parts[k..], seps[k..]))
    {
      assert parts[k..] == rest[k - 1..] && seps[k..] == restSeps[k - 1..];
      if k == 1 {
        assert rest[0..] == rest && restSeps[0..] == restSeps;
      }
    }
  }

  /**
   * The two conditions rule out the other splits that rebuild a text from blank lines:
   * `'\n\n\n'` cut late as `['\n', '']`, and `'\n\n\n\n'` cut short as `['', '', '']`.
   */
  lemma ExactCutsRejectOtherSplits()
    ensures !LeftmostCuts(["\n", ""], ["\n\n"])
    ensures !LongestCuts(["", "", ""], ["\n\n", "\n\n"])
  {
    var t := "\n" + "\n";
    assert t[0] == '\n' && t[1] == '\n' && IsBlank(t[1..1]);
    assert ContainsBlankLine(t);
    assert ["\n", ""][0] + "\n" == t;
    var parts, seps := ["", "", ""], ["\n\n", "\n\n"];
    var rest, restSeps := parts[1..], seps[1..];
    assert rest == ["", ""] && restSeps == ["\n\n"];
    assert rest[1..] == [""] && restSeps[1..] == [];
    assert Interleave([""], []) == "";
    var u := Interleave(rest, restSeps);
    assert u == "" + "\n\n" + Interleave([""], []);
    assert u == "\n\n";
    assert u[1] == '\n' && u[..1] == "\n";
    assert IsJsSpace('\n');
    assert IsBlank(u[..1]);
    assert !NoLeadingLineFeed(u);
    assert Interleave(parts[1..], seps[1..]) == u;
  }

  /** The scan's matches are the leftmost and the longest. */
  lemma {:induction false} SplitFromExact(s: string, p: nat, q: nat)
    requires p <= q <= |s|
    requires forall r :: p <= r < q ==> MatchEnd(s, r).None?
    ensures LeftmostCuts(SplitFrom(s, p, q), SeparatorsFrom(s, p, q))
    ensures LongestCuts(SplitFrom(s, p, q), SeparatorsFrom(s, p, q))
    decreases |s| - q
  {
    if q < |s| {
      match MatchEnd(s, q)
      case None =>
        SplitFromExact(s, p, q + 1);
      case Some(e) =>
        SplitFromExact(s, e, e);
        SplitFromRebuilds(s, e, e);
        MatchEndExact(s, q);
        PieceToMatchNoBlankLine(s, p, q);
        ExactCutsCons(s[p..q], s[q..e], SplitFrom(s, e, e), SeparatorsFrom(s, e, e));
    }
  }

  /**
   * `text.split(/\n\s*\n/)` cuts `text` at blank lines only and leaves none inside a
   * paragraph. Each cut is at the leftmost blank line (a paragraph and the line feed after
   * it hold none) and takes the longest one (no line feed follows in the whitespace after
   * it), so no paragraph after the first has a line feed in its leading whitespace.
   */
  lemma ParagraphsRebuild(text: string)
    ensures |SeparatorsFrom(text, 0, 0)| + 1 == |Paragraphs(text)|
    ensures forall k :: 0 <= k < |SeparatorsFrom(text, 0, 0)| ==> IsBlankLine(SeparatorsFrom(text, 0, 0)[k])
    ensures Interleave(Paragraphs(text), SeparatorsFrom(text, 0, 0)) == text
    ensures forall k :: 0 <= k < |Paragraphs(text)| ==> !ContainsBlankLine(Paragraphs(text)[k])
    ensures forall k :: 1 <= k < |Paragraphs(text)| ==> NoLeadingLineFeed(Paragraphs(text)[k])
    ensures forall k :: 0 <= k < |SeparatorsFrom(text, 0, 0)| ==> !ContainsBlankLine(Paragraphs(text)[k] + "\n")
    ensures forall k :: 1 <= k < |Paragraphs(text)| ==>
      NoLeadingLineFeed(Interleave(Paragraphs(text)[k..], SeparatorsFrom(text, 0, 0)[k..]))
  {
    SplitFromRebuilds(text, 0, 0);
    SplitFromNoBlankLine(text, 0, 0);
    SplitFromLaterPieces(text, 0, 0);
    SplitFromExact(text, 0, 0);
  }

  /** A text without a line feed is one paragraph; in particular `''.split(...)` is `['']`. */
  lemma {:induction false} SplitFromWithoutLineFeed(s: string, p: nat, q: nat)
    requires p <= q <= |s|
    requires '\n' !in s
    ensures SplitFrom(s, p, q) == [s[p..]]
    decreases |s| - q
  {
    if q < |s| {
      SplitFromWithoutLineFeed(s, p, q + 1);
    }
  }

  lemma ParagraphsWithoutLineFeed(text: string)
    requires '\n' !in text
    ensures Paragraphs(text) == [text]
  {
    SplitFromWithoutLineFeed(text, 0, 0);
  }

  /** Three line feeds in a row are one separator: `'a\n\n\nb'.split(/\n\s*\n/)` is `['a', 'b']`. */
  lemma GreedySeparator()
    ensures Paragraphs("a\n\n\nb") == ["a", "b"]
  {
    var s := "a\n\n\nb";
    assert MatchEnd(s, 0) == None;
    assert SpaceRunEnd(s, 2) == 4;
    assert LastLineFeed(s, 2, 4) == Some(3);
    assert MatchEnd(s, 1) == Some(4);
    assert MatchEnd(s, 4) == None;
    assert SplitFrom(s, 4, 5) == [s[4..]];
    assert SplitFrom(s, 4, 4) == [s[4..]];
    assert SplitFrom(s, 0, 1) == [s[0..1]] + SplitFrom(s, 4, 4);
    assert SplitFrom(s, 0, 0) == SplitFrom(s, 0, 1);
    assert s[0..1] == "a" && s[4..] == "b";
  }
}
