/*
 * ChunkText of the seeding console application: the generated handbook text
 * is cut, left to right, into pieces of about maxChunkSize characters, each
 * cut pulled back to just after the last '.' or '\n' of its window, and every
 * piece is trimmed before it is embedded and uploaded.
 */
module Chunking {
  import opened Strings

  /** The characters ChunkText prefers to cut after. */
  predicate IsSentenceEnd(c: char) {
    c == '.' || c == '\n'
  }

  /** The inputs on which ChunkText terminates (returns or throws). A negative
      maxChunkSize throws at once on non-empty text; a zero maxChunkSize makes
      no progress at the first character that is not a sentence end, and never
      returns normally (ZeroSizeStalls). For a size of at least 0 these are
      exactly the inputs on which every cut advances. */
  predicate Halts(text: string, maxChunkSize: int)
    ensures maxChunkSize >= 0 ==>
      (Halts(text, maxChunkSize)
       <==> forall start :: 0 <= start < |text| ==> start < CutAt(text, start, maxChunkSize))
  {
    assert maxChunkSize >= 0 ==> forall start :: 0 <= start < |text| ==>
      (start < CutAt(text, start, maxChunkSize) <==> maxChunkSize != 0 || IsSentenceEnd(text[start])) by {
      if maxChunkSize >= 0 {
        forall start | 0 <= start < |text|
          ensures start < CutAt(text, start, maxChunkSize) <==> maxChunkSize != 0 || IsSentenceEnd(text[start])
        {
        }
      }
    }
    maxChunkSize != 0 || forall i :: 0 <= i < |text| ==> IsSentenceEnd(text[i])
  }

  /** Where one iteration of ChunkText's loop ends the piece that begins at
      start. The hard limit is start + maxChunkSize; when it is inside the
      text, the cut moves to just after the last sentence end in the window
      [start, start + maxChunkSize] -- the window includes its right end,
      because LastIndexOf searches from its startIndex inclusive. */
  function CutAt(text: string, start: nat, maxChunkSize: nat): (end: nat)
    requires start < |text|
    ensures start <= end <= |text| && end <= start + maxChunkSize + 1
    ensures start + maxChunkSize >= |text| ==> end == |text|
    ensures end == start + maxChunkSize + 1 ==> IsSentenceEnd(text[end - 1])
    ensures end == start <==> maxChunkSize == 0 && !IsSentenceEnd(text[start])
  {
    var end := if start + maxChunkSize < |text| then start + maxChunkSize else |text|;
    if end < |text| then
      var lastPeriod := LastIndexAtOrBefore(text, '.', end);
      var lastNewLine := LastIndexAtOrBefore(text, '\n', end);
      var lastSentenceEnd := if lastPeriod > lastNewLine then lastPeriod else lastNewLine;
      if lastSentenceEnd >= start then lastSentenceEnd + 1 else end
    else
      end
  }

  /** The cut rule for a piece that does not reach the end of the text: if
      the window [start, start + maxChunkSize] holds a sentence end, the piece
      ends just after the last one; otherwise it ends at the hard limit. */
  lemma CutAtRule(text: string, start: nat, maxChunkSize: nat)
    requires start + maxChunkSize < |text|
    ensures var end := CutAt(text, start, maxChunkSize);
      if exists k :: start <= k <= start + maxChunkSize && IsSentenceEnd(text[k]) then
        start < end && IsSentenceEnd(text[end - 1])
        && forall k :: end <= k <= start + maxChunkSize ==> !IsSentenceEnd(text[k])
      else
        end == start + maxChunkSize
  {
  }

  /** The untrimmed pieces text[start..end] of the iterations that begin at
      start: the reference definition of ChunkText's loop. */
  function Pieces(text: string, maxChunkSize: nat, start: nat): (ps: seq<string>)
    requires start <= |text| && Halts(text, maxChunkSize)
    ensures forall k :: 0 <= k < |ps| ==> ps[k] != []
    decreases |text| - start
  {
    if start == |text| then []
    else
      var end := CutAt(text, start, maxChunkSize);
      [text[start..end]] + Pieces(text, maxChunkSize, end)
  }

  /** The pieces written one after another. */
  function Concat(ps: seq<string>): string {
    if ps == [] then [] else ps[0] + Concat(ps[1..])
  }

  /** Every piece trimmed, in order. */
  function TrimAll(ps: seq<string>): (cs: seq<string>)
    ensures |cs| == |ps|
  {
    if ps == [] then [] else TrimAll(ps[..|ps| - 1]) + [Trim(ps[|ps| - 1])]
  }

  /** The k-th chunk is the k-th piece trimmed. */
  lemma {:induction false} TrimAllAt(ps: seq<string>, k: nat)
    requires k < |ps|
    ensures TrimAll(ps)[k] == Trim(ps[k])
    decreases |ps|
  {
    if k < |ps| - 1 {
      TrimAllAt(ps[..|ps| - 1], k);
    }
  }

  /** What ChunkText returns, or the exception it throws: it throws exactly
      when the text is non-empty and maxChunkSize negative, and otherwise
      returns at most one chunk per character. */
  function ChunkTextSpec(text: string, maxChunkSize: int): (r: Result<seq<string>>)
    requires Halts(text, maxChunkSize)
    ensures r.ArgumentOutOfRange? <==> |text| > 0 && maxChunkSize < 0
    ensures r.Ok? ==> |r.value| <= |text|
  {
    if |text| == 0 then Ok([])
    else if maxChunkSize < 0 then ArgumentOutOfRange
    else
      PiecesCount(text, maxChunkSize, 0);
      Ok(TrimAll(Pieces(text, maxChunkSize, 0)))
  }

  /** Concatenation regroups freely; stated once so that the loop below need
      not prove it for sequences of strings in place. */
  lemma AppendAssoc<T>(a: seq<T>, b: seq<T>, c: seq<T>)
    ensures (a + b) + c == a + (b + c)
  {
  }

  /** ChunkText(text, maxChunkSize), step by step as the source runs it. */
  method ChunkText(text: string, maxChunkSize: int) returns (r: Result<seq<string>>)
    requires Halts(text, maxChunkSize)
    ensures r == ChunkTextSpec(text, maxChunkSize)
  {
    var chunks: seq<string> := [];
    var start := 0;
    ghost var pieces: seq<string> := [];
    while start < |text|
      invariant 0 <= start <= |text|
      invariant maxChunkSize < 0 ==> start == 0 && pieces == []
      invariant maxChunkSize >= 0 ==>
        Pieces(text, maxChunkSize, 0) == pieces + Pieces(text, maxChunkSize, start)
      invariant chunks == TrimAll(pieces)
      decreases |text| - start
    {
      var end := if start + maxChunkSize < |text| then start + maxChunkSize else |text|;
      if end < |text| {
        var lastPeriod := LastIndexOf(text, '.', end);
        if lastPeriod.ArgumentOutOfRange? {
          return ArgumentOutOfRange;
        }
        var lastNewLine := LastIndexOf(text, '\n', end).value;
        var lastSentenceEnd := if lastPeriod.value > lastNewLine then lastPeriod.value else lastNewLine;
        if lastSentenceEnd >= start {
          end := lastSentenceEnd + 1;
        }
      }
      ghost var piece := text[start..end];
      ghost var donePieces := pieces;
      if maxChunkSize >= 0 {
        assert end == CutAt(text, start, maxChunkSize);
        assert Pieces(text, maxChunkSize, start) == [piece] + Pieces(text, maxChunkSize, end);
        AppendAssoc(pieces, [piece], Pieces(text, maxChunkSize, end));
      }
      chunks := chunks + [Trim(text[start..end])];
      pieces := pieces + [piece];
      assert pieces[..|pieces| - 1] == donePieces;
      start := end;
    }
    if maxChunkSize >= 0 {
      assert Pieces(text, maxChunkSize, start) == [];
      assert pieces + [] == pieces;
    }
    return Ok(chunks);
  }

  /** The untrimmed pieces tile the text: no gap and no overlap. */
  lemma {:induction false} PiecesTile(text: string, maxChunkSize: nat, start: nat)
    requires start <= |text| && Halts(text, maxChunkSize)
    ensures Concat(Pieces(text, maxChunkSize, start)) == text[start..]
    decreases |text| - start
  {
    if start < |text| {
      var end := CutAt(text, start, maxChunkSize);
      var ps := Pieces(text, maxChunkSize, start);
      assert ps[1..] == Pieces(text, maxChunkSize, end);
      PiecesTile(text, maxChunkSize, end);
      assert text[start..] == text[start..end] + text[end..];
    }
  }

  /** Every piece is at most maxChunkSize + 1 long, and one of exactly that
      length ends with the sentence end that LastIndexOf found at the hard
      limit itself. */
  predicate SizesBounded(ps: seq<string>, maxChunkSize: nat) {
    forall k :: 0 <= k < |ps| ==>
      |ps[k]| <= maxChunkSize + 1
      && (|ps[k]| == maxChunkSize + 1 ==> IsSentenceEnd(ps[k][maxChunkSize]))
  }

  lemma {:induction false} PiecesBounded(text: string, maxChunkSize: nat, start: nat)
    requires start <= |text| && Halts(text, maxChunkSize)
    ensures SizesBounded(Pieces(text, maxChunkSize, start), maxChunkSize)
    decreases |text| - start
  {
    if start < |text| {
      var end := CutAt(text, start, maxChunkSize);
      var ps := Pieces(text, maxChunkSize, start);
      var rest := Pieces(text, maxChunkSize, end);
      assert ps == [text[start..end]] + rest;
      PiecesBounded(text, maxChunkSize, end);
    }
  }

  /** There are at most as many pieces as characters left, and none at all
      exactly when nothing is left. */
  lemma {:induction false} PiecesCount(text: string, maxChunkSize: nat, start: nat)
    requires start <= |text| && Halts(text, maxChunkSize)
    ensures |Pieces(text, maxChunkSize, start)| <= |text| - start
    ensures start < |text| <==> |Pieces(text, maxChunkSize, start)| > 0
    decreases |text| - start
  {
    if start < |text| {
      PiecesCount(text, maxChunkSize, CutAt(text, start, maxChunkSize));
    }
  }

  /** No character of s ends a sentence. */
  predicate HasNoSentenceEnd(s: string) {
    forall i :: 0 <= i < |s| ==> !IsSentenceEnd(s[i])
  }

  /** The cut rule seen from the piece that begins at start, when it is not
      the last one: it ends with a sentence end, or it is cut at the hard
      limit with no sentence end in the window. */
  lemma FirstPieceCutRule(text: string, maxChunkSize: nat, start: nat)
    requires start < |text| && CutAt(text, start, maxChunkSize) < |text|
    ensures var end := CutAt(text, start, maxChunkSize);
      (start < end && IsSentenceEnd(text[end - 1]))
      || (end == start + maxChunkSize && HasNoSentenceEnd(text[start..end]) && !IsSentenceEnd(text[end]))
  {
  }

  /** A piece followed by another one ends with a sentence end, or is
      exactly maxChunkSize long, holds no sentence end, and is followed by a
      character that is not one either. */
  predicate CutRuleHolds(piece: string, next: string, maxChunkSize: nat) {
    piece != [] && next != []
    && (IsSentenceEnd(piece[|piece| - 1])
        || (|piece| == maxChunkSize && HasNoSentenceEnd(piece) && !IsSentenceEnd(next[0])))
  }

  /** Every piece but the last is cut by the rule. That the sentence end a
      piece stops after is the LAST one of its window is stated by CutAtRule. */
  predicate CutByRule(ps: seq<string>, maxChunkSize: nat) {
    forall k :: 0 <= k < |ps| - 1 ==> CutRuleHolds(ps[k], ps[k + 1], maxChunkSize)
  }

  lemma {:induction false} PiecesCutRule(text: string, maxChunkSize: nat, start: nat)
    requires start <= |text| && Halts(text, maxChunkSize)
    ensures CutByRule(Pieces(text, maxChunkSize, start), maxChunkSize)
    decreases |text| - start
  {
    if start < |text| {
      var end := CutAt(text, start, maxChunkSize);
      var ps := Pieces(text, maxChunkSize, start);
      var rest := Pieces(text, maxChunkSize, end);
      assert ps[1..] == rest && |ps| == |rest| + 1;
      PiecesCutRule(text, maxChunkSize, end);
      if end < |text| {
        FirstPieceCutRule(text, maxChunkSize, start);
        assert rest[0] == text[end..CutAt(text, end, maxChunkSize)];
        assert CutRuleHolds(ps[0], ps[1], maxChunkSize);
      }
      forall k | 1 <= k < |ps| - 1 ensures CutRuleHolds(ps[k], ps[k + 1], maxChunkSize) {
        var j := k - 1;
        assert CutRuleHolds(rest[j], rest[j + 1], maxChunkSize);
        assert ps[k] == rest[j] && ps[k + 1] == rest[j + 1];
      }
    }
  }

  /** Neither the first nor the last character of s is white space. */
  predicate IsTrimmed(s: string) {
    s == [] || (!IsWhiteSpace(s[0]) && !IsWhiteSpace(s[|s| - 1]))
  }

  /** cs holds one entry per piece, the piece trimmed. */
  predicate TrimmedPieces(cs: seq<string>, ps: seq<string>) {
    |cs| == |ps| && forall k :: 0 <= k < |ps| ==> cs[k] == Trim(ps[k]) && IsTrimmed(cs[k])
  }

  /** ChunkText returns normally, with at most |text| chunks, one per piece:
      each chunk is its piece trimmed, with no white space at either end. */
  lemma ChunkTextChunks(text: string, maxChunkSize: nat)
    requires Halts(text, maxChunkSize)
    ensures ChunkTextSpec(text, maxChunkSize).Ok?
    ensures |ChunkTextSpec(text, maxChunkSize).value| <= |text|
    ensures TrimmedPieces(ChunkTextSpec(text, maxChunkSize).value, Pieces(text, maxChunkSize, 0))
  {
    var ps := Pieces(text, maxChunkSize, 0);
    PiecesCount(text, maxChunkSize, 0);
    forall k | 0 <= k < |ps| ensures TrimAll(ps)[k] == Trim(ps[k]) {
      TrimAllAt(ps, k);
    }
  }

  /** With maxChunkSize 0 and a character that is not a sentence end, the
      loop cuts pieces of one character up to the first such character and
      then stops advancing there: ChunkText never returns. */
  lemma ZeroSizeStalls(text: string)
    requires !Halts(text, 0)
    ensures exists i :: 0 <= i < |text| && CutAt(text, i, 0) == i
                        && (forall j :: 0 <= j < i ==> CutAt(text, j, 0) == j + 1)
  {
    var i := 0;
    while IsSentenceEnd(text[i])
      invariant 0 <= i < |text|
      invariant forall j :: 0 <= j < i ==> IsSentenceEnd(text[j])
      invariant exists k :: i <= k < |text| && !IsSentenceEnd(text[k])
      decreases |text| - i
    {
      i := i + 1;
    }
    forall j | 0 <= j < i ensures CutAt(text, j, 0) == j + 1 {
      assert IsSentenceEnd(text[j]);
    }
    assert CutAt(text, i, 0) == i;
  }

  /** ChunkText throws exactly when the text is non-empty and maxChunkSize
      negative; on empty text it returns no chunks whatever the size. */
  lemma ChunkTextOutcome(text: string, maxChunkSize: int)
    requires Halts(text, maxChunkSize)
    ensures ChunkTextSpec(text, maxChunkSize).ArgumentOutOfRange? <==> |text| > 0 && maxChunkSize < 0
    ensures |text| == 0 ==> ChunkTextSpec(text, maxChunkSize) == Ok([])
  {
  }

  /** A sentence end exactly at the hard limit is kept in its piece, which is
      then maxChunkSize + 1 long -- here the last piece. */
  lemma SeparatorAtLimitExample()
    ensures Pieces("ab.", 2, 0) == ["ab."]
    ensures ChunkTextSpec("ab.", 2) == Ok(["ab."])
  {
    var text := "ab.";
    assert CutAt(text, 0, 2) == 3;
    assert Pieces(text, 2, 3) == [];
    assert text[0..3] == text;
    assert Pieces(text, 2, 0) == [text];
    assert LeadingWhiteSpace(text) == 0;
    assert TrimEnd(text) == text;
    assert TrimAll([text]) == [text];
  }

  /** The pieces of "A.\nB" with maxChunkSize 1: the line break sits alone
      between the two cuts after '.' and after '\n'. */
  lemma BlankPiecePieces()
    ensures Pieces("A.\nB", 1, 0) == ["A.", "\n", "B"]
  {
    var text := "A.\nB";
    assert CutAt(text, 0, 1) == 2;
    assert CutAt(text, 2, 1) == 3;
    assert CutAt(text, 3, 1) == 4;
    assert text[0..2] == "A." && text[2..3] == "\n" && text[3..4] == "B";
    assert Pieces(text, 1, 3) == ["B"];
  }

  /** The three pieces of "A.\nB" trimmed. */
  lemma BlankPieceTrims()
    ensures Trim("A.") == "A." && Trim("\n") == "" && Trim("B") == "B"
  {
  }

  /** The chunks of "A.\nB" with maxChunkSize 1, one index at a time. */
  lemma BlankChunk0()
    ensures TrimAll(["A.", "\n", "B"])[0] == "A."
  {
    BlankPieceTrims();
    TrimAllAt(["A.", "\n", "B"], 0);
  }

  lemma BlankChunk1()
    ensures TrimAll(["A.", "\n", "B"])[1] == ""
  {
    BlankPieceTrims();
    TrimAllAt(["A.", "\n", "B"], 1);
  }

  lemma BlankChunk2()
    ensures TrimAll(["A.", "\n", "B"])[2] == "B"
  {
    BlankPieceTrims();
    TrimAllAt(["A.", "\n", "B"], 2);
  }

  /** Two three-element sequences with equal elements are equal. */
  lemma ThreeElements<T>(cs: seq<T>, ds: seq<T>)
    requires |cs| == 3 && |ds| == 3
    requires cs[0] == ds[0] && cs[1] == ds[1] && cs[2] == ds[2]
    ensures cs == ds
  {
  }

  /** A piece made only of white space -- here a lone line break -- yields
      an empty chunk, which is kept. */
  lemma BlankPieceExample()
    ensures ChunkTextSpec("A.\nB", 1) == Ok(["A.", "", "B"])
  {
    BlankPiecePieces();
    BlankChunk0();
    BlankChunk1();
    BlankChunk2();
    ThreeElements(TrimAll(["A.", "\n", "B"]), ["A.", "", "B"]);
  }
}
