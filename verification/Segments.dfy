// segment.go: split a text into sentence byte ranges, with '\n' as a hard boundary and a
// per-line fallback when tokenizer output cannot be found again in the line.
module Segments {
  import opened Edits

  datatype Segment = Segment(start: int, end: int)

  const NEWLINE: Byte := 10
  const CARRIAGE_RETURN: Byte := 13

  // The foreign parts: whether a text is blank, whether a line looks like code, and the
  // trimmed sentences of a line (None when the tokenizer is unavailable).
  datatype Tools = Tools(
    blank: Text -> bool,
    looksLikeCode: Text -> bool,
    tokenize: Option<Text -> seq<Text>>
  )

  // --- Searching -----------------------------------------------------------------------------

  predicate OccursAt(line: Text, i: int, t: Text) {
    0 <= i && i + |t| <= |line| && line[i..i + |t|] == t
  }

  // The first occurrence of t at or after `from`, or -1.
  function Find(line: Text, from: nat, t: Text): (r: int)
    requires from <= |line|
    ensures r == -1 || (from <= r && OccursAt(line, r, t))
    ensures forall i :: from <= i && (r == -1 || i < r) ==> !OccursAt(line, i, t)
    decreases |line| - from
  {
    if OccursAt(line, from, t) then from
    else if from == |line| then -1
    else Find(line, from + 1, t)
  }

  // The first newline at or after the cursor, or the text's end.
  function LineEnd(text: Text, cursor: nat): (r: nat)
    requires cursor <= |text|
    ensures cursor <= r <= |text|
    ensures r < |text| ==> text[r] == NEWLINE
    ensures forall i :: cursor <= i < r ==> text[i] != NEWLINE
    decreases |text| - cursor
  {
    if cursor == |text| || text[cursor] == NEWLINE then cursor else LineEnd(text, cursor + 1)
  }

  // --- One line --------------------------------------------------------------------------------

  // The segments found from `cursor` on. When a sentence is not found, the whole line is
  // emitted and the line is done; segments already emitted for it stay.
  function Relocated(line: Text, lineStart: int, cursor: nat, sentences: seq<Text>): seq<Segment>
    requires cursor <= |line|
    decreases |sentences|
  {
    if sentences == [] then []
    else if sentences[0] == [] then Relocated(line, lineStart, cursor, sentences[1..])
    else
      var at := Find(line, cursor, sentences[0]);
      if at < 0 then [Segment(lineStart, lineStart + |line|)]
      else
        var next := at + |sentences[0]|;
        [Segment(lineStart + at, lineStart + next)] + Relocated(line, lineStart, next, sentences[1..])
  }

  function LineSegments(line: Text, lineStart: int, tools: Tools): seq<Segment> {
    var whole := [Segment(lineStart, lineStart + |line|)];
    if tools.tokenize.None? || tools.looksLikeCode(line) then whole
    else
      var sentences := tools.tokenize.value(line);
      if sentences == [] then whole else Relocated(line, lineStart, 0, sentences)
  }

  // appendLineSegments.
  method AppendLineSegments(segs0: seq<Segment>, line: Text, lineStart: int, tools: Tools)
      returns (segs: seq<Segment>)
    ensures segs == segs0 + LineSegments(line, lineStart, tools)
  {
    segs := segs0;
    if tools.tokenize.None? || tools.looksLikeCode(line) {
      return segs + [Segment(lineStart, lineStart + |line|)];
    }
    var sents := tools.tokenize.value(line);
    if |sents| == 0 {
      return segs + [Segment(lineStart, lineStart + |line|)];
    }
    var cursor := 0;
    ghost var goal := segs0 + Relocated(line, lineStart, 0, sents);
    assert sents[0..] == sents;
    for i := 0 to |sents|
      invariant 0 <= cursor <= |line|
      invariant segs + Relocated(line, lineStart, cursor, sents[i..]) == goal
    {
      var t := sents[i];
      assert sents[i..][0] == t && sents[i..][1..] == sents[i + 1..];
      if |t| == 0 {
        continue;
      }
      var start := Find(line, cursor, t);
      if start < 0 {
        return segs + [Segment(lineStart, lineStart + |line|)];
      }
      segs := segs + [Segment(lineStart + start, lineStart + start + |t|)];
      cursor := start + |t|;
    }
  }

  // --- The whole text ----------------------------------------------------------------------------

  // The line starting at the cursor, without its '\n' and one trailing '\r'.
  function LineAt(text: Text, cursor: nat): Text
    requires cursor <= |text|
  {
    var end := LineEnd(text, cursor);
    if end > cursor && text[end - 1] == CARRIAGE_RETURN then text[cursor..end - 1] else text[cursor..end]
  }

  function NextLine(text: Text, cursor: nat): (r: nat)
    requires cursor < |text|
    ensures cursor < r <= |text|
  {
    var end := LineEnd(text, cursor);
    if end == |text| then |text| else end + 1
  }

  function SegmentsFrom(text: Text, cursor: nat, tools: Tools): seq<Segment>
    requires cursor <= |text|
    decreases |text| - cursor
  {
    if cursor == |text| then []
    else
      var line := LineAt(text, cursor);
      var rest := SegmentsFrom(text, NextLine(text, cursor), tools);
      if line == [] then rest else LineSegments(line, cursor, tools) + rest
  }

  function Segmented(text: Text, tools: Tools): seq<Segment> {
    if tools.blank(text) then [] else SegmentsFrom(text, 0, tools)
  }

  // SegmentSentences (segmentLinesWithoutTokenizer is the case without a tokenizer).
  method SegmentSentences(text: Text, tools: Tools) returns (segs: seq<Segment>)
    ensures segs == Segmented(text, tools)
  {
    if tools.blank(text) {
      return [];
    }
    segs := [];
    hide SegmentsFrom, LineSegments, LineAt, LineEnd, NextLine;
    var cursor := 0;
    ghost var goal := SegmentsFrom(text, 0, tools);
    while cursor < |text|
      invariant 0 <= cursor <= |text|
      invariant segs + SegmentsFrom(text, cursor, tools) == goal
    {
      var line := LineAt(text, cursor);
      SegmentsStep(text, cursor, tools, segs);
      if line != [] {
        segs := AppendLineSegments(segs, line, cursor, tools);
      }
      cursor := NextLine(text, cursor);
    }
    NothingLeft(text, tools);
  }

  lemma SegmentsStep(text: Text, cursor: nat, tools: Tools, segs: seq<Segment>)
    requires cursor < |text|
    ensures var line := LineAt(text, cursor);
            var next := if line == [] then segs else segs + LineSegments(line, cursor, tools);
            next + SegmentsFrom(text, NextLine(text, cursor), tools) == segs + SegmentsFrom(text, cursor, tools)
  {
    hide LineSegments, LineEnd;
    var line, rest := LineAt(text, cursor), SegmentsFrom(text, NextLine(text, cursor), tools);
    AppendAssoc(segs, LineSegments(line, cursor, tools), rest);
  }

  lemma NothingLeft(text: Text, tools: Tools)
    ensures SegmentsFrom(text, |text|, tools) == []
  {
  }

  // --- Properties ----------------------------------------------------------------------------------

  // Non-empty, disjoint and ascending inside [from, to).
  predicate Ascending(segs: seq<Segment>, from: int, to: int) {
    if segs == [] then from <= to
    else from <= segs[0].start < segs[0].end && Ascending(segs[1..], segs[0].end, to)
  }

  predicate InBounds(seg: Segment, from: int, to: int) {
    from <= seg.start < seg.end <= to
  }

  // Every segment lies inside one line, so it is non-empty and free of newlines, however
  // the tokenizer behaves.
  lemma {:induction false} SegmentsWithinLines(text: Text, cursor: nat, tools: Tools)
    requires cursor <= |text|
    ensures forall seg :: seg in SegmentsFrom(text, cursor, tools) ==>
              InBounds(seg, cursor, |text|) && NEWLINE !in text[seg.start..seg.end]
    decreases |text| - cursor
  {
    if cursor < |text| {
      var line := LineAt(text, cursor);
      SegmentsWithinLines(text, NextLine(text, cursor), tools);
      if line != [] {
        LineSegmentsWithin(line, cursor, tools);
        forall seg | seg in LineSegments(line, cursor, tools)
          ensures InBounds(seg, cursor, |text|) && NEWLINE !in text[seg.start..seg.end]
        {
          assert InBounds(seg, cursor, cursor + |line|);
        }
      }
    }
  }

  lemma LineSegmentsWithin(line: Text, lineStart: int, tools: Tools)
    requires line != []
    ensures forall seg :: seg in LineSegments(line, lineStart, tools) ==>
              InBounds(seg, lineStart, lineStart + |line|)
  {
    if tools.tokenize.Some? {
      RelocatedWithin(line, lineStart, 0, tools.tokenize.value(line));
    }
  }

  lemma {:induction false} RelocatedWithin(line: Text, lineStart: int, cursor: nat, sentences: seq<Text>)
    requires line != [] && cursor <= |line|
    ensures forall seg :: seg in Relocated(line, lineStart, cursor, sentences) ==>
              InBounds(seg, lineStart, lineStart + |line|)
    decreases |sentences|
  {
    if sentences != [] {
      if sentences[0] == [] {
        RelocatedWithin(line, lineStart, cursor, sentences[1..]);
      } else {
        var at := Find(line, cursor, sentences[0]);
        if at >= 0 {
          RelocatedWithin(line, lineStart, at + |sentences[0]|, sentences[1..]);
        }
      }
    }
  }

  // Some sentence is not found again although an earlier one of the line was.
  predicate LostAfter(line: Text, cursor: nat, sentences: seq<Text>, found: bool)
    requires cursor <= |line|
    decreases |sentences|
  {
    sentences != [] &&
    if sentences[0] == [] then LostAfter(line, cursor, sentences[1..], found)
    else
      var at := Find(line, cursor, sentences[0]);
      if at < 0 then found else LostAfter(line, at + |sentences[0]|, sentences[1..], true)
  }

  predicate LosesSentence(line: Text, tools: Tools) {
    && tools.tokenize.Some? && !tools.looksLikeCode(line)
    && LostAfter(line, 0, tools.tokenize.value(line), false)
  }

  // Some line of the text loses a sentence after finding one.
  predicate SomeLineLoses(text: Text, cursor: nat, tools: Tools)
    requires cursor <= |text|
    decreases |text| - cursor
  {
    cursor < |text| &&
    ((LineAt(text, cursor) != [] && LosesSentence(LineAt(text, cursor), tools))
     || SomeLineLoses(text, NextLine(text, cursor), tools))
  }

  lemma {:induction false} RelocatedAscending(
      line: Text, lineStart: int, cursor: nat, sentences: seq<Text>, found: bool)
    requires line != [] && cursor <= |line| && (found <==> cursor > 0)
    ensures var segs := Relocated(line, lineStart, cursor, sentences);
            Ascending(segs, lineStart + cursor, lineStart + |line|) <==> !LostAfter(line, cursor, sentences, found)
    decreases |sentences|
  {
    if sentences != [] {
      if sentences[0] == [] {
        RelocatedAscending(line, lineStart, cursor, sentences[1..], found);
      } else {
        var at := Find(line, cursor, sentences[0]);
        if at >= 0 {
          var segs := Relocated(line, lineStart, cursor, sentences);
          RelocatedAscending(line, lineStart, at + |sentences[0]|, sentences[1..], true);
          assert segs[1..] == Relocated(line, lineStart, at + |sentences[0]|, sentences[1..]);
        }
      }
    }
  }

  lemma LineAscending(line: Text, lineStart: int, tools: Tools)
    requires line != []
    ensures Ascending(LineSegments(line, lineStart, tools), lineStart, lineStart + |line|)
       <==> !LosesSentence(line, tools)
  {
    if tools.tokenize.Some? {
      RelocatedAscending(line, lineStart, 0, tools.tokenize.value(line), false);
    }
  }

  lemma {:induction false} AscendingConcat(a: seq<Segment>, b: seq<Segment>, from: int, mid: int, to: int)
    requires from <= mid && forall s :: s in a ==> s.start < s.end <= mid
    requires forall s :: s in b ==> InBounds(s, mid, to)
    requires mid <= to
    ensures Ascending(a + b, from, to) <==> Ascending(a, from, mid) && Ascending(b, mid, to)
    decreases |a|
  {
    if a == [] {
      assert a + b == b;
      if b != [] { assert InBounds(b[0], mid, to); }
    } else {
      assert a[0] in a;
      assert (a + b)[1..] == a[1..] + b && (a + b)[0] == a[0];
      AscendingConcat(a[1..], b, a[0].end, mid, to);
    }
  }

  lemma LineThenRest(line: Text, start: int, tools: Tools, rest: seq<Segment>, next: int, to: int)
    requires line != [] && start + |line| <= next <= to
    requires forall s :: s in rest ==> InBounds(s, next, to)
    ensures Ascending(LineSegments(line, start, tools) + rest, start, to)
       <==> !LosesSentence(line, tools) && Ascending(rest, next, to)
  {
    var segs, end := LineSegments(line, start, tools), start + |line|;
    LineSegmentsWithin(line, start, tools);
    LineAscending(line, start, tools);
    assert forall s :: s in segs ==> InBounds(s, start, end);
    AscendingConcat(segs, [], start, end, next);
    assert segs + [] == segs;
    AscendingConcat(segs, rest, start, next, to);
  }

  // The segments are ascending and disjoint exactly when no line loses a sentence after
  // finding one: the whole-line fallback keeps what that line already emitted.
  lemma {:induction false} AscendingIffNoneLost(text: Text, cursor: nat, tools: Tools)
    requires cursor <= |text|
    ensures Ascending(SegmentsFrom(text, cursor, tools), cursor, |text|) <==> !SomeLineLoses(text, cursor, tools)
    decreases |text| - cursor
  {
    if cursor < |text| {
      var line, next := LineAt(text, cursor), NextLine(text, cursor);
      var rest := SegmentsFrom(text, next, tools);
      assert cursor + |line| <= LineEnd(text, cursor) <= next;
      AscendingIffNoneLost(text, next, tools);
      SegmentsWithinLines(text, next, tools);
      if line != [] {
        LineThenRest(line, cursor, tools, rest, next, |text|);
      } else {
        AscendingConcat([], rest, cursor, next, |text|);
        assert [] + rest == rest;
      }
    }
  }

  // --- Lines ---------------------------------------------------------------------------------------

  // [a, b) is a line: between line feeds or the ends of the text.
  predicate IsLine(text: Text, a: int, b: int) {
    && 0 <= a <= b <= |text| && (a == 0 || text[a - 1] == 10) && (b == |text| || text[b] == 10)
    && (forall i :: a <= i < b ==> text[i] != 10)
  }

  // The line, but for one carriage return at its end, is not empty and yields the segment:
  // itself if it cannot be or is not split, else a place of one of its sentences.
  predicate LineYields(text: Text, a: int, b: int, tools: Tools, seg: Segment) {
    && IsLine(text, a, b)
    && var c := if a < b && text[b - 1] == 13 then b - 1 else b;
       var line := text[a..c];
       && a < c
       && if tools.tokenize.None? || tools.looksLikeCode(line) || tools.tokenize.value(line) == []
          then seg == Segment(a, c) else seg in Relocated(line, a, 0, tools.tokenize.value(line))
  }

  lemma {:induction false} SegmentsFromLines(text: Text, cursor: nat, tools: Tools, seg: Segment)
    requires cursor <= |text| && (cursor == 0 || cursor == |text| || text[cursor - 1] == NEWLINE)
    ensures seg in SegmentsFrom(text, cursor, tools) <==>
              exists a, b :: cursor <= a && LineYields(text, a, b, tools, seg)
    decreases |text| - cursor
  {
    hide Relocated;
    if cursor < |text| {
      SegmentsFromLines(text, NextLine(text, cursor), tools, seg);
      var end, next := LineEnd(text, cursor), NextLine(text, cursor);
      LineHere(text, cursor, tools, seg);
      forall a, b | cursor <= a && LineYields(text, a, b, tools, seg)
        ensures (a == cursor && b == end) || next <= a
      {
      }
    }
  }

  lemma LineHere(text: Text, cursor: nat, tools: Tools, seg: Segment)
    requires cursor < |text| && (cursor == 0 || text[cursor - 1] == NEWLINE)
    ensures LineYields(text, cursor, LineEnd(text, cursor), tools, seg) <==>
              LineAt(text, cursor) != [] && seg in LineSegments(LineAt(text, cursor), cursor, tools)
  {
    hide Relocated;
  }

  // Main result on segmentation: the segments are those that the text's lines yield.
  lemma SegmentsExact(text: Text, tools: Tools, seg: Segment)
    ensures seg in Segmented(text, tools) <==>
              !tools.blank(text) && exists a, b :: LineYields(text, a, b, tools, seg)
  {
    SegmentsFromLines(text, 0, tools, seg);
  }

  // --- Tokenizers that return the sentences in order --------------------------------------------------

  // The sentences sit in the line at these places, one after the other.
  ghost predicate Pieces(line: Text, cursor: nat, sentences: seq<Text>, places: seq<nat>)
    decreases |sentences|
  {
    && |places| == |sentences|
    && (sentences == []
        || (sentences[0] == [] && Pieces(line, cursor, sentences[1..], places[1..]))
        || (&& sentences[0] != [] && cursor <= places[0] && OccursAt(line, places[0], sentences[0])
            && Pieces(line, places[0] + |sentences[0]|, sentences[1..], places[1..])))
  }

  // The search is never ahead of the true places, so it loses no sentence, whatever the gaps hold.
  lemma {:induction false} PiecesNeverLost(
      line: Text, c: nat, cursor: nat, sentences: seq<Text>, places: seq<nat>, found: bool)
    requires c <= cursor && c <= |line| && Pieces(line, cursor, sentences, places)
    ensures !LostAfter(line, c, sentences, found)
    decreases |sentences|
  {
    if sentences != [] {
      if sentences[0] == [] {
        PiecesNeverLost(line, c, cursor, sentences[1..], places[1..], found);
      } else {
        var at, size := Find(line, c, sentences[0]), |sentences[0]|;
        assert OccursAt(line, places[0], sentences[0]);
        PiecesNeverLost(line, at + size, places[0] + size, sentences[1..], places[1..], true);
      }
    }
  }

  // No sentence also occurs in the gap before it.
  ghost predicate GapsClear(line: Text, cursor: nat, sentences: seq<Text>, places: seq<nat>)
    requires |places| == |sentences|
    decreases |sentences|
  {
    sentences == []
    || (sentences[0] == [] && GapsClear(line, cursor, sentences[1..], places[1..]))
    || (&& sentences[0] != []
        && (forall p :: cursor <= p < places[0] ==> !OccursAt(line, p, sentences[0]))
        && GapsClear(line, places[0] + |sentences[0]|, sentences[1..], places[1..]))
  }

  // Where the segments of such sentences are.
  function PlacedSegments(lineStart: int, sentences: seq<Text>, places: seq<nat>): seq<Segment>
    requires |sentences| == |places|
  {
    if sentences == [] then []
    else
      var rest := PlacedSegments(lineStart, sentences[1..], places[1..]);
      if sentences[0] == [] then rest
      else [Segment(lineStart + places[0], lineStart + places[0] + |sentences[0]|)] + rest
  }

  // The search finds every sentence at its own place exactly when none occurs before it.
  lemma {:induction false} FoundInPlaceIff(
      line: Text, lineStart: int, cursor: nat, sentences: seq<Text>, places: seq<nat>)
    requires cursor <= |line| && Pieces(line, cursor, sentences, places)
    ensures Relocated(line, lineStart, cursor, sentences) == PlacedSegments(lineStart, sentences, places)
       <==> GapsClear(line, cursor, sentences, places)
    decreases |sentences|
  {
    hide Find, OccursAt;
    if sentences != [] {
      if sentences[0] == [] {
        FoundInPlaceIff(line, lineStart, cursor, sentences[1..], places[1..]);
      } else {
        var at, place := Find(line, cursor, sentences[0]), places[0];
        FindsFirst(line, cursor, sentences[0], place);
        var next := place + |sentences[0]|;
        FoundInPlaceIff(line, lineStart, next, sentences[1..], places[1..]);
        if at == place {
          SameTails(Segment(lineStart + place, lineStart + next), Relocated(line, lineStart, next, sentences[1..]),
                    PlacedSegments(lineStart, sentences[1..], places[1..]));
        }
      }
    }
  }

  lemma FindsFirst(line: Text, cursor: nat, sentence: Text, place: nat)
    requires cursor <= place && OccursAt(line, place, sentence)
    ensures place + |sentence| <= |line| && 0 <= Find(line, cursor, sentence) <= place
    ensures Find(line, cursor, sentence) == place
       <==> forall p :: cursor <= p < place ==> !OccursAt(line, p, sentence)
  {
  }

  lemma SameTails(head: Segment, a: seq<Segment>, b: seq<Segment>)
    ensures [head] + a == [head] + b <==> a == b
  {
    assert ([head] + a)[1..] == a && ([head] + b)[1..] == b;
  }

  // The tokenizer returns contiguous pieces of every line, in order.
  ghost predicate TokenizesInOrder(tools: Tools) {
    tools.tokenize.Some? ==> forall line :: exists places :: Pieces(line, 0, tools.tokenize.value(line), places)
  }

  // So with such a tokenizer the segments of every text are ascending and disjoint.
  lemma {:induction false} InOrderNeverLoses(text: Text, cursor: nat, tools: Tools)
    requires cursor <= |text| && TokenizesInOrder(tools)
    ensures !SomeLineLoses(text, cursor, tools)
    decreases |text| - cursor
  {
    if cursor < |text| {
      InOrderNeverLoses(text, NextLine(text, cursor), tools);
      var line := LineAt(text, cursor);
      if tools.tokenize.Some? {
        var places :| Pieces(line, 0, tools.tokenize.value(line), places);
        PiecesNeverLost(line, 0, 0, tools.tokenize.value(line), places, false);
      }
    }
  }
}
