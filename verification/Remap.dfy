// gector/remap.go: apply one pass of suggestions while recording, segment by segment,
// how to translate positions of the corrected text back to the original.
module Remap {
  import opened Edits

  // One contiguous run of the corrected text: an unchanged slice or a replacement.
  datatype Segment = Segment(
    origStart: int, origEnd: int,
    corrStart: int, corrEnd: int,
    isReplacement: bool
  )

  // --- What applyAndTrack records ----------------------------------------------------------

  function Tracked(textLen: int, sugs: seq<Suggestion>, origPos: int, corrPos: int): seq<Segment>
    decreases |sugs|
  {
    if sugs == [] then
      if origPos < textLen then
        [Segment(origPos, textLen, corrPos, corrPos + (textLen - origPos), false)]
      else []
    else
      var s := sugs[0];
      if s.span.start > origPos then
        var at := corrPos + (s.span.start - origPos);
        [Segment(origPos, s.span.start, corrPos, at, false),
         Segment(s.span.start, s.span.end, at, at + |s.replacement|, true)]
        + Tracked(textLen, sugs[1..], s.span.end, at + |s.replacement|)
      else
        [Segment(s.span.start, s.span.end, corrPos, corrPos + |s.replacement|, true)]
        + Tracked(textLen, sugs[1..], s.span.end, corrPos + |s.replacement|)
  }

  // The corrected text of a pass.
  function Corrected(text: Text, sugs: seq<Suggestion>): Text
    requires Ordered(sugs, 0, |text|)
  {
    Rewrite(text, 0, |text|, sugs)
  }

  method ApplyAndTrack(text: Text, sugs: seq<Suggestion>)
      returns (corrected: Text, back: (int, int) -> Option<Span>)
    requires Ordered(sugs, 0, |text|)
    ensures corrected == Corrected(text, sugs)
    ensures forall start, end :: back(start, end) == Back(text, sugs, start, end)
  {
    var segs;
    corrected, segs := Track(text, sugs);
    var origLen, correctedLen, fixed := |text|, |corrected|, segs;
    back := (start, end) => BackVia(fixed, origLen, correctedLen, start, end);
  }

  method Track(text: Text, sugs: seq<Suggestion>) returns (corrected: Text, segs: seq<Segment>)
    requires Ordered(sugs, 0, |text|)
    ensures corrected == Corrected(text, sugs)
    ensures segs == Tracked(|text|, sugs, 0, 0)
  {
    hide Tracked, Rewrite, Ordered;
    segs, corrected := [], [];
    var origPos, corrPos := 0, 0;
    ghost var goalText, goalSegs := Corrected(text, sugs), Tracked(|text|, sugs, 0, 0);
    assert sugs[0..] == sugs;
    for i := 0 to |sugs|
      invariant 0 <= origPos && corrPos == |corrected|
      invariant Ordered(sugs[i..], origPos, |text|)
      invariant corrected + Rewrite(text, origPos, |text|, sugs[i..]) == goalText
      invariant segs + Tracked(|text|, sugs[i..], origPos, corrPos) == goalSegs
    {
      var s := sugs[i];
      TrackStep(text, sugs, i, origPos, corrPos, corrected, segs);
      var start, end := s.span.start, s.span.end;
      if start > origPos {
        corrected := corrected + text[origPos..start];
        segs := segs + [Segment(origPos, start, corrPos, corrPos + (start - origPos), false)];
        corrPos := corrPos + (start - origPos);
      }
      corrected := corrected + s.replacement;
      segs := segs + [Segment(start, end, corrPos, corrPos + |s.replacement|, true)];
      corrPos := corrPos + |s.replacement|;
      origPos := end;
    }
    assert sugs[|sugs|..] == [];
    TrackEnd(text, origPos, corrPos);
    if origPos < |text| {
      corrected := corrected + text[origPos..];
      segs := segs + [Segment(origPos, |text|, corrPos, corrPos + (|text| - origPos), false)];
    }
  }

  lemma TrackEnd(text: Text, origPos: nat, corrPos: int)
    requires Ordered([], origPos, |text|)
    ensures origPos <= |text| && Rewrite(text, origPos, |text|, []) == text[origPos..]
    ensures Tracked(|text|, [], origPos, corrPos)
         == if origPos < |text| then [Segment(origPos, |text|, corrPos, corrPos + (|text| - origPos), false)] else []
  {
  }

  lemma TrackStep(
      text: Text, sugs: seq<Suggestion>, i: nat, origPos: nat, corrPos: int, corrected: Text, segs: seq<Segment>)
    requires i < |sugs| && Ordered(sugs[i..], origPos, |text|)
    ensures var s, n := sugs[i], |text|;
            var at := corrPos + (s.span.start - origPos);
            && origPos <= s.span.start <= s.span.end <= n
            && Ordered(sugs[i + 1..], s.span.end, n)
            && corrected + Rewrite(text, origPos, n, sugs[i..])
               == corrected + text[origPos..s.span.start] + s.replacement
                  + Rewrite(text, s.span.end, n, sugs[i + 1..])
            && segs + Tracked(n, sugs[i..], origPos, corrPos)
               == (if s.span.start > origPos then segs + [Segment(origPos, s.span.start, corrPos, at, false)] else segs)
                  + [Segment(s.span.start, s.span.end, at, at + |s.replacement|, true)]
                  + Tracked(n, sugs[i + 1..], s.span.end, at + |s.replacement|)
  {
    assert sugs[i..][0] == sugs[i] && sugs[i..][1..] == sugs[i + 1..];
    TrackCons(text, sugs[i], sugs[i + 1..], origPos, corrPos);
    assert sugs[i..] == [sugs[i]] + sugs[i + 1..];
    hide Rewrite, Tracked, Ordered;
  }

  lemma TrackCons(text: Text, s: Suggestion, rest: seq<Suggestion>, origPos: nat, corrPos: int)
    requires Ordered([s] + rest, origPos, |text|)
    ensures var n, at := |text|, corrPos + (s.span.start - origPos);
            && origPos <= s.span.start <= s.span.end <= n
            && Ordered(rest, s.span.end, n)
            && Rewrite(text, origPos, n, [s] + rest)
               == text[origPos..s.span.start] + s.replacement + Rewrite(text, s.span.end, n, rest)
            && Tracked(n, [s] + rest, origPos, corrPos)
               == (if s.span.start > origPos then [Segment(origPos, s.span.start, corrPos, at, false)] else [])
                  + [Segment(s.span.start, s.span.end, at, at + |s.replacement|, true)]
                  + Tracked(n, rest, s.span.end, at + |s.replacement|)
  {
    assert ([s] + rest)[1..] == rest;
    OrderedBounds([s] + rest, origPos, |text|);
    assert s.span.start == origPos ==> text[origPos..s.span.start] == [];
  }

  // --- The translator ----------------------------------------------------------------------

  // The first replacement segment whose left edge is at `pos`.
  function LeftEdge(segs: seq<Segment>, pos: int): Option<int> {
    if segs == [] then None
    else if segs[0].isReplacement && pos == segs[0].corrStart then Some(segs[0].origStart)
    else LeftEdge(segs[1..], pos)
  }

  // The first unchanged segment that covers `pos`.
  function Unchanged(segs: seq<Segment>, pos: int): Option<int> {
    if segs == [] then None
    else if !segs[0].isReplacement && segs[0].corrStart <= pos < segs[0].corrEnd then
      Some(segs[0].origStart + (pos - segs[0].corrStart))
    else Unchanged(segs[1..], pos)
  }

  function Resolved(segs: seq<Segment>, origLen: int, correctedLen: int, pos: int): Option<int> {
    if pos == correctedLen then Some(if segs == [] then origLen else segs[|segs| - 1].origEnd)
    else if LeftEdge(segs, pos).Some? then LeftEdge(segs, pos)
    else Unchanged(segs, pos)
  }

  method Resolve(segs: seq<Segment>, origLen: int, correctedLen: int, pos: int) returns (r: Option<int>)
    ensures r == Resolved(segs, origLen, correctedLen, pos)
  {
    if pos == correctedLen {
      if |segs| == 0 {
        return Some(origLen);
      }
      return Some(segs[|segs| - 1].origEnd);
    }
    assert segs[0..] == segs;
    for i := 0 to |segs|
      invariant LeftEdge(segs[i..], pos) == LeftEdge(segs, pos)
    {
      assert segs[i..][0] == segs[i] && segs[i..][1..] == segs[i + 1..];
      if segs[i].isReplacement && pos == segs[i].corrStart {
        return Some(segs[i].origStart);
      }
    }
    for i := 0 to |segs|
      invariant Unchanged(segs[i..], pos) == Unchanged(segs, pos)
    {
      assert segs[i..][0] == segs[i] && segs[i..][1..] == segs[i + 1..];
      if !segs[i].isReplacement && pos >= segs[i].corrStart && pos < segs[i].corrEnd {
        return Some(segs[i].origStart + (pos - segs[i].corrStart));
      }
    }
    return None;
  }

  // Where position `pos` of the corrected text of (text, sugs) comes from.
  function Origin(text: Text, sugs: seq<Suggestion>, pos: int): Option<int>
    requires Ordered(sugs, 0, |text|)
  {
    Resolved(Tracked(|text|, sugs, 0, 0), |text|, |Corrected(text, sugs)|, pos)
  }

  // The `back` closure: both edges must resolve.
  function BackVia(segs: seq<Segment>, origLen: int, correctedLen: int, start: int, end: int): Option<Span> {
    match Resolved(segs, origLen, correctedLen, start)
    case None => None
    case Some(os) =>
      match Resolved(segs, origLen, correctedLen, end)
      case None => None
      case Some(oe) => Some(Span(os, oe))
  }

  function Back(text: Text, sugs: seq<Suggestion>, start: int, end: int): Option<Span>
    requires Ordered(sugs, 0, |text|)
  {
    BackVia(Tracked(|text|, sugs, 0, 0), |text|, |Corrected(text, sugs)|, start, end)
  }

  // --- Cuts: what a resolved position means --------------------------------------------------

  // Splitting the original at `o` and the edits after the first `k` splits the corrected
  // text at `pos`: prefix and suffix are the images of prefix and suffix.
  ghost predicate IsCut(text: Text, sugs: seq<Suggestion>, from: int, o: int, k: int, pos: int)
    requires 0 <= from && Ordered(sugs, from, |text|)
  {
    && 0 <= k <= |sugs| && from <= o <= |text|
    && Ordered(sugs[..k], from, o) && Ordered(sugs[k..], o, |text|)
    && 0 <= pos <= |Rewrite(text, from, |text|, sugs)|
    && Rewrite(text, from, |text|, sugs)[..pos] == Rewrite(text, from, o, sugs[..k])
    && Rewrite(text, from, |text|, sugs)[pos..] == Rewrite(text, o, |text|, sugs[k..])
  }

  datatype Cut = Cut(o: int, k: nat)

  // The translator read off the edit list instead of the segments: the leftmost cut at
  // `pos`, relative to the image of text[from..]; the very end is its own rightmost cut.
  function Located(textLen: int, sugs: seq<Suggestion>, from: int, pos: int): Option<Cut>
    decreases |sugs|
  {
    if sugs == [] then
      if 0 <= pos < textLen - from then Some(Cut(from + pos, 0)) else None
    else
      var s := sugs[0];
      var gap := s.span.start - from;
      if 0 <= pos <= gap then Some(Cut(from + pos, 0))
      else if pos < gap + |s.replacement| then None
      else
        match Located(textLen, sugs[1..], s.span.end, pos - gap - |s.replacement|)
        case None => None
        case Some(c) => Some(Cut(c.o, c.k + 1))
  }

  lemma {:induction false} TrackedBefore(textLen: int, sugs: seq<Suggestion>, from: int, corrPos: int, pos: int)
    requires Ordered(sugs, from, textLen) && pos < corrPos
    ensures LeftEdge(Tracked(textLen, sugs, from, corrPos), pos) == None
    ensures Unchanged(Tracked(textLen, sugs, from, corrPos), pos) == None
    decreases |sugs|
  {
    if sugs != [] {
      var s := sugs[0];
      var gap := s.span.start - from;
      var segs := Tracked(textLen, sugs, from, corrPos);
      var rest := Tracked(textLen, sugs[1..], s.span.end, corrPos + gap + |s.replacement|);
      TrackedBefore(textLen, sugs[1..], s.span.end, corrPos + gap + |s.replacement|, pos);
      if gap > 0 {
        assert segs[1..][1..] == rest;
      } else {
        assert segs[1..] == rest;
      }
    }
  }

  // Before the end of the corrected text, the two segment scans find the leftmost cut.
  lemma {:induction false} ScansLocate(text: Text, sugs: seq<Suggestion>, from: nat, corrPos: int, pos: int)
    requires Ordered(sugs, from, |text|)
    requires pos != |Rewrite(text, from, |text|, sugs)|
    ensures var segs := Tracked(|text|, sugs, from, corrPos);
            var r := if LeftEdge(segs, corrPos + pos).Some? then LeftEdge(segs, corrPos + pos)
                     else Unchanged(segs, corrPos + pos);
            var c := Located(|text|, sugs, from, pos);
            r == if c.None? then None else Some(c.value.o)
    decreases |sugs|
  {
    OrderedBounds(sugs, from, |text|);
    var n := |text|;
    var segs := Tracked(n, sugs, from, corrPos);
    if sugs != [] {
      var s := sugs[0];
      var gap := s.span.start - from;
      var corrPos' := corrPos + gap + |s.replacement|;
      var rest := Tracked(n, sugs[1..], s.span.end, corrPos');
      ScansLocate(text, sugs[1..], s.span.end, corrPos', pos - gap - |s.replacement|);
      if corrPos + pos < corrPos' {
        TrackedBefore(n, sugs[1..], s.span.end, corrPos', corrPos + pos);
      }
      if gap > 0 {
        assert segs[1..][0].isReplacement && segs[1..][1..] == rest;
      } else {
        assert segs[1..] == rest;
      }
    }
  }

  lemma {:induction false} LastSegmentEnds(textLen: int, sugs: seq<Suggestion>, from: int, corrPos: int)
    requires Ordered(sugs, from, textLen)
    ensures var segs := Tracked(textLen, sugs, from, corrPos);
            if segs == [] then from == textLen else segs[|segs| - 1].origEnd == textLen
    decreases |sugs|
  {
    if sugs != [] {
      var s := sugs[0];
      LastSegmentEnds(textLen, sugs[1..], s.span.end, corrPos + (s.span.start - from) + |s.replacement|);
    }
  }

  lemma CutOfLength(text: Text, sugs: seq<Suggestion>, from: nat, o: int, k: nat)
    requires Ordered(sugs, from, |text|) && k <= |sugs|
    requires Ordered(sugs[..k], from, o) && Ordered(sugs[k..], o, |text|)
    ensures from <= o <= |text|
    ensures IsCut(text, sugs, from, o, k, |Rewrite(text, from, o, sugs[..k])|)
  {
    OrderedBounds(sugs[..k], from, o);
    OrderedBounds(sugs[k..], o, |text|);
    assert sugs[..k] + sugs[k..] == sugs;
    RewriteConcat(text, sugs[..k], sugs[k..], from, o, |text|);
  }

  lemma {:induction false} LocatedIsCut(text: Text, sugs: seq<Suggestion>, from: nat, pos: int)
    requires Ordered(sugs, from, |text|) && Located(|text|, sugs, from, pos).Some?
    ensures var c := Located(|text|, sugs, from, pos).value;
            && 0 <= c.k <= |sugs| && from <= c.o <= |text|
            && Ordered(sugs[..c.k], from, c.o) && Ordered(sugs[c.k..], c.o, |text|)
            && |Rewrite(text, from, c.o, sugs[..c.k])| == pos
    decreases |sugs|
  {
    OrderedBounds(sugs, from, |text|);
    var c := Located(|text|, sugs, from, pos).value;
    if c.k == 0 {
      assert sugs[..0] == [] && sugs[0..] == sugs;
    } else {
      var s := sugs[0];
      var gap := s.span.start - from;
      LocatedIsCut(text, sugs[1..], s.span.end, pos - gap - |s.replacement|);
      assert sugs[..c.k][1..] == sugs[1..][..c.k - 1] && sugs[..c.k][0] == s;
      assert sugs[1..][c.k - 1..] == sugs[c.k..];
    }
  }

  // Every cut at `pos` lies at or to the right of the located one.
  lemma {:induction false} LocatedIsLeftmost(text: Text, sugs: seq<Suggestion>, from: nat, o: int, k: nat)
    requires Ordered(sugs, from, |text|) && k <= |sugs|
    requires Ordered(sugs[..k], from, o) && Ordered(sugs[k..], o, |text|)
    requires 0 <= o <= |text|
    requires |Rewrite(text, from, o, sugs[..k])| < |Rewrite(text, from, |text|, sugs)|
    ensures var c := Located(|text|, sugs, from, |Rewrite(text, from, o, sugs[..k])|);
            c.Some? && c.value.o <= o && c.value.k <= k
    decreases |sugs|
  {
    OrderedBounds(sugs, from, |text|);
    OrderedBounds(sugs[..k], from, o);
    if k == 0 {
      assert sugs[k..] == sugs;
    } else {
      var s := sugs[0];
      assert sugs[..k][1..] == sugs[1..][..k - 1] && sugs[..k][0] == s;
      assert sugs[1..][k - 1..] == sugs[k..];
      LocatedIsLeftmost(text, sugs[1..], s.span.end, o, k - 1);
    }
  }

  // --- Main results for one pass ---------------------------------------------------------------

  // The cut the translator uses: leftmost, except that the end maps to the end.
  function CutAt(text: Text, sugs: seq<Suggestion>, pos: int): Option<Cut>
    requires Ordered(sugs, 0, |text|)
  {
    if pos == |Corrected(text, sugs)| then Some(Cut(|text|, |sugs|))
    else Located(|text|, sugs, 0, pos)
  }

  lemma OriginIsCutAt(text: Text, sugs: seq<Suggestion>, pos: int)
    requires Ordered(sugs, 0, |text|)
    ensures var c := CutAt(text, sugs, pos);
            && Origin(text, sugs, pos) == (if c.None? then None else Some(c.value.o))
            && (c.Some? ==> IsCut(text, sugs, 0, c.value.o, c.value.k, pos))
  {
    if pos == |Corrected(text, sugs)| {
      LastSegmentEnds(|text|, sugs, 0, 0);
      assert sugs[..|sugs|] == sugs && sugs[|sugs|..] == [];
      CutOfLength(text, sugs, 0, |text|, |sugs|);
    } else {
      ScansLocate(text, sugs, 0, 0, pos);
      if CutAt(text, sugs, pos).Some? {
        LocatedIsCut(text, sugs, 0, pos);
        var c := CutAt(text, sugs, pos).value;
        CutOfLength(text, sugs, 0, c.o, c.k);
      }
    }
  }

  // A position resolves exactly when it is a cut point, and then to the leftmost cut
  // (the end of the corrected text: to the end of the original).
  lemma ResolvesExactlyCuts(text: Text, sugs: seq<Suggestion>, pos: int)
    requires Ordered(sugs, 0, |text|)
    ensures Origin(text, sugs, pos).Some? <==> exists o, k :: IsCut(text, sugs, 0, o, k, pos)
    ensures Origin(text, sugs, pos).Some? ==>
              && (exists k :: IsCut(text, sugs, 0, Origin(text, sugs, pos).value, k, pos))
              && (forall o, k :: IsCut(text, sugs, 0, o, k, pos) ==>
                    if pos == |Corrected(text, sugs)| then o <= Origin(text, sugs, pos).value == |text|
                    else Origin(text, sugs, pos).value <= o)
  {
    OriginIsCutAt(text, sugs, pos);
    forall o, k | IsCut(text, sugs, 0, o, k, pos)
      ensures var c := CutAt(text, sugs, pos);
              c.Some? && (if pos == |Corrected(text, sugs)| then c.value.o == |text| else c.value.o <= o)
    {
      if pos != |Corrected(text, sugs)| {
        LocatedIsLeftmost(text, sugs, 0, o, k);
      }
    }
  }

  // Resolution is monotone, in the original position and in the number of edits passed.
  lemma CutsMonotone(text: Text, sugs: seq<Suggestion>, p: int, q: int)
    requires Ordered(sugs, 0, |text|) && p <= q
    requires CutAt(text, sugs, p).Some? && CutAt(text, sugs, q).Some?
    ensures CutAt(text, sugs, p).value.o <= CutAt(text, sugs, q).value.o
    ensures CutAt(text, sugs, p).value.k <= CutAt(text, sugs, q).value.k
  {
    OriginIsCutAt(text, sugs, p);
    OriginIsCutAt(text, sugs, q);
    if q != |Corrected(text, sugs)| {
      LocatedMonotone(text, sugs, 0, p, q);
    }
  }

  lemma {:induction false} LocatedMonotone(text: Text, sugs: seq<Suggestion>, from: nat, p: int, q: int)
    requires Ordered(sugs, from, |text|) && p <= q
    requires Located(|text|, sugs, from, p).Some? && Located(|text|, sugs, from, q).Some?
    ensures Located(|text|, sugs, from, p).value.o <= Located(|text|, sugs, from, q).value.o
    ensures Located(|text|, sugs, from, p).value.k <= Located(|text|, sugs, from, q).value.k
    decreases |sugs|
  {
    if sugs != [] {
      var s := sugs[0];
      var shift := s.span.start - from + |s.replacement|;
      var cq := Located(|text|, sugs, from, q).value;
      if Located(|text|, sugs, from, p).value.k > 0 {
        LocatedMonotone(text, sugs[1..], s.span.end, p - shift, q - shift);
      } else if cq.k > 0 {
        LocatedIsCut(text, sugs[1..], s.span.end, q - shift);
      }
    }
  }

  // Where the i-th replacement begins in the image of text[from..].
  function ReplacementAt(sugs: seq<Suggestion>, from: int, i: nat): int
    requires i < |sugs|
    decreases i
  {
    var gap := sugs[0].span.start - from;
    if i == 0 then gap
    else gap + |sugs[0].replacement| + ReplacementAt(sugs[1..], sugs[0].span.end, i - 1)
  }

  lemma {:induction false} ReplacementStandsThere(text: Text, sugs: seq<Suggestion>, from: nat, i: nat)
    requires Ordered(sugs, from, |text|) && i < |sugs|
    ensures var at, r := ReplacementAt(sugs, from, i), sugs[i].replacement;
            && 0 <= at <= at + |r| <= |Rewrite(text, from, |text|, sugs)|
            && Rewrite(text, from, |text|, sugs)[at..at + |r|] == r
    decreases i
  {
    OrderedBounds(sugs, from, |text|);
    var head := text[from..sugs[0].span.start] + sugs[0].replacement;
    var whole := Rewrite(text, from, |text|, sugs);
    if i > 0 {
      ReplacementStandsThere(text, sugs[1..], sugs[0].span.end, i - 1);
      var at := ReplacementAt(sugs, from, i);
      var tail := Rewrite(text, sugs[0].span.end, |text|, sugs[1..]);
      assert whole == head + tail;
      assert whole[at..at + |sugs[i].replacement|] == tail[at - |head|..at - |head| + |sugs[i].replacement|];
    }
  }

  ghost predicate StrictlyInside(sugs: seq<Suggestion>, from: int, pos: int) {
    exists i :: 0 <= i < |sugs| &&
      ReplacementAt(sugs, from, i) < pos < ReplacementAt(sugs, from, i) + |sugs[i].replacement|
  }

  // Inside the corrected text, resolution fails exactly strictly inside a replacement.
  lemma UnresolvedIffInside(text: Text, sugs: seq<Suggestion>, pos: int)
    requires Ordered(sugs, 0, |text|) && 0 <= pos <= |Corrected(text, sugs)|
    ensures Origin(text, sugs, pos) == None <==> StrictlyInside(sugs, 0, pos)
  {
    OriginIsCutAt(text, sugs, pos);
    if pos == |Corrected(text, sugs)| {
      if StrictlyInside(sugs, 0, pos) {
        var i :| 0 <= i < |sugs| && ReplacementAt(sugs, 0, i) < pos < ReplacementAt(sugs, 0, i) + |sugs[i].replacement|;
        ReplacementStandsThere(text, sugs, 0, i);
        assert false;
      }
    } else {
      LocatedFailsInside(text, sugs, 0, pos);
    }
  }

  lemma {:induction false} LocatedFailsInside(text: Text, sugs: seq<Suggestion>, from: nat, pos: int)
    requires Ordered(sugs, from, |text|) && 0 <= pos < |Rewrite(text, from, |text|, sugs)|
    ensures Located(|text|, sugs, from, pos) == None <==> StrictlyInside(sugs, from, pos)
    decreases |sugs|
  {
    OrderedBounds(sugs, from, |text|);
    if sugs != [] {
      var s := sugs[0];
      var rest, gap := sugs[1..], s.span.start - from;
      var shift := gap + |s.replacement|;
      forall i | 0 < i < |sugs|
        ensures ReplacementAt(sugs, from, i) == shift + ReplacementAt(rest, s.span.end, i - 1) >= shift
      {
        ReplacementStandsThere(text, rest, s.span.end, i - 1);
      }
      assert ReplacementAt(sugs, from, 0) == gap;
      if pos >= shift {
        LocatedFailsInside(text, rest, s.span.end, pos - shift);
        assert StrictlyInside(sugs, from, pos) <==> StrictlyInside(rest, s.span.end, pos - shift) by {
          if i :| (0 <= i < |rest|
                   && ReplacementAt(rest, s.span.end, i) < pos - shift
                      < ReplacementAt(rest, s.span.end, i) + |rest[i].replacement|) {
            assert rest[i] == sugs[i + 1] && ReplacementAt(sugs, from, i + 1) < pos;
          }
          if i :| (0 <= i < |sugs|
                   && ReplacementAt(sugs, from, i) < pos < ReplacementAt(sugs, from, i) + |sugs[i].replacement|) {
            assert i > 0 && rest[i - 1] == sugs[i] && ReplacementAt(rest, s.span.end, i - 1) < pos - shift;
          }
        }
      }
    }
  }

  // The corrected span [start, end) and the original span [os, oe) cut both texts into three
  // corresponding parts; the edits ks..ke are the ones inside the span.
  ghost predicate Corresponds(
      text: Text, sugs: seq<Suggestion>, os: int, oe: int, ks: int, ke: int, start: int, end: int)
    requires Ordered(sugs, 0, |text|)
  {
    && 0 <= os <= oe <= |text| && 0 <= ks <= ke <= |sugs|
    && Ordered(sugs[..ks], 0, os) && Ordered(sugs[ks..ke], os, oe) && Ordered(sugs[ke..], oe, |text|)
    && 0 <= start <= end <= |Corrected(text, sugs)|
    && Corrected(text, sugs)[..start] == Rewrite(text, 0, os, sugs[..ks])
    && Corrected(text, sugs)[start..end] == Rewrite(text, os, oe, sugs[ks..ke])
    && Corrected(text, sugs)[end..] == Rewrite(text, oe, |text|, sugs[ke..])
  }

  // A translated span really is the part of the original the corrected span came from.
  lemma BackCorresponds(text: Text, sugs: seq<Suggestion>, start: int, end: int)
    requires Ordered(sugs, 0, |text|) && start <= end
    requires Back(text, sugs, start, end).Some?
    ensures var b := Back(text, sugs, start, end).value;
            exists ks, ke :: Corresponds(text, sugs, b.start, b.end, ks, ke, start, end)
  {
    OriginIsCutAt(text, sugs, start);
    OriginIsCutAt(text, sugs, end);
    CutsMonotone(text, sugs, start, end);
    var c, d := CutAt(text, sugs, start).value, CutAt(text, sugs, end).value;
    MiddleOrdered(sugs, c.o, c.k, d.o, d.k, |text|);
    var whole, mid := Corrected(text, sugs), sugs[c.k..d.k];
    assert sugs[..c.k] + mid == sugs[..d.k];
    RewriteConcat(text, sugs[..c.k], mid, 0, c.o, d.o);
    assert whole[..end] == whole[..start] + whole[start..end];
    assert whole[start..end] == Rewrite(text, c.o, d.o, mid);
    assert Corresponds(text, sugs, c.o, d.o, c.k, d.k, start, end);
  }

  lemma MiddleOrdered(sugs: seq<Suggestion>, o: int, k: nat, o': int, k': nat, textLen: int)
    requires k <= k' <= |sugs| && 0 <= o <= o' <= textLen
    requires Ordered(sugs[k..], o, textLen) && Ordered(sugs[..k'], 0, o') && Ordered(sugs[k'..], o', textLen)
    ensures Ordered(sugs[k..k'], o, o')
  {
    var after := sugs[k..];
    OrderedBounds(sugs[..k'], 0, o');
    OrderedBounds(sugs[k'..], o', textLen);
    assert after[..k' - k] == sugs[k..k'];
    assert k' > k ==> after[k' - k - 1] == sugs[..k'][k' - 1];
    assert k' < |sugs| ==> after[k' - k] == sugs[k'..][0];
    OrderedSplit(after, k' - k, o, o', textLen);
  }

  // Replacing [start, end) of the corrected text equals rewriting the original with the
  // inner edits swapped for one edit of the translated span.
  lemma SpliceThroughPass(text: Text, sugs: seq<Suggestion>, os: int, oe: int, ks: int, ke: int,
                          start: int, end: int, r: Suggestion)
    requires Ordered(sugs, 0, |text|) && Corresponds(text, sugs, os, oe, ks, ke, start, end)
    requires r.span == Span(os, oe)
    ensures var spliced := sugs[..ks] + [r] + sugs[ke..];
            && Ordered(spliced, 0, |text|)
            && Corrected(text, spliced)
               == Corrected(text, sugs)[..start] + r.replacement + Corrected(text, sugs)[end..]
  {
    hide Rewrite, Ordered;
    RewriteOne(text, r);
    RewriteConcat(text, sugs[..ks], [r], 0, os, oe);
    RewriteConcat(text, sugs[..ks] + [r], sugs[ke..], 0, oe, |text|);
  }

  lemma RewriteOne(text: Text, r: Suggestion)
    requires r.span.Valid(|text|)
    ensures Ordered([r], r.span.start, r.span.end)
    ensures Rewrite(text, r.span.start, r.span.end, [r]) == r.replacement
  {
    assert [r][1..] == [];
    var start, end := r.span.start, r.span.end;
    assert text[start..start] == [] && text[end..end] == [];
  }
}
