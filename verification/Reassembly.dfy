// Sentence-relative suggestions, shifted to the whole text and finalized once, correct each
// sentence exactly as if it had been corrected alone.
module Reassembly {
  import opened Edits
  import opened Finalize
  import opened Segments
  import Sorting

  function Shifted(sugs: seq<Suggestion>, offset: int): (r: seq<Suggestion>)
    ensures |r| == |sugs|
    ensures forall i :: 0 <= i < |r| ==> r[i] == sugs[i].Shift(offset)
  {
    seq(|sugs|, i requires 0 <= i < |sugs| => sugs[i].Shift(offset))
  }

  // All sentences' suggestions in whole-text coordinates, in sentence order.
  function UnionShifted(segs: seq<Segment>, answers: seq<seq<Suggestion>>): seq<Suggestion>
    requires |segs| == |answers|
  {
    if segs == [] then []
    else Shifted(answers[0], segs[0].start) + UnionShifted(segs[1..], answers[1..])
  }

  // The untouched gaps of the text interleaved with one text per segment.
  function Interleaved(text: Text, segs: seq<Segment>, outs: seq<Text>, from: int): Text
    requires |segs| == |outs| && 0 <= from && Ascending(segs, from, |text|)
    decreases |segs|
  {
    AscendingBounds(segs, from, |text|);
    if segs == [] then text[from..]
    else text[from..segs[0].start] + outs[0] + Interleaved(text, segs[1..], outs[1..], segs[0].end)
  }

  lemma {:induction false} AscendingBounds(segs: seq<Segment>, from: int, to: int)
    requires Ascending(segs, from, to)
    ensures from <= to
    ensures forall i :: 0 <= i < |segs| ==> from <= segs[i].start < segs[i].end <= to
    decreases |segs|
  {
    if segs != [] {
      AscendingBounds(segs[1..], segs[0].end, to);
      assert forall i :: 0 < i < |segs| ==> segs[i] == segs[1..][i - 1];
    }
  }

  // Between every two segments lies at least one byte of the text.
  ghost predicate Apartly(segs: seq<Segment>) {
    forall i :: 0 <= i < |segs| - 1 ==> segs[i].end < segs[i + 1].start
  }

  function Sentence(text: Text, seg: Segment): Text
    requires 0 <= seg.start <= seg.end <= |text|
  {
    text[seg.start..seg.end]
  }

  // --- Shifting commutes with finalize -----------------------------------------------------------

  lemma ShiftedCons(s: Suggestion, rest: seq<Suggestion>, offset: int)
    ensures Shifted([s] + rest, offset) == [s.Shift(offset)] + Shifted(rest, offset)
  {
  }

  lemma {:induction false} InsertShift(x: Suggestion, s: seq<Suggestion>, offset: int)
    ensures Sorting.Insert(StartLess, x.Shift(offset), Shifted(s, offset))
         == Shifted(Sorting.Insert(StartLess, x, s), offset)
  {
    if s == [] || !StartLess(s[0], x) {
      ShiftedCons(x, s, offset);
    } else {
      InsertShift(x, s[1..], offset);
      ShiftedCons(s[0], Sorting.Insert(StartLess, x, s[1..]), offset);
      assert Shifted(s, offset)[1..] == Shifted(s[1..], offset);
    }
  }

  lemma {:induction false} SortShift(s: seq<Suggestion>, offset: int)
    ensures Sorting.StableSort(StartLess, Shifted(s, offset)) == Shifted(Sorting.StableSort(StartLess, s), offset)
  {
    if s != [] {
      SortShift(s[1..], offset);
      InsertShift(s[0], Sorting.StableSort(StartLess, s[1..]), offset);
      assert Shifted(s, offset)[1..] == Shifted(s[1..], offset);
    }
  }

  lemma RuledOutShift(kept: seq<Suggestion>, s: Suggestion, offset: int)
    ensures RuledOut(Shifted(kept, offset), s.Shift(offset)) <==> RuledOut(kept, s)
  {
    var kept' := Shifted(kept, offset);
    forall i | 0 <= i < |kept|
      ensures KeyOf(kept'[i]) == KeyOf(s.Shift(offset)) <==> KeyOf(kept[i]) == KeyOf(s)
      ensures ZeroWidthConflict(kept'[i].span, s.Shift(offset).span) <==> ZeroWidthConflict(kept[i].span, s.span)
    {
      assert kept'[i] == kept[i].Shift(offset);
    }
    if RuledOut(kept, s) {
      var i :| 0 <= i < |kept| && (KeyOf(kept[i]) == KeyOf(s) || ZeroWidthConflict(kept[i].span, s.span));
      assert KeyOf(kept'[i]) == KeyOf(s.Shift(offset)) || ZeroWidthConflict(kept'[i].span, s.Shift(offset).span);
    }
  }

  lemma {:induction false} DeduplicatedShift(kept: seq<Suggestion>, s: seq<Suggestion>, offset: int)
    ensures Deduplicated(Shifted(kept, offset), Shifted(s, offset)) == Shifted(Deduplicated(kept, s), offset)
    decreases |s|
  {
    if s != [] {
      RuledOutShift(kept, s[0], offset);
      assert Shifted(s, offset)[1..] == Shifted(s[1..], offset);
      assert Shifted(kept + [s[0]], offset) == Shifted(kept, offset) + [s[0].Shift(offset)];
      DeduplicatedShift(if RuledOut(kept, s[0]) then kept else kept + [s[0]], s[1..], offset);
    }
  }

  lemma SettledShift(s: seq<Suggestion>, offset: int)
    ensures SettledList(Shifted(s, offset)) == Shifted(SettledList(s), offset)
  {
    SortShift(s, offset);
    assert Shifted([], offset) == [];
    DeduplicatedShift([], Sorting.StableSort(StartLess, s), offset);
  }

  // --- Finalize acts on successive parts ----------------------------------------------------------

  // Every span of a ends no later than any span of b begins.
  ghost predicate NotAfter(a: seq<Suggestion>, b: seq<Suggestion>) {
    forall x, y :: x in a && y in b ==> x.span.start <= x.span.end <= y.span.start <= y.span.end
  }

  lemma {:induction false} InsertConcat(x: Suggestion, s: seq<Suggestion>, t: seq<Suggestion>)
    requires forall y :: y in t ==> x.span.start <= y.span.start
    ensures Sorting.Insert(StartLess, x, s + t) == Sorting.Insert(StartLess, x, s) + t
  {
    if s == [] {
      assert s + t == t;
    } else if StartLess(s[0], x) {
      InsertConcat(x, s[1..], t);
      assert (s + t)[1..] == s[1..] + t;
    }
  }

  lemma {:induction false} SortConcat(a: seq<Suggestion>, b: seq<Suggestion>)
    requires NotAfter(a, b)
    ensures Sorting.StableSort(StartLess, a + b)
         == Sorting.StableSort(StartLess, a) + Sorting.StableSort(StartLess, b)
  {
    if a == [] {
      assert a + b == b;
    } else {
      assert (a + b)[1..] == a[1..] + b;
      SortConcat(a[1..], b);
      Sorting.SortMembers(StartLess, b);
      InsertConcat(a[0], Sorting.StableSort(StartLess, a[1..]), Sorting.StableSort(StartLess, b));
    }
  }

  lemma {:induction false} DeduplicatedConcat(kept: seq<Suggestion>, a: seq<Suggestion>, b: seq<Suggestion>)
    ensures Deduplicated(kept, a + b) == Deduplicated(Deduplicated(kept, a), b)
    decreases |a|
  {
    if a == [] {
      assert a + b == b;
    } else {
      assert (a + b)[1..] == a[1..] + b;
      DeduplicatedConcat(if RuledOut(kept, a[0]) then kept else kept + [a[0]], a[1..], b);
    }
  }

  lemma RuledOutConcat(a: seq<Suggestion>, b: seq<Suggestion>, s: Suggestion)
    ensures RuledOut(a + b, s) <==> RuledOut(a, s) || RuledOut(b, s)
  {
    var both := a + b;
    assert forall i :: 0 <= i < |a| ==> both[i] == a[i];
    assert forall i :: 0 <= i < |b| ==> both[|a| + i] == b[i];
    assert forall i :: |a| <= i < |both| ==> both[i] == b[i - |a|];
  }

  // No edit of b is ruled out by one of a.
  ghost predicate Tolerates(a: seq<Suggestion>, b: seq<Suggestion>) {
    forall y :: y in b ==> !RuledOut(a, y)
  }

  // Edits kept before do not matter if they tolerate what would be kept without them.
  lemma {:induction false} DeduplicatedIgnores(far: seq<Suggestion>, kept: seq<Suggestion>, b: seq<Suggestion>)
    requires |kept| <= |Deduplicated(kept, b)| && Tolerates(far, Deduplicated(kept, b)[|kept|..])
    ensures Deduplicated(far + kept, b) == far + Deduplicated(kept, b)
    decreases |b|
  {
    if b != [] {
      var s := b[0];
      var out := Deduplicated(kept, b);
      RuledOutConcat(far, kept, s);
      if RuledOut(kept, s) {
        DeduplicatedIgnores(far, kept, b[1..]);
      } else {
        var kept' := kept + [s];
        DeduplicatedMaximal(kept', b[1..]);
        assert out[|kept|] == s && out[|kept'|..] == out[|kept|..][1..];
        assert far + kept + [s] == far + kept';
        DeduplicatedIgnores(far, kept', b[1..]);
      }
    }
  }

  // Nothing kept is ruled out by what was kept before it.
  ghost predicate Consistent(s: seq<Suggestion>) {
    forall j :: 0 <= j < |s| ==> !RuledOut(s[..j], s[j])
  }

  lemma {:induction false} DeduplicatedConsistent(kept: seq<Suggestion>, s: seq<Suggestion>)
    requires Consistent(kept)
    ensures Consistent(Deduplicated(kept, s))
    decreases |s|
  {
    if s != [] {
      var kept' := if RuledOut(kept, s[0]) then kept else kept + [s[0]];
      assert Consistent(kept') by {
        assert forall j :: 0 <= j < |kept| ==> kept'[..j] == kept[..j];
        assert kept'[..|kept|] == kept;
      }
      DeduplicatedConsistent(kept', s[1..]);
    }
  }

  lemma SettledConcat(a: seq<Suggestion>, b: seq<Suggestion>)
    requires NotAfter(a, b) && Tolerates(SettledList(a), SettledList(b))
    ensures SettledList(a + b) == SettledList(a) + SettledList(b)
  {
    var a', b' := Sorting.StableSort(StartLess, a), Sorting.StableSort(StartLess, b);
    SortConcat(a, b);
    DeduplicatedConcat([], a', b');
    assert SettledList(a) + [] == SettledList(a);
    DeduplicatedIgnores(SettledList(a), [], b');
  }

  // --- The union of several sentences ----------------------------------------------------------------

  // Each answer is valid in its own sentence.
  ghost predicate AnswersFit(segs: seq<Segment>, answers: seq<seq<Suggestion>>) {
    && |segs| == |answers|
    && forall i :: 0 <= i < |segs| ==> AllValid(answers[i], segs[i].end - segs[i].start)
  }

  function SettledAnswers(answers: seq<seq<Suggestion>>): (r: seq<seq<Suggestion>>)
    ensures |r| == |answers|
    ensures forall i :: 0 <= i < |r| ==> r[i] == SettledList(answers[i])
  {
    seq(|answers|, i requires 0 <= i < |answers| => SettledList(answers[i]))
  }

  lemma {:induction false} UnionWithin(segs: seq<Segment>, answers: seq<seq<Suggestion>>, from: int, to: int)
    requires AnswersFit(segs, answers) && Ascending(segs, from, to)
    ensures forall s :: s in UnionShifted(segs, answers) ==>
              segs[0].start <= s.span.start <= s.span.end <= to
    decreases |segs|
  {
    AscendingBounds(segs, from, to);
    if segs != [] {
      UnionWithin(segs[1..], answers[1..], segs[0].end, to);
      AscendingBounds(segs[1..], segs[0].end, to);
      ShiftedWithin(answers[0], segs[0]);
      assert |segs| > 1 ==> segs[1..][0] == segs[1];
    }
  }

  lemma ShiftedWithin(answer: seq<Suggestion>, seg: Segment)
    requires AllValid(answer, seg.end - seg.start)
    ensures forall s :: s in Shifted(answer, seg.start) ==> seg.start <= s.span.start <= s.span.end <= seg.end
  {
    var shifted := Shifted(answer, seg.start);
    forall s | s in shifted
      ensures seg.start <= s.span.start <= s.span.end <= seg.end
    {
      var i :| 0 <= i < |shifted| && shifted[i] == s;
      assert answer[i] in answer;
    }
  }

  // No edit of a sentence is ruled out by one of an earlier sentence. Inside different
  // sentences that takes an insertion on a boundary that two touching sentences share.
  ghost predicate Uncontested(segs: seq<Segment>, answers: seq<seq<Suggestion>>)
    requires |segs| == |answers|
  {
    segs == []
    || (&& Tolerates(Shifted(answers[0], segs[0].start), UnionShifted(segs[1..], answers[1..]))
        && Uncontested(segs[1..], answers[1..]))
  }

  lemma {:induction false} ConsistentIsUncontested(segs: seq<Segment>, answers: seq<seq<Suggestion>>)
    requires |segs| == |answers| && Consistent(UnionShifted(segs, answers))
    ensures Uncontested(segs, answers)
    decreases |segs|
  {
    if segs != [] {
      var first, rest := Shifted(answers[0], segs[0].start), UnionShifted(segs[1..], answers[1..]);
      forall j | 0 <= j < |rest|
        ensures !RuledOut(first, rest[j]) && !RuledOut(rest[..j], rest[j])
      {
        assert (first + rest)[..|first| + j] == first + rest[..j] && (first + rest)[|first| + j] == rest[j];
        RuledOutConcat(first, rest[..j], rest[j]);
      }
      ConsistentIsUncontested(segs[1..], answers[1..]);
    }
  }

  // Finalizing the union is finalizing every sentence by itself, exactly when no sentence's
  // final edits contest another's.
  lemma UnionSettlesIff(segs: seq<Segment>, answers: seq<seq<Suggestion>>, from: int, to: int)
    requires AnswersFit(segs, answers) && Ascending(segs, from, to)
    ensures SettledList(UnionShifted(segs, answers)) == UnionShifted(segs, SettledAnswers(answers))
       <==> Uncontested(segs, SettledAnswers(answers))
  {
    if Uncontested(segs, SettledAnswers(answers)) {
      UnionSettles(segs, answers, from, to);
    } else if SettledList(UnionShifted(segs, answers)) == UnionShifted(segs, SettledAnswers(answers)) {
      DeduplicatedConsistent([], Sorting.StableSort(StartLess, UnionShifted(segs, answers)));
      ConsistentIsUncontested(segs, SettledAnswers(answers));
    }
  }

  lemma {:induction false} UnionSettles(segs: seq<Segment>, answers: seq<seq<Suggestion>>, from: int, to: int)
    requires AnswersFit(segs, answers) && Ascending(segs, from, to)
    requires Uncontested(segs, SettledAnswers(answers))
    ensures SettledList(UnionShifted(segs, answers)) == UnionShifted(segs, SettledAnswers(answers))
    decreases |segs|
  {
    if segs != [] {
      var first, rest := Shifted(answers[0], segs[0].start), UnionShifted(segs[1..], answers[1..]);
      assert SettledAnswers(answers)[1..] == SettledAnswers(answers[1..]);
      UnionSettles(segs[1..], answers[1..], segs[0].end, to);
      FirstNotAfterRest(segs, answers, from, to);
      SettledShift(answers[0], segs[0].start);
      SettledConcat(first, rest);
    }
  }

  lemma FirstNotAfterRest(segs: seq<Segment>, answers: seq<seq<Suggestion>>, from: int, to: int)
    requires segs != [] && AnswersFit(segs, answers) && Ascending(segs, from, to)
    ensures NotAfter(Shifted(answers[0], segs[0].start), UnionShifted(segs[1..], answers[1..]))
    ensures |segs| > 1 && segs[0].end < segs[1].start ==>
              Tolerates(Shifted(answers[0], segs[0].start), UnionShifted(segs[1..], answers[1..]))
  {
    ShiftedWithin(answers[0], segs[0]);
    UnionWithin(segs[1..], answers[1..], segs[0].end, to);
    if |segs| > 1 {
      assert segs[1..][0] == segs[1] && segs[0].end <= segs[1].start;
    }
  }

  // Sentences that do not touch are never contested.
  lemma {:induction false} ApartIsUncontested(segs: seq<Segment>, answers: seq<seq<Suggestion>>, from: int, to: int)
    requires AnswersFit(segs, answers) && Ascending(segs, from, to) && Apartly(segs)
    ensures Uncontested(segs, answers)
    decreases |segs|
  {
    if segs != [] {
      assert forall i :: 0 <= i < |segs[1..]| ==> segs[1..][i] == segs[i + 1] && answers[1..][i] == answers[i + 1];
      ApartIsUncontested(segs[1..], answers[1..], segs[0].end, to);
      FirstNotAfterRest(segs, answers, from, to);
    }
  }

  lemma SettledFit(segs: seq<Segment>, answers: seq<seq<Suggestion>>)
    requires AnswersFit(segs, answers)
    ensures AnswersFit(segs, SettledAnswers(answers))
  {
    forall i | 0 <= i < |segs|
      ensures AllValid(SettledList(answers[i]), segs[i].end - segs[i].start)
    {
      Sorting.SortMembers(StartLess, answers[i]);
      DeduplicatedMaximal([], Sorting.StableSort(StartLess, answers[i]));
    }
  }

  // --- Rewriting sentence by sentence --------------------------------------------------------------------

  lemma {:induction false} RewriteShift(text: Text, seg: Segment, sugs: seq<Suggestion>, from: int)
    requires 0 <= seg.start <= seg.end <= |text| && 0 <= from
    requires Ordered(sugs, from, seg.end - seg.start)
    ensures Ordered(Shifted(sugs, seg.start), seg.start + from, seg.end)
    ensures Rewrite(text, seg.start + from, seg.end, Shifted(sugs, seg.start))
         == Rewrite(Sentence(text, seg), from, seg.end - seg.start, sugs)
    decreases |sugs|
  {
    var len := seg.end - seg.start;
    OrderedBounds(sugs, from, len);
    if sugs == [] {
      SentenceSlice(text, seg, from, len);
    } else {
      RewriteShift(text, seg, sugs[1..], sugs[0].span.end);
      RewriteShiftStep(text, seg, sugs[0], sugs[1..], from);
      assert sugs == [sugs[0]] + sugs[1..];
    }
  }

  lemma RewriteShiftStep(text: Text, seg: Segment, s: Suggestion, rest: seq<Suggestion>, from: int)
    requires 0 <= seg.start <= seg.end <= |text| && 0 <= from <= s.span.start <= s.span.end
    requires Ordered(rest, s.span.end, seg.end - seg.start)
    requires Ordered(Shifted(rest, seg.start), seg.start + s.span.end, seg.end)
    requires Rewrite(text, seg.start + s.span.end, seg.end, Shifted(rest, seg.start))
          == Rewrite(Sentence(text, seg), s.span.end, seg.end - seg.start, rest)
    ensures Ordered(Shifted([s] + rest, seg.start), seg.start + from, seg.end)
    ensures Ordered([s] + rest, from, seg.end - seg.start)
    ensures Rewrite(text, seg.start + from, seg.end, Shifted([s] + rest, seg.start))
         == Rewrite(Sentence(text, seg), from, seg.end - seg.start, [s] + rest)
  {
    OrderedBounds(rest, s.span.end, seg.end - seg.start);
    hide Rewrite, Ordered, Sentence;
    SentenceSlice(text, seg, from, s.span.start);
    RewriteCons(Sentence(text, seg), from, seg.end - seg.start, s, rest);
    RewriteCons(text, seg.start + from, seg.end, s.Shift(seg.start), Shifted(rest, seg.start));
    ShiftedCons(s, rest, seg.start);
  }

  lemma SentenceSlice(text: Text, seg: Segment, from: int, to: int)
    requires 0 <= seg.start <= seg.end <= |text| && 0 <= from <= to <= seg.end - seg.start
    ensures text[seg.start + from..seg.start + to] == Sentence(text, seg)[from..to]
  {
    SliceOfSlice(text, seg.start, seg.end, from, to);
  }

  lemma SliceOfSlice(text: Text, start: int, end: int, from: int, to: int)
    requires 0 <= start <= end <= |text| && 0 <= from <= to <= end - start
    ensures text[start..end][from..to] == text[start + from..start + to]
  {
    var whole := text[start..end];
    assert forall i :: 0 <= i < to - from ==> whole[from..to][i] == whole[from + i] == text[start + from + i];
  }

  // Rewriting the text by the shifted union rewrites every sentence and nothing else.
  lemma {:induction false} UnionRewrites(
      text: Text, segs: seq<Segment>, answers: seq<seq<Suggestion>>, outs: seq<Text>, from: int)
    requires |segs| == |answers| == |outs| && 0 <= from && Ascending(segs, from, |text|)
    requires forall i :: 0 <= i < |segs| ==> 0 <= segs[i].start <= segs[i].end <= |text|
    requires forall i :: 0 <= i < |segs| ==>
               var sentence := Sentence(text, segs[i]);
               && Ordered(answers[i], 0, |sentence|)
               && outs[i] == Rewrite(sentence, 0, |sentence|, answers[i])
    ensures Ordered(UnionShifted(segs, answers), from, |text|)
    ensures Rewrite(text, from, |text|, UnionShifted(segs, answers)) == Interleaved(text, segs, outs, from)
    decreases |segs|
  {
    AscendingBounds(segs, from, |text|);
    if segs != [] {
      var seg := segs[0];
      hide Ordered, Rewrite;
      var first, rest := Shifted(answers[0], seg.start), UnionShifted(segs[1..], answers[1..]);
      UnionRewrites(text, segs[1..], answers[1..], outs[1..], seg.end);
      RewriteShift(text, seg, answers[0], 0);
      RewriteSkip(text, from, seg.start, seg.end, first);
      RewriteConcat(text, first, rest, from, seg.end, |text|);
    }
  }

  // Main result: for ascending segments, and any valid, pairwise apart answers that do not
  // contest each other, applying the one finalized list to the whole text leaves the gaps
  // alone and turns each sentence into what its own finalized answer turns it into.
  lemma ReassemblyCorrect(text: Text, segs: seq<Segment>, answers: seq<seq<Suggestion>>, outs: seq<Text>)
    requires Ascending(segs, 0, |text|) && AnswersFit(segs, answers) && |outs| == |segs|
    requires Apartly(segs) || Uncontested(segs, SettledAnswers(answers))
    requires forall i :: 0 <= i < |segs| ==> Sorting.Pairwise(Apart, answers[i])
    requires forall i :: 0 <= i < |segs| ==> 0 <= segs[i].start <= segs[i].end <= |text|
    requires forall i :: 0 <= i < |segs| ==>
               outs[i] == AppliedLastFirst(Sentence(text, segs[i]), Finalized(s => false, answers[i]))
    ensures AppliedLastFirst(text, Finalized(s => false, UnionShifted(segs, answers)))
         == Interleaved(text, segs, outs, 0)
  {
    var settled := SettledAnswers(answers);
    forall i | 0 <= i < |segs|
      ensures var sentence := Sentence(text, segs[i]);
              Ordered(settled[i], 0, |sentence|) && outs[i] == Rewrite(sentence, 0, |sentence|, settled[i])
    {
      FilteredNothing(answers[i]);
      FinalizedOrdered(Sentence(text, segs[i]), s => false, answers[i]);
    }
    FilteredNothing(UnionShifted(segs, answers));
    SettledFit(segs, answers);
    if Apartly(segs) {
      ApartIsUncontested(segs, settled, 0, |text|);
    }
    UnionSettles(segs, answers, 0, |text|);
    UnionRewrites(text, segs, settled, outs, 0);
    LastFirstIsRewrite(text, UnionShifted(segs, settled), 0);
  }

  // A contested boundary: an insertion at the end of one sentence and one at the start of
  // the next, touching one; finalize drops the second.
  lemma TouchingSegmentsLoseEdits()
    ensures var text: Text := [65, 66];
            var segs := [Segment(0, 1), Segment(1, 2)];
            var atEnd := Suggestion(Span(1, 1), [46], LLM, Grammar, 0.0);
            var atStart := Suggestion(Span(0, 0), [32], LLM, Grammar, 0.0);
            && Ascending(segs, 0, |text|) && AnswersFit(segs, [[atEnd], [atStart]]) && !Apartly(segs)
            && SettledList(UnionShifted(segs, [[atEnd], [atStart]])) == [atEnd]
  {
    var segs := [Segment(0, 1), Segment(1, 2)];
    var atEnd := Suggestion(Span(1, 1), [46], LLM, Grammar, 0.0);
    var atStart := Suggestion(Span(0, 0), [32], LLM, Grammar, 0.0);
    var shifted := atStart.Shift(1);
    assert segs[1..] == [Segment(1, 2)] && [[atEnd], [atStart]][1..] == [[atStart]];
    assert UnionShifted(segs[1..], [[atStart]]) == [shifted] by {
      assert segs[1..][1..] == [] && [[atStart]][1..] == [];
      assert Shifted([atStart], 1) == [shifted];
    }
    var union := UnionShifted(segs, [[atEnd], [atStart]]);
    assert Shifted([atEnd], 0) == [atEnd];
    assert union == [atEnd, shifted];
    assert union[1..] == [shifted] && [shifted][1..] == [];
    assert Sorting.StableSort(StartLess, union) == union;
    assert RuledOut([atEnd], shifted) by { assert ZeroWidthConflict([atEnd][0].span, shifted.span); }
    assert Deduplicated([atEnd], [shifted]) == [atEnd];
    assert !RuledOut([], atEnd) && [] + [atEnd] == [atEnd];
    assert Deduplicated([], union) == Deduplicated([atEnd], [shifted]);
  }

  // A lost sentence: the whole line follows the sentence already located in it, and an edit
  // of each overlaps; finalize keeps both.
  lemma LostSentenceOverlaps()
    ensures var text: Text := [65, 66];
            var tools := Tools(t => false, t => false, Some((t: Text) => [[65], [67]]));
            var part := Suggestion(Span(0, 1), [88], LLM, Grammar, 0.0);
            var whole := Suggestion(Span(0, 2), [89], LLM, Grammar, 0.0);
            && SomeLineLoses(text, 0, tools)
            && Segmented(text, tools) == [Segment(0, 1), Segment(0, 2)]
            && AnswersFit(Segmented(text, tools), [[part], [whole]])
            && SettledList(UnionShifted(Segmented(text, tools), [[part], [whole]])) == [part, whole]
            && Overlaps(part.span, whole.span)
  {
    var text: Text := [65, 66];
    var sentences: seq<Text> := [[65], [67]];
    var tools := Tools(t => false, t => false, Some((t: Text) => sentences));
    assert LineAt(text, 0) == text && NextLine(text, 0) == 2;
    assert sentences[1..] == [[67]];
    assert OccursAt(text, 0, [65]) && Find(text, 0, [65]) == 0;
    assert !OccursAt(text, 1, [67]) && !OccursAt(text, 2, [67]);
    assert Find(text, 1, [67]) == -1;
    assert Relocated(text, 0, 1, [[67]]) == [Segment(0, 2)];
    assert Relocated(text, 0, 0, sentences) == [Segment(0, 1), Segment(0, 2)];
    assert LostAfter(text, 1, [[67]], true) && LostAfter(text, 0, sentences, false);
    TwoOverlapping();
  }

  lemma TwoOverlapping()
    ensures var part := Suggestion(Span(0, 1), [88], LLM, Grammar, 0.0);
            var whole := Suggestion(Span(0, 2), [89], LLM, Grammar, 0.0);
            SettledList(UnionShifted([Segment(0, 1), Segment(0, 2)], [[part], [whole]])) == [part, whole]
  {
    var part := Suggestion(Span(0, 1), [88], LLM, Grammar, 0.0);
    var whole := Suggestion(Span(0, 2), [89], LLM, Grammar, 0.0);
    var segs := [Segment(0, 1), Segment(0, 2)];
    assert Shifted([part], 0) == [part] && Shifted([whole], 0) == [whole];
    assert segs[1..] == [Segment(0, 2)] && [[part], [whole]][1..] == [[whole]];
    assert UnionShifted(segs[1..], [[whole]]) == [whole] by {
      assert segs[1..][1..] == [] && [[whole]][1..] == [];
    }
    var union := UnionShifted(segs, [[part], [whole]]);
    assert union == [part, whole] && union[1..] == [whole] && [whole][1..] == [];
    assert Sorting.StableSort(StartLess, union) == union;
    assert !RuledOut([part], whole) && [part] + [whole] == [part, whole];
    assert Deduplicated([part, whole], []) == [part, whole];
    assert Deduplicated([part], [whole]) == [part, whole];
    assert !RuledOut([], part) && [] + [part] == [part];
    assert Deduplicated([], union) == Deduplicated([part], [whole]);
  }
}
