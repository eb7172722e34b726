// Service.Correct from end to end: segment the text, answer every sentence (through the
// cache), shift, finalize once. Ties the per-sentence pipeline to the text a client gets.
module WholeText {
  import opened Edits
  import opened Finalize
  import opened Reassembly
  import opened Segments
  import opened SentenceCaching
  import Service
  import Sorting

  // --- What Correct returns --------------------------------------------------------------------

  // The fields of a text checked in one piece: no neighbours, no context.
  function WholeFields(p: Pipeline, text: Text): Fields {
    Fields(p.baseModel, p.systemFor(text, []), text, [], p.picky)
  }

  // The tokenizer returns pieces of every line in order; or at least no line of this text
  // loses a sentence to relocation.
  ghost predicate LosesNothing(text: Text, tools: Tools) {
    TokenizesInOrder(tools) || !SomeLineLoses(text, 0, tools)
  }

  // The segments of a text, with what holds of them whatever the tokenizer does.
  function SentencesOf(text: Text, tools: Tools): (segs: seq<Segment>)
    ensures forall seg :: seg in segs ==> InBounds(seg, 0, |text|) && NEWLINE !in text[seg.start..seg.end]
    ensures LosesNothing(text, tools) ==> Ascending(segs, 0, |text|)
  {
    SegmentsWithinLines(text, 0, tools);
    AscendingIffNoneLost(text, 0, tools);
    assert LosesNothing(text, tools) ==> !SomeLineLoses(text, 0, tools) by {
      if TokenizesInOrder(tools) {
        InOrderNeverLoses(text, 0, tools);
      }
    }
    Segmented(text, tools)
  }

  // The sentence path needs two segments; anything less is checked in one piece.
  ghost function Raw(p: Pipeline, text: Text, tools: Tools): Option<seq<Suggestion>> {
    var segs := SentencesOf(text, tools);
    if |segs| < 2 then p.once(WholeFields(p, text)) else Uncached(p, text, segs)
  }

  // The fields of this text, whole or in sentences.
  ghost predicate UsesFields(p: Pipeline, used: iset<Fields>, text: Text, tools: Tools) {
    var segs := SentencesOf(text, tools);
    if |segs| < 2 then WholeFields(p, text) in used else FieldsUsed(p, used, text, segs)
  }

  // Without sentence context, only the model's name and the prompts must be free of NULs:
  // the keys of all texts are then distinct.
  lemma EveryTextKeyed(p: Pipeline, text: Text, tools: Tools)
    requires !p.sentenceContext && Nuls(p.baseModel) == 0 && forall s, c :: Nuls(p.systemFor(s, c)) == 0
    ensures var used := iset f: Fields | Delimited(f); Unambiguous(used) && UsesFields(p, used, text, tools)
  {
    DelimitedUnambiguous();
  }

  // The response: the raw suggestions, finalized.
  ghost function Response(p: Pipeline, text: Text, tools: Tools, drop: Suggestion -> bool): Option<seq<Suggestion>> {
    var raw := Raw(p, text, tools);
    if raw.None? then None else Some(Finalized(drop, raw.value))
  }

  // Service.Correct; `drop` is finalize's two filters.
  method Correct(
      cache: SentenceCache?, p: Pipeline, ghost used: iset<Fields>, text: Text, tools: Tools,
      drop: Suggestion -> bool, flights: Flights)
      returns (r: Option<seq<Suggestion>>)
    requires UsesFields(p, used, text, tools) && Unambiguous(used) && FlightsAgree(p, used, flights)
    requires cache != null ==> cache.Valid() && Coherent(p, used, cache.Contents())
    modifies if cache == null then {} else {cache}
    ensures r == Response(p, text, tools, drop)
    ensures cache != null ==> cache.Valid() && Coherent(p, used, cache.Contents())
  {
    var segs := SegmentSentences(text, tools);
    var all;
    if |segs| < 2 {
      var sugs, ok := AnswerFor(null, p, used, WholeFields(p, text), flights);
      all := if ok then Some(sugs[..]) else None;
    } else {
      all := CorrectSentences(cache, p, used, text, segs, flights);
    }
    if all.None? {
      return None;
    }
    var out := Finalize.Finalize(drop, all.value);
    r := Some(out);
  }

  // --- What the pipeline is asked ----------------------------------------------------------------

  // The context of a sentence between these neighbours (empty ones are not there).
  predicate IsContext(prev: Text, next: Text, context: Text) {
    context == if prev == [] then next else if next == [] then prev else prev + [10] + next
  }

  // The question for the i-th sentence: the request's model, mode and prompt, the sentence's
  // bytes, and its neighbours' bytes if the service adds context.
  ghost predicate AsksSentence(p: Pipeline, text: Text, segs: seq<Segment>, i: nat, f: Fields)
    requires i < |segs| && forall k :: 0 <= k < |segs| ==> 0 <= segs[k].start < segs[k].end <= |text|
  {
    var prev := if i == 0 then [] else text[segs[i - 1].start..segs[i - 1].end];
    var next := if i + 1 == |segs| then [] else text[segs[i + 1].start..segs[i + 1].end];
    && f.sentence == text[segs[i].start..segs[i].end]
    && (if p.sentenceContext then IsContext(prev, next, f.context) else f.context == [])
    && f.baseModel == p.baseModel && f.system == p.systemFor(f.sentence, f.context) && f.picky == p.picky
  }

  // The question for a text checked in one piece.
  predicate AsksWhole(p: Pipeline, text: Text, f: Fields) {
    && f.sentence == text && f.context == [] && f.picky == p.picky
    && f.baseModel == p.baseModel && f.system == p.systemFor(text, [])
  }

  lemma SentenceAsked(p: Pipeline, text: Text, segs: seq<Segment>, i: nat, f: Fields)
    requires i < |segs| && forall k :: 0 <= k < |segs| ==> 0 <= segs[k].start < segs[k].end <= |text|
    ensures forall s :: s in segs ==> InBounds(s, 0, |text|)
    ensures AsksSentence(p, text, segs, i, f) <==> f == FieldsFor(p, text, segs, i)
  {
    assert forall s :: s in segs ==> InBounds(s, 0, |text|);
  }

  // Main result on the questions: a text of one sentence or none is one question, and the
  // response its finalized answer; otherwise every sentence is asked for by itself, failed ones
  // contribute nothing unless all fail, and the answers, shifted, are finalized together.
  lemma ResponseExact(p: Pipeline, text: Text, tools: Tools, drop: Suggestion -> bool)
    ensures var segs := Segmented(text, tools);
            && (forall k :: 0 <= k < |segs| ==> 0 <= segs[k].start < segs[k].end <= |text|)
            && (|segs| <= 1 ==> forall f :: AsksWhole(p, text, f) ==>
                  Response(p, text, tools, drop)
                  == if p.once(f) == None then None else Some(Finalized(drop, p.once(f).value)))
            && (|segs| >= 2 ==> forall fs :: AllAsked(p, text, segs, fs) ==>
                  Response(p, text, tools, drop)
                  == if (forall i :: 0 <= i < |fs| ==> p.once(fs[i]) == None) then None
                     else Some(Finalized(drop, UnionShifted(segs, AnswersTo(p, fs)))))
  {
    var segs := SentencesOf(text, tools);
    assert forall k :: 0 <= k < |segs| ==> segs[k] in segs && InBounds(segs[k], 0, |text|);
    if |segs| >= 2 {
      forall fs | AllAsked(p, text, segs, fs)
        ensures AnswersTo(p, fs) == Answers(p, text, segs)
        ensures AllFail(p, text, segs) <==> forall i :: 0 <= i < |fs| ==> p.once(fs[i]) == None
      {
        forall i | 0 <= i < |segs|
          ensures fs[i] == FieldsFor(p, text, segs, i)
        {
          SentenceAsked(p, text, segs, i, fs[i]);
        }
      }
    }
  }

  ghost predicate AllAsked(p: Pipeline, text: Text, segs: seq<Segment>, fs: seq<Fields>)
    requires forall k :: 0 <= k < |segs| ==> 0 <= segs[k].start < segs[k].end <= |text|
  {
    |fs| == |segs| && forall i :: 0 <= i < |segs| ==> AsksSentence(p, text, segs, i, fs[i])
  }

  function AnswersTo(p: Pipeline, fs: seq<Fields>): (r: seq<seq<Suggestion>>)
    ensures |r| == |fs|
    ensures forall i :: 0 <= i < |r| ==> r[i] == if p.once(fs[i]).Some? then p.once(fs[i]).value else []
  {
    seq(|fs|, i requires 0 <= i < |fs| => OrNone(p.once(fs[i])))
  }

  // So two pipelines that answer the request's own questions alike give one response.
  lemma OnlyItsQuestions(p: Pipeline, q: Pipeline, text: Text, tools: Tools, drop: Suggestion -> bool)
    requires q == p.(once := q.once)
    requires forall f: Fields :: f.baseModel == p.baseModel && f.picky == p.picky
               && f.system == p.systemFor(f.sentence, f.context) && (p.sentenceContext || f.context == [])
               ==> p.once(f) == q.once(f)
    ensures Response(p, text, tools, drop) == Response(q, text, tools, drop)
  {
    var segs := SentencesOf(text, tools);
    assert forall k :: 0 <= k < |segs| ==> segs[k] in segs && InBounds(segs[k], 0, |text|);
    if |segs| >= 2 {
      forall i | 0 <= i < |segs|
        ensures FieldsFor(p, text, segs, i) == FieldsFor(q, text, segs, i)
        ensures p.once(FieldsFor(p, text, segs, i)) == q.once(FieldsFor(q, text, segs, i))
      {
        SentenceAsked(p, text, segs, i, FieldsFor(p, text, segs, i));
      }
      assert Answers(p, text, segs) == Answers(q, text, segs);
    }
  }

  // --- Sessions ----------------------------------------------------------------------------------

  // One request: its own model, prompts, mode and filters, and the calls it finds in flight.
  datatype Request = Request(p: Pipeline, text: Text, tools: Tools, drop: Suggestion -> bool, flights: Flights)

  // Every answer is a function of the key's fields, the same for all requests.
  ghost predicate Servable(once: Fields -> Option<seq<Suggestion>>, used: iset<Fields>, q: Request)
    reads set k | k in q.flights && q.flights[k].Some? :: q.flights[k].value
  {
    q.p.once == once && UsesFields(q.p, used, q.text, q.tools) && FlightsAgree(q.p, used, q.flights)
  }

  lemma SameAnswers(p: Pipeline, q: Pipeline, used: iset<Fields>, contents: map<Text, seq<Suggestion>>)
    requires p.once == q.once && Coherent(p, used, contents)
    ensures Coherent(q, used, contents)
  {
  }

  // Main result: cache transparency over a whole session. Whatever the capacity, and however
  // the requests differ in text, prompts, mode, context and filters, one shared cache gives
  // every request the response it would get without any, if no two fields in use share a key.
  method Session(
      size: nat, once: Fields -> Option<seq<Suggestion>>, ghost used: iset<Fields>, requests: seq<Request>)
      returns (results: seq<Option<seq<Suggestion>>>)
    requires size > 0 && Unambiguous(used)
    requires forall i :: 0 <= i < |requests| ==> Servable(once, used, requests[i])
    ensures |results| == |requests|
    ensures forall i :: 0 <= i < |requests| ==>
              results[i] == Response(requests[i].p, requests[i].text, requests[i].tools, requests[i].drop)
  {
    hide Response, UsesFields, FlightsAgree, Unambiguous;
    var cache := new SentenceCache(size);
    results := [];
    ghost var anchor := Pipeline([], (sentence, context) => [], false, false, once);
    for i := 0 to |requests|
      invariant fresh(cache) && cache.Valid() && |results| == i
      invariant forall k :: i <= k < |requests| ==> Servable(once, used, requests[k])
      invariant Coherent(anchor, used, cache.Contents())
      invariant forall k :: 0 <= k < i ==>
                  results[k] == Response(requests[k].p, requests[k].text, requests[k].tools, requests[k].drop)
    {
      var q := requests[i];
      SameAnswers(anchor, q.p, used, cache.Contents());
      var r := Correct(cache, q.p, used, q.text, q.tools, q.drop, q.flights);
      SameAnswers(q.p, anchor, used, cache.Contents());
      results := results + [r];
    }
  }

  // --- The answers are those of correctOnce ------------------------------------------------------

  // Every answer of the pipeline is one that correctOnce may give, for some behaviour of
  // the language model, the correctors and the verifier.
  ghost predicate AnswersAreRuns(p: Pipeline) {
    forall f: Fields :: exists run: Service.Run :: IsRunOn(run, f.sentence) && Service.CorrectOnceYields(run, p.once(f))
  }

  ghost predicate IsRunOn(run: Service.Run, sentence: Text) {
    run.text == sentence && Service.DiffSpells(run) && Service.FastValid(run)
  }

  lemma AnswerSound(p: Pipeline, f: Fields)
    requires AnswersAreRuns(p)
    ensures Sorting.Pairwise(Apart, OrNone(p.once(f))) && AllValid(OrNone(p.once(f)), |f.sentence|)
  {
    var run: Service.Run :| IsRunOn(run, f.sentence) && Service.CorrectOnceYields(run, p.once(f));
    if p.once(f).Some? {
      Service.CorrectOnceSound(run, p.once(f), s => false);
    }
  }

  lemma AnswersSound(p: Pipeline, text: Text, segs: seq<Segment>)
    requires AnswersAreRuns(p) && forall s :: s in segs ==> InBounds(s, 0, |text|)
    ensures AnswersFit(segs, Answers(p, text, segs))
    ensures forall i :: 0 <= i < |segs| ==> Sorting.Pairwise(Apart, Answers(p, text, segs)[i])
  {
    forall i | 0 <= i < |segs|
      ensures Sorting.Pairwise(Apart, Answers(p, text, segs)[i])
      ensures AllValid(Answers(p, text, segs)[i], segs[i].end - segs[i].start)
    {
      assert InBounds(segs[i], 0, |text|);
      AnswerSound(p, FieldsFor(p, text, segs, i));
    }
  }

  // --- Safety of every response ------------------------------------------------------------------

  lemma {:induction false} UnionApart(segs: seq<Segment>, answers: seq<seq<Suggestion>>, from: int, to: int)
    requires AnswersFit(segs, answers) && Ascending(segs, from, to) && 0 <= from
    requires forall i :: 0 <= i < |segs| ==> Sorting.Pairwise(Apart, answers[i])
    ensures Sorting.Pairwise(Apart, UnionShifted(segs, answers))
    ensures AllValid(UnionShifted(segs, answers), to)
    decreases |segs|
  {
    AscendingBounds(segs, from, to);
    UnionWithin(segs, answers, from, to);
    if segs != [] {
      var first, rest := Shifted(answers[0], segs[0].start), UnionShifted(segs[1..], answers[1..]);
      UnionApart(segs[1..], answers[1..], segs[0].end, to);
      FirstEndsBefore(segs, answers, from, to);
      forall i, j | 0 <= i < j < |first|
        ensures Apart(first[i], first[j])
      {
        assert Apart(answers[0][i], answers[0][j]);
      }
      PairwiseAcross(first, rest, segs[0].end);
    }
  }

  lemma FirstEndsBefore(segs: seq<Segment>, answers: seq<seq<Suggestion>>, from: int, to: int)
    requires segs != [] && AnswersFit(segs, answers) && Ascending(segs, from, to)
    ensures forall s :: s in Shifted(answers[0], segs[0].start) ==> s.span.start <= s.span.end <= segs[0].end
    ensures forall s :: s in UnionShifted(segs[1..], answers[1..]) ==> segs[0].end <= s.span.start <= s.span.end
  {
    AscendingBounds(segs, from, to);
    ShiftedWithin(answers[0], segs[0]);
    UnionWithin(segs[1..], answers[1..], segs[0].end, to);
    if |segs| > 1 {
      assert segs[1..][0] == segs[1] && segs[0].end <= segs[1].start;
    }
  }

  lemma PairwiseAcross(a: seq<Suggestion>, b: seq<Suggestion>, mid: int)
    requires Sorting.Pairwise(Apart, a) && Sorting.Pairwise(Apart, b)
    requires forall s :: s in a ==> s.span.start <= s.span.end <= mid
    requires forall s :: s in b ==> mid <= s.span.start <= s.span.end
    ensures Sorting.Pairwise(Apart, a + b)
  {
    forall i, j | 0 <= i < j < |a + b|
      ensures Apart((a + b)[i], (a + b)[j])
    {
      assert i < |a| ==> (a + b)[i] in a;
      assert j >= |a| ==> (a + b)[j] in b;
    }
  }

  // Main result: whatever the foreign parts answer, touching sentences included, what
  // Correct returns is an ordered list of valid spans of the request text, and applying it
  // last to first is simultaneous replacement; unless a line lost a sentence to relocation.
  lemma ResponseSound(p: Pipeline, text: Text, tools: Tools, drop: Suggestion -> bool)
    requires AnswersAreRuns(p) && LosesNothing(text, tools)
    requires Raw(p, text, tools).Some?
    ensures var out := Finalized(drop, Raw(p, text, tools).value);
            && Ordered(out, 0, |text|) && Settled(out)
            && AppliedLastFirst(text, out) == Rewrite(text, 0, |text|, out)
  {
    var segs := SentencesOf(text, tools);
    if |segs| < 2 {
      AnswerSound(p, WholeFields(p, text));
    } else {
      AnswersSound(p, text, segs);
      UnionApart(segs, Answers(p, text, segs), 0, |text|);
    }
    FinalizedOrdered(text, drop, Raw(p, text, tools).value);
  }

  // --- Sentence by sentence ------------------------------------------------------------------------

  // Judging an edit in the text is judging it in its sentence.
  ghost predicate JudgedLocally(drop: Suggestion -> bool, segs: seq<Segment>, answers: seq<seq<Suggestion>>,
                                local: seq<Suggestion -> bool>)
  {
    && |segs| == |answers| == |local|
    && forall i, s :: 0 <= i < |segs| && s in answers[i] ==> drop(s.Shift(segs[i].start)) == local[i](s)
  }

  lemma {:induction false} FilteredConcat(drop: Suggestion -> bool, a: seq<Suggestion>, b: seq<Suggestion>)
    ensures Filtered(drop, a + b) == Filtered(drop, a) + Filtered(drop, b)
  {
    if a == [] {
      assert a + b == b;
    } else {
      assert (a + b)[1..] == a[1..] + b;
      FilteredConcat(drop, a[1..], b);
    }
  }

  lemma {:induction false} FilteredShift(
      drop: Suggestion -> bool, local: Suggestion -> bool, sugs: seq<Suggestion>, offset: int)
    requires forall s :: s in sugs ==> drop(s.Shift(offset)) == local(s)
    ensures Filtered(drop, Shifted(sugs, offset)) == Shifted(Filtered(local, sugs), offset)
  {
    if sugs != [] {
      assert Shifted(sugs, offset)[1..] == Shifted(sugs[1..], offset);
      FilteredShift(drop, local, sugs[1..], offset);
      ShiftedCons(sugs[0], Filtered(local, sugs[1..]), offset);
      assert sugs[0] in sugs;
    }
  }

  function FilteredAnswers(local: seq<Suggestion -> bool>, answers: seq<seq<Suggestion>>): (r: seq<seq<Suggestion>>)
    requires |local| == |answers|
    ensures |r| == |answers|
    ensures forall i :: 0 <= i < |r| ==> r[i] == Filtered(local[i], answers[i])
  {
    seq(|answers|, i requires 0 <= i < |answers| => Filtered(local[i], answers[i]))
  }

  lemma {:induction false} UnionFiltered(drop: Suggestion -> bool, segs: seq<Segment>, answers: seq<seq<Suggestion>>,
                                         local: seq<Suggestion -> bool>)
    requires JudgedLocally(drop, segs, answers, local)
    ensures Filtered(drop, UnionShifted(segs, answers)) == UnionShifted(segs, FilteredAnswers(local, answers))
    decreases |segs|
  {
    if segs != [] {
      UnionFiltered(drop, segs[1..], answers[1..], local[1..]);
      FilteredConcat(drop, Shifted(answers[0], segs[0].start), UnionShifted(segs[1..], answers[1..]));
      FilteredShift(drop, local[0], answers[0], segs[0].start);
      assert FilteredAnswers(local, answers)[1..] == FilteredAnswers(local[1..], answers[1..]);
    }
  }

  // What correcting each sentence alone makes of it; a failed sentence stays as it is.
  function SentenceTexts(text: Text, segs: seq<Segment>, answers: seq<seq<Suggestion>>, local: seq<Suggestion -> bool>):
      (r: seq<Text>)
    requires |segs| == |answers| == |local| && forall s :: s in segs ==> InBounds(s, 0, |text|)
    ensures |r| == |segs|
  {
    seq(|segs|, i requires 0 <= i < |segs| =>
      assert InBounds(segs[i], 0, |text|);
      AppliedLastFirst(Sentence(text, segs[i]), Finalized(local[i], answers[i])))
  }

  // Main result: for sentences that do not touch, or whose final edits do not contest a
  // shared boundary, applying the response to the request text
  // leaves every gap alone and turns each sentence into what correctOnce and finalize make
  // of that sentence on its own.
  lemma ResponseIsSentenceWise(p: Pipeline, text: Text, tools: Tools, drop: Suggestion -> bool,
                               local: seq<Suggestion -> bool>)
    requires AnswersAreRuns(p) && LosesNothing(text, tools) && Raw(p, text, tools).Some?
    requires var segs := SentencesOf(text, tools);
             && 2 <= |segs| && JudgedLocally(drop, segs, Answers(p, text, segs), local)
             && (Apartly(segs)
                 || Uncontested(segs, SettledAnswers(FilteredAnswers(local, Answers(p, text, segs)))))
    ensures var segs := SentencesOf(text, tools);
            AppliedLastFirst(text, Finalized(drop, Raw(p, text, tools).value))
              == Interleaved(text, segs, SentenceTexts(text, segs, Answers(p, text, segs), local), 0)
  {
    var segs := SentencesOf(text, tools);
    var answers := Answers(p, text, segs);
    var kept, outs := FilteredAnswers(local, answers), SentenceTexts(text, segs, answers, local);
    AnswersSound(p, text, segs);
    UnionFiltered(drop, segs, answers, local);
    FinalizedFiltered(drop, UnionShifted(segs, answers));
    hide Finalized, Filtered, UnionShifted, AppliedLastFirst, Answers;
    KeptFit(text, segs, answers, local);
    ReassemblyCorrect(text, segs, kept, outs);
  }

  // What the filters keep of sound answers is sound, and settles each sentence.
  lemma KeptFit(text: Text, segs: seq<Segment>, answers: seq<seq<Suggestion>>, local: seq<Suggestion -> bool>)
    requires |segs| == |answers| == |local| && forall s :: s in segs ==> InBounds(s, 0, |text|)
    requires AnswersFit(segs, answers) && forall i :: 0 <= i < |segs| ==> Sorting.Pairwise(Apart, answers[i])
    ensures AnswersFit(segs, FilteredAnswers(local, answers))
    ensures forall i :: 0 <= i < |segs| ==> Sorting.Pairwise(Apart, FilteredAnswers(local, answers)[i])
    ensures forall i :: 0 <= i < |segs| ==> 0 <= segs[i].start <= segs[i].end <= |text|
    ensures forall i :: 0 <= i < |segs| ==>
              SentenceTexts(text, segs, answers, local)[i]
              == AppliedLastFirst(Sentence(text, segs[i]), Finalized(s => false, FilteredAnswers(local, answers)[i]))
  {
    hide Finalized, Filtered, AppliedLastFirst;
    var kept, outs := FilteredAnswers(local, answers), SentenceTexts(text, segs, answers, local);
    forall i | 0 <= i < |segs|
      ensures Sorting.Pairwise(Apart, kept[i]) && AllValid(kept[i], segs[i].end - segs[i].start)
      ensures 0 <= segs[i].start <= segs[i].end <= |text|
      ensures outs[i] == AppliedLastFirst(Sentence(text, segs[i]), Finalized(s => false, kept[i]))
    {
      assert InBounds(segs[i], 0, |text|);
      FilteredKeeps(local[i], answers[i]);
      FinalizedFiltered(local[i], answers[i]);
    }
  }

  lemma FinalizedFiltered(drop: Suggestion -> bool, all: seq<Suggestion>)
    ensures Finalized(s => false, Filtered(drop, all)) == Finalized(drop, all)
  {
    FilteredNothing(Filtered(drop, all));
  }
}
