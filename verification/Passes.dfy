// gector/gector.go and mergePasses: several inference passes, each run on the text the
// previous one produced, reported in the coordinates of the original request text.
module Passes {
  import opened Edits
  import opened Finalize
  import opened Remap
  import Sorting

  // --- mergePasses: earlier passes win -------------------------------------------------------

  predicate Covered(existing: seq<Suggestion>, span: Span) {
    exists i :: 0 <= i < |existing| && Overlaps(span, existing[i].span)
  }

  method OverlapsAny(existing: seq<Suggestion>, span: Span) returns (b: bool)
    ensures b == Covered(existing, span)
  {
    for i := 0 to |existing|
      invariant forall k :: 0 <= k < i ==> !Overlaps(span, existing[k].span)
    {
      if span.start < existing[i].span.end && existing[i].span.start < span.end {
        return true;
      }
    }
    return false;
  }

  function Absorbed(out: seq<Suggestion>, pass: seq<Suggestion>): seq<Suggestion>
    decreases |pass|
  {
    if pass == [] then out
    else Absorbed(if Covered(out, pass[0].span) then out else out + [pass[0]], pass[1..])
  }

  function Union(passes: seq<seq<Suggestion>>): seq<Suggestion> {
    if passes == [] then []
    else
      var last := |passes| - 1;
      Absorbed(Union(passes[..last]), passes[last])
  }

  function MergedPasses(passes: seq<seq<Suggestion>>): seq<Suggestion> {
    Sorting.StableSort(StartLess, Union(passes))
  }

  method MergePasses(passes: seq<seq<Suggestion>>) returns (out: seq<Suggestion>)
    ensures out == MergedPasses(passes)
  {
    out := [];
    for p := 0 to |passes|
      invariant out == Union(passes[..p])
    {
      var pass := passes[p];
      ghost var goal := Absorbed(out, pass);
      assert pass[0..] == pass;
      for i := 0 to |pass|
        invariant Absorbed(out, pass[i..]) == goal
      {
        assert pass[i..][0] == pass[i] && pass[i..][1..] == pass[i + 1..];
        var overlapped := OverlapsAny(out, pass[i].span);
        if overlapped {
          continue;
        }
        out := out + [pass[i]];
      }
      assert passes[..p + 1][..p] == passes[..p];
    }
    assert passes[..|passes|] == passes;
    out := Sorting.StableSort(StartLess, out);
  }

  ghost predicate AllOrdered(passes: seq<seq<Suggestion>>, textLen: int) {
    forall p :: 0 <= p < |passes| ==> Ordered(passes[p], 0, textLen)
  }

  function Uncovered(out: seq<Suggestion>, pass: seq<Suggestion>): seq<Suggestion> {
    if pass == [] then []
    else if Covered(out, pass[0].span) then Uncovered(out, pass[1..])
    else [pass[0]] + Uncovered(out, pass[1..])
  }

  // Within an ordered pass only earlier passes can displace a suggestion.
  lemma {:induction false} AbsorbedIsUncovered(
      out: seq<Suggestion>, taken: seq<Suggestion>, pass: seq<Suggestion>, from: int, to: int)
    requires Ordered(pass, from, to)
    requires forall t :: t in taken ==> t.span.end <= from && t.span.start <= t.span.end
    ensures Absorbed(out + taken, pass) == out + taken + Uncovered(out, pass)
    decreases |pass|
  {
    if pass != [] {
      var s := pass[0];
      assert Covered(out + taken, s.span) <==> Covered(out, s.span) by {
        assert forall i :: 0 <= i < |out + taken| ==>
            (out + taken)[i] == if i < |out| then out[i] else taken[i - |out|];
        assert forall i :: 0 <= i < |taken| ==> taken[i] in taken && !Overlaps(s.span, taken[i].span);
        if i :| 0 <= i < |out| && Overlaps(s.span, out[i].span) {
          assert Overlaps(s.span, (out + taken)[i].span);
        }
      }
      if Covered(out, s.span) {
        AbsorbedIsUncovered(out, taken, pass[1..], s.span.end, to);
      } else {
        assert out + taken + [s] == out + (taken + [s]);
        AbsorbedIsUncovered(out, taken + [s], pass[1..], s.span.end, to);
        assert out + (taken + [s]) + Uncovered(out, pass[1..]) == out + taken + Uncovered(out, pass);
      }
    }
  }

  lemma {:induction false} UncoveredExact(out: seq<Suggestion>, pass: seq<Suggestion>, from: int, to: int)
    requires Ordered(pass, from, to)
    ensures Ordered(Uncovered(out, pass), from, to)
    ensures forall s :: s in Uncovered(out, pass) <==> s in pass && !Covered(out, s.span)
    decreases |pass|
  {
    if pass != [] {
      UncoveredExact(out, pass[1..], pass[0].span.end, to);
      if Covered(out, pass[0].span) {
        OrderedWiden(Uncovered(out, pass[1..]), pass[0].span.end, to, from, to);
      }
    }
  }

  lemma UnionStep(passes: seq<seq<Suggestion>>, textLen: int)
    requires AllOrdered(passes, textLen) && passes != []
    ensures var before, pass := Union(passes[..|passes| - 1]), passes[|passes| - 1];
            && Union(passes) == before + Uncovered(before, pass)
            && Ordered(Uncovered(before, pass), 0, textLen)
            && (forall s :: s in Uncovered(before, pass) <==> s in pass && !Covered(before, s.span))
  {
    var before, pass := Union(passes[..|passes| - 1]), passes[|passes| - 1];
    assert before + [] == before;
    AbsorbedIsUncovered(before, [], pass, 0, textLen);
    UncoveredExact(before, pass, 0, textLen);
  }

  lemma {:induction false} UnionApart(passes: seq<seq<Suggestion>>, textLen: int)
    requires AllOrdered(passes, textLen) && 0 <= textLen
    ensures Sorting.Pairwise(Apart, Union(passes)) && AllValid(Union(passes), textLen)
    decreases |passes|
  {
    if passes != [] {
      var front := passes[..|passes| - 1];
      var before, all := Union(front), Union(passes);
      var added := Uncovered(before, passes[|passes| - 1]);
      UnionStep(passes, textLen);
      UnionApart(front, textLen);
      OrderedIffPairwise(added, 0, textLen);
      forall i, j | 0 <= i < j < |all|
        ensures Apart(all[i], all[j])
      {
        if i < |before| <= j {
          assert all[j] in added && all[i] == before[i];
        }
      }
    }
  }

  // Every kept suggestion belongs to a pass, and nothing an earlier pass kept covers it.
  lemma {:induction false} UnionProvenance(passes: seq<seq<Suggestion>>, textLen: int, s: Suggestion)
      returns (p: nat)
    requires AllOrdered(passes, textLen) && s in Union(passes)
    ensures p < |passes| && s in passes[p] && !Covered(Union(passes[..p]), s.span)
    decreases |passes|
  {
    var last := |passes| - 1;
    UnionStep(passes, textLen);
    if s in Union(passes[..last]) {
      p := UnionProvenance(passes[..last], textLen, s);
      assert passes[..last][..p] == passes[..p];
    } else {
      p := last;
    }
  }

  // Every suggestion is kept, or covered by what strictly earlier passes kept.
  lemma {:induction false} UnionCoverage(passes: seq<seq<Suggestion>>, textLen: int, p: nat, s: Suggestion)
    requires AllOrdered(passes, textLen) && p < |passes| && s in passes[p]
    ensures Union(passes[..p]) <= Union(passes)
    ensures s in Union(passes) || Covered(Union(passes[..p]), s.span)
    decreases |passes|
  {
    var last := |passes| - 1;
    UnionStep(passes, textLen);
    if p < last {
      assert passes[..last][..p] == passes[..p];
      UnionCoverage(passes[..last], textLen, p, s);
    }
  }

  // --- The pass loop -------------------------------------------------------------------------

  // One finished pass: the text it ran on and the suggestions it made there.
  datatype Pass = Pass(text: Text, sugs: seq<Suggestion>)

  ghost predicate Applicable(chain: seq<Pass>) {
    forall i :: 0 <= i < |chain| ==> Ordered(chain[i].sugs, 0, |chain[i].text|)
  }

  // Each pass ran on the text the previous one produced; `current` is what the last produced.
  ghost predicate Chained(original: Text, chain: seq<Pass>, current: Text)
    requires Applicable(chain)
    decreases |chain|
  {
    if chain == [] then current == original
    else
      var last := |chain| - 1;
      && current == Corrected(chain[last].text, chain[last].sugs)
      && Chained(original, chain[..last], chain[last].text)
  }

  // The composed translator: last pass first.
  ghost function Translated(chain: seq<Pass>, start: int, end: int): Option<Span>
    requires Applicable(chain)
    decreases |chain|
  {
    if chain == [] then Some(Span(start, end))
    else
      var last := |chain| - 1;
      match Back(chain[last].text, chain[last].sugs, start, end)
      case None => None
      case Some(m) => Translated(chain[..last], m.start, m.end)
  }

  // A pass's suggestions in original coordinates; those without an original equivalent drop out.
  ghost function TranslatedAll(chain: seq<Pass>, sugs: seq<Suggestion>): seq<Suggestion>
    requires Applicable(chain)
  {
    if sugs == [] then []
    else
      match Translated(chain, sugs[0].span.start, sugs[0].span.end)
      case None => TranslatedAll(chain, sugs[1..])
      case Some(span) => [sugs[0].(span := span)] + TranslatedAll(chain, sugs[1..])
  }

  // Inference with decoding: None is an error, and decoding emits ordered spans.
  ghost predicate DecodesOrdered(infer: Text -> Option<seq<Suggestion>>) {
    forall t :: infer(t).Some? ==> Ordered(infer(t).value, 0, |t|)
  }

  // The translated lists of up to `todo` further passes.
  ghost function LaterPasses(chain: seq<Pass>, current: Text, last: seq<Suggestion>, todo: nat,
                             infer: Text -> Option<seq<Suggestion>>): Option<seq<seq<Suggestion>>>
    requires DecodesOrdered(infer) && Applicable(chain) && Ordered(last, 0, |current|)
    decreases todo
  {
    if todo == 0 then Some([])
    else
      var chain' := chain + [Pass(current, last)];
      var next := Corrected(current, last);
      match infer(next)
      case None => None
      case Some(sugs) =>
        if sugs == [] then Some([])
        else
          match LaterPasses(chain', next, sugs, todo - 1, infer)
          case None => None
          case Some(rest) => Some([TranslatedAll(chain', sugs)] + rest)
  }

  ghost function PassLists(text: Text, passes: int, infer: Text -> Option<seq<Suggestion>>):
      Option<seq<seq<Suggestion>>>
    requires DecodesOrdered(infer)
  {
    match infer(text)
    case None => None
    case Some(first) =>
      if passes <= 1 || first == [] then Some([first])
      else
        match LaterPasses([], text, first, passes - 1, infer)
        case None => None
        case Some(rest) => Some([first] + rest)
  }

  // With one pass (or nothing further to do) the merge returns the first pass as it is.
  lemma SinglePassUnchanged(first: seq<Suggestion>, textLen: nat)
    requires Ordered(first, 0, textLen)
    ensures MergedPasses([first]) == first
  {
    UnionOfOne(first, textLen);
    OrderedIsSorted(first, 0, textLen);
    Sorting.SortedUnchanged(StartLess, first);
  }

  lemma UnionOfOne(first: seq<Suggestion>, textLen: nat)
    requires Ordered(first, 0, textLen)
    ensures Union([first]) == first
  {
    var passes := [first];
    UnionStep(passes, textLen);
    assert passes[..0] == [];
    NothingCovered(first);
    assert [] + first == first;
  }

  lemma OrderedIsSorted(sugs: seq<Suggestion>, from: int, to: int)
    requires Ordered(sugs, from, to)
    ensures Sorting.SortedBy(StartLess, sugs)
  {
    OrderedBounds(sugs, from, to);
    OrderedIffPairwise(sugs, from, to);
    forall i, j | 0 <= i < j < |sugs|
      ensures !StartLess(sugs[j], sugs[i])
    {
      assert sugs[i].span.end <= sugs[j].span.start;
    }
  }

  lemma {:induction false} NothingCovered(pass: seq<Suggestion>)
    ensures Uncovered([], pass) == pass
  {
    if pass != [] {
      NothingCovered(pass[1..]);
    }
  }

  // Prepare the next pass: apply the finished one and compose its translator with the
  // previous ones. The old translator is captured before the variable is reassigned.
  method Advance(ghost chain: seq<Pass>, currentText: Text, lastSugs: seq<Suggestion>,
                 previousBack: (int, int) -> Option<Span>)
      returns (nextText: Text, composed: (int, int) -> Option<Span>)
    requires Applicable(chain) && Ordered(lastSugs, 0, |currentText|)
    requires forall start, end :: previousBack(start, end) == Translated(chain, start, end)
    ensures nextText == Corrected(currentText, lastSugs)
    ensures Applicable(chain + [Pass(currentText, lastSugs)])
    ensures forall start, end :: composed(start, end) == Translated(chain + [Pass(currentText, lastSugs)], start, end)
  {
    var thisBack;
    nextText, thisBack := ApplyAndTrack(currentText, lastSugs);
    var inner := thisBack;
    composed := (start, end) =>
      match inner(start, end)
      case None => None
      case Some(m) => previousBack(m.start, m.end);
    assert (chain + [Pass(currentText, lastSugs)])[..|chain|] == chain;
  }

  // GECToR.Correct.
  method Correct(text: Text, passes: int, infer: Text -> Option<seq<Suggestion>>)
      returns (r: Option<seq<Suggestion>>)
    requires DecodesOrdered(infer)
    ensures r.Some? <==> PassLists(text, passes, infer).Some?
    ensures r.Some? ==> r.value == MergedPasses(PassLists(text, passes, infer).value)
  {
    var out := infer(text);
    if out.None? {
      return None;
    }
    var firstPass := out.value;
    if passes <= 1 || |firstPass| == 0 {
      SinglePassUnchanged(firstPass, |text|);
      return Some(firstPass);
    }
    var lists := RunLaterPasses(text, firstPass, passes, infer);
    if lists.None? {
      return None;
    }
    var merged := MergePasses(lists.value);
    r := Some(merged);
  }

  // The loop of Correct from pass 2 on: the first pass's list and the translated later ones.
  method RunLaterPasses(text: Text, firstPass: seq<Suggestion>, passes: int, infer: Text -> Option<seq<Suggestion>>)
      returns (r: Option<seq<seq<Suggestion>>>)
    requires DecodesOrdered(infer) && Ordered(firstPass, 0, |text|) && passes > 1
    ensures r == Prepended([firstPass], LaterPasses([], text, firstPass, passes - 1, infer))
  {
    hide LaterPasses, TranslatedAll, Corrected, Prepended;
    var passesOut := [firstPass];
    var currentText, lastSugs := text, firstPass;
    var backToOriginal := (start: int, end: int) => Some(Span(start, end));
    ghost var chain: seq<Pass> := [];
    ghost var goal := Prepended([firstPass], LaterPasses([], text, firstPass, passes - 1, infer));
    var pass := 2;
    while pass <= passes
      invariant 2 <= pass <= passes + 1
      invariant Applicable(chain) && Ordered(lastSugs, 0, |currentText|)
      invariant forall start, end :: backToOriginal(start, end) == Translated(chain, start, end)
      invariant goal == Prepended(passesOut, LaterPasses(chain, currentText, lastSugs, passes - pass + 1, infer))
    {
      LaterStep(passesOut, chain, currentText, lastSugs, passes - pass + 1, infer);
      var nextText;
      nextText, backToOriginal := Advance(chain, currentText, lastSugs, backToOriginal);
      chain := chain + [Pass(currentText, lastSugs)];
      var passOut := infer(nextText);
      if passOut.None? {
        return None;
      }
      var sugs := passOut.value;
      if |sugs| == 0 {
        return Some(passesOut);
      }
      var translated := TranslatePass(chain, backToOriginal, sugs);
      passesOut := passesOut + [translated];
      currentText, lastSugs := nextText, sugs;
      pass := pass + 1;
    }
    LaterDone(passesOut, chain, currentText, lastSugs, infer);
    r := Some(passesOut);
  }

  lemma LaterDone(lists: seq<seq<Suggestion>>, chain: seq<Pass>, current: Text, last: seq<Suggestion>,
                  infer: Text -> Option<seq<Suggestion>>)
    requires DecodesOrdered(infer) && Applicable(chain) && Ordered(last, 0, |current|)
    ensures Prepended(lists, LaterPasses(chain, current, last, 0, infer)) == Some(lists)
  {
    assert lists + [] == lists;
  }

  lemma LaterStep(lists: seq<seq<Suggestion>>, chain: seq<Pass>, current: Text, last: seq<Suggestion>, todo: nat,
                  infer: Text -> Option<seq<Suggestion>>)
    requires DecodesOrdered(infer) && Applicable(chain) && Ordered(last, 0, |current|) && todo > 0
    ensures var chain', found := chain + [Pass(current, last)], infer(Corrected(current, last));
            && Applicable(chain')
            && Prepended(lists, LaterPasses(chain, current, last, todo, infer))
               == if found.None? then None
                  else if found.value == [] then Some(lists)
                  else Prepended(lists + [TranslatedAll(chain', found.value)],
                                 LaterPasses(chain', Corrected(current, last), found.value, todo - 1, infer))
  {
    var chain', next := chain + [Pass(current, last)], Corrected(current, last);
    if infer(next).Some? && infer(next).value != [] {
      var later := LaterPasses(chain', next, infer(next).value, todo - 1, infer);
      var t := TranslatedAll(chain', infer(next).value);
      assert later.Some? ==> lists + ([t] + later.value) == lists + [t] + later.value;
    } else {
      assert lists + [] == lists;
    }
  }

  ghost function Prepended(lists: seq<seq<Suggestion>>, later: Option<seq<seq<Suggestion>>>):
      Option<seq<seq<Suggestion>>>
  {
    match later
    case None => None
    case Some(rest) => Some(lists + rest)
  }

  method TranslatePass(ghost chain: seq<Pass>, back: (int, int) -> Option<Span>, sugs: seq<Suggestion>)
      returns (translated: seq<Suggestion>)
    requires Applicable(chain)
    requires forall start, end :: back(start, end) == Translated(chain, start, end)
    ensures translated == TranslatedAll(chain, sugs)
  {
    translated := [];
    assert sugs[0..] == sugs;
    for i := 0 to |sugs|
      invariant translated + TranslatedAll(chain, sugs[i..]) == TranslatedAll(chain, sugs)
    {
      var s := sugs[i];
      assert sugs[i..][0] == s && sugs[i..][1..] == sugs[i + 1..];
      var b := back(s.span.start, s.span.end);
      if b.None? {
        continue;
      }
      translated := translated + [s.(span := b.value)];
    }
  }

  // --- What the composed translator means ------------------------------------------------------

  ghost function TranslatedPos(chain: seq<Pass>, pos: int): Option<int>
    requires Applicable(chain)
    decreases |chain|
  {
    if chain == [] then Some(pos)
    else
      var last := |chain| - 1;
      match Origin(chain[last].text, chain[last].sugs, pos)
      case None => None
      case Some(m) => TranslatedPos(chain[..last], m)
  }

  lemma {:induction false} TranslatedByEdges(chain: seq<Pass>, start: int, end: int)
    requires Applicable(chain)
    ensures Translated(chain, start, end)
         == if TranslatedPos(chain, start).Some? && TranslatedPos(chain, end).Some?
            then Some(Span(TranslatedPos(chain, start).value, TranslatedPos(chain, end).value))
            else None
    decreases |chain|
  {
    if chain != [] {
      var last := |chain| - 1;
      var s := Origin(chain[last].text, chain[last].sugs, start);
      var e := Origin(chain[last].text, chain[last].sugs, end);
      if s.Some? && e.Some? {
        TranslatedByEdges(chain[..last], s.value, e.value);
      }
    }
  }

  lemma {:induction false} PositionsMonotone(original: Text, chain: seq<Pass>, current: Text, p: int, q: int)
    requires Applicable(chain) && Chained(original, chain, current)
    requires p <= q && TranslatedPos(chain, p).Some? && TranslatedPos(chain, q).Some?
    ensures TranslatedPos(chain, p).value <= TranslatedPos(chain, q).value
    decreases |chain|
  {
    if chain != [] {
      var pass := chain[|chain| - 1];
      OriginIsCutAt(pass.text, pass.sugs, p);
      OriginIsCutAt(pass.text, pass.sugs, q);
      CutsMonotone(pass.text, pass.sugs, p, q);
      PositionsMonotone(original, chain[..|chain| - 1], pass.text,
                        CutAt(pass.text, pass.sugs, p).value.o, CutAt(pass.text, pass.sugs, q).value.o);
    }
  }

  // Pass by pass, the span of the current text corresponds to a span of the previous text,
  // down to the original: prefix, span and suffix are the images of their counterparts.
  ghost predicate Reaches(chain: seq<Pass>, start: int, end: int, origin: Span)
    requires Applicable(chain)
    decreases |chain|
  {
    if chain == [] then origin == Span(start, end)
    else
      var pass := chain[|chain| - 1];
      exists ms, me, ks, ke ::
        && Corresponds(pass.text, pass.sugs, ms, me, ks, ke, start, end)
        && Reaches(chain[..|chain| - 1], ms, me, origin)
  }

  // Every translated span is a valid span of the original that reaches the current one.
  lemma {:induction false} TranslatedReaches(original: Text, chain: seq<Pass>, current: Text, start: int, end: int)
    requires Applicable(chain) && Chained(original, chain, current)
    requires 0 <= start <= end <= |current| && Translated(chain, start, end).Some?
    ensures Translated(chain, start, end).value.Valid(|original|)
    ensures Reaches(chain, start, end, Translated(chain, start, end).value)
    decreases |chain|
  {
    if chain != [] {
      var last := |chain| - 1;
      var pass := chain[last];
      BackCorresponds(pass.text, pass.sugs, start, end);
      var m := Back(pass.text, pass.sugs, start, end).value;
      var ks, ke :| Corresponds(pass.text, pass.sugs, m.start, m.end, ks, ke, start, end);
      TranslatedReaches(original, chain[..last], pass.text, m.start, m.end);
    }
  }

  // A translated list is ordered in the original: disjoint spans stay disjoint.
  lemma {:induction false} TranslatedAllOrdered(
      original: Text, chain: seq<Pass>, current: Text, sugs: seq<Suggestion>, from: int, low: int)
    requires Applicable(chain) && Chained(original, chain, current)
    requires 0 <= from && Ordered(sugs, from, |current|) && 0 <= low <= |original|
    requires forall p :: from <= p && TranslatedPos(chain, p).Some? ==> low <= TranslatedPos(chain, p).value
    ensures Ordered(TranslatedAll(chain, sugs), low, |original|)
    decreases |sugs|
  {
    if sugs != [] {
      OrderedBounds(sugs, from, |current|);
      var span := sugs[0].span;
      TranslatedByEdges(chain, span.start, span.end);
      if Translated(chain, span.start, span.end).Some? {
        TranslatedReaches(original, chain, current, span.start, span.end);
        var high := TranslatedPos(chain, span.end).value;
        forall p | span.end <= p && TranslatedPos(chain, p).Some?
          ensures high <= TranslatedPos(chain, p).value
        {
          PositionsMonotone(original, chain, current, span.end, p);
        }
        TranslatedAllOrdered(original, chain, current, sugs[1..], span.end, high);
      } else {
        TranslatedAllOrdered(original, chain, current, sugs[1..], span.end, low);
      }
    }
  }

  lemma {:induction false} PositionsNatural(chain: seq<Pass>, p: int)
    requires Applicable(chain) && 0 <= p && TranslatedPos(chain, p).Some?
    ensures 0 <= TranslatedPos(chain, p).value
    decreases |chain|
  {
    if chain != [] {
      var pass := chain[|chain| - 1];
      OriginIsCutAt(pass.text, pass.sugs, p);
      PositionsNatural(chain[..|chain| - 1], CutAt(pass.text, pass.sugs, p).value.o);
    }
  }

  // The text the first n passes of the chain leave.
  ghost function Reached(text: Text, chain: seq<Pass>, n: nat): Text
    requires Applicable(chain) && n <= |chain|
  {
    if n == 0 then text else Corrected(chain[n - 1].text, chain[n - 1].sugs)
  }

  // Pass i is what inference finds on the text the passes before it leave.
  ghost predicate FoundAt(text: Text, infer: Text -> Option<seq<Suggestion>>, chain: seq<Pass>, i: nat)
    requires Applicable(chain) && i < |chain|
  {
    chain[i].text == Reached(text, chain, i) && infer(chain[i].text) == Some(chain[i].sugs)
  }

  // What inference finds on the text, on the text corrected by that, and so on.
  ghost predicate Findings(text: Text, infer: Text -> Option<seq<Suggestion>>, chain: seq<Pass>) {
    Applicable(chain) && forall i :: 0 <= i < |chain| ==> FoundAt(text, infer, chain, i)
  }

  ghost predicate Busy(chain: seq<Pass>) {
    forall i :: 0 <= i < |chain| ==> chain[i].sugs != []
  }

  // The lists are the findings of as many passes as are configured, or of fewer if then
  // nothing more is found; each in original coordinates.
  ghost predicate RunsTo(
      text: Text, passes: int, infer: Text -> Option<seq<Suggestion>>, lists: seq<seq<Suggestion>>, chain: seq<Pass>)
  {
    && Applicable(chain) && Findings(text, infer, chain) && |chain| == |lists| && 1 <= |lists| <= Configured(passes)
    && (forall p :: 0 <= p < |lists| ==> lists[p] == TranslatedAll(chain[..p], chain[p].sugs))
    && (|lists| == Configured(passes) || infer(Reached(text, chain, |chain|)) == Some([]))
    && Busy(chain[1..])
  }

  // At least one pass always runs.
  function Configured(passes: int): int {
    if passes < 1 then 1 else passes
  }

  // Inference fails on the text some passes leave, and not all configured ones have run.
  ghost predicate Fails(text: Text, passes: int, infer: Text -> Option<seq<Suggestion>>, chain: seq<Pass>) {
    && Findings(text, infer, chain) && Busy(chain) && |chain| < Configured(passes)
    && infer(Reached(text, chain, |chain|)) == None
  }

  lemma {:induction false} TranslatedByNothing(sugs: seq<Suggestion>)
    ensures TranslatedAll([], sugs) == sugs
  {
    if sugs != [] {
      TranslatedByNothing(sugs[1..]);
    }
  }

  // What translating a pass's list does: the suggestions with an original span, at that span.
  lemma {:induction false} TranslatedAllExact(chain: seq<Pass>, sugs: seq<Suggestion>, s: Suggestion)
    requires Applicable(chain)
    ensures s in TranslatedAll(chain, sugs) <==>
              exists t :: t in sugs && Translated(chain, t.span.start, t.span.end).Some?
                && s == t.(span := Translated(chain, t.span.start, t.span.end).value)
    decreases |sugs|
  {
    if sugs != [] {
      hide Translated;
      TranslatedAllExact(chain, sugs[1..], s);
      assert forall t :: t in sugs <==> t == sugs[0] || t in sugs[1..];
    }
  }

  // What translating a span does: back through the last pass, edge by edge, then through the
  // ones before it; a span inside a replacement of any pass has no original.
  lemma TranslatedExact(chain: seq<Pass>, pass: Pass, start: int, end: int)
    requires Applicable(chain + [pass])
    ensures Applicable(chain) && Ordered(pass.sugs, 0, |pass.text|)
    ensures Translated([], start, end) == Some(Span(start, end))
    ensures var s, e := Origin(pass.text, pass.sugs, start), Origin(pass.text, pass.sugs, end);
            Translated(chain + [pass], start, end)
            == if s.None? || e.None? then None else Translated(chain, s.value, e.value)
  {
    var all := chain + [pass];
    assert all[|chain|] == pass && all[..|chain|] == chain;
    assert forall i :: 0 <= i < |chain| ==> chain[i] == all[i];
  }

  lemma FindingsSnoc(text: Text, infer: Text -> Option<seq<Suggestion>>, chain: seq<Pass>)
    requires DecodesOrdered(infer) && Findings(text, infer, chain) && infer(Reached(text, chain, |chain|)).Some?
    ensures var next := Reached(text, chain, |chain|);
            && Applicable(chain + [Pass(next, infer(next).value)])
            && Findings(text, infer, chain + [Pass(next, infer(next).value)])
  {
    var next := Reached(text, chain, |chain|);
    var more := chain + [Pass(next, infer(next).value)];
    hide Corrected, Ordered;
    assert Applicable(more);
    forall i | 0 <= i < |more|
      ensures FoundAt(text, infer, more, i)
    {
      ReachedWithin(text, chain, more, i);
      assert i < |chain| ==> FoundAt(text, infer, chain, i);
    }
  }

  lemma ReachedWithin(text: Text, chain: seq<Pass>, more: seq<Pass>, n: nat)
    requires chain <= more && n <= |chain| && Applicable(more)
    ensures Applicable(chain) && Reached(text, chain, n) == Reached(text, more, n)
  {
    assert forall i :: 0 <= i < |chain| ==> chain[i] == more[i];
  }

  // What the further passes add to a chain whose last pass found something.
  ghost predicate Continues(
      text: Text, infer: Text -> Option<seq<Suggestion>>, chain: seq<Pass>, todo: nat,
      lists: seq<seq<Suggestion>>, all: seq<Pass>)
  {
    && chain <= all && Applicable(all) && Findings(text, infer, all) && Busy(all)
    && |all| == |chain| + |lists| && |lists| <= todo
    && (forall p :: 0 <= p < |lists| ==>
          lists[p] == TranslatedAll(all[..|chain| + p], all[|chain| + p].sugs))
    && (|lists| == todo || infer(Reached(text, all, |all|)) == Some([]))
  }

  // Passes after `done` run into a failure.
  ghost predicate FailsAfter(
      text: Text, infer: Text -> Option<seq<Suggestion>>, done: seq<Pass>, todo: nat, all: seq<Pass>)
  {
    done <= all && Fails(text, |done| + todo, infer, all)
  }

  lemma {:induction false} LaterPassesExact(
      text: Text, chain: seq<Pass>, last: Pass, todo: nat, infer: Text -> Option<seq<Suggestion>>,
      done: seq<Pass>, r: Option<seq<seq<Suggestion>>>)
    requires DecodesOrdered(infer) && Applicable(chain) && Applicable(done) && done == chain + [last]
    requires Findings(text, infer, done) && Busy(done)
    requires Ordered(last.sugs, 0, |last.text|) && r == LaterPasses(chain, last.text, last.sugs, todo, infer)
    ensures Outcome(text, infer, done, todo, r)
    decreases todo
  {
    hide LaterPasses, Corrected, TranslatedAll, Findings, Busy, Reached, Ordered, Outcome, Applicable, DecodesOrdered;
    LastReached(text, chain, last);
    LaterUnfolds(chain, last, todo, infer);
    var next := Corrected(last.text, last.sugs);
    if todo == 0 || infer(next) == Some([]) {
      StopsHere(text, infer, done, todo);
    } else if infer(next).None? {
      FailsHere(text, infer, done, todo);
    } else {
      var pass := Pass(next, infer(next).value);
      var more, rest := done + [pass], LaterPasses(done, next, infer(next).value, todo - 1, infer);
      FindingsSnoc(text, infer, done);
      BusySnoc(done, pass);
      LaterPassesExact(text, done, pass, todo - 1, infer, more, rest);
      OutcomeOneMore(text, infer, done, pass, todo, more, rest, r);
    }
  }

  ghost predicate Outcome(
      text: Text, infer: Text -> Option<seq<Suggestion>>, done: seq<Pass>, todo: nat, r: Option<seq<seq<Suggestion>>>)
  {
    if r.Some? then exists all :: Continues(text, infer, done, todo, r.value, all)
    else exists all :: FailsAfter(text, infer, done, todo, all)
  }

  lemma OutcomeOneMore(
      text: Text, infer: Text -> Option<seq<Suggestion>>, done: seq<Pass>, pass: Pass, todo: nat,
      more: seq<Pass>, rest: Option<seq<seq<Suggestion>>>, r: Option<seq<seq<Suggestion>>>)
    requires Applicable(done) && todo > 0 && more == done + [pass] && Outcome(text, infer, more, todo - 1, rest)
    requires r == if rest.None? then None else Some([TranslatedAll(done, pass.sugs)] + rest.value)
    ensures Outcome(text, infer, done, todo, r)
  {
    hide Continues, FailsAfter;
    if rest.Some? {
      var all :| Continues(text, infer, done + [pass], todo - 1, rest.value, all);
      ContinuesOneMore(text, infer, done, pass, todo, rest.value, all);
    } else {
      var all :| FailsAfter(text, infer, done + [pass], todo - 1, all);
      FailsEarlier(text, infer, done, pass, todo, all);
    }
  }

  lemma LaterUnfolds(chain: seq<Pass>, last: Pass, todo: nat, infer: Text -> Option<seq<Suggestion>>)
    requires DecodesOrdered(infer) && Applicable(chain) && Ordered(last.sugs, 0, |last.text|)
    ensures Applicable(chain + [last])
    ensures forall t :: infer(t).Some? ==> Ordered(infer(t).value, 0, |t|)
    ensures var r, next := LaterPasses(chain, last.text, last.sugs, todo, infer), Corrected(last.text, last.sugs);
            if todo == 0 || infer(next) == Some([]) then r == Some([])
            else if infer(next).None? then r == None
            else
              var sugs := infer(next).value;
              var rest := LaterPasses(chain + [last], next, sugs, todo - 1, infer);
              r == if rest.None? then None else Some([TranslatedAll(chain + [last], sugs)] + rest.value)
  {
  }

  lemma LastReached(text: Text, chain: seq<Pass>, last: Pass)
    requires Applicable(chain + [last])
    ensures Ordered(last.sugs, 0, |last.text|)
    ensures Reached(text, chain + [last], |chain + [last]|) == Corrected(last.text, last.sugs)
  {
    assert (chain + [last])[|chain|] == last;
  }

  lemma StopsHere(text: Text, infer: Text -> Option<seq<Suggestion>>, done: seq<Pass>, todo: nat)
    requires Findings(text, infer, done) && Busy(done)
    requires todo == 0 || infer(Reached(text, done, |done|)) == Some([])
    ensures Outcome(text, infer, done, todo, Some([]))
  {
    assert Continues(text, infer, done, todo, [], done);
  }

  lemma FailsEarlier(
      text: Text, infer: Text -> Option<seq<Suggestion>>, done: seq<Pass>, pass: Pass, todo: nat, all: seq<Pass>)
    requires todo > 0 && FailsAfter(text, infer, done + [pass], todo - 1, all)
    ensures FailsAfter(text, infer, done, todo, all)
  {
  }

  lemma FailsHere(text: Text, infer: Text -> Option<seq<Suggestion>>, done: seq<Pass>, todo: nat)
    requires Applicable(done) && Findings(text, infer, done) && Busy(done) && todo > 0 && done != []
    requires infer(Reached(text, done, |done|)) == None
    ensures Outcome(text, infer, done, todo, None)
  {
    assert FailsAfter(text, infer, done, todo, done);
  }

  lemma BusySnoc(chain: seq<Pass>, pass: Pass)
    requires Busy(chain) && pass.sugs != []
    ensures Busy(chain + [pass])
  {
  }

  lemma ContinuesOneMore(
      text: Text, infer: Text -> Option<seq<Suggestion>>, done: seq<Pass>, pass: Pass, todo: nat,
      rest: seq<seq<Suggestion>>, all: seq<Pass>)
    requires Applicable(done) && todo > 0 && Continues(text, infer, done + [pass], todo - 1, rest, all)
    ensures Continues(text, infer, done, todo, [TranslatedAll(done, pass.sugs)] + rest, all)
  {
    hide Findings, TranslatedAll, Reached;
    var lists := [TranslatedAll(done, pass.sugs)] + rest;
    assert all[..|done|] == done && all[|done|] == pass;
    forall p | 0 <= p < |lists|
      ensures lists[p] == TranslatedAll(all[..|done| + p], all[|done| + p].sugs)
    {
      if p > 0 {
        var q := |done + [pass]| + (p - 1);
        assert lists[p] == rest[p - 1] == TranslatedAll(all[..q], all[q].sugs);
      }
    }
  }

  // Two chains of findings differ in length alone.
  lemma {:induction false} FindingsAgree(
      text: Text, infer: Text -> Option<seq<Suggestion>>, a: seq<Pass>, b: seq<Pass>, n: nat)
    requires Findings(text, infer, a) && Findings(text, infer, b) && n <= |a| && n <= |b|
    ensures a[..n] == b[..n]
    decreases n
  {
    if n > 0 {
      FindingsAgree(text, infer, a, b, n - 1);
      assert FoundAt(text, infer, a, n - 1) && FoundAt(text, infer, b, n - 1);
      ReachedWithin(text, a[..n - 1], a, n - 1);
      ReachedWithin(text, b[..n - 1], b, n - 1);
      hide Corrected, Ordered, Reached;
      assert a[..n] == a[..n - 1] + [a[n - 1]] && b[..n] == b[..n - 1] + [b[n - 1]];
    }
  }

  lemma NoFailure(
      text: Text, passes: int, infer: Text -> Option<seq<Suggestion>>, lists: seq<seq<Suggestion>>, chain: seq<Pass>,
      fail: seq<Pass>)
    requires RunsTo(text, passes, infer, lists, chain)
    ensures !Fails(text, passes, infer, fail)
  {
    if Fails(text, passes, infer, fail) {
      var n := if |fail| < |chain| then |fail| else |chain|;
      FindingsAgree(text, infer, fail, chain, n);
      assert fail[..|fail|] == fail && chain[..|chain|] == chain;
      hide Findings, Reached;
      if n < |chain| {
        PrefixReached(text, infer, chain, n);
      } else if n < |fail| {
        PrefixReached(text, infer, fail, n);
      }
    }
  }

  lemma PrefixReached(text: Text, infer: Text -> Option<seq<Suggestion>>, chain: seq<Pass>, n: nat)
    requires Findings(text, infer, chain) && n < |chain|
    ensures Findings(text, infer, chain[..n])
    ensures Reached(text, chain[..n], n) == chain[n].text && infer(chain[n].text) == Some(chain[n].sugs)
  {
    var front := chain[..n];
    hide Corrected, Ordered;
    assert FoundAt(text, infer, chain, n);
    ReachedWithin(text, front, chain, n);
    forall i | 0 <= i < n
      ensures FoundAt(text, infer, front, i)
    {
      ReachedWithin(text, front, chain, i);
      assert FoundAt(text, infer, chain, i);
    }
  }

  // Main result on the loop: as many passes run as are configured, unless one finds nothing;
  // each list is what inference finds on the text the passes before it leave, translated back
  // through all of them; and the loop fails exactly when inference fails on such a text.
  lemma PassListsExact(text: Text, passes: int, infer: Text -> Option<seq<Suggestion>>)
    requires DecodesOrdered(infer)
    ensures var r := PassLists(text, passes, infer);
            && (r.Some? ==> exists chain :: RunsTo(text, passes, infer, r.value, chain))
            && (r.None? <==> exists chain :: Fails(text, passes, infer, chain))
  {
    if infer(text).None? {
      assert Fails(text, passes, infer, []);
    } else {
      FirstFinding(text, infer);
      hide Fails, RunsTo, Findings;
      if passes <= 1 || infer(text).value == [] {
        OnlyFirst(text, passes, infer);
      } else {
        ManyPasses(text, passes, infer);
      }
      if PassLists(text, passes, infer).Some? {
        var chain: seq<Pass> :| RunsTo(text, passes, infer, PassLists(text, passes, infer).value, chain);
        forall fail
          ensures !Fails(text, passes, infer, fail)
        {
          NoFailure(text, passes, infer, PassLists(text, passes, infer).value, chain, fail);
        }
      }
    }
  }

  lemma OnlyFirst(text: Text, passes: int, infer: Text -> Option<seq<Suggestion>>)
    requires DecodesOrdered(infer) && infer(text).Some? && (passes <= 1 || infer(text).value == [])
    ensures exists chain :: RunsTo(text, passes, infer, PassLists(text, passes, infer).value, chain)
  {
    var chain: seq<Pass> := [Pass(text, infer(text).value)];
    FirstFinding(text, infer);
    TranslatedByNothing(infer(text).value);
    NothingCorrected(text);
    hide TranslatedAll, Corrected, Findings;
    assert chain[..0] == [];
    assert RunsTo(text, passes, infer, PassLists(text, passes, infer).value, chain);
  }

  lemma ManyPasses(text: Text, passes: int, infer: Text -> Option<seq<Suggestion>>)
    requires DecodesOrdered(infer) && infer(text).Some? && passes > 1 && infer(text).value != []
    ensures var r := PassLists(text, passes, infer);
            && (r.Some? ==> exists chain :: RunsTo(text, passes, infer, r.value, chain))
            && (r.None? ==> exists chain :: Fails(text, passes, infer, chain))
  {
    hide Fails, RunsTo, Findings, Continues, LaterPasses, TranslatedAll, Corrected, Reached;
    var first := Pass(text, infer(text).value);
    FirstFinding(text, infer);
    assert [] + [first] == [first];
    var later := LaterPasses([], text, first.sugs, passes - 1, infer);
    LaterPassesExact(text, [], first, passes - 1, infer, [first], later);
    if later.Some? {
      var all :| Continues(text, infer, [first], passes - 1, later.value, all);
      FirstAndLater(text, passes, infer, first, later.value, all);
    } else {
      var all :| FailsAfter(text, infer, [first], passes - 1, all);
      assert Fails(text, passes, infer, all);
    }
  }

  lemma FirstFinding(text: Text, infer: Text -> Option<seq<Suggestion>>)
    requires DecodesOrdered(infer) && infer(text).Some?
    ensures Applicable([Pass(text, infer(text).value)]) && Findings(text, infer, [Pass(text, infer(text).value)])
  {
  }

  lemma NothingCorrected(text: Text)
    ensures Ordered([], 0, |text|) && Corrected(text, []) == text
  {
    RewriteNothing(text, 0, |text|);
  }

  lemma FirstAndLater(
      text: Text, passes: int, infer: Text -> Option<seq<Suggestion>>, first: Pass, later: seq<seq<Suggestion>>,
      all: seq<Pass>)
    requires passes > 1 && Continues(text, infer, [first], passes - 1, later, all)
    ensures RunsTo(text, passes, infer, [first.sugs] + later, all)
  {
    hide Findings, Reached;
    var lists := [first.sugs] + later;
    TranslatedByNothing(first.sugs);
    hide TranslatedAll;
    var one: seq<Pass> := [first];
    assert all[..0] == [] && all[0] == one[0];
    forall p | 0 <= p < |lists|
      ensures lists[p] == TranslatedAll(all[..p], all[p].sugs)
    {
      if p > 0 {
        assert lists[p] == later[p - 1] == TranslatedAll(all[..|one| + (p - 1)], all[|one| + (p - 1)].sugs);
      }
    }
  }

  lemma {:induction false} FindingsChained(text: Text, infer: Text -> Option<seq<Suggestion>>, chain: seq<Pass>)
    requires Findings(text, infer, chain)
    ensures Chained(text, chain, Reached(text, chain, |chain|))
    decreases |chain|
  {
    if chain != [] {
      var front := |chain| - 1;
      PrefixReached(text, infer, chain, front);
      hide Findings, Corrected;
      FindingsChained(text, infer, chain[..front]);
    }
  }

  // Each translated list is ordered in the original.
  lemma RunListsOrdered(
      text: Text, passes: int, infer: Text -> Option<seq<Suggestion>>, lists: seq<seq<Suggestion>>, chain: seq<Pass>)
    requires RunsTo(text, passes, infer, lists, chain)
    ensures AllOrdered(lists, |text|)
  {
    forall p | 0 <= p < |lists|
      ensures Ordered(lists[p], 0, |text|)
    {
      var before := chain[..p];
      PrefixReached(text, infer, chain, p);
      FindingsChained(text, infer, before);
      forall q | 0 <= q && TranslatedPos(before, q).Some?
        ensures 0 <= TranslatedPos(before, q).value
      {
        PositionsNatural(before, q);
      }
      TranslatedAllOrdered(text, before, chain[p].text, chain[p].sugs, 0, 0);
    }
  }

  // Main result, for any number of passes and any inference: the merge returns valid,
  // start-sorted, pairwise apart spans of the request text; it keeps all of pass 1; and what
  // it drops overlaps a kept suggestion of a strictly earlier pass.
  lemma MultiPassSound(text: Text, passes: int, infer: Text -> Option<seq<Suggestion>>)
    requires DecodesOrdered(infer) && PassLists(text, passes, infer).Some?
    ensures var lists := PassLists(text, passes, infer).value;
            lists != [] && lists[0] == infer(text).value && MergeSound(lists, MergedPasses(lists), |text|)
  {
    var lists := PassLists(text, passes, infer).value;
    PassListsExact(text, passes, infer);
    var chain: seq<Pass> :| RunsTo(text, passes, infer, lists, chain);
    RunListsOrdered(text, passes, infer, lists, chain);
    TranslatedByNothing(chain[0].sugs);
    assert chain[..0] == [];
    MergeIsSound(lists, |text|);
  }

  ghost predicate MergeSound(lists: seq<seq<Suggestion>>, out: seq<Suggestion>, textLen: int) {
    && Sorting.SortedBy(StartLess, out) && Sorting.Pairwise(Apart, out) && AllValid(out, textLen)
    && (forall s :: s in out ==> exists p :: 0 <= p < |lists| && s in lists[p])
    && (lists != [] ==> forall s :: s in lists[0] ==> s in out)
    && (forall p, s :: 0 <= p < |lists| && s in lists[p] && s !in out ==>
          exists q, k :: 0 <= q < p && k in lists[q] && k in out && Overlaps(s.span, k.span))
  }

  lemma MergeIsSound(lists: seq<seq<Suggestion>>, textLen: nat)
    requires AllOrdered(lists, textLen)
    ensures MergeSound(lists, MergedPasses(lists), textLen)
  {
    var union, out := Union(lists), MergedPasses(lists);
    UnionApart(lists, textLen);
    Sorting.SortMembers(StartLess, union);
    Sorting.SortSorts(StartLess, union);
    Sorting.SortPairwise(StartLess, Apart, union);
    forall s | s in out
      ensures exists p :: 0 <= p < |lists| && s in lists[p]
    {
      var p := UnionProvenance(lists, textLen, s);
    }
    forall p, s | 0 <= p < |lists| && s in lists[p] && s !in out
      ensures exists q, k :: 0 <= q < p && k in lists[q] && k in out && Overlaps(s.span, k.span)
    {
      UnionCoverage(lists, textLen, p, s);
      var before := Union(lists[..p]);
      var i :| 0 <= i < |before| && Overlaps(s.span, before[i].span);
      var q := UnionProvenance(lists[..p], textLen, before[i]);
      assert before[i] in lists[q] && before[i] == union[i];
    }
    if lists != [] {
      forall s | s in lists[0]
        ensures s in out
      {
        UnionCoverage(lists, textLen, 0, s);
        assert lists[..0] == [];
      }
    }
  }
}
