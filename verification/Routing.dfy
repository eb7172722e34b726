// routing.go and Service.runFast: merge the fast correctors' suggestions greedily by
// priority, whatever order the correctors finish in.
module Routing {
  import opened Edits
  import opened Finalize
  import Sorting

  function CategoryPriority(c: Category): int {
    match c
    case Spelling => 5
    case Grammar => 4
    case Punctuation => 3
    case Style => 2
    case Typography => 1
    case Unknown => 0
  }

  // Strictly preferred: higher confidence, then shorter span, then category, then position.
  predicate Preferred(a: Suggestion, b: Suggestion) {
    var aLen, bLen := a.span.end - a.span.start, b.span.end - b.span.start;
    var aCat, bCat := CategoryPriority(a.category), CategoryPriority(b.category);
    if a.confidence != b.confidence then a.confidence > b.confidence
    else if aLen != bLen then aLen < bLen
    else if aCat != bCat then aCat > bCat
    else a.span.start < b.span.start
  }

  predicate OverlapsKept(kept: seq<Suggestion>, s: Suggestion) {
    exists i :: 0 <= i < |kept| && Overlaps(kept[i].span, s.span)
  }

  function Greedy(kept: seq<Suggestion>, rest: seq<Suggestion>): seq<Suggestion>
    decreases |rest|
  {
    if rest == [] then kept
    else Greedy(if OverlapsKept(kept, rest[0]) then kept else kept + [rest[0]], rest[1..])
  }

  function Merged(sugs: seq<Suggestion>): seq<Suggestion> {
    Sorting.StableSort(StartLess, Greedy([], Sorting.StableSort(Preferred, sugs)))
  }

  // mergeSuggestions.
  method MergeSuggestions(sugs: seq<Suggestion>) returns (kept: seq<Suggestion>)
    ensures kept == Merged(sugs)
  {
    var sorted := Sorting.StableSort(Preferred, sugs);
    kept := [];
    assert sorted[0..] == sorted;
    for i := 0 to |sorted|
      invariant Greedy(kept, sorted[i..]) == Greedy([], sorted)
    {
      var s := sorted[i];
      assert sorted[i..][0] == s && sorted[i..][1..] == sorted[i + 1..];
      var overlap := false;
      for j := 0 to |kept|
        invariant overlap == exists k :: 0 <= k < j && Overlaps(kept[k].span, s.span)
      {
        if Overlaps(kept[j].span, s.span) {
          overlap := true;
          break;
        }
      }
      if !overlap {
        kept := kept + [s];
      }
    }
    kept := Sorting.StableSort(StartLess, kept);
  }

  lemma PreferredIsStrictWeak()
    ensures Sorting.StrictWeak(Preferred)
  {
  }

  lemma {:induction false} GreedyInvariant(kept: seq<Suggestion>, rest: seq<Suggestion>)
    requires Sorting.SortedBy(Preferred, kept + rest) && Sorting.Pairwise(Apart, kept)
    ensures Sorting.Pairwise(Apart, Greedy(kept, rest))
    ensures kept <= Greedy(kept, rest)
    ensures forall s :: s in Greedy(kept, rest) ==> s in kept || s in rest
    ensures forall s :: s in rest && s !in Greedy(kept, rest) ==>
              exists k :: k in Greedy(kept, rest) && Overlaps(k.span, s.span) && !Preferred(s, k)
    decreases |rest|
  {
    if rest != [] {
      var s, all := rest[0], kept + rest;
      assert all[|kept|] == s;
      if OverlapsKept(kept, s) {
        assert forall i :: 0 <= i < |kept + rest[1..]| ==>
            (kept + rest[1..])[i] == all[if i < |kept| then i else i + 1];
        GreedyInvariant(kept, rest[1..]);
        var i :| 0 <= i < |kept| && Overlaps(kept[i].span, s.span);
        assert all[i] == kept[i] && !Preferred(s, kept[i]);
        assert Greedy(kept, rest)[i] == kept[i];
      } else {
        assert kept + [s] + rest[1..] == all;
        GreedyInvariant(kept + [s], rest[1..]);
        assert Greedy(kept, rest)[|kept|] == s;
      }
    }
  }

  // Main result: the merge is a start-sorted, pairwise non-overlapping selection, and it is
  // maximal: whatever it dropped overlaps a kept suggestion of no lower priority.
  lemma MergeMaximal(sugs: seq<Suggestion>)
    ensures var out := Merged(sugs);
            && Sorting.SortedBy(StartLess, out) && Sorting.Pairwise(Apart, out)
            && (forall s :: s in out ==> s in sugs)
            && (forall s :: s in sugs && s !in out ==>
                  exists k :: k in out && Overlaps(k.span, s.span) && !Preferred(s, k))
  {
    hide Preferred, Sorting.StableSort, Greedy;
    var sorted := Sorting.StableSort(Preferred, sugs);
    var kept := Greedy([], sorted);
    PreferredIsStrictWeak();
    Sorting.SortSorts(Preferred, sugs);
    Sorting.SortMembers(Preferred, sugs);
    assert [] + sorted == sorted;
    GreedyInvariant([], sorted);
    Sorting.SortSorts(StartLess, kept);
    Sorting.SortPairwise(StartLess, Apart, kept);
    Sorting.SortMembers(StartLess, kept);
  }

  // The order of preference, spelled out: a dropped suggestion overlaps a kept one that is more
  // confident; or as confident and shorter; or also as long and of an earlier category in the
  // list; or also of the same rank and no further right.
  lemma MergePrefers(sugs: seq<Suggestion>, s: Suggestion)
    requires s in sugs && s !in Merged(sugs)
    ensures exists k :: k in Merged(sugs) && k.span.start < s.span.end && s.span.start < k.span.end
              && Yields(s, k, [Spelling, Grammar, Punctuation, Style, Typography, Unknown])
  {
    MergeMaximal(sugs);
    var k :| k in Merged(sugs) && Overlaps(k.span, s.span) && !Preferred(s, k);
    RanksListed(s.category);
    RanksListed(k.category);
    assert Yields(s, k, [Spelling, Grammar, Punctuation, Style, Typography, Unknown]);
  }

  // s gives way to k; categories rank by their place in the list.
  ghost predicate Yields(s: Suggestion, k: Suggestion, ranking: seq<Category>) {
    var sLen, kLen := s.span.end - s.span.start, k.span.end - k.span.start;
    || k.confidence > s.confidence
    || (k.confidence == s.confidence && kLen < sLen)
    || (k.confidence == s.confidence && kLen == sLen
        && exists i, j :: 0 <= i <= j < |ranking| && ranking[i] == k.category && ranking[j] == s.category
             && (i < j || k.span.start <= s.span.start))
  }

  lemma RanksListed(c: Category)
    ensures 0 <= CategoryPriority(c) <= 5
    ensures [Spelling, Grammar, Punctuation, Style, Typography, Unknown][5 - CategoryPriority(c)] == c
  {
  }

  // --- propagateFastCategories ----------------------------------------------------------------

  // The category of the first specific fast suggestion overlapping the span, if any.
  function FastCategory(span: Span, fast: seq<Suggestion>): Category {
    if fast == [] then Grammar
    else if fast[0].category != Grammar && Overlaps(span, fast[0].span) then fast[0].category
    else FastCategory(span, fast[1..])
  }

  function Recategorised(s: Suggestion, fast: seq<Suggestion>): Suggestion {
    if s.category != Grammar then s else s.(category := FastCategory(s.span, fast))
  }

  function Propagated(llm: seq<Suggestion>, fast: seq<Suggestion>): (r: seq<Suggestion>)
    ensures |r| == |llm|
    ensures forall i :: 0 <= i < |r| ==> r[i].span == llm[i].span && r[i].replacement == llm[i].replacement
  {
    seq(|llm|, i requires 0 <= i < |llm| => Recategorised(llm[i], fast))
  }

  method PropagateFastCategories(llm: array<Suggestion>, fast: seq<Suggestion>)
    modifies llm
    ensures llm[..] == Propagated(old(llm[..]), fast)
  {
    if llm.Length == 0 || |fast| == 0 {
      return;
    }
    for i := 0 to llm.Length
      invariant forall k :: 0 <= k < i ==> llm[k] == Recategorised(old(llm[k]), fast)
      invariant forall k :: i <= k < llm.Length ==> llm[k] == old(llm[k])
    {
      if llm[i].category != Grammar {
        continue;
      }
      assert fast[0..] == fast;
      for j := 0 to |fast|
        invariant llm[i] == old(llm[i])
        invariant forall k :: 0 <= k < i ==> llm[k] == Recategorised(old(llm[k]), fast)
        invariant forall k :: i <= k < llm.Length ==> llm[k] == old(llm[k])
        invariant FastCategory(llm[i].span, fast[j..]) == FastCategory(llm[i].span, fast)
      {
        assert fast[j..][0] == fast[j] && fast[j..][1..] == fast[j + 1..];
        if fast[j].category == Grammar {
          continue;
        }
        if Overlaps(llm[i].span, fast[j].span) {
          llm[i] := llm[i].(category := fast[j].category);
          break;
        }
      }
    }
  }

  // Recategorising is display-only: the applied text is untouched.
  lemma {:induction false} PropagationAppliesSame(text: Text, llm: seq<Suggestion>, fast: seq<Suggestion>)
    ensures AppliedLastFirst(text, Propagated(llm, fast)) == AppliedLastFirst(text, llm)
  {
    if llm != [] {
      PropagationAppliesSame(text, llm[1..], fast);
      assert Propagated(llm, fast)[1..] == Propagated(llm[1..], fast);
    }
  }

  // The first fast edit with a category of its own that overlaps the span, or |fast|.
  ghost predicate FirstSpecific(span: Span, fast: seq<Suggestion>, j: nat) {
    && j <= |fast| && (forall k :: 0 <= k < j ==> !Specific(span, fast[k]))
    && (j < |fast| ==> Specific(span, fast[j]))
  }

  // What recategorising does: a grammar edit takes the category of that edit, if there is one;
  // nothing else changes.
  lemma PropagatedExact(llm: seq<Suggestion>, fast: seq<Suggestion>, i: nat, j: nat)
    requires i < |llm| && FirstSpecific(llm[i].span, fast, j)
    ensures Propagated(llm, fast)[i]
         == if llm[i].category == Grammar && j < |fast| then llm[i].(category := fast[j].category) else llm[i]
  {
    UnspecificSkipped(llm[i].span, fast, j);
    assert j < |fast| ==> fast[j..][0] == fast[j];
  }

  predicate Specific(span: Span, f: Suggestion) {
    f.category != Grammar && span.start < f.span.end && f.span.start < span.end
  }

  lemma {:induction false} UnspecificSkipped(span: Span, fast: seq<Suggestion>, j: nat)
    requires j <= |fast| && forall k :: 0 <= k < j ==> !Specific(span, fast[k])
    ensures FastCategory(span, fast) == FastCategory(span, fast[j..])
    decreases j
  {
    if j == 0 {
      assert fast[0..] == fast;
    } else {
      UnspecificSkipped(span, fast, j - 1);
      assert fast[j - 1..][0] == fast[j - 1] && fast[j - 1..][1..] == fast[j..];
    }
  }

  // --- runFast: concurrent correctors ------------------------------------------------------------

  // How one corrector's goroutine ends. Errors and panics leave its result slot empty.
  datatype Outcome = Returned(sugs: seq<Suggestion>) | Failed | Panicked

  function Contribution(o: Outcome, repair: seq<Suggestion> -> seq<Suggestion>): seq<Suggestion> {
    match o
    case Returned(sugs) => repair(sugs)
    case Failed => []
    case Panicked => []
  }

  // The serial meaning: contributions concatenated in configuration order.
  function Gathered(outcomes: seq<Outcome>, repair: seq<Suggestion> -> seq<Suggestion>): seq<Suggestion> {
    if outcomes == [] then []
    else
      var last := |outcomes| - 1;
      Gathered(outcomes[..last], repair) + Contribution(outcomes[last], repair)
  }

  // What correctors contribute: their repaired suggestions, in the order of configuration;
  // nothing when one fails or panics.
  lemma {:induction false} GatheredParts(
      before: seq<Outcome>, o: Outcome, after: seq<Outcome>, repair: seq<Suggestion> -> seq<Suggestion>)
    ensures Gathered(before + [o] + after, repair)
         == Gathered(before, repair) + (if o.Returned? then repair(o.sugs) else []) + Gathered(after, repair)
    decreases |after|
  {
    var all := before + [o] + after;
    var part := Contribution(o, repair);
    if after == [] {
      assert all[..|all| - 1] == before && all[|all| - 1] == o;
    } else {
      var last := |after| - 1;
      assert all[..|all| - 1] == before + [o] + after[..last] && all[|all| - 1] == after[last];
      GatheredParts(before, o, after[..last], repair);
      AppendAssoc(Gathered(before, repair) + part, Gathered(after[..last], repair), Contribution(after[last], repair));
    }
  }

  function Indices(n: nat): (r: set<int>)
    ensures forall i :: i in r <==> 0 <= i < n
  {
    if n == 0 then {} else Indices(n - 1) + {n - 1}
  }

  // Every schedule of goroutine completions and of the consumer, which may take slot
  // `next` only after its done channel is closed, produces the serial result.
  method RunFast(outcomes: seq<Outcome>, repair: seq<Suggestion> -> seq<Suggestion>) returns (merged: seq<Suggestion>)
    ensures merged == Merged(Gathered(outcomes, repair))
  {
    var n := |outcomes|;
    var results := new seq<Suggestion>[n](_ => []);
    var running := Indices(n);
    var raw := [];
    var next := 0;
    while next < n
      invariant 0 <= next <= n
      invariant forall i :: i in running ==> 0 <= i < n
      invariant forall i :: 0 <= i < n && i !in running ==> results[i] == Contribution(outcomes[i], repair)
      invariant raw == Gathered(outcomes[..next], repair)
      decreases |running| + (n - next)
    {
      var consume := next !in running;
      if consume && running != {} {
        consume := *;
      }
      if consume {
        raw := raw + results[next];
        assert outcomes[..next + 1][..next] == outcomes[..next];
        next := next + 1;
      } else {
        var i :| i in running;
        match outcomes[i] {
          case Returned(sugs) => results[i] := repair(sugs);
          case Failed => results[i] := [];
          case Panicked => results[i] := [];
        }
        running := running - {i};
      }
    }
    assert outcomes[..n] == outcomes;
    merged := MergeSuggestions(raw);
  }
}
