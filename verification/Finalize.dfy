// Service.finalize: filter, sort by span start, drop duplicates and zero-width
// boundary conflicts, so that last-to-first application is safe for every caller.
module Finalize {
  import opened Edits
  import Sorting

  datatype Key = Key(start: int, end: int, replacement: Text)

  function KeyOf(s: Suggestion): Key {
    Key(s.span.start, s.span.end, s.replacement)
  }

  predicate StartLess(a: Suggestion, b: Suggestion) {
    a.span.start < b.span.start
  }

  predicate Apart(a: Suggestion, b: Suggestion) {
    !Overlaps(a.span, b.span)
  }

  // zeroWidthSuggestionsConflict.
  predicate ZeroWidthConflict(first: Span, second: Span) {
    if first.ZeroWidth() && second.ZeroWidth() then first.start == second.start
    else if first.ZeroWidth() then first.start == second.start || first.start == second.end
    else if second.ZeroWidth() then second.start == first.start || second.start == first.end
    else false
  }

  // It is the same edit, or a zero-width boundary conflict.
  predicate RulesOut(kept: Suggestion, s: Suggestion) {
    KeyOf(kept) == KeyOf(s) || ZeroWidthConflict(kept.span, s.span)
  }

  predicate RuledOut(kept: seq<Suggestion>, s: Suggestion) {
    exists i :: 0 <= i < |kept| && RulesOut(kept[i], s)
  }

  function Deduplicated(kept: seq<Suggestion>, sugs: seq<Suggestion>): seq<Suggestion>
    decreases |sugs|
  {
    if sugs == [] then kept
    else Deduplicated(if RuledOut(kept, sugs[0]) then kept else kept + [sugs[0]], sugs[1..])
  }

  method ConflictsWithAny(kept: seq<Suggestion>, span: Span) returns (conflicts: bool)
    ensures conflicts <==> exists k :: 0 <= k < |kept| && ZeroWidthConflict(kept[k].span, span)
  {
    for j := 0 to |kept|
      invariant forall k :: 0 <= k < j ==> !ZeroWidthConflict(kept[k].span, span)
    {
      if ZeroWidthConflict(kept[j].span, span) {
        return true;
      }
    }
    return false;
  }

  // deduplicateFinalizeSuggestions.
  method Deduplicate(suggestions: seq<Suggestion>) returns (kept: seq<Suggestion>)
    ensures kept == Deduplicated([], suggestions)
  {
    var seen: set<Key> := {};
    kept := [];
    var i := 0;
    while i < |suggestions|
      invariant 0 <= i <= |suggestions|
      invariant forall k :: 0 <= k < |kept| ==> KeyOf(kept[k]) in seen
      invariant forall key :: key in seen ==> exists k :: 0 <= k < |kept| && KeyOf(kept[k]) == key
      invariant Deduplicated(kept, suggestions[i..]) == Deduplicated([], suggestions)
    {
      var suggestion := suggestions[i];
      assert suggestions[i..][0] == suggestion && suggestions[i..][1..] == suggestions[i + 1..];
      var key := KeyOf(suggestion);
      if key in seen {
        i := i + 1;
        continue;
      }
      var conflicts := ConflictsWithAny(kept, suggestion.span);
      if !conflicts {
        seen := seen + {key};
        ghost var was := kept;
        kept := kept + [suggestion];
        assert kept[|was|] == suggestion;
        assert forall k :: 0 <= k < |was| ==> kept[k] == was[k];
      }
      i := i + 1;
    }
  }

  function Filtered(drop: Suggestion -> bool, sugs: seq<Suggestion>): seq<Suggestion> {
    if sugs == [] then []
    else if drop(sugs[0]) then Filtered(drop, sugs[1..])
    else [sugs[0]] + Filtered(drop, sugs[1..])
  }

  // Stable sort by start, then de-duplication.
  function SettledList(all: seq<Suggestion>): seq<Suggestion> {
    Deduplicated([], Sorting.StableSort(StartLess, all))
  }

  // The list finalize returns; `drop` is the allow-list and rejection filters together.
  function Finalized(drop: Suggestion -> bool, all: seq<Suggestion>): seq<Suggestion> {
    SettledList(Filtered(drop, all))
  }

  // Service.finalize up to the list it logs and returns.
  method Finalize(drop: Suggestion -> bool, all: seq<Suggestion>) returns (out: seq<Suggestion>)
    ensures out == Finalized(drop, all)
  {
    var filtered := [];
    assert all[0..] == all;
    for i := 0 to |all|
      invariant filtered + Filtered(drop, all[i..]) == Filtered(drop, all)
    {
      assert all[i..][0] == all[i] && all[i..][1..] == all[i + 1..];
      if drop(all[i]) {
        continue;
      }
      filtered := filtered + [all[i]];
    }
    assert all[|all|..] == [] && filtered + [] == filtered;
    out := Deduplicate(Sorting.StableSort(StartLess, filtered));
  }

  // --- What finalize guarantees ------------------------------------------------------------

  // Valid, with at least one untouched byte between every two spans.
  ghost predicate Separated(sugs: seq<Suggestion>, textLen: int) {
    && (forall i :: 0 <= i < |sugs| ==> sugs[i].span.Valid(textLen))
    && (forall i, j :: 0 <= i < j < |sugs| ==> sugs[i].span.end < sugs[j].span.start)
  }

  ghost predicate AllValid(sugs: seq<Suggestion>, textLen: int) {
    forall s :: s in sugs ==> s.span.Valid(textLen)
  }

  lemma {:induction false} FilteredKeeps(drop: Suggestion -> bool, all: seq<Suggestion>)
    requires Sorting.Pairwise(Apart, all)
    ensures Sorting.Pairwise(Apart, Filtered(drop, all))
    ensures forall s :: s in Filtered(drop, all) <==> s in all && !drop(s)
  {
    if all != [] {
      var rest := all[1..];
      assert forall i :: 0 <= i < |rest| ==> rest[i] == all[i + 1];
      FilteredKeeps(drop, rest);
      var r, t := Filtered(drop, all), Filtered(drop, rest);
      assert forall s :: s in t ==> Apart(all[0], s);
      if !drop(all[0]) {
        assert forall i :: 0 < i < |r| ==> r[i] == t[i - 1];
      }
    }
  }

  // Everything kept came from the input; everything dropped is ruled out by a kept one.
  lemma {:induction false} DeduplicatedMaximal(kept: seq<Suggestion>, sugs: seq<Suggestion>)
    ensures kept <= Deduplicated(kept, sugs)
    ensures forall s :: s in Deduplicated(kept, sugs) ==> s in kept || s in sugs
    ensures forall s :: s in sugs ==>
              s in Deduplicated(kept, sugs) || RuledOut(Deduplicated(kept, sugs), s)
    decreases |sugs|
  {
    if sugs != [] {
      var kept' := if RuledOut(kept, sugs[0]) then kept else kept + [sugs[0]];
      DeduplicatedMaximal(kept', sugs[1..]);
      var out := Deduplicated(kept', sugs[1..]);
      if RuledOut(kept, sugs[0]) {
        var i :| 0 <= i < |kept| && RulesOut(kept[i], sugs[0]);
        assert out[i] == kept[i];
      } else {
        assert out[|kept|] == sugs[0];
      }
    }
  }

  lemma HeadKept(kept: seq<Suggestion>, sugs: seq<Suggestion>)
    requires sugs != [] && !RuledOut(kept, sugs[0])
    ensures sugs[0] in Deduplicated(kept, sugs)
  {
    DeduplicatedMaximal(kept + [sugs[0]], sugs[1..]);
    assert (kept + [sugs[0]])[|kept|] == sugs[0];
    assert Deduplicated(kept, sugs)[|kept|] == sugs[0];
  }

  // A suggestion dropped was ruled out by a kept one before it.
  lemma {:induction false} DroppedByEarlier(kept: seq<Suggestion>, sugs: seq<Suggestion>, i: nat)
    requires i < |sugs| && sugs[i] !in Deduplicated(kept, sugs)
    ensures exists k :: k in Deduplicated(kept, sugs) && (k in kept || k in sugs[..i]) && RulesOut(k, sugs[i])
    decreases |sugs|
  {
    hide RulesOut;
    DeduplicatedMaximal(kept, sugs);
    var out := Deduplicated(kept, sugs);
    if i == 0 {
      if !RuledOut(kept, sugs[0]) {
        HeadKept(kept, sugs);
      }
      var j :| 0 <= j < |kept| && RulesOut(kept[j], sugs[0]);
      assert out[j] == kept[j];
    } else {
      var kept' := if RuledOut(kept, sugs[0]) then kept else kept + [sugs[0]];
      DroppedByEarlier(kept', sugs[1..], i - 1);
      var k :| k in out && (k in kept' || k in sugs[1..][..i - 1]) && RulesOut(k, sugs[i]);
      assert sugs[..i] == [sugs[0]] + sugs[1..][..i - 1];
    }
  }

  // The invariant of de-duplication over a start-sorted, pairwise apart list: the kept
  // part is ordered, because the one shape `Overlaps` misses (a zero-width edit on
  // another span's boundary) is exactly what is ruled out.
  lemma {:induction false} DeduplicatedOrdered(kept: seq<Suggestion>, sugs: seq<Suggestion>, textLen: int)
    requires Sorting.SortedBy(StartLess, kept + sugs)
    requires Sorting.Pairwise(Apart, kept + sugs)
    requires AllValid(kept + sugs, textLen) && Settled(kept)
    ensures Settled(Deduplicated(kept, sugs))
    decreases |sugs|
  {
    hide RuledOut, KeyOf;
    if sugs != [] {
      var s := sugs[0];
      var all, dropped := kept + sugs, kept + sugs[1..];
      assert kept + [s] + sugs[1..] == all;
      NotRuledOut(kept, s);
      if RuledOut(kept, s) {
        assert forall i :: 0 <= i < |dropped| ==> dropped[i] == all[if i < |kept| then i else i + 1];
        DeduplicatedOrdered(kept, sugs[1..], textLen);
      } else {
        SettledGrows(kept, s, all, textLen);
        DeduplicatedOrdered(kept + [s], sugs[1..], textLen);
      }
    }
  }

  lemma SettledGrows(kept: seq<Suggestion>, s: Suggestion, all: seq<Suggestion>, textLen: int)
    requires kept + [s] <= all && Settled(kept)
    requires Sorting.SortedBy(StartLess, all) && Sorting.Pairwise(Apart, all) && AllValid(all, textLen)
    requires forall i :: 0 <= i < |kept| ==> !ZeroWidthConflict(kept[i].span, s.span)
    ensures Settled(kept + [s])
  {
    var n := |kept|;
    assert all[n] == s && forall i :: 0 <= i < n ==> all[i] == kept[i];
    forall i | 0 <= i < n
      ensures kept[i].span.end <= s.span.start
    {
      assert Apart(all[i], all[n]) && !StartLess(all[n], all[i]) && all[i] in all && all[n] in all;
    }
  }

  lemma NotRuledOut(kept: seq<Suggestion>, s: Suggestion)
    ensures !RuledOut(kept, s) ==> forall i :: 0 <= i < |kept| ==> !ZeroWidthConflict(kept[i].span, s.span)
  {
  }

  // In list order every span ends no later than the next begins, and no zero-width
  // edit sits on another kept span's boundary.
  ghost predicate Settled(sugs: seq<Suggestion>) {
    forall i, j :: 0 <= i < j < |sugs| ==>
      sugs[i].span.end <= sugs[j].span.start && !ZeroWidthConflict(sugs[i].span, sugs[j].span)
  }

  lemma {:induction false} DeduplicatedUnchanged(kept: seq<Suggestion>, sugs: seq<Suggestion>, textLen: int)
    requires Separated(kept + sugs, textLen)
    ensures Deduplicated(kept, sugs) == kept + sugs
    decreases |sugs|
  {
    if sugs != [] {
      var all := kept + sugs;
      assert all[|kept|] == sugs[0];
      assert forall i :: 0 <= i < |kept| ==> all[i] == kept[i] && all[i].span.end < all[|kept|].span.start;
      assert kept + [sugs[0]] + sugs[1..] == all;
      DeduplicatedUnchanged(kept + [sugs[0]], sugs[1..], textLen);
    }
  }

  // Main result: from any pairwise non-overlapping valid suggestions, in any order and
  // however filtered, finalize produces an ordered list, so applyAll is simultaneous
  // replacement; and it drops only what the filters or a kept edit rule out.
  lemma FinalizedOrdered(text: Text, drop: Suggestion -> bool, all: seq<Suggestion>)
    requires Sorting.Pairwise(Apart, all) && AllValid(all, |text|)
    ensures var out := Finalized(drop, all);
            && Ordered(out, 0, |text|) && Settled(out)
            && AppliedLastFirst(text, out) == Rewrite(text, 0, |text|, out)
            && (forall s :: s in out ==> s in all && !drop(s))
            && (forall s :: s in all && !drop(s) ==> s in out || RuledOut(out, s))
  {
    hide Deduplicated, RuledOut, Filtered, Sorting.StableSort, Rewrite, AppliedLastFirst, Ordered;
    var sorted := SortedFiltered(drop, all);
    assert [] + sorted == sorted;
    DeduplicatedOrdered([], sorted, |text|);
    DeduplicatedMaximal([], sorted);
    var out := Deduplicated([], sorted);
    assert forall i :: 0 <= i < |out| ==> out[i] in out;
    OrderedIffPairwise(out, 0, |text|);
    LastFirstIsRewrite(text, out, 0);
  }

  lemma SortedFiltered(drop: Suggestion -> bool, all: seq<Suggestion>) returns (sorted: seq<Suggestion>)
    requires Sorting.Pairwise(Apart, all)
    ensures sorted == Sorting.StableSort(StartLess, Filtered(drop, all))
    ensures Sorting.SortedBy(StartLess, sorted) && Sorting.Pairwise(Apart, sorted)
    ensures forall s :: s in sorted <==> s in all && !drop(s)
  {
    var filtered := Filtered(drop, all);
    sorted := Sorting.StableSort(StartLess, filtered);
    FilteredKeeps(drop, all);
    Sorting.SortPairwise(StartLess, Apart, filtered);
    Sorting.SortMembers(StartLess, filtered);
    Sorting.SortSorts(StartLess, filtered);
  }

  predicate Blocks(k: Suggestion, s: Suggestion) {
    || (k.span == s.span && k.replacement == s.replacement)
    || (k.span.start == k.span.end && (k.span.start == s.span.start || k.span.start == s.span.end))
    || (s.span.start == s.span.end && (s.span.start == k.span.start || s.span.start == k.span.end))
  }

  // What a suggestion is lost to, in spans: a filter; the same edit; or a kept one where one
  // of the two is an insertion on the other's boundary.
  lemma FinalizedLosses(text: Text, drop: Suggestion -> bool, all: seq<Suggestion>, s: Suggestion)
    requires Sorting.Pairwise(Apart, all) && AllValid(all, |text|) && s in all && s !in Finalized(drop, all)
    ensures drop(s) || exists k :: k in Finalized(drop, all) && Blocks(k, s)
  {
    FinalizedOrdered(text, drop, all);
    if !drop(s) {
      var out := Finalized(drop, all);
      var i :| 0 <= i < |out| && RulesOut(out[i], s);
      assert out[i] in out && Blocks(out[i], s);
    }
  }

  // Strictly separated suggestions pass through finalize untouched.
  lemma FinalizedUnchanged(sugs: seq<Suggestion>, textLen: int)
    requires Separated(sugs, textLen)
    ensures Finalized(s => false, sugs) == sugs
  {
    hide Filtered, Deduplicated, Sorting.StableSort;
    FilteredNothing(sugs);
    Sorting.SortedUnchanged(StartLess, sugs);
    assert [] + sugs == sugs;
    DeduplicatedUnchanged([], sugs, textLen);
  }

  lemma {:induction false} FilteredNothing(sugs: seq<Suggestion>)
    ensures Filtered(s => false, sugs) == sugs
  {
    if sugs != [] {
      FilteredNothing(sugs[1..]);
    }
  }

  lemma SeparatedIsOrdered(sugs: seq<Suggestion>, textLen: nat)
    requires Separated(sugs, textLen)
    ensures Ordered(sugs, 0, textLen)
  {
    OrderedIffPairwise(sugs, 0, textLen);
  }
}
