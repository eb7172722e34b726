// diff.go: an edit script becomes minimal suggestions, fragments of one word are
// coalesced, and no-ops are cancelled, without changing what the list applies to.
module Diff {
  import opened Edits
  import opened Utf8
  import Finalize

  // One operation of the character diff. The diff algorithm itself is foreign: any script
  // whose Equal and Delete parts spell the original is admitted.
  datatype Op = Equal(text: Text) | Delete(text: Text) | Insert(text: Text)

  function Source(script: seq<Op>): Text {
    if script == [] then []
    else if script[0].Insert? then Source(script[1..])
    else script[0].text + Source(script[1..])
  }

  function Target(script: seq<Op>): Text {
    if script == [] then []
    else if script[0].Delete? then Target(script[1..])
    else script[0].text + Target(script[1..])
  }

  function Edit(start: int, end: int, replacement: Text, category: Category): Suggestion {
    Suggestion(Span(start, end), replacement, LLM, category, 0.0)
  }

  // --- The three passes as functions ------------------------------------------------------

  // A delete directly followed by an insert is one replacement and consumes both.
  predicate Paired(script: seq<Op>) {
    |script| > 1 && script[0].Delete? && script[1].Insert?
  }

  function Consumed(script: seq<Op>): nat {
    if Paired(script) then 2 else 1
  }

  // How far the first operation moves through the original.
  function Advance(op: Op): nat {
    if op.Insert? then 0 else |op.text|
  }

  // The text the consumed operations put into the corrected text.
  function Produced(script: seq<Op>): Text
    requires script != []
  {
    if Paired(script) then script[1].text
    else if script[0].Delete? then []
    else script[0].text
  }

  // The suggestions of a script whose first operation starts at byte `pos` of the original.
  function Walked(script: seq<Op>, pos: int, category: Category): seq<Suggestion>
    decreases |script|
  {
    if script == [] then []
    else
      var next := pos + Advance(script[0]);
      var rest := Walked(script[Consumed(script)..], next, category);
      if script[0].Equal? then rest else [Edit(pos, next, Produced(script), category)] + rest
  }

  predicate NoOp(original: Text, s: Suggestion) {
    s.span.Valid(|original|) && original[s.span.start..s.span.end] == s.replacement
  }

  function Cancelled(original: Text, sugs: seq<Suggestion>): seq<Suggestion> {
    if sugs == [] then []
    else if NoOp(original, sugs[0]) then Cancelled(original, sugs[1..])
    else [sugs[0]] + Cancelled(original, sugs[1..])
  }

  // Two consecutive suggestions are fragments of one whitespace-delimited word.
  predicate Mergeable(original: Text, cur: Suggestion, next: Suggestion) {
    && cur.span.Valid(|original|) && next.span.Valid(|original|)
    && next.span.start >= cur.span.end
    && !ContainsWhitespace(original[cur.span.end..next.span.start])
  }

  function Merged(original: Text, cur: Suggestion, next: Suggestion): Suggestion
    requires Mergeable(original, cur, next)
  {
    Suggestion(
      Span(cur.span.start, next.span.end),
      cur.replacement + original[cur.span.end..next.span.start] + next.replacement,
      cur.model, cur.category, 0.0)
  }

  function CoalescedFrom(original: Text, cur: Suggestion, rest: seq<Suggestion>): seq<Suggestion>
    decreases |rest|
  {
    if rest == [] then [cur]
    else if Mergeable(original, cur, rest[0]) then
      CoalescedFrom(original, Merged(original, cur, rest[0]), rest[1..])
    else
      [cur] + CoalescedFrom(original, rest[0], rest[1..])
  }

  function Coalesced(original: Text, sugs: seq<Suggestion>): seq<Suggestion> {
    if |sugs| < 2 then sugs else CoalescedFrom(original, sugs[0], sugs[1..])
  }

  // diffToSuggestionsCategory.
  function Suggestions(original: Text, script: seq<Op>, category: Category): seq<Suggestion> {
    Cancelled(original, Coalesced(original, Cancelled(original, Walked(script, 0, category))))
  }

  // --- The loops ----------------------------------------------------------------------------

  method Walk(script: seq<Op>, category: Category) returns (out: seq<Suggestion>)
    ensures out == Walked(script, 0, category)
  {
    out := [];
    var pos := 0;
    var i := 0;
    hide Walked;
    ghost var goal := Walked(script, 0, category);
    assert script[0..] == script;
    while i < |script|
      invariant 0 <= i <= |script|
      invariant out + Walked(script[i..], pos, category) == goal
      decreases |script| - i
    {
      WalkStep(script, i, pos, category, out);
      var op := script[i];
      var start := pos;
      if op.Equal? {
        pos := pos + |op.text|;
      } else if op.Insert? {
        out := out + [Edit(pos, pos, op.text, category)];
      } else {
        pos := pos + |op.text|;
        if i + 1 < |script| && script[i + 1].Insert? {
          out := out + [Edit(start, pos, script[i + 1].text, category)];
          i := i + 1;
        } else {
          out := out + [Edit(start, pos, [], category)];
        }
      }
      i := i + 1;
    }
    assert script[i..] == [];
    WalkedNothing(pos, category);
  }

  lemma WalkedNothing(pos: int, category: Category)
    ensures Walked([], pos, category) == []
  {
  }

  lemma WalkStep(script: seq<Op>, i: nat, pos: int, category: Category, out: seq<Suggestion>)
    requires i < |script|
    ensures var op, paired := script[i], script[i].Delete? && i + 1 < |script| && script[i + 1].Insert?;
            var next := pos + Advance(op);
            var rest := Walked(script[if paired then i + 2 else i + 1..], next, category);
            var repl := if paired then script[i + 1].text else if op.Delete? then [] else op.text;
            out + Walked(script[i..], pos, category)
            == if op.Equal? then out + rest else (out + [Edit(pos, next, repl, category)]) + rest
  {
    var todo := script[i..];
    assert todo[0] == script[i] && (|todo| > 1 ==> todo[1] == script[i + 1]);
    assert todo[Consumed(todo)..] == script[i + Consumed(todo)..];
  }

  method CancelNoOps(original: Text, sugs: seq<Suggestion>) returns (kept: seq<Suggestion>)
    ensures kept == Cancelled(original, sugs)
  {
    hide Cancelled;
    kept := [];
    ghost var goal := Cancelled(original, sugs);
    assert sugs[0..] == sugs;
    for i := 0 to |sugs|
      invariant kept + Cancelled(original, sugs[i..]) == goal
    {
      var s := sugs[i];
      CancelStep(original, sugs, i, kept);
      if !s.span.Valid(|original|) {
        kept := kept + [s];
        continue;
      }
      if original[s.span.start..s.span.end] == s.replacement {
        continue;
      }
      kept := kept + [s];
    }
    assert sugs[|sugs|..] == [];
    NothingCancelled(original);
  }

  lemma CancelStep(original: Text, sugs: seq<Suggestion>, i: nat, kept: seq<Suggestion>)
    requires i < |sugs|
    ensures (if NoOp(original, sugs[i]) then kept else kept + [sugs[i]]) + Cancelled(original, sugs[i + 1..])
         == kept + Cancelled(original, sugs[i..])
  {
    hide NoOp;
    assert sugs[i..][0] == sugs[i] && sugs[i..][1..] == sugs[i + 1..];
  }

  lemma NothingCancelled(original: Text)
    ensures Cancelled(original, []) == []
  {
  }

  method CoalesceSameWord(original: Text, sugs: seq<Suggestion>) returns (out: seq<Suggestion>)
    ensures out == Coalesced(original, sugs)
  {
    if |sugs| < 2 {
      return sugs;
    }
    out := [];
    var cur := sugs[0];
    for i := 1 to |sugs|
      invariant out + CoalescedFrom(original, cur, sugs[i..]) == Coalesced(original, sugs)
    {
      var next := sugs[i];
      assert sugs[i..][0] == next && sugs[i..][1..] == sugs[i + 1..];
      if Mergeable(original, cur, next) {
        cur := Merged(original, cur, next);
        continue;
      }
      out := out + [cur];
      cur := next;
    }
    out := out + [cur];
  }

  method DiffToSuggestions(original: Text, corrected: Text, script: seq<Op>, category: Category)
      returns (out: seq<Suggestion>)
    requires Source(script) == original && Target(script) == corrected
    ensures out == Suggestions(original, script, category)
    ensures Finalize.Separated(out, |original|)
    ensures AppliedLastFirst(original, out) == corrected
  {
    out := Walk(script, category);
    out := CancelNoOps(original, out);
    out := CoalesceSameWord(original, out);
    out := CancelNoOps(original, out);
    DiffRoundTrip(original, script, category);
  }

  // --- Every pass preserves the rewriting -----------------------------------------------------

  lemma {:induction false} WalkedRewrites(original: Text, script: seq<Op>, pos: nat, category: Category)
    requires pos <= |original| && original[pos..] == Source(script)
    ensures Ordered(Walked(script, pos, category), pos, |original|)
    ensures Rewrite(original, pos, |original|, Walked(script, pos, category)) == Target(script)
    decreases |script|
  {
    hide Rewrite, Ordered, Source, Target, Walked, Produced;
    if script == [] {
      NothingWalked(original, pos, category);
    } else {
      WalkedUnfolds(script, pos, category);
      var rest, next, n := script[Consumed(script)..], pos + Advance(script[0]), |original|;
      StepSpells(original, script, pos);
      EqualProduces(script);
      WalkedRewrites(original, rest, next, category);
      var tail := Walked(rest, next, category);
      if script[0].Equal? {
        RewriteSkip(original, pos, next, n, tail);
      } else {
        RewriteCons(original, pos, n, Edit(pos, next, Produced(script), category), tail);
        assert original[pos..pos] == [];
      }
    }
  }

  lemma NothingWalked(original: Text, pos: nat, category: Category)
    requires pos <= |original| && original[pos..] == Source([])
    ensures Ordered(Walked([], pos, category), pos, |original|)
    ensures Rewrite(original, pos, |original|, Walked([], pos, category)) == Target([])
  {
    RewriteNothing(original, pos, |original|);
    assert original[pos..|original|] == original[pos..];
  }

  lemma EqualProduces(script: seq<Op>)
    requires script != []
    ensures script[0].Equal? ==> Produced(script) == script[0].text
  {
  }

  lemma WalkedUnfolds(script: seq<Op>, pos: int, category: Category)
    requires script != []
    ensures var next := pos + Advance(script[0]);
            var rest := Walked(script[Consumed(script)..], next, category);
            Walked(script, pos, category)
            == if script[0].Equal? then rest else [Edit(pos, next, Produced(script), category)] + rest
  {
  }

  // One step consumes original[pos..next] and produces Produced(script).
  lemma StepSpells(original: Text, script: seq<Op>, pos: nat)
    requires script != [] && pos <= |original| && original[pos..] == Source(script)
    ensures var rest, next := script[Consumed(script)..], pos + Advance(script[0]);
            && next <= |original| && original[next..] == Source(rest)
            && (script[0].Equal? ==> original[pos..next] == script[0].text)
            && Target(script) == Produced(script) + Target(rest)
  {
    var t := script[0].text;
    if Paired(script) {
      assert script[1..][0] == script[1] && script[1..][1..] == script[2..];
    }
    if !script[0].Insert? {
      assert |original[pos..]| == |t| + |Source(script[1..])|;
      assert original[pos..pos + |t|] == original[pos..][..|t|];
      assert original[pos + |t|..] == original[pos..][|t|..];
    }
  }

  // Dropping a no-op, and only a no-op, leaves the rewriting alone.
  lemma {:induction false} CancelledRewrites(original: Text, sugs: seq<Suggestion>, from: nat)
    requires Ordered(sugs, from, |original|)
    ensures Ordered(Cancelled(original, sugs), from, |original|)
    ensures Rewrite(original, from, |original|, Cancelled(original, sugs))
         == Rewrite(original, from, |original|, sugs)
    ensures forall s :: s in Cancelled(original, sugs) <==> s in sugs && !NoOp(original, s)
    decreases |sugs|
  {
    OrderedBounds(sugs, from, |original|);
    if sugs != [] {
      var s, n := sugs[0], |original|;
      CancelledRewrites(original, sugs[1..], s.span.end);
      var rest := Cancelled(original, sugs[1..]);
      if NoOp(original, s) {
        assert Cancelled(original, sugs) == rest;
        RewriteConcat(original, [], rest, from, s.span.end, n);
        assert [] + rest == rest;
        assert original[from..s.span.end] == original[from..s.span.start] + original[s.span.start..s.span.end];
      } else {
        assert Cancelled(original, sugs)[1..] == rest;
      }
    }
  }

  // Neighbours in a gapped list are kept apart by whitespace of the original, so no word
  // is split between two suggestions.
  predicate Gapped(original: Text, sugs: seq<Suggestion>) {
    sugs != [] ==>
      && sugs[0].span.Valid(|original|)
      && (|sugs| > 1 ==>
            && sugs[1].span.Valid(|original|)
            && sugs[0].span.end <= sugs[1].span.start
            && ContainsWhitespace(original[sugs[0].span.end..sugs[1].span.start]))
      && Gapped(original, sugs[1..])
  }

  lemma {:induction false} GappedIsSeparated(original: Text, sugs: seq<Suggestion>)
    requires Gapped(original, sugs)
    ensures Finalize.Separated(sugs, |original|)
    decreases |sugs|
  {
    if sugs != [] {
      var rest := sugs[1..];
      GappedIsSeparated(original, rest);
      assert forall i :: 0 <= i < |rest| ==> rest[i] == sugs[i + 1];
      forall j | 0 < j < |sugs|
        ensures sugs[0].span.end < sugs[j].span.start
      {
        assert sugs[j] == rest[j - 1] && rest[0] == sugs[1];
        assert |original[sugs[0].span.end..sugs[1].span.start]| > 0;
        if j > 1 { assert rest[0].span.end < rest[j - 1].span.start; }
      }
      forall i, j | 0 < i < j < |sugs|
        ensures sugs[i].span.end < sugs[j].span.start
      {
        assert sugs[i] == rest[i - 1] && sugs[j] == rest[j - 1];
      }
    }
  }

  lemma MergedRewrites(original: Text, cur: Suggestion, next: Suggestion, rest: seq<Suggestion>, from: nat)
    requires Ordered([cur] + ([next] + rest), from, |original|)
    requires Mergeable(original, cur, next)
    ensures var merged := Merged(original, cur, next);
            && Ordered([merged] + rest, from, |original|)
            && Rewrite(original, from, |original|, [merged] + rest)
            == Rewrite(original, from, |original|, [cur] + ([next] + rest))
  {
    var merged, n := Merged(original, cur, next), |original|;
    var before := [cur] + ([next] + rest);
    assert before[0] == cur && before[1..] == [next] + rest;
    assert ([next] + rest)[0] == next && ([next] + rest)[1..] == rest;
    assert ([merged] + rest)[0] == merged && ([merged] + rest)[1..] == rest;
    assert Ordered(rest, next.span.end, n);
    OrderedBounds(rest, next.span.end, n);
    var tail := Rewrite(original, next.span.end, n, rest);
    var gap := original[cur.span.end..next.span.start];
    calc {
      Rewrite(original, from, n, before);
      original[from..cur.span.start] + cur.replacement + (gap + next.replacement + tail);
      original[from..cur.span.start] + (cur.replacement + gap + next.replacement) + tail;
      Rewrite(original, from, n, [merged] + rest);
    }
  }

  lemma {:induction false} CoalescedRewrites(original: Text, cur: Suggestion, rest: seq<Suggestion>, from: nat)
    requires Ordered([cur] + rest, from, |original|)
    ensures var out := CoalescedFrom(original, cur, rest);
            && Ordered(out, from, |original|)
            && Rewrite(original, from, |original|, out) == Rewrite(original, from, |original|, [cur] + rest)
            && Gapped(original, out)
            && out != [] && out[0].span.start == cur.span.start && out[0].span.end >= cur.span.end
    decreases |rest|
  {
    var n := |original|;
    OrderedBounds([cur] + rest, from, n);
    assert ([cur] + rest)[0] == cur && ([cur] + rest)[1..] == rest;
    if rest != [] {
      var next := rest[0];
      assert ([cur] + rest)[1] == next;
      assert rest == [next] + rest[1..];
      if Mergeable(original, cur, next) {
        MergedRewrites(original, cur, next, rest[1..], from);
        CoalescedRewrites(original, Merged(original, cur, next), rest[1..], from);
      } else {
        CoalescedRewrites(original, next, rest[1..], cur.span.end);
        var tail := CoalescedFrom(original, next, rest[1..]);
        OrderedBounds(tail, cur.span.end, n);
        assert ([cur] + tail)[0] == cur && ([cur] + tail)[1..] == tail && ([cur] + tail)[1] == tail[0];
      }
    }
  }

  // Cancelling inside a gapped list keeps it gapped: gaps only grow to the right.
  lemma {:induction false} CancelledGapped(original: Text, sugs: seq<Suggestion>)
    requires Gapped(original, sugs)
    ensures Gapped(original, Cancelled(original, sugs))
    ensures Cancelled(original, sugs) != [] ==>
              sugs != [] && sugs[0].span.start <= Cancelled(original, sugs)[0].span.start
    decreases |sugs|
  {
    if sugs != [] {
      hide NoOp;
      CancelledGapped(original, sugs[1..]);
      GapGrows(original, sugs, Cancelled(original, sugs[1..]));
    }
  }

  lemma GapGrows(original: Text, sugs: seq<Suggestion>, r: seq<Suggestion>)
    requires Gapped(original, sugs) && Gapped(original, r) && sugs != []
    requires r != [] ==> |sugs| > 1 && sugs[1].span.start <= r[0].span.start
    ensures Gapped(original, [sugs[0]] + r)
  {
    if r != [] {
      hide ContainsWhitespace;
      var e, s1, s2 := sugs[0].span.end, sugs[1].span.start, r[0].span.start;
      WhitespaceExtends(original[e..s1], original[s1..s2]);
      assert original[e..s1] + original[s1..s2] == original[e..s2];
      assert ([sugs[0]] + r)[1..] == r;
    }
  }

  // Main result: for every edit script, the suggestions are separated (by whitespace),
  // contain no no-op, pass through finalize untouched, and apply to exactly the corrected text.
  lemma DiffRoundTrip(original: Text, script: seq<Op>, category: Category)
    requires Source(script) == original
    ensures var out := Suggestions(original, script, category);
            && Gapped(original, out)
            && Finalize.Separated(out, |original|)
            && (forall s :: s in out ==> !NoOp(original, s)) && Labelled(out, category)
            && Finalize.Finalized(s => false, out) == out
            && AppliedLastFirst(original, out) == Target(script)
  {
    var walked := Walked(script, 0, category);
    var cancelled := Cancelled(original, walked);
    var coalesced := Coalesced(original, cancelled);
    var out := Cancelled(original, coalesced);
    assert original[0..] == original;
    WalkedRewrites(original, script, 0, category);
    CancelledRewrites(original, walked, 0);
    if |cancelled| >= 2 {
      assert [cancelled[0]] + cancelled[1..] == cancelled;
      CoalescedRewrites(original, cancelled[0], cancelled[1..], 0);
    } else {
      OrderedBounds(cancelled, 0, |original|);
    }
    CancelledRewrites(original, coalesced, 0);
    CancelledGapped(original, coalesced);
    GappedIsSeparated(original, out);
    Finalize.FinalizedUnchanged(out, |original|);
    LastFirstIsRewrite(original, out, 0);
    SuggestionsLabelled(original, script, category);
  }

  // All that distinguishes two suggestions of one category is their span and replacement.
  lemma SuggestionsLabelled(original: Text, script: seq<Op>, category: Category)
    ensures Labelled(Suggestions(original, script, category), category)
  {
    var cancelled := Cancelled(original, Walked(script, 0, category));
    WalkedLabelled(script, 0, category);
    CancelledFrom(original, Walked(script, 0, category));
    if |cancelled| >= 2 {
      assert [cancelled[0]] + cancelled[1..] == cancelled;
      CoalescedLabelled(original, cancelled[0], cancelled[1..], category);
    }
    CancelledFrom(original, Coalesced(original, cancelled));
  }

  lemma {:induction false} CancelledFrom(original: Text, sugs: seq<Suggestion>)
    ensures forall s :: s in Cancelled(original, sugs) ==> s in sugs
  {
    if sugs != [] {
      CancelledFrom(original, sugs[1..]);
    }
  }

  // Every suggestion is tagged with the diff's model and category.
  predicate Labelled(sugs: seq<Suggestion>, category: Category) {
    forall s :: s in sugs ==> s.model == LLM && s.category == category && s.confidence == 0.0
  }

  lemma WalkedLabelled(script: seq<Op>, pos: int, category: Category)
    ensures Labelled(Walked(script, pos, category), category)
    decreases |script|
  {
  }

  lemma CoalescedLabelled(original: Text, cur: Suggestion, rest: seq<Suggestion>, category: Category)
    requires Labelled([cur] + rest, category)
    ensures Labelled(CoalescedFrom(original, cur, rest), category)
    decreases |rest|
  {
    if rest != [] {
      assert rest[0] in [cur] + rest && cur in [cur] + rest;
      assert forall s :: s in rest[1..] ==> s in [cur] + rest;
      if Mergeable(original, cur, rest[0]) {
        CoalescedLabelled(original, Merged(original, cur, rest[0]), rest[1..], category);
      } else {
        CoalescedLabelled(original, rest[0], rest[1..], category);
      }
    }
  }

  // --- What the suggestions are: whole words, and only those the script touches -----------------

  // Operation k, unless it keeps text or is the insert of a pair, is one fragment: its place
  // in the original, and the text that stands there afterwards.
  predicate IsFragment(script: seq<Op>, k: nat, category: Category, s: Suggestion) {
    && k < |script| && !script[k].Equal? && !(k > 0 && script[k].Insert? && script[k - 1].Delete?)
    && s.span == Span(|Source(script[..k])|, |Source(script[..k + 1])|)
    && s.replacement == (if script[k].Insert? then script[k].text
                         else if k + 1 < |script| && script[k + 1].Insert? then script[k + 1].text else [])
    && s.model == LLM && s.category == category && s.confidence == 0.0
  }

  lemma {:induction false} SourceConcat(a: seq<Op>, b: seq<Op>)
    ensures Source(a + b) == Source(a) + Source(b)
  {
    if a == [] {
      assert a + b == b;
    } else {
      assert (a + b)[1..] == a[1..] + b;
      SourceConcat(a[1..], b);
    }
  }

  // The fragments from operation i on, seen from the whole script.
  lemma {:induction false} WalkedFragments(script: seq<Op>, i: nat, category: Category, s: Suggestion)
    requires i <= |script| && (0 < i < |script| && script[i].Insert? ==> !script[i - 1].Delete?)
    ensures s in Walked(script[i..], |Source(script[..i])|, category)
       <==> exists k :: i <= k && IsFragment(script, k, category, s)
    decreases |script| - i
  {
    hide Source, IsFragment, Walked;
    if i == |script| {
      NoMoreFragments(script, category, s);
    } else {
      var todo := script[i..];
      var n := i + Consumed(todo);
      assert todo[0] == script[i] && (|todo| > 1 ==> todo[1] == script[i + 1]);
      assert todo[Consumed(todo)..] == script[n..];
      SourceStep(script, i);
      WalkedFragments(script, n, category, s);
      FragmentHere(script, i, n, category, s);
      WalkedUnfolds(todo, |Source(script[..i])|, category);
    }
  }

  lemma NoMoreFragments(script: seq<Op>, category: Category, s: Suggestion)
    ensures script[|script|..] == [] && Walked([], |Source(script[..|script|])|, category) == []
    ensures forall k :: |script| <= k ==> !IsFragment(script, k, category, s)
  {
  }

  // The source before the next step.
  lemma SourceStep(script: seq<Op>, i: nat)
    requires i < |script|
    ensures |Source(script[..i + 1])| == |Source(script[..i])| + Advance(script[i])
    ensures Paired(script[i..]) ==> |Source(script[..i + 2])| == |Source(script[..i + 1])|
  {
    assert script[..i + 1] == script[..i] + [script[i]];
    SourceConcat(script[..i], [script[i]]);
    assert [script[i]][1..] == [];
    if Paired(script[i..]) {
      assert script[..i + 2] == script[..i + 1] + [script[i + 1]];
      SourceConcat(script[..i + 1], [script[i + 1]]);
      assert [script[i + 1]][1..] == [];
    }
  }

  lemma FragmentHere(script: seq<Op>, i: nat, n: nat, category: Category, s: Suggestion)
    requires i < |script| && n == i + Consumed(script[i..])
    requires 0 < i < |script| && script[i].Insert? ==> !script[i - 1].Delete?
    ensures (exists k :: i <= k && IsFragment(script, k, category, s)) <==>
              (exists k :: n <= k && IsFragment(script, k, category, s))
              || (!script[i].Equal? && s == Edit(|Source(script[..i])|, |Source(script[..i + 1])|,
                                                 Produced(script[i..]), category))
  {
    assert IsFragment(script, i, category, s) <==>
           !script[i].Equal? && s == Edit(|Source(script[..i])|, |Source(script[..i + 1])|,
                                          Produced(script[i..]), category);
    assert n == i + 2 ==> !IsFragment(script, i + 1, category, s);
    if k :| i <= k && IsFragment(script, k, category, s) {
      assert k == i || n <= k;
    }
  }

  predicate WhiteBefore(original: Text, sugs: seq<Suggestion>, i: nat)
    requires 0 < i < |sugs| && 0 <= sugs[i - 1].span.end <= sugs[i].span.start <= |original|
  {
    ContainsWhitespace(original[sugs[i - 1].span.end..sugs[i].span.start])
  }

  // The suggestion stands for sugs[a..b] and the text between them.
  ghost predicate Nets(original: Text, sugs: seq<Suggestion>, a: nat, b: nat, s: Suggestion)
    requires a < b <= |sugs|
  {
    && s.span == Span(sugs[a].span.start, sugs[b - 1].span.end) && s.span.Valid(|original|)
    && Ordered(sugs[a..b], s.span.start, s.span.end)
    && s.replacement == Rewrite(original, s.span.start, s.span.end, sugs[a..b])
  }

  // `out` groups sugs[k..] at the given cuts: exactly where white space comes before.
  ghost predicate Groups(original: Text, sugs: seq<Suggestion>, k: nat, out: seq<Suggestion>, cuts: seq<nat>)
    requires Ordered(sugs, 0, |original|)
  {
    && |cuts| == |out| + 1 && cuts[0] == k && cuts[|out|] == |sugs|
    && (forall j :: 0 <= j < |out| ==> GroupAt(original, sugs, cuts, j, out[j]))
    && (forall i :: k < i < |sugs| ==> (i in cuts <==> Gap(original, sugs, i)))
  }

  ghost predicate GroupAt(original: Text, sugs: seq<Suggestion>, cuts: seq<nat>, j: nat, s: Suggestion)
    requires j + 1 < |cuts|
  {
    cuts[j] < cuts[j + 1] <= |sugs| && Nets(original, sugs, cuts[j], cuts[j + 1], s)
  }

  ghost predicate Gap(original: Text, sugs: seq<Suggestion>, i: nat)
    requires Ordered(sugs, 0, |original|) && 0 < i < |sugs|
  {
    OrderedIffPairwise(sugs, 0, |original|);
    WhiteBefore(original, sugs, i)
  }

  lemma NetsOne(original: Text, sugs: seq<Suggestion>, a: nat)
    requires Ordered(sugs, 0, |original|) && a < |sugs|
    ensures Nets(original, sugs, a, a + 1, sugs[a])
  {
    OrderedIffPairwise(sugs, 0, |original|);
    var s := sugs[a];
    assert sugs[a..a + 1] == [s] + [];
    RewriteNothing(original, s.span.end, s.span.end);
    RewriteCons(original, s.span.start, s.span.end, s, []);
    assert original[s.span.start..s.span.start] == [] && original[s.span.end..s.span.end] == [];
  }

  lemma NetsMore(original: Text, sugs: seq<Suggestion>, a: nat, b: nat, cur: Suggestion)
    requires Ordered(sugs, 0, |original|) && a < b < |sugs| && Nets(original, sugs, a, b, cur)
    requires Mergeable(original, cur, sugs[b])
    ensures Nets(original, sugs, a, b + 1, Merged(original, cur, sugs[b]))
  {
    hide Rewrite, Ordered, ContainsWhitespace;
    var s, e := sugs[b], cur.span.end;
    assert sugs[a..b + 1] == sugs[a..b] + [s] && [s] == [s] + [];
    RewriteNothing(original, s.span.end, s.span.end);
    RewriteCons(original, e, s.span.end, s, []);
    RewriteConcat(original, sugs[a..b], [s], cur.span.start, e, s.span.end);
    AddNothing(original, e, s, cur.replacement);
  }

  lemma AddNothing(original: Text, e: int, s: Suggestion, before: Text)
    requires 0 <= e <= s.span.start <= s.span.end <= |original|
    ensures before + (original[e..s.span.start] + s.replacement + original[s.span.end..s.span.end])
         == before + original[e..s.span.start] + s.replacement
  {
  }

  // The coalescing loop with sugs[a..b] in hand.
  lemma {:induction false} CoalescedGroups(original: Text, sugs: seq<Suggestion>, a: nat, b: nat, cur: Suggestion)
    requires Ordered(sugs, 0, |original|) && a < b <= |sugs| && Nets(original, sugs, a, b, cur)
    requires forall i :: a < i < b ==> !Gap(original, sugs, i)
    ensures exists cuts :: Groups(original, sugs, a, CoalescedFrom(original, cur, sugs[b..]), cuts)
    decreases |sugs| - b
  {
    hide Rewrite, Ordered, ContainsWhitespace;
    OrderedIffPairwise(sugs, 0, |original|);
    if b == |sugs| {
      assert sugs[b..] == [] && CoalescedFrom(original, cur, sugs[b..]) == [cur];
      OneGroup(original, sugs, a, cur);
    } else {
      assert sugs[b..][0] == sugs[b] && sugs[b..][1..] == sugs[b + 1..];
      assert Mergeable(original, cur, sugs[b]) <==> !Gap(original, sugs, b);
      if Mergeable(original, cur, sugs[b]) {
        NetsMore(original, sugs, a, b, cur);
        CoalescedGroups(original, sugs, a, b + 1, Merged(original, cur, sugs[b]));
        assert CoalescedFrom(original, cur, sugs[b..])
            == CoalescedFrom(original, Merged(original, cur, sugs[b]), sugs[b + 1..]);
      } else {
        NetsOne(original, sugs, b);
        CoalescedGroups(original, sugs, b, b + 1, sugs[b]);
        var out := CoalescedFrom(original, sugs[b], sugs[b + 1..]);
        var cuts :| Groups(original, sugs, b, out, cuts);
        GroupBefore(original, sugs, a, b, cur, out, cuts);
        assert CoalescedFrom(original, cur, sugs[b..]) == [cur] + out;
      }
    }
  }

  lemma OneGroup(original: Text, sugs: seq<Suggestion>, a: nat, cur: Suggestion)
    requires Ordered(sugs, 0, |original|) && a < |sugs| && Nets(original, sugs, a, |sugs|, cur)
    requires forall i :: a < i < |sugs| ==> !Gap(original, sugs, i)
    ensures exists cuts :: Groups(original, sugs, a, [cur], cuts)
  {
    hide Nets, Gap, Ordered;
    var cuts: seq<nat> := [a, |sugs|];
    assert GroupAt(original, sugs, cuts, 0, cur);
    assert forall i :: i in cuts ==> i == cuts[0] || i == cuts[1];
    assert Groups(original, sugs, a, [cur], cuts);
  }

  lemma GroupBefore(
      original: Text, sugs: seq<Suggestion>, a: nat, b: nat, cur: Suggestion, out: seq<Suggestion>, cuts: seq<nat>)
    requires Ordered(sugs, 0, |original|) && a < b < |sugs| && Nets(original, sugs, a, b, cur)
    requires (forall i :: a < i < b ==> !Gap(original, sugs, i)) && Gap(original, sugs, b)
    requires Groups(original, sugs, b, out, cuts)
    ensures Groups(original, sugs, a, [cur] + out, [a] + cuts)
  {
    hide Nets, Gap, Ordered;
    var out', cuts' := [cur] + out, [a] + cuts;
    CutsRise(original, sugs, b, out, cuts);
    forall j | 0 <= j < |out'|
      ensures GroupAt(original, sugs, cuts', j, out'[j])
    {
      if j > 0 {
        assert GroupAt(original, sugs, cuts, j - 1, out[j - 1]);
      }
    }
    forall i | a < i < |sugs|
      ensures i in cuts' <==> Gap(original, sugs, i)
    {
      assert i in cuts' <==> i in cuts;
      assert i < b ==> forall m :: 0 <= m < |cuts| ==> cuts[m] >= cuts[0];
      assert i == b ==> cuts[0] == i;
    }
  }

  lemma CutsRise(
      original: Text, sugs: seq<Suggestion>, k: nat, out: seq<Suggestion>, cuts: seq<nat>)
    requires Ordered(sugs, 0, |original|) && Groups(original, sugs, k, out, cuts)
    ensures forall i, j :: 0 <= i < j < |cuts| ==> cuts[i] < cuts[j]
  {
    forall j | 0 <= j < |cuts| - 1
      ensures cuts[j] < cuts[j + 1]
    {
      assert GroupAt(original, sugs, cuts, j, out[j]);
    }
    forall i, j | 0 <= i < j < |cuts|
      ensures cuts[i] < cuts[j]
    {
      RiseTo(cuts, i, j);
    }
  }

  lemma {:induction false} RiseTo(cuts: seq<nat>, i: nat, j: nat)
    requires i < j < |cuts| && forall j :: 0 <= j < |cuts| - 1 ==> cuts[j] < cuts[j + 1]
    ensures cuts[i] < cuts[j]
    decreases j
  {
    if i < j - 1 {
      RiseTo(cuts, i, j - 1);
    }
  }

  // Main result on words: the suggestions are the script's fragments, no-ops left out, grouped
  // exactly where white space separates them, each group netted into one, no-ops left out again.
  lemma DiffByWords(original: Text, script: seq<Op>, category: Category)
    requires Source(script) == original
    ensures exists fragments, groups, cuts ::
              ByWords(original, script, category, fragments, groups, cuts, Suggestions(original, script, category))
  {
    var walked := Walked(script, 0, category);
    var fragments := Cancelled(original, walked);
    assert original[0..] == original && script[0..] == script && script[..0] == [];
    WalkedRewrites(original, script, 0, category);
    CancelledRewrites(original, walked, 0);
    forall s
      ensures s in fragments <==> !NoOp(original, s) && exists k :: IsFragment(script, k, category, s)
    {
      WalkedFragments(script, 0, category, s);
    }
    var groups := Coalesced(original, fragments);
    GroupsOf(original, fragments);
    var cuts :| Groups(original, fragments, 0, groups, cuts);
    CancelledFrom(original, groups);
    CancelledExact(original, groups);
    assert ByWords(original, script, category, fragments, groups, cuts, Suggestions(original, script, category));
  }

  ghost predicate ByWords(
      original: Text, script: seq<Op>, category: Category, fragments: seq<Suggestion>, groups: seq<Suggestion>,
      cuts: seq<nat>, out: seq<Suggestion>)
  {
    && Ordered(fragments, 0, |original|)
    && (forall s :: s in fragments <==> !NoOp(original, s) && exists k :: IsFragment(script, k, category, s))
    && Groups(original, fragments, 0, groups, cuts)
    && (forall s :: s in out <==> s in groups && !NoOp(original, s))
  }

  lemma GroupsOf(original: Text, sugs: seq<Suggestion>)
    requires Ordered(sugs, 0, |original|)
    ensures exists cuts :: Groups(original, sugs, 0, Coalesced(original, sugs), cuts)
  {
    if sugs == [] {
      var cuts: seq<nat> := [0];
      assert Groups(original, sugs, 0, Coalesced(original, sugs), cuts);
    } else {
      NetsOne(original, sugs, 0);
      CoalescedGroups(original, sugs, 0, 1, sugs[0]);
      assert |sugs| == 1 ==> sugs[1..] == [] && sugs == [sugs[0]];
      assert Coalesced(original, sugs) == CoalescedFrom(original, sugs[0], sugs[1..]);
    }
  }

  lemma {:induction false} CancelledExact(original: Text, sugs: seq<Suggestion>)
    ensures forall s :: s in Cancelled(original, sugs) <==> s in sugs && !NoOp(original, s)
  {
    if sugs != [] {
      hide NoOp;
      CancelledExact(original, sugs[1..]);
    }
  }

  // Two neighbours come out in one suggestion if and only if no white space separates them.
  lemma SameWordIff(original: Text, sugs: seq<Suggestion>, i: nat)
    requires Ordered(sugs, 0, |original|) && 0 < i < |sugs|
    ensures (exists s :: s in Coalesced(original, sugs) && Spans(s, sugs[i - 1], sugs[i])) <==> !Gap(original, sugs, i)
  {
    hide Ordered, Rewrite, ContainsWhitespace, Coalesced, Gap, WhiteBefore;
    OrderedIffPairwise(sugs, 0, |original|);
    GroupsOf(original, sugs);
    var out := Coalesced(original, sugs);
    var cuts :| Groups(original, sugs, 0, out, cuts);
    CutsRise(original, sugs, 0, out, cuts);
    if Gap(original, sugs, i) {
      WhiteIsSome(original, sugs, i);
      forall m | 0 <= m < |out|
        ensures !Spans(out[m], sugs[i - 1], sugs[i])
      {
        CutBeside(cuts, i, m);
        assert GroupAt(original, sugs, cuts, m, out[m]);
        GroupApart(original, sugs, cuts, m, out[m], i);
      }
    } else {
      var m := GroupAround(sugs, cuts, i);
      assert GroupAt(original, sugs, cuts, m, out[m]);
      assert out[m] in out && Spans(out[m], sugs[i - 1], sugs[i]);
    }
  }

  lemma CutBeside(cuts: seq<nat>, i: nat, m: nat)
    requires (forall a, b :: 0 <= a < b < |cuts| ==> cuts[a] < cuts[b]) && i in cuts && m + 1 < |cuts|
    ensures cuts[m + 1] <= i || i <= cuts[m]
  {
    var j :| 0 <= j < |cuts| && cuts[j] == i;
  }

  lemma GroupApart(original: Text, sugs: seq<Suggestion>, cuts: seq<nat>, m: nat, s: Suggestion, i: nat)
    requires Ordered(sugs, 0, |original|) && 0 < i < |sugs| && sugs[i - 1].span.end < sugs[i].span.start
    requires m + 1 < |cuts| && GroupAt(original, sugs, cuts, m, s) && (cuts[m + 1] <= i || i <= cuts[m])
    ensures !Spans(s, sugs[i - 1], sugs[i])
  {
    hide Rewrite, Ordered;
    OrderedIffPairwise(sugs, 0, |original|);
  }

  predicate Spans(s: Suggestion, a: Suggestion, b: Suggestion) {
    s.span.start <= a.span.start && b.span.end <= s.span.end
  }

  lemma WhiteIsSome(original: Text, sugs: seq<Suggestion>, i: nat)
    requires Ordered(sugs, 0, |original|) && 0 < i < |sugs| && Gap(original, sugs, i)
    ensures sugs[i - 1].span.end < sugs[i].span.start
  {
    OrderedIffPairwise(sugs, 0, |original|);
  }

  // The group that holds both neighbours of a place that is no cut.
  lemma {:induction false} GroupAround(sugs: seq<Suggestion>, cuts: seq<nat>, i: nat) returns (m: nat)
    requires 0 < i < |sugs| && i !in cuts && |cuts| > 0 && cuts[0] == 0 && cuts[|cuts| - 1] == |sugs|
    ensures m + 1 < |cuts| && cuts[m] < i < cuts[m + 1]
  {
    m := 0;
    while cuts[m + 1] < i
      invariant m + 1 < |cuts| && cuts[m] < i
      decreases |cuts| - m
    {
      m := m + 1;
    }
  }
}
