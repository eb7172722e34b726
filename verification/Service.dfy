// Service.correctOnce: every way one unit of text turns into suggestions (fast path,
// escalation, N-best vote, LLM-only, style pass, merge of fast edits), and the invariant
// all of them share.
module Service {
  import opened Edits
  import opened Finalize
  import Diff
  import Routing
  import Sorting
  import Vote
  import Words

  datatype MergeMode = Off | GECToRSpans | AllSpans | GECToRWords | AllWords {
    predicate GECToROnly() { GECToRSpans? || GECToRWords? }
    predicate WordZones() { GECToRWords? || AllWords? }
  }

  // One call: its request, its configuration, and what the foreign parts answer. The
  // language model, the text repairs, the verifier and the diff are arbitrary.
  datatype Run = Run(
    text: Text,
    hasContext: bool,
    picky: bool,
    correctors: seq<Routing.Outcome>,                   // empty: LLM-only mode
    fastRepair: seq<Suggestion> -> seq<Suggestion>,
    hasLlm: bool,
    escalates: seq<Suggestion> -> bool,
    nbest: int,                                         // candidates asked for
    nbestCapable: bool,
    candidates: seq<Text>,                              // CompleteN; empty on a transport error
    completion: Option<Text>,                           // Complete; None on an error
    styled: Option<Text>,                               // the style pass; None on error or no-op
    trim: Text -> Text,
    stripEcho: Text -> Text,
    repairOverEdits: Text -> Text,
    fixArticles: Text -> Text,
    articleFix: bool,
    approves: Text -> bool,                             // semantic verifier against `text`
    diff: Text -> seq<Diff.Op>,                         // edit script from `text`
    mode: MergeMode
  )

  // The diff's scripts spell the request text and the corrected text.
  ghost predicate DiffSpells(run: Run) {
    forall t :: Diff.Source(run.diff(t)) == run.text && Diff.Target(run.diff(t)) == t
  }

  function DiffOf(run: Run, corrected: Text, category: Category): seq<Suggestion> {
    Diff.Suggestions(run.text, run.diff(corrected), category)
  }

  // suspiciouslyTruncated.
  predicate Truncated(original: Text, corrected: Text) {
    |original| >= 200 && |corrected| < |original| / 2
  }

  // The text-level repair chain of one completion; None when the truncation guard rejects it.
  function Repaired(run: Run, raw: Text, withArticles: bool): Option<Text> {
    var trimmed := run.trim(raw);
    if Truncated(run.text, trimmed) then None
    else
      var stripped := if run.hasContext then run.stripEcho(trimmed) else trimmed;
      var repaired := run.repairOverEdits(stripped);
      Some(if withArticles && run.articleFix then run.fixArticles(repaired) else repaired)
  }

  // --- N-best --------------------------------------------------------------------------------

  function Survivors(run: Run, raws: seq<Text>, withArticles: bool): seq<Text> {
    if raws == [] then []
    else
      match Repaired(run, raws[0], withArticles)
      case None => Survivors(run, raws[1..], withArticles)
      case Some(t) => [t] + Survivors(run, raws[1..], withArticles)
  }

  // The candidates that vote; None when N-best is off or too few survive.
  function Voters(run: Run, withArticles: bool): Option<seq<Text>> {
    var survivors := Survivors(run, run.candidates, withArticles);
    if run.nbest < 2 || !run.nbestCapable || |survivors| < run.nbest then None
    else Some(survivors)
  }

  ghost predicate Elects(run: Run, voters: seq<Text>, merged: seq<Suggestion>) {
    Vote.IsMajority(VoteDiffs(run, voters), merged)
  }

  function VoteDiffs(run: Run, voters: seq<Text>): seq<seq<Suggestion>> {
    seq(|voters|, i requires 0 <= i < |voters| => DiffOf(run, voters[i], Grammar))
  }

  method RepairCandidates(run: Run, raws: seq<Text>, withArticles: bool) returns (repaired: seq<Text>)
    ensures repaired == Survivors(run, raws, withArticles)
  {
    repaired := [];
    assert raws[0..] == raws;
    for i := 0 to |raws|
      invariant repaired + Survivors(run, raws[i..], withArticles) == Survivors(run, raws, withArticles)
    {
      assert raws[i..][0] == raws[i] && raws[i..][1..] == raws[i + 1..];
      var fixed := Repaired(run, raws[i], withArticles);
      if fixed.Some? {
        repaired := repaired + [fixed.value];
      }
    }
  }

  method NBest(run: Run, withArticles: bool) returns (merged: Option<seq<Suggestion>>)
    ensures merged.Some? <==> Voters(run, withArticles).Some?
    ensures merged.Some? ==> Elects(run, Voters(run, withArticles).value, merged.value)
  {
    if run.nbest < 2 || !run.nbestCapable {
      return None;
    }
    var repaired := RepairCandidates(run, run.candidates, withArticles);
    if |repaired| < run.nbest {
      return None;
    }
    var diffFn := (original: Text, corrected: Text) => DiffOf(run, corrected, Grammar);
    var out := Vote.MajorityEdits(run.text, repaired, diffFn);
    assert Vote.Diffs(run.text, repaired, diffFn) == VoteDiffs(run, repaired);
    return Some(out);
  }

  // --- Merging fast edits into the LLM's -------------------------------------------------------

  predicate ConflictsIn(text: Text, mode: MergeMode, l: Span, f: Span) {
    if mode.WordZones() then Words.WordZonesConflict(text, l, f) else Words.SpansConflict(l, f)
  }

  predicate Admits(text: Text, mode: MergeMode, llm: seq<Suggestion>, f: Suggestion) {
    && (mode.GECToROnly() ==> f.model == GECToR)
    && forall i :: 0 <= i < |llm| ==> !ConflictsIn(text, mode, llm[i].span, f.span)
  }

  function Admitted(text: Text, mode: MergeMode, llm: seq<Suggestion>, fast: seq<Suggestion>): seq<Suggestion> {
    if fast == [] then []
    else if Admits(text, mode, llm, fast[0]) then [fast[0]] + Admitted(text, mode, llm, fast[1..])
    else Admitted(text, mode, llm, fast[1..])
  }

  function WithFastEdits(text: Text, mode: MergeMode, llm: seq<Suggestion>, fast: seq<Suggestion>): seq<Suggestion> {
    if mode.Off? then llm else llm + Admitted(text, mode, llm, fast)
  }

  method ConflictsWithAny(text: Text, mode: MergeMode, llm: seq<Suggestion>, span: Span) returns (conflict: bool)
    ensures conflict <==> exists k :: 0 <= k < |llm| && ConflictsIn(text, mode, llm[k].span, span)
  {
    for j := 0 to |llm|
      invariant forall k :: 0 <= k < j ==> !ConflictsIn(text, mode, llm[k].span, span)
    {
      if ConflictsIn(text, mode, llm[j].span, span) {
        return true;
      }
    }
    return false;
  }

  // mergeNonConflictingFastEdits.
  method MergeNonConflictingFastEdits(text: Text, mode: MergeMode, llm: seq<Suggestion>, fast: seq<Suggestion>)
      returns (out: seq<Suggestion>)
    ensures out == WithFastEdits(text, mode, llm, fast)
  {
    if mode.Off? || |fast| == 0 {
      return llm;
    }
    out := llm;
    ghost var goal := llm + Admitted(text, mode, llm, fast);
    assert fast[0..] == fast;
    for i := 0 to |fast|
      invariant out + Admitted(text, mode, llm, fast[i..]) == goal
    {
      var f := fast[i];
      AdmittedStep(text, mode, llm, fast, i, out);
      if mode.GECToROnly() && f.model != GECToR {
        continue;
      }
      var conflict := ConflictsWithAny(text, mode, llm, f.span);
      if !conflict {
        out := out + [f];
      }
    }
  }

  lemma AdmittedStep(
      text: Text, mode: MergeMode, llm: seq<Suggestion>, fast: seq<Suggestion>, i: nat, out: seq<Suggestion>)
    requires i < |fast|
    ensures var rest := Admitted(text, mode, llm, fast[i + 1..]);
            out + Admitted(text, mode, llm, fast[i..])
            == if Admits(text, mode, llm, fast[i]) then out + [fast[i]] + rest else out + rest
  {
    hide Admits;
    assert fast[i..][0] == fast[i] && fast[i..][1..] == fast[i + 1..];
  }

  // What an accepted LLM edit list becomes: fast categories re-attached, fast edits merged.
  function Composed(run: Run, llm: seq<Suggestion>, fast: seq<Suggestion>): seq<Suggestion> {
    WithFastEdits(run.text, run.mode, Routing.Propagated(llm, fast), fast)
  }

  method Compose(run: Run, llm: seq<Suggestion>, fast: seq<Suggestion>) returns (out: seq<Suggestion>)
    ensures out == Composed(run, llm, fast)
  {
    var cells := new Suggestion[|llm|](i requires 0 <= i < |llm| => llm[i]);
    assert cells[..] == llm;
    Routing.PropagateFastCategories(cells, fast);
    out := MergeNonConflictingFastEdits(run.text, run.mode, cells[..], fast);
  }

  // --- The style pass --------------------------------------------------------------------------

  predicate OverlapsAny(sugs: seq<Suggestion>, span: Span) {
    exists i :: 0 <= i < |sugs| && Overlaps(sugs[i].span, span)
  }

  function Surviving(grammar: seq<Suggestion>, kept: seq<Suggestion>, styled: seq<Suggestion>): seq<Suggestion>
    decreases |styled|
  {
    if styled == [] then kept
    else if OverlapsAny(grammar, styled[0].span) || OverlapsAny(kept, styled[0].span) then
      Surviving(grammar, kept, styled[1..])
    else Surviving(grammar, kept + [styled[0]], styled[1..])
  }

  function WithStyle(run: Run, grammar: seq<Suggestion>): seq<Suggestion> {
    if !run.hasLlm || run.styled.None? || Truncated(run.text, run.trim(run.styled.value)) then grammar
    else grammar + Surviving(grammar, [], DiffOf(run, run.trim(run.styled.value), Style))
  }

  method FindOverlap(sugs: seq<Suggestion>, span: Span) returns (found: bool)
    ensures found == OverlapsAny(sugs, span)
  {
    for i := 0 to |sugs|
      invariant forall k :: 0 <= k < i ==> !Overlaps(sugs[k].span, span)
    {
      if Overlaps(sugs[i].span, span) {
        return true;
      }
    }
    return false;
  }

  // appendStyleSuggestions.
  method AppendStyleSuggestions(run: Run, grammar: seq<Suggestion>) returns (out: seq<Suggestion>)
    ensures out == WithStyle(run, grammar)
  {
    if !run.hasLlm || run.styled.None? {
      return grammar;
    }
    var text := run.trim(run.styled.value);
    if Truncated(run.text, text) {
      return grammar;
    }
    var styled := DiffOf(run, text, Style);
    var surviving := [];
    assert styled[0..] == styled;
    for i := 0 to |styled|
      invariant Surviving(grammar, surviving, styled[i..]) == Surviving(grammar, [], styled)
    {
      assert styled[i..][0] == styled[i] && styled[i..][1..] == styled[i + 1..];
      var overlapsGrammar := FindOverlap(grammar, styled[i].span);
      if overlapsGrammar {
        continue;
      }
      var dup := FindOverlap(surviving, styled[i].span);
      if !dup {
        surviving := surviving + [styled[i]];
      }
    }
    if |surviving| == 0 {
      assert grammar + [] == grammar;
      return grammar;
    }
    out := grammar + surviving;
  }

  // --- correctOnce -------------------------------------------------------------------------------

  ghost predicate LlmOnlyYields(run: Run, r: Option<seq<Suggestion>>) {
    match Voters(run, false)
    case Some(voters) =>
      exists merged :: Elects(run, voters, merged)
        && r == Some(if run.approves(AppliedLastFirst(run.text, merged)) then merged else [])
    case None =>
      match run.completion
      case None => r == None
      case Some(raw) =>
        match Repaired(run, raw, false)
        case None => r == None
        case Some(t) => r == Some(if run.approves(t) then DiffOf(run, t, Grammar) else [])
  }

  // llmOnlySuggestions; None is an error.
  method LlmOnlySuggestions(run: Run) returns (r: Option<seq<Suggestion>>)
    ensures LlmOnlyYields(run, r)
  {
    var merged := NBest(run, false);
    if merged.Some? {
      var applied := ApplyAll(run.text, merged.value);
      return Some(if run.approves(applied) then merged.value else []);
    }
    if run.completion.None? {
      return None;
    }
    var corrected := Repaired(run, run.completion.value, false);
    if corrected.None? {
      return None;
    }
    if !run.approves(corrected.value) {
      return Some([]);
    }
    return Some(DiffOf(run, corrected.value, Grammar));
  }

  ghost predicate EscalationYields(run: Run, fast: seq<Suggestion>, r: seq<Suggestion>) {
    match Voters(run, true)
    case Some(voters) =>
      exists merged :: Elects(run, voters, merged)
        && r == if run.approves(AppliedLastFirst(run.text, merged)) then Composed(run, merged, fast) else fast
    case None =>
      match run.completion
      case None => r == fast
      case Some(raw) =>
        match Repaired(run, raw, true)
        case None => r == fast
        case Some(t) => r == if run.approves(t) then Composed(run, DiffOf(run, t, Grammar), fast) else fast
  }

  // The escalation arm of correctOnce; every failure falls back to the fast path.
  method Escalate(run: Run, fast: seq<Suggestion>) returns (all: seq<Suggestion>)
    ensures EscalationYields(run, fast, all)
  {
    var merged := NBest(run, true);
    if merged.Some? {
      var applied := ApplyAll(run.text, merged.value);
      if !run.approves(applied) {
        return fast;
      }
      all := Compose(run, merged.value, fast);
      return;
    }
    if run.completion.None? {
      return fast;
    }
    var corrected := Repaired(run, run.completion.value, true);
    if corrected.None? || !run.approves(corrected.value) {
      return fast;
    }
    all := Compose(run, DiffOf(run, corrected.value, Grammar), fast);
  }

  function FastPath(run: Run): seq<Suggestion> {
    Routing.Merged(Routing.Gathered(run.correctors, run.fastRepair))
  }

  ghost predicate GrammarYields(run: Run, r: Option<seq<Suggestion>>) {
    if run.correctors == [] then LlmOnlyYields(run, r)
    else if run.hasLlm && run.escalates(FastPath(run)) then
      r.Some? && EscalationYields(run, FastPath(run), r.value)
    else r == Some(FastPath(run))
  }

  ghost predicate CorrectOnceYields(run: Run, r: Option<seq<Suggestion>>) {
    exists grammar :: GrammarYields(run, grammar)
      && r == if grammar.Some? && run.picky then Some(WithStyle(run, grammar.value)) else grammar
  }

  lemma YieldsFrom(run: Run, grammar: Option<seq<Suggestion>>, r: Option<seq<Suggestion>>)
    requires GrammarYields(run, grammar)
    requires r == if grammar.Some? && run.picky then Some(WithStyle(run, grammar.value)) else grammar
    ensures CorrectOnceYields(run, r)
  {
    hide GrammarYields, WithStyle;
  }

  method CorrectOnce(run: Run) returns (r: Option<seq<Suggestion>>)
    ensures CorrectOnceYields(run, r)
  {
    hide CorrectOnceYields, LlmOnlyYields, EscalationYields, WithStyle;
    if |run.correctors| == 0 {
      var all := LlmOnlySuggestions(run);
      r := all;
      if all.Some? && run.picky {
        var out := AppendStyleSuggestions(run, all.value);
        r := Some(out);
      }
      YieldsFrom(run, all, r);
      return;
    }
    var fast := Routing.RunFast(run.correctors, run.fastRepair);
    var all := fast;
    if run.hasLlm && run.escalates(fast) {
      all := Escalate(run, fast);
    }
    ghost var grammar := Some(all);
    if run.picky {
      all := AppendStyleSuggestions(run, all);
    }
    r := Some(all);
    YieldsFrom(run, grammar, r);
  }

  // --- The invariant every branch keeps ------------------------------------------------------------

  // Valid and pairwise non-overlapping, in any order.
  ghost predicate Sound(run: Run, sugs: seq<Suggestion>) {
    Sorting.Pairwise(Apart, sugs) && AllValid(sugs, |run.text|)
  }

  // The foreign correctors' spans lie in the text.
  ghost predicate FastValid(run: Run) {
    AllValid(Routing.Gathered(run.correctors, run.fastRepair), |run.text|)
  }

  lemma SeparatedIsSound(run: Run, sugs: seq<Suggestion>)
    requires Separated(sugs, |run.text|)
    ensures Sound(run, sugs)
  {
    forall i, j | 0 <= i < j < |sugs|
      ensures Apart(sugs[i], sugs[j])
    {
      assert sugs[i].span.end < sugs[j].span.start;
    }
  }

  lemma DiffSound(run: Run, corrected: Text, category: Category)
    requires DiffSpells(run)
    ensures Separated(DiffOf(run, corrected, category), |run.text|)
    ensures Sound(run, DiffOf(run, corrected, category))
    ensures AppliedLastFirst(run.text, DiffOf(run, corrected, category)) == corrected
    ensures Finalized(s => false, DiffOf(run, corrected, category)) == DiffOf(run, corrected, category)
  {
    Diff.DiffRoundTrip(run.text, run.diff(corrected), category);
    SeparatedIsSound(run, DiffOf(run, corrected, category));
  }

  lemma ElectedSound(run: Run, voters: seq<Text>, merged: seq<Suggestion>)
    requires DiffSpells(run) && Elects(run, voters, merged)
    ensures Separated(merged, |run.text|) && Sound(run, merged)
  {
    forall c | 0 <= c < |voters|
      ensures Separated(VoteDiffs(run, voters)[c], |run.text|)
    {
      DiffSound(run, voters[c], Grammar);
    }
    Vote.MajoritySeparated(VoteDiffs(run, voters), merged, |run.text|);
    SeparatedIsSound(run, merged);
  }

  // The diffs that vote differ in spans and replacements alone.
  lemma VoteDiffsKeyed(run: Run, voters: seq<Text>)
    ensures Vote.KeyDetermines(VoteDiffs(run, voters))
  {
    var diffs := VoteDiffs(run, voters);
    forall s | s in Vote.Proposals(diffs)
      ensures s.model == LLM && s.category == Grammar && s.confidence == 0.0
    {
      Vote.ProposalsFromCandidates(diffs, s);
      var c :| 0 <= c < |diffs| && s in diffs[c];
      Diff.SuggestionsLabelled(run.text, run.diff(voters[c]), Grammar);
    }
  }

  lemma VoteDiffsSplit(run: Run, a: seq<Text>, x: Text, b: seq<Text>)
    ensures VoteDiffs(run, a + [x] + b) == VoteDiffs(run, a) + [DiffOf(run, x, Grammar)] + VoteDiffs(run, b)
    ensures VoteDiffs(run, a + b) == VoteDiffs(run, a) + VoteDiffs(run, b)
  {
    hide DiffOf;
  }

  // The first of one list, found and taken out of the other.
  lemma TakenOut(s: seq<Text>, t: seq<Text>) returns (j: nat)
    requires multiset(s) == multiset(t) && s != []
    ensures j < |t| && t[j] == s[0] && t == t[..j] + [s[0]] + t[j + 1..]
    ensures multiset(s[1..]) == multiset(t[..j] + t[j + 1..])
  {
    assert s[0] in multiset(t);
    j :| j < |t| && t[j] == s[0];
    OneLess(t, j);
    FirstLess(s);
  }

  lemma FirstLess(s: seq<Text>)
    requires s != []
    ensures multiset(s[1..]) == multiset(s) - multiset{s[0]}
  {
    OneLess(s, 0);
    assert s[..0] + s[1..] == s[1..];
  }

  lemma OneLess(t: seq<Text>, j: nat)
    requires j < |t|
    ensures multiset(t[..j] + t[j + 1..]) == multiset(t) - multiset{t[j]}
  {
    assert t == t[..j] + [t[j]] + t[j + 1..];
    OneMore(t[..j], t[j], t[j + 1..]);
  }

  lemma OneMore(a: seq<Text>, x: Text, b: seq<Text>)
    ensures multiset(a + [x] + b) == multiset(a + b) + multiset{x}
  {
  }

  lemma {:induction false} VoteDiffsPermute(run: Run, voters: seq<Text>, voters': seq<Text>)
    requires multiset(voters) == multiset(voters')
    ensures multiset(VoteDiffs(run, voters)) == multiset(VoteDiffs(run, voters'))
    decreases |voters|
  {
    hide VoteDiffs, DiffOf;
    if voters == [] {
      assert |voters'| == |multiset(voters')| == 0;
    } else {
      var x, rest := voters[0], voters[1..];
      var j := TakenOut(voters, voters');
      var a, b := voters'[..j], voters'[j + 1..];
      VoteDiffsPermute(run, rest, a + b);
      VoteDiffsSplit(run, [], x, rest);
      VoteDiffsSplit(run, a, x, b);
      assert [] + [x] + rest == voters && [] + rest == rest;
    }
  }

  // Main result on the order of candidates: permuting them leaves the elected list as it is.
  lemma VoterOrderIrrelevant(
      run: Run, voters: seq<Text>, voters': seq<Text>, out: seq<Suggestion>, out': seq<Suggestion>)
    requires multiset(voters) == multiset(voters')
    requires Elects(run, voters, out) && Elects(run, voters', out')
    ensures out == out'
  {
    VoteDiffsKeyed(run, voters);
    VoteDiffsPermute(run, voters, voters');
    Vote.CandidateOrderIrrelevant(VoteDiffs(run, voters), VoteDiffs(run, voters'), out, out');
  }

  lemma FastSound(run: Run)
    requires FastValid(run)
    ensures Sound(run, FastPath(run))
  {
    Routing.MergeMaximal(Routing.Gathered(run.correctors, run.fastRepair));
  }

  lemma {:induction false} AdmittedSound(run: Run, llm: seq<Suggestion>, fast: seq<Suggestion>)
    requires Sound(run, fast)
    ensures var admitted := Admitted(run.text, run.mode, llm, fast);
            && Sound(run, admitted)
            && forall s :: s in admitted <==> s in fast && Admits(run.text, run.mode, llm, s)
  {
    if fast != [] {
      var rest := fast[1..];
      assert forall i :: 0 <= i < |rest| ==> rest[i] == fast[i + 1];
      AdmittedSound(run, llm, rest);
      var r, t := Admitted(run.text, run.mode, llm, fast), Admitted(run.text, run.mode, llm, rest);
      assert forall s :: s in t ==> Apart(fast[0], s);
      if Admits(run.text, run.mode, llm, fast[0]) {
        assert forall i :: 0 < i < |r| ==> r[i] == t[i - 1];
      }
    }
  }

  lemma ComposedSound(run: Run, llm: seq<Suggestion>, fast: seq<Suggestion>)
    requires Sound(run, llm) && Sound(run, fast)
    ensures Sound(run, Composed(run, llm, fast))
  {
    var marked := Routing.Propagated(llm, fast);
    assert Sound(run, marked) by {
      assert forall i, j :: 0 <= i < j < |llm| ==> Apart(llm[i], llm[j]);
      forall s | s in marked
        ensures s.span.Valid(|run.text|)
      {
        var i :| 0 <= i < |marked| && marked[i] == s;
        assert llm[i] in llm;
      }
    }
    var admitted := Admitted(run.text, run.mode, marked, fast);
    AdmittedSound(run, marked, fast);
    var out := marked + admitted;
    forall i, j | 0 <= i < j < |out|
      ensures Apart(out[i], out[j])
    {
      if i < |marked| <= j {
        assert out[j] in admitted;
        assert Admits(run.text, run.mode, marked, out[j]) && out[i] == marked[i];
        Words.NoConflictNoOverlap(run.text, marked[i].span, out[j].span);
      }
    }
  }

  lemma {:induction false} SurvivingSound(
      run: Run, grammar: seq<Suggestion>, kept: seq<Suggestion>, styled: seq<Suggestion>)
    requires Sound(run, grammar + kept) && AllValid(styled, |run.text|)
    ensures Sound(run, grammar + Surviving(grammar, kept, styled))
    decreases |styled|
  {
    if styled != [] {
      var s := styled[0];
      if OverlapsAny(grammar, s.span) || OverlapsAny(kept, s.span) {
        SurvivingSound(run, grammar, kept, styled[1..]);
      } else {
        var all := grammar + kept;
        var all' := grammar + (kept + [s]);
        assert all' == all + [s];
        forall i | 0 <= i < |all|
          ensures Apart(all[i], s)
        {
          assert all[i] == if i < |grammar| then grammar[i] else kept[i - |grammar|];
        }
        assert Sound(run, all');
        SurvivingSound(run, grammar, kept + [s], styled[1..]);
      }
    }
  }

  lemma StyleSound(run: Run, grammar: seq<Suggestion>)
    requires DiffSpells(run) && Sound(run, grammar)
    ensures Sound(run, WithStyle(run, grammar))
  {
    if WithStyle(run, grammar) != grammar {
      var text := run.trim(run.styled.value);
      DiffSound(run, text, Style);
      assert grammar + [] == grammar;
      SurvivingSound(run, grammar, [], DiffOf(run, text, Style));
    }
  }

  // --- Grammar against style in finalize ---------------------------------------------------------

  // What holds of a grammar list and the style edits appended to it.
  ghost predicate Layered(grammar: seq<Suggestion>, style: seq<Suggestion>, textLen: int) {
    && Settled(grammar) && Separated(style, textLen)
    && Sorting.Pairwise(Apart, grammar + style) && AllValid(grammar + style, textLen)
  }

  // A style edit that ends exactly at the insertion, before which no grammar insertion stands.
  ghost predicate Evicts(grammar: seq<Suggestion>, s: Suggestion, g: Suggestion) {
    && g.span.ZeroWidth() && s.span.start < s.span.end == g.span.start
    && forall h :: h in grammar && h.span.ZeroWidth() ==> h.span.start != s.span.start
  }

  // The sorted list: members and starts, and grammar before style at one start.
  lemma LayeredSorted(grammar: seq<Suggestion>, style: seq<Suggestion>, textLen: int)
    requires Layered(grammar, style, textLen)
    ensures var sorted := Sorting.StableSort(StartLess, grammar + style);
            && (forall s :: s in sorted <==> s in grammar || s in style)
            && Sorting.SortedBy(StartLess, sorted) && Sorting.Pairwise(Apart, sorted)
            && Sorting.Ties(StartLess, (a, b) => b in grammar ==> a in grammar, sorted)
            && Settled(SettledList(grammar + style))
            && forall s :: s in SettledList(grammar + style) ==> s in grammar || s in style
  {
    var all := grammar + style;
    var sorted := Sorting.StableSort(StartLess, all);
    Sorting.SortMembers(StartLess, all);
    Sorting.SortSorts(StartLess, all);
    Sorting.SortPairwise(StartLess, Apart, all);
    var rel := (a, b) => b in grammar ==> a in grammar;
    StartsRise(style, textLen);
    forall i, j | 0 <= i < j < |all| && !StartLess(all[i], all[j]) && !StartLess(all[j], all[i])
      ensures rel(all[i], all[j])
    {
      assert forall k :: |grammar| <= k < |all| ==> all[k] == style[k - |grammar|];
    }
    Sorting.SortTies(StartLess, rel, all);
    assert [] + sorted == sorted;
    DeduplicatedOrdered([], sorted, textLen);
    DeduplicatedMaximal([], sorted);
  }

  lemma StartsRise(style: seq<Suggestion>, textLen: int)
    requires Separated(style, textLen)
    ensures forall i, j :: 0 <= i < j < |style| ==> StartLess(style[i], style[j])
  {
    assert forall i :: 0 <= i < |style| ==> style[i].span.Valid(textLen);
  }

  // k is sorted before t and rules it out.
  ghost predicate Displaces(grammar: seq<Suggestion>, k: Suggestion, t: Suggestion) {
    && RulesOut(k, t) && Apart(k, t)
    && (k.span.start < t.span.start || (k.span.start == t.span.start && (t in grammar ==> k in grammar)))
  }

  // Which kept edit takes the place of a lost one.
  lemma LostTo(grammar: seq<Suggestion>, style: seq<Suggestion>, textLen: int, t: Suggestion)
    requires Layered(grammar, style, textLen) && t in grammar + style
    requires t !in SettledList(grammar + style)
    ensures exists k :: k in SettledList(grammar + style) && Displaces(grammar, k, t)
  {
    var sorted := Sorting.StableSort(StartLess, grammar + style);
    LayeredSorted(grammar, style, textLen);
    assert t in sorted;
    var j :| 0 <= j < |sorted| && sorted[j] == t;
    DroppedByEarlier([], sorted, j);
    var k :| k in Deduplicated([], sorted) && k in sorted[..j] && RulesOut(k, t);
    var i :| 0 <= i < j && sorted[i] == k;
    assert !StartLess(sorted[j], sorted[i]) && Apart(sorted[i], sorted[j]);
  }

  // Two edits of a settled list never rule each other out.
  lemma SettledOwn(grammar: seq<Suggestion>, k: Suggestion, g: Suggestion)
    requires Settled(grammar) && k in grammar && g in grammar && RulesOut(k, g)
    requires k.span.start <= k.span.end && g.span.start <= g.span.end
    ensures k == g
  {
    forall i, j | 0 <= i < j < |grammar|
      ensures grammar[i].span.end <= grammar[j].span.start && !ZeroWidthConflict(grammar[i].span, grammar[j].span)
    {
    }
    var i :| 0 <= i < |grammar| && grammar[i] == k;
    var j :| 0 <= j < |grammar| && grammar[j] == g;
  }

  lemma StyleApart(style: seq<Suggestion>, textLen: int, a: Suggestion, b: Suggestion)
    requires Separated(style, textLen) && a in style && b in style
    ensures a == b || a.span.end < b.span.start || b.span.end < a.span.start
  {
    var i :| 0 <= i < |style| && style[i] == a;
    var j :| 0 <= j < |style| && style[j] == b;
  }

  // A lost grammar edit is an insertion, lost to a style edit that ends at it.
  lemma LostToStyle(grammar: seq<Suggestion>, style: seq<Suggestion>, textLen: int, g: Suggestion)
    requires Layered(grammar, style, textLen) && g in grammar && g !in SettledList(grammar + style)
    ensures g.span.ZeroWidth()
    ensures exists s :: s in style && s in SettledList(grammar + style) && s.span.start < s.span.end == g.span.start
  {
    LayeredSorted(grammar, style, textLen);
    assert g in grammar + style;
    LostTo(grammar, style, textLen, g);
    var k :| k in SettledList(grammar + style) && Displaces(grammar, k, g);
    assert k in grammar + style;
    if k in grammar {
      SettledOwn(grammar, k, g);
    }
  }

  // Two kept edits never conflict.
  lemma KeptAgree(out: seq<Suggestion>, a: Suggestion, b: Suggestion)
    requires Settled(out) && a in out && b in out
    ensures a == b || !ZeroWidthConflict(a.span, b.span)
  {
    forall i, j | 0 <= i < j < |out|
      ensures !ZeroWidthConflict(out[i].span, out[j].span) && !ZeroWidthConflict(out[j].span, out[i].span)
    {
    }
    var i :| 0 <= i < |out| && out[i] == a;
    var j :| 0 <= j < |out| && out[j] == b;
  }

  lemma EvictorKept(grammar: seq<Suggestion>, style: seq<Suggestion>, textLen: int, s: Suggestion, g: Suggestion)
    requires Layered(grammar, style, textLen) && s in style && Evicts(grammar, s, g)
    ensures s in SettledList(grammar + style)
  {
    LayeredSorted(grammar, style, textLen);
    forall k | k in grammar || k in style
      ensures !Displaces(grammar, k, s)
    {
      assert k in grammar + style;
      if k in style {
        StyleApart(style, textLen, k, s);
      }
    }
    assert s in grammar + style;
    if s !in SettledList(grammar + style) {
      LostTo(grammar, style, textLen, s);
    }
  }

  // Where a kept style edit starts, no grammar insertion stands.
  lemma NoInsertionAtStart(grammar: seq<Suggestion>, style: seq<Suggestion>, textLen: int, s: Suggestion)
    requires Layered(grammar, style, textLen)
    requires s in style && s in SettledList(grammar + style) && s.span.start < s.span.end
    ensures forall h :: h in grammar && h.span.ZeroWidth() ==> h.span.start != s.span.start
  {
    LayeredSorted(grammar, style, textLen);
    var out := SettledList(grammar + style);
    forall h | h in grammar && h.span.ZeroWidth()
      ensures h.span.start != s.span.start
    {
      if h in out {
        KeptAgree(out, h, s);
      } else {
        LostToStyle(grammar, style, textLen, h);
        var s' :| s' in style && s' in out && s'.span.start < s'.span.end == h.span.start;
        StyleApart(style, textLen, s, s');
      }
    }
  }

  // Main result on layering: of a settled grammar list an edit is lost to the style pass if
  // and only if it is an insertion, a non-empty style edit ends exactly at it, and no grammar
  // insertion stands where that style edit starts.
  lemma GrammarLostIff(grammar: seq<Suggestion>, style: seq<Suggestion>, textLen: int, g: Suggestion)
    requires Layered(grammar, style, textLen) && g in grammar
    ensures g !in SettledList(grammar + style) <==> exists s :: s in style && Evicts(grammar, s, g)
  {
    var out := SettledList(grammar + style);
    LayeredSorted(grammar, style, textLen);
    forall s | s in style && Evicts(grammar, s, g)
      ensures g !in out
    {
      EvictorKept(grammar, style, textLen, s, g);
      if g in out {
        KeptAgree(out, s, g);
      }
    }
    if g !in out {
      LostToStyle(grammar, style, textLen, g);
      var s :| s in style && s in out && s.span.start < s.span.end == g.span.start;
      NoInsertionAtStart(grammar, style, textLen, s);
      assert Evicts(grammar, s, g);
    }
  }

  // What the style pass appends is layered on a settled grammar list.
  lemma StyleLayered(run: Run, grammar: seq<Suggestion>)
    requires DiffSpells(run) && Sound(run, grammar) && Settled(grammar)
    ensures grammar <= WithStyle(run, grammar)
    ensures Layered(grammar, WithStyle(run, grammar)[|grammar|..], |run.text|)
  {
    var all := WithStyle(run, grammar);
    StyleSound(run, grammar);
    if all == grammar {
      assert all[|grammar|..] == [] && grammar + [] == grammar;
    } else {
      var styled := DiffOf(run, run.trim(run.styled.value), Style);
      DiffSound(run, run.trim(run.styled.value), Style);
      SurvivingSeparated(grammar, [], styled, |run.text|);
      assert all[|grammar|..] == Surviving(grammar, [], styled);
      assert all == grammar + all[|grammar|..];
    }
  }

  lemma {:induction false} SurvivingSeparated(
      grammar: seq<Suggestion>, kept: seq<Suggestion>, styled: seq<Suggestion>, textLen: int)
    requires Separated(kept + styled, textLen)
    ensures Separated(Surviving(grammar, kept, styled), textLen)
    decreases |styled|
  {
    if styled == [] {
      assert kept + [] == kept;
    } else {
      var all, fewer := kept + styled, kept + styled[1..];
      assert forall i :: 0 <= i < |fewer| ==> fewer[i] == all[if i < |kept| then i else i + 1];
      assert kept + [styled[0]] + styled[1..] == all;
      if OverlapsAny(grammar, styled[0].span) || OverlapsAny(kept, styled[0].span) {
        SurvivingSeparated(grammar, kept, styled[1..], textLen);
      } else {
        SurvivingSeparated(grammar, kept + [styled[0]], styled[1..], textLen);
      }
    }
  }

  // An input where it happens: a style edit that ends at a grammar insertion.
  lemma StyleEvictsInsertion(a: Text, b: Text)
    ensures var g, s := Suggestion(Span(5, 5), a, LLM, Grammar, 0.0), Suggestion(Span(2, 5), b, LLM, Style, 0.0);
            Surviving([g], [], [s]) == [s] && SettledList([g] + [s]) == [s]
  {
    var g, s := Suggestion(Span(5, 5), a, LLM, Grammar, 0.0), Suggestion(Span(2, 5), b, LLM, Style, 0.0);
    assert Surviving([g], [], [s]) == Surviving([g], [] + [s], [s][1..]);
    assert ([g] + [s])[1..] == [s];
    assert Sorting.StableSort(StartLess, [s]) == Sorting.Insert(StartLess, s, Sorting.StableSort(StartLess, [s][1..]));
    assert Sorting.StableSort(StartLess, [g] + [s]) == Sorting.Insert(StartLess, g, [s]) == [s] + [g];
    assert ([s] + [g])[1..] == [g] && [g][1..] == [];
    hide Sorting.StableSort, Sorting.Insert;
    assert !RuledOut([], s) && [] + [s] == [s];
    assert RuledOut([s], g) by {
      assert RulesOut([s][0], g);
    }
    assert Deduplicated([], [s] + [g]) == Deduplicated([s], [g]);
    assert Deduplicated([s], [g]) == Deduplicated([s], []);
  }

  lemma NothingSound(run: Run)
    ensures Sound(run, [])
  {
  }

  lemma GrammarSound(run: Run, r: Option<seq<Suggestion>>)
    requires DiffSpells(run) && FastValid(run) && GrammarYields(run, r) && r.Some?
    ensures Sound(run, r.value)
  {
    hide FastPath, Voters, Repaired, Elects, DiffOf, Composed, Sound;
    var fast := FastPath(run);
    var escalated := run.correctors != [];
    FastSound(run);
    NothingSound(run);
    if escalated && !(run.hasLlm && run.escalates(fast)) {
    } else {
      match Voters(run, escalated)
      case Some(voters) =>
        var merged :| Elects(run, voters, merged)
          && r.value == (if run.approves(AppliedLastFirst(run.text, merged))
                         then (if escalated then Composed(run, merged, fast) else merged)
                         else (if escalated then fast else []));
        ElectedSound(run, voters, merged);
        ComposedSound(run, merged, fast);
      case None =>
        if run.completion.Some? && Repaired(run, run.completion.value, escalated).Some? {
          var t := Repaired(run, run.completion.value, escalated).value;
          DiffSound(run, t, Grammar);
          ComposedSound(run, DiffOf(run, t, Grammar), fast);
        }
    }
  }

  // Main result: whatever the language model, the correctors and the verifier answer, in
  // every mode, the suggestions are valid and pairwise apart; so after finalize (with any
  // filters) they are ordered and last-to-first application is simultaneous replacement.
  lemma CorrectOnceSound(run: Run, r: Option<seq<Suggestion>>, drop: Suggestion -> bool)
    requires DiffSpells(run) && FastValid(run) && CorrectOnceYields(run, r) && r.Some?
    ensures Sound(run, r.value)
    ensures var out := Finalized(drop, r.value);
            && Ordered(out, 0, |run.text|) && Settled(out)
            && AppliedLastFirst(run.text, out) == Rewrite(run.text, 0, |run.text|, out)
  {
    var grammar :| GrammarYields(run, grammar)
      && r == if grammar.Some? && run.picky then Some(WithStyle(run, grammar.value)) else grammar;
    GrammarSound(run, grammar);
    StyleSound(run, grammar.value);
    FinalizedOrdered(run.text, drop, r.value);
  }

  // --- What reaches the client, in the run's own terms --------------------------------------------

  // The two edits keep clear of each other: no word touched by both in the word modes, and no
  // byte or boundary shared in the others.
  ghost predicate Clear(text: Text, mode: MergeMode, l: Span, f: Span) {
    if mode.GECToRWords? || mode.AllWords? then
      l.Valid(|text|) && f.Valid(|text|)
      && (Words.WordZone(text, l).end <= Words.WordZone(text, f).start
          || Words.WordZone(text, f).end <= Words.WordZone(text, l).start)
    else l.end < f.start || f.end < l.start
  }

  // A fast edit that joins the LLM's: of the models the mode admits, and clear of all of them.
  ghost predicate Joins(text: Text, mode: MergeMode, llm: seq<Suggestion>, fast: seq<Suggestion>, f: Suggestion) {
    && !mode.Off? && f in fast && (mode.GECToRSpans? || mode.GECToRWords? ==> f.model == GECToR)
    && forall l :: l in llm ==> Clear(text, mode, l.span, f.span)
  }

  lemma {:induction false} AdmittedExact(
      text: Text, mode: MergeMode, llm: seq<Suggestion>, fast: seq<Suggestion>, f: Suggestion)
    requires !mode.Off?
    ensures f in Admitted(text, mode, llm, fast) <==> Joins(text, mode, llm, fast, f)
  {
    if fast != [] {
      hide Words.WordZone;
      AdmittedExact(text, mode, llm, fast[1..], f);
      assert forall i :: 0 <= i < |llm| ==> llm[i] in llm;
    }
  }

  // What the merge returns: the LLM's edits, then exactly the fast ones that join them.
  lemma WithFastExact(text: Text, mode: MergeMode, llm: seq<Suggestion>, fast: seq<Suggestion>)
    ensures llm <= WithFastEdits(text, mode, llm, fast)
    ensures forall f :: f in WithFastEdits(text, mode, llm, fast)[|llm|..] <==> Joins(text, mode, llm, fast, f)
  {
    hide Admitted;
    var all := WithFastEdits(text, mode, llm, fast);
    assert all[|llm|..] == if mode.Off? then [] else Admitted(text, mode, llm, fast);
    forall f
      ensures !mode.Off? ==> (f in Admitted(text, mode, llm, fast) <==> Joins(text, mode, llm, fast, f))
    {
      if !mode.Off? {
        AdmittedExact(text, mode, llm, fast, f);
      }
    }
  }

  // Which style edits are appended: of an answer that is there and not truncated, all that
  // overlap no grammar edit.
  lemma StyleExact(run: Run, grammar: seq<Suggestion>, s: Suggestion)
    requires DiffSpells(run)
    ensures grammar <= WithStyle(run, grammar)
    ensures s in WithStyle(run, grammar)[|grammar|..] <==>
              && run.hasLlm && run.styled.Some?
              && !(|run.text| >= 200 && |run.trim(run.styled.value)| < |run.text| / 2)
              && s in DiffOf(run, run.trim(run.styled.value), Style)
              && (forall g :: g in grammar ==> !(g.span.start < s.span.end && s.span.start < g.span.end))
  {
    hide Surviving, DiffOf, Separated;
    var all := WithStyle(run, grammar);
    if run.hasLlm && run.styled.Some? {
      var styled := DiffOf(run, run.trim(run.styled.value), Style);
      DiffSound(run, run.trim(run.styled.value), Style);
      assert [] + styled == styled;
      SurvivingExact(grammar, [], styled, |run.text|, s);
      assert !Truncated(run.text, run.trim(run.styled.value)) ==> all[|grammar|..] == Surviving(grammar, [], styled);
    }
  }

  lemma {:induction false} SurvivingExact(
      grammar: seq<Suggestion>, kept: seq<Suggestion>, styled: seq<Suggestion>, textLen: int, s: Suggestion)
    requires Separated(kept + styled, textLen)
    ensures s in Surviving(grammar, kept, styled) <==> s in kept || (s in styled && !OverlapsAny(grammar, s.span))
    decreases |styled|
  {
    if styled != [] {
      var all, fewer := kept + styled, kept + styled[1..];
      assert forall i :: 0 <= i < |fewer| ==> fewer[i] == all[if i < |kept| then i else i + 1];
      assert kept + [styled[0]] + styled[1..] == all && all[|kept|] == styled[0];
      assert forall i :: 0 <= i < |kept| ==> all[i] == kept[i];
      assert !OverlapsAny(kept, styled[0].span);
      SurvivingExact(grammar, if OverlapsAny(grammar, styled[0].span) then kept else kept + [styled[0]], styled[1..],
                     textLen, s);
    }
  }

  // The picky pass comes last, and only on an answer.
  lemma PickyExact(run: Run, r: Option<seq<Suggestion>>)
    requires CorrectOnceYields(run, r)
    ensures exists g :: CorrectOnceYields(run.(picky := false), g)
              && r == if run.picky && g.Some? then Some(WithStyle(run, g.value)) else g
  {
    var plain := run.(picky := false);
    var g :| GrammarYields(run, g) && r == if g.Some? && run.picky then Some(WithStyle(run, g.value)) else g;
    SameWithoutPicky(run, plain, g);
    assert CorrectOnceYields(plain, g);
  }

  lemma SameWithoutPicky(run: Run, plain: Run, g: Option<seq<Suggestion>>)
    requires plain == run.(picky := false) && GrammarYields(run, g)
    ensures GrammarYields(plain, g)
  {
    SameSurvivors(run, plain, run.candidates, true);
    SameSurvivors(run, plain, run.candidates, false);
    assert forall voters :: VoteDiffs(run, voters) == VoteDiffs(plain, voters);
  }

  lemma {:induction false} SameSurvivors(run: Run, plain: Run, raws: seq<Text>, withArticles: bool)
    requires plain == run.(picky := false)
    ensures Survivors(run, raws, withArticles) == Survivors(plain, raws, withArticles)
  {
    if raws != [] {
      SameSurvivors(run, plain, raws[1..], withArticles);
    }
  }

  // The answer is no less than half as long as a text of 200 bytes or more.
  predicate LongEnough(run: Run, raw: Text) {
    |run.text| < 200 || |run.trim(raw)| >= |run.text| / 2
  }

  // A candidate as it votes: trimmed, an echoed context stripped if there was one, over-edits
  // repaired, articles fixed where that applies.
  ghost predicate VotesAs(run: Run, withArticles: bool, raw: Text, voter: Text) {
    var trimmed := run.trim(raw);
    var stripped := if run.hasContext then run.stripEcho(trimmed) else trimmed;
    var repaired := run.repairOverEdits(stripped);
    voter == if withArticles && run.articleFix then run.fixArticles(repaired) else repaired
  }

  // The candidates at an increasing list of places are exactly those long enough, and the
  // voters are what the repairs make of them, one by one.
  ghost predicate VotesFrom(run: Run, withArticles: bool, raws: seq<Text>, places: seq<nat>, voters: seq<Text>) {
    && |voters| == |places|
    && (forall i, j :: 0 <= i < j < |places| ==> places[i] < places[j])
    && (forall i: nat :: i in places <==> i < |raws| && LongEnough(run, raws[i]))
    && (forall j :: 0 <= j < |places| ==> VoteAt(run, withArticles, raws, places[j], voters[j]))
  }

  ghost predicate VoteAt(run: Run, withArticles: bool, raws: seq<Text>, place: nat, voter: Text) {
    place < |raws| && VotesAs(run, withArticles, raws[place], voter)
  }

  lemma {:induction false} SurvivorsExact(run: Run, raws: seq<Text>, withArticles: bool)
    ensures exists places :: VotesFrom(run, withArticles, raws, places, Survivors(run, raws, withArticles))
  {
    if raws == [] {
      var places: seq<nat> := [];
      assert VotesFrom(run, withArticles, raws, places, Survivors(run, raws, withArticles));
    } else {
      SurvivorsExact(run, raws[1..], withArticles);
      var rest := Survivors(run, raws[1..], withArticles);
      var places :| VotesFrom(run, withArticles, raws[1..], places, rest);
      RepairedVotes(run, raws[0], withArticles);
      PlacesShift(run, raws, withArticles, places, rest);
    }
  }

  lemma RepairedVotes(run: Run, raw: Text, withArticles: bool)
    ensures Repaired(run, raw, withArticles).Some? <==> LongEnough(run, raw)
    ensures Repaired(run, raw, withArticles).Some? ==>
              VotesAs(run, withArticles, raw, Repaired(run, raw, withArticles).value)
  {
  }

  lemma PlacesShift(run: Run, raws: seq<Text>, withArticles: bool, places: seq<nat>, rest: seq<Text>)
    requires raws != [] && rest == Survivors(run, raws[1..], withArticles)
    requires VotesFrom(run, withArticles, raws[1..], places, rest)
    requires var first := Repaired(run, raws[0], withArticles);
             && (first.Some? <==> LongEnough(run, raws[0]))
             && (first.Some? ==> VotesAs(run, withArticles, raws[0], first.value))
    ensures exists places' :: VotesFrom(run, withArticles, raws, places', Survivors(run, raws, withArticles))
  {
    hide Repaired, LongEnough, VotesAs, Survivors, VoteAt;
    SurvivorsHead(run, raws, withArticles);
    var first, voters := Repaired(run, raws[0], withArticles), Survivors(run, raws, withArticles);
    var places' := PlacesAfter(places, first.Some?);
    forall i: nat
      ensures i in places' <==> i < |raws| && LongEnough(run, raws[i])
    {
      PlacesAfterHold(places, first.Some?, i);
      assert i > 0 ==> (i - 1 in places <==> i - 1 < |raws[1..]| && LongEnough(run, raws[1..][i - 1]));
    }
    forall j | 0 <= j < |places'|
      ensures VoteAt(run, withArticles, raws, places'[j], voters[j])
    {
      VoteShifts(run, withArticles, raws, places, rest, first, j);
    }
    PlacesAfterRise(places, first.Some?);
    assert VotesFrom(run, withArticles, raws, places', voters);
  }

  lemma VoteShifts(
      run: Run, withArticles: bool, raws: seq<Text>, places: seq<nat>, rest: seq<Text>, first: Option<Text>, j: nat)
    requires raws != [] && VotesFrom(run, withArticles, raws[1..], places, rest)
    requires first.Some? ==> VotesAs(run, withArticles, raws[0], first.value)
    requires j < |PlacesAfter(places, first.Some?)|
    ensures VoteAt(run, withArticles, raws, PlacesAfter(places, first.Some?)[j],
                   (if first.Some? then [first.value] + rest else rest)[j])
  {
    hide VotesAs, PlacesAfter;
    PlacesAfterAt(places, first.Some?, j);
    var k := if first.Some? then j - 1 else j;
    assert k >= 0 ==> VoteAt(run, withArticles, raws[1..], places[k], rest[k]);
  }

  lemma PlacesAfterAt(places: seq<nat>, first: bool, j: nat)
    requires j < |PlacesAfter(places, first)|
    ensures PlacesAfter(places, first)[j]
         == if !first then places[j] + 1 else if j == 0 then 0 else places[j - 1] + 1
  {
  }

  // The places one to the right, with the first one if it counts.
  function PlacesAfter(places: seq<nat>, first: bool): (r: seq<nat>)
    ensures |r| == |places| + if first then 1 else 0
  {
    var shifted: seq<nat> := seq(|places|, i requires 0 <= i < |places| => places[i] + 1);
    if first then [0] + shifted else shifted
  }

  lemma PlacesAfterRise(places: seq<nat>, first: bool)
    requires forall i, j :: 0 <= i < j < |places| ==> places[i] < places[j]
    ensures var r := PlacesAfter(places, first); forall i, j :: 0 <= i < j < |r| ==> r[i] < r[j]
  {
  }

  lemma PlacesAfterHold(places: seq<nat>, first: bool, i: nat)
    ensures i in PlacesAfter(places, first) <==> if i == 0 then first else i - 1 in places
  {
    var shifted: seq<nat> := seq(|places|, i requires 0 <= i < |places| => places[i] + 1);
    ShiftedHolds(places, shifted, i);
  }

  lemma SurvivorsHead(run: Run, raws: seq<Text>, withArticles: bool)
    requires raws != []
    ensures var first, rest := Repaired(run, raws[0], withArticles), Survivors(run, raws[1..], withArticles);
            Survivors(run, raws, withArticles) == if first.Some? then [first.value] + rest else rest
  {
  }

  lemma ShiftedHolds(places: seq<nat>, shifted: seq<nat>, i: nat)
    requires |shifted| == |places| && forall k :: 0 <= k < |places| ==> shifted[k] == places[k] + 1
    ensures i in shifted <==> i > 0 && i - 1 in places
  {
    if i > 0 && i - 1 in places {
      var k :| 0 <= k < |places| && places[k] == i - 1;
      assert shifted[k] == i;
    }
  }

  // N-best is on exactly when asked for, supported, and enough candidates are left.
  lemma VotersExact(run: Run, withArticles: bool)
    ensures exists places, survivors :: VotesFrom(run, withArticles, run.candidates, places, survivors)
              && Voters(run, withArticles)
                 == if run.nbest >= 2 && run.nbestCapable && |places| >= run.nbest then Some(survivors) else None
  {
    SurvivorsExact(run, run.candidates, withArticles);
    var survivors := Survivors(run, run.candidates, withArticles);
    var places :| VotesFrom(run, withArticles, run.candidates, places, survivors);
  }

  // The fast result: what the correctors contribute, merged.
  function FastResult(run: Run): seq<Suggestion> {
    Routing.Merged(Routing.Gathered(run.correctors, run.fastRepair))
  }

  // Without correctors the LLM answers alone; otherwise it does when the policy escalates.
  predicate AsksLlm(run: Run) {
    run.correctors == [] || (run.hasLlm && run.escalates(FastResult(run)))
  }

  // What is left when the LLM's answer cannot be used: the fast result, or an error.
  function Fallback(run: Run): Option<seq<Suggestion>> {
    if run.correctors == [] then None else Some(FastResult(run))
  }

  // When it is rejected as a rewrite: the fast result, or no edit.
  function Rejection(run: Run): seq<Suggestion> {
    if run.correctors == [] then [] else FastResult(run)
  }

  // The first n suggestions make the corrected text of the text; on the escalation arm each has
  // the category of the first specific fast edit it overlaps, and exactly the fast edits that
  // join them follow; otherwise none does.
  ghost predicate Delivers(run: Run, r: Option<seq<Suggestion>>, n: nat, corrected: Text) {
    && r.Some? && n <= |r.value| && AppliedLastFirst(run.text, r.value[..n]) == corrected
    && (run.correctors == [] ==> n == |r.value|)
    && (run.correctors != [] ==> forall f ::
          f in r.value[n..] <==> Joins(run.text, run.mode, r.value[..n], FastResult(run), f))
    && (run.correctors != [] ==> Recategorises(r.value[..n], FastResult(run)))
    && (n == |r.value| ==> Finalized(s => false, r.value) == r.value)
  }

  ghost predicate Recategorises(sugs: seq<Suggestion>, fast: seq<Suggestion>) {
    forall i, j: nat :: 0 <= i < |sugs| && Routing.FirstSpecific(sugs[i].span, fast, j) ==>
      sugs[i].category == if j < |fast| then fast[j].category else Grammar
  }

  // Main result on one completion, in the run's own fields: when the policy does not ask the
  // LLM, the fast result; without an answer, or with one less than half as long as a text of
  // 200 bytes or more, the fallback; else the trimmed answer, an echoed context stripped if
  // there was one, over-edits repaired, and articles fixed when escalating; the verifier
  // decides whether just that reaches the client.
  lemma OneCompletion(run: Run, r: Option<seq<Suggestion>>)
    requires DiffSpells(run) && CorrectOnceYields(run, r) && !run.picky
    requires run.nbest < 2 || !run.nbestCapable
    ensures !AsksLlm(run) ==> r == Some(FastResult(run))
    ensures AsksLlm(run) && run.completion.None? ==> r == Fallback(run)
    ensures AsksLlm(run) && run.completion.Some? ==>
              var trimmed := run.trim(run.completion.value);
              var stripped := if run.hasContext then run.stripEcho(trimmed) else trimmed;
              var repaired := run.repairOverEdits(stripped);
              var final := if run.correctors != [] && run.articleFix then run.fixArticles(repaired) else repaired;
              if |run.text| >= 200 && |trimmed| < |run.text| / 2 then r == Fallback(run)
              else if !run.approves(final) then r == Some(Rejection(run))
              else exists n :: Delivers(run, r, n, final)
  {
    if AsksLlm(run) && run.completion.Some? {
      var t := Repaired(run, run.completion.value, run.correctors != []);
      if t.Some? && run.approves(t.value) {
        DiffSound(run, t.value, Grammar);
        Diff.SuggestionsLabelled(run.text, run.diff(t.value), Grammar);
        LlmDelivered(run, DiffOf(run, t.value, Grammar), r);
      }
    }
  }

  // What the LLM's own edits become: in the end they are delivered.
  lemma LlmDelivered(run: Run, llm: seq<Suggestion>, r: Option<seq<Suggestion>>)
    requires Separated(llm, |run.text|) && forall s :: s in llm ==> s.category == Grammar
    requires r == Some(if run.correctors == [] then llm else Composed(run, llm, FastResult(run)))
    ensures exists n :: Delivers(run, r, n, AppliedLastFirst(run.text, llm))
  {
    hide FastResult, Finalized, WithFastEdits, Routing.Propagated, AppliedLastFirst, Joins, Recategorises;
    if run.correctors == [] {
      FinalizedUnchanged(llm, |run.text|);
      assert llm[..|llm|] == llm && llm[|llm|..] == [];
      assert Delivers(run, r, |llm|, AppliedLastFirst(run.text, llm));
    } else {
      var fast := FastResult(run);
      var marked := Routing.Propagated(llm, fast);
      Routing.PropagationAppliesSame(run.text, llm, fast);
      assert Separated(marked, |run.text|);
      FinalizedUnchanged(marked, |run.text|);
      WithFastExact(run.text, run.mode, marked, fast);
      assert r.value[..|marked|] == marked;
      PropagatedRecategorises(llm, fast);
      assert |marked| == |r.value| ==> r.value == marked;
      assert Delivers(run, r, |marked|, AppliedLastFirst(run.text, llm));
    }
  }

  lemma PropagatedRecategorises(llm: seq<Suggestion>, fast: seq<Suggestion>)
    requires forall s :: s in llm ==> s.category == Grammar
    ensures Recategorises(Routing.Propagated(llm, fast), fast)
  {
    hide Routing.FirstSpecific;
    var marked := Routing.Propagated(llm, fast);
    forall i: nat, j: nat | i < |marked| && Routing.FirstSpecific(marked[i].span, fast, j)
      ensures marked[i].category == if j < |fast| then fast[j].category else Grammar
    {
      assert llm[i] in llm;
      Routing.PropagatedExact(llm, fast, i, j);
    }
  }

  lemma ElectedGrammar(run: Run, voters: seq<Text>, merged: seq<Suggestion>)
    requires Elects(run, voters, merged)
    ensures forall s :: s in merged ==> s.category == Grammar
  {
    var diffs := VoteDiffs(run, voters);
    forall s | s in merged
      ensures s.category == Grammar
    {
      var i :| 0 <= i < |merged| && merged[i] == s;
      assert Vote.IsElected(diffs, merged[i]);
      var first := Vote.First(Vote.Proposals(diffs), KeyOf(s));
      Vote.ProposalsFromCandidates(diffs, first);
      var c :| 0 <= c < |diffs| && first in diffs[c];
      Diff.SuggestionsLabelled(run.text, run.diff(voters[c]), Grammar);
    }
  }

  // Main result on the vote: with enough candidates the answer is that of the elected edits,
  // if the verifier approves of what they make of the text.
  lemma VotedCompletion(run: Run, r: Option<seq<Suggestion>>)
    requires DiffSpells(run) && CorrectOnceYields(run, r) && !run.picky && AsksLlm(run)
    requires Voters(run, run.correctors != []).Some?
    ensures exists merged :: Elects(run, Voters(run, run.correctors != []).value, merged)
              && if run.approves(AppliedLastFirst(run.text, merged))
                 then exists n :: Delivers(run, r, n, AppliedLastFirst(run.text, merged))
                 else r == Some(Rejection(run))
  {
    var voters := Voters(run, run.correctors != []).value;
    var merged :| Elects(run, voters, merged)
      && r == Some(if run.approves(AppliedLastFirst(run.text, merged))
                   then (if run.correctors == [] then merged else Composed(run, merged, FastResult(run)))
                   else Rejection(run));
    ElectedSound(run, voters, merged);
    if run.approves(AppliedLastFirst(run.text, merged)) {
      ElectedGrammar(run, voters, merged);
      LlmDelivered(run, merged, r);
    }
  }
}
