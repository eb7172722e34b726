// dialect_repair.go: revert American spellings to the user's British ones by whole-word
// splices, collected word by word in an arbitrary order, sorted, and applied last to first.
module Dialect {
  import opened Edits
  import Sorting

  // --- ASCII letters -------------------------------------------------------------------------

  predicate IsLower(b: Byte) { 97 <= b <= 122 }

  predicate IsUpper(b: Byte) { 65 <= b <= 90 }

  predicate IsLetter(b: Byte) { IsLower(b) || IsUpper(b) }

  function Lower(b: Byte): Byte { if IsUpper(b) then b + 32 else b }

  function Upper(b: Byte): Byte { if IsLower(b) then b - 32 else b }

  function LowerText(t: Text): (r: Text)
    ensures |r| == |t|
    ensures forall i :: 0 <= i < |r| ==> r[i] == Lower(t[i])
  {
    seq(|t|, i requires 0 <= i < |t| => Lower(t[i]))
  }

  function UpperText(t: Text): (r: Text)
    ensures |r| == |t|
    ensures forall i :: 0 <= i < |r| ==> r[i] == Upper(t[i])
  {
    seq(|t|, i requires 0 <= i < |t| => Upper(t[i]))
  }

  // A lexicon word: non-empty, lower-case ASCII letters.
  predicate IsWord(t: Text) {
    t != [] && forall i :: 0 <= i < |t| ==> IsLower(t[i])
  }

  // --- Whole-word matches ----------------------------------------------------------------------

  predicate FoldMatches(s: Text, needle: Text, i: int) {
    0 <= i && i + |needle| <= |s| && LowerText(s[i..i + |needle|]) == LowerText(needle)
  }

  // indexFoldASCII: the first case-insensitive match, or -1; an empty needle matches at 0.
  method IndexFold(s: Text, needle: Text) returns (r: int)
    ensures r == -1 || FoldMatches(s, needle, r)
    ensures forall i :: 0 <= i && (r == -1 || i < r) ==> !FoldMatches(s, needle, i)
  {
    var n := |needle|;
    if n == 0 {
      return 0;
    }
    if n > |s| {
      return -1;
    }
    var i := 0;
    while i + n <= |s|
      invariant 0 <= i
      invariant forall k :: 0 <= k < i ==> !FoldMatches(s, needle, k)
    {
      var k := 0;
      while k < n && Lower(s[i + k]) == Lower(needle[k])
        invariant 0 <= k <= n
        invariant forall m :: 0 <= m < k ==> Lower(s[i + m]) == Lower(needle[m])
      {
        k := k + 1;
      }
      if k == n {
        assert LowerText(s[i..i + n]) == LowerText(needle);
        return i;
      }
      assert LowerText(s[i..i + n])[k] != LowerText(needle)[k];
      i := i + 1;
    }
    return -1;
  }

  predicate LeftBoundary(s: Text, p: int) {
    p <= 0 || p > |s| || !IsLetter(s[p - 1])
  }

  predicate RightBoundary(s: Text, p: int) {
    p < 0 || p >= |s| || !IsLetter(s[p])
  }

  predicate WholeMatch(s: Text, needle: Text, i: int) {
    FoldMatches(s, needle, i) && LeftBoundary(s, i) && RightBoundary(s, i + |needle|)
  }

  // renderCasedReplacement: all-upper stays all-upper, a leading capital is kept.
  function Rendered(matched: Text, repl: Text): Text {
    if |matched| > 1 && (forall i :: 0 <= i < |matched| ==> IsUpper(matched[i])) then
      UpperText(repl)
    else if matched != [] && IsUpper(matched[0]) && repl != [] then [Upper(repl[0])] + repl[1..]
    else repl
  }

  // One byte-range replacement, as an edit of the corrected text.
  function Splice(start: int, end: int, text: Text): Suggestion {
    Suggestion(Span(start, end), text, LLM, Grammar, 0.0)
  }

  function SpliceAt(s: Text, needle: Text, repl: Text, i: int): Suggestion
    requires FoldMatches(s, needle, i)
  {
    Splice(i, i + |needle|, Rendered(s[i..i + |needle|], repl))
  }

  // The splices of all whole-word matches from `i` on.
  function SplicesFrom(s: Text, needle: Text, repl: Text, i: nat): seq<Suggestion>
    decreases |s| - i
  {
    if i >= |s| then []
    else if WholeMatch(s, needle, i) then [SpliceAt(s, needle, repl, i)] + SplicesFrom(s, needle, repl, i + 1)
    else SplicesFrom(s, needle, repl, i + 1)
  }

  lemma {:induction false} SkipNonMatches(s: Text, needle: Text, repl: Text, i: nat, j: nat)
    requires i <= j && forall k :: i <= k < j ==> !WholeMatch(s, needle, k)
    ensures SplicesFrom(s, needle, repl, i) == SplicesFrom(s, needle, repl, j)
    decreases j - i
  {
    if i < j {
      if i < |s| {
        assert !WholeMatch(s, needle, i);
      }
      SkipNonMatches(s, needle, repl, i + 1, j);
    }
  }

  // Inside a match every position follows a letter, so no other whole word starts there.
  lemma InsideMatch(s: Text, needle: Text, i: int, k: int)
    requires IsWord(needle) && FoldMatches(s, needle, i) && i < k < i + |needle|
    ensures !WholeMatch(s, needle, k)
  {
    MatchedLetters(s, needle, i);
    assert IsLetter(s[k - 1]);
  }

  lemma MatchedLetters(s: Text, needle: Text, i: int)
    requires IsWord(needle) && FoldMatches(s, needle, i)
    ensures forall k :: i <= k < i + |needle| ==> IsLetter(s[k])
  {
    var m := s[i..i + |needle|];
    forall k | i <= k < i + |needle|
      ensures IsLetter(s[k])
    {
      assert Lower(m[k - i]) == LowerText(m)[k - i] == LowerText(needle)[k - i] == Lower(needle[k - i]);
      assert IsLower(needle[k - i]) && m[k - i] == s[k];
    }
  }

  method NextMatch(haystack: Text, needle: Text, i: nat) returns (at: int)
    requires needle != [] && i <= |haystack|
    ensures at == -1 || (i <= at && FoldMatches(haystack, needle, at))
    ensures forall k :: i <= k && (at == -1 || k < at) ==> !FoldMatches(haystack, needle, k)
  {
    var j := IndexFold(haystack[i..], needle);
    IndexShift(haystack, needle, i, j);
    return if j < 0 then -1 else i + j;
  }

  // The leftmost whole-word matches from `i` on that do not overlap.
  function ScannedFrom(s: Text, needle: Text, repl: Text, i: nat): seq<Suggestion>
    decreases |s| - i
  {
    if i >= |s| || needle == [] then []
    else if WholeMatch(s, needle, i) then
      [SpliceAt(s, needle, repl, i)] + ScannedFrom(s, needle, repl, i + |needle|)
    else ScannedFrom(s, needle, repl, i + 1)
  }

  // findWholeWordReplacements, for any needle.
  method FindWholeWordReplacements(haystack: Text, needle: Text, repl: Text) returns (splices: seq<Suggestion>)
    ensures splices == ScannedFrom(haystack, needle, repl, 0)
  {
    hide ScannedFrom, FoldMatches, LeftBoundary, RightBoundary, SpliceAt;
    splices := [];
    if needle == [] {
      NoMatchLeft(haystack, needle, repl, 0);
      return;
    }
    var i := 0;
    ghost var goal := ScannedFrom(haystack, needle, repl, 0);
    while i < |haystack|
      invariant 0 <= i <= |haystack|
      invariant splices + ScannedFrom(haystack, needle, repl, i) == goal
      decreases |haystack| - i
    {
      var matchStart := NextMatch(haystack, needle, i);
      if matchStart < 0 {
        NoMatchLeft(haystack, needle, repl, i);
        return;
      }
      var matchEnd := matchStart + |needle|;
      ScanStep(haystack, needle, repl, i, matchStart);
      if !LeftBoundary(haystack, matchStart) || !RightBoundary(haystack, matchEnd) {
        i := matchStart + 1;
        continue;
      }
      var splice := SpliceAt(haystack, needle, repl, matchStart);
      AppendAssoc(splices, [splice], ScannedFrom(haystack, needle, repl, matchEnd));
      splices := splices + [splice];
      i := matchEnd;
    }
    NoMatchLeft(haystack, needle, repl, i);
  }

  lemma NoMatchLeft(s: Text, needle: Text, repl: Text, i: nat)
    requires needle == [] || forall k :: i <= k < |s| ==> !FoldMatches(s, needle, k)
    ensures ScannedFrom(s, needle, repl, i) == []
  {
    if needle != [] {
      ScanSkips(s, needle, repl, i, if i < |s| then |s| else i);
    }
  }

  lemma {:induction false} ScanSkips(s: Text, needle: Text, repl: Text, i: nat, j: nat)
    requires i <= j && forall k :: i <= k < j ==> !FoldMatches(s, needle, k)
    ensures ScannedFrom(s, needle, repl, i) == ScannedFrom(s, needle, repl, j)
    decreases j - i
  {
    hide FoldMatches;
    if i < j {
      ScanSkips(s, needle, repl, i + 1, j);
    }
  }

  // From one fold match to the next place the scan looks at.
  lemma ScanStep(s: Text, needle: Text, repl: Text, i: nat, at: nat)
    requires needle != [] && i <= at && FoldMatches(s, needle, at)
    requires forall k :: i <= k < at ==> !FoldMatches(s, needle, k)
    ensures at + |needle| <= |s|
    ensures ScannedFrom(s, needle, repl, i)
         == if LeftBoundary(s, at) && RightBoundary(s, at + |needle|) then
              [SpliceAt(s, needle, repl, at)] + ScannedFrom(s, needle, repl, at + |needle|)
            else ScannedFrom(s, needle, repl, at + 1)
  {
    hide LowerText, Rendered;
    ScanSkips(s, needle, repl, i, at);
  }

  // For a word no two whole-word matches overlap, so the scan finds them all.
  lemma {:induction false} WordScan(s: Text, needle: Text, repl: Text, i: nat)
    requires IsWord(needle)
    ensures ScannedFrom(s, needle, repl, i) == SplicesFrom(s, needle, repl, i)
    decreases |s| - i
  {
    hide FoldMatches, Rendered;
    if i < |s| {
      if WholeMatch(s, needle, i) {
        forall k | i < k < i + |needle|
          ensures !WholeMatch(s, needle, k)
        {
          InsideMatch(s, needle, i, k);
        }
        SkipNonMatches(s, needle, repl, i + 1, i + |needle|);
        WordScan(s, needle, repl, i + |needle|);
      } else {
        WordScan(s, needle, repl, i + 1);
      }
    }
  }

  lemma IndexShift(s: Text, needle: Text, i: nat, j: int)
    requires i <= |s| && needle != []
    requires j == -1 || FoldMatches(s[i..], needle, j)
    requires forall k :: 0 <= k && (j == -1 || k < j) ==> !FoldMatches(s[i..], needle, k)
    ensures j >= 0 ==> FoldMatches(s, needle, i + j)
    ensures forall k :: i <= k < (if j < 0 then |s| else i + j) ==> !FoldMatches(s, needle, k)
  {
    forall k | 0 <= k && k + |needle| <= |s| - i
      ensures FoldMatches(s[i..], needle, k) <==> FoldMatches(s, needle, i + k)
    {
      assert s[i..][k..k + |needle|] == s[i + k..i + k + |needle|];
    }
    forall k | i <= k < (if j < 0 then |s| else i + j)
      ensures !FoldMatches(s, needle, k)
    {
      assert !FoldMatches(s[i..], needle, k - i);
      if k + |needle| <= |s| {
        assert FoldMatches(s[i..], needle, k - i) <==> FoldMatches(s, needle, i + (k - i));
      }
    }
  }

  // --- Maximal letter runs: the reading in one left-to-right pass ----------------------------------

  // The end of the letter run starting at i.
  function RunEnd(s: Text, i: nat): (e: nat)
    requires i <= |s|
    ensures i <= e <= |s| && (e == |s| || !IsLetter(s[e]))
    ensures forall k :: i <= k < e ==> IsLetter(s[k])
    decreases |s| - i
  {
    if i == |s| || !IsLetter(s[i]) then i else RunEnd(s, i + 1)
  }

  // american -> dialect, for the words to revert.
  type Reverts = map<Text, Text>

  function RevertedRun(run: Text, reverts: Reverts): Text {
    if LowerText(run) in reverts then Rendered(run, reverts[LowerText(run)]) else run
  }

  // Replace every maximal letter run that is an american word, case preserved.
  function OnePass(s: Text, i: nat, reverts: Reverts): Text
    requires i <= |s|
    decreases |s| - i
  {
    if i == |s| then []
    else if !IsLetter(s[i]) then [s[i]] + OnePass(s, i + 1, reverts)
    else RevertedRun(s[i..RunEnd(s, i)], reverts) + OnePass(s, RunEnd(s, i), reverts)
  }

  // The same pass as a list of splices.
  function RunSplices(s: Text, i: nat, reverts: Reverts): seq<Suggestion>
    requires i <= |s|
    decreases |s| - i
  {
    if i == |s| then []
    else if !IsLetter(s[i]) then RunSplices(s, i + 1, reverts)
    else
      var e := RunEnd(s, i);
      var rest := RunSplices(s, e, reverts);
      if LowerText(s[i..e]) in reverts then [Splice(i, e, RevertedRun(s[i..e], reverts))] + rest else rest
  }

  lemma {:induction false} RunSplicesRewrite(s: Text, i: nat, reverts: Reverts)
    requires i <= |s|
    ensures Ordered(RunSplices(s, i, reverts), i, |s|)
    ensures Rewrite(s, i, |s|, RunSplices(s, i, reverts)) == OnePass(s, i, reverts)
    decreases |s| - i
  {
    hide Ordered, Rewrite, LowerText, RunEnd, RunSplices, OnePass, RevertedRun;
    PassUnfolds(s, i, reverts);
    if i == |s| {
      RewriteNothing(s, i, i);
    } else {
      var e := if IsLetter(s[i]) then RunEnd(s, i) else i + 1;
      var rest := RunSplices(s, e, reverts);
      RunSplicesRewrite(s, e, reverts);
      if IsLetter(s[i]) && LowerText(s[i..e]) in reverts {
        RewriteCons(s, i, |s|, Splice(i, e, RevertedRun(s[i..e], reverts)), rest);
        assert s[i..i] == [];
      } else {
        RewriteSkip(s, i, e, |s|, rest);
        assert !IsLetter(s[i]) ==> s[i..e] == [s[i]];
      }
    }
  }

  // One step of the pass: to the next byte, or past a run.
  lemma PassUnfolds(s: Text, i: nat, reverts: Reverts)
    requires i <= |s|
    ensures i == |s| ==> RunSplices(s, i, reverts) == [] && OnePass(s, i, reverts) == []
    ensures i < |s| && !IsLetter(s[i]) ==>
              && RunSplices(s, i, reverts) == RunSplices(s, i + 1, reverts)
              && OnePass(s, i, reverts) == [s[i]] + OnePass(s, i + 1, reverts)
    ensures i < |s| && IsLetter(s[i]) ==>
              var e := RunEnd(s, i);
              var run, rest := s[i..e], RunSplices(s, e, reverts);
              && i < e && OnePass(s, i, reverts) == RevertedRun(run, reverts) + OnePass(s, e, reverts)
              && (LowerText(run) !in reverts ==> RevertedRun(run, reverts) == run && RunSplices(s, i, reverts) == rest)
              && (LowerText(run) in reverts ==>
                    RunSplices(s, i, reverts) == [Splice(i, e, RevertedRun(run, reverts))] + rest)
  {
    hide LowerText;
  }

  // A whole run at [i, e).
  predicate IsRun(s: Text, i: int, e: int) {
    && 0 <= i < e <= |s|
    && (forall k :: i <= k < e ==> IsLetter(s[k]))
    && LeftBoundary(s, i) && RightBoundary(s, e)
  }

  // Exactly the runs to revert appear among the splices.
  lemma {:induction false} RunSplicesExact(s: Text, i: nat, reverts: Reverts, t: Suggestion)
    requires i <= |s| && (i == |s| || LeftBoundary(s, i))
    ensures t in RunSplices(s, i, reverts) <==>
              && i <= t.span.start && IsRun(s, t.span.start, t.span.end)
              && LowerText(s[t.span.start..t.span.end]) in reverts
              && t == Splice(t.span.start, t.span.end, RevertedRun(s[t.span.start..t.span.end], reverts))
    decreases |s| - i
  {
    hide LowerText, RevertedRun, RunEnd;
    if i < |s| {
      var e := RunEnd(s, i);
      if !IsLetter(s[i]) {
        RunSplicesExact(s, i + 1, reverts, t);
      } else {
        assert IsRun(s, i, e);
        if e < |s| {
          NextRunSplices(s, e, reverts);
          RunSplicesExact(s, e + 1, reverts, t);
        }
        RunsDisjoint(s, i, e, t.span.start, t.span.end);
      }
    }
  }

  // From a non-letter the pass moves on by one.
  lemma NextRunSplices(s: Text, e: nat, reverts: Reverts)
    requires e < |s| && !IsLetter(s[e])
    ensures RunSplices(s, e, reverts) == RunSplices(s, e + 1, reverts)
  {
  }

  // Two whole runs are the same or disjoint.
  lemma RunsDisjoint(s: Text, i: int, e: int, i': int, e': int)
    requires IsRun(s, i, e)
    ensures IsRun(s, i', e') ==> (i == i' && e == e') || e < i' || e' < i
  {
  }

  lemma WholeMatchIsRun(s: Text, needle: Text, i: int)
    requires IsWord(needle)
    ensures WholeMatch(s, needle, i) <==>
              && IsRun(s, i, i + |needle|) && LowerText(s[i..i + |needle|]) == needle
  {
    assert LowerText(needle) == needle;
    if FoldMatches(s, needle, i) {
      MatchedLetters(s, needle, i);
    }
  }

  lemma {:induction false} SplicesFromExact(s: Text, needle: Text, repl: Text, i: nat, t: Suggestion)
    requires IsWord(needle)
    ensures t in SplicesFrom(s, needle, repl, i) <==>
              && i <= t.span.start && IsRun(s, t.span.start, t.span.end)
              && LowerText(s[t.span.start..t.span.end]) == needle
              && t == Splice(t.span.start, t.span.end, Rendered(s[t.span.start..t.span.end], repl))
    decreases |s| - i
  {
    hide Rendered, LowerText;
    if i < |s| {
      SplicesFromExact(s, needle, repl, i + 1, t);
      WholeMatchIsRun(s, needle, i);
    }
  }

  ghost predicate Rising(r: seq<Suggestion>) {
    forall a, b :: 0 <= a < b < |r| ==> r[a].span.start < r[b].span.start
  }

  lemma {:induction false} SplicesFromAscending(s: Text, needle: Text, repl: Text, i: nat)
    requires IsWord(needle)
    ensures Rising(SplicesFrom(s, needle, repl, i))
    decreases |s| - i
  {
    if i < |s| {
      SplicesFromAscending(s, needle, repl, i + 1);
      var r, rest := SplicesFrom(s, needle, repl, i), SplicesFrom(s, needle, repl, i + 1);
      forall b | 0 <= b < |rest|
        ensures i < rest[b].span.start
      {
        SplicesFromExact(s, needle, repl, i + 1, rest[b]);
      }
      if WholeMatch(s, needle, i) {
        forall a, b | 0 <= a < b < |r|
          ensures r[a].span.start < r[b].span.start
        {
          assert r[b] == rest[b - 1];
          if a > 0 { assert r[a] == rest[a - 1]; }
        }
      }
    }
  }

  // --- The reverse lexicon ---------------------------------------------------------------------------

  predicate Usable(us: Text, gb: Text) {
    LowerText(us) != [] && LowerText(gb) != [] && LowerText(us) != LowerText(gb)
  }

  // `us` is an american key whose British form is, in lower case, `gb`.
  predicate Provides(lexicon: map<Text, Text>, us: Text, gb: Text) {
    us in lexicon && Usable(us, lexicon[us]) && LowerText(lexicon[us]) == gb
  }

  // dialect -> american, each british form with one of its american keys.
  ghost predicate Reverses(lexicon: map<Text, Text>, rev: map<Text, Text>) {
    && (forall us :: us in lexicon && Usable(us, lexicon[us]) ==> LowerText(lexicon[us]) in rev)
    && (forall gb :: gb in rev ==> exists us :: Provides(lexicon, us, gb) && rev[gb] == LowerText(us))
  }

  // The range over the lexicon visits its keys in an arbitrary order.
  method NewReverse(lexicon: map<Text, Text>) returns (rev: map<Text, Text>)
    ensures Reverses(lexicon, rev)
  {
    rev := map[];
    var todo := lexicon.Keys;
    while todo != {}
      invariant todo <= lexicon.Keys
      invariant forall us :: us in lexicon && us !in todo && Usable(us, lexicon[us]) ==> LowerText(lexicon[us]) in rev
      invariant forall gb :: gb in rev ==> exists us :: Provides(lexicon, us, gb) && rev[gb] == LowerText(us)
      decreases |todo|
    {
      var key :| key in todo;
      todo := todo - {key};
      var us, gb := LowerText(key), LowerText(lexicon[key]);
      if us == [] || gb == [] || us == gb {
        continue;
      }
      assert Provides(lexicon, key, gb);
      rev := rev[gb := us];
    }
  }

  // No british form has two american keys that differ in more than case.
  ghost predicate SingleAmerican(lexicon: map<Text, Text>) {
    forall a, b, gb :: Provides(lexicon, a, gb) && Provides(lexicon, b, gb) ==> LowerText(a) == LowerText(b)
  }

  // A reverse lexicon that prefers the given key.
  lemma ReverseWith(lexicon: map<Text, Text>, us: Text, gb: Text) returns (rev: map<Text, Text>)
    requires Provides(lexicon, us, gb)
    ensures Reverses(lexicon, rev) && gb in rev && rev[gb] == LowerText(us)
  {
    rev := map[];
    var todo := lexicon.Keys;
    while todo != {}
      invariant todo <= lexicon.Keys
      invariant forall us :: us in lexicon && us !in todo && Usable(us, lexicon[us]) ==> LowerText(lexicon[us]) in rev
      invariant forall gb :: gb in rev ==> exists us :: Provides(lexicon, us, gb) && rev[gb] == LowerText(us)
      decreases |todo|
    {
      var key :| key in todo;
      todo := todo - {key};
      if Usable(key, lexicon[key]) {
        assert Provides(lexicon, key, LowerText(lexicon[key]));
        rev := rev[LowerText(lexicon[key]) := LowerText(key)];
      }
    }
    rev := rev[gb := LowerText(us)];
  }

  // The reverse lexicon does not depend on the iteration order exactly when every british
  // form has a single american key; with two, the last one visited wins.
  lemma ReverseDeterminedIff(lexicon: map<Text, Text>)
    ensures (forall r, r' :: Reverses(lexicon, r) && Reverses(lexicon, r') ==> r == r')
       <==> SingleAmerican(lexicon)
  {
    if SingleAmerican(lexicon) {
      forall r, r' | Reverses(lexicon, r) && Reverses(lexicon, r')
        ensures r == r'
      {
        ReverseAgrees(lexicon, r, r');
        ReverseAgrees(lexicon, r', r);
        assert r.Keys == r'.Keys;
      }
    } else {
      var a, b, gb :| Provides(lexicon, a, gb) && Provides(lexicon, b, gb) && LowerText(a) != LowerText(b);
      var r := ReverseWith(lexicon, a, gb);
      var r' := ReverseWith(lexicon, b, gb);
      assert r[gb] != r'[gb];
    }
  }

  lemma ReverseAgrees(lexicon: map<Text, Text>, r: map<Text, Text>, r': map<Text, Text>)
    requires SingleAmerican(lexicon) && Reverses(lexicon, r) && Reverses(lexicon, r')
    ensures forall gb :: gb in r ==> gb in r' && r[gb] == r'[gb]
  {
    forall gb | gb in r
      ensures gb in r' && r[gb] == r'[gb]
    {
      var us :| Provides(lexicon, us, gb) && r[gb] == LowerText(us);
      var us' :| Provides(lexicon, us', gb) && r'[gb] == LowerText(us');
    }
  }

  // --- The repair --------------------------------------------------------------------------------------

  // The american words of these british ones are words, and no two of them are the same.
  ghost predicate WordPairs(rev: map<Text, Text>, active: set<Text>) {
    && active <= rev.Keys
    && (forall gb :: gb in active ==> IsWord(rev[gb]))
    && OneToOne(rev, active)
  }

  ghost predicate OneToOne(rev: map<Text, Text>, active: set<Text>)
    requires active <= rev.Keys
  {
    forall g, h :: g in active && h in active && rev[g] == rev[h] ==> g == h
  }

  // A lexicon of lower-case words gives a one-to-one reverse lexicon, in every iteration
  // order: one american key has one british form.
  lemma LexiconGivesWordPairs(lexicon: map<Text, Text>, rev: map<Text, Text>, active: set<Text>)
    requires Reverses(lexicon, rev) && active <= rev.Keys
    requires forall us :: us in lexicon ==> IsWord(us) && IsWord(lexicon[us])
    ensures WordPairs(rev, active)
  {
    forall gb | gb in rev
      ensures rev[gb] in lexicon && lexicon[rev[gb]] == gb
    {
      var us :| Provides(lexicon, us, gb) && rev[gb] == LowerText(us);
      LowerOfWord(us);
      LowerOfWord(lexicon[us]);
    }
  }

  lemma LowerOfWord(w: Text)
    requires IsWord(w)
    ensures LowerText(w) == w
  {
  }

  // An american word to revert: its british form is the user's, and the corrected text has
  // the american form and not the british one.
  predicate Admissible(gb: Text, rev: map<Text, Text>, origWords: set<Text>, corrWords: set<Text>) {
    gb in origWords && gb in rev && gb !in corrWords && rev[gb] in corrWords
  }

  function Active(rev: map<Text, Text>, origWords: set<Text>, corrWords: set<Text>): set<Text> {
    set gb | gb in origWords && Admissible(gb, rev, origWords, corrWords)
  }

  ghost function RevertsFor(rev: map<Text, Text>, active: set<Text>): Reverts
    requires WordPairs(rev, active)
  {
    map gb | gb in active :: rev[gb] := gb
  }

  // The lower-case words of an ASCII text are its maximal letter runs.
  ghost predicate AreWordsOf(words: set<Text>, s: Text) {
    forall w :: w in words <==> exists i, e :: IsRun(s, i, e) && LowerText(s[i..e]) == w
  }

  lemma RunIsWord(s: Text, i: int, e: int)
    requires IsRun(s, i, e)
    ensures IsWord(LowerText(s[i..e]))
  {
    forall k | 0 <= k < e - i
      ensures IsLower(LowerText(s[i..e])[k])
    {
      assert IsLetter(s[i + k]) && s[i..e][k] == s[i + k];
    }
  }

  ghost predicate AllApart(s: Text, rev: map<Text, Text>, active: set<Text>)
    requires active <= rev.Keys
  {
    forall g, h, t, u ::
      (g in active && h in active && g != h
       && t in SplicesFrom(s, rev[g], g, 0) && u in SplicesFrom(s, rev[h], h, 0))
      ==> !Overlaps(t.span, u.span)
  }

  // Main result on disjointness: the splices of different british words are pairwise disjoint
  // if and only if no two of the active ones have the same american word.
  lemma SplicesApartIff(s: Text, rev: map<Text, Text>, origWords: set<Text>, corrWords: set<Text>)
    requires AreWordsOf(corrWords, s)
    ensures Active(rev, origWords, corrWords) <= rev.Keys
    ensures forall gb :: gb in Active(rev, origWords, corrWords) ==> IsWord(rev[gb])
    ensures AllApart(s, rev, Active(rev, origWords, corrWords))
       <==> OneToOne(rev, Active(rev, origWords, corrWords))
  {
    var active := Active(rev, origWords, corrWords);
    forall gb | gb in active
      ensures gb in rev && IsWord(rev[gb])
    {
      var i, e :| IsRun(s, i, e) && LowerText(s[i..e]) == rev[gb];
      RunIsWord(s, i, e);
    }
    forall g, h | g in active && h in active && g != h && rev[g] == rev[h]
      ensures !AllApart(s, rev, active)
    {
      SameWordOverlaps(s, rev[g], g, h);
    }
    forall g, h, t, u | g in active && h in active && rev[g] != rev[h]
        && t in SplicesFrom(s, rev[g], g, 0) && u in SplicesFrom(s, rev[h], h, 0)
      ensures !Overlaps(t.span, u.span)
    {
      DifferentWordsApart(s, rev[g], g, rev[h], h, t, u);
    }
  }

  lemma SameWordOverlaps(s: Text, us: Text, g: Text, h: Text)
    requires exists i, e :: IsRun(s, i, e) && LowerText(s[i..e]) == us
    ensures exists t, u :: t in SplicesFrom(s, us, g, 0) && u in SplicesFrom(s, us, h, 0) && Overlaps(t.span, u.span)
  {
    var i, e :| IsRun(s, i, e) && LowerText(s[i..e]) == us;
    RunIsWord(s, i, e);
    var t, u := Splice(i, e, Rendered(s[i..e], g)), Splice(i, e, Rendered(s[i..e], h));
    SplicesFromExact(s, us, g, 0, t);
    SplicesFromExact(s, us, h, 0, u);
    assert Overlaps(t.span, u.span);
  }

  lemma DifferentWordsApart(s: Text, us: Text, g: Text, us': Text, h: Text, t: Suggestion, u: Suggestion)
    requires IsWord(us) && IsWord(us') && us != us'
    requires t in SplicesFrom(s, us, g, 0) && u in SplicesFrom(s, us', h, 0)
    ensures !Overlaps(t.span, u.span) && t.span.start != u.span.start
  {
    SplicesFromExact(s, us, g, 0, t);
    SplicesFromExact(s, us', h, 0, u);
    RunsDisjoint(s, t.span.start, t.span.end, u.span.start, u.span.end);
  }

  predicate SpliceLess(a: Suggestion, b: Suggestion) {
    if a.span.start != b.span.start then a.span.start < b.span.start else a.span.end > b.span.end
  }

  predicate StartsDiffer(a: Suggestion, b: Suggestion) {
    a.span.start != b.span.start
  }

  lemma SpliceLessIsStrictWeak()
    ensures Sorting.StrictWeak(SpliceLess)
  {
  }

  // The splices gathered so far are exactly those of the british words `done`.
  ghost predicate Gathered(s: Text, rev: map<Text, Text>, done: set<Text>, splices: seq<Suggestion>)
    requires done <= rev.Keys
  {
    && (forall t :: t in splices <==> exists gb :: gb in done && t in SplicesFrom(s, rev[gb], gb, 0))
    && Sorting.Pairwise(StartsDiffer, splices)
  }

  lemma GatherOne(s: Text, rev: map<Text, Text>, done: set<Text>, splices: seq<Suggestion>, gb: Text)
    requires gb in rev && gb !in done && WordPairs(rev, done + {gb})
    requires Gathered(s, rev, done, splices)
    ensures Gathered(s, rev, done + {gb}, splices + SplicesFrom(s, rev[gb], gb, 0))
  {
    var more := SplicesFrom(s, rev[gb], gb, 0);
    var all := splices + more;
    SplicesFromAscending(s, rev[gb], gb, 0);
    forall i, j | 0 <= i < j < |all|
      ensures StartsDiffer(all[i], all[j])
    {
      if i < |splices| <= j {
        assert all[i] in splices && all[j] in more;
        var h :| h in done && all[i] in SplicesFrom(s, rev[h], h, 0);
        DifferentWordsApart(s, rev[h], h, rev[gb], gb, all[i], all[j]);
      } else if i >= |splices| {
        assert all[i] == more[i - |splices|] && all[j] == more[j - |splices|];
      }
    }
  }

  // Whatever the order of the words, sorting gives the one-pass list.
  lemma SortedSplicesAreRuns(s: Text, rev: map<Text, Text>, active: set<Text>, splices: seq<Suggestion>)
    requires WordPairs(rev, active) && Gathered(s, rev, active, splices)
    ensures Sorting.StableSort(SpliceLess, splices) == RunSplices(s, 0, RevertsFor(rev, active))
  {
    var reverts := RevertsFor(rev, active);
    var sorted, runs := Sorting.StableSort(SpliceLess, splices), RunSplices(s, 0, reverts);
    SpliceLessIsStrictWeak();
    Sorting.SortSorts(SpliceLess, splices);
    Sorting.SortPairwise(SpliceLess, StartsDiffer, splices);
    Sorting.SortMembers(SpliceLess, splices);
    forall t
      ensures t in sorted <==> t in runs
    {
      SameSplices(s, rev, active, splices, t);
    }
    forall i, j | 0 <= i < j < |sorted|
      ensures SpliceLess(sorted[i], sorted[j])
    {
      assert StartsDiffer(sorted[i], sorted[j]) && !SpliceLess(sorted[j], sorted[i]);
    }
    RunsAscending(s, 0, reverts);
    assert forall i, j :: 0 <= i < j < |runs| ==> runs[i].span.start < runs[j].span.start;
    Sorting.SortedUnique(SpliceLess, sorted, runs);
  }

  lemma SameSplices(s: Text, rev: map<Text, Text>, active: set<Text>, splices: seq<Suggestion>, t: Suggestion)
    requires WordPairs(rev, active) && Gathered(s, rev, active, splices)
    ensures t in splices <==> t in RunSplices(s, 0, RevertsFor(rev, active))
  {
    var reverts := RevertsFor(rev, active);
    RunSplicesExact(s, 0, reverts, t);
    if t in splices {
      var gb :| gb in active && t in SplicesFrom(s, rev[gb], gb, 0);
      SplicesFromExact(s, rev[gb], gb, 0, t);
      assert rev[gb] in reverts && reverts[rev[gb]] == gb;
    }
    if t in RunSplices(s, 0, reverts) {
      var us := LowerText(s[t.span.start..t.span.end]);
      var gb :| gb in active && rev[gb] == us && reverts[us] == gb;
      SplicesFromExact(s, us, gb, 0, t);
    }
  }

  lemma RunsAscending(s: Text, i: nat, reverts: Reverts)
    requires i <= |s|
    ensures Rising(RunSplices(s, i, reverts))
  {
    var r := RunSplices(s, i, reverts);
    RunSplicesRewrite(s, i, reverts);
    OrderedIffPairwise(r, i, |s|);
    RunsNonEmpty(s, i, reverts);
  }

  ghost predicate NonEmpty(r: seq<Suggestion>) {
    forall a :: 0 <= a < |r| ==> r[a].span.start < r[a].span.end
  }

  lemma {:induction false} RunsNonEmpty(s: Text, i: nat, reverts: Reverts)
    requires i <= |s|
    ensures NonEmpty(RunSplices(s, i, reverts))
    decreases |s| - i
  {
    if i < |s| {
      var e := if IsLetter(s[i]) then RunEnd(s, i) else i + 1;
      RunsNonEmpty(s, e, reverts);
      var r, rest := RunSplices(s, i, reverts), RunSplices(s, e, reverts);
      if r != rest {
        assert r[0].span == Span(i, e) && forall a :: 0 < a < |r| ==> r[a] == rest[a - 1];
      }
    }
  }

  // --- What is reverted, in bytes -------------------------------------------------------------

  predicate Capital(b: Byte) { 65 <= b <= 90 }

  predicate Small(b: Byte) { 97 <= b <= 122 }

  // A maximal run of ASCII letters.
  predicate LetterRun(s: Text, a: int, e: int) {
    && 0 <= a < e <= |s| && (forall k :: a <= k < e ==> Capital(s[k]) || Small(s[k]))
    && (a == 0 || !(Capital(s[a - 1]) || Small(s[a - 1]))) && (e == |s| || !(Capital(s[e]) || Small(s[e])))
  }

  // Byte for byte the same letters, capitals of the run read as small.
  predicate ReadsAs(run: Text, word: Text) {
    |run| == |word| && forall k :: 0 <= k < |run| ==> word[k] == if Capital(run[k]) then run[k] + 32 else run[k]
  }

  // The word in the case of the run: in capitals if the run has two letters or more and all
  // are; with a capital at the start if the run has one there; else as it is.
  predicate CasedAs(run: Text, word: Text, r: Text) {
    && |r| == |word|
    && forall k :: 0 <= k < |r| ==>
         r[k] == if Small(word[k]) && ((|run| > 1 && forall m :: 0 <= m < |run| ==> Capital(run[m]))
                                       || (k == 0 && run != [] && Capital(run[0])))
                 then word[k] - 32 else word[k]
  }

  lemma RenderedCased(run: Text, word: Text)
    ensures CasedAs(run, word, Rendered(run, word))
  {
  }

  lemma LowerReads(run: Text, word: Text)
    ensures LowerText(run) == word <==> ReadsAs(run, word)
  {
  }

  // The run [a, e) of the corrected text reads as the american form of a british word of the
  // user's that the corrected text does not have, and is spliced by that word, cased alike.
  ghost predicate Reverted(
      s: Text, rev: map<Text, Text>, origWords: set<Text>, corrWords: set<Text>, t: Suggestion)
  {
    var a, e := t.span.start, t.span.end;
    && LetterRun(s, a, e)
    && t.model == LLM && t.category == Grammar && t.confidence == 0.0
    && exists gb :: gb in rev && gb in origWords && gb !in corrWords && rev[gb] in corrWords
         && ReadsAs(s[a..e], rev[gb]) && CasedAs(s[a..e], gb, t.replacement)
  }

  lemma CasedOnce(run: Text, word: Text, r: Text)
    ensures CasedAs(run, word, r) <==> r == Rendered(run, word)
  {
    RenderedCased(run, word);
    if CasedAs(run, word, r) {
      assert forall k :: 0 <= k < |r| ==> r[k] == Rendered(run, word)[k];
    }
  }

  lemma RevertedIff(s: Text, rev: map<Text, Text>, origWords: set<Text>, corrWords: set<Text>, t: Suggestion)
    requires WordPairs(rev, Active(rev, origWords, corrWords))
    ensures t in RunSplices(s, 0, RevertsFor(rev, Active(rev, origWords, corrWords)))
       <==> Reverted(s, rev, origWords, corrWords, t)
  {
    var active := Active(rev, origWords, corrWords);
    var reverts := RevertsFor(rev, active);
    RunSplicesExact(s, 0, reverts, t);
    hide Rendered, LowerText, CasedAs, ReadsAs, RunSplices;
    var a, e := t.span.start, t.span.end;
    if LetterRun(s, a, e) {
      var run := s[a..e];
      LowerReads(run, LowerText(run));
      forall gb | gb in active
        ensures ReadsAs(run, rev[gb]) <==> LowerText(run) == rev[gb]
        ensures CasedAs(run, gb, t.replacement) <==> t.replacement == Rendered(run, gb)
      {
        LowerReads(run, rev[gb]);
        CasedOnce(run, gb, t.replacement);
      }
    }
  }

  // Main result in bytes: the repaired text is the corrected one with exactly those runs
  // spliced, all at once.
  lemma RepairedExact(s: Text, rev: map<Text, Text>, origWords: set<Text>, corrWords: set<Text>)
    requires WordPairs(rev, Active(rev, origWords, corrWords))
    ensures exists splices ::
              && Ordered(splices, 0, |s|)
              && (forall t :: t in splices <==> Reverted(s, rev, origWords, corrWords, t))
              && OnePass(s, 0, RevertsFor(rev, Active(rev, origWords, corrWords))) == Rewrite(s, 0, |s|, splices)
  {
    var reverts := RevertsFor(rev, Active(rev, origWords, corrWords));
    var splices := RunSplices(s, 0, reverts);
    RunSplicesRewrite(s, 0, reverts);
    forall t
      ensures t in splices <==> Reverted(s, rev, origWords, corrWords, t)
    {
      RevertedIff(s, rev, origWords, corrWords, t);
    }
  }

  // The reverse lexicon: each british form of an entry that is neither empty nor spelled alike
  // in both, read in small letters, with one of its american forms.
  lemma ReverseExact(lexicon: map<Text, Text>, rev: map<Text, Text>, gb: Text)
    requires Reverses(lexicon, rev)
    ensures gb in rev <==> exists us, small :: Entry(lexicon, us, gb, small)
    ensures gb in rev ==> exists us :: Entry(lexicon, us, gb, rev[gb])
  {
    if gb in rev {
      var us :| Provides(lexicon, us, gb) && rev[gb] == LowerText(us);
      LowerReads(us, LowerText(us));
      LowerReads(lexicon[us], gb);
      assert Entry(lexicon, us, gb, rev[gb]);
    }
    forall us, small | Entry(lexicon, us, gb, small)
      ensures gb in rev
    {
      LowerReads(us, small);
      LowerReads(lexicon[us], gb);
    }
  }

  predicate Entry(lexicon: map<Text, Text>, us: Text, gb: Text, small: Text) {
    us in lexicon && ReadsAs(us, small) && ReadsAs(lexicon[us], gb) && small != [] && gb != [] && small != gb
  }

  // --- The rule -------------------------------------------------------------------------------

  // The splices as gathered when the american words are visited in this order.
  function FoundIn(s: Text, rev: map<Text, Text>, order: seq<Text>): seq<Suggestion>
    requires forall gb :: gb in order ==> gb in rev
  {
    if order == [] then []
    else
      var gb := order[|order| - 1];
      FoundIn(s, rev, order[..|order| - 1]) + ScannedFrom(s, rev[gb], gb, 0)
  }

  ghost predicate Visits(order: seq<Text>, words: set<Text>) {
    && (forall gb :: gb in words <==> gb in order)
    && (forall i, j :: 0 <= i < j < |order| ==> order[i] != order[j])
  }

  lemma {:induction false} FoundIsGathered(s: Text, rev: map<Text, Text>, order: seq<Text>, active: set<Text>)
    requires Visits(order, active) && WordPairs(rev, active)
    ensures Gathered(s, rev, active, FoundIn(s, rev, order))
    decreases |order|
  {
    if order != [] {
      var front, gb := order[..|order| - 1], order[|order| - 1];
      VisitsFront(order, active);
      FoundIsGathered(s, rev, front, active - {gb});
      assert active - {gb} + {gb} == active;
      GatherOne(s, rev, active - {gb}, FoundIn(s, rev, front), gb);
      WordScan(s, rev[gb], gb, 0);
    }
  }

  lemma VisitsFront(order: seq<Text>, words: set<Text>)
    requires order != [] && Visits(order, words)
    ensures order[|order| - 1] in words
    ensures Visits(order[..|order| - 1], words - {order[|order| - 1]})
  {
    var front, last := order[..|order| - 1], order[|order| - 1];
    assert order == front + [last];
    forall gb
      ensures gb in words - {last} <==> gb in front
    {
      assert gb in words <==> gb in front + [last];
    }
  }

  lemma VisitsOneMore(order: seq<Text>, words: set<Text>, gb: Text)
    requires Visits(order, words) && gb !in words
    ensures Visits(order + [gb], words + {gb})
  {
  }

  // One of the orders an unstable sort may leave.
  ghost predicate Sorts(found: seq<Suggestion>, sorted: seq<Suggestion>) {
    && multiset(sorted) == multiset(found)
    && forall i, j :: 0 <= i < j < |sorted| ==> !SpliceLess(sorted[j], sorted[i])
  }

  // Slicing outside the text is a run-time panic.
  function Spliced(text: Text, splices: seq<Suggestion>): Option<Text> {
    if splices == [] then Some(text)
    else
      var rest := Spliced(text, splices[1..]);
      if rest.None? then None else SplicedOne(rest.value, splices[0])
  }

  function SplicedOne(text: Text, sp: Suggestion): Option<Text> {
    if 0 <= sp.span.start <= |text| && 0 <= sp.span.end <= |text| then
      Some(text[..sp.span.start] + sp.replacement + text[sp.span.end..])
    else None
  }

  method ApplySplices(text: Text, splices: seq<Suggestion>) returns (r: Option<Text>)
    ensures r == Spliced(text, splices)
  {
    hide SplicedOne;
    r := Some(text);
    var i := |splices|;
    assert splices[i..] == [];
    while i > 0
      invariant 0 <= i <= |splices|
      invariant r.Some? && r == Spliced(text, splices[i..])
    {
      i := i - 1;
      assert splices[i..][1..] == splices[i + 1..] && splices[i..][0] == splices[i];
      r := SplicedOne(r.value, splices[i]);
      assert r == Spliced(text, splices[i..]);
      if r.None? {
        PanicStays(text, splices, i);
        return;
      }
    }
    assert splices[0..] == splices;
  }

  lemma {:induction false} PanicStays(text: Text, splices: seq<Suggestion>, i: nat)
    requires i <= |splices| && Spliced(text, splices[i..]).None?
    ensures Spliced(text, splices).None?
    decreases i
  {
    if i == 0 {
      assert splices[0..] == splices;
    } else {
      assert splices[i - 1..][1..] == splices[i..];
      PanicStays(text, splices, i - 1);
    }
  }

  // Ordered splices never slice outside the text, and rewrite it.
  lemma {:induction false} OrderedSpliced(text: Text, splices: seq<Suggestion>, from: int)
    requires 0 <= from && Ordered(splices, from, |text|)
    ensures Spliced(text, splices) == Some(Rewrite(text, 0, |text|, splices)) && Ordered(splices, 0, |text|)
    decreases |splices|
  {
    hide Rewrite;
    if splices == [] {
      RewriteNothing(text, 0, |text|);
      assert text[0..|text|] == text;
    } else {
      var sp, rest := splices[0], splices[1..];
      OrderedSpliced(text, rest, sp.span.end);
      RewriteSkip(text, 0, sp.span.end, |text|, rest);
      assert splices == [sp] + rest;
      RewriteCons(text, 0, |text|, sp, rest);
      CutAfter(text, sp, Rewrite(text, sp.span.end, |text|, rest));
    }
  }

  lemma CutAfter(text: Text, sp: Suggestion, tail: Text)
    requires 0 <= sp.span.start <= sp.span.end <= |text|
    ensures SplicedOne(text[0..sp.span.end] + tail, sp) == Some(text[0..sp.span.start] + sp.replacement + tail)
  {
    var whole := text[0..sp.span.end] + tail;
    assert whole[..sp.span.start] == text[0..sp.span.start] && whole[sp.span.end..] == tail;
  }

  // Two british forms of one american word both splice it: the tail of one stays behind.
  // The lexicon has the american word in two cases, the user wrote both british forms, and
  // the words are visited in the order h, g.
  lemma DoubleRevertCorrupts(us: Text, g: Text, h: Text)
    requires IsWord(us) && IsWord(g) && IsWord(h) && us != g && us != h && g != h && |us| <= |g|
    ensures var lexicon, rev := map[us := g, UpperText(us) := h], map[g := us, h := us];
            var order, splices := [h, g], [Splice(0, |us|, h), Splice(0, |us|, g)];
            && Reverses(lexicon, rev)
            && AreWordsOf({g, h}, g + [BLANK] + h) && AreWordsOf({us}, us)
            && Visits(order, Active(rev, {g, h}, {us}))
            && FoundIn(us, rev, order) == splices && Sorts(splices, splices)
            && Spliced(us, splices) == Some(h + g[|us|..])
  {
    var rev := map[g := us, h := us];
    TwoCasesReverse(us, g, h);
    PairWords(g, h);
    OneWord(us);
    BothActive(us, g, h, rev);
    hide IsWord, Reverses, AreWordsOf, Active, Visits, FoundIn, Spliced, Sorts, UpperText;
    TwoFound(us, g, h, rev);
    TwoSpliced(us, g, h);
    SameStartSorts(Splice(0, |us|, h), Splice(0, |us|, g));
  }

  lemma BothActive(us: Text, g: Text, h: Text, rev: map<Text, Text>)
    requires us != g && us != h && g != h && rev == map[g := us, h := us]
    ensures Active(rev, {g, h}, {us}) == {g, h} && Visits([h, g], {g, h})
  {
    assert forall gb :: gb in [h, g] <==> gb == [h, g][0] || gb == [h, g][1];
  }

  lemma SameStartSorts(first: Suggestion, last: Suggestion)
    requires first.span == last.span
    ensures Sorts([first, last], [first, last])
  {
  }

  const BLANK: Byte := 32

  lemma TwoCasesReverse(us: Text, g: Text, h: Text)
    requires IsWord(us) && IsWord(g) && IsWord(h) && us != g && us != h && g != h
    ensures Reverses(map[us := g, UpperText(us) := h], map[g := us, h := us])
  {
    var lexicon, upper := map[us := g, UpperText(us) := h], UpperText(us);
    LowerOfWord(us);
    LowerOfWord(g);
    LowerOfWord(h);
    assert us[0] != upper[0] && LowerText(upper) == us;
    assert Provides(lexicon, us, g) && Provides(lexicon, upper, h);
  }

  lemma OneWord(us: Text)
    requires IsWord(us)
    ensures AreWordsOf({us}, us)
  {
    LowerOfWord(us);
    assert us[0..|us|] == us && IsRun(us, 0, |us|);
    forall i, e | IsRun(us, i, e)
      ensures us[i..e] == us
    {
      RunsDisjoint(us, 0, |us|, i, e);
    }
  }

  lemma PairWords(g: Text, h: Text)
    requires IsWord(g) && IsWord(h)
    ensures AreWordsOf({g, h}, g + [BLANK] + h)
  {
    var s, n := g + [BLANK] + h, |g|;
    LowerOfWord(g);
    LowerOfWord(h);
    assert s[0..n] == g && s[n + 1..|s|] == h && s[n] == BLANK;
    assert forall k :: 0 <= k < n ==> s[k] == g[k];
    assert forall k :: n < k < |s| ==> s[k] == h[k - n - 1];
    assert IsRun(s, 0, n) && IsRun(s, n + 1, |s|);
    forall i, e | IsRun(s, i, e)
      ensures s[i..e] == g || s[i..e] == h
    {
      RunsDisjoint(s, 0, n, i, e);
      RunsDisjoint(s, n + 1, |s|, i, e);
    }
  }

  lemma TwoFound(us: Text, g: Text, h: Text, rev: map<Text, Text>)
    requires IsWord(us) && g != h && rev == map[g := us, h := us]
    ensures FoundIn(us, rev, [h, g]) == [Splice(0, |us|, h), Splice(0, |us|, g)]
  {
    hide ScannedFrom, SplicesFrom, IsWord;
    OneSplice(us, g);
    OneSplice(us, h);
    WordScan(us, us, g, 0);
    WordScan(us, us, h, 0);
    FoundInMore(us, rev, [], h);
    FoundInMore(us, rev, [h], g);
    assert [] + [h] == [h] && [h] + [g] == [h, g];
  }

  lemma TwoSpliced(us: Text, g: Text, h: Text)
    requires |us| <= |g|
    ensures Spliced(us, [Splice(0, |us|, h), Splice(0, |us|, g)]) == Some(h + g[|us|..])
  {
    hide SplicedOne;
    var first, last := Splice(0, |us|, h), Splice(0, |us|, g);
    assert [last][1..] == [] && [first, last][1..] == [last];
    WholeSpliced(us, |us|, g);
    WholeSpliced(g, |us|, h);
    assert us[|us|..] == [] && g + [] == g;
    assert Spliced(us, [last]) == SplicedOne(us, last);
  }

  lemma WholeSpliced(text: Text, n: nat, repl: Text)
    requires n <= |text|
    ensures SplicedOne(text, Splice(0, n, repl)) == Some(repl + text[n..])
  {
    assert text[..0] + repl == repl;
  }

  lemma OneSplice(us: Text, repl: Text)
    requires IsWord(us)
    ensures SplicesFrom(us, us, repl, 0) == [Splice(0, |us|, repl)]
  {
    WordMatchesItself(us, repl);
    forall k | 1 <= k < |us|
      ensures !WholeMatch(us, us, k)
    {
      InsideMatch(us, us, 0, k);
    }
    SkipNonMatches(us, us, repl, 1, |us|);
    hide WholeMatch, SpliceAt, IsWord, FoldMatches;
    assert SplicesFrom(us, us, repl, |us|) == [];
    assert SplicesFrom(us, us, repl, 0) == [SpliceAt(us, us, repl, 0)] + SplicesFrom(us, us, repl, 1);
  }

  lemma WordMatchesItself(us: Text, repl: Text)
    requires IsWord(us)
    ensures us != [] && WholeMatch(us, us, 0) && FoldMatches(us, us, 0)
    ensures SpliceAt(us, us, repl, 0) == Splice(0, |us|, repl)
  {
    assert us[0..|us|] == us && IsLower(us[0]);
    hide LowerText;
    assert Rendered(us, repl) == repl;
  }

  // The rule built by NewDialectSpellingRepair. `words` yields the lower-case words of a
  // text; the set of the user's words is visited in an arbitrary order.
  method Repair(original: Text, corrected: Text, rev: map<Text, Text>, words: Text -> set<Text>)
      returns (out: Option<Text>)
    ensures original == corrected ==> out == Some(corrected)
    ensures original != corrected ==>
              exists order, sorted ::
                && Visits(order, Active(rev, words(original), words(corrected)))
                && Sorts(FoundIn(corrected, rev, order), sorted) && out == Spliced(corrected, sorted)
    ensures original != corrected && WordPairs(rev, Active(rev, words(original), words(corrected))) ==>
              out == Some(OnePass(corrected, 0, RevertsFor(rev, Active(rev, words(original), words(corrected)))))
  {
    if original == corrected {
      return Some(corrected);
    }
    var origWords, corrWords := words(original), words(corrected);
    ghost var active := Active(rev, origWords, corrWords);
    var todo := origWords;
    var splices: seq<Suggestion> := [];
    ghost var order: seq<Text> := [];
    ghost var done: set<Text> := {};
    while todo != {}
      invariant todo <= origWords && done <= active && Visits(order, done)
      invariant splices == FoundIn(corrected, rev, order)
      invariant forall gb :: gb in done <==> gb !in todo && gb in active
      decreases |todo|
    {
      var gb :| gb in todo;
      todo := todo - {gb};
      if gb !in rev || gb in corrWords || rev[gb] !in corrWords {
        continue;
      }
      var found := FindWholeWordReplacements(corrected, rev[gb], gb);
      VisitsOneMore(order, done, gb);
      FoundInMore(corrected, rev, order, gb);
      order, done := order + [gb], done + {gb};
      splices := splices + found;
    }
    assert done == active;
    SortIsOne(splices);
    ghost var found := splices;
    splices := Sorting.StableSort(SpliceLess, splices);
    if WordPairs(rev, active) {
      FoundIsGathered(corrected, rev, order, active);
      SortedSplicesAreRuns(corrected, rev, active, found);
      RunSplicesRewrite(corrected, 0, RevertsFor(rev, active));
      OrderedSpliced(corrected, splices, 0);
    }
    out := ApplySplices(corrected, splices);
  }

  lemma FoundInMore(s: Text, rev: map<Text, Text>, order: seq<Text>, gb: Text)
    requires gb in rev && forall g :: g in order ==> g in rev
    ensures forall g :: g in order + [gb] ==> g in rev
    ensures FoundIn(s, rev, order + [gb]) == FoundIn(s, rev, order) + ScannedFrom(s, rev[gb], gb, 0)
  {
    assert (order + [gb])[..|order|] == order;
  }

  lemma SortIsOne(found: seq<Suggestion>)
    ensures Sorts(found, Sorting.StableSort(SpliceLess, found))
  {
    SpliceLessIsStrictWeak();
    Sorting.SortSorts(SpliceLess, found);
    Sorting.SortPermutes(SpliceLess, found);
  }
}
