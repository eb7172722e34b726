// loanword_filter.go: foreignness spreads from accented words through neighbouring flagged
// words until nothing changes; gateable suggestions on foreign words are dropped.
module Loanword {
  import opened Edits
  import opened Utf8

  // A word token with its byte range; accented means it has a non-ASCII letter.
  datatype WordSpan = WordSpan(start: int, end: int, accented: bool)

  // --- What foreign means ----------------------------------------------------------------------

  // From word i to word j, all words but j itself are flagged.
  ghost predicate FlaggedRun(flagged: seq<bool>, i: int, j: int)
    requires 0 <= i < |flagged| && 0 <= j < |flagged|
  {
    forall k :: (i <= k < j || j < k <= i) ==> flagged[k]
  }

  // Accented, or connected to an accented word by an unbroken run of flagged words.
  ghost predicate Foreign(words: seq<WordSpan>, flagged: seq<bool>, i: int)
    requires |words| == |flagged| && 0 <= i < |words|
  {
    exists j :: 0 <= j < |words| && words[j].accented && FlaggedRun(flagged, i, j)
  }

  // --- The fixpoint loop -------------------------------------------------------------------------

  function CountFalse(s: seq<bool>): nat {
    if s == [] then 0 else CountFalse(s[..|s| - 1]) + if s[|s| - 1] then 0 else 1
  }

  lemma {:induction false} CountFalseDrops(s: seq<bool>, i: nat)
    requires i < |s| && !s[i]
    ensures CountFalse(s[i := true]) == CountFalse(s) - 1
    decreases |s|
  {
    var last := |s| - 1;
    if i < last {
      CountFalseDrops(s[..last], i);
      assert s[i := true][..last] == s[..last][i := true];
    } else {
      assert s[i := true][..last] == s[..last];
    }
  }

  predicate ForeignNeighbor(foreign: seq<bool>, i: nat)
    requires i < |foreign|
  {
    (i > 0 && foreign[i - 1]) || (i + 1 < |foreign| && foreign[i + 1])
  }

  // Nothing more to mark.
  ghost predicate Stable(flagged: seq<bool>, foreign: seq<bool>, upTo: nat)
    requires |flagged| == |foreign| && upTo <= |foreign|
  {
    forall i :: 0 <= i < upTo ==> foreign[i] || !flagged[i] || !ForeignNeighbor(foreign, i)
  }

  ghost predicate OnlyForeign(words: seq<WordSpan>, flagged: seq<bool>, foreign: seq<bool>)
    requires |words| == |flagged| == |foreign|
  {
    forall i :: 0 <= i < |words| ==>
      (words[i].accented ==> foreign[i]) && (foreign[i] ==> Foreign(words, flagged, i))
  }

  lemma ForeignSpreads(words: seq<WordSpan>, flagged: seq<bool>, i: nat, n: nat)
    requires |words| == |flagged| && i < |words| && n < |words| && (n + 1 == i || n == i + 1)
    requires flagged[i] && Foreign(words, flagged, n)
    ensures Foreign(words, flagged, i)
  {
    var j :| 0 <= j < |words| && words[j].accented && FlaggedRun(flagged, n, j);
    if (n < i && j >= i) || (n > i && j <= i) {
      assert FlaggedRun(flagged, i, j);
    } else {
      forall k | i <= k < j || j < k <= i
        ensures flagged[k]
      {
        assert k == i || n <= k < j || j < k <= n;
      }
    }
  }

  method Propagate(words: seq<WordSpan>, flagged: seq<bool>) returns (foreign: array<bool>)
    requires |words| == |flagged|
    ensures fresh(foreign) && foreign.Length == |words|
    ensures forall i :: 0 <= i < |words| ==> (foreign[i] <==> Foreign(words, flagged, i))
  {
    foreign := new bool[|words|](i requires 0 <= i < |words| => words[i].accented);
    var changed := true;
    while changed
      invariant OnlyForeign(words, flagged, foreign[..])
      invariant !changed ==> Stable(flagged, foreign[..], |words|)
      decreases CountFalse(foreign[..]), changed
    {
      changed := Sweep(words, flagged, foreign);
    }
    StableIsForeign(words, flagged, foreign[..]);
  }

  lemma MarkOne(words: seq<WordSpan>, flagged: seq<bool>, foreign: seq<bool>, i: nat)
    requires |words| == |flagged| == |foreign| && i < |words|
    requires OnlyForeign(words, flagged, foreign) && !foreign[i] && flagged[i] && ForeignNeighbor(foreign, i)
    ensures OnlyForeign(words, flagged, foreign[i := true])
    ensures CountFalse(foreign[i := true]) < CountFalse(foreign)
  {
    hide Foreign, CountFalse;
    CountFalseDrops(foreign, i);
    var n := if i > 0 && foreign[i - 1] then i - 1 else i + 1;
    assert foreign[n];
    ForeignSpreads(words, flagged, i, n);
    var next := foreign[i := true];
    forall k | 0 <= k < |words|
      ensures (words[k].accented ==> next[k]) && (next[k] ==> Foreign(words, flagged, k))
    {
      if k != i {
        assert next[k] == foreign[k];
      }
    }
  }

  lemma StableIsForeign(words: seq<WordSpan>, flagged: seq<bool>, foreign: seq<bool>)
    requires |words| == |flagged| == |foreign|
    requires OnlyForeign(words, flagged, foreign) && Stable(flagged, foreign, |words|)
    ensures forall i :: 0 <= i < |words| ==> (foreign[i] <==> Foreign(words, flagged, i))
  {
    ForeignIsLeast(words, flagged, foreign);
  }

  // One pass over the words, marking in place.
  method Sweep(words: seq<WordSpan>, flagged: seq<bool>, foreign: array<bool>) returns (changed: bool)
    requires |words| == |flagged| == foreign.Length
    requires OnlyForeign(words, flagged, foreign[..])
    modifies foreign
    ensures OnlyForeign(words, flagged, foreign[..])
    ensures if changed then CountFalse(foreign[..]) < CountFalse(old(foreign[..]))
            else foreign[..] == old(foreign[..]) && Stable(flagged, foreign[..], |words|)
  {
    hide CountFalse;
    changed := false;
    for i := 0 to |words|
      invariant OnlyForeign(words, flagged, foreign[..])
      invariant if changed then CountFalse(foreign[..]) < CountFalse(old(foreign[..]))
                else foreign[..] == old(foreign[..]) && Stable(flagged, foreign[..], i)
    {
      if foreign[i] || !flagged[i] {
        continue;
      }
      if (i > 0 && foreign[i - 1]) || (i + 1 < |words| && foreign[i + 1]) {
        ghost var was := foreign[..];
        MarkOne(words, flagged, was, i);
        foreign[i] := true;
        assert foreign[..] == was[i := true];
        changed := true;
      }
    }
  }

  lemma {:induction false} StableReaches(words: seq<WordSpan>, flagged: seq<bool>, foreign: seq<bool>, i: int, j: int)
    requires |words| == |flagged| == |foreign| && 0 <= i < |words| && 0 <= j < |words|
    requires foreign[j] && FlaggedRun(flagged, i, j) && Stable(flagged, foreign, |foreign|)
    ensures foreign[i]
    decreases if i < j then j - i else i - j
  {
    if i < j {
      StableReaches(words, flagged, foreign, i + 1, j);
    } else if j < i {
      StableReaches(words, flagged, foreign, i - 1, j);
    }
  }

  // Foreign is the least set holding the accented words and closed under marking a flagged
  // word with a foreign neighbour.
  lemma ForeignIsLeast(words: seq<WordSpan>, flagged: seq<bool>, closed: seq<bool>)
    requires |words| == |flagged| == |closed|
    requires forall i :: 0 <= i < |words| && words[i].accented ==> closed[i]
    requires Stable(flagged, closed, |closed|)
    ensures forall i :: 0 <= i < |words| && Foreign(words, flagged, i) ==> closed[i]
  {
    forall i | 0 <= i < |words| && Foreign(words, flagged, i)
      ensures closed[i]
    {
      var j :| 0 <= j < |words| && words[j].accented && FlaggedRun(flagged, i, j);
      StableReaches(words, flagged, closed, i, j);
    }
  }

  // --- The filter ------------------------------------------------------------------------------------

  // The first word token holding the span's start, or -1.
  function WordIndexFrom(words: seq<WordSpan>, start: int, from: nat): (r: int)
    requires from <= |words|
    ensures r == -1 || (from <= r < |words| && words[r].start <= start < words[r].end)
    ensures forall k :: from <= k < |words| && (r == -1 || k < r) ==> !(words[k].start <= start < words[k].end)
    decreases |words| - from
  {
    if from == |words| then -1
    else if words[from].start <= start < words[from].end then from
    else WordIndexFrom(words, start, from + 1)
  }

  // The word a gateable suggestion sits on, or -1.
  function GateableWord(words: seq<WordSpan>, s: Suggestion, gateable: bool): (r: int)
    ensures -1 <= r < |words|
  {
    if gateable then WordIndexFrom(words, s.span.start, 0) else -1
  }

  // A word carries a gateable suggestion.
  ghost predicate Carries(words: seq<WordSpan>, sugs: seq<Suggestion>, gateable: seq<bool>, w: int)
    requires |sugs| == |gateable|
  {
    exists i :: 0 <= i < |sugs| && GateableWord(words, sugs[i], gateable[i]) == w
  }

  ghost function FlaggedWords(words: seq<WordSpan>, sugs: seq<Suggestion>, gateable: seq<bool>): (r: seq<bool>)
    requires |sugs| == |gateable|
    ensures |r| == |words|
    ensures forall w :: 0 <= w < |r| ==> (r[w] <==> Carries(words, sugs, gateable, w))
  {
    seq(|words|, w requires 0 <= w < |words| => Carries(words, sugs, gateable, w))
  }

  // A gateable suggestion on a foreign word.
  ghost predicate FalsePositive(words: seq<WordSpan>, sugs: seq<Suggestion>, gateable: seq<bool>, i: nat)
    requires |sugs| == |gateable| && i < |sugs|
  {
    var w := GateableWord(words, sugs[i], gateable[i]);
    w >= 0 && Foreign(words, FlaggedWords(words, sugs, gateable), w)
  }

  ghost function KeptFrom(words: seq<WordSpan>, sugs: seq<Suggestion>, gateable: seq<bool>, i: nat): seq<Suggestion>
    requires |sugs| == |gateable| && i <= |sugs|
    decreases |sugs| - i
  {
    if i == |sugs| then []
    else if FalsePositive(words, sugs, gateable, i) then KeptFrom(words, sugs, gateable, i + 1)
    else [sugs[i]] + KeptFrom(words, sugs, gateable, i + 1)
  }

  // filterLoanwordFalsePositives: exactly the false positives go, order kept. `gateable`
  // classifies each suggestion by its lint kind and message.
  method FilterLoanwords(words: seq<WordSpan>, sugs: seq<Suggestion>, gateable: seq<bool>)
      returns (out: seq<Suggestion>)
    requires |gateable| == |sugs|
    ensures out == KeptFrom(words, sugs, gateable, 0)
  {
    var gateableWord, flagged := MarkFlagged(words, sugs, gateable);
    assert flagged[..] == FlaggedWords(words, sugs, gateable);
    var foreign := Propagate(words, flagged[..]);
    out := [];
    for i := 0 to |sugs|
      invariant out + KeptFrom(words, sugs, gateable, i) == KeptFrom(words, sugs, gateable, 0)
    {
      var w := gateableWord[i];
      if w >= 0 && foreign[w] {
        continue;
      }
      out := out + [sugs[i]];
    }
  }

  method MarkFlagged(words: seq<WordSpan>, sugs: seq<Suggestion>, gateable: seq<bool>)
      returns (gateableWord: array<int>, flagged: array<bool>)
    requires |gateable| == |sugs|
    ensures fresh(gateableWord) && fresh(flagged)
    ensures gateableWord.Length == |sugs| && flagged.Length == |words|
    ensures forall i :: 0 <= i < |sugs| ==> gateableWord[i] == GateableWord(words, sugs[i], gateable[i])
    ensures forall w :: 0 <= w < |words| ==> (flagged[w] <==> Carries(words, sugs, gateable, w))
  {
    gateableWord := new int[|sugs|](i => -1);
    flagged := new bool[|words|](i => false);
    for i := 0 to |sugs|
      invariant forall k :: 0 <= k < i ==> gateableWord[k] == GateableWord(words, sugs[k], gateable[k])
      invariant forall w :: 0 <= w < |words| ==>
                  (flagged[w] <==> exists k :: 0 <= k < i && GateableWord(words, sugs[k], gateable[k]) == w)
    {
      gateableWord[i] := -1;
      if !gateable[i] {
        continue;
      }
      var w := WordIndexFrom(words, sugs[i].span.start, 0);
      if w < 0 {
        continue;
      }
      gateableWord[i] := w;
      flagged[w] := true;
    }
  }

  // --- The whole filter ----------------------------------------------------------------------------

  // Where the letter run that i stands in ends.
  function RunEnd(text: Text, isLetter: int -> bool, i: nat): (e: nat)
    requires i <= |text|
    ensures i <= e <= |text|
    decreases |text| - i
  {
    if i == |text| || !isLetter(DecodeRune(text[i..]).value) then i
    else RunEnd(text, isLetter, i + DecodeRune(text[i..]).size)
  }

  // That run has a letter beyond ASCII from i on.
  function AccentAhead(text: Text, isLetter: int -> bool, i: nat): bool
    requires i <= |text|
    decreases |text| - i
  {
    i < |text| && isLetter(DecodeRune(text[i..]).value)
    && (DecodeRune(text[i..]).value > 0x7F || AccentAhead(text, isLetter, i + DecodeRune(text[i..]).size))
  }

  // The maximal letter runs from i on.
  function WordsFrom(text: Text, isLetter: int -> bool, i: nat): seq<WordSpan>
    requires i <= |text|
    decreases |text| - i
  {
    if i == |text| then []
    else
      var r := DecodeRune(text[i..]);
      if !isLetter(r.value) then WordsFrom(text, isLetter, i + r.size)
      else
        var e := RunEnd(text, isLetter, i + r.size);
        [WordSpan(i, e, AccentAhead(text, isLetter, i))] + WordsFrom(text, isLetter, e)
  }

  // What remains of the scan at i, with a word open since `start` (or none: -1).
  function WordsAhead(text: Text, isLetter: int -> bool, i: nat, start: int, accented: bool): seq<WordSpan>
    requires i <= |text|
  {
    if start < 0 then WordsFrom(text, isLetter, i)
    else
      [WordSpan(start, RunEnd(text, isLetter, i), accented || AccentAhead(text, isLetter, i))]
      + WordsFrom(text, isLetter, RunEnd(text, isLetter, i))
  }

  // The same once the rune at i has been read.
  function WordsPast(text: Text, isLetter: int -> bool, i: nat, start: int, accented: bool, r: Rune): seq<WordSpan>
    requires i + r.size <= |text| && 0 <= r.size
  {
    var next := i + r.size;
    if isLetter(r.value) then
      WordsAhead(text, isLetter, next, if start < 0 then i else start, (start >= 0 && accented) || r.value > 0x7F)
    else if start < 0 then WordsAhead(text, isLetter, next, -1, false)
    else [WordSpan(start, i, accented)] + WordsAhead(text, isLetter, next, -1, false)
  }

  // One rune of the scan.
  lemma ScanRune(text: Text, isLetter: int -> bool, i: nat, start: int, accented: bool)
    requires i < |text|
    ensures WordsAhead(text, isLetter, i, start, accented)
         == WordsPast(text, isLetter, i, start, accented, DecodeRune(text[i..]))
  {
    hide DecodeRune;
  }

  // tokenizeWords.
  method TokenizeWords(text: Text, isLetter: int -> bool) returns (words: seq<WordSpan>)
    ensures words == WordsFrom(text, isLetter, 0)
  {
    hide WordsAhead, WordsFrom, DecodeRune, RunEnd, AccentAhead;
    words := [];
    var start, accented := -1, false;
    var i := 0;
    ghost var goal := WordsAhead(text, isLetter, 0, -1, false);
    while i < |text|
      invariant 0 <= i <= |text| && -1 <= start
      invariant words + WordsAhead(text, isLetter, i, start, accented) == goal
      decreases |text| - i
    {
      ScanRune(text, isLetter, i, start, accented);
      var r := DecodeRune(text[i..]);
      if isLetter(r.value) {
        if start < 0 {
          start, accented := i, false;
        }
        accented := accented || r.value > 0x7F;
      } else if start >= 0 {
        words := words + [WordSpan(start, i, accented)];
        start, accented := -1, false;
      } else {
        accented := false;
      }
      i := i + r.size;
    }
    if start >= 0 {
      words := words + [WordSpan(start, |text|, accented)];
    }
    ScanEnds(text, isLetter, start, accented);
  }

  lemma ScanEnds(text: Text, isLetter: int -> bool, start: int, accented: bool)
    ensures WordsAhead(text, isLetter, |text|, start, accented)
         == if start < 0 then [] else [WordSpan(start, |text|, accented)]
    ensures WordsAhead(text, isLetter, 0, -1, false) == WordsFrom(text, isLetter, 0)
  {
  }

  ghost predicate Runs(text: Text, words: seq<WordSpan>, from: int) {
    && (forall w :: 0 <= w < |words| ==> from <= words[w].start < words[w].end <= |text|)
    && (forall v, w :: 0 <= v < w < |words| ==> words[v].end <= words[w].start)
  }

  // Words are non-empty, in bounds, ascending and disjoint, so a suggestion starts in at
  // most one of them.
  lemma {:induction false} WordsAreRuns(text: Text, isLetter: int -> bool, i: nat)
    requires i <= |text|
    ensures Runs(text, WordsFrom(text, isLetter, i), i)
    decreases |text| - i
  {
    hide DecodeRune;
    if i < |text| {
      var r := DecodeRune(text[i..]);
      var e := if isLetter(r.value) then RunEnd(text, isLetter, i + r.size) else i + r.size;
      WordsAreRuns(text, isLetter, e);
      var words, rest := WordsFrom(text, isLetter, i), WordsFrom(text, isLetter, e);
      if isLetter(r.value) {
        assert forall w :: 0 < w < |words| ==> words[w] == rest[w - 1];
      }
    }
  }

  function ValueAt(text: Text, i: nat): int
    requires i < |text|
  {
    DecodeRune(text[i..]).value
  }

  // A maximal run of letters, rune by rune; accented if one is beyond ASCII.
  ghost predicate IsLetterRun(text: Text, isLetter: int -> bool, w: WordSpan) {
    && 0 <= w.start < w.end <= |text| && Boundary(text, w.start) && Boundary(text, w.end)
    && (forall p :: w.start <= p < w.end && Boundary(text, p) ==> isLetter(ValueAt(text, p)))
    && (w.end < |text| ==> !isLetter(ValueAt(text, w.end)))
    && FreshAt(text, isLetter, w.start)
    && (w.accented <==> exists p :: w.start <= p < w.end && Boundary(text, p) && ValueAt(text, p) > 0x7F)
  }

  // No letter ends at i.
  ghost predicate FreshAt(text: Text, isLetter: int -> bool, i: int) {
    forall p :: 0 <= p < |text| && Boundary(text, p) && p + DecodeRune(text[p..]).size == i ==>
      !isLetter(ValueAt(text, p))
  }

  lemma {:induction false} RunEndExact(text: Text, isLetter: int -> bool, i: nat)
    requires i <= |text| && Boundary(text, i)
    ensures var e := RunEnd(text, isLetter, i);
            && Boundary(text, e) && (e < |text| ==> !isLetter(ValueAt(text, e)))
            && (forall p :: i <= p < e && Boundary(text, p) ==> isLetter(ValueAt(text, p)))
            && (AccentAhead(text, isLetter, i) <==>
                  exists p :: i <= p < e && Boundary(text, p) && ValueAt(text, p) > 0x7F)
    decreases |text| - i
  {
    hide DecodeRune, Boundary;
    if i < |text| && isLetter(ValueAt(text, i)) {
      BoundaryNext(text, i);
      RunEndExact(text, isLetter, i + DecodeRune(text[i..]).size);
    }
  }

  // Behind a run that starts at i and ends at e, no letter run starts inside, nor at e.
  lemma NoRunInside(text: Text, isLetter: int -> bool, i: nat, e: nat, w: WordSpan)
    requires i < e <= |text| && IsLetterRun(text, isLetter, w) && Boundary(text, i)
    requires forall p :: i <= p < e && Boundary(text, p) ==> isLetter(ValueAt(text, p))
    requires e < |text| ==> !isLetter(ValueAt(text, e))
    ensures w.start <= i || e < w.start
  {
    hide DecodeRune, Boundary;
    if i < w.start < e {
      var p := RuneBefore(text, i, w.start);
    }
  }

  // The run that starts at i, with the end and the accent found there.
  lemma RunHere(text: Text, isLetter: int -> bool, i: nat, w: WordSpan)
    requires i < |text| && Boundary(text, i) && FreshAt(text, isLetter, i) && isLetter(ValueAt(text, i))
    requires w.start == i
    ensures IsLetterRun(text, isLetter, w)
       <==> w == WordSpan(i, RunEnd(text, isLetter, i), AccentAhead(text, isLetter, i))
  {
    hide DecodeRune, Boundary, RunEnd, AccentAhead;
    var e := RunEnd(text, isLetter, i);
    RunEndExact(text, isLetter, i);
    RunStarts(text, isLetter, i);
  }

  lemma RunStarts(text: Text, isLetter: int -> bool, i: nat)
    requires i < |text| && isLetter(ValueAt(text, i))
    ensures i < RunEnd(text, isLetter, i)
  {
  }

  // The rune that ends where another starts.
  lemma RuneBefore(text: Text, i: nat, at: nat) returns (p: nat)
    requires i < at <= |text| && Boundary(text, i) && Boundary(text, at)
    ensures i <= p < at && Boundary(text, p) && p + DecodeRune(text[p..]).size == at
  {
    hide DecodeRune, Boundary;
    p := i;
    while p + DecodeRune(text[p..]).size != at
      invariant i <= p < at && Boundary(text, p)
      decreases at - p
    {
      BoundaryNext(text, p);
      p := p + DecodeRune(text[p..]).size;
    }
  }

  // The words found from a fresh place on are exactly the letter runs from there.
  lemma {:induction false} WordsFromExact(text: Text, isLetter: int -> bool, i: nat, w: WordSpan)
    requires i <= |text| && Boundary(text, i) && FreshAt(text, isLetter, i)
    ensures w in WordsFrom(text, isLetter, i) <==> i <= w.start && IsLetterRun(text, isLetter, w)
    decreases |text| - i
  {
    hide DecodeRune, Boundary, RunEnd, AccentAhead, IsLetterRun, WordsFrom;
    WordsUnfold(text, isLetter, i);
    if i < |text| {
      var e := if isLetter(ValueAt(text, i)) then RunEnd(text, isLetter, i) else i;
      RunEndExact(text, isLetter, i);
      WordsUnfold(text, isLetter, e);
      if e < |text| {
        BoundaryNext(text, e);
        FreshAfter(text, isLetter, e);
        WordsFromExact(text, isLetter, e + DecodeRune(text[e..]).size, w);
      }
      OutsideRuns(text, isLetter, i, e, w);
    } else {
      RunInText(text, isLetter, w);
    }
  }

  lemma RunInText(text: Text, isLetter: int -> bool, w: WordSpan)
    ensures IsLetterRun(text, isLetter, w) ==> 0 <= w.start < |text|
  {
  }

  // One step of the tokenizer: to the next rune, or past a run and the rune behind it.
  lemma WordsUnfold(text: Text, isLetter: int -> bool, i: nat)
    requires i <= |text|
    ensures var words := WordsFrom(text, isLetter, i);
            if i == |text| then words == []
            else if !isLetter(ValueAt(text, i)) then words == WordsFrom(text, isLetter, i + DecodeRune(text[i..]).size)
            else
              var e := RunEnd(text, isLetter, i);
              words == [WordSpan(i, e, AccentAhead(text, isLetter, i))] + WordsFrom(text, isLetter, e)
  {
    hide DecodeRune;
  }

  // A letter run from i on starts at i, if a letter stands there, or behind the rune at e.
  lemma OutsideRuns(text: Text, isLetter: int -> bool, i: nat, e: nat, w: WordSpan)
    requires i < |text| && Boundary(text, i) && FreshAt(text, isLetter, i)
    requires e == if isLetter(ValueAt(text, i)) then RunEnd(text, isLetter, i) else i
    ensures IsLetterRun(text, isLetter, w) && i <= w.start ==>
              (w.start == i && e > i) || (e < |text| && e + DecodeRune(text[e..]).size <= w.start)
    ensures w.start == i && e > i ==>
              (IsLetterRun(text, isLetter, w) <==> w == WordSpan(i, e, AccentAhead(text, isLetter, i)))
  {
    hide DecodeRune, Boundary, RunEnd, AccentAhead;
    RunEndExact(text, isLetter, i);
    if isLetter(ValueAt(text, i)) {
      RunStarts(text, isLetter, i);
      if w.start == i {
        RunHere(text, isLetter, i, w);
      } else if IsLetterRun(text, isLetter, w) {
        NoRunInside(text, isLetter, i, e, w);
      }
    }
    if e < |text| {
      BoundaryNext(text, e);
    }
  }

  lemma FreshAfter(text: Text, isLetter: int -> bool, e: nat)
    requires e < |text| && Boundary(text, e) && !isLetter(ValueAt(text, e))
    ensures FreshAt(text, isLetter, e + DecodeRune(text[e..]).size)
  {
    hide DecodeRune, Boundary;
    BoundaryNext(text, e);
    forall p | 0 <= p < |text| && Boundary(text, p) && p + DecodeRune(text[p..]).size == e + DecodeRune(text[e..]).size
      ensures p == e
    {
      BoundaryNext(text, p);
    }
  }

  // Main result on words: the tokenizer finds exactly the maximal letter runs of the text.
  lemma WordsExact(text: Text, isLetter: int -> bool, w: WordSpan)
    ensures w in WordsFrom(text, isLetter, 0) <==> IsLetterRun(text, isLetter, w)
  {
    WordsFromExact(text, isLetter, 0, w);
  }

  datatype LintKind = Spelling | Capitalization | Structural

  // isLoanwordGateable: spelling always, capitalization for the title-case rule alone; a
  // suggestion beyond the kinds is not gateable.
  function Gateable(kinds: seq<LintKind>, titleCase: seq<bool>): (r: seq<bool>)
    ensures |r| == |titleCase|
    ensures forall i :: 0 <= i < |r| ==>
              (r[i] <==> i < |kinds| && (kinds[i].Spelling? || (kinds[i].Capitalization? && titleCase[i])))
  {
    seq(|titleCase|, i requires 0 <= i < |titleCase| =>
      i < |kinds| && (kinds[i].Spelling? || (kinds[i].Capitalization? && titleCase[i])))
  }

  // filterLoanwordFalsePositives on a text: `titleCase` says whose message names the rule.
  method FilterFalsePositives(
      text: Text, isLetter: int -> bool, sugs: seq<Suggestion>, kinds: seq<LintKind>, titleCase: seq<bool>)
      returns (out: seq<Suggestion>)
    requires |titleCase| == |sugs|
    ensures out == KeptFrom(WordsFrom(text, isLetter, 0), sugs, Gateable(kinds, titleCase), 0)
  {
    if |sugs| == 0 {
      return sugs;
    }
    var words := TokenizeWords(text, isLetter);
    var gateable := Gateable(kinds, titleCase);
    if |words| == 0 {
      KeptWithoutWords(sugs, gateable, 0);
      return sugs;
    }
    out := FilterLoanwords(words, sugs, gateable);
  }

  lemma {:induction false} KeptWithoutWords(sugs: seq<Suggestion>, gateable: seq<bool>, i: nat)
    requires |sugs| == |gateable| && i <= |sugs|
    ensures KeptFrom([], sugs, gateable, i) == sugs[i..]
    decreases |sugs| - i
  {
    if i < |sugs| {
      KeptWithoutWords(sugs, gateable, i + 1);
    }
  }

  // --- What is dropped, in positions --------------------------------------------------------------------

  // A gateable suggestion starts in word k.
  ghost predicate Gated(words: seq<WordSpan>, sugs: seq<Suggestion>, gateable: seq<bool>, k: int)
    requires 0 <= k < |words| && |sugs| == |gateable|
  {
    exists m :: 0 <= m < |sugs| && gateable[m] && words[k].start <= sugs[m].span.start < words[k].end
  }

  // A gateable suggestion that starts in word w, where every word from w on up to some accented
  // word, itself excepted, has a gateable suggestion.
  ghost predicate Drops(words: seq<WordSpan>, sugs: seq<Suggestion>, gateable: seq<bool>, i: nat, w: nat, j: nat)
    requires |sugs| == |gateable| && i < |sugs|
  {
    && gateable[i] && w < |words| && j < |words| && words[w].start <= sugs[i].span.start < words[w].end
    && words[j].accented
    && forall k :: 0 <= k < |words| && (w <= k < j || j < k <= w) ==> Gated(words, sugs, gateable, k)
  }

  lemma InOneWord(words: seq<WordSpan>, start: int, w: nat, textLen: int)
    requires Disjoint(words) && w < |words| && words[w].start <= start < words[w].end
    ensures WordIndexFrom(words, start, 0) == w
  {
  }

  ghost predicate Disjoint(words: seq<WordSpan>) {
    forall v, w :: 0 <= v < w < |words| ==> words[v].end <= words[w].start
  }

  lemma CarriesGated(words: seq<WordSpan>, sugs: seq<Suggestion>, gateable: seq<bool>, k: nat)
    requires |sugs| == |gateable| && Disjoint(words) && k < |words|
    ensures Carries(words, sugs, gateable, k) <==> Gated(words, sugs, gateable, k)
  {
    forall m | 0 <= m < |sugs| && gateable[m] && words[k].start <= sugs[m].span.start < words[k].end
      ensures GateableWord(words, sugs[m], gateable[m]) == k
    {
      InOneWord(words, sugs[m].span.start, k, 0);
    }
  }

  lemma FalsePositiveExact(words: seq<WordSpan>, sugs: seq<Suggestion>, gateable: seq<bool>, i: nat)
    requires |sugs| == |gateable| && i < |sugs| && Disjoint(words)
    ensures FalsePositive(words, sugs, gateable, i) <==> exists w, j :: Drops(words, sugs, gateable, i, w, j)
  {
    var flagged := FlaggedWords(words, sugs, gateable);
    forall k: nat | k < |words|
      ensures flagged[k] <==> Gated(words, sugs, gateable, k)
    {
      CarriesGated(words, sugs, gateable, k);
    }
    if FalsePositive(words, sugs, gateable, i) {
      var w := GateableWord(words, sugs[i], gateable[i]);
      var j :| 0 <= j < |words| && words[j].accented && FlaggedRun(flagged, w, j);
      assert Drops(words, sugs, gateable, i, w, j);
    }
    forall w: nat, j: nat | Drops(words, sugs, gateable, i, w, j)
      ensures FalsePositive(words, sugs, gateable, i)
    {
      InOneWord(words, sugs[i].span.start, w, 0);
      assert FlaggedRun(flagged, w, j);
    }
  }

  // Which places of the list are kept, in order.
  ghost predicate KeptAt(
      words: seq<WordSpan>, sugs: seq<Suggestion>, gateable: seq<bool>, from: nat, places: seq<nat>,
      out: seq<Suggestion>)
    requires |sugs| == |gateable|
  {
    && |out| == |places|
    && (forall a, b :: 0 <= a < b < |places| ==> places[a] < places[b])
    && (forall a :: 0 <= a < |places| ==> from <= places[a] < |sugs| && out[a] == sugs[places[a]])
    && (forall i: nat :: from <= i < |sugs| ==>
          (i in places <==> !exists w, j :: Drops(words, sugs, gateable, i, w, j)))
  }

  lemma {:induction false} KeptPlaces(
      words: seq<WordSpan>, sugs: seq<Suggestion>, gateable: seq<bool>, i: nat) returns (places: seq<nat>)
    requires |sugs| == |gateable| && Disjoint(words) && i <= |sugs|
    ensures KeptAt(words, sugs, gateable, i, places, KeptFrom(words, sugs, gateable, i))
    decreases |sugs| - i
  {
    if i == |sugs| {
      places := [];
    } else {
      FalsePositiveExact(words, sugs, gateable, i);
      var rest := KeptPlaces(words, sugs, gateable, i + 1);
      places := if FalsePositive(words, sugs, gateable, i) then rest else [i] + rest;
      OneMorePlace(words, sugs, gateable, i, rest, KeptFrom(words, sugs, gateable, i + 1));
    }
  }

  lemma OneMorePlace(
      words: seq<WordSpan>, sugs: seq<Suggestion>, gateable: seq<bool>, i: nat, rest: seq<nat>, out: seq<Suggestion>)
    requires |sugs| == |gateable| && i < |sugs| && KeptAt(words, sugs, gateable, i + 1, rest, out)
    ensures (exists w, j :: Drops(words, sugs, gateable, i, w, j)) ==> KeptAt(words, sugs, gateable, i, rest, out)
    ensures !(exists w, j :: Drops(words, sugs, gateable, i, w, j)) ==>
              KeptAt(words, sugs, gateable, i, [i] + rest, [sugs[i]] + out)
  {
    hide Drops;
    assert i !in rest;
    assert forall k: nat :: k in [i] + rest <==> k == i || k in rest;
  }

  // Main result on the filter: exactly the gateable suggestions in reach of an accented word
  // go, and the others stay in order.
  lemma FilterExact(text: Text, isLetter: int -> bool, sugs: seq<Suggestion>, gateable: seq<bool>)
    requires |sugs| == |gateable|
    ensures var words := WordsFrom(text, isLetter, 0);
            exists places :: KeptAt(words, sugs, gateable, 0, places, KeptFrom(words, sugs, gateable, 0))
  {
    WordsAreRuns(text, isLetter, 0);
    var places := KeptPlaces(WordsFrom(text, isLetter, 0), sugs, gateable, 0);
  }
}
