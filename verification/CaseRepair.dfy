// overedit.go: the token alignment of the over-edit repairs and RepairMidWordCaseFlip,
// which reverts an upper-cased letter inside a word. Texts are sequences of runes here.
module CaseRepair {
  type Rune = int
  type Runes = seq<Rune>

  // The Unicode tables: white space, letters and digits, per-rune lower case, simple case
  // folding, and the lower-case and upper-case classes.
  datatype Alphabet = Alphabet(
    isSpace: Rune -> bool,
    isWord: Rune -> bool,
    lower: Rune -> Rune,
    fold: Rune -> Rune,
    isLower: Rune -> bool,
    isUpper: Rune -> bool
  )

  // A token is a maximal run of non-space runes [start, end).
  datatype Token = Token(start: nat, end: nat)

  // --- Tokens --------------------------------------------------------------------------------------

  function TokenEnd(al: Alphabet, s: Runes, i: nat): (e: nat)
    requires i <= |s|
    ensures i <= e <= |s| && (e == |s| || al.isSpace(s[e]))
    ensures forall p :: i <= p < e ==> !al.isSpace(s[p])
    decreases |s| - i
  {
    if i == |s| || al.isSpace(s[i]) then i else TokenEnd(al, s, i + 1)
  }

  function TokensFrom(al: Alphabet, s: Runes, i: nat): seq<Token>
    requires i <= |s|
    decreases |s| - i
  {
    if i == |s| then []
    else if al.isSpace(s[i]) then TokensFrom(al, s, i + 1)
    else [Token(i, TokenEnd(al, s, i))] + TokensFrom(al, s, TokenEnd(al, s, i))
  }

  function Tokens(al: Alphabet, s: Runes): seq<Token> {
    TokensFrom(al, s, 0)
  }

  // tokenizeWords.
  method TokenizeWords(al: Alphabet, s: Runes) returns (tokens: seq<Token>)
    ensures tokens == Tokens(al, s)
  {
    tokens := [];
    var i := 0;
    while i < |s|
      invariant 0 <= i <= |s|
      invariant tokens + TokensFrom(al, s, i) == Tokens(al, s)
    {
      if al.isSpace(s[i]) {
        i := i + 1;
        continue;
      }
      var start := i;
      while i < |s| && !al.isSpace(s[i])
        invariant start <= i <= |s| && TokenEnd(al, s, start) == TokenEnd(al, s, i)
        decreases |s| - i
      {
        i := i + 1;
      }
      tokens := tokens + [Token(start, i)];
    }
  }

  // Ascending, disjoint, non-empty tokens inside s, together covering exactly the non-spaces.
  ghost predicate Covers(al: Alphabet, s: Runes, tokens: seq<Token>, from: nat) {
    && (forall t :: 0 <= t < |tokens| ==> from <= tokens[t].start < tokens[t].end <= |s|)
    && (forall t, u :: 0 <= t < u < |tokens| ==> tokens[t].end < tokens[u].start)
    && (forall p :: from <= p < |s| ==> (!al.isSpace(s[p]) <==> InSomeToken(tokens, p)))
  }

  ghost predicate InSomeToken(tokens: seq<Token>, p: int) {
    exists t :: 0 <= t < |tokens| && tokens[t].start <= p < tokens[t].end
  }

  lemma {:induction false} TokensCover(al: Alphabet, s: Runes, i: nat)
    requires i <= |s|
    ensures Covers(al, s, TokensFrom(al, s, i), i)
    decreases |s| - i
  {
    if i < |s| {
      var e := if al.isSpace(s[i]) then i + 1 else TokenEnd(al, s, i);
      TokensCover(al, s, e);
      var rest := TokensFrom(al, s, e);
      if !al.isSpace(s[i]) {
        CoverCons(al, s, rest, i, e);
      }
    }
  }

  lemma CoverCons(al: Alphabet, s: Runes, rest: seq<Token>, i: nat, e: nat)
    requires i < e <= |s| && Covers(al, s, rest, e) && forall p :: i <= p < e ==> !al.isSpace(s[p])
    requires e == |s| || al.isSpace(s[e])
    ensures Covers(al, s, [Token(i, e)] + rest, i)
  {
    var tokens := [Token(i, e)] + rest;
    assert forall t :: 0 < t < |tokens| ==> tokens[t] == rest[t - 1];
    assert e < |s| ==> !InSomeToken(rest, e);
    assert forall t :: 0 <= t < |rest| ==> e < rest[t].start;
    forall p | i <= p < |s|
      ensures !al.isSpace(s[p]) <==> InSomeToken(tokens, p)
    {
      if p < e {
        assert tokens[0].start <= p < tokens[0].end;
      } else if t :| 0 <= t < |rest| && rest[t].start <= p < rest[t].end {
        assert tokens[t + 1] == rest[t];
      }
    }
  }

  // Tokens depend on where the spaces are, and on nothing else.
  lemma {:induction false} SameSpacesSameTokens(al: Alphabet, s: Runes, s': Runes, i: nat)
    requires |s| == |s'| && i <= |s|
    requires forall p :: 0 <= p < |s| ==> (al.isSpace(s[p]) <==> al.isSpace(s'[p]))
    ensures TokensFrom(al, s, i) == TokensFrom(al, s', i)
    decreases |s| - i
  {
    if i < |s| {
      if al.isSpace(s[i]) {
        SameSpacesSameTokens(al, s, s', i + 1);
      } else {
        var e, e' := TokenEnd(al, s, i), TokenEnd(al, s', i);
        SameSpacesSameTokens(al, s, s', e);
      }
    }
  }

  // --- Alignment ---------------------------------------------------------------------------------------

  function TextOf(s: Runes, t: Token): Runes {
    if t.start <= t.end <= |s| then s[t.start..t.end] else []
  }

  function LowerOf(al: Alphabet, t: Runes): (r: Runes)
    ensures |r| == |t|
  {
    seq(|t|, i requires 0 <= i < |t| => al.lower(t[i]))
  }

  // The alignment key of each token.
  function Keys(al: Alphabet, s: Runes): (r: seq<Runes>)
    ensures |r| == |Tokens(al, s)|
  {
    var tokens := Tokens(al, s);
    seq(|tokens|, i requires 0 <= i < |tokens| => LowerOf(al, TextOf(s, tokens[i])))
  }

  // The first index at or after `from` holding the key, or |keys|.
  function FirstAt(keys: seq<Runes>, key: Runes, from: nat): (j: nat)
    requires from <= |keys|
    ensures from <= j <= |keys| && (j < |keys| ==> keys[j] == key)
    ensures forall m :: from <= m < j ==> keys[m] != key
    decreases |keys| - from
  {
    if from == |keys| || keys[from] == key then from else FirstAt(keys, key, from + 1)
  }

  // Leftmost pairing: each original token with the earliest equal one after the last match.
  function Aligned(orig: seq<Runes>, corr: seq<Runes>, i: nat, from: nat): seq<(nat, nat)>
    requires i <= |orig| && from <= |corr|
    decreases |orig| - i
  {
    if i == |orig| then []
    else
      var j := FirstAt(corr, orig[i], from);
      if j == |corr| then Aligned(orig, corr, i + 1, from)
      else [(i, j)] + Aligned(orig, corr, i + 1, j + 1)
  }

  ghost predicate Ascends(js: seq<nat>) {
    forall m, n :: 0 <= m < n < |js| ==> js[m] < js[n]
  }

  // Where each key occurs, in ascending order.
  ghost predicate Indexes(corr: seq<Runes>, n: nat, positions: map<Runes, seq<nat>>)
    requires n <= |corr|
  {
    && (forall j :: 0 <= j < n ==> corr[j] in positions && j in positions[corr[j]])
    && (forall key :: key in positions ==> Lists(corr, n, key, positions[key]))
  }

  ghost predicate Lists(corr: seq<Runes>, n: nat, key: Runes, js: seq<nat>)
    requires n <= |corr|
  {
    Ascends(js) && forall m :: 0 <= m < |js| ==> js[m] < n && corr[js[m]] == key
  }

  method IndexPositions(corr: seq<Runes>) returns (positions: map<Runes, seq<nat>>)
    ensures Indexes(corr, |corr|, positions)
  {
    positions := map[];
    for j := 0 to |corr|
      invariant Indexes(corr, j, positions)
    {
      var key := corr[j];
      var at := if key in positions then positions[key] else [];
      IndexOne(corr, j, positions, at);
      positions := positions[key := at + [j]];
    }
  }

  lemma NoneListed(corr: seq<Runes>, n: nat, key: Runes)
    requires n <= |corr|
    ensures Lists(corr, n, key, [])
  {
  }

  lemma ListsGrow(corr: seq<Runes>, n: nat, key: Runes, js: seq<nat>)
    requires n < |corr| && Lists(corr, n, key, js)
    ensures Lists(corr, n + 1, key, js)
    ensures corr[n] == key ==> Lists(corr, n + 1, key, js + [n])
  {
  }

  lemma IndexOne(corr: seq<Runes>, j: nat, positions: map<Runes, seq<nat>>, at: seq<nat>)
    requires j < |corr| && Indexes(corr, j, positions)
    requires at == if corr[j] in positions then positions[corr[j]] else []
    ensures Indexes(corr, j + 1, positions[corr[j] := at + [j]])
  {
    hide Lists;
    var key := corr[j];
    var positions' := positions[key := at + [j]];
    forall other | other in positions'
      ensures Lists(corr, j + 1, other, positions'[other])
    {
      if key !in positions {
        NoneListed(corr, j, key);
      }
      ListsGrow(corr, j, other, if other == key then at else positions[other]);
    }
    forall m | 0 <= m < j + 1
      ensures corr[m] in positions' && m in positions'[corr[m]]
    {
      if m < j {
        assert m in positions[corr[m]];
      }
    }
  }

  // The first listed position at or after `from`, or `none`.
  method FirstListed(js: seq<nat>, from: nat, none: nat) returns (j: nat)
    requires Ascends(js)
    ensures j == none || (j in js && j >= from)
    ensures forall m :: m in js && m >= from ==> j <= m && j in js
  {
    for n := 0 to |js|
      invariant forall m :: 0 <= m < n ==> js[m] < from
    {
      if js[n] >= from {
        assert forall m :: m in js && m >= from ==> js[n] <= m;
        return js[n];
      }
    }
    return none;
  }

  // alignTokensFold (alignTokens is the same with the token texts themselves as keys).
  method AlignTokens(orig: seq<Runes>, corr: seq<Runes>) returns (pairs: seq<(nat, nat)>)
    ensures pairs == Aligned(orig, corr, 0, 0)
  {
    var positions := IndexPositions(corr);
    pairs := [];
    var from: nat := 0;   // lastJ + 1
    for i := 0 to |orig|
      invariant from <= |corr|
      invariant pairs + Aligned(orig, corr, i, from) == Aligned(orig, corr, 0, 0)
    {
      var js := if orig[i] in positions then positions[orig[i]] else [];
      var j := FirstListed(js, from, |corr|);
      ListedIsFirst(orig[i], corr, positions, js, from, j);
      if j < |corr| {
        pairs := pairs + [(i, j)];
        from := j + 1;
      }
    }
  }

  lemma ListedIsFirst(key: Runes, corr: seq<Runes>, positions: map<Runes, seq<nat>>, js: seq<nat>, from: nat, j: nat)
    requires from <= |corr| && Indexes(corr, |corr|, positions)
    requires js == if key in positions then positions[key] else []
    requires j == |corr| || (j in js && j >= from)
    requires forall m :: m in js && m >= from ==> j <= m && j in js
    ensures j == FirstAt(corr, key, from)
  {
    var f := FirstAt(corr, key, from);
    assert Lists(corr, |corr|, key, js);
    if f < |corr| {
      assert corr[f] in positions && f in js;
    }
  }

  // Strictly increasing in both coordinates, and paired tokens have equal keys.
  lemma {:induction false} AlignedIncreasing(orig: seq<Runes>, corr: seq<Runes>, i: nat, from: nat)
    requires i <= |orig| && from <= |corr|
    ensures Increasing(orig, corr, Aligned(orig, corr, i, from), i, from)
    decreases |orig| - i
  {
    if i < |orig| {
      var j := FirstAt(corr, orig[i], from);
      var pairs := Aligned(orig, corr, i, from);
      var rest := Aligned(orig, corr, i + 1, if j == |corr| then from else j + 1);
      AlignedIncreasing(orig, corr, i + 1, if j == |corr| then from else j + 1);
      if j < |corr| {
        assert forall k :: 0 < k < |pairs| ==> pairs[k] == rest[k - 1];
      }
    }
  }

  ghost predicate Increasing(orig: seq<Runes>, corr: seq<Runes>, pairs: seq<(nat, nat)>, i: nat, from: nat) {
    && (forall k :: 0 <= k < |pairs| ==>
          i <= pairs[k].0 < |orig| && from <= pairs[k].1 < |corr| && orig[pairs[k].0] == corr[pairs[k].1])
    && (forall k, m :: 0 <= k < m < |pairs| ==> pairs[k].0 < pairs[m].0 && pairs[k].1 < pairs[m].1)
  }

  // --- The rule ------------------------------------------------------------------------------------------

  // splitTrailingPunctuation: the length of the part up to the last letter or digit.
  function CoreLen(al: Alphabet, t: Runes): (n: nat)
    ensures n <= |t|
  {
    if t == [] then 0
    else if al.isWord(t[|t| - 1]) then |t|
    else CoreLen(al, t[..|t| - 1])
  }

  // A bare case flip inside a word: same tail, same fold, same first rune, and every
  // difference is lower case in the original and upper case in the corrected token.
  predicate CaseFlipped(al: Alphabet, orig: Runes, corr: Runes) {
    var n, m := CoreLen(al, orig), CoreLen(al, corr);
    && orig[n..] == corr[m..]
    && orig[..n] != corr[..m]
    && n == m && n > 0
    && (forall r :: 0 <= r < n ==> al.fold(orig[r]) == al.fold(corr[r]))
    && orig[0] == corr[0]
    && (forall r :: 1 <= r < n ==> orig[r] == corr[r] || (al.isLower(orig[r]) && al.isUpper(corr[r])))
  }

  function Previous(pairs: seq<(nat, nat)>, k: nat): (int, int)
    requires k <= |pairs|
  {
    if k == 0 then (-1, -1) else (pairs[k - 1].0 as int, pairs[k - 1].1 as int)
  }

  // As many tokens on both sides before the k-th match, and after it.
  predicate Balanced(pairs: seq<(nat, nat)>, k: nat, origCount: nat, corrCount: nat)
    requires k < |pairs|
  {
    var (i, j) := pairs[k];
    var (pi, pj) := Previous(pairs, k);
    var (ni, nj) := if k + 1 < |pairs| then pairs[k + 1] else (origCount, corrCount);
    i - pi == j - pj && ni - i == nj - j
  }

  datatype Splice = Splice(start: int, end: int, text: Runes)

  function Pairs(al: Alphabet, original: Runes, corrected: Runes): seq<(nat, nat)> {
    Aligned(Keys(al, original), Keys(al, corrected), 0, 0)
  }

  // The k-th match is reverted.
  predicate Verdict(al: Alphabet, original: Runes, corrected: Runes, k: nat)
    requires k < |Pairs(al, original, corrected)|
  {
    var pairs := Pairs(al, original, corrected);
    var ot, ct := Tokens(al, original), Tokens(al, corrected);
    && Balanced(pairs, k, |ot|, |ct|)
    && pairs[k].0 < |ot| && pairs[k].1 < |ct|
    && CaseFlipped(al, TextOf(original, ot[pairs[k].0]), TextOf(corrected, ct[pairs[k].1]))
  }

  function SpliceFor(al: Alphabet, original: Runes, corrected: Runes, k: nat): Splice
    requires k < |Pairs(al, original, corrected)| && Verdict(al, original, corrected, k)
  {
    var (i, j) := Pairs(al, original, corrected)[k];
    var token := Tokens(al, corrected)[j];
    Splice(token.start, token.end, TextOf(original, Tokens(al, original)[i]))
  }

  function SplicesFrom(al: Alphabet, original: Runes, corrected: Runes, k: nat): seq<Splice>
    decreases |Pairs(al, original, corrected)| - k
  {
    if k >= |Pairs(al, original, corrected)| then []
    else if Verdict(al, original, corrected, k) then
      [SpliceFor(al, original, corrected, k)] + SplicesFrom(al, original, corrected, k + 1)
    else SplicesFrom(al, original, corrected, k + 1)
  }

  // Every splice replaces a range of s by a text of the same length.
  ghost predicate Fits(s: Runes, splices: seq<Splice>) {
    forall k :: 0 <= k < |splices| ==>
      0 <= splices[k].start <= splices[k].end <= |s| && |splices[k].text| == splices[k].end - splices[k].start
  }

  // Applied last to first.
  ghost function Applied(s: Runes, splices: seq<Splice>): (r: Runes)
    requires Fits(s, splices)
    ensures |r| == |s|
  {
    if splices == [] then s
    else
      assert forall k :: 0 <= k < |splices[1..]| ==> splices[1..][k] == splices[k + 1];
      var out := Applied(s, splices[1..]);
      out[..splices[0].start] + splices[0].text + out[splices[0].end..]
  }

  lemma {:induction false} SplicesFit(al: Alphabet, original: Runes, corrected: Runes, k: nat)
    ensures Fits(corrected, SplicesFrom(al, original, corrected, k))
    decreases |Pairs(al, original, corrected)| - k
  {
    hide Pairs, Verdict, SpliceFor, Fits;
    if k < |Pairs(al, original, corrected)| {
      SplicesFit(al, original, corrected, k + 1);
      if Verdict(al, original, corrected, k) {
        SpliceFits(al, original, corrected, k);
        FitsCons(corrected, SpliceFor(al, original, corrected, k), SplicesFrom(al, original, corrected, k + 1));
      }
    } else {
      NothingFits(corrected);
    }
  }

  lemma NothingFits(s: Runes)
    ensures Fits(s, [])
  {
  }

  lemma FitsCons(s: Runes, first: Splice, rest: seq<Splice>)
    requires 0 <= first.start <= first.end <= |s| && |first.text| == first.end - first.start
    requires Fits(s, rest)
    ensures Fits(s, [first] + rest)
  {
    assert forall m :: 0 < m < |[first] + rest| ==> ([first] + rest)[m] == rest[m - 1];
  }

  lemma SpliceFits(al: Alphabet, original: Runes, corrected: Runes, k: nat)
    requires k < |Pairs(al, original, corrected)| && Verdict(al, original, corrected, k)
    ensures var sp := SpliceFor(al, original, corrected, k);
            0 <= sp.start <= sp.end <= |corrected| && |sp.text| == sp.end - sp.start
  {
    var (i, j) := Pairs(al, original, corrected)[k];
    var orig, corr := TextOf(original, Tokens(al, original)[i]), TextOf(corrected, Tokens(al, corrected)[j]);
    TokensCover(al, corrected, 0);
    FlipKeepsLength(al, orig, corr);
  }

  lemma FlipKeepsLength(al: Alphabet, orig: Runes, corr: Runes)
    requires CaseFlipped(al, orig, corr)
    ensures |orig| == |corr|
  {
    assert |orig[CoreLen(al, orig)..]| == |corr[CoreLen(al, corr)..]|;
  }

  ghost function Repaired(al: Alphabet, original: Runes, corrected: Runes): Runes {
    if original == corrected then corrected
    else
      SplicesFit(al, original, corrected, 0);
      Applied(corrected, SplicesFrom(al, original, corrected, 0))
  }

  // The guards of the loop, for one match.
  method CheckMatch(al: Alphabet, original: Runes, corrected: Runes, origTokens: seq<Token>, corrTokens: seq<Token>,
                    matches: seq<(nat, nat)>, k: nat, prevI: int, prevJ: int) returns (revert: bool)
    requires matches == Pairs(al, original, corrected) && k < |matches|
    requires origTokens == Tokens(al, original) && corrTokens == Tokens(al, corrected)
    requires (prevI, prevJ) == Previous(matches, k)
    requires matches[k].0 < |origTokens| && matches[k].1 < |corrTokens|
    ensures revert == Verdict(al, original, corrected, k)
  {
    var (i, j) := matches[k];
    if i - prevI != j - prevJ {
      return false;
    }
    var nextI, nextJ := |origTokens|, |corrTokens|;
    if k + 1 < |matches| {
      nextI, nextJ := matches[k + 1].0, matches[k + 1].1;
    }
    if nextI - i != nextJ - j {
      return false;
    }
    return CaseFlipped(al, TextOf(original, origTokens[i]), TextOf(corrected, corrTokens[j]));
  }

  // RepairMidWordCaseFlip.
  method RepairMidWordCaseFlip(al: Alphabet, original: Runes, corrected: Runes) returns (out: Runes)
    ensures out == Repaired(al, original, corrected)
  {
    if original == corrected {
      return corrected;
    }
    var origTokens := TokenizeWords(al, original);
    var corrTokens := TokenizeWords(al, corrected);
    var matches := AlignTokens(Keys(al, original), Keys(al, corrected));
    AlignedIncreasing(Keys(al, original), Keys(al, corrected), 0, 0);
    var splices: seq<Splice> := [];
    var prevI: int, prevJ: int := -1, -1;
    ghost var goal := SplicesFrom(al, original, corrected, 0);
    for k := 0 to |matches|
      invariant (prevI, prevJ) == Previous(matches, k)
      invariant splices + SplicesFrom(al, original, corrected, k) == goal
    {
      var (i, j) := matches[k];
      var revert := CheckMatch(al, original, corrected, origTokens, corrTokens, matches, k, prevI, prevJ);
      prevI, prevJ := i, j;
      if !revert {
        continue;
      }
      var splice := Splice(corrTokens[j].start, corrTokens[j].end, TextOf(original, origTokens[i]));
      ghost var rest := SplicesFrom(al, original, corrected, k + 1);
      assert splices + ([splice] + rest) == splices + [splice] + rest;
      splices := splices + [splice];
    }
    assert splices + [] == splices == goal;
    SplicesFit(al, original, corrected, 0);
    out := ApplySplices(corrected, splices);
  }

  method ApplySplices(s: Runes, splices: seq<Splice>) returns (out: Runes)
    requires Fits(s, splices)
    ensures out == Applied(s, splices)
  {
    out := s;
    var i := |splices|;
    while i > 0
      invariant 0 <= i <= |splices|
      invariant Fits(s, splices[i..]) && out == Applied(s, splices[i..])
    {
      i := i - 1;
      var sp := splices[i];
      assert splices[i..][0] == sp && splices[i..][1..] == splices[i + 1..];
      assert forall k :: 0 <= k < |splices[i..]| ==> splices[i..][k] == splices[i + k];
      out := out[..sp.start] + sp.text + out[sp.end..];
    }
    assert splices[0..] == splices;
  }

  // --- Properties ------------------------------------------------------------------------------------------

  // The rune at p: the first splice over it, or the old rune.
  ghost function Overwritten(s: Runes, splices: seq<Splice>, p: nat): Rune
    requires Fits(s, splices) && p < |s|
    decreases |splices|
  {
    if splices == [] then s[p]
    else
      assert forall k :: 0 <= k < |splices[1..]| ==> splices[1..][k] == splices[k + 1];
      if splices[0].start <= p < splices[0].end then splices[0].text[p - splices[0].start]
      else Overwritten(s, splices[1..], p)
  }

  lemma {:induction false} AppliedAt(s: Runes, splices: seq<Splice>, p: nat)
    requires Fits(s, splices) && p < |s|
    ensures Applied(s, splices)[p] == Overwritten(s, splices, p)
    decreases |splices|
  {
    if splices != [] {
      assert forall k :: 0 <= k < |splices[1..]| ==> splices[1..][k] == splices[k + 1];
      AppliedAt(s, splices[1..], p);
    }
  }

  // Match k reverts the token that holds position p.
  ghost predicate RevertsAt(al: Alphabet, original: Runes, corrected: Runes, k: nat, p: int) {
    && k < |Pairs(al, original, corrected)| && Verdict(al, original, corrected, k)
    && SpliceFor(al, original, corrected, k).start <= p < SpliceFor(al, original, corrected, k).end
  }

  // r is what the splices from match k on leave at p.
  ghost predicate Explains(al: Alphabet, original: Runes, corrected: Runes, k: nat, p: nat, r: Rune)
    requires p < |corrected|
  {
    || (r == corrected[p] && forall m :: m >= k ==> !RevertsAt(al, original, corrected, m, p))
    || (exists m :: m >= k && RevertsTo(al, original, corrected, m, p, r))
  }

  ghost predicate RevertsTo(al: Alphabet, original: Runes, corrected: Runes, m: nat, p: nat, r: Rune) {
    && RevertsAt(al, original, corrected, m, p)
    && var sp := SpliceFor(al, original, corrected, m);
       |sp.text| == sp.end - sp.start && r == sp.text[p - sp.start]
  }

  lemma {:induction false} OverwrittenBy(al: Alphabet, original: Runes, corrected: Runes, k: nat, p: nat)
    requires p < |corrected|
    requires Fits(corrected, SplicesFrom(al, original, corrected, k))
    ensures Explains(al, original, corrected, k, p, Overwritten(corrected, SplicesFrom(al, original, corrected, k), p))
    decreases |Pairs(al, original, corrected)| - k
  {
    hide Pairs, Verdict, SpliceFor;
    if k < |Pairs(al, original, corrected)| {
      var splices, rest := SplicesFrom(al, original, corrected, k), SplicesFrom(al, original, corrected, k + 1);
      if RevertsAt(al, original, corrected, k, p) {
        var sp := SpliceFor(al, original, corrected, k);
        assert splices[0] == sp;
        assert RevertsTo(al, original, corrected, k, p, sp.text[p - sp.start]);
      } else {
        SplicesFit(al, original, corrected, k + 1);
        OverwrittenBy(al, original, corrected, k + 1, p);
        assert splices != rest ==> splices[1..] == rest;
        var r := Overwritten(corrected, rest, p);
      }
    }
  }

  // Everything known about the k-th match.
  lemma PairFacts(al: Alphabet, original: Runes, corrected: Runes, k: nat)
    requires k < |Pairs(al, original, corrected)|
    ensures var pairs := Pairs(al, original, corrected);
            var ot, ct := Tokens(al, original), Tokens(al, corrected);
            && pairs[k].0 < |ot| && pairs[k].1 < |ct|
            && ot[pairs[k].0].end <= |original| && ct[pairs[k].1].end <= |corrected|
            && LowerOf(al, TextOf(original, ot[pairs[k].0])) == LowerOf(al, TextOf(corrected, ct[pairs[k].1]))
            && forall m :: 0 <= m < |pairs| && m != k ==> pairs[m].1 != pairs[k].1
  {
    AlignedIncreasing(Keys(al, original), Keys(al, corrected), 0, 0);
    TokensCover(al, original, 0);
    TokensCover(al, corrected, 0);
    var pairs := Pairs(al, original, corrected);
    assert Keys(al, original)[pairs[k].0] == Keys(al, corrected)[pairs[k].1];
    forall m | 0 <= m < |pairs| && m != k
      ensures pairs[m].1 != pairs[k].1
    {
      if m < k {
        assert pairs[m].1 < pairs[k].1;
      } else {
        assert pairs[k].1 < pairs[m].1;
      }
    }
  }

  // Only match k itself can revert a position of its token.
  lemma RevertsOwnToken(al: Alphabet, original: Runes, corrected: Runes, k: nat, m: nat, p: nat)
    requires k < |Pairs(al, original, corrected)| && RevertsAt(al, original, corrected, m, p)
    requires var token := TokenOf(al, original, corrected, k); token.start <= p < token.end
    ensures m == k
  {
    PairFacts(al, original, corrected, k);
    PairFacts(al, original, corrected, m);
    TokensCover(al, corrected, 0);
    var ct, pairs := Tokens(al, corrected), Pairs(al, original, corrected);
    assert SpliceFor(al, original, corrected, m).start == ct[pairs[m].1].start;
  }

  // The corrected token of match k.
  function TokenOf(al: Alphabet, original: Runes, corrected: Runes, k: nat): Token
    requires k < |Pairs(al, original, corrected)|
  {
    PairFacts(al, original, corrected, k);
    Tokens(al, corrected)[Pairs(al, original, corrected)[k].1]
  }

  // A changed rune: what it was, what it is, and where.
  ghost predicate FlippedBack(al: Alphabet, corrected: Runes, p: nat, r: Rune)
    requires p < |corrected|
  {
    && al.isUpper(corrected[p]) && al.isLower(r) && al.lower(r) == al.lower(corrected[p]) && !al.isSpace(r)
    && exists t :: 0 <= t < |Tokens(al, corrected)|
         && Tokens(al, corrected)[t].start < p < Tokens(al, corrected)[t].end
  }

  // Inside a flipped token a rune is either kept, or an inner one that was raised.
  lemma FlipAt(al: Alphabet, orig: Runes, corr: Runes, d: nat)
    requires CaseFlipped(al, orig, corr) && d < |orig| && d < |corr|
    ensures orig[d] == corr[d] || (d >= 1 && al.isLower(orig[d]) && al.isUpper(corr[d]))
  {
    var n := CoreLen(al, orig);
    if d >= n {
      assert orig[n..][d - n] == corr[n..][d - n];
    }
  }

  lemma TokenRune(al: Alphabet, s: Runes, t: nat, d: nat)
    requires t < |Tokens(al, s)| && d < |TextOf(s, Tokens(al, s)[t])|
    ensures var token := Tokens(al, s)[t];
            && token.start + d < token.end <= |s| && !al.isSpace(s[token.start + d])
            && TextOf(s, token)[d] == s[token.start + d]
  {
    TokensCover(al, s, 0);
    var token := Tokens(al, s)[t];
    assert token.start <= token.start + d < token.end;
    assert InSomeToken(Tokens(al, s), token.start + d);
  }

  lemma RevertFlips(al: Alphabet, original: Runes, corrected: Runes, m: nat, p: nat, r: Rune)
    requires p < |corrected| && RevertsTo(al, original, corrected, m, p, r)
    ensures r == corrected[p] || FlippedBack(al, corrected, p, r)
  {
    hide Tokens, Balanced, CaseFlipped;
    PairFacts(al, original, corrected, m);
    var pair := Pairs(al, original, corrected)[m];
    var ot, ct := Tokens(al, original)[pair.0], Tokens(al, corrected)[pair.1];
    var orig, corr := TextOf(original, ot), TextOf(corrected, ct);
    var d := p - ct.start;
    assert |LowerOf(al, orig)| == |LowerOf(al, corr)|;
    TokenRune(al, original, pair.0, d);
    TokenRune(al, corrected, pair.1, d);
    assert LowerOf(al, orig)[d] == LowerOf(al, corr)[d];
    FlipAt(al, orig, corr, d);
    if r != corrected[p] {
      assert ct.start < p < ct.end;
    }
  }

  // Main result on the shape of the repair: same length, so same places; every changed rune
  // goes from upper to lower case, and is never the first of its token.
  lemma RepairOnlyLowers(al: Alphabet, original: Runes, corrected: Runes)
    ensures var out := Repaired(al, original, corrected);
            && |out| == |corrected|
            && (forall p :: 0 <= p < |out| ==> out[p] == corrected[p] || FlippedBack(al, corrected, p, out[p]))
  {
    if original != corrected {
      var splices := SplicesFrom(al, original, corrected, 0);
      SplicesFit(al, original, corrected, 0);
      var out := Applied(corrected, splices);
      forall p | 0 <= p < |out|
        ensures out[p] == corrected[p] || FlippedBack(al, corrected, p, out[p])
      {
        AppliedAt(corrected, splices, p);
        OverwrittenBy(al, original, corrected, 0, p);
        if m: nat :| RevertsTo(al, original, corrected, m, p, out[p]) {
          RevertFlips(al, original, corrected, m, p, out[p]);
        }
      }
    }
  }

  lemma RepairKeepsSpaces(al: Alphabet, original: Runes, corrected: Runes)
    ensures var out := Repaired(al, original, corrected);
            && |out| == |corrected|
            && (forall p :: 0 <= p < |out| ==> (al.isSpace(out[p]) <==> al.isSpace(corrected[p])))
  {
    hide Repaired, Tokens;
    var out := Repaired(al, original, corrected);
    RepairOnlyLowers(al, original, corrected);
    forall p | 0 <= p < |out|
      ensures al.isSpace(out[p]) <==> al.isSpace(corrected[p])
    {
      if FlippedBack(al, corrected, p, out[p]) {
        var t :| 0 <= t < |Tokens(al, corrected)| && Tokens(al, corrected)[t].start < p < Tokens(al, corrected)[t].end;
        TokenHoldsNoSpace(al, corrected, t, p);
      }
    }
  }

  lemma TokenHoldsNoSpace(al: Alphabet, s: Runes, t: nat, p: nat)
    requires t < |Tokens(al, s)| && p < |s| && Tokens(al, s)[t].start <= p < Tokens(al, s)[t].end
    ensures !al.isSpace(s[p])
  {
    TokensCover(al, s, 0);
    assert InSomeToken(Tokens(al, s), p);
  }

  // White space, token boundaries and alignment keys stay as they are.
  lemma RepairKeepsTokens(al: Alphabet, original: Runes, corrected: Runes)
    ensures var out := Repaired(al, original, corrected);
            && |out| == |corrected|
            && (forall p :: 0 <= p < |out| ==> (al.isSpace(out[p]) <==> al.isSpace(corrected[p])))
            && Tokens(al, out) == Tokens(al, corrected)
            && Keys(al, out) == Keys(al, corrected)
  {
    hide Repaired;
    var out := Repaired(al, original, corrected);
    RepairKeepsSpaces(al, original, corrected);
    SameSpacesSameTokens(al, corrected, out, 0);
    RepairOnlyLowers(al, original, corrected);
    SameLowerSameKeys(al, corrected, out);
  }

  lemma SameLowerSameKeys(al: Alphabet, s: Runes, s': Runes)
    requires |s| == |s'| && Tokens(al, s) == Tokens(al, s')
    requires forall p :: 0 <= p < |s| ==> al.lower(s[p]) == al.lower(s'[p])
    ensures Keys(al, s) == Keys(al, s')
  {
    hide Tokens;
    var tokens := Tokens(al, s);
    forall t | 0 <= t < |tokens|
      ensures Keys(al, s')[t] == Keys(al, s)[t]
    {
      var a, b := TextOf(s', tokens[t]), TextOf(s, tokens[t]);
      assert forall d :: 0 <= d < |a| ==> a[d] == s'[tokens[t].start + d] && b[d] == s[tokens[t].start + d];
      assert LowerOf(al, a) == LowerOf(al, b);
    }
  }

  // What the repair makes of the token of match k.
  function TextFor(al: Alphabet, original: Runes, corrected: Runes, k: nat): (r: Runes)
    requires k < |Pairs(al, original, corrected)|
    ensures |r| == |TextOf(corrected, TokenOf(al, original, corrected, k))|
  {
    PairFacts(al, original, corrected, k);
    var orig := TextOf(original, Tokens(al, original)[Pairs(al, original, corrected)[k].0]);
    var corr := TextOf(corrected, TokenOf(al, original, corrected, k));
    assert |LowerOf(al, orig)| == |LowerOf(al, corr)|;
    if Verdict(al, original, corrected, k) then orig else corr
  }

  lemma RuneAfterRepair(al: Alphabet, original: Runes, corrected: Runes, k: nat, d: nat)
    requires original != corrected && k < |Pairs(al, original, corrected)|
    requires d < |TextFor(al, original, corrected, k)|
    ensures var p := TokenOf(al, original, corrected, k).start + d;
            p < |Repaired(al, original, corrected)| == |corrected|
            && Repaired(al, original, corrected)[p] == TextFor(al, original, corrected, k)[d]
  {
    hide Pairs, Verdict, SplicesFrom, Explains;
    PairFacts(al, original, corrected, k);
    var token := TokenOf(al, original, corrected, k);
    var p := token.start + d;
    var splices := SplicesFrom(al, original, corrected, 0);
    SplicesFit(al, original, corrected, 0);
    AppliedAt(corrected, splices, p);
    OverwrittenBy(al, original, corrected, 0, p);
    ExplainsMatch(al, original, corrected, k, d, Overwritten(corrected, splices, p));
  }

  lemma ExplainsMatch(al: Alphabet, original: Runes, corrected: Runes, k: nat, d: nat, r: Rune)
    requires k < |Pairs(al, original, corrected)| && d < |TextFor(al, original, corrected, k)|
    requires TokenOf(al, original, corrected, k).start + d < |corrected|
    requires Explains(al, original, corrected, 0, TokenOf(al, original, corrected, k).start + d, r)
    ensures r == TextFor(al, original, corrected, k)[d]
  {
    hide Pairs, Verdict, Tokens, Explains;
    var token := TokenOf(al, original, corrected, k);
    if Verdict(al, original, corrected, k) {
      ExplainsReverted(al, original, corrected, k, token.start + d, r);
    } else {
      ExplainsUntouched(al, original, corrected, k, token.start + d, r);
    }
  }

  lemma ExplainsUntouched(al: Alphabet, original: Runes, corrected: Runes, k: nat, p: nat, r: Rune)
    requires k < |Pairs(al, original, corrected)| && !Verdict(al, original, corrected, k)
    requires p < |corrected| && Explains(al, original, corrected, 0, p, r)
    requires var token := TokenOf(al, original, corrected, k); token.start <= p < token.end
    ensures r == corrected[p]
  {
    if m: nat :| RevertsTo(al, original, corrected, m, p, r) {
      RevertsOwnToken(al, original, corrected, k, m, p);
      assert false;
    }
  }

  lemma ExplainsReverted(al: Alphabet, original: Runes, corrected: Runes, k: nat, p: nat, r: Rune)
    requires k < |Pairs(al, original, corrected)| && Verdict(al, original, corrected, k)
    requires p < |corrected| && Explains(al, original, corrected, 0, p, r)
    requires var token := TokenOf(al, original, corrected, k); token.start <= p < token.end
    ensures var sp := SpliceFor(al, original, corrected, k);
            && sp.start == TokenOf(al, original, corrected, k).start <= p < sp.start + |sp.text|
            && r == sp.text[p - sp.start]
  {
    hide Pairs, Verdict, Tokens;
    assert RevertsAt(al, original, corrected, k, p);
    var m: nat :| RevertsTo(al, original, corrected, m, p, r);
    RevertsOwnToken(al, original, corrected, k, m, p);
  }

  // After the repair a reverted token reads as in the original, any other matched token as before.
  lemma TokenAfterRepair(al: Alphabet, original: Runes, corrected: Runes, k: nat)
    requires original != corrected && k < |Pairs(al, original, corrected)|
    ensures TextOf(Repaired(al, original, corrected), TokenOf(al, original, corrected, k))
         == TextFor(al, original, corrected, k)
  {
    hide Pairs, Verdict, Repaired, TextFor;
    PairFacts(al, original, corrected, k);
    TokensCover(al, corrected, 0);
    RepairOnlyLowers(al, original, corrected);
    var goal := TextFor(al, original, corrected, k);
    var text := TextOf(Repaired(al, original, corrected), TokenOf(al, original, corrected, k));
    forall d | 0 <= d < |goal|
      ensures text[d] == goal[d]
    {
      RuneAfterRepair(al, original, corrected, k, d);
    }
  }

  // A second run finds nothing to revert.
  lemma RepairIdempotent(al: Alphabet, original: Runes, corrected: Runes)
    ensures var out := Repaired(al, original, corrected);
            Repaired(al, original, out) == out
  {
    var out := Repaired(al, original, corrected);
    if original != corrected && original != out {
      RepairKeepsTokens(al, original, corrected);
      var pairs := Pairs(al, original, corrected);
      assert Pairs(al, original, out) == pairs;
      forall k | 0 <= k < |pairs|
        ensures !Verdict(al, original, out, k)
      {
        PairFacts(al, original, corrected, k);
        TokenAfterRepair(al, original, corrected, k);
      }
      NoVerdictNoSplices(al, original, out, 0);
    }
  }

  lemma {:induction false} NoVerdictNoSplices(al: Alphabet, original: Runes, corrected: Runes, k: nat)
    requires forall m :: k <= m < |Pairs(al, original, corrected)| ==> !Verdict(al, original, corrected, m)
    ensures SplicesFrom(al, original, corrected, k) == []
    decreases |Pairs(al, original, corrected)| - k
  {
    if k < |Pairs(al, original, corrected)| {
      NoVerdictNoSplices(al, original, corrected, k + 1);
    }
  }

  // --- Which tokens are reverted, place by place -----------------------------------------------------

  // n is behind the last letter or digit.
  predicate EndsCore(al: Alphabet, t: Runes, n: nat) {
    n <= |t| && (n > 0 ==> al.isWord(t[n - 1])) && forall p :: n <= p < |t| ==> !al.isWord(t[p])
  }

  lemma {:induction false} CoreEnds(al: Alphabet, t: Runes, n: nat)
    ensures EndsCore(al, t, n) <==> n == CoreLen(al, t)
    decreases |t|
  {
    if t != [] {
      var last := |t| - 1;
      CoreEnds(al, t[..last], n);
      if !al.isWord(t[last]) && n <= last {
        assert t == t[..last] + [t[last]];
      }
    }
  }

  // As long, and different; equal behind the last letter or digit, and at the first rune; and
  // before it equal but for case, each difference a small letter raised.
  predicate Raised(al: Alphabet, orig: Runes, corr: Runes, n: nat) {
    && 0 < n && |orig| == |corr| && orig != corr && EndsCore(al, orig, n) && EndsCore(al, corr, n)
    && orig[0] == corr[0]
    && (forall p :: n <= p < |orig| ==> orig[p] == corr[p])
    && (forall p :: 0 <= p < n ==> al.fold(orig[p]) == al.fold(corr[p]))
    && (forall p :: 0 <= p < n && orig[p] != corr[p] ==> al.isLower(orig[p]) && al.isUpper(corr[p]))
  }

  lemma FlippedExact(al: Alphabet, orig: Runes, corr: Runes)
    ensures CaseFlipped(al, orig, corr) <==> exists n :: Raised(al, orig, corr, n)
  {
    if CaseFlipped(al, orig, corr) {
      FlippedIsRaised(al, orig, corr);
    }
    forall n | Raised(al, orig, corr, n)
      ensures CaseFlipped(al, orig, corr)
    {
      RaisedIsFlipped(al, orig, corr, n);
    }
  }

  lemma FlippedIsRaised(al: Alphabet, orig: Runes, corr: Runes)
    requires CaseFlipped(al, orig, corr)
    ensures Raised(al, orig, corr, CoreLen(al, orig))
  {
    var n := CoreLen(al, orig);
    CoreEnds(al, orig, n);
    CoreEnds(al, corr, n);
    FlipKeepsLength(al, orig, corr);
    forall p | n <= p < |orig|
      ensures orig[p] == corr[p]
    {
      assert orig[n..][p - n] == corr[n..][p - n];
    }
  }

  lemma RaisedIsFlipped(al: Alphabet, orig: Runes, corr: Runes, n: nat)
    requires Raised(al, orig, corr, n)
    ensures CaseFlipped(al, orig, corr)
  {
    CoreEnds(al, orig, n);
    CoreEnds(al, corr, n);
    assert orig[n..] == corr[n..];
    HalvesDecide(orig, corr, n);
  }

  lemma HalvesDecide(a: Runes, b: Runes, n: nat)
    requires n <= |a| && n <= |b|
    ensures a[..n] == b[..n] && a[n..] == b[n..] ==> a == b
  {
    assert a == a[..n] + a[n..] && b == b[..n] + b[n..];
  }

  // One past the last corrected token paired with an original token before m.
  function UsedBefore(pairs: seq<(nat, nat)>, m: nat, from: nat): nat {
    if pairs == [] || pairs[0].0 >= m then from else UsedBefore(pairs[1..], m, pairs[0].1 + 1)
  }

  // Pairing is greedy: a token is paired with j exactly when j is the earliest equal token
  // that no token before it has used up.
  lemma {:induction false} AlignedGreedy(orig: seq<Runes>, corr: seq<Runes>, i: nat, from: nat, m: nat, j: nat)
    requires i <= m < |orig| && from <= |corr|
    ensures var pairs := Aligned(orig, corr, i, from);
            var used := UsedBefore(pairs, m, from);
            (m, j) in pairs <==>
              used <= j < |corr| && corr[j] == orig[m] && forall q :: used <= q < j ==> corr[q] != orig[m]
    decreases |orig| - i
  {
    hide Aligned, UsedBefore, FirstAt;
    var f := FirstAt(corr, orig[i], from);
    HeadPair(orig, corr, i, from, m, j);
    if i < m {
      AlignedGreedy(orig, corr, i + 1, if f == |corr| then from else f + 1, m, j);
    } else {
      FirstIsEarliest(corr, orig[i], from, j);
    }
  }

  // What the first step of the pairing settles about token m.
  lemma HeadPair(orig: seq<Runes>, corr: seq<Runes>, i: nat, from: nat, m: nat, j: nat)
    requires i <= m < |orig| && from <= |corr|
    ensures var pairs, f := Aligned(orig, corr, i, from), FirstAt(corr, orig[i], from);
            var next := if f == |corr| then from else f + 1;
            var rest := Aligned(orig, corr, i + 1, next);
            && (i < m ==> ((m, j) in pairs <==> (m, j) in rest)
                          && UsedBefore(pairs, m, from) == UsedBefore(rest, m, next))
            && (i == m ==> ((m, j) in pairs <==> j == f < |corr|) && UsedBefore(pairs, m, from) == from)
  {
    hide FirstAt;
    var f := FirstAt(corr, orig[i], from);
    var next := if f == |corr| then from else f + 1;
    AlignedIncreasing(orig, corr, i + 1, next);
    var rest := Aligned(orig, corr, i + 1, next);
    assert f < |corr| ==> ([(i, f)] + rest)[1..] == rest;
    assert (i, j) !in rest;
  }

  lemma FirstIsEarliest(keys: seq<Runes>, key: Runes, from: nat, j: nat)
    requires from <= |keys|
    ensures j == FirstAt(keys, key, from) < |keys|
       <==> from <= j < |keys| && keys[j] == key && forall q :: from <= q < j ==> keys[q] != key
  {
  }

  // Match k is reverted exactly when as many tokens lie between it and its neighbouring matches
  // in both texts, and its token has an inner letter raised and nothing else changed.
  lemma VerdictExact(al: Alphabet, original: Runes, corrected: Runes, k: nat)
    requires k < |Pairs(al, original, corrected)|
    ensures var pairs, ot, ct := Pairs(al, original, corrected), Tokens(al, original), Tokens(al, corrected);
            var (i, j) := pairs[k];
            && i < |ot| && j < |ct|
            && (Verdict(al, original, corrected, k) <==>
                  && (if k == 0 then i == j else i - pairs[k - 1].0 == j - pairs[k - 1].1)
                  && (if k + 1 == |pairs| then |ot| - i == |ct| - j else pairs[k + 1].0 - i == pairs[k + 1].1 - j)
                  && exists n :: Raised(al, TextOf(original, ot[i]), TextOf(corrected, ct[j]), n))
  {
    hide Pairs, Tokens, CaseFlipped, Raised;
    PairFacts(al, original, corrected, k);
    var (i, j) := Pairs(al, original, corrected)[k];
    FlippedExact(al, TextOf(original, Tokens(al, original)[i]), TextOf(corrected, Tokens(al, corrected)[j]));
  }
}
