// gector/decode.go: group tagged subwords into words and turn each word's tag into an edit.
// Establishes what the pass translator assumes of every pass: ordered, valid spans.
module Decode {
  import opened Edits
  import Passes

  const SPACE: Byte := 32

  // The tags of the model's label set, by form.
  datatype Tag =
    | Keep | Oov | NoTag | Delete
    | Replace(with: Text) | Append(with: Text)
    | CaseCapital | CaseLower | Singular | Plural
    | Transform(fromTo: Text)
    | Other

  // One subword of the tokenizer, with its byte span and the model's tag for it.
  datatype Entity = Entity(word: Text, tag: Tag, start: nat, end: nat, score: real)

  // Character classes and word forms are foreign.
  datatype Morphology = Morphology(
    hasLetterOrDigit: Text -> bool,
    startsWithLetterOrDigit: Text -> bool,
    capital: Text -> Text,
    lower: Text -> Text,
    singular: Text -> Text,
    plural: Text -> Text,
    verb: (Text, Text) -> Option<Text>
  )

  // --- Grouping --------------------------------------------------------------------------------

  // The word-boundary markers U+0120 and U+2581 in UTF-8.
  const LEADER: Text := [0xC4, 0xA0]
  const ALT_LEADER: Text := [0xE2, 0x96, 0x81]

  predicate HasLeader(sub: Text) {
    LEADER <= sub || ALT_LEADER <= sub
  }

  // stripBoundary.
  function Stripped(sub: Text): Text {
    if LEADER <= sub then sub[2..] else if ALT_LEADER <= sub then sub[3..] else sub
  }

  predicate Continues(m: Morphology, e: Entity) {
    !HasLeader(e.word) && m.hasLetterOrDigit(Stripped(e.word))
  }

  // A word is its subwords; its tag and start are the first's, its end the last's.
  type Word = w: seq<Entity> | w != [] witness [Entity([], Keep, 0, 0, 0.0)]

  function WordText(w: seq<Entity>): Text {
    if w == [] then [] else WordText(w[..|w| - 1]) + Stripped(w[|w| - 1].word)
  }

  function Joined(words: seq<Word>): seq<Entity> {
    if words == [] then [] else Joined(words[..|words| - 1]) + words[|words| - 1]
  }

  // Words cover the subwords in order; a new word starts exactly where a subword does not
  // continue the one before.
  ghost predicate IsGrouping(m: Morphology, words: seq<Word>, entities: seq<Entity>) {
    && Joined(words) == entities
    && (forall i :: 0 < i < |words| ==> !Continues(m, words[i][0]))
    && (forall i :: 0 <= i < |words| ==> TailContinues(m, words[i]))
  }

  predicate TailContinues(m: Morphology, w: Word) {
    forall k :: 0 < k < |w| ==> Continues(m, w[k])
  }

  // The grouping loop.
  method GroupWords(m: Morphology, entities: seq<Entity>) returns (words: seq<Word>)
    ensures IsGrouping(m, words, entities)
  {
    hide Continues, TailContinues, Joined;
    words := [];
    if entities == [] {
      NoWords();
      return;
    }
    NoWords();
    var cur: seq<Entity> := [];
    for i := 0 to |entities|
      invariant cur == [] <==> i == 0
      invariant cur == [] ==> words == []
      invariant Joined(words) + cur == entities[..i]
      invariant cur != [] ==> TailContinues(m, cur) && (words != [] ==> !Continues(m, cur[0]))
      invariant forall k :: 0 < k < |words| ==> !Continues(m, words[k][0])
      invariant forall k :: 0 <= k < |words| ==> TailContinues(m, words[k])
    {
      var e := entities[i];
      assert entities[..i + 1] == entities[..i] + [e];
      TailGrows(m, cur, e);
      if cur == [] || !Continues(m, e) {
        if cur != [] {
          JoinedSnoc(words, cur);
          words := words + [cur];
        }
        cur := [e];
      } else {
        cur := cur + [e];
      }
    }
    JoinedSnoc(words, cur);
    words := words + [cur];
    assert entities[..|entities|] == entities;
  }

  lemma NoWords()
    ensures Joined([]) == []
  {
  }

  lemma JoinedSnoc(words: seq<Word>, last: Word)
    ensures Joined(words + [last]) == Joined(words) + last
  {
    assert (words + [last])[..|words|] == words;
  }

  lemma TailGrows(m: Morphology, cur: seq<Entity>, e: Entity)
    ensures TailContinues(m, [e])
    ensures cur != [] && TailContinues(m, cur) && Continues(m, e) ==>
              TailContinues(m, cur + [e]) && (cur + [e])[0] == cur[0]
  {
  }

  // There is only one grouping, so the loop's answer is determined by the rule.
  lemma {:induction false} GroupingUnique(m: Morphology, a: seq<Word>, b: seq<Word>, entities: seq<Entity>)
    requires IsGrouping(m, a, entities) && IsGrouping(m, b, entities)
    ensures a == b
    decreases |a|
  {
    if a == [] || b == [] {
      JoinedNonEmpty(a);
      JoinedNonEmpty(b);
    } else {
      var ra, rb := a[..|a| - 1], b[..|b| - 1];
      var la, lb := a[|a| - 1], b[|b| - 1];
      LastWordNoLonger(m, a, b, entities);
      LastWordNoLonger(m, b, a, entities);
      assert la == entities[|entities| - |la|..] == lb;
      assert Joined(ra) == entities[..|entities| - |la|] == Joined(rb);
      GroupingUnique(m, ra, rb, Joined(ra));
      assert a == ra + [la] && b == rb + [lb];
    }
  }

  lemma JoinedNonEmpty(words: seq<Word>)
    ensures Joined(words) == [] <==> words == []
  {
  }

  lemma LastWordNoLonger(m: Morphology, a: seq<Word>, b: seq<Word>, entities: seq<Entity>)
    requires IsGrouping(m, a, entities) && IsGrouping(m, b, entities) && a != [] && b != []
    ensures |a[|a| - 1]| <= |b[|b| - 1]|
  {
    if |b[|b| - 1]| < |a[|a| - 1]| {
      InsideContinues(m, a, entities, |b[|b| - 1]|);
    }
    LastStarts(m, b, entities);
  }

  lemma InsideContinues(m: Morphology, words: seq<Word>, entities: seq<Entity>, k: nat)
    requires IsGrouping(m, words, entities) && words != [] && 0 < k < |words[|words| - 1]|
    ensures k < |entities| && Continues(m, entities[|entities| - k])
  {
    var last := words[|words| - 1];
    assert TailContinues(m, last);
    assert entities[|entities| - k] == last[|last| - k];
  }

  lemma LastStarts(m: Morphology, words: seq<Word>, entities: seq<Entity>)
    requires IsGrouping(m, words, entities) && words != []
    ensures var k := |words[|words| - 1]|;
            k <= |entities| && (k == |entities| || !Continues(m, entities[|entities| - k]))
  {
    var last := words[|words| - 1];
    assert entities[|entities| - |last|] == last[0];
    if |words| == 1 {
      JoinedNonEmpty(words[..|words| - 1]);
    }
  }

  // --- Tags --------------------------------------------------------------------------------------

  // appendNeedsLeadingSpace; "n't" attaches.
  predicate NeedsLeadingSpace(m: Morphology, appended: Text) {
    appended != [] && appended != [110, 39, 116] && m.startsWithLetterOrDigit(appended)
  }

  // applyTag: the pieces a word becomes.
  function Pieces(m: Morphology, word: Text, tag: Tag): seq<Text> {
    match tag
    case Keep | Oov | NoTag | Other => [word]
    case Delete => []
    case Replace(with) => [with]
    case Append(with) => [word, if NeedsLeadingSpace(m, with) then [SPACE] + with else with]
    case CaseCapital => [m.capital(m.lower(word))]
    case CaseLower => [m.lower(word)]
    case Singular => [m.singular(word)]
    case Plural => [m.plural(word)]
    case Transform(fromTo) =>
      match m.verb(word, fromTo)
      case Some(target) => [target]
      case None => [word]
  }

  function Concat(pieces: seq<Text>): Text {
    if pieces == [] then [] else pieces[0] + Concat(pieces[1..])
  }

  predicate SentenceInitial(words: seq<Word>, i: nat)
    requires i < |words|
  {
    i == 0 || WordText(words[i - 1]) in {[46], [33], [63]}
  }

  // The replacement the i-th word's tag asks for, if it asks for a change.
  function Change(m: Morphology, words: seq<Word>, i: nat): Option<Text>
    requires i < |words|
  {
    var tag, word := words[i][0].tag, WordText(words[i]);
    if tag.CaseLower? && SentenceInitial(words, i) then None
    else
      var pieces := Pieces(m, word, tag);
      if pieces == [word] then None else Some(Concat(pieces))
  }

  // --- Emission --------------------------------------------------------------------------------------

  function WordStart(w: Word): nat { w[0].start }

  function WordEnd(w: Word): nat { w[|w| - 1].end }

  // A replacing edit leaves the word's leading space outside its span.
  function EditSpan(text: Text, w: Word, repl: Text): Span {
    var start, end := WordStart(w), WordEnd(w);
    if repl != [] && start < end && start < |text| && text[start] == SPACE then Span(start + 1, end)
    else Span(start, end)
  }

  // The edit of the i-th word; a span outside the text is dropped.
  function Edit(text: Text, m: Morphology, words: seq<Word>, i: nat): Option<Suggestion>
    requires i < |words|
  {
    match Change(m, words, i)
    case None => None
    case Some(repl) =>
      var span := EditSpan(text, words[i], repl);
      if span.Valid(|text|) then Some(Suggestion(span, repl, GECToR, Unknown, words[i][0].score)) else None
  }

  function Emitted(text: Text, m: Morphology, words: seq<Word>, i: nat): seq<Suggestion>
    requires i <= |words|
    decreases |words| - i
  {
    if i == |words| then []
    else
      match Edit(text, m, words, i)
      case None => Emitted(text, m, words, i + 1)
      case Some(s) => [s] + Emitted(text, m, words, i + 1)
  }

  // One turn of the emit loop.
  method EditOf(text: Text, m: Morphology, words: seq<Word>, i: nat) returns (edit: Option<Suggestion>)
    requires i < |words|
    ensures edit == Edit(text, m, words, i)
  {
    var w := words[i];
    var tag, wordText := w[0].tag, WordText(w);
    if tag.CaseLower? {
      var sentenceInitial := i == 0;
      if i > 0 {
        var prev := WordText(words[i - 1]);
        sentenceInitial := prev == [46] || prev == [33] || prev == [63];
      }
      if sentenceInitial {
        return None;
      }
    }
    var pieces := Pieces(m, wordText, tag);
    if |pieces| == 1 && pieces[0] == wordText {
      return None;
    }
    var repl := Concat(pieces);
    var start, end := w[0].start, w[|w| - 1].end;
    if repl != [] && start < end && start < |text| && text[start] == SPACE {
      start := start + 1;
    }
    var span := Span(start, end);
    if !span.Valid(|text|) {
      return None;
    }
    edit := Some(Suggestion(span, repl, GECToR, Unknown, w[0].score));
  }

  // The emit loop.
  method Emit(text: Text, m: Morphology, words: seq<Word>) returns (out: seq<Suggestion>)
    ensures out == Emitted(text, m, words, 0)
  {
    out := [];
    ghost var goal := Emitted(text, m, words, 0);
    for i := 0 to |words|
      invariant out + Emitted(text, m, words, i) == goal
    {
      var edit := EditOf(text, m, words, i);
      EmittedStep(text, m, words, i, out);
      if edit.Some? {
        out := out + [edit.value];
      }
    }
  }

  lemma EmittedStep(text: Text, m: Morphology, words: seq<Word>, i: nat, out: seq<Suggestion>)
    requires i < |words|
    ensures (if Edit(text, m, words, i).Some? then out + [Edit(text, m, words, i).value] else out)
            + Emitted(text, m, words, i + 1)
         == out + Emitted(text, m, words, i)
  {
  }

  // decodeToSuggestions.
  method DecodeToSuggestions(text: Text, m: Morphology, entities: seq<Entity>)
      returns (out: seq<Suggestion>)
    ensures DecodesFrom(m, text, entities, out)
  {
    var words := GroupWords(m, entities);
    out := Emit(text, m, words);
    assert IsGrouping(m, words, entities) && out == Emitted(text, m, words, 0);
  }

  // The list is what the one grouping of the subwords emits.
  ghost predicate DecodesFrom(m: Morphology, text: Text, entities: seq<Entity>, out: seq<Suggestion>) {
    exists words :: IsGrouping(m, words, entities) && out == Emitted(text, m, words, 0)
  }

  lemma DecodedIsDetermined(m: Morphology, text: Text, entities: seq<Entity>, a: seq<Suggestion>, b: seq<Suggestion>)
    requires DecodesFrom(m, text, entities, a) && DecodesFrom(m, text, entities, b)
    ensures a == b
  {
    var v :| IsGrouping(m, v, entities) && a == Emitted(text, m, v, 0);
    var w :| IsGrouping(m, w, entities) && b == Emitted(text, m, w, 0);
    GroupingUnique(m, v, w, entities);
  }

  // --- Ordered spans -----------------------------------------------------------------------------------

  // What the tokenizer provides: spans in text order that do not run into each other.
  ghost predicate TokensAscend(entities: seq<Entity>) {
    && (forall i :: 0 <= i < |entities| ==> entities[i].start <= entities[i].end)
    && (forall i :: 0 < i < |entities| ==> entities[i - 1].end <= entities[i].start)
  }

  // The same of words.
  predicate WordsAscend(words: seq<Word>, i: nat, from: int)
    requires i <= |words|
    decreases |words| - i
  {
    i == |words| ||
    (from <= WordStart(words[i]) <= WordEnd(words[i]) && WordsAscend(words, i + 1, WordEnd(words[i])))
  }

  lemma {:induction false} TokensRise(entities: seq<Entity>, j: nat, k: nat)
    requires TokensAscend(entities) && j <= k < |entities|
    ensures entities[j].start <= entities[k].end && (j < k ==> entities[j].end <= entities[k].start)
    decreases k
  {
    if j < k {
      TokensRise(entities, j, k - 1);
    }
  }

  // Where the i-th word's subwords sit among all subwords.
  lemma {:induction false} JoinedAt(words: seq<Word>, i: nat)
    requires i < |words|
    ensures |Joined(words[..i])| + |words[i]| <= |Joined(words)|
    ensures Joined(words)[|Joined(words[..i])|..|Joined(words[..i])| + |words[i]|] == words[i]
    ensures |Joined(words[..i + 1])| == |Joined(words[..i])| + |words[i]|
    decreases |words|
  {
    var init := words[..|words| - 1];
    assert words[..i + 1][..i] == words[..i];
    if i < |words| - 1 {
      JoinedAt(init, i);
      assert init[..i] == words[..i];
    }
  }

  lemma {:induction false} WordsFollowTokens(words: seq<Word>, i: nat)
    requires i <= |words| && TokensAscend(Joined(words))
    ensures WordsAscend(words, i, if i == 0 then 0 else WordEnd(words[i - 1]))
    decreases |words| - i
  {
    if i < |words| {
      WordsFollowTokens(words, i + 1);
      WordWithin(words, i);
      if i > 0 {
        WordAfter(words, i);
      }
    }
  }

  // The subwords a word starts and ends with, found among all subwords.
  lemma WordEdges(words: seq<Word>, i: nat) returns (base: nat)
    requires i < |words|
    ensures base == |Joined(words[..i])| && base + |words[i]| <= |Joined(words)|
    ensures Joined(words)[base] == words[i][0]
    ensures Joined(words)[base + |words[i]| - 1] == words[i][|words[i]| - 1]
  {
    JoinedAt(words, i);
    base := |Joined(words[..i])|;
    var slice := Joined(words)[base..base + |words[i]|];
    assert slice[0] == Joined(words)[base] && slice[|words[i]| - 1] == Joined(words)[base + |words[i]| - 1];
  }

  lemma WordWithin(words: seq<Word>, i: nat)
    requires i < |words| && TokensAscend(Joined(words))
    ensures WordStart(words[i]) <= WordEnd(words[i])
  {
    hide Joined, TokensAscend;
    var base := WordEdges(words, i);
    TokensRise(Joined(words), base, base + |words[i]| - 1);
  }

  lemma WordAfter(words: seq<Word>, i: nat)
    requires 0 < i < |words| && TokensAscend(Joined(words))
    ensures WordEnd(words[i - 1]) <= WordStart(words[i])
  {
    hide Joined, TokensAscend;
    var before := WordEdges(words, i - 1);
    var base := WordEdges(words, i);
    assert base == before + |words[i - 1]| by { JoinedAt(words, i - 1); }
    TokensRise(Joined(words), base - 1, base);
  }

  lemma {:induction false} EmittedOrdered(text: Text, m: Morphology, words: seq<Word>, i: nat, from: nat)
    requires i <= |words| && WordsAscend(words, i, from) && from <= |text|
    ensures Ordered(Emitted(text, m, words, i), from, |text|)
    decreases |words| - i
  {
    if i < |words| {
      var s := Edit(text, m, words, i);
      if s.Some? {
        EmittedOrdered(text, m, words, i + 1, WordEnd(words[i]));
      } else if WordEnd(words[i]) <= |text| {
        EmittedOrdered(text, m, words, i + 1, WordEnd(words[i]));
        OrderedWiden(Emitted(text, m, words, i + 1), WordEnd(words[i]), |text|, from, |text|);
      } else {
        NothingBeyond(text, m, words, i + 1, WordEnd(words[i]));
      }
    }
  }

  // Words past the end of the text emit nothing.
  lemma {:induction false} NothingBeyond(text: Text, m: Morphology, words: seq<Word>, i: nat, from: int)
    requires i <= |words| && WordsAscend(words, i, from) && |text| < from
    ensures Emitted(text, m, words, i) == []
    decreases |words| - i
  {
    if i < |words| {
      NothingBeyond(text, m, words, i + 1, WordEnd(words[i]));
    }
  }

  // Main result: whatever the tags, tokens in text order decode to ordered, valid edits.
  lemma DecodedOrdered(text: Text, m: Morphology, words: seq<Word>, entities: seq<Entity>)
    requires IsGrouping(m, words, entities) && TokensAscend(entities)
    ensures Ordered(Emitted(text, m, words, 0), 0, |text|)
  {
    WordsFollowTokens(words, 0);
    EmittedOrdered(text, m, words, 0, 0);
  }

  // --- What the edits do -----------------------------------------------------------------------------------

  // A word's place in the decoded text: as it was, gone with its leading space, or replaced
  // behind its leading space.
  function Rendered(text: Text, m: Morphology, words: seq<Word>, i: nat): Text
    requires i < |words| && WordStart(words[i]) <= WordEnd(words[i]) <= |text|
  {
    var start, end := WordStart(words[i]), WordEnd(words[i]);
    match Change(m, words, i)
    case None => text[start..end]
    case Some(repl) =>
      if repl == [] then []
      else if start < end && text[start] == SPACE then [SPACE] + repl
      else repl
  }

  // The text with every word rendered and everything between words kept.
  function RenderedFrom(text: Text, m: Morphology, words: seq<Word>, i: nat, from: nat): Text
    requires i <= |words| && WordsAscend(words, i, from) && from <= |text|
    requires forall k :: i <= k < |words| ==> WordEnd(words[k]) <= |text|
    decreases |words| - i
  {
    if i == |words| then text[from..]
    else
      text[from..WordStart(words[i])] + Rendered(text, m, words, i)
      + RenderedFrom(text, m, words, i + 1, WordEnd(words[i]))
  }

  // One word's edit, seen from the end of the word before.
  lemma WordRendered(text: Text, m: Morphology, words: seq<Word>, i: nat, from: nat)
    requires i < |words| && from <= WordStart(words[i]) <= WordEnd(words[i]) <= |text|
    ensures var place := text[from..WordStart(words[i])] + Rendered(text, m, words, i);
            var edit := Edit(text, m, words, i);
            if edit.None? then text[from..WordEnd(words[i])] == place
            else text[from..edit.value.span.start] + edit.value.replacement == place
  {
  }

  // Main result: applying the decoded edits renders each word by its own tag in place, and
  // touches nothing else; a deleted word takes its leading space with it.
  lemma {:induction false} DecodedRewrites(text: Text, m: Morphology, words: seq<Word>, i: nat, from: nat)
    requires i <= |words| && WordsAscend(words, i, from) && from <= |text|
    requires forall k :: i <= k < |words| ==> WordEnd(words[k]) <= |text|
    ensures Ordered(Emitted(text, m, words, i), from, |text|)
    ensures Rewrite(text, from, |text|, Emitted(text, m, words, i)) == RenderedFrom(text, m, words, i, from)
    decreases |words| - i
  {
    EmittedOrdered(text, m, words, i, from);
    if i < |words| {
      var start, end := WordStart(words[i]), WordEnd(words[i]);
      DecodedRewrites(text, m, words, i + 1, end);
      var rest := Emitted(text, m, words, i + 1);
      if Edit(text, m, words, i) == None {
        RewriteConcat(text, [], rest, from, end, |text|);
        assert [] + rest == rest;
      }
      WordRendered(text, m, words, i, from);
    }
  }

  // --- What the tags and markers mean ----------------------------------------------------------------------

  // The subword without its boundary marker.
  lemma StrippedExact(sub: Text, rest: Text)
    ensures Stripped([0xC4, 0xA0] + rest) == rest && Stripped([0xE2, 0x96, 0x81] + rest) == rest
    ensures !([0xC4, 0xA0] <= sub) && !([0xE2, 0x96, 0x81] <= sub) ==> Stripped(sub) == sub
  {
    assert ([0xC4, 0xA0] + rest)[2..] == rest && ([0xE2, 0x96, 0x81] + rest)[3..] == rest;
    assert ([0xE2, 0x96, 0x81] + rest)[0] == 0xE2;
  }

  // A word's text is that of its subwords, in order.
  lemma WordTextExact(w: seq<Entity>, e: Entity)
    ensures WordText([]) == [] && WordText(w + [e]) == WordText(w) + Stripped(e.word)
  {
    assert (w + [e])[..|w|] == w;
  }

  // Word i starts at subword k.
  ghost predicate StartsAt(words: seq<Word>, i: nat, k: nat) {
    i < |words| && |Joined(words[..i])| == k
  }

  // A new word starts exactly at the first subword, at one with a boundary marker, and at one
  // without a letter or digit.
  lemma WordStartsIff(m: Morphology, words: seq<Word>, entities: seq<Entity>, k: nat)
    requires IsGrouping(m, words, entities) && k < |entities|
    ensures var sub := entities[k].word;
            (exists i :: StartsAt(words, i, k)) <==>
              k == 0 || [0xC4, 0xA0] <= sub || [0xE2, 0x96, 0x81] <= sub || !m.hasLetterOrDigit(Stripped(sub))
  {
    var i, d := WordHolding(words, k);
    JoinedAt(words, i);
    var base := |Joined(words[..i])|;
    assert Joined(words)[base..base + |words[i]|][d] == words[i][d];
    assert entities[k] == words[i][d];
    if d == 0 {
      assert StartsAt(words, i, k);
      if i == 0 {
        assert words[..0] == [];
      } else {
        assert !Continues(m, words[i][0]);
      }
    } else {
      assert TailContinues(m, words[i]) && Continues(m, words[i][d]);
      forall j: nat
        ensures !StartsAt(words, j, k)
      {
        if j < |words| {
          StartsApart(words, i, j);
        }
      }
    }
  }

  lemma {:induction false} WordHolding(words: seq<Word>, k: nat) returns (i: nat, d: nat)
    requires k < |Joined(words)|
    ensures i < |words| && d < |words[i]| && |Joined(words[..i])| + d == k
    decreases |words|
  {
    var front := words[..|words| - 1];
    if k < |Joined(front)| {
      i, d := WordHolding(front, k);
      assert front[..i] == words[..i];
    } else {
      i, d := |words| - 1, k - |Joined(front)|;
    }
  }

  // No word starts inside another.
  lemma {:induction false} StartsApart(words: seq<Word>, i: nat, j: nat)
    requires i < |words| && j < |words|
    ensures j <= i ==> |Joined(words[..j])| <= |Joined(words[..i])|
    ensures i < j ==> |Joined(words[..i])| + |words[i]| <= |Joined(words[..j])|
    decreases if i < j then j - i else i - j
  {
    if i + 1 < j {
      StartsApart(words, i, j - 1);
      JoinedAt(words, j - 1);
    } else if i < j {
      JoinedAt(words, i);
    } else if j < i {
      StartsApart(words, i - 1, j);
      JoinedAt(words, i - 1);
    }
  }

  // What the tag of a word wants in its place, for the tags that may want something else.
  predicate Wants(m: Morphology, tag: Tag, word: Text, target: Text) {
    || (tag.Replace? && target == tag.with)
    || (tag.Append? && target == word + (if tag.with != [] && tag.with != [110, 39, 116]
                                            && m.startsWithLetterOrDigit(tag.with)
                                         then [32] + tag.with else tag.with))
    || (tag.CaseCapital? && target == m.capital(m.lower(word)))
    || (tag.CaseLower? && target == m.lower(word))
    || (tag.Singular? && target == m.singular(word))
    || (tag.Plural? && target == m.plural(word))
    || (tag.Transform? && m.verb(word, tag.fromTo) == Some(target))
  }

  // A tag that wants nothing changed.
  predicate Idle(m: Morphology, tag: Tag, word: Text) {
    tag.Keep? || tag.Oov? || tag.NoTag? || tag.Other? || (tag.Transform? && m.verb(word, tag.fromTo) == None)
  }

  // The first word, or one behind a full stop, an exclamation or a question mark.
  predicate Initial(words: seq<Word>, i: nat)
    requires i < |words|
  {
    i == 0 || WordText(words[i - 1]) == [46] || WordText(words[i - 1]) == [33] || WordText(words[i - 1]) == [63]
  }

  // The edit that puts the target in the word's place, a leading space left outside the span
  // unless nothing is put there; none if the span is not in the text.
  predicate PutsThere(text: Text, w: Word, target: Text, edit: Option<Suggestion>) {
    var start, end := w[0].start, w[|w| - 1].end;
    var from := if target != [] && start < end && start < |text| && text[start] == 32 then start + 1 else start;
    edit == if from <= end <= |text| then Some(Suggestion(Span(from, end), target, GECToR, Unknown, w[0].score))
            else None
  }

  // Main result on tags: deleting puts nothing in the word's place; a tag that wants the word
  // changed puts that there, unless it is a lower-casing at the start of a sentence; no other
  // tag edits.
  lemma TagsExact(text: Text, m: Morphology, words: seq<Word>, i: nat, target: Text)
    requires i < |words|
    ensures var w, tag, word := words[i], words[i][0].tag, WordText(words[i]);
            var kept := (tag.CaseLower? && Initial(words, i)) || (!tag.Append? && target == word);
            && (tag.Delete? ==> PutsThere(text, w, [], Edit(text, m, words, i)))
            && (Wants(m, tag, word, target) && !kept ==> PutsThere(text, w, target, Edit(text, m, words, i)))
            && (Wants(m, tag, word, target) && kept ==> Edit(text, m, words, i) == None)
            && (Idle(m, tag, word) ==> Edit(text, m, words, i) == None)
  {
    hide Change, Wants;
    ChangeExact(m, words, i, target);
  }

  lemma ChangeExact(m: Morphology, words: seq<Word>, i: nat, target: Text)
    requires i < |words|
    ensures var tag, word := words[i][0].tag, WordText(words[i]);
            var kept := (tag.CaseLower? && Initial(words, i)) || (!tag.Append? && target == word);
            && (tag.Delete? ==> Change(m, words, i) == Some([]))
            && (Wants(m, tag, word, target) ==> Change(m, words, i) == if kept then None else Some(target))
            && (Idle(m, tag, word) ==> Change(m, words, i) == None)
  {
    hide Concat, WordText;
    var tag, word := words[i][0].tag, WordText(words[i]);
    OneOrTwo(target, word, if tag.Append? then tag.with else []);
    OneOrTwo(target, word, if tag.Append? then [SPACE] + tag.with else []);
  }

  lemma OneOrTwo(a: Text, b: Text, c: Text)
    ensures Concat([a]) == a && Concat([b, c]) == b + c && Concat([]) == []
    ensures [b, c] != [b] && ([a] == [b] <==> a == b)
  {
    assert [a][1..] == [] && [b, c][1..] == [c] && [c][1..] == [];
    assert [a][0] == a && [b][0] == b;
  }

  // --- The pass loop's hypothesis --------------------------------------------------------------------------

  // Inference decodes tokens that are in text order.
  ghost predicate Decodes(m: Morphology, infer: Text -> Option<seq<Suggestion>>) {
    forall t :: infer(t).Some? ==>
      exists entities :: TokensAscend(entities) && DecodesFrom(m, t, entities, infer(t).value)
  }

  lemma PassesDecodeOrdered(m: Morphology, infer: Text -> Option<seq<Suggestion>>)
    requires Decodes(m, infer)
    ensures Passes.DecodesOrdered(infer)
  {
    forall t | infer(t).Some?
      ensures Ordered(infer(t).value, 0, |t|)
    {
      var entities :| TokensAscend(entities) && DecodesFrom(m, t, entities, infer(t).value);
      var words :| IsGrouping(m, words, entities) && infer(t).value == Emitted(t, m, words, 0);
      DecodedOrdered(t, m, words, entities);
    }
  }
}
