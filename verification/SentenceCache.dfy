// sentence_cache.go and the sentence path of Service.Correct: per-sentence answers are
// memoised by content, copied on the way in and out, and shifted in place by each caller.
module SentenceCaching {
  import opened Edits
  import opened Reassembly
  import opened Segments

  // --- The key ---------------------------------------------------------------------------------

  // Everything that can change a sentence's answer.
  datatype Fields = Fields(baseModel: Text, system: Text, sentence: Text, context: Text, picky: bool)

  // The bytes that are hashed; the hash itself is taken to be injective.
  function Encode(f: Fields): Text {
    f.baseModel + ([0] + (f.system + ([0] + (f.sentence + ([0] + (f.context + ([0] + if f.picky then [1] else [])))))))
  }

  function Nuls(t: Text): nat {
    if t == [] then 0 else (if t[0] == 0 then 1 else 0) + Nuls(t[1..])
  }

  // NUL bytes in the sentence alone.
  predicate Delimited(f: Fields) {
    Nuls(f.baseModel) == Nuls(f.system) == Nuls(f.context) == 0
  }

  // No two of these fields share a key.
  ghost predicate Unambiguous(used: iset<Fields>) {
    forall f, g :: f in used && g in used && Encode(f) == Encode(g) ==> f == g
  }

  // Field by field, the same number of NUL bytes.
  predicate SameNuls(f: Fields, g: Fields) {
    && Nuls(f.baseModel) == Nuls(g.baseModel) && Nuls(f.system) == Nuls(g.system)
    && Nuls(f.sentence) == Nuls(g.sentence) && Nuls(f.context) == Nuls(g.context)
  }

  lemma {:induction false} NulsConcat(a: Text, b: Text)
    ensures Nuls(a + b) == Nuls(a) + Nuls(b)
  {
    if a == [] {
      assert a + b == b;
    } else {
      assert (a + b)[1..] == a[1..] + b;
      NulsConcat(a[1..], b);
    }
  }

  // A separator is found again by counting NULs.
  lemma SeparatorUnique(a: Text, x: Text, b: Text, y: Text)
    requires a + ([0] + x) == b + ([0] + y) && Nuls(a) == Nuls(b)
    ensures a == b && x == y
  {
    var whole := a + ([0] + x);
    assert whole[|a|] == 0 && whole[|b|] == 0;
    assert whole[..|a|] == a && whole[..|b|] == b;
    assert whole[|a| + 1..] == x && whole[|b| + 1..] == y;
    EqualPrefixNuls(whole, |a|, |b|);
    EqualPrefixNuls(whole, |b|, |a|);
  }

  lemma EqualPrefixNuls(whole: Text, m: nat, n: nat)
    requires m < |whole| && n <= |whole| && whole[m] == 0 && Nuls(whole[..m]) == Nuls(whole[..n])
    ensures n <= m
  {
    if m < n {
      PrefixNuls(whole, m, n);
    }
  }

  lemma PrefixNuls(whole: Text, m: nat, n: nat)
    requires m < n <= |whole| && whole[m] == 0
    ensures Nuls(whole[..m]) < Nuls(whole[..n])
  {
    assert whole[..n] == whole[..m] + ([whole[m]] + whole[m + 1..n]);
    NulsConcat(whole[..m], [whole[m]] + whole[m + 1..n]);
  }

  lemma EncodeNuls(f: Fields)
    ensures Nuls(Encode(f)) == 4 + Nuls(f.baseModel) + Nuls(f.system) + Nuls(f.sentence) + Nuls(f.context)
  {
    var pf := if f.picky then [1] else [];
    assert Nuls(pf) == 0 by { assert f.picky ==> pf[1..] == []; }
    var cf := f.context + ([0] + pf);
    var sf := f.sentence + ([0] + cf);
    var yf := f.system + ([0] + sf);
    SeparatorCounts(f.context, pf);
    SeparatorCounts(f.sentence, cf);
    SeparatorCounts(f.system, sf);
    SeparatorCounts(f.baseModel, yf);
  }

  lemma SeparatorCounts(a: Text, x: Text)
    ensures Nuls(a + ([0] + x)) == Nuls(a) + 1 + Nuls(x)
  {
    NulsConcat(a, [0] + x);
    assert ([0] + x)[1..] == x;
  }

  // Equal keys mean equal fields exactly when the fields agree in their NUL counts; in
  // particular whenever NULs stand in sentences alone.
  lemma KeyInjective(f: Fields, g: Fields)
    requires Encode(f) == Encode(g)
    ensures f == g <==> SameNuls(f, g)
    ensures Delimited(f) && Delimited(g) ==> f == g
  {
    EncodeNuls(f);
    EncodeNuls(g);
    if SameNuls(f, g) {
      var pf, pg := if f.picky then [1] else [], if g.picky then [1] else [];
      var cf, cg := f.context + ([0] + pf), g.context + ([0] + pg);
      var sf, sg := f.sentence + ([0] + cf), g.sentence + ([0] + cg);
      var yf, yg := f.system + ([0] + sf), g.system + ([0] + sg);
      SeparatorUnique(f.baseModel, yf, g.baseModel, yg);
      SeparatorUnique(f.system, sf, g.system, sg);
      SeparatorUnique(f.sentence, cf, g.sentence, cg);
      SeparatorUnique(f.context, pf, g.context, pg);
      assert f.picky == g.picky by { assert |pf| == |pg|; }
    }
  }

  // With NULs the separators are ambiguous: a NUL sentence collides with a NUL context.
  lemma KeyCollides()
    ensures var f, g := Fields([], [], [0], [], false), Fields([], [], [], [0], false);
            f != g && Encode(f) == Encode(g)
  {
    var f, g := Fields([], [], [0], [], false), Fields([], [], [], [0], false);
    assert Encode(f) == [0, 0, 0, 0, 0];
    assert Encode(g) == [0, 0, 0, 0, 0];
  }

  lemma DelimitedUnambiguous()
    ensures Unambiguous(iset f: Fields | Delimited(f))
  {
    forall f: Fields, g: Fields | Delimited(f) && Delimited(g) && Encode(f) == Encode(g)
      ensures f == g
    {
      KeyInjective(f, g);
    }
  }

  // No cache can serve two fields with one key and different answers.
  lemma AmbiguousNeverCoherent(
      p: Pipeline, used: iset<Fields>, f: Fields, g: Fields, contents: map<Text, seq<Suggestion>>)
    requires f in used && g in used && Encode(f) == Encode(g) && p.once(f) != p.once(g)
    ensures Encode(f) in contents ==> !Coherent(p, used, contents)
  {
  }

  // --- The cache -----------------------------------------------------------------------------------

  function Without(keys: seq<Text>, key: Text): seq<Text> {
    if keys == [] then []
    else if keys[0] == key then Without(keys[1..], key)
    else [keys[0]] + Without(keys[1..], key)
  }

  lemma {:induction false} WithoutExact(keys: seq<Text>, key: Text)
    requires forall i, j :: 0 <= i < j < |keys| ==> keys[i] != keys[j]
    ensures var r := Without(keys, key);
            && (forall i, j :: 0 <= i < j < |r| ==> r[i] != r[j])
            && (forall k :: k in r <==> k in keys && k != key)
            && |r| == if key in keys then |keys| - 1 else |keys|
  {
    if keys != [] {
      assert forall i, j :: 0 <= i < j < |keys[1..]| ==> keys[1..][i] == keys[i + 1] && keys[1..][j] == keys[j + 1];
      assert forall k :: k in keys[1..] ==> k != keys[0];
      WithoutExact(keys[1..], key);
      var r, t := Without(keys, key), Without(keys[1..], key);
      assert forall k :: k in t ==> k != keys[0];
      if keys[0] != key {
        assert forall i :: 0 < i < |r| ==> r[i] == t[i - 1] && r[i] in t;
      }
    }
  }

  lemma DropLastExact(keys: seq<Text>)
    requires keys != [] && forall i, j :: 0 <= i < j < |keys| ==> keys[i] != keys[j]
    ensures forall k :: k in keys[..|keys| - 1] <==> k in keys && k != keys[|keys| - 1]
  {
    var last := |keys| - 1;
    forall k
      ensures k in keys[..last] <==> k in keys && k != keys[last]
    {
      if k in keys && k != keys[last] {
        var i :| 0 <= i < |keys| && keys[i] == k;
        assert keys[..last][i] == k;
      }
    }
  }

  // What touching a key does to the recency list.
  lemma TouchedExact(keys: seq<Text>, key: Text, capacity: nat)
    requires forall i, j :: 0 <= i < j < |keys| ==> keys[i] != keys[j]
    requires 0 < capacity && |keys| <= capacity
    ensures var touched := [key] + Without(keys, key);
            var r := Evicted(touched, capacity);
            && (forall i, j :: 0 <= i < j < |r| ==> r[i] != r[j])
            && |r| <= capacity && key in r
            && (forall k :: k in r <==>
                  (k == key || k in keys) && (|touched| > capacity ==> k != touched[|touched| - 1]))
  {
    var touched := [key] + Without(keys, key);
    WithoutExact(keys, key);
    assert forall j :: 0 < j < |touched| ==> touched[j] == Without(keys, key)[j - 1];
    assert forall i, j :: 0 <= i < j < |touched| ==> touched[i] != touched[j] by {
      assert forall j :: 0 < j < |touched| ==> touched[j] in Without(keys, key);
    }
    DropLastExact(touched);
    assert touched[0] == key;
    assert forall k :: k in touched <==> k == key || k in keys;
    var r := Evicted(touched, capacity);
    assert forall i :: 0 <= i < |r| ==> r[i] == touched[i];
    if |touched| > capacity {
      assert r[0] == key;
    }
  }

  class SentenceCache {
    const capacity: nat
    // Stored slices are arrays nobody else holds.
    var entries: map<Text, array<Suggestion>>
    // Keys, most recently used first.
    var recency: seq<Text>
    var hits: nat
    var misses: nat

    ghost predicate Valid()
      reads this
    {
      && 0 < capacity && |recency| <= capacity
      && (forall i, j :: 0 <= i < j < |recency| ==> recency[i] != recency[j])
      && (forall k :: k in recency <==> k in entries)
    }

    ghost function Contents(): map<Text, seq<Suggestion>>
      reads this, set k | k in entries :: entries[k]
    {
      map k | k in entries :: entries[k][..]
    }

    constructor (size: nat)
      requires size > 0
      ensures Valid() && capacity == size && entries == map[] && hits == misses == 0
    {
      capacity := size;
      entries, recency, hits, misses := map[], [], 0, 0;
    }

    // A hit returns a private copy and makes the key most recent.
    method Get(key: Text) returns (out: array<Suggestion>, ok: bool)
      requires Valid()
      modifies this`recency, this`hits, this`misses
      ensures Valid() && fresh(out)
      ensures ok == (key in entries)
      ensures out[..] == if ok then entries[key][..] else []
      ensures hits == old(hits) + (if ok then 1 else 0) && misses == old(misses) + (if ok then 0 else 1)
      ensures recency == if ok then [key] + Without(old(recency), key) else old(recency)
    {
      if key !in entries {
        misses := misses + 1;
        out := new Suggestion[0];
        return out, false;
      }
      hits := hits + 1;
      WithoutExact(recency, key);
      recency := [key] + Without(recency, key);
      var v := entries[key];
      out := new Suggestion[v.Length](i requires 0 <= i < v.Length reads v => v[i]);
      ok := true;
    }

    // Stores a private copy and evicts the least recently used key beyond the capacity.
    method Add(key: Text, sugs: array<Suggestion>)
      requires Valid()
      modifies this`recency, this`entries
      ensures Valid()
      ensures key in entries && fresh(entries[key]) && entries[key][..] == sugs[..]
      ensures forall k :: k in entries && k != key ==> k in old(entries) && entries[k] == old(entries[k])
      ensures recency == Evicted([key] + Without(old(recency), key), capacity)
    {
      var stored := new Suggestion[sugs.Length](i requires 0 <= i < sugs.Length reads sugs => sugs[i]);
      TouchedExact(recency, key, capacity);
      var touched := [key] + Without(recency, key);
      recency := Evicted(touched, capacity);
      entries := entries[key := stored];
      if |touched| > capacity {
        var oldest := touched[|touched| - 1];
        entries := map k | k in entries && k != oldest :: entries[k];
      }
    }
  }

  function Evicted(keys: seq<Text>, capacity: nat): seq<Text> {
    if |keys| > capacity then keys[..|keys| - 1] else keys
  }

  // --- The sentence loop -------------------------------------------------------------------------------

  // The uncached pipeline: how a sentence's fields are made, and what correctOnce answers
  // for them (None is an error).
  datatype Pipeline = Pipeline(
    baseModel: Text,
    systemFor: (Text, Text) -> Text,
    picky: bool,
    sentenceContext: bool,
    once: Fields -> Option<seq<Suggestion>>
  )

  // The neighbouring sentences, for reference only.
  function NeighborContext(text: Text, segs: seq<Segment>, i: nat): Text
    requires i < |segs| && forall s :: s in segs ==> InBounds(s, 0, |text|)
  {
    assert forall k :: 0 <= k < |segs| ==> InBounds(segs[k], 0, |text|);
    var prev := if i > 0 then Sentence(text, segs[i - 1]) else [];
    var next := if i + 1 < |segs| then Sentence(text, segs[i + 1]) else [];
    if prev != [] && next != [] then prev + [NEWLINE] + next
    else if prev != [] then prev
    else next
  }

  function FieldsFor(p: Pipeline, text: Text, segs: seq<Segment>, i: nat): Fields
    requires i < |segs| && forall s :: s in segs ==> InBounds(s, 0, |text|)
  {
    assert InBounds(segs[i], 0, |text|);
    var sentence := Sentence(text, segs[i]);
    var context := if p.sentenceContext then NeighborContext(text, segs, i) else [];
    Fields(p.baseModel, p.systemFor(sentence, context), sentence, context, p.picky)
  }

  // What each sentence contributes without any cache; a failed sentence contributes nothing.
  function Answers(p: Pipeline, text: Text, segs: seq<Segment>): (r: seq<seq<Suggestion>>)
    requires forall s :: s in segs ==> InBounds(s, 0, |text|)
    ensures |r| == |segs|
  {
    seq(|segs|, i requires 0 <= i < |segs| => OrNone(p.once(FieldsFor(p, text, segs, i))))
  }

  function OrNone(answer: Option<seq<Suggestion>>): seq<Suggestion> {
    if answer.Some? then answer.value else []
  }

  ghost predicate AllFail(p: Pipeline, text: Text, segs: seq<Segment>)
    requires forall s :: s in segs ==> InBounds(s, 0, |text|)
  {
    forall i :: 0 <= i < |segs| ==> p.once(FieldsFor(p, text, segs, i)) == None
  }

  // The uncached result: one error only if every sentence failed.
  ghost function Uncached(p: Pipeline, text: Text, segs: seq<Segment>): Option<seq<Suggestion>>
    requires forall s :: s in segs ==> InBounds(s, 0, |text|)
  {
    if AllFail(p, text, segs) then None else Some(UnionShifted(segs, Answers(p, text, segs)))
  }

  // Every entry under the key of used fields is the pipeline's answer for them.
  ghost predicate Coherent(p: Pipeline, used: iset<Fields>, contents: map<Text, seq<Suggestion>>) {
    forall f :: f in used && Encode(f) in contents ==> p.once(f) == Some(contents[Encode(f)])
  }

  // Calls other requests have in flight, by key: a shared error, or a result array that is
  // shared with them.
  type Flights = map<Text, Option<array<Suggestion>>>

  ghost predicate FlightsAgree(p: Pipeline, used: iset<Fields>, flights: Flights)
    reads set k | k in flights && flights[k].Some? :: flights[k].value
  {
    forall f :: f in used && Encode(f) in flights ==> FlightIs(flights[Encode(f)], p.once(f))
  }

  ghost predicate FlightIs(flight: Option<array<Suggestion>>, answer: Option<seq<Suggestion>>)
    reads if flight.Some? then {flight.value} else {}
  {
    if flight.None? then answer == None else answer == Some(flight.value[..])
  }

  // Look up, or compute (joining a flight if there is one) and store. The result array is
  // private in every case.
  method AnswerFor(cache: SentenceCache?, p: Pipeline, ghost used: iset<Fields>, f: Fields, flights: Flights)
      returns (sugs: array<Suggestion>, ok: bool)
    requires f in used && Unambiguous(used) && FlightsAgree(p, used, flights)
    requires cache != null ==> cache.Valid() && Coherent(p, used, cache.Contents())
    modifies if cache == null then {} else {cache}
    ensures fresh(sugs) && ok == p.once(f).Some?
    ensures sugs[..] == OrNone(p.once(f))
    ensures cache != null ==> cache.Valid() && Coherent(p, used, cache.Contents())
    ensures cache != null ==> forall k :: k in cache.entries ==> cache.entries[k] != sugs
  {
    var key := Encode(f);
    if cache != null {
      sugs, ok := cache.Get(key);
      if ok {
        return;
      }
    }
    sugs, ok := Compute(p, used, f, flights);
    if ok && cache != null {
      StoreAnswer(cache, p, used, f, sugs);
    }
  }

  // The singleflight: join a call in flight and copy its result, or make the call.
  method Compute(p: Pipeline, ghost used: iset<Fields>, f: Fields, flights: Flights)
      returns (sugs: array<Suggestion>, ok: bool)
    requires f in used && FlightsAgree(p, used, flights)
    ensures fresh(sugs) && ok == p.once(f).Some?
    ensures sugs[..] == OrNone(p.once(f))
  {
    var key := Encode(f);
    if key in flights {
      if flights[key].None? {
        sugs := new Suggestion[0];
        return sugs, false;
      }
      var v := flights[key].value;
      sugs := new Suggestion[v.Length](i requires 0 <= i < v.Length reads v => v[i]);
      return sugs, true;
    }
    var answer := p.once(f);
    if answer.None? {
      sugs := new Suggestion[0];
      return sugs, false;
    }
    sugs := new Suggestion[|answer.value|](i requires 0 <= i < |answer.value| => answer.value[i]);
    ok := true;
  }

  method StoreAnswer(
      cache: SentenceCache, p: Pipeline, ghost used: iset<Fields>, f: Fields, sugs: array<Suggestion>)
    requires f in used && Unambiguous(used) && cache.Valid() && Coherent(p, used, cache.Contents())
    requires p.once(f) == Some(sugs[..])
    requires forall k :: k in cache.entries ==> cache.entries[k] != sugs
    modifies cache
    ensures cache.Valid() && Coherent(p, used, cache.Contents())
    ensures forall k :: k in cache.entries ==> cache.entries[k] != sugs
  {
    ghost var before := cache.Contents();
    cache.Add(Encode(f), sugs);
    forall g | g in used && Encode(g) in cache.Contents()
      ensures p.once(g) == Some(cache.Contents()[Encode(g)])
    {
      assert Encode(g) != Encode(f) ==> Encode(g) in before;
    }
  }

  // The spans move from sentence to text coordinates, in the caller's own array.
  method ShiftInPlace(sugs: array<Suggestion>, offset: int)
    modifies sugs
    ensures sugs[..] == Shifted(old(sugs[..]), offset)
  {
    for i := 0 to sugs.Length
      invariant forall k :: 0 <= k < i ==> sugs[k] == old(sugs[k]).Shift(offset)
      invariant forall k :: i <= k < sugs.Length ==> sugs[k] == old(sugs[k])
    {
      sugs[i] := sugs[i].Shift(offset);
    }
  }

  ghost predicate FieldsUsed(p: Pipeline, used: iset<Fields>, text: Text, segs: seq<Segment>)
    requires forall s :: s in segs ==> InBounds(s, 0, |text|)
  {
    forall i :: 0 <= i < |segs| ==> FieldsFor(p, text, segs, i) in used
  }

  // One turn of the loop: a sentence's answer in text coordinates.
  method SentenceEdits(
      cache: SentenceCache?, p: Pipeline, ghost used: iset<Fields>, text: Text, segs: seq<Segment>, i: nat,
      flights: Flights)
      returns (edits: seq<Suggestion>, ok: bool)
    requires i < |segs| && forall s :: s in segs ==> InBounds(s, 0, |text|)
    requires FieldsFor(p, text, segs, i) in used && Unambiguous(used) && FlightsAgree(p, used, flights)
    requires cache != null ==> cache.Valid() && Coherent(p, used, cache.Contents())
    modifies if cache == null then {} else {cache}
    ensures ok == p.once(FieldsFor(p, text, segs, i)).Some?
    ensures edits == Shifted(Answers(p, text, segs)[i], segs[i].start)
    ensures !ok ==> edits == []
    ensures cache != null ==> cache.Valid() && Coherent(p, used, cache.Contents())
    ensures FlightsAgree(p, used, flights)
  {
    var f := FieldsFor(p, text, segs, i);
    var sugs;
    sugs, ok := AnswerFor(cache, p, used, f, flights);
    ghost var contents := if cache != null then cache.Contents() else map[];
    ShiftInPlace(sugs, segs[i].start);
    assert cache != null ==> cache.Contents() == contents;
    edits := sugs[..];
  }

  // The sentence path of Correct, before finalize. Whatever the cache holds and other
  // requests do, the result is the uncached one, and the cache stays coherent.
  method CorrectSentences(
      cache: SentenceCache?, p: Pipeline, ghost used: iset<Fields>, text: Text, segs: seq<Segment>,
      flights: Flights)
      returns (r: Option<seq<Suggestion>>)
    requires segs != [] && forall s :: s in segs ==> InBounds(s, 0, |text|)
    requires FieldsUsed(p, used, text, segs) && Unambiguous(used) && FlightsAgree(p, used, flights)
    requires cache != null ==> cache.Valid() && Coherent(p, used, cache.Contents())
    modifies if cache == null then {} else {cache}
    ensures r == Uncached(p, text, segs)
    ensures cache != null ==> cache.Valid() && Coherent(p, used, cache.Contents())
    ensures FlightsAgree(p, used, flights)
  {
    var all := [];
    var failures := 0;
    ghost var answers := Answers(p, text, segs);
    for i := 0 to |segs|
      invariant cache != null ==> cache.Valid() && Coherent(p, used, cache.Contents())
      invariant FlightsAgree(p, used, flights)
      invariant all == UnionShifted(segs[..i], answers[..i])
      invariant 0 <= failures <= i
      invariant failures == i <==> forall k :: 0 <= k < i ==> p.once(FieldsFor(p, text, segs, k)) == None
    {
      var sugs, ok := SentenceEdits(cache, p, used, text, segs, i, flights);
      UnionSnoc(segs, answers, i);
      if !ok {
        failures := failures + 1;
        continue;
      }
      all := all + sugs;
    }
    assert segs[..|segs|] == segs && answers[..|segs|] == answers;
    if failures == |segs| {
      return None;
    }
    r := Some(all);
  }

  lemma {:induction false} UnionSnoc(segs: seq<Segment>, answers: seq<seq<Suggestion>>, i: nat)
    requires |segs| == |answers| && i < |segs|
    ensures UnionShifted(segs[..i + 1], answers[..i + 1])
         == UnionShifted(segs[..i], answers[..i]) + Shifted(answers[i], segs[i].start)
    decreases i
  {
    if i == 0 {
      assert segs[..1][1..] == [] && answers[..1][1..] == [];
    } else {
      UnionSnoc(segs[1..], answers[1..], i - 1);
      assert segs[..i + 1][1..] == segs[1..][..i] && answers[..i + 1][1..] == answers[1..][..i];
      assert segs[..i][1..] == segs[1..][..i - 1] && answers[..i][1..] == answers[1..][..i - 1];
    }
  }
}
