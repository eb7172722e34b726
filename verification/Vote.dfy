// nbest.go: N candidate completions become one suggestion list by strict majority vote
// over (start, end, replacement).
module Vote {
  import opened Edits
  import opened Finalize
  import Sorting

  // --- Key order ---------------------------------------------------------------------------

  // Byte-wise string comparison.
  predicate LexLess(a: Text, b: Text) {
    b != [] && (a == [] || a[0] < b[0] || (a[0] == b[0] && LexLess(a[1..], b[1..])))
  }

  predicate KeyLess(a: Suggestion, b: Suggestion) {
    if a.span.start != b.span.start then a.span.start < b.span.start
    else if a.span.end != b.span.end then a.span.end < b.span.end
    else LexLess(a.replacement, b.replacement)
  }

  lemma {:induction false} LexTransitive(a: Text, b: Text, c: Text)
    requires LexLess(a, b) && LexLess(b, c)
    ensures LexLess(a, c)
  {
    if a != [] && a[0] == b[0] && b[0] == c[0] {
      LexTransitive(a[1..], b[1..], c[1..]);
    }
  }

  lemma {:induction false} LexTotal(a: Text, b: Text)
    ensures a == b || LexLess(a, b) || LexLess(b, a)
    ensures !(LexLess(a, b) && LexLess(b, a))
  {
    if a != [] && b != [] && a[0] == b[0] {
      LexTotal(a[1..], b[1..]);
      assert a == [a[0]] + a[1..] && b == [b[0]] + b[1..];
    }
  }

  lemma KeyLessTransitive(a: Suggestion, b: Suggestion, c: Suggestion)
    requires KeyLess(a, b) && KeyLess(b, c)
    ensures KeyLess(a, c)
  {
    if LexLess(a.replacement, b.replacement) && LexLess(b.replacement, c.replacement) {
      LexTransitive(a.replacement, b.replacement, c.replacement);
    }
  }

  lemma KeyLessTotal(a: Suggestion, b: Suggestion)
    ensures KeyOf(a) == KeyOf(b) || KeyLess(a, b) || KeyLess(b, a)
    ensures !(KeyLess(a, b) && KeyLess(b, a))
  {
    LexTotal(a.replacement, b.replacement);
  }

  lemma KeyLessIsStrictWeak()
    ensures Sorting.StrictWeak(KeyLess)
    ensures forall a, b :: KeyOf(a) == KeyOf(b) || KeyLess(a, b) || KeyLess(b, a)
  {
    forall a, b
      ensures KeyOf(a) == KeyOf(b) || KeyLess(a, b) || KeyLess(b, a)
      ensures !(KeyLess(a, b) && KeyLess(b, a))
    {
      KeyLessTotal(a, b);
    }
    forall a, b, c | KeyLess(a, b) && KeyLess(b, c)
      ensures KeyLess(a, c)
    {
      KeyLessTransitive(a, b, c);
    }
  }

  // --- What the vote means -----------------------------------------------------------------

  // How often a key is proposed, counting repetitions.
  function Count(sugs: seq<Suggestion>, key: Key): nat {
    if sugs == [] then 0
    else
      var last := |sugs| - 1;
      Count(sugs[..last], key) + if KeyOf(sugs[last]) == key then 1 else 0
  }

  lemma {:induction false} CountPositive(sugs: seq<Suggestion>, key: Key)
    ensures Count(sugs, key) > 0 <==> Lists(sugs, key)
  {
    if sugs != [] {
      var last := |sugs| - 1;
      CountPositive(sugs[..last], key);
      if Lists(sugs, key) && KeyOf(sugs[last]) != key {
        var i :| 0 <= i < |sugs| && KeyOf(sugs[i]) == key;
        assert sugs[..last][i] == sugs[i];
      }
    }
  }

  // The first suggestion with the key.
  function First(sugs: seq<Suggestion>, key: Key): (s: Suggestion)
    requires Count(sugs, key) > 0
    ensures s in sugs && KeyOf(s) == key
  {
    var last := |sugs| - 1;
    if Count(sugs[..last], key) > 0 then First(sugs[..last], key) else sugs[last]
  }

  lemma {:induction false} CountConcat(a: seq<Suggestion>, b: seq<Suggestion>, key: Key)
    ensures Count(a + b, key) == Count(a, key) + Count(b, key)
    decreases |b|
  {
    if b == [] {
      assert a + b == a;
    } else {
      var last := |b| - 1;
      assert (a + b)[..|a + b| - 1] == a + b[..last];
      CountConcat(a, b[..last], key);
    }
  }

  lemma {:induction false} FirstConcat(a: seq<Suggestion>, b: seq<Suggestion>, key: Key)
    requires Count(a + b, key) > 0
    ensures Count(a, key) > 0 ==> First(a + b, key) == First(a, key)
    ensures Count(a, key) == 0 ==> Count(b, key) > 0 && First(a + b, key) == First(b, key)
    decreases |b|
  {
    CountConcat(a, b, key);
    if b == [] {
      assert a + b == a;
    } else {
      var all, last := a + b, |b| - 1;
      assert all[..|all| - 1] == a + b[..last] && all[|all| - 1] == b[last];
      CountConcat(a, b[..last], key);
      if Count(a + b[..last], key) > 0 {
        FirstConcat(a, b[..last], key);
      }
    }
  }

  // All proposals of all candidates, in candidate order.
  function Proposals(diffs: seq<seq<Suggestion>>): seq<Suggestion> {
    if diffs == [] then [] else Proposals(diffs[..|diffs| - 1]) + diffs[|diffs| - 1]
  }

  function Votes(diffs: seq<seq<Suggestion>>, key: Key): nat {
    Count(Proposals(diffs), key)
  }

  function Quorum(n: nat): nat {
    n / 2 + 1
  }

  function Relabelled(s: Suggestion, votes: nat, n: nat): Suggestion
    requires n > 0
  {
    s.(confidence := votes as real / n as real, model := LLM)
  }

  // The first proposal of the key, relabelled with its share of the vote.
  function Elected(diffs: seq<seq<Suggestion>>, key: Key): Suggestion
    requires |diffs| > 0 && Votes(diffs, key) > 0
  {
    Relabelled(First(Proposals(diffs), key), Votes(diffs, key), |diffs|)
  }

  // Where the key is proposed for the first time: in no earlier candidate, and nowhere
  // earlier in this one.
  ghost predicate Earliest(diffs: seq<seq<Suggestion>>, key: Key, c: nat, i: nat) {
    && c < |diffs| && i < |diffs[c]| && KeyOf(diffs[c][i]) == key
    && (forall b :: 0 <= b < c ==> !Lists(diffs[b], key))
    && (forall j :: 0 <= j < i ==> KeyOf(diffs[c][j]) != key)
  }

  // An elected edit is the one of the first candidate that proposes it, relabelled.
  lemma {:induction false} ElectedIsEarliest(diffs: seq<seq<Suggestion>>, key: Key, c: nat, i: nat)
    requires Earliest(diffs, key, c, i)
    ensures Votes(diffs, key) > 0 && First(Proposals(diffs), key) == diffs[c][i]
    ensures Elected(diffs, key) == Relabelled(diffs[c][i], Votes(diffs, key), |diffs|)
    decreases |diffs|
  {
    hide First, Count;
    var last := |diffs| - 1;
    CountConcat(Proposals(diffs[..last]), diffs[last], key);
    if c < last {
      ElectedIsEarliest(diffs[..last], key, c, i);
    } else {
      UnproposedCount(diffs[..last], key);
      FirstAt(diffs[last], key, i);
    }
    FirstConcat(Proposals(diffs[..last]), diffs[last], key);
  }

  lemma {:induction false} UnproposedCount(diffs: seq<seq<Suggestion>>, key: Key)
    requires forall b :: 0 <= b < |diffs| ==> !Lists(diffs[b], key)
    ensures Votes(diffs, key) == 0
    decreases |diffs|
  {
    if diffs != [] {
      var last := |diffs| - 1;
      UnproposedCount(diffs[..last], key);
      CountConcat(Proposals(diffs[..last]), diffs[last], key);
      CountPositive(diffs[last], key);
    }
  }

  lemma {:induction false} FirstAt(sugs: seq<Suggestion>, key: Key, i: nat)
    requires i < |sugs| && KeyOf(sugs[i]) == key && forall j :: 0 <= j < i ==> KeyOf(sugs[j]) != key
    ensures Count(sugs, key) > 0 && First(sugs, key) == sugs[i]
    decreases |sugs|
  {
    var last := |sugs| - 1;
    CountPositive(sugs[..last], key);
    if i < last {
      FirstAt(sugs[..last], key, i);
    }
  }

  ghost predicate IsElected(diffs: seq<seq<Suggestion>>, s: Suggestion) {
    && Votes(diffs, KeyOf(s)) >= Quorum(|diffs|)
    && |diffs| > 0
    && s == Elected(diffs, KeyOf(s))
  }

  ghost predicate Lists(out: seq<Suggestion>, key: Key) {
    exists i :: 0 <= i < |out| && KeyOf(out[i]) == key
  }

  // The vote's result: in strictly ascending key order, exactly the keys with a quorum.
  ghost predicate IsMajority(diffs: seq<seq<Suggestion>>, out: seq<Suggestion>) {
    && (forall i, j :: 0 <= i < j < |out| ==> KeyLess(out[i], out[j]))
    && (forall i :: 0 <= i < |out| ==> IsElected(diffs, out[i]))
    && (forall key :: Votes(diffs, key) >= Quorum(|diffs|) ==> Lists(out, key))
  }

  // --- The loops ---------------------------------------------------------------------------

  ghost predicate Tallied(done: seq<Suggestion>, votes: map<Key, nat>, kept: map<Key, Suggestion>) {
    && votes.Keys == kept.Keys
    && (forall key :: key in votes <==> Count(done, key) > 0)
    && (forall key :: key in votes ==> votes[key] == Count(done, key) && kept[key] == First(done, key))
  }

  method TallyCandidate(
      sugs: seq<Suggestion>, ghost done: seq<Suggestion>, votes0: map<Key, nat>, kept0: map<Key, Suggestion>)
      returns (votes: map<Key, nat>, kept: map<Key, Suggestion>)
    requires Tallied(done, votes0, kept0)
    ensures Tallied(done + sugs, votes, kept)
  {
    votes, kept := votes0, kept0;
    assert done + sugs[..0] == done;
    for j := 0 to |sugs|
      invariant Tallied(done + sugs[..j], votes, kept)
    {
      var sg := sugs[j];
      var key := KeyOf(sg);
      assert done + sugs[..j + 1] == done + sugs[..j] + [sg];
      votes := votes[key := (if key in votes then votes[key] else 0) + 1];
      if key !in kept {
        kept := kept[key := sg];
      }
    }
    assert sugs[..|sugs|] == sugs;
  }

  method Tally(original: Text, candidates: seq<Text>, diffFn: (Text, Text) -> seq<Suggestion>)
      returns (votes: map<Key, nat>, kept: map<Key, Suggestion>)
    ensures Tallied(Proposals(Diffs(original, candidates, diffFn)), votes, kept)
  {
    votes, kept := map[], map[];
    ghost var diffs := Diffs(original, candidates, diffFn);
    for c := 0 to |candidates|
      invariant Tallied(Proposals(diffs[..c]), votes, kept)
    {
      votes, kept := TallyCandidate(diffFn(original, candidates[c]), Proposals(diffs[..c]), votes, kept);
      assert diffs[..c + 1][..c] == diffs[..c] && diffs[..c + 1][c] == diffs[c];
    }
    assert diffs[..|candidates|] == diffs;
  }

  function Diffs(original: Text, candidates: seq<Text>, diffFn: (Text, Text) -> seq<Suggestion>):
      (r: seq<seq<Suggestion>>)
    ensures |r| == |candidates|
    ensures forall c :: 0 <= c < |r| ==> r[c] == diffFn(original, candidates[c])
  {
    seq(|candidates|, c requires 0 <= c < |candidates| => diffFn(original, candidates[c]))
  }

  // The range over `votes` visits the keys in an arbitrary order.
  method MajorityEdits(original: Text, candidates: seq<Text>, diffFn: (Text, Text) -> seq<Suggestion>)
      returns (out: seq<Suggestion>)
    ensures IsMajority(Diffs(original, candidates, diffFn), out)
  {
    ghost var diffs := Diffs(original, candidates, diffFn);
    if |candidates| == 0 {
      return [];
    }
    hide IsMajority, IsElected, Lists, Tallied, KeyOf, Relabelled;
    var quorum := |candidates| / 2 + 1;
    var votes, kept := Tally(original, candidates, diffFn);
    TalliedElects(diffs, votes, kept);
    out := [];
    var todo := votes.Keys;
    while todo != {}
      invariant todo <= votes.Keys
      invariant forall i :: 0 <= i < |out| ==> IsElected(diffs, out[i]) && KeyOf(out[i]) !in todo
      invariant forall i, j :: 0 <= i < j < |out| ==> KeyOf(out[i]) != KeyOf(out[j])
      invariant forall key :: key in votes && key !in todo && votes[key] >= quorum ==> Lists(out, key)
      decreases |todo|
    {
      var key :| key in todo;
      todo := todo - {key};
      var n := votes[key];
      if n >= quorum {
        var elected := Relabelled(kept[key], n, |candidates|);
        ListsMore(out, elected);
        out := out + [elected];
      }
    }
    out := SortedMajority(diffs, out);
  }

  // From the tally: who is elected, and with which edit.
  lemma TalliedElects(diffs: seq<seq<Suggestion>>, votes: map<Key, nat>, kept: map<Key, Suggestion>)
    requires |diffs| > 0 && Tallied(Proposals(diffs), votes, kept)
    ensures votes.Keys == kept.Keys
    ensures forall key :: Votes(diffs, key) >= Quorum(|diffs|) ==> key in votes && votes[key] >= Quorum(|diffs|)
    ensures forall key :: key in votes && votes[key] >= Quorum(|diffs|) ==>
              var s := Relabelled(kept[key], votes[key], |diffs|);
              IsElected(diffs, s) && KeyOf(s) == key
  {
  }

  lemma ListsMore(out: seq<Suggestion>, s: Suggestion)
    ensures Lists(out + [s], KeyOf(s))
    ensures forall key :: Lists(out, key) ==> Lists(out + [s], key)
  {
    assert KeyOf((out + [s])[|out|]) == KeyOf(s);
    assert forall i :: 0 <= i < |out| ==> (out + [s])[i] == out[i];
  }

  // The final sort. Keys are distinct, so any sorting algorithm gives this list.
  method SortedMajority(ghost diffs: seq<seq<Suggestion>>, elected: seq<Suggestion>) returns (out: seq<Suggestion>)
    requires forall i :: 0 <= i < |elected| ==> IsElected(diffs, elected[i])
    requires forall i, j :: 0 <= i < j < |elected| ==> KeyOf(elected[i]) != KeyOf(elected[j])
    requires forall key :: Votes(diffs, key) >= Quorum(|diffs|) ==> Lists(elected, key)
    ensures IsMajority(diffs, out)
  {
    out := Sorting.StableSort(KeyLess, elected);
    var distinct := (a: Suggestion, b: Suggestion) => KeyOf(a) != KeyOf(b);
    KeyLessIsStrictWeak();
    Sorting.SortSorts(KeyLess, elected);
    Sorting.SortPairwise(KeyLess, distinct, elected);
    Sorting.SortMembers(KeyLess, elected);
    assert forall i :: 0 <= i < |out| ==> out[i] in elected;
    forall key | Votes(diffs, key) >= Quorum(|diffs|)
      ensures Lists(out, key)
    {
      var i :| 0 <= i < |elected| && KeyOf(elected[i]) == key;
      assert elected[i] in out;
    }
    forall i, j | 0 <= i < j < |out|
      ensures KeyLess(out[i], out[j])
    {
      assert distinct(out[i], out[j]) && !KeyLess(out[j], out[i]);
    }
  }

  // --- Main results ---------------------------------------------------------------------------

  // The result is determined by the proposals: neither the map iteration order nor the
  // sorting algorithm shows.
  lemma MajorityUnique(diffs: seq<seq<Suggestion>>, a: seq<Suggestion>, b: seq<Suggestion>)
    requires IsMajority(diffs, a) && IsMajority(diffs, b)
    ensures a == b
  {
    KeyLessIsStrictWeak();
    MajorityIncluded(diffs, a, b);
    MajorityIncluded(diffs, b, a);
    Sorting.SortedUnique(KeyLess, a, b);
  }

  lemma MajorityIncluded(diffs: seq<seq<Suggestion>>, a: seq<Suggestion>, b: seq<Suggestion>)
    requires IsMajority(diffs, a) && IsMajority(diffs, b)
    ensures forall s :: s in a ==> s in b
  {
    forall s | s in a
      ensures s in b
    {
      assert IsElected(diffs, s);
      assert Lists(b, KeyOf(s));
      var i :| 0 <= i < |b| && KeyOf(b[i]) == KeyOf(s);
      assert IsElected(diffs, b[i]);
    }
  }

  // No candidate proposes the same edit twice.
  ghost predicate Distinct(sugs: seq<Suggestion>) {
    forall i, j :: 0 <= i < j < |sugs| ==> KeyOf(sugs[i]) != KeyOf(sugs[j])
  }

  // How many candidates propose the key.
  function Proposers(diffs: seq<seq<Suggestion>>, key: Key): nat {
    if diffs == [] then 0
    else
      var last := |diffs| - 1;
      Proposers(diffs[..last], key) + if Count(diffs[last], key) > 0 then 1 else 0
  }

  lemma {:induction false} CountDistinct(sugs: seq<Suggestion>, key: Key)
    requires Distinct(sugs)
    ensures Count(sugs, key) <= 1
  {
    if sugs != [] {
      var last := |sugs| - 1;
      assert forall i :: 0 <= i < last ==> sugs[..last][i] == sugs[i];
      CountDistinct(sugs[..last], key);
      CountPositive(sugs[..last], key);
    }
  }

  lemma {:induction false} CountRepeated(sugs: seq<Suggestion>, i: nat, j: nat)
    requires i < j < |sugs| && KeyOf(sugs[i]) == KeyOf(sugs[j])
    ensures Count(sugs, KeyOf(sugs[i])) >= 2
    decreases |sugs|
  {
    var last := |sugs| - 1;
    if j == last {
      assert sugs[..last][i] == sugs[i];
      CountPositive(sugs[..last], KeyOf(sugs[i]));
    } else {
      CountRepeated(sugs[..last], i, j);
    }
  }

  lemma {:induction false} VotesAtLeastProposers(diffs: seq<seq<Suggestion>>, key: Key)
    ensures Votes(diffs, key) >= Proposers(diffs, key)
    ensures (forall c :: 0 <= c < |diffs| ==> Distinct(diffs[c])) ==> Votes(diffs, key) == Proposers(diffs, key)
    ensures (exists c :: 0 <= c < |diffs| && Count(diffs[c], key) >= 2) ==> Votes(diffs, key) > Proposers(diffs, key)
    decreases |diffs|
  {
    if diffs != [] {
      var last := |diffs| - 1;
      var front := diffs[..last];
      VotesAtLeastProposers(front, key);
      CountConcat(Proposals(front), diffs[last], key);
      assert forall c :: 0 <= c < last ==> front[c] == diffs[c];
      if forall c :: 0 <= c < |diffs| ==> Distinct(diffs[c]) {
        CountDistinct(diffs[last], key);
      }
    }
  }

  // The vote counts proposals, not candidates. "At least a quorum of candidates proposed
  // it" is what the count means exactly when no candidate repeats an edit.
  lemma VotesAreProposersIff(diffs: seq<seq<Suggestion>>)
    ensures (forall key :: Votes(diffs, key) == Proposers(diffs, key))
       <==> (forall c :: 0 <= c < |diffs| ==> Distinct(diffs[c]))
  {
    if forall c :: 0 <= c < |diffs| ==> Distinct(diffs[c]) {
      forall key
        ensures Votes(diffs, key) == Proposers(diffs, key)
      {
        VotesAtLeastProposers(diffs, key);
      }
    } else {
      var c :| 0 <= c < |diffs| && !Distinct(diffs[c]);
      var i, j :| 0 <= i < j < |diffs[c]| && KeyOf(diffs[c][i]) == KeyOf(diffs[c][j]);
      CountRepeated(diffs[c], i, j);
      VotesAtLeastProposers(diffs, KeyOf(diffs[c][i]));
    }
  }

  // A single candidate that repeats itself carries a vote of three on its own.
  lemma RepeatedProposalWinsAlone()
    ensures var s := Suggestion(Span(0, 1), [], LLM, Grammar, 0.0);
            var diffs := [[s, s], [], []];
            && IsMajority(diffs, [s.(confidence := 2.0 / 3.0)])
            && Proposers(diffs, KeyOf(s)) == 1 < Quorum(|diffs|)
  {
    var s := Suggestion(Span(0, 1), [], LLM, Grammar, 0.0);
    var diffs: seq<seq<Suggestion>> := [[s, s], [], []];
    assert diffs[..2] == [[s, s], []] && diffs[..2][..1] == [[s, s]] && diffs[..2][..1][..0] == [];
    assert Proposals([[s, s]]) == [s, s] by { assert [[s, s]][..0] == []; }
    assert Proposals(diffs) == [s, s];
    assert [s, s][..1] == [s] && [s][..0] == [];
    forall key
      ensures Votes(diffs, key) == if key == KeyOf(s) then 2 else 0
    {
      assert Count([s], key) == if key == KeyOf(s) then 1 else 0;
    }
    var e := s.(confidence := 2.0 / 3.0);
    assert Elected(diffs, KeyOf(s)) == e;
    assert KeyOf([e][0]) == KeyOf(s);
    assert Proposers([[s, s]], KeyOf(s)) == 1;
    assert Proposers([[s, s], []], KeyOf(s)) == 1;
  }

  // Main result on the quorum: exactly the edits with more than half the votes are elected,
  // each with its share of them as confidence.
  lemma StrictMajority(diffs: seq<seq<Suggestion>>, out: seq<Suggestion>)
    requires diffs != [] && IsMajority(diffs, out)
    ensures forall key :: 2 * Votes(diffs, key) > |diffs| <==> Lists(out, key)
    ensures forall s :: s in out ==>
              s.model == LLM && s.confidence * |diffs| as real == Votes(diffs, KeyOf(s)) as real
  {
    hide Votes, Elected;
    forall key | Lists(out, key)
      ensures Votes(diffs, key) >= Quorum(|diffs|)
    {
      var i :| 0 <= i < |out| && KeyOf(out[i]) == key;
      assert IsElected(diffs, out[i]);
    }
    forall s | s in out
      ensures s.model == LLM && s.confidence * |diffs| as real == Votes(diffs, KeyOf(s)) as real
    {
      var i :| 0 <= i < |out| && out[i] == s;
      assert IsElected(diffs, out[i]);
      ElectedShare(diffs, KeyOf(s));
    }
  }

  lemma ElectedShare(diffs: seq<seq<Suggestion>>, key: Key)
    requires diffs != [] && Votes(diffs, key) > 0
    ensures var s := Elected(diffs, key);
            s.model == LLM && s.confidence * |diffs| as real == Votes(diffs, key) as real
  {
    hide Votes, First, Proposals, Count;
    ShareTimes(Votes(diffs, key) as real, |diffs| as real);
  }

  lemma ShareTimes(votes: real, n: real)
    requires n > 0.0
    ensures votes / n * n == votes
  {
  }

  // The candidates that propose this span and replacement.
  ghost function Backers(diffs: seq<seq<Suggestion>>, key: Key): set<int> {
    set c | 0 <= c < |diffs| && Backs(diffs[c], key)
  }

  ghost predicate Backs(sugs: seq<Suggestion>, key: Key) {
    exists s :: s in sugs && s.span.start == key.start && s.span.end == key.end && s.replacement == key.replacement
  }

  lemma BacksLists(sugs: seq<Suggestion>, key: Key)
    ensures Backs(sugs, key) <==> Lists(sugs, key)
  {
    if Backs(sugs, key) {
      var s :| s in sugs && s.span.start == key.start && s.span.end == key.end && s.replacement == key.replacement;
      var i :| 0 <= i < |sugs| && sugs[i] == s;
      assert KeyOf(sugs[i]) == key;
    }
  }

  lemma {:induction false} BackersCount(diffs: seq<seq<Suggestion>>, key: Key)
    ensures |Backers(diffs, key)| == Proposers(diffs, key)
    decreases |diffs|
  {
    if diffs != [] {
      var last := |diffs| - 1;
      BackersCount(diffs[..last], key);
      BacksLists(diffs[last], key);
      CountPositive(diffs[last], key);
      var before := Backers(diffs[..last], key);
      assert last !in before;
      assert Backers(diffs, key) == if Backs(diffs[last], key) then before + {last} else before;
    }
  }

  // In particular, when no candidate repeats an edit: those more than half of them propose.
  lemma ProposedByMost(diffs: seq<seq<Suggestion>>, out: seq<Suggestion>, key: Key)
    requires diffs != [] && IsMajority(diffs, out)
    requires forall c :: 0 <= c < |diffs| ==> Distinct(diffs[c])
    ensures Backs(out, key) <==> 2 * |Backers(diffs, key)| > |diffs|
  {
    StrictMajority(diffs, out);
    VotesAreProposersIff(diffs);
    BackersCount(diffs, key);
    BacksLists(out, key);
  }

  // How many candidates propose both keys.
  function JointProposers(diffs: seq<seq<Suggestion>>, a: Key, b: Key): nat {
    if diffs == [] then 0
    else
      var last := |diffs| - 1;
      JointProposers(diffs[..last], a, b)
      + if Count(diffs[last], a) > 0 && Count(diffs[last], b) > 0 then 1 else 0
  }

  lemma {:induction false} Pigeonhole(diffs: seq<seq<Suggestion>>, a: Key, b: Key)
    ensures Proposers(diffs, a) + Proposers(diffs, b) <= |diffs| + JointProposers(diffs, a, b)
    ensures JointProposers(diffs, a, b) > 0 ==>
              exists c :: 0 <= c < |diffs| && Count(diffs[c], a) > 0 && Count(diffs[c], b) > 0
    decreases |diffs|
  {
    if diffs != [] {
      var last := |diffs| - 1;
      Pigeonhole(diffs[..last], a, b);
      if JointProposers(diffs[..last], a, b) > 0 {
        var c :| 0 <= c < last && Count(diffs[..last][c], a) > 0 && Count(diffs[..last][c], b) > 0;
        assert Count(diffs[c], a) > 0 && Count(diffs[c], b) > 0;
      }
    }
  }

  // Any two surviving edits were proposed together by some candidate.
  lemma JointlyProposed(diffs: seq<seq<Suggestion>>, out: seq<Suggestion>, i: nat, j: nat)
      returns (c: nat, p: nat, q: nat)
    requires IsMajority(diffs, out) && i < |out| && j < |out|
    requires forall c :: 0 <= c < |diffs| ==> Distinct(diffs[c])
    ensures c < |diffs| && p < |diffs[c]| && q < |diffs[c]|
    ensures KeyOf(diffs[c][p]) == KeyOf(out[i]) && KeyOf(diffs[c][q]) == KeyOf(out[j])
  {
    var a, b := KeyOf(out[i]), KeyOf(out[j]);
    VotesAtLeastProposers(diffs, a);
    VotesAtLeastProposers(diffs, b);
    assert IsElected(diffs, out[i]) && IsElected(diffs, out[j]);
    Pigeonhole(diffs, a, b);
    c :| 0 <= c < |diffs| && Count(diffs[c], a) > 0 && Count(diffs[c], b) > 0;
    CountPositive(diffs[c], a);
    CountPositive(diffs[c], b);
    p :| 0 <= p < |diffs[c]| && KeyOf(diffs[c][p]) == a;
    q :| 0 <= q < |diffs[c]| && KeyOf(diffs[c][q]) == b;
  }

  // If each candidate's own edits are separated, so are the elected ones, although no
  // candidate need have proposed them all; finalize keeps every one of them.
  lemma MajoritySeparated(diffs: seq<seq<Suggestion>>, out: seq<Suggestion>, textLen: nat)
    requires IsMajority(diffs, out)
    requires forall c :: 0 <= c < |diffs| ==> Separated(diffs[c], textLen)
    ensures Separated(out, textLen) && Ordered(out, 0, textLen)
    ensures Finalized(s => false, out) == out
  {
    forall c | 0 <= c < |diffs|
      ensures Distinct(diffs[c])
    {
      assert forall i, j :: 0 <= i < j < |diffs[c]| ==> diffs[c][i].span.end < diffs[c][j].span.start;
    }
    forall i | 0 <= i < |out|
      ensures out[i].span.Valid(textLen)
    {
      var c, p, _ := JointlyProposed(diffs, out, i, i);
      assert diffs[c][p].span == out[i].span;
    }
    forall i, j | 0 <= i < j < |out|
      ensures out[i].span.end < out[j].span.start
    {
      var c, p, q := JointlyProposed(diffs, out, i, j);
      assert KeyLess(out[i], out[j]);
      KeyLessTotal(out[i], out[j]);
      assert diffs[c][p].span == out[i].span && diffs[c][q].span == out[j].span;
      if p == q {
        KeyLessIrreflexive(out[i], out[j]);
        assert false;
      }
    }
    SeparatedIsOrdered(out, textLen);
    FinalizedUnchanged(out, textLen);
  }

  lemma KeyLessIrreflexive(a: Suggestion, b: Suggestion)
    requires KeyLess(a, b)
    ensures KeyOf(a) != KeyOf(b)
  {
    LexTotal(a.replacement, b.replacement);
  }

  // Unanimous candidates get exactly their own edits back.
  lemma Unanimous(diffs: seq<seq<Suggestion>>, out: seq<Suggestion>, textLen: nat)
    requires IsMajority(diffs, out) && |diffs| > 0
    requires Separated(diffs[0], textLen) && forall c :: 0 <= c < |diffs| ==> diffs[c] == diffs[0]
    ensures |out| == |diffs[0]|
    ensures forall i :: 0 <= i < |out| ==> out[i] == diffs[0][i].(confidence := 1.0, model := LLM)
  {
    var one := diffs[0];
    assert Distinct(one) by {
      assert forall i, j :: 0 <= i < j < |one| ==> one[i].span.end < one[j].span.start;
    }
    var all := seq(|one|, i requires 0 <= i < |one| => one[i].(confidence := 1.0, model := LLM));
    forall i | 0 <= i < |all|
      ensures IsElected(diffs, all[i])
    {
      UnanimousElected(diffs, i, textLen);
    }
    forall key | Votes(diffs, key) >= Quorum(|diffs|)
      ensures Lists(all, key)
    {
      CountDistinct(one, key);
      CountUniform(diffs, key);
      CountPositive(one, key);
      var i :| 0 <= i < |one| && KeyOf(one[i]) == key;
      assert KeyOf(all[i]) == key;
    }
    assert forall i, j :: 0 <= i < j < |all| ==> one[i].span.end < one[j].span.start;
    MajorityUnique(diffs, out, all);
  }

  lemma UnanimousElected(diffs: seq<seq<Suggestion>>, i: nat, textLen: nat)
    requires |diffs| > 0 && i < |diffs[0]| && Separated(diffs[0], textLen)
    requires forall c :: 0 <= c < |diffs| ==> diffs[c] == diffs[0]
    ensures IsElected(diffs, diffs[0][i].(confidence := 1.0, model := LLM))
  {
    var one, n := diffs[0], |diffs|;
    var key := KeyOf(one[i]);
    assert Lists(one, key);
    assert Distinct(one) by {
      assert forall i, j :: 0 <= i < j < |one| ==> one[i].span.end < one[j].span.start;
    }
    CountPositive(one, key);
    CountDistinct(one, key);
    CountUniform(diffs, key);
    FirstUniform(diffs, one[i]);
    WholeShare(n as real);
  }

  lemma WholeShare(n: real)
    requires n > 0.0
    ensures n / n == 1.0
  {
  }

  lemma {:induction false} CountUniform(diffs: seq<seq<Suggestion>>, key: Key)
    requires forall c :: 0 <= c < |diffs| ==> diffs[c] == diffs[0]
    requires diffs != [] ==> Count(diffs[0], key) <= 1
    ensures diffs != [] ==> Votes(diffs, key) == if Count(diffs[0], key) == 0 then 0 else |diffs|
    decreases |diffs|
  {
    if diffs != [] {
      var front := diffs[..|diffs| - 1];
      CountConcat(Proposals(front), diffs[|diffs| - 1], key);
      if front != [] {
        CountUniform(front, key);
      }
    }
  }

  // Every proposal is some candidate's.
  lemma {:induction false} ProposalsFromCandidates(diffs: seq<seq<Suggestion>>, s: Suggestion)
    ensures s in Proposals(diffs) <==> exists c :: 0 <= c < |diffs| && s in diffs[c]
    decreases |diffs|
  {
    if diffs != [] {
      var last := |diffs| - 1;
      ProposalsFromCandidates(diffs[..last], s);
      if exists c :: 0 <= c < last && s in diffs[..last][c] {
        var c :| 0 <= c < last && s in diffs[..last][c];
        assert s in diffs[c];
      }
      if c :| 0 <= c < |diffs| && s in diffs[c] {
        assert c < last ==> s in diffs[..last][c];
      }
    }
  }

  lemma FirstUniform(diffs: seq<seq<Suggestion>>, s: Suggestion)
    requires |diffs| > 0 && forall c :: 0 <= c < |diffs| ==> diffs[c] == diffs[0]
    requires s in diffs[0] && Distinct(diffs[0]) && Votes(diffs, KeyOf(s)) > 0
    ensures First(Proposals(diffs), KeyOf(s)) == s
  {
    var f := First(Proposals(diffs), KeyOf(s));
    ProposalsFromCandidates(diffs, f);
  }

  // Suggestions of one diff function and category: the key determines the suggestion.
  ghost predicate KeyDetermines(diffs: seq<seq<Suggestion>>) {
    forall s, t :: s in Proposals(diffs) && t in Proposals(diffs) && KeyOf(s) == KeyOf(t) ==> s == t
  }

  // Reordering the candidates changes nothing.
  lemma CandidateOrderIrrelevant(
      diffs: seq<seq<Suggestion>>, diffs': seq<seq<Suggestion>>, out: seq<Suggestion>, out': seq<Suggestion>)
    requires multiset(diffs) == multiset(diffs') && KeyDetermines(diffs)
    requires IsMajority(diffs, out) && IsMajority(diffs', out')
    ensures out == out'
  {
    assert |diffs| == |multiset(diffs)| == |diffs'|;
    forall key
      ensures Votes(diffs, key) == Votes(diffs', key)
      ensures Votes(diffs, key) > 0 ==> First(Proposals(diffs), key) == First(Proposals(diffs'), key)
    {
      VotesPermuted(diffs, diffs', key);
      if Votes(diffs, key) > 0 {
        var f := First(Proposals(diffs'), key);
        ProposalsFromCandidates(diffs', f);
        var c :| 0 <= c < |diffs'| && f in diffs'[c];
        assert diffs'[c] in multiset(diffs);
        var c' :| 0 <= c' < |diffs| && diffs[c'] == diffs'[c];
        ProposalsFromCandidates(diffs, f);
      }
    }
    forall i | 0 <= i < |out'|
      ensures IsElected(diffs, out'[i])
    {
      assert IsElected(diffs', out'[i]);
    }
    assert forall key :: Votes(diffs, key) >= Quorum(|diffs|) ==> Votes(diffs', key) >= Quorum(|diffs'|);
    MajorityUnique(diffs, out, out');
  }

  lemma {:induction false} VotesPermuted(diffs: seq<seq<Suggestion>>, diffs': seq<seq<Suggestion>>, key: Key)
    requires multiset(diffs) == multiset(diffs')
    ensures Votes(diffs, key) == Votes(diffs', key)
    decreases |diffs|
  {
    assert |diffs| == |multiset(diffs)| == |multiset(diffs')| == |diffs'|;
    if diffs != [] {
      var last := |diffs| - 1;
      var x := diffs[last];
      assert x in multiset(diffs');
      var i :| 0 <= i < |diffs'| && diffs'[i] == x;
      var rest := diffs'[..i] + diffs'[i + 1..];
      assert diffs == diffs[..last] + [x];
      assert diffs' == diffs'[..i] + [x] + diffs'[i + 1..];
      assert multiset(diffs[..last]) == multiset(diffs) - multiset{x};
      assert multiset(rest) == multiset(diffs') - multiset{x};
      VotesPermuted(diffs[..last], rest, key);
      VotesConcat(diffs'[..i], diffs'[i + 1..], key);
      VotesConcat(diffs'[..i] + [x], diffs'[i + 1..], key);
      VotesConcat(diffs'[..i], [x], key);
      VotesConcat(diffs[..last], [x], key);
    }
  }

  lemma {:induction false} VotesConcat(a: seq<seq<Suggestion>>, b: seq<seq<Suggestion>>, key: Key)
    ensures Votes(a + b, key) == Votes(a, key) + Votes(b, key)
    decreases |b|
  {
    if b == [] {
      assert a + b == a;
    } else {
      var last := |b| - 1;
      assert (a + b)[..|a + b| - 1] == a + b[..last];
      VotesConcat(a, b[..last], key);
      CountConcat(Proposals(a + b[..last]), b[last], key);
      CountConcat(Proposals(b[..last]), b[last], key);
    }
  }
}
