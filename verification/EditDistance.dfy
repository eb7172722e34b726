// eval/lib_edit_match.py: the distance-reduction oracle and the rolling two-row
// Levenshtein program it rests on.
module EditDistance {
  import opened Edits

  function Min(a: nat, b: nat): nat { if a <= b then a else b }

  function Front<T>(s: seq<T>): seq<T>
    requires s != []
  {
    s[..|s| - 1]
  }

  function Last<T>(s: seq<T>): T
    requires s != []
  {
    s[|s| - 1]
  }

  // The recurrence of the program's table.
  function Distance(a: string, b: string): nat
    decreases |a| + |b|
  {
    if a == [] then |b|
    else if b == [] then |a|
    else Best(Distance(Front(a), b), Distance(a, Front(b)), Distance(Front(a), Front(b)), Last(a) == Last(b))
  }

  // A cell from the one above, the one to the left and the one on the diagonal.
  function Best(above: nat, left: nat, diagonal: nat, same: bool): nat {
    Min(Min(above + 1, left + 1), diagonal + if same then 0 else 1)
  }

  // edit_distance.
  method EditDistance(a: string, b: string) returns (d: nat)
    ensures d == Distance(a, b)
  {
    if a == b {
      DistanceSelf(a);
      return 0;
    }
    var la, lb := |a|, |b|;
    if la == 0 {
      return lb;
    }
    if lb == 0 {
      return la;
    }
    var prev := new nat[lb + 1](j => j);
    var curr: array<nat>;
    for i := 1 to la + 1
      invariant prev.Length == lb + 1
      invariant forall j :: 0 <= j <= lb ==> prev[j] == Distance(a[..i - 1], b[..j])
    {
      curr := NextRow(a, b, i, prev);
      prev := curr;
    }
    assert a[..la] == a && b[..lb] == b;
    return prev[lb];
  }

  // One turn of the outer loop: row i of the table from row i - 1.
  method NextRow(a: string, b: string, i: nat, prev: array<nat>) returns (curr: array<nat>)
    requires 1 <= i <= |a| && prev.Length == |b| + 1
    requires forall j :: 0 <= j <= |b| ==> prev[j] == Distance(a[..i - 1], b[..j])
    ensures fresh(curr) && curr.Length == |b| + 1
    ensures forall j :: 0 <= j <= |b| ==> curr[j] == Distance(a[..i], b[..j])
  {
    hide Distance;
    curr := new nat[|b| + 1](j => if j == 0 then i else 0);
    var ca := a[i - 1];
    FirstCell(a, b, i);
    for j := 1 to |b| + 1
      invariant forall k :: 0 <= k < j ==> curr[k] == Distance(a[..i], b[..k])
    {
      var cost := if ca == b[j - 1] then 0 else 1;
      NextCell(a, b, i, j);
      curr[j] := Min(Min(prev[j] + 1, curr[j - 1] + 1), prev[j - 1] + cost);
    }
  }

  lemma FirstCell(a: string, b: string, i: nat)
    requires 1 <= i <= |a|
    ensures Distance(a[..i], b[..0]) == i
  {
  }

  lemma NextCell(a: string, b: string, i: nat, j: nat)
    requires 1 <= i <= |a| && 1 <= j <= |b|
    ensures Distance(a[..i], b[..j])
         == Best(Distance(a[..i - 1], b[..j]), Distance(a[..i], b[..j - 1]), Distance(a[..i - 1], b[..j - 1]),
                 a[i - 1] == b[j - 1])
  {
    hide Distance, Best;
    Recurrence(a[..i], b[..j]);
    assert Front(a[..i]) == a[..i - 1] && Front(b[..j]) == b[..j - 1];
  }

  lemma Recurrence(a: string, b: string)
    requires a != [] && b != []
    ensures Distance(a, b)
         == Best(Distance(Front(a), b), Distance(a, Front(b)), Distance(Front(a), Front(b)), Last(a) == Last(b))
  {
    hide Best, Front, Last;
  }

  // --- The value is the least number of single-character edits ----------------------------------

  // y is x with u, at some place, replaced by v; u and v are at most one character.
  ghost predicate OneEditAt(x: string, y: string, p: string, u: string, v: string, q: string) {
    |u| <= 1 && |v| <= 1 && |u| + |v| >= 1 && x == p + u + q && y == p + v + q
  }

  // An insertion, a deletion or a substitution of one character.
  ghost predicate OneEdit(x: string, y: string) {
    exists p, u, v, q :: OneEditAt(x, y, p, u, v, q)
  }

  ghost predicate Reaches(x: string, y: string, n: nat)
    decreases n
  {
    if n == 0 then x == y else exists z :: OneEdit(x, z) && Reaches(z, y, n - 1)
  }

  lemma {:induction false} DistanceSelf(a: string)
    ensures Distance(a, a) == 0
  {
    if a != [] {
      DistanceSelf(Front(a));
    }
  }

  // One character more or less, or another one, at the end changes the distance by at most one.
  lemma {:induction false} NearAtEnd(p: string, u: string, v: string, y: string)
    requires |u| <= 1 && |v| <= 1
    ensures Distance(p + u, y) <= Distance(p + v, y) + 1
    decreases |y|
  {
    assert u == [] ==> p + u == p;
    assert v == [] ==> p + v == p;
    if u != [] { assert Front(p + u) == p; }
    if v != [] { assert Front(p + v) == p; }
    if y != [] {
      NearAtEnd(p, u, v, Front(y));
      NearAtEnd(p, u, [], Front(y));
      NearAtEnd(p, [], v, Front(y));
      assert p + [] == p;
    }
  }

  // And so does a change anywhere.
  lemma {:induction false} Near(p: string, u: string, v: string, q: string, y: string)
    requires |u| <= 1 && |v| <= 1
    ensures Distance(p + u + q, y) <= Distance(p + v + q, y) + 1
    decreases |q| + |y|
  {
    if q == [] {
      assert p + u + q == p + u && p + v + q == p + v;
      NearAtEnd(p, u, v, y);
    } else if y != [] {
      var xu, xv := p + u + q, p + v + q;
      assert Front(xu) == p + u + Front(q) && Front(xv) == p + v + Front(q);
      assert Last(xu) == Last(q) == Last(xv);
      Near(p, u, v, Front(q), y);
      Near(p, u, v, q, Front(y));
      Near(p, u, v, Front(q), Front(y));
    }
  }

  lemma {:induction false} DistanceIsLowerBound(a: string, b: string, n: nat)
    requires Reaches(a, b, n)
    ensures Distance(a, b) <= n
    decreases n
  {
    if n == 0 {
      DistanceSelf(a);
    } else {
      var z :| OneEdit(a, z) && Reaches(z, b, n - 1);
      var p, u, v, q :| OneEditAt(a, z, p, u, v, q);
      DistanceIsLowerBound(z, b, n - 1);
      Near(p, u, v, q, b);
    }
  }

  lemma {:induction false} ReachesThen(x: string, y: string, z: string, m: nat, n: nat)
    requires Reaches(x, y, m) && Reaches(y, z, n)
    ensures Reaches(x, z, m + n)
    decreases m
  {
    if m > 0 {
      var w :| OneEdit(x, w) && Reaches(w, y, m - 1);
      ReachesThen(w, y, z, m - 1, n);
    }
  }

  lemma ReachesOnce(x: string, y: string, p: string, u: string, v: string, q: string)
    requires OneEditAt(x, y, p, u, v, q)
    ensures Reaches(x, y, 1)
  {
    assert OneEdit(x, y);
    assert Reaches(y, y, 0);
  }

  lemma {:induction false} ReachesUnder(x: string, y: string, c: string, n: nat)
    requires Reaches(x, y, n)
    ensures Reaches(x + c, y + c, n)
    decreases n
  {
    if n > 0 {
      var z :| OneEdit(x, z) && Reaches(z, y, n - 1);
      var p, u, v, q :| OneEditAt(x, z, p, u, v, q);
      assert x + c == p + u + (q + c) && z + c == p + v + (q + c);
      assert OneEditAt(x + c, z + c, p, u, v, q + c);
      ReachesUnder(z, y, c, n - 1);
      assert OneEdit(x + c, z + c) && Reaches(z + c, y + c, n - 1);
    }
  }

  lemma ReachesSelf(a: string)
    ensures Reaches(a, a, 0)
  {
  }

  lemma ReachesByInsertion(a: string, b: string, n: nat)
    requires b != [] && Reaches(a, Front(b), n)
    ensures Reaches(a, b, n + 1)
  {
    hide Reaches, OneEdit;
    var x, c := Front(b), [Last(b)];
    assert x == x + [] + [] && b == x + c + [];
    ReachesOnce(x, b, x, [], c, []);
    ReachesThen(a, x, b, n, 1);
  }

  lemma ReachesByDeletion(a: string, b: string, n: nat)
    requires a != [] && Reaches(Front(a), b, n)
    ensures Reaches(a, b, n + 1)
  {
    hide Reaches, OneEdit;
    var x, c := Front(a), [Last(a)];
    assert a == x + c + [] && x == x + [] + [];
    ReachesOnce(a, x, x, c, [], []);
    ReachesThen(a, x, b, 1, n);
  }

  lemma {:induction false} DistanceIsReached(a: string, b: string)
    ensures Reaches(a, b, Distance(a, b))
    decreases |a| + |b|
  {
    hide Reaches, Distance;
    BorderDistance(a, b);
    if a == [] && b == [] {
      ReachesSelf(a);
    } else if a == [] || (b != [] && Distance(a, b) == Distance(a, Front(b)) + 1) {
      DistanceIsReached(a, Front(b));
      BorderDistance(a, Front(b));
      ReachesByInsertion(a, b, Distance(a, Front(b)));
    } else if b == [] || Distance(a, b) == Distance(Front(a), b) + 1 {
      DistanceIsReached(Front(a), b);
      BorderDistance(Front(a), b);
      ReachesByDeletion(a, b, Distance(Front(a), b));
    } else {
      Recurrence(a, b);
      DistanceIsReached(Front(a), Front(b));
      assert a == Front(a) + [Last(a)] && b == Front(b) + [Last(b)];
      ReachesDiagonally(Front(a), [Last(a)], Front(b), [Last(b)], Distance(Front(a), Front(b)));
    }
  }

  // The table's borders.
  lemma BorderDistance(a: string, b: string)
    ensures a == [] ==> Distance(a, b) == |b|
    ensures b == [] ==> Distance(a, b) == |a|
  {
  }

  lemma ReachesDiagonally(x: string, u: string, y: string, v: string, n: nat)
    requires Reaches(x, y, n) && |u| == |v| == 1
    ensures Reaches(x + u, y + v, if u == v then n else n + 1)
  {
    ReachesUnder(x, y, v, n);
    if u != v {
      hide Reaches;
      assert x + u == x + u + [] && x + v == x + v + [];
      ReachesOnce(x + u, x + v, x, u, v, []);
      ReachesThen(x + u, x + v, y + v, 1, n);
    }
  }

  // Main result: the program computes the length of a shortest edit sequence.
  lemma DistanceIsLeast(a: string, b: string)
    ensures Reaches(a, b, Distance(a, b))
    ensures forall n: nat :: Reaches(a, b, n) ==> Distance(a, b) <= n
  {
    DistanceIsReached(a, b);
    forall n | Reaches(a, b, n)
      ensures Distance(a, b) <= n
    {
      DistanceIsLowerBound(a, b, n);
    }
  }

  lemma {:induction false} DistanceSymmetric(a: string, b: string)
    ensures Distance(a, b) == Distance(b, a)
    decreases |a| + |b|
  {
    if a != [] && b != [] {
      DistanceSymmetric(Front(a), b);
      DistanceSymmetric(a, Front(b));
      DistanceSymmetric(Front(a), Front(b));
    }
  }

  // The value is a metric.
  lemma DistanceIsMetric(a: string, b: string, c: string)
    ensures Distance(a, b) == 0 <==> a == b
    ensures Distance(a, b) == Distance(b, a)
    ensures Distance(a, c) <= Distance(a, b) + Distance(b, c)
  {
    hide Distance;
    DistanceSelf(a);
    DistanceIsReached(a, b);
    DistanceSymmetric(a, b);
    DistanceIsReached(b, c);
    ReachesThen(a, b, c, Distance(a, b), Distance(b, c));
    DistanceIsLowerBound(a, c, Distance(a, b) + Distance(b, c));
  }

  // --- The oracle ----------------------------------------------------------------------------------

  // Python's slice bounds: negative indices count from the end, then everything is clamped.
  function Clamped(i: int, n: nat): (r: nat)
    ensures r <= n
  {
    if i < 0 then (if i + n < 0 then 0 else i + n) else if i > n then n else i
  }

  function Spliced(bytes: Text, start: int, end: int, replacement: Text): Text {
    var lo := Clamped(start, |bytes|);
    var hi := Clamped(end, |bytes|);
    bytes[..lo] + replacement + bytes[if hi < lo then lo else hi..]
  }

  // UTF-8 encoding and (replacing) decoding are foreign.
  datatype Codec = Codec(encode: string -> Text, decode: Text -> string)

  function ApplyEdit(codec: Codec, input: string, start: int, end: int, replacement: string): string {
    codec.decode(Spliced(codec.encode(input), start, end, codec.encode(replacement)))
  }

  // edit_is_correct.
  method EditIsCorrect(codec: Codec, input: string, golden: string, start: int, end: int, replacement: string)
      returns (correct: bool)
    ensures correct <==> Distance(ApplyEdit(codec, input, start, end, replacement), golden) < Distance(input, golden)
  {
    var after := ApplyEdit(codec, input, start, end, replacement);
    var beforeDist := EditDistance(input, golden);
    var afterDist := EditDistance(after, golden);
    correct := afterDist < beforeDist;
  }

  ghost predicate Closer(after: string, input: string, golden: string) {
    Distance(after, golden) < Distance(input, golden)
  }

  // Every edit sequence from x to y takes more than n steps.
  ghost predicate AllLonger(x: string, y: string, n: nat) {
    forall m: nat :: Reaches(x, y, m) ==> n < m
  }

  // What the oracle relies on: reaching the golden text is always correct, an unchanged text
  // never is, nothing is correct on a golden input, no cycle of edits is correct all the way
  // round, and an edit accepted as correct leaves strictly fewer steps to the golden text.
  lemma OracleSound(after: string, input: string, golden: string)
    ensures after == golden && input != golden ==> Closer(after, input, golden)
    ensures Closer(after, input, golden) ==> after != input && input != golden
    ensures !(Closer(after, input, golden) && Closer(input, after, golden))
    ensures Closer(after, input, golden) <==>
              exists n: nat :: Reaches(after, golden, n) && AllLonger(input, golden, n)
  {
    DistanceIsMetric(input, golden, golden);
    DistanceIsMetric(after, golden, golden);
    DistanceIsLeast(after, golden);
    DistanceIsLeast(input, golden);
    if Closer(after, input, golden) {
      assert AllLonger(input, golden, Distance(after, golden));
    }
    if n: nat :| Reaches(after, golden, n) && AllLonger(input, golden, n) {
      assert n < Distance(input, golden);
    }
  }
}
