// The edit algebra every other module speaks: byte spans, suggestions, the
// last-to-first application loop, and the simultaneous rewriting it must equal.
module Edits {

  newtype Byte = b: int | 0 <= b < 256

  // A text is its UTF-8 bytes; all offsets are byte offsets.
  type Text = seq<Byte>

  datatype Option<+T> = None | Some(value: T)

  // A half-open byte range [start, end).
  datatype Span = Span(start: int, end: int) {
    // Span.Validate returns no error.
    predicate Valid(textLen: int) {
      0 <= start <= end <= textLen
    }

    predicate ZeroWidth() {
      start == end
    }
  }

  datatype Model = Harper | GECToR | LLM | LTRule

  datatype Category = Grammar | Spelling | Punctuation | Typography | Style | Unknown

  datatype Suggestion = Suggestion(
    span: Span,
    replacement: Text,
    model: Model,
    category: Category,
    confidence: real
  ) {
    // The text with this suggestion's span replaced; an invalid span changes nothing.
    function Apply(original: Text): Text {
      if span.Valid(|original|) then
        original[..span.start] + replacement + original[span.end..]
      else
        original
    }

    // The suggestion shifted by `offset` bytes.
    function Shift(offset: int): Suggestion {
      this.(span := Span(span.start + offset, span.end + offset))
    }
  }

  predicate Overlaps(a: Span, b: Span) {
    a.start < b.end && b.start < a.end
  }

  // --- Ordered edit lists and simultaneous rewriting ------------------------------------

  // Valid spans inside [from, to), each starting no earlier than the previous one ends.
  predicate Ordered(edits: seq<Suggestion>, from: int, to: int) {
    if edits == [] then from <= to
    else
      && from <= edits[0].span.start <= edits[0].span.end
      && Ordered(edits[1..], edits[0].span.end, to)
  }

  // What text[from..to] becomes when all edits are replaced at once.
  function Rewrite(text: Text, from: int, to: int, edits: seq<Suggestion>): Text
    requires 0 <= from && to <= |text| && Ordered(edits, from, to)
    decreases |edits|
  {
    if edits == [] then text[from..to]
    else
      OrderedBounds(edits, from, to);
      text[from..edits[0].span.start] + edits[0].replacement
      + Rewrite(text, edits[0].span.end, to, edits[1..])
  }

  lemma {:induction false} OrderedBounds(edits: seq<Suggestion>, from: int, to: int)
    requires Ordered(edits, from, to)
    ensures from <= to
    ensures forall i :: 0 <= i < |edits| ==> from <= edits[i].span.start <= edits[i].span.end <= to
    decreases |edits|
  {
    if edits != [] {
      OrderedBounds(edits[1..], edits[0].span.end, to);
      forall i | 0 <= i < |edits|
        ensures from <= edits[i].span.start <= edits[i].span.end <= to
      {
        if i > 0 {
          assert edits[i] == edits[1..][i - 1];
        }
      }
    }
  }

  // Ordered, index by index: the recursive reading and the pairwise one agree.
  lemma {:induction false} OrderedIffPairwise(edits: seq<Suggestion>, from: int, to: int)
    requires from <= to
    ensures Ordered(edits, from, to) <==>
            && (forall i :: 0 <= i < |edits| ==> from <= edits[i].span.start <= edits[i].span.end <= to)
            && (forall i, j :: 0 <= i < j < |edits| ==> edits[i].span.end <= edits[j].span.start)
    decreases |edits|
  {
    if edits != [] {
      var rest, mid := edits[1..], edits[0].span.end;
      assert forall j :: 0 < j < |edits| ==> edits[j] == rest[j - 1];
      if mid <= to {
        OrderedIffPairwise(rest, mid, to);
        if Ordered(edits, from, to) {
          forall i, j | 0 <= i < j < |edits|
            ensures edits[i].span.end <= edits[j].span.start
          {
            if i > 0 {
              assert edits[i] == rest[i - 1] && edits[j] == rest[j - 1];
            }
          }
        }
        if && (forall i :: 0 <= i < |edits| ==> from <= edits[i].span.start <= edits[i].span.end <= to)
           && (forall i, j :: 0 <= i < j < |edits| ==> edits[i].span.end <= edits[j].span.start) {
          assert forall i :: 0 <= i < |rest| ==> rest[i] == edits[i + 1];
          assert forall i :: 0 <= i < |rest| ==> mid <= rest[i].span.start <= rest[i].span.end <= to;
          assert forall i, j :: 0 <= i < j < |rest| ==> rest[i].span.end <= rest[j].span.start;
        }
      } else if Ordered(edits, from, to) {
        OrderedBounds(edits, from, to);
      }
    }
  }

  lemma {:induction false} OrderedWiden(edits: seq<Suggestion>, from: int, to: int, from': int, to': int)
    requires Ordered(edits, from, to) && from' <= from && to <= to'
    ensures Ordered(edits, from', to')
    decreases |edits|
  {
    if edits != [] {
      OrderedWiden(edits[1..], edits[0].span.end, to, edits[0].span.end, to');
    }
  }

  // An ordered list can be split after its first k edits, at any point between them.
  lemma {:induction false} OrderedSplit(edits: seq<Suggestion>, k: nat, from: int, mid: int, to: int)
    requires k <= |edits| && Ordered(edits, from, to) && from <= mid <= to
    requires k > 0 ==> edits[k - 1].span.end <= mid
    requires k < |edits| ==> mid <= edits[k].span.start
    ensures Ordered(edits[..k], from, mid) && Ordered(edits[k..], mid, to)
    decreases k
  {
    if k == 0 {
      assert edits[k..] == edits;
      if edits != [] { assert Ordered(edits[1..], edits[0].span.end, to); }
    } else {
      OrderedBounds(edits, from, to);
      assert edits[..k][1..] == edits[1..][..k - 1];
      assert edits[k..] == edits[1..][k - 1..];
      if k > 1 {
        assert edits[1..][k - 2] == edits[k - 1];
        OrderedBounds(edits[1..], edits[0].span.end, to);
      }
      OrderedSplit(edits[1..], k - 1, edits[0].span.end, mid, to);
    }
  }

  lemma RewriteConcatStep(
      text: Text, s: Suggestion, a: seq<Suggestion>, b: seq<Suggestion>, from: int, mid: int, to: int)
    requires 0 <= from <= s.span.start <= s.span.end && 0 <= mid <= |text| && to <= |text|
    requires Ordered(a, s.span.end, mid) && Ordered(b, mid, to) && Ordered(a + b, s.span.end, to)
    requires Rewrite(text, s.span.end, to, a + b) == Rewrite(text, s.span.end, mid, a) + Rewrite(text, mid, to, b)
    ensures Ordered([s] + a, from, mid) && Ordered([s] + (a + b), from, to)
    ensures Rewrite(text, from, to, [s] + (a + b)) == Rewrite(text, from, mid, [s] + a) + Rewrite(text, mid, to, b)
  {
    hide Rewrite, Ordered;
    RewriteCons(text, from, mid, s, a);
    RewriteCons(text, from, to, s, a + b);
    AppendAssoc(text[from..s.span.start] + s.replacement, Rewrite(text, s.span.end, mid, a), Rewrite(text, mid, to, b));
  }

  lemma AppendAssoc<T>(a: seq<T>, b: seq<T>, c: seq<T>)
    ensures a + (b + c) == a + b + c
  {
  }

  lemma RewriteNothing(text: Text, from: int, to: int)
    requires 0 <= from <= to <= |text|
    ensures Ordered([], from, to) && Rewrite(text, from, to, []) == text[from..to]
  {
  }

  lemma RewriteCons(text: Text, from: int, to: int, s: Suggestion, rest: seq<Suggestion>)
    requires 0 <= from <= s.span.start <= s.span.end && to <= |text| && Ordered(rest, s.span.end, to)
    ensures Ordered([s] + rest, from, to) && from <= s.span.start <= |text|
    ensures Rewrite(text, from, to, [s] + rest)
         == text[from..s.span.start] + s.replacement + Rewrite(text, s.span.end, to, rest)
  {
    assert ([s] + rest)[1..] == rest;
    OrderedBounds(rest, s.span.end, to);
  }

  // Untouched text before the first edit.
  lemma RewriteSkip(text: Text, from: int, mid: int, to: int, edits: seq<Suggestion>)
    requires 0 <= from <= mid && to <= |text| && Ordered(edits, mid, to)
    ensures Ordered(edits, from, to) && mid <= to
    ensures Rewrite(text, from, to, edits) == text[from..mid] + Rewrite(text, mid, to, edits)
  {
    OrderedBounds(edits, mid, to);
    if edits == [] {
      assert text[from..to] == text[from..mid] + text[mid..to];
    } else {
      var s, rest := edits[0], edits[1..];
      assert Ordered(rest, s.span.end, to) && mid <= s.span.start <= s.span.end;
      hide Rewrite, Ordered;
      RewriteCons(text, mid, to, s, rest);
      RewriteCons(text, from, to, s, rest);
      assert edits == [s] + rest;
      SplitHead(text, from, mid, s.span.start, s.replacement, Rewrite(text, s.span.end, to, rest));
    }
  }

  lemma SplitHead(text: Text, from: int, mid: int, start: int, a: Text, b: Text)
    requires 0 <= from <= mid <= start <= |text|
    ensures text[from..start] + a + b == text[from..mid] + (text[mid..start] + a + b)
  {
    assert text[from..start] == text[from..mid] + text[mid..start];
  }

  // Rewriting distributes over a cut: the heart of every later offset argument.
  lemma {:induction false} RewriteConcat(
      text: Text, a: seq<Suggestion>, b: seq<Suggestion>, from: int, mid: int, to: int)
    requires 0 <= from && to <= |text| && Ordered(a, from, mid) && Ordered(b, mid, to)
    ensures mid <= |text| && 0 <= mid && Ordered(a + b, from, to)
    ensures Rewrite(text, from, to, a + b) == Rewrite(text, from, mid, a) + Rewrite(text, mid, to, b)
    decreases |a|
  {
    if a == [] {
      assert a + b == b;
      RewriteSkip(text, from, mid, to, b);
    } else {
      RewriteConcat(text, a[1..], b, a[0].span.end, mid, to);
      RewriteConcatStep(text, a[0], a[1..], b, from, mid, to);
      assert a == [a[0]] + a[1..] && a + b == [a[0]] + (a[1..] + b);
    }
  }

  // --- applyAll ---------------------------------------------------------------------------

  // Applying a list from its last suggestion to its first.
  function AppliedLastFirst(text: Text, sugs: seq<Suggestion>): Text {
    if sugs == [] then text else sugs[0].Apply(AppliedLastFirst(text, sugs[1..]))
  }

  method ApplyAll(text: Text, sugs: seq<Suggestion>) returns (out: Text)
    ensures out == AppliedLastFirst(text, sugs)
    ensures Ordered(sugs, 0, |text|) ==> out == Rewrite(text, 0, |text|, sugs)
  {
    out := text;
    var i := |sugs|;
    while i > 0
      invariant 0 <= i <= |sugs|
      invariant out == AppliedLastFirst(text, sugs[i..])
    {
      i := i - 1;
      assert sugs[i..][1..] == sugs[i + 1..];
      out := sugs[i].Apply(out);
    }
    assert sugs[0..] == sugs;
    if Ordered(sugs, 0, |text|) {
      LastFirstIsRewrite(text, sugs, 0);
    }
  }

  // Last-to-first application is simultaneous replacement, on any ordered list.
  lemma {:induction false} LastFirstIsRewrite(text: Text, sugs: seq<Suggestion>, from: int)
    requires 0 <= from && Ordered(sugs, from, |text|)
    ensures from <= |text|
    ensures AppliedLastFirst(text, sugs) == text[..from] + Rewrite(text, from, |text|, sugs)
    decreases |sugs|
  {
    OrderedBounds(sugs, from, |text|);
    if sugs == [] {
      assert text == text[..from] + text[from..];
    } else {
      var s := sugs[0];
      LastFirstIsRewrite(text, sugs[1..], s.span.end);
      var inner := AppliedLastFirst(text, sugs[1..]);
      var tail := Rewrite(text, s.span.end, |text|, sugs[1..]);
      assert inner == text[..s.span.end] + tail;
      assert inner[..s.span.start] == text[..s.span.start];
      assert inner[s.span.end..] == tail;
      assert text[..s.span.start] == text[..from] + text[from..s.span.start];
    }
  }
}
