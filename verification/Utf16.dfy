// ltcompat: byte-span suggestions become UTF-16 matches. Applying a match to the UTF-16
// form of the text must give the UTF-16 form of the corrected text (RFC 2781, section 2.1).
module Utf16 {
  import opened Edits
  import opened Utf8

  type Units = seq<int>

  // One unit, or a surrogate pair.
  function EncodeRune(r: int): (u: Units)
    ensures |u| == if r > 0xFFFF then 2 else 1
  {
    if r > 0xFFFF then [0xD800 + (r - 0x10000) / 0x400, 0xDC00 + (r - 0x10000) % 0x400] else [r]
  }

  function Encode(text: Text): Units {
    if text == [] then []
    else
      var r := DecodeRune(text);
      EncodeRune(r.value) + Encode(text[r.size..])
  }

  // One unit is the value itself; two are a high and a low surrogate that spell it (section 2.1
  // of RFC 2781).
  lemma EncodeRuneExact(r: int)
    requires 0 <= r <= 0x10FFFF
    ensures var u := EncodeRune(r);
            if r <= 0xFFFF then u == [r]
            else |u| == 2 && 0xD800 <= u[0] <= 0xDBFF && 0xDC00 <= u[1] <= 0xDFFF
                 && r == 0x10000 + (u[0] - 0xD800) * 0x400 + (u[1] - 0xDC00)
  {
  }

  // --- Rune boundaries -----------------------------------------------------------------------

  predicate StartsWellFormed(s: Text) {
    s != [] && Announced(s[0]) > 0 && Announced(s[0]) <= |s| && WellFormedPrefix(s, Announced(s[0]))
  }

  predicate ValidUtf8(s: Text) {
    s != [] ==> StartsWellFormed(s) && ValidUtf8(s[DecodeRune(s).size..])
  }

  lemma WellFormedKeeps(s: Text, t: Text)
    requires StartsWellFormed(s)
    ensures StartsWellFormed(s + t) && DecodeRune(s + t) == DecodeRune(s)
  {
  }

  lemma PrefixKeepsFirst(s: Text, at: int)
    requires StartsWellFormed(s) && DecodeRune(s).size <= at <= |s|
    ensures StartsWellFormed(s[..at]) && DecodeRune(s[..at]) == DecodeRune(s)
  {
  }

  // The first byte of a rune leads, the others continue it.
  lemma FirstRuneBytes(s: Text)
    requires StartsWellFormed(s)
    ensures !IsContinuation(s[0]) && DecodeRune(s).size <= |s|
    ensures forall k :: 1 <= k < DecodeRune(s).size ==> IsContinuation(s[k])
  {
  }

  // Encoding distributes over concatenation after a valid text.
  lemma {:induction false} EncodeConcat(s: Text, t: Text)
    requires ValidUtf8(s)
    ensures Encode(s + t) == Encode(s) + Encode(t)
    decreases |s|
  {
    hide StartsWellFormed, DecodeRune, EncodeRune;
    if s == [] {
      assert s + t == t;
    } else {
      var n := DecodeRune(s).size;
      WellFormedKeeps(s, t);
      assert (s + t)[n..] == s[n..] + t;
      EncodeConcat(s[n..], t);
    }
  }

  lemma {:induction false} ValidConcat(s: Text, t: Text)
    requires ValidUtf8(s) && ValidUtf8(t)
    ensures ValidUtf8(s + t)
    decreases |s|
  {
    hide StartsWellFormed, DecodeRune;
    if s == [] {
      assert s + t == t;
    } else {
      var n := DecodeRune(s).size;
      WellFormedKeeps(s, t);
      assert (s + t)[n..] == s[n..] + t;
      ValidConcat(s[n..], t);
    }
  }

  // Both parts of a valid text cut at a boundary are valid.
  lemma {:induction false} BoundaryCuts(s: Text, at: int)
    requires ValidUtf8(s) && Boundary(s, at)
    ensures 0 <= at <= |s| && ValidUtf8(s[..at]) && ValidUtf8(s[at..])
    decreases |s|
  {
    hide StartsWellFormed, DecodeRune;
    if at != 0 {
      var n := DecodeRune(s).size;
      BoundaryCuts(s[n..], at - n);
      PrefixKeepsFirst(s, at);
      assert s[..at][n..] == s[n..][..at - n] && s[n..][at - n..] == s[at..];
    } else {
      assert s[..0] == [] && s[0..] == s;
    }
  }

  // --- byteToUTF16Offset ---------------------------------------------------------------------------

  // The units of all runes that start before the offset.
  function UnitsBefore(text: Text, offset: int): nat {
    if offset <= 0 || text == [] then 0
    else
      var r := DecodeRune(text);
      |EncodeRune(r.value)| + UnitsBefore(text[r.size..], offset - r.size)
  }

  method ByteToUTF16Offset(text: Text, byteOffset: int) returns (units: int)
    ensures units == UnitsBefore(text, byteOffset)
  {
    if byteOffset <= 0 {
      return 0;
    }
    units := 0;
    var i := 0;
    ghost var goal := UnitsBefore(text, byteOffset);
    assert text[0..] == text;
    while i < |text|
      invariant 0 <= i <= |text|
      invariant units + UnitsAhead(text, i, byteOffset) == goal
      decreases |text| - i
    {
      if i >= byteOffset {
        return units;
      }
      var r := DecodeRune(text[i..]);
      UnitsStep(text, i, byteOffset);
      if r.value > 0xFFFF {
        units := units + 2;
      } else {
        units := units + 1;
      }
      i := i + r.size;
    }
  }

  // The units still to count from byte i on.
  function UnitsAhead(text: Text, i: nat, offset: int): (n: nat)
    requires i <= |text|
    ensures i >= offset || i == |text| ==> n == 0
  {
    UnitsBefore(text[i..], offset - i)
  }

  lemma UnitsStep(text: Text, i: nat, offset: int)
    requires i < |text| && i < offset
    ensures var r := DecodeRune(text[i..]);
            UnitsAhead(text, i, offset)
            == (if r.value > 0xFFFF then 2 else 1) + UnitsAhead(text, i + r.size, offset)
  {
    assert text[i..][DecodeRune(text[i..]).size..] == text[i + DecodeRune(text[i..]).size..];
  }

  // On a rune boundary the offset is the length of the encoded prefix.
  lemma OffsetAtBoundary(text: Text, at: int)
    requires ValidUtf8(text) && Boundary(text, at)
    ensures 0 <= at <= |text| && UnitsBefore(text, at) == |Encode(text[..at])|
    ensures Encode(text) == Encode(text[..at]) + Encode(text[at..])
  {
    hide StartsWellFormed, DecodeRune, EncodeRune, ValidUtf8, Boundary, UnitsBefore, Encode;
    BoundaryCuts(text, at);
    assert text[..at] + text[at..] == text;
    EncodeConcat(text[..at], text[at..]);
    UnitsOfPrefix(text, at);
  }

  lemma {:induction false} UnitsOfPrefix(text: Text, at: int)
    requires ValidUtf8(text) && Boundary(text, at) && 0 <= at <= |text|
    ensures UnitsBefore(text, at) == |Encode(text[..at])|
    decreases |text|
  {
    hide StartsWellFormed, DecodeRune, EncodeRune;
    if at != 0 {
      var n := DecodeRune(text).size;
      BoundaryCuts(text[n..], at - n);
      UnitsOfPrefix(text[n..], at - n);
      EncodePrefix(text, at);
    }
  }

  lemma EncodePrefix(text: Text, at: int)
    requires StartsWellFormed(text) && DecodeRune(text).size <= at <= |text|
    ensures Encode(text[..at])
         == EncodeRune(DecodeRune(text).value) + Encode(text[DecodeRune(text).size..][..at - DecodeRune(text).size])
  {
    hide StartsWellFormed, DecodeRune, EncodeRune;
    var n := DecodeRune(text).size;
    PrefixKeepsFirst(text, at);
    assert text[..at][n..] == text[n..][..at - n];
  }

  // Inside a rune, the rune counts as passed.
  lemma {:induction false} OffsetInsideRune(text: Text, at: int, inside: int)
    requires ValidUtf8(text) && Boundary(text, at) && 0 <= at < |text|
    requires at < inside < at + DecodeRune(text[at..]).size
    ensures UnitsBefore(text, inside) == UnitsBefore(text, at) + |EncodeRune(DecodeRune(text[at..]).value)|
    decreases |text|
  {
    hide StartsWellFormed, DecodeRune, EncodeRune;
    if at == 0 {
      assert text[0..] == text;
    } else {
      var n := DecodeRune(text).size;
      assert text[n..][at - n..] == text[at..];
      OffsetInsideRune(text[n..], at - n, inside - n);
    }
  }

  // --- Matches --------------------------------------------------------------------------------------------

  // What a client does with a match and one of its replacements.
  function ApplyMatch(units: Units, offset: nat, length: nat, value: Units): Units
    requires offset + length <= |units|
  {
    units[..offset] + value + units[offset + length..]
  }

  function ApplyBytes(text: Text, start: int, end: int, replacement: Text): Text
    requires 0 <= start <= end <= |text|
  {
    text[..start] + replacement + text[end..]
  }

  // The core law, for a non-widened span.
  lemma MatchCommutes(text: Text, start: int, end: int, replacement: Text)
    requires ValidUtf8(text) && ValidUtf8(replacement)
    requires Boundary(text, start) && Boundary(text, end) && start <= end
    ensures 0 <= start <= end <= |text|
    ensures var offset := UnitsBefore(text, start);
            var length := UnitsBefore(text, end) - offset;
            && 0 <= length && offset + length <= |Encode(text)|
            && ApplyMatch(Encode(text), offset, length, Encode(replacement))
               == Encode(ApplyBytes(text, start, end, replacement))
  {
    hide ValidUtf8, Boundary, UnitsBefore, Encode;
    OffsetAtBoundary(text, start);
    OffsetAtBoundary(text, end);
    BoundaryCuts(text, start);
    BoundaryCuts(text, end);
    PrefixUnits(text, start, end);
    EncodeConcat(text[..start], replacement);
    ValidConcat(text[..start], replacement);
    EncodeConcat(text[..start] + replacement, text[end..]);
  }

  lemma PrefixUnits(text: Text, start: int, end: int)
    requires ValidUtf8(text) && Boundary(text, start) && Boundary(text, end) && 0 <= start <= end <= |text|
    ensures Encode(text[..end]) == Encode(text[..start]) + Encode(text[start..end])
  {
    hide ValidUtf8, Boundary, Encode;
    BoundaryCuts(text, start);
    assert text[..start] + text[start..end] == text[..end];
    EncodeConcat(text[..start], text[start..end]);
  }

  // --- Widening insertions ------------------------------------------------------------------------------------

  // The nearest rune start at or before s, or 0.
  function BackToRuneStart(text: Text, s: int): (r: int)
    requires 0 <= s < |text|
    ensures 0 <= r <= s && (r == 0 || !IsContinuation(text[r]))
    ensures forall k :: r < k <= s ==> IsContinuation(text[k])
    decreases s
  {
    if s > 0 && IsContinuation(text[s]) then BackToRuneStart(text, s - 1) else s
  }

  datatype Widened = Widened(start: int, end: int, replacement: Text)

  // widenInsertionBytes: anchor on the rune to the left, or on the first rune at text start.
  method WidenInsertionBytes(text: Text, at: int, repl: Text) returns (w: Widened)
    ensures w == Widening(text, at, repl)
  {
    if at > 0 && at <= |text| {
      var s := at - 1;
      while s > 0 && IsContinuation(text[s])
        invariant 0 <= s < at && BackToRuneStart(text, s) == BackToRuneStart(text, at - 1)
      {
        s := s - 1;
      }
      return Widened(s, at, text[s..at] + repl);
    }
    if at == 0 && |text| > 0 {
      var size := DecodeRune(text).size;
      return Widened(0, size, repl + text[..size]);
    }
    return Widened(at, at, repl);
  }

  function Widening(text: Text, at: int, repl: Text): Widened {
    if 0 < at <= |text| then
      var s := BackToRuneStart(text, at - 1);
      Widened(s, at, text[s..at] + repl)
    else if at == 0 && text != [] then
      var size := DecodeRune(text).size;
      Widened(0, size, repl + text[..size])
    else Widened(at, at, repl)
  }

  // On any bytes, the widened edit inserts exactly what the insertion does, and is not empty.
  lemma WideningInserts(text: Text, at: int, repl: Text)
    requires 0 <= at <= |text| && text != []
    ensures var w := Widening(text, at, repl);
            && 0 <= w.start < w.end <= |text|
            && ApplyBytes(text, w.start, w.end, w.replacement) == ApplyBytes(text, at, at, repl)
  {
    var w := Widening(text, at, repl);
    if at > 0 {
      assert text[..w.start] + text[w.start..at] == text[..at];
    } else {
      assert text[..w.end] + text[w.end..] == text;
    }
  }

  // The anchor of an insertion: the rune before it, or the first rune at the start of the text.
  lemma AnchorExact(text: Text, at: int, repl: Text)
    requires ValidUtf8(text) && text != [] && Boundary(text, at) && 0 <= at <= |text|
    ensures var w := Widening(text, at, repl);
            && 0 <= w.start < w.end <= |text| && Boundary(text, w.start)
            && w.end == w.start + DecodeRune(text[w.start..]).size
            && (if at > 0 then w.end == at else w.start == 0)
  {
    if at > 0 {
      var s := BackToRuneStart(text, at - 1);
      BackIsBoundary(text, at);
      RuneHolds(text, s, at - 1);
      BoundaryNext(text, s);
    } else {
      assert text[0..] == text;
    }
  }

  // In a valid text the byte before a boundary leads back to the previous boundary.
  lemma {:induction false} BackIsBoundary(text: Text, at: int)
    requires ValidUtf8(text) && Boundary(text, at) && 0 < at <= |text|
    ensures Boundary(text, BackToRuneStart(text, at - 1))
    decreases |text|
  {
    hide StartsWellFormed, DecodeRune, IsContinuation, BackToRuneStart;
    var n := DecodeRune(text).size;
    if at == n {
      BackOverFirst(text);
    } else {
      var rest := text[n..];
      BoundaryCuts(rest, at - n);
      BackIsBoundary(rest, at - n);
      FirstRuneBytes(rest);
      BackShifts(text, n, at - 1);
    }
  }

  lemma BackOverFirst(text: Text)
    requires StartsWellFormed(text)
    ensures BackToRuneStart(text, DecodeRune(text).size - 1) == 0
  {
    hide StartsWellFormed, DecodeRune, IsContinuation, BackToRuneStart;
    FirstRuneBytes(text);
  }

  lemma {:induction false} BackShifts(text: Text, n: nat, s: int)
    requires n <= s < |text| && !IsContinuation(text[n])
    ensures BackToRuneStart(text, s) == n + BackToRuneStart(text[n..], s - n)
    decreases s
  {
    if s > n && IsContinuation(text[s]) {
      BackShifts(text, n, s - 1);
    }
  }

  datatype Match = Match(offset: int, length: int, values: seq<Text>)

  // The byte span and candidates of a suggestion, insertions widened.
  function Anchored(text: Text, start: int, end: int, candidates: seq<Text>): (int, int, seq<Text>) {
    if start == end && candidates != [] then
      var w := Widening(text, start, candidates[0]);
      (w.start, w.end,
       seq(|candidates|, i requires 0 <= i < |candidates| => Widening(text, start, candidates[i]).replacement))
    else (start, end, candidates)
  }

  // The matching part of suggestionToLTMatch: its candidates are never empty.
  method SuggestionToMatch(text: Text, s: Suggestion, replacements: seq<Text>) returns (m: Match)
    ensures var (start, end, values) :=
              Anchored(text, s.span.start, s.span.end, if replacements == [] then [s.replacement] else replacements);
            m == Match(UnitsBefore(text, start), UnitsBefore(text, end) - UnitsBefore(text, start), values)
  {
    var byteStart, byteEnd := s.span.start, s.span.end;
    var candidates := replacements;
    if |candidates| == 0 {
      candidates := [s.replacement];
    }
    if byteStart == byteEnd {
      var anchored := [];
      for i := 0 to |candidates|
        invariant |anchored| == i
        invariant forall k :: 0 <= k < i ==> anchored[k] == Widening(text, s.span.start, candidates[k]).replacement
        invariant i == 0 ==> byteStart == byteEnd == s.span.start
        invariant i > 0 ==>
                    var w := Widening(text, s.span.start, candidates[0]);
                    byteStart == w.start && byteEnd == w.end
      {
        var w := WidenInsertionBytes(text, s.span.start, candidates[i]);
        byteStart, byteEnd := w.start, w.end;
        anchored := anchored + [w.replacement];
      }
      candidates := anchored;
    }
    var offset := ByteToUTF16Offset(text, byteStart);
    var end := ByteToUTF16Offset(text, byteEnd);
    m := Match(offset, end - offset, candidates);
  }

  // Main result: for every rune-aligned suggestion of a valid text, applying the match with
  // any of its values to the UTF-16 text gives the UTF-16 form of applying that candidate's
  // byte edit,
  // and the match is never empty.
  lemma MatchFaithful(text: Text, span: Span, candidates: seq<Text>, i: nat)
    requires ValidUtf8(text) && text != [] && span.Valid(|text|)
    requires Boundary(text, span.start) && Boundary(text, span.end)
    requires i < |candidates| && ValidUtf8(candidates[i])
    ensures var (start, end, values) := Anchored(text, span.start, span.end, candidates);
            var offset := UnitsBefore(text, start);
            var length := UnitsBefore(text, end) - offset;
            && |values| == |candidates| && 0 < length && offset + length <= |Encode(text)|
            && ApplyMatch(Encode(text), offset, length, Encode(values[i]))
               == Encode(ApplyBytes(text, span.start, span.end, candidates[i]))
  {
    hide Anchored, ValidUtf8, Boundary, UnitsBefore, Encode, ApplyMatch, ApplyBytes;
    var (start, end, values) := Anchored(text, span.start, span.end, candidates);
    AnchoredAligned(text, span, candidates, i);
    MatchCommutes(text, start, end, values[i]);
    NonEmptyUnits(text, start, end);
  }

  // The anchored span is rune-aligned and not empty, and does the same edit.
  lemma AnchoredAligned(text: Text, span: Span, candidates: seq<Text>, i: nat)
    requires ValidUtf8(text) && text != [] && span.Valid(|text|)
    requires Boundary(text, span.start) && Boundary(text, span.end)
    requires i < |candidates| && ValidUtf8(candidates[i])
    ensures var (start, end, values) := Anchored(text, span.start, span.end, candidates);
            && |values| == |candidates| && ValidUtf8(values[i])
            && 0 <= start < end <= |text| && Boundary(text, start) && Boundary(text, end)
            && ApplyBytes(text, start, end, values[i]) == ApplyBytes(text, span.start, span.end, candidates[i])
  {
    hide ValidUtf8, ApplyBytes;
    if span.start == span.end {
      var at := span.start;
      WideningInserts(text, at, candidates[i]);
      WidenedValid(text, at, candidates[i]);
      if at > 0 {
        BackIsBoundary(text, at);
      } else {
        FirstBoundary(text);
      }
    }
  }

  lemma FirstBoundary(text: Text)
    requires text != []
    ensures Boundary(text, DecodeRune(text).size)
  {
    assert Boundary(text[DecodeRune(text).size..], 0);
  }

  lemma WidenedValid(text: Text, at: int, repl: Text)
    requires ValidUtf8(text) && text != [] && Boundary(text, at) && 0 <= at <= |text| && ValidUtf8(repl)
    ensures ValidUtf8(Widening(text, at, repl).replacement)
  {
    if at > 0 {
      var s := BackToRuneStart(text, at - 1);
      BackIsBoundary(text, at);
      SliceValid(text, s, at);
      ValidConcat(text[s..at], repl);
    } else {
      var n := DecodeRune(text).size;
      assert Boundary(text[n..], 0);
      BoundaryCuts(text, n);
      ValidConcat(repl, text[..n]);
    }
  }

  lemma {:induction false} SliceValid(text: Text, start: int, end: int)
    requires ValidUtf8(text) && Boundary(text, start) && Boundary(text, end) && 0 <= start <= end <= |text|
    ensures ValidUtf8(text[start..end])
    decreases |text|
  {
    hide StartsWellFormed, DecodeRune;
    if start == 0 {
      BoundaryCuts(text, end);
      assert text[0..end] == text[..end];
    } else {
      var n := DecodeRune(text).size;
      assert text[n..][start - n..end - n] == text[start..end];
      SliceValid(text[n..], start - n, end - n);
    }
  }

  lemma NonEmptyUnits(text: Text, start: int, end: int)
    requires ValidUtf8(text) && Boundary(text, start) && Boundary(text, end) && 0 <= start < end <= |text|
    ensures UnitsBefore(text, start) < UnitsBefore(text, end)
  {
    OffsetAtBoundary(text, start);
    OffsetAtBoundary(text, end);
    PrefixUnits(text, start, end);
    SliceValid(text, start, end);
  }

  // --- The context window -------------------------------------------------------------------------------------

  function ForwardToRuneStart(text: Text, to: int): (r: int)
    requires 0 <= to <= |text|
    ensures to <= r <= |text| && (r == |text| || !IsContinuation(text[r]))
    ensures forall k :: to <= k < r ==> IsContinuation(text[k])
    decreases |text| - to
  {
    if to < |text| && IsContinuation(text[to]) then ForwardToRuneStart(text, to + 1) else to
  }

  datatype Context = Context(text: Text, offset: int, length: int)

  const WINDOW := 40

  // Where the snippet starts and ends: a window on either side, widened to rune starts.
  function WindowStart(text: Text, at: int): (r: int)
    requires 0 <= at <= |text|
    ensures 0 <= r <= at && (r == 0 || (r < at && !IsContinuation(text[r])))
  {
    if at <= WINDOW then 0 else BackToRuneStart(text, at - WINDOW)
  }

  function WindowEnd(text: Text, at: int): (r: int)
    requires 0 <= at <= |text|
    ensures at <= r <= |text| && (r == |text| || !IsContinuation(text[r]))
  {
    if at + WINDOW >= |text| then |text| else ForwardToRuneStart(text, at + WINDOW)
  }

  function ContextOf(text: Text, byteStart: int, byteEnd: int): Context
    requires 0 <= byteStart <= byteEnd <= |text|
  {
    var from := WindowStart(text, byteStart);
    var snippet := text[from..WindowEnd(text, byteEnd)];
    var offset := UnitsBefore(snippet, byteStart - from);
    Context(snippet, offset, UnitsBefore(snippet, byteEnd - from) - offset)
  }

  // contextWindow.
  method ContextWindow(text: Text, byteStart: int, byteEnd: int) returns (c: Context)
    requires 0 <= byteStart <= byteEnd <= |text|
    ensures c == ContextOf(text, byteStart, byteEnd)
  {
    hide UnitsBefore, IsContinuation;
    var from := byteStart - WINDOW;
    if from < 0 {
      from := 0;
    }
    while from > 0 && IsContinuation(text[from])
      invariant 0 <= from <= byteStart
      invariant WindowStart(text, byteStart) == if from == 0 then 0 else BackToRuneStart(text, from)
    {
      from := from - 1;
    }
    var to := byteEnd + WINDOW;
    if to > |text| {
      to := |text|;
    }
    while to < |text| && IsContinuation(text[to])
      invariant byteEnd <= to <= |text|
      invariant WindowEnd(text, byteEnd) == ForwardToRuneStart(text, to)
    {
      to := to + 1;
    }
    var snippet := text[from..to];
    var start := ByteToUTF16Offset(snippet, byteStart - from);
    var end := ByteToUTF16Offset(snippet, byteEnd - from);
    c := Context(snippet, start, end - start);
  }

  // The snippet of a valid text reaches at least forty bytes to either side, or to the end of
  // the text, and at most three more, to the start of a rune.
  lemma WindowWidth(text: Text, at: int)
    requires ValidUtf8(text) && 0 <= at <= |text|
    ensures var from := WindowStart(text, at);
            if at <= 40 then from == 0 else at - 43 <= from <= at - 40 && Boundary(text, from)
    ensures var to := WindowEnd(text, at);
            if at + 40 >= |text| then to == |text| else at + 40 <= to <= at + 43 && Boundary(text, to)
  {
    hide ValidUtf8, Boundary, IsContinuation, BackToRuneStart, ForwardToRuneStart;
    if at > 40 {
      BackIsClose(text, at - 40);
    }
    if at + 40 < |text| {
      ForwardIsClose(text, at + 40);
    }
  }

  // The rune start at or before a byte, and at or after one, are less than four bytes away.
  lemma BackIsClose(text: Text, at: int)
    requires ValidUtf8(text) && 0 <= at < |text|
    ensures var s := BackToRuneStart(text, at); at - 3 <= s <= at && Boundary(text, s)
  {
    var s := BackToRuneStart(text, at);
    RuneStartsAreBoundaries(text, s);
    RuneHolds(text, s, at);
  }

  // Continuation bytes behind a boundary belong to its rune.
  lemma RuneHolds(text: Text, s: int, at: int)
    requires ValidUtf8(text) && 0 <= s <= at < |text| && Boundary(text, s)
    requires forall k :: s < k <= at ==> IsContinuation(text[k])
    ensures at < s + DecodeRune(text[s..]).size <= s + 4
  {
    BoundaryCuts(text, s);
    var n := DecodeRune(text[s..]).size;
    BoundaryNext(text, s);
    BoundaryLeads(text, s + n);
  }

  lemma BoundaryLeads(text: Text, b: int)
    requires ValidUtf8(text) && 0 <= b <= |text| && Boundary(text, b)
    ensures b < |text| ==> !IsContinuation(text[b])
  {
    BoundaryCuts(text, b);
    if b < |text| {
      FirstRuneBytes(text[b..]);
      assert text[b..][0] == text[b];
    }
  }

  lemma ForwardIsClose(text: Text, at: int)
    requires ValidUtf8(text) && 0 <= at < |text|
    ensures var e := ForwardToRuneStart(text, at); at <= e <= at + 3 && Boundary(text, e)
  {
    hide ValidUtf8, Boundary, IsContinuation, BackToRuneStart, ForwardToRuneStart, DecodeRune;
    var s := BackToRuneStart(text, at);
    RuneStartsAreBoundaries(text, s);
    RuneHolds(text, s, at);
    BoundaryCuts(text, s);
    var e := s + DecodeRune(text[s..]).size;
    BoundaryNext(text, s);
    RuneStartsAreBoundaries(text, ForwardToRuneStart(text, at));
    if at == s {
      StartsHere(text, s);
    } else {
      EndsRune(text, s, at, e);
    }
  }

  lemma StartsHere(text: Text, s: int)
    requires ValidUtf8(text) && 0 <= s < |text| && Boundary(text, s)
    ensures ForwardToRuneStart(text, s) == s
  {
    BoundaryLeads(text, s);
  }

  // From inside a rune the next start is its end.
  lemma EndsRune(text: Text, s: int, at: int, e: int)
    requires ValidUtf8(text) && 0 <= s < at < e <= |text| && Boundary(text, s) && Boundary(text, e)
    requires forall p :: s < p < e ==> !Boundary(text, p)
    requires e <= s + 4
    ensures ForwardToRuneStart(text, at) <= e
  {
    BoundaryLeads(text, e);
  }

  // Every byte of a valid text that can start a rune is a boundary.
  lemma {:induction false} RuneStartsAreBoundaries(text: Text, at: int)
    requires ValidUtf8(text) && 0 <= at <= |text| && (at == |text| || at == 0 || !IsContinuation(text[at]))
    ensures Boundary(text, at)
    decreases |text|
  {
    hide StartsWellFormed, DecodeRune, IsContinuation;
    if at > 0 {
      var n := DecodeRune(text).size;
      FirstRuneBytes(text);
      RuneStartsAreBoundaries(text[n..], at - n);
    }
  }

  // The units between the two byte offsets of s are those of t.
  ghost predicate Selects(s: Text, start: int, end: int, t: Text) {
    && 0 <= UnitsBefore(s, start) <= UnitsBefore(s, end) <= |Encode(s)|
    && Encode(s)[UnitsBefore(s, start)..UnitsBefore(s, end)] == Encode(t)
  }

  // The snippet's offset and length select exactly the matched text, wherever the match is.
  lemma ContextPointsAtMatch(text: Text, byteStart: int, byteEnd: int)
    requires 0 <= byteStart <= byteEnd <= |text| && Cuts(text, byteStart, byteEnd)
    ensures var c := ContextOf(text, byteStart, byteEnd);
            && c.text <= text[WindowStart(text, byteStart)..]
            && 0 <= c.offset <= c.offset + c.length <= |Encode(c.text)|
            && Encode(c.text)[c.offset..c.offset + c.length] == Encode(text[byteStart..byteEnd])
  {
    hide UnitsBefore, Encode, WindowStart, WindowEnd, ValidUtf8, Boundary;
    var from, to := WindowStart(text, byteStart), WindowEnd(text, byteEnd);
    SnippetCuts(text, byteStart, byteEnd, from, to);
    SliceOfSlice(text, from, to, byteStart, byteEnd);
    UnitsOf(text[from..to], byteStart - from, byteEnd - from, text[byteStart..byteEnd]);
  }

  lemma UnitsOf(s: Text, start: int, end: int, matched: Text)
    requires Cuts(s, start, end) && matched == s[start..end]
    ensures Selects(s, start, end, matched)
  {
    UnitsBetween(s, start, end);
  }

  lemma SliceOfSlice(s: Text, from: int, to: int, a: int, b: int)
    requires 0 <= from <= a <= b <= to <= |s|
    ensures s[from..to][a - from..b - from] == s[a..b]
  {
    var x := s[from..to];
    assert forall i :: 0 <= i < b - a ==> x[a - from..b - from][i] == x[a - from + i] == s[a + i] == s[a..b][i];
  }

  // Two boundaries of a valid text.
  ghost predicate Cuts(s: Text, start: int, end: int) {
    ValidUtf8(s) && Boundary(s, start) && Boundary(s, end) && 0 <= start <= end <= |s|
  }

  lemma SnippetCuts(text: Text, byteStart: int, byteEnd: int, from: int, to: int)
    requires 0 <= from <= byteStart <= byteEnd <= to <= |text| && Cuts(text, byteStart, byteEnd)
    requires from == 0 || from == |text| || !IsContinuation(text[from])
    requires to == |text| || !IsContinuation(text[to])
    ensures Cuts(text[from..to], byteStart - from, byteEnd - from)
  {
    SnippetBoundary(text, byteStart, from, to);
    SnippetBoundary(text, byteEnd, from, to);
  }

  lemma SnippetBoundary(text: Text, at: int, from: int, to: int)
    requires ValidUtf8(text) && 0 <= from <= at <= to <= |text| && Boundary(text, at)
    requires from == 0 || from == |text| || !IsContinuation(text[from])
    requires to == |text| || !IsContinuation(text[to])
    ensures ValidUtf8(text[from..to]) && Boundary(text[from..to], at - from)
  {
    RuneStartsAreBoundaries(text, from);
    RuneStartsAreBoundaries(text, to);
    SliceValid(text, from, to);
    BoundaryInSlice(text, from, to, at);
  }

  // Between two boundaries stand exactly the units of the text between them.
  lemma UnitsBetween(s: Text, start: int, end: int)
    requires Cuts(s, start, end)
    ensures Selects(s, start, end, s[start..end])
  {
    OffsetAtBoundary(s, start);
    OffsetAtBoundary(s, end);
    PrefixUnits(s, start, end);
    MiddleUnits(Encode(s), Encode(s[..start]), Encode(s[start..end]), Encode(s[end..]));
  }

  lemma MiddleUnits(whole: Units, a: Units, m: Units, z: Units)
    requires whole == (a + m) + z
    ensures whole[|a|..|a| + |m|] == m
  {
  }

  lemma SliceOfSuffix(text: Text, n: int, from: int, to: int)
    requires 0 <= n <= from <= to <= |text|
    ensures text[n..][from - n..to - n] == text[from..to]
  {
  }

  lemma {:induction false} BoundaryInSlice(text: Text, from: int, to: int, at: int)
    requires ValidUtf8(text) && Boundary(text, from) && Boundary(text, at) && Boundary(text, to)
    requires 0 <= from <= at <= to <= |text|
    ensures Boundary(text[from..to], at - from)
    decreases |text|
  {
    hide StartsWellFormed, DecodeRune;
    if from == 0 {
      BoundaryInPrefix(text, to, at);
      assert text[0..to] == text[..to];
    } else {
      var n := DecodeRune(text).size;
      SliceOfSuffix(text, n, from, to);
      BoundaryInSlice(text[n..], from - n, to - n, at - n);
    }
  }

  lemma {:induction false} BoundaryInPrefix(text: Text, to: int, at: int)
    requires ValidUtf8(text) && Boundary(text, at) && Boundary(text, to) && 0 <= at <= to <= |text|
    ensures Boundary(text[..to], at)
    decreases |text|
  {
    hide StartsWellFormed, DecodeRune;
    if at > 0 {
      var n := DecodeRune(text).size;
      PrefixKeepsFirst(text, to);
      assert text[..to][n..] == text[n..][..to - n];
      BoundaryInPrefix(text[n..], to - n, at - n);
    }
  }
}
