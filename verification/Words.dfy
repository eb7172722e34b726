// Whitespace-delimited word boundaries around a span, and the word zones by which the
// merge of fast edits decides conflicts.
module Words {
  import opened Edits
  import opened Utf8

  // The start of the word that text[..pos] ends in.
  function WordStart(text: Text, pos: nat): (r: nat)
    requires pos <= |text|
    ensures r <= pos
    ensures r == 0 || IsSpace(DecodeLastRune(text[..r]).value)
    decreases pos
  {
    if pos == 0 then 0
    else
      var rune := DecodeLastRune(text[..pos]);
      if IsSpace(rune.value) then pos else WordStart(text, pos - rune.size)
  }

  // The end of the word that text[pos..] begins with.
  function WordEnd(text: Text, pos: nat): (r: nat)
    requires pos <= |text|
    ensures pos <= r <= |text|
    ensures r == |text| || IsSpace(DecodeRune(text[r..]).value)
    decreases |text| - pos
  {
    if pos == |text| then pos
    else
      var rune := DecodeRune(text[pos..]);
      if IsSpace(rune.value) then pos else WordEnd(text, pos + rune.size)
  }

  // ExpandToWordBoundaries, one loop per side.
  method ExpandLeft(text: Text, start: nat) returns (ws: nat)
    requires start <= |text|
    ensures ws == WordStart(text, start)
  {
    ws := start;
    while ws > 0
      invariant ws <= |text| && WordStart(text, ws) == WordStart(text, start)
    {
      var rune := DecodeLastRune(text[..ws]);
      if IsSpace(rune.value) {
        return;
      }
      ws := ws - rune.size;
    }
  }

  method ExpandRight(text: Text, end: nat) returns (we: nat)
    requires end <= |text|
    ensures we == WordEnd(text, end)
  {
    hide DecodeRune, IsSpace;
    we := end;
    while we < |text|
      invariant we <= |text| && WordEnd(text, we) == WordEnd(text, end)
    {
      var rune := DecodeRune(text[we..]);
      if IsSpace(rune.value) {
        return;
      }
      we := we + rune.size;
    }
  }

  // A span widened to the words it touches; an insertion first claims one byte on each side.
  function WordZone(text: Text, sp: Span): (z: Span)
    requires sp.Valid(|text|)
    ensures z.Valid(|text|) && z.start <= sp.start && sp.end <= z.end
    ensures sp.ZeroWidth() && text != [] ==> z.start < z.end
  {
    var start := if sp.ZeroWidth() && sp.start > 0 then sp.start - 1 else sp.start;
    var end := if sp.ZeroWidth() && sp.end < |text| then sp.end + 1 else sp.end;
    Span(WordStart(text, start), WordEnd(text, end))
  }

  // --- No white space inside a word -----------------------------------------------------------

  // Within [from, to) no white-space rune stands.
  ghost predicate Unbroken(text: Text, from: nat, to: nat)
    requires to <= |text|
  {
    forall i :: from <= i < to && i + DecodeRune(text[i..]).size <= to ==> !IsSpace(DecodeRune(text[i..]).value)
  }

  lemma InsideRune(text: Text, at: nat, i: nat)
    requires at < |text| && at < i < at + DecodeRune(text[at..]).size
    ensures i < |text| && IsContinuation(text[i]) && DecodeRune(text[i..]) == REPLACEMENT
  {
    assert text[at..][i - at] == text[i];
  }

  lemma {:induction false} WordEndUnbroken(text: Text, pos: nat)
    requires pos <= |text|
    ensures Unbroken(text, pos, WordEnd(text, pos))
    decreases |text| - pos
  {
    hide IsSpace, DecodeRune;
    if pos < |text| && !IsSpace(DecodeRune(text[pos..]).value) {
      var n := DecodeRune(text[pos..]).size;
      WordEndUnbroken(text, pos + n);
      forall i | pos <= i < WordEnd(text, pos)
        ensures i + DecodeRune(text[i..]).size <= WordEnd(text, pos) ==> !IsSpace(DecodeRune(text[i..]).value)
      {
        if pos < i < pos + n {
          InsideRune(text, pos, i);
          ReplacementIsNoSpace();
        }
      }
    }
  }

  lemma ReplacementIsNoSpace()
    ensures !IsSpace(REPLACEMENT.value)
  {
  }

  // The last rune before pos is the one that ends there.
  lemma LastRuneIsRune(text: Text, pos: nat)
    requires 0 < pos <= |text|
    ensures var r := DecodeLastRune(text[..pos]);
            && r.size <= pos
            && (r.size > 1 ==> DecodeRune(text[pos - r.size..]) == r && !IsContinuation(text[pos - r.size]))
            && (r.size == 1 && text[pos - 1] < 0x80 ==> DecodeRune(text[pos - 1..]) == r)
  {
    var s := text[..pos];
    var r := DecodeLastRune(s);
    if r.size > 1 {
      var at := pos - r.size;
      assert DecodeRune(s[at..]) == r;
      assert text[at..][..r.size] == s[at..];
      assert text[at..] == s[at..] + text[pos..];
      assert s[at..][0] == text[at];
    }
  }

  // A rune that ends at pos is found from there.
  lemma RuneIsLastRune(text: Text, i: nat)
    requires i < |text| && DecodeRune(text[i..]).size > 1
    ensures var n := DecodeRune(text[i..]).size;
            i + n <= |text| && DecodeLastRune(text[..i + n]).size == n
  {
    var n := DecodeRune(text[i..]).size;
    var s := text[..i + n];
    assert s[i..] == text[i..][..n];
    assert DecodeRune(s[i..]) == DecodeRune(text[i..]);
    forall k | i < k < i + n
      ensures IsContinuation(s[k])
    {
      InsideRune(text, i, k);
    }
    assert text[i..][0] == text[i] == s[i] && !IsContinuation(s[i]);
    var lim := if |s| < 4 then 0 else |s| - 4;
    StartFound(s, |s| - 2, lim, i);
  }

  lemma {:induction false} StartFound(s: Text, start: int, lim: nat, i: nat)
    requires lim <= i <= start < |s| && !IsContinuation(s[i]) && forall k :: i < k <= start ==> IsContinuation(s[k])
    ensures RuneStartBefore(s, start, lim) == i
    decreases start
  {
    if i < start {
      StartFound(s, start - 1, lim, i);
    }
  }

  // No white-space rune lies across the start of the last rune.
  lemma NothingAcross(text: Text, pos: nat, i: nat)
    requires 0 < pos <= |text| && i < pos && i + DecodeRune(text[i..]).size <= pos
    ensures var n := DecodeLastRune(text[..pos]).size;
            n <= pos && !(i < pos - n < i + DecodeRune(text[i..]).size)
  {
    var n := DecodeLastRune(text[..pos]).size;
    LastRuneIsRune(text, pos);
    if i < pos - n < i + DecodeRune(text[i..]).size {
      InsideRune(text, i, pos - n);
      if n == 1 {
        RuneIsLastRune(text, i);
      }
    }
  }

  lemma {:induction false} WordStartUnbroken(text: Text, pos: nat)
    requires pos <= |text|
    ensures Unbroken(text, WordStart(text, pos), pos)
    decreases pos
  {
    if pos > 0 && !IsSpace(DecodeLastRune(text[..pos]).value) {
      var r := DecodeLastRune(text[..pos]);
      WordStartUnbroken(text, pos - r.size);
      forall i | WordStart(text, pos) <= i < pos && i + DecodeRune(text[i..]).size <= pos
        ensures !IsSpace(DecodeRune(text[i..]).value)
      {
        LastRuneHere(text, pos, i);
      }
    }
  }

  lemma LastRuneHere(text: Text, pos: nat, i: nat)
    requires 0 < pos <= |text| && i < pos && i + DecodeRune(text[i..]).size <= pos
    requires var r := DecodeLastRune(text[..pos]);
             && !IsSpace(r.value) && r.size <= pos
             && (i < pos - r.size && i + DecodeRune(text[i..]).size <= pos - r.size ==>
                   !IsSpace(DecodeRune(text[i..]).value))
    ensures !IsSpace(DecodeRune(text[i..]).value)
  {
    hide IsSpace, DecodeLastRune;
    var r := DecodeLastRune(text[..pos]);
    LastRuneIsRune(text, pos);
    ReplacementIsNoSpace();
    if i < pos - r.size {
      NothingAcross(text, pos, i);
    } else if i > pos - r.size {
      InsideRune(text, pos - r.size, i);
    } else if r.size == 1 {
      OneByte(text, i);
    }
  }

  lemma OneByte(text: Text, i: nat)
    requires i < |text| && DecodeRune(text[i..]).size == 1
    ensures text[i] < 0x80 || DecodeRune(text[i..]) == REPLACEMENT
  {
  }

  // A word zone is what the span claims (an insertion a byte on each side), widened exactly to
  // the white space, or the ends of the text, around it.
  lemma WordZoneExact(text: Text, sp: Span)
    requires sp.Valid(|text|)
    ensures var z := WordZone(text, sp);
            var start := if sp.start == sp.end && sp.start > 0 then sp.start - 1 else sp.start;
            var end := if sp.start == sp.end && sp.end < |text| then sp.end + 1 else sp.end;
            && 0 <= z.start <= start && end <= z.end <= |text|
            && Unbroken(text, z.start, start) && Unbroken(text, end, z.end)
            && (z.start == 0 || IsSpace(DecodeLastRune(text[..z.start]).value))
            && (z.end == |text| || IsSpace(DecodeRune(text[z.end..]).value))
  {
    hide IsSpace, DecodeRune, DecodeLastRune, Unbroken;
    var start := if sp.start == sp.end && sp.start > 0 then sp.start - 1 else sp.start;
    var end := if sp.start == sp.end && sp.end < |text| then sp.end + 1 else sp.end;
    WordStartUnbroken(text, start);
    WordEndUnbroken(text, end);
  }

  // wordZonesConflict; invalid spans conflict unconditionally.
  predicate WordZonesConflict(text: Text, a: Span, b: Span) {
    !a.Valid(|text|) || !b.Valid(|text|) || Overlaps(WordZone(text, a), WordZone(text, b))
  }

  // spansConflict: closed intervals, so touching spans conflict too.
  predicate SpansConflict(a: Span, b: Span) {
    a.start <= b.end && b.start <= a.end
  }

  // Either conflict test is stricter than Overlaps: no conflict means no overlap.
  lemma NoConflictNoOverlap(text: Text, a: Span, b: Span)
    ensures !SpansConflict(a, b) ==> !Overlaps(a, b)
    ensures !WordZonesConflict(text, a, b) ==> !Overlaps(a, b)
  {
  }

  // An insertion never escapes word-zone conflict with an edit it touches: it shares the
  // byte between them with that edit's word.
  lemma TouchingInsertionConflicts(text: Text, a: Span, b: Span)
    requires a.Valid(|text|) && b.Valid(|text|) && a.ZeroWidth() && text != []
    requires a.start == b.start || a.start == b.end
    ensures WordZonesConflict(text, a, b)
  {
  }
}
