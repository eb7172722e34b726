// UTF-8 decoding as Go's range loop and unicode/utf8 perform it (RFC 3629, section 3):
// an ill-formed or truncated sequence decodes to U+FFFD and consumes one byte.
module Utf8 {
  import opened Edits

  datatype Rune = Rune(value: int, size: nat)

  const REPLACEMENT := Rune(0xFFFD, 1)

  predicate IsContinuation(b: Byte) {
    0x80 <= b <= 0xBF
  }

  // The sequence length a first byte announces; 0 when no sequence may start with it.
  function Announced(b: Byte): nat {
    if b < 0x80 then 1
    else if 0xC2 <= b <= 0xDF then 2
    else if 0xE0 <= b <= 0xEF then 3
    else if 0xF0 <= b <= 0xF4 then 4
    else 0
  }

  // Which second bytes a first byte accepts: overlong forms, surrogates and values
  // above U+10FFFF are excluded here.
  predicate AcceptsSecond(first: Byte, second: Byte) {
    && (if first == 0xE0 then 0xA0 else if first == 0xF0 then 0x90 else 0x80) <= second
    && second <= (if first == 0xED then 0x9F else if first == 0xF4 then 0x8F else 0xBF)
  }

  // Bytes 1.. of an announced sequence that are present and acceptable so far.
  predicate WellFormedPrefix(s: Text, n: nat) {
    && 1 <= n <= |s|
    && (n >= 2 ==> AcceptsSecond(s[0], s[1]))
    && (n >= 3 ==> IsContinuation(s[2]))
    && (n >= 4 ==> IsContinuation(s[3]))
  }

  function DecodeRune(s: Text): (r: Rune)
    requires s != []
    ensures 1 <= r.size <= |s| && r.size <= 4
    ensures r.size > 1 ==> r.size == Announced(s[0])
  {
    var n := Announced(s[0]);
    if n == 0 || n > |s| || !WellFormedPrefix(s, n) then REPLACEMENT
    else Rune(RuneValue(s, n), n)
  }

  function RuneValue(s: Text, n: nat): int
    requires 1 <= n <= 4 && n <= |s|
  {
    var b0 := s[0] as int;
    if n == 1 then b0
    else if n == 2 then (b0 - 0xC0) * 64 + (s[1] as int - 0x80)
    else if n == 3 then (b0 - 0xE0) * 4096 + (s[1] as int - 0x80) * 64 + (s[2] as int - 0x80)
    else (b0 - 0xF0) * 262144 + (s[1] as int - 0x80) * 4096 + (s[2] as int - 0x80) * 64 + (s[3] as int - 0x80)
  }

  // The nearest byte at or before `start`, not below `lim`, that can start a rune;
  // lim - 1 when there is none.
  function RuneStartBefore(s: Text, start: int, lim: nat): (r: int)
    requires lim - 1 <= start < |s|
    ensures lim - 1 <= r <= start
    decreases start - lim + 1
  {
    if start < lim || !IsContinuation(s[start]) then start
    else RuneStartBefore(s, start - 1, lim)
  }

  // utf8.DecodeLastRuneInString on a non-empty text.
  function DecodeLastRune(s: Text): (r: Rune)
    requires s != []
    ensures 1 <= r.size <= |s|
  {
    var end := |s|;
    if s[end - 1] < 0x80 then Rune(s[end - 1] as int, 1)
    else
      var lim := if end < 4 then 0 else end - 4;
      var found := if end == 1 then -1 else RuneStartBefore(s, end - 2, lim);
      var start := if found < 0 then 0 else found;
      var r := DecodeRune(s[start..]);
      if start + r.size != end then REPLACEMENT else r
  }

  // unicode.IsSpace.
  predicate IsSpace(r: int) {
    || 0x09 <= r <= 0x0D || r == 0x20 || r == 0x85 || r == 0xA0
    || r == 0x1680 || 0x2000 <= r <= 0x200A || r == 0x2028 || r == 0x2029
    || r == 0x202F || r == 0x205F || r == 0x3000
  }

  predicate ContainsWhitespace(s: Text) {
    s != [] &&
    var r := DecodeRune(s);
    IsSpace(r.value) || ContainsWhitespace(s[r.size..])
  }

  // A text cut off inside a rune decodes to replacement runes only, so cutting never
  // invents whitespace: what the shorter text contains, every extension contains.
  lemma {:induction false} WhitespaceExtends(s: Text, t: Text)
    requires ContainsWhitespace(s)
    ensures ContainsWhitespace(s + t)
    decreases |s|
  {
    var r, r' := DecodeRune(s), DecodeRune(s + t);
    if r == r' {
      if !IsSpace(r.value) {
        assert (s + t)[r.size..] == s[r.size..] + t;
        WhitespaceExtends(s[r.size..], t);
      }
    } else {
      CutRuneHasNoWhitespace(s, t);
    }
  }

  lemma {:induction false} CutRuneHasNoWhitespace(s: Text, t: Text)
    requires s != [] && DecodeRune(s) != DecodeRune(s + t)
    ensures !ContainsWhitespace(s)
  {
    var n := Announced(s[0]);
    assert |s| < n <= |s + t|;
    assert DecodeRune(s) == REPLACEMENT;
    assert forall i :: 1 <= i < |s| ==> (s + t)[i] == s[i] && IsContinuation(s[i]);
    ContinuationsHaveNoWhitespace(s[1..]);
  }

  lemma {:induction false} ContinuationsHaveNoWhitespace(s: Text)
    requires forall i :: 0 <= i < |s| ==> IsContinuation(s[i])
    ensures !ContainsWhitespace(s)
    decreases |s|
  {
    if s != [] {
      ContinuationsHaveNoWhitespace(s[1..]);
    }
  }

  // --- The encoding (RFC 3629, section 3) ---------------------------------------------------------

  // Unicode scalar values.
  predicate IsScalar(v: int) {
    0 <= v <= 0xD7FF || 0xE000 <= v <= 0x10FFFF
  }

  function EncodeScalar(v: int): Text
    requires IsScalar(v)
  {
    if v < 0x80 then [v as Byte]
    else if v < 0x800 then [(0xC0 + v / 64) as Byte, (0x80 + v % 64) as Byte]
    else if v < 0x10000 then
      [(0xE0 + v / 4096) as Byte, (0x80 + v / 64 % 64) as Byte, (0x80 + v % 64) as Byte]
    else
      [(0xF0 + v / 262144) as Byte, (0x80 + v / 4096 % 64) as Byte, (0x80 + v / 64 % 64) as Byte,
       (0x80 + v % 64) as Byte]
  }

  // Decoding undoes encoding, whatever follows.
  lemma DecodesEncoded(v: int, rest: Text)
    requires IsScalar(v)
    ensures DecodeRune(EncodeScalar(v) + rest) == Rune(v, |EncodeScalar(v)|)
  {
    if v < 0x80 {
    } else if v < 0x800 {
      DecodesTwo(v, rest);
    } else if v < 0x10000 {
      DecodesThree(v, rest);
    } else {
      DecodesFour(v, rest);
    }
  }

  lemma DecodesTwo(v: int, rest: Text)
    requires 0x80 <= v < 0x800
    ensures DecodeRune(EncodeScalar(v) + rest) == Rune(v, 2)
  {
    var s := EncodeScalar(v) + rest;
    var q, r := v / 64, v % 64;
    assert v == 64 * q + r && 2 <= q < 32;
    assert s[0] as int == 0xC0 + q && s[1] as int == 0x80 + r;
  }

  lemma DecodesThree(v: int, rest: Text)
    requires IsScalar(v) && 0x800 <= v < 0x10000
    ensures DecodeRune(EncodeScalar(v) + rest) == Rune(v, 3)
  {
    var s := EncodeScalar(v) + rest;
    var q, m, r := v / 4096, v / 64 % 64, v % 64;
    Digits3(v);
    assert v == 4096 * q + 64 * m + r && 0 <= q < 16;
    assert s[0] as int == 0xE0 + q && s[1] as int == 0x80 + m && s[2] as int == 0x80 + r;
    assert q == 0 ==> 32 <= m;
    assert q == 13 ==> m < 32;
  }

  lemma DecodesFour(v: int, rest: Text)
    requires 0x10000 <= v <= 0x10FFFF
    ensures DecodeRune(EncodeScalar(v) + rest) == Rune(v, 4)
  {
    var s := EncodeScalar(v) + rest;
    var q, k, m, r := v / 262144, v / 4096 % 64, v / 64 % 64, v % 64;
    Digits4(v);
    assert v == 262144 * q + 4096 * k + 64 * m + r && 0 <= q < 5;
    assert s[0] as int == 0xF0 + q && s[1] as int == 0x80 + k && s[2] as int == 0x80 + m && s[3] as int == 0x80 + r;
    assert q == 0 ==> 16 <= k;
    assert q == 4 ==> k < 16;
  }

  lemma Digits3(v: int)
    requires 0 <= v
    ensures v == 4096 * (v / 4096) + 64 * (v / 64 % 64) + v % 64
    ensures 0 <= v / 64 % 64 < 64 && 0 <= v % 64 < 64
  {
    assert v == 64 * (v / 64) + v % 64;
    assert v / 64 == 64 * (v / 64 / 64) + v / 64 % 64;
    assert v / 4096 == v / 64 / 64;
  }

  lemma Digits4(v: int)
    requires 0 <= v
    ensures v == 262144 * (v / 262144) + 4096 * (v / 4096 % 64) + 64 * (v / 64 % 64) + v % 64
    ensures 0 <= v / 4096 % 64 < 64 && 0 <= v / 64 % 64 < 64 && 0 <= v % 64 < 64
  {
    Digits3(v);
    assert v / 4096 == 64 * (v / 4096 / 64) + v / 4096 % 64;
    assert v / 262144 == v / 4096 / 64;
  }

  // What starts with the encoding of no scalar value is ill-formed: one byte, U+FFFD.
  lemma DecodesOnlyEncoded(s: Text)
    requires s != []
    ensures var r := DecodeRune(s);
            || (IsScalar(r.value) && r.size == |EncodeScalar(r.value)| && s[..r.size] == EncodeScalar(r.value))
            || (r == Rune(0xFFFD, 1) && forall v :: IsScalar(v) ==> !(EncodeScalar(v) <= s))
  {
    var n := Announced(s[0]);
    if 0 < n <= |s| && WellFormedPrefix(s, n) {
      ValueEncodes(s, n);
    } else {
      hide EncodeScalar;
      forall v | IsScalar(v)
        ensures !(EncodeScalar(v) <= s)
      {
        if EncodeScalar(v) <= s {
          var rest := s[|EncodeScalar(v)|..];
          assert EncodeScalar(v) + rest == s;
          DecodesEncoded(v, rest);
          EncodingLength(v);
        }
      }
    }
  }

  lemma EncodingLength(v: int)
    requires IsScalar(v)
    ensures v == 0xFFFD ==> |EncodeScalar(v)| == 3
  {
  }

  lemma ValueEncodes(s: Text, n: nat)
    requires s != [] && n == Announced(s[0]) && 0 < n <= |s| && WellFormedPrefix(s, n)
    ensures IsScalar(RuneValue(s, n)) && EncodeScalar(RuneValue(s, n)) == s[..n]
  {
    if n == 2 {
      ValueOfTwo(s);
    } else if n == 3 {
      ValueOfThree(s);
    } else if n == 4 {
      ValueOfFour(s);
    }
  }

  lemma ValueOfTwo(s: Text)
    requires s != [] && Announced(s[0]) == 2 <= |s| && WellFormedPrefix(s, 2)
    ensures IsScalar(RuneValue(s, 2)) && EncodeScalar(RuneValue(s, 2)) == s[..2]
  {
    var v := RuneValue(s, 2);
    var q, r := s[0] as int - 0xC0, s[1] as int - 0x80;
    assert v == 64 * q + r && 0 <= r < 64;
    assert v / 64 == q && v % 64 == r;
  }

  lemma ValueOfThree(s: Text)
    requires s != [] && Announced(s[0]) == 3 <= |s| && WellFormedPrefix(s, 3)
    ensures IsScalar(RuneValue(s, 3)) && EncodeScalar(RuneValue(s, 3)) == s[..3]
  {
    var v := RuneValue(s, 3);
    var q, m, r := s[0] as int - 0xE0, s[1] as int - 0x80, s[2] as int - 0x80;
    assert v == 64 * (64 * q + m) + r && 0 <= m < 64 && 0 <= r < 64;
    assert v / 64 == 64 * q + m && v % 64 == r;
    assert v / 4096 == q && v / 64 % 64 == m;
    assert s[..3] == [s[0], s[1], s[2]];
  }

  lemma ValueOfFour(s: Text)
    requires s != [] && Announced(s[0]) == 4 <= |s| && WellFormedPrefix(s, 4)
    ensures IsScalar(RuneValue(s, 4)) && EncodeScalar(RuneValue(s, 4)) == s[..4]
  {
    var v := RuneValue(s, 4);
    var q, k, m, r := s[0] as int - 0xF0, s[1] as int - 0x80, s[2] as int - 0x80, s[3] as int - 0x80;
    assert v == 64 * (64 * (64 * q + k) + m) + r && 0 <= k < 64 && 0 <= m < 64 && 0 <= r < 64;
    assert v / 64 == 64 * (64 * q + k) + m && v % 64 == r;
    assert v / 4096 == 64 * q + k && v / 64 % 64 == m;
    assert v / 262144 == q && v / 4096 % 64 == k;
    assert s[..4] == [s[0], s[1], s[2], s[3]];
  }

  // --- Where runes start ------------------------------------------------------------------------------

  // `at` is where a rune of the decoded text starts, or its end.
  predicate Boundary(s: Text, at: int) {
    at == 0 || (s != [] && DecodeRune(s).size <= at && Boundary(s[DecodeRune(s).size..], at - DecodeRune(s).size))
  }

  // White space is contained where a rune of it starts.
  lemma {:induction false} WhitespaceExact(s: Text)
    ensures ContainsWhitespace(s) <==>
              exists p :: 0 <= p < |s| && Boundary(s, p) && IsSpace(DecodeRune(s[p..]).value)
    decreases |s|
  {
    if s != [] {
      hide DecodeRune, IsSpace;
      var n := DecodeRune(s).size;
      assert s[0..] == s && Boundary(s, 0);
      WhitespaceExact(s[n..]);
      forall p | 0 <= p < |s| - n
        ensures s[n..][p..] == s[p + n..] && (Boundary(s[n..], p) <==> Boundary(s, p + n))
      {
      }
      if p :| 0 <= p < |s[n..]| && Boundary(s[n..], p) && IsSpace(DecodeRune(s[n..][p..]).value) {
        assert Boundary(s, p + n) && IsSpace(DecodeRune(s[p + n..]).value);
      }
      if p :| 0 < p < |s| && Boundary(s, p) && IsSpace(DecodeRune(s[p..]).value) {
        assert Boundary(s[n..], p - n) && IsSpace(DecodeRune(s[n..][p - n..]).value);
      }
    }
  }

  // The twenty-five code points with the White_Space property.
  lemma SpacesListed(r: int)
    ensures IsSpace(r) <==> r in {9, 10, 11, 12, 13, 32, 133, 160, 5760, 8192, 8193, 8194, 8195, 8196, 8197, 8198, 8199,
                                  8200, 8201, 8202, 8232, 8233, 8239, 8287, 12288}
  {
  }

  // From one rune start to the next there is none.
  lemma {:induction false} BoundaryNext(s: Text, at: int)
    requires 0 <= at < |s| && Boundary(s, at)
    ensures Boundary(s, at + DecodeRune(s[at..]).size)
    ensures forall p :: at < p < at + DecodeRune(s[at..]).size ==> !Boundary(s, p)
    decreases |s|
  {
    hide DecodeRune;
    if at == 0 {
      assert s[0..] == s;
      var n := DecodeRune(s).size;
      assert Boundary(s[n..], 0);
    } else {
      var n := DecodeRune(s).size;
      assert s[n..][at - n..] == s[at..];
      BoundaryNext(s[n..], at - n);
      forall p | at < p < at + DecodeRune(s[at..]).size
        ensures !Boundary(s, p)
      {
        assert !Boundary(s[n..], p - n);
      }
    }
  }
}
