// display-width.ts, wrapLines: word wrap to display columns, breaking at spaces, and inside
// a word only when the word alone is too wide.
module Wrap {
  import opened Display
  import Edits

  // UTF-16 code units.
  type Line = seq<int>

  const SPACE: int := 32
  const LINE_FEED: int := 10

  // The grapheme segmenter and the width measure are foreign.
  datatype Terminal = Terminal(segment: Line -> seq<Grapheme>, width: Line -> nat)

  function Flat(parts: seq<Line>): Line {
    if parts == [] then [] else parts[0] + Flat(parts[1..])
  }

  // Graphemes spell the line, and the empty line has no width.
  ghost predicate Sane(t: Terminal) {
    t.width([]) == 0 && forall s :: Flat(t.segment(s)) == s
  }

  // JavaScript's split on one code unit.
  function Split(s: Line, sep: int): (r: seq<Line>)
    ensures r != []
  {
    if s == [] then [[]]
    else
      var r := Split(s[1..], sep);
      if s[0] == sep then [[]] + r else [[s[0]] + r[0]] + r[1..]
  }

  // --- Breaking one word -----------------------------------------------------------------------

  function PartWidth(t: Terminal): Grapheme -> nat {
    Aware((g: Grapheme) => t.width(g))
  }

  // The most leading graphemes that fit.
  function Fitting(parts: seq<Grapheme>, width: Grapheme -> nat, max: int, k: nat): (r: nat)
    requires k <= |parts|
    ensures r <= k && (r == 0 || Columns(parts, width, r) <= max)
    ensures r < k ==> Columns(parts, width, r + 1) > max
    decreases k
  {
    if k == 0 || Columns(parts, width, k) <= max then k else Fitting(parts, width, max, k - 1)
  }

  function Fit(t: Terminal, line: Line, max: int): (r: nat)
    ensures r <= |t.segment(line)|
  {
    Fitting(t.segment(line), PartWidth(t), max, |t.segment(line)|)
  }

  // Where the line is cut: after those graphemes, or after one code unit if none fits.
  function SliceEnd(t: Terminal, line: Line, max: int): nat {
    var end := Units(t.segment(line), Fit(t, line, max));
    if end == 0 then 1 else end
  }

  lemma {:induction false} UnitsFlat(parts: seq<Grapheme>, k: nat)
    requires k <= |parts|
    ensures Units(parts, k) <= |Flat(parts)|
    ensures Flat(parts)[..Units(parts, k)] == Flat(parts[..k])
    ensures Flat(parts)[Units(parts, k)..] == Flat(parts[k..])
    decreases |parts|
  {
    if k == 0 {
      assert parts[..0] == [] && parts[0..] == parts;
    } else {
      UnitsFlat(parts[1..], k - 1);
      UnitsShift(parts, k);
      assert parts[..k][1..] == parts[1..][..k - 1] && parts[k..] == parts[1..][k - 1..];
    }
  }

  lemma {:induction false} UnitsShift(parts: seq<Grapheme>, k: nat)
    requires 0 < k <= |parts|
    ensures Units(parts, k) == |parts[0]| + Units(parts[1..], k - 1)
    decreases k
  {
    if k > 1 {
      UnitsShift(parts, k - 1);
    }
  }

  lemma SliceWithin(t: Terminal, line: Line, max: int)
    requires Sane(t) && line != []
    ensures 1 <= SliceEnd(t, line, max) <= |line|
  {
    UnitsFlat(t.segment(line), Fit(t, line, max));
  }

  // The slice loop.
  method FindSliceEnd(t: Terminal, line: Line, max: int) returns (end: nat)
    ensures end == SliceEnd(t, line, max)
  {
    var parts := t.segment(line);
    var sliceWidth := 0;
    end := 0;
    var k := 0;
    while k < |parts|
      invariant 0 <= k <= |parts|
      invariant sliceWidth == Columns(parts, PartWidth(t), k) && end == Units(parts, k)
      invariant k == 0 || sliceWidth <= max
    {
      var pw := if parts[k] == NEWLINE then 1 else t.width(parts[k]);
      if sliceWidth + pw > max {
        break;
      }
      sliceWidth := sliceWidth + pw;
      end := end + |parts[k]|;
      k := k + 1;
    }
    FittingIs(parts, PartWidth(t), max, k);
    if end == 0 {
      end := 1;
    }
  }

  lemma FittingIs(parts: seq<Grapheme>, width: Grapheme -> nat, max: int, k: nat)
    requires k <= |parts| && (k == 0 || Columns(parts, width, k) <= max)
    requires k < |parts| ==> Columns(parts, width, k + 1) > max
    ensures Fitting(parts, width, max, |parts|) == k
  {
    var r := Fitting(parts, width, max, |parts|);
    if r < k {
      ColumnsRise(parts, width, r + 1, k);
    } else if k < r {
      ColumnsRise(parts, width, k + 1, r);
    }
  }

  // The pieces of a line; only the last is kept open.
  function Broken(t: Terminal, line: Line, max: nat): (r: seq<Line>)
    requires Sane(t)
    ensures r != []
    decreases |line|
  {
    if t.width(line) <= max then [line]
    else
      SliceWithin(t, line, max);
      var end := SliceEnd(t, line, max);
      [line[..end]] + Broken(t, line[end..], max)
  }

  // The hard-break loop.
  method HardBreak(t: Terminal, line: Line, max: nat) returns (pieces: seq<Line>, rest: Line)
    requires Sane(t)
    ensures pieces + [rest] == Broken(t, line, max)
  {
    pieces, rest := [], line;
    var width := t.width(rest);
    while width > max
      invariant width == t.width(rest)
      invariant pieces + Broken(t, rest, max) == Broken(t, line, max)
      decreases |rest|
    {
      var end := FindSliceEnd(t, rest, max);
      SliceWithin(t, rest, max);
      pieces := pieces + [rest[..end]];
      rest := rest[end..];
      width := t.width(rest);
    }
  }

  // How a word is cut: while what is left is too wide, after the longest run of graphemes that
  // fits, or after one code unit if none does.
  ghost predicate Fills(t: Terminal, rest: Line, piece: Line, max: nat) {
    && piece <= rest && t.width(rest) > max
    && exists k :: FillsTo(t, rest, k, |piece|, max)
  }

  ghost predicate FillsTo(t: Terminal, rest: Line, k: nat, length: nat, max: nat) {
    var parts := t.segment(rest);
    && k <= |parts| && (k == 0 || Columns(parts, PartWidth(t), k) <= max)
    && (k < |parts| ==> Columns(parts, PartWidth(t), k + 1) > max)
    && length == if Units(parts, k) == 0 then 1 else Units(parts, k)
  }

  lemma {:induction false} BrokenFills(t: Terminal, word: Line, max: nat)
    requires Sane(t)
    ensures var pieces := Broken(t, word, max);
            && t.width(pieces[|pieces| - 1]) <= max
            && forall i :: 0 <= i < |pieces| - 1 ==> Fills(t, Flat(pieces[i..]), pieces[i], max)
    decreases |word|
  {
    if t.width(word) > max {
      SliceWithin(t, word, max);
      var end := SliceEnd(t, word, max);
      var pieces, rest := Broken(t, word, max), Broken(t, word[end..], max);
      BrokenFills(t, word[end..], max);
      BrokenSpells(t, word, max);
      assert FillsTo(t, word, Fit(t, word, max), end, max);
      assert pieces[0..] == pieces;
      forall i | 0 < i < |pieces| - 1
        ensures Fills(t, Flat(pieces[i..]), pieces[i], max)
      {
        assert pieces[i..] == rest[i - 1..];
      }
    }
  }

  // --- Laying out a paragraph ---------------------------------------------------------------------

  // Lines already closed, the open line, and the columns it uses.
  datatype Page = Page(lines: seq<Line>, open: Line, used: nat)

  function Placed(t: Terminal, page: Page, word: Line, max: nat): Page
    requires Sane(t)
  {
    var joined := page.used + 1 + t.width(word);
    if page.used > 0 && joined <= max then page.(open := page.open + [SPACE] + word, used := joined)
    else
      var closed := if page.used == 0 then page.lines else page.lines + [page.open];
      var pieces := Broken(t, word, max);
      var rest := pieces[|pieces| - 1];
      Page(closed + pieces[..|pieces| - 1], rest, t.width(rest))
  }

  function PlacedAll(t: Terminal, page: Page, words: seq<Line>, max: nat): Page
    requires Sane(t)
    decreases |words|
  {
    if words == [] then page else PlacedAll(t, Placed(t, page, words[0], max), words[1..], max)
  }

  function Flushed(page: Page): seq<Line> {
    if page.open != [] then page.lines + [page.open] else page.lines
  }

  const BLANK: Page := Page([], [], 0)

  function Paragraph(t: Terminal, para: Line, max: int): seq<Line>
    requires Sane(t) && (max >= 0 || para == [])
  {
    if para == [] then [[]] else Flushed(PlacedAll(t, BLANK, Split(para, SPACE), max))
  }

  // A negative width is survived only by empty paragraphs.
  predicate Endable(paras: seq<Line>, max: int) {
    max >= 0 || forall i :: 0 <= i < |paras| ==> paras[i] == []
  }

  function Paragraphs(t: Terminal, paras: seq<Line>, max: int): seq<Line>
    requires Sane(t) && Endable(paras, max)
  {
    if paras == [] then [] else Paragraph(t, paras[0], max) + Paragraphs(t, paras[1..], max)
  }

  predicate Ends(text: Line, max: int) {
    Endable(Split(text, LINE_FEED), max)
  }

  function Wrapped(t: Terminal, text: Line, max: int): seq<Line>
    requires Sane(t) && Ends(text, max)
  {
    Paragraphs(t, Split(text, LINE_FEED), max)
  }

  method WrapParagraph(t: Terminal, para: Line, max: int) returns (lines: seq<Line>)
    requires Sane(t) && (max >= 0 || para == [])
    ensures lines == Paragraph(t, para, max)
  {
    if para == [] {
      return [[]];
    }
    hide Sane, Split, Broken, PlacedAll;
    lines := [];
    var words := Split(para, SPACE);
    var currentLine: Line, currentWidth: nat := [], 0;
    assert words[0..] == words;
    for i := 0 to |words|
      invariant PlacedAll(t, Page(lines, currentLine, currentWidth), words[i..], max)
             == PlacedAll(t, BLANK, words, max)
    {
      PlaceOne(t, Page(lines, currentLine, currentWidth), words, i, max);
      var withSpace := currentWidth + 1 + t.width(words[i]);
      if currentWidth > 0 && withSpace <= max {
        currentLine := currentLine + [SPACE] + words[i];
        currentWidth := withSpace;
      } else {
        if currentWidth > 0 {
          lines := lines + [currentLine];
        }
        var pieces;
        pieces, currentLine := HardBreak(t, words[i], max);
        assert (pieces + [currentLine])[..|pieces|] == pieces;
        lines := lines + pieces;
        currentWidth := t.width(currentLine);
      }
    }
    PlaceNone(t, Page(lines, currentLine, currentWidth), max);
    if currentLine != [] {
      lines := lines + [currentLine];
    }
  }

  lemma PlaceOne(t: Terminal, page: Page, words: seq<Line>, i: nat, max: nat)
    requires Sane(t) && i < |words|
    ensures PlacedAll(t, page, words[i..], max) == PlacedAll(t, Placed(t, page, words[i], max), words[i + 1..], max)
  {
    hide Sane, Placed;
    assert words[i..][0] == words[i] && words[i..][1..] == words[i + 1..];
  }

  lemma PlaceNone(t: Terminal, page: Page, max: nat)
    requires Sane(t)
    ensures PlacedAll(t, page, [], max) == page
  {
  }

  // wrapLines.
  method WrapLines(t: Terminal, text: Line, max: int) returns (lines: seq<Line>)
    requires Sane(t) && Ends(text, max)
    ensures lines == Wrapped(t, text, max)
  {
    hide Split, Paragraph;
    var paragraphs := Split(text, LINE_FEED);
    lines := [];
    assert paragraphs[0..] == paragraphs;
    for i := 0 to |paragraphs|
      invariant lines + Paragraphs(t, paragraphs[i..], max) == Paragraphs(t, paragraphs, max)
    {
      assert paragraphs[i..][0] == paragraphs[i] && paragraphs[i..][1..] == paragraphs[i + 1..];
      var more := WrapParagraph(t, paragraphs[i], max);
      lines := lines + more;
    }
  }

  // --- Termination ------------------------------------------------------------------------------------

  // The open line after n turns of the hard-break loop's body.
  function Turned(t: Terminal, line: Line, max: int, n: nat): Line {
    if n == 0 then line
    else
      var before := Turned(t, line, max, n - 1);
      var end := SliceEnd(t, before, max);
      if end <= |before| then before[end..] else []
  }

  // The loop on any line ends exactly when the width is not negative: then every turn
  // shortens the line; otherwise not even the empty line is narrow enough.
  lemma HardBreakEndsIff(t: Terminal, line: Line, max: int)
    requires Sane(t)
    ensures (exists n: nat :: t.width(Turned(t, line, max, n)) <= max) <==> max >= 0
  {
    TurnedShrinks(t, line, max, |line|);
    assert max >= 0 ==> t.width(Turned(t, line, max, |line|)) <= max;
  }

  lemma {:induction false} TurnedShrinks(t: Terminal, line: Line, max: int, n: nat)
    requires n <= |line|
    ensures |Turned(t, line, max, n)| <= |line| - n
    decreases n
  {
    if n > 0 {
      TurnedShrinks(t, line, max, n - 1);
    }
  }

  // --- Width -------------------------------------------------------------------------------------------

  // Measuring and cutting are compatible: graphemes keep their identity on either side of a
  // cut between them, and add up to the width of the line.
  ghost predicate Additive(t: Terminal) {
    && (forall s, k :: 0 <= k <= |t.segment(s)| ==> Recuts(t, s, k))
    && (forall a, b :: t.width(a + [SPACE] + b) <= t.width(a) + 1 + t.width(b))
  }

  ghost predicate Recuts(t: Terminal, s: Line, k: nat)
    requires k <= |t.segment(s)|
  {
    && t.segment(Flat(t.segment(s)[..k])) == t.segment(s)[..k]
    && t.segment(Flat(t.segment(s)[k..])) == t.segment(s)[k..]
    && t.width(Flat(t.segment(s)[..k])) <= Columns(t.segment(s), PartWidth(t), k)
  }

  // No grapheme of the word is wider than a line.
  predicate Narrow(t: Terminal, word: Line, max: int) {
    forall k :: 0 <= k < |t.segment(word)| ==> PartWidth(t)(t.segment(word)[k]) <= max
  }

  ghost predicate AllFit(t: Terminal, lines: seq<Line>, max: int) {
    forall i :: 0 <= i < |lines| ==> t.width(lines[i]) <= max
  }

  // One cut of a too wide word: it falls between graphemes and both sides are as before.
  lemma CutBetweenGraphemes(t: Terminal, word: Line, max: nat)
    requires Sane(t) && Additive(t) && Narrow(t, word, max) && word != []
    ensures var k, end := Fit(t, word, max), SliceEnd(t, word, max);
            && end <= |word| && t.width(word[..end]) <= max
            && t.segment(word[..end]) == t.segment(word)[..k]
            && t.segment(word[end..]) == t.segment(word)[k..]
            && Narrow(t, word[end..], max)
  {
    var parts, k := t.segment(word), Fit(t, word, max);
    UnitsFlat(parts, k);
    assert Recuts(t, word, k);
    UnitsRise(parts, 0, k);
  }

  function Parts(t: Terminal, lines: seq<Line>): seq<Grapheme> {
    if lines == [] then [] else t.segment(lines[0]) + Parts(t, lines[1..])
  }

  // A word of narrow graphemes is broken into pieces that fit and never split a grapheme.
  lemma {:induction false} BrokenFits(t: Terminal, word: Line, max: nat)
    requires Sane(t) && Additive(t) && Narrow(t, word, max)
    ensures AllFit(t, Broken(t, word, max), max)
    ensures Parts(t, Broken(t, word, max)) == t.segment(word)
    decreases |word|
  {
    if t.width(word) > max {
      CutBetweenGraphemes(t, word, max);
      SliceWithin(t, word, max);
      var end := SliceEnd(t, word, max);
      BrokenFits(t, word[end..], max);
      assert t.segment(word) == t.segment(word[..end]) + t.segment(word[end..]);
    } else {
      assert Parts(t, [word]) == t.segment(word) + Parts(t, []);
    }
  }

  ghost predicate PageFits(t: Terminal, page: Page, max: nat) {
    AllFit(t, page.lines, max) && t.width(page.open) <= page.used <= max
  }

  lemma PlacedFits(t: Terminal, page: Page, word: Line, max: nat)
    requires Sane(t) && Additive(t) && Narrow(t, word, max) && PageFits(t, page, max)
    ensures PageFits(t, Placed(t, page, word, max), max)
  {
    BrokenFits(t, word, max);
  }

  lemma {:induction false} PlacedAllFits(t: Terminal, page: Page, words: seq<Line>, max: nat)
    requires Sane(t) && Additive(t) && PageFits(t, page, max)
    requires forall w :: w in words ==> Narrow(t, w, max)
    ensures PageFits(t, PlacedAll(t, page, words, max), max)
    decreases |words|
  {
    if words != [] {
      PlacedFits(t, page, words[0], max);
      PlacedAllFits(t, Placed(t, page, words[0], max), words[1..], max);
    }
  }

  ghost predicate NarrowText(t: Terminal, paras: seq<Line>, max: int) {
    forall para, w :: para in paras && w in Split(para, SPACE) ==> Narrow(t, w, max)
  }

  lemma {:induction false} ParagraphsFit(t: Terminal, paras: seq<Line>, max: nat)
    requires Sane(t) && Additive(t) && NarrowText(t, paras, max)
    ensures AllFit(t, Paragraphs(t, paras, max), max)
  {
    hide Sane, Additive, Narrow, Paragraph;
    if paras != [] {
      assert paras[0] in paras && forall para :: para in paras[1..] ==> para in paras;
      ParagraphsFit(t, paras[1..], max);
      ParagraphFits(t, paras[0], max);
    }
  }

  lemma ParagraphFits(t: Terminal, para: Line, max: nat)
    requires Sane(t) && Additive(t) && forall w :: w in Split(para, SPACE) ==> Narrow(t, w, max)
    ensures AllFit(t, Paragraph(t, para, max), max)
  {
    hide Additive, Narrow;
    if para != [] {
      PlacedAllFits(t, BLANK, Split(para, SPACE), max);
    }
  }

  // Main result on width: no line is wider than the limit when no grapheme is.
  lemma WrappedFits(t: Terminal, text: Line, max: nat)
    requires Sane(t) && Additive(t) && NarrowText(t, Split(text, LINE_FEED), max)
    ensures AllFit(t, Wrapped(t, text, max), max)
  {
    ParagraphsFit(t, Split(text, LINE_FEED), max);
  }

  // --- Content ------------------------------------------------------------------------------------------

  // Everything but spaces and newlines.
  function Ink(s: Line): Line {
    if s == [] then []
    else if s[0] == SPACE || s[0] == LINE_FEED then Ink(s[1..])
    else [s[0]] + Ink(s[1..])
  }

  lemma {:induction false} InkConcat(a: Line, b: Line)
    ensures Ink(a + b) == Ink(a) + Ink(b)
  {
    if a == [] {
      assert a + b == b;
    } else {
      assert (a + b)[1..] == a[1..] + b;
      InkConcat(a[1..], b);
    }
  }

  lemma {:induction false} FlatConcat(a: seq<Line>, b: seq<Line>)
    ensures Flat(a + b) == Flat(a) + Flat(b)
  {
    if a == [] {
      assert a + b == b;
    } else {
      assert (a + b)[1..] == a[1..] + b;
      FlatConcat(a[1..], b);
    }
  }

  lemma FlatGrown(c: int, r: seq<Line>)
    requires r != []
    ensures Flat([[c] + r[0]] + r[1..]) == [c] + Flat(r)
  {
    hide Flat;
    FlatHead(r);
    FlatHead([[c] + r[0]] + r[1..]);
    assert ([[c] + r[0]] + r[1..])[1..] == r[1..];
    assert ([c] + r[0]) + Flat(r[1..]) == [c] + (r[0] + Flat(r[1..]));
  }

  lemma FlatHead(lines: seq<Line>)
    requires lines != []
    ensures Flat(lines) == lines[0] + Flat(lines[1..])
  {
  }

  lemma {:induction false} SplitInk(s: Line, sep: int)
    requires sep == SPACE || sep == LINE_FEED
    ensures Ink(Flat(Split(s, sep))) == Ink(s)
  {
    if s == [] {
      assert Flat([[]]) == [] + Flat([]);
    } else {
      SplitInk(s[1..], sep);
      var r := Split(s[1..], sep);
      if s[0] == sep {
        assert ([[]] + r)[1..] == r && [] + Flat(r) == Flat(r);
      } else {
        FlatGrown(s[0], r);
        InkConcat([s[0]], Flat(r));
        InkConcat([s[0]], s[1..]);
        assert s == [s[0]] + s[1..];
      }
    }
  }

  lemma {:induction false} BrokenSpells(t: Terminal, line: Line, max: nat)
    requires Sane(t)
    ensures Flat(Broken(t, line, max)) == line
    decreases |line|
  {
    if t.width(line) <= max {
      assert Flat([line]) == line + Flat([]);
    } else {
      SliceWithin(t, line, max);
      var end := SliceEnd(t, line, max);
      BrokenSpells(t, line[end..], max);
    }
  }

  function OnPage(page: Page): Line {
    Flat(page.lines) + page.open
  }

  // The next word will overwrite the open line.
  predicate Overwritten(page: Page) {
    page.used == 0 && page.open != []
  }

  // No word overwrites an open line.
  predicate NeverOverwrites(t: Terminal, page: Page, words: seq<Line>, max: nat)
    requires Sane(t)
    decreases |words|
  {
    words == [] || (!Overwritten(page) && NeverOverwrites(t, Placed(t, page, words[0], max), words[1..], max))
  }

  lemma PlacedInk(t: Terminal, page: Page, word: Line, max: nat)
    requires Sane(t) && !Overwritten(page)
    ensures Ink(OnPage(Placed(t, page, word, max))) == Ink(OnPage(page)) + Ink(word)
  {
    if page.used > 0 && page.used + 1 + t.width(word) <= max {
      assert OnPage(Placed(t, page, word, max)) == OnPage(page) + ([SPACE] + word);
      InkConcat(OnPage(page), [SPACE] + word);
      InkConcat([SPACE], word);
    } else {
      NewLineSpells(t, page, word, max);
      InkConcat(OnPage(page), word);
    }
  }

  // Neither spaces nor newlines.
  predicate Solid(s: Line) {
    SPACE !in s && LINE_FEED !in s
  }

  lemma {:induction false} SolidInk(s: Line)
    requires Solid(s)
    ensures Ink(s) == s
  {
    if s != [] {
      assert s == [s[0]] + s[1..];
      SolidInk(s[1..]);
    }
  }

  lemma OverwritingLoses(t: Terminal, page: Page, word: Line, max: nat)
    requires Sane(t) && Overwritten(page) && Solid(page.open)
    ensures |Ink(OnPage(Placed(t, page, word, max)))| < |Ink(OnPage(page))| + |Ink(word)|
  {
    var blank := page.(open := []);
    assert Placed(t, page, word, max) == Placed(t, blank, word, max);
    PlacedInk(t, blank, word, max);
    assert OnPage(blank) == Flat(page.lines);
    InkConcat(Flat(page.lines), page.open);
    SolidInk(page.open);
  }

  lemma {:induction false} BrokenSolid(t: Terminal, word: Line, max: nat)
    requires Sane(t) && Solid(word)
    ensures forall piece :: piece in Broken(t, word, max) ==> Solid(piece)
    decreases |word|
  {
    if t.width(word) > max {
      SliceWithin(t, word, max);
      BrokenSolid(t, word[SliceEnd(t, word, max)..], max);
    }
  }

  lemma PlacedSolid(t: Terminal, page: Page, word: Line, max: nat)
    requires Sane(t) && Solid(word)
    ensures var next := Placed(t, page, word, max); next.used == 0 ==> Solid(next.open)
  {
    BrokenSolid(t, word, max);
  }

  lemma FlatSnoc(lines: seq<Line>, last: Line)
    ensures Flat(lines + [last]) == Flat(lines) + last
  {
    FlatConcat(lines, [last]);
    assert Flat([last]) == last + Flat([]);
  }

  lemma NewLineSpells(t: Terminal, page: Page, word: Line, max: nat)
    requires Sane(t) && !Overwritten(page)
    requires page.used == 0 || page.used + 1 + t.width(word) > max
    ensures OnPage(Placed(t, page, word, max)) == OnPage(page) + word
  {
    hide Flat, Broken, Sane;
    var pieces := Broken(t, word, max);
    var init, rest := pieces[..|pieces| - 1], pieces[|pieces| - 1];
    var closed := if page.used == 0 then page.lines else page.lines + [page.open];
    FlatSnoc(page.lines, page.open);
    assert Flat(closed) == OnPage(page);
    FlatConcat(closed, init);
    FlatSnoc(init, rest);
    assert pieces == init + [rest];
    BrokenSpells(t, word, max);
  }

  lemma {:induction false} PlacedAllInk(t: Terminal, page: Page, words: seq<Line>, max: nat)
    requires Sane(t) && (page.used == 0 ==> Solid(page.open)) && forall w :: w in words ==> Solid(w)
    ensures KeepsInk(Ink(OnPage(PlacedAll(t, page, words, max))), Ink(OnPage(page)) + Ink(Flat(words)),
                     NeverOverwrites(t, page, words, max))
    decreases |words|
  {
    hide OnPage, Placed, Sane, Solid;
    if words != [] {
      var next := Placed(t, page, words[0], max);
      PlacedSolid(t, page, words[0], max);
      PlacedAllInk(t, next, words[1..], max);
      InkConcat(words[0], Flat(words[1..]));
      if Overwritten(page) {
        OverwritingLoses(t, page, words[0], max);
      } else {
        PlacedInk(t, page, words[0], max);
      }
    }
  }

  // All the ink if and only if the condition holds; else strictly less.
  ghost predicate KeepsInk(out: Line, ink: Line, condition: bool) {
    if condition then out == ink else |out| < |ink|
  }

  predicate ParagraphKept(t: Terminal, para: Line, max: int)
    requires Sane(t) && (max >= 0 || para == [])
  {
    para == [] || NeverOverwrites(t, BLANK, Split(para, SPACE), max)
  }

  lemma ParagraphInk(t: Terminal, para: Line, max: int)
    requires Sane(t) && (max >= 0 || para == []) && LINE_FEED !in para
    ensures KeepsInk(Ink(Flat(Paragraph(t, para, max))), Ink(para), ParagraphKept(t, para, max))
  {
    if para != [] {
      var page := PlacedAll(t, BLANK, Split(para, SPACE), max);
      SplitAvoids(para, SPACE, LINE_FEED);
      PlacedAllInk(t, BLANK, Split(para, SPACE), max);
      SplitInk(para, SPACE);
      FlatSnoc(page.lines, page.open);
      assert Flat(Flushed(page)) == OnPage(page);
      assert OnPage(BLANK) == [];
    } else {
      assert Flat([[]]) == [] + Flat([]);
    }
  }

  lemma {:induction false} SplitAvoids(s: Line, sep: int, other: int)
    ensures forall w :: w in Split(s, sep) ==> sep !in w
    ensures other !in s ==> forall w :: w in Split(s, sep) ==> other !in w
  {
    if s != [] {
      SplitAvoids(s[1..], sep, other);
      var r := Split(s[1..], sep);
      assert r[0] in r && forall w :: w in r[1..] ==> w in r;
    }
  }

  predicate AllKept(t: Terminal, paras: seq<Line>, max: int)
    requires Sane(t) && Endable(paras, max)
  {
    forall i :: 0 <= i < |paras| ==> ParagraphKept(t, paras[i], max)
  }

  lemma {:induction false} ParagraphsInk(t: Terminal, paras: seq<Line>, max: int)
    requires Sane(t) && Endable(paras, max) && forall i :: 0 <= i < |paras| ==> LINE_FEED !in paras[i]
    ensures KeepsInk(Ink(Flat(Paragraphs(t, paras, max))), Ink(Flat(paras)), AllKept(t, paras, max))
  {
    if paras != [] {
      var first, rest := Paragraph(t, paras[0], max), Paragraphs(t, paras[1..], max);
      ParagraphInk(t, paras[0], max);
      ParagraphsInk(t, paras[1..], max);
      AllKeptCons(t, paras, max);
      FlatConcat(first, rest);
      InkConcat(Flat(first), Flat(rest));
      InkConcat(paras[0], Flat(paras[1..]));
    }
  }

  lemma AllKeptCons(t: Terminal, paras: seq<Line>, max: int)
    requires Sane(t) && Endable(paras, max) && paras != []
    ensures AllKept(t, paras, max) <==> ParagraphKept(t, paras[0], max) && AllKept(t, paras[1..], max)
  {
    hide ParagraphKept, Sane;
    forall i | 0 < i < |paras|
      ensures ParagraphKept(t, paras[i], max) <==> ParagraphKept(t, paras[1..][i - 1], max)
    {
    }
    if AllKept(t, paras, max) {
      assert forall j :: 0 <= j < |paras[1..]| ==> paras[1..][j] == paras[j + 1];
    }
  }

  // Every newline ends a line, and an empty paragraph is an empty line.
  lemma {:induction false} NewlinesBreak(t: Terminal, a: seq<Line>, b: seq<Line>, max: int)
    requires Sane(t) && Endable(a + b, max)
    ensures Endable(a, max) && Endable(b, max) && Endable([[]], max)
    ensures Paragraphs(t, a + b, max) == Paragraphs(t, a, max) + Paragraphs(t, b, max)
    ensures Paragraphs(t, [[]], max) == [[]]
    decreases |a|
  {
    assert forall i :: 0 <= i < |a| ==> (a + b)[i] == a[i];
    assert forall i :: 0 <= i < |b| ==> (a + b)[|a| + i] == b[i];
    var blank: seq<Line> := [[]];
    assert blank[1..] == [] && Paragraphs(t, blank[1..], max) == [];
    if a == [] {
      assert a + b == b;
    } else {
      assert (a + b)[1..] == a[1..] + b;
      NewlinesBreak(t, a[1..], b, max);
      Edits.AppendAssoc(Paragraph(t, a[0], max), Paragraphs(t, a[1..], max), Paragraphs(t, b, max));
    }
  }

  // Main result on content: everything but spaces and newlines comes out complete and in
  // order if and only if no word overwrites a non-empty open line of width 0, whatever the
  // limit and however wide the graphemes.
  lemma WrappedKeepsInkIff(t: Terminal, text: Line, max: int)
    requires Sane(t) && Ends(text, max)
    ensures Ink(Flat(Wrapped(t, text, max))) == Ink(text) <==> AllKept(t, Split(text, LINE_FEED), max)
  {
    SplitAvoids(text, LINE_FEED, LINE_FEED);
    ParagraphsInk(t, Split(text, LINE_FEED), max);
    SplitInk(text, LINE_FEED);
  }

  // A line without width is empty.
  ghost predicate Visible(t: Terminal) {
    forall s: Line :: t.width(s) == 0 ==> s == []
  }

  lemma {:induction false} VisibleNeverOverwrites(t: Terminal, page: Page, words: seq<Line>, max: nat)
    requires Sane(t) && Visible(t) && !Overwritten(page)
    ensures NeverOverwrites(t, page, words, max)
    decreases |words|
  {
    if words != [] {
      VisibleNeverOverwrites(t, Placed(t, page, words[0], max), words[1..], max);
    }
  }

  // In particular always when only the empty string has no width.
  lemma WrappedKeepsInk(t: Terminal, text: Line, max: int)
    requires Sane(t) && Visible(t) && Ends(text, max)
    ensures Ink(Flat(Wrapped(t, text, max))) == Ink(text)
  {
    var paras := Split(text, LINE_FEED);
    forall i | 0 <= i < |paras| && paras[i] != []
      ensures ParagraphKept(t, paras[i], max)
    {
      VisibleNeverOverwrites(t, BLANK, Split(paras[i], SPACE), max);
    }
    WrappedKeepsInkIff(t, text, max);
  }

  // A terminal where every code unit is a grapheme and a zero-width space has no width.
  function Plain(): Terminal {
    Terminal((s: Line) => seq(|s|, i requires 0 <= i < |s| => [s[i]]),
             (s: Line) => if s == [] || s == [0x200B] then 0 else |s|)
  }

  lemma PlainIsSane()
    ensures Sane(Plain())
  {
    forall s
      ensures Flat(Plain().segment(s)) == s
    {
      SinglesFlat(s);
    }
  }

  // An input that loses ink: a lone zero-width character before another word.
  lemma InvisibleWordLost()
    ensures Sane(Plain()) && Wrapped(Plain(), [0x200B, SPACE, 65], 10) == [[65]]
  {
    PlainIsSane();
    hide Sane, Flat, PlacedAll;
    var t := Plain();
    var text: Line := [0x200B, SPACE, 65];
    SplitAbsent(text, LINE_FEED);
    TwoWords(0x200B, 65);
    var first := Placed(t, BLANK, [0x200B], 10);
    assert first == Page([], [0x200B], 0);
    assert Placed(t, first, [65], 10) == Page([], [65], 1);
    PlacedTwo(t, [0x200B], [65], 10);
    assert Paragraphs(t, [text][1..], 10) == [];
  }

  lemma PlacedTwo(t: Terminal, a: Line, b: Line, max: nat)
    requires Sane(t)
    ensures PlacedAll(t, BLANK, [a, b], max) == Placed(t, Placed(t, BLANK, a, max), b, max)
  {
    hide Placed, Sane;
    var page := Placed(t, BLANK, a, max);
    assert PlacedAll(t, page, [b], max) == PlacedAll(t, Placed(t, page, b, max), [b][1..], max);
    assert [a, b][1..] == [b];
  }

  lemma TwoWords(a: int, b: int)
    requires a != SPACE && b != SPACE
    ensures Split([a, SPACE, b], SPACE) == [[a], [b]]
  {
    SplitAbsent([b], SPACE);
    var rest := Split([SPACE] + [b], SPACE);
    assert rest == [[], [b]];
    assert [a, SPACE, b] == [a] + ([SPACE] + [b]);
    assert [a] + rest[0] == [a] && rest[1..] == [[b]];
  }

  lemma {:induction false} SplitAbsent(s: Line, sep: int)
    requires sep !in s
    ensures Split(s, sep) == [s]
  {
    if s != [] {
      SplitAbsent(s[1..], sep);
      assert s == [s[0]] + s[1..];
    }
  }

  lemma {:induction false} SinglesFlat(s: Line)
    ensures Flat(seq(|s|, i requires 0 <= i < |s| => [s[i]])) == s
  {
    if s != [] {
      SinglesFlat(s[1..]);
      var parts := seq(|s|, i requires 0 <= i < |s| => [s[i]]);
      assert parts[1..] == seq(|s[1..]|, i requires 0 <= i < |s[1..]| => [s[1..][i]]);
    }
  }

  // --- Graphemes ------------------------------------------------------------------------------------------

  // Graphemes but for lone spaces and newlines.
  function InkParts(parts: seq<Grapheme>): seq<Grapheme> {
    if parts == [] then []
    else if parts[0] == [SPACE] || parts[0] == [LINE_FEED] then InkParts(parts[1..])
    else [parts[0]] + InkParts(parts[1..])
  }

  lemma {:induction false} InkPartsConcat(a: seq<Grapheme>, b: seq<Grapheme>)
    ensures InkParts(a + b) == InkParts(a) + InkParts(b)
  {
    if a == [] {
      assert a + b == b;
    } else {
      assert (a + b)[1..] == a[1..] + b;
      InkPartsConcat(a[1..], b);
    }
  }

  lemma InkPartsAround(a: seq<Grapheme>, sep: int, b: seq<Grapheme>)
    requires sep == SPACE || sep == LINE_FEED
    ensures InkParts(a + [[sep]] + b) == InkParts(a) + InkParts(b)
  {
    InkPartsConcat(a + [[sep]], b);
    InkPartsConcat(a, [[sep]]);
    assert InkParts([[sep]]) == InkParts([[sep]][1..]) == [];
  }

  predicate Separator(c: int) {
    c == SPACE || c == LINE_FEED
  }

  // A line that ends with a separator, or with a unit no separator attaches to.
  predicate EndsIn(a: Line, calm: int -> bool) {
    a == [] || Separator(a[|a| - 1]) || calm(a[|a| - 1])
  }

  predicate Marked(mark: Grapheme -> bool, parts: seq<Grapheme>) {
    parts != [] && mark(parts[0])
  }

  // The graphemes of a line with a space before it: a mark at its start is taken by the space.
  function AfterSpace(mark: Grapheme -> bool, parts: seq<Grapheme>): seq<Grapheme> {
    if Marked(mark, parts) then [[SPACE] + parts[0]] + parts[1..] else [[SPACE]] + parts
  }

  // How separators attach (the rules of section 3.1.1 of Unicode Standard Annex 29): after a
  // calm end a newline is a grapheme of its own, and a space takes nothing but a mark after it.
  ghost predicate Attaches(t: Terminal, mark: Grapheme -> bool, calm: int -> bool) {
    && MarksAreInk(mark)
    && (forall a, b :: EndsIn(a, calm) ==> NewlineAlone(t, a, b) && SpaceTakes(t, mark, a, b))
  }

  ghost predicate MarksAreInk(mark: Grapheme -> bool) {
    forall g: Grapheme :: mark(g) ==> g != [] && !Separator(g[0])
  }

  ghost predicate NewlineAlone(t: Terminal, a: Line, b: Line) {
    t.segment(a + [LINE_FEED] + b) == t.segment(a) + [[LINE_FEED]] + t.segment(b)
  }

  ghost predicate SpaceTakes(t: Terminal, mark: Grapheme -> bool, a: Line, b: Line) {
    t.segment(a + [SPACE] + b) == t.segment(a) + AfterSpace(mark, t.segment(b))
  }

  function JoinedBy(words: seq<Line>, sep: int): Line
    requires words != []
  {
    if |words| == 1 then words[0] else words[0] + [sep] + JoinedBy(words[1..], sep)
  }

  lemma {:induction false} SplitJoins(s: Line, sep: int)
    ensures JoinedBy(Split(s, sep), sep) == s
  {
    if s != [] {
      SplitJoins(s[1..], sep);
      var r := Split(s[1..], sep);
      assert s == [s[0]] + s[1..];
      if s[0] == sep {
        assert ([[]] + r)[1..] == r && [] + [sep] + JoinedBy(r, sep) == [sep] + s[1..];
      } else {
        GrownJoins(s[0], r, sep);
      }
    }
  }

  lemma GrownJoins(c: int, r: seq<Line>, sep: int)
    requires r != []
    ensures JoinedBy([[c] + r[0]] + r[1..], sep) == [c] + JoinedBy(r, sep)
  {
    var grown := [[c] + r[0]] + r[1..];
    assert grown[0] == [c] + r[0] && grown[1..] == r[1..];
    if |r| > 1 {
      assert ([c] + r[0]) + [sep] + JoinedBy(r[1..], sep) == [c] + (r[0] + [sep] + JoinedBy(r[1..], sep));
    }
  }

  predicate AllCalm(words: seq<Line>, calm: int -> bool) {
    forall w :: w in words ==> EndsIn(w, calm)
  }

  lemma {:induction false} JoinedCalm(words: seq<Line>, sep: int, calm: int -> bool)
    requires words != [] && Separator(sep) && AllCalm(words, calm)
    ensures EndsIn(JoinedBy(words, sep), calm)
    decreases |words|
  {
    assert words[0] in words;
    if |words| > 1 {
      JoinedCalm(words[1..], sep, calm);
      var rest := JoinedBy(words[1..], sep);
      var all := words[0] + [sep] + rest;
      assert rest == [] ==> all[|all| - 1] == sep;
      assert rest != [] ==> all[|all| - 1] == rest[|rest| - 1];
    }
  }

  lemma {:induction false} PartsConcat(t: Terminal, a: seq<Line>, b: seq<Line>)
    ensures Parts(t, a + b) == Parts(t, a) + Parts(t, b)
  {
    if a == [] {
      assert a + b == b;
    } else {
      assert (a + b)[1..] == a[1..] + b;
      PartsConcat(t, a[1..], b);
    }
  }

  lemma PartsSnoc(t: Terminal, lines: seq<Line>, last: Line)
    ensures Parts(t, lines + [last]) == Parts(t, lines) + t.segment(last)
  {
    PartsConcat(t, lines, [last]);
    assert Parts(t, [last]) == t.segment(last) + Parts(t, []);
  }

  lemma NoParts(t: Terminal)
    requires Sane(t)
    ensures t.segment([]) == []
  {
    SomeFlat(t.segment([]));
  }

  lemma SomeFlat(parts: seq<Grapheme>)
    ensures parts == [] || Flat(parts) != []
  {
    assert parts != [] ==> Flat(parts) == parts[0] + Flat(parts[1..]);
  }

  function PageParts(t: Terminal, page: Page): seq<Grapheme> {
    Parts(t, page.lines) + t.segment(page.open)
  }

  // Splitting at newlines loses no grapheme but the newlines.
  lemma {:induction false} NewlinesParts(t: Terminal, mark: Grapheme -> bool, calm: int -> bool, paras: seq<Line>)
    requires Attaches(t, mark, calm) && paras != [] && AllCalm(paras, calm)
    ensures InkParts(t.segment(JoinedBy(paras, LINE_FEED))) == InkParts(Parts(t, paras))
    decreases |paras|
  {
    var first, others := paras[0], paras[1..];
    assert first in paras;
    if others == [] {
      assert Parts(t, paras) == t.segment(first) + Parts(t, []) == t.segment(first);
    } else {
      var rest := JoinedBy(others, LINE_FEED);
      NewlinesParts(t, mark, calm, others);
      assert NewlineAlone(t, first, rest);
      InkPartsAround(t.segment(first), LINE_FEED, t.segment(rest));
      InkPartsConcat(t.segment(first), Parts(t, others));
    }
  }

  // The graphemes of words that each follow a space.
  function Spaced(t: Terminal, mark: Grapheme -> bool, words: seq<Line>): seq<Grapheme> {
    if words == [] then []
    else InkParts(AfterSpace(mark, t.segment(words[0]))) + Spaced(t, mark, words[1..])
  }

  // Splitting at spaces shows, word by word, what the space before it takes.
  lemma {:induction false} SpacesParts(t: Terminal, mark: Grapheme -> bool, calm: int -> bool, words: seq<Line>)
    requires Attaches(t, mark, calm) && words != [] && AllCalm(words, calm)
    ensures var parts := t.segment(JoinedBy(words, SPACE));
            && InkParts(parts) == InkParts(t.segment(words[0])) + Spaced(t, mark, words[1..])
            && InkParts(AfterSpace(mark, parts)) == Spaced(t, mark, words)
    decreases |words|
  {
    var first, others := words[0], words[1..];
    assert first in words;
    if others == [] {
      assert Spaced(t, mark, others) == [];
    } else {
      var rest := AfterSpace(mark, t.segment(JoinedBy(others, SPACE)));
      SpacesParts(t, mark, calm, others);
      assert SpaceTakes(t, mark, first, JoinedBy(others, SPACE));
      InkPartsConcat(t.segment(first), rest);
      AfterSpaceConcat(mark, t.segment(first), t.segment(JoinedBy(others, SPACE)));
      InkPartsConcat(AfterSpace(mark, t.segment(first)), rest);
    }
  }

  lemma AfterSpaceConcat(mark: Grapheme -> bool, a: seq<Grapheme>, b: seq<Grapheme>)
    requires MarksAreInk(mark)
    ensures AfterSpace(mark, a + AfterSpace(mark, b)) == AfterSpace(mark, a) + AfterSpace(mark, b)
  {
    var rest := AfterSpace(mark, b);
    StartsWithSpace(mark, b);
    hide MarksAreInk;
    if a == [] {
      assert a + rest == rest && [[SPACE]] + rest == AfterSpace(mark, a) + rest;
    } else {
      hide AfterSpace;
      AfterSpaceMore(mark, a, rest);
    }
  }

  lemma StartsWithSpace(mark: Grapheme -> bool, b: seq<Grapheme>)
    requires MarksAreInk(mark)
    ensures !Marked(mark, AfterSpace(mark, b))
  {
    assert AfterSpace(mark, b)[0][0] == SPACE;
  }

  lemma AfterSpaceMore(mark: Grapheme -> bool, a: seq<Grapheme>, rest: seq<Grapheme>)
    requires a != []
    ensures AfterSpace(mark, a + rest) == AfterSpace(mark, a) + rest
  {
    assert (a + rest)[0] == a[0];
    if mark(a[0]) {
      assert (a + rest)[1..] == a[1..] + rest;
      Edits.AppendAssoc([[SPACE] + a[0]], a[1..], rest);
    } else {
      Edits.AppendAssoc([[SPACE]], a, rest);
    }
  }

  // All of it if and only if the condition holds; else units are missing.
  ghost predicate Held(out: seq<Grapheme>, all: seq<Grapheme>, condition: bool) {
    if condition then out == all else |Flat(out)| < |Flat(all)|
  }

  lemma HeldConcat(
      out: seq<Grapheme>, all: seq<Grapheme>, held: bool, out': seq<Grapheme>, all': seq<Grapheme>, held': bool)
    requires Held(out, all, held) && Held(out', all', held')
    ensures Held(out + out', all + all', held && held')
  {
    FlatConcat(out, out');
    FlatConcat(all, all');
  }

  // Without the space in front, graphemes stay the same if and only if none is a mark it took.
  lemma SpaceMatters(mark: Grapheme -> bool, parts: seq<Grapheme>)
    requires MarksAreInk(mark)
    ensures Held(InkParts(parts), InkParts(AfterSpace(mark, parts)), !Marked(mark, parts))
  {
    var after := AfterSpace(mark, parts);
    if Marked(mark, parts) {
      assert after[0] == [SPACE] + parts[0] && after[1..] == parts[1..];
      assert InkParts(parts) == [parts[0]] + InkParts(parts[1..]);
      assert after[0] != [SPACE] && after[0] != [LINE_FEED];
      assert InkParts(after) == [after[0]] + InkParts(parts[1..]);
      HeadFlat(parts[0], InkParts(parts[1..]));
      HeadFlat(after[0], InkParts(parts[1..]));
    } else {
      assert after[0] == [SPACE] && after[1..] == parts;
    }
  }

  lemma HeadFlat(part: Grapheme, rest: seq<Grapheme>)
    ensures Flat([part] + rest) == part + Flat(rest)
  {
    assert ([part] + rest)[1..] == rest;
  }

  lemma ClosedParts(t: Terminal, page: Page)
    requires Sane(t) && !Overwritten(page)
    ensures Parts(t, if page.used == 0 then page.lines else page.lines + [page.open]) == PageParts(t, page)
  {
    hide Parts;
    NoParts(t);
    PartsSnoc(t, page.lines, page.open);
  }

  lemma PieceParts(t: Terminal, word: Line, max: nat, init: seq<Line>, rest: Line)
    requires Sane(t) && Additive(t) && Narrow(t, word, max) && Broken(t, word, max) == init + [rest]
    ensures Parts(t, init) + t.segment(rest) == t.segment(word)
  {
    hide Parts, Broken, Additive, Narrow, Sane;
    PartsSnoc(t, init, rest);
    BrokenFits(t, word, max);
  }

  lemma NewLineParts(t: Terminal, page: Page, word: Line, max: nat)
    requires Sane(t) && Additive(t) && Narrow(t, word, max) && !Overwritten(page)
    requires page.used == 0 || page.used + 1 + t.width(word) > max
    ensures PageParts(t, Placed(t, page, word, max)) == PageParts(t, page) + t.segment(word)
  {
    hide Additive, Narrow, Sane, Parts, Broken, Overwritten;
    var pieces := Broken(t, word, max);
    var init, rest := pieces[..|pieces| - 1], pieces[|pieces| - 1];
    assert pieces == init + [rest];
    ClosedParts(t, page);
    PieceParts(t, word, max, init, rest);
    PartsConcat(t, if page.used == 0 then page.lines else page.lines + [page.open], init);
  }

  lemma {:induction false} BrokenCalm(t: Terminal, word: Line, max: nat, calm: int -> bool)
    requires Sane(t) && EndsIn(word, calm)
    ensures var pieces := Broken(t, word, max); EndsIn(pieces[|pieces| - 1], calm)
    decreases |word|
  {
    if t.width(word) > max {
      SliceWithin(t, word, max);
      var end := SliceEnd(t, word, max);
      assert end < |word| ==> word[end..][|word| - end - 1] == word[|word| - 1];
      BrokenCalm(t, word[end..], max, calm);
    }
  }

  lemma PlacedCalm(t: Terminal, page: Page, word: Line, max: nat, calm: int -> bool)
    requires Sane(t) && EndsIn(page.open, calm) && EndsIn(word, calm)
    ensures EndsIn(Placed(t, page, word, max).open, calm)
  {
    BrokenCalm(t, word, max, calm);
  }

  // The word goes on the open line, behind a space.
  predicate Joins(t: Terminal, page: Page, word: Line, max: nat) {
    page.used > 0 && page.used + 1 + t.width(word) <= max
  }

  lemma PlacedParts(
      t: Terminal, mark: Grapheme -> bool, calm: int -> bool, page: Page, word: Line, max: nat)
    requires Sane(t) && Additive(t) && Narrow(t, word, max) && Attaches(t, mark, calm)
    requires EndsIn(page.open, calm) && !Overwritten(page)
    ensures InkParts(PageParts(t, Placed(t, page, word, max)))
         == InkParts(PageParts(t, page))
            + InkParts(if Joins(t, page, word, max) then AfterSpace(mark, t.segment(word)) else t.segment(word))
  {
    if Joins(t, page, word, max) {
      var after := AfterSpace(mark, t.segment(word));
      assert SpaceTakes(t, mark, page.open, word);
      assert PageParts(t, Placed(t, page, word, max)) == PageParts(t, page) + after;
      InkPartsConcat(PageParts(t, page), after);
    } else {
      NewLineParts(t, page, word, max);
      InkPartsConcat(PageParts(t, page), t.segment(word));
    }
  }

  // No word that starts with a mark is put on a new line, away from its space.
  predicate MarksStay(t: Terminal, mark: Grapheme -> bool, page: Page, words: seq<Line>, max: nat)
    requires Sane(t)
    decreases |words|
  {
    words == []
    || ((Joins(t, page, words[0], max) || !Marked(mark, t.segment(words[0])))
        && MarksStay(t, mark, Placed(t, page, words[0], max), words[1..], max))
  }

  lemma {:induction false} PlacedAllParts(
      t: Terminal, mark: Grapheme -> bool, calm: int -> bool, page: Page, words: seq<Line>, max: nat)
    requires Sane(t) && Additive(t) && Attaches(t, mark, calm) && AllCalm(words, calm)
    requires forall w :: w in words ==> Narrow(t, w, max)
    requires EndsIn(page.open, calm) && NeverOverwrites(t, page, words, max)
    ensures Held(InkParts(PageParts(t, PlacedAll(t, page, words, max))),
                 InkParts(PageParts(t, page)) + Spaced(t, mark, words),
                 MarksStay(t, mark, page, words, max))
    decreases |words|
  {
    if words == [] {
      assert InkParts(PageParts(t, page)) + [] == InkParts(PageParts(t, page));
    } else {
      hide Sane, Additive, Attaches, Narrow, Placed, PageParts, EndsIn, InkParts, Overwritten, Held, Joins, AfterSpace,
        Marked;
      var word, next := words[0], Placed(t, page, words[0], max);
      assert word in words && forall w :: w in words[1..] ==> w in words;
      PlacedParts(t, mark, calm, page, word, max);
      PlacedCalm(t, page, word, max, calm);
      PlacedAllParts(t, mark, calm, next, words[1..], max);
      WordHeld(t, mark, calm, page, word, max);
      SpacedHeld(t, mark, page, next, words, max);
    }
  }

  // One word: kept as the space before it shows it, unless a mark leaves its space.
  lemma WordHeld(
      t: Terminal, mark: Grapheme -> bool, calm: int -> bool, page: Page, word: Line, max: nat)
    requires Sane(t) && Additive(t) && Narrow(t, word, max) && Attaches(t, mark, calm)
    requires EndsIn(page.open, calm) && !Overwritten(page)
    ensures Held(InkParts(PageParts(t, Placed(t, page, word, max))),
                 InkParts(PageParts(t, page)) + InkParts(AfterSpace(mark, t.segment(word))),
                 Joins(t, page, word, max) || !Marked(mark, t.segment(word)))
  {
    hide PageParts, InkParts, AfterSpace, Marked, Flat, Placed, Additive;
    var before := InkParts(PageParts(t, page));
    PlacedParts(t, mark, calm, page, word, max);
    if !Joins(t, page, word, max) {
      SpaceMatters(mark, t.segment(word));
      HeldConcat(before, before, true, InkParts(t.segment(word)), InkParts(AfterSpace(mark, t.segment(word))),
                 !Marked(mark, t.segment(word)));
    }
  }

  lemma SpacedHeld(
      t: Terminal, mark: Grapheme -> bool, page: Page, next: Page, words: seq<Line>, max: nat)
    requires Sane(t) && words != [] && next == Placed(t, page, words[0], max)
    requires var held := Joins(t, page, words[0], max) || !Marked(mark, t.segment(words[0]));
             Held(InkParts(PageParts(t, next)),
                  InkParts(PageParts(t, page)) + InkParts(AfterSpace(mark, t.segment(words[0]))), held)
    requires Held(InkParts(PageParts(t, PlacedAll(t, next, words[1..], max))),
                  InkParts(PageParts(t, next)) + Spaced(t, mark, words[1..]),
                  MarksStay(t, mark, next, words[1..], max))
    ensures Held(InkParts(PageParts(t, PlacedAll(t, page, words, max))),
                 InkParts(PageParts(t, page)) + Spaced(t, mark, words),
                 MarksStay(t, mark, page, words, max))
  {
    hide PageParts, InkParts, AfterSpace, Marked, Joins, Placed, Sane, Flat;
    var before, first := InkParts(PageParts(t, page)), InkParts(AfterSpace(mark, t.segment(words[0])));
    var rest := Spaced(t, mark, words[1..]);
    var held := Joins(t, page, words[0], max) || !Marked(mark, t.segment(words[0]));
    HeldConcat(InkParts(PageParts(t, next)), before + first, held, rest, rest, true);
    Edits.AppendAssoc(before, first, rest);
  }

  // A paragraph's marks all stay with the spaces they attach to.
  predicate ParagraphMarksStay(t: Terminal, mark: Grapheme -> bool, para: Line, max: nat)
    requires Sane(t)
  {
    para == [] ||
    var words := Split(para, SPACE);
    MarksStay(t, mark, Placed(t, BLANK, words[0], max), words[1..], max)
  }

  lemma ParagraphParts(t: Terminal, mark: Grapheme -> bool, calm: int -> bool, para: Line, max: nat)
    requires Sane(t) && Additive(t) && Attaches(t, mark, calm) && ParagraphKept(t, para, max)
    requires AllCalm(Split(para, SPACE), calm) && forall w :: w in Split(para, SPACE) ==> Narrow(t, w, max)
    ensures Held(InkParts(Parts(t, Paragraph(t, para, max))), InkParts(t.segment(para)),
                 ParagraphMarksStay(t, mark, para, max))
  {
    NoParts(t);
    if para == [] {
      assert Parts(t, [[]]) == t.segment([]) + Parts(t, []);
    } else {
      hide Additive, Attaches, Narrow, Placed, InkParts, Sane, Held, MarksStay, EndsIn;
      var words := Split(para, SPACE);
      var first, page := Placed(t, BLANK, words[0], max), PlacedAll(t, BLANK, words, max);
      assert words[0] in words && forall w :: w in words[1..] ==> w in words;
      FirstParts(t, words[0], max);
      PlacedCalm(t, BLANK, words[0], max, calm) by { assert EndsIn(BLANK.open, calm) by { EmptyCalm(calm); } }
      PlacedAllParts(t, mark, calm, first, words[1..], max);
      SpacesParts(t, mark, calm, words);
      SplitJoins(para, SPACE);
      FlushedParts(t, page);
    }
  }

  lemma EmptyCalm(calm: int -> bool)
    ensures EndsIn([], calm)
  {
  }

  lemma FirstParts(t: Terminal, word: Line, max: nat)
    requires Sane(t) && Additive(t) && Narrow(t, word, max)
    ensures PageParts(t, Placed(t, BLANK, word, max)) == t.segment(word)
  {
    hide Additive, Narrow, Placed;
    NoParts(t);
    NewLineParts(t, BLANK, word, max);
  }

  lemma FlushedParts(t: Terminal, page: Page)
    requires Sane(t)
    ensures Parts(t, Flushed(page)) == PageParts(t, page)
  {
    NoParts(t);
    PartsSnoc(t, page.lines, page.open);
  }

  ghost predicate TextCalm(paras: seq<Line>, calm: int -> bool) {
    forall para :: para in paras ==> AllCalm(Split(para, SPACE), calm)
  }

  predicate AllMarksStay(t: Terminal, mark: Grapheme -> bool, paras: seq<Line>, max: nat)
    requires Sane(t)
  {
    paras == [] || (ParagraphMarksStay(t, mark, paras[0], max) && AllMarksStay(t, mark, paras[1..], max))
  }

  lemma {:induction false} ParagraphsParts(
      t: Terminal, mark: Grapheme -> bool, calm: int -> bool, paras: seq<Line>, max: nat)
    requires Sane(t) && Additive(t) && Attaches(t, mark, calm) && AllKept(t, paras, max)
    requires TextCalm(paras, calm) && NarrowText(t, paras, max)
    ensures Held(InkParts(Parts(t, Paragraphs(t, paras, max))), InkParts(Parts(t, paras)),
                 AllMarksStay(t, mark, paras, max))
    decreases |paras|
  {
    if paras != [] {
      hide Sane, Additive, Attaches, Narrow, AllCalm, ParagraphKept, Paragraph, InkParts, ParagraphMarksStay, Held;
      assert paras[0] in paras && forall para :: para in paras[1..] ==> para in paras;
      AllKeptCons(t, paras, max);
      ParagraphParts(t, mark, calm, paras[0], max);
      ParagraphsParts(t, mark, calm, paras[1..], max);
      var first, rest := Paragraph(t, paras[0], max), Paragraphs(t, paras[1..], max);
      PartsConcat(t, first, rest);
      InkPartsConcat(Parts(t, first), Parts(t, rest));
      InkPartsConcat(t.segment(paras[0]), Parts(t, paras[1..]));
      HeldConcat(InkParts(Parts(t, first)), InkParts(t.segment(paras[0])), ParagraphMarksStay(t, mark, paras[0], max),
                 InkParts(Parts(t, rest)), InkParts(Parts(t, paras[1..])), AllMarksStay(t, mark, paras[1..], max));
    }
  }

  lemma {:induction false} PartsFlat(t: Terminal, lines: seq<Line>)
    requires Sane(t)
    ensures Flat(Parts(t, lines)) == Flat(lines)
  {
    if lines != [] {
      PartsFlat(t, lines[1..]);
      FlatConcat(t.segment(lines[0]), Parts(t, lines[1..]));
    }
  }

  lemma {:induction false} InkPartsInk(parts: seq<Grapheme>)
    ensures Ink(Flat(InkParts(parts))) == Ink(Flat(parts))
  {
    if parts != [] {
      var rest := InkParts(parts[1..]);
      InkPartsInk(parts[1..]);
      InkConcat(parts[0], Flat(parts[1..]));
      InkConcat(parts[0], Flat(rest));
      HeadFlat(parts[0], rest);
      assert parts[0] == [SPACE] || parts[0] == [LINE_FEED] ==> Ink(parts[0]) == Ink(parts[0][1..]) == [];
    }
  }

  // Main result on graphemes: when no grapheme is wider than the limit, everything but lone
  // spaces and newlines comes out, grapheme by grapheme and in order, if and only if no word
  // overwrites an open line and no mark is put on a new line away from the space that takes it.
  lemma WrappedKeepsGraphemesIff(t: Terminal, mark: Grapheme -> bool, calm: int -> bool, text: Line, max: nat)
    requires Sane(t) && Additive(t) && Attaches(t, mark, calm)
    requires TextCalm(Split(text, LINE_FEED), calm) && NarrowText(t, Split(text, LINE_FEED), max)
    ensures InkParts(Parts(t, Wrapped(t, text, max))) == InkParts(t.segment(text))
       <==> AllKept(t, Split(text, LINE_FEED), max) && AllMarksStay(t, mark, Split(text, LINE_FEED), max)
  {
    hide Additive, Attaches, Narrow, AllKept, AllMarksStay, InkParts, Paragraphs;
    var paras := Split(text, LINE_FEED);
    forall para | para in paras
      ensures EndsIn(para, calm)
    {
      SplitJoins(para, SPACE);
      JoinedCalm(Split(para, SPACE), SPACE, calm);
    }
    NewlinesParts(t, mark, calm, paras);
    SplitJoins(text, LINE_FEED);
    if AllKept(t, paras, max) {
      ParagraphsParts(t, mark, calm, paras, max);
    } else {
      WrappedKeepsInkIff(t, text, max);
      PartsFlat(t, Wrapped(t, text, max));
      InkPartsInk(Parts(t, Wrapped(t, text, max)));
      InkPartsInk(t.segment(text));
    }
  }

  // --- A mark cut from its space ----------------------------------------------------------------------------

  const ACUTE: int := 0x301

  // The end of the accents at i.
  function AccentsEnd(s: Line, i: nat): (e: nat)
    requires i <= |s|
    ensures i <= e <= |s| && (e == |s| || s[e] != ACUTE)
    ensures forall k :: i <= k < e ==> s[k] == ACUTE
    decreases |s| - i
  {
    if i < |s| && s[i] == ACUTE then AccentsEnd(s, i + 1) else i
  }

  // One unit with the accents after it; a newline takes none.
  function FirstCluster(s: Line): (e: nat)
    requires s != []
    ensures 1 <= e <= |s|
  {
    if s[0] == LINE_FEED then 1 else AccentsEnd(s, 1)
  }

  function Clusters(s: Line): seq<Grapheme>
    decreases |s|
  {
    if s == [] then [] else [s[..FirstCluster(s)]] + Clusters(s[FirstCluster(s)..])
  }

  // Accents have no width.
  function Bases(s: Line): nat {
    if s == [] then 0 else (if s[0] == ACUTE then 0 else 1) + Bases(s[1..])
  }

  function Accented(): Terminal {
    Terminal((s: Line) => Clusters(s), (s: Line) => Bases(s))
  }

  predicate IsAccent(g: Grapheme) {
    g != [] && g[0] == ACUTE
  }

  lemma {:induction false} BasesConcat(a: Line, b: Line)
    ensures Bases(a + b) == Bases(a) + Bases(b)
  {
    if a == [] {
      assert a + b == b;
    } else {
      assert (a + b)[1..] == a[1..] + b;
      BasesConcat(a[1..], b);
    }
  }

  lemma {:induction false} ClustersFlat(s: Line)
    ensures Flat(Clusters(s)) == s
    decreases |s|
  {
    if s != [] {
      var e := FirstCluster(s);
      ClustersFlat(s[e..]);
      HeadFlat(s[..e], Clusters(s[e..]));
    }
  }

  // A cluster ends where something else than an accent follows.
  lemma FirstClusterStays(a: Line, b: Line)
    requires a != [] && (b == [] || b[0] != ACUTE || a == [LINE_FEED] || FirstCluster(a) < |a|)
    ensures FirstCluster(a + b) == FirstCluster(a)
  {
    var all := a + b;
    assert all[0] == a[0];
    if a[0] != LINE_FEED {
      var e := AccentsEnd(a, 1);
      assert e < |all| ==> all[e] == if e < |a| then a[e] else b[0];
      AccentsEndIs(all, 1, e);
    }
  }

  lemma {:induction false} ClustersConcat(a: Line, b: Line)
    requires b == [] || b[0] != ACUTE
    ensures Clusters(a + b) == Clusters(a) + Clusters(b)
    decreases |a|
  {
    if a == [] {
      assert a + b == b;
    } else {
      var e := FirstCluster(a);
      FirstClusterStays(a, b);
      assert (a + b)[..e] == a[..e] && (a + b)[e..] == a[e..] + b;
      ClustersConcat(a[e..], b);
    }
  }

  lemma {:induction false} AccentsEndIs(s: Line, i: nat, e: nat)
    requires i <= e <= |s| && (e == |s| || s[e] != ACUTE) && forall k :: i <= k < e ==> s[k] == ACUTE
    ensures AccentsEnd(s, i) == e
    decreases e - i
  {
    if i < e {
      AccentsEndIs(s, i + 1, e);
    }
  }

  lemma NewlineCluster(b: Line)
    ensures Clusters([LINE_FEED] + b) == [[LINE_FEED]] + Clusters(b)
  {
    assert ([LINE_FEED] + b)[..1] == [LINE_FEED] && ([LINE_FEED] + b)[1..] == b;
  }

  lemma SpaceCluster(b: Line)
    ensures Clusters([SPACE] + b) == AfterSpace(IsAccent, Clusters(b))
  {
    var all, run := [SPACE] + b, AccentsEnd(b, 0);
    SpaceFirst(b, run);
    assert all[..run + 1] == [SPACE] + b[..run] && all[run + 1..] == b[run..];
    if run == 0 {
      assert b[..0] == [] && b[0..] == b;
    }
  }

  // A space takes the accents behind it.
  lemma SpaceFirst(b: Line, run: nat)
    requires run == AccentsEnd(b, 0)
    ensures FirstCluster([SPACE] + b) == run + 1
  {
    var all := [SPACE] + b;
    assert forall k :: 1 <= k < run + 1 ==> all[k] == b[k - 1];
    AccentsEndIs(all, 1, run + 1);
  }

  lemma AccentedAttaches()
    ensures Attaches(Accented(), IsAccent, u => true)
  {
    forall a, b
      ensures NewlineAlone(Accented(), a, b)
      ensures SpaceTakes(Accented(), IsAccent, a, b)
    {
      AccentedNewline(a, b);
      AccentedSpace(a, b);
    }
  }

  lemma AccentedNewline(a: Line, b: Line)
    ensures NewlineAlone(Accented(), a, b)
  {
    hide Clusters;
    NewlineCluster(b);
    ClustersConcat(a, [LINE_FEED] + b);
    Edits.AppendAssoc(a, [LINE_FEED], b);
    Edits.AppendAssoc(Clusters(a), [[LINE_FEED]], Clusters(b));
  }

  lemma AccentedSpace(a: Line, b: Line)
    ensures SpaceTakes(Accented(), IsAccent, a, b)
  {
    hide Clusters, AfterSpace;
    SpaceCluster(b);
    ClustersConcat(a, [SPACE] + b);
    Edits.AppendAssoc(a, [SPACE], b);
  }

  lemma {:induction false} AccentedPrefix(s: Line, k: nat)
    requires k <= |Clusters(s)|
    ensures Clusters(Flat(Clusters(s)[..k])) == Clusters(s)[..k]
    decreases k
  {
    hide Clusters, FirstCluster, Flat;
    if k == 0 {
      NoClusters();
      assert Clusters(s)[..0] == [];
    } else {
      SomeClusters(s);
      var e := FirstCluster(s);
      var parts, rest := Clusters(s), Clusters(s[e..]);
      var after := Flat(rest[..k - 1]);
      AccentedPrefix(s[e..], k - 1);
      assert parts[..k] == [s[..e]] + rest[..k - 1];
      HeadFlat(s[..e], rest[..k - 1]);
      FlatPrefix(rest, k - 1);
      ClustersFlat(s[e..]);
      FirstClusterAlone(s);
      FirstClusterStays(s[..e], after);
      SomeClusters(s[..e] + after);
      assert (s[..e] + after)[..e] == s[..e] && (s[..e] + after)[e..] == after;
    }
  }

  lemma NoClusters()
    ensures Flat([]) == [] && Clusters([]) == []
  {
  }

  lemma SomeClusters(s: Line)
    ensures Clusters(s) == if s == [] then [] else [s[..FirstCluster(s)]] + Clusters(s[FirstCluster(s)..])
  {
  }

  lemma FlatPrefix(parts: seq<Grapheme>, k: nat)
    requires k <= |parts|
    ensures Flat(parts[..k]) <= Flat(parts)
  {
    assert parts == parts[..k] + parts[k..];
    FlatConcat(parts[..k], parts[k..]);
  }

  lemma FirstClusterAlone(s: Line)
    requires s != []
    ensures var e := FirstCluster(s);
            && FirstCluster(s[..e]) == e
            && (e < |s| ==> s[e] != ACUTE || s[..e] == [LINE_FEED])
  {
    var e := FirstCluster(s);
    if s[0] == LINE_FEED {
      assert s[..1] == [LINE_FEED];
    } else {
      assert s[..e][0] == s[0];
      AccentsEndIs(s[..e], 1, e);
    }
  }

  lemma {:induction false} AccentedSuffix(s: Line, k: nat)
    requires k <= |Clusters(s)|
    ensures Clusters(Flat(Clusters(s)[k..])) == Clusters(s)[k..]
    decreases k
  {
    if k == 0 {
      ClustersFlat(s);
    } else {
      var rest := s[FirstCluster(s)..];
      AccentedSuffix(rest, k - 1);
      assert Clusters(s)[k..] == Clusters(rest)[k - 1..];
    }
  }

  lemma {:induction false} AccentedColumns(parts: seq<Grapheme>, k: nat)
    requires k <= |parts|
    ensures Bases(Flat(parts[..k])) == Columns(parts, PartWidth(Accented()), k)
    decreases k
  {
    if k > 0 {
      AccentedColumns(parts, k - 1);
      assert parts[..k] == parts[..k - 1] + [parts[k - 1]];
      FlatSnoc(parts[..k - 1], parts[k - 1]);
      BasesConcat(Flat(parts[..k - 1]), parts[k - 1]);
      assert Bases([LINE_FEED]) == 1 + Bases([]);
    }
  }

  lemma AccentedIsSane()
    ensures Sane(Accented()) && Additive(Accented())
  {
    var t := Accented();
    forall s
      ensures Flat(t.segment(s)) == s
    {
      ClustersFlat(s);
    }
    forall s, k | 0 <= k <= |t.segment(s)|
      ensures Recuts(t, s, k)
    {
      AccentedPrefix(s, k);
      AccentedSuffix(s, k);
      AccentedColumns(t.segment(s), k);
    }
    forall a, b
      ensures t.width(a + [SPACE] + b) <= t.width(a) + 1 + t.width(b)
    {
      BasesConcat(a + [SPACE], b);
      BasesConcat(a, [SPACE]);
      assert Bases([SPACE]) == 1 + Bases([]);
    }
  }

  // An input where it happens, at a limit no grapheme exceeds: an accent after a space is cut
  // from it where the line is broken.
  lemma MarkAfterSpaceIsCut()
    ensures var t, text, paras := Accented(), [65, SPACE, ACUTE], [[65, SPACE, ACUTE]];
            && Sane(t) && Additive(t) && Attaches(t, IsAccent, u => true)
            && Split(text, LINE_FEED) == paras && NarrowText(t, paras, 1) && AllKept(t, paras, 1)
            && t.segment(text) == [[65], [SPACE, ACUTE]]
            && Wrapped(t, text, 1) == [[65], [ACUTE]] && !AllMarksStay(t, IsAccent, paras, 1)
  {
    AccentedIsSane();
    AccentedAttaches();
    hide Sane, Flat, Additive, Attaches, PlacedAll;
    var t := Accented();
    var text: Line := [65, SPACE, ACUTE];
    SplitAbsent(text, LINE_FEED);
    TwoWords(65, ACUTE);
    AccentedWords();
    var first := Placed(t, BLANK, [65], 1);
    assert first == Page([], [65], 1);
    assert Placed(t, first, [ACUTE], 1) == Page([[65]], [ACUTE], 0);
    PlacedTwo(t, [65], [ACUTE], 1);
    assert Paragraphs(t, [text][1..], 1) == [];
    assert Split(text, SPACE)[1..] == [[ACUTE]];
    forall w | w in Split(text, SPACE)
      ensures Narrow(t, w, 1)
    {
    }
    assert NeverOverwrites(t, first, [[ACUTE]], 1);
  }

  lemma AccentedWords()
    ensures Clusters([65, SPACE, ACUTE]) == [[65], [SPACE, ACUTE]]
    ensures Clusters([65]) == [[65]] && Clusters([ACUTE]) == [[ACUTE]]
    ensures Bases([65]) == 1 && Bases([ACUTE]) == 0
  {
    assert [65][1..] == [] && [ACUTE][1..] == [];
    assert [65][..1] == [65] && [ACUTE][..1] == [ACUTE];
    var one: Line := [SPACE, ACUTE];
    assert [SPACE] + [ACUTE] == one && [65] + one == [65, SPACE, ACUTE];
    SpaceCluster([ACUTE]);
    ClustersConcat([65], one);
  }

  // --- Not breaking what fits ------------------------------------------------------------------------------

  function SumWidths(t: Terminal, words: seq<Line>): nat {
    if words == [] then 0 else 1 + t.width(words[0]) + SumWidths(t, words[1..])
  }

  function Rejoined(words: seq<Line>): Line {
    if words == [] then [] else [SPACE] + words[0] + Rejoined(words[1..])
  }

  lemma {:induction false} SplitRejoins(s: Line)
    ensures Rejoined(Split(s, SPACE)) == [SPACE] + s
  {
    if s == [] {
      assert Rejoined([[]]) == [SPACE] + [] + Rejoined([[]][1..]);
    } else {
      SplitRejoins(s[1..]);
      var r := Split(s[1..], SPACE);
      assert Rejoined(r) == [SPACE] + r[0] + Rejoined(r[1..]);
      assert s == [s[0]] + s[1..];
      if s[0] == SPACE {
        assert ([[]] + r)[1..] == r;
      } else {
        var r' := [[s[0]] + r[0]] + r[1..];
        assert r'[1..] == r[1..];
        assert Rejoined(r') == [SPACE] + ([s[0]] + r[0]) + Rejoined(r[1..]);
        assert s[1..] == ([SPACE] + s[1..])[1..] == ([SPACE] + r[0] + Rejoined(r[1..]))[1..] == r[0] + Rejoined(r[1..]);
      }
    }
  }

  lemma {:induction false} PlacedAllJoins(t: Terminal, page: Page, words: seq<Line>, max: nat)
    requires Sane(t) && page.used > 0 && page.used + SumWidths(t, words) <= max
    ensures PlacedAll(t, page, words, max)
         == page.(open := page.open + Rejoined(words), used := page.used + SumWidths(t, words))
    decreases |words|
  {
    if words == [] {
      assert page.open + [] == page.open;
    } else {
      hide Sane, Placed, Broken;
      PlacedJoins(t, page, words[0], max);
      PlacedAllJoins(t, Placed(t, page, words[0], max), words[1..], max);
      JoinAssoc(page.open, words[0], Rejoined(words[1..]));
    }
  }

  lemma PlacedJoins(t: Terminal, page: Page, word: Line, max: nat)
    requires Sane(t) && page.used > 0 && page.used + 1 + t.width(word) <= max
    ensures Placed(t, page, word, max)
         == page.(open := page.open + [SPACE] + word, used := page.used + 1 + t.width(word))
  {
    hide Sane, Broken;
  }

  lemma JoinAssoc(a: Line, b: Line, c: Line)
    ensures a + [SPACE] + b + c == a + ([SPACE] + b + c)
  {
  }

  // A paragraph whose words and the spaces between them fit comes back as one line, unless
  // it starts with a space.
  lemma FittingParagraphUnbroken(t: Terminal, para: Line, max: nat)
    requires Sane(t) && Visible(t) && para != [] && para[0] != SPACE
    requires SumWidths(t, Split(para, SPACE)) <= max + 1
    ensures Paragraph(t, para, max) == [para]
  {
    var words := Split(para, SPACE);
    FirstWord(para);
    var page := Placed(t, BLANK, words[0], max);
    assert page == Page([], words[0], t.width(words[0]));
    PlacedAllJoins(t, page, words[1..], max);
  }

  lemma FirstWord(para: Line)
    requires para != [] && para[0] != SPACE
    ensures var words := Split(para, SPACE);
            words[0] != [] && words[0] + Rejoined(words[1..]) == para
  {
    SplitRejoins(para);
    var words := Split(para, SPACE);
    assert [SPACE] + para == [SPACE] + (words[0] + Rejoined(words[1..]));
    assert ([SPACE] + para)[1..] == para;
  }
}
