// display-width.ts, offsets: UTF-16 code-unit offsets to display columns, by a linear scan
// and by binary search over checkpoints, never splitting a grapheme.
module Display {
  // A grapheme is its code units; the segmenter that finds them is foreign.
  type Grapheme = g: seq<int> | g != [] witness [0]

  const NEWLINE: Grapheme := [10]

  datatype Mode = Start | End

  // Code units and display columns of the first k graphemes.
  function Units(parts: seq<Grapheme>, k: nat): nat
    requires k <= |parts|
  {
    if k == 0 then 0 else Units(parts, k - 1) + |parts[k - 1]|
  }

  function Columns(parts: seq<Grapheme>, width: Grapheme -> nat, k: nat): nat
    requires k <= |parts|
  {
    if k == 0 then 0 else Columns(parts, width, k - 1) + width(parts[k - 1])
  }

  lemma {:induction false} UnitsRise(parts: seq<Grapheme>, j: nat, k: nat)
    requires j <= k <= |parts|
    ensures Units(parts, j) + (k - j) <= Units(parts, k)
    decreases k
  {
    if j < k {
      UnitsRise(parts, j, k - 1);
    }
  }

  lemma {:induction false} ColumnsRise(parts: seq<Grapheme>, width: Grapheme -> nat, j: nat, k: nat)
    requires j <= k <= |parts|
    ensures Columns(parts, width, j) <= Columns(parts, width, k)
    decreases k
  {
    if j < k {
      ColumnsRise(parts, width, j, k - 1);
    }
  }

  // The last grapheme boundary at or before the offset.
  function BoundaryBefore(parts: seq<Grapheme>, offset: int, k: nat): (r: nat)
    requires k <= |parts|
    ensures r <= k && (r == 0 || Units(parts, r) <= offset)
    ensures r < k ==> offset < Units(parts, r + 1)
    decreases k
  {
    if k == 0 || Units(parts, k) <= offset then k else BoundaryBefore(parts, offset, k - 1)
  }

  // The grapheme boundary an offset stands for: itself on a boundary; inside a grapheme the
  // grapheme's start or end, by mode; out of range, the nearest end of the text.
  function Edge(parts: seq<Grapheme>, offset: int, mode: Mode): (k: nat)
    ensures k <= |parts|
  {
    var k := BoundaryBefore(parts, offset, |parts|);
    if mode.End? && offset > Units(parts, k) && k < |parts| then k + 1 else k
  }

  function DisplayOffset(parts: seq<Grapheme>, width: Grapheme -> nat, offset: int, mode: Mode): nat {
    Columns(parts, width, Edge(parts, offset, mode))
  }

  // codeUnitToDisplayOffset.
  method CodeUnitToDisplayOffset(parts: seq<Grapheme>, width: Grapheme -> nat, offset: int, mode: Mode)
      returns (d: nat)
    ensures d == DisplayOffset(parts, width, offset, mode)
  {
    if offset <= 0 {
      BoundaryIs(parts, offset, 0);
      return 0;
    }
    var consumed := 0;
    d := 0;
    for k := 0 to |parts|
      invariant consumed == Units(parts, k) < offset && d == Columns(parts, width, k)
    {
      var next := consumed + |parts[k]|;
      assert next == Units(parts, k + 1);
      if offset < next {
        BoundaryIs(parts, offset, k);
        return d + if mode.End? then width(parts[k]) else 0;
      }
      d := d + width(parts[k]);
      consumed := next;
      if offset == consumed {
        if k + 1 < |parts| { UnitsRise(parts, k + 1, k + 2); }
        BoundaryIs(parts, offset, k + 1);
        return d;
      }
    }
    BoundaryIs(parts, offset, |parts|);
  }

  lemma BoundaryIs(parts: seq<Grapheme>, offset: int, k: nat)
    requires k <= |parts| && (k == 0 || Units(parts, k) <= offset)
    requires k < |parts| ==> offset < Units(parts, k + 1)
    ensures BoundaryBefore(parts, offset, |parts|) == k
  {
    var r := BoundaryBefore(parts, offset, |parts|);
    if r < k {
      UnitsRise(parts, r + 1, k);
    } else if k < r {
      UnitsRise(parts, k + 1, r);
    }
  }

  // --- The lookup ------------------------------------------------------------------------------

  // The lookup counts a newline as one column itself.
  function Aware(width: Grapheme -> nat): Grapheme -> nat {
    (g: Grapheme) => if g == NEWLINE then 1 else width(g)
  }

  // One pass, one checkpoint after every grapheme.
  method Checkpoints(parts: seq<Grapheme>, width: Grapheme -> nat) returns (cus: seq<nat>, displays: seq<nat>)
    ensures |cus| == |displays| == |parts| + 1
    ensures forall k {:trigger cus[k]} :: 0 <= k <= |parts| ==> cus[k] == Units(parts, k)
    ensures forall k {:trigger displays[k]} :: 0 <= k <= |parts| ==> displays[k] == Columns(parts, width, k)
  {
    cus, displays := [0], [0];
    var consumed, display := 0, 0;
    for k := 0 to |parts|
      invariant |cus| == |displays| == k + 1
      invariant consumed == Units(parts, k) && display == Columns(parts, width, k)
      invariant forall m {:trigger cus[m]} :: 0 <= m <= k ==> cus[m] == Units(parts, m)
      invariant forall m {:trigger displays[m]} :: 0 <= m <= k ==> displays[m] == Columns(parts, width, m)
    {
      consumed := consumed + |parts[k]|;
      display := display + width(parts[k]);
      cus := cus + [consumed];
      displays := displays + [display];
    }
  }

  class DisplayOffsetLookup {
    const parts: seq<Grapheme>
    const width: Grapheme -> nat
    const cuBoundaries: seq<nat>
    const displayBoundaries: seq<nat>

    predicate Valid() {
      && |cuBoundaries| == |displayBoundaries| == |parts| + 1
      && (forall k :: 0 <= k <= |parts| ==> cuBoundaries[k] == Units(parts, k))
      && (forall k :: 0 <= k <= |parts| ==> displayBoundaries[k] == Columns(parts, Aware(width), k))
    }

    // buildDisplayOffsetLookup.
    constructor (graphemes: seq<Grapheme>, displayWidthOf: Grapheme -> nat)
      ensures Valid() && parts == graphemes && width == displayWidthOf
    {
      var cus, displays := Checkpoints(graphemes, Aware(displayWidthOf));
      parts, width := graphemes, displayWidthOf;
      cuBoundaries, displayBoundaries := cus, displays;
    }

    method OffsetAt(codeUnit: int, mode: Mode) returns (d: nat)
      requires Valid()
      ensures d == DisplayOffset(parts, Aware(width), codeUnit, mode)
    {
      var n := |parts|;
      if codeUnit <= 0 {
        BoundaryIs(parts, codeUnit, 0);
        return 0;
      }
      if codeUnit >= cuBoundaries[n] {
        BoundaryIs(parts, codeUnit, n);
        return displayBoundaries[n];
      }
      var lo, hi := 0, |cuBoundaries| - 1;
      while lo < hi
        invariant 0 <= lo <= hi <= n
        invariant lo == 0 || Units(parts, lo - 1) < codeUnit
        invariant Units(parts, hi) >= codeUnit
      {
        var mid := (lo + hi) / 2;
        if cuBoundaries[mid] < codeUnit {
          lo := mid + 1;
        } else {
          hi := mid;
        }
      }
      if cuBoundaries[lo] == codeUnit {
        if lo < n { UnitsRise(parts, lo, lo + 1); }
        BoundaryIs(parts, codeUnit, lo);
        return displayBoundaries[lo];
      }
      BoundaryIs(parts, codeUnit, lo - 1);
      if mode.End? {
        return displayBoundaries[lo];
      }
      return displayBoundaries[lo - 1];
    }
  }

  // --- Agreement ---------------------------------------------------------------------------------

  ghost predicate Agree(parts: seq<Grapheme>, width: Grapheme -> nat) {
    forall offset, mode ::
      DisplayOffset(parts, Aware(width), offset, mode) == DisplayOffset(parts, width, offset, mode)
  }

  // The search agrees with the scan for every offset and mode exactly when the width
  // function is newline-aware or the text has no newline.
  lemma LookupAgreesIff(parts: seq<Grapheme>, width: Grapheme -> nat)
    ensures Agree(parts, width) <==> (NEWLINE in parts ==> width(NEWLINE) == 1)
  {
    if NEWLINE in parts && width(NEWLINE) != 1 {
      var k :| 0 <= k < |parts| && parts[k] == NEWLINE;
      var before, after := Units(parts, k), Units(parts, k + 1);
      UnitsRise(parts, k, k + 1);
      BoundaryIs(parts, before, k);
      if k + 1 < |parts| { UnitsRise(parts, k + 1, k + 2); }
      BoundaryIs(parts, after, k + 1);
      assert DisplayOffset(parts, width, after, Start) == DisplayOffset(parts, width, before, Start) + width(NEWLINE);
      assert DisplayOffset(parts, Aware(width), after, Start)
          == DisplayOffset(parts, Aware(width), before, Start) + 1;
    } else {
      forall k | 0 <= k <= |parts|
        ensures Columns(parts, Aware(width), k) == Columns(parts, width, k)
      {
        ColumnsAgree(parts, width, k);
      }
    }
  }

  lemma {:induction false} ColumnsAgree(parts: seq<Grapheme>, width: Grapheme -> nat, k: nat)
    requires k <= |parts| && (NEWLINE in parts ==> width(NEWLINE) == 1)
    ensures Columns(parts, Aware(width), k) == Columns(parts, width, k)
    decreases k
  {
    if k > 0 {
      ColumnsAgree(parts, width, k - 1);
      assert parts[k - 1] in parts;
    }
  }

  // Edges rise with the offset, and start-mode is never past end-mode.
  lemma EdgesRise(parts: seq<Grapheme>, p: int, q: int, mode: Mode)
    requires p <= q
    ensures Edge(parts, p, mode) <= Edge(parts, q, mode)
    ensures Edge(parts, p, Start) <= Edge(parts, q, End)
  {
    var n := |parts|;
    var j, k := BoundaryBefore(parts, p, n), BoundaryBefore(parts, q, n);
    if k < j {
      UnitsRise(parts, k + 1, j);
      assert false;
    }
  }

  lemma OffsetsMonotone(parts: seq<Grapheme>, width: Grapheme -> nat, p: int, q: int, mode: Mode)
    requires p <= q
    ensures DisplayOffset(parts, width, p, mode) <= DisplayOffset(parts, width, q, mode)
    ensures DisplayOffset(parts, width, p, Start) <= DisplayOffset(parts, width, q, End)
  {
    EdgesRise(parts, p, q, mode);
    ColumnsRise(parts, width, Edge(parts, p, mode), Edge(parts, q, mode));
    ColumnsRise(parts, width, Edge(parts, p, Start), Edge(parts, q, End));
  }

  // The display span of an in-range code-unit span is the least run of whole graphemes
  // that contains it: it never splits one and never takes in one it does not touch.
  lemma SpanIsLeastCover(parts: seq<Grapheme>, start: nat, end: nat, j: nat, k: nat)
    requires start <= end <= Units(parts, |parts|)
    requires j <= |parts| && k <= |parts|
    ensures Units(parts, Edge(parts, start, Start)) <= start
    ensures end <= Units(parts, Edge(parts, end, End))
    ensures Units(parts, j) <= start ==> j <= Edge(parts, start, Start)
    ensures end <= Units(parts, k) ==> Edge(parts, end, End) <= k
  {
    var n := |parts|;
    var s, e := BoundaryBefore(parts, start, n), BoundaryBefore(parts, end, n);
    if s < j {
      UnitsRise(parts, s + 1, j);
    }
    if k < e {
      UnitsRise(parts, k, e);
    }
  }

  // Offsets out of range stand for the ends of the text.
  lemma EdgeClamps(parts: seq<Grapheme>, offset: int, mode: Mode)
    ensures offset <= 0 ==> Edge(parts, offset, mode) == 0
    ensures offset >= Units(parts, |parts|) ==> Edge(parts, offset, mode) == |parts|
  {
    if offset <= 0 {
      if |parts| > 0 {
        UnitsRise(parts, 0, 1);
      }
      BoundaryIs(parts, offset, 0);
    }
    if offset >= Units(parts, |parts|) {
      BoundaryIs(parts, offset, |parts|);
    }
  }

  // --- Batch conversion ------------------------------------------------------------------------------

  datatype UnitSpan = UnitSpan(start: int, end: int)

  // displaySpanFromCodeUnits.
  function DisplaySpan(parts: seq<Grapheme>, width: Grapheme -> nat, span: UnitSpan): UnitSpan {
    UnitSpan(DisplayOffset(parts, width, span.start, Start), DisplayOffset(parts, width, span.end, End))
  }

  // displaySpansForItems: one lookup for all spans equals converting them one by one.
  method DisplaySpansForItems(parts: seq<Grapheme>, spans: seq<UnitSpan>, width: Grapheme -> nat)
      returns (out: seq<UnitSpan>)
    ensures |out| == |spans|
    ensures (NEWLINE in parts ==> width(NEWLINE) == 1) ==>
              forall i :: 0 <= i < |spans| ==> out[i] == DisplaySpan(parts, width, spans[i])
    ensures forall i :: 0 <= i < |spans| ==> out[i] == DisplaySpan(parts, Aware(width), spans[i])
  {
    if |spans| == 0 {
      return [];
    }
    LookupAgreesIff(parts, width);
    var lookup := new DisplayOffsetLookup(parts, width);
    out := [];
    for i := 0 to |spans|
      invariant |out| == i
      invariant forall k :: 0 <= k < i ==> out[k] == DisplaySpan(parts, Aware(width), spans[k])
    {
      var start := lookup.OffsetAt(spans[i].start, Start);
      var end := lookup.OffsetAt(spans[i].end, End);
      out := out + [UnitSpan(start, end)];
    }
  }
}
