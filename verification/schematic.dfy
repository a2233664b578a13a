/** The gondola engine schematic: a grid of cells, each linked to its eight
    neighbours, from which the part numbers are read.

    The Go code allocates one `Cell` per number and per symbol and compares
    cells by pointer. Here the cells live in an arena (`Arena`) and are
    named by their index in it, so "the same cell" is index equality. A raw
    schematic is a grid of optional cell indexes; the adjacency arrays the
    Go code fills in place are the arena's `adjacent` slots. */
module Gondola {
  import opened Wrappers
  import opened Text
  import Sorting

  type CellId = nat

  /** The value at a cell: a number, a rune, or neither (the zero Value). */
  datatype Value = Value(n: Option<int>, r: Option<char>) {

    /** Value.Number: the numeric value and true, or 0 and false. */
    function Number(): (res: (int, bool))
      ensures res.1 <==> n.Some?
      ensures res.1 ==> n == Some(res.0)
      ensures !res.1 ==> res.0 == 0
    {
      if n.Some? then (n.value, true) else (0, false)
    }

    /** Value.Rune: the rune and true, or 0 and false. */
    function Rune(): (res: (char, bool))
      ensures res.1 <==> r.Some?
      ensures res.1 ==> r == Some(res.0)
      ensures !res.1 ==> res.0 == 0 as char
    {
      if r.Some? then (r.value, true) else (0 as char, false)
    }

    /** Value.String: the number in decimal, else the rune, else ".". */
    function String(): (s: string)
      ensures n.Some? ==> Atoi(s) == Some(n.value)
      ensures n.None? && r.Some? ==> s == [r.value]
      ensures n.None? && r.None? ==> s == "."
    {
      var (num, isNum) := Number();
      var (rune, isRune) := Rune();
      if isNum then AtoiOfItoa(num); Itoa(num)
      else if isRune then [rune]
      else "."
    }
  }

  function NumberValue(n: int): Value { Value(Some(n), None) }

  function RuneValue(r: char): Value { Value(None, Some(r)) }

  // -----------------------------------------------------------------------
  // Directions and points.

  /** Index into an 8-slot adjacency array, clockwise from the north-west. */
  type Direction = d: nat | d < 8

  const NW: Direction := 0
  const N: Direction := 1
  const NE: Direction := 2
  const E: Direction := 3
  const SE: Direction := 4
  const S: Direction := 5
  const SW: Direction := 6
  const W: Direction := 7

  /** Direction.Reverse. */
  function Reverse(d: Direction): Direction
  {
    if d == NW then SE
    else if d == N then S
    else if d == NE then SW
    else if d == E then W
    else if d == SE then NW
    else if d == S then N
    else if d == SW then NE
    else E
  }

  /** Reverse pairs the eight directions off: it is an involution with no
      fixed point. */
  lemma ReverseInvolution(d: Direction)
    ensures Reverse(Reverse(d)) == d && Reverse(d) != d
  {
  }

  datatype Point = Point(x: int, y: int)

  function Abs(z: int): nat { if z < 0 then -z else z }

  /** Chessboard distance between two points. */
  function Chebyshev(p: Point, q: Point): nat
  {
    var dx, dy := Abs(p.x - q.x), Abs(p.y - q.y);
    if dx < dy then dy else dx
  }

  /** point.Adjacent: the eight points around p, clockwise from the
      north-west. */
  function Adjacent(p: Point): (a: seq<Point>)
    ensures |a| == 8
    ensures forall d :: 0 <= d < 8 ==> Chebyshev(a[d], p) == 1
    ensures forall q :: Chebyshev(q, p) == 1 ==> q in a
    ensures forall d, d' :: 0 <= d < d' < 8 ==> a[d] != a[d']
  {
    [Point(p.x - 1, p.y - 1), Point(p.x, p.y - 1), Point(p.x + 1, p.y - 1), Point(p.x + 1, p.y),
     Point(p.x + 1, p.y + 1), Point(p.x, p.y + 1), Point(p.x - 1, p.y + 1), Point(p.x - 1, p.y)]
  }

  /** The neighbours of the origin, in the order the unit test fixes. */
  lemma AdjacentOfOrigin()
    ensures Adjacent(Point(0, 0)) ==
      [Point(-1, -1), Point(0, -1), Point(1, -1), Point(1, 0),
       Point(1, 1), Point(0, 1), Point(-1, 1), Point(-1, 0)]
  {
  }

  /** The point one step from p in direction d. */
  function Step(p: Point, d: Direction): Point
  {
    var dx := if d == NW || d == SW || d == W then -1 else if d == N || d == S then 0 else 1;
    var dy := if d == NW || d == N || d == NE then -1 else if d == E || d == W then 0 else 1;
    Point(p.x + dx, p.y + dy)
  }

  /** Adjacent lists the eight steps from p, in direction order. */
  lemma AdjacentSteps(p: Point)
    ensures forall d: Direction :: Adjacent(p)[d] == Step(p, d)
  {
  }

  /** Stepping in direction d and then in Reverse(d) returns to p. */
  lemma AdjacentReverse(p: Point, d: Direction)
    ensures Adjacent(Adjacent(p)[d])[Reverse(d)] == p
    ensures Step(Step(p, d), Reverse(d)) == p
  {
  }

  /** point.ValidWithin: p lies in [0, e.x) x [0, e.y). */
  predicate ValidWithin(p: Point, e: Point)
  {
    p.x >= 0 && p.y >= 0 && p.x < e.x && p.y < e.y
  }

  // -----------------------------------------------------------------------
  // Raw schematics.

  /** One row of a raw schematic: a cell, or nil for '.'. */
  type Row = seq<Option<CellId>>

  /** rawSchematic: rows of cells. */
  type Grid = seq<Row>

  predicate Rectangular(rs: Grid)
  {
    forall y :: 0 <= y < |rs| ==> |rs[y]| == |rs[0]|
  }

  predicate InGrid(rs: Grid, p: Point)
  {
    0 <= p.y < |rs| && 0 <= p.x < |rs[p.y]|
  }

  function At(rs: Grid, p: Point): Option<CellId>
    requires InGrid(rs, p)
  {
    rs[p.y][p.x]
  }

  /** On a rectangular grid, ValidWithin the extents (first row's width,
      number of rows) is exactly "p indexes a cell of the grid". */
  lemma ValidWithinGrid(rs: Grid, p: Point)
    requires Rectangular(rs) && |rs| > 0
    ensures ValidWithin(p, Point(|rs[0]|, |rs|)) <==> InGrid(rs, p)
  {
  }

  ghost predicate CellsIn(rs: Grid, n: nat)
  {
    forall p :: InGrid(rs, p) && At(rs, p).Some? ==> At(rs, p).value < n
  }

  predicate IsRune(values: seq<Value>, c: CellId) { c < |values| && values[c].r.Some? }

  predicate IsNumber(values: seq<Value>, c: CellId) { c < |values| && values[c].n.Some? }

  /** There is a rune cell at p. */
  predicate RuneAt(rs: Grid, values: seq<Value>, p: Point)
  {
    InGrid(rs, p) && At(rs, p).Some? && IsRune(values, At(rs, p).value)
  }

  /** Every rune cell occupies one position only. */
  ghost predicate RunesUnique(rs: Grid, values: seq<Value>)
  {
    forall p, q :: RuneAt(rs, values, p) && InGrid(rs, q) && At(rs, q) == At(rs, p) ==> p == q
  }

  /** What slot d of the cell at p holds once linked: the cell at the
      d-neighbour of p, or nil when that position is empty or lies outside
      the extents of the grid. */
  function Neighbour(rs: Grid, p: Point, d: Direction): Option<CellId>
  {
    var q := Step(p, d);
    if |rs| > 0 && |rs[0]| > 0 && ValidWithin(q, Point(|rs[0]|, |rs|)) && InGrid(rs, q) then At(rs, q)
    else None
  }

  /** No number of the line is written with a leading zero, unless it is
      the single digit "0". */
  predicate NoLeadingZeros(l: string)
  {
    forall i {:trigger RunText(l, i)} :: 0 <= i < |l| && IsDigit(l[i]) ==>
      (RunText(l, i)[0] == '0' ==> |RunText(l, i)| == 1)
  }

  /** Every byte of the line is ASCII, so each symbol is a one-byte rune
      that string([]rune{r}) writes back as the same byte. */
  predicate Ascii(l: string)
  {
    forall i :: 0 <= i < |l| ==> l[i] < 128 as char
  }

  /** charRe = `[^\d.]`: a symbol is any character but a digit or '.'. */
  predicate IsSymbol(c: char) { !IsDigit(c) && c != '.' }

  /** The cells lineToCells makes for l: one shared number cell per maximal
      digit run, holding the run's value, one rune cell per symbol, nil for
      '.', and no cell at two positions except the columns of one run. */
  ghost predicate RowOf(l: string, row: Row, values: seq<Value>)
  {
    && |row| == |l|
    && (forall i {:trigger row[i]} :: 0 <= i < |l| ==> (row[i].None? <==> l[i] == '.'))
    && (forall i {:trigger row[i]} :: 0 <= i < |l| && row[i].Some? ==> row[i].value < |values|)
    && (forall i {:trigger row[i]} :: 0 <= i < |l| && IsDigit(l[i]) ==>
          values[row[i].value] == NumberValue(DecimalValue(RunText(l, i))))
    && (forall i {:trigger row[i]} :: 0 <= i < |l| && IsSymbol(l[i]) ==> values[row[i].value] == RuneValue(l[i]))
    && (forall i, j {:trigger row[i], row[j]} :: 0 <= i < |l| && 0 <= j < |l| && row[i].Some? && row[i] == row[j] ==>
          i == j || (IsDigit(l[i]) && IsDigit(l[j]) && RunStart(l, i) == RunStart(l, j)))
    && (forall i, j {:trigger row[i], row[j]} ::
          (0 <= i < |l| && 0 <= j < |l| && IsDigit(l[i]) && IsDigit(l[j]) && RunStart(l, i) == RunStart(l, j))
          ==> row[i] == row[j])
  }

  /** The raw schematic rawFromDocument makes of a document of lines: each
      row is the line's cells, and no cell is shared between rows. */
  ghost predicate GridOf(doc: seq<string>, rs: Grid, values: seq<Value>)
  {
    && |rs| == |doc|
    && (forall k :: 0 <= k < |doc| ==> RowOf(doc[k], rs[k], values))
    && (forall p, q :: InGrid(rs, p) && InGrid(rs, q) && p.y != q.y && At(rs, p).Some? ==> At(rs, p) != At(rs, q))
  }

  /** A grid of the first k lines grows by the row of line k, whose cells
      are all new. */
  lemma GridOfSnoc(doc: seq<string>, k: nat, rs: Grid, row: Row, before: seq<Value>, values: seq<Value>, base: nat)
    requires k < |doc| && GridOf(doc[..k], rs, before)
    requires base <= |before| <= |values| && values[..|before|] == before
    requires forall p :: InGrid(rs, p) && At(rs, p).Some? ==> base <= At(rs, p).value < |before|
    requires RowOf(doc[k], row, values)
    requires forall i :: 0 <= i < |row| && row[i].Some? ==> |before| <= row[i].value
    ensures GridOf(doc[..k + 1], rs + [row], values)
    ensures forall p :: InGrid(rs + [row], p) && At(rs + [row], p).Some? ==> base <= At(rs + [row], p).value < |values|
  {
    var rs' := rs + [row];
    forall k' | 0 <= k' < k ensures RowOf(doc[k'], rs[k'], values) {
      assert doc[..k][k'] == doc[k'];
      RowOfExtends(doc[k'], rs[k'], before, values);
    }
    assert doc[..k + 1] == doc[..k] + [doc[k]];
    forall p | InGrid(rs', p) && At(rs', p).Some? ensures base <= At(rs', p).value < |values| {
      if p.y == k {
        assert RowOf(doc[k], row, values);
      } else {
        assert InGrid(rs, p) && At(rs, p) == At(rs', p);
      }
    }
    forall p, q | InGrid(rs', p) && InGrid(rs', q) && p.y != q.y && At(rs', p).Some?
      ensures At(rs', p) != At(rs', q)
    {
      if p.y < k && q.y < k {
        assert InGrid(rs, p) && InGrid(rs, q) && At(rs, p) == At(rs', p) && At(rs, q) == At(rs', q);
      } else if p.y < k {
        assert InGrid(rs, p) && At(rs, p) == At(rs', p);
        assert At(rs', q) == row[q.x];
      } else {
        assert InGrid(rs, q) && At(rs, q) == At(rs', q);
        assert At(rs', p) == row[p.x];
      }
    }
  }

  lemma RowOfExtends(l: string, row: Row, values: seq<Value>, values': seq<Value>)
    requires RowOf(l, row, values)
    requires |values| <= |values'| && values'[..|values|] == values
    ensures RowOf(l, row, values')
  {
    forall c | 0 <= c < |values| ensures values'[c] == values[c] {
      assert values'[..|values|][c] == values[c];
    }
  }

  /** In a parsed document, each rune cell sits at a single position, and
      no cell holds both a number and a rune. */
  lemma GridOfRunesUnique(doc: seq<string>, rs: Grid, values: seq<Value>)
    requires GridOf(doc, rs, values)
    ensures RunesUnique(rs, values)
    ensures CellsIn(rs, |values|)
    ensures forall p :: InGrid(rs, p) && At(rs, p).Some? ==>
              !(values[At(rs, p).value].n.Some? && values[At(rs, p).value].r.Some?)
  {
    forall p, q | RuneAt(rs, values, p) && InGrid(rs, q) && At(rs, q) == At(rs, p)
      ensures p == q
    {
      if p.y == q.y {
        assert RowOf(doc[p.y], rs[p.y], values);
        assert !IsDigit(doc[p.y][p.x]);
      }
    }
    forall p | InGrid(rs, p) && At(rs, p).Some?
      ensures At(rs, p).value < |values|
      ensures !(values[At(rs, p).value].n.Some? && values[At(rs, p).value].r.Some?)
    {
      assert RowOf(doc[p.y], rs[p.y], values);
    }
  }

  // -----------------------------------------------------------------------
  // Rendering (rawSchematic.String, Cell.String).

  predicate RowIn(row: Row, n: nat)
  {
    forall i :: 0 <= i < |row| && row[i].Some? ==> row[i].value < n
  }

  /** Cell.String: "." for nil, otherwise the value's string. */
  function CellString(c: Option<CellId>, values: seq<Value>): string
    requires c.Some? ==> c.value < |values|
  {
    if c.None? then "." else values[c.value].String()
  }

  /** The text of row[i..] after `last` was written: a cell equal to the
      one written last is skipped, so a number is written once. */
  function RenderFrom(row: Row, values: seq<Value>, i: nat, last: Option<CellId>): string
    requires i <= |row| && RowIn(row, |values|)
    decreases |row| - i
  {
    if i == |row| then ""
    else if last.Some? && last == row[i] then RenderFrom(row, values, i + 1, last)
    else CellString(row[i], values) + RenderFrom(row, values, i + 1, row[i])
  }

  predicate GridIn(rs: Grid, n: nat)
  {
    forall k :: 0 <= k < |rs| ==> RowIn(rs[k], n)
  }

  /** The rendered text of each row, in order. */
  function RenderedRows(rs: Grid, values: seq<Value>): (r: seq<string>)
    requires GridIn(rs, |values|)
    ensures |r| == |rs|
    decreases |rs|
  {
    if rs == [] then []
    else
      var n := |rs| - 1;
      assert RowIn(rs[n], |values|);
      RenderedRows(rs[..n], values) + [RenderFrom(rs[n], values, 0, None)]
  }

  lemma RenderedRowsSnoc(rs: Grid, values: seq<Value>, i: nat)
    requires i < |rs| && GridIn(rs, |values|)
    ensures GridIn(rs[..i], |values|) && GridIn(rs[..i + 1], |values|) && RowIn(rs[i], |values|)
    ensures RenderedRows(rs[..i + 1], values) == RenderedRows(rs[..i], values) + [RenderFrom(rs[i], values, 0, None)]
  {
    assert rs[..i + 1][..i] == rs[..i];
  }

  /** Rows that each render to the matching line render to the lines. */
  lemma {:induction false} RenderedRowsAre(rs: Grid, values: seq<Value>, doc: seq<string>)
    requires GridIn(rs, |values|) && |doc| == |rs|
    requires forall k :: 0 <= k < |rs| ==> RenderFrom(rs[k], values, 0, None) == doc[k]
    ensures RenderedRows(rs, values) == doc
    decreases |rs|
  {
    if rs != [] {
      var n := |rs| - 1;
      assert GridIn(rs[..n], |values|) by {
        forall k | 0 <= k < n ensures RowIn(rs[..n][k], |values|) {
          assert rs[..n][k] == rs[k];
        }
      }
      RenderedRowsAre(rs[..n], values, doc[..n]);
      var last := RenderFrom(rs[n], values, 0, None);
      assert RenderedRows(rs, values) == doc[..n] + [last];
      assert doc[..n] + [last] == doc;
    }
  }

  /** One step of RenderFrom: column x is skipped or written. */
  lemma RenderCellStep(row: Row, values: seq<Value>, x: nat, last: Option<CellId>, text: string)
    requires x < |row| && RowIn(row, |values|)
    ensures row[x].Some? ==> row[x].value < |values|
    ensures last.Some? && last == row[x] ==>
      RenderFrom(row, values, x, last) == RenderFrom(row, values, x + 1, last)
    ensures !(last.Some? && last == row[x]) ==>
      text + RenderFrom(row, values, x, last) ==
      (text + CellString(row[x], values)) + RenderFrom(row, values, x + 1, row[x])
  {
    if !(last.Some? && last == row[x]) {
      var t, r := CellString(row[x], values), RenderFrom(row, values, x + 1, row[x]);
      assert RenderFrom(row, values, x, last) == t + r;
      assert text + (t + r) == (text + t) + r;
    }
  }

  /** A stretch of columns holding the cell just written is skipped. */
  lemma {:induction false} RenderSkipsRun(row: Row, values: seq<Value>, c: Option<CellId>, j: nat, e: nat)
    requires j <= e <= |row| && RowIn(row, |values|) && c.Some?
    requires forall k :: j <= k < e ==> row[k] == c
    ensures RenderFrom(row, values, j, c) == RenderFrom(row, values, e, c)
    decreases e - j
  {
    if j < e {
      RenderSkipsRun(row, values, c, j + 1, e);
    }
  }

  /** The cell written just before column i of a row (nil at column 0). */
  function LastBefore(row: Row, i: nat): Option<CellId>
    requires i <= |row|
  {
    if i == 0 then None else row[i - 1]
  }

  lemma RowOfIds(l: string, row: Row, values: seq<Value>)
    requires RowOf(l, row, values)
    ensures RowIn(row, |values|)
  {
  }

  lemma NumberString(n: nat)
    ensures NumberValue(n).String() == NatToString(n)
  {
  }

  /** The columns of a run share the cell at its first column. */
  lemma RunCells(l: string, row: Row, values: seq<Value>, i: nat)
    requires RowOf(l, row, values)
    requires i < |l| && IsDigit(l[i]) && (i == 0 || !IsDigit(l[i - 1]))
    ensures forall k :: i <= k < RunEnd(l, i) ==> row[k] == row[i]
  {
    assert RunStart(l, i) == i;
    forall k | i <= k < RunEnd(l, i) ensures row[k] == row[i] {
      RunStartInside(l, i, k);
    }
  }

  /** The cell at the first column of a run prints as the run's text, and
      differs from the cell before it. */
  lemma RunHead(l: string, row: Row, values: seq<Value>, i: nat)
    requires RowOf(l, row, values) && NoLeadingZeros(l)
    requires i < |l| && IsDigit(l[i]) && (i == 0 || !IsDigit(l[i - 1]))
    ensures RowIn(row, |values|) && row[i].Some?
    ensures LastBefore(row, i) != row[i]
    ensures CellString(row[i], values) == l[i..RunEnd(l, i)]
  {
    assert RunStart(l, i) == i;
    var t := RunText(l, i);
    var c := row[i].value;
    assert values[c] == NumberValue(DecimalValue(t));
    NatToStringOfDecimalValue(t);
    NumberString(DecimalValue(t));
  }

  /** At the first digit of a run, the number is written once, as the
      run's own text, and the rest of the run is skipped. */
  lemma RenderNumberStep(l: string, row: Row, values: seq<Value>, i: nat)
    requires RowOf(l, row, values) && NoLeadingZeros(l)
    requires i < |l| && IsDigit(l[i]) && (i == 0 || !IsDigit(l[i - 1]))
    ensures RowIn(row, |values|)
    ensures RenderFrom(row, values, i, LastBefore(row, i)) ==
              l[i..RunEnd(l, i)] + RenderFrom(row, values, RunEnd(l, i), LastBefore(row, RunEnd(l, i)))
  {
    var e := RunEnd(l, i);
    RunHead(l, row, values, i);
    RunCells(l, row, values, i);
    var c := row[i];
    assert RenderFrom(row, values, i, LastBefore(row, i)) == CellString(c, values) + RenderFrom(row, values, i + 1, c);
    RenderSkipsRun(row, values, c, i + 1, e);
    assert LastBefore(row, e) == c by {
      assert row[e - 1] == c;
    }
  }

  /** At a '.' or a symbol, the character itself is written. */
  lemma RenderCharStep(l: string, row: Row, values: seq<Value>, i: nat)
    requires RowOf(l, row, values)
    requires i < |l| && !IsDigit(l[i])
    ensures RowIn(row, |values|)
    ensures RenderFrom(row, values, i, LastBefore(row, i)) == [l[i]] + RenderFrom(row, values, i + 1, LastBefore(row, i + 1))
  {
    if l[i] != '.' {
      assert LastBefore(row, i) != row[i];
    }
  }

  /** Where rendering resumes after the character or number at i. */
  function NextBoundary(l: string, i: nat): (j: nat)
    requires i < |l|
    ensures i < j <= |l| && Boundary(l, j)
  {
    if IsDigit(l[i]) then RunEnd(l, i) else i + 1
  }

  lemma RenderStep(l: string, row: Row, values: seq<Value>, i: nat)
    requires RowOf(l, row, values) && NoLeadingZeros(l)
    requires i < |l| && Boundary(l, i)
    ensures RowIn(row, |values|)
    ensures RenderFrom(row, values, i, LastBefore(row, i)) ==
              l[i..NextBoundary(l, i)] + RenderFrom(row, values, NextBoundary(l, i), LastBefore(row, NextBoundary(l, i)))
  {
    if IsDigit(l[i]) {
      RenderNumberStep(l, row, values, i);
    } else {
      RenderCharStep(l, row, values, i);
      assert l[i..i + 1] == [l[i]];
    }
  }

  lemma {:induction false} RenderRowFrom(l: string, row: Row, values: seq<Value>, i: nat)
    requires RowOf(l, row, values) && NoLeadingZeros(l)
    requires i <= |l| && Boundary(l, i)
    ensures RowIn(row, |values|)
    ensures RenderFrom(row, values, i, LastBefore(row, i)) == l[i..]
    decreases |l| - i
  {
    RowOfIds(l, row, values);
    if i < |l| {
      var j := NextBoundary(l, i);
      RenderStep(l, row, values, i);
      RenderRowFrom(l, row, values, j);
      SliceSplit(l, i, j);
    }
  }

  /** Rendering the cells of a line writes the line back, provided no
      number has a leading zero (the number is written from its value)
      and the line is ASCII (a multi-byte rune would be re-encoded). */
  lemma RowRoundTrip(l: string, row: Row, values: seq<Value>)
    requires RowOf(l, row, values) && NoLeadingZeros(l) && Ascii(l)
    ensures RowIn(row, |values|)
    ensures RenderFrom(row, values, 0, None) == l
  {
    RenderRowFrom(l, row, values, 0);
  }

  /** rawFromDocument(doc).String() == doc: the round trip of a whole
      document of ASCII lines without leading-zero numbers. */
  lemma RoundTrip(doc: seq<string>, rs: Grid, values: seq<Value>)
    requires GridOf(doc, rs, values)
    requires forall k :: 0 <= k < |doc| ==> NoLeadingZeros(doc[k]) && Ascii(doc[k])
    ensures GridIn(rs, |values|)
    ensures Join(RenderedRows(rs, values), '\n') == Join(doc, '\n')
  {
    forall k | 0 <= k < |rs| ensures RowIn(rs[k], |values|) && RenderFrom(rs[k], values, 0, None) == doc[k] {
      RowRoundTrip(doc[k], rs[k], values);
    }
    RenderedRowsAre(rs, values, doc);
  }

  // -----------------------------------------------------------------------
  // Compacting: the rune cells in row-major order, and the links.

  /** The rune cells of a row, left to right. */
  function RowRunes(row: Row, values: seq<Value>): seq<CellId>
  {
    if row == [] then []
    else
      var c := row[|row| - 1];
      RowRunes(row[..|row| - 1], values) + (if c.Some? && IsRune(values, c.value) then [c.value] else [])
  }

  /** The rune cells of a grid in row-major order. */
  function GridRunes(rs: Grid, values: seq<Value>): seq<CellId>
  {
    if rs == [] then [] else GridRunes(rs[..|rs| - 1], values) + RowRunes(rs[|rs| - 1], values)
  }

  lemma {:induction false} RowRunesMembers(row: Row, values: seq<Value>)
    ensures forall c :: c in RowRunes(row, values) <==>
              IsRune(values, c) && exists x :: 0 <= x < |row| && row[x] == Some(c)
  {
    if row != [] {
      var row' := row[..|row| - 1];
      RowRunesMembers(row', values);
      forall c ensures c in RowRunes(row, values) <==> IsRune(values, c) && exists x :: 0 <= x < |row| && row[x] == Some(c) {
        if IsRune(values, c) && exists x :: 0 <= x < |row| && row[x] == Some(c) {
          var x :| 0 <= x < |row| && row[x] == Some(c);
          if x < |row| - 1 {
            assert row'[x] == Some(c);
          }
        }
      }
    }
  }

  /** Compact lists exactly the rune cells: a cell is listed iff it is a
      rune cell somewhere in the grid; numbers are never listed. */
  lemma {:induction false} GridRunesMembers(rs: Grid, values: seq<Value>)
    ensures forall c :: c in GridRunes(rs, values) <==>
              exists p :: RuneAt(rs, values, p) && At(rs, p) == Some(c)
  {
    if rs != [] {
      var rs' := rs[..|rs| - 1];
      var y := |rs| - 1;
      GridRunesMembers(rs', values);
      RowRunesMembers(rs[y], values);
      forall c ensures c in GridRunes(rs, values) <==> exists p :: RuneAt(rs, values, p) && At(rs, p) == Some(c) {
        if c in GridRunes(rs', values) {
          var p :| RuneAt(rs', values, p) && At(rs', p) == Some(c);
          assert RuneAt(rs, values, p) && At(rs, p) == Some(c);
        } else if c in RowRunes(rs[y], values) {
          var x :| 0 <= x < |rs[y]| && rs[y][x] == Some(c);
          assert RuneAt(rs, values, Point(x, y)) && At(rs, Point(x, y)) == Some(c);
        }
        if exists p :: RuneAt(rs, values, p) && At(rs, p) == Some(c) {
          var p :| RuneAt(rs, values, p) && At(rs, p) == Some(c);
          if p.y < y {
            assert RuneAt(rs', values, p) && At(rs', p) == Some(c);
          } else {
            assert rs[y][p.x] == Some(c);
          }
        }
      }
    }
  }

  lemma {:induction false} RowRunesOfEmpty(row: Row, values: seq<Value>)
    requires forall x :: 0 <= x < |row| ==> row[x].None?
    ensures RowRunes(row, values) == []
  {
    if row != [] {
      RowRunesOfEmpty(row[..|row| - 1], values);
    }
  }

  /** An empty or all-nil grid compacts to an empty schematic. */
  lemma {:induction false} GridRunesOfEmpty(rs: Grid, values: seq<Value>)
    requires forall p :: InGrid(rs, p) ==> At(rs, p).None?
    ensures GridRunes(rs, values) == []
  {
    if rs != [] {
      var y := |rs| - 1;
      forall p | InGrid(rs[..y], p) ensures At(rs[..y], p).None? {
        assert InGrid(rs, p);
      }
      GridRunesOfEmpty(rs[..y], values);
      forall x | 0 <= x < |rs[y]| ensures rs[y][x].None? {
        assert InGrid(rs, Point(x, y));
      }
      RowRunesOfEmpty(rs[y], values);
    }
  }

  /** No links yet. */
  const NoLinks: seq<Option<CellId>> := [None, None, None, None, None, None, None, None]

  ghost predicate ArenaValid(values: seq<Value>, adjacent: seq<seq<Option<CellId>>>)
  {
    && |adjacent| == |values|
    && forall c :: 0 <= c < |adjacent| ==>
         (|adjacent[c]| == 8 && forall d :: 0 <= d < 8 && adjacent[c][d].Some? ==> adjacent[c][d].value < |values|)
  }

  /** Every slot of the cell at p is nil or holds its neighbour. */
  ghost predicate SlotsSound(rs: Grid, adjacent: seq<seq<Option<CellId>>>, p: Point)
  {
    && InGrid(rs, p) && At(rs, p).Some? && At(rs, p).value < |adjacent| && |adjacent[At(rs, p).value]| == 8
    && forall d: Direction :: adjacent[At(rs, p).value][d] == None || adjacent[At(rs, p).value][d] == Neighbour(rs, p, d)
  }

  /** Every slot of the cell at p holds its neighbour (nil if none). */
  ghost predicate SlotsSettled(rs: Grid, adjacent: seq<seq<Option<CellId>>>, p: Point)
  {
    && InGrid(rs, p) && At(rs, p).Some? && At(rs, p).value < |adjacent| && |adjacent[At(rs, p).value]| == 8
    && forall d: Direction :: adjacent[At(rs, p).value][d] == Neighbour(rs, p, d)
  }

  /** The state Compact leaves behind for the rune cells. */
  ghost predicate Linked(rs: Grid, values: seq<Value>, adjacent: seq<seq<Option<CellId>>>)
  {
    forall p :: RuneAt(rs, values, p) ==> SlotsSettled(rs, adjacent, p)
  }

  /** Writing v into slot e of cell c keeps every rune cell's slots sound
      and settled, provided v is what that slot should hold. */
  lemma WriteKeepsSlots(rs: Grid, values: seq<Value>, adjacent: seq<seq<Option<CellId>>>,
                        c: CellId, e: Direction, v: CellId)
    requires c < |adjacent| && |adjacent[c]| == 8
    requires forall p :: RuneAt(rs, values, p) && At(rs, p) == Some(c) ==> Neighbour(rs, p, e) == Some(v)
    ensures forall p :: RuneAt(rs, values, p) && SlotsSound(rs, adjacent, p) ==>
              SlotsSound(rs, adjacent[c := adjacent[c][e := Some(v)]], p)
    ensures forall p :: RuneAt(rs, values, p) && SlotsSettled(rs, adjacent, p) ==>
              SlotsSettled(rs, adjacent[c := adjacent[c][e := Some(v)]], p)
    ensures forall p, d: Direction ::
              (RuneAt(rs, values, p) && At(rs, p).value < |adjacent| &&
               |adjacent[At(rs, p).value]| == 8 && adjacent[At(rs, p).value][d] == Neighbour(rs, p, d)) ==>
              adjacent[c := adjacent[c][e := Some(v)]][At(rs, p).value][d] == Neighbour(rs, p, d)
  {
  }

  /** Seen from a rune cell, links are mutual: if rune cell A holds rune
      cell B in slot d, then B holds A in slot Reverse(d). */
  lemma RuneLinksMutual(rs: Grid, values: seq<Value>, adjacent: seq<seq<Option<CellId>>>, p: Point, q: Point, d: Direction)
    requires Rectangular(rs) && RunesUnique(rs, values) && Linked(rs, values, adjacent)
    requires RuneAt(rs, values, p) && RuneAt(rs, values, q)
    requires adjacent[At(rs, p).value][d] == At(rs, q)
    ensures adjacent[At(rs, q).value][Reverse(d)] == At(rs, p)
  {
    assert SlotsSettled(rs, adjacent, p);
    var a := Step(p, d);
    assert Neighbour(rs, p, d) == At(rs, q);
    assert InGrid(rs, a) && At(rs, a) == At(rs, q);
    assert a == q;
    AdjacentReverse(p, d);
    assert SlotsSettled(rs, adjacent, q);
    assert Neighbour(rs, q, Reverse(d)) == At(rs, p);
  }

  // -----------------------------------------------------------------------
  // Part numbers.

  /** Schematic: the rune cells of a compacted grid. */
  datatype Schematic = Schematic(characters: seq<CellId>)

  /** The numeric cells held in the slots of cell c. */
  ghost function NumberNeighbours(values: seq<Value>, adjacent: seq<seq<Option<CellId>>>, c: CellId): set<CellId>
  {
    set a | 0 <= a < |values| && IsNumber(values, a) && c < |adjacent| && Some(a) in adjacent[c]
  }

  /** The numeric cells held in the slots of any of the cells chars. */
  ghost function PartCells(chars: seq<CellId>, values: seq<Value>, adjacent: seq<seq<Option<CellId>>>): set<CellId>
  {
    if chars == [] then {}
    else PartCells(chars[..|chars| - 1], values, adjacent) + NumberNeighbours(values, adjacent, chars[|chars| - 1])
  }

  /** The cells of a set that hold the number v. */
  ghost function WithValue(cells: set<CellId>, values: seq<Value>, v: int): set<CellId>
  {
    set a | a in cells && a < |values| && values[a].n == Some(v)
  }

  lemma {:induction false} PartCellsMembers(chars: seq<CellId>, values: seq<Value>, adjacent: seq<seq<Option<CellId>>>)
    ensures forall a :: a in PartCells(chars, values, adjacent) <==>
              exists k :: 0 <= k < |chars| && a in NumberNeighbours(values, adjacent, chars[k])
  {
    if chars != [] {
      var chars' := chars[..|chars| - 1];
      PartCellsMembers(chars', values, adjacent);
      forall a ensures a in PartCells(chars, values, adjacent) <==>
                exists k :: 0 <= k < |chars| && a in NumberNeighbours(values, adjacent, chars[k])
      {
        if a in PartCells(chars', values, adjacent) {
          var k :| 0 <= k < |chars'| && a in NumberNeighbours(values, adjacent, chars'[k]);
          assert chars[k] == chars'[k];
        }
        if exists k :: 0 <= k < |chars| && a in NumberNeighbours(values, adjacent, chars[k]) {
          var k :| 0 <= k < |chars| && a in NumberNeighbours(values, adjacent, chars[k]);
          if k < |chars'| {
            assert chars'[k] == chars[k];
          }
        }
      }
    }
  }

  /** A numeric cell next to a rune cell of the grid. */
  ghost predicate NextToSymbol(rs: Grid, values: seq<Value>, a: CellId)
  {
    IsNumber(values, a) && exists p, d: Direction :: RuneAt(rs, values, p) && Neighbour(rs, p, d) == Some(a)
  }

  /** After Compact, the cells PartNumbers reports are exactly the numeric
      cells next to at least one symbol of the grid. */
  lemma PartCellsAreNextToSymbols(rs: Grid, values: seq<Value>, adjacent: seq<seq<Option<CellId>>>)
    requires ArenaValid(values, adjacent) && Linked(rs, values, adjacent)
    ensures forall a :: a in PartCells(GridRunes(rs, values), values, adjacent) <==> NextToSymbol(rs, values, a)
  {
    var chars := GridRunes(rs, values);
    PartCellsMembers(chars, values, adjacent);
    GridRunesMembers(rs, values);
    forall a ensures a in PartCells(chars, values, adjacent) <==> NextToSymbol(rs, values, a) {
      if a in PartCells(chars, values, adjacent) {
        var k :| 0 <= k < |chars| && a in NumberNeighbours(values, adjacent, chars[k]);
        assert chars[k] in chars;
        var p :| RuneAt(rs, values, p) && At(rs, p) == Some(chars[k]);
        assert SlotsSettled(rs, adjacent, p);
        var d :| 0 <= d < 8 && adjacent[chars[k]][d] == Some(a);
        assert Neighbour(rs, p, d) == Some(a);
      }
      if NextToSymbol(rs, values, a) {
        var p, d: Direction :| RuneAt(rs, values, p) && Neighbour(rs, p, d) == Some(a);
        var c := At(rs, p).value;
        assert c in chars;
        var k :| 0 <= k < |chars| && chars[k] == c;
        assert SlotsSettled(rs, adjacent, p);
        assert adjacent[c][d] == Some(a);
        assert a in NumberNeighbours(values, adjacent, c);
      }
    }
  }

  // -----------------------------------------------------------------------
  // The arena of cells: lineToCells, rawFromDocument, linkAdjacent,
  // Compact, rawSchematic.String, Cell.ValidAjacent and PartNumbers.

  class Arena {
    /** The value of every cell allocated so far. */
    var values: seq<Value>
    /** The 8-slot adjacency array of every cell allocated so far. */
    var adjacent: seq<seq<Option<CellId>>>

    ghost predicate Valid()
      reads this
    {
      ArenaValid(values, adjacent)
    }

    constructor ()
      ensures Valid() && values == [] && adjacent == []
    {
      values := [];
      adjacent := [];
    }

    /** A new cell holding v, with all eight slots nil. */
    method NewCell(v: Value) returns (c: CellId)
      requires Valid()
      modifies this
      ensures Valid()
      ensures c == old(|values|) && values == old(values) + [v] && adjacent == old(adjacent) + [NoLinks]
    {
      c := |values|;
      values := values + [v];
      adjacent := adjacent + [NoLinks];
    }

    /** lineToCells: one new number cell per maximal digit run, stored at
        every column of the run, then one new rune cell per symbol. */
    method LineToCells(l: string) returns (row: Row)
      requires Valid()
      modifies this
      ensures Valid()
      ensures |values| >= old(|values|) && values[..old(|values|)] == old(values)
      ensures forall c :: old(|values|) <= c < |values| ==> adjacent[c] == NoLinks
      ensures adjacent[..old(|values|)] == old(adjacent)
      ensures RowOf(l, row, values)
      ensures forall i :: 0 <= i < |row| && row[i].Some? ==> old(|values|) <= row[i].value
    {
      var base := |values|;
      var runs := DigitRuns(l);
      var numbered := PlaceNumbers(l);
      ghost var mid := values;
      row := PlaceSymbols(l, numbered);
      assert values[..base] == old(values) by {
        assert values[..base] == values[..|mid|][..base];
      }
      NumberValuesExtend(l, runs, mid, values, base);
      LineCellsDone(l, runs, row, numbered, values, base);
    }

    /** The first pass of lineToCells: a new number cell for each maximal
        digit run of l, in order, stored at every column of the run. */
    method PlaceNumbers(l: string) returns (row: Row)
      requires Valid()
      modifies this
      ensures Valid()
      ensures |values| == old(|values|) + |DigitRuns(l)| && values[..old(|values|)] == old(values)
      ensures adjacent[..old(|values|)] == old(adjacent)
      ensures forall c :: old(|values|) <= c < |values| ==> adjacent[c] == NoLinks
      ensures NumbersPlaced(l, DigitRuns(l), row, old(|values|), |DigitRuns(l)|)
      ensures NumberValues(l, DigitRuns(l), values, old(|values|), |DigitRuns(l)|)
    {
      var base := |values|;
      var runs := DigitRuns(l);
      DigitRunsFacts(l);
      row := seq(|l|, _ => None);
      for k := 0 to |runs|
        invariant Valid()
        invariant |values| == base + k && values[..base] == old(values)
        invariant adjacent[..base] == old(adjacent)
        invariant forall c :: base <= c < |values| ==> adjacent[c] == NoLinks
        invariant NumbersPlaced(l, runs, row, base, k)
        invariant NumberValues(l, runs, values, base, k)
      {
        row := AddNumber(l, runs, k, base, row, old(values), old(adjacent));
      }
    }

    /** One iteration of the first loop of lineToCells: a new cell for the
        k-th digit run, stored at each of its columns. */
    method AddNumber(l: string, runs: seq<Run>, k: nat, base: nat, row: Row,
                     ghost values0: seq<Value>, ghost adjacent0: seq<seq<Option<CellId>>>) returns (row': Row)
      requires Valid() && k < |runs| && |values| == base + k
      requires values[..base] == values0 && adjacent[..base] == adjacent0
      requires forall c :: base <= c < |values| ==> adjacent[c] == NoLinks
      requires NumbersPlaced(l, runs, row, base, k) && NumberValues(l, runs, values, base, k)
      modifies this
      ensures Valid()
      ensures |values| == base + k + 1 && values[..base] == values0 && adjacent[..base] == adjacent0
      ensures forall c :: base <= c < |values| ==> adjacent[c] == NoLinks
      ensures NumbersPlaced(l, runs, row', base, k + 1) && NumberValues(l, runs, values, base, k + 1)
    {
      var r := runs[k];
      assert IsRun(l, r);
      ghost var valuesBefore := values;
      var c := NewCell(NumberValue(DecimalValue(RunText(l, r.start))));
      row' := FillRun(row, r.start, r.end, Some(c));
      PlaceRun(l, runs, row, row', base, k);
      NumberValuesStep(l, runs, valuesBefore, values, base, k);
      assert values[..base] == valuesBefore[..base];
      assert adjacent[..base] == old(adjacent)[..base];
    }

    /** The second pass of lineToCells: a new rune cell for each symbol of
        l, stored at its column; other columns keep their cells. */
    method PlaceSymbols(l: string, numbered: Row) returns (row: Row)
      requires Valid() && |numbered| == |l|
      requires forall i :: 0 <= i < |l| && numbered[i].Some? ==> numbered[i].value < |values|
      modifies this
      ensures Valid()
      ensures |values| >= old(|values|) && values[..old(|values|)] == old(values)
      ensures adjacent[..old(|values|)] == old(adjacent)
      ensures forall c :: old(|values|) <= c < |values| ==> adjacent[c] == NoLinks
      ensures SymbolsPlaced(l, row, numbered, values, old(|values|))
    {
      row := numbered;
      for i := 0 to |l|
        invariant Valid()
        invariant |values| >= old(|values|) && values[..old(|values|)] == old(values)
        invariant adjacent[..old(|values|)] == old(adjacent)
        invariant forall c :: old(|values|) <= c < |values| ==> adjacent[c] == NoLinks
        invariant |row| == |l|
        invariant forall i' {:trigger row[i']} :: 0 <= i' < |l| && !(i' < i && IsSymbol(l[i'])) ==> row[i'] == numbered[i']
        invariant forall i' {:trigger row[i']} :: 0 <= i' < i && IsSymbol(l[i']) ==>
                    row[i'].Some? && old(|values|) <= row[i'].value < |values| && values[row[i'].value] == RuneValue(l[i'])
        invariant forall i', i'' {:trigger row[i'], row[i'']} ::
                    0 <= i' < i'' < i && IsSymbol(l[i']) && IsSymbol(l[i'']) ==> row[i'] != row[i'']
      {
        if IsSymbol(l[i]) {
          var c := NewCell(RuneValue(l[i]));
          row := row[i := Some(c)];
        }
      }
    }

    /** rawFromDocument over a document given as its lines. */
    method RawFromDocument(doc: seq<string>) returns (rs: Grid)
      requires Valid()
      modifies this
      ensures Valid()
      ensures |values| >= old(|values|) && values[..old(|values|)] == old(values)
      ensures adjacent[..old(|values|)] == old(adjacent)
      ensures GridOf(doc, rs, values)
      ensures forall p :: InGrid(rs, p) && At(rs, p).Some? ==>
                old(|values|) <= At(rs, p).value < |values| && adjacent[At(rs, p).value] == NoLinks
    {
      var base := |values|;
      rs := [];
      for k := 0 to |doc|
        invariant Valid()
        invariant |values| >= base && values[..base] == old(values)
        invariant adjacent[..base] == old(adjacent)
        invariant forall c :: base <= c < |values| ==> adjacent[c] == NoLinks
        invariant GridOf(doc[..k], rs, values)
        invariant forall p :: InGrid(rs, p) && At(rs, p).Some? ==> base <= At(rs, p).value < |values|
      {
        ghost var before := values;
        var row := LineToCells(doc[k]);
        GridOfSnoc(doc, k, rs, row, before, values, base);
        rs := rs + [row];
        assert values[..base] == old(values) by {
          assert values[..base] == values[..|before|][..base];
        }
        assert adjacent[..base] == old(adjacent) by {
          assert adjacent[..base] == adjacent[..|before|][..base];
        }
      }
      assert doc[..|doc|] == doc;
    }

    /** rawSchematic.linkAdjacent: for each neighbour position of loc
        inside the extents that holds a cell, store that cell in the
        forward slot of `cell` and `cell` in the reverse slot of it. */
    method LinkAdjacent(rs: Grid, loc: Point, cell: CellId)
      requires Valid() && Rectangular(rs) && CellsIn(rs, |values|) && RunesUnique(rs, values)
      requires InGrid(rs, loc) && At(rs, loc) == Some(cell)
      modifies this
      ensures Valid() && values == old(values)
      ensures forall p :: RuneAt(rs, values, p) && SlotsSound(rs, old(adjacent), p) ==> SlotsSound(rs, adjacent, p)
      ensures forall p :: RuneAt(rs, values, p) && SlotsSettled(rs, old(adjacent), p) ==> SlotsSettled(rs, adjacent, p)
      ensures RuneAt(rs, values, loc) && SlotsSound(rs, old(adjacent), loc) ==> SlotsSettled(rs, adjacent, loc)
    {
      var h := |rs|;
      if h == 0 {
        return;
      }
      var w := |rs[0]|;
      if w == 0 {
        return;
      }
      var around := Adjacent(loc);
      AdjacentSteps(loc);
      for i := 0 to 8
        invariant Valid() && values == old(values)
        invariant forall p :: RuneAt(rs, values, p) && SlotsSound(rs, old(adjacent), p) ==> SlotsSound(rs, adjacent, p)
        invariant forall p :: RuneAt(rs, values, p) && SlotsSettled(rs, old(adjacent), p) ==> SlotsSettled(rs, adjacent, p)
        invariant RuneAt(rs, values, loc) ==>
                    forall e: Direction :: e < i && Neighbour(rs, loc, e).Some? ==> adjacent[cell][e] == Neighbour(rs, loc, e)
      {
        var d: Direction := i;
        var adj := around[d];
        if ValidWithin(adj, Point(w, h)) {
          var ac := rs[adj.y][adj.x];
          if ac.None? {
            continue;
          }
          assert Neighbour(rs, loc, d) == ac;
          LinkPair(rs, loc, cell, d, ac.value);
        }
      }
    }

    /** The two stores of one step of linkAdjacent: the neighbour in
        direction d of the cell at loc goes into its slot d, and that cell
        into the neighbour's reverse slot. */
    method LinkPair(rs: Grid, loc: Point, cell: CellId, d: Direction, other: CellId)
      requires Valid() && Rectangular(rs) && CellsIn(rs, |values|) && RunesUnique(rs, values)
      requires InGrid(rs, loc) && At(rs, loc) == Some(cell) && Neighbour(rs, loc, d) == Some(other)
      modifies this
      ensures Valid() && values == old(values)
      ensures adjacent[cell][d] == Some(other)
      ensures forall p :: RuneAt(rs, values, p) && SlotsSound(rs, old(adjacent), p) ==> SlotsSound(rs, adjacent, p)
      ensures forall p :: RuneAt(rs, values, p) && SlotsSettled(rs, old(adjacent), p) ==> SlotsSettled(rs, adjacent, p)
      ensures RuneAt(rs, values, loc) ==> forall e: Direction :: e != d ==> adjacent[cell][e] == old(adjacent)[cell][e]
    {
      var adj := Step(loc, d);
      WriteKeepsSlots(rs, values, adjacent, cell, d, other);
      adjacent := adjacent[cell := adjacent[cell][d := Some(other)]];
      AdjacentReverse(loc, d);
      assert Neighbour(rs, adj, Reverse(d)) == Some(cell);
      WriteKeepsSlots(rs, values, adjacent, other, Reverse(d), cell);
      adjacent := adjacent[other := adjacent[other][Reverse(d) := Some(cell)]];
    }

    /** rawSchematic.Compact: visits the grid in row-major order, lists the
        rune cells and links every cell to its neighbours. Afterwards every
        rune cell's slot d holds the cell at its d-neighbour (nil if that
        position is empty or off the grid). Numeric cells get links too, but
        a multi-column number links to itself and its slots are overwritten
        column by column, so nothing is promised about them. */
    method Compact(rs: Grid) returns (s: Schematic)
      requires Valid() && Rectangular(rs) && CellsIn(rs, |values|) && RunesUnique(rs, values)
      requires forall p :: RuneAt(rs, values, p) ==> adjacent[At(rs, p).value] == NoLinks
      modifies this
      ensures Valid() && values == old(values)
      ensures s.characters == GridRunes(rs, values)
      ensures Linked(rs, values, adjacent)
    {
      var chars: seq<CellId> := [];
      for y := 0 to |rs|
        invariant Valid() && values == old(values)
        invariant chars == GridRunes(rs[..y], values)
        invariant forall p :: RuneAt(rs, values, p) ==> SlotsSound(rs, adjacent, p)
        invariant forall p :: RuneAt(rs, values, p) && p.y < y ==> SlotsSettled(rs, adjacent, p)
      {
        chars := CompactRow(rs, y, chars);
        assert rs[..y + 1][..y] == rs[..y];
      }
      assert rs[..|rs|] == rs;
      s := Schematic(chars);
    }

    /** One row of the loop of rawSchematic.Compact: each rune cell of row
        y is appended to the listing, and every cell is linked. */
    method CompactRow(rs: Grid, y: nat, chars0: seq<CellId>) returns (chars: seq<CellId>)
      requires Valid() && Rectangular(rs) && CellsIn(rs, |values|) && RunesUnique(rs, values)
      requires y < |rs| && chars0 == GridRunes(rs[..y], values)
      requires forall p :: RuneAt(rs, values, p) ==> SlotsSound(rs, adjacent, p)
      requires forall p :: RuneAt(rs, values, p) && p.y < y ==> SlotsSettled(rs, adjacent, p)
      modifies this
      ensures Valid() && values == old(values)
      ensures chars == GridRunes(rs[..y], values) + RowRunes(rs[y], values)
      ensures forall p :: RuneAt(rs, values, p) ==> SlotsSound(rs, adjacent, p)
      ensures forall p :: RuneAt(rs, values, p) && p.y <= y ==> SlotsSettled(rs, adjacent, p)
    {
      chars := chars0;
      for x := 0 to |rs[y]|
        invariant Valid() && values == old(values)
        invariant chars == GridRunes(rs[..y], values) + RowRunes(rs[y][..x], values)
        invariant forall p :: RuneAt(rs, values, p) ==> SlotsSound(rs, adjacent, p)
        invariant forall p :: RuneAt(rs, values, p) && (p.y < y || (p.y == y && p.x < x)) ==> SlotsSettled(rs, adjacent, p)
      {
        assert rs[y][..x + 1][..x] == rs[y][..x];
        var cell := rs[y][x];
        if cell.None? {
          continue;
        }
        assert InGrid(rs, Point(x, y));
        var (_, isRune) := values[cell.value].Rune();
        if isRune {
          chars := chars + [cell.value];
        }
        LinkAdjacent(rs, Point(x, y), cell.value);
      }
      assert rs[y][..|rs[y]|] == rs[y];
    }

    /** FromDocument: the compacted schematic of a document of lines of
        equal length. */
    method FromDocument(doc: seq<string>) returns (s: Schematic, rs: Grid)
      requires Valid()
      requires forall k :: 0 <= k < |doc| ==> |doc[k]| == |doc[0]|
      modifies this
      ensures Valid() && GridOf(doc, rs, values)
      ensures s.characters == GridRunes(rs, values)
      ensures Linked(rs, values, adjacent)
    {
      rs := RawFromDocument(doc);
      GridOfRunesUnique(doc, rs, values);
      s := Compact(rs);
    }

    /** rawSchematic.String: the rows joined by newlines, each written cell
        by cell with repeats of the cell just written skipped. */
    method String(rs: Grid) returns (out: string)
      requires GridIn(rs, |values|)
      ensures out == Join(RenderedRows(rs, values), '\n')
    {
      out := "";
      var lri := |rs| - 1;
      for i := 0 to |rs|
        invariant GridIn(rs[..i], |values|)
        invariant out == Join(RenderedRows(rs[..i], values), '\n') + (if 0 < i < |rs| then "\n" else "")
      {
        var row := rs[i];
        RenderedRowsSnoc(rs, values, i);
        var text := RenderRow(row);
        out := out + text;
        JoinSnoc(RenderedRows(rs[..i], values), RenderFrom(row, values, 0, None), '\n');
        if i < lri {
          out := out + "\n";
        }
      }
      assert rs[..|rs|] == rs;
    }

    /** The inner loop of rawSchematic.String: the cells of one row, with
        repeats of the cell just written skipped. */
    method RenderRow(row: Row) returns (text: string)
      requires RowIn(row, |values|)
      ensures text == RenderFrom(row, values, 0, None)
    {
      text := "";
      var last: Option<CellId> := None;
      for x := 0 to |row|
        invariant text + RenderFrom(row, values, x, last) == RenderFrom(row, values, 0, None)
      {
        var cell := row[x];
        RenderCellStep(row, values, x, last, text);
        if last.None? || last != cell {
          text := text + CellString(cell, values);
          last := cell;
        }
      }
    }

    /** Cell.ValidAjacent: the cells in the slots of c that are not nil,
        in slot order, a cell that fills several slots once per slot. */
    method ValidAdjacent(c: CellId) returns (ret: seq<CellId>)
      requires Valid() && c < |values|
      ensures ret == NonNil(adjacent[c])
      ensures forall a :: a in ret <==> Some(a) in adjacent[c]
      ensures forall k :: 0 <= k < |ret| ==> ret[k] < |values|
    {
      ret := [];
      for d := 0 to 8
        invariant ret == NonNil(adjacent[c][..d])
        invariant forall k :: 0 <= k < |ret| ==> ret[k] < |values|
      {
        assert adjacent[c][..d + 1][..d] == adjacent[c][..d];
        if adjacent[c][d].Some? {
          ret := ret + [adjacent[c][d].value];
        }
      }
      assert adjacent[c][..8] == adjacent[c];
      NonNilMembers(adjacent[c]);
    }

    /** Schematic.PartNumbers: the value of every numeric cell held in a
        slot of some rune cell, each cell once however often it is reached
        (equal values of different cells are all kept), in ascending order. */
    method PartNumbers(s: Schematic) returns (ret: seq<int>)
      requires Valid() && forall c :: c in s.characters ==> c < |values|
      ensures Sorting.Sorted(ret)
      ensures forall v :: multiset(ret)[v] == |WithValue(PartCells(s.characters, values, adjacent), values, v)|
    {
      var ncells := NumberCells(s);
      ret := MapValues(ncells);
      forall v ensures Keyed(ncells, ncells.Keys, v) == WithValue(PartCells(s.characters, values, adjacent), values, v) {
      }
      ret := Sorting.Sort(ret);
    }

    /** The first loop of Schematic.PartNumbers: the numeric cells in the
        slots of the schematic's rune cells, keyed by cell, with their
        values. */
    method NumberCells(s: Schematic) returns (ncells: map<CellId, int>)
      requires Valid() && forall c :: c in s.characters ==> c < |values|
      ensures ncells.Keys == PartCells(s.characters, values, adjacent)
      ensures forall a :: a in ncells ==> a < |values| && values[a].n == Some(ncells[a])
    {
      ncells := map[];
      for i := 0 to |s.characters|
        invariant ncells.Keys == PartCells(s.characters[..i], values, adjacent)
        invariant forall a :: a in ncells ==> a < |values| && values[a].n == Some(ncells[a])
      {
        var c := s.characters[i];
        assert c in s.characters;
        var acs := ValidAdjacent(c);
        ghost var before := ncells.Keys;
        for j := 0 to |acs|
          invariant ncells.Keys == before + (set a | a in acs[..j] && IsNumber(values, a))
          invariant forall a :: a in ncells ==> a < |values| && values[a].n == Some(ncells[a])
        {
          assert acs[..j + 1] == acs[..j] + [acs[j]];
          var ac := acs[j];
          var (n, ok) := values[ac].Number();
          if ok {
            ncells := ncells[ac := n];
          }
        }
        assert acs[..|acs|] == acs;
        assert (set a | a in acs && IsNumber(values, a)) == NumberNeighbours(values, adjacent, c);
        assert s.characters[..i + 1][..i] == s.characters[..i];
      }
      assert s.characters[..|s.characters|] == s.characters;
    }
  }

  /** The values of the slots that are not nil, in order, repeats kept. */
  function NonNil(xs: seq<Option<CellId>>): seq<CellId>
  {
    if xs == [] then []
    else NonNil(xs[..|xs| - 1]) + (if xs[|xs| - 1].Some? then [xs[|xs| - 1].value] else [])
  }

  /** NonNil lists exactly the cells held in some slot. */
  lemma {:induction false} NonNilMembers(xs: seq<Option<CellId>>)
    ensures forall a :: a in NonNil(xs) <==> Some(a) in xs
  {
    if xs != [] {
      var init := xs[..|xs| - 1];
      NonNilMembers(init);
      assert xs == init + [xs[|xs| - 1]];
    }
  }

  /** NonNil keeps as many entries as there are non-nil slots. */
  lemma {:induction false} NonNilLength(xs: seq<Option<CellId>>)
    ensures |NonNil(xs)| == |set k | 0 <= k < |xs| && xs[k].Some?|
  {
    if xs != [] {
      var n := |xs| - 1;
      NonNilLength(xs[..n]);
      var before := set k | 0 <= k < n && xs[..n][k].Some?;
      var after := set k | 0 <= k < |xs| && xs[k].Some?;
      if xs[n].Some? {
        assert after == before + {n};
      } else {
        assert after == before;
      }
    }
  }

  /** The inner loop of lineToCells' first pass: the cell c stored at
      columns start .. end-1. */
  method FillRun(row: Row, start: nat, end: nat, c: Option<CellId>) returns (row': Row)
    requires start <= end <= |row|
    ensures |row'| == |row|
    ensures forall i :: 0 <= i < |row| ==> row'[i] == if start <= i < end then c else row[i]
  {
    row' := row;
    for i := start to end
      invariant |row'| == |row|
      invariant forall i' :: 0 <= i' < |row| ==> row'[i'] == if start <= i' < i then c else row[i']
    {
      row' := row'[i := c];
    }
  }

  /** The second loop of Schematic.PartNumbers: the values of a map, one
      per key, in whatever order the keys are visited. */
  method MapValues(m: map<CellId, int>) returns (ret: seq<int>)
    ensures forall v :: multiset(ret)[v] == |Keyed(m, m.Keys, v)|
  {
    ret := [];
    var pending := m.Keys;
    while pending != {}
      invariant pending <= m.Keys
      invariant forall v :: multiset(ret)[v] == |Keyed(m, m.Keys - pending, v)|
      decreases |pending|
    {
      var a :| a in pending;
      forall v ensures multiset(ret + [m[a]])[v] == |Keyed(m, m.Keys - (pending - {a}), v)| {
        if m[a] == v {
          assert Keyed(m, m.Keys - (pending - {a}), v) == Keyed(m, m.Keys - pending, v) + {a};
        } else {
          assert Keyed(m, m.Keys - (pending - {a}), v) == Keyed(m, m.Keys - pending, v);
        }
      }
      ret := ret + [m[a]];
      pending := pending - {a};
    }
    assert m.Keys - pending == m.Keys;
  }

  /** The keys of m among ks whose value is v. */
  ghost function Keyed(m: map<CellId, int>, ks: set<CellId>, v: int): set<CellId>
  {
    set a | a in ks && a in m && m[a] == v
  }

  /** After the first k digit runs of l got cells base, base+1, ...: each
      such run's columns hold its cell, and every other column is nil. */
  ghost predicate NumbersPlaced(l: string, runs: seq<Run>, row: Row, base: nat, k: nat)
  {
    && |row| == |l| && k <= |runs|
    && (forall j :: 0 <= j < |runs| ==> IsRun(l, runs[j]))
    && (forall j, j' :: 0 <= j < j' < |runs| ==> runs[j].end < runs[j'].start)
    && (forall j, i :: 0 <= j < k && runs[j].start <= i < runs[j].end ==> row[i] == Some(base + j))
    && (forall i {:trigger row[i]} :: 0 <= i < |l| && !IsDigit(l[i]) ==> row[i] == None)
    && (forall i {:trigger row[i]} :: 0 <= i < |l| && k < |runs| && runs[k].start <= i ==> row[i] == None)
    && (forall i {:trigger row[i]} :: 0 <= i < |l| && row[i].Some? ==> base <= row[i].value < base + k)
  }

  /** Cell base + j holds the value of the j-th digit run, for j < k. */
  ghost predicate NumberValues(l: string, runs: seq<Run>, values: seq<Value>, base: nat, k: nat)
  {
    && k <= |runs| && base + k <= |values|
    && forall j :: 0 <= j < k && IsRun(l, runs[j]) ==>
         values[base + j] == NumberValue(DecimalValue(RunText(l, runs[j].start)))
  }

  lemma NumberValuesExtend(l: string, runs: seq<Run>, mid: seq<Value>, values: seq<Value>, base: nat)
    requires NumberValues(l, runs, mid, base, |runs|)
    requires |values| >= |mid| && values[..|mid|] == mid
    ensures NumberValues(l, runs, values, base, |runs|)
  {
    forall c | 0 <= c < |mid| ensures values[c] == mid[c] {
      assert values[..|mid|][c] == values[c];
    }
  }

  lemma NumberValuesStep(l: string, runs: seq<Run>, before: seq<Value>, values: seq<Value>, base: nat, k: nat)
    requires NumberValues(l, runs, before, base, k) && k < |runs| && |before| == base + k
    requires IsRun(l, runs[k]) && values == before + [NumberValue(DecimalValue(RunText(l, runs[k].start)))]
    ensures NumberValues(l, runs, values, base, k + 1)
  {
  }

  lemma PlaceRun(l: string, runs: seq<Run>, before: Row, row: Row, base: nat, k: nat)
    requires NumbersPlaced(l, runs, before, base, k) && k < |runs|
    requires |row| == |l|
    requires forall i :: 0 <= i < |l| ==> row[i] == if runs[k].start <= i < runs[k].end then Some(base + k) else before[i]
    ensures NumbersPlaced(l, runs, row, base, k + 1)
  {
    assert IsRun(l, runs[k]);
    forall j, i | 0 <= j < k && runs[j].start <= i < runs[j].end ensures row[i] == Some(base + j) {
      assert runs[j].end < runs[k].start;
    }
    forall i | 0 <= i < |l| && k + 1 < |runs| && runs[k + 1].start <= i ensures row[i] == None {
      assert runs[k].end < runs[k + 1].start;
    }
  }

  /** The digit at column i lies in the j-th run and holds cell base + j. */
  lemma DigitCell(l: string, runs: seq<Run>, numbered: Row, base: nat, i: nat) returns (j: nat)
    requires runs == DigitRuns(l) && NumbersPlaced(l, runs, numbered, base, |runs|)
    requires i < |l| && IsDigit(l[i])
    ensures j < |runs| && runs[j].start <= i < runs[j].end && numbered[i] == Some(base + j)
    ensures RunStart(l, i) == runs[j].start && RunEnd(l, i) == runs[j].end
  {
    j := RunsFromCover(l, 0, i);
    RunPositions(l, runs[j], i);
  }

  /** After the symbol pass of lineToCells over a row whose numbers are
      placed (numbered): each symbol got a fresh rune cell of its own, and
      every other column is unchanged. */
  ghost predicate SymbolsPlaced(l: string, row: Row, numbered: Row, values: seq<Value>, top: nat)
  {
    && |row| == |l| && |numbered| == |l|
    && (forall i {:trigger row[i]} :: 0 <= i < |l| && !IsSymbol(l[i]) ==> row[i] == numbered[i])
    && (forall i {:trigger row[i]} :: 0 <= i < |l| && IsSymbol(l[i]) ==>
          row[i].Some? && top <= row[i].value < |values| && values[row[i].value] == RuneValue(l[i]))
    && (forall i, j {:trigger row[i], row[j]} :: 0 <= i < j < |l| && IsSymbol(l[i]) && IsSymbol(l[j]) ==> row[i] != row[j])
  }

  /** The cells lineToCells made for l, after both passes. */
  ghost predicate LinePlaced(l: string, runs: seq<Run>, row: Row, numbered: Row, values: seq<Value>, base: nat)
  {
    && runs == DigitRuns(l) && NumbersPlaced(l, runs, numbered, base, |runs|)
    && |values| >= base + |runs| && NumberValues(l, runs, values, base, |runs|)
    && SymbolsPlaced(l, row, numbered, values, base + |runs|)
  }

  lemma LineNils(l: string, runs: seq<Run>, row: Row, numbered: Row, values: seq<Value>, base: nat)
    requires LinePlaced(l, runs, row, numbered, values, base)
    ensures forall i :: 0 <= i < |l| ==> (row[i].None? <==> l[i] == '.')
    ensures forall i :: 0 <= i < |l| && row[i].Some? ==> base <= row[i].value < |values|
  {
    forall i | 0 <= i < |l| ensures (row[i].None? <==> l[i] == '.') && (row[i].Some? ==> base <= row[i].value < |values|) {
      if IsDigit(l[i]) {
        var j := DigitCell(l, runs, numbered, base, i);
      }
    }
  }

  lemma LineValues(l: string, runs: seq<Run>, row: Row, numbered: Row, values: seq<Value>, base: nat)
    requires LinePlaced(l, runs, row, numbered, values, base)
    ensures forall i :: 0 <= i < |l| && IsDigit(l[i]) ==>
              row[i].Some? && row[i].value < |values| &&
              values[row[i].value] == NumberValue(DecimalValue(RunText(l, i)))
  {
    forall i | 0 <= i < |l| && IsDigit(l[i])
      ensures row[i].Some? && row[i].value < |values| && values[row[i].value] == NumberValue(DecimalValue(RunText(l, i)))
    {
      var j := DigitCell(l, runs, numbered, base, i);
      assert IsRun(l, runs[j]);
    }
  }

  lemma LineShared(l: string, runs: seq<Run>, row: Row, numbered: Row, values: seq<Value>, base: nat)
    requires LinePlaced(l, runs, row, numbered, values, base)
    ensures forall i, i' :: 0 <= i < |l| && 0 <= i' < |l| && row[i].Some? && row[i] == row[i'] ==>
              i == i' || (IsDigit(l[i]) && IsDigit(l[i']) && RunStart(l, i) == RunStart(l, i'))
  {
    forall i, i' | 0 <= i < |l| && 0 <= i' < |l| && row[i].Some? && row[i] == row[i']
      ensures i == i' || (IsDigit(l[i]) && IsDigit(l[i']) && RunStart(l, i) == RunStart(l, i'))
    {
      LineSharedAt(l, runs, row, numbered, values, base, i, i');
    }
  }

  /** Two columns holding the same cell are one column or lie in one run. */
  lemma LineSharedAt(l: string, runs: seq<Run>, row: Row, numbered: Row, values: seq<Value>, base: nat, i: nat, i': nat)
    requires LinePlaced(l, runs, row, numbered, values, base)
    requires i < |l| && i' < |l| && row[i].Some? && row[i] == row[i']
    ensures i == i' || (IsDigit(l[i]) && IsDigit(l[i']) && RunStart(l, i) == RunStart(l, i'))
  {
    if IsDigit(l[i]) && IsDigit(l[i']) {
      var j := DigitCell(l, runs, numbered, base, i);
      var j' := DigitCell(l, runs, numbered, base, i');
      assert row[i] == numbered[i] && row[i'] == numbered[i'];
      assert j == j';
    } else if IsDigit(l[i]) {
      var j := DigitCell(l, runs, numbered, base, i);
      assert false;
    } else if IsDigit(l[i']) {
      var j' := DigitCell(l, runs, numbered, base, i');
      assert false;
    } else if i != i' {
      assert false;
    }
  }

  lemma LineRunsShared(l: string, runs: seq<Run>, row: Row, numbered: Row, values: seq<Value>, base: nat)
    requires LinePlaced(l, runs, row, numbered, values, base)
    ensures forall i, i' ::
              (0 <= i < |l| && 0 <= i' < |l| && IsDigit(l[i]) && IsDigit(l[i']) && RunStart(l, i) == RunStart(l, i'))
              ==> row[i] == row[i']
  {
    forall i, i' | 0 <= i < |l| && 0 <= i' < |l| && IsDigit(l[i]) && IsDigit(l[i']) && RunStart(l, i) == RunStart(l, i')
      ensures row[i] == row[i']
    {
      var j := DigitCell(l, runs, numbered, base, i);
      var j' := DigitCell(l, runs, numbered, base, i');
    }
  }

  /** The facts the two loops of lineToCells leave behind add up to RowOf. */
  lemma LineCellsDone(l: string, runs: seq<Run>, row: Row, numbered: Row, values: seq<Value>, base: nat)
    requires LinePlaced(l, runs, row, numbered, values, base)
    ensures RowOf(l, row, values)
    ensures forall i :: 0 <= i < |row| && row[i].Some? ==> base <= row[i].value
  {
    LineNils(l, runs, row, numbered, values, base);
    LineValues(l, runs, row, numbered, values, base);
    LineShared(l, runs, row, numbered, values, base);
    LineRunsShared(l, runs, row, numbered, values, base);
  }
}
