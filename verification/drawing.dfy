/**
 * The value-level part of `UniverseRenderer` (www/components/universe-renderer.js):
 * how the grid is sized, where each cell's square and each grid line sits,
 * which cell a click lands on, and the canvas calls `drawGrid` and
 * `drawCells` issue.
 *
 * A small model of the 2D context gives those calls a meaning. It tracks the
 * current fill and stroke style and, for every filled rectangle, the colour
 * it was last filled with. Cell squares never overlap each other or a grid
 * line (CellSquareInsideGap), so keeping track of whole rectangles is
 * exact for them.
 *
 * Grid lines sit on half-pixel coordinates (8i + 0.5). Their end points are
 * recorded in half-pixel units, so 8i + 0.5 is written 16i + 1.
 */
module Drawing {
  import opened Wrappers
  import opened Life

  /** Side of a cell's square, in pixels. */
  const CELL_SIZE: nat := 7
  /** A square and the one-pixel grid line after it. */
  const PITCH: nat := CELL_SIZE + 1

  // ---------------------------------------------------------------------
  // Sizing

  /** `~~(client / (CELL_SIZE + 1))`: as many whole pitches as fit in the
      container (the quotient is non-negative, so truncating is flooring). */
  function GridDimension(client: nat): (n: nat)
    ensures PITCH * n <= client < PITCH * (n + 1)
  {
    client / PITCH
  }

  /** `(CELL_SIZE + 1) * n + 1`: the canvas side for n cells. */
  function CanvasSize(n: nat): (pixels: nat)
  {
    PITCH * n + 1
  }

  /** The canvas never exceeds its container by more than the closing grid
      line's pixel, and it wastes less than one pitch of the container. */
  lemma CanvasFitsContainer(client: nat)
    ensures CanvasSize(GridDimension(client)) <= client + 1
    ensures client + 1 < CanvasSize(GridDimension(client)) + PITCH
  {
  }

  // ---------------------------------------------------------------------
  // Geometry

  /** An axis-aligned rectangle: its top-left pixel and its size. */
  datatype Rect = Rect(x: int, y: int, w: nat, h: nat)

  /** The pixel (px, py) is inside r. */
  predicate Covers(r: Rect, px: int, py: int)
  {
    r.x <= px < r.x + r.w && r.y <= py < r.y + r.h
  }

  /** The square `fillRect` paints for the cell in column col and row row. */
  function CellSquare(col: nat, row: nat): (square: Rect)
  {
    Rect(PITCH * col + 1, PITCH * row + 1, CELL_SIZE, CELL_SIZE)
  }

  /** The pixel that a grid line at index i covers, horizontally for a vertical
      line and vertically for a horizontal one. The line runs along 8i + 0.5
      and is one pixel wide, so it covers pixel 8i. */
  function GridLinePixel(i: nat): (pixel: nat)
  {
    PITCH * i
  }

  /** Every pixel of a cell's square lies in that cell's pitch and strictly
      between the grid lines around it. */
  lemma CellSquareInsideGap(col: nat, row: nat, px: int, py: int)
    requires Covers(CellSquare(col, row), px, py)
    ensures px / PITCH == col && py / PITCH == row
    ensures GridLinePixel(col) < px < GridLinePixel(col + 1)
    ensures GridLinePixel(row) < py < GridLinePixel(row + 1)
  {
    DivModUnique(px, PITCH, col, px - PITCH * col);
    DivModUnique(py, PITCH, row, py - PITCH * row);
  }

  /** No pixel of a cell's square is on a grid line. */
  lemma CellSquareMissesGridLines(col: nat, row: nat, px: int, py: int, i: nat)
    requires Covers(CellSquare(col, row), px, py)
    ensures px != GridLinePixel(i) && py != GridLinePixel(i)
  {
    CellSquareInsideGap(col, row, px, py);
    if px == GridLinePixel(i) {
      DivModUnique(px, PITCH, i, 0);
    }
    if py == GridLinePixel(i) {
      DivModUnique(py, PITCH, i, 0);
    }
  }

  /** The squares of two different cells share no pixel. */
  lemma CellSquaresDisjoint(c1: nat, r1: nat, c2: nat, r2: nat, px: int, py: int)
    requires Covers(CellSquare(c1, r1), px, py) && Covers(CellSquare(c2, r2), px, py)
    ensures c1 == c2 && r1 == r2
  {
    CellSquareInsideGap(c1, r1, px, py);
    CellSquareInsideGap(c2, r2, px, py);
  }

  /** The squares of an n-cell side end before the last grid line, and that
      line is the canvas's last pixel. */
  lemma CanvasHoldsGrid(n: nat, col: nat)
    requires col < n
    ensures CellSquare(col, 0).x + CELL_SIZE <= GridLinePixel(n)
    ensures GridLinePixel(n) == CanvasSize(n) - 1
  {
  }

  // ---------------------------------------------------------------------
  // Clicks

  /** `Math.min(Math.floor(p / (CELL_SIZE + 1)), dim - 1)`: the row or column
      a click at canvas pixel p selects. The result is clamped from above
      only, so a negative pixel gives a negative result. */
  function ClickCell(p: int, dim: int): (i: int)
    ensures i <= dim - 1
    ensures i == dim - 1 || PITCH * i <= p < PITCH * i + PITCH
    ensures 0 <= p < PITCH * dim ==> PITCH * i <= p < PITCH * i + PITCH
    ensures p >= PITCH * dim ==> i == dim - 1
    ensures p >= 0 && dim >= 1 ==> 0 <= i
    ensures p < 0 ==> i < 0
  {
    if p / PITCH < dim - 1 then p / PITCH else dim - 1
  }

  /** Clicking any pixel of a cell's square selects that cell. */
  lemma ClickOnCellSquare(col: nat, row: nat, width: nat, height: nat, px: int, py: int)
    requires col < width && row < height
    requires Covers(CellSquare(col, row), px, py)
    ensures ClickCell(px, width) == col && ClickCell(py, height) == row
  {
    CellSquareInsideGap(col, row, px, py);
  }

  // ---------------------------------------------------------------------
  // Decoding diff indices

  /** `col = idx % uWidth`, `row = Math.floor(idx / uWidth)`: the cell whose
      `get_index` is idx. */
  function Decode(idx: nat, width: nat): (p: (nat, nat))
    requires width > 0
    ensures p.0 < width
    ensures GetIndex(width, p.1, p.0) == idx
  {
    (idx % width, idx / width)
  }

  /** Decoding undoes `get_index`. */
  lemma DecodeGetIndex(width: nat, row: nat, col: nat)
    requires col < width
    ensures Decode(GetIndex(width, row, col), width) == (col, row)
  {
    DecodeIndex(width, row, col);
  }

  /** Different indices decode to different cells, and so to different squares. */
  lemma DecodeInjective(width: nat, i: nat, j: nat)
    requires width > 0
    requires CellSquare(Decode(i, width).0, Decode(i, width).1) == CellSquare(Decode(j, width).0, Decode(j, width).1)
    ensures i == j
  {
  }

  // ---------------------------------------------------------------------
  // Canvas calls

  /** The three theme colours, and the canvas default black. */
  datatype Color = Black | GridColor | DeadColor | AliveColor

  /** The colour `drawCells` uses for a cell. */
  function ColorOf(c: Cell): (k: Color)
    ensures k == AliveColor <==> c == Alive
    ensures k == DeadColor <==> c == Dead
  {
    match c
    case Alive => AliveColor
    case Dead => DeadColor
  }

  /** A call on the 2D context. Line end points are in half pixels. */
  datatype Op =
    | BeginPath
    | Stroke
    | SetFillStyle(fill: Color)
    | SetStrokeStyle(stroke: Color)
    | FillRect(rect: Rect)
    | MoveTo(mx: int, my: int)
    | LineTo(lx: int, ly: int)

  /** The part of the context's state the renderer relies on. */
  datatype Canvas = Canvas(fill: Color, stroke: Color, painted: map<Rect, Color>)

  /** A fresh context: black styles, nothing filled. */
  const Blank: Canvas := Canvas(Black, Black, map[])

  /** The effect of one call. Paths and strokes only draw grid lines, which
      no cell square overlaps. */
  function Apply(c: Canvas, op: Op): (after: Canvas)
  {
    match op
    case SetFillStyle(k) => c.(fill := k)
    case SetStrokeStyle(k) => c.(stroke := k)
    case FillRect(r) => c.(painted := c.painted[r := c.fill])
    case _ => c
  }

  /** The effect of a sequence of calls, in order. */
  function Run(c: Canvas, ops: seq<Op>): (after: Canvas)
    decreases |ops|
  {
    if ops == [] then c else Apply(Run(c, ops[..|ops| - 1]), ops[|ops| - 1])
  }

  /** Running two sequences one after the other is running their concatenation. */
  lemma {:induction false} RunAppend(c: Canvas, a: seq<Op>, b: seq<Op>)
    ensures Run(c, a + b) == Run(Run(c, a), b)
    decreases |b|
  {
    if b == [] {
      assert a + b == a;
    } else {
      assert (a + b)[..|a + b| - 1] == a + b[..|b| - 1];
      RunAppend(c, a, b[..|b| - 1]);
    }
  }

  /** The colour the rectangle r was last filled with, if any. */
  function Shown(c: Canvas, r: Rect): (shown: Option<Color>)
  {
    if r in c.painted then Some(c.painted[r]) else None
  }

  // ---------------------------------------------------------------------
  // drawGrid

  /** Twice `(CELL_SIZE + 1) * i + .5`: where grid line i runs, in half pixels. */
  function HalfPixel(i: nat): (half: nat)
  {
    2 * PITCH * i + 1
  }

  /** The first k vertical lines of a grid `height` cells high: from the top
      edge down to the bottom grid line. */
  function VerticalLines(height: nat, k: nat): (ops: seq<Op>)
    ensures |ops| == 2 * k
    ensures forall j :: 0 <= j < |ops| ==> ops[j].MoveTo? || ops[j].LineTo?
  {
    if k == 0 then []
    else VerticalLines(height, k - 1) + [MoveTo(HalfPixel(k - 1), 0), LineTo(HalfPixel(k - 1), HalfPixel(height))]
  }

  /** The first k horizontal lines of a grid `width` cells wide. */
  function HorizontalLines(width: nat, k: nat): (ops: seq<Op>)
    ensures |ops| == 2 * k
    ensures forall j :: 0 <= j < |ops| ==> ops[j].MoveTo? || ops[j].LineTo?
  {
    if k == 0 then []
    else HorizontalLines(width, k - 1) + [MoveTo(0, HalfPixel(k - 1)), LineTo(HalfPixel(width), HalfPixel(k - 1))]
  }

  /** All calls of `drawGrid`. */
  function GridOps(width: nat, height: nat): (ops: seq<Op>)
  {
    [BeginPath, SetStrokeStyle(GridColor)]
      + VerticalLines(height, width + 1) + HorizontalLines(width, height + 1) + [Stroke]
  }

  /** Line i of the vertical lines is the move/line pair at 2i: it covers
      pixel column GridLinePixel(i) and spans the grid's full height. */
  lemma {:induction false} VerticalLinesAt(height: nat, k: nat, i: nat)
    requires i < k
    ensures VerticalLines(height, k)[2 * i] == MoveTo(HalfPixel(i), 0)
    ensures VerticalLines(height, k)[2 * i + 1] == LineTo(HalfPixel(i), HalfPixel(height))
    ensures HalfPixel(i) / 2 == GridLinePixel(i)
  {
    if i < k - 1 {
      VerticalLinesAt(height, k - 1, i);
    } else if k - 1 > 0 {
      VerticalLinesAt(height, k - 1, 0);
    }
  }

  /** Line i of the horizontal lines is the move/line pair at 2i: it covers
      pixel row GridLinePixel(i) and spans the grid's full width. */
  lemma {:induction false} HorizontalLinesAt(width: nat, k: nat, i: nat)
    requires i < k
    ensures HorizontalLines(width, k)[2 * i] == MoveTo(0, HalfPixel(i))
    ensures HorizontalLines(width, k)[2 * i + 1] == LineTo(HalfPixel(width), HalfPixel(i))
    ensures HalfPixel(i) / 2 == GridLinePixel(i)
  {
    if i < k - 1 {
      HorizontalLinesAt(width, k - 1, i);
    } else if k - 1 > 0 {
      HorizontalLinesAt(width, k - 1, 0);
    }
  }

  /** `drawGrid` draws width + 1 vertical and height + 1 horizontal lines in
      one path stroked with the grid colour, and fills nothing. */
  lemma GridOpsShape(c: Canvas, width: nat, height: nat)
    ensures |GridOps(width, height)| == 2 * (width + 1) + 2 * (height + 1) + 3
    ensures Run(c, GridOps(width, height)).stroke == GridColor
    ensures Run(c, GridOps(width, height)).painted == c.painted
    ensures Run(c, GridOps(width, height)).fill == c.fill
  {
    VerticalLinesAt(height, width + 1, 0);
    HorizontalLinesAt(width, height + 1, 0);
    RunLinesPaintNothing(c.(stroke := GridColor), VerticalLines(height, width + 1) + HorizontalLines(width, height + 1));
    RunAppend(c, [BeginPath, SetStrokeStyle(GridColor)], VerticalLines(height, width + 1) + HorizontalLines(width, height + 1) + [Stroke]);
    RunAppend(Run(c, [BeginPath, SetStrokeStyle(GridColor)]), VerticalLines(height, width + 1) + HorizontalLines(width, height + 1), [Stroke]);
    assert Run(c, [BeginPath, SetStrokeStyle(GridColor)]) == c.(stroke := GridColor) by {
      assert [BeginPath, SetStrokeStyle(GridColor)][..1] == [BeginPath];
      assert [BeginPath][..0] == [];
    }
    assert GridOps(width, height) == [BeginPath, SetStrokeStyle(GridColor)] + (VerticalLines(height, width + 1) + HorizontalLines(width, height + 1) + [Stroke]);
  }

  /** Path calls change neither the fill style nor the filled rectangles. */
  lemma {:induction false} RunLinesPaintNothing(c: Canvas, ops: seq<Op>)
    requires forall k :: 0 <= k < |ops| ==> ops[k].MoveTo? || ops[k].LineTo?
    ensures Run(c, ops) == c
    decreases |ops|
  {
    if ops != [] {
      RunLinesPaintNothing(c, ops[..|ops| - 1]);
    }
  }

  // ---------------------------------------------------------------------
  // drawCells

  /** Every logged index is a cell of the buffer. */
  predicate DiffInRange(cells: seq<Cell>, diff: seq<nat>)
  {
    forall k :: 0 <= k < |diff| ==> diff[k] < |cells|
  }

  /** The (col, row) list `drawCells` builds for the cells of one state: the
      decoded diff entries whose cell is in that state, in diff order. */
  function Batch(cells: seq<Cell>, diff: seq<nat>, width: nat, state: Cell): (b: seq<(nat, nat)>)
    requires DiffInRange(cells, diff) && (diff != [] ==> width > 0)
    ensures |b| <= |diff|
    ensures forall k :: 0 <= k < |b| ==> b[k].0 < width
    decreases |diff|
  {
    if diff == [] then []
    else
      var idx := diff[|diff| - 1];
      Batch(cells, diff[..|diff| - 1], width, state)
        + (if cells[idx] == state then [Decode(idx, width)] else [])
  }

  /** Appending one index to the diff appends its decoded cell to the batch
      of its state, and to no other. */
  lemma BatchSnoc(cells: seq<Cell>, diff: seq<nat>, idx: nat, width: nat, state: Cell)
    requires DiffInRange(cells, diff + [idx]) && width > 0
    ensures DiffInRange(cells, diff) && idx < |cells|
    ensures Batch(cells, diff + [idx], width, state)
            == Batch(cells, diff, width, state) + (if cells[idx] == state then [Decode(idx, width)] else [])
  {
    assert (diff + [idx])[..|diff + [idx]| - 1] == diff;
    assert (diff + [idx])[|diff|] == idx;
    forall k | 0 <= k < |diff|
      ensures diff[k] < |cells|
    {
      assert diff[k] == (diff + [idx])[k];
    }
  }

  /** The batches of a concatenated diff are the concatenated batches: each
      batch keeps the diff's order. */
  lemma {:induction false} BatchAppend(cells: seq<Cell>, d1: seq<nat>, d2: seq<nat>, width: nat, state: Cell)
    requires DiffInRange(cells, d1 + d2) && (d1 + d2 != [] ==> width > 0)
    ensures DiffInRange(cells, d1) && DiffInRange(cells, d2)
    ensures Batch(cells, d1 + d2, width, state) == Batch(cells, d1, width, state) + Batch(cells, d2, width, state)
    decreases |d2|
  {
    if d2 == [] {
      assert d1 + d2 == d1;
    } else {
      var init, last := d2[..|d2| - 1], d2[|d2| - 1];
      assert d2 == init + [last];
      assert d1 + d2 == (d1 + init) + [last];
      BatchSnoc(cells, d1 + init, last, width, state);
      BatchAppend(cells, d1, init, width, state);
      BatchSnoc(cells, init, last, width, state);
    }
  }

  /** Every diff entry lands in exactly one of the two batches. */
  lemma {:induction false} BatchSizes(cells: seq<Cell>, diff: seq<nat>, width: nat)
    requires DiffInRange(cells, diff) && (diff != [] ==> width > 0)
    ensures |Batch(cells, diff, width, Alive)| + |Batch(cells, diff, width, Dead)| == |diff|
    decreases |diff|
  {
    if diff != [] {
      BatchSizes(cells, diff[..|diff| - 1], width);
    }
  }

  /** A cell is in the batch of a state exactly when its index is in the diff
      and the cell is in that state. */
  lemma {:induction false} BatchMembership(cells: seq<Cell>, diff: seq<nat>, width: nat, state: Cell, idx: nat)
    requires DiffInRange(cells, diff) && width > 0
    ensures Decode(idx, width) in Batch(cells, diff, width, state)
            <==> idx in diff && cells[idx] == state
    decreases |diff|
  {
    if diff != [] {
      var init := diff[..|diff| - 1];
      BatchMembership(cells, init, width, state, idx);
      assert diff == init + [diff[|diff| - 1]];
      var last := diff[|diff| - 1];
      if Decode(idx, width) == Decode(last, width) {
        assert idx == last;
      }
    }
  }

  /** The batches only depend on the cells the diff names. */
  lemma {:induction false} BatchReadsOnlyDiff(c1: seq<Cell>, c2: seq<Cell>, diff: seq<nat>, width: nat, state: Cell)
    requires DiffInRange(c1, diff) && DiffInRange(c2, diff) && (diff != [] ==> width > 0)
    requires forall k :: 0 <= k < |diff| ==> c1[diff[k]] == c2[diff[k]]
    ensures Batch(c1, diff, width, state) == Batch(c2, diff, width, state)
    decreases |diff|
  {
    if diff != [] {
      BatchReadsOnlyDiff(c1, c2, diff[..|diff| - 1], width, state);
    }
  }

  /** One `fillRect` per listed cell, in list order. */
  function Fills(batch: seq<(nat, nat)>): (ops: seq<Op>)
  {
    seq(|batch|, k requires 0 <= k < |batch| => FillRect(CellSquare(batch[k].0, batch[k].1)))
  }

  /** All calls of `drawCells` for a cell buffer and its diff: one path, the
      alive style and every alive square, then the dead style and every dead
      square. */
  function Frame(cells: seq<Cell>, diff: seq<nat>, width: nat): (ops: seq<Op>)
    requires DiffInRange(cells, diff) && (diff != [] ==> width > 0)
  {
    [BeginPath, SetFillStyle(AliveColor)] + Fills(Batch(cells, diff, width, Alive))
      + [SetFillStyle(DeadColor)] + Fills(Batch(cells, diff, width, Dead)) + [Stroke]
  }

  /** `drawCells` issues one `fillRect` per diff entry (duplicates twice),
      sets each fill style once, and draws every alive square before any
      dead one. */
  lemma FrameShape(cells: seq<Cell>, diff: seq<nat>, width: nat)
    requires DiffInRange(cells, diff) && (diff != [] ==> width > 0)
    ensures var ops := Frame(cells, diff, width);
            var alive := Batch(cells, diff, width, Alive);
            var dead := Batch(cells, diff, width, Dead);
            && |ops| == |diff| + 4
            && ops[0] == BeginPath && ops[1] == SetFillStyle(AliveColor)
            && (forall j :: 2 <= j < 2 + |alive| ==> ops[j] == FillRect(CellSquare(alive[j - 2].0, alive[j - 2].1)))
            && ops[2 + |alive|] == SetFillStyle(DeadColor)
            && (forall j :: 3 + |alive| <= j < |ops| - 1 ==>
                  ops[j] == FillRect(CellSquare(dead[j - 3 - |alive|].0, dead[j - 3 - |alive|].1)))
            && ops[|ops| - 1] == Stroke
  {
    BatchSizes(cells, diff, width);
  }

  /** Some square filled by the listed cells is r. */
  ghost predicate Listed(batch: seq<(nat, nat)>, r: Rect)
  {
    exists k :: 0 <= k < |batch| && CellSquare(batch[k].0, batch[k].1) == r
  }

  /** Filling a batch paints its squares with the current fill style and
      leaves every other rectangle and both styles as they were. */
  lemma {:induction false} RunFills(c: Canvas, batch: seq<(nat, nat)>, r: Rect)
    ensures Run(c, Fills(batch)).fill == c.fill && Run(c, Fills(batch)).stroke == c.stroke
    ensures Shown(Run(c, Fills(batch)), r) == if Listed(batch, r) then Some(c.fill) else Shown(c, r)
    decreases |batch|
  {
    if batch != [] {
      var init := batch[..|batch| - 1];
      assert Fills(batch)[..|batch| - 1] == Fills(init);
      RunFills(c, init, r);
      if Listed(batch, r) && CellSquare(batch[|batch| - 1].0, batch[|batch| - 1].1) != r {
        var k :| 0 <= k < |batch| && CellSquare(batch[k].0, batch[k].1) == r;
        assert init[k] == batch[k];
      }
      if Listed(init, r) {
        var k :| 0 <= k < |init| && CellSquare(init[k].0, init[k].1) == r;
        assert batch[k] == init[k];
      }
    }
  }

  /** The cell at idx is listed in a batch exactly when its decoded position is. */
  lemma ListedCell(cells: seq<Cell>, diff: seq<nat>, width: nat, state: Cell, idx: nat)
    requires DiffInRange(cells, diff) && width > 0
    ensures Listed(Batch(cells, diff, width, state), CellSquare(Decode(idx, width).0, Decode(idx, width).1))
            <==> idx in diff && cells[idx] == state
  {
    var p := Decode(idx, width);
    ListedSquare(Batch(cells, diff, width, state), p.0, p.1);
    BatchMembership(cells, diff, width, state, idx);
  }

  /** A cell's square is listed exactly when the cell is: squares of
      different cells differ. */
  lemma ListedSquare(batch: seq<(nat, nat)>, col: nat, row: nat)
    ensures Listed(batch, CellSquare(col, row)) <==> (col, row) in batch
  {
    if Listed(batch, CellSquare(col, row)) {
      var k :| 0 <= k < |batch| && CellSquare(batch[k].0, batch[k].1) == CellSquare(col, row);
      assert batch[k] == (col, row);
    }
    if (col, row) in batch {
      var k :| 0 <= k < |batch| && batch[k] == (col, row);
      assert CellSquare(batch[k].0, batch[k].1) == CellSquare(col, row);
    }
  }

  /** A square no diff cell decodes to. */
  ghost predicate Untouched(diff: seq<nat>, width: nat, r: Rect)
    requires width > 0
  {
    forall k :: 0 <= k < |diff| ==> CellSquare(Decode(diff[k], width).0, Decode(diff[k], width).1) != r
  }

  /** A batch of diff cells lists no untouched square. */
  lemma NotListedUntouched(cells: seq<Cell>, diff: seq<nat>, width: nat, state: Cell, r: Rect)
    requires DiffInRange(cells, diff) && width > 0
    requires Untouched(diff, width, r)
    ensures !Listed(Batch(cells, diff, width, state), r)
  {
    var b := Batch(cells, diff, width, state);
    forall k | 0 <= k < |b|
      ensures CellSquare(b[k].0, b[k].1) != r
    {
      var idx := GetIndex(width, b[k].1, b[k].0);
      DecodeGetIndex(width, b[k].1, b[k].0);
      BatchMembership(cells, diff, width, state, idx);
    }
  }

  /** What a frame leaves on a rectangle: the square it fills last, if any,
      with the style of the batch it is in. */
  lemma FrameRun(c: Canvas, cells: seq<Cell>, diff: seq<nat>, width: nat, r: Rect)
    requires DiffInRange(cells, diff) && (diff != [] ==> width > 0)
    ensures Run(c, Frame(cells, diff, width)).fill == DeadColor
    ensures Shown(Run(c, Frame(cells, diff, width)), r)
            == if Listed(Batch(cells, diff, width, Dead), r) then Some(DeadColor)
               else if Listed(Batch(cells, diff, width, Alive), r) then Some(AliveColor)
               else Shown(c, r)
  {
    var alive := Fills(Batch(cells, diff, width, Alive));
    var dead := Fills(Batch(cells, diff, width, Dead));
    var c1 := c.(fill := AliveColor);
    assert Run(c, [BeginPath, SetFillStyle(AliveColor)]) == c1 by {
      assert [BeginPath, SetFillStyle(AliveColor)][..1] == [BeginPath];
      assert [BeginPath][..0] == [];
    }
    RunFills(c1, Batch(cells, diff, width, Alive), r);
    var c2 := Run(c1, alive).(fill := DeadColor);
    assert Run(Run(c1, alive), [SetFillStyle(DeadColor)]) == c2 by {
      assert [SetFillStyle(DeadColor)][..0] == [];
    }
    RunFills(c2, Batch(cells, diff, width, Dead), r);
    var c3 := Run(c2, dead);
    assert Run(c3, [Stroke]) == c3 by {
      assert [Stroke][..0] == [];
    }
    RunAppend(c, [BeginPath, SetFillStyle(AliveColor)], alive);
    RunAppend(c, [BeginPath, SetFillStyle(AliveColor)] + alive, [SetFillStyle(DeadColor)]);
    RunAppend(c, [BeginPath, SetFillStyle(AliveColor)] + alive + [SetFillStyle(DeadColor)], dead);
    RunAppend(c, [BeginPath, SetFillStyle(AliveColor)] + alive + [SetFillStyle(DeadColor)] + dead, [Stroke]);
  }

  /** `drawCells` repaints exactly the cells named by the diff, each in the
      colour of its current state, and no other cell's square. */
  lemma FrameRepaintsDiff(c: Canvas, cells: seq<Cell>, diff: seq<nat>, width: nat, idx: nat)
    requires DiffInRange(cells, diff) && width > 0 && idx < |cells|
    ensures Shown(Run(c, Frame(cells, diff, width)), CellSquare(Decode(idx, width).0, Decode(idx, width).1))
            == if idx in diff then Some(ColorOf(cells[idx]))
               else Shown(c, CellSquare(Decode(idx, width).0, Decode(idx, width).1))
  {
    var r := CellSquare(Decode(idx, width).0, Decode(idx, width).1);
    FrameRun(c, cells, diff, width, r);
    ListedCell(cells, diff, width, Alive, idx);
    ListedCell(cells, diff, width, Dead, idx);
  }

  /** A rectangle that is not the square of a diff cell keeps what it showed. */
  lemma FrameLeavesOthers(c: Canvas, cells: seq<Cell>, diff: seq<nat>, width: nat, r: Rect)
    requires DiffInRange(cells, diff) && width > 0
    requires Untouched(diff, width, r)
    ensures Shown(Run(c, Frame(cells, diff, width)), r) == Shown(c, r)
  {
    FrameRun(c, cells, diff, width, r);
    NotListedUntouched(cells, diff, width, Alive, r);
    NotListedUntouched(cells, diff, width, Dead, r);
  }

  /** Every cell's square shows the colour of the cell's state. */
  ghost predicate Displayed(c: Canvas, cells: seq<Cell>, width: nat)
  {
    width > 0 ==>
      forall idx :: 0 <= idx < |cells| ==>
        Shown(c, CellSquare(Decode(idx, width).0, Decode(idx, width).1)) == Some(ColorOf(cells[idx]))
  }

  /** A diff that names every cell whose state differs from what is shown
      brings the canvas up to date. */
  lemma DiffRepaintDisplays(c: Canvas, before: seq<Cell>, cells: seq<Cell>, diff: seq<nat>, width: nat)
    requires DiffInRange(cells, diff) && (diff != [] ==> width > 0)
    requires |before| == |cells| && Displayed(c, before, width)
    requires forall i :: 0 <= i < |cells| && cells[i] != before[i] ==> i in diff
    ensures Displayed(Run(c, Frame(cells, diff, width)), cells, width)
  {
    if width > 0 {
      forall idx | 0 <= idx < |cells|
        ensures Shown(Run(c, Frame(cells, diff, width)), CellSquare(Decode(idx, width).0, Decode(idx, width).1))
                == Some(ColorOf(cells[idx]))
      {
        FrameRepaintsDiff(c, cells, diff, width, idx);
      }
    }
  }

  /** A diff that lists every index displays the cells whatever was shown before. */
  lemma FullDiffDisplays(c: Canvas, cells: seq<Cell>, width: nat)
    requires cells != [] ==> width > 0
    ensures Displayed(Run(c, Frame(cells, AllIndices(|cells|), width)), cells, width)
  {
    if width > 0 {
      forall idx | 0 <= idx < |cells|
        ensures Shown(Run(c, Frame(cells, AllIndices(|cells|), width)), CellSquare(Decode(idx, width).0, Decode(idx, width).1))
                == Some(ColorOf(cells[idx]))
      {
        assert AllIndices(|cells|)[idx] == idx;
        FrameRepaintsDiff(c, cells, AllIndices(|cells|), width, idx);
      }
    }
  }

  /** A cell that changed without entering the diff keeps showing its old
      state: the canvas no longer displays the cells. This is what a pattern
      stamp does, since `set_cells` does not log the cells it makes Alive. */
  lemma UnloggedChangeNotDisplayed(c: Canvas, before: seq<Cell>, cells: seq<Cell>, diff: seq<nat>, width: nat, idx: nat)
    requires DiffInRange(cells, diff) && width > 0
    requires |before| == |cells| && Displayed(c, before, width)
    requires idx < |cells| && cells[idx] != before[idx] && idx !in diff
    ensures !Displayed(Run(c, Frame(cells, diff, width)), cells, width)
  {
    FrameRepaintsDiff(c, cells, diff, width, idx);
  }
}
