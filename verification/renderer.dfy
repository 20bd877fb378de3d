/**
 * `UniverseRenderer` (www/components/universe-renderer.js): it owns a
 * `Universe` sized to the page, draws the grid once, and after every engine
 * mutation repaints only the cells in the engine's diff.
 *
 * The 2D context is modelled by `ops`, the list of every call made on it so
 * far. What those calls leave on the canvas is `Screen()`, given by
 * Drawing.Run. `Current()` says that every cell's square shows the cell's
 * state.
 */
module Rendering {
  import opened Wrappers
  import opened Life
  import opened Drawing
  import opened Engine

  /** The pattern a click stamps: the `'glider'` and `'pulsar'` modifier
      strings. No modifier (`undefined`) is `None`. */
  datatype Pattern = Glider | Pulsar

  /** The classification loop of `drawCells`: each diff index decoded to
      (col, row) and pushed on the alive or the dead list by the state of its
      cell. The lists are the batches of Drawing.Batch, so every entry goes to
      exactly one list (Drawing.BatchSizes), to the alive one exactly when its
      cell is Alive (Drawing.BatchMembership), in diff order
      (Drawing.BatchAppend). */
  method PartitionDiff(cells: seq<Cell>, diff: seq<nat>, width: nat)
    returns (aliveCells: seq<(nat, nat)>, deadCells: seq<(nat, nat)>)
    requires DiffInRange(cells, diff) && (diff != [] ==> width > 0)
    ensures aliveCells == Batch(cells, diff, width, Alive)
    ensures deadCells == Batch(cells, diff, width, Dead)
  {
    aliveCells := [];
    deadCells := [];
    var k := 0;
    while k < |diff|
      invariant 0 <= k <= |diff|
      invariant aliveCells == Batch(cells, diff[..k], width, Alive)
      invariant deadCells == Batch(cells, diff[..k], width, Dead)
    {
      var idx := diff[k];
      var col := idx % width;
      var row := idx / width;
      assert diff[..k + 1] == diff[..k] + [idx];
      BatchSnoc(cells, diff[..k], idx, width, Alive);
      BatchSnoc(cells, diff[..k], idx, width, Dead);
      if cells[idx] == Alive {
        aliveCells := aliveCells + [(col, row)];
      } else {
        deadCells := deadCells + [(col, row)];
      }
      k := k + 1;
    }
    assert diff[..|diff|] == diff;
  }

  /** A repaint of a diff that names every cell that differs from `before`
      keeps a canvas that showed `before` current: after the frame it shows
      `cells`. */
  lemma RepaintKeepsDisplayed(earlier: seq<Op>, before: seq<Cell>, cells: seq<Cell>, diff: seq<nat>, width: nat)
    requires DiffInRange(cells, diff) && (diff != [] ==> width > 0) && |before| == |cells|
    requires forall i :: 0 <= i < |cells| && cells[i] != before[i] ==> i in diff
    ensures Displayed(Run(Blank, earlier), before, width)
            ==> Displayed(Run(Blank, earlier + Frame(cells, diff, width)), cells, width)
  {
    RunAppend(Blank, earlier, Frame(cells, diff, width));
    if Displayed(Run(Blank, earlier), before, width) {
      DiffRepaintDisplays(Run(Blank, earlier), before, cells, diff, width);
    }
  }

  /** Repainting every cell makes the canvas show the cells, whatever the
      earlier calls left on it. */
  lemma FullRepaintDisplays(earlier: seq<Op>, cells: seq<Cell>, width: nat)
    requires cells != [] ==> width > 0
    ensures Displayed(Run(Blank, earlier + Frame(cells, AllIndices(|cells|), width)), cells, width)
  {
    RunAppend(Blank, earlier, Frame(cells, AllIndices(|cells|), width));
    FullDiffDisplays(Run(Blank, earlier), cells, width);
  }

  class UniverseRenderer {
    const uWidth: nat
    const uHeight: nat
    const canvasWidth: nat
    const canvasHeight: nat
    const universe: Universe
    /** Every call made on the canvas's 2D context, oldest first. */
    var ops: seq<Op>

    /** The universe has the grid's size and the canvas fits the grid. */
    ghost predicate Valid()
      reads this, universe
    {
      && universe.Valid()
      && universe.width == uWidth && universe.height == uHeight
      && canvasWidth == CanvasSize(uWidth) && canvasHeight == CanvasSize(uHeight)
    }

    /** What the calls made so far leave on the canvas. */
    ghost function Screen(): (screen: Canvas)
      reads this
    {
      Run(Blank, ops)
    }

    /** Every cell's square shows the state of the cell. */
    ghost predicate Current()
      reads this, universe, universe.cells
    {
      Displayed(Screen(), universe.cells[..], uWidth)
    }

    /** The constructor's sizing followed by `jumpstart`: a grid of as many
        cells as fit in the container, a universe of that size with every
        cell drawn at random (`draws`), then the grid and every cell drawn. */
    constructor (clientWidth: nat, clientHeight: nat, draws: seq<bool>)
      requires GridDimension(clientWidth) < U32 && GridDimension(clientHeight) < U32
      requires GridDimension(clientWidth) * GridDimension(clientHeight) < U32
      requires |draws| == GridDimension(clientWidth) * GridDimension(clientHeight)
      ensures Valid() && fresh(universe) && fresh(universe.cells) && fresh(universe.cellsNext)
      ensures uWidth == GridDimension(clientWidth) && uHeight == GridDimension(clientHeight)
      ensures forall i :: 0 <= i < universe.cells.Length ==> (universe.cells[i] == Alive <==> draws[i])
      ensures universe.cellsDiff == AllIndices(universe.cells.Length)
      ensures ops == GridOps(uWidth, uHeight) + Frame(universe.cells[..], universe.cellsDiff, uWidth)
      ensures Current()
    {
      uWidth := GridDimension(clientWidth);
      uHeight := GridDimension(clientHeight);
      canvasHeight := CanvasSize(GridDimension(clientHeight));
      canvasWidth := CanvasSize(GridDimension(clientWidth));
      universe := new Universe(GridDimension(clientWidth), GridDimension(clientHeight));
      ops := [];
      new;
      Jumpstart(draws);
    }

    /** The rest of `jumpstart` once the universe exists: every cell drawn at
        random (`draws`), then the grid and every cell drawn, which leaves the
        canvas current whatever it showed before. */
    method Jumpstart(draws: seq<bool>)
      requires Valid() && |draws| == universe.cells.Length
      modifies this, universe, universe.cells
      ensures Valid()
      ensures forall i :: 0 <= i < universe.cells.Length ==> (universe.cells[i] == Alive <==> draws[i])
      ensures universe.cellsDiff == AllIndices(universe.cells.Length)
      ensures ops == old(ops) + GridOps(uWidth, uHeight) + Frame(universe.cells[..], universe.cellsDiff, uWidth)
      ensures Current()
    {
      universe.SetRandom(draws);
      DrawGrid();
      ghost var earlier := ops;
      DrawCells();
      FullRepaintDisplays(earlier, universe.cells[..], uWidth);
    }

    /** `drawGrid`: one stroked path of width + 1 vertical and height + 1
        horizontal lines (Drawing.GridOpsShape). */
    method DrawGrid()
      modifies this
      ensures ops == old(ops) + GridOps(uWidth, uHeight)
    {
      ops := ops + [BeginPath, SetStrokeStyle(GridColor)];
      var i := 0;
      while i <= uWidth
        invariant 0 <= i <= uWidth + 1
        invariant ops == old(ops) + [BeginPath, SetStrokeStyle(GridColor)] + VerticalLines(uHeight, i)
      {
        ops := ops + [MoveTo(HalfPixel(i), 0), LineTo(HalfPixel(i), HalfPixel(uHeight))];
        i := i + 1;
      }
      i := 0;
      while i <= uHeight
        invariant 0 <= i <= uHeight + 1
        invariant ops == old(ops) + [BeginPath, SetStrokeStyle(GridColor)]
                         + VerticalLines(uHeight, uWidth + 1) + HorizontalLines(uWidth, i)
      {
        ops := ops + [MoveTo(0, HalfPixel(i)), LineTo(HalfPixel(uWidth), HalfPixel(i))];
        i := i + 1;
      }
      ops := ops + [Stroke];
    }

    /** `drawCells`: the diff split into alive and dead (col, row) lists,
        then one fill style and one `fillRect` per entry for each list. What
        this leaves on the canvas is Drawing.FrameRepaintsDiff. */
    method DrawCells()
      requires Valid()
      modifies this
      ensures DiffInRange(universe.cells[..], universe.cellsDiff)
      ensures universe.cellsDiff != [] ==> uWidth > 0
      ensures ops == old(ops) + Frame(universe.cells[..], universe.cellsDiff, uWidth)
    {
      var cells := universe.GetCells();
      var diff := universe.cellsDiff;
      if diff != [] {
        assert diff[0] < uWidth * uHeight;
      }
      var aliveCells, deadCells := PartitionDiff(cells, diff, uWidth);
      ops := ops + [BeginPath, SetFillStyle(AliveColor)];
      FillCells(aliveCells);
      ops := ops + [SetFillStyle(DeadColor)];
      FillCells(deadCells);
      ops := ops + [Stroke];
    }

    /** One `fillRect` per listed cell, in order, with the current style. */
    method FillCells(batch: seq<(nat, nat)>)
      modifies this
      ensures ops == old(ops) + Fills(batch)
    {
      var j := 0;
      while j < |batch|
        invariant 0 <= j <= |batch|
        invariant ops == old(ops) + Fills(batch[..j])
      {
        var (col, row) := batch[j];
        ops := ops + [FillRect(CellSquare(col, row))];
        j := j + 1;
      }
      assert batch[..j] == batch;
    }

    /** `tick`: one generation, then the changed cells repainted, so a
        canvas that showed the old generation shows the new one. */
    method Tick()
      requires Valid()
      modifies this, universe, universe.cells, universe.cellsNext
      ensures Valid()
      ensures universe.cells[..] == NextGeneration(old(universe.cells[..]), uWidth, uHeight)
      ensures universe.cellsDiff == ChangedIndices(old(universe.cells[..]), universe.cells[..], uWidth * uHeight)
      ensures ops == old(ops) + Frame(universe.cells[..], universe.cellsDiff, uWidth)
      ensures old(Current()) ==> Current()
    {
      ghost var before := universe.cells[..];
      ghost var earlier := ops;
      universe.Tick();
      DrawCells();
      ghost var after := universe.cells[..];
      ChangedIndicesCover(before, after, uWidth * uHeight);
      RepaintKeepsDisplayed(earlier, before, after, universe.cellsDiff, uWidth);
    }

    /** `render`: the same as `tick` once the frame meter is left out. */
    method Render()
      requires Valid()
      modifies this, universe, universe.cells, universe.cellsNext
      ensures Valid()
      ensures universe.cells[..] == NextGeneration(old(universe.cells[..]), uWidth, uHeight)
      ensures universe.cellsDiff == ChangedIndices(old(universe.cells[..]), universe.cells[..], uWidth * uHeight)
      ensures ops == old(ops) + Frame(universe.cells[..], universe.cellsDiff, uWidth)
      ensures old(Current()) ==> Current()
    {
      Tick();
    }

    /** `set_all_dead`: every cell Dead and every cell repainted, so the
        canvas shows the cells whatever it showed before. */
    method SetAllDead()
      requires Valid()
      modifies this, universe, universe.cells
      ensures Valid()
      ensures forall i :: 0 <= i < universe.cells.Length ==> universe.cells[i] == Dead
      ensures universe.cellsDiff == AllIndices(universe.cells.Length)
      ensures ops == old(ops) + Frame(universe.cells[..], universe.cellsDiff, uWidth)
      ensures Current()
    {
      universe.SetAllDead();
      DrawCells();
      FullRepaintDisplays(old(ops), universe.cells[..], uWidth);
    }

    /** `set_random`: every cell drawn at random and every cell repainted. */
    method SetRandom(draws: seq<bool>)
      requires Valid() && |draws| == universe.cells.Length
      modifies this, universe, universe.cells
      ensures Valid()
      ensures forall i :: 0 <= i < universe.cells.Length ==> (universe.cells[i] == Alive <==> draws[i])
      ensures universe.cellsDiff == AllIndices(universe.cells.Length)
      ensures ops == old(ops) + Frame(universe.cells[..], universe.cellsDiff, uWidth)
      ensures Current()
    {
      universe.SetRandom(draws);
      DrawCells();
      FullRepaintDisplays(old(ops), universe.cells[..], uWidth);
    }

    /** `handle_canvas_click` from integer canvas-pixel coordinates: a click
        whose source is not the canvas does nothing; otherwise the clamped
        cell under the click gets exactly one engine mutation chosen by the
        modifier, then the diff is repainted. A toggle keeps the canvas
        current; a stamp does not log its cells, so the stamped cells are
        not repainted (Drawing.UnloggedChangeNotDisplayed). */
    method HandleCanvasClick(onCanvas: bool, x: nat, y: nat, modifier: Option<Pattern>)
      requires Valid()
      requires onCanvas ==> uWidth > 0 && uHeight > 0
      modifies this, universe, universe.cells
      ensures Valid()
      ensures !onCanvas ==> ops == old(ops) && universe.cells[..] == old(universe.cells[..])
                            && universe.cellsDiff == old(universe.cellsDiff)
      ensures onCanvas ==> ops == old(ops) + Frame(universe.cells[..], universe.cellsDiff, uWidth)
      ensures onCanvas && modifier == Some(Glider) ==>
                universe.cells[..] == Stamp(old(universe.cells[..]), uWidth, uHeight,
                                            PatternPoints(ClickCell(y, uHeight) as nat, ClickCell(x, uWidth) as nat, GliderOffsets))
                && universe.cellsDiff == old(universe.cellsDiff)
      ensures onCanvas && modifier == Some(Pulsar) ==>
                universe.cells[..] == Stamp(old(universe.cells[..]), uWidth, uHeight,
                                            PatternPoints(ClickCell(y, uHeight) as nat, ClickCell(x, uWidth) as nat, PulsarOffsets))
                && universe.cellsDiff == old(universe.cellsDiff)
      ensures onCanvas && modifier == None ==>
                var idx := GetIndex(uWidth, ClickCell(y, uHeight) as nat, ClickCell(x, uWidth) as nat);
                && idx < universe.cells.Length
                && universe.cells[..] == old(universe.cells[..])[idx := Toggle(old(universe.cells[idx]))]
                && universe.cellsDiff == old(universe.cellsDiff) + [idx]
      ensures modifier == None ==> old(Current()) ==> Current()
    {
      if onCanvas {
        var row := ClickCell(y, uHeight) as nat;
        var col := ClickCell(x, uWidth) as nat;
        ghost var before := universe.cells[..];
        ghost var earlier := ops;
        match modifier {
          case Some(Glider) =>
            universe.SpawnGlider(row, col);
          case Some(Pulsar) =>
            universe.SpawnPulsar(row, col);
          case None =>
            universe.ToggleCell(row, col);
        }
        DrawCells();
        if modifier == None {
          forall i | 0 <= i < universe.cells.Length && universe.cells[i] != before[i]
            ensures i in universe.cellsDiff
          {
            assert i == GetIndex(uWidth, row, col);
            assert universe.cellsDiff[|universe.cellsDiff| - 1] == i;
          }
          RepaintKeepsDisplayed(earlier, before, universe.cells[..], universe.cellsDiff, uWidth);
        }
      }
    }
  }
}
