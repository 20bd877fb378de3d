/**
 * `Universe` of src/lib.rs: a toroidal Game of Life grid whose two cell
 * buffers are allocated once and updated in place, and whose diff log lists
 * the flat indices changed by the last tick or explicit change.
 */
module Engine {
  import opened Life

  class Universe {
    const width: nat
    const height: nat
    /** The current generation, row-major. */
    const cells: array<Cell>
    /** The scratch buffer `tick` computes the next generation into. */
    const cellsNext: array<Cell>
    /** Indices of the cells changed by the last tick or explicit change. */
    var cellsDiff: seq<nat>

    /** The sizes are u32 values, the grid's cell count fits a u32 (so
        `get_index` never wraps), and the two buffers are distinct and sized
        to the grid. */
    ghost predicate Shaped()
    {
      && width < U32 && height < U32 && width * height < U32
      && cells.Length == width * height && cellsNext.Length == width * height
      && cells != cellsNext
    }

    /** Shaped, and every logged index is a cell of the grid. */
    ghost predicate Valid()
      reads this
    {
      Shaped() && forall k :: 0 <= k < |cellsDiff| ==> cellsDiff[k] < width * height
    }

    /** `Universe::new`: every cell Dead, the scratch buffer a copy, an empty diff. */
    constructor (width: nat, height: nat)
      requires width < U32 && height < U32 && width * height < U32
      ensures Valid()
      ensures this.width == width && this.height == height
      ensures fresh(cells) && fresh(cellsNext)
      ensures cells.Length == width * height
      ensures forall i :: 0 <= i < cells.Length ==> cells[i] == Dead
      ensures cellsNext[..] == cells[..]
      ensures cellsDiff == []
    {
      this.width := width;
      this.height := height;
      cells := new Cell[width * height](_ => Dead);
      cellsNext := new Cell[width * height](_ => Dead);
      cellsDiff := [];
    }

    /** `get_cells`: the current generation. */
    function GetCells(): (r: seq<Cell>)
      reads this, cells
      requires Valid()
      ensures |r| == width * height
      ensures forall i :: 0 <= i < |r| ==> r[i] == cells[i]
    {
      cells[..]
    }

    /** `live_neighbors_count`: the engine's explicit wrap-around of the eight
        neighbours agrees with the torus. (The source calls col - 1 "east"
        and col + 1 "west"; the names are kept.) */
    method LiveNeighborsCount(row: nat, col: nat) returns (count: nat)
      requires Shaped() && row < height && col < width
      ensures count == NeighborCount(cells[..], width, height, row, col)
      ensures count <= 8
    {
      count := 0;

      var north := WrapBefore(row, height);
      var south := WrapAfter(row, height);
      var east := WrapBefore(col, width);
      var west := WrapAfter(col, width);

      IndexInRange(width, height, north, east);
      var ne := GetIndex(width, north, east);
      count := count + AsU8(cells[ne]);

      IndexInRange(width, height, row, east);
      var e := GetIndex(width, row, east);
      count := count + AsU8(cells[e]);

      IndexInRange(width, height, south, east);
      var se := GetIndex(width, south, east);
      count := count + AsU8(cells[se]);

      IndexInRange(width, height, south, col);
      var s := GetIndex(width, south, col);
      count := count + AsU8(cells[s]);

      IndexInRange(width, height, south, west);
      var sw := GetIndex(width, south, west);
      count := count + AsU8(cells[sw]);

      IndexInRange(width, height, row, west);
      var w := GetIndex(width, row, west);
      count := count + AsU8(cells[w]);

      IndexInRange(width, height, north, west);
      var nw := GetIndex(width, north, west);
      count := count + AsU8(cells[nw]);

      IndexInRange(width, height, north, col);
      var n := GetIndex(width, north, col);
      count := count + AsU8(cells[n]);

      NeighborCountByCompass(cells[..], width, height, row, col, north, south, east, west);
    }

    /** One step of `tick`'s inner loop: the next state of (row, col) into
        `cellsNext`, and its index appended to the diff when it changes. */
    method ComputeCell(row: nat, col: nat, ghost before: seq<Cell>, ghost after: seq<Cell>, ghost done: nat)
      requires Shaped() && row < height && col < width
      requires done == GetIndex(width, row, col) && done < cellsNext.Length
      requires cells[..] == before && after == NextGeneration(before, width, height)
      requires cellsNext[..done] == after[..done]
      requires cellsDiff == ChangedIndices(before, after, done)
      modifies this, cellsNext
      ensures cells[..] == before
      ensures cellsNext[..done + 1] == after[..done + 1]
      ensures cellsDiff == ChangedIndices(before, after, done + 1)
    {
      var idx := GetIndex(width, row, col);
      var cell := cells[idx];
      var liveNeighbors := LiveNeighborsCount(row, col);
      NextGenerationAt(before, width, height, row, col);
      var nextCell := NextState(cell, liveNeighbors);
      cellsNext[idx] := nextCell;
      if nextCell != cell {
        cellsDiff := cellsDiff + [idx];
      }
      assert cellsNext[..done + 1] == cellsNext[..done] + [nextCell];
    }

    /** One pass of `tick`'s row loop: every cell of `row`, left to right. */
    method ComputeRow(row: nat, ghost before: seq<Cell>, ghost after: seq<Cell>, ghost done: nat)
      requires Shaped() && row < height
      requires done == row * width && done + width <= cellsNext.Length
      requires cells[..] == before && after == NextGeneration(before, width, height)
      requires cellsNext[..done] == after[..done]
      requires cellsDiff == ChangedIndices(before, after, done)
      modifies this, cellsNext
      ensures cells[..] == before
      ensures cellsNext[..done + width] == after[..done + width]
      ensures cellsDiff == ChangedIndices(before, after, done + width)
    {
      ghost var next := done;
      var col := 0;
      while col < width
        modifies this, cellsNext
        invariant 0 <= col <= width
        invariant next == done + col
        invariant cells[..] == before
        invariant cellsNext[..next] == after[..next]
        invariant cellsDiff == ChangedIndices(before, after, next)
      {
        ComputeCell(row, col, before, after, next);
        col := col + 1;
        next := next + 1;
      }
    }

    /** The end of `tick`: `cells` becomes a copy of `cellsNext`. */
    method CopyNext()
      requires Shaped()
      modifies cells
      ensures cells[..] == cellsNext[..]
    {
      var i := 0;
      while i < cellsNext.Length
        invariant 0 <= i <= cellsNext.Length
        invariant forall j :: 0 <= j < i ==> cells[j] == cellsNext[j]
      {
        cells[i] := cellsNext[i];
        i := i + 1;
      }
    }

    /** `tick`: the next generation, computed into `cellsNext` from the old
        cells only and copied back, with the diff the strictly increasing list
        of the indices that changed (see Life.ChangedIndicesExact and
        Life.ChangedIndicesIncreasing). */
    method Tick()
      requires Valid()
      modifies this, cells, cellsNext
      ensures Valid()
      ensures cells[..] == NextGeneration(old(cells[..]), width, height)
      ensures cellsNext[..] == cells[..]
      ensures cellsDiff == ChangedIndices(old(cells[..]), cells[..], width * height)
    {
      ghost var before := cells[..];
      ghost var after := NextGeneration(before, width, height);
      // the number of cells already computed: row * width
      ghost var done: nat := 0;
      cellsDiff := [];

      var row := 0;
      while row < height
        modifies this, cellsNext
        invariant 0 <= row <= height
        invariant done == row * width && done <= width * height
        invariant cells[..] == before
        invariant cellsNext[..done] == after[..done]
        invariant cellsDiff == ChangedIndices(before, after, done)
      {
        MulMonotone(row + 1, height, width);
        assert done + width == (row + 1) * width;
        ComputeRow(row, before, after, done);
        row := row + 1;
        done := done + width;
      }

      assert done == width * height;
      ChangedIndicesIncreasing(before, after, done);
      assert cellsNext[..] == cellsNext[..done];
      CopyNext();
      assert cells[..] == after;
    }

    /** `toggle_cell`: flips exactly the cell at (row, col) and appends its
        index to the diff, which is not cleared first. */
    method ToggleCell(row: nat, col: nat)
      requires Valid() && row < height && col < width
      modifies this, cells
      ensures Valid()
      ensures GetIndex(width, row, col) < cells.Length
      ensures cells[..] == old(cells[..])[GetIndex(width, row, col) := Toggle(old(cells[GetIndex(width, row, col)]))]
      ensures cellsDiff == old(cellsDiff) + [GetIndex(width, row, col)]
    {
      IndexInRange(width, height, row, col);
      var idx := GetIndex(width, row, col);
      cells[idx] := Toggle(cells[idx]);
      cellsDiff := cellsDiff + [idx];
    }

    /** `set_all_dead`: every cell Dead, and the diff every index in order. */
    method SetAllDead()
      requires Valid()
      modifies this, cells
      ensures Valid()
      ensures forall i :: 0 <= i < cells.Length ==> cells[i] == Dead
      ensures cellsDiff == AllIndices(cells.Length)
    {
      cellsDiff := [];
      var i := 0;
      while i < cells.Length
        invariant 0 <= i <= cells.Length
        invariant forall j :: 0 <= j < i ==> cells[j] == Dead
        invariant cellsDiff == AllIndices(i)
      {
        cells[i] := Dead;
        cellsDiff := cellsDiff + [i];
        i := i + 1;
      }
    }

    /** `set_random`: cell i becomes Alive exactly when the i-th draw of the
        random source exceeded one half (`draws[i]`); the diff is every index
        in order, whatever the draws. */
    method SetRandom(draws: seq<bool>)
      requires Valid() && |draws| == cells.Length
      modifies this, cells
      ensures Valid()
      ensures forall i :: 0 <= i < cells.Length ==> (cells[i] == Alive <==> draws[i])
      ensures cellsDiff == AllIndices(cells.Length)
    {
      cellsDiff := [];
      var i := 0;
      while i < cells.Length
        invariant 0 <= i <= cells.Length
        invariant forall j :: 0 <= j < i ==> (cells[j] == Alive <==> draws[j])
        invariant cellsDiff == AllIndices(i)
      {
        cells[i] := if draws[i] then Alive else Dead;
        cellsDiff := cellsDiff + [i];
        i := i + 1;
      }
    }

    /** `set_cells`: each listed point, wrapped onto the grid, made Alive
        (Life.StampAt: no cell is made Dead); the diff is not touched. */
    method SetCells(points: seq<(nat, nat)>)
      requires Valid()
      requires points != [] ==> width > 0 && height > 0
      modifies cells
      ensures cells[..] == Stamp(old(cells[..]), width, height, points)
      ensures cellsDiff == old(cellsDiff)
    {
      var k := 0;
      while k < |points|
        invariant 0 <= k <= |points|
        invariant cells[..] == Stamp(old(cells[..]), width, height, points[..k])
      {
        var (r, c) := points[k];
        var row := WrapU32(r + height) % height;
        var col := WrapU32(c + width) % width;
        IndexInRange(width, height, row, col);
        var idx := GetIndex(width, row, col);
        cells[idx] := Alive;
        assert points[..k + 1][..k] == points[..k];
        k := k + 1;
      }
      assert points[..|points|] == points;
    }

    /** `spawn_glider`: stamps the glider around (row, col). */
    method SpawnGlider(row: nat, col: nat)
      requires Valid() && width > 0 && height > 0
      modifies cells
      ensures cells[..] == Stamp(old(cells[..]), width, height, PatternPoints(row, col, GliderOffsets))
      ensures cellsDiff == old(cellsDiff)
    {
      SetCells(PatternPoints(row, col, GliderOffsets));
    }

    /** `spawn_pulsar`: stamps the pulsar around (row, col). */
    method SpawnPulsar(row: nat, col: nat)
      requires Valid() && width > 0 && height > 0
      modifies cells
      ensures cells[..] == Stamp(old(cells[..]), width, height, PatternPoints(row, col, PulsarOffsets))
      ensures cellsDiff == old(cellsDiff)
    {
      SetCells(PatternPoints(row, col, PulsarOffsets));
    }
  }
}
