/**
 * The value-level part of the Game of Life engine (src/lib.rs): cell states,
 * row-major index arithmetic, the B3/S23 transition rule, the toroidal
 * neighbour count, the next generation as a whole, the diff between two
 * generations, and where `set_cells` and the pattern stampers put live cells.
 *
 * The engine's sizes and coordinates are u32 values. The release build wraps
 * on overflow, so every u32 addition or subtraction that can leave the range
 * goes through WrapU32.
 */
module Life {

  /** 2^32: u32 arithmetic is arithmetic modulo this number. */
  const U32: nat := 0x1_0000_0000

  /** The u32 result of an addition or subtraction whose exact value is x. */
  function WrapU32(x: int): (r: nat)
    ensures r < U32
    ensures 0 <= x < U32 ==> r == x
    ensures -(U32 as int) <= x < 0 ==> r == x + U32
  {
    x % U32
  }

  // ---------------------------------------------------------------------
  // Cells

  /** `Cell` is `#[repr(u8)]` with Dead = 0 and Alive = 1. */
  datatype Cell = Dead | Alive

  /** `Cell::toggle`: the other state. */
  function Toggle(c: Cell): (r: Cell)
    ensures r != c
  {
    match c
    case Dead => Alive
    case Alive => Dead
  }

  lemma ToggleInvolution(c: Cell)
    ensures Toggle(Toggle(c)) == c
  {
  }

  /** `cell as u8`. */
  function AsU8(c: Cell): (n: nat)
    ensures n <= 1
    ensures n == 1 <==> c == Alive
  {
    if c == Alive then 1 else 0
  }

  // ---------------------------------------------------------------------
  // Index arithmetic

  /** `Universe::get_index`: the row-major flat index of (row, col). */
  function GetIndex(width: nat, row: nat, col: nat): (idx: nat)
  {
    row * width + col
  }

  /** Quotient and remainder are determined by any decomposition n == q * d + r
      with 0 <= r < d. */
  lemma {:induction false} DivModUnique(n: int, d: int, q: int, r: int)
    requires d > 0 && 0 <= r < d && n == q * d + r
    ensures n / d == q && n % d == r
  {
    var q', r' := n / d, n % d;
    assert n == q' * d + r';
    if q' < q {
      MulAtLeast(q - q', d);
    } else if q' > q {
      MulAtLeast(q' - q, d);
    }
  }

  lemma MulAtLeast(a: int, d: int)
    requires a >= 1 && d > 0
    ensures a * d >= d
  {
    assert a * d == (a - 1) * d + d;
  }

  /** Adding the modulus does not change a remainder. */
  lemma ModAddModulus(x: int, n: int)
    requires n > 0
    ensures (x + n) % n == x % n
  {
    DivModUnique(x + n, n, x / n + 1, x % n);
  }

  /** A column below the width can be read back from the flat index. */
  lemma DecodeIndex(width: nat, row: nat, col: nat)
    requires col < width
    ensures GetIndex(width, row, col) / width == row
    ensures GetIndex(width, row, col) % width == col
  {
    DivModUnique(GetIndex(width, row, col), width, row, col);
  }

  /** In-range coordinates give an index inside the grid, which is below 2^32
      when the grid is, so the u32 product in `get_index` never wraps. */
  lemma {:induction false} IndexInRange(width: nat, height: nat, row: nat, col: nat)
    requires row < height && col < width
    ensures GetIndex(width, row, col) < width * height
  {
    assert row * width + col < (row + 1) * width;
    assert (row + 1) * width <= height * width;
  }

  /** Distinct cells have distinct indices. */
  lemma IndexInjective(width: nat, r1: nat, c1: nat, r2: nat, c2: nat)
    requires c1 < width && c2 < width
    requires GetIndex(width, r1, c1) == GetIndex(width, r2, c2)
    ensures r1 == r2 && c1 == c2
  {
    DecodeIndex(width, r1, c1);
    DecodeIndex(width, r2, c2);
  }

  /** Every index of the grid is the index of a decoded (row, col) in range. */
  lemma {:induction false} IndexOfDecoded(width: nat, height: nat, idx: nat)
    requires idx < width * height
    ensures width > 0 && idx / width < height && idx % width < width
    ensures GetIndex(width, idx / width, idx % width) == idx
  {
    assert width > 0;
    if idx / width >= height {
      MulMonotone(height, idx / width, width);
    }
  }

  lemma MulMonotone(a: nat, b: nat, d: nat)
    requires a <= b
    ensures a * d <= b * d
  {
    assert b * d == a * d + (b - a) * d;
  }

  // ---------------------------------------------------------------------
  // Neighbours on the torus

  /** The state of the cell at (row, col) read on the torus: both coordinates
      are taken modulo the grid's size. */
  function CellOnTorus(cells: seq<Cell>, width: nat, height: nat, row: int, col: int): (cell: Cell)
    requires width > 0 && height > 0 && |cells| == width * height
  {
    IndexInRange(width, height, row % height, col % width);
    cells[GetIndex(width, row % height, col % width)]
  }

  /** Reference definition of the neighbourhood: the number of live cells
      among the eight cells around (row, col) on the torus. */
  function NeighborCount(cells: seq<Cell>, width: nat, height: nat, row: int, col: int): (count: nat)
    requires width > 0 && height > 0 && |cells| == width * height
  {
    AsU8(CellOnTorus(cells, width, height, row - 1, col - 1))
    + AsU8(CellOnTorus(cells, width, height, row - 1, col))
    + AsU8(CellOnTorus(cells, width, height, row - 1, col + 1))
    + AsU8(CellOnTorus(cells, width, height, row, col - 1))
    + AsU8(CellOnTorus(cells, width, height, row, col + 1))
    + AsU8(CellOnTorus(cells, width, height, row + 1, col - 1))
    + AsU8(CellOnTorus(cells, width, height, row + 1, col))
    + AsU8(CellOnTorus(cells, width, height, row + 1, col + 1))
  }

  /** A neighbour at (row, col) on the torus is the cell at the wrapped
      coordinates (r, c), which lie inside the grid. */
  lemma NeighborOnTorus(cells: seq<Cell>, width: nat, height: nat, row: int, col: int, r: nat, c: nat)
    requires width > 0 && height > 0 && |cells| == width * height
    requires r == row % height && c == col % width
    ensures GetIndex(width, r, c) < |cells|
    ensures CellOnTorus(cells, width, height, row, col) == cells[GetIndex(width, r, c)]
  {
    IndexInRange(width, height, r, c);
  }

  /** The count summed in the engine's order (north-east, east, south-east,
      south, south-west, west, north-west, north, where "east" is col - 1)
      over its explicitly wrapped coordinates is the torus count. */
  lemma NeighborCountByCompass(cells: seq<Cell>, width: nat, height: nat, row: nat, col: nat,
                               north: nat, south: nat, east: nat, west: nat)
    requires width > 0 && height > 0 && |cells| == width * height
    requires row < height && col < width
    requires north == (row - 1) % height && south == (row + 1) % height
    requires east == (col - 1) % width && west == (col + 1) % width
    ensures GetIndex(width, north, east) < |cells| && GetIndex(width, row, east) < |cells|
    ensures GetIndex(width, south, east) < |cells| && GetIndex(width, south, col) < |cells|
    ensures GetIndex(width, south, west) < |cells| && GetIndex(width, row, west) < |cells|
    ensures GetIndex(width, north, west) < |cells| && GetIndex(width, north, col) < |cells|
    ensures NeighborCount(cells, width, height, row, col)
            == AsU8(cells[GetIndex(width, north, east)]) + AsU8(cells[GetIndex(width, row, east)])
               + AsU8(cells[GetIndex(width, south, east)]) + AsU8(cells[GetIndex(width, south, col)])
               + AsU8(cells[GetIndex(width, south, west)]) + AsU8(cells[GetIndex(width, row, west)])
               + AsU8(cells[GetIndex(width, north, west)]) + AsU8(cells[GetIndex(width, north, col)])
  {
    WrapSame(row, height);
    WrapSame(col, width);
    NeighborOnTorus(cells, width, height, row - 1, col - 1, north, east);
    NeighborOnTorus(cells, width, height, row, col - 1, row, east);
    NeighborOnTorus(cells, width, height, row + 1, col - 1, south, east);
    NeighborOnTorus(cells, width, height, row + 1, col, south, col);
    NeighborOnTorus(cells, width, height, row + 1, col + 1, south, west);
    NeighborOnTorus(cells, width, height, row, col + 1, row, west);
    NeighborOnTorus(cells, width, height, row - 1, col + 1, north, west);
    NeighborOnTorus(cells, width, height, row - 1, col, north, col);
  }

  lemma NeighborCountAtMostEight(cells: seq<Cell>, width: nat, height: nat, row: nat, col: nat)
    requires width > 0 && height > 0 && |cells| == width * height
    ensures NeighborCount(cells, width, height, row, col) <= 8
  {
  }

  /** The engine's explicit wrap towards the previous row or column
      (`if row == 0 { height - 1 } else { row - 1 }`) is the torus' modulo. */
  function WrapBefore(x: nat, n: nat): (r: nat)
    requires x < n
    ensures r < n && r == (x - 1) % n
  {
    if x == 0 then DivModUnique(x - 1, n, -1, n - 1); n - 1
    else DivModUnique(x - 1, n, 0, x - 1); x - 1
  }

  /** The engine's explicit wrap towards the next row or column
      (`if row == height - 1 { 0 } else { row + 1 }`) is the torus' modulo. */
  function WrapAfter(x: nat, n: nat): (r: nat)
    requires x < n
    ensures r < n && r == (x + 1) % n
  {
    if x == n - 1 then DivModUnique(x + 1, n, 1, 0); 0
    else DivModUnique(x + 1, n, 0, x + 1); x + 1
  }

  /** An in-range coordinate is its own residue. */
  lemma WrapSame(x: nat, n: nat)
    requires x < n
    ensures x % n == x
  {
  }

  // ---------------------------------------------------------------------
  // The transition rule and the next generation

  /** The `match` in `Universe::tick`. */
  function NextState(cell: Cell, liveNeighbors: nat): (next: Cell)
    ensures next == Alive <==>
              (cell == Alive && (liveNeighbors == 2 || liveNeighbors == 3))
              || (cell == Dead && liveNeighbors == 3)
  {
    if cell == Alive && liveNeighbors < 2 then Dead
    else if cell == Alive && (liveNeighbors == 2 || liveNeighbors == 3) then Alive
    else if cell == Alive && liveNeighbors > 3 then Dead
    else if cell == Dead && liveNeighbors == 3 then Alive
    else cell
  }

  /** The first k cells of the next generation, in row-major order, each
      computed from the old generation only. */
  function NextCells(cells: seq<Cell>, width: nat, height: nat, k: nat): (next: seq<Cell>)
    requires |cells| == width * height && k <= |cells|
    ensures |next| == k
  {
    if k == 0 then []
    else
      NextCells(cells, width, height, k - 1)
        + [NextState(cells[k - 1], NeighborCount(cells, width, height, (k - 1) / width, (k - 1) % width))]
  }

  /** The whole next generation. */
  function NextGeneration(cells: seq<Cell>, width: nat, height: nat): (next: seq<Cell>)
    requires |cells| == width * height
    ensures |next| == |cells|
  {
    NextCells(cells, width, height, |cells|)
  }

  lemma {:induction false} NextCellsAt(cells: seq<Cell>, width: nat, height: nat, k: nat, i: nat)
    requires width > 0 && height > 0
    requires |cells| == width * height && i < k <= |cells|
    ensures NextCells(cells, width, height, k)[i]
            == NextState(cells[i], NeighborCount(cells, width, height, i / width, i % width))
  {
    if i < k - 1 {
      NextCellsAt(cells, width, height, k - 1, i);
    }
  }

  /** Cell (row, col) of the next generation follows the rule applied to the
      same cell of the old generation and its old neighbourhood. */
  lemma NextGenerationAt(cells: seq<Cell>, width: nat, height: nat, row: nat, col: nat)
    requires |cells| == width * height
    requires row < height && col < width
    ensures GetIndex(width, row, col) < |cells|
    ensures NextGeneration(cells, width, height)[GetIndex(width, row, col)]
            == NextState(cells[GetIndex(width, row, col)], NeighborCount(cells, width, height, row, col))
  {
    IndexInRange(width, height, row, col);
    DecodeIndex(width, row, col);
    NextCellsAt(cells, width, height, |cells|, GetIndex(width, row, col));
  }

  // ---------------------------------------------------------------------
  // The diff between two generations

  /** The indices below k at which the two generations differ, in increasing order. */
  function ChangedIndices(before: seq<Cell>, after: seq<Cell>, k: nat): (diff: seq<nat>)
    requires k <= |before| && k <= |after|
  {
    if k == 0 then []
    else ChangedIndices(before, after, k - 1)
         + (if before[k - 1] != after[k - 1] then [k - 1] else [])
  }

  /** An index is listed exactly when it is below k and the cell changed there. */
  lemma {:induction false} ChangedIndicesExact(before: seq<Cell>, after: seq<Cell>, k: nat, i: int)
    requires k <= |before| && k <= |after|
    ensures i in ChangedIndices(before, after, k) <==> 0 <= i < k && before[i] != after[i]
  {
    if k > 0 {
      ChangedIndicesExact(before, after, k - 1, i);
    }
  }

  /** Every cell that changed is listed. */
  lemma ChangedIndicesCover(before: seq<Cell>, after: seq<Cell>, n: nat)
    requires n == |before| == |after|
    ensures forall i :: 0 <= i < n && after[i] != before[i] ==> i in ChangedIndices(before, after, n)
  {
    forall i | 0 <= i < n && after[i] != before[i]
      ensures i in ChangedIndices(before, after, n)
    {
      ChangedIndicesExact(before, after, n, i);
    }
  }

  /** The list is strictly increasing and bounded by k. */
  lemma {:induction false} ChangedIndicesIncreasing(before: seq<Cell>, after: seq<Cell>, k: nat)
    requires k <= |before| && k <= |after|
    ensures forall a :: 0 <= a < |ChangedIndices(before, after, k)| ==> ChangedIndices(before, after, k)[a] < k
    ensures forall a, b :: 0 <= a < b < |ChangedIndices(before, after, k)| ==>
              ChangedIndices(before, after, k)[a] < ChangedIndices(before, after, k)[b]
  {
    if k > 0 {
      ChangedIndicesIncreasing(before, after, k - 1);
    }
  }

  /** 0, 1, ..., n - 1: the diff the two bulk resets leave behind. */
  function AllIndices(n: nat): (d: seq<nat>)
    ensures |d| == n
    ensures forall i :: 0 <= i < n ==> d[i] == i
  {
    seq(n, i => i)
  }

  // ---------------------------------------------------------------------
  // set_cells and the pattern stampers

  /** The flat index `set_cells` writes for one listed (row, col): the u32
      sums `row + height` and `col + width`, then the remainders. */
  function StampIndex(width: nat, height: nat, p: (nat, nat)): (idx: nat)
    requires width > 0 && height > 0
    ensures idx < width * height
  {
    IndexInRange(width, height, WrapU32(p.0 + height) % height, WrapU32(p.1 + width) % width);
    GetIndex(width, WrapU32(p.0 + height) % height, WrapU32(p.1 + width) % width)
  }

  /** Some listed point lands on index i. */
  ghost predicate Stamped(width: nat, height: nat, points: seq<(nat, nat)>, i: nat)
    requires width > 0 && height > 0
  {
    exists k :: 0 <= k < |points| && StampIndex(width, height, points[k]) == i
  }

  /** The cells after `set_cells(points)`: every listed point made Alive, in order. */
  function Stamp(cells: seq<Cell>, width: nat, height: nat, points: seq<(nat, nat)>): (r: seq<Cell>)
    requires |cells| == width * height
    requires points != [] ==> width > 0 && height > 0
    ensures |r| == |cells|
  {
    if points == [] then cells
    else
      Stamp(cells, width, height, points[..|points| - 1])
        [StampIndex(width, height, points[|points| - 1]) := Alive]
  }

  /** A stamped cell is Alive; every other cell keeps its state, so stamping
      never kills a cell. */
  lemma {:induction false} StampAt(cells: seq<Cell>, width: nat, height: nat, points: seq<(nat, nat)>, i: nat)
    requires |cells| == width * height && width > 0 && height > 0
    requires i < |cells|
    ensures Stamp(cells, width, height, points)[i] == if Stamped(width, height, points, i) then Alive else cells[i]
  {
    if points != [] {
      var init := points[..|points| - 1];
      StampAt(cells, width, height, init, i);
      if Stamped(width, height, init, i) {
        var k :| 0 <= k < |init| && StampIndex(width, height, init[k]) == i;
        assert points[k] == init[k];
      }
      if Stamped(width, height, points, i) && StampIndex(width, height, points[|points| - 1]) != i {
        var k :| 0 <= k < |points| && StampIndex(width, height, points[k]) == i;
        assert k < |init| && init[k] == points[k];
      }
    }
  }

  /** Adding n to the u32 wrap of x gives back x + n whenever that sum is
      itself a u32 value. */
  lemma WrapThenAdd(x: int, n: nat)
    requires 0 <= x + n < U32
    ensures WrapU32(WrapU32(x) + n) == x + n
  {
    DivModUnique(WrapU32(x) + n, U32, -(x / U32), x + n);
  }

  /** When the u32 sums do not overflow, `set_cells` wraps like the torus. */
  lemma StampIndexOnTorus(width: nat, height: nat, row: int, col: int)
    requires width > 0 && height > 0
    requires 0 <= row + height < U32 && 0 <= col + width < U32
    ensures StampIndex(width, height, (WrapU32(row), WrapU32(col)))
            == GetIndex(width, row % height, col % width)
  {
    WrapThenAdd(row, height);
    WrapThenAdd(col, width);
    ModAddModulus(row, height);
    ModAddModulus(col, width);
  }

  /** The c/4 glider of `spawn_glider`, as (row, col) offsets in source order. */
  const GliderOffsets: seq<(int, int)> := [(0, -1), (1, 0), (-1, 1), (0, 1), (1, 1)]

  /** The period-3 pulsar of `spawn_pulsar`, as (row, col) offsets in source
      order: the outer rim above and below, the outer rim left and right, the
      inner arms beside the centre row, the inner arms beside the centre column. */
  const PulsarOffsets: seq<(int, int)> :=
    PulsarRimRows + PulsarRimCols + PulsarArmRows + PulsarArmCols

  const PulsarRimRows: seq<(int, int)> := [
    (-6, -4), (-6, -3), (-6, -2), (-6, 2), (-6, 3), (-6, 4),
    (6, -4), (6, -3), (6, -2), (6, 2), (6, 3), (6, 4)
  ]

  const PulsarRimCols: seq<(int, int)> := [
    (-4, -6), (-3, -6), (-2, -6), (-4, 6), (-3, 6), (-2, 6),
    (4, -6), (3, -6), (2, -6), (4, 6), (3, 6), (2, 6)
  ]

  const PulsarArmRows: seq<(int, int)> := [
    (-1, -4), (-1, -3), (-1, -2), (-1, 2), (-1, 3), (-1, 4),
    (1, -4), (1, -3), (1, -2), (1, 2), (1, 3), (1, 4)
  ]

  const PulsarArmCols: seq<(int, int)> := [
    (4, -1), (3, -1), (2, -1), (4, 1), (3, 1), (2, 1),
    (-4, -1), (-3, -1), (-2, -1), (-4, 1), (-3, 1), (-2, 1)
  ]

  /** The u32 points a stamper hands to `set_cells`: `row + dr` and `col + dc`
      computed in wrapping u32 arithmetic. */
  function PatternPoints(row: nat, col: nat, offsets: seq<(int, int)>): (points: seq<(nat, nat)>)
    ensures |points| == |offsets|
  {
    seq(|offsets|, k requires 0 <= k < |offsets| =>
      (WrapU32(row + offsets[k].0), WrapU32(col + offsets[k].1)))
  }

  predicate InSix(d: (int, int))
  {
    -6 <= d.0 <= 6 && -6 <= d.1 <= 6
  }

  /** Offsets no larger than six cells in either direction. */
  ghost predicate WithinSix(offsets: seq<(int, int)>)
  {
    forall k :: 0 <= k < |offsets| ==> InSix(offsets[k])
  }

  /** On a grid at least six cells high and wide (and small enough that the
      u32 sums cannot overflow), a stamped pattern lands at its offsets
      from (row, col) on the torus. Six is the pulsar's reach; the glider
      needs less (GliderOnTorus). */
  lemma PatternOnTorus(width: nat, height: nat, row: nat, col: nat, offsets: seq<(int, int)>, k: nat)
    requires 6 <= width && 6 <= height && 2 * width + 6 < U32 && 2 * height + 6 < U32
    requires row < height && col < width
    requires WithinSix(offsets) && k < |offsets|
    ensures StampIndex(width, height, PatternPoints(row, col, offsets)[k])
            == GetIndex(width, (row + offsets[k].0) % height, (col + offsets[k].1) % width)
  {
    StampIndexOnTorus(width, height, row + offsets[k].0, col + offsets[k].1);
  }

  /** The glider's offsets reach one cell, so on every non-empty grid (small
      enough that the u32 sums cannot overflow) a stamped glider lands at its
      offsets from (row, col) on the torus. */
  lemma GliderOnTorus(width: nat, height: nat, row: nat, col: nat, k: nat)
    requires 0 < width && 0 < height && 2 * width + 1 < U32 && 2 * height + 1 < U32
    requires row < height && col < width && k < |GliderOffsets|
    ensures StampIndex(width, height, PatternPoints(row, col, GliderOffsets)[k])
            == GetIndex(width, (row + GliderOffsets[k].0) % height, (col + GliderOffsets[k].1) % width)
  {
    assert -1 <= GliderOffsets[k].0 <= 1 && -1 <= GliderOffsets[k].1 <= 1;
    StampIndexOnTorus(width, height, row + GliderOffsets[k].0, col + GliderOffsets[k].1);
  }

  lemma PatternsWithinSix()
    ensures WithinSix(GliderOffsets) && WithinSix(PulsarOffsets)
    ensures |GliderOffsets| == 5 && |PulsarOffsets| == 48
  {
    assert WithinSix(PulsarRimRows);
    assert WithinSix(PulsarRimCols);
    assert WithinSix(PulsarArmRows);
    assert WithinSix(PulsarArmCols);
  }

  /** On a grid smaller than the pattern the wrapped u32 value is not reduced
      like the torus: the first pulsar cell for (0, 0) on a 3 x 3 grid lands at
      flat index 3, while (0 - 6, 0 - 4) on the torus is index 2. */
  lemma PulsarOnSmallGrid()
    ensures StampIndex(3, 3, PatternPoints(0, 0, PulsarOffsets)[0]) == 3
    ensures GetIndex(3, (0 - 6) % 3, (0 - 4) % 3) == 2
  {
    assert PulsarOffsets[0] == (-6, -4);
    assert PatternPoints(0, 0, PulsarOffsets)[0] == (WrapU32(-6), WrapU32(-4));
  }
}
