/**
 * The wrapping expectations of the engine's browser tests (tests/web.rs)
 * stated as facts about the model and driven through the `Universe` class:
 * `set_cells` on a 3x3 grid, and one and ten ticks of a glider on a 6x6
 * grid.
 */
module Scenarios {
  import opened Life
  import opened Engine

  /** Stamping points on an all-Dead grid makes exactly the cells at their
      wrapped indices (`idxs`) Alive. */
  lemma StampedExactly(cells: seq<Cell>, width: nat, height: nat, points: seq<(nat, nat)>, idxs: seq<nat>)
    requires |cells| == width * height && width > 0 && height > 0
    requires forall i :: 0 <= i < |cells| ==> cells[i] == Dead
    requires |idxs| == |points|
    requires forall k :: 0 <= k < |points| ==> StampIndex(width, height, points[k]) == idxs[k]
    ensures forall i :: 0 <= i < |cells| ==>
              (Stamp(cells, width, height, points)[i] == Alive <==> i in idxs)
  {
    forall i | 0 <= i < |cells|
      ensures Stamp(cells, width, height, points)[i] == Alive <==> i in idxs
    {
      StampAt(cells, width, height, points, i);
      if i in idxs {
        var k :| 0 <= k < |idxs| && idxs[k] == i;
        assert StampIndex(width, height, points[k]) == i;
      }
    }
  }

  /** On the 6x6 grid a point inside the grid is stamped at 6 * row + col. */
  lemma StampIndexInside(p: (nat, nat))
    requires p.0 < 6 && p.1 < 6
    ensures StampIndex(6, 6, p) == 6 * p.0 + p.1
  {
    assert WrapU32(p.0 + 6) % 6 == p.0 && WrapU32(p.1 + 6) % 6 == p.1;
  }

  // ---------------------------------------------------------------------
  // set_cells_compact

  /** The cells `set_cells_compact` expects: (0, 0) and (1, 1) Alive, the
      other seven Dead. */
  ghost predicate CompactStamped(g: seq<Cell>)
  {
    |g| == 9 && forall i :: 0 <= i < 9 ==> (g[i] == Alive <==> i == GetIndex(3, 0, 0) || i == GetIndex(3, 1, 1))
  }

  /** `set_cells_compact`: on a 3x3 grid, (1, 1) and (3, 3) are stamped and
      (3, 3) wraps to (0, 0). */
  method SetCellsCompact() returns (cells: seq<Cell>)
    ensures CompactStamped(cells)
  {
    var universe := new Universe(3, 3);
    ghost var dead := universe.cells[..];
    var points := [(1, 1), (3, 3)];
    universe.SetCells(points);
    cells := universe.GetCells();
    CompactStamp(dead, points);
  }

  lemma CompactStamp(dead: seq<Cell>, points: seq<(nat, nat)>)
    requires |dead| == 9 && forall i :: 0 <= i < 9 ==> dead[i] == Dead
    requires |points| == 2 && points[0].0 == 1 && points[0].1 == 1 && points[1].0 == 3 && points[1].1 == 3
    ensures CompactStamped(Stamp(dead, 3, 3, points))
  {
    CompactIndices(points);
    var idxs := [4, 0];
    StampedExactly(dead, 3, 3, points, idxs);
    forall i | 0 <= i < 9
      ensures Stamp(dead, 3, 3, points)[i] == Alive <==> i == GetIndex(3, 0, 0) || i == GetIndex(3, 1, 1)
    {
      assert i in idxs <==> i == idxs[0] || i == idxs[1];
    }
  }

  lemma CompactIndices(points: seq<(nat, nat)>)
    requires |points| == 2 && points[0].0 == 1 && points[0].1 == 1 && points[1].0 == 3 && points[1].1 == 3
    ensures StampIndex(3, 3, points[0]) == 4 && StampIndex(3, 3, points[1]) == 0
  {
  }

  // ---------------------------------------------------------------------
  // one_tick_compact and ten_ticks_compact

  /** The live flat indices of the glider t generations after `input_glider`
      on the 6x6 torus, for t up to 10. Generation 1 is
      `expected_glider_one_tick` and generation 10 is
      `expected_glider_ten_ticks_compact`. */
  predicate LiveAt(t: nat, i: nat)
    requires t <= 10
  {
    if t == 0 then i == 8 || i == 15 || i == 19 || i == 20 || i == 21
    else if t == 1 then i == 13 || i == 15 || i == 20 || i == 21 || i == 26
    else if t == 2 then i == 15 || i == 19 || i == 21 || i == 26 || i == 27
    else if t == 3 then i == 14 || i == 21 || i == 22 || i == 26 || i == 27
    else if t == 4 then i == 15 || i == 22 || i == 26 || i == 27 || i == 28
    else if t == 5 then i == 20 || i == 22 || i == 27 || i == 28 || i == 33
    else if t == 6 then i == 22 || i == 26 || i == 28 || i == 33 || i == 34
    else if t == 7 then i == 21 || i == 28 || i == 29 || i == 33 || i == 34
    else if t == 8 then i == 22 || i == 29 || i == 33 || i == 34 || i == 35
    else if t == 9 then i == 4 || i == 27 || i == 29 || i == 34 || i == 35
    else i == 4 || i == 5 || i == 29 || i == 33 || i == 35
  }

  /** The 6x6 grid g holds generation t of the glider. */
  ghost predicate GliderAt(t: nat, g: seq<Cell>)
    requires t <= 10
  {
    |g| == 36 && forall i :: 0 <= i < 36 ==> (g[i] == Alive <==> LiveAt(t, i))
  }

  /** Stamping the `input_glider` points on a dead grid gives generation 0. */
  lemma GliderStamped(dead: seq<Cell>, points: seq<(nat, nat)>)
    requires |dead| == 36 && forall i :: 0 <= i < 36 ==> dead[i] == Dead
    requires |points| == 5
    requires points[0].0 == 1 && points[0].1 == 2 && points[1].0 == 2 && points[1].1 == 3 && points[2].0 == 3 && points[2].1 == 1 && points[3].0 == 3 && points[3].1 == 2 && points[4].0 == 3 && points[4].1 == 3
    ensures GliderAt(0, Stamp(dead, 6, 6, points))
  {
    StampIndexInside(points[0]);
    StampIndexInside(points[1]);
    StampIndexInside(points[2]);
    StampIndexInside(points[3]);
    StampIndexInside(points[4]);
    StampedExactly(dead, 6, 6, points, [8, 15, 19, 20, 21]);
  }

  /** Stamping the `expected_glider_one_tick` points on a dead grid gives generation 1. */
  lemma GliderOneTickStamped(dead: seq<Cell>, points: seq<(nat, nat)>)
    requires |dead| == 36 && forall i :: 0 <= i < 36 ==> dead[i] == Dead
    requires |points| == 5
    requires points[0].0 == 2 && points[0].1 == 1 && points[1].0 == 2 && points[1].1 == 3 && points[2].0 == 3 && points[2].1 == 2 && points[3].0 == 3 && points[3].1 == 3 && points[4].0 == 4 && points[4].1 == 2
    ensures GliderAt(1, Stamp(dead, 6, 6, points))
  {
    StampIndexInside(points[0]);
    StampIndexInside(points[1]);
    StampIndexInside(points[2]);
    StampIndexInside(points[3]);
    StampIndexInside(points[4]);
    StampedExactly(dead, 6, 6, points, [13, 15, 20, 21, 26]);
  }

  /** Stamping the `expected_glider_ten_ticks_compact` points on a dead grid gives generation 10. */
  lemma GliderTenTicksStamped(dead: seq<Cell>, points: seq<(nat, nat)>)
    requires |dead| == 36 && forall i :: 0 <= i < 36 ==> dead[i] == Dead
    requires |points| == 5
    requires points[0].0 == 0 && points[0].1 == 4 && points[1].0 == 0 && points[1].1 == 5 && points[2].0 == 4 && points[2].1 == 5 && points[3].0 == 5 && points[3].1 == 3 && points[4].0 == 5 && points[4].1 == 5
    ensures GliderAt(10, Stamp(dead, 6, 6, points))
  {
    StampIndexInside(points[0]);
    StampIndexInside(points[1]);
    StampIndexInside(points[2]);
    StampIndexInside(points[3]);
    StampIndexInside(points[4]);
    StampedExactly(dead, 6, 6, points, [4, 5, 29, 33, 35]);
  }

  /** `input_glider`: a fresh 6x6 universe stamped with the glider. */
  method InputGlider() returns (u: Universe)
    ensures fresh(u) && fresh(u.cells) && fresh(u.cellsNext)
    ensures u.Valid() && u.width == 6 && u.height == 6
    ensures GliderAt(0, u.cells[..])
  {
    u := new Universe(6, 6);
    ghost var dead := u.cells[..];
    var points := [(1, 2), (2, 3), (3, 1), (3, 2), (3, 3)];
    u.SetCells(points);
    GliderStamped(dead, points);
  }

  /** `expected_glider_one_tick`: a fresh 6x6 universe stamped with the
      glider one generation on. */
  method ExpectedGliderOneTick() returns (u: Universe)
    ensures fresh(u) && fresh(u.cells) && fresh(u.cellsNext)
    ensures u.Valid() && u.width == 6 && u.height == 6
    ensures GliderAt(1, u.cells[..])
  {
    u := new Universe(6, 6);
    ghost var dead := u.cells[..];
    var points := [(2, 1), (2, 3), (3, 2), (3, 3), (4, 2)];
    u.SetCells(points);
    GliderOneTickStamped(dead, points);
  }

  /** `expected_glider_ten_ticks_compact`: a fresh 6x6 universe stamped with
      the glider ten generations on, wrapped across the bottom edge onto
      row 0. */
  method ExpectedGliderTenTicks() returns (u: Universe)
    ensures fresh(u) && fresh(u.cells) && fresh(u.cellsNext)
    ensures u.Valid() && u.width == 6 && u.height == 6
    ensures GliderAt(10, u.cells[..])
  {
    u := new Universe(6, 6);
    ghost var dead := u.cells[..];
    var points := [(0, 4), (0, 5), (4, 5), (5, 3), (5, 5)];
    u.SetCells(points);
    GliderTenTicksStamped(dead, points);
  }

  /** `one_tick_compact`: the input glider ticked once has the cells of the
      expected universe. */
  method OneTickCompact() returns (actual: seq<Cell>, expected: seq<Cell>)
    ensures GliderAt(1, actual)
    ensures actual == expected
  {
    var input := InputGlider();
    var expectedUniverse := ExpectedGliderOneTick();
    ghost var start := input.cells[..];
    input.Tick();
    GliderStep(0, start);
    actual := input.GetCells();
    expected := expectedUniverse.GetCells();
    SameGliders(1, actual, expected);
  }

  /** `ten_ticks_compact`: the input glider ticked ten times has the cells of
      the expected universe. */
  method TenTicksCompact() returns (actual: seq<Cell>, expected: seq<Cell>)
    ensures GliderAt(10, actual)
    ensures actual == expected
  {
    var input := InputGlider();
    var expectedUniverse := ExpectedGliderTenTicks();
    expected := expectedUniverse.GetCells();
    var k := 0;
    while k < 10
      invariant 0 <= k <= 10
      invariant input.Valid() && input.width == 6 && input.height == 6
      invariant GliderAt(k, input.cells[..])
    {
      ghost var before := input.cells[..];
      input.Tick();
      GliderStep(k, before);
      k := k + 1;
    }
    actual := input.GetCells();
    SameGliders(10, actual, expected);
  }

  /** Two 6x6 grids holding the same generation of the glider are equal. */
  lemma SameGliders(t: nat, a: seq<Cell>, b: seq<Cell>)
    requires t <= 10 && GliderAt(t, a) && GliderAt(t, b)
    ensures a == b
  {
    forall i | 0 <= i < 36
      ensures a[i] == b[i]
    {
      if a[i] == Alive {
        assert b[i] == Alive;
      }
    }
  }

  // ---------------------------------------------------------------------
  // The rule on a 6x6 grid, cell by cell

  /** The rule at flat index i of a 6x6 grid. */
  function StepOf(g: seq<Cell>, i: nat): (next: Cell)
    requires |g| == 36 && i < 36
  {
    NextState(g[i], NeighborCount(g, 6, 6, i / 6, i % 6))
  }

  /** `n` is the rule applied to every cell of the 6x6 grid `g`. */
  ghost predicate RuleApplied(g: seq<Cell>, n: seq<Cell>)
  {
    |g| == 36 && |n| == 36
    && forall i {:trigger StepOf(g, i)} :: 0 <= i < 36 ==> n[i] == StepOf(g, i)
  }

  lemma NextGenerationApplies(g: seq<Cell>)
    requires |g| == 36
    ensures RuleApplied(g, NextGeneration(g, 6, 6))
  {
    forall i | 0 <= i < 36
      ensures NextGeneration(g, 6, 6)[i] == StepOf(g, i)
    {
      NextCellsAt(g, 6, 6, 36, i);
    }
  }

  /** The next state of (row, col) from its eight neighbours, named by their
      wrapped rows and columns. */
  lemma CellFromNeighbors(g: seq<Cell>, n: seq<Cell>, row: nat, col: nat, north: nat, south: nat, east: nat, west: nat)
    requires RuleApplied(g, n) && row < 6 && col < 6
    requires north == (row - 1) % 6 && south == (row + 1) % 6
    requires east == (col - 1) % 6 && west == (col + 1) % 6
    ensures GetIndex(6, row, col) < 36
    ensures n[GetIndex(6, row, col)]
            == NextState(g[GetIndex(6, row, col)],
                 AsU8(g[GetIndex(6, north, east)]) + AsU8(g[GetIndex(6, row, east)])
                 + AsU8(g[GetIndex(6, south, east)]) + AsU8(g[GetIndex(6, south, col)])
                 + AsU8(g[GetIndex(6, south, west)]) + AsU8(g[GetIndex(6, row, west)])
                 + AsU8(g[GetIndex(6, north, west)]) + AsU8(g[GetIndex(6, north, col)]))
  {
    DecodeIndex(6, row, col);
    assert n[GetIndex(6, row, col)] == StepOf(g, GetIndex(6, row, col));
    NeighborCountByCompass(g, 6, 6, row, col, north, south, east, west);
  }

  /** The rule on row 0 of a 6x6 torus, each neighbour's index written out. */
  lemma RuleRow0(g: seq<Cell>, n: seq<Cell>)
    requires RuleApplied(g, n)
    ensures n[0] == NextState(g[0], AsU8(g[35]) + AsU8(g[5]) + AsU8(g[11]) + AsU8(g[6]) + AsU8(g[7]) + AsU8(g[1]) + AsU8(g[31]) + AsU8(g[30]))
    ensures n[1] == NextState(g[1], AsU8(g[30]) + AsU8(g[0]) + AsU8(g[6]) + AsU8(g[7]) + AsU8(g[8]) + AsU8(g[2]) + AsU8(g[32]) + AsU8(g[31]))
    ensures n[2] == NextState(g[2], AsU8(g[31]) + AsU8(g[1]) + AsU8(g[7]) + AsU8(g[8]) + AsU8(g[9]) + AsU8(g[3]) + AsU8(g[33]) + AsU8(g[32]))
    ensures n[3] == NextState(g[3], AsU8(g[32]) + AsU8(g[2]) + AsU8(g[8]) + AsU8(g[9]) + AsU8(g[10]) + AsU8(g[4]) + AsU8(g[34]) + AsU8(g[33]))
    ensures n[4] == NextState(g[4], AsU8(g[33]) + AsU8(g[3]) + AsU8(g[9]) + AsU8(g[10]) + AsU8(g[11]) + AsU8(g[5]) + AsU8(g[35]) + AsU8(g[34]))
    ensures n[5] == NextState(g[5], AsU8(g[34]) + AsU8(g[4]) + AsU8(g[10]) + AsU8(g[11]) + AsU8(g[6]) + AsU8(g[0]) + AsU8(g[30]) + AsU8(g[35]))
  {
    CellFromNeighbors(g, n, 0, 0, 5, 1, 5, 1);
    CellFromNeighbors(g, n, 0, 1, 5, 1, 0, 2);
    CellFromNeighbors(g, n, 0, 2, 5, 1, 1, 3);
    CellFromNeighbors(g, n, 0, 3, 5, 1, 2, 4);
    CellFromNeighbors(g, n, 0, 4, 5, 1, 3, 5);
    CellFromNeighbors(g, n, 0, 5, 5, 1, 4, 0);
  }

  /** The rule on row 1 of a 6x6 torus, each neighbour's index written out. */
  lemma RuleRow1(g: seq<Cell>, n: seq<Cell>)
    requires RuleApplied(g, n)
    ensures n[6] == NextState(g[6], AsU8(g[5]) + AsU8(g[11]) + AsU8(g[17]) + AsU8(g[12]) + AsU8(g[13]) + AsU8(g[7]) + AsU8(g[1]) + AsU8(g[0]))
    ensures n[7] == NextState(g[7], AsU8(g[0]) + AsU8(g[6]) + AsU8(g[12]) + AsU8(g[13]) + AsU8(g[14]) + AsU8(g[8]) + AsU8(g[2]) + AsU8(g[1]))
    ensures n[8] == NextState(g[8], AsU8(g[1]) + AsU8(g[7]) + AsU8(g[13]) + AsU8(g[14]) + AsU8(g[15]) + AsU8(g[9]) + AsU8(g[3]) + AsU8(g[2]))
    ensures n[9] == NextState(g[9], AsU8(g[2]) + AsU8(g[8]) + AsU8(g[14]) + AsU8(g[15]) + AsU8(g[16]) + AsU8(g[10]) + AsU8(g[4]) + AsU8(g[3]))
    ensures n[10] == NextState(g[10], AsU8(g[3]) + AsU8(g[9]) + AsU8(g[15]) + AsU8(g[16]) + AsU8(g[17]) + AsU8(g[11]) + AsU8(g[5]) + AsU8(g[4]))
    ensures n[11] == NextState(g[11], AsU8(g[4]) + AsU8(g[10]) + AsU8(g[16]) + AsU8(g[17]) + AsU8(g[12]) + AsU8(g[6]) + AsU8(g[0]) + AsU8(g[5]))
  {
    CellFromNeighbors(g, n, 1, 0, 0, 2, 5, 1);
    CellFromNeighbors(g, n, 1, 1, 0, 2, 0, 2);
    CellFromNeighbors(g, n, 1, 2, 0, 2, 1, 3);
    CellFromNeighbors(g, n, 1, 3, 0, 2, 2, 4);
    CellFromNeighbors(g, n, 1, 4, 0, 2, 3, 5);
    CellFromNeighbors(g, n, 1, 5, 0, 2, 4, 0);
  }

  /** The rule on row 2 of a 6x6 torus, each neighbour's index written out. */
  lemma RuleRow2(g: seq<Cell>, n: seq<Cell>)
    requires RuleApplied(g, n)
    ensures n[12] == NextState(g[12], AsU8(g[11]) + AsU8(g[17]) + AsU8(g[23]) + AsU8(g[18]) + AsU8(g[19]) + AsU8(g[13]) + AsU8(g[7]) + AsU8(g[6]))
    ensures n[13] == NextState(g[13], AsU8(g[6]) + AsU8(g[12]) + AsU8(g[18]) + AsU8(g[19]) + AsU8(g[20]) + AsU8(g[14]) + AsU8(g[8]) + AsU8(g[7]))
    ensures n[14] == NextState(g[14], AsU8(g[7]) + AsU8(g[13]) + AsU8(g[19]) + AsU8(g[20]) + AsU8(g[21]) + AsU8(g[15]) + AsU8(g[9]) + AsU8(g[8]))
    ensures n[15] == NextState(g[15], AsU8(g[8]) + AsU8(g[14]) + AsU8(g[20]) + AsU8(g[21]) + AsU8(g[22]) + AsU8(g[16]) + AsU8(g[10]) + AsU8(g[9]))
    ensures n[16] == NextState(g[16], AsU8(g[9]) + AsU8(g[15]) + AsU8(g[21]) + AsU8(g[22]) + AsU8(g[23]) + AsU8(g[17]) + AsU8(g[11]) + AsU8(g[10]))
    ensures n[17] == NextState(g[17], AsU8(g[10]) + AsU8(g[16]) + AsU8(g[22]) + AsU8(g[23]) + AsU8(g[18]) + AsU8(g[12]) + AsU8(g[6]) + AsU8(g[11]))
  {
    CellFromNeighbors(g, n, 2, 0, 1, 3, 5, 1);
    CellFromNeighbors(g, n, 2, 1, 1, 3, 0, 2);
    CellFromNeighbors(g, n, 2, 2, 1, 3, 1, 3);
    CellFromNeighbors(g, n, 2, 3, 1, 3, 2, 4);
    CellFromNeighbors(g, n, 2, 4, 1, 3, 3, 5);
    CellFromNeighbors(g, n, 2, 5, 1, 3, 4, 0);
  }

  /** The rule on row 3 of a 6x6 torus, each neighbour's index written out. */
  lemma RuleRow3(g: seq<Cell>, n: seq<Cell>)
    requires RuleApplied(g, n)
    ensures n[18] == NextState(g[18], AsU8(g[17]) + AsU8(g[23]) + AsU8(g[29]) + AsU8(g[24]) + AsU8(g[25]) + AsU8(g[19]) + AsU8(g[13]) + AsU8(g[12]))
    ensures n[19] == NextState(g[19], AsU8(g[12]) + AsU8(g[18]) + AsU8(g[24]) + AsU8(g[25]) + AsU8(g[26]) + AsU8(g[20]) + AsU8(g[14]) + AsU8(g[13]))
    ensures n[20] == NextState(g[20], AsU8(g[13]) + AsU8(g[19]) + AsU8(g[25]) + AsU8(g[26]) + AsU8(g[27]) + AsU8(g[21]) + AsU8(g[15]) + AsU8(g[14]))
    ensures n[21] == NextState(g[21], AsU8(g[14]) + AsU8(g[20]) + AsU8(g[26]) + AsU8(g[27]) + AsU8(g[28]) + AsU8(g[22]) + AsU8(g[16]) + AsU8(g[15]))
    ensures n[22] == NextState(g[22], AsU8(g[15]) + AsU8(g[21]) + AsU8(g[27]) + AsU8(g[28]) + AsU8(g[29]) + AsU8(g[23]) + AsU8(g[17]) + AsU8(g[16]))
    ensures n[23] == NextState(g[23], AsU8(g[16]) + AsU8(g[22]) + AsU8(g[28]) + AsU8(g[29]) + AsU8(g[24]) + AsU8(g[18]) + AsU8(g[12]) + AsU8(g[17]))
  {
    CellFromNeighbors(g, n, 3, 0, 2, 4, 5, 1);
    CellFromNeighbors(g, n, 3, 1, 2, 4, 0, 2);
    CellFromNeighbors(g, n, 3, 2, 2, 4, 1, 3);
    CellFromNeighbors(g, n, 3, 3, 2, 4, 2, 4);
    CellFromNeighbors(g, n, 3, 4, 2, 4, 3, 5);
    CellFromNeighbors(g, n, 3, 5, 2, 4, 4, 0);
  }

  /** The rule on row 4 of a 6x6 torus, each neighbour's index written out. */
  lemma RuleRow4(g: seq<Cell>, n: seq<Cell>)
    requires RuleApplied(g, n)
    ensures n[24] == NextState(g[24], AsU8(g[23]) + AsU8(g[29]) + AsU8(g[35]) + AsU8(g[30]) + AsU8(g[31]) + AsU8(g[25]) + AsU8(g[19]) + AsU8(g[18]))
    ensures n[25] == NextState(g[25], AsU8(g[18]) + AsU8(g[24]) + AsU8(g[30]) + AsU8(g[31]) + AsU8(g[32]) + AsU8(g[26]) + AsU8(g[20]) + AsU8(g[19]))
    ensures n[26] == NextState(g[26], AsU8(g[19]) + AsU8(g[25]) + AsU8(g[31]) + AsU8(g[32]) + AsU8(g[33]) + AsU8(g[27]) + AsU8(g[21]) + AsU8(g[20]))
    ensures n[27] == NextState(g[27], AsU8(g[20]) + AsU8(g[26]) + AsU8(g[32]) + AsU8(g[33]) + AsU8(g[34]) + AsU8(g[28]) + AsU8(g[22]) + AsU8(g[21]))
    ensures n[28] == NextState(g[28], AsU8(g[21]) + AsU8(g[27]) + AsU8(g[33]) + AsU8(g[34]) + AsU8(g[35]) + AsU8(g[29]) + AsU8(g[23]) + AsU8(g[22]))
    ensures n[29] == NextState(g[29], AsU8(g[22]) + AsU8(g[28]) + AsU8(g[34]) + AsU8(g[35]) + AsU8(g[30]) + AsU8(g[24]) + AsU8(g[18]) + AsU8(g[23]))
  {
    CellFromNeighbors(g, n, 4, 0, 3, 5, 5, 1);
    CellFromNeighbors(g, n, 4, 1, 3, 5, 0, 2);
    CellFromNeighbors(g, n, 4, 2, 3, 5, 1, 3);
    CellFromNeighbors(g, n, 4, 3, 3, 5, 2, 4);
    CellFromNeighbors(g, n, 4, 4, 3, 5, 3, 5);
    CellFromNeighbors(g, n, 4, 5, 3, 5, 4, 0);
  }

  /** The rule on row 5 of a 6x6 torus, each neighbour's index written out. */
  lemma RuleRow5(g: seq<Cell>, n: seq<Cell>)
    requires RuleApplied(g, n)
    ensures n[30] == NextState(g[30], AsU8(g[29]) + AsU8(g[35]) + AsU8(g[5]) + AsU8(g[0]) + AsU8(g[1]) + AsU8(g[31]) + AsU8(g[25]) + AsU8(g[24]))
    ensures n[31] == NextState(g[31], AsU8(g[24]) + AsU8(g[30]) + AsU8(g[0]) + AsU8(g[1]) + AsU8(g[2]) + AsU8(g[32]) + AsU8(g[26]) + AsU8(g[25]))
    ensures n[32] == NextState(g[32], AsU8(g[25]) + AsU8(g[31]) + AsU8(g[1]) + AsU8(g[2]) + AsU8(g[3]) + AsU8(g[33]) + AsU8(g[27]) + AsU8(g[26]))
    ensures n[33] == NextState(g[33], AsU8(g[26]) + AsU8(g[32]) + AsU8(g[2]) + AsU8(g[3]) + AsU8(g[4]) + AsU8(g[34]) + AsU8(g[28]) + AsU8(g[27]))
    ensures n[34] == NextState(g[34], AsU8(g[27]) + AsU8(g[33]) + AsU8(g[3]) + AsU8(g[4]) + AsU8(g[5]) + AsU8(g[35]) + AsU8(g[29]) + AsU8(g[28]))
    ensures n[35] == NextState(g[35], AsU8(g[28]) + AsU8(g[34]) + AsU8(g[4]) + AsU8(g[5]) + AsU8(g[0]) + AsU8(g[30]) + AsU8(g[24]) + AsU8(g[29]))
  {
    CellFromNeighbors(g, n, 5, 0, 4, 0, 5, 1);
    CellFromNeighbors(g, n, 5, 1, 4, 0, 0, 2);
    CellFromNeighbors(g, n, 5, 2, 4, 0, 1, 3);
    CellFromNeighbors(g, n, 5, 3, 4, 0, 2, 4);
    CellFromNeighbors(g, n, 5, 4, 4, 0, 3, 5);
    CellFromNeighbors(g, n, 5, 5, 4, 0, 4, 0);
  }

  /** One tick takes generation t of the glider to generation t + 1. */
  lemma GliderStep(t: nat, g: seq<Cell>)
    requires t < 10 && GliderAt(t, g)
    ensures GliderAt(t + 1, NextGeneration(g, 6, 6))
  {
    var n := NextGeneration(g, 6, 6);
    NextGenerationApplies(g);
    if t == 0 {
      GliderGen0(g, n);
    } else if t == 1 {
      GliderGen1(g, n);
    } else if t == 2 {
      GliderGen2(g, n);
    } else if t == 3 {
      GliderGen3(g, n);
    } else if t == 4 {
      GliderGen4(g, n);
    } else if t == 5 {
      GliderGen5(g, n);
    } else if t == 6 {
      GliderGen6(g, n);
    } else if t == 7 {
      GliderGen7(g, n);
    } else if t == 8 {
      GliderGen8(g, n);
    } else if t == 9 {
      GliderGen9(g, n);
    }
  }

  // Each GenTRowR lemma evaluates row R of generation T + 1 from RuleRowR
  // and generation T, one ground fact per cell. The split by row keeps each
  // proof small: evaluating all 36 cells of a generation in one lemma is
  // beyond the solver's resource limit.

  /** Generation 0 of the glider gives generation 1, row by row. */
  lemma GliderGen0(g: seq<Cell>, n: seq<Cell>)
    requires GliderAt(0, g) && RuleApplied(g, n)
    ensures GliderAt(1, n)
  {
    Gen0Row0(g, n);
    Gen0Row1(g, n);
    Gen0Row2(g, n);
    Gen0Row3(g, n);
    Gen0Row4(g, n);
    Gen0Row5(g, n);
    forall i | 0 <= i < 36
      ensures n[i] == Alive <==> LiveAt(1, i)
    {
      if i == 0 {
      } else if i == 1 {
      } else if i == 2 {
      } else if i == 3 {
      } else if i == 4 {
      } else if i == 5 {
      } else if i == 6 {
      } else if i == 7 {
      } else if i == 8 {
      } else if i == 9 {
      } else if i == 10 {
      } else if i == 11 {
      } else if i == 12 {
      } else if i == 13 {
      } else if i == 14 {
      } else if i == 15 {
      } else if i == 16 {
      } else if i == 17 {
      } else if i == 18 {
      } else if i == 19 {
      } else if i == 20 {
      } else if i == 21 {
      } else if i == 22 {
      } else if i == 23 {
      } else if i == 24 {
      } else if i == 25 {
      } else if i == 26 {
      } else if i == 27 {
      } else if i == 28 {
      } else if i == 29 {
      } else if i == 30 {
      } else if i == 31 {
      } else if i == 32 {
      } else if i == 33 {
      } else if i == 34 {
      }
    }
  }

  lemma Gen0Row0(g: seq<Cell>, n: seq<Cell>)
    requires GliderAt(0, g) && RuleApplied(g, n)
    ensures n[0] == Dead && n[1] == Dead && n[2] == Dead && n[3] == Dead && n[4] == Dead && n[5] == Dead
  {
    RuleRow0(g, n);
  }

  lemma Gen0Row1(g: seq<Cell>, n: seq<Cell>)
    requires GliderAt(0, g) && RuleApplied(g, n)
    ensures n[6] == Dead && n[7] == Dead && n[8] == Dead && n[9] == Dead && n[10] == Dead && n[11] == Dead
  {
    RuleRow1(g, n);
  }

  lemma Gen0Row2(g: seq<Cell>, n: seq<Cell>)
    requires GliderAt(0, g) && RuleApplied(g, n)
    ensures n[12] == Dead && n[13] == Alive && n[14] == Dead && n[15] == Alive && n[16] == Dead && n[17] == Dead
  {
    RuleRow2(g, n);
  }

  lemma Gen0Row3(g: seq<Cell>, n: seq<Cell>)
    requires GliderAt(0, g) && RuleApplied(g, n)
    ensures n[18] == Dead && n[19] == Dead && n[20] == Alive && n[21] == Alive && n[22] == Dead && n[23] == Dead
  {
    RuleRow3(g, n);
  }

  lemma Gen0Row4(g: seq<Cell>, n: seq<Cell>)
    requires GliderAt(0, g) && RuleApplied(g, n)
    ensures n[24] == Dead && n[25] == Dead && n[26] == Alive && n[27] == Dead && n[28] == Dead && n[29] == Dead
  {
    RuleRow4(g, n);
  }

  lemma Gen0Row5(g: seq<Cell>, n: seq<Cell>)
    requires GliderAt(0, g) && RuleApplied(g, n)
    ensures n[30] == Dead && n[31] == Dead && n[32] == Dead && n[33] == Dead && n[34] == Dead && n[35] == Dead
  {
    RuleRow5(g, n);
  }

  /** Generation 1 of the glider gives generation 2, row by row. */
  lemma GliderGen1(g: seq<Cell>, n: seq<Cell>)
    requires GliderAt(1, g) && RuleApplied(g, n)
    ensures GliderAt(2, n)
  {
    Gen1Row0(g, n);
    Gen1Row1(g, n);
    Gen1Row2(g, n);
    Gen1Row3(g, n);
    Gen1Row4(g, n);
    Gen1Row5(g, n);
    forall i | 0 <= i < 36
      ensures n[i] == Alive <==> LiveAt(2, i)
    {
      if i == 0 {
      } else if i == 1 {
      } else if i == 2 {
      } else if i == 3 {
      } else if i == 4 {
      } else if i == 5 {
      } else if i == 6 {
      } else if i == 7 {
      } else if i == 8 {
      } else if i == 9 {
      } else if i == 10 {
      } else if i == 11 {
      } else if i == 12 {
      } else if i == 13 {
      } else if i == 14 {
      } else if i == 15 {
      } else if i == 16 {
      } else if i == 17 {
      } else if i == 18 {
      } else if i == 19 {
      } else if i == 20 {
      } else if i == 21 {
      } else if i == 22 {
      } else if i == 23 {
      } else if i == 24 {
      } else if i == 25 {
      } else if i == 26 {
      } else if i == 27 {
      } else if i == 28 {
      } else if i == 29 {
      } else if i == 30 {
      } else if i == 31 {
      } else if i == 32 {
      } else if i == 33 {
      } else if i == 34 {
      }
    }
  }

  lemma Gen1Row0(g: seq<Cell>, n: seq<Cell>)
    requires GliderAt(1, g) && RuleApplied(g, n)
    ensures n[0] == Dead && n[1] == Dead && n[2] == Dead && n[3] == Dead && n[4] == Dead && n[5] == Dead
  {
    RuleRow0(g, n);
  }

  lemma Gen1Row1(g: seq<Cell>, n: seq<Cell>)
    requires GliderAt(1, g) && RuleApplied(g, n)
    ensures n[6] == Dead && n[7] == Dead && n[8] == Dead && n[9] == Dead && n[10] == Dead && n[11] == Dead
  {
    RuleRow1(g, n);
  }

  lemma Gen1Row2(g: seq<Cell>, n: seq<Cell>)
    requires GliderAt(1, g) && RuleApplied(g, n)
    ensures n[12] == Dead && n[13] == Dead && n[14] == Dead && n[15] == Alive && n[16] == Dead && n[17] == Dead
  {
    RuleRow2(g, n);
  }

  lemma Gen1Row3(g: seq<Cell>, n: seq<Cell>)
    requires GliderAt(1, g) && RuleApplied(g, n)
    ensures n[18] == Dead && n[19] == Alive && n[20] == Dead && n[21] == Alive && n[22] == Dead && n[23] == Dead
  {
    RuleRow3(g, n);
  }

  lemma Gen1Row4(g: seq<Cell>, n: seq<Cell>)
    requires GliderAt(1, g) && RuleApplied(g, n)
    ensures n[24] == Dead && n[25] == Dead && n[26] == Alive && n[27] == Alive && n[28] == Dead && n[29] == Dead
  {
    RuleRow4(g, n);
  }

  lemma Gen1Row5(g: seq<Cell>, n: seq<Cell>)
    requires GliderAt(1, g) && RuleApplied(g, n)
    ensures n[30] == Dead && n[31] == Dead && n[32] == Dead && n[33] == Dead && n[34] == Dead && n[35] == Dead
  {
    RuleRow5(g, n);
  }

  /** Generation 2 of the glider gives generation 3, row by row. */
  lemma GliderGen2(g: seq<Cell>, n: seq<Cell>)
    requires GliderAt(2, g) && RuleApplied(g, n)
    ensures GliderAt(3, n)
  {
    Gen2Row0(g, n);
    Gen2Row1(g, n);
    Gen2Row2(g, n);
    Gen2Row3(g, n);
    Gen2Row4(g, n);
    Gen2Row5(g, n);
    forall i | 0 <= i < 36
      ensures n[i] == Alive <==> LiveAt(3, i)
    {
      if i == 0 {
      } else if i == 1 {
      } else if i == 2 {
      } else if i == 3 {
      } else if i == 4 {
      } else if i == 5 {
      } else if i == 6 {
      } else if i == 7 {
      } else if i == 8 {
      } else if i == 9 {
      } else if i == 10 {
      } else if i == 11 {
      } else if i == 12 {
      } else if i == 13 {
      } else if i == 14 {
      } else if i == 15 {
      } else if i == 16 {
      } else if i == 17 {
      } else if i == 18 {
      } else if i == 19 {
      } else if i == 20 {
      } else if i == 21 {
      } else if i == 22 {
      } else if i == 23 {
      } else if i == 24 {
      } else if i == 25 {
      } else if i == 26 {
      } else if i == 27 {
      } else if i == 28 {
      } else if i == 29 {
      } else if i == 30 {
      } else if i == 31 {
      } else if i == 32 {
      } else if i == 33 {
      } else if i == 34 {
      }
    }
  }

  lemma Gen2Row0(g: seq<Cell>, n: seq<Cell>)
    requires GliderAt(2, g) && RuleApplied(g, n)
    ensures n[0] == Dead && n[1] == Dead && n[2] == Dead && n[3] == Dead && n[4] == Dead && n[5] == Dead
  {
    RuleRow0(g, n);
  }

  lemma Gen2Row1(g: seq<Cell>, n: seq<Cell>)
    requires GliderAt(2, g) && RuleApplied(g, n)
    ensures n[6] == Dead && n[7] == Dead && n[8] == Dead && n[9] == Dead && n[10] == Dead && n[11] == Dead
  {
    RuleRow1(g, n);
  }

  lemma Gen2Row2(g: seq<Cell>, n: seq<Cell>)
    requires GliderAt(2, g) && RuleApplied(g, n)
    ensures n[12] == Dead && n[13] == Dead && n[14] == Alive && n[15] == Dead && n[16] == Dead && n[17] == Dead
  {
    RuleRow2(g, n);
  }

  lemma Gen2Row3(g: seq<Cell>, n: seq<Cell>)
    requires GliderAt(2, g) && RuleApplied(g, n)
    ensures n[18] == Dead && n[19] == Dead && n[20] == Dead && n[21] == Alive && n[22] == Alive && n[23] == Dead
  {
    RuleRow3(g, n);
  }

  lemma Gen2Row4(g: seq<Cell>, n: seq<Cell>)
    requires GliderAt(2, g) && RuleApplied(g, n)
    ensures n[24] == Dead && n[25] == Dead && n[26] == Alive && n[27] == Alive && n[28] == Dead && n[29] == Dead
  {
    RuleRow4(g, n);
  }

  lemma Gen2Row5(g: seq<Cell>, n: seq<Cell>)
    requires GliderAt(2, g) && RuleApplied(g, n)
    ensures n[30] == Dead && n[31] == Dead && n[32] == Dead && n[33] == Dead && n[34] == Dead && n[35] == Dead
  {
    RuleRow5(g, n);
  }

  /** Generation 3 of the glider gives generation 4, row by row. */
  lemma GliderGen3(g: seq<Cell>, n: seq<Cell>)
    requires GliderAt(3, g) && RuleApplied(g, n)
    ensures GliderAt(4, n)
  {
    Gen3Row0(g, n);
    Gen3Row1(g, n);
    Gen3Row2(g, n);
    Gen3Row3(g, n);
    Gen3Row4(g, n);
    Gen3Row5(g, n);
    forall i | 0 <= i < 36
      ensures n[i] == Alive <==> LiveAt(4, i)
    {
      if i == 0 {
      } else if i == 1 {
      } else if i == 2 {
      } else if i == 3 {
      } else if i == 4 {
      } else if i == 5 {
      } else if i == 6 {
      } else if i == 7 {
      } else if i == 8 {
      } else if i == 9 {
      } else if i == 10 {
      } else if i == 11 {
      } else if i == 12 {
      } else if i == 13 {
      } else if i == 14 {
      } else if i == 15 {
      } else if i == 16 {
      } else if i == 17 {
      } else if i == 18 {
      } else if i == 19 {
      } else if i == 20 {
      } else if i == 21 {
      } else if i == 22 {
      } else if i == 23 {
      } else if i == 24 {
      } else if i == 25 {
      } else if i == 26 {
      } else if i == 27 {
      } else if i == 28 {
      } else if i == 29 {
      } else if i == 30 {
      } else if i == 31 {
      } else if i == 32 {
      } else if i == 33 {
      } else if i == 34 {
      }
    }
  }

  lemma Gen3Row0(g: seq<Cell>, n: seq<Cell>)
    requires GliderAt(3, g) && RuleApplied(g, n)
    ensures n[0] == Dead && n[1] == Dead && n[2] == Dead && n[3] == Dead && n[4] == Dead && n[5] == Dead
  {
    RuleRow0(g, n);
  }

  lemma Gen3Row1(g: seq<Cell>, n: seq<Cell>)
    requires GliderAt(3, g) && RuleApplied(g, n)
    ensures n[6] == Dead && n[7] == Dead && n[8] == Dead && n[9] == Dead && n[10] == Dead && n[11] == Dead
  {
    RuleRow1(g, n);
  }

  lemma Gen3Row2(g: seq<Cell>, n: seq<Cell>)
    requires GliderAt(3, g) && RuleApplied(g, n)
    ensures n[12] == Dead && n[13] == Dead && n[14] == Dead && n[15] == Alive && n[16] == Dead && n[17] == Dead
  {
    RuleRow2(g, n);
  }

  lemma Gen3Row3(g: seq<Cell>, n: seq<Cell>)
    requires GliderAt(3, g) && RuleApplied(g, n)
    ensures n[18] == Dead && n[19] == Dead && n[20] == Dead && n[21] == Dead && n[22] == Alive && n[23] == Dead
  {
    RuleRow3(g, n);
  }

  lemma Gen3Row4(g: seq<Cell>, n: seq<Cell>)
    requires GliderAt(3, g) && RuleApplied(g, n)
    ensures n[24] == Dead && n[25] == Dead && n[26] == Alive && n[27] == Alive && n[28] == Alive && n[29] == Dead
  {
    RuleRow4(g, n);
  }

  lemma Gen3Row5(g: seq<Cell>, n: seq<Cell>)
    requires GliderAt(3, g) && RuleApplied(g, n)
    ensures n[30] == Dead && n[31] == Dead && n[32] == Dead && n[33] == Dead && n[34] == Dead && n[35] == Dead
  {
    RuleRow5(g, n);
  }

  /** Generation 4 of the glider gives generation 5, row by row. */
  lemma GliderGen4(g: seq<Cell>, n: seq<Cell>)
    requires GliderAt(4, g) && RuleApplied(g, n)
    ensures GliderAt(5, n)
  {
    Gen4Row0(g, n);
    Gen4Row1(g, n);
    Gen4Row2(g, n);
    Gen4Row3(g, n);
    Gen4Row4(g, n);
    Gen4Row5(g, n);
    forall i | 0 <= i < 36
      ensures n[i] == Alive <==> LiveAt(5, i)
    {
      if i == 0 {
      } else if i == 1 {
      } else if i == 2 {
      } else if i == 3 {
      } else if i == 4 {
      } else if i == 5 {
      } else if i == 6 {
      } else if i == 7 {
      } else if i == 8 {
      } else if i == 9 {
      } else if i == 10 {
      } else if i == 11 {
      } else if i == 12 {
      } else if i == 13 {
      } else if i == 14 {
      } else if i == 15 {
      } else if i == 16 {
      } else if i == 17 {
      } else if i == 18 {
      } else if i == 19 {
      } else if i == 20 {
      } else if i == 21 {
      } else if i == 22 {
      } else if i == 23 {
      } else if i == 24 {
      } else if i == 25 {
      } else if i == 26 {
      } else if i == 27 {
      } else if i == 28 {
      } else if i == 29 {
      } else if i == 30 {
      } else if i == 31 {
      } else if i == 32 {
      } else if i == 33 {
      } else if i == 34 {
      }
    }
  }

  lemma Gen4Row0(g: seq<Cell>, n: seq<Cell>)
    requires GliderAt(4, g) && RuleApplied(g, n)
    ensures n[0] == Dead && n[1] == Dead && n[2] == Dead && n[3] == Dead && n[4] == Dead && n[5] == Dead
  {
    RuleRow0(g, n);
  }

  lemma Gen4Row1(g: seq<Cell>, n: seq<Cell>)
    requires GliderAt(4, g) && RuleApplied(g, n)
    ensures n[6] == Dead && n[7] == Dead && n[8] == Dead && n[9] == Dead && n[10] == Dead && n[11] == Dead
  {
    RuleRow1(g, n);
  }

  lemma Gen4Row2(g: seq<Cell>, n: seq<Cell>)
    requires GliderAt(4, g) && RuleApplied(g, n)
    ensures n[12] == Dead && n[13] == Dead && n[14] == Dead && n[15] == Dead && n[16] == Dead && n[17] == Dead
  {
    RuleRow2(g, n);
  }

  lemma Gen4Row3(g: seq<Cell>, n: seq<Cell>)
    requires GliderAt(4, g) && RuleApplied(g, n)
    ensures n[18] == Dead && n[19] == Dead && n[20] == Alive && n[21] == Dead && n[22] == Alive && n[23] == Dead
  {
    RuleRow3(g, n);
  }

  lemma Gen4Row4(g: seq<Cell>, n: seq<Cell>)
    requires GliderAt(4, g) && RuleApplied(g, n)
    ensures n[24] == Dead && n[25] == Dead && n[26] == Dead && n[27] == Alive && n[28] == Alive && n[29] == Dead
  {
    RuleRow4(g, n);
  }

  lemma Gen4Row5(g: seq<Cell>, n: seq<Cell>)
    requires GliderAt(4, g) && RuleApplied(g, n)
    ensures n[30] == Dead && n[31] == Dead && n[32] == Dead && n[33] == Alive && n[34] == Dead && n[35] == Dead
  {
    RuleRow5(g, n);
  }

  /** Generation 5 of the glider gives generation 6, row by row. */
  lemma GliderGen5(g: seq<Cell>, n: seq<Cell>)
    requires GliderAt(5, g) && RuleApplied(g, n)
    ensures GliderAt(6, n)
  {
    Gen5Row0(g, n);
    Gen5Row1(g, n);
    Gen5Row2(g, n);
    Gen5Row3(g, n);
    Gen5Row4(g, n);
    Gen5Row5(g, n);
    forall i | 0 <= i < 36
      ensures n[i] == Alive <==> LiveAt(6, i)
    {
      if i == 0 {
      } else if i == 1 {
      } else if i == 2 {
      } else if i == 3 {
      } else if i == 4 {
      } else if i == 5 {
      } else if i == 6 {
      } else if i == 7 {
      } else if i == 8 {
      } else if i == 9 {
      } else if i == 10 {
      } else if i == 11 {
      } else if i == 12 {
      } else if i == 13 {
      } else if i == 14 {
      } else if i == 15 {
      } else if i == 16 {
      } else if i == 17 {
      } else if i == 18 {
      } else if i == 19 {
      } else if i == 20 {
      } else if i == 21 {
      } else if i == 22 {
      } else if i == 23 {
      } else if i == 24 {
      } else if i == 25 {
      } else if i == 26 {
      } else if i == 27 {
      } else if i == 28 {
      } else if i == 29 {
      } else if i == 30 {
      } else if i == 31 {
      } else if i == 32 {
      } else if i == 33 {
      } else if i == 34 {
      }
    }
  }

  lemma Gen5Row0(g: seq<Cell>, n: seq<Cell>)
    requires GliderAt(5, g) && RuleApplied(g, n)
    ensures n[0] == Dead && n[1] == Dead && n[2] == Dead && n[3] == Dead && n[4] == Dead && n[5] == Dead
  {
    RuleRow0(g, n);
  }

  lemma Gen5Row1(g: seq<Cell>, n: seq<Cell>)
    requires GliderAt(5, g) && RuleApplied(g, n)
    ensures n[6] == Dead && n[7] == Dead && n[8] == Dead && n[9] == Dead && n[10] == Dead && n[11] == Dead
  {
    RuleRow1(g, n);
  }

  lemma Gen5Row2(g: seq<Cell>, n: seq<Cell>)
    requires GliderAt(5, g) && RuleApplied(g, n)
    ensures n[12] == Dead && n[13] == Dead && n[14] == Dead && n[15] == Dead && n[16] == Dead && n[17] == Dead
  {
    RuleRow2(g, n);
  }

  lemma Gen5Row3(g: seq<Cell>, n: seq<Cell>)
    requires GliderAt(5, g) && RuleApplied(g, n)
    ensures n[18] == Dead && n[19] == Dead && n[20] == Dead && n[21] == Dead && n[22] == Alive && n[23] == Dead
  {
    RuleRow3(g, n);
  }

  lemma Gen5Row4(g: seq<Cell>, n: seq<Cell>)
    requires GliderAt(5, g) && RuleApplied(g, n)
    ensures n[24] == Dead && n[25] == Dead && n[26] == Alive && n[27] == Dead && n[28] == Alive && n[29] == Dead
  {
    RuleRow4(g, n);
  }

  lemma Gen5Row5(g: seq<Cell>, n: seq<Cell>)
    requires GliderAt(5, g) && RuleApplied(g, n)
    ensures n[30] == Dead && n[31] == Dead && n[32] == Dead && n[33] == Alive && n[34] == Alive && n[35] == Dead
  {
    RuleRow5(g, n);
  }

  /** Generation 6 of the glider gives generation 7, row by row. */
  lemma GliderGen6(g: seq<Cell>, n: seq<Cell>)
    requires GliderAt(6, g) && RuleApplied(g, n)
    ensures GliderAt(7, n)
  {
    Gen6Row0(g, n);
    Gen6Row1(g, n);
    Gen6Row2(g, n);
    Gen6Row3(g, n);
    Gen6Row4(g, n);
    Gen6Row5(g, n);
    forall i | 0 <= i < 36
      ensures n[i] == Alive <==> LiveAt(7, i)
    {
      if i == 0 {
      } else if i == 1 {
      } else if i == 2 {
      } else if i == 3 {
      } else if i == 4 {
      } else if i == 5 {
      } else if i == 6 {
      } else if i == 7 {
      } else if i == 8 {
      } else if i == 9 {
      } else if i == 10 {
      } else if i == 11 {
      } else if i == 12 {
      } else if i == 13 {
      } else if i == 14 {
      } else if i == 15 {
      } else if i == 16 {
      } else if i == 17 {
      } else if i == 18 {
      } else if i == 19 {
      } else if i == 20 {
      } else if i == 21 {
      } else if i == 22 {
      } else if i == 23 {
      } else if i == 24 {
      } else if i == 25 {
      } else if i == 26 {
      } else if i == 27 {
      } else if i == 28 {
      } else if i == 29 {
      } else if i == 30 {
      } else if i == 31 {
      } else if i == 32 {
      } else if i == 33 {
      } else if i == 34 {
      }
    }
  }

  lemma Gen6Row0(g: seq<Cell>, n: seq<Cell>)
    requires GliderAt(6, g) && RuleApplied(g, n)
    ensures n[0] == Dead && n[1] == Dead && n[2] == Dead && n[3] == Dead && n[4] == Dead && n[5] == Dead
  {
    RuleRow0(g, n);
  }

  lemma Gen6Row1(g: seq<Cell>, n: seq<Cell>)
    requires GliderAt(6, g) && RuleApplied(g, n)
    ensures n[6] == Dead && n[7] == Dead && n[8] == Dead && n[9] == Dead && n[10] == Dead && n[11] == Dead
  {
    RuleRow1(g, n);
  }

  lemma Gen6Row2(g: seq<Cell>, n: seq<Cell>)
    requires GliderAt(6, g) && RuleApplied(g, n)
    ensures n[12] == Dead && n[13] == Dead && n[14] == Dead && n[15] == Dead && n[16] == Dead && n[17] == Dead
  {
    RuleRow2(g, n);
  }

  lemma Gen6Row3(g: seq<Cell>, n: seq<Cell>)
    requires GliderAt(6, g) && RuleApplied(g, n)
    ensures n[18] == Dead && n[19] == Dead && n[20] == Dead && n[21] == Alive && n[22] == Dead && n[23] == Dead
  {
    RuleRow3(g, n);
  }

  lemma Gen6Row4(g: seq<Cell>, n: seq<Cell>)
    requires GliderAt(6, g) && RuleApplied(g, n)
    ensures n[24] == Dead && n[25] == Dead && n[26] == Dead && n[27] == Dead && n[28] == Alive && n[29] == Alive
  {
    RuleRow4(g, n);
  }

  lemma Gen6Row5(g: seq<Cell>, n: seq<Cell>)
    requires GliderAt(6, g) && RuleApplied(g, n)
    ensures n[30] == Dead && n[31] == Dead && n[32] == Dead && n[33] == Alive && n[34] == Alive && n[35] == Dead
  {
    RuleRow5(g, n);
  }

  /** Generation 7 of the glider gives generation 8, row by row. */
  lemma GliderGen7(g: seq<Cell>, n: seq<Cell>)
    requires GliderAt(7, g) && RuleApplied(g, n)
    ensures GliderAt(8, n)
  {
    Gen7Row0(g, n);
    Gen7Row1(g, n);
    Gen7Row2(g, n);
    Gen7Row3(g, n);
    Gen7Row4(g, n);
    Gen7Row5(g, n);
    forall i | 0 <= i < 36
      ensures n[i] == Alive <==> LiveAt(8, i)
    {
      if i == 0 {
      } else if i == 1 {
      } else if i == 2 {
      } else if i == 3 {
      } else if i == 4 {
      } else if i == 5 {
      } else if i == 6 {
      } else if i == 7 {
      } else if i == 8 {
      } else if i == 9 {
      } else if i == 10 {
      } else if i == 11 {
      } else if i == 12 {
      } else if i == 13 {
      } else if i == 14 {
      } else if i == 15 {
      } else if i == 16 {
      } else if i == 17 {
      } else if i == 18 {
      } else if i == 19 {
      } else if i == 20 {
      } else if i == 21 {
      } else if i == 22 {
      } else if i == 23 {
      } else if i == 24 {
      } else if i == 25 {
      } else if i == 26 {
      } else if i == 27 {
      } else if i == 28 {
      } else if i == 29 {
      } else if i == 30 {
      } else if i == 31 {
      } else if i == 32 {
      } else if i == 33 {
      } else if i == 34 {
      }
    }
  }

  lemma Gen7Row0(g: seq<Cell>, n: seq<Cell>)
    requires GliderAt(7, g) && RuleApplied(g, n)
    ensures n[0] == Dead && n[1] == Dead && n[2] == Dead && n[3] == Dead && n[4] == Dead && n[5] == Dead
  {
    RuleRow0(g, n);
  }

  lemma Gen7Row1(g: seq<Cell>, n: seq<Cell>)
    requires GliderAt(7, g) && RuleApplied(g, n)
    ensures n[6] == Dead && n[7] == Dead && n[8] == Dead && n[9] == Dead && n[10] == Dead && n[11] == Dead
  {
    RuleRow1(g, n);
  }

  lemma Gen7Row2(g: seq<Cell>, n: seq<Cell>)
    requires GliderAt(7, g) && RuleApplied(g, n)
    ensures n[12] == Dead && n[13] == Dead && n[14] == Dead && n[15] == Dead && n[16] == Dead && n[17] == Dead
  {
    RuleRow2(g, n);
  }

  lemma Gen7Row3(g: seq<Cell>, n: seq<Cell>)
    requires GliderAt(7, g) && RuleApplied(g, n)
    ensures n[18] == Dead && n[19] == Dead && n[20] == Dead && n[21] == Dead && n[22] == Alive && n[23] == Dead
  {
    RuleRow3(g, n);
  }

  lemma Gen7Row4(g: seq<Cell>, n: seq<Cell>)
    requires GliderAt(7, g) && RuleApplied(g, n)
    ensures n[24] == Dead && n[25] == Dead && n[26] == Dead && n[27] == Dead && n[28] == Dead && n[29] == Alive
  {
    RuleRow4(g, n);
  }

  lemma Gen7Row5(g: seq<Cell>, n: seq<Cell>)
    requires GliderAt(7, g) && RuleApplied(g, n)
    ensures n[30] == Dead && n[31] == Dead && n[32] == Dead && n[33] == Alive && n[34] == Alive && n[35] == Alive
  {
    RuleRow5(g, n);
  }

  /** Generation 8 of the glider gives generation 9, row by row. */
  lemma GliderGen8(g: seq<Cell>, n: seq<Cell>)
    requires GliderAt(8, g) && RuleApplied(g, n)
    ensures GliderAt(9, n)
  {
    Gen8Row0(g, n);
    Gen8Row1(g, n);
    Gen8Row2(g, n);
    Gen8Row3(g, n);
    Gen8Row4(g, n);
    Gen8Row5(g, n);
    forall i | 0 <= i < 36
      ensures n[i] == Alive <==> LiveAt(9, i)
    {
      if i == 0 {
      } else if i == 1 {
      } else if i == 2 {
      } else if i == 3 {
      } else if i == 4 {
      } else if i == 5 {
      } else if i == 6 {
      } else if i == 7 {
      } else if i == 8 {
      } else if i == 9 {
      } else if i == 10 {
      } else if i == 11 {
      } else if i == 12 {
      } else if i == 13 {
      } else if i == 14 {
      } else if i == 15 {
      } else if i == 16 {
      } else if i == 17 {
      } else if i == 18 {
      } else if i == 19 {
      } else if i == 20 {
      } else if i == 21 {
      } else if i == 22 {
      } else if i == 23 {
      } else if i == 24 {
      } else if i == 25 {
      } else if i == 26 {
      } else if i == 27 {
      } else if i == 28 {
      } else if i == 29 {
      } else if i == 30 {
      } else if i == 31 {
      } else if i == 32 {
      } else if i == 33 {
      } else if i == 34 {
      }
    }
  }

  lemma Gen8Row0(g: seq<Cell>, n: seq<Cell>)
    requires GliderAt(8, g) && RuleApplied(g, n)
    ensures n[0] == Dead && n[1] == Dead && n[2] == Dead && n[3] == Dead && n[4] == Alive && n[5] == Dead
  {
    RuleRow0(g, n);
  }

  lemma Gen8Row1(g: seq<Cell>, n: seq<Cell>)
    requires GliderAt(8, g) && RuleApplied(g, n)
    ensures n[6] == Dead && n[7] == Dead && n[8] == Dead && n[9] == Dead && n[10] == Dead && n[11] == Dead
  {
    RuleRow1(g, n);
  }

  lemma Gen8Row2(g: seq<Cell>, n: seq<Cell>)
    requires GliderAt(8, g) && RuleApplied(g, n)
    ensures n[12] == Dead && n[13] == Dead && n[14] == Dead && n[15] == Dead && n[16] == Dead && n[17] == Dead
  {
    RuleRow2(g, n);
  }

  lemma Gen8Row3(g: seq<Cell>, n: seq<Cell>)
    requires GliderAt(8, g) && RuleApplied(g, n)
    ensures n[18] == Dead && n[19] == Dead && n[20] == Dead && n[21] == Dead && n[22] == Dead && n[23] == Dead
  {
    RuleRow3(g, n);
  }

  lemma Gen8Row4(g: seq<Cell>, n: seq<Cell>)
    requires GliderAt(8, g) && RuleApplied(g, n)
    ensures n[24] == Dead && n[25] == Dead && n[26] == Dead && n[27] == Alive && n[28] == Dead && n[29] == Alive
  {
    RuleRow4(g, n);
  }

  lemma Gen8Row5(g: seq<Cell>, n: seq<Cell>)
    requires GliderAt(8, g) && RuleApplied(g, n)
    ensures n[30] == Dead && n[31] == Dead && n[32] == Dead && n[33] == Dead && n[34] == Alive && n[35] == Alive
  {
    RuleRow5(g, n);
  }

  /** Generation 9 of the glider gives generation 10, row by row. */
  lemma GliderGen9(g: seq<Cell>, n: seq<Cell>)
    requires GliderAt(9, g) && RuleApplied(g, n)
    ensures GliderAt(10, n)
  {
    Gen9Row0(g, n);
    Gen9Row1(g, n);
    Gen9Row2(g, n);
    Gen9Row3(g, n);
    Gen9Row4(g, n);
    Gen9Row5(g, n);
    forall i | 0 <= i < 36
      ensures n[i] == Alive <==> LiveAt(10, i)
    {
      if i == 0 {
      } else if i == 1 {
      } else if i == 2 {
      } else if i == 3 {
      } else if i == 4 {
      } else if i == 5 {
      } else if i == 6 {
      } else if i == 7 {
      } else if i == 8 {
      } else if i == 9 {
      } else if i == 10 {
      } else if i == 11 {
      } else if i == 12 {
      } else if i == 13 {
      } else if i == 14 {
      } else if i == 15 {
      } else if i == 16 {
      } else if i == 17 {
      } else if i == 18 {
      } else if i == 19 {
      } else if i == 20 {
      } else if i == 21 {
      } else if i == 22 {
      } else if i == 23 {
      } else if i == 24 {
      } else if i == 25 {
      } else if i == 26 {
      } else if i == 27 {
      } else if i == 28 {
      } else if i == 29 {
      } else if i == 30 {
      } else if i == 31 {
      } else if i == 32 {
      } else if i == 33 {
      } else if i == 34 {
      }
    }
  }

  lemma Gen9Row0(g: seq<Cell>, n: seq<Cell>)
    requires GliderAt(9, g) && RuleApplied(g, n)
    ensures n[0] == Dead && n[1] == Dead && n[2] == Dead && n[3] == Dead && n[4] == Alive && n[5] == Alive
  {
    RuleRow0(g, n);
  }

  lemma Gen9Row1(g: seq<Cell>, n: seq<Cell>)
    requires GliderAt(9, g) && RuleApplied(g, n)
    ensures n[6] == Dead && n[7] == Dead && n[8] == Dead && n[9] == Dead && n[10] == Dead && n[11] == Dead
  {
    RuleRow1(g, n);
  }

  lemma Gen9Row2(g: seq<Cell>, n: seq<Cell>)
    requires GliderAt(9, g) && RuleApplied(g, n)
    ensures n[12] == Dead && n[13] == Dead && n[14] == Dead && n[15] == Dead && n[16] == Dead && n[17] == Dead
  {
    RuleRow2(g, n);
  }

  lemma Gen9Row3(g: seq<Cell>, n: seq<Cell>)
    requires GliderAt(9, g) && RuleApplied(g, n)
    ensures n[18] == Dead && n[19] == Dead && n[20] == Dead && n[21] == Dead && n[22] == Dead && n[23] == Dead
  {
    RuleRow3(g, n);
  }

  lemma Gen9Row4(g: seq<Cell>, n: seq<Cell>)
    requires GliderAt(9, g) && RuleApplied(g, n)
    ensures n[24] == Dead && n[25] == Dead && n[26] == Dead && n[27] == Dead && n[28] == Dead && n[29] == Alive
  {
    RuleRow4(g, n);
  }

  lemma Gen9Row5(g: seq<Cell>, n: seq<Cell>)
    requires GliderAt(9, g) && RuleApplied(g, n)
    ensures n[30] == Dead && n[31] == Dead && n[32] == Dead && n[33] == Alive && n[34] == Dead && n[35] == Alive
  {
    RuleRow5(g, n);
  }
}
