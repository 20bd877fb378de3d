# wasm-game-of-life in Dafny

A model of the browser Game of Life in diogen737/wasm-game-of-life, in three
parts that follow the program's own layers.

- **The engine** (`src/lib.rs`).
  - `Universe` is a toroidal grid of `Dead`/`Alive` cells, stored row-major.
    It has a second buffer that `tick` computes the next generation into, and
    a diff log (`cells_diff`) of the flat indices changed by the last tick or
    explicit change.
  - `life.dfy` holds the value level: the B3/S23 rule, the torus neighbour
    count, the next generation as a whole, the diff between two generations,
    and where `set_cells` and the two stampers put live cells under u32
    wrap-around.
  - `universe.dfy` holds the class `Engine.Universe`. Its buffers are arrays
    updated in place, and each method is proved against those functions.
- **The renderer** (`www/components/universe-renderer.js`).
  - `drawing.dfy` holds the geometry: grid sizing, cell squares, grid lines,
    click-to-cell mapping and diff decoding.
  - It also holds a small model of the 2D canvas context: fill and stroke
    styles, plus the colour each filled rectangle was last filled with. The
    calls `drawGrid` and `drawCells` issue are given meaning through it.
  - `renderer.dfy` holds `Rendering.UniverseRenderer`. It records every
    context call in `ops`, and it proves when a repaint of the diff leaves
    every cell's square showing that cell's state (`Current`).
- **The page controller** (`www/index.js`), in `controller.dfy`.
  - The modifier table that `keydown`/`keyup` flip and that clicks resolve.
  - The play/pause state of the animation loop and the tick button.
  - The handlers that forward clicks and button presses to the renderer.

`scenarios.dfy` states three expectations of the engine's browser tests
(`tests/web.rs`) and drives them through the `Universe` class:
- `set_cells` on a 3x3 grid;
- one tick of a glider on a 6x6 grid;
- ten ticks of the same glider, which by then has wrapped across the bottom
  edge onto the top row.

Behaviour of the code that the model keeps:
- `play()` enters the render loop at once, so one generation is drawn before
  the first animation frame. A pause right after a play follows one tick
  (`App.Game.Play`).
- Both modifier keys can be held at once. The click handler picks the last
  enabled entry of the table, which is Shift's pulsar (`App.HeldKeysResolve`).
  Pressing a key leaves the other key's entry as it was.
- `pause()` cancels the pending frame and enables the tick button; it makes
  no engine or render call.
- The grid wraps around at every edge: the engine is a torus.

## Model

| member | source | states |
|---|---|---|
| Life.WrapU32 | src/lib.rs:318-319 | the u32 result of a sum is below 2^32, equals the sum when it is a u32, and is the sum plus 2^32 when the sum is a negative value above -2^32 |
| Life.Toggle | src/lib.rs:22-27 | toggling gives the other state |
| Life.ToggleInvolution | src/lib.rs:22-27 | toggling twice gives back the cell |
| Life.AsU8 | src/lib.rs:14-19 | `cell as u8` is at most 1, and is 1 exactly for an Alive cell |
| Life.GetIndex | src/lib.rs:123-125 | the row-major flat index of (row, col); its bound is stated by `Life.IndexInRange` and its inverse by `Life.DecodeIndex` |
| Life.DecodeIndex | src/lib.rs:123-125 | the row and the column are the quotient and remainder of `get_index` by the width |
| Life.IndexInRange | src/lib.rs:123-125 | in-range coordinates give an index below width * height, so `get_index` never wraps when the grid fits a u32 |
| Life.IndexInjective | src/lib.rs:123-125 | distinct in-range cells have distinct indices |
| Life.IndexOfDecoded | src/lib.rs:123-125 | every index of the grid is `get_index` of an in-range (row, col) |
| Life.NeighborOnTorus | src/lib.rs:131-183 | a neighbour read on the torus is the cell at the wrapped in-range coordinates |
| Life.NeighborCountByCompass | src/lib.rs:158-180 | the engine's eight reads in its own order (ne, e, se, s, sw, w, nw, n) over the wrapped coordinates sum to the torus neighbour count, and every index read is inside the grid |
| Life.NeighborCountAtMostEight | src/lib.rs:131-183 | the neighbour count fits the u8 counter: at most 8 |
| Life.WrapBefore | src/lib.rs:134-138 | the explicit wrap to the previous row/column is below the size and equals (x - 1) mod n |
| Life.WrapAfter | src/lib.rs:140-144 | the explicit wrap to the next row/column is below the size and equals (x + 1) mod n |
| Life.NextState | src/lib.rs:79-94 | the next state is Alive exactly for a live cell with 2 or 3 live neighbours or a dead cell with exactly 3 |
| Life.NextCells | src/lib.rs:73-103 | the first k computed cells number k |
| Life.NextGeneration | src/lib.rs:69-109 | the next generation has as many cells as the grid |
| Life.NextCellsAt | src/lib.rs:73-103 | cell i of the computed prefix is the rule applied to old cell i and its old neighbourhood, whatever was computed before it |
| Life.NextGenerationAt | src/lib.rs:73-96 | cell (row, col) of the next generation is the rule applied to the same old cell and its old neighbour count |
| Life.ChangedIndicesExact | src/lib.rs:98-101 | an index is in the diff exactly when it is below k and the cell changed there |
| Life.ChangedIndicesCover | src/lib.rs:98-101 | every cell that changed is listed in the diff |
| Life.ChangedIndicesIncreasing | src/lib.rs:71-103 | the diff `tick` builds is strictly increasing and bounded by the cell count |
| Life.AllIndices | src/lib.rs:203-209 | the diff of a bulk reset lists every index 0..n-1 in order |
| Life.StampIndex | src/lib.rs:318-320 | the index `set_cells` writes for a point is inside the grid |
| Life.Stamp | src/lib.rs:316-323 | stamping keeps the grid's size |
| Life.StampAt | src/lib.rs:316-323 | after `set_cells` a cell is Alive if a listed point lands on it and keeps its old state otherwise, so stamping never kills a cell |
| Life.WrapThenAdd | src/lib.rs:318-319 | adding the size to a wrapped u32 coordinate gives back the exact sum when that sum is a u32 |
| Life.StampIndexOnTorus | src/lib.rs:316-323 | when `row + height` and `col + width` do not overflow, `set_cells` places a point where the torus does |
| Life.PatternPoints | src/lib.rs:230-238 | a stamper hands `set_cells` one u32 point per offset |
| Life.PatternOnTorus | src/lib.rs:244-304 | on a grid at least 6 cells in each direction (the pulsar's reach), a glider or pulsar cell lands at its offset from the click on the torus |
| Life.GliderOnTorus | src/lib.rs:230-238 | on every non-empty grid a glider cell lands at its offset from the click on the torus, since its offsets reach one cell |
| Life.PatternsWithinSix | src/lib.rs:230-304 | the glider has 5 and the pulsar 48 offsets, none more than six cells away |
| Life.PulsarOnSmallGrid | src/lib.rs:247 | on a 3x3 grid the first pulsar cell for (0, 0) lands at index 3 while the torus would put it at index 2: the u32 wrap is not the torus when the grid is smaller than the pattern |
| Engine.Universe.constructor | src/lib.rs:52-67 | a new universe has the given size, every cell Dead, a scratch buffer equal to the cells, and an empty diff |
| Engine.Universe.GetCells | src/lib.rs:312-314 | `get_cells` returns exactly the current cells |
| Engine.Universe.LiveNeighborsCount | src/lib.rs:131-183 | the engine's count equals the torus neighbour count and is at most 8 |
| Engine.Universe.ComputeCell | src/lib.rs:75-101 | one cell of the next generation goes into the scratch buffer, and its index is appended to the diff exactly when it changed, leaving the old cells untouched |
| Engine.Universe.ComputeRow | src/lib.rs:74-102 | one row of the next generation goes into the scratch buffer, and the diff grows by that row's changed indices |
| Engine.Universe.CopyNext | src/lib.rs:105-108 | the cells become a copy of the scratch buffer |
| Engine.Universe.Tick | src/lib.rs:69-109 | the cells become the next generation of the old cells, computed from the old cells only; the scratch buffer equals the cells; the diff is exactly the changed indices, in increasing order |
| Engine.Universe.ToggleCell | src/lib.rs:194-198 | exactly the cell at (row, col) flips, and its index is appended to the diff without clearing it |
| Engine.Universe.SetAllDead | src/lib.rs:203-209 | every cell is Dead and the diff lists every index in order |
| Engine.Universe.SetRandom | src/lib.rs:214-224 | cell i is Alive exactly when the i-th draw exceeded one half, and the diff lists every index in order |
| Engine.Universe.SetCells | src/lib.rs:316-323 | the cells become the old cells stamped with the points, and the diff is not touched |
| Engine.Universe.SpawnGlider | src/lib.rs:230-238 | the cells are stamped with the five glider points around (row, col) in u32 arithmetic, and the diff is not touched |
| Engine.Universe.SpawnPulsar | src/lib.rs:244-304 | the cells are stamped with the 48 pulsar points around (row, col) in u32 arithmetic, and the diff is not touched |
| Drawing.CanvasSize | www/components/universe-renderer.js:26-27 | the canvas side for n cells, one pixel per grid line plus seven per cell; its fit is stated by `Drawing.CanvasFitsContainer` |
| Drawing.GridDimension | www/components/universe-renderer.js:20-21 | the grid side is the number of whole 8-pixel pitches that fit the container |
| Drawing.CanvasFitsContainer | www/components/universe-renderer.js:20-27 | the canvas exceeds its container by at most the closing line's pixel and wastes less than one pitch |
| Drawing.CellSquare | www/components/universe-renderer.js:144-149 | the 7x7 square `fillRect` paints for a cell; its placement is stated by `Drawing.CellSquareInsideGap` and the lemmas after it |
| Drawing.CellSquareInsideGap | www/components/universe-renderer.js:143-160 | every pixel of a cell's square lies in that cell's pitch, strictly between the grid lines around it |
| Drawing.CellSquareMissesGridLines | www/components/universe-renderer.js:98-111 | no pixel of a cell's square is on a grid line |
| Drawing.CellSquaresDisjoint | www/components/universe-renderer.js:143-160 | the squares of two different cells share no pixel |
| Drawing.CanvasHoldsGrid | www/components/universe-renderer.js:26-27 | the squares end before the last grid line, which is the canvas's last pixel |
| Drawing.ClickCell | www/components/universe-renderer.js:72-73 | the clicked row/column is at most the last one, is the pitch containing the pixel when that pitch is inside the grid, is the last one for a pixel beyond the grid, and is negative for a negative pixel |
| Drawing.ClickOnCellSquare | www/components/universe-renderer.js:72-73 | clicking any pixel of a cell's square selects that cell |
| Drawing.Decode | www/components/universe-renderer.js:130-131 | the decoded column is below the width and `get_index` of the decoded cell is the index |
| Drawing.DecodeGetIndex | www/components/universe-renderer.js:130-131 | decoding undoes `get_index` |
| Drawing.DecodeInjective | www/components/universe-renderer.js:130-131 | different indices decode to different squares |
| Drawing.ColorOf | www/components/universe-renderer.js:132-136 | Alive cells are painted the alive colour and Dead cells the dead colour |
| Drawing.VerticalLines | www/components/universe-renderer.js:98-103 | k vertical lines are 2k path calls, each a move or a line |
| Drawing.HorizontalLines | www/components/universe-renderer.js:106-111 | k horizontal lines are 2k path calls, each a move or a line |
| Drawing.VerticalLinesAt | www/components/universe-renderer.js:98-103 | vertical line i runs from the top edge to the grid's full height along pixel column 8i |
| Drawing.HorizontalLinesAt | www/components/universe-renderer.js:106-111 | horizontal line i runs across the grid's full width along pixel row 8i |
| Drawing.GridOps | www/components/universe-renderer.js:93-114 | the calls of `drawGrid`; their shape and effect are stated by `Drawing.GridOpsShape` |
| Drawing.GridOpsShape | www/components/universe-renderer.js:93-114 | `drawGrid` makes 2(w+1) + 2(h+1) + 3 calls, strokes with the grid colour and fills nothing |
| Drawing.Batch | www/components/universe-renderer.js:127-137 | a batch has no more entries than the diff, and each decoded column is inside the grid |
| Drawing.BatchSnoc | www/components/universe-renderer.js:129-137 | one more diff entry adds its decoded cell to the batch of its state and to no other |
| Drawing.BatchAppend | www/components/universe-renderer.js:129-137 | the batches of a concatenated diff are the concatenated batches, so each batch keeps the diff's order |
| Drawing.BatchSizes | www/components/universe-renderer.js:129-137 | every diff entry lands in exactly one of the two batches |
| Drawing.BatchMembership | www/components/universe-renderer.js:129-137 | a cell is in the batch of a state exactly when its index is in the diff and the cell is in that state |
| Drawing.BatchReadsOnlyDiff | www/components/universe-renderer.js:118-137 | the batches depend only on the cells the diff names |
| Drawing.Frame | www/components/universe-renderer.js:139-163 | the calls of `drawCells` for a cell buffer and its diff; their shape and effect are stated by `Drawing.FrameShape`, `Drawing.FrameRun` and `Drawing.FrameRepaintsDiff` |
| Drawing.FrameShape | www/components/universe-renderer.js:139-163 | `drawCells` makes one `fillRect` per diff entry, with the alive style set before the alive batch and the dead style before the dead one, inside one path |
| Drawing.RunFills | www/components/universe-renderer.js:143-161 | filling a batch paints its squares with the current style and leaves other rectangles and both styles alone |
| Drawing.ListedCell | www/components/universe-renderer.js:129-150 | a cell's square is filled by the batch of a state exactly when the cell's index is in the diff and the cell is in that state |
| Drawing.ListedSquare | www/components/universe-renderer.js:143-160 | a square is filled by a batch exactly when its cell is listed in it |
| Drawing.NotListedUntouched | www/components/universe-renderer.js:129-161 | no batch fills a square that no diff entry decodes to |
| Drawing.FrameRun | www/components/universe-renderer.js:139-163 | after `drawCells` the fill style is the dead colour, and each rectangle shows the dead colour if the dead batch fills it, else the alive colour if the alive batch does, else what it showed before |
| Drawing.FrameRepaintsDiff | www/components/universe-renderer.js:116-164 | `drawCells` paints every diff cell's square in the colour of its current state and leaves every other cell's square as it was |
| Drawing.FrameLeavesOthers | www/components/universe-renderer.js:116-164 | a rectangle that is no diff cell's square keeps what it showed |
| Drawing.DiffRepaintDisplays | www/components/universe-renderer.js:116-164 | if the canvas showed the old cells and the diff names every changed cell, after `drawCells` it shows the new cells |
| Drawing.FullDiffDisplays | www/components/universe-renderer.js:53-61 | a diff naming every index makes the canvas show the cells whatever it showed before |
| Drawing.UnloggedChangeNotDisplayed | www/components/universe-renderer.js:75-86 | a cell changed without entering the diff (as a stamp's cells are) keeps showing its old state after `drawCells` |
| Rendering.PartitionDiff | www/components/universe-renderer.js:126-137 | the classification loop builds exactly the alive and the dead batch of the diff |
| Rendering.RepaintKeepsDisplayed | www/components/universe-renderer.js:48-51 | after an engine change whose diff lists every changed cell, `drawCells` keeps a current canvas current |
| Rendering.FullRepaintDisplays | www/components/universe-renderer.js:53-61 | repainting every cell makes the canvas current whatever the earlier calls left |
| Rendering.UniverseRenderer.constructor | www/components/universe-renderer.js:7-40 | the grid is sized to the container, the canvas to the grid, the cells are drawn at random, the grid and then every cell is drawn, and the canvas is current |
| Rendering.UniverseRenderer.Jumpstart | www/components/universe-renderer.js:31-40 | random cells, then the grid calls and a full-diff frame; the canvas is current |
| Rendering.UniverseRenderer.DrawGrid | www/components/universe-renderer.js:93-114 | the calls issued are exactly the grid's path: w+1 vertical and h+1 horizontal lines, stroked once |
| Rendering.UniverseRenderer.DrawCells | www/components/universe-renderer.js:116-164 | the calls issued are exactly the frame of the current cells and diff |
| Rendering.UniverseRenderer.FillCells | www/components/universe-renderer.js:143-161 | one `fillRect` per listed cell, in order |
| Rendering.UniverseRenderer.Tick | www/components/universe-renderer.js:48-51 | one generation, the diff of its changes, one frame of calls, and a canvas that was current stays current |
| Rendering.UniverseRenderer.Render | www/components/universe-renderer.js:42-46 | the same as `tick` |
| Rendering.UniverseRenderer.SetAllDead | www/components/universe-renderer.js:53-56 | every cell Dead, every cell repainted, and the canvas current whatever it showed |
| Rendering.UniverseRenderer.SetRandom | www/components/universe-renderer.js:58-61 | every cell drawn at random, every cell repainted, and the canvas current whatever it showed |
| Rendering.UniverseRenderer.HandleCanvasClick | www/components/universe-renderer.js:64-88 | a click off the canvas changes nothing; otherwise the clamped cell under it gets exactly one mutation chosen by the modifier (glider, pulsar or toggle), then one frame of calls; a toggle keeps the canvas current |
| App.WithKey | www/index.js:76-84 | a key event keeps every entry's key and pattern and leaves entries of other keys as they were; `App.KeyEvents` states which flag changes |
| App.KeyEvents | www/index.js:76-84 | a key event sets exactly the flag of the key pressed or released, and any other key leaves the table as it is |
| App.Resolved | www/index.js:88-93 | the pattern a click resolves to; `App.ResolvedIsLastEnabled` states that it is the last enabled entry's |
| App.ResolvedIsLastEnabled | www/index.js:87-93 | a click resolves to the pattern of an enabled entry with no enabled entry after it, and to no pattern exactly when none is enabled |
| App.HeldKeysResolve | www/index.js:65-93 | with both keys held Shift's pulsar wins, with one held its pattern, with neither a toggle |
| App.ResolveModifier | www/index.js:88-93 | the loop over the table returns the last enabled entry's pattern |
| App.Game.IsPaused | www/index.js:33-35 | the loop is paused exactly when the tick button is enabled |
| App.Game.constructor | www/index.js:110-112 | start-up leaves the game running with a pending frame, the tick button disabled, no key held, and the canvas current |
| App.Game.RenderLoop | www/index.js:20-23 | the next generation, its changed indices as the diff, and exactly one frame of that diff drawn, a current canvas kept current, then the new frame pending |
| App.Game.Play | www/index.js:37-41 | the tick button disabled and at once the next generation, its changed indices as the diff, and exactly one frame of that diff drawn, with a frame pending |
| App.Game.Pause | www/index.js:43-48 | no frame pending, the tick button enabled, the universe untouched |
| App.Game.OnPauseButton | www/index.js:50-56 | the modifier table is kept; when paused it plays (the next generation, its changed indices as the diff, and exactly one frame of that diff drawn, a frame pending); when running it pauses and leaves cells, diff and drawing calls as they were |
| App.Game.OnTickButton | www/index.js:59-61 | while paused the next generation, its changed indices as the diff, and exactly one frame of that diff drawn; while running the disabled button leaves cells, diff and drawing calls as they were |
| App.Game.OnAnimationFrame | www/index.js:19-23 | the modifier table is kept; a pending frame gives the next generation, its changed indices as the diff, and exactly one frame of that diff drawn, and requests the next; a cancelled one never fires and changes nothing |
| App.Game.OnKeyDown | www/index.js:76-79 | the pressed key's entry becomes enabled |
| App.Game.OnKeyUp | www/index.js:81-84 | the released key's entry becomes disabled |
| App.Game.OnClick | www/index.js:87-96 | off the canvas nothing changes; on it the resolved pattern is stamped (diff untouched) or the clicked cell toggled (its index appended to the diff), then exactly one frame of the new cells and diff is drawn, and a toggle keeps a current canvas current |
| App.Game.OnResetDead | www/index.js:100-102 | every cell Dead, the diff every index, one frame of it drawn, and the canvas current |
| App.Game.OnResetRandom | www/index.js:105-107 | every cell from its random draw, the diff every index, one frame of it drawn, and the canvas current |
| Scenarios.StampedExactly | src/lib.rs:316-323 | stamping an all-Dead grid makes exactly the listed indices Alive |
| Scenarios.SetCellsCompact | tests/web.rs:49-67 | on a 3x3 grid, `set_cells` with (1, 1) and (3, 3) leaves exactly (0, 0) and (1, 1) Alive |
| Scenarios.CompactStamp | tests/web.rs:50-66 | the same fact about the stamp function |
| Scenarios.CompactIndices | tests/web.rs:55-56 | (1, 1) lands at index 4 and (3, 3) wraps to index 0 |
| Scenarios.GliderStamped | tests/web.rs:17-21 | the input glider's points make exactly indices 8, 15, 19, 20, 21 Alive |
| Scenarios.GliderOneTickStamped | tests/web.rs:24-28 | the expected glider's points make exactly indices 13, 15, 20, 21, 26 Alive |
| Scenarios.InputGlider | tests/web.rs:17-21 | `input_glider` is a 6x6 universe holding the input glider |
| Scenarios.ExpectedGliderOneTick | tests/web.rs:24-28 | `expected_glider_one_tick` is a 6x6 universe holding the glider one generation on |
| Scenarios.OneTickCompact | tests/web.rs:89-96 | one tick of the input glider gives exactly the cells of the expected universe |
| Scenarios.GliderTenTicksStamped | tests/web.rs:31-35 | the ten-tick glider's points make exactly indices 4, 5, 29, 33, 35 Alive |
| Scenarios.ExpectedGliderTenTicks | tests/web.rs:31-35 | `expected_glider_ten_ticks_compact` is a 6x6 universe holding the glider ten generations on |
| Scenarios.TenTicksCompact | tests/web.rs:98-108 | ten ticks of the input glider, in a loop, give exactly the cells of the expected universe |
| Scenarios.SameGliders | tests/web.rs:95 | two grids holding the same generation of the glider are equal |
| Scenarios.NextGenerationApplies | src/lib.rs:73-103 | on a 6x6 grid every next cell is the rule applied at that index |
| Scenarios.GliderStep | src/lib.rs:73-103 | for each of the first ten generations, one tick of the glider gives the next generation |

## Left out

- The raw-pointer accessors `cells`, `cells_diff` and `cells_diff_len` (src/lib.rs:111-121) and the `Uint8Array`/`Uint32Array` views over wasm memory. `drawCells` reads the engine's cells and diff as sequences instead.
- The frame meter (`www/components/fps.js`) and the `fps.render()` call in `render`. The meter only measures timing, which is outside this model.
- DOM and CSS: theme colours are the datatype `Color`; button icons are not modelled; the canvas element is the renderer's `ops` list.
- `requestAnimationFrame`/`cancelAnimationFrame`: a frame handle is a parameter of the call that schedules one, and a frame firing is `App.Game.OnAnimationFrame`.
- `Math.random`: the random source of `set_random` is the parameter `draws`, one boolean per cell.
- Rendering.UniverseRenderer.HandleCanvasClick: takes integer canvas-pixel coordinates. The floating-point bounding-rectangle scaling is not modelled, and a click on the canvas is assumed to land at a non-negative pixel of a non-empty grid.
- Rendering.UniverseRenderer.constructor: the constructor and `jumpstart` are one step, because the universe is created once and never replaced.
- Drawing: grid-line pixels are not tracked on the canvas; only filled rectangles, which never overlap a grid line, are.
- App.KeyEvents: `modifiers[e.key]` also finds inherited object properties, such as `toString`, for which the handler would set a field on a function. Only the two table keys and ordinary other keys are modelled.
- Engine.Universe.constructor: requires width * height to fit a u32. The source would wrap the product and allocate a smaller grid, whose indices then wrap as well.
- Engine.Universe.SetCells: requires a non-empty grid when points are given. The source panics on the remainder by zero.
- Engine.Universe.SpawnGlider: requires a non-empty grid. On an empty grid the source panics on the remainder by zero inside `set_cells`.
- Engine.Universe.SpawnPulsar: requires a non-empty grid. On an empty grid the source panics on the remainder by zero inside `set_cells`.
- Engine.Universe.Tick: width * height is assumed to fit a u32, so `get_index` never wraps.
- u32 overflow in `set_cells` and the stampers follows the release build, which wraps. A debug build, the profile the browser tests run in, panics on that overflow instead; the model does not capture the panic.
- The benchmark at the end of src/lib.rs is commented out.
- `set_cells_flat` and `ten_ticks_flat` (tests/web.rs:69-87, 110-121) call `set_compact`, which is not in src/lib.rs, and `set_cells_flat` also calls `get_cell`. They are not part of this model.
- Scenarios.SetCellsCompact: `set_cells_compact` (tests/web.rs:53-66) reads the universe through `size()` and `get_cell(row, col)`, which are not in src/lib.rs. The model reads it through `get_cells` instead: the size check becomes `|cells| == 9` and `get_cell(r, c)` becomes `cells[GetIndex(3, r, c)]` (`Scenarios.CompactStamped`).
