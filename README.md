# Game of Life with hand-triggered perturbation — Dafny model

This project models the simulation engine of a p5.js sketch (`sketch.js`) that
runs Conway's Game of Life on a toroidal grid and lets the user disturb it by
clicking or by moving a hand in front of a camera. The model covers:

- the **grid store**: `make2DArray` (a zero grid, each dimension at least 1),
  the grid dimensions derived from the canvas size at a resolution of 15
  pixels, the random fill used at start-up and on a key press, and the
  resampling done on a window resize;
- the **neighbour rule engine**: `countLivingNeighbors`, a wrapped 3x3 scan
  that subtracts the centre afterwards, and the birth/death/stay rule;
- the **simulation step** of `draw`: a fresh grid computed from the pre-step
  grid only, plus one forced living cell every 10th frame while the motion
  effect is on;
- the **perturbations**: `makeMotionEffect` (target cell plus 15 planted cells
  in the 11x11 block around it) and `addSomeRandomCells`;
- the **small state machines**: motion-effect expiry after 5000 ms and the
  hand-trigger gate of `lookForHands` (landmark count, confidence 0.7,
  movement threshold 30 pixels, 15-frame cooldown).

The sketch keeps its state in globals (`grid`, `cols`, `rows`,
`motionDetected`, `lastMotionTime`, `handDetected`, `lastHandPosition`,
`handCooldown`, `handDetectionReady`); here they are the fields of the class
`LifeSketch.Sketch`, whose methods change them in place and whose object
invariant `Valid()` says the grid is `cols x rows`, both at least 1, with every
cell 0 or 1. The grid is an `array2<int>` indexed `[column, row]` as the sketch
indexes `grid[i][j]`. Every array access of every method is proved in bounds.

Outside inputs are parameters: each `floor(random(...))` draw is an argument
whose precondition is the range p5 draws from (a 0/1 table for the fill,
offsets in [-5, 5] for planted cells, an in-grid cell for the forced birth and
for `addSomeRandomCells`); `millis()` is `now`; `frameCount` is `frameCount`;
the hand tracker's latest result is the `hands` list; the video-to-canvas
`map(...)` is the function `toCanvas`.

Files: `wrappers.dfy` (Option), `grid.dfy` (module `GridStore`), `rules.dfy`
(module `LifeRules`), `hand.dfy` (module `HandTracking`), `sketch.dfy` (module
`LifeSketch`), `patterns.dfy` (module `Patterns`: block and blinker),
`scenarios.dfy` (module `Scenarios`: what callers can derive from the
contracts).

The model follows the code as written, including these details where one might expect otherwise:

- The motion flag and its timestamp are set before the bounds check, so a
  click or hand off the grid still starts the motion effect.
- The effect stays on at exactly 5000 ms and ends only when strictly more
  than 5000 ms have passed (`>`), rather than "active iff now < expiry".
- The hand cooldown fires only when `frameCount > handCooldown`, that is at
  least 16 frames after the previous trigger, not 15.
- Reseeding refills the existing grid in place rather than building a new one.
- The neighbour count does not special-case grids narrower than 3; the model
  states what it then returns (`SingleCellCountsItself`,
  `NeighbourCellsDistinct`).

## Model

| member | source | states |
|---|---|---|
| GridStore.GridDimension | sketch.js:393-398 | the dimension is at least 1; for a canvas of at least 15 pixels it is floor(pixels/15), and below 30 pixels it is 1 |
| GridStore.Make2DArray | sketch.js:85-98 | a fresh array of max(1, cols) columns and max(1, rows) rows whose every cell is 0 |
| LifeSketch.Sketch.constructor | sketch.js:39-65 | the grid is GridDimension(width) x GridDimension(height), each cell holds its random bit, motion and hand state start cleared, and the invariant holds |
| LifeSketch.Sketch.FillGridWithRandomStuff | sketch.js:75-82 | every cell of the existing grid takes its random bit in place; dimensions and other fields are unchanged and cells stay 0 or 1 |
| LifeRules.Wrap | sketch.js:364-365 | the wrapped coordinate lies in [0, n) and, for a coordinate one step off either edge, is the opposite edge; otherwise it is unchanged |
| LifeRules.CountLivingNeighbors | sketch.js:358-379 | the nested accumulator loops return exactly the wrapped 3x3 sum less the live centre, reading only in-grid cells |
| LifeRules.NeighbourCells | sketch.js:361-365 | the scan visits eight positions, each inside the grid |
| LifeRules.CountLive | sketch.js:361-371 | a count over a list of positions lies between 0 and the list's length |
| LifeRules.NeighbourCountSkipsSelf | sketch.js:361-376 | including the centre and subtracting it equals scanning the eight wrapped neighbour positions, on every grid size |
| LifeRules.NeighbourCountRange | sketch.js:358-379 | the neighbour count lies in [0, 8] on every grid size, tiny grids included |
| LifeRules.NeighbourCellsDistinct | sketch.js:361-371 | the eight scanned positions are pairwise different if and only if cols >= 3 and rows >= 3 |
| LifeRules.CountLiveDistinct | sketch.js:361-371 | on a repetition-free list of positions, counting live entries equals the size of the set of live cells |
| LifeRules.NeighbourCellsAreTorusNeighbours | sketch.js:364-365 | on grids at least 2x2, a position is scanned if and only if it is another cell at ring distance at most 1 on both axes |
| LifeRules.NeighbourCountIsTorusNeighbours | sketch.js:358-379 | on grids at least 3x3, the count equals the number of distinct living toroidal neighbours, defined independently of the scan |
| LifeRules.CornerWrapsAround | sketch.js:364-365 | a living (0,0) is a toroidal neighbour of (cols-1,0), (0,rows-1) and (cols-1,rows-1), and the count at each of the three is at least 1 |
| LifeRules.SingleCellCountsItself | sketch.js:361-376 | on a 1x1 grid a living cell counts 8 although it has no distinct neighbour |
| LifeRules.TwoByTwoCountsRepeats | sketch.js:361-376 | on a 2x2 grid with only (1,1) alive, (0,0) counts 4 although it has one distinct living neighbour |
| LifeRules.Rule | sketch.js:335-341 | for a 0/1 state the next state is 0/1 and is 1 exactly on birth with 3 or survival with 2 or 3; any other value is left alone |
| LifeSketch.Sketch.Step | sketch.js:326-354 | the new grid is fresh and every cell is the rule applied to the pre-step grid, except that with motion on and frameCount % 10 == 0 the picked cell is 1; no other cell differs and nothing else changes |
| LifeSketch.Sketch.MakeMotionEffect | sketch.js:100-124 | the motion flag and timestamp are set even off-grid; an off-grid target leaves the grid unchanged; otherwise the target and the in-grid planted cells become 1, every changed cell is 1 and lies within 5 of the target on both axes |
| LifeSketch.CellOf | sketch.js:105-106 | the cell index c of a pixel coordinate v satisfies 15c <= v < 15(c+1), i.e. it is floor(v/15) |
| LifeSketch.Sketch.AddSomeRandomCells | sketch.js:127-134 | exactly the picked cells become 1 and every other cell keeps its value |
| LifeSketch.Sketch.ExpireMotion | sketch.js:269-271 | the flag stays set if and only if it was set and at most 5000 ms have passed |
| LifeSketch.Sketch.WindowResized | sketch.js:389-413 | the new dimensions are GridDimension of the canvas size; cells in the shared rectangle keep their old value and all other cells are 0 |
| HandTracking.Confidence | sketch.js:214-219 | the confidence is handInViewConfidence when numeric, else the score when present, else 0 |
| LifeSketch.Sketch.ModelIsReady | sketch.js:69-72 | after the hand model reports ready, the hand gate is active |
| LifeSketch.Sketch.LookForHands | sketch.js:191-251 | before the model is ready nothing changes; a missing, malformed or low-confidence hand clears handDetected and leaves the cooldown, last position, motion state and grid alone; an accepted hand sets handDetected, fires the motion effect and restarts the 15-frame cooldown exactly when it moved more than 30 pixels and the cooldown has passed, and always records the new position |
| Patterns.BlockIsStillLife | sketch.js:329-343 | a 2x2 block on a 4x4 grid is unchanged by the rule |
| Patterns.HorizontalBlinkerTurns | sketch.js:329-343 | a horizontal 3-cell blinker on a 5x5 grid becomes the vertical one |
| Patterns.VerticalBlinkerTurns | sketch.js:329-343 | the vertical blinker becomes the horizontal one |
| Scenarios.BlinkerHasPeriodTwo | sketch.js:326-354 | with motion off, two steps of the sketch bring a horizontal blinker back |
| Scenarios.ShrinkThenGrow | sketch.js:403-412 | resizing 10x10 to 5x5 and back keeps the 5x5 corner and clears every other cell |
| Scenarios.MotionStaysOnAtFiveSeconds | sketch.js:269-271 | a motion effect started at t is still on when checked at t+5000 ms |
| Scenarios.MotionEndsAfterFiveSeconds | sketch.js:269-271 | a motion effect started at t is off when checked at any time after t+5000 ms, however little after |

## Left out

- Rendering: `drawBlobShape`, `drawRedCircleForHand`, the background, text, loading overlay and spinner in `draw` are canvas calls with floating-point geometry.
- Camera and hand-model wiring (`createCapture`, `onloadeddata`, `ml5.handpose`, the `predict` callback, `modelIsReady` as a callback): foreign libraries that deliver results asynchronously; the model has `ModelIsReady` for the callback's one effect and takes the `hands` list as an input.
- The video-to-canvas `map(...)` is the parameter `toCanvas`; `dist(...) > 30` is stated as squared distance > 900, which agrees on exact reals.
- LookForHands: a landmark entry 8 that is null or undefined makes the sketch throw after `handDetected` is set, and the `try/catch` then skips the rest of the gate (no effect, no position update); any other non-array entry gives NaN coordinates, which fire nothing and are stored as the last hand position. Neither is modelled: landmarks are always points.
- `console.log`/`console.error` are diagnostics only; the `try/catch` matters only for the null fingertip above.
- Floating point: positions, confidences and `millis()` times are exact reals (no NaN, no rounding); a truthy `score` that is not a number, which the sketch would use as the confidence, is not modelled; cell counts and frame counts are unbounded integers, which JavaScript numbers represent exactly at these sizes.
- The order in which `draw` calls the hand gate, the expiry check, the rendering and the step is not one member: each part is a method and a caller runs them in that order.
- `mousePressed` and `keyPressed` only call `makeMotionEffect(mouseX, mouseY)` and `fillGridWithRandomStuff()`, which are modelled.
- Canvas resizing itself (`createCanvas`, `resizeCanvas`): the model takes the new canvas width and height as integers.
