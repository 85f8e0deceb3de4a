# Sliding-puzzle map builder and slide resolver

A Dafny model of the core of a small browser sliding puzzle:

- the **map builder** (`createPuzzle` in `puzzle.js`): a `width*height` map,
  stored row by row, filled with `EMPTY`; every cell then becomes `BLOCK` when
  one random draw succeeds, or else `SPECIAL` when a second draw succeeds;
- the **slide resolver** (`player.js`): a player standing on a cell moves in
  one of the four directions of the `DIRS` table and slides. A slide stops in
  front of a `BLOCK` cell, stops in front of a `ONEWAY` cell unless the
  visitation record lists that cell with the slide's direction key, enters
  any other cell, and stops right after entering a `STICKY` cell. The rule
  appears three times in the program: as the one-step check `isValidMove`,
  as the cell-by-cell loop of `animateMove`, and as the destination search
  plus replay of `smoothMove`.

Files:

- `puzzle.dfy`, module `Puzzle`: the cell types, the map value `Grid`, the draw
  stream, the reference definition of the cells the builder produces
  (`Decide`, `Cursor`, `Cells`), the imperative `CreatePuzzle` over an array,
  and lemmas about draw consumption.
- `slide.dfy`, module `Slide`: the direction table, map geometry (index
  `y*width + x`, border, interior), `IsValidMove`, the reference definition
  of a slide (`Path`: the cells entered, in order; `Final`: the resting cell)
  and the lemmas about every slide.
- `player.dfy`, module `Player`: class `Player` with its `position` field and
  the two imperative movers, each proved to produce exactly `Path` and to end
  on `Final`. Since both are tied to the same `Final`, `animateMove` and
  `smoothMove` reach the same cell for the same map, record, position and
  direction.

Modelling choices:

- `CellType` in `puzzle.js` defines only `EMPTY`, `BLOCK` and `SPECIAL`, while
  `player.js` compares cells with `CellType.ONEWAY` and `CellType.STICKY`,
  which that object does not have (both read as `undefined` in the program).
  The model uses a datatype with five distinct constructors, `Empty`,
  `Block`, `Special`, `OneWay` and `Sticky`, which is the evident intention;
  `Special` has no movement behaviour besides being passable.
- `Math.random()` becomes a stream `draws: nat -> bool`; `draws(k)` says that
  the k-th call returned a number below the threshold of the test that made
  it (0.2 for a wall, 0.05 for a special cell).
- The map and visitation record that the player reads through its callback,
  and the start position handed to `reset`, come from a generator that is
  not part of this model; they are parameters. The record is
  `map<int, set<string>>` from cell index to direction keys; an absent record
  (the program's optional chaining) behaves like the empty map.
- The program computes the neighbour's index with no bounds check. The
  resolver therefore requires that every cell of the outermost ring is a wall
  (`Bordered`) and that the player stands on an interior cell; under that
  precondition every slide terminates, within the distance to the border.
- A move is given as `(dx, dy)`; the table lookup `DirOf` mirrors
  `DIRS.find`. For an offset not in the table the program dereferences
  `undefined` and throws, so the movers require `DirOf(dx, dy).Some?`.
- Each mover returns `trace`, the successive values it gives to `position`,
  which stands for what the renderer sees after each step.

## Model

| member | source | states |
|---|---|---|
| `Puzzle.Decide` | puzzle.js:1-28 | a decided cell is only ever `Empty`, `Block` or `Special`; the builder never produces the one-way or sticky types |
| `Puzzle.CursorBounds` | puzzle.js:18-29 | the draws consumed before cell i number between i and 2i: each cell makes one or two draws |
| `Puzzle.CreatePuzzle` | puzzle.js:12-32 | the result keeps `width` and `height`, has `width*height` cells, and its cells are exactly the reference cells `Cells(draws, width*height)` (the loop fills the array in index order, never rewriting a decided cell) |
| `Puzzle.CellRule` | puzzle.js:20-28 | cell i is `Block` iff its first draw succeeds, `Special` iff that fails and its second succeeds, `Empty` iff both fail; a `Block` cell consumes one draw and any other cell two |
| `Puzzle.DrawsConsumed` | puzzle.js:18-29 | building n cells makes exactly n draws plus one for every cell that is not `Block` |
| `Puzzle.PrefixDeterminesCells` | puzzle.js:18-29 | the first n cells depend only on the first 2n draws, so later draws never change an earlier cell |
| `Slide.DirOf` | player.js:3-8 | the table lookup finds an entry exactly for the four unit offsets, and the entry found has that offset |
| `Slide.DirectionTable` | player.js:3-8 | every direction's own offset looks up to that direction, and the four direction keys are distinct, so a one-way cell's record distinguishes the directions |
| `Slide.IsValidMove` | player.js:27-43 | the move is refused exactly when the neighbour is a wall, or a one-way cell whose index lacks the direction's key in the record |
| `Slide.Path` | player.js:101-119 | the slide advances at all exactly when `IsValidMove` holds; it enters fewer cells than the distance to the border, so it terminates; every cell entered is interior |
| `Slide.Final` | player.js:131-146 | the resting cell is an interior cell |
| `Slide.PathIsStraight` | player.js:113-115 | the k-th cell entered is `(x + k*dx, y + k*dy)` |
| `Slide.PathCells` | player.js:107-118 | no cell entered is a wall; a one-way cell is entered only if the record lists it with the slide's direction key; a sticky cell is entered only as the last cell |
| `Slide.FinalIsResting` | player.js:133-146 | the slide rests on the start or a non-wall cell, and it rests there either because it just entered a sticky cell or because it may not enter the next cell |
| `Slide.LastBlocked` | player.js:107-111 | when the last cell entered is not sticky, the move from it in the same direction is refused |
| `Slide.PathStep` | player.js:113-118 | one step of the loop: when the move is valid the slide enters the interior neighbour first and, unless it is sticky, continues as the slide from the neighbour |
| `Slide.FinalStep` | player.js:133-146 | one step of the destination search: the slide rests on the neighbour when it is sticky, and otherwise where the slide from the neighbour rests |
| `Slide.StepsCountEntries` | player.js:148-150 | `max(abs(tx-x), abs(ty-y))` equals the number of cells entered, and it is zero exactly when the resting cell is the start |
| `Slide.OpenFieldSlide` | player.js:133-146 | on a map whose interior is all empty, the slide runs to the last interior cell before the border (on a one-cell interior it does not move) |
| `Player.Player.constructor` | player.js:11-17 | a new player has no position |
| `Player.Player.Reset` | player.js:20-24 | the position becomes the start position |
| `Player.Player.AnimateMove` | player.js:93-122 | the positions taken one after another are exactly the cells of `Path`, and the position ends on `Final` |
| `Player.Player.SmoothMove` | player.js:124-159 | the replayed positions `(x + dx*step, y + dy*step)`, step = 1 .. steps, are exactly the cells of `Path`; the position ends on `Final`, the same cell `AnimateMove` reaches, and is left unchanged when steps is zero |
| `Player.Player.FindDestination` | player.js:131-146 | the destination search returns the resting cell `Final` |

## Left out

- `renderWithDPad` and all DOM, button and event-listener code: user interface.
- The `setTimeout` and `requestAnimationFrame` waits, `renderStep`, `moveCallback` and the `isMoving` flag: animation timing and interface state; only the order of positions is kept (as `trace`). Each move is modelled as running to completion without overlapping another: `smoothMove` never sets `isMoving`, so in the program a second move can start during its replay waits and interleave its writes to `position`; that interleaving is not modelled.
- `script.js`: screen sizing from the window size with floating point, and creation of the DOM cells.
- The random number generator itself and the thresholds 0.2 and 0.05: replaced by the abstract draw stream.
- The generator that produces the start position and the visitation record is not part of this model; its output is taken as input, and the wall ring it is expected to build is a precondition.
- Out-of-range reads: the program reads `undefined` past the ends of the cell array and wraps around rows for `x` out of range; the model requires an interior position on a walled map, where neither happens.
- A non-cardinal `(dx, dy)`: the movers throw on the table lookup (player.js:99, 129) and the model's movers require a table entry. Under the five-type reading of the cell types, `isValidMove` throws only when the target is a one-way cell (player.js:37-38); as written, where `CellType.ONEWAY` is undefined, that branch and its throw are reached only when the index is off the cell array; for any other target it answers without a lookup. The model's `IsValidMove` takes a `Direction`, so probes with a non-cardinal offset are not modelled.
- CreatePuzzle: takes `nat` dimensions, so it leaves out the inputs `puzzle.js` accepts or rejects outside them: a negative or non-integer product `width * height`, for which `new Array` throws a `RangeError` (puzzle.js:16), a product of 2^32 or more (for example 65536 by 65536), for which `new Array` also throws a `RangeError` while the model returns a map of that many cells; two negative dimensions, for which the program builds a map with a positive cell count but negative `width` and `height`; and a zero and a negative dimension, whose product `-0` gives an empty map with a negative dimension.
- A move from a player without a position (`position` still `null`): the program throws; the movers require a position.
