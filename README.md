# Sliding puzzle: a Dafny model of `scripts/puzzle.js`

This project models the state machine behind the N×N sliding puzzle ("15-puzzle")
in `scripts/puzzle.js`, and proves properties of it. The modelled parts are:

- the `Tile` class;
- the `Puzzle` class: board construction, the multi-tile slide of `makeMove`,
  and the highlight preview of `highlightNeighbors` and `resetBoard`;
- the random shuffle of `shuffleBoard`, driven by `setIntervalTimes`;
- the `playable` flag that gates the mouse handlers.

The model has five modules, one per file:

- `Geometry` (`geometry.dfy`) holds cells and the board invariant.
  - `Pos` is a cell (row, column).
  - A board layout is a `seq<Pos>`: entry `i` is where `board[i]` stands. The last
    entry is the blank (`emptyTile`).
  - `IsGrid` says the `size*size` tiles occupy every cell of the grid exactly once.
  - `Solved` is the layout `createBoard` builds.
- `Counting` (`counting.dfy`) has generic helpers:
  - `IndicesWhere` is `Array.prototype.filter` on the board, kept as board indices;
  - a cardinality-by-bijection lemma, used to count the run and the cross.
- `Moves` (`moves.dfy`) is the move engine as pure functions on layouts:
  - `TilesBetween` (`tilesBetween`), `MovementDelta` (`movementDelta`) and
    `MakeMove` (`makeMove`), branch for branch;
  - the lemmas that say what a move does.
- `Shuffle` (`shuffle.dfy`) is the shuffle:
  - the cross of the blank;
  - one interval tick (`ShuffleStep`), and a sequence of ticks (`Shuffled`);
  - the proof that every shuffle keeps the board well formed and can be undone
    by clicks.
- `Game` (`puzzle.dfy`) holds the two classes of the source, with their fields
  updated in place:
  - `Tile` (`row`, `col`, and a `highlighted` flag for the CSS class that
    `select`/`deselect` toggle);
  - `Puzzle` (`size`, `board`, `emptyTile`, `playable`).

  Every method of `Puzzle` is proved against the pure functions:
  - `Cells()` (the layout) equals the matching function of the old layout;
  - `Highlights()` (the highlight flags) changes as stated.

  `Valid()` (a grid bijection, with the blank the last tile) is kept by every
  operation of `Puzzle`:
  - the constructor, `MakeMove`, `HighlightNeighbors`, the shuffle methods,
    `Play` and the handlers state it;
  - `ResetBoard` and `EnableBoard` keep it because they leave the layout unchanged.

  The two halves of `makeMove`, `SlideRun` (the forEach) and `MoveBlank` (the
  blank's update), do not keep it. Between them, the run's tile nearest the blank
  shares the blank's cell. `SelectRun` moves nothing, and its callers keep `Valid()`.

Randomness is an input. Each `Math.random()` draw is a real `u` with `0 <= u < 1`:

- the iteration count is `50 + floor(100*u)`;
- a tick's index is `floor(u * board.length)`.

A board index outside `[0, board.length)` stands for `undefined`, whether from
`board[id - 1]` or from `tiles[idx]` past the end of the cross.

Notes on the code, which the model follows:

- **Run order.** `tilesBetween` returns the run in board order (the order of
  `board.filter`), whatever side of the blank the target is on.
- **Delta direction.** `movementDelta` points from the target toward the blank.
- **Blank identity.** The blank is the tile numbered `size*size`, the last tile
  of `board`.
- **Play.** `play()` reshuffles the current board in place; it does not rebuild
  the solved board.
- **Out-of-range shuffle draws.** The tick's index is drawn over the whole board
  but read in the blank's cross, so an index past the cross reads `undefined`
  and that tick moves nothing.
  - `Shuffle.StepOutcome` pins down exactly when a step is skipped: when the
    drawn index is at least `2*(size-1)`.

## Model

| member | source | states |
|---|---|---|
| Geometry.Solved | scripts/puzzle.js:182-186 | tile i of the solved board stands on the grid, on the cell whose row-major number is i (row i / size, column i % size) |
| Geometry.SolvedIsGrid | scripts/puzzle.js:179-194 | the solved board `createBoard` lays out puts its size² tiles on every cell of the grid exactly once |
| Counting.IndicesWhere | scripts/puzzle.js:150-155 | `filter` keeps exactly the indices whose tile passes the predicate, in board order, each once |
| Moves.TilesBetween | scripts/puzzle.js:144-156 | a board index is in the run iff its tile lies in the bounding box of target and blank, on the blank's row or column, and is not on the blank's cell; indices ascend |
| Moves.BetweenIsSegment | scripts/puzzle.js:144-156 | for a target on the blank's row or column, the filter's test holds exactly on the straight segment from the target (included) to the blank (excluded) |
| Moves.RunLength | scripts/puzzle.js:144-156 | on a well-formed board the run of an aligned target has exactly as many tiles as the distance from target to blank |
| Moves.RunIsSegment | scripts/puzzle.js:144-156 | the run is the segment from target to blank, never contains the blank, and its length is their distance |
| Moves.MovementDelta | scripts/puzzle.js:106-122 | each component is the sign of the blank's offset from the tile on that axis (in -1..1, zero iff the coordinates agree); for an aligned target off the blank's cell exactly one component is non-zero |
| Moves.RunOf | scripts/puzzle.js:124-131 | the tiles a target acts on: never the blank, in ascending board order, and none unless the target passed the guards (defined, on the blank's row or column) |
| Moves.MakeMove | scripts/puzzle.js:85-104 | makeMove on the layout: the board keeps its length and no tile other than the blank and the run's tiles moves |
| Moves.MoveRefused | scripts/puzzle.js:85-88 | an undefined target, a target on neither the blank's row nor column, or the blank itself leaves every tile where it was |
| Moves.MoveChangesIffSlide | scripts/puzzle.js:85-104 | on a well-formed board a move changes the layout iff its target is a tile other than the blank on the blank's row or column |
| Moves.SlideTile | scripts/puzzle.js:93-98 | in a legal move a non-blank tile steps by the delta iff it stands on the segment from target to blank, and stays put otherwise |
| Moves.SlideBlank | scripts/puzzle.js:100-103 | after a legal move the blank stands on the target's old cell |
| Moves.SlideEffect | scripts/puzzle.js:90-103 | a legal move: the blank lands on the target's cell, the run steps toward the old blank, every other tile stays |
| Moves.MoveKeepsGrid | scripts/puzzle.js:85-104 | every move, legal or refused, keeps the board a bijection between the size² tiles and the grid cells |
| Moves.SlideUndo | scripts/puzzle.js:85-104 | clicking the tile that now stands on the blank's old cell is a legal move and restores the board exactly |
| Moves.MoveBySlide | scripts/puzzle.js:93-103 | makeMove's two stages, the forEach over the run and then the blank's step back by delta × run length, compose to the move |
| Moves.HoverShowsMove | scripts/puzzle.js:124-136 | the tiles highlightNeighbors lights are exactly the non-blank tiles a click on the same target moves |
| Shuffle.CrossTiles | scripts/puzzle.js:162-165 | a board index is in the cross iff its tile shares the blank's row or column and is not on the blank's cell; indices ascend |
| Shuffle.IterationCount | scripts/puzzle.js:159 | the number of ticks lies in 50..149 |
| Shuffle.DrawIndex | scripts/puzzle.js:167 | the drawn index lies in [0, board.length) |
| Shuffle.StepTarget | scripts/puzzle.js:162-168 | the tick's target is `tiles[idx]`, a tile on the blank's row or column, or undefined (-1) |
| Shuffle.ShuffleStep | scripts/puzzle.js:161-169 | one tick is makeMove on the step's target; no tile off the blank's row and column moves |
| Shuffle.Shuffled | scripts/puzzle.js:197-206 | one tick per draw, in order; the board keeps its length (its shape is `Shuffle.ShuffledGrid`, its order `Shuffle.ShuffledPrefix`) |
| Shuffle.CrossSize | scripts/puzzle.js:162-165 | on a well-formed board the cross has exactly 2·(size−1) tiles |
| Shuffle.CrossAreSlides | scripts/puzzle.js:162-168 | every tile of the cross is a legal move target |
| Shuffle.StepTargetIsSlide | scripts/puzzle.js:162-168 | a tick's target `tiles[idx]` is a legal move iff the drawn index is below 2·(size−1) |
| Shuffle.StepOutcome | scripts/puzzle.js:162-168 | a tick leaves the board unchanged iff the drawn index is at least 2·(size−1), and always keeps it a grid bijection |
| Shuffle.ShuffledGrid | scripts/puzzle.js:158-171 | any number of ticks keeps the board a grid bijection |
| Shuffle.UndoClick | scripts/puzzle.js:162-168 | a tick that moved something is undone by one click |
| Shuffle.Solvable | scripts/puzzle.js:158-171 | for every sequence of draws there is a sequence of clicks that returns the shuffled board to where the shuffle began |
| Shuffle.ShuffledPrefix | scripts/puzzle.js:199-205 | the first k+1 ticks are the first k ticks followed by one more |
| Game.Tile.constructor | scripts/puzzle.js:2-8 | a tile starts with its number, row and column, not highlighted |
| Game.Tile.UpdatePos | scripts/puzzle.js:18-20 | updatePos sets column and row, nothing else |
| Game.Tile.Select | scripts/puzzle.js:28-30 | select highlights the tile and does not move it |
| Game.Tile.Deselect | scripts/puzzle.js:32-34 | deselect clears the highlight and does not move the tile |
| Game.Puzzle.constructor | scripts/puzzle.js:42-49 | a new puzzle holds the solved board (tile i numbered i+1 on cell (i / size, i % size), none highlighted), the blank is the last tile, the board is a grid bijection, and it is not playable |
| Game.Puzzle.CreateBoard | scripts/puzzle.js:179-194 | the loop builds size² fresh, distinct tiles, tile i numbered i+1 on row i / size and column i % size |
| Game.Puzzle.MakeMove | scripts/puzzle.js:85-104 | the new layout is `Moves.MakeMove` of the old, the moved tiles lose their highlight, the others keep it, and the board stays a grid bijection |
| Game.Puzzle.SlideToBlank | scripts/puzzle.js:90-103 | makeMove past its guards: same new layout and highlights as above |
| Game.Puzzle.SlideRun | scripts/puzzle.js:93-98 | the forEach steps each tile of the run by the delta and deselects it; no other tile changes |
| Game.Puzzle.MoveBlank | scripts/puzzle.js:100-103 | the blank's updatePos moves only the blank and changes no highlight |
| Game.Puzzle.HighlightNeighbors | scripts/puzzle.js:124-136 | nothing moves; exactly the run's tiles become highlighted (none for an undefined or unaligned target) and the others keep their highlight |
| Game.Puzzle.SelectRun | scripts/puzzle.js:133-135 | the forEach selects each tile of the run and moves nothing |
| Game.Puzzle.ResetBoard | scripts/puzzle.js:138-142 | every tile is deselected and nothing moves |
| Game.Puzzle.EnableBoard | scripts/puzzle.js:80-83 | the board becomes playable |
| Game.Puzzle.ShuffleTick | scripts/puzzle.js:161-169 | one interval callback, run on a locked board, is one shuffle step `Shuffle.ShuffleStep` of the layout; exactly the moved run loses its highlight; the board stays well formed |
| Game.Puzzle.Ticks | scripts/puzzle.js:197-206 | `times` callbacks in order, on a locked board that stays locked, take the layout to `Shuffled` of the first `times` draws and only ever clear highlights |
| Game.Puzzle.TickOnce | scripts/puzzle.js:199-202 | one firing of the interval on a locked board is one shuffle step of the layout; exactly that step's run loses its highlight, so it lights no tile; the shuffle so far is the first k+1 draws |
| Game.Puzzle.SetIntervalTimes | scripts/puzzle.js:197-207 | on a locked board, exactly `times` ticks, then enableBoard: the layout is the shuffle of the first `times` draws, no tile gains a highlight, and the board is playable |
| Game.Puzzle.ShuffleBoard | scripts/puzzle.js:158-171 | on a locked board, the layout is shuffled by `IterationCount(u)` ticks, highlights are only cleared, and the board ends playable |
| Game.Puzzle.Play | scripts/puzzle.js:74-78 | play locks the board (the shuffle's methods require it locked), shuffles it by 50..149 ticks from where it stands, clears highlights only, and ends playable with the board still a grid bijection |
| Game.Puzzle.OnMouseOver | scripts/puzzle.js:51-57 | when not playable nothing changes; otherwise highlightNeighbors on board[id−1] |
| Game.Puzzle.OnMouseOut | scripts/puzzle.js:59-63 | when not playable nothing changes; otherwise every highlight is cleared |
| Game.Puzzle.OnClick | scripts/puzzle.js:65-71 | when not playable nothing changes; otherwise makeMove on board[id−1] |

## Left out

- Rendering is not modelled:
  - the jQuery element, `createElement` and the element id;
  - the pixel `top`/`left` that `updatePos` computes;
  - the `highlighted` and `blank` CSS classes (`setBlank`);
  - appending tiles to the container;
  - the container's `setup` class in `play`/`enableBoard`.
  A highlight is the `highlighted` flag.
- `initializeBoard` is not modelled. It calls `updatePos()` with its defaults, which
  only re-renders and moves no tile.
- Event wiring and the page bootstrap (the `$(() => …)` block) are not modelled. The
  handlers take the element id as an integer. A non-numeric id (the container
  itself) gives `NaN`, and `board[NaN]` is `undefined`. Any id outside
  `1..board.length` models that.
- Timing is not modelled. `window.setInterval`/`clearInterval` and the 25 ms
  cadence become a synchronous loop, so no mouse event can interleave with the
  ticks. In the source the handlers ignore such events during a single shuffle,
  because `playable` is false until its last tick.
- Overlapping shuffles are not modelled. The shuffle button calls `play()`
  without checking `playable` (scripts/puzzle.js:213-215). A second `play()`
  during a shuffle starts a second interval. The first interval's last tick then
  calls `enableBoard` while the second one is still ticking, so mouse handlers run
  between shuffle ticks. The model runs one shuffle at a time:
  `Game.Puzzle.ShuffleBoard`, `Game.Puzzle.SetIntervalTimes`, `Game.Puzzle.Ticks`,
  `Game.Puzzle.TickOnce` and `Game.Puzzle.ShuffleTick` require a locked board.
- `Math.random()` is an input real in `[0, 1)`. Floating-point rounding of
  `100 * u` and `u * board.length` is not modelled.
- Game.Puzzle.SetIntervalTimes: requires `times >= 1`. With `times == 0` the
  source's counter never equals `times` and the interval never clears;
  `shuffleBoard` always passes 50..149.
- Game.Puzzle.SetIntervalTimes: the callbacks are fixed to the shuffle tick and
  `enableBoard`. Methods are not first-class values here.
- Game.Puzzle.SetIntervalTimes: the loop's ticks are written as `Game.Puzzle.Ticks`,
  and `enableBoard` runs right after the last tick. That is the order in which the
  source's interval calls them.
- Game.Puzzle.constructor: requires `size >= 1`. With size 0, `board[-1]` is
  `undefined`, so `this.emptyTile.setBlank()` in `createBoard` throws a TypeError
  and the constructor never returns a puzzle.
  - The default size 4 is the caller's choice.
  - `CreateBoard` returns the tiles and the constructor sets `emptyTile`. In the
    source `createBoard` sets `emptyTile` itself.
- `board` is a sequence of tile references fixed at construction, not an `array`.
  The source never stores into the array after `createBoard`; only the tiles'
  fields change.
- Win detection is not modelled. The source has none.

