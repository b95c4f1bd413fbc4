# Minesweeper game engine, modelled in Dafny

This project models the grid and game-state engine of a 14 x 14
Minesweeper game written in C (`minesweeper.c`). One `GameState` record
holds the grid of cells and the game's flags and counters. Four routines
change it in place, and `check_win` reads it:

- `init_game` resets it for a difficulty.
- `place_mines` arms random cells away from the first click and writes each non-mine cell's neighbour count; mine cells keep the count they had.
- `reveal_cell` is the recursive flood-fill reveal, worth 10 points per cell it turns up.
- `check_win` tests whether every cell without a mine lies face up.
- `use_hint` reveals the cascade from one safe cell, once per game.

The input loop of `main` turns mouse clicks into a left click, which reveals a cell, and a right click, which flips a flag. Both are modelled here as commands on cell coordinates.

The model is imperative, like the source:

- `Game.GameState` is a class over an `array2<Cell>` grid and the game's fields.
- Every routine is a method. Those that change the state have a `modifies` frame; `CheckWin` and `CountAdjacentMines` only read the grid. Each loop of the source is a `for` or `while` loop with invariants, and `reveal_cell` stays recursive.
- A ghost field `board` holds the grid as a value. `Synced()` ties it to the array.
- The methods are proved against specification functions on such values:
  - `Flood.Cascade`: what one `reveal_cell` call does;
  - `Placement.Armed`: the rejection-sampling loop of `place_mines`;
  - `Placement.Counted`: the counting pass of `place_mines`;
  - `Grid.MinesShown`: turning every mine face up after a loss;
  - `Grid.FirstHint`: the cell `use_hint` picks.
- The lemmas beside those functions prove what the game promises:
  - the first click is never on a mine;
  - exactly the configured number of mines is placed;
  - the counts are consistent and lie in 0..8;
  - a reveal turns up exactly the flood region and never a flag;
  - the score is 10 points per revealed cell;
  - a win is detected exactly when every safe cell is face up;
  - the flag counter equals the number of flags.
- The state invariants among them are gathered in the class invariant `Valid()`, which every command keeps: num_mines mines once they are dealt, consistent counts, 10 points per revealed cell until a loss, the flag counter, and a won board under victory. The safety of the first click, the flood region and the win test are `ensures` of `LeftClick` and `FirstClick`, of `RevealCell`, and of `RevealSafe` and `LeftClick`.

Modules:

- `Grid` (grid.dfy): the cell, the board value, the cell sets the engine counts, neighbour counts, the row-major scan and the hint choice.
- `Flood` (flood.dfy): the flood-fill reveal as a relation between the boards before and after.
- `Placement` (placement.dfy): the two passes of `place_mines` as functions on board values.
- `Game` (game.dfy): the `GameState` class.
- `Input` (input.dfy): the pixel-to-cell conversion of the click handlers. It is only here to record the finding below.

The randomness and the clock are inputs:

- `place_mines` reads its `rand()` results from `rolls`, one pair per loop round.
- `LeftClick` and `Tick`, the two commands whose source reads the clock (minesweeper.c:344, 350, 358, 378), take one `now` parameter each. `RightClick`, `UseHint` and `InitGame` read no clock and take none. That a first click reads the clock once where the source reads it twice is noted under "Left out".

Behaviour of the code that its comments and names do not suggest, which the model keeps:

- The comment at minesweeper.c:100 says the score rises "for each correct reveal", but the code adds 10 for every cell `reveal_cell` turns up (minesweeper.c:99-100). Once the mines are dealt it only turns up safe cells, but a hint before the first click (below) scores cells under which the deal may then put mines, and those points are kept.
- A hint taken before the first click is not refused (minesweeper.c:121), and when no cell is flagged it floods the mine-free board (`Flood.EmptyBoardFloods`). Right clicks before the first click are accepted (minesweeper.c:363), and flagged cells stop the flood. The mines dealt afterwards may then lie under revealed cells. `Valid()` allows this:
  - it counts the score over all revealed cells;
  - it does not require revealed cells to be safe.
- `use_hint` never checks for a win. `UseHint` cannot change `victory`, because it is not in its frame.
- The mine branch of a left click adds no score (minesweeper.c:348-353).

## Model

| member | source | states |
|---|---|---|
| Grid.MineCount | minesweeper.c:54 | each difficulty's mine count is positive and leaves at least one of the 196 cells free for the first click |
| Grid.ClearedIsEmpty | minesweeper.c:66-68 | the grid init_game leaves has no revealed cell, no mine and no flag, and its counts are consistent |
| Grid.UncoverOne | minesweeper.c:99 | turning a concealed cell face up adds exactly that cell to the revealed cells and removes it from the concealed ones |
| Grid.FlipOne | minesweeper.c:368-369 | flipping a flag adds the cell to the flagged set or removes it, so the flag count moves by +1 or -1 as the new flag says; mines, revealed cells and consistent counts are kept |
| Grid.ArmOne | minesweeper.c:77 | arming a cell without a mine adds exactly that cell to the mines |
| Grid.MinesOnly | minesweeper.c:77 | two boards that differ only in mine bits have the same flags and the same revealed cells |
| Grid.NeighbourMinesBound | minesweeper.c:85-90 | a neighbour count lies in 0..8 |
| Grid.ZeroMeansNoMineAround | minesweeper.c:101 | on a consistent board, a safe cell with count 0 has no mine among its neighbours |
| Grid.SameMinesSameCounts | minesweeper.c:88 | neighbour counts depend only on where the mines are |
| Grid.NoMinesNoCounts | minesweeper.c:67 | a board without mines whose counts are all 0 is consistent |
| Grid.ScanStart | minesweeper.c:84 | the 3 x 3 scan starts from no counted mine |
| Grid.ScanAdds | minesweeper.c:87-88 | one step of the scan adds the cell at the offset exactly when it is an in-bounds mine, and that cell was not counted before |
| Grid.ScanStep | minesweeper.c:87-88 | one step of the scan raises the count by one exactly when the cell at the offset is an in-bounds mine |
| Grid.ScanNextRow | minesweeper.c:85-86 | the end of one row of offsets is the start of the next |
| Grid.ScanEnd | minesweeper.c:85-90 | the full 3 x 3 scan counts the neighbour mines, plus one when the centre cell is a mine |
| Grid.MinesShownReveals | minesweeper.c:353 | showing the mines reveals exactly the old revealed cells plus the mines, and keeps mines, flags and consistent counts |
| Grid.RowMajorNext | minesweeper.c:113 | scan index i names cell (i / 14, i % 14), which is in bounds, and index i + 1 names the next cell in row-major order |
| Grid.RowMajorEnds | minesweeper.c:112 | index 0 comes before every cell and index 196 after every cell |
| Grid.FirstHintFrom | minesweeper.c:122-124 | the first hintable cell at scan index k or later, or none when no cell from k on is hintable |
| Grid.FirstHint | minesweeper.c:122-124 | the cell use_hint picks is concealed, unflagged and safe, and no earlier cell is; None exactly when no cell qualifies |
| Grid.HintIsFirst | minesweeper.c:122-127 | a hintable cell with no hintable cell before it is the one FirstHint picks |
| Flood.UncoversTrans | minesweeper.c:104 | two uncoverings in a row are one uncovering |
| Flood.UncoversKeeps | minesweeper.c:99 | uncovering keeps mines, flags and consistent counts, only adds revealed cells, and the new cells are the difference of the revealed sets |
| Flood.ConcealedShrinks | minesweeper.c:98-99 | a reveal that turns a cell up shrinks the concealed set, the measure on which the recursion terminates |
| Flood.StopAtOnce | minesweeper.c:101 | a cell with a mine or a non-zero count is revealed alone: turning it up is the whole cascade |
| Flood.StartLoop | minesweeper.c:101-102 | after turning up an opening cell, the neighbour loop starts with nothing settled |
| Flood.NeighbourStep | minesweeper.c:104 | the recursive call on one neighbour settles it and keeps the loop's state |
| Flood.SkipCentre | minesweeper.c:104 | skipping offset (0, 0) keeps the loop's state |
| Flood.NextRow | minesweeper.c:102-103 | the end of one row of offsets is the start of the next |
| Flood.EndLoop | minesweeper.c:102-106 | with every neighbour settled, the call has done a whole cascade |
| Flood.CascadeIsFloodRegion | minesweeper.c:97-108 | the cells a reveal turns up form a flood-closed region around the clicked cell, and the least one |
| Flood.CascadeAvoidsMines | minesweeper.c:101 | on a consistent board, a cascade turns up no mine except possibly the clicked cell |
| Flood.CascadeUncovers | minesweeper.c:98-100 | a reveal only turns concealed, unflagged cells face up |
| Flood.SafeCascade | minesweeper.c:355 | a reveal from a safe cell on a consistent board turns up no mine, and keeps mines, flags and consistent counts |
| Flood.EmptyBoardFloods | minesweeper.c:121 | on a board with no mine, flag or revealed cell, as before the first click, a reveal (a hint) reveals every cell |
| Flood.Reaches | minesweeper.c:104 | on such a board every cell is reached from the clicked cell, by induction on the distance |
| Placement.RollCell | minesweeper.c:75 | each rand() pair names an in-bounds cell, taken modulo 14 |
| Placement.SafeNotPicked | minesweeper.c:76 | the safe cell is never among the cells the loop may arm |
| Placement.ArmedKeeps | minesweeper.c:76-77 | the placing loop changes only mine bits, and only sets them |
| Placement.ArmedMines | minesweeper.c:74-80 | the mines after the placing loop are those its set-level view reaches |
| Placement.ArmedSetPlaces | minesweeper.c:74-80 | with enough usable rolls, the set-level loop adds exactly need mines, all of them rolled cells other than the safe one |
| Placement.ArmedPlaces | minesweeper.c:74-80 | with enough usable rolls the loop adds exactly need mines, all on rolled cells, and never arms the safe cell |
| Placement.BudgetSuffices | minesweeper.c:74 | with enough usable rolls the loop places its mines before the rolls run out |
| Placement.CountedConsistent | minesweeper.c:81-93 | after the counting pass every safe cell holds the number of its neighbour mines, which lies in 0..8; mines, flags and revealed cells are kept |
| Placement.FirstDeal | minesweeper.c:345 | the first deal on a mine-free board places exactly num_mines mines, none on the clicked cell; counts are consistent, flags and revealed cells are as before |
| Game.GameState.constructor | minesweeper.c:315-316 | the game starts valid: Easy, a cleared grid, high score 0, waiting for the first click |
| Game.GameState.InitGame | minesweeper.c:52-69 | every cell is cleared, the mine count follows the difficulty, the flags and counters are reset, high score and start time are kept, and the state is valid |
| Game.GameState.RevealCell | minesweeper.c:97-108 | the call is the cascade from (x, y): a no-op off the grid or on a revealed or flagged cell, otherwise exactly the flood region is turned up; the score rises by 10 per newly revealed cell |
| Game.GameState.RevealAround | minesweeper.c:102-106 | the loop over the eight neighbours completes the cascade of the opening cell, with 10 points per cell it turns up |
| Game.GameState.RevealNeighbour | minesweeper.c:104 | one recursive call settles the neighbour at its offset and scores its cells |
| Game.GameState.PlaceMines | minesweeper.c:72-94 | the grid becomes the rolled deal, counted: the placing loop's board with every safe cell's neighbour count written |
| Game.GameState.ArmCells | minesweeper.c:73-80 | the while loop leaves the array holding the board the placing loop specifies |
| Game.GameState.PlaceRoll | minesweeper.c:75-79 | one round arms the rolled cell exactly when it holds no mine and is not the safe cell, and reports whether it did |
| Game.GameState.SetCell | minesweeper.c:368 | writing one cell of the array updates exactly that cell of the board |
| Game.GameState.CountNeighbours | minesweeper.c:81-93 | the nested loops write every safe cell's neighbour-mine count and skip mines |
| Game.GameState.CountAdjacentMines | minesweeper.c:84-90 | the 3 x 3 scan returns the in-bounds neighbour mines, plus one for a mine at the centre |
| Game.GameState.CheckWin | minesweeper.c:111-117 | true exactly when every cell without a mine is revealed |
| Game.GameState.ShowMines | minesweeper.c:353 | every mine cell is turned face up and nothing else changes |
| Game.GameState.RevealHint | minesweeper.c:124-127 | the hint reveals the cascade from the chosen cell, uses up the hint, never turns up a mine and keeps the state valid |
| Game.GameState.UseHint | minesweeper.c:120-130 | a no-op once the hint is used or the game has ended; otherwise the cascade from the first hintable cell in row-major order, with hint_used set, or no change at all when no cell qualifies; never reveals a mine, never sets victory |
| Game.GameState.LeftClick | minesweeper.c:339-362 | ignored after the game ends, off the grid and on a flag; the first click deals mines away from the clicked cell; a mine ends the game, shows the mines and keeps the score; otherwise the cascade runs, and victory is set exactly when every safe cell is revealed, stopping the clock and keeping the better score |
| Game.GameState.OpeningClick | minesweeper.c:343-360 | the first click deals the mines, and the clicked cell is safe, so it is revealed and a win is checked |
| Game.GameState.Play | minesweeper.c:348-361 | a click after the deal takes the mine branch or the reveal branch |
| Game.GameState.FirstClick | minesweeper.c:343-347 | the clock starts, the deal is placed around the clicked cell, which holds no mine, and the state is valid |
| Game.GameState.DealtValid | minesweeper.c:345-346 | the state right after the first deal is valid and the clicked cell is safe |
| Game.GameState.Explode | minesweeper.c:348-353 | a click on a mine ends the game, stops the clock and reveals every mine, with the state valid |
| Game.GameState.ShownValid | minesweeper.c:353 | showing the mines of a valid game in progress gives a valid lost game |
| Game.GameState.RevealSafe | minesweeper.c:355-360 | a safe click reveals the cascade; victory is set exactly when every safe cell is revealed, and then the clock stops and high_score becomes the larger of itself and the score |
| Game.GameState.RightClick | minesweeper.c:363-372 | while the game is on, a right click on a concealed cell flips its flag and moves flagged_mines by +1 or -1; otherwise nothing changes; flagged_mines stays equal to the number of flags |
| Game.GameState.Tick | minesweeper.c:377-379 | during play the clock shows the time since the first click; otherwise it is frozen |
| Input.CDiv | minesweeper.c:340 | C's integer division truncates toward zero |
| Input.MarginClickAsWritten | minesweeper.c:340-342 | as written, a click at pixel 30, left of the grid, is taken as a click on column 0 |
| Input.CellAt | minesweeper.c:340-342 | corrected: a pixel maps to a cell exactly when it lies on the grid, and the cell's square contains it |
| Input.AsWrittenDiffers | minesweeper.c:340-342 | below the info bar, the written conversion differs from the corrected one exactly on the 39 pixels left of the grid, level with a row |

## Left out

- Rendering is not modelled. That covers the SDL and TTF drawing, texture caching and the font (minesweeper.c:133-286, 297). It also covers the offset fields and the `explosion_flash`/`flash_timer` pair set on a loss (minesweeper.c:351-352), which only feed the display.
- The button hit rectangles of the info bar (minesweeper.c:333-338) are left out as screen geometry. The commands they issue are `InitGame` with the current or a chosen difficulty, and `UseHint`.
- Game.GameState.LeftClick and Game.GameState.RightClick take cell coordinates rather than pixels, with the off-grid guard kept. The pixel conversion is modelled separately in `Input`.
- Game.GameState.LeftClick, Game.GameState.FirstClick, Game.GameState.OpeningClick and Game.GameState.PlaceMines require the rolls to name at least `num_mines` usable cells. `rand()` is replaced by a finite sequence, and the rejection-sampling loop only terminates with probability 1, which cannot be proved.
- `srand(time(NULL))`, event polling, start-up and tear-down are not modelled.
- Game.GameState.OpeningClick reads the clock once, where the source reads it for `start_time` (minesweeper.c:344) and again for the winning `elapsed_time` (minesweeper.c:358). A first click that wins, which a hint taken before it can make happen, records an elapsed time of 0 rather than the seconds between the two readings.
- Game.GameState.OpeningClick sets `start_time` after the deal where the source sets it before. `place_mines` never reads it, so the resulting state is the same.
- Game.GameState.Tick, Game.GameState.RevealSafe and Game.GameState.Explode compute the elapsed time as an unbounded `now - startTime`. The `(int)` cast of a `time_t` difference is not modelled.
- Integers are unbounded. No core counter can overflow: the score is at most 1960, and the counts, at most 8, fit the `char` field.

## Findings

| source | as written | input that shows it | evidently intended | confidence | as-written member | corrected member |
|---|---|---|---|---|---|---|
| minesweeper.c:340-342 | the column is the pixel's distance from offset_x divided by CELL_SIZE in C division, which truncates toward zero, so every x from 21 to 59 maps to column 0; the right-click branch (minesweeper.c:364-366) converts the same way | a left click at pixel (30, 200), in the margin left of the grid, reveals cell (0, 2) | clicks outside the grid are ignored, which floor division (or a pixel bounds test) gives | not executed | Input.MarginClickAsWritten | Input.CellAt |
