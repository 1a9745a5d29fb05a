# Minesweeper engine in Dafny

A model of the game engine of `MinesweeperPro` (`script.js`), with all display
work removed, plus proofs about it. The engine is a small state machine over a
`rows` x `cols` grid. Each cell has four fields: `isMine`, `isRevealed`,
`isFlagged` and `adjacent`. The session has four more: the mine target
`mines`, the flag counter `flags`, and the status bits `gameOver` and
`firstClick`.

The project has four modules:

- `Board` (`Board.dfy`) models the board.
  - The board is a map from coordinates to cells. A valid board has exactly
    one cell per in-bounds coordinate.
  - `getNeighbors` is modelled as two recursive functions. They mirror the
    source's outer `dr` loop and inner `dc` loop, so the neighbour list comes
    out in the same order as in the source.
  - It also has the neighbour mine count and the consistency predicate
    `Consistent`: every safe cell's `adjacent` is its neighbour mine count,
    and every mine cell's `adjacent` is 0.
- `MinePlacement` (`MinePlacement.dfy`) models `placeMines`.
  - The source draws coordinates with `Math.random` until enough mines are
    placed. Here those draws are a sequence passed in as a parameter.
  - A draw that hits the excluded cell, or a cell that already holds a mine,
    is rejected, as in the source.
  - After the placement loop comes the counting pass.
- `FloodFill` (`FloodFill.dfy`) models `revealCell`.
  - It is written as two mutually recursive functions: one for a single
    cell, and one for the `forEach` over the neighbour list.
  - The termination measure is the number of concealed cells.
- `Session` (`Session.dfy`) models the game session:
  - the difficulty table and game set-up (`startGame`);
  - `toggleFlag`, `handleClick` and `checkWin`;
  - the invariant that every reachable game keeps;
  - runs of several commands.

`Wrappers.dfy` holds the `Option` type. `None` is the result only when the
draws passed in ran out before every mine was placed.

## Behaviour worth noting

The model keeps these details of the code:

- **Losing click.** When a mine is clicked, the code calls `revealMines`.
  That function only changes how the mines are displayed. It never sets
  `isRevealed`, so the model leaves the board unchanged and only sets
  `gameOver` (script.js:129-135, 185-195).
- **Flag before the first click.** `toggleFlag` checks only `gameOver` and
  `isRevealed`, so flags can be placed before the first click as well
  (script.js:166-170).
- **First click on a flagged cell.** The first-click branch runs before the
  flagged/revealed early return. A first click on a flagged cell therefore
  places the mines and leaves the Pending phase, but reveals nothing
  (script.js:121-127).
- **No error reporting.** The code reports no error for an out-of-range
  coordinate or for a mine target the board cannot hold.
  - Clicks come only from existing cells, so the model's operations require
    in-bounds coordinates.
  - Game set-up accepts any mine count. `NewGame` promises the invariant
    only when `mines < rows * cols`, and every preset meets that.

## Model

| member | source | states |
|---|---|---|
| Session.Preset | script.js:3-7 | Every difficulty preset has at least one mine and at least one safe cell. |
| Session.PresetStartsWell | script.js:3-7 | A game set up from any preset satisfies the invariant and is in the Pending phase. |
| Session.NewGame | script.js:36-43 | Set-up gives the requested dimensions, no mines, no revealed or flagged cells, a zero flag counter, the first-click state, and the invariant whenever the board can hold all its mines and a safe cell. |
| Board.NewGrid | script.js:56-73 | The set-up loops give a board with one cell per coordinate, each concealed, unflagged, mine-free and with a zero count. |
| Board.PositionsCard | script.js:56-58 | A `rows` x `cols` board has `rows * cols` cells. |
| Board.Neighbors | script.js:102-115 | `getNeighbors` returns exactly the in-bounds cells at offsets in {-1,0,1}², except the cell itself: at most 8, none repeated. |
| Board.ScanCols | script.js:105-112 | The inner `dc` loop pushes at most one coordinate per remaining column offset and skips the cell itself, so its list is bounded by the offsets left. |
| Board.ScanRows | script.js:104-113 | The outer `dr` loop's list is bounded by three coordinates per remaining row offset, less the cell itself. |
| Board.ScanColsMembers | script.js:105-112 | The inner `dc` loop yields exactly the in-bounds neighbours in its row from the current column offset on. |
| Board.ScanRowsSpec | script.js:104-113 | The outer `dr` loop yields exactly the in-bounds neighbours from the current row offset on, in row-major order. |
| Board.NeighborsMember | script.js:102-115 | A coordinate is in a cell's neighbour list exactly when it is one of the cell's Moore neighbours and lies on the board. |
| Board.NeighborsSymmetric | script.js:102-115 | For two cells on the board, each is in the other's neighbour list exactly when the other is in its own. |
| Board.CountMines | script.js:97 | The `filter(n => n.isMine).length` count is at most the list's length, and it is zero exactly when no listed cell is a mine. |
| Board.CountMinesCard | script.js:97 | Over a list without repeats, the filtered count equals the number of mine cells in the list. |
| Board.NeighborCountIsMineNeighbors | script.js:97 | The count over a cell's neighbour list equals the number of mine cells among its in-bounds Moore neighbours. |
| Board.ZeroCountSafe | script.js:156-162 | On a consistent board, a safe cell with count 0 has no mine among its neighbours, which is why the fill may open them. |
| Board.ConsistentKept | script.js:94-99 | Whether the counts are consistent depends only on where the mines are and on the counts themselves. |
| MinePlacement.SetMine | script.js:90 | An accepted draw makes the drawn cell a mine and leaves its other fields and every other cell as they were, so the mine set grows by exactly that cell. |
| MinePlacement.PlaceLoop | script.js:84-92 | The sampling loop places mines only on mine-free cells other than the excluded one, changes nothing else, and raises the mine count by exactly the number still to place. |
| MinePlacement.PlaceLoopCompletes | script.js:86-92 | Draws without repeats that avoid the excluded cell and the existing mines, and that number at least the mines still to place, always finish the loop. |
| MinePlacement.PlacementPossible | script.js:84-92 | When the board has room for the mines besides the excluded cell, some sequence of on-board draws completes the placement. |
| MinePlacement.Counted | script.js:96-97 | At one cell, the counting pass skips a mine cell and gives a safe cell the number of mines among its in-bounds Moore neighbours. It changes no mine, reveal or flag. |
| MinePlacement.CountedAt | script.js:94-98 | At one cell, the counting pass leaves a mine cell alone and gives a safe cell the number of mines among its neighbours. |
| MinePlacement.CountAdjacent | script.js:94-99 | The counting pass changes no mine, reveal or flag. It leaves mine cells as they were, gives every safe cell the number of mines around it, and makes a board whose counts all started at 0 consistent. |
| MinePlacement.PlaceMines | script.js:84-100 | `placeMines` keeps the existing mines and adds exactly `mines` more. The excluded cell's mine status is unchanged, no reveal or flag changes, mine cells keep their count, and safe cells count their neighbouring mines. A fresh board comes out consistent. |
| FloodFill.Open | script.js:150 | Revealing a cell shows it and keeps its mine, flag and count. |
| FloodFill.OpenOne | script.js:147-157 | Opening one concealed cell reveals it and lowers the number of concealed cells by one. Used alone, it is a finished fill when the cell's count is positive, and it opens no mine when the cell is safe. |
| FloodFill.RevealCell | script.js:146-164 | `revealCell` terminates, leaves a revealed or flagged cell alone, and otherwise reveals the cell. It only reveals concealed, unflagged cells and changes nothing else. Every zero-count cell it opens has all its neighbours revealed or flagged. Started on a safe cell of a consistent board, it opens no mine. |
| FloodFill.RevealAll | script.js:159-162 | The `forEach` over the neighbour list only opens cells, and leaves every listed cell revealed or flagged. Every zero-count cell it opens ends settled. It opens no mine when the listed cells are safe and the board is consistent. |
| FloodFill.OpensKeepSafe | script.js:148-150 | Opening only concealed, unflagged, mine-free cells never makes a cell both revealed and flagged, nor reveals a mine. |
| FloodFill.OpensKeepMarks | script.js:148-150 | Revealing cells moves neither flags nor mines. |
| Session.ToggleFlag | script.js:166-183 | `toggleFlag` does nothing once the game is over or on a revealed cell. Otherwise it flips the cell's flag and moves the counter up or down with it, and changes nothing else. |
| Session.FlagKeepsInv | script.js:166-183 | A flag toggle keeps the invariant, including "the counter equals the number of flagged cells", and does not change the phase. |
| Session.FlagTwice | script.js:170-181 | Toggling the same cell twice restores the game exactly, flag and counter included. |
| Session.Arm | script.js:121-125 | On the first click, the mines are placed: existing mines stay, exactly `mines` more are added, the clicked cell's mine status is unchanged, and no cell's reveal or flag changes. The branch fails only when the placement runs out of draws. It clears `firstClick` and keeps the dimensions, the mine target, the counter and the game-over bit. Later clicks pass through it unchanged. |
| Session.ArmKeepsInv | script.js:121-125 | After the first-click branch the invariant holds, the clicked cell is safe if this was the first click, and no cell has been revealed by it. |
| Session.HandleClick | script.js:117-144 | `handleClick` does nothing once the game is over. It fails only when mine placement runs out of draws during a first click, keeps the dimensions, the mine target and the flag counter, and always leaves the first-click state. |
| Session.FirstClickPossible | script.js:121-125 | For every game in the invariant waiting for its first click, and every cell, some on-board draws make the click succeed. |
| Session.ClickKeepsInv | script.js:117-144 | Every click keeps the invariant. |
| Session.ClickOutcome | script.js:121-143 | One click on a live game: the first click makes the cell safe and places exactly `mines` mines. A flagged or revealed cell is left as it was. A mine ends the game as lost with the board unchanged. A safe cell is revealed by a fill that only opens concealed, unflagged cells and leaves every zero-count cell it opens with all its neighbours revealed or flagged; the game then ends exactly when `checkWin` holds, as a win. Every click keeps the flag counter and the set of flagged cells. |
| Session.ClickPhase | script.js:117-144 | Won and Lost are terminal, and after any click the game is no longer Pending. |
| Session.CheckWin | script.js:197-205 | On a valid board, the count test of `checkWin` holds exactly when the concealed cells are as many as the mine target. |
| Session.WinIffAllSafeRevealed | script.js:197-205 | Once the mines are placed, `checkWin`'s count test holds exactly when every safe cell is revealed. |
| Session.RunKeepsInv | script.js:117-183 | Any sequence of clicks and flag toggles keeps the invariant. |
| Session.GameOverIsFinal | script.js:117-170 | Once the game is over, no sequence of commands changes anything. |

## Left out

- Everything that touches the page is left out: the `element` field, `classList` and `textContent` updates, the mine counter display, the board styling and cell sizes, event-listener wiring, `showModal`/`closeModal` and `window.onload`.
- Reading the difficulty from the `<select>` element is left out. `NewGame` takes the dimensions and mine target directly, and `Preset` holds the table.
- `revealMines` is left out, because it only changes what is displayed. The losing click sets `gameOver` and leaves the board as it is.
- The timer (`startTimer`, `setInterval`, `clearInterval`) and the `setTimeout` shake animation are left out. They are wall-clock side effects with no bearing on the board.
- The `Math.random` distribution is left out. The draws are a parameter, each on the board, as flooring a random fraction of `rows` and of `cols` guarantees.
- MinePlacement.PlaceMines: returns `None` when the finite draws run out. The source keeps drawing, and almost surely finishes whenever a safe cell remains; `PlacementPossible` shows that suitable draws always exist. When `mines >= rows * cols` the source loops forever, and that is not modelled.
- Session.HandleClick: passes on the `None` of mine placement. In the source, a click always finishes.
- Board.ScanCols: its contract bounds only the length of the list. Which coordinates it yields is stated by `ScanColsMembers`, and their order by `ScanColsSorted`.
- Board.ScanRows: its contract bounds only the length of the list. Its contents and row-major order are stated by `ScanRowsSpec`.
- FloodFill.RevealCell: proves that every opened zero-count cell is settled and that only concealed, unflagged cells are opened. It does not prove that the fill stops at the region reachable through zero-count cells, which is the converse.
- Session.NewGame: states the invariant only when `mines < rows * cols`. The source accepts any target, and a larger one would make mine placement loop forever.
