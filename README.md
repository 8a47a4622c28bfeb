# Mine-finder game engine in Dafny

This project models the game-state engine of a browser mine-finding game
("Bomberman 2"), written in JavaScript in `script.js`, apart from its DOM code.
The model covers:

- the board: rows of tiles, each with a fixed mine flag and one of the
  statuses `hidden`, `mine`, `number` and `marked`;
- revealing a tile, including the recursive flood fill;
- the neighbour lookup;
- flag toggling against the global `count`, and recounting the marked tiles;
- mine placement by rejection sampling;
- building the board;
- the win and lose checks, and the sweep over the board after a loss.

Modules, one per part of the engine:

- `Tiles` (`tiles.dfy`): statuses, tiles, positions, boards (`board[x][y]`,
  like the source's array of row arrays), counting tiles by status, and the
  status invariant `Consistent`. `Consistent` says only mine tiles show `mine`
  and only safe tiles show `number`.
- `Reveal` (`reveal.dfy`): `nearbyTiles` and `revealTile`. The reveal is
  specified by the pure functions `Revealed` and `RevealedAll`. Their
  termination measure is the number of hidden tiles.
- `Marking` (`marking.dfy`): `markTile` as `Toggle`, and the flag budget kept
  by a right click (mark, then recount).
- `Mines` (`mines.dfy`): `positionMatch`, `getMinePositions` and `createBoard`.
- `EndGame` (`endgame.dfy`): `checkWin`, `checkLose` and the lose-branch sweep.
- `Game` (`game.dfy`): the class `Minefield`, holding the board and `count`.
  Its methods update them in place and are proved equal to the functions above.
  Its methods `OnClick` and `OnRightClick` are the two tile listeners. Each is
  proved equal to the pure `Handle`, which is used to state properties of whole
  event sequences.

The model keeps the source's behaviour where it differs from a textbook
mine-finder:

- The lookup tries offsets -1 and 0 in each axis. It therefore includes the tile
  itself and never looks down or to the right.
- A revealed safe tile cascades when none of the (at most four) looked-up tiles
  holds a mine.
- `createBoard` always builds 10 rows of `boardSize` tiles.
- The flag cap is the literal `count < 10` (script.js:66), and `count` starts
  at 1. The 10 equals `NUMBER_OF_MINES` (script.js:13) but does not follow it.
- There is no check of the configuration. `getMinePositions` (script.js:136)
  keeps drawing until it has `numberOfMines` distinct positions, and
  `randomNumber(size)` (script.js:155) returns 0 .. size - 1, or only 0 when
  size is 0. So with boardSize >= 1 and more mines than boardSize² squares the
  loop never finishes. With boardSize 0 every draw is (0, 0): one mine is
  placed, though the board has no tiles, and more than one never finishes.
  `Mines.MinePositionsInSquare` and `Mines.EmptyBoardDraws` prove both cases.
- There is no separate exploded state: revealing a mine sets its status to
  `mine`, and checkLose looks for that status.

## Model

| member | source | states |
|---|---|---|
| `Reveal.Nearby` | script.js:159-171 | every position the lookup returns names a tile of the board |
| `Reveal.NearbyFacts` | script.js:159-171 | the lookup returns at most 4 distinct positions: exactly the tiles of the board at offsets -1 or 0 in each axis, the tile itself included |
| `Reveal.NearbyTiles` | script.js:159-171 | the nested offset loops build exactly the lookup's list, in the same order |
| `Reveal.MinesAmong` | script.js:91-92 | the mine filter is empty iff no looked-up tile holds a mine |
| `Reveal.Revealed` | script.js:76-103 | a reveal keeps dimensions and mine flags; it never increases the number of hidden tiles and strictly lowers it when the target is hidden (the termination measure); on a safe target it only turns hidden safe tiles into numbers |
| `Reveal.RevealedAll` | script.js:92-93 | revealing the safe targets in turn only turns hidden safe tiles into numbers, and never increases the hidden count |
| `Reveal.RevealSettled` | script.js:76-79 | a tile that is not hidden leaves the board unchanged; after a reveal the target is not hidden; so revealing the same tile twice equals revealing it once |
| `Reveal.RevealMineTile` | script.js:80-88 | revealing a hidden mine sets its status to `mine` and changes no other tile |
| `Reveal.RevealSafeTile` | script.js:89-96 | revealing a hidden safe tile sets it to `number`, changes only hidden safe tiles into numbers, and lowers the hidden count |
| `Reveal.RevealStopsNearMine` | script.js:90-102 | when a looked-up tile holds a mine, only the target changes (no cascade) |
| `Reveal.RevealCascades` | script.js:92-93 | when no looked-up tile holds a mine, every hidden looked-up tile becomes a number in the same call |
| `Reveal.RevealedAllSettles` | script.js:93 | after the forEach, none of its targets is hidden |
| `Reveal.GrowsFacts` | script.js:89-96 | a cascade sets no tile to `mine`, leaves `marked`, `mine` and `number` tiles alone, only moves tiles from `hidden` to `number`, and keeps the marked and mine counts and the status invariant |
| `Reveal.RevealKeeps` | script.js:76-103 | any reveal keeps the number of marked tiles and the status invariant |
| `Reveal.TopLeftRevealsAlone` | script.js:162-163 | at the top-left tile the lookup is the tile alone, so revealing it there changes nothing else |
| `Game.Minefield.RevealTile` | script.js:76-103 | the recursive method leaves exactly the board `Revealed` gives, keeps `count` and the status invariant, and terminates on the hidden-tile count |
| `Game.Minefield.RevealEach` | script.js:93 | the forEach over the lookup leaves exactly the board `RevealedAll` gives |
| `Marking.Toggle` | script.js:54-73 | markTile changes only the target tile and keeps every mine flag |
| `Marking.ToggleCases` | script.js:54-73 | `marked` becomes `hidden` whatever the count; `hidden` becomes `marked` iff count < 10; `number` and `mine` tiles are left alone |
| `Marking.ToggleCount` | script.js:58-72 | a toggle changes the marked count by +1 exactly when it marks, by -1 when it unmarks, and keeps the status invariant |
| `Game.Minefield.MarkTile` | script.js:54-73 | the method leaves the board `Toggle` gives for the current count, and keeps `count` |
| `Game.Minefield.ListMineLeft` | script.js:45-51 | `count` becomes the number of marked tiles; the board and the status invariant are unchanged |
| `Tiles.SetStatus` | script.js:122-124 | the status setter changes the status of that one tile only, keeping its mine flag and every dimension |
| `Tiles.CountRow` | script.js:47 | `row.filter(status === s).length` is at most the row's length, and zero exactly when no tile of the row has status s |
| `Tiles.CountStatus` | script.js:46-48 | the `reduce` over rows; its properties are stated by `Tiles.CountZero` and `Tiles.CountSet` |
| `Tiles.CountZero` | script.js:46-48 | the board count of a status is zero exactly when no tile has that status |
| `Tiles.CountSet` | script.js:46-48 | changing one tile's status moves a status count by the status change alone |
| `Marking.FlagStep` | script.js:31-35 | a right click (mark, then recount) keeps dimensions and mine flags |
| `Marking.FlagStepBudget` | script.js:45-73 | from count >= marked and marked <= 10, one right click leaves at most 10 marked tiles and count equal to their number |
| `Mines.PositionMatch` | script.js:149-151 | two positions match iff they are equal |
| `Mines.AnyMatch` | script.js:141 | `some(positionMatch…)` holds iff the position is in the list |
| `Mines.Place` | script.js:136-144 | the rejection loop from any start only extends it, only adds drawn candidates, and ends with at most the larger of the start's length and the target count |
| `Mines.MinePositions` | script.js:134-146 | the positions getMinePositions returns were all drawn, and there are never more than numberOfMines (none when it is not positive) |
| `Mines.GetMinePositions` | script.js:134-146 | the while loop returns exactly the rejection-sampling result for the candidate stream, with no repeats |
| `Mines.PlaceFacts` | script.js:136-144 | from any distinct start, the loop keeps positions distinct, extends the start, only adds drawn candidates, stops at the target count, and stops short only once every candidate was taken |
| `Mines.MinePositionsFacts` | script.js:134-146 | the returned positions are distinct and drawn, at most numberOfMines of them; fewer only if every candidate was already chosen |
| `Mines.MinePositionsEnough` | script.js:136 | a stream offering at least n distinct positions yields exactly n |
| `Mines.DrawSpan` | script.js:154-156 | randomNumber(size) can return `size` values for size >= 1 and exactly one value, 0, for size 0 |
| `Mines.MinePositionsInSquare` | script.js:136-156 | for every boardSize >= 0, candidates drawn as randomNumber draws (a square of side DrawSpan(boardSize)) give positions in that square; with more mines than its positions the loop never completes; with no more and every position offered it yields exactly n |
| `Mines.PlaceStuck` | script.js:136-144 | once every remaining candidate is already chosen, the loop adds nothing more |
| `Mines.EmptyBoardDraws` | script.js:136-155 | with boardSize 0 every draw is (0, 0): the positions are exactly [(0, 0)], and they are complete exactly when one mine is asked for |
| `Mines.CreateBoard` | script.js:106-131 | the board has 10 rows of boardSize hidden tiles; tile (x,y) holds a mine iff (x,y) is among the chosen positions |
| `Mines.LaidOutMines` | script.js:109-118 | the mines of the board are the chosen positions inside its 10 rows; with boardSize <= 10 and positions in range, there are exactly as many mines as positions |
| `Mines.DefaultBoardHasTenMines` | script.js:12-15 | createBoard(9, 10) with a stream in range offering 10 distinct positions gives 10 rows of 9 tiles with exactly 10 mines |
| `Mines.LayoutKeepsMines` | script.js:114-118 | boards with the same layout have the same set of mine positions |
| `Game.Minefield.constructor` | script.js:12-15 | the initial state is the createBoard layout for BOARD_SIZE 9 and NUMBER_OF_MINES 10, with count = 1 and the status invariant |
| `EndGame.WinTile` | script.js:223 | a mine tile passes unless it shows `mine`; a safe tile passes exactly when it shows `number` |
| `EndGame.CheckWin` | script.js:220-226 | checkWin holds exactly when no mine tile shows `mine` and every safe tile shows `number` |
| `EndGame.CheckLose` | script.js:228-234 | some tile shows `mine`; its properties are stated by `EndGame.LoseIffCount`, `EndGame.LoseExcludesWin` and `EndGame.RevealLoses` |
| `EndGame.WinIff` | script.js:220-226 | checkWin holds iff every safe tile is a number and no tile shows `mine` |
| `EndGame.LoseExcludesWin` | script.js:220-234 | a board where checkLose holds never satisfies checkWin |
| `EndGame.LoseIffCount` | script.js:228-234 | checkLose holds iff the count of `mine` tiles is positive |
| `EndGame.RevealLoses` | script.js:76-88 | after a reveal, checkLose holds iff it held before or the target was a hidden mine |
| `EndGame.SweepTile` | script.js:203-210 | one tile of the sweep keeps its mine flag and is never left marked; a mine tile that does not show `number` ends as `mine`; a marked safe tile ends hidden; any other tile is unchanged |
| `EndGame.Swept` | script.js:202-211 | the sweep keeps dimensions and mine flags, and each tile becomes what the one-tile step (unmark, then reveal a mine) makes of it, whatever its neighbours |
| `EndGame.SweptFacts` | script.js:202-211 | on a consistent board, after the sweep no tile is marked, every mine shows `mine`, safe tiles change only from marked to hidden, and checkLose holds iff the board has a mine |
| `Game.Minefield.SweepAt` | script.js:203-210 | the callback for one tile unmarks it if marked, then reveals it if it holds a mine, and changes nothing else |
| `Game.Minefield.RevealMines` | script.js:202-211 | the nested sweep over rows and tiles leaves exactly the board `Swept` gives, keeping the status invariant |
| `Game.Minefield.CheckGameEnd` | script.js:174-212 | win and lose are the two checks on the board as it was, never both; on a loss the board is swept, otherwise unchanged |
| `Game.Minefield.OnClick` | script.js:27-30 | the click listener (revealTile, then checkGameEnd) leaves exactly the state `Handle` gives for a click, keeps the status invariant, and returns as `win` and `lose` the two checks on the board after the reveal, never both true |
| `Game.Minefield.OnRightClick` | script.js:31-35 | the contextmenu listener (markTile, then listMineLeft) leaves exactly the state `Handle` gives for a right click, and keeps the status invariant |
| `Game.Handle` | script.js:27-35 | a click or right click keeps dimensions and mine flags |
| `Game.Play` | script.js:22-38 | any sequence of clicks and right clicks keeps dimensions and mine flags |
| `Game.HandleBudget` | script.js:27-35 | each handler keeps the status invariant, at most 10 marked tiles, and count at least the marked count |
| `Game.PlayBudget` | script.js:22-73 | from any such state, any sequence of clicks and right clicks keeps the status invariant and never leaves more than 10 marked tiles |
| `Game.PlayKeepsMines` | script.js:22-38 | no sequence of events adds, removes or moves a mine |
| `Game.FreshBoardBudgeted` | script.js:40 | a fresh board with count = 1 starts within the flag budget |

## Left out

- All DOM work is left out: elements, `dataset`, class lists, glyphs, font
  sizes, the `data` attribute, tile ids and `counter`. The status that the source
  keeps in the element's dataset is a plain field of the tile record.
- Display text is not modelled: the result message, the mines-left counter
  (`flagList + markedTilesCount`), the bomb total, and the win branch of
  checkGameEnd. None of them changes a tile status.
- Input freezing (`stopProp` and the capturing listeners added on a win or loss)
  is not modelled. `Game.Play` accepts any event sequence. Its lemmas therefore
  also hold for the shorter sequences that freezing lets through.
- `Math.random` in `randomNumber` is a foreign, non-deterministic call. The
  model replaces it with a sequence of candidate positions that the caller
  supplies. When that sequence runs out before enough positions are found,
  `GetMinePositions` returns what it has, where the source would keep drawing.
  The lemmas state when the stream is long enough.
- Tiles are addressed by their (x, y) position instead of by object reference.
  The source gives each tile fields x and y equal to its indices, so nothing is
  lost.
- The number of adjacent mines (`mines.length`) is only written into the
  element's text, so only whether it is zero is modelled.
- Integers are unbounded. The source's numbers are doubles, which are exact at
  these sizes.

## Findings

None. The differences from a textbook game listed above are kept as written,
and the model proves what they imply (for example `Reveal.TopLeftRevealsAlone`
and `Mines.LaidOutMines`).
