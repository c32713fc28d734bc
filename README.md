# Maze race: generator and game rules in Dafny

This project models the two pieces of logic of a two-player maze race and
proves their properties:

- `generateMaze` (`src/utils/mazeGenerator.ts`), a randomized depth-first
  "recursive backtracker". It builds a `height` x `width` grid of closed
  cells and carves passages with an explicit stack and a `current` cursor
  until the stack is empty. It then marks the bottom-right cell as the
  exit. The model works in place on a flat `array<Cell>` indexed
  `y * width + x` (`MazeGrid.Idx`); `MazeGrid.Rows` gives the `Cell[][]`
  view the game reads.
- The state transitions of the `useGameState` hook
  (`src/hooks/useGameState.ts`): `canMove`, `movePlayer` with
  `checkWinCondition`, the AI tick `moveAI`, the arrow-key handler
  `handleKeyDown`, the `playerMove` and `gameStateUpdate` handlers, and the
  initial state. The rules are pure functions on a `GameState` value
  (`GameRules`). The hook itself is the class `GameSession.Game`, which
  holds the state and the outbox of records passed to `sendMove`. Each
  handler is one atomic step.

Files and modules:

| file | module | contents |
|---|---|---|
| `types.dfy` | `MazeTypes` | cells, walls, players, the game state, the move record |
| `maze_grid.dfy` | `MazeGrid` | the flat grid, what a perfect maze is, counts, paths, wall removal |
| `maze_generator.dfy` | `MazeGenerator` | grid setup, `getNeighbors`, `removeWalls`, the loop, `generateMaze` |
| `game_rules.dfy` | `GameRules` | `canMove`, `movePlayer`/`checkWinCondition`, AI tick, key handler, peer handlers |
| `race_board.dfy` | `RaceBoard` | the rules played on a generated 60x60 maze |
| `game.dfy` | `GameSession` | the class `Game` holding the hook's state and the outbox |

Modelling choices:

- **Random draws.** `Math.floor(Math.random() * n)` becomes a draw taken
  modulo `n`. The generator takes a sequence `choices`, one draw per carve.
  Exactly `width * height - 1` carves happen, so that many draws are
  required. The AI tick takes one draw, `choice`.
- **Thrown errors.** A JavaScript `TypeError` is the outcome `Thrown` of
  `GameRules.Result`; it arises when a property of `undefined` is read. In
  `canMove`, the player's row may be missing, which throws for every key.
  A missing cell throws only for the arrow keys, since only they read the
  walls. `checkWinCondition` throws when the destination is not a cell.
  `handleKeyDown` and the `playerMove` handler throw when `players[0]` is
  missing; `moveAI` returns early instead. In the class `Game`, a handler
  that throws returns `thrown = true` and leaves the state unchanged. That
  is a convention of the model: in the source a throw inside the
  `movePlayer` updater happens while React renders, and the application has
  no error boundary to catch it.
- **The record is sent before the move applies.** In `handleKeyDown`,
  `sendMove` runs after `movePlayer` is queued. So the record is in the
  outbox even when applying the move throws.

In these places the code departs from what the game evidently intends; the
model follows the code:

- A finished game still accepts moves. `movePlayer` never looks at the
  status. Remote moves are applied after `finished` and without a `canMove`
  check. `GameRules.MoveWins` and `GameRules.RemoteMoveSpec` state this.
- `checkWinCondition` overwrites an earlier winner whenever the destination
  is the exit.
- `canMove` checks bounds against the constants `MAZE_WIDTH` and
  `MAZE_HEIGHT` (60), not the maze's own size. It checks only the axis of
  the move.
- `canMove` looks the player up with `find`, which returns the first player
  with the id. `movePlayer` moves every player with the id. `moveAI` steps
  from `players[1]`'s position but checks walls at the first player with
  that id. The AI results in `RaceBoard` therefore require the first two
  ids to differ.

## Model

| member | source | states |
|---|---|---|
| `MazeGenerator.NewGrid` | src/utils/mazeGenerator.ts:5-17 | the new grid has `width * height` cells; the cell at (x, y) stores x and y, has all four walls, is unvisited and is not the exit |
| `MazeGenerator.FillRow` | src/utils/mazeGenerator.ts:8-16 | filling one row extends the prefix of initial cells by exactly one row |
| `MazeGenerator.PristineGrid` | src/utils/mazeGenerator.ts:5-17 | a grid of initial cells is well shaped: index `y * width + x` holds the cell of (x, y) |
| `MazeGrid.Rows` | src/utils/mazeGenerator.ts:5-17 | the row view has `height` rows of `width` cells, and on a well-shaped grid `rows[y][x]` stores the coordinates x and y (lines 11-12) |
| `MazeGenerator.InGridNeighbors` | src/utils/mazeGenerator.ts:20-28 | the candidates are exactly the cells one grid step away, at most four |
| `MazeGenerator.Unvisited` | src/utils/mazeGenerator.ts:29 | the filter keeps exactly the unvisited candidates, in their original order |
| `MazeGenerator.GetNeighbors` | src/utils/mazeGenerator.ts:20-30 | the result is exactly the set of unvisited cells one grid step from the cell |
| `MazeGenerator.AdjacentCases` | src/utils/mazeGenerator.ts:24-27 | every cell one step away is one of the four in-bounds candidates top, right, bottom, left |
| `MazeGenerator.RemoveWalls` | src/utils/mazeGenerator.ts:33-52 | the grid becomes `Carve`: the side of `current` facing `next` and the side of `next` facing `current` come down, nothing else changes |
| `MazeGrid.Carve` | src/utils/mazeGenerator.ts:33-52 | `removeWalls` on grid values; its contract is given by `CarveWallsAt`, `CarveOpensPair`, `CarveSymmetric`, `CarveBoundary` and `CarveAddsOneEdge` |
| `MazeGrid.CarveWallsAt` | src/utils/mazeGenerator.ts:33-52 | exactly which wall flags of which cell a removal clears |
| `MazeGrid.CarveOpensPair` | src/utils/mazeGenerator.ts:33-52 | after removal between neighbours the passage is open in both directions and no wall closes |
| `MazeGrid.CarveSymmetric` | src/utils/mazeGenerator.ts:37-51 | removal between neighbours keeps wall symmetry (right of (x, y) equals left of (x+1, y), bottom equals top below) |
| `MazeGrid.CarveBoundary` | src/utils/mazeGenerator.ts:24-27 | removal between neighbours never opens an outer wall |
| `MazeGrid.CarveAddsOneEdge` | src/utils/mazeGenerator.ts:62-67 | carving into a closed cell adds exactly one open inner wall pair |
| `MazeGenerator.Advance` | src/utils/mazeGenerator.ts:65-66 | one forward step on grid values, removal then visit; its contract is given by `AdvanceGrid`, `AdvanceCounts` and `CarveStep` |
| `MazeGenerator.StepTo` | src/utils/mazeGenerator.ts:65-66 | a forward step is a wall removal followed by marking `next` visited |
| `MazeGenerator.BacktrackingStart` | src/utils/mazeGenerator.ts:55-57 | after visiting (0, 0) the loop invariant holds with an empty stack, and one cell is visited |
| `MazeGenerator.AdvanceGrid` | src/utils/mazeGenerator.ts:62-67 | a forward step keeps shape, symmetry and the outer walls, only opens walls, links `current` to `next`, and adds one edge and one visited cell |
| `MazeGenerator.AdvanceCounts` | src/utils/mazeGenerator.ts:62-67 | a forward step raises the edge count and the visited count by one each |
| `MazeGenerator.CarveStep` | src/utils/mazeGenerator.ts:62-67 | pushing `current` and carving into an unvisited neighbour keeps the loop invariant |
| `MazeGenerator.FrontierAdvances` | src/utils/mazeGenerator.ts:62-67 | after the step, every visited cell other than the new `current` and the stacked cells has no unvisited neighbour |
| `MazeGenerator.PathsAdvance` | src/utils/mazeGenerator.ts:62-67 | every visited cell, the new one included, keeps an open path from (0, 0) |
| `MazeGenerator.PopStep` | src/utils/mazeGenerator.ts:68-69 | popping the stack when `current` is finished keeps the loop invariant |
| `MazeGenerator.CoveredAt` | src/utils/mazeGenerator.ts:59-73 | when no visited cell has an unvisited neighbour and (0, 0) is visited, every cell is visited |
| `MazeGenerator.DoneStep` | src/utils/mazeGenerator.ts:70-71 | at the break, every cell is visited, there are `w*h - 1` open edges and every cell is reachable from (0, 0) |
| `MazeGenerator.Backtrack` | src/utils/mazeGenerator.ts:55-73 | the loop terminates (measure 2 x unvisited + stack size) with a spanning tree of the grid |
| `MazeGenerator.MarkExit` | src/utils/mazeGenerator.ts:75-76 | marking the last cell turns the spanning tree into a perfect maze with that one exit |
| `MazeGenerator.GenerateMaze` | src/utils/mazeGenerator.ts:3-79 | the result is well shaped, symmetric, has closed outer walls, all cells visited, `w*h - 1` open edges, every cell reachable from (0, 0), and exactly one exit, at (w-1, h-1) |
| `MazeGrid.ExitCorner` | src/utils/mazeGenerator.ts:76 | in a perfect maze the cell at (x, y) is the exit iff (x, y) = (w-1, h-1) |
| `MazeGrid.SingleCell` | src/utils/mazeGenerator.ts:59-76 | a perfect 1x1 maze is one cell with all four walls, visited and the exit |
| `MazeGrid.LinkedBack` | src/utils/mazeGenerator.ts:33-51 | with symmetric walls every open passage is open from both ends |
| `MazeGrid.CellHasOpening` | src/utils/mazeGenerator.ts:59-73 | in a perfect maze of two or more cells every cell has an open passage to a neighbour |
| `MazeGrid.OpenWallInside` | src/utils/mazeGenerator.ts:24-27 | with closed outer walls an open wall never faces outside the grid |
| `MazeGrid.VisitedCountBounds` | src/utils/mazeGenerator.ts:59-73 | the visited count is at most the cell count, equal to it iff all cells are visited, zero iff none is |
| `MazeGrid.PathSurvives` | src/utils/mazeGenerator.ts:33-52 | a path of open walls stays a path when walls only come down |
| `GameRules.Find` | src/hooks/useGameState.ts:40 | `find` yields nothing iff no player has the id, otherwise the first player with it |
| `GameRules.Step` | src/hooks/useGameState.ts:85-98 | an arrow moves one cell along exactly one axis; any other key does not move |
| `GameRules.CanMove` | src/hooks/useGameState.ts:52-70 | `canMove` with its throws; its contract is given by `CanMoveUnknownPlayer`, `CanMoveOtherKey`, `CanMoveLegal` and `CanMoveThrows` |
| `GameRules.CanMoveUnknownPlayer` | src/hooks/useGameState.ts:53-54 | an id no player has gives `false` for every key |
| `GameRules.CanMoveOtherKey` | src/hooks/useGameState.ts:67-68 | a non-arrow key never gives `true`; it throws iff the player's row is missing |
| `GameRules.CanMoveLegal` | src/hooks/useGameState.ts:56-66 | for a player on a cell of the board: no throw, and `true` iff an arrow, the wall on that side is down and the destination is on the board |
| `GameRules.CanMoveThrows` | src/hooks/useGameState.ts:56-66 | reading the current cell (`LookUp`, JavaScript's `maze[y][x]`) throws iff its row is missing, or the cell is missing and the key is an arrow |
| `GameRules.MovePlayer` | src/hooks/useGameState.ts:21-50 | `movePlayer` together with `checkWinCondition`; its contract is given by `MoveUnknownId`, `MoveFrame` and `MoveWins` |
| `GameRules.MovePlayers` | src/hooks/useGameState.ts:36-38 | the map keeps length and order, moves every player with the id to (x, y) and keeps all others |
| `GameRules.MoveUnknownId` | src/hooks/useGameState.ts:34-49 | a move for an id nobody has leaves the state unchanged |
| `GameRules.MoveFrame` | src/hooks/useGameState.ts:34-49 | a move keeps the maze and the roster's length; players with the id are at (x, y), all others unchanged |
| `GameRules.MoveWins` | src/hooks/useGameState.ts:21-43 | with the id present: throws iff `LookUp` finds no cell at (x, y); at the exit status becomes finished and winner the mover, whatever they were, otherwise both stay |
| `GameRules.LegalMoves` | src/hooks/useGameState.ts:77-78 | the filter throws iff some `canMove` throws, else keeps exactly the directions `canMove` allows, in the order of `directions` |
| `GameRules.AiMove` | src/hooks/useGameState.ts:73-102 | the AI tick; its contract is given by `AiMoveSpec` and `AiStuck` |
| `GameRules.AiMoveSpec` | src/hooks/useGameState.ts:73-102 | no change without `players[1]` or outside `playing`; any move is `players[1]`'s id stepping in a direction `canMove` allowed |
| `GameRules.AiStuck` | src/hooks/useGameState.ts:80 | when no direction is allowed the tick changes nothing |
| `GameRules.KeyDown` | src/hooks/useGameState.ts:104-138 | `handleKeyDown`, returning the new state and the record sent; its contract is given by `KeyDownSpec` |
| `GameRules.KeyDownSpec` | src/hooks/useGameState.ts:104-138 | no change and no record outside `playing`, for non-arrow keys, or when `canMove` is false; an allowed move sends exactly one record with the mover's id and destination |
| `GameRules.RemoteMove` | src/hooks/useGameState.ts:143-147 | the `playerMove` handler; its contract is given by `RemoteMoveSpec` |
| `GameRules.RemoteMoveSpec` | src/hooks/useGameState.ts:143-147 | a remote record for the local player is ignored, any other is exactly `movePlayer` with no legality check |
| `GameRules.InitialState` | src/hooks/useGameState.ts:11-19 | the game starts `playing` with no winner, player "1" at (0, 0) and player "2" at (0, `MAZE_HEIGHT` - 1) |
| `RaceBoard.BoardCells` | src/hooks/useGameState.ts:22 | on a generated 60x60 maze the cells found are exactly the board positions, and the exit is only (59, 59) |
| `RaceBoard.BoardCanMove` | src/hooks/useGameState.ts:52-70 | on a generated maze `canMove` is true iff the wall is down, and an allowed move goes through an open passage both ways |
| `RaceBoard.BoardMove` | src/hooks/useGameState.ts:21-50 | on a generated maze a move to the board never throws and finishes the game exactly at (59, 59) |
| `RaceBoard.MoveStaysOnBoard` | src/hooks/useGameState.ts:34-49 | a move to a board position keeps every player on the board |
| `RaceBoard.KeyDownOnBoard` | src/hooks/useGameState.ts:104-138 | on a generated maze with all players on the board, the key handler never throws and keeps them on the board |
| `RaceBoard.AiMoveOnBoard` | src/hooks/useGameState.ts:73-102 | on a generated maze the AI tick never throws and keeps all players on the board |
| `RaceBoard.SomeLegalMove` | src/hooks/useGameState.ts:77-80 | on a generated maze every player on the board has a legal direction |
| `RaceBoard.AiAlwaysMoves` | src/hooks/useGameState.ts:73-102 | while playing on a generated maze, every AI tick moves `players[1]` one cell along one axis |
| `RaceBoard.StartOnMaze` | src/hooks/useGameState.ts:11-19 | the initial state around a generated maze is sound |
| `RaceBoard.AiNeverThrows` | src/hooks/useGameState.ts:73-102 | from a sound state the AI tick never throws and the state stays sound |
| `RaceBoard.KeyDownNeverThrows` | src/hooks/useGameState.ts:104-138 | from a sound state the key handler never throws and the state stays sound |
| `GameSession.Game.constructor` | src/hooks/useGameState.ts:11-19 | the state is the initial state around some perfect 60x60 maze, the outbox is empty |
| `GameSession.Game.MovePlayer` | src/hooks/useGameState.ts:34-50 | the state becomes the `movePlayer` result, or stays when that throws |
| `GameSession.Game.MoveAI` | src/hooks/useGameState.ts:73-102 | the state becomes the AI tick's result; from a sound state it never throws and stays sound |
| `GameSession.Game.HandleKeyDown` | src/hooks/useGameState.ts:104-138 | the state becomes the handler's result and the outbox grows by the record it sends; from a sound state it never throws and stays sound |
| `GameSession.Game.OnPlayerMove` | src/hooks/useGameState.ts:143-147 | the state becomes the remote move's result, or stays when it throws |
| `GameSession.Game.OnGameStateUpdate` | src/hooks/useGameState.ts:149-151 | the snapshot replaces the whole state; the outbox is unchanged |

## Left out

- Rendering, UI chrome and colours: the player `color` strings are not modelled.
- The socket transport. `sendMove` is an append to `Game.outbox`, and inbound events are method calls; connection setup and the callback registry are not modelled.
- React mechanics: updater scheduling, the nested `setGameState` inside the `movePlayer` updater, stale closures over `gameState`, dependency lists, key listener registration and the `setInterval` timer. Each handler is one atomic step on the current state.
- `Math.random`/`Math.floor` floating point: replaced by draws taken modulo the number of candidates.
- Cells as shared mutable objects: the source's neighbour list holds references into the grid; the model uses indices into one array, so aliasing between cells is not modelled.
- MazeGenerator.GenerateMaze: requires `width, height >= 1`. For smaller sizes the source fails with a `RangeError` or `TypeError`, and that failure is not modelled. It also requires at least `width * height - 1` draws, which is exactly the number of carves.
- MazeGenerator.GenerateMaze: states `w*h - 1` open edges and connectivity. It does not prove separately that the path between two cells is unique, which follows from those two facts in graph theory.
- GameSession.Game.MovePlayer, GameSession.Game.MoveAI, GameSession.Game.HandleKeyDown, GameSession.Game.OnPlayerMove: a `TypeError` is reported through `thrown` with the state left as it was; the source raises it during React's render with no error boundary, which is not modelled.
- MazeGrid.SingleCell: states what a 1x1 maze is, not that the loop breaks on its first iteration.
- The `gameStateUpdate` snapshot and remote `playerMove` records are arbitrary values: no property of a state after them is claimed beyond what the handlers do.
