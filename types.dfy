/** Value types shared by the maze generator and the game state: cells,
    players, the game state and the move record published to peers. */
module MazeTypes {

  datatype Option<T> = None | Some(value: T)

  /** `a` is `b` with some elements left out and the rest kept in order, as
      `Array.prototype.filter` leaves its input. */
  ghost predicate Subsequence<T>(a: seq<T>, b: seq<T>)
    decreases |b|
  {
    |a| <= |b| &&
    (a == [] || (a[0] == b[0] && Subsequence(a[1..], b[1..])) || Subsequence(a, b[1..]))
  }

  /** The wall flags of one cell; `true` means the wall is standing. */
  datatype Walls = Walls(top: bool, right: bool, bottom: bool, left: bool)

  const AllWalls := Walls(true, true, true, true)

  /** One grid unit. A cell stores its own column `x` and row `y`. */
  datatype Cell = Cell(x: int, y: int, walls: Walls, visited: bool, isExit: bool)

  /** A racer; the display colour is not modelled. */
  datatype Player = Player(id: string, x: int, y: int)

  datatype Status = Waiting | Playing | Finished

  /** The whole state the game keeps: the maze as rows of cells
      (`maze[y][x]`), the roster, the status and the winner's id. */
  datatype GameState = GameState(
    maze: seq<seq<Cell>>,
    players: seq<Player>,
    gameStatus: Status,
    winner: Option<string>)

  datatype Position = Position(x: int, y: int)

  /** A `MOVE_PLAYER` record, the only update the game sends to its peers. */
  datatype MazeUpdate = MoveUpdate(playerId: string, position: Position)
}
