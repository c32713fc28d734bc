/** The movement rules of the maze race as pure functions on a `GameState`:
    `canMove`, `movePlayer` together with `checkWinCondition`, and the
    transitions behind the AI tick, the arrow-key handler and the two
    handlers for messages from peers. A JavaScript `TypeError` (reading a
    property of `undefined`) is the outcome `Thrown`. */
module GameRules {
  import opened MazeTypes

  const MAZE_WIDTH := 60
  const MAZE_HEIGHT := 60

  const ArrowUp := "ArrowUp"
  const ArrowRight := "ArrowRight"
  const ArrowDown := "ArrowDown"
  const ArrowLeft := "ArrowLeft"

  /** The direction list of the AI, in the order it is filtered. */
  const Directions := [ArrowUp, ArrowRight, ArrowDown, ArrowLeft]

  /** The outcome of a transition: a value, or a `TypeError` thrown on the way. */
  datatype Result<T> = Ok(value: T) | Thrown

  /** `maze[y][x]` in JavaScript: the row may be `undefined`, and so may the
      cell of a row that exists. Negative indices are `undefined` too. */
  datatype Lookup = NoRow | NoCell | Found(cell: Cell)

  function LookUp(maze: seq<seq<Cell>>, x: int, y: int): (r: Lookup)
    ensures r.NoRow? <==> !(0 <= y < |maze|)
    ensures r.NoCell? <==> 0 <= y < |maze| && !(0 <= x < |maze[y]|)
    ensures r.Found? ==> 0 <= y < |maze| && 0 <= x < |maze[y]| && r.cell == maze[y][x]
  {
    if !(0 <= y < |maze|) then NoRow
    else if !(0 <= x < |maze[y]|) then NoCell
    else Found(maze[y][x])
  }

  /** `players.find(p => p.id === id)`: the first player carrying `id`. */
  function Find(ps: seq<Player>, id: string): (r: Option<Player>)
    ensures r.None? <==> forall k :: 0 <= k < |ps| ==> ps[k].id != id
    ensures r.Some? ==> exists k :: 0 <= k < |ps| && ps[k] == r.value && r.value.id == id &&
                          forall j :: 0 <= j < k ==> ps[j].id != id
  {
    if |ps| == 0 then None
    else if ps[0].id == id then Some(ps[0])
    else
      var r := Find(ps[1..], id);
      assert r.Some? ==> exists k :: 1 <= k < |ps| && ps[k] == r.value && r.value.id == id &&
                          forall j :: 0 <= j < k ==> ps[j].id != id by {
        if r.Some? {
          var k :| 0 <= k < |ps[1..]| && ps[1..][k] == r.value && r.value.id == id &&
                   forall j :: 0 <= j < k ==> ps[1..][j].id != id;
          assert ps[k + 1] == r.value;
          assert forall j :: 0 <= j < k + 1 ==> ps[j].id != id by {
            forall j | 0 <= j < k + 1 ensures ps[j].id != id {
              if j > 0 { assert ps[j] == ps[1..][j - 1]; }
            }
          }
        }
      }
      r
  }

  // ---------------------------------------------------------------------
  // Directions
  // ---------------------------------------------------------------------

  /** Whether the wall of `c` on the side `dir` points to is standing;
      `dir` is one of the four arrow keys. */
  function WallToward(c: Cell, dir: string): bool {
    if dir == ArrowUp then c.walls.top
    else if dir == ArrowRight then c.walls.right
    else if dir == ArrowDown then c.walls.bottom
    else c.walls.left
  }

  /** (x2, y2) is one cell away from (x1, y1), along exactly one axis. */
  predicate OneStep(x1: int, y1: int, x2: int, y2: int) {
    (x2 == x1 && (y2 == y1 - 1 || y2 == y1 + 1)) || (y2 == y1 && (x2 == x1 - 1 || x2 == x1 + 1))
  }

  /** The destination of one step from (x, y) in direction `dir`; any other
      key leaves the position where it is. */
  function Step(x: int, y: int, dir: string): (p: Position)
    ensures dir in Directions ==> OneStep(x, y, p.x, p.y)
    ensures dir !in Directions ==> p == Position(x, y)
  {
    if dir == ArrowUp then Position(x, y - 1)
    else if dir == ArrowRight then Position(x + 1, y)
    else if dir == ArrowDown then Position(x, y + 1)
    else if dir == ArrowLeft then Position(x - 1, y)
    else Position(x, y)
  }

  /** The board the bounds checks of `canMove` refer to. */
  predicate OnBoard(x: int, y: int) {
    0 <= x < MAZE_WIDTH && 0 <= y < MAZE_HEIGHT
  }

  // ---------------------------------------------------------------------
  // canMove
  // ---------------------------------------------------------------------

  /** `canMove(playerId, direction)`. An unknown player cannot move. The
      cell is read before the key is looked at: a missing row throws for
      every key, a missing cell throws for the arrow keys, which read its
      walls. Each arrow checks its wall and then the board bound along its
      own axis. */
  function CanMove(s: GameState, id: string, dir: string): Result<bool> {
    match Find(s.players, id)
    case None => Ok(false)
    case Some(p) =>
      match LookUp(s.maze, p.x, p.y)
      case NoRow => Thrown
      case NoCell => if dir in Directions then Thrown else Ok(false)
      case Found(c) =>
        if dir == ArrowUp then Ok(!c.walls.top && p.y > 0)
        else if dir == ArrowRight then Ok(!c.walls.right && p.x < MAZE_WIDTH - 1)
        else if dir == ArrowDown then Ok(!c.walls.bottom && p.y < MAZE_HEIGHT - 1)
        else if dir == ArrowLeft then Ok(!c.walls.left && p.x > 0)
        else Ok(false)
  }

  /** An id no player carries cannot move, whatever the key. */
  lemma CanMoveUnknownPlayer(s: GameState, id: string, dir: string)
    requires forall k :: 0 <= k < |s.players| ==> s.players[k].id != id
    ensures CanMove(s, id, dir) == Ok(false)
  {
  }

  /** A key other than the four arrows never allows a move; it throws only
      when the player's row is missing from the maze. */
  lemma CanMoveOtherKey(s: GameState, id: string, dir: string)
    requires dir !in Directions
    ensures CanMove(s, id, dir) != Ok(true)
    ensures CanMove(s, id, dir) == Thrown <==>
      Find(s.players, id).Some? && LookUp(s.maze, Find(s.players, id).value.x, Find(s.players, id).value.y).NoRow?
  {
  }

  /** For a player standing on a cell of the board, an arrow key is allowed
      exactly when the wall on that side is down and the destination is on
      the board; nothing throws. */
  lemma CanMoveLegal(s: GameState, p: Player, dir: string)
    requires Find(s.players, p.id) == Some(p) && OnBoard(p.x, p.y)
    requires LookUp(s.maze, p.x, p.y).Found?
    ensures CanMove(s, p.id, dir).Ok?
    ensures CanMove(s, p.id, dir) == Ok(true) <==>
      dir in Directions && !WallToward(s.maze[p.y][p.x], dir) &&
      OnBoard(Step(p.x, p.y, dir).x, Step(p.x, p.y, dir).y)
  {
  }

  /** The player's cell decides whether `canMove` throws: with the cell
      present it never does; without the row it always does. */
  lemma CanMoveThrows(s: GameState, id: string, dir: string)
    requires Find(s.players, id).Some?
    ensures var p := Find(s.players, id).value;
      CanMove(s, id, dir) == Thrown <==>
        LookUp(s.maze, p.x, p.y).NoRow? || (LookUp(s.maze, p.x, p.y).NoCell? && dir in Directions)
  {
  }

  // ---------------------------------------------------------------------
  // movePlayer and checkWinCondition
  // ---------------------------------------------------------------------

  /** `players.map(p => p.id === id ? { ...p, x, y } : p)`. */
  function MovePlayers(ps: seq<Player>, id: string, x: int, y: int): (r: seq<Player>)
    ensures |r| == |ps|
    ensures forall k :: 0 <= k < |ps| ==>
      (ps[k].id == id ==> r[k] == Player(id, x, y)) && (ps[k].id != id ==> r[k] == ps[k])
  {
    if |ps| == 0 then []
    else [if ps[0].id == id then ps[0].(x := x, y := y) else ps[0]] + MovePlayers(ps[1..], id, x, y)
  }

  /** `movePlayer(id, x, y)` with the `checkWinCondition` it triggers: every
      player carrying `id` goes to (x, y); when such a player exists the
      destination cell is read, and if it is the exit the game is finished
      with that player as the winner. The status is not consulted. */
  function MovePlayer(s: GameState, id: string, x: int, y: int): Result<GameState> {
    var ps := MovePlayers(s.players, id, x, y);
    match Find(ps, id)
    case None => Ok(s.(players := ps))
    case Some(p) =>
      match LookUp(s.maze, p.x, p.y)
      case Found(c) =>
        if c.isExit then Ok(s.(players := ps, gameStatus := Finished, winner := Some(p.id)))
        else Ok(s.(players := ps))
      case _ => Thrown
  }

  /** An id nobody carries changes nothing. */
  lemma MoveUnknownId(s: GameState, id: string, x: int, y: int)
    requires forall k :: 0 <= k < |s.players| ==> s.players[k].id != id
    ensures MovePlayer(s, id, x, y) == Ok(s)
  {
    var ps := MovePlayers(s.players, id, x, y);
    assert ps == s.players;
  }

  /** The frame of a move: the maze stays, the roster keeps its length and
      order, every player carrying `id` is at (x, y) and everybody else is
      where they were. */
  lemma MoveFrame(s: GameState, id: string, x: int, y: int)
    requires MovePlayer(s, id, x, y).Ok?
    ensures var t := MovePlayer(s, id, x, y).value;
      t.maze == s.maze && |t.players| == |s.players| &&
      forall k :: 0 <= k < |s.players| ==>
        t.players[k] == (if s.players[k].id == id then Player(id, x, y) else s.players[k])
  {
  }

  /** Win detection. When some player carries `id`, the move throws exactly
      when (x, y) is not a cell of the maze; otherwise the game is finished
      with `id` as the winner exactly when (x, y) is the exit, and status
      and winner stay as they were when it is not. An earlier winner is
      overwritten, and a finished game still accepts moves. */
  lemma MoveWins(s: GameState, id: string, x: int, y: int)
    requires exists k :: 0 <= k < |s.players| && s.players[k].id == id
    ensures MovePlayer(s, id, x, y) == Thrown <==> !LookUp(s.maze, x, y).Found?
    ensures LookUp(s.maze, x, y).Found? && s.maze[y][x].isExit ==>
      MovePlayer(s, id, x, y).value.gameStatus == Finished &&
      MovePlayer(s, id, x, y).value.winner == Some(id)
    ensures LookUp(s.maze, x, y).Found? && !s.maze[y][x].isExit ==>
      MovePlayer(s, id, x, y).value.gameStatus == s.gameStatus &&
      MovePlayer(s, id, x, y).value.winner == s.winner
  {
    var k :| 0 <= k < |s.players| && s.players[k].id == id;
    var ps := MovePlayers(s.players, id, x, y);
    assert ps[k].id == id;
    var f := Find(ps, id);
    assert f.Some?;
    var i :| 0 <= i < |ps| && ps[i] == f.value && f.value.id == id;
    assert f.value == Player(id, x, y);
  }

  // ---------------------------------------------------------------------
  // moveAI
  // ---------------------------------------------------------------------

  /** `directions.filter(dir => canMove(id, dir))`, which throws as soon as
      one `canMove` throws. */
  function LegalMoves(s: GameState, id: string, dirs: seq<string>): (r: Result<seq<string>>)
    ensures r.Thrown? <==> exists k :: 0 <= k < |dirs| && CanMove(s, id, dirs[k]).Thrown?
    ensures r.Ok? ==> |r.value| <= |dirs|
    ensures r.Ok? ==> forall d :: d in r.value <==> d in dirs && CanMove(s, id, d) == Ok(true)
    ensures r.Ok? ==> Subsequence(r.value, dirs)
  {
    if |dirs| == 0 then Ok([])
    else
      var rest := LegalMoves(s, id, dirs[1..]);
      assert forall d :: d in dirs <==> d == dirs[0] || d in dirs[1..];
      assert (exists k :: 0 <= k < |dirs| && CanMove(s, id, dirs[k]).Thrown?) <==>
             CanMove(s, id, dirs[0]).Thrown? ||
             exists k :: 0 <= k < |dirs[1..]| && CanMove(s, id, dirs[1..][k]).Thrown? by {
        forall k | 1 <= k < |dirs| ensures dirs[k] == dirs[1..][k - 1] { }
      }
      match CanMove(s, id, dirs[0])
      case Thrown => Thrown
      case Ok(b) =>
        match rest
        case Thrown => Thrown
        case Ok(moves) => Ok(if b then [dirs[0]] + moves else moves)
  }

  /** The AI tick `moveAI` with the random pick `choice % |validMoves|`:
      nothing happens unless `players[1]` exists and the game is playing,
      or when no direction is legal; otherwise `players[1]` steps one cell
      in the picked direction. */
  function AiMove(s: GameState, choice: nat): Result<GameState> {
    if |s.players| < 2 || s.gameStatus != Playing then Ok(s)
    else
      var ai := s.players[1];
      match LegalMoves(s, ai.id, Directions)
      case Thrown => Thrown
      case Ok(valid) =>
        if |valid| == 0 then Ok(s)
        else
          var to := Step(ai.x, ai.y, valid[choice % |valid|]);
          MovePlayer(s, ai.id, to.x, to.y)
  }

  /** What one AI tick does: when it moves at all, it moves `players[1]`'s
      id one cell along one axis, in a direction `canMove` allowed. */
  lemma AiMoveSpec(s: GameState, choice: nat)
    ensures |s.players| < 2 || s.gameStatus != Playing ==> AiMove(s, choice) == Ok(s)
    ensures |s.players| >= 2 && s.gameStatus == Playing && AiMove(s, choice) != Ok(s) ==>
      AiMove(s, choice) == Thrown ||
      exists d :: d in Directions && CanMove(s, s.players[1].id, d) == Ok(true) &&
        AiMove(s, choice) ==
          MovePlayer(s, s.players[1].id, Step(s.players[1].x, s.players[1].y, d).x,
                     Step(s.players[1].x, s.players[1].y, d).y)
  {
    if |s.players| >= 2 && s.gameStatus == Playing {
      var ai := s.players[1];
      var lm := LegalMoves(s, ai.id, Directions);
      if lm.Ok? && |lm.value| > 0 {
        var d := lm.value[choice % |lm.value|];
        assert d in lm.value;
      }
    }
  }

  /** When no direction is legal for `players[1]`, the tick changes nothing. */
  lemma AiStuck(s: GameState, choice: nat)
    requires |s.players| >= 2 && s.gameStatus == Playing
    requires forall d :: d in Directions ==> CanMove(s, s.players[1].id, d) == Ok(false)
    ensures AiMove(s, choice) == Ok(s)
  {
  }

  // ---------------------------------------------------------------------
  // handleKeyDown and the handlers for peers
  // ---------------------------------------------------------------------

  /** `handleKeyDown`: the new state and the `MOVE_PLAYER` record sent, if
      any. Outside `playing` nothing happens; a missing `players[0]` throws
      before the key is looked at; a key other than an arrow does nothing.
      An allowed arrow moves `players[0]`'s id and publishes the move; the
      record is sent even when the move then throws. */
  function KeyDown(s: GameState, key: string): (Result<GameState>, Option<MazeUpdate>) {
    if s.gameStatus != Playing then (Ok(s), None)
    else if |s.players| == 0 then (Thrown, None)
    else
      var p := s.players[0];
      if key !in Directions then (Ok(s), None)
      else
        match CanMove(s, p.id, key)
        case Thrown => (Thrown, None)
        case Ok(allowed) =>
          if !allowed then (Ok(s), None)
          else
            var to := Step(p.x, p.y, key);
            (MovePlayer(s, p.id, to.x, to.y), Some(MoveUpdate(p.id, to)))
  }

  /** The arrow-key handler: no change and no message outside `playing`, for
      other keys or when `canMove` refuses; an allowed move sends exactly
      one record, naming the local player and the position it moves to. */
  lemma KeyDownSpec(s: GameState, key: string)
    ensures s.gameStatus != Playing ==> KeyDown(s, key) == (Ok(s), None)
    ensures s.gameStatus == Playing && |s.players| > 0 && key !in Directions ==>
      KeyDown(s, key) == (Ok(s), None)
    ensures s.gameStatus == Playing && |s.players| > 0 && CanMove(s, s.players[0].id, key) == Ok(false) ==>
      KeyDown(s, key) == (Ok(s), None)
    ensures s.gameStatus == Playing && |s.players| > 0 && CanMove(s, s.players[0].id, key) == Ok(true) ==>
      var p, to := s.players[0], Step(s.players[0].x, s.players[0].y, key);
      key in Directions &&
      KeyDown(s, key) == (MovePlayer(s, p.id, to.x, to.y), Some(MoveUpdate(p.id, to)))
  {
    if s.gameStatus == Playing && |s.players| > 0 && key !in Directions {
      CanMoveOtherKey(s, s.players[0].id, key);
    }
  }

  /** The `playerMove` handler: reading `players[0].id` throws on an empty
      roster; a record naming the local player is ignored; any other is
      applied as it is, with no `canMove` check and whatever the status. */
  function RemoteMove(s: GameState, u: MazeUpdate): Result<GameState> {
    if |s.players| == 0 then Thrown
    else if u.playerId != s.players[0].id then MovePlayer(s, u.playerId, u.position.x, u.position.y)
    else Ok(s)
  }

  /** A remote record about the local player changes nothing; a record about
      anyone else is exactly a `movePlayer`. */
  lemma RemoteMoveSpec(s: GameState, u: MazeUpdate)
    requires |s.players| > 0
    ensures u.playerId == s.players[0].id ==> RemoteMove(s, u) == Ok(s)
    ensures u.playerId != s.players[0].id ==>
      RemoteMove(s, u) == MovePlayer(s, u.playerId, u.position.x, u.position.y)
  {
  }

  /** The players a fresh game starts with: "1" in the top-left corner and
      "2" in the bottom-left corner. */
  const StartPlayers := [Player("1", 0, 0), Player("2", 0, MAZE_HEIGHT - 1)]

  /** The state `useState` starts from, around a freshly generated maze. */
  function InitialState(maze: seq<seq<Cell>>): (s: GameState)
    ensures s.maze == maze && s.gameStatus == Playing && s.winner == None
    ensures |s.players| == 2 && s.players[0].id != s.players[1].id
    ensures forall k :: 0 <= k < 2 ==> OnBoard(s.players[k].x, s.players[k].y)
    ensures s.players[0] == Player("1", 0, 0) && s.players[1] == Player("2", 0, MAZE_HEIGHT - 1)
  {
    GameState(maze, StartPlayers, Playing, None)
  }
}
