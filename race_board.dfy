/** The movement rules played on a maze that `generateMaze(60, 60)` built:
    on such a board the bounds checks of `canMove` are implied by the walls,
    every allowed move follows a passage, the game stays on the board and
    cannot throw, and the AI always finds a move. */
module RaceBoard {
  import opened MazeTypes
  import opened MazeGrid
  import opened GameRules

  /** `s` plays on the rows of the perfect 60x60 maze `g`. */
  ghost predicate OnMaze(s: GameState, g: seq<Cell>) {
    PerfectMaze(g, MAZE_WIDTH, MAZE_HEIGHT) && s.maze == Rows(g, MAZE_WIDTH, MAZE_HEIGHT)
  }

  ghost predicate AllOnBoard(ps: seq<Player>) {
    forall k :: 0 <= k < |ps| ==> OnBoard(ps[k].x, ps[k].y)
  }

  /** The cells of the board are exactly the positions of the maze, and the
      only exit is the bottom-right corner. */
  lemma BoardCells(s: GameState, g: seq<Cell>, x: int, y: int)
    requires OnMaze(s, g)
    ensures LookUp(s.maze, x, y).Found? <==> OnBoard(x, y)
    ensures OnBoard(x, y) ==>
      s.maze[y][x] == CellAt(g, MAZE_WIDTH, MAZE_HEIGHT, x, y) &&
      (s.maze[y][x].isExit <==> x == MAZE_WIDTH - 1 && y == MAZE_HEIGHT - 1)
  {
    if OnBoard(x, y) {
      ExitCorner(g, MAZE_WIDTH, MAZE_HEIGHT, x, y);
    }
  }

  /** On the maze, an arrow key is allowed exactly when the wall on that side
      is down (the bounds check never decides), and the move then goes
      through an open passage from the player's cell to the destination's. */
  lemma BoardCanMove(s: GameState, g: seq<Cell>, p: Player, dir: string)
    requires OnMaze(s, g) && Find(s.players, p.id) == Some(p) && OnBoard(p.x, p.y)
    ensures CanMove(s, p.id, dir) == Ok(true) <==>
      dir in Directions && !WallToward(CellAt(g, MAZE_WIDTH, MAZE_HEIGHT, p.x, p.y), dir)
    ensures CanMove(s, p.id, dir) == Ok(true) ==>
      var to := Step(p.x, p.y, dir);
      OnBoard(to.x, to.y) &&
      Linked(g, Idx(MAZE_WIDTH, p.x, p.y), Idx(MAZE_WIDTH, to.x, to.y)) &&
      Linked(g, Idx(MAZE_WIDTH, to.x, to.y), Idx(MAZE_WIDTH, p.x, p.y))
  {
    BoardCells(s, g, p.x, p.y);
    CanMoveLegal(s, p, dir);
    OpenWallInside(g, MAZE_WIDTH, MAZE_HEIGHT, p.x, p.y);
    if CanMove(s, p.id, dir) == Ok(true) {
      var to := Step(p.x, p.y, dir);
      var a, b := Idx(MAZE_WIDTH, p.x, p.y), Idx(MAZE_WIDTH, to.x, to.y);
      ShapedAt(g, MAZE_WIDTH, MAZE_HEIGHT, p.x, p.y);
      ShapedAt(g, MAZE_WIDTH, MAZE_HEIGHT, to.x, to.y);
      assert Linked(g, a, b);
      LinkedBack(g, MAZE_WIDTH, MAZE_HEIGHT, a, b);
    }
  }

  /** A move to a position of the board never throws there; it finishes the
      game with the mover as winner exactly at the bottom-right corner. */
  lemma BoardMove(s: GameState, g: seq<Cell>, id: string, x: int, y: int)
    requires OnMaze(s, g) && OnBoard(x, y)
    requires exists k :: 0 <= k < |s.players| && s.players[k].id == id
    ensures MovePlayer(s, id, x, y).Ok?
    ensures x == MAZE_WIDTH - 1 && y == MAZE_HEIGHT - 1 ==>
      MovePlayer(s, id, x, y).value.gameStatus == Finished &&
      MovePlayer(s, id, x, y).value.winner == Some(id)
    ensures !(x == MAZE_WIDTH - 1 && y == MAZE_HEIGHT - 1) ==>
      MovePlayer(s, id, x, y).value.gameStatus == s.gameStatus &&
      MovePlayer(s, id, x, y).value.winner == s.winner
  {
    BoardCells(s, g, x, y);
    MoveWins(s, id, x, y);
  }

  /** Moving every player carrying `id` to a position of the board keeps
      every player on the board, and the maze as it is. */
  lemma MoveStaysOnBoard(s: GameState, id: string, x: int, y: int)
    requires AllOnBoard(s.players) && OnBoard(x, y) && MovePlayer(s, id, x, y).Ok?
    ensures AllOnBoard(MovePlayer(s, id, x, y).value.players)
    ensures MovePlayer(s, id, x, y).value.maze == s.maze
  {
    MoveFrame(s, id, x, y);
  }

  /** On the maze, with every player on the board, the arrow-key handler
      never throws and keeps every player on the board. */
  lemma KeyDownOnBoard(s: GameState, g: seq<Cell>, key: string)
    requires OnMaze(s, g) && AllOnBoard(s.players) && |s.players| > 0
    ensures KeyDown(s, key).0.Ok?
    ensures AllOnBoard(KeyDown(s, key).0.value.players)
    ensures KeyDown(s, key).0.value.maze == s.maze
  {
    KeyDownSpec(s, key);
    if s.gameStatus == Playing {
      var p := s.players[0];
      assert Find(s.players, p.id) == Some(p);
      BoardCanMove(s, g, p, key);
      if CanMove(s, p.id, key) == Ok(true) {
        var to := Step(p.x, p.y, key);
        BoardMove(s, g, p.id, to.x, to.y);
        MoveStaysOnBoard(s, p.id, to.x, to.y);
      } else if key in Directions {
        CanMoveLegal(s, p, key);
        BoardCells(s, g, p.x, p.y);
      }
    }
  }

  /** `players[1]` is the first player carrying its id. */
  ghost predicate AiFoundFirst(s: GameState) {
    |s.players| >= 2 && s.players[0].id != s.players[1].id
  }

  lemma FindSecond(ps: seq<Player>)
    requires |ps| >= 2 && ps[0].id != ps[1].id
    ensures Find(ps, ps[1].id) == Some(ps[1])
  {
    assert ps[1..][0] == ps[1];
  }

  /** On the maze, with every player on the board and distinct ids for the
      first two, the AI tick never throws and keeps every player on the board. */
  lemma AiMoveOnBoard(s: GameState, g: seq<Cell>, choice: nat)
    requires OnMaze(s, g) && AllOnBoard(s.players) && AiFoundFirst(s)
    ensures AiMove(s, choice).Ok?
    ensures AllOnBoard(AiMove(s, choice).value.players)
  {
    if s.gameStatus == Playing {
      var ai := s.players[1];
      FindSecond(s.players);
      forall d | d in Directions ensures CanMove(s, ai.id, d).Ok? {
        BoardCells(s, g, ai.x, ai.y);
        CanMoveLegal(s, ai, d);
      }
      var lm := LegalMoves(s, ai.id, Directions);
      if |lm.value| > 0 {
        var d := lm.value[choice % |lm.value|];
        assert d in lm.value;
        BoardCanMove(s, g, ai, d);
        var to := Step(ai.x, ai.y, d);
        BoardMove(s, g, ai.id, to.x, to.y);
        MoveStaysOnBoard(s, ai.id, to.x, to.y);
      }
    }
  }

  /** On the maze, every player standing on the board has a legal
      direction: in a perfect maze every cell has a passage. */
  lemma SomeLegalMove(s: GameState, g: seq<Cell>, p: Player)
    requires OnMaze(s, g) && Find(s.players, p.id) == Some(p) && OnBoard(p.x, p.y)
    ensures exists d :: d in Directions && CanMove(s, p.id, d) == Ok(true)
  {
    var i := Idx(MAZE_WIDTH, p.x, p.y);
    ShapedAt(g, MAZE_WIDTH, MAZE_HEIGHT, p.x, p.y);
    CellHasOpening(g, MAZE_WIDTH, MAZE_HEIGHT, i);
    var c := CellAt(g, MAZE_WIDTH, MAZE_HEIGHT, p.x, p.y);
    assert !c.walls.top || !c.walls.right || !c.walls.bottom || !c.walls.left;
    var d := if !c.walls.top then ArrowUp else if !c.walls.right then ArrowRight
             else if !c.walls.bottom then ArrowDown else ArrowLeft;
    BoardCanMove(s, g, p, d);
  }

  /** On the maze, while the game is playing, the AI always has a legal
      direction, so every tick moves it one cell along one axis. */
  lemma AiAlwaysMoves(s: GameState, g: seq<Cell>, choice: nat)
    requires OnMaze(s, g) && AllOnBoard(s.players) && AiFoundFirst(s)
    requires s.gameStatus == Playing
    ensures AiMove(s, choice).Ok?
    ensures var ai, ai' := s.players[1], AiMove(s, choice).value.players[1];
      ai'.id == ai.id && OneStep(ai.x, ai.y, ai'.x, ai'.y)
  {
    AiMoveOnBoard(s, g, choice);
    var ai := s.players[1];
    FindSecond(s.players);
    SomeLegalMove(s, g, ai);
    var d :| d in Directions && CanMove(s, ai.id, d) == Ok(true);
    var lm := LegalMoves(s, ai.id, Directions);
    assert d in lm.value;
    var d' := lm.value[choice % |lm.value|];
    assert d' in lm.value;
    var to := Step(ai.x, ai.y, d');
    MoveFrame(s, ai.id, to.x, to.y);
  }

  /** The shape every handler but the two peer handlers keeps: the state
      plays on some perfect 60x60 maze, every player is on the board and the
      first two players carry different ids. */
  ghost predicate Sound(s: GameState) {
    (exists g :: OnMaze(s, g)) && AllOnBoard(s.players) && AiFoundFirst(s)
  }

  /** The initial state around a perfect maze is sound. */
  lemma StartOnMaze(g: seq<Cell>)
    requires PerfectMaze(g, MAZE_WIDTH, MAZE_HEIGHT)
    ensures OnMaze(InitialState(Rows(g, MAZE_WIDTH, MAZE_HEIGHT)), g)
    ensures Sound(InitialState(Rows(g, MAZE_WIDTH, MAZE_HEIGHT)))
  {
    assert OnMaze(InitialState(Rows(g, MAZE_WIDTH, MAZE_HEIGHT)), g);
  }

  /** A move that keeps the maze and every id keeps the first two ids apart. */
  lemma MoveKeepsIds(s: GameState, id: string, x: int, y: int)
    requires AiFoundFirst(s) && MovePlayer(s, id, x, y).Ok?
    ensures AiFoundFirst(MovePlayer(s, id, x, y).value)
    ensures MovePlayer(s, id, x, y).value.maze == s.maze
  {
    MoveFrame(s, id, x, y);
  }

  /** From a sound state the AI tick never throws and leaves a sound state. */
  lemma AiNeverThrows(s: GameState, choice: nat)
    ensures Sound(s) ==> AiMove(s, choice).Ok? && Sound(AiMove(s, choice).value)
  {
    if Sound(s) {
      var g :| OnMaze(s, g);
      AiMoveOnBoard(s, g, choice);
      var t := AiMove(s, choice).value;
      if t != s {
        var ai := s.players[1];
        var lm := LegalMoves(s, ai.id, Directions);
        var to := Step(ai.x, ai.y, lm.value[choice % |lm.value|]);
        MoveKeepsIds(s, ai.id, to.x, to.y);
        assert OnMaze(t, g);
      }
    }
  }

  /** From a sound state the arrow-key handler never throws and leaves a
      sound state. */
  lemma KeyDownNeverThrows(s: GameState, key: string)
    ensures Sound(s) ==> KeyDown(s, key).0.Ok? && Sound(KeyDown(s, key).0.value)
  {
    if Sound(s) {
      var g :| OnMaze(s, g);
      KeyDownOnBoard(s, g, key);
      KeyDownSpec(s, key);
      var t := KeyDown(s, key).0.value;
      if t != s {
        var p := s.players[0];
        var to := Step(p.x, p.y, key);
        MoveKeepsIds(s, p.id, to.x, to.y);
        assert OnMaze(t, g);
      }
    }
  }
}
