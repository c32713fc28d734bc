/** The `useGameState` hook as an object: one mutable game state, replaced
    by each handler as one atomic step, and the outbox of `MOVE_PLAYER`
    records handed to `sendMove`. Each handler reports whether it threw a
    `TypeError`; a handler that throws leaves the state as it was. */
module GameSession {
  import opened MazeTypes
  import opened MazeGrid
  import opened GameRules
  import opened RaceBoard
  import MazeGenerator

  class Game {
    /** The state cell `gameState` of the hook. */
    var state: GameState
    /** Every record passed to `sendMove`, oldest first. */
    var outbox: seq<MazeUpdate>

    /** The state plays on a perfect 60x60 maze, every player is on the
        board and the first two players have different ids. */
    ghost predicate Valid()
      reads this
    {
      Sound(state)
    }

    /** The initial state: a generated 60x60 maze, players "1" and "2" in
        the left corners, `playing`, no winner. `choices` stands for the
        draws of `Math.random` during generation. */
    constructor(choices: seq<nat>)
      requires |choices| >= MAZE_WIDTH * MAZE_HEIGHT - 1
      ensures exists g ::
        PerfectMaze(g, MAZE_WIDTH, MAZE_HEIGHT) && state == InitialState(Rows(g, MAZE_WIDTH, MAZE_HEIGHT))
      ensures outbox == []
      ensures Valid()
    {
      var cells := MazeGenerator.GenerateMaze(MAZE_WIDTH, MAZE_HEIGHT, choices);
      state := InitialState(Rows(cells[..], MAZE_WIDTH, MAZE_HEIGHT));
      outbox := [];
      StartOnMaze(cells[..]);
    }

    /** `movePlayer(id, x, y)` with its `checkWinCondition`. */
    method MovePlayer(id: string, x: int, y: int) returns (thrown: bool)
      modifies this
      ensures thrown == GameRules.MovePlayer(old(state), id, x, y).Thrown?
      ensures state == (if thrown then old(state) else GameRules.MovePlayer(old(state), id, x, y).value)
      ensures outbox == old(outbox)
    {
      match GameRules.MovePlayer(state, id, x, y)
      case Thrown =>
        thrown := true;
      case Ok(next) =>
        state := next;
        thrown := false;
    }

    /** The AI tick `moveAI`, with `choice` standing for the random pick. */
    method MoveAI(choice: nat) returns (thrown: bool)
      modifies this
      ensures thrown == AiMove(old(state), choice).Thrown?
      ensures state == (if thrown then old(state) else AiMove(old(state), choice).value)
      ensures outbox == old(outbox)
      ensures old(Valid()) ==> !thrown && Valid()
    {
      ghost var s := state;
      thrown := false;
      if |state.players| < 2 || state.gameStatus != Playing {
        return;
      }
      var ai := state.players[1];
      var validMoves := LegalMoves(state, ai.id, Directions);
      if validMoves.Thrown? {
        thrown := true;
        AiNeverThrows(s, choice);
        return;
      }
      if |validMoves.value| > 0 {
        var direction := validMoves.value[choice % |validMoves.value|];
        var newX, newY := ai.x, ai.y;
        if direction == ArrowUp {
          newY := newY - 1;
        } else if direction == ArrowRight {
          newX := newX + 1;
        } else if direction == ArrowDown {
          newY := newY + 1;
        } else if direction == ArrowLeft {
          newX := newX - 1;
        }
        assert Position(newX, newY) == Step(ai.x, ai.y, direction);
        thrown := MovePlayer(ai.id, newX, newY);
      }
      AiNeverThrows(s, choice);
    }

    /** `handleKeyDown` for the key `key`. */
    method HandleKeyDown(key: string) returns (thrown: bool)
      modifies this
      ensures thrown == KeyDown(old(state), key).0.Thrown?
      ensures state == (if thrown then old(state) else KeyDown(old(state), key).0.value)
      ensures outbox == old(outbox) + (if KeyDown(old(state), key).1.Some? then [KeyDown(old(state), key).1.value] else [])
      ensures old(Valid()) ==> !thrown && Valid()
    {
      ghost var s := state;
      thrown := false;
      if state.gameStatus != Playing {
        return;
      }
      if |state.players| == 0 {
        thrown := true;
        return;
      }
      var player := state.players[0];
      var newX, newY := player.x, player.y;
      if key == ArrowUp {
        newY := player.y - 1;
      } else if key == ArrowRight {
        newX := player.x + 1;
      } else if key == ArrowDown {
        newY := player.y + 1;
      } else if key == ArrowLeft {
        newX := player.x - 1;
      } else {
        return;
      }
      assert Position(newX, newY) == Step(player.x, player.y, key);
      var allowed := CanMove(state, player.id, key);
      if allowed.Thrown? {
        thrown := true;
        KeyDownNeverThrows(s, key);
        return;
      }
      if allowed.value {
        thrown := MovePlayer(player.id, newX, newY);
        outbox := outbox + [MoveUpdate(player.id, Position(newX, newY))];
      }
      KeyDownNeverThrows(s, key);
    }

    /** The `playerMove` handler for a record received from a peer. */
    method OnPlayerMove(update: MazeUpdate) returns (thrown: bool)
      modifies this
      ensures thrown == RemoteMove(old(state), update).Thrown?
      ensures state == (if thrown then old(state) else RemoteMove(old(state), update).value)
      ensures outbox == old(outbox)
    {
      if |state.players| == 0 {
        return true;
      }
      if update.playerId != state.players[0].id {
        thrown := MovePlayer(update.playerId, update.position.x, update.position.y);
      } else {
        thrown := false;
      }
    }

    /** The `gameStateUpdate` handler: the snapshot replaces the whole state. */
    method OnGameStateUpdate(snapshot: GameState)
      modifies this
      ensures state == snapshot
      ensures outbox == old(outbox)
    {
      state := snapshot;
    }
  }
}
