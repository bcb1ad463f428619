/** The SnakeGame object: four fields updated in place by reset_data, update
    and the key handler. Each method is proved to perform the transition that
    the Rules module defines. Update and KeyPress keep the invariant Rules.Inv;
    ResetData establishes it unless the phase was WON. */
module Snake {
  import opened Board
  import opened FruitPlacement
  import opened Rules

  class SnakeGame {
    var snake: seq<Cell>
    var direction: Cell
    var fruit: Option<Cell>
    var state: Phase

    /** The object's fields as a Rules.Game value. */
    function Model(): Game
      reads this
    {
      Game(snake, direction, fruit, state)
    }

    ghost predicate Valid()
      reads this
    {
      Inv(Model())
    }

    /** __init__ without the window, clock and font: phase START, then reset_data. */
    constructor (choice: nat)
      ensures Valid() && Model() == NewGame(choice)
      ensures state == Start && snake == [(5, 5), (5, 6)] && direction == (0, -1)
    {
      snake, direction, fruit := [], (0, -1), None;
      state := Start;
      new;
      ResetData(choice);
    }

    method ResetData(choice: nat)
      modifies this
      ensures Model() == Rules.ResetData(old(Model()), choice)
      ensures old(state) != Won ==> Valid()
    {
      ghost var before := Model();
      ResetDataEstablishesInv(before, choice);
      snake := [(5, 5), (5, 6)];
      direction := (0, -1);
      fruit := SpawnFruit(snake, choice);
      assert Model() == Rules.ResetData(before, choice);
    }

    /** One tick. The snake list grows at the front and, unless the fruit was
        eaten, loses its last element. */
    method Update(choice: nat)
      requires Valid()
      modifies this
      ensures Valid()
      ensures Model() == Tick(old(Model()), choice)
    {
      TickPreservesInv(Model(), choice);
      if state != Playing {
        return;
      }
      var head := snake[0];
      var newHead := (head.0 + direction.0, head.1 + direction.1);
      if !(0 <= newHead.0 < GridSize && 0 <= newHead.1 < GridSize) {
        state := GameOver;
        return;
      }
      if newHead in snake {
        state := GameOver;
        return;
      }
      snake := [newHead] + snake;
      if fruit == Some(newHead) {
        if |snake| == GridSize * GridSize {
          state := Won;
        } else {
          fruit := SpawnFruit(snake, choice);
        }
      } else {
        snake := snake[..|snake| - 1];
      }
    }

    /** The KEYDOWN branch of the event loop: Space starts, R restarts a
        finished game, and while playing an arrow steers unless it points
        straight back. */
    method KeyPress(key: Key, choice: nat)
      requires Valid()
      modifies this
      ensures Valid()
      ensures Model() == Press(old(Model()), key, choice)
    {
      PressPreservesInv(Model(), key, choice);
      if state == Start && key == Space {
        state := Playing;
      } else if (state == GameOver || state == Won) && key == R {
        ResetData(choice);
        state := Playing;
      }

      if state == Playing {
        if key == Up && direction != (0, 1) {
          direction := (0, -1);
        } else if key == Down && direction != (0, -1) {
          direction := (0, 1);
        } else if key == Left && direction != (1, 0) {
          direction := (-1, 0);
        } else if key == Right && direction != (-1, 0) {
          direction := (1, 0);
        }
      }
    }
  }

  /** What a caller learns from the specifications alone: a started game
      moves up on the first tick unless the fruit sits right above the head. */
  method StartAndTick(choice: nat) returns (g: Game)
    ensures g.state == Playing
    ensures SpawnFruit(InitialSnake, choice) != Some((5, 4)) ==> g.snake == [(5, 4), (5, 5)]
    ensures SpawnFruit(InitialSnake, choice) == Some((5, 4)) ==> g.snake == [(5, 4), (5, 5), (5, 6)]
  {
    var game := new SnakeGame(choice);
    game.KeyPress(Space, choice);
    ghost var started := game.Model();
    assert started.snake == [(5, 5), (5, 6)] && started.direction == (0, -1) && started.state == Playing;
    game.Update(choice);
    g := game.Model();
    if started.fruit == Some((5, 4)) {
      TickEat(started, choice);
    } else {
      FirstTickMovesUp(started, choice);
    }
  }
}
