/** The SnakeGame state machine as values: one tick of `update`, the
    `reset_data` initialisation, and the key handler's phase and direction
    transitions, together with the laws they obey. */
module Rules {
  import opened Board
  import opened FruitPlacement

  /** The game's `state` string: "START", "PLAYING", "GAMEOVER" or "WON". */
  datatype Phase = Start | Playing | GameOver | Won

  /** The keys the handler reacts to; every other key is `Other`. */
  datatype Key = Space | R | Up | Down | Left | Right | Other {
    predicate IsArrow() {
      Up? || Down? || Left? || Right?
    }
  }

  /** The four fields the core owns. `direction` is an (x, y) vector. */
  datatype Game = Game(snake: seq<Cell>, direction: Cell, fruit: Option<Cell>, state: Phase)

  const InitialSnake: seq<Cell> := [(5, 5), (5, 6)]

  /** Moving up decreases y. */
  const InitialDirection: Cell := (0, -1)

  /** The unit vector an arrow key selects. */
  function Heading(key: Key): (v: Cell)
    requires key.IsArrow()
  {
    match key
    case Up => (0, -1)
    case Down => (0, 1)
    case Left => (-1, 0)
    case Right => (1, 0)
  }

  predicate IsDirection(d: Cell) {
    d == (0, -1) || d == (0, 1) || d == (-1, 0) || d == (1, 0)
  }

  function Reverse(d: Cell): Cell {
    (-d.0, -d.1)
  }

  function NextHead(head: Cell, direction: Cell): Cell {
    (head.0 + direction.0, head.1 + direction.1)
  }

  /** What every reachable game satisfies. While the game is not won the
      fruit is a free cell of the board; once it is won the board is full. */
  predicate Inv(g: Game) {
    && Distinct(g.snake)
    && AllInBounds(g.snake)
    && 2 <= |g.snake| <= CellCount
    && IsDirection(g.direction)
    && (g.state != Won ==> g.fruit.Some? && InBounds(g.fruit.value) && g.fruit.value !in g.snake)
    && (g.state == Won ==> |g.snake| == CellCount)
  }

  /** reset_data: the snake, the direction and the fruit start over; the
      phase is whatever the caller sets. */
  function ResetData(g: Game, choice: nat): (r: Game)
    ensures r.state == g.state
    ensures r.fruit.Some? && InBounds(r.fruit.value) && r.fruit.value !in r.snake
  {
    InitialFruit(choice);
    g.(snake := InitialSnake, direction := InitialDirection, fruit := SpawnFruit(InitialSnake, choice))
  }

  /** A game as the constructor leaves it: fresh data, phase Start, and the
      invariant already in force. */
  function NewGame(choice: nat): (r: Game)
    ensures r.state == Start && Inv(r)
  {
    ResetDataEstablishesInv(Game([], InitialDirection, None, Start), choice);
    ResetData(Game([], InitialDirection, None, Start), choice)
  }

  /** One call of `update`. */
  function Tick(g: Game, choice: nat): (r: Game)
    requires g.state == Playing ==> g.snake != []
    ensures g.state != Playing ==> r == g
    ensures g.state == Playing ==> r.state == Playing || r.state == GameOver || r.state == Won
    ensures r.direction == g.direction
    ensures r.state == GameOver ==> r.snake == g.snake && r.fruit == g.fruit
  {
    if g.state != Playing then g
    else
      var newHead := NextHead(g.snake[0], g.direction);
      if !InBounds(newHead) then g.(state := GameOver)
      else if newHead in g.snake then g.(state := GameOver)
      else
        var grown := [newHead] + g.snake;
        if g.fruit == Some(newHead) then
          if |grown| == CellCount then g.(snake := grown, state := Won)
          else g.(snake := grown, fruit := SpawnFruit(grown, choice))
        else g.(snake := grown[..|grown| - 1])
  }

  /** The arrow-key branch of the key handler: the first arrow test that
      matches wins, and a key pointing back along `d` is ignored. */
  function Steer(d: Cell, key: Key): (r: Cell)
    ensures IsDirection(d) ==> IsDirection(r)
    ensures !key.IsArrow() ==> r == d
  {
    if key == Up && d != (0, 1) then (0, -1)
    else if key == Down && d != (0, -1) then (0, 1)
    else if key == Left && d != (1, 0) then (-1, 0)
    else if key == Right && d != (-1, 0) then (1, 0)
    else d
  }

  /** One KEYDOWN event: first the phase transition, then, if the game is
      (now) playing, the direction change. Only a restart touches the snake
      and the fruit, only an arrow or a restart touches the direction, Space
      in START changes nothing but the phase, and a key the handler ignores
      changes nothing at all. */
  function Press(g: Game, key: Key, choice: nat): (r: Game)
    ensures !(key == R && (g.state == GameOver || g.state == Won)) ==> r.snake == g.snake && r.fruit == g.fruit
    ensures !key.IsArrow() && !(key == R && (g.state == GameOver || g.state == Won)) ==> r.direction == g.direction
    ensures g.state == Start && key == Space ==> r == g.(state := Playing)
    ensures (!key.IsArrow() && !(key == Space && g.state == Start)
             && !(key == R && (g.state == GameOver || g.state == Won))) ==> r == g
    ensures r.state == Start ==> r == g
  {
    var g1 :=
      if g.state == Start && key == Space then g.(state := Playing)
      else if (g.state == GameOver || g.state == Won) && key == R then ResetData(g, choice).(state := Playing)
      else g;
    if g1.state == Playing then g1.(direction := Steer(g1.direction, key)) else g1
  }

  // ---------------------------------------------------------------------------
  // Initialisation and reset

  /** The constructor and every reset leave the fixed two-segment snake heading
      up, with a fruit on a free cell. */
  lemma ResetDataEstablishesInv(g: Game, choice: nat)
    ensures var r := ResetData(g, choice);
      && r.snake == [(5, 5), (5, 6)] && r.direction == (0, -1) && r.state == g.state
      && r.fruit.Some? && InBounds(r.fruit.value) && r.fruit.value !in r.snake
      && (g.state != Won ==> Inv(r))
  {
    InitialFruit(choice);
    InitialLayout();
  }

  lemma InitialLayout()
    ensures Distinct(InitialSnake) && AllInBounds(InitialSnake) && |InitialSnake| == 2
    ensures IsDirection(InitialDirection)
  {
  }

  /** On the initial snake a fruit is always placed, on one of the 98 free cells. */
  lemma InitialFruit(choice: nat)
    ensures var f := SpawnFruit(InitialSnake, choice);
      f.Some? && InBounds(f.value) && f.value !in InitialSnake
  {
    var s := InitialSnake;
    assert Distinct(s) && AllInBounds(s) && |s| == 2;
    SpawnFruitWhenRoom(s, choice);
  }

  // ---------------------------------------------------------------------------
  // The tick rule

  /** A head leaving the board on either axis ends the game and touches
      nothing else. */
  lemma TickWallCollision(g: Game, choice: nat)
    requires g.state == Playing && g.snake != []
    requires !InBounds(NextHead(g.snake[0], g.direction))
    ensures var r := Tick(g, choice);
      r.state == GameOver && r.snake == g.snake && r.fruit == g.fruit && r.direction == g.direction
  {
  }

  /** A head landing on any current segment ends the game. This includes the
      cell of the last segment: the test comes before the tail is dropped. */
  lemma TickSelfCollision(g: Game, choice: nat)
    requires g.state == Playing && g.snake != []
    requires NextHead(g.snake[0], g.direction) in g.snake
    ensures var r := Tick(g, choice);
      r.state == GameOver && r.snake == g.snake && r.fruit == g.fruit && r.direction == g.direction
  {
  }

  /** A move onto a cell that is not the fruit shifts the snake by one cell:
      same length, the old tail gone, fruit and phase kept. */
  lemma TickPlainMove(g: Game, choice: nat)
    requires g.state == Playing && g.snake != []
    requires var h := NextHead(g.snake[0], g.direction);
      InBounds(h) && h !in g.snake && g.fruit != Some(h)
    ensures var r := Tick(g, choice);
      && r.snake == [NextHead(g.snake[0], g.direction)] + g.snake[..|g.snake| - 1]
      && |r.snake| == |g.snake|
      && r.fruit == g.fruit && r.state == Playing && r.direction == g.direction
  {
  }

  /** A move onto the fruit grows the snake by its new head. The game is won
      exactly when that fills the board; otherwise a new fruit is placed on a
      free cell. */
  lemma TickEat(g: Game, choice: nat)
    requires Inv(g) && g.state == Playing
    requires g.fruit == Some(NextHead(g.snake[0], g.direction))
    ensures var r := Tick(g, choice);
      && r.snake == [NextHead(g.snake[0], g.direction)] + g.snake
      && |r.snake| == |g.snake| + 1
      && (r.state == Won <==> |g.snake| + 1 == CellCount)
      && (r.state == Won ==> r.fruit == g.fruit)
      && (r.state != Won ==>
            r.state == Playing && r.fruit.Some? && InBounds(r.fruit.value) && r.fruit.value !in r.snake)
  {
    var h := NextHead(g.snake[0], g.direction);
    assert InBounds(h) && h !in g.snake;
    var grown := [h] + g.snake;
    DistinctConcat([h], g.snake);
    assert AllInBounds(grown);
    if |grown| != CellCount {
      SpawnFruitNoneIffFull(grown, choice);
    }
  }

  /** Every tick of a reachable game leads to a reachable game. */
  lemma TickPreservesInv(g: Game, choice: nat)
    requires Inv(g)
    ensures Inv(Tick(g, choice))
  {
    if g.state == Playing {
      var h := NextHead(g.snake[0], g.direction);
      if InBounds(h) && h !in g.snake {
        var grown := [h] + g.snake;
        DistinctConcat([h], g.snake);
        assert AllInBounds(grown);
        OccupancyBound(grown);
        if g.fruit == Some(h) {
          TickEat(g, choice);
        } else {
          assert grown[..|grown| - 1] == [h] + g.snake[..|g.snake| - 1];
        }
      }
    }
  }

  // ---------------------------------------------------------------------------
  // The key handler

  /** An arrow key sets its own heading unless that heading is the exact
      reverse of the current one; every other key leaves the direction alone. */
  lemma {:induction false} SteerRule(d: Cell, key: Key)
    requires IsDirection(d)
    ensures key.IsArrow() ==> Steer(d, key) == if Heading(key) == Reverse(d) then d else Heading(key)
    ensures !key.IsArrow() ==> Steer(d, key) == d
    ensures IsDirection(Steer(d, key))
  {
    if key.IsArrow() {
      assert Heading(key) == Reverse(d) <==> d == Reverse(Heading(key));
    }
  }

  /** Phase transitions of one key press: Space starts, R restarts after a
      reset, everything else keeps the phase. */
  lemma PressPhase(g: Game, key: Key, choice: nat)
    ensures var r := Press(g, key, choice);
      r.state == if g.state == Start && key == Space then Playing
                 else if (g.state == GameOver || g.state == Won) && key == R then Playing
                 else g.state
  {
  }

  lemma PressRIsReset(g: Game, choice: nat)
    requires g.state == GameOver || g.state == Won
    ensures Press(g, R, choice) == ResetData(g, choice).(state := Playing)
  {
    var restarted := ResetData(g, choice).(state := Playing);
    assert Press(g, R, choice) == restarted.(direction := Steer(restarted.direction, R));
  }

  /** R in a finished game performs reset_data and resumes play: the initial
      snake and direction, and a fresh fruit off the snake. */
  lemma PressRestart(g: Game, choice: nat)
    requires g.state == GameOver || g.state == Won
    ensures var r := Press(g, R, choice);
      && r.state == Playing && r.snake == [(5, 5), (5, 6)] && r.direction == (0, -1)
      && r.fruit.Some? && InBounds(r.fruit.value) && r.fruit.value !in r.snake
      && Inv(r)
  {
    PressRIsReset(g, choice);
    ResetDataEstablishesInv(g, choice);
    ResetDataEstablishesInv(g.(state := Playing), choice);
  }

  /** Arrow keys only steer while PLAYING, and never straight back. Nothing
      but the direction changes. */
  lemma PressSteers(g: Game, key: Key, choice: nat)
    requires IsDirection(g.direction) && key.IsArrow()
    ensures var r := Press(g, key, choice);
      && r.snake == g.snake && r.fruit == g.fruit && r.state == g.state
      && r.direction == if g.state != Playing || Heading(key) == Reverse(g.direction) then g.direction
                        else Heading(key)
  {
    SteerRule(g.direction, key);
  }

  /** Presses between two ticks are not buffered: each is checked against
      the direction the previous one left, so the last accepted one wins,
      and two presses can turn the snake fully around before the next tick. */
  lemma LastPressWins(g: Game, k1: Key, k2: Key, choice: nat)
    requires g.state == Playing && IsDirection(g.direction)
    requires k1.IsArrow() && k2.IsArrow()
    requires Heading(k1) != Reverse(g.direction) && Heading(k2) != Reverse(Heading(k1))
    ensures Press(Press(g, k1, choice), k2, choice).direction == Heading(k2)
  {
    PressSteers(g, k1, choice);
    PressSteers(Press(g, k1, choice), k2, choice);
  }

  lemma PressPreservesInv(g: Game, key: Key, choice: nat)
    requires Inv(g)
    ensures Inv(Press(g, key, choice))
  {
    if (g.state == GameOver || g.state == Won) && key == R {
      PressRestart(g, choice);
    } else {
      SteerRule(g.direction, key);
    }
  }

  // ---------------------------------------------------------------------------
  // Scenarios

  /** From the initial layout, with the fruit elsewhere, one tick moves the
      head from (5, 5) up to (5, 4) and drops (5, 6). */
  lemma FirstTickMovesUp(g: Game, choice: nat)
    requires g.snake == [(5, 5), (5, 6)] && g.direction == (0, -1) && g.state == Playing
    requires g.fruit != Some((5, 4))
    ensures Tick(g, choice) == g.(snake := [(5, 4), (5, 5)])
  {
    assert (5, 4) !in g.snake;
  }

  /** Starting at the top edge and heading up ends the game with the snake
      where it was. */
  lemma TopWallEndsGame(g: Game, choice: nat)
    requires g.snake == [(0, 0), (0, 1)] && g.direction == (0, -1) && g.state == Playing
    ensures Tick(g, choice) == g.(state := GameOver)
  {
  }

  /** Heading up, Left then Down before the next tick turns the snake fully
      around: the second press is checked against Left, not against Up. */
  lemma TwoPressesReverse(g: Game, choice: nat)
    requires g.state == Playing && g.direction == (0, -1)
    ensures Press(Press(g, Left, choice), Down, choice).direction == Reverse(g.direction)
  {
    LastPressWins(g, Left, Down, choice);
  }
}
