/** Fruit placement: the free cells of the board in row-major order, and a
    random pick among them (the pick is an injected index). */
module FruitPlacement {
  import opened Board

  /** The cells of `cells`, in order, that are not occupied. */
  function Unoccupied(cells: seq<Cell>, occupied: set<Cell>): (free: seq<Cell>)
    ensures forall p :: p in free <==> p in cells && p !in occupied
    ensures |free| <= |cells|
  {
    if cells == [] then []
    else (if cells[0] in occupied then [] else [cells[0]]) + Unoccupied(cells[1..], occupied)
  }

  lemma {:induction false} UnoccupiedDistinct(cells: seq<Cell>, occupied: set<Cell>)
    requires Distinct(cells)
    ensures Distinct(Unoccupied(cells, occupied))
  {
    if cells != [] {
      UnoccupiedDistinct(cells[1..], occupied);
      var head := if cells[0] in occupied then [] else [cells[0]];
      DistinctConcat(head, Unoccupied(cells[1..], occupied));
    }
  }

  /** The list of empty cells that spawn_fruit chooses from: the board in
      row-major order, without the cells of the snake. */
  function EmptyCells(snake: seq<Cell>): (free: seq<Cell>)
    ensures forall p :: p in free <==> InBounds(p) && p !in snake
    ensures Distinct(free)
  {
    // Elems(snake) written out: with the comprehension inline, Dafny does not
    // unfold the fixed initial snake through Elems, which keeps proofs about
    // the initial layout within the solver's budget.
    var occupied := set p | p in snake;
    UnoccupiedDistinct(AllCells(), occupied);
    Unoccupied(AllCells(), occupied)
  }

  /** With a well-formed snake, the free cells are exactly the rest of the board. */
  lemma EmptyCellsCount(snake: seq<Cell>)
    requires Distinct(snake) && AllInBounds(snake)
    ensures |EmptyCells(snake)| == CellCount - |snake|
  {
    var all, free := AllCells(), EmptyCells(snake);
    DistinctCard(all);
    DistinctCard(free);
    DistinctCard(snake);
    ElemsOnBoard(snake);
    FreeElems(snake);
    SubsetDiffCard(Elems(snake), Elems(all));
  }

  lemma FreeElems(snake: seq<Cell>)
    ensures Elems(EmptyCells(snake)) == Elems(AllCells()) - Elems(snake)
  {
  }

  /** spawn_fruit: `choice` stands for the random generator behind random.choice;
      it selects the element at `choice` modulo the number of empty cells. */
  function SpawnFruit(snake: seq<Cell>, choice: nat): (fruit: Option<Cell>)
    ensures fruit.Some? ==> InBounds(fruit.value) && fruit.value !in snake
    ensures fruit.None? <==> forall p :: InBounds(p) ==> p in snake
  {
    var free := EmptyCells(snake);
    if free == [] then None
    else
      assert free[0] in free;
      Some(free[choice % |free|])
  }

  lemma SmallModulo(i: nat, n: nat)
    requires i < n
    ensures i % n == i
  {
  }

  /** Every empty cell can be the one that is picked. */
  lemma SpawnFruitReachesEveryFreeCell(snake: seq<Cell>, p: Cell)
    requires InBounds(p) && p !in snake
    ensures exists choice: nat :: SpawnFruit(snake, choice) == Some(p)
  {
    var free := EmptyCells(snake);
    var i :| 0 <= i < |free| && free[i] == p;
    SmallModulo(i, |free|);
    assert SpawnFruit(snake, i) == Some(p);
  }

  /** For a well-formed snake, no fruit is placed exactly when the snake
      covers all GridSize * GridSize cells. */
  lemma SpawnFruitNoneIffFull(snake: seq<Cell>, choice: nat)
    requires Distinct(snake) && AllInBounds(snake)
    ensures SpawnFruit(snake, choice).None? <==> |snake| == CellCount
  {
    OccupancyBound(snake);
  }

  /** While the board has room, a fruit is placed, and on a free cell. */
  lemma SpawnFruitWhenRoom(snake: seq<Cell>, choice: nat)
    requires Distinct(snake) && AllInBounds(snake) && |snake| < CellCount
    ensures var f := SpawnFruit(snake, choice);
      f.Some? && InBounds(f.value) && f.value !in snake
  {
    SpawnFruitNoneIffFull(snake, choice);
  }
}
