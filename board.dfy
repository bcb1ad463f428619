/** The 10x10 board: cells, the row-major enumeration of all cells, and the
    counting facts that relate a set of distinct occupied cells to the free ones. */
module Board {

  /** Side of the square board (GRID_SIZE). */
  const GridSize: int := 10

  /** Number of cells on the board; filling all of them wins the game. */
  const CellCount: int := GridSize * GridSize

  /** A cell is an (x, y) pair: x is the column (horizontal), y the row.
      The same pair type also serves as a unit direction vector. */
  type Cell = (int, int)

  datatype Option<T> = None | Some(value: T)

  predicate InBounds(c: Cell) {
    0 <= c.0 < GridSize && 0 <= c.1 < GridSize
  }

  predicate AllInBounds(s: seq<Cell>) {
    forall i :: 0 <= i < |s| ==> InBounds(s[i])
  }

  /** No cell occurs twice. */
  predicate Distinct<T(==)>(s: seq<T>) {
    forall i, j :: 0 <= i < j < |s| ==> s[i] != s[j]
  }

  function Elems<T>(s: seq<T>): set<T> {
    set x | x in s
  }

  lemma DistinctConcat<T>(a: seq<T>, b: seq<T>)
    requires Distinct(a) && Distinct(b)
    requires forall x :: x in a ==> x !in b
    ensures Distinct(a + b)
  {
    forall i, j | 0 <= i < j < |a + b|
      ensures (a + b)[i] != (a + b)[j]
    {
      if j < |a| {
      } else if i >= |a| {
        assert (a + b)[i] == b[i - |a|] && (a + b)[j] == b[j - |a|];
      } else {
        assert (a + b)[i] in a && (a + b)[j] in b;
      }
    }
  }

  /** The k-th cell of the row-major enumeration: the first component is the
      outer loop of the comprehension in spawn_fruit, the second the inner one. */
  function CellAt(k: int): Cell {
    (k / GridSize, k % GridSize)
  }

  function IndexOf(p: Cell): int {
    p.0 * GridSize + p.1
  }

  lemma IndexRoundTrip(p: Cell)
    requires InBounds(p)
    ensures 0 <= IndexOf(p) < CellCount && CellAt(IndexOf(p)) == p
  {
    var k := IndexOf(p);
    assert k == GridSize * p.0 + p.1;
  }

  lemma CellAtRoundTrip(k: int)
    requires 0 <= k < CellCount
    ensures InBounds(CellAt(k)) && IndexOf(CellAt(k)) == k
  {
  }

  /** The whole board, each cell exactly once, in row-major order. */
  function AllCells(): (cells: seq<Cell>)
    ensures |cells| == CellCount
    ensures forall p :: p in cells <==> InBounds(p)
    ensures Distinct(cells)
  {
    var cells := seq(CellCount, CellAt);
    assert forall k :: 0 <= k < CellCount ==> InBounds(cells[k]) && IndexOf(cells[k]) == k by {
      forall k | 0 <= k < CellCount
        ensures InBounds(cells[k]) && IndexOf(cells[k]) == k
      {
        CellAtRoundTrip(k);
      }
    }
    assert forall p :: InBounds(p) ==> p in cells by {
      forall p | InBounds(p) ensures p in cells {
        IndexRoundTrip(p);
        assert cells[IndexOf(p)] == p;
      }
    }
    cells
  }

  lemma {:induction false} DistinctCard<T>(s: seq<T>)
    requires Distinct(s)
    ensures |Elems(s)| == |s|
  {
    if s != [] {
      DistinctCard(s[1..]);
      assert Elems(s) == {s[0]} + Elems(s[1..]);
      assert s[0] !in Elems(s[1..]);
    }
  }

  lemma SubsetDiffCard<T>(a: set<T>, b: set<T>)
    requires a <= b
    ensures |b - a| == |b| - |a|
  {
    assert b == a + (b - a);
    assert a * (b - a) == {};
  }

  lemma ElemsOnBoard(s: seq<Cell>)
    requires AllInBounds(s)
    ensures Elems(s) <= Elems(AllCells())
  {
    forall p | p in Elems(s) ensures p in Elems(AllCells()) {
      var i :| 0 <= i < |s| && s[i] == p;
      assert InBounds(s[i]);
    }
  }

  /** A snake of distinct in-bounds cells never has more than CellCount
      segments, and it has exactly CellCount when it leaves no cell free. */
  lemma {:induction false} OccupancyBound(s: seq<Cell>)
    requires Distinct(s) && AllInBounds(s)
    ensures |s| <= CellCount
    ensures |s| == CellCount <==> forall p :: InBounds(p) ==> p in s
  {
    var all := AllCells();
    DistinctCard(s);
    DistinctCard(all);
    ElemsOnBoard(s);
    SubsetDiffCard(Elems(s), Elems(all));
    if |s| == CellCount {
      assert Elems(all) - Elems(s) == {};
      forall p | InBounds(p) ensures p in s {
        assert p in Elems(all);
      }
    }
    if forall p :: InBounds(p) ==> p in s {
      assert Elems(all) - Elems(s) == {};
    }
  }
}
