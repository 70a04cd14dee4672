/** Grid coordinates, the unit step toward the blank, and the shape invariant
    of an N x N board (scripts/puzzle.js, Tile and Puzzle.createBoard). */
module Geometry {

  /** A grid cell, 0-indexed: `row` from the top, `col` from the left. */
  datatype Pos = Pos(row: int, col: int)

  /** A step of `x` columns and `y` rows (the `deltas` object of movementDelta). */
  datatype Delta = Delta(x: int, y: int)

  function Abs(n: int): nat
  {
    if n < 0 then -n else n
  }

  predicate InGrid(size: nat, p: Pos)
  {
    0 <= p.row < size && 0 <= p.col < size
  }

  /** Two cells on one row or one column: the only targets makeMove accepts. */
  predicate Aligned(p: Pos, q: Pos)
  {
    p.row == q.row || p.col == q.col
  }

  /** Manhattan distance; along a shared row or column, the number of steps. */
  function Dist(p: Pos, q: Pos): nat
  {
    Abs(p.row - q.row) + Abs(p.col - q.col)
  }

  /** `cells[i]` is where tile i stands. The board is well formed when its
      size * size tiles occupy every cell of the grid exactly once. */
  ghost predicate IsGrid(size: nat, cells: seq<Pos>)
  {
    && |cells| == size * size
    && (forall i :: 0 <= i < |cells| ==> InGrid(size, cells[i]))
    && (forall i, j :: 0 <= i < j < |cells| ==> cells[i] != cells[j])
    && (forall p {:trigger Occupied(cells, p)} :: InGrid(size, p) ==> Occupied(cells, p))
  }

  /** Some tile stands on `p`. */
  ghost predicate Occupied(cells: seq<Pos>, p: Pos)
  {
    exists i :: 0 <= i < |cells| && cells[i] == p
  }

  /** The solved board of createBoard: tile i on row floor(i / size), column i % size. */
  function Solved(size: nat): (cells: seq<Pos>)
    requires size >= 1
    ensures |cells| == size * size
    ensures forall i :: 0 <= i < |cells| ==> InGrid(size, cells[i]) && cells[i].row * size + cells[i].col == i
  {
    RowsInRange(size);
    seq(size * size, i requires 0 <= i < size * size => Pos(i / size, i % size))
  }

  lemma RowMajor(size: nat, r: int, c: int)
    requires size >= 1 && 0 <= r && 0 <= c < size
    ensures (r * size + c) / size == r && (r * size + c) % size == c
  {
    var n := r * size + c;
    var q, m := n / size, n % size;
    assert n == q * size + m && 0 <= m < size;
    assert (q - r) * size == c - m;
    if q > r {
      MulAtLeast(q - r, size);
    } else if q < r {
      MulAtLeast(r - q, size);
    }
  }

  lemma MulAtLeast(a: int, b: int)
    requires a >= 1 && b >= 1
    ensures a * b >= b
  {
  }

  lemma RowInRange(size: nat, i: int)
    requires size >= 1 && 0 <= i < size * size
    ensures 0 <= i / size < size
  {
  }

  lemma Recompose(size: nat, i: int)
    requires size >= 1
    ensures i == (i / size) * size + i % size
  {
  }

  /** Every index of a size * size board splits into a row in range and a column. */
  lemma RowsInRange(size: nat)
    requires size >= 1
    ensures forall i :: 0 <= i < size * size ==> 0 <= i / size < size && (i / size) * size + i % size == i
  {
    forall i | 0 <= i < size * size ensures 0 <= i / size < size && (i / size) * size + i % size == i {
      RowInRange(size, i);
      Recompose(size, i);
    }
  }

  lemma CellIndexInRange(size: nat, p: Pos)
    requires InGrid(size, p)
    ensures 0 <= p.row * size + p.col < size * size
  {
    MulAtLeast(size - p.row, size);
    assert (size - p.row) * size == size * size - p.row * size;
  }

  /** The solved board is a grid bijection: cell (r, c) holds tile r * size + c. */
  lemma SolvedIsGrid(size: nat)
    requires size >= 1
    ensures IsGrid(size, Solved(size))
  {
    var cells := Solved(size);
    forall i | 0 <= i < |cells| ensures InGrid(size, cells[i]) {
      RowInRange(size, i);
    }
    forall i, j | 0 <= i < j < |cells| ensures cells[i] != cells[j] {
      Recompose(size, i);
      Recompose(size, j);
    }
    forall p | InGrid(size, p) ensures Occupied(cells, p) {
      RowMajor(size, p.row, p.col);
      CellIndexInRange(size, p);
      var i := p.row * size + p.col;
      assert cells[i] == p;
    }
  }
}
