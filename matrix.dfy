/**
 * The board matrix of the Mario maze as a value: a sequence of rows of
 * cells, each cell holding one of the three actor tags. The engine keeps
 * the matrix in an `array2`; `Cells` reads it back as a value so that the
 * counting facts below can be stated and proved once, on values.
 */
module Matrix {

  /** The actor tags; the game encodes them as EMPTY = 0, MARIO = 1, BUN = 2. */
  datatype Cell = Empty | Mario | Bun

  /** A board position: `x` is the row, `y` the column. */
  datatype Coord = Coord(x: int, y: int)

  type Grid = seq<seq<Cell>>

  /** `p` names a cell of `g`. */
  predicate InBounds(g: Grid, p: Coord) {
    0 <= p.x < |g| && 0 <= p.y < |g[p.x]|
  }

  /** `g` with the cell at `p` overwritten by `v`. */
  function Put(g: Grid, p: Coord, v: Cell): (h: Grid)
    requires InBounds(g, p)
    ensures |h| == |g| && forall i :: 0 <= i < |g| ==> |h[i]| == |g[i]|
  {
    g[p.x := g[p.x][p.y := v]]
  }

  /** The number of cells of `row` that hold `c`. */
  function RowCount(row: seq<Cell>, c: Cell): (n: nat) {
    if row == [] then 0 else (if row[0] == c then 1 else 0) + RowCount(row[1..], c)
  }

  /** The number of cells of `g` that hold `c`. */
  function Count(g: Grid, c: Cell): (n: nat) {
    if g == [] then 0 else RowCount(g[0], c) + Count(g[1..], c)
  }

  /** A row of `n` copies of `v`. */
  function Uniform(n: nat, v: Cell): (row: seq<Cell>) {
    seq(n, _ => v)
  }

  /** A `rows` by `cols` matrix whose every cell is EMPTY. */
  function EmptyGrid(rows: nat, cols: nat): (g: Grid) {
    seq(rows, _ => Uniform(cols, Empty))
  }

  /** The current contents of a board array, as a value. */
  function Cells(a: array2<Cell>): (g: Grid)
    reads a
    ensures |g| == a.Length0
    ensures forall i :: 0 <= i < |g| ==> |g[i]| == a.Length1
    ensures forall i, j :: 0 <= i < a.Length0 && 0 <= j < a.Length1 ==> g[i][j] == a[i, j]
  {
    seq(a.Length0, i requires 0 <= i < a.Length0 reads a =>
      seq(a.Length1, j requires 0 <= j < a.Length1 reads a => a[i, j]))
  }

  /** Two matrices of the same shape that agree on every cell are equal. */
  lemma SameCells(g: Grid, h: Grid)
    requires |g| == |h| && forall i :: 0 <= i < |g| ==> |g[i]| == |h[i]|
    requires forall i, j :: 0 <= i < |g| && 0 <= j < |g[i]| ==> g[i][j] == h[i][j]
    ensures g == h
  {
    forall i | 0 <= i < |g|
      ensures g[i] == h[i]
    {
      assert forall j :: 0 <= j < |g[i]| ==> g[i][j] == h[i][j];
    }
  }

  /** Overwriting one cell moves exactly that cell from its old tag's count to the new tag's. */
  lemma {:induction false} RowCountPut(row: seq<Cell>, j: int, v: Cell, c: Cell)
    requires 0 <= j < |row|
    ensures RowCount(row[j := v], c)
            == RowCount(row, c) - (if row[j] == c then 1 else 0) + (if v == c then 1 else 0)
  {
    if j == 0 {
      assert row[j := v][1..] == row[1..];
    } else {
      assert row[j := v][1..] == row[1..][j - 1 := v];
      RowCountPut(row[1..], j - 1, v, c);
    }
  }

  /** Writing `v` at `p` changes the count of `c` only by the cell at `p`. */
  lemma {:induction false} CountPut(g: Grid, p: Coord, v: Cell, c: Cell)
    requires InBounds(g, p)
    ensures Count(Put(g, p, v), c)
            == Count(g, c) - (if g[p.x][p.y] == c then 1 else 0) + (if v == c then 1 else 0)
  {
    if p.x == 0 {
      assert Put(g, p, v)[1..] == g[1..];
      RowCountPut(g[0], p.y, v, c);
    } else {
      var q := Coord(p.x - 1, p.y);
      assert Put(g, p, v)[1..] == Put(g[1..], q, v);
      CountPut(g[1..], q, v, c);
    }
  }

  lemma {:induction false} RowCountZero(row: seq<Cell>, c: Cell)
    ensures RowCount(row, c) == 0 <==> forall j :: 0 <= j < |row| ==> row[j] != c
  {
    if row != [] {
      RowCountZero(row[1..], c);
      assert forall j :: 1 <= j < |row| ==> row[j] == row[1..][j - 1];
    }
  }

  /** No cell holds `c` exactly when the count of `c` is zero. */
  lemma {:induction false} CountZero(g: Grid, c: Cell)
    ensures Count(g, c) == 0 <==>
            forall i, j :: 0 <= i < |g| && 0 <= j < |g[i]| ==> g[i][j] != c
  {
    if g != [] {
      RowCountZero(g[0], c);
      CountZero(g[1..], c);
      assert forall i :: 1 <= i < |g| ==> g[i] == g[1..][i - 1];
    }
  }

  /** A positive count of `c` means some cell holds `c`. */
  lemma CountPositive(g: Grid, c: Cell) returns (p: Coord)
    requires Count(g, c) > 0
    ensures InBounds(g, p) && g[p.x][p.y] == c
  {
    CountZero(g, c);
    var i, j :| 0 <= i < |g| && 0 <= j < |g[i]| && g[i][j] == c;
    p := Coord(i, j);
  }

  /** When exactly one cell holds `c` and `p` holds it, `p` is the only such cell. */
  lemma CountOneUnique(g: Grid, c: Cell, p: Coord)
    requires InBounds(g, p) && g[p.x][p.y] == c && Count(g, c) == 1
    ensures forall i, j :: 0 <= i < |g| && 0 <= j < |g[i]| && g[i][j] == c ==> i == p.x && j == p.y
  {
    var other := if c == Empty then Mario else Empty;
    var h := Put(g, p, other);
    CountPut(g, p, other, c);
    CountZero(h, c);
    forall i, j | 0 <= i < |g| && 0 <= j < |g[i]| && (i != p.x || j != p.y)
      ensures g[i][j] != c
    {
      assert h[i][j] == g[i][j];
    }
  }

  lemma {:induction false} RowCountUniform(n: nat, v: Cell, c: Cell)
    ensures RowCount(Uniform(n, v), c) == if v == c then n else 0
  {
    if n > 0 {
      assert Uniform(n, v)[1..] == Uniform(n - 1, v);
      RowCountUniform(n - 1, v, c);
    }
  }

  /** An empty `rows` by `cols` matrix has `rows * cols` EMPTY cells and no others. */
  lemma {:induction false} CountEmptyGrid(rows: nat, cols: nat, c: Cell)
    ensures Count(EmptyGrid(rows, cols), c) == if c == Empty then rows * cols else 0
  {
    if rows > 0 {
      assert EmptyGrid(rows, cols)[1..] == EmptyGrid(rows - 1, cols);
      CountEmptyGrid(rows - 1, cols, c);
      RowCountUniform(cols, Empty, c);
      assert rows * cols == cols + (rows - 1) * cols;
    }
  }
}
