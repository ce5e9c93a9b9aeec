/**
 * The board engine of the Mario maze: a rows-by-cols matrix of actor tags,
 * Mario's position and two counters. Construction fills an empty matrix,
 * places one MARIO and then a random number of BUNs on EMPTY cells; `Move`
 * updates the counters and Mario's position and reports the two cells the
 * caller must repaint. `Move` reads the matrix but never writes it: the
 * view (module View) writes the reported updates back into the same array.
 */
module Engine {
  import opened Matrix

  /** One cell to repaint: the cell at `coord` now holds `value`. */
  datatype Update = Update(coord: Coord, value: Cell)

  /** What a move reports: whether it won the game and which cells changed. */
  datatype MoveResult = MoveResult(win: bool, updates: seq<Update>)

  /** The updates of an accepted move from `from` to `to`: clear the old cell first, then set the new one. */
  function LegalMoveUpdates(from: Coord, to: Coord): (updates: seq<Update>) {
    [Update(from, Empty), Update(to, Mario)]
  }

  /**
   * The class invariant on values: the matrix holds exactly one MARIO, at
   * `mario`, and exactly `buns` BUNs.
   */
  predicate Invariant(g: Grid, mario: Coord, buns: int) {
    InBounds(g, mario) && g[mario.x][mario.y] == Mario &&
    Count(g, Mario) == 1 && Count(g, Bun) == buns
  }

  /**
   * The largest bun count the constructor can draw. The bound it hands to
   * the random helper, rows * rows / 2, may be a half-integer, and the
   * helper then yields any integer from 1 up to its ceiling.
   */
  function BunUpper(rows: nat): (n: nat)
    ensures 2 * n >= rows * rows && 2 * (n - 1) < rows * rows
  {
    (rows * rows + 1) / 2
  }

  /** `buns` is a bun count the constructor can draw for a board with `rows` rows. */
  predicate Drawable(rows: nat, buns: int) {
    1 <= buns <= BunUpper(rows)
  }

  /** An empty `rows` by `cols` board, filled cell by cell. */
  method CreateBoard(rows: nat, cols: nat) returns (matrix: array2<Cell>)
    ensures fresh(matrix)
    ensures matrix.Length0 == rows && matrix.Length1 == cols
    ensures forall i, j :: 0 <= i < rows && 0 <= j < cols ==> matrix[i, j] == Empty
    ensures Cells(matrix) == EmptyGrid(rows, cols)
  {
    matrix := new Cell[rows, cols];
    for i := 0 to rows
      invariant forall a, b :: 0 <= a < i && 0 <= b < cols ==> matrix[a, b] == Empty
    {
      for j := 0 to cols
        invariant forall a, b :: 0 <= a < i && 0 <= b < cols ==> matrix[a, b] == Empty
        invariant forall b :: 0 <= b < j ==> matrix[i, b] == Empty
      {
        matrix[i, j] := Empty;
      }
    }
    SameCells(Cells(matrix), EmptyGrid(rows, cols));
  }

  /**
   * Puts `elem` on some EMPTY cell, chosen by the random source, and returns
   * that cell. The random retry loop ends only when an EMPTY cell exists,
   * which the precondition demands.
   */
  method PlaceElem(elem: Cell, matrix: array2<Cell>) returns (coord: Coord)
    requires Count(Cells(matrix), Empty) > 0
    modifies matrix
    ensures 0 <= coord.x < matrix.Length0 && 0 <= coord.y < matrix.Length1
    ensures old(matrix[coord.x, coord.y]) == Empty && matrix[coord.x, coord.y] == elem
    ensures forall i, j :: 0 <= i < matrix.Length0 && 0 <= j < matrix.Length1 && (i != coord.x || j != coord.y)
              ==> matrix[i, j] == old(matrix[i, j])
    ensures Cells(matrix) == Put(old(Cells(matrix)), coord, elem)
  {
    ghost var before := Cells(matrix);
    ghost var free := CountPositive(before, Empty);
    var i, j :| 0 <= i < matrix.Length0 && 0 <= j < matrix.Length1 && matrix[i, j] == Empty;
    matrix[i, j] := elem;
    coord := Coord(i, j);
    SameCells(Cells(matrix), Put(before, coord, elem));
  }

  /**
   * Puts `noOfBuns` BUNs on EMPTY cells, one after another. Only EMPTY cells
   * change, each to BUN.
   */
  method PlaceBuns(noOfBuns: nat, matrix: array2<Cell>)
    requires Count(Cells(matrix), Empty) >= noOfBuns
    modifies matrix
    ensures Count(Cells(matrix), Bun) == old(Count(Cells(matrix), Bun)) + noOfBuns
    ensures Count(Cells(matrix), Empty) == old(Count(Cells(matrix), Empty)) - noOfBuns
    ensures Count(Cells(matrix), Mario) == old(Count(Cells(matrix), Mario))
    ensures forall a, b :: 0 <= a < matrix.Length0 && 0 <= b < matrix.Length1 ==>
              matrix[a, b] == old(matrix[a, b]) || (old(matrix[a, b]) == Empty && matrix[a, b] == Bun)
  {
    var i := noOfBuns;
    while i > 0
      invariant 0 <= i <= noOfBuns
      invariant Count(Cells(matrix), Bun) == old(Count(Cells(matrix), Bun)) + (noOfBuns - i)
      invariant Count(Cells(matrix), Empty) == old(Count(Cells(matrix), Empty)) - (noOfBuns - i)
      invariant Count(Cells(matrix), Mario) == old(Count(Cells(matrix), Mario))
      invariant forall a, b :: 0 <= a < matrix.Length0 && 0 <= b < matrix.Length1 ==>
                  matrix[a, b] == old(matrix[a, b]) || (old(matrix[a, b]) == Empty && matrix[a, b] == Bun)
    {
      ghost var before := Cells(matrix);
      var coord := PlaceElem(Bun, matrix);
      CountPut(before, coord, Bun, Bun);
      CountPut(before, coord, Bun, Empty);
      CountPut(before, coord, Bun, Mario);
      i := i - 1;
    }
  }

  class Board {
    /** The matrix; the view applies each move's updates to this same array. */
    const board: array2<Cell>
    /** Mario's position. */
    var mario: Coord
    /** The number of accepted moves. */
    var noOfMoves: nat
    /** The number of buns still to eat, as the engine counts them. */
    var noOfBuns: int

    /** The class invariant, stated on the matrix's current contents. */
    ghost predicate Valid()
      reads this, board
    {
      Invariant(Cells(board), mario, noOfBuns)
    }

    /**
     * A new game on a `rows` by `cols` board with `buns` buns, the count the
     * random source drew. The source never checks that Mario and all buns
     * fit on the board (placement would then retry forever), so the second
     * precondition demands it here.
     */
    constructor (rows: nat, cols: nat, buns: int)
      requires Drawable(rows, buns)
      requires buns + 1 <= rows * cols
      ensures fresh(board) && board.Length0 == rows && board.Length1 == cols
      ensures Valid()
      ensures noOfMoves == 0 && noOfBuns == buns
    {
      noOfMoves := 0;
      noOfBuns := buns;
      var matrix := CreateBoard(rows, cols);
      board := matrix;
      new;
      CountEmptyGrid(rows, cols, Empty);
      CountEmptyGrid(rows, cols, Mario);
      CountEmptyGrid(rows, cols, Bun);
      PlaceMario(board);
      CountPut(EmptyGrid(rows, cols), mario, Mario, Empty);
      CountPut(EmptyGrid(rows, cols), mario, Mario, Mario);
      CountPut(EmptyGrid(rows, cols), mario, Mario, Bun);
      PlaceBuns(noOfBuns, board);
    }

    /** Puts MARIO on some EMPTY cell of `matrix` and records that cell as Mario's position. */
    method PlaceMario(matrix: array2<Cell>)
      requires Count(Cells(matrix), Empty) > 0
      modifies this, matrix
      ensures 0 <= mario.x < matrix.Length0 && 0 <= mario.y < matrix.Length1
      ensures old(Cells(matrix))[mario.x][mario.y] == Empty
      ensures Cells(matrix) == Put(old(Cells(matrix)), mario, Mario)
      ensures noOfMoves == old(noOfMoves) && noOfBuns == old(noOfBuns)
    {
      mario := PlaceElem(Mario, matrix);
    }

    /** On a valid board, MARIO's only cell is `mario`. */
    lemma MarioUnique()
      requires Valid()
      ensures forall i, j :: 0 <= i < board.Length0 && 0 <= j < board.Length1 && board[i, j] == Mario ==>
                Coord(i, j) == mario
    {
      CountOneUnique(Cells(board), Mario, mario);
    }

    /** (x, y) is a move onto the board. */
    function IsLegalMove(x: int, y: int): (legal: bool)
      reads this, board
      ensures legal <==> InBounds(Cells(board), Coord(x, y))
    {
      var rows := board.Length0;
      var cols := board.Length1;
      var upperLimit := x < rows && y < cols;
      var lowerLimit := x >= 0 && y >= 0;
      upperLimit && lowerLimit
    }

    /** The player has won; on a valid board, exactly when no BUN is left on the matrix. */
    function HasWon(): (won: bool)
      reads this, board
      ensures won <==> noOfBuns == 0
      ensures Valid() ==> (won <==> forall i, j :: 0 <= i < board.Length0 && 0 <= j < board.Length1 ==> board[i, j] != Bun)
    {
      CountZero(Cells(board), Bun);
      noOfBuns == 0
    }

    /**
     * What a call of `Move(x, y)` did: a move off the board reports no win
     * and no updates and changes nothing; an accepted move counts itself,
     * eats the bun the matrix shows at (x, y), puts Mario at (x, y) and
     * reports the clear-then-set updates and whether no bun is left.
     */
    twostate predicate MovedTo(x: int, y: int, r: MoveResult)
      reads this, board
    {
      if 0 <= x < board.Length0 && 0 <= y < board.Length1 then
        noOfMoves == old(noOfMoves) + 1 &&
        noOfBuns == old(noOfBuns) - (if old(board[x, y]) == Bun then 1 else 0) &&
        mario == Coord(x, y) &&
        r == MoveResult(noOfBuns == 0, LegalMoveUpdates(old(mario), Coord(x, y)))
      else
        noOfMoves == old(noOfMoves) && noOfBuns == old(noOfBuns) && mario == old(mario) &&
        r == MoveResult(false, [])
    }

    /** Moves Mario to (x, y) when that is on the board; the matrix itself is left as it is. */
    method Move(x: int, y: int) returns (r: MoveResult)
      modifies this
      ensures MovedTo(x, y, r)
      ensures unchanged(board)
    {
      r := MoveResult(false, []);
      if !IsLegalMove(x, y) {
        return;
      }
      noOfMoves := noOfMoves + 1;
      var updates := [Update(Coord(mario.x, mario.y), Empty)];
      if board[x, y] == Bun {
        noOfBuns := noOfBuns - 1;
      }
      var win := HasWon();
      mario := Coord(x, y);
      updates := updates + [Update(Coord(x, y), Mario)];
      r := MoveResult(win, updates);
    }

    /** One row up: the move to (mario.x - 1, mario.y). */
    method MoveUp() returns (r: MoveResult)
      modifies this
      ensures MovedTo(old(mario.x) - 1, old(mario.y), r)
      ensures unchanged(board)
    {
      r := Move(mario.x - 1, mario.y);
    }

    /** One row down: the move to (mario.x + 1, mario.y). */
    method MoveDown() returns (r: MoveResult)
      modifies this
      ensures MovedTo(old(mario.x) + 1, old(mario.y), r)
      ensures unchanged(board)
    {
      r := Move(mario.x + 1, mario.y);
    }

    /** One column left: the move to (mario.x, mario.y - 1). */
    method MoveLeft() returns (r: MoveResult)
      modifies this
      ensures MovedTo(old(mario.x), old(mario.y) - 1, r)
      ensures unchanged(board)
    {
      r := Move(mario.x, mario.y - 1);
    }

    /** One column right: the move to (mario.x, mario.y + 1). */
    method MoveRight() returns (r: MoveResult)
      modifies this
      ensures MovedTo(old(mario.x), old(mario.y) + 1, r)
      ensures unchanged(board)
    {
      r := Move(mario.x, mario.y + 1);
    }
  }
}
