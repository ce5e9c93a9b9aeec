/**
 * The two pieces of the game's view layer that carry logic: writing a move's
 * updates into the engine's matrix (the maze component's update loop), and
 * checking the board dimensions the player typed (the game component).
 */
module View {
  import opened Matrix
  import opened Engine

  /** A parsed integer, or None where parsing gave NaN. */
  datatype Option<T> = None | Some(value: T)

  /** Every update names a cell of `g`. */
  predicate Fits(g: Grid, updates: seq<Update>) {
    forall k :: 0 <= k < |updates| ==> InBounds(g, updates[k].coord)
  }

  /** `g` after writing the updates one after another, first to last. */
  function Applied(g: Grid, updates: seq<Update>): (h: Grid)
    requires Fits(g, updates)
    ensures |h| == |g| && forall i :: 0 <= i < |g| ==> |h[i]| == |g[i]|
    decreases |updates|
  {
    if updates == [] then g
    else Applied(Put(g, updates[0].coord, updates[0].value), updates[1..])
  }

  /**
   * The value the last update naming `p` writes, or `d` when no update names
   * `p`: the reference meaning of a list of updates, read from its end.
   */
  function Written(updates: seq<Update>, p: Coord, d: Cell): (v: Cell) {
    if updates == [] then d
    else if updates[|updates| - 1].coord == p then updates[|updates| - 1].value
    else Written(updates[..|updates| - 1], p, d)
  }

  /** Reading the updates from the front: the first update only changes the default. */
  lemma {:induction false} WrittenFront(updates: seq<Update>, p: Coord, d: Cell)
    requires updates != []
    ensures Written(updates, p, d)
            == Written(updates[1..], p, if updates[0].coord == p then updates[0].value else d)
  {
    var n := |updates|;
    if n > 1 && updates[n - 1].coord != p {
      assert updates[1..][..n - 2] == updates[..n - 1][1..];
      WrittenFront(updates[..n - 1], p, d);
    }
  }

  /** Applying the updates in order leaves in each cell what the last update naming it wrote. */
  lemma {:induction false} AppliedAt(g: Grid, updates: seq<Update>, i: int, j: int)
    requires Fits(g, updates) && 0 <= i < |g| && 0 <= j < |g[i]|
    ensures Applied(g, updates)[i][j] == Written(updates, Coord(i, j), g[i][j])
    decreases |updates|
  {
    if updates != [] {
      var u := updates[0];
      AppliedAt(Put(g, u.coord, u.value), updates[1..], i, j);
      WrittenFront(updates, Coord(i, j), g[i][j]);
    }
  }

  /** When update `k` is the last one naming its cell, that cell ends up holding its value. */
  lemma LastUpdateWins(g: Grid, updates: seq<Update>, k: int)
    requires Fits(g, updates) && 0 <= k < |updates|
    requires forall l :: k < l < |updates| ==> updates[l].coord != updates[k].coord
    ensures var p := updates[k].coord; Applied(g, updates)[p.x][p.y] == updates[k].value
  {
    var p := updates[k].coord;
    AppliedAt(g, updates, p.x, p.y);
    WrittenLast(updates, k);
  }

  lemma {:induction false} WrittenLast(updates: seq<Update>, k: int)
    requires 0 <= k < |updates|
    requires forall l :: k < l < |updates| ==> updates[l].coord != updates[k].coord
    ensures forall d :: Written(updates, updates[k].coord, d) == updates[k].value
  {
    var n := |updates|;
    if k < n - 1 {
      assert forall l :: k < l < n - 1 ==> updates[..n - 1][l] == updates[l];
      WrittenLast(updates[..n - 1], k);
    }
  }

  /** A cell no update names keeps its value; with no updates at all, nothing changes. */
  lemma {:induction false} UntouchedUnchanged(g: Grid, updates: seq<Update>, i: int, j: int)
    requires Fits(g, updates) && 0 <= i < |g| && 0 <= j < |g[i]|
    requires forall k :: 0 <= k < |updates| ==> updates[k].coord != Coord(i, j)
    ensures Applied(g, updates)[i][j] == g[i][j]
  {
    AppliedAt(g, updates, i, j);
    WrittenNone(updates, Coord(i, j), g[i][j]);
  }

  lemma {:induction false} WrittenNone(updates: seq<Update>, p: Coord, d: Cell)
    requires forall k :: 0 <= k < |updates| ==> updates[k].coord != p
    ensures Written(updates, p, d) == d
  {
    if updates != [] {
      WrittenNone(updates[..|updates| - 1], p, d);
    }
  }

  /** The maze component's loop: writes each update's value into `board`, in list order. */
  method ApplyUpdates(board: array2<Cell>, updates: seq<Update>)
    requires Fits(Cells(board), updates)
    modifies board
    ensures forall i, j :: 0 <= i < board.Length0 && 0 <= j < board.Length1 ==>
              board[i, j] == Written(updates, Coord(i, j), old(board[i, j]))
    ensures Cells(board) == Applied(old(Cells(board)), updates)
  {
    ghost var before := Cells(board);
    for i := 0 to |updates|
      invariant forall a, b :: 0 <= a < board.Length0 && 0 <= b < board.Length1 ==>
                  board[a, b] == Written(updates[..i], Coord(a, b), old(board[a, b]))
    {
      var x := updates[i].coord.x;
      var y := updates[i].coord.y;
      var value := updates[i].value;
      assert InBounds(before, updates[i].coord);
      board[x, y] := value;
      assert updates[..i + 1][..i] == updates[..i];
    }
    assert updates[..|updates|] == updates;
    forall i, j | 0 <= i < board.Length0 && 0 <= j < board.Length1
      ensures Cells(board)[i][j] == Applied(before, updates)[i][j]
    {
      AppliedAt(before, updates, i, j);
    }
    SameCells(Cells(board), Applied(before, updates));
  }

  /**
   * The class invariant survives an accepted move once its updates are
   * applied: one MARIO, now at the target, and the bun count drops by one
   * exactly when the target held a BUN. This holds also for a move onto
   * Mario's own cell, since the clear comes before the set.
   */
  lemma MoveThenApplyKeepsInvariant(g: Grid, mario: Coord, buns: int, x: int, y: int)
    requires Invariant(g, mario, buns) && InBounds(g, Coord(x, y))
    ensures Fits(g, LegalMoveUpdates(mario, Coord(x, y)))
    ensures var h := Applied(g, LegalMoveUpdates(mario, Coord(x, y)));
            h[x][y] == Mario &&
            Invariant(h, Coord(x, y), buns - (if g[x][y] == Bun then 1 else 0))
  {
    var t := Coord(x, y);
    var us := LegalMoveUpdates(mario, t);
    var g1 := Put(g, mario, Empty);
    var g2 := Put(g1, t, Mario);
    assert us[1..] == [Update(t, Mario)] && us[1..][1..] == [];
    assert Applied(g, us) == Applied(g1, us[1..]) == Applied(g2, []) == g2;
    CountPut(g, mario, Empty, Mario);
    CountPut(g, mario, Empty, Bun);
    CountZero(g1, Mario);
    assert g1[x][y] == Bun <==> g[x][y] == Bun;
    CountPut(g1, t, Mario, Mario);
    CountPut(g1, t, Mario, Bun);
  }

  /**
   * What the view does after each arrow key: ask the engine for the move and
   * write its updates into the engine's own matrix. The invariant is kept,
   * the target cell shows MARIO, and a won game stays won.
   */
  method MoveAndApply(game: Board, x: int, y: int) returns (status: MoveResult)
    requires game.Valid()
    modifies game, game.board
    ensures game.Valid()
    ensures game.MovedTo(x, y, status)
    ensures Cells(game.board) == Applied(old(Cells(game.board)), status.updates)
    ensures game.IsLegalMove(x, y) ==> game.board[x, y] == Mario
    ensures old(game.HasWon()) ==> game.HasWon()
  {
    ghost var g := Cells(game.board);
    ghost var mario := game.mario;
    ghost var buns := game.noOfBuns;
    CountZero(g, Bun);
    status := game.Move(x, y);
    if game.IsLegalMove(x, y) {
      MoveThenApplyKeepsInvariant(g, mario, buns, x, y);
    }
    ApplyUpdates(game.board, status.updates);
  }

  /** The dimension check; `rows` and `cols` are what integer parsing gave. */
  function ValidateDimensions(rows: Option<int>, cols: Option<int>): (valid: bool)
    ensures valid <==> rows.Some? && cols.Some? && rows.value >= 1 && cols.value >= 1
  {
    if rows.None? || cols.None? then false
    else !(rows.value < 1 || cols.value < 1)
  }

  /**
   * Every pair of dimensions that passes the check but not the corrected one
   * below has a bun count the engine can draw for which Mario and the buns do
   * not fit: the engine's placement would then retry forever.
   */
  lemma ValidatedButUnplaceable(rows: int, cols: int) returns (buns: int)
    requires ValidateDimensions(Some(rows), Some(cols)) && !PlaceableDimensions(Some(rows), Some(cols))
    ensures Drawable(rows, buns) && buns + 1 > rows * cols
  {
    assert rows * rows >= 1;
    buns := BunUpper(rows);
  }

  /**
   * Two boards that pass the dimension check and still fail: on 1 by 1 every
   * bun count that can be drawn is too large, on 2 by 1 the largest one is.
   */
  lemma SmallBoardsValidatedButUnplaceable()
    ensures ValidateDimensions(Some(1), Some(1)) && !PlaceableDimensions(Some(1), Some(1))
    ensures forall buns :: Drawable(1, buns) ==> buns + 1 > 1 * 1
    ensures ValidateDimensions(Some(2), Some(1)) && !PlaceableDimensions(Some(2), Some(1))
    ensures Drawable(2, 2) && 2 + 1 > 2 * 1
  {
  }

  /** The corrected dimension check: valid, and room for Mario and the largest bun count. */
  function PlaceableDimensions(rows: Option<int>, cols: Option<int>): (placeable: bool) {
    ValidateDimensions(rows, cols) && BunUpper(rows.value) + 1 <= rows.value * cols.value
  }

  /** The corrected check accepts exactly the valid dimensions on which every bun count that can be drawn fits. */
  lemma PlaceableIffEveryDrawFits(rows: Option<int>, cols: Option<int>)
    ensures PlaceableDimensions(rows, cols) <==>
            ValidateDimensions(rows, cols) &&
            forall buns :: Drawable(rows.value, buns) ==> buns + 1 <= rows.value * cols.value
  {
    if ValidateDimensions(rows, cols) && !PlaceableDimensions(rows, cols) {
      var r := rows.value;
      assert r * r >= 1;
      assert Drawable(r, BunUpper(r));
    }
  }

  /**
   * Starting a game from the typed dimensions with the corrected check:
   * `buns` is the count the random source draws for the typed rows. No board
   * when the actors might not fit, otherwise a fresh valid board.
   */
  method NewGame(rows: Option<int>, cols: Option<int>, buns: int) returns (game: Option<Board>)
    requires ValidateDimensions(rows, cols) ==> Drawable(rows.value, buns)
    ensures game.Some? <==> PlaceableDimensions(rows, cols)
    ensures game.Some? ==>
              fresh(game.value) && fresh(game.value.board) && game.value.Valid() &&
              game.value.board.Length0 == rows.value && game.value.board.Length1 == cols.value &&
              game.value.noOfMoves == 0 && game.value.noOfBuns == buns
  {
    if !PlaceableDimensions(rows, cols) {
      return None;
    }
    PlaceableIffEveryDrawFits(rows, cols);
    var board := new Board(rows.value, cols.value, buns);
    game := Some(board);
  }
}
