/**
 * The board engine of the tic-tac-toe game: `isGameEnded` in
 * plugins/Routing.kt. A board is a 3x3 grid of ints: 0 is an empty cell,
 * 1 the first player's mark and 2 the second player's.
 *
 * The engine is modelled as written, quirks included:
 *  - a row or column whose three cells are all 0 counts as "uniform", so
 *    an empty line yields 0;
 *  - each diagonal loop returns after comparing only the middle cell with
 *    its corner, never looking at the third cell of the diagonal.
 */
module Board {
  import opened Wrappers

  /** One row of a board: the cells in columns 0, 1 and 2. */
  datatype Row = Row(c0: int, c1: int, c2: int)
  {
    function At(j: int): int
      requires 0 <= j < 3
    {
      if j == 0 then c0 else if j == 1 then c1 else c2
    }

    /** The row with the cell in column j replaced by v. */
    function With(j: int, v: int): (r: Row)
      requires 0 <= j < 3
      ensures r.At(j) == v
      ensures forall k | 0 <= k < 3 && k != j :: r.At(k) == At(k)
    {
      if j == 0 then Row(v, c1, c2) else if j == 1 then Row(c0, v, c2) else Row(c0, c1, v)
    }
  }

  /** A value snapshot of a 3x3 board: `At(x, y)` is the cell at row x, column y. */
  datatype Grid = Grid(r0: Row, r1: Row, r2: Row)
  {
    function RowAt(i: int): Row
      requires 0 <= i < 3
    {
      if i == 0 then r0 else if i == 1 then r1 else r2
    }

    function At(i: int, j: int): int
      requires 0 <= i < 3 && 0 <= j < 3
    {
      RowAt(i).At(j)
    }
  }

  /** The board `Array(3) { IntArray(3) { 0 } }` that a new game starts with. */
  const EmptyGrid: Grid := Grid(Row(0, 0, 0), Row(0, 0, 0), Row(0, 0, 0))

  /** The contents of a 3x3 array board, as a grid value. */
  function Cells(a: array2<int>): (g: Grid)
    requires a.Length0 == 3 && a.Length1 == 3
    reads a
    ensures forall i, j | 0 <= i < 3 && 0 <= j < 3 :: g.At(i, j) == a[i, j]
  {
    Grid(Row(a[0, 0], a[0, 1], a[0, 2]),
         Row(a[1, 0], a[1, 1], a[1, 2]),
         Row(a[2, 0], a[2, 1], a[2, 2]))
  }

  /** Row i holds the same value in all three cells (0 included). */
  predicate RowUniform(g: Grid, i: int)
    requires 0 <= i < 3
  {
    g.At(i, 0) == g.At(i, 1) && g.At(i, 1) == g.At(i, 2)
  }

  /** Column j holds the same value in all three cells (0 included). */
  predicate ColUniform(g: Grid, j: int)
    requires 0 <= j < 3
  {
    g.At(0, j) == g.At(1, j) && g.At(1, j) == g.At(2, j)
  }

  predicate NoUniformRow(g: Grid) {
    !RowUniform(g, 0) && !RowUniform(g, 1) && !RowUniform(g, 2)
  }

  predicate NoUniformCol(g: Grid) {
    !ColUniform(g, 0) && !ColUniform(g, 1) && !ColUniform(g, 2)
  }

  /** What `isGameEnded` returns for board g, check by check in the order the source makes them. */
  function Verdict(g: Grid): (v: Option<int>)
    ensures v.Some? ==> exists i, j | 0 <= i < 3 && 0 <= j < 3 :: g.At(i, j) == v.value
    ensures v.None? ==> NoUniformRow(g) && NoUniformCol(g)
  {
    if RowUniform(g, 0) then Some(g.At(0, 0))
    else if RowUniform(g, 1) then Some(g.At(1, 0))
    else if RowUniform(g, 2) then Some(g.At(2, 0))
    else if ColUniform(g, 0) then Some(g.At(0, 0))
    else if ColUniform(g, 1) then Some(g.At(0, 1))
    else if ColUniform(g, 2) then Some(g.At(0, 2))
    else if g.At(1, 1) == g.At(0, 0) then Some(g.At(0, 0))
    else if g.At(1, 1) == g.At(2, 0) then Some(g.At(2, 0))
    else None
  }

  /**
   * The verdict is the value of the first uniform row, else of the first
   * uniform column, else field[0][0] when the centre equals it, else
   * field[2][0] when the centre equals it, else null.
   */
  lemma VerdictOrder(g: Grid)
    // null exactly when no line check fires
    ensures Verdict(g).None? <==>
      NoUniformRow(g) && NoUniformCol(g) && g.At(1, 1) != g.At(0, 0) && g.At(1, 1) != g.At(2, 0)
    // rows first, in order 0, 1, 2
    ensures forall i | 0 <= i < 3 ::
      RowUniform(g, i) && (forall k | 0 <= k < i :: !RowUniform(g, k)) ==> Verdict(g) == Some(g.At(i, 0))
    // then columns, in order 0, 1, 2
    ensures forall j | 0 <= j < 3 ::
      NoUniformRow(g) && ColUniform(g, j) && (forall k | 0 <= k < j :: !ColUniform(g, k))
      ==> Verdict(g) == Some(g.At(0, j))
    // then the main diagonal, decided by its first two cells only
    ensures NoUniformRow(g) && NoUniformCol(g) && g.At(1, 1) == g.At(0, 0) ==> Verdict(g) == Some(g.At(0, 0))
    // then the anti-diagonal, decided by its first two cells only
    ensures NoUniformRow(g) && NoUniformCol(g) && g.At(1, 1) != g.At(0, 0) && g.At(1, 1) == g.At(2, 0)
      ==> Verdict(g) == Some(g.At(2, 0))
  {
  }

  /**
   * `isGameEnded`, with its nested loops and early returns. It only reads
   * the board.
   */
  method IsGameEnded(field: array2<int>) returns (r: Option<int>)
    requires field.Length0 == 3 && field.Length1 == 3
    ensures r == Verdict(Cells(field))
  {
    ghost var g := Cells(field);
    for i := 0 to 3
      invariant forall k | 0 <= k < i :: !RowUniform(g, k)
    {
      var hasWin := true;
      var check := field[i, 0];
      for j := 1 to 3
        invariant hasWin <==> forall m | 1 <= m < j :: field[i, m] == check
      {
        if field[i, j] != check {
          hasWin := false;
        }
      }
      if hasWin {
        return Some(check);
      }
    }

    for i := 0 to 3
      invariant forall k | 0 <= k < i :: !ColUniform(g, k)
    {
      var hasWin := true;
      var check := field[0, i];
      for j := 1 to 3
        invariant hasWin <==> forall m | 1 <= m < j :: field[m, i] == check
      {
        if field[j, i] != check {
          hasWin := false;
        }
      }
      if hasWin {
        return Some(check);
      }
    }

    {
      var hasWin := true;
      var check := field[0, 0];
      for i := 1 to 3
        invariant hasWin <==> i == 1
        invariant i > 1 ==> field[1, 1] != check
      {
        if field[i, i] != check {
          hasWin := false;
        }
        if hasWin {
          return Some(check);
        }
      }
    }

    {
      var hasWin := true;
      var check := field[2, 0];
      for i := 1 to 3
        invariant hasWin <==> i == 1
        invariant i > 1 ==> field[1, 1] != check
      {
        if field[2 - i, i] != check {
          hasWin := false;
        }
        if hasWin {
          return Some(check);
        }
      }
    }

    return None;
  }

  /** An all-empty board is reported as ended with value 0, not as null. */
  lemma EmptyBoardYieldsZero()
    ensures Verdict(EmptyGrid) == Some(0)
  {
    assert RowUniform(EmptyGrid, 0);
  }

  /**
   * Any board with an all-empty row yields 0 or the value of an earlier
   * uniform row: an empty row masks every column and diagonal win.
   */
  lemma {:induction false} EmptyRowMasksLaterLines(g: Grid, i: int)
    requires 0 <= i < 3
    requires g.RowAt(i) == Row(0, 0, 0)
    ensures Verdict(g).Some?
    ensures Verdict(g) == Some(0) || exists k | 0 <= k < i :: RowUniform(g, k) && Verdict(g) == Some(g.At(k, 0))
  {
    assert RowUniform(g, i);
    if RowUniform(g, 0) {
    } else if RowUniform(g, 1) {
      assert i >= 1;
    } else {
      assert RowUniform(g, 2) && i == 2;
    }
  }

  /**
   * The main-diagonal check ignores field[2][2]: on this board no row or
   * column is uniform, the centre equals field[0][0] but not field[2][2],
   * and the verdict is the centre's value.
   */
  lemma MainDiagonalIgnoresLastCell()
    ensures var g := Grid(Row(1, 2, 1), Row(2, 1, 1), Row(2, 1, 2));
      NoUniformRow(g) && NoUniformCol(g) &&
      g.At(1, 1) == g.At(0, 0) && g.At(2, 2) != g.At(1, 1) &&
      Verdict(g) == Some(1)
  {
  }

  /**
   * The anti-diagonal check ignores field[0][2]: on this board no row or
   * column is uniform, the main-diagonal check fails (the centre differs
   * from field[0][0]), the centre equals field[2][0] but not field[0][2],
   * and the verdict is the centre's value.
   */
  lemma AntiDiagonalIgnoresLastCell()
    ensures var g := Grid(Row(1, 2, 1), Row(1, 2, 1), Row(2, 1, 2));
      NoUniformRow(g) && NoUniformCol(g) &&
      g.At(1, 1) != g.At(0, 0) && g.At(1, 1) == g.At(2, 0) && g.At(0, 2) != g.At(1, 1) &&
      Verdict(g) == Some(2)
  {
  }

  /**
   * Whatever `isGameEnded` returns is the common value of some uniform row
   * or column, or a value the centre shares with the corner field[0][0] or
   * field[2][0].
   */
  lemma VerdictComesFromALine(g: Grid)
    requires Verdict(g).Some?
    ensures var v := Verdict(g).value;
      (exists i | 0 <= i < 3 :: RowUniform(g, i) && g.At(i, 0) == v) ||
      (exists j | 0 <= j < 3 :: ColUniform(g, j) && g.At(0, j) == v) ||
      (g.At(1, 1) == v && (g.At(0, 0) == v || g.At(2, 0) == v))
  {
    var v := Verdict(g).value;
    if RowUniform(g, 0) { assert g.At(0, 0) == v; }
    else if RowUniform(g, 1) { assert g.At(1, 0) == v; }
    else if RowUniform(g, 2) { assert g.At(2, 0) == v; }
    else if ColUniform(g, 0) { assert g.At(0, 0) == v; }
    else if ColUniform(g, 1) { assert g.At(0, 1) == v; }
    else if ColUniform(g, 2) { assert g.At(0, 2) == v; }
  }

  /** A board with a value written at one cell and the other eight untouched. */
  function Put(g: Grid, x: int, y: int, v: int): (h: Grid)
    requires 0 <= x < 3 && 0 <= y < 3
    ensures h.At(x, y) == v
    ensures forall i, j | 0 <= i < 3 && 0 <= j < 3 && (i != x || j != y) :: h.At(i, j) == g.At(i, j)
  {
    if x == 0 then g.(r0 := g.r0.With(y, v))
    else if x == 1 then g.(r1 := g.r1.With(y, v))
    else g.(r2 := g.r2.With(y, v))
  }

  /** `field[x][y] = v`: one cell of an array board overwritten in place. */
  method SetCell(a: array2<int>, x: int, y: int, v: int)
    requires a.Length0 == 3 && a.Length1 == 3 && 0 <= x < 3 && 0 <= y < 3
    modifies a
    ensures Cells(a) == Put(old(Cells(a)), x, y, v)
  {
    a[x, y] := v;
  }

  /**
   * After the first move on a new board at least one row is still empty,
   * so `isGameEnded` reports 0 whatever the move was.
   */
  lemma FirstMoveYieldsZero(x: int, y: int, mark: int)
    requires 0 <= x < 3 && 0 <= y < 3
    ensures Verdict(Put(EmptyGrid, x, y, mark)) == Some(0)
  {
    var h := Put(EmptyGrid, x, y, mark);
    if x == 0 {
      EmptyRowMasksLaterLines(h, 1);
      if RowUniform(h, 0) {
        assert h.At(0, y) == mark && h.At(0, (y + 1) % 3) == 0;
      }
    } else {
      EmptyRowMasksLaterLines(h, 0);
    }
  }

  /**
   * The boards of the row-0 game: from an empty board p1 (mark 1) and p2
   * (mark 2) play (0,0), (1,1), (0,1), (1,2), (0,2). The first four boards
   * still have an empty row 2 and yield 0; the fifth completes row 0 and
   * yields 1.
   */
  lemma RowZeroBoards()
    ensures var g1 := Put(EmptyGrid, 0, 0, 1);
      var g2 := Put(g1, 1, 1, 2);
      var g3 := Put(g2, 0, 1, 1);
      var g4 := Put(g3, 1, 2, 2);
      var g5 := Put(g4, 0, 2, 1);
      && g4 == Grid(Row(1, 1, 0), Row(0, 2, 2), Row(0, 0, 0))
      && g5 == Grid(Row(1, 1, 1), Row(0, 2, 2), Row(0, 0, 0))
      && Verdict(g1) == Some(0) && Verdict(g2) == Some(0)
      && Verdict(g3) == Some(0) && Verdict(g4) == Some(0)
      && Verdict(g5) == Some(1)
  {
    var g1 := Put(EmptyGrid, 0, 0, 1);
    var g2 := Put(g1, 1, 1, 2);
    var g3 := Put(g2, 0, 1, 1);
    var g4 := Put(g3, 1, 2, 2);
    EmptyRowMasksLaterLines(g1, 1);
    EmptyRowMasksLaterLines(g2, 2);
    EmptyRowMasksLaterLines(g3, 2);
    EmptyRowMasksLaterLines(g4, 2);
  }
}
