/** The solver proper: the board is a 9x9 array that the search fills in and
    clears again in place; each method is proved against the predicates and
    the search function on the board's value. */
module SudokuSolver {
  import opened SudokuBoard
  import opened SudokuSearch

  const MaxNumOfRows: int := 8
  const MaxNumOfSquares: int := 80
  const NumOfRowColSubsections: int := 3
  const NoOpenSpaceFound: int := -1

  ghost predicate IsBoard<T>(board: array2<Option<T>>) {
    board.Length0 == 9 && board.Length1 == 9
  }

  /** The value of the board: its cells in row-major order. */
  ghost function Cells<T>(board: array2<Option<T>>): (g: Grid<T>)
    reads board
    requires IsBoard(board)
    ensures |g| == 81
    ensures forall r, c :: 0 <= r < 9 && 0 <= c < 9 ==> g[r * 9 + c] == board[r, c]
  {
    CellsUpTo(board, 81)
  }

  /** The first n cells of the board in row-major order. */
  ghost function CellsUpTo<T>(board: array2<Option<T>>, n: nat): (g: Grid<T>)
    reads board
    requires IsBoard(board) && n <= 81
    ensures |g| == n
    ensures forall r, c :: 0 <= r < 9 && 0 <= c < 9 && r * 9 + c < n ==> g[r * 9 + c] == board[r, c]
  {
    if n == 0 then [] else CellsUpTo(board, n - 1) + [board[(n - 1) / 9, (n - 1) % 9]]
  }

  /** Row-major scan for the first empty cell: its linear index, or
      NoOpenSpaceFound when every cell is filled. */
  method FindNextOpenSpace<T>(board: array2<Option<T>>) returns (next: int)
    requires IsBoard(board)
    ensures next == NoOpenSpaceFound <==> Full(Cells(board))
    ensures next != NoOpenSpaceFound ==>
      0 <= next <= MaxNumOfSquares && Cells(board)[next].None? && PrefixFilled(Cells(board), next)
  {
    ghost var g := Cells(board);
    var row, col := 0, 0;
    var openSpaceFound := false;
    var i := 0;
    while i < board.Length0 && !openSpaceFound
      invariant 0 <= i <= 9
      invariant !openSpaceFound ==> PrefixFilled(g, i * 9)
      invariant openSpaceFound ==> (0 <= row < 9 && 0 <= col < 9 &&
        g[row * 9 + col].None? && PrefixFilled(g, row * 9 + col))
    {
      var j := 0;
      while j < board.Length1 && !openSpaceFound
        invariant 0 <= j <= 9
        invariant !openSpaceFound ==> PrefixFilled(g, i * 9 + j)
        invariant openSpaceFound ==> (0 <= row < 9 && 0 <= col < 9 &&
          g[row * 9 + col].None? && PrefixFilled(g, row * 9 + col))
      {
        if board[i, j].None? {
          openSpaceFound := true;
          row := i;
          col := j;
        }
        j := j + 1;
      }
      i := i + 1;
    }
    if openSpaceFound {
      next := row * 9 + col;
    } else {
      next := NoOpenSpaceFound;
    }
  }

  /** Placement legality: `value` is not among the filled cells of row
      `row`, of column `col % 9`, or of the box that holds (row, col % 9). */
  method IsValidMove<T(==)>(board: array2<Option<T>>, value: T, row: nat, col: nat) returns (isPromising: bool)
    requires IsBoard(board) && row < 9
    ensures isPromising == ValidMove(Cells(board), value, row, col)
  {
    ghost var g := Cells(board);
    isPromising := true;
    // The row and the column are scanned together.
    var i := 0;
    while i < board.Length1 && isPromising
      invariant 0 <= i <= 9
      invariant isPromising <==> forall p :: 0 <= p < i ==>
        Member(g, Row(row), p) != Some(value) && Member(g, Col(col % 9), p) != Some(value)
    {
      assert Member(g, Row(row), i) == board[row, i] && Member(g, Col(col % 9), i) == board[i, col % 9];
      if board[row, i].Some? {
        if board[row, i].value == value {
          isPromising := false;
        }
      }
      if board[i, col % 9].Some? && isPromising {
        if board[i, col % 9].value == value {
          isPromising := false;
        }
      }
      i := i + 1;
    }
    ghost var lines := isPromising;
    assert lines <==> !Contains(g, Row(row), value) && !Contains(g, Col(col % 9), value);
    // Then the 3x3 box.
    var rowSection := row / NumOfRowColSubsections;
    var colSection := (col % 9) / NumOfRowColSubsections;
    ghost var box := Box(rowSection, colSection);
    i := 0;
    while i < NumOfRowColSubsections && isPromising
      invariant 0 <= i <= 3
      invariant isPromising <==> lines && forall p :: 0 <= p < i * 3 ==> Member(g, box, p) != Some(value)
    {
      var j := 0;
      while j < NumOfRowColSubsections && isPromising
        invariant 0 <= j <= 3
        invariant isPromising <==> lines && forall p :: 0 <= p < i * 3 + j ==> Member(g, box, p) != Some(value)
      {
        BoxIndex(rowSection, colSection, i, j);
        assert Member(g, box, i * 3 + j) ==
          board[rowSection * NumOfRowColSubsections + i, colSection * NumOfRowColSubsections + j];
        if board[rowSection * NumOfRowColSubsections + i, colSection * NumOfRowColSubsections + j].Some? {
          if board[rowSection * NumOfRowColSubsections + i, colSection * NumOfRowColSubsections + j].value == value {
            isPromising := false;
          }
        }
        j := j + 1;
      }
      i := i + 1;
    }
  }

  /** Whole-board check: no filled symbol repeats within any row, column or
      box. The sets play the part of the source's hash sets, whose `add`
      reports whether the symbol was new. */
  method VerifyBoard<T(==)>(board: array2<Option<T>>) returns (isSolved: bool)
    requires IsBoard(board)
    ensures isSolved == Consistent(Cells(board))
  {
    ghost var g := Cells(board);
    var valuesInRow: set<T> := {};
    var valuesInCol: set<T> := {};
    var valuesInSquare: set<T> := {};
    isSolved := true;
    // Row i and column i are checked together.
    var i := 0;
    while i < board.Length0 && isSolved
      invariant 0 <= i <= 9
      invariant isSolved <==> forall q: nat :: q < i ==> Distinct(g, Row(q)) && Distinct(g, Col(q))
    {
      valuesInRow := {};
      valuesInCol := {};
      var j := 0;
      while j < board.Length1 && isSolved
        invariant 0 <= j <= 9
        invariant isSolved ==> DistinctUpTo(g, Row(i), j) && valuesInRow == SeenIn(g, Row(i), j)
        invariant isSolved ==> DistinctUpTo(g, Col(i), j) && valuesInCol == SeenIn(g, Col(i), j)
        invariant !isSolved ==> !Distinct(g, Row(i)) || !Distinct(g, Col(i))
      {
        assert Member(g, Row(i), j) == board[i, j] && Member(g, Col(i), j) == board[j, i];
        AddToSeen(g, Row(i), j);
        AddToSeen(g, Col(i), j);
        if board[i, j].Some? {
          isSolved := board[i, j].value !in valuesInRow;
          valuesInRow := valuesInRow + {board[i, j].value};
        }
        if isSolved && board[j, i].Some? {
          isSolved := board[j, i].value !in valuesInCol;
          valuesInCol := valuesInCol + {board[j, i].value};
        }
        j := j + 1;
      }
      i := i + 1;
    }
    ghost var lines := isSolved;
    // Then the nine boxes, band by band.
    i := 0;
    while i < NumOfRowColSubsections && isSolved
      invariant 0 <= i <= 3
      invariant isSolved <==> lines && BoxesDistinctBefore(g, i * 3)
    {
      var j := 0;
      while j < NumOfRowColSubsections && isSolved
        invariant 0 <= j <= 3
        invariant isSolved <==> lines && BoxesDistinctBefore(g, i * 3 + j)
      {
        valuesInSquare := {};
        var k := 0;
        while k < NumOfRowColSubsections && isSolved
          invariant 0 <= k <= 3
          invariant isSolved ==> DistinctUpTo(g, Box(i, j), k * 3) && valuesInSquare == SeenIn(g, Box(i, j), k * 3)
          invariant !isSolved ==> !Distinct(g, Box(i, j))
        {
          var l := 0;
          while l < NumOfRowColSubsections && isSolved
            invariant 0 <= l <= 3
            invariant isSolved ==> DistinctUpTo(g, Box(i, j), k * 3 + l) && valuesInSquare == SeenIn(g, Box(i, j), k * 3 + l)
            invariant !isSolved ==> !Distinct(g, Box(i, j))
          {
            BoxIndex(i, j, k, l);
            assert Member(g, Box(i, j), k * 3 + l) ==
              board[i * NumOfRowColSubsections + k, j * NumOfRowColSubsections + l];
            AddToSeen(g, Box(i, j), k * 3 + l);
            if board[i * NumOfRowColSubsections + k, j * NumOfRowColSubsections + l].Some? {
              isSolved := board[i * NumOfRowColSubsections + k, j * NumOfRowColSubsections + l].value !in valuesInSquare;
              valuesInSquare := valuesInSquare + {board[i * NumOfRowColSubsections + k, j * NumOfRowColSubsections + l].value};
            }
            l := l + 1;
          }
          k := k + 1;
        }
        j := j + 1;
      }
      i := i + 1;
    }
  }

  /** The recursive backtracking search. `col` is the linear index of the
      cell to consider (0..81) and `row` is always col / 9; every cell before
      `col` is filled. On success the board holds the solution the search
      function gives (a solution of the initial board, the first one in
      backtracking order); on failure every tentative placement has been
      cleared again and the board is exactly as it was. */
  method SolvePuzzle<T(==)>(board: array2<Option<T>>, values: seq<T>, row: int, col: nat) returns (puzzleSolved: bool)
    requires IsBoard(board)
    requires row == col / 9 && PrefixFilled(Cells(board), col)
    modifies board
    ensures puzzleSolved == Search(old(Cells(board)), values, col).Some?
    ensures puzzleSolved ==> Cells(board) == Search(old(Cells(board)), values, col).value
    ensures puzzleSolved ==> Completion(Cells(board), old(Cells(board)), values)
    ensures !puzzleSolved ==> Cells(board) == old(Cells(board))
    ensures forall r, c :: 0 <= r < 9 && 0 <= c < 9 && old(board[r, c]).Some? ==> board[r, c] == old(board[r, c])
    decreases 81 - col
  {
    ghost var g := Cells(board);
    puzzleSolved := false;
    if row > MaxNumOfRows && col > MaxNumOfSquares {
      // Every cell has been considered.
      puzzleSolved := VerifyBoard(board);
    } else if board[row, col % 9].Some? {
      // A given cell: resume at the first empty cell of the board.
      assert g[col] == board[row, col % 9];
      var next := FindNextOpenSpace(board);
      if next == NoOpenSpaceFound {
        puzzleSolved := VerifyBoard(board);
      } else {
        assert FirstEmpty(g, 0) == Some(next);
        puzzleSolved := SolvePuzzle(board, values, next / 9, next);
      }
    } else {
      // An empty cell: try the symbols in alphabet order.
      assert g[col] == board[row, col % 9];
      var i := 0;
      while i < |values| && !puzzleSolved
        invariant 0 <= i <= |values|
        invariant !puzzleSolved ==> Cells(board) == g && TryFrom(g, values, col, i) == TryFrom(g, values, col, 0)
        invariant puzzleSolved ==> TryFrom(g, values, col, 0) == Some(Cells(board))
      {
        var valid := IsValidMove(board, values[i], row, col);
        if valid {
          board[row, col % 9] := Some(values[i]);
          WrittenCell(board, g, col, Some(values[i]));
          var solved := SolvePuzzle(board, values, (col + 1) / 9, col + 1);
          if solved {
            puzzleSolved := true;
          } else {
            board[row, col % 9] := None;
            WrittenCell(board, g[col := Some(values[i])], col, None);
            assert g[col := Some(values[i])][col := None] == g;
          }
        }
        i := i + 1;
      }
    }
    if puzzleSolved {
      SearchSound(g, values, col);
    }
  }

  /** The decision in the source's entry point: a board that is already
      inconsistent is rejected without searching; otherwise the search starts
      at the first cell. The result is true exactly when the initial board has
      a solution over the alphabet, and the board then holds the first one in
      alphabet and backtracking order. */
  method Solve<T(==)>(board: array2<Option<T>>, values: seq<T>) returns (isSolved: bool)
    requires IsBoard(board)
    modifies board
    ensures isSolved == (Consistent(old(Cells(board))) && Search(old(Cells(board)), values, 0).Some?)
    ensures isSolved <==> exists s :: Completion(s, old(Cells(board)), values)
    ensures isSolved ==> Cells(board) == Search(old(Cells(board)), values, 0).value
    ensures isSolved ==> Completion(Cells(board), old(Cells(board)), values)
    ensures !isSolved ==> Cells(board) == old(Cells(board))
  {
    ghost var g := Cells(board);
    SolvableIff(g, values);
    if exists s :: Completion(s, g, values) {
      var s :| Completion(s, g, values);
      ExtendedConsistent(s, g);
    }
    var ok := VerifyBoard(board);
    if !ok {
      isSolved := false;
    } else {
      isSolved := SolvePuzzle(board, values, 0, 0);
    }
  }

  /** After writing `x` into cell k of a board whose value was `g`, the
      board's value is `g` with cell k replaced. */
  lemma WrittenCell<T>(board: array2<Option<T>>, g: Grid<T>, k: nat, x: Option<T>)
    requires IsBoard(board) && |g| == 81 && k < 81
    requires board[k / 9, k % 9] == x
    requires forall r, c :: 0 <= r < 9 && 0 <= c < 9 && r * 9 + c != k ==> board[r, c] == g[r * 9 + c]
    ensures Cells(board) == g[k := x]
  {
    var h := Cells(board);
    forall j | 0 <= j < 81 ensures h[j] == g[k := x][j] {
      var r, c := j / 9, j % 9;
      assert j == r * 9 + c;
      assert h[j] == board[r, c];
    }
  }

  /** The boxes numbered below n (box (b, s) is number b * 3 + s) are distinct. */
  ghost predicate BoxesDistinctBefore<T>(g: Grid<T>, n: nat)
    requires |g| == 81
  {
    forall b: nat, s: nat :: b < 3 && s < 3 && b * 3 + s < n ==> Distinct(g, Box(b, s))
  }

  /** The symbols among the first n cells of a group. */
  ghost function SeenIn<T>(g: Grid<T>, grp: Group, n: nat): set<T>
    requires |g| == 81 && IsGroup(grp) && n <= 9
  {
    set p | 0 <= p < n && Member(g, grp, p).Some? :: Member(g, grp, p).value
  }

  /** One step of the duplicate scan: the n-th cell of a group whose first n
      cells are distinct is a duplicate exactly when its symbol was already
      seen, and adding it gives the symbols of the first n + 1 cells. */
  lemma AddToSeen<T>(g: Grid<T>, grp: Group, n: nat)
    requires |g| == 81 && IsGroup(grp) && n < 9
    requires DistinctUpTo(g, grp, n)
    ensures Member(g, grp, n).Some? && Member(g, grp, n).value in SeenIn(g, grp, n) ==> !Distinct(g, grp)
    ensures !(Member(g, grp, n).Some? && Member(g, grp, n).value in SeenIn(g, grp, n)) ==> DistinctUpTo(g, grp, n + 1)
    ensures Member(g, grp, n).Some? ==> SeenIn(g, grp, n + 1) == SeenIn(g, grp, n) + {Member(g, grp, n).value}
    ensures Member(g, grp, n).None? ==> SeenIn(g, grp, n + 1) == SeenIn(g, grp, n)
  {
  }
}
