/**
 * The backtracking solver: fill the first empty cell (row-major order) with
 * the first digit the board's validity test accepts and recurse; on failure
 * put the cell back to 0 and try the next digit.
 *
 * The search is specified by the ghost function Backtrack on the grid of
 * cell values; SolveBoard, which changes the board in place, is proved to
 * leave the board as Backtrack says.
 */
module BacktrackingSolver {
  import opened Wrappers
  import opened Board

  /** A cell position on the board. */
  datatype Position = Position(row: nat, column: nat)

  /**
   * The board's validity test IsValid(number, row, col), as a function of
   * the values on the board.
   */
  type Validity = (seq<seq<int>>, int, nat, nat) -> bool

  /** p is a cell of an n x n board. */
  predicate OnBoard(p: Position, n: nat)
  {
    p.row < n && p.column < n
  }

  /** (r, c) comes strictly before p in row-major order. */
  predicate Before(r: nat, c: nat, p: Position)
  {
    r < p.row || (r == p.row && c < p.column)
  }

  /** The empty cells of g: those holding 0. */
  ghost function EmptyCells(g: seq<seq<int>>, n: nat): set<Position>
    requires Square(g, n)
  {
    set r: nat, c: nat | r < n && c < n && g[r][c] == 0 :: Position(r, c)
  }

  /** Putting a nonzero digit into an empty cell leaves one empty cell fewer. */
  lemma FillShrinks(g: seq<seq<int>>, n: nat, p: Position, d: int)
    requires Square(g, n) && OnBoard(p, n) && g[p.row][p.column] == 0 && d != 0
    ensures |EmptyCells(Fill(g, n, p.row, p.column, d), n)| < |EmptyCells(g, n)|
  {
    var h := Fill(g, n, p.row, p.column, d);
    assert EmptyCells(h, n) == EmptyCells(g, n) - {p} by {
      forall q | q in EmptyCells(g, n) - {p} ensures q in EmptyCells(h, n) {
      }
      forall q | q in EmptyCells(h, n) ensures q in EmptyCells(g, n) - {p} {
      }
    }
    assert p in EmptyCells(g, n);
  }

  /** Emptying again a cell that was empty gives back the board. */
  lemma FillUndo(g: seq<seq<int>>, n: nat, p: Position, d: int)
    requires Square(g, n) && OnBoard(p, n) && g[p.row][p.column] == 0
    ensures Fill(Fill(g, n, p.row, p.column, d), n, p.row, p.column, 0) == g
  {
    var h := Fill(Fill(g, n, p.row, p.column, d), n, p.row, p.column, 0);
    forall r | 0 <= r < n ensures h[r] == g[r] {
    }
  }

  /**
   * The first empty cell at or after (r, c) in row-major order, scanning
   * each row to its end before the next.
   */
  function FirstEmptyFrom(g: seq<seq<int>>, n: nat, r: nat, c: nat): Option<Position>
    requires Square(g, n) && r <= n && c <= n
    decreases n - r, n - c
  {
    if r == n then None
    else if c == n then FirstEmptyFrom(g, n, r + 1, 0)
    else if g[r][c] == 0 then Some(Position(r, c))
    else FirstEmptyFrom(g, n, r, c + 1)
  }

  /** The first empty cell of g in row-major order, None when there is none. */
  function FirstEmpty(g: seq<seq<int>>, n: nat): Option<Position>
    requires Square(g, n)
  {
    FirstEmptyFrom(g, n, 0, 0)
  }

  /**
   * The scan from (r, c) finds nothing exactly when no cell at or after
   * (r, c) is empty, and otherwise finds an empty cell with no empty cell
   * between (r, c) and it.
   */
  lemma {:induction false} FirstEmptyFromIsFirst(g: seq<seq<int>>, n: nat, r: nat, c: nat)
    requires Square(g, n) && r <= n && c <= n
    ensures FirstEmptyFrom(g, n, r, c).None? <==>
              forall r', c' :: 0 <= r' < n && 0 <= c' < n && !Before(r', c', Position(r, c)) ==> g[r'][c'] != 0
    ensures FirstEmptyFrom(g, n, r, c).Some? ==>
              var p := FirstEmptyFrom(g, n, r, c).value;
              && OnBoard(p, n) && g[p.row][p.column] == 0 && !Before(p.row, p.column, Position(r, c))
              && forall r', c' :: 0 <= r' < n && 0 <= c' < n && !Before(r', c', Position(r, c)) && Before(r', c', p) ==>
                   g[r'][c'] != 0
    decreases n - r, n - c
  {
    if r == n {
    } else if c == n {
      FirstEmptyFromIsFirst(g, n, r + 1, 0);
    } else if g[r][c] == 0 {
    } else {
      FirstEmptyFromIsFirst(g, n, r, c + 1);
    }
  }

  /**
   * FindEmptyCell's answer: None exactly when the board has no empty cell,
   * otherwise an empty cell such that every cell before it in row-major
   * order is filled.
   */
  lemma FirstEmptyIsFirst(g: seq<seq<int>>, n: nat)
    requires Square(g, n)
    ensures FirstEmpty(g, n).None? <==> forall r, c :: 0 <= r < n && 0 <= c < n ==> g[r][c] != 0
    ensures FirstEmpty(g, n).Some? ==>
              var p := FirstEmpty(g, n).value;
              && OnBoard(p, n) && g[p.row][p.column] == 0
              && forall r, c :: 0 <= r < n && 0 <= c < n && Before(r, c, p) ==> g[r][c] != 0
  {
    FirstEmptyFromIsFirst(g, n, 0, 0);
  }

  /**
   * The result of backtracking from board g: None when no digit works,
   * otherwise the board it ends with.
   */
  ghost function Backtrack(g: seq<seq<int>>, n: nat, isValid: Validity): Option<seq<seq<int>>>
    requires Square(g, n)
    decreases |EmptyCells(g, n)|, 1, 0
  {
    FirstEmptyIsFirst(g, n);
    match FirstEmpty(g, n)
    case None => Some(g)
    case Some(p) => TryDigits(g, n, isValid, p, 1)
  }

  /** The digit loop at the empty cell p, from digit d on. */
  ghost function TryDigits(g: seq<seq<int>>, n: nat, isValid: Validity, p: Position, d: nat): Option<seq<seq<int>>>
    requires Square(g, n) && OnBoard(p, n) && g[p.row][p.column] == 0 && 1 <= d
    decreases |EmptyCells(g, n)|, 0, n + 1 - d
  {
    if d > n then None
    else
      FillShrinks(g, n, p, d);
      if isValid(g, d, p.row, p.column) && Backtrack(Fill(g, n, p.row, p.column, d), n, isValid).Some? then
        Backtrack(Fill(g, n, p.row, p.column, d), n, isValid)
      else TryDigits(g, n, isValid, p, d + 1)
  }

  /**
   * g1 is g0 with some empty cells filled: every cell given a value in g0
   * keeps it, every empty cell of g0 now holds a digit of 1 .. n or is still
   * empty.
   */
  ghost predicate Extends(g0: seq<seq<int>>, g1: seq<seq<int>>, n: nat)
    requires Square(g0, n) && Square(g1, n)
  {
    forall r, c :: 0 <= r < n && 0 <= c < n ==>
      if g0[r][c] != 0 then g1[r][c] == g0[r][c] else g1[r][c] == 0 || 1 <= g1[r][c] <= n
  }

  /** g has no empty cell. */
  ghost predicate Full(g: seq<seq<int>>, n: nat)
    requires Square(g, n)
  {
    forall r, c :: 0 <= r < n && 0 <= c < n ==> g[r][c] != 0
  }

  /**
   * A board backtracking ends with is full, keeps every value the start
   * board had and puts only digits 1 .. n into its empty cells.
   */
  lemma {:induction false} BacktrackFills(g: seq<seq<int>>, n: nat, isValid: Validity)
    requires Square(g, n) && Backtrack(g, n, isValid).Some?
    ensures var h := Backtrack(g, n, isValid).value;
              Square(h, n) && Full(h, n) && Extends(g, h, n)
    decreases |EmptyCells(g, n)|, 1, 0
  {
    FirstEmptyIsFirst(g, n);
    match FirstEmpty(g, n)
    case None =>
    case Some(p) => TryDigitsFills(g, n, isValid, p, 1);
  }

  lemma {:induction false} TryDigitsFills(g: seq<seq<int>>, n: nat, isValid: Validity, p: Position, d: nat)
    requires Square(g, n) && OnBoard(p, n) && g[p.row][p.column] == 0 && 1 <= d
    requires TryDigits(g, n, isValid, p, d).Some?
    ensures var h := TryDigits(g, n, isValid, p, d).value;
              Square(h, n) && Full(h, n) && Extends(g, h, n)
    decreases |EmptyCells(g, n)|, 0, n + 1 - d
  {
    FillShrinks(g, n, p, d);
    var g' := Fill(g, n, p.row, p.column, d);
    if isValid(g, d, p.row, p.column) && Backtrack(g', n, isValid).Some? {
      BacktrackFills(g', n, isValid);
    } else {
      TryDigitsFills(g, n, isValid, p, d + 1);
    }
  }

  /**
   * The digit loop at p from d on succeeds with the first digit e >= d that
   * isValid accepts and from which backtracking succeeds; it fails when no
   * such digit up to n exists.
   */
  lemma {:induction false} TryDigitsFirst(g: seq<seq<int>>, n: nat, isValid: Validity, p: Position, d: nat)
    requires Square(g, n) && OnBoard(p, n) && g[p.row][p.column] == 0 && 1 <= d
    ensures TryDigits(g, n, isValid, p, d).None? ==>
              forall e :: d <= e <= n && isValid(g, e, p.row, p.column) ==> Backtrack(Fill(g, n, p.row, p.column, e), n, isValid).None?
    ensures TryDigits(g, n, isValid, p, d).Some? ==>
              exists e :: d <= e <= n && Chosen(g, n, isValid, p, d, e)
    decreases n + 1 - d
  {
    if d <= n {
      TryDigitsFirst(g, n, isValid, p, d + 1);
      if TryDigits(g, n, isValid, p, d).Some? && !Chosen(g, n, isValid, p, d, d) {
        var e :| d + 1 <= e <= n && Chosen(g, n, isValid, p, d + 1, e);
        assert Chosen(g, n, isValid, p, d, e);
      }
    }
  }

  /**
   * Digit e is the one the digit loop at p, started at d, settles on: it is
   * accepted, backtracking from it succeeds with the loop's result, and every
   * accepted digit from d below e failed.
   */
  ghost predicate Chosen(g: seq<seq<int>>, n: nat, isValid: Validity, p: Position, d: nat, e: nat)
    requires Square(g, n) && OnBoard(p, n) && g[p.row][p.column] == 0 && 1 <= d
  {
    && 1 <= e <= n
    && isValid(g, e, p.row, p.column)
    && Backtrack(Fill(g, n, p.row, p.column, e), n, isValid) == TryDigits(g, n, isValid, p, d)
    && forall e' :: d <= e' < e && isValid(g, e', p.row, p.column) ==> Backtrack(Fill(g, n, p.row, p.column, e'), n, isValid).None?
  }

  /**
   * Backtracking at a board with an empty cell: it fills the first empty
   * cell with the smallest digit of 1 .. n that isValid accepts and from
   * which the search succeeds, and fails when there is none.
   */
  lemma BacktrackFirstDigit(g: seq<seq<int>>, n: nat, isValid: Validity)
    requires Square(g, n) && FirstEmpty(g, n).Some?
    ensures var p := FirstEmpty(g, n).value;
              && OnBoard(p, n) && g[p.row][p.column] == 0
              && (Backtrack(g, n, isValid).None? <==>
                    forall e :: 1 <= e <= n && isValid(g, e, p.row, p.column) ==> Backtrack(Fill(g, n, p.row, p.column, e), n, isValid).None?)
              && (Backtrack(g, n, isValid).Some? ==> exists e :: 1 <= e <= n && Chosen(g, n, isValid, p, 1, e))
  {
    FirstEmptyIsFirst(g, n);
    var p := FirstEmpty(g, n).value;
    TryDigitsFirst(g, n, isValid, p, 1);
    if Backtrack(g, n, isValid).Some? {
      var e :| 1 <= e <= n && Chosen(g, n, isValid, p, 1, e);
    }
  }

  /** Backtracking at a full board succeeds at once and leaves it as it is. */
  lemma BacktrackFull(g: seq<seq<int>>, n: nat, isValid: Validity)
    requires Square(g, n) && Full(g, n)
    ensures Backtrack(g, n, isValid) == Some(g)
  {
    FirstEmptyIsFirst(g, n);
  }

  /**
   * The solver, holding the board it works on; the board is changed in
   * place by SolveBoard.
   */
  class BacktrackingSolver {
    const board: ArraySudokuBoard
    const size: nat

    ghost predicate Valid()
    {
      board.Valid() && size == board.boardSize
    }

    constructor (board: ArraySudokuBoard)
      requires board.Valid()
      ensures Valid() && this.board == board
    {
      this.board := board;
      size := board.GetBoardSize();
    }

    /**
     * FindEmptyCell: scan the rows top to bottom, each left to right, and
     * return the first cell holding 0, None when there is none.
     */
    method FindEmptyCell() returns (pos: Option<Position>)
      requires Valid()
      ensures pos == FirstEmpty(board.Values(), size)
      ensures pos.None? <==> Full(board.Values(), size)
      ensures pos.Some? ==> OnBoard(pos.value, size) && board.Values()[pos.value.row][pos.value.column] == 0
    {
      ghost var g := board.Values();
      FirstEmptyIsFirst(g, size);
      var row := 0;
      while row < size
        invariant row <= size && FirstEmptyFrom(g, size, row, 0) == FirstEmpty(g, size)
      {
        var col := 0;
        while col < size
          invariant col <= size && FirstEmptyFrom(g, size, row, col) == FirstEmpty(g, size)
        {
          if board.Get(row, col).val == 0 {
            return Some(Position(row, col));
          }
          col := col + 1;
        }
        row := row + 1;
      }
      return None;
    }

    /** `_board[row, col].Val = d`: only the value of that one cell changes. */
    method Place(p: Position, d: int)
      requires Valid() && OnBoard(p, size)
      modifies board.cells
      ensures board.Values() == Fill(old(board.Values()), size, p.row, p.column, d)
      ensures board.cells[p.row, p.column] == old(board.cells[p.row, p.column]).(val := d)
      ensures forall r, c :: 0 <= r < size && 0 <= c < size && (r, c) != (p.row, p.column) ==>
                board.cells[r, c] == old(board.cells[r, c])
    {
      var cell := board.Get(p.row, p.column);
      board.Set(p.row, p.column, cell.(val := d));
      ghost var g := Fill(old(board.Values()), size, p.row, p.column, d);
      forall r | 0 <= r < size ensures board.Values()[r] == g[r] {
      }
    }

    /**
     * SolveBoard: fill the first empty cell with each digit 1 .. size that
     * isValid accepts in turn and recurse, putting 0 back when the recursion
     * fails. It ends as Backtrack says; on failure the board is as it was,
     * on success it is full; given values are never changed and only the
     * value of a cell is ever written.
     */
    method SolveBoard(isValid: Validity) returns (solved: bool)
      requires Valid()
      modifies board.cells
      decreases |EmptyCells(board.Values(), size)|, 1
      ensures solved == Backtrack(old(board.Values()), size, isValid).Some?
      ensures solved ==> board.Values() == Backtrack(old(board.Values()), size, isValid).value
      ensures solved ==> Full(board.Values(), size) && Extends(old(board.Values()), board.Values(), size)
      ensures !solved ==> board.Values() == old(board.Values())
      ensures !solved ==> forall r, c :: 0 <= r < size && 0 <= c < size ==> board.cells[r, c] == old(board.cells[r, c])
      ensures forall r, c :: 0 <= r < size && 0 <= c < size ==>
                board.cells[r, c] == old(board.cells[r, c]).(val := board.cells[r, c].val)
    {
      ghost var g := board.Values();
      var pos := FindEmptyCell();
      if pos.None? {
        return true;
      }
      var p := pos.value;
      var number := 1;
      while number <= size
        invariant 1 <= number <= size + 1
        invariant board.Values() == g
        invariant forall r, c :: 0 <= r < size && 0 <= c < size ==> board.cells[r, c] == old(board.cells[r, c])
        invariant TryDigits(g, size, isValid, p, number) == Backtrack(g, size, isValid)
      {
        solved := TryNumber(isValid, p, number, g);
        if solved {
          BacktrackFills(g, size, isValid);
          return;
        }
        number := number + 1;
      }
      return false;
    }

    /**
     * One turn of SolveBoard's digit loop at the empty cell p: when isValid
     * accepts number, write it and recurse, and put 0 back if that fails.
     */
    method TryNumber(isValid: Validity, p: Position, number: nat, ghost g: seq<seq<int>>) returns (solved: bool)
      requires Valid() && OnBoard(p, size) && 1 <= number <= size
      requires g == board.Values() && g[p.row][p.column] == 0
      modifies board.cells
      decreases |EmptyCells(board.Values(), size)|, 0
      ensures solved == (isValid(g, number, p.row, p.column) && Backtrack(Fill(g, size, p.row, p.column, number), size, isValid).Some?)
      ensures solved ==> board.Values() == Backtrack(Fill(g, size, p.row, p.column, number), size, isValid).value
      ensures !solved ==> board.Values() == g
      ensures !solved ==> forall r, c :: 0 <= r < size && 0 <= c < size ==> board.cells[r, c] == old(board.cells[r, c])
      ensures forall r, c :: 0 <= r < size && 0 <= c < size ==>
                board.cells[r, c] == old(board.cells[r, c]).(val := board.cells[r, c].val)
    {
      if !isValid(board.Values(), number, p.row, p.column) {
        return false;
      }
      FillShrinks(g, size, p, number);
      Place(p, number);
      solved := SolveBoard(isValid);
      if !solved {
        Place(p, 0);
        FillUndo(g, size, p, number);
      }
    }

    /** Solve: run SolveBoard and report whether it solved the board, with the time taken. */
    method Solve(isValid: Validity, solvingTime: int) returns (result: SolvingResult)
      requires Valid()
      modifies board.cells
      ensures result.solvingTime == solvingTime
      ensures result.isSolved == Backtrack(old(board.Values()), size, isValid).Some?
      ensures result.isSolved ==> board.Values() == Backtrack(old(board.Values()), size, isValid).value
      ensures result.isSolved ==> Full(board.Values(), size) && Extends(old(board.Values()), board.Values(), size)
      ensures !result.isSolved ==> board.Values() == old(board.Values())
    {
      var isSolved := SolveBoard(isValid);
      result := SolvingResult(solvingTime, isSolved);
    }
  }
}
