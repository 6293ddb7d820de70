/**
 * The Sudoku board: a square grid of cells read row after row from a string
 * of digits (ArraySudokuBoard), the cell it holds (Cell), and the result
 * a solver reports (SolvingResult).
 */
module Board {
  import opened Wrappers

  /** A cell of the board: where it is, its value (0 when empty) and whether it was given. */
  datatype Cell = Cell(row: int, column: int, val: int, isConst: bool)

  /** What a solver's Solve returns: the time it took (given by the caller) and whether the board was solved. */
  datatype SolvingResult = SolvingResult(solvingTime: int, isSolved: bool)

  /** The exception the board constructor throws on a bad board string. */
  datatype InvalidBoardString = InvalidBoardString(message: string)

  const LengthMessage: string := "Board string is invalid."
  const DigitMessage: string := "Board string must contain only numbers!"

  /** char.IsNumber, on the ASCII digits. */
  predicate IsNumber(ch: char)
  {
    '0' <= ch <= '9'
  }

  /** Every character of s is a digit. */
  predicate AllDigits(s: string)
  {
    forall k :: 0 <= k < |s| ==> IsNumber(s[k])
  }

  /** currChar - '0': the value of a digit. */
  function DigitValue(ch: char): (v: int)
    ensures IsNumber(ch) ==> 0 <= v <= 9
  {
    ch as int - '0' as int
  }

  /** g is an n x n grid of cell values. */
  predicate Square(g: seq<seq<int>>, n: nat)
  {
    |g| == n && forall r :: 0 <= r < n ==> |g[r]| == n
  }

  /** The board g with the value at (row, col) replaced by v. */
  function Fill(g: seq<seq<int>>, n: nat, row: nat, col: nat, v: int): (h: seq<seq<int>>)
    requires Square(g, n) && row < n && col < n
    ensures Square(h, n) && h[row][col] == v
    ensures forall r, c :: 0 <= r < n && 0 <= c < n && (r, c) != (row, col) ==> h[r][c] == g[r][c]
  {
    g[row := g[row][col := v]]
  }

  /** The position of cell (row, col) in a row-major string of an n x n board. */
  function Index(n: nat, row: nat, col: nat): (k: nat)
    requires row < n && col < n
    ensures k < n * n
  {
    IndexBound(n, row, col);
    row * n + col
  }

  lemma IndexBound(n: nat, row: nat, col: nat)
    requires row < n && col < n
    ensures row * n + col < n * n
  {
    RowStart(n, row + 1);
  }

  /** Row r - 1 of an n x n board ends where row r starts, inside the board. */
  lemma RowStart(n: nat, r: nat)
    requires 0 < r <= n
    ensures (r - 1) * n + n == r * n <= n * n
  {
    assert r * n <= n * n by {
      if r < n {
        assert r * n <= (n - 1) * n + n - n;
      }
    }
  }

  /** The values of an n x n board read from the row-major digit string s. */
  function DigitGrid(n: nat, s: string): (g: seq<seq<int>>)
    requires |s| == n * n
    ensures |g| == n && forall r :: 0 <= r < n ==> |g[r]| == n
    ensures forall r, c :: 0 <= r < n && 0 <= c < n ==> g[r][c] == DigitValue(s[Index(n, r, c)])
  {
    seq(n, r requires 0 <= r < n => seq(n, c requires 0 <= c < n => DigitValue(s[Index(n, r, c)])))
  }

  /** Int32.ToString: the decimal text of v, with a minus sign when negative. */
  function DecimalString(v: int): (s: string)
    ensures 0 <= v <= 9 ==> s == [('0' as int + v) as char]
    decreases if v < 0 then 1 - v else v
  {
    if v < 0 then "-" + DecimalString(-v)
    else if v < 10 then [('0' as int + v) as char]
    else DecimalString(v / 10) + [('0' as int + v % 10) as char]
  }

  /** The values of a row written one after the other. */
  function LineText(vs: seq<int>): string
  {
    if vs == [] then "" else LineText(vs[..|vs| - 1]) + DecimalString(vs[|vs| - 1])
  }

  /** The rows of a board written one after the other. */
  function GridText(g: seq<seq<int>>): string
  {
    if g == [] then "" else GridText(g[..|g| - 1]) + LineText(g[|g| - 1])
  }

  /** Writing the values of a row of digits gives back those digits. */
  lemma {:induction false} LineTextDigits(s: string, vs: seq<int>)
    requires AllDigits(s) && |vs| == |s|
    requires forall k :: 0 <= k < |s| ==> vs[k] == DigitValue(s[k])
    ensures LineText(vs) == s
    decreases |s|
  {
    if s != [] {
      var k := |s| - 1;
      LineTextDigits(s[..k], vs[..k]);
      assert DecimalString(vs[k]) == [s[k]];
      assert s == s[..k] + [s[k]];
    }
  }

  /**
   * The first r rows of the board read from s, written back, are the first
   * r * n characters of s.
   */
  lemma {:induction false} GridTextPrefix(n: nat, s: string, r: nat)
    requires AllDigits(s) && |s| == n * n && r <= n
    ensures r * n <= n * n && GridText(DigitGrid(n, s)[..r]) == s[..r * n]
    decreases r
  {
    var g := DigitGrid(n, s);
    if r > 0 {
      RowStart(n, r);
      GridTextPrefix(n, s, r - 1);
      assert g[..r][..r - 1] == g[..r - 1];
      var lo := (r - 1) * n;
      var line := s[lo..lo + n];
      forall k | 0 <= k < n ensures g[r - 1][k] == DigitValue(line[k]) {
        assert Index(n, r - 1, k) == lo + k;
      }
      LineTextDigits(line, g[r - 1]);
      assert s[..r * n] == s[..lo] + line;
    }
  }

  /**
   * GetBoardString of a board built from an ASCII digit string, before any
   * cell changes, is that string.
   */
  lemma BoardStringRoundTrip(n: nat, s: string)
    requires AllDigits(s) && |s| == n * n
    ensures GridText(DigitGrid(n, s)) == s
  {
    GridTextPrefix(n, s, n);
    assert DigitGrid(n, s)[..n] == DigitGrid(n, s);
    assert s[..n * n] == s;
  }

  /**
   * A board of boardSize x boardSize cells. The indexer reads and replaces
   * whole cells; a cell's value is changed by replacing the cell.
   */
  class ArraySudokuBoard {
    const boardSize: nat
    const cells: array2<Cell>

    ghost predicate Valid()
    {
      cells.Length0 == boardSize && cells.Length1 == boardSize
    }

    /** `_board = new Cell[boardSize, boardSize]`, before the cells are filled. */
    constructor (boardSize: nat)
      ensures Valid() && this.boardSize == boardSize && fresh(cells)
    {
      this.boardSize := boardSize;
      cells := new Cell[boardSize, boardSize];
    }

    /** The values of the cells, row by row. */
    function Values(): (g: seq<seq<int>>)
      requires Valid()
      reads this, cells
      ensures |g| == boardSize && forall r :: 0 <= r < boardSize ==> |g[r]| == boardSize
      ensures forall r, c :: 0 <= r < boardSize && 0 <= c < boardSize ==> g[r][c] == cells[r, c].val
    {
      seq(boardSize, r requires 0 <= r < boardSize reads this, cells =>
        seq(boardSize, c requires 0 <= c < boardSize reads this, cells => cells[r, c].val))
    }

    /** The indexer's getter. */
    function Get(row: nat, column: nat): Cell
      requires Valid() && row < boardSize && column < boardSize
      reads this, cells
    {
      cells[row, column]
    }

    /** The indexer's setter: the cell at (row, column) is replaced, every other cell kept. */
    method Set(row: nat, column: nat, cell: Cell)
      requires Valid() && row < boardSize && column < boardSize
      modifies cells
      ensures cells[row, column] == cell
      ensures forall r, c :: 0 <= r < boardSize && 0 <= c < boardSize && (r, c) != (row, column) ==>
                cells[r, c] == old(cells[r, c])
    {
      cells[row, column] := cell;
    }

    /** GetBoardSize. */
    function GetBoardSize(): nat
    {
      boardSize
    }

    /** GetBoardString: the values of all cells, row after row, each as Int32.ToString writes it. */
    method GetBoardString() returns (result: string)
      requires Valid()
      ensures result == GridText(Values())
    {
      var g := Values();
      result := "";
      var row := 0;
      while row < boardSize
        invariant row <= boardSize && result == GridText(g[..row])
      {
        var col := 0;
        while col < boardSize
          invariant col <= boardSize && result == GridText(g[..row]) + LineText(g[row][..col])
        {
          assert g[row][..col + 1][..col] == g[row][..col];
          result := result + DecimalString(cells[row, col].val);
          col := col + 1;
        }
        assert g[row][..boardSize] == g[row];
        assert g[..row + 1][..row] == g[..row];
        row := row + 1;
      }
      assert g[..boardSize] == g;
    }
  }

  /**
   * new ArraySudokuBoard(boardSize, boardString): the cells filled row after
   * row from the digits of boardString, every cell marked given, even those
   * holding 0. Throws InvalidBoardString when the length is not boardSize^2,
   * or when a character is not a digit.
   */
  method NewBoard(boardSize: nat, boardString: string) returns (res: Result<ArraySudokuBoard, InvalidBoardString>)
    ensures |boardString| != boardSize * boardSize ==> res == Failure(InvalidBoardString(LengthMessage))
    ensures |boardString| == boardSize * boardSize && !AllDigits(boardString) ==>
              res == Failure(InvalidBoardString(DigitMessage))
    ensures |boardString| == boardSize * boardSize && AllDigits(boardString) ==>
              && res.Success? && fresh(res.value) && fresh(res.value.cells) && res.value.Valid()
              && res.value.boardSize == boardSize && res.value.Values() == DigitGrid(boardSize, boardString)
              && forall r, c :: 0 <= r < boardSize && 0 <= c < boardSize ==>
                   res.value.cells[r, c] == Cell(r, c, DigitValue(boardString[Index(boardSize, r, c)]), true)
  {
    var b := new ArraySudokuBoard(boardSize);
    if |boardString| != boardSize * boardSize {
      return Failure(InvalidBoardString(LengthMessage));
    }
    var row := 0;
    while row < boardSize
      invariant row <= boardSize && b.Valid() && b.boardSize == boardSize && fresh(b.cells)
      invariant forall k :: 0 <= k < |boardString| && k < row * boardSize ==> IsNumber(boardString[k])
      invariant forall r, c :: 0 <= r < row && 0 <= c < boardSize ==>
                  b.cells[r, c] == Cell(r, c, DigitValue(boardString[Index(boardSize, r, c)]), true)
    {
      var ok := FillRow(b, boardString, row);
      if !ok {
        return Failure(InvalidBoardString(DigitMessage));
      }
      RowStart(boardSize, row + 1);
      row := row + 1;
    }
    ghost var g := b.Values();
    forall r | 0 <= r < boardSize ensures g[r] == DigitGrid(boardSize, boardString)[r] {
    }
    return Success(b);
  }

  /**
   * One turn of the constructor's row loop: fill the cells of `row` from
   * the string, or report the first character that is not a digit.
   */
  method FillRow(b: ArraySudokuBoard, s: string, row: nat) returns (ok: bool)
    requires b.Valid() && |s| == b.boardSize * b.boardSize && row < b.boardSize
    requires forall k :: 0 <= k < |s| && k < row * b.boardSize ==> IsNumber(s[k])
    modifies b.cells
    ensures ok ==> forall k :: 0 <= k < |s| && k < row * b.boardSize + b.boardSize ==> IsNumber(s[k])
    ensures !ok ==> !AllDigits(s)
    ensures forall r, c :: 0 <= r < b.boardSize && 0 <= c < b.boardSize && r != row ==> b.cells[r, c] == old(b.cells[r, c])
    ensures ok ==> forall c :: 0 <= c < b.boardSize ==> b.cells[row, c] == Cell(row, c, DigitValue(s[Index(b.boardSize, row, c)]), true)
  {
    var n := b.boardSize;
    ghost var base := row * n;
    IndexBound(n, row, n - 1);
    var col := 0;
    while col < n
      invariant col <= n
      invariant forall k :: 0 <= k < base + col ==> IsNumber(s[k])
      invariant forall r, c :: 0 <= r < n && 0 <= c < n && r != row ==> b.cells[r, c] == old(b.cells[r, c])
      invariant forall c :: 0 <= c < col ==> b.cells[row, c] == Cell(row, c, DigitValue(s[Index(n, row, c)]), true)
    {
      var currChar := s[Index(n, row, col)];
      if !IsNumber(currChar) {
        return false;
      }
      b.cells[row, col] := Cell(row, col, DigitValue(currChar), true);
      col := col + 1;
    }
    return true;
  }
}
