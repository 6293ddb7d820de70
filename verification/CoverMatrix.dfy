/**
 * The exact-cover matrix of a Sudoku board, as DancingLinksSolver builds it,
 * and how a cover of it reads back as a board.
 *
 * Matrix row IndexInCoverMatrix(row, column, num) stands for "num in cell
 * (row, column)". It has four 1s, one in each block of n * n columns, in
 * this order:
 *  - cell constraints: one column per cell;
 *  - row constraints: one column per (row, num);
 *  - column constraints: one column per (column, num);
 *  - box constraints: one column per (box, num).
 * ConvertBoardToMatrix clears the rows of the other digits of every cell
 * that holds a value.
 *
 * The main result is CoverSolves. Write the digit of each picked row into
 * its cell. If the picked rows are an exact cover of the matrix, the board
 * is then solved and keeps every value it was given.
 */
module CoverMatrix {
  import opened Board
  import opened SudokuSolveTest
  import opened DancingLinksBuild
  import opened DancingLinks

  /** A candidate placement: digit d + 1 in the cell at row r, column c (all counted from 0). */
  datatype Candidate = Candidate(r: nat, c: nat, d: nat)

  lemma MulPos(a: int, n: int)
    requires a >= 1 && n > 0
    ensures a * n >= n
  {
  }

  lemma MulMono(a: int, b: int, n: int)
    requires a <= b && n >= 0
    ensures a * n <= b * n
  {
    assert b * n - a * n == (b - a) * n;
  }

  /** Quotient and remainder are unique: x = q * n + m with 0 <= m < n fixes both. */
  lemma DivMod(x: int, n: int, q: int, m: int)
    requires n > 0 && 0 <= m < n && x == q * n + m
    ensures x / n == q && x % n == m
  {
    var q', m' := x / n, x % n;
    assert (q - q') * n == m' - m;
    if q > q' {
      MulPos(q - q', n);
    } else if q < q' {
      MulPos(q' - q, n);
    }
  }

  lemma DivBelow(x: nat, n: nat, b: nat)
    requires n > 0 && x < b * n
    ensures x / n < b
  {
    if x / n >= b {
      MulMono(b, x / n, n);
    }
  }

  /** Cell and digit of x lie on an n x n board. */
  predicate InRange(n: nat, x: Candidate)
  {
    x.r < n && x.c < n && x.d < n
  }

  /** IndexInCoverMatrix, with row, column and num counted from 1. */
  function IndexInCoverMatrix(n: int, row: int, column: int, num: int): int
  {
    (row - 1) * n * n + (column - 1) * n + (num - 1)
  }

  /** The matrix row of a candidate. */
  function Encode(n: nat, x: Candidate): nat
  {
    (x.r * n + x.c) * n + x.d
  }

  /** The candidate of a matrix row. */
  function Decode(n: nat, i: nat): Candidate
    requires n > 0
  {
    Candidate(i / n / n, (i / n) % n, i % n)
  }

  /** IndexInCoverMatrix numbers the candidates as Encode does. */
  lemma IndexIsEncode(n: nat, x: Candidate)
    ensures IndexInCoverMatrix(n, x.r + 1, x.c + 1, x.d + 1) == Encode(n, x)
  {
  }

  lemma EncodeBound(n: nat, x: Candidate)
    requires InRange(n, x)
    ensures x.r * n + x.c < n * n && Encode(n, x) < n * n * n
  {
    MulMono(x.r + 1, n, n);
    MulMono(x.r * n + x.c + 1, n * n, n);
  }

  /** Decoding the row of a candidate gives the candidate back. */
  lemma DecodeEncode(n: nat, x: Candidate)
    requires InRange(n, x)
    ensures Decode(n, Encode(n, x)) == x
  {
    DivMod(Encode(n, x), n, x.r * n + x.c, x.d);
    DivMod(x.r * n + x.c, n, x.r, x.c);
  }

  /** Every row of the n^3 rows is the row of the candidate it decodes to. */
  lemma EncodeDecode(n: nat, i: nat)
    requires n > 0 && i < n * n * n
    ensures InRange(n, Decode(n, i)) && Encode(n, Decode(n, i)) == i
  {
    DivMod(i, n, i / n, i % n);
    DivBelow(i, n, n * n);
    DivMod(i / n, n, i / n / n, (i / n) % n);
    DivBelow(i / n, n, n);
  }

  /** The column of the constraint "cell (r, c) holds a digit". */
  function CellConstraint(n: nat, x: Candidate): nat
  {
    x.r * n + x.c
  }

  /** The column of the constraint "row r holds digit d + 1". */
  function RowConstraint(n: nat, x: Candidate): nat
  {
    n * n + x.r * n + x.d
  }

  /** The column of the constraint "column c holds digit d + 1". */
  function ColumnConstraint(n: nat, x: Candidate): nat
  {
    2 * n * n + x.c * n + x.d
  }

  /** The box of the candidate's cell, numbered row after row of boxes. */
  function BoxOf(s: nat, x: Candidate): nat
    requires s > 0
  {
    (x.r / s) * s + x.c / s
  }

  /** The column of the constraint "the box holds digit d + 1". */
  function BoxConstraint(n: nat, s: nat, x: Candidate): nat
    requires s > 0
  {
    3 * n * n + BoxOf(s, x) * n + x.d
  }

  /** Each of the four constraints lies in its own block of n * n columns. */
  lemma ConstraintBounds(n: nat, s: nat, x: Candidate)
    requires s > 0 && s * s == n && InRange(n, x)
    ensures CellConstraint(n, x) < n * n
    ensures n * n <= RowConstraint(n, x) < 2 * n * n
    ensures 2 * n * n <= ColumnConstraint(n, x) < 3 * n * n
    ensures BoxOf(s, x) < n && 3 * n * n <= BoxConstraint(n, s, x) < 4 * n * n
  {
    Below(x.r, x.c, n);
    InBlock(n, 1, x.r, x.d);
    InBlock(n, 2, x.c, x.d);
    BoxBelow(s, x);
    InBlock(n, 3, BoxOf(s, x), x.d);
  }

  /** The column k * n * n + a * n + b, for a and b below n, lies in block k. */
  lemma InBlock(n: nat, k: nat, a: nat, b: nat)
    requires a < n && b < n
    ensures k * n * n <= k * n * n + a * n + b < (k + 1) * n * n
  {
    Below(a, b, n);
    assert (k + 1) * n * n == k * n * n + n * n;
  }

  /** The box of a cell of an (s * s) x (s * s) board is below s * s. */
  lemma BoxBelow(s: nat, x: Candidate)
    requires s > 0 && x.r < s * s && x.c < s * s
    ensures BoxOf(s, x) < s * s
  {
    DivBelow(x.r, s, s);
    DivBelow(x.c, s, s);
    Below(x.r / s, x.c / s, s);
  }

  /** a * n + b, for a and b below n, is below n * n. */
  lemma Below(a: nat, b: nat, n: nat)
    requires a < n && b < n
    ensures a * n + b < n * n
  {
    MulMono(a + 1, n, n);
    assert (a + 1) * n == a * n + n;
  }

  /** Row i of the matrix CreateMatrix builds has a 1 in column h: h is one of its candidate's constraints. */
  ghost predicate Bit(n: nat, s: nat, i: nat, h: int)
    requires n > 0 && s > 0
  {
    var x := Decode(n, i);
    h == CellConstraint(n, x) || h == RowConstraint(n, x) || h == ColumnConstraint(n, x) || h == BoxConstraint(n, s, x)
  }

  /** ConvertBoardToMatrix keeps row i: its cell is empty on g, or holds the row's digit. */
  ghost predicate Keep(g: seq<seq<int>>, n: nat, i: nat)
    requires Square(g, n) && n > 0 && i < n * n * n
  {
    EncodeDecode(n, i);
    var x := Decode(n, i);
    g[x.r][x.c] == 0 || g[x.r][x.c] == x.d + 1
  }

  /** Row i of the matrix ConvertBoardToMatrix returns for board g. */
  ghost function MatrixRow(g: seq<seq<int>>, n: nat, s: nat, i: nat): (bits: seq<bool>)
    requires Square(g, n) && n > 0 && s > 0 && i < n * n * n
    ensures |bits| == 4 * n * n
    ensures forall h :: 0 <= h < 4 * n * n ==> bits[h] == (Bit(n, s, i, h) && Keep(g, n, i))
  {
    seq(4 * n * n, h requires 0 <= h < 4 * n * n => Bit(n, s, i, h) && Keep(g, n, i))
  }

  /** The matrix ConvertBoardToMatrix returns for board g: n^3 rows of 4 n^2 columns. */
  ghost function SudokuMatrix(g: seq<seq<int>>, n: nat, s: nat): (m: seq<seq<bool>>)
    requires Square(g, n) && n > 0 && s > 0
    ensures |m| == n * n * n && Rect(m, 4 * n * n)
    ensures forall i :: 0 <= i < n * n * n ==> m[i] == MatrixRow(g, n, s, i)
  {
    seq(n * n * n, i requires 0 <= i < n * n * n => MatrixRow(g, n, s, i))
  }

  /** The candidates of the matrix rows rs. */
  function Picks(n: nat, rs: seq<nat>): (xs: seq<Candidate>)
    requires n > 0
    ensures |xs| == |rs| && forall k :: 0 <= k < |rs| ==> xs[k] == Decode(n, rs[k])
  {
    seq(|rs|, k requires 0 <= k < |rs| => Decode(n, rs[k]))
  }

  /** The board g with the digit of each candidate of xs written into its cell, in order. */
  function Placed(g: seq<seq<int>>, n: nat, xs: seq<Candidate>): (h: seq<seq<int>>)
    requires Square(g, n) && forall k :: 0 <= k < |xs| ==> InRange(n, xs[k])
    ensures Square(h, n)
    decreases |xs|
  {
    if xs == [] then g
    else
      var x := xs[|xs| - 1];
      assert InRange(n, x);
      var h := Placed(g, n, xs[..|xs| - 1]);
      Fill(h, n, x.r, x.c, x.d + 1)
  }

  /** The candidates of xs lie in pairwise different cells. */
  ghost predicate DistinctCells(xs: seq<Candidate>)
  {
    forall k1, k2 :: 0 <= k1 < k2 < |xs| ==> (xs[k1].r, xs[k1].c) != (xs[k2].r, xs[k2].c)
  }

  /**
   * Placing candidates in pairwise different cells: each cell of a
   * candidate ends with its digit, every other cell keeps its value.
   */
  lemma {:induction false} PlacedValues(g: seq<seq<int>>, n: nat, xs: seq<Candidate>)
    requires Square(g, n) && (forall k :: 0 <= k < |xs| ==> InRange(n, xs[k])) && DistinctCells(xs)
    ensures forall k :: 0 <= k < |xs| ==> Placed(g, n, xs)[xs[k].r][xs[k].c] == xs[k].d + 1
    ensures forall r, c :: 0 <= r < n && 0 <= c < n && !Taken(xs, r, c) ==> Placed(g, n, xs)[r][c] == g[r][c]
    decreases |xs|
  {
    if xs != [] {
      var pre := xs[..|xs| - 1];
      PlacedValues(g, n, pre);
      forall r, c | 0 <= r < n && 0 <= c < n ensures Taken(pre, r, c) ==> Taken(xs, r, c) {
        if Taken(pre, r, c) {
          TakenPrefix(xs, r, c);
        }
      }
    }
  }

  /** Some candidate of xs lies in cell (r, c). */
  ghost predicate Taken(xs: seq<Candidate>, r: nat, c: nat)
  {
    exists k :: 0 <= k < |xs| && xs[k].r == r && xs[k].c == c
  }

  lemma TakenPrefix(xs: seq<Candidate>, r: nat, c: nat)
    requires xs != [] && Taken(xs[..|xs| - 1], r, c)
    ensures Taken(xs, r, c)
  {
    var k :| 0 <= k < |xs| - 1 && xs[..|xs| - 1][k].r == r && xs[..|xs| - 1][k].c == c;
    assert xs[k] == xs[..|xs| - 1][k];
  }

  /** x and y never share a cell, nor a digit in one row, column or box. */
  ghost predicate Compatible(s: nat, x: Candidate, y: Candidate)
    requires s > 0
  {
    && (x.r, x.c) != (y.r, y.c)
    && (x.r == y.r ==> x.d != y.d)
    && (x.c == y.c ==> x.d != y.d)
    && (x.r / s == y.r / s && x.c / s == y.c / s ==> x.d != y.d)
  }

  /**
   * The candidates of an exact cover of the matrix of board g: each agrees
   * with g's value in its cell; any two are compatible; every cell has one.
   */
  lemma CoverCandidates(g: seq<seq<int>>, n: nat, s: nat, rs: seq<nat>)
    requires Square(g, n) && s > 0 && s * s == n
    requires MatrixCover(SudokuMatrix(g, n, s), 4 * n * n, rs)
    ensures var xs := Picks(n, rs);
              && (forall k :: 0 <= k < |xs| ==> InRange(n, xs[k]) && (g[xs[k].r][xs[k].c] == 0 || g[xs[k].r][xs[k].c] == xs[k].d + 1))
              && (forall k1, k2 :: 0 <= k1 < |xs| && 0 <= k2 < |xs| && k1 != k2 ==> Compatible(s, xs[k1], xs[k2]))
              && (forall r, c :: 0 <= r < n && 0 <= c < n ==> Taken(xs, r, c))
  {
    var m := SudokuMatrix(g, n, s);
    var xs := Picks(n, rs);
    forall k | 0 <= k < |rs| ensures InRange(n, xs[k]) && Keep(g, n, rs[k]) {
      EncodeDecode(n, rs[k]);
      var h :| 0 <= h < |m[rs[k]]| && m[rs[k]][h];
    }
    forall k1, k2 | 0 <= k1 < |xs| && 0 <= k2 < |xs| && k1 != k2 ensures Compatible(s, xs[k1], xs[k2]) {
      PickedApart(g, n, s, rs, k1, k2);
    }
    forall r, c | 0 <= r < n && 0 <= c < n ensures Taken(xs, r, c) {
      CellTaken(g, n, s, rs, r, c);
    }
  }

  /** Two picked rows of an exact cover share no column, so their candidates are compatible. */
  lemma PickedApart(g: seq<seq<int>>, n: nat, s: nat, rs: seq<nat>, k1: nat, k2: nat)
    requires Square(g, n) && s > 0 && s * s == n
    requires MatrixCover(SudokuMatrix(g, n, s), 4 * n * n, rs)
    requires k1 < |rs| && k2 < |rs| && k1 != k2
    requires Keep(g, n, rs[k1]) && Keep(g, n, rs[k2])
    ensures Compatible(s, Decode(n, rs[k1]), Decode(n, rs[k2]))
  {
    var m := SudokuMatrix(g, n, s);
    var x, y := Decode(n, rs[k1]), Decode(n, rs[k2]);
    EncodeDecode(n, rs[k1]);
    EncodeDecode(n, rs[k2]);
    ConstraintBounds(n, s, x);
    ConstraintBounds(n, s, y);
    var a, b := if k1 < k2 then k1 else k2, if k1 < k2 then k2 else k1;
    assert !(m[rs[a]][CellConstraint(n, x)] && m[rs[b]][CellConstraint(n, x)]);
    assert !(m[rs[a]][RowConstraint(n, x)] && m[rs[b]][RowConstraint(n, x)]);
    assert !(m[rs[a]][ColumnConstraint(n, x)] && m[rs[b]][ColumnConstraint(n, x)]);
    assert !(m[rs[a]][BoxConstraint(n, s, x)] && m[rs[b]][BoxConstraint(n, s, x)]);
  }

  /** Cell (r, c)'s constraint is covered by a picked row, whose candidate lies in that cell. */
  lemma CellTaken(g: seq<seq<int>>, n: nat, s: nat, rs: seq<nat>, r: nat, c: nat)
    requires Square(g, n) && s > 0 && s * s == n && r < n && c < n
    requires MatrixCover(SudokuMatrix(g, n, s), 4 * n * n, rs)
    ensures Taken(Picks(n, rs), r, c)
  {
    var m := SudokuMatrix(g, n, s);
    var col := r * n + c;
    Below(r, c, n);
    assert HasOne(m, rs, col);
    var k :| 0 <= k < |rs| && rs[k] < |m| && col < |m[rs[k]]| && m[rs[k]][col];
    assert Bit(n, s, rs[k], col);
    CellBit(n, s, rs[k], r, c);
    assert Picks(n, rs)[k] == Decode(n, rs[k]);
  }

  /** A row with a 1 in the column of cell (r, c) is a candidate for that cell. */
  lemma CellBit(n: nat, s: nat, i: nat, r: nat, c: nat)
    requires s > 0 && s * s == n && r < n && c < n && i < n * n * n
    requires Bit(n, s, i, r * n + c)
    ensures Decode(n, i).r == r && Decode(n, i).c == c
  {
    var x := Decode(n, i);
    EncodeDecode(n, i);
    ConstraintBounds(n, s, x);
    Below(r, c, n);
    assert x.r * n + x.c == r * n + c;
    DivMod(r * n + c, n, x.r, x.c);
    DivMod(r * n + c, n, r, c);
  }

  /**
   * The board h is read off the candidates xs: every candidate lies on the
   * board, any two are compatible, and every cell holds the digit of a
   * candidate in it.
   */
  ghost predicate ReadOff(h: seq<seq<int>>, n: nat, s: nat, xs: seq<Candidate>)
    requires Square(h, n) && s > 0
  {
    && (forall k :: 0 <= k < |xs| ==> InRange(n, xs[k]))
    && (forall k1, k2 :: 0 <= k1 < |xs| && 0 <= k2 < |xs| && k1 != k2 ==> Compatible(s, xs[k1], xs[k2]))
    && (forall r, c :: 0 <= r < n && 0 <= c < n ==> HoldsPick(h, xs, r, c))
  }

  /** Cell (r, c) of h holds the digit of a candidate of xs in that cell. */
  ghost predicate HoldsPick(h: seq<seq<int>>, xs: seq<Candidate>, r: nat, c: nat)
    requires r < |h| && c < |h[r]|
  {
    exists k :: 0 <= k < |xs| && xs[k].r == r && xs[k].c == c && h[r][c] == xs[k].d + 1
  }

  /**
   * On a board read off compatible candidates, two different cells of one
   * row, column or box hold different values, each in 1 .. n.
   */
  lemma Differ(h: seq<seq<int>>, n: nat, s: nat, xs: seq<Candidate>, r1: nat, c1: nat, r2: nat, c2: nat)
    requires Square(h, n) && s > 0 && ReadOff(h, n, s, xs)
    requires r1 < n && c1 < n && r2 < n && c2 < n && (r1, c1) != (r2, c2)
    requires r1 == r2 || c1 == c2 || (r1 / s == r2 / s && c1 / s == c2 / s)
    ensures h[r1][c1] != h[r2][c2]
  {
    assert HoldsPick(h, xs, r1, c1) && HoldsPick(h, xs, r2, c2);
    var k1 :| 0 <= k1 < |xs| && xs[k1].r == r1 && xs[k1].c == c1 && h[r1][c1] == xs[k1].d + 1;
    var k2 :| 0 <= k2 < |xs| && xs[k2].r == r2 && xs[k2].c == c2 && h[r2][c2] == xs[k2].d + 1;
    assert Compatible(s, xs[k1], xs[k2]);
  }

  /** On a board read off candidates on the board, every cell holds one of 1 .. n. */
  lemma InDigits(h: seq<seq<int>>, n: nat, s: nat, xs: seq<Candidate>, r: nat, c: nat)
    requires Square(h, n) && s > 0 && ReadOff(h, n, s, xs) && r < n && c < n
    ensures 1 <= h[r][c] <= n
  {
    assert HoldsPick(h, xs, r, c);
    var k :| 0 <= k < |xs| && xs[k].r == r && xs[k].c == c && h[r][c] == xs[k].d + 1;
    assert InRange(n, xs[k]);
  }

  /** A board read off an exact cover's candidates is solved. */
  lemma ReadOffSolved(h: seq<seq<int>>, n: nat, s: nat, xs: seq<Candidate>)
    requires Square(h, n) && s > 0 && s * s == n && ReadOff(h, n, s, xs)
    ensures Solved(h, n, s)
  {
    forall i | 0 <= i < n ensures Distinct1N(At(h, RowCells(n, i)), n) {
      var vs := At(h, RowCells(n, i));
      forall k | 0 <= k < n ensures 1 <= vs[k] <= n {
        InDigits(h, n, s, xs, i, k);
      }
      forall k1, k2 | 0 <= k1 < k2 < n ensures vs[k1] != vs[k2] {
        Differ(h, n, s, xs, i, k1, i, k2);
      }
    }
    forall j | 0 <= j < n ensures Distinct1N(At(h, ColumnCells(n, j)), n) {
      var vs := At(h, ColumnCells(n, j));
      forall k | 0 <= k < n ensures 1 <= vs[k] <= n {
        InDigits(h, n, s, xs, k, j);
      }
      forall k1, k2 | 0 <= k1 < k2 < n ensures vs[k1] != vs[k2] {
        Differ(h, n, s, xs, k1, j, k2, j);
      }
    }
    forall bi, bj | 0 <= bi < s && 0 <= bj < s ensures BoxOK(h, s, bi, bj) {
      BoxDistinct(h, n, s, xs, bi, bj);
    }
  }

  /** Cell k of box (bi, bj) lies in that box. */
  lemma BoxCell(s: nat, bi: nat, bj: nat, k: nat)
    requires s > 0 && bi < s && bj < s && k < s * s
    ensures (bi * s + k / s) / s == bi && (bj * s + k % s) / s == bj
    ensures bi * s + k / s < s * s && bj * s + k % s < s * s
  {
    DivBound(s, k);
    DivMod(bi * s + k / s, s, bi, k / s);
    DivMod(bj * s + k % s, s, bj, k % s);
    BoxCorner(s, bi);
    BoxCorner(s, bj);
  }

  /** Different cells of a box are different cells of the board. */
  lemma BoxCellsApart(s: nat, k1: nat, k2: nat)
    requires s > 0 && k1 < k2 < s * s
    ensures (k1 / s, k1 % s) != (k2 / s, k2 % s)
  {
    assert k1 == (k1 / s) * s + k1 % s;
    assert k2 == (k2 / s) * s + k2 % s;
  }

  lemma BoxDistinct(h: seq<seq<int>>, n: nat, s: nat, xs: seq<Candidate>, bi: nat, bj: nat)
    requires Square(h, n) && s > 0 && s * s == n && ReadOff(h, n, s, xs) && bi < s && bj < s
    ensures BoxOK(h, s, bi, bj)
  {
    var vs := BoxValues(h, s, bi, bj);
    forall k | 0 <= k < n ensures 1 <= vs[k] <= n {
      BoxCell(s, bi, bj, k);
      BoxEntry(h, n, s, bi, bj, k, bi * s + k / s, bj * s + k % s);
      InDigits(h, n, s, xs, bi * s + k / s, bj * s + k % s);
    }
    forall k1, k2 | 0 <= k1 < k2 < n ensures vs[k1] != vs[k2] {
      BoxPair(h, n, s, xs, bi, bj, k1, k2);
    }
  }

  /** Entry k of a box's values is the value of its k-th cell. */
  lemma BoxEntry(h: seq<seq<int>>, n: nat, s: nat, bi: nat, bj: nat, k: nat, r: nat, c: nat)
    requires s * s == n && Square(h, n) && bi < s && bj < s && k < n
    requires r == bi * s + k / s && c == bj * s + k % s
    ensures r < n && c < n && BoxValues(h, s, bi, bj)[k] == h[r][c]
  {
    BoxCell(s, bi, bj, k);
  }

  lemma BoxPair(h: seq<seq<int>>, n: nat, s: nat, xs: seq<Candidate>, bi: nat, bj: nat, k1: nat, k2: nat)
    requires Square(h, n) && s > 0 && s * s == n && ReadOff(h, n, s, xs) && bi < s && bj < s
    requires k1 < k2 < n
    ensures BoxValues(h, s, bi, bj)[k1] != BoxValues(h, s, bi, bj)[k2]
  {
    BoxCell(s, bi, bj, k1);
    BoxCell(s, bi, bj, k2);
    BoxEntry(h, n, s, bi, bj, k1, bi * s + k1 / s, bj * s + k1 % s);
    BoxEntry(h, n, s, bi, bj, k2, bi * s + k2 / s, bj * s + k2 % s);
    BoxCellsApart(s, k1, k2);
    Differ(h, n, s, xs, bi * s + k1 / s, bj * s + k1 % s, bi * s + k2 / s, bj * s + k2 % s);
  }

  /**
   * The main result: write the digit of every row of an exact cover of
   * board g's matrix into its cell, and the board is solved and keeps every
   * value g gave.
   */
  lemma CoverSolves(g: seq<seq<int>>, n: nat, s: nat, rs: seq<nat>)
    requires Square(g, n) && s > 0 && s * s == n
    requires MatrixCover(SudokuMatrix(g, n, s), 4 * n * n, rs)
    ensures forall k :: 0 <= k < |rs| ==> InRange(n, Picks(n, rs)[k])
    ensures Solved(Placed(g, n, Picks(n, rs)), n, s)
    ensures forall r, c :: 0 <= r < n && 0 <= c < n && g[r][c] != 0 ==> Placed(g, n, Picks(n, rs))[r][c] == g[r][c]
  {
    var xs := Picks(n, rs);
    CoverCandidates(g, n, s, rs);
    forall k1, k2 | 0 <= k1 < k2 < |xs| ensures (xs[k1].r, xs[k1].c) != (xs[k2].r, xs[k2].c) {
      assert Compatible(s, xs[k1], xs[k2]);
    }
    PlacedValues(g, n, xs);
    var h := Placed(g, n, xs);
    forall r, c | 0 <= r < n && 0 <= c < n ensures HoldsPick(h, xs, r, c) && (g[r][c] != 0 ==> h[r][c] == g[r][c]) {
      assert Taken(xs, r, c);
      var k :| 0 <= k < |xs| && xs[k].r == r && xs[k].c == c;
      assert h[r][c] == xs[k].d + 1;
    }
    ReadOffSolved(h, n, s, xs);
  }
}
