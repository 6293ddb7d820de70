/**
 * The Dancing Links Sudoku solver: turn the board into the exact-cover
 * matrix, run the Dancing Links search for one cover, and write the cover's
 * digits back into the board.
 *
 * CreateMatrix and its four constraint builders are proved to produce the
 * matrix whose row for "digit d + 1 in cell (r, c)" has its 1s exactly in
 * that candidate's four constraint columns (Bit); ConvertBoardToMatrix then
 * clears the rows the board's values rule out (SudokuMatrix). Solve is
 * proved to leave a solved board that keeps every given value whenever it
 * reports success, and the board untouched otherwise.
 */
module DancingLinksSolver {
  import opened Wrappers
  import opened Board
  import opened SudokuSolveTest
  import opened DancingLinksColumnNode
  import opened DancingLinksBuild
  import opened DancingLinks
  import opened CoverMatrix

  /** The number of exact covers the search stops at. */
  const NUMBER_OF_SOLUTIONS: int := 1

  /** (int)Math.Sqrt(n): the largest s with s * s <= n. */
  function IntSqrt(n: nat): (s: nat)
    ensures s * s <= n < (s + 1) * (s + 1)
  {
    SqrtFrom(n, 0)
  }

  /** The largest r >= s with r * r <= n, counting up from s. */
  function SqrtFrom(n: nat, s: nat): (r: nat)
    requires s * s <= n
    ensures r * r <= n < (r + 1) * (r + 1)
    decreases n - s
  {
    if n < (s + 1) * (s + 1) then s
    else
      MulMono(1, s + 1, s + 1);
      SqrtFrom(n, s + 1)
  }

  /** Of two naturals, the one with the smaller square is the smaller one. */
  lemma SquareLess(a: nat, b: nat)
    requires a * a < b * b
    ensures a < b
  {
    if a >= b {
      MulMono(b, a, b);
      MulMono(b, a, a);
    }
  }

  /** The square root of a square is exact: a board of s^2 x s^2 cells has boxes of s x s. */
  lemma IntSqrtOfSquare(s: nat)
    ensures IntSqrt(s * s) == s
  {
    var r := IntSqrt(s * s);
    assert (s + 1) * (s + 1) == s * s + 2 * s + 1;
    SquareLess(s, r + 1);
    SquareLess(r, s + 1);
  }

  /** a * n + b determines a and b when b is below n. */
  lemma Unique2(n: nat, a: nat, b: nat, a': nat, b': nat)
    requires b < n && b' < n && a * n + b == a' * n + b'
    ensures a == a' && b == b'
  {
    DivMod(a * n + b, n, a, b);
    DivMod(a' * n + b', n, a', b');
  }

  /** In the block of cell constraints, row i has its 1 in the column of its cell. */
  lemma CellBlock(n: nat, s: nat, i: nat, h: nat)
    requires s > 0 && s * s == n && i < n * n * n && h < n * n
    ensures Bit(n, s, i, h) <==> CellConstraint(n, Decode(n, i)) == h
  {
    EncodeDecode(n, i);
    ConstraintBounds(n, s, Decode(n, i));
  }

  /** In the block of row constraints, row i has its 1 in the column of its row and digit. */
  lemma RowBlock(n: nat, s: nat, i: nat, h: nat)
    requires s > 0 && s * s == n && i < n * n * n && n * n <= h < 2 * n * n
    ensures Bit(n, s, i, h) <==> RowConstraint(n, Decode(n, i)) == h
  {
    EncodeDecode(n, i);
    ConstraintBounds(n, s, Decode(n, i));
  }

  /** In the block of column constraints, row i has its 1 in the column of its column and digit. */
  lemma ColumnBlock(n: nat, s: nat, i: nat, h: nat)
    requires s > 0 && s * s == n && i < n * n * n && 2 * n * n <= h < 3 * n * n
    ensures Bit(n, s, i, h) <==> ColumnConstraint(n, Decode(n, i)) == h
  {
    EncodeDecode(n, i);
    ConstraintBounds(n, s, Decode(n, i));
  }

  /** In the block of box constraints, row i has its 1 in the column of its box and digit. */
  lemma BoxBlock(n: nat, s: nat, i: nat, h: nat)
    requires s > 0 && s * s == n && i < n * n * n && 3 * n * n <= h < 4 * n * n
    ensures Bit(n, s, i, h) <==> BoxConstraint(n, s, Decode(n, i)) == h
  {
    EncodeDecode(n, i);
    ConstraintBounds(n, s, Decode(n, i));
  }

  /**
   * The matrix CreateMatrix is building, after the columns below hdr are
   * done: n^3 rows of 4 n^2 columns, column h < hdr holding the 1s of its
   * constraint, every later column still all 0s.
   */
  ghost predicate Marked(matrix: array2<bool>, n: nat, s: nat, hdr: nat)
    requires n > 0 && s > 0
    reads matrix
  {
    && matrix.Length0 == n * n * n && matrix.Length1 == 4 * n * n
    && forall i, h :: 0 <= i < n * n * n && 0 <= h < 4 * n * n ==> matrix[i, h] == (h < hdr && Bit(n, s, i, h))
  }

  /** Marked(matrix, n, s, hdr) except in column hdr, which is being filled. */
  ghost predicate MarkedBut(matrix: array2<bool>, n: nat, s: nat, hdr: nat)
    requires n > 0 && s > 0
    reads matrix
  {
    && matrix.Length0 == n * n * n && matrix.Length1 == 4 * n * n
    && forall i, h :: 0 <= i < n * n * n && 0 <= h < 4 * n * n && h != hdr ==> matrix[i, h] == (h < hdr && Bit(n, s, i, h))
  }

  /** Once column hdr holds the 1s of its constraint, the columns up to hdr are done. */
  lemma ColumnDone(matrix: array2<bool>, n: nat, s: nat, hdr: nat)
    requires n > 0 && s > 0 && MarkedBut(matrix, n, s, hdr) && hdr < 4 * n * n
    requires forall i :: 0 <= i < n * n * n ==> matrix[i, hdr] == Bit(n, s, i, hdr)
    ensures Marked(matrix, n, s, hdr + 1)
  {
  }

  /** The rows with a 1 in the column of cell (r, c) are those of the candidates in that cell. */
  lemma CellKey(n: nat, s: nat, i: nat, r: nat, c: nat)
    requires s > 0 && s * s == n && i < n * n * n && r < n && c < n
    ensures Bit(n, s, i, r * n + c) <==> Decode(n, i).r == r && Decode(n, i).c == c
  {
    Below(r, c, n);
    CellBlock(n, s, i, r * n + c);
    EncodeDecode(n, i);
    var y := Decode(n, i);
    if y.r * n + y.c == r * n + c {
      Unique2(n, y.r, y.c, r, c);
    }
  }

  /** The rows with a 1 in the column of (row r, digit d + 1) are those of the candidates for it. */
  lemma RowKey(n: nat, s: nat, i: nat, r: nat, d: nat)
    requires s > 0 && s * s == n && i < n * n * n && r < n && d < n
    ensures Bit(n, s, i, n * n + r * n + d) <==> Decode(n, i).r == r && Decode(n, i).d == d
  {
    Below(r, d, n);
    RowBlock(n, s, i, n * n + r * n + d);
    EncodeDecode(n, i);
    var y := Decode(n, i);
    if y.r * n + y.d == r * n + d {
      Unique2(n, y.r, y.d, r, d);
    }
  }

  /** The rows with a 1 in the column of (column c, digit d + 1) are those of the candidates for it. */
  lemma ColumnKey(n: nat, s: nat, i: nat, c: nat, d: nat)
    requires s > 0 && s * s == n && i < n * n * n && c < n && d < n
    ensures Bit(n, s, i, 2 * n * n + c * n + d) <==> Decode(n, i).c == c && Decode(n, i).d == d
  {
    Below(c, d, n);
    ColumnBlock(n, s, i, 2 * n * n + c * n + d);
    EncodeDecode(n, i);
    var y := Decode(n, i);
    if y.c * n + y.d == c * n + d {
      Unique2(n, y.c, y.d, c, d);
    }
  }

  /**
   * The rows with a 1 in the column of (box (bi, bj), digit d + 1) are those
   * of the candidates for that digit in a cell of that box.
   */
  lemma BoxKey(n: nat, s: nat, i: nat, bi: nat, bj: nat, k: nat, d: nat, h: nat)
    requires n > 0 && s > 0 && s * s == n && i < n * n * n && bi < s && bj < s && d < n
    requires k == bi * s + bj && h == 3 * n * n + k * n + d && 3 * n * n <= h < 4 * n * n
    ensures Bit(n, s, i, h) <==> Decode(n, i).r / s == bi && Decode(n, i).c / s == bj && Decode(n, i).d == d
  {
    BoxBlock(n, s, i, h);
    EncodeDecode(n, i);
    BoxColumnIs(n, s, Decode(n, i), k, d);
    BoxOfIs(s, Decode(n, i), bi, bj);
  }

  /** The box constraint of x is the column of (box k, digit d + 1) exactly when x is in box k with digit d + 1. */
  lemma BoxColumnIs(n: nat, s: nat, x: Candidate, k: nat, d: nat)
    requires s > 0 && x.d < n && d < n
    ensures BoxConstraint(n, s, x) == 3 * n * n + k * n + d <==> BoxOf(s, x) == k && x.d == d
  {
    var b := BoxOf(s, x);
    if b * n + x.d == k * n + d {
      Unique2(n, b, x.d, k, d);
    }
  }

  /** Box number bi s + bj is the box in box row bi and box column bj. */
  lemma BoxOfIs(s: nat, x: Candidate, bi: nat, bj: nat)
    requires s > 0 && bi < s && bj < s && x.c < s * s
    ensures BoxOf(s, x) == bi * s + bj <==> x.r / s == bi && x.c / s == bj
  {
    var a, b := x.r / s, x.c / s;
    assert b < s by { DivBelow(x.c, s, s); }
    PairIs(s, a, b, bi, bj);
  }

  /** With both low digits below s, a s + b names the pair (a, b) and no other. */
  lemma PairIs(s: nat, a: nat, b: nat, a': nat, b': nat)
    requires b < s && b' < s
    ensures a * s + b == a' * s + b' <==> a == a' && b == b'
  {
    if a * s + b == a' * s + b' {
      Unique2(s, a, b, a', b');
    }
  }

  /**
   * Row i is among the rows the box loops have marked for digit d + 1 in box
   * (bi, bj), once they are at (rowDelta, columnDelta) = (rd, cd).
   */
  ghost predicate BoxPart(n: nat, s: nat, i: nat, bi: nat, bj: nat, d: nat, rd: nat, cd: nat)
    requires n > 0 && s > 0
  {
    var y := Decode(n, i);
    y.d == d && y.r / s == bi && y.c / s == bj && (y.r % s < rd || (y.r % s == rd && y.c % s < cd))
  }

  /** One step of the columnDelta loop marks exactly the candidate in cell (bi s + rd, bj s + cd). */
  lemma BoxStep(n: nat, s: nat, i: nat, bi: nat, bj: nat, d: nat, rd: nat, cd: nat)
    requires s > 0 && s * s == n && i < n * n * n && rd < s && cd < s
    ensures BoxPart(n, s, i, bi, bj, d, rd, cd + 1) <==>
              BoxPart(n, s, i, bi, bj, d, rd, cd) || Decode(n, i) == Candidate(bi * s + rd, bj * s + cd, d)
  {
    var y := Decode(n, i);
    Recompose(y.r, s);
    Recompose(y.c, s);
    DivMod(bi * s + rd, s, bi, rd);
    DivMod(bj * s + cd, s, bj, cd);
  }

  /** Euclidean division: x is its quotient times s plus its remainder. */
  lemma Recompose(x: nat, s: nat)
    requires s > 0
    ensures x == (x / s) * s + x % s
  {
  }

  /**
   * Constraint column h, below 4 n^2, as its block h / n^2 (cell, row,
   * column or box constraints) and the two coordinates it names there.
   */
  lemma ColumnParts(n: nat, h: nat) returns (b: nat, a: nat, e: nat)
    requires n > 0 && h < 4 * n * n
    ensures b == h / (n * n) && a == (h % (n * n)) / n && e == (h % (n * n)) % n
    ensures b < 4 && a < n && e < n
    ensures b == 0 ==> h == a * n + e
    ensures b == 1 ==> h == n * n + a * n + e
    ensures b == 2 ==> h == 2 * n * n + a * n + e
    ensures b == 3 ==> h == 3 * n * n + a * n + e
  {
    var m := n * n;
    var w := h % m;
    b, a, e := h / m, w / n, w % n;
    assert h < 4 * m;
    QuotientParts(h, m, 4);
    QuotientParts(w, n, n);
    BlockCases(n, m, h, b, a, e);
  }

  /** x below b n splits as x / n, below b, times n plus x % n. */
  lemma QuotientParts(x: nat, n: nat, b: nat)
    requires n > 0 && x < b * n
    ensures x == (x / n) * n + x % n && x / n < b && x % n < n
  {
    Recompose(x, n);
    DivBelow(x, n, b);
  }

  /** Column h = b n^2 + a n + e in each of the four blocks b. */
  lemma BlockCases(n: nat, m: nat, h: nat, b: nat, a: nat, e: nat)
    requires m == n * n && h == b * m + (a * n + e) && b < 4
    ensures b == 0 ==> h == a * n + e
    ensures b == 1 ==> h == n * n + a * n + e
    ensures b == 2 ==> h == 2 * n * n + a * n + e
    ensures b == 3 ==> h == 3 * n * n + a * n + e
  {
  }

  /**
   * The k-th of the rows with a 1 in constraint column h: the candidate
   * that has the two coordinates h names and k for the third one (the
   * digit for a cell column, the column for a (row, digit) column, the row
   * for a (column, digit) column, the place in the box for a (box, digit)
   * column).
   */
  function ColumnRow(n: nat, s: nat, h: nat, k: nat): nat
    requires n > 0 && s > 0
  {
    var b: nat, w: nat := h / (n * n), h % (n * n);
    var a: nat, e: nat := w / n, w % n;
    if b == 0 then Encode(n, Candidate(a, e, k))
    else if b == 1 then Encode(n, Candidate(a, k, e))
    else if b == 2 then Encode(n, Candidate(k, a, e))
    else Encode(n, BoxCell(s, a, k, e))
  }

  /** The candidate for digit e + 1 in the cell at place k of box a (both numbered row after row). */
  function BoxCell(s: nat, a: nat, k: nat, e: nat): Candidate
    requires s > 0
  {
    Candidate(Compose(a / s, k / s, s), Compose(a % s, k % s, s), e)
  }

  /** p s + q, the number with quotient p and remainder q by s when q < s. */
  function Compose(p: nat, q: nat, s: nat): nat
  {
    p * s + q
  }

  /** The coordinate of row i's candidate that ColumnRow takes from k. */
  function ColumnPlace(n: nat, s: nat, h: nat, i: nat): nat
    requires n > 0 && s > 0
  {
    var b: nat, x := h / (n * n), Decode(n, i);
    if b == 0 then x.d
    else if b == 1 then x.c
    else if b == 2 then x.r
    else Compose(x.r % s, x.c % s, s)
  }

  /** Row k of cell column (a, e): the candidate placing digit k in that cell. */
  lemma CellColumnRow(n: nat, s: nat, a: nat, e: nat, k: nat)
    requires s > 0 && s * s == n && a < n && e < n && k < n
    ensures var i := Encode(n, Candidate(a, e, k));
              i < n * n * n && Bit(n, s, i, a * n + e) && Decode(n, i).d == k
  {
    var x := Candidate(a, e, k);
    EncodeBound(n, x);
    DecodeEncode(n, x);
    CellKey(n, s, Encode(n, x), a, e);
  }

  /** Row k of the column for digit e in row a: the candidate placing e at column k. */
  lemma RowColumnRow(n: nat, s: nat, a: nat, e: nat, k: nat)
    requires s > 0 && s * s == n && a < n && e < n && k < n
    ensures var i := Encode(n, Candidate(a, k, e));
              i < n * n * n && Bit(n, s, i, n * n + a * n + e) && Decode(n, i).c == k
  {
    var x := Candidate(a, k, e);
    EncodeBound(n, x);
    DecodeEncode(n, x);
    RowKey(n, s, Encode(n, x), a, e);
  }

  /** Row k of the column for digit e in column a: the candidate placing e at row k. */
  lemma ColumnColumnRow(n: nat, s: nat, a: nat, e: nat, k: nat)
    requires s > 0 && s * s == n && a < n && e < n && k < n
    ensures var i := Encode(n, Candidate(k, a, e));
              i < n * n * n && Bit(n, s, i, 2 * n * n + a * n + e) && Decode(n, i).r == k
  {
    var x := Candidate(k, a, e);
    EncodeBound(n, x);
    DecodeEncode(n, x);
    ColumnKey(n, s, Encode(n, x), a, e);
  }

  /** Compose(p, q, s) has quotient p and remainder q by s. */
  lemma ComposeSplit(p: nat, q: nat, s: nat)
    requires s > 0 && q < s
    ensures Compose(p, q, s) / s == p && Compose(p, q, s) % s == q
  {
    DivMod(Compose(p, q, s), s, p, q);
  }

  /** A number is composed of its quotient and remainder. */
  lemma SplitCompose(x: nat, s: nat)
    requires s > 0
    ensures Compose(x / s, x % s, s) == x
  {
    Recompose(x, s);
  }

  /** Place k of box a is a cell of box a, and k is its place there. */
  lemma BoxPlace(s: nat, a: nat, k: nat)
    requires s > 0 && a < s * s && k < s * s
    ensures Compose(a / s, k / s, s) < s * s && Compose(a % s, k % s, s) < s * s
    ensures Compose(a / s, k / s, s) / s == a / s && Compose(a % s, k % s, s) / s == a % s
    ensures Compose(Compose(a / s, k / s, s) % s, Compose(a % s, k % s, s) % s, s) == k
  {
    DivBound(s, a);
    DivBound(s, k);
    Below(a / s, k / s, s);
    Below(a % s, k % s, s);
    ComposeSplit(a / s, k / s, s);
    ComposeSplit(a % s, k % s, s);
    SplitCompose(k, s);
  }

  /** A cell (r, c) of box a is the cell at place Compose(r % s, c % s, s) of it. */
  lemma BoxPlaceOf(s: nat, a: nat, r: nat, c: nat)
    requires s > 0 && a < s * s && r < s * s && c < s * s && r / s == a / s && c / s == a % s
    ensures Compose(r % s, c % s, s) < s * s
    ensures Compose(a / s, Compose(r % s, c % s, s) / s, s) == r
    ensures Compose(a % s, Compose(r % s, c % s, s) % s, s) == c
  {
    DivBound(s, r);
    DivBound(s, c);
    Below(r % s, c % s, s);
    ComposeSplit(r % s, c % s, s);
    SplitCompose(r, s);
    SplitCompose(c, s);
  }

  /** The rows with a 1 in the column for digit e in box a: the candidates placing e in that box. */
  lemma BoxBit(n: nat, s: nat, i: nat, a: nat, e: nat)
    requires n > 0 && s > 0 && s * s == n && i < n * n * n && a < n && e < n
    ensures Bit(n, s, i, 3 * n * n + a * n + e) <==>
              Decode(n, i).r / s == a / s && Decode(n, i).c / s == a % s && Decode(n, i).d == e
  {
    BoxDigits(n, s, a, e);
    BoxKey(n, s, i, a / s, a % s, a, e, 3 * n * n + a * n + e);
  }

  /** Box a splits into box row a / s and box column a % s, and its digit-e column lies in the fourth block. */
  lemma BoxDigits(n: nat, s: nat, a: nat, e: nat)
    requires s > 0 && s * s == n && a < n && e < n
    ensures a / s < s && a % s < s && a == (a / s) * s + a % s
    ensures 3 * n * n <= 3 * n * n + a * n + e < 4 * n * n
  {
    DivBound(s, a);
    Recompose(a, s);
    Below(a, e, n);
  }

  /** Row k of the column for digit e in box a: the candidate placing e at place k of the box. */
  lemma BoxColumnRow(n: nat, s: nat, a: nat, e: nat, k: nat)
    requires n > 0 && s > 0 && s * s == n && a < n && e < n && k < n
    ensures Encode(n, BoxCell(s, a, k, e)) < n * n * n
    ensures Bit(n, s, Encode(n, BoxCell(s, a, k, e)), 3 * n * n + a * n + e)
    ensures Decode(n, Encode(n, BoxCell(s, a, k, e))) == BoxCell(s, a, k, e)
    ensures Compose(BoxCell(s, a, k, e).r % s, BoxCell(s, a, k, e).c % s, s) == k
  {
    var x := BoxCell(s, a, k, e);
    BoxPlace(s, a, k);
    assert InRange(n, x);
    EncodeBound(n, x);
    DecodeEncode(n, x);
    BoxBit(n, s, Encode(n, x), a, e);
  }

  /** Each of the n rows ColumnRow names has a 1 in column h, and ColumnPlace gives k back. */
  lemma ColumnRowBit(n: nat, s: nat, h: nat, k: nat)
    requires n > 0 && s > 0 && s * s == n && h < 4 * n * n && k < n
    ensures ColumnRow(n, s, h, k) < n * n * n && Bit(n, s, ColumnRow(n, s, h, k), h)
    ensures ColumnPlace(n, s, h, ColumnRow(n, s, h, k)) == k
  {
    var b, a, e := ColumnParts(n, h);
    if b == 0 {
      CellColumnRow(n, s, a, e, k);
    } else if b == 1 {
      RowColumnRow(n, s, a, e, k);
    } else if b == 2 {
      ColumnColumnRow(n, s, a, e, k);
    } else {
      BoxColumnRow(n, s, a, e, k);
    }
  }

  /** A cell-column row is the one CellColumnRow names at its digit. */
  lemma CellColumnOf(n: nat, s: nat, i: nat, a: nat, e: nat)
    requires s > 0 && s * s == n && i < n * n * n && a < n && e < n && Bit(n, s, i, a * n + e)
    ensures Decode(n, i).d < n && Encode(n, Candidate(a, e, Decode(n, i).d)) == i
  {
    CellKey(n, s, i, a, e);
    EncodeDecode(n, i);
  }

  /** A row-column row is the one RowColumnRow names at its column. */
  lemma RowColumnOf(n: nat, s: nat, i: nat, a: nat, e: nat)
    requires s > 0 && s * s == n && i < n * n * n && a < n && e < n && Bit(n, s, i, n * n + a * n + e)
    ensures Decode(n, i).c < n && Encode(n, Candidate(a, Decode(n, i).c, e)) == i
  {
    RowKey(n, s, i, a, e);
    EncodeDecode(n, i);
  }

  /** A column-column row is the one ColumnColumnRow names at its row. */
  lemma ColumnColumnOf(n: nat, s: nat, i: nat, a: nat, e: nat)
    requires s > 0 && s * s == n && i < n * n * n && a < n && e < n && Bit(n, s, i, 2 * n * n + a * n + e)
    ensures Decode(n, i).r < n && Encode(n, Candidate(Decode(n, i).r, a, e)) == i
  {
    ColumnKey(n, s, i, a, e);
    EncodeDecode(n, i);
  }

  /** A box-column row is the one BoxColumnRow names at its place k in the box. */
  lemma BoxColumnOf(n: nat, s: nat, i: nat, a: nat, e: nat, k: nat)
    requires n > 0 && s > 0 && s * s == n && i < n * n * n && a < n && e < n
    requires Bit(n, s, i, 3 * n * n + a * n + e)
    requires k == Compose(Decode(n, i).r % s, Decode(n, i).c % s, s)
    ensures k < n
    ensures Encode(n, BoxCell(s, a, k, e)) == i
  {
    var x := Decode(n, i);
    BoxBit(n, s, i, a, e);
    EncodeDecode(n, i);
    BoxPlaceOf(s, a, x.r, x.c);
    assert BoxCell(s, a, k, e) == x;
  }

  /** Every row with a 1 in column h is the one ColumnRow names at its place. */
  lemma ColumnRowOf(n: nat, s: nat, h: nat, i: nat)
    requires n > 0 && s > 0 && s * s == n && h < 4 * n * n && i < n * n * n && Bit(n, s, i, h)
    ensures ColumnPlace(n, s, h, i) < n && ColumnRow(n, s, h, ColumnPlace(n, s, h, i)) == i
  {
    var b, a, e := ColumnParts(n, h);
    if b == 0 {
      CellColumnOf(n, s, i, a, e);
    } else if b == 1 {
      RowColumnOf(n, s, i, a, e);
    } else if b == 2 {
      ColumnColumnOf(n, s, i, a, e);
    } else {
      BoxColumnOf(n, s, i, a, e, ColumnPlace(n, s, h, i));
    }
  }

  /** The first j rows ColumnRow names are j different rows. */
  lemma {:induction false} ColumnRowsCount(n: nat, s: nat, h: nat, j: nat)
    requires n > 0 && s > 0 && s * s == n && h < 4 * n * n && j <= n
    ensures |set k | 0 <= k < j :: ColumnRow(n, s, h, k)| == j
    decreases j
  {
    if j > 0 {
      var S := set k | 0 <= k < j - 1 :: ColumnRow(n, s, h, k);
      var S' := set k | 0 <= k < j :: ColumnRow(n, s, h, k);
      ColumnRowsCount(n, s, h, j - 1);
      assert S' == S + {ColumnRow(n, s, h, j - 1)};
      ColumnRowBit(n, s, h, j - 1);
      forall k | 0 <= k < j - 1
        ensures ColumnRow(n, s, h, k) != ColumnRow(n, s, h, j - 1)
      {
        ColumnRowBit(n, s, h, k);
      }
    }
  }

  /**
   * Every column of the matrix CreateMatrix builds has exactly n 1s: the n
   * candidates of its cell, or of its digit in its row, column or box.
   */
  lemma ColumnOnes(n: nat, s: nat, h: nat)
    requires n > 0 && s > 0 && s * s == n && h < 4 * n * n
    ensures |set i | 0 <= i < n * n * n && Bit(n, s, i, h)| == n
  {
    var A := set i | 0 <= i < n * n * n && Bit(n, s, i, h);
    var B := set k | 0 <= k < n :: ColumnRow(n, s, h, k);
    forall i | i in A
      ensures i in B
    {
      ColumnRowOf(n, s, h, i);
    }
    forall k | 0 <= k < n
      ensures ColumnRow(n, s, h, k) in A
    {
      ColumnRowBit(n, s, h, k);
    }
    assert A == B;
    ColumnRowsCount(n, s, h, n);
  }

  /**
   * Every row of the matrix CreateMatrix builds has exactly four 1s, the
   * columns of its candidate's four constraints, one in each block.
   */
  lemma RowOnes(n: nat, s: nat, i: nat)
    requires n > 0 && s > 0 && s * s == n && i < n * n * n
    ensures var x := Decode(n, i);
              (set h | 0 <= h < 4 * n * n && Bit(n, s, i, h)) ==
                {CellConstraint(n, x), RowConstraint(n, x), ColumnConstraint(n, x), BoxConstraint(n, s, x)}
    ensures |set h | 0 <= h < 4 * n * n && Bit(n, s, i, h)| == 4
  {
    EncodeDecode(n, i);
    var x := Decode(n, i);
    ConstraintBounds(n, s, x);
    var H := {CellConstraint(n, x), RowConstraint(n, x), ColumnConstraint(n, x), BoxConstraint(n, s, x)};
    assert (set h | 0 <= h < 4 * n * n && Bit(n, s, i, h)) == H;
  }

  /** column = 1 + b s stays within the board exactly while b < s. */
  lemma StepInside(s: nat, b: nat)
    requires s > 0 && b <= s
    ensures 1 + b * s <= s * s <==> b < s
  {
    if b < s {
      MulMono(b + 1, s, s);
      assert (b + 1) * s == b * s + s;
    }
  }

  /** The column of (box (bi, bj), digit d + 1) lies in the last block. */
  lemma BoxHeader(n: nat, s: nat, bi: nat, bj: nat, d: nat, h: nat)
    requires s > 0 && s * s == n && bi < s && bj < s && d < n
    requires h == 3 * n * n + (bi * s + bj) * n + d
    ensures 3 * n * n <= h < 4 * n * n
  {
    Below(bi, bj, s);
    Below(bi * s + bj, d, n);
    LastBlock(n, (bi * s + bj) * n + d);
  }

  lemma LastBlock(n: nat, a: nat)
    requires a < n * n
    ensures 3 * n * n <= 3 * n * n + a < 4 * n * n
  {
    assert 4 * n * n == 3 * n * n + n * n;
  }

  /** Once the box loops have marked every cell of box (bi, bj) for digit d + 1, its column is done. */
  lemma BoxDone(matrix: array2<bool>, n: nat, s: nat, bi: nat, bj: nat, k: nat, d: nat, h: nat)
    requires n > 0 && s > 0 && s * s == n && bi < s && bj < s && d < n
    requires k == bi * s + bj && h == 3 * n * n + k * n + d && 3 * n * n <= h < 4 * n * n
    requires MarkedBut(matrix, n, s, h)
    requires forall i :: 0 <= i < n * n * n ==> matrix[i, h] == BoxPart(n, s, i, bi, bj, d, s, 0)
    ensures Marked(matrix, n, s, h + 1)
  {
    forall i | 0 <= i < n * n * n ensures matrix[i, h] == Bit(n, s, i, h) {
      BoxPartIsBit(n, s, i, bi, bj, k, d, h);
    }
    ColumnDone(matrix, n, s, h);
  }

  /** Marked for every cell of the box is having a 1 in the box's column. */
  lemma BoxPartIsBit(n: nat, s: nat, i: nat, bi: nat, bj: nat, k: nat, d: nat, h: nat)
    requires n > 0 && s > 0 && s * s == n && bi < s && bj < s && d < n && i < n * n * n
    requires k == bi * s + bj && h == 3 * n * n + k * n + d && 3 * n * n <= h < 4 * n * n
    ensures BoxPart(n, s, i, bi, bj, d, s, 0) == Bit(n, s, i, h)
  {
    BoxPartEnd(n, s, i, bi, bj, d);
    BoxKey(n, s, i, bi, bj, k, d, h);
  }

  /** After the last rowDelta, every cell of the box is marked. */
  lemma BoxPartEnd(n: nat, s: nat, i: nat, bi: nat, bj: nat, d: nat)
    requires n > 0 && s > 0
    ensures BoxPart(n, s, i, bi, bj, d, s, 0) <==> Decode(n, i).d == d && Decode(n, i).r / s == bi && Decode(n, i).c / s == bj
  {
    assert Decode(n, i).r % s < s;
  }

  /**
   * The matrix ConvertBoardToMatrix is clearing, once the rows below t are
   * done: every row holds the 1s of its candidate, and each row below t only
   * when the board g lets its candidate stand.
   */
  ghost predicate Converted(matrix: array2<bool>, g: seq<seq<int>>, n: nat, s: nat, t: int)
    requires Square(g, n) && n > 0 && s > 0
    reads matrix
  {
    && matrix.Length0 == n * n * n && matrix.Length1 == 4 * n * n
    && forall i, h :: 0 <= i < n * n * n && 0 <= h < 4 * n * n ==> matrix[i, h] == (Bit(n, s, i, h) && (i >= t || Keep(g, n, i)))
  }

  /** The board keeps the candidate x exactly when x's cell is empty or holds x's digit. */
  lemma KeepAt(g: seq<seq<int>>, n: nat, x: Candidate)
    requires Square(g, n) && InRange(n, x)
    ensures Encode(n, x) < n * n * n
    ensures Keep(g, n, Encode(n, x)) <==> g[x.r][x.c] == 0 || g[x.r][x.c] == x.d + 1
  {
    EncodeBound(n, x);
    DecodeEncode(n, x);
  }

  /** The finished CreateMatrix is the matrix before any row is cleared. */
  lemma MarkedConverted(matrix: array2<bool>, g: seq<seq<int>>, n: nat, s: nat)
    requires Square(g, n) && n > 0 && s > 0 && Marked(matrix, n, s, 4 * n * n)
    ensures Converted(matrix, g, n, s, 0)
  {
  }

  /** Once every row is done, the matrix is the one SudokuMatrix describes for g. */
  lemma ConvertedGrid(matrix: array2<bool>, g: seq<seq<int>>, n: nat, s: nat)
    requires Square(g, n) && n > 0 && s > 0 && Converted(matrix, g, n, s, n * n * n)
    ensures Grid(matrix) == SudokuMatrix(g, n, s)
  {
    var m, m' := Grid(matrix), SudokuMatrix(g, n, s);
    forall i | 0 <= i < n * n * n ensures m[i] == m'[i] {
      assert forall h :: 0 <= h < 4 * n * n ==> m[i][h] == m'[i][h];
    }
  }

  /** The rows of cell (row, column + 1) start right after those of cell (row, column). */
  lemma NextCell(n: nat, row: nat, column: nat)
    requires column >= 1
    ensures IndexInCoverMatrix(n, row, column, 1) + n == IndexInCoverMatrix(n, row, column + 1, 1)
  {
    assert (column - 1) * n + n == column * n;
  }

  /** The rows of board row row + 1 start right after those of board row row. */
  lemma NextRow(n: nat, row: nat)
    requires row >= 1
    ensures IndexInCoverMatrix(n, row, n + 1, 1) == IndexInCoverMatrix(n, row + 1, 1, 1)
  {
    assert (row - 1) * n * n + n * n == row * n * n;
  }

  /** A row of a cell that is empty on g is kept. */
  lemma EmptyCellKept(g: seq<seq<int>>, n: nat, r: nat, c: nat, base: nat, i: nat)
    requires Square(g, n) && r < n && c < n && g[r][c] == 0
    requires base == Encode(n, Candidate(r, c, 0)) && base <= i < base + n
    ensures i < n * n * n && Keep(g, n, i)
  {
    var x := Candidate(r, c, i - base);
    KeepAt(g, n, x);
  }

  /**
   * A kept candidate's matrix row has its two smallest 1s in its cell
   * column and then in its row column: the cell block comes first and the
   * row block second.
   */
  lemma FirstTwoOnes(g: seq<seq<int>>, n: nat, s: nat, i: nat)
    requires Square(g, n) && s > 0 && s * s == n && i < n * n * n && Keep(g, n, i)
    ensures var cs := Ones(MatrixRow(g, n, s, i), 4 * n * n);
              |cs| >= 2 && cs[0] == CellConstraint(n, Decode(n, i)) && cs[1] == RowConstraint(n, Decode(n, i))
  {
    var x := Decode(n, i);
    var bits := MatrixRow(g, n, s, i);
    var cs := Ones(bits, 4 * n * n);
    EncodeDecode(n, i);
    ConstraintBounds(n, s, x);
    var a, b := CellConstraint(n, x), RowConstraint(n, x);
    assert bits[a] && bits[b];
    assert a in cs && b in cs;
    var ka :| 0 <= ka < |cs| && cs[ka] == a;
    var kb :| 0 <= kb < |cs| && cs[kb] == b;
    assert cs[0] in cs;
    assert cs[0] == a;
    assert kb >= 1;
    assert cs[1] in cs;
  }

  /**
   * min is at most the column of every node met in t steps right from x in
   * the row [lo, hi): those at most t - 1 places to its right, cyclically.
   */
  ghost predicate MinSoFar(col: seq<nat>, lo: nat, hi: nat, x: nat, t: nat, min: nat)
  {
    && hi <= |col|
    && forall y :: lo <= y < hi && (x <= y < x + t || y + (hi - lo) < x + t) ==> min <= col[y]
  }

  /** Before the first step, only x itself has been met. */
  lemma MinSoFarStart(col: seq<nat>, lo: nat, hi: nat, x: nat)
    requires lo <= x < hi <= |col|
    ensures MinSoFar(col, lo, hi, x, 1, col[x])
  {
  }

  /** Meeting node y at step t keeps the smaller of min and its column. */
  lemma MinSoFarStep(col: seq<nat>, lo: nat, hi: nat, x: nat, t: nat, min: nat, y: nat)
    requires MinSoFar(col, lo, hi, x, t, min) && lo <= y < hi && (y == x + t || y + (hi - lo) == x + t)
    ensures MinSoFar(col, lo, hi, x, t + 1, if col[y] < min then col[y] else min)
  {
  }

  /** After as many steps as the row has nodes, every node has been met. */
  lemma MinSoFarAll(col: seq<nat>, lo: nat, hi: nat, x: nat, min: nat)
    requires lo <= x < hi && MinSoFar(col, lo, hi, x, hi - lo, min)
    ensures forall y :: lo <= y < hi ==> min <= col[y]
  {
  }

  /**
   * The ids [lo, hi) form a ring to the right in id order: each one's right
   * neighbour is the next id, and the last one's is the first.
   */
  ghost predicate RingRight(right: array<nat>, lo: nat, hi: nat)
    reads right
  {
    && hi <= right.Length
    && forall y :: lo <= y < hi ==> right[y] == if y + 1 < hi then y + 1 else lo
  }

  /** In a valid structure whose rows are linked in layout order, each row is such a ring. */
  lemma RowRing(dlx: DancingLinks, x: nat, lo: nat, hi: nat)
    requires dlx.Valid() && RowLinks(dlx.arena.State(), dlx.lay) && dlx.lay.n < x < dlx.lay.count
    requires lo == dlx.lay.rowLo[dlx.lay.rowOf[x]] && hi == dlx.lay.rowHi[dlx.lay.rowOf[x]]
    ensures lo <= x < hi <= dlx.arena.Col.Length && RingRight(dlx.arena.R, lo, hi)
  {
    var lay := dlx.lay;
    assert dlx.arena.State().R == dlx.arena.R[..];
    forall y | lo <= y < hi ensures dlx.arena.R[y] == if y + 1 < hi then y + 1 else lo {
      assert lay.rowOf[y] == lay.rowOf[x];
    }
  }

  /**
   * In a structure built from SudokuMatrix(g, n, s), the row of a data node
   * x is a kept candidate's row: its first node lies in the candidate's cell
   * column, the next in its row column, and every later node further right.
   */
  lemma RowHead(lay: Layout, g: seq<seq<int>>, n: nat, s: nat, x: nat)
    requires Square(g, n) && s > 0 && s * s == n
    requires RowsEncode(lay, SudokuMatrix(g, n, s), 4 * n * n) && lay.n < x < lay.count
    ensures var i, lo := lay.rowOf[x], lay.rowLo[lay.rowOf[x]];
              && i < n * n * n && InRange(n, Decode(n, i)) && lo + 1 < lay.rowHi[i]
              && lay.col[lo] == CellConstraint(n, Decode(n, i)) && lay.col[lo + 1] == RowConstraint(n, Decode(n, i))
              && forall y :: lo < y < lay.rowHi[i] ==> lay.col[lo] < lay.col[y]
  {
    var m := SudokuMatrix(g, n, s);
    var i := lay.rowOf[x];
    NodeRowKept(lay, g, n, s, x);
    EncodeDecode(n, i);
    FirstTwoOnes(g, n, s, i);
    RowNodeColumns(lay, m, 4 * n * n, i);
    var lo, cs := lay.rowLo[i], Ones(m[i], 4 * n * n);
    assert m[i] == MatrixRow(g, n, s, i);
    assert lay.col[lo + 0] == cs[0] && lay.col[lo + 1] == cs[1];
    FirstSmallest(lay.col, lo, lay.rowHi[i], cs);
  }

  /** The row of a data node is a row of the matrix that the board keeps. */
  lemma NodeRowKept(lay: Layout, g: seq<seq<int>>, n: nat, s: nat, x: nat)
    requires Square(g, n) && s > 0 && s * s == n
    requires RowsEncode(lay, SudokuMatrix(g, n, s), 4 * n * n) && lay.n < x < lay.count
    ensures n > 0 && lay.rowOf[x] < n * n * n && Keep(g, n, lay.rowOf[x])
  {
    MulPos(s, s);
    var m := SudokuMatrix(g, n, s);
    var i := lay.rowOf[x];
    assert i < |m| && lay.rowLo[i] <= x < lay.rowHi[i];
    RowNodeColumns(lay, m, 4 * n * n, i);
    var cs := Ones(m[i], 4 * n * n);
    assert cs[0] in cs;
    assert m[i][cs[0]];
  }

  /** The nodes of row i of a structure that encodes m lie, in order, in the columns where m[i] has a 1. */
  lemma RowNodeColumns(lay: Layout, m: seq<seq<bool>>, n: nat, i: nat)
    requires RowsEncode(lay, m, n) && i < |m|
    ensures lay.rowLo[i] <= lay.rowHi[i] <= |lay.col| && |Ones(m[i], n)| == lay.rowHi[i] - lay.rowLo[i]
    ensures forall a :: 0 <= a < lay.rowHi[i] - lay.rowLo[i] ==> lay.col[lay.rowLo[i] + a] == Ones(m[i], n)[a]
  {
    assert ColsOf(lay, Range(lay.rowLo[i], lay.rowHi[i])) == Ones(m[i], n);
  }

  /** Nodes lo .. hi - 1 whose columns are the strictly increasing cs: the first has the smallest column. */
  lemma FirstSmallest(col: seq<nat>, lo: nat, hi: nat, cs: seq<nat>)
    requires lo <= hi <= |col| && |cs| == hi - lo
    requires forall a :: 0 <= a < hi - lo ==> col[lo + a] == cs[a]
    requires forall k1, k2 :: 0 <= k1 < k2 < |cs| ==> cs[k1] < cs[k2]
    ensures forall y :: lo < y < hi ==> col[lo] < col[y]
  {
    forall y | lo < y < hi ensures col[lo] < col[y] {
      assert col[lo + 0] == cs[0] && col[lo + (y - lo)] == cs[y - lo];
    }
  }

  /** The row's node of smallest column is its first node. */
  lemma SmallestIsFirst(lay: Layout, g: seq<seq<int>>, n: nat, s: nat, x: nat, y: nat)
    requires Square(g, n) && s > 0 && s * s == n
    requires RowsEncode(lay, SudokuMatrix(g, n, s), 4 * n * n) && lay.n < x < lay.count
    requires lay.rowLo[lay.rowOf[x]] <= y < lay.rowHi[lay.rowOf[x]] && lay.col[y] <= lay.col[lay.rowLo[lay.rowOf[x]]]
    ensures y == lay.rowLo[lay.rowOf[x]]
  {
    RowHead(lay, g, n, s, x);
  }

  /** The row column of x, modulo n, is x's digit. */
  lemma RowColumnDigit(n: nat, x: Candidate)
    requires InRange(n, x)
    ensures RowConstraint(n, x) % n == x.d
  {
    assert RowConstraint(n, x) == (n + x.r) * n + x.d;
    DivMod(RowConstraint(n, x), n, n + x.r, x.d);
  }

  /** The candidates of the nodes of a cover found in the built structure are all on the board. */
  lemma PicksInRange(lay: Layout, g: seq<seq<int>>, n: nat, s: nat, sol: seq<nat>)
    requires Square(g, n) && s > 0 && s * s == n
    requires RowsEncode(lay, SudokuMatrix(g, n, s), 4 * n * n) && DataNodes(lay, sol)
    ensures n > 0 && forall k :: 0 <= k < |sol| ==> InRange(n, Picks(n, RowsOfNodes(lay, sol))[k])
  {
    MulPos(s, s);
    forall k | 0 <= k < |sol| ensures InRange(n, Decode(n, lay.rowOf[sol[k]])) {
      RowHead(lay, g, n, s, sol[k]);
    }
  }

  /** The board g with the candidates of the first k nodes of sol written in, in order. */
  ghost function Written(lay: Layout, g: seq<seq<int>>, n: nat, s: nat, sol: seq<nat>, k: nat): (h: seq<seq<int>>)
    requires Square(g, n) && s > 0 && s * s == n
    requires RowsEncode(lay, SudokuMatrix(g, n, s), 4 * n * n) && DataNodes(lay, sol) && k <= |sol|
    ensures Square(h, n)
  {
    DataNodesPrefix(lay, sol, k);
    PicksInRange(lay, g, n, s, sol[..k]);
    Placed(g, n, Picks(n, RowsOfNodes(lay, sol[..k])))
  }

  /** Writing in one more node fills that node's cell with its digit. */
  lemma WrittenStep(lay: Layout, g: seq<seq<int>>, n: nat, s: nat, sol: seq<nat>, k: nat)
    requires Square(g, n) && s > 0 && s * s == n
    requires RowsEncode(lay, SudokuMatrix(g, n, s), 4 * n * n) && DataNodes(lay, sol) && k < |sol|
    ensures n > 0 && InRange(n, Decode(n, lay.rowOf[sol[k]]))
    ensures var x := Decode(n, lay.rowOf[sol[k]]);
              Written(lay, g, n, s, sol, k + 1) == Fill(Written(lay, g, n, s, sol, k), n, x.r, x.c, x.d + 1)
  {
    var x := Decode(n, lay.rowOf[sol[k]]);
    RowHead(lay, g, n, s, sol[k]);
    DataNodesPrefix(lay, sol, k);
    PicksInRange(lay, g, n, s, sol[..k]);
    PicksStep(lay, n, sol, k);
    var ys := Picks(n, RowsOfNodes(lay, sol[..k + 1]));
    assert ys[..k] == Picks(n, RowsOfNodes(lay, sol[..k])) && ys[k] == x;
  }

  /** The first cover a search over the structure built from SudokuMatrix(g, n, s) records is an exact cover of it. */
  lemma FirstCover(lay: Layout, g: seq<seq<int>>, n: nat, s: nat, sols: seq<seq<nat>>)
    requires Square(g, n) && n > 0 && s > 0
    requires RowsEncode(lay, SudokuMatrix(g, n, s), 4 * n * n)
    requires Recorded(lay, [], sols, [], Elems(Range(0, 4 * n * n)), FirstRows(n * n * n)) && |sols| > 0
    ensures DataNodes(lay, sols[0]) && MatrixCover(SudokuMatrix(g, n, s), 4 * n * n, RowsOfNodes(lay, sols[0]))
  {
    RecordedCovers(lay, SudokuMatrix(g, n, s), 4 * n * n, sols);
  }

  /** The board h that agrees with g except for the value v at (row, col) is g with v filled in. */
  lemma FillIs(g: seq<seq<int>>, h: seq<seq<int>>, n: nat, row: nat, col: nat, v: int)
    requires Square(g, n) && Square(h, n) && row < n && col < n && h[row][col] == v
    requires forall r, c :: 0 <= r < n && 0 <= c < n && (r, c) != (row, col) ==> h[r][c] == g[r][c]
    ensures h == Fill(g, n, row, col, v)
  {
    var f := Fill(g, n, row, col, v);
    forall r | 0 <= r < n ensures h[r] == f[r] {
      assert forall c :: 0 <= c < n ==> h[r][c] == f[r][c];
    }
  }

  /** The candidates of the first k + 1 solution nodes are those of the first k, then that of node k. */
  lemma PicksStep(lay: Layout, n: nat, sol: seq<nat>, k: nat)
    requires n > 0 && |lay.rowOf| == |lay.col| && k < |sol| && forall j :: 0 <= j < |sol| ==> sol[j] < |lay.col|
    ensures Picks(n, RowsOfNodes(lay, sol[..k + 1])) == Picks(n, RowsOfNodes(lay, sol[..k])) + [Decode(n, lay.rowOf[sol[k]])]
  {
  }

  /**
   * The solver of one board: its size and the size of its boxes, the
   * integer square root of the size.
   */
  class DancingLinksSolver {
    const board: ArraySudokuBoard
    const size: nat
    const sectorSize: nat

    ghost predicate Valid()
    {
      board.Valid() && size == board.boardSize && sectorSize == IntSqrt(size)
    }

    /** The board has at least one cell and its size is a square, so that its boxes tile it. */
    ghost predicate Shaped()
    {
      size > 0 && sectorSize > 0 && sectorSize * sectorSize == size
    }

    constructor (board: ArraySudokuBoard)
      requires board.Valid()
      ensures Valid() && this.board == board
    {
      this.board := board;
      size := board.GetBoardSize();
      sectorSize := IntSqrt(board.GetBoardSize());
    }

    /**
     * The innermost loop of CreateCellConstraints: for num = 1 .. size, a 1
     * in column `header` for num in cell (row, column).
     */
    method MarkCell(matrix: array2<bool>, row: nat, column: nat, header: nat)
      requires Shaped() && 1 <= row <= size && 1 <= column <= size && header == (row - 1) * size + (column - 1)
      requires Marked(matrix, size, sectorSize, header)
      modifies matrix
      ensures Marked(matrix, size, sectorSize, header + 1)
    {
      var n := size;
      Below(row - 1, column - 1, n);
      assert header < 4 * n * n;
      var num := 1;
      while num <= n
        invariant 1 <= num <= n + 1
        invariant MarkedBut(matrix, n, sectorSize, header)
        invariant forall i :: 0 <= i < n * n * n ==>
                    matrix[i, header] == (Decode(n, i).r == row - 1 && Decode(n, i).c == column - 1 && Decode(n, i).d < num - 1)
      {
        var index := IndexInCoverMatrix(n, row, column, num);
        ghost var x := Candidate(row - 1, column - 1, num - 1);
        IndexIsEncode(n, x);
        EncodeBound(n, x);
        DecodeEncode(n, x);
        matrix[index, header] := true;
        forall i | 0 <= i < n * n * n
          ensures matrix[i, header] == (Decode(n, i).r == row - 1 && Decode(n, i).c == column - 1 && Decode(n, i).d < num)
        {
          EncodeDecode(n, i);
        }
        num := num + 1;
      }
      forall i | 0 <= i < n * n * n ensures matrix[i, header] == Bit(n, sectorSize, i, header) {
        CellKey(n, sectorSize, i, row - 1, column - 1);
        EncodeDecode(n, i);
      }
      ColumnDone(matrix, n, sectorSize, header);
    }
 
    /** The column loop of CreateCellConstraints for one row: one header per cell, in column order. */
    method CellConstraintsRow(matrix: array2<bool>, row: nat, header: nat) returns (next: nat)
      requires Shaped() && 1 <= row <= size && header == (row - 1) * size
      requires Marked(matrix, size, sectorSize, header)
      modifies matrix
      ensures next == row * size && Marked(matrix, size, sectorSize, next)
    {
      next := header;
      var column := 1;
      while column <= size
        invariant 1 <= column <= size + 1 && next == (row - 1) * size + (column - 1)
        invariant Marked(matrix, size, sectorSize, next)
      {
        MarkCell(matrix, row, column, next);
        column := column + 1;
        next := next + 1;
      }
      assert (row - 1) * size + size == row * size;
    }

    /** CreateCellConstraints: headers 0 .. size^2 - 1, one per cell, row after row. */
    method CreateCellConstraints(matrix: array2<bool>, header: nat) returns (next: nat)
      requires Shaped() && header == 0 && Marked(matrix, size, sectorSize, header)
      modifies matrix
      ensures next == size * size && Marked(matrix, size, sectorSize, next)
    {
      next := header;
      var row := 1;
      while row <= size
        invariant 1 <= row <= size + 1 && next == (row - 1) * size
        invariant Marked(matrix, size, sectorSize, next)
      {
        next := CellConstraintsRow(matrix, row, next);
        row := row + 1;
      }
    }

    /**
     * The innermost loop of CreateRowConstraints: for column = 1 .. size, a
     * 1 in column `header` for num in cell (row, column).
     */
    method MarkRow(matrix: array2<bool>, row: nat, num: nat, header: nat)
      requires Shaped() && 1 <= row <= size && 1 <= num <= size && header == size * size + (row - 1) * size + (num - 1)
      requires Marked(matrix, size, sectorSize, header)
      modifies matrix
      ensures Marked(matrix, size, sectorSize, header + 1)
    {
      var n := size;
      Below(row - 1, num - 1, n);
      assert header < 4 * n * n;
      var column := 1;
      while column <= n
        invariant 1 <= column <= n + 1
        invariant MarkedBut(matrix, n, sectorSize, header)
        invariant forall i :: 0 <= i < n * n * n ==>
                    matrix[i, header] == (Decode(n, i).r == row - 1 && Decode(n, i).d == num - 1 && Decode(n, i).c < column - 1)
      {
        var index := IndexInCoverMatrix(n, row, column, num);
        ghost var x := Candidate(row - 1, column - 1, num - 1);
        IndexIsEncode(n, x);
        EncodeBound(n, x);
        DecodeEncode(n, x);
        matrix[index, header] := true;
        forall i | 0 <= i < n * n * n
          ensures matrix[i, header] == (Decode(n, i).r == row - 1 && Decode(n, i).d == num - 1 && Decode(n, i).c < column)
        {
          EncodeDecode(n, i);
        }
        column := column + 1;
      }
      forall i | 0 <= i < n * n * n ensures matrix[i, header] == Bit(n, sectorSize, i, header) {
        RowKey(n, sectorSize, i, row - 1, num - 1);
        EncodeDecode(n, i);
      }
      ColumnDone(matrix, n, sectorSize, header);
    }

    /** The num loop of CreateRowConstraints for one row: one header per digit. */
    method RowConstraintsRow(matrix: array2<bool>, row: nat, header: nat) returns (next: nat)
      requires Shaped() && 1 <= row <= size && header == size * size + (row - 1) * size
      requires Marked(matrix, size, sectorSize, header)
      modifies matrix
      ensures next == size * size + row * size && Marked(matrix, size, sectorSize, next)
    {
      next := header;
      var num := 1;
      while num <= size
        invariant 1 <= num <= size + 1 && next == size * size + (row - 1) * size + (num - 1)
        invariant Marked(matrix, size, sectorSize, next)
      {
        MarkRow(matrix, row, num, next);
        num := num + 1;
        next := next + 1;
      }
      assert (row - 1) * size + size == row * size;
    }

    /** CreateRowConstraints: headers size^2 .. 2 size^2 - 1, one per (row, digit). */
    method CreateRowConstraints(matrix: array2<bool>, header: nat) returns (next: nat)
      requires Shaped() && header == size * size && Marked(matrix, size, sectorSize, header)
      modifies matrix
      ensures next == 2 * size * size && Marked(matrix, size, sectorSize, next)
    {
      next := header;
      var row := 1;
      while row <= size
        invariant 1 <= row <= size + 1 && next == size * size + (row - 1) * size
        invariant Marked(matrix, size, sectorSize, next)
      {
        next := RowConstraintsRow(matrix, row, next);
        row := row + 1;
      }
    }

    /**
     * The innermost loop of CreateColumnConstraints: for row = 1 .. size, a
     * 1 in column `header` for num in cell (row, column).
     */
    method MarkColumn(matrix: array2<bool>, column: nat, num: nat, header: nat)
      requires Shaped() && 1 <= column <= size && 1 <= num <= size && header == 2 * size * size + (column - 1) * size + (num - 1)
      requires Marked(matrix, size, sectorSize, header)
      modifies matrix
      ensures Marked(matrix, size, sectorSize, header + 1)
    {
      var n := size;
      Below(column - 1, num - 1, n);
      assert header < 4 * n * n;
      var row := 1;
      while row <= n
        invariant 1 <= row <= n + 1
        invariant MarkedBut(matrix, n, sectorSize, header)
        invariant forall i :: 0 <= i < n * n * n ==>
                    matrix[i, header] == (Decode(n, i).c == column - 1 && Decode(n, i).d == num - 1 && Decode(n, i).r < row - 1)
      {
        var index := IndexInCoverMatrix(n, row, column, num);
        ghost var x := Candidate(row - 1, column - 1, num - 1);
        IndexIsEncode(n, x);
        EncodeBound(n, x);
        DecodeEncode(n, x);
        matrix[index, header] := true;
        forall i | 0 <= i < n * n * n
          ensures matrix[i, header] == (Decode(n, i).c == column - 1 && Decode(n, i).d == num - 1 && Decode(n, i).r < row)
        {
          EncodeDecode(n, i);
        }
        row := row + 1;
      }
      forall i | 0 <= i < n * n * n ensures matrix[i, header] == Bit(n, sectorSize, i, header) {
        ColumnKey(n, sectorSize, i, column - 1, num - 1);
        EncodeDecode(n, i);
      }
      ColumnDone(matrix, n, sectorSize, header);
    }

    /** The num loop of CreateColumnConstraints for one column: one header per digit. */
    method ColumnConstraintsColumn(matrix: array2<bool>, column: nat, header: nat) returns (next: nat)
      requires Shaped() && 1 <= column <= size && header == 2 * size * size + (column - 1) * size
      requires Marked(matrix, size, sectorSize, header)
      modifies matrix
      ensures next == 2 * size * size + column * size && Marked(matrix, size, sectorSize, next)
    {
      next := header;
      var num := 1;
      while num <= size
        invariant 1 <= num <= size + 1 && next == 2 * size * size + (column - 1) * size + (num - 1)
        invariant Marked(matrix, size, sectorSize, next)
      {
        MarkColumn(matrix, column, num, next);
        num := num + 1;
        next := next + 1;
      }
      assert (column - 1) * size + size == column * size;
    }

    /** CreateColumnConstraints: headers 2 size^2 .. 3 size^2 - 1, one per (column, digit). */
    method CreateColumnConstraints(matrix: array2<bool>, header: nat) returns (next: nat)
      requires Shaped() && header == 2 * size * size && Marked(matrix, size, sectorSize, header)
      modifies matrix
      ensures next == 3 * size * size && Marked(matrix, size, sectorSize, next)
    {
      next := header;
      var column := 1;
      while column <= size
        invariant 1 <= column <= size + 1 && next == 2 * size * size + (column - 1) * size
        invariant Marked(matrix, size, sectorSize, next)
      {
        next := ColumnConstraintsColumn(matrix, column, next);
        column := column + 1;
      }
    }
 
    /**
     * The innermost loop of CreateBoxConstraints: for columnDelta = 0 ..
     * sectorSize - 1, a 1 in column `header` for num in cell
     * (row + rowDelta, column + columnDelta) of box (bi, bj).
     */
    method MarkBoxRow(matrix: array2<bool>, row: nat, column: nat, num: nat, rowDelta: nat, header: nat, ghost bi: nat, ghost bj: nat)
      requires Shaped() && bi < sectorSize && bj < sectorSize && row == 1 + bi * sectorSize && column == 1 + bj * sectorSize
      requires 1 <= num <= size && rowDelta < sectorSize && header == 3 * size * size + (bi * sectorSize + bj) * size + (num - 1)
      requires header < 4 * size * size
      requires MarkedBut(matrix, size, sectorSize, header)
      requires forall i :: 0 <= i < size * size * size ==> matrix[i, header] == BoxPart(size, sectorSize, i, bi, bj, num - 1, rowDelta, 0)
      modifies matrix
      ensures MarkedBut(matrix, size, sectorSize, header)
      ensures forall i :: 0 <= i < size * size * size ==> matrix[i, header] == BoxPart(size, sectorSize, i, bi, bj, num - 1, rowDelta + 1, 0)
    {
      var n, s := size, sectorSize;
      Below(bi, rowDelta, s);
      var columnDelta := 0;
      while columnDelta < s
        invariant columnDelta <= s
        invariant MarkedBut(matrix, n, s, header)
        invariant forall i :: 0 <= i < n * n * n ==> matrix[i, header] == BoxPart(n, s, i, bi, bj, num - 1, rowDelta, columnDelta)
      {
        var index := IndexInCoverMatrix(n, row + rowDelta, column + columnDelta, num);
        ghost var x := Candidate(bi * s + rowDelta, bj * s + columnDelta, num - 1);
        Below(bj, columnDelta, s);
        IndexIsEncode(n, x);
        EncodeBound(n, x);
        DecodeEncode(n, x);
        matrix[index, header] := true;
        forall i | 0 <= i < n * n * n ensures matrix[i, header] == BoxPart(n, s, i, bi, bj, num - 1, rowDelta, columnDelta + 1) {
          EncodeDecode(n, i);
          BoxStep(n, s, i, bi, bj, num - 1, rowDelta, columnDelta);
        }
        columnDelta := columnDelta + 1;
      }
      forall i | 0 <= i < n * n * n ensures matrix[i, header] == BoxPart(n, s, i, bi, bj, num - 1, rowDelta + 1, 0) {
        assert Decode(n, i).r % s < s;
      }
    }

    /** The rowDelta loop of CreateBoxConstraints: every cell of box (bi, bj), for num. */
    method MarkBox(matrix: array2<bool>, row: nat, column: nat, num: nat, header: nat, ghost bi: nat, ghost bj: nat)
      requires Shaped() && bi < sectorSize && bj < sectorSize && row == 1 + bi * sectorSize && column == 1 + bj * sectorSize
      requires 1 <= num <= size && header == 3 * size * size + (bi * sectorSize + bj) * size + (num - 1)
      requires Marked(matrix, size, sectorSize, header)
      modifies matrix
      ensures Marked(matrix, size, sectorSize, header + 1)
    {
      var n, s := size, sectorSize;
      BoxHeader(n, s, bi, bj, num - 1, header);
      var rowDelta := 0;
      while rowDelta < s
        invariant rowDelta <= s
        invariant MarkedBut(matrix, n, s, header)
        invariant forall i :: 0 <= i < n * n * n ==> matrix[i, header] == BoxPart(n, s, i, bi, bj, num - 1, rowDelta, 0)
      {
        MarkBoxRow(matrix, row, column, num, rowDelta, header, bi, bj);
        rowDelta := rowDelta + 1;
      }
      BoxDone(matrix, n, s, bi, bj, bi * s + bj, num - 1, header);
    }

    /** The num loop of CreateBoxConstraints for box (bi, bj): one header per digit. */
    method BoxConstraintsBox(matrix: array2<bool>, row: nat, column: nat, header: nat, ghost bi: nat, ghost bj: nat) returns (next: nat)
      requires Shaped() && bi < sectorSize && bj < sectorSize && row == 1 + bi * sectorSize && column == 1 + bj * sectorSize
      requires header == 3 * size * size + (bi * sectorSize + bj) * size
      requires Marked(matrix, size, sectorSize, header)
      modifies matrix
      ensures next == 3 * size * size + (bi * sectorSize + bj + 1) * size && Marked(matrix, size, sectorSize, next)
    {
      next := header;
      var num := 1;
      while num <= size
        invariant 1 <= num <= size + 1 && next == 3 * size * size + (bi * sectorSize + bj) * size + (num - 1)
        invariant Marked(matrix, size, sectorSize, next)
      {
        MarkBox(matrix, row, column, num, next, bi, bj);
        num := num + 1;
        next := next + 1;
      }
      assert (bi * sectorSize + bj) * size + size == (bi * sectorSize + bj + 1) * size;
    }

    /** The column loop of CreateBoxConstraints for box row bi: column steps by sectorSize. */
    method BoxConstraintsRow(matrix: array2<bool>, row: nat, header: nat, ghost bi: nat) returns (next: nat)
      requires Shaped() && bi < sectorSize && row == 1 + bi * sectorSize
      requires header == 3 * size * size + (bi * sectorSize) * size
      requires Marked(matrix, size, sectorSize, header)
      modifies matrix
      ensures next == 3 * size * size + ((bi + 1) * sectorSize) * size && Marked(matrix, size, sectorSize, next)
    {
      next := header;
      var column := 1;
      ghost var bj := 0;
      StepInside(sectorSize, bj);
      while column <= size
        invariant bj <= sectorSize && column == 1 + bj * sectorSize && (column <= size <==> bj < sectorSize)
        invariant next == 3 * size * size + (bi * sectorSize + bj) * size
        invariant Marked(matrix, size, sectorSize, next)
        decreases sectorSize - bj
      {
        next := BoxConstraintsBox(matrix, row, column, next, bi, bj);
        column := column + sectorSize;
        assert column == 1 + (bj + 1) * sectorSize;
        bj := bj + 1;
        StepInside(sectorSize, bj);
      }
      assert bi * sectorSize + sectorSize == (bi + 1) * sectorSize;
    }

    /** CreateBoxConstraints: headers 3 size^2 .. 4 size^2 - 1, one per (box, digit), boxes row after row. */
    method CreateBoxConstraints(matrix: array2<bool>, header: nat) returns (next: nat)
      requires Shaped() && header == 3 * size * size && Marked(matrix, size, sectorSize, header)
      modifies matrix
      ensures next == 4 * size * size && Marked(matrix, size, sectorSize, next)
    {
      next := header;
      var row := 1;
      ghost var bi := 0;
      StepInside(sectorSize, bi);
      while row <= size
        invariant bi <= sectorSize && row == 1 + bi * sectorSize && (row <= size <==> bi < sectorSize)
        invariant next == 3 * size * size + (bi * sectorSize) * size
        invariant Marked(matrix, size, sectorSize, next)
        decreases sectorSize - bi
      {
        next := BoxConstraintsRow(matrix, row, next, bi);
        row := row + sectorSize;
        assert row == 1 + (bi + 1) * sectorSize;
        bi := bi + 1;
        StepInside(sectorSize, bi);
      }
      assert next == 3 * size * size + size * size;
    }

    /** CreateMatrix: an all-0 matrix of size^3 rows and 4 size^2 columns, filled by the four builders in turn. */
    method CreateMatrix() returns (matrix: array2<bool>)
      requires Shaped()
      ensures fresh(matrix) && Marked(matrix, size, sectorSize, 4 * size * size)
    {
      matrix := new bool[size * size * size, size * size * 4]((i, j) => false);
      assert size * size * 4 == 4 * size * size;
      var header := 0;
      header := CreateCellConstraints(matrix, header);
      header := CreateRowConstraints(matrix, header);
      header := CreateColumnConstraints(matrix, header);
      header := CreateBoxConstraints(matrix, header);
    }

    /** The fillCol loop of ConvertBoardToMatrix: row fillRow cleared, every other row kept. */
    method ClearRow(matrix: array2<bool>, fillRow: nat)
      requires fillRow < matrix.Length0
      modifies matrix
      ensures forall i, h :: 0 <= i < matrix.Length0 && 0 <= h < matrix.Length1 ==> matrix[i, h] == (i != fillRow && old(matrix[i, h]))
    {
      var fillCol := 0;
      while fillCol < matrix.Length1
        invariant fillCol <= matrix.Length1
        invariant forall i, h :: 0 <= i < matrix.Length0 && 0 <= h < matrix.Length1 ==>
                    matrix[i, h] == (if i == fillRow && h < fillCol then false else old(matrix[i, h]))
      {
        matrix[fillRow, fillCol] := false;
        fillCol := fillCol + 1;
      }
    }

    /**
     * The num loop of ConvertBoardToMatrix for cell (row, column): when the
     * cell holds a value, the rows of every other digit are cleared.
     */
    method ConvertCell(matrix: array2<bool>, row: nat, column: nat, ghost g: seq<seq<int>>)
      requires Valid() && Shaped() && g == board.Values() && 1 <= row <= size && 1 <= column <= size
      requires Converted(matrix, g, size, sectorSize, IndexInCoverMatrix(size, row, column, 1))
      modifies matrix
      ensures Converted(matrix, g, size, sectorSize, IndexInCoverMatrix(size, row, column, 1) + size)
    {
      var n := size;
      var base := IndexInCoverMatrix(n, row, column, 1);
      IndexIsEncode(n, Candidate(row - 1, column - 1, 0));
      var currentNumber := board.Get(row - 1, column - 1).val;
      if currentNumber != 0 {
        var num := 1;
        while num <= n
          invariant 1 <= num <= n + 1
          invariant Converted(matrix, g, n, sectorSize, base + num - 1)
        {
          ConvertCandidate(matrix, row, column, num, currentNumber, g);
          num := num + 1;
        }
      } else {
        forall i | base <= i < base + n ensures i < n * n * n && Keep(g, n, i) {
          EmptyCellKept(g, n, row - 1, column - 1, base, i);
        }
      }
    }

    /** One turn of the num loop: the row of num in cell (row, column) is cleared unless num is the cell's value. */
    method ConvertCandidate(matrix: array2<bool>, row: nat, column: nat, num: nat, currentNumber: int, ghost g: seq<seq<int>>)
      requires Shaped() && Square(g, size) && 1 <= row <= size && 1 <= column <= size && 1 <= num <= size
      requires currentNumber == g[row - 1][column - 1] != 0
      requires Converted(matrix, g, size, sectorSize, IndexInCoverMatrix(size, row, column, num))
      modifies matrix
      ensures Converted(matrix, g, size, sectorSize, IndexInCoverMatrix(size, row, column, num) + 1)
    {
      ghost var x := Candidate(row - 1, column - 1, num - 1);
      IndexIsEncode(size, x);
      KeepAt(g, size, x);
      if num != currentNumber {
        var fillRow := IndexInCoverMatrix(size, row, column, num);
        ClearRow(matrix, fillRow);
      }
    }

    /** The column loop of ConvertBoardToMatrix for one row of the board. */
    method ConvertRow(matrix: array2<bool>, row: nat, ghost g: seq<seq<int>>)
      requires Valid() && Shaped() && g == board.Values() && 1 <= row <= size
      requires Converted(matrix, g, size, sectorSize, IndexInCoverMatrix(size, row, 1, 1))
      modifies matrix
      ensures Converted(matrix, g, size, sectorSize, IndexInCoverMatrix(size, row + 1, 1, 1))
    {
      var n := size;
      var column := 1;
      while column <= n
        invariant 1 <= column <= n + 1
        invariant Converted(matrix, g, n, sectorSize, IndexInCoverMatrix(n, row, column, 1))
      {
        ConvertCell(matrix, row, column, g);
        NextCell(n, row, column);
        column := column + 1;
      }
      NextRow(n, row);
    }

    /**
     * ConvertBoardToMatrix: the matrix of CreateMatrix with the rows of every
     * candidate that contradicts a value on the board cleared to 0s.
     */
    method ConvertBoardToMatrix() returns (matrix: array2<bool>)
      requires Valid() && Shaped()
      ensures fresh(matrix) && matrix.Length0 == size * size * size && matrix.Length1 == 4 * size * size
      ensures Grid(matrix) == SudokuMatrix(board.Values(), size, sectorSize)
    {
      matrix := CreateMatrix();
      ghost var g := board.Values();
      MarkedConverted(matrix, g, size, sectorSize);
      var row := 1;
      while row <= size
        invariant 1 <= row <= size + 1
        invariant Converted(matrix, g, size, sectorSize, IndexInCoverMatrix(size, row, 1, 1))
      {
        ConvertRow(matrix, row, g);
        row := row + 1;
      }
      ConvertedGrid(matrix, g, size, sectorSize);
    }

    /**
     * The walk of AddSolutionToBoard from a solution node: right along its
     * row until back at the node, keeping the node with the smallest column.
     */
    method FindRowColNode(dlx: DancingLinks, node: nat, ghost lo: nat, ghost hi: nat) returns (rowColNode: nat)
      requires lo <= node < hi <= dlx.arena.Col.Length && RingRight(dlx.arena.R, lo, hi)
      ensures lo <= rowColNode < hi
      ensures forall y :: lo <= y < hi ==> dlx.arena.Col[rowColNode] <= dlx.arena.Col[y]
    {
      ghost var col := dlx.arena.Col[..];
      rowColNode := node;
      var min := dlx.arena.Col[node];
      MinSoFarStart(col, lo, hi, node);
      var tmp := dlx.arena.R[node];
      ghost var t := 1;
      while tmp != node
        invariant 1 <= t <= hi - lo && tmp == if node + t < hi then node + t else node + t - (hi - lo)
        invariant lo <= rowColNode < hi && min == col[rowColNode]
        invariant MinSoFar(col, lo, hi, node, t, min)
        decreases hi - lo - t
      {
        MinSoFarStep(col, lo, hi, node, t, min, tmp);
        var val := dlx.arena.Col[tmp];
        if val < min {
          min := val;
          rowColNode := tmp;
        }
        tmp := dlx.arena.R[tmp];
        t := t + 1;
      }
      MinSoFarAll(col, lo, hi, node, min);
    }

    /**
     * AddSolutionToBoard: for each node of the cover, its row's cell column
     * gives the cell and its row column the digit, which is written into
     * the cell.
     */
    method AddSolutionToBoard(dlx: DancingLinks, solution: seq<nat>, ghost g: seq<seq<int>>)
      requires Valid() && Shaped() && g == board.Values()
      requires dlx.Valid() && RowLinks(dlx.arena.State(), dlx.lay) && DataNodes(dlx.lay, solution)
      requires RowsEncode(dlx.lay, SudokuMatrix(g, size, sectorSize), 4 * size * size)
      modifies board.cells
      ensures forall k :: 0 <= k < |solution| ==> InRange(size, Picks(size, RowsOfNodes(dlx.lay, solution))[k])
      ensures board.Values() == Placed(g, size, Picks(size, RowsOfNodes(dlx.lay, solution)))
    {
      ghost var lay := dlx.lay;
      var k := 0;
      while k < |solution|
        invariant k <= |solution|
        invariant board.Values() == Written(lay, g, size, sectorSize, solution, k)
      {
        var node := solution[k];
        AddNode(dlx, node, g);
        WrittenStep(lay, g, size, sectorSize, solution, k);
        k := k + 1;
      }
      PicksInRange(lay, g, size, sectorSize, solution);
      assert solution[..|solution|] == solution;
    }

    /** One turn of AddSolutionToBoard: the candidate of node's row written into its cell. */
    method AddNode(dlx: DancingLinks, node: nat, ghost g: seq<seq<int>>)
      requires Valid() && Shaped() && dlx.Valid() && RowLinks(dlx.arena.State(), dlx.lay) && dlx.lay.n < node < dlx.lay.count
      requires Square(g, size) && RowsEncode(dlx.lay, SudokuMatrix(g, size, sectorSize), 4 * size * size)
      modifies board.cells
      ensures InRange(size, Decode(size, dlx.lay.rowOf[node]))
      ensures var x := Decode(size, dlx.lay.rowOf[node]);
                board.Values() == Fill(old(board.Values()), size, x.r, x.c, x.d + 1)
    {
      ghost var x := Decode(size, dlx.lay.rowOf[node]);
      RowHead(dlx.lay, g, size, sectorSize, node);
      var row, col, num := CellOfNode(dlx, node, g, x);
      SetValue(row, col, num);
    }

    /**
     * The cell and value AddSolutionToBoard reads off a cover node: the
     * smallest column of the node's row names the cell, the next column the
     * digit.
     */
    method CellOfNode(dlx: DancingLinks, node: nat, ghost g: seq<seq<int>>, ghost x: Candidate) returns (row: nat, col: nat, num: int)
      requires Shaped() && dlx.Valid() && RowLinks(dlx.arena.State(), dlx.lay) && dlx.lay.n < node < dlx.lay.count
      requires Square(g, size) && RowsEncode(dlx.lay, SudokuMatrix(g, size, sectorSize), 4 * size * size)
      requires x == Decode(size, dlx.lay.rowOf[node]) && InRange(size, x)
      ensures row == x.r && col == x.c && num == x.d + 1
    {
      var n := size;
      ghost var lay := dlx.lay;
      ghost var lo, hi := lay.rowLo[lay.rowOf[node]], lay.rowHi[lay.rowOf[node]];
      RowRing(dlx, node, lo, hi);
      var rowColNode := FindRowColNode(dlx, node, lo, hi);
      RowHead(lay, g, n, sectorSize, node);
      SmallestIsFirst(lay, g, n, sectorSize, node, rowColNode);
      var ans := dlx.arena.Col[rowColNode];
      DivMod(ans, n, x.r, x.c);
      row := ans / n;
      col := ans % n;
      ans := dlx.arena.Col[dlx.arena.R[rowColNode]];
      RowColumnDigit(n, x);
      num := (ans % n) + 1;
    }

    /** `_board[row, col].Val = num`: the cell's value replaced, every other cell kept. */
    method SetValue(row: nat, col: nat, num: int)
      requires Valid() && row < size && col < size
      modifies board.cells
      ensures board.Values() == Fill(old(board.Values()), size, row, col, num)
    {
      ghost var before := board.Values();
      var cell := board.Get(row, col);
      board.Set(row, col, cell.(val := num));
      FillIs(before, board.Values(), size, row, col, num);
    }

    /**
     * Solve: the board as an exact-cover matrix, a Dancing Links search that
     * stops at NUMBER_OF_SOLUTIONS cover, and that cover written into the
     * board when one is found. The stopwatch reading is the parameter
     * solvingTime.
     */
    method Solve(solvingTime: int) returns (result: SolvingResult)
      requires Valid() && Shaped()
      requires 4 * size * size + 1 + (size * size * size) * (4 * size * size) < INT_MAX
      modifies board.cells
      ensures result.solvingTime == solvingTime
      ensures result.isSolved ==> Solved(board.Values(), size, sectorSize)
      ensures result.isSolved ==> forall r, c :: 0 <= r < size && 0 <= c < size && old(board.Values())[r][c] != 0 ==>
                board.Values()[r][c] == old(board.Values())[r][c]
      ensures !result.isSolved ==> board.Values() == old(board.Values())
    {
      ghost var g := board.Values();
      var matrix := ConvertBoardToMatrix();
      var dlx, dlxResult := SearchMatrix(matrix, g);
      if dlxResult.isSolved {
        var solution := dlxResult.allSolutions[0];
        CoverSolves(g, size, sectorSize, RowsOfNodes(dlx.lay, solution));
        AddSolutionToBoard(dlx, solution, g);
      }
      result := SolvingResult(solvingTime, dlxResult.isSolved);
    }

    /**
     * The search step of Solve: the Dancing Links structure of the matrix,
     * searched for NUMBER_OF_SOLUTIONS cover. A reported success comes with
     * a first recorded cover that is an exact cover of the Sudoku matrix.
     */
    method SearchMatrix(matrix: array2<bool>, ghost g: seq<seq<int>>) returns (dlx: DancingLinks, dlxResult: DancingLinksResult)
      requires Shaped() && Square(g, size) && matrix.Length0 == size * size * size && matrix.Length1 == 4 * size * size
      requires Grid(matrix) == SudokuMatrix(g, size, sectorSize)
      requires 4 * size * size + 1 + (size * size * size) * (4 * size * size) < INT_MAX
      ensures fresh(dlx) && fresh(dlx.arena) && fresh(dlx.arena.L) && fresh(dlx.arena.R) && fresh(dlx.arena.U) && fresh(dlx.arena.D) && fresh(dlx.arena.Size)
      ensures dlxResult.isSolved ==> |dlxResult.allSolutions| == 1
      ensures dlxResult.isSolved ==> dlx.Valid() && RowLinks(dlx.arena.State(), dlx.lay)
      ensures dlxResult.isSolved ==> RowsEncode(dlx.lay, SudokuMatrix(g, size, sectorSize), 4 * size * size)
      ensures dlxResult.isSolved ==> DataNodes(dlx.lay, dlxResult.allSolutions[0])
      ensures dlxResult.isSolved ==> MatrixCover(SudokuMatrix(g, size, sectorSize), 4 * size * size, RowsOfNodes(dlx.lay, dlxResult.allSolutions[0]))
    {
      MulPos(size * size, size);
      dlx := new DancingLinks(matrix, NUMBER_OF_SOLUTIONS);
      assert RowsEncode(dlx.lay, SudokuMatrix(g, size, sectorSize), 4 * size * size);
      dlxResult := dlx.Solve();
      if dlxResult.isSolved {
        FirstCover(dlx.lay, g, size, sectorSize, dlx.allSolutions);
      }
    }
  }

  /**
   * One turn of the solve test's loop: build the board from its string,
   * solve it with the Dancing Links solver and check the outcome with
   * IsSolved. The test's assertion holds exactly when the solver reports
   * success: a reported success always survives the IsSolved check, and
   * the board it leaves is a solution keeping every given of the string.
   * A string the board constructor rejects fails the test.
   */
  method SolveAndCheck(boardSize: nat, s: nat, boardString: string, solvingTime: int)
      returns (board: Result<ArraySudokuBoard, InvalidBoardString>, isSolved: bool, passed: bool)
    requires s > 0 && s * s == boardSize
    requires 4 * boardSize * boardSize + 1 + (boardSize * boardSize * boardSize) * (4 * boardSize * boardSize) < INT_MAX
    ensures passed == isSolved
    ensures passed ==> |boardString| == boardSize * boardSize && AllDigits(boardString)
    ensures passed ==> board.Success? && board.value.Valid() && board.value.boardSize == boardSize
                       && Solved(board.value.Values(), boardSize, s)
    ensures passed ==>
              && |boardString| == boardSize * boardSize
              && board.Success? && board.value.Valid() && board.value.boardSize == boardSize
              && forall r, c :: 0 <= r < boardSize && 0 <= c < boardSize && DigitGrid(boardSize, boardString)[r][c] != 0 ==>
                   board.value.Values()[r][c] == DigitGrid(boardSize, boardString)[r][c]
  {
    board := NewBoard(boardSize, boardString);
    if board.Failure? {
      return board, false, false;
    }
    var b := board.value;
    var solver := new DancingLinksSolver(b);
    IntSqrtOfSquare(s);
    var result := solver.Solve(solvingTime);
    var ok := IsSolved(b, s);
    isSolved := result.isSolved;
    passed := result.isSolved && ok;
  }
}
