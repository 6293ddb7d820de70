/**
 * The solved-board check of the test suite (SudokuSolveTest.IsSolved): every
 * row, every column and every box of an n x n board holds each of 1 .. n
 * exactly once. Scanning a line fails at the first value out of 1 .. n or
 * already seen in it.
 */
module SudokuSolveTest {
  import opened Board

  /** The values vs are each in 1 .. n and pairwise different. */
  ghost predicate Distinct1N(vs: seq<int>, n: int)
  {
    && (forall k :: 0 <= k < |vs| ==> 1 <= vs[k] <= n)
    && (forall k1, k2 :: 0 <= k1 < k2 < |vs| ==> vs[k1] != vs[k2])
  }

  /** The values vs are a permutation of 1 .. n. */
  ghost predicate Permutation1N(vs: seq<int>, n: nat)
  {
    multiset(vs) == multiset(Upto(n))
  }

  /** The numbers 1 .. n. */
  ghost function OneTo(n: nat): (S: set<int>)
    ensures |S| == n && forall v :: v in S <==> 1 <= v <= n
  {
    if n == 0 then {} else OneTo(n - 1) + {n}
  }

  /** A sequence without repeats, drawn from S, is no longer than S is large. */
  lemma {:induction false} DistinctWithin(vs: seq<int>, S: set<int>)
    requires forall k :: 0 <= k < |vs| ==> vs[k] in S
    requires forall k1, k2 :: 0 <= k1 < k2 < |vs| ==> vs[k1] != vs[k2]
    ensures |vs| <= |S|
    decreases |vs|
  {
    if vs != [] {
      var last := |vs| - 1;
      DistinctWithin(vs[..last], S - {vs[last]});
    }
  }

  /** n different values from 1 .. n take every value of 1 .. n. */
  lemma AllTaken(vs: seq<int>, n: nat, v: int)
    requires Distinct1N(vs, n) && |vs| == n && 1 <= v <= n
    ensures v in vs
  {
    if v !in vs {
      DistinctWithin(vs, OneTo(n) - {v});
    }
  }

  /** In a sequence without repeats every value occurs once or not at all. */
  lemma {:induction false} CountsOfDistinct(vs: seq<int>)
    requires forall k1, k2 :: 0 <= k1 < k2 < |vs| ==> vs[k1] != vs[k2]
    ensures forall x :: multiset(vs)[x] == if x in vs then 1 else 0
    decreases |vs|
  {
    if vs != [] {
      var last := |vs| - 1;
      CountsOfDistinct(vs[..last]);
      assert vs == vs[..last] + [vs[last]];
      assert vs[last] !in vs[..last];
    }
  }

  /** A value at two positions occurs at least twice. */
  lemma TwiceCounted(vs: seq<int>, k1: nat, k2: nat)
    requires k1 < k2 < |vs| && vs[k1] == vs[k2]
    ensures multiset(vs)[vs[k1]] >= 2
  {
    assert vs == vs[..k2] + [vs[k2]] + vs[k2 + 1..];
    assert vs[..k2][k1] == vs[k1];
  }

  /**
   * n values, each in 1 .. n and no two equal, are exactly a permutation of
   * 1 .. n, and the other way round.
   */
  lemma PermutationIff(vs: seq<int>, n: nat)
    ensures Distinct1N(vs, n) && |vs| == n <==> Permutation1N(vs, n)
  {
    var up := Upto(n);
    CountsOfDistinct(up);
    if Distinct1N(vs, n) && |vs| == n {
      CountsOfDistinct(vs);
      forall x ensures multiset(vs)[x] == multiset(up)[x] {
        if 1 <= x <= n {
          AllTaken(vs, n, x);
          assert up[x - 1] == x;
        }
      }
      assert multiset(vs) == multiset(up);
    }
    if Permutation1N(vs, n) {
      assert |vs| == |multiset(vs)| == |multiset(up)| == n;
      forall k | 0 <= k < |vs| ensures 1 <= vs[k] <= n {
        assert vs[k] in multiset(vs);
      }
      forall k1, k2 | 0 <= k1 < k2 < |vs| ensures vs[k1] != vs[k2] {
        if vs[k1] == vs[k2] {
          TwiceCounted(vs, k1, k2);
        }
      }
    }
  }

  /** The sequence 1, 2, .., n. */
  function Upto(n: nat): (r: seq<int>)
    ensures |r| == n && forall k :: 0 <= k < n ==> r[k] == k + 1
  {
    seq(n, k requires 0 <= k < n => k + 1)
  }

  /** The cells (i, 0) .. (i, n - 1) of row i. */
  function RowCells(n: nat, i: nat): (ps: seq<(nat, nat)>)
    ensures |ps| == n && forall k :: 0 <= k < n ==> ps[k] == (i, k)
  {
    seq(n, k requires 0 <= k < n => (i, k))
  }

  /** The cells (0, j) .. (n - 1, j) of column j. */
  function ColumnCells(n: nat, j: nat): (ps: seq<(nat, nat)>)
    ensures |ps| == n && forall k :: 0 <= k < n ==> ps[k] == (k, j)
  {
    seq(n, k requires 0 <= k < n => (k, j))
  }

  /** The cells of the s x s box with top left corner (i, j): cell k is (i + k / s, j + k % s). */
  function BoxCells(s: nat, i: nat, j: nat): (ps: seq<(nat, nat)>)
    requires s > 0
    ensures |ps| == s * s && forall k :: 0 <= k < s * s ==> ps[k] == (i + k / s, j + k % s)
  {
    seq(s * s, k requires 0 <= k < s * s => BoxPos(s, i, j, k))
  }

  /** Cell k of the s x s box with top left corner (i, j). */
  function BoxPos(s: nat, i: nat, j: nat, k: nat): (nat, nat)
    requires s > 0
  {
    (i + k / s, j + k % s)
  }

  /** Every cell of ps lies on an n x n board. */
  ghost predicate OnBoard(ps: seq<(nat, nat)>, n: nat)
  {
    forall k :: 0 <= k < |ps| ==> ps[k].0 < n && ps[k].1 < n
  }

  /** The values of the cells ps of grid g. */
  ghost function At(g: seq<seq<int>>, ps: seq<(nat, nat)>): (vs: seq<int>)
    requires forall k :: 0 <= k < |ps| ==> ps[k].0 < |g| && ps[k].1 < |g[ps[k].0]|
    ensures |vs| == |ps| && forall k :: 0 <= k < |ps| ==> vs[k] == g[ps[k].0][ps[k].1]
  {
    seq(|ps|, k requires 0 <= k < |ps| => g[ps[k].0][ps[k].1])
  }

  /** The box with top left corner (i, j) lies on the board. */
  lemma BoxOnBoard(s: nat, i: nat, j: nat)
    requires s > 0 && i + s <= s * s && j + s <= s * s
    ensures OnBoard(BoxCells(s, i, j), s * s)
  {
    forall k | 0 <= k < s * s ensures i + k / s < s * s && j + k % s < s * s {
      DivBound(s, k);
    }
  }

  lemma DivBound(s: nat, k: nat)
    requires s > 0 && k < s * s
    ensures k / s < s && k % s < s
  {
  }

  /**
   * The board g, n x n with s * s == n, is solved: every row, every column
   * and every s x s box holds each of 1 .. n once.
   */
  ghost predicate Solved(g: seq<seq<int>>, n: nat, s: nat)
    requires Square(g, n) && s * s == n
  {
    && (forall i :: 0 <= i < n ==> Distinct1N(At(g, RowCells(n, i)), n))
    && (forall j :: 0 <= j < n ==> Distinct1N(At(g, ColumnCells(n, j)), n))
    && (forall bi, bj :: 0 <= bi < s && 0 <= bj < s ==> BoxOK(g, s, bi, bj))
  }

  /** The box in box row bi and box column bj holds each of 1 .. s * s once. */
  ghost predicate BoxOK(g: seq<seq<int>>, s: nat, bi: nat, bj: nat)
    requires Square(g, s * s) && bi < s && bj < s
  {
    Distinct1N(BoxValues(g, s, bi, bj), s * s)
  }

  /** The values of the box in box row bi and box column bj, row by row. */
  ghost function BoxValues(g: seq<seq<int>>, s: nat, bi: nat, bj: nat): (vs: seq<int>)
    requires Square(g, s * s) && bi < s && bj < s
    ensures |vs| == s * s
  {
    BoxCorner(s, bi);
    BoxCorner(s, bj);
    BoxOnBoard(s, bi * s, bj * s);
    At(g, BoxCells(s, bi * s, bj * s))
  }

  /**
   * Solved, restated: every row, every column and every box is a permutation
   * of 1 .. n.
   */
  lemma SolvedIffPermutations(g: seq<seq<int>>, n: nat, s: nat)
    requires Square(g, n) && s * s == n
    ensures Solved(g, n, s) <==>
              && (forall i :: 0 <= i < n ==> Permutation1N(At(g, RowCells(n, i)), n))
              && (forall j :: 0 <= j < n ==> Permutation1N(At(g, ColumnCells(n, j)), n))
              && (forall bi, bj :: 0 <= bi < s && 0 <= bj < s ==> Permutation1N(BoxValues(g, s, bi, bj), n))
  {
    forall i | 0 <= i < n
      ensures Distinct1N(At(g, RowCells(n, i)), n) <==> Permutation1N(At(g, RowCells(n, i)), n)
    {
      PermutationIff(At(g, RowCells(n, i)), n);
    }
    forall j | 0 <= j < n
      ensures Distinct1N(At(g, ColumnCells(n, j)), n) <==> Permutation1N(At(g, ColumnCells(n, j)), n)
    {
      PermutationIff(At(g, ColumnCells(n, j)), n);
    }
    forall bi, bj | 0 <= bi < s && 0 <= bj < s
      ensures BoxOK(g, s, bi, bj) <==> Permutation1N(BoxValues(g, s, bi, bj), n)
    {
      PermutationIff(BoxValues(g, s, bi, bj), n);
    }
  }

  /** Box row b starts at b * s and ends inside the board. */
  lemma BoxCorner(s: nat, b: nat)
    requires b < s
    ensures s > 0 && b * s + s <= s * s
  {
    assert b * s + s == (b + 1) * s;
  }

  /**
   * IsSolved: scan every row, then every column, then every box, and answer
   * false at the first line with a value out of 1 .. n or seen twice.
   * The board is only read.
   */
  method IsSolved(board: ArraySudokuBoard, s: nat) returns (solved: bool)
    requires board.Valid() && s * s == board.boardSize
    ensures solved == Solved(board.Values(), board.boardSize, s)
  {
    var ok := CheckRows(board);
    if !ok {
      return false;
    }
    ok := CheckColumns(board);
    if !ok {
      return false;
    }
    solved := CheckBoxes(board, s);
  }

  /** The first loop of IsSolved: each row in turn. */
  method CheckRows(board: ArraySudokuBoard) returns (ok: bool)
    requires board.Valid()
    ensures ok <==> forall i :: 0 <= i < board.boardSize ==> Distinct1N(At(board.Values(), RowCells(board.boardSize, i)), board.boardSize)
  {
    var n := board.boardSize;
    var i := 0;
    while i < n
      invariant i <= n
      invariant forall i' :: 0 <= i' < i ==> Distinct1N(At(board.Values(), RowCells(n, i')), n)
    {
      ok := NoRepeats(board, RowCells(n, i));
      if !ok {
        return;
      }
      i := i + 1;
    }
    return true;
  }

  /** The second loop of IsSolved: each column in turn. */
  method CheckColumns(board: ArraySudokuBoard) returns (ok: bool)
    requires board.Valid()
    ensures ok <==> forall j :: 0 <= j < board.boardSize ==> Distinct1N(At(board.Values(), ColumnCells(board.boardSize, j)), board.boardSize)
  {
    var n := board.boardSize;
    var j := 0;
    while j < n
      invariant j <= n
      invariant forall j' :: 0 <= j' < j ==> Distinct1N(At(board.Values(), ColumnCells(n, j')), n)
    {
      ok := NoRepeats(board, ColumnCells(n, j));
      if !ok {
        return;
      }
      j := j + 1;
    }
    return true;
  }

  /** The third loop of IsSolved: the boxes, their corners s apart, row of boxes after row of boxes. */
  method CheckBoxes(board: ArraySudokuBoard, s: nat) returns (ok: bool)
    requires board.Valid() && s * s == board.boardSize
    ensures ok <==> forall bi, bj :: 0 <= bi < s && 0 <= bj < s ==> BoxOK(board.Values(), s, bi, bj)
  {
    var n := board.boardSize;
    var i := 0;
    ghost var bi := 0;
    while i < n
      invariant bi <= s && i == bi * s
      invariant forall bi', bj :: 0 <= bi' < bi && 0 <= bj < s ==> BoxOK(board.Values(), s, bi', bj)
      decreases s - bi
    {
      BoxCorner(s, bi);
      ok := CheckBoxRow(board, s, i, bi);
      if !ok {
        return;
      }
      i := i + s;
      bi := bi + 1;
    }
    assert bi == s by {
      if bi < s {
        BoxCorner(s, bi);
      }
    }
    return true;
  }

  /** The inner loop over the boxes of box row bi, whose top row is i. */
  method CheckBoxRow(board: ArraySudokuBoard, s: nat, i: nat, ghost bi: nat) returns (ok: bool)
    requires board.Valid() && s * s == board.boardSize && bi < s && i == bi * s
    ensures ok <==> forall bj :: 0 <= bj < s ==> BoxOK(board.Values(), s, bi, bj)
  {
    var n := board.boardSize;
    var j := 0;
    ghost var bj := 0;
    while j < n
      invariant bj <= s && j == bj * s
      invariant forall bj' :: 0 <= bj' < bj ==> BoxOK(board.Values(), s, bi, bj')
      decreases s - bj
    {
      BoxCorner(s, bj);
      BoxCorner(s, bi);
      BoxOnBoard(s, i, j);
      ok := NoRepeats(board, BoxCells(s, i, j));
      assert ok == BoxOK(board.Values(), s, bi, bj);
      if !ok {
        return;
      }
      j := j + s;
      bj := bj + 1;
    }
    assert bj == s by {
      if bj < s {
        BoxCorner(s, bj);
      }
    }
    return true;
  }

  /**
   * One line of IsSolved: a fresh `seen` array, then the values of the
   * cells ps in order; false at the first one out of 1 .. n or already seen.
   */
  method NoRepeats(board: ArraySudokuBoard, ps: seq<(nat, nat)>) returns (ok: bool)
    requires board.Valid() && OnBoard(ps, board.boardSize)
    ensures ok == Distinct1N(At(board.Values(), ps), board.boardSize)
  {
    var n := board.boardSize;
    ghost var vs := At(board.Values(), ps);
    var seen := new bool[n](_ => false);
    var k := 0;
    while k < |ps|
      invariant k <= |ps| && Distinct1N(vs[..k], n)
      invariant forall w :: 0 <= w < n ==> (seen[w] <==> w + 1 in vs[..k])
    {
      var v := board.Get(ps[k].0, ps[k].1).val;
      assert v == vs[k];
      if v < 1 || v > n || seen[v - 1] {
        RepeatFound(vs, n, k);
        return false;
      }
      seen[v - 1] := true;
      DistinctGrows(vs, n, k);
      k := k + 1;
    }
    assert vs[..k] == vs;
    return true;
  }

  /** A value out of 1 .. n, or one seen before, at position k spoils vs. */
  lemma RepeatFound(vs: seq<int>, n: int, k: nat)
    requires k < |vs| && (vs[k] < 1 || vs[k] > n || vs[k] in vs[..k])
    ensures !Distinct1N(vs, n)
  {
    if 1 <= vs[k] <= n {
      var k' :| 0 <= k' < k && vs[..k][k'] == vs[k];
      assert vs[k'] == vs[k];
    }
  }

  /** A new value in 1 .. n extends a prefix without repeats. */
  lemma DistinctGrows(vs: seq<int>, n: int, k: nat)
    requires k < |vs| && Distinct1N(vs[..k], n) && 1 <= vs[k] <= n && vs[k] !in vs[..k]
    ensures Distinct1N(vs[..k + 1], n) && vs[..k + 1] == vs[..k] + [vs[k]]
  {
    assert vs[..k + 1] == vs[..k] + [vs[k]];
    assert forall k1 :: 0 <= k1 < k ==> vs[..k][k1] != vs[k];
  }
}
