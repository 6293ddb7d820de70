/**
 * Algorithm X over the dancing-links arena: building the structure from a
 * 0/1 matrix, choosing the column with the fewest nodes, and the recursive
 * search that records every exact cover it reaches.
 */
module DancingLinks {
  import opened Wrappers
  import opened DancingLinksNode
  import opened DancingLinksColumnNode
  import opened DancingLinksBuild

  /** int.MaxValue, the minimum Choose starts from. */
  const INT_MAX: int := 0x7fff_ffff

  /** The position of c in A. */
  ghost function IndexOf(A: seq<nat>, c: nat): (k: nat)
    requires c in A
    ensures k < |A| && A[k] == c
    decreases |A|
  {
    if A[0] == c then 0 else 1 + IndexOf(A[1..], c)
  }

  /** The columns in which the matrix row of data node x has a 1. */
  ghost function RowCols(lay: Layout, x: nat): set<nat>
    requires LayoutOK(lay) && lay.n < x < lay.count
  {
    var r := lay.rowOf[x];
    set y | lay.rowLo[r] <= y < lay.rowHi[r] :: lay.col[y]
  }

  /** The columns covered by the rows of the data nodes T. */
  ghost function Covered(lay: Layout, T: seq<nat>): set<nat>
    requires LayoutOK(lay) && DataNodes(lay, T)
  {
    if T == [] then {} else RowCols(lay, T[0]) + Covered(lay, T[1..])
  }

  /**
   * T picks live rows (one data node of each) whose columns are pairwise
   * disjoint and together are exactly `cols`: an exact cover of `cols`.
   */
  ghost predicate ExactCover(lay: Layout, T: seq<nat>, cols: set<nat>, Rw: set<nat>)
  {
    && LayoutOK(lay) && DataNodes(lay, T)
    && (forall m :: 0 <= m < |T| ==> lay.rowOf[T[m]] in Rw)
    && (forall m1, m2 :: 0 <= m1 < m2 < |T| ==> RowCols(lay, T[m1]) !! RowCols(lay, T[m2]))
    && Covered(lay, T) == cols
  }

  /** Each picked row's columns are among the covered ones. */
  lemma {:induction false} CoveredHas(lay: Layout, T: seq<nat>, m: nat)
    requires LayoutOK(lay) && DataNodes(lay, T) && m < |T|
    ensures RowCols(lay, T[m]) <= Covered(lay, T)
    decreases m
  {
    if m > 0 {
      assert T[1..][m - 1] == T[m];
      CoveredHas(lay, T[1..], m - 1);
    }
  }

  /** Picking row x in front of an exact cover of the columns x leaves gives an exact cover. */
  lemma CoverCons(lay: Layout, x: nat, T: seq<nat>, cols: set<nat>, Rw: set<nat>, Rw': set<nat>)
    requires LayoutOK(lay) && lay.n < x < lay.count && lay.rowOf[x] in Rw && Rw' <= Rw
    requires RowCols(lay, x) <= cols && ExactCover(lay, T, cols - RowCols(lay, x), Rw')
    ensures ExactCover(lay, [x] + T, cols, Rw)
  {
    var T' := [x] + T;
    assert T'[1..] == T && T'[0] == x;
    assert Covered(lay, T') == RowCols(lay, x) + Covered(lay, T);
    ConsDisjoint(lay, x, T);
  }

  /** The rows of T stay pairwise disjoint with row x, which shares no column with them, in front. */
  lemma ConsDisjoint(lay: Layout, x: nat, T: seq<nat>)
    requires LayoutOK(lay) && lay.n < x < lay.count && DataNodes(lay, T)
    requires forall m1, m2 :: 0 <= m1 < m2 < |T| ==> RowCols(lay, T[m1]) !! RowCols(lay, T[m2])
    requires RowCols(lay, x) !! Covered(lay, T)
    ensures forall m1, m2 :: 0 <= m1 < m2 < |[x] + T| ==> RowCols(lay, ([x] + T)[m1]) !! RowCols(lay, ([x] + T)[m2])
  {
    var T' := [x] + T;
    forall m1, m2 | 0 <= m1 < m2 < |T'| ensures RowCols(lay, T'[m1]) !! RowCols(lay, T'[m2]) {
      if m1 == 0 {
        assert T'[m1] == x && T'[m2] == T[m2 - 1];
        CoveredHas(lay, T, m2 - 1);
      } else {
        assert T'[m1] == T[m1 - 1] && T'[m2] == T[m2 - 1];
      }
    }
  }

  /** A distinct sequence without its last element is distinct and misses it. */
  lemma DistinctPrefix(cs: seq<nat>)
    requires Distinct(cs) && cs != []
    ensures Distinct(cs[..|cs| - 1]) && cs[|cs| - 1] !in cs[..|cs| - 1]
  {
  }

  /** Cutting A[k] out of a distinct A leaves exactly the other elements. */
  lemma RemovedMembers(A: seq<nat>, k: nat)
    requires Distinct(A) && k < |A|
    ensures Elems(Removed(A, k)) == Elems(A) - {A[k]}
  {
    RemovedGone(A, k);
    forall y | y in A && y != A[k] ensures y in Removed(A, k) {
      RemovedKeeps(A, k, y);
    }
  }

  /** In a distinct sequence, cs[m] is not among the elements before it. */
  lemma NotBefore(cs: seq<nat>, m: nat)
    requires Distinct(cs) && m < |cs|
    ensures cs[m] !in Elems(cs[..m])
  {
  }

  /** The elements of a prefix one longer. */
  lemma PrefixNext(cs: seq<nat>, m: nat)
    requires m < |cs|
    ensures Elems(cs[..m + 1]) == Elems(cs[..m]) + {cs[m]}
  {
    assert cs[..m + 1] == cs[..m] + [cs[m]];
  }

  /** Taking one more element away. */
  lemma MinusStep(P: set<nat>, Q: set<nat>, B: set<nat>, c: nat)
    requires B == P - Q
    ensures B - {c} == P - (Q + {c})
  {
  }

  /** One level of the search: the links, the active column headers and the live matrix rows. */
  datatype Level = Level(links: Links, cols: seq<nat>, rows: set<nat>)

  /**
   * The structure invariant at a level. It is written as a match so that the
   * verifier keeps it as one fact where it is passed along unchanged.
   */
  ghost predicate LevelOK(lay: Layout, v: Level)
  {
    match v
    case Level(s, A, Rw) => Inv(s, lay, A, Rw)
  }

  /** The nodes below active column c's header: the live nodes of that column. */
  ghost function LiveRing(lay: Layout, A: seq<nat>, Rw: set<nat>, c: nat): seq<nat>
  {
    if LayoutOK(lay) && c in A then ActiveRing(lay, A, Rw, IndexOf(A, c)) else []
  }

  /**
   * Covering active column c: the new links, active headers and live rows.
   * Outside the structure invariant nothing is covered.
   */
  ghost function CoverOne(lay: Layout, v: Level, c: nat): Level
  {
    if LevelOK(lay, v) && c in v.cols then
      InvCoverArgs(v.links, lay, v.cols, v.rows, IndexOf(v.cols, c));
      var ring := LiveRing(lay, v.cols, v.rows, c);
      Level(CoverFn(v.links, lay, c, ring), Removed(v.cols, IndexOf(v.cols, c)), v.rows - RowsOf(lay, ring))
    else
      v
  }

  /** Covering an active column keeps the invariant, takes rows out and leaves the other columns active. */
  lemma CoverOneKeeps(lay: Layout, v: Level, c: nat)
    requires LevelOK(lay, v) && c in v.cols
    ensures LevelOK(lay, CoverOne(lay, v, c))
    ensures CoverOne(lay, v, c).rows <= v.rows
    ensures |CoverOne(lay, v, c).cols| + 1 == |v.cols|
    ensures Elems(CoverOne(lay, v, c).cols) == Elems(v.cols) - {c}
  {
    var k := IndexOf(v.cols, c);
    CoverKeepsInv(v.links, lay, v.cols, v.rows, k);
    DistinctTail(lay.n, v.cols);
    RemovedMembers(v.cols, k);
  }

  /** The columns cs are distinct active columns: they can be covered one after the other. */
  ghost predicate Coverable(A: seq<nat>, cs: seq<nat>)
  {
    Distinct(cs) && Elems(cs) <= Elems(A)
  }

  /**
   * The level reached after covering the first m columns of cs one after
   * the other, as Search does for the other nodes of a chosen row.
   */
  ghost function CoverAll(lay: Layout, v: Level, cs: seq<nat>, m: nat): Level
    requires m <= |cs|
    decreases m
  {
    if m == 0 then v else CoverOne(lay, CoverAll(lay, v, cs, m - 1), cs[m - 1])
  }

  /**
   * After covering cs[..m] from level v: the structure invariant holds, rows
   * were only taken out, and exactly the columns of v outside cs[..m] are active.
   */
  ghost predicate Reached(lay: Layout, v: Level, cs: seq<nat>, m: nat)
    requires m <= |cs|
  {
    match CoverAll(lay, v, cs, m)
    case Level(s, A, Rw) =>
      Inv(s, lay, A, Rw) && Rw <= v.rows && |A| + m == |v.cols| && Elems(A) == Elems(v.cols) - Elems(cs[..m])
  }

  /** Covering cs[m] after cs[..m] keeps the invariant and takes one more column out (m1 is m + 1). */
  lemma CoverNext(lay: Layout, v: Level, cs: seq<nat>, m: nat, m1: nat)
    requires m1 == m + 1 <= |cs| && Coverable(v.cols, cs) && Reached(lay, v, cs, m)
    ensures Reached(lay, v, cs, m1)
  {
    PrefixNext(cs, m);
    var p := CoverAll(lay, v, cs, m);
    NotBefore(cs, m);
    assert cs[m] in Elems(cs);
    assert cs[m] in Elems(p.cols);
    CoverOneKeeps(lay, p, cs[m]);
    MinusStep(Elems(v.cols), Elems(cs[..m]), Elems(p.cols), cs[m]);
  }

  /** Nothing covered yet: the level itself. */
  lemma ReachedStart(lay: Layout, v: Level, cs: seq<nat>)
    requires LevelOK(lay, v)
    ensures Reached(lay, v, cs, 0)
  {
    assert Elems(cs[..0]) == {};
    assert CoverAll(lay, v, cs, 0) == v;
  }

  /**
   * Covering distinct active columns one after the other keeps the structure
   * invariant, only takes rows out, and leaves exactly the other columns active.
   */
  lemma {:induction false} CoverAllKeeps(lay: Layout, v: Level, cs: seq<nat>, m: nat)
    requires LevelOK(lay, v) && Coverable(v.cols, cs) && m <= |cs|
    ensures Reached(lay, v, cs, m)
    decreases m, 1
  {
    if m == 0 {
      ReachedStart(lay, v, cs);
    } else {
      CoverAllStep(lay, v, cs, m - 1, m);
    }
  }

  /** The induction step of CoverAllKeeps (m1 is m + 1). */
  lemma {:induction false} CoverAllStep(lay: Layout, v: Level, cs: seq<nat>, m: nat, m1: nat)
    requires LevelOK(lay, v) && Coverable(v.cols, cs) && m1 == m + 1 <= |cs|
    ensures Reached(lay, v, cs, m1)
    decreases m1, 0
  {
    CoverAllKeeps(lay, v, cs, m);
    CoverNext(lay, v, cs, m, m1);
  }

  /** Before covering cs[m], the level reached is sound and cs[m] is still active there. */
  lemma NextActive(lay: Layout, v: Level, cs: seq<nat>, m: nat)
    requires LevelOK(lay, v) && Coverable(v.cols, cs) && m < |cs|
    ensures LevelOK(lay, CoverAll(lay, v, cs, m)) && cs[m] in CoverAll(lay, v, cs, m).cols
  {
    CoverAllKeeps(lay, v, cs, m);
    NotBefore(cs, m);
    assert cs[m] in Elems(cs);
    assert cs[m] in Elems(CoverAll(lay, v, cs, m).cols);
  }

  /**
   * At a sound level, covering active column c: the arguments Cover needs
   * hold, Cover's result is CoverOne's links, and Uncover right after it
   * gives the links back.
   */
  lemma CoverOneLinks(lay: Layout, p: Level, c: nat, ring: seq<nat>)
    requires LevelOK(lay, p) && c in p.cols && ring == LiveRing(lay, p.cols, p.rows, c)
    ensures CoverArgs(p.links, lay, c, ring) && RowsAscending(lay)
    ensures CoverFn(p.links, lay, c, ring) == CoverOne(lay, p, c).links
    ensures CoverArgs(CoverOne(lay, p, c).links, lay, c, ring)
    ensures UncoverFn(CoverOne(lay, p, c).links, lay, c, ring) == p.links
  {
    UncoverAfterCover(p.links, lay, p.cols, p.rows, IndexOf(p.cols, c));
  }

  /**
   * Covering cs[m] after cs[..m]: the arguments Cover needs hold, and
   * Cover's result is the links of the next level (m1 is m + 1).
   */
  lemma CoverColumnStep(lay: Layout, v: Level, cs: seq<nat>, m: nat, m1: nat, ring: seq<nat>)
    requires LevelOK(lay, v) && Coverable(v.cols, cs) && m1 == m + 1 <= |cs|
    requires ring == LiveRing(lay, CoverAll(lay, v, cs, m).cols, CoverAll(lay, v, cs, m).rows, cs[m])
    ensures CoverArgs(CoverAll(lay, v, cs, m).links, lay, cs[m], ring) && RowsAscending(lay)
    ensures CoverFn(CoverAll(lay, v, cs, m).links, lay, cs[m], ring) == CoverAll(lay, v, cs, m1).links
  {
    NextActive(lay, v, cs, m);
    CoverOneLinks(lay, CoverAll(lay, v, cs, m), cs[m], ring);
    assert CoverAll(lay, v, cs, m1) == CoverOne(lay, CoverAll(lay, v, cs, m), cs[m]);
  }

  /**
   * Uncovering cs[m] at the level after cs[..m + 1]: the arguments Uncover
   * needs hold, and Uncover gives back the links of the level before (m1 is m + 1).
   */
  lemma UncoverColumnStep(lay: Layout, v: Level, cs: seq<nat>, m: nat, m1: nat, ring: seq<nat>)
    requires LevelOK(lay, v) && Coverable(v.cols, cs) && m1 == m + 1 <= |cs|
    requires ring == LiveRing(lay, CoverAll(lay, v, cs, m).cols, CoverAll(lay, v, cs, m).rows, cs[m])
    ensures CoverArgs(CoverAll(lay, v, cs, m1).links, lay, cs[m], ring) && RowsAscending(lay)
    ensures UncoverFn(CoverAll(lay, v, cs, m1).links, lay, cs[m], ring) == CoverAll(lay, v, cs, m).links
  {
    NextActive(lay, v, cs, m);
    CoverOneLinks(lay, CoverAll(lay, v, cs, m), cs[m], ring);
    assert CoverAll(lay, v, cs, m1) == CoverOne(lay, CoverAll(lay, v, cs, m), cs[m]);
  }

  /** At every level reached by covering, each row keeps its horizontal links. */
  lemma CoverAllRowLinks(lay: Layout, v: Level, cs: seq<nat>, m: nat, x: nat)
    requires LevelOK(lay, v) && Coverable(v.cols, cs) && m <= |cs| && lay.n < x < lay.count
    ensures |CoverAll(lay, v, cs, m).links.L| == |lay.col|
    ensures CoverAll(lay, v, cs, m).links.L[x] == RowPrev(lay, x)
  {
    CoverAllKeeps(lay, v, cs, m);
  }

  /** Cover leaves every row's horizontal links alone. */
  lemma CoverKeepsRow(s: Links, lay: Layout, c: nat, ring: seq<nat>, x: nat)
    requires CoverArgs(s, lay, c, ring) && RowsAscending(lay) && lay.n < x < lay.count
    ensures |CoverFn(s, lay, c, ring).R| == |lay.col| && CoverFn(s, lay, c, ring).R[x] == RowNext(lay, x)
  {
    CoverLinks(s, lay, c, ring);
  }

  /** Uncover leaves every row's horizontal links alone. */
  lemma UncoverKeepsRow(s: Links, lay: Layout, c: nat, ring: seq<nat>, x: nat)
    requires CoverArgs(s, lay, c, ring) && lay.n < x < lay.count
    ensures |UncoverFn(s, lay, c, ring).L| == |lay.col| && UncoverFn(s, lay, c, ring).L[x] == RowPrev(lay, x)
  {
    CoverArgsSteppable(s, lay, c, ring);
  }

  /** Walking Right from row: the first node met, and it is not row itself. */
  lemma RowAfterStart(lay: Layout, row: nat)
    requires LayoutOK(lay) && lay.n < row < lay.count
    ensures RowNext(lay, row) == if 0 < |RowAfter(lay, row)| then RowAfter(lay, row)[0] else row
    ensures 0 < |RowAfter(lay, row)| ==> RowAfter(lay, row)[0] != row
  {
    RowAfterNext(lay, row);
    RowAfterMembers(lay, row);
  }

  /** Walking Right from the m-th node after row meets the next one, or row after the last (m1 is m + 1). */
  lemma RowAfterStep(lay: Layout, row: nat, m: nat, m1: nat)
    requires LayoutOK(lay) && lay.n < row < lay.count && m1 == m + 1 <= |RowAfter(lay, row)|
    ensures lay.n < RowAfter(lay, row)[m] < lay.count
    ensures RowNext(lay, RowAfter(lay, row)[m]) == if m1 < |RowAfter(lay, row)| then RowAfter(lay, row)[m1] else row
    ensures m1 < |RowAfter(lay, row)| ==> RowAfter(lay, row)[m1] != row
  {
    RowAfterNext(lay, row);
    RowAfterMembers(lay, row);
  }

  /** Walking Left from row: the last node after it, and it is not row itself. */
  lemma RowBeforeStart(lay: Layout, row: nat)
    requires LayoutOK(lay) && lay.n < row < lay.count
    ensures RowPrev(lay, row) == if 0 < |RowAfter(lay, row)| then RowAfter(lay, row)[|RowAfter(lay, row)| - 1] else row
    ensures 0 < |RowAfter(lay, row)| ==> RowAfter(lay, row)[|RowAfter(lay, row)| - 1] != row
  {
    RowAfterPrev(lay, row);
    RowAfterMembers(lay, row);
  }

  /** Walking Left from the m-th node after row meets the one before it, or row from the first. */
  lemma RowBeforeStep(lay: Layout, row: nat, m: nat)
    requires LayoutOK(lay) && lay.n < row < lay.count && m < |RowAfter(lay, row)|
    ensures lay.n < RowAfter(lay, row)[m] < lay.count
    ensures RowPrev(lay, RowAfter(lay, row)[m]) == if 0 < m then RowAfter(lay, row)[m - 1] else row
    ensures 0 < m ==> RowAfter(lay, row)[m - 1] != row
  {
    RowPrevAt(lay, row, m);
    RowAfterMembers(lay, row);
  }

  /** The columns of the other nodes of data node i's row, in the order a walk to the Right meets them. */
  ghost function RowColumns(lay: Layout, i: nat): (cs: seq<nat>)
    requires LayoutOK(lay) && lay.n < i < lay.count
    ensures |cs| == |RowAfter(lay, i)|
    ensures forall m :: 0 <= m < |cs| ==> cs[m] == lay.col[RowAfter(lay, i)[m]]
  {
    RowAfterMembers(lay, i);
    ColsOf(lay, RowAfter(lay, i))
  }

  /** The Size of each header of A, in ring order. */
  ghost function ColumnSizes(s: Links, A: seq<nat>): (sz: seq<int>)
    requires forall i :: 0 <= i < |A| ==> A[i] < |s.Size|
    ensures |sz| == |A| && forall i :: 0 <= i < |A| ==> sz[i] == s.Size[A[i]]
  {
    seq(|A|, i requires 0 <= i < |A| => s.Size[A[i]])
  }

  /**
   * Position k holds the column Choose picks: a size below int.MaxValue,
   * strictly smaller than every size before it and no larger than any after it.
   */
  ghost predicate FirstMin(sz: seq<int>, k: nat)
  {
    && k < |sz| && sz[k] < INT_MAX
    && (forall i :: 0 <= i < k ==> sz[k] < sz[i])
    && (forall i :: k < i < |sz| ==> sz[k] <= sz[i])
  }

  /** At most one position is the first minimum. */
  lemma FirstMinUnique(sz: seq<int>, k1: nat, k2: nat)
    requires FirstMin(sz, k1) && FirstMin(sz, k2)
    ensures k1 == k2
  {
  }

  /**
   * Choose's scan over the first j sizes: the running minimum, starting
   * from int.MaxValue, and the position where it was last lowered.
   */
  ghost function Scan(sz: seq<int>, j: nat): (r: (int, Option<nat>))
    requires j <= |sz|
    ensures r.1.Some? ==> r.1.value < j
    decreases j
  {
    if j == 0 then (INT_MAX, None)
    else
      var p := Scan(sz, j - 1);
      if sz[j - 1] < p.0 then (sz[j - 1], Some(j - 1)) else p
  }

  /**
   * The scan finds nothing exactly when every size is at least int.MaxValue,
   * and otherwise it ends at the first minimum.
   */
  lemma {:induction false} ScanFacts(sz: seq<int>, j: nat)
    requires j <= |sz|
    ensures Scan(sz, j).1.None? <==> forall i :: 0 <= i < j ==> sz[i] >= INT_MAX
    ensures Scan(sz, j).1.None? ==> Scan(sz, j).0 == INT_MAX
    ensures Scan(sz, j).1.Some? ==> Scan(sz, j).0 == sz[Scan(sz, j).1.value] && FirstMin(sz[..j], Scan(sz, j).1.value)
    decreases j
  {
    if j > 0 {
      ScanFacts(sz, j - 1);
    }
  }

  /** In a sequence without repetitions, the position of A[k] is k. */
  lemma IndexOfAt(A: seq<nat>, k: nat)
    requires Distinct(A) && k < |A|
    ensures IndexOf(A, A[k]) == k
  {
    var j := IndexOf(A, A[k]);
    assert A[j] == A[k];
  }

  /** The header ring is empty, head.Right == head, exactly when no column is active. */
  lemma HeadEmpty(lay: Layout, v: Level)
    requires LevelOK(lay, v)
    ensures lay.n < |v.links.R| && (v.links.R[lay.n] == lay.n <==> v.cols == [])
  {
    ColumnHead(v.links.R, v.links.L, lay.n, v.cols);
    DistinctTail(lay.n, v.cols);
    if v.cols != [] {
      assert v.cols[0] in v.cols;
    }
  }

  /** A column holds at most as many nodes as there are ids below hi. */
  lemma {:induction false} NodesLength(lay: Layout, c: nat, P: set<nat>, hi: nat)
    requires hi <= |lay.col|
    ensures |Nodes(lay, c, P, hi)| <= hi
    decreases hi
  {
    if hi > lay.n + 1 {
      NodesLength(lay, c, P, hi - 1);
    }
  }

  /**
   * At a sound level Choose may run over the active headers, and every
   * active column's Size is at most the number of nodes, so below int.MaxValue.
   */
  lemma ChooseArgs(lay: Layout, v: Level)
    requires LevelOK(lay, v)
    ensures Ring(v.links.R, v.links.L, [lay.n] + v.cols) && Distinct(v.cols)
    ensures lay.n < |v.links.Size| && forall i :: 0 <= i < |v.cols| ==> v.cols[i] < lay.n
    ensures forall i :: 0 <= i < |v.cols| ==> v.links.Size[v.cols[i]] <= lay.count
  {
    DistinctTail(lay.n, v.cols);
    forall i | 0 <= i < |v.cols| ensures v.links.Size[v.cols[i]] <= lay.count {
      assert v.cols[i] in v.cols;
      NodesLength(lay, v.cols[i], Live(lay, v.rows), lay.count);
    }
  }

  /** The nodes below an active header are data nodes, and the header is not one. */
  lemma LiveRingNodes(lay: Layout, v: Level, c: nat)
    requires LevelOK(lay, v) && c in v.cols
    ensures c < lay.n && DataNodes(lay, LiveRing(lay, v.cols, v.rows, c))
  {
  }

  /** With an active column, some active Size is below int.MaxValue, so Choose finds a column. */
  lemma ChooseSome(lay: Layout, v: Level)
    requires LevelOK(lay, v) && v.cols != [] && lay.count < INT_MAX
    ensures Ring(v.links.R, v.links.L, [lay.n] + v.cols) && Distinct(v.cols)
    ensures lay.n < |v.links.Size| && forall i :: 0 <= i < |v.cols| ==> v.cols[i] < lay.n
    ensures !forall i :: 0 <= i < |v.cols| ==> v.links.Size[v.cols[i]] >= INT_MAX
  {
    ChooseArgs(lay, v);
  }

  /** A row's columns: the chosen node's own and those met walking Right from it. */
  lemma RowColsSplit(lay: Layout, row: nat)
    requires LayoutOK(lay) && lay.n < row < lay.count
    ensures RowCols(lay, row) == {lay.col[row]} + Elems(RowColumns(lay, row))
  {
    var r := lay.rowOf[row];
    var cs := RowColumns(lay, row);
    forall x | lay.rowLo[r] <= x < lay.rowHi[r] && x != row ensures lay.col[x] in Elems(cs) {
      RowNodeColumn(lay, row, x);
    }
    forall m | 0 <= m < |cs| ensures cs[m] in RowCols(lay, row) {
      RowColumnAt(lay, row, m);
    }
  }

  /** Another node x of row's row has its column among RowColumns. */
  lemma RowNodeColumn(lay: Layout, row: nat, x: nat)
    requires LayoutOK(lay) && lay.n < row < lay.count
    requires lay.rowLo[lay.rowOf[row]] <= x < lay.rowHi[lay.rowOf[row]] && x != row
    ensures lay.col[x] in Elems(RowColumns(lay, row))
  {
    var ra := RowAfter(lay, row);
    RowAfterMembers(lay, row);
    assert x in ra;
    var m :| 0 <= m < |ra| && ra[m] == x;
    assert RowColumns(lay, row)[m] == lay.col[x];
  }

  /** The m-th of RowColumns is a column of the row. */
  lemma RowColumnAt(lay: Layout, row: nat, m: nat)
    requires LayoutOK(lay) && lay.n < row < lay.count && m < |RowAfter(lay, row)|
    ensures RowColumns(lay, row)[m] in RowCols(lay, row)
  {
    var ra := RowAfter(lay, row);
    RowAfterMembers(lay, row);
    assert ra[m] in ra;
  }

  /**
   * For a live row whose node lies in column c: its columns are active, the
   * other ones can be covered after c, and doing so leaves exactly the active
   * columns outside the row.
   */
  lemma RowColumnsCoverable(lay: Layout, row: nat, A: seq<nat>, Rw: set<nat>, A1: seq<nat>)
    requires LayoutOK(lay) && RowsAscending(lay) && lay.n < row < lay.count && lay.rowOf[row] in Rw
    requires RowsInside(lay, A, Rw) && Elems(A1) == Elems(A) - {lay.col[row]}
    ensures RowCols(lay, row) <= Elems(A)
    ensures Coverable(A1, RowColumns(lay, row))
    ensures Elems(A1) - Elems(RowColumns(lay, row)) == Elems(A) - RowCols(lay, row)
  {
    var cs := RowColumns(lay, row);
    RowColsSplit(lay, row);
    RowColsActive(lay, row, A, Rw);
    RowColumnsDistinct(lay, row);
    RowAfterCols(lay, row);
    assert lay.col[row] !in Elems(cs);
  }

  /** The columns of a live row are active. */
  lemma RowColsActive(lay: Layout, row: nat, A: seq<nat>, Rw: set<nat>)
    requires LayoutOK(lay) && lay.n < row < lay.count && lay.rowOf[row] in Rw && RowsInside(lay, A, Rw)
    ensures RowCols(lay, row) <= Elems(A)
  {
    var r := lay.rowOf[row];
    forall y | y in RowCols(lay, row) ensures y in Elems(A) {
      var x :| lay.rowLo[r] <= x < lay.rowHi[r] && lay.col[x] == y;
    }
  }

  /** The other nodes of a row lie in pairwise different columns. */
  lemma RowColumnsDistinct(lay: Layout, row: nat)
    requires LayoutOK(lay) && RowsAscending(lay) && lay.n < row < lay.count
    ensures Distinct(RowColumns(lay, row))
  {
    var ra := RowAfter(lay, row);
    var cs := RowColumns(lay, row);
    RowAfterFacts(lay, row);
    forall p, q | 0 <= p < q < |cs| ensures cs[p] != cs[q] {
      assert ra[p] in ra && ra[q] in ra;
    }
  }

  /**
   * The j-th node below the chosen column c is a live row whose columns are
   * active, and covering its other columns after c is possible.
   */
  lemma RowChoice(lay: Layout, v: Level, c: nat, ring: seq<nat>, j: nat)
    requires LevelOK(lay, v) && c in v.cols && ring == LiveRing(lay, v.cols, v.rows, c) && j < |ring|
    ensures lay.n < ring[j] < lay.count && lay.rowOf[ring[j]] in v.rows
    ensures RowCols(lay, ring[j]) <= Elems(v.cols)
    ensures Coverable(CoverOne(lay, v, c).cols, RowColumns(lay, ring[j]))
    ensures Elems(CoverOne(lay, v, c).cols) - Elems(RowColumns(lay, ring[j])) == Elems(v.cols) - RowCols(lay, ring[j])
  {
    CoverOneKeeps(lay, v, c);
    assert ring[j] in Live(lay, v.rows);
    RowColumnsCoverable(lay, ring[j], v.cols, v.rows, CoverOne(lay, v, c).cols);
  }

  /** Covering all the other columns of a row: the level is sound, with exactly the other columns left. */
  lemma CoverRowKeeps(lay: Layout, v: Level, cs: seq<nat>)
    requires LevelOK(lay, v) && Coverable(v.cols, cs)
    ensures LevelOK(lay, CoverAll(lay, v, cs, |cs|))
    ensures CoverAll(lay, v, cs, |cs|).rows <= v.rows
    ensures |CoverAll(lay, v, cs, |cs|).cols| + |cs| == |v.cols|
    ensures Elems(CoverAll(lay, v, cs, |cs|).cols) == Elems(v.cols) - Elems(cs)
  {
    CoverAllKeeps(lay, v, cs, |cs|);
    assert cs[..|cs|] == cs;
  }

  /**
   * allSolutions grew from `before` to `after`, and every entry added extends
   * the current path `base` by an exact cover of `cols` with rows from Rw.
   */
  ghost predicate Recorded(lay: Layout, before: seq<seq<nat>>, after: seq<seq<nat>>, base: seq<nat>, cols: set<nat>, Rw: set<nat>)
  {
    && |before| <= |after| && after[..|before|] == before
    && forall j :: |before| <= j < |after| ==> base <= after[j] && ExactCover(lay, after[j][|base|..], cols, Rw)
  }

  /**
   * The number of recorded solutions went from p to a without passing the
   * target N on the way, and `found` says that the last one reached it.
   */
  ghost predicate Stops(p: nat, a: nat, N: int, found: bool)
  {
    p <= a && !(p < N < a) && (found <==> p < a == N)
  }

  /** Nothing recorded. */
  lemma RecordedNone(lay: Layout, sols: seq<seq<nat>>, base: seq<nat>, cols: set<nat>, Rw: set<nat>)
    ensures Recorded(lay, sols, sols, base, cols, Rw)
  {
    assert sols[..|sols|] == sols;
  }

  /** With no column left, the current path itself is recorded: it covers nothing more. */
  lemma RecordedPath(lay: Layout, sols: seq<seq<nat>>, base: seq<nat>, A: seq<nat>, Rw: set<nat>)
    requires LayoutOK(lay) && A == []
    ensures Recorded(lay, sols, sols + [base], base, Elems(A), Rw)
  {
    var after := sols + [base];
    assert after[..|sols|] == sols;
    assert after[|sols|][|base|..] == [];
    assert Elems(A) == {};
  }

  /** Two stretches of recording, one after the other. */
  lemma RecordedTrans(lay: Layout, a: seq<seq<nat>>, b: seq<seq<nat>>, c: seq<seq<nat>>, base: seq<nat>, cols: set<nat>, Rw: set<nat>)
    requires Recorded(lay, a, b, base, cols, Rw) && Recorded(lay, b, c, base, cols, Rw)
    ensures Recorded(lay, a, c, base, cols, Rw)
  {
    assert c[..|a|] == c[..|b|][..|a|];
    forall j | |a| <= j < |c| ensures base <= c[j] && ExactCover(lay, c[j][|base|..], cols, Rw) {
      if j < |b| {
        assert c[j] == b[j];
      }
    }
  }

  /**
   * Covers recorded below row x, of the columns x leaves, are covers of
   * all the columns once x is put in front.
   */
  lemma RecordedLift(lay: Layout, before: seq<seq<nat>>, after: seq<seq<nat>>, base: seq<nat>, x: nat,
                     cols: set<nat>, Rw: set<nat>, cols2: set<nat>, Rw2: set<nat>)
    requires LayoutOK(lay) && lay.n < x < lay.count && lay.rowOf[x] in Rw && Rw2 <= Rw
    requires RowCols(lay, x) <= cols && cols2 == cols - RowCols(lay, x)
    requires Recorded(lay, before, after, base + [x], cols2, Rw2)
    ensures Recorded(lay, before, after, base, cols, Rw)
  {
    forall j | |before| <= j < |after| ensures base <= after[j] && ExactCover(lay, after[j][|base|..], cols, Rw) {
      var e := after[j];
      assert e[..|base| + 1] == base + [x];
      assert e[..|base|] == base;
      assert e[|base|..] == [x] + e[|base| + 1..];
      CoverCons(lay, x, e[|base| + 1..], cols, Rw, Rw2);
    }
  }

  /** Two stretches of search, the first of which did not stop. */
  lemma StopsTrans(p: nat, q: nat, a: nat, N: int, found: bool)
    requires Stops(p, q, N, false) && Stops(q, a, N, found)
    ensures Stops(p, a, N, found)
  {
  }

  /**
   * Before the loop over the rows of covered column c: the level after
   * covering is sound, its column c holds the ring, and the ring holds data nodes.
   */
  lemma RowsStart(lay: Layout, v: Level, c: nat, ring: seq<nat>)
    requires LevelOK(lay, v) && c in v.cols && ring == LiveRing(lay, v.cols, v.rows, c)
    ensures Ring(CoverOne(lay, v, c).links.D, CoverOne(lay, v, c).links.U, [c] + ring)
    ensures CoverOne(lay, v, c).links.D[c] == (if |ring| > 0 then ring[0] else c)
    ensures c < lay.n && DataNodes(lay, ring)
  {
    CoverOneLinks(lay, v, c, ring);
    ColumnHead(CoverOne(lay, v, c).links.D, CoverOne(lay, v, c).links.U, c, ring);
    LiveRingNodes(lay, v, c);
  }

  /** Every level keeps the rows' horizontal rings as built. */
  lemma LevelRows(lay: Layout, v: Level)
    requires LevelOK(lay, v)
    ensures RowLinks(v.links, lay)
  {
  }

  /**
   * The rows rs of matrix m (n columns wide) are an exact cover of it:
   * each of them has a 1, every column has a 1 in one of them, and no
   * column in two of them.
   */
  ghost predicate MatrixCover(m: seq<seq<bool>>, n: nat, rs: seq<nat>)
  {
    && Rect(m, n)
    && (forall k :: 0 <= k < |rs| ==> rs[k] < |m| && HasBit(m[rs[k]]))
    && (forall c :: 0 <= c < n ==> HasOne(m, rs, c))
    && (forall k1, k2, c :: 0 <= k1 < k2 < |rs| && rs[k1] < |m| && rs[k2] < |m| && 0 <= c < n ==>
          !(m[rs[k1]][c] && m[rs[k2]][c]))
  }

  /** The row has a 1 somewhere. */
  ghost predicate HasBit(bits: seq<bool>)
  {
    exists c :: 0 <= c < |bits| && bits[c]
  }

  /** One of the rows rs of m has a 1 in column c. */
  ghost predicate HasOne(m: seq<seq<bool>>, rs: seq<nat>, c: nat)
  {
    exists k :: 0 <= k < |rs| && rs[k] < |m| && c < |m[rs[k]]| && m[rs[k]][c]
  }

  /** The matrix rows of the data nodes T. */
  ghost function RowsOfNodes(lay: Layout, T: seq<nat>): (rs: seq<nat>)
    requires |lay.rowOf| == |lay.col| && forall k :: 0 <= k < |T| ==> T[k] < |lay.col|
    ensures |rs| == |T| && forall k :: 0 <= k < |T| ==> rs[k] == lay.rowOf[T[k]]
  {
    seq(|T|, k requires 0 <= k < |T| => lay.rowOf[T[k]])
  }

  /** Once the layout encodes m, a data node's row ring lies exactly in the 1s of its matrix row. */
  lemma RowColsOnes(lay: Layout, m: seq<seq<bool>>, n: nat, x: nat)
    requires RowsEncode(lay, m, n) && n < x < lay.count
    ensures lay.rowOf[x] < |m|
    ensures forall c: nat :: c in RowCols(lay, x) <==> c < n && m[lay.rowOf[x]][c]
  {
    var r := lay.rowOf[x];
    RowColsAre(lay, x, Ones(m[r], n));
  }

  /** The columns of a data node's row ring are the columns of its nodes in order. */
  lemma RowColsAre(lay: Layout, x: nat, cs: seq<nat>)
    requires LayoutOK(lay) && lay.n < x < lay.count
    requires cs == ColsOf(lay, Range(lay.rowLo[lay.rowOf[x]], lay.rowHi[lay.rowOf[x]]))
    ensures forall c: nat :: c in RowCols(lay, x) <==> c in cs
  {
    var r := lay.rowOf[x];
    var lo, hi := lay.rowLo[r], lay.rowHi[r];
    forall c: nat ensures c in RowCols(lay, x) <==> c in cs {
      if c in RowCols(lay, x) {
        var y :| lo <= y < hi && lay.col[y] == c;
        assert cs[y - lo] == c;
      }
      if c in cs {
        var k :| 0 <= k < |cs| && cs[k] == c;
        var y := Range(lo, hi)[k];
        assert lo <= y < hi && lay.col[y] == c;
        assert lay.col[y] in RowCols(lay, x);
      }
    }
  }

  /** A covered column is in the row ring of one of the picked nodes. */
  lemma {:induction false} CoveredSome(lay: Layout, T: seq<nat>, c: nat) returns (k: nat)
    requires LayoutOK(lay) && DataNodes(lay, T) && c in Covered(lay, T)
    ensures k < |T| && c in RowCols(lay, T[k])
    decreases |T|
  {
    if c in RowCols(lay, T[0]) {
      k := 0;
    } else {
      var k' := CoveredSome(lay, T[1..], c);
      k := k' + 1;
      assert T[1..][k'] == T[k];
    }
  }

  /**
   * An exact cover of all n columns with rows of m, found in a structure
   * that encodes m, picks matrix rows that are an exact cover of m.
   */
  lemma CoverOfMatrix(lay: Layout, m: seq<seq<bool>>, n: nat, T: seq<nat>)
    requires RowsEncode(lay, m, n) && ExactCover(lay, T, Elems(Range(0, n)), FirstRows(|m|))
    ensures MatrixCover(m, n, RowsOfNodes(lay, T))
  {
    var rs := RowsOfNodes(lay, T);
    forall k | 0 <= k < |T| ensures rs[k] < |m| && HasBit(m[rs[k]]) && forall c: nat :: c in RowCols(lay, T[k]) <==> c < n && m[rs[k]][c] {
      RowColsOnes(lay, m, n, T[k]);
      assert lay.col[T[k]] in RowCols(lay, T[k]);
    }
    forall c | 0 <= c < n ensures HasOne(m, rs, c) {
      assert Range(0, n)[c] == c;
      var k := CoveredSome(lay, T, c);
      assert c in RowCols(lay, T[k]);
    }
    forall k1, k2, c | 0 <= k1 < k2 < |rs| && rs[k1] < |m| && rs[k2] < |m| && 0 <= c < n
      ensures !(m[rs[k1]][c] && m[rs[k2]][c])
    {
      assert RowCols(lay, T[k1]) !! RowCols(lay, T[k2]);
      assert c in RowCols(lay, T[k1]) <==> m[rs[k1]][c];
      assert c in RowCols(lay, T[k2]) <==> m[rs[k2]][c];
    }
  }

  /**
   * Every cover recorded from the start of a search over a structure that
   * encodes m is an exact cover of m.
   */
  lemma RecordedCovers(lay: Layout, m: seq<seq<bool>>, n: nat, sols: seq<seq<nat>>)
    requires RowsEncode(lay, m, n) && Recorded(lay, [], sols, [], Elems(Range(0, n)), FirstRows(|m|))
    ensures forall j :: 0 <= j < |sols| ==> DataNodes(lay, sols[j]) && MatrixCover(m, n, RowsOfNodes(lay, sols[j]))
  {
    forall j | 0 <= j < |sols| ensures DataNodes(lay, sols[j]) && MatrixCover(m, n, RowsOfNodes(lay, sols[j])) {
      assert sols[j][0..] == sols[j];
      CoverOfMatrix(lay, m, n, sols[j]);
    }
  }

  /** Solve's result: every recorded cover, and whether the search stopped at the wanted number. */
  datatype DancingLinksResult = DancingLinksResult(allSolutions: seq<seq<nat>>, isSolved: bool)

  /** Taking the last element back off a sequence. */
  lemma DropLast(xs: seq<nat>, x: nat)
    ensures (xs + [x])[..|xs|] == xs && (xs + [x])[|xs|] == x
  {
  }

  /**
   * The search state: the arena of nodes, the root header `head`, the rows
   * picked on the current path (`solutions`), every exact cover recorded so
   * far (`allSolutions`) and the number of covers after which to stop.
   */
  class DancingLinks {
    const arena: Arena
    const head: nat
    var solutions: seq<nat>
    var allSolutions: seq<seq<nat>>
    const solutionCount: int
    ghost const lay: Layout
    /** The level the structure is at once built: every column active, every row live. */
    ghost const top: Level

    ghost predicate Valid()
      reads arena, arena.L, arena.R, arena.U, arena.D, arena.Col, arena.Size
    {
      && arena.Valid() && arena.Col[..] == lay.col && head == lay.n && LayoutOK(lay) && lay.count < INT_MAX
    }

    /**
     * The constructor: empty path and solution list, and the structure of
     * `matrix` built by initDLX (its rows and columns are counted so that
     * every node id and every Size stays below int.MaxValue).
     */
    constructor (matrix: array2<bool>, solutionCount: int)
      requires matrix.Length0 > 0 && matrix.Length1 + 1 + matrix.Length0 * matrix.Length1 < INT_MAX
      ensures Valid() && this.solutionCount == solutionCount && solutions == [] && allSolutions == []
      ensures fresh(arena) && fresh(arena.L) && fresh(arena.R) && fresh(arena.U) && fresh(arena.D) && fresh(arena.Size)
      ensures arena.State() == top.links && LevelOK(lay, top) && Encodes(top.links, lay, Grid(matrix), matrix.Length1)
      ensures top.cols == Range(0, matrix.Length1) && top.rows == FirstRows(matrix.Length0)
    {
      this.solutionCount := solutionCount;
      solutions := [];
      allSolutions := [];
      var a, h, lay0 := InitDLX(matrix);
      arena := a;
      head := h;
      lay := lay0;
      top := Level(a.State(), Range(0, matrix.Length1), FirstRows(matrix.Length0));
    }

    /**
     * Solve: search from the built structure and report every recorded cover
     * with Search's answer. On success the rows' horizontal rings are as built.
     */
    method Solve() returns (result: DancingLinksResult)
      requires Valid() && arena.State() == top.links && LevelOK(lay, top)
      modifies this, arena.L, arena.R, arena.U, arena.D, arena.Size
      ensures Valid() && result.allSolutions == allSolutions
      ensures Recorded(lay, old(allSolutions), allSolutions, old(solutions), Elems(top.cols), top.rows)
      ensures Stops(|old(allSolutions)|, |allSolutions|, solutionCount, result.isSolved)
      ensures result.isSolved ==> RowLinks(arena.State(), lay)
      ensures !result.isSolved ==> arena.State() == top.links && solutions == old(solutions)
    {
      var isSolved := Search(0, top);
      result := DancingLinksResult(allSolutions, isSolved);
    }

    /**
     * Search's first inner loop: for rowNode from row.Right while
     * rowNode != row, rowNode.Column.Cover(). The columns met are cs.
     */
    method CoverRowColumns(row: nat, ghost cs: seq<nat>, ghost v: Level)
      requires Valid() && arena.State() == v.links && LevelOK(lay, v) && lay.n < row < lay.count
      requires cs == RowColumns(lay, row) && Coverable(v.cols, cs)
      modifies arena.L, arena.R, arena.U, arena.D, arena.Size
      ensures Valid() && arena.State() == CoverAll(lay, v, cs, |cs|).links
    {
      ghost var ra := RowAfter(lay, row);
      RowAfterStart(lay, row);
      var rowNode := arena.R[row];
      ghost var m := 0;
      while rowNode != row
        invariant Valid() && m <= |ra| && rowNode == (if m < |ra| then ra[m] else row)
        invariant rowNode == row <==> m == |ra|
        invariant arena.State() == CoverAll(lay, v, cs, m).links
        decreases |ra| - m
      {
        ghost var p := CoverAll(lay, v, cs, m);
        ghost var ring := LiveRing(lay, p.cols, p.rows, cs[m]);
        ghost var m1 := m + 1;
        CoverColumnStep(lay, v, cs, m, m1, ring);
        rowNode := CoverColumnOf(rowNode, row, cs[m], p.links, ring, m, m1);
        m := m1;
      }
    }

    /** One turn of the loop above: cover the column c of the m-th node after row, then step Right. */
    method CoverColumnOf(rowNode: nat, row: nat, ghost c: nat, ghost s: Links, ghost ring: seq<nat>, ghost m: nat, ghost m1: nat)
      returns (next: nat)
      requires Valid() && lay.n < row < lay.count && m1 == m + 1 <= |RowAfter(lay, row)|
      requires rowNode == RowAfter(lay, row)[m] && lay.col[rowNode] == c
      requires arena.State() == s && CoverArgs(s, lay, c, ring) && RowsAscending(lay)
      modifies arena.L, arena.R, arena.U, arena.D, arena.Size
      ensures Valid() && arena.State() == CoverFn(s, lay, c, ring)
      ensures next == (if m1 < |RowAfter(lay, row)| then RowAfter(lay, row)[m1] else row)
      ensures next == row <==> m1 == |RowAfter(lay, row)|
    {
      RowAfterStep(lay, row, m, m1);
      CoverKeepsRow(s, lay, c, ring, rowNode);
      Cover(arena, arena.Col[rowNode], lay, ring);
      next := arena.R[rowNode];
    }

    /**
     * Search's second inner loop: for rowNode from row.Left while
     * rowNode != row, rowNode.Column.Uncover(), undoing CoverRowColumns.
     */
    method UncoverRowColumns(row: nat, ghost cs: seq<nat>, ghost v: Level)
      requires Valid() && LevelOK(lay, v) && lay.n < row < lay.count
      requires cs == RowColumns(lay, row) && Coverable(v.cols, cs)
      requires arena.State() == CoverAll(lay, v, cs, |cs|).links
      modifies arena.L, arena.R, arena.U, arena.D, arena.Size
      ensures Valid() && arena.State() == v.links
    {
      ghost var ra := RowAfter(lay, row);
      RowBeforeStart(lay, row);
      CoverAllRowLinks(lay, v, cs, |cs|, row);
      var rowNode := arena.L[row];
      ghost var k := |ra|;
      while rowNode != row
        invariant Valid() && k <= |ra| && rowNode == (if 0 < k then ra[k - 1] else row)
        invariant rowNode == row <==> k == 0
        invariant arena.State() == CoverAll(lay, v, cs, k).links
        decreases k
      {
        ghost var m := k - 1;
        ghost var p := CoverAll(lay, v, cs, m);
        ghost var q := CoverAll(lay, v, cs, k);
        ghost var ring := LiveRing(lay, p.cols, p.rows, cs[m]);
        assert CoverArgs(q.links, lay, cs[m], ring) && RowsAscending(lay) && UncoverFn(q.links, lay, cs[m], ring) == p.links by {
          UncoverColumnStep(lay, v, cs, m, k, ring);
        }
        rowNode := UncoverColumnOf(rowNode, row, cs[m], q.links, ring, m);
        k := m;
      }
    }

    /** One turn of the loop above: uncover the column c of the m-th node after row, then step Left. */
    method UncoverColumnOf(rowNode: nat, row: nat, ghost c: nat, ghost s: Links, ghost ring: seq<nat>, ghost m: nat)
      returns (next: nat)
      requires Valid() && lay.n < row < lay.count && m < |RowAfter(lay, row)|
      requires rowNode == RowAfter(lay, row)[m] && lay.col[rowNode] == c
      requires arena.State() == s && CoverArgs(s, lay, c, ring) && RowsAscending(lay)
      modifies arena.L, arena.R, arena.U, arena.D, arena.Size
      ensures Valid() && arena.State() == UncoverFn(s, lay, c, ring)
      ensures next == (if 0 < m then RowAfter(lay, row)[m - 1] else row)
      ensures next == row <==> m == 0
    {
      RowBeforeStep(lay, row, m);
      UncoverKeepsRow(s, lay, c, ring, rowNode);
      Uncover(arena, arena.Col[rowNode], lay, ring);
      next := arena.L[rowNode];
    }

    /**
     * Choose: walk the header ring from head.Right and keep the first column
     * whose Size is below the smallest seen so far, starting from int.MaxValue.
     */
    method Choose(ghost s: Links, ghost A: seq<nat>) returns (column: Option<nat>)
      requires Valid() && arena.State() == s && Ring(s.R, s.L, [lay.n] + A) && Distinct(A)
      requires lay.n < |s.Size| && forall i :: 0 <= i < |A| ==> A[i] < lay.n
      ensures column.None? <==> forall i :: 0 <= i < |A| ==> s.Size[A[i]] >= INT_MAX
      ensures column.Some? ==> column.value in A && FirstMin(ColumnSizes(s, A), IndexOf(A, column.value))
    {
      ghost var sz := ColumnSizes(s, A);
      var min := INT_MAX;
      column := None;
      ColumnHead(s.R, s.L, head, A);
      var col := arena.R[head];
      ghost var j := 0;
      ghost var t: Option<nat> := None;
      while col != head
        invariant j <= |A| && col == (if j < |A| then A[j] else head) && (col == head <==> j == |A|)
        invariant Scan(sz, j) == (min, t) && (column.Some? <==> t.Some?)
        invariant t.Some? ==> column.value == A[t.value]
        decreases |A| - j
      {
        if arena.Size[col] < min {
          min := arena.Size[col];
          column := Some(col);
          t := Some(j);
        }
        ColumnAt(s.R, s.L, head, A, j);
        col := arena.R[col];
        j := j + 1;
      }
      ScanFacts(sz, |A|);
      assert sz[..|A|] == sz;
      if column.Some? {
        IndexOfAt(A, t.value);
      }
    }

    /**
     * Search(k): with no active column, record a copy of the path and stop
     * when the number of recorded covers reaches solutionCount; otherwise
     * cover the chosen column, try its rows one by one, and on failure
     * uncover it again. v is the level the links are at.
     */
    method Search(k: int, ghost v: Level) returns (found: bool)
      requires Valid() && arena.State() == v.links && LevelOK(lay, v)
      modifies this, arena.L, arena.R, arena.U, arena.D, arena.Size
      decreases |v.cols|, 6
      ensures Valid()
      ensures Recorded(lay, old(allSolutions), allSolutions, old(solutions), Elems(v.cols), v.rows)
      ensures Stops(|old(allSolutions)|, |allSolutions|, solutionCount, found)
      ensures !found ==> arena.State() == v.links && solutions == old(solutions)
      ensures found ==> RowLinks(arena.State(), lay)
    {
      HeadEmpty(lay, v);
      if arena.R[head] == head {
        LevelRows(lay, v);
        found := Record(v);
        return;
      }
      ChooseSome(lay, v);
      var column := Choose(v.links, v.cols);
      found := SearchColumn(k, column.value, v);
    }

    /**
     * The header ring is empty: add a copy of the path to allSolutions and
     * stop when there are now solutionCount of them.
     */
    method Record(ghost v: Level) returns (found: bool)
      requires LayoutOK(lay) && v.cols == []
      modifies this
      ensures Recorded(lay, old(allSolutions), allSolutions, solutions, Elems(v.cols), v.rows)
      ensures Stops(|old(allSolutions)|, |allSolutions|, solutionCount, found)
      ensures solutions == old(solutions) && allSolutions == old(allSolutions) + [solutions]
    {
      RecordedPath(lay, allSolutions, solutions, v.cols, v.rows);
      allSolutions := allSolutions + [solutions];
      if |allSolutions| != solutionCount {
        return false;
      } else {
        return true;
      }
    }

    /**
     * The rest of Search once Choose has picked column c: cover it, try its
     * rows, and uncover it when none leads to a stop.
     */
    method SearchColumn(k: int, c: nat, ghost v: Level) returns (found: bool)
      requires Valid() && arena.State() == v.links && LevelOK(lay, v) && c in v.cols
      modifies this, arena.L, arena.R, arena.U, arena.D, arena.Size
      decreases |v.cols|, 5
      ensures Valid()
      ensures Recorded(lay, old(allSolutions), allSolutions, old(solutions), Elems(v.cols), v.rows)
      ensures Stops(|old(allSolutions)|, |allSolutions|, solutionCount, found)
      ensures !found ==> arena.State() == v.links && solutions == old(solutions)
      ensures found ==> RowLinks(arena.State(), lay)
    {
      ghost var ring := LiveRing(lay, v.cols, v.rows, c);
      CoverOneLinks(lay, v, c, ring);
      Cover(arena, c, lay, ring);
      found := SearchCovered(k, c, v, ring);
    }

    /** With column c covered: try its rows, and uncover c when none leads to a stop. */
    method SearchCovered(k: int, c: nat, ghost v: Level, ghost ring: seq<nat>) returns (found: bool)
      requires Valid() && LevelOK(lay, v) && c in v.cols && ring == LiveRing(lay, v.cols, v.rows, c)
      requires arena.State() == CoverOne(lay, v, c).links
      modifies this, arena.L, arena.R, arena.U, arena.D, arena.Size
      decreases |v.cols|, 4
      ensures Valid()
      ensures Recorded(lay, old(allSolutions), allSolutions, old(solutions), Elems(v.cols), v.rows)
      ensures Stops(|old(allSolutions)|, |allSolutions|, solutionCount, found)
      ensures !found ==> arena.State() == v.links && solutions == old(solutions)
      ensures found ==> RowLinks(arena.State(), lay)
    {
      var column;
      found, column := SearchRows(k, c, v, ring);
      if found {
        return;
      }
      ghost var sols, path := allSolutions, solutions;
      UncoverChosen(column, v, ring);
      assert allSolutions == sols && solutions == path;
    }

    /** Search's closing `column.Uncover()`: column c, covered at level v, goes back in. */
    method UncoverChosen(c: nat, ghost v: Level, ghost ring: seq<nat>)
      requires Valid() && LevelOK(lay, v) && c in v.cols && ring == LiveRing(lay, v.cols, v.rows, c)
      requires arena.State() == CoverOne(lay, v, c).links
      modifies arena.L, arena.R, arena.U, arena.D, arena.Size
      ensures Valid() && arena.State() == v.links
    {
      CoverOneLinks(lay, v, c, ring);
      Uncover(arena, c, lay, ring);
    }

    /**
     * The loop of Search over the rows of the covered column c: from c.Down
     * while row != c, try the row; on failure continue below it.
     */
    method SearchRows(k: int, c: nat, ghost v: Level, ghost ring: seq<nat>) returns (found: bool, column: nat)
      requires Valid() && LevelOK(lay, v) && c in v.cols && ring == LiveRing(lay, v.cols, v.rows, c)
      requires arena.State() == CoverOne(lay, v, c).links
      modifies this, arena.L, arena.R, arena.U, arena.D, arena.Size
      decreases |v.cols|, 3
      ensures Valid()
      ensures Recorded(lay, old(allSolutions), allSolutions, old(solutions), Elems(v.cols), v.rows)
      ensures Stops(|old(allSolutions)|, |allSolutions|, solutionCount, found)
      ensures !found ==> column == c && arena.State() == CoverOne(lay, v, c).links && solutions == old(solutions)
      ensures found ==> RowLinks(arena.State(), lay)
    {
      RowsStart(lay, v, c, ring);
      RecordedNone(lay, allSolutions, solutions, Elems(v.cols), v.rows);
      column := c;
      found := false;
      var row := arena.D[column];
      ghost var j := 0;
      while row != column
        invariant Valid() && arena.State() == CoverOne(lay, v, c).links && solutions == old(solutions) && column == c
        invariant j <= |ring| && row == (if j < |ring| then ring[j] else c) && (row == c <==> j == |ring|)
        invariant Recorded(lay, old(allSolutions), allSolutions, old(solutions), Elems(v.cols), v.rows)
        invariant Stops(|old(allSolutions)|, |allSolutions|, solutionCount, false)
        decreases |ring| - j
      {
        found, row, column := RowTurn(k, row, c, v, ring, j, old(allSolutions));
        if found {
          return;
        }
        j := j + 1;
      }
    }

    /**
     * One turn of the loop above: try the j-th row of column c; the searches
     * since `start` still have not stopped unless this one does. On failure,
     * `column` is the column of the row taken back off the path, and `next`
     * is the node below that row.
     */
    method RowTurn(k: int, row: nat, c: nat, ghost v: Level, ghost ring: seq<nat>, ghost j: nat, ghost start: seq<seq<nat>>)
      returns (found: bool, next: nat, column: nat)
      requires Valid() && LevelOK(lay, v) && c in v.cols && ring == LiveRing(lay, v.cols, v.rows, c)
      requires j < |ring| && row == ring[j] && arena.State() == CoverOne(lay, v, c).links
      requires Recorded(lay, start, allSolutions, solutions, Elems(v.cols), v.rows)
      requires Stops(|start|, |allSolutions|, solutionCount, false)
      modifies this, arena.L, arena.R, arena.U, arena.D, arena.Size
      decreases |v.cols|, 2
      ensures Valid()
      ensures Recorded(lay, start, allSolutions, old(solutions), Elems(v.cols), v.rows)
      ensures Stops(|start|, |allSolutions|, solutionCount, found)
      ensures !found ==> arena.State() == CoverOne(lay, v, c).links && solutions == old(solutions)
      ensures !found ==> column == c && next == (if j + 1 < |ring| then ring[j + 1] else c)
      ensures found ==> RowLinks(arena.State(), lay)
    {
      RowChoice(lay, v, c, ring, j);
      CoverOneKeeps(lay, v, c);
      RowsStart(lay, v, c, ring);
      ghost var before := allSolutions;
      var back;
      found, back := TryRow(k, row, v, CoverOne(lay, v, c));
      RecordedTrans(lay, start, before, allSolutions, old(solutions), Elems(v.cols), v.rows);
      StopsTrans(|start|, |before|, |allSolutions|, solutionCount, found);
      if found {
        next, column := row, c;
        return;
      }
      column := arena.Col[back];
      ColumnAt(CoverOne(lay, v, c).links.D, CoverOne(lay, v, c).links.U, c, ring, j);
      next := arena.D[back];
    }

    /**
     * One row of Search's loop: push it on the path, cover its other columns
     * and search deeper; on failure take the row back off the path (it is
     * returned as `back`) and uncover its columns in reverse.
     */
    method TryRow(k: int, row: nat, ghost v: Level, ghost v1: Level) returns (found: bool, back: nat)
      requires Valid() && arena.State() == v1.links && LevelOK(lay, v1)
      requires lay.n < row < lay.count && lay.rowOf[row] in v.rows && v1.rows <= v.rows
      requires Coverable(v1.cols, RowColumns(lay, row)) && |v1.cols| < |v.cols|
      requires RowCols(lay, row) <= Elems(v.cols)
      requires Elems(v1.cols) - Elems(RowColumns(lay, row)) == Elems(v.cols) - RowCols(lay, row)
      modifies this, arena.L, arena.R, arena.U, arena.D, arena.Size
      decreases |v.cols|, 1
      ensures Valid()
      ensures Recorded(lay, old(allSolutions), allSolutions, old(solutions), Elems(v.cols), v.rows)
      ensures Stops(|old(allSolutions)|, |allSolutions|, solutionCount, found)
      ensures !found ==> back == row && arena.State() == v1.links && solutions == old(solutions)
      ensures found ==> RowLinks(arena.State(), lay)
    {
      solutions := solutions + [row];
      found := Descend(k, row, v, v1, old(solutions));
      if found {
        back := row;
        return;
      }
      back := Backtrack(row, v1, old(solutions));
    }

    /**
     * After a failed deeper search: take the last row back off the path and
     * uncover the columns of its other nodes, walking Left.
     */
    method Backtrack(ghost row: nat, ghost v1: Level, ghost base: seq<nat>) returns (back: nat)
      requires Valid() && LevelOK(lay, v1) && lay.n < row < lay.count && Coverable(v1.cols, RowColumns(lay, row))
      requires arena.State() == CoverAll(lay, v1, RowColumns(lay, row), |RowColumns(lay, row)|).links
      requires solutions == base + [row]
      modifies this, arena.L, arena.R, arena.U, arena.D, arena.Size
      ensures Valid() && back == row && solutions == base && allSolutions == old(allSolutions)
      ensures arena.State() == v1.links
    {
      DropLast(base, row);
      back := solutions[|solutions| - 1];
      solutions := solutions[..|solutions| - 1];
      UncoverRowColumns(back, RowColumns(lay, back), v1);
    }

    /**
     * The middle of TryRow, with row pushed on the path base: cover the row's other
     * columns and search one level deeper.
     */
    method Descend(k: int, row: nat, ghost v: Level, ghost v1: Level, ghost base: seq<nat>) returns (found: bool)
      requires Valid() && arena.State() == v1.links && LevelOK(lay, v1)
      requires lay.n < row < lay.count && lay.rowOf[row] in v.rows && v1.rows <= v.rows
      requires Coverable(v1.cols, RowColumns(lay, row)) && |v1.cols| < |v.cols|
      requires RowCols(lay, row) <= Elems(v.cols)
      requires Elems(v1.cols) - Elems(RowColumns(lay, row)) == Elems(v.cols) - RowCols(lay, row)
      requires solutions == base + [row]
      modifies this, arena.L, arena.R, arena.U, arena.D, arena.Size
      decreases |v.cols|, 0
      ensures Valid()
      ensures Recorded(lay, old(allSolutions), allSolutions, base, Elems(v.cols), v.rows)
      ensures Stops(|old(allSolutions)|, |allSolutions|, solutionCount, found)
      ensures !found ==> arena.State() == CoverAll(lay, v1, RowColumns(lay, row), |RowColumns(lay, row)|).links
      ensures !found ==> solutions == old(solutions)
      ensures found ==> RowLinks(arena.State(), lay)
    {
      ghost var cs := RowColumns(lay, row);
      CoverRowColumns(row, cs, v1);
      ghost var v2 := CoverAll(lay, v1, cs, |cs|);
      CoverRowKeeps(lay, v1, cs);
      found := Search(k + 1, v2);
      RecordedLift(lay, old(allSolutions), allSolutions, base, row, Elems(v.cols), v.rows, Elems(v2.cols), v2.rows);
    }
  }
}
