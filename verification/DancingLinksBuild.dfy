/**
 * Building the dancing-links structure from a 0/1 matrix (DancingLinks.initDLX):
 * the column headers are created and linked to the Right of the root one
 * after the other, then every 1 of the matrix, row after row and column
 * after column, becomes a node linked at the bottom of its column and at the
 * end of its row, and its column's Size grows by one.
 *
 * The build is proved against the structure invariant Inv of the search:
 * once it is done, every column ring holds exactly the nodes of that column
 * in ascending order, each row ring holds the 1s of its matrix row in
 * ascending column order, and each Size counts the 1s of its column.
 */
module DancingLinksBuild {
  import opened Wrappers
  import opened DancingLinksNode
  import opened DancingLinksColumnNode

  /** The matrix as a sequence of rows. */
  ghost function Grid(matrix: array2<bool>): (m: seq<seq<bool>>)
    reads matrix
    ensures |m| == matrix.Length0
    ensures forall r :: 0 <= r < |m| ==> |m[r]| == matrix.Length1
    ensures forall r, c :: 0 <= r < matrix.Length0 && 0 <= c < matrix.Length1 ==> m[r][c] == matrix[r, c]
  {
    seq(matrix.Length0, r requires 0 <= r < matrix.Length0 reads matrix =>
      seq(matrix.Length1, c requires 0 <= c < matrix.Length1 reads matrix => matrix[r, c]))
  }

  /** Every row of m has n entries. */
  ghost predicate Rect(m: seq<seq<bool>>, n: nat)
  {
    forall r :: 0 <= r < |m| ==> |m[r]| == n
  }

  /** The columns below j in which `bits` has a 1, in ascending order. */
  function Ones(bits: seq<bool>, j: nat): (cs: seq<nat>)
    requires j <= |bits|
    ensures forall c: nat :: c in cs <==> c < j && bits[c]
    ensures forall k1, k2 :: 0 <= k1 < k2 < |cs| ==> cs[k1] < cs[k2]
    decreases j
  {
    if j == 0 then []
    else
      var pre := Ones(bits, j - 1);
      assert forall k :: 0 <= k < |pre| ==> pre[k] in pre;
      pre + (if bits[j - 1] then [j - 1] else [])
  }

  /** How many of the first r rows of m have a 1 in column c. */
  function CountColumn(m: seq<seq<bool>>, c: nat, r: nat): (k: nat)
    requires r <= |m|
    ensures k <= r
  {
    if r == 0 then 0 else CountColumn(m, c, r - 1) + (if c < |m[r - 1]| && m[r - 1][c] then 1 else 0)
  }

  /** The 1s of column c met so far, when k rows are open and the last one is done below column j. */
  function Seen(m: seq<seq<bool>>, c: nat, k: nat, j: nat): (e: nat)
    requires k <= |m|
    ensures e <= k
  {
    if k == 0 then 0 else CountColumn(m, c, k - 1) + (if c < j && c < |m[k - 1]| && m[k - 1][c] then 1 else 0)
  }

  /** The number of entries in r rows of n columns (r * n, by repeated addition). */
  function Cells(r: nat, n: nat): (k: nat)
  {
    if r == 0 then 0 else Cells(r - 1, n) + n
  }

  /** Cells is the product, and grows with the number of rows. */
  lemma {:induction false} CellsFacts(r: nat, r': nat, n: nat)
    requires r <= r'
    ensures Cells(r, n) == r * n && Cells(r, n) <= Cells(r', n)
    decreases r'
  {
    if r < r' {
      CellsFacts(r, r' - 1, n);
    } else if r > 0 {
      CellsFacts(r - 1, r - 1, n);
    }
  }

  /** The matrix rows 0 .. r-1. */
  ghost function FirstRows(r: nat): set<nat>
  {
    set i | i in Range(0, r)
  }

  /** The ids from lay.count on are not in use yet: each is its own neighbour and its own column. */
  ghost predicate Unused(s: Links, lay: Layout)
  {
    && Wf(s) && |lay.col| == |s.L|
    && forall y :: lay.count <= y < |s.L| ==> Singleton(s, y) && lay.col[y] == y
  }

  /** The nodes lo .. hi-1 of matrix row i lie in the columns where m[i] has a 1 below j. */
  ghost predicate RowHolds(lay: Layout, m: seq<seq<bool>>, i: nat, hi: nat, j: nat)
  {
    && LayoutOK(lay) && i < |lay.rowLo| && i < |m| && j <= |m[i]| && lay.rowLo[i] <= hi <= lay.count
    && ColsOf(lay, Range(lay.rowLo[i], hi)) == Ones(m[i], j)
  }

  /** The column bound of row i: the last of k open rows is done below j, the others are complete. */
  function Upto(i: nat, k: nat, j: nat, n: nat): nat
  {
    if i + 1 == k then j else n
  }

  /** The counters of the build: k rows opened, the last one done below column j, within the arena. */
  ghost predicate Shape(lay: Layout, m: seq<seq<bool>>, n: nat, k: nat, j: nat)
  {
    && lay.n == n && Rect(m, n) && k <= |m| && j <= n
    && |lay.rowLo| == k && |lay.rowHi| == k
    && (k == 0 ==> j == n)
    && (k > 0 ==> lay.rowHi[k - 1] == lay.count)
    && lay.count + n <= n + 1 + Cells(k, n) + j
  }

  /** The nodes of every opened row lie in the columns where its matrix row has a 1, so far. */
  ghost predicate RowsMatch(lay: Layout, m: seq<seq<bool>>, n: nat, k: nat, j: nat)
  {
    && |lay.rowHi| == k
    && forall i {:trigger RowHolds(lay, m, i, lay.rowHi[i], Upto(i, k, j, n))} ::
         0 <= i < k ==> RowHolds(lay, m, i, lay.rowHi[i], Upto(i, k, j, n))
  }

  /** Every column's Size counts the 1s of that column met so far. */
  ghost predicate Counted(s: Links, m: seq<seq<bool>>, n: nat, k: nat, j: nat)
  {
    && k <= |m| && n <= |s.Size|
    && forall c :: 0 <= c < n ==> s.Size[c] == Seen(m, c, k, j)
  }

  /**
   * The structure while matrix row k - 1 is being added, once its columns
   * below j are done (with k == 0 and j == n before the first row): the
   * invariant of the search with every column active and the opened rows
   * live, their nodes as in the matrix, every Size counting its column's 1s
   * so far, and the ids from lay.count on still unused.
   */
  ghost predicate Built(s: Links, lay: Layout, m: seq<seq<bool>>, n: nat, k: nat, j: nat)
  {
    && Inv(s, lay, Range(0, n), FirstRows(k))
    && Unused(s, lay)
    && Shape(lay, m, n, k, j)
    && RowsMatch(lay, m, n, k, j)
    && Counted(s, m, n, k, j)
  }

  /** The links of the arena with the layout they follow. */
  datatype Stage = Stage(links: Links, lay: Layout)

  /**
   * Building holds exactly when Built does: Open gives one direction and
   * Close the other. It states Built as one fact about a stage of the
   * build, with the sizes the build methods index by in plain sight. Built
   * itself is |m| + 2 steps of Behind away, which the verifier does not
   * unfold on its own, and the comparison with true keeps the fact whole
   * when it is to be proved: the build methods pass it on without looking
   * inside.
   */
  ghost predicate Building(st: Stage, m: seq<seq<bool>>, n: nat, k: nat, j: nat)
  {
    (Sized(st, m, n, k, j) && Behind(st, m, n, k, j, |m| + 2)) == true
  }

  /** The sizes of a stage of the build. */
  ghost predicate Sized(st: Stage, m: seq<seq<bool>>, n: nat, k: nat, j: nat)
  {
    && Wf(st.links) && |st.links.L| == |st.lay.col| == |st.lay.rowOf|
    && n < st.lay.count && n < |st.links.Size|
    && Shape(st.lay, m, n, k, j)
  }

  /** Built, d steps away. */
  ghost predicate Behind(st: Stage, m: seq<seq<bool>>, n: nat, k: nat, j: nat, d: nat)
    decreases d
  {
    if d == 0 then Built(st.links, st.lay, m, n, k, j) else Behind(st, m, n, k, j, d - 1)
  }

  /** Behind at any depth is Built. */
  lemma {:induction false} Leave(st: Stage, m: seq<seq<bool>>, n: nat, k: nat, j: nat, d: nat)
    requires Behind(st, m, n, k, j, d)
    ensures Built(st.links, st.lay, m, n, k, j)
    decreases d
  {
    if d > 0 {
      Leave(st, m, n, k, j, d - 1);
    }
  }

  /** Built is Behind at any depth. */
  lemma {:induction false} Enter(st: Stage, m: seq<seq<bool>>, n: nat, k: nat, j: nat, d: nat)
    requires Built(st.links, st.lay, m, n, k, j)
    ensures Behind(st, m, n, k, j, d)
    decreases d
  {
    if d > 0 {
      Enter(st, m, n, k, j, d - 1);
    }
  }

  /** Building gives Built back. */
  lemma Open(st: Stage, m: seq<seq<bool>>, n: nat, k: nat, j: nat)
    requires Building(st, m, n, k, j)
    ensures Built(st.links, st.lay, m, n, k, j)
  {
    Leave(st, m, n, k, j, |m| + 2);
  }

  /** Built gives Building. */
  lemma Close(s: Links, lay: Layout, m: seq<seq<bool>>, n: nat, k: nat, j: nat)
    requires Built(s, lay, m, n, k, j) == true
    ensures Building(Stage(s, lay), m, n, k, j)
  {
    Enter(Stage(s, lay), m, n, k, j, |m| + 2);
  }

  /** The layout once the 1 of matrix row r in column j has become node lay.count. */
  ghost function Grown(lay: Layout, r: nat, j: nat): Layout
    requires lay.count < |lay.col| && lay.count < |lay.rowOf| && r < |lay.rowHi|
  {
    var x := lay.count;
    lay.(count := x + 1, col := lay.col[x := j], rowOf := lay.rowOf[x := r], rowHi := lay.rowHi[r := x + 1])
  }

  /**
   * The links once node x has been linked below the last node of column j
   * (column.Up.LinkDown), to the Right of prev (prevNode.LinkRight), and
   * counted in Size[j].
   */
  ghost function Appended(s: Links, j: nat, prev: nat, x: nat): Links
    requires Wf(s) && j < |s.L| && j < |s.Size| && prev < |s.L| && x < |s.L|
  {
    var s1 := DownLinked(s, s.U[j], x);
    var s2 := RightLinked(s1, prev, x);
    s2.(Size := s2.Size[j := s2.Size[j] + 1])
  }

  /** Nodes depends only on the header count, on the columns and on which nodes are present below hi. */
  lemma {:induction false} NodesAgree(lay: Layout, lay': Layout, c: nat, P: set<nat>, Q: set<nat>, hi: nat)
    requires lay.n == lay'.n && hi <= |lay.col| && hi <= |lay'.col|
    requires forall y :: lay.n < y < hi ==> lay.col[y] == lay'.col[y] && (y in P <==> y in Q)
    ensures Nodes(lay, c, P, hi) == Nodes(lay', c, Q, hi)
    decreases hi
  {
    if hi > lay.n + 1 {
      NodesAgree(lay, lay', c, P, Q, hi - 1);
    }
  }

  /** The new node keeps the layout well formed. */
  lemma GrownLayout(lay: Layout, r: nat, j: nat)
    requires LayoutOK(lay)
    requires |lay.rowLo| == r + 1 && lay.rowHi[r] == lay.count && lay.count < |lay.col| && j < lay.n
    ensures LayoutOK(Grown(lay, r, j))
  {
  }

  /** The new node keeps its row ascending, since its column is past those of the row's other nodes. */
  lemma GrownAscending(lay: Layout, r: nat, j: nat)
    requires LayoutOK(lay) && RowsAscending(lay)
    requires |lay.rowLo| == r + 1 && lay.rowHi[r] == lay.count && lay.count < |lay.col|
    requires LayoutOK(Grown(lay, r, j)) && forall y :: lay.rowLo[r] <= y < lay.count ==> lay.col[y] < j
    ensures RowsAscending(Grown(lay, r, j))
  {
    var lay' := Grown(lay, r, j);
    forall y, z | lay'.n < y < z < lay'.count && lay'.rowOf[y] == lay'.rowOf[z]
      ensures lay'.col[y] < lay'.col[z]
    {
      if z == lay.count {
        assert lay.rowOf[y] == r;
      }
    }
  }

  /** The new node joins the ring of column j, at its bottom; no other column changes. */
  lemma GrownRing(lay: Layout, r: nat, j: nat, c: nat, Rw: set<nat>)
    requires LayoutOK(lay) && |lay.rowLo| == r + 1 && lay.count < |lay.col| && r in Rw
    ensures LayoutOK(Grown(lay, r, j)) ==>
      ColumnRing(Grown(lay, r, j), c, Live(Grown(lay, r, j), Rw))
        == ColumnRing(lay, c, Live(lay, Rw)) + (if c == j then [lay.count] else [])
  {
    var lay' := Grown(lay, r, j);
    var x := lay.count;
    if LayoutOK(lay') {
      assert x in Live(lay', Rw);
      assert Nodes(lay', c, Live(lay', Rw), x + 1)
          == Nodes(lay', c, Live(lay', Rw), x) + (if c == j then [x] else []);
      NodesAgree(lay', lay, c, Live(lay', Rw), Live(lay, Rw), x);
    }
  }

  /** Appended written out link by link. */
  lemma AppendedLinks(s: Links, j: nat, prev: nat, x: nat)
    requires Wf(s) && j < |s.L| && j < |s.Size| && prev < |s.L| && x < |s.L|
    ensures var t := s.U[j];
      Appended(s, j, prev, x)
        == Links(s.L[s.R[prev] := x][x := prev], s.R[x := s.R[prev]][prev := x],
                 s.U[s.D[t] := x][x := t], s.D[x := s.D[t]][t := x], s.Size[j := s.Size[j] + 1])
  {
  }

  /** The header ring does not see the new node: only data nodes are relinked. */
  lemma AppendedHeaders(s: Links, lay: Layout, A: seq<nat>, j: nat, prev: nat, x: nat)
    requires Wf(s) && j < |s.L| && j < |s.Size| && prev < |s.L| && x < |s.L|
    requires Headers(s, lay, A) && lay.n < prev && lay.n < s.R[prev] && lay.n < x
    ensures Headers(Appended(s, j, prev, x), lay, A)
  {
    AppendedLinks(s, j, prev, x);
    var t := Appended(s, j, prev, x);
    var hs := [lay.n] + A;
    forall k | 0 <= k < |hs| ensures hs[k] <= lay.n {
      if k > 0 {
        assert hs[k] == A[k - 1];
      }
    }
    RingUnchanged(s.R, s.L, t.R, t.L, hs);
  }

  /** Splicing a new node in below the last element of a ring (the one above its head) appends it. */
  lemma BottomSplice(next: seq<nat>, prev: seq<nat>, ring: seq<nat>, x: nat)
    requires |next| == |prev| && Ring(next, prev, ring) && Distinct(ring)
    requires x < |next| && x !in ring && forall y :: 0 <= y < |next| ==> next[y] < |next|
    ensures Ring(Splice(next, prev, prev[ring[0]], x).0, Splice(next, prev, prev[ring[0]], x).1, ring + [x])
  {
    var k := |ring| - 1;
    RingSplice(next, prev, ring, k, x);
    assert ring[..k + 1] + [x] + ring[k + 1..] == ring + [x];
  }

  /** Column j's ring gets the new node at its bottom, and its Size counts it. */
  lemma AppendedOwnColumn(s: Links, lay: Layout, Rw: set<nat>, r: nat, j: nat, prev: nat, x: nat)
    requires LayoutOK(lay) && Wf(s) && |s.L| == |lay.col| && j < lay.n && j < |s.Size| && prev < |s.L|
    requires x == lay.count < |s.L| && |lay.rowLo| == r + 1 && r in Rw && LayoutOK(Grown(lay, r, j))
    requires Ring(s.D, s.U, [j] + ColumnRing(lay, j, Live(lay, Rw)))
    requires s.Size[j] == |ColumnRing(lay, j, Live(lay, Rw))|
    ensures Ring(Appended(s, j, prev, x).D, Appended(s, j, prev, x).U,
                 [j] + ColumnRing(Grown(lay, r, j), j, Live(Grown(lay, r, j), Rw)))
    ensures Appended(s, j, prev, x).Size[j] == |ColumnRing(Grown(lay, r, j), j, Live(Grown(lay, r, j), Rw))|
  {
    var cr := ColumnRing(lay, j, Live(lay, Rw));
    ColumnRingDistinct(lay, j, Live(lay, Rw));
    assert x !in [j] + cr;
    BottomSplice(s.D, s.U, [j] + cr, x);
    assert [j] + cr + [x] == [j] + (cr + [x]);
    GrownRing(lay, r, j, j, Rw);
  }

  /** The bottom node of column j's ring lies in column j, and its Down link is the header. */
  lemma ColumnBottom(s: Links, lay: Layout, P: set<nat>, j: nat)
    requires LayoutOK(lay) && j <= lay.n && Ring(s.D, s.U, [j] + ColumnRing(lay, j, P))
    ensures s.U[j] < lay.count && lay.col[s.U[j]] == j && s.D[s.U[j]] == j
  {
    var cr := ColumnRing(lay, j, P);
    ColumnRingMembers(lay, j, P);
    if cr != [] {
      assert s.U[j] == cr[|cr| - 1];
    }
  }

  /** Every other column keeps its ring and its Size. */
  lemma AppendedOtherColumn(s: Links, lay: Layout, Rw: set<nat>, r: nat, j: nat, c: nat, prev: nat, x: nat)
    requires LayoutOK(lay) && Wf(s) && |s.L| == |lay.col| && j < lay.n && j < |s.Size| && prev < |s.L|
    requires x == lay.count < |s.L| && |lay.rowLo| == r + 1 && r in Rw && LayoutOK(Grown(lay, r, j))
    requires Ring(s.D, s.U, [j] + ColumnRing(lay, j, Live(lay, Rw)))
    requires c < lay.n && c != j && c < |s.Size|
    requires Ring(s.D, s.U, [c] + ColumnRing(lay, c, Live(lay, Rw)))
    requires s.Size[c] == |ColumnRing(lay, c, Live(lay, Rw))|
    ensures Ring(Appended(s, j, prev, x).D, Appended(s, j, prev, x).U,
                 [c] + ColumnRing(Grown(lay, r, j), c, Live(Grown(lay, r, j), Rw)))
    ensures Appended(s, j, prev, x).Size[c] == |ColumnRing(Grown(lay, r, j), c, Live(Grown(lay, r, j), Rw))|
  {
    ColumnBottom(s, lay, Live(lay, Rw), j);
    var cr := ColumnRing(lay, c, Live(lay, Rw));
    var ring := [c] + cr;
    ColumnRingMembers(lay, c, Live(lay, Rw));
    var b := s.U[j];
    forall k | 0 <= k < |ring| ensures ring[k] != x && ring[k] != b && ring[k] != j {
      if k > 0 {
        assert ring[k] == cr[k - 1] && lay.col[ring[k]] == c;
      }
    }
    AppendedLinks(s, j, prev, x);
    var t := Appended(s, j, prev, x);
    assert t.D == s.D[x := s.D[b]][b := x] && t.U == s.U[j := x][x := b];
    RingUnchanged(s.D, s.U, t.D, t.U, ring);
    GrownRing(lay, r, j, c, Rw);
    assert cr + [] == cr;
  }

  /** Every column ring of the new layout is in place. */
  lemma AppendedColumns(s: Links, lay: Layout, A: seq<nat>, Rw: set<nat>, r: nat, j: nat, prev: nat, x: nat)
    requires LayoutOK(lay) && Wf(s) && |s.L| == |lay.col| && j < lay.n && j < |s.Size| && prev < |s.L|
    requires x == lay.count < |s.L| && |lay.rowLo| == r + 1 && r in Rw && LayoutOK(Grown(lay, r, j))
    requires ColumnsOK(s, lay, A, Live(lay, Rw)) && j in A
    ensures ColumnsOK(Appended(s, j, prev, x), Grown(lay, r, j), A, Live(Grown(lay, r, j), Rw))
  {
    forall c | c in A
      ensures Ring(Appended(s, j, prev, x).D, Appended(s, j, prev, x).U,
                   [c] + ColumnRing(Grown(lay, r, j), c, Live(Grown(lay, r, j), Rw)))
      ensures Appended(s, j, prev, x).Size[c] == |ColumnRing(Grown(lay, r, j), c, Live(Grown(lay, r, j), Rw))|
    {
      if c == j {
        AppendedOwnColumn(s, lay, Rw, r, j, prev, x);
      } else {
        AppendedOtherColumn(s, lay, Rw, r, j, c, prev, x);
      }
    }
  }

  /**
   * The new node closes its row's ring: it follows the row's last node and
   * leads back to the row's first one (prevNode is the new node itself for a
   * row's first 1, and the row's last node otherwise).
   */
  lemma AppendedRowLinks(s: Links, lay: Layout, r: nat, j: nat, prev: nat, x: nat)
    requires LayoutOK(lay) && RowLinks(s, lay) && Wf(s) && j < |s.L| && j < |s.Size|
    requires x == lay.count < |s.L| && |lay.rowLo| == r + 1 && lay.rowHi[r] == x
    requires s.L[x] == x && s.R[x] == x && LayoutOK(Grown(lay, r, j))
    requires prev == (if lay.rowLo[r] == x then x else x - 1)
    ensures RowLinks(Appended(s, j, prev, x), Grown(lay, r, j))
  {
    NewRowLink(lay, r, j, prev);
    forall y | lay.n < y < x + 1
      ensures Appended(s, j, prev, x).R[y] == RowNext(Grown(lay, r, j), y)
      ensures Appended(s, j, prev, x).L[y] == RowPrev(Grown(lay, r, j), y)
    {
      AppendedRowLink(s, lay, r, j, prev, x, y);
    }
  }

  /** AppendedRowLinks for one node y. */
  lemma AppendedRowLink(s: Links, lay: Layout, r: nat, j: nat, prev: nat, x: nat, y: nat)
    requires LayoutOK(lay) && Wf(s) && |s.L| == |lay.col| && j < |s.L| && j < |s.Size|
    requires x == lay.count < |s.L| && |lay.rowLo| == r + 1 && lay.rowHi[r] == x
    requires s.L[x] == x && s.R[x] == x && LayoutOK(Grown(lay, r, j))
    requires prev == (if lay.rowLo[r] == x then x else x - 1)
    requires lay.rowLo[r] < x ==> s.R[prev] == lay.rowLo[r]
    requires lay.n < y <= x
    requires y < x ==> s.R[y] == RowNext(lay, y) && s.L[y] == RowPrev(lay, y)
    ensures Appended(s, j, prev, x).R[y] == RowNext(Grown(lay, r, j), y)
    ensures Appended(s, j, prev, x).L[y] == RowPrev(Grown(lay, r, j), y)
  {
    AppendedLinks(s, j, prev, x);
    var lo := lay.rowLo[r];
    if y == x {
      NewRowLink(lay, r, j, prev);
    } else if lay.rowOf[y] == r {
      SameRowLink(lay, r, j, y);
    } else {
      OtherRowLink(lay, r, j, y);
      assert y != prev;
    }
  }

  /** The new node's row neighbours: the row's first node and its last one before it. */
  lemma NewRowLink(lay: Layout, r: nat, j: nat, prev: nat)
    requires LayoutOK(lay) && lay.count < |lay.col| && |lay.rowLo| == r + 1 && lay.rowHi[r] == lay.count
    requires LayoutOK(Grown(lay, r, j)) && prev == (if lay.rowLo[r] == lay.count then lay.count else lay.count - 1)
    ensures RowNext(Grown(lay, r, j), lay.count) == lay.rowLo[r]
    ensures RowPrev(Grown(lay, r, j), lay.count) == prev
    ensures lay.rowLo[r] < lay.count ==> RowNext(lay, prev) == lay.rowLo[r]
  {
  }

  /** A node already in the new node's row: only the last one now leads to the new node. */
  lemma SameRowLink(lay: Layout, r: nat, j: nat, y: nat)
    requires LayoutOK(lay) && lay.count < |lay.col| && |lay.rowLo| == r + 1 && lay.rowHi[r] == lay.count
    requires LayoutOK(Grown(lay, r, j)) && lay.n < y < lay.count && lay.rowOf[y] == r
    ensures RowNext(Grown(lay, r, j), y) == (if y + 1 == lay.count then lay.count else RowNext(lay, y))
    ensures RowPrev(Grown(lay, r, j), y) == (if y == lay.rowLo[r] then lay.count else RowPrev(lay, y))
  {
  }

  /** A node of another row keeps its row neighbours. */
  lemma OtherRowLink(lay: Layout, r: nat, j: nat, y: nat)
    requires LayoutOK(lay) && lay.count < |lay.col| && |lay.rowLo| == r + 1 && lay.rowHi[r] == lay.count
    requires LayoutOK(Grown(lay, r, j)) && lay.n < y < lay.count && lay.rowOf[y] != r
    ensures RowNext(Grown(lay, r, j), y) == RowNext(lay, y) && RowPrev(Grown(lay, r, j), y) == RowPrev(lay, y)
    ensures y < lay.rowLo[r]
  {
  }

  /** The new node's links stay inside its column, so every link still does. */
  lemma AppendedClosed(s: Links, lay: Layout, r: nat, j: nat, prev: nat, x: nat)
    requires ColumnClosed(s, lay) && j < |s.L| && j < |s.Size| && prev < |s.L|
    requires x == lay.count < |s.L| && |lay.rowOf| == |lay.col| && r < |lay.rowHi|
    requires lay.col[j] == j && lay.col[x] == x && j < x
    requires forall y :: 0 <= y < |s.U| && y != x ==> s.U[y] != x && s.D[y] != x
    ensures ColumnClosed(Appended(s, j, prev, x), Grown(lay, r, j))
  {
    AppendedLinks(s, j, prev, x);
    var b := s.U[j];
    assert lay.col[b] == j && lay.col[s.D[b]] == j;
    var t := Appended(s, j, prev, x);
    ClosedAll(lay.col, s.U, s.D, x, j, b, Grown(lay, r, j).col, t.U, t.D);
  }

  /** No link of an id in use leads to the first unused id. */
  lemma NothingLinksTo(s: Links, lay: Layout)
    requires LayoutOK(lay) && ColumnClosed(s, lay) && Unused(s, lay) && lay.count < |s.L|
    ensures forall y :: 0 <= y < |s.U| && y != lay.count ==> s.U[y] != lay.count && s.D[y] != lay.count
  {
    forall y | 0 <= y < |s.U| && y != lay.count
      ensures s.U[y] != lay.count && s.D[y] != lay.count
    {
      assert lay.col[s.U[y]] == lay.col[y] && lay.col[s.D[y]] == lay.col[y];
      if y < lay.count {
        assert lay.col[y] <= lay.n;
      }
    }
  }

  /** ColumnClosed for every id, after x was spliced in below b, the bottom of column j. */
  lemma ClosedAll(col: seq<nat>, U: seq<nat>, D: seq<nat>, x: nat, j: nat, b: nat,
                  col': seq<nat>, U': seq<nat>, D': seq<nat>)
    requires |U| == |D| == |col| && x < |col| && b < |col| && D[b] < |col|
    requires forall y :: 0 <= y < |U| ==> U[y] < |col| && D[y] < |col|
    requires forall y {:trigger U[y]} :: 0 <= y < |U| ==> col[U[y]] == col[y]
    requires forall y {:trigger D[y]} :: 0 <= y < |D| ==> col[D[y]] == col[y]
    requires col[b] == j && col[D[b]] == j && b != x && D[b] != x
    requires forall y :: 0 <= y < |U| && y != x ==> U[y] != x && D[y] != x
    requires col' == col[x := j] && U' == U[D[b] := x][x := b] && D' == D[x := D[b]][b := x]
    ensures forall y :: 0 <= y < |U'| ==> col'[U'[y]] == col'[y]
    ensures forall y :: 0 <= y < |D'| ==> col'[D'[y]] == col'[y]
  {
    forall y | 0 <= y < |U| ensures col'[U'[y]] == col'[y] && col'[D'[y]] == col'[y] {
      ClosedAt(col, U, D, x, j, b, y);
    }
  }

  /** ColumnClosed at one id y, after x was spliced in below b, the bottom of column j. */
  lemma ClosedAt(col: seq<nat>, U: seq<nat>, D: seq<nat>, x: nat, j: nat, b: nat, y: nat)
    requires |U| == |D| == |col| && x < |col| && b < |col| && D[b] < |col| && y < |col|
    requires U[y] < |col| && D[y] < |col| && col[U[y]] == col[y] && col[D[y]] == col[y]
    requires col[b] == j && col[D[b]] == j && b != x && D[b] != x
    requires y != x ==> U[y] != x && D[y] != x
    ensures col[x := j][U[D[b] := x][x := b][y]] == col[x := j][y]
    ensures col[x := j][D[x := D[b]][b := x][y]] == col[x := j][y]
  {
  }


  /** The ids past the new node are still unused. */
  lemma AppendedUnused(s: Links, lay: Layout, r: nat, j: nat, prev: nat, x: nat)
    requires Unused(s, lay) && j < |s.L| && j < |s.Size| && x == lay.count < |s.L|
    requires |lay.rowOf| == |lay.col| && r < |lay.rowHi|
    requires prev <= x && s.R[prev] <= x && s.U[j] <= x && s.D[s.U[j]] <= x
    ensures Unused(Appended(s, j, prev, x), Grown(lay, r, j))
  {
    AppendedLinks(s, j, prev, x);
    var t, g := Appended(s, j, prev, x), Grown(lay, r, j);
    forall y | g.count <= y < |t.L|
      ensures Singleton(t, y) && g.col[y] == y
    {
      assert Singleton(s, y) && lay.col[y] == y;
    }
  }

  /** The new node lies in an active column. */
  lemma GrownInside(lay: Layout, r: nat, j: nat, n: nat, Rw: set<nat>)
    requires LayoutOK(lay) && RowsInside(lay, Range(0, n), Rw) && lay.count < |lay.col| && r < |lay.rowHi|
    requires LayoutOK(Grown(lay, r, j)) && j < n
    ensures RowsInside(Grown(lay, r, j), Range(0, n), Rw)
  {
    assert Range(0, n)[j] == j;
  }

  /** The nodes of row r so far lie in columns below j. */
  lemma RowBelow(lay: Layout, m: seq<seq<bool>>, r: nat, j: nat)
    requires RowHolds(lay, m, r, lay.count, j)
    ensures forall y :: lay.rowLo[r] <= y < lay.count ==> lay.col[y] < j
  {
    var lo := lay.rowLo[r];
    var cs := ColsOf(lay, Range(lo, lay.count));
    forall y | lo <= y < lay.count ensures lay.col[y] < j {
      assert cs[y - lo] == lay.col[y] && cs[y - lo] in Ones(m[r], j);
    }
  }

  /** The new node extends its row's columns by j. */
  lemma GrownRow(lay: Layout, m: seq<seq<bool>>, r: nat, j: nat)
    requires RowHolds(lay, m, r, lay.count, j) && j < |m[r]| && m[r][j]
    requires |lay.rowLo| == r + 1 && lay.rowHi[r] == lay.count && lay.count < |lay.col| && LayoutOK(Grown(lay, r, j))
    ensures RowHolds(Grown(lay, r, j), m, r, lay.count + 1, j + 1)
  {
    var lay' := Grown(lay, r, j);
    var lo := lay.rowLo[r];
    var x := lay.count;
    assert ColsOf(lay', Range(lo, x + 1)) == ColsOf(lay, Range(lo, x)) + [j];
  }

  /** A finished row keeps its columns. */
  lemma GrownOldRow(lay: Layout, m: seq<seq<bool>>, r: nat, j: nat, i: nat, n: nat)
    requires LayoutOK(lay) && |lay.rowLo| == r + 1 && i < r && lay.count < |lay.col| && LayoutOK(Grown(lay, r, j))
    requires RowHolds(lay, m, i, lay.rowHi[i], n)
    ensures RowHolds(Grown(lay, r, j), m, i, Grown(lay, r, j).rowHi[i], n)
  {
    var lay' := Grown(lay, r, j);
    assert ColsOf(lay', Range(lay.rowLo[i], lay.rowHi[i])) == ColsOf(lay, Range(lay.rowLo[i], lay.rowHi[i]));
  }

  /** Adding the node for a 1 of row r in column j keeps the structure invariant. */
  lemma InvStep(s: Links, lay: Layout, n: nat, r: nat, j: nat, prev: nat)
    requires Inv(s, lay, Range(0, n), FirstRows(r + 1)) && Unused(s, lay) && lay.n == n && j < n
    requires |lay.rowLo| == r + 1 && lay.rowHi[r] == lay.count && lay.count < |s.L|
    requires forall y :: lay.rowLo[r] <= y < lay.count ==> lay.col[y] < j
    requires prev == (if lay.rowLo[r] == lay.count then lay.count else lay.count - 1)
    ensures Inv(Appended(s, j, prev, lay.count), Grown(lay, r, j), Range(0, n), FirstRows(r + 1))
    ensures Unused(Appended(s, j, prev, lay.count), Grown(lay, r, j))
  {
    var x := lay.count;
    var Rw := FirstRows(r + 1);
    var A := Range(0, n);
    assert Range(0, r + 1)[r] == r && A[j] == j;
    GrownLayout(lay, r, j);
    GrownAscending(lay, r, j);
    NewRowLink(lay, r, j, prev);
    ColumnBottom(s, lay, Live(lay, Rw), j);
    AppendedHeaders(s, lay, A, j, prev, x);
    AppendedColumns(s, lay, A, Rw, r, j, prev, x);
    AppendedRowLinks(s, lay, r, j, prev, x);
    NothingLinksTo(s, lay);
    AppendedClosed(s, lay, r, j, prev, x);
    GrownInside(lay, r, j, n, Rw);
    AppendedUnused(s, lay, r, j, prev, x);
  }

  /** A 1 of row r in column j becomes a node: the build goes on to column j + 1. */
  lemma NodeStep(s: Links, lay: Layout, m: seq<seq<bool>>, n: nat, r: nat, j: nat, prev: nat)
    requires Built(s, lay, m, n, r + 1, j) && j < n && m[r][j] && lay.count < |s.L|
    requires prev == (if lay.rowLo[r] == lay.count then lay.count else lay.count - 1)
    ensures Building(Stage(Appended(s, j, prev, lay.count), Grown(lay, r, j)), m, n, r + 1, j + 1)
  {
    assert Upto(r, r + 1, j, n) == j;
    RowBelow(lay, m, r, j);
    InvStep(s, lay, n, r, j, prev);
    GrownLayout(lay, r, j);
    GrownShape(lay, m, n, r, j);
    GrownRows(lay, m, n, r, j);
    AppendedCounted(s, m, n, r, j, prev, lay.count);
    Close(Appended(s, j, prev, lay.count), Grown(lay, r, j), m, n, r + 1, j + 1);
  }

  /** NodeStep, on stages. */
  lemma NodeStage(st: Stage, m: seq<seq<bool>>, n: nat, r: nat, j: nat, prev: nat)
    requires Building(st, m, n, r + 1, j) && j < n && m[r][j] && st.lay.count < |st.links.L|
    requires prev == (if st.lay.rowLo[r] == st.lay.count then st.lay.count else st.lay.count - 1)
    ensures Building(Stage(Appended(st.links, j, prev, st.lay.count), Grown(st.lay, r, j)), m, n, r + 1, j + 1)
  {
    Open(st, m, n, r + 1, j);
    NodeStep(st.links, st.lay, m, n, r, j, prev);
  }

  /** ZeroStep, on stages. */
  lemma ZeroStage(st: Stage, m: seq<seq<bool>>, n: nat, r: nat, j: nat)
    requires Building(st, m, n, r + 1, j) && j < n && !m[r][j]
    ensures Building(st, m, n, r + 1, j + 1)
  {
    Open(st, m, n, r + 1, j);
    ZeroStep(st.links, st.lay, m, n, r, j);
    Close(st.links, st.lay, m, n, r + 1, j + 1);
  }

  /**
   * While row r of a matrix with `rows` rows is under way, below column
   * j < n, the arena of n + 1 + rows * n ids still has room for a node.
   */
  lemma StageRoom(st: Stage, m: seq<seq<bool>>, n: nat, r: nat, j: nat, rows: nat)
    requires Building(st, m, n, r + 1, j) && j < n && r < rows && |st.links.L| == n + 1 + Cells(rows, n)
    ensures st.lay.count < |st.links.L| && |st.lay.rowLo| == r + 1 && st.lay.rowLo[r] <= st.lay.count
    ensures r < |m| && |m[r]| == n
  {
    Open(st, m, n, r + 1, j);
    CellsFacts(r + 1, rows, n);
  }

  /** HeadersBuilt, on stages. */
  lemma HeadersStage(s: Links, lay: Layout, m: seq<seq<bool>>, n: nat)
    requires HeadersLinked(s, n, n) && Rect(m, n)
    requires lay.n == n && lay.count == n + 1 && |lay.col| == |s.L| == |lay.rowOf|
    requires lay.rowLo == [] && lay.rowHi == [] && forall y :: 0 <= y < |lay.col| ==> lay.col[y] == y
    ensures Building(Stage(s, lay), m, n, 0, n) && lay.n == n
  {
    HeadersBuilt(s, lay, m, n);
    Close(s, lay, m, n, 0, n);
  }

  /** RootSized, on stages. */
  lemma RootStage(st: Stage, m: seq<seq<bool>>, n: nat, k: nat)
    requires Building(st, m, n, k, n)
    ensures Building(Stage(st.links.(Size := st.links.Size[n := n]), st.lay), m, n, k, n)
  {
    Open(st, m, n, k, n);
    RootSized(st.links, st.lay, m, n, k, n);
    Close(st.links.(Size := st.links.Size[n := n]), st.lay, m, n, k, n);
  }

  /** The next id of a stage is still alone. */
  lemma StageFree(st: Stage, m: seq<seq<bool>>, n: nat, k: nat, j: nat)
    requires Building(st, m, n, k, j) && st.lay.count < |st.links.L|
    ensures Singleton(st.links, st.lay.count)
  {
    Open(st, m, n, k, j);
  }

  /** Once all rows are built, the nodes fit in n + 1 + rows * n ids. */
  lemma BuiltBound(st: Stage, m: seq<seq<bool>>, n: nat, rows: nat)
    requires Building(st, m, n, rows, n)
    ensures st.lay.count <= n + 1 + rows * n
  {
    Open(st, m, n, rows, n);
    CellsFacts(rows, rows, n);
  }

  /** The counters after a new node. */
  lemma GrownShape(lay: Layout, m: seq<seq<bool>>, n: nat, r: nat, j: nat)
    requires Shape(lay, m, n, r + 1, j) && j < n && lay.count < |lay.col| && lay.count < |lay.rowOf|
    ensures Shape(Grown(lay, r, j), m, n, r + 1, j + 1)
  {
  }

  /** The rows after a new node: its own row gains column j, the others keep theirs. */
  lemma GrownRows(lay: Layout, m: seq<seq<bool>>, n: nat, r: nat, j: nat)
    requires RowsMatch(lay, m, n, r + 1, j) && Shape(lay, m, n, r + 1, j) && LayoutOK(lay)
    requires j < n && m[r][j] && lay.count < |lay.col| && LayoutOK(Grown(lay, r, j))
    ensures RowsMatch(Grown(lay, r, j), m, n, r + 1, j + 1)
  {
    var lay' := Grown(lay, r, j);
    assert RowHolds(lay, m, r, lay.rowHi[r], Upto(r, r + 1, j, n));
    GrownRow(lay, m, r, j);
    forall i | 0 <= i < r + 1 ensures RowHolds(lay', m, i, lay'.rowHi[i], Upto(i, r + 1, j + 1, n)) {
      if i < r {
        assert RowHolds(lay, m, i, lay.rowHi[i], Upto(i, r + 1, j, n));
        GrownOldRow(lay, m, r, j, i, n);
      }
    }
  }

  /** The Size of column j counts the new node. */
  lemma AppendedCounted(s: Links, m: seq<seq<bool>>, n: nat, r: nat, j: nat, prev: nat, x: nat)
    requires Counted(s, m, n, r + 1, j) && Wf(s) && Rect(m, n) && j < n && m[r][j]
    requires j < |s.L| && prev < |s.L| && x < |s.L|
    ensures Counted(Appended(s, j, prev, x), m, n, r + 1, j + 1)
  {
    var s' := Appended(s, j, prev, x);
    AppendedLinks(s, j, prev, x);
    forall c | 0 <= c < n ensures s'.Size[c] == Seen(m, c, r + 1, j + 1) {
      assert s.Size[c] == Seen(m, c, r + 1, j);
    }
  }

  /** A 0 of row r in column j adds nothing: the build goes on to column j + 1. */
  lemma ZeroStep(s: Links, lay: Layout, m: seq<seq<bool>>, n: nat, r: nat, j: nat)
    requires Built(s, lay, m, n, r + 1, j) && j < n && !m[r][j]
    ensures Built(s, lay, m, n, r + 1, j + 1)
  {
    ZeroRows(lay, m, n, r, j);
    ZeroCounted(s, m, n, r, j);
  }

  /** A 0 leaves the columns of every row as they are. */
  lemma ZeroRows(lay: Layout, m: seq<seq<bool>>, n: nat, r: nat, j: nat)
    requires RowsMatch(lay, m, n, r + 1, j) && Shape(lay, m, n, r + 1, j) && j < n && !m[r][j]
    ensures RowsMatch(lay, m, n, r + 1, j + 1)
  {
    forall i | 0 <= i < r + 1 ensures RowHolds(lay, m, i, lay.rowHi[i], Upto(i, r + 1, j + 1, n)) {
      assert RowHolds(lay, m, i, lay.rowHi[i], Upto(i, r + 1, j, n));
      if i == r {
        assert Ones(m[r], j + 1) == Ones(m[r], j) + [];
      }
    }
  }

  /** A 0 leaves every Size as it is. */
  lemma ZeroCounted(s: Links, m: seq<seq<bool>>, n: nat, r: nat, j: nat)
    requires Counted(s, m, n, r + 1, j) && Rect(m, n) && j < n && !m[r][j]
    ensures Counted(s, m, n, r + 1, j + 1)
  {
    forall c | 0 <= c < n ensures s.Size[c] == Seen(m, c, r + 1, j + 1) {
      assert s.Size[c] == Seen(m, c, r + 1, j);
    }
  }

  /** The last node of row r so far (prevNode of initDLX), or None before its first node. */
  ghost function LastOfRow(lay: Layout, r: nat): Option<nat>
    requires r < |lay.rowLo|
  {
    if lay.rowLo[r] < lay.count then Some(lay.count - 1) else None
  }

  /** The layout with matrix row |lay.rowLo| opened, still without nodes. */
  ghost function Opened(lay: Layout): Layout
  {
    lay.(rowLo := lay.rowLo + [lay.count], rowHi := lay.rowHi + [lay.count])
  }

  /** StartRow, on stages. */
  lemma StartStage(st: Stage, m: seq<seq<bool>>, n: nat, k: nat)
    requires Building(st, m, n, k, n) && k < |m|
    ensures Building(Stage(st.links, Opened(st.lay)), m, n, k + 1, 0)
    ensures |Opened(st.lay).rowLo| == k + 1 && Opened(st.lay).rowLo[k] == st.lay.count
  {
    Open(st, m, n, k, n);
    StartRow(st.links, st.lay, m, n, k);
    Close(st.links, Opened(st.lay), m, n, k + 1, 0);
  }

  /** Opening row k once k rows are complete: the new row has no node yet. */
  lemma StartRow(s: Links, lay: Layout, m: seq<seq<bool>>, n: nat, k: nat)
    requires Built(s, lay, m, n, k, n) && k < |m|
    ensures Built(s, Opened(lay), m, n, k + 1, 0)
  {
    OpenedInv(s, lay, n, k);
    OpenedShape(lay, m, n, k);
    OpenedRows(lay, m, n, k);
    OpenedCounted(s, m, n, k);
  }

  /** The opened row is live but empty: the invariant holds with it. */
  lemma OpenedInv(s: Links, lay: Layout, n: nat, k: nat)
    requires Inv(s, lay, Range(0, n), FirstRows(k)) && |lay.rowLo| == k
    ensures Inv(s, Opened(lay), Range(0, n), FirstRows(k + 1))
  {
    OpenedLayout(lay, k);
    OpenedLive(lay, k);
    OpenedColumns(s, lay, Range(0, n), k);
    OpenedRowLinks(s, lay);
    OpenedInside(lay, Range(0, n), k);
  }

  /** Every live node still lies in an active column. */
  lemma OpenedInside(lay: Layout, A: seq<nat>, k: nat)
    requires LayoutOK(lay) && |lay.rowLo| == k && LayoutOK(Opened(lay)) && RowsInside(lay, A, FirstRows(k))
    ensures RowsInside(Opened(lay), A, FirstRows(k + 1))
  {
    forall x | lay.n < x < lay.count && lay.rowOf[x] in FirstRows(k + 1) ensures lay.col[x] in A {
      assert Range(0, k)[lay.rowOf[x]] == lay.rowOf[x];
    }
  }

  /** The opened row keeps the layout well formed. */
  lemma OpenedLayout(lay: Layout, k: nat)
    requires LayoutOK(lay) && RowsAscending(lay) && |lay.rowLo| == k
    ensures LayoutOK(Opened(lay)) && RowsAscending(Opened(lay))
  {
  }

  /** Opening a row adds no live node. */
  lemma OpenedLive(lay: Layout, k: nat)
    requires LayoutOK(lay) && |lay.rowLo| == k && LayoutOK(Opened(lay))
    ensures Live(Opened(lay), FirstRows(k + 1)) == Live(lay, FirstRows(k))
  {
    var lay' := Opened(lay);
    forall x | x in Live(lay, FirstRows(k)) ensures x in Live(lay', FirstRows(k + 1)) {
      assert Range(0, k + 1)[lay.rowOf[x]] == lay.rowOf[x];
    }
    forall x | x in Live(lay', FirstRows(k + 1)) ensures x in Live(lay, FirstRows(k)) {
      assert Range(0, k)[lay.rowOf[x]] == lay.rowOf[x];
    }
  }

  /** The column rings do not change when a row is opened. */
  lemma OpenedColumns(s: Links, lay: Layout, A: seq<nat>, k: nat)
    requires LayoutOK(lay) && |lay.rowLo| == k && LayoutOK(Opened(lay))
    requires ColumnsOK(s, lay, A, Live(lay, FirstRows(k)))
    requires Live(Opened(lay), FirstRows(k + 1)) == Live(lay, FirstRows(k))
    ensures ColumnsOK(s, Opened(lay), A, Live(Opened(lay), FirstRows(k + 1)))
  {
    var lay' := Opened(lay);
    var P := Live(lay, FirstRows(k));
    forall c | c in A ensures ColumnRing(lay', c, P) == ColumnRing(lay, c, P) {
      NodesAgree(lay', lay, c, P, P, lay.count);
    }
  }

  /** The row links do not change when a row is opened. */
  lemma OpenedRowLinks(s: Links, lay: Layout)
    requires LayoutOK(lay) && LayoutOK(Opened(lay)) && RowLinks(s, lay)
    ensures RowLinks(s, Opened(lay))
  {
    var lay' := Opened(lay);
    forall x | lay.n < x < lay.count ensures RowNext(lay', x) == RowNext(lay, x) && RowPrev(lay', x) == RowPrev(lay, x) {
      assert lay'.rowOf[x] < |lay.rowLo|;
    }
  }

  /** The counters once row k is opened. */
  lemma OpenedShape(lay: Layout, m: seq<seq<bool>>, n: nat, k: nat)
    requires Shape(lay, m, n, k, n) && k < |m|
    ensures Shape(Opened(lay), m, n, k + 1, 0)
  {
  }

  /** The rows once row k is opened: the complete ones keep their columns, the new one has none. */
  lemma OpenedRows(lay: Layout, m: seq<seq<bool>>, n: nat, k: nat)
    requires RowsMatch(lay, m, n, k, n) && Shape(lay, m, n, k, n) && LayoutOK(lay) && k < |m|
    ensures RowsMatch(Opened(lay), m, n, k + 1, 0)
  {
    var lay' := Opened(lay);
    forall i | 0 <= i < k + 1 ensures RowHolds(lay', m, i, lay'.rowHi[i], Upto(i, k + 1, 0, n)) {
      if i < k {
        assert RowHolds(lay, m, i, lay.rowHi[i], Upto(i, k, n, n));
        assert ColsOf(lay', Range(lay.rowLo[i], lay.rowHi[i])) == ColsOf(lay, Range(lay.rowLo[i], lay.rowHi[i]));
      } else {
        assert ColsOf(lay', Range(lay.count, lay.count)) == [];
      }
    }
  }

  /** The Sizes once row k is opened: the 1s of the complete rows. */
  lemma OpenedCounted(s: Links, m: seq<seq<bool>>, n: nat, k: nat)
    requires Counted(s, m, n, k, n) && Rect(m, n) && k < |m|
    ensures Counted(s, m, n, k + 1, 0)
  {
    forall c | 0 <= c < n ensures s.Size[c] == Seen(m, c, k + 1, 0) {
      assert s.Size[c] == Seen(m, c, k, n);
    }
  }

  /** The links after the DancingLinksColumnNode constructor for header h: h alone, with Size 0. */
  ghost function Headed(s: Links, h: nat): Links
    requires Wf(s) && h < |s.L| && h < |s.Size|
  {
    s.(L := s.L[h := h], R := s.R[h := h], U := s.U[h := h], D := s.D[h := h], Size := s.Size[h := 0])
  }

  /**
   * The header ring after the first i column headers: ROOT (id n) followed
   * by headers 0 .. i-1, every id its own vertical neighbour, every other id
   * but ROOT its own horizontal neighbour, and the Size of the linked headers 0.
   */
  ghost predicate HeadersLinked(s: Links, n: nat, i: nat)
  {
    && Wf(s) && n < |s.L| && i <= n && n < |s.Size|
    && Ring(s.R, s.L, [n] + Range(0, i)) && Distinct([n] + Range(0, i))
    && (forall y :: 0 <= y < |s.L| ==> s.U[y] == y && s.D[y] == y)
    && (forall y :: i <= y < |s.L| && y != n ==> s.L[y] == y && s.R[y] == y)
    && (forall c :: 0 <= c < i ==> s.Size[c] == 0)
  }

  /** ROOT alone is the empty header ring. */
  lemma RootAlone(s: Links, n: nat)
    requires Wf(s) && n < |s.L| && n < |s.Size| && forall y :: 0 <= y < |s.L| ==> Singleton(s, y)
    ensures HeadersLinked(Headed(s, n), n, 0)
  {
    var s1 := Headed(s, n);
    assert Singleton(s, n);
    assert s1.L == s.L && s1.R == s.R && s1.U == s.U && s1.D == s.D;
    forall y | 0 <= y < |s.L| ensures s1.L[y] == y && s1.R[y] == y && s1.U[y] == y && s1.D[y] == y {
      assert Singleton(s, y);
    }
    assert [n] + Range(0, 0) == [n];
  }

  /**
   * Header i is created and linked to the Right of the last header (ROOT for
   * the first): it joins the end of the header ring.
   */
  lemma HeaderStep(s: Links, n: nat, i: nat, last: nat)
    requires HeadersLinked(s, n, i) && i < n && last == (if i == 0 then n else i - 1)
    ensures HeadersLinked(RightLinked(Headed(s, i), last, i), n, i + 1)
  {
    var ring := [n] + Range(0, i);
    var s1 := Headed(s, i);
    assert s1.L == s.L && s1.R == s.R && s1.U == s.U && s1.D == s.D;
    assert ring[|ring| - 1] == last;
    assert i !in ring by {
      forall k | 0 <= k < |ring| ensures ring[k] != i {
        if k > 0 { assert ring[k] == Range(0, i)[k - 1]; }
      }
    }
    assert s1.R[last] == n;
    HeaderFrame(s1, n, i, last);
    RingSplice(s1.R, s1.L, ring, |ring| - 1, i);
    assert ring[..|ring|] + [i] + ring[|ring|..] == [n] + Range(0, i + 1);
  }

  /** Linking header i after the last one leaves every later id alone and header i's Size at 0. */
  lemma HeaderFrame(s: Links, n: nat, i: nat, last: nat)
    requires Wf(s) && i < n < |s.L| && n < |s.Size| && (last == n || last < i) && s.R[last] == n
    requires forall y :: i <= y < |s.L| && y != n ==> s.L[y] == y && s.R[y] == y
    requires forall c :: 0 <= c <= i ==> s.Size[c] == 0
    requires forall y :: 0 <= y < |s.L| ==> s.U[y] == y && s.D[y] == y
    ensures forall y :: 0 <= y < |s.L| ==> RightLinked(s, last, i).U[y] == y && RightLinked(s, last, i).D[y] == y
    ensures forall y :: i + 1 <= y < |s.L| && y != n ==> RightLinked(s, last, i).L[y] == y && RightLinked(s, last, i).R[y] == y
    ensures forall c :: 0 <= c < i + 1 ==> RightLinked(s, last, i).Size[c] == 0
  {
  }

  /** The headers alone, with no row yet, are the structure before the first row. */
  lemma HeadersBuilt(s: Links, lay: Layout, m: seq<seq<bool>>, n: nat)
    requires HeadersLinked(s, n, n) && Rect(m, n)
    requires lay.n == n && lay.count == n + 1 && |lay.col| == |s.L| == |lay.rowOf|
    requires lay.rowLo == [] && lay.rowHi == [] && forall y :: 0 <= y < |lay.col| ==> lay.col[y] == y
    ensures Built(s, lay, m, n, 0, n)
  {
    HeadersInv(s, lay, n);
  }

  /** The linked headers, with no row added, satisfy the structure invariant with every column active. */
  lemma HeadersInv(s: Links, lay: Layout, n: nat)
    requires HeadersLinked(s, n, n)
    requires lay.n == n && lay.count == n + 1 && |lay.col| == |s.L| == |lay.rowOf|
    requires lay.rowLo == [] && lay.rowHi == [] && forall y :: 0 <= y < |lay.col| ==> lay.col[y] == y
    ensures Inv(s, lay, Range(0, n), FirstRows(0))
  {
    var A := Range(0, n);
    assert LayoutOK(lay);
    assert Headers(s, lay, A);
    forall c | c in A ensures ColumnRing(lay, c, Live(lay, FirstRows(0))) == [] {
    }
    assert ColumnsOK(s, lay, A, Live(lay, FirstRows(0)));
  }

  /** _head.Size = columnsNumber: ROOT's Size is not part of the structure. */
  lemma RootSized(s: Links, lay: Layout, m: seq<seq<bool>>, n: nat, k: nat, j: nat)
    requires Built(s, lay, m, n, k, j)
    ensures Built(s.(Size := s.Size[n := n]), lay, m, n, k, j)
  {
    var s' := s.(Size := s.Size[n := n]);
    var A := Range(0, n);
    assert s'.L == s.L && s'.R == s.R && s'.U == s.U && s'.D == s.D;
    assert forall c :: 0 <= c < n ==> s'.Size[c] == s.Size[c];
    assert ColumnsOK(s', lay, A, Live(lay, FirstRows(k)));
  }

  /** A node that is its own neighbour on all four sides changes nothing when it is made one again. */
  lemma SingletonSame(s: Links, x: nat)
    requires Wf(s) && x < |s.L| && Singleton(s, x)
    ensures s.(L := s.L[x := x], R := s.R[x := x], U := s.U[x := x], D := s.D[x := x]) == s
  {
  }

  /**
   * The structure built from m, with n columns: the invariant of the search
   * with every column active and every matrix row live, the nodes of matrix
   * row i lying exactly in the columns where m[i] has a 1, in column order,
   * and the Size of every column counting its 1s.
   */
  ghost predicate Encodes(s: Links, lay: Layout, m: seq<seq<bool>>, n: nat)
  {
    && Inv(s, lay, Range(0, n), FirstRows(|m|))
    && RowsEncode(lay, m, n)
    && (forall c :: 0 <= c < n ==> s.Size[c] == CountColumn(m, c, |m|))
  }

  /** The layout has a row for each row of m, lying exactly in the columns where it has a 1, in column order. */
  ghost predicate RowsEncode(lay: Layout, m: seq<seq<bool>>, n: nat)
  {
    && LayoutOK(lay) && lay.n == n && |lay.rowLo| == |m| && Rect(m, n)
    && (forall i :: 0 <= i < |m| ==> ColsOf(lay, Range(lay.rowLo[i], lay.rowHi[i])) == Ones(m[i], n))
  }

  /** Once every row is added, the stage encodes the whole matrix. */
  lemma BuiltEncodes(st: Stage, m: seq<seq<bool>>, n: nat)
    requires Building(st, m, n, |m|, n)
    ensures Encodes(st.links, st.lay, m, n)
  {
    Open(st, m, n, |m|, n);
    var lay := st.lay;
    forall i | 0 <= i < |m|
      ensures ColsOf(lay, Range(lay.rowLo[i], lay.rowHi[i])) == Ones(m[i], n)
    {
      assert RowHolds(lay, m, i, lay.rowHi[i], Upto(i, |m|, n, n));
    }
    forall c | 0 <= c < n
      ensures st.links.Size[c] == CountColumn(m, c, |m|)
    {
      assert Seen(m, c, |m|, n) == CountColumn(m, c, |m|);
    }
  }

  /**
   * initDLX: ROOT (id n) and the n column headers, each linked to the Right
   * of the previous one; then, row after row, a node for every 1 of the
   * matrix. head is ROOT (_head.Right.Column once the headers are linked),
   * and ROOT's Size is set to the number of columns.
   */
  method InitDLX(matrix: array2<bool>) returns (a: Arena, head: nat, ghost lay: Layout)
    requires matrix.Length0 > 0
    ensures fresh(a) && fresh(a.L) && fresh(a.R) && fresh(a.U) && fresh(a.D) && fresh(a.Col) && fresh(a.Size)
    ensures a.Valid() && a.Col[..] == lay.col && a.count == lay.count && head == lay.n == matrix.Length1
    ensures Encodes(a.State(), lay, Grid(matrix), matrix.Length1)
    ensures a.Size[head] == matrix.Length1 && lay.count <= matrix.Length1 + 1 + matrix.Length0 * matrix.Length1
  {
    var n := matrix.Length1;
    var rows := matrix.Length0;
    ghost var m := Grid(matrix);
    a, head := LinkHeaders(n, Cells(rows, n));
    lay := Layout(n, n + 1, a.Col[..], a.Col[..], [], []);
    HeadersStage(a.State(), lay, m, n);
    var r := 0;
    while r < rows
      invariant r <= rows && a.Valid() && a.Col[..] == lay.col && a.count == lay.count && head == n
      invariant a.L.Length == n + 1 + Cells(rows, n) && Building(Stage(a.State(), lay), m, n, r, n)
      invariant forall i, c :: 0 <= i < rows && 0 <= c < n ==> m[i][c] == matrix[i, c]
      invariant fresh(a.L) && fresh(a.R) && fresh(a.U) && fresh(a.D) && fresh(a.Col) && fresh(a.Size)
    {
      lay := AddRow(a, matrix, r, m, lay);
      r := r + 1;
    }
    RootStage(Stage(a.State(), lay), m, n, rows);
    a.Size[head] := n;
    BuiltBound(Stage(a.State(), lay), m, n, rows);
    BuiltEncodes(Stage(a.State(), lay), m, n);
  }

  /**
   * ROOT (id n) and the n column headers 0 .. n-1 in an arena with room for
   * `cells` data nodes, each header linked to the Right of the previous one;
   * head is ROOT, found as _head.Right.Column once the last header is linked.
   */
  method LinkHeaders(n: nat, cells: nat) returns (a: Arena, head: nat)
    ensures fresh(a) && fresh(a.L) && fresh(a.R) && fresh(a.U) && fresh(a.D) && fresh(a.Col) && fresh(a.Size)
    ensures a.Valid() && HeadersLinked(a.State(), n, n) && head == n
    ensures a.count == n + 1 && a.L.Length == n + 1 + cells && a.Size.Length == n + 1
    ensures forall y :: 0 <= y < a.Col.Length ==> a.Col[y] == y
  {
    a := new Arena(n + 1 + cells, n + 1);
    RootAlone(a.State(), n);
    a.NewColumnNode(n);
    var last := LinkColumns(a, n);
    assert ([n] + Range(0, n))[n] == last;
    head := a.Col[a.R[last]];
  }

  /** The loop of initDLX over the columns: headers 0 .. n-1, each to the Right of the one before. */
  method LinkColumns(a: Arena, n: nat) returns (last: nat)
    requires a.Valid() && HeadersLinked(a.State(), n, 0) && a.count == n + 1 && a.Size.Length == n + 1
    requires forall y :: 0 <= y < a.Col.Length ==> a.Col[y] == y
    modifies a, a.L, a.R, a.U, a.D, a.Col, a.Size
    ensures a.Valid() && HeadersLinked(a.State(), n, n) && a.count == n + 1
    ensures last == (if n == 0 then n else n - 1) && a.Col[..] == old(a.Col[..])
  {
    last := n;
    var i := 0;
    while i < n
      invariant i <= n && last == (if i == 0 then n else i - 1)
      invariant a.Valid() && HeadersLinked(a.State(), n, i) && a.count == n + 1
      invariant a.Col[..] == old(a.Col[..])
    {
      last := AddHeader(a, n, i, last);
      i := i + 1;
    }
  }

  /** Header i, linked to the Right of the previous header (of ROOT, for header 0). */
  method AddHeader(a: Arena, n: nat, i: nat, last: nat) returns (last': nat)
    requires i < n && last == (if i == 0 then n else i - 1)
    requires a.Valid() && HeadersLinked(a.State(), n, i) && a.count == n + 1 && a.Size.Length == n + 1
    requires forall y :: 0 <= y < a.Col.Length ==> a.Col[y] == y
    modifies a, a.L, a.R, a.U, a.D, a.Col, a.Size
    ensures last' == i && a.Valid() && HeadersLinked(a.State(), n, i + 1) && a.count == n + 1
    ensures a.Col[..] == old(a.Col[..])
  {
    HeaderStep(a.State(), n, i, last);
    a.NewColumnNode(i);
    last' := a.LinkRight(last, i);
  }

  /** One matrix row: a node for each of its 1s, in column order. */
  method AddRow(a: Arena, matrix: array2<bool>, r: nat, ghost m: seq<seq<bool>>, ghost lay: Layout)
    returns (ghost lay': Layout)
    requires a.Valid() && a.Col[..] == lay.col && a.count == lay.count && r < matrix.Length0
    requires a.L.Length == matrix.Length1 + 1 + Cells(matrix.Length0, matrix.Length1)
    requires r < |m| && |m[r]| == matrix.Length1 && forall c :: 0 <= c < matrix.Length1 ==> m[r][c] == matrix[r, c]
    requires Building(Stage(a.State(), lay), m, matrix.Length1, r, matrix.Length1)
    modifies a, a.L, a.R, a.U, a.D, a.Col, a.Size
    ensures a.Valid() && a.Col[..] == lay'.col && a.count == lay'.count
    ensures Building(Stage(a.State(), lay'), m, matrix.Length1, r + 1, matrix.Length1)
  {
    var n := matrix.Length1;
    StartStage(Stage(a.State(), lay), m, n, r);
    lay' := Opened(lay);
    var prevNode: Option<nat> := None;
    var col := 0;
    while col < n
      invariant col <= n && a.Valid() && a.Col[..] == lay'.col && a.count == lay'.count && |lay'.rowLo| == r + 1
      invariant Building(Stage(a.State(), lay'), m, n, r + 1, col)
      invariant prevNode == LastOfRow(lay', r)
    {
      prevNode, lay' := AddCell(a, matrix, r, col, prevNode, m, lay');
      col := col + 1;
    }
  }

  /** Column col of row r: a node when the matrix has a 1 there, nothing otherwise. */
  method AddCell(a: Arena, matrix: array2<bool>, r: nat, col: nat, prevNode: Option<nat>, ghost m: seq<seq<bool>>, ghost lay: Layout)
    returns (prevNode': Option<nat>, ghost lay': Layout)
    requires a.Valid() && a.Col[..] == lay.col && a.count == lay.count && |lay.rowLo| == r + 1
    requires r < matrix.Length0 && col < matrix.Length1 && r < |m| && col < |m[r]| && m[r][col] == matrix[r, col]
    requires a.L.Length == matrix.Length1 + 1 + Cells(matrix.Length0, matrix.Length1)
    requires Building(Stage(a.State(), lay), m, matrix.Length1, r + 1, col)
    requires prevNode == LastOfRow(lay, r)
    modifies a, a.L, a.R, a.U, a.D, a.Col, a.Size
    ensures a.Valid() && a.Col[..] == lay'.col && a.count == lay'.count && |lay'.rowLo| == r + 1
    ensures Building(Stage(a.State(), lay'), m, matrix.Length1, r + 1, col + 1)
    ensures prevNode' == LastOfRow(lay', r)
  {
    StageRoom(Stage(a.State(), lay), m, matrix.Length1, r, col, matrix.Length0);
    if matrix[r, col] {
      prevNode', lay' := AddNode(a, r, col, prevNode, lay, m, matrix.Length1);
      assert lay'.rowLo[r] < lay'.count;
      assert prevNode' == LastOfRow(lay', r);
    } else {
      ZeroStage(Stage(a.State(), lay), m, matrix.Length1, r, col);
      prevNode', lay' := prevNode, lay;
      assert prevNode' == LastOfRow(lay', r);
    }
  }

  /**
   * One 1 of row r, in column col: a new node of that column, linked below
   * the column's last node and to the Right of the row's previous node (of
   * itself, for the row's first node), and counted in the column's Size.
   */
  method AddNode(a: Arena, r: nat, col: nat, prevNode: Option<nat>, ghost lay: Layout, ghost m: seq<seq<bool>>, ghost n: nat)
    returns (prevNode': Option<nat>, ghost lay': Layout)
    requires a.Valid() && a.Col[..] == lay.col && a.count == lay.count
    requires Building(Stage(a.State(), lay), m, n, r + 1, col) && col < n && m[r][col] && lay.count < a.L.Length
    requires |lay.rowLo| == r + 1 && lay.rowLo[r] <= lay.count && prevNode == LastOfRow(lay, r)
    modifies a, a.L, a.R, a.U, a.D, a.Col, a.Size
    ensures lay' == Grown(lay, r, col) && prevNode' == Some(lay.count)
    ensures lay'.rowLo == lay.rowLo && lay'.count == lay.count + 1
    ensures a.State() == Appended(old(a.State()), col, if prevNode.None? then lay.count else prevNode.value, lay.count)
    ensures a.Valid() && a.Col[..] == lay'.col && a.count == lay'.count
    ensures Building(Stage(a.State(), lay'), m, n, r + 1, col + 1)
  {
    NodeStage(Stage(a.State(), lay), m, n, r, col, if prevNode.None? then lay.count else prevNode.value);
    StageFree(Stage(a.State(), lay), m, n, r + 1, col);
    var x := LinkNode(a, col, prevNode);
    prevNode' := Some(x);
    lay' := Grown(lay, r, col);
  }

  /** The node operations of one 1 in column col, on an arena whose next id is still alone. */
  method LinkNode(a: Arena, col: nat, prevNode: Option<nat>) returns (x: nat)
    requires a.Valid() && a.count < a.L.Length && col < a.Size.Length && Singleton(a.State(), a.count)
    requires prevNode.Some? ==> prevNode.value < a.L.Length
    modifies a, a.L, a.R, a.U, a.D, a.Col, a.Size
    ensures x == old(a.count) && a.count == x + 1
    ensures a.State() == Appended(old(a.State()), col, if prevNode.None? then x else prevNode.value, x)
    ensures a.Valid() && a.Col[..] == old(a.Col[..])[x := col]
  {
    ghost var s0 := a.State();
    SingletonSame(s0, a.count);
    x := a.NewNode(col);
    assert a.State() == s0;
    var prev := if prevNode.None? then x else prevNode.value;
    var _ := a.LinkDown(a.U[col], x);
    prev := a.LinkRight(prev, x);
    ghost var s2 := a.State();
    a.Size[col] := a.Size[col] + 1;
    assert a.State() == s2.(Size := s2.Size[col := s2.Size[col] + 1]);
  }
}
