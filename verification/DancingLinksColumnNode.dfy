/**
 * Column headers and the Cover / Uncover operations of Dancing Links.
 *
 * The arena's ids are laid out by the build step (DancingLinks.initDLX):
 * headers 0 .. n-1 (a header's id is its label), ROOT = n, and the data
 * nodes n+1 .. count-1, allocated one matrix row after the other, so that the
 * nodes of matrix row r are the contiguous ids rowLo[r] .. rowHi[r]-1 in
 * ascending column order. `Layout` records this ghost bookkeeping.
 *
 * Cover and Uncover are specified by CoverFn and UncoverFn, which replay the
 * node operations in the order the source's loops perform them. The main
 * results are that Uncover right after Cover restores every link and every
 * Size (UncoverAfterCover) and that Cover keeps the structure invariant Inv
 * with the covered column and its rows taken out (CoverKeepsInv).
 */
module DancingLinksColumnNode {
  import opened DancingLinksNode

  /**
   * Ghost bookkeeping of the arena: `n` headers, ROOT = n, data nodes in
   * n+1 .. count-1; `col` is the Column of every id, `rowOf` the matrix row
   * of a data node, and the nodes of row r are rowLo[r] .. rowHi[r]-1.
   */
  datatype Layout = Layout(n: nat, count: nat, col: seq<nat>, rowOf: seq<nat>, rowLo: seq<nat>, rowHi: seq<nat>)

  ghost predicate LayoutOK(lay: Layout)
  {
    && lay.n < lay.count <= |lay.col| && |lay.rowOf| == |lay.col|
    && |lay.rowLo| == |lay.rowHi|
    && (forall h :: 0 <= h <= lay.n ==> lay.col[h] == h)
    && (forall x :: lay.n < x < lay.count ==>
          lay.col[x] < lay.n && lay.rowOf[x] < |lay.rowLo| && lay.rowLo[lay.rowOf[x]] <= x < lay.rowHi[lay.rowOf[x]])
    && (forall r :: 0 <= r < |lay.rowLo| ==> lay.n < lay.rowLo[r] <= lay.rowHi[r] <= lay.count)
    && (forall r, x :: 0 <= r < |lay.rowLo| && lay.rowLo[r] <= x < lay.rowHi[r] ==> lay.rowOf[x] == r)
  }

  /** The nodes of a row are laid out in ascending column order, so they lie in distinct columns. */
  ghost predicate RowsAscending(lay: Layout)
    requires LayoutOK(lay)
  {
    forall x, y :: lay.n < x < y < lay.count && lay.rowOf[x] == lay.rowOf[y] ==> lay.col[x] < lay.col[y]
  }

  /** The ids a to b-1 in ascending order. */
  function Range(a: nat, b: nat): (r: seq<nat>)
    requires a <= b
    ensures |r| == b - a && forall k :: 0 <= k < |r| ==> r[k] == a + k
  {
    seq(b - a, k requires 0 <= k < b - a => a + k)
  }

  /** The sequence read backwards. */
  function Rev(xs: seq<nat>): (r: seq<nat>)
    ensures |r| == |xs| && forall k :: 0 <= k < |xs| ==> r[k] == xs[|xs| - 1 - k]
  {
    seq(|xs|, k requires 0 <= k < |xs| => xs[|xs| - 1 - k])
  }

  lemma RevAppend(a: seq<nat>, b: seq<nat>)
    ensures Rev(a + b) == Rev(b) + Rev(a)
  {
  }

  lemma RevLast(xs: seq<nat>)
    requires xs != []
    ensures Rev(xs) == [xs[|xs| - 1]] + Rev(xs[..|xs| - 1])
  {
    var ys := [xs[|xs| - 1]] + Rev(xs[..|xs| - 1]);
    assert forall k :: 0 < k < |xs| ==> ys[k] == Rev(xs[..|xs| - 1])[k - 1];
  }

  /** Right neighbour of a data node in its row: the next id, wrapping to the row's first node. */
  function RowNext(lay: Layout, x: nat): nat
    requires LayoutOK(lay) && lay.n < x < lay.count
  {
    var r := lay.rowOf[x];
    if x + 1 < lay.rowHi[r] then x + 1 else lay.rowLo[r]
  }

  /** Left neighbour of a data node in its row: the previous id, wrapping to the row's last node. */
  function RowPrev(lay: Layout, x: nat): nat
    requires LayoutOK(lay) && lay.n < x < lay.count
  {
    var r := lay.rowOf[x];
    if lay.rowLo[r] < x then x - 1 else lay.rowHi[r] - 1
  }

  /** The row links of every data node are the static ring of its row. */
  ghost predicate RowLinks(s: Links, lay: Layout)
    requires LayoutOK(lay)
  {
    && |s.R| == |s.L| == |lay.col|
    && forall x :: lay.n < x < lay.count ==> s.R[x] == RowNext(lay, x) && s.L[x] == RowPrev(lay, x)
  }

  /**
   * The nodes met walking Right from data node i until i comes back:
   * the rest of its row after i, then the start of the row up to i.
   */
  function RowAfter(lay: Layout, i: nat): (r: seq<nat>)
    requires LayoutOK(lay) && lay.n < i < lay.count
    ensures |r| == lay.rowHi[lay.rowOf[i]] - lay.rowLo[lay.rowOf[i]] - 1
  {
    var row := lay.rowOf[i];
    Range(i + 1, lay.rowHi[row]) + Range(lay.rowLo[row], i)
  }

  /** Every link points at a node of the same column (a header's column is itself). */
  ghost predicate ColumnClosed(s: Links, lay: Layout)
  {
    && Wf(s) && |lay.col| == |s.U|
    && (forall y {:trigger s.U[y]} :: 0 <= y < |s.U| ==> lay.col[s.U[y]] == lay.col[y])
    && (forall y {:trigger s.D[y]} :: 0 <= y < |s.D| ==> lay.col[s.D[y]] == lay.col[y])
  }

  /** Data nodes whose matrix row is one of `rows`. */
  ghost function Live(lay: Layout, rows: set<nat>): set<nat>
    requires LayoutOK(lay)
  {
    set x | lay.n < x < lay.count && lay.rowOf[x] in rows
  }

  /** The data nodes below `hi` of column c that belong to P, in ascending order. */
  ghost function Nodes(lay: Layout, c: nat, P: set<nat>, hi: nat): seq<nat>
    requires hi <= |lay.col|
    decreases hi
  {
    if hi <= lay.n + 1 then []
    else Nodes(lay, c, P, hi - 1) + (if lay.col[hi - 1] == c && hi - 1 in P then [hi - 1] else [])
  }

  /** The content of column c's vertical ring, below its header, when P is the set of present nodes. */
  ghost function ColumnRing(lay: Layout, c: nat, P: set<nat>): seq<nat>
    requires LayoutOK(lay)
  {
    Nodes(lay, c, P, lay.count)
  }

  /** Nodes lists exactly the present nodes of column c in range, in strictly ascending order. */
  lemma NodesFacts(lay: Layout, c: nat, P: set<nat>, hi: nat)
    requires hi <= |lay.col|
    ensures forall x :: x in Nodes(lay, c, P, hi) <==> lay.n < x < hi && lay.col[x] == c && x in P
    ensures forall i, j :: 0 <= i < j < |Nodes(lay, c, P, hi)| ==> Nodes(lay, c, P, hi)[i] < Nodes(lay, c, P, hi)[j]
  {
    NodesMembers(lay, c, P, hi);
    NodesSorted(lay, c, P, hi);
  }

  /** Nodes lists exactly the present nodes of column c in range. */
  lemma {:induction false} NodesMembers(lay: Layout, c: nat, P: set<nat>, hi: nat)
    requires hi <= |lay.col|
    ensures forall x :: x in Nodes(lay, c, P, hi) <==> lay.n < x < hi && lay.col[x] == c && x in P
    decreases hi
  {
    if hi > lay.n + 1 {
      NodesMembers(lay, c, P, hi - 1);
    }
  }

  /** Nodes lists its nodes in strictly ascending order. */
  lemma {:induction false} NodesSorted(lay: Layout, c: nat, P: set<nat>, hi: nat)
    requires hi <= |lay.col|
    ensures forall i, j :: 0 <= i < j < |Nodes(lay, c, P, hi)| ==> Nodes(lay, c, P, hi)[i] < Nodes(lay, c, P, hi)[j]
    decreases hi
  {
    if hi > lay.n + 1 {
      NodesSorted(lay, c, P, hi - 1);
      NodesMembers(lay, c, P, hi - 1);
      var pre := Nodes(lay, c, P, hi - 1);
      var all := Nodes(lay, c, P, hi);
      forall i, j | 0 <= i < j < |all| ensures all[i] < all[j] {
        if j < |pre| {
          assert all[i] == pre[i] && all[j] == pre[j];
        } else {
          assert all[i] == pre[i] && all[i] in pre;
        }
      }
    }
  }

  /** The ring of a column: its header followed by its present nodes, without repetition. */
  lemma ColumnRingDistinct(lay: Layout, c: nat, P: set<nat>)
    requires LayoutOK(lay) && c <= lay.n
    ensures Distinct([c] + ColumnRing(lay, c, P))
    ensures forall k :: 0 <= k < |ColumnRing(lay, c, P)| ==>
              var x := ColumnRing(lay, c, P)[k]; lay.n < x < lay.count && lay.col[x] == c && x in P
  {
    ColumnRingMembers(lay, c, P);
    NodesSorted(lay, c, P, lay.count);
    var cr := ColumnRing(lay, c, P);
    var ring := [c] + cr;
    forall i, j | 0 <= i < j < |ring| ensures ring[i] != ring[j] {
      assert ring[j] == cr[j - 1];
      if i > 0 {
        assert ring[i] == cr[i - 1];
      }
    }
  }

  lemma ColumnRingMembers(lay: Layout, c: nat, P: set<nat>)
    requires LayoutOK(lay)
    ensures forall k :: 0 <= k < |ColumnRing(lay, c, P)| ==>
              var x := ColumnRing(lay, c, P)[k]; lay.n < x < lay.count && lay.col[x] == c && x in P
  {
    NodesMembers(lay, c, P, lay.count);
    var cr := ColumnRing(lay, c, P);
    forall k | 0 <= k < |cr|
      ensures lay.n < cr[k] < lay.count && lay.col[cr[k]] == c && cr[k] in P
    {
      assert cr[k] in cr;
    }
  }

  /** Two node sets that agree on column c give column c the same ring. */
  lemma {:induction false} NodesSame(lay: Layout, c: nat, P: set<nat>, Q: set<nat>, hi: nat)
    requires hi <= |lay.col|
    requires forall x :: lay.n < x < hi && lay.col[x] == c ==> (x in P <==> x in Q)
    ensures Nodes(lay, c, P, hi) == Nodes(lay, c, Q, hi)
    decreases hi
  {
    if hi > lay.n + 1 {
      NodesSame(lay, c, P, Q, hi - 1);
    }
  }

  /** A column's ring can only shrink when nodes are taken away. */
  lemma {:induction false} NodesShrink(lay: Layout, c: nat, P: set<nat>, Q: set<nat>, hi: nat)
    requires hi <= |lay.col| && P <= Q
    ensures |Nodes(lay, c, P, hi)| <= |Nodes(lay, c, Q, hi)|
    decreases hi
  {
    if hi > lay.n + 1 {
      NodesShrink(lay, c, P, Q, hi - 1);
    }
  }

  /** Taking a present node away drops it from its column's ring and keeps the order of the rest. */
  lemma {:induction false} NodesRemove(lay: Layout, c: nat, P: set<nat>, hi: nat, j: nat) returns (k: nat)
    requires hi <= |lay.col| && j in Nodes(lay, c, P, hi)
    ensures k < |Nodes(lay, c, P, hi)| && Nodes(lay, c, P, hi)[k] == j
    ensures Nodes(lay, c, P - {j}, hi) == Nodes(lay, c, P, hi)[..k] + Nodes(lay, c, P, hi)[k + 1..]
    decreases hi
  {
    var pre := Nodes(lay, c, P, hi - 1);
    var tail := if lay.col[hi - 1] == c && hi - 1 in P then [hi - 1] else [];
    assert Nodes(lay, c, P, hi) == pre + tail;
    if j == hi - 1 {
      k := |pre|;
      NodesRemoveTop(lay, c, P, hi);
    } else {
      assert j in pre;
      k := NodesRemove(lay, c, P, hi - 1, j);
      assert Nodes(lay, c, P - {j}, hi) == Nodes(lay, c, P - {j}, hi - 1) + tail;
      CutAppend(pre, tail, k);
    }
  }

  /** Cutting out the k-th element of a + b, when it lies in a. */
  lemma CutAppend(a: seq<nat>, b: seq<nat>, k: nat)
    requires k < |a|
    ensures (a + b)[k] == a[k]
    ensures (a + b)[..k] + (a + b)[k + 1..] == (a[..k] + a[k + 1..]) + b
  {
    assert (a + b)[..k] == a[..k];
    assert (a + b)[k + 1..] == a[k + 1..] + b;
  }

  /** NodesRemove for the node with the largest id in range. */
  lemma NodesRemoveTop(lay: Layout, c: nat, P: set<nat>, hi: nat)
    requires 0 < hi <= |lay.col| && hi - 1 in Nodes(lay, c, P, hi)
    ensures Nodes(lay, c, P, hi) == Nodes(lay, c, P, hi - 1) + [hi - 1]
    ensures Nodes(lay, c, P - {hi - 1}, hi) == Nodes(lay, c, P, hi - 1)
  {
    NodesFacts(lay, c, P, hi - 1);
    NodesSame(lay, c, P, P - {hi - 1}, hi - 1);
  }



  /** Nodes `tr` can be stepped over: they are ids of the arena, and their columns have a Size. */
  ghost predicate Steppable(s: Links, lay: Layout, tr: seq<nat>)
  {
    && Wf(s) && |lay.col| == |s.L|
    && forall k :: 0 <= k < |tr| ==> tr[k] < |s.L| && lay.col[tr[k]] < |s.Size|
  }

  /** Node j can be stepped over. */
  ghost predicate StepOK(s: Links, lay: Layout, j: nat)
  {
    Wf(s) && |lay.col| == |s.L| && j < |s.L| && lay.col[j] < |s.Size|
  }

  /** One step of Cover's inner loop: j.RemoveTopBottom(); j.Column.Size--. */
  function RemoveStep(s: Links, lay: Layout, j: nat): (r: Links)
    requires StepOK(s, lay, j)
    ensures Wf(r) && r.L == s.L && r.R == s.R && |r.Size| == |s.Size|
  {
    var t := TopBottomRemoved(s, j);
    var h := lay.col[j];
    t.(Size := t.Size[h := t.Size[h] - 1])
  }

  /** One step of Uncover's inner loop: j.Column.Size++; j.ReinsertTopBottom(). */
  function ReinsertStep(s: Links, lay: Layout, j: nat): (r: Links)
    requires StepOK(s, lay, j)
    ensures Wf(r) && r.L == s.L && r.R == s.R && |r.Size| == |s.Size|
  {
    var h := lay.col[j];
    TopBottomReinserted(s.(Size := s.Size[h := s.Size[h] + 1]), j)
  }

  /** RemoveStep over the nodes of `tr`, first to last. */
  function RemoveAll(s: Links, lay: Layout, tr: seq<nat>): (r: Links)
    requires Steppable(s, lay, tr)
    ensures Wf(r) && r.L == s.L && r.R == s.R && |r.U| == |s.U| && |r.Size| == |s.Size|
    decreases |tr|
  {
    if tr == [] then s
    else
      var t := RemoveAll(s, lay, tr[..|tr| - 1]);
      RemoveStep(t, lay, tr[|tr| - 1])
  }

  /** ReinsertStep over the nodes of `tr`, first to last. */
  function ReinsertAll(s: Links, lay: Layout, tr: seq<nat>): (r: Links)
    requires Steppable(s, lay, tr)
    ensures Wf(r) && r.L == s.L && r.R == s.R && |r.U| == |s.U| && |r.Size| == |s.Size|
    decreases |tr|
  {
    if tr == [] then s
    else ReinsertAll(ReinsertStep(s, lay, tr[0]), lay, tr[1..])
  }

  /** Reinserting after removing a node that was linked gives back the very same links and sizes. */
  lemma UndoStep(s: Links, lay: Layout, j: nat)
    requires StepOK(s, lay, j) && LinkedTopBottom(s, j)
    ensures ReinsertStep(RemoveStep(s, lay, j), lay, j) == s
  {
    var h := lay.col[j];
    var t := TopBottomRemoved(s, j);
    RemoveThenReinsertTopBottom(s, j);
    assert RemoveStep(s, lay, j).(Size := s.Size) == t;
    assert RemoveStep(s, lay, j).Size[h := RemoveStep(s, lay, j).Size[h] + 1] == s.Size;
  }

  /** Reinserting `a + b` is reinserting `a`, then `b`. */
  lemma {:induction false} ReinsertAllAppend(s: Links, lay: Layout, a: seq<nat>, b: seq<nat>)
    requires Steppable(s, lay, a + b)
    ensures Steppable(s, lay, a) && Steppable(ReinsertAll(s, lay, a), lay, b)
    ensures ReinsertAll(s, lay, a + b) == ReinsertAll(ReinsertAll(s, lay, a), lay, b)
    decreases |a|
  {
    assert forall k :: 0 <= k < |a| ==> a[k] == (a + b)[k];
    assert forall k :: 0 <= k < |b| ==> b[k] == (a + b)[|a| + k];
    if a == [] {
      assert a + b == b;
    } else {
      assert (a + b)[1..] == a[1..] + b;
      ReinsertAllAppend(ReinsertStep(s, lay, a[0]), lay, a[1..], b);
      assert ReinsertAll(s, lay, a) == ReinsertAll(ReinsertStep(s, lay, a[0]), lay, a[1..]);
    }
  }

  /**
   * A node step only touches the vertical links of nodes in the stepped
   * node's own column and only that column's Size, and it keeps every
   * link inside its column.
   */
  lemma StepFrame(s: Links, lay: Layout, j: nat)
    requires StepOK(s, lay, j) && ColumnClosed(s, lay)
    ensures ColumnClosed(RemoveStep(s, lay, j), lay) && ColumnClosed(ReinsertStep(s, lay, j), lay)
    ensures forall y {:trigger RemoveStep(s, lay, j).U[y]} :: 0 <= y < |s.U| && lay.col[y] != lay.col[j] ==>
              RemoveStep(s, lay, j).U[y] == s.U[y]
    ensures forall y {:trigger RemoveStep(s, lay, j).D[y]} :: 0 <= y < |s.D| && lay.col[y] != lay.col[j] ==>
              RemoveStep(s, lay, j).D[y] == s.D[y]
    ensures forall y {:trigger ReinsertStep(s, lay, j).U[y]} :: 0 <= y < |s.U| && lay.col[y] != lay.col[j] ==>
              ReinsertStep(s, lay, j).U[y] == s.U[y]
    ensures forall y {:trigger ReinsertStep(s, lay, j).D[y]} :: 0 <= y < |s.D| && lay.col[y] != lay.col[j] ==>
              ReinsertStep(s, lay, j).D[y] == s.D[y]
    ensures forall h :: 0 <= h < |s.Size| && h != lay.col[j] ==>
              RemoveStep(s, lay, j).Size[h] == s.Size[h] && ReinsertStep(s, lay, j).Size[h] == s.Size[h]
  {
  }

  /** Removing nodes none of which is in column c leaves column c's vertical links and Size alone. */
  lemma {:induction false} RemoveAllFrame(s: Links, lay: Layout, tr: seq<nat>, c: nat)
    requires Steppable(s, lay, tr) && ColumnClosed(s, lay)
    requires forall k :: 0 <= k < |tr| ==> lay.col[tr[k]] != c
    ensures ColumnClosed(RemoveAll(s, lay, tr), lay)
    ensures forall y {:trigger RemoveAll(s, lay, tr).U[y]} :: 0 <= y < |s.U| && lay.col[y] == c ==>
              RemoveAll(s, lay, tr).U[y] == s.U[y]
    ensures forall y {:trigger RemoveAll(s, lay, tr).D[y]} :: 0 <= y < |s.D| && lay.col[y] == c ==>
              RemoveAll(s, lay, tr).D[y] == s.D[y]
    ensures c < |s.Size| ==> RemoveAll(s, lay, tr).Size[c] == s.Size[c]
    decreases |tr|
  {
    if tr != [] {
      var pre := tr[..|tr| - 1];
      RemoveAllFrame(s, lay, pre, c);
      StepFrame(RemoveAll(s, lay, pre), lay, tr[|tr| - 1]);
    }
  }

  /** Reinserting nodes none of which is in column c leaves column c's vertical links and Size alone. */
  lemma {:induction false} ReinsertAllFrame(s: Links, lay: Layout, tr: seq<nat>, c: nat)
    requires Steppable(s, lay, tr) && ColumnClosed(s, lay)
    requires forall k :: 0 <= k < |tr| ==> lay.col[tr[k]] != c
    ensures ColumnClosed(ReinsertAll(s, lay, tr), lay)
    ensures forall y {:trigger ReinsertAll(s, lay, tr).U[y]} :: 0 <= y < |s.U| && lay.col[y] == c ==>
              ReinsertAll(s, lay, tr).U[y] == s.U[y]
    ensures forall y {:trigger ReinsertAll(s, lay, tr).D[y]} :: 0 <= y < |s.D| && lay.col[y] == c ==>
              ReinsertAll(s, lay, tr).D[y] == s.D[y]
    ensures c < |s.Size| ==> ReinsertAll(s, lay, tr).Size[c] == s.Size[c]
    decreases |tr|
  {
    if tr != [] {
      StepFrame(s, lay, tr[0]);
      ReinsertAllFrame(ReinsertStep(s, lay, tr[0]), lay, tr[1..], c);
    }
  }

  /**
   * The vertical rings of the columns in A, with P the present data nodes:
   * each is its header followed by its present nodes, and its Size is their number.
   */
  ghost predicate ColumnsOK(s: Links, lay: Layout, A: seq<nat>, P: set<nat>)
    requires LayoutOK(lay)
  {
    forall c :: c in A ==>
      && c < lay.n && c < |s.Size|
      && Ring(s.D, s.U, [c] + ColumnRing(lay, c, P))
      && s.Size[c] == |ColumnRing(lay, c, P)|
  }

  /**
   * Removing one present node j whose column is in A: it was linked, and the
   * rings of A now hold the present nodes without j.
   */
  lemma WalkStep(s: Links, lay: Layout, A: seq<nat>, P: set<nat>, j: nat)
    requires LayoutOK(lay) && Wf(s) && |s.L| == |lay.col| && lay.n < |s.Size|
    requires ColumnsOK(s, lay, A, P)
    requires lay.n < j < lay.count && j in P && lay.col[j] in A
    ensures StepOK(s, lay, j) && LinkedTopBottom(s, j)
    ensures ColumnsOK(RemoveStep(s, lay, j), lay, A, P - {j})
  {
    var c := lay.col[j];
    var t := RemoveStep(s, lay, j);
    var up, down := OwnColumnRemoved(s, lay, c, P, j);
    forall c' | c' in A ensures
      && c' < lay.n && c' < |t.Size|
      && Ring(t.D, t.U, [c'] + ColumnRing(lay, c', P - {j}))
      && t.Size[c'] == |ColumnRing(lay, c', P - {j})|
    {
      if c' != c {
        OtherColumnKept(s, lay, c', P, j, up, down);
      }
    }
  }

  /** WalkStep for j's own column: j is unlinked from it and its Size drops by one. */
  lemma OwnColumnRemoved(s: Links, lay: Layout, c: nat, P: set<nat>, j: nat) returns (up: nat, down: nat)
    requires LayoutOK(lay) && Wf(s) && |s.L| == |lay.col| && lay.n < |s.Size|
    requires c < lay.n && Ring(s.D, s.U, [c] + ColumnRing(lay, c, P)) && s.Size[c] == |ColumnRing(lay, c, P)|
    requires lay.n < j < lay.count && j in P && lay.col[j] == c
    ensures StepOK(s, lay, j) && LinkedTopBottom(s, j)
    ensures up == s.U[j] && down == s.D[j] && up < |s.L| && down < |s.L| && lay.col[up] == c && lay.col[down] == c
    ensures RemoveStep(s, lay, j).D == s.D[up := down] && RemoveStep(s, lay, j).U == s.U[down := up]
    ensures Ring(RemoveStep(s, lay, j).D, RemoveStep(s, lay, j).U, [c] + ColumnRing(lay, c, P - {j}))
    ensures RemoveStep(s, lay, j).Size[c] == |ColumnRing(lay, c, P - {j})|
  {
    var cr := ColumnRing(lay, c, P);
    var ring := [c] + cr;
    var k := RingPosition(lay, c, P, j);
    RingRemove(s.D, s.U, ring, k);
    up := s.U[j];
    down := s.D[j];
    ColumnRingMembers(lay, c, P);
    assert up == ring[k - 1];
    if k > 1 { assert ring[k - 1] == cr[k - 2]; }
    if k + 1 < |ring| {
      assert down == ring[k + 1] == cr[k];
    } else {
      assert down == ring[0] == c;
    }
  }

  /** Where a present node sits in its column's ring, and what is left when it is taken out. */
  lemma RingPosition(lay: Layout, c: nat, P: set<nat>, j: nat) returns (k: nat)
    requires LayoutOK(lay) && c < lay.n && lay.n < j < lay.count && j in P && lay.col[j] == c
    ensures 0 < k < |[c] + ColumnRing(lay, c, P)| && ([c] + ColumnRing(lay, c, P))[k] == j
    ensures Distinct([c] + ColumnRing(lay, c, P))
    ensures ([c] + ColumnRing(lay, c, P))[..k] + ([c] + ColumnRing(lay, c, P))[k + 1..] == [c] + ColumnRing(lay, c, P - {j})
  {
    var cr := ColumnRing(lay, c, P);
    NodesMembers(lay, c, P, lay.count);
    var i := NodesRemove(lay, c, P, lay.count, j);
    ColumnRingDistinct(lay, c, P);
    k := i + 1;
    ConsCut(c, cr, i);
  }

  /** Cutting out the (i + 1)-th element of [c] + cr cuts out the i-th element of cr. */
  lemma ConsCut(c: nat, cr: seq<nat>, i: nat)
    requires i < |cr|
    ensures ([c] + cr)[i + 1] == cr[i]
    ensures ([c] + cr)[..i + 1] + ([c] + cr)[i + 2..] == [c] + (cr[..i] + cr[i + 1..])
  {
    assert ([c] + cr)[..i + 1] == [c] + cr[..i];
    assert ([c] + cr)[i + 2..] == cr[i + 1..];
  }


  /** WalkStep for a column other than j's: its ring and Size are untouched. */
  lemma OtherColumnKept(s: Links, lay: Layout, c': nat, P: set<nat>, j: nat, up: nat, down: nat)
    requires LayoutOK(lay) && Wf(s) && |s.L| == |lay.col| && lay.n < |s.Size|
    requires c' < lay.n && Ring(s.D, s.U, [c'] + ColumnRing(lay, c', P))
    requires lay.n < j < lay.count && lay.col[j] != c'
    requires up < |s.L| && down < |s.L| && lay.col[up] == lay.col[j] && lay.col[down] == lay.col[j]
    ensures Ring(s.D[up := down], s.U[down := up], [c'] + ColumnRing(lay, c', P - {j}))
    ensures ColumnRing(lay, c', P - {j}) == ColumnRing(lay, c', P)
  {
    NodesSame(lay, c', P, P - {j}, lay.count);
    ColumnRingDistinct(lay, c', P);
    var ring := [c'] + ColumnRing(lay, c', P);
    forall k | 0 <= k < |ring| ensures lay.col[ring[k]] == c' {
    }
    RingUnchanged(s.D, s.U, s.D[up := down], s.U[down := up], ring);
  }

  /** The set of nodes on a trace. */
  ghost function Elems(tr: seq<nat>): set<nat>
  {
    set j | j in tr
  }

  /**
   * Removing the distinct present nodes `tr`, whose columns are in A, one
   * after the other: the rings of A then hold the present nodes without
   * them, and reinserting them in the reverse order gives back exactly `s`.
   */
  lemma {:induction false} RemoveAllWalk(s: Links, lay: Layout, A: seq<nat>, P: set<nat>, tr: seq<nat>)
    requires LayoutOK(lay) && Wf(s) && |s.L| == |lay.col| && lay.n < |s.Size|
    requires ColumnsOK(s, lay, A, P)
    requires Distinct(tr)
    requires forall k :: 0 <= k < |tr| ==> lay.n < tr[k] < lay.count && tr[k] in P && lay.col[tr[k]] in A
    ensures Steppable(s, lay, tr) && Steppable(RemoveAll(s, lay, tr), lay, Rev(tr))
    ensures ColumnsOK(RemoveAll(s, lay, tr), lay, A, P - Elems(tr))
    ensures ReinsertAll(RemoveAll(s, lay, tr), lay, Rev(tr)) == s
    decreases |tr|
  {
    if tr == [] {
      assert P - Elems(tr) == P;
    } else {
      var pre := tr[..|tr| - 1];
      var j := tr[|tr| - 1];
      DistinctLast(tr);
      assert forall k :: 0 <= k < |pre| ==> pre[k] == tr[k];
      RemoveAllWalk(s, lay, A, P, pre);
      WalkLast(s, lay, A, P, tr);
      UndoLast(s, lay, tr);
    }
  }

  /** The induction step of RemoveAllWalk for the rings: removing the last node of the trace. */
  lemma WalkLast(s: Links, lay: Layout, A: seq<nat>, P: set<nat>, tr: seq<nat>)
    requires LayoutOK(lay) && Wf(s) && |s.L| == |lay.col| && lay.n < |s.Size|
    requires tr != [] && Distinct(tr)
    requires forall k :: 0 <= k < |tr| ==> lay.n < tr[k] < lay.count && tr[k] in P && lay.col[tr[k]] in A
    requires Steppable(s, lay, tr)
    requires ColumnsOK(RemoveAll(s, lay, tr[..|tr| - 1]), lay, A, P - Elems(tr[..|tr| - 1]))
    ensures LinkedTopBottom(RemoveAll(s, lay, tr[..|tr| - 1]), tr[|tr| - 1])
    ensures ColumnsOK(RemoveAll(s, lay, tr), lay, A, P - Elems(tr))
  {
    var t, j, Q := LastFacts(s, lay, A, P, tr);
    WalkStep(t, lay, A, P - Elems(tr[..|tr| - 1]), j);
  }

  /** The last node of a walk, the state before it and what is left after it. */
  lemma LastFacts(s: Links, lay: Layout, A: seq<nat>, P: set<nat>, tr: seq<nat>)
      returns (t: Links, j: nat, Q: set<nat>)
    requires LayoutOK(lay) && Wf(s) && |s.L| == |lay.col| && lay.n < |s.Size|
    requires tr != [] && Distinct(tr)
    requires forall k :: 0 <= k < |tr| ==> lay.n < tr[k] < lay.count && tr[k] in P && lay.col[tr[k]] in A
    requires Steppable(s, lay, tr)
    ensures Steppable(s, lay, tr[..|tr| - 1]) && t == RemoveAll(s, lay, tr[..|tr| - 1])
    ensures j == tr[|tr| - 1] && lay.n < j < lay.count && lay.col[j] in A
    ensures Wf(t) && |t.L| == |lay.col| && lay.n < |t.Size|
    ensures j in P - Elems(tr[..|tr| - 1]) && Q == P - Elems(tr) && Q == (P - Elems(tr[..|tr| - 1])) - {j}
    ensures StepOK(t, lay, j) && RemoveAll(s, lay, tr) == RemoveStep(t, lay, j)
  {
    var pre := tr[..|tr| - 1];
    j := tr[|tr| - 1];
    assert forall k :: 0 <= k < |pre| ==> pre[k] == tr[k];
    t := RemoveAll(s, lay, pre);
    DistinctLast(tr);
    RemoveAllLast(s, lay, tr);
    ElemsLast(tr);
    Q := P - Elems(tr);
  }

  lemma DistinctLast(tr: seq<nat>)
    requires tr != [] && Distinct(tr)
    ensures Distinct(tr[..|tr| - 1]) && tr[|tr| - 1] !in Elems(tr[..|tr| - 1])
  {
    var pre := tr[..|tr| - 1];
    forall k | 0 <= k < |pre| ensures pre[k] != tr[|tr| - 1] {
      assert pre[k] == tr[k];
    }
  }

  lemma ElemsLast(tr: seq<nat>)
    requires tr != []
    ensures Elems(tr) == Elems(tr[..|tr| - 1]) + {tr[|tr| - 1]}
  {
    assert tr == tr[..|tr| - 1] + [tr[|tr| - 1]];
  }

  lemma RemoveAllLast(s: Links, lay: Layout, tr: seq<nat>)
    requires tr != [] && Steppable(s, lay, tr)
    ensures RemoveAll(s, lay, tr) == RemoveStep(RemoveAll(s, lay, tr[..|tr| - 1]), lay, tr[|tr| - 1])
  {
  }

  /** Reinserting the last removed node first undoes that removal. */
  lemma UndoLast(s: Links, lay: Layout, tr: seq<nat>)
    requires tr != [] && Steppable(s, lay, tr)
    requires Steppable(RemoveAll(s, lay, tr[..|tr| - 1]), lay, Rev(tr[..|tr| - 1]))
    requires LinkedTopBottom(RemoveAll(s, lay, tr[..|tr| - 1]), tr[|tr| - 1])
    ensures Steppable(RemoveAll(s, lay, tr), lay, Rev(tr))
    ensures ReinsertAll(RemoveAll(s, lay, tr), lay, Rev(tr))
         == ReinsertAll(RemoveAll(s, lay, tr[..|tr| - 1]), lay, Rev(tr[..|tr| - 1]))
  {
    var pre := tr[..|tr| - 1];
    var j := tr[|tr| - 1];
    var t := RemoveAll(s, lay, pre);
    UndoStep(t, lay, j);
    RevLast(tr);
    assert ReinsertAll(RemoveAll(s, lay, tr), lay, Rev(tr))
        == ReinsertAll(ReinsertStep(RemoveStep(t, lay, j), lay, j), lay, Rev(pre));
  }

  /** RowAfter lists, once each, the other nodes of i's row. */
  lemma RowAfterFacts(lay: Layout, i: nat)
    requires LayoutOK(lay) && lay.n < i < lay.count
    ensures Distinct(RowAfter(lay, i))
    ensures forall x :: x in RowAfter(lay, i) <==>
              lay.n < x < lay.count && lay.rowOf[x] == lay.rowOf[i] && x != i
  {
    RowAfterMembers(lay, i);
    RowAfterDistinct(lay, i);
  }

  /** RowAfter lists the other nodes of i's row and nothing else. */
  lemma RowAfterMembers(lay: Layout, i: nat)
    requires LayoutOK(lay) && lay.n < i < lay.count
    ensures forall x :: x in RowAfter(lay, i) <==>
              lay.n < x < lay.count && lay.rowOf[x] == lay.rowOf[i] && x != i
  {
    var r := lay.rowOf[i];
    var ra := RowAfter(lay, i);
    var a := Range(i + 1, lay.rowHi[r]);
    var b := Range(lay.rowLo[r], i);
    assert ra == a + b;
    forall x ensures x in ra <==> lay.n < x < lay.count && lay.rowOf[x] == r && x != i {
      if lay.n < x < lay.count && lay.rowOf[x] == r && x != i {
        if x > i { assert a[x - i - 1] == x; } else { assert b[x - lay.rowLo[r]] == x; }
      }
    }
  }

  /** RowAfter lists each node once. */
  lemma RowAfterDistinct(lay: Layout, i: nat)
    requires LayoutOK(lay) && lay.n < i < lay.count
    ensures Distinct(RowAfter(lay, i))
  {
    var r := lay.rowOf[i];
    var ra := RowAfter(lay, i);
    var a := Range(i + 1, lay.rowHi[r]);
    var b := Range(lay.rowLo[r], i);
    assert ra == a + b;
    forall p, q | 0 <= p < q < |ra| ensures ra[p] != ra[q] {
      if q < |a| || p >= |a| {
      } else {
        assert ra[p] == a[p] && ra[q] == b[q - |a|];
      }
    }
  }

  /** The rows that hold the nodes of `ring`. */
  ghost function RowsOf(lay: Layout, ring: seq<nat>): set<nat>
    requires forall k :: 0 <= k < |ring| ==> ring[k] < |lay.rowOf|
  {
    set i | i in ring :: lay.rowOf[i]
  }

  lemma RowsOfSnoc(lay: Layout, ring: seq<nat>)
    requires ring != [] && forall k :: 0 <= k < |ring| ==> ring[k] < |lay.rowOf|
    ensures RowsOf(lay, ring) == RowsOf(lay, ring[..|ring| - 1]) + {lay.rowOf[ring[|ring| - 1]]}
  {
    var pre := ring[..|ring| - 1];
    assert forall x :: x in ring <==> x in pre || x == ring[|ring| - 1];
  }

  /** The columns of the nodes xs, in order. */
  ghost function ColsOf(lay: Layout, xs: seq<nat>): (cs: seq<nat>)
    requires forall m :: 0 <= m < |xs| ==> xs[m] < |lay.col|
    ensures |cs| == |xs| && forall m :: 0 <= m < |xs| ==> cs[m] == lay.col[xs[m]]
  {
    seq(|xs|, m requires 0 <= m < |xs| => lay.col[xs[m]])
  }

  /** Every node of `xs` is a data node. */
  ghost predicate DataNodes(lay: Layout, xs: seq<nat>)
  {
    forall k :: 0 <= k < |xs| ==> lay.n < xs[k] < lay.count
  }

  lemma DataNodesPrefix(lay: Layout, xs: seq<nat>, k: nat)
    requires DataNodes(lay, xs) && k <= |xs|
    ensures DataNodes(lay, xs[..k])
  {
  }

  /** Nodes of the given rows, in the order Cover's loops visit them: for each row, the nodes after it. */
  function Trace(lay: Layout, ring: seq<nat>): (r: seq<nat>)
    requires LayoutOK(lay) && DataNodes(lay, ring)
    ensures forall k :: 0 <= k < |r| ==> lay.n < r[k] < lay.count
    decreases |ring|
  {
    if ring == [] then []
    else
      var i := ring[|ring| - 1];
      var ra := RowAfter(lay, i);
      assert forall k :: 0 <= k < |ra| ==> lay.rowLo[lay.rowOf[i]] <= ra[k] < lay.rowHi[lay.rowOf[i]];
      Trace(lay, ring[..|ring| - 1]) + ra
  }

  /**
   * For nodes of one column c, the trace visits the other nodes of their
   * rows, and nothing else.
   */
  lemma {:induction false} TraceMembers(lay: Layout, c: nat, ring: seq<nat>)
    requires LayoutOK(lay) && RowsAscending(lay)
    requires forall k :: 0 <= k < |ring| ==> lay.n < ring[k] < lay.count && lay.col[ring[k]] == c
    ensures forall x :: x in Trace(lay, ring) <==>
              lay.n < x < lay.count && lay.col[x] != c && lay.rowOf[x] in RowsOf(lay, ring)
    decreases |ring|
  {
    if ring != [] {
      var pre := ring[..|ring| - 1];
      var i := ring[|ring| - 1];
      TraceMembers(lay, c, pre);
      RowAfterMembers(lay, i);
      var t := Trace(lay, pre);
      var ra := RowAfter(lay, i);
      assert Trace(lay, ring) == t + ra;
      RowsOfSnoc(lay, ring);
      forall x ensures x in t + ra <==> lay.n < x < lay.count && lay.col[x] != c && lay.rowOf[x] in RowsOf(lay, ring) {
        if x in ra {
          assert x != i && lay.rowOf[x] == lay.rowOf[i] && lay.col[x] != lay.col[i];
        }
      }
    }
  }

  /** Distinct nodes of one column lie in distinct rows, so the trace visits each node at most once. */
  lemma {:induction false} TraceDistinct(lay: Layout, c: nat, ring: seq<nat>)
    requires LayoutOK(lay) && RowsAscending(lay) && Distinct(ring)
    requires forall k :: 0 <= k < |ring| ==> lay.n < ring[k] < lay.count && lay.col[ring[k]] == c
    ensures Distinct(Trace(lay, ring))
    decreases |ring|
  {
    if ring != [] {
      var pre := ring[..|ring| - 1];
      var i := ring[|ring| - 1];
      TraceDistinct(lay, c, pre);
      TraceMembers(lay, c, pre);
      RowAfterFacts(lay, i);
      var t := Trace(lay, pre);
      var ra := RowAfter(lay, i);
      assert Trace(lay, ring) == t + ra;
      NewRow(lay, c, ring);
      assert forall x :: x in t ==> x !in ra;
      DistinctConcat(t, ra);
    }
  }

  /** Distinct sequences with no common element concatenate to a distinct sequence. */
  lemma DistinctConcat(a: seq<nat>, b: seq<nat>)
    requires Distinct(a) && Distinct(b) && forall x :: x in a ==> x !in b
    ensures Distinct(a + b)
  {
    forall p, q | 0 <= p < q < |a + b| ensures (a + b)[p] != (a + b)[q] {
      if p < |a| && q >= |a| {
        assert (a + b)[p] in a && (a + b)[q] in b;
      }
    }
  }

  /** The last of distinct nodes of one column lies in a row none of the others lies in. */
  lemma NewRow(lay: Layout, c: nat, ring: seq<nat>)
    requires LayoutOK(lay) && RowsAscending(lay) && Distinct(ring) && ring != []
    requires forall k :: 0 <= k < |ring| ==> lay.n < ring[k] < lay.count && lay.col[ring[k]] == c
    ensures lay.rowOf[ring[|ring| - 1]] !in RowsOf(lay, ring[..|ring| - 1])
  {
    var pre := ring[..|ring| - 1];
    var i := ring[|ring| - 1];
    forall k | 0 <= k < |pre| ensures lay.rowOf[pre[k]] != lay.rowOf[i] {
      assert pre[k] == ring[k] && ring[k] != i;
    }
  }

  /** The arguments Cover and Uncover need: c is a header whose vertical ring is [c] + ring. */
  ghost predicate CoverArgs(s: Links, lay: Layout, c: nat, ring: seq<nat>)
  {
    && LayoutOK(lay) && Wf(s) && |s.L| == |lay.col| && lay.n < |s.Size| && c < lay.n
    && s.L[c] <= lay.n && s.R[c] <= lay.n
    && Ring(s.D, s.U, [c] + ring) && Distinct([c] + ring)
    && (forall k :: 0 <= k < |ring| ==> lay.n < ring[k] < lay.count && lay.col[ring[k]] == c)
    && RowLinks(s, lay) && ColumnClosed(s, lay)
  }

  lemma CoverArgsSteppable(s: Links, lay: Layout, c: nat, ring: seq<nat>)
    requires CoverArgs(s, lay, c, ring)
    ensures Steppable(s, lay, Trace(lay, ring)) && Steppable(s, lay, Rev(Trace(lay, ring)))
    ensures Steppable(LeftRightRemoved(s, c), lay, Trace(lay, ring))
  {
  }

  /**
   * Cover as a function of the links: the header leaves the header ring,
   * then every other node of every row of its column leaves its own column,
   * row after row from the top, each row walked to the right.
   */
  ghost function CoverFn(s: Links, lay: Layout, c: nat, ring: seq<nat>): Links
    requires CoverArgs(s, lay, c, ring)
  {
    CoverArgsSteppable(s, lay, c, ring);
    RemoveAll(LeftRightRemoved(s, c), lay, Trace(lay, ring))
  }

  /**
   * Uncover as a function of the links: rows from the bottom, each walked
   * to the left, put their nodes back, then the header rejoins the header ring.
   */
  ghost function UncoverFn(s: Links, lay: Layout, c: nat, ring: seq<nat>): Links
    requires CoverArgs(s, lay, c, ring)
  {
    CoverArgsSteppable(s, lay, c, ring);
    LeftRightReinserted(ReinsertAll(s, lay, Rev(Trace(lay, ring))), c)
  }

  /** Walking Right from data node i visits RowAfter(lay, i) in order and comes back to i. */
  lemma RowAfterNext(lay: Layout, i: nat)
    requires LayoutOK(lay) && lay.n < i < lay.count
    ensures RowNext(lay, i) == (if |RowAfter(lay, i)| > 0 then RowAfter(lay, i)[0] else i)
    ensures forall m :: 0 <= m < |RowAfter(lay, i)| ==>
              lay.n < RowAfter(lay, i)[m] < lay.count &&
              RowNext(lay, RowAfter(lay, i)[m]) == (if m + 1 < |RowAfter(lay, i)| then RowAfter(lay, i)[m + 1] else i)
  {
    var r := lay.rowOf[i];
    assert r < |lay.rowLo| == |lay.rowHi| && lay.rowLo[r] <= i < lay.rowHi[r];
    var a := Range(i + 1, lay.rowHi[r]);
    var b := Range(lay.rowLo[r], i);
    var ra := RowAfter(lay, i);
    assert ra == a + b;
    forall m | 0 <= m < |ra|
      ensures lay.n < ra[m] < lay.count && RowNext(lay, ra[m]) == (if m + 1 < |ra| then ra[m + 1] else i)
    {
      if m < |a| {
        assert ra[m] == i + 1 + m && lay.rowOf[ra[m]] == r;
      } else {
        assert ra[m] == lay.rowLo[r] + m - |a| && lay.rowOf[ra[m]] == r;
      }
    }
  }

  /** Walking Left from data node i first meets the last node of RowAfter(lay, i). */
  lemma RowAfterPrev(lay: Layout, i: nat)
    requires LayoutOK(lay) && lay.n < i < lay.count
    ensures var ra := RowAfter(lay, i);
      RowPrev(lay, i) == (if |ra| > 0 then ra[|ra| - 1] else i)
  {
    var r := lay.rowOf[i];
    var a := Range(i + 1, lay.rowHi[r]);
    var b := Range(lay.rowLo[r], i);
    var ra := RowAfter(lay, i);
    assert ra == a + b;
    if |b| > 0 {
      assert ra[|ra| - 1] == b[|b| - 1] == i - 1;
    } else if |a| > 0 {
      assert ra[|ra| - 1] == a[|a| - 1] == lay.rowHi[r] - 1;
    }
  }

  /** Walking Left from the m-th node of RowAfter(lay, i) meets the one before it, or i. */
  lemma RowPrevAt(lay: Layout, i: nat, m: nat)
    requires LayoutOK(lay) && lay.n < i < lay.count && m < |RowAfter(lay, i)|
    ensures var ra := RowAfter(lay, i);
      lay.n < ra[m] < lay.count && ra[m] != i && RowPrev(lay, ra[m]) == (if m > 0 then ra[m - 1] else i)
  {
    var r := lay.rowOf[i];
    var a := Range(i + 1, lay.rowHi[r]);
    var b := Range(lay.rowLo[r], i);
    var ra := RowAfter(lay, i);
    assert ra == a + b;
    if m < |a| {
      assert ra[m] == i + 1 + m && lay.rowOf[ra[m]] == r;
      if m > 0 { assert ra[m - 1] == i + m; }
    } else {
      assert ra[m] == lay.rowLo[r] + m - |a| && lay.rowOf[ra[m]] == r;
      if m > |a| {
        assert ra[m - 1] == ra[m] - 1;
      } else if m > 0 {
        assert ra[m - 1] == lay.rowHi[r] - 1;
      } else {
        assert i == lay.rowHi[r] - 1;
      }
    }
  }

  /** The trace of the first k + 1 rows is the trace of the first k, then the row of ring[k]. */
  lemma TraceSnoc(lay: Layout, ring: seq<nat>, k: nat)
    requires LayoutOK(lay) && DataNodes(lay, ring) && k < |ring|
    ensures Trace(lay, ring[..k + 1]) == Trace(lay, ring[..k]) + RowAfter(lay, ring[k])
  {
    assert ring[..k + 1][..k] == ring[..k];
  }

  lemma RemoveAllSnoc(s: Links, lay: Layout, tr: seq<nat>, j: nat)
    requires Steppable(s, lay, tr + [j])
    ensures Steppable(s, lay, tr)
    ensures RemoveAll(s, lay, tr + [j]) == RemoveStep(RemoveAll(s, lay, tr), lay, j)
  {
    assert forall k :: 0 <= k < |tr| ==> tr[k] == (tr + [j])[k];
    assert (tr + [j])[..|tr|] == tr;
  }

  lemma ReinsertCons(s: Links, lay: Layout, j: nat, tr: seq<nat>)
    requires Steppable(s, lay, [j] + tr)
    ensures StepOK(s, lay, j) && Steppable(ReinsertStep(s, lay, j), lay, tr)
    ensures ReinsertAll(s, lay, [j] + tr) == ReinsertAll(ReinsertStep(s, lay, j), lay, tr)
  {
    assert ([j] + tr)[0] == j && ([j] + tr)[1..] == tr;
  }

  /**
   * The frame of column c: every node of column c keeps its vertical links
   * and the header keeps its Size.
   */
  ghost predicate SameColumn(t: Links, s: Links, lay: Layout, c: nat)
  {
    && |t.U| == |s.U| == |t.D| == |s.D| && |t.Size| == |s.Size| && |s.U| <= |lay.col|
    && (forall y {:trigger t.U[y]} :: 0 <= y < |s.U| && lay.col[y] == c ==> t.U[y] == s.U[y])
    && (forall y {:trigger t.D[y]} :: 0 <= y < |s.D| && lay.col[y] == c ==> t.D[y] == s.D[y])
    && (c < |s.Size| ==> t.Size[c] == s.Size[c])
  }

  /** Removing a node of another column keeps column c's frame and keeps links inside their columns. */
  lemma RemoveKeepsColumn(t: Links, s: Links, lay: Layout, c: nat, j: nat)
    requires StepOK(t, lay, j) && ColumnClosed(t, lay) && SameColumn(t, s, lay, c) && lay.col[j] != c
    ensures ColumnClosed(RemoveStep(t, lay, j), lay) && SameColumn(RemoveStep(t, lay, j), s, lay, c)
  {
    StepFrame(t, lay, j);
  }

  /** Reinserting a node of another column keeps column c's frame and keeps links inside their columns. */
  lemma ReinsertKeepsColumn(t: Links, s: Links, lay: Layout, c: nat, j: nat)
    requires StepOK(t, lay, j) && ColumnClosed(t, lay) && SameColumn(t, s, lay, c) && lay.col[j] != c
    ensures ColumnClosed(ReinsertStep(t, lay, j), lay) && SameColumn(ReinsertStep(t, lay, j), s, lay, c)
  {
    StepFrame(t, lay, j);
  }

  /**
   * Cover: c.RemoveLeftRight(), then for every row i of c from the top and
   * every other node j of i's row from the left, j.RemoveTopBottom() and
   * j.Column.Size--.
   */
  method Cover(a: Arena, c: nat, ghost lay: Layout, ghost ring: seq<nat>)
    requires a.Valid() && a.Col[..] == lay.col && CoverArgs(a.State(), lay, c, ring) && RowsAscending(lay)
    modifies a.L, a.R, a.U, a.D, a.Size
    ensures a.Valid() && a.State() == CoverFn(old(a.State()), lay, c, ring)
  {
    ghost var s := a.State();
    CoverArgsSteppable(s, lay, c, ring);
    ColumnWalk(s.D, s.U, c, ring);
    a.RemoveLeftRight(c);
    ghost var s1 := a.State();
    CoverStart(s, lay, c, ring);
    CoverRows(a, c, lay, ring, s1);
  }

  /**
   * Cover's outer loop, once the header has left the header ring: for i from
   * c.Down while i != c, the other nodes of i's row leave their columns.
   */
  method CoverRows(a: Arena, c: nat, ghost lay: Layout, ghost ring: seq<nat>, ghost s1: Links)
    requires a.Valid() && a.Col[..] == lay.col && a.State() == s1 && c < lay.n
    requires LayoutOK(lay) && RowsAscending(lay) && RowLinks(s1, lay) && ColumnClosed(s1, lay) && lay.n < |s1.Size|
    requires Ring(s1.D, s1.U, [c] + ring)
    requires forall x :: 0 <= x < |ring| ==> lay.n < ring[x] < lay.count && lay.col[ring[x]] == c
    modifies a.U, a.D, a.Size
    ensures a.Valid() && Steppable(s1, lay, Trace(lay, ring)) && a.State() == RemoveAll(s1, lay, Trace(lay, ring))
  {
    ColumnHead(s1.D, s1.U, c, ring);
    CoverRowsStart(s1, lay, c, ring);
    var i := a.D[c];
    ghost var k := 0;
    while i != c
      invariant a.Valid() && a.Col[..] == lay.col && a.R[..] == s1.R
      invariant k <= |ring| && i == (if k < |ring| then ring[k] else c) && DataNodes(lay, ring[..k])
      invariant RowSteps(a.State(), s1, lay, c, Trace(lay, ring[..k]))
      decreases |ring| - k
    {
      i := CoverColumnRow(a, c, i, lay, ring, s1, k);
      k := k + 1;
    }
    WalkEnd(lay, c, ring, k);
  }

  /** Before the first row, nothing has been removed. */
  lemma CoverRowsStart(s1: Links, lay: Layout, c: nat, ring: seq<nat>)
    requires LayoutOK(lay) && ColumnClosed(s1, lay) && |s1.L| == |lay.col|
    ensures DataNodes(lay, ring[..0]) && RowSteps(s1, s1, lay, c, Trace(lay, ring[..0]))
  {
    assert ring[..0] == [];
  }

  /** A walk over the data nodes of a column's ring is back at the header c only after the whole ring. */
  lemma WalkEnd(lay: Layout, c: nat, ring: seq<nat>, k: nat)
    requires c < lay.n && k <= |ring| && c == (if k < |ring| then ring[k] else c)
    requires forall x :: 0 <= x < |ring| ==> lay.n < ring[x]
    ensures ring[..k] == ring
  {
  }

  /**
   * One turn of Cover's outer loop: the k-th node i of column c's ring has
   * the other nodes of its row removed, then the walk goes on to i.Down.
   */
  method CoverColumnRow(a: Arena, c: nat, i: nat, ghost lay: Layout, ghost ring: seq<nat>, ghost s1: Links, ghost k: nat)
    returns (next: nat)
    requires a.Valid() && a.Col[..] == lay.col && a.R[..] == s1.R
    requires LayoutOK(lay) && RowsAscending(lay) && RowLinks(s1, lay) && lay.n < |s1.Size| && Ring(s1.D, s1.U, [c] + ring)
    requires forall x :: 0 <= x < |ring| ==> lay.n < ring[x] < lay.count && lay.col[ring[x]] == c
    requires k < |ring| && i == ring[k] && DataNodes(lay, ring[..k])
    requires RowSteps(a.State(), s1, lay, c, Trace(lay, ring[..k]))
    modifies a.U, a.D, a.Size
    ensures a.Valid() && a.Col[..] == lay.col && a.R[..] == s1.R
    ensures next == (if k + 1 < |ring| then ring[k + 1] else c) && DataNodes(lay, ring[..k + 1])
    ensures RowSteps(a.State(), s1, lay, c, Trace(lay, ring[..k + 1]))
  {
    DataNodesPrefix(lay, ring, k + 1);
    TraceSnoc(lay, ring, k);
    RowFacts(s1, lay, i);
    CoverRow(a, i, lay, c, RowAfter(lay, i), s1, Trace(lay, ring[..k]));
    ColumnAt(s1.D, s1.U, c, ring, k);
    next := a.D[i];
  }

  /** j.RemoveTopBottom(); j.Column.Size--; on the arena. */
  method RemoveNode(a: Arena, j: nat, ghost lay: Layout)
    requires a.Valid() && a.Col[..] == lay.col && StepOK(a.State(), lay, j)
    modifies a.U, a.D, a.Size
    ensures a.Valid() && a.State() == RemoveStep(old(a.State()), lay, j)
    ensures a.Col[..] == lay.col && a.L[..] == old(a.L[..]) && a.R[..] == old(a.R[..])
  {
    ghost var t := a.State();
    a.RemoveTopBottom(j);
    var h := a.Col[j];
    assert h == lay.col[j];
    a.Size[h] := a.Size[h] - 1;
    assert a.State() == RemoveStep(t, lay, j);
  }

  /** j.Column.Size++; j.ReinsertTopBottom(); on the arena. */
  method ReinsertNode(a: Arena, j: nat, ghost lay: Layout)
    requires a.Valid() && a.Col[..] == lay.col && StepOK(a.State(), lay, j)
    modifies a.U, a.D, a.Size
    ensures a.Valid() && a.State() == ReinsertStep(old(a.State()), lay, j)
    ensures a.Col[..] == lay.col && a.L[..] == old(a.L[..]) && a.R[..] == old(a.R[..])
  {
    ghost var t := a.State();
    var h := a.Col[j];
    assert h == lay.col[j];
    a.Size[h] := a.Size[h] + 1;
    a.ReinsertTopBottom(j);
    assert a.State() == ReinsertStep(t, lay, j);
  }

  /**
   * Cover's inner loop for row node i, whose other row nodes are `ra` and
   * whose column is c: for j from i.Right while j != i, j.RemoveTopBottom()
   * and j.Column.Size--.
   */
  method CoverRow(a: Arena, i: nat, ghost lay: Layout, ghost c: nat, ghost ra: seq<nat>, ghost s1: Links, ghost X: seq<nat>)
    requires a.Valid() && a.Col[..] == lay.col && |s1.L| == |lay.col|
    requires RowWalk(s1.R, i, ra) && OtherColumns(s1, lay, ra, c)
    requires RowSteps(a.State(), s1, lay, c, X)
    modifies a.U, a.D, a.Size
    ensures a.Valid() && a.Col[..] == lay.col && a.R[..] == s1.R
    ensures RowSteps(a.State(), s1, lay, c, X + ra)
  {
    assert a.R[..] == s1.R;
    var j := a.R[i];
    ghost var m := 0;
    assert X + ra[..0] == X;
    while j != i
      invariant a.Valid() && a.Col[..] == lay.col && a.R[..] == s1.R
      invariant m <= |ra| && j == (if m < |ra| then ra[m] else i)
      invariant RowSteps(a.State(), s1, lay, c, X + ra[..m])
      decreases |ra| - m
    {
      j := CoverNode(a, i, j, lay, c, ra, s1, X, m);
      m := m + 1;
    }
    assert ra[..m] == ra;
  }

  /** One turn of CoverRow's loop: remove the m-th node j of the row walk and step to j.Right. */
  method CoverNode(a: Arena, i: nat, j: nat, ghost lay: Layout, ghost c: nat, ghost ra: seq<nat>, ghost s1: Links, ghost X: seq<nat>, ghost m: nat)
    returns (k: nat)
    requires a.Valid() && a.Col[..] == lay.col && a.R[..] == s1.R
    requires RowWalk(s1.R, i, ra) && OtherColumns(s1, lay, ra, c)
    requires m < |ra| && j == ra[m] && RowSteps(a.State(), s1, lay, c, X + ra[..m])
    modifies a.U, a.D, a.Size
    ensures a.Valid() && a.Col[..] == lay.col && a.R[..] == s1.R
    ensures k == (if m + 1 < |ra| then ra[m + 1] else i)
    ensures RowSteps(a.State(), s1, lay, c, X + ra[..m + 1])
  {
    CoverRowStep(a.State(), s1, lay, c, X, ra, m);
    RemoveNode(a, j, lay);
    assert a.R[j] == s1.R[ra[m]];
    k := a.R[j];
  }

  /**
   * The state reached from s1 by removing the nodes of `tr`, with every
   * link still inside its column and column c untouched.
   */
  ghost predicate RowSteps(t: Links, s1: Links, lay: Layout, c: nat, tr: seq<nat>)
  {
    && ColumnClosed(t, lay) && SameColumn(t, s1, lay, c)
    && Steppable(s1, lay, tr) && t == RemoveAll(s1, lay, tr)
  }

  /** One step of CoverRow keeps RowSteps. */
  lemma CoverRowStep(t: Links, s1: Links, lay: Layout, c: nat, X: seq<nat>, ra: seq<nat>, m: nat)
    requires m < |ra| && OtherColumns(s1, lay, ra, c) && RowSteps(t, s1, lay, c, X + ra[..m])
    ensures StepOK(t, lay, ra[m]) && RowSteps(RemoveStep(t, lay, ra[m]), s1, lay, c, X + ra[..m + 1])
  {
    CoverStep(t, s1, lay, X, ra, m);
    RemoveKeepsColumn(t, s1, lay, c, ra[m]);
  }

  /** Following `next` from i visits ra in order and then comes back to i. */
  ghost predicate RowWalk(next: seq<nat>, i: nat, ra: seq<nat>)
  {
    && i < |next| && (forall m :: 0 <= m < |ra| ==> ra[m] < |next| && ra[m] != i)
    && next[i] == (if |ra| > 0 then ra[0] else i)
    && forall m :: 0 <= m < |ra| ==> next[ra[m]] == (if m + 1 < |ra| then ra[m + 1] else i)
  }

  /** The nodes ra can be stepped over and none of them is in column c. */
  ghost predicate OtherColumns(s: Links, lay: Layout, ra: seq<nat>, c: nat)
  {
    && Wf(s) && |lay.col| == |s.L|
    && forall m :: 0 <= m < |ra| ==> ra[m] < |s.L| && lay.col[ra[m]] < |s.Size| && lay.col[ra[m]] != c
  }

  /** The row facts CoverRow and UncoverRow need, from the static row links. */
  lemma RowFacts(s: Links, lay: Layout, i: nat)
    requires LayoutOK(lay) && RowsAscending(lay) && lay.n < i < lay.count && RowLinks(s, lay) && Wf(s) && lay.n < |s.Size|
    ensures RowWalk(s.R, i, RowAfter(lay, i)) && RowWalk(s.L, i, Rev(RowAfter(lay, i)))
    ensures OtherColumns(s, lay, RowAfter(lay, i), lay.col[i])
  {
    RowWalkRight(s, lay, i);
    RowWalkLeft(s, lay, i);
    RowAfterCols(lay, i);
  }

  lemma RowWalkRight(s: Links, lay: Layout, i: nat)
    requires LayoutOK(lay) && lay.n < i < lay.count && RowLinks(s, lay)
    ensures RowWalk(s.R, i, RowAfter(lay, i))
  {
    RowAfterNext(lay, i);
    RowAfterMembers(lay, i);
    var ra := RowAfter(lay, i);
    forall m | 0 <= m < |ra| ensures ra[m] < |s.R| && ra[m] != i {
      assert ra[m] in ra;
    }
  }

  lemma RowWalkLeft(s: Links, lay: Layout, i: nat)
    requires LayoutOK(lay) && lay.n < i < lay.count && RowLinks(s, lay)
    ensures RowWalk(s.L, i, Rev(RowAfter(lay, i)))
  {
    RowAfterPrev(lay, i);
    var ra := RowAfter(lay, i);
    var rv := Rev(ra);
    forall m | 0 <= m < |rv|
      ensures rv[m] < |s.L| && rv[m] != i
      ensures s.L[rv[m]] == (if m + 1 < |rv| then rv[m + 1] else i)
    {
      var q := |ra| - 1 - m;
      RowPrevAt(lay, i, q);
      assert rv[m] == ra[q];
      if m + 1 < |rv| { assert rv[m + 1] == ra[q - 1]; }
    }
  }

  /** Following Down (Up) from the header of a ring [c] + ring visits ring forwards (backwards). */
  lemma ColumnWalk(D: seq<nat>, U: seq<nat>, c: nat, ring: seq<nat>)
    requires Ring(D, U, [c] + ring)
    ensures D[c] == (if |ring| > 0 then ring[0] else c) && U[c] == (if |ring| > 0 then ring[|ring| - 1] else c)
    ensures forall k :: 0 <= k < |ring| ==>
              ring[k] < |D| && ring[k] < |U| &&
              D[ring[k]] == (if k + 1 < |ring| then ring[k + 1] else c) &&
              U[ring[k]] == (if k > 0 then ring[k - 1] else c)
  {
    var r := [c] + ring;
    assert forall k :: 0 <= k < |ring| ==> ring[k] == r[k + 1];
  }

  /** The header's Down (Up) link is the first (last) node of its ring. */
  lemma ColumnHead(D: seq<nat>, U: seq<nat>, c: nat, ring: seq<nat>)
    requires Ring(D, U, [c] + ring)
    ensures D[c] == (if |ring| > 0 then ring[0] else c) && U[c] == (if |ring| > 0 then ring[|ring| - 1] else c)
  {
    ColumnWalk(D, U, c, ring);
  }

  /** The Down and Up links of the k-th node of the ring [c] + ring. */
  lemma ColumnAt(D: seq<nat>, U: seq<nat>, c: nat, ring: seq<nat>, k: nat)
    requires Ring(D, U, [c] + ring) && k < |ring|
    ensures ring[k] < |D| && ring[k] < |U|
    ensures D[ring[k]] == (if k + 1 < |ring| then ring[k + 1] else c) && U[ring[k]] == (if k > 0 then ring[k - 1] else c)
  {
    ColumnWalk(D, U, c, ring);
  }

  /** What Cover's loops rely on after the header has left the header ring. */
  lemma CoverStart(s: Links, lay: Layout, c: nat, ring: seq<nat>)
    requires CoverArgs(s, lay, c, ring)
    ensures RowLinks(LeftRightRemoved(s, c), lay) && ColumnClosed(LeftRightRemoved(s, c), lay)
    ensures LeftRightRemoved(s, c).D == s.D && LeftRightRemoved(s, c).U == s.U
    ensures Steppable(LeftRightRemoved(s, c), lay, Trace(lay, ring))
    ensures forall k :: 0 <= k < |ring| ==> lay.n < ring[k] < lay.count && lay.col[ring[k]] == c
  {
  }

  /** One step of Cover's inner loop, in terms of the trace walked so far. */
  lemma CoverStep(t: Links, s1: Links, lay: Layout, X: seq<nat>, ra: seq<nat>, m: nat)
    requires m < |ra| && StepOK(s1, lay, ra[m])
    requires Steppable(s1, lay, X + ra[..m]) && t == RemoveAll(s1, lay, X + ra[..m])
    ensures StepOK(t, lay, ra[m]) && Steppable(s1, lay, X + ra[..m + 1])
    ensures RemoveStep(t, lay, ra[m]) == RemoveAll(s1, lay, X + ra[..m + 1])
  {
    SliceSnoc(X, ra, m);
    SteppableSnoc(s1, lay, X + ra[..m], ra[m]);
    RemoveAllSnoc(s1, lay, X + ra[..m], ra[m]);
  }

  lemma SteppableSnoc(s: Links, lay: Layout, tr: seq<nat>, j: nat)
    requires Steppable(s, lay, tr) && StepOK(s, lay, j)
    ensures Steppable(s, lay, tr + [j])
  {
    assert forall k :: 0 <= k < |tr| ==> (tr + [j])[k] == tr[k];
  }

  lemma SliceSnoc(X: seq<nat>, ra: seq<nat>, m: nat)
    requires m < |ra|
    ensures X + ra[..m + 1] == (X + ra[..m]) + [ra[m]]
  {
    assert ra[..m + 1] == ra[..m] + [ra[m]];
  }

  /** The other nodes of a data node's row lie in other columns, all of them headers' columns. */
  lemma RowAfterCols(lay: Layout, i: nat)
    requires LayoutOK(lay) && RowsAscending(lay) && lay.n < i < lay.count
    ensures forall m :: 0 <= m < |RowAfter(lay, i)| ==>
              lay.col[RowAfter(lay, i)[m]] != lay.col[i] && lay.col[RowAfter(lay, i)[m]] < lay.n
  {
    RowAfterMembers(lay, i);
    var ra := RowAfter(lay, i);
    forall m | 0 <= m < |ra| ensures lay.col[ra[m]] != lay.col[i] && lay.col[ra[m]] < lay.n {
      assert ra[m] in ra;
    }
  }

  /**
   * Uncover: for every row i of c from the bottom and every other node j of
   * i's row from the right, j.Column.Size++ and j.ReinsertTopBottom(); then
   * c.ReinsertLeftRight().
   */
  method Uncover(a: Arena, c: nat, ghost lay: Layout, ghost ring: seq<nat>)
    requires a.Valid() && a.Col[..] == lay.col && CoverArgs(a.State(), lay, c, ring) && RowsAscending(lay)
    modifies a.L, a.R, a.U, a.D, a.Size
    ensures a.Valid() && a.State() == UncoverFn(old(a.State()), lay, c, ring)
  {
    ghost var s := a.State();
    CoverArgsSteppable(s, lay, c, ring);
    UncoverRows(a, c, lay, ring, s);
    a.ReinsertLeftRight(c);
  }

  /**
   * Uncover's outer loop: for i from c.Up while i != c, the other nodes of
   * i's row go back into their columns.
   */
  method UncoverRows(a: Arena, c: nat, ghost lay: Layout, ghost ring: seq<nat>, ghost s: Links)
    requires a.Valid() && a.Col[..] == lay.col && a.State() == s && c < lay.n
    requires LayoutOK(lay) && RowsAscending(lay) && RowLinks(s, lay) && ColumnClosed(s, lay) && lay.n < |s.Size|
    requires Ring(s.D, s.U, [c] + ring)
    requires forall x :: 0 <= x < |ring| ==> lay.n < ring[x] < lay.count && lay.col[ring[x]] == c
    modifies a.U, a.D, a.Size
    ensures a.Valid() && Steppable(s, lay, Rev(Trace(lay, ring)))
    ensures a.State() == ReinsertAll(s, lay, Rev(Trace(lay, ring)))
  {
    ColumnHead(s.D, s.U, c, ring);
    ghost var target := UncoverRowsStart(s, lay, c, ring);
    var i := a.U[c];
    ghost var k: nat := |ring|;
    while i != c
      invariant a.Valid() && a.Col[..] == lay.col && a.L[..] == s.L
      invariant k <= |ring| && i == (if k > 0 then ring[k - 1] else c) && DataNodes(lay, ring[..k])
      invariant RowsLeft(a.State(), s, lay, c, Rev(Trace(lay, ring[..k])), target)
      decreases k
    {
      i := UncoverColumnRow(a, c, i, lay, ring, s, k, target);
      k := k - 1;
    }
    UncoverRowsEnd(a.State(), s, lay, c, ring, k, target);
  }

  /** Before the last row, every node of the trace is still to be put back. */
  lemma UncoverRowsStart(s: Links, lay: Layout, c: nat, ring: seq<nat>) returns (target: Links)
    requires LayoutOK(lay) && ColumnClosed(s, lay) && |s.L| == |lay.col| && lay.n < |s.Size|
    requires forall x :: 0 <= x < |ring| ==> lay.n < ring[x] < lay.count && lay.col[ring[x]] == c
    ensures DataNodes(lay, ring[..|ring|]) && Steppable(s, lay, Rev(Trace(lay, ring)))
    ensures target == ReinsertAll(s, lay, Rev(Trace(lay, ring)))
    ensures RowsLeft(s, s, lay, c, Rev(Trace(lay, ring[..|ring|])), target)
  {
    assert ring[..|ring|] == ring;
    var tr := Trace(lay, ring);
    TraceCols(lay, c, ring);
    assert Steppable(s, lay, Rev(tr));
    target := ReinsertAll(s, lay, Rev(tr));
  }

  /** After the first row, the state is the target. */
  lemma UncoverRowsEnd(t: Links, s: Links, lay: Layout, c: nat, ring: seq<nat>, k: nat, target: Links)
    requires LayoutOK(lay) && c < lay.n && k <= |ring| && c == (if k > 0 then ring[k - 1] else c)
    requires forall x :: 0 <= x < |ring| ==> lay.n < ring[x] < lay.count
    requires DataNodes(lay, ring[..k]) && RowsLeft(t, s, lay, c, Rev(Trace(lay, ring[..k])), target)
    ensures t == target
  {
    assert ring[..k] == [];
  }

  /** The nodes of the trace lie in the columns of headers, with a Size each. */
  lemma TraceCols(lay: Layout, c: nat, ring: seq<nat>)
    requires LayoutOK(lay) && forall x :: 0 <= x < |ring| ==> lay.n < ring[x] < lay.count && lay.col[ring[x]] == c
    ensures forall k :: 0 <= k < |Trace(lay, ring)| ==> Trace(lay, ring)[k] < |lay.col| && lay.col[Trace(lay, ring)[k]] < lay.n
  {
    var tr := Trace(lay, ring);
    forall k | 0 <= k < |tr| ensures tr[k] < |lay.col| && lay.col[tr[k]] < lay.n {
      assert lay.n < tr[k] < lay.count;
    }
  }

  /**
   * The state t from which reinserting the nodes of `rest`, first to last,
   * reaches `target`, with the row links of s, every link inside its
   * column and column c untouched.
   */
  ghost predicate RowsLeft(t: Links, s: Links, lay: Layout, c: nat, rest: seq<nat>, target: Links)
  {
    && ColumnClosed(t, lay) && SameColumn(t, s, lay, c) && t.L == s.L && t.R == s.R
    && Steppable(t, lay, rest) && ReinsertAll(t, lay, rest) == target
  }

  /**
   * One turn of Uncover's outer loop: the k-th node i of column c's ring,
   * counted from 1, has the other nodes of its row put back, then the walk
   * goes on to i.Up.
   */
  method UncoverColumnRow(a: Arena, c: nat, i: nat, ghost lay: Layout, ghost ring: seq<nat>, ghost s: Links, ghost k: nat, ghost target: Links)
    returns (next: nat)
    requires a.Valid() && a.Col[..] == lay.col && a.L[..] == s.L && Wf(s)
    requires LayoutOK(lay) && RowsAscending(lay) && RowLinks(s, lay) && lay.n < |s.Size| && Ring(s.D, s.U, [c] + ring)
    requires forall x :: 0 <= x < |ring| ==> lay.n < ring[x] < lay.count && lay.col[ring[x]] == c
    requires 0 < k <= |ring| && i == ring[k - 1] && DataNodes(lay, ring[..k])
    requires RowsLeft(a.State(), s, lay, c, Rev(Trace(lay, ring[..k])), target)
    modifies a.U, a.D, a.Size
    ensures a.Valid() && a.Col[..] == lay.col && a.L[..] == s.L
    ensures next == (if k > 1 then ring[k - 2] else c) && DataNodes(lay, ring[..k - 1])
    ensures RowsLeft(a.State(), s, lay, c, Rev(Trace(lay, ring[..k - 1])), target)
  {
    RevTraceSplit(lay, ring, k);
    RowFacts(s, lay, i);
    RevOtherColumns(s, lay, RowAfter(lay, i), c);
    UncoverRow(a, i, lay, c, Rev(RowAfter(lay, i)), s, Rev(Trace(lay, ring[..k - 1])), target);
    ColumnAt(s.D, s.U, c, ring, k - 1);
    next := a.U[i];
  }

  /** The reversed trace of the first k ring nodes: the k-th node's row, reversed, then the rest. */
  lemma RevTraceSplit(lay: Layout, ring: seq<nat>, k: nat)
    requires LayoutOK(lay) && forall x :: 0 <= x < |ring| ==> lay.n < ring[x] < lay.count
    requires 0 < k <= |ring| && DataNodes(lay, ring[..k])
    ensures DataNodes(lay, ring[..k - 1])
    ensures Rev(Trace(lay, ring[..k])) == Rev(RowAfter(lay, ring[k - 1])) + Rev(Trace(lay, ring[..k - 1]))
  {
    DataNodesPrefix(lay, ring, k - 1);
    var tr := Trace(lay, ring[..k - 1]);
    var ra := RowAfter(lay, ring[k - 1]);
    TraceSnoc(lay, ring, k - 1);
    RevAppend(tr, ra);
  }

  lemma RevOtherColumns(s: Links, lay: Layout, ra: seq<nat>, c: nat)
    requires OtherColumns(s, lay, ra, c)
    ensures OtherColumns(s, lay, Rev(ra), c)
  {
    var rv := Rev(ra);
    forall m | 0 <= m < |rv| ensures rv[m] < |s.L| && lay.col[rv[m]] < |s.Size| && lay.col[rv[m]] != c {
      assert rv[m] == ra[|ra| - 1 - m];
    }
  }

  /**
   * Uncover's inner loop for row node i, whose other row nodes from the
   * right are `rv`: for j from i.Left while j != i, j.Column.Size++ and
   * j.ReinsertTopBottom().
   */
  method UncoverRow(a: Arena, i: nat, ghost lay: Layout, ghost c: nat, ghost rv: seq<nat>, ghost s: Links, ghost Y: seq<nat>, ghost target: Links)
    requires a.Valid() && a.Col[..] == lay.col && a.L[..] == s.L
    requires RowWalk(s.L, i, rv) && OtherColumns(s, lay, rv, c)
    requires RowsLeft(a.State(), s, lay, c, rv + Y, target)
    modifies a.U, a.D, a.Size
    ensures a.Valid() && a.Col[..] == lay.col && a.L[..] == s.L
    ensures RowsLeft(a.State(), s, lay, c, Y, target)
  {
    var j := a.L[i];
    ghost var m := 0;
    assert rv[0..] == rv;
    while j != i
      invariant a.Valid() && a.Col[..] == lay.col && a.L[..] == s.L
      invariant m <= |rv| && j == (if m < |rv| then rv[m] else i)
      invariant RowsLeft(a.State(), s, lay, c, rv[m..] + Y, target)
      decreases |rv| - m
    {
      j := UncoverNode(a, i, j, lay, c, rv, s, Y, target, m);
      m := m + 1;
    }
    assert rv[m..] + Y == Y;
  }

  /** One turn of UncoverRow's loop: put back the m-th node j of the walk and step to j.Left. */
  method UncoverNode(a: Arena, i: nat, j: nat, ghost lay: Layout, ghost c: nat, ghost rv: seq<nat>, ghost s: Links, ghost Y: seq<nat>, ghost target: Links, ghost m: nat)
    returns (k: nat)
    requires a.Valid() && a.Col[..] == lay.col && a.L[..] == s.L
    requires RowWalk(s.L, i, rv) && OtherColumns(s, lay, rv, c)
    requires m < |rv| && j == rv[m] && RowsLeft(a.State(), s, lay, c, rv[m..] + Y, target)
    modifies a.U, a.D, a.Size
    ensures a.Valid() && a.Col[..] == lay.col && a.L[..] == s.L
    ensures k == (if m + 1 < |rv| then rv[m + 1] else i)
    ensures RowsLeft(a.State(), s, lay, c, rv[m + 1..] + Y, target)
  {
    UncoverRowStep(a.State(), s, lay, c, rv, Y, target, m);
    ReinsertNode(a, j, lay);
    assert a.L[j] == s.L[rv[m]];
    k := a.L[j];
  }

  /** One step of UncoverRow keeps RowsLeft. */
  lemma UncoverRowStep(t: Links, s: Links, lay: Layout, c: nat, rv: seq<nat>, Y: seq<nat>, target: Links, m: nat)
    requires m < |rv| && OtherColumns(s, lay, rv, c) && RowsLeft(t, s, lay, c, rv[m..] + Y, target)
    ensures StepOK(t, lay, rv[m]) && RowsLeft(ReinsertStep(t, lay, rv[m]), s, lay, c, rv[m + 1..] + Y, target)
  {
    assert rv[m..] + Y == [rv[m]] + (rv[m + 1..] + Y);
    ReinsertCons(t, lay, rv[m], rv[m + 1..] + Y);
    ReinsertKeepsColumn(t, s, lay, c, rv[m]);
  }

  /*
   * The structure invariant kept by the search. The active column headers A
   * form the header ring after the root; the live rows Rw are the rows whose
   * nodes still hang in their columns; every active column's vertical ring
   * holds exactly its live nodes in ascending order, and its Size counts them.
   */

  /** The header ring: the root followed by the active headers, each once. */
  ghost predicate Headers(s: Links, lay: Layout, A: seq<nat>)
  {
    && Ring(s.R, s.L, [lay.n] + A) && Distinct([lay.n] + A)
    && (forall k :: 0 <= k < |A| ==> A[k] < lay.n)
  }

  /** Every node of a live row lies in an active column. */
  ghost predicate RowsInside(lay: Layout, A: seq<nat>, Rw: set<nat>)
    requires LayoutOK(lay)
  {
    forall x :: lay.n < x < lay.count && lay.rowOf[x] in Rw ==> lay.col[x] in A
  }

  ghost predicate Inv(s: Links, lay: Layout, A: seq<nat>, Rw: set<nat>)
  {
    && LayoutOK(lay) && RowsAscending(lay)
    && Wf(s) && |s.L| == |lay.col| && lay.n < |s.Size|
    && Headers(s, lay, A)
    && ColumnsOK(s, lay, A, Live(lay, Rw))
    && RowLinks(s, lay) && ColumnClosed(s, lay)
    && RowsInside(lay, A, Rw)
  }

  /** The ring Cover(A[k]) walks: the live nodes of that column. */
  ghost function ActiveRing(lay: Layout, A: seq<nat>, Rw: set<nat>, k: nat): (ring: seq<nat>)
    requires LayoutOK(lay) && k < |A|
    ensures DataNodes(lay, ring)
    ensures forall j :: 0 <= j < |ring| ==> lay.col[ring[j]] == A[k] && ring[j] in Live(lay, Rw)
  {
    ColumnRingMembers(lay, A[k], Live(lay, Rw));
    ColumnRing(lay, A[k], Live(lay, Rw))
  }

  /** Under the invariant, every active column may be covered, and its header is linked both ways. */
  lemma InvCoverArgs(s: Links, lay: Layout, A: seq<nat>, Rw: set<nat>, k: nat)
    requires Inv(s, lay, A, Rw) && k < |A|
    ensures CoverArgs(s, lay, A[k], ActiveRing(lay, A, Rw, k))
    ensures LinkedLeftRight(s, A[k])
  {
    var c := A[k];
    var hs := [lay.n] + A;
    assert hs[k + 1] == c;
    RingRemove(s.R, s.L, hs, k + 1);
    assert c in A;
    ColumnRingDistinct(lay, c, Live(lay, Rw));
  }

  /** Removing A[k] from the header ring leaves the ring of the other active headers. */
  lemma HeadersRemoved(s: Links, lay: Layout, A: seq<nat>, k: nat)
    requires Wf(s) && Headers(s, lay, A) && k < |A|
    ensures Headers(LeftRightRemoved(s, A[k]), lay, Removed(A, k))
  {
    var c := A[k];
    var hs := [lay.n] + A;
    assert hs[k + 1] == c;
    RingRemove(s.R, s.L, hs, k + 1);
    assert s.L[c] != c;
    ConsCut(lay.n, A, k);
  }

  /** A column other than A[k] that was active is still active once A[k] leaves. */
  lemma RemovedKeeps(A: seq<nat>, k: nat, y: nat)
    requires k < |A| && y in A && y != A[k]
    ensures y in Removed(A, k)
  {
    var i :| 0 <= i < |A| && A[i] == y;
    if i < k {
      assert Removed(A, k)[i] == y;
    } else {
      assert Removed(A, k)[i - 1] == y;
    }
  }

  /** The tail of a distinct sequence is distinct and misses its head. */
  lemma DistinctTail(x: nat, xs: seq<nat>)
    requires Distinct([x] + xs)
    ensures Distinct(xs) && x !in xs
  {
    var ys := [x] + xs;
    forall i | 0 <= i < |xs| ensures xs[i] != x {
      assert ys[i + 1] == xs[i] && ys[0] == x;
    }
    forall i, j | 0 <= i < j < |xs| ensures xs[i] != xs[j] {
      assert ys[i + 1] == xs[i] && ys[j + 1] == xs[j];
    }
  }

  /** A[k] leaves A when it is cut out of a distinct A. */
  lemma RemovedGone(A: seq<nat>, k: nat)
    requires Distinct(A) && k < |A|
    ensures A[k] !in Removed(A, k) && Distinct(Removed(A, k))
  {
    var r := Removed(A, k);
    forall i | 0 <= i < |r| ensures r[i] != A[k] {
      if i >= k { assert r[i] == A[i + 1]; }
    }
  }

  /** The nodes Cover(A[k]) unlinks are live, and lie in columns that stay active. */
  lemma TraceInLive(lay: Layout, A: seq<nat>, Rw: set<nat>, k: nat, tr: seq<nat>)
    requires LayoutOK(lay) && RowsAscending(lay) && RowsInside(lay, A, Rw) && k < |A|
    requires tr == Trace(lay, ActiveRing(lay, A, Rw, k))
    ensures forall j :: 0 <= j < |tr| ==> lay.n < tr[j] < lay.count && tr[j] in Live(lay, Rw) && lay.col[tr[j]] in Removed(A, k)
  {
    var c := A[k];
    var ring := ActiveRing(lay, A, Rw, k);
    ColumnRingMembers(lay, c, Live(lay, Rw));
    TraceMembers(lay, c, ring);
    forall j | 0 <= j < |tr| ensures tr[j] in Live(lay, Rw) && lay.col[tr[j]] in Removed(A, k) {
      var x := tr[j];
      assert x in tr;
      var i :| i in ring && lay.rowOf[i] == lay.rowOf[x];
      RemovedKeeps(A, k, lay.col[x]);
    }
  }

  /** Outside column A[k], the live nodes less the unlinked ones are the nodes of the rows that stay live. */
  lemma TraceGone(lay: Layout, A: seq<nat>, Rw: set<nat>, k: nat, ring: seq<nat>, tr: seq<nat>)
    requires LayoutOK(lay) && RowsAscending(lay) && k < |A|
    requires ring == ActiveRing(lay, A, Rw, k) && tr == Trace(lay, ring)
    ensures forall x :: lay.n < x < lay.count && lay.col[x] != A[k] ==>
              (x in Live(lay, Rw) - Elems(tr) <==> x in Live(lay, Rw - RowsOf(lay, ring)))
  {
    ColumnRingMembers(lay, A[k], Live(lay, Rw));
    TraceMembers(lay, A[k], ActiveRing(lay, A, Rw, k));
  }

  /** The vertical rings of the columns that stay active, after Cover(A[k]). */
  lemma CoverColumns(s: Links, lay: Layout, A: seq<nat>, Rw: set<nat>, k: nat)
    requires Inv(s, lay, A, Rw) && k < |A|
    ensures CoverArgs(s, lay, A[k], ActiveRing(lay, A, Rw, k))
    ensures ColumnsOK(CoverFn(s, lay, A[k], ActiveRing(lay, A, Rw, k)), lay, Removed(A, k), Live(lay, Rw - RowsOf(lay, ActiveRing(lay, A, Rw, k))))
    ensures Steppable(CoverFn(s, lay, A[k], ActiveRing(lay, A, Rw, k)), lay, Rev(Trace(lay, ActiveRing(lay, A, Rw, k))))
    ensures ReinsertAll(CoverFn(s, lay, A[k], ActiveRing(lay, A, Rw, k)), lay, Rev(Trace(lay, ActiveRing(lay, A, Rw, k)))) == LeftRightRemoved(s, A[k])
  {
    InvCoverArgs(s, lay, A, Rw, k);
    var c := A[k];
    var P := Live(lay, Rw);
    var ring := ActiveRing(lay, A, Rw, k);
    var tr := Trace(lay, ring);
    var s1 := LeftRightRemoved(s, c);
    var A' := Removed(A, k);
    var Q := Live(lay, Rw - RowsOf(lay, ring));
    ColumnsShrink(s, s1, lay, A, A', P);
    TraceInLive(lay, A, Rw, k, tr);
    DistinctTail(c, ring);
    TraceDistinct(lay, c, ring);
    RemoveAllWalk(s1, lay, A', P, tr);
    var t := RemoveAll(s1, lay, tr);
    assert t == CoverFn(s, lay, c, ring);
    DistinctTail(lay.n, A);
    RemovedGone(A, k);
    TraceGone(lay, A, Rw, k, ring, tr);
    ColumnsSwap(t, lay, A', c, P - Elems(tr), Q);
  }

  /** ColumnsOK reads only the vertical links and sizes, and holds for fewer columns. */
  lemma ColumnsShrink(s: Links, s1: Links, lay: Layout, A: seq<nat>, A': seq<nat>, P: set<nat>)
    requires LayoutOK(lay) && ColumnsOK(s, lay, A, P)
    requires s1.D == s.D && s1.U == s.U && s1.Size == s.Size
    requires forall i :: 0 <= i < |A'| ==> A'[i] in A
    ensures ColumnsOK(s1, lay, A', P)
  {
  }

  /** Node sets that agree outside column c give the same ColumnsOK to columns other than c. */
  lemma ColumnsSwap(t: Links, lay: Layout, A: seq<nat>, c: nat, P: set<nat>, Q: set<nat>)
    requires LayoutOK(lay) && ColumnsOK(t, lay, A, P) && c !in A
    requires forall x :: lay.n < x < lay.count && lay.col[x] != c ==> (x in P <==> x in Q)
    ensures ColumnsOK(t, lay, A, Q)
  {
    forall y | y in A ensures ColumnRing(lay, y, P) == ColumnRing(lay, y, Q) {
      NodesSame(lay, y, P, Q, lay.count);
    }
  }

  /** Cover(c) keeps the row links, the column closure and column c's own ring. */
  lemma CoverFrame(s: Links, lay: Layout, c: nat, ring: seq<nat>)
    requires CoverArgs(s, lay, c, ring) && RowsAscending(lay)
    ensures var t := CoverFn(s, lay, c, ring);
            RowLinks(t, lay) && ColumnClosed(t, lay) && CoverArgs(t, lay, c, ring)
  {
    CoverLinks(s, lay, c, ring);
  }

  /** The horizontal links after Cover(c): only the header ring changed. */
  lemma CoverLinks(s: Links, lay: Layout, c: nat, ring: seq<nat>)
    requires CoverArgs(s, lay, c, ring) && RowsAscending(lay)
    ensures var t := CoverFn(s, lay, c, ring);
            RowLinks(t, lay) && t.L[c] == s.L[c] && t.R[c] == s.R[c]
    ensures var t := CoverFn(s, lay, c, ring);
            ColumnClosed(t, lay) && Ring(t.D, t.U, [c] + ring)
  {
    HeaderCutRowLinks(s, lay, c);
    CoverVertical(s, lay, c, ring);
  }

  /** Cutting a header out of the header ring leaves every row's links alone. */
  lemma HeaderCutRowLinks(s: Links, lay: Layout, c: nat)
    requires LayoutOK(lay) && Wf(s) && RowLinks(s, lay) && c < |s.L|
    requires s.L[c] <= lay.n && s.R[c] <= lay.n
    ensures RowLinks(LeftRightRemoved(s, c), lay)
  {
  }

  /** The vertical links after Cover(c): closed columns, and column c's own ring intact. */
  lemma CoverVertical(s: Links, lay: Layout, c: nat, ring: seq<nat>)
    requires CoverArgs(s, lay, c, ring) && RowsAscending(lay)
    ensures var t := CoverFn(s, lay, c, ring);
            ColumnClosed(t, lay) && Ring(t.D, t.U, [c] + ring)
  {
    var tr := Trace(lay, ring);
    var s1 := LeftRightRemoved(s, c);
    TraceOtherColumns(lay, c, ring);
    CoverArgsSteppable(s, lay, c, ring);
    RemoveAllFrame(s1, lay, tr, c);
    var t := RemoveAll(s1, lay, tr);
    assert t == CoverFn(s, lay, c, ring);
    CoverOwnRing(s1, t, lay, c, ring);
  }

  /** Column c's ring survives any change that keeps the vertical links of column c's nodes. */
  lemma CoverOwnRing(s1: Links, t: Links, lay: Layout, c: nat, ring: seq<nat>)
    requires LayoutOK(lay) && c < lay.n && Wf(s1) && Wf(t) && |t.U| == |s1.U| == |lay.col|
    requires Ring(s1.D, s1.U, [c] + ring)
    requires forall k :: 0 <= k < |ring| ==> lay.n < ring[k] < lay.count && lay.col[ring[k]] == c
    requires forall y {:trigger t.U[y]} :: 0 <= y < |s1.U| && lay.col[y] == c ==> t.U[y] == s1.U[y]
    requires forall y {:trigger t.D[y]} :: 0 <= y < |s1.D| && lay.col[y] == c ==> t.D[y] == s1.D[y]
    ensures Ring(t.D, t.U, [c] + ring)
  {
    var cr := [c] + ring;
    forall j | 0 <= j < |cr| ensures t.D[cr[j]] == s1.D[cr[j]] && t.U[cr[j]] == s1.U[cr[j]] {
      if j > 0 { assert cr[j] == ring[j - 1]; }
      assert lay.col[cr[j]] == c;
    }
    RingUnchanged(s1.D, s1.U, t.D, t.U, cr);
  }

  /** The trace of column c's ring avoids column c. */
  lemma TraceOtherColumns(lay: Layout, c: nat, ring: seq<nat>)
    requires LayoutOK(lay) && RowsAscending(lay)
    requires forall k :: 0 <= k < |ring| ==> lay.n < ring[k] < lay.count && lay.col[ring[k]] == c
    ensures forall j :: 0 <= j < |Trace(lay, ring)| ==> lay.col[Trace(lay, ring)[j]] != c
  {
    var tr := Trace(lay, ring);
    TraceMembers(lay, c, ring);
    forall j | 0 <= j < |tr| ensures lay.col[tr[j]] != c {
      assert tr[j] in tr;
    }
  }

  /** The rows that stay live after Cover(A[k]) lie in the columns that stay active. */
  lemma CoverRowsInside(lay: Layout, A: seq<nat>, Rw: set<nat>, k: nat)
    requires LayoutOK(lay) && RowsInside(lay, A, Rw) && k < |A|
    ensures RowsInside(lay, Removed(A, k), Rw - RowsOf(lay, ActiveRing(lay, A, Rw, k)))
  {
    var c := A[k];
    var ring := ActiveRing(lay, A, Rw, k);
    NodesMembers(lay, c, Live(lay, Rw), lay.count);
    forall x | lay.n < x < lay.count && lay.rowOf[x] in Rw && lay.col[x] == c
      ensures lay.rowOf[x] in RowsOf(lay, ring)
    {
      assert x in ring;
    }
    forall x | lay.n < x < lay.count && lay.rowOf[x] in Rw - RowsOf(lay, ring)
      ensures lay.col[x] in Removed(A, k)
    {
      RemovedKeeps(A, k, lay.col[x]);
    }
  }

  /**
   * Covering an active column keeps the invariant: the column leaves the
   * header ring, and the rows with a node in it are no longer live.
   */
  lemma CoverKeepsInv(s: Links, lay: Layout, A: seq<nat>, Rw: set<nat>, k: nat)
    requires Inv(s, lay, A, Rw) && k < |A|
    ensures CoverArgs(s, lay, A[k], ActiveRing(lay, A, Rw, k))
    ensures var ring := ActiveRing(lay, A, Rw, k);
            Inv(CoverFn(s, lay, A[k], ring), lay, Removed(A, k), Rw - RowsOf(lay, ring))
  {
    var c := A[k];
    var ring := ActiveRing(lay, A, Rw, k);
    CoverColumns(s, lay, A, Rw, k);
    CoverFrame(s, lay, c, ring);
    CoverRowsInside(lay, A, Rw, k);
    HeadersRemoved(s, lay, A, k);
    var t := CoverFn(s, lay, c, ring);
    assert t.R == LeftRightRemoved(s, c).R && t.L == LeftRightRemoved(s, c).L;
  }

  /** Uncover undoes Cover: from a state satisfying the invariant, Uncover(c) after Cover(c) gives it back. */
  lemma UncoverAfterCover(s: Links, lay: Layout, A: seq<nat>, Rw: set<nat>, k: nat)
    requires Inv(s, lay, A, Rw) && k < |A|
    ensures CoverArgs(s, lay, A[k], ActiveRing(lay, A, Rw, k))
    ensures var ring := ActiveRing(lay, A, Rw, k);
            CoverArgs(CoverFn(s, lay, A[k], ring), lay, A[k], ring)
            && UncoverFn(CoverFn(s, lay, A[k], ring), lay, A[k], ring) == s
  {
    var c := A[k];
    var ring := ActiveRing(lay, A, Rw, k);
    CoverColumns(s, lay, A, Rw, k);
    CoverFrame(s, lay, c, ring);
    InvCoverArgs(s, lay, A, Rw, k);
    RemoveThenReinsertLeftRight(s, c);
  }
}
