/**
 * Dancing Links nodes, kept in an arena: a node is an index, and its Left,
 * Right, Up and Down links and its Column pointer are entries of parallel
 * arrays indexed by that id. Column headers are nodes too; their Size lives in
 * a separate array indexed by header id.
 *
 * The value-level view (`Links`) and the functions over it specify the node
 * operations; the `Arena` class performs them in place on its arrays.
 */
module DancingLinksNode {

  /** The link fields of every node of the arena, as values. */
  datatype Links = Links(L: seq<nat>, R: seq<nat>, U: seq<nat>, D: seq<nat>, Size: seq<int>)

  /** The four link sequences cover the same ids, and every link points at one of them. */
  ghost predicate Wf(s: Links)
  {
    && |s.L| == |s.R| == |s.U| == |s.D|
    && (forall x :: 0 <= x < |s.L| ==> s.L[x] < |s.L| && s.R[x] < |s.L| && s.U[x] < |s.L| && s.D[x] < |s.L|)
  }

  ghost predicate Distinct(xs: seq<nat>)
  {
    forall i, j :: 0 <= i < j < |xs| ==> xs[i] != xs[j]
  }

  /**
   * `ring` is one circular doubly-linked list: following `next` from ring[k]
   * gives ring[k + 1] (and the last element leads back to the first), and
   * `prev` is the inverse walk.
   */
  ghost predicate Ring(next: seq<nat>, prev: seq<nat>, ring: seq<nat>)
  {
    && |ring| > 0
    && (forall k :: 0 <= k < |ring| ==> ring[k] < |next| && ring[k] < |prev|)
    && (forall k :: 0 <= k < |ring| - 1 ==> next[ring[k]] == ring[k + 1] && prev[ring[k + 1]] == ring[k])
    && next[ring[|ring| - 1]] == ring[0]
    && prev[ring[0]] == ring[|ring| - 1]
  }

  /** A node's horizontal neighbours point back at it. */
  ghost predicate LinkedLeftRight(s: Links, x: nat)
    requires Wf(s) && x < |s.L|
  {
    s.R[s.L[x]] == x && s.L[s.R[x]] == x
  }

  /** A node's vertical neighbours point back at it. */
  ghost predicate LinkedTopBottom(s: Links, x: nat)
    requires Wf(s) && x < |s.L|
  {
    s.D[s.U[x]] == x && s.U[s.D[x]] == x
  }

  /** Every link of `x` points at `x` itself. */
  ghost predicate Singleton(s: Links, x: nat)
    requires x < |s.L| == |s.R| == |s.U| == |s.D|
  {
    s.L[x] == x && s.R[x] == x && s.U[x] == x && s.D[x] == x
  }

  /** RemoveLeftRight: Left.Right = Right; Right.Left = Left. */
  function LeftRightRemoved(s: Links, x: nat): (r: Links)
    requires Wf(s) && x < |s.L|
    ensures Wf(r) && r.U == s.U && r.D == s.D && r.Size == s.Size
    ensures r.R[s.L[x]] == s.R[x] && r.L[s.R[x]] == s.L[x]
    ensures r.R[x] == s.R[x] && r.L[x] == s.L[x]
    ensures forall y :: 0 <= y < |s.L| && y != s.L[x] ==> r.R[y] == s.R[y]
    ensures forall y :: 0 <= y < |s.L| && y != s.R[x] ==> r.L[y] == s.L[y]
  {
    var R1 := s.R[s.L[x] := s.R[x]];
    s.(R := R1, L := s.L[R1[x] := s.L[x]])
  }

  /** ReinsertLeftRight: Left.Right = this; Right.Left = this. */
  function LeftRightReinserted(s: Links, x: nat): (r: Links)
    requires Wf(s) && x < |s.L|
    ensures Wf(r) && r.U == s.U && r.D == s.D && r.Size == s.Size
    ensures LinkedLeftRight(r, x)
    ensures forall y :: 0 <= y < |s.L| && y != s.L[x] ==> r.R[y] == s.R[y]
    ensures forall y :: 0 <= y < |s.L| && y != s.R[x] ==> r.L[y] == s.L[y]
  {
    var R1 := s.R[s.L[x] := x];
    s.(R := R1, L := s.L[R1[x] := x])
  }

  /** RemoveTopBottom: Up.Down = Down; Down.Up = Up. */
  function TopBottomRemoved(s: Links, x: nat): (r: Links)
    requires Wf(s) && x < |s.L|
    ensures Wf(r) && r.L == s.L && r.R == s.R && r.Size == s.Size
    ensures r.D[s.U[x]] == s.D[x] && r.U[s.D[x]] == s.U[x]
    ensures r.D[x] == s.D[x] && r.U[x] == s.U[x]
    ensures forall y :: 0 <= y < |s.L| && y != s.U[x] ==> r.D[y] == s.D[y]
    ensures forall y :: 0 <= y < |s.L| && y != s.D[x] ==> r.U[y] == s.U[y]
  {
    var D1 := s.D[s.U[x] := s.D[x]];
    s.(D := D1, U := s.U[D1[x] := s.U[x]])
  }

  /** ReinsertTopBottom: Up.Down = this; Down.Up = this. */
  function TopBottomReinserted(s: Links, x: nat): (r: Links)
    requires Wf(s) && x < |s.L|
    ensures Wf(r) && r.L == s.L && r.R == s.R && r.Size == s.Size
    ensures LinkedTopBottom(r, x)
    ensures forall y :: 0 <= y < |s.L| && y != s.U[x] ==> r.D[y] == s.D[y]
    ensures forall y :: 0 <= y < |s.L| && y != s.D[x] ==> r.U[y] == s.U[y]
  {
    var D1 := s.D[s.U[x] := x];
    s.(D := D1, U := s.U[D1[x] := x])
  }

  /**
   * The splice shared by LinkRight and LinkDown, in the source's statement
   * order: node.Next = Next; node.Next.Prev = node; node.Prev = this; Next = node.
   * Returns the new (next, prev) pair.
   */
  function Splice(next: seq<nat>, prev: seq<nat>, t: nat, x: nat): (r: (seq<nat>, seq<nat>))
    requires |next| == |prev| && t < |next| && x < |next| && next[t] < |next|
    ensures |r.0| == |next| && |r.1| == |prev|
  {
    var next1 := next[x := next[t]];
    var prev1 := prev[next1[x] := x];
    var prev2 := prev1[x := t];
    var next2 := next1[t := x];
    (next2, prev2)
  }

  /** LinkRight(node) called on `t`: splices `x` into t's row right after t. */
  function RightLinked(s: Links, t: nat, x: nat): (r: Links)
    requires Wf(s) && t < |s.L| && x < |s.L|
    ensures Wf(r) && r.U == s.U && r.D == s.D && r.Size == s.Size
    ensures r.R[t] == x && r.L[x] == t
  {
    var p := Splice(s.R, s.L, t, x);
    s.(R := p.0, L := p.1)
  }

  /** LinkDown(node) called on `t`: splices `x` into t's column right below t. */
  function DownLinked(s: Links, t: nat, x: nat): (r: Links)
    requires Wf(s) && t < |s.L| && x < |s.L|
    ensures Wf(r) && r.L == s.L && r.R == s.R && r.Size == s.Size
    ensures r.D[t] == x && r.U[x] == t
  {
    var p := Splice(s.D, s.U, t, x);
    s.(D := p.0, U := p.1)
  }

  /** Reinserting a node horizontally right after removing it gives back exactly the old links. */
  lemma RemoveThenReinsertLeftRight(s: Links, x: nat)
    requires Wf(s) && x < |s.L| && LinkedLeftRight(s, x)
    ensures LeftRightReinserted(LeftRightRemoved(s, x), x) == s
  {
    var r := LeftRightRemoved(s, x);
    var t := LeftRightReinserted(r, x);
    assert t.R == s.R;
    assert t.L == s.L;
  }

  /** Reinserting a node vertically right after removing it gives back exactly the old links. */
  lemma RemoveThenReinsertTopBottom(s: Links, x: nat)
    requires Wf(s) && x < |s.L| && LinkedTopBottom(s, x)
    ensures TopBottomReinserted(TopBottomRemoved(s, x), x) == s
  {
    var r := TopBottomRemoved(s, x);
    var t := TopBottomReinserted(r, x);
    assert t.D == s.D;
    assert t.U == s.U;
  }

  /**
   * Unlinking the k-th element (not the first) of a well-formed ring: the
   * element was linked, and what remains is the ring without it.
   */
  lemma RingRemove(next: seq<nat>, prev: seq<nat>, ring: seq<nat>, k: nat)
    requires |next| == |prev| && Ring(next, prev, ring) && Distinct(ring) && 0 < k < |ring|
    ensures prev[ring[k]] == ring[k - 1]
    ensures next[ring[k]] == (if k + 1 < |ring| then ring[k + 1] else ring[0])
    ensures next[prev[ring[k]]] == ring[k] && prev[next[ring[k]]] == ring[k]
    ensures Ring(next[prev[ring[k]] := next[ring[k]]], prev[next[ring[k]] := prev[ring[k]]],
                 ring[..k] + ring[k + 1..])
    ensures Distinct(ring[..k] + ring[k + 1..])
  {
    var m := |ring|;
    var a := ring[k - 1];
    var b := if k + 1 < m then ring[k + 1] else ring[0];
    assert prev[ring[k]] == a && next[ring[k]] == b;
    RingRemoveLinks(next, prev, ring, k);
    RemovedDistinct(ring, k);
  }

  lemma RingRemoveLinks(next: seq<nat>, prev: seq<nat>, ring: seq<nat>, k: nat)
    requires |next| == |prev| && Ring(next, prev, ring) && Distinct(ring) && 0 < k < |ring|
    ensures var b := if k + 1 < |ring| then ring[k + 1] else ring[0];
      Ring(next[ring[k - 1] := b], prev[b := ring[k - 1]], Removed(ring, k))
  {
    var m := |ring|;
    var a := ring[k - 1];
    var b := if k + 1 < m then ring[k + 1] else ring[0];
    var r := Removed(ring, k);
    forall i | 0 <= i < m - 1
      ensures next[a := b][r[i]] == r[if i + 1 < m - 1 then i + 1 else 0]
      ensures prev[b := a][r[if i + 1 < m - 1 then i + 1 else 0]] == r[i]
    {
      RingRemoveAt(next, prev, ring, k, i);
    }
  }

  lemma RemovedDistinct(ring: seq<nat>, k: nat)
    requires Distinct(ring) && k < |ring|
    ensures Distinct(Removed(ring, k))
  {
    var r := Removed(ring, k);
    forall i, j | 0 <= i < j < |r| ensures r[i] != r[j] {
      var i' := if i < k then i else i + 1;
      var j' := if j < k then j else j + 1;
      assert r[i] == ring[i'] && r[j] == ring[j'] && i' < j';
    }
  }

  /** The ring without its k-th element. */
  function Removed(ring: seq<nat>, k: nat): (r: seq<nat>)
    requires k < |ring|
    ensures |r| == |ring| - 1
    ensures forall i :: 0 <= i < |r| ==> r[i] == (if i < k then ring[i] else ring[i + 1])
  {
    ring[..k] + ring[k + 1..]
  }

  /** One link of the shortened ring: its i-th element points at the next one (cyclically) and back. */
  lemma RingRemoveAt(next: seq<nat>, prev: seq<nat>, ring: seq<nat>, k: nat, i: nat)
    requires |next| == |prev| && Ring(next, prev, ring) && Distinct(ring) && 0 < k < |ring| && i < |ring| - 1
    ensures var a := ring[k - 1];
            var b := if k + 1 < |ring| then ring[k + 1] else ring[0];
            var r := Removed(ring, k);
            var j := if i + 1 < |r| then i + 1 else 0;
            next[a := b][r[i]] == r[j] && prev[b := a][r[j]] == r[i]
  {
    var m := |ring|;
    var a := ring[k - 1];
    var b := if k + 1 < m then ring[k + 1] else ring[0];
    var r := Removed(ring, k);
    if i + 1 < m - 1 {
      if i < k - 1 {
        assert r[i] == ring[i] && r[i + 1] == ring[i + 1];
        assert ring[i] != a;
        assert ring[i + 1] != b by {
          if k + 1 < m { assert i + 1 < k + 1; } else { assert 0 < i + 1; }
        }
      } else if i == k - 1 {
        assert r[i] == a && r[i + 1] == ring[k + 1];
      } else {
        assert r[i] == ring[i + 1] && r[i + 1] == ring[i + 2];
        assert ring[i + 1] != a;
        assert k + 1 < m && i + 2 != k + 1;
      }
    } else if k + 1 < m {
      assert r[i] == ring[m - 1] && r[0] == ring[0];
      assert ring[m - 1] != a;
      assert ring[0] != b;
    } else {
      assert r[i] == a && r[0] == ring[0];
    }
  }

  /** Links that agree with a ring's links on the ring's own elements keep the ring. */
  lemma RingUnchanged(next: seq<nat>, prev: seq<nat>, next': seq<nat>, prev': seq<nat>, ring: seq<nat>)
    requires Ring(next, prev, ring)
    requires |next'| == |next| && |prev'| == |prev|
    requires forall k :: 0 <= k < |ring| ==> next'[ring[k]] == next[ring[k]] && prev'[ring[k]] == prev[ring[k]]
    ensures Ring(next', prev', ring)
  {
  }

  /**
   * Splicing a node that is not on a ring in right after the ring's k-th
   * element (what LinkRight and LinkDown do) gives the ring with that node
   * inserted at position k + 1; every link of any other id is unchanged.
   */
  lemma RingSplice(next: seq<nat>, prev: seq<nat>, ring: seq<nat>, k: nat, x: nat)
    requires |next| == |prev| && Ring(next, prev, ring) && Distinct(ring) && k < |ring|
    requires x < |next| && x !in ring && forall y :: 0 <= y < |next| ==> next[y] < |next|
    ensures Ring(Splice(next, prev, ring[k], x).0, Splice(next, prev, ring[k], x).1, ring[..k + 1] + [x] + ring[k + 1..])
    ensures Distinct(ring[..k + 1] + [x] + ring[k + 1..])
    ensures forall y :: 0 <= y < |next| && y != ring[k] && y != x ==> Splice(next, prev, ring[k], x).0[y] == next[y]
    ensures forall y :: 0 <= y < |next| && y != x && y != next[ring[k]] ==> Splice(next, prev, ring[k], x).1[y] == prev[y]
  {
    var t := ring[k];
    var b := next[t];
    assert Splice(next, prev, t, x) == (next[x := b][t := x], prev[b := x][x := t]);
    RingInsert(next, prev, ring, k, x);
    assert Inserted(ring, k, x) == ring[..k + 1] + [x] + ring[k + 1..];
  }

  /** The ring with x inserted right after its k-th element. */
  ghost function Inserted(ring: seq<nat>, k: nat, x: nat): (r: seq<nat>)
    requires k < |ring|
    ensures |r| == |ring| + 1
    ensures forall i :: 0 <= i < |r| ==> r[i] == (if i <= k then ring[i] else if i == k + 1 then x else ring[i - 1])
  {
    ring[..k + 1] + [x] + ring[k + 1..]
  }

  lemma RingInsert(next: seq<nat>, prev: seq<nat>, ring: seq<nat>, k: nat, x: nat)
    requires |next| == |prev| && Ring(next, prev, ring) && Distinct(ring) && k < |ring|
    requires x < |next| && x !in ring && next[ring[k]] < |prev|
    ensures Ring(next[x := next[ring[k]]][ring[k] := x], prev[next[ring[k]] := x][x := ring[k]], Inserted(ring, k, x))
    ensures Distinct(Inserted(ring, k, x))
  {
    RingInsertLinks(next, prev, ring, k, x);
    InsertedDistinct(ring, k, x);
  }

  lemma RingInsertLinks(next: seq<nat>, prev: seq<nat>, ring: seq<nat>, k: nat, x: nat)
    requires |next| == |prev| && Ring(next, prev, ring) && Distinct(ring) && k < |ring|
    requires x < |next| && x !in ring && next[ring[k]] < |prev|
    ensures Ring(next[x := next[ring[k]]][ring[k] := x], prev[next[ring[k]] := x][x := ring[k]], Inserted(ring, k, x))
  {
    var m := |ring|;
    var ring' := Inserted(ring, k, x);
    forall i | 0 <= i < m
      ensures next[x := next[ring[k]]][ring[k] := x][ring'[i]] == ring'[i + 1]
      ensures prev[next[ring[k]] := x][x := ring[k]][ring'[i + 1]] == ring'[i]
    {
      RingInsertAt(next, prev, ring, k, x, i);
    }
    RingInsertAt(next, prev, ring, k, x, m);
  }

  lemma InsertedDistinct(ring: seq<nat>, k: nat, x: nat)
    requires Distinct(ring) && k < |ring| && x !in ring
    ensures Distinct(Inserted(ring, k, x))
  {
    var ring' := Inserted(ring, k, x);
    forall i, j | 0 <= i < j < |ring'| ensures ring'[i] != ring'[j] {
      if i != k + 1 && j != k + 1 {
        var i' := if i <= k then i else i - 1;
        var j' := if j <= k then j else j - 1;
        assert ring'[i] == ring[i'] && ring'[j] == ring[j'] && i' < j';
      }
    }
  }

  /** One link of the inserted ring: its i-th element points at the next one (cyclically) and back. */
  lemma RingInsertAt(next: seq<nat>, prev: seq<nat>, ring: seq<nat>, k: nat, x: nat, i: nat)
    requires |next| == |prev| && Ring(next, prev, ring) && Distinct(ring) && k < |ring|
    requires x < |next| && x !in ring && next[ring[k]] < |prev| && i <= |ring|
    ensures var r := Inserted(ring, k, x);
            var j := if i < |ring| then i + 1 else 0;
            next[x := next[ring[k]]][ring[k] := x][r[i]] == r[j] && prev[next[ring[k]] := x][x := ring[k]][r[j]] == r[i]
  {
    var m := |ring|;
    var t := ring[k];
    var b := next[t];
    assert b == (if k + 1 < m then ring[k + 1] else ring[0]);
    var r := Inserted(ring, k, x);
    if i < k {
      assert r[i] == ring[i] && r[i + 1] == ring[i + 1];
      assert ring[i] != t;
      assert ring[i + 1] != b by {
        if k + 1 < m { assert i + 1 != k + 1; } else { assert i + 1 != 0; }
      }
    } else if i == k {
      assert r[i] == t && r[i + 1] == x;
    } else if i == k + 1 && i < m {
      assert r[i] == x && r[i + 1] == ring[k + 1];
    } else if i < m {
      assert r[i] == ring[i - 1] && r[i + 1] == ring[i];
      assert ring[i - 1] != t;
    } else if k + 1 < m {
      assert r[i] == ring[m - 1] && r[0] == ring[0];
      assert ring[m - 1] != t;
      assert ring[0] != b;
    } else {
      assert r[i] == x && r[0] == ring[0];
    }
  }

  /**
   * The arena: one array per link field, a Column array and a Size array per
   * header id. Ids below `count` are in use.
   */
  class Arena {
    const L: array<nat>
    const R: array<nat>
    const U: array<nat>
    const D: array<nat>
    const Col: array<nat>
    const Size: array<int>
    var count: nat

    ghost predicate Valid()
      reads this, L, R, U, D, Col, Size
    {
      && L != R && L != U && L != D && R != U && R != D && U != D
      && Col != L && Col != R && Col != U && Col != D
      && L.Length == R.Length == U.Length == D.Length == Col.Length
      && Size.Length <= count <= L.Length
      && Wf(State())
    }

    ghost function State(): Links
      reads L, R, U, D, Size
    {
      Links(L[..], R[..], U[..], D[..], Size[..])
    }

    /** An arena of `capacity` ids whose first `headers` ids are reserved for column headers. */
    constructor (capacity: nat, headers: nat)
      requires headers <= capacity
      ensures Valid() && count == headers && L.Length == capacity && Size.Length == headers
      ensures fresh(L) && fresh(R) && fresh(U) && fresh(D) && fresh(Col) && fresh(Size)
      ensures forall x :: 0 <= x < capacity ==> Singleton(State(), x) && Col[x] == x
    {
      L := new nat[capacity](i => i);
      R := new nat[capacity](i => i);
      U := new nat[capacity](i => i);
      D := new nat[capacity](i => i);
      Col := new nat[capacity](i => i);
      Size := new int[headers](i => 0);
      count := headers;
      new;
      assert forall x :: 0 <= x < capacity ==> L[..][x] == x && R[..][x] == x && U[..][x] == x && D[..][x] == x;
    }

    /** The DancingLinksNode constructor: a fresh node that is its own neighbour on all four sides. */
    method NewNode(column: nat) returns (x: nat)
      requires Valid() && count < L.Length
      modifies this, L, R, U, D, Col
      ensures Valid() && x == old(count) && count == x + 1
      ensures State() == old(State()).(L := old(L[..])[x := x], R := old(R[..])[x := x],
                                       U := old(U[..])[x := x], D := old(D[..])[x := x])
      ensures Singleton(State(), x) && Col[..] == old(Col[..])[x := column]
    {
      x := count;
      L[x] := x;
      R[x] := x;
      U[x] := x;
      D[x] := x;
      Col[x] := column;
      count := count + 1;
    }

    /**
     * The DancingLinksColumnNode constructor for the header with id `h`:
     * Size 0, Column pointing at itself, all four links pointing at itself.
     */
    method NewColumnNode(h: nat)
      requires Valid() && h < Size.Length
      modifies L, R, U, D, Col, Size
      ensures Valid()
      ensures State() == old(State()).(L := old(L[..])[h := h], R := old(R[..])[h := h],
                                       U := old(U[..])[h := h], D := old(D[..])[h := h],
                                       Size := old(Size[..])[h := 0])
      ensures Singleton(State(), h) && Size[h] == 0 && Col[..] == old(Col[..])[h := h]
    {
      L[h] := h;
      R[h] := h;
      U[h] := h;
      D[h] := h;
      Col[h] := h;
      Size[h] := 0;
    }

    method LinkRight(t: nat, x: nat) returns (r: nat)
      requires Valid() && t < L.Length && x < L.Length
      modifies L, R
      ensures Valid() && r == x && State() == RightLinked(old(State()), t, x)
    {
      R[x] := R[t];
      L[R[x]] := x;
      L[x] := t;
      R[t] := x;
      r := x;
    }

    method LinkDown(t: nat, x: nat) returns (r: nat)
      requires Valid() && t < L.Length && x < L.Length
      modifies U, D
      ensures Valid() && r == x && State() == DownLinked(old(State()), t, x)
    {
      D[x] := D[t];
      U[D[x]] := x;
      U[x] := t;
      D[t] := x;
      r := x;
    }

    method RemoveLeftRight(x: nat)
      requires Valid() && x < L.Length
      modifies L, R
      ensures Valid() && State() == LeftRightRemoved(old(State()), x)
    {
      R[L[x]] := R[x];
      L[R[x]] := L[x];
    }

    method ReinsertLeftRight(x: nat)
      requires Valid() && x < L.Length
      modifies L, R
      ensures Valid() && State() == LeftRightReinserted(old(State()), x)
    {
      R[L[x]] := x;
      L[R[x]] := x;
    }

    method RemoveTopBottom(x: nat)
      requires Valid() && x < L.Length
      modifies U, D
      ensures Valid() && State() == TopBottomRemoved(old(State()), x)
    {
      D[U[x]] := D[x];
      U[D[x]] := U[x];
    }

    method ReinsertTopBottom(x: nat)
      requires Valid() && x < L.Length
      modifies U, D
      ensures Valid() && State() == TopBottomReinserted(old(State()), x)
    {
      D[U[x]] := x;
      U[D[x]] := x;
    }
  }
}
