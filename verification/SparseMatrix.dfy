/**
 * A sparse 0/1 matrix: for each row that has any, the sorted set of columns
 * holding a 1. The sorted set is kept as a strictly increasing sequence, in
 * the order the set enumerates its elements.
 */
module SparseMatrix {

  /** A (row, column) position in the matrix. */
  datatype SparseMatrixIndex = SparseMatrixIndex(row: int, column: int)

  /** Int32.CompareTo: -1, 0 or 1 as a is below, equal to or above b. */
  function CompareInt(a: int, b: int): (r: int)
    ensures r == 0 <==> a == b
    ensures r < 0 <==> a < b
    ensures -1 <= r <= 1
  {
    if a < b then -1 else if a > b then 1 else 0
  }

  /** (row, column) comes strictly before (row', column') in row-major order. */
  predicate Precedes(i: SparseMatrixIndex, j: SparseMatrixIndex)
  {
    i.row < j.row || (i.row == j.row && i.column < j.column)
  }

  /** CompareTo: compare the rows, and the columns when the rows are equal. */
  function CompareTo(i: SparseMatrixIndex, other: SparseMatrixIndex): (r: int)
    ensures r == 0 <==> i == other
    ensures r < 0 <==> Precedes(i, other)
    ensures r > 0 <==> Precedes(other, i)
  {
    var result := CompareInt(i.row, other.row);
    if result != 0 then result else CompareInt(i.column, other.column)
  }

  /** CompareTo is antisymmetric: swapping its arguments negates the answer. */
  lemma CompareToAntisymmetric(i: SparseMatrixIndex, j: SparseMatrixIndex)
    ensures CompareTo(i, j) == -CompareTo(j, i)
  {
  }

  /** The order CompareTo defines is transitive. */
  lemma CompareToTransitive(i: SparseMatrixIndex, j: SparseMatrixIndex, k: SparseMatrixIndex)
    requires CompareTo(i, j) < 0 && CompareTo(j, k) < 0
    ensures CompareTo(i, k) < 0
  {
  }

  /** s is strictly increasing: the enumeration of a sorted set. */
  predicate Increasing(s: seq<int>)
  {
    forall k1, k2 :: 0 <= k1 < k2 < |s| ==> s[k1] < s[k2]
  }

  /** SortedSet.Add: x put in its place in the sorted s, which is left as it is when x is there already. */
  function Insert(s: seq<int>, x: int): (r: seq<int>)
    requires Increasing(s)
    ensures Increasing(r)
    ensures forall y :: y in r <==> y in s || y == x
    ensures x in s ==> r == s
  {
    if s == [] then [x]
    else if x < s[0] then [x] + s
    else if x == s[0] then s
    else
      var t := Insert(s[1..], x);
      assert forall k :: 0 <= k < |t| ==> t[k] in t;
      [s[0]] + t
  }

  /** Every row's columns are sorted. */
  ghost predicate RowsSorted(m: map<int, seq<int>>)
  {
    forall row :: row in m ==> Increasing(m[row])
  }

  /** GetSparseMatrixColumn on the table m: the row's columns, or none. */
  function ColumnsOf(m: map<int, seq<int>>, row: int): seq<int>
  {
    if row in m then m[row] else []
  }

  /** The positions of the 1s of the table m. */
  ghost function Entries(m: map<int, seq<int>>): set<SparseMatrixIndex>
  {
    set row, column | row in m && column in m[row] :: SparseMatrixIndex(row, column)
  }

  /**
   * The sparse matrix: the table from row to sorted columns, and the two
   * dimensions it is given, which no operation checks.
   */
  class SparseMatrix {
    var table: map<int, seq<int>>
    var length1: int
    var length2: int

    ghost predicate Valid()
      reads this
    {
      RowsSorted(table)
    }

    /** A new matrix with no 1s. */
    constructor (length1: int, length2: int)
      ensures Valid() && table == map[] && this.length1 == length1 && this.length2 == length2
      ensures Entries(table) == {}
    {
      table := map[];
      this.length1 := length1;
      this.length2 := length2;
    }

    /**
     * Add: put the index's column in the index's row, creating the row if
     * it is new. Any index is accepted, whatever the dimensions.
     */
    method Add(index: SparseMatrixIndex)
      requires Valid()
      modifies this
      ensures Valid() && length1 == old(length1) && length2 == old(length2)
      ensures table == old(table)[index.row := Insert(ColumnsOf(old(table), index.row), index.column)]
      ensures Entries(table) == Entries(old(table)) + {index}
    {
      if index.row in table {
        table := table[index.row := Insert(table[index.row], index.column)];
      } else {
        table := table[index.row := Insert([], index.column)];
      }
      AddEntries(old(table), index);
    }

    /** Remove: drop the row and its columns, if it is there. */
    method Remove(row: int)
      requires Valid()
      modifies this
      ensures Valid() && length1 == old(length1) && length2 == old(length2)
      ensures table == old(table) - {row}
      ensures Entries(table) == set i | i in Entries(old(table)) && i.row != row
    {
      if row in table {
        table := table - {row};
      }
    }

    /** GetSparseMatrixColumn: the columns of the row in increasing order, none for an unknown row. */
    function GetSparseMatrixColumn(row: int): (r: seq<int>)
      requires Valid()
      reads this
      ensures Increasing(r)
      ensures forall column :: column in r <==> SparseMatrixIndex(row, column) in Entries(table)
    {
      ColumnsOf(table, row)
    }
  }

  /** Adding index to the table adds exactly that position to its entries. */
  lemma AddEntries(m: map<int, seq<int>>, index: SparseMatrixIndex)
    requires RowsSorted(m)
    ensures Entries(m[index.row := Insert(ColumnsOf(m, index.row), index.column)]) == Entries(m) + {index}
  {
    var m' := m[index.row := Insert(ColumnsOf(m, index.row), index.column)];
    forall i | i in Entries(m') ensures i in Entries(m) + {index} {
    }
    forall i | i in Entries(m) + {index} ensures i in Entries(m') {
    }
  }

  /** Adding a position that is already there changes nothing. */
  lemma AddIdempotent(m: map<int, seq<int>>, index: SparseMatrixIndex)
    requires RowsSorted(m) && index in Entries(m)
    ensures m[index.row := Insert(ColumnsOf(m, index.row), index.column)] == m
  {
  }

  /**
   * After adding index, its row holds its column, and every other row reads
   * as before.
   */
  lemma AddLookup(m: map<int, seq<int>>, index: SparseMatrixIndex, row: int)
    requires RowsSorted(m)
    ensures var m' := m[index.row := Insert(ColumnsOf(m, index.row), index.column)];
              && index.column in ColumnsOf(m', index.row)
              && (row != index.row ==> ColumnsOf(m', row) == ColumnsOf(m, row))
  {
  }

  /** After removing a row, it reads as empty and every other row reads as before. */
  lemma RemoveLookup(m: map<int, seq<int>>, removed: int, row: int)
    ensures ColumnsOf(m - {removed}, removed) == []
    ensures row != removed ==> ColumnsOf(m - {removed}, row) == ColumnsOf(m, row)
    ensures removed !in m ==> m - {removed} == m
  {
  }
}
