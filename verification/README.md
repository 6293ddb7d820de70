# SudokuSolver: the exact-cover engine, in Dafny

This project models the solving core of the SudokuSolver repository: the
Dancing Links Sudoku solver and the pieces it rests on.

- **Board.** `ArraySudokuBoard` reads an n x n board from a string of digits.
  It throws `InvalidBoardString` on a wrong length or a non-digit. It can
  print itself back as a string.
- **Building the matrix.** `DancingLinksSolver` builds the exact-cover matrix
  of the board: one row per candidate "digit d in cell (r, c)" and 4n²
  constraint columns. It then clears the rows of the other digits of every
  given cell.
- **Dancing Links.** `DancingLinks` builds the dancing-links structure from
  that matrix. Algorithm X then searches for one exact cover, covering and
  uncovering columns through the node operations of `DancingLinksNode` and
  `DancingLinksColumnNode`.
- **Writing back.** The solver reads the cover back as digits and writes
  them into the board.
- **Also modelled.** The backtracking solver, the `SparseMatrix` helper, and
  the test suite's solved-board check `IsSolved` together with the test that
  runs the solver and then the check.

## Modelling choices

**Nodes.**
- Nodes live in an arena (`DancingLinksNode.Arena`). A node is an id, and
  its Left/Right/Up/Down links, Column and Size are entries of arrays.
- The value `Links` mirrors the arena's arrays. Functions over `Links`
  specify every node operation.

**Layout of the ids.**
- The build lays the ids out as follows: headers 0..n-1 (the id is the
  column's name), the root n, then the data nodes row after row.
- A ghost `Layout` records this.

**Cover and Uncover.**
- They are methods on the arena.
- They are proved equal to the functions `CoverFn`/`UncoverFn`, which replay
  the node operations in the order the source's loops do.

**The search.**
- `DancingLinks.Search` is proved against `Recorded`: every cover it appends
  to `allSolutions` is the partial solution it started from plus an exact
  cover of the remaining columns.
- It is also proved against `Stops`: it stops exactly at `solutionCount`
  solutions.
- When it fails, it restores every link and every Size.

**From cover to board.** The Sudoku-level results live in `CoverMatrix`:
- an exact cover of the Sudoku matrix, written into the board, gives a
  solved board that keeps the givens (`CoverSolves`);
- every constraint column of the matrix has exactly n ones and every
  candidate row has exactly four (`ColumnOnes`, `RowOnes`).

**Backtracking.** The backtracking solver is specified by the ghost function
`Backtrack` on the grid of cell values.

## Model

| member | source | states |
|---|---|---|
| DancingLinksNode.LeftRightRemoved | SudokuSolver/Solvers/DancingLinksSolver/DancingLinks/DancingLinksNode.cs:51-55 | Left.Right := Right and Right.Left := Left; the node keeps its own links; nothing else changes |
| DancingLinksNode.LeftRightReinserted | SudokuSolver/Solvers/DancingLinksSolver/DancingLinks/DancingLinksNode.cs:58-62 | the node's neighbours point back at it; no other Left/Right link and no Up/Down link changes |
| DancingLinksNode.TopBottomRemoved | SudokuSolver/Solvers/DancingLinksSolver/DancingLinks/DancingLinksNode.cs:65-69 | Up.Down := Down and Down.Up := Up; the node keeps its own links; nothing else changes |
| DancingLinksNode.TopBottomReinserted | SudokuSolver/Solvers/DancingLinksSolver/DancingLinks/DancingLinksNode.cs:72-76 | the node's vertical neighbours point back at it; nothing else changes |
| DancingLinksNode.RightLinked | SudokuSolver/Solvers/DancingLinksSolver/DancingLinks/DancingLinksNode.cs:41-48 | after LinkRight, t.Right == x and x.Left == t; Up/Down links and sizes are untouched |
| DancingLinksNode.DownLinked | SudokuSolver/Solvers/DancingLinksSolver/DancingLinks/DancingLinksNode.cs:31-38 | after LinkDown, t.Down == x and x.Up == t; Left/Right links and sizes are untouched |
| DancingLinksNode.RemoveThenReinsertLeftRight | SudokuSolver/Solvers/DancingLinksSolver/DancingLinks/DancingLinksNode.cs:51-62 | on a linked node, ReinsertLeftRight undoes RemoveLeftRight exactly |
| DancingLinksNode.RemoveThenReinsertTopBottom | SudokuSolver/Solvers/DancingLinksSolver/DancingLinks/DancingLinksNode.cs:65-76 | on a linked node, ReinsertTopBottom undoes RemoveTopBottom exactly |
| DancingLinksNode.RingRemove | SudokuSolver/Solvers/DancingLinksSolver/DancingLinks/DancingLinksNode.cs:51-55 | unlinking a member of a circular doubly linked list leaves the list without that member, still circular and without repeats |
| DancingLinksNode.RingSplice | SudokuSolver/Solvers/DancingLinksSolver/DancingLinks/DancingLinksNode.cs:41-48 | linking a new node after position k of a ring gives the ring with the node inserted there; no other link changes |
| DancingLinksNode.RingInsert | SudokuSolver/Solvers/DancingLinksSolver/DancingLinks/DancingLinksNode.cs:58-62 | linking a node between the k-th element of a ring and its successor gives the ring with the node inserted after position k, still without repeats |
| DancingLinksNode.Arena.constructor | SudokuSolver/Solvers/DancingLinksSolver/DancingLinks/DancingLinksNode.cs:21-28 | every node starts linked to itself in all four directions, with Column set to itself |
| DancingLinksNode.Arena.NewNode | SudokuSolver/Solvers/DancingLinksSolver/DancingLinks/DancingLinksNode.cs:21-28 | the next free id becomes a node linked to itself with the given Column; nothing else changes |
| DancingLinksNode.Arena.NewColumnNode | SudokuSolver/Solvers/DancingLinksSolver/DancingLinks/DancingLinksColumnNode.cs:17-22 | a header starts linked to itself, as its own column, with Size 0 |
| DancingLinksNode.Arena.LinkRight | SudokuSolver/Solvers/DancingLinksSolver/DancingLinks/DancingLinksNode.cs:41-48 | the arena becomes RightLinked of its old state and the linked node is returned |
| DancingLinksNode.Arena.LinkDown | SudokuSolver/Solvers/DancingLinksSolver/DancingLinks/DancingLinksNode.cs:31-38 | the arena becomes DownLinked of its old state and the linked node is returned |
| DancingLinksNode.Arena.RemoveLeftRight | SudokuSolver/Solvers/DancingLinksSolver/DancingLinks/DancingLinksNode.cs:51-55 | the arena becomes LeftRightRemoved of its old state |
| DancingLinksNode.Arena.ReinsertLeftRight | SudokuSolver/Solvers/DancingLinksSolver/DancingLinks/DancingLinksNode.cs:58-62 | the arena becomes LeftRightReinserted of its old state |
| DancingLinksNode.Arena.RemoveTopBottom | SudokuSolver/Solvers/DancingLinksSolver/DancingLinks/DancingLinksNode.cs:65-69 | the arena becomes TopBottomRemoved of its old state |
| DancingLinksNode.Arena.ReinsertTopBottom | SudokuSolver/Solvers/DancingLinksSolver/DancingLinks/DancingLinksNode.cs:72-76 | the arena becomes TopBottomReinserted of its old state |
| DancingLinksColumnNode.Cover | SudokuSolver/Solvers/DancingLinksSolver/DancingLinks/DancingLinksColumnNode.cs:30-42 | the arena becomes CoverFn of its old state: the header unlinked left/right, then, row by row downwards, every other node of the row unlinked up/down with its column's Size decreased |
| DancingLinksColumnNode.Uncover | SudokuSolver/Solvers/DancingLinksSolver/DancingLinks/DancingLinksColumnNode.cs:51-62 | the arena becomes UncoverFn of its old state: the same steps undone, rows upwards and nodes leftwards, then the header relinked |
| DancingLinksColumnNode.CoverRows | SudokuSolver/Solvers/DancingLinksSolver/DancingLinks/DancingLinksColumnNode.cs:34-41 | the outer loop of Cover: walking the column's ring downwards takes out, in order, every node the rows after each ring node reach |
| DancingLinksColumnNode.CoverRow | SudokuSolver/Solvers/DancingLinksSolver/DancingLinks/DancingLinksColumnNode.cs:36-40 | the inner loop of Cover: walking Right from a row node takes out every other node of the row, left to right |
| DancingLinksColumnNode.CoverNode | SudokuSolver/Solvers/DancingLinksSolver/DancingLinks/DancingLinksColumnNode.cs:38-39 | one node taken out of its column, its column's Size one smaller |
| DancingLinksColumnNode.RemoveNode | SudokuSolver/Solvers/DancingLinksSolver/DancingLinks/DancingLinksColumnNode.cs:38-39 | RemoveTopBottom then Size--: the arena becomes RemoveStep of its old state, Left/Right untouched |
| DancingLinksColumnNode.UncoverRows | SudokuSolver/Solvers/DancingLinksSolver/DancingLinks/DancingLinksColumnNode.cs:53-60 | the outer loop of Uncover: walking the column's ring upwards puts back the nodes Cover took out, in reverse order |
| DancingLinksColumnNode.UncoverRow | SudokuSolver/Solvers/DancingLinksSolver/DancingLinks/DancingLinksColumnNode.cs:55-59 | the inner loop of Uncover: walking Left from a row node puts back every other node of the row, right to left |
| DancingLinksColumnNode.UncoverNode | SudokuSolver/Solvers/DancingLinksSolver/DancingLinks/DancingLinksColumnNode.cs:57-58 | one node put back into its column, its column's Size one larger |
| DancingLinksColumnNode.ReinsertNode | SudokuSolver/Solvers/DancingLinksSolver/DancingLinks/DancingLinksColumnNode.cs:57-58 | Size++ then ReinsertTopBottom: the arena becomes ReinsertStep of its old state, Left/Right untouched |
| DancingLinksColumnNode.UndoStep | SudokuSolver/Solvers/DancingLinksSolver/DancingLinks/DancingLinksColumnNode.cs:38-39 | putting a node back with Size++ undoes taking it out with Size-- |
| DancingLinksColumnNode.CoverLinks | SudokuSolver/Solvers/DancingLinksSolver/DancingLinks/DancingLinksColumnNode.cs:30-42 | Cover keeps every row's Left/Right ring and the header's own Left/Right, and the covered column's own vertical ring stays whole |
| DancingLinksColumnNode.CoverVertical | SudokuSolver/Solvers/DancingLinksSolver/DancingLinks/DancingLinksColumnNode.cs:30-42 | after Cover no column ring reaches a node outside it, and the covered column keeps its whole vertical ring |
| DancingLinksColumnNode.CoverKeepsInv | SudokuSolver/Solvers/DancingLinksSolver/DancingLinks/DancingLinksColumnNode.cs:30-42 | Cover keeps the structure invariant, with the column taken out of the header ring and the rows through it gone from every other column |
| DancingLinksColumnNode.CoverColumns | SudokuSolver/Solvers/DancingLinksSolver/DancingLinks/DancingLinksColumnNode.cs:30-42 | after Cover, every remaining column ring holds exactly its nodes in the remaining rows, each Size counts them, and putting the rows back in reverse order restores all but the header link |
| DancingLinksColumnNode.UncoverAfterCover | SudokuSolver/Solvers/DancingLinksSolver/DancingLinks/DancingLinksColumnNode.cs:30-62 | Uncover right after Cover restores every link and every Size |
| DancingLinksBuild.InitDLX | SudokuSolver/Solvers/DancingLinksSolver/DancingLinks/DancingLinks.cs:120-169 | the built structure encodes the matrix: header ring of all columns after the root, each column ring holding that column's 1s top to bottom, each row ring its 1s left to right, each Size the column's count of 1s; the root's Size is the number of columns |
| DancingLinksBuild.LinkHeaders | SudokuSolver/Solvers/DancingLinksSolver/DancingLinks/DancingLinks.cs:122-135 | the root and the n headers form one ring in label order, each header an empty column |
| DancingLinksBuild.LinkColumns | SudokuSolver/Solvers/DancingLinksSolver/DancingLinks/DancingLinks.cs:128-133 | the header loop: starting from the lone root, all n headers are linked into the ring in order |
| DancingLinksBuild.AddHeader | SudokuSolver/Solvers/DancingLinksSolver/DancingLinks/DancingLinks.cs:128-133 | header i is linked right of header i - 1 (or of the root), extending the header ring by one |
| DancingLinksBuild.AddRow | SudokuSolver/Solvers/DancingLinksSolver/DancingLinks/DancingLinks.cs:140-164 | after row r, the structure encodes the first r + 1 rows of the matrix |
| DancingLinksBuild.AddNode | SudokuSolver/Solvers/DancingLinksSolver/DancingLinks/DancingLinks.cs:150-159 | a 1 becomes a new node at the bottom of its column and the end of its row, with its column's Size one larger |
| DancingLinksBuild.AddCell | SudokuSolver/Solvers/DancingLinksSolver/DancingLinks/DancingLinks.cs:145-162 | one matrix entry of the row: a 1 is added as a node, a 0 changes nothing; afterwards the structure encodes the row up to and including this column |
| DancingLinksBuild.LinkNode | SudokuSolver/Solvers/DancingLinksSolver/DancingLinks/DancingLinks.cs:150-159 | the new node is linked at the bottom of its column and after the row's last node (to itself for a row's first node), and its column's Size grows by one |
| DancingLinksBuild.BuiltEncodes | SudokuSolver/Solvers/DancingLinksSolver/DancingLinks/DancingLinks.cs:120-169 | once every row is added, the structure satisfies the search invariant and matches the matrix row for row |
| DancingLinksBuild.HeadersBuilt | SudokuSolver/Solvers/DancingLinksSolver/DancingLinks/DancingLinks.cs:128-135 | the linked headers alone are the build's starting point: no row added yet |
| DancingLinksBuild.BuiltBound | SudokuSolver/Solvers/DancingLinksSolver/DancingLinks/DancingLinks.cs:140-164 | after the rows are added, the node count is at most n + 1 + rows * n |
| DancingLinks.DancingLinks.constructor | SudokuSolver/Solvers/DancingLinksSolver/DancingLinks/DancingLinks.cs:23-29 | empty solution lists, and the arena encodes the given matrix with every column active and every row live |
| DancingLinks.DancingLinks.Solve | SudokuSolver/Solvers/DancingLinksSolver/DancingLinks/DancingLinks.cs:35-39 | every recorded solution is an exact cover of the matrix; success exactly when solutionCount covers were recorded; on failure the structure is as built |
| DancingLinks.DancingLinks.Search | SudokuSolver/Solvers/DancingLinksSolver/DancingLinks/DancingLinks.cs:47-91 | each cover it records is the current partial solution plus an exact cover of the active columns by live rows; it returns true exactly when the solution count is reached; on false every link and Size is restored |
| DancingLinks.DancingLinks.SearchColumn | SudokuSolver/Solvers/DancingLinksSolver/DancingLinks/DancingLinks.cs:65-90 | covering the chosen column, trying its rows and uncovering it keeps Search's contract |
| DancingLinks.DancingLinks.SearchCovered | SudokuSolver/Solvers/DancingLinksSolver/DancingLinks/DancingLinks.cs:66-89 | with the chosen column covered, trying its rows and then uncovering it keeps Search's contract |
| DancingLinks.DancingLinks.UncoverChosen | SudokuSolver/Solvers/DancingLinksSolver/DancingLinks/DancingLinks.cs:89 | uncovering the chosen column after its rows gives back exactly the links of the level before it was covered |
| DancingLinks.DancingLinks.RowTurn | SudokuSolver/Solvers/DancingLinksSolver/DancingLinks/DancingLinks.cs:67-87 | one turn of the row loop: covers recorded stay exact; without a stop the state is back to the column covered, and the next row is the one below |
| DancingLinks.DancingLinks.Descend | SudokuSolver/Solvers/DancingLinksSolver/DancingLinks/DancingLinks.cs:76-77 | the recursive call below a chosen row: covers recorded extend the partial solution with that row; without a stop, the row's columns are still covered |
| DancingLinks.DancingLinks.Backtrack | SudokuSolver/Solvers/DancingLinksSolver/DancingLinks/DancingLinks.cs:80-86 | popping the last row and uncovering its columns right to left restores the state before the row was taken |
| DancingLinks.DancingLinks.Record | SudokuSolver/Solvers/DancingLinksSolver/DancingLinks/DancingLinks.cs:50-60 | with no column left, the partial solution is appended as a cover, and true is returned exactly when that makes solutionCount covers |
| DancingLinks.DancingLinks.Choose | SudokuSolver/Solvers/DancingLinksSolver/DancingLinks/DancingLinks.cs:97-114 | returns the first active column of least Size (no column when every Size is at least int.MaxValue) |
| DancingLinks.DancingLinks.SearchRows | SudokuSolver/Solvers/DancingLinksSolver/DancingLinks/DancingLinks.cs:66-87 | tries the chosen column's rows top to bottom; every cover recorded on the way is exact, and on failure the structure is back to just the column covered |
| DancingLinks.DancingLinks.TryRow | SudokuSolver/Solvers/DancingLinksSolver/DancingLinks/DancingLinks.cs:68-86 | pushing a row, covering its other columns, recursing and undoing: covers recorded are exact, and on failure the state before the row is back |
| DancingLinks.DancingLinks.CoverRowColumns | SudokuSolver/Solvers/DancingLinksSolver/DancingLinks/DancingLinks.cs:71-74 | the columns of the row's other nodes are covered left to right |
| DancingLinks.DancingLinks.UncoverRowColumns | SudokuSolver/Solvers/DancingLinksSolver/DancingLinks/DancingLinks.cs:83-86 | uncovering them right to left restores the state before CoverRowColumns |
| DancingLinks.DancingLinks.CoverColumnOf | SudokuSolver/Solvers/DancingLinksSolver/DancingLinks/DancingLinks.cs:71-74 | one turn of the covering loop: the node's column is covered and the walk moves right, back at the row exactly when the row is done |
| DancingLinks.DancingLinks.UncoverColumnOf | SudokuSolver/Solvers/DancingLinksSolver/DancingLinks/DancingLinks.cs:83-86 | one turn of the uncovering loop: the node's column is uncovered and the walk moves left, back at the row exactly when the row is done |
| DancingLinks.CoverCons | SudokuSolver/Solvers/DancingLinksSolver/DancingLinks/DancingLinks.cs:68-77 | a row plus an exact cover of the columns that row leaves is an exact cover of all of them |
| DancingLinks.CoverOneKeeps | SudokuSolver/Solvers/DancingLinksSolver/DancingLinks/DancingLinks.cs:65 | covering an active column keeps the search invariant and removes just that column |
| DancingLinks.CoverAllKeeps | SudokuSolver/Solvers/DancingLinksSolver/DancingLinks/DancingLinks.cs:71-74 | covering the columns of a row one after another keeps the search invariant at every step |
| DancingLinks.ScanFacts | SudokuSolver/Solvers/DancingLinksSolver/DancingLinks/DancingLinks.cs:100-113 | the scan over the sizes finds no column iff every size is at least int.MaxValue, and otherwise the first position of the minimum with that minimum |
| DancingLinks.RecordedTrans | SudokuSolver/Solvers/DancingLinksSolver/DancingLinks/DancingLinks.cs:66-87 | covers recorded in two stretches of the search are covers recorded over the whole |
| DancingLinks.FirstMinUnique | SudokuSolver/Solvers/DancingLinksSolver/DancingLinks/DancingLinks.cs:104-112 | the first position of the minimum is unique, so Choose's answer is determined |
| DancingLinks.ChooseSome | SudokuSolver/Solvers/DancingLinksSolver/DancingLinks/DancingLinks.cs:97-114 | while a column is active and the node count is below int.MaxValue, some active column has Size below int.MaxValue, so Choose returns a column |
| DancingLinks.RowChoice | SudokuSolver/Solvers/DancingLinksSolver/DancingLinks/DancingLinks.cs:66-74 | a row of the chosen column is live, all its columns are active, and covering them removes exactly that row's columns |
| DancingLinks.RecordedCovers | SudokuSolver/Solvers/DancingLinksSolver/DancingLinks/DancingLinks.cs:35-39 | every solution recorded from the initial structure is a set of matrix rows covering each column exactly once |
| DancingLinks.CoverOfMatrix | SudokuSolver/Solvers/DancingLinksSolver/DancingLinks/DancingLinks.cs:53 | an exact cover by nodes names matrix rows that cover every column exactly once |
| CoverMatrix.IndexIsEncode | SudokuSolver/Solvers/DancingLinksSolver/DancingLinksSolver.cs:64-67 | IndexInCoverMatrix(row, column, num), counted from 1, is the row of candidate (row-1, column-1, num-1) |
| CoverMatrix.DecodeEncode | SudokuSolver/Solvers/DancingLinksSolver/DancingLinksSolver.cs:64-67 | a candidate's matrix row decodes back to that candidate |
| CoverMatrix.EncodeDecode | SudokuSolver/Solvers/DancingLinksSolver/DancingLinksSolver.cs:64-67 | every row below n³ is the row of exactly the candidate it decodes to |
| CoverMatrix.EncodeBound | SudokuSolver/Solvers/DancingLinksSolver/DancingLinksSolver.cs:64-67 | a candidate's row lies below n³ |
| CoverMatrix.ConstraintBounds | SudokuSolver/Solvers/DancingLinksSolver/DancingLinksSolver.cs:98-183 | a candidate's cell, row, column and box constraints fall in the 1st, 2nd, 3rd and 4th block of n² columns |
| CoverMatrix.CoverSolves | SudokuSolver/Solvers/DancingLinksSolver/DancingLinksSolver.cs:43-52 | writing the digits of an exact cover of the Sudoku matrix into the board gives a solved board that keeps every given value |
| CoverMatrix.CoverCandidates | SudokuSolver/Solvers/DancingLinksSolver/DancingLinksSolver.cs:191-220 | the rows of an exact cover are candidates that agree with the givens, pairwise compatible, and fill every cell |
| CoverMatrix.ReadOffSolved | SudokuTest/SudokuSolveTest.cs:40-91 | a board that holds the digits of a compatible set of candidates filling every cell passes the solved check |
| CoverMatrix.PlacedValues | SudokuSolver/Solvers/DancingLinksSolver/DancingLinksSolver.cs:226-257 | writing candidates for distinct cells puts each digit at its cell and leaves the other cells as they were |
| DancingLinksSolver.IntSqrt | SudokuSolver/Solvers/DancingLinksSolver/DancingLinksSolver.cs:27 | (int)Math.Sqrt: the largest s with s² <= n |
| DancingLinksSolver.IntSqrtOfSquare | SudokuSolver/Solvers/DancingLinksSolver/DancingLinksSolver.cs:27 | on a perfect square the sector size is the exact root |
| DancingLinksSolver.DancingLinksSolver.constructor | SudokuSolver/Solvers/DancingLinksSolver/DancingLinksSolver.cs:24-28 | the solver holds the board, its size, and the integer square root of the size |
| DancingLinksSolver.DancingLinksSolver.CreateMatrix | SudokuSolver/Solvers/DancingLinksSolver/DancingLinksSolver.cs:75-89 | a fresh n³ x 4n² matrix whose row i has a 1 in column h exactly when h is one of the four constraints of candidate i |
| DancingLinksSolver.DancingLinksSolver.CreateCellConstraints | SudokuSolver/Solvers/DancingLinksSolver/DancingLinksSolver.cs:170-183 | columns 0..n²-1 are marked exactly for the candidates of each cell, and the next header is n² |
| DancingLinksSolver.DancingLinksSolver.CreateRowConstraints | SudokuSolver/Solvers/DancingLinksSolver/DancingLinksSolver.cs:148-161 | columns n²..2n²-1 are marked exactly for the candidates of each (row, digit), and the next header is 2n² |
| DancingLinksSolver.DancingLinksSolver.CreateColumnConstraints | SudokuSolver/Solvers/DancingLinksSolver/DancingLinksSolver.cs:126-139 | columns 2n²..3n²-1 are marked exactly for the candidates of each (column, digit), and the next header is 3n² |
| DancingLinksSolver.DancingLinksSolver.CreateBoxConstraints | SudokuSolver/Solvers/DancingLinksSolver/DancingLinksSolver.cs:98-117 | columns 3n²..4n²-1 are marked exactly for the candidates of each (box, digit), and the next header is 4n² |
| DancingLinksSolver.DancingLinksSolver.CellConstraintsRow | SudokuSolver/Solvers/DancingLinksSolver/DancingLinksSolver.cs:174-181 | one row of cells marked: the next header is row * n |
| DancingLinksSolver.DancingLinksSolver.MarkCell | SudokuSolver/Solvers/DancingLinksSolver/DancingLinksSolver.cs:176-180 | one cell's column marked for its n candidates |
| DancingLinksSolver.DancingLinksSolver.RowConstraintsRow | SudokuSolver/Solvers/DancingLinksSolver/DancingLinksSolver.cs:152-159 | one board row's n columns marked |
| DancingLinksSolver.DancingLinksSolver.MarkRow | SudokuSolver/Solvers/DancingLinksSolver/DancingLinksSolver.cs:154-158 | one (row, digit) column marked for its n candidates |
| DancingLinksSolver.DancingLinksSolver.ColumnConstraintsColumn | SudokuSolver/Solvers/DancingLinksSolver/DancingLinksSolver.cs:130-137 | one board column's n columns marked |
| DancingLinksSolver.DancingLinksSolver.MarkColumn | SudokuSolver/Solvers/DancingLinksSolver/DancingLinksSolver.cs:132-136 | one (column, digit) column marked for its n candidates |
| DancingLinksSolver.DancingLinksSolver.BoxConstraintsRow | SudokuSolver/Solvers/DancingLinksSolver/DancingLinksSolver.cs:102-115 | one band of boxes marked |
| DancingLinksSolver.DancingLinksSolver.BoxConstraintsBox | SudokuSolver/Solvers/DancingLinksSolver/DancingLinksSolver.cs:104-114 | one box's n columns marked |
| DancingLinksSolver.DancingLinksSolver.MarkBox | SudokuSolver/Solvers/DancingLinksSolver/DancingLinksSolver.cs:106-113 | one (box, digit) column marked for the n candidates of the box's cells |
| DancingLinksSolver.DancingLinksSolver.MarkBoxRow | SudokuSolver/Solvers/DancingLinksSolver/DancingLinksSolver.cs:108-112 | one row of a box marked in a (box, digit) column, the other columns untouched |
| DancingLinksSolver.ColumnOnes | SudokuSolver/Solvers/DancingLinksSolver/DancingLinksSolver.cs:98-183 | every constraint column of the built matrix has exactly n ones |
| DancingLinksSolver.RowOnes | SudokuSolver/Solvers/DancingLinksSolver/DancingLinksSolver.cs:98-183 | every candidate row of the built matrix has exactly four ones, its cell, row, column and box constraints |
| DancingLinksSolver.ColumnRowBit | SudokuSolver/Solvers/DancingLinksSolver/DancingLinksSolver.cs:98-183 | the k-th candidate of a constraint column, for k < n, is a row with a 1 in that column, and different k give different rows |
| DancingLinksSolver.ColumnRowOf | SudokuSolver/Solvers/DancingLinksSolver/DancingLinksSolver.cs:98-183 | every row with a 1 in a constraint column is one of that column's n candidates |
| DancingLinksSolver.DancingLinksSolver.ClearRow | SudokuSolver/Solvers/DancingLinksSolver/DancingLinksSolver.cs:209-212 | the one matrix row becomes all zeros; every other entry is kept |
| DancingLinksSolver.DancingLinksSolver.ConvertRow | SudokuSolver/Solvers/DancingLinksSolver/DancingLinksSolver.cs:198-216 | one board row converted: the matrix rows of its cells are cleared as the given values demand |
| DancingLinksSolver.DancingLinksSolver.ConvertCell | SudokuSolver/Solvers/DancingLinksSolver/DancingLinksSolver.cs:200-215 | one cell converted: for a given value, the rows of its other digits are cleared; for an empty cell nothing changes |
| DancingLinksSolver.DancingLinksSolver.ConvertCandidate | SudokuSolver/Solvers/DancingLinksSolver/DancingLinksSolver.cs:206-213 | one candidate of a given cell: its row is cleared exactly when its digit differs from the given value |
| DancingLinksSolver.DancingLinksSolver.ConvertBoardToMatrix | SudokuSolver/Solvers/DancingLinksSolver/DancingLinksSolver.cs:191-220 | the result is the Sudoku matrix of the board: a candidate's row keeps its four 1s unless its cell holds a different value, and is all zeros otherwise |
| DancingLinksSolver.DancingLinksSolver.FindRowColNode | SudokuSolver/Solvers/DancingLinksSolver/DancingLinksSolver.cs:232-244 | walking Right around a row returns the row's node of least column |
| DancingLinksSolver.DancingLinksSolver.CellOfNode | SudokuSolver/Solvers/DancingLinksSolver/DancingLinksSolver.cs:246-252 | row, column and num read from the row's two first column names are the candidate's cell and its digit + 1 |
| DancingLinksSolver.DancingLinksSolver.AddSolutionToBoard | SudokuSolver/Solvers/DancingLinksSolver/DancingLinksSolver.cs:226-257 | the board becomes the old board with each solution row's digit written at its cell |
| DancingLinksSolver.DancingLinksSolver.AddNode | SudokuSolver/Solvers/DancingLinksSolver/DancingLinksSolver.cs:228-255 | one solution node: its candidate's digit is written at its cell |
| DancingLinksSolver.DancingLinksSolver.SetValue | SudokuSolver/Solvers/DancingLinksSolver/DancingLinksSolver.cs:255 | the one cell's value is set, every other cell kept |
| DancingLinksSolver.RowHead | SudokuSolver/Solvers/DancingLinksSolver/DancingLinksSolver.cs:232-252 | a row of the Sudoku structure starts with its cell constraint, followed by its row constraint, and every other node has a larger column |
| DancingLinksSolver.SmallestIsFirst | SudokuSolver/Solvers/DancingLinksSolver/DancingLinksSolver.cs:232-244 | within a row of the Sudoku structure, the node of least column is the row's first |
| DancingLinksSolver.RowColumnDigit | SudokuSolver/Solvers/DancingLinksSolver/DancingLinksSolver.cs:251-252 | the row constraint's index mod n is the candidate's digit - 1 |
| DancingLinksSolver.FirstCover | SudokuSolver/Solvers/DancingLinksSolver/DancingLinksSolver.cs:43-49 | the first recorded solution is an exact cover of the Sudoku matrix |
| DancingLinksSolver.DancingLinksSolver.SearchMatrix | SudokuSolver/Solvers/DancingLinksSolver/DancingLinksSolver.cs:43-45 | on success exactly one solution is recorded, and it is an exact cover of the Sudoku matrix |
| DancingLinksSolver.DancingLinksSolver.Solve | SudokuSolver/Solvers/DancingLinksSolver/DancingLinksSolver.cs:34-55 | a reported success leaves a solved board that keeps every given value; a failure leaves the board as it was; the solving time is passed through |
| DancingLinksSolver.SolveAndCheck | SudokuTest/SudokuSolveTest.cs:23-31 | the test's assertion holds exactly when the solver reports success; it then holds a solved board keeping the string's givens; a rejected string fails |
| SparseMatrix.CompareInt | SudokuSolver/Solvers/DancingLinksSolver/SparseMatrix.cs:22 | sign of the comparison: 0 iff equal, negative iff below |
| SparseMatrix.CompareTo | SudokuSolver/Solvers/DancingLinksSolver/SparseMatrix.cs:19-27 | 0 iff the indices are equal; negative iff the first precedes in row-then-column order |
| SparseMatrix.CompareToAntisymmetric | SudokuSolver/Solvers/DancingLinksSolver/SparseMatrix.cs:19-27 | swapping the arguments negates the result |
| SparseMatrix.CompareToTransitive | SudokuSolver/Solvers/DancingLinksSolver/SparseMatrix.cs:19-27 | the order CompareTo defines is transitive |
| SparseMatrix.Insert | SudokuSolver/Solvers/DancingLinksSolver/SparseMatrix.cs:51-56 | SortedSet.Add: the result is increasing, holds the old members and x, and is unchanged when x was there |
| SparseMatrix.SparseMatrix.constructor | SudokuSolver/Solvers/DancingLinksSolver/SparseMatrix.cs:36-41 | an empty matrix with the given lengths |
| SparseMatrix.SparseMatrix.Add | SudokuSolver/Solvers/DancingLinksSolver/SparseMatrix.cs:47-58 | the entries become the old entries plus the index; other rows are unchanged |
| SparseMatrix.SparseMatrix.Remove | SudokuSolver/Solvers/DancingLinksSolver/SparseMatrix.cs:64-68 | the entries become the old entries without that row; a missing row changes nothing |
| SparseMatrix.SparseMatrix.GetSparseMatrixColumn | SudokuSolver/Solvers/DancingLinksSolver/SparseMatrix.cs:75-80 | the row's columns in increasing order, exactly those with an entry; empty for a missing row |
| SparseMatrix.AddEntries | SudokuSolver/Solvers/DancingLinksSolver/SparseMatrix.cs:47-58 | inserting the column into its row's sorted set adds exactly that index to the entries |
| SparseMatrix.AddIdempotent | SudokuSolver/Solvers/DancingLinksSolver/SparseMatrix.cs:47-58 | adding an index already present changes nothing |
| SparseMatrix.AddLookup | SudokuSolver/Solvers/DancingLinksSolver/SparseMatrix.cs:47-58 | after Add the column is in its row, and every other row reads as before |
| SparseMatrix.RemoveLookup | SudokuSolver/Solvers/DancingLinksSolver/SparseMatrix.cs:64-80 | after Remove the row reads empty and every other row reads as before |
| Board.NewBoard | SudokuSolver/Board/ArraySudokuBoard.cs:25-49 | a string of the wrong length gives "Board string is invalid."; one with a non-digit gives "Board string must contain only numbers!"; otherwise every cell (r, c) holds the digit at r * n + c, marked given |
| Board.FillRow | SudokuSolver/Board/ArraySudokuBoard.cs:39-47 | one row filled from the string, or a non-digit reported; other rows untouched |
| Board.ArraySudokuBoard.constructor | SudokuSolver/Board/ArraySudokuBoard.cs:27-28 | a fresh n x n cell array |
| Board.ArraySudokuBoard.Set | SudokuSolver/Board/ArraySudokuBoard.cs:57-61 | the indexer's setter: the one cell is replaced, every other cell kept |
| Board.ArraySudokuBoard.Values | SudokuSolver/Board/ArraySudokuBoard.cs:57-61 | the indexer's getter, read for every cell: the grid of cell values |
| Board.ArraySudokuBoard.GetBoardString | SudokuSolver/Board/ArraySudokuBoard.cs:67-78 | the cell values, row after row, each as its decimal text |
| Board.BoardStringRoundTrip | SudokuSolver/Board/ArraySudokuBoard.cs:25-78 | printing a board read from a digit string gives that string back |
| Board.DigitValue | SudokuSolver/Board/ArraySudokuBoard.cs:46 | currChar - '0' is a value 0..9 for a digit |
| BacktrackingSolver.BacktrackingSolver.constructor | SudokuSolver/Solvers/BacktrackingSolver/BacktrackingSolver.cs:29-32 | the solver holds the board and its size |
| BacktrackingSolver.BacktrackingSolver.FindEmptyCell | SudokuSolver/Solvers/BacktrackingSolver/BacktrackingSolver.cs:88-95 | the first empty cell in row-major order, or none exactly when the board is full |
| BacktrackingSolver.FirstEmptyIsFirst | SudokuSolver/Solvers/BacktrackingSolver/BacktrackingSolver.cs:88-95 | the cell found is empty and every cell before it is filled; none is found iff no cell is empty |
| BacktrackingSolver.BacktrackingSolver.SolveBoard | SudokuSolver/Solvers/BacktrackingSolver/BacktrackingSolver.cs:54-82 | returns whether the backtracking search succeeds; on success the board is its filled grid, full and extending the old one; on failure the board is unchanged |
| BacktrackingSolver.BacktrackingSolver.TryNumber | SudokuSolver/Solvers/BacktrackingSolver/BacktrackingSolver.cs:67-79 | one digit tried: success iff it is valid and the search from the board with it filled in succeeds; on failure the board is as before |
| BacktrackingSolver.BacktrackingSolver.Place | SudokuSolver/Solvers/BacktrackingSolver/BacktrackingSolver.cs:72 | the one cell's value is set, every other cell and the cell's other fields kept |
| BacktrackingSolver.BacktrackingSolver.Solve | SudokuSolver/Solvers/BacktrackingSolver/BacktrackingSolver.cs:38-48 | success exactly when the backtracking search from the old board succeeds; the board is then that filled grid, full and extending the old one; on failure it is unchanged; the solving time is passed through |
| BacktrackingSolver.BacktrackFills | SudokuSolver/Solvers/BacktrackingSolver/BacktrackingSolver.cs:54-82 | a successful search returns a full board that keeps every filled cell |
| BacktrackingSolver.BacktrackFirstDigit | SudokuSolver/Solvers/BacktrackingSolver/BacktrackingSolver.cs:54-82 | the search fails iff every valid digit at the first empty cell leads to failure |
| BacktrackingSolver.BacktrackFull | SudokuSolver/Solvers/BacktrackingSolver/BacktrackingSolver.cs:57-60 | a full board is returned as it is |
| BacktrackingSolver.FillUndo | SudokuSolver/Solvers/BacktrackingSolver/BacktrackingSolver.cs:72-77 | setting a cell and then setting it back to 0 restores the board |
| BacktrackingSolver.FillShrinks | SudokuSolver/Solvers/BacktrackingSolver/BacktrackingSolver.cs:72-74 | filling an empty cell leaves fewer empty cells, so the recursion ends |
| BacktrackingSolver.TryDigitsFirst | SudokuSolver/Solvers/BacktrackingSolver/BacktrackingSolver.cs:67-79 | trying digits from d on fails iff every valid digit from d on leads to failure |
| SudokuSolveTest.IsSolved | SudokuTest/SudokuSolveTest.cs:40-91 | true exactly when every row, column and box holds each of 1..n once |
| SudokuSolveTest.CheckRows | SudokuTest/SudokuSolveTest.cs:44-53 | true exactly when no row has a value outside 1..n or a repeat |
| SudokuSolveTest.CheckColumns | SudokuTest/SudokuSolveTest.cs:56-67 | true exactly when no column has a value outside 1..n or a repeat |
| SudokuSolveTest.CheckBoxes | SudokuTest/SudokuSolveTest.cs:70-87 | true exactly when no box has a value outside 1..n or a repeat |
| SudokuSolveTest.CheckBoxRow | SudokuTest/SudokuSolveTest.cs:72-86 | one band of boxes: true exactly when each of its boxes holds no value outside 1..n and no repeat |
| SudokuSolveTest.NoRepeats | SudokuTest/SudokuSolveTest.cs:47-52 | one line scanned: true exactly when its values are in 1..n and pairwise different |
| SudokuSolveTest.SolvedIffPermutations | SudokuTest/SudokuSolveTest.cs:40-91 | the check passes iff every row, column and box is a permutation of 1..n |
| SudokuSolveTest.PermutationIff | SudokuTest/SudokuSolveTest.cs:47-52 | n values in 1..n without repeats are exactly a permutation of 1..n |

## Left out

- Console and file input/output, the menu and Program are not part of this model.
- `DancingLinksSolver.DancingLinksSolver.Solve` and `BacktrackingSolver.BacktrackingSolver.Solve` take the solving time as the parameter `solvingTime` and pass it into the result; the source measures it with a Stopwatch, and the clock is not modelled.
- `DancingLinksSolver.DancingLinksSolver.Solve`, `DancingLinksSolver.DancingLinksSolver.Shaped` (required by every solver method that builds or reads the matrix): the solver requires the size to be a positive perfect square, with its root as the sector size. The source takes (int)Math.Sqrt of any size and goes on with a non-square one.
- `DancingLinksBuild.InitDLX` and `DancingLinks.DancingLinks.constructor` require a matrix with at least one row. The source reads matrix[0].Length (DancingLinks.cs:122) and throws on an empty matrix. The constructor also requires columns + 1 + rows · columns < int.MaxValue, the arena's capacity, for the reason given for `DancingLinks.DancingLinks.Valid` below.
- DancingLinks.initDLX adds the rows from parallel tasks under a lock and waits for all of them (DancingLinks.cs:138-166). The model adds the rows one after the other, in row order. The order in which nodes enter a column is therefore fixed here; in the source it depends on the task schedule.
- `Board.IsNumber` accepts only '0'..'9'. char.IsNumber also accepts other Unicode digits (ArraySudokuBoard.cs:42), for which currChar - '0' is not a digit value.
- `DancingLinksSolver.DancingLinksSolver.FindRowColNode` and `CellOfNode` read a node's column number directly. The source names each header by its column number as text and reads it back with int.Parse (DancingLinks.cs:130; DancingLinksSolver.cs:233-251). The model's header id equals that number, so no parsing is modelled.
- `BacktrackingSolver.BacktrackingSolver.SolveBoard`: the board's IsValid (BacktrackingSolver.cs:70) is not part of this model. It is a parameter `Validity`, a function of the cell values, the digit and the position.
- `Board.Cell` is a value datatype. In the source Cell is a class, so a Cell read through the indexer aliases the board's cell and `.Val` writes reach the board (ArraySudokuBoard.cs:60). The model writes whole cells through `Set`.
- `SparseMatrix.SparseMatrix.GetSparseMatrixColumn` returns the row's columns as a value. The source hands out the stored SortedSet itself (SparseMatrix.cs:78), which a caller could then change. SortedSet is modelled as a strictly increasing sequence.
- `DancingLinks.DancingLinks.Valid` requires the node count to be below int.MaxValue. This is what lets Choose's int.MaxValue starting minimum exceed every Size. Int32 overflow of Size and of node ids is not modelled.
- `Solve` (`DancingLinksSolver.DancingLinksSolver.Solve` and `SearchMatrix`) requires 4n² + 1 + n³ · 4n² < int.MaxValue, the node capacity the arena is allocated with, so every square board size up to 49 x 49 (9 x 9, 16 x 16, 25 x 25 included) is covered. The nodes actually built number 4n² + 1 + 4n³, since every candidate row has four 1s (RowOnes). The arena is not sized by that count, so larger boards are left out.
- `Solve` (`DancingLinks.DancingLinks.Solve`, `Search` and `DancingLinksSolver.DancingLinksSolver.Solve`) is proved sound but not complete. Every reported cover is exact, and a success gives a solved board. That the search finds a cover whenever the matrix has one is not proved, so `SolveAndCheck` does not state that the test passes on every solvable board.
- DancingLinksResult as it stands declares a `Solution` list of nodes (DancingLinksResult.cs:14-16). DancingLinks.Solve passes it the list of solution lists (DancingLinks.cs:38), and DancingLinksSolver.Solve reads `AllSolutions[0]` from it (DancingLinksSolver.cs:51). The model follows the two callers: its result carries `allSolutions`.
- The depth argument k of DancingLinks.Search is passed along and never used in the source; the model keeps it as an unused parameter.
- The BitArray[] matrix is modelled as a two-dimensional array of booleans.
- `SudokuSolveTest.IsSolved` takes the box size as a parameter whose square is the board size; the source computes it as (int)Math.Sqrt of the board size (SudokuSolveTest.cs:70), which is the same number on the square sizes the model admits.
- `Board.ArraySudokuBoard.GetBoardSize` and the indexer's getter have no contract of their own. The source's indexer does no bounds check of its own; the model's callers stay inside the board.
- The test iterates over the boards of a file; `SolveAndCheck` models one turn of that loop, and reading the file is not modelled.
