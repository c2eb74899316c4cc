/** The value model of a 9x9 Sudoku grid, 0 meaning an empty cell. The
    Sudoku rules, the safety check, the notion of a solved grid and the counts
    used to derive puzzles are stated here once and used by the game in
    module Sudoku. */
module Board {

  const Size := 9
  const Empty := 0

  /** A grid value: g[r][c] is the cell in row r and column c. */
  type Grid = seq<seq<int>>

  ghost predicate WellFormed(g: Grid)
  {
    |g| == Size && forall r :: 0 <= r < Size ==> |g[r]| == Size
  }

  predicate InGrid(r: int, c: int) { 0 <= r < Size && 0 <= c < Size }

  /** The value of a 9x9 array as a grid. */
  function Snap(b: array2<int>): (g: Grid)
    reads b
    requires b.Length0 == Size && b.Length1 == Size
    ensures WellFormed(g)
    ensures forall r, c :: InGrid(r, c) ==> g[r][c] == b[r, c]
  {
    seq(Size, r requires 0 <= r < Size reads b =>
      seq(Size, c requires 0 <= c < Size reads b => b[r, c]))
  }

  /** Two grids with the same cells are the same grid. */
  lemma CellsDetermineGrid(g: Grid, h: Grid)
    requires WellFormed(g) && WellFormed(h)
    requires forall r, c :: InGrid(r, c) ==> g[r][c] == h[r][c]
    ensures g == h
  {
    forall r | 0 <= r < Size ensures g[r] == h[r] {
      assert forall c :: 0 <= c < Size ==> g[r][c] == h[r][c];
    }
  }

  /** The grid with cell (row, col) set to v. */
  function Update(g: Grid, row: int, col: int, v: int): (h: Grid)
    requires WellFormed(g) && InGrid(row, col)
    ensures WellFormed(h)
    ensures forall r, c :: InGrid(r, c) ==>
      h[r][c] == if r == row && c == col then v else g[r][c]
  {
    g[row := g[row][col := v]]
  }

  // ---------------------------------------------------------------------
  // The Sudoku rules

  /** The first row (or column) of the box holding row (or column) i, as
      the source computes it. */
  function BoxStart(i: int): int { i - i % 3 }

  predicate SameBox(r: int, c: int, r2: int, c2: int)
  {
    BoxStart(r) == BoxStart(r2) && BoxStart(c) == BoxStart(c2)
  }

  /** Two different cells that share a row, a column or a box. */
  predicate Peers(r: int, c: int, r2: int, c2: int)
  {
    (r != r2 || c != c2) && (r == r2 || c == c2 || SameBox(r, c, r2, c2))
  }

  /** Peers (r, c) and (r2, c2) hold the same non-empty value. */
  ghost predicate Clash(g: Grid, r: int, c: int, r2: int, c2: int)
    requires WellFormed(g)
  {
    InGrid(r, c) && InGrid(r2, c2) && Peers(r, c, r2, c2) &&
    g[r][c] != Empty && g[r][c] == g[r2][c2]
  }

  /** No non-empty value is repeated among peers. */
  ghost predicate NoConflicts(g: Grid)
    requires WellFormed(g)
  {
    forall r, c, r2, c2 :: !Clash(g, r, c, r2, c2)
  }

  /** Every cell holds a value in 1..9. */
  ghost predicate Full(g: Grid)
    requires WellFormed(g)
  {
    forall r, c :: InGrid(r, c) ==> 1 <= g[r][c] <= Size
  }

  /** A completely and legally filled grid. */
  ghost predicate Solution(g: Grid)
  {
    WellFormed(g) && Full(g) && NoConflicts(g)
  }

  /** The no-conflict rule, for one pair of peers of a solution. */
  lemma PeersDiffer(g: Grid, r: int, c: int, r2: int, c2: int)
    requires Solution(g) && InGrid(r, c) && InGrid(r2, c2) && Peers(r, c, r2, c2)
    ensures g[r][c] != g[r2][c2]
  {
    assert !Clash(g, r, c, r2, c2);
  }

  /** v is absent from row `row`, column `col` and the box whose corner is
      (BoxStart(row), BoxStart(col)): the three scans of the safety check. */
  ghost predicate Safe(g: Grid, row: int, col: int, v: int)
    requires WellFormed(g) && InGrid(row, col)
  {
    (forall c :: 0 <= c < Size ==> g[row][c] != v) &&
    (forall r :: 0 <= r < Size ==> g[r][col] != v) &&
    (forall r, c ::
       (BoxStart(row) <= r < BoxStart(row) + 3 && BoxStart(col) <= c < BoxStart(col) + 3)
       ==> g[r][c] != v)
  }

  /** The cells of the box scan are the cells of the grid in the same box as
      (row, col). */
  lemma BoxScanIsSameBox(row: int, col: int, r: int, c: int)
    requires InGrid(row, col)
    ensures (BoxStart(row) <= r < BoxStart(row) + 3 && BoxStart(col) <= c < BoxStart(col) + 3)
      <==> (InGrid(r, c) && SameBox(r, c, row, col))
  {
  }

  /** The three scans cover exactly the cell itself and its peers. */
  lemma SafeIffAbsentFromPeers(g: Grid, row: int, col: int, v: int)
    requires WellFormed(g) && InGrid(row, col)
    ensures Safe(g, row, col, v) <==>
      (g[row][col] != v &&
       forall r, c :: InGrid(r, c) && Peers(r, c, row, col) ==> g[r][c] != v)
  {
    if g[row][col] != v &&
       forall r, c :: InGrid(r, c) && Peers(r, c, row, col) ==> g[r][c] != v
    {
      forall r, c | BoxStart(row) <= r < BoxStart(row) + 3 &&
                    BoxStart(col) <= c < BoxStart(col) + 3
        ensures g[r][c] != v
      {
        BoxScanIsSameBox(row, col, r, c);
      }
    }
    if Safe(g, row, col, v) {
      forall r, c | InGrid(r, c) && Peers(r, c, row, col) ensures g[r][c] != v {
        if r != row && c != col {
          BoxScanIsSameBox(row, col, r, c);
        }
      }
    }
  }

  /** Writing a value that passes the safety check keeps the rules. */
  lemma SafeWriteKeepsNoConflicts(g: Grid, row: int, col: int, v: int)
    requires WellFormed(g) && InGrid(row, col) && NoConflicts(g)
    requires Safe(g, row, col, v)
    ensures NoConflicts(Update(g, row, col, v))
  {
    SafeIffAbsentFromPeers(g, row, col, v);
    var h := Update(g, row, col, v);
    forall r, c, r2, c2 ensures !Clash(h, r, c, r2, c2) {
      if InGrid(r, c) && InGrid(r2, c2) && Peers(r, c, r2, c2) && h[r][c] != Empty {
        if r2 == row && c2 == col {
          assert Peers(r, c, row, col);
        } else if r == row && c == col {
          assert Peers(r2, c2, row, col) by {
            assert SameBox(r, c, r2, c2) ==> SameBox(r2, c2, r, c);
          }
        } else {
          assert !Clash(g, r, c, r2, c2);
        }
      }
    }
  }

  /** p keeps only cells of g: each of its cells is empty or g's. */
  ghost predicate SubAssignment(p: Grid, g: Grid)
    requires WellFormed(p) && WellFormed(g)
  {
    forall r, c :: InGrid(r, c) ==> p[r][c] == Empty || p[r][c] == g[r][c]
  }

  lemma SubAssignmentKeepsNoConflicts(p: Grid, g: Grid)
    requires WellFormed(p) && WellFormed(g) && SubAssignment(p, g) && NoConflicts(g)
    ensures NoConflicts(p)
  {
    forall r, c, r2, c2 ensures !Clash(p, r, c, r2, c2) {
      assert !Clash(g, r, c, r2, c2);
    }
  }

  /** Every cell of p is filled and equals the same cell of g: the two scans
      of the solved check. */
  ghost predicate SolvedAgainst(p: Grid, g: Grid)
    requires WellFormed(p) && WellFormed(g)
  {
    (forall r, c :: InGrid(r, c) ==> p[r][c] != Empty) &&
    (forall r, c :: InGrid(r, c) ==> p[r][c] == g[r][c])
  }

  /** Blanking a cell keeps a grid a sub-assignment. */
  lemma BlankKeepsSubAssignment(g: Grid, p: Grid, r: int, c: int)
    requires WellFormed(g) && WellFormed(p) && InGrid(r, c) && SubAssignment(g, p)
    ensures SubAssignment(Update(g, r, c, Empty), p)
  {
  }

  /** Against a solution, the solved check holds exactly when the puzzle is
      the solution: the scan for empty cells adds nothing to the comparison. */
  lemma SolvedIffEqual(p: Grid, g: Grid)
    requires WellFormed(p) && Solution(g)
    ensures SolvedAgainst(p, g) <==> p == g
  {
    if forall r, c :: InGrid(r, c) ==> p[r][c] == g[r][c] {
      CellsDetermineGrid(p, g);
    }
  }

  // ---------------------------------------------------------------------
  // Row-major order, prefixes and completions

  /** Cell (r, c) comes before cell (row, col) in row-major order. */
  predicate Before(r: int, c: int, row: int, col: int)
  {
    r < row || (r == row && c < col)
  }

  /** (nextRow, nextCol) is the cell after (row, col) in row-major order. */
  predicate Successor(row: int, col: int, nextRow: int, nextCol: int)
  {
    nextRow == (if col == Size - 1 then row + 1 else row) && nextCol == (col + 1) % Size
  }

  lemma SuccessorBefore(row: int, col: int, nextRow: int, nextCol: int, r: int, c: int)
    requires InGrid(row, col) && Successor(row, col, nextRow, nextCol) && InGrid(r, c)
    ensures Before(r, c, nextRow, nextCol) <==> Before(r, c, row, col) || (r == row && c == col)
  {
  }

  /** g and p agree on every cell before (row, col). */
  ghost predicate Agrees(g: Grid, p: Grid, row: int, col: int)
    requires WellFormed(g) && WellFormed(p)
  {
    forall r, c :: InGrid(r, c) && Before(r, c, row, col) ==> g[r][c] == p[r][c]
  }

  /** Every cell from (row, col) onward is empty. */
  ghost predicate EmptyFrom(p: Grid, row: int, col: int)
    requires WellFormed(p)
  {
    forall r, c :: InGrid(r, c) && !Before(r, c, row, col) ==> p[r][c] == Empty
  }

  /** g is a solution that keeps every cell of p before (row, col). */
  ghost predicate Completes(g: Grid, p: Grid, row: int, col: int)
    requires WellFormed(p)
  {
    Solution(g) && Agrees(g, p, row, col)
  }

  /** Some solution keeps every cell of p before (row, col). */
  ghost predicate Completable(p: Grid, row: int, col: int)
    requires WellFormed(p)
  {
    exists g :: Completes(g, p, row, col)
  }

  /** No solution that keeps the cells of p before (row, col) puts v at
      (row, col). */
  ghost predicate NoCompletionWith(p: Grid, row: int, col: int, v: int)
    requires WellFormed(p) && InGrid(row, col)
  {
    forall g :: Completes(g, p, row, col) ==> g[row][col] != v
  }

  /** Each of the first k values of vs is ruled out at (row, col). */
  ghost predicate AllBlocked(p: Grid, row: int, col: int, vs: seq<int>, k: int)
    requires WellFormed(p) && InGrid(row, col) && 0 <= k <= |vs|
  {
    forall j :: 0 <= j < k ==> NoCompletionWith(p, row, col, vs[j])
  }

  lemma AllBlockedExtend(p: Grid, row: int, col: int, vs: seq<int>, k: int)
    requires WellFormed(p) && InGrid(row, col) && 0 <= k < |vs|
    requires AllBlocked(p, row, col, vs, k) && NoCompletionWith(p, row, col, vs[k])
    ensures AllBlocked(p, row, col, vs, k + 1)
  {
  }

  /** The candidate values 1..9, in increasing order. */
  function Digits(): (s: seq<int>)
    ensures |s| == Size && forall i :: 0 <= i < Size ==> s[i] == i + 1
  {
    seq(Size, i => i + 1)
  }

  /** A shuffle of 1..9 holds exactly the values 1..9. */
  lemma ShuffledDigits(nums: seq<int>)
    requires multiset(nums) == multiset(Digits())
    ensures |nums| == Size
    ensures forall v :: 1 <= v <= Size ==> v in nums
    ensures forall j :: 0 <= j < |nums| ==> 1 <= nums[j] <= Size
  {
    var digits := Digits();
    assert |nums| == |multiset(nums)| == |multiset(digits)| == |digits|;
    forall v | 1 <= v <= Size ensures v in nums {
      assert digits[v - 1] == v;
      assert v in multiset(digits);
    }
    forall j | 0 <= j < |nums| ensures 1 <= nums[j] <= Size {
      assert nums[j] in multiset(digits);
      assert nums[j] in digits;
    }
  }

  /** A value the safety check refuses, at a cell whose suffix is empty,
      clashes with a cell of the prefix, so no solution keeping the prefix
      has it there. */
  lemma UnsafeBlocksCompletion(p: Grid, row: int, col: int, v: int)
    requires WellFormed(p) && InGrid(row, col) && EmptyFrom(p, row, col)
    requires !Safe(p, row, col, v)
    ensures NoCompletionWith(p, row, col, v)
  {
    SafeIffAbsentFromPeers(p, row, col, v);
    if v != Empty {
      var r, c :| InGrid(r, c) && Peers(r, c, row, col) && p[r][c] == v;
      assert Before(r, c, row, col);
      forall g | Completes(g, p, row, col) ensures g[row][col] != v {
        PeersDiffer(g, r, c, row, col);
      }
    }
  }

  /** A solution that keeps the prefix before (row, col) also keeps the
      prefix, extended by its own value at (row, col), before the next cell. */
  lemma ExtensionAgrees(p: Grid, row: int, col: int, nextRow: int, nextCol: int, g: Grid)
    requires WellFormed(p) && InGrid(row, col) && Successor(row, col, nextRow, nextCol)
    requires Completes(g, p, row, col)
    ensures Completable(Update(p, row, col, g[row][col]), nextRow, nextCol)
  {
    var q := Update(p, row, col, g[row][col]);
    forall r, c | InGrid(r, c) && Before(r, c, nextRow, nextCol) ensures g[r][c] == q[r][c] {
      SuccessorBefore(row, col, nextRow, nextCol, r, c);
    }
    assert Completes(g, q, nextRow, nextCol);
  }

  /** When the extended prefix cannot be completed, no completion of the
      prefix has v at (row, col). */
  lemma FailedExtensionBlocks(p: Grid, row: int, col: int, nextRow: int, nextCol: int, v: int)
    requires WellFormed(p) && InGrid(row, col) && Successor(row, col, nextRow, nextCol)
    requires !Completable(Update(p, row, col, v), nextRow, nextCol)
    ensures NoCompletionWith(p, row, col, v)
  {
    forall g | Completes(g, p, row, col) ensures g[row][col] != v {
      ExtensionAgrees(p, row, col, nextRow, nextCol, g);
    }
  }

  /** When every value 1..9 has been ruled out at (row, col), the prefix
      cannot be completed. */
  lemma NoCandidateLeft(p: Grid, row: int, col: int, nums: seq<int>)
    requires WellFormed(p) && InGrid(row, col)
    requires forall v :: 1 <= v <= Size ==> v in nums
    requires AllBlocked(p, row, col, nums, |nums|)
    ensures !Completable(p, row, col)
  {
    forall g ensures !Completes(g, p, row, col) {
      if Solution(g) {
        var v := g[row][col];
        assert v in nums;
        var j :| 0 <= j < |nums| && nums[j] == v;
        assert NoCompletionWith(p, row, col, nums[j]);
      }
    }
  }

  /** Writing at (row, col) keeps the suffix after it empty. */
  lemma UpdateKeepsEmptyFrom(p: Grid, row: int, col: int, nextRow: int, nextCol: int, v: int)
    requires WellFormed(p) && InGrid(row, col) && Successor(row, col, nextRow, nextCol)
    requires EmptyFrom(p, row, col)
    ensures EmptyFrom(Update(p, row, col, v), nextRow, nextCol)
  {
    forall r, c | InGrid(r, c) && !Before(r, c, nextRow, nextCol)
      ensures Update(p, row, col, v)[r][c] == Empty
    {
      SuccessorBefore(row, col, nextRow, nextCol, r, c);
    }
  }

  /** Every cell from (row, col) onward holds a value in 1..9. */
  ghost predicate FilledFrom(g: Grid, row: int, col: int)
    requires WellFormed(g)
  {
    forall r, c :: InGrid(r, c) && !Before(r, c, row, col) ==> 1 <= g[r][c] <= Size
  }

  /** A successful fill step: a safe v written at (row, col) of entry, then
      every later cell filled without touching the cells before them, keeps
      the prefix of entry, fills every cell from (row, col) on and keeps the
      rules. */
  lemma FillStepSucceeds(entry: Grid, after: Grid,
                         row: int, col: int, nextRow: int, nextCol: int, v: int)
    requires WellFormed(entry) && WellFormed(after)
    requires InGrid(row, col) && Successor(row, col, nextRow, nextCol) && 1 <= v <= Size
    requires Agrees(after, Update(entry, row, col, v), nextRow, nextCol)
    requires FilledFrom(after, nextRow, nextCol)
    requires Safe(entry, row, col, v)
    requires NoConflicts(Update(entry, row, col, v)) ==> NoConflicts(after)
    ensures Agrees(after, entry, row, col) && FilledFrom(after, row, col)
    ensures NoConflicts(entry) ==> NoConflicts(after)
  {
    if NoConflicts(entry) {
      SafeWriteKeepsNoConflicts(entry, row, col, v);
    }
    forall r, c | InGrid(r, c) && Before(r, c, row, col) ensures after[r][c] == entry[r][c] {
      SuccessorBefore(row, col, nextRow, nextCol, r, c);
    }
    forall r, c | InGrid(r, c) && !Before(r, c, row, col) ensures 1 <= after[r][c] <= Size {
      SuccessorBefore(row, col, nextRow, nextCol, r, c);
    }
  }

  /** A failed fill step: v written at (row, col), the later cells each kept
      or cleared by the failed fill, then (row, col) cleared again. The result
      keeps the prefix of the grid it started from, and only its cells. */
  lemma FillStepFails(current: Grid, after: Grid,
                      row: int, col: int, nextRow: int, nextCol: int, v: int)
    requires WellFormed(current) && WellFormed(after)
    requires InGrid(row, col) && Successor(row, col, nextRow, nextCol)
    requires Agrees(after, Update(current, row, col, v), nextRow, nextCol)
    requires SubAssignment(after, Update(current, row, col, v))
    ensures Agrees(Update(after, row, col, Empty), current, row, col)
    ensures SubAssignment(Update(after, row, col, Empty), current)
  {
    forall r, c | InGrid(r, c) && Before(r, c, row, col)
      ensures Update(after, row, col, Empty)[r][c] == current[r][c]
    {
      SuccessorBefore(row, col, nextRow, nextCol, r, c);
    }
  }

  lemma AgreesTransitive(g: Grid, h: Grid, p: Grid, row: int, col: int)
    requires WellFormed(g) && WellFormed(h) && WellFormed(p)
    requires Agrees(g, h, row, col) && Agrees(h, p, row, col)
    ensures Agrees(g, p, row, col)
  {
  }

  lemma SubAssignmentTransitive(g: Grid, h: Grid, p: Grid)
    requires WellFormed(g) && WellFormed(h) && WellFormed(p)
    requires SubAssignment(g, h) && SubAssignment(h, p)
    ensures SubAssignment(g, p)
  {
  }

  /** Writing v at an empty cell and clearing it again gives back the grid. */
  lemma WriteThenClear(g: Grid, row: int, col: int, v: int)
    requires WellFormed(g) && InGrid(row, col) && g[row][col] == Empty
    ensures Update(Update(g, row, col, v), row, col, Empty) == g
  {
    CellsDetermineGrid(Update(Update(g, row, col, v), row, col, Empty), g);
  }

  /** The grid whose every cell is empty. */
  function Blank(): (g: Grid)
    ensures WellFormed(g) && EmptyFrom(g, 0, 0)
  {
    seq(Size, r => seq(Size, c => Empty))
  }

  // ---------------------------------------------------------------------
  // Counting empty cells

  /** The number of empty entries of one row. */
  function CountEmpty(s: seq<int>): nat
  {
    if s == [] then 0 else (if s[0] == Empty then 1 else 0) + CountEmpty(s[1..])
  }

  /** The number of empty cells of a grid. */
  function EmptyCount(g: Grid): nat
  {
    if g == [] then 0 else CountEmpty(g[0]) + EmptyCount(g[1..])
  }

  /** Blanking one non-empty entry adds exactly one empty entry. */
  lemma {:induction false} CountEmptyBlank(s: seq<int>, i: nat)
    requires i < |s| && s[i] != Empty
    ensures CountEmpty(s[i := Empty]) == CountEmpty(s) + 1
  {
    if i > 0 {
      assert s[i := Empty][1..] == s[1..][i - 1 := Empty];
      CountEmptyBlank(s[1..], i - 1);
    }
  }

  /** Replacing row r changes the grid's count by the change in that row's. */
  lemma {:induction false} EmptyCountReplaceRow(g: Grid, r: nat, row: seq<int>)
    requires r < |g|
    ensures EmptyCount(g[r := row]) == EmptyCount(g) - CountEmpty(g[r]) + CountEmpty(row)
  {
    if r > 0 {
      assert g[r := row][1..] == g[1..][r - 1 := row];
      EmptyCountReplaceRow(g[1..], r - 1, row);
    }
  }

  /** Blanking one non-empty cell adds exactly one empty cell. */
  lemma EmptyCountBlank(g: Grid, r: int, c: int)
    requires WellFormed(g) && InGrid(r, c) && g[r][c] != Empty
    ensures EmptyCount(Update(g, r, c, Empty)) == EmptyCount(g) + 1
  {
    CountEmptyBlank(g[r], c);
    EmptyCountReplaceRow(g, r, g[r][c := Empty]);
  }

  lemma {:induction false} CountEmptyBound(s: seq<int>)
    ensures CountEmpty(s) <= |s|
    ensures CountEmpty(s) < |s| ==> exists i :: 0 <= i < |s| && s[i] != Empty
  {
    if s != [] {
      CountEmptyBound(s[1..]);
      if CountEmpty(s) < |s| && s[0] == Empty {
        var i :| 0 <= i < |s[1..]| && s[1..][i] != Empty;
        assert s[i + 1] != Empty;
      }
    }
  }

  /** As long as fewer than all cells are empty, some cell is not. */
  lemma {:induction false} SomeNonEmptyRows(g: Grid)
    requires forall r :: 0 <= r < |g| ==> |g[r]| == Size
    requires EmptyCount(g) < Size * |g|
    ensures exists r, c :: 0 <= r < |g| && 0 <= c < Size && g[r][c] != Empty
  {
    CountEmptyBound(g[0]);
    if CountEmpty(g[0]) < Size {
      var c :| 0 <= c < |g[0]| && g[0][c] != Empty;
      assert g[0][c] != Empty;
    } else {
      SomeNonEmptyRows(g[1..]);
      var r, c :| 0 <= r < |g[1..]| && 0 <= c < Size && g[1..][r][c] != Empty;
      assert g[r + 1][c] != Empty;
    }
  }

  lemma SomeNonEmpty(g: Grid)
    requires WellFormed(g) && EmptyCount(g) < Size * Size
    ensures exists r, c :: InGrid(r, c) && g[r][c] != Empty
  {
    SomeNonEmptyRows(g);
  }

  lemma {:induction false} CountEmptyNone(s: seq<int>)
    requires forall i :: 0 <= i < |s| ==> s[i] != Empty
    ensures CountEmpty(s) == 0
  {
    if s != [] {
      CountEmptyNone(s[1..]);
    }
  }

  lemma {:induction false} EmptyCountNone(g: Grid)
    requires forall r, c :: 0 <= r < |g| && 0 <= c < |g[r]| ==> g[r][c] != Empty
    ensures EmptyCount(g) == 0
  {
    if g != [] {
      CountEmptyNone(g[0]);
      EmptyCountNone(g[1..]);
    }
  }

  /** A full grid has no empty cell. */
  lemma FullHasNoEmpty(g: Grid)
    requires WellFormed(g) && Full(g)
    ensures EmptyCount(g) == 0
  {
    EmptyCountNone(g);
  }

  /** The number of places where two rows, or two grids, differ. */
  function CountDiff(s: seq<int>, t: seq<int>): nat
    requires |s| == |t|
  {
    if s == [] then 0 else (if s[0] != t[0] then 1 else 0) + CountDiff(s[1..], t[1..])
  }

  function DiffCount(g: Grid, h: Grid): nat
    requires |g| == |h| && forall r :: 0 <= r < |g| ==> |g[r]| == |h[r]|
  {
    if g == [] then 0 else CountDiff(g[0], h[0]) + DiffCount(g[1..], h[1..])
  }

  /** Each entry of t is s's, or blanks a non-empty entry of s. */
  ghost predicate OnlyBlanks(s: seq<int>, t: seq<int>)
    requires |s| == |t|
  {
    forall i :: 0 <= i < |s| ==> t[i] == s[i] || (s[i] != Empty && t[i] == Empty)
  }

  lemma {:induction false} CountBlanked(s: seq<int>, t: seq<int>)
    requires |s| == |t| && OnlyBlanks(s, t)
    ensures CountDiff(s, t) + CountEmpty(s) == CountEmpty(t)
  {
    if s != [] {
      CountBlanked(s[1..], t[1..]);
    }
  }

  lemma {:induction false} BlankedRowsCount(g: Grid, h: Grid)
    requires |g| == |h| && forall r :: 0 <= r < |g| ==> |g[r]| == |h[r]|
    requires forall r :: 0 <= r < |g| ==> OnlyBlanks(g[r], h[r])
    ensures DiffCount(g, h) + EmptyCount(g) == EmptyCount(h)
  {
    if g != [] {
      CountBlanked(g[0], h[0]);
      BlankedRowsCount(g[1..], h[1..]);
    }
  }

  /** When h keeps only cells of g, the number of cells that differ is the
      growth in the number of empty cells. */
  lemma BlankedCount(g: Grid, h: Grid)
    requires WellFormed(g) && WellFormed(h) && SubAssignment(h, g)
    ensures DiffCount(g, h) + EmptyCount(g) == EmptyCount(h)
  {
    forall r | 0 <= r < Size ensures OnlyBlanks(g[r], h[r]) {
      assert forall c :: 0 <= c < Size ==> h[r][c] == Empty || h[r][c] == g[r][c];
    }
    BlankedRowsCount(g, h);
  }

  // ---------------------------------------------------------------------
  // Every unit of a solution holds each of 1..9 exactly once

  /** The nine values of column c, and of the box with corner (br, bc); the
      values of row r are g[r]. */
  function ColumnValues(g: Grid, c: int): (s: seq<int>)
    requires WellFormed(g) && 0 <= c < Size
    ensures |s| == Size && forall r :: 0 <= r < Size ==> s[r] == g[r][c]
  {
    seq(Size, r requires 0 <= r < Size => g[r][c])
  }

  function BoxValues(g: Grid, br: int, bc: int): (s: seq<int>)
    requires WellFormed(g) && br in {0, 3, 6} && bc in {0, 3, 6}
    ensures |s| == Size && forall k :: 0 <= k < Size ==> s[k] == g[br + k / 3][bc + k % 3]
  {
    seq(Size, k requires 0 <= k < Size => g[br + k / 3][bc + k % 3])
  }

  ghost predicate Distinct(s: seq<int>)
  {
    forall i, j :: 0 <= i < |s| && 0 <= j < |s| && i != j ==> s[i] != s[j]
  }

  /** Each of 1..9 occurs in s, and only once. */
  ghost predicate PermutationOfDigits(s: seq<int>)
  {
    |s| == Size && Distinct(s) && forall v :: 1 <= v <= Size ==> v in s
  }

  lemma {:induction false} DistinctCard(s: seq<int>)
    requires Distinct(s)
    ensures |set x | x in s| == |s|
  {
    if s != [] {
      var t := s[1..];
      assert Distinct(t) by {
        forall i, j | 0 <= i < |t| && 0 <= j < |t| && i != j ensures t[i] != t[j] {
          assert t[i] == s[i + 1] && t[j] == s[j + 1];
        }
      }
      DistinctCard(t);
      assert s == [s[0]] + t;
      assert (set x | x in s) == (set x | x in t) + {s[0]};
      assert s[0] !in t by {
        forall i | 0 <= i < |t| ensures t[i] != s[0] {
          assert t[i] == s[i + 1];
        }
      }
    }
  }

  /** A subset as large as its superset is the superset. */
  lemma SubsetOfSameSize(a: set<int>, b: set<int>)
    requires a <= b && |a| == |b|
    ensures a == b
  {
    assert a + b == b && a * b == a;
    assert |b - a| == 0;
  }

  /** The set of the values 1..n, which has n elements. */
  function Range(n: nat): (s: set<int>)
    ensures forall v :: v in s <==> 1 <= v <= n
    ensures |s| == n
  {
    if n == 0 then {} else Range(n - 1) + {n}
  }

  /** Nine distinct values taken from 1..9 are all of 1..9. */
  lemma DistinctDigitsCoverAll(s: seq<int>)
    requires |s| == Size && Distinct(s)
    requires forall i :: 0 <= i < |s| ==> 1 <= s[i] <= Size
    ensures PermutationOfDigits(s)
  {
    var vals := set x | x in s;
    var digits := Range(Size);
    DistinctCard(s);
    assert vals <= digits;
    SubsetOfSameSize(vals, digits);
    forall v | 1 <= v <= Size ensures v in s {
      assert v in digits;
    }
  }

  lemma RowIsPermutation(g: Grid, r: int)
    requires Solution(g) && 0 <= r < Size
    ensures PermutationOfDigits(g[r])
  {
    var s := g[r];
    forall i, j | 0 <= i < Size && 0 <= j < Size && i != j ensures s[i] != s[j] {
      PeersDiffer(g, r, i, r, j);
    }
    DistinctDigitsCoverAll(s);
  }

  lemma ColumnIsPermutation(g: Grid, c: int)
    requires Solution(g) && 0 <= c < Size
    ensures PermutationOfDigits(ColumnValues(g, c))
  {
    var s := ColumnValues(g, c);
    forall i, j | 0 <= i < Size && 0 <= j < Size && i != j ensures s[i] != s[j] {
      PeersDiffer(g, i, c, j, c);
    }
    DistinctDigitsCoverAll(s);
  }

  /** An offset 0..2 from a box corner 0, 3 or 6 stays in that box. */
  lemma BoxStartOfOffset(base: int, q: int)
    requires base in {0, 3, 6} && 0 <= q < 3
    ensures 0 <= base + q < Size && BoxStart(base + q) == base
  {
    assert base == 0 || base == 3 || base == 6;
    assert q == 0 || q == 1 || q == 2;
  }

  /** Position k of a box lies in that box, and different positions are
      different cells. */
  lemma BoxPosition(br: int, bc: int, k: int, k2: int)
    requires br in {0, 3, 6} && bc in {0, 3, 6} && 0 <= k < 9 && 0 <= k2 < 9 && k != k2
    ensures InGrid(br + k / 3, bc + k % 3) && InGrid(br + k2 / 3, bc + k2 % 3)
    ensures SameBox(br + k / 3, bc + k % 3, br + k2 / 3, bc + k2 % 3)
    ensures k / 3 != k2 / 3 || k % 3 != k2 % 3
  {
    assert k == 3 * (k / 3) + k % 3 && k2 == 3 * (k2 / 3) + k2 % 3;
    BoxStartOfOffset(br, k / 3);
    BoxStartOfOffset(bc, k % 3);
    BoxStartOfOffset(br, k2 / 3);
    BoxStartOfOffset(bc, k2 % 3);
  }

  /** In a solution, two different positions of a box hold different values. */
  lemma BoxCellsDiffer(g: Grid, br: int, bc: int, k: int, k2: int)
    requires Solution(g) && br in {0, 3, 6} && bc in {0, 3, 6}
    requires 0 <= k < 9 && 0 <= k2 < 9 && k != k2
    ensures g[br + k / 3][bc + k % 3] != g[br + k2 / 3][bc + k2 % 3]
  {
    var r, c, r2, c2 := br + k / 3, bc + k % 3, br + k2 / 3, bc + k2 % 3;
    BoxPosition(br, bc, k, k2);
    assert Peers(r, c, r2, c2);
    PeersDiffer(g, r, c, r2, c2);
  }

  lemma BoxIsDistinct(g: Grid, br: int, bc: int)
    requires Solution(g) && br in {0, 3, 6} && bc in {0, 3, 6}
    ensures Distinct(BoxValues(g, br, bc))
  {
    var s := BoxValues(g, br, bc);
    forall i, j | 0 <= i < Size && 0 <= j < Size && i != j ensures s[i] != s[j] {
      BoxCellsDiffer(g, br, bc, i, j);
    }
  }

  lemma BoxIsPermutation(g: Grid, br: int, bc: int)
    requires Solution(g) && br in {0, 3, 6} && bc in {0, 3, 6}
    ensures PermutationOfDigits(BoxValues(g, br, bc))
  {
    var s := BoxValues(g, br, bc);
    BoxIsDistinct(g, br, bc);
    forall k | 0 <= k < Size ensures 1 <= s[k] <= Size {
      BoxStartOfOffset(br, k / 3);
      BoxStartOfOffset(bc, k % 3);
    }
    DistinctDigitsCoverAll(s);
  }

  /** In a solution every row, every column and every box is a permutation
      of 1..9. */
  lemma SolutionUnitsArePermutations(g: Grid)
    requires Solution(g)
    ensures forall r :: 0 <= r < Size ==> PermutationOfDigits(g[r])
    ensures forall c :: 0 <= c < Size ==> PermutationOfDigits(ColumnValues(g, c))
    ensures forall br, bc :: br in {0, 3, 6} && bc in {0, 3, 6} ==>
      PermutationOfDigits(BoxValues(g, br, bc))
  {
    forall r | 0 <= r < Size ensures PermutationOfDigits(g[r]) {
      RowIsPermutation(g, r);
    }
    forall c | 0 <= c < Size ensures PermutationOfDigits(ColumnValues(g, c)) {
      ColumnIsPermutation(g, c);
    }
    forall br, bc | br in {0, 3, 6} && bc in {0, 3, 6}
      ensures PermutationOfDigits(BoxValues(g, br, bc))
    {
      BoxIsPermutation(g, br, bc);
    }
  }

  // ---------------------------------------------------------------------
  // A solution exists

  /** The value of cell (r, c) in a fixed solved grid. */
  function PatternValue(r: int, c: int): int
  {
    (3 * (r % 3) + r / 3 + c) % 9 + 1
  }

  function Pattern(): (g: Grid)
    ensures WellFormed(g)
    ensures forall r, c :: InGrid(r, c) ==> g[r][c] == PatternValue(r, c)
  {
    seq(Size, r => seq(Size, c => PatternValue(r, c)))
  }

  /** Adding two different offsets 0..8 to the same base gives different
      remainders modulo 9. */
  lemma OffsetsDifferMod9(base: int, x: int, y: int)
    requires 0 <= x < 9 && 0 <= y < 9 && x != y
    ensures (base + x) % 9 != (base + y) % 9
  {
    var q1, q2 := (base + x) / 9, (base + y) / 9;
    assert base + x == 9 * q1 + (base + x) % 9;
    assert base + y == 9 * q2 + (base + y) % 9;
  }

  /** The row offset 3 * (r % 3) + r / 3 takes each of 0..8 once on rows 0..8. */
  lemma RowOffsetsDiffer(r: int, r2: int)
    requires 0 <= r < 9 && 0 <= r2 < 9 && r != r2
    ensures 0 <= 3 * (r % 3) + r / 3 < 9 && 0 <= 3 * (r2 % 3) + r2 / 3 < 9
    ensures 3 * (r % 3) + r / 3 != 3 * (r2 % 3) + r2 / 3
  {
    assert r == 0 || r == 1 || r == 2 || r == 3 || r == 4 || r == 5 || r == 6 || r == 7 || r == 8;
    assert r2 == 0 || r2 == 1 || r2 == 2 || r2 == 3 || r2 == 4 || r2 == 5 || r2 == 6 || r2 == 7 || r2 == 8;
  }

  lemma PatternRowDiffers(r: int, c: int, c2: int)
    requires InGrid(r, c) && InGrid(r, c2) && c != c2
    ensures PatternValue(r, c) != PatternValue(r, c2)
  {
    OffsetsDifferMod9(3 * (r % 3) + r / 3, c, c2);
  }

  lemma PatternColumnDiffers(r: int, r2: int, c: int)
    requires InGrid(r, c) && InGrid(r2, c) && r != r2
    ensures PatternValue(r, c) != PatternValue(r2, c)
  {
    var f, f2 := 3 * (r % 3) + r / 3, 3 * (r2 % 3) + r2 / 3;
    RowOffsetsDiffer(r, r2);
    OffsetsDifferMod9(c, f, f2);
    assert PatternValue(r, c) == (c + f) % 9 + 1;
    assert PatternValue(r2, c) == (c + f2) % 9 + 1;
  }

  lemma PatternBoxDiffers(r: int, c: int, r2: int, c2: int)
    requires InGrid(r, c) && InGrid(r2, c2) && (r != r2 || c != c2)
    requires r / 3 == r2 / 3 && c / 3 == c2 / 3
    ensures PatternValue(r, c) != PatternValue(r2, c2)
  {
    var q, p := r / 3, c / 3;
    var x, y := 3 * (r % 3) + c % 3, 3 * (r2 % 3) + c2 % 3;
    assert r == 3 * q + r % 3 && r2 == 3 * q + r2 % 3;
    assert c == 3 * p + c % 3 && c2 == 3 * p + c2 % 3;
    OffsetsDifferMod9(q + 3 * p, x, y);
    assert PatternValue(r, c) == (q + 3 * p + x) % 9 + 1;
    assert PatternValue(r2, c2) == (q + 3 * p + y) % 9 + 1;
  }

  lemma PatternPeersDiffer(r: int, c: int, r2: int, c2: int)
    requires InGrid(r, c) && InGrid(r2, c2) && Peers(r, c, r2, c2)
    ensures PatternValue(r, c) != PatternValue(r2, c2)
  {
    if r == r2 {
      PatternRowDiffers(r, c, c2);
    } else if c == c2 {
      PatternColumnDiffers(r, r2, c);
    } else {
      assert r / 3 == r2 / 3 && c / 3 == c2 / 3;
      PatternBoxDiffers(r, c, r2, c2);
    }
  }

  lemma PatternIsSolution()
    ensures Solution(Pattern())
  {
    var g := Pattern();
    forall r, c, r2, c2 ensures !Clash(g, r, c, r2, c2) {
      if InGrid(r, c) && InGrid(r2, c2) && Peers(r, c, r2, c2) {
        PatternPeersDiffer(r, c, r2, c2);
      }
    }
  }

  /** The blank grid can be completed. */
  lemma BlankIsCompletable()
    ensures Completable(Blank(), 0, 0)
  {
    PatternIsSolution();
    assert Completes(Pattern(), Blank(), 0, 0);
  }
}
