/** The terminal Sudoku game's board engine: the class that owns the solved
    board and the random source, the backtracking generator, the safety and
    solved checks, puzzle derivation and the insert move. */
module Sudoku {
  import opened Board
  import opened Rand

  predicate Is9x9(b: array2<int>) { b.Length0 == Size && b.Length1 == Size }

  /** The cell removeCells probes with the two draws t and t + 1: a row and
      a column. */
  ghost function ProbeAt(source: nat -> int, t: nat): (int, int)
  {
    (source(t) % Size, source(t + 1) % Size)
  }

  /** Some probe from draw k on reaches (r, c). */
  ghost predicate Visits(source: nat -> int, k: nat, r: int, c: int)
  {
    exists d: nat :: ProbeAt(source, k + 2 * d) == (r, c)
  }

  /** From any draw on, the probes of removeCells sooner or later reach every
      cell. Without this the probing loop need not end. */
  ghost predicate ProbesEveryCell(source: nat -> int)
  {
    forall k: nat, r, c :: InGrid(r, c) ==> Visits(source, k, r, c)
  }

  /** b[row][col] = v, seen on the grid value of b. */
  method Store(b: array2<int>, row: int, col: int, v: int)
    requires Is9x9(b) && InGrid(row, col)
    modifies b
    ensures Snap(b) == Update(old(Snap(b)), row, col, v)
  {
    b[row, col] := v;
    CellsDetermineGrid(Snap(b), Update(old(Snap(b)), row, col, v));
  }

  /** A non-empty cell of g and the number of probes from draw k after which
      removeCells reaches it; such a number exists because the probes reach
      every cell. */
  lemma ChooseTarget(source: nat -> int, g: Grid, k: nat) returns (r0: int, c0: int, d: nat, t: nat)
    requires ProbesEveryCell(source) && WellFormed(g) && EmptyCount(g) < Size * Size
    ensures InGrid(r0, c0) && g[r0][c0] != Empty
    ensures t == k + 2 * d && ProbeAt(source, t) == (r0, c0)
  {
    SomeNonEmpty(g);
    r0, c0 :| InGrid(r0, c0) && g[r0][c0] != Empty;
    assert Visits(source, k, r0, c0);
    d :| ProbeAt(source, k + 2 * d) == (r0, c0);
    t := k + 2 * d;
  }

  /** What the insert command does with a parsed (row, column, value) triple. */
  datatype InsertOutcome =
    | InvalidInput          // a coordinate or the value is out of range
    | AlreadyFilled         // the target cell holds a value
    | BreaksRules           // the safety check refuses the value
    | Inserted(solved: bool) // written; solved tells whether the puzzle now matches the board

  /** The number of cells a new puzzle blanks. */
  const RemoveCount := 45

  class Game {
    /** The solved board; replaced by each generation. */
    var board: array2<int>
    const rand: Random

    ghost predicate Valid()
      reads this
    {
      Is9x9(board) && ProbesEveryCell(rand.source)
    }

    /** The board holds a solution, as it does after GenerateSolvedBoard. */
    ghost predicate Generated()
      reads this, board
    {
      Valid() && Solution(Snap(board))
    }

    /** A new game object: an all-empty board and the given random source. */
    constructor (rand: Random)
      requires ProbesEveryCell(rand.source)
      ensures Valid() && fresh(board) && this.rand == rand
      ensures Snap(board) == Blank()
    {
      this.rand := rand;
      board := new int[Size, Size]((r, c) => Empty);
      new;
      CellsDetermineGrid(Snap(board), Blank());
    }

    /** isSafe: num is absent from the row, the column and the box of
        (row, col). Changes nothing. */
    method IsSafe(b: array2<int>, row: int, col: int, num: int) returns (ok: bool)
      requires Is9x9(b) && InGrid(row, col)
      ensures ok == Safe(Snap(b), row, col, num)
    {
      ghost var g := Snap(b);
      for c := 0 to Size
        invariant forall c' :: 0 <= c' < c ==> g[row][c'] != num
      {
        if b[row, c] == num {
          assert g[row][c] == num;
          return false;
        }
      }
      for r := 0 to Size
        invariant forall r' :: 0 <= r' < r ==> g[r'][col] != num
      {
        if b[r, col] == num {
          assert g[r][col] == num;
          return false;
        }
      }
      var boxRow := row - row % 3;
      var boxCol := col - col % 3;
      assert boxRow == BoxStart(row) && boxCol == BoxStart(col);
      for r := boxRow to boxRow + 3
        invariant forall r', c' :: boxRow <= r' < r && boxCol <= c' < boxCol + 3 ==> g[r'][c'] != num
      {
        for c := boxCol to boxCol + 3
          invariant forall r', c' :: boxRow <= r' < r && boxCol <= c' < boxCol + 3 ==> g[r'][c'] != num
          invariant forall c' :: boxCol <= c' < c ==> g[r][c'] != num
        {
          if b[r, c] == num {
            assert g[r][c] == num;
            return false;
          }
        }
      }
      return true;
    }

    /** fillBoard: fill every cell from (row, col) onward, in row-major
        order, by backtracking over a shuffled order of 1..9. Cells before
        (row, col) are never changed. On success every cell from (row, col)
        on holds a value in 1..9 and a conflict-free grid stays conflict-free;
        on failure every cell is as it was or empty, and when the cells from
        (row, col) onward were empty the grid is exactly as it was and no
        solution keeps its prefix, so the search misses no completion. */
    method FillBoard(b: array2<int>, row: int, col: int) returns (ok: bool)
      requires Is9x9(b) && 0 <= row <= Size && 0 <= col < Size
      modifies b, rand
      decreases 81 - (9 * row + col), 1
      ensures Agrees(Snap(b), old(Snap(b)), row, col)
      ensures ok ==> FilledFrom(Snap(b), row, col)
      ensures ok && NoConflicts(old(Snap(b))) ==> NoConflicts(Snap(b))
      ensures !ok ==> SubAssignment(Snap(b), old(Snap(b)))
      ensures !ok && EmptyFrom(old(Snap(b)), row, col) ==>
        Snap(b) == old(Snap(b)) && !Completable(old(Snap(b)), row, col)
    {
      if row == Size { return true; }
      var nextRow := if col == Size - 1 then row + 1 else row;
      var nextCol := (col + 1) % Size;
      assert Successor(row, col, nextRow, nextCol);

      var nums := rand.Shuffle(Digits());
      ShuffledDigits(nums);

      ghost var entry := Snap(b);
      ghost var suffixEmpty := EmptyFrom(entry, row, col);
      var k := 0;
      while k < |nums|
        invariant 0 <= k <= |nums| == Size
        invariant Agrees(Snap(b), entry, row, col) && SubAssignment(Snap(b), entry)
        invariant suffixEmpty ==> Snap(b) == entry && AllBlocked(entry, row, col, nums, k)
      {
        var num := nums[k];
        var safe := IsSafe(b, row, col, num);
        ghost var current := Snap(b);
        if safe {
          var done := PlaceAndFill(b, row, col, nextRow, nextCol, num);
          AgreesTransitive(Snap(b), current, entry, row, col);
          if done {
            if NoConflicts(entry) {
              SubAssignmentKeepsNoConflicts(current, entry);
            }
            return true;
          }
          SubAssignmentTransitive(Snap(b), current, entry);
        } else if suffixEmpty {
          UnsafeBlocksCompletion(entry, row, col, num);
        }
        if suffixEmpty {
          AllBlockedExtend(entry, row, col, nums, k);
        }
        k := k + 1;
      }
      if suffixEmpty {
        NoCandidateLeft(entry, row, col, nums);
      }
      return false;
    }

    /** One candidate of fillBoard's loop: write num, fill the rest, and on
        failure clear the cell again. On success the prefix is kept, every
        cell from (row, col) on is filled and the rules are kept; on failure
        every cell is as it was or empty, and when the suffix was empty the
        grid is as it was and no solution keeps the prefix with num at
        (row, col). */
    method PlaceAndFill(b: array2<int>, row: int, col: int, nextRow: int, nextCol: int, num: int)
        returns (done: bool)
      requires Is9x9(b) && InGrid(row, col) && Successor(row, col, nextRow, nextCol)
      requires 1 <= num <= Size && Safe(Snap(b), row, col, num)
      modifies b, rand
      decreases 81 - (9 * row + col), 0
      ensures Agrees(Snap(b), old(Snap(b)), row, col)
      ensures done ==> FilledFrom(Snap(b), row, col)
      ensures done && NoConflicts(old(Snap(b))) ==> NoConflicts(Snap(b))
      ensures !done ==> SubAssignment(Snap(b), old(Snap(b)))
      ensures !done && EmptyFrom(old(Snap(b)), row, col) ==>
        Snap(b) == old(Snap(b)) && NoCompletionWith(old(Snap(b)), row, col, num)
    {
      ghost var entry := Snap(b);
      assert 9 * nextRow + nextCol == 9 * row + col + 1;
      Store(b, row, col, num);
      if EmptyFrom(entry, row, col) {
        UpdateKeepsEmptyFrom(entry, row, col, nextRow, nextCol, num);
      }
      done := FillBoard(b, nextRow, nextCol);
      if done {
        FillStepSucceeds(entry, Snap(b), row, col, nextRow, nextCol, num);
        return;
      }
      ghost var after := Snap(b);
      Store(b, row, col, Empty);
      FillStepFails(entry, after, row, col, nextRow, nextCol, num);
      if EmptyFrom(entry, row, col) {
        WriteThenClear(entry, row, col, num);
        FailedExtensionBlocks(entry, row, col, nextRow, nextCol, num);
      }
    }

    /** generateSolvedBoard: a fresh all-empty board filled by FillBoard from
        (0, 0). The fill always succeeds, so the board is a solution. */
    method GenerateSolvedBoard()
      requires Valid()
      modifies this, rand
      ensures Generated() && fresh(board)
    {
      board := new int[Size, Size]((r, c) => Empty);
      CellsDetermineGrid(Snap(board), Blank());
      var solved := FillBoard(board, 0, 0);
      BlankIsCompletable();
      assert solved;
      assert Full(Snap(board));
    }

    /** copyBoard: a fresh 9x9 array holding the cells of src. */
    method CopyBoard(src: array2<int>) returns (dst: array2<int>)
      requires Is9x9(src)
      ensures fresh(dst) && Is9x9(dst) && Snap(dst) == Snap(src)
    {
      dst := new int[Size, Size]((r, c) => Empty);
      for r := 0 to Size
        invariant forall r', c' :: 0 <= r' < r && 0 <= c' < Size ==> dst[r', c'] == src[r', c']
      {
        // copy row r of src
        for c := 0 to Size
          invariant forall r', c' :: 0 <= r' < r && 0 <= c' < Size ==> dst[r', c'] == src[r', c']
          invariant forall c' :: 0 <= c' < c ==> dst[r, c'] == src[r, c']
        {
          dst[r, c] := src[r, c];
        }
      }
      CellsDetermineGrid(Snap(dst), Snap(src));
    }

    /** One probe of removeCells: draw a row and a column and blank that
        cell if it holds a value. */
    method ProbeOnce(b: array2<int>) returns (r: int, c: int, blanked: bool)
      requires Is9x9(b)
      modifies b, rand
      ensures rand.drawn == old(rand.drawn) + 2
      ensures InGrid(r, c) && (r, c) == ProbeAt(rand.source, old(rand.drawn))
      ensures blanked == (old(b[r, c]) != Empty)
      ensures Snap(b) == if blanked then Update(old(Snap(b)), r, c, Empty) else old(Snap(b))
    {
      r := rand.NextInt(Size);
      c := rand.NextInt(Size);
      blanked := b[r, c] != Empty;
      if blanked {
        Store(b, r, c, Empty);
      }
    }

    /** removeCells: blank cells at randomly probed positions until count
        non-empty cells have been blanked. Every cell is kept or blanked, and
        exactly count cells change. The loop can end only when count does not
        exceed the number of non-empty cells. */
    method RemoveCells(b: array2<int>, count: int)
      requires Valid() && Is9x9(b)
      requires count <= Size * Size - EmptyCount(Snap(b))
      modifies b, rand
      ensures SubAssignment(Snap(b), old(Snap(b)))
      ensures EmptyCount(Snap(b)) == old(EmptyCount(Snap(b))) + (if count > 0 then count else 0)
      ensures DiffCount(old(Snap(b)), Snap(b)) == (if count > 0 then count else 0)
    {
      ghost var entry := Snap(b);
      var removed := 0;
      // the cell (r0, c0) is non-empty and the probe at draw t, d probes
      // from now, reaches it
      ghost var r0, c0, d, t := 0, 0, 0, 0;
      if removed < count {
        r0, c0, d, t := ChooseTarget(rand.source, Snap(b), rand.drawn);
      }
      while removed < count
        invariant 0 <= removed <= (if count > 0 then count else 0)
        invariant SubAssignment(Snap(b), entry)
        invariant EmptyCount(Snap(b)) == EmptyCount(entry) + removed
        invariant removed < count ==>
          InGrid(r0, c0) && b[r0, c0] != Empty &&
          t == rand.drawn + 2 * d && ProbeAt(rand.source, t) == (r0, c0)
        decreases count - removed, d
      {
        ghost var at := rand.drawn;
        ghost var before := Snap(b);
        var r, c, blanked := ProbeOnce(b);
        if blanked {
          EmptyCountBlank(before, r, c);
          BlankKeepsSubAssignment(before, entry, r, c);
          removed := removed + 1;
          if removed < count {
            r0, c0, d, t := ChooseTarget(rand.source, Snap(b), rand.drawn);
          }
        } else {
          assert t != at by {
            assert (r, c) != (r0, c0);
          }
          d := d - 1;
        }
      }
      BlankedCount(entry, Snap(b));
    }

    /** The puzzle of a new game (and of the game start): a copy of the
        solved board with RemoveCount cells blanked. Every filled cell agrees
        with the board and exactly RemoveCount cells are empty. */
    method DerivePuzzle() returns (puzzle: array2<int>)
      requires Generated()
      modifies rand
      ensures fresh(puzzle) && Is9x9(puzzle)
      ensures SubAssignment(Snap(puzzle), Snap(board))
      ensures EmptyCount(Snap(puzzle)) == RemoveCount
    {
      puzzle := CopyBoard(board);
      FullHasNoEmpty(Snap(board));
      RemoveCells(puzzle, RemoveCount);
    }

    /** Option 3 (and the start of the session): a new solved board and a
        puzzle derived from it. */
    method NewGame() returns (puzzle: array2<int>)
      requires Valid()
      modifies this, rand
      ensures Generated() && fresh(board)
      ensures fresh(puzzle) && Is9x9(puzzle)
      ensures SubAssignment(Snap(puzzle), Snap(board))
      ensures EmptyCount(Snap(puzzle)) == RemoveCount
    {
      GenerateSolvedBoard();
      puzzle := DerivePuzzle();
    }

    /** resetPuzzle as written: the new puzzle is assigned to the parameter
        only, so the caller's puzzle keeps every cell, and a solved puzzle
        stays without a single empty cell. */
    method ResetPuzzle(puzzle: array2<int>)
      requires Generated() && Is9x9(puzzle)
      modifies rand
      ensures Snap(puzzle) == old(Snap(puzzle))
      ensures board == old(board) && Snap(board) == old(Snap(board))
      ensures SolvedAgainst(old(Snap(puzzle)), Snap(board)) ==> EmptyCount(Snap(puzzle)) == 0
    {
      var local := DerivePuzzle();
      if SolvedAgainst(old(Snap(puzzle)), Snap(board)) {
        SolvedIffEqual(Snap(puzzle), Snap(board));
        FullHasNoEmpty(Snap(board));
      }
    }

    /** resetPuzzle as evidently intended: the caller receives a new puzzle
        derived from the existing solution, which is kept. */
    method RestartPuzzle() returns (puzzle: array2<int>)
      requires Generated()
      modifies rand
      ensures board == old(board) && Snap(board) == old(Snap(board))
      ensures fresh(puzzle) && Is9x9(puzzle)
      ensures SubAssignment(Snap(puzzle), Snap(board))
      ensures EmptyCount(Snap(puzzle)) == RemoveCount
    {
      puzzle := DerivePuzzle();
    }

    /** isSolved: every cell of b is filled and equals the board's. */
    method IsSolved(b: array2<int>) returns (ok: bool)
      requires Is9x9(b) && Is9x9(board)
      ensures ok == SolvedAgainst(Snap(b), Snap(board))
    {
      for r := 0 to Size
        invariant forall r', c' :: 0 <= r' < r && 0 <= c' < Size ==> b[r', c'] != Empty
      {
        for c := 0 to Size
          invariant forall r', c' :: 0 <= r' < r && 0 <= c' < Size ==> b[r', c'] != Empty
          invariant forall c' :: 0 <= c' < c ==> b[r, c'] != Empty
        {
          if b[r, c] == Empty { return false; }
        }
      }
      for r := 0 to Size
        invariant forall r', c' :: 0 <= r' < r && 0 <= c' < Size ==> b[r', c'] == board[r', c']
      {
        for c := 0 to Size
          invariant forall r', c' :: 0 <= r' < r && 0 <= c' < Size ==> b[r', c'] == board[r', c']
          invariant forall c' :: 0 <= c' < c ==> b[r, c'] == board[r, c']
        {
          if b[r, c] != board[r, c] { return false; }
        }
      }
      return true;
    }

    /** Option 1 on already-parsed numbers: rowInput and colInput are 1-based
        as typed. Out-of-range input, a filled cell and a value the safety
        check refuses leave the puzzle untouched; otherwise exactly that one
        cell becomes v, and the outcome tells whether the puzzle is solved. */
    method Insert(puzzle: array2<int>, rowInput: int, colInput: int, v: int) returns (o: InsertOutcome)
      requires Is9x9(puzzle) && Is9x9(board)
      modifies puzzle
      ensures o == InvalidInput <==> !(InGrid(rowInput - 1, colInput - 1) && 1 <= v <= Size)
      ensures o == AlreadyFilled <==>
        InGrid(rowInput - 1, colInput - 1) && 1 <= v <= Size &&
        old(puzzle[rowInput - 1, colInput - 1]) != Empty
      ensures o == BreaksRules <==>
        InGrid(rowInput - 1, colInput - 1) && 1 <= v <= Size &&
        old(puzzle[rowInput - 1, colInput - 1]) == Empty &&
        !Safe(old(Snap(puzzle)), rowInput - 1, colInput - 1, v)
      ensures o.Inserted? ==>
        Snap(puzzle) == Update(old(Snap(puzzle)), rowInput - 1, colInput - 1, v) &&
        o.solved == SolvedAgainst(Snap(puzzle), Snap(board))
      ensures !o.Inserted? ==> Snap(puzzle) == old(Snap(puzzle))
      ensures NoConflicts(old(Snap(puzzle))) ==> NoConflicts(Snap(puzzle))
    {
      var r := rowInput - 1;
      var c := colInput - 1;
      if r < 0 || r >= Size || c < 0 || c >= Size || v < 1 || v > 9 {
        return InvalidInput;
      }
      if puzzle[r, c] != Empty {
        return AlreadyFilled;
      }
      var safe := IsSafe(puzzle, r, c, v);
      if safe {
        ghost var before := Snap(puzzle);
        puzzle[r, c] := v;
        CellsDetermineGrid(Snap(puzzle), Update(before, r, c, v));
        if NoConflicts(before) {
          SafeWriteKeepsNoConflicts(before, r, c, v);
        }
        var solved := IsSolved(puzzle);
        return Inserted(solved);
      }
      return BreaksRules;
    }
  }
}
