/**
 * The two solvers of benches/sudoku_solver.rs, run on a `Board`.
 *
 * `simple_brute_force_function` visits the cells in row-major order
 * (i = 9 * y + x) and tries 1..9 at each empty cell; it is proved against
 * `Search`, a value-level description of the same search.
 * `brute_force_with_backtracking` is modelled as written, and beside it a
 * corrected version.
 */
module Solver {
  import opened Wrappers
  import opened Cages
  import opened Grid
  import opened Boards

  /**
   * The grid that the brute-force search ends with when it starts at cell i,
   * or None when it gives up: past the last cell the grid must be finished,
   * a filled cell is skipped, an empty cell gets the digits 1..9 in turn.
   */
  ghost function Search(g: seq<seq<int>>, cg: seq<seq<Cage>>, i: nat): (r: Option<seq<seq<int>>>)
    requires Square9(g) && Square9(cg)
    ensures r.Some? ==> Square9(r.value)
    decreases 81 - i, 10
  {
    if i >= 81 then (if Finished(g) then Some(g) else None)
    else if g[i / 9][i % 9] != 0 then Search(g, cg, i + 1)
    else TryDigits(g, cg, i, 1)
  }

  /** The digits `num`..9 at the empty cell i, each one followed by the rest of the search. */
  ghost function TryDigits(g: seq<seq<int>>, cg: seq<seq<Cage>>, i: nat, num: nat): (r: Option<seq<seq<int>>>)
    requires Square9(g) && Square9(cg) && i < 81
    ensures r.Some? ==> Square9(r.value)
    decreases 81 - i, 10 - num
  {
    if num > 9 then None
    else if Leads(g, cg, i, num) then Search(Write(g, i % 9, i / 9, num), cg, i + 1)
    else TryDigits(g, cg, i, num + 1)
  }

  /** The board admits `num` at the empty cell i, and the search goes through after writing it. */
  ghost predicate Leads(g: seq<seq<int>>, cg: seq<seq<Cage>>, i: nat, num: nat)
    requires Square9(g) && Square9(cg) && i < 81
    decreases 81 - i, 0
  {
    Possible(g, cg, i % 9, i / 9, num) && Search(Write(g, i % 9, i / 9, num), cg, i + 1).Some?
  }

  /** One step of `TryDigits`, written out. */
  lemma TryDigitsUnfold(g: seq<seq<int>>, cg: seq<seq<Cage>>, i: nat, num: nat)
    requires Square9(g) && Square9(cg) && i < 81 && num <= 9
    ensures Leads(g, cg, i, num) <==>
      Possible(g, cg, i % 9, i / 9, num) && Search(Write(g, i % 9, i / 9, num), cg, i + 1).Some?
    ensures TryDigits(g, cg, i, num) ==
      if Leads(g, cg, i, num) then Search(Write(g, i % 9, i / 9, num), cg, i + 1)
      else TryDigits(g, cg, i, num + 1)
  {
  }

  /**
   * `simple_brute_force_function(board, i)`: on success the board holds the
   * grid the search found; on failure every cell it tried is reset, so the
   * board is as before.
   */
  method SimpleBruteForce(board: Board, i: nat) returns (ok: bool)
    requires board.Valid()
    modifies board`grid
    decreases 81 - i
    ensures board.Valid()
    ensures ok == Search(old(board.grid), board.cageGrid, i).Some?
    ensures ok ==> board.grid == Search(old(board.grid), board.cageGrid, i).value
    ensures !ok ==> board.grid == old(board.grid)
    ensures i >= 81 ==> ok == Finished(old(board.grid))
    ensures ok ==> Finished(board.grid) && Extends(old(board.grid), board.grid)
  {
    if i >= 81 {
      ok := board.IsFinished();
      return;
    }
    var x, y := i % 9, i / 9;
    if board.GetValue(x, y) != 0 {
      ghost var g0 := board.grid;
      ok := SimpleBruteForce(board, i + 1);
      if ok {
        SearchSound(g0, board.cageGrid, i);
      }
      return;
    }
    ghost var g0, cg := board.grid, board.cageGrid;
    for num := 1 to 10
      invariant board.Valid() && board.grid == g0 && board.cageGrid == cg
      invariant TryDigits(g0, cg, i, num) == Search(g0, cg, i)
    {
      TryDigitsUnfold(g0, cg, i, num);
      var possible := board.IsPossible(x, y, num);
      if possible {
        board.UncheckedSetNum(x, y, num);
        ok := SimpleBruteForce(board, i + 1);
        if ok {
          SearchSound(g0, cg, i);
          return;
        }
        WriteThenRestore(g0, x, y, num);
      } else {
        WriteSame(g0, x, y);
      }
      board.UncheckedSetNum(x, y, 0);
    }
    return false;
  }

  // ---------------------------------------------------------------------
  // What the search guarantees

  /**
   * A grid the search returns is finished, keeps every filled cell of the
   * grid it started from, and differs from it only at cells i..80.
   */
  lemma {:induction false} SearchSound(g: seq<seq<int>>, cg: seq<seq<Cage>>, i: nat)
    requires Square9(g) && Square9(cg) && Search(g, cg, i).Some?
    ensures var r := Search(g, cg, i).value;
      Square9(r) && Finished(r) && Extends(g, r) &&
      forall j :: 0 <= j < i && j < 81 ==> r[j / 9][j % 9] == g[j / 9][j % 9]
    decreases 81 - i, 10
  {
    if i < 81 {
      if g[i / 9][i % 9] != 0 {
        SearchSound(g, cg, i + 1);
      } else {
        TryDigitsSound(g, cg, i, 1);
      }
    }
  }

  lemma {:induction false} TryDigitsSound(g: seq<seq<int>>, cg: seq<seq<Cage>>, i: nat, num: nat)
    requires Square9(g) && Square9(cg) && i < 81 && TryDigits(g, cg, i, num).Some?
    ensures var r := TryDigits(g, cg, i, num).value;
      Square9(r) && Finished(r) && Extends(g, r) &&
      forall j :: 0 <= j < i ==> r[j / 9][j % 9] == g[j / 9][j % 9]
    decreases 81 - i, 10 - num
  {
    TryDigitsUnfold(g, cg, i, num);
    if Leads(g, cg, i, num) {
      var w := Write(g, i % 9, i / 9, num);
      SearchSound(w, cg, i + 1);
      var r := Search(w, cg, i + 1).value;
      forall j | 0 <= j < i ensures r[j / 9][j % 9] == g[j / 9][j % 9] {
        CellOfIndex(j, i);
      }
    } else {
      TryDigitsSound(g, cg, i, num + 1);
    }
  }

  /** Different steps of the search visit different cells. */
  lemma CellOfIndex(j: nat, i: nat)
    requires j != i
    ensures j / 9 != i / 9 || j % 9 != i % 9
  {
    assert j == 9 * (j / 9) + j % 9 && i == 9 * (i / 9) + i % 9;
  }

  /** At an empty cell the search fails exactly when no digit in num..9 leads anywhere ... */
  lemma {:induction false} TryDigitsFails(g: seq<seq<int>>, cg: seq<seq<Cage>>, i: nat, num: nat)
    requires Square9(g) && Square9(cg) && i < 81
    ensures TryDigits(g, cg, i, num).None? <==> forall d :: num <= d <= 9 ==> !Leads(g, cg, i, d)
    decreases 10 - num
  {
    if num <= 9 {
      TryDigitsUnfold(g, cg, i, num);
      TryDigitsFails(g, cg, i, num + 1);
    }
  }

  /**
   * ... and otherwise the digit it leaves at cell i is the smallest in
   * num..9 that leads to a solution, and the result is where that digit leads.
   */
  lemma {:induction false} TryDigitsSmallest(g: seq<seq<int>>, cg: seq<seq<Cage>>, i: nat, num: nat)
    requires Square9(g) && Square9(cg) && i < 81 && 1 <= num && TryDigits(g, cg, i, num).Some?
    ensures var d := TryDigits(g, cg, i, num).value[i / 9][i % 9];
      && num <= d <= 9
      && Leads(g, cg, i, d)
      && Search(Write(g, i % 9, i / 9, d), cg, i + 1) == TryDigits(g, cg, i, num)
      && forall e :: num <= e < d ==> !Leads(g, cg, i, e)
    decreases 10 - num
  {
    TryDigitsUnfold(g, cg, i, num);
    if Leads(g, cg, i, num) {
      SearchSound(Write(g, i % 9, i / 9, num), cg, i + 1);
    } else {
      TryDigitsSmallest(g, cg, i, num + 1);
    }
  }

  /** A finished grid is its own search result: the search writes nothing into a solved board. */
  lemma {:induction false} SearchKeepsFinished(g: seq<seq<int>>, cg: seq<seq<Cage>>, i: nat)
    requires Square9(g) && Square9(cg) && Finished(g)
    ensures Search(g, cg, i) == Some(g)
    decreases 81 - i
  {
    FinishedCellsAreDigits(g);
    if i < 81 {
      SearchKeepsFinished(g, cg, i + 1);
    }
  }

  // ---------------------------------------------------------------------
  // brute_force_with_backtracking

  /**
   * `brute_force_with_backtracking(board)` as written.  `is_empty` starts
   * true and is only ever set to true again, so the scan for an empty cell
   * ends with `is_empty` true and the function returns true at once, whatever
   * the board holds; the digit loop after that test cannot be reached.
   */
  method BruteForceWithBacktracking(board: Board) returns (ok: bool)
    requires board.Valid()
    ensures ok
  {
    var x, y := 0, 0;
    var isEmpty := true;
    for j := 0 to 9
      invariant isEmpty
    {
      for k := 0 to 9
        invariant isEmpty
      {
        if board.GetValue(j, k) == 0 {
          x, y := j, k;
          isEmpty := true;
          break;
        }
      }
      if !isEmpty {
        break;
      }
    }
    if isEmpty {
      return true;
    }
    assert false;
  }

  /** The sample puzzle starts empty: far from finished, yet the backtracking solver reports success on it. */
  lemma EmptyBoardIsNotFinished()
    ensures Square9(EmptyGrid) && !Full(EmptyGrid) && !Finished(EmptyGrid)
  {
    assert EmptyGrid[0][0] == 0;
    FinishedCellsAreDigitsContra(EmptyGrid);
  }

  lemma FinishedCellsAreDigitsContra(g: seq<seq<int>>)
    requires Square9(g) && g[0][0] == 0
    ensures !Finished(g)
  {
    if Finished(g) {
      FinishedCellsAreDigits(g);
    }
  }

  /**
   * The backtracking solver as evidently intended: find the first empty cell
   * (column by column, as the scan is written), try 1..9 there, recurse, and
   * on failure undo the cell with `unchecked_set_num(x, y, 0)`.  On success
   * the board is full and keeps every cell that was filled; on failure it is
   * as before; from a conflict-free board of digits the result is finished.
   */
  method FixedBacktracking(board: Board) returns (ok: bool)
    requires board.Valid()
    modifies board`grid
    decreases |EmptyCells(board.grid)|
    ensures board.Valid()
    ensures ok ==> Full(board.grid) && Extends(old(board.grid), board.grid)
    ensures !ok ==> board.grid == old(board.grid)
    ensures ok && InRange(old(board.grid)) && NoConflicts(old(board.grid)) ==> Finished(board.grid)
  {
    var x: nat, y: nat := 0, 0;
    var isEmpty := true;
    ghost var g0 := board.grid;
    for j := 0 to 9
      invariant isEmpty ==> forall r, c :: 0 <= r < 9 && 0 <= c < j ==> g0[r][c] != 0
      invariant !isEmpty ==> EmptyAt(g0, x, y)
    {
      for k := 0 to 9
        invariant isEmpty ==> forall r, c :: 0 <= r < 9 && 0 <= c < j ==> g0[r][c] != 0
        invariant isEmpty ==> forall r :: 0 <= r < k ==> g0[r][j] != 0
        invariant !isEmpty ==> EmptyAt(g0, x, y)
      {
        if board.GetValue(j, k) == 0 {
          x, y := j, k;
          isEmpty := false;
          break;
        }
      }
      if !isEmpty {
        break;
      }
    }
    if isEmpty {
      if InRange(g0) && NoConflicts(g0) {
        FullConsistentIsFinished(g0);
      }
      return true;
    }
    for num := 1 to 10
      invariant board.Valid() && board.grid == g0
    {
      var possible := board.IsPossible(x, y, num);
      if possible {
        board.UncheckedSetNum(x, y, num);
        FillOneLess(g0, x, y, num);
        PlacementKeepsConsistent(g0, board.cageGrid, x, y, num);
        ok := FixedBacktracking(board);
        if ok {
          return;
        }
        board.UncheckedSetNum(x, y, 0);
        WriteThenRestore(g0, x, y, num);
      }
    }
    return false;
  }

  /** An approved digit keeps a conflict-free board of digits conflict-free, and fills an empty cell. */
  lemma PlacementKeepsConsistent(g: seq<seq<int>>, cg: seq<seq<Cage>>, x: nat, y: nat, num: int)
    requires Square9(g) && Square9(cg) && x < 9 && y < 9 && 1 <= num <= 9
    requires Possible(g, cg, x, y, num)
    ensures Extends(g, Write(g, x, y, num))
    ensures InRange(g) && NoConflicts(g) ==> InRange(Write(g, x, y, num)) && NoConflicts(Write(g, x, y, num))
  {
    if NoConflicts(g) {
      PossibleKeepsNoConflicts(g, cg, x, y, num);
    }
  }
}
