/**
 * `Board` of src/data/board.rs: the player's grid, the solution grid and the
 * cage grid, with the operations that read and update them.  Each method runs
 * the source's loops and is proved against the value-level predicates of
 * module Grid.
 */
module Boards {
  import opened Wrappers
  import opened Cages
  import opened Grid
  import opened Fixtures

  /** `iter().position(|x| *x == v)`: the first index holding `v`, if any. */
  function Position(s: seq<int>, v: int): (r: Option<nat>)
    ensures r.Some? ==> r.value < |s| && s[r.value] == v && v !in s[..r.value]
    ensures r.None? ==> v !in s
  {
    if s == [] then None
    else if s[0] == v then Some(0)
    else
      match Position(s[1..], v)
      case None => None
      case Some(k) => assert s[..k + 1] == [s[0]] + s[1..][..k]; Some(k + 1)
  }

  /**
   * One scan of `is_finished`: starting from the list `start` (always
   * `vec![1, 2, 3, 4, 5, 6, 7, 8, 9]` there), strike off each value read; a
   * 0, or a value no longer in the list, fails the scan.  The scan succeeds
   * exactly when the values are a permutation of the starting list.
   */
  method StrikeOff(values: seq<int>, start: seq<int>) returns (ok: bool)
    requires |values| == |start| && 0 !in start
    ensures ok == (multiset(values) == multiset(start))
  {
    var list := start;
    for k := 0 to |values|
      invariant |list| == |values| - k
      invariant multiset(list) + multiset(values[..k]) == multiset(start)
    {
      var i := values[k];
      if i == 0 {
        ZeroFailsScan(values, k, start);
        return false;
      }
      var pos := Position(list, i);
      if pos.None? {
        MissFailsScan(values, k, list, multiset(start));
        return false;
      }
      StrikeStep(values, k, list, pos.value, multiset(start));
      list := list[..pos.value] + list[pos.value + 1..];
    }
    assert values[..|values|] == values;
    return true;
  }

  /** A 0 read anywhere means the values are not a permutation of a list without 0. */
  lemma ZeroFailsScan(values: seq<int>, k: nat, start: seq<int>)
    requires k < |values| && values[k] == 0 && 0 !in start
    ensures multiset(values) != multiset(start)
  {
    assert 0 in multiset(values);
  }

  /** A value read that is no longer in the list has occurred once too often. */
  lemma MissFailsScan(values: seq<int>, k: nat, list: seq<int>, D: multiset<int>)
    requires k < |values|
    requires multiset(list) + multiset(values[..k]) == D
    requires values[k] !in list
    ensures multiset(values) != D
  {
    var i := values[k];
    assert values[..k + 1] == values[..k] + [i];
    assert values == values[..k + 1] + values[k + 1..];
    assert multiset(values)[i] >= multiset(values[..k + 1])[i] == D[i] + 1;
  }

  /** Striking a found value off the list keeps the scan's accounting. */
  lemma StrikeStep(values: seq<int>, k: nat, list: seq<int>, p: nat, D: multiset<int>)
    requires k < |values| && p < |list| && list[p] == values[k]
    requires multiset(list) + multiset(values[..k]) == D
    ensures multiset(list[..p] + list[p + 1..]) + multiset(values[..k + 1]) == D
    ensures |list[..p] + list[p + 1..]| == |list| - 1
  {
    assert values[..k + 1] == values[..k] + [values[k]];
    assert list == list[..p] + [list[p]] + list[p + 1..];
  }

  class Board {
    var grid: seq<seq<int>>
    var solvedGrid: seq<seq<int>>
    var cageGrid: seq<seq<Cage>>

    /** The three grids are nine by nine. */
    ghost predicate Valid()
      reads this
    {
      Square9(grid) && Square9(solvedGrid) && Square9(cageGrid)
    }

    /** `Board::default()`: empty grids and one cage (index 0, sum 0) everywhere. */
    constructor Default()
      ensures Valid()
      ensures grid == EmptyGrid && solvedGrid == EmptyGrid && cageGrid == DefaultCages
    {
      grid := EmptyGrid;
      solvedGrid := EmptyGrid;
      cageGrid := DefaultCages;
    }

    /** `Board::sample_puzzle()`: an empty grid over the 29 cages of the sample, with its solution. */
    constructor SamplePuzzle()
      ensures Valid()
      ensures grid == EmptyGrid && solvedGrid == SampleSolution() && cageGrid == SampleCages()
    {
      SampleShapes();
      grid := EmptyGrid;
      solvedGrid := SampleSolution();
      cageGrid := SampleCages();
    }

    /** `get_value(x, y)` */
    function GetValue(x: nat, y: nat): int
      reads this
      requires Valid() && x < 9 && y < 9
    {
      grid[y][x]
    }

    /** `get_sum(x, y)`: the target sum of the cell's cage. */
    function GetSum(x: nat, y: nat): int
      reads this
      requires Valid() && x < 9 && y < 9
    {
      cageGrid[y][x].sum
    }

    /** `get_color(x, y)` */
    function GetColor(x: nat, y: nat): CageColor
      reads this
      requires Valid() && x < 9 && y < 9
    {
      ColorOf(cageGrid[y][x].index)
    }

    /**
     * The row-major scan of the cage grid that `is_possible` and
     * `get_cage_size_left` both run: every cell whose cage has this index.
     */
    method CageScan(index: nat) returns (cells: seq<Pos>)
      requires Valid()
      ensures cells == CageCells(cageGrid, index)
    {
      cells := [];
      for yy := 0 to 9
        invariant cells == CageCellsUpTo(cageGrid, index, yy)
      {
        for xx := 0 to 9
          invariant cells == CageCellsUpTo(cageGrid, index, yy) + RowCageCells(cageGrid, index, yy, xx)
        {
          if cageGrid[yy][xx].index == index {
            cells := cells + [(xx, yy)];
          }
        }
      }
    }

    /** `get_cage_size(x, y)`: how many cells share the cell's cage index; at least the cell itself. */
    function GetCageSize(x: nat, y: nat): (n: nat)
      reads this
      requires Valid() && x < 9 && y < 9
      ensures n >= 1
      ensures n == |CageSet(cageGrid, cageGrid[y][x].index)|
    {
      var cells := CageCells(cageGrid, cageGrid[y][x].index);
      assert (x, y) in cells;
      CageCellsCount(cageGrid, cageGrid[y][x].index);
      |cells|
    }

    /** `get_cage_size_left(x, y)`: how many cells of the cell's cage are still empty. */
    method GetCageSizeLeft(x: nat, y: nat) returns (n: nat)
      requires Valid() && x < 9 && y < 9
      ensures n == CountEmpty(grid, CageCells(cageGrid, cageGrid[y][x].index))
      ensures n == |EmptyAmong(grid, CageCells(cageGrid, cageGrid[y][x].index))|
      ensures n <= GetCageSize(x, y)
    {
      var positions := CageScan(cageGrid[y][x].index);
      n := 0;
      for k := 0 to |positions|
        invariant n == CountEmpty(grid, positions[..k])
      {
        var (px, py) := positions[k];
        assert positions[..k + 1][..k] == positions[..k];
        assert forall p :: p in positions[..k + 1] ==> p in positions;
        if grid[py][px] == 0 {
          n := n + 1;
        }
      }
      assert positions[..|positions|] == positions;
      CountEmptyCard(grid, positions);
    }

    /**
     * `is_possible(x, y, num)`, in the source's order: the cage check (when
     * the cage has a target), the cell is empty, the 3x3 box, then row and
     * column outside the box.
     */
    method IsPossible(x: nat, y: nat, num: int) returns (ok: bool)
      requires Valid() && x < 9 && y < 9
      ensures ok == Possible(grid, cageGrid, x, y, num)
    {
      var cageOk := CageCheck(x, y, num);
      if !cageOk {
        return false;
      }
      if grid[y][x] != 0 {
        return false;
      }
      PossibleIff(grid, cageGrid, x, y, num);
      var squareX, squareY := x / 3 * 3, y / 3 * 3;
      for yAdd := 0 to 3
        invariant forall r, c :: squareY <= r < squareY + yAdd && squareX <= c < squareX + 3 ==> grid[r][c] != num
      {
        for xAdd := 0 to 3
          invariant forall r, c :: r == squareY + yAdd && squareX <= c < squareX + xAdd ==> grid[r][c] != num
          invariant forall r, c :: squareY <= r < squareY + yAdd && squareX <= c < squareX + 3 ==> grid[r][c] != num
        {
          if grid[squareY + yAdd][squareX + xAdd] == num {
            return false;
          }
        }
      }
      for o := 0 to 9
        invariant forall r :: 0 <= r < o && !(squareY <= r < squareY + 3) ==> grid[r][x] != num
        invariant forall c :: 0 <= c < o && !(squareX <= c < squareX + 3) ==> grid[y][c] != num
      {
        if !(squareY <= o < squareY + 3) && grid[o][x] == num {
          return false;
        }
        if !(squareX <= o < squareX + 3) && grid[y][o] == num {
          return false;
        }
      }
      return true;
    }

    /**
     * The cage part of `is_possible`: collect the cage's cells, sum their
     * values, and reject `num` if it does not close a cage with one empty
     * cell left or would push the sum past the target.
     */
    method CageCheck(x: nat, y: nat, num: int) returns (ok: bool)
      requires Valid() && x < 9 && y < 9
      ensures ok == CageAdmits(grid, cageGrid, x, y, num)
    {
      var cage := cageGrid[y][x];
      if cage.sum > 0 {
        var cageIndices := CageScan(cage.index);
        var currentSum := SumOf(grid, cageIndices);
        var left := GetCageSizeLeft(x, y);
        if left == 1 && num != cage.sum - currentSum {
          return false;
        }
        if num + currentSum > cage.sum {
          return false;
        }
      }
      return true;
    }

    /** `unchecked_set_num(x, y, num)`: the cell gets `num`, nothing else changes. */
    method UncheckedSetNum(x: nat, y: nat, num: int)
      requires Valid() && x < 9 && y < 9
      modifies this`grid
      ensures Valid()
      ensures grid == Write(old(grid), x, y, num)
    {
      grid := grid[y := grid[y][x := num]];
    }

    /** `set_num(x, y, num)`: write `num` only when `is_possible` approves it, otherwise change nothing. */
    method SetNum(x: nat, y: nat, num: int)
      requires Valid() && x < 9 && y < 9
      modifies this`grid
      ensures Valid()
      ensures grid == if Possible(old(grid), cageGrid, x, y, num) then Write(old(grid), x, y, num) else old(grid)
      ensures old(grid)[y][x] != 0 ==> grid == old(grid)
    {
      var ok := IsPossible(x, y, num);
      if !ok {
        return;
      }
      UncheckedSetNum(x, y, num);
    }

    /**
     * `is_finished()`: for each o, row o, column o and box o are scanned in
     * turn, and the first failing scan ends the search.
     */
    method IsFinished() returns (ok: bool)
      requires Valid()
      ensures ok == Finished(grid)
    {
      for o := 0 to 9
        invariant CompleteBelow(grid, o)
      {
        ok := ScanUnits(o);
        if !ok {
          IncompleteUnit(grid, o);
          return;
        }
        CompleteBelowStep(grid, o);
      }
      return true;
    }

    /** The body of the `is_finished` loop: the scans of row o, column o and box o. */
    method ScanUnits(o: nat) returns (ok: bool)
      requires Valid() && o < 9
      ensures ok == UnitsComplete(grid, o)
    {
      DigitsBag();
      ok := StrikeOff(grid[o], Digits);
      if ok {
        ok := StrikeOff(Column(grid, o), Digits);
        if ok {
          ok := StrikeOff(Box(grid, o % 3 * 3, o / 3 * 3), Digits);
        }
      }
    }
  }
}
