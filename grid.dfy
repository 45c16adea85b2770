/**
 * Value-level model of the constraint logic of src/data/board.rs.
 *
 * A grid is nine rows of nine `int`s (0 means empty); a cage grid is nine rows
 * of nine `Cage`s.  The predicates here say what `is_possible`, `is_finished`
 * and the cage scans compute; the Board class (module Boards) runs the
 * source's loops and is proved against them.
 */
module Grid {
  import opened Cages

  /** A cell position (x, y): column x, row y, as in the source's `(x, y)` pairs. */
  type Pos = (nat, nat)

  /** Nine rows of nine cells. */
  predicate Square9<T>(m: seq<seq<T>>)
  {
    |m| == 9 && forall r :: 0 <= r < 9 ==> |m[r]| == 9
  }

  /** `vec![vec![0; 9]; 9]` */
  const EmptyGrid: seq<seq<int>> := seq(9, _ => seq(9, _ => 0))

  /** `vec![vec![Cage::default(); 9]; 9]` */
  const DefaultCages: seq<seq<Cage>> := seq(9, _ => seq(9, _ => DefaultCage))

  /** The grid after `grid[y][x] = n`: that one cell holds `n`, every other cell is as before. */
  function Write(g: seq<seq<int>>, x: nat, y: nat, n: int): (r: seq<seq<int>>)
    requires Square9(g) && x < 9 && y < 9
    ensures Square9(r) && r[y][x] == n
    ensures forall row, col :: 0 <= row < 9 && 0 <= col < 9 && (row != y || col != x) ==> r[row][col] == g[row][col]
  {
    g[y := g[y][x := n]]
  }

  /** Column `x`, top to bottom. */
  function Column(g: seq<seq<int>>, x: nat): (col: seq<int>)
    requires Square9(g) && x < 9
    ensures |col| == 9 && forall r :: 0 <= r < 9 ==> col[r] == g[r][x]
  {
    seq(9, r requires 0 <= r < 9 => g[r][x])
  }

  /** The 3x3 box whose top-left cell is (x0, y0), read row by row. */
  function Box(g: seq<seq<int>>, x0: nat, y0: nat): (b: seq<int>)
    requires Square9(g) && x0 <= 6 && y0 <= 6
    ensures |b| == 9 && forall k :: 0 <= k < 9 ==> b[k] == g[y0 + k / 3][x0 + k % 3]
  {
    seq(9, k requires 0 <= k < 9 => g[y0 + k / 3][x0 + k % 3])
  }

  /** The list `vec![1, 2, 3, 4, 5, 6, 7, 8, 9]` that `is_finished` starts every scan with. */
  const Digits: seq<int> := [1, 2, 3, 4, 5, 6, 7, 8, 9]

  /** `s` holds each of 1..9 exactly once and nothing else. */
  predicate IsDigitPermutation(s: seq<int>)
  {
    multiset(s) == multiset{1, 2, 3, 4, 5, 6, 7, 8, 9}
  }

  /** The list that `is_finished` starts from holds each digit once. */
  lemma DigitsBag()
    ensures multiset(Digits) == multiset{1, 2, 3, 4, 5, 6, 7, 8, 9}
  {
  }

  /** What `is_finished` decides: row o, column o and box o (boxes numbered row by row) are permutations of 1..9. */
  predicate Finished(g: seq<seq<int>>)
    requires Square9(g)
  {
    CompleteBelow(g, 9)
  }

  /** Rows, columns and boxes 0..n-1 are complete. */
  predicate CompleteBelow(g: seq<seq<int>>, n: nat)
    requires Square9(g) && n <= 9
  {
    forall o :: 0 <= o < n ==> UnitsComplete(g, o)
  }

  /** Row o, column o and box o are each a permutation of 1..9. */
  predicate UnitsComplete(g: seq<seq<int>>, o: nat)
    requires Square9(g) && o < 9
  {
    && IsDigitPermutation(g[o])
    && IsDigitPermutation(Column(g, o))
    && IsDigitPermutation(Box(g, o % 3 * 3, o / 3 * 3))
  }

  /** One more complete row, column and box extends the complete prefix. */
  lemma CompleteBelowStep(g: seq<seq<int>>, o: nat)
    requires Square9(g) && o < 9
    ensures CompleteBelow(g, o) && UnitsComplete(g, o) ==> CompleteBelow(g, o + 1)
  {
  }

  /** One incomplete row, column or box means the grid is not finished. */
  lemma IncompleteUnit(g: seq<seq<int>>, o: nat)
    requires Square9(g) && o < 9 && !UnitsComplete(g, o)
    ensures !Finished(g)
  {
  }

  // ---------------------------------------------------------------------
  // Cage membership: cells are found by comparing `index` over the cage grid

  predicate OnBoard(cells: seq<Pos>)
  {
    forall p :: p in cells ==> p.0 < 9 && p.1 < 9
  }

  predicate Distinct(cells: seq<Pos>)
  {
    forall i, j :: 0 <= i < j < |cells| ==> cells[i] != cells[j]
  }

  /** The cells (x, y) of row `y` with `x < n` whose cage has this index, left to right. */
  function RowCageCells(cg: seq<seq<Cage>>, index: nat, y: nat, n: nat): seq<Pos>
    requires Square9(cg) && y < 9 && n <= 9
  {
    if n == 0 then []
    else RowCageCells(cg, index, y, n - 1) + (if cg[y][n - 1].index == index then [(n - 1, y)] else [])
  }

  /** The cells of rows `0..m` whose cage has this index, in row-major order. */
  function CageCellsUpTo(cg: seq<seq<Cage>>, index: nat, m: nat): seq<Pos>
    requires Square9(cg) && m <= 9
  {
    if m == 0 then [] else CageCellsUpTo(cg, index, m - 1) + RowCageCells(cg, index, m - 1, 9)
  }

  /**
   * The cells of the cage `index` in row-major order: the vector that
   * `is_possible` (`cage_indices`) and `get_cage_size_left` (`cage_positions`)
   * build by scanning the whole cage grid.  A cell belongs to it exactly when
   * its cage has this index, and no cell is listed twice.
   */
  function CageCells(cg: seq<seq<Cage>>, index: nat): (cells: seq<Pos>)
    requires Square9(cg)
    ensures forall p :: p in cells <==> p.0 < 9 && p.1 < 9 && cg[p.1][p.0].index == index
    ensures Distinct(cells) && OnBoard(cells)
  {
    CageCellsUpToMembers(cg, index, 9);
    CageCellsUpTo(cg, index, 9)
  }

  lemma {:induction false} RowCageCellsMembers(cg: seq<seq<Cage>>, index: nat, y: nat, n: nat)
    requires Square9(cg) && y < 9 && n <= 9
    ensures forall p :: p in RowCageCells(cg, index, y, n) <==> p.1 == y && p.0 < n && cg[y][p.0].index == index
    ensures Distinct(RowCageCells(cg, index, y, n))
  {
    if n > 0 {
      RowCageCellsMembers(cg, index, y, n - 1);
      var prefix := RowCageCells(cg, index, y, n - 1);
      assert forall i :: 0 <= i < |prefix| ==> prefix[i] in prefix;
    }
  }

  lemma {:induction false} CageCellsUpToMembers(cg: seq<seq<Cage>>, index: nat, m: nat)
    requires Square9(cg) && m <= 9
    ensures forall p :: p in CageCellsUpTo(cg, index, m) <==> p.1 < m && p.0 < 9 && cg[p.1][p.0].index == index
    ensures Distinct(CageCellsUpTo(cg, index, m))
  {
    if m > 0 {
      CageCellsUpToMembers(cg, index, m - 1);
      RowCageCellsMembers(cg, index, m - 1, 9);
      var upper := CageCellsUpTo(cg, index, m - 1);
      var row := RowCageCells(cg, index, m - 1, 9);
      assert forall i :: 0 <= i < |upper| ==> upper[i] in upper;
      assert forall i :: 0 <= i < |row| ==> row[i] in row;
    }
  }

  /** Sum of the grid values at the given cells (`current_sum`). */
  function SumOf(g: seq<seq<int>>, cells: seq<Pos>): int
    requires Square9(g) && OnBoard(cells)
  {
    if cells == [] then 0
    else
      var last := cells[|cells| - 1];
      assert forall p :: p in cells[..|cells| - 1] ==> p in cells;
      SumOf(g, cells[..|cells| - 1]) + g[last.1][last.0]
  }

  /** Number of the given cells whose value is 0; never more than the cells given. */
  function CountEmpty(g: seq<seq<int>>, cells: seq<Pos>): (n: nat)
    requires Square9(g) && OnBoard(cells)
    ensures n <= |cells|
  {
    if cells == [] then 0
    else
      var last := cells[|cells| - 1];
      assert forall p :: p in cells[..|cells| - 1] ==> p in cells;
      CountEmpty(g, cells[..|cells| - 1]) + (if g[last.1][last.0] == 0 then 1 else 0)
  }

  // ---------------------------------------------------------------------
  // is_possible

  /**
   * The cage-sum check, skipped when the cage's sum is 0: if only one cell of
   * the cage is empty, `num` must close the sum exactly; in every case `num`
   * plus the current sum of the cage's cells must not exceed the target.
   */
  predicate CageAdmits(g: seq<seq<int>>, cg: seq<seq<Cage>>, x: nat, y: nat, num: int)
    requires Square9(g) && Square9(cg) && x < 9 && y < 9
  {
    var cage := cg[y][x];
    var cells := CageCells(cg, cage.index);
    var current := SumOf(g, cells);
    cage.sum > 0 ==>
      && (CountEmpty(g, cells) == 1 ==> num == cage.sum - current)
      && num + current <= cage.sum
  }

  /**
   * `is_possible(x, y, num)`: the cage check, then the cell is empty, then
   * `num` is not in the cell's box, row or column.  `num` itself is not
   * restricted to 1..9, and cells of one cage are not required to differ.
   */
  predicate Possible(g: seq<seq<int>>, cg: seq<seq<Cage>>, x: nat, y: nat, num: int)
    requires Square9(g) && Square9(cg) && x < 9 && y < 9
  {
    && CageAdmits(g, cg, x, y, num)
    && g[y][x] == 0
    && num !in Box(g, x / 3 * 3, y / 3 * 3)
    && num !in g[y]
    && num !in Column(g, x)
  }

  /** `get_color`: the cage index modulo 4 picks the colour; the fall-through arm cannot be reached. */
  function ColorOf(index: nat): CageColor
  {
    var k := index % 4;
    if k == 0 then Yellow
    else if k == 1 then Green
    else if k == 2 then Red
    else if k == 3 then Blue
    else assert false; Yellow
  }

  // ---------------------------------------------------------------------
  // Lemmas

  /** Writing a cell's own value back changes nothing. */
  lemma WriteSame(g: seq<seq<int>>, x: nat, y: nat)
    requires Square9(g) && x < 9 && y < 9
    ensures Write(g, x, y, g[y][x]) == g
  {
    assert g[y][x := g[y][x]] == g[y];
  }

  /** Writing a cell and then writing its old value back restores the grid. */
  lemma WriteThenRestore(g: seq<seq<int>>, x: nat, y: nat, n: int)
    requires Square9(g) && x < 9 && y < 9
    ensures Write(Write(g, x, y, n), x, y, g[y][x]) == g
  {
    var w := Write(Write(g, x, y, n), x, y, g[y][x]);
    forall r | 0 <= r < 9 ensures w[r] == g[r] {
      assert forall c :: 0 <= c < 9 ==> w[r][c] == g[r][c];
    }
  }

  /** A digit permutation has nine entries and contains every digit 1..9 ... */
  lemma DigitPermutationHasAllDigits(s: seq<int>)
    requires IsDigitPermutation(s)
    ensures |s| == 9 && forall d :: 1 <= d <= 9 ==> d in s
  {
    assert |s| == |multiset(s)| == |multiset{1, 2, 3, 4, 5, 6, 7, 8, 9}| == 9;
    forall d | 1 <= d <= 9 ensures d in s {
      assert d in multiset{1, 2, 3, 4, 5, 6, 7, 8, 9};
      assert d in multiset(s);
    }
  }

  /** ... and, conversely, nine entries that include every digit 1..9 form a digit permutation. */
  lemma AllDigitsIsDigitPermutation(s: seq<int>)
    requires |s| == 9 && forall d :: 1 <= d <= 9 ==> d in s
    ensures IsDigitPermutation(s)
  {
    var D, m := multiset{1, 2, 3, 4, 5, 6, 7, 8, 9}, multiset(s);
    forall v ensures D[v] <= m[v] {
      if 1 <= v <= 9 {
        assert v in s;
      } else {
        assert v !in Digits;
      }
    }
    SubMultisetOfSameSize(D, m);
  }

  lemma SubMultisetOfSameSize(a: multiset<int>, b: multiset<int>)
    requires a <= b && |a| == |b|
    ensures a == b
  {
    var rest := b - a;
    assert b == a + rest;
    assert |rest| == 0;
  }

  /** Every entry of a digit permutation is a digit 1..9. */
  lemma DigitPermutationMembers(s: seq<int>)
    requires IsDigitPermutation(s)
    ensures forall k :: 0 <= k < |s| ==> 1 <= s[k] <= 9
  {
    forall k | 0 <= k < |s| ensures 1 <= s[k] <= 9 {
      assert s[k] in multiset(s);
      assert s[k] in Digits;
    }
  }

  /** Every cell of a finished grid holds a digit 1..9: in particular there is no empty cell. */
  lemma FinishedCellsAreDigits(g: seq<seq<int>>)
    requires Square9(g) && Finished(g)
    ensures forall r, c :: 0 <= r < 9 && 0 <= c < 9 ==> 1 <= g[r][c] <= 9
  {
    forall r | 0 <= r < 9 ensures forall c :: 0 <= c < 9 ==> 1 <= g[r][c] <= 9 {
      assert UnitsComplete(g, r);
      DigitPermutationMembers(g[r]);
    }
  }

  /**
   * The scans of `is_possible` mean that `num` occurs nowhere in row y,
   * column x or the 3x3 box around (x, y), and the cell is empty.
   */
  lemma PossibleIff(g: seq<seq<int>>, cg: seq<seq<Cage>>, x: nat, y: nat, num: int)
    requires Square9(g) && Square9(cg) && x < 9 && y < 9
    ensures Possible(g, cg, x, y, num) <==>
      && CageAdmits(g, cg, x, y, num)
      && g[y][x] == 0
      && (forall c :: 0 <= c < 9 ==> g[y][c] != num)
      && (forall r :: 0 <= r < 9 ==> g[r][x] != num)
      && (forall r, c :: y / 3 * 3 <= r < y / 3 * 3 + 3 && x / 3 * 3 <= c < x / 3 * 3 + 3 ==> g[r][c] != num)
  {
    BoxCells(g, x / 3 * 3, y / 3 * 3, num);
  }

  /**
   * The box reads every cell of its 3x3 block: cell (c, r) of the block is
   * entry (r - y0) * 3 + (c - x0), and these nine positions are all of the
   * box's entries, so a value is missing from the box exactly when no cell
   * of the block holds it.
   */
  lemma BoxCells(g: seq<seq<int>>, x0: nat, y0: nat, v: int)
    requires Square9(g) && x0 <= 6 && y0 <= 6
    ensures forall r, c :: y0 <= r < y0 + 3 && x0 <= c < x0 + 3 ==> Box(g, x0, y0)[(r - y0) * 3 + (c - x0)] == g[r][c]
    ensures v !in Box(g, x0, y0) <==> forall r, c :: y0 <= r < y0 + 3 && x0 <= c < x0 + 3 ==> g[r][c] != v
  {
    var b := Box(g, x0, y0);
    forall r, c | y0 <= r < y0 + 3 && x0 <= c < x0 + 3
      ensures b[(r - y0) * 3 + (c - x0)] == g[r][c]
    {
      var k := (r - y0) * 3 + (c - x0);
      assert k / 3 == r - y0 && k % 3 == c - x0;
    }
    if forall r, c :: y0 <= r < y0 + 3 && x0 <= c < x0 + 3 ==> g[r][c] != v {
      forall k | 0 <= k < 9 ensures b[k] != v {
        assert b[k] == g[y0 + k / 3][x0 + k % 3];
      }
    }
  }

  /** `is_possible(x, y, 0)` is always false: an empty cell meets its own 0 in the box scan. */
  lemma PossibleRejectsZero(g: seq<seq<int>>, cg: seq<seq<Cage>>, x: nat, y: nat)
    requires Square9(g) && Square9(cg) && x < 9 && y < 9
    ensures !Possible(g, cg, x, y, 0)
  {
    if g[y][x] == 0 {
      var x0, y0 := x / 3 * 3, y / 3 * 3;
      var k := (y - y0) * 3 + (x - x0);
      assert Box(g, x0, y0)[k] == 0;
    }
  }

  /** If every given cell is filled, none of them counts as empty. */
  lemma {:induction false} CountEmptyAllFilled(g: seq<seq<int>>, cells: seq<Pos>)
    requires Square9(g) && OnBoard(cells)
    requires forall p :: p in cells ==> g[p.1][p.0] != 0
    ensures CountEmpty(g, cells) == 0
  {
    if cells != [] {
      var prefix := cells[..|cells| - 1];
      assert forall p :: p in prefix ==> p in cells;
      assert cells[|cells| - 1] in cells;
      CountEmptyAllFilled(g, prefix);
    }
  }

  /** If `q` is the only empty one among distinct cells, exactly one cell counts as empty. */
  lemma {:induction false} CountEmptyOnlyOne(g: seq<seq<int>>, cells: seq<Pos>, q: Pos)
    requires Square9(g) && OnBoard(cells) && Distinct(cells)
    requires q in cells && g[q.1][q.0] == 0
    requires forall p :: p in cells && p != q ==> g[p.1][p.0] != 0
    ensures CountEmpty(g, cells) == 1
  {
    var prefix := cells[..|cells| - 1];
    var last := cells[|cells| - 1];
    assert cells == prefix + [last];
    assert forall p :: p in prefix ==> p in cells;
    if last == q {
      assert q !in prefix;
      CountEmptyAllFilled(g, prefix);
    } else {
      assert q in prefix;
      CountEmptyOnlyOne(g, prefix, q);
    }
  }

  /**
   * What an approved placement means for its cage (when the cage has a target):
   * `num` plus the cage's current sum stays within the target, and when (x, y)
   * is the cage's only empty cell, `num` is exactly the missing amount.
   */
  lemma PossibleRespectsCage(g: seq<seq<int>>, cg: seq<seq<Cage>>, x: nat, y: nat, num: int)
    requires Square9(g) && Square9(cg) && x < 9 && y < 9
    requires Possible(g, cg, x, y, num) && cg[y][x].sum > 0
    ensures num + SumOf(g, CageCells(cg, cg[y][x].index)) <= cg[y][x].sum
    ensures (forall p :: p in CageCells(cg, cg[y][x].index) && p != (x, y) ==> g[p.1][p.0] != 0) ==>
              num == cg[y][x].sum - SumOf(g, CageCells(cg, cg[y][x].index))
  {
    var cells := CageCells(cg, cg[y][x].index);
    if forall p :: p in cells && p != (x, y) ==> g[p.1][p.0] != 0 {
      assert (x, y) in cells;
      CountEmptyOnlyOne(g, cells, (x, y));
    }
  }

  /** Every row-prefix of a cage grid made of one cage holds all its cells. */
  lemma {:induction false} UniformRowCells(cg: seq<seq<Cage>>, c: Cage, y: nat, n: nat)
    requires Square9(cg) && y < 9 && n <= 9
    requires forall r, k :: 0 <= r < 9 && 0 <= k < 9 ==> cg[r][k] == c
    ensures |RowCageCells(cg, c.index, y, n)| == n
  {
    if n > 0 {
      UniformRowCells(cg, c, y, n - 1);
    }
  }

  lemma {:induction false} UniformCageCells(cg: seq<seq<Cage>>, c: Cage, m: nat)
    requires Square9(cg) && m <= 9
    requires forall r, k :: 0 <= r < 9 && 0 <= k < 9 ==> cg[r][k] == c
    ensures |CageCellsUpTo(cg, c.index, m)| == 9 * m
  {
    if m > 0 {
      UniformCageCells(cg, c, m - 1);
      UniformRowCells(cg, c, m - 1, 9);
    }
  }

  /**
   * The default board is one cage of all 81 cells with index 0 and sum 0, so
   * its cage check is always skipped.
   */
  lemma DefaultBoardIsOneCage(g: seq<seq<int>>, x: nat, y: nat, num: int)
    requires Square9(g) && x < 9 && y < 9
    ensures Square9(DefaultCages)
    ensures DefaultCages[y][x] == Cage(0, 0)
    ensures |CageCells(DefaultCages, DefaultCages[y][x].index)| == 81
    ensures CageAdmits(g, DefaultCages, x, y, num)
  {
    UniformCageCells(DefaultCages, DefaultCage, 9);
  }

  /** Two cage indices get the same colour exactly when they agree modulo 4. */
  lemma ColorOfResidue(i: nat, j: nat)
    ensures ColorOf(i) == ColorOf(j) <==> i % 4 == j % 4
  {
  }

  /** Every one of the four colours is used: `get_color` is onto. */
  lemma ColorOfOnto(c: CageColor)
    ensures exists k: nat :: k < 4 && ColorOf(k) == c
  {
    match c
    case Yellow => assert ColorOf(0) == Yellow;
    case Green => assert ColorOf(1) == Green;
    case Red => assert ColorOf(2) == Red;
    case Blue => assert ColorOf(3) == Blue;
  }

  /** A two-cell cage: its sum and its number of empty cells, written out. */
  lemma SumOfPair(g: seq<seq<int>>, a: Pos, b: Pos)
    requires Square9(g) && a.0 < 9 && a.1 < 9 && b.0 < 9 && b.1 < 9
    ensures SumOf(g, [a, b]) == g[a.1][a.0] + g[b.1][b.0]
    ensures CountEmpty(g, [a, b]) == (if g[a.1][a.0] == 0 then 1 else 0) + (if g[b.1][b.0] == 0 then 1 else 0)
  {
    assert [a, b][..1] == [a];
    assert [a][..0] == [];
    assert SumOf(g, [a]) == g[a.1][a.0];
    assert CountEmpty(g, [a]) == if g[a.1][a.0] == 0 then 1 else 0;
  }

  /** A value that appears nowhere in the grid appears in no row, column or box. */
  lemma AbsentEverywhere(g: seq<seq<int>>, x: nat, y: nat, num: int)
    requires Square9(g) && x < 9 && y < 9
    requires forall r, c :: 0 <= r < 9 && 0 <= c < 9 ==> g[r][c] != num
    ensures num !in g[y] && num !in Column(g, x) && num !in Box(g, x / 3 * 3, y / 3 * 3)
  {
    var b := Box(g, x / 3 * 3, y / 3 * 3);
    forall k | 0 <= k < 9 ensures b[k] != num {
      assert b[k] == g[y / 3 * 3 + k / 3][x / 3 * 3 + k % 3];
    }
  }

  // ---------------------------------------------------------------------
  // Counting: the scans as sets of cells

  /** The cells whose cage has this index, as a set: what `get_cage_size` counts. */
  ghost function CageSet(cg: seq<seq<Cage>>, index: nat): set<Pos>
    requires Square9(cg)
  {
    set x: nat, y: nat | x < 9 && y < 9 && cg[y][x].index == index :: (x, y)
  }

  /** The empty cells among the given ones, as a set: what `get_cage_size_left` counts. */
  ghost function EmptyAmong(g: seq<seq<int>>, cells: seq<Pos>): set<Pos>
    requires Square9(g) && OnBoard(cells)
  {
    set p | p in cells && g[p.1][p.0] == 0
  }

  /** A list without repetitions has as many elements as the set of its elements. */
  lemma {:induction false} DistinctCard(cells: seq<Pos>)
    requires Distinct(cells)
    ensures |set p | p in cells| == |cells|
  {
    if cells != [] {
      var prefix: seq<Pos>, last: Pos := cells[..|cells| - 1], cells[|cells| - 1];
      assert cells == prefix + [last];
      assert Distinct(prefix);
      assert last !in prefix;
      DistinctCard(prefix);
      assert (set p | p in cells) == (set p | p in prefix) + {last};
    }
  }

  /** The scan lists each cell of the cage once, so its length is the size of the cage. */
  lemma CageCellsCount(cg: seq<seq<Cage>>, index: nat)
    requires Square9(cg)
    ensures |CageCells(cg, index)| == |CageSet(cg, index)|
  {
    var cells := CageCells(cg, index);
    assert (set p | p in cells) == CageSet(cg, index);
    DistinctCard(cells);
  }

  /** Counting the empty cells of a list without repetitions counts the set of its empty cells. */
  lemma {:induction false} CountEmptyCard(g: seq<seq<int>>, cells: seq<Pos>)
    requires Square9(g) && OnBoard(cells) && Distinct(cells)
    ensures CountEmpty(g, cells) == |EmptyAmong(g, cells)|
  {
    if cells != [] {
      var prefix: seq<Pos>, last: Pos := cells[..|cells| - 1], cells[|cells| - 1];
      assert cells == prefix + [last];
      assert Distinct(prefix);
      assert last !in prefix;
      assert forall p :: p in prefix ==> p in cells;
      CountEmptyCard(g, prefix);
      if g[last.1][last.0] == 0 {
        assert EmptyAmong(g, cells) == EmptyAmong(g, prefix) + {last};
      } else {
        assert EmptyAmong(g, cells) == EmptyAmong(g, prefix);
      }
    }
  }

  // ---------------------------------------------------------------------
  // Consistency: what a sequence of approved placements keeps

  /** Two cells see each other: same row, same column or same 3x3 box. */
  predicate Peers(r1: nat, c1: nat, r2: nat, c2: nat)
  {
    r1 == r2 || c1 == c2 || (r1 / 3 == r2 / 3 && c1 / 3 == c2 / 3)
  }

  /** No filled cell shares its value with another cell of its row, column or box. */
  predicate NoConflicts(g: seq<seq<int>>)
    requires Square9(g)
  {
    forall r1, c1, r2, c2 ::
      0 <= r1 < 9 && 0 <= c1 < 9 && 0 <= r2 < 9 && 0 <= c2 < 9 &&
      (r1 != r2 || c1 != c2) && Peers(r1, c1, r2, c2) && g[r1][c1] != 0
      ==> g[r1][c1] != g[r2][c2]
  }

  /** Every cell holds 0 (empty) or a digit 1..9. */
  predicate InRange(g: seq<seq<int>>)
    requires Square9(g)
  {
    forall r, c :: 0 <= r < 9 && 0 <= c < 9 ==> 0 <= g[r][c] <= 9
  }

  /** No cell is empty. */
  predicate Full(g: seq<seq<int>>)
    requires Square9(g)
  {
    forall r, c :: 0 <= r < 9 && 0 <= c < 9 ==> g[r][c] != 0
  }

  /** A placement that `is_possible` approves keeps the grid free of conflicts. */
  lemma PossibleKeepsNoConflicts(g: seq<seq<int>>, cg: seq<seq<Cage>>, x: nat, y: nat, num: int)
    requires Square9(g) && Square9(cg) && x < 9 && y < 9
    requires NoConflicts(g) && Possible(g, cg, x, y, num)
    ensures NoConflicts(Write(g, x, y, num))
  {
    PossibleIff(g, cg, x, y, num);
    var w := Write(g, x, y, num);
    forall r1, c1, r2, c2 |
      0 <= r1 < 9 && 0 <= c1 < 9 && 0 <= r2 < 9 && 0 <= c2 < 9 &&
      (r1 != r2 || c1 != c2) && Peers(r1, c1, r2, c2) && w[r1][c1] != 0
      ensures w[r1][c1] != w[r2][c2]
    {
      if r1 == y && c1 == x && r2 != y && c2 != x {
        PeerInBox(r1, c1, r2, c2);
      } else if r2 == y && c2 == x && r1 != y && c1 != x {
        PeerInBox(r2, c2, r1, c1);
      }
    }
  }

  /** A peer outside the row and the column lies in the box. */
  lemma PeerInBox(r1: nat, c1: nat, r2: nat, c2: nat)
    requires Peers(r1, c1, r2, c2) && r1 != r2 && c1 != c2
    ensures r1 / 3 * 3 <= r2 < r1 / 3 * 3 + 3 && c1 / 3 * 3 <= c2 < c1 / 3 * 3 + 3
  {
  }

  /** In a list without repetitions every value occurs at most once. */
  lemma {:induction false} DistinctValuesOnce(s: seq<int>, v: int)
    requires forall i, j :: 0 <= i < j < |s| ==> s[i] != s[j]
    ensures multiset(s)[v] <= 1
  {
    if s != [] {
      var rest := s[1..];
      assert s == [s[0]] + rest;
      DistinctValuesOnce(rest, v);
      if v == s[0] {
        assert v !in rest;
      }
    }
  }

  /** Nine distinct digits 1..9 are a permutation of 1..9. */
  lemma DistinctDigitsArePermutation(s: seq<int>)
    requires |s| == 9 && forall k :: 0 <= k < 9 ==> 1 <= s[k] <= 9
    requires forall i, j :: 0 <= i < j < 9 ==> s[i] != s[j]
    ensures IsDigitPermutation(s)
  {
    var D, m := multiset{1, 2, 3, 4, 5, 6, 7, 8, 9}, multiset(s);
    forall v ensures m[v] <= D[v] {
      DistinctValuesOnce(s, v);
      if m[v] > 0 {
        assert v in s;
        assert v in Digits;
      }
    }
    assert |m| == |D|;
    SubMultisetOfSameSize(m, D);
  }

  /** A full grid of digits without conflicts is finished. */
  lemma FullConsistentIsFinished(g: seq<seq<int>>)
    requires Square9(g) && InRange(g) && Full(g) && NoConflicts(g)
    ensures Finished(g)
  {
    forall o | 0 <= o < 9 ensures UnitsComplete(g, o) {
      FullConsistentRow(g, o);
      FullConsistentColumn(g, o);
      FullConsistentBox(g, o);
    }
  }

  lemma NoConflictsAt(g: seq<seq<int>>, r1: nat, c1: nat, r2: nat, c2: nat)
    requires Square9(g) && NoConflicts(g) && r1 < 9 && c1 < 9 && r2 < 9 && c2 < 9
    requires (r1 != r2 || c1 != c2) && Peers(r1, c1, r2, c2) && g[r1][c1] != 0
    ensures g[r1][c1] != g[r2][c2]
  {
  }

  lemma FullConsistentRow(g: seq<seq<int>>, o: nat)
    requires Square9(g) && InRange(g) && Full(g) && NoConflicts(g) && o < 9
    ensures IsDigitPermutation(g[o])
  {
    forall i, j | 0 <= i < j < 9 ensures g[o][i] != g[o][j] {
      NoConflictsAt(g, o, i, o, j);
    }
    DistinctDigitsArePermutation(g[o]);
  }

  lemma FullConsistentColumn(g: seq<seq<int>>, o: nat)
    requires Square9(g) && InRange(g) && Full(g) && NoConflicts(g) && o < 9
    ensures IsDigitPermutation(Column(g, o))
  {
    var col := Column(g, o);
    forall i, j | 0 <= i < j < 9 ensures col[i] != col[j] {
      NoConflictsAt(g, i, o, j, o);
    }
    DistinctDigitsArePermutation(col);
  }

  lemma FullConsistentBox(g: seq<seq<int>>, o: nat)
    requires Square9(g) && InRange(g) && Full(g) && NoConflicts(g) && o < 9
    ensures IsDigitPermutation(Box(g, o % 3 * 3, o / 3 * 3))
  {
    var box := Box(g, o % 3 * 3, o / 3 * 3);
    forall i, j | 0 <= i < j < 9 ensures box[i] != box[j] {
      BoxCellsArePeers(o, i, j);
    }
    DistinctDigitsArePermutation(box);
  }

  /** Two different positions of box `o` are different cells that see each other. */
  lemma BoxCellsArePeers(o: nat, i: nat, j: nat)
    requires o < 9 && i < j < 9
    ensures var r1, c1, r2, c2 := o / 3 * 3 + i / 3, o % 3 * 3 + i % 3, o / 3 * 3 + j / 3, o % 3 * 3 + j % 3;
      (r1 != r2 || c1 != c2) && Peers(r1, c1, r2, c2)
  {
  }

  /** `h` keeps every filled cell of `g`. */
  predicate Extends(g: seq<seq<int>>, h: seq<seq<int>>)
    requires Square9(g) && Square9(h)
  {
    forall r, c :: 0 <= r < 9 && 0 <= c < 9 && g[r][c] != 0 ==> h[r][c] == g[r][c]
  }

  /** The empty cells of the grid. */
  ghost function EmptyCells(g: seq<seq<int>>): set<Pos>
    requires Square9(g)
  {
    set x: nat, y: nat | x < 9 && y < 9 && g[y][x] == 0 :: (x, y)
  }

  /** Filling an empty cell leaves one empty cell fewer. */
  lemma FillOneLess(g: seq<seq<int>>, x: nat, y: nat, num: int)
    requires Square9(g) && x < 9 && y < 9 && g[y][x] == 0 && num != 0
    ensures |EmptyCells(Write(g, x, y, num))| == |EmptyCells(g)| - 1
  {
    assert EmptyCells(Write(g, x, y, num)) == EmptyCells(g) - {(x, y)};
  }

  /** Cell (x, y) exists and is empty. */
  predicate EmptyAt(g: seq<seq<int>>, x: nat, y: nat)
  {
    y < |g| && x < |g[y]| && g[y][x] == 0
  }
}
