/**
 * The hard-coded sample puzzle of `Board::sample_puzzle` (src/data/board.rs),
 * a 29-cage Killer Sudoku with its solution, and the grid of the
 * `check_is_finished` test, with the facts the source's tests assert of them.
 */
module Fixtures {
  import opened Cages
  import opened Grid

  const Cage1: Cage := Cage(1, 3)
  const Cage2: Cage := Cage(2, 15)
  const Cage3: Cage := Cage(3, 22)
  const Cage4: Cage := Cage(4, 4)
  const Cage5: Cage := Cage(5, 16)
  const Cage6: Cage := Cage(6, 15)
  const Cage7: Cage := Cage(7, 25)
  const Cage8: Cage := Cage(8, 17)
  const Cage9: Cage := Cage(9, 9)
  const Cage10: Cage := Cage(10, 8)
  const Cage11: Cage := Cage(11, 20)
  const Cage12: Cage := Cage(12, 6)
  const Cage13: Cage := Cage(13, 14)
  const Cage14: Cage := Cage(14, 17)
  const Cage15: Cage := Cage(15, 17)
  const Cage16: Cage := Cage(16, 13)
  const Cage17: Cage := Cage(17, 20)
  const Cage18: Cage := Cage(18, 12)
  const Cage19: Cage := Cage(19, 27)
  const Cage20: Cage := Cage(20, 6)
  const Cage21: Cage := Cage(21, 20)
  const Cage22: Cage := Cage(22, 6)
  const Cage23: Cage := Cage(23, 10)
  const Cage24: Cage := Cage(24, 14)
  const Cage25: Cage := Cage(25, 8)
  const Cage26: Cage := Cage(26, 16)
  const Cage27: Cage := Cage(27, 15)
  const Cage28: Cage := Cage(28, 13)
  const Cage29: Cage := Cage(29, 17)

  /** `cage_grid` of the sample puzzle, row by row. */
  function SampleCages(): seq<seq<Cage>>
  {
    [
      [Cage1, Cage1, Cage2, Cage2, Cage2, Cage3, Cage4, Cage5, Cage6],
      [Cage7, Cage7, Cage8, Cage8, Cage3, Cage3, Cage4, Cage5, Cage6],
      [Cage7, Cage7, Cage9, Cage9, Cage3, Cage10, Cage11, Cage11, Cage6],
      [Cage12, Cage13, Cage13, Cage9, Cage14, Cage10, Cage11, Cage15, Cage6],
      [Cage12, Cage16, Cage16, Cage17, Cage14, Cage10, Cage15, Cage15, Cage18],
      [Cage19, Cage16, Cage20, Cage17, Cage14, Cage21, Cage22, Cage22, Cage18],
      [Cage19, Cage20, Cage20, Cage17, Cage23, Cage21, Cage21, Cage24, Cage24],
      [Cage19, Cage25, Cage26, Cage23, Cage23, Cage27, Cage27, Cage24, Cage24],
      [Cage19, Cage25, Cage26, Cage23, Cage28, Cage28, Cage28, Cage29, Cage29]
    ]
  }

  /** `solved_grid` of the sample puzzle. */
  function SampleSolution(): seq<seq<int>>
  {
    [
      [2, 1, 5, 6, 4, 7, 3, 9, 8],
      [3, 6, 8, 9, 5, 2, 1, 7, 4],
      [7, 9, 4, 3, 8, 1, 6, 5, 2],
      [5, 8, 6, 2, 7, 4, 9, 3, 1],
      [1, 4, 2, 5, 9, 3, 8, 6, 7],
      [9, 7, 3, 8, 1, 6, 4, 2, 5],
      [8, 2, 1, 7, 3, 9, 5, 4, 6],
      [6, 5, 9, 4, 2, 8, 7, 1, 3],
      [4, 3, 7, 1, 6, 5, 2, 8, 9]
    ]
  }

  /** The sample's grids are nine by nine. */
  lemma SampleShapes()
    ensures Square9(SampleCages()) && Square9(SampleSolution())
  {
  }

  /** `vec1.rotate_right(k)`: every entry moves k places to the right, the last k wrapping round to the front. */
  function RotateRight(s: seq<int>, k: nat): (r: seq<int>)
    requires k <= |s|
    ensures |r| == |s| && forall i :: 0 <= i < |s| ==> r[(i + k) % |s|] == s[i]
  {
    var r := s[|s| - k..] + s[..|s| - k];
    forall i | 0 <= i < |s|
      ensures r[(i + k) % |s|] == s[i]
    {
      WrapOnce(i + k, |s|);
    }
    r
  }

  /** A position at most one lap past the end wraps round once. */
  lemma WrapOnce(a: nat, n: nat)
    requires 0 < n && a < 2 * n
    ensures a % n == if a < n then a else a - n
  {
    if a < n {
      assert a == 0 * n + a;
    } else {
      assert a == 1 * n + (a - n);
    }
  }

  /** The grid that the `check_is_finished` test assigns to a default board. */
  function RotationGrid(): (g: seq<seq<int>>)
  {
    var vec1 := [1, 2, 3, 4, 5, 6, 7, 8, 9];
    var vec3 := RotateRight(vec1, 3);
    var vec2 := RotateRight(vec3, 3);
    var vec9 := RotateRight(vec1, 1);
    var vec8 := RotateRight(vec9, 3);
    var vec7 := RotateRight(vec8, 3);
    var vec4 := RotateRight(vec7, 1);
    var vec6 := RotateRight(vec4, 3);
    var vec5 := RotateRight(vec6, 3);
    [vec1, vec2, vec3, vec4, vec5, vec6, vec7, vec8, vec9]
  }

  /** Row by row, the sample's first cage (index 1, sum 3) occupies (0, 0) and (1, 0) and nothing else. */
  lemma SampleFirstCageRows0()
    ensures Square9(SampleCages())
    ensures RowCageCells(SampleCages(), 1, 0, 9) == [(0, 0), (1, 0)]
    ensures RowCageCells(SampleCages(), 1, 1, 9) == []
    ensures RowCageCells(SampleCages(), 1, 2, 9) == []
  {
  }

  lemma SampleFirstCageRows3()
    ensures Square9(SampleCages())
    ensures RowCageCells(SampleCages(), 1, 3, 9) == []
    ensures RowCageCells(SampleCages(), 1, 4, 9) == []
    ensures RowCageCells(SampleCages(), 1, 5, 9) == []
  {
  }

  lemma SampleFirstCageRows6()
    ensures Square9(SampleCages())
    ensures RowCageCells(SampleCages(), 1, 6, 9) == []
    ensures RowCageCells(SampleCages(), 1, 7, 9) == []
    ensures RowCageCells(SampleCages(), 1, 8, 9) == []
  {
  }

  /** The cells of the sample's first cage are (0, 0) and (1, 0). */
  lemma SampleFirstCage()
    ensures Square9(SampleCages())
    ensures CageCells(SampleCages(), 1) == [(0, 0), (1, 0)]
  {
    SampleFirstCageRows0();
    SampleFirstCageRows3();
    SampleFirstCageRows6();
  }

  /** `check_killer_sudoku`, first assertion: on the empty sample puzzle 2 is possible at (0, 0). */
  lemma SampleTwoAtOrigin(cg: seq<seq<Cage>>, g: seq<seq<int>>)
    requires cg == SampleCages() && Square9(g)
    requires forall r, c :: 0 <= r < 9 && 0 <= c < 9 ==> g[r][c] == 0
    ensures Square9(cg)
    ensures Possible(g, cg, 0, 0, 2)
  {
    SampleFirstCage();
    assert cg[0][0] == Cage1;
    SumOfPair(g, (0, 0), (1, 0));
    AbsentEverywhere(g, 0, 0, 2);
  }

  /** After 2 is written at (0, 0), the cage of sum 3 admits 1 at (1, 0) ... */
  lemma SampleOneBesideIt(cg: seq<seq<Cage>>, g: seq<seq<int>>)
    requires cg == SampleCages() && g == Write(EmptyGrid, 0, 0, 2)
    ensures Square9(cg) && Square9(g)
    ensures Possible(g, cg, 1, 0, 1)
  {
    SampleFirstCage();
    assert cg[0][1] == Cage1;
    assert forall r, c :: 0 <= r < 9 && 0 <= c < 9 ==> g[r][c] == if r == 0 && c == 0 then 2 else 0;
    SumOfPair(g, (0, 0), (1, 0));
    AbsentEverywhere(g, 1, 0, 1);
  }

  /** ... and rejects 9 there, since 2 + 9 exceeds the cage's sum. */
  lemma SampleNineBesideIt(cg: seq<seq<Cage>>, g: seq<seq<int>>)
    requires cg == SampleCages() && g == Write(EmptyGrid, 0, 0, 2)
    ensures Square9(cg) && Square9(g)
    ensures !Possible(g, cg, 1, 0, 9)
  {
    SampleFirstCage();
    assert cg[0][1] == Cage1;
    assert g[0][0] == 2 && g[0][1] == 0;
    SumOfPair(g, (0, 0), (1, 0));
  }

  /** The rows of the `check_is_finished` grid, written out. */
  const RotationRows: seq<seq<int>> := [
    [1, 2, 3, 4, 5, 6, 7, 8, 9],
    [4, 5, 6, 7, 8, 9, 1, 2, 3],
    [7, 8, 9, 1, 2, 3, 4, 5, 6],
    [2, 3, 4, 5, 6, 7, 8, 9, 1],
    [5, 6, 7, 8, 9, 1, 2, 3, 4],
    [8, 9, 1, 2, 3, 4, 5, 6, 7],
    [3, 4, 5, 6, 7, 8, 9, 1, 2],
    [6, 7, 8, 9, 1, 2, 3, 4, 5],
    [9, 1, 2, 3, 4, 5, 6, 7, 8]]

  /** `vec3` and `vec2`: the first row turned right by three, then by three again. */
  lemma RotationVec3Vec2()
    ensures RotateRight([1, 2, 3, 4, 5, 6, 7, 8, 9], 3) == RotationRows[2]
    ensures RotateRight(RotationRows[2], 3) == RotationRows[1]
  {
  }

  /** `vec9`, `vec8`, `vec7`: the first row turned right by one, then twice by three. */
  lemma RotationVec9To7()
    ensures RotateRight([1, 2, 3, 4, 5, 6, 7, 8, 9], 1) == RotationRows[8]
    ensures RotateRight(RotationRows[8], 3) == RotationRows[7]
    ensures RotateRight(RotationRows[7], 3) == RotationRows[6]
  {
  }

  /** `vec4`: `vec7` turned right by one. */
  lemma RotationVec4()
    ensures RotateRight(RotationRows[6], 1) == RotationRows[3]
  {
  }

  /** `vec6` and `vec5`: `vec4` turned right by three, then by three again. */
  lemma RotationVec6Vec5()
    ensures RotateRight(RotationRows[3], 3) == RotationRows[5]
    ensures RotateRight(RotationRows[5], 3) == RotationRows[4]
  {
  }

  /** The rotations of the test build exactly these rows. */
  lemma RotationGridRows()
    ensures RotationGrid() == RotationRows
  {
    RotationVec3Vec2();
    RotationVec9To7();
    RotationVec4();
    RotationVec6Vec5();
  }

  /** Every row of the test grid holds each digit once ... */
  lemma RotationRowsComplete(g: seq<seq<int>>)
    requires g == RotationRows
    ensures Square9(g) && forall o :: 0 <= o < 9 ==> IsDigitPermutation(g[o])
  {
    forall o | 0 <= o < 9 ensures IsDigitPermutation(g[o]) {
      AllDigitsIsDigitPermutation(g[o]);
    }
  }

  /** ... so does every column ... */
  lemma RotationColumnsComplete(g: seq<seq<int>>)
    requires g == RotationRows
    ensures Square9(g) && forall o :: 0 <= o < 9 ==> IsDigitPermutation(Column(g, o))
  {
    forall o | 0 <= o < 9 ensures IsDigitPermutation(Column(g, o)) {
      if o == 0 {
        assert Column(g, o) == [1, 4, 7, 2, 5, 8, 3, 6, 9];
      } else if o == 1 {
        assert Column(g, o) == [2, 5, 8, 3, 6, 9, 4, 7, 1];
      } else if o == 2 {
        assert Column(g, o) == [3, 6, 9, 4, 7, 1, 5, 8, 2];
      } else if o == 3 {
        assert Column(g, o) == [4, 7, 1, 5, 8, 2, 6, 9, 3];
      } else if o == 4 {
        assert Column(g, o) == [5, 8, 2, 6, 9, 3, 7, 1, 4];
      } else if o == 5 {
        assert Column(g, o) == [6, 9, 3, 7, 1, 4, 8, 2, 5];
      } else if o == 6 {
        assert Column(g, o) == [7, 1, 4, 8, 2, 5, 9, 3, 6];
      } else if o == 7 {
        assert Column(g, o) == [8, 2, 5, 9, 3, 6, 1, 4, 7];
      } else {
        assert Column(g, o) == [9, 3, 6, 1, 4, 7, 2, 5, 8];
      }
      AllDigitsIsDigitPermutation(Column(g, o));
    }
  }

  /** ... and every box, band by band. */
  lemma RotationBoxesTop(g: seq<seq<int>>)
    requires g == RotationRows
    ensures Square9(g) && forall o :: 0 <= o < 3 ==> IsDigitPermutation(Box(g, o % 3 * 3, o / 3 * 3))
  {
    forall o | 0 <= o < 3 ensures IsDigitPermutation(Box(g, o % 3 * 3, o / 3 * 3)) {
      if o == 0 {
        assert Box(g, 0, 0) == [1, 2, 3, 4, 5, 6, 7, 8, 9];
      } else if o == 1 {
        assert Box(g, 3, 0) == [4, 5, 6, 7, 8, 9, 1, 2, 3];
      } else {
        assert Box(g, 6, 0) == [7, 8, 9, 1, 2, 3, 4, 5, 6];
      }
      AllDigitsIsDigitPermutation(Box(g, o % 3 * 3, o / 3 * 3));
    }
  }

  lemma RotationBoxesMiddle(g: seq<seq<int>>)
    requires g == RotationRows
    ensures Square9(g) && forall o :: 3 <= o < 6 ==> IsDigitPermutation(Box(g, o % 3 * 3, o / 3 * 3))
  {
    forall o | 3 <= o < 6 ensures IsDigitPermutation(Box(g, o % 3 * 3, o / 3 * 3)) {
      if o == 3 {
        assert Box(g, 0, 3) == [2, 3, 4, 5, 6, 7, 8, 9, 1];
      } else if o == 4 {
        assert Box(g, 3, 3) == [5, 6, 7, 8, 9, 1, 2, 3, 4];
      } else {
        assert Box(g, 6, 3) == [8, 9, 1, 2, 3, 4, 5, 6, 7];
      }
      AllDigitsIsDigitPermutation(Box(g, o % 3 * 3, o / 3 * 3));
    }
  }

  lemma RotationBoxesBottom(g: seq<seq<int>>)
    requires g == RotationRows
    ensures Square9(g) && forall o :: 6 <= o < 9 ==> IsDigitPermutation(Box(g, o % 3 * 3, o / 3 * 3))
  {
    forall o | 6 <= o < 9 ensures IsDigitPermutation(Box(g, o % 3 * 3, o / 3 * 3)) {
      if o == 6 {
        assert Box(g, 0, 6) == [3, 4, 5, 6, 7, 8, 9, 1, 2];
      } else if o == 7 {
        assert Box(g, 3, 6) == [6, 7, 8, 9, 1, 2, 3, 4, 5];
      } else {
        assert Box(g, 6, 6) == [9, 1, 2, 3, 4, 5, 6, 7, 8];
      }
      AllDigitsIsDigitPermutation(Box(g, o % 3 * 3, o / 3 * 3));
    }
  }

  /** The `check_is_finished` test: the grid of rotated rows is finished. */
  lemma RotationFinished()
    ensures Square9(RotationGrid()) && Finished(RotationGrid())
  {
    RotationGridRows();
    var g := RotationGrid();
    RotationRowsComplete(g);
    RotationColumnsComplete(g);
    RotationBoxesTop(g);
    RotationBoxesMiddle(g);
    RotationBoxesBottom(g);
  }
}
