/**
 * Concrete moves on a field whose only tiles are in the top row, worked out
 * by the scan of move<Dir>. They show the behaviour of the code as written:
 * no merge guard, and `diff` counting a merge as one more step.
 */
module Scenarios {
  import opened Field
  import opened Moves

  /** The field whose top row is `top` and whose other rows are empty. */
  function TopRow(top: seq<nat>): (g: Grid)
    requires |top| == Size
    ensures IsGrid(g) && g[0] == top
    ensures forall r, c :: 1 <= r < Size && 0 <= c < Size ==> g[r][c] == Empty
  {
    [top, [Empty, Empty, Empty, Empty], [Empty, Empty, Empty, Empty], [Empty, Empty, Empty, Empty]]
  }

  /** Writing into the top row of such a field writes into `top`. */
  lemma SetTop(top: seq<nat>, c: nat, v: nat)
    requires |top| == Size && c < Size
    ensures Set(TopRow(top), 0, c, v) == TopRow(top[c := v])
  {
  }

  /** One mergeTiles step along the top row of such a field is a step on `top`. */
  lemma StepInTopRow(top: seq<nat>, d: Direction, c: nat)
    requires |top| == Size && c < Size && (d == Left || d == Right)
    ensures var c', s := c + DCol(d), Step(TopRow(top), d, 0, c);
            if !(0 <= c' < Size) || (top[c'] != Empty && top[c'] != top[c]) then s == (Blocked, TopRow(top))
            else if top[c'] == Empty then s == (Slid, TopRow(top[c' := top[c]][c := Empty]))
            else s == (Merged, TopRow(top[c' := top[c'] * 2][c := Empty]))
  {
    var c' := c + DCol(d);
    if 0 <= c' < Size && (top[c'] == Empty || top[c'] == top[c]) {
      var v := if top[c'] == Empty then top[c] else top[c'] * 2;
      SetTop(top, c', v);
      SetTop(top[c' := v], c, Empty);
    }
  }

  /** Once the scan reaches cells that are all empty, it changes nothing more. */
  lemma {:induction false} ScanSkips(g: Grid, a: Labels, d: Direction, n: nat, m: nat)
    requires IsGrid(g) && IsGrid(a) && n <= m <= Cells
    requires forall k :: n <= k < m ==> ScanPrefix(g, a, d, n).field[ScanCell(d, k).0][ScanCell(d, k).1] == Empty
    ensures ScanPrefix(g, a, d, m) == ScanPrefix(g, a, d, n)
  {
    if n < m {
      ScanSkips(g, a, d, n, m - 1);
      ScanPrefixNext(g, a, d, m - 1);
    }
  }

  /** Every cell of the scan after the top row lies below it. */
  lemma LowerRows(d: Direction, k: nat)
    requires d != Down && Size <= k < Cells
    ensures ScanCell(d, k).0 >= 1
  {
  }

  /** In [2, 2, 4, _] moved left, the second 2 merges at once into the first. */
  lemma LeftWalkSecond()
    ensures Walk(TopRow([2, 2, 4, Empty]), Left, 0, 1) == WalkResult(TopRow([4, Empty, 4, Empty]), 0, true)
  {
    StepInTopRow([2, 2, 4, Empty], Left, 1);
    assert [2, 2, 4, Empty][0 := 4][1 := Empty] == [4, Empty, 4, Empty];
    WalkStop(TopRow([2, 2, 4, Empty]), Left, 0, 1);
  }

  /** Then the 4 slides once and merges into the new 4. */
  lemma LeftWalkThird()
    ensures Walk(TopRow([4, Empty, 4, Empty]), Left, 0, 2) == WalkResult(TopRow([8, Empty, Empty, Empty]), 1, true)
  {
    StepInTopRow([4, Empty, 4, Empty], Left, 2);
    assert [4, Empty, 4, Empty][1 := 4][2 := Empty] == [4, 4, Empty, Empty];
    WalkRest(TopRow([4, Empty, 4, Empty]), Left, 0, 2);
    StepInTopRow([4, 4, Empty, Empty], Left, 1);
    assert [4, 4, Empty, Empty][0 := 8][1 := Empty] == [8, Empty, Empty, Empty];
    WalkStop(TopRow([4, 4, Empty, Empty]), Left, 0, 1);
  }

  /**
   * No merge guard: moving the row [2, 2, 4, _] left merges the two 2s into a
   * 4 and then the 4 behind into that new tile, giving [8, _, _, _]. The
   * labels are moveLeft-1 at the second cell and moveLeft-2 at the third.
   */
  lemma DoubleMergeLeft(a: Labels)
    requires IsGrid(a)
    ensures var s := Resolve(TopRow([2, 2, 4, Empty]), a, Left);
            s.field == TopRow([8, Empty, Empty, Empty]) && s.moved
            && s.anims == a[0 := a[0][1 := MoveLabel(Left, 1)][2 := MoveLabel(Left, 2)]]
  {
    var g := TopRow([2, 2, 4, Empty]);
    // the first 2 stands at the edge
    StepInTopRow([2, 2, 4, Empty], Left, 0);
    WalkStop(g, Left, 0, 0);
    ScanPrefixNext(g, a, Left, 0);
    // the second 2 merges into it
    LeftWalkSecond();
    ScanPrefixNext(g, a, Left, 1);
    var g1, a1 := TopRow([4, Empty, 4, Empty]), a[0 := a[0][1 := MoveLabel(Left, 1)]];
    assert ScanPrefix(g, a, Left, 2) == ScanState(g1, a1, true);
    // the 4 slides next to the new 4 and merges into it
    LeftWalkThird();
    ScanPrefixNext(g, a, Left, 2);
    var g3 := TopRow([8, Empty, Empty, Empty]);
    assert ScanPrefix(g, a, Left, 3) == ScanState(g3, a1[0 := a1[0][2 := MoveLabel(Left, 2)]], true);
    // nothing else is left to move
    forall k | 3 <= k < Cells
      ensures g3[ScanCell(Left, k).0][ScanCell(Left, k).1] == Empty
    {
      if k >= Size {
        LowerRows(Left, k);
      }
    }
    ScanSkips(g, a, Left, 3, Cells);
  }

  /** In [2, _, 2, _] moved right, the second 2 slides to the edge. */
  lemma RightWalkThird()
    ensures Walk(TopRow([2, Empty, 2, Empty]), Right, 0, 2) == WalkResult(TopRow([2, Empty, Empty, 2]), 1, false)
  {
    StepInTopRow([2, Empty, 2, Empty], Right, 2);
    assert [2, Empty, 2, Empty][3 := 2][2 := Empty] == [2, Empty, Empty, 2];
    WalkRest(TopRow([2, Empty, 2, Empty]), Right, 0, 2);
    StepInTopRow([2, Empty, Empty, 2], Right, 3);
    WalkStop(TopRow([2, Empty, Empty, 2]), Right, 0, 3);
  }

  /** Then the first 2 slides twice and merges into it at the edge. */
  lemma RightWalkFirst()
    ensures Walk(TopRow([2, Empty, Empty, 2]), Right, 0, 0) == WalkResult(TopRow([Empty, Empty, Empty, 4]), 2, true)
  {
    StepInTopRow([2, Empty, Empty, 2], Right, 0);
    assert [2, Empty, Empty, 2][1 := 2][0 := Empty] == [Empty, 2, Empty, 2];
    WalkRest(TopRow([2, Empty, Empty, 2]), Right, 0, 0);
    StepInTopRow([Empty, 2, Empty, 2], Right, 1);
    assert [Empty, 2, Empty, 2][2 := 2][1 := Empty] == [Empty, Empty, 2, 2];
    WalkRest(TopRow([Empty, 2, Empty, 2]), Right, 0, 1);
    StepInTopRow([Empty, Empty, 2, 2], Right, 2);
    assert [Empty, Empty, 2, 2][3 := 4][2 := Empty] == [Empty, Empty, Empty, 4];
    WalkStop(TopRow([Empty, Empty, 2, 2]), Right, 0, 2);
  }

  /**
   * Moving the row [2, _, 2, _] right slides the second 2 one cell to the
   * edge and the first 2 two cells and into it, giving [_, _, _, 4] with the
   * labels moveRight-1 at the third cell and moveRight-3 at the first.
   */
  lemma SlideAndMergeRight(a: Labels)
    requires IsGrid(a)
    ensures var s := Resolve(TopRow([2, Empty, 2, Empty]), a, Right);
            s.field == TopRow([Empty, Empty, Empty, 4]) && s.moved
            && s.anims == a[0 := a[0][2 := MoveLabel(Right, 1)][0 := MoveLabel(Right, 3)]]
  {
    var g := TopRow([2, Empty, 2, Empty]);
    // the right edge is empty
    ScanPrefixNext(g, a, Right, 0);
    // the second 2 slides to the edge
    RightWalkThird();
    ScanPrefixNext(g, a, Right, 1);
    var g1, a1 := TopRow([2, Empty, Empty, 2]), a[0 := a[0][2 := MoveLabel(Right, 1)]];
    assert ScanPrefix(g, a, Right, 2) == ScanState(g1, a1, true);
    // the cell it left is empty now
    ScanPrefixNext(g, a, Right, 2);
    // the first 2 slides twice and merges at the edge
    RightWalkFirst();
    ScanPrefixNext(g, a, Right, 3);
    var g4 := TopRow([Empty, Empty, Empty, 4]);
    assert ScanPrefix(g, a, Right, 4) == ScanState(g4, a1[0 := a1[0][0 := MoveLabel(Right, 3)]], true);
    // nothing else is left to move
    forall k | 4 <= k < Cells
      ensures g4[ScanCell(Right, k).0][ScanCell(Right, k).1] == Empty
    {
      LowerRows(Right, k);
    }
    ScanSkips(g, a, Right, 4, Cells);
  }
}
