/**
 * FieldComponent (field.component.ts:29-293) without its Angular wiring: the
 * `field` and `animations` matrices and the methods that update them in place,
 * each proved to compute the functions of modules Moves and Spawn.
 */
module Component {
  import opened Field
  import opened Moves
  import opened Spawn

  /** The `animations` matrix as resetAnimations leaves it: 'base' everywhere. */
  function AllBase(): (a: Labels)
    ensures IsGrid(a)
    ensures forall r, c :: 0 <= r < Size && 0 <= c < Size ==> a[r][c] == BaseLabel
  {
    seq(Size, _ => seq(Size, _ => BaseLabel))
  }

  /**
   * The field and the labels after move<d>: the scan, and then a spawn if and
   * only if the scan set `moved`.
   */
  function Played(g: Grid, a: Labels, d: Direction, rndValue: real, rndCell: real): (p: (Grid, Labels))
    requires ValidGrid(g) && IsGrid(a)
    requires 0.0 <= rndValue < 1.0 && 0.0 <= rndCell < 1.0
    ensures ValidGrid(p.0) && IsGrid(p.1)
  {
    var s := Resolve(g, a, d);
    if s.moved then
      SpawnedFillsOneEmptyCell(s.field, rndValue, rndCell);
      (Spawned(s.field, rndValue, rndCell), s.anims)
    else
      (s.field, s.anims)
  }

  /** A move that moved no tile changes neither the field nor the labels, and spawns nothing. */
  lemma PlayedNoOp(g: Grid, a: Labels, d: Direction, rndValue: real, rndCell: real)
    requires ValidGrid(g) && IsGrid(a)
    requires 0.0 <= rndValue < 1.0 && 0.0 <= rndCell < 1.0
    requires !Resolve(g, a, d).moved
    ensures Played(g, a, d, rndValue, rndCell) == (g, a)
  {
    ResolveNoOp(g, a, d);
  }

  /**
   * A move that moved a tile adds exactly one tile to the resolved field, in a
   * cell the scan left empty; the sum of the tile values grows by exactly the
   * spawned value.
   */
  lemma PlayedSpawnsOne(g: Grid, a: Labels, d: Direction, rndValue: real, rndCell: real)
    requires ValidGrid(g) && IsGrid(a)
    requires 0.0 <= rndValue < 1.0 && 0.0 <= rndCell < 1.0
    requires Resolve(g, a, d).moved
    ensures var s := Resolve(g, a, d);
            var p := Played(g, a, d, rndValue, rndCell);
            var (r, c) := SpawnCell(s.field, rndCell);
            s.field[r][c] == Empty && p.0[r][c] == SpawnValueFor(s.field, rndValue)
            && (forall i, j :: 0 <= i < Size && 0 <= j < Size && (i != r || j != c) ==> p.0[i][j] == s.field[i][j])
            && Tiles(p.0) == Tiles(s.field) + 1 && Tiles(p.0) <= Tiles(g) + 1
            && Sum(p.0, Whole) == Sum(g, Whole) + SpawnValueFor(s.field, rndValue)
            && p.1 == s.anims
  {
    var s := Resolve(g, a, d);
    ResolveConserves(g, a, d, Whole);
    SpawnedFillsOneEmptyCell(s.field, rndValue, rndCell);
  }

  /** The loops of fillRandom that gather the empty cells and the largest tile (field.component.ts:79-89). */
  method GatherEmpties(g: Grid) returns (empties: seq<(nat, nat)>, max: nat)
    requires IsGrid(g)
    ensures empties == EmptyCells(g) && max == MaxTile(g)
  {
    empties := [];
    max := Base;
    var rowIndex := 0;
    while rowIndex < Size
      invariant 0 <= rowIndex <= Size
      invariant empties == EmptiesTo(g, CellIndex(rowIndex, 0)) && max == MaxTo(g, CellIndex(rowIndex, 0))
    {
      var tileIndex := 0;
      while tileIndex < Size
        invariant 0 <= tileIndex <= Size
        invariant empties == EmptiesTo(g, CellIndex(rowIndex, tileIndex))
        invariant max == MaxTo(g, CellIndex(rowIndex, tileIndex))
      {
        RowMajor(rowIndex, tileIndex);
        var tile := g[rowIndex][tileIndex];
        if tile == Empty {
          empties := empties + [(rowIndex, tileIndex)];
        } else if tile > max {
          max := tile;
        }
        tileIndex := tileIndex + 1;
      }
      assert CellIndex(rowIndex, Size) == CellIndex(rowIndex + 1, 0);
      rowIndex := rowIndex + 1;
    }
  }

  /** The loop of fillRandom that builds the value `stack` (field.component.ts:98-104). */
  method BuildStack(max: nat) returns (stack: seq<nat>)
    ensures stack == SpawnStack(max)
  {
    var current: nat := Base;
    stack := [];
    // `current <= end` with `end = max / baseValue ** baseValue`, divided as reals
    while current * Threshold <= max
      invariant current >= 1
      invariant stack + StackFrom(current, max) == SpawnStack(max)
      decreases max - current
    {
      StackFromNext(current, max);
      stack := stack + [current];
      current := current * Base;
    }
  }

  /** clone (field.component.ts:284-290): a copy of the matrix, row by row. */
  method Clone<T>(state: seq<seq<T>>) returns (copy: seq<seq<T>>)
    ensures copy == state
  {
    copy := [];
    var i := 0;
    while i < |state|
      invariant 0 <= i <= |state|
      invariant copy == state[..i]
    {
      copy := copy + [state[i][..]];
      i := i + 1;
    }
  }

  class FieldComponent {
    /** The tiles; Empty stands for `null`. */
    var field: Grid
    /** The animation label of every cell. */
    var animations: Labels

    ghost predicate Valid()
      reads this
    {
      ValidGrid(field) && IsGrid(animations)
    }

    /** A new component: every cell empty (field.component.ts:50). */
    constructor ()
      ensures Valid() && field == EmptyGrid() && animations == AllBase()
    {
      field := EmptyGrid();
      animations := AllBase();
    }

    /**
     * ngOnInit without its logging and rendering: reset the labels, then spawn
     * a tile; gameOver reports the full field on which fillRandom stops.
     */
    method OnInit(rndValue: real, rndCell: real) returns (gameOver: bool)
      requires Valid()
      requires 0.0 <= rndValue < 1.0 && 0.0 <= rndCell < 1.0
      modifies this
      ensures Valid() && animations == AllBase()
      ensures gameOver <==> |EmptyCells(old(field))| == 0
      ensures field == if gameOver then old(field) else Spawned(old(field), rndValue, rndCell)
    {
      ResetAnimations();
      gameOver := FillRandom(rndValue, rndCell);
    }

    /** fill: put a Base tile at (x, y). */
    method Fill(x: nat, y: nat)
      requires Valid() && InBounds(x, y)
      modifies this`field
      ensures Valid() && field == Set(old(field), x, y, Base)
    {
      field := Set(field, x, y, Base);
    }

    method ResetAnimations()
      modifies this`animations
      ensures animations == AllBase()
    {
      animations := AllBase();
    }

    /**
     * fillRandom: gather the empty cells and the largest tile, pick the value
     * (Base, or a draw from the stack once the largest tile passes Threshold)
     * and write it into a drawn empty cell. On a full field the source raises
     * its 'Game over!' alert and then fails reading the coordinates of a
     * missing cell, before writing anything: that is gameOver, with the field
     * unchanged.
     */
    method FillRandom(rndValue: real, rndCell: real) returns (gameOver: bool)
      requires Valid()
      requires 0.0 <= rndValue < 1.0 && 0.0 <= rndCell < 1.0
      modifies this`field
      ensures Valid()
      ensures gameOver <==> |EmptyCells(old(field))| == 0
      ensures field == if gameOver then old(field) else Spawned(old(field), rndValue, rndCell)
    {
      var empties, max := GatherEmpties(field);
      var value := Base;
      if max > Threshold {
        var stack := BuildStack(max);
        MaxTileIsTile(field);
        StackNonEmpty(max);
        value := stack[RandomIndex(rndValue, |stack|)];
      }
      if |empties| == 0 {
        return true;
      }
      var coords := empties[RandomIndex(rndCell, |empties|)];
      assert coords == SpawnCell(field, rndCell);
      SpawnedFillsOneEmptyCell(field, rndValue, rndCell);
      field := Set(field, coords.0, coords.1, value);
      gameOver := false;
    }

    /**
     * mergeTiles: one step of the tile at (rowIndex, tileIndex) towards its
     * neighbour in the given direction.
     */
    method MergeTiles(rowIndex: nat, tileIndex: nat, direction: Direction) returns (result: MergeResult)
      requires Valid() && InBounds(rowIndex, tileIndex)
      modifies this`field
      ensures Valid()
      ensures result == Step(old(field), direction, rowIndex, tileIndex).0
      ensures field == Step(old(field), direction, rowIndex, tileIndex).1
    {
      StepValid(field, direction, rowIndex, tileIndex);
      var tileValue := field[rowIndex][tileIndex];
      var destRowIndex := if direction == Up then rowIndex - 1 else if direction == Down then rowIndex + 1 else rowIndex;
      var destTileIndex := if direction == Left then tileIndex - 1 else if direction == Right then tileIndex + 1 else tileIndex;
      if destRowIndex >= 0 && destRowIndex < Size && destTileIndex >= 0 && destTileIndex < Size {
        if field[destRowIndex][destTileIndex] == Empty {
          field := Set(field, destRowIndex, destTileIndex, tileValue);
          field := Set(field, rowIndex, tileIndex, Empty);
          return Slid;
        } else if field[destRowIndex][destTileIndex] == tileValue {
          field := Set(field, destRowIndex, destTileIndex, field[destRowIndex][destTileIndex] * 2);
          field := Set(field, rowIndex, tileIndex, Empty);
          return Merged;
        } else {
          return Blocked;
        }
      } else {
        return Blocked;
      }
    }

    /**
     * The `searchIndex` loop of move<Dir> for the occupied cell (rowIndex,
     * tileIndex): call mergeTiles on the tile's current cell until it does not
     * slide, and return the displacement `diff` computed at the `break`.
     */
    method WalkTile(rowIndex: nat, tileIndex: nat, direction: Direction) returns (diff: nat)
      requires Valid() && InBounds(rowIndex, tileIndex)
      modifies this`field
      ensures Valid()
      ensures var w := Walk(old(field), direction, rowIndex, tileIndex);
              field == w.field && diff == Diff(w)
    {
      var searchRow: int, searchCol: int := rowIndex, tileIndex;
      var steps := 0;
      while InBounds(searchRow, searchCol)
        invariant InBounds(searchRow, searchCol) && Valid()
        invariant WalkSuffix(old(field), direction, rowIndex, tileIndex, field, searchRow, searchCol, steps)
        decreases Dist(direction, searchRow, searchCol)
      {
        StepTarget(direction, searchRow, searchCol);
        if Step(field, direction, searchRow, searchCol).0 == Slid {
          WalkSuffixNext(old(field), direction, rowIndex, tileIndex, field, searchRow, searchCol, steps);
        } else {
          WalkSuffixEnd(old(field), direction, rowIndex, tileIndex, field, searchRow, searchCol, steps);
        }
        var mergeResult := MergeTiles(searchRow, searchCol, direction);
        if mergeResult != Slid {
          diff := if mergeResult == Merged then steps + 1 else steps;
          return;
        }
        searchRow, searchCol := searchRow + DRow(direction), searchCol + DCol(direction);
        steps := steps + 1;
      }
      assert false;
    }

    /**
     * The body of the inner loop of move<Dir> for the cell (rowIndex, tileIndex):
     * walk an occupied cell's tile, and record a non-zero displacement as the
     * cell's label and in `moved`.
     */
    method VisitCell(rowIndex: nat, tileIndex: nat, direction: Direction, moved: bool) returns (moved': bool)
      requires Valid() && InBounds(rowIndex, tileIndex)
      modifies this
      ensures Valid()
      ensures ScanState(field, animations, moved')
              == Visit(ScanState(old(field), old(animations), moved), direction, rowIndex, tileIndex)
    {
      moved' := moved;
      if field[rowIndex][tileIndex] != Empty {
        var diff := WalkTile(rowIndex, tileIndex, direction);
        if diff != 0 {
          moved' := true;
          animations := animations[rowIndex := animations[rowIndex][tileIndex := MoveLabel(direction, diff)]];
        }
      }
    }

    /**
     * The two loops of move<Dir>: visit the cells rows outer, columns inner
     * (rows bottom to top for Down, columns right to left for Right) and
     * report whether any tile moved.
     */
    method Scan(direction: Direction) returns (moved: bool)
      requires Valid()
      modifies this
      ensures Valid()
      ensures ScanState(field, animations, moved) == Resolve(old(field), old(animations), direction)
    {
      ghost var g0, a0 := field, animations;
      ghost var n := 0;
      moved := false;
      var i := 0;
      while i < Size
        invariant 0 <= i <= Size && n == CellIndex(i, 0) && n <= Cells
        invariant Valid()
        invariant ScanPrefix(g0, a0, direction, n) == ScanState(field, animations, moved)
      {
        var rowIndex := if direction == Down then Size - 1 - i else i;
        var j := 0;
        while j < Size
          invariant 0 <= j <= Size && n == CellIndex(i, j) && n <= Cells
          invariant Valid()
          invariant ScanPrefix(g0, a0, direction, n) == ScanState(field, animations, moved)
        {
          var tileIndex := if direction == Right then Size - 1 - j else j;
          ScanCellAt(direction, i, j);
          ScanPrefixNext(g0, a0, direction, n);
          moved := VisitCell(rowIndex, tileIndex, direction, moved);
          j := j + 1;
          n := n + 1;
        }
        assert CellIndex(i, Size) == CellIndex(i + 1, 0);
        i := i + 1;
      }
      assert n == Cells;
    }

    /**
     * moveUp, moveRight, moveDown and moveLeft: the scan, then a spawn if any
     * tile moved.
     */
    method Move(direction: Direction, rndValue: real, rndCell: real)
      requires Valid()
      requires 0.0 <= rndValue < 1.0 && 0.0 <= rndCell < 1.0
      modifies this
      ensures Valid()
      ensures (field, animations) == Played(old(field), old(animations), direction, rndValue, rndCell)
    {
      var moved := Scan(direction);
      if moved {
        var gameOver := FillRandom(rndValue, rndCell);
      }
    }
  }
}
