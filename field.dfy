/**
 * The playing field of the puzzle: a Size x Size matrix of tile values in which
 * 0 stands for an empty cell (the `null` of the source's `number[][]`), and the
 * quantities that are read off it: sums of tile values, the number of tiles,
 * the empty cells in row-major order and the largest tile.
 */
module Field {

  /** Side length of the field. */
  const Size: nat := 4
  /** Value of a freshly spawned tile. */
  const Base: nat := 2
  /** The empty cell. */
  const Empty: nat := 0
  /** Number of cells of the field. */
  const Cells: nat := Size * Size

  datatype Direction = Up | Right | Down | Left

  type Grid = seq<seq<nat>>

  /** A Size x Size matrix; also used for the animation labels. */
  predicate IsGrid<T>(g: seq<seq<T>>) {
    |g| == Size && forall i :: 0 <= i < Size ==> |g[i]| == Size
  }

  predicate InBounds(r: int, c: int) {
    0 <= r < Size && 0 <= c < Size
  }

  /** The field with cell (r, c) overwritten by v. */
  function Set(g: Grid, r: nat, c: nat, v: nat): (h: Grid)
    requires IsGrid(g) && InBounds(r, c)
    ensures IsGrid(h) && h[r][c] == v
    ensures forall i, j {:trigger h[i][j]} :: 0 <= i < Size && 0 <= j < Size && (i != r || j != c) ==> h[i][j] == g[i][j]
  {
    var row: seq<nat> := g[r][c := v];
    g[r := row]
  }

  /** A value a tile can hold: Base, Base * Base, Base * Base * Base, ... */
  predicate IsTile(v: nat)
    decreases v
  {
    v == Base || (v > Base && v % Base == 0 && IsTile(v / Base))
  }

  /** A field whose every occupied cell holds a tile value. */
  ghost predicate ValidGrid(g: Grid) {
    IsGrid(g) && forall r, c :: 0 <= r < Size && 0 <= c < Size ==> g[r][c] == Empty || IsTile(g[r][c])
  }

  function EmptyGrid(): (g: Grid)
    ensures ValidGrid(g)
    ensures forall r, c :: 0 <= r < Size && 0 <= c < Size ==> g[r][c] == Empty
  {
    seq(Size, _ => seq(Size, _ => Empty))
  }

  lemma DoubleIsTile(v: nat)
    requires IsTile(v)
    ensures IsTile(v * 2)
  {
    assert (v * 2) / Base == v;
  }

  /** The parts of the field over which tile values are summed. */
  datatype Region = Whole | Row(row: int) | Column(col: int)

  predicate InRegion(reg: Region, r: int, c: int) {
    match reg
    case Whole => true
    case Row(i) => r == i
    case Column(j) => c == j
  }

  // Cells are enumerated in row-major order: cell k is (k / Size, k % Size).

  /** The position of cell (r, c) in the row-major order. */
  function CellIndex(r: int, c: int): int {
    r * Size + c
  }

  /** Cell CellIndex(r, c) of the row-major order is (r, c), and it comes before cell Cells. */
  lemma RowMajor(r: nat, c: nat)
    requires r < Size && c < Size
    ensures 0 <= CellIndex(r, c) < Cells
    ensures CellIndex(r, c) / Size == r && CellIndex(r, c) % Size == c
  {
  }

  /** Cell k of the row-major order lies on the field, at index k. */
  lemma RowMajorCell(k: nat)
    requires k < Cells
    ensures k / Size < Size && k % Size < Size && (k / Size) * Size + k % Size == k
  {
  }

  /** Sum of the values in region reg among the first n cells. */
  function SumTo(g: Grid, reg: Region, n: nat): int
    requires IsGrid(g) && n <= Cells
  {
    if n == 0 then 0
    else
      var r, c := (n - 1) / Size, (n - 1) % Size;
      SumTo(g, reg, n - 1) + (if InRegion(reg, r, c) then g[r][c] else 0)
  }

  function Sum(g: Grid, reg: Region): int
    requires IsGrid(g)
  {
    SumTo(g, reg, Cells)
  }

  /** Number of occupied cells among the first n cells. */
  function TilesTo(g: Grid, n: nat): nat
    requires IsGrid(g) && n <= Cells
  {
    if n == 0 then 0
    else
      var r, c := (n - 1) / Size, (n - 1) % Size;
      TilesTo(g, n - 1) + (if g[r][c] != Empty then 1 else 0)
  }

  function Tiles(g: Grid): nat
    requires IsGrid(g)
  {
    TilesTo(g, Cells)
  }

  /** The empty cells among the first n cells, in row-major order. */
  function EmptiesTo(g: Grid, n: nat): seq<(nat, nat)>
    requires IsGrid(g) && n <= Cells
  {
    if n == 0 then []
    else
      var r, c := (n - 1) / Size, (n - 1) % Size;
      EmptiesTo(g, n - 1) + (if g[r][c] == Empty then [(r, c)] else [])
  }

  /** The `empties` list of fillRandom (field.component.ts:79-89). */
  function EmptyCells(g: Grid): seq<(nat, nat)>
    requires IsGrid(g)
  {
    EmptiesTo(g, Cells)
  }

  /** The running maximum of fillRandom over the first n cells, starting from Base. */
  function MaxTo(g: Grid, n: nat): nat
    requires IsGrid(g) && n <= Cells
  {
    if n == 0 then Base
    else
      var r, c := (n - 1) / Size, (n - 1) % Size;
      var m := MaxTo(g, n - 1);
      if g[r][c] != Empty && g[r][c] > m then g[r][c] else m
  }

  function MaxTile(g: Grid): nat
    requires IsGrid(g)
  {
    MaxTo(g, Cells)
  }

  // ---------------------------------------------------------------------------
  // Effect of overwriting one cell

  lemma {:induction false} SumToSet(g: Grid, r: nat, c: nat, v: nat, reg: Region, n: nat)
    requires IsGrid(g) && InBounds(r, c) && n <= Cells
    ensures SumTo(Set(g, r, c, v), reg, n)
            == SumTo(g, reg, n) + (if CellIndex(r, c) < n && InRegion(reg, r, c) then v - g[r][c] else 0)
  {
    if n > 0 {
      SumToSet(g, r, c, v, reg, n - 1);
    }
  }

  lemma {:induction false} TilesToSet(g: Grid, r: nat, c: nat, v: nat, n: nat)
    requires IsGrid(g) && InBounds(r, c) && n <= Cells
    ensures TilesTo(Set(g, r, c, v), n)
            == TilesTo(g, n)
               + (if CellIndex(r, c) < n then (if v != Empty then 1 else 0) - (if g[r][c] != Empty then 1 else 0) else 0)
  {
    if n > 0 {
      TilesToSet(g, r, c, v, n - 1);
    }
  }

  /** Overwriting one cell changes the sum of every region holding it by the difference of values. */
  lemma SumSet(g: Grid, r: nat, c: nat, v: nat, reg: Region)
    requires IsGrid(g) && InBounds(r, c)
    ensures Sum(Set(g, r, c, v), reg) == Sum(g, reg) + (if InRegion(reg, r, c) then v - g[r][c] else 0)
  {
    SumToSet(g, r, c, v, reg, Cells);
  }

  /** Overwriting one cell changes the tile count only when it empties or fills that cell. */
  lemma TilesSet(g: Grid, r: nat, c: nat, v: nat)
    requires IsGrid(g) && InBounds(r, c)
    ensures Tiles(Set(g, r, c, v))
            == Tiles(g) + (if v != Empty then 1 else 0) - (if g[r][c] != Empty then 1 else 0)
  {
    TilesToSet(g, r, c, v, Cells);
  }

  // ---------------------------------------------------------------------------
  // Empty cells, tile count and maximum

  lemma {:induction false} EmptiesToMembers(g: Grid, n: nat)
    requires IsGrid(g) && n <= Cells
    ensures forall r: nat, c: nat :: (r, c) in EmptiesTo(g, n) <==> 0 <= r < Size && 0 <= c < Size && CellIndex(r, c) < n && g[r][c] == Empty
  {
    if n > 0 {
      EmptiesToMembers(g, n - 1);
      RowMajorCell(n - 1);
      forall r: nat, c: nat | r < Size && c < Size && CellIndex(r, c) == n - 1
        ensures r == (n - 1) / Size && c == (n - 1) % Size
      {
        RowMajor(r, c);
      }
    }
  }

  lemma {:induction false} EmptiesToOrdered(g: Grid, n: nat)
    requires IsGrid(g) && n <= Cells
    ensures forall i :: 0 <= i < |EmptiesTo(g, n)| ==> CellIndex(EmptiesTo(g, n)[i].0, EmptiesTo(g, n)[i].1) < n
    ensures forall i, j :: 0 <= i < j < |EmptiesTo(g, n)| ==>
              CellIndex(EmptiesTo(g, n)[i].0, EmptiesTo(g, n)[i].1) < CellIndex(EmptiesTo(g, n)[j].0, EmptiesTo(g, n)[j].1)
  {
    if n > 0 {
      EmptiesToOrdered(g, n - 1);
      RowMajorCell(n - 1);
    }
  }

  lemma {:induction false} EmptiesToCount(g: Grid, n: nat)
    requires IsGrid(g) && n <= Cells
    ensures |EmptiesTo(g, n)| + TilesTo(g, n) == n
  {
    if n > 0 {
      EmptiesToCount(g, n - 1);
    }
  }

  /**
   * The empty cells are listed exactly once each, in row-major order, and they
   * are as many as the cells that hold no tile.
   */
  lemma EmptyCellsExact(g: Grid)
    requires IsGrid(g)
    ensures forall r: nat, c: nat :: (r, c) in EmptyCells(g) <==> 0 <= r < Size && 0 <= c < Size && g[r][c] == Empty
    ensures forall i, j :: 0 <= i < j < |EmptyCells(g)| ==>
              CellIndex(EmptyCells(g)[i].0, EmptyCells(g)[i].1) < CellIndex(EmptyCells(g)[j].0, EmptyCells(g)[j].1)
    ensures |EmptyCells(g)| + Tiles(g) == Cells
  {
    EmptiesToMembers(g, Cells);
    EmptiesToOrdered(g, Cells);
    EmptiesToCount(g, Cells);
  }

  /** A field with an empty cell has fewer tiles than cells. */
  lemma EmptyCellBoundsTiles(g: Grid, r: nat, c: nat)
    requires IsGrid(g) && InBounds(r, c) && g[r][c] == Empty
    ensures Tiles(g) < Cells
  {
    EmptyCellsExact(g);
    assert (r, c) in EmptyCells(g);
  }

  lemma {:induction false} MaxToExact(g: Grid, n: nat)
    requires IsGrid(g) && n <= Cells
    ensures Base <= MaxTo(g, n)
    ensures forall r, c :: 0 <= r < Size && 0 <= c < Size && CellIndex(r, c) < n ==> g[r][c] <= MaxTo(g, n)
    ensures MaxTo(g, n) == Base
            || exists r, c :: 0 <= r < Size && 0 <= c < Size && CellIndex(r, c) < n && g[r][c] == MaxTo(g, n)
  {
    if n > 0 {
      MaxToExact(g, n - 1);
      RowMajorCell(n - 1);
      forall r: nat, c: nat | r < Size && c < Size && CellIndex(r, c) == n - 1
        ensures r == (n - 1) / Size && c == (n - 1) % Size
      {
        RowMajor(r, c);
      }
    }
  }

  /** The largest tile is at least Base, bounds every cell, and is Base or the value of some cell. */
  lemma MaxTileExact(g: Grid)
    requires IsGrid(g)
    ensures Base <= MaxTile(g)
    ensures forall r, c :: 0 <= r < Size && 0 <= c < Size ==> g[r][c] <= MaxTile(g)
    ensures MaxTile(g) == Base || exists r, c :: 0 <= r < Size && 0 <= c < Size && g[r][c] == MaxTile(g)
  {
    MaxToExact(g, Cells);
  }

  /** On a valid field the largest tile is itself a tile value. */
  lemma MaxTileIsTile(g: Grid)
    requires ValidGrid(g)
    ensures IsTile(MaxTile(g))
  {
    MaxTileExact(g);
    if MaxTile(g) != Base {
      var r, c :| InBounds(r, c) && g[r][c] == MaxTile(g);
    }
  }
}
