/**
 * The move-and-merge logic of FieldComponent as functions on the field: one
 * step of a tile (mergeTiles), the walk of one tile until it stops, and the
 * scan of move<Dir> over all cells in the order that direction uses. The
 * methods of FieldComponent in component.dfy are proved to compute exactly
 * these functions; the lemmas here say what the functions mean.
 *
 * As in the source there is no guard against a tile merging twice in one
 * move: a tile produced by a merge can absorb a later tile of equal value.
 */
module Moves {
  import opened Field

  /** The three results of mergeTiles: `false`, `true` and `null`. */
  datatype MergeResult = Slid | Merged | Blocked

  /** An entry of the `animations` matrix: 'base', or the label `move<dir>-<steps>`. */
  datatype Animation = BaseLabel | MoveLabel(dir: Direction, steps: nat)

  type Labels = seq<seq<Animation>>

  /** Row offset of the destination of a step (field.component.ts:239). */
  function DRow(d: Direction): int {
    match d
    case Up => -1
    case Down => 1
    case _ => 0
  }

  /** Column offset of the destination of a step (field.component.ts:240). */
  function DCol(d: Direction): int {
    match d
    case Left => -1
    case Right => 1
    case _ => 0
  }

  /** Number of cells between (r, c) and the edge a move in direction d heads for. */
  function Dist(d: Direction, r: int, c: int): int {
    match d
    case Up => r
    case Down => Size - 1 - r
    case Left => c
    case Right => Size - 1 - c
  }

  predicate Horizontal(d: Direction) {
    d == Left || d == Right
  }

  /** (r, c) and (r', c') lie on one line along which d moves tiles. */
  predicate SameLine(d: Direction, r: int, c: int, r': int, c': int) {
    if Horizontal(d) then r == r' else c == c'
  }

  /** (i, j) lies on the line of (r, c), between it and the edge that d heads for. */
  predicate Ahead(d: Direction, r: int, c: int, i: int, j: int) {
    SameLine(d, r, c, i, j) && Dist(d, i, j) <= Dist(d, r, c)
  }

  /** The cells ahead of the next cell are ahead of this one. */
  lemma AheadShrinks(d: Direction, r: int, c: int, i: int, j: int)
    requires Ahead(d, r + DRow(d), c + DCol(d), i, j)
    ensures Ahead(d, r, c, i, j)
  {
  }

  /** The whole field, or one line along which d moves tiles. */
  predicate Along(d: Direction, reg: Region) {
    reg.Whole? || (Horizontal(d) && reg.Row?) || (!Horizontal(d) && reg.Column?)
  }

  lemma StepTarget(d: Direction, r: int, c: int)
    ensures Dist(d, r + DRow(d), c + DCol(d)) == Dist(d, r, c) - 1
    ensures SameLine(d, r, c, r + DRow(d), c + DCol(d))
  {
  }

  // ---------------------------------------------------------------------------
  // mergeTiles (field.component.ts:235-263)

  /** One step of the tile at (r, c) towards the neighbour in direction d. */
  function Step(g: Grid, d: Direction, r: nat, c: nat): (s: (MergeResult, Grid))
    requires IsGrid(g) && InBounds(r, c)
    ensures IsGrid(s.1)
    ensures s.0 != Blocked ==> InBounds(r + DRow(d), c + DCol(d))
  {
    var tile := g[r][c];
    var dr, dc := r + DRow(d), c + DCol(d);
    if !InBounds(dr, dc) || (g[dr][dc] != Empty && g[dr][dc] != tile) then (Blocked, g)
    else
      // a slide moves the tile into the empty cell, a merge doubles the equal neighbour
      var res := if g[dr][dc] == Empty then Slid else Merged;
      (res, Set(Set(g, dr, dc, if res == Slid then tile else g[dr][dc] * 2), r, c, Empty))
  }

  /**
   * A step keeps the sum of the tile values of the whole field and of every
   * line along the move: the tile stays on its line.
   */
  lemma StepConserves(g: Grid, d: Direction, r: nat, c: nat, reg: Region)
    requires IsGrid(g) && InBounds(r, c) && Along(d, reg)
    ensures Sum(Step(g, d, r, c).1, reg) == Sum(g, reg)
  {
    var dr, dc := r + DRow(d), c + DCol(d);
    if InBounds(dr, dc) && (g[dr][dc] == Empty || g[dr][dc] == g[r][c]) {
      var v := if g[dr][dc] == Empty then g[r][c] else g[dr][dc] * 2;
      SumSet(g, dr, dc, v, reg);
      SumSet(Set(g, dr, dc, v), r, c, Empty, reg);
      assert InRegion(reg, r, c) == InRegion(reg, dr, dc);
    }
  }

  /**
   * A merge removes exactly one tile and a slide none; after a step that is
   * not blocked the field has an empty cell.
   */
  lemma StepTiles(g: Grid, d: Direction, r: nat, c: nat)
    requires IsGrid(g) && InBounds(r, c)
    ensures Tiles(Step(g, d, r, c).1) + (if Step(g, d, r, c).0 == Merged then 1 else 0) == Tiles(g)
    ensures Step(g, d, r, c).0 != Blocked ==> Tiles(Step(g, d, r, c).1) < Cells
  {
    var dr, dc := r + DRow(d), c + DCol(d);
    EmptyCellsExact(g);
    if InBounds(dr, dc) && (g[dr][dc] == Empty || g[dr][dc] == g[r][c]) {
      var v := if g[dr][dc] == Empty then g[r][c] else g[dr][dc] * 2;
      TilesSet(g, dr, dc, v);
      TilesSet(Set(g, dr, dc, v), r, c, Empty);
      if g[dr][dc] == Empty {
        EmptyCellBoundsTiles(g, dr, dc);
      }
    }
  }

  /** A step keeps every tile a tile value: a merge doubles one. */
  lemma StepValid(g: Grid, d: Direction, r: nat, c: nat)
    requires ValidGrid(g) && InBounds(r, c)
    ensures ValidGrid(Step(g, d, r, c).1)
  {
    var dr, dc := r + DRow(d), c + DCol(d);
    if InBounds(dr, dc) && g[dr][dc] != Empty && g[dr][dc] == g[r][c] {
      DoubleIsTile(g[dr][dc]);
    }
  }

  // ---------------------------------------------------------------------------
  // The walk of one tile: the inner `searchIndex` loop of move<Dir>

  /** Where a tile's walk ended, after how many slides, and whether in a merge. */
  datatype WalkResult = WalkResult(field: Grid, slides: nat, merged: bool)

  /** The displacement `diff` of the source: the slides, plus 1 for a final merge. */
  function Diff(w: WalkResult): nat {
    w.slides + if w.merged then 1 else 0
  }

  /** Steps the tile at (r, c) until a step does not slide it; never beyond the edge. */
  function Walk(g: Grid, d: Direction, r: nat, c: nat): (w: WalkResult)
    requires IsGrid(g) && InBounds(r, c)
    ensures IsGrid(w.field)
    ensures Diff(w) <= Dist(d, r, c)
    decreases Dist(d, r, c), 1
  {
    WalkOn(d, r, c, Step(g, d, r, c))
  }

  /** The rest of a walk once the step s at (r, c) has been taken. */
  function WalkOn(d: Direction, r: nat, c: nat, s: (MergeResult, Grid)): (w: WalkResult)
    requires IsGrid(s.1) && InBounds(r, c) && (s.0 != Blocked ==> InBounds(r + DRow(d), c + DCol(d)))
    ensures IsGrid(w.field)
    ensures Diff(w) <= Dist(d, r, c)
    decreases Dist(d, r, c), 0
  {
    StepTarget(d, r, c);
    match s.0
    case Slid =>
      var w' := Walk(s.1, d, r + DRow(d), c + DCol(d));
      WalkResult(w'.field, w'.slides + 1, w'.merged)
    case Merged => WalkResult(s.1, 0, true)
    case Blocked => WalkResult(s.1, 0, false)
  }

  /** A walk whose first step slides is that slide followed by the walk from the next cell. */
  lemma WalkRest(g: Grid, d: Direction, r: nat, c: nat)
    requires IsGrid(g) && InBounds(r, c) && Step(g, d, r, c).0 == Slid
    ensures InBounds(r + DRow(d), c + DCol(d))
    ensures var w, w' := Walk(g, d, r, c), Walk(Step(g, d, r, c).1, d, r + DRow(d), c + DCol(d));
            w.field == w'.field && w.slides == w'.slides + 1 && w.merged == w'.merged
  {
    StepTarget(d, r, c);
  }

  /** A walk whose first step does not slide ends there, with that step's field. */
  lemma WalkStop(g: Grid, d: Direction, r: nat, c: nat)
    requires IsGrid(g) && InBounds(r, c) && Step(g, d, r, c).0 != Slid
    ensures var w, s := Walk(g, d, r, c), Step(g, d, r, c);
            w.field == s.1 && w.slides == 0 && w.merged == (s.0 == Merged)
  {
  }

  /**
   * The walk from (r, c) on g is what remains of the walk from (r0, c0) on g0
   * after k slides: it ends on the same field, in the same way.
   */
  ghost predicate WalkSuffix(g0: Grid, d: Direction, r0: nat, c0: nat, g: Grid, r: nat, c: nat, k: nat)
    requires IsGrid(g0) && InBounds(r0, c0) && IsGrid(g) && InBounds(r, c)
  {
    var w, v := Walk(g0, d, r0, c0), Walk(g, d, r, c);
    v.field == w.field && v.slides + k == w.slides && v.merged == w.merged
  }

  /** A slide of the remaining walk leaves one slide fewer to go. */
  lemma WalkSuffixNext(g0: Grid, d: Direction, r0: nat, c0: nat, g: Grid, r: nat, c: nat, k: nat)
    requires IsGrid(g0) && InBounds(r0, c0) && IsGrid(g) && InBounds(r, c)
    requires WalkSuffix(g0, d, r0, c0, g, r, c, k) && Step(g, d, r, c).0 == Slid
    ensures InBounds(r + DRow(d), c + DCol(d))
    ensures WalkSuffix(g0, d, r0, c0, Step(g, d, r, c).1, r + DRow(d), c + DCol(d), k + 1)
  {
    WalkRest(g, d, r, c);
  }

  /** A step of the remaining walk that does not slide ends the whole walk, after k slides. */
  lemma WalkSuffixEnd(g0: Grid, d: Direction, r0: nat, c0: nat, g: Grid, r: nat, c: nat, k: nat)
    requires IsGrid(g0) && InBounds(r0, c0) && IsGrid(g) && InBounds(r, c)
    requires WalkSuffix(g0, d, r0, c0, g, r, c, k) && Step(g, d, r, c).0 != Slid
    ensures Walk(g0, d, r0, c0).field == Step(g, d, r, c).1
    ensures Diff(Walk(g0, d, r0, c0)) == if Step(g, d, r, c).0 == Merged then k + 1 else k
  {
    WalkStop(g, d, r, c);
  }

  /** A walk keeps the sum of the whole field and of every line along the move. */
  lemma {:induction false} WalkConserves(g: Grid, d: Direction, r: nat, c: nat, reg: Region)
    requires IsGrid(g) && InBounds(r, c) && Along(d, reg)
    ensures Sum(Walk(g, d, r, c).field, reg) == Sum(g, reg)
    decreases Dist(d, r, c)
  {
    StepConserves(g, d, r, c, reg);
    var (res, g') := Step(g, d, r, c);
    if res == Slid {
      StepTarget(d, r, c);
      WalkConserves(g', d, r + DRow(d), c + DCol(d), reg);
    }
  }

  /**
   * A walk removes one tile exactly when it ends in a merge, and a walk with a
   * non-zero displacement leaves an empty cell behind.
   */
  lemma {:induction false} WalkTiles(g: Grid, d: Direction, r: nat, c: nat)
    requires IsGrid(g) && InBounds(r, c)
    ensures Tiles(Walk(g, d, r, c).field) + (if Walk(g, d, r, c).merged then 1 else 0) == Tiles(g)
    ensures Diff(Walk(g, d, r, c)) != 0 ==> Tiles(Walk(g, d, r, c).field) < Cells
    decreases Dist(d, r, c)
  {
    StepTiles(g, d, r, c);
    var (res, g') := Step(g, d, r, c);
    if res == Slid {
      StepTarget(d, r, c);
      WalkTiles(g', d, r + DRow(d), c + DCol(d));
    }
  }

  /** A walk with displacement 0 was blocked at once and changed nothing. */
  lemma WalkNoOp(g: Grid, d: Direction, r: nat, c: nat)
    requires IsGrid(g) && InBounds(r, c)
    requires Diff(Walk(g, d, r, c)) == 0
    ensures Walk(g, d, r, c).field == g
  {
  }

  /** A walk keeps every tile a tile value. */
  lemma {:induction false} WalkValid(g: Grid, d: Direction, r: nat, c: nat)
    requires ValidGrid(g) && InBounds(r, c)
    ensures ValidGrid(Walk(g, d, r, c).field)
    decreases Dist(d, r, c)
  {
    StepValid(g, d, r, c);
    var (res, g') := Step(g, d, r, c);
    if res == Slid {
      StepTarget(d, r, c);
      WalkValid(g', d, r + DRow(d), c + DCol(d));
    }
  }

  /** A step writes only the tile's cell and its neighbour in direction d. */
  lemma StepLocal(g: Grid, d: Direction, r: nat, c: nat)
    requires IsGrid(g) && InBounds(r, c)
    ensures forall i, j :: 0 <= i < Size && 0 <= j < Size && (i != r || j != c) && (i != r + DRow(d) || j != c + DCol(d))
              ==> Step(g, d, r, c).1[i][j] == g[i][j]
    ensures forall i, j :: 0 <= i < Size && 0 <= j < Size && !Ahead(d, r, c, i, j) ==> Step(g, d, r, c).1[i][j] == g[i][j]
  {
    StepTarget(d, r, c);
  }

  lemma {:induction false} WalkLocalAt(g: Grid, d: Direction, r: nat, c: nat, i: nat, j: nat)
    requires IsGrid(g) && InBounds(r, c) && InBounds(i, j) && !Ahead(d, r, c, i, j)
    ensures Walk(g, d, r, c).field[i][j] == g[i][j]
    decreases Dist(d, r, c)
  {
    var s := Step(g, d, r, c);
    StepTarget(d, r, c);
    StepLocal(g, d, r, c);
    var r', c' := r + DRow(d), c + DCol(d);
    if s.0 == Slid {
      WalkRest(g, d, r, c);
      if Ahead(d, r', c', i, j) {
        AheadShrinks(d, r, c, i, j);
      }
      WalkLocalAt(s.1, d, r', c', i, j);
    } else {
      WalkStop(g, d, r, c);
    }
  }

  /**
   * A walk touches only its own line, and there only the cells from (r, c) up
   * to the target edge: tiles never leave their row (Left, Right) or column
   * (Up, Down), and never move away from the edge.
   */
  lemma WalkLocal(g: Grid, d: Direction, r: nat, c: nat)
    requires IsGrid(g) && InBounds(r, c)
    ensures forall i, j :: 0 <= i < Size && 0 <= j < Size && !Ahead(d, r, c, i, j) ==> Walk(g, d, r, c).field[i][j] == g[i][j]
  {
    forall i, j | 0 <= i < Size && 0 <= j < Size && !Ahead(d, r, c, i, j)
      ensures Walk(g, d, r, c).field[i][j] == g[i][j]
    {
      WalkLocalAt(g, d, r, c, i, j);
    }
  }

  /** The cell k steps from (r, c) in direction d. */
  function Toward(d: Direction, r: int, c: int, k: int): (p: (int, int))
    ensures SameLine(d, r, c, p.0, p.1) && Dist(d, p.0, p.1) == Dist(d, r, c) - k
    ensures InBounds(r, c) && 0 <= k <= Dist(d, r, c) ==> InBounds(p.0, p.1)
  {
    (r + k * DRow(d), c + k * DCol(d))
  }

  /** The cells a walk passes, from (r, c) up to the cell where it leaves the tile, are empty afterwards. */
  lemma {:induction false} WalkClearsAt(g: Grid, d: Direction, r: nat, c: nat, i: nat, j: nat)
    requires IsGrid(g) && InBounds(r, c) && InBounds(i, j) && g[r][c] != Empty
    requires SameLine(d, r, c, i, j) && Dist(d, r, c) - Diff(Walk(g, d, r, c)) < Dist(d, i, j) <= Dist(d, r, c)
    ensures Walk(g, d, r, c).field[i][j] == Empty
    decreases Dist(d, r, c)
  {
    StepTarget(d, r, c);
    if Step(g, d, r, c).0 == Slid {
      WalkRest(g, d, r, c);
      var g', r', c' := Step(g, d, r, c).1, r + DRow(d), c + DCol(d);
      if Dist(d, i, j) == Dist(d, r, c) {
        // (i, j) is the start cell, which the slide emptied
        assert i == r && j == c;
        WalkLocalAt(g', d, r', c', i, j);
      } else {
        assert g'[r'][c'] == g[r][c];
        WalkClearsAt(g', d, r', c', i, j);
      }
    } else {
      WalkStop(g, d, r, c);
    }
  }

  /** The cells past the one where a walk leaves the tile keep their values. */
  lemma {:induction false} WalkBeyondAt(g: Grid, d: Direction, r: nat, c: nat, i: nat, j: nat)
    requires IsGrid(g) && InBounds(r, c) && InBounds(i, j)
    requires SameLine(d, r, c, i, j) && Dist(d, i, j) < Dist(d, r, c) - Diff(Walk(g, d, r, c))
    ensures Walk(g, d, r, c).field[i][j] == g[i][j]
    decreases Dist(d, r, c)
  {
    StepTarget(d, r, c);
    if Step(g, d, r, c).0 == Slid {
      WalkRest(g, d, r, c);
      var g', r', c' := Step(g, d, r, c).1, r + DRow(d), c + DCol(d);
      assert g'[r'][c'] == g[r][c] && g'[r][c] == Empty;
      WalkBeyondAt(g', d, r', c', i, j);
    } else {
      WalkStop(g, d, r, c);
    }
  }

  /**
   * The cell Diff(w) steps ahead holds the tile afterwards, doubled if the
   * walk ended in a merge, and then it held an equal tile before.
   */
  lemma {:induction false} WalkLandsAt(g: Grid, d: Direction, r: nat, c: nat, i: nat, j: nat)
    requires IsGrid(g) && InBounds(r, c) && InBounds(i, j) && g[r][c] != Empty
    requires SameLine(d, r, c, i, j) && Dist(d, i, j) == Dist(d, r, c) - Diff(Walk(g, d, r, c))
    ensures var w := Walk(g, d, r, c); w.field[i][j] == if w.merged then 2 * g[r][c] else g[r][c]
    ensures Walk(g, d, r, c).merged ==> g[i][j] == g[r][c]
    decreases Dist(d, r, c)
  {
    StepTarget(d, r, c);
    if Step(g, d, r, c).0 == Slid {
      WalkRest(g, d, r, c);
      WalkLandsAt(Step(g, d, r, c).1, d, r + DRow(d), c + DCol(d), i, j);
    } else {
      WalkStop(g, d, r, c);
    }
  }

  /** A walk that does not merge stops before a tile of another value, or at the edge. */
  lemma {:induction false} WalkBlockedAt(g: Grid, d: Direction, r: nat, c: nat, i: nat, j: nat)
    requires IsGrid(g) && InBounds(r, c) && InBounds(i, j) && g[r][c] != Empty && !Walk(g, d, r, c).merged
    requires SameLine(d, r, c, i, j) && Dist(d, i, j) == Dist(d, r, c) - Diff(Walk(g, d, r, c)) - 1
    ensures g[i][j] != Empty && g[i][j] != g[r][c]
    decreases Dist(d, r, c)
  {
    StepTarget(d, r, c);
    if Step(g, d, r, c).0 == Slid {
      WalkRest(g, d, r, c);
      var g', r', c' := Step(g, d, r, c).1, r + DRow(d), c + DCol(d);
      assert g'[r'][c'] == g[r][c] && g'[r][c] == Empty;
      WalkBlockedAt(g', d, r', c', i, j);
    } else {
      WalkStop(g, d, r, c);
    }
  }

  /**
   * Where a walk leaves the tile from (r, c): Diff(w) cells ahead, doubled
   * if it merged into an equal tile there; the cells from (r, c) up to that
   * cell are empty; unless it merged, the next cell is off the field or holds
   * a tile of another value, and keeps it. The label `move<d>-<Diff(w)>` thus
   * names the distance the tile travelled.
   */
  lemma WalkShape(g: Grid, d: Direction, r: nat, c: nat)
    requires IsGrid(g) && InBounds(r, c) && g[r][c] != Empty
    ensures var w := Walk(g, d, r, c);
            var (fr, fc) := Toward(d, r, c, Diff(w));
            InBounds(fr, fc) && w.field[fr][fc] == (if w.merged then 2 * g[r][c] else g[r][c])
            && (w.merged ==> g[fr][fc] == g[r][c])
    ensures var w := Walk(g, d, r, c);
            forall k :: 0 <= k < Diff(w) ==> w.field[Toward(d, r, c, k).0][Toward(d, r, c, k).1] == Empty
    ensures var w := Walk(g, d, r, c);
            var (nr, nc) := Toward(d, r, c, Diff(w) + 1);
            !w.merged && InBounds(nr, nc) ==> g[nr][nc] != Empty && g[nr][nc] != g[r][c] && w.field[nr][nc] == g[nr][nc]
  {
    var w := Walk(g, d, r, c);
    var (fr, fc) := Toward(d, r, c, Diff(w));
    WalkLandsAt(g, d, r, c, fr, fc);
    forall k | 0 <= k < Diff(w)
      ensures w.field[Toward(d, r, c, k).0][Toward(d, r, c, k).1] == Empty
    {
      WalkClearsAt(g, d, r, c, Toward(d, r, c, k).0, Toward(d, r, c, k).1);
    }
    var (nr, nc) := Toward(d, r, c, Diff(w) + 1);
    if !w.merged && InBounds(nr, nc) {
      WalkBlockedAt(g, d, r, c, nr, nc);
      WalkBeyondAt(g, d, r, c, nr, nc);
    }
  }

  /** The state the loops of move<Dir> update: `field`, `animations` and `moved`. */
  datatype ScanState = ScanState(field: Grid, anims: Labels, moved: bool)

  predicate IsScanState(s: ScanState) {
    IsGrid(s.field) && IsGrid(s.anims)
  }

  /**
   * The k-th cell visited by move<Dir>: rows in the outer loop, columns in the
   * inner one; rows run bottom to top for Down, columns right to left for
   * Right, and both run forwards otherwise.
   */
  function ScanCell(d: Direction, k: nat): (p: (nat, nat))
    requires k < Cells
    ensures InBounds(p.0, p.1)
  {
    var i, j := k / Size, k % Size;
    (if d == Down then Size - 1 - i else i, if d == Right then Size - 1 - j else j)
  }

  /** The position of cell (r, c) in the scan order of d. */
  function ScanIndex(d: Direction, r: nat, c: nat): (k: nat)
    requires InBounds(r, c)
    ensures k < Cells
  {
    CellIndex(if d == Down then Size - 1 - r else r, if d == Right then Size - 1 - c else c)
  }

  /** Cell CellIndex(i, j) of the scan is row i (from the bottom for Down) and column j (from the right for Right). */
  lemma ScanCellAt(d: Direction, i: nat, j: nat)
    requires i < Size && j < Size
    ensures CellIndex(i, j) < Cells
    ensures ScanCell(d, CellIndex(i, j)) == (if d == Down then Size - 1 - i else i, if d == Right then Size - 1 - j else j)
  {
    RowMajor(i, j);
  }

  /** The scan visits every cell exactly once. */
  lemma ScanOrderBijective(d: Direction)
    ensures forall k :: 0 <= k < Cells ==> ScanIndex(d, ScanCell(d, k).0, ScanCell(d, k).1) == k
    ensures forall r, c :: 0 <= r < Size && 0 <= c < Size ==> ScanCell(d, ScanIndex(d, r, c)) == (r, c)
  {
  }

  /**
   * Of two cells on one line, the one nearer the target edge is visited first,
   * so it claims its slot before a trailing tile can.
   */
  lemma ScanNearestFirst(d: Direction, k1: nat, k2: nat)
    requires k1 < k2 < Cells
    requires SameLine(d, ScanCell(d, k1).0, ScanCell(d, k1).1, ScanCell(d, k2).0, ScanCell(d, k2).1)
    ensures Dist(d, ScanCell(d, k1).0, ScanCell(d, k1).1) < Dist(d, ScanCell(d, k2).0, ScanCell(d, k2).1)
  {
  }

  /** On one line, the scan reaches the cell nearer the target edge first. */
  lemma ScanLineOrder(d: Direction, r: nat, c: nat, i: nat, j: nat)
    requires InBounds(r, c) && InBounds(i, j)
    ensures SameLine(d, r, c, i, j) ==> (ScanIndex(d, i, j) < ScanIndex(d, r, c) <==> Dist(d, i, j) < Dist(d, r, c))
  {
  }

  /**
   * One pass of the inner loop body: an occupied cell is walked, and a
   * non-zero displacement is recorded as the label at the cell the tile
   * started from and sets `moved`.
   */
  function Visit(s: ScanState, d: Direction, r: nat, c: nat): (t: ScanState)
    requires IsScanState(s) && InBounds(r, c)
    ensures IsScanState(t)
  {
    if s.field[r][c] == Empty then s
    else
      var w := Walk(s.field, d, r, c);
      if Diff(w) != 0 then
        ScanState(w.field, s.anims[r := s.anims[r][c := MoveLabel(d, Diff(w))]], true)
      else
        ScanState(w.field, s.anims, s.moved)
  }

  /** The state after the first n cells of the scan, from `moved = false`. */
  function ScanPrefix(g: Grid, a: Labels, d: Direction, n: nat): (s: ScanState)
    requires IsGrid(g) && IsGrid(a) && n <= Cells
    ensures IsScanState(s)
    decreases n, 1
  {
    if n == 0 then ScanState(g, a, false) else ScanVisit(g, a, d, n)
  }

  /** ScanPrefix for n > 0: the visit of cell n - 1 after the first n - 1 cells. */
  function ScanVisit(g: Grid, a: Labels, d: Direction, n: nat): (s: ScanState)
    requires IsGrid(g) && IsGrid(a) && 0 < n <= Cells
    ensures IsScanState(s)
    decreases n, 0
  {
    Visit(ScanPrefix(g, a, d, n - 1), d, ScanCell(d, n - 1).0, ScanCell(d, n - 1).1)
  }

  lemma ScanPrefixNext(g: Grid, a: Labels, d: Direction, n: nat)
    requires IsGrid(g) && IsGrid(a) && n < Cells
    ensures ScanPrefix(g, a, d, n + 1) == Visit(ScanPrefix(g, a, d, n), d, ScanCell(d, n).0, ScanCell(d, n).1)
  {
  }

  /**
   * The whole scan of move<Dir>, before any spawn. It never adds tiles, keeps
   * every tile a tile value, and when it sets `moved` it leaves an empty cell,
   * so the spawn that follows always has a target.
   */
  function Resolve(g: Grid, a: Labels, d: Direction): (s: ScanState)
    requires IsGrid(g) && IsGrid(a)
    ensures IsScanState(s)
    ensures ValidGrid(g) ==> ValidGrid(s.field)
    ensures Tiles(s.field) <= Tiles(g)
    ensures s.moved ==> |EmptyCells(s.field)| > 0
  {
    ScanTiles(g, a, d, Cells);
    EmptyCellsExact(ScanPrefix(g, a, d, Cells).field);
    ScanValid(g, a, d, Cells);
    ScanPrefix(g, a, d, Cells)
  }

  lemma {:induction false} ScanConserves(g: Grid, a: Labels, d: Direction, n: nat, reg: Region)
    requires IsGrid(g) && IsGrid(a) && n <= Cells && Along(d, reg)
    ensures Sum(ScanPrefix(g, a, d, n).field, reg) == Sum(g, reg)
  {
    if n > 0 {
      ScanConserves(g, a, d, n - 1, reg);
      var (r, c) := ScanCell(d, n - 1);
      WalkConserves(ScanPrefix(g, a, d, n - 1).field, d, r, c, reg);
    }
  }

  lemma {:induction false} ScanTiles(g: Grid, a: Labels, d: Direction, n: nat)
    requires IsGrid(g) && IsGrid(a) && n <= Cells
    ensures Tiles(ScanPrefix(g, a, d, n).field) <= Tiles(g)
    ensures ScanPrefix(g, a, d, n).moved ==> Tiles(ScanPrefix(g, a, d, n).field) < Cells
  {
    if n > 0 {
      ScanTiles(g, a, d, n - 1);
      var (r, c) := ScanCell(d, n - 1);
      WalkTiles(ScanPrefix(g, a, d, n - 1).field, d, r, c);
    }
  }

  lemma {:induction false} ScanNoOp(g: Grid, a: Labels, d: Direction, n: nat)
    requires IsGrid(g) && IsGrid(a) && n <= Cells
    requires !ScanPrefix(g, a, d, n).moved
    ensures ScanPrefix(g, a, d, n).field == g && ScanPrefix(g, a, d, n).anims == a
  {
    if n > 0 {
      var s := ScanPrefix(g, a, d, n - 1);
      ScanNoOp(g, a, d, n - 1);
      var (r, c) := ScanCell(d, n - 1);
      if s.field[r][c] != Empty {
        WalkNoOp(s.field, d, r, c);
      }
    }
  }

  lemma {:induction false} ScanValid(g: Grid, a: Labels, d: Direction, n: nat)
    requires IsGrid(g) && IsGrid(a) && n <= Cells
    ensures ValidGrid(g) ==> ValidGrid(ScanPrefix(g, a, d, n).field)
  {
    if n > 0 && ValidGrid(g) {
      ScanValid(g, a, d, n - 1);
      var (r, c) := ScanCell(d, n - 1);
      WalkValid(ScanPrefix(g, a, d, n - 1).field, d, r, c);
    }
  }

  /** Visiting cell m of the scan leaves every later cell k alone. */
  lemma VisitLeavesLater(s: ScanState, d: Direction, m: nat, k: nat)
    requires IsScanState(s) && m < k < Cells
    ensures Visit(s, d, ScanCell(d, m).0, ScanCell(d, m).1).field[ScanCell(d, k).0][ScanCell(d, k).1]
            == s.field[ScanCell(d, k).0][ScanCell(d, k).1]
  {
    var (r, c) := ScanCell(d, m);
    var (i, j) := ScanCell(d, k);
    if s.field[r][c] != Empty {
      WalkLocal(s.field, d, r, c);
      if Ahead(d, r, c, i, j) {
        ScanNearestFirst(d, m, k);
      }
    }
  }

  /** A cell the scan has not reached yet still holds its original value. */
  lemma {:induction false} ScanUntouched(g: Grid, a: Labels, d: Direction, n: nat, k: nat)
    requires IsGrid(g) && IsGrid(a) && n <= k < Cells
    ensures ScanPrefix(g, a, d, n).field[ScanCell(d, k).0][ScanCell(d, k).1] == g[ScanCell(d, k).0][ScanCell(d, k).1]
  {
    if n > 0 {
      ScanUntouched(g, a, d, n - 1, k);
      VisitLeavesLater(ScanPrefix(g, a, d, n - 1), d, n - 1, k);
    }
  }

  /** A label that differs from before sits on a cell that held a tile, and says how far it moved. */
  ghost predicate LabelledFrom(g: Grid, a: Labels, d: Direction, a': Labels)
    requires IsGrid(g) && IsGrid(a) && IsGrid(a')
  {
    forall r, c :: 0 <= r < Size && 0 <= c < Size ==> LabelledAt(g, a, d, a', r, c)
  }

  ghost predicate LabelledAt(g: Grid, a: Labels, d: Direction, a': Labels, r: nat, c: nat)
    requires IsGrid(g) && IsGrid(a) && IsGrid(a') && InBounds(r, c)
  {
    a'[r][c] == a[r][c]
    || (g[r][c] != Empty && a'[r][c].MoveLabel? && a'[r][c].dir == d
        && 1 <= a'[r][c].steps <= Dist(d, r, c))
  }

  /** Visiting a cell that still holds its original value keeps every label accounted for. */
  lemma VisitLabels(g: Grid, a: Labels, d: Direction, s: ScanState, r: nat, c: nat)
    requires IsGrid(g) && IsGrid(a) && IsScanState(s) && InBounds(r, c)
    requires s.field[r][c] == g[r][c] && LabelledFrom(g, a, d, s.anims)
    ensures LabelledFrom(g, a, d, Visit(s, d, r, c).anims)
  {
    var t := Visit(s, d, r, c);
    forall i, j | 0 <= i < Size && 0 <= j < Size
      ensures LabelledAt(g, a, d, t.anims, i, j)
    {
      assert LabelledAt(g, a, d, s.anims, i, j);
      if i != r || j != c {
        assert t.anims[i][j] == s.anims[i][j];
      }
    }
  }

  lemma {:induction false} ScanLabels(g: Grid, a: Labels, d: Direction, n: nat)
    requires IsGrid(g) && IsGrid(a) && n <= Cells
    ensures LabelledFrom(g, a, d, ScanPrefix(g, a, d, n).anims)
  {
    if n > 0 {
      ScanLabels(g, a, d, n - 1);
      ScanUntouched(g, a, d, n - 1, n - 1);
      VisitLabels(g, a, d, ScanPrefix(g, a, d, n - 1), ScanCell(d, n - 1).0, ScanCell(d, n - 1).1);
    }
  }

  // ---------------------------------------------------------------------------
  // Properties of a whole scan

  /** No tile among the first n cells of the scan has an empty cell right ahead of it. */
  ghost predicate Packed(g: Grid, d: Direction, n: nat)
    requires IsGrid(g)
  {
    forall i, j {:trigger ScanIndex(d, i, j)} ::
      0 <= i < Size && 0 <= j < Size && ScanIndex(d, i, j) < n && g[i][j] != Empty && InBounds(i + DRow(d), j + DCol(d))
      ==> g[i + DRow(d)][j + DCol(d)] != Empty
  }

  /** Distinct cells have distinct places in the scan. */
  lemma ScanIndexInjective(d: Direction, r: nat, c: nat, i: nat, j: nat)
    requires InBounds(r, c) && InBounds(i, j) && ScanIndex(d, i, j) == ScanIndex(d, r, c)
    ensures i == r && j == c
  {
  }

  /**
   * Walking the tile at (r, c), the n-th cell of the scan, keeps the cells
   * up to it packed: a tile it leaves alone keeps its neighbour, and the tile
   * itself stops before an unequal tile or merges into a tile visited earlier.
   */
  lemma WalkPackedAt(g: Grid, d: Direction, r: nat, c: nat, i: nat, j: nat)
    requires IsGrid(g) && InBounds(r, c) && g[r][c] != Empty && Packed(g, d, ScanIndex(d, r, c))
    requires InBounds(i, j) && ScanIndex(d, i, j) <= ScanIndex(d, r, c) && InBounds(i + DRow(d), j + DCol(d))
    requires Walk(g, d, r, c).field[i][j] != Empty
    ensures Walk(g, d, r, c).field[i + DRow(d)][j + DCol(d)] != Empty
  {
    var i', j' := i + DRow(d), j + DCol(d);
    var w := Walk(g, d, r, c);
    StepTarget(d, i, j);
    ScanLineOrder(d, r, c, i, j);
    if ScanIndex(d, i, j) == ScanIndex(d, r, c) {
      ScanIndexInjective(d, r, c, i, j);
    }
    if !Ahead(d, r, c, i, j) {
      // a cell visited earlier, off the line of the walk
      WalkLocalAt(g, d, r, c, i, j);
      WalkLocalAt(g, d, r, c, i', j');
    } else if Dist(d, i, j) == Dist(d, r, c) - Diff(w) {
      // where the tile landed: before an unequal tile, or merged into a tile visited earlier
      WalkLandsAt(g, d, r, c, i, j);
      if !w.merged {
        WalkBlockedAt(g, d, r, c, i', j');
      }
      WalkBeyondAt(g, d, r, c, i', j');
    } else {
      if Dist(d, i, j) > Dist(d, r, c) - Diff(w) {
        WalkClearsAt(g, d, r, c, i, j);
      }
      // a cell visited earlier, past the tile
      WalkBeyondAt(g, d, r, c, i, j);
      WalkBeyondAt(g, d, r, c, i', j');
    }
  }

  /** Visiting the next cell of the scan keeps the visited cells packed. */
  lemma VisitPacked(s: ScanState, d: Direction, n: nat)
    requires IsScanState(s) && n < Cells && Packed(s.field, d, n)
    ensures Packed(Visit(s, d, ScanCell(d, n).0, ScanCell(d, n).1).field, d, n + 1)
  {
    var (r, c) := ScanCell(d, n);
    var h := Visit(s, d, r, c).field;
    ScanOrderBijective(d);
    forall i, j {:trigger ScanIndex(d, i, j)}
      | 0 <= i < Size && 0 <= j < Size && ScanIndex(d, i, j) < n + 1 && h[i][j] != Empty && InBounds(i + DRow(d), j + DCol(d))
      ensures h[i + DRow(d)][j + DCol(d)] != Empty
    {
      if s.field[r][c] != Empty {
        WalkPackedAt(s.field, d, r, c, i, j);
      }
    }
  }

  lemma {:induction false} ScanPacked(g: Grid, a: Labels, d: Direction, n: nat)
    requires IsGrid(g) && IsGrid(a) && n <= Cells
    ensures Packed(ScanPrefix(g, a, d, n).field, d, n)
  {
    if n > 0 {
      ScanPacked(g, a, d, n - 1);
      VisitPacked(ScanPrefix(g, a, d, n - 1), d, n - 1);
    }
  }


  /**
   * A move keeps the sum of the tile values, of the whole field and of every
   * row (Left, Right) or column (Up, Down): tiles stay on their line, and a
   * merge turns two tiles of value v into one of value 2v.
   */
  lemma ResolveConserves(g: Grid, a: Labels, d: Direction, reg: Region)
    requires IsGrid(g) && IsGrid(a) && Along(d, reg)
    ensures Sum(Resolve(g, a, d).field, reg) == Sum(g, reg)
  {
    ScanConserves(g, a, d, Cells, reg);
  }

  /** A move that did not set `moved` left the field and the labels as they were. */
  lemma ResolveNoOp(g: Grid, a: Labels, d: Direction)
    requires IsGrid(g) && IsGrid(a)
    requires !Resolve(g, a, d).moved
    ensures Resolve(g, a, d).field == g && Resolve(g, a, d).anims == a
  {
    ScanNoOp(g, a, d, Cells);
  }

  /**
   * Every label a move writes is `move<d>-<n>` with 1 <= n <= Size - 1, so
   * within the steps 1..Size for which animations.ts declares a transition;
   * it sits at a cell that held a tile before the move, and n never reaches
   * past the edge.
   */
  lemma ResolveLabels(g: Grid, a: Labels, d: Direction)
    requires IsGrid(g) && IsGrid(a)
    ensures LabelledFrom(g, a, d, Resolve(g, a, d).anims)
    ensures forall r, c :: 0 <= r < Size && 0 <= c < Size && Resolve(g, a, d).anims[r][c] != a[r][c] ==>
              Resolve(g, a, d).anims[r][c].MoveLabel? && 1 <= Resolve(g, a, d).anims[r][c].steps <= Size - 1
  {
    ScanLabels(g, a, d, Cells);
    var a' := Resolve(g, a, d).anims;
    forall r, c | 0 <= r < Size && 0 <= c < Size && a'[r][c] != a[r][c]
      ensures a'[r][c].MoveLabel? && 1 <= a'[r][c].steps <= Size - 1
    {
      assert LabelledAt(g, a, d, a', r, c);
    }
  }

  /**
   * After a move no tile has an empty cell next to it in the direction of
   * the move: every tile has slid as far as it can.
   */
  lemma ResolvePacked(g: Grid, a: Labels, d: Direction)
    requires IsGrid(g) && IsGrid(a)
    ensures var h := Resolve(g, a, d).field;
            forall i, j {:trigger h[i][j]} :: 0 <= i < Size && 0 <= j < Size && h[i][j] != Empty && InBounds(i + DRow(d), j + DCol(d))
              ==> h[i + DRow(d)][j + DCol(d)] != Empty
  {
    ScanPacked(g, a, d, Cells);
    var h := Resolve(g, a, d).field;
    forall i, j {:trigger h[i][j]} | 0 <= i < Size && 0 <= j < Size && h[i][j] != Empty && InBounds(i + DRow(d), j + DCol(d))
      ensures h[i + DRow(d)][j + DCol(d)] != Empty
    {
      assert ScanIndex(d, i, j) < Cells;
    }
  }

  /** Cells (r, c) and (r', c') share a side. */
  predicate Adjacent(r: int, c: int, r': int, c': int) {
    (r == r' && (c' == c + 1 || c == c' + 1)) || (c == c' && (r' == r + 1 || r == r' + 1))
  }

  /** A full field with no two equal neighbours. */
  ghost predicate Stuck(g: Grid)
    requires IsGrid(g)
  {
    (forall r, c :: 0 <= r < Size && 0 <= c < Size ==> g[r][c] != Empty)
    && forall r, c, r', c' ::
         0 <= r < Size && 0 <= c < Size && 0 <= r' < Size && 0 <= c' < Size && Adjacent(r, c, r', c')
         ==> g[r][c] != g[r'][c']
  }

  /** On a stuck field every step is blocked. */
  lemma StuckBlocked(g: Grid, d: Direction, r: nat, c: nat)
    requires IsGrid(g) && InBounds(r, c) && Stuck(g)
    ensures Step(g, d, r, c) == (Blocked, g)
  {
    var dr, dc := r + DRow(d), c + DCol(d);
    if InBounds(dr, dc) {
      assert Adjacent(r, c, dr, dc);
    }
  }

  lemma VisitStuck(g: Grid, a: Labels, d: Direction, r: nat, c: nat)
    requires IsGrid(g) && IsGrid(a) && InBounds(r, c) && Stuck(g)
    ensures Visit(ScanState(g, a, false), d, r, c) == ScanState(g, a, false)
  {
    StuckBlocked(g, d, r, c);
    WalkStop(g, d, r, c);
  }

  lemma {:induction false} StuckScan(g: Grid, a: Labels, d: Direction, n: nat)
    requires IsGrid(g) && IsGrid(a) && n <= Cells && Stuck(g)
    ensures ScanPrefix(g, a, d, n) == ScanState(g, a, false)
  {
    if n > 0 {
      StuckScan(g, a, d, n - 1);
      VisitStuck(g, a, d, ScanCell(d, n - 1).0, ScanCell(d, n - 1).1);
    }
  }

  /** On a stuck field no direction moves anything: the game is over. */
  lemma StuckNoMove(g: Grid, a: Labels, d: Direction)
    requires IsGrid(g) && IsGrid(a) && Stuck(g)
    ensures !Resolve(g, a, d).moved && Resolve(g, a, d).field == g
  {
    StuckScan(g, a, d, Cells);
  }
}
