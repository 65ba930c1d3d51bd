# ng-2048 FieldComponent in Dafny

A model of the game engine of ng-2048, a 2048 clone written as one Angular
component, `FieldComponent` (`src/app/field/field/field.component.ts`). The
component keeps a 4x4 `field` of tiles and a matching `animations` matrix of
labels. Four keys trigger `moveUp`, `moveRight`, `moveDown` and `moveLeft`.
Each move scans the cells and walks every tile towards the edge, one
`mergeTiles` step at a time. It records how far each tile travelled as a
`move<Dir>-<n>` label, and when anything moved it calls `fillRandom`, which
puts a new tile into a random empty cell.

The project has four modules:

- `Field` (field.dfy): the field as a `seq<seq<nat>>`, where `Empty` (0)
  stands for `null`, and the counting functions over it: sum of tile values,
  number of tiles, the row-major list of empty cells, the largest tile.
- `Moves` (moves.dfy): the move logic as functions. `Step` is one call of
  `mergeTiles`. `Walk` is the `searchIndex` loop for one tile. `Visit` is
  one pass of the inner loop body. `ScanPrefix` and `Resolve` are the two
  nested loops in the scan order of each direction. The lemmas state what a
  move preserves and what it may change.
- `Spawn` (spawn.dfy): the value stack, the value and the cell `fillRandom`
  picks, as functions of the two `Math.random()` draws.
- `Component` (component.dfy): class `FieldComponent` with the fields
  `field` and `animations`. Its methods reassign them, following the
  source's own loops, and each is proved to compute the matching function of
  `Moves` or `Spawn`.
- `Scenarios` (scenarios.dfy): two concrete moves of one row, worked out
  through the scan.

The four move methods differ only in the direction of the step and in the
scan order. Rows run bottom to top for `moveDown`, columns right to left for
`moveRight`, and both run forwards otherwise. They are one method,
`FieldComponent.Move(direction, …)`, which takes that order from the
direction.

The code has no guard against a tile merging twice in one move, and the
model keeps it that way. Take the row `[2, 2, 4, _]` moved left: the
second 2 merges into the first, giving 4, and the 4 behind it then slides
and merges into that new 4, giving `[8, _, _, _]` (`Scenarios.DoubleMergeLeft`).
The displacement `diff` of a tile is the number of slides plus 1 for a
final merge, and it is the distance from the tile's start cell to the cell
where it ends up (`Moves.WalkShape`).

## Model

| member | source | states |
|---|---|---|
| Field.EmptyGrid | src/app/field/field/field.component.ts:50 | the initial field has every cell empty |
| Field.EmptyCellsExact | src/app/field/field/field.component.ts:79-89 | the gathered `empties` are exactly the empty cells, each once, in row-major order, and there are 16 minus the number of tiles of them |
| Field.MaxTileExact | src/app/field/field/field.component.ts:80-88 | `max` is at least baseValue, bounds every tile, and is baseValue or the value of some tile |
| Moves.StepConserves | src/app/field/field/field.component.ts:242-253 | one mergeTiles step keeps the sum of tile values of the field and of the moving line, because a slide moves the value and a merge turns v + v into 2v |
| Moves.StepTiles | src/app/field/field/field.component.ts:243-253 | a merge (`true`) removes exactly one tile and a slide (`false`) none; after a step that is not `null` the field has an empty cell |
| Moves.StepValid | src/app/field/field/field.component.ts:250 | doubling on a merge keeps every tile a power of two of at least 2 |
| Moves.StepLocal | src/app/field/field/field.component.ts:239-251 | mergeTiles writes only the tile's own cell and its neighbour in the direction; every other cell, including those further ahead, is unchanged |
| Moves.Walk | src/app/field/field/field.component.ts:125-134 | the `searchIndex` loop stops at the edge: the displacement never exceeds the distance of the tile to the edge |
| Moves.WalkRest | src/app/field/field/field.component.ts:125-127 | a slide (`false`) continues the loop from the cell the tile slid into, with one more slide |
| Moves.WalkStop | src/app/field/field/field.component.ts:127-133 | a `true` or `null` result ends the loop with that step's field; `diff` counts 1 more for `true` |
| Moves.WalkConserves | src/app/field/field/field.component.ts:125-134 | walking a tile keeps the sum of the field and of every row (left/right) or column (up/down) |
| Moves.WalkTiles | src/app/field/field/field.component.ts:125-134 | a walk removes one tile exactly when it ends in a merge, and a walk with a non-zero `diff` leaves an empty cell |
| Moves.WalkNoOp | src/app/field/field/field.component.ts:128-129 | a walk whose `diff` is 0 changed nothing |
| Moves.WalkValid | src/app/field/field/field.component.ts:125-134 | a walk keeps every tile a power of two of at least 2 |
| Moves.WalkLocal | src/app/field/field/field.component.ts:125-134 | a walk changes only cells on the tile's own line, from its start cell to the edge; tiles never leave their row or column and never move backwards |
| Moves.WalkShape | src/app/field/field/field.component.ts:125-134 | after the walk of a tile with displacement `diff`, the cell `diff` steps ahead holds the tile, doubled if it merged into an equal tile there; the cells from the start cell up to it are empty; unless it merged, the next cell is the edge or holds a tile of another value |
| Moves.ScanOrderBijective | src/app/field/field/field.component.ts:115-233 | the nested loops of each move visit all 16 cells, each exactly once |
| Moves.ScanNearestFirst | src/app/field/field/field.component.ts:115-233 | of two cells on one moving line, the one nearer the target edge is visited first |
| Moves.ScanPrefixNext | src/app/field/field/field.component.ts:118-137 | each pass of the inner loop is the visit of the next cell in scan order |
| Moves.Resolve | src/app/field/field/field.component.ts:115-143 | a scan never adds tiles, keeps tiles powers of two, and when it sets `moved` it leaves an empty cell, so `fillRandom` has a target |
| Moves.ResolveConserves | src/app/field/field/field.component.ts:115-138 | a move keeps the sum of tile values of the field and of every line along the move |
| Moves.ResolveNoOp | src/app/field/field/field.component.ts:139-142 | a move that does not set `moved` leaves the field and the labels unchanged |
| Moves.ResolveLabels | src/app/field/field/field.component.ts:129-132 | every label a move changes is `move<Dir>-<diff>` with 1 <= diff <= 3, written at the source cell of a tile, and never pointing past the edge |
| Moves.ResolvePacked | src/app/field/field/field.component.ts:115-138 | after a move no tile has an empty cell next to it in the direction of the move: every tile slid as far as it could |
| Moves.StuckNoMove | src/app/field/field/field.component.ts:115-143 | on a full field with no two equal neighbours no direction moves anything |
| Scenarios.DoubleMergeLeft | src/app/field/field/field.component.ts:205-233 | moving the row `[2, 2, 4, _]` left gives `[8, _, _, _]` with labels moveLeft-1 and moveLeft-2: a tile can merge twice in one move |
| Scenarios.SlideAndMergeRight | src/app/field/field/field.component.ts:145-173 | moving the row `[2, _, 2, _]` right gives `[_, _, _, 4]` with labels moveRight-1 and moveRight-3 |
| Spawn.RandomIndex | src/app/field/field/field.component.ts:105 | `Math.floor(Math.random() * n)` is a valid index of a non-empty list |
| Spawn.SpawnStackShape | src/app/field/field/field.component.ts:98-104 | the stack is 2, 4, 8, … in order, every entry at most max / 4, and the next power would exceed it |
| Spawn.StackNonEmpty | src/app/field/field/field.component.ts:97-105 | when the largest tile exceeds 4 the stack has an entry, so the draw from it is defined |
| Spawn.SpawnValueRange | src/app/field/field/field.component.ts:95-106 | the spawned value is 2 while the largest tile is at most 4, and otherwise an element of the stack, at most max / 4; it is always a power of two |
| Spawn.SpawnCell | src/app/field/field/field.component.ts:108 | the drawn coordinates name a cell that is empty |
| Spawn.SpawnedFillsOneEmptyCell | src/app/field/field/field.component.ts:108-109 | fillRandom writes the value into one previously empty cell and nothing else: one more tile, and the sum grows by the value |
| Component.AllBase | src/app/field/field/field.component.ts:265-267 | every label is 'base' |
| Component.Played | src/app/field/field/field.component.ts:115-143 | after a move, with or without spawn, the field still holds only powers of two |
| Component.PlayedNoOp | src/app/field/field/field.component.ts:139-142 | a move that moved nothing changes nothing and spawns nothing |
| Component.PlayedSpawnsOne | src/app/field/field/field.component.ts:139-141 | a move that moved something spawns exactly one tile into a cell the scan left empty; the sum grows by exactly the spawned value |
| Component.GatherEmpties | src/app/field/field/field.component.ts:79-89 | the loops return the row-major list of empty cells and the largest tile |
| Component.BuildStack | src/app/field/field/field.component.ts:98-104 | the `while` loop builds exactly `SpawnStack(max)`: powers of two from 2 while at most max / 4 |
| Component.Clone | src/app/field/field/field.component.ts:284-290 | the copy equals the original, row by row |
| Component.FieldComponent.constructor | src/app/field/field/field.component.ts:47-60 | a new component has an empty field |
| Component.FieldComponent.OnInit | src/app/field/field/field.component.ts:62-67 | ngOnInit resets every label to 'base' and spawns one tile, or stops on a full field |
| Component.FieldComponent.Fill | src/app/field/field/field.component.ts:73-75 | fill sets cell (x, y) to baseValue and changes nothing else |
| Component.FieldComponent.ResetAnimations | src/app/field/field/field.component.ts:265-267 | every label becomes 'base' |
| Component.FieldComponent.FillRandom | src/app/field/field/field.component.ts:77-113 | fillRandom leaves the field that `Spawned` describes; on a full field it stops without writing |
| Component.FieldComponent.MergeTiles | src/app/field/field/field.component.ts:235-263 | mergeTiles returns `false`, `true` or `null` and updates the field exactly as `Step` does |
| Component.FieldComponent.WalkTile | src/app/field/field/field.component.ts:124-135 | the `searchIndex` loop leaves the field of `Walk` and computes its `diff` |
| Component.FieldComponent.VisitCell | src/app/field/field/field.component.ts:122-136 | one inner-loop pass updates field, labels and `moved` exactly as `Visit` |
| Component.FieldComponent.Scan | src/app/field/field/field.component.ts:116-138 | the nested loops leave field, labels and `moved` as `Resolve` |
| Component.FieldComponent.Move | src/app/field/field/field.component.ts:115-233 | each of moveUp, moveRight, moveDown and moveLeft leaves field and labels as `Played` |

## Left out

- Angular wiring is not modelled: the `@Component` metadata, the
  `@HostListener` key bindings and `ngAfterViewChecked`. Each key binding
  only calls the matching move.
- `render` and its `setTimeout` callback are not modelled. They copy
  `field` and `animations` into the view matrices and reset the labels after
  300 ms. The copy itself is `Clone`.
- FieldComponent.constructor: sets `animations` to all 'base'. The source
  leaves `animations` undefined until ngOnInit calls resetAnimations, so a
  move before ngOnInit would throw when it writes a label. Angular always
  runs ngOnInit first, so the model does not represent that state.
- `field` and `animations` are values (`seq<seq<…>>`) that each method
  reassigns. The model therefore does not represent the aliasing of
  `mergeTiles(this.field, …)` with `this.field`, nor the row sharing that
  `clone` guards against.
- `console.log` and the unused `grid` field are not modelled.
- The 'Game over!' `alert` in fillRandom is not modelled. It is a browser
  dialog. On a full field the code goes on to read `coords[0]` of an
  undefined entry and throws before writing. `FillRandom` and `OnInit`
  model this as returning `gameOver` with the field unchanged. A move never
  reaches this case, because `Resolve` proves the field has an empty cell
  whenever `moved` is set.
- `Math.random()` is not modelled. Its two draws in fillRandom are the
  parameters `rndValue` and `rndCell` in [0, 1).
- The division `max / baseValue ** baseValue` is not modelled as JavaScript
  number arithmetic. It divides as reals, so the loop test `current <= end`
  is written `current * 4 <= max`, which is equivalent for non-negative
  values.
- Animation labels are the datatype `MoveLabel(direction, n)` rather than
  the strings `move<Dir>-<n>`. The templates and keyframes of
  `src/app/field/animations.ts` are not part of this model.
- JavaScript numbers are unbounded `nat` here. Tile values stay far below
  2^53 on a 16-cell board, so no precision loss is modelled.
- The methods of `FieldComponent` require `Valid()`, which includes every
  tile being a power of two of at least 2. The source never checks this.
  It holds from the empty initial field through every `fill`, merge and
  spawn, as the contracts show. It is what makes the stack of fillRandom
  non-empty.
