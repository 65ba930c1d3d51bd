/**
 * The spawn of fillRandom (field.component.ts:77-113): the value stack it
 * draws from, the value it picks and the empty cell it fills. The two calls
 * of Math.random() become the parameters rndValue and rndCell in [0, 1).
 */
module Spawn {
  import opened Field

  function Pow(b: nat, e: nat): (p: nat)
    ensures b >= 1 ==> p >= 1
  {
    if e == 0 then 1 else b * Pow(b, e - 1)
  }

  /** `baseValue ** baseValue`: above this largest tile, spawns may exceed Base. */
  const Threshold: nat := Pow(Base, Base)

  lemma ThresholdValue()
    ensures Threshold == 4
  {
  }

  /** `Math.floor(rnd * n)`: the index a draw rnd of Math.random() picks among n entries. */
  function RandomIndex(rnd: real, n: nat): (i: nat)
    requires 0.0 <= rnd < 1.0 && n > 0
    ensures i < n
  {
    assert rnd * (n as real) < n as real by {
      assert (1.0 - rnd) * (n as real) > 0.0;
    }
    (rnd * (n as real)).Floor
  }

  /**
   * The values the `stack` loop of fillRandom pushes from `current` on, while
   * `current <= max / Threshold`. The source divides as reals, so the test is
   * written `current * Threshold <= max` here.
   */
  function StackFrom(current: nat, max: nat): seq<nat>
    requires current >= 1
    decreases max - current
  {
    ThresholdValue();
    if current * Threshold <= max then [current] + StackFrom(current * Base, max) else []
  }

  /** One more element of the stack: current itself, then the stack from the next power. */
  lemma StackFromNext(current: nat, max: nat)
    requires current >= 1 && current * Threshold <= max
    ensures current * Base > current
    ensures StackFrom(current, max) == [current] + StackFrom(current * Base, max)
  {
  }

  /** The `stack` of fillRandom for largest tile max. */
  function SpawnStack(max: nat): seq<nat> {
    StackFrom(Base, max)
  }

  lemma {:induction false} StackFromShape(e: nat, max: nat)
    requires e >= 1
    ensures forall i :: 0 <= i < |StackFrom(Pow(Base, e), max)| ==>
              StackFrom(Pow(Base, e), max)[i] == Pow(Base, e + i)
              && StackFrom(Pow(Base, e), max)[i] * Threshold <= max
    ensures Pow(Base, e + |StackFrom(Pow(Base, e), max)|) * Threshold > max
    decreases max - Pow(Base, e)
  {
    ThresholdValue();
    var s := StackFrom(Pow(Base, e), max);
    if Pow(Base, e) * Threshold <= max {
      assert Pow(Base, e) * Base == Pow(Base, e + 1);
      StackFromShape(e + 1, max);
      var t := StackFrom(Pow(Base, e + 1), max);
      assert s == [Pow(Base, e)] + t;
      forall i | 0 <= i < |s|
        ensures s[i] == Pow(Base, e + i) && s[i] * Threshold <= max
      {
        if i > 0 {
          assert s[i] == t[i - 1];
        }
      }
      assert e + |s| == (e + 1) + |t|;
    }
  }

  /**
   * The stack is the ascending powers Base, Base^2, ... of Base, each at most
   * max / Threshold, and it stops at the first power above that cap.
   */
  lemma SpawnStackShape(max: nat)
    ensures forall i :: 0 <= i < |SpawnStack(max)| ==>
              SpawnStack(max)[i] == Pow(Base, i + 1) && SpawnStack(max)[i] * Threshold <= max
    ensures Pow(Base, |SpawnStack(max)| + 1) * Threshold > max
  {
    assert Pow(Base, 1) == Base;
    StackFromShape(1, max);
  }

  lemma {:induction false} PowIsTile(e: nat)
    requires e >= 1
    ensures IsTile(Pow(Base, e))
  {
    if e > 1 {
      PowIsTile(e - 1);
      assert Pow(Base, e) / Base == Pow(Base, e - 1);
    }
  }

  /** A tile larger than Threshold is at least Base * Threshold. */
  lemma TileAboveThreshold(v: nat)
    requires IsTile(v) && v > Threshold
    ensures v >= Base * Threshold
  {
    ThresholdValue();
    assert IsTile(v / Base);
    assert v / Base != Base;
  }

  /** On a field of tile values the stack is never empty once the largest tile passes Threshold. */
  lemma StackNonEmpty(max: nat)
    requires IsTile(max) && max > Threshold
    ensures |SpawnStack(max)| > 0
  {
    TileAboveThreshold(max);
  }

  /** The value fillRandom writes, for largest tile max and draw rnd. */
  function SpawnValue(max: nat, rnd: real): nat
    requires IsTile(max) && 0.0 <= rnd < 1.0
  {
    if max > Threshold then
      var stack := SpawnStack(max);
      StackNonEmpty(max);
      stack[RandomIndex(rnd, |stack|)]
    else
      Base
  }

  /**
   * The spawned value is a tile value; it is Base while the largest tile is at
   * most Threshold, and afterwards a power of Base at most max / Threshold.
   */
  lemma SpawnValueRange(max: nat, rnd: real)
    requires IsTile(max) && 0.0 <= rnd < 1.0
    ensures IsTile(SpawnValue(max, rnd))
    ensures max <= Threshold ==> SpawnValue(max, rnd) == Base
    ensures max > Threshold ==>
              SpawnValue(max, rnd) in SpawnStack(max) && SpawnValue(max, rnd) * Threshold <= max
  {
    if max > Threshold {
      SpawnStackShape(max);
      StackNonEmpty(max);
      var i := RandomIndex(rnd, |SpawnStack(max)|);
      PowIsTile(i + 1);
    }
  }

  /** The value fillRandom writes into field g. */
  function SpawnValueFor(g: Grid, rndValue: real): nat
    requires ValidGrid(g) && 0.0 <= rndValue < 1.0
  {
    MaxTileIsTile(g);
    SpawnValue(MaxTile(g), rndValue)
  }

  /** The empty cell fillRandom fills: entry Math.floor(rndCell * |empties|) of the row-major list. */
  function SpawnCell(g: Grid, rndCell: real): (p: (nat, nat))
    requires IsGrid(g) && |EmptyCells(g)| > 0 && 0.0 <= rndCell < 1.0
    ensures InBounds(p.0, p.1) && g[p.0][p.1] == Empty
  {
    EmptyCellsExact(g);
    var empties := EmptyCells(g);
    empties[RandomIndex(rndCell, |empties|)]
  }

  /** The field after fillRandom. */
  function Spawned(g: Grid, rndValue: real, rndCell: real): Grid
    requires ValidGrid(g) && |EmptyCells(g)| > 0
    requires 0.0 <= rndValue < 1.0 && 0.0 <= rndCell < 1.0
  {
    var (r, c) := SpawnCell(g, rndCell);
    Set(g, r, c, SpawnValueFor(g, rndValue))
  }

  /**
   * fillRandom puts the spawn value into one cell that was empty and changes
   * no other cell: one tile more, the sum grows by the value, and every tile
   * is still a tile value.
   */
  lemma SpawnedFillsOneEmptyCell(g: Grid, rndValue: real, rndCell: real)
    requires ValidGrid(g) && |EmptyCells(g)| > 0
    requires 0.0 <= rndValue < 1.0 && 0.0 <= rndCell < 1.0
    ensures var (r, c) := SpawnCell(g, rndCell);
            var h := Spawned(g, rndValue, rndCell);
            g[r][c] == Empty && h[r][c] == SpawnValueFor(g, rndValue) && h[r][c] != Empty
            && (forall i, j :: 0 <= i < Size && 0 <= j < Size && (i != r || j != c) ==> h[i][j] == g[i][j])
            && Tiles(h) == Tiles(g) + 1
            && Sum(h, Whole) == Sum(g, Whole) + h[r][c]
            && ValidGrid(h)
  {
    MaxTileIsTile(g);
    var value := SpawnValue(MaxTile(g), rndValue);
    SpawnValueRange(MaxTile(g), rndValue);
    var (r, c) := SpawnCell(g, rndCell);
    TilesSet(g, r, c, value);
    SumSet(g, r, c, value, Whole);
  }
}
