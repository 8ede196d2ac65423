/**
 Thresholding a temperature grid into an anomaly mask, and the anomalous area
 of a mask.
 */
module Detection {
  import opened Geometry

  /** Per-pixel temperatures, row by row (`grid[y][x]`). */
  type Grid = seq<seq<real>>

  /** Per-pixel anomaly flags, row by row (`mask[y][x]`). */
  type Mask = seq<seq<bool>>

  /**
   The external contour finder: from a mask to the boundaries of its true
   regions. Only its being a pure function of the mask is relied on.
   */
  type ContourFinder = Mask -> seq<Contour>

  /** Same number of rows, and row by row the same number of cells. */
  predicate SameShape<A, B>(a: seq<seq<A>>, b: seq<seq<B>>) {
    && |a| == |b|
    && forall i :: 0 <= i < |a| ==> |a[i]| == |b[i]|
  }

  /** The comparison `row > t`, element by element. */
  function ThresholdRow(row: seq<real>, t: real): (r: seq<bool>)
    ensures |r| == |row|
    ensures forall j :: 0 <= j < |row| ==> (r[j] <==> row[j] > t)
  {
    if row == [] then [] else [row[0] > t] + ThresholdRow(row[1..], t)
  }

  /**
   The anomaly mask `grid > threshold`: it has the grid's shape, and a cell is
   anomalous exactly when its temperature is strictly above the threshold (a
   cell equal to the threshold is not).
   */
  function Threshold(g: Grid, t: real): (m: Mask)
    ensures SameShape(g, m)
    ensures forall i, j :: 0 <= i < |g| && 0 <= j < |g[i]| ==> (m[i][j] <==> g[i][j] > t)
  {
    if g == [] then [] else [ThresholdRow(g[0], t)] + Threshold(g[1..], t)
  }

  /** Every anomalous cell of `a` is anomalous in `b` (same shapes). */
  predicate Included(a: Mask, b: Mask) {
    && SameShape(a, b)
    && forall i, j :: 0 <= i < |a| && 0 <= j < |a[i]| && a[i][j] ==> b[i][j]
  }

  /** The number of cells of a grid or mask. */
  function Cells<A>(m: seq<seq<A>>): nat {
    if m == [] then 0 else |m[0]| + Cells(m[1..])
  }

  /** The number of true cells of one mask row. */
  function CountRow(row: seq<bool>): (n: nat)
    ensures n <= |row|
    ensures n == 0 <==> forall j :: 0 <= j < |row| ==> !row[j]
    ensures n == |row| <==> forall j :: 0 <= j < |row| ==> row[j]
  {
    if row == [] then 0 else (if row[0] then 1 else 0) + CountRow(row[1..])
  }

  /** The anomalous area of a mask: its number of true cells. */
  function Area(m: Mask): (n: nat)
    ensures n <= Cells(m)
    ensures n == 0 <==> forall i, j :: 0 <= i < |m| && 0 <= j < |m[i]| ==> !m[i][j]
    ensures n == Cells(m) <==> forall i, j :: 0 <= i < |m| && 0 <= j < |m[i]| ==> m[i][j]
  {
    if m == [] then 0 else CountRow(m[0]) + Area(m[1..])
  }

  /** A row that is pointwise below another has no more true cells. */
  lemma {:induction false} CountRowMonotone(a: seq<bool>, b: seq<bool>)
    requires |a| == |b|
    requires forall j :: 0 <= j < |a| && a[j] ==> b[j]
    ensures CountRow(a) <= CountRow(b)
  {
    if a != [] {
      CountRowMonotone(a[1..], b[1..]);
    }
  }

  /** A mask included in another has no larger anomalous area. */
  lemma {:induction false} AreaMonotone(a: Mask, b: Mask)
    requires Included(a, b)
    ensures Area(a) <= Area(b)
  {
    if a != [] {
      CountRowMonotone(a[0], b[0]);
      assert Included(a[1..], b[1..]) by {
        forall i, j | 0 <= i < |a[1..]| && 0 <= j < |a[1..][i]| && a[1..][i][j]
          ensures b[1..][i][j]
        {
          assert a[i + 1][j];
        }
      }
      AreaMonotone(a[1..], b[1..]);
    }
  }

  /** Raising the threshold never adds an anomalous cell. */
  lemma ThresholdMonotone(g: Grid, t1: real, t2: real)
    requires t1 <= t2
    ensures Included(Threshold(g, t2), Threshold(g, t1))
  {
  }

  /** Raising the threshold never increases the anomalous area. */
  lemma ThresholdAreaMonotone(g: Grid, t1: real, t2: real)
    requires t1 <= t2
    ensures Area(Threshold(g, t2)) <= Area(Threshold(g, t1))
  {
    ThresholdMonotone(g, t1, t2);
    AreaMonotone(Threshold(g, t2), Threshold(g, t1));
  }

  /** Shapes agree, so the cell counts of a grid and its mask agree. */
  lemma {:induction false} CellsSameShape<A, B>(a: seq<seq<A>>, b: seq<seq<B>>)
    requires SameShape(a, b)
    ensures Cells(a) == Cells(b)
  {
    if a != [] {
      assert SameShape(a[1..], b[1..]) by {
        forall i | 0 <= i < |a[1..]|
          ensures |a[1..][i]| == |b[1..][i]|
        {
          assert |a[i + 1]| == |b[i + 1]|;
        }
      }
      CellsSameShape(a[1..], b[1..]);
    }
  }

  /**
   The extremes: a threshold below every temperature marks the whole grid, a
   threshold at or above every temperature marks nothing.
   */
  lemma ThresholdExtremes(g: Grid, t: real)
    ensures (forall i, j :: 0 <= i < |g| && 0 <= j < |g[i]| ==> g[i][j] > t)
            ==> Area(Threshold(g, t)) == Cells(g)
    ensures (forall i, j :: 0 <= i < |g| && 0 <= j < |g[i]| ==> g[i][j] <= t)
            ==> Area(Threshold(g, t)) == 0
  {
    CellsSameShape(g, Threshold(g, t));
  }
}
