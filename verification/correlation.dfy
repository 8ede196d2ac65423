/**
 Correlating the anomaly mask with the registered regions: for each region, in
 registry order, the half-open slice of the mask under its rectangle, whether
 any cell of it is anomalous, and if so the slice's contours moved back into
 whole-image coordinates.
 */
module Correlation {
  import opened Geometry
  import opened Detection
  import opened Rois

  /** What the check reports for one region: its name, the verdict, the contours drawn. */
  datatype Verdict = Verdict(name: string, hasAnomaly: bool, contours: seq<Contour>)

  /**
   The rectangle can be sliced without numpy's clamping or negative indices:
   every bound is non-negative and the exclusive right and bottom bounds lie
   within the mask. The top-left corner may lie past them; the slice is then
   empty.
   */
  predicate Fits<A>(r: Rect, m: seq<seq<A>>) {
    && 0 <= r.topLeft.x && 0 <= r.topLeft.y
    && 0 <= r.right && 0 <= r.bottom
    && r.bottom <= |m|
    && forall i :: 0 <= i < |m| ==> r.right <= |m[i]|
  }

  /** Every region of the registry fits the mask. */
  predicate AllFit<A>(reg: Registry, m: seq<seq<A>>) {
    forall k :: 0 <= k < |reg| ==> Fits(reg[k].rect, m)
  }

  /** Row `i`, column `j` lies in the half-open rectangle. */
  predicate InRect(r: Rect, i: int, j: int) {
    r.topLeft.y <= i < r.bottom && r.topLeft.x <= j < r.right
  }

  /** Some anomalous cell of the mask lies in the rectangle. */
  predicate AnyInRect(m: Mask, r: Rect) {
    exists i, j :: 0 <= i < |m| && 0 <= j < |m[i]| && InRect(r, i, j) && m[i][j]
  }

  /** The length of the half-open interval [lo, hi), zero when hi <= lo. */
  function Span(lo: int, hi: int): (n: nat)
    ensures n == 0 || lo + n == hi
  {
    if lo < hi then hi - lo else 0
  }

  /** `row[x0:x1]` for 0 <= x0 and 0 <= x1 <= |row|. */
  function SliceRow(row: seq<bool>, x0: int, x1: int): (s: seq<bool>)
    requires 0 <= x0 && 0 <= x1 <= |row|
    ensures |s| == Span(x0, x1)
    ensures forall j :: 0 <= j < |s| ==> s[j] == row[x0 + j]
  {
    if x0 < x1 then row[x0..x1] else []
  }

  /** `SliceRow` applied to every row, for rows at least `x1` wide. */
  function SliceRows(rows: Mask, x0: int, x1: int): (s: Mask)
    requires 0 <= x0 && 0 <= x1
    requires forall i :: 0 <= i < |rows| ==> x1 <= |rows[i]|
    ensures |s| == |rows|
    ensures forall i :: 0 <= i < |s| ==> |s[i]| == Span(x0, x1)
    ensures forall i, j :: 0 <= i < |s| && 0 <= j < Span(x0, x1) ==> s[i][j] == rows[i][x0 + j]
  {
    if rows == [] then [] else [SliceRow(rows[0], x0, x1)] + SliceRows(rows[1..], x0, x1)
  }

  /** `mask[y0:y1, x0:x1]`: the cells of the half-open rectangle, re-indexed from (0, 0). */
  function Slice(m: Mask, r: Rect): (s: Mask)
    requires Fits(r, m)
    ensures |s| == Span(r.topLeft.y, r.bottom)
    ensures forall i :: 0 <= i < |s| ==> |s[i]| == Span(r.topLeft.x, r.right)
    ensures forall i, j :: 0 <= i < |s| && 0 <= j < Span(r.topLeft.x, r.right) ==>
                            s[i][j] == m[r.topLeft.y + i][r.topLeft.x + j]
  {
    if r.topLeft.y < r.bottom then SliceRows(m[r.topLeft.y..r.bottom], r.topLeft.x, r.right) else []
  }

  /** `np.any` of one row. */
  function AnyRow(row: seq<bool>): (b: bool)
    ensures b <==> exists j :: 0 <= j < |row| && row[j]
  {
    if row == [] then false else row[0] || AnyRow(row[1..])
  }

  /** `np.any` of a mask: some cell is true. */
  function AnyCell(s: Mask): (b: bool)
    ensures b <==> exists i, j :: 0 <= i < |s| && 0 <= j < |s[i]| && s[i][j]
  {
    if s == [] then false
    else
      assert forall i, j :: 1 <= i < |s| && 0 <= j < |s[i]| ==> s[i][j] == s[1..][i - 1][j];
      AnyRow(s[0]) || AnyCell(s[1..])
  }

  /** Any cell of the slice is true exactly when some cell of the rectangle is anomalous. */
  lemma SliceAnyIffRect(m: Mask, r: Rect)
    requires Fits(r, m)
    ensures AnyCell(Slice(m, r)) <==> AnyInRect(m, r)
  {
    var s := Slice(m, r);
    if AnyCell(s) {
      var i, j :| 0 <= i < |s| && 0 <= j < |s[i]| && s[i][j];
      var y, x := r.topLeft.y + i, r.topLeft.x + j;
      assert 0 <= y < |m| && 0 <= x < |m[y]| && InRect(r, y, x) && m[y][x];
    }
    if AnyInRect(m, r) {
      var y, x :| 0 <= y < |m| && 0 <= x < |m[y]| && InRect(r, y, x) && m[y][x];
      var i, j := y - r.topLeft.y, x - r.topLeft.x;
      assert 0 <= i < |s| && 0 <= j < |s[i]| && s[i][j];
    }
  }

  /**
   The check of one region: an anomaly is reported exactly when some mask
   cell in the half-open rectangle is true; then the contours are those found
   in the slice, moved by the rectangle's top-left corner; otherwise none.
   */
  function CheckRoi(m: Mask, e: Entry, finder: ContourFinder): (v: Verdict)
    requires Fits(e.rect, m)
    ensures v.name == e.name
    ensures v.hasAnomaly <==> AnyInRect(m, e.rect)
    ensures !v.hasAnomaly ==> v.contours == []
    ensures v.hasAnomaly ==> Translate(v.contours, Negate(e.rect.topLeft)) == finder(Slice(m, e.rect))
  {
    var s := Slice(m, e.rect);
    SliceAnyIffRect(m, e.rect);
    if AnyCell(s) then
      var local := finder(s);
      TranslateRoundTrip(local, e.rect.topLeft);
      Verdict(e.name, true, Translate(local, e.rect.topLeft))
    else
      Verdict(e.name, false, [])
  }

  /**
   `check_rois_for_anomalies` over a registry: exactly one verdict per region,
   in registry order, each the check of that region.
   */
  function Correlate(m: Mask, reg: Registry, finder: ContourFinder): (vs: seq<Verdict>)
    requires AllFit(reg, m)
    ensures |vs| == |reg|
    ensures forall k :: 0 <= k < |reg| ==> vs[k] == CheckRoi(m, reg[k], finder)
  {
    if reg == [] then []
    else [CheckRoi(m, reg[0], finder)] + Correlate(m, reg[1..], finder)
  }

  /** The verdicts name the regions in registry order, and say whether each holds an anomalous cell. */
  lemma CorrelateVerdicts(m: Mask, reg: Registry, finder: ContourFinder)
    requires AllFit(reg, m)
    ensures forall k :: 0 <= k < |reg| ==> Correlate(m, reg, finder)[k].name == Names(reg)[k]
    ensures forall k :: 0 <= k < |reg| ==> (Correlate(m, reg, finder)[k].hasAnomaly <==> AnyInRect(m, reg[k].rect))
  {
  }

  /** With no anomalous cell anywhere, every region is reported clear with no contours. */
  lemma CorrelateAllClear(m: Mask, reg: Registry, finder: ContourFinder)
    requires AllFit(reg, m)
    requires forall i, j :: 0 <= i < |m| && 0 <= j < |m[i]| ==> !m[i][j]
    ensures forall v :: v in Correlate(m, reg, finder) ==> !v.hasAnomaly && v.contours == []
  {
  }

  /**
   Redefining a region changes only its own verdict, at its old place in the
   order; the verdict follows the new rectangle only.
   */
  lemma CorrelateAfterRedefine(m: Mask, reg: Registry, name: string, rect: Rect, finder: ContourFinder)
    requires AllFit(reg, m) && Fits(rect, m)
    ensures AllFit(Put(reg, name, rect), m)
    ensures forall k :: 0 <= k < |reg| ==>
      Correlate(m, Put(reg, name, rect), finder)[k]
        == if reg[k].name == name then CheckRoi(m, Entry(name, rect), finder)
           else Correlate(m, reg, finder)[k]
  {
    var r := Put(reg, name, rect);
    assert forall k :: 0 <= k < |reg| ==> Names(reg)[k] == reg[k].name;
    assert forall k :: 0 <= k < |r| ==> Names(r)[k] == r[k].name;
    assert forall k :: 0 <= k < |r| ==> r[k] == Entry(name, rect) || r[k] in reg;
  }
}
