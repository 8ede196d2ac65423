/**
 Pixel coordinates and contours, and the translation that moves contours found
 inside a region of interest back into whole-image coordinates.
 */
module Geometry {

  /** A pixel position as the contour finder reports it: column `x`, row `y`. */
  datatype Point = Point(x: int, y: int)

  /** One closed boundary, as an ordered list of points. */
  type Contour = seq<Point>

  /** The point `p` moved by `off`. */
  function Offset(p: Point, off: Point): Point {
    Point(p.x + off.x, p.y + off.y)
  }

  /** The offset that undoes `off`. */
  function Negate(off: Point): Point {
    Point(-off.x, -off.y)
  }

  /** Every point of one contour moved by `off`, in the same order. */
  function ShiftContour(c: Contour, off: Point): (r: Contour)
    ensures |r| == |c|
    ensures forall j :: 0 <= j < |c| ==> r[j] == Offset(c[j], off)
  {
    if c == [] then [] else [Offset(c[0], off)] + ShiftContour(c[1..], off)
  }

  /**
   Adds the offset to every point of every contour (numpy's broadcast of
   `contour + np.array([x, y])`): the number of contours, the length of each
   and the order of points are kept.
   */
  function Translate(cs: seq<Contour>, off: Point): (r: seq<Contour>)
    ensures |r| == |cs|
    ensures forall i :: 0 <= i < |cs| ==> |r[i]| == |cs[i]|
    ensures forall i, j :: 0 <= i < |cs| && 0 <= j < |cs[i]| ==> r[i][j] == Offset(cs[i][j], off)
  {
    if cs == [] then [] else [ShiftContour(cs[0], off)] + Translate(cs[1..], off)
  }

  /** Moving one contour twice is moving it once by the summed offset. */
  lemma {:induction false} ShiftContourCompose(c: Contour, a: Point, b: Point)
    ensures ShiftContour(ShiftContour(c, a), b) == ShiftContour(c, Offset(a, b))
  {
    if c != [] {
      var s := ShiftContour(c, a);
      assert s[1..] == ShiftContour(c[1..], a);
      ShiftContourCompose(c[1..], a, b);
    }
  }

  /** Two translations in a row are one translation by the summed offset. */
  lemma {:induction false} TranslateCompose(cs: seq<Contour>, a: Point, b: Point)
    ensures Translate(Translate(cs, a), b) == Translate(cs, Offset(a, b))
  {
    if cs != [] {
      var t := Translate(cs, a);
      assert t[0] == ShiftContour(cs[0], a) && t[1..] == Translate(cs[1..], a);
      ShiftContourCompose(cs[0], a, b);
      TranslateCompose(cs[1..], a, b);
    }
  }

  /** Translating by the zero offset changes nothing. */
  lemma TranslateZero(cs: seq<Contour>)
    ensures Translate(cs, Point(0, 0)) == cs
  {
    var r := Translate(cs, Point(0, 0));
    forall i | 0 <= i < |cs|
      ensures r[i] == cs[i]
    {
      assert |r[i]| == |cs[i]|;
    }
  }

  /** Subtracting the offset recovers the local contours exactly. */
  lemma TranslateRoundTrip(cs: seq<Contour>, off: Point)
    ensures Translate(Translate(cs, off), Negate(off)) == cs
  {
    TranslateCompose(cs, off, Negate(off));
    TranslateZero(cs);
  }

  /** Distinct local contour lists never collide in whole-image coordinates. */
  lemma TranslateInjective(a: seq<Contour>, b: seq<Contour>, off: Point)
    requires Translate(a, off) == Translate(b, off)
    ensures a == b
  {
    TranslateRoundTrip(a, off);
    TranslateRoundTrip(b, off);
  }
}
