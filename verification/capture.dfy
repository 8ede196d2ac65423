/**
 The interactive two-click definition of a region, as an explicit state
 machine in place of the click handler's function attribute. The first click
 becomes the anchor; the second fixes the rectangle, defines it under the name
 typed at the prompt, and disconnects the handler, so later clicks are ignored.
 */
module Capture {
  import opened Wrappers
  import opened Geometry
  import opened Detection
  import opened Rois
  import opened Correlation

  /** Where a capture stands. `Closed` is the disconnected handler. */
  datatype CaptureState = AwaitingFirst | AwaitingSecond(anchor: Point) | Closed

  /**
   How the second click turns into a rectangle: `AsWritten` subtracts the
   anchor from the second click, as the handler does; `Spanning` takes the
   rectangle the two clicks span, whichever corners they are.
   */
  datatype CornerRule = AsWritten | Spanning

  /** The capture state and the registry after a click. */
  datatype Step = Step(capture: CaptureState, rois: Registry)

  function Min(a: int, b: int): int { if a <= b then a else b }

  function Max(a: int, b: int): int { if a <= b then b else a }

  function Abs(a: int): int { if a < 0 then -a else a }

  /** The rectangle spanned by two corner clicks, with its smaller coordinates as top-left. */
  function SpanRect(a: Point, b: Point): Rect {
    Rect(Point(Min(a.x, b.x), Min(a.y, b.y)), Max(a.x, b.x), Max(a.y, b.y))
  }

  /**
   The registry after the second click: under the as-written rule the region's
   bottom-right corner is exactly the second click; under the spanning rule it
   is the rectangle the two clicks span. Other names are untouched, and the
   name keeps its place in iteration order, or goes last when it is new.
   */
  function DefineFromClicks(rule: CornerRule, anchor: Point, click: Point, name: string, reg: Registry): (r: Registry)
    ensures rule == AsWritten ==> Lookup(r, name) == Some(Rect(anchor, click.x, click.y))
    ensures rule == Spanning ==> Lookup(r, name) == Some(SpanRect(anchor, click))
    ensures forall other :: other != name ==> Lookup(r, other) == Lookup(reg, other)
    ensures Names(r) == if name in Names(reg) then Names(reg) else Names(reg) + [name]
    ensures Distinct(reg) ==> Distinct(r)
  {
    var width := click.x - anchor.x;
    var height := click.y - anchor.y;
    if rule == AsWritten then
      DefineRoi(reg, name, anchor, width, height)
    else
      var corner := Point(Min(anchor.x, click.x), Min(anchor.y, click.y));
      assert Rect(corner, corner.x + Abs(width), corner.y + Abs(height)) == SpanRect(anchor, click);
      DefineRoi(reg, name, corner, Abs(width), Abs(height))
  }

  /**
   One click. The first is stored as the anchor and changes no region. The
   second defines the region `name` from the anchor and itself and closes the
   capture; under the as-written rule the stored bottom-right corner is exactly
   the second click. A closed capture ignores clicks.
   */
  function OnClick(rule: CornerRule, c: CaptureState, click: Point, name: string, reg: Registry): (s: Step)
    ensures c.AwaitingFirst? ==> s.capture == AwaitingSecond(click) && s.rois == reg
    ensures c.Closed? ==> s.capture == Closed && s.rois == reg
    ensures c.AwaitingSecond? ==> s.capture == Closed
    ensures c.AwaitingSecond? && rule == AsWritten ==> Lookup(s.rois, name) == Some(Rect(c.anchor, click.x, click.y))
    ensures c.AwaitingSecond? && rule == Spanning ==> Lookup(s.rois, name) == Some(SpanRect(c.anchor, click))
    ensures forall other :: other != name ==> Lookup(s.rois, other) == Lookup(reg, other)
    ensures c.AwaitingSecond? ==> Names(s.rois) == if name in Names(reg) then Names(reg) else Names(reg) + [name]
    ensures Distinct(reg) ==> Distinct(s.rois)
  {
    match c
    case AwaitingFirst => Step(AwaitingSecond(click), reg)
    case AwaitingSecond(anchor) => Step(Closed, DefineFromClicks(rule, anchor, click, name, reg))
    case Closed => Step(Closed, reg)
  }

  /** A stream of clicks fed to the handler one after another. */
  function RunClicks(rule: CornerRule, c: CaptureState, clicks: seq<Point>, name: string, reg: Registry): Step
    decreases |clicks|
  {
    if clicks == [] then Step(c, reg)
    else
      var s := OnClick(rule, c, clicks[0], name, reg);
      RunClicks(rule, s.capture, clicks[1..], name, s.rois)
  }

  /** Once the handler is disconnected, no click changes anything. */
  lemma {:induction false} ClosedIgnoresClicks(rule: CornerRule, clicks: seq<Point>, name: string, reg: Registry)
    ensures RunClicks(rule, Closed, clicks, name, reg) == Step(Closed, reg)
  {
    if clicks != [] {
      ClosedIgnoresClicks(rule, clicks[1..], name, reg);
    }
  }

  /**
   A whole capture: with fewer than two clicks no region is defined; with two
   or more, only the first two count, the handler ends closed, and under the
   as-written rule the region has the first click as top-left corner and the
   second click as bottom-right corner, width and height being their
   differences.
   */
  lemma CaptureOutcome(rule: CornerRule, clicks: seq<Point>, name: string, reg: Registry)
    ensures clicks == [] ==> RunClicks(rule, AwaitingFirst, clicks, name, reg) == Step(AwaitingFirst, reg)
    ensures |clicks| == 1 ==> RunClicks(rule, AwaitingFirst, clicks, name, reg) == Step(AwaitingSecond(clicks[0]), reg)
    ensures |clicks| >= 2 ==>
      RunClicks(rule, AwaitingFirst, clicks, name, reg) == OnClick(rule, AwaitingSecond(clicks[0]), clicks[1], name, reg)
    ensures |clicks| >= 2 && rule == AsWritten ==>
      && Lookup(RunClicks(rule, AwaitingFirst, clicks, name, reg).rois, name) == Some(Rect(clicks[0], clicks[1].x, clicks[1].y))
      && Width(Lookup(RunClicks(rule, AwaitingFirst, clicks, name, reg).rois, name).value) == clicks[1].x - clicks[0].x
      && Height(Lookup(RunClicks(rule, AwaitingFirst, clicks, name, reg).rois, name).value) == clicks[1].y - clicks[0].y
  {
    if |clicks| >= 2 {
      var s := OnClick(rule, AwaitingSecond(clicks[0]), clicks[1], name, reg);
      ClosedIgnoresClicks(rule, clicks[2..], name, s.rois);
      assert clicks[1..][1..] == clicks[2..];
    }
  }

  /**
   The click order the capture window asks for: bottom-left, then top-right.
   The image is shown with row 0 at the top, so the second click has a
   smaller row than the first.
   */
  predicate PromptedOrder(first: Point, second: Point) {
    first.x < second.x && second.y < first.y
  }

  /**
   As written, clicks in the prompted order give a negative height: the
   stored bottom row lies above the top-left row, the row slice is empty, and
   the region never reports an anomaly, whatever the mask.
   */
  lemma AsWrittenHidesPromptedRoi(m: Mask, first: Point, second: Point, name: string, reg: Registry)
    requires PromptedOrder(first, second)
    ensures Lookup(RunClicks(AsWritten, AwaitingFirst, [first, second], name, reg).rois, name)
            == Some(Rect(first, second.x, second.y))
    ensures Height(Rect(first, second.x, second.y)) < 0
    ensures !AnyInRect(m, Rect(first, second.x, second.y))
  {
    CaptureOutcome(AsWritten, [first, second], name, reg);
  }

  /** A 4 by 4 mask in which every cell is anomalous. */
  function AllHot(): (m: Mask)
    ensures |m| == 4 && forall i :: 0 <= i < 4 ==> |m[i]| == 4 && m[i][0]
  {
    [[true, true, true, true], [true, true, true, true], [true, true, true, true], [true, true, true, true]]
  }

  /**
   The concrete case: on a mask that is anomalous everywhere, the clicks
   (0, 3) and then (3, 0), in the prompted order, define a region the check
   reports clear. The clicks are a parameter pinned by `requires` rather
   than a literal in the body, which keeps the verifier from unfolding the
   whole click run on literals.
   */
  lemma AsWrittenMissesHotMask(clicks: seq<Point>, name: string, reg: Registry, finder: ContourFinder)
    requires clicks == [Point(0, 3), Point(3, 0)]
    ensures Lookup(RunClicks(AsWritten, AwaitingFirst, clicks, name, reg).rois, name) == Some(Rect(Point(0, 3), 3, 0))
    ensures Fits(Rect(Point(0, 3), 3, 0), AllHot())
    ensures !CheckRoi(AllHot(), Entry(name, Rect(Point(0, 3), 3, 0)), finder).hasAnomaly
  {
    AsWrittenHidesPromptedRoi(AllHot(), clicks[0], clicks[1], name, reg);
  }

  /**
   The same clicks under the spanning rule define a region that reports the
   anomaly; the clicks are pinned by `requires` for the same reason.
   */
  lemma SpanningFindsHotMask(clicks: seq<Point>, name: string, reg: Registry, finder: ContourFinder)
    requires clicks == [Point(0, 3), Point(3, 0)]
    ensures Lookup(RunClicks(Spanning, AwaitingFirst, clicks, name, reg).rois, name) == Some(Rect(Point(0, 0), 3, 3))
    ensures Fits(Rect(Point(0, 0), 3, 3), AllHot())
    ensures CheckRoi(AllHot(), Entry(name, Rect(Point(0, 0), 3, 3)), finder).hasAnomaly
  {
    CaptureOutcome(Spanning, clicks, name, reg);
    assert SpanRect(clicks[0], clicks[1]) == Rect(Point(0, 0), 3, 3);
    var m := AllHot();
    assert 0 < |m| && 0 < |m[0]| && InRect(Rect(Point(0, 0), 3, 3), 0, 0) && m[0][0];
    assert AnyInRect(m, Rect(Point(0, 0), 3, 3));
  }

  /**
   With the spanning rule the region is the half-open rectangle between the
   two clicks, the same whichever corner is clicked first; in the prompted
   order it covers the rows from the second click's down to the first's and
   the columns from the first click's to the second's.
   */
  lemma SpanningCoversPromptedRoi(first: Point, second: Point, name: string, reg: Registry)
    ensures Lookup(RunClicks(Spanning, AwaitingFirst, [first, second], name, reg).rois, name)
            == Some(SpanRect(first, second))
    ensures SpanRect(first, second) == SpanRect(second, first)
    ensures Width(SpanRect(first, second)) >= 0 && Height(SpanRect(first, second)) >= 0
    ensures PromptedOrder(first, second) ==>
              forall i, j :: InRect(SpanRect(first, second), i, j) <==> second.y <= i < first.y && first.x <= j < second.x
  {
    CaptureOutcome(Spanning, [first, second], name, reg);
  }
}
