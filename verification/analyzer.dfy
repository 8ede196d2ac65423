/**
 The analyzer object: a loaded temperature grid and its threshold, plus the
 attributes the source sets later (`anomalies`, `contours`, `rois`), each
 absent until the operation that creates it has run.
 */
module Analyzer {
  import opened Wrappers
  import opened Geometry
  import opened Detection
  import opened Rois
  import opened Correlation
  import opened Capture

  datatype Session = Session(
    threshold: real,
    grid: Grid,
    anomalies: Option<Mask>,
    contours: Option<seq<Contour>>,
    rois: Option<Registry>)

  /** Checking regions that exist before any detection subscripts a missing mask. */
  datatype AnalyzerError = NotDetected

  /** A freshly loaded analyzer: grid and threshold, nothing detected, no registry. */
  function Loaded(grid: Grid, threshold: real): Session {
    Session(threshold, grid, None, None, None)
  }

  /** The registry, or the empty one when none was ever created. */
  function RoisOrEmpty(a: Session): Registry {
    if a.rois.Some? then a.rois.value else []
  }

  /**
   `detect_anomalies`: the mask has the grid's shape and marks exactly the
   cells hotter than the threshold; the whole-image contours are those the
   finder returns for that mask; grid, threshold and regions are untouched.
   */
  function DetectAnomalies(a: Session, finder: ContourFinder): (b: Session)
    ensures b.anomalies.Some? && SameShape(a.grid, b.anomalies.value)
    ensures forall i, j :: 0 <= i < |a.grid| && 0 <= j < |a.grid[i]| ==>
              (b.anomalies.value[i][j] <==> a.grid[i][j] > a.threshold)
    ensures b.contours == Some(finder(b.anomalies.value))
    ensures b.grid == a.grid && b.threshold == a.threshold && b.rois == a.rois
    ensures AllFit(RoisOrEmpty(a), a.grid) ==> AllFit(RoisOrEmpty(b), b.anomalies.value)
  {
    var mask := Threshold(a.grid, a.threshold);
    FitsSameShape(a.grid, mask, RoisOrEmpty(a));
    a.(anomalies := Some(mask), contours := Some(finder(mask)))
  }

  /**
   `define_roi`: creates the registry if there is none, then stores the region
   under its name, overwriting an earlier definition; nothing else changes.
   */
  function DefineRoi(a: Session, name: string, topLeft: Point, width: int, height: int): (b: Session)
    ensures b.rois.Some?
    ensures Lookup(b.rois.value, name) == Some(Rect(topLeft, topLeft.x + width, topLeft.y + height))
    ensures forall other :: other != name ==> Lookup(b.rois.value, other) == Lookup(RoisOrEmpty(a), other)
    ensures Names(b.rois.value) == if name in Names(RoisOrEmpty(a)) then Names(RoisOrEmpty(a)) else Names(RoisOrEmpty(a)) + [name]
    ensures b.grid == a.grid && b.threshold == a.threshold && b.anomalies == a.anomalies && b.contours == a.contours
  {
    a.(rois := Some(Rois.DefineRoi(RoisOrEmpty(a), name, topLeft, width, height)))
  }

  /**
   `get_user_defined_roi` fed a stream of clicks and the name typed at the
   prompt: the registry exists afterwards, and with two or more clicks the
   first two define the region, later clicks being ignored. Under the
   as-written rule the first click is the stored top-left corner and the
   second the stored bottom-right corner; under the spanning rule the region
   is the rectangle the two clicks span.
   */
  function CaptureRoi(a: Session, rule: CornerRule, clicks: seq<Point>, name: string): (b: Session)
    ensures b.rois.Some?
    ensures |clicks| < 2 ==> b.rois.value == RoisOrEmpty(a)
    ensures |clicks| >= 2 && rule == AsWritten ==>
              Lookup(b.rois.value, name) == Some(Rect(clicks[0], clicks[1].x, clicks[1].y))
    ensures |clicks| >= 2 && rule == Spanning ==> Lookup(b.rois.value, name) == Some(SpanRect(clicks[0], clicks[1]))
    ensures |clicks| >= 2 ==>
              Names(b.rois.value) == if name in Names(RoisOrEmpty(a)) then Names(RoisOrEmpty(a))
                                     else Names(RoisOrEmpty(a)) + [name]
    ensures forall other :: other != name ==> Lookup(b.rois.value, other) == Lookup(RoisOrEmpty(a), other)
    ensures b.grid == a.grid && b.threshold == a.threshold && b.anomalies == a.anomalies && b.contours == a.contours
  {
    CaptureOutcome(rule, clicks, name, RoisOrEmpty(a));
    a.(rois := Some(RunClicks(rule, AwaitingFirst, clicks, name, RoisOrEmpty(a)).rois))
  }

  /**
   `check_rois_for_anomalies`: no registry gives no verdicts; regions with no
   mask yet fail; otherwise one verdict per region in registry order, each
   saying whether a mask cell in its rectangle is anomalous; an anomalous
   region carries the finder's contours of its slice moved by its top-left
   corner, a clear one carries none.
   */
  function CheckRois(a: Session, finder: ContourFinder): (r: Result<seq<Verdict>, AnalyzerError>)
    requires a.anomalies.Some? ==> AllFit(RoisOrEmpty(a), a.anomalies.value)
    ensures a.rois.None? ==> r == Ok([])
    ensures RoisOrEmpty(a) == [] ==> r == Ok([])
    ensures RoisOrEmpty(a) != [] && a.anomalies.None? ==> r == Err(NotDetected)
    ensures r.Ok? ==> |r.value| == |RoisOrEmpty(a)|
    ensures r.Ok? ==> forall k :: 0 <= k < |r.value| ==>
              && r.value[k].name == RoisOrEmpty(a)[k].name
              && (r.value[k].hasAnomaly <==> AnyInRect(a.anomalies.value, RoisOrEmpty(a)[k].rect))
              && (!r.value[k].hasAnomaly ==> r.value[k].contours == [])
              && (r.value[k].hasAnomaly ==>
                    r.value[k].contours == Translate(finder(Slice(a.anomalies.value, RoisOrEmpty(a)[k].rect)),
                                                     RoisOrEmpty(a)[k].rect.topLeft))
  {
    match a.rois
    case None => Ok([])
    case Some(reg) =>
      if reg == [] then Ok([])
      else if a.anomalies.None? then Err(NotDetected)
      else Ok(Correlate(a.anomalies.value, reg, finder))
  }

  /** Some cell of the rectangle is hotter than the threshold. */
  predicate HotInRect(g: Grid, t: real, r: Rect) {
    exists i, j :: 0 <= i < |g| && 0 <= j < |g[i]| && InRect(r, i, j) && g[i][j] > t
  }

  /** A rectangle fits a mask exactly when it fits a grid of the same shape. */
  lemma FitsSameShape(g: Grid, m: Mask, reg: Registry)
    requires SameShape(g, m)
    ensures AllFit(reg, g) <==> AllFit(reg, m)
  {
  }

  /**
   Detecting and then checking: every region gets a verdict, in registry
   order, and a region reports an anomaly exactly when some grid cell in its
   rectangle is hotter than the threshold.
   */
  lemma DetectThenCheck(a: Session, finder: ContourFinder)
    requires AllFit(RoisOrEmpty(a), a.grid)
    ensures AllFit(RoisOrEmpty(a), DetectAnomalies(a, finder).anomalies.value)
    ensures CheckRois(DetectAnomalies(a, finder), finder).Ok?
    ensures |CheckRois(DetectAnomalies(a, finder), finder).value| == |RoisOrEmpty(a)|
    ensures var vs := CheckRois(DetectAnomalies(a, finder), finder).value;
            forall k :: 0 <= k < |RoisOrEmpty(a)| ==>
              (vs[k].hasAnomaly <==> HotInRect(a.grid, a.threshold, RoisOrEmpty(a)[k].rect))
  {
    var b := DetectAnomalies(a, finder);
    var m := b.anomalies.value;
    var reg := RoisOrEmpty(a);
    FitsSameShape(a.grid, m, reg);
    forall k | 0 <= k < |reg|
      ensures AnyInRect(m, reg[k].rect) <==> HotInRect(a.grid, a.threshold, reg[k].rect)
    {
      var r := reg[k].rect;
      if AnyInRect(m, r) {
        var i, j :| 0 <= i < |m| && 0 <= j < |m[i]| && InRect(r, i, j) && m[i][j];
        assert 0 <= i < |a.grid| && 0 <= j < |a.grid[i]| && a.grid[i][j] > a.threshold;
      }
      if HotInRect(a.grid, a.threshold, r) {
        var i, j :| 0 <= i < |a.grid| && 0 <= j < |a.grid[i]| && InRect(r, i, j) && a.grid[i][j] > a.threshold;
        assert 0 <= i < |m| && 0 <= j < |m[i]| && m[i][j];
      }
    }
  }

  /** The example grid: 50 degrees at (1, 1) and (2, 2), 0 elsewhere. */
  function ExampleGrid(): (g: Grid)
    ensures |g| == 4 && forall i :: 0 <= i < 4 ==> |g[i]| == 4
  {
    seq(4, i => seq(4, j => if (i == 1 && j == 1) || (i == 2 && j == 2) then 50.0 else 0.0))
  }

  /** Defining "A" in an empty registry. */
  lemma ExampleFirstRoi()
    ensures Rois.DefineRoi([], "A", Point(0, 0), 2, 2) == [Entry("A", Rect(Point(0, 0), 2, 2))]
  {
    var empty: Registry := [];
    var ra := Rect(Point(0, 0), 2, 2);
    assert Names(empty) == [];
    assert Put(empty, "A", ra) == empty + [Entry("A", ra)];
    assert empty + [Entry("A", ra)] == [Entry("A", ra)];
  }

  /** Defining "B" after "A" lists it second. */
  lemma ExampleSecondRoi()
    ensures Rois.DefineRoi([Entry("A", Rect(Point(0, 0), 2, 2))], "B", Point(3, 3), 1, 1)
            == [Entry("A", Rect(Point(0, 0), 2, 2)), Entry("B", Rect(Point(3, 3), 4, 4))]
  {
    assert Names([Entry("A", Rect(Point(0, 0), 2, 2))]) == ["A"];
  }

  /**
   The analyzer of the worked session after defining "A" and then "B": its
   registry is the one `ExampleFirstRoi` and `ExampleSecondRoi` compute.
   */
  function ExampleAnalyzer(): (a: Session)
    ensures AllFit(RoisOrEmpty(a), a.grid)
  {
    Loaded(ExampleGrid(), 45.0)
      .(rois := Some([Entry("A", Rect(Point(0, 0), 2, 2)), Entry("B", Rect(Point(3, 3), 4, 4))]))
  }

  /** Region "A" holds the hot cell (1, 1); region "B" holds only the cold cell (3, 3). */
  lemma ExampleHotCells()
    ensures HotInRect(ExampleGrid(), 45.0, Rect(Point(0, 0), 2, 2))
    ensures !HotInRect(ExampleGrid(), 45.0, Rect(Point(3, 3), 4, 4))
  {
    var g := ExampleGrid();
    assert g[1][1] == 50.0;
    assert InRect(Rect(Point(0, 0), 2, 2), 1, 1);
    forall i, j | 0 <= i < |g| && 0 <= j < |g[i]| && InRect(Rect(Point(3, 3), 4, 4), i, j)
      ensures g[i][j] <= 45.0
    {
      assert i == 3 && j == 3;
      assert g[3][3] == 0.0;
    }
  }

  /**
   A worked session: threshold 45, region "A" at (0, 0) of size 2 by 2 and
   region "B" at (3, 3) of size 1 by 1. "A" holds the hot cell (1, 1) and
   reports an anomaly; "B" holds only a cold cell and reports none. The
   analyzer is a parameter pinned by `requires` rather than a literal in the
   body, which keeps the verifier from unfolding the grid and registry
   literals throughout the proof.
   */
  lemma ExampleSession(a: Session, finder: ContourFinder)
    requires a == ExampleAnalyzer()
    ensures var r := CheckRois(DetectAnomalies(a, finder), finder);
            && r.Ok? && |r.value| == 2
            && r.value[0].name == "A" && r.value[0].hasAnomaly
            && r.value[1].name == "B" && !r.value[1].hasAnomaly && r.value[1].contours == []
  {
    var reg := RoisOrEmpty(a);
    assert |reg| == 2 && reg[0].name == "A" && reg[1].name == "B";
    ExampleHotCells();
    DetectThenCheck(a, finder);
    var b := DetectAnomalies(a, finder);
    var r := CheckRois(b, finder);
    assert r.Ok? && |r.value| == 2;
    assert r.value[0].hasAnomaly && !r.value[1].hasAnomaly;
    assert r.value[0].name == "A" && r.value[1].name == "B";
  }
}
