/** The point constrainers: SimpleGrid (no constraint), Grid30 (a 30-pixel grid built on
    Java's truncating remainder) and SnapGrid (snap to a nearby handle of another figure). */
module Grids {
  import opened Geometry
  import opened Shapes
  import opened Options
  import opened HandlePoints
  import opened Figures
  import opened DrawModel

  // ---------------------------------------------------------------- SimpleGrid

  /** SimpleGrid.constrainPoint: every point is allowed as it is. */
  function SimpleConstrain(p: Point): (q: Point)
    ensures q == p
  {
    p
  }

  /** SimpleGrid.getStepX: one pixel in either direction. */
  function SimpleStepX(right: bool): (s: int)
    ensures s == 1
  {
    1
  }

  /** SimpleGrid.getStepY: one pixel in either direction. */
  function SimpleStepY(down: bool): (s: int)
    ensures s == 1
  {
    1
  }

  // ---------------------------------------------------------------- Grid30

  /** Grid30.stepSize. */
  const Grid30Step: int := 30

  /** One coordinate of Grid30.constrainPoint: a - a % 30 with Java's remainder, which
      keeps the sign of a, so the coordinate moves toward zero to a multiple of 30. */
  function Grid30Coord(a: int): (c: int)
    ensures c == JavaDiv(a, Grid30Step) * Grid30Step
    ensures a >= 0 ==> 0 <= c <= a < c + Grid30Step
    ensures a < 0 ==> c - Grid30Step < a <= c <= 0
  {
    a - JavaRem(a, Grid30Step)
  }

  /** c lies between 0 and a, less than one step away from a. */
  predicate TowardZero(a: int, c: int)
  {
    (a >= 0 ==> 0 <= c <= a < c + Grid30Step) && (a < 0 ==> c - Grid30Step < a <= c <= 0)
  }

  /** Grid30.constrainPoint: both coordinates land on the grid, each moved by less than
      one step toward zero. */
  function Grid30Constrain(p: Point): (q: Point)
    ensures q.x % Grid30Step == 0 && q.y % Grid30Step == 0
    ensures TowardZero(p.x, q.x) && TowardZero(p.y, q.y)
  {
    var q := Point(Grid30Coord(p.x), Grid30Coord(p.y));
    MultipleMod(JavaDiv(p.x, Grid30Step));
    MultipleMod(JavaDiv(p.y, Grid30Step));
    q
  }

  lemma MultipleMod(k: int)
    ensures (k * Grid30Step) % Grid30Step == 0
  {
  }

  /** Grid30.getStepX and getStepY: 30 whatever the direction. */
  function Grid30StepX(right: bool): (s: int)
    ensures s == Grid30Step
  {
    Grid30Step
  }

  function Grid30StepY(down: bool): (s: int)
    ensures s == Grid30Step
  {
    Grid30Step
  }

  /** The grid coordinate is the only multiple of 30 between 0 and a that is less than
      30 away from a: an independent characterisation of a - a % 30. */
  lemma Grid30CoordUnique(a: int, c: int)
    requires c % Grid30Step == 0 && TowardZero(a, c)
    ensures c == Grid30Coord(a)
  {
    var g := Grid30Coord(a);
    MultipleMod(JavaDiv(a, Grid30Step));
    var k, m := c / Grid30Step, g / Grid30Step;
    assert c == k * Grid30Step;
    assert g == m * Grid30Step;
  }

  /** Constraining an already constrained point leaves it where it is. */
  lemma Grid30Idempotent(p: Point)
    ensures Grid30Constrain(Grid30Constrain(p)) == Grid30Constrain(p)
  {
    var q := Grid30Constrain(p);
    Grid30CoordUnique(q.x, q.x);
    Grid30CoordUnique(q.y, q.y);
  }

  /** Negative coordinates round toward zero: -1 goes to 0 and -31 to -30, where rounding
      down (Dafny's Euclidean remainder) would give -30 and -60. */
  lemma Grid30RoundsTowardZero()
    ensures Grid30Constrain(Point(-1, -31)) == Point(0, -30)
    ensures Grid30Constrain(Point(29, 31)) == Point(0, 30)
    ensures (-1) - (-1) % Grid30Step == -30 && (-31) - (-31) % Grid30Step == -60
  {
    Grid30CoordUnique(-1, 0);
    Grid30CoordUnique(-31, -30);
    Grid30CoordUnique(29, 0);
    Grid30CoordUnique(31, 30);
  }

  /** For a negative coordinate off the grid, the result is one step above the multiple
      of 30 below it. */
  lemma Grid30NegativeIsFloorPlusStep(a: int)
    requires a < 0 && a % Grid30Step != 0
    ensures Grid30Coord(a) == a - a % Grid30Step + Grid30Step
  {
    var c := a - a % Grid30Step + Grid30Step;
    assert (a - a % Grid30Step) % Grid30Step == 0;
    assert c % Grid30Step == 0;
    Grid30CoordUnique(a, c);
  }

  // ---------------------------------------------------------------- SnapGrid

  /** SnapGrid.snapRadius. */
  const SnapRadius: int := 15

  /** SnapGrid.shouldSnap: the Euclidean distance is at most the radius; on integer points
      this is dx * dx + dy * dy <= 15 * 15. */
  predicate ShouldSnap(h: Point, p: Point)
  {
    (h.x - p.x) * (h.x - p.x) + (h.y - p.y) * (h.y - p.y) <= SnapRadius * SnapRadius
  }

  /** The first point of ps within the radius of p, if any. */
  function FirstWithin(ps: seq<Point>, p: Point): (r: Option<Point>)
    ensures r.Some? ==> r.value in ps && ShouldSnap(r.value, p)
    ensures r.None? ==> forall i :: 0 <= i < |ps| ==> !ShouldSnap(ps[i], p)
  {
    if ps == [] then None
    else if ShouldSnap(ps[0], p) then Some(ps[0])
    else FirstWithin(ps[1..], p)
  }

  /** FirstWithin picks the earliest point within the radius: every point before it is
      outside. */
  lemma {:induction false} FirstWithinAt(ps: seq<Point>, p: Point, j: nat)
    requires j < |ps| && ShouldSnap(ps[j], p)
    requires forall m :: 0 <= m < j ==> !ShouldSnap(ps[m], p)
    ensures FirstWithin(ps, p) == Some(ps[j])
  {
    if j > 0 {
      FirstWithinAt(ps[1..], p, j - 1);
    }
  }

  /** The first candidate wins even when a later one is nearer. */
  lemma FirstNotNearest()
    ensures FirstWithin([Point(10, 0), Point(1, 0)], Point(0, 0)) == Some(Point(10, 0))
  {
  }

  /** A figure's handles count for snapping unless it is selected or is the current figure. */
  predicate Eligible(f: Figure, selection: seq<Figure>, current: Option<Figure>)
  {
    f !in selection && current != Some(f)
  }

  /** The snap candidates: the handle locations of the eligible figures, in list order, and
      for each figure in getHandles order. */
  ghost function Candidates(figs: seq<Figure>, selection: seq<Figure>, current: Option<Figure>,
                            other: (HandleKind, FigValue) -> Point): seq<Point>
    requires forall i :: 0 <= i < |figs| ==>
      figs[i].Valid() && figs[i].Repr <= Footprint(figs) && Drawable(figs[i].Value())
    reads Footprint(figs)`frame, Footprint(figs)`p1, Footprint(figs)`p2
    decreases |figs|
  {
    if figs == [] then []
    else
      var n := |figs| - 1;
      Candidates(figs[..n], selection, current, other) +
        (if Eligible(figs[n], selection, current) then HandleLocations(figs[n].Value(), other) else [])
  }

  /** Every candidate is the location of a handle of an eligible figure, and every handle
      of an eligible figure is a candidate. */
  lemma {:induction false} CandidatesMembers(figs: seq<Figure>, selection: seq<Figure>,
                                             current: Option<Figure>,
                                             other: (HandleKind, FigValue) -> Point, q: Point)
    requires forall i :: 0 <= i < |figs| ==> figs[i].Valid() && Drawable(figs[i].Value())
    ensures q in Candidates(figs, selection, current, other) <==>
      exists i :: 0 <= i < |figs| && Eligible(figs[i], selection, current) &&
                  q in HandleLocations(figs[i].Value(), other)
    decreases |figs|
  {
    if figs != [] {
      var n := |figs| - 1;
      var pre := figs[..n];
      CandidatesMembers(pre, selection, current, other, q);
      var tail := if Eligible(figs[n], selection, current)
                  then HandleLocations(figs[n].Value(), other) else [];
      assert Candidates(figs, selection, current, other) ==
             Candidates(pre, selection, current, other) + tail;
      if q in Candidates(pre, selection, current, other) {
        var i :| 0 <= i < n && Eligible(pre[i], selection, current) &&
                 q in HandleLocations(pre[i].Value(), other);
        assert pre[i] == figs[i];
      } else if q in tail {
        assert Eligible(figs[n], selection, current) &&
               q in HandleLocations(figs[n].Value(), other);
      } else {
        forall i | 0 <= i < |figs| && Eligible(figs[i], selection, current)
          ensures q !in HandleLocations(figs[i].Value(), other)
        {
          if i < n {
            assert pre[i] == figs[i];
          }
        }
      }
    }
  }

  /** With every figure selected or current there is nothing to snap to. */
  lemma {:induction false} NoEligibleNoCandidates(figs: seq<Figure>, selection: seq<Figure>,
                                                  current: Option<Figure>,
                                                  other: (HandleKind, FigValue) -> Point)
    requires forall i :: 0 <= i < |figs| ==> figs[i].Valid() && Drawable(figs[i].Value())
    requires forall i :: 0 <= i < |figs| ==> !Eligible(figs[i], selection, current)
    ensures Candidates(figs, selection, current, other) == []
    decreases |figs|
  {
    if figs != [] {
      NoEligibleNoCandidates(figs[..|figs| - 1], selection, current, other);
    }
  }

  /** The inner forEach of getSnappedPoint: the locations of one figure's handles are
      appended in getHandles order. */
  method AppendLocations(points: seq<Point>, v: FigValue, other: (HandleKind, FigValue) -> Point)
    returns (points': seq<Point>)
    requires Drawable(v)
    ensures points' == points + HandleLocations(v, other)
  {
    var ks := HandleKinds(v);
    points' := points;
    var k := 0;
    while k < |ks|
      invariant 0 <= k <= |ks|
      invariant points' == points + HandleLocations(v, other)[..k]
    {
      HandleKindsFit(v, k);
      points' := points' + [AnyLocation(ks[k], v, other)];
      k := k + 1;
    }
    assert HandleLocations(v, other)[..k] == HandleLocations(v, other);
  }

  /** The figure a SnapGrid holds as current after the events es have been delivered: the
      figure of the last event addressed to its listener l, or `current` if there is none. */
  function LastFigureFor(es: seq<ModelEvent>, l: ModelListener, current: Option<Figure>): Option<Figure>
    decreases |es|
  {
    if es == [] then current
    else if es[|es| - 1].listener == l then es[|es| - 1].figure
    else LastFigureFor(es[..|es| - 1], l, current)
  }

  /** removeAllFigures sends DRAWING_CLEARED with no figure to every registered listener,
      so a registered grid is left without a current figure. */
  lemma {:induction false} ClearedLeavesNoCurrentFigure(ls: seq<ModelListener>, l: ModelListener,
                                                        current: Option<Figure>)
    requires l in ls
    ensures LastFigureFor(Deliveries(ls, None, DrawingCleared), l, current) == None
    decreases |ls|
  {
    var n := |ls| - 1;
    if ls[n] != l {
      assert l in ls[..n] by {
        var i :| 0 <= i < |ls| && ls[i] == l;
        assert ls[..n][i] == l;
      }
      assert Deliveries(ls, None, DrawingCleared)[..n] == Deliveries(ls[..n], None, DrawingCleared);
      ClearedLeavesNoCurrentFigure(ls[..n], l, current);
    }
  }

  class SnapGrid {
    /** SnapGrid.currentFigure: the figure of the last model event. */
    var currentFigure: Option<Figure>
    /** The listener the grid registers on the model. */
    const listener: ModelListener

    /** The constructor registers the grid's listener with the model. */
    constructor (model: Model, listener: ModelListener)
      modifies model`listeners
      ensures currentFigure == None && this.listener == listener
      ensures model.listeners == old(model.listeners) + [listener]
    {
      this.listener := listener;
      currentFigure := None;
      new;
      model.AddModelChangeListener(listener);
    }

    /** The grid's listener: whatever the event, its figure becomes the current one. */
    method ModelChanged(e: ModelEvent)
      modifies this`currentFigure
      ensures currentFigure == e.figure
    {
      currentFigure := e.figure;
    }

    /** The model's notification pass as the grid sees it: each event addressed to the
        grid's listener reaches ModelChanged, in order. */
    method Receive(es: seq<ModelEvent>)
      modifies this`currentFigure
      ensures currentFigure == LastFigureFor(es, listener, old(currentFigure))
    {
      var i := 0;
      while i < |es|
        invariant 0 <= i <= |es|
        invariant currentFigure == LastFigureFor(es[..i], listener, old(currentFigure))
      {
        assert es[..i + 1][..i] == es[..i];
        if es[i].listener == listener {
          ModelChanged(es[i]);
        }
        i := i + 1;
      }
      assert es[..i] == es;
    }

    /** The nested forEach of getSnappedPoint: the handle locations of the model's figures
        that are neither selected nor current. */
    method CollectPoints(model: Model, selection: seq<Figure>,
                         other: (HandleKind, FigValue) -> Point) returns (points: seq<Point>)
      requires forall i :: 0 <= i < |model.figures| ==>
        model.figures[i].Valid() && Drawable(model.figures[i].Value())
      ensures points == old(Candidates(model.figures, selection, currentFigure, other))
    {
      var figs := model.figures;
      points := [];
      var i := 0;
      while i < |figs|
        invariant 0 <= i <= |figs|
        invariant points == old(Candidates(figs[..i], selection, currentFigure, other))
      {
        var f := figs[i];
        assert old(Candidates(figs[..i + 1], selection, currentFigure, other)) ==
          old(Candidates(figs[..i], selection, currentFigure, other)) +
            (if Eligible(f, selection, old(currentFigure)) then HandleLocations(old(f.Value()), other) else [])
        by {
          assert figs[..i + 1][..i] == figs[..i];
        }
        if f !in selection && currentFigure != Some(f) {
          points := AppendLocations(points, f.Value(), other);
        }
        i := i + 1;
      }
      assert figs[..i] == figs;
    }

    /** SnapGrid.getSnappedPoint: the first collected handle location within the radius,
        found with an early return; the view is given as the model and the selection. */
    method GetSnappedPoint(p: Point, model: Model, selection: seq<Figure>,
                           other: (HandleKind, FigValue) -> Point) returns (r: Option<Point>)
      requires forall i :: 0 <= i < |model.figures| ==>
        model.figures[i].Valid() && Drawable(model.figures[i].Value())
      ensures r == FirstWithin(old(Candidates(model.figures, selection, currentFigure, other)), p)
    {
      var points := CollectPoints(model, selection, other);
      var j := 0;
      while j < |points|
        invariant 0 <= j <= |points|
        invariant FirstWithin(points[j..], p) == FirstWithin(points, p)
      {
        if ShouldSnap(points[j], p) {
          return Some(points[j]);
        }
        assert points[j..][1..] == points[j + 1..];
        j := j + 1;
      }
      r := None;
    }

    /** SnapGrid.constrainPoint: the snapped handle location, or p itself when no
        candidate is within the radius. */
    method ConstrainPoint(p: Point, model: Model, selection: seq<Figure>,
                          other: (HandleKind, FigValue) -> Point) returns (q: Point)
      requires forall i :: 0 <= i < |model.figures| ==>
        model.figures[i].Valid() && Drawable(model.figures[i].Value())
      ensures var cs := old(Candidates(model.figures, selection, currentFigure, other));
        (q == p && forall i :: 0 <= i < |cs| ==> !ShouldSnap(cs[i], p)) ||
        (FirstWithin(cs, p) == Some(q) && q in cs && ShouldSnap(q, p))
    {
      var s := GetSnappedPoint(p, model, selection, other);
      if s.None? {
        return p;
      }
      q := s.value;
    }

    /** SnapGrid.getStepX and getStepY: no stepping. */
    function StepX(right: bool): (s: int)
      ensures s == 0
    {
      0
    }

    function StepY(down: bool): (s: int)
      ensures s == 0
    {
      0
    }
  }
}
