/** Where each kind of handle sits on its owner, which point it pins when an interaction
    starts, and which two points it hands to setBounds while the mouse is dragged. */
module HandlePoints {
  import opened Geometry
  import opened Shapes

  datatype HandleKind =
    | NorthWest | North | NorthEast | East | SouthEast | South | SouthWest | West
    | LineStart | LineEnd

  /** AbstractHandle.handleSize: the side of the square a handle occupies. */
  const HandleSize: int := 6

  predicate IsLineKind(k: HandleKind) { k == LineStart || k == LineEnd }

  /** The handle kinds whose classes are part of this model (EastHandle and SouthWestHandle
      are only named by the figures that create them). */
  predicate Modelled(k: HandleKind) { k != East && k != SouthWest }

  /** The handles a figure of this value offers, in getHandles order. */
  function HandleKinds(v: FigValue): (ks: seq<HandleKind>)
    ensures v.LineV? <==> ks == [LineStart, LineEnd]
    ensures v.EllipseV? ==> ks == [North, East, South, West]
    ensures v.RectV? || v.GroupV? ==> |ks| == 8 && forall i :: 0 <= i < 8 ==> !IsLineKind(ks[i])
  {
    match v
    case RectV(_) => [NorthWest, North, NorthEast, East, SouthEast, South, SouthWest, West]
    case GroupV(_) => [NorthWest, North, NorthEast, East, SouthEast, South, SouthWest, West]
    case EllipseV(_) => [North, East, South, West]
    case LineV(_, _) => [LineStart, LineEnd]
  }

  /** A handle of kind k may belong to a figure of value v: line handles belong to lines only. */
  predicate Fits(k: HandleKind, v: FigValue)
  {
    IsLineKind(k) <==> v.LineV?
  }

  lemma HandleKindsFit(v: FigValue, i: nat)
    requires i < |HandleKinds(v)|
    ensures Fits(HandleKinds(v)[i], v)
  {
  }

  /** getLocation of each handle, computed from the owner's current bounds (or endpoints). */
  function Location(k: HandleKind, v: FigValue): (p: Point)
    requires Modelled(k) && Drawable(v) && Fits(k, v)
  {
    var b := Bounds(v);
    match k
    case NorthWest => Point(b.x, b.y)
    case North => Point(b.x + JavaDiv(b.width, 2), b.y)
    case NorthEast => Point(b.x + b.width, b.y)
    case SouthEast => Point(b.x + b.width, b.y + b.height)
    case South => Point(b.x + JavaDiv(b.width, 2), b.y + b.height)
    case West => Point(b.x, b.y + JavaDiv(b.height, 2))
    case LineStart => v.p1
    case LineEnd => v.p2
  }

  /** The location of any handle of a figure; where an EastHandle or a SouthWestHandle sits
      is given by `other`, since their classes are not part of this model. */
  function AnyLocation(k: HandleKind, v: FigValue, other: (HandleKind, FigValue) -> Point): Point
    requires Drawable(v) && Fits(k, v)
  {
    if Modelled(k) then Location(k, v) else other(k, v)
  }

  /** The locations of a figure's handles, in getHandles order. */
  function HandleLocations(v: FigValue, other: (HandleKind, FigValue) -> Point): (ps: seq<Point>)
    requires Drawable(v)
    ensures |ps| == |HandleKinds(v)|
    ensures forall i :: 0 <= i < |ps| ==> ps[i] == AnyLocation(HandleKinds(v)[i], v, other)
  {
    var ks := HandleKinds(v);
    seq(|ks|, i requires 0 <= i < |ks| => AnyLocation(ks[i], v, other))
  }

  /** Each handle sits on its own side of the bounds: the north handles on the top edge,
      the south ones on the bottom edge, the west ones on the left and the east ones on the
      right; the North and South handles sit in the middle of their edge and the West
      handle in the middle of its edge, to within one pixel. A line's handles sit on its
      endpoints. */
  lemma LocationOnOutline(k: HandleKind, v: FigValue)
    requires Modelled(k) && Drawable(v) && Fits(k, v)
    ensures var p, b := Location(k, v), Bounds(v);
      ((k == NorthWest || k == North || k == NorthEast) ==> p.y == b.y) &&
      ((k == SouthEast || k == South) ==> p.y == b.y + b.height) &&
      ((k == NorthWest || k == West) ==> p.x == b.x) &&
      ((k == NorthEast || k == SouthEast) ==> p.x == b.x + b.width) &&
      ((k == North || k == South) ==> Abs(b.width - 2 * (p.x - b.x)) <= 1) &&
      (k == West ==> Abs(b.height - 2 * (p.y - b.y)) <= 1) &&
      (k == LineStart ==> p == v.p1) && (k == LineEnd ==> p == v.p2)
  {
  }

  /** A corner handle and the corner it pins are opposite corners of the bounds, so the
      frame they span is the figure's bounds again. */
  lemma CornerHandleOppositePinned(k: HandleKind, v: FigValue)
    requires k == NorthWest || k == NorthEast || k == SouthEast
    requires Drawable(v) && Fits(k, v) && !HasNegativeSize(Bounds(v))
    ensures FromDiagonal(Location(k, v), StartCorner(k, v)) == Bounds(v)
  {
  }

  /** AbstractHandle.getTopLeftPoint: the location shifted by half the handle size. */
  function TopLeft(loc: Point): Point
  {
    Point(loc.x - JavaDiv(HandleSize, 2), loc.y - JavaDiv(HandleSize, 2))
  }

  /** AbstractHandle.contains: the 6x6 square whose top-left is TopLeft(loc). */
  predicate HandleContains(loc: Point, x: int, y: int)
  {
    var t := TopLeft(loc);
    Geometry.Contains(Rectangle(t.x, t.y, HandleSize, HandleSize), x, y)
  }

  /** A handle is hit exactly within three pixels left and above of its location and
      fewer than three right and below. */
  lemma HandleContainsSquare(loc: Point, x: int, y: int)
    ensures HandleContains(loc, x, y) <==>
            loc.x - 3 <= x < loc.x + 3 && loc.y - 3 <= y < loc.y + 3
  {
  }

  /** startInteraction: the point that stays put during the drag (for a line, the other end). */
  function StartCorner(k: HandleKind, v: FigValue): (c: Point)
    requires Modelled(k) && Drawable(v) && Fits(k, v)
  {
    var b := Bounds(v);
    match k
    case NorthWest => Point(b.x + b.width, b.y + b.height)
    case North => Point(b.x + b.width, b.y + b.height)
    case NorthEast => Point(b.x, b.y + b.height)
    case SouthEast => Point(b.x, b.y)
    case South => Point(b.x, b.y)
    case West => Point(b.x + b.width, b.y + b.height)
    case LineStart => v.p2
    case LineEnd => v.p1
  }

  /** dragInteraction: the origin and corner passed to owner.setBounds for a mouse at (x, y),
      given the pinned corner c and the owner's bounds b at the time of the call. */
  function DragArgs(k: HandleKind, c: Point, x: int, y: int, b: Rectangle): (pq: (Point, Point))
    requires Modelled(k)
  {
    match k
    case NorthWest => (Point(x, y), c)
    case North => (Point(c.x - b.width, y), c)
    case NorthEast => (Point(c.x, y), Point(x, c.y))
    case SouthEast => (c, Point(x, y))
    case South => (c, Point(c.x + b.width, y))
    case West => (Point(x, c.y - b.height), c)
    case LineStart => (Point(x, y), c)
    case LineEnd => (c, Point(x, y))
  }

  /** The figure after one drag step. */
  function Dragged(k: HandleKind, v: FigValue, c: Point, x: int, y: int): FigValue
    requires Modelled(k) && Drawable(v)
  {
    var pq := DragArgs(k, c, x, y, Bounds(v));
    SetBounds(v, pq.0, pq.1)
  }

  /** The corner handles: the new frame is the one spanned by the pinned corner and the
      mouse, so the pinned corner stays a corner of the figure through the whole drag. */
  lemma CornerDragSpansPinnedCorner(k: HandleKind, v: FigValue, c: Point, x: int, y: int)
    requires k == NorthWest || k == NorthEast || k == SouthEast
    requires v.RectV? || v.EllipseV?
    ensures Bounds(Dragged(k, v, c, x, y)) == FromDiagonal(c, Point(x, y))
  {
    FromDiagonalSymmetric(c, Point(x, y));
  }

  /** While the top-left corner is dragged up and left of the pinned corner, the pinned
      corner is exactly the bottom-right corner of the new frame. */
  lemma NorthWestKeepsBottomRight(v: FigValue, c: Point, x: int, y: int)
    requires v.RectV? || v.EllipseV?
    requires x <= c.x && y <= c.y
    ensures var b := Bounds(Dragged(NorthWest, v, c, x, y));
      b.x == x && b.y == y && b.x + b.width == c.x && b.y + b.height == c.y
  {
  }

  /** The pinned corner at the start of a North drag is the bottom-right corner, so the
      relation "c.x is the right edge" holds from the start. */
  lemma StartCornerIsOppositeCorner(v: FigValue)
    requires (v.RectV? || v.EllipseV?) && !HasNegativeSize(Bounds(v))
    ensures var b := Bounds(v);
      StartCorner(North, v) == Point(b.x + b.width, b.y + b.height) &&
      StartCorner(West, v) == Point(b.x + b.width, b.y + b.height) &&
      StartCorner(South, v) == Point(b.x, b.y)
  {
  }

  /** North handle: the left edge and the width stay, the height follows the mouse, and
      the right edge stays at the pinned corner, so the next step sees the same relation. */
  lemma NorthKeepsWidth(v: FigValue, c: Point, x: int, y: int)
    requires (v.RectV? || v.EllipseV?) && !HasNegativeSize(Bounds(v))
    requires c.x == Bounds(v).x + Bounds(v).width
    ensures var b, b' := Bounds(v), Bounds(Dragged(North, v, c, x, y));
      b'.x == b.x && b'.width == b.width && b'.height == Abs(c.y - y) &&
      c.x == b'.x + b'.width && !HasNegativeSize(b')
  {
  }

  /** South handle: the left edge and the width stay and the top stays at the pinned corner. */
  lemma SouthKeepsWidth(v: FigValue, c: Point, x: int, y: int)
    requires (v.RectV? || v.EllipseV?) && !HasNegativeSize(Bounds(v))
    requires c.x == Bounds(v).x
    ensures var b, b' := Bounds(v), Bounds(Dragged(South, v, c, x, y));
      b'.x == b.x && b'.width == b.width && b'.height == Abs(y - c.y) &&
      c.x == b'.x && !HasNegativeSize(b')
  {
  }

  /** West handle: the top edge and the height stay, the width follows the mouse. */
  lemma WestKeepsHeight(v: FigValue, c: Point, x: int, y: int)
    requires (v.RectV? || v.EllipseV?) && !HasNegativeSize(Bounds(v))
    requires c.y == Bounds(v).y + Bounds(v).height
    ensures var b, b' := Bounds(v), Bounds(Dragged(West, v, c, x, y));
      b'.y == b.y && b'.height == b.height && b'.width == Abs(c.x - x) &&
      c.y == b'.y + b'.height && !HasNegativeSize(b')
  {
  }

  /** The line handles move one endpoint to the mouse and leave the other where it was. */
  lemma LineHandlesKeepOtherEnd(v: FigValue, x: int, y: int)
    requires v.LineV?
    ensures Dragged(LineStart, v, StartCorner(LineStart, v), x, y) == LineV(Point(x, y), v.p2)
    ensures Dragged(LineEnd, v, StartCorner(LineEnd, v), x, y) == LineV(v.p1, Point(x, y))
  {
  }

  /** A group ignores setBounds, so dragging any of its handles leaves it unchanged. */
  lemma GroupIgnoresDrag(k: HandleKind, v: FigValue, c: Point, x: int, y: int)
    requires v.GroupV? && Modelled(k) && Drawable(v)
    ensures Dragged(k, v, c, x, y) == v
  {
  }
}
