/** The geometry of the four figure kinds as reference-free values: what Rect, Ellipse,
    Line and Group store and compute, without identity or listeners. */
module Shapes {
  import opened Geometry

  /** The state of one figure. A group's value holds the values of its parts, in order. */
  datatype FigValue =
    | RectV(rect: Rectangle)
    | EllipseV(frame: Rectangle)
    | LineV(p1: Point, p2: Point)
    | GroupV(parts: seq<FigValue>)

  /** Every group in the tree has at least one part: getBounds takes the first part's
      bounds (LinkedList.getFirst), which throws on an empty group. */
  predicate Drawable(v: FigValue)
  {
    match v
    case GroupV(ps) => |ps| > 0 && forall i :: 0 <= i < |ps| ==> Drawable(ps[i])
    case _ => true
  }

  /** Ellipse2D.getBounds on an integer frame: a frame of negative size yields the empty
      Rectangle at the origin, any other frame is its own bounds. */
  function EllipseBounds(f: Rectangle): (b: Rectangle)
    ensures !HasNegativeSize(b)
    ensures !HasNegativeSize(f) ==> b == f
  {
    if HasNegativeSize(f) then Rectangle(0, 0, 0, 0) else f
  }

  /** Group.getBounds: start from the first part's bounds, then Rectangle.add every part's
      bounds in order, the first one included. */
  function FoldAdd(acc: Rectangle, bs: seq<Rectangle>): Rectangle
    decreases |bs|
  {
    if bs == [] then acc else FoldAdd(Add(acc, bs[0]), bs[1..])
  }

  /** One step of the fold, taken at position i. */
  lemma FoldAddStep(acc: Rectangle, bs: seq<Rectangle>, i: nat)
    requires i < |bs|
    ensures FoldAdd(acc, bs[i..]) == FoldAdd(Add(acc, bs[i]), bs[i + 1..])
  {
    assert bs[i..][1..] == bs[i + 1..];
  }

  function PartBounds(ps: seq<FigValue>): (bs: seq<Rectangle>)
    requires forall i :: 0 <= i < |ps| ==> Drawable(ps[i])
    ensures |bs| == |ps|
    ensures forall i :: 0 <= i < |ps| ==> bs[i] == Bounds(ps[i])
  {
    seq(|ps|, i requires 0 <= i < |ps| => Bounds(ps[i]))
  }

  /** Figure.getBounds for each kind. */
  function Bounds(v: FigValue): Rectangle
    requires Drawable(v)
  {
    match v
    case RectV(r) => r
    case EllipseV(f) => EllipseBounds(f)
    case LineV(a, b) => FromDiagonal(a, b)
    case GroupV(ps) =>
      var bs := PartBounds(ps);
      FoldAdd(bs[0], bs)
  }

  predicate AllNonNegative(bs: seq<Rectangle>)
  {
    forall i :: 0 <= i < |bs| ==> !HasNegativeSize(bs[i])
  }

  /** Folding Rectangle.add over rectangles of non-negative size gives the least rectangle
      that covers the start and every one of them. */
  lemma {:induction false} FoldAddLeastCover(acc: Rectangle, bs: seq<Rectangle>)
    requires !HasNegativeSize(acc) && AllNonNegative(bs)
    ensures !HasNegativeSize(FoldAdd(acc, bs))
    ensures Covers(FoldAdd(acc, bs), acc)
    ensures forall i :: 0 <= i < |bs| ==> Covers(FoldAdd(acc, bs), bs[i])
    ensures forall c :: Covers(c, acc) && (forall i :: 0 <= i < |bs| ==> Covers(c, bs[i])) ==>
              Covers(c, FoldAdd(acc, bs))
    decreases |bs|
  {
    if bs != [] {
      var acc' := Add(acc, bs[0]);
      assert AllNonNegative(bs[1..]) by {
        forall i | 0 <= i < |bs| - 1 ensures !HasNegativeSize(bs[1..][i]) {
          assert bs[1..][i] == bs[i + 1];
        }
      }
      FoldAddLeastCover(acc', bs[1..]);
      var u := FoldAdd(acc, bs);
      assert u == FoldAdd(acc', bs[1..]);
      forall i | 0 <= i < |bs| ensures Covers(u, bs[i]) {
        if i > 0 { assert bs[i] == bs[1..][i - 1]; }
      }
      forall c | Covers(c, acc) && (forall i :: 0 <= i < |bs| ==> Covers(c, bs[i]))
        ensures Covers(c, u)
      {
        assert Covers(c, bs[0]);
        assert Covers(c, acc');
        forall i | 0 <= i < |bs| - 1 ensures Covers(c, bs[1..][i]) {
          assert bs[1..][i] == bs[i + 1];
        }
      }
    }
  }

  /** When no part has bounds of negative size, a group's bounds are the smallest
      rectangle covering the bounds of every part. */
  lemma GroupBoundsLeastCover(ps: seq<FigValue>)
    requires Drawable(GroupV(ps))
    requires forall i :: 0 <= i < |ps| ==> !HasNegativeSize(Bounds(ps[i]))
    ensures forall i :: 0 <= i < |ps| ==> Covers(Bounds(GroupV(ps)), Bounds(ps[i]))
    ensures forall c :: (forall i :: 0 <= i < |ps| ==> Covers(c, Bounds(ps[i]))) ==>
              Covers(c, Bounds(GroupV(ps)))
  {
    var bs := PartBounds(ps);
    FoldAddLeastCover(bs[0], bs);
  }

  /** Adding one more rectangle at the end of the fold. */
  lemma {:induction false} FoldAddSnoc(acc: Rectangle, bs: seq<Rectangle>, r: Rectangle)
    ensures FoldAdd(acc, bs + [r]) == Add(FoldAdd(acc, bs), r)
    decreases |bs|
  {
    if bs != [] {
      assert (bs + [r])[1..] == bs[1..] + [r];
      FoldAddSnoc(Add(acc, bs[0]), bs[1..], r);
    }
  }

  /** The state of Group.getBounds after the parts before index i: the first part and each
      of those parts has bounds, and acc is the first part's bounds with theirs added in order. */
  predicate AddedUpTo(ps: seq<FigValue>, i: nat, acc: Rectangle)
  {
    0 < |ps| && i <= |ps| && Drawable(ps[0]) && (forall j :: 0 <= j < i ==> Drawable(ps[j])) &&
    acc == FoldAdd(Bounds(ps[0]), PartBounds(ps[..i]))
  }

  lemma AddedStart(ps: seq<FigValue>)
    requires 0 < |ps| && Drawable(ps[0])
    ensures AddedUpTo(ps, 0, Bounds(ps[0]))
  {
    assert PartBounds(ps[..0]) == [];
  }

  lemma AddedStep(ps: seq<FigValue>, i: nat, acc: Rectangle)
    requires AddedUpTo(ps, i, acc) && i < |ps| && Drawable(ps[i])
    ensures AddedUpTo(ps, i + 1, Add(acc, Bounds(ps[i])))
  {
    assert PartBounds(ps[..i + 1]) == PartBounds(ps[..i]) + [Bounds(ps[i])];
    FoldAddSnoc(Bounds(ps[0]), PartBounds(ps[..i]), Bounds(ps[i]));
  }

  /** A group with no parts, or with a part that has no bounds, has no bounds itself. */
  lemma NotDrawablePart(ps: seq<FigValue>, i: nat)
    requires |ps| == 0 || (i < |ps| && !Drawable(ps[i]))
    ensures !Drawable(GroupV(ps))
  {
  }

  /** Once every part has been added, the group has bounds and they are acc. */
  lemma AddedAll(ps: seq<FigValue>, acc: Rectangle)
    requires AddedUpTo(ps, |ps|, acc)
    ensures Drawable(GroupV(ps)) && Bounds(GroupV(ps)) == acc
  {
    assert ps[..|ps|] == ps;
  }

  /** Figure.move on the stored geometry: every kind translates; a group translates every part. */
  function Move(v: FigValue, dx: int, dy: int): (r: FigValue)
  {
    match v
    case RectV(r) => RectV(Translate(r, dx, dy))
    case EllipseV(f) => EllipseV(Translate(f, dx, dy))
    case LineV(a, b) => LineV(Point(a.x + dx, a.y + dy), Point(b.x + dx, b.y + dy))
    case GroupV(ps) => GroupV(seq(|ps|, i requires 0 <= i < |ps| => Move(ps[i], dx, dy)))
  }

  /** The parts of a group after the first n of them have moved. */
  function MovePrefix(ps: seq<FigValue>, n: nat, dx: int, dy: int): (r: seq<FigValue>)
    requires n <= |ps|
    ensures |r| == |ps|
    ensures forall i :: 0 <= i < n ==> r[i] == Move(ps[i], dx, dy)
    ensures forall i :: n <= i < |ps| ==> r[i] == ps[i]
  {
    if n == 0 then ps else MovePrefix(ps, n - 1, dx, dy)[n - 1 := Move(ps[n - 1], dx, dy)]
  }

  lemma MovePrefixAll(ps: seq<FigValue>, dx: int, dy: int)
    ensures GroupV(MovePrefix(ps, |ps|, dx, dy)) == Move(GroupV(ps), dx, dy)
  {
    assert MovePrefix(ps, |ps|, dx, dy) == Move(GroupV(ps), dx, dy).parts;
  }

  /** move(dx, dy) followed by move(-dx, -dy) restores every figure exactly. */
  lemma {:induction false} MoveInverse(v: FigValue, dx: int, dy: int)
    ensures Move(Move(v, dx, dy), -dx, -dy) == v
  {
    match v
    case GroupV(ps) =>
      var ms := Move(v, dx, dy).parts;
      var back := Move(Move(v, dx, dy), -dx, -dy).parts;
      assert |back| == |ps|;
      forall i | 0 <= i < |ps| ensures back[i] == ps[i] {
        MoveInverse(ps[i], dx, dy);
      }
    case _ =>
  }

  lemma {:induction false} MoveZero(v: FigValue)
    ensures Move(v, 0, 0) == v
  {
    match v
    case GroupV(ps) =>
      forall i | 0 <= i < |ps| ensures Move(v, 0, 0).parts[i] == ps[i] {
        MoveZero(ps[i]);
      }
    case _ =>
  }

  lemma {:induction false} MoveDrawable(v: FigValue, dx: int, dy: int)
    requires Drawable(v)
    ensures Drawable(Move(v, dx, dy))
  {
    match v
    case GroupV(ps) =>
      forall i | 0 <= i < |ps| ensures Drawable(Move(v, dx, dy).parts[i]) {
        MoveDrawable(ps[i], dx, dy);
      }
    case _ =>
  }

  /** No ellipse anywhere in the tree has a frame of negative size. */
  predicate FramesNonNegative(v: FigValue)
  {
    match v
    case EllipseV(f) => !HasNegativeSize(f)
    case GroupV(ps) => forall i :: 0 <= i < |ps| ==> FramesNonNegative(ps[i])
    case _ => true
  }

  lemma AddTranslate(t: Rectangle, r: Rectangle, dx: int, dy: int)
    ensures Add(Translate(t, dx, dy), Translate(r, dx, dy)) == Translate(Add(t, r), dx, dy)
  {
  }

  lemma {:induction false} FoldAddTranslate(acc: Rectangle, bs: seq<Rectangle>, ts: seq<Rectangle>, dx: int, dy: int)
    requires |ts| == |bs| && forall i :: 0 <= i < |bs| ==> ts[i] == Translate(bs[i], dx, dy)
    ensures FoldAdd(Translate(acc, dx, dy), ts) == Translate(FoldAdd(acc, bs), dx, dy)
    decreases |bs|
  {
    if bs != [] {
      AddTranslate(acc, bs[0], dx, dy);
      FoldAddTranslate(Add(acc, bs[0]), bs[1..], ts[1..], dx, dy);
    }
  }

  /** Moving a figure moves its bounds by the same delta (an ellipse of negative size has
      the empty bounds at the origin wherever it is, hence the precondition). */
  lemma {:induction false} MoveBounds(v: FigValue, dx: int, dy: int)
    requires Drawable(v) && FramesNonNegative(v)
    ensures Drawable(Move(v, dx, dy))
    ensures Bounds(Move(v, dx, dy)) == Translate(Bounds(v), dx, dy)
  {
    MoveDrawable(v, dx, dy);
    match v
    case GroupV(ps) =>
      var ms := Move(v, dx, dy).parts;
      var bs := PartBounds(ps);
      var ts := PartBounds(ms);
      forall i | 0 <= i < |ps| ensures ts[i] == Translate(bs[i], dx, dy) {
        MoveBounds(ps[i], dx, dy);
      }
      FoldAddTranslate(bs[0], bs, ts, dx, dy);
    case _ =>
  }

  /** Figure.setBounds(origin, corner): rectangles and ellipses take the frame spanned by the
      two points, a line stores them as its endpoints, a group ignores the call. */
  function SetBounds(v: FigValue, a: Point, b: Point): FigValue
  {
    match v
    case RectV(_) => RectV(FromDiagonal(a, b))
    case EllipseV(_) => EllipseV(FromDiagonal(a, b))
    case LineV(_, _) => LineV(a, b)
    case GroupV(_) => v
  }

  /** For every kind the resulting bounds do not depend on the order of the two points,
      and for the closed shapes they are the normalised frame of the diagonal. */
  lemma SetBoundsOrderIndependent(v: FigValue, a: Point, b: Point)
    requires Drawable(v)
    ensures Drawable(SetBounds(v, a, b)) && Drawable(SetBounds(v, b, a))
    ensures Bounds(SetBounds(v, a, b)) == Bounds(SetBounds(v, b, a))
    ensures !v.GroupV? ==> Bounds(SetBounds(v, a, b)) == FromDiagonal(a, b)
  {
    FromDiagonalSymmetric(a, b);
  }

  /** Line.contains as written: an equality test on x, then on y, then a product test. */
  predicate LineContains(p1: Point, p2: Point, x: int, y: int)
  {
    if p1.x == x then p2.x == x
    else if p1.y == y then p2.y == y
    else (p1.x - x) * (p1.y - y) == (x - p2.x) * (y - p2.y)
  }

  /** The product test is not a collinearity test: on the diagonal from (0,0) to (3,3) the
      point (1,1) and both endpoints are rejected, while on (0,0)-(2,2) the point (1,1) is accepted. */
  lemma LineContainsIsNotSegmentTest()
    ensures !LineContains(Point(0, 0), Point(3, 3), 1, 1)
    ensures !LineContains(Point(0, 0), Point(3, 3), 0, 0)
    ensures !LineContains(Point(0, 0), Point(3, 3), 3, 3)
    ensures LineContains(Point(0, 0), Point(2, 2), 1, 1)
  {
  }

  /** The start point hits exactly when the line is vertical: the x test decides alone, so
      the start point of every other line is missed. */
  lemma LineContainsStart(p1: Point, p2: Point)
    ensures LineContains(p1, p2, p1.x, p1.y) <==> p1.x == p2.x
  {
  }

  /** The end point hits exactly when the line is vertical or horizontal: off both axes the
      product test compares a non-zero product with zero. */
  lemma LineContainsEnd(p1: Point, p2: Point)
    ensures LineContains(p1, p2, p2.x, p2.y) <==> p1.x == p2.x || p1.y == p2.y
  {
    if p1.x != p2.x && p1.y != p2.y {
      assert (p1.x - p2.x) * (p1.y - p2.y) != 0;
    }
  }

  /** A product of two integers is zero exactly when a factor is. */
  lemma ZeroProduct(u: int, v: int)
    ensures u * v == 0 <==> u == 0 || v == 0
  {
    if v > 0 && u > 0 { assert u * v >= v; }
    if v > 0 && u < 0 { assert u * v <= -v; }
    if v < 0 && u > 0 { assert u * v <= v; }
    if v < 0 && u < 0 { assert u * v >= -v; }
  }

  /** The offsets (a, c) from the start to a point and (e, f) from the point to the end:
      parallel and pointing the same way, with equal products only when they are equal. */
  lemma EqualOffsets(a: int, c: int, e: int, f: int)
    requires a * f == c * e && a * e > 0 && c * f > 0 && a * c == e * f
    ensures a == e && c == f
  {
    assert e != 0;
    calc {
      e * (f * f);
      (e * f) * f;
      (a * c) * f;
      c * (a * f);
      c * (c * e);
      e * (c * c);
    }
    assert e * (f * f - c * c) == 0;
    ZeroProduct(e, f * f - c * c);
    assert (f - c) * (f + c) == f * f - c * c;
    assert f + c != 0;
    ZeroProduct(f + c, f - c);
    assert (a - e) * c == 0;
    assert c != 0;
    ZeroProduct(c, a - e);
  }

  /** On a line that runs neither vertically nor horizontally through the point, a point
      strictly between the endpoints on the line is hit exactly when it is the midpoint. */
  lemma LineHitsOnlyMidpoint(p1: Point, p2: Point, x: int, y: int)
    requires x != p1.x && y != p1.y
    requires (x - p1.x) * (p2.y - y) == (y - p1.y) * (p2.x - x)
    requires (x - p1.x) * (p2.x - x) > 0 && (y - p1.y) * (p2.y - y) > 0
    ensures LineContains(p1, p2, x, y) <==> 2 * x == p1.x + p2.x && 2 * y == p1.y + p2.y
  {
    var a, c, e, f := x - p1.x, y - p1.y, p2.x - x, p2.y - y;
    assert (p1.x - x) * (p1.y - y) == a * c;
    assert (x - p2.x) * (y - p2.y) == e * f;
    if a * c == e * f {
      EqualOffsets(a, c, e, f);
    }
  }

  /** Figure.contains for rectangles, lines and groups (a group tests only its bounds).
      Ellipse.contains is a floating-point interior test and is not part of this model. */
  predicate Contains(v: FigValue, x: int, y: int)
    requires !v.EllipseV? && Drawable(v)
  {
    match v
    case RectV(r) => Geometry.Contains(r, x, y)
    case LineV(a, b) => LineContains(a, b, x, y)
    case GroupV(_) => Geometry.Contains(Bounds(v), x, y)
  }

  /** A group hits every point its parts' bounds hit and nothing outside its own bounds. */
  lemma GroupContainsParts(ps: seq<FigValue>, i: nat, x: int, y: int)
    requires Drawable(GroupV(ps)) && i < |ps|
    requires forall j :: 0 <= j < |ps| ==> !HasNegativeSize(Bounds(ps[j]))
    requires Geometry.Contains(Bounds(ps[i]), x, y)
    ensures Contains(GroupV(ps), x, y)
  {
    GroupBoundsLeastCover(ps);
    CoversContains(Bounds(GroupV(ps)), Bounds(ps[i]), x, y);
  }

  /** Only rectangles override clone; a group clones its parts, so it can be copied exactly
      when every part can. */
  predicate Clonable(v: FigValue)
  {
    match v
    case RectV(_) => true
    case GroupV(ps) => forall i :: 0 <= i < |ps| ==> Clonable(ps[i])
    case _ => false
  }
}
