/** Integer points and rectangles with the java.awt semantics the editor relies on.
    Java's `int` is modelled by unbounded `int`; overflow is not modelled. */
module Geometry {

  datatype Point = Point(x: int, y: int)

  /** A java.awt.Rectangle: upper-left corner and a size that may be negative. */
  datatype Rectangle = Rectangle(x: int, y: int, width: int, height: int)

  function Min(a: int, b: int): int { if a <= b then a else b }
  function Max(a: int, b: int): int { if a <= b then b else a }
  function Abs(a: int): nat { if a < 0 then -a else a }

  /** Java's `/` on int for a positive divisor: the quotient is truncated toward zero. */
  function JavaDiv(a: int, b: int): (q: int)
    requires b > 0
    ensures a >= 0 ==> 0 <= q && q * b <= a < q * b + b
    ensures a < 0 ==> q <= 0 && q * b - b < a <= q * b
  {
    if a >= 0 then
      DivBounds(a, b);
      a / b
    else
      DivBounds(-a, b);
      NegMul((-a) / b, b);
      -((-a) / b)
  }

  lemma DivBounds(n: nat, b: int)
    requires b > 0
    ensures 0 <= n / b && (n / b) * b <= n < (n / b) * b + b
  {
    var q, r := n / b, n % b;
    assert n == q * b + r;
  }

  lemma NegMul(x: int, b: int)
    ensures (-x) * b == -(x * b)
  {
  }

  /** Java's `%` on int for a positive divisor, defined as in section 15.17.3 of the Java
      Language Specification by (a / b) * b + a % b == a: the remainder takes the sign of the dividend. */
  function JavaRem(a: int, b: int): (r: int)
    requires b > 0
    ensures a == JavaDiv(a, b) * b + r
    ensures a >= 0 ==> 0 <= r < b
    ensures a < 0 ==> -b < r <= 0
  {
    a - JavaDiv(a, b) * b
  }

  /** Rectangle2D.setFrameFromDiagonal on integer points: the frame spanned by two
      opposite corners given in either order. */
  function FromDiagonal(a: Point, b: Point): (r: Rectangle)
    ensures r.width >= 0 && r.height >= 0
    ensures (a.x == r.x && b.x == r.x + r.width) || (b.x == r.x && a.x == r.x + r.width)
    ensures (a.y == r.y && b.y == r.y + r.height) || (b.y == r.y && a.y == r.y + r.height)
  {
    Rectangle(Min(a.x, b.x), Min(a.y, b.y), Abs(a.x - b.x), Abs(a.y - b.y))
  }

  lemma FromDiagonalSymmetric(a: Point, b: Point)
    ensures FromDiagonal(a, b) == FromDiagonal(b, a)
  {
  }

  /** Rectangle.contains(int, int): an empty test for a negative size, otherwise the
      half-open test x <= px < x + width, y <= py < y + height. */
  predicate Contains(r: Rectangle, px: int, py: int)
  {
    if r.width < 0 || r.height < 0 then false
    else r.x <= px && r.y <= py && px < r.x + r.width && py < r.y + r.height
  }

  /** With unbounded integers the negative-size guard of Contains is subsumed by the half-open test. */
  lemma ContainsHalfOpen(r: Rectangle, px: int, py: int)
    ensures Contains(r, px, py) <==>
            (r.x <= px < r.x + r.width && r.y <= py < r.y + r.height)
  {
  }

  function Translate(r: Rectangle, dx: int, dy: int): Rectangle
  {
    Rectangle(r.x + dx, r.y + dy, r.width, r.height)
  }

  predicate HasNegativeSize(r: Rectangle) { r.width < 0 || r.height < 0 }

  /** `big` reaches at least as far as `small` on every side. */
  predicate Covers(big: Rectangle, small: Rectangle)
  {
    big.x <= small.x && big.y <= small.y &&
    small.x + small.width <= big.x + big.width &&
    small.y + small.height <= big.y + big.height
  }

  /** The union of two rectangles of non-negative size. */
  function Union(t: Rectangle, r: Rectangle): (u: Rectangle)
    requires !HasNegativeSize(t) && !HasNegativeSize(r)
    ensures !HasNegativeSize(u)
    ensures Covers(u, t) && Covers(u, r)
    ensures forall c :: Covers(c, t) && Covers(c, r) ==> Covers(c, u)
  {
    var x1 := Min(t.x, r.x);
    var y1 := Min(t.y, r.y);
    var x2 := Max(t.x + t.width, r.x + r.width);
    var y2 := Max(t.y + t.height, r.y + r.height);
    Rectangle(x1, y1, x2 - x1, y2 - y1)
  }

  /** Rectangle.add(Rectangle) as java.awt.Rectangle implements it. The receiver's size is
      read first; a receiver of negative size then takes the argument's position and size;
      an argument of negative size changes nothing further; otherwise the result spans the
      receiver's (possibly replaced) position extended by the size read first, and the
      argument. */
  function Add(t: Rectangle, r: Rectangle): (u: Rectangle)
    ensures HasNegativeSize(r) ==> u == (if HasNegativeSize(t) then r else t)
    ensures !HasNegativeSize(t) && !HasNegativeSize(r) ==> u == Union(t, r)
    ensures HasNegativeSize(t) && !HasNegativeSize(r) ==>
      u == Rectangle(r.x, r.y, Max(t.width, r.width), Max(t.height, r.height))
    ensures !HasNegativeSize(r) ==> !HasNegativeSize(u) && Covers(u, r)
  {
    var t' := if HasNegativeSize(t) then r else t;
    if HasNegativeSize(r) then t'
    else
      var x1 := Min(t'.x, r.x);
      var y1 := Min(t'.y, r.y);
      var x2 := Max(t'.x + t.width, r.x + r.width);
      var y2 := Max(t'.y + t.height, r.y + r.height);
      Rectangle(x1, y1, x2 - x1, y2 - y1)
  }

  /** A receiver with one negative side is not simply replaced by the argument: its other
      side survives when it is the longer one. */
  lemma AddKeepsLongerSideOfNegativeReceiver()
    ensures Add(Rectangle(0, 0, -1, 100), Rectangle(5, 5, 10, 10)) == Rectangle(5, 5, 10, 100)
    ensures Add(Rectangle(0, 0, 100, -1), Rectangle(5, 5, 10, 10)) == Rectangle(5, 5, 100, 10)
  {
  }

  lemma UnionIdempotent(r: Rectangle)
    requires !HasNegativeSize(r)
    ensures Union(r, r) == r
  {
  }

  /** A covering rectangle covers every point of what it covers. */
  lemma CoversContains(big: Rectangle, small: Rectangle, px: int, py: int)
    requires Covers(big, small) && Contains(small, px, py)
    ensures Contains(big, px, py)
  {
  }
}
