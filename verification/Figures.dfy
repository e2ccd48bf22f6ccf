/** The figures of the editor as mutable objects: Rect, Ellipse, Line and Group share the
    listener list of AbstractFigure, change their geometry in place and notify their
    listeners after every change. A notification is modelled by returning, in call order,
    the listener calls a change makes instead of running them. */
module Figures {
  import opened Geometry
  import opened Shapes
  import opened Seqs
  import opened Options
  import opened HandlePoints

  /** The concrete class of a figure. */
  datatype Kind = Rect | Ellipse | Line | Group

  /** A registered FigureListener, known only by its identity. */
  datatype FigureListener = FigureListener(id: nat)

  /** One call listener.figureChanged(new FigureEvent(source)). */
  datatype Notice = Notice(listener: FigureListener, source: Figure)

  /** What a figure sends to its listener list: one event per entry, in list order, so a
      listener registered twice hears the change twice. */
  function Broadcast(ls: seq<FigureListener>, source: Figure): (ns: seq<Notice>)
    ensures |ns| == |ls|
    ensures forall i :: 0 <= i < |ls| ==> ns[i].listener == ls[i] && ns[i].source == source
  {
    seq(|ls|, i requires 0 <= i < |ls| => Notice(ls[i], source))
  }

  /** Every object reachable from the given figures. */
  ghost function Footprint(figs: seq<Figure>): (fp: set<Figure>)
    ensures forall i :: 0 <= i < |figs| ==> figs[i].Repr <= fp
    decreases |figs|
  {
    if figs == [] then {} else Footprint(figs[..|figs| - 1]) + figs[|figs| - 1].Repr
  }

  /** The geometry each figure of a list currently holds, in order. */
  function Values(figs: seq<Figure>): (vs: seq<FigValue>)
    requires forall i :: 0 <= i < |figs| ==> figs[i].Valid()
    reads Footprint(figs)`frame, Footprint(figs)`p1, Footprint(figs)`p2
    ensures |vs| == |figs| && forall i :: 0 <= i < |figs| ==> vs[i] == figs[i].Value()
    decreases |figs|
  {
    if figs == [] then [] else Values(figs[..|figs| - 1]) + [figs[|figs| - 1].Value()]
  }

  /** Appending a figure to a list appends its geometry. */
  lemma ValuesSnoc(figs: seq<Figure>, f: Figure)
    requires forall i :: 0 <= i < |figs| ==> figs[i].Valid()
    requires f.Valid()
    ensures Footprint(figs + [f]) == Footprint(figs) + f.Repr
    ensures Values(figs + [f]) == Values(figs) + [f.Value()]
  {
    assert (figs + [f])[..|figs|] == figs;
  }

  /** The listener list each figure of a list currently holds, in order. */
  function ListenerLists(figs: seq<Figure>): (ls: seq<seq<FigureListener>>)
    reads (set f | f in figs)`listeners
    ensures |ls| == |figs| && forall i :: 0 <= i < |figs| ==> ls[i] == figs[i].listeners
    decreases |figs|
  {
    if figs == [] then [] else ListenerLists(figs[..|figs| - 1]) + [figs[|figs| - 1].listeners]
  }

  /** Objects allocated since the enclosing method began are not reachable from figures
      that existed before. */
  twostate lemma {:induction false} FootprintOld(figs: seq<Figure>, new objs: set<Figure>)
    requires fresh(objs)
    ensures Footprint(figs) !! objs
    decreases |figs|
  {
    if figs != [] {
      FootprintOld(figs[..|figs| - 1], objs);
    }
  }

  /** Figures allocated since the enclosing method began have a footprint allocated since then. */
  twostate lemma {:induction false} FootprintFresh(new figs: seq<Figure>)
    requires forall i :: 0 <= i < |figs| ==> fresh(figs[i].Repr)
    ensures fresh(Footprint(figs))
    decreases |figs|
  {
    if figs != [] {
      FootprintFresh(figs[..|figs| - 1]);
    }
  }

  class Figure {
    const kind: Kind
    /** Rect.rectangle, or the frame of Ellipse.ellipse2D. */
    var frame: Rectangle
    /** The two endpoints of Line.line. */
    var p1: Point
    var p2: Point
    /** Group.figureParts. */
    const parts: seq<Figure>
    /** AbstractFigure.figureListeners. */
    var listeners: seq<FigureListener>
    /** This figure and, for a group, everything its parts consist of. */
    ghost const Repr: set<Figure>

    /** A figure is a tree: every part owns its own objects, apart from the other parts'. */
    ghost predicate Valid()
      decreases Repr
    {
      this in Repr &&
      (kind != Group ==> parts == []) &&
      (forall i :: 0 <= i < |parts| ==> parts[i].Repr <= Repr - {this} && parts[i].Valid()) &&
      (forall i, j :: 0 <= i < j < |parts| ==> parts[i].Repr !! parts[j].Repr)
    }

    /** The geometry the figure currently holds. */
    function Value(): (v: FigValue)
      requires Valid()
      reads Repr`frame, Repr`p1, Repr`p2
      ensures kind == Rect <==> v.RectV?
      ensures kind == Ellipse <==> v.EllipseV?
      ensures kind == Line <==> v.LineV?
      ensures kind == Group <==> v.GroupV?
      decreases Repr, 1
    {
      match kind
      case Rect => RectV(frame)
      case Ellipse => EllipseV(frame)
      case Line => LineV(p1, p2)
      case Group => GroupV(PartValues(|parts|))
    }

    function PartValues(n: nat): (vs: seq<FigValue>)
      requires Valid() && n <= |parts|
      reads Repr`frame, Repr`p1, Repr`p2
      ensures |vs| == n && forall i :: 0 <= i < n ==> vs[i] == parts[i].Value()
      decreases Repr, 0, n
    {
      if n == 0 then [] else PartValues(n - 1) + [parts[n - 1].Value()]
    }

    /** A group's value lists its parts' values in order. */
    lemma ValueParts()
      requires Valid() && kind == Group
      ensures |Value().parts| == |parts|
      ensures forall i :: 0 <= i < |parts| ==> Value().parts[i] == parts[i].Value()
    {
    }

    /** Rect(x, y, w, h). */
    constructor NewRect(x: int, y: int, w: int, h: int)
      ensures Valid() && fresh(Repr) && kind == Rect && listeners == []
      ensures Value() == RectV(Rectangle(x, y, w, h))
    {
      kind := Rect;
      frame := Rectangle(x, y, w, h);
      p1, p2 := Point(0, 0), Point(0, 0);
      parts := [];
      listeners := [];
      Repr := {this};
    }

    /** Rect(Rect old): a fresh rectangle with the bounds of the original and no listeners. */
    constructor CopyRect(original: Figure)
      requires original.Valid() && original.kind == Rect
      ensures Valid() && fresh(Repr) && kind == Rect && listeners == []
      ensures Value() == original.Value()
    {
      kind := Rect;
      frame := original.frame;
      p1, p2 := Point(0, 0), Point(0, 0);
      parts := [];
      listeners := [];
      Repr := {this};
    }

    /** Ellipse(x, y, w, h): (x, y) becomes the upper-left corner of the frame. */
    constructor NewEllipse(x: int, y: int, w: int, h: int)
      ensures Valid() && fresh(Repr) && kind == Ellipse && listeners == []
      ensures Value() == EllipseV(Rectangle(x, y, w, h))
    {
      kind := Ellipse;
      frame := Rectangle(x, y, w, h);
      p1, p2 := Point(0, 0), Point(0, 0);
      parts := [];
      listeners := [];
      Repr := {this};
    }

    /** Line(x1, y1, x2, y2). */
    constructor NewLine(x1: int, y1: int, x2: int, y2: int)
      ensures Valid() && fresh(Repr) && kind == Line && listeners == []
      ensures Value() == LineV(Point(x1, y1), Point(x2, y2))
    {
      kind := Line;
      frame := Rectangle(0, 0, 0, 0);
      p1, p2 := Point(x1, y1), Point(x2, y2);
      parts := [];
      listeners := [];
      Repr := {this};
    }

    /** Group(parts): a group over the given figures, which must not share objects; vs names
        the parts' values. */
    constructor NewGroup(figs: seq<Figure>, ghost vs: seq<FigValue>)
      requires forall i :: 0 <= i < |figs| ==> figs[i].Valid()
      requires forall i, j :: 0 <= i < j < |figs| ==> figs[i].Repr !! figs[j].Repr
      requires |vs| == |figs| && forall i :: 0 <= i < |figs| ==> figs[i].Value() == vs[i]
      ensures Valid() && kind == Group && parts == figs && listeners == []
      ensures Repr == {this} + Footprint(figs) && fresh(Repr - Footprint(figs))
      ensures Value() == GroupV(vs)
    {
      kind := Group;
      frame := Rectangle(0, 0, 0, 0);
      p1, p2 := Point(0, 0), Point(0, 0);
      parts := figs;
      listeners := [];
      Repr := {this} + Footprint(figs);
      new;
      assert forall i :: 0 <= i < |figs| ==> this !in figs[i].Repr;
      assert Valid();
      ValueFromParts(GroupV(vs));
    }

    /** addFigureListener: appends, even a listener that is already registered. */
    method AddFigureListener(l: FigureListener)
      modifies this`listeners
      ensures listeners == old(listeners) + [l]
    {
      listeners := listeners + [l];
    }

    /** removeFigureListener: drops the first registration of l, if any. */
    method RemoveFigureListener(l: FigureListener)
      modifies this`listeners
      ensures listeners == RemoveFirst(old(listeners), l)
    {
      listeners := RemoveFirst(listeners, l);
    }

    /** notifyAllListeners: one figureChanged call per entry of a copy of the listener list. */
    method NotifyAllListeners() returns (sent: seq<Notice>)
      ensures sent == Broadcast(listeners, this)
    {
      var copy := listeners;
      sent := [];
      var i := 0;
      while i < |copy|
        invariant 0 <= i <= |copy|
        invariant |sent| == i
        invariant forall j :: 0 <= j < i ==> sent[j] == Notice(copy[j], this)
      {
        sent := sent + [Notice(copy[i], this)];
        i := i + 1;
      }
    }

    /** The calls move(dx, dy) makes: a rectangle or ellipse stays silent on a zero move,
        a line always notifies, a group relays its parts' notifications in part order. */
    ghost function MoveNotices(dx: int, dy: int): seq<Notice>
      requires Valid()
      reads Repr`listeners
      decreases Repr, 1
    {
      match kind
      case Group => PartsMoveNotices(dx, dy, |parts|)
      case Line => Broadcast(listeners, this)
      case _ => if dx == 0 && dy == 0 then [] else Broadcast(listeners, this)
    }

    ghost function PartsMoveNotices(dx: int, dy: int, n: nat): seq<Notice>
      requires Valid() && n <= |parts|
      reads Repr`listeners
      decreases Repr, 0, n
    {
      if n == 0 then [] else PartsMoveNotices(dx, dy, n - 1) + parts[n - 1].MoveNotices(dx, dy)
    }

    /** move(dx, dy) for any figure. */
    method Move(dx: int, dy: int) returns (sent: seq<Notice>)
      requires Valid()
      modifies Repr`frame, Repr`p1, Repr`p2
      ensures Value() == Shapes.Move(old(Value()), dx, dy)
      ensures sent == MoveNotices(dx, dy)
      decreases Repr, 1
    {
      if kind == Group {
        sent := MoveParts(dx, dy);
      } else if kind == Line {
        sent := MoveLine(dx, dy);
      } else {
        sent := MoveFrame(dx, dy);
      }
    }

    /** Rect.move and Ellipse.move: nothing at all happens on a zero move. */
    method MoveFrame(dx: int, dy: int) returns (sent: seq<Notice>)
      requires Valid() && (kind == Rect || kind == Ellipse)
      modifies this`frame
      ensures Value() == Shapes.Move(old(Value()), dx, dy)
      ensures dx == 0 && dy == 0 ==> sent == [] && frame == old(frame)
      ensures !(dx == 0 && dy == 0) ==> sent == Broadcast(listeners, this)
    {
      if dx == 0 && dy == 0 {
        return [];
      }
      frame := Translate(frame, dx, dy);
      sent := NotifyAllListeners();
    }

    /** Line.move: both endpoints move, and the listeners hear it even on a zero move. */
    method MoveLine(dx: int, dy: int) returns (sent: seq<Notice>)
      requires Valid() && kind == Line
      modifies this`p1, this`p2
      ensures Value() == Shapes.Move(old(Value()), dx, dy)
      ensures sent == Broadcast(listeners, this)
    {
      p1 := Point(p1.x + dx, p1.y + dy);
      p2 := Point(p2.x + dx, p2.y + dy);
      sent := NotifyAllListeners();
    }

    /** Group.move: every part moves in turn; the group sends nothing itself. */
    method MoveParts(dx: int, dy: int) returns (sent: seq<Notice>)
      requires Valid() && kind == Group
      modifies Repr`frame, Repr`p1, Repr`p2
      ensures Value() == Shapes.Move(old(Value()), dx, dy)
      ensures sent == PartsMoveNotices(dx, dy, |parts|)
      decreases Repr, 0
    {
      ghost var ps := PartValues(|parts|);
      sent := [];
      var i := 0;
      while i < |parts|
        invariant 0 <= i <= |parts|
        invariant PartValues(|parts|) == MovePrefix(ps, i, dx, dy)
        invariant sent == PartsMoveNotices(dx, dy, i)
      {
        var s := MovePart(i, dx, dy);
        sent := sent + s;
        i := i + 1;
      }
      MovePrefixAll(ps, dx, dy);
    }

    /** One step of Group.move: part i moves, the other parts and every listener list stay. */
    method MovePart(i: nat, dx: int, dy: int) returns (sent: seq<Notice>)
      requires Valid() && kind == Group && i < |parts|
      modifies parts[i].Repr`frame, parts[i].Repr`p1, parts[i].Repr`p2
      ensures PartValues(|parts|) ==
              old(PartValues(|parts|))[i := Shapes.Move(old(PartValues(|parts|))[i], dx, dy)]
      ensures PartsMoveNotices(dx, dy, i + 1) == old(PartsMoveNotices(dx, dy, i)) + sent
      decreases Repr, 0, i
    {
      sent := parts[i].Move(dx, dy);
    }

    /** setBounds(origin, corner): rectangles and ellipses take the normalised frame of the
        diagonal, a line takes the two points as its endpoints, and each notifies; a group
        does nothing. */
    method SetBounds(origin: Point, corner: Point) returns (sent: seq<Notice>)
      requires Valid()
      modifies this`frame, this`p1, this`p2
      ensures Value() == Shapes.SetBounds(old(Value()), origin, corner)
      ensures sent == if kind == Group then [] else Broadcast(listeners, this)
    {
      match kind
      case Group => sent := [];
      case Line =>
        p1, p2 := origin, corner;
        sent := NotifyAllListeners();
      case _ =>
        frame := FromDiagonal(origin, corner);
        sent := NotifyAllListeners();
    }

    /** getBounds for any figure. None stands for the NoSuchElementException a group
        without parts throws, which reaches every group that contains one. */
    method GetBounds() returns (b: Option<Rectangle>)
      requires Valid()
      ensures b.Some? <==> Drawable(Value())
      ensures b.Some? ==> b.value == Bounds(Value())
      decreases Repr, 3
    {
      if kind == Group {
        b := GroupBounds();
      } else if kind == Line {
        b := Some(FromDiagonal(p1, p2));
      } else if kind == Ellipse {
        b := Some(EllipseBounds(frame));
      } else {
        b := Some(frame);
      }
    }

    /** Group.getBounds: a copy of the first part's bounds (getFirst throws on a group
        without parts), to which every part's bounds, the first one included, are added in
        turn; a part that throws ends the call. */
    method GroupBounds() returns (b: Option<Rectangle>)
      requires Valid() && kind == Group
      ensures b.Some? <==> Drawable(Value())
      ensures b.Some? ==> b.value == Bounds(Value())
      decreases Repr, 2
    {
      ghost var ps := PartValues(|parts|);
      assert Value() == GroupV(ps);
      if |parts| == 0 {
        NotDrawablePart(ps, 0);
        return None;
      }
      b := FoldParts(ps);
    }

    /** The body of Group.getBounds for a group with parts, whose values are ps. */
    method FoldParts(ghost ps: seq<FigValue>) returns (b: Option<Rectangle>)
      requires Valid() && kind == Group && 0 < |parts| == |ps|
      requires forall j :: 0 <= j < |ps| ==> ps[j] == parts[j].Value()
      ensures b.Some? <==> Drawable(GroupV(ps))
      ensures b.Some? ==> b.value == Bounds(GroupV(ps))
      decreases Repr, 1
    {
      var first := parts[0].GetBounds();
      if first.None? {
        NotDrawablePart(ps, 0);
        return None;
      }
      var acc := first.value;
      AddedStart(ps);
      var i := 0;
      while i < |parts|
        invariant i <= |parts| && AddedUpTo(ps, i, acc)
      {
        var r := AddPart(i, ps, acc);
        if r.None? {
          NotDrawablePart(ps, i);
          return None;
        }
        acc := r.value;
        i := i + 1;
      }
      AddedAll(ps, acc);
      b := Some(acc);
    }

    /** One turn of the forEach in Group.getBounds: the i-th part's bounds are added to acc,
        or the part throws. */
    method AddPart(i: nat, ghost ps: seq<FigValue>, acc: Rectangle) returns (r: Option<Rectangle>)
      requires Valid() && kind == Group && i < |parts| == |ps| && ps[i] == parts[i].Value()
      requires AddedUpTo(ps, i, acc)
      ensures r.None? <==> !Drawable(ps[i])
      ensures r.Some? ==> AddedUpTo(ps, i + 1, r.value)
      decreases Repr, 0
    {
      var pb := parts[i].GetBounds();
      if pb.None? {
        return None;
      }
      AddedStep(ps, i, acc);
      r := Some(Add(acc, pb.value));
    }

    /** clone: a rectangle copies itself, a group copies every part, an ellipse or a line
        has no copy (AbstractFigure.clone answers null). */
    method Clone() returns (c: Option<Figure>)
      requires Valid()
      ensures c.Some? <==> Clonable(Value())
      ensures c.Some? ==> c.value.Valid() && fresh(c.value.Repr) && c.value.kind == kind &&
                          c.value.Value() == Value() && c.value.listeners == []
      decreases Repr, 2
    {
      if kind == Rect {
        var r := new Figure.CopyRect(this);
        c := Some(r);
      } else if kind == Group {
        c := CloneGroup();
      } else {
        c := None;
      }
    }

    /** Group.clone: every part is cloned in order and the copies form a new group. */
    method CloneGroup() returns (c: Option<Figure>)
      requires Valid() && kind == Group
      ensures c.Some? <==> Clonable(Value())
      ensures c.Some? ==> c.value.Valid() && fresh(c.value.Repr) && c.value.kind == Group &&
                          c.value.Value() == Value() && c.value.listeners == []
      decreases Repr, 1
    {
      var copies, complete := CloneParts();
      if complete {
        FootprintFresh(copies);
        var g := new Figure.NewGroup(copies, PartValues(|parts|));
        c := Some(g);
      } else {
        c := None;
      }
    }

    /** The loop of Group.clone: the copies of the parts, in order, and whether every part
        had one. */
    method CloneParts() returns (copies: seq<Figure>, complete: bool)
      requires Valid() && kind == Group
      ensures |copies| == |parts|
      ensures complete <==> Clonable(Value())
      ensures complete ==> forall j :: 0 <= j < |parts| ==>
        copies[j].Valid() && fresh(copies[j].Repr) && copies[j].Value() == PartValues(|parts|)[j]
      ensures complete ==> forall j, k :: 0 <= j < k < |parts| ==> copies[j].Repr !! copies[k].Repr
      decreases Repr, 0
    {
      ghost var ps := PartValues(|parts|);
      copies := [];
      complete := true;
      var i := 0;
      while i < |parts|
        invariant 0 <= i <= |parts| && |copies| == i
        invariant PartValues(|parts|) == ps
        invariant complete <==> forall j :: 0 <= j < i ==> Clonable(ps[j])
        invariant complete ==> forall j :: 0 <= j < i ==> copies[j].Valid() && copies[j].Value() == ps[j]
        invariant complete ==> forall j, k :: 0 <= j < k < i ==> copies[j].Repr !! copies[k].Repr
        invariant complete ==> forall j :: 0 <= j < i ==> fresh(copies[j].Repr)
      {
        copies, complete := CloneNext(i, copies, complete, ps);
        i := i + 1;
      }
    }

    /** One turn of the loop of Group.clone: the i-th part is cloned and appended. */
    method CloneNext(i: nat, copies: seq<Figure>, complete: bool, ghost ps: seq<FigValue>)
      returns (copies': seq<Figure>, complete': bool)
      requires Valid() && kind == Group && i < |parts| && |copies| == i
      requires PartValues(|parts|) == ps
      requires complete <==> forall j :: 0 <= j < i ==> Clonable(ps[j])
      requires complete ==> forall j :: 0 <= j < i ==> copies[j].Valid() && copies[j].Value() == ps[j]
      requires complete ==> forall j, k :: 0 <= j < k < i ==> copies[j].Repr !! copies[k].Repr
      ensures |copies'| == i + 1
      ensures PartValues(|parts|) == ps
      ensures complete' <==> forall j :: 0 <= j < i + 1 ==> Clonable(ps[j])
      ensures complete' ==> forall j :: 0 <= j < i + 1 ==> copies'[j].Valid() && copies'[j].Value() == ps[j]
      ensures complete' ==> forall j, k :: 0 <= j < k < i + 1 ==> copies'[j].Repr !! copies'[k].Repr
      ensures complete' ==> copies'[..i] == copies && fresh(copies'[i].Repr)
      decreases Repr, 0, i
    {
      var c := parts[i].Clone();
      if c.Some? {
        copies' := copies + [c.value];
        complete' := complete;
      } else {
        copies' := copies + [parts[i]];
        complete' := false;
      }
    }

    /** A group can be copied exactly when each of its parts can. */
    lemma ClonableParts()
      requires Valid() && kind == Group
      ensures Clonable(Value()) <==> forall j :: 0 <= j < |parts| ==> Clonable(Value().parts[j])
    {
      ValueParts();
    }

    /** A group's value is made of its parts' values. */
    lemma ValueFromParts(v: FigValue)
      requires Valid() && kind == Group && v.GroupV? && |v.parts| == |parts|
      requires forall j :: 0 <= j < |parts| ==> parts[j].Value() == v.parts[j]
      ensures Value() == v
    {
      ValueParts();
      assert Value().parts == v.parts;
    }

    /** getHandles: fresh handles owned by this figure, in the figure's handle order. */
    method GetHandles() returns (hs: seq<Handle>)
      requires Valid()
      ensures |hs| == |HandleKinds(Value())|
      ensures forall i :: 0 <= i < |hs| ==>
        fresh(hs[i]) && hs[i].owner == this && hs[i].kind == HandleKinds(Value())[i] &&
        hs[i].corner == None
    {
      var ks := HandleKinds(Value());
      hs := [];
      var i := 0;
      while i < |ks|
        invariant 0 <= i <= |ks| && |hs| == i
        invariant forall j :: 0 <= j < i ==>
          fresh(hs[j]) && hs[j].owner == this && hs[j].kind == ks[j] && hs[j].corner == None
      {
        var h := new Handle(ks[i], this);
        hs := hs + [h];
        i := i + 1;
      }
    }
  }

  /** A handle on a figure: where it sits, and the corner it pins between
      startInteraction and stopInteraction. */
  class Handle {
    const kind: HandleKind
    const owner: Figure
    /** AbstractHandle.corner; null outside an interaction. */
    var corner: Option<Point>

    constructor (kind: HandleKind, owner: Figure)
      ensures this.kind == kind && this.owner == owner && corner == None
    {
      this.kind := kind;
      this.owner := owner;
      corner := None;
    }

    /** The owner is a well-formed figure of a kind this handle belongs to. */
    ghost predicate Valid()
    {
      owner.Valid() && Modelled(kind) && (IsLineKind(kind) <==> owner.kind == Line)
    }

    /** getLocation, from the owner's current geometry. The ensures ties the handle object to
        the value-level location; what that location is (on which edge, at which corner) is
        stated by `HandlePoints.LocationOnOutline` and `HandlePoints.CornerHandleOppositePinned`. */
    function Location(): (p: Point)
      requires Valid() && Drawable(owner.Value())
      reads owner.Repr`frame, owner.Repr`p1, owner.Repr`p2
      ensures p == HandlePoints.Location(kind, owner.Value())
    {
      HandlePoints.Location(kind, owner.Value())
    }

    /** contains(x, y): hit test on the square around the location. */
    predicate Contains(x: int, y: int)
      requires Valid() && Drawable(owner.Value())
      reads owner.Repr`frame, owner.Repr`p1, owner.Repr`p2
    {
      HandleContains(Location(), x, y)
    }

    /** startInteraction: pin the corner opposite the handle. */
    method StartInteraction()
      requires Valid() && Drawable(owner.Value())
      modifies this`corner
      ensures corner == Some(StartCorner(kind, owner.Value()))
    {
      corner := Some(StartCorner(kind, owner.Value()));
    }

    /** dragInteraction(x, y): outside an interaction nothing happens; otherwise the owner
        gets the bounds spanned from the pinned corner to the mouse. */
    method DragInteraction(x: int, y: int) returns (sent: seq<Notice>)
      requires Valid() && Drawable(owner.Value())
      modifies owner`frame, owner`p1, owner`p2
      ensures old(corner).None? ==> owner.Value() == old(owner.Value()) && sent == []
      ensures old(corner).Some? ==>
        owner.Value() == Dragged(kind, old(owner.Value()), corner.value, x, y) &&
        sent == (if owner.kind == Group then [] else Broadcast(owner.listeners, owner))
    {
      if corner.None? {
        return [];
      }
      var b := owner.GetBounds();
      var pq := DragArgs(kind, corner.value, x, y, b.value);
      sent := owner.SetBounds(pq.0, pq.1);
    }

    /** stopInteraction: forget the pinned corner. */
    method StopInteraction()
      modifies this`corner
      ensures corner == None
    {
      corner := None;
    }
  }
}
