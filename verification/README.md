# jdraw figure, handle and model core in Dafny

This project models the core of jdraw, a small Java 2D drawing editor, and proves
properties of the model. The core covers:

- the drawing model (`StdDrawModel`): an ordered, duplicate-free list of figures, where the
  last figure is drawn in front, plus the model listeners and the one figure listener the
  model puts on each of its figures;
- the figures `Rect`, `Ellipse`, `Line` and `Group`, with their listener lists
  (`AbstractFigure`), geometry, `move`, `setBounds`, `getBounds`, `contains`, `clone` and
  `getHandles`;
- the handles (`AbstractHandle`, the six cardinal-direction handles, and the two line-end
  handles): their locations, hit test, and the start / drag / stop interaction;
- the point constrainers `SimpleGrid`, `Grid30` and `SnapGrid`;
- the z-order commands `bringToFront` / `sendToBack` and the cut, copy, paste, clear,
  group and ungroup edits of `StdContext`.

Layout, one module per file:

| file | module | what it holds |
|---|---|---|
| `Options.dfy` | `Options` | `Option`, standing for a Java reference that may be null |
| `Geometry.dfy` | `Geometry` | `Point`, `Rectangle`, and Java's truncating `/` and `%` written out; `java.awt.Rectangle` `setFrameFromDiagonal`, `contains` and `add` |
| `Seqs.dfy` | `Seqs` | the `java.util.List` operations the core uses (`remove(Object)`, `add(index, x)`, filters) and their laws |
| `Shapes.dfy` | `Shapes` | `FigValue`: the geometry of a figure tree as a value, with bounds, move, setBounds, contains and clonability |
| `HandlePoints.dfy` | `HandlePoints` | handle kinds, locations, pinned corners and drag arguments as functions of the owner's value |
| `Figures.dfy` | `Figures` | the `Figure` class (the four figure classes; their kind is a constant) and the `Handle` class |
| `DrawModel.dfy` | `DrawModel` | the `Model` class and its events |
| `Grids.dfy` | `Grids` | the three point constrainers; `SnapGrid` is a class |
| `Context.dfy` | `Context` | the reordering commands, and the `Context` class with the clipboard and the paste counter |

Figures are objects. A figure's geometry lives in fields that its methods update in place.
Each figure's `Value()` reads that geometry as a `FigValue` tree, and the geometry
operations are proved against pure functions on `FigValue`. Listener calls are not run:
every method that notifies returns the sequence of calls it makes, in order. Java `int`
is modelled as unbounded `int`. Java's `/` and `%`, which truncate toward zero, are
written out as `JavaDiv` and `JavaRem`.

## Model

| member | source | states |
|---|---|---|
| `Geometry.JavaDiv` | src/main/java/jdraw/figures/handles/cardinalDirection/NorthHandle.java:19 | Java's `/` on `int` for a positive divisor: the quotient truncates toward zero on both sides of zero |
| `Geometry.JavaRem` | src/main/java/jdraw/grid/Grid30.java:14-15 | Java's `%`: `a == (a / b) * b + a % b`, with the remainder taking the sign of `a` and smaller than `b` in magnitude |
| `Geometry.FromDiagonal` | src/main/java/jdraw/figures/Rect.java:77-80 | `setFrameFromDiagonal`: the frame has non-negative size, and each point supplies one of the two x edges and one of the two y edges |
| `Geometry.FromDiagonalSymmetric` | src/main/java/jdraw/figures/Rect.java:78 | the frame from a diagonal does not depend on the order of its two points |
| `Geometry.ContainsHalfOpen` | src/main/java/jdraw/figures/Rect.java:93-95 | `Rectangle.contains`: `x <= px < x + width` and `y <= py < y + height` |
| `Geometry.Union` | src/main/java/jdraw/figures/Group.java:56-61 | the union of two rectangles of non-negative size covers both, and lies inside every rectangle that covers both |
| `Geometry.Add` | src/main/java/jdraw/figures/Group.java:58 | `Rectangle.add` as `java.awt.Rectangle` implements it: a negative-size argument leaves the receiver, or the argument when the receiver has a negative size too; two non-negative rectangles give their union; a negative-size receiver and a non-negative argument give the argument's corner with, on each axis, the longer of the two sizes |
| `Geometry.AddKeepsLongerSideOfNegativeReceiver` | src/main/java/jdraw/figures/Group.java:57-58 | (0,0,-1,100) add (5,5,10,10) is (5,5,10,100): a receiver with one negative side keeps its other side when that side is longer |
| `Geometry.UnionIdempotent` | src/main/java/jdraw/figures/Group.java:57-58 | adding a rectangle to itself changes nothing, so the first part being added twice is harmless |
| `Geometry.CoversContains` | src/main/java/jdraw/figures/Group.java:46-48 | a point inside a covered rectangle is inside the covering one |
| `Shapes.EllipseBounds` | src/main/java/jdraw/figures/Ellipse.java:84-87 | an ellipse's bounds never have negative size, and equal its frame when the frame's size is non-negative |
| `Shapes.FoldAddLeastCover` | src/main/java/jdraw/figures/Group.java:57-60 | folding `Rectangle.add` over part bounds gives the least rectangle covering the start and every part |
| `Shapes.GroupBoundsLeastCover` | src/main/java/jdraw/figures/Group.java:56-61 | a group's bounds cover every part's bounds and lie inside any rectangle that covers them all |
| `Shapes.MoveInverse` | src/main/java/jdraw/figures/Rect.java:82-90 | moving by `(dx, dy)` and then by `(-dx, -dy)` restores every kind of figure, groups included |
| `Shapes.MoveZero` | src/main/java/jdraw/figures/Rect.java:84-86 | a zero move leaves any figure value unchanged |
| `Shapes.MoveBounds` | src/main/java/jdraw/figures/Group.java:41-43 | for a figure with no ellipse of negative frame anywhere in it, moving the figure translates its bounds by the same offset, for groups as well (an ellipse of negative frame has the empty bounds at the origin wherever it is) |
| `Shapes.SetBoundsOrderIndependent` | src/main/java/jdraw/figures/Line.java:62-76 | the bounds after `setBounds(a, b)` equal those after `setBounds(b, a)`; for rectangles and ellipses they are the normalised frame of the diagonal |
| `Shapes.LineContainsStart` | src/main/java/jdraw/figures/Line.java:47-51 | the start point hits exactly when the line is vertical, so the start point of every other line is missed |
| `Shapes.LineContainsEnd` | src/main/java/jdraw/figures/Line.java:47-59 | the end point hits exactly when the line is vertical or horizontal |
| `Shapes.LineHitsOnlyMidpoint` | src/main/java/jdraw/figures/Line.java:47-59 | for a point strictly between the endpoints on the line and on neither axis through the start, the test hits exactly when the point is the midpoint |
| `Shapes.LineContainsIsNotSegmentTest` | src/main/java/jdraw/figures/Line.java:47-59 | on (0,0)-(3,3), `Line.contains` rejects (1,1) and both endpoints; on (0,0)-(2,2) it accepts (1,1) |
| `Shapes.GroupContainsParts` | src/main/java/jdraw/figures/Group.java:46-48 | a group contains every point inside the bounds of any of its parts |
| `HandlePoints.HandleKinds` | src/main/java/jdraw/figures/Rect.java:108-121 | a line has exactly the start and end handles; an ellipse has N, E, S, W; a rectangle or group has eight cardinal handles |
| `HandlePoints.HandleKindsFit` | src/main/java/jdraw/figures/Line.java:84-91 | every handle a figure offers fits it: line handles belong to lines only |
| `HandlePoints.HandleLocations` | src/main/java/jdraw/grid/SnapGrid.java:86-88 | one location per handle, in `getHandles` order |
| `HandlePoints.LocationOnOutline` | src/main/java/jdraw/figures/handles/cardinalDirection/NorthHandle.java:16-20 | per kind: the north handles are on the top edge, the south ones on the bottom edge, the west ones on the left edge and the east ones on the right edge; North and South are within one pixel of the middle of their edge and West of the middle of its edge; the line handles are on the endpoints |
| `HandlePoints.CornerHandleOppositePinned` | src/main/java/jdraw/figures/handles/cardinalDirection/NorthWestHandle.java:15-30 | for bounds of non-negative size, a corner handle and the corner it pins are opposite corners: the frame they span is the bounds |
| `HandlePoints.HandleContainsSquare` | src/main/java/jdraw/figures/handles/AbstractHandle.java:57-75 | a handle is hit exactly when `loc.x - 3 <= x < loc.x + 3` and `loc.y - 3 <= y < loc.y + 3` |
| `HandlePoints.CornerDragSpansPinnedCorner` | src/main/java/jdraw/figures/handles/cardinalDirection/NorthEastHandle.java:33-41 | dragging a corner handle of a rectangle or ellipse gives the frame spanned by the pinned corner and the mouse |
| `HandlePoints.NorthWestKeepsBottomRight` | src/main/java/jdraw/figures/handles/cardinalDirection/NorthWestHandle.java:33-41 | dragging the top-left handle up and left keeps the pinned corner as the bottom-right corner |
| `HandlePoints.StartCornerIsOppositeCorner` | src/main/java/jdraw/figures/handles/cardinalDirection/NorthHandle.java:23-30 | the N and W handles pin the bottom-right corner, and the S handle pins the top-left corner |
| `HandlePoints.NorthKeepsWidth` | src/main/java/jdraw/figures/handles/cardinalDirection/NorthHandle.java:33-45 | a North drag keeps x and the width, and the height becomes `Abs(corner.y - y)`; the invariant holds for the next step |
| `HandlePoints.SouthKeepsWidth` | src/main/java/jdraw/figures/handles/cardinalDirection/SouthHandle.java:32-44 | a South drag keeps x and the width, and the height becomes `Abs(y - corner.y)` |
| `HandlePoints.WestKeepsHeight` | src/main/java/jdraw/figures/handles/cardinalDirection/WestHandle.java:34-46 | a West drag keeps y and the height, and the width becomes `Abs(corner.x - x)` |
| `HandlePoints.LineHandlesKeepOtherEnd` | src/main/java/jdraw/figures/handles/line/LineStartHandle.java:22-37 | dragging one end of a line moves that end to the mouse and leaves the other end where it was |
| `HandlePoints.GroupIgnoresDrag` | src/main/java/jdraw/figures/Group.java:50-53 | dragging any handle of a group leaves it unchanged |
| `Figures.Broadcast` | src/main/java/jdraw/figures/AbstractFigure.java:29-34 | one notice per listener entry, in list order, each with this figure as its source |
| `Figures.Figure.NewRect` | src/main/java/jdraw/figures/Rect.java:45-47 | a new rectangle has exactly the bounds `(x, y, w, h)` and no listeners |
| `Figures.Figure.CopyRect` | src/main/java/jdraw/figures/Rect.java:53-62 | the copy constructor gives a new rectangle with the same bounds and no listeners |
| `Figures.Figure.NewEllipse` | src/main/java/jdraw/figures/Ellipse.java:41-43 | `x, y` become the frame's top-left corner, and `w, h` its size |
| `Figures.Figure.NewLine` | src/main/java/jdraw/figures/Line.java:19-21 | P1 is `(x1, y1)` and P2 is `(x2, y2)`, as given |
| `Figures.Figure.NewGroup` | src/main/java/jdraw/figures/Group.java:31-33 | the group's parts are the given figures in order, and its value is the group of their values |
| `Figures.Figure.AddFigureListener` | src/main/java/jdraw/figures/AbstractFigure.java:17-19 | the listener is appended, even when it is already registered |
| `Figures.Figure.RemoveFigureListener` | src/main/java/jdraw/figures/AbstractFigure.java:22-24 | only the first registration of the listener is dropped |
| `Figures.Figure.NotifyAllListeners` | src/main/java/jdraw/figures/AbstractFigure.java:29-34 | each listener of the snapshot is called once, in order |
| `Figures.Figure.Move` | src/main/java/jdraw/figures/Group.java:41-43 | the new value is the old one moved by `(dx, dy)`; the notices are those of each kind's own move, with a group moving its parts in order and sending none itself |
| `Figures.Figure.MoveFrame` | src/main/java/jdraw/figures/Ellipse.java:63-77 | a zero move of a rectangle or ellipse changes nothing and notifies no one; any other move translates the frame and notifies once |
| `Figures.Figure.MoveLine` | src/main/java/jdraw/figures/Line.java:34-44 | both endpoints move, and the listeners are notified even for `(0, 0)` |
| `Figures.Figure.MoveParts` | src/main/java/jdraw/figures/Group.java:41-43 | each part moves in order; the group's own listeners are not notified |
| `Figures.Figure.SetBounds` | src/main/java/jdraw/figures/Line.java:61-71 | the new value is `setBounds` on the old one, and every kind but a group notifies once |
| `Figures.Figure.GetBounds` | src/main/java/jdraw/figures/Rect.java:97-100 | there are bounds (no exception) exactly when every group in the figure has parts, and then they are the bounds of its value |
| `Figures.Figure.GroupBounds` | src/main/java/jdraw/figures/Group.java:55-61 | a group with no parts, or with a part that throws, throws (`None`); otherwise the loop that adds up the part bounds yields the group's bounds |
| `Figures.Figure.Clone` | src/main/java/jdraw/figures/AbstractFigure.java:36-39 | there is a copy exactly when the value is clonable (rectangles and groups of clonable parts); a copy is a new object tree with the same kind and value and no listeners |
| `Figures.Figure.CloneGroup` | src/main/java/jdraw/figures/Group.java:84-91 | a group's clone is a new group of clones of its parts, in order |
| `Figures.Figure.CloneParts` | src/main/java/jdraw/figures/Group.java:86-88 | one clone per part, each a new, separate object tree with the part's value |
| `Figures.Figure.ClonableParts` | src/main/java/jdraw/figures/Group.java:88 | a group is clonable exactly when each of its parts is |
| `Figures.Figure.GetHandles` | src/main/java/jdraw/figures/Rect.java:107-121 | one new handle per kind of `HandleKinds`, in order, owned by this figure and idle |
| `Figures.Handle.constructor` | src/main/java/jdraw/figures/handles/AbstractHandle.java:29-38 | a handle keeps its owner and starts with no pinned corner |
| `Figures.Handle.Location` | src/main/java/jdraw/figures/handles/cardinalDirection/NorthWestHandle.java:15-20 | the location is the value-level handle location of the owner's current value; its place on the outline is stated by `HandlePoints.LocationOnOutline` and `HandlePoints.CornerHandleOppositePinned` |
| `Figures.Handle.StartInteraction` | src/main/java/jdraw/figures/handles/cardinalDirection/NorthWestHandle.java:22-30 | the pinned corner becomes the start corner of the owner's current value |
| `Figures.Handle.DragInteraction` | src/main/java/jdraw/figures/handles/cardinalDirection/NorthWestHandle.java:32-42 | with no pinned corner, nothing changes; otherwise the owner gets `setBounds` with the drag arguments |
| `Figures.Handle.StopInteraction` | src/main/java/jdraw/figures/handles/AbstractHandle.java:103-106 | the pinned corner is cleared |
| `DrawModel.Deliveries` | src/main/java/jdraw/std/StdDrawModel.java:126-135 | one event per listener of the snapshot, in registration order |
| `DrawModel.RemoveOneRegistration` | src/main/java/jdraw/std/StdDrawModel.java:67 | removing a listener takes away one registration of it, and none of any other listener |
| `DrawModel.Model.constructor` | src/main/java/jdraw/std/StdDrawModel.java:32-42 | a new model has no figures and no listeners |
| `DrawModel.Model.NotifyAllListeners` | src/main/java/jdraw/std/StdDrawModel.java:126-135 | the events sent are the deliveries to the listeners, in order |
| `DrawModel.Model.AddFigure` | src/main/java/jdraw/std/StdDrawModel.java:44-54 | a figure already present is ignored with no event; otherwise it is appended, the model listens to it, and FIGURE_ADDED goes to every listener; no duplicates ever |
| `DrawModel.Model.RemoveFigure` | src/main/java/jdraw/std/StdDrawModel.java:61-71 | an absent figure is ignored; otherwise one registration is dropped, the figure leaves, the others keep their order, and FIGURE_REMOVED goes out |
| `DrawModel.Model.SetFigureIndex` | src/main/java/jdraw/std/StdDrawModel.java:96-111 | an absent figure gives IllegalArgument and an index beyond the end gives IndexOutOfBounds, both with no change; otherwise the list is a permutation with `f` at `index` and the others in order, `f` gets one more registration, and DRAWING_CHANGED goes out |
| `DrawModel.Model.RemoveAllFigures` | src/main/java/jdraw/std/StdDrawModel.java:113-119 | each figure loses one registration, the list is emptied, and one DRAWING_CLEARED with no figure goes out |
| `DrawModel.Model.AddModelChangeListener` | src/main/java/jdraw/std/StdDrawModel.java:73-76 | the listener is appended |
| `DrawModel.Model.RemoveModelChangeListener` | src/main/java/jdraw/std/StdDrawModel.java:78-81 | the first registration of the listener is dropped |
| `DrawModel.Model.FigureChanged` | src/main/java/jdraw/std/StdDrawModel.java:42 | a figure change becomes DRAWING_CHANGED for that figure |
| `DrawModel.ReorderThenRemove` | src/main/java/jdraw/std/StdDrawModel.java:106-108 | after k reorders and a removal, a figure still carries k registrations of the model's listener |
| `Grids.SimpleConstrain` | src/main/java/jdraw/grid/SimpleGrid.java:8-11 | the point is returned unchanged |
| `Grids.SimpleStepX` | src/main/java/jdraw/grid/SimpleGrid.java:13-16 | the step is 1 in both directions |
| `Grids.SimpleStepY` | src/main/java/jdraw/grid/SimpleGrid.java:18-21 | the step is 1 in both directions |
| `Grids.Grid30Coord` | src/main/java/jdraw/grid/Grid30.java:14-15 | `a - a % 30` is a multiple of 30 between 0 and `a`, less than 30 from `a` |
| `Grids.Grid30Constrain` | src/main/java/jdraw/grid/Grid30.java:11-17 | both coordinates land on multiples of 30, each moved less than 30 toward zero |
| `Grids.Grid30StepX` | src/main/java/jdraw/grid/Grid30.java:19-22 | the step is 30 in both directions |
| `Grids.Grid30StepY` | src/main/java/jdraw/grid/Grid30.java:24-27 | the step is 30 in both directions |
| `Grids.Grid30CoordUnique` | src/main/java/jdraw/grid/Grid30.java:14 | the constrained coordinate is the only multiple of 30 that lies between 0 and `a` and less than 30 from `a` |
| `Grids.Grid30Idempotent` | src/main/java/jdraw/grid/Grid30.java:12-17 | constraining a constrained point returns it unchanged |
| `Grids.Grid30RoundsTowardZero` | src/main/java/jdraw/grid/Grid30.java:14-15 | -1 goes to 0 and -31 to -30, where a Euclidean remainder would give -30 and -60 |
| `Grids.Grid30NegativeIsFloorPlusStep` | src/main/java/jdraw/grid/Grid30.java:14-15 | a negative coordinate off the grid lands one step above the multiple of 30 below it |
| `Grids.FirstWithin` | src/main/java/jdraw/grid/SnapGrid.java:92-98 | the result is a point of the list within the radius, or none when no point is within it |
| `Grids.FirstWithinAt` | src/main/java/jdraw/grid/SnapGrid.java:92-96 | the result is the earliest point within the radius |
| `Grids.FirstNotNearest` | src/main/java/jdraw/grid/SnapGrid.java:92-96 | a farther point that comes first wins over a nearer one that comes later |
| `Grids.CandidatesMembers` | src/main/java/jdraw/grid/SnapGrid.java:84-90 | the candidates are exactly the handle locations of figures that are neither selected nor the current figure |
| `Grids.NoEligibleNoCandidates` | src/main/java/jdraw/grid/SnapGrid.java:84-98 | with every figure selected or current, there is nothing to snap to |
| `Grids.AppendLocations` | src/main/java/jdraw/grid/SnapGrid.java:86-88 | the inner loop appends the figure's handle locations in `getHandles` order |
| `Grids.ClearedLeavesNoCurrentFigure` | src/main/java/jdraw/std/StdDrawModel.java:118 | after remove-all, a registered grid has no current figure |
| `Grids.SnapGrid.constructor` | src/main/java/jdraw/grid/SnapGrid.java:29-33 | the grid starts with no current figure and registers its listener with the model |
| `Grids.SnapGrid.ModelChanged` | src/main/java/jdraw/grid/SnapGrid.java:32 | the event's figure becomes the current figure, null included |
| `Grids.SnapGrid.Receive` | src/main/java/jdraw/grid/SnapGrid.java:32 | after a notification pass, the current figure is that of the last event for the grid's listener |
| `Grids.SnapGrid.CollectPoints` | src/main/java/jdraw/grid/SnapGrid.java:82-90 | the collected points are the candidates, in model order and `getHandles` order |
| `Grids.SnapGrid.GetSnappedPoint` | src/main/java/jdraw/grid/SnapGrid.java:81-99 | the result is the first candidate within the radius, or none |
| `Grids.SnapGrid.ConstrainPoint` | src/main/java/jdraw/grid/SnapGrid.java:35-44 | either `p` itself with no candidate within the radius, or the first candidate within it |
| `Grids.SnapGrid.StepX` | src/main/java/jdraw/grid/SnapGrid.java:46-49 | no stepping |
| `Grids.SnapGrid.StepY` | src/main/java/jdraw/grid/SnapGrid.java:51-54 | no stepping |
| `Seqs.RemoveFirstMultiset` | src/main/java/jdraw/figures/AbstractFigure.java:23 | `remove(Object)` takes away one copy of the element and nothing else |
| `Seqs.RemoveFirstAt` | src/main/java/jdraw/std/StdDrawModel.java:68 | `remove(Object)` keeps everything before and after the first occurrence, in order |
| `Seqs.MoveToPermutes` | src/main/java/jdraw/std/StdDrawModel.java:106-107 | remove-then-insert yields a permutation with the element at the index |
| `Seqs.MoveToKeepsOthers` | src/main/java/jdraw/std/StdDrawModel.java:106-107 | remove-then-insert keeps the other elements in their order |
| `Seqs.AppendEach` | src/main/java/jdraw/std/StdContext.java:174-177 | adding each part with `addFigure` extends the list, contains every part and nothing else, and never duplicates |
| `Seqs.AppendEachFresh` | src/main/java/jdraw/std/StdContext.java:174-177 | parts not yet in the list are appended in order |
| `Seqs.WithoutKeepPermutes` | src/main/java/jdraw/std/StdContext.java:259-294 | splitting the figures into the unselected and the selected ones loses none and duplicates none |
| `Seqs.SplitStable` | src/main/java/jdraw/std/StdContext.java:259-294 | splitting an already split list the same way gives the same two parts |
| `Context.FrontOrder` | src/main/java/jdraw/std/StdContext.java:259-268 | the first loop of `bringToFront` collects the selected model figures in reverse model order, and counts the figures |
| `Context.BackOrder` | src/main/java/jdraw/std/StdContext.java:281-289 | the first loop of `sendToBack` collects the selected model figures in model order |
| `Context.BringToFront` | src/main/java/jdraw/std/StdContext.java:259-273 | the selected model figures fill the last slots in their old order, and the rest keep theirs in front of them; one `setFigureIndex` per selected figure, at indices n-1, n-2, …, all in range; each such figure gains one registration |
| `Context.SendToBack` | src/main/java/jdraw/std/StdContext.java:281-294 | the selected model figures fill the first slots in their old order, and the rest follow in theirs; `setFigureIndex` at indices 0, 1, …, all in range; each such figure gains one registration |
| `Context.ReorderPermutes` | src/main/java/jdraw/std/StdContext.java:264-268 | both reorderings keep exactly the same figures |
| `Context.BringToFrontIdempotent` | src/main/java/jdraw/std/StdContext.java:259-273 | bringing the same selection to the front twice is the same as once |
| `Context.SendToBackIdempotent` | src/main/java/jdraw/std/StdContext.java:281-294 | sending the same selection to the back twice is the same as once |
| `Context.Context.constructor` | src/main/java/jdraw/std/StdContext.java:46-47 | a new context has no clipboard and a paste counter of 0 |
| `Context.Context.Copy` | src/main/java/jdraw/std/StdContext.java:124-128 | the clipboard holds the selected figures themselves, and the paste counter is 0 |
| `Context.Context.Clear` | src/main/java/jdraw/std/StdContext.java:152-154 | the model is emptied as by remove-all |
| `Context.Context.Cut` | src/main/java/jdraw/std/StdContext.java:112-119 | the selected figures leave the model, the others keep their order; the clipboard holds one entry per selected figure, a copy with its value exactly when it is clonable; the counter is 0 |
| `Context.Context.Paste` | src/main/java/jdraw/std/StdContext.java:133-146 | with no clipboard, nothing changes; otherwise the counter goes up by one, and clones of the entries, moved by `(5k, 5k)` for the k-th paste, are appended in order; a null entry or an unclonable figure stops the loop |
| `Context.Context.GroupNothing` | src/main/java/jdraw/std/StdContext.java:158-161 | grouping an empty selection appends a group without parts, on which `getBounds` throws |
| `Context.Context.GroupSelection` | src/main/java/jdraw/std/StdContext.java:158-165 | a new group of the selected figures, holding their values, is appended with the model's listener on it; the selected figures leave the model and keep their geometry |
| `Context.Context.Ungroup` | src/main/java/jdraw/std/StdContext.java:169-182 | the model becomes `Ungrouped` of the selection: each group's parts are appended (unless present) and the group is removed; the selected parts are those of each group, in order |
| `Context.GroupParts` | src/main/java/jdraw/std/StdContext.java:174-177 | every part of every selected group is selected, and nothing else is |
| `Context.UngroupedDistinct` | src/main/java/jdraw/std/StdContext.java:169-182 | ungrouping never puts a figure into the model twice |
| `Context.UngroupOneMembers` | src/main/java/jdraw/std/StdContext.java:172-180 | after ungrouping a group, the model holds the old figures and the parts, minus the group |
| `Context.UngroupedSkipsNonGroups` | src/main/java/jdraw/std/StdContext.java:173 | a selection without groups leaves the model unchanged and selects nothing |
| `Context.GroupThenUngroup` | src/main/java/jdraw/std/StdContext.java:158-182 | ungrouping the group just made leaves the unselected figures followed by the selected ones, in selection order |
| `Context.GroupThenUngroupPermutes` | src/main/java/jdraw/std/StdContext.java:158-182 | grouping figures of the model and ungrouping again keeps exactly the same figures |
| `Context.GroupThenUngroupBringsToFront` | src/main/java/jdraw/std/StdContext.java:158-182 | for a selection listed in model order, group-then-ungroup is the same as bring-to-front |

## Left out

- Drawing, cursors, Swing menus and accelerators, tool registration, file save and open,
  and undo/redo are not modelled: they are rendering, user interface and I/O.
- `AbstractDrawTool` and the empty `AbstractCardinalDirectionHandle` are not modelled: they hold no logic to verify.
- `Ellipse.contains` is not modelled: it is a floating-point interior test inside `Ellipse2D`.
- Floating-point storage in `Ellipse2D.Float` and `Line2D.Float` is not modelled: coordinates are exact integers.
- The double-precision `Point.distance` in `SnapGrid` is replaced by the integer test `dx*dx + dy*dy <= 225`.
- Java `int` overflow is not modelled: integers are unbounded.
- The console output of the grids' `activate` and `deactivate` is left out.
- `EastHandle` and `SouthWestHandle` are only kinds in handle lists. Their classes are not part of this model. Where `SnapGrid` needs their location, it is a parameter.
- The view is not part of this model. Its selection is passed to the commands as a list of figures, taken to be free of duplicates (`Cut` and its helpers require `Distinct(selection)`), and the figures a command adds to it are returned.
- `Context.Context.GroupSelection`: in the source, the new group's part list is the view's selection list itself. What the view does with that list when figures are removed is not part of this model, so the parts are taken as the selection at the call.
- `Context.Context.Cut` does not state that the clones are new objects; it states their values and that each entry is a copy.
- `Context.Context.Ungroup` does not state how the listener registrations of the parts and groups change.
- `Context.Context.Paste` does not state that the pasted figures are new objects; it states their values and their place in the model.
- `Figures.Figure.Clone` returns `None` for a group with an unclonable part, where the source returns a group holding null parts.
- `Figures.Figure.CloneGroup` gives no group in that case either, for the same reason.
- `Figures.Figure.CloneParts` puts the part itself in the list where the source puts the null clone of an unclonable part. It states nothing about the list once some part is unclonable.
- `DrawModel.Model.SetFigureIndex` requires `index >= 0`. A negative index removes the figure before `add` throws, and that path is not modelled.
- `Context.Context.GroupSelection` requires the selected figures to be separate object trees. The source does not check this; an overlapping selection would give the group a part twice.
- `getBounds` throws on a group without parts, and so on any group containing one. The group command creates such a group from an empty selection, as `Context.Context.GroupNothing` shows. `Figures.Figure.GetBounds` and `Figures.Figure.GroupBounds` model the throw as `None`. The members on the lines below instead require `Shapes.Drawable`: every group in the figure has parts. So the throw is not modelled for them.
- `Shapes.Bounds` and `Shapes.Contains` (`Group.contains`) require a drawable figure.
- `HandlePoints.Location`, `HandlePoints.StartCorner`, `HandlePoints.Dragged` and `HandlePoints.AnyLocation` require a drawable owner.
- `HandlePoints.HandleLocations` requires a drawable figure, so the throw of `getLocation` on a handle of a group without parts, which `getSnappedPoint` would meet, is not modelled.
- `Figures.Handle.Location` and `Figures.Handle.Contains` require a drawable owner, so the throw of `getLocation` on a handle of a group without parts is not modelled.
- `Figures.Handle.StartInteraction` requires a drawable owner, so the throw of `getBounds` on a handle of a group without parts is not modelled.
- `Figures.Handle.DragInteraction` requires a drawable owner, so the throw of `getBounds` is not modelled, nor the ignored drag of an idle handle of an empty group.
- `Grids.Candidates` and `Grids.SnapGrid.CollectPoints` require every figure of the model to be drawable, skipped figures included.
- `Grids.AppendLocations` requires a drawable figure, so the throw of `getLocation` on a handle of a group without parts is not modelled.
- `Grids.SnapGrid.GetSnappedPoint` requires every figure of the model to be drawable, so the throw on a group without parts is not modelled.
- `Grids.SnapGrid.ConstrainPoint` requires every figure of the model to be drawable, so the throw on a group without parts is not modelled.
- `Geometry.Add` does not clamp a width or height above `Integer.MAX_VALUE`, as `java.awt.Rectangle.add` does, since overflow is not modelled.
- The notifications a command's model calls send are discarded by the `Context` methods. `DrawModel` states them per call.
