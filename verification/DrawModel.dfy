/** StdDrawModel: the ordered list of figures of a drawing (the last one is drawn in front),
    the model listeners, and the one figure listener the model registers on its figures. */
module DrawModel {
  import opened Seqs
  import opened Options
  import opened Figures

  /** A DrawModelListener, identified by a number. */
  datatype ModelListener = ModelListener(id: nat)

  /** DrawModelEvent.Type. */
  datatype EventType = FigureAdded | FigureRemoved | DrawingChanged | DrawingCleared

  /** One modelChanged call: the listener called, and the figure and type of the event it
      receives (the figure is null for DRAWING_CLEARED). */
  datatype ModelEvent = ModelEvent(listener: ModelListener, figure: Option<Figure>, kind: EventType)

  /** What a notification pass delivers: one event per listener entry, in list order. */
  function Deliveries(ls: seq<ModelListener>, f: Option<Figure>, t: EventType): (es: seq<ModelEvent>)
    ensures |es| == |ls|
    ensures forall i :: 0 <= i < |ls| ==> es[i] == ModelEvent(ls[i], f, t)
  {
    seq(|ls|, i requires 0 <= i < |ls| => ModelEvent(ls[i], f, t))
  }

  /** How often l is registered in a listener list. */
  function Registrations(ls: seq<FigureListener>, l: FigureListener): nat
  {
    multiset(ls)[l]
  }

  /** remove(Object) on a listener list takes away exactly one registration of l, if any,
      and no registration of anything else. */
  lemma RemoveOneRegistration(ls: seq<FigureListener>, l: FigureListener, other: FigureListener)
    requires other != l
    ensures Registrations(RemoveFirst(ls, l), l) == if l in ls then Registrations(ls, l) - 1 else 0
    ensures Registrations(RemoveFirst(ls, l), other) == Registrations(ls, other)
  {
    if l in ls {
      RemoveFirstMultiset(ls, l);
    } else {
      RemoveFirstAbsent(ls, l);
    }
  }

  /** The result of setFigureIndex: done with the events sent, or one of its two exceptions. */
  datatype Outcome =
    | Done(sent: seq<ModelEvent>)
    | IllegalArgument
    | IndexOutOfBounds

  class Model {
    /** StdDrawModel.figures. */
    var figures: seq<Figure>
    /** StdDrawModel.listeners. */
    var listeners: seq<ModelListener>
    /** StdDrawModel.figureListener: the listener the model puts on each of its figures. */
    const figureListener: FigureListener

    /** No figure is in the list twice. */
    predicate Valid()
      reads this`figures
    {
      Distinct(figures)
    }

    constructor (figureListener: FigureListener)
      ensures Valid() && figures == [] && listeners == [] && this.figureListener == figureListener
    {
      figures := [];
      listeners := [];
      this.figureListener := figureListener;
    }

    /** notifyAllListeners(f, type): one modelChanged call per entry of a copy of the list. */
    method NotifyAllListeners(f: Option<Figure>, t: EventType) returns (sent: seq<ModelEvent>)
      ensures sent == Deliveries(listeners, f, t)
    {
      var copy := listeners;
      sent := [];
      var i := 0;
      while i < |copy|
        invariant 0 <= i <= |copy| && |sent| == i
        invariant forall j :: 0 <= j < i ==> sent[j] == ModelEvent(copy[j], f, t)
      {
        sent := sent + [ModelEvent(copy[i], f, t)];
        i := i + 1;
      }
    }

    /** addFigure: a figure already in the model is ignored; otherwise it is appended, the
        model listens to it, and FIGURE_ADDED goes out. */
    method AddFigure(f: Figure) returns (sent: seq<ModelEvent>)
      requires Valid()
      modifies this`figures, f`listeners
      ensures Valid()
      ensures old(f in figures) ==>
        figures == old(figures) && f.listeners == old(f.listeners) && sent == []
      ensures old(f !in figures) ==>
        figures == old(figures) + [f] && f.listeners == old(f.listeners) + [figureListener] &&
        sent == Deliveries(listeners, Some(f), FigureAdded)
    {
      if f in figures {
        return [];
      }
      figures := figures + [f];
      f.AddFigureListener(figureListener);
      sent := NotifyAllListeners(Some(f), FigureAdded);
    }

    /** removeFigure: an absent figure is ignored; otherwise one registration of the model's
        listener is taken off it, it leaves the list, and FIGURE_REMOVED goes out. */
    method RemoveFigure(f: Figure) returns (sent: seq<ModelEvent>)
      requires Valid()
      modifies this`figures, f`listeners
      ensures Valid()
      ensures old(f !in figures) ==>
        figures == old(figures) && f.listeners == old(f.listeners) && sent == []
      ensures old(f in figures) ==>
        figures == Without(old(figures), {f}) &&
        f.listeners == RemoveFirst(old(f.listeners), figureListener) &&
        sent == Deliveries(listeners, Some(f), FigureRemoved)
    {
      if f !in figures {
        return [];
      }
      f.RemoveFigureListener(figureListener);
      RemoveFirstIsWithout(figures, f);
      WithoutDistinct(figures, {f});
      figures := RemoveFirst(figures, f);
      sent := NotifyAllListeners(Some(f), FigureRemoved);
    }

    /** setFigureIndex(f, index): f must be in the model and index at most size - 1; then f
        is taken out and put back at index, the model's listener is registered on f once
        more, and DRAWING_CHANGED goes out. */
    method SetFigureIndex(f: Figure, index: int) returns (r: Outcome)
      requires Valid() && index >= 0
      modifies this`figures, f`listeners
      ensures Valid()
      ensures r == IllegalArgument <==> old(f !in figures)
      ensures r == IndexOutOfBounds <==> old(f in figures) && index > old(|figures|) - 1
      ensures !r.Done? ==> figures == old(figures) && f.listeners == old(f.listeners)
      ensures r.Done? ==>
        old(f in figures) && index < old(|figures|) &&
        figures == MoveTo(old(figures), f, index) &&
        f.listeners == old(f.listeners) + [figureListener] &&
        r.sent == Deliveries(listeners, Some(f), DrawingChanged)
      ensures r.Done? ==>
        figures[index] == f && multiset(figures) == multiset(old(figures)) &&
        Without(figures, {f}) == Without(old(figures), {f})
    {
      if f !in figures {
        return IllegalArgument;
      }
      if index > |figures| - 1 {
        return IndexOutOfBounds;
      }
      MoveToKeepsOthers(figures, f, index);
      MoveToPermutes(figures, f, index);
      figures := Insert(RemoveFirst(figures, f), index, f);
      f.AddFigureListener(figureListener);
      var sent := NotifyAllListeners(Some(f), DrawingChanged);
      r := Done(sent);
    }

    /** removeAllFigures: the model's listener is taken off each figure, the list is
        emptied, and one DRAWING_CLEARED with no figure goes out. */
    method RemoveAllFigures() returns (sent: seq<ModelEvent>)
      requires Valid()
      modifies this`figures, (set f | f in figures)`listeners
      ensures Valid() && figures == []
      ensures forall f :: f in old(figures) ==>
        f.listeners == RemoveFirst(old(f.listeners), figureListener)
      ensures sent == Deliveries(listeners, None, DrawingCleared)
    {
      var figs := figures;
      var i := 0;
      while i < |figs|
        invariant 0 <= i <= |figs|
        invariant forall j :: 0 <= j < i ==>
          figs[j].listeners == RemoveFirst(old(figs[j].listeners), figureListener)
        invariant forall j :: i <= j < |figs| ==> figs[j].listeners == old(figs[j].listeners)
      {
        figs[i].RemoveFigureListener(figureListener);
        i := i + 1;
      }
      figures := [];
      sent := NotifyAllListeners(None, DrawingCleared);
    }

    /** addModelChangeListener: appends, duplicates included. */
    method AddModelChangeListener(l: ModelListener)
      modifies this`listeners
      ensures listeners == old(listeners) + [l]
    {
      listeners := listeners + [l];
    }

    /** removeModelChangeListener: drops the first registration of l, if any. */
    method RemoveModelChangeListener(l: ModelListener)
      modifies this`listeners
      ensures listeners == RemoveFirst(old(listeners), l)
    {
      listeners := RemoveFirst(listeners, l);
    }

    /** The model's figure listener: a change of a figure becomes DRAWING_CHANGED for it. */
    method FigureChanged(n: Notice) returns (sent: seq<ModelEvent>)
      ensures sent == Deliveries(listeners, Some(n.source), DrawingChanged)
    {
      sent := NotifyAllListeners(Some(n.source), DrawingChanged);
    }
  }

  /** Because setFigureIndex registers the model's listener again each time, a figure that
      was added and then reordered k times still carries k registrations after it has been
      removed from the model. */
  method ReorderThenRemove(m: Model, f: Figure, k: nat)
    requires m.Valid() && f !in m.figures && f.listeners == []
    modifies m`figures, f`listeners
    ensures m.Valid() && f !in m.figures
    ensures Registrations(f.listeners, m.figureListener) == k
  {
    var sent := m.AddFigure(f);
    var i := 0;
    while i < k
      invariant 0 <= i <= k
      invariant m.Valid() && f in m.figures
      invariant Registrations(f.listeners, m.figureListener) == i + 1
    {
      ghost var figs, ls := m.figures, f.listeners;
      var r := m.SetFigureIndex(f, 0);
      assert r.Done?;
      MoveToPermutes(figs, f, 0);
      assert multiset(f.listeners) == multiset(ls) + multiset{m.figureListener};
      i := i + 1;
    }
    ghost var figs, ls := m.figures, f.listeners;
    sent := m.RemoveFigure(f);
    WithoutMembers(figs, {f});
    assert m.figureListener in multiset(ls);
    RemoveFirstMultiset(ls, m.figureListener);
  }
}
