/** StdContext: the edit commands of the editor's menu as changes of the drawing model,
    and the reordering of the selected figures. The view is represented by its selection,
    a list of figures passed in; the figures a command adds to the view's selection are
    returned, in call order. */
module Context {
  import Geometry
  import opened Seqs
  import opened Options
  import opened Shapes
  import opened Figures
  import opened DrawModel

  // ---------------------------------------------------------------- ordering

  /** Filtering the model list by the figures kept from it is filtering by the selection. */
  lemma WithoutKept(figs: seq<Figure>, selection: seq<Figure>)
    ensures Without(figs, Elements(Keep(figs, selection))) == Without(figs, Elements(selection))
  {
    KeepMembers(figs, selection);
    WithoutSameOn(figs, Elements(Keep(figs, selection)), Elements(selection));
  }

  /** The first loop of bringToFront: the selected figures of the model, each put at the
      front of the list as it is met, so in reverse model order, and the number of figures. */
  method FrontOrder(figs: seq<Figure>, selection: seq<Figure>) returns (ordered: seq<Figure>, pos: int)
    ensures ordered == Reverse(Keep(figs, selection))
    ensures pos == |figs|
  {
    ordered := [];
    pos := 0;
    var i := 0;
    while i < |figs|
      invariant 0 <= i <= |figs| && pos == i
      invariant ordered == Reverse(Keep(figs[..i], selection))
    {
      pos := pos + 1;
      ReverseKeepPrefixStep(figs, i, selection);
      if figs[i] in selection {
        ordered := [figs[i]] + ordered;
      }
      i := i + 1;
    }
    assert figs[..i] == figs;
  }

  /** The first loop of sendToBack: the selected figures of the model in model order. */
  method BackOrder(figs: seq<Figure>, selection: seq<Figure>) returns (ordered: seq<Figure>)
    ensures ordered == Keep(figs, selection)
  {
    ordered := [];
    var i := 0;
    while i < |figs|
      invariant 0 <= i <= |figs|
      invariant ordered == Keep(figs[..i], selection)
    {
      KeepPrefixStep(figs, i, selection);
      if figs[i] in selection {
        ordered := ordered + [figs[i]];
      }
      i := i + 1;
    }
    assert figs[..i] == figs;
  }

  /** One call of setFigureIndex in the second loop of bringToFront: with the figures
      already moved, moved, at the end of the list, f goes just in front of them. */
  method BringOne(model: Model, ghost figs: seq<Figure>, ghost moved: seq<Figure>, f: Figure, pos: int)
    requires Distinct(figs) && f in figs && f !in moved
    requires model.Valid() && model.figures == Without(figs, Elements(moved)) + moved
    requires pos == |model.figures| - |moved| - 1
    modifies model`figures, f`listeners
    ensures model.Valid() && |model.figures| == old(|model.figures|)
    ensures model.figures == Without(figs, Elements([f] + moved)) + ([f] + moved)
    ensures f.listeners == old(f.listeners) + [model.figureListener]
    ensures 0 <= pos
  {
    ghost var front := Without(figs, Elements(moved));
    BackStep(figs, moved, f);
    assert f in model.figures && |front| > 0 && pos == |front| - 1;
    var r := model.SetFigureIndex(f, pos);
    assert r.Done?;
  }

  /** The second loop of bringToFront: the figures of ks, taken from the last one down, are
      moved one by one to the slot in front of those already moved, that is to the indices
      n - 1, n - 2, ... */
  method BringAll(model: Model, ghost figs: seq<Figure>, ghost ks: seq<Figure>, ordered: seq<Figure>)
    returns (calls: seq<(Figure, int)>)
    requires model.Valid() && model.figures == figs
    requires Distinct(ks) && forall i :: 0 <= i < |ks| ==> ks[i] in figs
    requires |ordered| == |ks| && forall m :: 0 <= m < |ks| ==> ordered[m] == ks[|ks| - 1 - m]
    modifies model`figures, (set f | f in ks)`listeners
    ensures model.Valid()
    ensures model.figures == Without(figs, Elements(ks)) + ks
    ensures |calls| == |ks|
    ensures forall j :: 0 <= j < |ks| ==> calls[j].0 == ks[|ks| - 1 - j] && calls[j].1 == |figs| - 1 - j
    ensures forall m :: 0 <= m < |ks| ==> ks[m].listeners == old(ks[m].listeners) + [model.figureListener]
    ensures forall f :: f in figs && f !in ks ==> f.listeners == old(f.listeners)
  {
    ghost var moved: seq<Figure> := [];
    WithoutNothing(figs, Elements(moved));
    calls := [];
    var pos := |model.figures|;
    var j := 0;
    while j < |ordered|
      invariant 0 <= j <= |ks| && pos == |figs| - j
      invariant moved == ks[|ks| - j..]
      invariant model.Valid() && |model.figures| == |figs|
      invariant model.figures == Without(figs, Elements(moved)) + moved
      invariant |calls| == j
      invariant forall m :: 0 <= m < j ==> calls[m].0 == ks[|ks| - 1 - m] && calls[m].1 == |figs| - 1 - m
      invariant forall m :: 0 <= m < |ks| ==>
        ks[m].listeners == old(ks[m].listeners) + if |ks| - j <= m then [model.figureListener] else []
    {
      var f := ordered[j];
      SuffixStep(ks, |ks| - j);
      pos := pos - 1;
      BringOne(model, figs, moved, f, pos);
      moved := [f] + moved;
      calls := calls + [(f, pos)];
      j := j + 1;
    }
  }

  /** bringToFront: the selected figures of the model move to the end of the list (drawn
      in front), keeping their order, and the other figures keep theirs in front of them.
      setFigureIndex is called once per selected figure of the model, from the last one
      down, with the indices n - 1, n - 2, ..., all within the list; each call registers
      the model's listener on the figure once more. */
  method BringToFront(model: Model, selection: seq<Figure>) returns (calls: seq<(Figure, int)>)
    requires model.Valid()
    modifies model`figures, (set f | f in model.figures && f in selection)`listeners
    ensures model.Valid()
    ensures model.figures ==
      Without(old(model.figures), Elements(selection)) + Keep(old(model.figures), selection)
    ensures |calls| == |Keep(old(model.figures), selection)|
    ensures forall j :: 0 <= j < |calls| ==>
      calls[j].0 == Keep(old(model.figures), selection)[|calls| - 1 - j] &&
      calls[j].1 == old(|model.figures|) - 1 - j && 0 <= calls[j].1 < old(|model.figures|)
    ensures forall f :: f in old(model.figures) ==>
      f.listeners == old(f.listeners) + if f in selection then [model.figureListener] else []
  {
    var figs := model.figures;
    ghost var ks := Keep(figs, selection);
    var ordered, pos := FrontOrder(figs, selection);
    KeepMembers(figs, selection);
    KeepDistinct(figs, selection);
    calls := BringAll(model, figs, ks, ordered);
    WithoutKept(figs, selection);
    forall f | f in figs
      ensures f.listeners == old(f.listeners) + if f in selection then [model.figureListener] else []
    {
      if f in selection {
        assert f in ks;
        var m :| 0 <= m < |ks| && ks[m] == f;
      }
    }
  }

  /** One call of setFigureIndex in the second loop of sendToBack: with the figures already
      moved, moved, at the front of the list, f goes just behind them. */
  method SendOne(model: Model, ghost figs: seq<Figure>, ghost moved: seq<Figure>, f: Figure, pos: int)
    requires Distinct(figs) && f in figs && f !in moved
    requires model.Valid() && model.figures == moved + Without(figs, Elements(moved))
    requires pos == |moved|
    modifies model`figures, f`listeners
    ensures model.Valid() && |model.figures| == old(|model.figures|)
    ensures model.figures == (moved + [f]) + Without(figs, Elements(moved + [f]))
    ensures f.listeners == old(f.listeners) + [model.figureListener]
    ensures pos < |model.figures|
  {
    FrontStep(figs, moved, f);
    assert f in model.figures && pos < |model.figures|;
    var r := model.SetFigureIndex(f, pos);
    assert r.Done?;
  }

  /** The state after j turns of the second loop of sendToBack: the first j figures of ks
      lead the list in order, each has been given the model's listener once more, and the
      calls made so far moved ks[m] to index m. The figures of ks had the listener lists ls
      before the loop. */
  predicate SendState(model: Model, figs: seq<Figure>, ks: seq<Figure>, j: nat,
                      ls: seq<seq<FigureListener>>, calls: seq<(Figure, int)>)
    reads model, (set f | f in ks)`listeners
  {
    j <= |ks| == |ls| &&
    model.Valid() && model.figures == ks[..j] + Without(figs, Elements(ks[..j])) &&
    |calls| == j && (forall m :: 0 <= m < j ==> calls[m] == (ks[m], m)) &&
    forall m :: 0 <= m < |ks| ==>
      ks[m].listeners == ls[m] + if m < j then [model.figureListener] else []
  }

  /** One turn of the second loop of sendToBack: ks[j] moves to index j, behind the
      figures of ks already moved. */
  method SendTurn(model: Model, ghost figs: seq<Figure>, ks: seq<Figure>, j: nat,
                  ghost ls: seq<seq<FigureListener>>, calls: seq<(Figure, int)>)
    returns (calls': seq<(Figure, int)>)
    requires Distinct(figs) && Distinct(ks) && j < |ks|
    requires forall i :: 0 <= i < |ks| ==> ks[i] in figs
    requires SendState(model, figs, ks, j, ls, calls)
    modifies model`figures, {ks[j]}`listeners
    ensures SendState(model, figs, ks, j + 1, ls, calls')
  {
    PrefixStep(ks, j);
    SendOne(model, figs, ks[..j], ks[j], j);
    calls' := calls + [(ks[j], j)];
  }

  /** The second loop of sendToBack: the figures of ks, in order, are moved one by one to
      the slot behind those already moved, that is to the indices 0, 1, ... */
  method SendAll(model: Model, ghost figs: seq<Figure>, ks: seq<Figure>)
    returns (calls: seq<(Figure, int)>)
    requires model.Valid() && model.figures == figs
    requires Distinct(ks) && forall i :: 0 <= i < |ks| ==> ks[i] in figs
    modifies model`figures, (set f | f in ks)`listeners
    ensures model.Valid()
    ensures model.figures == ks + Without(figs, Elements(ks))
    ensures |calls| == |ks|
    ensures forall j :: 0 <= j < |ks| ==> calls[j].0 == ks[j] && calls[j].1 == j
    ensures forall m :: 0 <= m < |ks| ==> ks[m].listeners == old(ks[m].listeners) + [model.figureListener]
  {
    ghost var ls := ListenerLists(ks);
    assert Distinct(figs);
    WithoutNothing(figs, Elements(ks[..0]));
    calls := [];
    var j := 0;
    while j < |ks|
      invariant SendState(model, figs, ks, j, ls, calls)
    {
      calls := SendTurn(model, figs, ks, j, ls, calls);
      j := j + 1;
    }
    assert ks[..j] == ks;
  }

  /** sendToBack: the selected figures of the model move to the start of the list (drawn
      behind), keeping their order, and the other figures follow in theirs. setFigureIndex
      is called once per selected figure of the model, in model order, with the indices
      0, 1, ..., all within the list; each call registers the model's listener on the
      figure once more. */
  method SendToBack(model: Model, selection: seq<Figure>) returns (calls: seq<(Figure, int)>)
    requires model.Valid()
    modifies model`figures, (set f | f in model.figures && f in selection)`listeners
    ensures model.Valid()
    ensures model.figures ==
      Keep(old(model.figures), selection) + Without(old(model.figures), Elements(selection))
    ensures |calls| == |Keep(old(model.figures), selection)|
    ensures forall j :: 0 <= j < |calls| ==>
      calls[j].0 == Keep(old(model.figures), selection)[j] &&
      calls[j].1 == j && 0 <= calls[j].1 < old(|model.figures|)
    ensures forall f :: f in old(model.figures) ==>
      f.listeners == old(f.listeners) + if f in selection then [model.figureListener] else []
  {
    var figs := model.figures;
    var ordered := BackOrder(figs, selection);
    KeepMembers(figs, selection);
    KeepDistinct(figs, selection);
    calls := SendAll(model, figs, ordered);
    WithoutKept(figs, selection);
    forall f | f in figs
      ensures f.listeners == old(f.listeners) + if f in selection then [model.figureListener] else []
    {
      if f in selection {
        assert f in ordered;
        var m :| 0 <= m < |ordered| && ordered[m] == f;
      }
    }
  }

  /** Both reorderings only rearrange the model's figures: none is lost or duplicated. */
  lemma ReorderPermutes(figs: seq<Figure>, selection: seq<Figure>)
    ensures multiset(Without(figs, Elements(selection)) + Keep(figs, selection)) == multiset(figs)
    ensures multiset(Keep(figs, selection) + Without(figs, Elements(selection))) == multiset(figs)
  {
    WithoutKeepPermutes(figs, selection);
  }

  /** Bringing the same selection to the front a second time changes nothing. */
  lemma BringToFrontIdempotent(figs: seq<Figure>, selection: seq<Figure>)
    ensures var r := Without(figs, Elements(selection)) + Keep(figs, selection);
      Without(r, Elements(selection)) + Keep(r, selection) == r
  {
    SplitStable(figs, selection);
  }

  /** Sending the same selection to the back a second time changes nothing. */
  lemma SendToBackIdempotent(figs: seq<Figure>, selection: seq<Figure>)
    ensures var r := Keep(figs, selection) + Without(figs, Elements(selection));
      Keep(r, selection) + Without(r, Elements(selection)) == r
  {
    SplitStable(figs, selection);
  }

  /** When the selection lists figures of the model in model order, ungrouping the group
      made from it gives the same list as bringing the selection to the front. */
  lemma GroupThenUngroupBringsToFront(figs: seq<Figure>, g: Figure)
    requires g.kind == Group && Distinct(g.parts) && g !in figs && g !in g.parts
    requires Keep(figs, g.parts) == g.parts
    ensures Ungrouped(Without(figs, Elements(g.parts)) + [g], [g]) ==
      Without(figs, Elements(g.parts)) + Keep(figs, g.parts)
  {
    GroupThenUngroup(figs, g);
  }

  // ---------------------------------------------------------------- edit commands

  /** The clipboard entries for a list of figures copied as they are. */
  function Entries(figs: seq<Figure>): (es: seq<Option<Figure>>)
    ensures |es| == |figs| && forall i :: 0 <= i < |figs| ==> es[i] == Some(figs[i])
  {
    seq(|figs|, i requires 0 <= i < |figs| => Some(figs[i]))
  }

  /** Every figure of a list is a well-formed figure tree. */
  ghost predicate AllValid(figs: seq<Figure>)
  {
    forall i :: 0 <= i < |figs| ==> figs[i].Valid()
  }

  /** Every figure on a clipboard is a well-formed figure tree. */
  ghost predicate ClipsValid(es: seq<Option<Figure>>)
  {
    forall i :: 0 <= i < |es| && es[i].Some? ==> es[i].value.Valid()
  }

  /** Every object reachable from the figures on a clipboard. */
  ghost function ClipFootprint(es: seq<Option<Figure>>): (fp: set<Figure>)
    ensures forall i :: 0 <= i < |es| && es[i].Some? ==> es[i].value.Repr <= fp
    decreases |es|
  {
    if es == [] then {}
    else ClipFootprint(es[..|es| - 1]) + (if es[|es| - 1].Some? then es[|es| - 1].value.Repr else {})
  }

  /** Objects allocated since the enclosing method began are not on a clipboard that
      existed before. */
  twostate lemma {:induction false} ClipFootprintOld(es: seq<Option<Figure>>, new objs: set<Figure>)
    requires fresh(objs)
    ensures ClipFootprint(es) !! objs
    decreases |es|
  {
    if es != [] {
      ClipFootprintOld(es[..|es| - 1], objs);
    }
  }

  /** The geometry of each entry of a clipboard (None for a null entry). */
  function ClipValues(es: seq<Option<Figure>>): (vs: seq<Option<FigValue>>)
    requires ClipsValid(es)
    reads ClipFootprint(es)`frame, ClipFootprint(es)`p1, ClipFootprint(es)`p2
    ensures |vs| == |es|
    ensures forall i :: 0 <= i < |es| ==> vs[i] == if es[i].Some? then Some(es[i].value.Value()) else None
    decreases |es|
  {
    if es == [] then []
    else
      ClipValues(es[..|es| - 1]) + [if es[|es| - 1].Some? then Some(es[|es| - 1].value.Value()) else None]
  }

  /** The pasted geometry vs for the clipboard geometry cv: each pasted figure is the
      matching clipboard entry moved by (d, d). */
  predicate Pasted(cv: seq<Option<FigValue>>, vs: seq<FigValue>, d: int)
  {
    |vs| <= |cv| && forall j :: 0 <= j < |vs| ==> cv[j].Some? && vs[j] == Move(cv[j].value, d, d)
  }

  /** One more pasted figure, moved like the others. */
  lemma PastedSnoc(cv: seq<Option<FigValue>>, vs: seq<FigValue>, d: int, v: FigValue)
    requires Pasted(cv, vs, d) && |vs| < |cv| && cv[|vs|].Some? && v == Move(cv[|vs|].value, d, d)
    ensures Pasted(cv, vs + [v], d)
  {
  }

  /** One step of ungroup on the model list: a group's parts are added with addFigure
      (a part already in the model is skipped), then the group is removed with removeFigure;
      any other figure is left alone. */
  function UngroupOne(figs: seq<Figure>, f: Figure): seq<Figure>
  {
    if f.kind == Group then Without(AppendEach(figs, f.parts), {f}) else figs
  }

  /** The model list after ungroup has visited each figure of a selection in turn. */
  function Ungrouped(figs: seq<Figure>, selection: seq<Figure>): seq<Figure>
    decreases |selection|
  {
    if selection == [] then figs
    else UngroupOne(Ungrouped(figs, selection[..|selection| - 1]), selection[|selection| - 1])
  }

  /** The parts ungroup adds to the view's selection: those of each group, in order. */
  function GroupParts(selection: seq<Figure>): (ps: seq<Figure>)
    ensures forall i, j :: 0 <= i < |selection| && selection[i].kind == Group && 0 <= j < |selection[i].parts| ==>
      selection[i].parts[j] in ps
    ensures forall k :: 0 <= k < |ps| ==>
      exists i :: 0 <= i < |selection| && selection[i].kind == Group && ps[k] in selection[i].parts
    decreases |selection|
  {
    if selection == [] then []
    else
      var f := selection[|selection| - 1];
      GroupParts(selection[..|selection| - 1]) + if f.kind == Group then f.parts else []
  }

  /** The figures ungroup may register or unregister the model's listener on: the selected
      figures and the parts of each. */
  ghost function Members(selection: seq<Figure>): set<Figure>
  {
    (set f | f in selection) + (set f, p | f in selection && p in f.parts :: p)
  }

  /** Paste moves each clone by (d, d); nothing on the clipboard and none of the figures
      pasted before it is reachable from the clone, so they keep their geometry. */
  method MoveClone(g: Figure, d: int, ghost clip: seq<Option<Figure>>, ghost added: seq<Figure>)
    requires g.Valid() && ClipsValid(clip) && ClipFootprint(clip) !! g.Repr
    requires AllValid(added) && Footprint(added) !! g.Repr
    modifies g.Repr`frame, g.Repr`p1, g.Repr`p2
    ensures ClipValues(clip) == old(ClipValues(clip))
    ensures Values(added) == old(Values(added))
    ensures g.Value() == Move(old(g.Value()), d, d)
  {
    var moved := g.Move(d, d);
  }

  /** StdContext with the state its edit commands keep: the model it edits, the clipboard
      (null until the first cut or copy; an entry is null where cut found no copy of a
      figure) and the number of pastes since the last cut or copy. */
  class Context {
    const model: Model
    var clipboard: Option<seq<Option<Figure>>>
    var numberOfPastes: int

    /** Every figure on the clipboard is a well-formed figure tree. */
    ghost predicate Valid()
      reads this`clipboard
    {
      clipboard.Some? ==> ClipsValid(clipboard.value)
    }

    constructor (model: Model)
      ensures Valid() && this.model == model && clipboard == None && numberOfPastes == 0
    {
      this.model := model;
      clipboard := None;
      numberOfPastes := 0;
    }

    /** Copy: the clipboard becomes a new list of the selected figures themselves (not
        copies of them), and the paste count starts again. */
    method Copy(selection: seq<Figure>)
      requires forall i :: 0 <= i < |selection| ==> selection[i].Valid()
      modifies this`clipboard, this`numberOfPastes
      ensures Valid() && clipboard == Some(Entries(selection)) && numberOfPastes == 0
    {
      clipboard := Some(Entries(selection));
      numberOfPastes := 0;
    }

    /** Clear: every figure leaves the model at once. */
    method Clear() returns (sent: seq<ModelEvent>)
      requires model.Valid()
      modifies model`figures, (set f | f in model.figures)`listeners
      ensures model.Valid() && model.figures == []
      ensures forall f :: f in old(model.figures) ==>
        f.listeners == RemoveFirst(old(f.listeners), model.figureListener)
      ensures sent == Deliveries(model.listeners, None, DrawingCleared)
    {
      sent := model.RemoveAllFigures();
    }

    /** removeFigure on the i-th selected figure, as cut and group do it: the figure leaves
        the model if it is there; the selected figures and the copies made so far keep their
        geometry. */
    method RemoveTurn(selection: seq<Figure>, i: nat, ghost present: seq<bool>,
                     ghost ls: seq<seq<FigureListener>>, ghost vals: seq<FigValue>,
                     ghost copies: seq<Option<Figure>>)
      requires model.Valid() && Distinct(selection) && i < |selection| == |vals| == |ls| == |present|
      requires selection[i] in model.figures <==> present[i]
      requires forall j :: 0 <= j < |selection| ==> selection[j].Valid() && selection[j].Value() == vals[j]
      requires |copies| <= |vals| && forall j :: 0 <= j < |copies| && copies[j].Some? ==>
        copies[j].value.Valid() && copies[j].value.Value() == vals[j]
      requires forall j :: 0 <= j < |selection| ==>
        selection[j].listeners == if j < i && present[j]
          then RemoveFirst(ls[j], model.figureListener) else ls[j]
      modifies model`figures, {selection[i]}`listeners
      ensures model.Valid()
      ensures old(selection[i] !in model.figures) ==> model.figures == old(model.figures)
      ensures old(selection[i] in model.figures) ==>
        model.figures == Without(old(model.figures), {selection[i]})
      ensures forall j :: 0 <= j < |selection| ==>
        selection[j].listeners == if j < i + 1 && present[j]
          then RemoveFirst(ls[j], model.figureListener) else ls[j]
      ensures forall j :: 0 <= j < |selection| ==> selection[j].Value() == vals[j]
      ensures forall j :: 0 <= j < |copies| && copies[j].Some? ==> copies[j].value.Value() == vals[j]
    {
      var sent := model.RemoveFigure(selection[i]);
    }

    /** The copying half of one turn of cut: the clone of the i-th selected figure (None
        where it has none) is appended to the copies made so far. */
    method CutClone(selection: seq<Figure>, i: nat, ghost vals: seq<FigValue>, copies: seq<Option<Figure>>)
      returns (copies': seq<Option<Figure>>)
      requires i < |selection| == |vals| && |copies| == i
      requires forall j :: 0 <= j < |selection| ==> selection[j].Valid() && selection[j].Value() == vals[j]
      requires forall j :: 0 <= j < i ==>
        (copies[j].Some? <==> Clonable(vals[j])) &&
        (copies[j].Some? ==> copies[j].value.Valid() && copies[j].value.Value() == vals[j])
      ensures forall j :: 0 <= j < |selection| ==> selection[j].Value() == vals[j]
      ensures |copies'| == i + 1 && copies'[..i] == copies
      ensures forall j :: 0 <= j < i + 1 ==>
        (copies'[j].Some? <==> Clonable(vals[j])) &&
        (copies'[j].Some? ==> copies'[j].value.Valid() && copies'[j].value.Value() == vals[j])
      ensures copies'[i].Some? ==> fresh(copies'[i].value.Repr) && copies'[i].value.listeners == []
    {
      var c := selection[i].Clone();
      copies' := copies + [c];
    }

    /** One turn of cut: the i-th selected figure leaves the model if it is there, and its
        clone (None where it has none) is appended to the copies made so far. */
    method CutTurn(selection: seq<Figure>, i: nat, ghost figs: seq<Figure>, ghost present: seq<bool>,
                   ghost ls: seq<seq<FigureListener>>, ghost vals: seq<FigValue>,
                   copies: seq<Option<Figure>>) returns (copies': seq<Option<Figure>>)
      requires Distinct(selection) && i < |selection| == |vals| == |ls| == |present| && |copies| == i
      requires forall j :: 0 <= j < |selection| ==> (present[j] <==> selection[j] in figs)
      requires model.Valid() && model.figures == Without(figs, Elements(selection[..i]))
      requires forall j :: 0 <= j < |selection| ==> selection[j].Valid() && selection[j].Value() == vals[j]
      requires forall j :: 0 <= j < i ==>
        (copies[j].Some? <==> Clonable(vals[j])) &&
        (copies[j].Some? ==> copies[j].value.Valid() && copies[j].value.Value() == vals[j])
      requires forall j :: 0 <= j < |selection| ==>
        selection[j].listeners == if j < i && present[j]
          then RemoveFirst(ls[j], model.figureListener) else ls[j]
      modifies model`figures, {selection[i]}`listeners
      ensures model.Valid() && model.figures == Without(figs, Elements(selection[..i + 1]))
      ensures forall j :: 0 <= j < |selection| ==> selection[j].Value() == vals[j]
      ensures |copies'| == i + 1 && copies'[..i] == copies
      ensures forall j :: 0 <= j < i + 1 ==>
        (copies'[j].Some? <==> Clonable(vals[j])) &&
        (copies'[j].Some? ==> copies'[j].value.Valid() && copies'[j].value.Value() == vals[j])
      ensures copies'[i].Some? ==> fresh(copies'[i].value.Repr)
      ensures forall j :: 0 <= j < |selection| ==>
        selection[j].listeners == if j < i + 1 && present[j]
          then RemoveFirst(ls[j], model.figureListener) else ls[j]
    {
      PrefixStep(selection, i);
      ElementsSnoc(selection[..i], selection[i]);
      CutStep(figs, Elements(selection[..i]), selection[i]);
      RemoveTurn(selection, i, present, ls, vals, copies);
      copies' := CutClone(selection, i, vals, copies);
    }

    /** The loop of cut: each selected figure, in selection order, is removed from the
        model and cloned; the result holds the clones (None for a figure without a copy).
        The selected figures held the geometry vals and the listener lists ls at the start. */
    method CutAll(selection: seq<Figure>, ghost vals: seq<FigValue>, ghost ls: seq<seq<FigureListener>>)
      returns (copies: seq<Option<Figure>>)
      requires model.Valid() && Distinct(selection) && |selection| == |vals| == |ls|
      requires forall j :: 0 <= j < |selection| ==> selection[j].Valid() && selection[j].Value() == vals[j]
      requires forall j :: 0 <= j < |selection| ==> selection[j].listeners == ls[j]
      modifies model`figures, (set f | f in selection)`listeners
      ensures model.Valid() && model.figures == Without(old(model.figures), Elements(selection))
      ensures |copies| == |selection|
      ensures forall j :: 0 <= j < |selection| ==>
        (copies[j].Some? <==> Clonable(vals[j])) &&
        (copies[j].Some? ==> copies[j].value.Valid() && copies[j].value.Value() == vals[j])
      ensures forall j :: 0 <= j < |selection| ==> selection[j].Value() == vals[j]
      ensures forall j :: 0 <= j < |selection| ==>
        selection[j].listeners == if selection[j] in old(model.figures)
          then RemoveFirst(ls[j], model.figureListener) else ls[j]
    {
      ghost var figs := model.figures;
      ghost var present := seq(|selection|, j requires 0 <= j < |selection| => selection[j] in figs);
      copies := [];
      WithoutNothing(figs, Elements(selection[..0]));
      var i := 0;
      while i < |selection|
        invariant 0 <= i <= |selection| && |copies| == i
        invariant model.Valid() && model.figures == Without(figs, Elements(selection[..i]))
        invariant forall j :: 0 <= j < |selection| ==> selection[j].Value() == vals[j]
        invariant forall j :: 0 <= j < i ==>
          (copies[j].Some? <==> Clonable(vals[j])) &&
          (copies[j].Some? ==> copies[j].value.Valid() && copies[j].value.Value() == vals[j])
        invariant forall j :: 0 <= j < |selection| ==>
          selection[j].listeners == if j < i && present[j]
            then RemoveFirst(ls[j], model.figureListener) else ls[j]
      {
        copies := CutTurn(selection, i, figs, present, ls, vals, copies);
        i := i + 1;
      }
      assert selection[..i] == selection;
    }

    /** Cut: the selected figures leave the model and a new clipboard holds their clones
        (null for a figure without a copy); the paste count starts again. */
    method Cut(selection: seq<Figure>)
      requires model.Valid() && Distinct(selection)
      requires forall i :: 0 <= i < |selection| ==> selection[i].Valid()
      modifies this`clipboard, this`numberOfPastes, model`figures, (set f | f in selection)`listeners
      ensures Valid() && model.Valid() && numberOfPastes == 0
      ensures model.figures == Without(old(model.figures), Elements(selection))
      ensures clipboard.Some? && |clipboard.value| == |selection|
      ensures forall i :: 0 <= i < |selection| ==>
        (clipboard.value[i].Some? <==> Clonable(old(selection[i].Value()))) &&
        (clipboard.value[i].Some? ==> clipboard.value[i].value.Value() == old(selection[i].Value()))
      ensures forall i :: 0 <= i < |selection| ==> selection[i].Value() == old(selection[i].Value())
      ensures forall i :: 0 <= i < |selection| ==>
        selection[i].listeners == if selection[i] in old(model.figures)
          then RemoveFirst(old(selection[i].listeners), model.figureListener)
          else old(selection[i].listeners)
    {
      var copies := CutAll(selection, Values(selection), ListenerLists(selection));
      clipboard := Some(copies);
      numberOfPastes := 0;
    }

    /** One turn of the group command's removal loop: removeFigure on the i-th selected figure. */
    method GroupTurn(selection: seq<Figure>, i: nat, ghost figs: seq<Figure>, ghost present: seq<bool>,
                     ghost ls: seq<seq<FigureListener>>, ghost vals: seq<FigValue>)
      requires Distinct(selection) && i < |selection| == |vals| == |ls| == |present|
      requires forall j :: 0 <= j < |selection| ==> (present[j] <==> selection[j] in figs)
      requires model.Valid() && model.figures == Without(figs, Elements(selection[..i]))
      requires forall j :: 0 <= j < |selection| ==> selection[j].Valid() && selection[j].Value() == vals[j]
      requires forall j :: 0 <= j < |selection| ==>
        selection[j].listeners == if j < i && present[j]
          then RemoveFirst(ls[j], model.figureListener) else ls[j]
      modifies model`figures, {selection[i]}`listeners
      ensures model.Valid() && model.figures == Without(figs, Elements(selection[..i + 1]))
      ensures forall j :: 0 <= j < |selection| ==> selection[j].Value() == vals[j]
      ensures forall j :: 0 <= j < |selection| ==>
        selection[j].listeners == if j < i + 1 && present[j]
          then RemoveFirst(ls[j], model.figureListener) else ls[j]
    {
      PrefixStep(selection, i);
      ElementsSnoc(selection[..i], selection[i]);
      CutStep(figs, Elements(selection[..i]), selection[i]);
      RemoveTurn(selection, i, present, ls, vals, []);
    }

    /** The removal loop of the group command: removeFigure on each selected figure in turn.
        The selected figures held the geometry vals and the listener lists ls at the start. */
    method RemoveEach(selection: seq<Figure>, ghost vals: seq<FigValue>, ghost ls: seq<seq<FigureListener>>)
      requires model.Valid() && Distinct(selection) && |selection| == |vals| == |ls|
      requires forall j :: 0 <= j < |selection| ==> selection[j].Valid() && selection[j].Value() == vals[j]
      requires forall j :: 0 <= j < |selection| ==> selection[j].listeners == ls[j]
      modifies model`figures, (set f | f in selection)`listeners
      ensures model.Valid() && model.figures == Without(old(model.figures), Elements(selection))
      ensures forall j :: 0 <= j < |selection| ==> selection[j].Value() == vals[j]
      ensures forall j :: 0 <= j < |selection| ==>
        selection[j].listeners == if selection[j] in old(model.figures)
          then RemoveFirst(ls[j], model.figureListener) else ls[j]
    {
      ghost var figs := model.figures;
      ghost var present := seq(|selection|, j requires 0 <= j < |selection| => selection[j] in figs);
      WithoutNothing(figs, Elements(selection[..0]));
      var i := 0;
      while i < |selection|
        invariant 0 <= i <= |selection|
        invariant model.Valid() && model.figures == Without(figs, Elements(selection[..i]))
        invariant forall j :: 0 <= j < |selection| ==> selection[j].Value() == vals[j]
        invariant forall j :: 0 <= j < |selection| ==>
          selection[j].listeners == if j < i && present[j]
            then RemoveFirst(ls[j], model.figureListener) else ls[j]
      {
        GroupTurn(selection, i, figs, present, ls, vals);
        i := i + 1;
      }
      assert selection[..i] == selection;
    }

    /** The first half of group: new Group(selection) and addFigure on it. */
    method AddGroup(selection: seq<Figure>, ghost vals: seq<FigValue>) returns (g: Figure)
      requires model.Valid() && AllValid(selection) && Values(selection) == vals
      requires forall i, j :: 0 <= i < j < |selection| ==> selection[i].Repr !! selection[j].Repr
      modifies model`figures
      ensures fresh(g) && g.Valid() && g.kind == Group && g.parts == selection
      ensures g.Value() == GroupV(vals) && g.listeners == [model.figureListener]
      ensures model.Valid() && model.figures == old(model.figures) + [g]
    {
      g := new Figure.NewGroup(selection, vals);
      var sent := model.AddFigure(g);
    }

    /** Group: a new group over the selected figures, in selection order, is appended to the
        model, and then each selected figure is removed from it. The group holds the figures'
        geometry, and the model listens to it. */
    method GroupSelection(selection: seq<Figure>) returns (g: Figure)
      requires model.Valid() && Distinct(selection) && AllValid(selection)
      requires forall i, j :: 0 <= i < j < |selection| ==> selection[i].Repr !! selection[j].Repr
      modifies model`figures, (set f | f in selection)`listeners
      ensures fresh(g) && g.Valid() && g.kind == Group && g.parts == selection
      ensures g.Value() == GroupV(old(Values(selection)))
      ensures g.listeners == [model.figureListener]
      ensures model.Valid() && model.figures == Without(old(model.figures), Elements(selection)) + [g]
      ensures Values(selection) == old(Values(selection))
      ensures forall j :: 0 <= j < |selection| ==>
        selection[j].listeners == if selection[j] in old(model.figures)
          then RemoveFirst(old(selection[j].listeners), model.figureListener)
          else old(selection[j].listeners)
    {
      ghost var vals, ls := Values(selection), ListenerLists(selection);
      g := AddGroup(selection, vals);
      RemoveEach(selection, vals, ls);
      WithoutAppend(old(model.figures), [g], Elements(selection));
      assert Without([g], Elements(selection)) == [g];
    }

    /** group on an empty selection: the model gains a group without parts, whose
        getBounds throws (None), and with it contains, its handles and the snap grid's search. */
    method GroupNothing() returns (g: Figure, b: Option<Geometry.Rectangle>)
      requires model.Valid()
      modifies model`figures
      ensures model.Valid() && model.figures == old(model.figures) + [g]
      ensures g.Valid() && g.kind == Group && g.parts == [] && !Drawable(g.Value())
      ensures b == None
    {
      var none: seq<Figure> := [];
      WithoutNothing(model.figures, Elements(none));
      g := GroupSelection(none);
      assert g.Value() == GroupV([]);
      b := g.GetBounds();
    }

    /** The inner loop of ungroup: addFigure on each part of a group, in order. */
    method AddParts(parts: seq<Figure>)
      requires model.Valid()
      modifies model`figures, (set p | p in parts)`listeners
      ensures model.Valid() && model.figures == AppendEach(old(model.figures), parts)
    {
      ghost var figs := model.figures;
      var i := 0;
      while i < |parts|
        invariant 0 <= i <= |parts|
        invariant model.Valid() && model.figures == AppendEach(figs, parts[..i])
      {
        var sent := model.AddFigure(parts[i]);
        assert parts[..i + 1][..i] == parts[..i];
        i := i + 1;
      }
      assert parts[..i] == parts;
    }

    /** One turn of ungroup: a group's parts are added and selected, then the group leaves
        the model; any other figure is skipped. */
    method UngroupTurn(selection: seq<Figure>, i: nat, ghost figs: seq<Figure>, selected: seq<Figure>)
      returns (selected': seq<Figure>)
      requires i < |selection|
      requires model.Valid() && model.figures == Ungrouped(figs, selection[..i])
      requires selected == GroupParts(selection[..i])
      modifies model`figures, Members(selection)`listeners
      ensures model.Valid() && model.figures == Ungrouped(figs, selection[..i + 1])
      ensures selected' == GroupParts(selection[..i + 1])
    {
      var f := selection[i];
      assert selection[..i + 1] == selection[..i] + [f];
      assert selection[..i + 1][..i] == selection[..i];
      selected' := selected;
      if f.kind == Group {
        AddParts(f.parts);
        ghost var added := model.figures;
        var sent := model.RemoveFigure(f);
        if f !in added {
          WithoutNothing(added, {f});
        }
        selected' := selected + f.parts;
      }
    }

    /** Ungroup: each selected group, in selection order, is replaced in the model by its
        parts (appended, unless already there); the parts are added to the view's selection.
        The selection is copied first, so the list visited is the one passed in. */
    method Ungroup(selection: seq<Figure>) returns (selected: seq<Figure>)
      requires model.Valid()
      modifies model`figures, Members(selection)`listeners
      ensures model.Valid() && model.figures == Ungrouped(old(model.figures), selection)
      ensures selected == GroupParts(selection)
    {
      ghost var figs := model.figures;
      var copy := selection;
      selected := [];
      var i := 0;
      while i < |copy|
        invariant 0 <= i <= |copy|
        invariant model.Valid() && model.figures == Ungrouped(figs, copy[..i])
        invariant selected == GroupParts(copy[..i])
      {
        selected := UngroupTurn(copy, i, figs, selected);
        i := i + 1;
      }
      assert copy[..i] == copy;
    }

    /** The second half of one turn of paste: the clone g is moved by (d, d) and added to
        the model; the clipboard and the figures pasted so far keep their geometry. */
    method PasteOne(g: Figure, d: int, ghost clip: seq<Option<Figure>>, ghost added: seq<Figure>)
      requires g.Valid() && model.Valid() && g !in model.figures
      requires ClipsValid(clip) && ClipFootprint(clip) !! g.Repr
      requires AllValid(added) && Footprint(added) !! g.Repr
      modifies g.Repr`frame, g.Repr`p1, g.Repr`p2, g`listeners, model`figures
      ensures model.Valid() && model.figures == old(model.figures) + [g]
      ensures ClipValues(clip) == old(ClipValues(clip))
      ensures Values(added) == old(Values(added))
      ensures g.Value() == Move(old(g.Value()), d, d)
    {
      MoveClone(g, d, clip, added);
      var sent := model.AddFigure(g);
    }

    /** One turn of paste: the k-th clipboard entry is cloned, the clone is moved by (d, d)
        and added to the model. The turn fails, changing nothing, where the entry is null or
        has no clone (Java's forEach stops there, throwing on the null reference). */
    method PasteTurn(clip: seq<Option<Figure>>, k: nat, ghost cv: seq<Option<FigValue>>, d: int,
                     added: seq<Figure>, ghost vs: seq<FigValue>)
      returns (added': seq<Figure>, ok: bool, ghost vs': seq<FigValue>)
      requires k < |clip| && |added| == k && model.Valid()
      requires ClipsValid(clip) && ClipValues(clip) == cv
      requires AllValid(added) && Values(added) == vs && Pasted(cv, vs, d)
      modifies model`figures
      ensures model.Valid() && ClipValues(clip) == cv && AllValid(added')
      ensures Values(added') == vs' && Pasted(cv, vs', d)
      ensures ok ==> (|added'| == k + 1 && added' == added + [added'[k]] &&
                      model.figures == old(model.figures) + [added'[k]])
      ensures !ok ==> (added' == added && model.figures == old(model.figures) &&
                       (cv[k].None? || !Clonable(cv[k].value)))
    {
      if clip[k].None? {
        return added, false, vs;
      }
      var c := clip[k].value.Clone();
      if c.None? {
        return added, false, vs;
      }
      var g := c.value;
      assert ClipValues(clip) == cv && Values(added) == vs && g.Value() == cv[k].value;
      ClipFootprintOld(clip, g.Repr);
      FootprintOld(added, g.Repr);
      PasteOne(g, d, clip, added);
      ValuesSnoc(added, g);
      added' := added + [g];
      PastedSnoc(cv, vs, d, g.Value());
      ok, vs' := true, vs + [g.Value()];
    }

    /** The loop of paste: the clipboard entries are pasted in order, each moved by (d, d),
        until one fails; completed tells whether every entry was pasted. */
    method PasteAll(clip: seq<Option<Figure>>, ghost cv: seq<Option<FigValue>>, d: int)
      returns (added: seq<Figure>, completed: bool)
      requires model.Valid() && ClipsValid(clip) && ClipValues(clip) == cv
      modifies model`figures
      ensures model.Valid() && model.figures == old(model.figures) + added
      ensures ClipValues(clip) == cv && AllValid(added) && Pasted(cv, Values(added), d)
      ensures |added| <= |clip| && (completed <==> |added| == |clip|)
      ensures !completed ==> cv[|added|].None? || !Clonable(cv[|added|].value)
    {
      ghost var figs := model.figures;
      ghost var vs := [];
      added := [];
      completed := true;
      var k := 0;
      while k < |clip|
        invariant 0 <= k <= |clip| && |added| == k
        invariant model.Valid() && model.figures == figs + added
        invariant ClipValues(clip) == cv && AllValid(added) && Values(added) == vs && Pasted(cv, vs, d)
      {
        var ok;
        added, ok, vs := PasteTurn(clip, k, cv, d, added, vs);
        if !ok {
          completed := false;
          return;
        }
        k := k + 1;
      }
    }

    /** Paste: with a clipboard, the paste count goes up by one and every entry is cloned,
        moved by five times the count in both directions and appended to the model, in
        clipboard order; the pasted figures are what the view selects afterwards. Without a
        clipboard nothing happens. */
    method Paste() returns (added: seq<Figure>, completed: bool)
      requires Valid() && model.Valid()
      modifies this`numberOfPastes, model`figures
      ensures Valid() && model.Valid() && clipboard == old(clipboard)
      ensures old(clipboard).None? ==>
        numberOfPastes == old(numberOfPastes) && model.figures == old(model.figures) &&
        added == [] && completed
      ensures old(clipboard).Some? ==>
        numberOfPastes == old(numberOfPastes) + 1 &&
        model.figures == old(model.figures) + added &&
        |added| <= |clipboard.value| && (completed <==> |added| == |clipboard.value|)
      ensures old(clipboard).Some? ==>
        AllValid(added) && Pasted(old(ClipValues(clipboard.value)), Values(added), 5 * numberOfPastes)
      ensures old(clipboard).Some? && !completed ==>
        var e := old(ClipValues(clipboard.value))[|added|]; e.None? || !Clonable(e.value)
    {
      if clipboard.None? {
        return [], true;
      }
      numberOfPastes := numberOfPastes + 1;
      added, completed := PasteAll(clipboard.value, ClipValues(clipboard.value), 5 * numberOfPastes);
    }
  }

  /** Taking f out of figs with done already taken out. */
  lemma CutStep<T>(figs: seq<T>, done: set<T>, f: T)
    ensures f in Without(figs, done) <==> f in figs && f !in done
    ensures f in Without(figs, done) ==> Without(figs, done + {f}) == Without(Without(figs, done), {f})
    ensures f !in Without(figs, done) ==> Without(figs, done + {f}) == Without(figs, done)
  {
    WithoutOneMore(figs, done, f);
    WithoutHas(figs, done, f);
  }

  /** Ungroup keeps the model free of duplicates. */
  lemma {:induction false} UngroupedDistinct(figs: seq<Figure>, selection: seq<Figure>)
    requires Distinct(figs)
    ensures Distinct(Ungrouped(figs, selection))
    decreases |selection|
  {
    if selection != [] {
      var init := selection[..|selection| - 1];
      UngroupedDistinct(figs, init);
      var f := selection[|selection| - 1];
      if f.kind == Group {
        WithoutDistinct(AppendEach(Ungrouped(figs, init), f.parts), {f});
      }
    }
  }

  /** After one step of ungroup on a group, the group is gone, each of its parts (other
      than the group itself) is in the model, and so is every other figure that was. Every
      figure in the result was in the model or is a part. */
  lemma UngroupOneMembers(figs: seq<Figure>, g: Figure, x: Figure)
    requires g.kind == Group
    ensures x in UngroupOne(figs, g) <==> x != g && (x in figs || x in g.parts)
  {
    var a := AppendEach(figs, g.parts);
    WithoutHas(a, {g}, x);
    if x in figs {
      var k :| 0 <= k < |figs| && figs[k] == x;
      assert a[..|figs|][k] == x;
    }
    if x in g.parts {
      var k :| 0 <= k < |g.parts| && g.parts[k] == x;
    }
    if x in a {
      var k :| 0 <= k < |a| && a[k] == x;
    }
  }

  /** Ungroup skips every figure that is not a group. */
  lemma {:induction false} UngroupedSkipsNonGroups(figs: seq<Figure>, selection: seq<Figure>)
    requires forall i :: 0 <= i < |selection| ==> selection[i].kind != Group
    ensures Ungrouped(figs, selection) == figs
    ensures GroupParts(selection) == []
    decreases |selection|
  {
    if selection != [] {
      UngroupedSkipsNonGroups(figs, selection[..|selection| - 1]);
    }
  }

  /** Ungrouping the group the group command just made: the group leaves the end of the
      list and its parts take its place, in the order they were selected. */
  lemma GroupThenUngroup(figs: seq<Figure>, g: Figure)
    requires g.kind == Group && Distinct(g.parts) && g !in figs && g !in g.parts
    ensures Ungrouped(Without(figs, Elements(g.parts)) + [g], [g]) ==
      Without(figs, Elements(g.parts)) + g.parts
  {
    var w := Without(figs, Elements(g.parts));
    assert [g][..0] == [];
    assert Ungrouped(w + [g], [g]) == UngroupOne(w + [g], g);
    forall i | 0 <= i < |g.parts|
      ensures g.parts[i] !in w + [g]
    {
      WithoutHas(figs, Elements(g.parts), g.parts[i]);
    }
    AppendEachFresh(w + [g], g.parts);
    WithoutHas(figs, Elements(g.parts), g);
    DropLast(w, g, g.parts);
  }

  /** Removing x from a list where it occurs once, between a and b. */
  lemma {:induction false} DropLast<T>(a: seq<T>, x: T, b: seq<T>)
    requires x !in a && x !in b
    ensures Without(a + [x] + b, {x}) == a + b
    decreases |a|
  {
    var s := a + [x] + b;
    if a == [] {
      assert s[0] == x && s[1..] == b;
      WithoutNothing(b, {x});
    } else {
      assert s[0] == a[0] && s[1..] == a[1..] + [x] + b;
      DropLast(a[1..], x, b);
      assert a + b == [a[0]] + (a[1..] + b);
    }
  }

  /** Grouping figures of the model and ungrouping the group again leaves the same figures
      in the model, each once: only their order changes. */
  lemma GroupThenUngroupPermutes(figs: seq<Figure>, selection: seq<Figure>)
    requires Distinct(figs) && Distinct(selection)
    requires forall i :: 0 <= i < |selection| ==> selection[i] in figs
    ensures multiset(Without(figs, Elements(selection)) + selection) == multiset(figs)
  {
    WithoutKeepPermutes(figs, selection);
    KeepDistinct(figs, selection);
    KeepMembers(figs, selection);
    forall x | x in selection
      ensures x in Keep(figs, selection)
    {
      KeepHas(figs, selection, x);
    }
    forall x | x in Keep(figs, selection)
      ensures x in selection
    {
      KeepHas(figs, selection, x);
    }
    DistinctSameMultiset(selection, Keep(figs, selection));
  }
}
