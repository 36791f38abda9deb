/** The shared selected-items list: which circles of the page are selected,
    in document order, and the one line of text rendered for each. */
module ListView {
  import opened Scene

  /** The indices, in `cs`, of the circles carrying the `selected` class. */
  ghost function SelectedSet(cs: seq<Circle>): set<nat>
  {
    set j: nat | j < |cs| && cs[j].selected
  }

  /** Extending a sequence by one circle adds one to the number of selected
      circles exactly when the new circle is selected. */
  lemma SelectedSetExtend(cs: seq<Circle>)
    requires |cs| > 0
    ensures |SelectedSet(cs)| == |SelectedSet(cs[..|cs| - 1])| + (if cs[|cs| - 1].selected then 1 else 0)
  {
    var n := |cs| - 1;
    var s := SelectedSet(cs[..n]);
    assert n !in s;
    if cs[n].selected {
      assert SelectedSet(cs) == s + {n};
    } else {
      assert SelectedSet(cs) == s;
    }
  }

  /** The positions of the selected circles of `cs`, in increasing order:
      every position holds a selected circle, every selected circle's
      position is listed, and so there are as many positions as selected
      circles. */
  function SelectedPositions(cs: seq<Circle>): (pos: seq<nat>)
    ensures forall k :: 0 <= k < |pos| ==> pos[k] < |cs| && cs[pos[k]].selected
    ensures forall k, l :: 0 <= k < l < |pos| ==> pos[k] < pos[l]
    ensures forall j :: 0 <= j < |cs| && cs[j].selected ==> j in pos
    ensures |pos| == |SelectedSet(cs)|
  {
    if |cs| == 0 then []
    else
      var front := SelectedPositions(cs[..|cs| - 1]);
      SelectedSetExtend(cs);
      if cs[|cs| - 1].selected then front + [|cs| - 1] else front
  }

  /** The data bound to the page's selected circles, in document order: the
      model of `d3.selectAll("circle.selected").data()`. */
  function SelectedData(plots: seq<Plot>): (sd: seq<Point>)
    ensures |sd| == |SelectedSet(AllCircles(plots))|
    ensures forall k :: 0 <= k < |sd| ==>
      sd[k] == AllCircles(plots)[SelectedPositions(AllCircles(plots))[k]].point
  {
    var cs := AllCircles(plots);
    var pos := SelectedPositions(cs);
    seq(|pos|, k requires 0 <= k < |pos| => cs[pos[k]].point)
  }

  /** The text of one list item. */
  function FormatLine(d: Display): (line: string)
  {
    d.model + " | Country: " + d.country + " | Price: $" + d.price + " | MPG: " + d.mpg
      + " | Engine Size: " + d.engineSize + " | Weight: " + d.weight
  }

  /** One list line per point, in the order given. */
  function RenderLines(sd: seq<Point>): (lines: seq<string>)
  {
    seq(|sd|, k requires 0 <= k < |sd| => FormatLine(sd[k].display))
  }

  /** The list shows exactly the selected circles of the page, one line each,
      in document order. This is the invariant tying the list to the circles. */
  predicate ListShowsSelection(page: Page) {
    page.list == RenderLines(SelectedData(page.plots))
  }

  /** Empties the list, then, unless nothing is selected, appends one line per
      selected circle of the page. */
  function UpdateList(page: Page): (r: Page)
    ensures r.plots == page.plots
    ensures |r.list| == |SelectedSet(AllCircles(page.plots))|
    ensures forall k :: 0 <= k < |r.list| ==>
      var cs := AllCircles(page.plots);
      var p := SelectedPositions(cs)[k];
      p < |cs| && cs[p].selected && r.list[k] == FormatLine(cs[p].point.display)
    ensures ListShowsSelection(r)
  {
    var selectedData := SelectedData(page.plots);
    var cleared := page.(list := []);
    if |selectedData| == 0 then cleared
    else cleared.(list := RenderLines(selectedData))
  }

  /** Lines appear in document order: an earlier line belongs to an earlier
      circle of the page. */
  lemma ListInDocumentOrder(page: Page, k: nat, l: nat)
    requires k < l < |UpdateList(page).list|
    ensures SelectedPositions(AllCircles(page.plots))[k] < SelectedPositions(AllCircles(page.plots))[l]
  {
  }

  /** The list is rebuilt from scratch: what it held before does not matter,
      and a second call changes nothing. */
  lemma UpdateListIdempotent(page: Page, stale: seq<string>)
    ensures UpdateList(page.(list := stale)) == UpdateList(page)
    ensures UpdateList(UpdateList(page)) == UpdateList(page)
  {
  }

  /** A page already showing its selection is left as it is by `UpdateList`. */
  lemma UpdateListFixesConsistentPage(page: Page)
    requires ListShowsSelection(page)
    ensures UpdateList(page) == page
  {
  }

  /** The selected data depends only on the points and flags of the circles,
      never on their opacity. */
  lemma SelectedDataIgnoresOpacity(ps: seq<Plot>, qs: seq<Plot>)
    requires SamePlotMarks(ps, qs)
    ensures SelectedData(ps) == SelectedData(qs)
  {
    SameMarksFlatten(ps, qs);
    SamePositions(AllCircles(ps), AllCircles(qs));
  }

  lemma {:induction false} SamePositions(a: seq<Circle>, b: seq<Circle>)
    requires SameMarks(a, b)
    ensures SelectedPositions(a) == SelectedPositions(b)
  {
    if |a| > 0 {
      SamePositions(a[..|a| - 1], b[..|b| - 1]);
    }
  }

  /** With no circle selected anywhere, the selected data is empty. */
  lemma NothingSelectedNoData(plots: seq<Plot>)
    requires NoneSelected(plots)
    ensures SelectedData(plots) == []
  {
    NoneSelectedFlatten(plots);
    assert SelectedSet(AllCircles(plots)) == {};
  }
}
