/** The page as an event-driven system: the gestures a user can make, the
    handler each one runs, and the invariant every run keeps. */
module Events {
  import opened Scene
  import opened ListView
  import opened Selection

  /** A user gesture, or the drawing of a further plot on the page. Plot
      indices count plots in document order. */
  datatype Event =
    | Draw(points: seq<Point>)
    | Brush(plot: nat, sel: Option<Rect>)
    | Click
    | Hover(plot: nat, category: string)
    | Leave(plot: nat)

  /** The page before any plot is drawn. */
  const Blank: Page := Page([], [])

  /** Runs the handler for one event. A gesture on a plot that does not exist
      has no element to fire on and changes nothing. */
  function Step(page: Page, e: Event): (next: Page)
  {
    match e
    case Draw(points) => AddPlot(page, points)
    case Brush(p, sel) => if p < |page.plots| then Brushed(page, p, sel) else page
    case Click => BackgroundClick(page)
    case Hover(p, cat) => if p < |page.plots| then LegendOver(page, p, cat) else page
    case Leave(p) => if p < |page.plots| then LegendOut(page, p) else page
  }

  /** Runs the handlers for a sequence of events, in delivery order. */
  function Run(page: Page, es: seq<Event>): (last: Page)
    decreases |es|
  {
    if |es| == 0 then page else Run(Step(page, es[0]), es[1..])
  }

  /** Every handler leaves the list showing exactly the selected circles. */
  lemma StepKeepsListInSync(page: Page, e: Event)
    requires ListShowsSelection(page)
    ensures ListShowsSelection(Step(page, e))
  {
    match e
    case Draw(points) =>
    case Brush(p, sel) =>
    case Click =>
    case Hover(p, cat) =>
      if p < |page.plots| {
        HoverKeepsSelection(page, p, cat);
      }
    case Leave(p) =>
      if p < |page.plots| {
        HoverKeepsSelection(page, p, "");
      }
  }

  /** On every page reachable from the blank page, the list has one line per
      selected circle, in document order: list and circles never disagree. */
  lemma {:induction false} RunKeepsListInSync(page: Page, es: seq<Event>)
    requires ListShowsSelection(page)
    ensures ListShowsSelection(Run(page, es))
    ensures |Run(page, es).list| == |SelectedSet(AllCircles(Run(page, es).plots))|
    decreases |es|
  {
    if |es| > 0 {
      StepKeepsListInSync(page, es[0]);
      RunKeepsListInSync(Step(page, es[0]), es[1..]);
    }
  }

  lemma ReachableListInSync(es: seq<Event>)
    ensures ListShowsSelection(Run(Blank, es))
    ensures |Run(Blank, es).list| == |SelectedSet(AllCircles(Run(Blank, es).plots))|
  {
    assert SelectedData(Blank.plots) == [];
    RunKeepsListInSync(Blank, es);
  }

  /** The selected data of a one-plot page whose first two of three circles
      are selected. */
  lemma FirstTwoOfThree(pl: Plot)
    requires |pl.circles| == 3
    requires pl.circles[0].selected && pl.circles[1].selected && !pl.circles[2].selected
    ensures SelectedData([pl]) == [pl.circles[0].point, pl.circles[1].point]
  {
    var cs := pl.circles;
    assert AllCircles([pl]) == cs by {
      assert [pl][..0] == [];
    }
    PositionsFirstTwo(cs);
  }

  lemma PositionsFirstTwo(cs: seq<Circle>)
    requires |cs| == 3
    requires cs[0].selected && cs[1].selected && !cs[2].selected
    ensures SelectedPositions(cs) == [0, 1]
  {
    var one, two := cs[..1], cs[..2];
    assert two[..1] == one;
    assert one[..0] == [];
    assert SelectedPositions(one) == SelectedPositions([]) + [0];
    assert SelectedPositions(two) == SelectedPositions(one) + [1];
    assert cs[..2] == two;
  }

  /** Worked example: a plot of three points at (10,10), (50,50) and (90,90);
      the rectangle [[0,0],[60,60]] selects the first two, the list shows
      their two lines in data order, and a null brush clears flags and list. */
  lemma ThreePointExample(cat: string, d0: Display, d1: Display, d2: Display)
    ensures var pts := [Point(10.0, 10.0, cat, d0), Point(50.0, 50.0, cat, d1), Point(90.0, 90.0, cat, d2)];
      var drawn := Step(Blank, Draw(pts));
      var picked := Step(drawn, Brush(0, Some(Rect(0.0, 0.0, 60.0, 60.0))));
      var cleared := Step(picked, Brush(0, None));
      && |picked.plots| == 1
      && |picked.plots[0].circles| == 3
      && picked.plots[0].circles[0].selected
      && picked.plots[0].circles[1].selected
      && !picked.plots[0].circles[2].selected
      && picked.list == [FormatLine(d0), FormatLine(d1)]
      && NoneSelected(cleared.plots)
      && cleared.list == []
  {
    var pts := [Point(10.0, 10.0, cat, d0), Point(50.0, 50.0, cat, d1), Point(90.0, 90.0, cat, d2)];
    var drawn := AddPlot(Blank, pts);
    assert Step(Blank, Draw(pts)) == drawn;
    var picked := Brushed(drawn, 0, Some(Rect(0.0, 0.0, 60.0, 60.0)));
    assert Step(drawn, Brush(0, Some(Rect(0.0, 0.0, 60.0, 60.0)))) == picked;
    assert picked.plots == [picked.plots[0]];
    FirstTwoOfThree(picked.plots[0]);
    NullBrushOnOnlyPlot(picked);
  }

  /** On a page with a single plot, a null brush leaves nothing selected and
      the list empty. */
  lemma NullBrushOnOnlyPlot(page: Page)
    requires |page.plots| == 1
    ensures NoneSelected(Step(page, Brush(0, None)).plots)
    ensures Step(page, Brush(0, None)).list == []
  {
    NullBrushClearsPlot(page, 0);
    assert page.plots[..0] + page.plots[1..] == [];
    var r := Brushed(page, 0, None);
    assert NoneSelected(r.plots) by {
      forall q, i | 0 <= q < |r.plots| && 0 <= i < |r.plots[q].circles|
        ensures !r.plots[q].circles[i].selected
      {
        assert q == 0;
      }
    }
  }
}
