/** The event handlers of a scatterplot, as pure functions on the page: drawing
    a new plot, the brush handler, the click on the plot background, and the
    legend hover pair. */
module Selection {
  import opened Scene
  import opened ListView
  import opened Categories

  /** Every circle of the sequence with its `selected` class removed. */
  function ClearFlags(cs: seq<Circle>): (cleared: seq<Circle>)
  {
    seq(|cs|, i requires 0 <= i < |cs| => cs[i].(selected := false))
  }

  /** The flags the brush handler gives a plot's circles: cleared when the
      selection is null, otherwise the inclusive rectangle test. */
  function BrushFlags(cs: seq<Circle>, sel: Option<Rect>): (flagged: seq<Circle>)
  {
    match sel
    case None => ClearFlags(cs)
    case Some(r) => seq(|cs|, i requires 0 <= i < |cs| => cs[i].(selected := InRect(r, cs[i].point)))
  }

  /** Draws a new scatterplot at the end of the page: one unselected circle per
      point at the default opacity. The shared list is not touched. */
  function AddPlot(page: Page, points: seq<Point>): (r: Page)
    ensures |r.plots| == |page.plots| + 1
    ensures r.plots[..|page.plots|] == page.plots
    ensures var cs := r.plots[|page.plots|].circles;
      |cs| == |points|
      && forall i :: 0 <= i < |cs| ==>
        cs[i].point == points[i] && !cs[i].selected && cs[i].opacity == DefaultOpacity
    ensures r.list == page.list
    ensures ListShowsSelection(page) ==> ListShowsSelection(r)
  {
    var r := page.(plots := page.plots + [Plot(RenderCircles(points))]);
    AddUnselectedPlotKeepsData(page.plots, Plot(RenderCircles(points)));
    r
  }

  lemma AddUnselectedPlotKeepsData(plots: seq<Plot>, pl: Plot)
    requires forall i :: 0 <= i < |pl.circles| ==> !pl.circles[i].selected
    ensures SelectedData(plots + [pl]) == SelectedData(plots)
  {
    AllCirclesAppend(plots, pl);
    var a, cs := AllCircles(plots), AllCircles(plots + [pl]);
    assert cs == a + pl.circles;
    assert SelectedPositions(cs) == SelectedPositions(a) by {
      PositionsIgnoreUnselectedTail(a, pl.circles);
    }
  }

  /** Appending unselected circles adds no selected positions. */
  lemma {:induction false} PositionsIgnoreUnselectedTail(a: seq<Circle>, t: seq<Circle>)
    requires forall i :: 0 <= i < |t| ==> !t[i].selected
    ensures SelectedPositions(a + t) == SelectedPositions(a)
  {
    if |t| > 0 {
      var t' := t[..|t| - 1];
      assert (a + t)[..|a + t| - 1] == a + t';
      PositionsIgnoreUnselectedTail(a, t');
    } else {
      assert a + t == a;
    }
  }

  /** The brush handler of plot `p`: recomputes the flag of every circle of
      that plot from the current selection alone, then rebuilds the list. */
  function Brushed(page: Page, p: nat, sel: Option<Rect>): (r: Page)
    requires p < |page.plots|
    ensures |r.plots| == |page.plots|
    ensures forall q :: 0 <= q < |r.plots| && q != p ==> r.plots[q] == page.plots[q]
    ensures var before, after := page.plots[p].circles, r.plots[p].circles;
      |after| == |before|
      && forall i :: 0 <= i < |after| ==>
        && after[i].point == before[i].point
        && after[i].opacity == before[i].opacity
        && (after[i].selected <==> sel.Some? && InRect(sel.value, before[i].point))
    ensures ListShowsSelection(r)
  {
    var plots := page.plots[p := Plot(BrushFlags(page.plots[p].circles, sel))];
    UpdateList(page.(plots := plots))
  }

  /** The result of brushing depends on the current rectangle alone: two pages
      that differ only in the flags of the brushed plot and in the list end up
      identical. */
  lemma BrushForgetsPreviousSelection(a: Page, b: Page, p: nat, sel: Option<Rect>)
    requires p < |a.plots| && |a.plots| == |b.plots|
    requires forall q :: 0 <= q < |a.plots| && q != p ==> a.plots[q] == b.plots[q]
    requires ClearFlags(a.plots[p].circles) == ClearFlags(b.plots[p].circles)
    ensures Brushed(a, p, sel) == Brushed(b, p, sel)
  {
    var x, y := a.plots[p].circles, b.plots[p].circles;
    assert |x| == |ClearFlags(x)| == |y|;
    forall i | 0 <= i < |x| ensures x[i].point == y[i].point && x[i].opacity == y[i].opacity {
      assert ClearFlags(x)[i] == ClearFlags(y)[i];
    }
    var ra, rb := Brushed(a, p, sel), Brushed(b, p, sel);
    assert ra.plots[p].circles == rb.plots[p].circles;
    assert ra.plots == rb.plots;
  }

  /** A zero-width rectangle selects exactly the circles on its edge line. */
  lemma ZeroWidthBrush(page: Page, p: nat, x: real, y0: real, y1: real, i: nat)
    requires p < |page.plots| && i < |page.plots[p].circles|
    ensures var c := page.plots[p].circles[i];
      var flag := Brushed(page, p, Some(Rect(x, y0, x, y1))).plots[p].circles[i].selected;
      flag <==> c.point.cx == x && y0 <= c.point.cy <= y1
  {
  }

  /** The corners are used as given: a rectangle with `x0 > x1` or `y0 > y1`
      selects nothing. */
  lemma InvertedBrushSelectsNothing(page: Page, p: nat, r: Rect, i: nat)
    requires p < |page.plots| && i < |page.plots[p].circles|
    requires r.x1 < r.x0 || r.y1 < r.y0
    ensures !Brushed(page, p, Some(r)).plots[p].circles[i].selected
  {
  }

  /** The background click: removes the `selected` class from every circle of
      the page and every item from the list. */
  function BackgroundClick(page: Page): (r: Page)
    ensures |r.plots| == |page.plots|
    ensures forall q :: 0 <= q < |r.plots| ==> SameShape(page.plots[q].circles, r.plots[q].circles)
    ensures NoneSelected(r.plots)
    ensures r.list == []
    ensures ListShowsSelection(r)
  {
    var plots := seq(|page.plots|, q requires 0 <= q < |page.plots| => Plot(ClearFlags(page.plots[q].circles)));
    NothingSelectedNoData(plots);
    Page(plots, [])
  }

  /** Same circles and opacities, flags aside. */
  predicate SameShape(a: seq<Circle>, b: seq<Circle>) {
    && |a| == |b|
    && forall i :: 0 <= i < |a| ==> a[i].point == b[i].point && a[i].opacity == b[i].opacity
  }

  /** Clicking the background twice is the same as clicking it once. */
  lemma BackgroundClickIdempotent(page: Page)
    ensures BackgroundClick(BackgroundClick(page)) == BackgroundClick(page)
  {
    var once := BackgroundClick(page);
    var twice := BackgroundClick(once);
    forall q | 0 <= q < |page.plots| ensures twice.plots[q] == once.plots[q] {
      assert twice.plots[q].circles == once.plots[q].circles;
    }
  }

  /** After a background click, the null brush selection that resetting the
      brush reports changes nothing. */
  lemma ClickThenNullBrushIsClick(page: Page, p: nat)
    requires p < |page.plots|
    ensures Brushed(BackgroundClick(page), p, None) == BackgroundClick(page)
  {
    var c := BackgroundClick(page);
    var r := Brushed(c, p, None);
    assert r.plots[p].circles == c.plots[p].circles;
    assert r.plots == c.plots;
  }

  /** Clearing the brush of plot `p` empties that plot's selection; the list
      keeps the circles still selected in other plots, and is empty when no
      other plot has any. */
  lemma NullBrushClearsPlot(page: Page, p: nat)
    requires p < |page.plots|
    ensures var r := Brushed(page, p, None);
      && (forall i :: 0 <= i < |r.plots[p].circles| ==> !r.plots[p].circles[i].selected)
      && (NoneSelected(page.plots[..p] + page.plots[p + 1..]) ==> r.list == [])
  {
    var r := Brushed(page, p, None);
    if NoneSelected(page.plots[..p] + page.plots[p + 1..]) {
      forall q, i | 0 <= q < |r.plots| && 0 <= i < |r.plots[q].circles|
        ensures !r.plots[q].circles[i].selected
      {
        if q < p {
          assert r.plots[q] == (page.plots[..p] + page.plots[p + 1..])[q];
        } else if q > p {
          assert r.plots[q] == (page.plots[..p] + page.plots[p + 1..])[q - 1];
        }
      }
      NothingSelectedNoData(r.plots);
    }
  }

  /** Legend mouseover on category `cat` in plot `p`: the circles of that
      category go to full opacity, all other circles of the plot are dimmed. */
  function LegendOver(page: Page, p: nat, cat: string): (r: Page)
    requires p < |page.plots|
    ensures |r.plots| == |page.plots|
    ensures forall q :: 0 <= q < |r.plots| && q != p ==> r.plots[q] == page.plots[q]
    ensures SameMarks(page.plots[p].circles, r.plots[p].circles)
    ensures forall i :: 0 <= i < |r.plots[p].circles| ==>
      var c := r.plots[p].circles[i];
      (c.opacity == HighlightOpacity <==> c.point.category == cat)
      && (c.opacity != HighlightOpacity ==> c.opacity == DimOpacity)
    ensures r.list == page.list
  {
    var cs := page.plots[p].circles;
    var lit := seq(|cs|, i requires 0 <= i < |cs| =>
      cs[i].(opacity := if cs[i].point.category == cat then HighlightOpacity else DimOpacity));
    page.(plots := page.plots[p := Plot(lit)])
  }

  /** Legend mouseout in plot `p`: every circle of the plot returns to the
      default opacity. */
  function LegendOut(page: Page, p: nat): (r: Page)
    requires p < |page.plots|
    ensures |r.plots| == |page.plots|
    ensures forall q :: 0 <= q < |r.plots| && q != p ==> r.plots[q] == page.plots[q]
    ensures SameMarks(page.plots[p].circles, r.plots[p].circles)
    ensures forall i :: 0 <= i < |r.plots[p].circles| ==> r.plots[p].circles[i].opacity == DefaultOpacity
    ensures r.list == page.list
  {
    var cs := page.plots[p].circles;
    page.(plots := page.plots[p := Plot(seq(|cs|, i requires 0 <= i < |cs| => cs[i].(opacity := DefaultOpacity)))])
  }

  /** Hovering never changes which data are selected, and so never breaks the
      agreement between the circles and the list. */
  lemma HoverKeepsSelection(page: Page, p: nat, cat: string)
    requires p < |page.plots|
    ensures SelectedData(LegendOver(page, p, cat).plots) == SelectedData(page.plots)
    ensures SelectedData(LegendOut(page, p).plots) == SelectedData(page.plots)
    ensures ListShowsSelection(page) ==> ListShowsSelection(LegendOver(page, p, cat))
    ensures ListShowsSelection(page) ==> ListShowsSelection(LegendOut(page, p))
  {
    var over, out := LegendOver(page, p, cat), LegendOut(page, p);
    assert SamePlotMarks(over.plots, page.plots) by {
      forall q | 0 <= q < |page.plots| ensures SameMarks(over.plots[q].circles, page.plots[q].circles) {
        if q != p {
          assert over.plots[q] == page.plots[q];
        }
      }
    }
    assert SamePlotMarks(out.plots, page.plots) by {
      forall q | 0 <= q < |page.plots| ensures SameMarks(out.plots[q].circles, page.plots[q].circles) {
        if q != p {
          assert out.plots[q] == page.plots[q];
        }
      }
    }
    SelectedDataIgnoresOpacity(over.plots, page.plots);
    SelectedDataIgnoresOpacity(out.plots, page.plots);
  }

  /** Mouseout undoes any mouseover: the page is as if it had never been
      hovered. */
  lemma OutUndoesOver(page: Page, p: nat, cat: string)
    requires p < |page.plots|
    ensures LegendOut(LegendOver(page, p, cat), p) == LegendOut(page, p)
  {
    var a, b := LegendOut(LegendOver(page, p, cat), p), LegendOut(page, p);
    assert a.plots[p].circles == b.plots[p].circles;
    assert a.plots == b.plots;
  }

  /** Mouseout restores exactly the opacity circles are drawn with: on a plot
      that has only just been drawn it changes nothing. */
  lemma OutRestoresDrawnOpacity(page: Page, points: seq<Point>)
    ensures LegendOut(AddPlot(page, points), |page.plots|) == AddPlot(page, points)
  {
    var drawn := AddPlot(page, points);
    var r := LegendOut(drawn, |page.plots|);
    assert r.plots[|page.plots|].circles == drawn.plots[|page.plots|].circles;
    assert r.plots == drawn.plots;
  }

  /** The data points a plot was drawn from. */
  function PlotData(pl: Plot): (points: seq<Point>)
    ensures |points| == |pl.circles|
    ensures forall i :: 0 <= i < |points| ==> points[i] == pl.circles[i].point
  {
    seq(|pl.circles|, i requires 0 <= i < |pl.circles| => pl.circles[i].point)
  }

  /** Hovering any entry of a plot's legend lights up at least one circle of
      that plot, and only circles of the hovered category. */
  lemma LegendEntryHighlightsItsPoints(page: Page, p: nat, k: nat)
    requires p < |page.plots|
    requires k < |Distinct(ColourValues(PlotData(page.plots[p])))|
    ensures var cat := Distinct(ColourValues(PlotData(page.plots[p])))[k];
      var cs := LegendOver(page, p, cat).plots[p].circles;
      && (exists i :: 0 <= i < |cs| && cs[i].opacity == HighlightOpacity)
      && (forall i :: 0 <= i < |cs| && cs[i].opacity == HighlightOpacity ==> cs[i].point.category == cat)
  {
    var points := PlotData(page.plots[p]);
    var cat := Distinct(ColourValues(points))[k];
    CategoriesCoverData(points);
    assert cat in Distinct(ColourValues(points));
    var i :| 0 <= i < |points| && points[i].category == cat;
    assert LegendOver(page, p, cat).plots[p].circles[i].opacity == HighlightOpacity;
  }
}
