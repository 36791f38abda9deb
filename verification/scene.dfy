/** The rendered state of a page of scatterplots: the data points with their
    pixel positions already computed, the circles drawn for them, the plots
    that own those circles, and the one list of selected items shared by every
    plot on the page. */
module Scene {

  /** A value that may be absent (the brush selection is null when cleared). */
  datatype Option<+T> = None | Some(value: T)

  /** The free-form fields of a car record that only the list line shows. */
  datatype Display = Display(
    model: string,
    country: string,
    price: string,
    mpg: string,
    engineSize: string,
    weight: string)

  /** One data record, with the outputs of the x and y scales (`cx`, `cy`)
      taken as given and the raw value of the colour field. */
  datatype Point = Point(cx: real, cy: real, category: string, display: Display)

  /** One drawn circle: its bound datum, whether it carries the CSS class
      `selected`, and its effective opacity. */
  datatype Circle = Circle(point: Point, selected: bool, opacity: real)

  /** The circles of one scatterplot, in data order. */
  datatype Plot = Plot(circles: seq<Circle>)

  /** Every plot on the page in document order, and the lines of the shared
      selected-items list. */
  datatype Page = Page(plots: seq<Plot>, list: seq<string>)

  /** A brush selection `[[x0, y0], [x1, y1]]` in pixel space, exactly as the
      brush reports it; nothing orders the corners. */
  datatype Rect = Rect(x0: real, y0: real, x1: real, y1: real)

  /** Opacity every circle is drawn with, and the one restored on mouseout. */
  const DefaultOpacity: real := 0.7
  /** Opacity of the circles of the hovered legend category. */
  const HighlightOpacity: real := 1.0
  /** Opacity of every other circle while a legend item is hovered. */
  const DimOpacity: real := 0.1

  /** The inclusive membership test of the brush handler. */
  predicate InRect(r: Rect, p: Point) {
    r.x0 <= p.cx && p.cx <= r.x1 && r.y0 <= p.cy && p.cy <= r.y1
  }

  /** The circles of a freshly drawn plot: one per point, unselected, at the
      default opacity. */
  function RenderCircles(points: seq<Point>): (cs: seq<Circle>)
    ensures |cs| == |points|
    ensures forall i :: 0 <= i < |cs| ==> cs[i].point == points[i]
    ensures forall i :: 0 <= i < |cs| ==> !cs[i].selected && cs[i].opacity == DefaultOpacity
  {
    if |points| == 0 then []
    else RenderCircles(points[..|points| - 1]) + [Circle(points[|points| - 1], false, DefaultOpacity)]
  }

  /** Every circle of the page in document order: the plots one after the
      other, each in data order. This is the order `d3.selectAll` visits. */
  function AllCircles(plots: seq<Plot>): (cs: seq<Circle>)
  {
    if |plots| == 0 then []
    else AllCircles(plots[..|plots| - 1]) + plots[|plots| - 1].circles
  }

  /** Two circle sequences agree on everything but opacity. */
  predicate SameMarks(a: seq<Circle>, b: seq<Circle>) {
    && |a| == |b|
    && forall i :: 0 <= i < |a| ==> a[i].point == b[i].point && a[i].selected == b[i].selected
  }

  /** Two pages' plots agree on everything but opacity. */
  predicate SamePlotMarks(ps: seq<Plot>, qs: seq<Plot>) {
    && |ps| == |qs|
    && forall q :: 0 <= q < |ps| ==> SameMarks(ps[q].circles, qs[q].circles)
  }

  /** No circle of any plot carries the `selected` class. */
  predicate NoneSelected(plots: seq<Plot>) {
    forall q, i :: 0 <= q < |plots| && 0 <= i < |plots[q].circles| ==> !plots[q].circles[i].selected
  }

  lemma AllCirclesAppend(plots: seq<Plot>, pl: Plot)
    ensures AllCircles(plots + [pl]) == AllCircles(plots) + pl.circles
  {
    assert (plots + [pl])[..|plots|] == plots;
  }

  /** Flattening respects "equal up to opacity". */
  lemma {:induction false} SameMarksFlatten(ps: seq<Plot>, qs: seq<Plot>)
    requires SamePlotMarks(ps, qs)
    ensures SameMarks(AllCircles(ps), AllCircles(qs))
  {
    if |ps| > 0 {
      var n := |ps| - 1;
      SameMarksFlatten(ps[..n], qs[..n]);
      var a: seq<Circle> := AllCircles(ps[..n]);
      var b: seq<Circle> := AllCircles(qs[..n]);
      var x: seq<Circle> := ps[n].circles;
      var y: seq<Circle> := qs[n].circles;
      assert SameMarks(x, y);
      forall i | 0 <= i < |a + x|
        ensures (a + x)[i].point == (b + y)[i].point && (a + x)[i].selected == (b + y)[i].selected
      {
        if i >= |a| {
          assert (a + x)[i] == x[i - |a|];
          assert (b + y)[i] == y[i - |a|];
        }
      }
    }
  }

  /** A page with no selected circle in any plot has none in its flattening. */
  lemma {:induction false} NoneSelectedFlatten(plots: seq<Plot>)
    requires NoneSelected(plots)
    ensures forall i :: 0 <= i < |AllCircles(plots)| ==> !AllCircles(plots)[i].selected
  {
    if |plots| > 0 {
      var n := |plots| - 1;
      assert NoneSelected(plots[..n]) by {
        forall q, i | 0 <= q < n && 0 <= i < |plots[..n][q].circles|
          ensures !plots[..n][q].circles[i].selected
        {
          assert plots[..n][q] == plots[q];
        }
      }
      NoneSelectedFlatten(plots[..n]);
      var a: seq<Circle> := AllCircles(plots[..n]);
      var x: seq<Circle> := plots[n].circles;
      forall i | 0 <= i < |a + x| ensures !(a + x)[i].selected {
        if i >= |a| {
          assert (a + x)[i] == x[i - |a|];
        }
      }
    }
  }
}
