# Scatterplot selection and highlight model

A Dafny model of the selection state machine of a D3 scatterplot
(`js/scatterplot.problem.js`). Each plot draws one circle per data record.
Dragging a rectangular brush marks the circles inside it with the CSS class
`selected`. Clicking the plot background clears every selection on the page.
Hovering a legend entry highlights the circles of one colour category. A list
shared by all plots on the page shows one line per selected circle.

The model is functional. A `Page` holds the page's plots in document order
and the lines of the shared list. Each `Plot` is a sequence of `Circle`s. A
circle is the record bound to it (`Point`), its `selected` flag and its
opacity. Each event handler is a pure function from page to page.

The page holds several plots because the source mixes two scopes.
`d3.selectAll("circle")` in the click handler and `circle.selected` in
`updateList` cover every circle on the page. The brush and legend handlers
only touch their own plot's `circles`. Modules:

- `Scene` (scene.dfy): points, circles, plots, the page, the brush rectangle
  and the inclusive membership test, the three opacity constants, and the
  document-order flattening of the page.
- `Categories` (categories.dfy): the legend categories, meaning the distinct
  colour values in order of first occurrence (`[...new Set(...)]`), and the
  placement of legend rows.
- `ListView` (list_view.dfy): the selected data in document order, the list
  line template, and `updateList`.
- `Selection` (selection.dfy): drawing a plot, the brush handler, the
  background click, and legend mouseover/mouseout.
- `Events` (events.dfy): one event type for all gestures, `Step`/`Run`, the
  invariant that the list always matches the selected circles, and the
  three-point worked example.

The x and y scales are inputs: each `Point` carries its pixel position
`cx`, `cy`. Display fields are strings because CSV loading gives strings and
the template literal interpolates them as they are.

Two consequences of the code worth stating plainly:

- Inverted rectangles (`x0 > x1` or `y0 > y1`) are not normalised. They
  select nothing (`Selection.InvertedBrushSelectsNothing`).
- A null brush clears only its own plot's flags. The list is rebuilt from the
  whole page, so it empties only when no other plot still has a selection
  (`Selection.NullBrushClearsPlot`).

## Model

| member | source | states |
|---|---|---|
| `Selection.Brushed` | js/scatterplot.problem.js:68-85 | After a brush event on plot p, a circle of p is selected iff the selection is non-null and `x0 <= cx <= x1 && y0 <= cy <= y1` (inclusive). Points and opacities are unchanged, every other plot is untouched, and the list shows exactly the page's selected circles. |
| `Selection.BrushForgetsPreviousSelection` | js/scatterplot.problem.js:78-84 | Brushing depends on the current rectangle alone. Two pages that differ only in the brushed plot's flags and in the list give identical results. |
| `Selection.ZeroWidthBrush` | js/scatterplot.problem.js:76-82 | A zero-width rectangle at x selects exactly the circles with `cx == x` and `y0 <= cy <= y1`. |
| `Selection.InvertedBrushSelectsNothing` | js/scatterplot.problem.js:76-82 | The corners are not reordered: a rectangle with `x1 < x0` or `y1 < y0` selects no circle. |
| `Selection.NullBrushClearsPlot` | js/scatterplot.problem.js:70-73 | A null brush unselects every circle of its plot. The list is then empty whenever no other plot has a selected circle. |
| `Selection.BackgroundClick` | js/scatterplot.problem.js:88-94 | After a background click no circle on the page is selected and the list is empty, which matches the empty selection. Points and opacities are unchanged. |
| `Selection.BackgroundClickIdempotent` | js/scatterplot.problem.js:88-93 | Clicking the background twice gives the same page as clicking once. |
| `Selection.ClickThenNullBrushIsClick` | js/scatterplot.problem.js:90-92 | After a click, the null selection reported by resetting the brush changes nothing. |
| `Selection.LegendOver` | js/scatterplot.problem.js:122-125 | Mouseover on category c gives opacity 1 to exactly the plot's circles whose colour field equals c and 0.1 to all the others. Flags, points, other plots and the list are unchanged. |
| `Selection.LegendOut` | js/scatterplot.problem.js:126-128 | Mouseout sets every circle of the plot to opacity 0.7. Flags, points, other plots and the list are unchanged. |
| `Selection.HoverKeepsSelection` | js/scatterplot.problem.js:122-128 | Hovering never changes the page's selected data, so a list that matched the selection still matches it. |
| `Selection.OutUndoesOver` | js/scatterplot.problem.js:122-128 | Mouseout after any mouseover gives the same page as mouseout alone. |
| `Selection.OutRestoresDrawnOpacity` | js/scatterplot.problem.js:48 | Mouseout restores the opacity circles are drawn with, so on a freshly drawn plot it changes nothing. |
| `Selection.AddPlot` | js/scatterplot.problem.js:40-49 | A new plot draws one circle per point, in data order, unselected, at opacity 0.7. The list is unchanged and still matches the selection. |
| `Selection.LegendEntryHighlightsItsPoints` | js/scatterplot.problem.js:97-124 | Hovering any legend entry of a plot gives full opacity to at least one of its circles, and only to circles of that category. |
| `ListView.SelectedPositions` | js/scatterplot.problem.js:132 | The positions of the selected circles in document order: strictly increasing, each one selected, every selected circle listed, and as many positions as selected circles. |
| `ListView.SelectedData` | js/scatterplot.problem.js:132 | The page's selected data has one entry per selected circle on the page, and entry k is the datum bound to the k-th selected circle in document order. |
| `ListView.UpdateList` | js/scatterplot.problem.js:131-146 | After `updateList` the circles are unchanged. The list has exactly as many lines as the page has selected circles. Line k is the fixed template over the k-th selected circle in document order. |
| `ListView.ListInDocumentOrder` | js/scatterplot.problem.js:139-145 | An earlier list line belongs to an earlier circle in document order, not an earlier selection. |
| `ListView.UpdateListIdempotent` | js/scatterplot.problem.js:135 | The list is rebuilt from scratch: its previous contents do not matter, and calling it twice equals calling it once. |
| `ListView.UpdateListFixesConsistentPage` | js/scatterplot.problem.js:135-145 | On a page whose list already matches its selection, `updateList` changes nothing. |
| `ListView.SelectedDataIgnoresOpacity` | js/scatterplot.problem.js:132 | The selected data depends only on points and flags, never on opacity. |
| `Categories.DistinctSpec` | js/scatterplot.problem.js:97 | The categories have no duplicates, hold exactly the colour values of the data, and are ordered by first occurrence. |
| `Categories.DistinctUnique` | js/scatterplot.problem.js:97 | Any sequence with those three properties equals the categories, so they pin the legend order down completely. |
| `Categories.CategoriesOf` | js/scatterplot.problem.js:97 | Walking the values once with a seen-set, appending each value the first time it is met, gives exactly the categories. |
| `Categories.CategoriesCoverData` | js/scatterplot.problem.js:97 | Every point's colour value is a category, and every category is the colour value of some point. |
| `Categories.Legend` | js/scatterplot.problem.js:102-107 | One legend row per category in category order. Row i sits 30·i pixels below the first. |
| `Categories.LegendNamesEachCategoryOnce` | js/scatterplot.problem.js:97-107 | No two legend rows name the same category. |
| `Events.StepKeepsListInSync` | js/scatterplot.problem.js:68-128 | Every handler (draw, brush, click, mouseover, mouseout) keeps the list equal to the lines of the page's selected circles in document order. |
| `Events.RunKeepsListInSync` | js/scatterplot.problem.js:68-146 | Over any sequence of events the list keeps matching the selection, and its length equals the number of selected circles. |
| `Events.ReachableListInSync` | js/scatterplot.problem.js:40-146 | On every page reachable from the blank page, the list and the circles agree. |
| `Events.ThreePointExample` | js/scatterplot.problem.js:68-85 | Points at (10,10), (50,50), (90,90) brushed with [[0,0],[60,60]]: the first two are selected and the list holds their two lines in data order. A following null brush empties both flags and list. |

## Left out

- The d3 scales (`scaleLinear().nice()`, `scaleSqrt`, `scaleOrdinal(schemeTableau10)`, lines 25-37) are floating-point library code. `cx` and `cy` are given inputs. Radius and fill colour are not modelled, because no handler reads them.
- SVG construction is pure rendering and is not modelled: the svg, title, axes, chart transform, legend group, swatch `rect` and label `text` (lines 6-22, 51-57, 99-119). Only the legend rows' order and 30-pixel spacing are kept.
- The brush's internals and its extent (lines 60-66) are not modelled. The brush is an external source of `sel`.
- `brush.move(null)` at line 92 is d3 internals and is not modelled. Its observable effect, a null brush event on that plot, is shown to change nothing after a click (`Selection.ClickThenNullBrushIsClick`).
- The `event.target.tagName === "svg"` hit test (line 89) is not modelled. The click is a "background clicked" event.
- Data loading, string-to-number coercion (`+d[xCol]`) and the join key `d => d.index` (line 41) are left out. On a fresh `enter()` the key does not change the order in which circles bind to data.
- Opacity is modelled as one effective value per circle. The source sets an attribute at drawing time and a style on hover, and the style wins. The model does not keep them apart.
- Document order is an assumption: `d3.selectAll` (lines 90, 132) visits circles in the DOM order of the plots' `ax` containers. The model assumes each plot's container comes after the containers of the plots drawn before it, so document order is plots in drawing order, each plot's circles in data order.
- `Events.Step`: a gesture naming a plot that does not exist changes nothing, because there is no element for it to fire on.
