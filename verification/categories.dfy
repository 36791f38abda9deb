/** The legend categories: the distinct values of the colour field in order of
    first occurrence, as `[...new Set(values)]` yields them, and the vertical
    placement of one legend row per category. */
module Categories {
  import opened Scene

  /** Pixel distance between the tops of consecutive legend rows. */
  const RowSpacing: int := 30

  predicate NoDuplicates<T(==)>(xs: seq<T>) {
    forall i, j :: 0 <= i < j < |xs| ==> xs[i] != xs[j]
  }

  /** Index of the first occurrence of `v` in `xs`. */
  function FirstIndex(xs: seq<string>, v: string): (k: nat)
    requires v in xs
    ensures k < |xs| && xs[k] == v && v !in xs[..k]
  {
    if xs[0] == v then 0 else 1 + FirstIndex(xs[1..], v)
  }

  /** The colour-field values of `points`, in data order. */
  function ColourValues(points: seq<Point>): (vs: seq<string>)
    ensures |vs| == |points|
    ensures forall i :: 0 <= i < |vs| ==> vs[i] == points[i].category
  {
    seq(|points|, i requires 0 <= i < |points| => points[i].category)
  }

  /** The distinct elements of `xs`, each kept where it first occurs. */
  function Distinct(xs: seq<string>): (r: seq<string>)
  {
    if |xs| == 0 then []
    else
      var d := Distinct(xs[..|xs| - 1]);
      if xs[|xs| - 1] in d then d else d + [xs[|xs| - 1]]
  }

  /** `r` lists the elements of `xs` once each, ordered by first occurrence. */
  ghost predicate FirstOccurrenceOrder(xs: seq<string>, r: seq<string>) {
    && NoDuplicates(r)
    && (forall v :: v in r <==> v in xs)
    && (forall i, j :: 0 <= i < j < |r| ==> FirstIndex(xs, r[i]) < FirstIndex(xs, r[j]))
  }

  /** Appending an element keeps the first occurrence of everything already
      present, and a new element first occurs at the end. */
  lemma FirstIndexExtend(xs: seq<string>, last: string)
    ensures forall v :: v in xs ==> FirstIndex(xs + [last], v) == FirstIndex(xs, v)
    ensures last !in xs ==> FirstIndex(xs + [last], last) == |xs|
  {
    forall v | v in xs
      ensures FirstIndex(xs + [last], v) == FirstIndex(xs, v)
    {
      var k := FirstIndex(xs, v);
      assert (xs + [last])[k] == v;
    }
  }

  /** The categories have no duplicates, cover exactly the colour values, and
      come in order of first occurrence. */
  lemma {:induction false} DistinctSpec(xs: seq<string>)
    ensures FirstOccurrenceOrder(xs, Distinct(xs))
  {
    if |xs| > 0 {
      var init, last := xs[..|xs| - 1], xs[|xs| - 1];
      assert xs == init + [last];
      DistinctSpec(init);
      if last in Distinct(init) {
        RepeatKeepsOrder(init, last, Distinct(init));
      } else {
        NewValueExtendsOrder(init, last, Distinct(init));
      }
    }
  }

  /** A value seen before leaves the categories as they were. */
  lemma RepeatKeepsOrder(init: seq<string>, last: string, d: seq<string>)
    requires FirstOccurrenceOrder(init, d) && last in d
    ensures FirstOccurrenceOrder(init + [last], d)
  {
    FirstIndexExtend(init, last);
    var xs := init + [last];
    forall v ensures v in d <==> v in xs {
      assert v in xs <==> v in init || v == last;
    }
  }

  /** A value not seen before goes at the end of the categories. */
  lemma NewValueExtendsOrder(init: seq<string>, last: string, d: seq<string>)
    requires FirstOccurrenceOrder(init, d) && last !in d
    ensures FirstOccurrenceOrder(init + [last], d + [last])
  {
    FirstIndexExtend(init, last);
    var xs, r := init + [last], d + [last];
    forall v ensures v in r <==> v in xs {
      assert v in xs <==> v in init || v == last;
      assert v in r <==> v in d || v == last;
    }
    assert forall i :: 0 <= i < |d| ==> r[i] == d[i] && r[i] in init;
    assert FirstIndex(xs, last) == |init|;
    assert forall i :: 0 <= i < |d| ==> FirstIndex(xs, r[i]) < |init|;
  }

  /** Every element of `a` occurs in `xs`, and `a` is ordered by first
      occurrence in `xs`. */
  ghost predicate OrderedBy(xs: seq<string>, a: seq<string>) {
    && (forall i :: 0 <= i < |a| ==> a[i] in xs)
    && (forall i, j :: 0 <= i < j < |a| ==> FirstIndex(xs, a[i]) < FirstIndex(xs, a[j]))
  }

  /** Two sequences with the same elements, both ordered by first occurrence
      in `xs`, end with the same element. */
  lemma LastsAgree(xs: seq<string>, a: seq<string>, b: seq<string>)
    requires OrderedBy(xs, a) && OrderedBy(xs, b) && |a| > 0 && |b| > 0
    requires forall v :: v in a <==> v in b
    ensures a[|a| - 1] == b[|b| - 1]
  {
    var la, lb := a[|a| - 1], b[|b| - 1];
    assert la in b && lb in a;
  }

  /** Dropping the common last element of two duplicate-free sequences with
      the same elements leaves two sequences with the same elements. */
  lemma DropLastSameElements(a: seq<string>, b: seq<string>, a': seq<string>, b': seq<string>, l: string)
    requires NoDuplicates(a) && NoDuplicates(b)
    requires a == a' + [l] && b == b' + [l]
    requires forall v :: v in a <==> v in b
    ensures forall v :: v in a' <==> v in b'
  {
    forall i | 0 <= i < |a'| ensures a'[i] != l {
      assert a[i] == a'[i] && a[|a'|] == l;
    }
    forall i | 0 <= i < |b'| ensures b'[i] != l {
      assert b[i] == b'[i] && b[|b'|] == l;
    }
    forall v ensures v in a' <==> v in b' {
      assert v in a' <==> v in a && v != l;
      assert v in b' <==> v in b && v != l;
    }
  }

  /** Sequences with the same elements are empty together. */
  lemma EmptyTogether(a: seq<string>, b: seq<string>)
    requires forall v :: v in a <==> v in b
    ensures |a| == 0 <==> |b| == 0
  {
    if |a| > 0 {
      assert a[0] in b;
    }
    if |b| > 0 {
      assert b[0] in a;
    }
  }

  /** Two duplicate-free sequences with the same elements, both ordered by
      first occurrence in `xs`, are equal. */
  lemma {:induction false} SameElementsOrdered(xs: seq<string>, a: seq<string>, b: seq<string>)
    requires NoDuplicates(a) && NoDuplicates(b)
    requires OrderedBy(xs, a) && OrderedBy(xs, b)
    requires forall v :: v in a <==> v in b
    ensures a == b
    decreases |a|
  {
    EmptyTogether(a, b);
    if |a| > 0 {
      LastsAgree(xs, a, b);
      var a', b' := a[..|a| - 1], b[..|b| - 1];
      assert a == a' + [a[|a| - 1]];
      assert b == b' + [a[|a| - 1]];
      DropLastSameElements(a, b, a', b', a[|a| - 1]);
      assert OrderedBy(xs, a');
      assert OrderedBy(xs, b');
      SameElementsOrdered(xs, a', b');
    }
  }

  /** The three properties pin the categories down completely: any sequence
      that lists the values once each in order of first occurrence is
      `Distinct(xs)`. */
  lemma DistinctUnique(xs: seq<string>, r: seq<string>)
    requires FirstOccurrenceOrder(xs, r)
    ensures r == Distinct(xs)
  {
    DistinctSpec(xs);
    var d := Distinct(xs);
    assert forall v :: v in r <==> v in d;
    SameElementsOrdered(xs, r, d);
  }

  /** The legend categories of a plot, computed as the source does: walk the
      colour values once, keeping a set of the values seen so far and
      appending each value the first time it is met. */
  method CategoriesOf(points: seq<Point>) returns (cats: seq<string>)
    ensures cats == Distinct(ColourValues(points))
  {
    var values := ColourValues(points);
    var seen: set<string> := {};
    cats := [];
    var i := 0;
    while i < |values|
      invariant 0 <= i <= |values|
      invariant cats == Distinct(values[..i])
      invariant forall v :: v in seen <==> v in values[..i]
    {
      assert values[..i + 1][..i] == values[..i];
      DistinctSpec(values[..i]);
      if values[i] !in seen {
        seen := seen + {values[i]};
        cats := cats + [values[i]];
      }
      i := i + 1;
    }
    assert values[..|values|] == values;
  }

  /** Every colour value present in the data appears in the legend, and every
      legend entry is the colour value of some point. */
  lemma CategoriesCoverData(points: seq<Point>)
    ensures forall i :: 0 <= i < |points| ==> points[i].category in Distinct(ColourValues(points))
    ensures forall c :: c in Distinct(ColourValues(points)) ==>
      exists i :: 0 <= i < |points| && points[i].category == c
  {
    var vs := ColourValues(points);
    DistinctSpec(vs);
    forall i | 0 <= i < |points| ensures points[i].category in Distinct(vs) {
      assert vs[i] == points[i].category;
    }
  }

  /** One row of the legend: the category it names and its vertical offset
      inside the legend group. */
  datatype LegendRow = LegendRow(category: string, offsetY: int)

  /** The legend drawn for a category list: row `i` names category `i` and
      sits `RowSpacing * i` pixels below the first. */
  function Legend(cats: seq<string>): (rows: seq<LegendRow>)
    ensures |rows| == |cats|
    ensures forall i :: 0 <= i < |rows| ==> rows[i].category == cats[i]
    ensures forall i :: 0 <= i < |rows| ==> rows[i].offsetY == RowSpacing * i
  {
    if |cats| == 0 then []
    else Legend(cats[..|cats| - 1]) + [LegendRow(cats[|cats| - 1], RowSpacing * (|cats| - 1))]
  }

  /** The legend names every category once: no two rows share a category. */
  lemma LegendNamesEachCategoryOnce(points: seq<Point>)
    ensures var rows := Legend(Distinct(ColourValues(points)));
      forall i, j :: 0 <= i < j < |rows| ==> rows[i].category != rows[j].category
  {
    DistinctSpec(ColourValues(points));
  }
}
