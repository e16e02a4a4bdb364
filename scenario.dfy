/** A worked example of one section: two columns 145 wide with 10 between
    them in a 300-wide view, five items. */
module Scenario {
  import opened Options
  import opened Geometry
  import opened Placement

  const Sizes: seq<Size> := [Size(100.0, 50.0), Size(100.0, 100.0), Size(100.0, 25.0), Size(100.0, 75.0), Size(100.0, 50.0)]

  const Geometry2: ItemGeometry := ItemGeometry(0, 0.0, 145.0, 10.0, 10.0)

  /** floor((300 - 10) / 2) = 145. */
  lemma ScenarioItemWidth(cfg: Config)
    requires cfg.columnCount == 2 && cfg.minimumColumnSpacing == 10.0
    ensures ItemWidth(cfg, 300.0, ZeroInsets) == 145.0
  {
    assert (300.0 - 0.0 - 0.0 - (2 - 1) as real * 10.0) / 2 as real == 145.0;
  }

  /** The items go to columns 0, 1, 0, 0, 1: the third item leaves column 0
      at 128.75, still below column 1 at 155, so the fourth goes there too. */
  lemma ScenarioColumns()
    ensures var r := PlaceItems(Geometry2, Sizes, [0.0, 0.0]);
            r.1[0].frame == Rect(0.0, 0.0, 145.0, 72.5) &&
            r.1[1].frame == Rect(155.0, 0.0, 145.0, 145.0) &&
            r.1[2].frame == Rect(0.0, 82.5, 145.0, 36.25) &&
            r.1[3].frame == Rect(0.0, 128.75, 145.0, 108.75) &&
            r.1[4].frame == Rect(155.0, 155.0, 145.0, 72.5) &&
            r.0 == [247.5, 237.5]
  {
    var g := Geometry2;
    var c0 := [0.0, 0.0];
    assert PlaceItems(g, Sizes[..0], c0) == (c0, []);
    var p1 := PlaceItem(g, 0, Sizes[0], c0);
    assert p1.0 == [82.5, 0.0];
    var p2 := PlaceItem(g, 1, Sizes[1], p1.0);
    assert p2.0 == [82.5, 155.0];
    var p3 := PlaceItem(g, 2, Sizes[2], p2.0);
    assert p3.0 == [128.75, 155.0];
    var p4 := PlaceItem(g, 3, Sizes[3], p3.0);
    assert p4.0 == [247.5, 155.0];
    var p5 := PlaceItem(g, 4, Sizes[4], p4.0);
    assert p5.0 == [247.5, 237.5];
    PlaceItemsExtend(g, Sizes, c0, 0);
    PlaceItemsExtend(g, Sizes, c0, 1);
    PlaceItemsExtend(g, Sizes, c0, 2);
    PlaceItemsExtend(g, Sizes, c0, 3);
    PlaceItemsExtend(g, Sizes, c0, 4);
    assert Sizes[..5] == Sizes;
  }

  /** The layout's default properties. */
  const Defaults: Config := Config(2, 10.0, 10.0, 0.0, 0.0, ZeroInsets, ZeroInsets, ZeroInsets, 0.0, ZeroInsets)

  /** The same section laid out by a whole pass with the default properties:
      the stored items are the five above, and the content ends at the longest
      column, 247.5, less the trailing spacing of 10. */
  lemma ScenarioPass()
    ensures var host := Host(300.0, [SectionInput(Overrides(None, None, None, None, None, None), Sizes)]);
            var p := Prepared(Defaults, host);
            p.built.sectionItems == [PlaceItems(Geometry2, Sizes, [0.0, 0.0]).1] &&
            p.top == 237.5 && p.built.columnHeights == [237.5, 237.5]
  {
    var host := Host(300.0, [SectionInput(Overrides(None, None, None, None, None, None), Sizes)]);
    var m := SectionMetrics(Defaults, host, 0);
    ScenarioItemWidth(Defaults);
    assert ItemGeometryOf(Defaults, 300.0, 0, m) == Geometry2;
    assert Uniform(2, 0.0) == [0.0, 0.0];
    ScenarioColumns();
    var p0 := PassUpTo(Defaults, host, 0);
    var h := HeadStep(Defaults, 300.0, 0, m, p0);
    assert h.top == 0.0;
    var it := ItemsStep(2, Geometry2, m, Sizes, h);
    assert Columns.LongestIndex([247.5, 237.5]) == 0;
    assert it.top == 237.5;
    assert it.built.sectionItems == [PlaceItems(Geometry2, Sizes, [0.0, 0.0]).1];
    assert Uniform(2, 237.5) == [237.5, 237.5];
  }
}
