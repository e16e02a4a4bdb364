/** The placement pass as a pure specification: what one full layout pass
    computes, section by section. The layout class's PrepareLayout is proved
    to build exactly this; the lemmas below state what the pass promises. */
module Placement {
  import opened Options
  import opened Geometry
  import opened Elements
  import Columns

  /** The layout-wide properties (defaults for the per-section values). */
  datatype Config = Config(
    columnCount: int,
    minimumColumnSpacing: real,
    minimumInteritemSpacing: real,
    headerHeight: real,
    footerHeight: real,
    headerInset: Insets,
    footerInset: Insets,
    sectionInset: Insets,
    headerStickyHeight: real,
    headerStickyInset: Insets)

  /** What the delegate's optional per-section methods answer; None when the
      delegate does not implement that method. */
  datatype Overrides = Overrides(
    interitemSpacing: Option<real>,
    sectionInset: Option<Insets>,
    headerHeight: Option<real>,
    headerInset: Option<Insets>,
    footerHeight: Option<real>,
    footerInset: Option<Insets>)

  /** One section as the host sees it: its overrides and, per item, the size the
      delegate's mandatory size method returns (the item count is its length). */
  datatype SectionInput = SectionInput(overrides: Overrides, itemSizes: seq<Size>)

  /** What a pass reads from the collection view: its frame width and sections. */
  datatype Host = Host(width: real, sections: seq<SectionInput>)

  /** The effective per-section values. */
  datatype Metrics = Metrics(
    interitemSpacing: real,
    sectionInset: Insets,
    headerHeight: real,
    headerInset: Insets,
    footerHeight: real,
    footerInset: Insets)

  /** The derived state a pass builds (the layout's fields). */
  datatype Built = Built(
    columnHeights: seq<real>,
    sectionItems: seq<seq<Attributes>>,
    all: seq<Attributes>,
    sticky: map<nat, Attributes>,
    headers: map<nat, Attributes>,
    footers: map<nat, Attributes>)

  /** The built state together with the running `top` cursor. */
  datatype Pass = Pass(top: real, built: Built)

  /** Where an item goes: its section, the section's left inset, the column
      width and the two spacings. */
  datatype ItemGeometry = ItemGeometry(
    section: nat, left: real, itemWidth: real, columnSpacing: real, interitemSpacing: real)

  function Uniform(n: nat, v: real): (r: seq<real>)
    ensures |r| == n && forall c :: 0 <= c < n ==> r[c] == v
  {
    seq(n, _ => v)
  }

  /** A section value wins over the layout default. */
  function Resolve(cfg: Config, ov: Overrides): Metrics {
    Metrics(
      ov.interitemSpacing.GetOr(cfg.minimumInteritemSpacing),
      ov.sectionInset.GetOr(cfg.sectionInset),
      ov.headerHeight.GetOr(cfg.headerHeight),
      ov.headerInset.GetOr(cfg.headerInset),
      ov.footerHeight.GetOr(cfg.footerHeight),
      ov.footerInset.GetOr(cfg.footerInset))
  }

  function SectionMetrics(cfg: Config, host: Host, s: nat): Metrics
    requires s < |host.sections|
  {
    Resolve(cfg, host.sections[s].overrides)
  }

  /** The column width: what is left of the width after the section insets
      and the column gaps, shared by the columns and rounded down. */
  function ItemWidth(cfg: Config, width: real, inset: Insets): real
    requires cfg.columnCount > 0
  {
    var available := width - inset.left - inset.right;
    ((available - (cfg.columnCount - 1) as real * cfg.minimumColumnSpacing) / cfg.columnCount as real).Floor as real
  }

  /** The columns fit in the section's width, and rounding down loses less
      than one point per column. */
  lemma ItemWidthFits(cfg: Config, width: real, inset: Insets)
    requires cfg.columnCount > 0
    ensures var n := cfg.columnCount as real;
            var available := width - inset.left - inset.right;
            var used := n * ItemWidth(cfg, width, inset) + (n - 1.0) * cfg.minimumColumnSpacing;
            used <= available && available < used + n
  {
    var n := cfg.columnCount as real;
    var available := width - inset.left - inset.right;
    var x := available - (cfg.columnCount - 1) as real * cfg.minimumColumnSpacing;
    assert (cfg.columnCount - 1) as real * cfg.minimumColumnSpacing == (n - 1.0) * cfg.minimumColumnSpacing;
    assert ItemWidth(cfg, width, inset) == (x / n).Floor as real;
    FloorTimes(x, n);
  }

  /** Rounding x/n down and multiplying back by n loses less than n. */
  lemma FloorTimes(x: real, n: real)
    requires n > 0.0
    ensures n * ((x / n).Floor as real) <= x < n * ((x / n).Floor as real) + n
  {
    var q := x / n;
    var w := q.Floor as real;
    assert n * q == x;
    MultiplyMonotone(n, w, q);
    assert q < w + 1.0;
    MultiplyStrict(n, q, w + 1.0);
    assert n * (w + 1.0) == n * w + n;
    assert x < n * w + n;
  }

  lemma MultiplyStrict(n: real, a: real, b: real)
    requires n > 0.0 && a < b
    ensures n * a < n * b
  {
  }

  lemma MultiplyMonotone(n: real, a: real, b: real)
    requires n > 0.0 && a <= b
    ensures n * a <= n * b
  {
  }

  function ItemGeometryOf(cfg: Config, width: real, s: nat, m: Metrics): ItemGeometry
    requires cfg.columnCount > 0
  {
    ItemGeometry(s, m.sectionInset.left, ItemWidth(cfg, width, m.sectionInset),
                 cfg.minimumColumnSpacing, m.interitemSpacing)
  }

  /** The left edge of column c. */
  function ColumnX(g: ItemGeometry, c: nat): real {
    g.left + (g.itemWidth + g.columnSpacing) * c as real
  }

  /** Every column lies inside the section: no further left than the left inset
      and no further right than the width minus the right inset. */
  lemma ColumnWithinSection(cfg: Config, width: real, s: nat, m: Metrics, c: nat)
    requires cfg.columnCount > 0 && c < cfg.columnCount
    requires ItemWidth(cfg, width, m.sectionInset) >= 0.0 && cfg.minimumColumnSpacing >= 0.0
    ensures var g := ItemGeometryOf(cfg, width, s, m);
            m.sectionInset.left <= ColumnX(g, c) &&
            ColumnX(g, c) + g.itemWidth <= width - m.sectionInset.right
  {
    ItemWidthFits(cfg, width, m.sectionInset);
    ColumnsFit(m.sectionInset.left, m.sectionInset.right, width, ItemWidth(cfg, width, m.sectionInset),
               cfg.minimumColumnSpacing, cfg.columnCount as real, c as real);
  }

  /** The arithmetic of ColumnWithinSection: n columns of width w with gaps sp
      that fit between the insets leave column c inside them. */
  lemma ColumnsFit(left: real, right: real, width: real, w: real, sp: real, n: real, c: real)
    requires w >= 0.0 && sp >= 0.0 && 0.0 <= c <= n - 1.0
    requires n * w + (n - 1.0) * sp <= width - left - right
    ensures left <= left + (w + sp) * c
    ensures left + (w + sp) * c + w <= width - right
  {
    MultiplyMonotone(w + sp + 1.0, 0.0, c);
    assert (w + sp) * c <= (w + sp) * (n - 1.0) by {
      MultiplyMonotone(w + sp + 1.0, c, n - 1.0);
    }
    assert (w + sp) * (n - 1.0) + w == n * w + (n - 1.0) * sp;
  }

  /** The height an item gets: the supplied aspect ratio at the column width,
      or 0 when the supplied size is not positive in both directions. */
  function ItemHeight(size: Size, itemWidth: real): real {
    if size.height > 0.0 && size.width > 0.0 then size.height * itemWidth / size.width else 0.0
  }

  /** A positive supplied size keeps its aspect ratio; anything else gives a
      zero-height item, never an error. */
  lemma ItemHeightKeepsAspect(size: Size, itemWidth: real)
    ensures size.height > 0.0 && size.width > 0.0 ==>
              ItemHeight(size, itemWidth) * size.width == size.height * itemWidth &&
              (itemWidth >= 0.0 ==> ItemHeight(size, itemWidth) >= 0.0)
    ensures !(size.height > 0.0 && size.width > 0.0) ==> ItemHeight(size, itemWidth) == 0.0
  {
    if size.height > 0.0 && size.width > 0.0 {
      var h := size.height * itemWidth / size.width;
      assert h * size.width == size.height * itemWidth;
      if itemWidth >= 0.0 {
        assert size.height * itemWidth >= 0.0;
      }
    }
  }

  /** Item k goes into the shortest column, at that column's current height;
      the column then grows to the item's bottom plus the interitem spacing. */
  function PlaceItem(g: ItemGeometry, k: nat, size: Size, cols: seq<real>): (r: (seq<real>, Attributes))
    requires |cols| > 0
  {
    var c := Columns.ShortestIndex(cols);
    var frame := Rect(ColumnX(g, c), cols[c], g.itemWidth, ItemHeight(size, g.itemWidth));
    (cols[c := MaxY(frame) + g.interitemSpacing], Attributes(Cell, g.section, k, frame, CellZIndex))
  }

  /** The item loop of one section, from the given column heights. */
  function PlaceItems(g: ItemGeometry, sizes: seq<Size>, cols: seq<real>): (r: (seq<real>, seq<Attributes>))
    requires |cols| > 0
    ensures |r.0| == |cols| && |r.1| == |sizes|
    decreases |sizes|
  {
    if |sizes| == 0 then (cols, [])
    else
      var prev := PlaceItems(g, sizes[..|sizes| - 1], cols);
      var next := PlaceItem(g, |sizes| - 1, sizes[|sizes| - 1], prev.0);
      (next.0, prev.1 + [next.1])
  }

  /** The column item k of the section went into. */
  function ChosenColumn(g: ItemGeometry, sizes: seq<Size>, cols: seq<real>, k: nat): nat
    requires |cols| > 0 && k <= |sizes|
  {
    Columns.ShortestIndex(PlaceItems(g, sizes[..k], cols).0)
  }

  /** Placing the first idx + 1 items is placing the
      first idx and then item idx. */
  lemma PlaceItemsExtend(g: ItemGeometry, sizes: seq<Size>, cols: seq<real>, idx: nat)
    requires |cols| > 0 && idx < |sizes|
    ensures var prev := PlaceItems(g, sizes[..idx], cols);
            var next := PlaceItem(g, idx, sizes[idx], prev.0);
            PlaceItems(g, sizes[..idx + 1], cols) == (next.0, prev.1 + [next.1])
  {
    assert sizes[..idx + 1][..idx] == sizes[..idx];
  }

  /** Placing one more item leaves the earlier items and the earlier choices as they were. */
  lemma PlaceItemsPrefix(g: ItemGeometry, sizes: seq<Size>, cols: seq<real>, k: nat)
    requires |cols| > 0 && k < |sizes|
    ensures PlaceItems(g, sizes, cols).1[k] == PlaceItems(g, sizes[..k + 1], cols).1[k]
    decreases |sizes|
  {
    if k < |sizes| - 1 {
      var init := sizes[..|sizes| - 1];
      assert init[..k + 1] == sizes[..k + 1];
      PlaceItemsPrefix(g, init, cols, k);
    } else {
      assert sizes[..k + 1] == sizes;
    }
  }

  /** Item k: a cell of the section at index k, column width wide, as tall as
      ItemHeight says, at the left edge of a shortest column and at that
      column's height before it was placed. */
  lemma {:induction false} PlacedItem(g: ItemGeometry, sizes: seq<Size>, cols: seq<real>, k: nat)
    requires |cols| > 0 && k < |sizes|
    ensures var before := PlaceItems(g, sizes[..k], cols).0;
            var c := ChosenColumn(g, sizes, cols, k);
            var a := PlaceItems(g, sizes, cols).1[k];
            c < |cols| && (forall j :: 0 <= j < |before| ==> before[c] <= before[j]) &&
            a == Attributes(Cell, g.section, k,
                            Rect(ColumnX(g, c), before[c], g.itemWidth, ItemHeight(sizes[k], g.itemWidth)),
                            CellZIndex) &&
            PlaceItems(g, sizes[..k + 1], cols).0 == before[c := MaxY(a.frame) + g.interitemSpacing]
  {
    PlaceItemsPrefix(g, sizes, cols, k);
    var pre := sizes[..k + 1];
    assert pre[..|pre| - 1] == sizes[..k];
    assert pre[|pre| - 1] == sizes[k];
  }

  /** With a non-negative spacing, placing items never lowers a column. */
  lemma {:induction false} ColumnsNeverShrink(g: ItemGeometry, sizes: seq<Size>, cols: seq<real>)
    requires |cols| > 0 && g.interitemSpacing >= 0.0
    ensures forall c :: 0 <= c < |cols| ==> cols[c] <= PlaceItems(g, sizes, cols).0[c]
    decreases |sizes|
  {
    if |sizes| > 0 {
      ColumnsNeverShrink(g, sizes[..|sizes| - 1], cols);
    }
  }

  /** With a non-negative spacing, every placed item ends at least the spacing
      above the current height of the column it went into. */
  lemma {:induction false} ColumnCoversItems(g: ItemGeometry, sizes: seq<Size>, cols: seq<real>)
    requires |cols| > 0 && g.interitemSpacing >= 0.0
    ensures forall i :: 0 <= i < |sizes| ==>
              MaxY(PlaceItems(g, sizes, cols).1[i].frame) + g.interitemSpacing
                <= PlaceItems(g, sizes, cols).0[ChosenColumn(g, sizes, cols, i)]
    decreases |sizes|
  {
    if |sizes| > 0 {
      var n := |sizes| - 1;
      var init := sizes[..n];
      var r := PlaceItems(g, sizes, cols);
      var prev := PlaceItems(g, init, cols);
      assert sizes[..n + 1] == sizes;
      ColumnCoversItems(g, init, cols);
      PlacedItem(g, sizes, cols, n);
      forall i | 0 <= i < |sizes|
        ensures MaxY(r.1[i].frame) + g.interitemSpacing <= r.0[ChosenColumn(g, sizes, cols, i)]
      {
        if i < n {
          assert init[..i] == sizes[..i];
          assert r.1[i] == prev.1[i];
          var c := ChosenColumn(g, sizes, cols, i);
          assert c == ChosenColumn(g, init, cols, i);
          assert prev.0[c] <= r.0[c];
        }
      }
    }
  }

  /** Items placed in the same column do not overlap: a later one starts at
      least the spacing below the bottom of an earlier one. */
  lemma SameColumnNoOverlap(g: ItemGeometry, sizes: seq<Size>, cols: seq<real>, i: nat, j: nat)
    requires |cols| > 0 && g.interitemSpacing >= 0.0
    requires i < j < |sizes| && ChosenColumn(g, sizes, cols, i) == ChosenColumn(g, sizes, cols, j)
    ensures var items := PlaceItems(g, sizes, cols).1;
            MaxY(items[i].frame) + g.interitemSpacing <= items[j].frame.y
  {
    var pre := sizes[..j];
    assert pre[..i] == sizes[..i];
    ColumnCoversItems(g, pre, cols);
    PlaceItemsPrefix(g, sizes, cols, i);
    PlaceItemsPrefix(g, pre, cols, i);
    assert pre[..i + 1] == sizes[..i + 1];
    PlacedItem(g, sizes, cols, j);
  }

  /** With a non-negative spacing, every item starts no higher than the lowest
      starting column height, and ends at least the spacing above the longest column. */
  lemma ItemsBetweenStartAndLongest(g: ItemGeometry, sizes: seq<Size>, start: real, n: nat)
    requires n > 0 && g.interitemSpacing >= 0.0 && start >= 0.0
    ensures var r := PlaceItems(g, sizes, Uniform(n, start));
            forall i :: 0 <= i < |sizes| ==>
              start <= r.1[i].frame.y &&
              MaxY(r.1[i].frame) + g.interitemSpacing <= r.0[Columns.LongestIndex(r.0)]
  {
    var cols := Uniform(n, start);
    var r := PlaceItems(g, sizes, cols);
    ColumnCoversItems(g, sizes, cols);
    ColumnsNeverShrink(g, sizes, cols);
    Columns.LongestIsMaximumWhenNonNegative(r.0);
    forall i | 0 <= i < |sizes|
      ensures start <= r.1[i].frame.y
    {
      PlacedItem(g, sizes, cols, i);
      ColumnsNeverShrink(g, sizes[..i], cols);
    }
  }

  // ---------------------------------------------------------------------------
  // One section, step by step.

  function StickyHeaderAttributes(cfg: Config, width: real, s: nat, top: real): Attributes {
    var inset := cfg.headerStickyInset;
    Attributes(Supplementary(StickyHeader), s, 0,
               Rect(inset.left, top, width - (inset.left + inset.right), cfg.headerStickyHeight),
               StickyZIndex)
  }

  /** The sticky header, placed when the layout's sticky height is positive. */
  function StickyStep(cfg: Config, width: real, s: nat, p: Pass): Pass {
    if cfg.headerStickyHeight > 0.0 then
      var a := StickyHeaderAttributes(cfg, width, s, p.top);
      Pass(MaxY(a.frame) + cfg.headerStickyInset.bottom, p.built.(sticky := p.built.sticky[s := a]))
    else p
  }

  function HeaderAttributes(m: Metrics, width: real, s: nat, top: real): Attributes {
    var inset := m.headerInset;
    Attributes(Supplementary(SectionHeader), s, 0,
               Rect(inset.left, top, width - (inset.left + inset.right), m.headerHeight), HeaderZIndex)
  }

  /** The section header, after the header inset's top, when its height is positive. */
  function HeaderStep(m: Metrics, width: real, s: nat, p: Pass): Pass {
    var top := p.top + m.headerInset.top;
    if m.headerHeight > 0.0 then
      var a := HeaderAttributes(m, width, s, top);
      Pass(MaxY(a.frame) + m.headerInset.bottom,
           p.built.(headers := p.built.headers[s := a], all := p.built.all + [a]))
    else Pass(top, p.built)
  }

  /** The items: every column starts at the cursor plus the section's top
      inset; afterwards the cursor is the longest column minus the spacing
      after its last item, plus the section's bottom inset. */
  function ItemsStep(n: nat, g: ItemGeometry, m: Metrics, sizes: seq<Size>, p: Pass): Pass
    requires n > 0
  {
    var placed := PlaceItems(g, sizes, Uniform(n, p.top + m.sectionInset.top));
    var cols := placed.0;
    Pass(cols[Columns.LongestIndex(cols)] - m.interitemSpacing + m.sectionInset.bottom,
         p.built.(columnHeights := cols,
                  sectionItems := p.built.sectionItems + [placed.1],
                  all := p.built.all + placed.1))
  }

  function FooterAttributes(m: Metrics, width: real, s: nat, top: real): Attributes {
    var inset := m.footerInset;
    Attributes(Supplementary(SectionFooter), s, 0,
               Rect(inset.left, top, width - (inset.left + inset.right), m.footerHeight), HeaderZIndex)
  }

  /** The footer, after the footer inset's top, when its height is positive;
      then every column is set to the cursor. */
  function FooterStep(n: nat, m: Metrics, width: real, s: nat, p: Pass): Pass {
    var top := p.top + m.footerInset.top;
    if m.footerHeight > 0.0 then
      var a := FooterAttributes(m, width, s, top);
      var next := MaxY(a.frame) + m.footerInset.bottom;
      Pass(next, p.built.(columnHeights := Uniform(n, next),
                          footers := p.built.footers[s := a], all := p.built.all + [a]))
    else Pass(top, p.built.(columnHeights := Uniform(n, top)))
  }

  /** The part of a section before its items. */
  function HeadStep(cfg: Config, width: real, s: nat, m: Metrics, p: Pass): Pass {
    HeaderStep(m, width, s, StickyStep(cfg, width, s, p))
  }

  /** One whole section. */
  function SectionStep(cfg: Config, width: real, s: nat, sec: SectionInput, p: Pass): Pass
    requires cfg.columnCount > 0
  {
    var n := cfg.columnCount as nat;
    var m := Resolve(cfg, sec.overrides);
    var g := ItemGeometryOf(cfg, width, s, m);
    FooterStep(n, m, width, s, ItemsStep(n, g, m, sec.itemSizes, HeadStep(cfg, width, s, m, p)))
  }

  /** The state before any section: every column at 0, nothing placed. */
  function Initial(cfg: Config): Pass
    requires cfg.columnCount > 0
  {
    Pass(0.0, Built(Uniform(cfg.columnCount as nat, 0.0), [], [], map[], map[], map[]))
  }

  /** The pass after its first k sections. */
  function PassUpTo(cfg: Config, host: Host, k: nat): Pass
    requires cfg.columnCount > 0 && k <= |host.sections|
    decreases k
  {
    if k == 0 then Initial(cfg)
    else SectionStep(cfg, host.width, k - 1, host.sections[k - 1], PassUpTo(cfg, host, k - 1))
  }

  /** What a full pass builds. */
  function Prepared(cfg: Config, host: Host): Pass
    requires cfg.columnCount > 0
  {
    PassUpTo(cfg, host, |host.sections|)
  }

  /** The cursor where section s's items start. */
  function ItemsTop(cfg: Config, host: Host, s: nat): real
    requires cfg.columnCount > 0 && s < |host.sections|
  {
    var m := SectionMetrics(cfg, host, s);
    HeadStep(cfg, host.width, s, m, PassUpTo(cfg, host, s)).top + m.sectionInset.top
  }

  /** Section s's item placement. */
  function SectionPlacement(cfg: Config, host: Host, s: nat): (seq<real>, seq<Attributes>)
    requires cfg.columnCount > 0 && s < |host.sections|
  {
    var m := SectionMetrics(cfg, host, s);
    PlaceItems(ItemGeometryOf(cfg, host.width, s, m), host.sections[s].itemSizes,
               Uniform(cfg.columnCount as nat, ItemsTop(cfg, host, s)))
  }
}
