/** The waterfall layout object: its configurable properties, the state a
    layout pass stores, and the operations the collection view calls. Each
    method is proved against the pure specification of the pass
    (Placement.Prepared), of the index (UnionIndex.UnionRectsOf) and of the
    query (Query.RectQuery). */
module WaterfallLayout {
  import opened Options
  import opened Geometry
  import opened Elements
  import Columns
  import opened Placement
  import opened PassGeometry
  import opened UnionIndex
  import opened Query
  import opened PassFacts
  import opened LayoutState
  import QueryState

  /** Collects, element by element, the sections that have a cell and no
      sticky header among `attrs`. */
  method CollectMissingSections(attrs: seq<Attributes>) returns (missing: set<nat>)
    ensures missing == MissingSections(attrs)
  {
    missing := {};
    var i := 0;
    while i < |attrs|
      invariant 0 <= i <= |attrs|
      invariant missing == MissingSections(attrs[..i])
    {
      var a := attrs[i];
      if a.category == Cell {
        missing := missing + {a.section};
      }
      if a.category == Supplementary(StickyHeader) {
        missing := missing - {a.section};
      }
      assert attrs[..i + 1][..i] == attrs[..i];
      i := i + 1;
    }
    assert attrs[..|attrs|] == attrs;
  }

  /** The pinning loop's step over the answer. */
  lemma PinEachExtend(b: Built, attrs: seq<Attributes>, k: nat, offsetY: real)
    requires k < |attrs|
    requires forall i :: 0 <= i < |attrs| && IsSticky(attrs[i]) ==> Pinnable(b, attrs[i])
    ensures PinEach(b, attrs[..k + 1], offsetY) ==
            PinEach(b, attrs[..k], offsetY) + [if IsSticky(attrs[k]) then Pin(b, attrs[k], offsetY) else attrs[k]]
  {
    assert attrs[..k + 1][..k] == attrs[..k];
  }

  /** The pinning loop's step over the stored sticky headers. */
  lemma WriteBackExtend(sticky: map<nat, Attributes>, result: seq<Attributes>, visCount: nat, a: Attributes)
    requires visCount <= |result|
    ensures WriteBack(sticky, (result + [a])[visCount..]) == WriteBack(sticky, result[visCount..])[a.section := a]
  {
    var p := (result + [a])[visCount..];
    assert p[..|p| - 1] == result[visCount..];
  }

  class Layout {
    // The configurable properties.
    var columnCount: int
    var minimumColumnSpacing: real
    var minimumInteritemSpacing: real
    var headerHeight: real
    var footerHeight: real
    var headerInset: Insets
    var footerInset: Insets
    var sectionInset: Insets
    var headerStickyHeight: real
    var headerStickyInset: Insets

    /** How many times the layout has been invalidated. */
    var invalidations: nat

    // The state a layout pass builds.
    var columnHeights: seq<real>
    var sectionItemAttributes: seq<seq<Attributes>>
    var allItemAttributes: seq<Attributes>
    var headersStickyAttribute: map<nat, Attributes>
    var headersAttribute: map<nat, Attributes>
    var footersAttribute: map<nat, Attributes>
    var unionRects: seq<Rect>

    function ConfigOf(): Config
      reads this`columnCount, this`minimumColumnSpacing, this`minimumInteritemSpacing, this`headerHeight,
            this`footerHeight, this`headerInset, this`footerInset, this`sectionInset, this`headerStickyHeight,
            this`headerStickyInset
    {
      Config(columnCount, minimumColumnSpacing, minimumInteritemSpacing, headerHeight, footerHeight,
             headerInset, footerInset, sectionInset, headerStickyHeight, headerStickyInset)
    }

    function Snapshot(): Built
      reads this`columnHeights, this`sectionItemAttributes, this`allItemAttributes,
            this`headersStickyAttribute, this`headersAttribute, this`footersAttribute
    {
      Built(columnHeights, sectionItemAttributes, allItemAttributes,
            headersStickyAttribute, headersAttribute, footersAttribute)
    }

    /** The stored state is one the lookups and the query can work on: stored
        cells have their slots, sticky headers are keyed by their section and
        kept out of the flat list, and the union rectangles index the flat list. */
    ghost predicate Valid()
      reads this
    {
      Consistent(Snapshot(), unionRects)
    }

    /** Two columns, both spacings 10, every height and inset 0, nothing laid out. */
    constructor ()
      ensures ConfigOf() == Config(2, 10.0, 10.0, 0.0, 0.0, ZeroInsets, ZeroInsets, ZeroInsets, 0.0, ZeroInsets)
      ensures Snapshot() == Built([], [], [], map[], map[], map[]) && unionRects == []
      ensures invalidations == 0
      ensures Valid()
    {
      columnCount := 2;
      minimumColumnSpacing := 10.0;
      minimumInteritemSpacing := 10.0;
      headerHeight := 0.0;
      footerHeight := 0.0;
      headerInset := ZeroInsets;
      footerInset := ZeroInsets;
      sectionInset := ZeroInsets;
      headerStickyHeight := 0.0;
      headerStickyInset := ZeroInsets;
      invalidations := 0;
      columnHeights := [];
      sectionItemAttributes := [];
      allItemAttributes := [];
      headersStickyAttribute := map[];
      headersAttribute := map[];
      footersAttribute := map[];
      unionRects := [];
    }

    // -------------------------------------------------------------------------
    // The property setters: each stores the new value and invalidates the
    // layout when the value changed.

    /** Invalidates the layout when the two values differ. */
    method InvalidateIfNotEqual<T(==)>(oldValue: T, newValue: T)
      modifies this
      ensures invalidations == old(invalidations) + (if oldValue == newValue then 0 else 1)
      ensures ConfigOf() == old(ConfigOf()) && Snapshot() == old(Snapshot()) && unionRects == old(unionRects)
    {
      if oldValue != newValue {
        invalidations := invalidations + 1;
      }
    }

    method SetColumnCount(value: int)
      modifies this
      ensures ConfigOf() == old(ConfigOf()).(columnCount := value)
      ensures invalidations == old(invalidations) + (if old(columnCount) == value then 0 else 1)
      ensures Snapshot() == old(Snapshot()) && unionRects == old(unionRects)
    {
      var oldValue := columnCount;
      columnCount := value;
      InvalidateIfNotEqual(oldValue, columnCount);
    }

    method SetMinimumColumnSpacing(value: real)
      modifies this
      ensures ConfigOf() == old(ConfigOf()).(minimumColumnSpacing := value)
      ensures invalidations == old(invalidations) + (if old(minimumColumnSpacing) == value then 0 else 1)
      ensures Snapshot() == old(Snapshot()) && unionRects == old(unionRects)
    {
      var oldValue := minimumColumnSpacing;
      minimumColumnSpacing := value;
      InvalidateIfNotEqual(oldValue, minimumColumnSpacing);
    }

    method SetMinimumInteritemSpacing(value: real)
      modifies this
      ensures ConfigOf() == old(ConfigOf()).(minimumInteritemSpacing := value)
      ensures invalidations == old(invalidations) + (if old(minimumInteritemSpacing) == value then 0 else 1)
      ensures Snapshot() == old(Snapshot()) && unionRects == old(unionRects)
    {
      var oldValue := minimumInteritemSpacing;
      minimumInteritemSpacing := value;
      InvalidateIfNotEqual(oldValue, minimumInteritemSpacing);
    }

    method SetHeaderHeight(value: real)
      modifies this
      ensures ConfigOf() == old(ConfigOf()).(headerHeight := value)
      ensures invalidations == old(invalidations) + (if old(headerHeight) == value then 0 else 1)
      ensures Snapshot() == old(Snapshot()) && unionRects == old(unionRects)
    {
      var oldValue := headerHeight;
      headerHeight := value;
      InvalidateIfNotEqual(oldValue, headerHeight);
    }

    method SetFooterHeight(value: real)
      modifies this
      ensures ConfigOf() == old(ConfigOf()).(footerHeight := value)
      ensures invalidations == old(invalidations) + (if old(footerHeight) == value then 0 else 1)
      ensures Snapshot() == old(Snapshot()) && unionRects == old(unionRects)
    {
      var oldValue := footerHeight;
      footerHeight := value;
      InvalidateIfNotEqual(oldValue, footerHeight);
    }

    method SetHeaderInset(value: Insets)
      modifies this
      ensures ConfigOf() == old(ConfigOf()).(headerInset := value)
      ensures invalidations == old(invalidations) + (if old(headerInset) == value then 0 else 1)
      ensures Snapshot() == old(Snapshot()) && unionRects == old(unionRects)
    {
      var oldValue := headerInset;
      headerInset := value;
      InvalidateIfNotEqual(oldValue, headerInset);
    }

    method SetFooterInset(value: Insets)
      modifies this
      ensures ConfigOf() == old(ConfigOf()).(footerInset := value)
      ensures invalidations == old(invalidations) + (if old(footerInset) == value then 0 else 1)
      ensures Snapshot() == old(Snapshot()) && unionRects == old(unionRects)
    {
      var oldValue := footerInset;
      footerInset := value;
      InvalidateIfNotEqual(oldValue, footerInset);
    }

    method SetSectionInset(value: Insets)
      modifies this
      ensures ConfigOf() == old(ConfigOf()).(sectionInset := value)
      ensures invalidations == old(invalidations) + (if old(sectionInset) == value then 0 else 1)
      ensures Snapshot() == old(Snapshot()) && unionRects == old(unionRects)
    {
      var oldValue := sectionInset;
      sectionInset := value;
      InvalidateIfNotEqual(oldValue, sectionInset);
    }

    method SetHeaderStickyHeight(value: real)
      modifies this
      ensures ConfigOf() == old(ConfigOf()).(headerStickyHeight := value)
      ensures invalidations == old(invalidations) + (if old(headerStickyHeight) == value then 0 else 1)
      ensures Snapshot() == old(Snapshot()) && unionRects == old(unionRects)
    {
      var oldValue := headerStickyHeight;
      headerStickyHeight := value;
      InvalidateIfNotEqual(oldValue, headerStickyHeight);
    }

    method SetHeaderStickyInset(value: Insets)
      modifies this
      ensures ConfigOf() == old(ConfigOf()).(headerStickyInset := value)
      ensures invalidations == old(invalidations) + (if old(headerStickyInset) == value then 0 else 1)
      ensures Snapshot() == old(Snapshot()) && unionRects == old(unionRects)
    {
      var oldValue := headerStickyInset;
      headerStickyInset := value;
      InvalidateIfNotEqual(oldValue, headerStickyInset);
    }

    // -------------------------------------------------------------------------
    // The column scans.

    /** The first column of least height (0 when there are no columns). */
    method ShortestColumnIndex() returns (index: nat)
      ensures index == Columns.ShortestIndex(columnHeights)
      ensures |columnHeights| > 0 ==>
                index < |columnHeights| &&
                (forall j :: 0 <= j < |columnHeights| ==> columnHeights[index] <= columnHeights[j]) &&
                (forall j :: 0 <= j < index ==> columnHeights[index] < columnHeights[j])
    {
      index := 0;
      var shortestHeight := 0.0;
      var idx := 0;
      while idx < |columnHeights|
        invariant 0 <= idx <= |columnHeights|
        invariant index == Columns.ShortestIndex(columnHeights[..idx])
        invariant idx > 0 ==> index < idx && shortestHeight == columnHeights[index]
      {
        var height := columnHeights[idx];
        assert columnHeights[..idx + 1][..idx] == columnHeights[..idx];
        if idx == 0 || height < shortestHeight {
          shortestHeight := height;
          index := idx;
        }
        idx := idx + 1;
      }
      assert columnHeights[..|columnHeights|] == columnHeights;
    }

    /** The first column of greatest height, counting only heights above 0. */
    method LongestColumnIndex() returns (index: nat)
      ensures index == Columns.LongestIndex(columnHeights)
      ensures (exists j :: 0 <= j < |columnHeights| && columnHeights[j] > 0.0) ==>
                index < |columnHeights| &&
                (forall j :: 0 <= j < |columnHeights| ==> columnHeights[j] <= columnHeights[index]) &&
                (forall j :: 0 <= j < index ==> columnHeights[j] < columnHeights[index])
      ensures (forall j :: 0 <= j < |columnHeights| ==> columnHeights[j] <= 0.0) ==> index == 0
    {
      index := 0;
      var longestHeight := 0.0;
      var idx := 0;
      while idx < |columnHeights|
        invariant 0 <= idx <= |columnHeights|
        invariant (index, longestHeight) == Columns.LongestScan(columnHeights[..idx])
      {
        var height := columnHeights[idx];
        assert columnHeights[..idx + 1][..idx] == columnHeights[..idx];
        if height > longestHeight {
          longestHeight := height;
          index := idx;
        }
        idx := idx + 1;
      }
      assert columnHeights[..|columnHeights|] == columnHeights;
      Columns.LongestIsFirstMaximum(columnHeights);
    }

    // -------------------------------------------------------------------------
    // The layout pass, block by block.

    /** Sets every column to `top`. */
    method ResetColumns(top: real)
      requires columnCount >= 0 && |columnHeights| == columnCount
      modifies this
      ensures ConfigOf() == old(ConfigOf()) && invalidations == old(invalidations) && unionRects == old(unionRects)
      ensures columnHeights == Uniform(columnCount as nat, top)
      ensures Snapshot() == old(Snapshot()).(columnHeights := columnHeights)
    {
      var idx := 0;
      while idx < columnCount
        invariant 0 <= idx <= columnCount && |columnHeights| == columnCount
        invariant forall c :: 0 <= c < idx ==> columnHeights[c] == top
        invariant Snapshot() == old(Snapshot()).(columnHeights := columnHeights)
        invariant ConfigOf() == old(ConfigOf()) && invalidations == old(invalidations) && unionRects == old(unionRects)
      {
        columnHeights := columnHeights[idx := top];
        idx := idx + 1;
      }
    }

    /** The sticky header of section s at `top`, when the sticky height is positive. */
    method AddStickyHeader(width: real, s: nat, top: real) returns (next: real)
      modifies this
      ensures Pass(next, Snapshot()) == StickyStep(ConfigOf(), width, s, Pass(top, old(Snapshot())))
      ensures ConfigOf() == old(ConfigOf()) && invalidations == old(invalidations) && unionRects == old(unionRects)
    {
      next := top;
      if headerStickyHeight > 0.0 {
        var frame := Rect(headerStickyInset.left, top, width - (headerStickyInset.left + headerStickyInset.right),
                          headerStickyHeight);
        var attributes := Attributes(Supplementary(StickyHeader), s, 0, frame, StickyZIndex);
        headersStickyAttribute := headersStickyAttribute[s := attributes];
        next := MaxY(attributes.frame) + headerStickyInset.bottom;
      }
    }

    /** The section header, after the header inset's top, when its height is positive. */
    method AddSectionHeader(width: real, s: nat, m: Metrics, top: real) returns (next: real)
      modifies this
      ensures Pass(next, Snapshot()) == HeaderStep(m, width, s, Pass(top, old(Snapshot())))
      ensures ConfigOf() == old(ConfigOf()) && invalidations == old(invalidations) && unionRects == old(unionRects)
    {
      next := top + m.headerInset.top;
      if m.headerHeight > 0.0 {
        var frame := Rect(m.headerInset.left, next, width - (m.headerInset.left + m.headerInset.right), m.headerHeight);
        var attributes := Attributes(Supplementary(SectionHeader), s, 0, frame, HeaderZIndex);
        headersAttribute := headersAttribute[s := attributes];
        allItemAttributes := allItemAttributes + [attributes];
        next := MaxY(attributes.frame) + m.headerInset.bottom;
      }
    }

    /** One item: it goes into the shortest column, at that column's height,
        and the column grows by its height and the interitem spacing. */
    method PlaceNextItem(g: ItemGeometry, idx: nat, size: Size) returns (attributes: Attributes)
      requires |columnHeights| > 0
      modifies this
      ensures (columnHeights, attributes) == PlaceItem(g, idx, size, old(columnHeights))
      ensures Snapshot() == old(Snapshot()).(columnHeights := columnHeights,
                                             all := old(allItemAttributes) + [attributes])
      ensures ConfigOf() == old(ConfigOf()) && invalidations == old(invalidations) && unionRects == old(unionRects)
    {
      var columnIndex := ShortestColumnIndex();
      var xOffset := g.left + (g.itemWidth + g.columnSpacing) * columnIndex as real;
      var yOffset := columnHeights[columnIndex];
      var itemHeight := 0.0;
      if size.height > 0.0 && size.width > 0.0 {
        itemHeight := size.height * g.itemWidth / size.width;
      }
      assert itemHeight == ItemHeight(size, g.itemWidth);
      attributes := Attributes(Cell, g.section, idx, Rect(xOffset, yOffset, g.itemWidth, itemHeight), CellZIndex);
      assert attributes == PlaceItem(g, idx, size, old(columnHeights)).1;
      allItemAttributes := allItemAttributes + [attributes];
      columnHeights := columnHeights[columnIndex := MaxY(attributes.frame) + g.interitemSpacing];
    }

    /** The item loop of one section. */
    method PlaceSectionItems(g: ItemGeometry, sizes: seq<Size>) returns (itemAttributes: seq<Attributes>)
      requires |columnHeights| > 0
      modifies this
      ensures (columnHeights, itemAttributes) == PlaceItems(g, sizes, old(columnHeights))
      ensures Snapshot() == old(Snapshot()).(columnHeights := columnHeights,
                                             all := old(allItemAttributes) + itemAttributes)
      ensures ConfigOf() == old(ConfigOf()) && invalidations == old(invalidations) && unionRects == old(unionRects)
    {
      itemAttributes := [];
      var idx := 0;
      while idx < |sizes|
        invariant 0 <= idx <= |sizes| && |columnHeights| == |old(columnHeights)|
        invariant (columnHeights, itemAttributes) == PlaceItems(g, sizes[..idx], old(columnHeights))
        invariant Snapshot() == old(Snapshot()).(columnHeights := columnHeights,
                                                 all := old(allItemAttributes) + itemAttributes)
        invariant ConfigOf() == old(ConfigOf()) && invalidations == old(invalidations) && unionRects == old(unionRects)
      {
        PlaceItemsExtend(g, sizes, old(columnHeights), idx);
        var attributes := PlaceNextItem(g, idx, sizes[idx]);
        itemAttributes := itemAttributes + [attributes];
        idx := idx + 1;
      }
      assert sizes[..|sizes|] == sizes;
    }

    /** The section footer, after the footer inset's top, when its height is
        positive; then every column is set to the cursor. */
    method AddSectionFooter(width: real, s: nat, m: Metrics, top: real) returns (next: real)
      requires columnCount >= 0 && |columnHeights| == columnCount
      modifies this
      ensures ConfigOf() == old(ConfigOf()) && invalidations == old(invalidations) && unionRects == old(unionRects)
      ensures Pass(next, Snapshot()) == FooterStep(columnCount as nat, m, width, s, Pass(top, old(Snapshot())))
    {
      next := top + m.footerInset.top;
      if m.footerHeight > 0.0 {
        var frame := Rect(m.footerInset.left, next, width - (m.footerInset.left + m.footerInset.right), m.footerHeight);
        var attributes := Attributes(Supplementary(SectionFooter), s, 0, frame, HeaderZIndex);
        footersAttribute := footersAttribute[s := attributes];
        allItemAttributes := allItemAttributes + [attributes];
        next := MaxY(attributes.frame) + m.footerInset.bottom;
      }
      ResetColumns(next);
    }

    /** One whole section: sticky header, header, items, footer. */
    method LayOutSection(host: Host, s: nat, top: real) returns (next: real)
      requires columnCount > 0 && s < |host.sections|
      requires Pass(top, Snapshot()) == PassUpTo(ConfigOf(), host, s)
      modifies this
      ensures ConfigOf() == old(ConfigOf()) && invalidations == old(invalidations) && unionRects == old(unionRects)
      ensures Pass(next, Snapshot()) == PassUpTo(ConfigOf(), host, s + 1)
    {
      ColumnsFlushAfterPass(ConfigOf(), host, s);
      ghost var cfg := ConfigOf();
      ghost var p0 := Pass(top, Snapshot());
      var m := SectionMetrics(ConfigOf(), host, s);
      var g := ItemGeometryOf(ConfigOf(), host.width, s, m);
      next := AddStickyHeader(host.width, s, top);
      next := AddSectionHeader(host.width, s, m, next);
      ghost var head := Pass(next, Snapshot());
      assert head == HeadStep(cfg, host.width, s, m, p0);
      next := LayOutItems(g, m, host.sections[s].itemSizes, next);
      next := AddSectionFooter(host.width, s, m, next);
    }

    /** The items of one section: every column starts at the cursor plus the
        section's top inset; afterwards the cursor is the longest column minus
        the interitem spacing, plus the section's bottom inset. */
    method LayOutItems(g: ItemGeometry, m: Metrics, sizes: seq<Size>, top: real) returns (next: real)
      requires columnCount > 0 && |columnHeights| == columnCount
      modifies this
      ensures ConfigOf() == old(ConfigOf()) && invalidations == old(invalidations) && unionRects == old(unionRects)
      ensures Pass(next, Snapshot()) == ItemsStep(columnCount as nat, g, m, sizes, Pass(top, old(Snapshot())))
    {
      next := top + m.sectionInset.top;
      ResetColumns(next);
      var itemAttributes := PlaceSectionItems(g, sizes);
      sectionItemAttributes := sectionItemAttributes + [itemAttributes];
      var columnIndex := LongestColumnIndex();
      next := columnHeights[columnIndex] - m.interitemSpacing + m.sectionInset.bottom;
    }

    /** One union rectangle per run of UnionSize flat elements, joining the
        frames of the run's first and last element. */
    method BuildUnionRects()
      requires unionRects == []
      modifies this
      ensures unionRects == UnionRectsOf(allItemAttributes)
      ensures Snapshot() == old(Snapshot()) && ConfigOf() == old(ConfigOf()) && invalidations == old(invalidations)
    {
      var idx := 0;
      var itemCounts := |allItemAttributes|;
      while idx < itemCounts
        invariant 0 <= idx <= itemCounts && itemCounts == |allItemAttributes|
        invariant |unionRects| <= BucketCount(itemCounts)
        invariant idx == if BucketFirst(|unionRects|) < itemCounts then BucketFirst(|unionRects|) else itemCounts
        invariant unionRects == UnionRectsOf(allItemAttributes)[..|unionRects|]
        invariant Snapshot() == old(Snapshot()) && ConfigOf() == old(ConfigOf()) && invalidations == old(invalidations)
        decreases itemCounts - idx
      {
        ghost var k := |unionRects|;
        var rect1 := allItemAttributes[idx].frame;
        idx := (if idx + UnionSize < itemCounts then idx + UnionSize else itemCounts) - 1;
        var rect2 := allItemAttributes[idx].frame;
        assert idx == BucketLast(itemCounts, k);
        unionRects := unionRects + [Union(rect1, rect2)];
        idx := idx + 1;
      }
    }

    /** Clears the stored state and starts every column at 0. */
    method ResetState()
      requires columnCount > 0
      modifies this
      ensures ConfigOf() == old(ConfigOf()) && invalidations == old(invalidations)
      ensures Pass(0.0, Snapshot()) == Initial(ConfigOf()) && unionRects == []
    {
      ClearState();
      AppendZeroColumns();
      assert Snapshot() == Built(Uniform(columnCount as nat, 0.0), [], [], map[], map[], map[]);
    }

    /** Empties every stored collection. */
    method ClearState()
      modifies this`columnHeights, this`sectionItemAttributes, this`allItemAttributes, this`unionRects
      modifies this`headersStickyAttribute, this`headersAttribute, this`footersAttribute
      ensures columnHeights == [] && sectionItemAttributes == [] && allItemAttributes == [] && unionRects == []
      ensures headersStickyAttribute == map[] && headersAttribute == map[] && footersAttribute == map[]
    {
      headersStickyAttribute := map[];
      headersAttribute := map[];
      footersAttribute := map[];
      unionRects := [];
      columnHeights := [];
      allItemAttributes := [];
      sectionItemAttributes := [];
    }

    /** Appends one column of height 0 per column. */
    method AppendZeroColumns()
      requires columnCount > 0 && columnHeights == []
      modifies this
      ensures ConfigOf() == old(ConfigOf()) && invalidations == old(invalidations) && unionRects == old(unionRects)
      ensures columnHeights == Uniform(columnCount as nat, 0.0)
      ensures Snapshot() == old(Snapshot()).(columnHeights := columnHeights)
    {
      var c := 0;
      while c < columnCount
        invariant 0 <= c <= columnCount && |columnHeights| == c
        invariant forall i :: 0 <= i < c ==> columnHeights[i] == 0.0
        invariant Snapshot() == old(Snapshot()).(columnHeights := columnHeights)
        invariant ConfigOf() == old(ConfigOf()) && invalidations == old(invalidations) && unionRects == old(unionRects)
      {
        columnHeights := columnHeights + [0.0];
        c := c + 1;
      }
      assert columnHeights == Uniform(columnCount as nat, 0.0);
    }

    /** The layout pass. With no sections nothing changes; otherwise the state
        is rebuilt from scratch and is exactly what the pure pass builds. */
    method PrepareLayout(host: Host)
      requires Valid()
      requires |host.sections| == 0 || columnCount > 0
      modifies this
      ensures ConfigOf() == old(ConfigOf()) && invalidations == old(invalidations)
      ensures |host.sections| == 0 ==> Snapshot() == old(Snapshot()) && unionRects == old(unionRects)
      ensures |host.sections| > 0 ==>
                Snapshot() == Prepared(ConfigOf(), host).built && unionRects == UnionRectsOf(allItemAttributes)
      ensures Valid()
    {
      if |host.sections| == 0 {
        return;
      }
      Rebuild(host);
      PreparedConsistent(ConfigOf(), host);
    }

    /** The pass proper: clear the state, lay out every section in order, then
        index the flat list. */
    method Rebuild(host: Host)
      requires columnCount > 0
      modifies this
      ensures ConfigOf() == old(ConfigOf()) && invalidations == old(invalidations)
      ensures Snapshot() == Prepared(ConfigOf(), host).built && unionRects == UnionRectsOf(allItemAttributes)
    {
      ResetState();
      LayOutSections(host);
      BuildUnionRects();
    }

    /** The section loop, from the cleared state. */
    method LayOutSections(host: Host)
      requires columnCount > 0 && Pass(0.0, Snapshot()) == Initial(ConfigOf())
      modifies this
      ensures ConfigOf() == old(ConfigOf()) && invalidations == old(invalidations) && unionRects == old(unionRects)
      ensures Snapshot() == Prepared(ConfigOf(), host).built
    {
      var top := 0.0;
      var section := 0;
      while section < |host.sections|
        invariant 0 <= section <= |host.sections| && columnCount > 0
        invariant Pass(top, Snapshot()) == PassUpTo(ConfigOf(), host, section)
        invariant ConfigOf() == old(ConfigOf()) && invalidations == old(invalidations) && unionRects == old(unionRects)
      {
        top := LayOutSection(host, section, top);
        section := section + 1;
      }
    }

    // -------------------------------------------------------------------------
    // The lookups.

    /** The content size: the bounds' width and column 0's height, or zero
        when there are no sections. */
    method CollectionViewContentSize(numberOfSections: nat, boundsSize: Size) returns (r: Size)
      requires numberOfSections == 0 || |columnHeights| > 0
      ensures numberOfSections == 0 ==> r == ZeroSize
      ensures numberOfSections > 0 ==> r == Size(boundsSize.width, columnHeights[0])
    {
      if numberOfSections == 0 {
        return ZeroSize;
      }
      var contentSize := boundsSize;
      contentSize := contentSize.(height := columnHeights[0]);
      return contentSize;
    }

    /** The stored cell at (section, item), or None when either index is out of range. */
    function LayoutAttributesForItem(section: nat, item: nat): (r: Option<Attributes>)
      reads this
      ensures r.Some? <==> section < |sectionItemAttributes| && item < |sectionItemAttributes[section]|
      ensures r.Some? ==> r.value == sectionItemAttributes[section][item]
    {
      if section >= |sectionItemAttributes| then None
      else if item >= |sectionItemAttributes[section]| then None
      else Some(sectionItemAttributes[section][item])
    }

    /** The stored header, footer or sticky header of a section, by kind;
        None for any other kind and for a section without one. */
    function LayoutAttributesForSupplementaryView(kind: ElementKind, section: nat): (r: Option<Attributes>)
      reads this
      ensures r.Some? <==> (kind == SectionHeader && section in headersAttribute) ||
                           (kind == SectionFooter && section in footersAttribute) ||
                           (kind == StickyHeader && section in headersStickyAttribute)
      ensures r.Some? && kind == SectionHeader ==> r.value == headersAttribute[section]
      ensures r.Some? && kind == SectionFooter ==> r.value == footersAttribute[section]
      ensures r.Some? && kind == StickyHeader ==> r.value == headersStickyAttribute[section]
    {
      if kind == SectionHeader then (if section in headersAttribute then Some(headersAttribute[section]) else None)
      else if kind == SectionFooter then (if section in footersAttribute then Some(footersAttribute[section]) else None)
      else if kind == StickyHeader then
        (if section in headersStickyAttribute then Some(headersStickyAttribute[section]) else None)
      else None
    }

    /** A bounds change always invalidates the layout, whether or not the width changed. */
    function ShouldInvalidateLayoutForBoundsChange(oldBounds: Rect, newBounds: Rect): (r: bool)
      ensures r
    {
      if MaxX(newBounds) - MinX(newBounds) != MaxX(oldBounds) - MinX(oldBounds) then true
      else true
    }

    // -------------------------------------------------------------------------
    // The rectangle query, block by block.

    /** The scan range from the union rectangles: from the first run the
        rectangle meets to one past the last. */
    method CandidateRange(rect: Rect) returns (begin: nat, end: nat)
      ensures begin == RangeBegin(unionRects, rect)
      ensures end == RangeEnd(unionRects, rect, |allItemAttributes|)
    {
      begin := 0;
      end := |unionRects|;
      var i := 0;
      while i < |unionRects|
        invariant 0 <= i <= |unionRects| && begin == 0
        invariant forall j :: 0 <= j < i ==> !Intersects(rect, unionRects[j])
      {
        if Intersects(rect, unionRects[i]) {
          begin := i * UnionSize;
          assert FirstHit(unionRects, rect) == Some(i);
          break;
        }
        i := i + 1;
      }
      i := |unionRects|;
      while i > 0
        invariant 0 <= i <= |unionRects| && end == |unionRects|
        invariant forall j :: i <= j < |unionRects| ==> !Intersects(rect, unionRects[j])
      {
        i := i - 1;
        if Intersects(rect, unionRects[i]) {
          end := if (i + 1) * UnionSize < |allItemAttributes| then (i + 1) * UnionSize else |allItemAttributes|;
          assert LastHit(unionRects, rect) == Some(i);
          break;
        }
      }
    }

    /** The flat elements of [begin, end), in order, that meet the rectangle. */
    method VisibleElements(rect: Rect, begin: nat, end: nat) returns (attrs: seq<Attributes>)
      requires begin <= end <= |allItemAttributes|
      ensures attrs == Visible(allItemAttributes[begin..end], rect)
    {
      attrs := [];
      var i := begin;
      while i < end
        invariant begin <= i <= end
        invariant attrs == Visible(allItemAttributes[begin..i], rect)
      {
        var attr := allItemAttributes[i];
        assert allItemAttributes[begin..i + 1][..i - begin] == allItemAttributes[begin..i];
        if Intersects(rect, attr.frame) {
          attrs := attrs + [attr];
        }
        i := i + 1;
      }
    }

    /** The stored sticky headers of the missing sections, in ascending section order. */
    method StickyHeadersFor(missing: set<nat>) returns (extra: seq<Attributes>)
      ensures extra == StickyFor(missing, headersStickyAttribute, |sectionItemAttributes|)
    {
      extra := [];
      var idx := 0;
      while idx < |sectionItemAttributes|
        invariant 0 <= idx <= |sectionItemAttributes|
        invariant extra == StickyFor(missing, headersStickyAttribute, idx)
      {
        if idx in missing {
          var found := LayoutAttributesForSupplementaryView(StickyHeader, idx);
          if found.Some? {
            extra := extra + [found.value];
          }
        }
        idx := idx + 1;
      }
    }

    /** Pins every sticky header of `attrs` (all of them stand after the
        first `visCount` elements) and stores the pinned header back. */
    method PinStickyHeaders(attrs: seq<Attributes>, visCount: nat, offsetY: real) returns (result: seq<Attributes>)
      requires visCount <= |attrs|
      requires forall i :: 0 <= i < visCount ==> !IsSticky(attrs[i])
      requires forall i :: visCount <= i < |attrs| ==> IsSticky(attrs[i]) && Pinnable(Snapshot(), attrs[i])
      modifies this
      ensures forall i :: 0 <= i < |attrs| && IsSticky(attrs[i]) ==> Pinnable(old(Snapshot()), attrs[i])
      ensures result == PinEach(old(Snapshot()), attrs, offsetY)
      ensures headersStickyAttribute == WriteBack(old(headersStickyAttribute), result[visCount..])
      ensures Snapshot() == old(Snapshot()).(sticky := headersStickyAttribute)
      ensures unionRects == old(unionRects) && ConfigOf() == old(ConfigOf()) && invalidations == old(invalidations)
    {
      ghost var b0 := Snapshot();
      result := [];
      var k := 0;
      while k < |attrs|
        invariant 0 <= k <= |attrs| && |result| == k
        invariant PinnedSoFar(b0, attrs, visCount, k, offsetY, result)
        invariant Snapshot() == b0.(sticky := headersStickyAttribute)
        invariant unionRects == old(unionRects) && ConfigOf() == old(ConfigOf()) && invalidations == old(invalidations)
      {
        result := PinNext(b0, attrs, visCount, k, offsetY, result);
        k := k + 1;
      }
      assert attrs[..|attrs|] == attrs;
    }

    /** The pinning loop's state after its first k elements. */
    ghost predicate PinnedSoFar(b0: Built, attrs: seq<Attributes>, visCount: nat, k: nat, offsetY: real,
                                result: seq<Attributes>)
      requires k <= |attrs|
      requires forall i :: 0 <= i < |attrs| && IsSticky(attrs[i]) ==> Pinnable(b0, attrs[i])
      reads this`headersStickyAttribute
    {
      result == PinEach(b0, attrs[..k], offsetY) &&
      headersStickyAttribute == if k <= visCount then b0.sticky else WriteBack(b0.sticky, result[visCount..])
    }

    /** One step of the pinning loop: element k is kept, or pinned and stored back. */
    method PinNext(ghost b0: Built, attrs: seq<Attributes>, visCount: nat, k: nat, offsetY: real,
                   result: seq<Attributes>) returns (next: seq<Attributes>)
      requires visCount <= |attrs| && k < |attrs| && |result| == k
      requires forall i :: 0 <= i < visCount ==> !IsSticky(attrs[i])
      requires forall i :: visCount <= i < |attrs| ==> IsSticky(attrs[i]) && Pinnable(b0, attrs[i])
      requires forall i :: 0 <= i < |attrs| && IsSticky(attrs[i]) ==> Pinnable(b0, attrs[i])
      requires Snapshot() == b0.(sticky := headersStickyAttribute)
      requires PinnedSoFar(b0, attrs, visCount, k, offsetY, result)
      modifies this
      ensures |next| == k + 1 && PinnedSoFar(b0, attrs, visCount, k + 1, offsetY, next)
      ensures Snapshot() == b0.(sticky := headersStickyAttribute)
      ensures unionRects == old(unionRects) && ConfigOf() == old(ConfigOf()) && invalidations == old(invalidations)
    {
      var layoutAttributes := attrs[k];
      PinEachExtend(b0, attrs, k, offsetY);
      if layoutAttributes.category == Supplementary(StickyHeader) {
        layoutAttributes := PinHeader(layoutAttributes, offsetY);
        WriteBackExtend(b0.sticky, result, visCount, layoutAttributes);
      }
      next := result + [layoutAttributes];
    }

    /** One sticky header moved to its pinned position and stored back: held
        at the scroll offset, but not above 0 and not so low that it passes
        the bottom of the section's footer, or of its last item when it has
        no footer. */
    method PinHeader(layoutAttributes: Attributes, offsetY: real) returns (pinned: Attributes)
      requires Pinnable(Snapshot(), layoutAttributes)
      modifies this
      ensures pinned == Pin(old(Snapshot()), layoutAttributes, offsetY)
      ensures headersStickyAttribute == old(headersStickyAttribute)[layoutAttributes.section := pinned]
      ensures Snapshot() == old(Snapshot()).(sticky := headersStickyAttribute)
      ensures unionRects == old(unionRects) && ConfigOf() == old(ConfigOf()) && invalidations == old(invalidations)
    {
      var section := layoutAttributes.section;
      var numberOfItemsInSection := |sectionItemAttributes[section]|;
      var lastItem := if numberOfItemsInSection - 1 > 0 then numberOfItemsInSection - 1 else 0;
      var lastCellAttributes :=
        if section !in footersAttribute then LayoutAttributesForItem(section, lastItem).value
        else LayoutAttributesForSupplementaryView(SectionFooter, section).value;
      var headerHeight := Height(layoutAttributes.frame);
      var y := Min(Max(offsetY, 0.0), MaxY(lastCellAttributes.frame) - headerHeight);
      var frame := Rect(layoutAttributes.frame.x, y, layoutAttributes.frame.width, layoutAttributes.frame.height);
      pinned := layoutAttributes.(frame := frame);
      headersStickyAttribute := headersStickyAttribute[section := pinned];
    }

    /** The elements meeting `rect`: the visible flat elements of the scanned
        range, then the sticky headers of the sections with a visible cell,
        every sticky header pinned at the vertical scroll offset and the
        pinned header stored back. */
    method LayoutAttributesForElementsInRect(rect: Rect, contentOffsetY: real) returns (result: seq<Attributes>)
      requires Valid()
      modifies this
      ensures result == RectQuery(old(Snapshot()), old(unionRects), rect, contentOffsetY).0
      ensures headersStickyAttribute == RectQuery(old(Snapshot()), old(unionRects), rect, contentOffsetY).1
      ensures Snapshot() == old(Snapshot()).(sticky := headersStickyAttribute)
      ensures unionRects == old(unionRects) && ConfigOf() == old(ConfigOf()) && invalidations == old(invalidations)
      ensures Valid()
    {
      ghost var b0 := Snapshot();
      var begin, end := CandidateRange(rect);
      RangeWithinFlat(unionRects, rect, |allItemAttributes|);
      var attrs := VisibleElements(rect, begin, end);
      assert attrs == VisibleInRange(b0, unionRects, rect);
      var missing := CollectMissingSections(attrs);
      var extra := StickyHeadersFor(missing);
      assert extra == StickyAdded(b0, unionRects, rect);
      VisibleFacts(b0, unionRects, rect);
      AddedFacts(b0, unionRects, rect);
      result := PinStickyHeaders(attrs + extra, |attrs|, contentOffsetY);
      QueryState.QueryKeepsConsistent(b0, unionRects, rect, contentOffsetY);
    }
  }

  // ---------------------------------------------------------------------------
  // The lookups after a layout pass.

  /** After a pass the item lookup answers exactly for the items the host
      reported, with the cell the pass placed. */
  lemma PreparedItemLookup(l: Layout, cfg: Config, host: Host, s: nat, i: nat)
    requires cfg.columnCount > 0 && l.Snapshot() == Prepared(cfg, host).built
    ensures l.LayoutAttributesForItem(s, i).Some? <==> s < |host.sections| && i < |host.sections[s].itemSizes|
    ensures l.LayoutAttributesForItem(s, i).Some? ==> CellShaped(cfg, host, s, i, l.LayoutAttributesForItem(s, i).value)
  {
    PreparedItems(cfg, host, s, i);
  }

  /** After a pass the supplementary lookup finds a header exactly when the
      section's effective header height is positive, a footer exactly when its
      footer height is, and a sticky header exactly when the sticky height is. */
  lemma PreparedSupplementaryLookup(l: Layout, cfg: Config, host: Host, s: nat)
    requires cfg.columnCount > 0 && l.Snapshot() == Prepared(cfg, host).built
    ensures l.LayoutAttributesForSupplementaryView(SectionHeader, s).Some? <==>
            s < |host.sections| && SectionMetrics(cfg, host, s).headerHeight > 0.0
    ensures l.LayoutAttributesForSupplementaryView(SectionFooter, s).Some? <==>
            s < |host.sections| && SectionMetrics(cfg, host, s).footerHeight > 0.0
    ensures l.LayoutAttributesForSupplementaryView(StickyHeader, s).Some? <==>
            s < |host.sections| && cfg.headerStickyHeight > 0.0
  {
    PreparedSupplementary(cfg, host, s);
  }

  /** After a pass every column holds the final cursor, so the content height
      reported from column 0 is where the last section ended. */
  lemma PreparedContentHeight(l: Layout, cfg: Config, host: Host)
    requires cfg.columnCount > 0 && l.Snapshot() == Prepared(cfg, host).built
    ensures |l.columnHeights| == cfg.columnCount
    ensures forall c :: 0 <= c < |l.columnHeights| ==> l.columnHeights[c] == Prepared(cfg, host).top
  {
    ColumnsFlushAfterPass(cfg, host, |host.sections|);
  }
}
