/** What a full pass promises about the state it builds. Each property is an
    invariant of the section step (proved once for an arbitrary state) and then
    holds after any number of sections by induction. */
module PassFacts {
  import opened Geometry
  import opened Elements
  import opened Placement
  import Columns

  // ---------------------------------------------------------------------------
  // Facts about one section step, for an arbitrary state before it.

  /** Every item of a placement is a cell of the placement's section, at its own index. */
  lemma PlacedCells(g: ItemGeometry, sizes: seq<Size>, cols: seq<real>)
    requires |cols| > 0
    ensures var items := PlaceItems(g, sizes, cols).1;
            forall i :: 0 <= i < |items| ==>
              items[i].category == Cell && items[i].section == g.section && items[i].item == i
  {
    forall i | 0 <= i < |sizes| ensures PlaceItems(g, sizes, cols).1[i].item == i
    {
      PlacedItem(g, sizes, cols, i);
    }
  }

  /** The items one section places, from the state before it. */
  function SectionItems(cfg: Config, width: real, s: nat, sec: SectionInput, p: Pass): seq<Attributes>
    requires cfg.columnCount > 0
  {
    var m := Resolve(cfg, sec.overrides);
    var h := HeadStep(cfg, width, s, m, p);
    PlaceItems(ItemGeometryOf(cfg, width, s, m), sec.itemSizes,
               Uniform(cfg.columnCount as nat, h.top + m.sectionInset.top)).1
  }

  /** The header one section appends to the flat list, if any. */
  function SectionHeaderPart(cfg: Config, width: real, s: nat, sec: SectionInput, p: Pass): seq<Attributes> {
    var m := Resolve(cfg, sec.overrides);
    var st := StickyStep(cfg, width, s, p);
    if m.headerHeight > 0.0 then [HeaderAttributes(m, width, s, st.top + m.headerInset.top)] else []
  }

  /** The footer one section appends to the flat list, if any. */
  function SectionFooterPart(cfg: Config, width: real, s: nat, sec: SectionInput, p: Pass): seq<Attributes>
    requires cfg.columnCount > 0
  {
    var m := Resolve(cfg, sec.overrides);
    var h := HeadStep(cfg, width, s, m, p);
    var it := ItemsStep(cfg.columnCount as nat, ItemGeometryOf(cfg, width, s, m), m, sec.itemSizes, h);
    if m.footerHeight > 0.0 then [FooterAttributes(m, width, s, it.top + m.footerInset.top)] else []
  }

  /** The elements one section appends to the flat list: its header if it has
      one, its items in index order, its footer if it has one. */
  function SectionElements(cfg: Config, width: real, s: nat, sec: SectionInput, p: Pass): seq<Attributes>
    requires cfg.columnCount > 0
  {
    SectionHeaderPart(cfg, width, s, sec, p) + SectionItems(cfg, width, s, sec, p) +
    SectionFooterPart(cfg, width, s, sec, p)
  }

  /** The section's own elements, in layout order, none of them a sticky header. */
  lemma SectionElementsShape(cfg: Config, width: real, s: nat, sec: SectionInput, p: Pass)
    requires cfg.columnCount > 0
    ensures var e := SectionElements(cfg, width, s, sec, p);
            var hd := |SectionHeaderPart(cfg, width, s, sec, p)|;
            var items := SectionItems(cfg, width, s, sec, p);
            (forall i :: 0 <= i < |e| ==> e[i].section == s && !IsSticky(e[i])) &&
            (forall i :: 0 <= i < |e| && IsCell(e[i]) ==> hd <= i < hd + |items| && e[i] == items[i - hd]) &&
            (forall i :: 0 <= i < |items| ==> items[i].item == i) &&
            Ordered(e)
  {
    var m := Resolve(cfg, sec.overrides);
    var g := ItemGeometryOf(cfg, width, s, m);
    var h := HeadStep(cfg, width, s, m, p);
    var cols := Uniform(cfg.columnCount as nat, h.top + m.sectionInset.top);
    PlacedCells(g, sec.itemSizes, cols);
    assert SectionItems(cfg, width, s, sec, p) == PlaceItems(g, sec.itemSizes, cols).1;
    var hp := SectionHeaderPart(cfg, width, s, sec, p);
    var fp := SectionFooterPart(cfg, width, s, sec, p);
    ThreeParts(hp, SectionItems(cfg, width, s, sec, p), fp, s);
  }

  lemma ThreeParts(hp: seq<Attributes>, items: seq<Attributes>, fp: seq<Attributes>, s: nat)
    requires |hp| <= 1 && |fp| <= 1
    requires forall i :: 0 <= i < |hp| ==> hp[i].category == Supplementary(SectionHeader) && hp[i].section == s
    requires forall i :: 0 <= i < |items| ==> items[i].category == Cell && items[i].section == s && items[i].item == i
    requires forall i :: 0 <= i < |fp| ==> fp[i].category == Supplementary(SectionFooter) && fp[i].section == s
    ensures var e := hp + items + fp;
            (forall i :: 0 <= i < |e| ==> e[i].section == s && !IsSticky(e[i])) &&
            (forall i :: 0 <= i < |e| && IsCell(e[i]) ==> |hp| <= i < |hp| + |items| && e[i] == items[i - |hp|]) &&
            Ordered(e)
  {
    var e := hp + items + fp;
    forall i | 0 <= i < |e|
      ensures e[i] == (if i < |hp| then hp[i] else if i < |hp| + |items| then items[i - |hp|] else fp[i - |hp| - |items|])
    {
    }
  }

  /** The sticky header step leaves the flat list and the item store alone. */
  lemma StickyStepFlat(cfg: Config, width: real, s: nat, p: Pass)
    ensures var r := StickyStep(cfg, width, s, p).built;
            r.all == p.built.all && r.sectionItems == p.built.sectionItems
  {
  }

  /** The header step appends the header, if any, to the flat list. */
  lemma HeaderStepFlat(m: Metrics, width: real, s: nat, p: Pass)
    ensures var r := HeaderStep(m, width, s, p).built;
            r.all == p.built.all + (if m.headerHeight > 0.0
                                    then [HeaderAttributes(m, width, s, p.top + m.headerInset.top)] else []) &&
            r.sectionItems == p.built.sectionItems
  {
  }

  /** The footer step appends the footer, if any, to the flat list. */
  lemma FooterStepFlat(n: nat, m: Metrics, width: real, s: nat, p: Pass)
    ensures var r := FooterStep(n, m, width, s, p).built;
            r.all == p.built.all + (if m.footerHeight > 0.0
                                    then [FooterAttributes(m, width, s, p.top + m.footerInset.top)] else []) &&
            r.sectionItems == p.built.sectionItems
  {
  }

  /** The items step appends the section's items to the flat list and opens
      their slot in the item store. */
  lemma ItemsStepFlat(n: nat, g: ItemGeometry, m: Metrics, sizes: seq<Size>, p: Pass)
    requires n > 0
    ensures var items := PlaceItems(g, sizes, Uniform(n, p.top + m.sectionInset.top)).1;
            var r := ItemsStep(n, g, m, sizes, p).built;
            r.all == p.built.all + items && r.sectionItems == p.built.sectionItems + [items]
  {
  }

  /** Four appends in a row are one append of the three parts. */
  lemma AppendsChain(a0: seq<Attributes>, a1: seq<Attributes>, a2: seq<Attributes>, a3: seq<Attributes>,
                     a4: seq<Attributes>, hp: seq<Attributes>, items: seq<Attributes>, fp: seq<Attributes>)
    requires a1 == a0 && a2 == a1 + hp && a3 == a2 + items && a4 == a3 + fp
    ensures a4 == a0 + (hp + items + fp)
  {
  }

  lemma SectionStepAppends(cfg: Config, width: real, s: nat, sec: SectionInput, p: Pass)
    requires cfg.columnCount > 0
    ensures var r := SectionStep(cfg, width, s, sec, p).built;
            r.all == p.built.all + SectionElements(cfg, width, s, sec, p) &&
            r.sectionItems == p.built.sectionItems + [SectionItems(cfg, width, s, sec, p)]
  {
    var m := Resolve(cfg, sec.overrides);
    var n := cfg.columnCount as nat;
    var g := ItemGeometryOf(cfg, width, s, m);
    var st := StickyStep(cfg, width, s, p);
    StickyStepFlat(cfg, width, s, p);
    var h := HeaderStep(m, width, s, st);
    HeaderStepFlat(m, width, s, st);
    var it := ItemsStep(n, g, m, sec.itemSizes, h);
    ItemsStepFlat(n, g, m, sec.itemSizes, h);
    var f := FooterStep(n, m, width, s, it);
    FooterStepFlat(n, m, width, s, it);
    AppendsChain(p.built.all, st.built.all, h.built.all, it.built.all, f.built.all,
                 SectionHeaderPart(cfg, width, s, sec, p), SectionItems(cfg, width, s, sec, p),
                 SectionFooterPart(cfg, width, s, sec, p));
  }

  /** One section adds at most its own header, footer and sticky header. */
  lemma SectionStepMaps(cfg: Config, width: real, s: nat, sec: SectionInput, p: Pass)
    requires cfg.columnCount > 0
    ensures var m := Resolve(cfg, sec.overrides);
            var r := SectionStep(cfg, width, s, sec, p).built;
            var st := StickyStep(cfg, width, s, p);
            var h := HeadStep(cfg, width, s, m, p);
            var it := ItemsStep(cfg.columnCount as nat, ItemGeometryOf(cfg, width, s, m), m, sec.itemSizes, h);
            r.sticky == (if cfg.headerStickyHeight > 0.0
                         then p.built.sticky[s := StickyHeaderAttributes(cfg, width, s, p.top)]
                         else p.built.sticky) &&
            r.headers == (if m.headerHeight > 0.0
                          then p.built.headers[s := HeaderAttributes(m, width, s, st.top + m.headerInset.top)]
                          else p.built.headers) &&
            r.footers == (if m.footerHeight > 0.0
                          then p.built.footers[s := FooterAttributes(m, width, s, it.top + m.footerInset.top)]
                          else p.built.footers)
  {
  }

  // ---------------------------------------------------------------------------
  // Invariants of the built state after k sections.

  /** The left edge of some column. */
  ghost predicate IsColumnLeft(g: ItemGeometry, n: nat, x: real) {
    exists c :: 0 <= c < n && x == ColumnX(g, c)
  }

  /** Item i of section s as the pass places it: a cell at (s, i), column
      width wide, as tall as its aspect ratio says, at the left edge of a column. */
  ghost predicate CellShaped(cfg: Config, host: Host, s: nat, i: nat, a: Attributes)
    requires cfg.columnCount > 0 && s < |host.sections|
  {
    var m := SectionMetrics(cfg, host, s);
    var g := ItemGeometryOf(cfg, host.width, s, m);
    var sizes := host.sections[s].itemSizes;
    i < |sizes| && a.category == Cell && a.section == s && a.item == i && a.zIndex == CellZIndex &&
    a.frame.width == g.itemWidth && a.frame.height == ItemHeight(sizes[i], g.itemWidth) &&
    IsColumnLeft(g, cfg.columnCount as nat, a.frame.x)
  }

  ghost predicate ItemsShaped(cfg: Config, host: Host, k: nat, b: Built)
    requires cfg.columnCount > 0 && k <= |host.sections|
  {
    |b.sectionItems| == k &&
    (forall s :: 0 <= s < k ==> |b.sectionItems[s]| == |host.sections[s].itemSizes|) &&
    (forall s, i :: 0 <= s < k && 0 <= i < |b.sectionItems[s]| ==> CellShaped(cfg, host, s, i, b.sectionItems[s][i]))
  }

  /** A section has a header entry exactly when it is laid out and its
      effective header height is positive; the entry is its header. */
  ghost predicate HeadersHold(cfg: Config, host: Host, k: nat, b: Built)
    requires k <= |host.sections|
  {
    forall s: nat :: (s in b.headers <==> s < k && SectionMetrics(cfg, host, s).headerHeight > 0.0) &&
      (s in b.headers ==> b.headers[s].category == Supplementary(SectionHeader) && b.headers[s].section == s &&
                          b.headers[s].frame.height == SectionMetrics(cfg, host, s).headerHeight)
  }

  /** The same for footers. */
  ghost predicate FootersHold(cfg: Config, host: Host, k: nat, b: Built)
    requires k <= |host.sections|
  {
    forall s: nat :: (s in b.footers <==> s < k && SectionMetrics(cfg, host, s).footerHeight > 0.0) &&
      (s in b.footers ==> b.footers[s].category == Supplementary(SectionFooter) && b.footers[s].section == s &&
                          b.footers[s].frame.height == SectionMetrics(cfg, host, s).footerHeight)
  }

  /** A laid-out section has a sticky header entry exactly when the layout's
      sticky height is positive. */
  ghost predicate StickyHold(cfg: Config, k: nat, b: Built) {
    forall s: nat :: (s in b.sticky <==> s < k && cfg.headerStickyHeight > 0.0) &&
      (s in b.sticky ==> IsSticky(b.sticky[s]) && b.sticky[s].section == s &&
                         b.sticky[s].frame.height == cfg.headerStickyHeight)
  }

  ghost predicate DomainsHold(cfg: Config, host: Host, k: nat, b: Built)
    requires k <= |host.sections|
  {
    HeadersHold(cfg, host, k, b) && FootersHold(cfg, host, k, b) && StickyHold(cfg, k, b)
  }

  ghost predicate FlatWellFormed(k: nat, b: Built) {
    |b.sectionItems| == k &&
    (forall i :: 0 <= i < |b.all| ==> !IsSticky(b.all[i]) && b.all[i].section < k) &&
    (forall i :: 0 <= i < |b.all| && IsCell(b.all[i]) ==>
       b.all[i].item < |b.sectionItems[b.all[i].section]| &&
       b.sectionItems[b.all[i].section][b.all[i].item] == b.all[i])
  }

  /** The position of an element within its section: header, then cells, then footer. */
  function KindRank(a: Attributes): nat {
    match a.category
    case Supplementary(SectionHeader) => 0
    case Cell => 1
    case Supplementary(SectionFooter) => 2
    case _ => 3
  }

  /** Layout order: by section, then header before cells before footer, cells by index. */
  predicate Precedes(a: Attributes, b: Attributes) {
    a.section < b.section ||
    (a.section == b.section && (KindRank(a) < KindRank(b) || (IsCell(a) && IsCell(b) && a.item < b.item)))
  }

  predicate Ordered(xs: seq<Attributes>) {
    forall i, j :: 0 <= i < j < |xs| ==> Precedes(xs[i], xs[j])
  }

  // ---------------------------------------------------------------------------
  // The section step keeps each invariant.

  lemma ItemsShapedStep(cfg: Config, host: Host, s: nat, p: Pass)
    requires cfg.columnCount > 0 && s < |host.sections| && ItemsShaped(cfg, host, s, p.built)
    ensures ItemsShaped(cfg, host, s + 1, SectionStep(cfg, host.width, s, host.sections[s], p).built)
  {
    var sec := host.sections[s];
    var n := cfg.columnCount as nat;
    var m := Resolve(cfg, sec.overrides);
    var g := ItemGeometryOf(cfg, host.width, s, m);
    var h := HeadStep(cfg, host.width, s, m, p);
    var cols := Uniform(n, h.top + m.sectionInset.top);
    var items := SectionItems(cfg, host.width, s, sec, p);
    assert items == PlaceItems(g, sec.itemSizes, cols).1;
    SectionStepAppends(cfg, host.width, s, sec, p);
    var b := SectionStep(cfg, host.width, s, sec, p).built;
    assert b.sectionItems == p.built.sectionItems + [items];
    forall i | 0 <= i < |items| ensures CellShaped(cfg, host, s, i, items[i])
    {
      PlacedItem(g, sec.itemSizes, cols, i);
      var c := ChosenColumn(g, sec.itemSizes, cols, i);
      assert items[i].frame.x == ColumnX(g, c);
    }
    forall t, i | 0 <= t < s + 1 && 0 <= i < |b.sectionItems[t]|
      ensures CellShaped(cfg, host, t, i, b.sectionItems[t][i])
    {
      if t < s {
        assert b.sectionItems[t] == p.built.sectionItems[t];
      }
    }
  }

  lemma DomainsStep(cfg: Config, host: Host, s: nat, p: Pass)
    requires cfg.columnCount > 0 && s < |host.sections| && DomainsHold(cfg, host, s, p.built)
    ensures DomainsHold(cfg, host, s + 1, SectionStep(cfg, host.width, s, host.sections[s], p).built)
  {
    SectionStepMaps(cfg, host.width, s, host.sections[s], p);
    HeadersStep(cfg, host, s, p);
    FootersStep(cfg, host, s, p);
    StickyDomainStep(cfg, host, s, p);
  }

  lemma HeadersStep(cfg: Config, host: Host, s: nat, p: Pass)
    requires cfg.columnCount > 0 && s < |host.sections| && HeadersHold(cfg, host, s, p.built)
    ensures HeadersHold(cfg, host, s + 1, SectionStep(cfg, host.width, s, host.sections[s], p).built)
  {
    SectionStepMaps(cfg, host.width, s, host.sections[s], p);
  }

  lemma FootersStep(cfg: Config, host: Host, s: nat, p: Pass)
    requires cfg.columnCount > 0 && s < |host.sections| && FootersHold(cfg, host, s, p.built)
    ensures FootersHold(cfg, host, s + 1, SectionStep(cfg, host.width, s, host.sections[s], p).built)
  {
    SectionStepMaps(cfg, host.width, s, host.sections[s], p);
  }

  lemma StickyDomainStep(cfg: Config, host: Host, s: nat, p: Pass)
    requires cfg.columnCount > 0 && s < |host.sections| && StickyHold(cfg, s, p.built)
    ensures StickyHold(cfg, s + 1, SectionStep(cfg, host.width, s, host.sections[s], p).built)
  {
    SectionStepMaps(cfg, host.width, s, host.sections[s], p);
  }

  lemma FlatWellFormedStep(cfg: Config, width: real, s: nat, sec: SectionInput, p: Pass)
    requires cfg.columnCount > 0 && FlatWellFormed(s, p.built)
    ensures FlatWellFormed(s + 1, SectionStep(cfg, width, s, sec, p).built)
  {
    SectionStepAppends(cfg, width, s, sec, p);
    SectionElementsShape(cfg, width, s, sec, p);
    var b := SectionStep(cfg, width, s, sec, p).built;
    var e := SectionElements(cfg, width, s, sec, p);
    forall i | 0 <= i < |b.all|
      ensures !IsSticky(b.all[i]) && b.all[i].section < s + 1
      ensures IsCell(b.all[i]) ==> b.all[i].item < |b.sectionItems[b.all[i].section]| &&
                                   b.sectionItems[b.all[i].section][b.all[i].item] == b.all[i]
    {
      if i >= |p.built.all| {
        assert b.all[i] == e[i - |p.built.all|];
        if IsCell(b.all[i]) {
          var hd := |SectionHeaderPart(cfg, width, s, sec, p)|;
          var j := i - |p.built.all|;
          assert b.sectionItems[s] == SectionItems(cfg, width, s, sec, p);
          assert e[j] == SectionItems(cfg, width, s, sec, p)[j - hd];
        }
      } else {
        assert b.all[i] == p.built.all[i];
        assert b.sectionItems[b.all[i].section] == p.built.sectionItems[b.all[i].section];
      }
    }
  }

  lemma OrderedAppend(a: seq<Attributes>, e: seq<Attributes>, s: nat)
    requires Ordered(a) && Ordered(e)
    requires forall i :: 0 <= i < |a| ==> a[i].section < s
    requires forall i :: 0 <= i < |e| ==> e[i].section == s
    ensures Ordered(a + e)
  {
    var ae := a + e;
    forall i, j | 0 <= i < j < |ae| ensures Precedes(ae[i], ae[j])
    {
      if j < |a| {
        assert ae[i] == a[i] && ae[j] == a[j];
      } else if i < |a| {
        assert ae[i] == a[i] && ae[j] == e[j - |a|];
      } else {
        assert ae[i] == e[i - |a|] && ae[j] == e[j - |a|];
      }
    }
  }

  lemma OrderedStep(cfg: Config, width: real, s: nat, sec: SectionInput, p: Pass)
    requires cfg.columnCount > 0 && FlatWellFormed(s, p.built) && Ordered(p.built.all)
    ensures Ordered(SectionStep(cfg, width, s, sec, p).built.all)
  {
    SectionStepAppends(cfg, width, s, sec, p);
    SectionElementsShape(cfg, width, s, sec, p);
    OrderedAppend(p.built.all, SectionElements(cfg, width, s, sec, p), s);
  }

  // ---------------------------------------------------------------------------
  // The invariants after k sections.

  lemma {:induction false} PassInvariants(cfg: Config, host: Host, k: nat)
    requires cfg.columnCount > 0 && k <= |host.sections|
    ensures var b := PassUpTo(cfg, host, k).built;
            ItemsShaped(cfg, host, k, b) && DomainsHold(cfg, host, k, b) &&
            FlatWellFormed(k, b) && Ordered(b.all)
    decreases k
  {
    if k > 0 {
      var s := k - 1;
      var p := PassUpTo(cfg, host, s);
      PassInvariants(cfg, host, s);
      ItemsShapedStep(cfg, host, s, p);
      DomainsStep(cfg, host, s, p);
      FlatWellFormedStep(cfg, host.width, s, host.sections[s], p);
      OrderedStep(cfg, host.width, s, host.sections[s], p);
    }
  }
}

/** Geometric consequences of the pass. */
module PassGeometry {
  import opened Geometry
  import opened Elements
  import opened Placement
  import opened PassFacts
  import Columns

  /** After any number of sections every column holds the cursor, so column 0
      is the content height. */
  lemma ColumnsFlushAfterPass(cfg: Config, host: Host, k: nat)
    requires cfg.columnCount > 0 && k <= |host.sections|
    ensures var p := PassUpTo(cfg, host, k);
            |p.built.columnHeights| == cfg.columnCount &&
            forall c :: 0 <= c < cfg.columnCount ==> p.built.columnHeights[c] == p.top
  {
  }

  /** Every stored item lies horizontally inside its section: no further left
      than the section's left inset and ending no further right than the width
      minus its right inset (when the column width and gap are not negative). */
  lemma ItemsWithinSection(cfg: Config, host: Host, s: nat, i: nat)
    requires cfg.columnCount > 0 && s < |host.sections|
    requires cfg.minimumColumnSpacing >= 0.0
    requires ItemWidth(cfg, host.width, SectionMetrics(cfg, host, s).sectionInset) >= 0.0
    requires i < |host.sections[s].itemSizes|
    ensures var b := Prepared(cfg, host).built;
            var m := SectionMetrics(cfg, host, s);
            s < |b.sectionItems| && i < |b.sectionItems[s]| &&
            m.sectionInset.left <= b.sectionItems[s][i].frame.x &&
            b.sectionItems[s][i].frame.x + b.sectionItems[s][i].frame.width <= host.width - m.sectionInset.right
  {
    PassInvariants(cfg, host, |host.sections|);
    var b := Prepared(cfg, host).built;
    var m := SectionMetrics(cfg, host, s);
    var g := ItemGeometryOf(cfg, host.width, s, m);
    assert CellShaped(cfg, host, s, i, b.sectionItems[s][i]);
    var c :| 0 <= c < cfg.columnCount && b.sectionItems[s][i].frame.x == ColumnX(g, c);
    ColumnWithinSection(cfg, host.width, s, m, c);
  }

  /** With a non-negative spacing and a section start at or below the origin,
      the cursor after a section's items is at least the section's bottom
      inset below every one of its items, and no item starts above the
      section's top inset. */
  lemma SectionEndsBelowItems(n: nat, g: ItemGeometry, m: Metrics, sizes: seq<Size>, p: Pass)
    requires n > 0 && g.interitemSpacing == m.interitemSpacing && m.interitemSpacing >= 0.0
    requires p.top + m.sectionInset.top >= 0.0
    ensures var items := PlaceItems(g, sizes, Uniform(n, p.top + m.sectionInset.top)).1;
            ItemsStep(n, g, m, sizes, p).built.sectionItems == p.built.sectionItems + [items] &&
            forall i :: 0 <= i < |items| ==>
              p.top + m.sectionInset.top <= items[i].frame.y &&
              MaxY(items[i].frame) + m.sectionInset.bottom <= ItemsStep(n, g, m, sizes, p).top
  {
    ItemsBetweenStartAndLongest(g, sizes, p.top + m.sectionInset.top, n);
  }

  /** A section without items still takes the interitem spacing off the cursor:
      it ends the spacing above where its items would have started, plus its
      bottom inset. */
  lemma EmptySectionEnd(n: nat, g: ItemGeometry, m: Metrics, p: Pass)
    requires n > 0
    ensures ItemsStep(n, g, m, [], p).top == p.top + m.sectionInset.top - m.interitemSpacing + m.sectionInset.bottom
  {
    var cols := Uniform(n, p.top + m.sectionInset.top);
    assert PlaceItems(g, [], cols).0 == cols;
  }
}
