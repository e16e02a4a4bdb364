/** What a finished layout pass promises to the lookups and to the rectangle
    query: the state it builds is consistent, the lookups find exactly the
    elements the pass placed, and the content height is the final cursor. */
module LayoutState {
  import opened Geometry
  import opened Elements
  import opened Placement
  import opened PassFacts
  import opened PassGeometry
  import opened UnionIndex
  import opened Query

  /** A finished pass, with the union rectangles built over its flat list,
      is a state the rectangle query accepts. */
  lemma PreparedConsistent(cfg: Config, host: Host)
    requires cfg.columnCount > 0
    ensures Consistent(Prepared(cfg, host).built, UnionRectsOf(Prepared(cfg, host).built.all))
  {
    var k := |host.sections|;
    PassInvariants(cfg, host, k);
    var b := Prepared(cfg, host).built;
    assert FlatWellFormed(k, b);
    assert DomainsHold(cfg, host, k, b);
    forall s | s in b.sticky
      ensures IsSticky(b.sticky[s]) && b.sticky[s].section == s
    {
      var t: nat := s;
      assert t in b.sticky;
    }
  }

  /** After a pass the item store holds one entry per supplied item size:
      section s has exactly as many items as the host reports, and each is
      the cell the pass placed for that index. */
  lemma PreparedItems(cfg: Config, host: Host, s: nat, i: nat)
    requires cfg.columnCount > 0
    ensures var b := Prepared(cfg, host).built;
            (s < |b.sectionItems| && i < |b.sectionItems[s]|) <==>
            (s < |host.sections| && i < |host.sections[s].itemSizes|)
    ensures var b := Prepared(cfg, host).built;
            s < |host.sections| && i < |host.sections[s].itemSizes| ==>
              CellShaped(cfg, host, s, i, b.sectionItems[s][i])
  {
    PassInvariants(cfg, host, |host.sections|);
  }

  /** After a pass a section has a header entry exactly when its effective
      header height is positive, a footer entry exactly when its effective
      footer height is positive, and a sticky header entry exactly when the
      layout's sticky height is positive; each entry is of its kind, belongs
      to its section and has that height. */
  lemma PreparedSupplementary(cfg: Config, host: Host, s: nat)
    requires cfg.columnCount > 0
    ensures var b := Prepared(cfg, host).built;
            (s in b.headers <==> s < |host.sections| && SectionMetrics(cfg, host, s).headerHeight > 0.0) &&
            (s in b.footers <==> s < |host.sections| && SectionMetrics(cfg, host, s).footerHeight > 0.0) &&
            (s in b.sticky <==> s < |host.sections| && cfg.headerStickyHeight > 0.0)
    ensures var b := Prepared(cfg, host).built;
            (s in b.headers ==> b.headers[s].category == Supplementary(SectionHeader) && b.headers[s].section == s &&
                                b.headers[s].frame.height == SectionMetrics(cfg, host, s).headerHeight) &&
            (s in b.footers ==> b.footers[s].category == Supplementary(SectionFooter) && b.footers[s].section == s &&
                                b.footers[s].frame.height == SectionMetrics(cfg, host, s).footerHeight) &&
            (s in b.sticky ==> IsSticky(b.sticky[s]) && b.sticky[s].section == s &&
                               b.sticky[s].frame.height == cfg.headerStickyHeight)
  {
    PassInvariants(cfg, host, |host.sections|);
    var b := Prepared(cfg, host).built;
    assert DomainsHold(cfg, host, |host.sections|, b);
  }
}
