/** Layout attributes: which element a frame belongs to, the frame and the
    stacking order. */
module Elements {
  import opened Geometry

  /** The supplementary element kinds the layout knows, by the string constant
      that names them: SectionHeader is CollectionViewWaterfallElementKindSectionHeader,
      SectionFooter is CollectionViewWaterfallElementKindSectionFooter and StickyHeader
      is UIKit's UICollectionElementKindSectionHeader, which this layout uses for the
      sticky header. Any other kind string is OtherKind. */
  datatype ElementKind = SectionHeader | SectionFooter | StickyHeader | OtherKind(name: string)

  /** A cell, or a supplementary view of some kind. */
  datatype Category = Cell | Supplementary(kind: ElementKind)

  /** A layout attribute: the element (category, section, item) and its frame.
      Supplementary views are created at item 0 of their section. */
  datatype Attributes = Attributes(category: Category, section: nat, item: nat, frame: Rect, zIndex: int)

  const CellZIndex: int := 0
  const HeaderZIndex: int := 512
  const StickyZIndex: int := 1024

  predicate IsSticky(a: Attributes) { a.category == Supplementary(StickyHeader) }
  predicate IsCell(a: Attributes) { a.category == Cell }
}
