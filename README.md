# Waterfall collection view layout, modelled in Dafny

The model covers `CollectionViewWaterfallLayout`, a masonry layout for a UIKit collection view.
- Each item drops into the shortest of a fixed number of columns.
- A column's width comes from the view's width, the section insets and the column spacing.
- Its height keeps the item's aspect ratio.
- Each section may start with a sticky header and a section header, and may end with a footer.
- After every section, all columns move level with the cursor.
- A coarse index summarises each run of 20 consecutive flat elements as one rectangle: the union of the run's first and last frames.
- The rectangle query scans the flat list only between the first and the last run the query rectangle meets.
- The query adds the sticky header of every section that has a visible cell and pins that header at the scroll offset. The header is held below 0 and above the bottom of the section's footer, or of its last cell when there is no footer.

The model has two layers.

**Pure specifications** are written as functions over values:
- `Columns`: the two column scans.
- `Placement`: one layout pass, as a fold over the sections, `PassUpTo` / `Prepared`.
- `UnionIndex`: the union rectangles.
- `Query`: the rectangle query, `RectQuery`.

The lemmas beside them state what the layout promises. They are in `PassFacts`, `PassGeometry`, `LayoutState`, `QueryFacts` and `QueryState`.

**An imperative class**, `WaterfallLayout.Layout`, has the source's fields:
- the ten configurable properties;
- `columnHeights`, `sectionItemAttributes` and `allItemAttributes`;
- the three supplementary maps;
- `unionRects`.

The source's loops become `while` loops with invariants. The pass is split the way the source's blocks are: sticky header, header, column reset, items, footer and union rectangles. Each method is proved to produce exactly what the pure specification computes from the old state. For example:
- after `PrepareLayout`, the stored state is `Prepared(config, host).built`;
- `LayoutAttributesForElementsInRect` returns `RectQuery(...)`, and its only change to the state is the sticky map that `RectQuery` describes.

Modelling choices:
- **Coordinates** are exact `real`s, and `floorf` is `.Floor`.
- **CoreGraphics accessors** are used only where the layout uses them, and they standardise negative sizes:
  - `CGRectGetMaxY` / `CGRectGetHeight`;
  - `CGRectIntersectsRect`, which is an open overlap: shared edges do not count;
  - `CGRectUnion`, which is the bounding box.
- **The collection view and its delegate** become a `Host` parameter:
  - the view's frame width;
  - per section, the `Option` answers of the optional delegate methods (`None` = not implemented);
  - the sizes the mandatory size method returns. The item count is the length of that list.
- **The scroll offset** is a parameter of the query.
- **`invalidateLayout`** is a counter, `invalidations`.
- **UIKit's element kinds** are a datatype:
  - `SectionHeader` is `CollectionViewWaterfallElementKindSectionHeader`;
  - `SectionFooter` is `CollectionViewWaterfallElementKindSectionFooter`;
  - `StickyHeader` is `UICollectionElementKindSectionHeader`, which the layout uses for the sticky header;
  - `OtherKind` is any other kind string.

## Model

| member | source | states |
|---|---|---|
| Options.Option.GetOr | CollectionViewWaterfallLayout.swift:145-159 | A per-section delegate answer wins when it is present; otherwise the layout default is used. |
| Geometry.Union | CollectionViewWaterfallLayout.swift:291 | CGRectUnion is a standardised rectangle that contains both arguments. |
| Geometry.UnionIsSmallest | CollectionViewWaterfallLayout.swift:291 | Any rectangle containing both arguments contains their union, so the union is the smallest cover. |
| Geometry.IntersectsCover | CollectionViewWaterfallLayout.swift:342-351 | A rectangle that meets a covered frame also meets the union rectangle covering it. This is the only link between a run's rectangle and its elements. |
| Columns.ShortestIndex | CollectionViewWaterfallLayout.swift:430-442 | The shortest-column scan returns an index of least height, the lowest such index on ties, or 0 with no columns. |
| Columns.LongestScan | CollectionViewWaterfallLayout.swift:444-456 | The running maximum of the longest-column scan starts at 0 and bounds every height. The index either stays 0 with maximum 0, or is the first index whose height equals a positive maximum. |
| Columns.LongestIsFirstMaximum | CollectionViewWaterfallLayout.swift:444-456 | When some height is above 0, the longest index is the first index of maximal height. When none is, the index is 0. |
| Columns.LongestIsMaximumWhenNonNegative | CollectionViewWaterfallLayout.swift:444-456 | With no negative heights, the longest index is a true maximum even when every column is 0. |
| WaterfallLayout.Layout.constructor | CollectionViewWaterfallLayout.swift:41-108 | The defaults are: two columns, both spacings 10, every height, inset and sticky value 0, and an empty stored state. The state is consistent and nothing has been invalidated. |
| WaterfallLayout.Layout.InvalidateIfNotEqual | CollectionViewWaterfallLayout.swift:458-462 | Invalidates exactly once when the two values differ, and never when they are equal. Nothing else changes. |
| WaterfallLayout.Layout.SetColumnCount | CollectionViewWaterfallLayout.swift:44-48 | Stores the new value, leaves the other nine properties and the built state alone, and invalidates exactly when the value changed. |
| WaterfallLayout.Layout.SetMinimumColumnSpacing | CollectionViewWaterfallLayout.swift:49-53 | Same as SetColumnCount, for minimumColumnSpacing. |
| WaterfallLayout.Layout.SetMinimumInteritemSpacing | CollectionViewWaterfallLayout.swift:54-58 | Same, for minimumInteritemSpacing. |
| WaterfallLayout.Layout.SetHeaderHeight | CollectionViewWaterfallLayout.swift:59-63 | Same, for headerHeight. |
| WaterfallLayout.Layout.SetFooterHeight | CollectionViewWaterfallLayout.swift:64-68 | Same, for footerHeight. |
| WaterfallLayout.Layout.SetHeaderInset | CollectionViewWaterfallLayout.swift:69-73 | Same, for headerInset; insets compare by value. |
| WaterfallLayout.Layout.SetFooterInset | CollectionViewWaterfallLayout.swift:74-78 | Same, for footerInset. |
| WaterfallLayout.Layout.SetSectionInset | CollectionViewWaterfallLayout.swift:79-83 | Same, for sectionInset. |
| WaterfallLayout.Layout.SetHeaderStickyHeight | CollectionViewWaterfallLayout.swift:85-89 | Same, for headerStickyHeight. |
| WaterfallLayout.Layout.SetHeaderStickyInset | CollectionViewWaterfallLayout.swift:90-94 | Same, for headerStickyInset. |
| WaterfallLayout.Layout.ShortestColumnIndex | CollectionViewWaterfallLayout.swift:430-442 | The loop returns Columns.ShortestIndex. With columns present, that height is at most every column's, and every earlier column is strictly taller. |
| WaterfallLayout.Layout.LongestColumnIndex | CollectionViewWaterfallLayout.swift:444-456 | The loop returns Columns.LongestIndex. When some height is above 0, that is the first column of maximal height; otherwise it is 0. |
| WaterfallLayout.Layout.PrepareLayout | CollectionViewWaterfallLayout.swift:112-294 | With no sections nothing changes. Otherwise the stored state is exactly `Prepared(config, host).built`, and the union rectangles are `UnionRectsOf` of the flat list. The properties and the invalidation count are unchanged and the state is consistent. The result depends only on the configuration and the host, so preparing twice gives identical frames. |
| WaterfallLayout.Layout.Rebuild | CollectionViewWaterfallLayout.swift:122-293 | Clearing, laying out every section and indexing builds exactly `Prepared(config, host)` and its union rectangles. |
| WaterfallLayout.Layout.ResetState | CollectionViewWaterfallLayout.swift:122-135 | After clearing and appending one zero per column, the state is `Initial(config)`: columnCount zeros and empty lists and maps. |
| WaterfallLayout.Layout.ClearState | CollectionViewWaterfallLayout.swift:122-129 | Every stored collection is empty. Its frame lets it change only the state fields. |
| WaterfallLayout.Layout.AppendZeroColumns | CollectionViewWaterfallLayout.swift:133-135 | The column list becomes columnCount zeros and nothing else changes. |
| WaterfallLayout.Layout.LayOutSections | CollectionViewWaterfallLayout.swift:138-282 | The section loop: after section k, the cursor and the state are `PassUpTo(config, host, k)`. |
| WaterfallLayout.Layout.LayOutSection | CollectionViewWaterfallLayout.swift:141-281 | One section turns `PassUpTo(..., s)` into `PassUpTo(..., s + 1)`. |
| WaterfallLayout.Layout.AddStickyHeader | CollectionViewWaterfallLayout.swift:167-175 | When the sticky height is positive, stores a sticky header at the cursor: view width minus the sticky insets, z-index 1024. The cursor moves below it plus the bottom inset. Exactly `StickyStep`. |
| WaterfallLayout.Layout.AddSectionHeader | CollectionViewWaterfallLayout.swift:180-207 | Adds the top inset to the cursor. When the header height is positive, stores the header in the map and the flat list (z-index 512) and moves the cursor below it plus the bottom inset. Exactly `HeaderStep`. |
| WaterfallLayout.Layout.ResetColumns | CollectionViewWaterfallLayout.swift:209-212 | Every column becomes the given cursor; only the columns change. |
| WaterfallLayout.Layout.LayOutItems | CollectionViewWaterfallLayout.swift:209-248 | Columns start at the cursor plus the section's top inset, then the items are placed. The cursor becomes the longest column minus the interitem spacing, plus the bottom inset. Exactly `ItemsStep`. |
| WaterfallLayout.Layout.PlaceSectionItems | CollectionViewWaterfallLayout.swift:218-241 | The item loop: the columns and the section's items are `PlaceItems(g, sizes, old columns)`. The items are appended to the flat list and as the section's slot. |
| WaterfallLayout.Layout.PlaceNextItem | CollectionViewWaterfallLayout.swift:222-239 | One item: `PlaceItem` of the old columns. It goes to the shortest column at that column's height, and the column grows to the item's bottom plus the spacing. The item is appended to the flat list. |
| WaterfallLayout.Layout.AddSectionFooter | CollectionViewWaterfallLayout.swift:250-280 | Adds the footer's top inset to the cursor. When the footer height is positive, stores the footer (z-index 512) and moves the cursor below it. Either way every column then becomes the cursor. Exactly `FooterStep`. |
| WaterfallLayout.Layout.BuildUnionRects | CollectionViewWaterfallLayout.swift:284-293 | The while loop over the flat list stores exactly `UnionRectsOf(allItemAttributes)` and changes nothing else. |
| WaterfallLayout.Layout.CollectionViewContentSize | CollectionViewWaterfallLayout.swift:296-306 | Returns the zero size with no sections. Otherwise returns the bounds' width with column 0's height. |
| WaterfallLayout.Layout.LayoutAttributesForItem | CollectionViewWaterfallLayout.swift:308-318 | Returns None exactly when the section or the item index is out of range; otherwise the stored cell. |
| WaterfallLayout.Layout.LayoutAttributesForSupplementaryView | CollectionViewWaterfallLayout.swift:320-335 | The two waterfall kinds look up the header and footer maps, and UIKit's header kind looks up the sticky map. Any other kind gives None, as does a section missing from that map. |
| WaterfallLayout.Layout.LayoutAttributesForElementsInRect | CollectionViewWaterfallLayout.swift:337-418 | The answer and the new sticky map are exactly `RectQuery(old state, rect, offset)`. No other field changes and the state stays consistent. |
| WaterfallLayout.Layout.CandidateRange | CollectionViewWaterfallLayout.swift:338-353 | The forward and backward scans with `break` give `RangeBegin` and `RangeEnd`. |
| WaterfallLayout.Layout.VisibleElements | CollectionViewWaterfallLayout.swift:354-359 | The scan of `[begin, end)` keeps exactly `Visible` of that slice, in order. |
| WaterfallLayout.CollectMissingSections | CollectionViewWaterfallLayout.swift:363-376 | The element loop computes `MissingSections`: a cell adds its section and a sticky header removes its own. |
| WaterfallLayout.Layout.StickyHeadersFor | CollectionViewWaterfallLayout.swift:377-382 | The enumeration appends `StickyFor(missing, sticky map, section count)`, the stored sticky headers in ascending section order. |
| WaterfallLayout.Layout.PinStickyHeaders | CollectionViewWaterfallLayout.swift:384-416 | The final loop returns `PinEach` of its input. The sticky map becomes the old map with the pinned headers written back, because the source mutates the stored objects in place. |
| WaterfallLayout.Layout.PinNext | CollectionViewWaterfallLayout.swift:384-416 | One step of the final loop keeps the loop's `PinEach` / `WriteBack` invariant. |
| WaterfallLayout.Layout.PinHeader | CollectionViewWaterfallLayout.swift:386-413 | One sticky header becomes `Pin(old state, header, offset)`, using the footer when the section has one and its last cell otherwise. It is stored back under its section. |
| WaterfallLayout.Layout.ShouldInvalidateLayoutForBoundsChange | CollectionViewWaterfallLayout.swift:420-427 | Always true, whether or not the width changed. |
| WaterfallLayout.PreparedItemLookup | CollectionViewWaterfallLayout.swift:308-318 | After a pass the item lookup answers exactly for s < section count and i < that section's item count; otherwise it returns None. The cell it returns is at (s, i), one column wide, as tall as its aspect ratio says, and at a column's left edge. |
| WaterfallLayout.PreparedSupplementaryLookup | CollectionViewWaterfallLayout.swift:320-335 | After a pass a header is found exactly when the section's effective header height is > 0. A footer is found exactly when its footer height is > 0, and a sticky header exactly when the sticky height is > 0. |
| WaterfallLayout.PreparedContentHeight | CollectionViewWaterfallLayout.swift:278-280 | After a pass there are columnCount columns, all at the final cursor, so the content height from column 0 is where the last section ended. |
| Placement.ItemWidthFits | CollectionViewWaterfallLayout.swift:161-162 | n columns of the computed width and n-1 gaps fit in the width left inside the section insets, with less than one point per column lost to rounding. |
| Placement.ColumnWithinSection | CollectionViewWaterfallLayout.swift:161-226 | Every column's left edge is at least the left inset, and its right edge at most the width minus the right inset. This holds for a non-negative width and spacing. |
| Placement.ItemHeightKeepsAspect | CollectionViewWaterfallLayout.swift:229-232 | When the supplied size is positive in both directions, the item height keeps the aspect ratio: height × w = h × itemWidth. Otherwise it is 0. |
| Placement.PlaceItemsExtend | CollectionViewWaterfallLayout.swift:222-239 | Placing the first k+1 items is placing the first k and then item k. |
| Placement.PlaceItemsPrefix | CollectionViewWaterfallLayout.swift:222-239 | Later items never change an earlier item. |
| Placement.PlacedItem | CollectionViewWaterfallLayout.swift:222-239 | Item k is a cell of the section at index k. Its x is the left inset plus column × (itemWidth + spacing) for a shortest column, its y is that column's height before it, and it is itemWidth wide and ItemHeight tall. Only that column changes: it becomes the item's bottom plus the interitem spacing. |
| Placement.ColumnsNeverShrink | CollectionViewWaterfallLayout.swift:238 | With a non-negative spacing no column ever goes down. |
| Placement.ColumnCoversItems | CollectionViewWaterfallLayout.swift:238 | With a non-negative spacing, every placed item ends at least the spacing above its column's final height. |
| Placement.SameColumnNoOverlap | CollectionViewWaterfallLayout.swift:222-239 | Two items in the same column do not overlap: the later starts at least the spacing below the earlier. |
| Placement.ItemsBetweenStartAndLongest | CollectionViewWaterfallLayout.swift:209-248 | With at least one column, a non-negative interitem spacing and a common start of at least 0, the following hold. Every item's y is at least the start. Its bottom plus the spacing is at most the longest column's height, so the cursor after the items is at least every item's bottom. (The start must be at least 0 because the longest scan starts at 0.) |
| PassFacts.PlacedCells | CollectionViewWaterfallLayout.swift:222-236 | Every placed item is a cell of its section at its own index. |
| PassFacts.SectionElementsShape | CollectionViewWaterfallLayout.swift:198-276 | A section appends only elements of its own section and never a sticky header. Its cells sit after its header part and are its items, in order. |
| PassFacts.SectionStepAppends | CollectionViewWaterfallLayout.swift:198-276 | One section appends to the flat list its header if its height is > 0, then its items in index order, then its footer if its height is > 0. Its items become its slot in the item store. |
| PassFacts.SectionStepMaps | CollectionViewWaterfallLayout.swift:167-276 | One section adds its sticky header exactly when the sticky height is > 0, its header exactly when the header height is > 0, and its footer exactly when the footer height is > 0, and touches no other entry. |
| PassFacts.ItemsShapedStep | CollectionViewWaterfallLayout.swift:218-241 | The section step keeps the item store invariant: one slot per laid-out section, holding as many cells as the host reported, each placed as PlacedItem says. |
| PassFacts.DomainsStep | CollectionViewWaterfallLayout.swift:167-276 | The section step keeps the map invariant: an entry exists exactly when that element's height is > 0, with the right kind, section and height. |
| PassFacts.FlatWellFormedStep | CollectionViewWaterfallLayout.swift:198-276 | The section step keeps the flat-list invariant: no sticky header is in the flat list, and every cell there is the stored cell at its own (section, item). |
| PassFacts.OrderedStep | CollectionViewWaterfallLayout.swift:198-276 | The section step keeps the flat list in layout order: by section, then header, cells by index, footer. |
| PassFacts.PassInvariants | CollectionViewWaterfallLayout.swift:141-282 | After any number of sections all four invariants hold: the item store, the maps, the flat list and its order. |
| PassGeometry.ColumnsFlushAfterPass | CollectionViewWaterfallLayout.swift:278-280 | After any number of sections there are columnCount columns, every one equal to the cursor. |
| PassGeometry.ItemsWithinSection | CollectionViewWaterfallLayout.swift:161-226 | After a pass every stored item lies horizontally within [sectionInset.left, width − sectionInset.right], for a non-negative item width and spacing. |
| PassGeometry.SectionEndsBelowItems | CollectionViewWaterfallLayout.swift:238-248 | With at least one column, a non-negative interitem spacing and `top + sectionInset.top` at least 0, the following hold. The cursor after a section's items is at least every item's bottom plus the bottom inset. Every item's y is at least `top + sectionInset.top`. |
| PassGeometry.EmptySectionEnd | CollectionViewWaterfallLayout.swift:244-248 | A section without items still subtracts the interitem spacing: it ends at its start minus the spacing, plus its bottom inset. |
| LayoutState.PreparedConsistent | CollectionViewWaterfallLayout.swift:141-293 | A finished pass with its union rectangles is a state the query accepts (`Consistent`): no sticky header in the flat list, every flat cell has its stored slot, and every sticky entry sits under its own section. |
| LayoutState.PreparedItems | CollectionViewWaterfallLayout.swift:218-241 | After a pass, (s, i) has a stored cell exactly when the host reports that item, and the cell is shaped as PlacedItem says. |
| LayoutState.PreparedSupplementary | CollectionViewWaterfallLayout.swift:167-276 | After a pass the header, footer and sticky maps hold an entry exactly when the effective height is > 0. Each entry has its kind, its section and that height. |
| UnionIndex.BucketCount | CollectionViewWaterfallLayout.swift:284-293 | The number of runs is ceil(L / 20): the runs cover L elements, and one run fewer would not. |
| UnionIndex.BucketLast | CollectionViewWaterfallLayout.swift:289 | A run ends 19 elements after its start, or at the last element when the list ends sooner. |
| UnionIndex.UnionRectsOf | CollectionViewWaterfallLayout.swift:284-293 | There are BucketCount(L) union rectangles. |
| UnionIndex.UnionRectCoversRunEnds | CollectionViewWaterfallLayout.swift:288-291 | Rectangle k is in range and covers the frames of run k's first and last elements. |
| UnionIndex.BucketsPartition | CollectionViewWaterfallLayout.swift:284-293 | Element i lies in run i / 20 and in no other run. |
| UnionIndex.BucketsAdjacent | CollectionViewWaterfallLayout.swift:287-292 | Each run ends just before the next begins, and the last run ends at the last element. |
| Query.FirstHit | CollectionViewWaterfallLayout.swift:342-347 | The first union rectangle the rect meets, or None exactly when it meets none. |
| Query.LastHit | CollectionViewWaterfallLayout.swift:348-353 | The last union rectangle the rect meets, or None exactly when it meets none. |
| Query.RangeWithinFlat | CollectionViewWaterfallLayout.swift:338-353 | 0 ≤ begin ≤ end ≤ L. With no hit, begin is 0 and end is the number of union rectangles. With a hit the range is non-empty. |
| Query.RunEndsInRange | CollectionViewWaterfallLayout.swift:342-353 | The first or last element of a run whose frame meets the rect lies in [begin, end). |
| Query.VisibleMembers | CollectionViewWaterfallLayout.swift:354-359 | The filter keeps exactly the scanned elements that intersect the rect. |
| Query.MissingAreCellSections | CollectionViewWaterfallLayout.swift:363-376 | Without sticky headers among the elements, the missing sections are exactly the sections of the visible cells. |
| Query.StickyForMembers | CollectionViewWaterfallLayout.swift:377-382 | The added headers are exactly the stored sticky headers of the missing sections, each once, in ascending section order. |
| Query.PinnedY | CollectionViewWaterfallLayout.swift:404-408 | The clamp `min(max(offset, 0), B)` with B = maxY(last) − headerHeight, case by case: the result is at most B. It is exactly B when the offset is at least B or when B < 0. It is 0 when offset ≤ 0 ≤ B, the offset itself when 0 ≤ offset ≤ B, and at least 0 whenever B ≥ 0. |
| Query.Pin | CollectionViewWaterfallLayout.swift:404-411 | Only y changes: it becomes the clamp against the footer if the section has one, else its last cell. Kind, section, item, x, width, height and z-index are kept. |
| Query.PinIdempotent | CollectionViewWaterfallLayout.swift:404-411 | Pinning an already pinned header changes nothing. |
| Query.PinEach | CollectionViewWaterfallLayout.swift:384-416 | The answer has as many elements as its input. Each sticky header is pinned and everything else passes through. |
| Query.WriteBack | CollectionViewWaterfallLayout.swift:384-413 | Writing back pinned headers keeps every old key and adds the pinned headers' sections. |
| Query.WriteBackEntries | CollectionViewWaterfallLayout.swift:384-413 | With distinct sections, a written-back entry is its pinned header and every other entry is kept. |
| Query.VisibleFacts | CollectionViewWaterfallLayout.swift:354-359 | Every visible element comes from the flat list, meets the rect and is not a sticky header. |
| Query.AddedFacts | CollectionViewWaterfallLayout.swift:377-382 | Every added header is a stored sticky header of a section with a visible cell. That section has a cell, so the header can be pinned. The headers come in ascending section order. |
| Query.AddedCover | CollectionViewWaterfallLayout.swift:377-382 | Every stored sticky header of a section with a visible cell is added. |
| QueryFacts.QueryShape | CollectionViewWaterfallLayout.swift:337-418 | The answer is the visible elements, unchanged, followed by the added sticky headers, each pinned. |
| QueryFacts.QuerySoundFlat | CollectionViewWaterfallLayout.swift:354-359 | Every answered element that is not a sticky header is from the flat list and intersects the rect. |
| QueryFacts.QueryCompleteInRange | CollectionViewWaterfallLayout.swift:354-359 | Every element in [begin, end) that intersects the rect is answered. |
| QueryFacts.QueryFindsRunEnds | CollectionViewWaterfallLayout.swift:342-359 | The first and last element of every run are answered whenever they intersect the rect. |
| QueryFacts.QueryOutsideIsEmpty | CollectionViewWaterfallLayout.swift:337-418 | A rect that meets no frame of the flat list gets an empty answer. |
| QueryState.QueryStickyEntries | CollectionViewWaterfallLayout.swift:384-416 | After a query the sticky map has the same keys. The entries of sections with a visible cell are their pinned headers, and every other entry is untouched. |
| QueryState.QueryKeepsConsistent | CollectionViewWaterfallLayout.swift:384-416 | The state a query leaves behind is still consistent. |
| QueryState.QueryStableAnswer | CollectionViewWaterfallLayout.swift:337-418 | Asking the same query again, on the state the first query left, gives the same answer. |
| QueryState.QueryStableState | CollectionViewWaterfallLayout.swift:337-418 | The second query also leaves the same sticky map. |
| QueryState.QuerySoundSticky | CollectionViewWaterfallLayout.swift:377-416 | Every answered sticky header is the stored header of a section with a visible cell, pinned. |
| QueryState.QueryStickyPerSection | CollectionViewWaterfallLayout.swift:363-382 | The answer holds a sticky header of section s exactly when s has a stored sticky header and a visible cell. |
| QueryState.WriteBackAgain | CollectionViewWaterfallLayout.swift:384-413 | Writing the same pinned headers back twice is the same as once. |
| Scenario.ScenarioItemWidth | CollectionViewWaterfallLayout.swift:161-162 | Two columns with spacing 10 in a 300-wide view are 145 wide. |
| Scenario.ScenarioColumns | CollectionViewWaterfallLayout.swift:222-239 | The five items (100,50), (100,100), (100,25), (100,75), (100,50) go to columns 0, 1, 0, 0, 1. Their frames are as computed, and the columns end at 247.5 and 237.5. |
| Scenario.ScenarioPass | CollectionViewWaterfallLayout.swift:112-282 | A whole pass with the default properties stores those five items. It ends with both columns and the cursor at 237.5. |

## Left out

- The UIKit plumbing is replaced by the `Host` parameter and the scroll-offset parameter. This covers the weak `collectionView` / delegate back-reference, `super.prepareLayout`, NSIndexPath, NSMutableIndexSet and the delegate protocol's conformance assertion.
- `invalidateLayout` is modelled as a counter of invalidations. What UIKit does on invalidation is not part of this model.
- Float, CGFloat and `floorf` are exact reals. Rounding, overflow, NaN, infinities and CoreGraphics' null rectangle are not modelled.
- WaterfallLayout.Layout.ShortestColumnIndex: the source starts its running minimum at MAXFLOAT. The model uses "no minimum yet", which agrees for heights in Float's finite range. In Float a height at or above MAXFLOAT is MAXFLOAT or infinity, which the model does not represent.
- WaterfallLayout.Layout.CollectionViewContentSize: the requirement `numberOfSections == 0 || |columnHeights| > 0` stands for the source's out-of-range trap. The source reads `columnHeights[0]` at line 303 with an empty array before any pass, or when the last pass returned early at line 117 but the view now has sections. That crash is not modelled.
- `prepareLayout` with zero sections returns before clearing anything. The model keeps that: the old state remains. The `columnCount > 0` assertion is a precondition only when there are sections, as in the source.
- The query uses the stored item counts (`sectionItemAttributes`) where the source asks the collection view again. The two agree after a pass, which PreparedItemLookup states.
- The sections of `NSMutableIndexSet` are enumerated in ascending order. The model scans section numbers below the number of stored sections. Every missing section is below that number.
- The zero-item branch of the pinning loop (lines 399-402) is not modelled. It would force-unwrap a footer lookup under UIKit's footer kind, which this layout never answers. It is unreachable, because a sticky header is only added for a section with a visible cell. The model states this as the precondition `Pinnable` and proves the query meets it from `Consistent`.
- `firstCellAttributes` (lines 390-398) is computed and never used, so it is not modelled. The alternative clamp, commented out at line 410, is not modelled either.
- The union rectangles do not cover every frame of their run, only its first and last. No coverage of middle elements is claimed, and completeness is proved only within the scanned range and for run ends.
- The two demo files (the view controller and `HeaderCollectionReusableView`) are UI glue and are not part of this model.
- Object identity is not modelled. The source mutates a sticky header object that is both in `headersStickyAttribute` and in the answer. The model returns the pinned value and writes it back into the map.

Two consequences of the code, each proved:
- **shouldInvalidateLayoutForBoundsChange** returns true on both branches (CollectionViewWaterfallLayout.swift:420-427), whether or not the width changed.
- **Five-item example.** With the sizes of `Scenario.Sizes` in two 145-wide columns, the fourth item goes to column 0 and the fifth to column 1. After the third item, column 0 is at 128.75 and column 1 at 155 (Scenario.ScenarioColumns).
