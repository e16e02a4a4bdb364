/** The rectangle query as a pure specification over the built state: the
    candidate range from the union rectangles, the visible elements, the
    sections whose sticky header must be added, and the pinning of those
    headers. */
module Query {
  import opened Options
  import opened Geometry
  import opened Elements
  import opened Placement
  import opened UnionIndex

  // ---------------------------------------------------------------------------
  // The candidate range.

  /** The first union rectangle the query rectangle meets. */
  function FirstHit(ur: seq<Rect>, rect: Rect): (r: Option<nat>)
    ensures r.None? <==> forall j :: 0 <= j < |ur| ==> !Intersects(rect, ur[j])
    ensures r.Some? ==> r.value < |ur| && Intersects(rect, ur[r.value]) &&
                        forall j :: 0 <= j < r.value ==> !Intersects(rect, ur[j])
    decreases |ur|
  {
    if |ur| == 0 then None
    else
      match FirstHit(ur[..|ur| - 1], rect)
      case Some(i) => Some(i)
      case None => if Intersects(rect, ur[|ur| - 1]) then Some(|ur| - 1) else None
  }

  /** The last union rectangle the query rectangle meets. */
  function LastHit(ur: seq<Rect>, rect: Rect): (r: Option<nat>)
    ensures r.None? <==> forall j :: 0 <= j < |ur| ==> !Intersects(rect, ur[j])
    ensures r.Some? ==> r.value < |ur| && Intersects(rect, ur[r.value]) &&
                        forall j :: r.value < j < |ur| ==> !Intersects(rect, ur[j])
    decreases |ur|
  {
    if |ur| == 0 then None
    else if Intersects(rect, ur[|ur| - 1]) then Some(|ur| - 1)
    else LastHit(ur[..|ur| - 1], rect)
  }

  /** Where the scan of the flat list starts: the first element of the first
      run met, or 0 when no run is met. */
  function RangeBegin(ur: seq<Rect>, rect: Rect): nat {
    match FirstHit(ur, rect)
    case Some(i) => BucketFirst(i)
    case None => 0
  }

  /** Where the scan stops (exclusive): one past the last run met, cut at the
      list's length; when no run is met the end keeps its initial value, the
      number of union rectangles. */
  function RangeEnd(ur: seq<Rect>, rect: Rect, n: nat): nat {
    match LastHit(ur, rect)
    case Some(i) => if BucketFirst(i + 1) < n then BucketFirst(i + 1) else n
    case None => |ur|
  }

  /** With as many union rectangles as runs, the range is a valid slice of the
      flat list; it is empty exactly when no run is met, and otherwise it
      spans from the first run met through the last. */
  lemma RangeWithinFlat(ur: seq<Rect>, rect: Rect, n: nat)
    requires |ur| == BucketCount(n)
    ensures 0 <= RangeBegin(ur, rect) <= RangeEnd(ur, rect, n) <= n
    ensures FirstHit(ur, rect).None? ==> RangeBegin(ur, rect) == 0 && RangeEnd(ur, rect, n) == |ur|
    ensures FirstHit(ur, rect).Some? ==> RangeBegin(ur, rect) < RangeEnd(ur, rect, n)
  {
    var f, l := FirstHit(ur, rect), LastHit(ur, rect);
    if f.Some? {
      assert l.Some? && f.value <= l.value;
      assert BucketFirst(f.value) < n;
    } else {
      assert BucketCount(n) <= n;
    }
  }

  /** Each element at the start or the end of a run whose frame meets the
      query rectangle lies inside the scanned range. */
  lemma RunEndsInRange(all: seq<Attributes>, rect: Rect, i: nat)
    requires i < |all| && Intersects(rect, all[i].frame)
    requires i % UnionSize == 0 || i == BucketLast(|all|, i / UnionSize)
    ensures RangeBegin(UnionRectsOf(all), rect) <= i < RangeEnd(UnionRectsOf(all), rect, |all|)
  {
    var ur := UnionRectsOf(all);
    var k := i / UnionSize;
    BucketsPartition(|all|, i);
    assert i == BucketFirst(k) || i == BucketLast(|all|, k);
    UnionRectCoversRunEnds(all, k);
    IntersectsCover(rect, ur[k], all[i].frame);
    var f, l := FirstHit(ur, rect), LastHit(ur, rect);
    assert f.Some? && f.value <= k && l.Some? && k <= l.value;
    assert BucketFirst(f.value) <= BucketFirst(k) by {
      MultiplyMore(f.value, k);
    }
    assert BucketFirst(k + 1) <= BucketFirst(l.value + 1) by {
      MultiplyMore(k + 1, l.value + 1);
    }
  }

  lemma MultiplyMore(a: nat, b: nat)
    requires a <= b
    ensures BucketFirst(a) <= BucketFirst(b)
  {
  }

  // ---------------------------------------------------------------------------
  // The visible elements.

  /** The elements, in order, whose frame meets the rectangle. */
  function Visible(s: seq<Attributes>, rect: Rect): (r: seq<Attributes>)
    ensures |r| <= |s|
    decreases |s|
  {
    if |s| == 0 then []
    else Visible(s[..|s| - 1], rect) + (if Intersects(rect, s[|s| - 1].frame) then [s[|s| - 1]] else [])
  }

  /** Visible keeps exactly the elements that meet the rectangle. */
  lemma {:induction false} VisibleMembers(s: seq<Attributes>, rect: Rect)
    ensures forall a :: a in Visible(s, rect) <==> a in s && Intersects(rect, a.frame)
    decreases |s|
  {
    if |s| > 0 {
      VisibleMembers(s[..|s| - 1], rect);
      assert s == s[..|s| - 1] + [s[|s| - 1]];
    }
  }

  // ---------------------------------------------------------------------------
  // The sticky headers to add.

  /** The sections with a visible cell but no visible sticky header; each
      element is looked at in order, a cell adding its section and a sticky
      header removing its own. */
  function MissingSections(attrs: seq<Attributes>): set<nat>
    decreases |attrs|
  {
    if |attrs| == 0 then {}
    else
      var a := attrs[|attrs| - 1];
      var before := MissingSections(attrs[..|attrs| - 1]);
      var added := if IsCell(a) then before + {a.section} else before;
      if IsSticky(a) then added - {a.section} else added
  }

  /** Without sticky headers among them, the missing sections are exactly the
      sections of the cells. */
  lemma {:induction false} MissingAreCellSections(attrs: seq<Attributes>)
    requires forall i :: 0 <= i < |attrs| ==> !IsSticky(attrs[i])
    ensures forall s :: s in MissingSections(attrs) <==> exists a :: a in attrs && IsCell(a) && a.section == s
    decreases |attrs|
  {
    if |attrs| > 0 {
      var init := attrs[..|attrs| - 1];
      MissingAreCellSections(init);
      assert attrs == init + [attrs[|attrs| - 1]];
    }
  }

  /** The stored sticky headers of the missing sections below n, in ascending
      section order. */
  function StickyFor(missing: set<nat>, sticky: map<nat, Attributes>, n: nat): (r: seq<Attributes>)
    ensures |r| <= n
    decreases n
  {
    if n == 0 then []
    else StickyFor(missing, sticky, n - 1) + (if n - 1 in missing && n - 1 in sticky then [sticky[n - 1]] else [])
  }

  /** The headers added are exactly the stored sticky headers of the missing
      sections below n, each once, in ascending section order. */
  lemma {:induction false} StickyForMembers(missing: set<nat>, sticky: map<nat, Attributes>, n: nat)
    requires forall s :: s in sticky ==> sticky[s].section == s
    ensures forall a :: a in StickyFor(missing, sticky, n) <==> exists s: nat :: s < n && s in missing && s in sticky && a == sticky[s]
    ensures forall i, j :: 0 <= i < j < |StickyFor(missing, sticky, n)| ==> StickyFor(missing, sticky, n)[i].section < StickyFor(missing, sticky, n)[j].section
    ensures forall i :: 0 <= i < |StickyFor(missing, sticky, n)| ==> StickyFor(missing, sticky, n)[i].section < n
    decreases n
  {
    if n > 0 {
      StickyForMembers(missing, sticky, n - 1);
      var prev := StickyFor(missing, sticky, n - 1);
      var r := StickyFor(missing, sticky, n);
      var extra := if n - 1 in missing && n - 1 in sticky then [sticky[n - 1]] else [];
      assert r == prev + extra;
      forall a | a in r
        ensures exists s: nat :: s < n && s in missing && s in sticky && a == sticky[s]
      {
        if a !in prev {
          assert a in extra;
          assert n - 1 < n && n - 1 in missing && n - 1 in sticky && a == sticky[n - 1];
        }
      }
      forall a, s: nat | s < n && s in missing && s in sticky && a == sticky[s]
        ensures a in r
      {
        if s < n - 1 {
          assert a in prev;
        } else {
          assert a == r[|r| - 1];
        }
      }
      forall i, j | 0 <= i < j < |r|
        ensures r[i].section < r[j].section
      {
        if j >= |prev| {
          assert r[i] == prev[i];
        }
      }
    }
  }


  // ---------------------------------------------------------------------------
  // Pinning.

  /** The frame the pinned header is held above: the section's footer when
      it has one, else its last item. */
  function LastFrame(b: Built, s: nat): Rect
    requires s < |b.sectionItems| && |b.sectionItems[s]| > 0
  {
    if s in b.footers then b.footers[s].frame else b.sectionItems[s][|b.sectionItems[s]| - 1].frame
  }

  /** The pinned vertical position: the scroll offset, not above 0 and not so
      low that the header's bottom passes the bottom of `last`. */
  function PinnedY(offsetY: real, last: Rect, header: Rect): (r: real)
    ensures r <= MaxY(last) - Height(header)
    ensures r == MaxY(last) - Height(header) || r == offsetY || r == 0.0
    ensures MaxY(last) - Height(header) >= 0.0 ==> r >= 0.0
    ensures 0.0 <= offsetY <= MaxY(last) - Height(header) ==> r == offsetY
    ensures offsetY <= 0.0 <= MaxY(last) - Height(header) ==> r == 0.0
    ensures offsetY >= MaxY(last) - Height(header) ==> r == MaxY(last) - Height(header)
    ensures MaxY(last) - Height(header) < 0.0 ==> r == MaxY(last) - Height(header)
  {
    Min(Max(offsetY, 0.0), MaxY(last) - Height(header))
  }

  /** A sticky header whose section has a stored item. */
  predicate Pinnable(b: Built, a: Attributes) {
    a.section < |b.sectionItems| && |b.sectionItems[a.section]| > 0
  }

  /** The header moved to its pinned position; its size and everything else stay. */
  function Pin(b: Built, a: Attributes, offsetY: real): (r: Attributes)
    requires Pinnable(b, a)
    ensures r.category == a.category && r.section == a.section && r.item == a.item && r.zIndex == a.zIndex
    ensures r.frame.x == a.frame.x && r.frame.width == a.frame.width && r.frame.height == a.frame.height
    ensures r.frame.y == PinnedY(offsetY, LastFrame(b, a.section), a.frame)
  {
    a.(frame := a.frame.(y := PinnedY(offsetY, LastFrame(b, a.section), a.frame)))
  }

  /** Pinning depends only on the header's size, so pinning again changes nothing. */
  lemma PinIdempotent(b: Built, a: Attributes, offsetY: real)
    requires Pinnable(b, a)
    ensures Pin(b, Pin(b, a, offsetY), offsetY) == Pin(b, a, offsetY)
  {
    var p := Pin(b, a, offsetY);
    assert Height(p.frame) == Height(a.frame);
  }

  /** The final pass over the result: every sticky header is pinned, every
      other element is passed through. */
  function PinEach(b: Built, attrs: seq<Attributes>, offsetY: real): (r: seq<Attributes>)
    requires forall i :: 0 <= i < |attrs| && IsSticky(attrs[i]) ==> Pinnable(b, attrs[i])
    ensures |r| == |attrs|
    ensures forall i :: 0 <= i < |attrs| ==>
              r[i] == if IsSticky(attrs[i]) then Pin(b, attrs[i], offsetY) else attrs[i]
    decreases |attrs|
  {
    if |attrs| == 0 then []
    else
      var a := attrs[|attrs| - 1];
      PinEach(b, attrs[..|attrs| - 1], offsetY) + [if IsSticky(a) then Pin(b, a, offsetY) else a]
  }

  /** The sticky map with the pinned headers written back (the source changes
      the stored header objects in place). */
  function WriteBack(sticky: map<nat, Attributes>, pinned: seq<Attributes>): (r: map<nat, Attributes>)
    ensures forall s :: s in sticky ==> s in r
    ensures forall i :: 0 <= i < |pinned| ==> pinned[i].section in r
    decreases |pinned|
  {
    if |pinned| == 0 then sticky
    else
      var a := pinned[|pinned| - 1];
      WriteBack(sticky, pinned[..|pinned| - 1])[a.section := a]
  }

  /** When every pinned header's section is a key, with distinct sections, a
      written-back entry is that pinned header and every other entry is kept. */
  lemma {:induction false} WriteBackEntries(sticky: map<nat, Attributes>, pinned: seq<Attributes>)
    requires forall i, j :: 0 <= i < j < |pinned| ==> pinned[i].section < pinned[j].section
    ensures forall i :: 0 <= i < |pinned| ==> WriteBack(sticky, pinned)[pinned[i].section] == pinned[i]
    ensures forall s :: s in sticky && (forall i :: 0 <= i < |pinned| ==> pinned[i].section != s) ==>
              WriteBack(sticky, pinned)[s] == sticky[s]
    decreases |pinned|
  {
    if |pinned| > 0 {
      var init := pinned[..|pinned| - 1];
      var a := pinned[|pinned| - 1];
      WriteBackEntries(sticky, init);
      var prev := WriteBack(sticky, init);
      assert WriteBack(sticky, pinned) == prev[a.section := a];
      forall i | 0 <= i < |init|
        ensures init[i].section != a.section
      {
        assert pinned[i] == init[i];
      }
    }
  }

  // ---------------------------------------------------------------------------
  // The whole query.

  /** What the query needs of the stored state; preparing establishes it and
      the query preserves it. No sticky header is in the flat list, every cell
      there has its stored slot, every stored sticky header is one and sits
      under its own section, and the union rectangles summarise the flat list. */
  predicate Consistent(b: Built, ur: seq<Rect>) {
    (forall i :: 0 <= i < |b.all| ==> !IsSticky(b.all[i])) &&
    (forall i :: 0 <= i < |b.all| && IsCell(b.all[i]) ==>
       b.all[i].section < |b.sectionItems| && b.all[i].item < |b.sectionItems[b.all[i].section]|) &&
    (forall s :: s in b.sticky ==> IsSticky(b.sticky[s]) && b.sticky[s].section == s) &&
    ur == UnionRectsOf(b.all)
  }

  /** The elements of the scanned range that meet the rectangle. */
  function VisibleInRange(b: Built, ur: seq<Rect>, rect: Rect): seq<Attributes>
    requires |ur| == BucketCount(|b.all|)
  {
    RangeWithinFlat(ur, rect, |b.all|);
    Visible(b.all[RangeBegin(ur, rect)..RangeEnd(ur, rect, |b.all|)], rect)
  }

  /** The sticky headers added for the visible cells' sections, unpinned. */
  function StickyAdded(b: Built, ur: seq<Rect>, rect: Rect): seq<Attributes>
    requires |ur| == BucketCount(|b.all|)
  {
    StickyFor(MissingSections(VisibleInRange(b, ur, rect)), b.sticky, |b.sectionItems|)
  }

  /** The visible elements come from the flat list, meet the rectangle and
      are not sticky headers. */
  lemma VisibleFacts(b: Built, ur: seq<Rect>, rect: Rect)
    requires Consistent(b, ur)
    ensures forall i :: 0 <= i < |VisibleInRange(b, ur, rect)| ==>
              !IsSticky(VisibleInRange(b, ur, rect)[i]) && VisibleInRange(b, ur, rect)[i] in b.all &&
              Intersects(rect, VisibleInRange(b, ur, rect)[i].frame)
  {
    var n := |b.all|;
    RangeWithinFlat(ur, rect, n);
    var range := b.all[RangeBegin(ur, rect)..RangeEnd(ur, rect, n)];
    var vis := VisibleInRange(b, ur, rect);
    VisibleMembers(range, rect);
    forall i | 0 <= i < |vis|
      ensures !IsSticky(vis[i]) && vis[i] in b.all && Intersects(rect, vis[i].frame)
    {
      assert vis[i] in vis;
      assert vis[i] in range;
    }
  }

  /** A cell of the flat list has a stored item in its section. */
  lemma CellHasSlot(b: Built, ur: seq<Rect>, a: Attributes)
    requires Consistent(b, ur) && a in b.all && IsCell(a)
    ensures a.section < |b.sectionItems| && |b.sectionItems[a.section]| > 0
  {
    var j :| 0 <= j < |b.all| && b.all[j] == a;
  }

  /** The headers added for a set of sections that all have stored items are
      sticky headers of those sections, and can be pinned. */
  lemma StickyForPinnable(b: Built, missing: set<nat>)
    requires forall s :: s in b.sticky ==> IsSticky(b.sticky[s]) && b.sticky[s].section == s
    requires forall s :: s in missing ==> s < |b.sectionItems| && |b.sectionItems[s]| > 0
    ensures forall i :: 0 <= i < |StickyFor(missing, b.sticky, |b.sectionItems|)| ==>
              IsSticky(StickyFor(missing, b.sticky, |b.sectionItems|)[i]) &&
              Pinnable(b, StickyFor(missing, b.sticky, |b.sectionItems|)[i]) &&
              StickyFor(missing, b.sticky, |b.sectionItems|)[i].section in missing &&
              StickyFor(missing, b.sticky, |b.sectionItems|)[i].section in b.sticky &&
              StickyFor(missing, b.sticky, |b.sectionItems|)[i] == b.sticky[StickyFor(missing, b.sticky, |b.sectionItems|)[i].section]
  {
    var r := StickyFor(missing, b.sticky, |b.sectionItems|);
    StickyForMembers(missing, b.sticky, |b.sectionItems|);
    forall i | 0 <= i < |r|
      ensures IsSticky(r[i]) && Pinnable(b, r[i]) && r[i].section in missing &&
              r[i].section in b.sticky && r[i] == b.sticky[r[i].section]
    {
      assert r[i] in r;
    }
  }

  /** Every section with a visible cell has a stored item. */
  lemma MissingHaveSlots(b: Built, ur: seq<Rect>, rect: Rect)
    requires Consistent(b, ur)
    ensures forall s :: s in MissingSections(VisibleInRange(b, ur, rect)) ==>
              s < |b.sectionItems| && |b.sectionItems[s]| > 0
  {
    var vis := VisibleInRange(b, ur, rect);
    VisibleFacts(b, ur, rect);
    MissingAreCellSections(vis);
    forall s | s in MissingSections(vis)
      ensures s < |b.sectionItems| && |b.sectionItems[s]| > 0
    {
      var a :| a in vis && IsCell(a) && a.section == s;
      CellHasSlot(b, ur, a);
    }
  }

  /** Every added sticky header belongs to a section with a visible cell, so
      it can be pinned; the added headers come in ascending section order. */
  lemma AddedFacts(b: Built, ur: seq<Rect>, rect: Rect)
    requires Consistent(b, ur)
    ensures forall i :: 0 <= i < |StickyAdded(b, ur, rect)| ==>
              IsSticky(StickyAdded(b, ur, rect)[i]) && Pinnable(b, StickyAdded(b, ur, rect)[i]) &&
              StickyAdded(b, ur, rect)[i].section in MissingSections(VisibleInRange(b, ur, rect)) &&
              StickyAdded(b, ur, rect)[i].section in b.sticky &&
              StickyAdded(b, ur, rect)[i] == b.sticky[StickyAdded(b, ur, rect)[i].section]
    ensures forall i, j :: 0 <= i < j < |StickyAdded(b, ur, rect)| ==>
              StickyAdded(b, ur, rect)[i].section < StickyAdded(b, ur, rect)[j].section
  {
    var missing := MissingSections(VisibleInRange(b, ur, rect));
    MissingHaveSlots(b, ur, rect);
    StickyForPinnable(b, missing);
    StickyForMembers(missing, b.sticky, |b.sectionItems|);
  }

  /** Every stored sticky header of a section with a visible cell is added. */
  lemma AddedCover(b: Built, ur: seq<Rect>, rect: Rect)
    requires Consistent(b, ur)
    ensures forall s :: s in b.sticky && s in MissingSections(VisibleInRange(b, ur, rect)) ==>
              b.sticky[s] in StickyAdded(b, ur, rect)
  {
    var missing := MissingSections(VisibleInRange(b, ur, rect));
    MissingHaveSlots(b, ur, rect);
    StickyForMembers(missing, b.sticky, |b.sectionItems|);
  }

  /** The query's answer and the sticky map it leaves behind: the visible
      elements of the scanned range, then the sticky headers of the sections
      with a visible cell, every sticky header pinned and written back. */
  function RectQuery(b: Built, ur: seq<Rect>, rect: Rect, offsetY: real): (r: (seq<Attributes>, map<nat, Attributes>))
    requires Consistent(b, ur)
  {
    VisibleFacts(b, ur, rect);
    AddedFacts(b, ur, rect);
    var vis := VisibleInRange(b, ur, rect);
    var added := StickyAdded(b, ur, rect);
    var result := PinEach(b, vis + added, offsetY);
    (result, WriteBack(b.sticky, result[|vis|..]))
  }
}

/** What the rectangle query promises. */
module QueryFacts {
  import opened Geometry
  import opened Elements
  import opened Placement
  import opened UnionIndex
  import opened Query

  /** Pinning a run of plain elements followed by pinnable sticky headers
      keeps the former and pins each of the latter. */
  lemma PinEachSplit(b: Built, plain: seq<Attributes>, sticky: seq<Attributes>, offsetY: real)
    requires forall i :: 0 <= i < |plain| ==> !IsSticky(plain[i])
    requires forall i :: 0 <= i < |sticky| ==> IsSticky(sticky[i]) && Pinnable(b, sticky[i])
    ensures forall i :: 0 <= i < |plain + sticky| && IsSticky((plain + sticky)[i]) ==> Pinnable(b, (plain + sticky)[i])
    ensures |PinEach(b, plain + sticky, offsetY)| == |plain| + |sticky|
    ensures PinEach(b, plain + sticky, offsetY)[..|plain|] == plain
    ensures forall i :: 0 <= i < |sticky| ==> PinEach(b, plain + sticky, offsetY)[|plain| + i] == Pin(b, sticky[i], offsetY)
  {
    var all := plain + sticky;
    assert forall i :: 0 <= i < |plain| ==> all[i] == plain[i];
    assert forall i :: 0 <= i < |sticky| ==> all[|plain| + i] == sticky[i];
  }

  /** The answer is the visible elements, unchanged, followed by the added
      sticky headers, each pinned. */
  lemma QueryShape(b: Built, ur: seq<Rect>, rect: Rect, offsetY: real)
    requires Consistent(b, ur)
    ensures forall i :: 0 <= i < |StickyAdded(b, ur, rect)| ==> Pinnable(b, StickyAdded(b, ur, rect)[i])
    ensures |RectQuery(b, ur, rect, offsetY).0| == |VisibleInRange(b, ur, rect)| + |StickyAdded(b, ur, rect)|
    ensures RectQuery(b, ur, rect, offsetY).0[..|VisibleInRange(b, ur, rect)|] == VisibleInRange(b, ur, rect)
    ensures forall i :: 0 <= i < |StickyAdded(b, ur, rect)| ==>
              RectQuery(b, ur, rect, offsetY).0[|VisibleInRange(b, ur, rect)| + i] ==
              Pin(b, StickyAdded(b, ur, rect)[i], offsetY)
  {
    VisibleFacts(b, ur, rect);
    AddedFacts(b, ur, rect);
    PinEachSplit(b, VisibleInRange(b, ur, rect), StickyAdded(b, ur, rect), offsetY);
  }

  /** Soundness for the flat elements: every element of the answer that is
      not a sticky header comes from the flat list and meets the rectangle. */
  lemma QuerySoundFlat(b: Built, ur: seq<Rect>, rect: Rect, offsetY: real)
    requires Consistent(b, ur)
    ensures forall a :: a in RectQuery(b, ur, rect, offsetY).0 && !IsSticky(a) ==>
              a in b.all && Intersects(rect, a.frame)
  {
    var vis, added := VisibleInRange(b, ur, rect), StickyAdded(b, ur, rect);
    var res := RectQuery(b, ur, rect, offsetY).0;
    QueryShape(b, ur, rect, offsetY);
    VisibleFacts(b, ur, rect);
    AddedFacts(b, ur, rect);
    assert forall i :: |vis| <= i < |res| ==> IsSticky(res[i]);
    assert forall i :: 0 <= i < |vis| ==> res[i] == vis[i];
  }

  /** No element of a slice that meets no frame is visible. */
  lemma {:induction false} VisibleNone(all: seq<Attributes>, lo: nat, hi: nat, rect: Rect)
    requires lo <= hi <= |all|
    requires forall i :: 0 <= i < |all| ==> !Intersects(rect, all[i].frame)
    ensures Visible(all[lo..hi], rect) == []
    decreases hi - lo
  {
    if lo < hi {
      VisibleNone(all, lo, hi - 1, rect);
      assert all[lo..hi][..hi - lo - 1] == all[lo..hi - 1];
      assert all[lo..hi][hi - lo - 1] == all[hi - 1];
    }
  }

  /** No missing section, no header to add. */
  lemma {:induction false} StickyForNone(sticky: map<nat, Attributes>, n: nat)
    ensures StickyFor({}, sticky, n) == []
    decreases n
  {
    if n > 0 {
      StickyForNone(sticky, n - 1);
    }
  }

  /** A rectangle that meets no frame of the flat list gets an empty answer:
      nothing is visible, so no section needs its sticky header. */
  lemma QueryOutsideIsEmpty(b: Built, ur: seq<Rect>, rect: Rect, offsetY: real)
    requires Consistent(b, ur)
    requires forall i :: 0 <= i < |b.all| ==> !Intersects(rect, b.all[i].frame)
    ensures RectQuery(b, ur, rect, offsetY).0 == []
  {
    RangeWithinFlat(ur, rect, |b.all|);
    VisibleNone(b.all, RangeBegin(ur, rect), RangeEnd(ur, rect, |b.all|), rect);
    assert VisibleInRange(b, ur, rect) == [];
    assert MissingSections([]) == {};
    StickyForNone(b.sticky, |b.sectionItems|);
    QueryShape(b, ur, rect, offsetY);
  }

  /** An element of the scanned range whose frame meets the rectangle is visible. */
  lemma InVisibleRange(b: Built, ur: seq<Rect>, rect: Rect, i: nat)
    requires |ur| == BucketCount(|b.all|)
    requires RangeBegin(ur, rect) <= i < RangeEnd(ur, rect, |b.all|) && i < |b.all|
    requires Intersects(rect, b.all[i].frame)
    ensures b.all[i] in VisibleInRange(b, ur, rect)
  {
    var n := |b.all|;
    RangeWithinFlat(ur, rect, n);
    var lo, hi := RangeBegin(ur, rect), RangeEnd(ur, rect, n);
    var range := b.all[lo..hi];
    VisibleMembers(range, rect);
    assert range[i - lo] == b.all[i];
  }

  /** Completeness within the scanned range: every element there whose frame
      meets the rectangle is in the answer. */
  lemma QueryCompleteInRange(b: Built, ur: seq<Rect>, rect: Rect, offsetY: real, i: nat)
    requires Consistent(b, ur)
    requires RangeBegin(ur, rect) <= i < RangeEnd(ur, rect, |b.all|) && i < |b.all|
    requires Intersects(rect, b.all[i].frame)
    ensures b.all[i] in RectQuery(b, ur, rect, offsetY).0
  {
    InVisibleRange(b, ur, rect, i);
    QueryShape(b, ur, rect, offsetY);
    var vis := VisibleInRange(b, ur, rect);
    var res := RectQuery(b, ur, rect, offsetY).0;
    assert b.all[i] in res[..|vis|];
  }

  /** The first and the last element of every run are found whenever their
      frame meets the rectangle. */
  lemma QueryFindsRunEnds(b: Built, ur: seq<Rect>, rect: Rect, offsetY: real, i: nat)
    requires Consistent(b, ur) && i < |b.all| && Intersects(rect, b.all[i].frame)
    requires i % UnionSize == 0 || i == BucketLast(|b.all|, i / UnionSize)
    ensures b.all[i] in RectQuery(b, ur, rect, offsetY).0
  {
    RunEndsInRange(b.all, rect, i);
    QueryCompleteInRange(b, ur, rect, offsetY, i);
  }

}

/** What the rectangle query does to the stored sticky headers, and why
    asking again gives the same answer. */
module QueryState {
  import opened Geometry
  import opened Elements
  import opened Placement
  import opened Query
  import opened QueryFacts

  /** Writing back headers whose sections are already keys adds no key. */
  lemma {:induction false} WriteBackKeys(m: map<nat, Attributes>, p: seq<Attributes>)
    requires forall i :: 0 <= i < |p| ==> p[i].section in m
    ensures WriteBack(m, p).Keys == m.Keys
    decreases |p|
  {
    if |p| > 0 {
      WriteBackKeys(m, p[..|p| - 1]);
    }
  }

  /** Writing the same headers back a second time changes nothing. */
  lemma WriteBackAgain(m: map<nat, Attributes>, p: seq<Attributes>)
    requires Writable(m, p)
    ensures WriteBack(WriteBack(m, p), p) == WriteBack(m, p)
  {
    var once := WriteBack(m, p);
    WriteBackKeys(m, p);
    WriteBackKeys(once, p);
    WriteBackEntries(m, p);
    WriteBackEntries(once, p);
    var twice := WriteBack(once, p);
    forall s | s in once
      ensures twice[s] == once[s]
    {
      if i :| 0 <= i < |p| && p[i].section == s {
        assert twice[p[i].section] == p[i];
      }
    }
  }

  /** Pinning does not look at the sticky map. */
  lemma PinIgnoresSticky(b: Built, st: map<nat, Attributes>, a: Attributes, offsetY: real)
    requires Pinnable(b, a)
    ensures Pinnable(b.(sticky := st), a) && Pin(b.(sticky := st), a, offsetY) == Pin(b, a, offsetY)
  {
  }

  /** Reading the headers back from a map holding their pinned versions gives
      the pinned headers. */
  lemma {:induction false} StickyForWritten(b: Built, missing: set<nat>, st: map<nat, Attributes>, n: nat, offsetY: real)
    requires forall s :: s in b.sticky ==> b.sticky[s].section == s
    requires forall s :: s in missing ==> s < |b.sectionItems| && |b.sectionItems[s]| > 0
    requires st.Keys == b.sticky.Keys
    requires forall s :: s in missing && s in b.sticky ==> st[s] == Pin(b, b.sticky[s], offsetY)
    ensures forall i :: 0 <= i < |StickyFor(missing, b.sticky, n)| ==> Pinnable(b, StickyFor(missing, b.sticky, n)[i])
    ensures |StickyFor(missing, st, n)| == |StickyFor(missing, b.sticky, n)|
    ensures forall i :: 0 <= i < |StickyFor(missing, st, n)| ==>
              StickyFor(missing, st, n)[i] == Pin(b, StickyFor(missing, b.sticky, n)[i], offsetY)
    decreases n
  {
    if n > 0 {
      StickyForWritten(b, missing, st, n - 1, offsetY);
    }
  }

  /** Every header of `added` is the stored one of its section, which is in `taken`. */
  ghost predicate TakenFrom(b: Built, added: seq<Attributes>, taken: set<nat>) {
    forall i :: 0 <= i < |added| ==>
      added[i].section in taken && added[i].section in b.sticky && added[i] == b.sticky[added[i].section]
  }

  /** Every stored header of a section in `taken` is in `added`. */
  ghost predicate TakesAll(b: Built, added: seq<Attributes>, taken: set<nat>) {
    forall s :: s in b.sticky && s in taken ==> b.sticky[s] in added
  }

  /** Every stored sticky header sits under its own section. */
  ghost predicate KeyedBySection(m: map<nat, Attributes>) {
    forall s :: s in m ==> m[s].section == s
  }

  /** Writing back the pinned versions of headers taken from the map: the
      keys stay, each header taken holds its pinned version, the rest stay. */
  lemma WriteBackPinned(b: Built, res: seq<Attributes>, vis: seq<Attributes>, added: seq<Attributes>,
                        taken: set<nat>, offsetY: real)
    requires KeyedBySection(b.sticky)
    requires Shaped(b, res, vis, added, offsetY) && TakenInOrder(b, added)
    requires TakenFrom(b, added, taken) && TakesAll(b, added, taken)
    ensures WriteBack(b.sticky, res[|vis|..]).Keys == b.sticky.Keys
    ensures forall s :: s in b.sticky && s in taken ==>
              Pinnable(b, b.sticky[s]) && WriteBack(b.sticky, res[|vis|..])[s] == Pin(b, b.sticky[s], offsetY)
    ensures forall s :: s in b.sticky && s !in taken ==> WriteBack(b.sticky, res[|vis|..])[s] == b.sticky[s]
  {
    var pinned := res[|vis|..];
    assert forall i :: 0 <= i < |pinned| ==> pinned[i] == res[|vis| + i];
    assert forall i :: 0 <= i < |pinned| ==> pinned[i].section == added[i].section;
    WriteBackKeys(b.sticky, pinned);
    WriteBackEntries(b.sticky, pinned);
    forall s | s in b.sticky && s in taken
      ensures Pinnable(b, b.sticky[s]) && WriteBack(b.sticky, pinned)[s] == Pin(b, b.sticky[s], offsetY)
    {
      var i :| 0 <= i < |added| && added[i] == b.sticky[s];
      assert pinned[i].section == s;
      assert WriteBack(b.sticky, pinned)[pinned[i].section] == pinned[i];
    }
  }

  lemma AddedTaken(b: Built, ur: seq<Rect>, rect: Rect)
    requires Consistent(b, ur)
    ensures TakenFrom(b, StickyAdded(b, ur, rect), MissingSections(VisibleInRange(b, ur, rect)))
    ensures TakesAll(b, StickyAdded(b, ur, rect), MissingSections(VisibleInRange(b, ur, rect)))
  {
    AddedFacts(b, ur, rect);
    AddedCover(b, ur, rect);
  }

  /** After a query the sticky map has the same keys; the headers of the
      sections with a visible cell hold their pinned versions and every other
      entry is kept. */
  lemma QueryStickyEntries(b: Built, ur: seq<Rect>, rect: Rect, offsetY: real)
    requires Consistent(b, ur)
    ensures RectQuery(b, ur, rect, offsetY).1.Keys == b.sticky.Keys
    ensures forall s :: s in b.sticky && s in MissingSections(VisibleInRange(b, ur, rect)) ==>
              Pinnable(b, b.sticky[s]) &&
              RectQuery(b, ur, rect, offsetY).1[s] == Pin(b, b.sticky[s], offsetY)
    ensures forall s :: s in b.sticky && s !in MissingSections(VisibleInRange(b, ur, rect)) ==>
              RectQuery(b, ur, rect, offsetY).1[s] == b.sticky[s]
  {
    var vis := VisibleInRange(b, ur, rect);
    var res := RectQuery(b, ur, rect, offsetY).0;
    assert RectQuery(b, ur, rect, offsetY).1 == WriteBack(b.sticky, res[|vis|..]);
    assert KeyedBySection(b.sticky);
    QueryShaped(b, ur, rect, offsetY);
    AddedInOrder(b, ur, rect);
    AddedTaken(b, ur, rect);
    WriteBackPinned(b, res, vis, StickyAdded(b, ur, rect), MissingSections(vis), offsetY);
  }

  /** The state a query leaves behind is still consistent. */
  lemma QueryKeepsConsistent(b: Built, ur: seq<Rect>, rect: Rect, offsetY: real)
    requires Consistent(b, ur)
    ensures Consistent(b.(sticky := RectQuery(b, ur, rect, offsetY).1), ur)
  {
    QueryStickyEntries(b, ur, rect, offsetY);
  }

  /** Two sequences that agree on a prefix and on every later position are equal. */
  lemma AgreeSplit(x: seq<Attributes>, y: seq<Attributes>, k: nat)
    requires |x| == |y| && k <= |x| && x[..k] == y[..k]
    requires forall i :: k <= i < |x| ==> x[i] == y[i]
    ensures x == y
  {
    assert forall i :: 0 <= i < k ==> x[i] == x[..k][i] && y[i] == y[..k][i];
  }

  /** An answer made of the visible part followed by the given headers, pinned. */
  ghost predicate Shaped(b: Built, res: seq<Attributes>, vis: seq<Attributes>, added: seq<Attributes>, offsetY: real) {
    (forall i :: 0 <= i < |added| ==> Pinnable(b, added[i])) &&
    |res| == |vis| + |added| && res[..|vis|] == vis &&
    (forall i :: 0 <= i < |added| ==> res[|vis| + i] == Pin(b, added[i], offsetY))
  }

  /** The headers of `again` are those of `once`, pinned. */
  ghost predicate PinnedFrom(b: Built, again: seq<Attributes>, once: seq<Attributes>, offsetY: real) {
    (forall i :: 0 <= i < |once| ==> Pinnable(b, once[i])) &&
    |again| == |once| && (forall i :: 0 <= i < |once| ==> again[i] == Pin(b, once[i], offsetY))
  }

  lemma QueryShaped(b: Built, ur: seq<Rect>, rect: Rect, offsetY: real)
    requires Consistent(b, ur)
    ensures Shaped(b, RectQuery(b, ur, rect, offsetY).0, VisibleInRange(b, ur, rect), StickyAdded(b, ur, rect), offsetY)
  {
    QueryShape(b, ur, rect, offsetY);
  }

  /** The core of stability, on plain sequences: two answers that share the
      visible part and whose sticky parts pin the same headers, once and
      twice, are equal. */
  lemma SameAnswer(b: Built, st: map<nat, Attributes>, vis: seq<Attributes>,
                   added: seq<Attributes>, added2: seq<Attributes>,
                   first: seq<Attributes>, second: seq<Attributes>, offsetY: real)
    requires PinnedFrom(b, added2, added, offsetY)
    requires Shaped(b, first, vis, added, offsetY)
    requires Shaped(b.(sticky := st), second, vis, added2, offsetY)
    ensures second == first
  {
    forall j | |vis| <= j < |first|
      ensures second[j] == first[j]
    {
      var i := j - |vis|;
      PinIgnoresSticky(b, st, added2[i], offsetY);
      PinIdempotent(b, added[i], offsetY);
    }
    AgreeSplit(second, first, |vis|);
  }

  /** Asking the same question again, on the state the query left behind,
      gives the same answer: pinning is a function of the scroll offset and
      the header's size alone. */
  lemma QueryStableAnswer(b: Built, ur: seq<Rect>, rect: Rect, offsetY: real)
    requires Consistent(b, ur)
    ensures Consistent(b.(sticky := RectQuery(b, ur, rect, offsetY).1), ur)
    ensures RectQuery(b.(sticky := RectQuery(b, ur, rect, offsetY).1), ur, rect, offsetY).0 == RectQuery(b, ur, rect, offsetY).0
  {
    var first := RectQuery(b, ur, rect, offsetY);
    var b2 := b.(sticky := first.1);
    QueryStickyEntries(b, ur, rect, offsetY);
    QueryKeepsConsistent(b, ur, rect, offsetY);
    var vis, added := VisibleInRange(b, ur, rect), StickyAdded(b, ur, rect);
    assert VisibleInRange(b2, ur, rect) == vis;
    var missing := MissingSections(vis);
    MissingHaveSlots(b, ur, rect);
    StickyForWritten(b, missing, first.1, |b.sectionItems|, offsetY);
    var added2 := StickyAdded(b2, ur, rect);
    assert added2 == StickyFor(missing, first.1, |b.sectionItems|);
    assert PinnedFrom(b, added2, added, offsetY);
    QueryShaped(b, ur, rect, offsetY);
    QueryShaped(b2, ur, rect, offsetY);
    SameAnswer(b, first.1, vis, added, added2, first.0, RectQuery(b2, ur, rect, offsetY).0, offsetY);
  }

  /** Headers taken from the sticky map, pinnable, in ascending section order. */
  ghost predicate TakenInOrder(b: Built, added: seq<Attributes>) {
    (forall i :: 0 <= i < |added| ==> Pinnable(b, added[i]) && added[i].section in b.sticky) &&
    (forall i, j :: 0 <= i < j < |added| ==> added[i].section < added[j].section)
  }

  /** Headers that can be written back to m: their sections are keys of m,
      ascending. */
  ghost predicate Writable(m: map<nat, Attributes>, p: seq<Attributes>) {
    (forall i :: 0 <= i < |p| ==> p[i].section in m) &&
    (forall i, j :: 0 <= i < j < |p| ==> p[i].section < p[j].section)
  }

  lemma AddedInOrder(b: Built, ur: seq<Rect>, rect: Rect)
    requires Consistent(b, ur)
    ensures TakenInOrder(b, StickyAdded(b, ur, rect))
  {
    AddedFacts(b, ur, rect);
  }

  /** The pinned headers keep the sections, and so the order, of the headers
      they were made from. */
  lemma PinnedSections(b: Built, res: seq<Attributes>, vis: seq<Attributes>, added: seq<Attributes>, offsetY: real)
    requires Shaped(b, res, vis, added, offsetY) && TakenInOrder(b, added)
    ensures Writable(b.sticky, res[|vis|..])
  {
    var pinned := res[|vis|..];
    assert forall i :: 0 <= i < |pinned| ==> pinned[i] == res[|vis| + i];
    assert forall i :: 0 <= i < |pinned| ==> pinned[i].section == added[i].section;
  }

  /** The stored sticky headers after a query are the old ones with the
      answer's pinned part written back. */
  lemma QueryWritesBack(b: Built, ur: seq<Rect>, rect: Rect, offsetY: real)
    requires Consistent(b, ur)
    ensures RectQuery(b, ur, rect, offsetY).1 ==
            WriteBack(b.sticky, RectQuery(b, ur, rect, offsetY).0[|VisibleInRange(b, ur, rect)|..])
  {
  }

  /** And the state left behind the second time is the same. */
  lemma QueryStableState(b: Built, ur: seq<Rect>, rect: Rect, offsetY: real)
    requires Consistent(b, ur)
    ensures Consistent(b.(sticky := RectQuery(b, ur, rect, offsetY).1), ur)
    ensures RectQuery(b.(sticky := RectQuery(b, ur, rect, offsetY).1), ur, rect, offsetY).1 == RectQuery(b, ur, rect, offsetY).1
  {
    var first := RectQuery(b, ur, rect, offsetY);
    var b2 := b.(sticky := first.1);
    QueryStableAnswer(b, ur, rect, offsetY);
    var vis := VisibleInRange(b, ur, rect);
    assert VisibleInRange(b2, ur, rect) == vis;
    var pinned := first.0[|vis|..];
    QueryWritesBack(b, ur, rect, offsetY);
    QueryWritesBack(b2, ur, rect, offsetY);
    QueryShaped(b, ur, rect, offsetY);
    AddedInOrder(b, ur, rect);
    PinnedSections(b, first.0, vis, StickyAdded(b, ur, rect), offsetY);
    WriteBackAgain(b.sticky, pinned);
  }

  /** Soundness for the sticky headers: every sticky header of the answer is
      the stored one of a section with a visible cell, pinned. */
  lemma QuerySoundSticky(b: Built, ur: seq<Rect>, rect: Rect, offsetY: real)
    requires Consistent(b, ur)
    ensures forall a :: a in RectQuery(b, ur, rect, offsetY).0 && IsSticky(a) ==>
              a.section in MissingSections(VisibleInRange(b, ur, rect)) && a.section in b.sticky &&
              Pinnable(b, b.sticky[a.section]) && a == Pin(b, b.sticky[a.section], offsetY)
  {
    QueryShaped(b, ur, rect, offsetY);
    AddedTaken(b, ur, rect);
    VisibleFacts(b, ur, rect);
    StickySound(b, RectQuery(b, ur, rect, offsetY).0, VisibleInRange(b, ur, rect), StickyAdded(b, ur, rect),
                MissingSections(VisibleInRange(b, ur, rect)), offsetY);
  }

  /** The sticky half of soundness, on plain sequences. */
  lemma StickySound(b: Built, res: seq<Attributes>, vis: seq<Attributes>, added: seq<Attributes>,
                    taken: set<nat>, offsetY: real)
    requires Shaped(b, res, vis, added, offsetY) && TakenFrom(b, added, taken)
    requires forall i :: 0 <= i < |vis| ==> !IsSticky(vis[i])
    ensures forall a :: a in res && IsSticky(a) ==>
              a.section in taken && a.section in b.sticky &&
              Pinnable(b, b.sticky[a.section]) && a == Pin(b, b.sticky[a.section], offsetY)
  {
    assert forall i :: 0 <= i < |vis| ==> res[i] == res[..|vis|][i];
    forall a | a in res && IsSticky(a)
      ensures a.section in taken && a.section in b.sticky &&
              Pinnable(b, b.sticky[a.section]) && a == Pin(b, b.sticky[a.section], offsetY)
    {
      var i :| 0 <= i < |res| && res[i] == a;
      assert |vis| <= i;
      var j := i - |vis|;
      assert a == Pin(b, added[j], offsetY);
      assert added[j] == b.sticky[a.section];
    }
  }

  /** One sticky header per section: the answer holds a sticky header of
      section s exactly when s has a stored sticky header and a visible cell. */
  lemma QueryStickyPerSection(b: Built, ur: seq<Rect>, rect: Rect, offsetY: real, s: nat)
    requires Consistent(b, ur)
    ensures (exists a :: a in RectQuery(b, ur, rect, offsetY).0 && IsSticky(a) && a.section == s) <==>
            s in b.sticky && exists c :: c in VisibleInRange(b, ur, rect) && IsCell(c) && c.section == s
  {
    var vis := VisibleInRange(b, ur, rect);
    QueryShaped(b, ur, rect, offsetY);
    AddedTaken(b, ur, rect);
    VisibleFacts(b, ur, rect);
    MissingAreCellSections(vis);
    assert StickyKeyed(b.sticky);
    PerSection(b, RectQuery(b, ur, rect, offsetY).0, vis, StickyAdded(b, ur, rect), MissingSections(vis), offsetY, s);
  }

  /** Every stored sticky header is a sticky header of its own section. */
  ghost predicate StickyKeyed(m: map<nat, Attributes>) {
    forall s :: s in m ==> IsSticky(m[s]) && m[s].section == s
  }

  /** `taken` holds exactly the sections of the cells in `vis`. */
  ghost predicate CellSections(vis: seq<Attributes>, taken: set<nat>) {
    forall t :: t in taken <==> exists c :: c in vis && IsCell(c) && c.section == t
  }

  /** The per-section statement on plain sequences. */
  lemma PerSection(b: Built, res: seq<Attributes>, vis: seq<Attributes>, added: seq<Attributes>,
                   taken: set<nat>, offsetY: real, s: nat)
    requires Shaped(b, res, vis, added, offsetY)
    requires TakenFrom(b, added, taken) && TakesAll(b, added, taken)
    requires forall i :: 0 <= i < |vis| ==> !IsSticky(vis[i])
    requires StickyKeyed(b.sticky) && CellSections(vis, taken)
    ensures (exists a :: a in res && IsSticky(a) && a.section == s) <==>
            s in b.sticky && exists c :: c in vis && IsCell(c) && c.section == s
  {
    if exists a :: a in res && IsSticky(a) && a.section == s {
      var a :| a in res && IsSticky(a) && a.section == s;
      var i :| 0 <= i < |res| && res[i] == a;
      assert |vis| <= i;
      var j := i - |vis|;
      assert a == Pin(b, added[j], offsetY);
      assert s in taken && s in b.sticky;
    }
    if s in b.sticky && exists c :: c in vis && IsCell(c) && c.section == s {
      assert s in taken;
      assert b.sticky[s] in added;
      var j :| 0 <= j < |added| && added[j] == b.sticky[s];
      assert res[|vis| + j] == Pin(b, added[j], offsetY);
      assert res[|vis| + j] in res;
    }
  }
}
