/** The column tracker: which column is the shortest and which the longest,
    as the layout's two scanning loops decide it. */
module Columns {

  /** The shortest-column loop: it keeps the first index of strictly smaller
      height, starting with "no minimum yet", so ties go to the lowest index.
      With no columns it answers 0. */
  function ShortestIndex(h: seq<real>): (r: nat)
    ensures |h| == 0 ==> r == 0
    ensures |h| > 0 ==> r < |h| && (forall j :: 0 <= j < |h| ==> h[r] <= h[j])
                                && (forall j :: 0 <= j < r ==> h[r] < h[j])
  {
    if |h| <= 1 then 0
    else
      var k := ShortestIndex(h[..|h| - 1]);
      if h[|h| - 1] < h[k] then |h| - 1 else k
  }

  /** The state of the longest-column loop after scanning `h`: the index found
      and the running maximum, which starts at 0 and moves only on a strictly
      greater height. */
  function LongestScan(h: seq<real>): (r: (nat, real))
    ensures r.1 >= 0.0 && forall j :: 0 <= j < |h| ==> h[j] <= r.1
    ensures (r.0 == 0 && r.1 == 0.0) ||
            (r.1 > 0.0 && r.0 < |h| && h[r.0] == r.1 && forall j :: 0 <= j < r.0 ==> h[j] < r.1)
  {
    if |h| == 0 then (0, 0.0)
    else
      var p := LongestScan(h[..|h| - 1]);
      if h[|h| - 1] > p.1 then (|h| - 1, h[|h| - 1]) else p
  }

  /** The index the longest-column loop returns. */
  function LongestIndex(h: seq<real>): (r: nat)
    ensures |h| > 0 ==> r < |h|
  {
    LongestScan(h).0
  }

  /** When some column is taller than 0, the longest index is the first column
      of maximal height; when none is, it is 0. */
  lemma LongestIsFirstMaximum(h: seq<real>)
    ensures (exists j :: 0 <= j < |h| && h[j] > 0.0) ==>
              LongestIndex(h) < |h| &&
              (forall j :: 0 <= j < |h| ==> h[j] <= h[LongestIndex(h)]) &&
              (forall j :: 0 <= j < LongestIndex(h) ==> h[j] < h[LongestIndex(h)])
    ensures (forall j :: 0 <= j < |h| ==> h[j] <= 0.0) ==> LongestIndex(h) == 0
  {
  }

  /** With no negative heights (the case whenever all offsets start at or below
      the origin), the longest index is a true maximum even if every column is 0. */
  lemma LongestIsMaximumWhenNonNegative(h: seq<real>)
    requires |h| > 0
    requires forall j :: 0 <= j < |h| ==> h[j] >= 0.0
    ensures forall j :: 0 <= j < |h| ==> h[j] <= h[LongestIndex(h)]
  {
  }
}
