/** The coarse index over the flat element list: consecutive runs of
    UnionSize elements, each summarised by one rectangle. */
module UnionIndex {
  import opened Geometry
  import opened Elements

  /** How many elements one union rectangle stands for. */
  const UnionSize: nat := 20

  /** The number of runs over n elements: n divided by UnionSize, rounded up. */
  function BucketCount(n: nat): (r: nat)
    ensures r * UnionSize >= n
    ensures r > 0 ==> (r - 1) * UnionSize < n
  {
    (n + UnionSize - 1) / UnionSize
  }

  /** The first element of run k. */
  function BucketFirst(k: nat): nat {
    k * UnionSize
  }

  /** The last element of run k over n elements: UnionSize - 1 further on, or
      the last element when the list ends sooner. */
  function BucketLast(n: nat, k: nat): (r: int)
    ensures r == BucketFirst(k) + UnionSize - 1 || r == n - 1
    ensures r <= BucketFirst(k) + UnionSize - 1 && r <= n - 1
  {
    if BucketFirst(k) + UnionSize - 1 < n - 1 then BucketFirst(k) + UnionSize - 1 else n - 1
  }

  /** Run k's rectangle: the union of the frames of the run's first and last
      element (the elements in between are not consulted). */
  function UnionRectsOf(all: seq<Attributes>): (r: seq<Rect>)
    ensures |r| == BucketCount(|all|)
  {
    seq(BucketCount(|all|), k requires 0 <= k < BucketCount(|all|) =>
      Union(all[BucketFirst(k)].frame, all[BucketLast(|all|, k)].frame))
  }

  /** Run k's rectangle covers the frames of the run's first and last element. */
  lemma UnionRectCoversRunEnds(all: seq<Attributes>, k: nat)
    requires k < BucketCount(|all|)
    ensures 0 <= BucketFirst(k) <= BucketLast(|all|, k) < |all|
    ensures Contains(UnionRectsOf(all)[k], all[BucketFirst(k)].frame)
    ensures Contains(UnionRectsOf(all)[k], all[BucketLast(|all|, k)].frame)
  {
  }

  /** The runs partition the elements: element i lies in run i / UnionSize
      and in no other, and the runs follow one another without gaps. */
  lemma BucketsPartition(n: nat, i: nat)
    requires i < n
    ensures i / UnionSize < BucketCount(n)
    ensures BucketFirst(i / UnionSize) <= i <= BucketLast(n, i / UnionSize)
    ensures forall k: nat :: BucketFirst(k) <= i <= BucketLast(n, k) ==> k == i / UnionSize
  {
    forall k: nat | BucketFirst(k) <= i <= BucketLast(n, k)
      ensures k == i / UnionSize
    {
      assert k * UnionSize <= i < k * UnionSize + UnionSize;
    }
  }

  /** Consecutive runs are adjacent and the last run ends at the last element. */
  lemma BucketsAdjacent(n: nat, k: nat)
    requires k < BucketCount(n)
    ensures k + 1 < BucketCount(n) ==> BucketLast(n, k) + 1 == BucketFirst(k + 1)
    ensures k + 1 == BucketCount(n) ==> BucketLast(n, k) == n - 1
  {
  }
}
