/**
 Threshold classification shared by both choropleth maps.

 A classifier is an ascending table of lower bounds `ts`. It is evaluated
 highest-first, like the chained conditionals of both `getColor` functions:
 a value lands in the highest bucket whose lower bound it strictly exceeds,
 and in bucket 0 when it exceeds none. Bucket `k` is therefore the half-open
 range `(ts[k-1], ts[k]]`, open at the bottom of bucket 0 and at the top of
 bucket `|ts|`.

 The legend of each map samples the classifier at `grade + 1` for every entry
 of its `grades` table and labels the entry with a range.
 */
module Buckets {

  /** Lower bounds listed strictly increasing. */
  ghost predicate Ascending(ts: seq<int>) {
    forall i, j :: 0 <= i < j < |ts| ==> ts[i] < ts[j]
  }

  /** The bucket the highest-first scan of `ts` assigns to `v`: the scan stops
      at the first bound, from the top, that `v` strictly exceeds. */
  function BucketIndex(ts: seq<int>, v: int): (k: nat)
    ensures k <= |ts|
    // v exceeds the bound of the bucket it lands in ...
    ensures 0 < k ==> ts[k - 1] < v
    // ... and none of the bounds the scan tried before it
    ensures forall j :: k <= j < |ts| ==> v <= ts[j]
    decreases |ts|
  {
    if |ts| == 0 then 0
    else if v > ts[|ts| - 1] then |ts|
    else BucketIndex(ts[..|ts| - 1], v)
  }

  /** For an ascending table, bucket `k` is exactly the range `(ts[k-1], ts[k]]`. */
  lemma BucketIndexBounds(ts: seq<int>, v: int, k: nat)
    requires Ascending(ts)
    requires k <= |ts|
    ensures BucketIndex(ts, v) == k <==> (k == 0 || ts[k - 1] < v) && (k == |ts| || v <= ts[k])
  {
  }

  /** A larger value never lands in a lower bucket. */
  lemma BucketIndexMonotone(ts: seq<int>, v: int, w: int)
    requires v <= w
    ensures BucketIndex(ts, v) <= BucketIndex(ts, w)
  {
  }

  /** A legend entry's range label: "lo–hi", or "lo+" for the open-ended entry. */
  datatype Label = Span(lo: int, hi: int) | AndAbove(lo: int)

  /** One legend entry: a colour swatch and its range caption. */
  datatype LegendRow = LegendRow(swatch: string, caption: Label)

  /** The label of entry `i`. The next grade is tested for truthiness, so a
      missing next grade and a next grade of 0 both give the open-ended label. */
  function LabelAt(grades: seq<int>, i: nat): Label
    requires i < |grades|
  {
    if i + 1 < |grades| && grades[i + 1] != 0 then Span(grades[i], grades[i + 1])
    else AndAbove(grades[i])
  }

  /** Entry `i` of the legend: the classifier sampled one above the grade. */
  function RowAt(grades: seq<int>, color: int -> string, i: nat): LegendRow
    requires i < |grades|
  {
    LegendRow(color(grades[i] + 1), LabelAt(grades, i))
  }

  /** Builds the legend entry by entry, in the order of the grades table. */
  method BuildLegend(grades: seq<int>, color: int -> string) returns (rows: seq<LegendRow>)
    ensures |rows| == |grades|
    ensures forall i :: 0 <= i < |grades| ==> rows[i] == RowAt(grades, color, i)
  {
    rows := [];
    var i := 0;
    while i < |grades|
      invariant i <= |grades|
      invariant |rows| == i
      invariant forall j :: 0 <= j < i ==> rows[j] == RowAt(grades, color, j)
    {
      rows := rows + [RowAt(grades, color, i)];
      i := i + 1;
    }
  }

  /** When the grades table is a bottom grade below every bound followed by the
      bounds themselves, sampling at `grade + 1` hits bucket `i` for entry `i`:
      the legend lists the buckets in ascending order. */
  lemma {:induction false} GradeSamplesOwnBucket(g0: int, ts: seq<int>, i: nat)
    requires Ascending(ts)
    requires |ts| > 0 ==> g0 < ts[0]
    requires i <= |ts|
    ensures BucketIndex(ts, ([g0] + ts)[i] + 1) == i
  {
    var v := ([g0] + ts)[i] + 1;
    BucketIndexBounds(ts, v, i);
  }

  /** With a non-negative bottom grade every entry but the last is a closed
      range ending at the next grade, and the last is open-ended. */
  lemma GradeLabels(g0: int, ts: seq<int>, i: nat)
    requires Ascending(ts)
    requires 0 <= g0 && (|ts| > 0 ==> g0 < ts[0])
    requires i <= |ts|
    ensures i < |ts| ==> LabelAt([g0] + ts, i) == Span(([g0] + ts)[i], ts[i])
    ensures i == |ts| ==> LabelAt([g0] + ts, i) == AndAbove(([g0] + ts)[i])
  {
    if i < |ts| {
      assert ts[0] <= ts[i];
    }
  }
}
