/**
 The rate map: states shaded by prison population per 100,000 residents,
 a six-entry legend and a popup per state.

 Arithmetic is exact: the rate is the exact rational `TOT_POP * 100000 /
 POPULATION` rounded the way `Math.round` rounds, to the nearest integer
 with halves going up.
 */
module RateMap {
  import opened Wrappers
  import opened Buckets
  import opened Layers
  import opened Display

  /** A state polygon of the rate data: `STATE_NAME`, the prison population
      `TOT_POP` and the total population `POPULATION`, either of which may be missing. */
  datatype RateFeature = RateFeature(stateName: string, totPop: Option<int>, population: Option<int>)

  /** `POPULATION || 1`: a missing or zero population is replaced by 1. */
  function Divisor(f: RateFeature): (d: int)
    ensures d != 0
    ensures f.population.Some? && f.population.value != 0 ==> d == f.population.value
    ensures f.population == None || f.population == Some(0) ==> d == 1
  {
    match f.population
    case Some(p) => if p != 0 then p else 1
    case None => 1
  }

  /** `TOT_POP || 0`: a missing prison population counts as 0. */
  function PrisonCount(f: RateFeature): (n: int)
    ensures f.totPop.Some? ==> n == f.totPop.value
    ensures f.totPop == None ==> n == 0
  {
    f.totPop.GetOr(0)
  }

  /** `r` is what `Math.round` gives for `x`: the integer with `r - 1/2 <= x < r + 1/2`. */
  ghost predicate IsMathRound(r: int, x: real) {
    r as real - 0.5 <= x < r as real + 0.5
  }

  /** At most one integer is the rounding of a value. */
  lemma MathRoundUnique(r: int, s: int, x: real)
    requires IsMathRound(r, x) && IsMathRound(s, x)
    ensures r == s
  {
    assert r as real < s as real + 1.0;
    assert s as real < r as real + 1.0;
  }

  /** Euclidean division by a positive `2d` brackets `2n` between odd multiples of `d`. */
  lemma HalfUpBracket(n: int, d: int)
    requires d > 0
    ensures var r := (2 * n + d) / (2 * d);
            (2 * r - 1) * d <= 2 * n < (2 * r + 1) * d
  {
    var r := (2 * n + d) / (2 * d);
    var rem := (2 * n + d) % (2 * d);
    assert 2 * n + d == (2 * d) * r + rem && 0 <= rem < 2 * d;
    assert (2 * d) * r == (2 * r) * d;
    assert (2 * r - 1) * d == (2 * r) * d - d;
    assert (2 * r + 1) * d == (2 * r) * d + d;
  }

  /** Dividing both sides of an inequality by a positive integer. */
  lemma DivideBounds(lo: int, m: int, hi: int, d: int)
    requires d > 0
    requires lo * d <= 2 * m < hi * d
    ensures lo as real / 2.0 <= m as real / d as real < hi as real / 2.0
  {
    var x := m as real / d as real;
    var dr := d as real;
    assert x * dr == m as real;
    assert (lo * d) as real == lo as real * dr;
    assert (hi * d) as real == hi as real * dr;
    assert lo as real * dr <= 2.0 * (x * dr) < hi as real * dr;
    assert (lo as real) * dr <= (2.0 * x) * dr;
    assert (2.0 * x) * dr < (hi as real) * dr;
  }

  /** Rounding of `n / d` for a positive denominator, in integer arithmetic. */
  lemma RoundPositive(n: int, d: int)
    requires d > 0
    ensures IsMathRound((2 * n + d) / (2 * d), n as real / d as real)
  {
    var r := (2 * n + d) / (2 * d);
    HalfUpBracket(n, d);
    DivideBounds(2 * r - 1, n, 2 * r + 1, d);
  }

  /** `Math.round(n / d)` computed exactly. */
  function RoundHalfUp(n: int, d: int): (r: int)
    requires d != 0
    ensures IsMathRound(r, n as real / d as real)
  {
    if d > 0 then
      RoundPositive(n, d);
      (2 * n + d) / (2 * d)
    else
      RoundPositive(-n, -d);
      assert (-n) as real / (-d) as real == n as real / d as real;
      (2 * -n + -d) / (2 * -d)
  }

  /** `getPrisonRate`: prisoners per 100,000 residents, rounded; never a division by zero. */
  function PrisonRate(f: RateFeature): (rate: int)
    ensures IsMathRound(rate, (PrisonCount(f) * 100000) as real / Divisor(f) as real)
  {
    RoundHalfUp(PrisonCount(f) * 100000, Divisor(f))
  }

  /** A missing or zero population gives `TOT_POP * 100000` itself. */
  lemma ZeroPopulationRate(f: RateFeature)
    requires f.population == None || f.population == Some(0)
    ensures PrisonRate(f) == PrisonCount(f) * 100000
  {
    var k := PrisonCount(f) * 100000;
    assert k as real / 1 as real == k as real;
    MathRoundUnique(PrisonRate(f), k, k as real);
  }

  /** A missing prison population gives rate 0. */
  lemma MissingPrisonRate(f: RateFeature)
    requires f.totPop == None
    ensures PrisonRate(f) == 0
  {
    assert 0 as real / Divisor(f) as real == 0.0;
    MathRoundUnique(PrisonRate(f), 0, 0.0);
  }

  /** Non-negative populations give a non-negative rate. */
  lemma RateNonNegative(f: RateFeature)
    requires f.totPop.GetOr(0) >= 0 && f.population.GetOr(0) >= 0
    ensures PrisonRate(f) >= 0
  {
    var x := (PrisonCount(f) * 100000) as real / Divisor(f) as real;
    assert x * Divisor(f) as real == (PrisonCount(f) * 100000) as real;
    assert x >= 0.0;
  }

  /** For the same positive population, a larger prison population never gives a smaller rate. */
  lemma RateMonotone(f: RateFeature, g: RateFeature)
    requires f.population == g.population && f.population.GetOr(0) >= 0
    requires PrisonCount(f) <= PrisonCount(g)
    ensures PrisonRate(f) <= PrisonRate(g)
  {
    var d := Divisor(f) as real;
    var x := (PrisonCount(f) * 100000) as real / d;
    var y := (PrisonCount(g) * 100000) as real / d;
    assert x * d == (PrisonCount(f) * 100000) as real;
    assert y * d == (PrisonCount(g) * 100000) as real;
    assert x * d <= y * d;
    assert x <= y;
  }

  /** Worked rates: 734 of 100,000; 12,000 of 2,000,000; and a half rounded up. */
  lemma RateExamples()
    ensures PrisonRate(RateFeature("X", Some(734), Some(100000))) == 734
    ensures PrisonRate(RateFeature("X", Some(12000), Some(2000000))) == 600
    ensures PrisonRate(RateFeature("X", Some(1), Some(200000))) == 1
    ensures PrisonRate(RateFeature("X", Some(3), Some(0))) == 300000
  {
  }

  /** Lower bounds of the colour buckets, as tested by `getColor`. */
  const Thresholds: seq<int> := [50, 100, 200, 400, 600]

  /** The legend's grades table, written separately from `getColor`. */
  const Grades: seq<int> := [0, 50, 100, 200, 400, 600]

  /** Bucket colours, lowest bucket first. */
  const Palette: seq<string> := ["#ffffcc", "#fee08b", "#fdae61", "#e6550d", "#b22222", "#8b0000"]

  /** `getColor`: the fill colour of a state with the given rate. */
  function Color(rate: int): (color: string)
    ensures color in Palette
  {
    if rate > 600 then "#8b0000"
    else if rate > 400 then "#b22222"
    else if rate > 200 then "#e6550d"
    else if rate > 100 then "#fdae61"
    else if rate > 50 then "#fee08b"
    else "#ffffcc"
  }

  /** `getColor` is the highest-first scan of the threshold table. */
  lemma ColorIsBucket(rate: int)
    ensures Color(rate) == Palette[BucketIndex(Thresholds, rate)]
  {
    var k := BucketIndex(Thresholds, rate);
    assert k <= 5;
    if k == 0 {
      assert rate <= Thresholds[0];
    } else if k == 1 {
      assert 50 < rate <= Thresholds[1];
    } else if k == 2 {
      assert 100 < rate <= Thresholds[2];
    } else if k == 3 {
      assert 200 < rate <= Thresholds[3];
    } else if k == 4 {
      assert 400 < rate <= Thresholds[4];
    } else {
      assert 600 < rate;
    }
  }

  /** A rate gets colour `k` exactly when it lies in `(Thresholds[k-1], Thresholds[k]]`. */
  lemma ColorBounds(rate: int, k: nat)
    requires k < |Palette|
    ensures Color(rate) == Palette[k] <==>
              (k == 0 || Thresholds[k - 1] < rate) && (k == |Thresholds| || rate <= Thresholds[k])
  {
    ColorIsBucket(rate);
    BucketIndexBounds(Thresholds, rate, k);
  }

  /** 600 is still firebrick; only 601 and above is dark red. */
  lemma BoundaryColors()
    ensures Color(600) == "#b22222" && Color(601) == "#8b0000"
    ensures Color(50) == "#ffffcc" && Color(51) == "#fee08b"
  {
  }

  /** A larger rate never gets a colour lower in the palette. */
  lemma ColorMonotone(r1: int, r2: int, i: nat, j: nat)
    requires r1 <= r2
    requires i < |Palette| && j < |Palette|
    requires Color(r1) == Palette[i] && Color(r2) == Palette[j]
    ensures i <= j
  {
    ColorIsBucket(r1);
    ColorIsBucket(r2);
    BucketIndexMonotone(Thresholds, r1, r2);
  }

  /** No colour appears twice in the palette. */
  lemma PaletteDistinct()
    ensures forall i, j :: 0 <= i < j < |Palette| ==> Palette[i] != Palette[j]
  {
  }

  /** The legend: one swatch per bucket in ascending order, each labelled with
      its range, the last one open-ended ("600+"). */
  method Legend() returns (rows: seq<LegendRow>)
    ensures |rows| == |Palette|
    ensures forall i :: 0 <= i < |rows| ==> rows[i].swatch == Palette[i]
    ensures forall i, j :: 0 <= i < j < |rows| ==> rows[i].swatch != rows[j].swatch
    ensures forall i :: 0 <= i < |rows| - 1 ==> rows[i].caption == Span(Grades[i], Grades[i + 1])
    ensures rows[|rows| - 1].caption == AndAbove(600)
  {
    rows := BuildLegend(Grades, Color);
    assert Grades == [0] + Thresholds;
    forall i | 0 <= i < |rows|
      ensures rows[i].swatch == Palette[i]
      ensures i < |rows| - 1 ==> rows[i].caption == Span(Grades[i], Grades[i + 1])
    {
      GradeSamplesOwnBucket(0, Thresholds, i);
      ColorIsBucket(Grades[i] + 1);
      GradeLabels(0, Thresholds, i);
    }
    GradeLabels(0, Thresholds, 5);
    PaletteDistinct();
  }

  /** The style of a state: the colour of its rate and a thin gray border. */
  function FeatureStyle(f: RateFeature): (s: Style)
    ensures s.fillColor == Color(PrisonRate(f)) && s.fillColor in Palette
    ensures s.weight == 0.7 && s.opacity == 1.0 && s.color == "#808080" && s.fillOpacity == 0.7
  {
    Style(Color(PrisonRate(f)), 0.7, 1.0, "#808080", 0.7)
  }

  /** The click popup of a state. */
  datatype Popup = Popup(state: string, prisonPop: Shown, totalPop: Shown, rate: Shown)

  /** The popup shows the raw `TOT_POP` and `POPULATION`, without the defaults
      the rate uses, next to the rate itself. */
  function FeaturePopup(f: RateFeature): (p: Popup)
    ensures p.state == f.stateName
    ensures ReadBack(p.prisonPop) == f.totPop && ReadBack(p.totalPop) == f.population
    ensures p.prisonPop.Grouped? <==> f.totPop.Some? && f.totPop.value > 1000
    ensures p.totalPop.Grouped? <==> f.population.Some? && f.population.value > 1000
    ensures ReadBack(p.rate) == Some(PrisonRate(f))
    ensures p.rate.Grouped? <==> PrisonRate(f) > 1000
  {
    Popup(f.stateName, Show(f.totPop), Show(f.population), Show(Some(PrisonRate(f))))
  }

  /** Example: 12,000 of 2,000,000 is 600, coloured by the
      bucket below the top one and shown without separators. */
  lemma StrictTopBoundary()
    ensures var f := RateFeature("X", Some(12000), Some(2000000));
            Color(PrisonRate(f)) == Palette[4] && FeaturePopup(f).rate == Plain(600)
  {
    RateExamples();
  }
}
