# Choropleth derivations of the incarceration maps, in Dafny

The repository draws two choropleth maps of U.S. states in the browser. The
**facility map** (`js/main.js`) counts correctional-facility points inside each
state polygon and shades states in five buckets. The **rate map**
(`js/main2.js`) computes prison population per 100,000 residents from two
properties of each state and shades states in six buckets. Each map has a
legend built from a `grades` table and popups that show the derived numbers.
The facility map also has a hover highlight with a tooltip.

This project models the pure logic of both scripts:

- `buckets.dfy` (module `Buckets`): the highest-first threshold scan that both
  `getColor` functions use, plus the legend loop that samples the classifier at
  `grade + 1` and labels each entry `lo–hi` or `lo+`.
- `counting.dfy` (module `Counting`): the per-state facility count map. The
  point-in-polygon test is a function parameter `inside`. Also the lookup that
  turns a missing name into 0.
- `layers.dfy` (module `Layers`): the polygon style record, and `setStyle`
  merging options into it.
- `facility_map.dfy` (module `FacilityMap`): `getColor` with five buckets, the
  legend, the rest style, the popup, and the mouseover/mouseout toggle.
- `display.dfy` (module `Display`): the popup's choice between thousands
  separators and the bare number.
- `rate_map.dfy` (module `RateMap`): `getPrisonRate` with its defaults,
  `getColor` with six buckets, the legend, the style and the popup.
- `wrappers.dfy` (module `Wrappers`): `Option`, used for feature properties
  that may be missing.

Modelling choices:

- JavaScript truthiness is written out where the code relies on it.
  `POPULATION || 1` maps a missing or zero population to 1. `TOT_POP || 0`
  maps a missing prison population to 0. In the legend,
  `grades[i + 1] ? … : '+'` gives the open-ended label both when there is no
  next grade and when the next grade is 0.
- The count map is filled in the order of the polygon data. A later feature
  with the same `NAME` overwrites an earlier one, and the model keeps that
  behaviour.
- Rates use exact rational arithmetic. `Math.round(x)` is the integer `r`
  with `r - 1/2 <= x < r + 1/2`, so halves round up. It is computed exactly
  with integer division.
- The rate popup shows the raw `TOT_POP` and `POPULATION`. A missing property
  prints as `undefined` and does not take the default the rate uses. The model
  keeps this difference.
- Thousands separators apply only to values strictly above 1000, as the code
  does (`> 1000`). A value of exactly 1000 is shown without separators.

## Model

| member | source | states |
|---|---|---|
| Buckets.BucketIndex | js/main.js:63-69 | The highest-first scan returns a bucket `k <= |ts|`. The value strictly exceeds bound `k-1` and exceeds none of the bounds above it. |
| Buckets.BucketIndexBounds | js/main2.js:35-42 | For an ascending table, a value is in bucket `k` exactly when it lies in `(ts[k-1], ts[k]]`: strict below, inclusive above. |
| Buckets.BucketIndexMonotone | js/main.js:64-68 | A larger value never lands in a lower bucket. |
| Buckets.BuildLegend | js/main.js:110-116 | The legend loop makes one entry per grade, in order. Entry `i` has the colour of `grades[i] + 1` and the label of grade `i`. |
| Buckets.GradeSamplesOwnBucket | js/main.js:106-113 | When the grades are a bottom grade below every bound followed by the bounds, the sample `grades[i] + 1` falls in bucket `i`. |
| Buckets.GradeLabels | js/main.js:114 | With a non-negative bottom grade, every label but the last is `grades[i]–grades[i+1]`, and the last is `grades[last]+`. |
| Counting.PointsWithin | js/main.js:45 | The points returned for a polygon are exactly the inside points, each with its multiplicity in the input. |
| Counting.CountIsOrderFree | js/main.js:36-46 | A state's facility count is the same for any permutation of the point sequence. |
| Counting.BuildCounts | js/main.js:33-47 | The count map has exactly one key per state name, zero-count states included. Each value is the inside-point count of the last feature with that name. |
| Counting.CountsOfDistinctNames | js/main.js:42-47 | When state names are distinct, every state's entry is its own inside-point count. |
| Counting.CountsAreOrderFree | js/main.js:36-47 | Permuting the points leaves the whole count map unchanged. |
| Counting.CountOf | js/main.js:52 | Looking up a name gives its entry, or 0 for a name without one. |
| Counting.LookupAfterBuild | js/main.js:52 | After building, a name not in the polygon data looks up as 0. A present name looks up as the count of its last feature. |
| Layers.SetStyle | js/main.js:79-83 | `setStyle` replaces only weight, border colour and fill opacity. Fill colour and opacity are kept. |
| FacilityMap.Color | js/main.js:63-69 | `getColor` is total: every count gets one of the five palette colours. |
| FacilityMap.ColorIsBucket | js/main.js:63-69 | `getColor` equals the palette entry of the threshold scan over `[25, 50, 100, 250]`. |
| FacilityMap.ColorBounds | js/main.js:64-68 | A count gets colour `k` exactly when it lies in `(Thresholds[k-1], Thresholds[k]]`. |
| FacilityMap.BoundaryColors | js/main.js:64-68 | 250 is `#2c7fb8` and 251 is `#253494`; 25 is `#ffffcc` and 26 is `#a1dab4`. |
| FacilityMap.ColorMonotone | js/main.js:64-68 | A larger count never gets a colour lower in the palette. |
| FacilityMap.Legend | js/main.js:104-120 | The legend has five swatches, which are the five bucket colours in ascending order and pairwise distinct. The labels are `grades[i]–grades[i+1]`, and the last is `250+`. |
| FacilityMap.RestStyle | js/main.js:50-60 | A state's style is the colour of its looked-up count (0 when missing), weight 0.5, opacity 1, border `#808080` and fill opacity 0.7. |
| FacilityMap.HoverStyle | js/main.js:79-83 | The highlight keeps the fill colour and opacity and sets weight 4, border `#666` and fill opacity 0.9; it differs from the rest style. |
| FacilityMap.Bind | js/main.js:72-76 | A state's layer starts in its rest style with a popup of its name and looked-up count, and no tooltip. |
| FacilityMap.MouseOver | js/main.js:77-88 | Mouseover sets weight 4, border `#666` and fill opacity 0.9, keeping fill colour, opacity and popup. It binds a tooltip with the state's name and looked-up count and opens it. |
| FacilityMap.MouseOut | js/main.js:89-97 | Mouseout sets weight 0.5, border `#808080` and fill opacity 0.7, keeping fill colour, opacity, popup and tooltip binding. It closes the tooltip. |
| FacilityMap.HoverToggle | js/main.js:50-98 | Across any sequence of pointer events, the highlight and the open tooltip come and go together. Popup, tooltip and fill colour show the same looked-up count. After a mouseout the layer is back in its rest style. |
| FacilityMap.OverThenOut | js/main.js:77-97 | Mouseover then mouseout restores the rest style (weight 0.5, `#808080`, fill opacity 0.7). The tooltip is open in between and closed after. |
| Display.Show | js/main2.js:53-55 | A number gets separators exactly when it is present and strictly above 1000. Formatting never changes the number a popup stands for. |
| Display.ShowBoundary | js/main2.js:53-55 | 1000 and 734 are shown unchanged; 1001 is grouped. |
| RateMap.Divisor | js/main2.js:17 | The divisor is never 0. It is the population whenever that is present and non-zero, and 1 when the population is missing or 0. |
| RateMap.PrisonCount | js/main2.js:18 | The prison population is `TOT_POP` when present and 0 when missing. |
| RateMap.RoundHalfUp | js/main2.js:19 | The exact integer computation gives what `Math.round(n / d)` gives for every non-zero `d`. |
| RateMap.PrisonRate | js/main2.js:16-20 | The rate is `Math.round` of `TOT_POP * 100000 / POPULATION` with the source's defaults, and it never divides by zero. |
| RateMap.ZeroPopulationRate | js/main2.js:17-19 | A missing or zero `POPULATION` gives exactly `TOT_POP * 100000`. |
| RateMap.MissingPrisonRate | js/main2.js:18-19 | A missing `TOT_POP` gives rate 0. |
| RateMap.RateNonNegative | js/main2.js:16-20 | Non-negative populations give a non-negative rate. |
| RateMap.RateMonotone | js/main2.js:16-20 | For the same non-negative population, a larger prison population never gives a smaller rate. |
| RateMap.RateExamples | js/main2.js:19 | 734 of 100,000 is 734; 12,000 of 2,000,000 is 600; 1 of 200,000 rounds up to 1; 3 of 0 is 300,000. |
| RateMap.Color | js/main2.js:35-42 | `getColor` is total: every rate gets one of the six palette colours. |
| RateMap.ColorIsBucket | js/main2.js:35-42 | `getColor` equals the palette entry of the threshold scan over `[50, 100, 200, 400, 600]`. |
| RateMap.ColorBounds | js/main2.js:36-41 | A rate gets colour `k` exactly when it lies in `(Thresholds[k-1], Thresholds[k]]`. |
| RateMap.BoundaryColors | js/main2.js:36-41 | 600 is `#b22222` and only 601 and above is `#8b0000`; 50 is `#ffffcc` and 51 is `#fee08b`. |
| RateMap.ColorMonotone | js/main2.js:36-41 | A larger rate never gets a colour lower in the palette. |
| RateMap.Legend | js/main2.js:69-84 | The legend has six swatches, which are the six bucket colours in ascending order and pairwise distinct. The labels are `grades[i]–grades[i+1]`, and the last is `600+`. |
| RateMap.FeatureStyle | js/main2.js:23-32 | A state's fill colour is the colour of its rate, with weight 0.7, opacity 1, border `#808080` and fill opacity 0.7. |
| RateMap.FeaturePopup | js/main2.js:47-62 | The popup shows `STATE_NAME` and stands for the raw `TOT_POP` and `POPULATION` and for the rate. Each of the three numbers gets separators exactly when it is present and above 1000. |
| RateMap.StrictTopBoundary | js/main2.js:24-26 | 12,000 of 2,000,000 is coloured by the bucket below the top one and shown as the bare 600. |

## Left out

- Map construction, tile layers, `L.geoJson` rendering, control placement and the gray placeholder layer (js/main.js:1-24, js/main2.js:1-7). These are rendering done by the mapping library.
- `fetch`, `response.json()` and the `.catch` logging paths. These are network I/O and asynchrony.
- Point-in-polygon geometry (`turf.multiPolygon`, `turf.pointsWithinPolygon`). Containment is the parameter `inside`, and points and geometries are abstract types. This also leaves out the projection of each facility to its first two coordinates (js/main.js:36-38).
- Floating-point error in `(prisonPop / totalPop) * 100000`. Arithmetic is exact.
- `toLocaleString` output. `Grouped(n)` stands for the locale-formatted text of `n`.
- HTML and CSS text of popups, tooltips and legend entries, and the tooltip's placement options. Labels and popups are structured values carrying the same numbers.
- The instructions overlay (js/main2.js:89-105). It is static text with no data dependency.
- Lookups of names that JavaScript objects inherit (such as `constructor`). The count map is a plain map.
- Non-numeric property values such as strings or `NaN`. Populations are optional integers.
- RateMap.RateNonNegative and RateMap.RateMonotone: stated only for non-negative populations. Negative populations do not occur in the data.
