/**
 The facility map: states shaded by the number of correctional facilities
 inside them, a five-entry legend, a popup per state and a hover highlight
 with a tooltip.
 */
module FacilityMap {
  import opened Wrappers
  import opened Buckets
  import opened Counting
  import opened Layers

  /** Lower bounds of the colour buckets, as tested by `getColor`. */
  const Thresholds: seq<int> := [25, 50, 100, 250]

  /** The legend's grades table, written separately from `getColor`. */
  const Grades: seq<int> := [0, 25, 50, 100, 250]

  /** Bucket colours, lowest bucket first. */
  const Palette: seq<string> := ["#ffffcc", "#a1dab4", "#41b6c4", "#2c7fb8", "#253494"]

  /** Border colour of a state at rest, and while the pointer is over it. */
  const RestBorder: string := "#808080"
  const HoverBorder: string := "#666"

  /** `getColor`: the fill colour of a state with `count` facilities. */
  function Color(count: int): (color: string)
    ensures color in Palette
  {
    if count > 250 then "#253494"
    else if count > 100 then "#2c7fb8"
    else if count > 50 then "#41b6c4"
    else if count > 25 then "#a1dab4"
    else "#ffffcc"
  }

  /** `getColor` is the highest-first scan of the threshold table. */
  lemma ColorIsBucket(count: int)
    ensures Color(count) == Palette[BucketIndex(Thresholds, count)]
  {
    var k := BucketIndex(Thresholds, count);
    assert k <= 4;
    if k == 0 {
      assert count <= Thresholds[0];
    } else if k == 1 {
      assert 25 < count <= Thresholds[1];
    } else if k == 2 {
      assert 50 < count <= Thresholds[2];
    } else if k == 3 {
      assert 100 < count <= Thresholds[3];
    } else {
      assert 250 < count;
    }
  }

  /** A count gets colour `k` exactly when it lies in `(Thresholds[k-1], Thresholds[k]]`:
      the lower bounds are strict and the upper bounds inclusive. */
  lemma ColorBounds(count: int, k: nat)
    requires k < |Palette|
    ensures Color(count) == Palette[k] <==>
              (k == 0 || Thresholds[k - 1] < count) && (k == |Thresholds| || count <= Thresholds[k])
  {
    ColorIsBucket(count);
    BucketIndexBounds(Thresholds, count, k);
  }

  /** The boundary counts of the two outer buckets. */
  lemma BoundaryColors()
    ensures Color(250) == "#2c7fb8" && Color(251) == "#253494"
    ensures Color(25) == "#ffffcc" && Color(26) == "#a1dab4"
  {
  }

  /** A larger count never gets a colour lower in the palette. */
  lemma ColorMonotone(c1: int, c2: int, i: nat, j: nat)
    requires c1 <= c2
    requires i < |Palette| && j < |Palette|
    requires Color(c1) == Palette[i] && Color(c2) == Palette[j]
    ensures i <= j
  {
    ColorIsBucket(c1);
    ColorIsBucket(c2);
    BucketIndexMonotone(Thresholds, c1, c2);
  }

  /** No colour appears twice in the palette. */
  lemma PaletteDistinct()
    ensures forall i, j :: 0 <= i < j < |Palette| ==> Palette[i] != Palette[j]
  {
  }

  /** The legend: one swatch per bucket in ascending order, each labelled with
      its range, the last one open-ended ("250+"). */
  method Legend() returns (rows: seq<LegendRow>)
    ensures |rows| == |Palette|
    ensures forall i :: 0 <= i < |rows| ==> rows[i].swatch == Palette[i]
    ensures forall i, j :: 0 <= i < j < |rows| ==> rows[i].swatch != rows[j].swatch
    ensures forall i :: 0 <= i < |rows| - 1 ==> rows[i].caption == Span(Grades[i], Grades[i + 1])
    ensures rows[|rows| - 1].caption == AndAbove(250)
  {
    rows := BuildLegend(Grades, Color);
    assert Grades == [0] + Thresholds;
    forall i | 0 <= i < |rows|
      ensures rows[i].swatch == Palette[i]
      ensures i < |rows| - 1 ==> rows[i].caption == Span(Grades[i], Grades[i + 1])
    {
      GradeSamplesOwnBucket(0, Thresholds, i);
      ColorIsBucket(Grades[i] + 1);
      GradeLabels(0, Thresholds, i);
    }
    GradeLabels(0, Thresholds, 4);
    PaletteDistinct();
  }

  /** The rest style of a state: the fill colour of its looked-up count and a thin gray border. */
  function RestStyle(counts: map<string, nat>, name: string): (s: Style)
    ensures s.fillColor == Color(CountOf(counts, name)) && s.fillColor in Palette
    ensures s.weight == 0.5 && s.opacity == 1.0 && s.color == RestBorder && s.fillOpacity == 0.7
  {
    Style(Color(CountOf(counts, name)), 0.5, 1.0, RestBorder, 0.7)
  }

  /** The style a state is set to while the pointer is over it. */
  function HoverStyle(counts: map<string, nat>, name: string): (s: Style)
    ensures s.fillColor == RestStyle(counts, name).fillColor && s.opacity == 1.0
    ensures s.weight == 4.0 && s.color == HoverBorder && s.fillOpacity == 0.9
    ensures s != RestStyle(counts, name)
  {
    SetStyle(RestStyle(counts, name), 4.0, HoverBorder, 0.9)
  }

  /** The click popup: state name and facility count. */
  datatype Popup = Popup(state: string, facilities: nat)

  /** The hover tooltip: state name and facility count. */
  datatype Tooltip = Tooltip(state: string, facilities: nat)

  /** What the map keeps for one state's polygon. */
  datatype Layer = Layer(style: Style, popup: Popup, tooltip: Option<Tooltip>, tooltipOpen: bool)

  /** The layer as added: rest style and a bound popup, no tooltip yet. */
  function Bind(counts: map<string, nat>, name: string): (layer: Layer)
    ensures layer.style == RestStyle(counts, name)
    ensures layer.popup == Popup(name, CountOf(counts, name))
    ensures layer.tooltip == None && !layer.tooltipOpen
  {
    Layer(RestStyle(counts, name), Popup(name, CountOf(counts, name)), None, false)
  }

  /** The `mouseover` handler: highlight, bind the tooltip and open it. */
  function MouseOver(layer: Layer, counts: map<string, nat>, name: string): (after: Layer)
    // highlighted: heavy dark border, more opaque fill, same fill colour
    ensures after.style.weight == 4.0 && after.style.color == HoverBorder && after.style.fillOpacity == 0.9
    ensures after.style.fillColor == layer.style.fillColor && after.style.opacity == layer.style.opacity
    // the tooltip names the state and its looked-up count, and is open
    ensures after.tooltip == Some(Tooltip(name, CountOf(counts, name)))
    ensures after.tooltipOpen && after.popup == layer.popup
  {
    layer.(style := SetStyle(layer.style, 4.0, HoverBorder, 0.9),
           tooltip := Some(Tooltip(name, CountOf(counts, name))),
           tooltipOpen := true)
  }

  /** The `mouseout` handler: restore the border and fill opacity and close the tooltip. */
  function MouseOut(layer: Layer): (after: Layer)
    // the rest border and fill opacity are back, the fill colour is untouched
    ensures after.style.weight == 0.5 && after.style.color == RestBorder && after.style.fillOpacity == 0.7
    ensures after.style.fillColor == layer.style.fillColor && after.style.opacity == layer.style.opacity
    ensures !after.tooltipOpen && after.popup == layer.popup && after.tooltip == layer.tooltip
  {
    layer.(style := SetStyle(layer.style, 0.5, RestBorder, 0.7), tooltipOpen := false)
  }

  /** Pointer events a state's layer receives. */
  datatype Pointer = Over | Out

  /** The layer after the events, in order. */
  function Replay(layer: Layer, events: seq<Pointer>, counts: map<string, nat>, name: string): Layer
    decreases |events|
  {
    if |events| == 0 then layer
    else
      var before := Replay(layer, events[..|events| - 1], counts, name);
      match events[|events| - 1]
      case Over => MouseOver(before, counts, name)
      case Out => MouseOut(before)
  }

  /** The highlight and the tooltip go together: either the layer is at rest
      with its tooltip closed, or it is highlighted with its tooltip open;
      popup, tooltip and fill colour all show the same looked-up count. */
  ghost predicate Coherent(layer: Layer, counts: map<string, nat>, name: string) {
    && layer.popup == Popup(name, CountOf(counts, name))
    && (layer.tooltip == None || layer.tooltip == Some(Tooltip(name, CountOf(counts, name))))
    && (if layer.tooltipOpen
        then layer.style == HoverStyle(counts, name) && layer.tooltip.Some?
        else layer.style == RestStyle(counts, name))
  }

  /** Every sequence of pointer events keeps the layer coherent; after a
      `mouseout` (or before any event) it is back in exactly its rest style. */
  lemma {:induction false} HoverToggle(counts: map<string, nat>, name: string, events: seq<Pointer>)
    ensures Coherent(Replay(Bind(counts, name), events, counts, name), counts, name)
    ensures (|events| == 0 || events[|events| - 1] == Out) ==>
              var after := Replay(Bind(counts, name), events, counts, name);
              after.style == RestStyle(counts, name) && !after.tooltipOpen
    decreases |events|
  {
    if |events| > 0 {
      HoverToggle(counts, name, events[..|events| - 1]);
    }
  }

  /** Mouseover followed by mouseout restores the style the map assigned. */
  lemma OverThenOut(counts: map<string, nat>, name: string)
    ensures MouseOut(MouseOver(Bind(counts, name), counts, name)).style == Bind(counts, name).style
    ensures MouseOver(Bind(counts, name), counts, name).tooltipOpen
    ensures !MouseOut(MouseOver(Bind(counts, name), counts, name)).tooltipOpen
  {
    HoverToggle(counts, name, [Over, Out]);
  }
}
