/** Path styles of the polygon layers of both maps. */
module Layers {

  /** The style options of a polygon layer. */
  datatype Style = Style(fillColor: string, weight: real, opacity: real, color: string, fillOpacity: real)

  /** `setStyle` with the three options the hover handlers pass: they are
      merged into the current style and every other option is kept. */
  function SetStyle(s: Style, weight: real, color: string, fillOpacity: real): (t: Style)
    ensures t.fillColor == s.fillColor && t.opacity == s.opacity
    ensures t.weight == weight && t.color == color && t.fillOpacity == fillOpacity
  {
    s.(weight := weight, color := color, fillOpacity := fillOpacity)
  }
}
