/** The influence field builder: each mesh's screen rectangle becomes an
    ellipse centred on the rectangle, reaching a fixed pad beyond it. */
module Influence {
  import opened Geometry
  import opened Bounds

  /** How far, in pixels, the influence reaches past the silhouette. */
  const Pad: real := 50.0

  datatype Ellipse = Ellipse(cx: real, cy: real, rx: real, ry: real) {
    /** Radii positive, so that normalising by them is defined. */
    predicate Proper() {
      rx > 0.0 && ry > 0.0
    }

    function Centre(): Vec2 {
      Vec2(cx, cy)
    }
  }

  /** The influence ellipse of a screen rectangle: its centre is the
      rectangle's midpoint and each radius is the half extent plus the pad. */
  function EllipseOf(r: Rect): (e: Ellipse)
    ensures e.cx - r.minX == r.maxX - e.cx && e.cy - r.minY == r.maxY - e.cy
    ensures r.Valid() ==> r.Contains(e.Centre())
    ensures r.Valid() ==> e.rx >= Pad && e.ry >= Pad && e.Proper()
    ensures e.rx - (e.cx - r.minX) == Pad && e.ry - (e.cy - r.minY) == Pad
  {
    Ellipse((r.minX + r.maxX) / 2.0, (r.minY + r.maxY) / 2.0,
            (r.maxX - r.minX) / 2.0 + Pad, (r.maxY - r.minY) / 2.0 + Pad)
  }

  /** The rectangle an ellipse was grown from: shrink each radius by the pad. */
  function Silhouette(e: Ellipse): Rect {
    Rect(e.cx - (e.rx - Pad), e.cx + (e.rx - Pad), e.cy - (e.ry - Pad), e.cy + (e.ry - Pad))
  }

  /** Building the ellipse loses nothing: the rectangle is recovered. */
  lemma SilhouetteOfEllipse(r: Rect)
    ensures Silhouette(EllipseOf(r)) == r
  {
  }

  /** And every ellipse is the one grown from its silhouette. */
  lemma EllipseOfSilhouette(e: Ellipse)
    ensures EllipseOf(Silhouette(e)) == e
  {
  }
}
