/** The arc shape of one comparison.

    An arc spans the horizontal distance `diam` between two players and is drawn as an
    SVG elliptical arc with horizontal radius diam/2 and vertical radius diam/fraction.
    The fraction is clamped below by 2, so an arc is never taller than a semicircle,
    and grows with the span once the semicircle would rise into the readout text.
    Pixel values are modelled as `real`.
 */
module ArcGeometry {

  /** One rem in pixels. */
  const Rem: int := 16
  /** Height of the chart in pixels. */
  const Height: int := 10 * Rem
  /** Height reserved for the readout text below the arcs. */
  const TextHeight: int := 48
  /** Vertical room left for arcs: the divisor of the fraction. */
  const ArcRoom: int := Height - TextHeight

  /** `Math.max` of two numbers. */
  function Max(a: real, b: real): (m: real)
    ensures m >= a && m >= b
    ensures m == a || m == b
  {
    if a >= b then a else b
  }

  /** The ratio diam / ry of an arc spanning `diam` pixels, never below 2. */
  function Fraction(diam: real): (f: real)
    ensures f >= 2.0
    ensures diam <= 224.0 ==> f == 2.0
    ensures diam >= 224.0 ==> f == diam / 112.0
  {
    Max(2.0, diam / (ArcRoom as real))
  }

  /** The vertical radius of the arc, as the path string passes it to SVG. */
  function RiseOf(diam: real): real {
    diam / Fraction(diam)
  }

  /** The divisor of the fraction is the nonzero constant 112. */
  lemma ArcRoomValue()
    ensures ArcRoom == 112
  {
  }

  /** For a span of zero or more, the arc never rises higher than the room above the text, and
      never higher than half its span: its vertical radius is at most its horizontal radius.
      Up to a span of 224 pixels it is a semicircle; beyond that it keeps the full 112 pixels
      of room. A negative span (a pair whose later player has the earlier day) always gets
      the fraction 2. */
  lemma ArcRiseBounded(diam: real)
    ensures RiseOf(diam) <= ArcRoom as real
    ensures RiseOf(diam) <= diam / 2.0
    ensures 0.0 <= diam ==> 0.0 <= RiseOf(diam) <= ArcRoom as real
    ensures diam < 0.0 ==> RiseOf(diam) == diam / 2.0
    ensures diam <= 224.0 ==> RiseOf(diam) == diam / 2.0
    ensures diam >= 224.0 ==> RiseOf(diam) == ArcRoom as real
  {
  }

  /** A reversed pair is not height-limited: SVG draws the absolute radius |diam| / 2, which
      exceeds the 112 pixels of room once the span is below -224. */
  lemma ReversedArcUnbounded(diam: real)
    requires diam < -224.0
    ensures Fraction(diam) == 2.0
    ensures -RiseOf(diam) > ArcRoom as real
  {
  }
}
