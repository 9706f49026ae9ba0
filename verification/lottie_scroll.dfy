/**
 * The scroll-driven Lottie section (src/components/LottieScroll.tsx): how the
 * scroll progress of the section, a number from 0 to 1, picks the frame of the
 * first animation and the opacity and scale of the overlay animation.
 *
 * Numbers are exact reals; the browser's floating-point rounding is not modelled.
 */
module LottieScroll {
  import opened Wrappers

  /** Frame count used when the animation reports none (or reports 0). */
  const FallbackTotalFrames: real := 300.0

  /** The overlay stays hidden until the progress reaches this point ... */
  const OverlayStart: real := 0.90
  /** ... and is fully shown this much progress later. */
  const OverlaySpan: real := 0.10
  /** The overlay's scale while hidden. */
  const HiddenScale: real := 0.4

  /** `animation.totalFrames || 300`: a missing or zero frame count falls back to 300. */
  function TotalFrames(reported: Option<real>): (n: real)
    ensures n != 0.0
    ensures reported.Some? && reported.value != 0.0 ==> n == reported.value
    ensures reported.None? || reported == Some(0.0) ==> n == FallbackTotalFrames
  {
    match reported
    case Some(v) => if v != 0.0 then v else FallbackTotalFrames
    case None => FallbackTotalFrames
  }

  /** The frame shown at scroll progress `p`: frame 0 at the start, the last frame at the end. */
  function Frame(p: real, totalFrames: real): real
  {
    p * (totalFrames - 1.0)
  }

  /** The overlay animation's opacity and scale. */
  datatype Overlay = Overlay(opacity: real, scale: real)

  /**
   * The overlay at progress `p`: hidden and at scale 0.4 below 0.90, then
   * opacity rising linearly with the progress and the scale following it.
   */
  function OverlayAt(p: real): (o: Overlay)
    ensures o.scale == HiddenScale + (1.0 - HiddenScale) * o.opacity
    ensures p < OverlayStart ==> o == Overlay(0.0, HiddenScale)
    ensures OverlayStart <= p <= 1.0 ==> 0.0 <= o.opacity <= 1.0 && HiddenScale <= o.scale <= 1.0
  {
    if p >= OverlayStart then
      var progressNormalized := (p - OverlayStart) / OverlaySpan;
      Overlay(progressNormalized, HiddenScale + progressNormalized * 0.6)
    else
      Overlay(0.0, HiddenScale)
  }

  /** For progress in [0, 1] the frame stays within the animation, from the first frame to the last. */
  lemma FrameBounds(p: real, totalFrames: real)
    requires 0.0 <= p <= 1.0 && totalFrames >= 1.0
    ensures 0.0 <= Frame(p, totalFrames) <= totalFrames - 1.0
    ensures Frame(0.0, totalFrames) == 0.0 && Frame(1.0, totalFrames) == totalFrames - 1.0
  {
    var d := totalFrames - 1.0;
    assert p * d >= 0.0;
    assert (1.0 - p) * d >= 0.0;
    assert p * d + (1.0 - p) * d == d;
  }

  /** Scrolling further never moves the animation backwards. */
  lemma FrameMonotone(p: real, q: real, totalFrames: real)
    requires p <= q && totalFrames >= 1.0
    ensures Frame(p, totalFrames) <= Frame(q, totalFrames)
  {
    assert Frame(q, totalFrames) - Frame(p, totalFrames) == (q - p) * (totalFrames - 1.0);
  }

  /** The two branches meet at the threshold, and the overlay is fully shown at the end. */
  lemma OverlayEndpoints()
    ensures OverlayAt(OverlayStart) == Overlay(0.0, HiddenScale)
    ensures OverlayAt(1.0) == Overlay(1.0, 1.0)
  {
  }

  /** Opacity and scale never decrease as the progress grows. */
  lemma OverlayMonotone(p: real, q: real)
    requires p <= q
    ensures OverlayAt(p).opacity <= OverlayAt(q).opacity
    ensures OverlayAt(p).scale <= OverlayAt(q).scale
  {
  }

  /**
   * The overlay is continuous in the progress everywhere, threshold included:
   * the opacity changes by at most ten times the change in progress.
   */
  lemma OverlayContinuous(p: real, q: real)
    requires p <= q
    ensures 0.0 <= OverlayAt(q).opacity - OverlayAt(p).opacity <= (q - p) / OverlaySpan
    ensures OverlayAt(q).scale - OverlayAt(p).scale <= 0.6 * (q - p) / OverlaySpan
  {
  }
}
