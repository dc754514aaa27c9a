/**
  The eye aspect ratio (EAR) of drowsiness_detector.py.

  The detector measures three Euclidean distances between the six landmarks
  of one eye: two vertical lid distances and the horizontal corner-to-corner
  distance. The square roots and pixel scaling that produce them are left to
  the caller; here they are exact non-negative reals.
*/
module Ear {
  import opened Wrappers

  /** A Euclidean distance between two landmarks is never negative. */
  type Distance = x: real | x >= 0.0

  /** The three distances calculate_EAR reads from one eye's six landmarks:
      vertical1 between points 1 and 5, vertical2 between points 2 and 4,
      horizontal between the corners 0 and 3. */
  datatype Eye = Eye(vertical1: Distance, vertical2: Distance, horizontal: Distance)

  /** The eye aspect ratio (A + B) / (2C). A zero-width eye makes the
      division fail; the source raises ZeroDivisionError there, modelled as None. */
  function CalculateEar(eye: Eye): (r: Option<real>)
    ensures r.None? <==> eye.horizontal == 0.0
    ensures r.Some? ==> r.value >= 0.0
    ensures r.Some? ==> r.value * (2.0 * eye.horizontal) == eye.vertical1 + eye.vertical2
  {
    if eye.horizontal == 0.0 then None
    else
      var ratio := (eye.vertical1 + eye.vertical2) / (2.0 * eye.horizontal);
      assert ratio * (2.0 * eye.horizontal) == eye.vertical1 + eye.vertical2;
      Some(ratio)
  }

  /** The same eye with every distance multiplied by one factor k: a
      uniform rescaling of the image. */
  function Scaled(eye: Eye, k: real): Eye
    requires k > 0.0
  {
    Eye(k * eye.vertical1, k * eye.vertical2, k * eye.horizontal)
  }

  /** A uniform rescaling leaves the ratio unchanged. */
  lemma ScaleInvariant(eye: Eye, k: real)
    requires k > 0.0
    ensures CalculateEar(Scaled(eye, k)) == CalculateEar(eye)
  {
    var s := Scaled(eye, k);
    if eye.horizontal != 0.0 {
      var r, rs := CalculateEar(eye).value, CalculateEar(s).value;
      assert rs * (2.0 * k * eye.horizontal) == k * (eye.vertical1 + eye.vertical2);
      assert k * (rs * (2.0 * eye.horizontal)) == k * (r * (2.0 * eye.horizontal));
      assert rs * (2.0 * eye.horizontal) == r * (2.0 * eye.horizontal);
    }
  }

  /** The frame's signal: the mean of the two eyes' ratios. It lies midway
      between them. */
  function MeanEar(left: real, right: real): (m: real)
    ensures m - left == right - m
  {
    (left + right) / 2.0
  }

  /** Both eyes' ratios and their mean, as the frame loop computes them:
      the left eye first, then the right; either division failing ends the
      computation. */
  function FrameEar(left: Eye, right: Eye): (f: Option<real>)
    ensures f.Some? <==> left.horizontal > 0.0 && right.horizontal > 0.0
    ensures f.Some? ==> f.value >= 0.0
    ensures f.Some? ==> var l, r := CalculateEar(left).value, CalculateEar(right).value;
                        (l <= f.value <= r) || (r <= f.value <= l)
    ensures f.Some? ==> 2.0 * f.value == CalculateEar(left).value + CalculateEar(right).value
  {
    match CalculateEar(left)
    case None => None
    case Some(l) =>
      match CalculateEar(right)
      case None => None
      case Some(r) => Some(MeanEar(l, r))
  }
}
