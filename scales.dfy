/**
 * The continuous scales of the chart (`d3.scaleLinear` for prices, `d3.scaleTime` for dates) as
 * exact maps over the reals from a domain `[d0, d1]` onto a range `[r0, r1]`.
 */
module Scales {
  datatype LinearScale = LinearScale(d0: real, d1: real, r0: real, r1: real)

  /**
   * The position of `v` across the domain: 0 at `d0`, 1 at `d1`. A degenerate domain (`d0 == d1`)
   * sends every value to the middle, as d3's normalisation does.
   */
  function Normalize(s: LinearScale, v: real): real {
    if s.d1 == s.d0 then 0.5 else (v - s.d0) / (s.d1 - s.d0)
  }

  /** `scale(v)`: the normalised position interpolated between the ends of the range. */
  function Apply(s: LinearScale, v: real): real {
    var t := Normalize(s, v);
    s.r0 * (1.0 - t) + s.r1 * t
  }

  /** The domain's ends go to the range's ends. */
  lemma Endpoints(s: LinearScale)
    requires s.d0 != s.d1
    ensures Apply(s, s.d0) == s.r0 && Apply(s, s.d1) == s.r1
  {
    assert (s.d1 - s.d0) / (s.d1 - s.d0) == 1.0;
  }

  /**
   * The scale is affine: the distance between two images is the distance between the values times
   * the slope `(r1 - r0) / (d1 - d0)`.
   */
  lemma Affine(s: LinearScale, v: real, w: real)
    requires s.d0 != s.d1
    ensures Apply(s, w) - Apply(s, v) == (w - v) * (s.r1 - s.r0) / (s.d1 - s.d0)
  {
    var k := s.d1 - s.d0;
    var tv := (v - s.d0) / k;
    var tw := (w - s.d0) / k;
    assert Apply(s, w) - Apply(s, v) == (s.r1 - s.r0) * (tw - tv);
    assert tw - tv == (w - v) / k;
  }

  /**
   * A value inside the domain lands inside the range, and order is kept (for a rising range) or
   * reversed (for a falling one, such as the y axis whose range runs from the bottom up).
   */
  lemma WithinRange(s: LinearScale, v: real)
    requires s.d0 < s.d1 && s.d0 <= v <= s.d1
    ensures s.r0 <= s.r1 ==> s.r0 <= Apply(s, v) <= s.r1
    ensures s.r1 <= s.r0 ==> s.r1 <= Apply(s, v) <= s.r0
  {
    var t := Normalize(s, v);
    UnitQuotient(v - s.d0, s.d1 - s.d0);
    var d := s.r1 - s.r0;
    assert Apply(s, v) == s.r0 + d * t;
    if d >= 0.0 {
      assert 0.0 <= d * t && 0.0 <= d * (1.0 - t);
    } else {
      assert d * t <= 0.0 && d * (1.0 - t) <= 0.0;
    }
  }

  /** A share of a positive whole lies between 0 and 1. */
  lemma UnitQuotient(a: real, k: real)
    requires 0.0 <= a <= k && k > 0.0
    ensures 0.0 <= a / k <= 1.0
  {
    var q := a / k;
    assert q * k == a;
    assert q < 0.0 ==> q * k < 0.0;
    assert q > 1.0 ==> q * k > k;
  }

  /** Over an increasing domain, larger values are drawn further towards `r1`. */
  lemma Monotone(s: LinearScale, v: real, w: real)
    requires s.d0 < s.d1 && v < w
    ensures s.r0 < s.r1 ==> Apply(s, v) < Apply(s, w)
    ensures s.r1 < s.r0 ==> Apply(s, w) < Apply(s, v)
  {
    Affine(s, v, w);
    var k := s.d1 - s.d0;
    assert (w - v) * (s.r1 - s.r0) / k == (w - v) / k * (s.r1 - s.r0);
    assert (w - v) / k > 0.0;
  }
}
