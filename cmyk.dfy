/**
 The RGB to CMYK conversion of the palette view (`rgb_to_cmyk`, main.py:15-22),
 in exact rational arithmetic.

 The general branch divides by `1 - k`, which is `max(r, g, b) / 255`; black
 is handled first so that this divisor is never zero.  Each component is the
 exact share of ink scaled to a percentage and rounded to the nearest integer:
 c = (max - r) / max (likewise m and y) and k = (255 - max) / 255.
 */
module CmykConversion {
  import opened Colour

  /** A CMYK colour as four integer percentages, in the order the source returns them. */
  datatype Cmyk = Cmyk(c: int, m: int, y: int, k: int)

  /** `n` lies within one half of `x`: what any rounding to the nearest integer achieves. */
  predicate NearestTo(n: int, x: real) {
    -0.5 <= n as real - x <= 0.5
  }

  /** `x` lies exactly halfway between two integers. */
  predicate IsTie(x: real) {
    x - x.Floor as real == 0.5
  }

  /**
   Python's built-in `round` on one argument: the nearest integer, and the
   even one of the two at an exact tie.
   */
  function Round(x: real): (n: int)
    ensures NearestTo(n, x)
    ensures IsTie(x) ==> n % 2 == 0
  {
    var f := x.Floor;
    var d := x - f as real;
    if d < 0.5 then f
    else if d > 0.5 then f + 1
    else if f % 2 == 0 then f
    else f + 1
  }

  /** An integer strictly closer than one half to `x` is `Round(x)`, and `x` is then no tie. */
  lemma StrictlyNearestIsRound(n: int, x: real)
    requires -0.5 < n as real - x < 0.5
    ensures !IsTie(x) && Round(x) == n
  {
    var f := x.Floor;
    assert f as real <= x < f as real + 1.0;
    assert n == f || n == f + 1;
    var m := Round(x);
    assert -1.0 < (m - n) as real < 1.0;
  }

  /**
   Away from ties there is only one nearest integer, so every rule for
   breaking ties agrees with `Round` there.
   */
  lemma OnlyTiesAreAmbiguous(n: int, x: real)
    requires NearestTo(n, x) && !IsTie(x)
    ensures Round(x) == n
  {
    var f := x.Floor;
    var d := x - f as real;
    assert 0.0 <= d < 1.0 && d != 0.5;
    assert n == f || n == f + 1;
    if n == f {
      assert x - n as real == d;
    } else {
      assert n as real - x == 1.0 - d;
    }
    StrictlyNearestIsRound(n, x);
  }

  /** A ratio of a non-negative number to a larger positive one lies in [0, 1]. */
  lemma RatioInUnit(a: real, b: real)
    requires 0.0 <= a <= b && 0.0 < b
    ensures 0.0 <= a / b <= 1.0
    ensures a / b == 0.0 <==> a == 0.0
  {
    var q := a / b;
    assert q * b == a;
  }

  /** The exact cyan (magenta, yellow) percentage of a channel `v`: 100 * (max - v) / max. */
  function InkPercent(v: Byte, mx: Byte): (p: real)
    requires v <= mx && 0 < mx
    ensures 0.0 <= p <= 100.0
    ensures p == 0.0 <==> v == mx
  {
    RatioInUnit((mx - v) as real, mx as real);
    100.0 * ((mx - v) as real / mx as real)
  }

  /** The exact black percentage of a colour whose largest channel is `mx`: 100 * (255 - max) / 255. */
  function BlackPercent(mx: Byte): (p: real)
    ensures 0.0 <= p <= 100.0
    ensures p == 0.0 <==> mx == 255
  {
    100.0 * (255 - mx) as real / 255.0
  }

  /** Python's `max` of three reals. */
  function MaxReal(a: real, b: real, c: real): (mx: real)
    ensures a <= mx && b <= mx && c <= mx
    ensures mx == a || mx == b || mx == c
  {
    var ab := if a < b then b else a;
    if ab < c then c else ab
  }

  /** `max(r/255, g/255, b/255)` is `max(r, g, b)/255`: dividing by 255 keeps the order. */
  lemma MaxOfQuotients(r: Byte, g: Byte, b: Byte)
    ensures MaxReal(r as real / 255.0, g as real / 255.0, b as real / 255.0) == MaxChannel(r, g, b) as real / 255.0
  {
    var mx := MaxChannel(r, g, b);
    var q := MaxReal(r as real / 255.0, g as real / 255.0, b as real / 255.0);
    assert q >= mx as real / 255.0 by {
      if mx == r {} else if mx == g {} else {}
    }
    assert q <= mx as real / 255.0 by {
      assert r as real / 255.0 <= mx as real / 255.0;
      assert g as real / 255.0 <= mx as real / 255.0;
      assert b as real / 255.0 <= mx as real / 255.0;
    }
  }

  /**
   In the general branch the divisor `1 - k`, with k = 1 - max(r/255, g/255, b/255),
   is `max(r, g, b) / 255`, which is positive for every colour other than black.
   */
  lemma DivisorIsPositive(r: Byte, g: Byte, b: Byte)
    requires !(r == 0 && g == 0 && b == 0)
    ensures 1.0 - (1.0 - MaxReal(r as real / 255.0, g as real / 255.0, b as real / 255.0))
            == MaxChannel(r, g, b) as real / 255.0
    ensures MaxChannel(r, g, b) as real / 255.0 > 0.0
  {
    MaxOfQuotients(r, g, b);
  }

  /**
   The source's expression for one ink component, `(1 - v/255 - k) / (1 - k)`
   scaled by 100, is the exact ink percentage of `v`.
   */
  lemma InkShareIsPercent(v: Byte, mx: Byte)
    requires v <= mx && 0 < mx
    ensures (1.0 - v as real / 255.0 - (1.0 - mx as real / 255.0)) / (1.0 - (1.0 - mx as real / 255.0)) * 100.0
            == InkPercent(v, mx)
  {
    var num := 1.0 - v as real / 255.0 - (1.0 - mx as real / 255.0);
    var den := 1.0 - (1.0 - mx as real / 255.0);
    assert num == (mx - v) as real / 255.0;
    assert den == mx as real / 255.0;
    assert num / den == (mx - v) as real / mx as real;
  }

  /**
   The black percentage never lies on a tie: 100 * (255 - max) / 255 is
   20 * (255 - max) / 51, whose distance to the closed form below is at most
   25/51.  So `k` is fully determined, whatever rule breaks ties.
   */
  lemma BlackRoundsTo(mx: Byte)
    ensures Round(BlackPercent(mx)) == (20 * (255 - mx) + 25) / 51
    ensures !IsTie(BlackPercent(mx))
  {
    var a := 255 - mx;
    var q := (20 * a + 25) / 51;
    var rem := (20 * a + 25) % 51;
    assert 20 * a + 25 == 51 * q + rem && 0 <= rem < 51;
    var x := BlackPercent(mx);
    assert x == (20 * a) as real / 51.0;
    assert q as real - x == (25 - rem) as real / 51.0;
    StrictlyNearestIsRound(q, x);
  }

  /**
   `rgb_to_cmyk`: black is (0, 0, 0, 100); any other colour has k = 1 - max/255
   and c, m, y = (1 - channel/255 - k) / (1 - k), each scaled by 100 and rounded.

   Every component is a percentage in [0, 100].  `k` is the exact black
   percentage rounded (it never ties), and each of `c`, `m`, `y` is within one
   half of the exact ink percentage of its channel.
   */
  function RgbToCmyk(r: Byte, g: Byte, b: Byte): (cmyk: Cmyk)
    ensures 0 <= cmyk.c <= 100 && 0 <= cmyk.m <= 100 && 0 <= cmyk.y <= 100 && 0 <= cmyk.k <= 100
    ensures cmyk.k == (20 * (255 - MaxChannel(r, g, b)) + 25) / 51
    ensures MaxChannel(r, g, b) == 0 ==> cmyk.c == 0 && cmyk.m == 0 && cmyk.y == 0
    ensures MaxChannel(r, g, b) > 0 ==>
              && NearestTo(cmyk.c, InkPercent(r, MaxChannel(r, g, b)))
              && NearestTo(cmyk.m, InkPercent(g, MaxChannel(r, g, b)))
              && NearestTo(cmyk.y, InkPercent(b, MaxChannel(r, g, b)))
  {
    if r == 0 && g == 0 && b == 0 then
      BlackRoundsTo(0);
      Cmyk(0, 0, 0, 100)
    else
      var k := 1.0 - MaxReal(r as real / 255.0, g as real / 255.0, b as real / 255.0);
      var mx := MaxChannel(r, g, b);
      DivisorIsPositive(r, g, b);
      var c := (1.0 - r as real / 255.0 - k) / (1.0 - k);
      var m := (1.0 - g as real / 255.0 - k) / (1.0 - k);
      var y := (1.0 - b as real / 255.0 - k) / (1.0 - k);
      InkShareIsPercent(r, mx);
      InkShareIsPercent(g, mx);
      InkShareIsPercent(b, mx);
      assert k * 100.0 == BlackPercent(mx);
      BlackRoundsTo(mx);
      Cmyk(Round(c * 100.0), Round(m * 100.0), Round(y * 100.0), Round(k * 100.0))
  }

  /** Black maps to no ink and full black (main.py:16-17). */
  lemma CmykOfBlack()
    ensures RgbToCmyk(0, 0, 0) == Cmyk(0, 0, 0, 100)
  {
  }

  /** White needs no ink at all. */
  lemma CmykOfWhite()
    ensures RgbToCmyk(255, 255, 255) == Cmyk(0, 0, 0, 0)
  {
  }

  /** A grey other than black has no coloured ink, only black, rounded from 100 * (255 - v) / 255. */
  lemma CmykOfGrey(v: Byte)
    requires v > 0
    ensures RgbToCmyk(v, v, v).c == 0 && RgbToCmyk(v, v, v).m == 0 && RgbToCmyk(v, v, v).y == 0
    ensures RgbToCmyk(v, v, v).k == Round(100.0 * (255 - v) as real / 255.0)
  {
    BlackRoundsTo(v);
  }

  /** The ink of the strongest channel is always 0. */
  lemma StrongestChannelHasNoInk(r: Byte, g: Byte, b: Byte)
    ensures r == MaxChannel(r, g, b) ==> RgbToCmyk(r, g, b).c == 0
    ensures g == MaxChannel(r, g, b) ==> RgbToCmyk(r, g, b).m == 0
    ensures b == MaxChannel(r, g, b) ==> RgbToCmyk(r, g, b).y == 0
  {
  }

  /**
   Apart from exact ties, each ink component is the one integer nearest to
   its exact percentage, so no rule for breaking ties changes it.
   */
  lemma InkFixedOffTies(r: Byte, g: Byte, b: Byte, nc: int, nm: int, ny: int)
    requires MaxChannel(r, g, b) > 0
    ensures NearestTo(nc, InkPercent(r, MaxChannel(r, g, b))) && !IsTie(InkPercent(r, MaxChannel(r, g, b)))
            ==> RgbToCmyk(r, g, b).c == nc
    ensures NearestTo(nm, InkPercent(g, MaxChannel(r, g, b))) && !IsTie(InkPercent(g, MaxChannel(r, g, b)))
            ==> RgbToCmyk(r, g, b).m == nm
    ensures NearestTo(ny, InkPercent(b, MaxChannel(r, g, b))) && !IsTie(InkPercent(b, MaxChannel(r, g, b)))
            ==> RgbToCmyk(r, g, b).y == ny
  {
    var mx := MaxChannel(r, g, b);
    var cmyk := RgbToCmyk(r, g, b);
    if NearestTo(nc, InkPercent(r, mx)) && !IsTie(InkPercent(r, mx)) {
      OnlyTiesAreAmbiguous(nc, InkPercent(r, mx));
      OnlyTiesAreAmbiguous(cmyk.c, InkPercent(r, mx));
    }
    if NearestTo(nm, InkPercent(g, mx)) && !IsTie(InkPercent(g, mx)) {
      OnlyTiesAreAmbiguous(nm, InkPercent(g, mx));
      OnlyTiesAreAmbiguous(cmyk.m, InkPercent(g, mx));
    }
    if NearestTo(ny, InkPercent(b, mx)) && !IsTie(InkPercent(b, mx)) {
      OnlyTiesAreAmbiguous(ny, InkPercent(b, mx));
      OnlyTiesAreAmbiguous(cmyk.y, InkPercent(b, mx));
    }
  }

  /**
   Ink components can tie: with max 200 and a channel of 1 the exact
   percentage is 99.5, where the rounding rule decides between 99 and 100.
   */
  lemma InkCanTie()
    ensures IsTie(InkPercent(1, 200))
  {
    assert InkPercent(1, 200) == 99.5;
    assert (99.5).Floor == 99;
  }

  /**
   The exact percentages invert: 255 * (1 - c/100) * (1 - k/100) gives the
   channel back, so before rounding the conversion loses nothing.
   */
  lemma ExactPercentagesInvert(v: Byte, mx: Byte)
    requires v <= mx && 0 < mx
    ensures 255.0 * (1.0 - InkPercent(v, mx) / 100.0) * (1.0 - BlackPercent(mx) / 100.0) == v as real
  {
    var p := InkPercent(v, mx);
    var m := mx as real;
    assert p * m == 100.0 * (mx - v) as real;
    assert (1.0 - p / 100.0) * m == v as real;
    assert 1.0 - BlackPercent(mx) / 100.0 == m / 255.0;
  }
}
