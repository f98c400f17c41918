/**
 * What the colour conversions of src/base/color.h mean channel by channel: each of red, green and
 * blue is a trapezoid over the circle of hues, raised to the lightness or the value.
 */
module ColorChannels {
  import opened Base
  import opened Color

  // ---------------------------------------------------------------- the circle of hues

  /** How far hue `h6` is from `at`, around a circle of six. */
  function Apart(h6: real, at: real): real {
    var d := if h6 < at then at - h6 else h6 - at;
    if d > 3.0 then 6.0 - d else d
  }

  /** All of a channel within 1 of its own hue, nothing from 2 on, and a slope between. */
  function Part(d: real): real {
    if d <= 1.0 then 1.0 else if d < 2.0 then 2.0 - d else 0.0
  }

  // Red is at 0, green at 2 and blue at 4.
  predicate Channels(p: Rgba, h6: real, c: real) {
    p.r == c * Part(Apart(h6, 0.0)) && p.g == c * Part(Apart(h6, 2.0)) && p.b == c * Part(Apart(h6, 4.0))
  }

  lemma PartsIn(n: nat, f: real)
    requires n <= 5 && 0.0 <= f < 1.0
    ensures var h6, x := n as real + f, if n % 2 == 0 then f else 1.0 - f;
      && Part(Apart(h6, 0.0)) == (if n == 0 || n == 5 then 1.0 else if n == 1 || n == 4 then x else 0.0)
      && Part(Apart(h6, 2.0)) == (if n == 1 || n == 2 then 1.0 else if n == 0 || n == 3 then x else 0.0)
      && Part(Apart(h6, 4.0)) == (if n == 3 || n == 4 then 1.0 else if n == 2 || n == 5 then x else 0.0)
  {
  }

  lemma Whole(c: real)
    ensures c * 1.0 == c && c * 0.0 == 0.0
  {
  }

  lemma SectorChannels(n: nat, h6: real, c: real, s: real)
    requires n <= 5
    requires Part(Apart(h6, 0.0)) == (if n == 0 || n == 5 then 1.0 else if n == 1 || n == 4 then s else 0.0)
    requires Part(Apart(h6, 2.0)) == (if n == 1 || n == 2 then 1.0 else if n == 0 || n == 3 then s else 0.0)
    requires Part(Apart(h6, 4.0)) == (if n == 3 || n == 4 then 1.0 else if n == 2 || n == 5 then s else 0.0)
    ensures Channels(Sector(n, c, c * s), h6, c)
  {
    hide Part, Apart;
    Whole(c);
  }

  lemma RaisedInside(n: nat, f: real, c: real)
    requires n <= 5 && 0.0 <= f < 1.0
    ensures Channels(Raised(n as real + f, c), n as real + f, c)
  {
    hide Raised, Channels, Part, Apart, Sector;
    var h6, s := n as real + f, if n % 2 == 0 then f else 1.0 - f;
    PartsIn(n, f);
    RaisedIn(n, f, c);
    SectorSame(n, c, if n % 2 == 0 then c * f else c * (1.0 - f), c * s);
    SectorChannels(n, h6, c, s);
  }

  lemma RaisedChannels(h6: real, c: real)
    requires 0.0 <= h6 <= 6.0
    ensures Channels(Raised(h6, c), h6, c)
  {
    hide Raised, Channels;
    var n, f := FractionOf(h6);
    if n == 6 {
      RaisedEnd(c);
    } else {
      RaisedInside(n, f, c);
    }
  }

  // At 6 the circle is closed.
  lemma RaisedEnd(c: real)
    ensures Channels(Raised(6.0, c), 6.0, c)
  {
    RaisedIn(6, 0.0, c);
    hide Raised;
    Whole(c);
  }

  // ---------------------------------------------------------------- from HSL and HSV

  /** The channels of a colour that is c wide and begins at m. */
  predicate Spread(p: Rgba, h: real, c: real, m: real) {
    && p.r == m + c * Part(Apart(6.0 * h, 0.0))
    && p.g == m + c * Part(Apart(6.0 * h, 2.0))
    && p.b == m + c * Part(Apart(6.0 * h, 4.0))
  }

  lemma LiftedSpread(p: Rgba, h: real, c: real, m: real, a: real)
    requires Channels(p, 6.0 * h, c)
    ensures Spread(Lifted(p, m, a), h, c, m) && Lifted(p, m, a).a == a
  {
    hide Part, Apart;
  }

  lemma HslSpread(t: Hsla)
    requires Unit(t.h)
    ensures Spread(HslToRgb(t), t.h, Chroma(t), t.l - Chroma(t) / 2.0) && HslToRgb(t).a == t.a
  {
    hide Raised, Channels, Chroma, Spread, Lifted;
    RaisedChannels(6.0 * t.h, Chroma(t));
    LiftedSpread(Raised(6.0 * t.h, Chroma(t)), t.h, Chroma(t), t.l - Chroma(t) / 2.0, t.a);
    assert t.h * 6.0 == 6.0 * t.h;
  }

  /**
   * HSL to RGB: the channels lie around the lightness, spread by the saturation times twice the
   * distance to black or white.
   */
  lemma HslChannels(t: Hsla)
    requires Unit(t.h)
    ensures var c := t.s * (2.0 * Min2(t.l, 1.0 - t.l));
      Spread(HslToRgb(t), t.h, c, t.l - c / 2.0) && HslToRgb(t).a == t.a
  {
    hide Span, HslToRgb, Spread, Min2;
    HslSpread(t);
    SpanIs(t.l);
    Commutes(t.s, Span(t.l));
    assert Chroma(t) == t.s * (2.0 * Min2(t.l, 1.0 - t.l));
    hide Chroma;
  }

  lemma HsvWide(t: Hsva)
    requires Unit(t.s) && Unit(t.v)
    ensures Chroma(HsvToHsl(t)) == t.s * t.v && HsvToHsl(t).l == t.v - t.s * t.v / 2.0
  {
    hide Chroma, HsvToHsl;
    var w := t.s * t.v;
    HsvLight(t, w);
    Within(t.s, t.v);
    HsvWidth(t, HsvToHsl(t).l, w);
  }

  lemma HsvLight(t: Hsva, w: real)
    requires w == t.s * t.v
    ensures HsvToHsl(t).l == t.v - w / 2.0
  {
    HsvLightness(t.s, t.v, w);
  }

  lemma HsvWidth(t: Hsva, l: real, w: real)
    requires 0.0 <= w <= t.v <= 1.0 && l == HsvToHsl(t).l == t.v - w / 2.0
    ensures Chroma(HsvToHsl(t)) == w
  {
    HsvSaturation(t, l);
    hide Chroma, HsvToHsl;
  }

  lemma HsvSaturation(t: Hsva, l: real)
    requires l == HsvToHsl(t).l && 0.0 <= l <= 1.0
    ensures Chroma(HsvToHsl(t)) == if l == 0.0 || l == 1.0 then 0.0 else 2.0 * (t.v - l)
  {
    var m, u := Min2(l, 1.0 - l), HsvToHsl(t);
    SpanIs(l);
    SaturationBack(t, l, t.v);
    if l == 0.0 || l == 1.0 {
      Whole(Span(l));
    } else {
      TimesShare(t.v - l, m);
      TwiceShare(u.s, m, t.v - l);
    }
    hide Span, HsvToHsl;
  }

  lemma HsvLightness(s: real, v: real, w: real)
    requires w == s * v
    ensures v * (1.0 - s * 0.5) == v - w / 2.0
  {
    assert v * (s * 0.5) == 0.5 * (s * v);
  }

  lemma TwiceShare(q: real, m: real, d: real)
    requires m * q == d
    ensures 2.0 * m * q == 2.0 * d
  {
    assert 2.0 * m * q == 2.0 * (m * q);
  }

  /** HSV to RGB: the value is the top of the channels, and the saturation their spread as a share of it. */
  lemma HsvChannels(t: Hsva)
    requires Unit(t.h) && Unit(t.s) && Unit(t.v)
    ensures Spread(HsvToRgb(t), t.h, t.s * t.v, t.v - t.s * t.v) && HsvToRgb(t).a == t.a
  {
    hide Chroma, Spread, HslToRgb;
    HsvWide(t);
    HslSpread(HsvToHsl(t));
  }

  // ---------------------------------------------------------------- to HSL and HSV

  lemma HueInCircle(c: Rgba)
    ensures 0.0 <= Hue6(c) < 6.0 && (Highest(c) == Lowest(c) ==> Hue6(c) == 0.0)
  {
    var w := Highest(c) - Lowest(c);
    if w > 0.0 {
      Share(c.g - c.b, w);
      if Highest(c) != c.r {
        Share(c.b - c.r, w);
        Share(c.r - c.g, w);
      }
    }
  }

  /**
   * RGB to HSL: the lightness is in the middle of the channels, the saturation their spread as a
   * share of what that lightness allows, and grey has neither hue nor saturation.
   */
  lemma HslMeans(c: Rgba)
    requires UnitRgb(c)
    ensures var t := RgbToHsl(c);
      && 2.0 * t.l == Highest(c) + Lowest(c) && t.a == c.a
      && t.s * (2.0 * Min2(t.l, 1.0 - t.l)) == Highest(c) - Lowest(c)
      && Unit(t.s) && 0.0 <= t.h < 1.0
      && (Highest(c) == Lowest(c) ==> t.h == 0.0 && t.s == 0.0)
  {
    hide Lowest, Highest, Hue6, Span, Min2;
    var low, high := Lowest(c), Highest(c);
    Range(c);
    HueInCircle(c);
    HslPlain(c);
    SaturationReads(low, high);
    SpanIs(0.5 * (high + low));
    Commutes(Saturation(low, high), Span(0.5 * (high + low)));
    if high == low {
      NoSpread(low);
    }
    hide Saturation;
  }

  lemma NoSpread(low: real)
    requires Unit(low)
    ensures Saturation(low, low) == 0.0
  {
  }

  /** RGB to HSV: the value is the highest channel, and the saturation the spread as a share of it. */
  lemma HsvMeans(c: Rgba)
    requires UnitRgb(c)
    ensures var t := RgbToHsv(c);
      t.h == RgbToHsl(c).h && t.v == Highest(c) && t.s * t.v == Highest(c) - Lowest(c) && t.a == c.a
  {
    hide RgbToHsl, Lowest, Highest, Min2;
    HslMeans(c);
    HslHalf(RgbToHsl(c));
    var t := RgbToHsl(c);
    if RgbToHsv(c).v != 0.0 {
      ValueShare(t.l, RgbToHsv(c).v);
    } else {
      Whole(RgbToHsv(c).s);
      Range(c);
    }
  }

  lemma HslHalf(t: Hsla)
    ensures 2.0 * HslToHsv(t).v == 2.0 * t.l + t.s * (2.0 * Min2(t.l, 1.0 - t.l))
  {
    var m := Min2(t.l, 1.0 - t.l);
    assert t.s * (2.0 * m) == 2.0 * (t.s * m);
  }

  lemma ValueShare(l: real, v: real)
    requires v != 0.0
    ensures (2.0 - 2.0 * l / v) * v == 2.0 * v - 2.0 * l
  {
    var q := 2.0 * l / v;
    assert q * v == 2.0 * l;
  }
}
