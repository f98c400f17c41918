/**
 * The colour conversions of src/base/color.h, over the real numbers.
 */
module Color {
  import opened Base

  datatype Rgba = Rgba(r: real, g: real, b: real, a: real)
  datatype Hsla = Hsla(h: real, s: real, l: real, a: real)
  datatype Hsva = Hsva(h: real, s: real, v: real, a: real)

  function Min2(x: real, y: real): real { if x < y then x else y }
  function Max2(x: real, y: real): real { if x > y then x else y }

  // round_truncate, towards zero.
  function Truncate(x: real): int {
    if x >= 0.0 then x.Floor else -((-x).Floor)
  }

  // std::fmod(x, 2)
  function Mod2(x: real): real {
    x - 2.0 * (Truncate(x / 2.0) as real)
  }

  function Lowest(c: Rgba): real { Min2(Min2(c.r, c.g), c.b) }
  function Highest(c: Rgba): real { Max2(Max2(c.r, c.g), c.b) }

  predicate Unit(x: real) { 0.0 <= x <= 1.0 }

  predicate UnitRgb(c: Rgba) { Unit(c.r) && Unit(c.g) && Unit(c.b) }

  // ---------------------------------------------------------------- the conversions

  // Six times the hue, in the sector of the highest component.
  function Hue6(c: Rgba): real {
    var low, high := Lowest(c), Highest(c);
    if high == low then 0.0
    else if high == c.r then (c.g - c.b) / (high - low) + (if c.g < c.b then 6.0 else 0.0)
    else if high == c.g then (c.b - c.r) / (high - low) + 2.0
    else (c.r - c.g) / (high - low) + 4.0
  }

  function RgbToHue(c: Rgba): real { Hue6(c) / 6.0 }

  // 1 - |2l - 1|
  function Span(l: real): real { 1.0 - Abs(2.0 * l - 1.0) }

  function Saturation(low: real, high: real): real
    requires 0.0 <= low <= high <= 1.0
  {
    if high != 0.0 && low != 1.0 then (high - low) / Span(0.5 * (high + low)) else 0.0
  }

  function RgbToHsl(c: Rgba): Hsla
    requires UnitRgb(c)
  {
    Hsla(RgbToHue(c), Saturation(Lowest(c), Highest(c)), 0.5 * (Highest(c) + Lowest(c)), c.a)
  }

  // The height of the middle component within the range, as a share of it.
  function Tent(h6: real): real { 1.0 - Abs(Mod2(h6) - 1.0) }

  // The components over the lowest one, c the range and x the middle one.
  function Sector(n: int, c: real, x: real): Rgba {
    match n
    case 0 => Rgba(c, x, 0.0, 0.0)
    case 1 => Rgba(x, c, 0.0, 0.0)
    case 2 => Rgba(0.0, c, x, 0.0)
    case 3 => Rgba(0.0, x, c, 0.0)
    case 4 => Rgba(x, 0.0, c, 0.0)
    case 5 => Rgba(c, 0.0, x, 0.0)
    case 6 => Rgba(c, 0.0, x, 0.0)
    case _ => Rgba(0.0, 0.0, 0.0, 0.0)
  }

  // The same, from the hue.
  function Raised(h6: real, c: real): Rgba {
    Sector(Truncate(h6), c, c * Tent(h6))
  }

  function Lifted(p: Rgba, m: real, a: real): Rgba {
    Rgba(p.r + m, p.g + m, p.b + m, a)
  }

  function Chroma(t: Hsla): real { Span(t.l) * t.s }

  function HslToRgb(t: Hsla): Rgba {
    Lifted(Raised(t.h * 6.0, Chroma(t)), t.l - Chroma(t) / 2.0, t.a)
  }

  function HsvToHsl(t: Hsva): Hsla {
    var l := t.v * (1.0 - t.s * 0.5);
    Hsla(t.h, if l == 0.0 || l == 1.0 then 0.0 else (t.v - l) / Min2(l, 1.0 - l), l, t.a)
  }

  function HslToHsv(t: Hsla): Hsva {
    var v := t.l + t.s * Min2(t.l, 1.0 - t.l);
    Hsva(t.h, if v == 0.0 then 0.0 else 2.0 - 2.0 * t.l / v, v, t.a)
  }

  function HsvToRgb(t: Hsva): Rgba { HslToRgb(HsvToHsl(t)) }

  function RgbToHsv(c: Rgba): Hsva
    requires UnitRgb(c)
  {
    HslToHsv(RgbToHsl(c))
  }

  // ---------------------------------------------------------------- quotients

  lemma QuotientTimes(d: real, c: real)
    requires c > 0.0
    ensures d / c * c == d
  {
  }

  lemma Share(d: real, c: real)
    requires c > 0.0 && -c <= d <= c
    ensures -1.0 <= d / c <= 1.0
    ensures (d < 0.0 <==> d / c < 0.0) && (d == c <==> d / c == 1.0) && (d == -c <==> d / c == -1.0)
  {
    var t := d / c;
    QuotientTimes(d, c);
    Sign(t, c);
    Sign(t - 1.0, c);
    Sign(t + 1.0, c);
  }

  lemma Sign(x: real, c: real)
    requires c > 0.0
    ensures (x < 0.0 <==> x * c < 0.0) && (x > 0.0 <==> x * c > 0.0)
  {
  }

  // ---------------------------------------------------------------- sectors

  lemma FloorIs(x: real, n: int)
    requires n as real <= x < n as real + 1.0
    ensures x.Floor == n
  {
  }

  /** In sector n, a fraction f into it, the tent rises where n is even and falls where it is odd. */
  lemma TentIn(n: nat, f: real)
    requires 0.0 <= f < 1.0
    ensures Truncate(n as real + f) == n
    ensures Tent(n as real + f) == if n % 2 == 0 then f else 1.0 - f
  {
    var x := n as real + f;
    FloorIs(x, n);
    var half := n / 2;
    HalfFloor(n, f);
    assert Mod2(x) == x - 2.0 * (half as real);
    if n % 2 == 0 {
      assert n as real == 2.0 * (half as real);
    } else {
      assert n as real == 2.0 * (half as real) + 1.0;
    }
  }

  lemma HalfFloor(n: nat, f: real)
    requires 0.0 <= f < 1.0
    ensures ((n as real + f) / 2.0).Floor == n / 2
  {
    FloorIs((n as real + f) / 2.0, n / 2);
  }

  lemma RaisedIn(n: nat, f: real, c: real)
    requires 0.0 <= f < 1.0
    ensures Raised(n as real + f, c) == Sector(n, c, if n % 2 == 0 then c * f else c * (1.0 - f))
  {
    TentIn(n, f);
    hide Tent, Truncate, Sector;
  }

  predicate Over(p: Rgba, low: real, c: Rgba) {
    p.r == c.r - low && p.g == c.g - low && p.b == c.b - low
  }

  // The hue is t past the middle 2k of the sectors of a component, t from -1 to 1.
  lemma RaisedNear(k: nat, t: real, c: real)
    requires -1.0 <= t <= 1.0 && (k == 0 ==> t >= 0.0)
    ensures Raised((2 * k) as real + t, c) ==
      if t == 1.0 then Sector(2 * k + 1, c, c)
      else if t >= 0.0 then Sector(2 * k, c, c * t)
      else Sector(2 * k - 1, c, -(c * t))
  {
    hide Raised, Sector;
    if t == 1.0 {
      RaisedIn(2 * k + 1, 0.0, c);
      assert (2 * k + 1) as real + 0.0 == (2 * k) as real + t;
      assert c * (1.0 - 0.0) == c;
    } else if t >= 0.0 {
      RaisedIn(2 * k, t, c);
    } else {
      var m := -t;
      RaisedBefore(k, m, c);
      assert (2 * k) as real - m == (2 * k) as real + t;
      SectorSame(2 * k - 1, c, c * m, -(c * t));
    }
  }

  lemma SectorSame(n: int, c: real, x: real, y: real)
    requires x == y
    ensures Sector(n, c, x) == Sector(n, c, y)
  {
  }

  lemma RaisedBefore(k: nat, m: real, c: real)
    requires 0.0 < m <= 1.0 && k > 0
    ensures Raised((2 * k) as real - m, c) == Sector(2 * k - 1, c, c * m)
  {
    hide Raised, Sector;
    var f := 1.0 - m;
    RaisedIn(2 * k - 1, f, c);
    assert (2 * k - 1) as real + f == (2 * k) as real - m;
    SectorSame(2 * k - 1, c, c * (1.0 - f), c * m);
  }

  lemma TimesShare(d: real, c: real)
    requires c > 0.0
    ensures c * (d / c) == d
  {
    QuotientTimes(d, c);
  }

  // The three cases of the hue: which component is the highest.
  lemma RedReads(c: Rgba)
    requires Highest(c) == c.r && Highest(c) > Lowest(c)
    ensures Over(Raised(Hue6(c), Highest(c) - Lowest(c)), Lowest(c), c)
  {
    hide Raised;
    var w := Highest(c) - Lowest(c);
    var d := c.g - c.b;
    Share(d, w);
    TimesShare(d, w);
    if d < 0.0 {
      RaisedNear(3, d / w, w);
      assert 6.0 + d / w == d / w + 6.0;
    } else {
      RaisedNear(0, d / w, w);
    }
  }

  lemma GreenReads(c: Rgba)
    requires Highest(c) == c.g && Highest(c) != c.r && Highest(c) > Lowest(c)
    ensures Over(Raised(Hue6(c), Highest(c) - Lowest(c)), Lowest(c), c)
  {
    hide Raised;
    var w := Highest(c) - Lowest(c);
    var d := c.b - c.r;
    Share(d, w);
    TimesShare(d, w);
    RaisedNear(1, d / w, w);
  }

  lemma BlueReads(c: Rgba)
    requires Highest(c) != c.g && Highest(c) != c.r && Highest(c) > Lowest(c)
    ensures Over(Raised(Hue6(c), Highest(c) - Lowest(c)), Lowest(c), c)
  {
    hide Raised;
    var w := Highest(c) - Lowest(c);
    var d := c.r - c.g;
    Share(d, w);
    TimesShare(d, w);
    RaisedNear(2, d / w, w);
  }

  lemma GreyReads(c: Rgba)
    requires Highest(c) == Lowest(c)
    ensures Over(Raised(Hue6(c), 0.0), Lowest(c), c)
  {
    RaisedIn(0, 0.0, 0.0);
    hide Raised;
  }

  /** The hue and the range give back every component, in every sector and on the boundaries. */
  lemma HueReads(c: Rgba)
    ensures Over(Raised(Hue6(c), Highest(c) - Lowest(c)), Lowest(c), c)
  {
    if Highest(c) == Lowest(c) {
      GreyReads(c);
    } else if Highest(c) == c.r {
      RedReads(c);
    } else if Highest(c) == c.g {
      GreenReads(c);
    } else {
      BlueReads(c);
    }
    hide Raised, Hue6, Over;
  }

  // ---------------------------------------------------------------- saturation

  lemma SpanIs(l: real)
    ensures Span(l) == 2.0 * Min2(l, 1.0 - l)
  {
  }

  lemma SaturationReads(low: real, high: real)
    requires 0.0 <= low <= high <= 1.0
    ensures Span(0.5 * (high + low)) * Saturation(low, high) == high - low
  {
    var span := Span(0.5 * (high + low));
    if high != 0.0 && low != 1.0 {
      assert span > 0.0;
      TimesShare(high - low, span);
    }
  }

  lemma Range(c: Rgba)
    requires UnitRgb(c)
    ensures 0.0 <= Lowest(c) <= Highest(c) <= 1.0
  {
  }

  lemma LiftedReads(t: Hsla, h6: real, w: real, low: real, c: Rgba)
    requires t.h * 6.0 == h6 && Chroma(t) == w && t.l - w / 2.0 == low && t.a == c.a
    requires Over(Raised(h6, w), low, c)
    ensures HslToRgb(t) == c
  {
    hide Raised, Chroma;
  }

  /** RGB to HSL to RGB is the identity. */
  lemma HslRoundTrip(c: Rgba)
    requires UnitRgb(c)
    ensures HslToRgb(RgbToHsl(c)) == c
  {
    hide HslToRgb, Lowest, Highest, Hue6, Saturation, Raised, Span, Over;
    var low, high, t := Lowest(c), Highest(c), RgbToHsl(c);
    Range(c);
    SaturationReads(low, high);
    HueReads(c);
    assert t.l == 0.5 * (high + low);
    assert Chroma(t) == high - low;
    LiftedReads(t, Hue6(c), high - low, low, c);
  }

  // ---------------------------------------------------------------- HSL and HSV

  // The lightness always comes back.
  lemma LightnessBack(t: Hsla)
    requires Unit(t.s) && Unit(t.l)
    ensures HsvToHsl(HslToHsv(t)).l == t.l
  {
    var v := HslToHsv(t).v;
    Within(t.s, Min2(t.l, 1.0 - t.l));
    if v != 0.0 {
      HalfBack(t.l, v);
    }
    hide Min2;
  }

  /** HSL to HSV to HSL is the identity exactly where black and white have no saturation. */
  lemma HsvTripIff(t: Hsla)
    requires Unit(t.s) && Unit(t.l)
    ensures HsvToHsl(HslToHsv(t)) == t <==> ((t.l == 0.0 || t.l == 1.0) ==> t.s == 0.0)
  {
    LightnessBack(t);
    var v, m := HslToHsv(t).v, Min2(t.l, 1.0 - t.l);
    SaturationBack(HslToHsv(t), t.l, v);
    if m != 0.0 {
      ShareBack(t.s, m, v - t.l);
    }
    hide HslToHsv, HsvToHsl;
  }

  lemma SaturationBack(u: Hsva, l: real, v: real)
    requires HsvToHsl(u).l == l && u.v == v
    ensures HsvToHsl(u).s == (if l == 0.0 || l == 1.0 then 0.0 else (v - l) / Min2(l, 1.0 - l))
    ensures HsvToHsl(u).h == u.h && HsvToHsl(u).a == u.a
  {
  }

  lemma Within(s: real, m: real)
    requires Unit(s) && m >= 0.0
    ensures 0.0 <= s * m <= m
  {
    var rest := 1.0 - s;
    assert rest * m >= 0.0;
  }

  lemma HalfBack(l: real, v: real)
    requires v != 0.0
    ensures v * (1.0 - (2.0 - 2.0 * l / v) * 0.5) == l
  {
    var q := 2.0 * l / v;
    assert q * v == 2.0 * l;
    assert 1.0 - (2.0 - q) * 0.5 == q * 0.5;
    assert v * (q * 0.5) == 0.5 * (q * v);
  }

  lemma ShareBack(s: real, m: real, d: real)
    requires m > 0.0 && d == s * m
    ensures d / m == s
  {
  }

  lemma HslPlain(c: Rgba)
    requires UnitRgb(c)
    ensures var t := RgbToHsl(c); Unit(t.s) && Unit(t.l) && ((t.l == 0.0 || t.l == 1.0) ==> t.s == 0.0)
  {
    hide Lowest, Highest, Hue6, Span;
    Range(c);
    var low, high := Lowest(c), Highest(c);
    if high != 0.0 && low != 1.0 {
      SpanCovers(low, high);
      Share(high - low, Span(0.5 * (high + low)));
    }
  }

  lemma SpanCovers(low: real, high: real)
    requires 0.0 <= low <= high <= 1.0 && high != 0.0 && low != 1.0
    ensures Span(0.5 * (high + low)) > 0.0 && Span(0.5 * (high + low)) >= high - low
  {
  }

  /** RGB to HSV to RGB is the identity. */
  lemma HsvRoundTrip(c: Rgba)
    requires UnitRgb(c)
    ensures HsvToRgb(RgbToHsv(c)) == c
  {
    hide HslToRgb, RgbToHsl, HsvToHsl, HslToHsv;
    HslRoundTrip(c);
    HslPlain(c);
    HsvTripIff(RgbToHsl(c));
  }

  // ---------------------------------------------------------------- staying in range

  lemma FractionOf(x: real) returns (n: nat, f: real)
    requires x >= 0.0
    ensures 0.0 <= f < 1.0 && x == n as real + f
  {
    n, f := x.Floor, x - x.Floor as real;
  }

  lemma RaisedRange(h6: real, c: real)
    requires h6 >= 0.0 && c >= 0.0
    ensures var p := Raised(h6, c); 0.0 <= p.r <= c && 0.0 <= p.g <= c && 0.0 <= p.b <= c
  {
    hide Raised, Sector;
    var n, f := FractionOf(h6);
    var g := 1.0 - f;
    RaisedIn(n, f, c);
    Within(f, c);
    Within(g, c);
    var x := if n % 2 == 0 then c * f else c * g;
    Commutes(f, c);
    Commutes(g, c);
    SectorRange(n, c, x);
    SectorSame(n, c, x, if n % 2 == 0 then c * f else c * (1.0 - f));
  }

  lemma Commutes(x: real, y: real)
    ensures x * y == y * x
  {
  }

  lemma SectorRange(n: int, c: real, x: real)
    requires 0.0 <= x <= c
    ensures var p := Sector(n, c, x); 0.0 <= p.r <= c && 0.0 <= p.g <= c && 0.0 <= p.b <= c
  {
  }

  lemma LiftedRange(p: Rgba, c: real, l: real, a: real)
    requires 0.0 <= p.r <= c && 0.0 <= p.g <= c && 0.0 <= p.b <= c && 0.0 <= c <= 2.0 * Min2(l, 1.0 - l)
    ensures UnitRgb(Lifted(p, l - c / 2.0, a))
  {
  }

  lemma ChromaRange(t: Hsla)
    requires Unit(t.s) && Unit(t.l)
    ensures 0.0 <= Chroma(t) <= 2.0 * Min2(t.l, 1.0 - t.l)
  {
    SpanIs(t.l);
    Within(t.s, Span(t.l));
    hide Span, Min2;
    assert Chroma(t) == t.s * Span(t.l);
  }

  /** HSL to RGB stays in [0, 1]. */
  lemma HslInRange(t: Hsla)
    requires Unit(t.h) && Unit(t.s) && Unit(t.l)
    ensures UnitRgb(HslToRgb(t))
  {
    ChromaRange(t);
    RaisedRange(t.h * 6.0, Chroma(t));
    LiftedRange(Raised(t.h * 6.0, Chroma(t)), Chroma(t), t.l, t.a);
    hide Raised, Chroma, Min2, Lifted, UnitRgb;
  }

  lemma HsvToHslInRange(t: Hsva)
    requires Unit(t.s) && Unit(t.v)
    ensures Unit(HsvToHsl(t).s) && Unit(HsvToHsl(t).l)
  {
    var l := HsvToHsl(t).l;
    LightnessRange(t.s, t.v, l);
    if l != 0.0 && l != 1.0 {
      Share(t.v - l, Min2(l, 1.0 - l));
    }
  }

  lemma LightnessRange(s: real, v: real, l: real)
    requires Unit(s) && Unit(v) && l == v * (1.0 - s * 0.5)
    ensures 0.0 <= l <= v && v - l <= l
  {
    Within(s, v);
    assert l == v - 0.5 * (s * v);
  }

  /** HSV to RGB stays in [0, 1]. */
  lemma HsvInRange(t: Hsva)
    requires Unit(t.h) && Unit(t.s) && Unit(t.v)
    ensures UnitRgb(HsvToRgb(t))
  {
    HsvToHslInRange(t);
    HslInRange(HsvToHsl(t));
    hide HslToRgb;
  }
}
