/** Conversions between RGB, HSL and HSV, over the reals. */
module ColorSpace {
  import opened Reals

  datatype Rgba = Rgba(r: real, g: real, b: real, a: real)
  datatype Hsla = Hsla(h: real, s: real, l: real, a: real)
  datatype Hsva = Hsva(h: real, s: real, v: real, a: real)

  function Min(x: real, y: real): real { if y < x then y else x }

  function Max(x: real, y: real): real { if x < y then y else x }

  function Min3(x: real, y: real, z: real): real { Min(Min(x, y), z) }

  function Max3(x: real, y: real, z: real): real { Max(Max(x, y), z) }

  /** fmod(x, 2). */
  function Fmod2(x: real): real {
    x - 2.0 * Truncate(x / 2.0) as real
  }

  /** Six times the hue. */
  function Hue6(r: real, g: real, b: real): real {
    var min, max := Min3(r, g, b), Max3(r, g, b);
    if max == min then 0.0
    else
      var c := max - min;
      if max == r then (g - b) / c + (if g < b then 6.0 else 0.0)
      else if max == g then (b - r) / c + 2.0
      else (r - g) / c + 4.0
  }

  function RgbToHue(r: real, g: real, b: real): real {
    Hue6(r, g, b) / 6.0
  }

  /** The largest chroma a lightness allows. */
  function Depth(l: real): real {
    1.0 - Abs(2.0 * l - 1.0)
  }

  /** The last conjunct only keeps colours out of range from dividing by zero. */
  function Saturation(min: real, max: real): real {
    var d := Depth(0.5 * (max + min));
    if max != 0.0 && min != 1.0 && d != 0.0 then (max - min) / d else 0.0
  }

  function RgbToHsl(rgb: Rgba): Hsla {
    var min, max := Min3(rgb.r, rgb.g, rgb.b), Max3(rgb.r, rgb.g, rgb.b);
    Hsla(RgbToHue(rgb.r, rgb.g, rgb.b), Saturation(min, max), 0.5 * (max + min), rgb.a)
  }

  /** The channels above the lowest, for chroma `c`, second channel `x` and hue sector `k`. */
  function Sector(k: int, c: real, x: real): (real, real, real) {
    match k
    case 0 => (c, x, 0.0)
    case 1 => (x, c, 0.0)
    case 2 => (0.0, c, x)
    case 3 => (0.0, x, c)
    case 4 => (x, 0.0, c)
    case 5 => (c, 0.0, x)
    case 6 => (c, 0.0, x)
    case _ => (0.0, 0.0, 0.0)
  }

  /** How far the second channel has come, as a fraction of the chroma. */
  function Ramp(h1: real): real {
    1.0 - Abs(Fmod2(h1) - 1.0)
  }

  function Channels(h1: real, c: real): (real, real, real) {
    Sector(Truncate(h1), c, c * Ramp(h1))
  }

  function Chroma(l: real, s: real): real {
    Depth(l) * s
  }

  function HslToRgb(hsl: Hsla): Rgba {
    var c := Chroma(hsl.l, hsl.s);
    var (r, g, b) := Channels(hsl.h * 6.0, c);
    var m := hsl.l - c / 2.0;
    Rgba(r + m, g + m, b + m, hsl.a)
  }

  /** Half the largest chroma a lightness allows. */
  function Half(l: real): (e: real)
    ensures e == 0.0 <==> l == 0.0 || l == 1.0
  {
    Min(l, 1.0 - l)
  }

  function HsvToHsl(hsv: Hsva): Hsla {
    var l := hsv.v * (1.0 - hsv.s * 0.5);
    Hsla(hsv.h, if l == 0.0 || l == 1.0 then 0.0 else (hsv.v - l) / Half(l), l, hsv.a)
  }

  function HslToHsv(hsl: Hsla): Hsva {
    var v := hsl.l + hsl.s * Half(hsl.l);
    Hsva(hsl.h, if v == 0.0 then 0.0 else 2.0 - (2.0 * hsl.l / v), v, hsl.a)
  }

  function HsvToRgb(hsv: Hsva): Rgba { HslToRgb(HsvToHsl(hsv)) }

  function RgbToHsv(rgb: Rgba): Hsva { HslToHsv(RgbToHsl(rgb)) }

  predicate Unit(x: real) { 0.0 <= x <= 1.0 }

  predicate RgbInRange(c: Rgba) { Unit(c.r) && Unit(c.g) && Unit(c.b) }

  // ----- RGB to HSL and back

  lemma SameProduct(c: real, t: real, u: real)
    requires t == u
    ensures c * t == c * u
  {
  }

  lemma NegatedProduct(c: real, q: real, d: real)
    requires c * q == d
    ensures c * -q == -d
  {
  }

  /**
    * In a sector that starts at an even number the second channel rises, in the others it falls; `t` is how far it is
    * up.
    */
  lemma ChannelsInSector(h1: real, c: real, k: int, t: real, x: real)
    requires 0 <= k <= 6 && x == c * t
    requires var f := if k % 2 == 0 then t else 1.0 - t; 0.0 <= f < 1.0 && h1 == k as real + f
    ensures Channels(h1, c) == Sector(k, c, x)
  {
    RampInSector(h1, k, if k % 2 == 0 then t else 1.0 - t);
    hide Ramp;
    assert Ramp(h1) == t;
    SameProduct(c, Ramp(h1), t);
    assert c * Ramp(h1) == x;
    assert Truncate(h1) == k;
    assert Channels(h1, c) == Sector(k, c, c * Ramp(h1));
  }

  lemma RampInSector(h1: real, k: int, f: real)
    requires 0 <= k <= 6 && h1 == k as real + f && 0.0 <= f < 1.0
    ensures Ramp(h1) == if k % 2 == 0 then f else 1.0 - f
  {
    var half := k / 2;
    assert 2 * half == k - k % 2;
    assert half as real <= h1 / 2.0 < half as real + 1.0;
    assert Truncate(h1 / 2.0) == half;
  }

  /** Quotient of a difference by the chroma. */
  lemma Quotient(d: real, c: real) returns (q: real)
    requires c > 0.0 && -c <= d <= c
    ensures q == d / c && c * q == d && -1.0 <= q <= 1.0
    ensures (q == 1.0 <==> d == c) && (q == -1.0 <==> d == -c) && (q == 0.0 <==> d == 0.0) && (q > 0.0 <==> d > 0.0)
  {
    q := d / c;
    var p := c * q;
    assert p == d;
    if q > 1.0 {
      Product(c, q - 1.0, p - c);
    }
    if q < -1.0 {
      Product(c, -1.0 - q, -c - p);
    }
    if q > 0.0 {
      Product(c, q, p);
    } else if q < 0.0 {
      Product(c, -q, -p);
    }
    if q < 1.0 {
      Product(c, 1.0 - q, c - p);
    }
    if -1.0 < q {
      Product(c, q + 1.0, p + c);
    }
  }

  lemma Product(a: real, b: real, ab: real)
    requires a > 0.0 && b > 0.0 && ab == a * b
    ensures ab > 0.0
  {
  }

  /** The channels above the lowest come back from hue and chroma, whatever ties there are between them. */
  lemma ChannelsRestored(r: real, g: real, b: real)
    ensures var min, max := Min3(r, g, b), Max3(r, g, b);
            Channels(Hue6(r, g, b), max - min) == (r - min, g - min, b - min)
  {
    var min, max := Min3(r, g, b), Max3(r, g, b);
    var c := max - min;
    if c == 0.0 {
      ChannelsInSector(0.0, c, 0, 0.0, 0.0);
    } else if max == r {
      RedHighest(r, g, b, c);
    } else if max == g {
      GreenHighest(r, g, b, c);
    } else {
      BlueHighest(r, g, b, c);
    }
  }

  lemma RedHighest(r: real, g: real, b: real, c: real)
    requires r == Max3(r, g, b) && c == r - Min3(r, g, b) && c > 0.0
    ensures Channels(Hue6(r, g, b), c) == (c, g - (r - c), b - (r - c))
  {
    var q := Quotient(g - b, c);
    NegatedProduct(c, q, g - b);
    hide Channels;
    if g >= b {
      if q < 1.0 {
        ChannelsInSector(q, c, 0, q, g - b);
      } else {
        ChannelsInSector(q, c, 1, 1.0, c);
      }
    } else {
      ChannelsInSector(q + 6.0, c, 5, -q, b - g);
    }
  }

  lemma GreenHighest(r: real, g: real, b: real, c: real)
    requires g == Max3(r, g, b) && r != g && c == g - Min3(r, g, b) && c > 0.0
    ensures Channels(Hue6(r, g, b), c) == (r - (g - c), c, b - (g - c))
  {
    var q := Quotient(b - r, c);
    NegatedProduct(c, q, b - r);
    hide Channels;
    if q < 0.0 {
      ChannelsInSector(q + 2.0, c, 1, -q, r - b);
    } else if q < 1.0 {
      ChannelsInSector(q + 2.0, c, 2, q, b - r);
    } else {
      ChannelsInSector(q + 2.0, c, 3, 1.0, c);
    }
  }

  lemma BlueHighest(r: real, g: real, b: real, c: real)
    requires b == Max3(r, g, b) && r != b && g != b && c == b - Min3(r, g, b) && c > 0.0
    ensures Channels(Hue6(r, g, b), c) == (r - (b - c), g - (b - c), c)
  {
    var q := Quotient(r - g, c);
    NegatedProduct(c, q, r - g);
    hide Channels;
    if q < 0.0 {
      ChannelsInSector(q + 4.0, c, 3, -q, g - r);
    } else {
      ChannelsInSector(q + 4.0, c, 4, q, r - g);
    }
  }

  lemma DepthOfRange(min: real, max: real)
    requires 0.0 <= min <= max <= 1.0
    ensures var d := Depth(0.5 * (max + min)); max - min <= d && (d == 0.0 <==> max == 0.0 || min == 1.0)
  {
  }

  lemma QuotientBack(c: real, d: real, s: real)
    requires d != 0.0 && s == c / d
    ensures d * s == c
  {
  }

  /** The saturation of a colour gives back its chroma. */
  lemma ChromaRestored(min: real, max: real, l: real, s: real)
    requires 0.0 <= min <= max <= 1.0 && l == 0.5 * (max + min) && s == Saturation(min, max)
    ensures Chroma(l, s) == max - min
  {
    var d := Depth(l);
    DepthOfRange(min, max);
    hide Depth;
    if d != 0.0 {
      QuotientBack(max - min, d, s);
    }
  }

  lemma Extremes(r: real, g: real, b: real)
    requires Unit(r) && Unit(g) && Unit(b)
    ensures 0.0 <= Min3(r, g, b) <= Max3(r, g, b) <= 1.0
  {
  }

  lemma SameChannels(h1: real, c: real, h2: real, c2: real)
    requires h1 == h2 && c == c2
    ensures Channels(h1, c) == Channels(h2, c2)
  {
  }

  lemma FromChannels(hsl: Hsla, h1: real, c: real, p: (real, real, real))
    requires h1 == hsl.h * 6.0 && c == Chroma(hsl.l, hsl.s) && p == Channels(h1, c)
    ensures var m := hsl.l - c / 2.0; HslToRgb(hsl) == Rgba(p.0 + m, p.1 + m, p.2 + m, hsl.a)
  {
    hide Channels, Chroma;
    SameChannels(h1, c, hsl.h * 6.0, Chroma(hsl.l, hsl.s));
  }

  /** RGB to HSL and back changes nothing. */
  lemma RgbHslRgb(rgb: Rgba)
    requires RgbInRange(rgb)
    ensures HslToRgb(RgbToHsl(rgb)) == rgb
  {
    hide Channels, Hue6, Min3, Max3, HslToRgb, Chroma, Saturation;
    var min, max, hsl := Min3(rgb.r, rgb.g, rgb.b), Max3(rgb.r, rgb.g, rgb.b), RgbToHsl(rgb);
    Extremes(rgb.r, rgb.g, rgb.b);
    ChromaRestored(min, max, hsl.l, hsl.s);
    ChannelsRestored(rgb.r, rgb.g, rgb.b);
    FromChannels(hsl, Hue6(rgb.r, rgb.g, rgb.b), max - min, (rgb.r - min, rgb.g - min, rgb.b - min));
  }

  // ----- what the two conversions mean

  /**
    * How far a channel is below the middle, as a fraction of half the chroma; `n` is 0 for red, 8 for green, 4 for
    * blue.
    */
  function Below(h: real, n: real): real {
    var turns := n + 12.0 * h;
    var k := if turns < 12.0 then turns else turns - 12.0;
    Max(-1.0, Min3(k - 3.0, 9.0 - k, 1.0))
  }

  /** One channel of a colour by the formula of CSS Color Module Level 4. */
  function CssChannel(hsl: Hsla, n: real): real {
    hsl.l - hsl.s * Min(hsl.l, 1.0 - hsl.l) * Below(hsl.h, n)
  }

  /** The conversion by sectors gives the channels of that formula. */
  lemma HslToRgbIsCss(hsl: Hsla)
    requires HslInRange(hsl)
    ensures HslToRgb(hsl) == Rgba(CssChannel(hsl, 0.0), CssChannel(hsl, 8.0), CssChannel(hsl, 4.0), hsl.a)
  {
    var h1, c, a := hsl.h * 6.0, Chroma(hsl.l, hsl.s), hsl.s * Min(hsl.l, 1.0 - hsl.l);
    HalfOfChroma(hsl.l, hsl.s, c, a);
    var k := Truncate(h1);
    var f := h1 - k as real;
    var t := if k % 2 == 0 then f else 1.0 - f;
    var x := c * t;
    ChannelsInSector(h1, c, k, t, x);
    FromChannels(hsl, h1, c, Sector(k, c, x));
    BelowInSector(hsl.h, k, f);
    hide Channels, HslToRgb, Chroma, Below, CssChannel;
    var (r, g, b) := Sector(k, c, x);
    ChannelOfSector(hsl, a, c, t, x, 0.0, r);
    ChannelOfSector(hsl, a, c, t, x, 8.0, g);
    ChannelOfSector(hsl, a, c, t, x, 4.0, b);
  }

  lemma HalfOfChroma(l: real, s: real, c: real, a: real)
    requires c == Chroma(l, s) && a == s * Min(l, 1.0 - l)
    ensures c == 2.0 * a
  {
    assert Depth(l) == 2.0 * Min(l, 1.0 - l);
  }

  /** In each sector one channel is at the top, one at the bottom, and one on its way. */
  lemma BelowInSector(h: real, k: int, f: real)
    requires 0 <= k <= 6 && h * 6.0 == k as real + f && 0.0 <= f < 1.0 && h <= 1.0
    ensures var t := if k % 2 == 0 then f else 1.0 - f;
            var w := 1.0 - 2.0 * t;
            (Below(h, 0.0), Below(h, 8.0), Below(h, 4.0)) ==
              match k
              case 0 => (-1.0, w, 1.0)
              case 1 => (w, -1.0, 1.0)
              case 2 => (1.0, -1.0, w)
              case 3 => (1.0, w, -1.0)
              case 4 => (w, 1.0, -1.0)
              case _ => (-1.0, 1.0, w)
  {
  }

  lemma ChannelOfSector(hsl: Hsla, a: real, c: real, t: real, x: real, n: real, v: real)
    requires a == hsl.s * Min(hsl.l, 1.0 - hsl.l) && c == 2.0 * a && x == c * t
    requires var w := Below(hsl.h, n); (w == -1.0 && v == c) || (w == 1.0 && v == 0.0) || (w == 1.0 - 2.0 * t && v == x)
    ensures CssChannel(hsl, n) == v + (hsl.l - c / 2.0)
  {
    var w := Below(hsl.h, n);
    hide Below;
    if w == 1.0 - 2.0 * t {
      assert a * w == a - 2.0 * (a * t);
      assert 2.0 * (a * t) == c * t;
    }
  }

  /** The value is the highest channel, and saturation times value the distance to the lowest. */
  lemma HsvMeans(rgb: Rgba)
    requires RgbInRange(rgb)
    ensures var hsv, max, min := RgbToHsv(rgb), Max3(rgb.r, rgb.g, rgb.b), Min3(rgb.r, rgb.g, rgb.b);
            && hsv.v == max && hsv.s * max == max - min
            && hsv.h == RgbToHsl(rgb).h && hsv.a == rgb.a && (max == 0.0 ==> hsv.s == 0.0)
  {
    hide Min3, Max3, Hue6, Saturation;
    var min, max, hsl := Min3(rgb.r, rgb.g, rgb.b), Max3(rgb.r, rgb.g, rgb.b), RgbToHsl(rgb);
    Extremes(rgb.r, rgb.g, rgb.b);
    ChromaRestored(min, max, hsl.l, hsl.s);
    HalfOfChroma(hsl.l, hsl.s, max - min, hsl.s * Half(hsl.l));
    if max != 0.0 {
      assert (2.0 * hsl.l / max) * max == 2.0 * hsl.l;
    }
  }

  // ----- HSL to RGB and back

  predicate HslInRange(c: Hsla) { Unit(c.h) && Unit(c.s) && Unit(c.l) }

  /** Hue and chroma survive the way through the channels. */
  lemma HueRestored(h1: real, c: real, m: real)
    requires 0.0 <= h1 < 6.0 && 0.0 < c
    ensures var (r, g, b) := Channels(h1, c);
            Min3(r + m, g + m, b + m) == m && Max3(r + m, g + m, b + m) == c + m && Hue6(r + m, g + m, b + m) == h1
  {
    var k := Truncate(h1);
    var f := h1 - k as real;
    var t := if k % 2 == 0 then f else 1.0 - f;
    var x := c * t;
    ChannelsInSector(h1, c, k, t, x);
    RampRange(c, t, x);
    hide Channels;
    HueOfSector(k, c, t, x, m);
  }

  lemma RampRange(c: real, t: real, x: real)
    requires 0.0 < c && 0.0 <= t <= 1.0 && x == c * t
    ensures 0.0 <= x <= c && x / c == t && (x == 0.0 <==> t == 0.0) && (x == c <==> t == 1.0)
  {
    if t > 0.0 {
      Product(c, t, x);
    }
    if t < 1.0 {
      Product(c, 1.0 - t, c - x);
    }
  }

  lemma HueOfRed(r: real, g: real, b: real, c: real, q: real)
    requires r == Max3(r, g, b) && c == r - Min3(r, g, b) && c > 0.0 && q == (g - b) / c
    ensures Hue6(r, g, b) == q + (if g < b then 6.0 else 0.0)
  {
    hide Max3, Min3;
  }

  lemma HueOfGreen(r: real, g: real, b: real, c: real, q: real)
    requires g == Max3(r, g, b) && r != g && c == g - Min3(r, g, b) && c > 0.0 && q == (b - r) / c
    ensures Hue6(r, g, b) == q + 2.0
  {
    hide Max3, Min3;
  }

  lemma HueOfBlue(r: real, g: real, b: real, c: real, q: real)
    requires b == Max3(r, g, b) && r != b && g != b && c == b - Min3(r, g, b) && c > 0.0 && q == (r - g) / c
    ensures Hue6(r, g, b) == q + 4.0
  {
    hide Max3, Min3;
  }

  lemma NegatedQuotient(x: real, c: real, t: real)
    requires c > 0.0 && x / c == t
    ensures (0.0 - x) / c == -t && (0.0 - c) / c == -1.0 && c / c == 1.0 && 0.0 / c == 0.0
  {
  }

  lemma HueOfSector(k: int, c: real, t: real, x: real, m: real)
    requires 0 <= k < 6 && 0.0 < c && 0.0 <= x <= c && x / c == t && 0.0 <= t <= 1.0
    requires (x == 0.0 <==> t == 0.0) && (x == c <==> t == 1.0)
    requires if k % 2 == 0 then t < 1.0 else 0.0 < t
    ensures var (r, g, b) := Sector(k, c, x);
            && Min3(r + m, g + m, b + m) == m && Max3(r + m, g + m, b + m) == c + m
            && Hue6(r + m, g + m, b + m) == k as real + (if k % 2 == 0 then t else 1.0 - t)
  {
    NegatedQuotient(x, c, t);
    var (r', g', b') := Sector(k, c, x);
    var r, g, b := r' + m, g' + m, b' + m;
    assert Min3(r, g, b) == m && Max3(r, g, b) == c + m;
    hide Hue6, Min3, Max3;
    match k
    case 0 => HueOfRed(r, g, b, c, t);
    case 1 =>
      if t == 1.0 {
        HueOfRed(r, g, b, c, 1.0);
      } else {
        HueOfGreen(r, g, b, c, -t);
      }
    case 2 => HueOfGreen(r, g, b, c, t);
    case 3 =>
      if t == 1.0 {
        HueOfGreen(r, g, b, c, 1.0);
      } else {
        HueOfBlue(r, g, b, c, -t);
      }
    case 4 => HueOfBlue(r, g, b, c, t);
    case _ =>
      if t == 1.0 {
        HueOfRed(r, g, b, c, -1.0);
      } else {
        HueOfRed(r, g, b, c, -t);
      }
  }

  /**
    * HSL to RGB and back changes nothing exactly for proper colours with a hue below one, and for greys written with
    * hue and saturation 0.
    */
  lemma HslRgbHslIff(hsl: Hsla)
    requires HslInRange(hsl)
    ensures RgbToHsl(HslToRgb(hsl)) == hsl
      <==> (0.0 < hsl.l < 1.0 && 0.0 < hsl.s && hsl.h < 1.0) || (hsl.s == 0.0 && hsl.h == 0.0)
  {
    var d := Depth(hsl.l);
    var c := d * hsl.s;
    if 0.0 < hsl.l < 1.0 && 0.0 < hsl.s {
      Product(d, hsl.s, c);
      if hsl.h < 1.0 {
        ColourRestored(hsl, c);
      } else {
        FullTurnIsLost(hsl, c);
      }
    } else {
      assert c == 0.0;
      GreyHasNoHue(hsl);
    }
  }

  lemma ColourRestored(hsl: Hsla, c: real)
    requires HslInRange(hsl) && 0.0 < hsl.l < 1.0 && 0.0 < hsl.s && hsl.h < 1.0 && c == Chroma(hsl.l, hsl.s) && 0.0 < c
    ensures RgbToHsl(HslToRgb(hsl)) == hsl
  {
    hide Channels, Hue6, Min3, Max3, HslToRgb, Saturation, Chroma;
    var m, h1 := hsl.l - c / 2.0, hsl.h * 6.0;
    HueRestored(h1, c, m);
    FromChannels(hsl, h1, c, Channels(h1, c));
    SaturationRestored(hsl.l, hsl.s, c);
  }

  lemma SaturationRestored(l: real, s: real, c: real)
    requires 0.0 < l < 1.0 && 0.0 < s <= 1.0 && c == Chroma(l, s) && 0.0 < c
    ensures Saturation(l - c / 2.0, c + (l - c / 2.0)) == s
  {
    var d, min, max := Depth(l), l - c / 2.0, c + (l - c / 2.0);
    assert 0.5 * (max + min) == l;
    ProductBelow(d, s, c);
    assert c / d == s;
  }

  lemma ProductBelow(d: real, s: real, c: real)
    requires 0.0 < d && s <= 1.0 && c == d * s
    ensures c <= d
  {
    if s < 1.0 {
      Product(d, 1.0 - s, d - c);
    }
  }

  lemma FullTurnIsLost(hsl: Hsla, c: real)
    requires HslInRange(hsl) && hsl.h == 1.0 && c == Chroma(hsl.l, hsl.s) && 0.0 < c
    ensures RgbToHsl(HslToRgb(hsl)).h == 0.0
  {
    var m := hsl.l - c / 2.0;
    ChannelsInSector(6.0, c, 6, 0.0, 0.0);
    FromChannels(hsl, 6.0, c, (c, 0.0, 0.0));
    HueOfRed(c + m, 0.0 + m, 0.0 + m, c, 0.0) by {
      assert (0.0 - 0.0) / c == 0.0;
    }
    hide Channels, HslToRgb, Chroma, Saturation;
  }

  lemma GreyHasNoHue(hsl: Hsla)
    requires HslInRange(hsl) && Chroma(hsl.l, hsl.s) == 0.0
    ensures RgbToHsl(HslToRgb(hsl)) == Hsla(0.0, 0.0, hsl.l, hsl.a)
  {
    var h1 := hsl.h * 6.0;
    NoChroma(h1);
    FromChannels(hsl, h1, 0.0, (0.0, 0.0, 0.0));
    hide Channels, HslToRgb;
    GreyToHsl(HslToRgb(hsl), hsl.l);
  }

  lemma GreyToHsl(rgb: Rgba, l: real)
    requires rgb.r == l && rgb.g == l && rgb.b == l
    ensures RgbToHsl(rgb) == Hsla(0.0, 0.0, l, rgb.a)
  {
    assert Min3(l, l, l) == l && Max3(l, l, l) == l;
    assert Saturation(l, l) == 0.0;
  }

  lemma NoChroma(h1: real)
    ensures Channels(h1, 0.0) == (0.0, 0.0, 0.0)
  {
    SameProduct(Ramp(h1), 0.0, 0.0);
  }

  // ----- HSL to HSV and back

  /**
    * HSL to HSV and back changes nothing exactly when the lightness is proper and the value not 0, or the saturation
    * is 0 at either end.
    */
  lemma HslHsvHslIff(hsl: Hsla)
    ensures HsvToHsl(HslToHsv(hsl)) == hsl
      <==> if hsl.l == 0.0 || hsl.l == 1.0 then hsl.s == 0.0 else hsl.l + hsl.s * Half(hsl.l) != 0.0
  {
    hide Half;
    var hsv := HslToHsv(hsl);
    var back := HsvToHsl(hsv);
    if hsv.v != 0.0 {
      LightnessRestored(hsl.l, hsv.v, hsv.s);
      assert back.l == hsl.l;
      if hsl.l != 0.0 && hsl.l != 1.0 {
        DividedBack(hsl.s, Half(hsl.l), hsv.v - hsl.l);
      }
    } else {
      ZeroProduct(1.0 - hsv.s * 0.5);
      assert back.l == 0.0 && back.s == 0.0;
      if hsl.l == 1.0 {
        ZeroProduct(hsl.s);
      }
    }
  }

  lemma ZeroProduct(a: real)
    ensures 0.0 * a == 0.0
  {
  }

  lemma DividedBack(s: real, e: real, se: real)
    requires e != 0.0 && se == s * e
    ensures se / e == s
  {
  }

  lemma LightnessRestored(l: real, v: real, s: real)
    requires v != 0.0 && s == 2.0 - (2.0 * l / v)
    ensures v * (1.0 - s * 0.5) == l
  {
    var q := l / v;
    assert v * q == l;
    assert 2.0 * l / v == 2.0 * q;
    assert 1.0 - s * 0.5 == q;
  }

  /** In range the value is 0 only for black, so every proper lightness survives. */
  lemma HslHsvHsl(hsl: Hsla)
    requires HslInRange(hsl) && 0.0 < hsl.l < 1.0
    ensures HsvToHsl(HslToHsv(hsl)) == hsl
  {
    var e := Half(hsl.l);
    var se := hsl.s * e;
    if hsl.s > 0.0 {
      Product(hsl.s, e, se);
    }
    HslHsvHslIff(hsl);
    hide HsvToHsl;
  }

  /** RGB to HSV and back, through HSL both ways, changes nothing. */
  lemma RgbHsvRgb(rgb: Rgba)
    requires RgbInRange(rgb)
    ensures HsvToRgb(RgbToHsv(rgb)) == rgb
  {
    hide HslToRgb, RgbToHsl, HslToHsv, HsvToHsl, Half;
    RgbHslRgb(rgb);
    ValueOfRgb(rgb);
    HslHsvHslIff(RgbToHsl(rgb));
  }

  /** A colour that comes from RGB keeps its HSL triple: its saturation is 0 at both ends of the lightness. */
  lemma ValueOfRgb(rgb: Rgba)
    requires RgbInRange(rgb)
    ensures var hsl := RgbToHsl(rgb);
            if hsl.l == 0.0 || hsl.l == 1.0 then hsl.s == 0.0 else hsl.l + hsl.s * Half(hsl.l) != 0.0
  {
    hide RgbToHue, Min3, Max3, Chroma, Saturation;
    var min, max, hsl := Min3(rgb.r, rgb.g, rgb.b), Max3(rgb.r, rgb.g, rgb.b), RgbToHsl(rgb);
    Extremes(rgb.r, rgb.g, rgb.b);
    if 0.0 < hsl.l < 1.0 {
      ChromaRestored(min, max, hsl.l, hsl.s);
      HalfDepth(hsl.l, hsl.s, max - min);
    } else {
      EndsAreGrey(min, max);
    }
  }

  lemma EndsAreGrey(min: real, max: real)
    requires 0.0 <= min <= max <= 1.0
    ensures max + min == 0.0 || max + min == 2.0 ==> Saturation(min, max) == 0.0
  {
  }

  /** The value is the highest channel. */
  lemma HalfDepth(l: real, s: real, c: real)
    requires Chroma(l, s) == c
    ensures l + s * Half(l) == l + c / 2.0
  {
    var d, e := Depth(l), Half(l);
    assert d == 2.0 * e;
    DoubledProduct(s, e, d);
  }

  lemma DoubledProduct(s: real, e: real, d: real)
    requires d == 2.0 * e
    ensures d * s == 2.0 * (s * e)
  {
  }
}
