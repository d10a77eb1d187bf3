/** The colour arithmetic of the shaded raster: the five-band "short
    rainbow" ramp from a scalar to RGB, the RGB/HSV conversions of the
    hexcone model, and the injection of a hillshade value as brightness. */
module Color {
  import opened Common
  import opened CNum

  /** The `int rgb[3]` triple the colour routines exchange. */
  datatype IntRgb = IntRgb(r: int, g: int, b: int)

  /** The `double hsv[3]` triple: hue in degrees, saturation and value in percent. */
  datatype Hsv = Hsv(h: real, s: real, v: real)

  const White := IntRgb(255, 255, 255)

  predicate InByteRange(c: IntRgb)
  {
    0 <= c.r <= 255 && 0 <= c.g <= 255 && 0 <= c.b <= 255
  }

  /** The range check at the entry of `hsv_2_rgb`; note that a hue of
      exactly 360 passes it. */
  predicate HsvInRange(c: Hsv)
  {
    0.0 <= c.h <= 360.0 && 0.0 <= c.s <= 100.0 && 0.0 <= c.v <= 100.0
  }

  function MaxChannel(c: IntRgb): int
  {
    if c.r >= c.g && c.r >= c.b then c.r else if c.g >= c.b then c.g else c.b
  }

  function MinChannel(c: IntRgb): int
  {
    if c.r <= c.g && c.r <= c.b then c.r else if c.g <= c.b then c.g else c.b
  }

  function MaxR(a: real, b: real): real { if a < b then b else a }

  function MinR(a: real, b: real): real { if b < a then b else a }

  // ---------------------------------------------------------------------
  // altitude_2_rgb

  /** `altitude_2_rgb`: the output starts white; `val` is scaled to
      `a = 4 * val / 255`, whose integer part picks one of five bands and
      whose fractional part, times 255, ramps one channel.  A band index
      outside 0..4 (negative `val`, or `val >= 318.75`) matches no case and
      leaves the white in place. */
  function Ramp(val: real): (c: IntRgb)
    ensures InByteRange(c)
    ensures MaxChannel(c) == 255
    ensures (val < 0.0 || 318.75 <= val) <==> c == White
    ensures val == 0.0 ==> c == IntRgb(255, 0, 0)
    ensures 255.0 <= val < 318.75 ==> c == IntRgb(0, 0, 255)
  {
    var f := val / 255.0;
    var a := f / 0.25;
    var x := a.Floor;
    var y := (255.0 * (a - x as real)).Floor;
    if x == 0 then IntRgb(255, y, 0)
    else if x == 1 then IntRgb(255 - y, 255, 0)
    else if x == 2 then IntRgb(0, 255, y)
    else if x == 3 then IntRgb(0, 255 - y, 255)
    else if x == 4 then IntRgb(0, 0, 255)
    else White
  }

  /** The colour map written band by band in terms of `val` itself, with
      the band boundaries at multiples of 63.75: red with green rising,
      green with red falling, green with blue rising, blue with green
      falling, then pure blue. */
  function RampBand(val: real): IntRgb
  {
    if val < 0.0 then White
    else if val < 63.75 then IntRgb(255, (4.0 * val).Floor, 0)
    else if val < 127.5 then IntRgb(255 - (4.0 * val - 255.0).Floor, 255, 0)
    else if val < 191.25 then IntRgb(0, 255, (4.0 * val - 510.0).Floor)
    else if val < 255.0 then IntRgb(0, 255 - (4.0 * val - 765.0).Floor, 255)
    else if val < 318.75 then IntRgb(0, 0, 255)
    else White
  }

  lemma RampMatchesBands(val: real)
    ensures Ramp(val) == RampBand(val)
  {
    var a := val / 255.0 / 0.25;
    assert a == 4.0 * val / 255.0;
    var x := a.Floor;
    assert 255.0 * (a - x as real) == 4.0 * val - 255.0 * x as real;
  }

  // ---------------------------------------------------------------------
  // rgb_2_hsv

  /** `rgb_2_hsv`: channels are scaled to [0, 1]; the hue comes from the
      channel holding the maximum (0 when all three are equal), the
      saturation is the spread relative to the maximum (0 for black), the
      value is the maximum, both in percent. */
  function RgbToHsv(c: IntRgb): (hsv: Hsv)
    ensures hsv.v == MaxChannel(c) as real * 100.0 / 255.0
    ensures InByteRange(c) ==> 0.0 <= hsv.h < 360.0 && 0.0 <= hsv.s <= 100.0 && 0.0 <= hsv.v <= 100.0
    ensures InByteRange(c) ==> (hsv.s == 0.0 <==> c.r == c.g == c.b)
    ensures c.r == c.g == c.b ==> hsv.h == 0.0 && hsv.s == 0.0
  {
    var r := c.r as real / 255.0;
    var g := c.g as real / 255.0;
    var b := c.b as real / 255.0;
    var cmax := MaxR(r, MaxR(g, b));
    var cmin := MinR(r, MinR(g, b));
    var s := if cmax == 0.0 then 0.0 else ((cmax - cmin) / cmax) * 100.0;
    SaturationBounds(cmax, cmin);
    Hsv(Hue(r, g, b), s, cmax * 100.0)
  }

  /** The hue in degrees of channels scaled to [0, 1]: 0 for a grey, else
      from the sector of the channel holding the maximum. */
  function Hue(r: real, g: real, b: real): (h: real)
    ensures 0.0 <= h < 360.0
    ensures MaxR(r, MaxR(g, b)) == MinR(r, MinR(g, b)) ==> h == 0.0
  {
    var cmax := MaxR(r, MaxR(g, b));
    var cmin := MinR(r, MinR(g, b));
    var diff := cmax - cmin;
    HueArgBounds(r, g, b);
    if cmax == cmin then 0.0
    else if cmax == r then Fmod(60.0 * ((g - b) / diff) + 360.0, 360.0)
    else if cmax == g then Fmod(60.0 * ((b - r) / diff) + 120.0, 360.0)
    else Fmod(60.0 * ((r - g) / diff) + 240.0, 360.0)
  }

  /** The ratio of a channel difference to the spread lies in [-1, 1], so
      every hue argument above is non-negative. */
  lemma HueArgBounds(r: real, g: real, b: real)
    ensures var cmax := MaxR(r, MaxR(g, b));
            var cmin := MinR(r, MinR(g, b));
            cmax != cmin ==>
              && -1.0 <= (g - b) / (cmax - cmin) <= 1.0
              && -1.0 <= (b - r) / (cmax - cmin) <= 1.0
              && -1.0 <= (r - g) / (cmax - cmin) <= 1.0
  {
    var cmax := MaxR(r, MaxR(g, b));
    var cmin := MinR(r, MinR(g, b));
    if cmax != cmin {
      RatioBounds(g - b, cmax - cmin);
      RatioBounds(b - r, cmax - cmin);
      RatioBounds(r - g, cmax - cmin);
    }
  }

  lemma RatioBounds(a: real, d: real)
    requires 0.0 < d && -d <= a <= d
    ensures -1.0 <= a / d <= 1.0
  {
  }

  lemma SaturationBounds(cmax: real, cmin: real)
    ensures 0.0 <= cmin <= cmax && cmax != 0.0 ==> 0.0 <= (cmax - cmin) / cmax * 100.0 <= 100.0
    ensures 0.0 <= cmin <= cmax && cmax != 0.0 ==> ((cmax - cmin) / cmax * 100.0 == 0.0 <==> cmax == cmin)
  {
    if 0.0 <= cmin <= cmax && cmax != 0.0 {
      DivUnit(cmax - cmin, cmax);
    }
  }

  // ---------------------------------------------------------------------
  // hsv_2_rgb

  /** The hexcone sector of a hue: chroma `c` goes to the channel the hue
      points at, the intermediate `x` to the next one, 0 to the third;
      the last branch takes every hue from 300 up, 360 included. */
  function Sector(h: real, c: real, x: real): (real, real, real)
  {
    if 0.0 <= h < 60.0 then (c, x, 0.0)
    else if 60.0 <= h < 120.0 then (x, c, 0.0)
    else if 120.0 <= h < 180.0 then (0.0, c, x)
    else if 180.0 <= h < 240.0 then (0.0, x, c)
    else if 240.0 <= h < 300.0 then (x, 0.0, c)
    else (c, 0.0, x)
  }

  /** The intermediate component `X = C * (1 - |fmod(H/60, 2) - 1|)`: a
      share of the chroma that rises and falls across each pair of sectors. */
  function Intermediate(h: real, chroma: real): (x: real)
    ensures 0.0 <= h && 0.0 <= chroma ==> 0.0 <= x <= chroma
  {
    var t := 1.0 - Abs(Fmod(h / 60.0, 2.0) - 1.0);
    if 0.0 <= h && 0.0 <= chroma then
      ProductBounds(t, chroma);
      chroma * t
    else chroma * t
  }

  /** The fractional colour `hsv_2_rgb` computes before scaling to 0..255,
      from the hue in degrees, the chroma `c` and the offset `m`: the
      sector triple of `c` and the intermediate `X`, lifted by `m`. */
  function Hexcone(h: real, c: real, m: real): (real, real, real)
  {
    var t := Sector(h, c, Intermediate(h, c));
    (t.0 + m, t.1 + m, t.2 + m)
  }

  /** The chroma `C = s*v` of an HSV triple, `s` and `v` as fractions. */
  function Chroma(hsv: Hsv): real
  {
    hsv.s / 100.0 * (hsv.v / 100.0)
  }

  /** The offset `m = v - C` added to every channel. */
  function Offset(hsv: Hsv): real
  {
    hsv.v / 100.0 - Chroma(hsv)
  }

  /** For an in-range triple the value splits into a non-negative chroma
      and a non-negative offset; no saturation means no chroma. */
  lemma ChromaSplit(hsv: Hsv)
    requires HsvInRange(hsv)
    ensures 0.0 <= Chroma(hsv) && 0.0 <= Offset(hsv)
    ensures Chroma(hsv) + Offset(hsv) == hsv.v / 100.0
    ensures hsv.s == 0.0 ==> Chroma(hsv) == 0.0
  {
    var s, v := hsv.s / 100.0, hsv.v / 100.0;
    ProductBounds(s, v);
    assert Chroma(hsv) == s * v <= v;
  }

  /** `hsv_2_rgb`: rejects (returns without touching its output) a hue
      outside [0, 360] or a saturation or value outside [0, 100];
      otherwise converts each fractional channel times 255 to `int`. */
  function HsvToRgb(hsv: Hsv): (r: Option<IntRgb>)
    ensures r.Some? <==> HsvInRange(hsv)
    ensures r.Some? ==> InByteRange(r.value)
    // the brightest channel carries the value V, the dimmest V*(1 - S)
    ensures r.Some? ==> MaxChannel(r.value) == Trunc(hsv.v / 100.0 * 255.0)
    ensures r.Some? ==> MinChannel(r.value) == Trunc((hsv.v / 100.0 - hsv.s / 100.0 * (hsv.v / 100.0)) * 255.0)
    ensures r.Some? && hsv.s == 0.0 ==> r.value.r == r.value.g == r.value.b
  {
    if hsv.h > 360.0 || hsv.h < 0.0 || hsv.s > 100.0 || hsv.s < 0.0 || hsv.v > 100.0 || hsv.v < 0.0 then
      None
    else
      ChromaSplit(hsv);
      RoundedHexcone(hsv.h, Chroma(hsv), Offset(hsv), hsv.v / 100.0, hsv.v / 100.0 - hsv.s / 100.0 * (hsv.v / 100.0));
      Some(Rounded(Hexcone(hsv.h, Chroma(hsv), Offset(hsv))))
  }

  /** The rounded hexcone colour of a chroma and offset that stay within
      [0, 1]: bytes whose largest channel is `(c + m) * 255` and smallest
      `m * 255`, converted to `int`. */
  lemma RoundedHexcone(h: real, c: real, m: real, top: real, low: real)
    requires 0.0 <= h && 0.0 <= c && 0.0 <= m && top == c + m && top <= 1.0 && low == m
    ensures InByteRange(Rounded(Hexcone(h, c, m)))
    ensures MaxChannel(Rounded(Hexcone(h, c, m))) == Trunc(top * 255.0)
    ensures MinChannel(Rounded(Hexcone(h, c, m))) == Trunc(low * 255.0)
    ensures c == 0.0 ==> var r := Rounded(Hexcone(h, c, m)); r.r == r.g == r.b
  {
    HexconeBounds(h, c, m);
    RoundedBounds(Hexcone(h, c, m), m, top);
  }

  /** For a hue from 0 and a non-negative chroma `c`, every fractional
      channel lies in `[m, c + m]` and both ends are reached; with no chroma
      all three channels are equal. */
  lemma HexconeBounds(h: real, c: real, m: real)
    requires 0.0 <= h && 0.0 <= c
    ensures var u := Hexcone(h, c, m);
            && m <= u.0 <= c + m && m <= u.1 <= c + m && m <= u.2 <= c + m
            && MaxR(u.0, MaxR(u.1, u.2)) == c + m
            && MinR(u.0, MinR(u.1, u.2)) == m
            && (c == 0.0 ==> u.0 == u.1 == u.2)
  {
    ShiftedSector(h, c, Intermediate(h, c), m);
  }

  /** A hexcone sector lifted by the offset `m`: every channel lies in
      `[m, c + m]`, and both ends are reached. */
  lemma ShiftedSector(h: real, c: real, x: real, m: real)
    requires 0.0 <= x <= c
    ensures var t := Sector(h, c, x);
            var u := (t.0 + m, t.1 + m, t.2 + m);
            && m <= u.0 <= c + m && m <= u.1 <= c + m && m <= u.2 <= c + m
            && MaxR(u.0, MaxR(u.1, u.2)) == c + m
            && MinR(u.0, MinR(u.1, u.2)) == m
            && (c == 0.0 ==> u.0 == u.1 == u.2)
  {
    var t := Sector(h, c, x);
    SectorBounds(h, c, x);
    ShiftExtremes(t.0, t.1, t.2, m);
  }

  /** The fractional channels times 255, each converted to `int`. */
  function Rounded(u: (real, real, real)): IntRgb
  {
    IntRgb(Trunc(u.0 * 255.0), Trunc(u.1 * 255.0), Trunc(u.2 * 255.0))
  }

  /** Channels in `[low, top]` within [0, 1], reaching both ends, round to
      bytes whose extremes are the rounded ends. */
  lemma RoundedBounds(u: (real, real, real), low: real, top: real)
    requires 0.0 <= low && top <= 1.0
    requires low <= u.0 <= top && low <= u.1 <= top && low <= u.2 <= top
    requires MaxR(u.0, MaxR(u.1, u.2)) == top && MinR(u.0, MinR(u.1, u.2)) == low
    ensures InByteRange(Rounded(u))
    ensures MaxChannel(Rounded(u)) == Trunc(top * 255.0)
    ensures MinChannel(Rounded(u)) == Trunc(low * 255.0)
  {
    RoundedRange(u);
    ScaleExtremes(u.0, u.1, u.2, top, low);
    TruncExtremes(u.0 * 255.0, u.1 * 255.0, u.2 * 255.0);
  }

  /** Fractions in [0, 1] round to channels in [0, 255]. */
  lemma RoundedRange(u: (real, real, real))
    requires 0.0 <= u.0 <= 1.0 && 0.0 <= u.1 <= 1.0 && 0.0 <= u.2 <= 1.0
    ensures InByteRange(Rounded(u))
  {
    TruncMonotone(u.0 * 255.0, 255.0);
    TruncMonotone(u.1 * 255.0, 255.0);
    TruncMonotone(u.2 * 255.0, 255.0);
    TruncOfInt(255);
  }

  /** Adding the same offset to three values moves their extremes by it. */
  lemma ShiftExtremes(a: real, b: real, c: real, m: real)
    ensures MaxR(a + m, MaxR(b + m, c + m)) == MaxR(a, MaxR(b, c)) + m
    ensures MinR(a + m, MinR(b + m, c + m)) == MinR(a, MinR(b, c)) + m
  {
  }

  lemma SectorBounds(h: real, c: real, x: real)
    requires 0.0 <= x <= c
    ensures var t := Sector(h, c, x);
            && 0.0 <= t.0 <= c && 0.0 <= t.1 <= c && 0.0 <= t.2 <= c
            && MaxR(t.0, MaxR(t.1, t.2)) == c
            && MinR(t.0, MinR(t.1, t.2)) == 0.0
  {
  }

  /** Truncating three non-negative channels keeps which one is largest
      and which smallest. */
  lemma TruncExtremes(a: real, b: real, c: real)
    requires 0.0 <= a && 0.0 <= b && 0.0 <= c
    ensures MaxChannel(IntRgb(Trunc(a), Trunc(b), Trunc(c))) == Trunc(MaxR(a, MaxR(b, c)))
    ensures MinChannel(IntRgb(Trunc(a), Trunc(b), Trunc(c))) == Trunc(MinR(a, MinR(b, c)))
  {
    if a <= b { TruncMonotone(a, b); } else { TruncMonotone(b, a); }
    if a <= c { TruncMonotone(a, c); } else { TruncMonotone(c, a); }
    if b <= c { TruncMonotone(b, c); } else { TruncMonotone(c, b); }
  }

  /** Scaling by 255 keeps which channel is largest and which smallest. */
  lemma ScaleExtremes(a: real, b: real, c: real, top: real, low: real)
    requires MaxR(a, MaxR(b, c)) == top && MinR(a, MinR(b, c)) == low
    ensures MaxR(a * 255.0, MaxR(b * 255.0, c * 255.0)) == top * 255.0
    ensures MinR(a * 255.0, MinR(b * 255.0, c * 255.0)) == low * 255.0
  {
  }

  /** A product of two fractions in [0, 1] is a fraction of the second. */
  lemma ProductBounds(a: real, b: real)
    requires 0.0 <= a <= 1.0 && 0.0 <= b
    ensures 0.0 <= a * b <= b
    ensures b * a == a * b
  {
    if b > 0.0 {
      MulLe(0.0, a, b);
      MulLe(a, 1.0, b);
    }
  }

  // ---------------------------------------------------------------------
  // set_V

  /** `set_V`: the hillshade `hs` becomes the value V = (hs/255 + 0.6)*100,
      capped at 100; hue and saturation are kept.  A non-negative hillshade
      therefore yields V in [60, 100], and V reaches the cap exactly when
      `hs >= 102`. */
  function SetV(hs: real, hsv: Hsv): (r: Hsv)
    ensures r.h == hsv.h && r.s == hsv.s
    ensures r.v <= 100.0
    ensures 0.0 <= hs ==> 60.0 <= r.v
    ensures r.v == 100.0 <==> 102.0 <= hs
  {
    var v := (hs / 255.0 + 0.6) * 100.0;
    Hsv(hsv.h, hsv.s, if v > 100.0 then 100.0 else v)
  }

  /** A brighter hillshade never gives a darker value. */
  lemma SetVMonotone(hs1: real, hs2: real, hsv: Hsv)
    requires hs1 <= hs2
    ensures SetV(hs1, hsv).v <= SetV(hs2, hsv).v
  {
  }

  // ---------------------------------------------------------------------
  // Fixed points of the conversions

  /** The intermediate component vanishes at hues 0 and 360. */
  lemma IntermediateAtEnds(c: real)
    ensures Intermediate(0.0, c) == 0.0 && Intermediate(360.0, c) == 0.0
  {
    FmodInPeriod(0.0, 2.0, 0);
    FmodInPeriod(6.0, 2.0, 3);
  }

  /** Hue 360 is accepted and lands in the last sector, which gives the
      same colour as hue 0. */
  lemma HueWraps(s: real, v: real)
    requires 0.0 <= s <= 100.0 && 0.0 <= v <= 100.0
    ensures HsvToRgb(Hsv(360.0, s, v)).Some?
    ensures HsvToRgb(Hsv(360.0, s, v)) == HsvToRgb(Hsv(0.0, s, v))
  {
    var lo, hi := Hsv(0.0, s, v), Hsv(360.0, s, v);
    assert Chroma(hi) == Chroma(lo) && Offset(hi) == Offset(lo);
    HexconeWraps(Chroma(lo), Offset(lo));
  }

  lemma HexconeWraps(c: real, m: real)
    ensures Hexcone(360.0, c, m) == Hexcone(0.0, c, m)
  {
    IntermediateAtEnds(c);
  }

  /** Full saturation and value at hue 0 is pure red. */
  lemma PureRed()
    ensures HsvToRgb(Hsv(0.0, 100.0, 100.0)) == Some(IntRgb(255, 0, 0))
  {
    var hsv := Hsv(0.0, 100.0, 100.0);
    assert Chroma(hsv) == 1.0 && Offset(hsv) == 0.0;
    IntermediateAtEnds(1.0);
    assert Hexcone(0.0, 1.0, 0.0) == (1.0, 0.0, 0.0);
    TruncOfInt(255);
    TruncOfInt(0);
    assert Rounded((1.0, 0.0, 0.0)) == IntRgb(255, 0, 0);
  }

  /** No value is black. */
  lemma Black()
    ensures HsvToRgb(Hsv(0.0, 0.0, 0.0)) == Some(IntRgb(0, 0, 0))
  {
    GreyRoundTrip(0);
  }

  /** A grey byte colour survives the trip to HSV and back. */
  lemma GreyRoundTrip(k: int)
    requires 0 <= k <= 255
    ensures RgbToHsv(IntRgb(k, k, k)) == Hsv(0.0, 0.0, k as real * 100.0 / 255.0)
    ensures HsvToRgb(RgbToHsv(IntRgb(k, k, k))) == Some(IntRgb(k, k, k))
  {
    var hsv := Hsv(0.0, 0.0, k as real * 100.0 / 255.0);
    IntermediateAtEnds(0.0);
    assert Offset(hsv) * 255.0 == k as real;
    TruncOfInt(k);
  }

  /** Every byte colour survives the trip to HSV and back: the hue, the
      saturation and the value `rgb_2_hsv` computes are exactly the ones
      `hsv_2_rgb` needs to rebuild the three channels. */
  lemma RgbHsvRoundTrip(c: IntRgb)
    requires InByteRange(c)
    ensures HsvToRgb(RgbToHsv(c)) == Some(c)
  {
    if c.r == c.g == c.b {
      GreyRoundTrip(c.r);
    } else {
      var r, g, b := c.r as real / 255.0, c.g as real / 255.0, c.b as real / 255.0;
      var cmax, cmin := MaxR(r, MaxR(g, b)), MinR(r, MinR(g, b));
      var hsv := RgbToHsv(c);
      assert hsv == Hsv(Hue(r, g, b), (cmax - cmin) / cmax * 100.0, cmax * 100.0);
      ChromaOfSpread(hsv, cmax, cmin);
      HexconeRecovers(r, g, b);
      Unscaled(c);
      Reconverts(hsv, (r, g, b), c);
    }
  }

  /** An in-range triple whose hexcone colour rounds to `c` converts to `c`. */
  lemma Reconverts(hsv: Hsv, u: (real, real, real), c: IntRgb)
    requires HsvInRange(hsv) && Hexcone(hsv.h, Chroma(hsv), Offset(hsv)) == u && Rounded(u) == c
    ensures HsvToRgb(hsv) == Some(c)
  {
  }

  /** The chroma and offset of the HSV triple of a colour with spread
      `cmax - cmin` are that spread and the smallest channel. */
  lemma ChromaOfSpread(hsv: Hsv, cmax: real, cmin: real)
    requires 0.0 < cmax && hsv.s == (cmax - cmin) / cmax * 100.0 && hsv.v == cmax * 100.0
    ensures Chroma(hsv) == cmax - cmin && Offset(hsv) == cmin
  {
    assert Chroma(hsv) == (cmax - cmin) / cmax * cmax;
  }

  /** Channels scaled down to fractions and back convert to themselves. */
  lemma Unscaled(c: IntRgb)
    ensures Rounded((c.r as real / 255.0, c.g as real / 255.0, c.b as real / 255.0)) == c
  {
    TruncOfInt(c.r);
    TruncOfInt(c.g);
    TruncOfInt(c.b);
  }

  /** The hexcone at the hue of three fractions, with their spread as the
      chroma and their minimum as the offset, gives the three fractions
      back. */
  lemma HexconeRecovers(r: real, g: real, b: real)
    requires 0.0 <= r && 0.0 <= g && 0.0 <= b && !(r == g == b)
    ensures Hexcone(Hue(r, g, b), MaxR(r, MaxR(g, b)) - MinR(r, MinR(g, b)), MinR(r, MinR(g, b))) == (r, g, b)
  {
    if g <= r && b <= r {
      if b <= g { RedPeakRising(r, g, b); } else { RedPeakFalling(r, g, b); }
    } else if r < g && b <= g {
      if b < r { GreenPeakFalling(r, g, b); } else { GreenPeakRising(r, g, b); }
    } else {
      if r < g { BluePeakFalling(r, g, b); } else { BluePeakRising(r, g, b); }
    }
  }

  /** What a channel difference `a` over a positive spread `d` tells about
      the hue argument `a / d`. */
  lemma Ratio(a: real, d: real)
    requires 0.0 < d && -d <= a <= d
    ensures d * (a / d) == a
    ensures 0.0 <= a ==> 0.0 <= a / d
    ensures a < 0.0 ==> a / d < 0.0
    ensures a / d <= 1.0 && -1.0 <= a / d
    ensures a < d ==> a / d < 1.0
    ensures -d < a ==> -1.0 < a / d
  {
  }

  /** In the sector that starts at `60 * 2j` the intermediate component
      rises with the hue. */
  lemma Rising(h: real, d: real, j: nat, u: real)
    requires 0.0 <= u <= 1.0 && h == 60.0 * (2.0 * j as real + u)
    ensures Intermediate(h, d) == d * u
  {
    FmodInPeriod(h / 60.0, 2.0, j);
  }

  /** In the sector that ends at `60 * (2j + 2)` it falls, reaching 0 at
      that end. */
  lemma Falling(h: real, d: real, j: nat, w: real)
    requires -1.0 <= w < 0.0 && h == 60.0 * (2.0 * j as real + 2.0 + w)
    ensures Intermediate(h, d) == -(d * w)
  {
    FmodInPeriod(h / 60.0, 2.0, j);
  }

  /** The hue when red holds the maximum and `m` is the minimum. */
  lemma RedHue(r: real, g: real, b: real, m: real)
    requires g <= r && b <= r && m == MinR(r, MinR(g, b)) && m < r
    ensures Hue(r, g, b) == Fmod(60.0 * ((g - b) / (r - m)) + 360.0, 360.0)
  {
  }

  /** The hue when green holds the maximum, above red. */
  lemma GreenHue(r: real, g: real, b: real, m: real)
    requires r < g && b <= g && m == MinR(r, MinR(g, b))
    ensures Hue(r, g, b) == Fmod(60.0 * ((b - r) / (g - m)) + 120.0, 360.0)
  {
  }

  /** The hue when blue holds the maximum, above red and green. */
  lemma BlueHue(r: real, g: real, b: real, m: real)
    requires r < b && g < b && m == MinR(r, MinR(g, b))
    ensures Hue(r, g, b) == Fmod(60.0 * ((r - g) / (b - m)) + 240.0, 360.0)
  {
  }

  /** Red largest, blue smallest: the hue is in [0, 60], green rises. */
  lemma RedPeakRising(r: real, g: real, b: real)
    requires 0.0 <= b <= g <= r && b < r
    ensures Hexcone(Hue(r, g, b), r - b, b) == (r, g, b)
  {
    var t := (g - b) / (r - b);
    Ratio(g - b, r - b);
    RedHue(r, g, b, b);
    assert (r - b) * t == g - b;
    RedRisingAt(Hue(r, g, b), r, g, b, t);
  }

  /** `RedPeakRising` once the green fraction `t` is known. */
  lemma RedRisingAt(h: real, r: real, g: real, b: real, t: real)
    requires 0.0 <= b <= g <= r && b < r && 0.0 <= t <= 1.0
    requires (r - b) * t == g - b && h == Fmod(60.0 * t + 360.0, 360.0)
    ensures Hexcone(h, r - b, b) == (r, g, b)
  {
    var d := r - b;
    assert d * t + b == g;
    FmodInPeriod(60.0 * t + 360.0, 360.0, 1);
    RisingCone(60.0 * t, d, b, 0, t, (r, g, b));
  }

  /** Red largest, green smallest: the hue is in [300, 360), blue falls
      back towards red. */
  lemma RedPeakFalling(r: real, g: real, b: real)
    requires 0.0 <= g < b <= r
    ensures Hexcone(Hue(r, g, b), r - g, g) == (r, g, b)
  {
    var d, t := r - g, (g - b) / (r - g);
    Ratio(g - b, d);
    assert d * t == g - b;
    RedHue(r, g, b, g);
    FmodInPeriod(60.0 * t + 360.0, 360.0, 0);
    FallingCone(360.0 + 60.0 * t, d, g, 2, t, (r, g, b));
  }

  /** Green largest, blue smallest: the hue is in [60, 120), red falls. */
  lemma GreenPeakFalling(r: real, g: real, b: real)
    requires 0.0 <= b < r < g
    ensures Hexcone(Hue(r, g, b), g - b, b) == (r, g, b)
  {
    var d, t := g - b, (b - r) / (g - b);
    Ratio(b - r, d);
    assert d * t == b - r;
    GreenHue(r, g, b, b);
    FmodInPeriod(60.0 * t + 120.0, 360.0, 0);
    FallingCone(120.0 + 60.0 * t, d, b, 0, t, (r, g, b));
  }

  /** Green largest, red smallest: the hue is in [120, 180], blue rises. */
  lemma GreenPeakRising(r: real, g: real, b: real)
    requires 0.0 <= r <= b <= g && r < g
    ensures Hexcone(Hue(r, g, b), g - r, r) == (r, g, b)
  {
    var d, t := g - r, (b - r) / (g - r);
    Ratio(b - r, d);
    assert d * t == b - r;
    GreenHue(r, g, b, r);
    FmodInPeriod(60.0 * t + 120.0, 360.0, 0);
    RisingCone(120.0 + 60.0 * t, d, r, 1, t, (r, g, b));
  }

  /** Blue largest, red smallest: the hue is in (180, 240), green falls. */
  lemma BluePeakFalling(r: real, g: real, b: real)
    requires 0.0 <= r < g < b
    ensures Hexcone(Hue(r, g, b), b - r, r) == (r, g, b)
  {
    var d, t := b - r, (r - g) / (b - r);
    Ratio(r - g, d);
    assert d * t == r - g;
    BlueHue(r, g, b, r);
    FmodInPeriod(60.0 * t + 240.0, 360.0, 0);
    FallingCone(240.0 + 60.0 * t, d, r, 1, t, (r, g, b));
  }

  /** Blue largest, green smallest: the hue is in [240, 300), red rises. */
  lemma BluePeakRising(r: real, g: real, b: real)
    requires 0.0 <= g <= r < b
    ensures Hexcone(Hue(r, g, b), b - g, g) == (r, g, b)
  {
    var d, t := b - g, (r - g) / (b - g);
    Ratio(r - g, d);
    assert d * t == r - g;
    BlueHue(r, g, b, g);
    FmodInPeriod(60.0 * t + 240.0, 360.0, 0);
    RisingCone(240.0 + 60.0 * t, d, g, 2, t, (r, g, b));
  }

  /** The hexcone colour at a hue `60 * (2j + u)` whose intermediate rises:
      the chroma `d` goes to the leading channel, `d * u` to the next, and
      everything is lifted by `m`.  For u = 1 the hue starts the next,
      falling sector, where the intermediate is the whole chroma. */
  lemma RisingCone(h: real, d: real, m: real, j: nat, u: real, e: (real, real, real))
    requires j <= 2 && 0.0 <= u <= 1.0 && h == 60.0 * (2.0 * j as real + u)
    requires j == 0 ==> e == (d + m, d * u + m, m)
    requires j == 1 ==> e == (m, d + m, d * u + m)
    requires j == 2 ==> u < 1.0 && e == (d * u + m, m, d + m)
    ensures Hexcone(h, d, m) == e
  {
    Rising(h, d, j, u);
  }

  /** The hexcone colour at a hue `60 * (2j + 2 + w)` whose intermediate
      falls to `-d * w`. */
  lemma FallingCone(h: real, d: real, m: real, j: nat, w: real, e: (real, real, real))
    requires j <= 2 && -1.0 <= w < 0.0 && h == 60.0 * (2.0 * j as real + 2.0 + w)
    requires j == 0 ==> e == (-(d * w) + m, d + m, m)
    requires j == 1 ==> e == (m, -(d * w) + m, d + m)
    requires j == 2 ==> e == (d + m, m, -(d * w) + m)
    ensures Hexcone(h, d, m) == e
  {
    Falling(h, d, j, w);
  }
}
