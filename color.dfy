/**
 * Colour conversion of the WLED accessory: the six-sector HSV to RGB
 * algorithm used on the outbound path, its inverse used when a device push
 * frame is parsed, and the brightness conversions between the accessory's
 * percentage and the device's byte.
 *
 * Numbers are modelled as `real`; `Math.floor` is `Floor` and `Math.round`
 * (on the non-negative values that occur here) is `Round`.
 */
module Color {

  /** A colour as the device sees it: one integer per channel. */
  datatype Rgb = Rgb(r: int, g: int, b: int) {
    predicate InRange() {
      0 <= r <= 255 && 0 <= g <= 255 && 0 <= b <= 255
    }
  }

  /** The triple returned by `RGBtoHSV`: hue and saturation as fractions, value as max/255. */
  datatype Hsv = Hsv(h: real, s: real, v: real)

  /** `Math.floor`. */
  function Floor(x: real): (r: int)
    ensures r as real <= x < r as real + 1.0
  {
    x.Floor
  }

  /** `Math.round` on the non-negative values used here: halves round up. */
  function Round(x: real): (r: int)
    ensures r as real - 0.5 <= x < r as real + 0.5
  {
    Floor(x + 0.5)
  }

  function Max3(a: int, b: int, c: int): (m: int)
    ensures m >= a && m >= b && m >= c
    ensures m == a || m == b || m == c
  {
    if a >= b && a >= c then a else if b >= c then b else c
  }

  function Min3(a: int, b: int, c: int): (m: int)
    ensures m <= a && m <= b && m <= c
    ensures m == a || m == b || m == c
  {
    if a <= b && a <= c then a else if b <= c then b else c
  }

  /** The hue and saturation ranges the host platform enforces (degrees, percent). */
  predicate ValidHs(h: real, s: real) {
    0.0 <= h <= 360.0 && 0.0 <= s <= 100.0
  }

  // ---------------------------------------------------------------------------
  // HSVtoRGB

  /**
   * The unit-interval channels of one sector of the six-sector algorithm,
   * with p = 1 - s, q = 1 - f*s and t = 1 - (1 - f)*s.
   */
  function SectorChannels(sector: int, f: real, s: real): (real, real, real)
    requires 0 <= sector < 6
  {
    var p := 1.0 - s;
    var q := 1.0 - f * s;
    var t := 1.0 - (1.0 - f) * s;
    if sector == 0 then (1.0, t, p)
    else if sector == 1 then (q, 1.0, p)
    else if sector == 2 then (p, 1.0, t)
    else if sector == 3 then (p, q, 1.0)
    else if sector == 4 then (t, p, 1.0)
    else (1.0, p, q)
  }

  /** Scales unit-interval channels to the device range, rounding each. */
  function Scale(c: (real, real, real)): Rgb {
    Rgb(Round(c.0 * 255.0), Round(c.1 * 255.0), Round(c.2 * 255.0))
  }

  /** The sector index `Math.floor(h * 6)` for a hue given in degrees. */
  function SectorIndex(h: real): int {
    Floor(h / 360.0 * 6.0)
  }

  /** `HSVtoRGB(h, s)` with h in degrees and s in percent. */
  function HsvToRgb(h: real, s: real): (c: Rgb)
    requires ValidHs(h, s)
  {
    var hf := h / 360.0;
    var sf := s / 100.0;
    var i := Floor(hf * 6.0);
    var f := hf * 6.0 - i as real;
    Scale(SectorChannels(i % 6, f, sf))
  }

  lemma RoundMonotone(x: real, y: real)
    requires x <= y
    ensures Round(x) <= Round(y)
  {
  }

  lemma RoundOfInt(k: int)
    ensures Round(k as real) == k
  {
  }

  /** A product of a fraction in [0,1] and a non-negative number is at most that number. */
  lemma FractionTimes(a: real, b: real)
    requires 0.0 <= a <= 1.0 && 0.0 <= b
    ensures 0.0 <= a * b <= b
  {
    assert (1.0 - a) * b >= 0.0;
  }

  /** Every sector's channels lie in [0,1], one of them is 1, and the smallest is p. */
  lemma SectorChannelsFacts(sector: int, f: real, s: real)
    requires 0 <= sector < 6 && 0.0 <= f <= 1.0 && 0.0 <= s <= 1.0
    ensures var c := SectorChannels(sector, f, s);
      && 0.0 <= c.0 <= 1.0 && 0.0 <= c.1 <= 1.0 && 0.0 <= c.2 <= 1.0
      && (c.0 == 1.0 || c.1 == 1.0 || c.2 == 1.0)
      && (c.0 == 1.0 - s || c.1 == 1.0 - s || c.2 == 1.0 - s)
      && 1.0 - s <= c.0 && 1.0 - s <= c.1 && 1.0 - s <= c.2
  {
    FractionTimes(f, s);
    FractionTimes(1.0 - f, s);
    var p, q, t := 1.0 - s, 1.0 - f * s, 1.0 - (1.0 - f) * s;
    assert 0.0 <= p <= q <= 1.0 && p <= t <= 1.0;
  }

  /** A channel value in [0,1] scales to a device byte. */
  lemma ScaleInRange(x: real)
    requires 0.0 <= x <= 1.0
    ensures 0 <= Round(x * 255.0) <= 255
  {
    RoundMonotone(0.0, x * 255.0);
    RoundMonotone(x * 255.0, 255.0);
    RoundOfInt(0);
    RoundOfInt(255);
  }

  /** The fractional part of `h * 6` lies in [0,1) and the sector in [0,6]. */
  lemma SectorIndexBounds(h: real)
    requires 0.0 <= h <= 360.0
    ensures 0 <= SectorIndex(h) <= 6
    ensures 0.0 <= h / 360.0 * 6.0 - SectorIndex(h) as real < 1.0
  {
  }

  /**
   * The channel facts of `HSVtoRGB` over the host's ranges: every channel
   * is a byte, at least one channel is 255, and the smallest channel is
   * round(255 * (1 - s/100)).
   */
  lemma {:induction false} HsvToRgbChannels(h: real, s: real)
    requires ValidHs(h, s)
    ensures HsvToRgb(h, s).InRange()
    ensures var c := HsvToRgb(h, s); c.r == 255 || c.g == 255 || c.b == 255
    ensures var c := HsvToRgb(h, s); Min3(c.r, c.g, c.b) == Round(255.0 * (1.0 - s / 100.0))
  {
    var sf := s / 100.0;
    var i := SectorIndex(h);
    SectorIndexBounds(h);
    var f := h / 360.0 * 6.0 - i as real;
    var ch := SectorChannels(i % 6, f, sf);
    SectorChannelsFacts(i % 6, f, sf);
    assert HsvToRgb(h, s) == Scale(ch);
    ScaleInRange(ch.0);
    ScaleInRange(ch.1);
    ScaleInRange(ch.2);
    RoundOfInt(255);
    assert 1.0 * 255.0 == 255 as real;
    var lo := Round((1.0 - sf) * 255.0);
    assert (1.0 - sf) * 255.0 == 255.0 * (1.0 - s / 100.0);
    RoundMonotone((1.0 - sf) * 255.0, ch.0 * 255.0);
    RoundMonotone((1.0 - sf) * 255.0, ch.1 * 255.0);
    RoundMonotone((1.0 - sf) * 255.0, ch.2 * 255.0);
  }

  /** Saturation 0 gives white whatever the hue. */
  lemma HsvToRgbGrey(h: real)
    requires 0.0 <= h <= 360.0
    ensures HsvToRgb(h, 0.0) == Rgb(255, 255, 255)
  {
    SectorIndexBounds(h);
    var i := SectorIndex(h);
    var f := h / 360.0 * 6.0 - i as real;
    assert f * 0.0 == 0.0 && (1.0 - f) * 0.0 == 0.0;
    assert SectorChannels(i % 6, f, 0.0) == (1.0, 1.0, 1.0);
    RoundOfInt(255);
  }

  /** Hue 360 gives the same colour as hue 0, because the sector is taken modulo 6. */
  lemma HsvToRgbFullTurn(s: real)
    requires 0.0 <= s <= 100.0
    ensures HsvToRgb(360.0, s) == HsvToRgb(0.0, s)
  {
    assert SectorIndex(360.0) == 6;
    assert SectorIndex(0.0) == 0;
  }

  /** Pure green, red and blue at full saturation. */
  lemma HsvToRgbPrimaries()
    ensures HsvToRgb(120.0, 100.0) == Rgb(0, 255, 0)
    ensures HsvToRgb(0.0, 100.0) == Rgb(255, 0, 0)
    ensures HsvToRgb(240.0, 100.0) == Rgb(0, 0, 255)
  {
    assert SectorIndex(120.0) == 2;
    assert SectorIndex(0.0) == 0;
    assert SectorIndex(240.0) == 4;
    RoundOfInt(0);
    RoundOfInt(255);
  }

  /** The blue channel per sector: p in sectors 0 and 1, full in sectors 3 and 4. */
  lemma SectorBlue(sector: int, f: real, s: real)
    requires 0 <= sector < 6
    ensures sector <= 1 ==> SectorChannels(sector, f, s).2 == 1.0 - s
    ensures 3 <= sector <= 4 ==> SectorChannels(sector, f, s).2 == 1.0
  {
  }

  /** In sectors 0 and 1 (hues below 120) blue is p, the smallest channel. */
  lemma HsvToRgbBlueIsMin(h: real, s: real)
    requires ValidHs(h, s) && h < 120.0
    ensures HsvToRgb(h, s).b == Min3(HsvToRgb(h, s).r, HsvToRgb(h, s).g, HsvToRgb(h, s).b)
  {
    HsvToRgbChannels(h, s);
    SectorIndexBounds(h);
    var i := SectorIndex(h);
    var f := h / 360.0 * 6.0 - i as real;
    assert h / 60.0 == i as real + f;
    HsvToRgbAt(h, s, i, f);
    assert i % 6 == i;
    SectorBlue(i, f, s / 100.0);
    assert (1.0 - s / 100.0) * 255.0 == 255.0 * (1.0 - s / 100.0);
  }

  /** In sectors 3 and 4 (hues from 180 to below 300) blue is the full channel. */
  lemma HsvToRgbBlueIsFull(h: real, s: real)
    requires ValidHs(h, s) && 180.0 <= h < 300.0
    ensures HsvToRgb(h, s).b == 255
  {
    SectorIndexBounds(h);
    var i := SectorIndex(h);
    var f := h / 360.0 * 6.0 - i as real;
    assert h / 60.0 == i as real + f;
    HsvToRgbAt(h, s, i, f);
    assert i % 6 == i;
    SectorBlue(i, f, s / 100.0);
    RoundOfInt(255);
  }

  // ---------------------------------------------------------------------------
  // RGBtoHSV

  /**
   * The hue fraction of `RGBtoHSV(r, g, b)`: the `switch (max)` takes the
   * first matching case, so the achromatic case `min` is decided before any
   * division by d = max - min. The last case (`b`) is the `else`: max is
   * always one of the three channels.
   */
  function HueFraction(r: int, g: int, b: int): real {
    var mx := Max3(r, g, b);
    var mn := Min3(r, g, b);
    var d := (mx - mn) as real;
    if mx == mn then 0.0
    else if mx == r then ((g - b) as real + d * (if g < b then 6.0 else 0.0)) / (6.0 * d)
    else if mx == g then ((b - r) as real + d * 2.0) / (6.0 * d)
    else ((r - g) as real + d * 4.0) / (6.0 * d)
  }

  /** `RGBtoHSV(r, g, b)`: saturation d/max (0 for black) and value max/255. */
  function RgbToHsv(r: int, g: int, b: int): (hsv: Hsv)
  {
    var mx := Max3(r, g, b);
    var mn := Min3(r, g, b);
    var d := (mx - mn) as real;
    var s := if mx == 0 then 0.0 else d / mx as real;
    var v := mx as real / 255.0;
    Hsv(HueFraction(r, g, b), s, v)
  }

  /** The sector offset (0, 2, 4 or 6) that the chromatic cases of `HueFraction` add. */
  function HueBase(r: int, g: int, b: int): real {
    var mx := Max3(r, g, b);
    if mx == r then (if g < b then 6.0 else 0.0) else if mx == g then 2.0 else 4.0
  }

  /** The channel difference that the chromatic cases of `HueFraction` divide by d. */
  function HueOffset(r: int, g: int, b: int): int {
    var mx := Max3(r, g, b);
    if mx == r then g - b else if mx == g then b - r else r - g
  }

  /** x / d for -d <= x <= d lies in [-1,1], with the sign of x. */
  lemma Ratio(x: real, d: real)
    requires d > 0.0 && -d <= x <= d
    ensures -1.0 <= x / d <= 1.0
    ensures x < d ==> x / d < 1.0
    ensures -d < x ==> -1.0 < x / d
    ensures 0.0 <= x ==> 0.0 <= x / d
    ensures x < 0.0 ==> x / d < 0.0
    ensures x / d * d == x
  {
    RatioUpper(x, d);
    RatioLower(x, d);
    RatioSign(x, d);
  }

  /** x <= d gives x / d <= 1, strictly when x < d. */
  lemma RatioUpper(x: real, d: real)
    requires d > 0.0 && x <= d
    ensures x / d <= 1.0 && (x < d ==> x / d < 1.0)
  {
    var y := x / d;
    assert y * d == x;
    if y > 1.0 { ProductPositive(y - 1.0, d); }
    if x < d && y >= 1.0 { ProductNonNegative(y - 1.0, d); }
  }

  /** -d <= x gives -1 <= x / d, strictly when -d < x. */
  lemma RatioLower(x: real, d: real)
    requires d > 0.0 && -d <= x
    ensures -1.0 <= x / d && (-d < x ==> -1.0 < x / d)
  {
    var y := x / d;
    assert y * d == x;
    if y < -1.0 { ProductPositive(-1.0 - y, d); }
    if -d < x && y <= -1.0 { ProductNonNegative(-1.0 - y, d); }
  }

  /** x / d has the sign of x. */
  lemma RatioSign(x: real, d: real)
    requires d > 0.0
    ensures (0.0 <= x ==> 0.0 <= x / d) && (x < 0.0 ==> x / d < 0.0)
  {
    var y := x / d;
    assert y * d == x;
    if 0.0 <= x && y < 0.0 { ProductPositive(-y, d); }
    if x < 0.0 && y >= 0.0 { ProductNonNegative(y, d); }
  }

  lemma ProductPositive(a: real, b: real)
    requires a > 0.0 && b > 0.0
    ensures a * b > 0.0
  {
  }

  lemma ProductNonNegative(a: real, b: real)
    requires a >= 0.0 && b >= 0.0
    ensures a * b >= 0.0
  {
  }

  /** Six times a chromatic hue fraction is its sector base plus offset/d. */
  lemma HueSixfold(r: int, g: int, b: int)
    requires Max3(r, g, b) != Min3(r, g, b)
    ensures var d := (Max3(r, g, b) - Min3(r, g, b)) as real;
      && -d <= HueOffset(r, g, b) as real <= d
      && 6.0 * HueFraction(r, g, b) == HueBase(r, g, b) + HueOffset(r, g, b) as real / d
  {
    var d := (Max3(r, g, b) - Min3(r, g, b)) as real;
    var x := HueOffset(r, g, b) as real;
    var k := HueBase(r, g, b);
    assert HueFraction(r, g, b) == (x + d * k) / (6.0 * d);
    assert (x + d * k) / (6.0 * d) == (k + x / d) / 6.0;
  }

  /**
   * The ranges of `RGBtoHSV` over device bytes: the hue fraction lies in
   * [0,1), the saturation in [0,1] and the value is max/255, in [0,1].
   */
  lemma {:induction false} RgbToHsvRanges(c: Rgb)
    requires c.InRange()
    ensures var hsv := RgbToHsv(c.r, c.g, c.b);
      && 0.0 <= hsv.h < 1.0
      && 0.0 <= hsv.s <= 1.0
      && 0.0 <= hsv.v <= 1.0
      && hsv.v * 255.0 == Max3(c.r, c.g, c.b) as real
  {
    var r, g, b := c.r, c.g, c.b;
    var mx := Max3(r, g, b);
    var mn := Min3(r, g, b);
    var d := (mx - mn) as real;
    if mx != 0 {
      Ratio(d, mx as real);
    }
    if mx != mn {
      HueSixfold(r, g, b);
      Ratio(HueOffset(r, g, b) as real, d);
      if mx == r && g < b {
        assert HueOffset(r, g, b) < 0;
      } else if mx == r {
        assert HueOffset(r, g, b) >= 0;
      }
    }
  }

  /** The whole degrees, percent and byte a device colour is stored as: a hue below 360, a percentage, and the largest channel. */
  lemma HsvFloors(c: Rgb)
    requires c.InRange()
    ensures var hsv := RgbToHsv(c.r, c.g, c.b);
      && 0 <= Floor(hsv.h * 360.0) <= 359
      && 0 <= Floor(hsv.s * 100.0) <= 100
      && Floor(hsv.v * 255.0) == Max3(c.r, c.g, c.b)
  {
    var hsv := RgbToHsv(c.r, c.g, c.b);
    RgbToHsvRanges(c);
    assert hsv.h * 360.0 < 360.0;
    assert hsv.s * 100.0 <= 100.0;
    RoundOfInt(Max3(c.r, c.g, c.b));
  }

  /** Every grey, black included, has hue 0 and saturation 0. */
  lemma RgbToHsvGrey(k: int)
    requires 0 <= k <= 255
    ensures RgbToHsv(k, k, k).h == 0.0 && RgbToHsv(k, k, k).s == 0.0
    ensures RgbToHsv(k, k, k).v == k as real / 255.0
  {
  }

  /** Black and pure red. */
  lemma RgbToHsvCorners()
    ensures RgbToHsv(0, 0, 0) == Hsv(0.0, 0.0, 0.0)
    ensures RgbToHsv(255, 0, 0) == Hsv(0.0, 1.0, 1.0)
    ensures RgbToHsv(0, 255, 0) == Hsv(1.0 / 3.0, 1.0, 1.0)
  {
  }

  // ---------------------------------------------------------------------------
  // Round trip

  /** `HSVtoRGB` at a hue whose sector and fractional part are known. */
  lemma HsvToRgbAt(h: real, s: real, k: int, f: real)
    requires ValidHs(h, s) && 0 <= k <= 6 && 0.0 <= f < 1.0
    requires h / 60.0 == k as real + f
    ensures HsvToRgb(h, s) == Scale(SectorChannels(k % 6, f, s / 100.0))
  {
    assert h / 360.0 * 6.0 == h / 60.0;
    assert SectorIndex(h) == k;
  }

  /** A channel value c/255 scales back to c. */
  lemma ScaleByte(x: real, k: int)
    requires x == k as real / 255.0
    ensures Round(x * 255.0) == k
  {
    RoundOfInt(k);
  }

  /** Channel fractions c/255 scale back to the colour c. */
  lemma ScaleExact(ch: (real, real, real), c: Rgb)
    requires ch.0 == c.r as real / 255.0 && ch.1 == c.g as real / 255.0 && ch.2 == c.b as real / 255.0
    ensures Scale(ch) == c
  {
    ScaleByte(ch.0, c.r);
    ScaleByte(ch.1, c.g);
    ScaleByte(ch.2, c.b);
  }

  /** The round trip of one colour whose hue lies in sector k at fraction f, given its HSV. */
  lemma SectorRoundTrip(c: Rgb, h: real, s: real, k: int, f: real, ch: (real, real, real))
    requires ValidHs(h, s) && 0 <= k < 6 && 0.0 <= f < 1.0 && h / 60.0 == k as real + f
    requires ch == SectorChannels(k, f, s / 100.0)
    requires ch.0 == c.r as real / 255.0 && ch.1 == c.g as real / 255.0 && ch.2 == c.b as real / 255.0
    ensures HsvToRgb(h, s) == c
  {
    assert HsvToRgb(h, s) == Scale(ch) by {
      HsvToRgbAt(h, s, k, f);
      assert k % 6 == k;
    }
    ScaleExact(ch, c);
  }

  /**
   * The facts every full-value round trip case uses: the hue in degrees over
   * 60 is the sector base plus offset/d, the saturation fraction is d/255
   * and the smallest channel is 255 - d.
   */
  lemma FullValueHsv(c: Rgb)
    requires c.InRange() && Max3(c.r, c.g, c.b) == 255 && Min3(c.r, c.g, c.b) < 255
    ensures var hsv := RgbToHsv(c.r, c.g, c.b);
      var d := (255 - Min3(c.r, c.g, c.b)) as real;
      && ValidHs(360.0 * hsv.h, 100.0 * hsv.s)
      && 360.0 * hsv.h / 60.0 == HueBase(c.r, c.g, c.b) + HueOffset(c.r, c.g, c.b) as real / d
      && 100.0 * hsv.s / 100.0 == d / 255.0
      && HueOffset(c.r, c.g, c.b) as real / d * d == HueOffset(c.r, c.g, c.b) as real
  {
    RgbToHsvRanges(c);
    HueSixfold(c.r, c.g, c.b);
    var d := (255 - Min3(c.r, c.g, c.b)) as real;
    Ratio(HueOffset(c.r, c.g, c.b) as real, d);
  }

  /** The hue offset over d, the y of the round trip, lies in [-1,1] with the sign of the offset. */
  lemma HueOffsetRatio(c: Rgb)
    requires c.InRange() && Max3(c.r, c.g, c.b) == 255 && Min3(c.r, c.g, c.b) < 255
    ensures var d := (255 - Min3(c.r, c.g, c.b)) as real;
      var x := HueOffset(c.r, c.g, c.b) as real;
      && -1.0 <= x / d <= 1.0 && x / d * d == x
      && (x < 0.0 ==> x / d < 0.0) && (0.0 <= x ==> 0.0 <= x / d)
      && (x < d ==> x / d < 1.0) && (-d < x ==> -1.0 < x / d)
  {
    HueSixfold(c.r, c.g, c.b);
    Ratio(HueOffset(c.r, c.g, c.b) as real, (255 - Min3(c.r, c.g, c.b)) as real);
  }

  /** Round trip when red is the largest channel (255). */
  lemma RoundTripRedMax(c: Rgb, h: real, s: real, d: real, y: real)
    requires c.InRange() && c.r == 255 && Min3(c.r, c.g, c.b) < 255
    requires d == (255 - Min3(c.r, c.g, c.b)) as real && ValidHs(h, s) && s / 100.0 == d / 255.0
    requires h / 60.0 == HueBase(c.r, c.g, c.b) + y && y * d == HueOffset(c.r, c.g, c.b) as real
    requires -1.0 <= y <= 1.0 && (HueOffset(c.r, c.g, c.b) < 0 ==> y < 0.0) && (0 <= HueOffset(c.r, c.g, c.b) ==> 0.0 <= y)
    requires (HueOffset(c.r, c.g, c.b) as real < d ==> y < 1.0) && (-d < HueOffset(c.r, c.g, c.b) as real ==> -1.0 < y)
    ensures HsvToRgb(h, s) == c
  {
    var r, g, b := c.r, c.g, c.b;
    if g < b {
      // sector 5: (1, p, q), g is the minimum
      var f := 1.0 + y;
      assert h / 60.0 == 5.0 + f;
      assert f * (d / 255.0) == (d + (g - b) as real) / 255.0;
      SectorRoundTrip(c, h, s, 5, f, SectorChannels(5, f, s / 100.0));
    } else if g == 255 {
      // sector 1 with f = 0: (1, 1, p), b is the minimum
      assert h / 60.0 == 1.0 + 0.0;
      SectorRoundTrip(c, h, s, 1, 0.0, SectorChannels(1, 0.0, s / 100.0));
    } else {
      // sector 0: (1, t, p), b is the minimum
      var f := y;
      assert h / 60.0 == 0.0 + f;
      assert (1.0 - f) * (d / 255.0) == (d - (g - b) as real) / 255.0;
      SectorRoundTrip(c, h, s, 0, f, SectorChannels(0, f, s / 100.0));
    }
  }

  /** Round trip when green is the largest channel (255) and red is not. */
  lemma RoundTripGreenMax(c: Rgb, h: real, s: real, d: real, y: real)
    requires c.InRange() && c.g == 255 && c.r < 255
    requires d == (255 - Min3(c.r, c.g, c.b)) as real && ValidHs(h, s) && s / 100.0 == d / 255.0
    requires h / 60.0 == HueBase(c.r, c.g, c.b) + y && y * d == HueOffset(c.r, c.g, c.b) as real
    requires -1.0 <= y <= 1.0 && (HueOffset(c.r, c.g, c.b) < 0 ==> y < 0.0) && (0 <= HueOffset(c.r, c.g, c.b) ==> 0.0 <= y)
    requires (HueOffset(c.r, c.g, c.b) as real < d ==> y < 1.0) && (-d < HueOffset(c.r, c.g, c.b) as real ==> -1.0 < y)
    ensures HsvToRgb(h, s) == c
  {
    var r, g, b := c.r, c.g, c.b;
    if b < r {
      // sector 1: (q, 1, p), b is the minimum
      var f := 1.0 + y;
      assert h / 60.0 == 1.0 + f;
      assert f * (d / 255.0) == (d + (b - r) as real) / 255.0;
      SectorRoundTrip(c, h, s, 1, f, SectorChannels(1, f, s / 100.0));
    } else if b == 255 {
      // sector 3 with f = 0: (p, 1, 1), r is the minimum
      assert h / 60.0 == 3.0 + 0.0;
      SectorRoundTrip(c, h, s, 3, 0.0, SectorChannels(3, 0.0, s / 100.0));
    } else {
      // sector 2: (p, 1, t), r is the minimum
      var f := y;
      assert h / 60.0 == 2.0 + f;
      assert (1.0 - f) * (d / 255.0) == (d - (b - r) as real) / 255.0;
      SectorRoundTrip(c, h, s, 2, f, SectorChannels(2, f, s / 100.0));
    }
  }

  /** Round trip when blue is the only largest channel (255). */
  lemma RoundTripBlueMax(c: Rgb, h: real, s: real, d: real, y: real)
    requires c.InRange() && c.b == 255 && c.r < 255 && c.g < 255
    requires d == (255 - Min3(c.r, c.g, c.b)) as real && ValidHs(h, s) && s / 100.0 == d / 255.0
    requires h / 60.0 == HueBase(c.r, c.g, c.b) + y && y * d == HueOffset(c.r, c.g, c.b) as real
    requires -1.0 <= y <= 1.0 && (HueOffset(c.r, c.g, c.b) < 0 ==> y < 0.0) && (0 <= HueOffset(c.r, c.g, c.b) ==> 0.0 <= y)
    requires (HueOffset(c.r, c.g, c.b) as real < d ==> y < 1.0) && (-d < HueOffset(c.r, c.g, c.b) as real ==> -1.0 < y)
    ensures HsvToRgb(h, s) == c
  {
    var r, g, b := c.r, c.g, c.b;
    if r < g {
      // sector 3: (p, q, 1), r is the minimum
      var f := 1.0 + y;
      assert h / 60.0 == 3.0 + f;
      assert f * (d / 255.0) == (d + (r - g) as real) / 255.0;
      SectorRoundTrip(c, h, s, 3, f, SectorChannels(3, f, s / 100.0));
    } else {
      // sector 4: (t, p, 1), g is the minimum
      var f := y;
      assert h / 60.0 == 4.0 + f;
      assert (1.0 - f) * (d / 255.0) == (d - (r - g) as real) / 255.0;
      SectorRoundTrip(c, h, s, 4, f, SectorChannels(4, f, s / 100.0));
    }
  }

  /** The round trip for a full-value colour that is not white, from the arithmetic facts of its HSV. */
  lemma RoundTripFromFacts(c: Rgb, h: real, s: real)
    requires c.InRange() && Max3(c.r, c.g, c.b) == 255 && Min3(c.r, c.g, c.b) < 255
    requires var d := (255 - Min3(c.r, c.g, c.b)) as real;
      var x := HueOffset(c.r, c.g, c.b) as real;
      && ValidHs(h, s) && s / 100.0 == d / 255.0 && h / 60.0 == HueBase(c.r, c.g, c.b) + x / d
      && -1.0 <= x / d <= 1.0 && x / d * d == x
      && (x < 0.0 ==> x / d < 0.0) && (0.0 <= x ==> 0.0 <= x / d)
      && (x < d ==> x / d < 1.0) && (-d < x ==> -1.0 < x / d)
    ensures HsvToRgb(h, s) == c
  {
    var d := (255 - Min3(c.r, c.g, c.b)) as real;
    var y := HueOffset(c.r, c.g, c.b) as real / d;
    if c.r == 255 {
      RoundTripRedMax(c, h, s, d, y);
    } else if c.g == 255 {
      RoundTripGreenMax(c, h, s, d, y);
    } else {
      RoundTripBlueMax(c, h, s, d, y);
    }
  }

  /** The round trip for a full-value colour that is not white. */
  lemma ChromaticRoundTrip(c: Rgb)
    requires c.InRange() && Max3(c.r, c.g, c.b) == 255 && Min3(c.r, c.g, c.b) < 255
    ensures var hsv := RgbToHsv(c.r, c.g, c.b);
      ValidHs(360.0 * hsv.h, 100.0 * hsv.s) && HsvToRgb(360.0 * hsv.h, 100.0 * hsv.s) == c
  {
    var hsv := RgbToHsv(c.r, c.g, c.b);
    FullValueHsv(c);
    HueOffsetRatio(c);
    RoundTripFromFacts(c, 360.0 * hsv.h, 100.0 * hsv.s);
  }

  /**
   * Round trip for colours at full value: converting a colour whose largest
   * channel is 255 to HSV and back (hue in degrees, saturation in percent,
   * both exact) gives the colour back. `HSVtoRGB` has no value parameter,
   * so a colour with a smaller maximum cannot come back.
   */
  lemma HsvRoundTrip(c: Rgb)
    requires c.InRange() && Max3(c.r, c.g, c.b) == 255
    ensures var hsv := RgbToHsv(c.r, c.g, c.b);
      ValidHs(360.0 * hsv.h, 100.0 * hsv.s) && HsvToRgb(360.0 * hsv.h, 100.0 * hsv.s) == c
  {
    if Min3(c.r, c.g, c.b) == 255 {
      RgbToHsvGrey(255);
      HsvToRgbGrey(0.0);
    } else {
      ChromaticRoundTrip(c);
    }
  }

  // ---------------------------------------------------------------------------
  // Small helpers of the accessory

  /** `colorArraysEqual`: true exactly when all three channels agree. */
  function ColorArraysEqual(a: Rgb, b: Rgb): (eq: bool)
    ensures eq <==> a == b
  {
    a.r == b.r && a.g == b.g && a.b == b.b
  }

  /** The brightness setter's conversion `Math.round(255 / 100 * v)` of a percentage to a byte. */
  function PercentToByte(v: int): (b: int)
    requires 0 <= v <= 100
    ensures 0 <= b <= 255
    ensures b == 0 <==> v == 0
  {
    Round(255.0 / 100.0 * v as real)
  }

  /** `Math.round(100 * bri / 255)`, as in `currentBrightnessToPercent` and `parseMessage`. */
  function ByteToPercent(b: int): (v: int)
    requires 0 <= b <= 255
    ensures 0 <= v <= 100
  {
    Round(100.0 * b as real / 255.0)
  }

  /** A percentage survives the trip to a device byte and back. */
  lemma PercentByteRoundTrip(v: int)
    requires 0 <= v <= 100
    ensures ByteToPercent(PercentToByte(v)) == v
  {
    var b := PercentToByte(v);
    assert 2.55 * v as real - 0.5 <= b as real <= 2.55 * v as real + 0.5;
    assert v as real - 0.5 < 100.0 * b as real / 255.0 + 0.5 < v as real + 1.0;
  }
}
