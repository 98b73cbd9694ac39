/** The twelve public conversions of `utils.rs`: each encodes its input into
    the hub and decodes the hub into the target space. Their contracts say
    what each conversion keeps; the lemmas say which round trips give the
    input back, which direct conversions agree with going through RGB, and
    where HSI leaves the RGB cube. */
module Utils {
  import opened Float
  import opened Definitions
  import opened Hub

  /** The three colour channels are equal. */
  predicate Grey(color: ColorRGBA) {
    color.r == color.g && color.g == color.b
  }

  /** The greatest of three channels. */
  function Max3(x: real, y: real, z: real): (v: real)
    ensures IsGreatest(v, x, y, z)
  {
    if x >= y && x >= z then x else if y >= z then y else z
  }

  /** The least of three channels. */
  function Min3(x: real, y: real, z: real): (v: real)
    ensures IsLeast(v, x, y, z)
  {
    if x <= y && x <= z then x else if y <= z then y else z
  }

  /** `s` is the share `part / whole`, stated without dividing. */
  predicate Share(s: real, whole: real, part: real) {
    s * whole == part
  }

  /** `sum` is what the channels of `hcm` add up to when `z` is the wave of
      its hue: `m` once for each channel, plus `c` and `c z`. */
  predicate Spread(hcm: ColorHCMA, z: real, sum: real) {
    sum == 3.0 * hcm.m + hcm.c * (1.0 + z)
  }

  /** A least and a greatest channel are the ones `Min3` and `Max3` find. */
  lemma MinMaxOf(m: real, v: real, x: real, y: real, z: real)
    requires IsLeast(m, x, y, z) && IsGreatest(v, x, y, z)
    ensures Min3(x, y, z) == m && Max3(x, y, z) == v
  {
  }

  /** A ratio `s` with `s v = c` of a part `c` of a positive whole `v`. */
  lemma PartOfWhole(s: real, v: real, c: real)
    requires 0.0 < v && s * v == c && 0.0 <= c <= v
    ensures InUnit(s)
  {
    if s < 0.0 {
      MulMonotone(s, 0.0, v);
    }
    if s > 1.0 {
      MulMonotone(1.0, s, v);
    }
  }

  // --------------------------------------------------------------- encoders
  // What each encoder promises of the hub it builds, as a relation between
  // the colour and the hub, so that the conversions below can be reasoned
  // about one encoder and one decoder at a time.

  predicate RgbHub(color: ColorRGBA, hcm: ColorHCMA) {
    && hcm.a == color.a
    && hcm.m == Min3(color.r, color.g, color.b)
    && hcm.m + hcm.c == Max3(color.r, color.g, color.b)
    && (hcm.c == 0.0 <==> Grey(color))
    && hcm.Canonical()
    && (color.Valid() ==> hcm.InRange())
  }

  lemma FromRgbHub(color: ColorRGBA)
    ensures RgbHub(color, FromRgb(color))
  {
    var hcm := FromRgb(color);
    MinMaxOf(hcm.m, hcm.m + hcm.c, color.r, color.g, color.b);
  }

  predicate HsvHub(color: ColorHSVA, hcm: ColorHCMA) {
    && hcm.h == color.h && hcm.a == color.a
    && hcm.c == color.v * color.s
    && hcm.m + hcm.c == color.v
    && (color.Valid() ==> hcm.InRange())
  }

  lemma FromHsvHub(color: ColorHSVA)
    ensures HsvHub(color, FromHsv(color))
  {
  }

  predicate HslHub(color: ColorHSLA, hcm: ColorHCMA) {
    && hcm.h == color.h && hcm.a == color.a
    && hcm.c == (1.0 - Abs(2.0 * color.l - 1.0)) * color.s
    && hcm.m + hcm.c / 2.0 == color.l
    && (color.Valid() ==> hcm.InRange())
  }

  lemma FromHslHub(color: ColorHSLA)
    ensures HslHub(color, FromHsl(color))
  {
  }

  /** `z` is the wave of the hue. */
  predicate HsiHub(color: ColorHSIA, z: real, hcm: ColorHCMA) {
    && hcm.h == color.h && hcm.a == color.a
    && Spread(hcm, z, 3.0 * color.i)
    && (color.Valid() ==> 0.0 <= hcm.c && 0.0 <= hcm.m)
    && (color.s == 0.0 ==> hcm.c == 0.0 && hcm.m == color.i)
    && (color.Valid() ==> (hcm.c == 0.0 <==> color.i == 0.0 || color.s == 0.0))
  }

  lemma FromHsiHub(color: ColorHSIA, z: real)
    requires z == SectorWave(color.h)
    ensures HsiHub(color, z, FromHsi(color))
  {
    assert FromHsi(color) == FromHsiAt(color, z);
    if color.s == 0.0 {
      FromHsiUnsaturated(color);
    }
    if color.Valid() {
      FromHsiAtChromaless(color, z);
    }
  }

  // --------------------------------------------------------------- decoders

  predicate RgbOf(hcm: ColorHCMA, rgb: ColorRGBA) {
    && rgb.a == hcm.a
    && (hcm.c >= 0.0 ==> IsLeast(hcm.m, rgb.r, rgb.g, rgb.b))
    && (hcm.c >= 0.0 ==> IsGreatest(hcm.m + hcm.c, rgb.r, rgb.g, rgb.b))
    && (hcm.InRange() ==> rgb.Valid())
  }

  lemma ToRgbOf(hcm: ColorHCMA)
    requires 0.0 <= hcm.h < 1.0
    ensures RgbOf(hcm, ToRgb(hcm))
  {
    ToRgbSpan(hcm);
  }

  lemma ToRgbSpread(hcm: ColorHCMA, z: real)
    requires 0.0 <= hcm.h < 1.0 && z == SectorWave(hcm.h)
    ensures var rgb := ToRgb(hcm); Spread(hcm, z, rgb.r + rgb.g + rgb.b)
  {
    ToRgbSum(hcm, z);
  }

  predicate HsvOf(hcm: ColorHCMA, hsv: ColorHSVA) {
    && hsv.h == hcm.h && hsv.a == hcm.a
    && hsv.v == hcm.m + hcm.c
    && (hsv.v == 0.0 || hcm.c == 0.0 ==> hsv.s == 0.0)
    && (hsv.v != 0.0 ==> hsv.s * hsv.v == hcm.c)
    && (hcm.InRange() ==> hsv.Valid())
  }

  lemma ToHsvOf(hcm: ColorHCMA)
    ensures HsvOf(hcm, ToHsv(hcm))
  {
    if hcm.c == 0.0 {
      ToHsvChromaless(hcm);
    }
  }

  predicate HslOf(hcm: ColorHCMA, hsl: ColorHSLA) {
    && hsl.h == hcm.h && hsl.a == hcm.a
    && hsl.l == hcm.m + hcm.c / 2.0
    && (hsl.l == 0.0 || hsl.l == 1.0 || hcm.c == 0.0 ==> hsl.s == 0.0)
    && (hsl.l != 0.0 && hsl.l != 1.0 ==> hsl.s * (1.0 - Abs(2.0 * hsl.l - 1.0)) == hcm.c)
    && (hcm.InRange() ==> hsl.Valid())
  }

  lemma ToHslOf(hcm: ColorHCMA)
    ensures HslOf(hcm, ToHsl(hcm))
  {
    if hcm.c == 0.0 {
      ToHslChromaless(hcm);
    }
  }

  /** `z` is the wave of the hue. */
  predicate HsiOf(hcm: ColorHCMA, z: real, hsi: ColorHSIA) {
    && hsi.h == hcm.h && hsi.a == hcm.a
    && Spread(hcm, z, 3.0 * hsi.i)
    && (hsi.i == 0.0 || hcm.c == 0.0 ==> hsi.s == 0.0)
    && (hcm.c == 0.0 ==> hsi.i == hcm.m)
    && (hsi.i != 0.0 ==> hsi.s * hsi.i == hsi.i - hcm.m)
    && (hcm.InRange() ==> hsi.Valid())
  }

  lemma ToHsiOf(hcm: ColorHCMA, z: real)
    requires z == SectorWave(hcm.h)
    ensures HsiOf(hcm, z, ToHsi(hcm))
  {
    assert ToHsi(hcm) == ToHsiAt(hcm, z);
    if hcm.c == 0.0 {
      ToHsiAtChromaless(hcm, z);
    }
  }

  // ---------------------------------------------------------------- from RGB

  /** `rgb_to_hsv`: value is the greatest channel, saturation the spread of
      the channels over the value; greys get hue and saturation 0. */
  function RgbToHsv(color: ColorRGBA): (hsv: ColorHSVA)
    ensures hsv.a == color.a && 0.0 <= hsv.h < 1.0
    ensures hsv.v == Max3(color.r, color.g, color.b)
    ensures hsv.v != 0.0 ==> Share(hsv.s, hsv.v, hsv.v - Min3(color.r, color.g, color.b))
    ensures Grey(color) ==> hsv.h == 0.0 && hsv.s == 0.0
    ensures color.Valid() ==> hsv.Valid() && (hsv.s == 0.0 <==> Grey(color))
  {
    var hcm := FromRgb(color);
    FromRgbHub(color);
    ToHsvOf(hcm);
    RgbToHsvFacts(color, hcm, ToHsv(hcm));
    ToHsv(hcm)
  }

  lemma RgbToHsvFacts(color: ColorRGBA, hcm: ColorHCMA, hsv: ColorHSVA)
    requires RgbHub(color, hcm) && HsvOf(hcm, hsv)
    ensures hsv.a == color.a && 0.0 <= hsv.h < 1.0
    ensures hsv.v == Max3(color.r, color.g, color.b)
    ensures hsv.v != 0.0 ==> Share(hsv.s, hsv.v, hsv.v - Min3(color.r, color.g, color.b))
    ensures Grey(color) ==> hsv.h == 0.0 && hsv.s == 0.0
    ensures color.Valid() ==> hsv.Valid() && (hsv.s == 0.0 <==> Grey(color))
  {
  }

  /** `rgb_to_hsl`: lightness is the midpoint of the greatest and least
      channel; greys get hue and saturation 0. */
  function RgbToHsl(color: ColorRGBA): (hsl: ColorHSLA)
    ensures hsl.a == color.a && 0.0 <= hsl.h < 1.0
    ensures 2.0 * hsl.l == Max3(color.r, color.g, color.b) + Min3(color.r, color.g, color.b)
    ensures Grey(color) ==> hsl.h == 0.0 && hsl.s == 0.0
    ensures color.Valid() ==> hsl.Valid() && (hsl.s == 0.0 <==> Grey(color))
  {
    var hcm := FromRgb(color);
    FromRgbHub(color);
    ToHslOf(hcm);
    RgbToHslFacts(color, hcm, ToHsl(hcm));
    ToHsl(hcm)
  }

  lemma RgbToHslFacts(color: ColorRGBA, hcm: ColorHCMA, hsl: ColorHSLA)
    requires RgbHub(color, hcm) && HslOf(hcm, hsl)
    ensures hsl.a == color.a && 0.0 <= hsl.h < 1.0
    ensures 2.0 * hsl.l == Max3(color.r, color.g, color.b) + Min3(color.r, color.g, color.b)
    ensures Grey(color) ==> hsl.h == 0.0 && hsl.s == 0.0
    ensures color.Valid() ==> hsl.Valid() && (hsl.s == 0.0 <==> Grey(color))
  {
    if color.Valid() && !Grey(color) {
      assert 0.0 < hsl.l < 1.0;
    }
  }

  /** `rgb_to_hsi`: intensity is the mean of the channels, saturation one
      minus the least channel over the intensity; greys get hue and
      saturation 0. */
  function RgbToHsi(color: ColorRGBA): (hsi: ColorHSIA)
    ensures hsi.a == color.a && 0.0 <= hsi.h < 1.0
    ensures 3.0 * hsi.i == color.r + color.g + color.b
    ensures hsi.i != 0.0 ==> Share(hsi.s, hsi.i, hsi.i - Min3(color.r, color.g, color.b))
    ensures Grey(color) ==> hsi.h == 0.0 && hsi.s == 0.0
    ensures color.Valid() ==> hsi.Valid() && (hsi.s == 0.0 <==> Grey(color))
  {
    var hcm := FromRgb(color);
    var z := SectorWave(hcm.h);
    FromRgbHub(color);
    RgbMean(color, hcm, z);
    ToHsiOf(hcm, z);
    RgbToHsiFacts(color, hcm, z, ToHsi(hcm));
    ToHsi(hcm)
  }

  /** The channels of a colour sum to `3m + c (1 + z)` over its hub. */
  lemma RgbMean(color: ColorRGBA, hcm: ColorHCMA, z: real)
    requires hcm == FromRgb(color) && z == SectorWave(hcm.h)
    ensures Spread(hcm, z, color.r + color.g + color.b)
  {
    FromRgbThenToRgb(color);
    ToRgbSpread(hcm, z);
  }

  lemma RgbToHsiFacts(color: ColorRGBA, hcm: ColorHCMA, z: real, hsi: ColorHSIA)
    requires RgbHub(color, hcm) && HsiOf(hcm, z, hsi) && 0.0 <= z <= 1.0
    requires Spread(hcm, z, color.r + color.g + color.b)
    ensures hsi.a == color.a && 0.0 <= hsi.h < 1.0
    ensures 3.0 * hsi.i == color.r + color.g + color.b
    ensures hsi.i != 0.0 ==> Share(hsi.s, hsi.i, hsi.i - Min3(color.r, color.g, color.b))
    ensures Grey(color) ==> hsi.h == 0.0 && hsi.s == 0.0
    ensures color.Valid() ==> hsi.Valid() && (hsi.s == 0.0 <==> Grey(color))
  {
    if color.Valid() && !Grey(color) {
      ScaleWithin(hcm.c, z);
      assert hcm.c * (1.0 + z) == hcm.c + hcm.c * z;
      assert hsi.i > hcm.m;
    }
  }

  // ---------------------------------------------------------------- from HSV

  /** `hsv_to_hsl`: hue and alpha kept; an unsaturated colour stays
      unsaturated with lightness equal to its value. */
  function HsvToHsl(color: ColorHSVA): (hsl: ColorHSLA)
    ensures hsl.h == color.h && hsl.a == color.a
    ensures color.s == 0.0 ==> hsl.s == 0.0 && hsl.l == color.v
    ensures color.Valid() ==> hsl.Valid()
  {
    var hcm := FromHsv(color);
    FromHsvHub(color);
    ToHslOf(hcm);
    ToHsl(hcm)
  }

  /** `hsv_to_hsi`: hue and alpha kept; an unsaturated colour stays
      unsaturated with intensity equal to its value. */
  function HsvToHsi(color: ColorHSVA): (hsi: ColorHSIA)
    ensures hsi.h == color.h && hsi.a == color.a
    ensures color.s == 0.0 ==> hsi.s == 0.0 && hsi.i == color.v
    ensures color.Valid() ==> hsi.Valid()
  {
    var hcm := FromHsv(color);
    FromHsvHub(color);
    ToHsiOf(hcm, SectorWave(hcm.h));
    ToHsi(hcm)
  }

  /** `hsv_to_rgb`: alpha kept; the greatest channel is the value and the
      least is `v (1 - s)`; an unsaturated colour is the grey of its value.
      The source relies on the hue lying in `[0, 1)`. */
  function HsvToRgb(color: ColorHSVA): (rgb: ColorRGBA)
    requires 0.0 <= color.h < 1.0
    ensures rgb.a == color.a
    ensures color.s == 0.0 ==> rgb.r == rgb.g == rgb.b == color.v
    ensures color.Valid() ==> rgb.Valid()
    ensures color.Valid() ==> Max3(rgb.r, rgb.g, rgb.b) == color.v
    ensures color.Valid() ==> Min3(rgb.r, rgb.g, rgb.b) == color.v - color.v * color.s
  {
    var hcm := FromHsv(color);
    FromHsvHub(color);
    ToRgbOf(hcm);
    HsvToRgbFacts(color, hcm, ToRgb(hcm));
    ToRgb(hcm)
  }

  lemma HsvToRgbFacts(color: ColorHSVA, hcm: ColorHCMA, rgb: ColorRGBA)
    requires HsvHub(color, hcm) && RgbOf(hcm, rgb)
    ensures rgb.a == color.a
    ensures color.s == 0.0 ==> rgb.r == rgb.g == rgb.b == color.v
    ensures color.Valid() ==> rgb.Valid()
    ensures color.Valid() ==> Max3(rgb.r, rgb.g, rgb.b) == color.v
    ensures color.Valid() ==> Min3(rgb.r, rgb.g, rgb.b) == color.v - color.v * color.s
  {
    if color.Valid() || color.s == 0.0 {
      MinMaxOf(hcm.m, hcm.m + hcm.c, rgb.r, rgb.g, rgb.b);
    }
  }

  // ---------------------------------------------------------------- from HSL

  /** `hsl_to_hsi`: hue and alpha kept; an unsaturated colour stays
      unsaturated with intensity equal to its lightness. */
  function HslToHsi(color: ColorHSLA): (hsi: ColorHSIA)
    ensures hsi.h == color.h && hsi.a == color.a
    ensures color.s == 0.0 ==> hsi.s == 0.0 && hsi.i == color.l
    ensures color.Valid() ==> hsi.Valid()
  {
    var hcm := FromHsl(color);
    FromHslHub(color);
    ToHsiOf(hcm, SectorWave(hcm.h));
    ToHsi(hcm)
  }

  /** `hsl_to_rgb`: alpha kept; the lightness is the midpoint of the
      greatest and least channel; an unsaturated colour is the grey of its
      lightness. The source relies on the hue lying in `[0, 1)`. */
  function HslToRgb(color: ColorHSLA): (rgb: ColorRGBA)
    requires 0.0 <= color.h < 1.0
    ensures rgb.a == color.a
    ensures color.s == 0.0 ==> rgb.r == rgb.g == rgb.b == color.l
    ensures color.Valid() ==> rgb.Valid()
    ensures color.Valid() ==> Max3(rgb.r, rgb.g, rgb.b) + Min3(rgb.r, rgb.g, rgb.b) == 2.0 * color.l
  {
    var hcm := FromHsl(color);
    FromHslHub(color);
    ToRgbOf(hcm);
    HslToRgbFacts(color, hcm, ToRgb(hcm));
    ToRgb(hcm)
  }

  lemma HslToRgbFacts(color: ColorHSLA, hcm: ColorHCMA, rgb: ColorRGBA)
    requires HslHub(color, hcm) && RgbOf(hcm, rgb)
    ensures rgb.a == color.a
    ensures color.s == 0.0 ==> rgb.r == rgb.g == rgb.b == color.l
    ensures color.Valid() ==> rgb.Valid()
    ensures color.Valid() ==> Max3(rgb.r, rgb.g, rgb.b) + Min3(rgb.r, rgb.g, rgb.b) == 2.0 * color.l
  {
    if color.Valid() || color.s == 0.0 {
      MinMaxOf(hcm.m, hcm.m + hcm.c, rgb.r, rgb.g, rgb.b);
    }
  }

  /** `hsl_to_hsv`: hue and alpha kept; an unsaturated colour stays
      unsaturated with value equal to its lightness. */
  function HslToHsv(color: ColorHSLA): (hsv: ColorHSVA)
    ensures hsv.h == color.h && hsv.a == color.a
    ensures color.s == 0.0 ==> hsv.s == 0.0 && hsv.v == color.l
    ensures color.Valid() ==> hsv.Valid()
  {
    var hcm := FromHsl(color);
    FromHslHub(color);
    ToHsvOf(hcm);
    ToHsv(hcm)
  }

  // ---------------------------------------------------------------- from HSI

  /** `hsi_to_rgb`: alpha kept and the channels average to the intensity;
      an unsaturated colour is the grey of its intensity. No channel of an
      in-range colour is negative, but channels can exceed 1: the result is
      not clamped (see `HsiLeavesRgbCube`). The source relies on the hue
      lying in `[0, 1)`. */
  function HsiToRgb(color: ColorHSIA): (rgb: ColorRGBA)
    requires 0.0 <= color.h < 1.0
    ensures rgb.a == color.a
    ensures rgb.r + rgb.g + rgb.b == 3.0 * color.i
    ensures color.s == 0.0 ==> rgb.r == rgb.g == rgb.b == color.i
    ensures color.Valid() ==> 0.0 <= Min3(rgb.r, rgb.g, rgb.b)
  {
    var z := SectorWave(color.h);
    var hcm := FromHsi(color);
    FromHsiHub(color, z);
    ToRgbOf(hcm);
    ToRgbSpread(hcm, z);
    HsiToRgbFacts(color, z, hcm, ToRgb(hcm));
    ToRgb(hcm)
  }

  lemma HsiToRgbFacts(color: ColorHSIA, z: real, hcm: ColorHCMA, rgb: ColorRGBA)
    requires HsiHub(color, z, hcm) && RgbOf(hcm, rgb)
    requires Spread(hcm, z, rgb.r + rgb.g + rgb.b)
    ensures rgb.a == color.a
    ensures rgb.r + rgb.g + rgb.b == 3.0 * color.i
    ensures color.s == 0.0 ==> rgb.r == rgb.g == rgb.b == color.i
    ensures color.Valid() ==> 0.0 <= Min3(rgb.r, rgb.g, rgb.b)
  {
    if color.Valid() || color.s == 0.0 {
      MinMaxOf(hcm.m, hcm.m + hcm.c, rgb.r, rgb.g, rgb.b);
    }
  }

  /** `hsi_to_hsv`: hue and alpha kept; an unsaturated colour stays
      unsaturated with value equal to its intensity. */
  function HsiToHsv(color: ColorHSIA): (hsv: ColorHSVA)
    ensures hsv.h == color.h && hsv.a == color.a
    ensures color.s == 0.0 ==> hsv.s == 0.0 && hsv.v == color.i
    ensures color.Valid() ==> InUnit(hsv.s) && 0.0 <= hsv.v
  {
    var z := SectorWave(color.h);
    var hcm := FromHsi(color);
    FromHsiHub(color, z);
    ToHsvOf(hcm);
    HsiToHsvFacts(color, z, hcm, ToHsv(hcm));
    ToHsv(hcm)
  }

  lemma HsiToHsvFacts(color: ColorHSIA, z: real, hcm: ColorHCMA, hsv: ColorHSVA)
    requires HsiHub(color, z, hcm) && HsvOf(hcm, hsv)
    ensures hsv.h == color.h && hsv.a == color.a
    ensures color.s == 0.0 ==> hsv.s == 0.0 && hsv.v == color.i
    ensures color.Valid() ==> InUnit(hsv.s) && 0.0 <= hsv.v
  {
    if color.Valid() && hsv.v != 0.0 {
      PartOfWhole(hsv.s, hsv.v, hcm.c);
    }
  }

  /** `hsi_to_hsl`: hue and alpha kept; an unsaturated colour stays
      unsaturated with lightness equal to its intensity. */
  function HsiToHsl(color: ColorHSIA): (hsl: ColorHSLA)
    ensures hsl.h == color.h && hsl.a == color.a
    ensures color.s == 0.0 ==> hsl.s == 0.0 && hsl.l == color.i
    ensures color.Valid() ==> 0.0 <= hsl.l
  {
    var hcm := FromHsi(color);
    FromHsiHub(color, SectorWave(color.h));
    ToHslOf(hcm);
    ToHsl(hcm)
  }
}
