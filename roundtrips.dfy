/** Laws relating the public conversions of `utils.rs` to each other:
    which round trips give their input back (and exactly when), which
    direct conversions agree with going through RGB, and the two places
    where HSI does not fit the RGB cube. */
module RoundTrips {
  import opened Float
  import opened Definitions
  import opened Hub
  import opened Utils

  // ---------------------------------------------------- RGB -> X -> RGB

  /** Every RGB colour survives a trip through HSV, except a black-valued
      colour that is not grey, which only an invalid colour can be. */
  lemma RgbThroughHsv(color: ColorRGBA)
    ensures HsvToRgb(RgbToHsv(color)) == color <==> (Max3(color.r, color.g, color.b) == 0.0 ==> Grey(color))
  {
    var hcm := FromRgb(color);
    FromRgbHub(color);
    FromRgbThenToRgb(color);
    ToHsvThenFromHsv(hcm);
    var back := FromHsv(ToHsv(hcm));
    assert HsvToRgb(RgbToHsv(color)) == ToRgb(back);
    if Max3(color.r, color.g, color.b) == 0.0 && !Grey(color) {
      ToHsvOf(hcm);
      FromHsvHub(ToHsv(hcm));
      assert back.c == 0.0;
      ToRgbOf(back);
      assert Grey(ToRgb(back));
    }
  }

  /** HSV colour survives a trip through RGB exactly when it is in the
      normal form the hub can record: black has no saturation and an
      unsaturated colour has hue 0. */
  lemma HsvThroughRgb(color: ColorHSVA)
    requires color.Valid()
    ensures RgbToHsv(HsvToRgb(color)) == color <==>
      (color.v == 0.0 ==> color.s == 0.0) && (color.s == 0.0 ==> color.h == 0.0)
  {
    var hcm := FromHsv(color);
    FromHsvHub(color);
    var back := FromRgb(ToRgb(hcm));
    ToRgbThenFromRgbNormalises(hcm);
    assert RgbToHsv(HsvToRgb(color)) == ToHsv(back);
    if hcm.c == 0.0 {
      ToHsvChromaless(back);
      HsvGreyForm(color, hcm);
    } else {
      assert back == hcm;
      FromHsvThenToHsv(color);
    }
  }

  /** The HSV grey a chromaless hub comes back as after a trip through RGB
      is the colour it came from exactly when that colour was already in
      normal form. */
  lemma HsvGreyForm(color: ColorHSVA, hcm: ColorHCMA)
    requires HsvHub(color, hcm) && color.Valid() && hcm.c == 0.0
    ensures ColorHSVA(0.0, 0.0, hcm.m, hcm.a) == color <==>
      (color.v == 0.0 ==> color.s == 0.0) && (color.s == 0.0 ==> color.h == 0.0)
  {
    ZeroProduct(color.v, color.s);
  }

  /** Every RGB colour survives a trip through HSL, except a colour whose
      lightness is 0 or 1 without being grey, which only an invalid colour
      can be. */
  lemma RgbThroughHsl(color: ColorRGBA)
    ensures var total := Max3(color.r, color.g, color.b) + Min3(color.r, color.g, color.b);
      HslToRgb(RgbToHsl(color)) == color <==> (total == 0.0 || total == 2.0 ==> Grey(color))
  {
    var hcm := FromRgb(color);
    FromRgbHub(color);
    FromRgbThenToRgb(color);
    var hsl := ToHsl(hcm);
    ToHslOf(hcm);
    var back := FromHsl(hsl);
    FromHslHub(hsl);
    ToHslThenFromHsl(hcm);
    ToRgbOf(back);
    assert HslToRgb(RgbToHsl(color)) == ToRgb(back);
    HslTrip(color, hcm, hsl, back, ToRgb(back));
  }

  /** `RgbThroughHsl` on the values the trip passes through. */
  lemma HslTrip(color: ColorRGBA, hcm: ColorHCMA, hsl: ColorHSLA, back: ColorHCMA, rgb: ColorRGBA)
    requires RgbHub(color, hcm) && HslOf(hcm, hsl) && HslHub(hsl, back) && RgbOf(back, rgb)
    requires var l := hcm.m + hcm.c / 2.0; back == hcm <==> (l == 0.0 || l == 1.0 ==> hcm.c == 0.0)
    requires back == hcm ==> rgb == color
    ensures var total := Max3(color.r, color.g, color.b) + Min3(color.r, color.g, color.b);
      rgb == color <==> (total == 0.0 || total == 2.0 ==> Grey(color))
  {
    var total := Max3(color.r, color.g, color.b) + Min3(color.r, color.g, color.b);
    if (total == 0.0 || total == 2.0) && !Grey(color) {
      assert hsl.s == 0.0;
      assert back.c == 0.0;
      assert Grey(rgb);
    }
  }

  /** Every RGB colour survives a trip through HSI, except a colour whose
      channels sum to 0 without being grey, which only an invalid colour
      can be. */
  lemma RgbThroughHsi(color: ColorRGBA)
    ensures HsiToRgb(RgbToHsi(color)) == color <==> (color.r + color.g + color.b == 0.0 ==> Grey(color))
  {
    var hcm := FromRgb(color);
    FromRgbHub(color);
    FromRgbThenToRgb(color);
    ToHsiThenFromHsi(hcm);
    var hsi := ToHsi(hcm);
    var back := FromHsi(hsi);
    assert HsiToRgb(RgbToHsi(color)) == ToRgb(back);
    if color.r + color.g + color.b == 0.0 && !Grey(color) {
      assert hsi.i == 0.0;
      ToHsiOf(hcm, SectorWave(hcm.h));
      FromHsiUnsaturated(hsi);
      ToRgbOf(back);
      assert Grey(ToRgb(back));
    }
  }

  // ---------------------------------------------------- X -> RGB -> X

  /** An HSL colour survives a trip through RGB exactly when it is in the
      normal form the hub can record: black and white have no saturation
      and an unsaturated colour has hue 0. */
  lemma HslThroughRgb(color: ColorHSLA)
    requires color.Valid()
    ensures RgbToHsl(HslToRgb(color)) == color <==>
      (color.l == 0.0 || color.l == 1.0 ==> color.s == 0.0) && (color.s == 0.0 ==> color.h == 0.0)
  {
    var hcm := FromHsl(color);
    FromHslHub(color);
    var back := FromRgb(ToRgb(hcm));
    ToRgbThenFromRgbNormalises(hcm);
    assert RgbToHsl(HslToRgb(color)) == ToHsl(back);
    if hcm.c == 0.0 {
      ToHslChromaless(back);
      HslGreyForm(color, hcm);
    } else {
      assert back == hcm;
      FromHslThenToHsl(color);
    }
  }

  /** `HsvGreyForm` for HSL. */
  lemma HslGreyForm(color: ColorHSLA, hcm: ColorHCMA)
    requires HslHub(color, hcm) && color.Valid() && hcm.c == 0.0
    ensures ColorHSLA(0.0, 0.0, hcm.m, hcm.a) == color <==>
      (color.l == 0.0 || color.l == 1.0 ==> color.s == 0.0) && (color.s == 0.0 ==> color.h == 0.0)
  {
    var w := 1.0 - Abs(2.0 * color.l - 1.0);
    ZeroProduct(w, color.s);
    assert w == 0.0 <==> color.l == 0.0 || color.l == 1.0;
  }

  /** An HSI colour survives a trip through RGB exactly when it is in the
      normal form the hub can record: black has no saturation and an
      unsaturated colour has hue 0. */
  lemma HsiThroughRgb(color: ColorHSIA)
    requires color.Valid()
    ensures RgbToHsi(HsiToRgb(color)) == color <==>
      (color.i == 0.0 ==> color.s == 0.0) && (color.s == 0.0 ==> color.h == 0.0)
  {
    var z := SectorWave(color.h);
    var hcm := FromHsi(color);
    FromHsiHub(color, z);
    var back := FromRgb(ToRgb(hcm));
    ToRgbThenFromRgbNormalises(hcm);
    assert RgbToHsi(HsiToRgb(color)) == ToHsi(back);
    if hcm.c == 0.0 {
      ToHsiChromaless(back);
      HsiGreyForm(color, z, hcm);
    } else {
      assert back == hcm;
      FromHsiThenToHsi(color);
    }
  }

  /** `HsvGreyForm` for HSI. */
  lemma HsiGreyForm(color: ColorHSIA, z: real, hcm: ColorHCMA)
    requires HsiHub(color, z, hcm) && color.Valid() && hcm.c == 0.0
    ensures ColorHSIA(0.0, 0.0, hcm.m, hcm.a) == color <==>
      (color.i == 0.0 ==> color.s == 0.0) && (color.s == 0.0 ==> color.h == 0.0)
  {
    assert hcm.c * (1.0 + z) == 0.0;
    assert hcm.m == color.i;
  }

  // ------------------------------------------------- among HSV, HSL, HSI

  /** A hub with no negative channel survives encoding into HSV. */
  lemma HubThroughHsv(hcm: ColorHCMA)
    requires 0.0 <= hcm.c && 0.0 <= hcm.m
    ensures FromHsv(ToHsv(hcm)) == hcm
  {
    ToHsvThenFromHsv(hcm);
  }

  /** A hub inside the RGB cube survives encoding into HSL: lightness 0 or
      1 leaves it no room for chroma. */
  lemma HubThroughHsl(hcm: ColorHCMA)
    requires 0.0 <= hcm.c && 0.0 <= hcm.m && hcm.m + hcm.c <= 1.0
    ensures FromHsl(ToHsl(hcm)) == hcm
  {
    ToHslThenFromHsl(hcm);
  }

  /** A hub with no negative channel survives encoding into HSI. */
  lemma HubThroughHsi(hcm: ColorHCMA)
    requires 0.0 <= hcm.c && 0.0 <= hcm.m
    ensures FromHsi(ToHsi(hcm)) == hcm
  {
    if ToHsi(hcm).i == 0.0 {
      HsiDarkIsBlack(hcm);
    }
    ToHsiThenFromHsi(hcm);
  }

  /** An HSV colour survives a trip through HSL unless it is black with a
      saturation. */
  lemma HsvThroughHsl(color: ColorHSVA)
    requires color.Valid()
    ensures HslToHsv(HsvToHsl(color)) == color <==> (color.v == 0.0 ==> color.s == 0.0)
  {
    var hcm := FromHsv(color);
    HubThroughHsl(hcm);
    assert HslToHsv(HsvToHsl(color)) == ToHsv(FromHsl(ToHsl(hcm)));
    FromHsvThenToHsv(color);
  }

  /** An HSV colour survives a trip through HSI unless it is black with a
      saturation. */
  lemma HsvThroughHsi(color: ColorHSVA)
    requires color.Valid()
    ensures HsiToHsv(HsvToHsi(color)) == color <==> (color.v == 0.0 ==> color.s == 0.0)
  {
    var hcm := FromHsv(color);
    HubThroughHsi(hcm);
    assert HsiToHsv(HsvToHsi(color)) == ToHsv(FromHsi(ToHsi(hcm)));
    FromHsvThenToHsv(color);
  }

  /** An HSL colour survives a trip through HSV unless it is black or white
      with a saturation. */
  lemma HslThroughHsv(color: ColorHSLA)
    requires color.Valid()
    ensures HsvToHsl(HslToHsv(color)) == color <==> (color.l == 0.0 || color.l == 1.0 ==> color.s == 0.0)
  {
    var hcm := FromHsl(color);
    HubThroughHsv(hcm);
    assert HsvToHsl(HslToHsv(color)) == ToHsl(FromHsv(ToHsv(hcm)));
    FromHslThenToHsl(color);
  }

  /** An HSL colour survives a trip through HSI unless it is black or white
      with a saturation. */
  lemma HslThroughHsi(color: ColorHSLA)
    requires color.Valid()
    ensures HsiToHsl(HslToHsi(color)) == color <==> (color.l == 0.0 || color.l == 1.0 ==> color.s == 0.0)
  {
    var hcm := FromHsl(color);
    HubThroughHsi(hcm);
    assert HsiToHsl(HslToHsi(color)) == ToHsl(FromHsi(ToHsi(hcm)));
    FromHslThenToHsl(color);
  }

  /** An HSI colour survives a trip through HSV unless it is black with a
      saturation: HSV records any hub with no negative channel, even one
      outside the RGB cube. */
  lemma HsiThroughHsv(color: ColorHSIA)
    requires color.Valid()
    ensures HsvToHsi(HsiToHsv(color)) == color <==> (color.i == 0.0 ==> color.s == 0.0)
  {
    var hcm := FromHsi(color);
    HubThroughHsv(hcm);
    assert HsvToHsi(HsiToHsv(color)) == ToHsi(FromHsv(ToHsv(hcm)));
    FromHsiThenToHsi(color);
  }

  /** An HSI colour whose RGB form lies in the cube survives a trip through
      HSL unless it is black with a saturation (see
      `HsiThroughHslLosesColour` for one outside the cube). */
  lemma HsiThroughHsl(color: ColorHSIA)
    requires color.Valid() && HsiToRgb(color).Valid()
    ensures HslToHsi(HsiToHsl(color)) == color <==> (color.i == 0.0 ==> color.s == 0.0)
  {
    var hcm := FromHsi(color);
    FromHsiHub(color, SectorWave(color.h));
    ToRgbOf(hcm);
    assert HsiToRgb(color) == ToRgb(hcm);
    HubInCube(hcm, ToRgb(hcm));
    HubThroughHsl(hcm);
    assert HslToHsi(HsiToHsl(color)) == ToHsi(FromHsl(ToHsl(hcm)));
    FromHsiThenToHsi(color);
  }

  /** A hub whose RGB form is in range lies in the RGB cube. */
  lemma HubInCube(hcm: ColorHCMA, rgb: ColorRGBA)
    requires RgbOf(hcm, rgb) && 0.0 <= hcm.c && rgb.Valid()
    ensures hcm.m + hcm.c <= 1.0
  {
  }

  // ------------------------------------------------ direct or through RGB

  /** Decoding a hub, or the hub that comes back from its RGB form, gives
      the same HSV colour unless the hub is chromaless with a hue, which
      the trip through RGB resets to 0. */
  lemma HsvViaRgb(hcm: ColorHCMA)
    requires 0.0 <= hcm.h < 1.0 && 0.0 <= hcm.c
    ensures ToHsv(FromRgb(ToRgb(hcm))) == ToHsv(hcm) <==> (hcm.c == 0.0 ==> hcm.h == 0.0)
  {
    ToRgbThenFromRgbNormalises(hcm);
  }

  /** `HsvViaRgb` for HSL. */
  lemma HslViaRgb(hcm: ColorHCMA)
    requires 0.0 <= hcm.h < 1.0 && 0.0 <= hcm.c
    ensures ToHsl(FromRgb(ToRgb(hcm))) == ToHsl(hcm) <==> (hcm.c == 0.0 ==> hcm.h == 0.0)
  {
    ToRgbThenFromRgbNormalises(hcm);
  }

  /** `HsvViaRgb` for HSI. */
  lemma HsiViaRgb(hcm: ColorHCMA)
    requires 0.0 <= hcm.h < 1.0 && 0.0 <= hcm.c
    ensures ToHsi(FromRgb(ToRgb(hcm))) == ToHsi(hcm) <==> (hcm.c == 0.0 ==> hcm.h == 0.0)
  {
    ToRgbThenFromRgbNormalises(hcm);
  }

  /** `hsv_to_hsl` agrees with `hsv_to_rgb` followed by `rgb_to_hsl` unless
      the colour is black or unsaturated and has a hue. */
  lemma HsvToHslViaRgb(color: ColorHSVA)
    requires color.Valid()
    ensures HsvToHsl(color) == RgbToHsl(HsvToRgb(color)) <==> (color.v == 0.0 || color.s == 0.0 ==> color.h == 0.0)
  {
    var hcm := FromHsv(color);
    FromHsvHub(color);
    HsvChromaless(color, hcm);
    HslViaRgb(hcm);
  }

  /** `hsv_to_hsi` agrees with `hsv_to_rgb` followed by `rgb_to_hsi` unless
      the colour is black or unsaturated and has a hue. */
  lemma HsvToHsiViaRgb(color: ColorHSVA)
    requires color.Valid()
    ensures HsvToHsi(color) == RgbToHsi(HsvToRgb(color)) <==> (color.v == 0.0 || color.s == 0.0 ==> color.h == 0.0)
  {
    var hcm := FromHsv(color);
    FromHsvHub(color);
    HsvChromaless(color, hcm);
    HsiViaRgb(hcm);
  }

  /** `hsl_to_hsv` agrees with `hsl_to_rgb` followed by `rgb_to_hsv` unless
      the colour is black, white or unsaturated and has a hue. */
  lemma HslToHsvViaRgb(color: ColorHSLA)
    requires color.Valid()
    ensures HslToHsv(color) == RgbToHsv(HslToRgb(color)) <==>
      (color.l == 0.0 || color.l == 1.0 || color.s == 0.0 ==> color.h == 0.0)
  {
    var hcm := FromHsl(color);
    FromHslHub(color);
    HslChromaless(color, hcm);
    HsvViaRgb(hcm);
  }

  /** `hsl_to_hsi` agrees with `hsl_to_rgb` followed by `rgb_to_hsi` unless
      the colour is black, white or unsaturated and has a hue. */
  lemma HslToHsiViaRgb(color: ColorHSLA)
    requires color.Valid()
    ensures HslToHsi(color) == RgbToHsi(HslToRgb(color)) <==>
      (color.l == 0.0 || color.l == 1.0 || color.s == 0.0 ==> color.h == 0.0)
  {
    var hcm := FromHsl(color);
    FromHslHub(color);
    HslChromaless(color, hcm);
    HsiViaRgb(hcm);
  }

  /** The hub of an HSV colour has no chroma exactly for black and the
      unsaturated colours. */
  lemma HsvChromaless(color: ColorHSVA, hcm: ColorHCMA)
    requires HsvHub(color, hcm)
    ensures hcm.c == 0.0 <==> color.v == 0.0 || color.s == 0.0
  {
    ZeroProduct(color.v, color.s);
  }

  /** The hub of an HSL colour has no chroma exactly for black, white and
      the unsaturated colours. */
  lemma HslChromaless(color: ColorHSLA, hcm: ColorHCMA)
    requires HslHub(color, hcm)
    ensures hcm.c == 0.0 <==> color.l == 0.0 || color.l == 1.0 || color.s == 0.0
  {
    var w := 1.0 - Abs(2.0 * color.l - 1.0);
    assert w == 0.0 <==> color.l == 0.0 || color.l == 1.0;
    ZeroProduct(w, color.s);
  }

  /** A product is 0 exactly when a factor is. */
  lemma ZeroProduct(x: real, y: real)
    ensures x * y == 0.0 <==> x == 0.0 || y == 0.0
  {
  }

  /** `hsi_to_hsv` agrees with `hsi_to_rgb` followed by `rgb_to_hsv` unless
      the colour is black or unsaturated and has a hue. */
  lemma HsiToHsvViaRgb(color: ColorHSIA)
    requires color.Valid()
    ensures HsiToHsv(color) == RgbToHsv(HsiToRgb(color)) <==> (color.i == 0.0 || color.s == 0.0 ==> color.h == 0.0)
  {
    var hcm := FromHsi(color);
    FromHsiHub(color, SectorWave(color.h));
    HsvViaRgb(hcm);
  }

  /** `hsi_to_hsl` agrees with `hsi_to_rgb` followed by `rgb_to_hsl` unless
      the colour is black or unsaturated and has a hue. */
  lemma HsiToHslViaRgb(color: ColorHSIA)
    requires color.Valid()
    ensures HsiToHsl(color) == RgbToHsl(HsiToRgb(color)) <==> (color.i == 0.0 || color.s == 0.0 ==> color.h == 0.0)
  {
    var hcm := FromHsi(color);
    FromHsiHub(color, SectorWave(color.h));
    HslViaRgb(hcm);
  }

  // ------------------------------------------------------ outside the cube

  /** A fully saturated, fully intense red in HSI is three times brighter
      than the RGB cube allows: `hsi_to_rgb` does not clamp. */
  lemma HsiLeavesRgbCube()
    ensures ColorHSIA(0.0, 1.0, 1.0, 1.0).Valid()
    ensures HsiToRgb(ColorHSIA(0.0, 1.0, 1.0, 1.0)) == ColorRGBA(3.0, 0.0, 0.0, 1.0)
    ensures !ColorRGBA(3.0, 0.0, 0.0, 1.0).Valid()
  {
    assert ColorHSIA(0.0, 1.0, 1.0, 1.0).Valid();
    RedHsiHub(1.0);
    RedHubToRgb(3.0);
  }

  /** The hub of a fully saturated red of intensity `i` has chroma `3i`:
      red is at a trough of the wave. */
  lemma RedHsiHub(i: real)
    ensures FromHsi(ColorHSIA(0.0, 1.0, i, 1.0)) == ColorHCMA(0.0, 3.0 * i, 0.0, 1.0)
  {
    RedWave();
    RedHsiHubAt(i);
  }

  /** `RedHsiHub` once the wave is known to be 0. */
  lemma RedHsiHubAt(i: real)
    ensures FromHsiAt(ColorHSIA(0.0, 1.0, i, 1.0), 0.0) == ColorHCMA(0.0, 3.0 * i, 0.0, 1.0)
  {
    var c := 3.0 * i * 1.0 / (1.0 + 0.0);
    assert c == 3.0 * i;
  }

  /** The wave is 0 at red. */
  lemma RedWave()
    ensures SectorWave(0.0) == 0.0
  {
    WaveOnSector(0.0);
  }

  /** A black-based red hub of chroma `c` decodes to the RGB red `c`. */
  lemma RedHubToRgb(c: real)
    ensures ToRgb(ColorHCMA(0.0, c, 0.0, 1.0)) == ColorRGBA(c, 0.0, 0.0, 1.0)
  {
    ToRgbNearZero(ColorHCMA(0.0, c, 0.0, 1.0));
  }

  /** An in-range HSI colour outside the RGB cube loses its hue and
      saturation on a trip through HSL: its hub has lightness 1, which
      HSL can only record as white. */
  lemma HsiThroughHslLosesColour()
    ensures ColorHSIA(0.0, 1.0, 2.0 / 3.0, 1.0).Valid()
    ensures HslToHsi(HsiToHsl(ColorHSIA(0.0, 1.0, 2.0 / 3.0, 1.0))) == ColorHSIA(0.0, 0.0, 1.0, 1.0)
  {
    assert ColorHSIA(0.0, 1.0, 2.0 / 3.0, 1.0).Valid();
    OverfullRedThroughHsl();
    WhiteHslToHsi();
  }

  lemma OverfullRedThroughHsl()
    ensures HsiToHsl(ColorHSIA(0.0, 1.0, 2.0 / 3.0, 1.0)) == ColorHSLA(0.0, 0.0, 1.0, 1.0)
  {
    RedHsiHub(2.0 / 3.0);
    assert 3.0 * (2.0 / 3.0) == 2.0;
    OverfullRedToHsl();
  }

  lemma WhiteHslToHsi()
    ensures HslToHsi(ColorHSLA(0.0, 0.0, 1.0, 1.0)) == ColorHSIA(0.0, 0.0, 1.0, 1.0)
  {
    WhiteHub();
    ToHsiChromaless(ColorHCMA(0.0, 0.0, 1.0, 1.0));
  }

  /** The red hub of chroma 2 has lightness 1, so `to_hsl` records it as
      white. */
  lemma OverfullRedToHsl()
    ensures ToHsl(ColorHCMA(0.0, 2.0, 0.0, 1.0)) == ColorHSLA(0.0, 0.0, 1.0, 1.0)
  {
  }

  /** White in HSL has the chromaless hub of minimum 1. */
  lemma WhiteHub()
    ensures FromHsl(ColorHSLA(0.0, 0.0, 1.0, 1.0)) == ColorHCMA(0.0, 0.0, 1.0, 1.0)
  {
  }
}
