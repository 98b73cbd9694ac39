/** The conversion table the tests of `utils.rs` check the hub against:
    each row is one colour in all five representations, and every encoder
    and every decoder must map between the row's hub and the row's colour.
    The table writes its entries to three or four decimals; the rows here
    carry the exact values those decimals round. The table's colours are
    opaque; every row here holds for any alpha, which all five forms carry
    alike. */
module TestRows {
  import opened Definitions
  import opened Hub

  /** One row of the table: every encoder maps its colour to the hub and
      every decoder maps the hub back to its colour. */
  predicate Row(hub: ColorHCMA, rgb: ColorRGBA, hsv: ColorHSVA, hsl: ColorHSLA, hsi: ColorHSIA) {
    && FromRgb(rgb) == hub && FromHsv(hsv) == hub && FromHsl(hsl) == hub && FromHsi(hsi) == hub
    && 0.0 <= hub.h < 1.0 && ToRgb(hub) == rgb
    && ToHsv(hub) == hsv && ToHsl(hub) == hsl && ToHsi(hub) == hsi
  }

  /** `from_hsv` gives the hub with chroma `v s` and minimum `v - v s`. */
  lemma HsvEncodes(hsv: ColorHSVA, hub: ColorHCMA)
    requires hub.h == hsv.h && hub.a == hsv.a
    requires hub.c == hsv.v * hsv.s && hub.m == hsv.v - hub.c
    ensures FromHsv(hsv) == hub
  {
  }

  /** `from_hsl` gives the hub with chroma `w s` and minimum `l - w s / 2`,
      where `w` is `1 - |2l - 1|`. */
  lemma HslEncodes(hsl: ColorHSLA, w: real, hub: ColorHCMA)
    requires (2.0 * hsl.l < 1.0 ==> w == 2.0 * hsl.l) && (2.0 * hsl.l >= 1.0 ==> w == 2.0 - 2.0 * hsl.l)
    requires hub.h == hsl.h && hub.a == hsl.a
    requires hub.c == w * hsl.s && hub.m == hsl.l - hub.c / 2.0
    ensures FromHsl(hsl) == hub
  {
  }

  /** `from_hsi` gives the hub whose chroma and minimum make the channels
      `m`, `m + c` and `m + c z` average to the intensity, with `m = i (1 - s)`,
      `z` being the wave of the hue. */
  lemma HsiEncodes(hsi: ColorHSIA, z: real, hub: ColorHCMA)
    requires 0.0 <= hsi.h < 1.0 && z == HexWave(hsi.h)
    requires hub.h == hsi.h && hub.a == hsi.a
    requires hub.c * (1.0 + z) == 3.0 * hsi.i * hsi.s && hub.m == hsi.i * (1.0 - hsi.s)
    ensures FromHsi(hsi) == hub
  {
    WaveOnSector(hsi.h);
    assert FromHsi(hsi) == FromHsiAt(hsi, z);
    HsiEncodesAt(hsi, z, hub);
  }

  /** `HsiEncodes` for a given wave `z` in `[0, 1]`. */
  lemma HsiEncodesAt(hsi: ColorHSIA, z: real, hub: ColorHCMA)
    requires 0.0 <= z <= 1.0
    requires hub.h == hsi.h && hub.a == hsi.a
    requires hub.c * (1.0 + z) == 3.0 * hsi.i * hsi.s && hub.m == hsi.i * (1.0 - hsi.s)
    ensures FromHsiAt(hsi, z) == hub
  {
    Quotient(3.0 * hsi.i * hsi.s, 1.0 + z, hub.c);
  }

  /** `to_rgb` on a hub on the circle is the six-sector table. */
  lemma RgbDecodes(hub: ColorHCMA, z: real, rgb: ColorRGBA)
    requires 0.0 <= hub.h < 1.0 && z == HexWave(hub.h) && rgb == SectorRgbAt(hub, z)
    ensures ToRgb(hub) == rgb
  {
    ToRgbIsSectorRgb(hub);
  }

  /** A row holds once its entries satisfy the defining equations of the
      encoders, with `w = 1 - |2l - 1|` and `z` the wave of the hue, and the
      hub decodes to the RGB entry through the six-sector table: the other
      directions follow from the round-trip lemmas, every entry being in
      the normal form its decoder produces. */
  lemma RowFromEquations(hub: ColorHCMA, z: real, w: real, rgb: ColorRGBA, hsv: ColorHSVA, hsl: ColorHSLA, hsi: ColorHSIA)
    requires 0.0 <= hub.h < 1.0 && hub.Canonical() && z == HexWave(hub.h) && rgb == SectorRgbAt(hub, z)
    requires hsv.h == hub.h && hsv.a == hub.a && hub.c == hsv.v * hsv.s && hub.m == hsv.v - hub.c
    requires hsv.v == 0.0 ==> hsv.s == 0.0
    requires (2.0 * hsl.l < 1.0 ==> w == 2.0 * hsl.l) && (2.0 * hsl.l >= 1.0 ==> w == 2.0 - 2.0 * hsl.l)
    requires hsl.h == hub.h && hsl.a == hub.a && hub.c == w * hsl.s && hub.m == hsl.l - hub.c / 2.0
    requires hsl.l == 0.0 || hsl.l == 1.0 ==> hsl.s == 0.0
    requires hsi.h == hub.h && hsi.a == hub.a
    requires hub.c * (1.0 + z) == 3.0 * hsi.i * hsi.s && hub.m == hsi.i * (1.0 - hsi.s)
    requires hsi.i == 0.0 ==> hsi.s == 0.0
    ensures Row(hub, rgb, hsv, hsl, hsi)
  {
    HsvEncodes(hsv, hub);
    HslEncodes(hsl, w, hub);
    HsiEncodes(hsi, z, hub);
    RgbDecodes(hub, z, rgb);
    ToRgbThenFromRgb(hub);
    FromHsvThenToHsv(hsv);
    FromHslThenToHsl(hsl);
    FromHsiThenToHsi(hsi);
  }

  /** Every grey is a row, the table's white, mid grey and black among them:
      hue 0, no chroma and no saturation, its level being the value, the
      lightness and the intensity alike. */
  lemma GreyscaleRow(v: real, a: real)
    ensures Row(ColorHCMA(0.0, 0.0, v, a), ColorRGBA(v, v, v, a),
                ColorHSVA(0.0, 0.0, v, a), ColorHSLA(0.0, 0.0, v, a),
                ColorHSIA(0.0, 0.0, v, a))
  {
    var w := if 2.0 * v < 1.0 then 2.0 * v else 2.0 - 2.0 * v;
    RowFromEquations(ColorHCMA(0.0, 0.0, v, a), 0.0, w, ColorRGBA(v, v, v, a),
                     ColorHSVA(0.0, 0.0, v, a), ColorHSLA(0.0, 0.0, v, a),
                     ColorHSIA(0.0, 0.0, v, a));
  }

  /** Red; its intensity is exactly one third. */
  lemma RedRow(a: real)
    ensures Row(ColorHCMA(0.0, 1.0, 0.0, a), ColorRGBA(1.0, 0.0, 0.0, a),
                ColorHSVA(0.0, 1.0, 1.0, a), ColorHSLA(0.0, 1.0, 0.5, a),
                ColorHSIA(0.0, 1.0, 1.0 / 3.0, a))
  {
    RowFromEquations(ColorHCMA(0.0, 1.0, 0.0, a), 0.0, 1.0, ColorRGBA(1.0, 0.0, 0.0, a),
                     ColorHSVA(0.0, 1.0, 1.0, a), ColorHSLA(0.0, 1.0, 0.5, a),
                     ColorHSIA(0.0, 1.0, 1.0 / 3.0, a));
  }

  /** Dark yellow, on the first secondary hue. */
  lemma YellowRow(a: real)
    ensures Row(ColorHCMA(1.0 / 6.0, 0.75, 0.0, a), ColorRGBA(0.75, 0.75, 0.0, a),
                ColorHSVA(1.0 / 6.0, 1.0, 0.75, a), ColorHSLA(1.0 / 6.0, 1.0, 0.375, a),
                ColorHSIA(1.0 / 6.0, 1.0, 0.5, a))
  {
    RowFromEquations(ColorHCMA(1.0 / 6.0, 0.75, 0.0, a), 1.0, 0.75, ColorRGBA(0.75, 0.75, 0.0, a),
                     ColorHSVA(1.0 / 6.0, 1.0, 0.75, a), ColorHSLA(1.0 / 6.0, 1.0, 0.375, a),
                     ColorHSIA(1.0 / 6.0, 1.0, 0.5, a));
  }

  /** Dark green; its intensity is exactly one sixth. */
  lemma GreenRow(a: real)
    ensures Row(ColorHCMA(1.0 / 3.0, 0.5, 0.0, a), ColorRGBA(0.0, 0.5, 0.0, a),
                ColorHSVA(1.0 / 3.0, 1.0, 0.5, a), ColorHSLA(1.0 / 3.0, 1.0, 0.25, a),
                ColorHSIA(1.0 / 3.0, 1.0, 1.0 / 6.0, a))
  {
    RowFromEquations(ColorHCMA(1.0 / 3.0, 0.5, 0.0, a), 0.0, 0.5, ColorRGBA(0.0, 0.5, 0.0, a),
                     ColorHSVA(1.0 / 3.0, 1.0, 0.5, a), ColorHSLA(1.0 / 3.0, 1.0, 0.25, a),
                     ColorHSIA(1.0 / 3.0, 1.0, 1.0 / 6.0, a));
  }

  /** Light cyan; its intensity is exactly five sixths. */
  lemma CyanRow(a: real)
    ensures Row(ColorHCMA(0.5, 0.5, 0.5, a), ColorRGBA(0.5, 1.0, 1.0, a),
                ColorHSVA(0.5, 0.5, 1.0, a), ColorHSLA(0.5, 1.0, 0.75, a),
                ColorHSIA(0.5, 0.4, 5.0 / 6.0, a))
  {
    RowFromEquations(ColorHCMA(0.5, 0.5, 0.5, a), 1.0, 0.5, ColorRGBA(0.5, 1.0, 1.0, a),
                     ColorHSVA(0.5, 0.5, 1.0, a), ColorHSLA(0.5, 1.0, 0.75, a),
                     ColorHSIA(0.5, 0.4, 5.0 / 6.0, a));
  }

  /** Light blue; its intensity is exactly two thirds. */
  lemma BlueRow(a: real)
    ensures Row(ColorHCMA(2.0 / 3.0, 0.5, 0.5, a), ColorRGBA(0.5, 0.5, 1.0, a),
                ColorHSVA(2.0 / 3.0, 0.5, 1.0, a), ColorHSLA(2.0 / 3.0, 1.0, 0.75, a),
                ColorHSIA(2.0 / 3.0, 0.25, 2.0 / 3.0, a))
  {
    RowFromEquations(ColorHCMA(2.0 / 3.0, 0.5, 0.5, a), 0.0, 0.5, ColorRGBA(0.5, 0.5, 1.0, a),
                     ColorHSVA(2.0 / 3.0, 0.5, 1.0, a), ColorHSLA(2.0 / 3.0, 1.0, 0.75, a),
                     ColorHSIA(2.0 / 3.0, 0.25, 2.0 / 3.0, a));
  }

  /** Muted magenta: value saturation exactly two thirds, intensity
      `7/12` and intensity saturation `4/7`. */
  lemma MagentaRow(a: real)
    ensures Row(ColorHCMA(5.0 / 6.0, 0.5, 0.25, a), ColorRGBA(0.75, 0.25, 0.75, a),
                ColorHSVA(5.0 / 6.0, 2.0 / 3.0, 0.75, a), ColorHSLA(5.0 / 6.0, 0.5, 0.5, a),
                ColorHSIA(5.0 / 6.0, 4.0 / 7.0, 7.0 / 12.0, a))
  {
    RowFromEquations(ColorHCMA(5.0 / 6.0, 0.5, 0.25, a), 1.0, 1.0, ColorRGBA(0.75, 0.25, 0.75, a),
                     ColorHSVA(5.0 / 6.0, 2.0 / 3.0, 0.75, a), ColorHSLA(5.0 / 6.0, 0.5, 0.5, a),
                     ColorHSIA(5.0 / 6.0, 4.0 / 7.0, 7.0 / 12.0, a));
  }
}
