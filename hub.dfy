/** The conversion hub of `utils.rs`: the representation `ColorHCMA` (hue,
    chroma, minimum channel, alpha), one encoder and one decoder per colour
    space, and what composing them gives. */
module Hub {
  import opened Float
  import opened Definitions

  /** The hub: hue, chroma (max minus min channel), minimum channel, alpha. */
  datatype ColorHCMA = ColorHCMA(h: real, c: real, m: real, a: real) {

    /** What the hub of an in-range RGB, HSV or HSL colour satisfies:
        its channels `m` and `m + c` both lie in `[0, 1]`. */
    predicate InRange() {
      0.0 <= h < 1.0 && 0.0 <= c && 0.0 <= m && m + c <= 1.0 && InUnit(a)
    }

    /** The normal form `FromRgb` produces: a hue on the circle, a chroma
        that is never negative, and hue 0 when there is no chroma to carry it. */
    predicate Canonical() {
      0.0 <= h < 1.0 && 0.0 <= c && (c == 0.0 ==> h == 0.0)
    }
  }

  /** `m` is the least of three channels. */
  predicate IsLeast(m: real, x: real, y: real, z: real) {
    m <= x && m <= y && m <= z && (m == x || m == y || m == z)
  }

  /** `v` is the greatest of three channels. */
  predicate IsGreatest(v: real, x: real, y: real, z: real) {
    v >= x && v >= y && v >= z && (v == x || v == y || v == z)
  }

  /** The hexagonal wave `z = 1 - |(6h mod 2) - 1|`: 0 at the primaries and
      1 at the secondaries (yellow, cyan, magenta). */
  function SectorWave(h: real): (z: real)
    ensures 0.0 <= z <= 1.0
  {
    1.0 - Abs(RemEuclid(6.0 * h, 2.0) - 1.0)
  }

  /** The same wave written sector by sector for a hue in `[0, 1)`: it
      climbs from 0 to 1 and back down in every pair of sectors of `6h`. */
  function HexWave(h: real): (z: real)
    ensures 0.0 <= h < 1.0 ==> 0.0 <= z <= 1.0
  {
    var hp := 6.0 * h;
    if hp < 1.0 then hp
    else if hp < 2.0 then 2.0 - hp
    else if hp < 3.0 then hp - 2.0
    else if hp < 4.0 then 4.0 - hp
    else if hp < 5.0 then hp - 4.0
    else 6.0 - hp
  }

  /** Indices of the least and the greatest of three channels; ties go to
      the fixed order of the tests below, never to the same index twice. */
  function MinMaxIndices(colors: seq<real>): (ix: (int, int))
    requires |colors| == 3
    ensures 0 <= ix.0 < 3 && 0 <= ix.1 < 3 && ix.0 != ix.1
    ensures forall k :: 0 <= k < 3 ==> colors[ix.0] <= colors[k] <= colors[ix.1]
  {
    if colors[0] < colors[1] && colors[0] < colors[2] then
      (0, if colors[1] < colors[2] then 2 else 1)
    else if colors[1] < colors[2] then
      (1, if colors[0] < colors[2] then 2 else 0)
    else
      (2, if colors[0] < colors[1] then 1 else 0)
  }

  /** The hub form of an RGB colour. `hueMajor` is the hue sector pair
      (`hue' / 2`), `hueMinor` which half of the pair (`(hue' mod 2) / 1`),
      and `x` the middle channel above the minimum. A grey has no chroma and
      gets hue 0 without any division. */
  function FromRgb(color: ColorRGBA): (hcm: ColorHCMA)
    ensures hcm.a == color.a
    ensures IsLeast(hcm.m, color.r, color.g, color.b)
    ensures IsGreatest(hcm.m + hcm.c, color.r, color.g, color.b)
    ensures hcm.c == 0.0 <==> color.r == color.g == color.b
    ensures hcm.Canonical()
    ensures color.Valid() ==> hcm.InRange()
  {
    var colors := [color.r, color.g, color.b];
    var ix := MinMaxIndices(colors);
    var iMin := ix.0;
    var iMax := ix.1;
    var hueMajor := (iMin + 1) % 3;
    var hueMinor := ((iMax + 3) - iMin) % 3 - 1;
    var m := colors[iMin];
    var c := colors[iMax] - m;
    var x := colors[(hueMajor + (hueMinor + 1) % 2) % 3] - m;
    ExtremeChannels(color, colors, ix);
    if c == 0.0 then
      ColorHCMA(0.0, 0.0, m, color.a)
    else
      var hp := 2.0 * hueMajor as real + if hueMinor == 0 then x / c else 2.0 - x / c;
      FromRgbHue(colors, ix, c, x, hp);
      ColorHCMA(hp / 6.0, c, m, color.a)
  }

  /** The channels `MinMaxIndices` picks are the least and the greatest,
      and they differ unless the colour is a grey. */
  lemma ExtremeChannels(color: ColorRGBA, colors: seq<real>, ix: (int, int))
    requires colors == [color.r, color.g, color.b] && ix == MinMaxIndices(colors)
    ensures IsLeast(colors[ix.0], color.r, color.g, color.b)
    ensures IsGreatest(colors[ix.1], color.r, color.g, color.b)
    ensures colors[ix.1] - colors[ix.0] == 0.0 <==> color.r == color.g == color.b
  {
    assert colors[0] == color.r && colors[1] == color.g && colors[2] == color.b;
  }

  /** The six-sector hue `hp` that `FromRgb` builds lies in `[0, 6)`. */
  lemma FromRgbHue(colors: seq<real>, ix: (int, int), c: real, x: real, hp: real)
    requires |colors| == 3 && ix == MinMaxIndices(colors)
    requires c == colors[ix.1] - colors[ix.0] && c != 0.0
    requires var hueMajor := (ix.0 + 1) % 3;
             var hueMinor := ((ix.1 + 3) - ix.0) % 3 - 1;
             && x == colors[(hueMajor + (hueMinor + 1) % 2) % 3] - colors[ix.0]
             && hp == 2.0 * hueMajor as real + if hueMinor == 0 then x / c else 2.0 - x / c
    ensures 0.0 <= hp < 6.0
  {
    assert 0.0 <= x <= c;
    Ratio(x, c);
    if ix == (1, 0) {
      assert x > 0.0;
    }
  }

  /** Dividing a part by a positive whole. */
  lemma Ratio(x: real, c: real)
    requires c > 0.0
    ensures c * (x / c) == x
    ensures 0.0 <= x <= c ==> 0.0 <= x / c <= 1.0
    ensures x < c ==> x / c < 1.0
    ensures 0.0 < x ==> 0.0 < x / c
  {
    if x < c && x / c >= 1.0 {
      MulMonotone(1.0, x / c, c);
    }
  }

  /** A positive chroma scaled by a factor `t` in `[0, 1)` stays below the
      chroma, and dividing by the chroma gives `t` back. */
  lemma ScaleBelow(c: real, t: real)
    requires c > 0.0 && 0.0 <= t < 1.0
    ensures 0.0 <= c * t < c && (c * t) / c == t
  {
    MulMonotone(t, 1.0, c);
    MulMonotone(0.0, t, c);
  }

  /** A positive chroma scaled by a factor `t` in `(0, 1]` stays positive,
      and dividing by the chroma gives `t` back. */
  lemma ScaleAbove(c: real, t: real)
    requires c > 0.0 && 0.0 < t <= 1.0
    ensures 0.0 < c * t <= c && (c * t) / c == t
  {
    MulMonotone(t, 1.0, c);
    MulMonotone(0.0, t, c);
  }

  /** `y / i` is the `x` with `y = i x`. */
  lemma Quotient(y: real, i: real, x: real)
    requires i != 0.0 && y == i * x
    ensures y / i == x
  {
    assert (y / i) * i == y;
    assert (y / i - x) * i == 0.0;
  }

  /** Dividing by a non-zero `d` and multiplying back. */
  lemma Cancel(x: real, d: real)
    requires d != 0.0
    ensures d * (x / d) == x && (x / d) * d == x
  {
  }

  /** Scaling a non-negative quantity by a factor in `[0, 1]` keeps it
      between 0 and itself. */
  lemma ScaleWithin(x: real, k: real)
    ensures 0.0 <= x && 0.0 <= k <= 1.0 ==> 0.0 <= x * k <= x && 0.0 <= k * x <= x
  {
    if 0.0 <= x && 0.0 <= k <= 1.0 {
      MulMonotone(k, 1.0, x + 1.0);
      assert k * (x + 1.0) <= x + 1.0;
    }
  }

  /** `from_hsv`: chroma `v * s`, minimum `v - c`, hue and alpha kept. */
  function FromHsv(color: ColorHSVA): (hcm: ColorHCMA)
    ensures hcm.h == color.h && hcm.a == color.a
    ensures hcm.m + hcm.c == color.v
    ensures color.Valid() ==> hcm.InRange()
  {
    var c := color.v * color.s;
    var m := color.v - c;
    ScaleWithin(color.v, color.s);
    ColorHCMA(color.h, c, m, color.a)
  }

  /** `from_hsl`: chroma `(1 - |2l - 1|) * s`, minimum `l - c / 2`, hue and
      alpha kept. */
  function FromHsl(color: ColorHSLA): (hcm: ColorHCMA)
    ensures hcm.h == color.h && hcm.a == color.a
    ensures hcm.m + hcm.c / 2.0 == color.l
    ensures color.Valid() ==> hcm.InRange()
  {
    var w := 1.0 - Abs(2.0 * color.l - 1.0);
    var c := w * color.s;
    var m := color.l - 0.5 * c;
    HslChromaWithin(color.l, color.s, w, c);
    ColorHCMA(color.h, c, m, color.a)
  }

  /** The chroma `c = w s` and minimum `l - c / 2` that `from_hsl` computes
      lie in the RGB cube for an in-range lightness and saturation. */
  lemma HslChromaWithin(l: real, s: real, w: real, c: real)
    requires w == 1.0 - Abs(2.0 * l - 1.0) && c == w * s
    ensures InUnit(l) && InUnit(s) ==> 0.0 <= c && 0.0 <= l - 0.5 * c && (l - 0.5 * c) + c <= 1.0
  {
    if InUnit(l) && InUnit(s) {
      if 2.0 * l - 1.0 < 0.0 {
        assert w == 2.0 * l;
      } else {
        assert w == 2.0 - 2.0 * l;
      }
      ScaleWithin(w, s);
      assert 0.0 <= c <= w;
    }
  }

  /** `from_hsi`: chroma `3 i s / (1 + z)`, minimum `i (1 - s)`, hue and
      alpha kept, `z` being the hexagonal wave of the hue. The result need
      not be in range: an in-range HSI colour can lie outside the RGB cube. */
  function FromHsi(color: ColorHSIA): (hcm: ColorHCMA)
    ensures hcm.h == color.h && hcm.a == color.a
    ensures 3.0 * hcm.m + hcm.c * (1.0 + SectorWave(color.h)) == 3.0 * color.i
    ensures color.Valid() ==> 0.0 <= hcm.c && 0.0 <= hcm.m
  {
    FromHsiAt(color, SectorWave(color.h))
  }

  /** `from_hsi` once the wave `z` of the hue is known: the channels
      `m`, `m + c` and `m + c z` average to the intensity. */
  function FromHsiAt(color: ColorHSIA, z: real): (hcm: ColorHCMA)
    requires 0.0 <= z <= 1.0
    ensures hcm.h == color.h && hcm.a == color.a
    ensures 3.0 * hcm.m + hcm.c * (1.0 + z) == 3.0 * color.i
    ensures color.Valid() ==> 0.0 <= hcm.c && 0.0 <= hcm.m
  {
    var c := 3.0 * color.i * color.s / (1.0 + z);
    var m := color.i * (1.0 - color.s);
    HsiChromaWithin(color.i, color.s, z, c, m);
    ColorHCMA(color.h, c, m, color.a)
  }

  /** The chroma and minimum `from_hsi` computes account for three times
      the intensity, and are never negative for an in-range colour. */
  lemma HsiChromaWithin(i: real, s: real, z: real, c: real, m: real)
    requires 0.0 <= z <= 1.0
    requires c == 3.0 * i * s / (1.0 + z) && m == i * (1.0 - s)
    ensures 3.0 * m + c * (1.0 + z) == 3.0 * i
    ensures InUnit(i) && InUnit(s) ==> 0.0 <= c && 0.0 <= m
  {
    Quotient(3.0 * i * s, 1.0 + z, c);
    assert c * (1.0 + z) == 3.0 * i * s;
    assert m == i - i * s;
    if InUnit(i) && InUnit(s) {
      ScaleWithin(i, s);
      ScaleWithin(i, 1.0 - s);
      assert 0.0 <= 3.0 * i * s;
      Ratio(3.0 * i * s, 1.0 + z);
    }
  }

  /** `to_rgb`: rotate `[c, x, 0]` by the hue's sector pair `i` and lift
      every channel by `m`. The source relies on `0 <= h < 1`, where `i` is
      0, 1 or 2. Outside it the source goes wrong in three ways. For
      `1 <= h < 4/3`, `i` is 3 and the result is the colour of `h - 1`.
      For `h >= 4/3`, `3 - i` underflows the unsigned index. For `h < 0`,
      the cast to `usize` saturates `i` to 0 and the rotation is wrong:
      `h = -1/6` gives yellow where `5/6` gives magenta.
      What the channels are is stated by `SectorRgb` and `ToRgbIsSectorRgb`. */
  function ToRgb(hcm: ColorHCMA): (rgb: ColorRGBA)
    requires 0.0 <= hcm.h < 1.0
    ensures rgb.a == hcm.a
  {
    var hp := hcm.h * 6.0;
    var q := DivEuclid(hp, 2.0);
    assert 0.0 <= q < 3.0;
    Rotate(Arrange(hcm.c, RemEuclid(hp, 2.0)), q.Floor, hcm.m, hcm.a)
  }

  /** The order of the colours in `to_rgb`: with the remainder `rem` of
      `6h` by 2, `z = 1 - |rem - 1|` and `x = c z`, the chroma comes first
      in the first half of a sector pair and second in the other. */
  function Arrange(c: real, rem: real): (colors: seq<real>)
    ensures |colors| == 3
  {
    var z := 1.0 - Abs(rem - 1.0);
    var x := c * z;
    if rem < 1.0 then [c, x, 0.0] else [x, c, 0.0]
  }

  /** `Arrange` once the wave `z` is known. */
  lemma ArrangeAt(c: real, rem: real, z: real)
    requires z == 1.0 - Abs(rem - 1.0)
    ensures rem < 1.0 ==> Arrange(c, rem) == [c, c * z, 0.0]
    ensures 1.0 <= rem ==> Arrange(c, rem) == [c * z, c, 0.0]
  {
    var x := c * z;
    assert x == c * (1.0 - Abs(rem - 1.0));
    if rem < 1.0 {
      assert Arrange(c, rem) == [c, x, 0.0];
    } else {
      assert Arrange(c, rem) == [x, c, 0.0];
    }
  }

  /** The last step of `to_rgb`: red, green and blue read `colors` at
      `(3 - i) % 3`, `(4 - i) % 3` and `(5 - i) % 3`, lifted by `m`. */
  function Rotate(colors: seq<real>, i: int, m: real, a: real): (rgb: ColorRGBA)
    requires |colors| == 3 && 0 <= i < 3
    ensures i == 0 ==> rgb == ColorRGBA(colors[0] + m, colors[1] + m, colors[2] + m, a)
    ensures i == 1 ==> rgb == ColorRGBA(colors[2] + m, colors[0] + m, colors[1] + m, a)
    ensures i == 2 ==> rgb == ColorRGBA(colors[1] + m, colors[2] + m, colors[0] + m, a)
  {
    ColorRGBA(colors[(3 - i) % 3] + m, colors[(4 - i) % 3] + m, colors[(5 - i) % 3] + m, a)
  }

  /** `to_rgb` once the remainder `rem` of `6h` by 2 and its sector pair
      `i` are known. */
  lemma ToRgbParts(hcm: ColorHCMA, rem: real, i: int)
    requires 0.0 <= hcm.h < 1.0
    requires rem == RemEuclid(hcm.h * 6.0, 2.0) && i as real == DivEuclid(hcm.h * 6.0, 2.0)
    ensures 0 <= i < 3
    ensures ToRgb(hcm) == Rotate(Arrange(hcm.c, rem), i, hcm.m, hcm.a)
  {
    assert DivEuclid(hcm.h * 6.0, 2.0).Floor == i;
  }

  /** The textbook six-sector table: with `x = c z`, the sector of `6h`
      decides which channel gets `m + c`, which `m + x` and which `m`. */
  function SectorRgb(hcm: ColorHCMA): (rgb: ColorRGBA)
    requires 0.0 <= hcm.h < 1.0
    ensures rgb.a == hcm.a
  {
    SectorRgbAt(hcm, HexWave(hcm.h))
  }

  /** The six-sector table for a given wave value `z`. */
  function SectorRgbAt(hcm: ColorHCMA, z: real): (rgb: ColorRGBA)
    ensures rgb.a == hcm.a
  {
    var hp := 6.0 * hcm.h;
    var c, m, a := hcm.c, hcm.m, hcm.a;
    var x := c * z;
    if hp < 1.0 then ColorRGBA(m + c, m + x, m, a)
    else if hp < 2.0 then ColorRGBA(m + x, m + c, m, a)
    else if hp < 3.0 then ColorRGBA(m, m + c, m + x, a)
    else if hp < 4.0 then ColorRGBA(m, m + x, m + c, a)
    else if hp < 5.0 then ColorRGBA(m + x, m, m + c, a)
    else ColorRGBA(m + c, m, m + x, a)
  }

  /** What `to_rgb` promises of its channels: with no negative chroma each
      lies in `[m, m + c]`, one is `m` and one is `m + c`; an in-range hub
      gives an in-range colour. */
  lemma ToRgbSpan(hcm: ColorHCMA)
    requires 0.0 <= hcm.h < 1.0
    ensures var rgb := ToRgb(hcm);
      && (hcm.c >= 0.0 ==> IsLeast(hcm.m, rgb.r, rgb.g, rgb.b))
      && (hcm.c >= 0.0 ==> IsGreatest(hcm.m + hcm.c, rgb.r, rgb.g, rgb.b))
      && (hcm.InRange() ==> rgb.Valid())
  {
    ToRgbIsSectorRgb(hcm);
    SectorRgbChannels(hcm);
  }

  /** The channels `to_rgb` gives sum to `3m + c (1 + z)`: three times the
      intensity `to_hsi` computes, `z` being the wave of the hue. */
  lemma ToRgbSum(hcm: ColorHCMA, z: real)
    requires 0.0 <= hcm.h < 1.0 && z == SectorWave(hcm.h)
    ensures var rgb := ToRgb(hcm);
      rgb.r + rgb.g + rgb.b == 3.0 * hcm.m + hcm.c * (1.0 + z)
  {
    ToRgbIsSectorRgb(hcm);
    WaveOnSector(hcm.h);
    assert ToRgb(hcm) == SectorRgbAt(hcm, z);
    SectorRgbAtSum(hcm, z);
  }

  /** `ToRgbSpan` for the six-sector table. */
  lemma SectorRgbChannels(hcm: ColorHCMA)
    requires 0.0 <= hcm.h < 1.0
    ensures var rgb := SectorRgb(hcm);
      && (hcm.c >= 0.0 ==> IsLeast(hcm.m, rgb.r, rgb.g, rgb.b))
      && (hcm.c >= 0.0 ==> IsGreatest(hcm.m + hcm.c, rgb.r, rgb.g, rgb.b))
      && (hcm.InRange() ==> rgb.Valid())
  {
    if hcm.c >= 0.0 {
      SectorRgbBounds(hcm);
    }
  }

  /** With non-negative chroma the table's channels span exactly `[m, m + c]`. */
  lemma SectorRgbBounds(hcm: ColorHCMA)
    requires 0.0 <= hcm.h < 1.0 && hcm.c >= 0.0
    ensures var rgb := SectorRgb(hcm);
      IsLeast(hcm.m, rgb.r, rgb.g, rgb.b) && IsGreatest(hcm.m + hcm.c, rgb.r, rgb.g, rgb.b)
  {
    SectorRgbAtBounds(hcm, HexWave(hcm.h));
  }

  /** `SectorRgbBounds` for a given wave value in `[0, 1]`. */
  lemma SectorRgbAtBounds(hcm: ColorHCMA, z: real)
    requires hcm.c >= 0.0 && 0.0 <= z <= 1.0
    ensures var rgb := SectorRgbAt(hcm, z);
      IsLeast(hcm.m, rgb.r, rgb.g, rgb.b) && IsGreatest(hcm.m + hcm.c, rgb.r, rgb.g, rgb.b)
  {
    var x := hcm.c * z;
    ScaleWithin(hcm.c, z);
    assert 0.0 <= x <= hcm.c;
  }

  /** The table's channels sum to `3m + c (1 + z)`. */
  lemma SectorRgbAtSum(hcm: ColorHCMA, z: real)
    ensures var rgb := SectorRgbAt(hcm, z);
      rgb.r + rgb.g + rgb.b == 3.0 * hcm.m + hcm.c * (1.0 + z)
  {
    assert hcm.c * (1.0 + z) == hcm.c + hcm.c * z;
  }

  /** The source's rotation of `[c, x, 0]` is the six-sector table. */
  lemma ToRgbIsSectorRgb(hcm: ColorHCMA)
    requires 0.0 <= hcm.h < 1.0
    ensures ToRgb(hcm) == SectorRgb(hcm)
  {
    if 6.0 * hcm.h < 2.0 {
      ToRgbOnThird0(hcm);
    } else if 6.0 * hcm.h < 4.0 {
      ToRgbOnThird1(hcm);
    } else {
      ToRgbOnThird2(hcm);
    }
  }

  /** The hue is a circle with no seam at 1: as `h` climbs towards 1,
      red and green already equal their values at hue 0 and blue closes
      the gap `6c(1 - h)` linearly. */
  lemma NoSeamAtOne(h: real, c: real, m: real, a: real)
    requires 5.0 / 6.0 <= h < 1.0
    ensures var near := ToRgb(ColorHCMA(h, c, m, a));
      var zero := ToRgb(ColorHCMA(0.0, c, m, a));
      && near.r == zero.r && near.g == zero.g
      && near.b - zero.b == 6.0 * c * (1.0 - h)
  {
    ToRgbAtZero(c, m, a);
    ToRgbNearOne(h, c, m, a);
  }

  /** Hue 0 is pure red above the grey level `m`. */
  lemma ToRgbAtZero(c: real, m: real, a: real)
    ensures ToRgb(ColorHCMA(0.0, c, m, a)) == ColorRGBA(m + c, m, m, a)
  {
    ToRgbNearZero(ColorHCMA(0.0, c, m, a));
  }

  /** In the first sector, `0 <= 6h < 1`, red is greatest, blue least, and
      green sits `6ch` above the minimum. */
  lemma ToRgbNearZero(hcm: ColorHCMA)
    requires 0.0 <= hcm.h < 1.0 / 6.0
    ensures ToRgb(hcm) == ColorRGBA(hcm.m + hcm.c, hcm.m + 6.0 * hcm.c * hcm.h, hcm.m, hcm.a)
  {
    ToRgbIsSectorRgb(hcm);
    assert HexWave(hcm.h) == 6.0 * hcm.h;
    assert hcm.c * (6.0 * hcm.h) == 6.0 * hcm.c * hcm.h;
  }

  /** In the last sector, `5 <= 6h < 6`, red is greatest, green least, and
      blue sits `6c(1 - h)` above the minimum. */
  lemma ToRgbNearOne(h: real, c: real, m: real, a: real)
    requires 5.0 / 6.0 <= h < 1.0
    ensures ToRgb(ColorHCMA(h, c, m, a)) == ColorRGBA(m + c, m, m + 6.0 * c * (1.0 - h), a)
  {
    ToRgbIsSectorRgb(ColorHCMA(h, c, m, a));
    assert HexWave(h) == 6.0 - 6.0 * h;
    assert c * (6.0 - 6.0 * h) == 6.0 * c * (1.0 - h);
  }

  /** `ToRgbIsSectorRgb` for the red third of the circle, `6h < 2`: no
      rotation, and the remainder is `6h` itself. */
  lemma ToRgbOnThird0(hcm: ColorHCMA)
    requires 0.0 <= hcm.h && 6.0 * hcm.h < 2.0
    ensures ToRgb(hcm) == SectorRgb(hcm)
  {
    var hp := 6.0 * hcm.h;
    assert hcm.h * 6.0 == hp;
    EuclidOnSector(hp, 2.0, 0);
    assert 1.0 - Abs(hp - 1.0) == HexWave(hcm.h);
    ToRgbParts(hcm, hp, 0);
    ArrangeAt(hcm.c, hp, HexWave(hcm.h));
  }

  /** `ToRgbIsSectorRgb` for the green third, `2 <= 6h < 4`: one rotation. */
  lemma ToRgbOnThird1(hcm: ColorHCMA)
    requires 2.0 <= 6.0 * hcm.h < 4.0
    ensures ToRgb(hcm) == SectorRgb(hcm)
  {
    var hp := 6.0 * hcm.h;
    assert hcm.h * 6.0 == hp;
    EuclidOnSector(hp, 2.0, 1);
    assert 1.0 - Abs(hp - 2.0 - 1.0) == HexWave(hcm.h);
    ToRgbParts(hcm, hp - 2.0, 1);
    ArrangeAt(hcm.c, hp - 2.0, HexWave(hcm.h));
  }

  /** `ToRgbIsSectorRgb` for the blue third, `4 <= 6h < 6`: two rotations. */
  lemma ToRgbOnThird2(hcm: ColorHCMA)
    requires 4.0 <= 6.0 * hcm.h && hcm.h < 1.0
    ensures ToRgb(hcm) == SectorRgb(hcm)
  {
    var hp := 6.0 * hcm.h;
    assert hcm.h * 6.0 == hp;
    EuclidOnSector(hp, 2.0, 2);
    assert 1.0 - Abs(hp - 4.0 - 1.0) == HexWave(hcm.h);
    ToRgbParts(hcm, hp - 4.0, 2);
    ArrangeAt(hcm.c, hp - 4.0, HexWave(hcm.h));
  }

  /** On the circle the wave `to_rgb` and `to_hsi` compute through the
      Euclidean remainder is the sector-by-sector wave. */
  lemma WaveOnSector(h: real)
    requires 0.0 <= h < 1.0
    ensures SectorWave(h) == HexWave(h)
  {
    var hp := 6.0 * h;
    var k := if hp < 2.0 then 0 else if hp < 4.0 then 1 else 2;
    EuclidOnSector(hp, 2.0, k);
  }

  /** `to_hsv`: value `m + c`; saturation `c / v`, or 0 for black. */
  function ToHsv(hcm: ColorHCMA): (hsv: ColorHSVA)
    ensures hsv.h == hcm.h && hsv.a == hcm.a
    ensures hsv.v == hcm.m + hcm.c
    ensures hsv.v == 0.0 ==> hsv.s == 0.0
    ensures hsv.v != 0.0 ==> hsv.s * hsv.v == hcm.c
    ensures hcm.InRange() ==> hsv.Valid()
  {
    var v := hcm.m + hcm.c;
    var s := if v == 0.0 then 0.0 else hcm.c / v;
    ColorHSVA(hcm.h, s, v, hcm.a)
  }

  /** `to_hsl`: lightness `m + c / 2`; saturation `c / (1 - |2l - 1|)`, or 0
      for black and white. */
  function ToHsl(hcm: ColorHCMA): (hsl: ColorHSLA)
    ensures hsl.h == hcm.h && hsl.a == hcm.a
    ensures hsl.l == hcm.m + hcm.c / 2.0
    ensures hsl.l == 0.0 || hsl.l == 1.0 ==> hsl.s == 0.0
    ensures hsl.l != 0.0 && hsl.l != 1.0 ==> hsl.s * (1.0 - Abs(2.0 * hsl.l - 1.0)) == hcm.c
    ensures hcm.InRange() ==> hsl.Valid()
  {
    var l := hcm.m + 0.5 * hcm.c;
    var z := 1.0 - Abs(2.0 * l - 1.0);
    var s := if z == 0.0 then 0.0 else hcm.c / z;
    HslSaturationWithin(hcm.m, hcm.c);
    ColorHSLA(hcm.h, s, l, hcm.a)
  }

  /** The saturation `to_hsl` computes: the chroma over `1 - |2l - 1|`, which
      is 0 exactly at black and white, and is in `[0, 1]` for an in-range hub. */
  lemma HslSaturationWithin(m: real, c: real)
    ensures var l := m + 0.5 * c;
      var z := 1.0 - Abs(2.0 * l - 1.0);
      && (z == 0.0 <==> l == 0.0 || l == 1.0)
      && (z != 0.0 ==> (c / z) * z == c)
      && (0.0 <= c && 0.0 <= m && m + c <= 1.0 ==>
            InUnit(l) && (z != 0.0 ==> InUnit(c / z)))
  {
    var l := m + 0.5 * c;
    var z := 1.0 - Abs(2.0 * l - 1.0);
    if 0.0 <= c && 0.0 <= m && m + c <= 1.0 && z != 0.0 {
      assert c <= z;
      Ratio(c, z);
    }
  }

  /** `1 - m / i` is a saturation in `[0, 1]` when `0 <= m <= i`, and it
      gives back `m` as `i (1 - s)`. */
  lemma SaturationFromMinimum(m: real, i: real)
    ensures i != 0.0 ==> (1.0 - m / i) * i == i - m
    ensures i != 0.0 && 0.0 <= m <= i ==> 0.0 <= 1.0 - m / i <= 1.0
  {
    if i != 0.0 {
      assert (m / i) * i == m;
      if 0.0 <= m <= i {
        assert m / i <= 1.0;
      }
    }
  }

  /** The intensity of an in-range hub lies between its minimum and 1. */
  lemma IntensityWithin(m: real, c: real, z: real)
    ensures 0.0 <= c && 0.0 <= m && m + c <= 1.0 && 0.0 <= z <= 1.0 ==>
      0.0 <= m <= m + c * (1.0 + z) / 3.0 <= 1.0
  {
    ScaleWithin(c, z);
    assert c * (1.0 + z) == c + c * z;
  }

  /** `to_hsi`: intensity `m + c (1 + z) / 3`, the mean of the RGB channels;
      saturation `1 - m / i`, or 0 for black. */
  function ToHsi(hcm: ColorHCMA): (hsi: ColorHSIA)
    ensures hsi.h == hcm.h && hsi.a == hcm.a
    ensures 3.0 * hsi.i == 3.0 * hcm.m + hcm.c * (1.0 + SectorWave(hcm.h))
    ensures hsi.i == 0.0 ==> hsi.s == 0.0
    ensures hsi.i != 0.0 ==> hsi.s * hsi.i == hsi.i - hcm.m
    ensures hcm.InRange() ==> hsi.Valid()
  {
    ToHsiAt(hcm, SectorWave(hcm.h))
  }

  /** `to_hsi` once the wave `z` of the hue is known. */
  function ToHsiAt(hcm: ColorHCMA, z: real): (hsi: ColorHSIA)
    requires 0.0 <= z <= 1.0
    ensures hsi.h == hcm.h && hsi.a == hcm.a
    ensures 3.0 * hsi.i == 3.0 * hcm.m + hcm.c * (1.0 + z)
    ensures hsi.i == 0.0 ==> hsi.s == 0.0
    ensures hsi.i != 0.0 ==> hsi.s * hsi.i == hsi.i - hcm.m
    ensures hcm.InRange() ==> hsi.Valid()
  {
    var i := hcm.m + hcm.c * (1.0 + z) / 3.0;
    var s := if i == 0.0 then 0.0 else 1.0 - hcm.m / i;
    HsiSaturationWithin(hcm.m, hcm.c, z, i, s);
    ColorHSIA(hcm.h, s, i, hcm.a)
  }

  /** The intensity and saturation `to_hsi` computes: `s i = i - m`, and
      both lie in `[0, 1]` for an in-range hub. */
  lemma HsiSaturationWithin(m: real, c: real, z: real, i: real, s: real)
    requires 0.0 <= z <= 1.0
    requires i == m + c * (1.0 + z) / 3.0 && s == (if i == 0.0 then 0.0 else 1.0 - m / i)
    ensures 3.0 * i == 3.0 * m + c * (1.0 + z)
    ensures i != 0.0 ==> s * i == i - m
    ensures 0.0 <= c && 0.0 <= m && m + c <= 1.0 ==> InUnit(i) && InUnit(s)
  {
    IntensityWithin(m, c, z);
    SaturationFromMinimum(m, i);
  }

  /** A hub without chroma encodes to the HSV grey of value `m`. */
  lemma ToHsvChromaless(hcm: ColorHCMA)
    requires hcm.c == 0.0
    ensures ToHsv(hcm) == ColorHSVA(hcm.h, 0.0, hcm.m, hcm.a)
  {
  }

  /** A hub without chroma encodes to the HSL grey of lightness `m`. */
  lemma ToHslChromaless(hcm: ColorHCMA)
    requires hcm.c == 0.0
    ensures ToHsl(hcm) == ColorHSLA(hcm.h, 0.0, hcm.m, hcm.a)
  {
    var hsl := ToHsl(hcm);
    if hsl.l != 0.0 && hsl.l != 1.0 {
      var w := 1.0 - Abs(2.0 * hsl.l - 1.0);
      assert hsl.s * w == 0.0;
      assert w != 0.0;
    }
  }

  /** A hub without chroma encodes to the HSI grey of intensity `m`,
      whatever its hue. */
  lemma ToHsiChromaless(hcm: ColorHCMA)
    requires hcm.c == 0.0
    ensures ToHsi(hcm) == ColorHSIA(hcm.h, 0.0, hcm.m, hcm.a)
  {
    ToHsiAtChromaless(hcm, SectorWave(hcm.h));
  }

  /** `ToHsiChromaless` for a given wave value. */
  lemma ToHsiAtChromaless(hcm: ColorHCMA, z: real)
    requires hcm.c == 0.0 && 0.0 <= z <= 1.0
    ensures ToHsiAt(hcm, z) == ColorHSIA(hcm.h, 0.0, hcm.m, hcm.a)
  {
    var i := hcm.m + hcm.c * (1.0 + z) / 3.0;
    assert i == hcm.m;
    if i != 0.0 {
      assert hcm.m / i == 1.0;
    }
  }

  /** The hub of an in-range HSI colour has no chroma exactly when the
      intensity or the saturation is 0. */
  lemma FromHsiChromaless(color: ColorHSIA)
    requires color.Valid()
    ensures FromHsi(color).c == 0.0 <==> color.i == 0.0 || color.s == 0.0
  {
    FromHsiAtChromaless(color, SectorWave(color.h));
  }

  /** `FromHsiChromaless` for a given wave value. */
  lemma FromHsiAtChromaless(color: ColorHSIA, z: real)
    requires color.Valid() && 0.0 <= z <= 1.0
    ensures FromHsiAt(color, z).c == 0.0 <==> color.i == 0.0 || color.s == 0.0
  {
    var p := 3.0 * color.i * color.s;
    var c := p / (1.0 + z);
    assert FromHsiAt(color, z).c == c;
    Cancel(p, 1.0 + z);
    if color.i != 0.0 && color.s != 0.0 {
      assert p != 0.0;
    }
  }

  /** An unsaturated HSI colour has the chromaless hub of its intensity. */
  lemma FromHsiUnsaturated(color: ColorHSIA)
    requires color.s == 0.0
    ensures FromHsi(color) == ColorHCMA(color.h, 0.0, color.i, color.a)
  {
    var z := SectorWave(color.h);
    assert 3.0 * color.i * color.s == 0.0;
    Quotient(3.0 * color.i * color.s, 1.0 + z, 0.0);
  }

  /** An HSI intensity of 0 from a hub with no negative channel leaves it
      no chroma and no minimum. */
  lemma HsiDarkIsBlack(hcm: ColorHCMA)
    requires 0.0 <= hcm.c && 0.0 <= hcm.m && ToHsi(hcm).i == 0.0
    ensures hcm.c == 0.0 && hcm.m == 0.0
  {
    DarkIsBlackAt(hcm.m, hcm.c, SectorWave(hcm.h));
  }

  /** `3m + c (1 + z) = 0` forces `m = c = 0` when neither is negative. */
  lemma DarkIsBlackAt(m: real, c: real, z: real)
    requires 0.0 <= c && 0.0 <= m && 0.0 <= z <= 1.0
    requires 3.0 * m + c * (1.0 + z) == 0.0
    ensures c == 0.0 && m == 0.0
  {
    ScaleWithin(c, z);
    assert c * (1.0 + z) == c + c * z;
  }

  /** Decoding the hub of an RGB colour gives that colour back, for every
      RGB colour, grey or not and whatever its ties. */
  lemma FromRgbThenToRgb(color: ColorRGBA)
    ensures ToRgb(FromRgb(color)) == color
  {
    ToRgbIsSectorRgb(FromRgb(color));
    SectorRgbOfFromRgb(color);
  }

  /** The six-sector table inverts `FromRgb`, case by case: a grey, or one
      of the six orders `MinMaxIndices` tells apart. */
  lemma SectorRgbOfFromRgb(color: ColorRGBA)
    ensures SectorRgb(FromRgb(color)) == color
  {
    var r, g, b, a := color.r, color.g, color.b, color.a;
    assert color == ColorRGBA(r, g, b, a);
    if r == g && g == b {
      GreyHub(color);
      SectorRgbChromaless(FromRgb(color));
    } else if b <= g <= r {
      OrderedRedMaxBlueMin(r, g, b, a);
      SectorOfRedMaxBlueMin(r, g, b, a);
    } else if b <= r < g {
      OrderedGreenMaxBlueMin(r, g, b, a);
      SectorOfGreenMaxBlueMin(r, g, b, a);
    } else if r < b <= g {
      OrderedGreenMaxRedMin(r, g, b, a);
      SectorOfGreenMaxRedMin(r, g, b, a);
    } else if r < g < b {
      OrderedBlueMaxRedMin(r, g, b, a);
      SectorOfBlueMaxRedMin(r, g, b, a);
    } else if g <= r < b {
      OrderedBlueMaxGreenMin(r, g, b, a);
      SectorOfBlueMaxGreenMin(r, g, b, a);
    } else {
      OrderedRedMaxGreenMin(r, g, b, a);
      SectorOfRedMaxGreenMin(r, g, b, a);
    }
  }

  /** A grey has hub hue 0, chroma 0 and its common channel as minimum. */
  lemma GreyHub(color: ColorRGBA)
    requires color.r == color.g == color.b
    ensures FromRgb(color) == ColorHCMA(0.0, 0.0, color.r, color.a)
  {
    var hcm := FromRgb(color);
    assert hcm.c == 0.0 && hcm.h == 0.0 && hcm.m == color.r;
  }

  /** The table turns a hub without chroma into the grey of its minimum. */
  lemma SectorRgbChromaless(hcm: ColorHCMA)
    requires 0.0 <= hcm.h < 1.0 && hcm.c == 0.0
    ensures SectorRgb(hcm) == ColorRGBA(hcm.m, hcm.m, hcm.m, hcm.a)
  {
    SectorRgbAtChromaless(hcm, HexWave(hcm.h));
  }

  /** `SectorRgbChromaless` for a given wave value. */
  lemma SectorRgbAtChromaless(hcm: ColorHCMA, z: real)
    requires hcm.c == 0.0
    ensures SectorRgbAt(hcm, z) == ColorRGBA(hcm.m, hcm.m, hcm.m, hcm.a)
  {
    assert hcm.c * z == 0.0;
  }

  /** `FromRgb` when red greatest, blue least. */
  lemma HubOfRedMaxBlueMin(color: ColorRGBA)
    requires MinMaxIndices([color.r, color.g, color.b]) == (2, 0)
    requires FromRgb(color).c != 0.0
    ensures var r, g, b := color.r, color.g, color.b;
      var c := r - b;
      b <= g <= r && b < r && FromRgb(color) == ColorHCMA(((g - b) / c) / 6.0, c, b, color.a)
  {
    var colors := [color.r, color.g, color.b];
    assert forall k :: 0 <= k < 3 ==> colors[2] <= colors[k] <= colors[0];
  }

  /** The six-sector table inverts the hue `FromRgb` gives when red greatest, blue least. */
  lemma SectorOfRedMaxBlueMin(r: real, g: real, b: real, a: real)
    requires b <= g <= r && b < r
    ensures var c := r - b;
      var hcm := ColorHCMA(((g - b) / c) / 6.0, c, b, a);
      0.0 <= hcm.h < 1.0 && SectorRgb(hcm) == ColorRGBA(r, g, b, a)
  {
    var c := r - b;
    var q := (g - b) / c;
    Ratio(g - b, c);
    var hcm := ColorHCMA((q) / 6.0, c, b, a);
    assert 6.0 * hcm.h == q;
    assert HexWave(hcm.h) == q;
    assert SectorRgb(hcm) == SectorRgbAt(hcm, q);
    SectorOfRedMaxBlueMinAt(r, g, b, a, q);
  }

  /** `SectorOfRedMaxBlueMin` with the wave value `q` already known. */
  lemma SectorOfRedMaxBlueMinAt(r: real, g: real, b: real, a: real, q: real)
    requires b <= g <= r && b < r
    requires q == (g - b) / (r - b)
    ensures SectorRgbAt(ColorHCMA((q) / 6.0, r - b, b, a), q) == ColorRGBA(r, g, b, a)
  {
    var c := r - b;
    Ratio(g - b, c);
    assert c * q == g - b;
  }

  /** `FromRgb` when green greatest, blue least. */
  lemma HubOfGreenMaxBlueMin(color: ColorRGBA)
    requires MinMaxIndices([color.r, color.g, color.b]) == (2, 1)
    requires FromRgb(color).c != 0.0
    ensures var r, g, b := color.r, color.g, color.b;
      var c := g - b;
      b <= r < g && FromRgb(color) == ColorHCMA((2.0 - (r - b) / c) / 6.0, c, b, color.a)
  {
    var colors := [color.r, color.g, color.b];
    assert forall k :: 0 <= k < 3 ==> colors[2] <= colors[k] <= colors[1];
  }

  /** The six-sector table inverts the hue `FromRgb` gives when green greatest, blue least. */
  lemma SectorOfGreenMaxBlueMin(r: real, g: real, b: real, a: real)
    requires b <= r < g
    ensures var c := g - b;
      var hcm := ColorHCMA((2.0 - (r - b) / c) / 6.0, c, b, a);
      0.0 <= hcm.h < 1.0 && SectorRgb(hcm) == ColorRGBA(r, g, b, a)
  {
    var c := g - b;
    var q := (r - b) / c;
    Ratio(r - b, c);
    var hcm := ColorHCMA((2.0 - q) / 6.0, c, b, a);
    assert 6.0 * hcm.h == 2.0 - q;
    assert HexWave(hcm.h) == q;
    assert SectorRgb(hcm) == SectorRgbAt(hcm, q);
    SectorOfGreenMaxBlueMinAt(r, g, b, a, q);
  }

  /** `SectorOfGreenMaxBlueMin` with the wave value `q` already known. */
  lemma SectorOfGreenMaxBlueMinAt(r: real, g: real, b: real, a: real, q: real)
    requires b <= r < g
    requires q == (r - b) / (g - b)
    ensures SectorRgbAt(ColorHCMA((2.0 - q) / 6.0, g - b, b, a), q) == ColorRGBA(r, g, b, a)
  {
    var c := g - b;
    Ratio(r - b, c);
    assert c * q == r - b;
  }

  /** `FromRgb` when green greatest, red least. */
  lemma HubOfGreenMaxRedMin(color: ColorRGBA)
    requires MinMaxIndices([color.r, color.g, color.b]) == (0, 1)
    requires FromRgb(color).c != 0.0
    ensures var r, g, b := color.r, color.g, color.b;
      var c := g - r;
      r < b <= g && FromRgb(color) == ColorHCMA((2.0 + (b - r) / c) / 6.0, c, r, color.a)
  {
    var colors := [color.r, color.g, color.b];
    assert forall k :: 0 <= k < 3 ==> colors[0] <= colors[k] <= colors[1];
  }

  /** The six-sector table inverts the hue `FromRgb` gives when green greatest, red least. */
  lemma SectorOfGreenMaxRedMin(r: real, g: real, b: real, a: real)
    requires r < b <= g
    ensures var c := g - r;
      var hcm := ColorHCMA((2.0 + (b - r) / c) / 6.0, c, r, a);
      0.0 <= hcm.h < 1.0 && SectorRgb(hcm) == ColorRGBA(r, g, b, a)
  {
    var c := g - r;
    var q := (b - r) / c;
    Ratio(b - r, c);
    var hcm := ColorHCMA((2.0 + q) / 6.0, c, r, a);
    assert 6.0 * hcm.h == 2.0 + q;
    assert HexWave(hcm.h) == q;
    assert SectorRgb(hcm) == SectorRgbAt(hcm, q);
    SectorOfGreenMaxRedMinAt(r, g, b, a, q);
  }

  /** `SectorOfGreenMaxRedMin` with the wave value `q` already known. */
  lemma SectorOfGreenMaxRedMinAt(r: real, g: real, b: real, a: real, q: real)
    requires r < b <= g
    requires q == (b - r) / (g - r)
    ensures SectorRgbAt(ColorHCMA((2.0 + q) / 6.0, g - r, r, a), q) == ColorRGBA(r, g, b, a)
  {
    var c := g - r;
    Ratio(b - r, c);
    assert c * q == b - r;
  }

  /** `FromRgb` when blue greatest, red least. */
  lemma HubOfBlueMaxRedMin(color: ColorRGBA)
    requires MinMaxIndices([color.r, color.g, color.b]) == (0, 2)
    requires FromRgb(color).c != 0.0
    ensures var r, g, b := color.r, color.g, color.b;
      var c := b - r;
      r < g < b && FromRgb(color) == ColorHCMA((4.0 - (g - r) / c) / 6.0, c, r, color.a)
  {
    var colors := [color.r, color.g, color.b];
    assert forall k :: 0 <= k < 3 ==> colors[0] <= colors[k] <= colors[2];
  }

  /** The six-sector table inverts the hue `FromRgb` gives when blue greatest, red least. */
  lemma SectorOfBlueMaxRedMin(r: real, g: real, b: real, a: real)
    requires r < g < b
    ensures var c := b - r;
      var hcm := ColorHCMA((4.0 - (g - r) / c) / 6.0, c, r, a);
      0.0 <= hcm.h < 1.0 && SectorRgb(hcm) == ColorRGBA(r, g, b, a)
  {
    var c := b - r;
    var q := (g - r) / c;
    Ratio(g - r, c);
    var hcm := ColorHCMA((4.0 - q) / 6.0, c, r, a);
    assert 6.0 * hcm.h == 4.0 - q;
    assert HexWave(hcm.h) == q;
    assert SectorRgb(hcm) == SectorRgbAt(hcm, q);
    SectorOfBlueMaxRedMinAt(r, g, b, a, q);
  }

  /** `SectorOfBlueMaxRedMin` with the wave value `q` already known. */
  lemma SectorOfBlueMaxRedMinAt(r: real, g: real, b: real, a: real, q: real)
    requires r < g < b
    requires q == (g - r) / (b - r)
    ensures SectorRgbAt(ColorHCMA((4.0 - q) / 6.0, b - r, r, a), q) == ColorRGBA(r, g, b, a)
  {
    var c := b - r;
    Ratio(g - r, c);
    assert c * q == g - r;
  }

  /** `FromRgb` when blue greatest, green least. */
  lemma HubOfBlueMaxGreenMin(color: ColorRGBA)
    requires MinMaxIndices([color.r, color.g, color.b]) == (1, 2)
    requires FromRgb(color).c != 0.0
    ensures var r, g, b := color.r, color.g, color.b;
      var c := b - g;
      g <= r < b && FromRgb(color) == ColorHCMA((4.0 + (r - g) / c) / 6.0, c, g, color.a)
  {
    var colors := [color.r, color.g, color.b];
    assert forall k :: 0 <= k < 3 ==> colors[1] <= colors[k] <= colors[2];
  }

  /** The six-sector table inverts the hue `FromRgb` gives when blue greatest, green least. */
  lemma SectorOfBlueMaxGreenMin(r: real, g: real, b: real, a: real)
    requires g <= r < b
    ensures var c := b - g;
      var hcm := ColorHCMA((4.0 + (r - g) / c) / 6.0, c, g, a);
      0.0 <= hcm.h < 1.0 && SectorRgb(hcm) == ColorRGBA(r, g, b, a)
  {
    var c := b - g;
    var q := (r - g) / c;
    Ratio(r - g, c);
    var hcm := ColorHCMA((4.0 + q) / 6.0, c, g, a);
    assert 6.0 * hcm.h == 4.0 + q;
    assert HexWave(hcm.h) == q;
    assert SectorRgb(hcm) == SectorRgbAt(hcm, q);
    SectorOfBlueMaxGreenMinAt(r, g, b, a, q);
  }

  /** `SectorOfBlueMaxGreenMin` with the wave value `q` already known. */
  lemma SectorOfBlueMaxGreenMinAt(r: real, g: real, b: real, a: real, q: real)
    requires g <= r < b
    requires q == (r - g) / (b - g)
    ensures SectorRgbAt(ColorHCMA((4.0 + q) / 6.0, b - g, g, a), q) == ColorRGBA(r, g, b, a)
  {
    var c := b - g;
    Ratio(r - g, c);
    assert c * q == r - g;
  }

  /** `FromRgb` when red greatest, green least. */
  lemma HubOfRedMaxGreenMin(color: ColorRGBA)
    requires MinMaxIndices([color.r, color.g, color.b]) == (1, 0)
    requires FromRgb(color).c != 0.0
    ensures var r, g, b := color.r, color.g, color.b;
      var c := r - g;
      g < b <= r && FromRgb(color) == ColorHCMA((6.0 - (b - g) / c) / 6.0, c, g, color.a)
  {
    var colors := [color.r, color.g, color.b];
    assert forall k :: 0 <= k < 3 ==> colors[1] <= colors[k] <= colors[0];
  }

  /** The six-sector table inverts the hue `FromRgb` gives when red greatest, green least. */
  lemma SectorOfRedMaxGreenMin(r: real, g: real, b: real, a: real)
    requires g < b <= r
    ensures var c := r - g;
      var hcm := ColorHCMA((6.0 - (b - g) / c) / 6.0, c, g, a);
      0.0 <= hcm.h < 1.0 && SectorRgb(hcm) == ColorRGBA(r, g, b, a)
  {
    var c := r - g;
    var q := (b - g) / c;
    Ratio(b - g, c);
    var hcm := ColorHCMA((6.0 - q) / 6.0, c, g, a);
    assert 6.0 * hcm.h == 6.0 - q;
    assert HexWave(hcm.h) == q;
    assert SectorRgb(hcm) == SectorRgbAt(hcm, q);
    SectorOfRedMaxGreenMinAt(r, g, b, a, q);
  }

  /** `SectorOfRedMaxGreenMin` with the wave value `q` already known. */
  lemma SectorOfRedMaxGreenMinAt(r: real, g: real, b: real, a: real, q: real)
    requires g < b <= r
    requires q == (b - g) / (r - g)
    ensures SectorRgbAt(ColorHCMA((6.0 - q) / 6.0, r - g, g, a), q) == ColorRGBA(r, g, b, a)
  {
    var c := r - g;
    Ratio(b - g, c);
    assert c * q == b - g;
  }

  /** Encoding a decoded hub gives it back exactly when it is canonical:
      `FromRgb` only produces canonical hubs, and every canonical hub is
      recovered from its RGB form. */
  lemma ToRgbThenFromRgb(hcm: ColorHCMA)
    requires 0.0 <= hcm.h < 1.0
    ensures FromRgb(ToRgb(hcm)) == hcm <==> hcm.Canonical()
  {
    ToRgbIsSectorRgb(hcm);
    if hcm.Canonical() {
      var hp := 6.0 * hcm.h;
      if hcm.c == 0.0 {
        assert SectorRgb(hcm) == ColorRGBA(hcm.m, hcm.m, hcm.m, hcm.a);
      } else if hp < 1.0 {
        RedMaxBlueMinSector(hcm);
      } else if hp < 2.0 {
        GreenMaxBlueMinSector(hcm);
      } else if hp < 3.0 {
        GreenMaxRedMinSector(hcm);
      } else if hp < 4.0 {
        BlueMaxRedMinSector(hcm);
      } else if hp < 5.0 {
        BlueMaxGreenMinSector(hcm);
      } else {
        RedMaxGreenMinSector(hcm);
      }
    }
  }

  /** For a hub with a hue on the circle and no negative chroma, a round
      trip through RGB changes at most the hue of a chromaless hub, which
      becomes 0. */
  lemma ToRgbThenFromRgbNormalises(hcm: ColorHCMA)
    requires 0.0 <= hcm.h < 1.0 && 0.0 <= hcm.c
    ensures FromRgb(ToRgb(hcm)) == if hcm.c == 0.0 then hcm.(h := 0.0) else hcm
  {
    if hcm.c == 0.0 {
      var rgb := ToRgb(hcm);
      ToRgbSpan(hcm);
      assert rgb.r == rgb.g == rgb.b == hcm.m;
      GreyHub(rgb);
    } else {
      ToRgbThenFromRgb(hcm);
    }
  }

  /** Sector `[0, 1)` of `6h`: red greatest, blue least. */
  lemma RedMaxBlueMinSector(hcm: ColorHCMA)
    requires hcm.Canonical() && hcm.c != 0.0 && 6.0 * hcm.h < 1.0
    ensures FromRgb(SectorRgb(hcm)) == hcm
  {
    var t := 6.0 * hcm.h;
    assert SectorRgb(hcm) == SectorRgbAt(hcm, t);
    RedMaxBlueMinSectorAt(hcm, t);
  }

  /** `RedMaxBlueMinSector` with the wave value `t` already known. */
  lemma RedMaxBlueMinSectorAt(hcm: ColorHCMA, t: real)
    requires hcm.Canonical() && hcm.c != 0.0 && 6.0 * hcm.h < 1.0
    requires t == 6.0 * hcm.h
    ensures FromRgb(SectorRgbAt(hcm, t)) == hcm
  {
    var c, m := hcm.c, hcm.m;
    assert SectorRgbAt(hcm, t) == ColorRGBA(m + c, m + c * t, m, hcm.a);
    WaveRisingFromRed(m, c, t, hcm.a);
  }

  /** Sector `[1, 2)` of `6h`: green greatest (red ties at 1), blue least. */
  lemma GreenMaxBlueMinSector(hcm: ColorHCMA)
    requires hcm.Canonical() && hcm.c != 0.0 && 1.0 <= 6.0 * hcm.h < 2.0
    ensures FromRgb(SectorRgb(hcm)) == hcm
  {
    var t := 2.0 - 6.0 * hcm.h;
    assert SectorRgb(hcm) == SectorRgbAt(hcm, t);
    GreenMaxBlueMinSectorAt(hcm, t);
  }

  /** `GreenMaxBlueMinSector` with the wave value `t` already known. */
  lemma GreenMaxBlueMinSectorAt(hcm: ColorHCMA, t: real)
    requires hcm.Canonical() && hcm.c != 0.0 && 1.0 <= 6.0 * hcm.h < 2.0
    requires t == 2.0 - 6.0 * hcm.h
    ensures FromRgb(SectorRgbAt(hcm, t)) == hcm
  {
    var c, m := hcm.c, hcm.m;
    assert SectorRgbAt(hcm, t) == ColorRGBA(m + c * t, m + c, m, hcm.a);
    WaveFallingToGreen(m, c, t, hcm.a);
  }

  /** Sector `[2, 3)` of `6h`: green greatest, red least (blue ties at 2). */
  lemma GreenMaxRedMinSector(hcm: ColorHCMA)
    requires hcm.Canonical() && hcm.c != 0.0 && 2.0 <= 6.0 * hcm.h < 3.0
    ensures FromRgb(SectorRgb(hcm)) == hcm
  {
    var t := 6.0 * hcm.h - 2.0;
    assert SectorRgb(hcm) == SectorRgbAt(hcm, t);
    GreenMaxRedMinSectorAt(hcm, t);
  }

  /** `GreenMaxRedMinSector` with the wave value `t` already known. */
  lemma GreenMaxRedMinSectorAt(hcm: ColorHCMA, t: real)
    requires hcm.Canonical() && hcm.c != 0.0 && 2.0 <= 6.0 * hcm.h < 3.0
    requires t == 6.0 * hcm.h - 2.0
    ensures FromRgb(SectorRgbAt(hcm, t)) == hcm
  {
    var c, m := hcm.c, hcm.m;
    assert SectorRgbAt(hcm, t) == ColorRGBA(m, m + c, m + c * t, hcm.a);
    WaveRisingFromGreen(m, c, t, hcm.a);
  }

  /** Sector `[3, 4)` of `6h`: blue greatest (green ties at 3), red least. */
  lemma BlueMaxRedMinSector(hcm: ColorHCMA)
    requires hcm.Canonical() && hcm.c != 0.0 && 3.0 <= 6.0 * hcm.h < 4.0
    ensures FromRgb(SectorRgb(hcm)) == hcm
  {
    var t := 4.0 - 6.0 * hcm.h;
    assert SectorRgb(hcm) == SectorRgbAt(hcm, t);
    BlueMaxRedMinSectorAt(hcm, t);
  }

  /** `BlueMaxRedMinSector` with the wave value `t` already known. */
  lemma BlueMaxRedMinSectorAt(hcm: ColorHCMA, t: real)
    requires hcm.Canonical() && hcm.c != 0.0 && 3.0 <= 6.0 * hcm.h < 4.0
    requires t == 4.0 - 6.0 * hcm.h
    ensures FromRgb(SectorRgbAt(hcm, t)) == hcm
  {
    var c, m := hcm.c, hcm.m;
    assert SectorRgbAt(hcm, t) == ColorRGBA(m, m + c * t, m + c, hcm.a);
    WaveFallingToBlue(m, c, t, hcm.a);
  }

  /** Sector `[4, 5)` of `6h`: blue greatest, green least (red ties at 4). */
  lemma BlueMaxGreenMinSector(hcm: ColorHCMA)
    requires hcm.Canonical() && hcm.c != 0.0 && 4.0 <= 6.0 * hcm.h < 5.0
    ensures FromRgb(SectorRgb(hcm)) == hcm
  {
    var t := 6.0 * hcm.h - 4.0;
    assert SectorRgb(hcm) == SectorRgbAt(hcm, t);
    BlueMaxGreenMinSectorAt(hcm, t);
  }

  /** `BlueMaxGreenMinSector` with the wave value `t` already known. */
  lemma BlueMaxGreenMinSectorAt(hcm: ColorHCMA, t: real)
    requires hcm.Canonical() && hcm.c != 0.0 && 4.0 <= 6.0 * hcm.h < 5.0
    requires t == 6.0 * hcm.h - 4.0
    ensures FromRgb(SectorRgbAt(hcm, t)) == hcm
  {
    var c, m := hcm.c, hcm.m;
    assert SectorRgbAt(hcm, t) == ColorRGBA(m + c * t, m, m + c, hcm.a);
    WaveRisingFromBlue(m, c, t, hcm.a);
  }

  /** Sector `[5, 6)` of `6h`: red greatest (blue ties at 5), green least. */
  lemma RedMaxGreenMinSector(hcm: ColorHCMA)
    requires hcm.Canonical() && hcm.c != 0.0 && 5.0 <= 6.0 * hcm.h
    ensures FromRgb(SectorRgb(hcm)) == hcm
  {
    var t := 6.0 - 6.0 * hcm.h;
    assert SectorRgb(hcm) == SectorRgbAt(hcm, t);
    RedMaxGreenMinSectorAt(hcm, t);
  }

  /** `RedMaxGreenMinSector` with the wave value `t` already known. */
  lemma RedMaxGreenMinSectorAt(hcm: ColorHCMA, t: real)
    requires hcm.Canonical() && hcm.c != 0.0 && 5.0 <= 6.0 * hcm.h
    requires t == 6.0 - 6.0 * hcm.h
    ensures FromRgb(SectorRgbAt(hcm, t)) == hcm
  {
    var c, m := hcm.c, hcm.m;
    assert SectorRgbAt(hcm, t) == ColorRGBA(m + c, m, m + c * t, hcm.a);
    WaveFallingToRed(m, c, t, hcm.a);
  }

  /** `HueRisingFromRed` with the middle channel written as `c t`. */
  lemma WaveRisingFromRed(m: real, c: real, t: real, a: real)
    requires c > 0.0 && 0.0 <= t < 1.0
    ensures FromRgb(ColorRGBA(m + c, m + c * t, m, a)) == ColorHCMA(t / 6.0, c, m, a)
  {
    ScaleBelow(c, t);
    HueRisingFromRed(m, c, c * t, a);
  }

  /** `HueFallingToGreen` with the middle channel written as `c t`. */
  lemma WaveFallingToGreen(m: real, c: real, t: real, a: real)
    requires c > 0.0 && 0.0 < t <= 1.0
    ensures FromRgb(ColorRGBA(m + c * t, m + c, m, a)) == ColorHCMA((2.0 - t) / 6.0, c, m, a)
  {
    ScaleAbove(c, t);
    HueFallingToGreen(m, c, c * t, a);
  }

  /** `HueRisingFromGreen` with the middle channel written as `c t`. */
  lemma WaveRisingFromGreen(m: real, c: real, t: real, a: real)
    requires c > 0.0 && 0.0 <= t < 1.0
    ensures FromRgb(ColorRGBA(m, m + c, m + c * t, a)) == ColorHCMA((2.0 + t) / 6.0, c, m, a)
  {
    ScaleBelow(c, t);
    HueRisingFromGreen(m, c, c * t, a);
  }

  /** `HueFallingToBlue` with the middle channel written as `c t`. */
  lemma WaveFallingToBlue(m: real, c: real, t: real, a: real)
    requires c > 0.0 && 0.0 < t <= 1.0
    ensures FromRgb(ColorRGBA(m, m + c * t, m + c, a)) == ColorHCMA((4.0 - t) / 6.0, c, m, a)
  {
    ScaleAbove(c, t);
    HueFallingToBlue(m, c, c * t, a);
  }

  /** `HueRisingFromBlue` with the middle channel written as `c t`. */
  lemma WaveRisingFromBlue(m: real, c: real, t: real, a: real)
    requires c > 0.0 && 0.0 <= t < 1.0
    ensures FromRgb(ColorRGBA(m + c * t, m, m + c, a)) == ColorHCMA((4.0 + t) / 6.0, c, m, a)
  {
    ScaleBelow(c, t);
    HueRisingFromBlue(m, c, c * t, a);
  }

  /** `HueFallingToRed` with the middle channel written as `c t`. */
  lemma WaveFallingToRed(m: real, c: real, t: real, a: real)
    requires c > 0.0 && 0.0 < t <= 1.0
    ensures FromRgb(ColorRGBA(m + c, m, m + c * t, a)) == ColorHCMA((6.0 - t) / 6.0, c, m, a)
  {
    ScaleAbove(c, t);
    HueFallingToRed(m, c, c * t, a);
  }

  /** The RGB colour `[m + c, m + x, m]` has `6h = x / c`. */
  lemma HueRisingFromRed(m: real, c: real, x: real, a: real)
    requires 0.0 <= x < c
    ensures FromRgb(ColorRGBA(m + c, m + x, m, a)) == ColorHCMA((x / c) / 6.0, c, m, a)
  {
    assert (m + x) - m == x && (m + c) - m == c;
    OrderedRedMaxBlueMin(m + c, m + x, m, a);
  }

  /** The RGB colour `[m + x, m + c, m]` has `6h = 2 - x / c`; when `x = c`
      red ties with green and the hue is found on red's side. */
  lemma HueFallingToGreen(m: real, c: real, x: real, a: real)
    requires 0.0 < x <= c
    ensures FromRgb(ColorRGBA(m + x, m + c, m, a)) == ColorHCMA((2.0 - x / c) / 6.0, c, m, a)
  {
    assert (m + x) - m == x && (m + c) - m == c;
    if x == c {
      Quotient(x, c, 1.0);
      OrderedRedMaxBlueMin(m + x, m + c, m, a);
    } else {
      OrderedGreenMaxBlueMin(m + x, m + c, m, a);
    }
  }

  /** The RGB colour `[m, m + c, m + x]` has `6h = 2 + x / c`; when `x = 0`
      red ties with blue and the hue is found on blue's side. */
  lemma HueRisingFromGreen(m: real, c: real, x: real, a: real)
    requires 0.0 <= x < c
    ensures FromRgb(ColorRGBA(m, m + c, m + x, a)) == ColorHCMA((2.0 + x / c) / 6.0, c, m, a)
  {
    if x == 0.0 {
      OrderedGreenMaxBlueMin(m, m + c, m + x, a);
      assert m - (m + x) == 0.0 && (m + c) - (m + x) == c;
      assert x / c == 0.0;
    } else {
      OrderedGreenMaxRedMin(m, m + c, m + x, a);
      assert (m + x) - m == x && (m + c) - m == c;
    }
  }

  /** The RGB colour `[m, m + x, m + c]` has `6h = 4 - x / c`; when `x = c`
      green ties with blue and the hue is found on green's side. */
  lemma HueFallingToBlue(m: real, c: real, x: real, a: real)
    requires 0.0 < x <= c
    ensures FromRgb(ColorRGBA(m, m + x, m + c, a)) == ColorHCMA((4.0 - x / c) / 6.0, c, m, a)
  {
    assert (m + x) - m == x && (m + c) - m == c;
    if x == c {
      Quotient(x, c, 1.0);
      OrderedGreenMaxRedMin(m, m + x, m + c, a);
    } else {
      OrderedBlueMaxRedMin(m, m + x, m + c, a);
    }
  }

  /** The RGB colour `[m + x, m, m + c]` has `6h = 4 + x / c`. */
  lemma HueRisingFromBlue(m: real, c: real, x: real, a: real)
    requires 0.0 <= x < c
    ensures FromRgb(ColorRGBA(m + x, m, m + c, a)) == ColorHCMA((4.0 + x / c) / 6.0, c, m, a)
  {
    assert (m + x) - m == x && (m + c) - m == c;
    OrderedBlueMaxGreenMin(m + x, m, m + c, a);
  }

  /** The RGB colour `[m + c, m, m + x]` has `6h = 6 - x / c`. */
  lemma HueFallingToRed(m: real, c: real, x: real, a: real)
    requires 0.0 < x <= c
    ensures FromRgb(ColorRGBA(m + c, m, m + x, a)) == ColorHCMA((6.0 - x / c) / 6.0, c, m, a)
  {
    assert (m + x) - m == x && (m + c) - m == c;
    OrderedRedMaxGreenMin(m + c, m, m + x, a);
  }

  /** `FromRgb` of any colour ordered as in `HubOfRedMaxBlueMin`. */
  lemma OrderedRedMaxBlueMin(r: real, g: real, b: real, a: real)
    requires b <= g <= r && b < r
    ensures FromRgb(ColorRGBA(r, g, b, a)) == ColorHCMA(((g - b) / (r - b)) / 6.0, r - b, b, a)
  {
    var cs := [r, g, b];
    assert MinMaxIndices(cs) == (2, 0);
    HubOfRedMaxBlueMin(ColorRGBA(r, g, b, a));
  }

  /** `FromRgb` of any colour ordered as in `HubOfGreenMaxBlueMin`. */
  lemma OrderedGreenMaxBlueMin(r: real, g: real, b: real, a: real)
    requires b <= r < g
    ensures FromRgb(ColorRGBA(r, g, b, a)) == ColorHCMA((2.0 - (r - b) / (g - b)) / 6.0, g - b, b, a)
  {
    var cs := [r, g, b];
    assert MinMaxIndices(cs) == (2, 1);
    HubOfGreenMaxBlueMin(ColorRGBA(r, g, b, a));
  }

  /** `FromRgb` of any colour ordered as in `HubOfGreenMaxRedMin`. */
  lemma OrderedGreenMaxRedMin(r: real, g: real, b: real, a: real)
    requires r < b <= g
    ensures FromRgb(ColorRGBA(r, g, b, a)) == ColorHCMA((2.0 + (b - r) / (g - r)) / 6.0, g - r, r, a)
  {
    var cs := [r, g, b];
    assert MinMaxIndices(cs) == (0, 1);
    HubOfGreenMaxRedMin(ColorRGBA(r, g, b, a));
  }

  /** `FromRgb` of any colour ordered as in `HubOfBlueMaxRedMin`. */
  lemma OrderedBlueMaxRedMin(r: real, g: real, b: real, a: real)
    requires r < g < b
    ensures FromRgb(ColorRGBA(r, g, b, a)) == ColorHCMA((4.0 - (g - r) / (b - r)) / 6.0, b - r, r, a)
  {
    var cs := [r, g, b];
    assert MinMaxIndices(cs) == (0, 2);
    HubOfBlueMaxRedMin(ColorRGBA(r, g, b, a));
  }

  /** `FromRgb` of any colour ordered as in `HubOfBlueMaxGreenMin`. */
  lemma OrderedBlueMaxGreenMin(r: real, g: real, b: real, a: real)
    requires g <= r < b
    ensures FromRgb(ColorRGBA(r, g, b, a)) == ColorHCMA((4.0 + (r - g) / (b - g)) / 6.0, b - g, g, a)
  {
    var cs := [r, g, b];
    assert MinMaxIndices(cs) == (1, 2);
    HubOfBlueMaxGreenMin(ColorRGBA(r, g, b, a));
  }

  /** `FromRgb` of any colour ordered as in `HubOfRedMaxGreenMin`. */
  lemma OrderedRedMaxGreenMin(r: real, g: real, b: real, a: real)
    requires g < b <= r
    ensures FromRgb(ColorRGBA(r, g, b, a)) == ColorHCMA((6.0 - (b - g) / (r - g)) / 6.0, r - g, g, a)
  {
    var cs := [r, g, b];
    assert MinMaxIndices(cs) == (1, 0);
    HubOfRedMaxGreenMin(ColorRGBA(r, g, b, a));
  }

  /** Decoding an HSV encoding gives the hub back unless the hub is black
      with chroma, which `to_hsv` cannot record. */
  lemma ToHsvThenFromHsv(hcm: ColorHCMA)
    ensures FromHsv(ToHsv(hcm)) == hcm <==> (hcm.m + hcm.c == 0.0 ==> hcm.c == 0.0)
  {
    var v := hcm.m + hcm.c;
    if v != 0.0 {
      Cancel(hcm.c, v);
    }
  }

  /** Encoding the hub of an HSV colour gives it back unless it is black
      with a saturation, which the hub cannot record. */
  lemma FromHsvThenToHsv(color: ColorHSVA)
    ensures ToHsv(FromHsv(color)) == color <==> (color.v == 0.0 ==> color.s == 0.0)
  {
    if color.v != 0.0 {
      Quotient(color.v * color.s, color.v, color.s);
    }
  }

  /** Decoding an HSL encoding gives the hub back unless its lightness is 0
      or 1 while it has chroma, which `to_hsl` cannot record. */
  lemma ToHslThenFromHsl(hcm: ColorHCMA)
    ensures var l := hcm.m + hcm.c / 2.0;
      FromHsl(ToHsl(hcm)) == hcm <==> (l == 0.0 || l == 1.0 ==> hcm.c == 0.0)
  {
    var l := hcm.m + 0.5 * hcm.c;
    var z := 1.0 - Abs(2.0 * l - 1.0);
    if z != 0.0 {
      Cancel(hcm.c, z);
    }
  }

  /** Encoding the hub of an HSL colour gives it back unless it is black or
      white with a saturation, which the hub cannot record. */
  lemma FromHslThenToHsl(color: ColorHSLA)
    ensures ToHsl(FromHsl(color)) == color <==> (color.l == 0.0 || color.l == 1.0 ==> color.s == 0.0)
  {
    var w := 1.0 - Abs(2.0 * color.l - 1.0);
    var hcm := FromHsl(color);
    assert hcm.c == w * color.s;
    var back := ToHsl(hcm);
    assert back.l == color.l;
    assert back.s == if w == 0.0 then 0.0 else hcm.c / w;
    if w != 0.0 {
      Quotient(hcm.c, w, color.s);
    }
  }

  /** Decoding an HSI encoding gives the hub back unless its intensity is 0
      while it has chroma, which `to_hsi` cannot record. */
  lemma ToHsiThenFromHsi(hcm: ColorHCMA)
    ensures FromHsi(ToHsi(hcm)) == hcm <==> (ToHsi(hcm).i == 0.0 ==> hcm.c == 0.0)
  {
    var z := SectorWave(hcm.h);
    var hsi := ToHsiAt(hcm, z);
    assert ToHsi(hcm) == hsi;
    assert FromHsi(hsi) == FromHsiAt(hsi, z);
    ToHsiThenFromHsiAt(hcm, z);
  }

  /** `ToHsiThenFromHsi` for a fixed wave `z`. */
  lemma ToHsiThenFromHsiAt(hcm: ColorHCMA, z: real)
    requires 0.0 <= z <= 1.0
    ensures var hsi := ToHsiAt(hcm, z);
      FromHsiAt(hsi, z) == hcm <==> (hsi.i == 0.0 ==> hcm.c == 0.0)
  {
    var i := hcm.m + hcm.c * (1.0 + z) / 3.0;
    var hsi := ToHsiAt(hcm, z);
    assert hsi.i == i;
    var back := FromHsiAt(hsi, z);
    assert back.c == 3.0 * i * hsi.s / (1.0 + z) && back.m == i * (1.0 - hsi.s);
    if i != 0.0 {
      assert hsi.s == 1.0 - hcm.m / i;
      HsiRecoversHub(hcm.m, hcm.c, z, i, hsi.s);
      assert back.c == hcm.c && back.m == hcm.m;
    } else {
      assert hsi.s == 0.0;
      Quotient(3.0 * i * hsi.s, 1.0 + z, 0.0);
      assert back.c == 0.0 && back.m == 0.0;
      assert 3.0 * hcm.m + hcm.c * (1.0 + z) == 0.0;
      if hcm.c == 0.0 {
        assert hcm.m == 0.0;
      }
    }
  }

  /** The arithmetic of `ToHsiThenFromHsi` for a non-zero intensity. */
  lemma HsiRecoversHub(m: real, c: real, z: real, i: real, s: real)
    requires 0.0 <= z <= 1.0
    requires i == m + c * (1.0 + z) / 3.0 && i != 0.0 && s == 1.0 - m / i
    ensures 3.0 * i * s / (1.0 + z) == c && i * (1.0 - s) == m
  {
    assert (m / i) * i == m;
    assert i * s == i - m;
    Quotient(3.0 * i * s, 1.0 + z, c);
  }

  /** Encoding the hub of an HSI colour gives it back unless it is black
      with a saturation, which the hub cannot record. */
  lemma FromHsiThenToHsi(color: ColorHSIA)
    ensures ToHsi(FromHsi(color)) == color <==> (color.i == 0.0 ==> color.s == 0.0)
  {
    var z := SectorWave(color.h);
    var hcm := FromHsiAt(color, z);
    assert FromHsi(color) == hcm;
    assert ToHsi(hcm) == ToHsiAt(hcm, z);
    FromHsiThenToHsiAt(color, z);
  }

  /** `FromHsiThenToHsi` for a fixed wave `z`. */
  lemma FromHsiThenToHsiAt(color: ColorHSIA, z: real)
    requires 0.0 <= z <= 1.0
    ensures ToHsiAt(FromHsiAt(color, z), z) == color <==> (color.i == 0.0 ==> color.s == 0.0)
  {
    var hcm := FromHsiAt(color, z);
    assert hcm.c == 3.0 * color.i * color.s / (1.0 + z);
    assert hcm.m == color.i * (1.0 - color.s);
    var back := ToHsiAt(hcm, z);
    assert back.i == hcm.m + hcm.c * (1.0 + z) / 3.0;
    HsiRecoversSaturation(color.i, color.s, z);
    assert back.i == color.i;
  }

  /** The arithmetic of `FromHsiThenToHsi`. */
  lemma HsiRecoversSaturation(i: real, s: real, z: real)
    requires 0.0 <= z <= 1.0
    ensures var c := 3.0 * i * s / (1.0 + z);
      var m := i * (1.0 - s);
      m + c * (1.0 + z) / 3.0 == i && (i != 0.0 ==> 1.0 - m / i == s)
  {
    var c := 3.0 * i * s / (1.0 + z);
    var m := i * (1.0 - s);
    Quotient(3.0 * i * s, 1.0 + z, c);
    assert c * (1.0 + z) == 3.0 * i * s;
    assert c * (1.0 + z) / 3.0 == i * s;
    assert m == i - i * s;
    if i != 0.0 {
      Quotient(m, i, 1.0 - s);
    }
  }
}
