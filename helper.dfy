/** The standalone `hsl_to_rgb` of `helper.rs`: the closed formula of CSS
    Color Module Level 4, section 7.1, which computes every channel from
    the lightness, a reach `a = s min(l, 1 - l)` around it, and a tent
    function of the channel's turn `k = (n + 12h) mod 12` on the colour
    wheel. The source reads its red, green and blue channels at `n = 0, 4, 8`;
    the standard reads them at `n = 0, 8, 4`. Both are modelled: the
    function as written, and the corrected one, which is proved equal to the
    hub conversion `Utils.HslToRgb`. */
module Helper {
  import opened Float
  import opened Definitions
  import opened Hub
  import Utils

  /** The turn `k = (n + 12h) mod 12` of the channel read at `n`: a point on
      a clock of twelve hours, whole turns of the hue removed. */
  function Turn(h: real, n: real): (k: real)
    ensures 0.0 <= k < 12.0
    ensures IsIntegral((n + h * 12.0 - k) / 12.0)
  {
    var k := RemEuclid(n + h * 12.0, 12.0);
    assert (n + h * 12.0 - k) / 12.0 == DivEuclid(n + h * 12.0, 12.0);
    k
  }

  /** `min(k - 3, 9 - k)` clamped to `[-1, 1]`: -1 within two hours of the
      channel's own hue, 1 from four to eight hours away, and linear between. */
  function Tent(k: real): (t: real)
    ensures -1.0 <= t <= 1.0
  {
    Clamp(Min(k - 3.0, 9.0 - k), -1.0, 1.0)
  }

  /** The reach `a = s min(l, 1 - l)`: how far a channel may lie from the
      lightness, which keeps every channel inside `[0, 1]`. */
  function Reach(color: ColorHSLA): (a: real)
    ensures InUnit(color.s) && InUnit(color.l) ==> 0.0 <= a <= Min(color.l, 1.0 - color.l)
  {
    var a := color.s * Min(color.l, 1.0 - color.l);
    ScaleWithin(Min(color.l, 1.0 - color.l), color.s);
    a
  }

  /** The closure `f(n)`: the lightness moved by the reach against the tent
      of the channel's turn. */
  function Channel(color: ColorHSLA, n: real): (v: real)
    ensures Reach(color) >= 0.0 ==> color.l - Reach(color) <= v <= color.l + Reach(color)
    ensures color.s == 0.0 ==> v == color.l
  {
    var a := Reach(color);
    var t := Tent(Turn(color.h, n));
    TentScaled(a, t);
    color.l - a * t
  }

  /** A non-negative reach scaled by a tent value in `[-1, 1]` stays within
      the reach. */
  lemma TentScaled(a: real, t: real)
    ensures 0.0 <= a && -1.0 <= t <= 1.0 ==> -a <= a * t <= a
  {
    if 0.0 <= a && -1.0 <= t <= 1.0 {
      ScaleWithin(a, (t + 1.0) / 2.0);
      assert a * ((t + 1.0) / 2.0) == (a * t + a) / 2.0;
    }
  }

  /** `hsl_to_rgb` as the source writes it: red, green and blue from
      `f(0)`, `f(4)` and `f(8)`, alpha passed through. */
  function HslToRgbAsWritten(color: ColorHSLA): (rgb: ColorRGBA)
    ensures rgb.a == color.a
    ensures color.s == 0.0 ==> rgb.r == rgb.g == rgb.b == color.l
    ensures color.Valid() ==> rgb.Valid()
  {
    Bounded(color);
    ColorRGBA(Channel(color, 0.0), Channel(color, 4.0), Channel(color, 8.0), color.a)
  }

  /** `hsl_to_rgb` as the standard defines it: red, green and blue from
      `f(0)`, `f(8)` and `f(4)`, alpha passed through. */
  function HslToRgb(color: ColorHSLA): (rgb: ColorRGBA)
    ensures rgb.a == color.a
    ensures color.s == 0.0 ==> rgb.r == rgb.g == rgb.b == color.l
    ensures color.Valid() ==> rgb.Valid()
  {
    Bounded(color);
    ColorRGBA(Channel(color, 0.0), Channel(color, 8.0), Channel(color, 4.0), color.a)
  }

  /** For an in-range colour every channel lies in `[l - a, l + a]`, which
      is inside `[0, 1]`. */
  lemma Bounded(color: ColorHSLA)
    ensures color.Valid() ==> forall n :: 0.0 <= Channel(color, n) <= 1.0
  {
  }

  /** The source's channels are the standard's with green and blue
      exchanged. */
  lemma AsWrittenSwapsGreenAndBlue(color: ColorHSLA)
    ensures var rgb := HslToRgb(color);
      HslToRgbAsWritten(color) == ColorRGBA(rgb.r, rgb.b, rgb.g, rgb.a)
  {
  }

  /** On the hour `j` of the clock, the turn is `n + 12h` less `j` turns. */
  lemma TurnOnHour(h: real, n: real, j: int)
    requires j as real * 12.0 <= n + h * 12.0 < (j + 1) as real * 12.0
    ensures Turn(h, n) == n + h * 12.0 - j as real * 12.0
  {
    EuclidOnSector(n + h * 12.0, 12.0, j);
  }

  /** How far up from the hub's minimum the channel read at `n` sits, as a
      share of the chroma: 1 - the tent, halved. */
  function Weight(h: real, n: real): (w: real)
    ensures 0.0 <= w <= 1.0
  {
    (1.0 - Tent(Turn(h, n))) / 2.0
  }

  /** Every channel of the formula is the hub's minimum plus its weight's
      share of the chroma, the hub being the one `from_hsl` builds: the
      reach is half the chroma and the lightness is the minimum plus the
      reach. */
  lemma ChannelByWeight(color: ColorHSLA, n: real)
    ensures var hcm := FromHsl(color);
      Channel(color, n) == hcm.m + hcm.c * Weight(color.h, n)
  {
    var hcm := FromHsl(color);
    HubOfReach(color);
    HalfChromaShare(color.l, Reach(color), hcm.c, hcm.m, Tent(Turn(color.h, n)), Weight(color.h, n));
  }

  /** The hub `from_hsl` builds has twice the reach as chroma and the
      lightness less the reach as minimum. */
  lemma HubOfReach(color: ColorHSLA)
    ensures FromHsl(color).c == 2.0 * Reach(color)
    ensures FromHsl(color).m == color.l - Reach(color)
  {
    assert 1.0 - Abs(2.0 * color.l - 1.0) == 2.0 * Min(color.l, 1.0 - color.l);
  }

  /** The arithmetic of `ChannelByWeight`: with chroma `c = 2a` and minimum
      `m = l - a`, the channel `l - a t` is `m + c w` for `w = (1 - t) / 2`. */
  lemma HalfChromaShare(l: real, a: real, c: real, m: real, t: real, w: real)
    requires c == 2.0 * a && m == l - a && w == (1.0 - t) / 2.0
    ensures l - a * t == m + c * w
  {
  }

  /** The red channel's weight, sector by sector of `6h`: the six-sector
      table's `1, z, 0, 0, z, 1`. */
  lemma RedWeight(h: real)
    requires 0.0 <= h < 1.0
    ensures var hp, w := 6.0 * h, Weight(h, 0.0);
      && (hp < 1.0 ==> w == 1.0)
      && (1.0 <= hp < 2.0 ==> w == HexWave(h))
      && (2.0 <= hp < 4.0 ==> w == 0.0)
      && (4.0 <= hp < 5.0 ==> w == HexWave(h))
      && (5.0 <= hp ==> w == 1.0)
  {
    TurnOnHour(h, 0.0, 0);
  }

  /** The green channel's weight, read at `n = 8`: the table's
      `z, 1, 1, z, 0, 0`. */
  lemma GreenWeight(h: real)
    requires 0.0 <= h < 1.0
    ensures var hp, w := 6.0 * h, Weight(h, 8.0);
      && (hp < 1.0 ==> w == HexWave(h))
      && (1.0 <= hp < 3.0 ==> w == 1.0)
      && (3.0 <= hp < 4.0 ==> w == HexWave(h))
      && (4.0 <= hp ==> w == 0.0)
  {
    if 6.0 * h < 2.0 {
      TurnOnHour(h, 8.0, 0);
    } else {
      TurnOnHour(h, 8.0, 1);
    }
  }

  /** The blue channel's weight, read at `n = 4`: the table's
      `0, 0, z, 1, 1, z`. */
  lemma BlueWeight(h: real)
    requires 0.0 <= h < 1.0
    ensures var hp, w := 6.0 * h, Weight(h, 4.0);
      && (hp < 2.0 ==> w == 0.0)
      && (2.0 <= hp < 3.0 ==> w == HexWave(h))
      && (3.0 <= hp < 5.0 ==> w == 1.0)
      && (5.0 <= hp ==> w == HexWave(h))
  {
    if 6.0 * h < 4.0 {
      TurnOnHour(h, 4.0, 0);
    } else {
      TurnOnHour(h, 4.0, 1);
    }
  }

  /** The rows of the six-sector table as weights: by sector of `6h`, which
      channel sits at the maximum (weight 1), which at the minimum (weight
      0) and which on the wave `z`. */
  ghost predicate SixSector(h: real, z: real, wr: real, wg: real, wb: real)
  {
    var hp := 6.0 * h;
      && (hp < 1.0 ==> wr == 1.0 && wg == z && wb == 0.0)
      && (1.0 <= hp < 2.0 ==> wr == z && wg == 1.0 && wb == 0.0)
      && (2.0 <= hp < 3.0 ==> wr == 0.0 && wg == 1.0 && wb == z)
      && (3.0 <= hp < 4.0 ==> wr == 0.0 && wg == z && wb == 1.0)
      && (4.0 <= hp < 5.0 ==> wr == z && wg == 0.0 && wb == 1.0)
      && (5.0 <= hp ==> wr == 1.0 && wg == 0.0 && wb == z)
  }

  /** The three weights together follow the six-sector table. */
  lemma SectorWeights(h: real)
    requires 0.0 <= h < 1.0
    ensures SixSector(h, HexWave(h), Weight(h, 0.0), Weight(h, 8.0), Weight(h, 4.0))
  {
    RedWeight(h);
    GreenWeight(h);
    BlueWeight(h);
  }

  /** The six-sector table, written with the three weights: each channel is
      the minimum plus its weight's share of the chroma. */
  lemma TableByWeights(hcm: ColorHCMA, h: real, z: real, wr: real, wg: real, wb: real)
    requires hcm.h == h && SixSector(h, z, wr, wg, wb)
    ensures SectorRgbAt(hcm, z) == ColorRGBA(hcm.m + hcm.c * wr, hcm.m + hcm.c * wg, hcm.m + hcm.c * wb, hcm.a)
  {
    var hp := 6.0 * h;
    if hp < 1.0 {
    } else if hp < 2.0 {
    } else if hp < 3.0 {
    } else if hp < 4.0 {
    } else if hp < 5.0 {
    } else {
    }
  }

  /** The standard's three channels, each the hub's minimum plus its
      weight's share of the chroma. */
  lemma HslToRgbByWeights(color: ColorHSLA)
    ensures var hcm := FromHsl(color);
      HslToRgb(color) == ColorRGBA(hcm.m + hcm.c * Weight(color.h, 0.0),
        hcm.m + hcm.c * Weight(color.h, 8.0), hcm.m + hcm.c * Weight(color.h, 4.0), hcm.a)
  {
    ChannelByWeight(color, 0.0);
    ChannelByWeight(color, 8.0);
    ChannelByWeight(color, 4.0);
  }

  /** The hub conversion's channels, read off the six-sector table with
      the three weights (the hub, wave and weights passed in by name). */
  lemma HubByWeights(color: ColorHSLA, hcm: ColorHCMA, z: real, wr: real, wg: real, wb: real)
    requires 0.0 <= color.h < 1.0
    requires hcm == FromHsl(color) && z == HexWave(color.h)
    requires wr == Weight(color.h, 0.0) && wg == Weight(color.h, 8.0) && wb == Weight(color.h, 4.0)
    ensures Utils.HslToRgb(color) == ColorRGBA(hcm.m + hcm.c * wr, hcm.m + hcm.c * wg, hcm.m + hcm.c * wb, hcm.a)
  {
    HubIsSectorTable(color);
    SectorWeights(color.h);
    TableByWeights(hcm, color.h, z, wr, wg, wb);
  }

  /** The hub conversion is the six-sector table of the hub `from_hsl`
      builds. */
  lemma HubIsSectorTable(color: ColorHSLA)
    requires 0.0 <= color.h < 1.0
    ensures Utils.HslToRgb(color) == SectorRgbAt(FromHsl(color), HexWave(color.h))
  {
    ToRgbIsSectorRgb(FromHsl(color));
  }

  /** The standard's formula and the hub conversion `hsl_to_rgb` of
      `utils.rs` give the same colour for every hue on the circle. */
  lemma AgreesWithHub(color: ColorHSLA)
    requires 0.0 <= color.h < 1.0
    ensures HslToRgb(color) == Utils.HslToRgb(color)
  {
    HslToRgbByWeights(color);
    HubByWeights(color, FromHsl(color), HexWave(color.h), Weight(color.h, 0.0), Weight(color.h, 8.0), Weight(color.h, 4.0));
  }

  /** On the green hue `h = 1/3` the standard gives the hub's minimum in red
      and blue and its maximum in green; the source's formula puts that
      maximum in blue instead (the hub, wave and weights passed in by
      name). */
  lemma OnGreenHue(color: ColorHSLA, hcm: ColorHCMA, wr: real, wg: real, wb: real)
    requires color.h == 1.0 / 3.0 && hcm == FromHsl(color)
    requires wr == Weight(color.h, 0.0) && wg == Weight(color.h, 8.0) && wb == Weight(color.h, 4.0)
    ensures HslToRgb(color) == ColorRGBA(hcm.m, hcm.m + hcm.c, hcm.m, color.a)
    ensures HslToRgbAsWritten(color) == ColorRGBA(hcm.m, hcm.m, hcm.m + hcm.c, color.a)
  {
    HslToRgbByWeights(color);
    SectorWeights(color.h);
    assert HexWave(color.h) == 0.0;
    assert wr == 0.0 && wg == 1.0 && wb == 0.0;
    AsWrittenSwapsGreenAndBlue(color);
  }

  /** The counterexample: fully saturated green at half lightness, which the
      standard and the hub conversion map to `(0, 1, 0)`, comes out of the
      source's formula as blue `(0, 0, 1)`. */
  lemma PureGreenComesOutBlue(color: ColorHSLA)
    requires color.h == 1.0 / 3.0 && color.s == 1.0 && color.l == 0.5
    ensures HslToRgb(color) == ColorRGBA(0.0, 1.0, 0.0, color.a)
    ensures HslToRgbAsWritten(color) == ColorRGBA(0.0, 0.0, 1.0, color.a)
  {
    HubOfReach(color);
    OnGreenHue(color, FromHsl(color), Weight(color.h, 0.0), Weight(color.h, 8.0), Weight(color.h, 4.0));
  }
}
