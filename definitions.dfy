/** The colour value types: RGBA, HSLA, HSVA and HSIA tuples, the generic
    N-component colour, and the "yields an RGBA colour" capability. */
module Definitions {
  import opened Float

  predicate InUnit(x: real) {
    0.0 <= x <= 1.0
  }

  /** `y` is what clamping `x` into `[0, 1]` gives: `x` itself when in range,
      otherwise the nearer end of the interval. */
  predicate ClampsTo(x: real, y: real) {
    && InUnit(y)
    && (InUnit(x) ==> y == x)
    && (x < 0.0 ==> y == 0.0)
    && (x > 1.0 ==> y == 1.0)
  }

  /** `y` is the hue `x` wrapped onto the circle `[0, 1)`: it differs from `x`
      by a whole number of turns. */
  predicate WrapsTo(x: real, y: real) {
    && 0.0 <= y < 1.0
    && IsIntegral(x - y)
    && (0.0 <= x < 1.0 ==> y == x)
  }

  /** `h.rem_euclid(1.0)`, the hue wrapping every HSx constructor applies. */
  function WrapHue(h: real): (r: real)
    ensures WrapsTo(h, r)
  {
    var r := RemEuclid(h, 1.0);
    assert 0.0 <= h < 1.0 ==> r == h by {
      if 0.0 <= h < 1.0 {
        EuclidOnSector(h, 1.0, 0);
      }
    }
    assert h - r == DivEuclid(h, 1.0);
    r
  }

  /** A colour in RGBA space. */
  datatype ColorRGBA = ColorRGBA(r: real, g: real, b: real, a: real) {

    /** Every component lies in `[0, 1]`. */
    predicate Valid() {
      InUnit(r) && InUnit(g) && InUnit(b) && InUnit(a)
    }

    /** `ColorRGBA::new`: every component clamped into `[0, 1]`. */
    static function New(r: real, g: real, b: real, a: real): (c: ColorRGBA)
      ensures c.Valid()
      ensures ClampsTo(r, c.r) && ClampsTo(g, c.g) && ClampsTo(b, c.b) && ClampsTo(a, c.a)
    {
      ColorRGBA(Clamp(r, 0.0, 1.0), Clamp(g, 0.0, 1.0), Clamp(b, 0.0, 1.0), Clamp(a, 0.0, 1.0))
    }

    /** `ColorRGBA::new_rgb`: `new` with an opaque alpha. */
    static function NewRgb(r: real, g: real, b: real): (c: ColorRGBA)
      ensures c == New(r, g, b, 1.0)
      ensures c.Valid() && c.a == 1.0
      ensures InUnit(r) && InUnit(g) && InUnit(b) ==> c.Get() == [r, g, b, 1.0]
    {
      New(r, g, b, 1.0)
    }

    /** `ColorRGBA::new_unsafe`: the arguments are stored as given. */
    static function NewUnsafe(r: real, g: real, b: real, a: real): (c: ColorRGBA)
      ensures c.Get() == [r, g, b, a]
    {
      ColorRGBA(r, g, b, a)
    }

    /** `get`: the components in the order red, green, blue, alpha; building
        a colour again from them gives back the same colour. */
    function Get(): (v: seq<real>)
      ensures v == [r, g, b, a]
      ensures Valid() ==> New(v[0], v[1], v[2], v[3]) == this
    {
      [r, g, b, a]
    }

    /** The `Color` capability: an RGBA colour is its own RGBA form. */
    function GetRgba(): (c: ColorRGBA)
      ensures c.Get() == Get()
    {
      this
    }
  }

  /** A colour in HSLA space. */
  datatype ColorHSLA = ColorHSLA(h: real, s: real, l: real, a: real) {

    /** Hue on the circle `[0, 1)`, every other component in `[0, 1]`. */
    predicate Valid() {
      0.0 <= h < 1.0 && InUnit(s) && InUnit(l) && InUnit(a)
    }

    /** `ColorHSLA::new`: hue wrapped, the rest clamped. */
    static function New(h: real, s: real, l: real, a: real): (c: ColorHSLA)
      ensures c.Valid()
      ensures WrapsTo(h, c.h)
      ensures ClampsTo(s, c.s) && ClampsTo(l, c.l) && ClampsTo(a, c.a)
    {
      ColorHSLA(WrapHue(h), Clamp(s, 0.0, 1.0), Clamp(l, 0.0, 1.0), Clamp(a, 0.0, 1.0))
    }

    /** `ColorHSLA::new_hsl`: `new` with an opaque alpha. */
    static function NewHsl(h: real, s: real, l: real): (c: ColorHSLA)
      ensures c == New(h, s, l, 1.0)
      ensures c.Valid() && c.a == 1.0
      ensures 0.0 <= h < 1.0 && InUnit(s) && InUnit(l) ==> c.Get() == [h, s, l, 1.0]
    {
      New(h, s, l, 1.0)
    }

    /** `ColorHSLA::new_unsafe`: the arguments are stored as given. */
    static function NewUnsafe(h: real, s: real, l: real, a: real): (c: ColorHSLA)
      ensures c.Get() == [h, s, l, a]
    {
      ColorHSLA(h, s, l, a)
    }

    /** `get`: hue, saturation, lightness, alpha. */
    function Get(): (v: seq<real>)
      ensures v == [h, s, l, a]
      ensures Valid() ==> New(v[0], v[1], v[2], v[3]) == this
    {
      [h, s, l, a]
    }
  }

  /** A colour in HSVA space. */
  datatype ColorHSVA = ColorHSVA(h: real, s: real, v: real, a: real) {

    predicate Valid() {
      0.0 <= h < 1.0 && InUnit(s) && InUnit(v) && InUnit(a)
    }

    /** `ColorHSVA::new`: hue wrapped, the rest clamped. */
    static function New(h: real, s: real, v: real, a: real): (c: ColorHSVA)
      ensures c.Valid()
      ensures WrapsTo(h, c.h)
      ensures ClampsTo(s, c.s) && ClampsTo(v, c.v) && ClampsTo(a, c.a)
    {
      ColorHSVA(WrapHue(h), Clamp(s, 0.0, 1.0), Clamp(v, 0.0, 1.0), Clamp(a, 0.0, 1.0))
    }

    /** `ColorHSVA::new_hsv`: `new` with an opaque alpha. */
    static function NewHsv(h: real, s: real, v: real): (c: ColorHSVA)
      ensures c == New(h, s, v, 1.0)
      ensures c.Valid() && c.a == 1.0
      ensures 0.0 <= h < 1.0 && InUnit(s) && InUnit(v) ==> c.Get() == [h, s, v, 1.0]
    {
      New(h, s, v, 1.0)
    }

    /** `ColorHSVA::new_unsafe`: the arguments are stored as given. */
    static function NewUnsafe(h: real, s: real, v: real, a: real): (c: ColorHSVA)
      ensures c.Get() == [h, s, v, a]
    {
      ColorHSVA(h, s, v, a)
    }

    /** `get`: hue, saturation, value, alpha. */
    function Get(): (w: seq<real>)
      ensures w == [h, s, v, a]
      ensures Valid() ==> New(w[0], w[1], w[2], w[3]) == this
    {
      [h, s, v, a]
    }
  }

  /** A colour in HSIA space. */
  datatype ColorHSIA = ColorHSIA(h: real, s: real, i: real, a: real) {

    predicate Valid() {
      0.0 <= h < 1.0 && InUnit(s) && InUnit(i) && InUnit(a)
    }

    /** `ColorHSIA::new`: hue wrapped, the rest clamped. */
    static function New(h: real, s: real, i: real, a: real): (c: ColorHSIA)
      ensures c.Valid()
      ensures WrapsTo(h, c.h)
      ensures ClampsTo(s, c.s) && ClampsTo(i, c.i) && ClampsTo(a, c.a)
    {
      ColorHSIA(WrapHue(h), Clamp(s, 0.0, 1.0), Clamp(i, 0.0, 1.0), Clamp(a, 0.0, 1.0))
    }

    /** `ColorHSIA::new_hsi`: `new` with an opaque alpha. */
    static function NewHsi(h: real, s: real, i: real): (c: ColorHSIA)
      ensures c == New(h, s, i, 1.0)
      ensures c.Valid() && c.a == 1.0
      ensures 0.0 <= h < 1.0 && InUnit(s) && InUnit(i) ==> c.Get() == [h, s, i, 1.0]
    {
      New(h, s, i, 1.0)
    }

    /** `ColorHSIA::new_unsafe`: the arguments are stored as given. */
    static function NewUnsafe(h: real, s: real, i: real, a: real): (c: ColorHSIA)
      ensures c.Get() == [h, s, i, a]
    {
      ColorHSIA(h, s, i, a)
    }

    /** `get`: hue, saturation, intensity, alpha. */
    function Get(): (v: seq<real>)
      ensures v == [h, s, i, a]
      ensures Valid() ==> New(v[0], v[1], v[2], v[3]) == this
    {
      [h, s, i, a]
    }
  }

  /** The generic colour of `N` components, `N` being the length of `values`. */
  datatype ColorND = ColorND(values: seq<real>) {

    predicate Valid() {
      forall k :: 0 <= k < |values| ==> InUnit(values[k])
    }

    /** `ColorND::new`: every component clamped, order and count kept. */
    static function New(values: seq<real>): (c: ColorND)
      ensures c.Valid()
      ensures |c.values| == |values|
      ensures forall k :: 0 <= k < |values| ==> ClampsTo(values[k], c.values[k])
    {
      ColorND(seq(|values|, k requires 0 <= k < |values| => Clamp(values[k], 0.0, 1.0)))
    }

    /** `get`: the components in order; building again from them gives back
        the same colour. */
    function Get(): (v: seq<real>)
      ensures v == values
      ensures Valid() ==> New(v) == this
    {
      assert Valid() ==> New(values).values == values;
      values
    }
  }
}
