/** The ready-made colours of `colors.rs`: a grey of a given value and
    alpha, which presents itself to the rest of the crate through its RGBA
    form. */
module Colors {
  import opened Float
  import opened Definitions
  import opened Hub
  import Utils

  /** A grey: `v` runs from black (0) to white (1), `a` is the alpha. */
  datatype Grays = Grays(v: real, a: real) {

    /** Both fields lie in `[0, 1]`. */
    predicate Valid() {
      InUnit(v) && InUnit(a)
    }

    /** `Grays::new`: value and alpha clamped into `[0, 1]`. */
    static function New(v: real, a: real): (g: Grays)
      ensures g.Valid()
      ensures ClampsTo(v, g.v) && ClampsTo(a, g.a)
    {
      Grays(Clamp(v, 0.0, 1.0), Clamp(a, 0.0, 1.0))
    }

    /** `Grays::new_unsafe`: value and alpha stored as given, in range or
        not. */
    static function NewUnsafe(v: real, a: real): (g: Grays)
      ensures g.v == v && g.a == a
      ensures InUnit(v) && InUnit(a) ==> g == New(v, a)
    {
      Grays(v, a)
    }

    /** `get_rgba`: the grey as an RGBA colour, its value in all three
        channels and its alpha kept. In the hub it has no chroma, hue 0 and
        its value as minimum. */
    function GetRgba(): (c: ColorRGBA)
      ensures Utils.Grey(c) && c.r == v && c.a == a
      ensures Valid() <==> c.Valid()
      ensures FromRgb(c) == ColorHCMA(0.0, 0.0, v, a)
    {
      ColorRGBA.NewUnsafe(v, v, v, a)
    }
  }

  /** Building a grey and reading it as RGBA is building the RGBA colour of
      three equal channels: both clamp the same way. */
  lemma NewIsRgbaNew(v: real, a: real)
    ensures Grays.New(v, a).GetRgba() == ColorRGBA.New(v, v, v, a)
  {
  }

  /** Every in-range grey RGBA colour is the RGBA form of the grey of its
      red channel. */
  lemma FromGreyRgba(c: ColorRGBA)
    requires c.Valid() && Utils.Grey(c)
    ensures Grays.New(c.r, c.a).GetRgba() == c
  {
  }

  /** Seen in the other spaces a grey has hue and saturation 0, and its
      value is the HSV value, the HSL lightness and the HSI intensity. */
  lemma GreyInOtherSpaces(g: Grays)
    ensures Utils.RgbToHsv(g.GetRgba()) == ColorHSVA(0.0, 0.0, g.v, g.a)
    ensures Utils.RgbToHsl(g.GetRgba()) == ColorHSLA(0.0, 0.0, g.v, g.a)
    ensures Utils.RgbToHsi(g.GetRgba()) == ColorHSIA(0.0, 0.0, g.v, g.a)
  {
  }
}
