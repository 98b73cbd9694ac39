/** The ready-made colour maps of `maps.rs`: a map from a one-component
    colour to a colour. The grey map sends its single component to the grey
    of that value, at the map's own alpha. */
module Maps {
  import opened Float
  import opened Definitions
  import Colors
  import Utils

  /** The grey map; `a` is the alpha every colour it gives carries. */
  datatype Grays = Grays(a: real) {

    /** The alpha lies in `[0, 1]`. */
    predicate Valid() {
      InUnit(a)
    }

    /** `Grays::new`: the alpha clamped into `[0, 1]`. */
    static function New(a: real): (m: Grays)
      ensures m.Valid() && ClampsTo(a, m.a)
    {
      Grays(Clamp(a, 0.0, 1.0))
    }

    /** `Grays::new_unsafe`: the alpha stored as given. */
    static function NewUnsafe(a: real): (m: Grays)
      ensures m.a == a
      ensures InUnit(a) ==> m == New(a)
    {
      Grays(a)
    }

    /** `get_color`: the grey whose value is the colour's one component,
        stored without clamping, at the map's alpha. A map and a colour in
        range give a grey in range. The source's `ColorND<1>` fixes the
        number of components at one. */
    function GetColor(color: ColorND): (g: Colors.Grays)
      requires |color.values| == 1
      ensures g.v == color.Get()[0] && g.a == a
      ensures Valid() && color.Valid() ==> g.Valid()
    {
      Colors.Grays.NewUnsafe(color.Get()[0], a)
    }
  }

  /** The whole path from a number to a colour: built through
      `ColorND::new`, mapped and read as RGBA, the number comes out clamped
      into `[0, 1]` in all three channels, at the map's alpha; a map built
      with `new` gives exactly the grey `Grays::new` of `colors.rs` builds. */
  lemma MapsToGrey(grays: Grays, x: real)
    ensures var rgb := grays.GetColor(ColorND.New([x])).GetRgba();
      && Utils.Grey(rgb) && ClampsTo(x, rgb.r) && rgb.a == grays.a
      && (grays.Valid() ==> rgb.Valid())
    ensures forall a :: Grays.New(a).GetColor(ColorND.New([x])) == Colors.Grays.New(x, a)
  {
    assert ClampsTo([x][0], ColorND.New([x]).values[0]);
  }

  /** The map darkens and lightens with its input: a larger component never
      gives a darker grey. */
  lemma Monotone(grays: Grays, x: real, y: real)
    requires x <= y
    ensures grays.GetColor(ColorND.New([x])).v <= grays.GetColor(ColorND.New([y])).v
  {
    MapsToGrey(grays, x);
    MapsToGrey(grays, y);
  }
}
