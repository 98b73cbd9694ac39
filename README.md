# colors — a Dafny model of the colour conversions

This project models the conversion core of the Rust crate `colors`. The
crate has four colour value types: RGBA, HSVA, HSLA and HSIA. It also has
a generic N-component colour, a grey colour and a grey colour map.

Every conversion goes through a private hub, `ColorHCMA`. The hub holds:

- the hue;
- the chroma, which is the greatest channel minus the least;
- the least channel;
- the alpha.

Each space has one encoder into the hub and one decoder out of it. The
twelve public conversions (`rgb_to_hsv`, …, `hsi_to_hsl`) are each an
encoder followed by a decoder. A separate `hsl_to_rgb` in `helper.rs`
computes the same conversion with the closed formula of CSS Color Module
Level 4, section 7.1.

The modules follow the source files:

| module | file | content |
|---|---|---|
| `Float` | (Rust's `f32` methods) | `abs`, `min`, `clamp`, `rem_euclid` and `div_euclid` over the reals |
| `Definitions` | `src/definitions.rs` | the value types, their clamping and hue-wrapping constructors, and `get` |
| `Hub` | `src/utils.rs` | `ColorHCMA`, the four encoders and four decoders, and the round-trip laws of the hub |
| `Utils` | `src/utils.rs` | the twelve public conversions |
| `RoundTrips` | `src/utils.rs` | laws relating the public conversions to each other |
| `TestRows` | `src/utils.rs` | the exact rows of the conversion table the crate's tests check |
| `Helper` | `src/helper.rs` | the CSS `f(n)` formula, as written and corrected |
| `Colors` | `src/colors.rs` | the grey colour `Grays` |
| `Maps` | `src/maps.rs` | the grey colour map `Grays` |

What is proved about the hub and the conversions:

- `ToRgb` is the one decoder with a reference definition: it is proved
  equal to the textbook six-sector table `SectorRgb`. `ToHsv`, `ToHsl`
  and `ToHsi` are specified by their own postconditions and by the
  round trips below.
- Every encoder/decoder pair is proved to round-trip, with the exact
  condition under which it does.
- Every public conversion is related to the one that goes through RGB.
- The CSS formula of `helper.rs` is proved equal to the hub conversion
  once its channel order is corrected.

Everything here is pure: the source builds values and never updates them
in place. The model is therefore datatypes, functions and lemmas.

## Model

| member | source | states |
|---|---|---|
| Float.Clamp | src/definitions.rs:29-36 | `f32::clamp`: the result lies between the bounds; it is the input inside them and the nearer bound outside |
| Float.RemEuclid | src/utils.rs:117-142 | `f32::rem_euclid` for a positive divisor: the remainder lies in `[0, d)` and the input minus it is a whole multiple of `d` |
| Float.DivEuclid | src/utils.rs:117-142 | `f32::div_euclid` for a positive divisor: an integer `q` with `q d <= x < q d + d` |
| Definitions.WrapHue | src/definitions.rs:131-138 | `h.rem_euclid(1.0)`: the hue lands in `[0, 1)`, differs from `h` by whole turns, and a hue already in `[0, 1)` is kept |
| Definitions.ColorRGBA.New | src/definitions.rs:29-36 | every component is clamped into `[0, 1]`, so the colour is valid |
| Definitions.ColorRGBA.NewRgb | src/definitions.rs:48-50 | `new` with alpha 1; in-range channels come back unchanged from `get` |
| Definitions.ColorRGBA.NewUnsafe | src/definitions.rs:63-70 | the components are stored as given, in order |
| Definitions.ColorRGBA.Get | src/definitions.rs:94-96 | red, green, blue, alpha in that order; `new` applied to them rebuilds a valid colour |
| Definitions.ColorRGBA.GetRgba | src/definitions.rs:99-102 | an RGBA colour is its own RGBA form |
| Definitions.ColorHSLA.New | src/definitions.rs:131-138 | the hue is wrapped onto `[0, 1)`; saturation, lightness and alpha are clamped into `[0, 1]` |
| Definitions.ColorHSLA.NewHsl | src/definitions.rs:150-152 | `new` with alpha 1; in-range arguments come back unchanged |
| Definitions.ColorHSLA.NewUnsafe | src/definitions.rs:165-172 | the components are stored as given, in order |
| Definitions.ColorHSLA.Get | src/definitions.rs:196-198 | hue, saturation, lightness, alpha; `new` applied to them rebuilds a valid colour |
| Definitions.ColorHSVA.New | src/definitions.rs:227-234 | the hue is wrapped onto `[0, 1)`; saturation, value and alpha are clamped into `[0, 1]` |
| Definitions.ColorHSVA.NewHsv | src/definitions.rs:246-248 | `new` with alpha 1; in-range arguments come back unchanged |
| Definitions.ColorHSVA.NewUnsafe | src/definitions.rs:261-268 | the components are stored as given, in order |
| Definitions.ColorHSVA.Get | src/definitions.rs:292-294 | hue, saturation, value, alpha; `new` applied to them rebuilds a valid colour |
| Definitions.ColorHSIA.New | src/definitions.rs:323-330 | the hue is wrapped onto `[0, 1)`; saturation, intensity and alpha are clamped into `[0, 1]` |
| Definitions.ColorHSIA.NewHsi | src/definitions.rs:342-344 | `new` with alpha 1; in-range arguments come back unchanged |
| Definitions.ColorHSIA.NewUnsafe | src/definitions.rs:357-364 | the components are stored as given, in order |
| Definitions.ColorHSIA.Get | src/definitions.rs:388-390 | hue, saturation, intensity, alpha; `new` applied to them rebuilds a valid colour |
| Definitions.ColorND.New | src/definitions.rs:405-416 | each component is clamped into `[0, 1]`; count and order are kept |
| Definitions.ColorND.Get | src/definitions.rs:419-421 | the components in order; `new` applied to them rebuilds a valid colour |
| Hub.MinMaxIndices | src/utils.rs:29-41 | two distinct indices that pick out the least and the greatest of three channels |
| Hub.FromRgb | src/utils.rs:25-74 | the hub's minimum is the least channel and minimum plus chroma the greatest; the chroma is 0 exactly for greys; the hub is canonical; an in-range colour gives an in-range hub |
| Hub.ExtremeChannels | src/utils.rs:26-51 | the channels the index search picks are the least and the greatest, and they are equal exactly for a grey |
| Hub.FromHsv | src/utils.rs:77-87 | hue and alpha kept; minimum plus chroma is the value; an in-range colour lies in the RGB cube |
| Hub.FromHsl | src/utils.rs:90-100 | hue and alpha kept; minimum plus half the chroma is the lightness; an in-range colour lies in the RGB cube |
| Hub.FromHsi | src/utils.rs:103-114 | hue and alpha kept; `3m + c(1 + z)` is three times the intensity, `z` being the hue's wave; an in-range colour has no negative chroma or minimum |
| Hub.ToRgb | src/utils.rs:117-142 | `to_rgb` keeps the alpha; which channel gets what is stated by `ToRgbIsSectorRgb` |
| Hub.ToRgbIsSectorRgb | src/utils.rs:117-142 | for a hue in `[0, 1)`, the index rotation of `to_rgb` equals the six-sector table |
| Hub.Rotate | src/utils.rs:133-140 | reading `colors` at `(3 - i) % 3`, `(4 - i) % 3`, `(5 - i) % 3` rotates the colours right by `i` places: for `i = 0` red gets the chroma slot, for `i = 1` green, for `i = 2` blue |
| Hub.ToRgbNearZero | src/utils.rs:117-142 | just past red (`0 <= h < 1/6`): red is `m + c`, blue is `m`, and green climbs from `m` as `m + 6ch` |
| Hub.ToRgbNearOne | src/utils.rs:117-142 | just before red again (`5/6 <= h < 1`): red is `m + c`, green is `m`, and blue falls towards `m` as `m + 6c(1 - h)` |
| Hub.ToRgbAtZero | src/utils.rs:117-142 | hue 0 is pure red over the grey level: `(m + c, m, m)` |
| Hub.NoSeamAtOne | src/utils.rs:117-142 | the hue is a circle: as `h` approaches 1, red and green already equal their values at hue 0 and blue differs from it by exactly `6c(1 - h)`, so the colour tends to the colour of hue 0 with no jump |
| Hub.ToRgbSpan | src/utils.rs:117-142 | with no negative chroma, the least decoded channel is `m` and the greatest is `m + c`; an in-range hub gives an in-range colour |
| Hub.SectorRgbBounds | src/utils.rs:117-142 | with no negative chroma, the six-sector table's least channel is `m` and its greatest is `m + c` |
| Hub.ToRgbSum | src/utils.rs:117-142 | the decoded channels sum to `3m + c(1 + z)`, three times the intensity `to_hsi` computes |
| Hub.ToHsv | src/utils.rs:145-150 | the value is `m + c`; saturation times value is the chroma, and black gets saturation 0; an in-range hub gives a valid colour |
| Hub.ToHsl | src/utils.rs:153-159 | the lightness is `m + c/2`; the saturation recovers the chroma, and black and white get saturation 0; an in-range hub gives a valid colour |
| Hub.ToHsi | src/utils.rs:162-168 | three times the intensity is `3m + c(1 + z)`; saturation times intensity is intensity minus minimum, and black gets 0; an in-range hub gives a valid colour |
| Hub.FromRgbThenToRgb | src/utils.rs:25-142 | decoding the hub of any RGB colour gives that colour back |
| Hub.ToRgbThenFromRgb | src/utils.rs:25-142 | for a hue in `[0, 1)`, a hub survives decoding to RGB and encoding back exactly when it is canonical |
| Hub.ToRgbThenFromRgbNormalises | src/utils.rs:25-142 | a hub without negative chroma comes back from RGB unchanged, except that a chromaless hub's hue becomes 0 |
| Hub.GreyHub | src/utils.rs:56-63 | a grey's hub has hue 0, chroma 0 and the grey's level as minimum |
| Hub.ToHsvThenFromHsv | src/utils.rs:77-150 | a hub survives HSV exactly unless it is black with chroma |
| Hub.FromHsvThenToHsv | src/utils.rs:77-150 | an HSV colour survives the hub exactly unless it is black with a saturation |
| Hub.ToHslThenFromHsl | src/utils.rs:90-159 | a hub survives HSL exactly unless its lightness is 0 or 1 while it has chroma |
| Hub.FromHslThenToHsl | src/utils.rs:90-159 | an HSL colour survives the hub exactly unless it is black or white with a saturation |
| Hub.ToHsiThenFromHsi | src/utils.rs:103-168 | a hub survives HSI exactly unless its intensity is 0 while it has chroma |
| Hub.FromHsiThenToHsi | src/utils.rs:103-168 | an HSI colour survives the hub exactly unless it is black with a saturation |
| Utils.RgbToHsv | src/utils.rs:176-178 | the value is the greatest channel and the saturation the spread over the value; greys get hue and saturation 0; an in-range colour gives a valid one whose saturation is 0 exactly for greys |
| Utils.RgbToHsl | src/utils.rs:185-187 | the lightness is the midpoint of the greatest and least channels; greys get hue and saturation 0; an in-range colour gives a valid one whose saturation is 0 exactly for greys |
| Utils.RgbToHsi | src/utils.rs:194-196 | the intensity is the mean of the channels and the saturation one minus the least over the intensity; greys get hue and saturation 0; in range gives in range |
| Utils.HsvToHsl | src/utils.rs:203-205 | hue and alpha kept; an unsaturated colour gives lightness equal to its value; in range gives in range |
| Utils.HsvToHsi | src/utils.rs:212-214 | hue and alpha kept; an unsaturated colour gives intensity equal to its value; in range gives in range |
| Utils.HsvToRgb | src/utils.rs:221-223 | alpha kept; the greatest channel is the value and the least is `v(1 - s)`; an unsaturated colour is the grey of its value; in range gives in range |
| Utils.HslToHsi | src/utils.rs:230-232 | hue and alpha kept; an unsaturated colour gives intensity equal to its lightness; in range gives in range |
| Utils.HslToRgb | src/utils.rs:239-241 | alpha kept; the greatest and least channels average to the lightness; an unsaturated colour is the grey of its lightness; in range gives in range |
| Utils.HslToHsv | src/utils.rs:248-250 | hue and alpha kept; an unsaturated colour gives value equal to its lightness; in range gives in range |
| Utils.HsiToRgb | src/utils.rs:257-259 | alpha kept; the channels average to the intensity; an unsaturated colour is the grey of its intensity; an in-range colour has no negative channel |
| Utils.HsiToHsv | src/utils.rs:266-268 | hue and alpha kept; an unsaturated colour gives value equal to its intensity; an in-range colour gives a saturation in `[0, 1]` |
| Utils.HsiToHsl | src/utils.rs:275-277 | hue and alpha kept; an unsaturated colour gives lightness equal to its intensity; an in-range colour gives a lightness that is not negative |
| RoundTrips.RgbThroughHsv | src/utils.rs:176-223 | an RGB colour survives HSV exactly unless its greatest channel is 0 without it being grey |
| RoundTrips.HsvThroughRgb | src/utils.rs:176-223 | a valid HSV colour survives RGB exactly when black has no saturation and an unsaturated colour has hue 0 |
| RoundTrips.RgbThroughHsl | src/utils.rs:185-241 | an RGB colour survives HSL exactly unless its lightness is 0 or 1 without it being grey |
| RoundTrips.HslThroughRgb | src/utils.rs:185-241 | a valid HSL colour survives RGB exactly when black and white have no saturation and an unsaturated colour has hue 0 |
| RoundTrips.RgbThroughHsi | src/utils.rs:194-259 | an RGB colour survives HSI exactly unless its channels sum to 0 without it being grey |
| RoundTrips.HsiThroughRgb | src/utils.rs:194-259 | a valid HSI colour survives RGB exactly when black has no saturation and an unsaturated colour has hue 0 |
| RoundTrips.HubThroughHsv | src/utils.rs:77-150 | a hub with no negative channel survives HSV |
| RoundTrips.HubThroughHsl | src/utils.rs:90-159 | a hub inside the RGB cube survives HSL |
| RoundTrips.HubThroughHsi | src/utils.rs:103-168 | a hub with no negative channel survives HSI |
| RoundTrips.HsvThroughHsl | src/utils.rs:203-250 | a valid HSV colour survives HSL exactly unless it is black with a saturation |
| RoundTrips.HsvThroughHsi | src/utils.rs:212-268 | a valid HSV colour survives HSI exactly unless it is black with a saturation |
| RoundTrips.HslThroughHsv | src/utils.rs:203-250 | a valid HSL colour survives HSV exactly unless it is black or white with a saturation |
| RoundTrips.HslThroughHsi | src/utils.rs:230-277 | a valid HSL colour survives HSI exactly unless it is black or white with a saturation |
| RoundTrips.HsiThroughHsv | src/utils.rs:212-268 | a valid HSI colour survives HSV exactly unless it is black with a saturation |
| RoundTrips.HsiThroughHsl | src/utils.rs:230-277 | a valid HSI colour whose RGB form is in the cube survives HSL exactly unless it is black with a saturation |
| RoundTrips.HsvToHslViaRgb | src/utils.rs:203-205 | `hsv_to_hsl` equals going through RGB exactly when black and unsaturated colours have hue 0 |
| RoundTrips.HsvToHsiViaRgb | src/utils.rs:212-214 | `hsv_to_hsi` equals going through RGB exactly when black and unsaturated colours have hue 0 |
| RoundTrips.HslToHsvViaRgb | src/utils.rs:248-250 | `hsl_to_hsv` equals going through RGB exactly when black, white and unsaturated colours have hue 0 |
| RoundTrips.HslToHsiViaRgb | src/utils.rs:230-232 | `hsl_to_hsi` equals going through RGB exactly when black, white and unsaturated colours have hue 0 |
| RoundTrips.HsiToHsvViaRgb | src/utils.rs:266-268 | `hsi_to_hsv` equals going through RGB exactly when black and unsaturated colours have hue 0 |
| RoundTrips.HsiToHslViaRgb | src/utils.rs:275-277 | `hsi_to_hsl` equals going through RGB exactly when black and unsaturated colours have hue 0 |
| RoundTrips.HsvViaRgb | src/utils.rs:117-150 | decoding a hub to HSV directly or after a trip through RGB agrees exactly when a chromaless hub has hue 0 |
| RoundTrips.HslViaRgb | src/utils.rs:117-159 | the same for HSL |
| RoundTrips.HsiViaRgb | src/utils.rs:117-168 | the same for HSI |
| RoundTrips.HsvChromaless | src/utils.rs:77-87 | the hub of an HSV colour has no chroma exactly for black and unsaturated colours |
| RoundTrips.HslChromaless | src/utils.rs:90-100 | the hub of an HSL colour has no chroma exactly for black, white and unsaturated colours |
| RoundTrips.HsiLeavesRgbCube | src/utils.rs:257-259 | the valid HSI colour `(0, 1, 1, 1)` converts to the RGB `(3, 0, 0, 1)`, which is outside the cube |
| RoundTrips.HsiThroughHslLosesColour | src/utils.rs:230-277 | the valid HSI red of intensity 2/3 comes back from HSL as white |
| TestRows.GreyscaleRow | src/utils.rs:286-321 | every grey, the table's white, grey and black among them, is a row: all four encoders give its hub and all four decoders give its colours back |
| TestRows.RedRow | src/utils.rs:322-333 | the red row holds in all eight directions |
| TestRows.YellowRow | src/utils.rs:334-345 | the dark yellow row holds in all eight directions |
| TestRows.GreenRow | src/utils.rs:346-357 | the green row holds in all eight directions |
| TestRows.CyanRow | src/utils.rs:358-369 | the cyan row holds in all eight directions |
| TestRows.BlueRow | src/utils.rs:370-381 | the blue row holds in all eight directions |
| TestRows.MagentaRow | src/utils.rs:382-393 | the magenta row holds in all eight directions |
| Helper.Turn | src/helper.rs:166 | `k` lies in `[0, 12)` and differs from `n + 12h` by whole multiples of 12 |
| Helper.Tent | src/helper.rs:168 | the clamped tent lies in `[-1, 1]` |
| Helper.Reach | src/helper.rs:167 | for an in-range colour the reach lies between 0 and `min(l, 1 - l)` |
| Helper.Channel | src/helper.rs:165-169 | each channel lies within the reach of the lightness; without saturation it is the lightness |
| Helper.HslToRgbAsWritten | src/helper.rs:164-172 | the formula as written: alpha kept, an unsaturated colour is the grey of its lightness, in range gives in range |
| Helper.HslToRgb | src/helper.rs:164-172 | the formula with the standard's channel order: the same guarantees as the version as written |
| Helper.Bounded | src/helper.rs:165-169 | every channel of an in-range colour lies in `[0, 1]` |
| Helper.AsWrittenSwapsGreenAndBlue | src/helper.rs:171 | the source's result is the standard's with green and blue exchanged |
| Helper.ChannelByWeight | src/helper.rs:165-169 | every channel is the `from_hsl` hub's minimum plus a share of its chroma |
| Helper.AgreesWithHub | src/helper.rs:164-172 | for a hue in `[0, 1)`, the corrected formula equals the hub conversion `Utils.HslToRgb` |
| Helper.OnGreenHue | src/helper.rs:171 | at hue 1/3 the corrected formula makes green the greatest channel, while the formula as written makes blue the greatest |
| Helper.PureGreenComesOutBlue | src/helper.rs:171 | HSL `(1/3, 1, 1/2)` gives RGB green `(0, 1, 0)` corrected and blue `(0, 0, 1)` as written |
| Colors.Grays.New | src/colors.rs:24-29 | value and alpha are clamped into `[0, 1]` |
| Colors.Grays.NewUnsafe | src/colors.rs:38-40 | value and alpha are stored as given; in-range arguments agree with `new` |
| Colors.Grays.GetRgba | src/colors.rs:46-48 | all three channels are the value and the alpha is kept; the result is valid exactly when the grey is; its hub has no chroma, hue 0 and the value as minimum |
| Colors.NewIsRgbaNew | src/colors.rs:24-48 | building a grey and reading it as RGBA equals building the RGBA colour of three equal channels |
| Colors.FromGreyRgba | src/colors.rs:24-48 | every in-range grey RGBA colour is the RGBA form of a grey |
| Colors.GreyInOtherSpaces | src/colors.rs:46-48 | as HSV, HSL or HSI a grey has hue and saturation 0 and its value as value, lightness or intensity |
| Maps.Grays.New | src/maps.rs:20-24 | the alpha is clamped into `[0, 1]` |
| Maps.Grays.NewUnsafe | src/maps.rs:31-33 | the alpha is stored as given; an in-range alpha agrees with `new` |
| Maps.Grays.GetColor | src/maps.rs:37-39 | the grey's value is the colour's one component, unclamped, and its alpha is the map's; in range gives in range |
| Maps.MapsToGrey | src/maps.rs:37-39 | a number passed through `ColorND::new`, the map and `get_rgba` gives equal channels equal to the number clamped into `[0, 1]`, at the map's alpha; a map built with `new` gives the grey `Grays::new` builds |
| Maps.Monotone | src/maps.rs:37-39 | a larger input never gives a darker grey |

## Left out

- Floating point: `f32` is modelled as exact reals. Rounding, NaN and infinities are not modelled, so the equalities proved here hold for the real-number formulas the code computes.
- Hub.ToRgb: demands a hue in `[0, 1)`, which the source assumes of its callers. Outside that range the source does not compute the colour of the hue. For `1 <= h < 4/3` the sector index is 3 and the result is the colour of `h - 1`. For `h >= 4/3` the unsigned `3 - i` underflows, which panics in a debug build and wraps in a release build. For `h < 0` the cast to `usize` saturates the index to 0 and the rotation is wrong: `h = -1/6` with `c = 1`, `m = 0` gives yellow `(1, 1, 0)`, where the equal hue `5/6` gives magenta `(1, 0, 1)`.
- Utils.HsvToRgb, Utils.HslToRgb, Utils.HsiToRgb: demand a hue in `[0, 1)` for the same reason. Every constructor that clamps wraps the hue into that range.
- Utils.HsiToRgb: does not promise an in-range result, because none exists. HSI colours can lie outside the RGB cube and the source does not clamp them (`RoundTrips.HsiLeavesRgbCube`).
- Utils.HsiToHsv and Utils.HsiToHsl: promise only that value and lightness are not negative, not that they are at most 1, for the same reason.
- RoundTrips.HsiThroughHsl: also demands that the colour's RGB form lies in the cube. Without that, HSL cannot hold the colour (`RoundTrips.HsiThroughHslLosesColour`).
- The copy of `ColorHCMA` in `src/helper.rs` is not modelled separately. It repeats the hub of `src/utils.rs`, and `helper.rs` is not declared as a module of the crate, so it is not compiled.
- `ColorType` and `const TYPE` are left out. `src/colors.rs` uses them, but the crate's definitions do not contain them.
- The `Color` trait's `get_rgba` and the `ColorMap` trait are modelled by their implementations. `get_color` returns `impl Color`, modelled as the concrete `Colors.Grays` it returns.
- The getters (`get_red`, `get_hue`, …) are the datatypes' fields.
- Derived traits (`Debug`, `PartialEq`, `PartialOrd`, `Clone`, `Copy`) and the crate's re-exports are left out.
- The const generic `N` of `ColorND` is the length of its sequence.
- Rows 10 to 19 of the conversion table (`src/utils.rs:394-513`) are left out. They hold inexact colours that the tests compare after rounding to three decimals.
- The rounding helpers `round_hcm` … `round_hsi` (`src/utils.rs:518-565`) are left out, with the test functions that use them.
- The unit tests of `src/definitions.rs` and `src/helper.rs` are left out.

## Findings

| source | as written | input that shows it | evidently intended | confidence | as-written member | corrected member |
|---|---|---|---|---|---|---|
| src/helper.rs:171 | red, green and blue are built from `f(0)`, `f(4)` and `f(8)` | HSL `(1/3, 1, 0.5, a)`, pure green, gives RGB `(0, 0, 1, a)`, pure blue | `f(0)`, `f(8)` and `f(4)`, the order of CSS Color Module Level 4, section 7.1; then HSL `(1/3, 1, 0.5, a)` gives `(0, 1, 0, a)`, and the formula agrees with `utils::hsl_to_rgb` for every hue in `[0, 1)` | not executed | Helper.HslToRgbAsWritten, Helper.PureGreenComesOutBlue | Helper.HslToRgb, Helper.AgreesWithHub |
