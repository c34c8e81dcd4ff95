# colourado_iterator, modelled in Dafny

This project models the core of the Rust crate `colourado_iterator`. The crate generates an endless palette of colours. It has two layers.

- **The colour model** (`src/color.rs`). A `Color` holds three channels in [0, 1]. It is built from hue/saturation/value by the chroma-and-sector construction (`hsv_to_rgb`). It is read back to HSV through an if/else-if max/min scan (`to_hsv`), exported as a `#RRGGBB` string (`to_hex`), and viewed as an array, a tuple or an RGBA array.
- **The palette generators** (`src/lib.rs`). An `HsvPalette` is an iterator whose hue walks around the colour wheel. Each step adds a divergence (25 for adjacent colours, 80 otherwise, never below 15) and a trigonometric shift of the iteration count. Saturation and value follow per-mode trigonometric curves: random, pastel and dark. A `ColorPalette` wraps an `HsvPalette` and converts each triple to RGB.

The model is split into five files.

- `numeric.dfy` (module `Numeric`) holds exact-real versions of the `f32` operations used:
  - `abs`, max and min;
  - the float remainder `%`, which truncates toward zero, so the remainder keeps the dividend's sign;
  - `round`, which rounds halves away from zero;
  - the saturating cast `as u32`.
- `hex.dfy` (module `HexFormat`) models `{:02X}` formatting. It comes with a parser, used as the formatter's inverse.
- `color.dfy` (module `Colors`) models the colour type and its operations.
- `color_lemmas.dfy` (module `ColorLemmas`) proves:
  - channel bounds;
  - the sector partition;
  - the RGB→HSV∘HSV→RGB round trip;
  - the crate's `test_convert_hsv_rgb` and `test_convert_hex` tests (src/color.rs), computed over exact reals.
- `palette.dfy` (module `Palette`) models the generator state, one step, `take(n)` and the RGB wrapper.

Each step of an iterator is a pure function: it takes the state and returns the next state together with the item. The trigonometric functions are a parameter `Trig`.
- Sine and cosine return values in [-1, 1]; their subset type is all the model knows about them.
- Tangent is unconstrained.

The random start hue is a parameter of the constructor, typed as a value in [0, 360), the range `gen_range(0.0..360.0)` draws from.

Where the code differs from the textbook HSV/RGB description, the model follows the code.
- **Hue update.** The new hue is `|hue + div + f| % 360`: the absolute value is taken before the remainder, not after it.
- **Out-of-range hues.** HSV→RGB on a hue outside [0, 360) returns the grey `(v - v·s, v - v·s, v - v·s)`, not black. The fallback triple `(0, 0, 0)` still gets the offset `m = v - v·s` added.
- **Round trip above 300°.** For hues in [300, 360) the round trip returns `hue - 360`. That hue lies in [-60, 0): the red branch's `% 6.0` of a negative ratio stays negative. `ColorLemmas.RoundTrip` states this exactly.
- **Achromatic colours.** When all channels are equal, the Rust code divides by a zero spread and gets NaN. The model returns the explicit undefined hue `None`.

## Model

| member | source | states |
|---|---|---|
| Numeric.FRem | src/color.rs:34 | the float remainder by 2, 6 or 360: non-negative and below the modulus for a non-negative dividend, in (-m, 0] for a negative one, the dividend itself inside (-m, m), the dividend less one modulus on [m, 2m) |
| Numeric.Round | src/color.rs:96 | `round` gives the nearest integer, within 0.5; for non-negative x it is the floor of x + 0.5; its sign follows x |
| Numeric.SaturateU32 | src/color.rs:96 | `as u32` clamps to [0, 2^32 - 1] and keeps values inside that range |
| HexFormat.UpperHex | src/color.rs:96 | the uppercase hex digits of n: at least one, one exactly when n < 16, at most two exactly when n < 256 |
| HexFormat.ParseHex | src/color.rs:96 | reading digits back succeeds exactly on uppercase hex strings; one digit is below 16, two are below 256 |
| HexFormat.UpperHexRoundTrip | src/color.rs:96 | parsing the digits of n gives back n |
| HexFormat.Format02X | src/color.rs:96 | `{:02X}` output is uppercase hex, at least two digits, exactly two when n < 256, and parses back to n |
| Colors.ToArray | src/color.rs:16-18 | three entries: red, green, blue in that order |
| Colors.ToTuple | src/color.rs:21-23 | the tuple lists red, green, blue in that order |
| Colors.ToRgbaArray | src/color.rs:26-28 | four entries: the three channels of `to_array`, then alpha 1 |
| Colors.Sector | src/color.rs:36-44 | the six half-open sector tests: a sector below 6 exactly when hue/60 lies in [0, 6), and then hue/60 lies in [k, k+1) |
| Colors.SecondShare | src/color.rs:34 | the second component's share `1 - abs((h % 2) - 1)` lies in [0, 1] for non-negative h |
| Colors.HsvToRgb | src/color.rs:31-56 | off the six sectors every channel equals value - value·saturation |
| Colors.SectorTriple | src/color.rs:36-44 | a hue2 outside the six sectors gives the black triple (0, 0, 0) |
| Colors.Compose | src/color.rs:32-49 | outside the six sectors only the offset survives: all three channels equal v - v·s, a grey |
| Colors.HueFormula | src/color.rs:78-84 | when the spread is positive and bounds the difference it divides, the red branch lands in [-60, 60], green in [60, 180], blue in [180, 300] |
| Colors.ScanMaxMin | src/color.rs:62-73 | the pairwise scan finds an upper bound of all three channels that is one of them, and likewise a lower bound |
| Colors.HueChannel | src/color.rs:78-84 | the hue branch is red when red is a maximum; green when green is a maximum and beats red; blue when blue beats both |
| Colors.ToHsv | src/color.rs:59-92 | value is the largest channel; the hue is undefined exactly when max = min; saturation is 0 at max 0 and otherwise (max - min)/max |
| Colors.ChannelByte | src/color.rs:96 | for a channel in [0, 1] the byte is at most 255 and is 255·x rounded to nearest |
| Colors.ToHex | src/color.rs:95-97 | `#` followed by uppercase hex; for a colour in [0, 1] exactly seven characters, whose three pairs parse back to the three channel bytes |
| Colors.ParseHexColor | src/color.rs:95-97 | a `#RRGGBB` reader that succeeds exactly on `#` followed by six uppercase hex digits, with bytes below 256 |
| ColorLemmas.SectorExactlyOne | src/color.rs:36-44 | no value lies in two sectors; on [0, 6) the sector chosen is the floor |
| ColorLemmas.OutOfRangeIsGrey | src/color.rs:43-49 | a hue below 0 or at least 360 takes the fallback arm and gives three equal channels v - v·s |
| ColorLemmas.ShareInSector | src/color.rs:33-34 | inside sector k the share is the offset into the sector for even k and one minus it for odd k |
| ColorLemmas.SectorTripleRearranges | src/color.rs:36-44 | inside the six sectors the triple is a rearrangement (as a multiset) of chroma, tmp and 0 |
| ColorLemmas.OffsetExtremes | src/color.rs:46-49 | adding m to every channel raises the largest and the smallest channel by exactly m |
| ColorLemmas.OffsetTripleBounds | src/color.rs:36-49 | an offset sector triple has maximum chroma + m, minimum m, and every channel between |
| ColorLemmas.ComposeBounds | src/color.rs:32-49 | for s, v, share in [0, 1] the constructed colour is in [0, 1] with max v and min v - v·s |
| ColorLemmas.HsvToRgbBounds | src/color.rs:31-56 | for hue in [0, 360) and s, v in [0, 1]: channels in [0, 1], largest channel v, smallest v - v·s |
| ColorLemmas.ReadChromatic | src/color.rs:74-91 | RGB→HSV of a colour with extremes C + m and m (C > 0): value C + m, saturation C/(C + m), hue from the chosen branch |
| ColorLemmas.HueRange | src/color.rs:78-84 | every hue `to_hsv` reads lies in [-60, 300] |
| ColorLemmas.SectorHue | src/color.rs:78-84 | on each sector triple the chosen branch's formula gives the sector's hue from the ratio q; at ties both branches agree |
| ColorLemmas.ReadSector | src/color.rs:59-92 | RGB→HSV of an offset sector triple returns the sector's hue, C/(C + m) and C + m |
| ColorLemmas.ComposedReading | src/color.rs:59-92 | reading back the colour of sector k at share w returns the sector's hue at w, the saturation and the value |
| ColorLemmas.ComposeRoundTrip | src/color.rs:31-92 | inside sector k at offset f the reading gives hue 60(k + f), less 360 in the last sector, and the original s and v |
| ColorLemmas.RoundTrip | src/color.rs:31-92 | for hue in [0, 360) and s, v in (0, 1], to_hsv(hsv_to_rgb(h, s, v)) is (h, s, v) for h < 300 and (h - 360, s, v) for h ≥ 300 |
| ColorLemmas.RoundTripTestTriples | src/color.rs:106-121 | the four triples of the conversion test come back exactly |
| ColorLemmas.AccessorsAgree | src/color.rs:16-28 | the RGBA array is the array plus alpha 1; the array and tuple agree |
| ColorLemmas.HexOfBytes | src/color.rs:95-97 | the hex string is `#` and the three channel bytes in `{:02X}` form |
| ColorLemmas.HsvAtZeroHue | src/color.rs:31-56 | at hue 0 the construction uses sector 0 with share 0 |
| ColorLemmas.HsvAtTurquoise | src/color.rs:129 | hsv_to_rgb(0.482·360, 0.714, 0.878) is (0.251108, 0.878, 0.810295664) |
| ColorLemmas.HsvAtSienna | src/color.rs:130 | hsv_to_rgb(0.051·360, 0.718, 0.627) is (0.627, 0.314570916, 0.176814) |
| ColorLemmas.HexOfWhite | src/color.rs:126 | hsv_to_rgb(0, 0, 1) formats as `#FFFFFF` |
| ColorLemmas.HexOfBlack | src/color.rs:127 | hsv_to_rgb(0, 0, 0) formats as `#000000` |
| ColorLemmas.HexOfRed | src/color.rs:128 | hsv_to_rgb(0, 1, 1) formats as `#FF0000` |
| ColorLemmas.HexOfTurquoise | src/color.rs:129 | hsv_to_rgb(0.482·360, 0.714, 0.878) formats as `#40E0CF` |
| ColorLemmas.HexOfSienna | src/color.rs:130 | hsv_to_rgb(0.051·360, 0.718, 0.627) formats as `#A0502D` |
| Palette.NewColorPalette | src/lib.rs:63-79 | a new palette starts at iteration 0 with the drawn hue and the given mode, divergence 25 when adjacent and 80 otherwise |
| Palette.Divergence | src/lib.rs:94-98 | the step used is max(base, 15): at least 15 and at least the base, the base itself when it is at least 15 |
| Palette.Shift | src/lib.rs:93 | the hue shift is non-negative, and at most 1 for the dark and pastel cosine shifts |
| Palette.WrapHue | src/lib.rs:100 | `abs(x) % 360` lies in [0, 360), is x for x in [0, 360), is -x for x in (-360, 0], and is x - 360 for x in [360, 720) |
| Palette.NextHue | src/lib.rs:96-100 | the next hue lies in [0, 360); the step div + f is at least 15; from a hue on the wheel it is hue + step when that stays below 360, and hue + step - 360 when it passes 360 once |
| Palette.PaletteDark | src/lib.rs:91-104 | hue in [0, 360); saturation 0.32 + abs(sin(0.75 i))/2 in [0.32, 0.82]; value 0.1 + abs(cos i)/6 in [0.1, 0.1 + 1/6] |
| Palette.PalettePastel | src/lib.rs:106-119 | hue in [0, 360); saturation abs(cos(0.35 i))/5 in [0, 0.2]; value 0.5 + abs(cos i)/2 in [0.5, 1] |
| Palette.PaletteRandom | src/lib.rs:121-144 | hue in [0, 360); saturation abs(sin(0.35 i)) raised to at least 0.4; value abs(cos(6.33 i · 0.5)) clamped into [0.2, 0.85] |
| Palette.Get | src/lib.rs:146-152 | the triple lies in the ranges of the palette's own mode |
| Palette.GetHue | src/lib.rs:100 | every mode's hue is the previous hue plus divergence plus shift, wrapped; with no wrap past 360 it is that sum itself |
| Palette.BoundedAdvance | src/lib.rs:93-100 | for dark and pastel palettes the hue moves on by between div and div + 1 degrees, less a full turn when it passes 360 |
| Palette.WrapHuePeriodic | src/lib.rs:100 | adding 360 to a non-negative angle leaves its wrapped hue unchanged |
| Palette.Next | src/lib.rs:158-163 | a step always yields Some(the current triple) in the mode's ranges; it stores the emitted hue, counts the iteration, and keeps divergence and mode |
| Palette.ColorNext | src/lib.rs:169-175 | an RGB step advances the inner palette like `next` and yields the conversion of its triple, with every channel in [0, 1] |
| Palette.WithinModeDrawable | src/lib.rs:169-175 | any triple in a mode's ranges converts to a colour in [0, 1] whose largest channel is the value |
| Palette.Advance | src/lib.rs:158-163 | after n steps the iteration has grown by n and the divergence and mode are unchanged |
| Palette.Take | src/lib.rs:158-163 | `take(n)` on the HSV iterator yields exactly n items, each in the mode's ranges |
| Palette.ColorTake | src/lib.rs:169-175 | `take(n)` on the RGB iterator yields exactly n colours, each in [0, 1] |
| Palette.AdvanceStep | src/lib.rs:158-163 | n steps and then one more are n + 1 steps |
| Palette.TakeElement | src/lib.rs:158-163 | item i of `take(n)` is the triple emitted after i steps |
| Palette.ColorTakeConverts | src/lib.rs:169-175 | item i of the RGB `take(n)` is hsv_to_rgb of item i of the HSV `take(n)` |
| Palette.TakeFeedback | src/lib.rs:158-163 | item i's hue is item i-1's hue (the start hue for i = 0) plus divergence plus the shift at iteration i, wrapped |
| Palette.GeneratesPalette | src/lib.rs:186-201 | seven colours of a spread random palette from any start hue all have channels in [0, 1] |
| Palette.SpreadWalk | src/lib.rs:121-130 | a spread random palette from hue 0 emits 80 first (tan 0 = 0), then each hue is the previous one plus 80 plus \|tan(55 i)\| for its iteration i, wrapped |

## Left out

- `f32` arithmetic is modelled as exact reals. Rounding error, NaN and infinities are not modelled. The conversion test's tolerance of 3e-5 becomes exact equality in `ColorLemmas.RoundTrip` and `ColorLemmas.RoundTripTestTriples`.
- Colors.ToHsv: returns `None` for the hue of an achromatic colour, where the Rust code computes NaN (0/0 inside the remainder).
- Numeric.FRem: is defined only for the moduli 2, 6 and 360, the only ones the code uses.
- `iteration` is an unbounded natural number. The overflow of `usize` and the precision lost by `iteration as f32` for large counts are not modelled.
- The random number generator is not modelled; the constructor takes the drawn start hue as a parameter.
- The trigonometric functions are parameters, not models of `sin`, `cos` and `tan`. Sine and cosine are known only to return values in [-1, 1].
- `get_inner` and `into_inner` (src/lib.rs:81-87) are the `inner` field of `ColorPalette`.
- The `Debug`, `Copy` and `Clone` derivations and the crate's documentation example carry no behaviour.
- examples/preview.rs, the windowed preview, is not part of this model.
- Numeric.SaturateU32: the cast of NaN to 0 is not modelled, since reals have no NaN.
- Determinism of the generator holds by construction: every step is a function of the state, the trigonometric functions and nothing else.
- Palette.SpreadWalk: the tangent is a parameter, so after the first hue the walk is stated in terms of `|tan(55 i)|` rather than as concrete numbers.
