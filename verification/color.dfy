/**
 The colour model: a colour is three RGB channels, nominally in [0, 1]. It is
 built from hue/saturation/value by the chroma-and-sector construction, read back
 to HSV through a pairwise max/min scan, and exported as a `#RRGGBB` string.
 All channels are exact reals rather than 32-bit floats.
 */
module Colors {
  import opened Numeric
  import opened HexFormat

  datatype Color = Color(red: real, green: real, blue: real)

  /** A hue in degrees, a saturation and a value, as the palette emits them. */
  datatype Hsv = Hsv(hue: real, saturation: real, value: real)

  /**
   What reading a colour back to HSV yields. The hue is `None` when all channels
   are equal: the conversion would divide by a zero spread there.
   */
  datatype HsvReading = HsvReading(hue: Option<real>, saturation: real, value: real)

  /** The channel an HSV reading takes its hue formula from. */
  datatype Channel = Red | Green | Blue

  predicate InUnit(x: real) {
    0.0 <= x <= 1.0
  }

  predicate ValidColor(c: Color) {
    InUnit(c.red) && InUnit(c.green) && InUnit(c.blue)
  }

  function MaxChannelValue(c: Color): real {
    Max(Max(c.red, c.green), c.blue)
  }

  function MinChannelValue(c: Color): real {
    Min(Min(c.red, c.green), c.blue)
  }

  // ---------------------------------------------------------------- accessors

  function ToArray(c: Color): (a: seq<real>)
    ensures |a| == 3
    ensures a[0] == c.red && a[1] == c.green && a[2] == c.blue
  {
    [c.red, c.green, c.blue]
  }

  function ToTuple(c: Color): (t: (real, real, real))
    ensures t.0 == c.red && t.1 == c.green && t.2 == c.blue
  {
    (c.red, c.green, c.blue)
  }

  /** The three channels followed by an opaque alpha of 1. */
  function ToRgbaArray(c: Color): (a: seq<real>)
    ensures |a| == 4
    ensures a[..3] == ToArray(c)
    ensures a[3] == 1.0
  {
    [c.red, c.green, c.blue, 1.0]
  }

  // ---------------------------------------------------------------- HSV -> RGB

  /**
   Which of the six half-open intervals [k, k+1), k = 0..5, holds `h` (the hue
   divided by 60); 6 when none does, which is the grey fallback.
   */
  function Sector(h: real): (k: nat)
    ensures k <= 6
    ensures k < 6 <==> 0.0 <= h < 6.0
    ensures k < 6 ==> k as real <= h < k as real + 1.0
  {
    if 0.0 <= h < 1.0 then 0
    else if 1.0 <= h < 2.0 then 1
    else if 2.0 <= h < 3.0 then 2
    else if 3.0 <= h < 4.0 then 3
    else if 4.0 <= h < 5.0 then 4
    else if 5.0 <= h < 6.0 then 5
    else 6
  }

  /** The channel triple before the brightness offset: chroma, the second component `x`, and zero, placed by sector. */
  function SectorTriple(k: nat, chroma: real, x: real): (t: (real, real, real))
    // Past the last sector the triple is black.
    ensures k >= 6 ==> t == (0.0, 0.0, 0.0)
  {
    match k
    case 0 => (chroma, x, 0.0)
    case 1 => (x, chroma, 0.0)
    case 2 => (0.0, chroma, x)
    case 3 => (0.0, x, chroma)
    case 4 => (x, 0.0, chroma)
    case 5 => (chroma, 0.0, x)
    case _ => (0.0, 0.0, 0.0)
  }

  /** The second-largest channel's share of the chroma, `1 - |(h mod 2) - 1|`. */
  function SecondShare(h: real): (w: real)
    ensures h >= 0.0 ==> 0.0 <= w <= 1.0
  {
    1.0 - Abs(FRem(h, 2.0) - 1.0)
  }

  function HsvToRgb(hue: real, saturation: real, value: real): (c: Color)
    // Off the six sectors (a negative hue, or one of 360 or more) every channel
    // is the offset value - chroma: a grey.
    ensures !(0.0 <= hue < 360.0) ==>
              c.red == value - value * saturation && c.green == c.red && c.blue == c.red
  {
    var hue2 := hue / 60.0;
    Compose(Sector(hue2), saturation, value, SecondShare(hue2))
  }

  /**
   The colour of sector `k` whose second component takes the share `w` of the
   chroma `value * saturation`, raised by `value - chroma`.
   */
  function Compose(k: nat, saturation: real, value: real, w: real): (c: Color)
    // Past the last sector only the offset remains: a grey at value - chroma.
    ensures k >= 6 ==> c.red == value - value * saturation && c.green == c.red && c.blue == c.red
  {
    var chroma := value * saturation;
    Offset(SectorTriple(k, chroma, chroma * w), value - chroma)
  }

  /** Adds the brightness offset `m` to every channel of a triple. */
  function Offset(t: (real, real, real), m: real): (c: Color)
    ensures c.red - m == t.0 && c.green - m == t.1 && c.blue - m == t.2
  {
    Color(t.0 + m, t.1 + m, t.2 + m)
  }

  function FromHsv(h: Hsv): Color {
    HsvToRgb(h.hue, h.saturation, h.value)
  }

  // ---------------------------------------------------------------- RGB -> HSV

  /**
   The running maximum and minimum of `to_hsv`'s if/else-if scan: start both
   at red, then let green and then blue raise the maximum or, failing that,
   lower the minimum.
   */
  function ScanMaxMin(r: real, g: real, b: real): (e: (real, real))
    ensures e.0 >= r && e.0 >= g && e.0 >= b
    ensures e.0 == r || e.0 == g || e.0 == b
    ensures e.1 <= r && e.1 <= g && e.1 <= b
    ensures e.1 == r || e.1 == g || e.1 == b
  {
    var (max1, min1) := if g > r then (g, r) else if g < r then (r, g) else (r, r);
    if b > max1 then (b, min1) else if b < min1 then (max1, b) else (max1, min1)
  }

  /** The hue formula's branch: red when it is a maximum, else green when it is, else blue. */
  function HueChannel(c: Color): (ch: Channel)
    ensures ch == Red <==> c.red >= c.green && c.red >= c.blue
    ensures ch == Green <==> c.green > c.red && c.green >= c.blue
    ensures ch == Blue <==> c.blue > c.red && c.blue > c.green
  {
    var cmax := ScanMaxMin(c.red, c.green, c.blue).0;
    if cmax == c.red then Red else if cmax == c.green then Green else Blue
  }

  /** The piecewise hue, in degrees, for the branch `ch` and a nonzero spread `delta` between the extremes. */
  function HueFormula(ch: Channel, c: Color, delta: real): (h: real)
    requires delta != 0.0
    // With the spread bounding the difference it divides, each branch lands in
    // its own band of the wheel; the red band reaches below zero.
    ensures ch == Red && delta > 0.0 && -delta <= c.green - c.blue <= delta ==> -60.0 <= h <= 60.0
    ensures ch == Green && delta > 0.0 && -delta <= c.blue - c.red <= delta ==> 60.0 <= h <= 180.0
    ensures ch == Blue && delta > 0.0 && -delta <= c.red - c.green <= delta ==> 180.0 <= h <= 300.0
  {
    match ch
    case Red =>
      var q := (c.green - c.blue) / delta;
      QuotientInUnit(c.green - c.blue, delta);
      60.0 * FRem(q, 6.0)
    case Green =>
      QuotientInUnit(c.blue - c.red, delta);
      60.0 * ((c.blue - c.red) / delta + 2.0)
    case Blue =>
      QuotientInUnit(c.red - c.green, delta);
      60.0 * ((c.red - c.green) / delta + 4.0)
  }

  function ToHsv(c: Color): (h: HsvReading)
    ensures h.value == MaxChannelValue(c)
    ensures h.hue.None? <==> MaxChannelValue(c) == MinChannelValue(c)
    ensures MaxChannelValue(c) == 0.0 ==> h.saturation == 0.0
    ensures MaxChannelValue(c) != 0.0 ==>
              h.saturation * MaxChannelValue(c) == MaxChannelValue(c) - MinChannelValue(c)
  {
    var (r, g, b) := ToTuple(c);
    var (cmax, cmin) := ScanMaxMin(r, g, b);
    var delta := cmax - cmin;
    var hue := if delta == 0.0 then None else Some(HueFormula(HueChannel(c), c, delta));
    var saturation := if cmax == 0.0 then 0.0 else delta / cmax;
    HsvReading(hue, saturation, cmax)
  }

  // ---------------------------------------------------------------- hex

  /** One channel as the byte `to_hex` prints: `(x * 255).round() as u32`. */
  function ChannelByte(x: real): (n: nat)
    ensures n <= U32_MAX
    ensures InUnit(x) ==> n <= 255 && n as real <= 255.0 * x + 0.5 < n as real + 1.0
  {
    SaturateU32(Round(x * 255.0))
  }

  function ToHex(c: Color): (s: string)
    ensures |s| >= 7 && s[0] == '#' && IsUpperHex(s[1..])
    ensures ValidColor(c) ==> |s| == 7
    ensures ValidColor(c) ==>
              ParseHexColor(s) == Some((ChannelByte(c.red), ChannelByte(c.green), ChannelByte(c.blue)))
  {
    var r, g, b := Format02X(ChannelByte(c.red)), Format02X(ChannelByte(c.green)), Format02X(ChannelByte(c.blue));
    HexColorParts(r, g, b);
    "#" + r + g + b
  }

  /** Gluing `#` and three hex fields: the result is `#` and upper hex, and two-digit fields read back. */
  lemma HexColorParts(r: string, g: string, b: string)
    requires IsUpperHex(r) && IsUpperHex(g) && IsUpperHex(b)
    requires |r| >= 2 && |g| >= 2 && |b| >= 2
    ensures var s := "#" + r + g + b;
            && |s| >= 7 && s[0] == '#' && IsUpperHex(s[1..])
            && (|r| == 2 && |g| == 2 && |b| == 2 ==> |s| == 7 && s[1..3] == r && s[3..5] == g && s[5..7] == b)
  {
    var s := "#" + r + g + b;
    assert s[1..] == r + g + b;
    UpperHexConcat(r, g);
    UpperHexConcat(r + g, b);
    if |r| == 2 && |g| == 2 && |b| == 2 {
      assert s[1..3] == r && s[3..5] == g && s[5..7] == b;
    }
  }

  /** Reads a `#RRGGBB` string back into its three bytes. */
  function ParseHexColor(s: string): (r: Option<(nat, nat, nat)>)
    ensures r.Some? <==> |s| == 7 && s[0] == '#' && IsUpperHex(s[1..])
    ensures r.Some? ==> r.value.0 < 256 && r.value.1 < 256 && r.value.2 < 256
  {
    if |s| == 7 && s[0] == '#' then
      var r, g, b := ParseHex(s[1..3]), ParseHex(s[3..5]), ParseHex(s[5..7]);
      assert IsUpperHex(s[1..]) <==> IsUpperHex(s[1..3]) && IsUpperHex(s[3..5]) && IsUpperHex(s[5..7]) by {
        assert forall i :: 0 <= i < 2 ==> s[1..3][i] == s[1..][i] && s[3..5][i] == s[1..][i + 2] && s[5..7][i] == s[1..][i + 4];
      }
      if r.Some? && g.Some? && b.Some? then Some((r.value, g.value, b.value)) else None
    else None
  }
}
