/**
 Properties of the colour model: the six sectors partition [0, 6), HSV→RGB keeps
 channels in [0, 1] with maximum `value` and minimum `value - chroma`, RGB→HSV
 undoes HSV→RGB (hues of 300° and more come back shifted by -360°, because the
 red-branch remainder keeps the sign of its dividend), and the hex strings of
 the crate's `test_convert_hsv_rgb` and `test_convert_hex` tests (src/color.rs).
 */
module ColorLemmas {
  import opened Numeric
  import opened HexFormat
  import opened Colors

  // ---------------------------------------------------------------- sectors

  predicate InHalfOpen(h: real, k: int) {
    k as real <= h < k as real + 1.0
  }

  /** No value lies in two of the half-open sectors, and on [0, 6) the chosen one is the floor. */
  lemma SectorExactlyOne(h: real, j: int, k: int)
    requires InHalfOpen(h, j) && InHalfOpen(h, k)
    ensures j == k
    ensures 0 <= k < 6 ==> Sector(h) == k
    ensures 0.0 <= h < 6.0 ==> Sector(h) == h.Floor
  {
  }

  /** Where the hue leaves [0, 360), HSV→RGB falls to the default arm and returns grey. */
  lemma OutOfRangeIsGrey(hue: real, s: real, v: real)
    requires hue < 0.0 || hue >= 360.0
    ensures Sector(hue / 60.0) == 6
    ensures var c := HsvToRgb(hue, s, v);
            c.red == c.green == c.blue == v - v * s
  {
  }

  /** Inside sector k the remainder mod 2 is the offset in the sector, plus one for odd k. */
  lemma {:induction false} ShareInSector(h: real)
    requires 0.0 <= h < 6.0
    ensures var k := Sector(h);
            SecondShare(h) == if k % 2 == 0 then h - k as real else 1.0 - (h - k as real)
  {
    var k := Sector(h);
    var q := Trunc(h / 2.0);
    assert q == k / 2 by {
      assert (k / 2) as real <= h / 2.0 < (k / 2) as real + 1.0;
    }
    assert FRem(h, 2.0) == h - 2.0 * (k / 2) as real;
  }

  lemma MulUnitBounds(a: real, w: real)
    requires a >= 0.0 && 0.0 <= w <= 1.0
    ensures 0.0 <= a * w <= a
  {
  }

  // ---------------------------------------------------------------- channel bounds

  /**
   The hue `to_hsv` reads lies in [-60, 300]: the red branch may report a
   negative angle, and no branch reaches past the blue band.
   */
  lemma HueRange(c: Color)
    ensures ToHsv(c).hue.Some? ==> -60.0 <= ToHsv(c).hue.value <= 300.0
  {
    var delta := MaxChannelValue(c) - MinChannelValue(c);
    if delta != 0.0 {
      assert delta > 0.0;
      assert ToHsv(c).hue == Some(HueFormula(HueChannel(c), c, delta));
    }
  }

  /** In each of the six sectors the channel triple is a rearrangement of the chroma, `x` and zero. */
  lemma SectorTripleRearranges(k: nat, chroma: real, x: real)
    requires k < 6
    ensures var t := SectorTriple(k, chroma, x);
            multiset{t.0, t.1, t.2} == multiset{chroma, x, 0.0}
  {
  }

  /** Raising every channel by `m` raises the largest and the smallest channel by `m`. */
  lemma OffsetExtremes(t: (real, real, real), m: real)
    ensures MaxChannelValue(Offset(t, m)) == Max(Max(t.0, t.1), t.2) + m
    ensures MinChannelValue(Offset(t, m)) == Min(Min(t.0, t.1), t.2) + m
  {
  }

  /**
   A sector triple raised by an offset: with the second component between zero
   and the chroma, the channels run from the offset up to chroma plus offset.
   */
  lemma {:induction false} OffsetTripleBounds(k: nat, chroma: real, x: real, m: real)
    requires k < 6 && 0.0 <= x <= chroma
    ensures var c := Offset(SectorTriple(k, chroma, x), m);
            && MaxChannelValue(c) == chroma + m && MinChannelValue(c) == m
            && m <= c.red <= chroma + m && m <= c.green <= chroma + m && m <= c.blue <= chroma + m
  {
  }

  /** The same, stated for a top `v` and bottom `m` inside [0, 1]. */
  lemma {:induction false} OffsetTripleInUnit(k: nat, chroma: real, x: real, m: real, v: real)
    requires k < 6 && 0.0 <= x <= chroma
    requires 0.0 <= m && chroma + m == v && v <= 1.0
    ensures var c := Offset(SectorTriple(k, chroma, x), m);
            ValidColor(c) && MaxChannelValue(c) == v && MinChannelValue(c) == m
  {
    OffsetTripleBounds(k, chroma, x, m);
  }

  /** The chroma `v * s` and second component `chroma * w` sit where the bounds need them. */
  lemma ChromaFacts(s: real, v: real, w: real)
    requires 0.0 <= s <= 1.0 && 0.0 <= v <= 1.0 && 0.0 <= w <= 1.0
    ensures 0.0 <= (v * s) * w <= v * s
    ensures 0.0 <= v - v * s
    ensures v * s + (v - v * s) == v
  {
    MulUnitBounds(v, s);
    var c := v * s;
    MulUnitBounds(c, w);
    assert 0.0 <= c * w <= c;
    assert 0.0 <= v - c;
  }

  /** The bounds below, for one sector `k` and one second-component share `w`. */
  lemma {:induction false} ComposeBounds(k: nat, s: real, v: real, w: real)
    requires k < 6 && InUnit(s) && InUnit(v) && InUnit(w)
    ensures var c := Compose(k, s, v, w);
            ValidColor(c) && MaxChannelValue(c) == v && MinChannelValue(c) == v - v * s
  {
    ChromaFacts(s, v, w);
    OffsetTripleInUnit(k, v * s, (v * s) * w, v - v * s, v);
  }

  /**
   For a hue in [0, 360) and saturation and value in [0, 1], every channel is in
   [0, 1], the largest channel is the value and the smallest is value - chroma.
   */
  lemma {:induction false} HsvToRgbBounds(hue: real, s: real, v: real)
    requires 0.0 <= hue < 360.0 && InUnit(s) && InUnit(v)
    ensures ValidColor(HsvToRgb(hue, s, v))
    ensures MaxChannelValue(HsvToRgb(hue, s, v)) == v
    ensures MinChannelValue(HsvToRgb(hue, s, v)) == v - v * s
  {
    var h2 := hue / 60.0;
    assert 0.0 <= h2 < 6.0;
    ComposeBounds(Sector(h2), s, v, SecondShare(h2));
  }

  // ---------------------------------------------------------------- round trip

  // The products and quotients below are kept apart from the colour functions:
  // each lemma names its product `p` so that callers reason about plain variables.

  lemma PositiveProduct(a: real, b: real, p: real)
    requires a > 0.0 && b > 0.0 && p == a * b
    ensures p > 0.0
  {
  }

  lemma UnitProduct(a: real, w: real, p: real)
    requires a >= 0.0 && 0.0 <= w <= 1.0 && p == a * w
    ensures 0.0 <= p <= a
  {
  }

  /** Dividing a multiple `p = c * w` of a positive `c` by `c` gives back the factor. */
  lemma CancelFactor(c: real, w: real, p: real)
    requires c > 0.0 && p == c * w
    ensures p / c == w
  {
  }

  lemma BelowIff(c: real, w: real, p: real)
    requires c > 0.0 && p == c * w
    ensures p < c <==> w < 1.0
  {
  }

  lemma NegateQuotient(x: real, c: real)
    requires c != 0.0
    ensures (-x) / c == -(x / c)
  {
  }

  /** Chroma over chroma-plus-offset, which is the value, is the saturation again. */
  lemma SaturationRatio(v: real, s: real, C: real, m: real)
    requires v > 0.0 && C == v * s && m == v - C
    ensures C / (C + m) == s
  {
    assert C + m == v;
    CancelFactor(v, s, C);
  }

  /** RGB→HSV of a chromatic colour, once its extremes `C + m` and `m` are known. */
  lemma ReadChromatic(c: Color, C: real, m: real)
    requires C > 0.0 && MaxChannelValue(c) == C + m && MinChannelValue(c) == m
    ensures ToHsv(c).value == C + m
    ensures C + m != 0.0 ==> ToHsv(c).saturation == C / (C + m)
    ensures ToHsv(c).hue == Some(HueFormula(HueChannel(c), c, C))
  {
  }

  /** The hue, in degrees, that the formula of sector `k` gives for the ratio `q` of second component to chroma. */
  function SectorAngle(k: nat, q: real): real {
    if k == 0 then 60.0 * q
    else if k == 1 then 60.0 * (2.0 - q)
    else if k == 2 then 60.0 * (q + 2.0)
    else if k == 3 then 60.0 * (4.0 - q)
    else if k == 4 then 60.0 * (q + 4.0)
    else -60.0 * q
  }

  /**
   The hue formula on a sector triple (chroma `C`, second component `x`, ratio
   `q = x / C`) raised by an offset `m`: it recovers the position in the sector
   from `q`, and where two channels tie both branches give the same hue.
   */
  lemma {:induction false} SectorHue(c: Color, k: nat, C: real, x: real, m: real, q: real)
    requires k < 6 && C > 0.0
    requires c == Offset(SectorTriple(k, C, x), m)
    requires q == x / C && 0.0 <= q <= 1.0 && 0.0 <= x <= C
    requires x < C <==> q < 1.0
    requires k % 2 == 0 ==> x < C
    ensures HueFormula(HueChannel(c), c, C) == SectorAngle(k, q)
  {
    NegateQuotient(x, C);
    if k == 0 {
      assert HueChannel(c) == Red && c.green - c.blue == x;
    } else if k == 1 && x == C {
      assert HueChannel(c) == Red && c.green - c.blue == C;
    } else if k == 1 {
      assert HueChannel(c) == Green && c.blue - c.red == -x;
    } else if k == 2 {
      assert HueChannel(c) == Green && c.blue - c.red == x;
    } else if k == 3 && x == C {
      assert HueChannel(c) == Green && c.blue - c.red == C;
    } else if k == 3 {
      assert HueChannel(c) == Blue && c.red - c.green == -x;
    } else if k == 4 {
      assert HueChannel(c) == Blue && c.red - c.green == x;
    } else {
      assert HueChannel(c) == Red && c.green - c.blue == -x;
    }
  }

  /** RGB→HSV of a whole sector triple raised by a non-negative offset. */
  lemma {:induction false} ReadSector(c: Color, k: nat, C: real, x: real, m: real, q: real)
    requires k < 6 && C > 0.0 && m >= 0.0
    requires c == Offset(SectorTriple(k, C, x), m)
    requires q == x / C && 0.0 <= q <= 1.0 && 0.0 <= x <= C
    requires x < C <==> q < 1.0
    requires k % 2 == 0 ==> x < C
    ensures ToHsv(c) == HsvReading(Some(SectorAngle(k, q)), C / (C + m), C + m)
  {
    OffsetTripleBounds(k, C, x, m);
    ReadChromatic(c, C, m);
    SectorHue(c, k, C, x, m, q);
  }

  /** `ReadSector` with the chroma and offset known to come from saturation `s` and value `v`. */
  lemma {:induction false} ReadComposed(c: Color, k: nat, s: real, v: real, C: real, x: real, m: real, q: real)
    requires k < 6 && C > 0.0 && m >= 0.0
    requires c == Offset(SectorTriple(k, C, x), m)
    requires q == x / C && 0.0 <= q <= 1.0 && 0.0 <= x <= C
    requires x < C <==> q < 1.0
    requires k % 2 == 0 ==> x < C
    requires C / (C + m) == s && C + m == v
    ensures ToHsv(c) == HsvReading(Some(SectorAngle(k, q)), s, v)
  {
    ReadSector(c, k, C, x, m, q);
  }

  /** With the share `f` or `1 - f` by parity, the sector's formula gives back `60 (k + f)`, less 360 in the last sector. */
  lemma SectorAngleOfShare(k: nat, f: real)
    requires k < 6
    ensures var hue := 60.0 * (k as real + f);
            SectorAngle(k, if k % 2 == 0 then f else 1.0 - f) == if k < 5 then hue else hue - 360.0
  {
  }

  /** The chroma `C = v * s`, second component `x = C * w` and offset `m = v - C` meet `ReadComposed`'s arithmetic demands. */
  lemma ChromaParts(s: real, v: real, w: real, C: real, x: real, m: real)
    requires 0.0 < s <= 1.0 && 0.0 < v <= 1.0 && 0.0 <= w <= 1.0
    requires C == v * s && x == C * w && m == v - C
    ensures C > 0.0 && m >= 0.0 && 0.0 <= x <= C
    ensures w == x / C && (x < C <==> w < 1.0)
    ensures C / (C + m) == s && C + m == v
  {
    PositiveProduct(v, s, C);
    UnitProduct(v, s, C);
    UnitProduct(C, w, x);
    CancelFactor(C, w, x);
    BelowIff(C, w, x);
    SaturationRatio(v, s, C, m);
  }

  /** RGB→HSV of the colour of sector `k` at share `w`: the sector's formula at `w`, and the saturation and value. */
  lemma {:induction false} ComposedReading(c: Color, k: nat, s: real, v: real, w: real)
    requires k < 6 && 0.0 < s <= 1.0 && 0.0 < v <= 1.0 && 0.0 <= w <= 1.0
    requires k % 2 == 0 ==> w < 1.0
    requires c == Compose(k, s, v, w)
    ensures ToHsv(c) == HsvReading(Some(SectorAngle(k, w)), s, v)
  {
    var C := v * s;
    var x := C * w;
    var m := v - C;
    ChromaParts(s, v, w, C, x, m);
    ReadComposed(c, k, s, v, C, x, m, w);
  }

  /**
   The round trip inside sector `k` at offset `f` into the sector: the share is
   `f` in even sectors and `1 - f` in odd ones, as the remainder mod 2 makes it.
   */
  lemma {:induction false} ComposeRoundTrip(k: nat, s: real, v: real, f: real)
    requires k < 6 && 0.0 <= f < 1.0 && 0.0 < s <= 1.0 && 0.0 < v <= 1.0
    ensures var w := if k % 2 == 0 then f else 1.0 - f;
            var hue := 60.0 * (k as real + f);
            ToHsv(Compose(k, s, v, w)) == HsvReading(Some(if k < 5 then hue else hue - 360.0), s, v)
  {
    var w := if k % 2 == 0 then f else 1.0 - f;
    ComposedReading(Compose(k, s, v, w), k, s, v, w);
    SectorAngleOfShare(k, f);
  }

  /**
   HSV→RGB then RGB→HSV gives back the triple for every chromatic colour
   (saturation and value above zero). A hue in [300, 360) is read back as
   hue - 360: the red branch's `% 6` of a negative ratio stays negative.
   */
  lemma {:induction false} RoundTrip(h: real, s: real, v: real)
    requires 0.0 <= h < 360.0 && 0.0 < s <= 1.0 && 0.0 < v <= 1.0
    ensures ToHsv(HsvToRgb(h, s, v)) == HsvReading(Some(if h < 300.0 then h else h - 360.0), s, v)
  {
    var h2 := h / 60.0;
    assert 0.0 <= h2 < 6.0;
    var k := Sector(h2);
    ShareInSector(h2);
    ComposeRoundTrip(k, s, v, h2 - k as real);
  }

  /** The four triples of the crate's `test_convert_hsv_rgb` come back unchanged. */
  lemma RoundTripTestTriples()
    ensures ToHsv(HsvToRgb(20.85, 0.51, 0.7051166)) == HsvReading(Some(20.85), 0.51, 0.7051166)
    ensures ToHsv(HsvToRgb(130.67574, 0.85, 0.51)) == HsvReading(Some(130.67574), 0.85, 0.51)
    ensures ToHsv(HsvToRgb(7.302415, 0.85, 0.7659915)) == HsvReading(Some(7.302415), 0.85, 0.7659915)
    ensures ToHsv(HsvToRgb(0.43018022, 0.11269033, 0.85)) == HsvReading(Some(0.43018022), 0.11269033, 0.85)
  {
    RoundTrip(20.85, 0.51, 0.7051166);
    RoundTrip(130.67574, 0.85, 0.51);
    RoundTrip(7.302415, 0.85, 0.7659915);
    RoundTrip(0.43018022, 0.11269033, 0.85);
  }

  // ---------------------------------------------------------------- accessors and hex

  /** The array, tuple and RGBA views all list red, green, blue in that order. */
  lemma AccessorsAgree(c: Color)
    ensures ToRgbaArray(c) == ToArray(c) + [1.0]
    ensures ToArray(c) == [ToTuple(c).0, ToTuple(c).1, ToTuple(c).2]
  {
  }

  /** The hex string is `#` and the three channel bytes, each as two uppercase digits. */
  lemma HexOfBytes(c: Color, r: nat, g: nat, b: nat)
    requires ChannelByte(c.red) == r && ChannelByte(c.green) == g && ChannelByte(c.blue) == b
    ensures ToHex(c) == "#" + Format02X(r) + Format02X(g) + Format02X(b)
  {
  }

  /** HSV→RGB at a hue of 0, where the share of the second component is 0. */
  lemma HsvAtZeroHue(s: real, v: real)
    ensures HsvToRgb(0.0, s, v) == Compose(0, s, v, 0.0)
  {
    assert SecondShare(0.0) == 0.0;
  }

  // The five colours of the crate's `test_convert_hex`, each first converted over exact
  // reals and then formatted.

  lemma HsvAtWhite()
    ensures HsvToRgb(0.0, 0.0, 1.0) == Color(1.0, 1.0, 1.0)
  {
    HsvAtZeroHue(0.0, 1.0);
    assert Compose(0, 0.0, 1.0, 0.0) == Color(1.0, 1.0, 1.0);
  }

  lemma HexOfWhiteChannels(c: Color)
    requires c == Color(1.0, 1.0, 1.0)
    ensures ToHex(c) == "#FFFFFF"
  {
    assert ChannelByte(1.0) == 255 && Format02X(255) == "FF";
    HexOfBytes(c, 255, 255, 255);
  }

  lemma HexOfWhite(c: Color)
    requires c == HsvToRgb(0.0, 0.0, 1.0)
    ensures ToHex(c) == "#FFFFFF"
  {
    HsvAtWhite();
    HexOfWhiteChannels(c);
  }

  lemma HsvAtBlack()
    ensures HsvToRgb(0.0, 0.0, 0.0) == Color(0.0, 0.0, 0.0)
  {
    HsvAtZeroHue(0.0, 0.0);
    assert Compose(0, 0.0, 0.0, 0.0) == Color(0.0, 0.0, 0.0);
  }

  lemma HexOfBlackChannels(c: Color)
    requires c == Color(0.0, 0.0, 0.0)
    ensures ToHex(c) == "#000000"
  {
    assert ChannelByte(0.0) == 0 && Format02X(0) == "00";
    HexOfBytes(c, 0, 0, 0);
  }

  lemma HexOfBlack(c: Color)
    requires c == HsvToRgb(0.0, 0.0, 0.0)
    ensures ToHex(c) == "#000000"
  {
    HsvAtBlack();
    HexOfBlackChannels(c);
  }

  lemma HsvAtRed()
    ensures HsvToRgb(0.0, 1.0, 1.0) == Color(1.0, 0.0, 0.0)
  {
    HsvAtZeroHue(1.0, 1.0);
    assert Compose(0, 1.0, 1.0, 0.0) == Color(1.0, 0.0, 0.0);
  }

  lemma HexOfRedChannels(c: Color)
    requires c == Color(1.0, 0.0, 0.0)
    ensures ToHex(c) == "#FF0000"
  {
    assert ChannelByte(1.0) == 255 && Format02X(255) == "FF";
    assert ChannelByte(0.0) == 0 && Format02X(0) == "00";
    HexOfBytes(c, 255, 0, 0);
  }

  lemma HexOfRed(c: Color)
    requires c == HsvToRgb(0.0, 1.0, 1.0)
    ensures ToHex(c) == "#FF0000"
  {
    HsvAtRed();
    HexOfRedChannels(c);
  }

  lemma HsvAtTurquoise()
    ensures HsvToRgb(0.482 * 360.0, 0.714, 0.878) == Color(0.251108, 0.878, 0.810295664)
  {
    assert 0.482 * 360.0 / 60.0 == 2.892;
    assert Sector(2.892) == 2;
    assert FRem(2.892, 2.0) == 0.892;
    assert SecondShare(2.892) == 0.892;
    assert Compose(2, 0.714, 0.878, 0.892) == Color(0.251108, 0.878, 0.810295664);
  }

  lemma HexOfTurquoiseChannels(c: Color)
    requires c == Color(0.251108, 0.878, 0.810295664)
    ensures ToHex(c) == "#40E0CF"
  {
    assert ChannelByte(0.251108) == 64 && Format02X(64) == "40";
    assert ChannelByte(0.878) == 224 && Format02X(224) == "E0";
    assert ChannelByte(0.810295664) == 207 && Format02X(207) == "CF";
    HexOfBytes(c, 64, 224, 207);
  }

  lemma HexOfTurquoise(c: Color)
    requires c == HsvToRgb(0.482 * 360.0, 0.714, 0.878)
    ensures ToHex(c) == "#40E0CF"
  {
    HsvAtTurquoise();
    HexOfTurquoiseChannels(c);
  }

  lemma HsvAtSienna()
    ensures HsvToRgb(0.051 * 360.0, 0.718, 0.627) == Color(0.627, 0.314570916, 0.176814)
  {
    assert 0.051 * 360.0 / 60.0 == 0.306;
    assert Sector(0.306) == 0;
    assert FRem(0.306, 2.0) == 0.306;
    assert SecondShare(0.306) == 0.306;
    assert Compose(0, 0.718, 0.627, 0.306) == Color(0.627, 0.314570916, 0.176814);
  }

  lemma HexOfSiennaChannels(c: Color)
    requires c == Color(0.627, 0.314570916, 0.176814)
    ensures ToHex(c) == "#A0502D"
  {
    assert ChannelByte(0.627) == 160 && Format02X(160) == "A0";
    assert ChannelByte(0.314570916) == 80 && Format02X(80) == "50";
    assert ChannelByte(0.176814) == 45 && Format02X(45) == "2D";
    HexOfBytes(c, 160, 80, 45);
  }

  lemma HexOfSienna(c: Color)
    requires c == HsvToRgb(0.051 * 360.0, 0.718, 0.627)
    ensures ToHex(c) == "#A0502D"
  {
    HsvAtSienna();
    HexOfSiennaChannels(c);
  }
}
