/**
 The palette generators. An HSV palette is an endless iterator over hues that
 walk around the colour wheel by a fixed divergence plus a small trigonometric
 shift, with saturation and value drawn from trigonometric curves of the
 iteration count; the mode (random, pastel or dark) picks the curves and their
 ranges. A colour palette wraps an HSV palette and converts every triple to RGB.

 The trigonometric functions are parameters (`Trig`): sine and cosine are only
 known to stay within [-1, 1], tangent is unconstrained. The random start hue is
 a parameter of the constructor.
 */
module Palette {
  import opened Numeric
  import opened Colors
  import opened ColorLemmas

  type UnitReal = x: real | -1.0 <= x <= 1.0

  /** The three `f32` trigonometric functions the generators call. */
  datatype Trig = Trig(sin: real -> UnitReal, cos: real -> UnitReal, tan: real -> real)

  datatype PaletteType = Random | Pastel | Dark

  /**
   The generator state: how many triples have been emitted, the requested hue
   step, the mode, and the hue emitted last (or the start hue).
   */
  datatype HsvPalette = HsvPalette(iteration: nat, baseDivergence: real, paletteType: PaletteType, hue: real)

  /** The RGB palette: an HSV palette whose triples are converted on the way out. */
  datatype ColorPalette = ColorPalette(inner: HsvPalette)

  /** A start hue as the random source draws it: uniform over [0, 360). */
  type HueDraw = x: real | 0.0 <= x < 360.0

  const ADJACENT_DIVERGENCE: real := 25.0
  const SPREAD_DIVERGENCE: real := 80.0
  const MIN_DIVERGENCE: real := 15.0

  // ---------------------------------------------------------------- construction

  function NewColorPalette(paletteType: PaletteType, adjacentColors: bool, draw: HueDraw): (cp: ColorPalette)
    ensures cp.inner.iteration == 0
    ensures cp.inner.paletteType == paletteType
    ensures cp.inner.hue == draw
    ensures cp.inner.baseDivergence == if adjacentColors then 25.0 else 80.0
  {
    var baseDivergence := if adjacentColors then ADJACENT_DIVERGENCE else SPREAD_DIVERGENCE;
    ColorPalette(HsvPalette(0, baseDivergence, paletteType, draw))
  }

  // ---------------------------------------------------------------- one step

  /** The hue step actually taken: the requested one, raised to at least 15 degrees. */
  function Divergence(base: real): (d: real)
    ensures d >= MIN_DIVERGENCE && d >= base
    ensures base >= MIN_DIVERGENCE ==> d == base
    ensures base < MIN_DIVERGENCE ==> d == MIN_DIVERGENCE
  {
    if base < MIN_DIVERGENCE then MIN_DIVERGENCE else base
  }

  /**
   The extra hue shift at iteration `i`: `|cos(43 i)|` for dark, `|cos(25 i)|` for
   pastel, and the unbounded `|tan(55 i)|` for random palettes.
   */
  function Shift(paletteType: PaletteType, t: Trig, i: real): (f: real)
    ensures f >= 0.0
    ensures paletteType != Random ==> f <= 1.0
  {
    match paletteType
    case Dark => Abs(t.cos(i * 43.0))
    case Pastel => Abs(t.cos(i * 25.0))
    case Random => Abs(t.tan(i * 55.0))
  }

  /** `|x| % 360`: a hue on the wheel [0, 360), whatever the sign of `x`. */
  function WrapHue(x: real): (h: real)
    ensures 0.0 <= h < 360.0
    ensures 0.0 <= x < 360.0 ==> h == x
    ensures -360.0 < x <= 0.0 ==> h == -x
    ensures 360.0 <= x < 720.0 ==> h == x - 360.0
  {
    FRem(Abs(x), 360.0)
  }

  /** The hue every mode emits next: the previous hue moved on by the divergence and the shift. */
  function NextHue(p: HsvPalette, t: Trig): (h: real)
    ensures 0.0 <= h < 360.0
    // From a hue on the wheel the step is at least the minimum divergence, and
    // it either stays below 360 or passes it once and wraps back round.
    ensures var step := Divergence(p.baseDivergence) + Shift(p.paletteType, t, p.iteration as real);
            && step >= MIN_DIVERGENCE
            && (0.0 <= p.hue && p.hue + step < 360.0 ==> h == p.hue + step)
            && (360.0 <= p.hue + step < 720.0 ==> h == p.hue + step - 360.0)
  {
    WrapHue(p.hue + Divergence(p.baseDivergence) + Shift(p.paletteType, t, p.iteration as real))
  }

  /** The saturation and value ranges of each mode, and a hue on the wheel. */
  predicate WithinMode(paletteType: PaletteType, h: Hsv) {
    && 0.0 <= h.hue < 360.0
    && match paletteType
       case Random => 0.4 <= h.saturation <= 1.0 && 0.2 <= h.value <= 0.85
       case Dark => 0.32 <= h.saturation <= 0.82 && 0.1 <= h.value <= 0.1 + 1.0 / 6.0
       case Pastel => 0.0 <= h.saturation <= 0.2 && 0.5 <= h.value <= 1.0
  }

  function PaletteDark(p: HsvPalette, t: Trig): (h: Hsv)
    ensures WithinMode(Dark, h)
    ensures h.saturation - 0.32 == Abs(t.sin(p.iteration as real * 0.75)) / 2.0
    ensures h.value - 0.1 == Abs(t.cos(p.iteration as real)) / 6.0
  {
    var iteration := p.iteration as real;
    var hue := WrapHue(p.hue + Divergence(p.baseDivergence) + Abs(t.cos(iteration * 43.0)));
    var saturation := 0.32 + Abs(t.sin(iteration * 0.75) / 2.0);
    var value := 0.1 + Abs(t.cos(iteration) / 6.0);
    Hsv(hue, saturation, value)
  }

  function PalettePastel(p: HsvPalette, t: Trig): (h: Hsv)
    ensures WithinMode(Pastel, h)
    ensures h.saturation == Abs(t.cos(p.iteration as real * 0.35)) / 5.0
    ensures h.value - 0.5 == Abs(t.cos(p.iteration as real)) / 2.0
  {
    var iteration := p.iteration as real;
    var hue := WrapHue(p.hue + Divergence(p.baseDivergence) + Abs(t.cos(iteration * 25.0)));
    var saturation := Abs(t.cos(iteration * 0.35) / 5.0);
    var value := 0.5 + Abs(t.cos(iteration) / 2.0);
    Hsv(hue, saturation, value)
  }

  function PaletteRandom(p: HsvPalette, t: Trig): (h: Hsv)
    ensures WithinMode(Random, h)
    // The saturation is the sine curve, raised to 0.4 where it falls below.
    ensures var raw := Abs(t.sin(p.iteration as real * 0.35));
            h.saturation >= raw && (h.saturation == raw || h.saturation == 0.4)
    // The value is the cosine curve, clamped into [0.2, 0.85].
    ensures var raw := Abs(t.cos(6.33 * p.iteration as real * 0.5));
            && (raw < 0.2 ==> h.value == 0.2)
            && (raw > 0.85 ==> h.value == 0.85)
            && (0.2 <= raw <= 0.85 ==> h.value == raw)
  {
    var iteration := p.iteration as real;
    var hue := WrapHue(p.hue + Divergence(p.baseDivergence) + Abs(t.tan(iteration * 55.0)));
    var saturation := Abs(t.sin(iteration * 0.35));
    var value := Abs(t.cos(6.33 * iteration * 0.5));
    var saturation := if saturation < 0.4 then 0.4 else saturation;
    var value := if value < 0.2 then 0.2 else if value > 0.85 then 0.85 else value;
    Hsv(hue, saturation, value)
  }

  /** The triple the palette would emit now, by mode. */
  function Get(p: HsvPalette, t: Trig): (h: Hsv)
    ensures WithinMode(p.paletteType, h)
  {
    match p.paletteType
    case Random => PaletteRandom(p, t)
    case Pastel => PalettePastel(p, t)
    case Dark => PaletteDark(p, t)
  }

  /** All three modes move the hue the same way. */
  lemma GetHue(p: HsvPalette, t: Trig)
    ensures Get(p, t).hue == NextHue(p, t)
    ensures p.hue >= 0.0 && p.hue + Divergence(p.baseDivergence) + Shift(p.paletteType, t, p.iteration as real) < 360.0 ==>
              Get(p, t).hue == p.hue + Divergence(p.baseDivergence) + Shift(p.paletteType, t, p.iteration as real)
  {
  }

  /**
   For a dark or pastel palette on the wheel, the hue moves on by at least the
   divergence and at most one degree more, less a full turn when it passes 360.
   */
  lemma {:induction false} BoundedAdvance(p: HsvPalette, t: Trig)
    requires p.paletteType != Random
    requires 0.0 <= p.hue < 360.0 && Divergence(p.baseDivergence) + 1.0 < 360.0
    ensures var d, step := Divergence(p.baseDivergence), Get(p, t).hue - p.hue;
            (d <= step <= d + 1.0) || (d <= step + 360.0 <= d + 1.0)
  {
    GetHue(p, t);
  }

  /** Adding a full turn to a non-negative angle does not move its hue. */
  lemma {:induction false} WrapHuePeriodic(x: real)
    requires x >= 0.0
    ensures WrapHue(x + 360.0) == WrapHue(x)
  {
    var q := Trunc(x / 360.0);
    assert Trunc((x + 360.0) / 360.0) == q + 1 by {
      assert (x + 360.0) / 360.0 == x / 360.0 + 1.0;
    }
  }

  /**
   One step of the HSV iterator: it emits the current triple, records its hue as
   the new hue, and counts the iteration; it never runs out.
   */
  function Next(p: HsvPalette, t: Trig): (r: (HsvPalette, Option<Hsv>))
    ensures r.1.Some? && WithinMode(p.paletteType, r.1.value)
    ensures r.1.value == Get(p, t)
    ensures r.0.hue == r.1.value.hue
    ensures r.0.iteration == p.iteration + 1
    ensures r.0.baseDivergence == p.baseDivergence && r.0.paletteType == p.paletteType
  {
    var h := Get(p, t);
    (p.(hue := h.hue, iteration := p.iteration + 1), Some(h))
  }

  /** One step of the RGB iterator: the HSV step's triple, converted; `None` only if the HSV step had none. */
  function ColorNext(cp: ColorPalette, t: Trig): (r: (ColorPalette, Option<Color>))
    ensures r.0.inner == Next(cp.inner, t).0
    ensures r.1.Some? && r.1.value == FromHsv(Get(cp.inner, t))
    ensures ValidColor(r.1.value)
  {
    var (inner, item) := Next(cp.inner, t);
    match item
    case Some(h) =>
      WithinModeDrawable(cp.inner.paletteType, h);
      (ColorPalette(inner), Some(HsvToRgb(h.hue, h.saturation, h.value)))
    case None => (ColorPalette(inner), None)
  }

  /** Every triple a mode can emit lies where HSV→RGB yields channels in [0, 1]. */
  lemma WithinModeDrawable(paletteType: PaletteType, h: Hsv)
    requires WithinMode(paletteType, h)
    ensures 0.0 <= h.hue < 360.0 && InUnit(h.saturation) && InUnit(h.value)
    ensures ValidColor(FromHsv(h))
    ensures MaxChannelValue(FromHsv(h)) == h.value
  {
    HsvToRgbBounds(h.hue, h.saturation, h.value);
  }

  // ---------------------------------------------------------------- many steps

  /** The state after `n` steps. */
  function Advance(p: HsvPalette, t: Trig, n: nat): (q: HsvPalette)
    ensures q.iteration == p.iteration + n
    ensures q.baseDivergence == p.baseDivergence && q.paletteType == p.paletteType
    ensures n == 0 ==> q == p
    decreases n
  {
    if n == 0 then p else Advance(Next(p, t).0, t, n - 1)
  }

  /** `take(n)` on the HSV iterator: the first `n` items, stopping early at a `None`. */
  function Take(p: HsvPalette, t: Trig, n: nat): (xs: seq<Hsv>)
    ensures |xs| == n
    ensures forall i :: 0 <= i < |xs| ==> WithinMode(p.paletteType, xs[i])
    decreases n
  {
    if n == 0 then []
    else
      match Next(p, t)
      case (q, Some(h)) => [h] + Take(q, t, n - 1)
      case (q, None) => []
  }

  /** `take(n)` on the RGB iterator. */
  function ColorTake(cp: ColorPalette, t: Trig, n: nat): (cs: seq<Color>)
    ensures |cs| == n
    ensures forall i :: 0 <= i < |cs| ==> ValidColor(cs[i])
    decreases n
  {
    if n == 0 then []
    else
      match ColorNext(cp, t)
      case (q, Some(c)) => [c] + ColorTake(q, t, n - 1)
      case (q, None) => []
  }

  /** Stepping `n` times and then once more is stepping `n + 1` times. */
  lemma {:induction false} AdvanceStep(p: HsvPalette, t: Trig, n: nat)
    ensures Advance(p, t, n + 1) == Next(Advance(p, t, n), t).0
    decreases n
  {
    if n > 0 {
      AdvanceStep(Next(p, t).0, t, n - 1);
    }
  }

  /** Item `i` of `take(n)` is what the palette emits after `i` steps. */
  lemma {:induction false} TakeElement(p: HsvPalette, t: Trig, n: nat, i: nat)
    requires i < n
    ensures Take(p, t, n)[i] == Get(Advance(p, t, i), t)
    decreases i
  {
    if i > 0 {
      TakeElement(Next(p, t).0, t, n - 1, i - 1);
    }
  }

  /** The RGB iterator emits the conversions of the HSV iterator's triples, in order. */
  lemma {:induction false} ColorTakeConverts(cp: ColorPalette, t: Trig, n: nat)
    ensures forall i :: 0 <= i < n ==> ColorTake(cp, t, n)[i] == FromHsv(Take(cp.inner, t, n)[i])
    decreases n
  {
    if n > 0 {
      var q := ColorNext(cp, t).0;
      ColorTakeConverts(q, t, n - 1);
      assert ColorTake(cp, t, n) == [FromHsv(Get(cp.inner, t))] + ColorTake(q, t, n - 1);
      assert Take(cp.inner, t, n) == [Get(cp.inner, t)] + Take(q.inner, t, n - 1);
    }
  }

  /**
   The hue feeds back: item `i` of `take(n)` is item `i - 1` (the start hue for
   the first) moved on by the divergence and the shift at iteration `i`.
   */
  lemma {:induction false} TakeFeedback(p: HsvPalette, t: Trig, n: nat, i: nat)
    requires i < n
    ensures var xs := Take(p, t, n);
            var previous := if i == 0 then p.hue else xs[i - 1].hue;
            xs[i].hue == WrapHue(previous + Divergence(p.baseDivergence) + Shift(p.paletteType, t, (p.iteration + i) as real))
  {
    var xs, q := Take(p, t, n), Advance(p, t, i);
    var previous := if i == 0 then p.hue else xs[i - 1].hue;
    TakeElement(p, t, n, i);
    GetHue(q, t);
    if i > 0 {
      TakeElement(p, t, n, i - 1);
      AdvanceStep(p, t, i - 1);
    }
    assert q.hue == previous && q.iteration == p.iteration + i;
    assert xs[i].hue == NextHue(q, t);
  }

  /**
   The generator's own check: seven colours of a spread random palette, from
   any start hue, all have channels in [0, 1].
   */
  lemma GeneratesPalette(t: Trig, draw: HueDraw)
    ensures var cs := ColorTake(NewColorPalette(Random, false, draw), t, 7);
            |cs| == 7 && forall i :: 0 <= i < 7 ==> ValidColor(cs[i])
  {
  }

  /**
   A spread random palette started at hue 0: the first hue is 80, since the
   tangent vanishes at 0, and every later hue is the previous one moved on by
   80 and by the tangent shift `|tan(55 i)|` of its iteration, wrapped.
   */
  lemma SpreadWalk(p: HsvPalette, t: Trig)
    requires p == NewColorPalette(Random, false, 0.0).inner
    requires t.tan(0.0) == 0.0
    ensures var xs := Take(p, t, 5);
            && xs[0].hue == 80.0
            && xs[1].hue == WrapHue(160.0 + Abs(t.tan(55.0)))
            && xs[2].hue == WrapHue(xs[1].hue + 80.0 + Abs(t.tan(110.0)))
            && xs[3].hue == WrapHue(xs[2].hue + 80.0 + Abs(t.tan(165.0)))
            && xs[4].hue == WrapHue(xs[3].hue + 80.0 + Abs(t.tan(220.0)))
  {
    var xs := Take(p, t, 5);
    assert p.hue == 0.0 && p.iteration == 0 && Divergence(p.baseDivergence) == 80.0;
    TakeFeedback(p, t, 5, 0);
    assert Shift(Random, t, 0.0) == 0.0;
    assert xs[0].hue == 80.0;
    TakeFeedback(p, t, 5, 1);
    assert Shift(Random, t, 1.0) == Abs(t.tan(55.0));
    TakeFeedback(p, t, 5, 2);
    assert Shift(Random, t, 2.0) == Abs(t.tan(110.0));
    TakeFeedback(p, t, 5, 3);
    assert Shift(Random, t, 3.0) == Abs(t.tan(165.0));
    TakeFeedback(p, t, 5, 4);
    assert Shift(Random, t, 4.0) == Abs(t.tan(220.0));
  }
}
