/**
 * The palette colour map: a table of colour stops, a value range, and the
 * lookup that scales a value into the range and blends the two nearest stops.
 */
module ColorMapping {
  import opened BevyMath

  /** `LinearRgba`: a colour in linear RGB space with alpha. */
  datatype LinearRgba = LinearRgba(red: real, green: real, blue: real, alpha: real)

  /** `LinearRgba::rgb`: an opaque colour. */
  function Rgb(r: real, g: real, b: real): (c: LinearRgba)
    ensures c.alpha == 1.0
  {
    LinearRgba(r, g, b, 1.0)
  }

  /** `interpolate_stable` on colours: the componentwise `mix` of all four channels. */
  function InterpolateStable(a: LinearRgba, b: LinearRgba, t: real): (c: LinearRgba)
    ensures t == 0.0 ==> c == a
    ensures t == 1.0 ==> c == b
    ensures a == b ==> c == a
    ensures 0.0 <= t <= 1.0 ==> Between(c, a, b)
  {
    LinearRgba(Lerp(a.red, b.red, t), Lerp(a.green, b.green, t), Lerp(a.blue, b.blue, t), Lerp(a.alpha, b.alpha, t))
  }

  /** Every channel of `c` lies between the corresponding channels of `a` and `b`. */
  predicate Between(c: LinearRgba, a: LinearRgba, b: LinearRgba) {
    && Min(a.red, b.red) <= c.red <= Max(a.red, b.red)
    && Min(a.green, b.green) <= c.green <= Max(a.green, b.green)
    && Min(a.blue, b.blue) <= c.blue <= Max(a.blue, b.blue)
    && Min(a.alpha, b.alpha) <= c.alpha <= Max(a.alpha, b.alpha)
  }

  /** The eleven stops of the incandescent scheme, from pale cyan to dark red. */
  const INCANDESCENT: seq<LinearRgba> := [
    Rgb(0.807843137254902, 1.0, 1.0),
    Rgb(0.7764705882352941, 0.9686274509803922, 0.8392156862745098),
    Rgb(0.6352941176470588, 0.9568627450980393, 0.6078431372549019),
    Rgb(0.7333333333333333, 0.8941176470588236, 0.3254901960784314),
    Rgb(0.8352941176470589, 0.807843137254902, 0.01568627450980392),
    Rgb(0.9058823529411765, 0.7098039215686275, 0.011764705882352941),
    Rgb(0.9450980392156862, 0.6, 0.011764705882352941),
    Rgb(0.9647058823529412, 0.4745098039215686, 0.043137254901960784),
    Rgb(0.9764705882352941, 0.28627450980392155, 0.00784313725490196),
    Rgb(0.8941176470588236, 0.0196078431372549, 0.08235294117647059),
    Rgb(0.6588235294117647, 0.0, 0.011764705882352941)
  ]

  const INCANDESCENT_BAD_DATA: LinearRgba := Rgb(0.5333333333333333, 0.5333333333333333, 0.5333333333333333)

  /** The thirty-four stops of the rainbow scheme. */
  const RAINBOW: seq<LinearRgba> := [
    Rgb(0.9098039215686274, 0.9254901960784314, 0.984313725490196),
    Rgb(0.8666666666666667, 0.8470588235294118, 0.9372549019607843),
    Rgb(0.8196078431372549, 0.7568627450980392, 0.8823529411764706),
    Rgb(0.7647058823529411, 0.6588235294117647, 0.8196078431372549),
    Rgb(0.7098039215686275, 0.5607843137254902, 0.7607843137254902),
    Rgb(0.6549019607843137, 0.47058823529411764, 0.7058823529411765),
    Rgb(0.6078431372549019, 0.3843137254901961, 0.6549019607843137),
    Rgb(0.5490196078431373, 0.3058823529411765, 0.6),
    Rgb(0.43529411764705883, 0.2980392156862745, 0.6078431372549019),
    Rgb(0.3764705882352941, 0.34901960784313724, 0.6627450980392157),
    Rgb(0.3333333333333333, 0.40784313725490196, 0.7215686274509804),
    Rgb(0.3058823529411765, 0.4745098039215686, 0.7725490196078432),
    Rgb(0.30196078431372547, 0.5411764705882353, 0.7764705882352941),
    Rgb(0.3058823529411765, 0.5882352941176471, 0.7372549019607844),
    Rgb(0.32941176470588235, 0.6196078431372549, 0.7019607843137254),
    Rgb(0.34901960784313724, 0.6470588235294118, 0.6627450980392157),
    Rgb(0.3764705882352941, 0.6705882352941176, 0.6196078431372549),
    Rgb(0.4117647058823529, 0.6941176470588235, 0.5647058823529412),
    Rgb(0.4666666666666667, 0.7176470588235294, 0.49019607843137253),
    Rgb(0.5490196078431373, 0.7372549019607844, 0.40784313725490196),
    Rgb(0.6509803921568628, 0.7450980392156863, 0.32941176470588235),
    Rgb(0.7450980392156863, 0.7372549019607844, 0.2823529411764706),
    Rgb(0.8196078431372549, 0.7098039215686275, 0.2549019607843137),
    Rgb(0.8666666666666667, 0.6666666666666666, 0.23529411764705882),
    Rgb(0.8941176470588236, 0.611764705882353, 0.2235294117647059),
    Rgb(0.9058823529411765, 0.5490196078431373, 0.20784313725490197),
    Rgb(0.9019607843137255, 0.4745098039215686, 0.19607843137254902),
    Rgb(0.8941176470588236, 0.38823529411764707, 0.17647058823529413),
    Rgb(0.8745098039215686, 0.2823529411764706, 0.1568627450980392),
    Rgb(0.8549019607843137, 0.13333333333333333, 0.13333333333333333),
    Rgb(0.7215686274509804, 0.13333333333333333, 0.11764705882352941),
    Rgb(0.5843137254901961, 0.12941176470588237, 0.10588235294117647),
    Rgb(0.4470588235294118, 0.11764705882352941, 0.09019607843137255),
    Rgb(0.3215686274509804, 0.10196078431372549, 0.07450980392156863)
  ]

  const RAINBOW_BAD_DATA: LinearRgba := Rgb(0.4, 0.4, 0.4)

  datatype ColorScheme = Incandescent | Rainbow

  /** `get_color_scheme`: the stop table and the colour for bad data. */
  function GetColorScheme(scheme: ColorScheme): (r: (seq<LinearRgba>, LinearRgba))
    ensures |r.0| >= 1
    ensures scheme == Incandescent ==> |r.0| == 11 && r.0[0] == Rgb(0.807843137254902, 1.0, 1.0)
                                       && r.1 == Rgb(0.5333333333333333, 0.5333333333333333, 0.5333333333333333)
    ensures scheme == Rainbow ==> |r.0| == 34 && r.1 == Rgb(0.4, 0.4, 0.4)
  {
    match scheme
    case Incandescent => (INCANDESCENT, INCANDESCENT_BAD_DATA)
    case Rainbow => (RAINBOW, RAINBOW_BAD_DATA)
  }

  /** `ColorMap`: the value range `[min, max]`, the stops and the bad-data colour. */
  datatype ColorMap = ColorMap(min: real, max: real, colors: seq<LinearRgba>, badDataColor: LinearRgba)

  /** `ColorMap::new`: a range and the tables of a scheme. */
  function NewColorMap(min: real, max: real, scheme: ColorScheme): (m: ColorMap)
    ensures m.min == min && m.max == max
    ensures (m.colors, m.badDataColor) == GetColorScheme(scheme)
    ensures |m.colors| >= 1
  {
    var (colors, bad) := GetColorScheme(scheme);
    ColorMap(min, max, colors, bad)
  }

  /** `f32::clamp(x, 0.0, 1.0)`. */
  function Clamp01(x: real): (y: real)
    ensures 0.0 <= y <= 1.0
    ensures 0.0 <= x <= 1.0 ==> y == x
    ensures x <= 0.0 ==> y == 0.0
    ensures x >= 1.0 ==> y == 1.0
  {
    if x < 0.0 then 0.0 else if x > 1.0 then 1.0 else x
  }

  /** `v_scaled`: the value's position in the range, clamped to `[0, 1]`. */
  function Scaled(m: ColorMap, value: real): (v: real)
    requires m.min != m.max
    ensures 0.0 <= v <= 1.0
  {
    Clamp01((value - m.min) / (m.max - m.min))
  }

  /** The stop pair and blend weight of a lookup. */
  datatype PaletteIndex = PaletteIndex(lower: nat, upper: nat, t: real)

  /**
   * `lower_idx`, `upper_idx` and `t` for a table of `n` stops: `v_select` is
   * `v_scaled * (n - 1)`, truncated for the lower stop, with its fractional part as weight.
   */
  function PaletteSelect(vScaled: real, n: nat): (p: PaletteIndex)
    requires n >= 1 && 0.0 <= vScaled <= 1.0
    ensures p.lower < n && p.upper < n
    ensures p.upper == if p.lower + 1 < n then p.lower + 1 else n - 1
    ensures 0.0 <= p.t < 1.0
    ensures p.lower as real + p.t == vScaled * (n - 1) as real
    ensures p.t > 0.0 ==> p.upper == p.lower + 1
  {
    var vSelect := vScaled * (n - 1) as real;
    SelectBounds(vScaled, n);
    var lower := AsUsize(Trunc(vSelect));
    var upper := if lower + 1 < n - 1 then lower + 1 else n - 1;
    PaletteIndex(lower, upper, Fract(vSelect))
  }

  lemma SelectBounds(vScaled: real, n: nat)
    requires n >= 1 && 0.0 <= vScaled <= 1.0
    ensures 0.0 <= vScaled * (n - 1) as real <= (n - 1) as real
    ensures 0 <= Trunc(vScaled * (n - 1) as real) < n
  {
    var w := (n - 1) as real;
    MulMono(vScaled, 1.0, w);
    MulMono(0.0, vScaled, w);
    var v := vScaled * w;
    assert Trunc(v) == Floor(v) && Floor(v) as real <= v;
    assert Floor(v) as real <= w;
    assert Floor(v) <= n - 1;
  }

  /** `ColorMap::get_color`. */
  function GetColor(m: ColorMap, value: Float): (c: LinearRgba)
    requires |m.colors| >= 1
    ensures !value.Finite? ==> c == m.badDataColor
    ensures value.Finite? && m.min == m.max ==> c == m.colors[0]
  {
    if !value.Finite? then m.badDataColor
    else if m.min == m.max then m.colors[0]
    else Lookup(m.colors, Scaled(m, value.r))
  }

  /** The table lookup of `get_color` at a scaled value in `[0, 1]`. */
  function Lookup(colors: seq<LinearRgba>, vScaled: real): (c: LinearRgba)
    requires |colors| >= 1 && 0.0 <= vScaled <= 1.0
    ensures var p := PaletteSelect(vScaled, |colors|);
            Between(c, colors[p.lower], colors[p.upper])
  {
    var p := PaletteSelect(vScaled, |colors|);
    InterpolateStable(colors[p.lower], colors[p.upper], p.t)
  }

  /** With `min < max`, values at or below `min` get the first stop. */
  lemma ClampLow(m: ColorMap, value: real)
    requires |m.colors| >= 1 && m.min < m.max && value <= m.min
    ensures GetColor(m, Finite(value)) == m.colors[0]
  {
    assert (value - m.min) / (m.max - m.min) <= 0.0;
    assert Scaled(m, value) == 0.0;
  }

  /** With `min < max`, values at or above `max` get the last stop. */
  lemma ClampHigh(m: ColorMap, value: real)
    requires |m.colors| >= 1 && m.min < m.max && value >= m.max
    ensures GetColor(m, Finite(value)) == m.colors[|m.colors| - 1]
  {
    var d := m.max - m.min;
    assert value - m.min >= d;
    DivAtLeastOne(value - m.min, d);
    assert Scaled(m, value) == 1.0;
    var n := |m.colors|;
    assert 1.0 * (n - 1) as real == (n - 1) as real;
  }

  lemma DivAtLeastOne(a: real, d: real)
    requires d > 0.0 && a >= d
    ensures a / d >= 1.0
  {
    assert (a / d - 1.0) * d == a - d;
  }

  lemma MulDivCancel(q: real, d: real)
    requires d != 0.0
    ensures (q * d) / d == q && (q / d) * d == q
  {
  }

  lemma StopWeight(k: nat, n: nat)
    requires n >= 2 && k < n
    ensures 0.0 <= k as real / (n - 1) as real <= 1.0
    ensures (k as real / (n - 1) as real) * (n - 1) as real == k as real
  {
    var w := (n - 1) as real;
    MulDivCancel(k as real, w);
    DivUnit(k as real, w);
  }

  lemma DivUnit(a: real, d: real)
    requires 0.0 <= a <= d && d > 0.0
    ensures 0.0 <= a / d <= 1.0
  {
    assert a / d == a * (1.0 / d);
    assert 1.0 / d > 0.0;
    MulMono(0.0, a, 1.0 / d);
    MulMono(a, d, 1.0 / d);
    assert d * (1.0 / d) == 1.0;
  }

  lemma SelectAtStop(k: nat, n: nat)
    requires n >= 2 && k < n
    ensures 0.0 <= k as real / (n - 1) as real <= 1.0
    ensures var p := PaletteSelect(k as real / (n - 1) as real, n);
            p.lower == k && p.t == 0.0
  {
    StopWeight(k, n);
    assert Trunc(k as real) == k;
  }

  /** The value of the range that stop `k` of `n` stands for: `min + k / (n - 1) * (max - min)`. */
  function StopValue(m: ColorMap, k: nat): real
    requires |m.colors| >= 2
  {
    m.min + (k as real / (|m.colors| - 1) as real) * (m.max - m.min)
  }

  /** The value `min + k / (n - 1) * (max - min)` gets exactly stop `k`. */
  lemma AtStop(m: ColorMap, k: nat)
    requires |m.colors| >= 2 && m.min != m.max && k < |m.colors|
    ensures GetColor(m, Finite(StopValue(m, k))) == m.colors[k]
  {
    ScaledAtStop(m, k);
    LookupAtStop(m.colors, k);
  }

  lemma ScaledAtStop(m: ColorMap, k: nat)
    requires |m.colors| >= 2 && m.min != m.max && k < |m.colors|
    ensures Scaled(m, StopValue(m, k)) == k as real / (|m.colors| - 1) as real
  {
    var q := k as real / (|m.colors| - 1) as real;
    var d := m.max - m.min;
    StopWeight(k, |m.colors|);
    MulDivCancel(q, d);
    assert (StopValue(m, k) - m.min) / d == q;
  }

  lemma LookupAtStop(colors: seq<LinearRgba>, k: nat)
    requires |colors| >= 2 && k < |colors|
    ensures 0.0 <= k as real / (|colors| - 1) as real <= 1.0
    ensures Lookup(colors, k as real / (|colors| - 1) as real) == colors[k]
  {
    SelectAtStop(k, |colors|);
  }

  /**
   * Every lookup of a finite value blends two neighbouring stops (or one
   * stop with itself) and stays between them, channel by channel.
   */
  lemma BlendOfNeighbours(m: ColorMap, value: real)
    requires |m.colors| >= 1 && m.min != m.max
    ensures var p := PaletteSelect(Scaled(m, value), |m.colors|);
            && (p.upper == p.lower || p.upper == p.lower + 1)
            && Between(GetColor(m, Finite(value)), m.colors[p.lower], m.colors[p.upper])
  {
  }
}
