/** HSV to RGB and brightness, over exact reals. */
module ColourMath {

  /** Red, green and blue in percent. */
  datatype Colour = Colour(r: real, g: real, b: real)

  /** C's conversion of a float to an int: towards zero. */
  function Trunc(x: real): int {
    if x >= 0.0 then x.Floor else -((-x).Floor)
  }

  function Max(a: real, b: real): real {
    if a >= b then a else b
  }

  function Min(a: real, b: real): real {
    if a <= b then a else b
  }

  // ---- the closed form: each channel is v less a trapezoid of the hue

  /** The dip of a channel at hue h (in degrees); `shift` is 5, 3 and 1 for red, green and blue. */
  function Dip(shift: real, h: real): real {
    var x := shift + h / 60.0;
    var k := if x >= 6.0 then x - 6.0 else x;
    Max(0.0, Min(1.0, Min(k, 4.0 - k)))
  }

  function Chroma(s: real, v: real): real {
    v * s / 100.0
  }

  /** Each channel is the value less its dip's share of the chroma. */
  function Dipped(s: real, v: real, dips: (real, real, real)): Colour {
    var d := Chroma(s, v);
    Colour(v - d * dips.0, v - d * dips.1, v - d * dips.2)
  }

  function Channels(h: real, s: real, v: real): Colour {
    Dipped(s, v, (Dip(5.0, h), Dip(3.0, h), Dip(1.0, h)))
  }

  // ---- the code

  /** X, Y, Z and V, scaled back to percent, are v less the chroma at dips 1, c, 1-c and 0. */
  lemma Percentages(v: real, s: real, c: real, V: real, X: real, Y: real, Z: real)
    requires V == v / 100.0 && X == V * (1.0 - s / 100.0)
    requires Y == V * (1.0 - s / 100.0 * c) && Z == V * (1.0 - s / 100.0 * (1.0 - c))
    ensures var d := Chroma(s, v);
            && X * 100.0 == v - d * 1.0 && Y * 100.0 == v - d * c
            && Z * 100.0 == v - d * (1.0 - c) && V * 100.0 == v - d * 0.0
  {
  }

  /** The dips inside sextant i, at fraction c of it. */
  function SextantDip(i: int, c: real): (real, real, real)
    requires 0 <= i <= 5
  {
    [(0.0, 1.0 - c, 1.0), (c, 0.0, 1.0), (1.0, 0.0, 1.0 - c),
     (1.0, c, 0.0), (1.0 - c, 1.0, 0.0), (0.0, 1.0, c)][i]
  }

  lemma SextantDips(i: int, c: real, h: real)
    requires 0 <= i <= 5 && 0.0 <= c < 1.0 && h == 60.0 * (i as real + c)
    ensures (Dip(5.0, h), Dip(3.0, h), Dip(1.0, h)) == SextantDip(i, c)
  {
    assert h / 60.0 == i as real + c;
  }

  /** The six rows of the switch: which of V, X, Y, Z each channel takes. */
  function SwitchRow(i: int, V: real, X: real, Y: real, Z: real): (real, real, real)
    requires 0 <= i <= 5
  {
    [(V, Z, X), (Y, V, X), (X, V, Z), (X, Y, V), (Z, X, V), (V, X, Y)][i]
  }

  /** In each row the channels, in percent, are v less the chroma at the sextant's dips. */
  lemma RowIsDips(i: int, v: real, s: real, c: real, V: real, X: real, Y: real, Z: real)
    requires 0 <= i <= 5
    requires V == v / 100.0 && X == V * (1.0 - s / 100.0)
    requires Y == V * (1.0 - s / 100.0 * c) && Z == V * (1.0 - s / 100.0 * (1.0 - c))
    ensures var (R, G, B) := SwitchRow(i, V, X, Y, Z);
            Colour(R * 100.0, G * 100.0, B * 100.0) == Dipped(s, v, SextantDip(i, c))
  {
    Percentages(v, s, c, V, X, Y, Z);
    hide Chroma;
  }

  lemma SextantOfHue(h: int) returns (i: int, c: real)
    requires -60 < h < 360
    ensures i == Trunc(h as real / 60.0) && c == h as real / 60.0 - i as real && 0 <= i <= 5
    ensures 0 <= h ==> SextantDip(i, c) == (Dip(5.0, h as real), Dip(3.0, h as real), Dip(1.0, h as real))
    ensures h < 0 ==> SextantDip(i, c) == (0.0, 1.0 - h as real / 60.0, 1.0)
  {
    i := Trunc(h as real / 60.0);
    c := h as real / 60.0 - i as real;
    if 0 <= h {
      SextantDips(i, c, h as real);
    }
  }

  lemma GreyHasNoChroma(h: real, v: real)
    ensures Channels(h, 0.0, v) == Colour(v, v, v)
  {
    assert Chroma(0.0, v) == 0.0;
  }

  /** The switch. */
  method ChooseRow(i: int, V: real, X: real, Y: real, Z: real) returns (R: real, G: real, B: real)
    requires 0 <= i <= 5
    ensures (R, G, B) == SwitchRow(i, V, X, Y, Z)
  {
    if i == 0 {
      R, G, B := V, Z, X;
    } else if i == 1 {
      R, G, B := Y, V, X;
    } else if i == 2 {
      R, G, B := X, V, Z;
    } else if i == 3 {
      R, G, B := X, Y, V;
    } else if i == 4 {
      R, G, B := Z, X, V;
    } else {
      R, G, B := V, X, Y;
    }
  }

  /** The coloured case, at fraction C of sextant i. */
  method ColouredInSextant(i: int, C: real, s: real, v: real) returns (R: real, G: real, B: real)
    requires 0 <= i <= 5
    ensures Colour(R, G, B) == Dipped(s, v, SextantDip(i, C))
  {
    hide SwitchRow, Dipped, SextantDip;
    var S, V := s / 100.0, v / 100.0;
    var X := V * (1.0 - S);
    var Y := V * (1.0 - S * C);
    var Z := V * (1.0 - S * (1.0 - C));
    R, G, B := ChooseRow(i, V, X, Y, Z);
    RowIsDips(i, v, s, C, V, X, Y, Z);
    R, G, B := R * 100.0, G * 100.0, B * 100.0;
  }

  /** Outside these hues the switch has no case and the results stay unset. */
  method HsvToRgb(h: int, s: int, v: int) returns (R: real, G: real, B: real)
    requires s == 0 || -60 < h < 360
    ensures s == 0 || 0 <= h ==> Colour(R, G, B) == Channels(h as real, s as real, v as real)
    ensures s != 0 && h < 0 ==> Colour(R, G, B) == Dipped(s as real, v as real, (0.0, 1.0 - h as real / 60.0, 1.0))
  {
    hide Dipped, Dip, SextantDip, Trunc, Chroma;
    if s == 0 {
      var V := v as real / 100.0;
      R, G, B := V * 100.0, V * 100.0, V * 100.0;
      GreyHasNoChroma(h as real, v as real);
    } else {
      ghost var sextant, fraction := SextantOfHue(h);
      var H := h as real / 60.0;
      var i := Trunc(H);
      var C := H - i as real;
      R, G, B := ColouredInSextant(i, C, s as real, v as real);
    }
  }

  // ---- what the conversion keeps

  lemma SextantOf(h: real) returns (i: int, c: real)
    requires 0.0 <= h < 360.0
    ensures 0 <= i <= 5 && 0.0 <= c < 1.0 && h == 60.0 * (i as real + c)
    ensures (Dip(5.0, h), Dip(3.0, h), Dip(1.0, h)) == SextantDip(i, c)
  {
    i := (h / 60.0).Floor;
    c := h / 60.0 - i as real;
    SextantDips(i, c, h);
  }

  /** Neighbouring sextant formulas agree where they meet, all the way round the circle. */
  lemma SextantsMeet(i: int)
    requires 0 <= i <= 5
    ensures SextantDip(i, 1.0) == SextantDip((i + 1) % 6, 0.0)
  {
  }

  lemma ChromaRange(s: real, v: real)
    requires 0.0 <= s <= 100.0 && 0.0 <= v
    ensures 0.0 <= Chroma(s, v) <= v
    ensures v - Chroma(s, v) == v * (1.0 - s / 100.0)
  {
    assert v * s <= v * 100.0;
  }

  function Ratio(x: real, d: real): real
    requires d != 0.0
  {
    x / d
  }

  lemma Quotient(x: real, q: real, d: real)
    requires d > 0.0 && x == q * d
    ensures Ratio(x, d) == q
  {
  }

  lemma ChromaIsSaturation(s: real, v: real)
    requires 0.0 < s <= 100.0 && 0.0 < v
    ensures 0.0 < Chroma(s, v) <= v && Ratio(100.0 * Chroma(s, v), v) == s
  {
    ChromaRange(s, v);
    assert v * s > 0.0;
    assert 100.0 * Chroma(s, v) == s * v;
    Quotient(100.0 * Chroma(s, v), s, v);
  }

  lemma ProductSign(a: real, b: real)
    requires b >= 0.0
    ensures a >= 0.0 ==> a * b >= 0.0
    ensures a > 0.0 && b > 0.0 ==> a * b > 0.0
  {
  }

  /** A share of the chroma stays between none and all of it, below all when it is a proper share. */
  lemma ShareOfChroma(d: real, c: real) returns (p: real)
    requires d >= 0.0 && 0.0 <= c <= 1.0
    ensures 0.0 <= p <= d && p == c * d && (c < 1.0 && d > 0.0 ==> p < d)
  {
    p := c * d;
    ProductSign(c, d);
    ProductSign(1.0 - c, d);
    assert d - p == (1.0 - c) * d;
  }

  /** The usual way back: the hue from which channels are largest, smallest and in between. */
  function Inverse(c: Colour): (real, real, real) {
    var v := Max(c.r, Max(c.g, c.b));
    var d := v - Min(c.r, Min(c.g, c.b));
    if d == 0.0 || v == 0.0 then (0.0, 0.0, v)
    else
      var h := if c.r == v then (if c.g >= c.b then 60.0 * Ratio(c.g - c.b, d) else 360.0 - 60.0 * Ratio(c.b - c.g, d))
               else if c.g == v then (if c.b >= c.r then 120.0 + 60.0 * Ratio(c.b - c.r, d) else 120.0 - 60.0 * Ratio(c.r - c.b, d))
               else (if c.r >= c.g then 240.0 + 60.0 * Ratio(c.r - c.g, d) else 240.0 - 60.0 * Ratio(c.g - c.r, d));
      (h, Ratio(100.0 * d, v), v)
  }

  /** The channels inside sextant i, by the chroma d and its share p = d * c. */
  function SextantColour(i: int, v: real, d: real, p: real): Colour
    requires 0 <= i <= 5
  {
    [Colour(v, v - d + p, v - d), Colour(v - p, v, v - d), Colour(v - d, v, v - d + p),
     Colour(v - d, v - p, v), Colour(v - d + p, v - d, v), Colour(v, v - d, v - p)][i]
  }

  lemma Ratios(d: real, p: real, c: real)
    requires d > 0.0 && p == c * d
    ensures Ratio(p, d) == c && Ratio(d - p, d) == 1.0 - c && Ratio(d, d) == 1.0
  {
    Quotient(p, c, d);
    assert d - p == (1.0 - c) * d;
    Quotient(d - p, 1.0 - c, d);
    Quotient(d, 1.0, d);
  }

  /** Inside a sextant the hue is the sextant's own 60 degrees plus the share of the next. */
  lemma InverseOfSextant(i: int, v: real, d: real, p: real, c: real)
    requires 0 <= i <= 5 && 0.0 < d <= v && 0.0 <= p < d
    requires Ratio(p, d) == c && Ratio(d - p, d) == 1.0 - c && Ratio(d, d) == 1.0
    ensures Inverse(SextantColour(i, v, d, p)) == (60.0 * (i as real + c), Ratio(100.0 * d, v), v)
  {
    hide Ratio;
    var x := SextantColour(i, v, d, p);
    assert Max(x.r, Max(x.g, x.b)) == v && v - Min(x.r, Min(x.g, x.b)) == d;
  }

  lemma ChannelsInSextant(i: int, c: real, h: real, s: real, v: real, p: real)
    requires 0 <= i <= 5 && (Dip(5.0, h), Dip(3.0, h), Dip(1.0, h)) == SextantDip(i, c)
    requires p == c * Chroma(s, v)
    ensures Channels(h, s, v) == SextantColour(i, v, Chroma(s, v), p)
  {
    hide Dip, Chroma;
    var d := Chroma(s, v);
    assert d * (1.0 - c) == d - c * d && d * c == c * d;
  }

  lemma ExtremesOfSextant(i: int, v: real, d: real, p: real)
    requires 0 <= i <= 5 && 0.0 <= p <= d <= v <= 100.0
    ensures var c := SextantColour(i, v, d, p);
            && Max(c.r, Max(c.g, c.b)) == v && Min(c.r, Min(c.g, c.b)) == v - d
            && 0.0 <= c.r <= 100.0 && 0.0 <= c.g <= 100.0 && 0.0 <= c.b <= 100.0
  {
  }

  /** The value is the largest channel, the smallest is v(1 - s/100), and nothing leaves 0..100. */
  lemma ExtremesOfChannels(h: real, s: real, v: real)
    requires 0.0 <= h < 360.0 && 0.0 <= s <= 100.0 && 0.0 <= v <= 100.0
    ensures var c := Channels(h, s, v);
            && Max(c.r, Max(c.g, c.b)) == v
            && Min(c.r, Min(c.g, c.b)) == v * (1.0 - s / 100.0)
            && 0.0 <= c.r <= 100.0 && 0.0 <= c.g <= 100.0 && 0.0 <= c.b <= 100.0
  {
    hide Dip, Chroma, Channels, SextantDip, SextantColour, Max, Min;
    var i, c := SextantOf(h);
    ChromaRange(s, v);
    var d := Chroma(s, v);
    var p := ShareOfChroma(d, c);
    ChannelsInSextant(i, c, h, s, v, p);
    ExtremesOfSextant(i, v, d, p);
  }

  /** Every coloured (s, v > 0) input comes back from its channels. */
  lemma InverseOfChannels(h: real, s: real, v: real)
    requires 0.0 <= h < 360.0 && 0.0 < s <= 100.0 && 0.0 < v <= 100.0
    ensures Inverse(Channels(h, s, v)) == (h, s, v)
  {
    hide Dip, Chroma, Inverse, Channels, SextantColour, SextantDip, Ratio;
    var i, c := SextantOf(h);
    ChromaIsSaturation(s, v);
    var p := ShareOfChroma(Chroma(s, v), c);
    ChannelsInSextant(i, c, h, s, v, p);
    Ratios(Chroma(s, v), p, c);
    InverseOfSextant(i, v, Chroma(s, v), p, c);
  }

  /** So distinct coloured inputs give distinct colours. */
  lemma ChannelsInjective(h: real, s: real, v: real, h': real, s': real, v': real)
    requires 0.0 <= h < 360.0 && 0.0 < s <= 100.0 && 0.0 < v <= 100.0
    requires 0.0 <= h' < 360.0 && 0.0 < s' <= 100.0 && 0.0 < v' <= 100.0
    requires Channels(h, s, v) == Channels(h', s', v')
    ensures (h, s, v) == (h', s', v')
  {
    InverseOfChannels(h, s, v);
    InverseOfChannels(h', s', v');
  }

  /** The primary and secondary colours, at full saturation, sit at their usual hues. */
  lemma HuesOfPrimaries(v: real)
    ensures Channels(0.0, 100.0, v) == Colour(v, 0.0, 0.0) && Channels(60.0, 100.0, v) == Colour(v, v, 0.0)
    ensures Channels(120.0, 100.0, v) == Colour(0.0, v, 0.0) && Channels(180.0, 100.0, v) == Colour(0.0, v, v)
    ensures Channels(240.0, 100.0, v) == Colour(0.0, 0.0, v) && Channels(300.0, 100.0, v) == Colour(v, 0.0, v)
  {
    assert Chroma(100.0, v) == v;
  }
}
