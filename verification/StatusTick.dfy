/** The one-second tick: what colour the strip shows, by the lamp's state and the hour. */
module StatusTick {
  import opened PixelEncoder
  import opened LedStrip
  import opened ColourMath
  import opened LightCommands

  const NLM_H := 37
  const NLM_S := 58

  /** An int passed for a uint8_t parameter. */
  function ToByte(x: int): bv8 {
    (x % 256) as bv8
  }

  /** The grey level of the lamp. */
  function Lightness(strength: int, on: bool): int {
    Trunc(strength as real / 100.0 * 255.0 * (if on then 1.0 else 0.0))
  }

  /** A channel in percent as a level. */
  function Level(percent: real): int {
    Trunc(percent / 100.0 * 255.0)
  }

  /** The three levels of the night light, whose hue and saturation are fixed. */
  function NightLevels(strength: int): (int, int, int) {
    var c := Channels(NLM_H as real, NLM_S as real, strength as real);
    (Level(c.r), Level(c.g), Level(c.b))
  }

  function NightColour(strength: int): Rgb {
    var (r, g, b) := NightLevels(strength);
    Rgb(ToByte(r), ToByte(g), ToByte(b))
  }

  function Grey(level: int): Rgb {
    Rgb(ToByte(level), ToByte(level), ToByte(level))
  }

  predicate IsNight(lamp: Lamp, hour: int) {
    lamp.lightConfig.nightLightMode == 1 && lamp.lightConfig.nlmStart <= hour <= lamp.lightConfig.nlmEnd
  }

  function TickColour(lamp: Lamp, hour: int): Rgb {
    if IsNight(lamp, hour) then NightColour(lamp.lightConfig.nlmLightStrength)
    else Grey(Lightness(lamp.lightStrength, lamp.lightOnOff))
  }

  /** What one refresh puts on the wire. */
  function Refresh(c: Rgb): seq<bv8> {
    Stream(Uniform(c, PIXEL_MAX))
  }

  method SetNightLight(strip: Strip, nlmLightStrength: int)
    modifies strip
    ensures strip.ledStatus == NightColour(nlmLightStrength)
    ensures strip.wire == old(strip.wire) + Refresh(NightColour(nlmLightStrength))
  {
    var rF, gF, bF := HsvToRgb(NLM_H, NLM_S, nlmLightStrength);
    var r := Trunc(rF / 100.0 * 255.0);
    var g := Trunc(gF / 100.0 * 255.0);
    var b := Trunc(bF / 100.0 * 255.0);
    strip.SetAllPixelColorNocache(ToByte(r), ToByte(g), ToByte(b));
  }

  method StatusUpdateReport(control: LampControl, strip: Strip, hour: int)
    modifies strip
    ensures strip.ledStatus == TickColour(control.State(), hour)
    ensures strip.wire == old(strip.wire) + Refresh(TickColour(control.State(), hour))
  {
    hide NightColour;
    if control.lightConfig.nightLightMode == 1 {
      if hour >= control.lightConfig.nlmStart && hour <= control.lightConfig.nlmEnd {
        SetNightLight(strip, control.lightConfig.nlmLightStrength);
        return;
      }
    }
    var lightness := Trunc(control.lightStrength as real / 100.0 * 255.0 * (if control.lightOnOff then 1.0 else 0.0));
    strip.SetAllPixelColorNocache(ToByte(lightness), ToByte(lightness), ToByte(lightness));
  }

  // ---- what the levels keep

  lemma TruncIsMonotone(x: real, y: real)
    requires 0.0 <= x <= y
    ensures 0 <= Trunc(x) <= Trunc(y)
    ensures x + 1.0 <= y ==> Trunc(x) < Trunc(y)
  {
  }

  /** Distinct percentages give distinct levels, in order, and a percentage gives a byte. */
  lemma LightnessIsStrict(a: int, b: int)
    requires 0 <= a < b
    ensures 0 <= Lightness(a, true) < Lightness(b, true)
    ensures b <= 100 ==> Lightness(b, true) <= 255
    ensures Lightness(a, false) == 0
  {
    var x, y := a as real / 100.0 * 255.0, b as real / 100.0 * 255.0;
    assert x + 2.55 <= y;
    TruncIsMonotone(x, y);
    if b <= 100 {
      TruncIsMonotone(y, 255.0);
    }
  }

  lemma LevelIsMonotone(p: real, q: real)
    requires 0.0 <= p <= q
    ensures 0 <= Level(p) <= Level(q)
    ensures Level(100.0) == 255
  {
    TruncIsMonotone(p / 100.0 * 255.0, q / 100.0 * 255.0);
  }

  /** The night light's channels are fixed shares of its strength. */
  lemma NightChannels(strength: int)
    ensures Channels(37.0, 58.0, strength as real) ==
            Colour(strength as real, strength as real * (1.0 - 0.58 * (1.0 - 37.0 / 60.0)), strength as real * 0.42)
  {
    SextantDips(0, 37.0 / 60.0, 37.0);
    hide Dip;
    var v := strength as real;
    assert Chroma(58.0, v) == v * 0.58;
  }

  /** The night light is warm: red, green, blue in falling order, each growing with the strength and a byte. */
  lemma NightLightIsWarm(a: int, b: int)
    requires 0 <= a <= b <= 100
    ensures var (r, g, bl) := NightLevels(a);
            0 <= bl <= g <= r <= 255
    ensures NightLevels(a).0 <= NightLevels(b).0 && NightLevels(a).1 <= NightLevels(b).1
            && NightLevels(a).2 <= NightLevels(b).2
  {
    NightChannels(a);
    NightChannels(b);
    hide Channels;
    var c, d := Channels(37.0, 58.0, a as real), Channels(37.0, 58.0, b as real);
    LevelIsMonotone(c.b, c.g);
    LevelIsMonotone(c.g, c.r);
    LevelIsMonotone(c.r, 100.0);
    LevelIsMonotone(c.r, d.r);
    LevelIsMonotone(c.g, d.g);
    LevelIsMonotone(c.b, d.b);
  }

  /** C's division of ints: towards zero. */
  function CutQuotient(n: int, d: int): int
    requires d > 0
  {
    if n >= 0 then n / d else -(-n / d)
  }

  lemma ProductOrder(a: real, b: real, d: real)
    requires d > 0.0
    ensures a < b <==> a * d < b * d
  {
    ProductSign(a - b, d);
    assert (a - b) * d == a * d - b * d;
    ProductSign(b - a, d);
  }

  lemma ProductAsReal(a: int, b: int)
    ensures (a * b) as real == a as real * b as real
  {
  }

  lemma FloorIsQuotient(x: real, n: nat, d: nat)
    requires d > 0 && x * d as real == n as real
    ensures x.Floor == n / d
  {
    var i, rest := n / d, n % d;
    var q := i as real;
    assert n == i * d + rest && 0 <= rest < d;
    ProductAsReal(i, d);
    assert (q + 1.0) * d as real == q * d as real + d as real;
    ProductOrder(x, q, d as real);
    ProductOrder(x, q + 1.0, d as real);
    assert q <= x < q + 1.0;
  }

  lemma TruncIsCutQuotient(x: real, n: int, d: nat)
    requires d > 0 && x * d as real == n as real
    ensures Trunc(x) == CutQuotient(n, d)
  {
    if n >= 0 {
      FloorIsQuotient(x, n, d);
    } else {
      FloorIsQuotient(-x, -n, d);
    }
  }

  /** The grey level in whole numbers. */
  lemma LightnessInNumbers(strength: int, on: bool)
    ensures Lightness(strength, on) == if on then CutQuotient(255 * strength, 100) else 0
  {
    TruncIsCutQuotient(strength as real / 100.0 * 255.0, 255 * strength, 100);
  }

  /** The night levels in whole numbers: hue 37 and saturation 58, worked out. */
  lemma NightLevelsInNumbers(strength: int)
    ensures NightLevels(strength) ==
            (CutQuotient(255 * strength, 100), CutQuotient(198305 * strength, 100000), CutQuotient(1071 * strength, 1000))
  {
    NightChannels(strength);
    hide Channels, Trunc, CutQuotient;
    var c := Channels(37.0, 58.0, strength as real);
    TruncIsCutQuotient(c.r / 100.0 * 255.0, 255 * strength, 100);
    TruncIsCutQuotient(c.g / 100.0 * 255.0, 198305 * strength, 100000);
    TruncIsCutQuotient(c.b / 100.0 * 255.0, 1071 * strength, 1000);
  }

  /** The grey level is a byte exactly for percentages; anything else is cut to eight bits on its way out. */
  lemma LightnessIsByte(strength: int)
    ensures 0 <= Lightness(strength, true) <= 255 <==> 0 <= strength <= 100
  {
    var x := strength as real / 100.0 * 255.0;
    if strength < 0 {
      TruncIsMonotone(2.55, -x);
    } else if strength > 100 {
      TruncIsMonotone(257.55, x);
    } else {
      TruncIsMonotone(x, 255.0);
    }
  }

  lemma ByteKept(x: int)
    requires 0 <= x <= 255
    ensures ToByte(x) as int == x
  {
    assert x % 256 == x;
  }

  /** At night, within percentages, the strip shows the night levels themselves, so it stays warm. */
  lemma NightTickIsWarm(lamp: Lamp, hour: int)
    requires IsNight(lamp, hour) && 0 <= lamp.lightConfig.nlmLightStrength <= 100
    ensures var c := TickColour(lamp, hour);
            var (r, g, b) := NightLevels(lamp.lightConfig.nlmLightStrength);
            && c.r as int == r && c.g as int == g && c.b as int == b && b <= g <= r
  {
    var n := lamp.lightConfig.nlmLightStrength;
    NightLightIsWarm(n, n);
    hide NightLevels, ToByte, Lightness;
    var (r, g, b) := NightLevels(n);
    ByteKept(r);
    ByteKept(g);
    ByteKept(b);
  }
}
