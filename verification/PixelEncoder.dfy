/** WS2812 encoding: one SPI byte per colour bit, by shifting the colour byte under a fixed mask. */
module PixelEncoder {
  import opened Options

  datatype Rgb = Rgb(r: bv8, g: bv8, b: bv8)

  const ONE: bv8 := 0xF0
  const ZERO: bv8 := 0xC0
  const PIXEL_MAX := 32

  /** The weight of bit k, counting from the most significant. */
  const MASKS: seq<bv8> := [0x80, 0x40, 0x20, 0x10, 0x08, 0x04, 0x02, 0x01]

  predicate BitAt(v: bv8, k: nat)
    requires k < 8
  {
    v & MASKS[k] != 0
  }

  function Symbols(v: bv8): (s: seq<bv8>)
    ensures |s| == 8
  {
    seq(8, k requires 0 <= k < 8 => if BitAt(v, k) then ONE else ZERO)
  }

  /** Green, red, blue. */
  function Encode(c: Rgb): (s: seq<bv8>)
    ensures |s| == 24
  {
    Symbols(c.g) + Symbols(c.r) + Symbols(c.b)
  }

  // ---- the receiving side

  predicate AllSymbols(s: seq<bv8>) {
    forall k :: 0 <= k < |s| ==> s[k] == ONE || s[k] == ZERO
  }

  /** Eight symbols, most significant bit first: double and add. */
  function BitsValue(s: seq<bv8>): bv8 {
    if s == [] then 0 else (BitsValue(s[..|s| - 1]) << 1) | (if s[|s| - 1] == ONE then 1 else 0)
  }

  function Decode(s: seq<bv8>): Option<Rgb>
    requires |s| == 24
  {
    if AllSymbols(s) then Some(Rgb(BitsValue(s[8..16]), BitsValue(s[..8]), BitsValue(s[16..]))) else None
  }

  function Stream(pixels: seq<Rgb>): seq<bv8> {
    if pixels == [] then [] else Stream(pixels[..|pixels| - 1]) + Encode(pixels[|pixels| - 1])
  }

  function DecodeStream(s: seq<bv8>): Option<seq<Rgb>> {
    if s == [] then Some([])
    else if |s| < 24 then None
    else
      match (DecodeStream(s[..|s| - 24]), Decode(s[|s| - 24..]))
      case (Some(front), Some(last)) => Some(front + [last])
      case _ => None
  }

  // ---- round trips

  lemma NoBitLost(acc: bv8)
    ensures (acc & 0x40) << 1 == 0 <==> acc & 0x40 == 0
    ensures (acc & 0x20) << 1 == 0 <==> acc & 0x20 == 0
    ensures (acc & 0x10) << 1 == 0 <==> acc & 0x10 == 0
    ensures (acc & 0x08) << 1 == 0 <==> acc & 0x08 == 0
    ensures (acc & 0x04) << 1 == 0 <==> acc & 0x04 == 0
    ensures (acc & 0x02) << 1 == 0 <==> acc & 0x02 == 0
    ensures (acc & 0x01) << 1 == 0 <==> acc & 0x01 == 0
  {
  }

  /** Doubling, in eight bits, moves every bit up one place and drops the top one. */
  lemma DoublingMovesBits(acc: bv8, m: nat)
    requires m < 8
    ensures BitAt(acc << 1, m) <==> m < 7 && BitAt(acc, m + 1)
  {
    var v := acc << 1;
    assert v & 0x80 == (acc & 0x40) << 1 && v & 0x40 == (acc & 0x20) << 1 && v & 0x20 == (acc & 0x10) << 1;
    assert v & 0x10 == (acc & 0x08) << 1 && v & 0x08 == (acc & 0x04) << 1 && v & 0x04 == (acc & 0x02) << 1;
    assert v & 0x02 == (acc & 0x01) << 1 && v & 0x01 == 0;
    NoBitLost(acc);
  }

  lemma AddingFillsTheLowest(v: bv8, one: bool, m: nat)
    requires m < 8 && v & 0x01 == 0
    ensures BitAt(v | (if one then 1 else 0), m) <==> BitAt(v, m) || (m == 7 && one)
  {
    var w := v | 1;
    assert w & 0x80 == v & 0x80 && w & 0x40 == v & 0x40 && w & 0x20 == v & 0x20 && w & 0x10 == v & 0x10;
    assert w & 0x08 == v & 0x08 && w & 0x04 == v & 0x04 && w & 0x02 == v & 0x02 && w & 0x01 == 1;
    assert v | 0 == v;
  }

  /** Reading symbols puts each at its own weight. */
  lemma {:induction false} BitsOfValue(s: seq<bv8>, m: nat)
    requires |s| <= 8 && 8 - |s| <= m < 8
    ensures BitAt(BitsValue(s), m) <==> s[m - (8 - |s|)] == ONE
  {
    hide BitAt;
    var front, last := s[..|s| - 1], s[|s| - 1];
    var doubled := BitsValue(front) << 1;
    assert doubled & 0x01 == 0;
    DoublingMovesBits(BitsValue(front), m);
    AddingFillsTheLowest(doubled, last == ONE, m);
    if m < 7 {
      BitsOfValue(front, m + 1);
    }
  }

  lemma BitsDecide(a: bv8, b: bv8)
    requires forall k :: 0 <= k < 8 ==> (BitAt(a, k) <==> BitAt(b, k))
    ensures a == b
  {
    assert BitAt(a, 0) == BitAt(b, 0) && BitAt(a, 1) == BitAt(b, 1) && BitAt(a, 2) == BitAt(b, 2);
    assert BitAt(a, 3) == BitAt(b, 3) && BitAt(a, 4) == BitAt(b, 4) && BitAt(a, 5) == BitAt(b, 5);
    assert BitAt(a, 6) == BitAt(b, 6) && BitAt(a, 7) == BitAt(b, 7);
  }

  lemma SymbolsRoundTrip(v: bv8)
    ensures AllSymbols(Symbols(v)) && BitsValue(Symbols(v)) == v
  {
    forall k | 0 <= k < 8 ensures BitAt(BitsValue(Symbols(v)), k) <==> BitAt(v, k) {
      BitsOfValue(Symbols(v), k);
    }
    BitsDecide(BitsValue(Symbols(v)), v);
  }

  lemma ValueRoundTrip(s: seq<bv8>)
    requires |s| == 8 && AllSymbols(s)
    ensures Symbols(BitsValue(s)) == s
  {
    hide BitsValue, BitAt;
    var t := Symbols(BitsValue(s));
    forall k | 0 <= k < 8 ensures t[k] == s[k] {
      BitsOfValue(s, k);
    }
  }

  /** A colour's symbols decode to that colour, and nothing else decodes to it. */
  lemma EncoderRoundTrip(s: seq<bv8>, c: Rgb)
    requires |s| == 24
    ensures Decode(s) == Some(c) <==> s == Encode(c)
  {
    hide BitsValue, Symbols;
    if s == Encode(c) {
      SymbolsRoundTrip(c.g);
      SymbolsRoundTrip(c.r);
      SymbolsRoundTrip(c.b);
      assert s[..8] == Symbols(c.g) && s[8..16] == Symbols(c.r) && s[16..] == Symbols(c.b);
    }
    if Decode(s) == Some(c) {
      ValueRoundTrip(s[..8]);
      ValueRoundTrip(s[8..16]);
      ValueRoundTrip(s[16..]);
      assert s == s[..8] + s[8..16] + s[16..];
    }
  }

  /** A strip's stream, of any length, decodes to its pixels, and nothing else decodes to them. */
  lemma {:induction false} StreamRoundTrip(s: seq<bv8>, pixels: seq<Rgb>)
    ensures DecodeStream(s) == Some(pixels) <==> s == Stream(pixels)
    decreases |s| + |pixels|
  {
    hide Decode, Encode;
    if pixels != [] && |s| >= 24 {
      var front, last := s[..|s| - 24], s[|s| - 24..];
      var pixels', pixel := pixels[..|pixels| - 1], pixels[|pixels| - 1];
      StreamRoundTrip(front, pixels');
      EncoderRoundTrip(last, pixel);
      assert s == front + last && pixels == pixels' + [pixel];
      if s == Stream(pixels) {
        assert front == Stream(pixels') && last == Encode(pixel);
      }
      if DecodeStream(s) == Some(pixels) {
        assert DecodeStream(front).value == pixels' && Decode(last).value == pixel;
      }
    }
  }

  lemma NoPixels()
    ensures Stream([]) == []
  {
  }

  lemma StreamOfOneMore(pixels: seq<Rgb>, pixel: Rgb)
    ensures Stream(pixels + [pixel]) == Stream(pixels) + Encode(pixel)
  {
    assert (pixels + [pixel])[..|pixels|] == pixels;
  }

  lemma {:induction false} StreamOfConcat(a: seq<Rgb>, b: seq<Rgb>)
    ensures Stream(a + b) == Stream(a) + Stream(b)
  {
    hide Stream, Encode;
    if b == [] {
      NoPixels();
      assert a + b == a;
    } else {
      var front, last := b[..|b| - 1], b[|b| - 1];
      assert b == front + [last] && a + b == a + front + [last];
      StreamOfConcat(a, front);
      StreamOfOneMore(a + front, last);
      StreamOfOneMore(front, last);
    }
  }

  /** Bit k counts from the most significant. */
  lemma BitAtIsShift(v: bv8, k: nat)
    requires k < 8
    ensures BitAt(v, k) <==> v & (0x80 >> k) != 0
  {
  }

  /** The 24 bytes of a colour: green, red, blue, each most significant bit first; 0xF0 for a one and 0xC0 for a zero. */
  lemma EncodedBits(c: Rgb, k: nat)
    requires k < 8
    ensures Encode(c)[k] == if BitAt(c.g, k) then 0xF0 else 0xC0
    ensures Encode(c)[8 + k] == if BitAt(c.r, k) then 0xF0 else 0xC0
    ensures Encode(c)[16 + k] == if BitAt(c.b, k) then 0xF0 else 0xC0
  {
    hide BitAt;
  }
}
