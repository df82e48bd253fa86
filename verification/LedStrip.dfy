/** The strip driver: the bit loops of WS2812BSend_24bit and the whole-strip refreshes. */
module LedStrip {
  import opened PixelEncoder

  /** The loop counter is itself a bit on its way down; it is zero after eight turns. */
  function Counter(k: nat): bv8 {
    if k < 8 then MASKS[k] else 0
  }

  lemma CounterSteps(k: nat)
    requires k < 8
    ensures Counter(k) != 0 && Counter(k) >> 1 == Counter(k + 1)
  {
  }

  lemma NotDone(k: nat)
    requires k <= 8 && Counter(k) != 0
    ensures k < 8
  {
  }

  lemma NextSymbol(v: bv8, k: nat)
    requires k < 8
    ensures Symbols(v)[..k + 1] == Symbols(v)[..k] + [if BitAt(v, k) then ONE else ZERO]
  {
  }

  /** The bits of `value` from place k on have reached the top of `byte`. */
  ghost predicate Aligned(byte: bv8, value: bv8, k: nat) {
    forall m :: 0 <= m < 8 - k ==> (BitAt(byte, m) <==> BitAt(value, m + k))
  }

  lemma AlignedStep(byte: bv8, value: bv8, k: nat)
    requires k < 8 && Aligned(byte, value, k)
    ensures byte & 0x80 != 0 <==> BitAt(value, k)
    ensures Aligned(byte << 1, value, k + 1)
  {
    assert BitAt(byte, 0) <==> byte & 0x80 != 0;
    assert BitAt(byte, 0) <==> BitAt(value, 0 + k);
    hide BitAt;
    var shifted := byte << 1;
    forall m | 0 <= m < 7 - k ensures BitAt(shifted, m) <==> BitAt(value, m + (k + 1)) {
      DoublingMovesBits(byte, m);
      assert BitAt(byte, m + 1) <==> BitAt(value, (m + 1) + k);
    }
  }

  /** One of the three bit loops; `k` is how far p_data has moved. */
  method FillByte(buf: array<bv8>, at: nat, value: bv8)
    requires at + 8 <= buf.Length
    modifies buf
    ensures buf[..at] == old(buf[..at]) && buf[at + 8..] == old(buf[at + 8..])
    ensures buf[at..at + 8] == Symbols(value)
  {
    var mask: bv8 := 0x80;
    var byte := value;
    var loopTime: bv8 := 0x80;
    var k := 0;
    assert loopTime == Counter(0) && Aligned(byte, value, 0);
    hide BitAt, Counter, Symbols, Aligned;
    while loopTime != 0
      invariant 0 <= k <= 8 && loopTime == Counter(k)
      invariant Aligned(byte, value, k)
      invariant buf[..at] == old(buf[..at]) && buf[at + 8..] == old(buf[at + 8..])
      invariant buf[at..at + k] == Symbols(value)[..k]
      decreases 8 - k
    {
      NotDone(k);
      CounterSteps(k);
      NextSymbol(value, k);
      AlignedStep(byte, value, k);
      if byte & mask != 0 {
        buf[at + k] := 0xF0;
      } else {
        buf[at + k] := 0xC0;
      }
      byte := byte << 1;
      loopTime := loopTime >> 1;
      k := k + 1;
    }
    if k < 8 {
      CounterSteps(k);
    }
  }

  method Ws2812bSend24bit(R: bv8, G: bv8, B: bv8) returns (sent: seq<bv8>)
    ensures sent == Encode(Rgb(R, G, B))
  {
    var dataBuf := new bv8[24];
    FillByte(dataBuf, 0, G);
    FillByte(dataBuf, 8, R);
    FillByte(dataBuf, 16, B);
    hide Symbols;
    assert dataBuf[..] == dataBuf[..8] + dataBuf[8..16] + dataBuf[16..];
    sent := dataBuf[..];
  }

  /** The pixels of a refresh that sets the whole strip to one colour. */
  function Uniform(c: Rgb, n: nat): (pixels: seq<Rgb>)
    ensures |pixels| == n && forall i :: 0 <= i < n ==> pixels[i] == c
  {
    seq(n, _ => c)
  }

  lemma OneMorePixel(pixels: seq<Rgb>, n: nat)
    requires n < |pixels|
    ensures Stream(pixels[..n + 1]) == Stream(pixels[..n]) + Encode(pixels[n])
  {
    assert pixels[..n + 1][..n] == pixels[..n];
  }

  /** A uniform strip repeats the encoding of its colour. */
  lemma {:induction false} UniformStreamAt(c: Rgb, count: nat, n: nat)
    requires n < 24 * count
    ensures |Stream(Uniform(c, count))| == 24 * count
    ensures Stream(Uniform(c, count))[n] == Encode(c)[n % 24]
  {
    hide Encode, Stream;
    assert Uniform(c, count) == Uniform(c, count - 1) + [c];
    StreamOfOneMore(Uniform(c, count - 1), c);
    if count == 1 {
      NoPixels();
    } else {
      UniformStreamAt(c, count - 1, if n < 24 * (count - 1) then n else 0);
    }
  }

  class Strip {
    const rBuffer: array<bv8>
    const gBuffer: array<bv8>
    const bBuffer: array<bv8>
    var ledStatus: Rgb
    var wire: seq<bv8>

    ghost predicate Valid()
      reads this
    {
      && rBuffer.Length == gBuffer.Length == bBuffer.Length == PIXEL_MAX
      && rBuffer != gBuffer && gBuffer != bBuffer && rBuffer != bBuffer
    }

    constructor ()
      ensures Valid() && wire == [] && ledStatus == Rgb(0, 0, 0)
      ensures fresh(rBuffer) && fresh(gBuffer) && fresh(bBuffer)
    {
      rBuffer := new bv8[PIXEL_MAX](_ => 0);
      gBuffer := new bv8[PIXEL_MAX](_ => 0);
      bBuffer := new bv8[PIXEL_MAX](_ => 0);
      ledStatus, wire := Rgb(0, 0, 0), [];
    }

    method SetAllPixelColorNocache(r: bv8, g: bv8, b: bv8)
      modifies this`ledStatus, this`wire
      ensures ledStatus == Rgb(r, g, b)
      ensures wire == old(wire) + Stream(Uniform(Rgb(r, g, b), PIXEL_MAX))
    {
      hide Stream, Encode;
      ledStatus := Rgb(r, g, b);
      NoPixels();
      ghost var pixels := Uniform(Rgb(r, g, b), PIXEL_MAX);
      var i := 0;
      while i < PIXEL_MAX
        invariant 0 <= i <= PIXEL_MAX
        invariant wire == old(wire) + Stream(pixels[..i]) && ledStatus == Rgb(r, g, b)
      {
        var sent := Ws2812bSend24bit(r, g, b);
        OneMorePixel(pixels, i);
        wire := wire + sent;
        i := i + 1;
      }
      assert pixels[..PIXEL_MAX] == pixels;
    }

    /** The buffered refresh sends the same stream, and leaves the colour in the buffers. */
    method SetAllPixelColor(r: bv8, g: bv8, b: bv8)
      requires Valid()
      modifies this`wire, rBuffer, gBuffer, bBuffer
      ensures forall i :: 0 <= i < PIXEL_MAX ==> rBuffer[i] == r && gBuffer[i] == g && bBuffer[i] == b
      ensures wire == old(wire) + Stream(Uniform(Rgb(r, g, b), PIXEL_MAX))
    {
      hide Stream, Encode;
      NoPixels();
      var i := 0;
      while i < PIXEL_MAX
        invariant 0 <= i <= PIXEL_MAX && wire == old(wire)
      {
        rBuffer[i], gBuffer[i], bBuffer[i] := 0, 0, 0;
        i := i + 1;
      }
      i := 0;
      while i < PIXEL_MAX
        invariant 0 <= i <= PIXEL_MAX && wire == old(wire)
        invariant forall j :: 0 <= j < i ==> rBuffer[j] == r && gBuffer[j] == g && bBuffer[j] == b
      {
        rBuffer[i], gBuffer[i], bBuffer[i] := r, g, b;
        i := i + 1;
      }
      ghost var pixels := Uniform(Rgb(r, g, b), PIXEL_MAX);
      i := 0;
      while i < PIXEL_MAX
        invariant 0 <= i <= PIXEL_MAX
        invariant wire == old(wire) + Stream(pixels[..i])
        invariant forall j :: 0 <= j < PIXEL_MAX ==> rBuffer[j] == r && gBuffer[j] == g && bBuffer[j] == b
      {
        var sent := Ws2812bSend24bit(rBuffer[i], gBuffer[i], bBuffer[i]);
        OneMorePixel(pixels, i);
        wire := wire + sent;
        i := i + 1;
      }
      assert pixels[..PIXEL_MAX] == pixels;
    }
  }
}
