/** The older encoder: the mask moves over a fixed byte, and each 4-byte group is turned round in place. */
module LegacyEncoder {
  import opened Options
  import opened PixelEncoder
  import opened LedStrip

  const LEGACY_ONE: bv8 := 0xFC

  function Renamed(s: bv8): bv8 {
    if s == ONE then LEGACY_ONE else s
  }

  function RenamedAll(s: seq<bv8>): (t: seq<bv8>)
    ensures |t| == |s|
  {
    seq(|s|, i requires 0 <= i < |s| => Renamed(s[i]))
  }

  lemma RenamedConcat(a: seq<bv8>, b: seq<bv8>, c: seq<bv8>)
    ensures RenamedAll(a + b + c) == RenamedAll(a) + RenamedAll(b) + RenamedAll(c)
  {
  }

  /** Every group of four turned round. */
  function GroupsReversed(s: seq<bv8>): (t: seq<bv8>)
    requires |s| % 4 == 0
    ensures |t| == |s|
  {
    var n := |s|;
    if n == 0 then [] else GroupsReversed(s[..n - 4]) + [s[n - 1], s[n - 2], s[n - 3], s[n - 4]]
  }

  lemma NoGroups()
    ensures GroupsReversed([]) == []
  {
  }

  lemma OneMoreGroup(front: seq<bv8>, a: bv8, b: bv8, c: bv8, d: bv8)
    requires |front| % 4 == 0
    ensures GroupsReversed(front + [a, b, c, d]) == GroupsReversed(front) + [d, c, b, a]
  {
    assert (front + [a, b, c, d])[..|front|] == front;
  }

  lemma GroupAt(s: seq<bv8>, p: nat)
    requires p + 4 <= |s| && p % 4 == 0
    ensures GroupsReversed(s[..p + 4]) == GroupsReversed(s[..p]) + [s[p + 3], s[p + 2], s[p + 1], s[p]]
  {
    hide GroupsReversed;
    assert s[..p + 4] == s[..p] + [s[p], s[p + 1], s[p + 2], s[p + 3]];
    OneMoreGroup(s[..p], s[p], s[p + 1], s[p + 2], s[p + 3]);
  }

  /** Turning the groups round twice gives the buffer back. */
  lemma {:induction false} ReversalUndoesItself(s: seq<bv8>)
    requires |s| % 4 == 0
    ensures GroupsReversed(GroupsReversed(s)) == s
  {
    if s != [] {
      hide GroupsReversed;
      var front, a, b, c, d := s[..|s| - 4], s[|s| - 4], s[|s| - 3], s[|s| - 2], s[|s| - 1];
      assert s == front + [a, b, c, d];
      ReversalUndoesItself(front);
      OneMoreGroup(front, a, b, c, d);
      OneMoreGroup(GroupsReversed(front), d, c, b, a);
    } else {
      NoGroups();
    }
  }

  lemma NextRenamed(v: bv8, k: nat)
    requires k < 8
    ensures RenamedAll(Symbols(v))[..k + 1] ==
            RenamedAll(Symbols(v))[..k] + [if v & Counter(k) != 0 then LEGACY_ONE else ZERO]
  {
  }

  /** One of the three mask loops; `k` is how far p_data has moved. */
  method FillByteByMask(buf: array<bv8>, at: nat, byte: bv8)
    requires at + 8 <= buf.Length
    modifies buf
    ensures buf[..at] == old(buf[..at]) && buf[at + 8..] == old(buf[at + 8..])
    ensures buf[at..at + 8] == RenamedAll(Symbols(byte))
  {
    var mask: bv8 := 0x80;
    var k := 0;
    assert mask == Counter(0);
    hide RenamedAll, Symbols, Counter, MASKS;
    ghost var symbols := RenamedAll(Symbols(byte));
    while mask != 0
      invariant 0 <= k <= 8 && mask == Counter(k)
      invariant buf[..at] == old(buf[..at]) && buf[at + 8..] == old(buf[at + 8..])
      invariant buf[at..at + k] == symbols[..k]
      decreases 8 - k
    {
      NotDone(k);
      CounterSteps(k);
      NextRenamed(byte, k);
      if byte & mask != 0 {
        buf[at + k] := 0xFC;
      } else {
        buf[at + k] := 0xC0;
      }
      mask := mask >> 1;
      k := k + 1;
    }
    if k < 8 {
      CounterSteps(k);
    }
    assert symbols[..8] == symbols;
  }

  function GroupTurned(t: seq<bv8>, p: nat): seq<bv8>
    requires p + 4 <= |t|
  {
    t[..p] + [t[p + 3], t[p + 2], t[p + 1], t[p]] + t[p + 4..]
  }

  /** The inner swap loop, on the group of four at `p`. */
  method ReverseGroup(buf: array<bv8>, p: nat)
    requires p + 4 <= buf.Length
    modifies buf
    ensures buf[..] == GroupTurned(old(buf[..]), p)
  {
    ghost var t := buf[..];
    for j := 0 to 2
      invariant buf[..p] == t[..p] && buf[p + 4..] == t[p + 4..]
      invariant buf[p] == t[if j > 0 then p + 3 else p] && buf[p + 3] == t[if j > 0 then p else p + 3]
      invariant buf[p + 1] == t[if j > 1 then p + 2 else p + 1]
      invariant buf[p + 2] == t[if j > 1 then p + 1 else p + 2]
    {
      var temp := buf[p + j];
      buf[p + j] := buf[p + 3 - j];
      buf[p + 3 - j] := temp;
    }
    assert buf[..] == buf[..p] + [buf[p], buf[p + 1], buf[p + 2], buf[p + 3]] + buf[p + 4..];
  }

  /** The first n groups turned round, the rest still as it was. */
  function UpTo(s: seq<bv8>, n: nat): (t: seq<bv8>)
    requires 4 * n <= |s|
    ensures |t| == |s|
  {
    GroupsReversed(s[..4 * n]) + s[4 * n..]
  }

  lemma NextGroup(s: seq<bv8>, n: nat)
    requires 4 * n + 4 <= |s|
    ensures UpTo(s, n + 1) == GroupTurned(UpTo(s, n), 4 * n)
  {
    GroupAt(s, 4 * n);
    hide GroupsReversed;
    var t := UpTo(s, n);
    assert t[..4 * n] == GroupsReversed(s[..4 * n]) && t[4 * n + 4..] == s[4 * n + 4..];
  }

  lemma NoneAndAll(s: seq<bv8>)
    requires |s| == 24
    ensures UpTo(s, 0) == s && UpTo(s, 6) == GroupsReversed(s)
  {
    NoGroups();
    hide GroupsReversed;
    assert s[..0] == [] && s[..24] == s;
  }

  method ReverseGroups(buf: array<bv8>)
    requires buf.Length == 24
    modifies buf
    ensures buf[..] == GroupsReversed(old(buf[..]))
  {
    ghost var was := buf[..];
    hide GroupsReversed, UpTo, GroupTurned;
    NoneAndAll(was);
    for i := 0 to 6
      invariant buf[..] == UpTo(was, i)
    {
      NextGroup(was, i);
      ReverseGroup(buf, i * 4);
    }
  }

  /** The two encoders agree up to the name of the one-symbol and the order inside each group. */
  method Ws2812bSend24bit(R: bv8, G: bv8, B: bv8) returns (sent: seq<bv8>)
    ensures sent == GroupsReversed(RenamedAll(Encode(Rgb(R, G, B))))
  {
    var dataBuf := new bv8[24];
    FillByteByMask(dataBuf, 0, G);
    FillByteByMask(dataBuf, 8, R);
    FillByteByMask(dataBuf, 16, B);
    RenamedConcat(Symbols(G), Symbols(R), Symbols(B));
    hide Symbols, RenamedAll;
    assert dataBuf[..] == dataBuf[..8] + dataBuf[8..16] + dataBuf[16..];
    assert dataBuf[..] == RenamedAll(Encode(Rgb(R, G, B)));
    ReverseGroups(dataBuf);
    sent := dataBuf[..];
  }

  function NamedBack(s: seq<bv8>): (t: seq<bv8>)
    ensures |t| == |s|
  {
    seq(|s|, i requires 0 <= i < |s| => if s[i] == LEGACY_ONE then ONE else s[i])
  }

  /** So turning its groups round and renaming back recovers the colour from what the older encoder sent. */
  lemma LegacyStreamDecodes(c: Rgb)
    ensures Decode(NamedBack(GroupsReversed(GroupsReversed(RenamedAll(Encode(c)))))) == Some(c)
  {
    var sent := Encode(c);
    EncoderRoundTrip(sent, c);
    ReversalUndoesItself(RenamedAll(sent));
    assert AllSymbols(sent);
    hide Encode, Decode;
    assert NamedBack(RenamedAll(sent)) == sent;
  }

  lemma {:induction false} TurnedAt(s: seq<bv8>, n: nat)
    requires |s| % 4 == 0 && n < |s|
    ensures GroupsReversed(s)[n] == s[n / 4 * 4 + 3 - n % 4]
  {
    var m := |s| - 4;
    if n < m {
      TurnedAt(s[..m], n);
    } else {
      assert n / 4 * 4 == m;
    }
  }

  /** Its 24 bytes are the active encoder's: each group of four from the back, with 0xFC for 0xF0. */
  lemma LegacyBytes(c: Rgb, n: nat)
    requires n < 24
    ensures GroupsReversed(RenamedAll(Encode(c)))[n] == if Encode(c)[n / 4 * 4 + 3 - n % 4] == 0xF0 then 0xFC else 0xC0
  {
    TurnedAt(RenamedAll(Encode(c)), n);
    EncoderRoundTrip(Encode(c), c);
    hide GroupsReversed, Encode;
    assert AllSymbols(Encode(c));
  }
}
