/** The MAC address as text: Base16, upper case (section 8 of RFC 4648). */
module MacAddress {
  import opened Options
  import opened CStrings

  type Byte = b: int | 0 <= b < 256

  predicate IsHexDigit(c: char) {
    '0' <= c <= '9' || 'A' <= c <= 'F'
  }

  function DigitValue(c: char): (v: int)
    requires IsHexDigit(c)
    ensures 0 <= v < 16
  {
    if c <= '9' then c as int - '0' as int else c as int - 'A' as int + 10
  }

  /** The digit of a nibble is fixed by having that nibble as its value. */
  function HexDigit(nibble: int): (c: char)
    requires 0 <= nibble < 16
    ensures IsHexDigit(c) && DigitValue(c) == nibble
  {
    if nibble >= 10 then (nibble + 'A' as int - 10) as char else (nibble + '0' as int) as char
  }

  /** The two digits of a byte, high nibble first. */
  function HexPair(b: Byte): (pair: string)
    ensures |pair| == 2 && IsHexDigit(pair[0]) && IsHexDigit(pair[1])
  {
    [HexDigit(b / 16), HexDigit(b % 16)]
  }

  function HexText(bytes: seq<Byte>): (text: string)
    ensures |text| == 2 * |bytes|
    ensures forall i :: 0 <= i < |text| ==> IsHexDigit(text[i])
  {
    if bytes == [] then ""
    else HexText(bytes[..|bytes| - 1]) + HexPair(bytes[|bytes| - 1])
  }

  /** A Base16 decoder, written from the standard: pairs of digits, high nibble first. */
  function Unhex(text: string): Option<seq<Byte>> {
    var n := |text|;
    if n == 0 then Some([])
    else if n == 1 || !IsHexDigit(text[n - 2]) || !IsHexDigit(text[n - 1]) then None
    else
      match Unhex(text[..n - 2])
      case None => None
      case Some(front) => Some(front + [16 * DigitValue(text[n - 2]) + DigitValue(text[n - 1])])
  }

  lemma PairDigits(b: Byte)
    ensures HexPair(b) == [HexDigit(b / 16), HexDigit(b % 16)]
  {
  }

  lemma HexTextOfOneMore(front: seq<Byte>, b: Byte)
    ensures HexText(front + [b]) == HexText(front) + HexPair(b)
  {
    assert (front + [b])[..|front|] == front;
  }

  lemma LastPair(front: seq<Byte>, last: Byte) returns (c: char, d: char)
    ensures IsHexDigit(c) && IsHexDigit(d) && 16 * DigitValue(c) + DigitValue(d) == last
    ensures HexText(front + [last]) == HexText(front) + [c, d]
  {
    c, d := HexDigit(last / 16), HexDigit(last % 16);
    HexTextOfOneMore(front, last);
  }

  lemma UnhexOfOneMore(text: string, c: char, d: char)
    requires IsHexDigit(c) && IsHexDigit(d)
    ensures Unhex(text + [c, d]) ==
            match Unhex(text) case None => None case Some(front) => Some(front + [16 * DigitValue(c) + DigitValue(d)])
  {
    hide IsHexDigit, DigitValue;
    var more := text + [c, d];
    assert more[..|more| - 2] == text;
  }

  lemma {:induction false} UnhexOfHexText(bytes: seq<Byte>)
    ensures Unhex(HexText(bytes)) == Some(bytes)
  {
    if bytes != [] {
      hide HexText, DigitValue, IsHexDigit, Unhex;
      var front, last := bytes[..|bytes| - 1], bytes[|bytes| - 1];
      assert bytes == front + [last];
      UnhexOfHexText(front);
      var c, d := LastPair(front, last);
      UnhexOfOneMore(HexText(front), c, d);
    }
  }

  lemma DigitsOfPair(c: char, d: char)
    requires IsHexDigit(c) && IsHexDigit(d)
    ensures var b := 16 * DigitValue(c) + DigitValue(d);
            0 <= b < 256 && HexDigit(b / 16) == c && HexDigit(b % 16) == d
  {
    var b := 16 * DigitValue(c) + DigitValue(d);
    assert b / 16 == DigitValue(c) && b % 16 == DigitValue(d);
  }

  /** The last step of decoding: the bytes of all but two digits, and the byte of those two. */
  lemma UnhexStep(text: string) returns (front: seq<Byte>, b: Byte)
    requires text != "" && Unhex(text).Some?
    ensures |text| >= 2 && Unhex(text[..|text| - 2]) == Some(front) && Unhex(text) == Some(front + [b])
    ensures text == text[..|text| - 2] + HexPair(b)
  {
    var n := |text|;
    front := Unhex(text[..n - 2]).value;
    DigitsOfPair(text[n - 2], text[n - 1]);
    b := 16 * DigitValue(text[n - 2]) + DigitValue(text[n - 1]);
  }

  lemma {:induction false} HexTextOfUnhex(text: string)
    requires Unhex(text).Some?
    ensures HexText(Unhex(text).value) == text
  {
    if text != "" {
      hide HexText, Unhex, HexPair, IsHexDigit;
      var front, b := UnhexStep(text);
      HexTextOfUnhex(text[..|text| - 2]);
      HexTextOfOneMore(front, b);
    }
  }

  lemma HexTextInjective(a: seq<Byte>, b: seq<Byte>)
    requires HexText(a) == HexText(b)
    ensures a == b
  {
    UnhexOfHexText(a);
    UnhexOfHexText(b);
  }

  lemma DigitText(nibble: int)
    requires 0 <= nibble < 16
    ensures HexDigit(nibble) == "0123456789ABCDEF"[nibble]
  {
  }

  lemma PairText(b: Byte)
    ensures HexPair(b) == ["0123456789ABCDEF"[b / 16], "0123456789ABCDEF"[b % 16]]
  {
    hide HexPair;
    PairDigits(b);
    DigitText(b / 16);
    DigitText(b % 16);
  }

  /** Byte i is written at 2i and 2i + 1, high nibble first, in these sixteen digits. */
  lemma {:induction false} HexTextDigits(bytes: seq<Byte>, i: nat)
    requires i < |bytes|
    ensures HexText(bytes)[2 * i] == "0123456789ABCDEF"[bytes[i] / 16]
    ensures HexText(bytes)[2 * i + 1] == "0123456789ABCDEF"[bytes[i] % 16]
  {
    hide HexText, HexPair, IsHexDigit;
    var front, last := bytes[..|bytes| - 1], bytes[|bytes| - 1];
    assert bytes == front + [last];
    HexTextOfOneMore(front, last);
    if i < |front| {
      HexTextDigits(front, i);
    } else {
      PairText(last);
    }
  }

  /** A MAC never brings a topic separator of its own. */
  lemma HexTextIsPlain(bytes: seq<Byte>)
    ensures Plain(HexText(bytes))
  {
    var text := HexText(bytes);
    assert forall i :: 0 <= i < |text| ==> text[i] != '/';
  }

  /** The character of one nibble, as the loop computes it. */
  method NibbleChar(temp: int) returns (c: char)
    requires 0 <= temp < 16
    ensures c == HexDigit(temp)
  {
    if temp >= 10 {
      c := (temp + 'A' as int - 10) as char;
    } else {
      c := (temp + '0' as int) as char;
    }
  }

  method MakeWifiMacStr(wifimac: array<Byte>, wifimacStr: array<char>)
    requires wifimac.Length == 6 && wifimacStr.Length == 13
    modifies wifimacStr
    ensures wifimacStr[..12] == HexText(wifimac[..])
    ensures wifimacStr[12] == '\0'
  {
    assert HexText(wifimac[..0]) == "";
    hide HexText, HexPair, HexDigit, IsHexDigit;
    var i := 0;
    while i < 6
      invariant 0 <= i <= 6
      invariant wifimacStr[..2 * i] == HexText(wifimac[..i])
    {
      var temp: Byte := wifimac[i] / 16;
      wifimacStr[i * 2] := NibbleChar(temp);
      temp := wifimac[i] % 16;
      wifimacStr[i * 2 + 1] := NibbleChar(temp);
      HexTextOfOneMore(wifimac[..i], wifimac[i]);
      PairDigits(wifimac[i]);
      assert wifimac[..i + 1] == wifimac[..i] + [wifimac[i]];
      assert wifimacStr[..2 * (i + 1)] == wifimacStr[..2 * i] + [wifimacStr[2 * i], wifimacStr[2 * i + 1]];
      i := i + 1;
    }
    wifimacStr[12] := '\0';
    assert wifimac[..6] == wifimac[..];
  }
}
