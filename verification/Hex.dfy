/** Lower-case hexadecimal (`%x`). */
module Hex {
  import opened Wrappers

  function HexDigit(x: byte): char
    requires x < 16
  {
    "0123456789abcdef"[x as int]
  }

  function ToHex(data: bytes): string {
    if data == [] then "" else [HexDigit(data[0] >> 4), HexDigit(data[0] & 15)] + ToHex(data[1..])
  }

  lemma {:induction false} DigitsDetermineByte(x: byte, y: byte)
    requires HexDigit(x >> 4) == HexDigit(y >> 4) && HexDigit(x & 15) == HexDigit(y & 15)
    ensures x == y
  {
    assert x >> 4 == y >> 4 && x & 15 == y & 15;
  }

  /** Different byte strings print differently. */
  lemma {:induction false} HexInjective(a: bytes, b: bytes)
    requires ToHex(a) == ToHex(b)
    ensures a == b
  {
    if a != [] && b != [] {
      assert ToHex(a)[0] == ToHex(b)[0] && ToHex(a)[1] == ToHex(b)[1];
      DigitsDetermineByte(a[0], b[0]);
      assert ToHex(a)[2..] == ToHex(a[1..]) && ToHex(b)[2..] == ToHex(b[1..]);
      HexInjective(a[1..], b[1..]);
      assert a == [a[0]] + a[1..] && b == [b[0]] + b[1..];
    }
  }

  lemma {:induction false} Nibbles(x: byte)
    ensures (x >> 4) as int == x as int / 16 && (x & 15) as int == x as int % 16
  {
    assert x >> 4 == x / 16 && x & 15 == x % 16;
  }

  /** Two digits a byte, the high one first. */
  lemma {:induction false} HexByIndex(data: bytes, i: nat)
    requires i < |data|
    ensures |ToHex(data)| == 2 * |data|
    ensures ToHex(data)[2 * i] == "0123456789abcdef"[data[i] as int / 16]
    ensures ToHex(data)[2 * i + 1] == "0123456789abcdef"[data[i] as int % 16]
  {
    if i == 0 {
      Nibbles(data[0]);
      if |data| > 1 { HexByIndex(data[1..], 0); }
    } else {
      HexByIndex(data[1..], i - 1);
    }
  }
}
