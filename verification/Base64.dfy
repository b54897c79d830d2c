/** Standard base64 with padding (section 4 of RFC 4648). */
module Base64 {
  import opened Wrappers

  function EncodeSextet(x: byte): (c: char)
    requires x < 64
    ensures c != '=' && c != '\r' && c != '\n'
  {
    if x < 26 then (65 + x as int) as char
    else if x < 52 then (71 + x as int) as char
    else if x < 62 then (x as int - 4) as char
    else if x == 62 then '+'
    else '/'
  }

  function DecodeSextet(c: char): (r: Option<byte>)
    ensures r.Some? ==> r.value < 64
  {
    if 'A' <= c <= 'Z' then Some(SmallByte(c as int - 65))
    else if 'a' <= c <= 'z' then Some(SmallByte(c as int - 71))
    else if '0' <= c <= '9' then Some(SmallByte(c as int + 4))
    else if c == '+' then Some(62)
    else if c == '/' then Some(63)
    else None
  }

  function SmallByte(x: nat): (b: byte)
    requires x < 64
    ensures b as int == x && b < 64
  {
    BelowSixtyFour(ByteOf(x));
    ByteOf(x)
  }

  lemma {:induction false} BelowSixtyFour(b: byte)
    ensures b as int < 64 <==> b < 64
  {
  }

  lemma {:induction false} SameByte(a: byte, b: byte)
    requires a as int == b as int
    ensures a == b
  {
  }

  /** `c` is the symbol for `v` in the alphabet of section 4 of RFC 4648. */
  predicate IsSymbol(v: int, c: char) {
    || (0 <= v < 26 && c as int == 'A' as int + v)
    || (26 <= v < 52 && c as int == 'a' as int + (v - 26))
    || (52 <= v < 62 && c as int == '0' as int + (v - 52))
    || (v == 62 && c == '+')
    || (v == 63 && c == '/')
  }

  lemma {:induction false} EncodeSextetIs(x: byte, c: char)
    requires x < 64
    ensures EncodeSextet(x) == c <==> IsSymbol(x as int, c)
  {
  }

  /** The decoder reads exactly the symbols of the alphabet, each as what it stands for. */
  lemma {:induction false} DecodeSextetIs(c: char, x: byte)
    requires x < 64
    ensures DecodeSextet(c) == Some(x) <==> IsSymbol(x as int, c)
  {
    if IsSymbol(x as int, c) { SameByte(x, DecodeSextet(c).value); }
  }

  lemma {:induction false} SextetRoundTrip(x: byte)
    requires x < 64
    ensures DecodeSextet(EncodeSextet(x)) == Some(x)
  {
    EncodeSextetIs(x, EncodeSextet(x));
    DecodeSextetIs(EncodeSextet(x), x);
  }

  // ---- three bytes are four sextets ----

  function First(a: byte): (s: byte) ensures s < 64 { a >> 2 }
  function Second(a: byte, b: byte): (s: byte) ensures s < 64 { ((a & 3) << 4) | (b >> 4) }
  function Third(b: byte, c: byte): (s: byte) ensures s < 64 { ((b & 15) << 2) | (c >> 6) }
  function Fourth(c: byte): (s: byte) ensures s < 64 { c & 63 }

  function Byte1(s: byte, t: byte): byte { (s << 2) | (t >> 4) }
  function Byte2(t: byte, u: byte): byte { (t << 4) | (u >> 2) }
  function Byte3(u: byte, v: byte): byte { (u << 6) | v }

  lemma {:induction false} GroupRoundTrip(a: byte, b: byte, c: byte)
    ensures Byte1(First(a), Second(a, b)) == a
    ensures Byte2(Second(a, b), Third(b, c)) == b
    ensures Byte3(Third(b, c), Fourth(c)) == c
  {
  }

  /** The four sextets are the digits of the three bytes as one number in base 64. */
  lemma {:induction false} SextetsOfNumber(a: byte, b: byte, c: byte, n: int)
    requires n == a as int * 0x1_0000 + b as int * 0x100 + c as int
    ensures First(a) as int == n / 0x4_0000 && Second(a, b) as int == n / 0x1000 % 64
    ensures Third(b, c) as int == n / 64 % 64 && Fourth(c) as int == n % 64
  {
    FirstOfByte(a);
    SecondOfBytes(a, b);
    ThirdOfBytes(b, c);
    FourthOfByte(c);
    BaseSixtyFour(a as int, b as int, c as int, n, First(a) as int, Second(a, b) as int, Third(b, c) as int,
                  Fourth(c) as int);
  }

  lemma {:induction false} FirstOfByte(a: byte)
    ensures First(a) as int == a as int / 4
  {
    assert a >> 2 == a / 4;
  }

  lemma {:induction false} LowBits(a: byte)
    ensures (a & 3) as int == a as int % 4 && a & 3 < 4
    ensures (a & 15) as int == a as int % 16 && a & 15 < 16
  {
    assert a & 3 == a % 4;
    assert a & 15 == a % 16;
  }

  lemma {:induction false} HighBits(a: byte)
    ensures (a >> 4) as int == a as int / 16 && a >> 4 < 16
    ensures (a >> 6) as int == a as int / 64 && a >> 6 < 4
  {
    assert a >> 4 == a / 16;
    assert a >> 6 == a / 64;
  }

  lemma {:induction false} JoinBits(x: byte, y: byte)
    ensures x < 4 && y < 16 ==> ((x << 4) | y) as int == x as int * 16 + y as int
    ensures x < 16 && y < 4 ==> ((x << 2) | y) as int == x as int * 4 + y as int
  {
  }

  lemma {:induction false} SecondOfBytes(a: byte, b: byte)
    ensures Second(a, b) as int == a as int % 4 * 16 + b as int / 16
  {
    LowBits(a);
    HighBits(b);
    JoinBits(a & 3, b >> 4);
  }

  lemma {:induction false} ThirdOfBytes(b: byte, c: byte)
    ensures Third(b, c) as int == b as int % 16 * 4 + c as int / 64
  {
    LowBits(b);
    HighBits(c);
    JoinBits(b & 15, c >> 6);
  }

  lemma {:induction false} FourthOfByte(c: byte)
    ensures Fourth(c) as int == c as int % 64
  {
    assert c & 63 == c % 64;
  }

  lemma {:induction false} BaseSixtyFour(a: int, b: int, c: int, n: int, w: int, x: int, y: int, z: int)
    requires 0 <= a < 256 && 0 <= b < 256 && 0 <= c < 256 && n == a * 0x1_0000 + b * 0x100 + c
    requires w == a / 4 && x == a % 4 * 16 + b / 16 && y == b % 16 * 4 + c / 64 && z == c % 64
    ensures w == n / 0x4_0000 && x == n / 0x1000 % 64 && y == n / 64 % 64 && z == n % 64
  {
    FourDigits(w, x, y, z);
    assert n == ((w * 64 + x) * 64 + y) * 64 + z;
  }

  lemma {:induction false} FourDigits(w: int, x: int, y: int, z: int)
    requires 0 <= w < 64 && 0 <= x < 64 && 0 <= y < 64 && 0 <= z < 64
    ensures var n := ((w * 64 + x) * 64 + y) * 64 + z;
            && n % 64 == z && n / 64 == (w * 64 + x) * 64 + y && n / 64 % 64 == y
            && n / 0x1000 == w * 64 + x && n / 0x1000 % 64 == x && n / 0x4_0000 == w
  {
  }

  function Encode(data: bytes): string {
    if data == [] then ""
    else if |data| == 1 then
      [EncodeSextet(First(data[0])), EncodeSextet(Second(data[0], 0)), '=', '=']
    else if |data| == 2 then
      [EncodeSextet(First(data[0])), EncodeSextet(Second(data[0], data[1])), EncodeSextet(Third(data[1], 0)), '=']
    else
      [EncodeSextet(First(data[0])), EncodeSextet(Second(data[0], data[1])),
       EncodeSextet(Third(data[1], data[2])), EncodeSextet(Fourth(data[2]))] + Encode(data[3..])
  }

  /** The value of a byte, or zero behind the end. */
  function ByteAt(data: bytes, i: nat): (v: int)
    ensures 0 <= v < 256
  {
    if i < |data| then data[i] as int else 0
  }

  /** Three bytes as one number, from byte 3*g on. */
  function GroupNumber(data: bytes, g: nat): int {
    ByteAt(data, 3 * g) * 0x1_0000 + ByteAt(data, 3 * g + 1) * 0x100 + ByteAt(data, 3 * g + 2)
  }

  /** The digit at place k of the group, counted from the left, in base 64. */
  function GroupDigit(data: bytes, g: nat, k: nat): int
    requires k < 4
  {
    var n := GroupNumber(data, g);
    if k == 0 then n / 0x4_0000 else if k == 1 then n / 0x1000 % 64 else if k == 2 then n / 64 % 64 else n % 64
  }

  lemma {:induction false} LaterDigit(data: bytes, g: nat, k: nat)
    requires 3 * g <= |data| && k < 4
    ensures GroupDigit(data[3 * g..], 0, k) == GroupDigit(data, g, k)
  {
    LaterByte(data, 3 * g, 0);
    LaterByte(data, 3 * g, 1);
    LaterByte(data, 3 * g, 2);
  }

  lemma {:induction false} LaterByte(data: bytes, from: nat, i: nat)
    requires from <= |data|
    ensures ByteAt(data[from..], i) == ByteAt(data, from + i)
  {
  }

  /**
   The text character by character: four for every three bytes begun, the symbols for the digits of those
   bytes as one number in base 64, and `=` where only bytes behind the end would count.
   */
  lemma {:induction false} EncodedByIndex(data: bytes, g: nat, k: nat)
    requires 3 * g < |data| && k < 4
    ensures |Encode(data)| == (|data| + 2) / 3 * 4
    ensures 4 * g + k < |Encode(data)|
    ensures if 3 * g + k > |data| then Encode(data)[4 * g + k] == '='
            else IsSymbol(GroupDigit(data, g, k), Encode(data)[4 * g + k])
  {
    EncodedLength(data);
    EncodedLater(data, g);
    FirstGroupByIndex(data[3 * g..], k);
    LaterDigit(data, g, k);
    assert Encode(data)[4 * g + k] == Encode(data)[4 * g..][k];
  }

  lemma {:induction false} EncodedLength(data: bytes)
    ensures |Encode(data)| == (|data| + 2) / 3 * 4
  {
    if |data| > 2 { EncodedLength(data[3..]); }
  }

  /** From the fourth character of a group on, the text is that of the later bytes. */
  lemma {:induction false} EncodedLater(data: bytes, g: nat)
    requires 3 * g < |data|
    ensures 4 * g <= |Encode(data)| && Encode(data)[4 * g..] == Encode(data[3 * g..])
    decreases g
  {
    if g > 0 {
      EncodedLater(data[3..], g - 1);
      EncodeQuad(data);
      assert data[3..][3 * (g - 1)..] == data[3 * g..];
      DropMore(Encode(data), 4, 4 * (g - 1));
      assert Encode(data)[4..] == Encode(data[3..]);
    } else {
      assert data[0..] == data && Encode(data)[0..] == Encode(data);
    }
  }

  lemma {:induction false} DropMore<T>(s: seq<T>, m: nat, n: nat)
    requires m <= |s| && n <= |s| - m
    ensures s[m..][n..] == s[m + n..]
  {
  }

  /** The characters of the first group. */
  lemma {:induction false} FirstFour(data: bytes)
    requires data != []
    ensures var a, s := data[0], Encode(data);
            var b, c := if |data| > 1 then data[1] else 0, if |data| > 2 then data[2] else 0;
            && |s| >= 4 && s[0] == EncodeSextet(First(a)) && s[1] == EncodeSextet(Second(a, b))
            && s[2] == (if |data| > 1 then EncodeSextet(Third(b, c)) else '=')
            && s[3] == (if |data| > 2 then EncodeSextet(Fourth(c)) else '=')
  {
  }

  lemma {:induction false} FirstGroupByIndex(data: bytes, k: nat)
    requires data != [] && k < 4
    ensures k < |Encode(data)|
    ensures if k > |data| then Encode(data)[k] == '=' else IsSymbol(GroupDigit(data, 0, k), Encode(data)[k])
  {
    var a := data[0];
    var b: byte := if |data| > 1 then data[1] else 0;
    var c: byte := if |data| > 2 then data[2] else 0;
    FirstFour(data);
    SextetsOfNumber(a, b, c, GroupNumber(data, 0));
    EncodeSextetIs(First(a), EncodeSextet(First(a)));
    EncodeSextetIs(Second(a, b), EncodeSextet(Second(a, b)));
    EncodeSextetIs(Third(b, c), EncodeSextet(Third(b, c)));
    EncodeSextetIs(Fourth(c), EncodeSextet(Fourth(c)));
  }

  /** The last group may carry padding. */
  function DecodeLast(s: string): Option<bytes>
    requires |s| == 4
  {
    match (DecodeSextet(s[0]), DecodeSextet(s[1]))
    case (Some(x), Some(y)) =>
      if s[2] == '=' then (if s[3] == '=' then Some([Byte1(x, y)]) else None)
      else (
        match DecodeSextet(s[2])
        case None => None
        case Some(z) =>
          if s[3] == '=' then Some([Byte1(x, y), Byte2(y, z)])
          else (
            match DecodeSextet(s[3])
            case None => None
            case Some(w) => Some([Byte1(x, y), Byte2(y, z), Byte3(z, w)])))
    case _ => None
  }

  function DecodeGroups(s: string): Option<bytes> {
    if s == "" then Some([])
    else if |s| < 4 then None
    else if |s| == 4 then DecodeLast(s)
    else if s[2] == '=' || s[3] == '=' then None
    else
      match (DecodeLast(s[..4]), DecodeGroups(s[4..]))
      case (Some(group), Some(rest)) => Some(group + rest)
      case _ => None
  }

  /** The decoder skips line breaks anywhere. */
  function WithoutLineBreaks(s: string): string {
    if s == "" then ""
    else if s[0] == '\r' || s[0] == '\n' then WithoutLineBreaks(s[1..])
    else [s[0]] + WithoutLineBreaks(s[1..])
  }

  /** Exactly the carriage returns and line feeds are gone; the rest stays in its order. */
  lemma {:induction false} LineBreaksMean(a: string, c: char, b: string)
    ensures WithoutLineBreaks("") == ""
    ensures WithoutLineBreaks(a + [c] + b) ==
              WithoutLineBreaks(a) + (if c == '\r' || c == '\n' then "" else [c]) + WithoutLineBreaks(b)
  {
    var s := a + [c] + b;
    if a == "" {
      assert s == [c] + b && s[1..] == b;
    } else {
      LineBreaksMean(a[1..], c, b);
      assert s[1..] == a[1..] + [c] + b;
    }
  }

  function Decode(s: string): Option<bytes> {
    DecodeGroups(WithoutLineBreaks(s))
  }

  lemma {:induction false} NoLineBreaks(data: bytes)
    ensures WithoutLineBreaks(Encode(data)) == Encode(data)
  {
    var s := Encode(data);
    if data != [] {
      FourKept(s);
      if |data| > 2 {
        NoLineBreaks(data[3..]);
        assert s[4..] == Encode(data[3..]);
      }
    }
  }

  lemma {:induction false} FourKept(s: string)
    requires |s| >= 4 && forall i :: 0 <= i < 4 ==> s[i] != '\r' && s[i] != '\n'
    ensures WithoutLineBreaks(s) == s[..4] + WithoutLineBreaks(s[4..])
  {
    assert WithoutLineBreaks(s) == [s[0]] + WithoutLineBreaks(s[1..]);
    assert WithoutLineBreaks(s[1..]) == [s[1]] + WithoutLineBreaks(s[2..]) by { assert s[1..][1..] == s[2..]; }
    assert WithoutLineBreaks(s[2..]) == [s[2]] + WithoutLineBreaks(s[3..]) by { assert s[2..][1..] == s[3..]; }
    assert WithoutLineBreaks(s[3..]) == [s[3]] + WithoutLineBreaks(s[4..]) by { assert s[3..][1..] == s[4..]; }
  }

  function Quad(a: byte, b: byte, c: byte): (q: string)
    ensures |q| == 4 && q[2] != '=' && q[3] != '='
  {
    [EncodeSextet(First(a)), EncodeSextet(Second(a, b)), EncodeSextet(Third(b, c)), EncodeSextet(Fourth(c))]
  }

  /** One group decodes to the one, two or three bytes it was made from. */
  lemma {:induction false} LastRoundTrip(a: byte, b: byte, c: byte)
    ensures DecodeLast(Quad(a, b, c)) == Some([a, b, c])
    ensures DecodeLast(Encode([a, b])) == Some([a, b])
    ensures DecodeLast(Encode([a])) == Some([a])
  {
    GroupRoundTrip(a, b, c);
    GroupRoundTrip(a, b, 0);
    GroupRoundTrip(a, 0, 0);
    SextetRoundTrip(First(a));
    SextetRoundTrip(Second(a, b));
    SextetRoundTrip(Second(a, 0));
    SextetRoundTrip(Third(b, c));
    SextetRoundTrip(Third(b, 0));
    SextetRoundTrip(Fourth(c));
  }

  lemma {:induction false} ShortRoundTrip(data: bytes)
    requires 1 <= |data| <= 2
    ensures DecodeGroups(Encode(data)) == Some(data)
  {
    LastRoundTrip(data[0], if |data| == 2 then data[1] else 0, 0);
    assert data == if |data| == 1 then [data[0]] else [data[0], data[1]];
  }

  lemma {:induction false} EncodeQuad(data: bytes)
    requires |data| > 2
    ensures Encode(data) == Quad(data[0], data[1], data[2]) + Encode(data[3..])
  {
  }

  lemma {:induction false} GroupsRoundTrip(data: bytes)
    ensures DecodeGroups(Encode(data)) == Some(data)
  {
    if data != [] {
      if |data| <= 2 {
        ShortRoundTrip(data);
      } else {
        GroupsRoundTrip(data[3..]);
        LongRoundTrip(data, Encode(data[3..]));
      }
    }
  }

  lemma {:induction false} LongRoundTrip(data: bytes, tail: string)
    requires |data| > 2 && tail == Encode(data[3..]) && DecodeGroups(tail) == Some(data[3..])
    ensures DecodeGroups(Encode(data)) == Some(data)
  {
    EncodeQuad(data);
    LastRoundTrip(data[0], data[1], data[2]);
    PrependQuad(Quad(data[0], data[1], data[2]), tail);
    assert data == [data[0], data[1], data[2]] + data[3..];
  }

  lemma {:induction false} PrependQuad(quad: string, tail: string)
    requires |quad| == 4 && quad[2] != '=' && quad[3] != '='
    requires DecodeLast(quad).Some? && DecodeGroups(tail).Some?
    ensures DecodeGroups(quad + tail) == Some(DecodeLast(quad).value + DecodeGroups(tail).value)
  {
    var s := quad + tail;
    if tail == "" {
      assert s == quad && DecodeLast(quad).value + [] == DecodeLast(quad).value;
    } else {
      assert s[..4] == quad && s[4..] == tail;
    }
  }

  /** Whatever was encoded decodes to the same bytes. */
  lemma {:induction false} RoundTrip(data: bytes)
    ensures Decode(Encode(data)) == Some(data)
  {
    NoLineBreaks(data);
    GroupsRoundTrip(data);
  }

  /** The decoder knows this character. */
  predicate Known(c: char) {
    DecodeSextet(c).Some?
  }

  /** A text in the format of section 4 of RFC 4648: whole groups of known characters, the last one perhaps padded. */
  ghost predicate WellFormed(s: string) {
    && |s| % 4 == 0
    && (s != "" ==>
          && (forall i :: 0 <= i < |s| - 2 ==> Known(s[i]))
          && (Known(s[|s| - 2]) || s[|s| - 2] == '=')
          && (Known(s[|s| - 1]) || s[|s| - 1] == '=')
          && (s[|s| - 2] == '=' ==> s[|s| - 1] == '='))
  }

  /** Exactly those texts decode, once line breaks are gone. */
  lemma {:induction false} DecodesIff(s: string)
    ensures Decode(s).Some? <==> WellFormed(WithoutLineBreaks(s))
  {
    GroupsDecodeIff(WithoutLineBreaks(s));
  }

  lemma {:induction false} GroupsDecodeIff(s: string)
    ensures DecodeGroups(s).Some? <==> WellFormed(s)
  {
    if |s| > 4 {
      GroupsDecodeIff(s[4..]);
      OneGroupDecodes(s);
      OneGroupFits(s);
    } else if |s| == 4 {
      LastGroupDecodes(s);
    }
  }

  lemma {:induction false} LastGroupDecodes(s: string)
    requires |s| == 4
    ensures DecodeLast(s).Some? <==> WellFormed(s)
  {
    PaddingUnknown();
  }

  lemma {:induction false} PaddingUnknown()
    ensures !Known('=')
  {
  }

  lemma {:induction false} OneGroupDecodes(s: string)
    requires |s| > 4
    ensures DecodeGroups(s).Some? <==>
              Known(s[0]) && Known(s[1]) && Known(s[2]) && Known(s[3]) && DecodeGroups(s[4..]).Some?
  {
    PaddingUnknown();
    if s[2] != '=' && s[3] != '=' { QuadDecodes(s[..4]); }
  }

  lemma {:induction false} QuadDecodes(q: string)
    requires |q| == 4 && q[2] != '=' && q[3] != '='
    ensures DecodeLast(q).Some? <==> Known(q[0]) && Known(q[1]) && Known(q[2]) && Known(q[3])
  {
  }

  lemma {:induction false} OneGroupFits(s: string)
    requires |s| > 4
    ensures WellFormed(s) <==>
        Known(s[0]) && Known(s[1]) && Known(s[2]) && Known(s[3]) && WellFormed(s[4..]) && s[4..] != ""
  {
    var tail := s[4..];
    assert tail[|tail| - 1] == s[|s| - 1];
    assert forall i :: 0 <= i < |tail| ==> tail[i] == s[i + 4];
    if |tail| % 4 == 0 {
      assert tail[|tail| - 2] == s[|s| - 2];
      if forall i :: 0 <= i < |tail| - 2 ==> Known(tail[i]) {
        forall i | 4 <= i < |s| - 2 ensures Known(s[i]) { assert Known(tail[i - 4]); }
      }
    }
  }

  // ---- the URL alphabet without padding (section 5 of RFC 4648), as bytes ----

  function UrlSextet(x: byte): (c: byte)
    requires x < 64
  {
    if x < 26 then 65 + x
    else if x < 52 then 71 + x
    else if x < 62 then x - 4
    else if x == 62 then 45
    else 95
  }

  /** `c` is the symbol for `v` in the alphabet of section 5 of RFC 4648. */
  predicate IsUrlSymbol(v: int, c: int) {
    || (0 <= v < 26 && c == 'A' as int + v)
    || (26 <= v < 52 && c == 'a' as int + (v - 26))
    || (52 <= v < 62 && c == '0' as int + (v - 52))
    || (v == 62 && c == '-' as int)
    || (v == 63 && c == '_' as int)
  }

  lemma {:induction false} SextetRanges(x: byte)
    requires x < 64
    ensures 0 <= x as int < 64 && (x as int < 26 <==> x < 26) && (x as int < 52 <==> x < 52)
    ensures (x as int < 62 <==> x < 62) && (x as int == 62 <==> x == 62)
  {
  }

  lemma {:induction false} UpperSymbol(x: byte)
    requires x < 26
    ensures (65 + x) as int == 65 + x as int
  {
  }

  lemma {:induction false} LowerSymbol(x: byte)
    requires 26 <= x < 52
    ensures (71 + x) as int == 71 + x as int
  {
  }

  lemma {:induction false} DigitSymbol(x: byte)
    requires 52 <= x < 62
    ensures (x - 4) as int == x as int - 4
  {
  }

  lemma {:induction false} UrlSextetIs(x: byte)
    requires x < 64
    ensures IsUrlSymbol(x as int, UrlSextet(x) as int)
  {
    SextetRanges(x);
    if x < 26 {
      UpperSymbol(x);
    } else if x < 52 {
      LowerSymbol(x);
    } else if x < 62 {
      DigitSymbol(x);
    }
  }

  lemma {:induction false} UrlSextetInjective(x: byte, y: byte)
    requires x < 64 && y < 64 && UrlSextet(x) == UrlSextet(y)
    ensures x == y
  {
  }

  function RawURLEncode(data: bytes): (s: bytes)
    ensures |s| == |data| / 3 * 4 + (if |data| % 3 == 0 then 0 else |data| % 3 + 1)
  {
    if data == [] then []
    else if |data| == 1 then [UrlSextet(First(data[0])), UrlSextet(Second(data[0], 0))]
    else if |data| == 2 then
      [UrlSextet(First(data[0])), UrlSextet(Second(data[0], data[1])), UrlSextet(Third(data[1], 0))]
    else
      [UrlSextet(First(data[0])), UrlSextet(Second(data[0], data[1])),
       UrlSextet(Third(data[1], data[2])), UrlSextet(Fourth(data[2]))] + RawURLEncode(data[3..])
  }

  /** The first group of an encoding determines the bytes it was made from. */
  lemma {:induction false} FirstGroup(a: bytes, b: bytes)
    requires |a| == |b| >= 1 && RawURLEncode(a) == RawURLEncode(b)
    ensures a[0] == b[0] && (|a| > 1 ==> a[1] == b[1]) && (|a| > 2 ==> a[2] == b[2])
  {
    var s, t := RawURLEncode(a), RawURLEncode(b);
    var a1, a2 := if |a| > 1 then a[1] else 0, if |a| > 2 then a[2] else 0;
    var b1, b2 := if |b| > 1 then b[1] else 0, if |b| > 2 then b[2] else 0;
    assert s[0] == t[0] && s[1] == t[1];
    UrlSextetInjective(First(a[0]), First(b[0]));
    UrlSextetInjective(Second(a[0], a1), Second(b[0], b1));
    if |a| > 1 {
      assert s[2] == t[2];
      UrlSextetInjective(Third(a1, a2), Third(b1, b2));
    }
    if |a| > 2 {
      assert s[3] == t[3];
      UrlSextetInjective(Fourth(a2), Fourth(b2));
    }
    GroupRoundTrip(a[0], a1, a2);
    GroupRoundTrip(b[0], b1, b2);
  }

  /** Different byte strings print differently. */
  lemma {:induction false} RawURLInjective(a: bytes, b: bytes)
    requires RawURLEncode(a) == RawURLEncode(b)
    ensures a == b
  {
    assert |a| == |b|;
    if a != [] {
      FirstGroup(a, b);
      if |a| <= 2 {
        assert forall i :: 0 <= i < |a| ==> a[i] == b[i];
      } else {
        assert RawURLEncode(a)[4..] == RawURLEncode(a[3..]) && RawURLEncode(b)[4..] == RawURLEncode(b[3..]);
        RawURLInjective(a[3..], b[3..]);
        assert a == a[..3] + a[3..] && b == b[..3] + b[3..];
      }
    }
  }

  /** The URL text character by character: the same digits in its own alphabet, and nothing behind them. */
  lemma {:induction false} RawURLByIndex(data: bytes, g: nat, k: nat)
    requires 3 * g < |data| && k < 4 && 3 * g + k <= |data|
    ensures 4 * g + k < |RawURLEncode(data)|
    ensures IsUrlSymbol(GroupDigit(data, g, k), RawURLEncode(data)[4 * g + k] as int)
  {
    RawURLLater(data, g);
    FirstUrlGroupByIndex(data[3 * g..], k);
    LaterDigit(data, g, k);
    assert RawURLEncode(data)[4 * g + k] == RawURLEncode(data)[4 * g..][k];
  }

  lemma {:induction false} RawURLLater(data: bytes, g: nat)
    requires 3 * g < |data|
    ensures 4 * g <= |RawURLEncode(data)| && RawURLEncode(data)[4 * g..] == RawURLEncode(data[3 * g..])
    decreases g
  {
    if g > 0 {
      RawURLLater(data[3..], g - 1);
      assert data[3..][3 * (g - 1)..] == data[3 * g..];
      DropMore(RawURLEncode(data), 4, 4 * (g - 1));
      assert RawURLEncode(data)[4..] == RawURLEncode(data[3..]);
    } else {
      assert data[0..] == data && RawURLEncode(data)[0..] == RawURLEncode(data);
    }
  }

  lemma {:induction false} FirstUrlFour(data: bytes)
    requires data != []
    ensures var a, s := data[0], RawURLEncode(data);
            var b, c := if |data| > 1 then data[1] else 0, if |data| > 2 then data[2] else 0;
            && |s| >= 2 && s[0] == UrlSextet(First(a)) && s[1] == UrlSextet(Second(a, b))
            && (|data| > 1 ==> |s| >= 3 && s[2] == UrlSextet(Third(b, c)))
            && (|data| > 2 ==> |s| >= 4 && s[3] == UrlSextet(Fourth(c)))
  {
  }

  lemma {:induction false} FirstUrlGroupByIndex(data: bytes, k: nat)
    requires data != [] && k < 4 && k <= |data|
    ensures k < |RawURLEncode(data)|
    ensures IsUrlSymbol(GroupDigit(data, 0, k), RawURLEncode(data)[k] as int)
  {
    var a := data[0];
    var b: byte := if |data| > 1 then data[1] else 0;
    var c: byte := if |data| > 2 then data[2] else 0;
    FirstUrlFour(data);
    SextetsOfNumber(a, b, c, GroupNumber(data, 0));
    UrlSextetIs(First(a));
    UrlSextetIs(Second(a, b));
    UrlSextetIs(Third(b, c));
    UrlSextetIs(Fourth(c));
  }
}
