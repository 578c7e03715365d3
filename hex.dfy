/**
 * The session-token encoder of backend/signup.go: `hexEncode` writes every byte
 * as two lower-case hexadecimal digits, high nibble first, and
 * `generateRandomToken` encodes 32 bytes read from the random source.
 */
module Hex {
  import opened Base

  const HexChars: string := "0123456789abcdef"

  /** The alphabet of the encoder's output. */
  predicate IsHexDigit(c: char) {
    '0' <= c <= '9' || 'a' <= c <= 'f'
  }

  predicate IsLowerHex(s: string) {
    forall i :: 0 <= i < |s| ==> IsHexDigit(s[i])
  }

  /** The digit for a nibble: `hexChars[n]`. */
  function Digit(n: int): (c: char)
    requires 0 <= n < 16
    ensures IsHexDigit(c) && c == HexChars[n]
  {
    HexChars[n]
  }

  /** The value of a hexadecimal digit, the inverse of `Digit`. */
  function DigitValue(c: char): (r: Option<int>)
    ensures r.Some? <==> IsHexDigit(c)
    ensures r.Some? ==> 0 <= r.value < 16 && Digit(r.value) == c
  {
    if '0' <= c <= '9' then Some(c as int - '0' as int)
    else if 'a' <= c <= 'f' then Some(c as int - 'a' as int + 10)
    else None
  }

  /**
   * Specification of `hexEncode`: the two digits of `b[0]` (`v>>4`, then `v&0x0f`,
   * which for a byte are `v / 16` and `v % 16`) followed by the encoding of the rest.
   */
  function HexOf(b: seq<Byte>): (s: string)
    ensures |s| == 2 * |b|
    ensures IsLowerHex(s)
  {
    if b == [] then [] else [Digit(b[0] / 16), Digit(b[0] % 16)] + HexOf(b[1..])
  }

  /** Position by position: digit 2i is the high nibble of b[i], digit 2i+1 the low nibble. */
  lemma {:induction false} HexOfAt(b: seq<Byte>, i: int)
    requires 0 <= i < |b|
    ensures HexOf(b)[2 * i] == Digit(b[i] / 16)
    ensures HexOf(b)[2 * i + 1] == Digit(b[i] % 16)
  {
    if i > 0 {
      HexOfAt(b[1..], i - 1);
      assert HexOf(b) == [Digit(b[0] / 16), Digit(b[0] % 16)] + HexOf(b[1..]);
    }
  }

  /** Hexadecimal decoding: two digits per byte; odd lengths and foreign characters fail. */
  function HexDecode(s: string): (r: Option<seq<Byte>>)
    ensures r.Some? ==> 2 * |r.value| == |s|
    decreases |s|
  {
    if s == [] then Some([])
    else if |s| == 1 then None
    else
      match (DigitValue(s[0]), DigitValue(s[1]), HexDecode(s[2..]))
      case (Some(hi), Some(lo), Some(rest)) => Some([hi * 16 + lo] + rest)
      case _ => None
  }

  lemma DigitRoundTrip(n: int)
    requires 0 <= n < 16
    ensures DigitValue(Digit(n)) == Some(n)
  {
    assert HexChars == ['0','1','2','3','4','5','6','7','8','9','a','b','c','d','e','f'];
  }

  lemma ByteNibbles(v: Byte)
    ensures 0 <= v / 16 < 16 && 0 <= v % 16 < 16 && v / 16 * 16 + v % 16 == v
  {
  }

  /** Decoding the encoder's output gives the bytes back. */
  lemma {:induction false} HexRoundTrip(b: seq<Byte>)
    ensures HexDecode(HexOf(b)) == Some(b)
  {
    if b != [] {
      var v := b[0];
      var s := HexOf(b);
      assert s == [Digit(v / 16), Digit(v % 16)] + HexOf(b[1..]);
      assert s[2..] == HexOf(b[1..]);
      HexRoundTrip(b[1..]);
      ByteNibbles(v);
      DigitRoundTrip(v / 16);
      DigitRoundTrip(v % 16);
      assert [v / 16 * 16 + v % 16] + b[1..] == b;
    }
  }

  /** Hence two different byte strings never give the same token. */
  lemma HexOfInjective(a: seq<Byte>, b: seq<Byte>)
    ensures HexOf(a) == HexOf(b) <==> a == b
  {
    if HexOf(a) == HexOf(b) {
      HexRoundTrip(a);
      HexRoundTrip(b);
    }
  }

  /** `hexEncode`: allocate twice the input length and fill it two digits at a time. */
  method HexEncode(b: seq<Byte>) returns (s: string)
    ensures s == HexOf(b)
  {
    var out := new char[2 * |b|];
    for i := 0 to |b|
      invariant forall k :: 0 <= k < i ==> out[2 * k] == Digit(b[k] / 16) && out[2 * k + 1] == Digit(b[k] % 16)
    {
      out[2 * i] := HexChars[b[i] / 16];
      out[2 * i + 1] := HexChars[b[i] % 16];
    }
    s := out[..];
    forall j | 0 <= j < |s|
      ensures s[j] == HexOf(b)[j]
    {
      var k := j / 2;
      HexOfAt(b, k);
      assert j == 2 * k || j == 2 * k + 1;
    }
  }

  /** What `rand.Read` fills the 32-byte buffer with when it succeeds. */
  type Entropy = s: seq<Byte> | |s| == 32 witness seq(32, _ => 0)

  const TokenLength := 64

  /**
   * `generateRandomToken`: `random` is the outcome of `rand.Read` on a 32-byte
   * buffer (`None` when it returns an error). The empty string signals failure;
   * otherwise the token is the 64-digit lower-case encoding of the bytes read.
   */
  method GenerateRandomToken(random: Option<Entropy>) returns (token: string)
    ensures token == "" <==> random.None?
    ensures random.Some? ==> token == HexOf(random.value)
    ensures random.Some? ==> |token| == TokenLength && IsLowerHex(token)
  {
    if random.None? {
      return "";
    }
    token := HexEncode(random.value);
  }
}
