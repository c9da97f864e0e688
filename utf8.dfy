/** UTF-8, as the URL and percent-encoding algorithms use it: encoding a code point to
    bytes, and the UTF-8 decoder of the WHATWG Encoding Standard, which replaces each
    maximal ill-formed subsequence with U+FFFD. */
module Utf8 {
  type Byte = b: int | 0 <= b < 256

  /** The bytes of one code point. `char` holds Unicode scalar values only, so there are
      no surrogates to encode. */
  function EncodeChar(c: char): (r: seq<Byte>)
    ensures 1 <= |r| <= 4
    ensures |r| == 1 <==> (c as int) < 0x80
  {
    var n := c as int;
    if n < 0x80 then [n]
    else if n < 0x800 then [0xC0 + n / 64, 0x80 + n % 64]
    else if n < 0x10000 then [0xE0 + n / 4096, 0x80 + (n / 64) % 64, 0x80 + n % 64]
    else [0xF0 + n / 262144, 0x80 + (n / 4096) % 64, 0x80 + (n / 64) % 64, 0x80 + n % 64]
  }

  function Encode(s: string): (r: seq<Byte>)
    ensures |r| >= |s|
  {
    if s == [] then [] else EncodeChar(s[0]) + Encode(s[1..])
  }

  lemma EncodeAppend(a: string, b: string)
    ensures Encode(a + b) == Encode(a) + Encode(b)
  {
    if a != [] {
      assert (a + b)[1..] == a[1..] + b;
      EncodeAppend(a[1..], b);
    } else {
      assert a + b == b;
    }
  }

  /** An ASCII byte occurs in the encoding of a code point only as the encoding of that
      ASCII code point itself. */
  lemma EncodeCharAsciiByte(c: char, b: Byte)
    requires b < 0x80
    ensures b in EncodeChar(c) <==> c as int == b
  {
  }

  /** What the decoder makes of the bytes at the start of its input: a code point and the
      number of bytes it took, or an error and the number of bytes it consumed. */
  datatype Step = Scalar(c: char, len: nat) | Invalid(len: nat)

  predicate InRange(b: Byte, lo: int, hi: int) { lo <= b <= hi }

  /** How many continuation bytes a lead byte calls for, and the range its first
      continuation byte must fall in; zero bytes for a byte that cannot start a sequence. */
  function LeadInfo(b: Byte): (r: (nat, int, int))
  {
    if 0xC2 <= b <= 0xDF then (1, 0x80, 0xBF)
    else if b == 0xE0 then (2, 0xA0, 0xBF)
    else if b == 0xED then (2, 0x80, 0x9F)
    else if 0xE1 <= b <= 0xEF then (2, 0x80, 0xBF)
    else if b == 0xF0 then (3, 0x90, 0xBF)
    else if 0xF1 <= b <= 0xF3 then (3, 0x80, 0xBF)
    else if b == 0xF4 then (3, 0x80, 0x8F)
    else (0, 0, 0)
  }

  predicate IsScalar(n: int) { 0 <= n < 0xD800 || 0xE000 <= n < 0x110000 }

  /** The decoder's step on the first bytes of `bs`. */
  function DecodeStep(bs: seq<Byte>): (r: Step)
    requires |bs| > 0
    ensures 1 <= r.len <= |bs| && r.len <= 4
  {
    var b0 := bs[0];
    if b0 < 0x80 then Scalar(b0 as char, 1)
    else
      var (need, lo, hi) := LeadInfo(b0);
      if need == 0 then Invalid(1)
      else if |bs| < 2 || !InRange(bs[1], lo, hi) then Invalid(1)
      else if need == 1 then
        Scalar(CodePoint2(b0, bs[1]) as char, 2)
      else if |bs| < 3 || !InRange(bs[2], 0x80, 0xBF) then Invalid(2)
      else if need == 2 then
        Scalar(CodePoint3(b0, bs[1], bs[2]) as char, 3)
      else if |bs| < 4 || !InRange(bs[3], 0x80, 0xBF) then Invalid(3)
      else
        Scalar(CodePoint4(b0, bs[1], bs[2], bs[3]) as char, 4)
  }

  function CodePoint2(b0: Byte, b1: Byte): (n: int)
    requires 0xC2 <= b0 <= 0xDF && 0x80 <= b1 <= 0xBF
    ensures 0x80 <= n < 0x800 && IsScalar(n)
  {
    (b0 - 0xC0) * 64 + (b1 - 0x80)
  }

  function CodePoint3(b0: Byte, b1: Byte, b2: Byte): (n: int)
    requires 0xE0 <= b0 <= 0xEF && 0x80 <= b1 <= 0xBF && 0x80 <= b2 <= 0xBF
    requires b0 == 0xE0 ==> b1 >= 0xA0
    requires b0 == 0xED ==> b1 <= 0x9F
    ensures 0x800 <= n < 0x10000 && IsScalar(n)
  {
    (b0 - 0xE0) * 4096 + (b1 - 0x80) * 64 + (b2 - 0x80)
  }

  function CodePoint4(b0: Byte, b1: Byte, b2: Byte, b3: Byte): (n: int)
    requires 0xF0 <= b0 <= 0xF4 && 0x80 <= b1 <= 0xBF && 0x80 <= b2 <= 0xBF && 0x80 <= b3 <= 0xBF
    requires b0 == 0xF0 ==> b1 >= 0x90
    requires b0 == 0xF4 ==> b1 <= 0x8F
    ensures 0x10000 <= n < 0x110000 && IsScalar(n)
  {
    (b0 - 0xF0) * 262144 + (b1 - 0x80) * 4096 + (b2 - 0x80) * 64 + (b3 - 0x80)
  }

  /** "UTF-8 decode without BOM": each ill-formed subsequence becomes U+FFFD. */
  function DecodeLossy(bs: seq<Byte>): string
    decreases |bs|
  {
    if bs == [] then ""
    else
      match DecodeStep(bs)
      case Scalar(c, n) => [c] + DecodeLossy(bs[n..])
      case Invalid(n) => "�" + DecodeLossy(bs[n..])
  }

  /** The decoder reads back the code point `EncodeChar` wrote, whatever follows it. */
  lemma DecodeStepEncodeChar(c: char, rest: seq<Byte>)
    ensures DecodeStep(EncodeChar(c) + rest) == Scalar(c, |EncodeChar(c)|)
  {
    var n := c as int;
    if n < 0x80 {
    } else if n < 0x800 {
      Split2(n);
    } else if n < 0x10000 {
      Split3(n);
    } else {
      Split4(n);
    }
  }

  lemma Split2(n: int)
    requires 0x80 <= n < 0x800
    ensures 0xC2 <= 0xC0 + n / 64 <= 0xDF && 0x80 <= 0x80 + n % 64 <= 0xBF
    ensures CodePoint2(0xC0 + n / 64, 0x80 + n % 64) == n
  {
  }

  lemma Split3(n: int)
    requires 0x800 <= n < 0x10000 && IsScalar(n)
    ensures var b0, b1, b2 := 0xE0 + n / 4096, 0x80 + (n / 64) % 64, 0x80 + n % 64;
      0xE0 <= b0 <= 0xEF && 0x80 <= b1 <= 0xBF && 0x80 <= b2 <= 0xBF &&
      (b0 == 0xE0 ==> b1 >= 0xA0) && (b0 == 0xED ==> b1 <= 0x9F) &&
      CodePoint3(b0, b1, b2) == n
  {
    var hi, mid, lo := n / 4096, (n / 64) % 64, n % 64;
    assert n / 64 == hi * 64 + mid;
    assert n == hi * 4096 + mid * 64 + lo;
  }

  lemma Split4(n: int)
    requires 0x10000 <= n < 0x110000
    ensures var b0, b1, b2, b3 := 0xF0 + n / 262144, 0x80 + (n / 4096) % 64, 0x80 + (n / 64) % 64, 0x80 + n % 64;
      0xF0 <= b0 <= 0xF4 && 0x80 <= b1 <= 0xBF && 0x80 <= b2 <= 0xBF && 0x80 <= b3 <= 0xBF &&
      (b0 == 0xF0 ==> b1 >= 0x90) && (b0 == 0xF4 ==> b1 <= 0x8F) &&
      CodePoint4(b0, b1, b2, b3) == n
  {
    var top, b1, b2, b3 := n / 262144, (n / 4096) % 64, (n / 64) % 64, n % 64;
    assert n / 4096 == top * 64 + b1;
    assert n / 64 == (n / 4096) * 64 + b2;
    assert n == top * 262144 + b1 * 4096 + b2 * 64 + b3;
  }

  /** Decoding what was encoded gives the string back. */
  lemma {:induction false} DecodeLossyEncode(s: string)
    ensures DecodeLossy(Encode(s)) == s
  {
    if s != [] {
      var e := EncodeChar(s[0]);
      DecodeStepEncodeChar(s[0], Encode(s[1..]));
      assert (e + Encode(s[1..]))[|e|..] == Encode(s[1..]);
      DecodeLossyEncode(s[1..]);
      assert s == [s[0]] + s[1..];
    }
  }
}
