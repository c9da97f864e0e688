/** `encodeURIComponent` and `decodeURIComponent` (section 19.2.6 of ECMA-262), and the
    percent-encoding of bytes that they and the URL algorithms share. */
module UriCodec {
  import opened Wrappers
  import opened Strings
  import Utf8

  /** An upper-case hex digit. */
  function HexDigitChar(d: nat): (c: char)
    requires d < 16
    ensures IsHexDigit(c) && HexValue(c) == d
  {
    if d < 10 then ('0' as int + d) as char else ('A' as int + d - 10) as char
  }

  function HexValue(c: char): (v: nat)
    requires IsHexDigit(c)
    ensures v < 16
  {
    if '0' <= c <= '9' then c as int - '0' as int
    else if 'a' <= c <= 'f' then c as int - 'a' as int + 10
    else c as int - 'A' as int + 10
  }

  /** `%XX`, the percent-encoding of one byte, with upper-case hex digits. */
  function PercentByte(b: Utf8.Byte): (r: string)
    ensures |r| == 3 && r[0] == '%' && IsHexDigit(r[1]) && IsHexDigit(r[2])
    ensures HexValue(r[1]) * 16 + HexValue(r[2]) == b
  {
    ['%', HexDigitChar(b / 16), HexDigitChar(b % 16)]
  }

  function PercentBytes(bs: seq<Utf8.Byte>): (r: string)
    ensures |r| == 3 * |bs|
  {
    if bs == [] then "" else PercentByte(bs[0]) + PercentBytes(bs[1..])
  }

  /** The characters `encodeURIComponent` leaves as they are. */
  predicate IsUriUnreserved(c: char) {
    IsAsciiAlphanumeric(c) || c in "-_.!~*'()"
  }

  function EncodeUnit(c: char): string {
    if IsUriUnreserved(c) then [c] else PercentBytes(Utf8.EncodeChar(c))
  }

  /** `encodeURIComponent(s)`: every character outside the unreserved set becomes the
      percent-encoding of its UTF-8 bytes. */
  function EncodeURIComponent(s: string): (r: string)
    ensures |r| >= |s|
  {
    if s == [] then "" else EncodeUnit(s[0]) + EncodeURIComponent(s[1..])
  }

  /** The byte `%XX` at index `k` of `s` stands for, if there is one. */
  function OctetAt(s: string, k: nat): (r: Option<Utf8.Byte>)
    ensures r.Some? ==> k + 3 <= |s| && s[k] == '%'
  {
    if k + 3 <= |s| && s[k] == '%' && IsHexDigit(s[k + 1]) && IsHexDigit(s[k + 2])
    then Some(HexValue(s[k + 1]) * 16 + HexValue(s[k + 2]))
    else None
  }

  /** The `m` bytes written as `%XX` groups from index `k` on. */
  function Octets(s: string, k: nat, m: nat): (r: Option<seq<Utf8.Byte>>)
    ensures r.Some? ==> |r.value| == m
    decreases m
  {
    if m == 0 then Some([])
    else
      match OctetAt(s, k)
      case None => None
      case Some(b) =>
        match Octets(s, k + 3, m - 1)
        case None => None
        case Some(rest) => Some([b] + rest)
  }

  /** The number of bytes a UTF-8 sequence has, judged by the leading one bits of its
      first byte; 0 when the byte cannot start a sequence. */
  function SequenceLength(b: Utf8.Byte): nat
  {
    if b < 0x80 then 1
    else if b / 32 == 6 then 2
    else if b / 16 == 14 then 3
    else if b / 8 == 30 then 4
    else 0
  }

  predicate AreContinuations(bs: seq<Utf8.Byte>) {
    forall i :: 0 <= i < |bs| ==> 0x80 <= bs[i] <= 0xBF
  }

  /** The character an escape sequence at the start of `s` stands for, and the number of
      characters the sequence takes; `None` when `decodeURIComponent` throws a URIError. */
  function DecodeEscape(s: string): (r: Option<(char, nat)>)
    ensures r.Some? ==> 3 <= r.value.1 <= |s|
  {
    match OctetAt(s, 0)
    case None => None
    case Some(b) =>
      var n := SequenceLength(b);
      if n == 0 then None
      else if n == 1 then Some((b as char, 3))
      else
        match Octets(s, 3, n - 1)
        case None => None
        case Some(cont) =>
          if !AreContinuations(cont) then None
          else
            match Utf8.DecodeStep([b] + cont)
            case Scalar(c, len) => if len == n then Some((c, 3 * n)) else None
            case Invalid(_) => None
  }

  function Prepend(c: char, r: Option<string>): Option<string>
  {
    match r
    case None => None
    case Some(t) => Some([c] + t)
  }

  /** `decodeURIComponent(s)`: every escape sequence replaced by the character it encodes;
      `None` for a malformed sequence, where JavaScript throws a URIError. */
  function DecodeURIComponent(s: string): (r: Option<string>)
    decreases |s|
  {
    if s == [] then Some("")
    else if s[0] != '%' then Prepend(s[0], DecodeURIComponent(s[1..]))
    else
      match DecodeEscape(s)
      case None => None
      case Some((c, len)) => Prepend(c, DecodeURIComponent(s[len..]))
  }

  // Round trip

  lemma PercentBytesOctets(bs: seq<Utf8.Byte>, t: string, j: nat)
    requires j <= |bs|
    ensures Octets(PercentBytes(bs) + t, 3 * j, |bs| - j) == Some(bs[j..])
    decreases |bs| - j
  {
    var u := PercentBytes(bs) + t;
    if j < |bs| {
      PercentBytesAt(bs, t, j);
      PercentBytesOctets(bs, t, j + 1);
      assert bs[j..] == [bs[j]] + bs[j + 1..];
    } else {
      assert bs[j..] == [];
    }
  }

  lemma {:induction false} PercentBytesAt(bs: seq<Utf8.Byte>, t: string, j: nat)
    requires j < |bs|
    ensures OctetAt(PercentBytes(bs) + t, 3 * j) == Some(bs[j])
  {
    if j == 0 {
      var u := PercentBytes(bs) + t;
      var p := PercentByte(bs[0]);
      assert u[..3] == p;
      assert u[0] == p[0] && u[1] == p[1] && u[2] == p[2];
    } else {
      PercentBytesAt(bs[1..], t, j - 1);
      assert PercentBytes(bs) + t == PercentByte(bs[0]) + (PercentBytes(bs[1..]) + t);
      var u' := PercentBytes(bs[1..]) + t;
      var u := PercentBytes(bs) + t;
      assert u[3 * j..] == u'[3 * (j - 1)..];
      OctetAtShift(u, u', 3, 3 * (j - 1));
    }
  }

  lemma OctetAtShift(u: string, u': string, d: nat, k: nat)
    requires d <= |u| && u[d..] == u'
    ensures OctetAt(u, k + d) == OctetAt(u', k)
  {
    if k + 3 <= |u'| {
      assert u[k + d] == u'[k] && u[k + d + 1] == u'[k + 1] && u[k + d + 2] == u'[k + 2];
    }
  }

  /** The first byte of a UTF-8 sequence announces its length, and the rest are
      continuation bytes. */
  lemma EncodeCharShape(c: char)
    ensures var bs := Utf8.EncodeChar(c);
      SequenceLength(bs[0]) == |bs| && AreContinuations(bs[1..])
  {
    var n := c as int;
    if n < 0x80 {
    } else if n < 0x800 {
      Utf8.Split2(n);
    } else if n < 0x10000 {
      Utf8.Split3(n);
    } else {
      Utf8.Split4(n);
    }
  }

  lemma DecodeEscapeEncodeChar(c: char, t: string)
    ensures DecodeEscape(PercentBytes(Utf8.EncodeChar(c)) + t)
      == Some((c, 3 * |Utf8.EncodeChar(c)|))
  {
    var bs := Utf8.EncodeChar(c);
    var u := PercentBytes(bs) + t;
    PercentBytesAt(bs, t, 0);
    EncodeCharShape(c);
    if |bs| > 1 {
      PercentBytesOctets(bs, t, 1);
      assert [bs[0]] + bs[1..] == bs;
      Utf8.DecodeStepEncodeChar(c, []);
      assert bs + [] == bs;
    }
  }

  lemma DecodeUnit(c: char, t: string)
    ensures DecodeURIComponent(EncodeUnit(c) + t) == Prepend(c, DecodeURIComponent(t))
  {
    if IsUriUnreserved(c) {
      assert ([c] + t)[1..] == t;
    } else {
      var bs := Utf8.EncodeChar(c);
      var u := PercentBytes(bs) + t;
      DecodeEscapeEncodeChar(c, t);
      PercentBytesAt(bs, t, 0);
      assert u[3 * |bs|..] == t;
    }
  }

  /** `decodeURIComponent` undoes `encodeURIComponent`. */
  lemma {:induction false} DecodeEncode(s: string)
    ensures DecodeURIComponent(EncodeURIComponent(s)) == Some(s)
  {
    if s != [] {
      DecodeUnit(s[0], EncodeURIComponent(s[1..]));
      DecodeEncode(s[1..]);
      assert [s[0]] + s[1..] == s;
    }
  }

  /** Without a `%`, `decodeURIComponent` returns its argument unchanged. */
  lemma {:induction false} DecodeWithoutPercent(s: string)
    requires '%' !in s
    ensures DecodeURIComponent(s) == Some(s)
  {
    if s != [] {
      assert s[0] != '%';
      assert '%' !in s[1..] by {
        assert forall x :: x in s[1..] ==> x in s;
      }
      DecodeWithoutPercent(s[1..]);
      assert [s[0]] + s[1..] == s;
    }
  }

  /** A successful decode never lengthens the text, and shortens any text that has a `%`. */
  lemma {:induction false} DecodeShrinks(s: string)
    ensures DecodeURIComponent(s).Some? ==> |DecodeURIComponent(s).value| <= |s|
    ensures DecodeURIComponent(s).Some? && '%' in s ==> |DecodeURIComponent(s).value| < |s|
    decreases |s|
  {
    if s != [] {
      if s[0] != '%' {
        DecodeShrinks(s[1..]);
        assert '%' in s ==> '%' in s[1..] by {
          if '%' in s {
            var i :| 0 <= i < |s| && s[i] == '%';
            assert s[1..][i - 1] == '%';
          }
        }
      } else if DecodeEscape(s).Some? {
        DecodeShrinks(s[DecodeEscape(s).value.1..]);
      }
    }
  }

  /** `decodeURIComponent` changes a text exactly when it succeeds on a text with a `%`. */
  lemma DecodeChangesIffPercent(s: string)
    requires DecodeURIComponent(s).Some?
    ensures DecodeURIComponent(s).value != s <==> '%' in s
  {
    DecodeShrinks(s);
    if '%' !in s {
      DecodeWithoutPercent(s);
    }
  }

  /** `encodeURIComponent` changes exactly the texts that have a character outside the
      unreserved set. */
  lemma {:induction false} EncodeIdentityIffUnreserved(s: string)
    ensures EncodeURIComponent(s) == s <==> forall i :: 0 <= i < |s| ==> IsUriUnreserved(s[i])
  {
    if s != [] {
      EncodeIdentityIffUnreserved(s[1..]);
      var e := EncodeUnit(s[0]);
      if !IsUriUnreserved(s[0]) {
        assert |e| >= 3;
        assert |EncodeURIComponent(s)| > |s|;
      } else {
        assert s == [s[0]] + s[1..];
        if EncodeURIComponent(s) == s {
          assert EncodeURIComponent(s[1..]) == EncodeURIComponent(s)[1..];
        }
        assert forall i :: 1 <= i < |s| ==> s[i] == s[1..][i - 1];
      }
    }
  }

  // Pieces of texts

  lemma {:induction false} EncodeAppend(a: string, b: string)
    ensures EncodeURIComponent(a + b) == EncodeURIComponent(a) + EncodeURIComponent(b)
  {
    if a != [] {
      assert (a + b)[0] == a[0] && (a + b)[1..] == a[1..] + b;
      EncodeAppend(a[1..], b);
    } else {
      assert a + b == b;
    }
  }

  /** `decodeURIComponent` copies a prefix without `%` and decodes the rest. */
  lemma {:induction false} DecodeSkipsPlain(x: string, y: string)
    requires '%' !in x
    ensures DecodeURIComponent(x + y) ==
      if DecodeURIComponent(y).Some? then Some(x + DecodeURIComponent(y).value) else None
  {
    if x != [] {
      assert (x + y)[0] == x[0] && (x + y)[1..] == x[1..] + y;
      assert '%' !in x[1..] by { assert forall c :: c in x[1..] ==> c in x; }
      DecodeSkipsPlain(x[1..], y);
      assert DecodeURIComponent(x + y) == Prepend(x[0], DecodeURIComponent(x[1..] + y));
      if DecodeURIComponent(y).Some? {
        var t := DecodeURIComponent(y).value;
        assert [x[0]] + (x[1..] + t) == x + t;
      }
    } else {
      assert x + y == y;
      if DecodeURIComponent(y).Some? {
        assert x + DecodeURIComponent(y).value == DecodeURIComponent(y).value;
      }
    }
  }
}
