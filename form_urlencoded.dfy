/** The `application/x-www-form-urlencoded` format of section 5 of the WHATWG URL
    Standard, which `URLSearchParams` reads and writes, and the `set`/`get` operations of
    `URLSearchParams` (section 6.2). */
module FormUrlencoded {
  import opened Wrappers
  import opened Strings
  import Utf8
  import UriCodec

  /** The bytes the serializer leaves as they are: ASCII alphanumerics, `*`, `-`, `.`, `_`. */
  predicate IsFormSafeByte(b: Utf8.Byte) {
    (0x30 <= b <= 0x39) || (0x41 <= b <= 0x5A) || (0x61 <= b <= 0x7A)
    || b == 0x2A || b == 0x2D || b == 0x2E || b == 0x5F
  }

  function EncodeByte(b: Utf8.Byte): (r: string)
    ensures |r| >= 1
  {
    if IsFormSafeByte(b) then [b as char]
    else if b == 0x20 then "+"
    else UriCodec.PercentByte(b)
  }

  function EncodeBytes(bs: seq<Utf8.Byte>): string
  {
    if bs == [] then "" else EncodeByte(bs[0]) + EncodeBytes(bs[1..])
  }

  /** The serializer's encoding of one name or value: UTF-8, then space as `+` and every
      byte outside the safe set as `%XX`. */
  function FormEncode(s: string): string
  {
    EncodeBytes(Utf8.Encode(s))
  }

  /** The bytes of a name or value in the parser: `+` is a space, `%` with two hex digits
      is the byte they spell, and any other character (a `%` without two hex digits
      included) stands for its own UTF-8 bytes. This is the parser's replacement of `+`,
      UTF-8 encoding and percent-decoding done in one pass: a hex digit is ASCII, so the
      two agree on which `%` start an escape. */
  function DecodeBytes(t: string): seq<Utf8.Byte>
    decreases |t|
  {
    if t == [] then []
    else if t[0] == '+' then [0x20] + DecodeBytes(t[1..])
    else match UriCodec.OctetAt(t, 0)
      case Some(b) => [b] + DecodeBytes(t[3..])
      case None => Utf8.EncodeChar(t[0]) + DecodeBytes(t[1..])
  }

  function FormDecode(t: string): string
  {
    Utf8.DecodeLossy(DecodeBytes(t))
  }

  /** The urlencoded serializer: `name=value` pairs joined by `&`. */
  function Serialize(pairs: seq<(string, string)>): string
  {
    Join(SerializedPairs(pairs), "&")
  }

  function SerializedPairs(pairs: seq<(string, string)>): (r: seq<string>)
    ensures |r| == |pairs|
  {
    if pairs == [] then []
    else [FormEncode(pairs[0].0) + "=" + FormEncode(pairs[0].1)] + SerializedPairs(pairs[1..])
  }

  /** One `&`-separated piece of the parser's input, split at its first `=`. */
  function ParsePiece(piece: string): (string, string)
  {
    if '=' in piece then
      var i := IndexOfChar(piece, '=');
      (FormDecode(piece[..i]), FormDecode(piece[i + 1..]))
    else (FormDecode(piece), "")
  }

  function ParsePieces(pieces: seq<string>): seq<(string, string)>
  {
    if pieces == [] then []
    else if pieces[0] == "" then ParsePieces(pieces[1..])
    else [ParsePiece(pieces[0])] + ParsePieces(pieces[1..])
  }

  /** The urlencoded parser: the `&`-separated pieces that are not empty, each split into
      a name and a value. */
  function Parse(input: string): seq<(string, string)>
  {
    ParsePieces(Split(input, '&'))
  }

  /** `URLSearchParams.prototype.set`: the first pair with that name takes the value and
      the other pairs with the name go; without such a pair, the pair is appended. */
  function Set(pairs: seq<(string, string)>, name: string, value: string): (r: seq<(string, string)>)
  {
    if pairs == [] then [(name, value)]
    else if pairs[0].0 == name then [(name, value)] + RemoveName(pairs[1..], name)
    else [pairs[0]] + Set(pairs[1..], name, value)
  }

  lemma SetNonEmpty(pairs: seq<(string, string)>, name: string, value: string)
    ensures Serialize(Set(pairs, name, value)) != ""
  {
    var r := Set(pairs, name, value);
    assert r != [] by {
      if pairs != [] && pairs[0].0 != name { assert r[0] == pairs[0]; }
    }
    var xs := SerializedPairs(r);
    assert |xs[0]| >= 1;
    if |xs| > 1 {
      assert Serialize(r) == xs[0] + "&" + Join(xs[1..], "&");
    }
  }

  function RemoveName(pairs: seq<(string, string)>, name: string): (r: seq<(string, string)>)
    ensures forall i :: 0 <= i < |r| ==> r[i].0 != name
    ensures |r| <= |pairs|
  {
    if pairs == [] then []
    else if pairs[0].0 == name then RemoveName(pairs[1..], name)
    else [pairs[0]] + RemoveName(pairs[1..], name)
  }

  /** `URLSearchParams.prototype.get`: the value of the first pair with that name. */
  function Get(pairs: seq<(string, string)>, name: string): (r: Option<string>)
    ensures r.None? <==> forall i :: 0 <= i < |pairs| ==> pairs[i].0 != name
  {
    if pairs == [] then None
    else if pairs[0].0 == name then Some(pairs[0].1)
    else Get(pairs[1..], name)
  }

  // Properties

  lemma {:induction false} GetRemoved(pairs: seq<(string, string)>, name: string, other: string)
    requires other != name
    ensures Get(RemoveName(pairs, name), other) == Get(pairs, other)
  {
    if pairs != [] {
      GetRemoved(pairs[1..], name, other);
    }
  }

  /** After `set`, `get` of that name gives the new value and `get` of any other name is
      unchanged. */
  lemma {:induction false} GetSet(pairs: seq<(string, string)>, name: string, value: string, other: string)
    ensures Get(Set(pairs, name, value), name) == Some(value)
    ensures other != name ==> Get(Set(pairs, name, value), other) == Get(pairs, other)
  {
    if pairs != [] {
      if pairs[0].0 == name {
        if other != name {
          GetRemoved(pairs[1..], name, other);
        }
      } else {
        GetSet(pairs[1..], name, value, other);
      }
    }
  }

  /** `get` on two lists one after the other finds the first list's pair if it has one. */
  lemma {:induction false} GetAppend(a: seq<(string, string)>, b: seq<(string, string)>, name: string)
    ensures Get(a + b, name) == if Get(a, name).Some? then Get(a, name) else Get(b, name)
  {
    if a != [] {
      assert (a + b)[0] == a[0] && (a + b)[1..] == a[1..] + b;
      GetAppend(a[1..], b, name);
    } else {
      assert a + b == b;
    }
  }

  /** Setting a name that is not in the list appends the pair at the end. */
  lemma {:induction false} SetAbsentAppends(pairs: seq<(string, string)>, name: string, value: string)
    requires Get(pairs, name).None?
    ensures Set(pairs, name, value) == pairs + [(name, value)]
  {
    if pairs != [] {
      assert pairs[0].0 != name;
      SetAbsentAppends(pairs[1..], name, value);
      assert pairs == [pairs[0]] + pairs[1..];
    }
  }

  lemma DecodeByteUnit(b: Utf8.Byte, t: string)
    ensures DecodeBytes(EncodeByte(b) + t) == [b] + DecodeBytes(t)
  {
    var u := EncodeByte(b) + t;
    if IsFormSafeByte(b) {
      assert u[0] == b as char && u[1..] == t;
    } else if b == 0x20 {
      assert u[0] == '+' && u[1..] == t;
    } else {
      var p := UriCodec.PercentByte(b);
      assert u[0] == '%' && u[1] == p[1] && u[2] == p[2];
      assert u[3..] == t;
    }
  }

  lemma {:induction false} DecodeEncodeBytes(bs: seq<Utf8.Byte>)
    ensures DecodeBytes(EncodeBytes(bs)) == bs
  {
    if bs != [] {
      DecodeByteUnit(bs[0], EncodeBytes(bs[1..]));
      DecodeEncodeBytes(bs[1..]);
      assert [bs[0]] + bs[1..] == bs;
    }
  }

  /** The parser's decoding undoes the serializer's encoding. */
  lemma FormDecodeEncode(s: string)
    ensures FormDecode(FormEncode(s)) == s
  {
    DecodeEncodeBytes(Utf8.Encode(s));
    Utf8.DecodeLossyEncode(s);
  }

  /** The serializer writes only `+`, `%`, hex digits and the safe characters: never `&`
      or `=`. */
  lemma {:induction false} EncodeBytesAlphabet(bs: seq<Utf8.Byte>)
    ensures '&' !in EncodeBytes(bs) && '=' !in EncodeBytes(bs)
  {
    if bs != [] {
      EncodeBytesAlphabet(bs[1..]);
      var e := EncodeByte(bs[0]);
      assert '&' !in e && '=' !in e;
      assert forall x :: x in EncodeBytes(bs) ==> x in e || x in EncodeBytes(bs[1..]);
    }
  }

  lemma ParsePieceSerialized(name: string, value: string)
    ensures ParsePiece(FormEncode(name) + "=" + FormEncode(value)) == (name, value)
  {
    var n, v := FormEncode(name), FormEncode(value);
    var piece := n + "=" + v;
    EncodeBytesAlphabet(Utf8.Encode(name));
    assert piece[|n|] == '=' && piece[..|n|] == n && piece[|n| + 1..] == v;
    IndexOfCharFirst(piece, '=', |n|);
    FormDecodeEncode(name);
    FormDecodeEncode(value);
  }

  lemma {:induction false} ParsePiecesSerialized(pairs: seq<(string, string)>)
    ensures ParsePieces(SerializedPairs(pairs)) == pairs
  {
    if pairs != [] {
      var p := FormEncode(pairs[0].0) + "=" + FormEncode(pairs[0].1);
      assert p != "" by { assert |p| >= 1; }
      ParsePieceSerialized(pairs[0].0, pairs[0].1);
      assert SerializedPairs(pairs)[1..] == SerializedPairs(pairs[1..]);
      ParsePiecesSerialized(pairs[1..]);
      assert pairs == [pairs[0]] + pairs[1..];
    }
  }

  /** Parsing a serialization gives back the list of pairs, names and values exactly. */
  lemma ParseSerialize(pairs: seq<(string, string)>)
    ensures Parse(Serialize(pairs)) == pairs
  {
    var xs := SerializedPairs(pairs);
    if pairs == [] {
      assert Split("", '&') == [""];
    } else {
      forall i | 0 <= i < |xs|
        ensures '&' !in xs[i]
      {
        SerializedPairAlphabet(pairs, i);
      }
      SplitJoin(xs, '&');
      ParsePiecesSerialized(pairs);
    }
  }

  lemma {:induction false} SerializedPairAlphabet(pairs: seq<(string, string)>, i: nat)
    requires i < |pairs|
    ensures '&' !in SerializedPairs(pairs)[i]
  {
    if i == 0 {
      EncodeBytesAlphabet(Utf8.Encode(pairs[0].0));
      EncodeBytesAlphabet(Utf8.Encode(pairs[0].1));
    } else {
      SerializedPairAlphabet(pairs[1..], i - 1);
    }
  }

  /** The characters the serializer writes: alphanumerics (the hex digits of escapes
      among them), `*`, `-`, `.`, `_`, `+`, `%`, and the separators `=` and `&`. */
  predicate IsSerializedChar(c: char) {
    IsAsciiAlphanumeric(c) || c == '*' || c == '-' || c == '.' || c == '_' || c == '+' || c == '%'
    || c == '=' || c == '&'
  }

  predicate AllSerializedChars(s: string) { forall i :: 0 <= i < |s| ==> IsSerializedChar(s[i]) }

  lemma {:induction false} EncodeBytesChars(bs: seq<Utf8.Byte>)
    ensures AllSerializedChars(EncodeBytes(bs))
  {
    if bs != [] {
      EncodeBytesChars(bs[1..]);
      var e := EncodeByte(bs[0]);
      assert AllSerializedChars(e);
    }
  }

  /** The serialization of any list is written in the serializer's alphabet. */
  lemma {:induction false} SerializeChars(pairs: seq<(string, string)>)
    ensures AllSerializedChars(Serialize(pairs))
  {
    if pairs != [] {
      EncodeBytesChars(Utf8.Encode(pairs[0].0));
      EncodeBytesChars(Utf8.Encode(pairs[0].1));
      var x0 := FormEncode(pairs[0].0) + "=" + FormEncode(pairs[0].1);
      assert AllSerializedChars(x0);
      if |pairs| > 1 {
        SerializeChars(pairs[1..]);
        assert SerializedPairs(pairs)[1..] == SerializedPairs(pairs[1..]);
        assert Serialize(pairs) == x0 + "&" + Serialize(pairs[1..]);
      }
    }
  }

  /** Every `%` in `s` starts a complete escape `%XY` other than `%25`, the escape of a
      `%` itself: nothing in `s` has been percent-encoded twice. */
  predicate NoEncodedPercent(s: string) {
    forall i :: 0 <= i < |s| && s[i] == '%' ==> i + 2 < |s| && !(s[i + 1] == '2' && s[i + 2] == '5')
  }

  lemma NoEncodedPercentNoEscape(s: string)
    requires NoEncodedPercent(s)
    ensures !Contains(s, "%25")
  {
    forall i | 0 <= i <= |s|
      ensures !OccursAt(s, "%25", i)
    {
      if i + 3 <= |s| {
        assert s[i..i + 3][0] == s[i] && s[i..i + 3][1] == s[i + 1] && s[i..i + 3][2] == s[i + 2];
      }
    }
  }

  lemma NoPercentNoEncodedPercent(s: string)
    requires '%' !in s
    ensures NoEncodedPercent(s)
  {
  }

  lemma NoEncodedPercentConcat(a: string, b: string)
    requires NoEncodedPercent(a) && NoEncodedPercent(b)
    ensures NoEncodedPercent(a + b)
  {
    var s := a + b;
    forall i | 0 <= i < |s| && s[i] == '%'
      ensures i + 2 < |s| && !(s[i + 1] == '2' && s[i + 2] == '5')
    {
      if i < |a| {
        assert a[i] == '%';
        assert s[i + 1] == a[i + 1] && s[i + 2] == a[i + 2];
      } else {
        assert b[i - |a|] == '%';
        assert s[i + 1] == b[i - |a| + 1] && s[i + 2] == b[i - |a| + 2];
      }
    }
  }

  lemma EncodeByteNoEncodedPercent(b: Utf8.Byte)
    requires b != 0x25
    ensures NoEncodedPercent(EncodeByte(b))
  {
    if !IsFormSafeByte(b) && b != 0x20 {
      var p := UriCodec.PercentByte(b);
      assert UriCodec.HexValue('2') == 2 && UriCodec.HexValue('5') == 5;
    }
  }

  /** Bytes without 0x25 are encoded with no `%25` escape. */
  lemma {:induction false} EncodeBytesNoEncodedPercent(bs: seq<Utf8.Byte>)
    requires 0x25 !in bs
    ensures NoEncodedPercent(EncodeBytes(bs))
  {
    if bs != [] {
      assert bs[0] != 0x25;
      assert 0x25 !in bs[1..] by { assert forall x :: x in bs[1..] ==> x in bs; }
      EncodeByteNoEncodedPercent(bs[0]);
      EncodeBytesNoEncodedPercent(bs[1..]);
      NoEncodedPercentConcat(EncodeByte(bs[0]), EncodeBytes(bs[1..]));
    }
  }

  lemma {:induction false} EncodeHasPercentByte(s: string)
    requires '%' !in s
    ensures 0x25 !in Utf8.Encode(s)
  {
    if s != [] {
      assert s[0] != '%';
      assert '%' !in s[1..] by { assert forall x :: x in s[1..] ==> x in s; }
      EncodeHasPercentByte(s[1..]);
      Utf8.EncodeCharAsciiByte(s[0], 0x25);
    }
  }

  /** A text without `%` is encoded without `%25`: no name is ever encoded twice. */
  lemma FormEncodeNoDoubleEncoding(s: string)
    requires '%' !in s
    ensures NoEncodedPercent(FormEncode(s))
    ensures !Contains(FormEncode(s), "%25")
  {
    EncodeHasPercentByte(s);
    EncodeBytesNoEncodedPercent(Utf8.Encode(s));
    NoEncodedPercentNoEscape(FormEncode(s));
  }

  /** The serialization of names and values without `%` has no `%25` escape. */
  lemma {:induction false} SerializeNoEncodedPercent(pairs: seq<(string, string)>)
    requires forall i :: 0 <= i < |pairs| ==> '%' !in pairs[i].0 && '%' !in pairs[i].1
    ensures NoEncodedPercent(Serialize(pairs))
  {
    var xs := SerializedPairs(pairs);
    if pairs != [] {
      FormEncodeNoDoubleEncoding(pairs[0].0);
      FormEncodeNoDoubleEncoding(pairs[0].1);
      var x0 := FormEncode(pairs[0].0) + "=" + FormEncode(pairs[0].1);
      NoEncodedPercentConcat(FormEncode(pairs[0].0), "=");
      NoEncodedPercentConcat(FormEncode(pairs[0].0) + "=", FormEncode(pairs[0].1));
      assert xs[0] == x0;
      if |pairs| > 1 {
        SerializeNoEncodedPercent(pairs[1..]);
        assert xs[1..] == SerializedPairs(pairs[1..]);
        NoEncodedPercentConcat(x0, "&");
        NoEncodedPercentConcat(x0 + "&", Serialize(pairs[1..]));
      }
    }
  }

  // Pieces of texts

  lemma {:induction false} EncodeBytesAppend(a: seq<Utf8.Byte>, b: seq<Utf8.Byte>)
    ensures EncodeBytes(a + b) == EncodeBytes(a) + EncodeBytes(b)
  {
    if a != [] {
      assert (a + b)[0] == a[0] && (a + b)[1..] == a[1..] + b;
      EncodeBytesAppend(a[1..], b);
    } else {
      assert a + b == b;
    }
  }

  lemma FormEncodeAppend(a: string, b: string)
    ensures FormEncode(a + b) == FormEncode(a) + FormEncode(b)
  {
    Utf8.EncodeAppend(a, b);
    EncodeBytesAppend(Utf8.Encode(a), Utf8.Encode(b));
  }

  predicate IsFormSafeChar(c: char) {
    IsAsciiAlphanumeric(c) || c == '*' || c == '-' || c == '.' || c == '_'
  }

  lemma SerializeTwo(n1: string, v1: string, n2: string, v2: string)
    ensures Serialize([(n1, v1), (n2, v2)])
      == (FormEncode(n1) + "=" + FormEncode(v1)) + "&" + (FormEncode(n2) + "=" + FormEncode(v2))
  {
    var pairs := [(n1, v1), (n2, v2)];
    var x1, x2 := FormEncode(n1) + "=" + FormEncode(v1), FormEncode(n2) + "=" + FormEncode(v2);
    assert pairs[1..] == [(n2, v2)];
    assert SerializedPairs([(n2, v2)]) == [x2] + SerializedPairs([]);
    assert SerializedPairs(pairs) == [x1] + SerializedPairs(pairs[1..]);
    var xs := SerializedPairs(pairs);
    assert xs == [x1, x2];
    assert xs[1..] == [x2];
    assert Join(xs, "&") == x1 + "&" + Join([x2], "&");
  }

  predicate AllFormSafe(s: string) { forall i :: 0 <= i < |s| ==> IsFormSafeChar(s[i]) }

  /** The serializer writes ASCII alphanumerics, `*`, `-`, `.` and `_` as they are. */
  lemma {:induction false} FormEncodeSafe(s: string)
    requires AllFormSafe(s)
    ensures FormEncode(s) == s
  {
    if s != [] {
      FormEncodeAppend([s[0]], s[1..]);
      assert [s[0]] + s[1..] == s;
      assert Utf8.Encode([s[0]]) == [s[0] as int];
      FormEncodeSafe(s[1..]);
    }
  }

  /** ... and a space as `+`. */
  lemma FormEncodeSpace()
    ensures FormEncode(" ") == "+"
  {
    assert Utf8.Encode(" ") == [0x20];
  }

  /** ... and `&` and `=` as `%26` and `%3D`, so that they cannot end a name or value. */
  lemma FormEncodeAmpersand()
    ensures FormEncode("&") == "%26"
  {
    assert Utf8.Encode("&") == [0x26];
    assert EncodeBytes([0x26]) == EncodeByte(0x26) + EncodeBytes([]);
  }

  lemma FormEncodeEquals()
    ensures FormEncode("=") == "%3D"
  {
    assert Utf8.Encode("=") == [0x3D];
    assert EncodeBytes([0x3D]) == EncodeByte(0x3D) + EncodeBytes([]);
  }

  lemma SerializeOne(name: string, value: string)
    ensures Serialize([(name, value)]) == FormEncode(name) + "=" + FormEncode(value)
  {
    var x := FormEncode(name) + "=" + FormEncode(value);
    assert SerializedPairs([(name, value)]) == [x] + SerializedPairs([]);
  }
}
