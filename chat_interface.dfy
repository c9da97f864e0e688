/** The chat page of the web frontend (frontend/src/components/ChatInterface.tsx): how a
    reply is recognised as a QR payload, what is pulled out of message text, how text is
    cut into links and bold pieces, and the message list the page keeps. `JSON.parse`,
    the server's answer and the clock are parameters. */
module ChatInterface {
  import opened Wrappers
  import opened Strings
  import opened Json
  import Decimal
  import RegexText

  // Payloads

  /** `{response, qrCode, qrMessage}`: a reply that carries a QR code. */
  datatype Payload = Payload(response: Json, qrCode: Json, qrMessage: Json)

  /** `extractPayloadFromResponse` once `JSON.parse` has given `parsed` (`None` when it
      throws). Reading a property of `null` throws too, and both `try` blocks catch it. */
  function ExtractPayload(parsed: Option<Json>): (r: Option<Payload>)
    ensures r.Some? ==> Truthy(r.value.response) && Truthy(r.value.qrCode) && Truthy(r.value.qrMessage)
  {
    match parsed
    case None => None
    case Some(data) =>
      if data == Null then None
      else if HasTruthy(data, "response") && HasTruthy(data, "qrCode") && HasTruthy(data, "qrMessage") then
        Some(Payload(Get(data, "response").value, Get(data, "qrCode").value, Get(data, "qrMessage").value))
      else if HasTruthy(data, "qrCode") && HasTruthy(data, "message") then
        Some(Payload(Get(data, "message").value, Get(data, "qrCode").value, Get(data, "message").value))
      else None
  }

  /** `extractPayloadFromResponse(responseText)`. */
  function ExtractPayloadFromResponse(responseText: string, parse: string -> Option<Json>): (r: Option<Payload>)
    ensures parse(responseText).None? || parse(responseText) == Some(Null) ==> r.None?
    ensures r.Some? ==> Truthy(r.value.response) && Truthy(r.value.qrCode) && Truthy(r.value.qrMessage)
  {
    ExtractPayload(parse(responseText))
  }

  /** A payload is found exactly when the parsed value is an object with truthy `qrCode` and
      either truthy `response` and `qrMessage` (taken as they are, in preference) or a truthy
      `message` (which becomes both the response and the QR message). */
  lemma PayloadShapes(data: Json)
    requires data != Null
    ensures var r := ExtractPayload(Some(data));
      (r.Some? <==> HasTruthy(data, "qrCode") &&
                    ((HasTruthy(data, "response") && HasTruthy(data, "qrMessage")) || HasTruthy(data, "message"))) &&
      (r.Some? ==> data.Object? && Some(r.value.qrCode) == Lookup(data.members, "qrCode")) &&
      (HasTruthy(data, "response") && HasTruthy(data, "qrCode") && HasTruthy(data, "qrMessage") ==>
        r == Some(Payload(Get(data, "response").value, Get(data, "qrCode").value, Get(data, "qrMessage").value))) &&
      (r.Some? && !HasTruthy(data, "qrMessage") ==>
        Some(r.value.response) == Some(r.value.qrMessage) == Lookup(data.members, "message"))
  {
  }

  /** The text is parsed once only: a reply that is a JSON string holding a payload is not
      recognised. */
  lemma StringLiteralRefused(s: string, parse: string -> Option<Json>)
    requires InvertsStringify(parse)
    ensures ExtractPayloadFromResponse(Stringify(String(s)), parse).None?
  {
    ParseStringified(parse, String(s));
  }

  /** The reply the agent writes for a new fundraiser, `JSON.stringify({response, qrCode,
      qrMessage})` with non-empty strings, is recognised with its three parts. */
  lemma AgentPayloadRecognised(response: string, qrCode: string, qrMessage: string, parse: string -> Option<Json>)
    requires InvertsStringify(parse)
    requires response != "" && qrCode != "" && qrMessage != ""
    ensures var text := Stringify(Object([("response", String(response)), ("qrCode", String(qrCode)), ("qrMessage", String(qrMessage))]));
      ExtractPayloadFromResponse(text, parse) == Some(Payload(String(response), String(qrCode), String(qrMessage)))
  {
    var v := Object([("response", String(response)), ("qrCode", String(qrCode)), ("qrMessage", String(qrMessage))]);
    ParseStringified(parse, v);
    PayloadOfObject(response, qrCode, qrMessage);
  }

  lemma PayloadOfObject(response: string, qrCode: string, qrMessage: string)
    requires response != "" && qrCode != "" && qrMessage != ""
    ensures var v := Object([("response", String(response)), ("qrCode", String(qrCode)), ("qrMessage", String(qrMessage))]);
      ExtractPayload(Some(v)) == Some(Payload(String(response), String(qrCode), String(qrMessage)))
  {
    var ms := [("response", String(response)), ("qrCode", String(qrCode)), ("qrMessage", String(qrMessage))];
    assert Lookup(ms, "qrMessage") == Some(String(qrMessage));
    var two := [("response", String(response)), ("qrCode", String(qrCode))];
    assert ms[..2] == two && two[..1] == [("response", String(response))];
    assert Lookup(ms, "qrCode") == Some(String(qrCode));
    assert Lookup(two[..1], "response") == Some(String(response));
    assert Lookup(ms, "response") == Lookup(two, "response") == Some(String(response));
  }

  // Amounts

  /** Digits, then optionally a point and more digits: what `\d+\.?\d*` matches. */
  predicate AmountText(a: string) {
    var w := Decimal.DigitRun(a);
    w >= 1 && (w == |a| || (a[w] == '.' && AllDigits(a[w + 1..])))
  }

  /** Where `\d+\.?\d*` ends when it starts at `i` on a digit: all the digits, then a point
      and all the digits after it if there is one. */
  function NumberEnd(s: string, i: nat): (k: nat)
    requires i < |s| && IsDigit(s[i])
    ensures i < k <= |s| && AmountText(s[i..k])
  {
    var w := Decimal.DigitRun(s[i..]);
    var d := if i + w < |s| && s[i + w] == '.' then 1 else 0;
    var f := Decimal.DigitRun(s[i + w + d..]);
    AmountTextAt(s, i, w, d, f);
    i + w + d + f
  }

  /** `\s*ETH` matches at `k`, case-insensitively. */
  predicate EthAt(s: string, k: nat)
    requires k <= |s|
  {
    var e := k + RegexText.Run(s[k..], IsJsSpace);
    e + 3 <= |s| && LowerAscii(s[e..e + 3]) == "eth"
  }

  /** `/(\d+\.?\d*)\s*ETH/i` tried at `i`: the text of the number. Only the greedy reading can
      be followed by `ETH`: giving back a digit or the point leaves a digit or a point where
      a space or `E` is needed. */
  function AmountAt(s: string, i: nat): (r: Option<string>)
    ensures r.Some? ==> i + |r.value| <= |s| && s[i..i + |r.value|] == r.value && AmountText(r.value)
  {
    if i >= |s| || !IsDigit(s[i]) then None
    else
      var k := NumberEnd(s, i);
      if EthAt(s, k) then Some(s[i..k]) else None
  }

  lemma AmountTextAt(s: string, i: nat, w: nat, d: nat, f: nat)
    requires i < |s| && IsDigit(s[i]) && w == Decimal.DigitRun(s[i..])
    requires d == (if i + w < |s| && s[i + w] == '.' then 1 else 0)
    requires f == Decimal.DigitRun(s[i + w + d..])
    ensures i + w + d + f <= |s| && AmountText(s[i..i + w + d + f])
  {
    var a := s[i..i + w + d + f];
    Decimal.DigitRunFacts(s[i..]);
    Decimal.DigitRunFacts(s[i + w + d..]);
    if i + w < |s| {
      assert s[i..][w] == s[i + w];
    }
    assert f == 0 || d == 1;
    AmountRunKept(s, i, w, d + f);
    if d == 1 {
      assert a[w + 1..] == s[i + w + 1..][..f];
    }
  }

  /** The digit run at `i` is also the digit run of any stretch from `i` that reaches its end. */
  lemma AmountRunKept(s: string, i: nat, w: nat, e: nat)
    requires i < |s| && IsDigit(s[i]) && w == Decimal.DigitRun(s[i..]) && i + w + e <= |s|
    ensures 1 <= w && Decimal.DigitRun(s[i..i + w + e]) == w
  {
    var a := s[i..i + w + e];
    Decimal.DigitRunFacts(s[i..]);
    assert s[i..][0] == s[i];
    assert a[..w] == s[i..][..w];
    if w < |a| {
      assert a[w] == s[i..][w];
    }
    Decimal.DigitRunExact(a[..w], a[w..]);
    assert a[..w] + a[w..] == a;
  }

  function AmountMatcher(s: string): nat -> Option<string> {
    (i: nat) => AmountAt(s, i)
  }

  /** `extractContributionAmount(message)`. */
  function ExtractContributionAmount(message: string): (r: Option<string>)
    ensures r.Some? ==> AmountText(r.value) && Contains(message, r.value)
  {
    FirstAmountFound(message);
    RegexText.FirstMatch(message, AmountMatcher(message))
  }

  /** The first match of the amount pattern is a number text standing in the message. */
  lemma FirstAmountFound(message: string)
    ensures var r := RegexText.FirstMatch(message, AmountMatcher(message));
      r.Some? ==> AmountText(r.value) && Contains(message, r.value)
  {
    var m := AmountMatcher(message);
    var k := RegexText.FirstFrom(|message| + 1, m, 0);
    if k.Some? {
      var r := AmountAt(message, k.value);
      assert m(k.value) == r;
      assert OccursAt(message, r.value, k.value);
    }
  }

  /** The amount found is the one at the leftmost position where a number followed by `ETH`
      matches (`AmountAt` says it is numeric text standing there), and none is found exactly
      when the pattern matches nowhere. */
  lemma AmountLeftmost(message: string)
    ensures var r := ExtractContributionAmount(message);
      (r.Some? ==> exists i: nat :: AmountAt(message, i) == r && forall j: nat :: j < i ==> AmountAt(message, j).None?) &&
      (r.None? <==> forall j: nat :: AmountAt(message, j).None?)
  {
    var m := AmountMatcher(message);
    var k := RegexText.FirstFrom(|message| + 1, m, 0);
    var r := ExtractContributionAmount(message);
    if k.Some? {
      var i := k.value;
      assert AmountAt(message, i) == m(i) == r;
      forall j: nat | j < i
        ensures AmountAt(message, j).None?
      {
        assert m(j).None?;
      }
    } else {
      forall j: nat
        ensures AmountAt(message, j).None?
      {
        if j <= |message| {
          assert m(j).None?;
        }
      }
    }
  }

  /** Writing an amount as `<amount> ETH` and extracting it gives the amount back. */
  lemma AmountRoundTrip(a: string, rest: string)
    requires AmountText(a)
    ensures ExtractContributionAmount(a + " ETH" + rest) == Some(a)
  {
    var s := a + " ETH" + rest;
    AmountAtFormatted(a, rest);
    assert AmountMatcher(s)(0) == Some(a);
  }

  lemma AmountAtFormatted(a: string, rest: string)
    requires AmountText(a)
    ensures AmountAt(a + " ETH" + rest, 0) == Some(a)
  {
    var s := a + " ETH" + rest;
    NumberEndFormatted(a, rest);
    EthAfter(a, rest);
    assert s[0..|a|] == a;
  }

  lemma NumberEndFormatted(a: string, rest: string)
    requires AmountText(a)
    ensures var s := a + " ETH" + rest; |a| > 0 && IsDigit(s[0]) && NumberEnd(s, 0) == |a|
  {
    AppendAssoc(a, " ETH", rest);
    AmountDigits(a, " ETH" + rest);
    Decimal.DigitRunFacts(a);
    NumberEndOfRuns(a + (" ETH" + rest), Decimal.DigitRun(a), |a|);
  }

  /** `NumberEnd` from the start of `s`, given the digit runs it finds there. */
  lemma NumberEndOfRuns(s: string, w: nat, n: nat)
    requires 0 < w <= |s| && Decimal.DigitRun(s[0..]) == w
    requires var d := if w < |s| && s[w] == '.' then 1 else 0;
      w + d <= |s| && w + d + Decimal.DigitRun(s[w + d..]) == n
    ensures IsDigit(s[0]) && NumberEnd(s, 0) == n
  {
    Decimal.DigitRunFacts(s[0..]);
    assert s[0..][..w][0] == s[0];
  }

  /** The two digit runs of `\d+\.?\d*` cover the whole amount when a space follows it. */
  lemma AmountDigits(a: string, tail: string)
    requires AmountText(a) && |tail| > 0 && tail[0] == ' '
    ensures var s := a + tail; var w := Decimal.DigitRun(a);
      Decimal.DigitRun(s[0..]) == w &&
      var d := if w < |s| && s[w] == '.' then 1 else 0;
      w + d + Decimal.DigitRun(s[w + d..]) == |a|
  {
    var s := a + tail;
    var w := Decimal.DigitRun(a);
    Decimal.DigitRunFacts(a);
    assert s[0..] == a[..w] + (a[w..] + tail);
    Decimal.DigitRunExact(a[..w], a[w..] + tail);
    if w < |a| {
      assert s[w] == a[w] == '.';
      Decimal.DigitRunExact(a[w + 1..], tail);
      assert s[w + 1..] == a[w + 1..] + tail;
    } else {
      assert s[w] == ' ';
      Decimal.DigitRunExact("", tail);
      assert s[w..] == "" + tail;
    }
  }

  lemma EthAfter(a: string, rest: string)
    ensures EthAt(a + " ETH" + rest, |a|)
  {
    var s := a + " ETH" + rest;
    var k := |a|;
    assert s[k..] == " ETH" + rest;
    assert s[k..][1..][0] == 'E';
    assert RegexText.Run(s[k..][1..], IsJsSpace) == 0;
    assert RegexText.Run(s[k..], IsJsSpace) == 1;
    assert s[k + 1..k + 4] == "ETH";
  }

  // Links and bold text

  /** What `renderTextWithLinks` turns text into: plain text, a link, a bold element. */
  datatype Piece = Text(text: string) | Link(href: string) | Strong(text: string)

  predicate NotSpace(c: char) { !IsJsSpace(c) }

  function SchemeLength(t: string): nat {
    if StartsWith(t, "https://") then 8 else if StartsWith(t, "http://") then 7 else 0
  }

  /** A whole match of `https?:\/\/[^\s]+`: a scheme, then one or more non-space characters. */
  predicate IsUrl(u: string) {
    |u| > SchemeLength(u) > 0 && forall k :: 0 <= k < |u| ==> NotSpace(u[k])
  }

  /** Where a match of `/(https?:\/\/[^\s]+)/` starting at `q` ends: the run of non-space
      characters goes as far as it can, to a space or the end of the text. */
  function UrlEnd(s: string, q: nat): (r: Option<nat>)
    ensures r.Some? ==> q < r.value <= |s| && IsUrl(s[q..r.value]) && (r.value == |s| || IsJsSpace(s[r.value]))
  {
    if q > |s| then None
    else
      var h := SchemeLength(s[q..]);
      if h == 0 then None
      else
        var n := RegexText.Run(s[q + h..], NotSpace);
        if n == 0 then None
        else
          RegexText.RunFacts(s[q + h..], NotSpace);
          UrlAt(s, q, h, n);
          Some(q + h + n)
  }

  lemma UrlAt(s: string, q: nat, h: nat, n: nat)
    requires q <= |s| && h == SchemeLength(s[q..]) > 0
    requires n == RegexText.Run(s[q + h..], NotSpace) > 0
    ensures IsUrl(s[q..q + h + n])
  {
    var u := s[q..q + h + n];
    RegexText.RunFacts(s[q + h..], NotSpace);
    SlicePrefix(s, q, q + h + n, h);
    SchemeKept(s[q..], u, h);
    forall k | 0 <= k < |u|
      ensures NotSpace(u[k])
    {
      if k >= h {
        assert u[k] == s[q + h..][k - h];
      } else if h == 8 {
        assert u[k] == "https://"[k];
      } else {
        assert u[k] == "http://"[k];
      }
    }
  }

  /** A text that agrees with `t` on its scheme has the same scheme. */
  lemma SchemeKept(t: string, u: string, h: nat)
    requires h == SchemeLength(t) > 0 && h <= |u| && u[..h] == t[..h]
    ensures SchemeLength(u) == h
  {
    if h == 7 && |u| >= 8 {
      assert u[4] == u[..h][4] == t[..h][4] == ':';
      assert u[..8][4] == u[4];
    }
  }

  function UrlMatcher(s: string): nat -> Option<nat> {
    (q: nat) => UrlEnd(s, q)
  }

  /** `part.match(urlRegex)` is truthy: a URL starts somewhere in the part. */
  predicate HasUrl(part: string) {
    RegexText.FirstFrom(|part| + 1, UrlMatcher(part), 0).Some?
  }

  /** `text.split(urlRegex)`: the text between URLs and the URLs, alternately. */
  function UrlParts(text: string): seq<string> {
    assert RegexText.Matcher(text, UrlMatcher(text));
    RegexText.SplitFrom(text, UrlMatcher(text), 0, 0)
  }

  predicate NotStarOrBreak(c: char) { c != '*' && !IsLineTerminator(c) }

  /** Where a match of `/(\*.*?\*)/` starting at `q` ends: at the first `*` after the
      opening one, provided no line break comes first. */
  function BoldEnd(s: string, q: nat): (r: Option<nat>)
    ensures r.Some? ==> q + 2 <= r.value <= |s| && s[q] == '*' && s[r.value - 1] == '*'
  {
    if q >= |s| || s[q] != '*' then None
    else
      var n := RegexText.Run(s[q + 1..], NotStarOrBreak);
      if q + 1 + n < |s| && s[q + 1 + n] == '*' then Some(q + n + 2) else None
  }

  function BoldMatcher(s: string): nat -> Option<nat> {
    (q: nat) => BoldEnd(s, q)
  }

  /** `part.split(/(\*.*?\*)/g)`. */
  function BoldParts(part: string): seq<string> {
    assert RegexText.Matcher(part, BoldMatcher(part));
    RegexText.SplitFrom(part, BoldMatcher(part), 0, 0)
  }

  /** How one piece of a bold split is shown, as written: anything that starts and ends with
      `*` becomes bold without them, a lone `*` included (`"*".slice(1, -1)` is empty). */
  function BoldPieceAsWritten(b: string): Piece {
    if b != "" && StartsWith(b, "*") && EndsWith(b, "*") then
      Strong(if |b| >= 2 then b[1..|b| - 1] else "")
    else Text(b)
  }

  /** How one piece of a bold split is meant to be shown: only a piece with an asterisk at
      each end, two distinct ones, becomes bold. */
  function BoldPiece(b: string): Piece {
    if |b| >= 2 && b[0] == '*' && b[|b| - 1] == '*' then Strong(b[1..|b| - 1]) else Text(b)
  }

  function BoldPieces(bs: seq<string>, bold: string -> Piece): seq<Piece> {
    if bs == [] then [] else [bold(bs[0])] + BoldPieces(bs[1..], bold)
  }

  /** One part of the URL split: nothing for an empty part, a link for a part holding a URL,
      and the bold split of any other. */
  function PartPieces(part: string, bold: string -> Piece): seq<Piece> {
    if part == "" then []
    else if HasUrl(part) then [Link(part)]
    else BoldPieces(BoldParts(part), bold)
  }

  function PartsPieces(parts: seq<string>, bold: string -> Piece): seq<Piece> {
    if parts == [] then [] else PartPieces(parts[0], bold) + PartsPieces(parts[1..], bold)
  }

  /** `renderTextWithLinks(text)` as written, its nested arrays flattened. It gives the
      pieces of the intended rendering, except that a lone `*` is an empty bold piece. */
  function RenderTextWithLinksAsWritten(text: string): (r: seq<Piece>)
    ensures PiecesAgree(r, RenderTextWithLinks(text))
  {
    PartsPiecesAgree(UrlParts(text));
    PartsPieces(UrlParts(text), BoldPieceAsWritten)
  }

  /** `renderTextWithLinks(text)` with bold pieces of two asterisks or more. Nothing is lost
      or reordered: the pieces, with each bold piece's two asterisks put back, spell the
      text. */
  function RenderTextWithLinks(text: string): (r: seq<Piece>)
    ensures Shown(r) == text
  {
    assert RegexText.Matcher(text, UrlMatcher(text));
    RegexText.SplitFromConcat(text, UrlMatcher(text), 0, 0);
    PartsShown(UrlParts(text));
    PartsPieces(UrlParts(text), BoldPiece)
  }

  /** A piece as written and as intended: the same, or an empty bold piece for a lone `*`. */
  predicate SameOrLoneAsterisk(written: Piece, intended: Piece) {
    written == intended || (intended == Text("*") && written == Strong(""))
  }

  predicate PiecesAgree(written: seq<Piece>, intended: seq<Piece>) {
    |written| == |intended| && forall i :: 0 <= i < |written| ==> SameOrLoneAsterisk(written[i], intended[i])
  }

  lemma PiecesAgreeAppend(a1: seq<Piece>, a2: seq<Piece>, b1: seq<Piece>, b2: seq<Piece>)
    requires PiecesAgree(a1, b1) && PiecesAgree(a2, b2)
    ensures PiecesAgree(a1 + a2, b1 + b2)
  {
    forall i | 0 <= i < |a1 + a2|
      ensures SameOrLoneAsterisk((a1 + a2)[i], (b1 + b2)[i])
    {
      if i < |a1| {
        assert (a1 + a2)[i] == a1[i] && (b1 + b2)[i] == b1[i];
      } else {
        assert (a1 + a2)[i] == a2[i - |a1|] && (b1 + b2)[i] == b2[i - |a1|];
      }
    }
  }

  /** The written test for a bold piece differs from the intended one only on a lone `*`. */
  lemma BoldPieceAgrees(b: string)
    ensures SameOrLoneAsterisk(BoldPieceAsWritten(b), BoldPiece(b))
  {
    if b != "" && StartsWith(b, "*") && EndsWith(b, "*") && |b| < 2 {
      assert b == "*";
    }
  }

  lemma {:induction false} BoldPiecesAgree(bs: seq<string>)
    ensures PiecesAgree(BoldPieces(bs, BoldPieceAsWritten), BoldPieces(bs, BoldPiece))
  {
    if bs != [] {
      BoldPiecesAgree(bs[1..]);
      BoldPieceAgrees(bs[0]);
      PiecesAgreeAppend([BoldPieceAsWritten(bs[0])], BoldPieces(bs[1..], BoldPieceAsWritten),
                        [BoldPiece(bs[0])], BoldPieces(bs[1..], BoldPiece));
    }
  }

  lemma {:induction false} PartsPiecesAgree(parts: seq<string>)
    ensures PiecesAgree(PartsPieces(parts, BoldPieceAsWritten), PartsPieces(parts, BoldPiece))
  {
    if parts != [] {
      PartsPiecesAgree(parts[1..]);
      if parts[0] != "" && !HasUrl(parts[0]) {
        BoldPiecesAgree(BoldParts(parts[0]));
      }
      PiecesAgreeAppend(PartPieces(parts[0], BoldPieceAsWritten), PartsPieces(parts[1..], BoldPieceAsWritten),
                        PartPieces(parts[0], BoldPiece), PartsPieces(parts[1..], BoldPiece));
    }
  }

  /** The text a piece stands for: its text, with the two asterisks put back on a bold one. */
  function Markup(p: Piece): string {
    match p
    case Text(t) => t
    case Link(u) => u
    case Strong(t) => "*" + t + "*"
  }

  function Shown(ps: seq<Piece>): string {
    if ps == [] then "" else Markup(ps[0]) + Shown(ps[1..])
  }

  lemma {:induction false} ShownAppend(a: seq<Piece>, b: seq<Piece>)
    ensures Shown(a + b) == Shown(a) + Shown(b)
  {
    if a == [] {
      assert a + b == b;
    } else {
      assert (a + b)[0] == a[0] && (a + b)[1..] == a[1..] + b;
      ShownAppend(a[1..], b);
    }
  }

  lemma {:induction false} BoldPiecesShown(bs: seq<string>)
    ensures Shown(BoldPieces(bs, BoldPiece)) == Concat(bs)
  {
    if bs != [] {
      BoldPiecesShown(bs[1..]);
      BoldPieceShown(bs[0]);
      ShownCons(BoldPiece(bs[0]), BoldPieces(bs[1..], BoldPiece));
    }
  }

  /** A bold piece shown with its asterisks is the text it was made from. */
  lemma BoldPieceShown(b: string)
    ensures Markup(BoldPiece(b)) == b
  {
    if |b| >= 2 && b[0] == '*' && b[|b| - 1] == '*' {
      assert b == [b[0]] + b[1..|b| - 1] + [b[|b| - 1]];
    }
  }

  lemma ShownCons(p: Piece, ps: seq<Piece>)
    ensures Shown([p] + ps) == Markup(p) + Shown(ps)
  {
    assert ([p] + ps)[1..] == ps;
  }

  lemma PartShown(part: string)
    ensures Shown(PartPieces(part, BoldPiece)) == part
  {
    if part != "" && !HasUrl(part) {
      assert RegexText.Matcher(part, BoldMatcher(part));
      RegexText.SplitFromConcat(part, BoldMatcher(part), 0, 0);
      BoldPiecesShown(BoldParts(part));
    }
  }

  lemma {:induction false} PartsShown(parts: seq<string>)
    ensures Shown(PartsPieces(parts, BoldPiece)) == Concat(parts)
  {
    if parts != [] {
      PartsShown(parts[1..]);
      PartShown(parts[0]);
      ShownAppend(PartPieces(parts[0], BoldPiece), PartsPieces(parts[1..], BoldPiece));
    }
  }

  /** As written, a lone `*` between two URLs or after a bold piece is shown as an empty bold
      element: the asterisk disappears from the page. */
  lemma LoneAsteriskDropped()
    ensures RenderTextWithLinksAsWritten("*") == [Strong("")]
    ensures Shown(RenderTextWithLinksAsWritten("*")) != "*"
    ensures RenderTextWithLinks("*") == [Text("*")]
  {
    var s := "*";
    assert UrlEnd(s, 0).None? by { assert SchemeLength(s) == 0; }
    assert UrlParts(s) == RegexText.SplitFrom(s, UrlMatcher(s), 0, 1) == ["*"];
    assert !HasUrl(s) by {
      assert UrlMatcher(s)(0).None? && UrlMatcher(s)(1).None?;
    }
    assert BoldEnd(s, 0).None? by { assert RegexText.Run(s[1..], NotStarOrBreak) == 0; }
    assert BoldParts(s) == RegexText.SplitFrom(s, BoldMatcher(s), 0, 1) == ["*"];
    assert Shown([Strong("")]) == "**";
  }

  /** A match of the URL pattern inside a stretch of the text is a match in the whole text. */
  lemma UrlInStretch(s: string, a: nat, b: nat, k: nat)
    requires a <= b <= |s| && UrlEnd(s[a..b], k).Some?
    ensures a + k < b && UrlMatcher(s)(a + k).Some?
  {
    var t := s[a..b];
    var h := SchemeLength(t[k..]);
    assert t[k..][..h] == s[a + k..][..h];
    assert SchemeLength(s[a + k..]) == h;
    assert t[k + h..][0] == s[a + k + h..][0];
  }

  /** The URL split cuts out exactly the URLs: every odd part is a maximal run of non-space
      characters starting with `http://` or `https://` where it stands in the text, and no
      even part holds a URL. */
  lemma UrlPartsShape(text: string)
    ensures var parts := UrlParts(text);
      |parts| % 2 == 1 &&
      (forall i :: 0 <= i < |parts| && i % 2 == 1 ==>
        exists q: nat :: UrlEnd(text, q).Some? && parts[i] == text[q..UrlEnd(text, q).value]) &&
      (forall i :: 0 <= i < |parts| && i % 2 == 0 ==> !HasUrl(parts[i]))
  {
    var m := UrlMatcher(text);
    var parts := UrlParts(text);
    assert RegexText.Matcher(text, m);
    RegexText.SplitFromShape(text, m, 0, 0);
    forall i | 0 <= i < |parts| && i % 2 == 1
      ensures exists q: nat :: UrlEnd(text, q).Some? && parts[i] == text[q..UrlEnd(text, q).value]
    {
      assert RegexText.Match(text, m, 0, parts[i]);
      var q: nat :| q < |text| && m(q).Some? && q <= m(q).value <= |text| && parts[i] == text[q..m(q).value];
      assert m(q) == UrlEnd(text, q);
    }
    forall i | 0 <= i < |parts| && i % 2 == 0
      ensures !HasUrl(parts[i])
    {
      assert RegexText.Gap(text, m, 0, parts[i]);
      var a: nat, b: nat :| RegexText.GapAt(text, m, a, b) && parts[i] == text[a..b];
      var t := text[a..b];
      forall k: nat | k <= |t|
        ensures UrlMatcher(t)(k).None?
      {
        if UrlEnd(t, k).Some? {
          UrlInStretch(text, a, b, k);
        }
      }
    }
  }

  /** Where an odd part of the URL split starts in the text. */
  lemma UrlPartAt(text: string, i: nat) returns (q: nat)
    requires i < |UrlParts(text)| && i % 2 == 1
    ensures UrlEnd(text, q).Some? && UrlParts(text)[i] == text[q..UrlEnd(text, q).value]
  {
    UrlPartsShape(text);
    var parts := UrlParts(text);
    assert exists q: nat :: UrlEnd(text, q).Some? && parts[i] == text[q..UrlEnd(text, q).value];
    q :| UrlEnd(text, q).Some? && parts[i] == text[q..UrlEnd(text, q).value];
  }

  /** Every link shown is a URL, and every URL of the text is shown as a link. */
  lemma LinksAreUrls(text: string)
    ensures forall p :: p in RenderTextWithLinks(text) && p.Link? ==> IsUrl(p.href)
    ensures forall i :: 0 <= i < |UrlParts(text)| && i % 2 == 1 ==>
      Link(UrlParts(text)[i]) in RenderTextWithLinks(text)
  {
    var parts := UrlParts(text);
    UrlPartsShape(text);
    forall i | 0 <= i < |parts|
      ensures forall p :: p in PartPieces(parts[i], BoldPiece) && p.Link? ==> IsUrl(p.href)
      ensures i % 2 == 1 ==> PartPieces(parts[i], BoldPiece) == [Link(parts[i])]
    {
      if i % 2 == 1 {
        var q := UrlPartAt(text, i);
        var u := parts[i];
        assert UrlEnd(u, 0).Some? by {
          assert u[0..] == u;
          UrlWhole(u);
        }
        assert UrlMatcher(u)(0).Some?;
      } else {
        BoldPiecesNoLinks(BoldParts(parts[i]));
      }
    }
    PiecesOfParts(parts);
  }

  /** A whole URL is matched from its first character. */
  lemma UrlWhole(u: string)
    requires IsUrl(u)
    ensures UrlEnd(u, 0).Some?
  {
    var h := SchemeLength(u);
    assert u[0..] == u;
    assert NotSpace(u[h..][0]);
  }

  lemma {:induction false} BoldPiecesNoLinks(bs: seq<string>)
    ensures forall p :: p in BoldPieces(bs, BoldPiece) ==> !p.Link?
  {
    if bs != [] {
      BoldPiecesNoLinks(bs[1..]);
    }
  }

  lemma {:induction false} PiecesOfParts(parts: seq<string>)
    requires forall i :: 0 <= i < |parts| ==>
      forall p :: p in PartPieces(parts[i], BoldPiece) && p.Link? ==> IsUrl(p.href)
    ensures forall p :: p in PartsPieces(parts, BoldPiece) && p.Link? ==> IsUrl(p.href)
    ensures forall i :: 0 <= i < |parts| ==>
      forall p :: p in PartPieces(parts[i], BoldPiece) ==> p in PartsPieces(parts, BoldPiece)
  {
    if parts != [] {
      PiecesOfParts(parts[1..]);
      forall i | 1 <= i < |parts|
        ensures parts[i] == parts[1..][i - 1]
      {
      }
    }
  }

  // The message list

  /** A chat message. `timestamp` and `id` are the same clock reading, in milliseconds. */
  datatype Message = Message(content: string, senderAddress: string, timestamp: nat, id: string, error: bool)

  /** `isUserMessage(senderAddress)`: the sender is the connected wallet. */
  predicate IsUserMessage(senderAddress: string, wallet: Option<string>) {
    wallet.Some? && senderAddress == wallet.value
  }

  /** What the page gets back for a request: `fetch` rejects with a message, or a response
      whose body `response.json()` reads or rejects on with a message. */
  datatype ServerReply =
    | Unreachable(reason: string)
    | Response(ok: bool, status: nat, body: Result<Json, string>)

  const UnknownError := "Unknown error"
  const InvalidFormat := "Invalid response format from server"
  const FailedPrefix := "Failed to send message: "
  const AgentSender := "agent"
  const SystemSender := "system"

  /** The message a JavaScript engine gives the error thrown by reading a property of `null`. */
  function NullPropertyError(key: string): string {
    "Cannot read properties of null (reading '" + key + "')"
  }

  /** `String(v)`. */
  function JsString(v: Json): string
    decreases v
  {
    match v
    case Null => "null"
    case Bool(b) => if b then "true" else "false"
    case Number(n) => Decimal.IntToString(n)
    case String(s) => s
    case Array(items) =>
      Join(seq(|items|, i requires 0 <= i < |items| => if items[i] == Null then "" else JsString(items[i])), ",")
    case Object(_) => "[object Object]"
  }

  /** The `try` block of `sendMessage` after the request: the response to show, or the
      message of the error it throws. */
  function ReplyOutcome(reply: ServerReply): Result<Json, string> {
    match reply
    case Unreachable(reason) => Failure(reason)
    case Response(ok, status, body) =>
      if !ok then
        var errorData := if body.Success? then body.value else Object([("error", String(UnknownError))]);
        if errorData == Null then Failure(NullPropertyError("error"))
        else if HasTruthy(errorData, "error") then Failure(JsString(Get(errorData, "error").value))
        else Failure("Request failed with status " + Decimal.NatToString(status))
      else
        match body
        case Failure(reason) => Failure(reason)
        case Success(data) =>
          if data == Null then Failure(NullPropertyError("response"))
          else if HasTruthy(data, "response") then Success(Get(data, "response").value)
          else Failure(InvalidFormat)
  }

  /** The one message a request adds after the user's: the agent's answer, or the failure
      reported by the `catch` block as a system message. The agent's message holds the text
      `String(response)`; the page stores `data.response` as it is, so a response that is
      not a string (a number, say) reaches `renderTextWithLinks`, whose `split` then throws
      while the page renders. */
  function ReplyMessage(reply: ServerReply, at: nat): Message {
    match ReplyOutcome(reply)
    case Success(response) => Message(JsString(response), AgentSender, at, Decimal.NatToString(at), false)
    case Failure(reason) => Message(FailedPrefix + reason, SystemSender, at, Decimal.NatToString(at), true)
  }

  /** The answer is shown from the agent exactly when the response is OK, its body parses to
      a value whose `response` is truthy; every other case is one system message flagged as
      an error, whose text starts with `Failed to send message: ` and names the cause. */
  lemma ReplyMessageOutcomes(reply: ServerReply, at: nat)
    ensures var m := ReplyMessage(reply, at);
      (m.senderAddress == AgentSender <==> !m.error) &&
      (!m.error <==> reply.Response? && reply.ok && reply.body.Success? && reply.body.value != Null &&
                     HasTruthy(reply.body.value, "response")) &&
      (m.error ==> m.senderAddress == SystemSender && StartsWith(m.content, FailedPrefix)) &&
      (reply.Unreachable? ==> m.content == FailedPrefix + reply.reason) &&
      (reply.Response? && !reply.ok && reply.body.Failure? ==> m.content == FailedPrefix + UnknownError) &&
      m.timestamp == at
  {
    var m := ReplyMessage(reply, at);
    if m.error {
      var reason := ReplyOutcome(reply).error;
      assert m.content == FailedPrefix + reason;
      assert m.content[..|FailedPrefix|] == FailedPrefix;
    }
  }

  /** The reply message is stamped with the clock reading after the answer. */
  lemma ReplyMessageStamped(reply: ServerReply, at: nat)
    ensures var m := ReplyMessage(reply, at);
      m == Message(m.content, m.senderAddress, at, Decimal.NatToString(at), m.error)
  {
  }

  /** `{role, content}` for one earlier message. */
  function HistoryEntry(m: Message, wallet: Option<string>): Json {
    Object([("role", String(if IsUserMessage(m.senderAddress, wallet) then "user" else "assistant")),
            ("content", String(m.content))])
  }

  function History(messages: seq<Message>, wallet: Option<string>): (h: seq<Json>)
    ensures |h| == |messages|
  {
    seq(|messages|, i requires 0 <= i < |messages| => HistoryEntry(messages[i], wallet))
  }

  /** The body `sendMessage` posts. */
  function RequestBody(message: string, earlier: seq<Message>, wallet: string): Json {
    Object([("message", String(message)),
            ("history", Array(History(earlier, Some(wallet)))),
            ("walletAddress", String(wallet))])
  }

  /** After a send, the next request's history is the previous one followed by the user's
      message as `user` and the reply as `assistant`. */
  lemma HistoryAfterSend(earlier: seq<Message>, wallet: string, text: string, sentAt: nat, reply: ServerReply, repliedAt: nat)
    requires wallet != AgentSender && wallet != SystemSender
    ensures var sent := earlier + [Message(text, wallet, sentAt, Decimal.NatToString(sentAt), false), ReplyMessage(reply, repliedAt)];
      History(sent, Some(wallet)) ==
        History(earlier, Some(wallet)) +
        [Object([("role", String("user")), ("content", String(text))]),
         Object([("role", String("assistant")), ("content", String(ReplyMessage(reply, repliedAt).content))])]
  {
    ReplyMessageOutcomes(reply, repliedAt);
    var sent := earlier + [Message(text, wallet, sentAt, Decimal.NatToString(sentAt), false), ReplyMessage(reply, repliedAt)];
    assert sent[|earlier|].senderAddress == wallet;
    assert sent[|earlier| + 1] == ReplyMessage(reply, repliedAt);
  }

  /** The page's state: the messages shown, the text being typed, the typing indicator. */
  class ChatView {
    var messages: seq<Message>
    var inputValue: string
    var isTyping: bool

    constructor()
      ensures messages == [] && inputValue == "" && !isTyping
    {
      messages := [];
      inputValue := "";
      isTyping := false;
    }

    /** `addMessage`: one message at the end, stamped with the clock reading `now`. */
    method AddMessage(content: string, senderAddress: string, now: nat, error: bool)
      modifies this
      ensures messages == old(messages) + [Message(content, senderAddress, now, Decimal.NatToString(now), error)]
      ensures inputValue == old(inputValue) && isTyping == old(isTyping)
    {
      messages := messages + [Message(content, senderAddress, now, Decimal.NatToString(now), error)];
    }

    /** `sendMessage`: nothing happens on blank input or without a wallet address. Otherwise
        the trimmed text is sent with the earlier messages as history and added as the
        user's message, the input is cleared, and exactly one reply message follows. */
    method SendMessage(wallet: Option<string>, reply: ServerReply, sentAt: nat, repliedAt: nat)
      returns (request: Option<Json>)
      modifies this
      ensures Trim(old(inputValue)) == "" || wallet.None? || wallet.value == "" ==>
        request.None? && messages == old(messages) && inputValue == old(inputValue) && isTyping == old(isTyping)
      ensures !(Trim(old(inputValue)) == "" || wallet.None? || wallet.value == "") ==>
        request == Some(RequestBody(Trim(old(inputValue)), old(messages), wallet.value)) &&
        messages == old(messages) + [Message(Trim(old(inputValue)), wallet.value, sentAt, Decimal.NatToString(sentAt), false),
                                     ReplyMessage(reply, repliedAt)] &&
        inputValue == "" && !isTyping
    {
      var userMessage := Trim(inputValue);
      if userMessage == "" || wallet.None? || wallet.value == "" {
        return None;
      }
      var earlier := messages;
      inputValue := "";
      AddMessage(userMessage, wallet.value, sentAt, false);
      isTyping := true;
      request := Some(RequestBody(userMessage, earlier, wallet.value));
      var answer := ReplyMessage(reply, repliedAt);
      ReplyMessageStamped(reply, repliedAt);
      AddMessage(answer.content, answer.senderAddress, repliedAt, answer.error);
      AppendTwo(earlier, Message(userMessage, wallet.value, sentAt, Decimal.NatToString(sentAt), false), answer);
      isTyping := false;
    }
  }
}
