/** The agent's blockchain helpers: address and transaction-hash validators, Base Sepolia
    explorer links, the replies the agent sends after a transaction or a deployment, and
    the contribution request (an ERC-681 `ethereum:` payment URI and its QR message). The
    QR image itself is drawn by a library that is not part of this model: operations that
    draw one take the drawing as a parameter `render`, which gives the base64 text of the
    PNG image of its argument, or `None` when drawing fails. */
module Blockchain {
  import opened Wrappers
  import opened Strings
  import Decimal
  import Json

  // Validators

  /** `s` is "0x" followed by exactly `n` hex digits of either case. */
  predicate IsPrefixedHex(s: string, n: nat) {
    |s| == n + 2 && s[0] == '0' && s[1] == 'x' && AllHexDigits(s[2..])
  }

  /** `isValidAddress`: the test of `/^0x[a-fA-F0-9]{40}$/`. */
  predicate IsValidAddress(s: string) { IsPrefixedHex(s, 40) }

  /** `isValidTxHash`: the test of `/^0x[a-fA-F0-9]{64}$/`. */
  predicate IsValidTxHash(s: string) { IsPrefixedHex(s, 64) }

  /** One position of an anchored regular expression built from single characters: a
      literal, or the class `[a-fA-F0-9]`. */
  datatype CharClass = Literal(c: char) | HexClass

  predicate ClassMatches(k: CharClass, c: char) {
    match k
    case Literal(x) => c == x
    case HexClass => IsHexDigit(c)
  }

  /** An anchored pattern (`^...$`) of single-character positions matches `s` when each
      position matches the next character and both run out together. */
  predicate Matches(pattern: seq<CharClass>, s: string)
    decreases |pattern|
  {
    if pattern == [] then s == []
    else s != [] && ClassMatches(pattern[0], s[0]) && Matches(pattern[1..], s[1..])
  }

  /** The pattern `^0x[a-fA-F0-9]{n}$`. */
  function HexPattern(n: nat): (p: seq<CharClass>)
    ensures |p| == n + 2 && p[0] == Literal('0') && p[1] == Literal('x')
    ensures forall i :: 2 <= i < |p| ==> p[i] == HexClass
  {
    [Literal('0'), Literal('x')] + seq(n, _ => HexClass)
  }

  lemma {:induction false} MatchesHexRun(n: nat, t: string)
    ensures Matches(seq(n, _ => HexClass), t) <==> |t| == n && AllHexDigits(t)
  {
    var run: seq<CharClass> := seq(n, _ => HexClass);
    if n > 0 && t != [] {
      assert run[1..] == seq(n - 1, _ => HexClass);
      MatchesHexRun(n - 1, t[1..]);
      if AllHexDigits(t[1..]) && IsHexDigit(t[0]) {
        assert forall i :: 1 <= i < |t| ==> t[i] == t[1..][i - 1];
      }
    }
  }

  /** The validators accept exactly the strings their regular expressions match. */
  lemma HexPatternMatches(s: string, n: nat)
    ensures Matches(HexPattern(n), s) <==> IsPrefixedHex(s, n)
  {
    var p := HexPattern(n);
    if |s| >= 2 {
      assert p[1..][1..] == seq(n, _ => HexClass);
      assert s[1..][1..] == s[2..];
      MatchesHexRun(n, s[2..]);
    }
  }

  lemma ValidAddressMatchesRegex(s: string)
    ensures IsValidAddress(s) <==> Matches(HexPattern(40), s)
  {
    HexPatternMatches(s, 40);
  }

  lemma ValidTxHashMatchesRegex(s: string)
    ensures IsValidTxHash(s) <==> Matches(HexPattern(64), s)
  {
    HexPatternMatches(s, 64);
  }

  // Explorer links

  const BaseScanUrl := "https://sepolia.basescan.org"

  /** The `type` argument of `generateBaseScanLink`. The declared type allows three values;
      `Unlisted` stands for any other value a JavaScript caller may pass. */
  datatype LinkType = TxLink | AddressLink | TokenLink | Unlisted

  /** `generateBaseScanLink(hash, type)`; the type defaults to a transaction link. */
  function GenerateBaseScanLink(hash: string, kind: LinkType := TxLink): string
  {
    match kind
    case TxLink => BaseScanUrl + "/tx/" + hash
    case AddressLink => BaseScanUrl + "/address/" + hash
    case TokenLink => BaseScanUrl + "/token/" + hash
    case Unlisted => BaseScanUrl + "/search?q=" + hash
  }

  /** The path that follows the explorer's origin for each kind of link. */
  function LinkPath(kind: LinkType): string {
    match kind
    case TxLink => "/tx/"
    case AddressLink => "/address/"
    case TokenLink => "/token/"
    case Unlisted => "/search?q="
  }

  /** A link is the explorer's origin, the path of its kind and the hash, and a link
      determines both its kind and its hash: no two calls with different arguments give the
      same link. */
  lemma ScanLinkDetermines(h1: string, k1: LinkType, h2: string, k2: LinkType)
    ensures GenerateBaseScanLink(h1, k1) == BaseScanUrl + LinkPath(k1) + h1
    ensures GenerateBaseScanLink(h1, k1) == GenerateBaseScanLink(h2, k2) ==> h1 == h2 && k1 == k2
  {
    ScanLinkShape(h1, k1);
    ScanLinkShape(h2, k2);
    var p1, p2 := LinkPath(k1), LinkPath(k2);
    if GenerateBaseScanLink(h1, k1) == GenerateBaseScanLink(h2, k2) {
      AfterPrefix(BaseScanUrl, p1 + h1);
      AfterPrefix(BaseScanUrl, p2 + h2);
      assert p1 + h1 == p2 + h2;
      assert (p1 + h1)[1] == p1[1] && (p1 + h1)[2] == p1[2];
      assert (p2 + h2)[1] == p2[1] && (p2 + h2)[2] == p2[2];
      LinkPathDistinct(k1, k2);
      AfterPrefix(p1, h1);
    }
  }

  lemma ScanLinkShape(h: string, k: LinkType)
    ensures GenerateBaseScanLink(h, k) == BaseScanUrl + (LinkPath(k) + h)
    ensures GenerateBaseScanLink(h, k) == BaseScanUrl + LinkPath(k) + h
  {
    AppendAssoc(BaseScanUrl, LinkPath(k), h);
  }

  /** The second and third characters of a link path tell the kinds apart. */
  lemma LinkPathDistinct(k1: LinkType, k2: LinkType)
    requires LinkPath(k1)[1] == LinkPath(k2)[1] && LinkPath(k1)[2] == LinkPath(k2)[2]
    ensures k1 == k2
  {
  }

  /** The default link is the transaction link. */
  lemma ScanLinkDefault(hash: string)
    ensures GenerateBaseScanLink(hash) == BaseScanUrl + "/tx/" + hash
  {
  }

  // Transaction replies

  /** The optional details of `formatTransactionResponse`. A block number of 0 stands for
      an absent one: both are falsy. */
  datatype TxDetails = TxDetails(
    blockNumber: nat, gasUsed: string, gasPrice: string, from: string, to: string, value: string)

  function InvalidHashText(txHash: string): string {
    "❌ Invalid Transaction Hash\n"
    + "The transaction hash '"
    + txHash
    + "' appears to be invalid."
  }

  function SuccessParts(action: string, txHash: string): (p: seq<string>)
    ensures |p| == 6 && p[0] == "✅ *" && p[1] == action
    ensures p[3] == txHash && p[5] == GenerateBaseScanLink(txHash, TxLink)
  {
    [ "✅ *"
    , action
    , " Successful!*\n"
      + "\n"
      + "🔗 *Transaction Hash:* "
    , txHash
    , "\n"
      + "   View on Base Sepolia Scan: "
    , GenerateBaseScanLink(txHash, TxLink)
    ]
  }

  function SuccessText(action: string, txHash: string): string {
    Concat(SuccessParts(action, txHash))
  }

  const DetailsHeader := "\n\n📋 *Transaction Details:*"

  /** `formatTransactionResponse(txHash, action, details)`: the reply after a transaction,
      built as the source builds it, one conditional line at a time. */
  function FormatTransactionResponse(txHash: string, action: string, details: Option<TxDetails>): (r: string)
    ensures !IsValidTxHash(txHash) ==> r == InvalidHashText(txHash)
    ensures IsValidTxHash(txHash) && details.None? ==> r == SuccessText(action, txHash)
    ensures IsValidTxHash(txHash) && details.Some? ==>
      r == SuccessText(action, txHash) + DetailsHeader + Concat(PresentLines(details.value, DetailOrder))
  {
    if !IsValidTxHash(txHash) then InvalidHashText(txHash)
    else
      var response := SuccessText(action, txHash);
      match details
      case None => response
      case Some(d) =>
        AppendDetailsLines(response + DetailsHeader, d, DetailOrder);
        AppendDetails(response + DetailsHeader, d, DetailOrder)
  }

  /** The fields of the details, in the order the reply lists them. */
  datatype DetailField = BlockNumber | GasUsed | GasPrice | From | To | Value

  const DetailOrder: seq<DetailField> := [BlockNumber, GasUsed, GasPrice, From, To, Value]

  /** The field is truthy. */
  predicate IsSet(d: TxDetails, f: DetailField) {
    match f
    case BlockNumber => d.blockNumber != 0
    case GasUsed => d.gasUsed != ""
    case GasPrice => d.gasPrice != ""
    case From => d.from != ""
    case To => d.to != ""
    case Value => d.value != ""
  }

  /** The line of the reply that shows a field. */
  function DetailLine(d: TxDetails, f: DetailField): string {
    match f
    case BlockNumber => "\n- Block Number: " + Decimal.NatToString(d.blockNumber)
    case GasUsed => "\n- Gas Used: " + d.gasUsed
    case GasPrice => "\n- Gas Price: " + d.gasPrice + " gwei"
    case From => "\n- From: " + d.from
    case To => "\n- To: " + d.to
    case Value => "\n- Value: " + d.value + " ETH"
  }

  /** The line of a field if it is set, and nothing otherwise. */
  function OptionalLine(d: TxDetails, f: DetailField): seq<string> {
    if IsSet(d, f) then [DetailLine(d, f)] else []
  }

  /** The `if (details.f) response += ...` statements for the fields `fields`, in order. */
  function AppendDetails(response: string, d: TxDetails, fields: seq<DetailField>): string
    decreases |fields|
  {
    if fields == [] then response
    else
      var next := if IsSet(d, fields[0]) then response + DetailLine(d, fields[0]) else response;
      AppendDetails(next, d, fields[1..])
  }

  /** The lines of the set fields among `fields`, in the order of `fields`. */
  function PresentLines(d: TxDetails, fields: seq<DetailField>): (r: seq<string>)
    ensures |r| <= |fields|
  {
    if fields == [] then []
    else OptionalLine(d, fields[0]) + PresentLines(d, fields[1..])
  }

  /** The lines are exactly those of the set fields: each set field has its line among
      them, and each of them is the line of a set field. */
  lemma {:induction false} PresentLinesExactly(d: TxDetails, fields: seq<DetailField>)
    ensures forall i :: 0 <= i < |fields| && IsSet(d, fields[i]) ==> DetailLine(d, fields[i]) in PresentLines(d, fields)
    ensures forall j :: 0 <= j < |PresentLines(d, fields)| ==>
      exists i :: 0 <= i < |fields| && IsSet(d, fields[i]) && PresentLines(d, fields)[j] == DetailLine(d, fields[i])
    decreases |fields|
  {
    if fields != [] {
      var o := OptionalLine(d, fields[0]);
      var rest := PresentLines(d, fields[1..]);
      PresentLinesExactly(d, fields[1..]);
      assert PresentLines(d, fields) == o + rest;
      forall i | 1 <= i < |fields|
        ensures fields[i] == fields[1..][i - 1]
      {
      }
      forall i | 0 <= i < |fields| && IsSet(d, fields[i])
        ensures DetailLine(d, fields[i]) in o + rest
      {
        if i == 0 {
          assert (o + rest)[0] == DetailLine(d, fields[0]);
        } else {
          var k :| 0 <= k < |rest| && rest[k] == DetailLine(d, fields[1..][i - 1]);
          assert (o + rest)[|o| + k] == rest[k];
        }
      }
      forall j | 0 <= j < |PresentLines(d, fields)|
        ensures exists i :: 0 <= i < |fields| && IsSet(d, fields[i]) && PresentLines(d, fields)[j] == DetailLine(d, fields[i])
      {
        if j < |o| {
          assert (o + rest)[j] == DetailLine(d, fields[0]) && IsSet(d, fields[0]);
        } else {
          var i' :| 0 <= i' < |fields[1..]| && IsSet(d, fields[1..][i']) && rest[j - |o|] == DetailLine(d, fields[1..][i']);
          assert fields[i' + 1] == fields[1..][i'];
          assert (o + rest)[j] == rest[j - |o|] == DetailLine(d, fields[i' + 1]);
        }
      }
    } else {
      assert PresentLines(d, fields) == [];
    }
  }

  /** The statements append one line per set field, in the order of the fields. */
  lemma {:induction false} AppendDetailsLines(response: string, d: TxDetails, fields: seq<DetailField>)
    ensures AppendDetails(response, d, fields) == response + Concat(PresentLines(d, fields))
    decreases |fields|
  {
    if fields != [] {
      var rest := fields[1..];
      var next := if IsSet(d, fields[0]) then response + DetailLine(d, fields[0]) else response;
      AppendDetailsLines(next, d, rest);
      var o := OptionalLine(d, fields[0]);
      NextLine(response, d, fields[0]);
      ConcatAppend(o, PresentLines(d, rest));
      AppendAssoc(response, Concat(o), Concat(PresentLines(d, rest)));
    } else {
      assert response + "" == response;
    }
  }

  lemma NextLine(response: string, d: TxDetails, f: DetailField)
    ensures (if IsSet(d, f) then response + DetailLine(d, f) else response) == response + Concat(OptionalLine(d, f))
  {
    if IsSet(d, f) {
      assert Concat([DetailLine(d, f)]) == DetailLine(d, f) + Concat([]);
    } else {
      assert response + "" == response;
    }
  }

  /** A valid hash's reply names the hash and links to it; any other hash's reply starts
      with the invalid-hash mark instead of the success mark. */
  lemma TransactionResponseLinks(txHash: string, action: string, details: Option<TxDetails>)
    ensures var r := FormatTransactionResponse(txHash, action, details);
      IsValidTxHash(txHash) ==>
        StartsWith(r, "✅") && Contains(r, txHash) && Contains(r, GenerateBaseScanLink(txHash))
    ensures StartsWith(FormatTransactionResponse(txHash, action, details), "❌") <==> !IsValidTxHash(txHash)
  {
    var r := FormatTransactionResponse(txHash, action, details);
    if IsValidTxHash(txHash) {
      var s := SuccessText(action, txHash);
      SuccessTextNames(action, txHash);
      var tail := if details.Some? then DetailsHeader + Concat(PresentLines(details.value, DetailOrder)) else "";
      if details.Some? {
        AppendAssoc(s, DetailsHeader, Concat(PresentLines(details.value, DetailOrder)));
      }
      assert r == s + tail;
      ContainsInPrefix(s, txHash, tail);
      ContainsInPrefix(s, GenerateBaseScanLink(txHash), tail);
      assert r[0] == s[0];
    } else {
      assert r[0] == '❌';
    }
  }

  /** The success text starts with the success mark and names the hash and its link. */
  lemma SuccessTextNames(action: string, txHash: string)
    ensures var s := SuccessText(action, txHash);
      |s| > 0 && s[0] == '✅' && Contains(s, txHash) && Contains(s, GenerateBaseScanLink(txHash))
  {
    var parts := SuccessParts(action, txHash);
    ConcatContains(parts, 3);
    ConcatContains(parts, 5);
    assert SuccessText(action, txHash) == parts[0] + Concat(parts[1..]);
  }

  // Deployment replies

  /** The object or text `formatDeployResponse` receives for the QR part of the reply: the
      object `generateContributionQR` returns, or a text in its place. */
  datatype QrArg = QrObject(message: string, qrCode: string) | QrText(text: string)

  /** The fixed text of the main section of the deployment reply, between the values. */
  const LiveText :=
    "* is Live!\n"
    + "\n"
    + "Your fundraiser has been successfully deployed on Base Sepolia!\n"
    + "\n"
    + "📋 *Deployment Progress:* \n"
    + "✅ Step 1/5: Parameters prepared\n"
    + "✅ Step 2/5: Validation completed  \n"
    + "✅ Step 3/5: Gas optimized for speed\n"
    + "✅ Step 4/5: Transaction submitted\n"
    + "✅ Step 5/5: Blockchain confirmation received\n"
    + "\n"
    + "📋 *Details:*\n"
    + "• Goal: "
  const ContractLabel := " ETH\n" + "• Contract: "
  const ViewAt := " (view at "
  const TransactionLabel := ")\n" + "• Transaction: "
  const ShareText :=
    ")\n"
    + "\n"
    + "🚀 *Your fundraiser is now ready to receive contributions!*\n"
    + "\n"
    + "*Share these details:*\n"
    + "- Contract Address: "
  const GoalLabel := "\n" + "- Goal Amount: "
  const HelpText :=
    " ETH\n"
    + "- Network: Base Sepolia\n"
    + "\n"
    + "*Need help?* Ask me to generate additional QR codes "
    + "for different contribution amounts!"

  /** The parts of the main section of the deployment reply. */
  function DeployMainParts(contractAddress: string, txHash: string, fundraiserName: string, goalAmount: string): (p: seq<string>)
    ensures |p| == 17
    ensures p[3] == goalAmount && p[13] == contractAddress
    ensures p[7] == GenerateBaseScanLink(contractAddress, AddressLink) && p[11] == GenerateBaseScanLink(txHash, TxLink)
  {
    [ "🎉 *", fundraiserName, LiveText, goalAmount
    , ContractLabel, ShortForm(contractAddress), ViewAt, GenerateBaseScanLink(contractAddress, AddressLink)
    , TransactionLabel, ShortForm(txHash), ViewAt, GenerateBaseScanLink(txHash, TxLink)
    , ShareText, contractAddress, GoalLabel, goalAmount, HelpText
    ]
  }

  /** The main section of the deployment reply. */
  function DeployMainText(contractAddress: string, txHash: string, fundraiserName: string, goalAmount: string): string {
    Concat(DeployMainParts(contractAddress, txHash, fundraiserName, goalAmount))
  }

  /** The object `{message, qrCode}` as `JSON.stringify` sees it, keys in that order. */
  function QrJson(message: string, qrCode: string): Json.Json {
    Json.Object([("message", Json.String(message)), ("qrCode", Json.String(qrCode))])
  }

  /** `formatDeployResponse(...)`, with `JSON.parse` as the parameter `parse`. */
  function FormatDeployResponse(contractAddress: string, txHash: string, fundraiserName: string,
                                goalAmount: string, qr: QrArg, parse: string -> Option<Json.Json>): (r: string)
    ensures StartsWith(r, DeployMainText(contractAddress, txHash, fundraiserName, goalAmount))
    ensures qr.QrText? ==> r == DeployMainText(contractAddress, txHash, fundraiserName, goalAmount) + "\n\n" + qr.text
  {
    var main := DeployMainText(contractAddress, txHash, fundraiserName, goalAmount);
    var qrPart := (
      match qr
      case QrObject(message, qrCode) =>
        if qrCode != "" && message != "" then "\n\n" + Json.Stringify(QrJson(message, qrCode))
        else ""
      case QrText(text) =>
        AppendAssoc(main, "\n\n", text);
        match parse(text)
        case None =>
          // not JSON: the parse throws and the catch appends the text
          "\n\n" + text
        case Some(v) =>
          // `null.qrCode` throws as well, and lands in the same catch
          if v != Json.Null && Json.HasTruthy(v, "qrCode") && Json.HasTruthy(v, "message") then
            "\n\n" + text
          else
            "\n\n" + text);
    StartsWithAppend(main, qrPart);
    main + qrPart
  }

  /** The reply starts with the main section, whatever the QR argument, and the main
      section names the full contract address, the goal and both explorer links. */
  lemma DeployResponseMain(contractAddress: string, txHash: string, fundraiserName: string,
                           goalAmount: string, qr: QrArg, parse: string -> Option<Json.Json>)
    ensures var main := DeployMainText(contractAddress, txHash, fundraiserName, goalAmount);
      StartsWith(FormatDeployResponse(contractAddress, txHash, fundraiserName, goalAmount, qr, parse), main)
    ensures var main := DeployMainText(contractAddress, txHash, fundraiserName, goalAmount);
      Contains(main, contractAddress) && Contains(main, goalAmount) &&
      Contains(main, GenerateBaseScanLink(contractAddress, AddressLink)) &&
      Contains(main, GenerateBaseScanLink(txHash, TxLink))
  {
    DeployMainNames(contractAddress, txHash, fundraiserName, goalAmount);
  }

  lemma DeployMainNames(contractAddress: string, txHash: string, fundraiserName: string, goalAmount: string)
    ensures var main := DeployMainText(contractAddress, txHash, fundraiserName, goalAmount);
      Contains(main, contractAddress) && Contains(main, goalAmount) &&
      Contains(main, GenerateBaseScanLink(contractAddress, AddressLink)) &&
      Contains(main, GenerateBaseScanLink(txHash, TxLink))
  {
    DeployMainHas(contractAddress, txHash, fundraiserName, goalAmount, 13);
    DeployMainHas(contractAddress, txHash, fundraiserName, goalAmount, 3);
    DeployMainHas(contractAddress, txHash, fundraiserName, goalAmount, 7);
    DeployMainHas(contractAddress, txHash, fundraiserName, goalAmount, 11);
  }

  lemma DeployMainHas(contractAddress: string, txHash: string, fundraiserName: string, goalAmount: string, i: nat)
    requires i < 17
    ensures Contains(DeployMainText(contractAddress, txHash, fundraiserName, goalAmount),
                     DeployMainParts(contractAddress, txHash, fundraiserName, goalAmount)[i])
  {
    ConcatContains(DeployMainParts(contractAddress, txHash, fundraiserName, goalAmount), i);
  }

  /** The QR part of the deployment reply:
      an object with a non-empty code and message adds its JSON text, and `JSON.parse`
      reads that text back to the same message and code; an object missing either adds
      nothing; a text is added as it is, whether or not it is JSON and whatever fields it
      has. */
  lemma DeployResponseTail(contractAddress: string, txHash: string, fundraiserName: string,
                           goalAmount: string, qr: QrArg, parse: string -> Option<Json.Json>)
    requires Json.InvertsStringify(parse)
    ensures var main := DeployMainText(contractAddress, txHash, fundraiserName, goalAmount);
      var r := FormatDeployResponse(contractAddress, txHash, fundraiserName, goalAmount, qr, parse);
      match qr
      case QrObject(message, qrCode) =>
        if qrCode != "" && message != "" then
          |r| > |main| + 2 && r[..|main| + 2] == main + "\n\n" &&
          var v := parse(r[|main| + 2..]);
          v.Some? && v.value != Json.Null &&
          Json.GetString(v.value, "message") == Some(message) &&
          Json.GetString(v.value, "qrCode") == Some(qrCode)
        else r == main
      case QrText(text) => r == main + "\n\n" + text
  {
    var main := DeployMainText(contractAddress, txHash, fundraiserName, goalAmount);
    if qr.QrObject? && qr.qrCode != "" && qr.message != "" {
      AppendAssoc(main, "\n\n", Json.Stringify(QrJson(qr.message, qr.qrCode)));
      QrJsonReadsBack(main, qr.message, qr.qrCode, parse);
    }
  }

  /** `JSON.parse` reads the QR object back from the text after the blank line. */
  lemma QrJsonReadsBack(main: string, message: string, qrCode: string, parse: string -> Option<Json.Json>)
    requires Json.InvertsStringify(parse)
    ensures var r := main + "\n\n" + Json.Stringify(QrJson(message, qrCode));
      |r| > |main| + 2 && r[..|main| + 2] == main + "\n\n" &&
      var v := parse(r[|main| + 2..]);
      v.Some? && v.value != Json.Null &&
      Json.GetString(v.value, "message") == Some(message) &&
      Json.GetString(v.value, "qrCode") == Some(qrCode)
  {
    var j := QrJson(message, qrCode);
    var t := Json.Stringify(j);
    var r := main + "\n\n" + t;
    assert t[0] == '{';
    assert r == (main + "\n\n") + t;
    assert r[|main| + 2..] == t;
    Json.ParseStringified(parse, j);
    Json.LookupDistinct(j.members, 0);
    Json.LookupDistinct(j.members, 1);
  }

  /** What `JSON.parse` makes of a text argument does not change the reply. */
  lemma DeployResponseIgnoresParse(contractAddress: string, txHash: string, fundraiserName: string,
                                   goalAmount: string, text: string,
                                   parse1: string -> Option<Json.Json>, parse2: string -> Option<Json.Json>)
    ensures FormatDeployResponse(contractAddress, txHash, fundraiserName, goalAmount, QrText(text), parse1)
         == FormatDeployResponse(contractAddress, txHash, fundraiserName, goalAmount, QrText(text), parse2)
  {
  }

  // Contribution requests

  /** `generateQRCode(data, description)`: the base64 text of the drawn image, or the
      error it throws when drawing fails. */
  function GenerateQRCode(render: string -> Option<string>, data: string, description: string := "QR Code"): Result<string, string>
  {
    match render(data)
    case Some(b64) => Success(b64)
    case None => Failure("QR Code Generation Failed for " + description)
  }

  /** The message of the error `ethers.parseEther` throws, without the details ethers
      appends to it. */
  function EtherErrorMessage(e: Decimal.EtherError): string {
    match e
    case InvalidFixedNumber => "invalid FixedNumber string value"
    case TooManyDecimals => "too many decimals for format"
  }

  /** The ERC-681 transaction request that pays `wei` to `walletAddress`. */
  function PaymentUri(walletAddress: string, wei: int): string {
    "ethereum:" + walletAddress + "?value=" + Decimal.IntToString(wei)
  }

  /** The reader of the payment URIs `PaymentUri` writes for non-negative amounts: the
      target address and the amount in wei. */
  function ReadPaymentUri(uri: string): Option<(string, nat)> {
    if !StartsWith(uri, "ethereum:") then None
    else
      var rest := uri[9..];
      if '?' !in rest then None
      else
        var q := IndexOfChar(rest, '?');
        var query := rest[q + 1..];
        if StartsWith(query, "value=") && |query| > 6 && AllDigits(query[6..]) then
          Some((rest[..q], Decimal.DigitsValue(query[6..])))
        else None
  }

  /** The payment URI of a valid address reads back to that address and amount. */
  lemma ReadPaymentUriInverse(walletAddress: string, wei: nat)
    requires IsValidAddress(walletAddress)
    ensures ReadPaymentUri(PaymentUri(walletAddress, wei)) == Some((walletAddress, wei))
  {
    var digits := Decimal.NatToString(wei);
    NoQueryMarkInAddress(walletAddress);
    ReadPaymentUriOf(walletAddress, digits);
    Decimal.DigitsValueOfNatToString(wei);
  }

  lemma NoQueryMarkInAddress(walletAddress: string)
    requires IsValidAddress(walletAddress)
    ensures '?' !in walletAddress
  {
    forall i | 0 <= i < |walletAddress| ensures walletAddress[i] != '?' {
      if i >= 2 {
        assert walletAddress[i] == walletAddress[2..][i - 2];
      }
    }
  }

  /** The reader takes the text before the first `?` as the address and the digits after
      `value=` as the amount. */
  lemma ReadPaymentUriOf(walletAddress: string, digits: string)
    requires '?' !in walletAddress && |digits| > 0 && AllDigits(digits)
    ensures ReadPaymentUri("ethereum:" + walletAddress + "?value=" + digits)
         == Some((walletAddress, Decimal.DigitsValue(digits)))
  {
    UriRest(walletAddress, digits);
    RestQuery(walletAddress, digits);
    AfterPrefix("value=", digits);
  }

  lemma UriRest(walletAddress: string, digits: string)
    ensures var uri := "ethereum:" + walletAddress + "?value=" + digits;
      StartsWith(uri, "ethereum:") && uri[9..] == walletAddress + "?value=" + digits
  {
    AppendAssoc("ethereum:", walletAddress + "?value=", digits);
    AppendAssoc("ethereum:", walletAddress, "?value=");
    AfterPrefix("ethereum:", walletAddress + "?value=" + digits);
  }

  lemma RestQuery(walletAddress: string, digits: string)
    requires '?' !in walletAddress
    ensures var rest := walletAddress + "?value=" + digits;
      '?' in rest && IndexOfChar(rest, '?') == |walletAddress| &&
      rest[..|walletAddress|] == walletAddress && rest[|walletAddress| + 1..] == "value=" + digits
  {
    var rest := walletAddress + "?value=" + digits;
    var query := "value=" + digits;
    AppendAssoc(walletAddress, "?value=", digits);
    assert "?value=" + digits == "?" + query;
    AppendAssoc(walletAddress, "?", query);
    AfterPrefix(walletAddress + "?", query);
    AfterPrefix(walletAddress, "?" + query);
    assert rest[|walletAddress|] == '?';
    IndexOfCharFirst(rest, '?', |walletAddress|);
  }

  /** What `generateContributionQR` returns. */
  datatype QrReply = QrReply(message: string, qrCode: string)

  /** The fixed text of the contribution message, between the values. */
  const ScanLabel := "📱 Scan to Contribute "
  const NameLabel := " ETH\n" + "\n" + "🎯 **"
  const AmountLabel := "**\n" + "💰 Amount: "
  const ContractLinkLabel := " ETH\n" + "📍 Contract: ["
  const LinkOpen := "]("
  const ScanHelp :=
    ")\n"
    + "\n"
    + "Scan with your mobile wallet and confirm the transaction "
    + "to support this fundraiser!"

  function ContributionMessageParts(walletAddress: string, amount: string, fundraiserName: string): (p: seq<string>)
    ensures |p| == 11
    ensures p[1] == amount && p[3] == fundraiserName && p[7] == ShortForm(walletAddress)
    ensures p[9] == GenerateBaseScanLink(walletAddress, AddressLink)
  {
    [ ScanLabel, amount, NameLabel, fundraiserName, AmountLabel, amount
    , ContractLinkLabel, ShortForm(walletAddress), LinkOpen
    , GenerateBaseScanLink(walletAddress, AddressLink), ScanHelp
    ]
  }

  const PngDataPrefix := "data:image/png;base64,"
  const QrFailedPrefix := "QR Code Generation Failed: "

  /** `generateContributionQR(walletAddress, amount, fundraiserName)`: the QR code of the
      payment of `amount` ether to the address, and its chat message; an error text when
      `parseEther` rejects the amount or the drawing fails. */
  function GenerateContributionQR(walletAddress: string, amount: string, fundraiserName: string,
                                  render: string -> Option<string>): (r: Result<QrReply, string>)
    ensures r.Failure? <==>
      Decimal.ParseEther(amount).Failure? || render(PaymentUri(walletAddress, Decimal.ParseEther(amount).value)).None?
    ensures r.Failure? ==> StartsWith(r.error, QrFailedPrefix)
    ensures r.Success? ==> StartsWith(r.value.qrCode, PngDataPrefix)
  {
    match Decimal.ParseEther(amount)
    case Failure(e) =>
      StartsWithAppend(QrFailedPrefix, EtherErrorMessage(e));
      Failure(QrFailedPrefix + EtherErrorMessage(e))
    case Success(wei) =>
      var paymentData := PaymentUri(walletAddress, wei);
      var description := "Contribution QR for " + fundraiserName;
      match GenerateQRCode(render, paymentData, description)
      case Failure(message) =>
        StartsWithAppend(QrFailedPrefix, message);
        Failure(QrFailedPrefix + message)
      case Success(b64) =>
        StartsWithAppend(PngDataPrefix, b64);
        Success(QrReply(Concat(ContributionMessageParts(walletAddress, amount, fundraiserName)), PngDataPrefix + b64))
  }

  /** For an amount `formatEther` printed, the image drawn is of the payment URI of exactly
      that many wei, the code is that image as a PNG data URL, and the message names the
      fundraiser, the amount, the short address and the address's explorer link; when the
      drawing fails, the error names the fundraiser. */
  lemma ContributionQRPayment(walletAddress: string, wei: nat, fundraiserName: string, render: string -> Option<string>)
    ensures var uri := "ethereum:" + walletAddress + "?value=" + Decimal.NatToString(wei);
      var r := GenerateContributionQR(walletAddress, Decimal.FormatEther(wei), fundraiserName, render);
      (r.Success? <==> render(uri).Some?) &&
      (r.Success? ==> r.value.qrCode == PngDataPrefix + render(uri).value) &&
      (r.Failure? ==> r.error == "QR Code Generation Failed: " + ("QR Code Generation Failed for " + ("Contribution QR for " + fundraiserName)))
    ensures var r := GenerateContributionQR(walletAddress, Decimal.FormatEther(wei), fundraiserName, render);
      r.Success? ==>
        Contains(r.value.message, fundraiserName) && Contains(r.value.message, Decimal.FormatEther(wei)) &&
        Contains(r.value.message, ShortForm(walletAddress)) &&
        Contains(r.value.message, GenerateBaseScanLink(walletAddress, AddressLink))
  {
    var amount := Decimal.FormatEther(wei);
    Decimal.ParseFormatEther(wei);
    ContributionQRParsed(walletAddress, amount, wei, fundraiserName, render);
    ContributionMessageNames(walletAddress, amount, fundraiserName);
  }

  lemma ContributionQRParsed(walletAddress: string, amount: string, wei: nat, fundraiserName: string,
                             render: string -> Option<string>)
    requires Decimal.ParseEther(amount) == Success(wei)
    ensures var uri := "ethereum:" + walletAddress + "?value=" + Decimal.NatToString(wei);
      var r := GenerateContributionQR(walletAddress, amount, fundraiserName, render);
      (r.Success? <==> render(uri).Some?) &&
      (r.Success? ==> r.value.qrCode == PngDataPrefix + render(uri).value &&
                      r.value.message == Concat(ContributionMessageParts(walletAddress, amount, fundraiserName))) &&
      (r.Failure? ==> r.error == "QR Code Generation Failed: " + ("QR Code Generation Failed for " + ("Contribution QR for " + fundraiserName)))
  {
    assert PaymentUri(walletAddress, wei) == "ethereum:" + walletAddress + "?value=" + Decimal.NatToString(wei);
  }

  lemma ContributionMessageNames(walletAddress: string, amount: string, fundraiserName: string)
    ensures var m := Concat(ContributionMessageParts(walletAddress, amount, fundraiserName));
      Contains(m, fundraiserName) && Contains(m, amount) && Contains(m, ShortForm(walletAddress)) &&
      Contains(m, GenerateBaseScanLink(walletAddress, AddressLink))
  {
    var parts := ContributionMessageParts(walletAddress, amount, fundraiserName);
    ConcatContains(parts, 1);
    ConcatContains(parts, 3);
    ConcatContains(parts, 7);
    ConcatContains(parts, 9);
  }

  /** An amount `parseEther` rejects is reported with ethers' reason, and nothing is drawn. */
  lemma ContributionQRRejects(walletAddress: string, amount: string, fundraiserName: string,
                              render1: string -> Option<string>, render2: string -> Option<string>)
    requires Decimal.ParseEther(amount).Failure?
    ensures var r := GenerateContributionQR(walletAddress, amount, fundraiserName, render1);
      r.Failure? && r.error == "QR Code Generation Failed: " + EtherErrorMessage(Decimal.ParseEther(amount).error)
    ensures GenerateContributionQR(walletAddress, amount, fundraiserName, render1)
         == GenerateContributionQR(walletAddress, amount, fundraiserName, render2)
  {
  }

  /** `ShortForm` of a valid address is its first six characters, "..." and its last four. */
  lemma ShortFormOfAddress(a: string)
    requires IsValidAddress(a)
    ensures var r := ShortForm(a);
      |r| == 13 && r[..6] == a[..6] && r[6..9] == "..." && r[9..] == a[38..]
  {
  }
}
