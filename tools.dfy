/** The agent's blockchain tools other than deployment (index.ts): the contribution QR code,
    the contributor list, the fundraiser status, the wallet balance and sending funds. Each
    checks its input before it touches the provider; what the provider, the contract, the
    name service and the wallet answer are parameters, as the result or as the message of
    the error they throw. */
module Tools {
  import opened Wrappers
  import opened Strings
  import Json
  import Decimal
  import opened Blockchain

  /** The reply of a tool given an address `isValidAddress` rejects; `what` names the
      address ("contract", "beneficiary" or "wallet"). */
  function InvalidAddressReply(what: string, address: string): string {
    "❌ Invalid Address\nThe " + what + " address `" + address + "` is not valid. Please check and try again."
  }

  /** `${a.slice(0, 6)}...${a.slice(-4)}` and the explorer link of an address. */
  function AddressLinkOf(address: string): string { GenerateBaseScanLink(address, AddressLink) }

  // parseAmountFromInput

  const AmountErrorHead := "Could not parse amount from: \""
  const AmountErrorTail :=
      "\". Please specify the amount clearly (e.g., \"0.1 ETH\" or \"100 USDC worth of ETH\")."

  /** The message `parseAmountFromInput` throws when none of its patterns matches: it
      quotes the input. */
  function AmountParseError(input: string): (m: string)
    ensures StartsWith(m, AmountErrorHead) && OccursAt(m, input, |AmountErrorHead|)
    ensures Contains(m, input)
  {
    assert OccursAt(input, input, 0);
    ContainsInMiddle(AmountErrorHead, input, AmountErrorTail, input);
    AppendAssoc(AmountErrorHead, input, AmountErrorTail);
    StartsWithAppend(AmountErrorHead, input + AmountErrorTail);
    AmountErrorHead + input + AmountErrorTail
  }

  /** `parseAmountFromInput`: the amount its first matching pattern finds, or the error it
      throws when none matches. `amountIn` stands for the pattern search and the float
      arithmetic (`parseFloat`, the conversion of a dollar amount at 2000 to the ether and
      `toFixed(6)`): the amount text it gives, or `None` when no pattern matches. */
  function ParseAmountFromInput(input: string, amountIn: string -> Option<string>): (r: Result<string, string>)
    ensures r.Failure? <==> amountIn(input).None?
    ensures r.Failure? ==> Contains(r.error, input)
  {
    match amountIn(input)
    case Some(amount) => Success(amount)
    case None => Failure(AmountParseError(input))
  }

  /** `s.toLowerCase()` mentions dollars (`usd` or `dollar`). Lower-casing the ASCII letters
      alone decides this: the only other characters that lower-case to ASCII letters give
      an `i` or a `k`. */
  predicate MentionsDollars(s: string) {
    Contains(LowerAscii(s), "usd") || Contains(LowerAscii(s), "dollar")
  }

  // generate_contribution_qr_code

  const QrErrorHead := "❌ QR Code Error\nI encountered an error while generating the QR code: "

  function QrErrorReply(message: string): (r: string)
    ensures StartsWith(r, QrErrorHead) && EndsWith(r, message)
  {
    StartsWithAppend(QrErrorHead, message);
    EndsWithAppend(QrErrorHead, message);
    QrErrorHead + message
  }

  /** The QR tool: the JSON text of the QR object, or the reply to the error
      `generateContributionQR` threw. `render` draws the QR image. */
  function QrCodeTool(contractAddress: string, amountInEth: string, fundraiserName: string,
                      render: string -> Option<string>): (r: string)
    ensures !IsValidAddress(contractAddress) ==> r == InvalidAddressReply("contract", contractAddress)
    ensures IsValidAddress(contractAddress) ==>
      match GenerateContributionQR(contractAddress, amountInEth, fundraiserName, render)
      case Success(qr) => r == Json.Stringify(QrJson(qr.message, qr.qrCode))
      case Failure(message) => StartsWith(r, QrErrorHead) && EndsWith(r, message)
  {
    if !IsValidAddress(contractAddress) then InvalidAddressReply("contract", contractAddress)
    else match GenerateContributionQR(contractAddress, amountInEth, fundraiserName, render)
      case Success(qr) => Json.Stringify(QrJson(qr.message, qr.qrCode))
      case Failure(message) => QrErrorReply(message)
  }

  /** A valid address gives the QR object as JSON text, which `JSON.parse` reads back. */
  lemma QrCodeToolJson(contractAddress: string, amountInEth: string, fundraiserName: string,
                       render: string -> Option<string>, parse: string -> Option<Json.Json>)
    requires IsValidAddress(contractAddress) && Json.InvertsStringify(parse)
    requires GenerateContributionQR(contractAddress, amountInEth, fundraiserName, render).Success?
    ensures var qr := GenerateContributionQR(contractAddress, amountInEth, fundraiserName, render).value;
      parse(QrCodeTool(contractAddress, amountInEth, fundraiserName, render)) == Some(QrJson(qr.message, qr.qrCode))
  {
  }

  // get_fundraiser_contributors

  /** A contributor's address and the name the reverse lookup found, if any. */
  datatype Contributor = Contributor(address: string, ensName: Option<string>)

  /** `ensName || "N/A"`, then the short address in place of `N/A`. */
  function DisplayName(c: Contributor): string {
    var ens := if c.ensName.Some? && c.ensName.value != "" then c.ensName.value else "N/A";
    if ens == "N/A" then ShortForm(c.address) else ens
  }

  /** One line of the contributor list. */
  function ContributorLine(c: Contributor): string {
    "- " + DisplayName(c) + ": [`" + ShortForm(c.address) + "`](" + AddressLinkOf(c.address) + ")"
  }

  function ContributorLines(cs: seq<Contributor>): (r: seq<string>)
    ensures |r| == |cs|
    ensures forall i :: 0 <= i < |cs| ==> r[i] == ContributorLine(cs[i])
  {
    if cs == [] then [] else [ContributorLine(cs[0])] + ContributorLines(cs[1..])
  }

  /** The list as written: `.join('\\n')` puts a backslash and an `n`, not a line break,
      between two lines. */
  function ContributorListAsWritten(cs: seq<Contributor>): string {
    Join(ContributorLines(cs), "\\n")
  }

  /** The list as intended: one contributor per line. */
  function ContributorList(cs: seq<Contributor>): string {
    Join(ContributorLines(cs), "\n")
  }

  function ContractFooter(contractAddress: string): string {
    "🔍 View Contract: [" + ShortForm(contractAddress) + "](" + AddressLinkOf(contractAddress) + ")"
  }

  const NoContributionsText :=
      "🤔 No Contributions Yet\nThis fundraiser hasn't received " +
      "any contributions. Be the first!\n\n"

  const ContributorsHead :=
      "👥 Contributors for Fundraiser\n" +
      "\nHere are the amazing people who have contributed:\n"

  const ContributorsErrorHead :=
      "❌ Could Not Get Contributors\n" +
      "I was unable to fetch the contributor list for this " +
      "fundraiser.\nError: "

  /** The reply listing the contributors `cs`, their lines joined by `sep`. */
  function ContributorsReply(contractAddress: string, cs: seq<Contributor>, sep: string): string {
    if cs == [] then NoContributionsText + ContractFooter(contractAddress)
    else ContributorsHead + Join(ContributorLines(cs), sep) + ("\n\n---\n" + ContractFooter(contractAddress))
  }

  /** The reply ends with the contract's footer and holds each contributor's line. */
  lemma ContributorsListed(contractAddress: string, cs: seq<Contributor>, sep: string)
    ensures var r := ContributorsReply(contractAddress, cs, sep);
      EndsWith(r, ContractFooter(contractAddress)) &&
      (cs == [] ==> StartsWith(r, NoContributionsText)) &&
      forall i :: 0 <= i < |cs| ==> Contains(r, ContributorLine(cs[i]))
  {
    var footer := ContractFooter(contractAddress);
    if cs == [] {
      EndsWithAppend(NoContributionsText, footer);
      StartsWithAppend(NoContributionsText, footer);
    } else {
      var list := Join(ContributorLines(cs), sep);
      var tail := "\n\n---\n" + footer;
      AppendAssoc(ContributorsHead + list, "\n\n---\n", footer);
      EndsWithAppend(ContributorsHead + list + "\n\n---\n", footer);
      forall i | 0 <= i < |cs|
        ensures Contains(ContributorsHead + list + tail, ContributorLine(cs[i]))
      {
        JoinContains(ContributorLines(cs), sep, i);
        ContainsInMiddle(ContributorsHead, list, tail, ContributorLine(cs[i]));
      }
    }
  }

  /** The contributors tool with its lines joined by `sep`. */
  function ContributorsToolJoined(contractAddress: string, contributors: Result<seq<Contributor>, string>,
                                  sep: string): (r: string)
    ensures !IsValidAddress(contractAddress) ==> r == InvalidAddressReply("contract", contractAddress)
    ensures IsValidAddress(contractAddress) && contributors.Failure? ==> EndsWith(r, contributors.error)
    ensures IsValidAddress(contractAddress) && contributors.Success? ==>
      EndsWith(r, ContractFooter(contractAddress)) &&
      (contributors.value == [] ==> StartsWith(r, NoContributionsText)) &&
      forall i :: 0 <= i < |contributors.value| ==> Contains(r, ContributorLine(contributors.value[i]))
  {
    if !IsValidAddress(contractAddress) then InvalidAddressReply("contract", contractAddress)
    else match contributors
      case Success(cs) =>
        ContributorsListed(contractAddress, cs, sep);
        ContributorsReply(contractAddress, cs, sep)
      case Failure(message) =>
        EndsWithAppend(ContributorsErrorHead, message);
        ContributorsErrorHead + message
  }

  /** The contributors tool as written: `contributors` is what `getContributors()` and the
      name lookups give, or the message of the error the call threw. The lines are joined
      with `'\\n'`, a backslash and an `n`. */
  function ContributorsToolAsWritten(contractAddress: string, contributors: Result<seq<Contributor>, string>): (r: string)
    ensures !IsValidAddress(contractAddress) ==> r == InvalidAddressReply("contract", contractAddress)
    ensures IsValidAddress(contractAddress) && contributors.Failure? ==> EndsWith(r, contributors.error)
    ensures IsValidAddress(contractAddress) && contributors.Success? ==>
      EndsWith(r, ContractFooter(contractAddress)) &&
      (contributors.value == [] ==> StartsWith(r, NoContributionsText)) &&
      forall i :: 0 <= i < |contributors.value| ==> Contains(r, ContributorLine(contributors.value[i]))
  {
    ContributorsToolJoined(contractAddress, contributors, "\\n")
  }

  /** The contributors tool as intended: one contributor per line. */
  function ContributorsTool(contractAddress: string, contributors: Result<seq<Contributor>, string>): (r: string)
    ensures !IsValidAddress(contractAddress) ==> r == InvalidAddressReply("contract", contractAddress)
    ensures IsValidAddress(contractAddress) && contributors.Failure? ==> EndsWith(r, contributors.error)
    ensures IsValidAddress(contractAddress) && contributors.Success? ==>
      EndsWith(r, ContractFooter(contractAddress)) &&
      (contributors.value == [] ==> StartsWith(r, NoContributionsText)) &&
      forall i :: 0 <= i < |contributors.value| ==> Contains(r, ContributorLine(contributors.value[i]))
  {
    ContributorsToolJoined(contractAddress, contributors, "\n")
  }

  /** The written and the intended tool give the same reply for at most one contributor;
      from two contributors on, the written reply is longer by one character for each
      separator, so the two differ. */
  lemma ContributorsToolAgreesAsWritten(contractAddress: string, contributors: Result<seq<Contributor>, string>)
    ensures !IsValidAddress(contractAddress) || contributors.Failure? || |contributors.value| <= 1 ==>
      ContributorsToolAsWritten(contractAddress, contributors) == ContributorsTool(contractAddress, contributors)
    ensures IsValidAddress(contractAddress) && contributors.Success? && |contributors.value| >= 2 ==>
      |ContributorsToolAsWritten(contractAddress, contributors)|
      == |ContributorsTool(contractAddress, contributors)| + |contributors.value| - 1
  {
    if IsValidAddress(contractAddress) && contributors.Success? {
      ContributorsReplySeparators(contractAddress, contributors.value, "\n", "\\n");
    }
  }

  /** Two separators give the same reply for at most one contributor, and otherwise replies
      whose lengths differ by the separators' difference once per pair of neighbours. */
  lemma ContributorsReplySeparators(contractAddress: string, cs: seq<Contributor>, sep1: string, sep2: string)
    ensures |cs| <= 1 ==> ContributorsReply(contractAddress, cs, sep1) == ContributorsReply(contractAddress, cs, sep2)
    ensures |cs| >= 1 ==>
      |ContributorsReply(contractAddress, cs, sep2)|
      == |ContributorsReply(contractAddress, cs, sep1)| + (|cs| - 1) * (|sep2| - |sep1|)
  {
    if |cs| >= 1 {
      var lines := ContributorLines(cs);
      var fixed := |ContributorsHead| + |"\n\n---\n" + ContractFooter(contractAddress)|;
      var n := |cs| - 1;
      JoinLength(lines, sep1);
      JoinLength(lines, sep2);
      assert |ContributorsReply(contractAddress, cs, sep1)| == fixed + |Concat(lines)| + n * |sep1|;
      assert |ContributorsReply(contractAddress, cs, sep2)| == fixed + |Concat(lines)| + n * |sep2|;
      assert n * |sep2| == n * |sep1| + n * (|sep2| - |sep1|);
    }
  }

  /** A text without line breaks. */
  predicate SingleLine(s: string) { '\n' !in s }

  lemma SingleLineConcat(a: string, b: string)
    requires SingleLine(a) && SingleLine(b)
    ensures SingleLine(a + b)
  {
  }

  lemma ShortFormSingleLine(s: string)
    requires SingleLine(s)
    ensures SingleLine(ShortForm(s))
  {
    assert forall c :: c in Take(s, 6) ==> c in s;
    assert forall c :: c in TakeLast(s, 4) ==> c in s;
    SingleLineConcat(Take(s, 6), "...");
    SingleLineConcat(Take(s, 6) + "...", TakeLast(s, 4));
  }

  /** A contributor's line has no line break when the address and the name have none. */
  lemma ContributorLineSingle(c: Contributor)
    requires SingleLine(c.address) && (c.ensName.Some? ==> SingleLine(c.ensName.value))
    ensures SingleLine(ContributorLine(c))
  {
    ShortFormSingleLine(c.address);
    LinkSingleLine(c.address);
    assert SingleLine(DisplayName(c));
    assert SingleLine("- ") && SingleLine(": [`") && SingleLine("`](") && SingleLine(")");
  }

  lemma LinkSingleLine(address: string)
    requires SingleLine(address)
    ensures SingleLine(AddressLinkOf(address))
  {
    assert SingleLine(BaseScanUrl) && SingleLine("/address/");
  }

  /** The texts of contributors whose addresses and names have no line breaks. */
  predicate PlainContributors(cs: seq<Contributor>) {
    forall i :: 0 <= i < |cs| ==> SingleLine(cs[i].address) && (cs[i].ensName.Some? ==> SingleLine(cs[i].ensName.value))
  }

  lemma {:induction false} JoinSingleLine(parts: seq<string>, sep: string)
    requires SingleLine(sep)
    requires forall i :: 0 <= i < |parts| ==> SingleLine(parts[i])
    ensures SingleLine(Join(parts, sep))
    decreases |parts|
  {
    if |parts| > 1 {
      JoinSingleLine(parts[1..], sep);
      SingleLineConcat(parts[0], sep);
      SingleLineConcat(parts[0] + sep, Join(parts[1..], sep));
      assert Join(parts, sep) == parts[0] + sep + Join(parts[1..], sep);
    }
  }

  /** As written, the whole list is a single line, however many contributors there are. */
  lemma ContributorListOneLine(cs: seq<Contributor>)
    requires PlainContributors(cs)
    ensures SingleLine(ContributorListAsWritten(cs))
  {
    var lines := ContributorLines(cs);
    forall i | 0 <= i < |lines|
      ensures SingleLine(lines[i])
    {
      ContributorLineSingle(cs[i]);
    }
    assert "\\n"[0] == '\\' && "\\n"[1] == 'n';
    JoinSingleLine(lines, "\\n");
  }

  /** As intended, the list's lines are exactly the contributors' lines, in order. */
  lemma ContributorListLines(cs: seq<Contributor>)
    requires cs != [] && PlainContributors(cs)
    ensures Split(ContributorList(cs), '\n') == ContributorLines(cs)
  {
    var lines := ContributorLines(cs);
    forall i | 0 <= i < |lines|
      ensures '\n' !in lines[i]
    {
      ContributorLineSingle(cs[i]);
    }
    SplitJoin(lines, '\n');
  }

  // check_fundraiser_status

  const ActiveText := "✅ Active: This fundraiser is currently accepting contributions."
  const EndedText :=
      "❌ Ended: This fundraiser has ended and can no longer " +
      "accept contributions."

  /** The status tool. `isActive` is what `isFundraiserActive()` answers, or the message of
      the error the call threw. */
  function StatusTool(contractAddress: string, isActive: Result<bool, string>): (r: string)
    ensures !IsValidAddress(contractAddress) ==> r == InvalidAddressReply("contract", contractAddress)
    ensures IsValidAddress(contractAddress) && isActive.Success? ==>
      Contains(r, if isActive.value then ActiveText else EndedText) &&
      EndsWith(r, AddressLinkOf(contractAddress) + ")")
    ensures IsValidAddress(contractAddress) && isActive.Failure? ==> EndsWith(r, isActive.error)
  {
    if !IsValidAddress(contractAddress) then InvalidAddressReply("contract", contractAddress)
    else match isActive
      case Success(active) =>
        var text := if active then ActiveText else EndedText;
        var head := "📊 Fundraiser Status\n\n";
        var tail := "\n\n---\n" + "🔍 View Contract: [`" + ShortForm(contractAddress) + "`](";
        var link := AddressLinkOf(contractAddress) + ")";
        assert OccursAt(text, text, 0);
        ContainsInMiddle(head, text, tail + link, text);
        AppendAssoc(head + text, tail, link);
        EndsWithAppend(head + text + tail, link);
        head + text + tail + link
      case Failure(message) =>
        var head := "❌ Could Not Check Status\n" +
            "I was unable to check the status of this fundraiser.\nError: ";
        EndsWithAppend(head, message);
        head + message
  }

  // check_wallet_balance

  /** The balance tool. `balance` is what `getBalance` answers in wei, or the message of
      the error the call threw. */
  function BalanceTool(address: string, balance: Result<nat, string>): (r: string)
    ensures !IsValidAddress(address) ==> r == InvalidAddressReply("wallet", address)
    ensures IsValidAddress(address) && balance.Failure? ==> EndsWith(r, balance.error)
  {
    if !IsValidAddress(address) then InvalidAddressReply("wallet", address)
    else match balance
      case Success(wei) => BalanceReply(address, Decimal.FormatEther(wei))
      case Failure(message) =>
        var head := "❌ Could Not Check Balance\n" +
            "I was unable to check the balance of this wallet.\nError: ";
        EndsWithAppend(head, message);
        head + message
  }

  function BalanceReply(address: string, ether: string): string {
    "💰 Wallet Balance\n\n- Address: [`" + ShortForm(address) + "`](" + AddressLinkOf(address)
    + ")\n- Balance: " + (ether + " ETH (on Base Sepolia)")
  }

  /** The balance shown is the one the provider gave: it is the text of the amount in
      ether, which `parseEther` reads back to the same number of wei. */
  lemma BalanceShown(address: string, wei: nat)
    requires IsValidAddress(address)
    ensures var r := BalanceTool(address, Success(wei));
      var ether := Decimal.FormatEther(wei);
      r == BalanceReply(address, ether) &&
      EndsWith(r, ether + " ETH (on Base Sepolia)") &&
      Decimal.ParseEther(ether) == Success(wei)
  {
    var ether := Decimal.FormatEther(wei);
    var tail := ether + " ETH (on Base Sepolia)";
    var r := BalanceReply(address, ether);
    var head := "💰 Wallet Balance\n\n- Address: [`" + ShortForm(address) + "`](" + AddressLinkOf(address) + ")\n- Balance: ";
    assert r == head + tail;
    assert r[|r| - |tail|..] == tail;
    Decimal.ParseFormatEther(wei);
  }

  /** The address-taking tools answer an invalid address with the fixed reply, whatever the
      provider would have answered. */
  lemma InvalidAddressNeverQueries(address: string, fundraiserName: string, amountInEth: string,
                                   render: string -> Option<string>,
                                   contributors: Result<seq<Contributor>, string>,
                                   isActive: Result<bool, string>, balance: Result<nat, string>)
    requires !IsValidAddress(address)
    ensures QrCodeTool(address, amountInEth, fundraiserName, render) == InvalidAddressReply("contract", address)
    ensures ContributorsToolAsWritten(address, contributors) == InvalidAddressReply("contract", address)
    ensures ContributorsTool(address, contributors) == InvalidAddressReply("contract", address)
    ensures StatusTool(address, isActive) == InvalidAddressReply("contract", address)
    ensures BalanceTool(address, balance) == InvalidAddressReply("wallet", address)
  {
  }

  // send_funds_to_address_or_ens

  /** How the send tool reads its recipient. */
  datatype RecipientKind = ByName | Direct | InvalidRecipient

  /** A recipient with a '.' is a name to resolve; otherwise a valid address is used as it
      is, and anything else is refused. */
  function ClassifyRecipient(recipient: string): RecipientKind {
    if '.' in recipient then ByName
    else if IsValidAddress(recipient) then Direct
    else InvalidRecipient
  }

  /** Every valid address is sent to directly, and a name is recognised by its dot alone. */
  lemma RecipientClasses(recipient: string)
    ensures IsValidAddress(recipient) ==> ClassifyRecipient(recipient) == Direct
    ensures ClassifyRecipient(recipient) == ByName <==> '.' in recipient
    ensures ClassifyRecipient(recipient) == InvalidRecipient <==> '.' !in recipient && !IsValidAddress(recipient)
  {
    if IsValidAddress(recipient) {
      ValidAddressHasNoDot(recipient);
    }
  }

  lemma ValidAddressHasNoDot(s: string)
    requires IsValidAddress(s)
    ensures '.' !in s
  {
    forall i | 0 <= i < |s|
      ensures s[i] != '.'
    {
      if i >= 2 {
        assert s[2..][i - 2] == s[i];
      }
    }
  }

  /** `feeData.gasPrice ? feeData.gasPrice * percent / 100n : undefined`: a price raised by a
      percentage in integer arithmetic; none when the network reports none (or zero, which
      is falsy). */
  function BumpedGasPrice(gasPrice: Option<nat>, percent: nat): Option<nat> {
    if gasPrice.None? || gasPrice.value == 0 then None else Some(gasPrice.value * percent / 100)
  }

  const DeployGasPercent: nat := 150
  const SendGasPercent: nat := 120

  /** The bumped price is the floor of `p·percent/100`, defined exactly when a non-zero price
      is reported, and never below the reported price for a raise of at least 100 percent. */
  lemma GasBump(gasPrice: Option<nat>, percent: nat)
    ensures BumpedGasPrice(gasPrice, percent).Some? <==> gasPrice.Some? && gasPrice.value > 0
    ensures BumpedGasPrice(gasPrice, percent).Some? ==>
      var p := gasPrice.value;
      var b := BumpedGasPrice(gasPrice, percent).value;
      b * 100 <= p * percent < b * 100 + 100 &&
      (percent >= 100 ==> b >= p)
  {
    if gasPrice.Some? && gasPrice.value > 0 {
      var p := gasPrice.value;
      if percent >= 100 {
        assert p * percent >= p * 100;
      }
    }
  }

  /** The gas prices of the deploy and send tools. */
  lemma ToolGasPrices(p: nat)
    requires p > 0
    ensures BumpedGasPrice(Some(p), DeployGasPercent) == Some(p * 150 / 100)
    ensures BumpedGasPrice(Some(p), SendGasPercent) == Some(p * 120 / 100)
    ensures BumpedGasPrice(Some(p), DeployGasPercent).value >= p
    ensures BumpedGasPrice(Some(p), SendGasPercent).value >= p
  {
    GasBump(Some(p), DeployGasPercent);
    GasBump(Some(p), SendGasPercent);
  }

  const SendInsufficientReply := "❌ Insufficient" + " Funds\nThe wallet does not have enough ETH to complete " +
      "this transaction (including gas fees)."

  /** The reply to an error thrown while sending. */
  function SendErrorReply(message: string): string {
    if Contains(message, "insufficient funds") then SendInsufficientReply
    else "❌ Transaction" + " Failed\nI encountered an error while trying to send the funds: " + message
  }

  function InvalidRecipientReply(recipient: string): string {
    "❌ Invalid Recipient\nThe recipient `" + recipient
    + "` is not a valid wallet address or ENS/.base name. " +
        "Please check and try again."
  }

  function NameNotFoundReply(recipient: string): string {
    "❌ Name Not Found\nI could not resolve the name `" + recipient
    + "`. Please ensure it's a valid and registered ENS or " +
        ".base name on the correct network."
  }

  /** The address the funds go to: the recipient itself, or what its name resolved to;
      `None` when the name resolved to nothing. `resolved` is what `resolveName` answers. */
  function SendTarget(recipient: string, resolved: Option<string>): Option<string> {
    match ClassifyRecipient(recipient)
    case ByName => if resolved.Some? && resolved.value != "" then resolved else None
    case Direct => Some(recipient)
    case InvalidRecipient => None
  }

  /** The send tool: an amount that mentions dollars is first read by
      `parseAmountFromInput`, outside the tool's error handler, so its error is thrown out of
      the tool (the `Failure`); otherwise the reply for the amount, as read or as given. */
  function SendFundsTool(recipient: string, amountInEth: string, amountIn: string -> Option<string>,
                         walletAddress: string, ready: bool,
                         resolved: Result<Option<string>, string>, sent: Result<string, string>): (r: Result<string, string>)
    ensures r.Failure? <==> MentionsDollars(amountInEth) && amountIn(amountInEth).None?
    ensures r.Failure? ==> r.error == AmountParseError(amountInEth)
    ensures !MentionsDollars(amountInEth) ==>
      r == Success(SendReply(recipient, amountInEth, walletAddress, ready, resolved, sent))
    ensures MentionsDollars(amountInEth) && amountIn(amountInEth).Some? ==>
      r == Success(SendReply(recipient, amountIn(amountInEth).value, walletAddress, ready, resolved, sent))
  {
    var amount := if MentionsDollars(amountInEth) then ParseAmountFromInput(amountInEth, amountIn)
                  else Success(amountInEth);
    match amount
    case Failure(e) => Failure(e)
    case Success(a) => Success(SendReply(recipient, a, walletAddress, ready, resolved, sent))
  }

  /** The send tool's error handler and what it guards. `ready` says whether the provider and
      the wallet exist; `resolved` is the answer of the name lookup or the message of the
      error it threw (the timeout included); `sent` is the hash of the confirmed transaction
      or the message of the error sending or waiting threw. */
  function SendReply(recipient: string, amountInEth: string, walletAddress: string, ready: bool,
                     resolved: Result<Option<string>, string>, sent: Result<string, string>): string
  {
    if !ready then SendErrorReply("Blockchain components not initialized")
    else match ClassifyRecipient(recipient)
      case InvalidRecipient => InvalidRecipientReply(recipient)
      case Direct => Transfer(recipient, amountInEth, walletAddress, sent)
      case ByName =>
        match resolved
        case Failure(message) => SendErrorReply(message)
        case Success(name) =>
          match SendTarget(recipient, name)
          case None => NameNotFoundReply(recipient)
          case Some(target) => Transfer(target, amountInEth, walletAddress, sent)
  }

  /** Sending to a known address: `parseEther` of the amount, then the transaction. */
  function Transfer(target: string, amountInEth: string, walletAddress: string, sent: Result<string, string>): string {
    match Decimal.ParseEther(amountInEth)
    case Failure(e) => SendErrorReply(EtherErrorMessage(e))
    case Success(_) =>
      match sent
      case Failure(message) => SendErrorReply(message)
      case Success(txHash) =>
        FormatTransactionResponse(txHash, "Send Funds", Some(TxDetails(0, "", "", walletAddress, target, amountInEth)))
  }

  /** A recipient that is neither a name nor a valid address is refused before any lookup
      or transaction. */
  lemma InvalidRecipientRefused(recipient: string, amountInEth: string, walletAddress: string,
                                resolved: Result<Option<string>, string>, sent: Result<string, string>)
    requires '.' !in recipient && !IsValidAddress(recipient)
    ensures SendReply(recipient, amountInEth, walletAddress, true, resolved, sent) == InvalidRecipientReply(recipient)
  {
  }

  /** A valid address is sent to as it is, whatever the name service would say. */
  lemma ValidAddressSentDirectly(recipient: string, amountInEth: string, walletAddress: string,
                                 resolved: Result<Option<string>, string>, sent: Result<string, string>)
    requires IsValidAddress(recipient)
    ensures SendReply(recipient, amountInEth, walletAddress, true, resolved, sent)
         == Transfer(recipient, amountInEth, walletAddress, sent)
  {
    RecipientClasses(recipient);
  }

  /** A name is sent to only once it resolves: otherwise the reply is that it was not found. */
  lemma UnresolvedName(recipient: string, amountInEth: string, walletAddress: string,
                       resolved: Option<string>, sent: Result<string, string>)
    requires '.' in recipient && (resolved.None? || resolved.value == "")
    ensures SendReply(recipient, amountInEth, walletAddress, true, Success(resolved), sent)
         == NameNotFoundReply(recipient)
  {
  }

  /** A confirmed transfer is the transaction reply for its hash, with the wallet, the target
      and the amount as its details. */
  lemma TransferIsTransaction(target: string, amountInEth: string, walletAddress: string, txHash: string)
    requires Decimal.ParseEther(amountInEth).Success?
    ensures Transfer(target, amountInEth, walletAddress, Success(txHash))
         == FormatTransactionResponse(txHash, "Send Funds", Some(TxDetails(0, "", "", walletAddress, target, amountInEth)))
  {
  }

  /** The details of a transfer show the `from`, `to` and `value` lines, in that order. */
  lemma TransferDetailLines(walletAddress: string, target: string, amountInEth: string)
    requires walletAddress != "" && target != "" && amountInEth != ""
    ensures var d := TxDetails(0, "", "", walletAddress, target, amountInEth);
      PresentLines(d, DetailOrder) == [DetailLine(d, From), DetailLine(d, To), DetailLine(d, Value)]
  {
    var d := TxDetails(0, "", "", walletAddress, target, amountInEth);
    var tail := [DetailLine(d, From), DetailLine(d, To), DetailLine(d, Value)];
    assert PresentLines(d, [Value]) == [DetailLine(d, Value)] + PresentLines(d, []);
    assert [To, Value][1..] == [Value];
    assert PresentLines(d, [To, Value]) == tail[1..];
    assert [From, To, Value][1..] == [To, Value];
    assert PresentLines(d, [From, To, Value]) == tail;
    assert [GasPrice, From, To, Value][1..] == [From, To, Value];
    assert PresentLines(d, [GasPrice, From, To, Value]) == tail;
    assert [GasUsed, GasPrice, From, To, Value][1..] == [GasPrice, From, To, Value];
    assert PresentLines(d, [GasUsed, GasPrice, From, To, Value]) == tail;
    assert DetailOrder[1..] == [GasUsed, GasPrice, From, To, Value];
  }

  /** A confirmed transfer is reported with its hash and with the wallet, the target and the
      amount as its `from`, `to` and `value` lines, in that order. */
  lemma TransferReported(target: string, amountInEth: string, walletAddress: string, txHash: string)
    requires Decimal.ParseEther(amountInEth).Success? && IsValidTxHash(txHash)
    requires walletAddress != "" && target != "" && amountInEth != ""
    ensures Transfer(target, amountInEth, walletAddress, Success(txHash))
      == SuccessText("Send Funds", txHash) + DetailsHeader
         + ("\n- From: " + walletAddress + ("\n- To: " + target + ("\n- Value: " + amountInEth + " ETH")))
  {
    var d := TxDetails(0, "", "", walletAddress, target, amountInEth);
    var lines := [DetailLine(d, From), DetailLine(d, To), DetailLine(d, Value)];
    calc {
      Transfer(target, amountInEth, walletAddress, Success(txHash));
      { TransferIsTransaction(target, amountInEth, walletAddress, txHash); }
      FormatTransactionResponse(txHash, "Send Funds", Some(d));
      SuccessText("Send Funds", txHash) + DetailsHeader + Concat(PresentLines(d, DetailOrder));
      { TransferDetailLines(walletAddress, target, amountInEth); }
      SuccessText("Send Funds", txHash) + DetailsHeader + Concat(lines);
      { ConcatThree(lines[0], lines[1], lines[2]); }
      SuccessText("Send Funds", txHash) + DetailsHeader + (lines[0] + (lines[1] + lines[2]));
      { assert lines[0] + (lines[1] + lines[2])
          == "\n- From: " + walletAddress + ("\n- To: " + target + ("\n- Value: " + amountInEth + " ETH")); }
      SuccessText("Send Funds", txHash) + DetailsHeader
        + ("\n- From: " + walletAddress + ("\n- To: " + target + ("\n- Value: " + amountInEth + " ETH")));
    }
  }

  lemma ConcatThree(a: string, b: string, c: string)
    ensures Concat([a, b, c]) == a + (b + c)
  {
    assert [a, b, c][1..] == [b, c];
    assert [b, c][1..] == [c];
    assert Concat([c]) == c + Concat([]);
    assert c + "" == c;
  }
}


