/** The `deploy_fundraiser` tool of index.ts: the beneficiary check, the submission of the
    deployment, how its confirmation is read (the wait for the deployment, else the receipt),
    and the reply for each outcome. The amount parser's float result, the provider's answers
    and the QR argument are parameters. */
module DeployTool {
  import opened Wrappers
  import opened Strings
  import Json
  import Decimal
  import opened Blockchain
  import Tools

  // Error replies

  const InsufficientFundsReply := "❌ **Insufficient" + " Funds**\n\nYour wallet doesn't have enough ETH to deploy " +
      "the contract.\n\n**Required:**\n" +
      "- Contract deployment gas: ~0.01-0.02 ETH\n" +
      "- Network: Base Sepolia testnet\n" +
      "\n**Solutions:**\n1. Get testnet ETH from the [Base " +
      "Sepolia Faucet](https://www.coinbase.com/faucets/base-ethere" +
      "um-sepolia-faucet)\n2. Make sure you're connected to " +
      "Base Sepolia network\n3. Try again once you have sufficient " +
      "testnet ETH\n\n**Wallet Balance Check:** You can check " +
      "your balance by asking \"What's my wallet balance?\""

  const NonceErrorReply := "🔄 **Transaction" + " Nonce Error**\n\nThere was a nonce conflict. Please " +
      "try the deployment again.\n" +
      "\n**This usually happens when:**\n" +
      "- Multiple transactions are sent too quickly\n" +
      "- Network latency causes timing issues\n" +
      "\n**Solution:** Simply try deploying the fundraiser again."

  const FailedHead := "❌ **Contract" + " Deployment Failed**\n\nI encountered an error while " +
      "deploying your fundraiser contract.\n" +
      "\n**Error:** "

  const FailedTail :=
      "\n\n**Common Solutions:**\n1. **Insufficient Funds:** " +
      "Get testnet ETH from the Base Sepolia faucet\n" +
      "2. **Network Issues:** Try again in a few minutes\n" +
      "3. **Gas Price:** The network might be congested\n" +
      "\n**Need Help?** \n- Check your wallet balance: \"What's " +
      "my wallet balance?\"\n- Get testnet ETH: [Base Sepolia " +
      "Faucet](https://www.coinbase.com/faucets/base-ethereum-sepol" +
      "ia-faucet)\n- Try deploying again with the same parameters\n" +
      "\nWould you like me to try deploying again?"

  /** The reply quoting any other error. */
  function DeployFailedReply(message: string): string { FailedHead + (message + FailedTail) }

  /** The reply to an error thrown anywhere in the deployment, chosen by its message. */
  function DeployErrorReply(message: string): string {
    if Contains(message, "insufficient funds") then InsufficientFundsReply
    else if Contains(message, "nonce") then NonceErrorReply
    else DeployFailedReply(message)
  }

  // Pending replies

  const InProgressHead := "⏳ **Deployment In" + " Progress**\n\nYour fundraiser deployment transaction " +
      "has been submitted successfully!\n" +
      "\n📋 **Progress:** \n✅ Step 1/5: Parameters prepared\n" +
      "✅ Step 2/5: Validation completed  \n" +
      "✅ Step 3/5: Gas optimized (50% higher for speed)\n" +
      "✅ Step 4/5: Transaction submitted\n" +
      "⏳ Step 5/5: Waiting for blockchain confirmation...\n" +
      "\n🔗 **Transaction Hash:** `"

  const InProgressMiddle := "`\n📍 **View Status:** [Base Sepolia Scan]("

  const InProgressTail :=
      ")\n\n**What's happening:**\n" +
      "- Your transaction is being processed by the network\n" +
      "- Enhanced gas settings should speed up confirmation " +
      "(1-2 minutes)\n- You can check the transaction status " +
      "using the link above\n- Once confirmed, your fundraiser " +
      "will be live with QR code!\n" +
      "\n**Note:** The contract deployment is in progress. " +
      "Please check back in a few minutes or monitor the " +
      "transaction using the provided link."

  const SubmittedHead := "⏳ **Deployment Submitted" + " - Please Wait**\n\nYour fundraiser deployment has been " +
      "submitted to the blockchain!\n" +
      "\n📋 **Progress:** \n✅ Step 1/5: Parameters prepared\n" +
      "✅ Step 2/5: Validation completed  \n" +
      "✅ Step 3/5: Gas optimized for speed\n" +
      "✅ Step 4/5: Transaction submitted\n" +
      "⏳ Step 5/5: Processing on blockchain...\n" +
      "\n🔗 **Transaction Hash:** `"

  const SubmittedMiddle := "`\n📍 **Track Progress:** [Base Sepolia Scan]("

  const SubmittedTail :=
      ")\n\n**Status:** Transaction is being processed by the " +
      "network (enhanced gas should make this faster!)\n" +
      "\n**Next Steps:**\n1. Monitor the transaction using " +
      "the link above\n2. Once confirmed, your fundraiser " +
      "will be live\n3. You'll automatically get a QR code " +
      "for contributions\n\n**Tip:** With our enhanced gas " +
      "settings, this should be faster than usual!"

  function InProgressParts(txHash: string): (p: seq<string>)
    ensures |p| == 5
  {
    [InProgressHead, txHash, InProgressMiddle, GenerateBaseScanLink(txHash, TxLink), InProgressTail]
  }

  /** The reply when the receipt shows the transaction not yet mined. */
  function InProgressReply(txHash: string): string { Concat(InProgressParts(txHash)) }

  function SubmittedParts(txHash: string): (p: seq<string>)
    ensures |p| == 5
  {
    [SubmittedHead, txHash, SubmittedMiddle, GenerateBaseScanLink(txHash, TxLink), SubmittedTail]
  }

  /** The reply when reading the receipt failed. */
  function SubmittedReply(txHash: string): string { Concat(SubmittedParts(txHash)) }

  // Confirmation

  /** The fields of a transaction receipt the tool reads. */
  datatype Receipt = Receipt(contractAddress: Option<string>, status: Option<int>)

  /** How the deployment ended, as the tool reads it. */
  datatype Confirmation = Deployed(address: string) | InProgress | Submitted | Reverted

  const RevertedMessage := "Transaction failed - contract deployment reverted"

  /** The receipt names a contract address (a non-empty string, as JavaScript tests it). */
  predicate HasContract(r: Receipt) { r.contractAddress.Some? && r.contractAddress.value != "" }

  /** The confirmation as written. `waited` is the address `waitForDeployment` and
      `getAddress` give, `None` when either throws; `receipt` is what
      `getTransactionReceipt` answers (`None` for `null`) or the message of the error it
      throws. The error thrown for a receipt with status 0 is caught by the handler of the
      receipt lookup itself, so a reverted deployment is reported as submitted. */
  function ConfirmAsWritten(waited: Option<string>, receipt: Result<Option<Receipt>, string>): Confirmation {
    match waited
    case Some(address) => Deployed(address)
    case None =>
      match receipt
      case Failure(_) => Submitted
      case Success(None) => InProgress
      case Success(Some(r)) =>
        if HasContract(r) then Deployed(r.contractAddress.value)
        else if r.status == Some(0) then Submitted
        else InProgress
  }

  /** The confirmation as the code intends it: a reverted receipt is a failed deployment. */
  function Confirm(waited: Option<string>, receipt: Result<Option<Receipt>, string>): Confirmation {
    match waited
    case Some(address) => Deployed(address)
    case None =>
      match receipt
      case Failure(_) => Submitted
      case Success(None) => InProgress
      case Success(Some(r)) =>
        if HasContract(r) then Deployed(r.contractAddress.value)
        else if r.status == Some(0) then Reverted
        else InProgress
  }

  /** The receipt of a deployment that was mined, reverted and created no contract. */
  predicate RevertedReceipt(waited: Option<string>, receipt: Result<Option<Receipt>, string>) {
    waited.None? && receipt.Success? && receipt.value.Some? &&
    !HasContract(receipt.value.value) && receipt.value.value.status == Some(0)
  }

  // The tool

  /** The tool's input: the beneficiary, the goal as the model extracted it, the name (its
      default applied) and the user's message, if given. */
  datatype DeployInput = DeployInput(beneficiaryAddress: string, goalAmount: string, fundraiserName: string,
                                     originalUserInput: Option<string>)

  /** The goal the tool deploys with. A user message that is given (and not empty) is read by
      `parseAmountFromInput`, whose error fails the deployment; otherwise the goal is read the
      same way, and kept as it is when no amount is found in it. `amountIn` stands for the
      amount patterns and their float arithmetic. */
  function FinalGoalAmount(goalAmount: string, originalUserInput: Option<string>,
                           amountIn: string -> Option<string>): (r: Result<string, string>)
    ensures r.Failure? <==>
      originalUserInput.Some? && originalUserInput.value != "" && amountIn(originalUserInput.value).None?
    ensures r.Failure? ==> r.error == Tools.AmountParseError(originalUserInput.value)
    ensures originalUserInput.None? || originalUserInput.value == "" ==>
      r == Success(if amountIn(goalAmount).Some? then amountIn(goalAmount).value else goalAmount)
  {
    if originalUserInput.Some? && originalUserInput.value != "" then
      Tools.ParseAmountFromInput(originalUserInput.value, amountIn)
    else match Tools.ParseAmountFromInput(goalAmount, amountIn)
      case Success(amount) => Success(amount)
      case Failure(_) => Success(goalAmount)
  }

  /** The reply once the deployment was submitted as `txHash`. */
  function ConfirmationReply(confirmation: Confirmation, txHash: string, fundraiserName: string,
                             goalAmount: string, qr: QrArg, parse: string -> Option<Json.Json>): string
  {
    match confirmation
    case Deployed(address) => FormatDeployResponse(address, txHash, fundraiserName, goalAmount, qr, parse)
    case InProgress => InProgressReply(txHash)
    case Submitted => SubmittedReply(txHash)
    case Reverted => DeployErrorReply(RevertedMessage)
  }

  /** The tool up to the submission, then the reply for `confirmation`. `finalGoal` is the
      goal after `parseAmountFromInput` or the error it threw; `ready` says whether the
      contract factory and the provider exist; `submitted` is the hash of the deployment
      transaction or the message of the error the fee lookup or `deploy` threw (or of the
      missing transaction). */
  function DeployReply(beneficiaryAddress: string, finalGoal: Result<string, string>, fundraiserName: string,
                       ready: bool, submitted: Result<string, string>, confirmation: Confirmation,
                       qr: QrArg, parse: string -> Option<Json.Json>): string
  {
    match finalGoal
    case Failure(message) => DeployErrorReply(message)
    case Success(goalAmount) =>
      if !IsValidAddress(beneficiaryAddress) then Tools.InvalidAddressReply("beneficiary", beneficiaryAddress)
      else if !ready then DeployErrorReply("Blockchain components not initialized")
      else match Decimal.ParseEther(goalAmount)
        case Failure(e) => DeployErrorReply(EtherErrorMessage(e))
        case Success(_) =>
          match submitted
          case Failure(message) => DeployErrorReply(message)
          case Success(txHash) => ConfirmationReply(confirmation, txHash, fundraiserName, goalAmount, qr, parse)
  }

  /** The tool as written. `waited` and `receipt` are what the provider answers for the
      submitted transaction. */
  function DeployFundraiserAsWritten(input: DeployInput, amountIn: string -> Option<string>, ready: bool,
                                     submitted: Result<string, string>, waited: Option<string>,
                                     receipt: Result<Option<Receipt>, string>, qr: QrArg,
                                     parse: string -> Option<Json.Json>): (r: string)
    ensures var goal := FinalGoalAmount(input.goalAmount, input.originalUserInput, amountIn);
      (goal.Failure? ==> r == DeployErrorReply(goal.error)) &&
      (goal.Success? && !IsValidAddress(input.beneficiaryAddress) ==>
         r == Tools.InvalidAddressReply("beneficiary", input.beneficiaryAddress))
  {
    DeployReply(input.beneficiaryAddress, FinalGoalAmount(input.goalAmount, input.originalUserInput, amountIn),
                input.fundraiserName, ready, submitted, ConfirmAsWritten(waited, receipt), qr, parse)
  }

  /** The tool as intended: a reverted deployment is reported as a failed one; on every
      other outcome it answers as the written tool does. */
  function DeployFundraiser(input: DeployInput, amountIn: string -> Option<string>, ready: bool,
                            submitted: Result<string, string>, waited: Option<string>,
                            receipt: Result<Option<Receipt>, string>, qr: QrArg,
                            parse: string -> Option<Json.Json>): (r: string)
    ensures var goal := FinalGoalAmount(input.goalAmount, input.originalUserInput, amountIn);
      (goal.Failure? ==> r == DeployErrorReply(goal.error)) &&
      (goal.Success? && !IsValidAddress(input.beneficiaryAddress) ==>
         r == Tools.InvalidAddressReply("beneficiary", input.beneficiaryAddress))
    ensures !RevertedReceipt(waited, receipt) ==>
      r == DeployFundraiserAsWritten(input, amountIn, ready, submitted, waited, receipt, qr, parse)
  {
    ConfirmAgreesAsWritten(waited, receipt);
    DeployReply(input.beneficiaryAddress, FinalGoalAmount(input.goalAmount, input.originalUserInput, amountIn),
                input.fundraiserName, ready, submitted, Confirm(waited, receipt), qr, parse)
  }

  // Properties

  /** The error reply is chosen by the first test that matches: insufficient funds, then a
      nonce conflict; any other error is quoted in the generic reply. The three replies
      differ, so the reply tells which case occurred. */
  lemma DeployErrorOrder(message: string)
    ensures DeployErrorReply(message) == InsufficientFundsReply <==> Contains(message, "insufficient funds")
    ensures DeployErrorReply(message) == NonceErrorReply <==>
      !Contains(message, "insufficient funds") && Contains(message, "nonce")
    ensures !Contains(message, "insufficient funds") && !Contains(message, "nonce") ==>
      Contains(DeployErrorReply(message), message)
  {
    FailedReplyQuotes(message);
    assert InsufficientFundsReply[0] == '❌' && NonceErrorReply[0] == '🔄';
    assert InsufficientFundsReply[4] == 'I' && DeployFailedReply(message)[4] == 'C';
    assert DeployFailedReply(message)[0] == '❌';
  }

  lemma FailedReplyQuotes(message: string)
    ensures Contains(DeployFailedReply(message), message)
  {
    var r := DeployFailedReply(message);
    assert r[|FailedHead|..|FailedHead| + |message|] == message;
    assert OccursAt(r, message, |FailedHead|);
  }

  /** The confirmation names a contract exactly when the wait gave one or, failing that, the
      receipt names one; the address is the first of these. A reverted deployment is
      recognised exactly by its receipt. */
  lemma ConfirmOutcomes(waited: Option<string>, receipt: Result<Option<Receipt>, string>)
    ensures Confirm(waited, receipt).Deployed? <==>
      waited.Some? || (receipt.Success? && receipt.value.Some? && HasContract(receipt.value.value))
    ensures waited.Some? ==> Confirm(waited, receipt) == Deployed(waited.value)
    ensures waited.None? && receipt.Success? && receipt.value.Some? && HasContract(receipt.value.value) ==>
      Confirm(waited, receipt) == Deployed(receipt.value.value.contractAddress.value)
    ensures Confirm(waited, receipt) == Reverted <==> RevertedReceipt(waited, receipt)
    ensures Confirm(waited, receipt) == Submitted <==> waited.None? && receipt.Failure?
  {
  }

  /** The intended confirmation differs from the written one only on a reverted receipt,
      which the written one reports as submitted. */
  lemma ConfirmAgreesAsWritten(waited: Option<string>, receipt: Result<Option<Receipt>, string>)
    ensures !RevertedReceipt(waited, receipt) ==> ConfirmAsWritten(waited, receipt) == Confirm(waited, receipt)
    ensures RevertedReceipt(waited, receipt) ==> ConfirmAsWritten(waited, receipt) == Submitted
  {
  }

  /** An invalid beneficiary is refused once the goal is read, before anything is
      submitted: the reply does not depend on the provider. */
  lemma InvalidBeneficiaryRefused(input: DeployInput, amountIn: string -> Option<string>, ready: bool,
                                  submitted: Result<string, string>, waited: Option<string>,
                                  receipt: Result<Option<Receipt>, string>, qr: QrArg,
                                  parse: string -> Option<Json.Json>)
    requires !IsValidAddress(input.beneficiaryAddress)
    requires FinalGoalAmount(input.goalAmount, input.originalUserInput, amountIn).Success?
    ensures DeployFundraiser(input, amountIn, ready, submitted, waited, receipt, qr, parse)
         == Tools.InvalidAddressReply("beneficiary", input.beneficiaryAddress)
    ensures DeployFundraiser(input, amountIn, ready, submitted, waited, receipt, qr, parse)
         == DeployFundraiser(input, amountIn, false, Failure(""), None, Failure(""), QrText(""), parse)
  {
  }

  /** A user message in which no amount is found fails the deployment first, whatever the
      beneficiary: the reply is the deploy error reply to the parser's message, which quotes
      the message unless it mentions insufficient funds or a nonce. */
  lemma AmountParseFailureFirst(input: DeployInput, amountIn: string -> Option<string>, ready: bool,
                                submitted: Result<string, string>, waited: Option<string>,
                                receipt: Result<Option<Receipt>, string>, qr: QrArg,
                                parse: string -> Option<Json.Json>)
    requires input.originalUserInput.Some? && input.originalUserInput.value != ""
    requires amountIn(input.originalUserInput.value).None?
    ensures var message := Tools.AmountParseError(input.originalUserInput.value);
      DeployFundraiser(input, amountIn, ready, submitted, waited, receipt, qr, parse) == DeployErrorReply(message) &&
      DeployFundraiserAsWritten(input, amountIn, ready, submitted, waited, receipt, qr, parse) == DeployErrorReply(message)
    ensures var message := Tools.AmountParseError(input.originalUserInput.value);
      !Contains(message, "insufficient funds") && !Contains(message, "nonce") ==>
      Contains(DeployFundraiser(input, amountIn, ready, submitted, waited, receipt, qr, parse),
               input.originalUserInput.value)
  {
    ErrorReplyQuotes(Tools.AmountParseError(input.originalUserInput.value), input.originalUserInput.value);
  }

  /** The reply to an error that mentions neither insufficient funds nor a nonce quotes
      everything the error's message quotes. */
  lemma ErrorReplyQuotes(message: string, text: string)
    requires Contains(message, text)
    ensures !Contains(message, "insufficient funds") && !Contains(message, "nonce") ==>
      Contains(DeployErrorReply(message), text)
  {
    if !Contains(message, "insufficient funds") && !Contains(message, "nonce") {
      FailedReplyQuotes(message);
      ContainsTransitive(DeployFailedReply(message), message, text);
    }
  }

  /** A deployment that is confirmed gets the success reply, which starts with the main text
      naming the contract, the goal the tool read and both explorer links. */
  lemma DeploySucceeded(input: DeployInput, amountIn: string -> Option<string>, goalAmount: string,
                        txHash: string, waited: Option<string>, receipt: Result<Option<Receipt>, string>,
                        qr: QrArg, parse: string -> Option<Json.Json>)
    requires IsValidAddress(input.beneficiaryAddress)
    requires FinalGoalAmount(input.goalAmount, input.originalUserInput, amountIn) == Success(goalAmount)
    requires Decimal.ParseEther(goalAmount).Success?
    requires Confirm(waited, receipt).Deployed?
    ensures var address := Confirm(waited, receipt).address;
      var r := DeployFundraiser(input, amountIn, true, Success(txHash), waited, receipt, qr, parse);
      var main := DeployMainText(address, txHash, input.fundraiserName, goalAmount);
      StartsWith(r, main) && Contains(main, address) && Contains(main, goalAmount) &&
      Contains(main, GenerateBaseScanLink(address, AddressLink)) &&
      Contains(main, GenerateBaseScanLink(txHash, TxLink))
  {
    var c := Confirm(waited, receipt);
    DeployReplySubmitted(input.beneficiaryAddress, goalAmount, input.fundraiserName, txHash, c, qr, parse);
    DeployResponseMain(c.address, txHash, input.fundraiserName, goalAmount, qr, parse);
  }

  /** Both pending replies quote the transaction hash and its explorer link. */
  lemma PendingRepliesLink(txHash: string)
    ensures Contains(InProgressReply(txHash), txHash)
    ensures Contains(InProgressReply(txHash), GenerateBaseScanLink(txHash, TxLink))
    ensures Contains(SubmittedReply(txHash), txHash)
    ensures Contains(SubmittedReply(txHash), GenerateBaseScanLink(txHash, TxLink))
  {
    ConcatContains(InProgressParts(txHash), 1);
    ConcatContains(InProgressParts(txHash), 3);
    ConcatContains(SubmittedParts(txHash), 1);
    ConcatContains(SubmittedParts(txHash), 3);
  }

  /** The pending replies start with the hourglass and their own heading, and so differ. */
  lemma PendingReplies(txHash: string)
    ensures InProgressReply(txHash)[0] == '⏳' && SubmittedReply(txHash)[0] == '⏳'
    ensures InProgressReply(txHash) != SubmittedReply(txHash)
  {
    var r1 := InProgressReply(txHash);
    var r2 := SubmittedReply(txHash);
    assert r1 == InProgressHead + Concat(InProgressParts(txHash)[1..]);
    assert r2 == SubmittedHead + Concat(SubmittedParts(txHash)[1..]);
    assert r1[0] == InProgressHead[0] && r1[15] == InProgressHead[15];
    assert r2[0] == SubmittedHead[0] && r2[15] == SubmittedHead[15];
    assert InProgressHead[0] == '⏳' && InProgressHead[15] == 'I';
    assert SubmittedHead[0] == '⏳' && SubmittedHead[15] == 'S';
  }

  /** Every deployment error reply starts with a cross or the nonce arrows, never with the
      hourglass of a pending one: a user can tell a pending deployment from a failed one. */
  lemma ErrorReplyStart(message: string)
    ensures DeployErrorReply(message)[0] == '❌' || DeployErrorReply(message)[0] == '🔄'
  {
    assert FailedHead[0] == '❌';
    assert InsufficientFundsReply[0] == '❌' && NonceErrorReply[0] == '🔄';
  }

  /** The as-written tool reports a deployment whose receipt shows it reverted as submitted
      and still pending; the intended one reports it as failed with the revert message. */
  lemma RevertedReportedAsSubmitted(input: DeployInput, amountIn: string -> Option<string>, goalAmount: string,
                                    txHash: string, qr: QrArg, parse: string -> Option<Json.Json>)
    requires IsValidAddress(input.beneficiaryAddress)
    requires FinalGoalAmount(input.goalAmount, input.originalUserInput, amountIn) == Success(goalAmount)
    requires Decimal.ParseEther(goalAmount).Success?
    ensures var receipt := Success(Some(Receipt(None, Some(0))));
      DeployFundraiserAsWritten(input, amountIn, true, Success(txHash), None, receipt, qr, parse)
        == SubmittedReply(txHash) &&
      DeployFundraiser(input, amountIn, true, Success(txHash), None, receipt, qr, parse)
        == DeployErrorReply(RevertedMessage)
  {
    var receipt := Success(Some(Receipt(None, Some(0))));
    assert ConfirmAsWritten(None, receipt) == Submitted && Confirm(None, receipt) == Reverted;
    SubmittedOutcome(input, amountIn, goalAmount, txHash, receipt, qr, parse);
    RevertedOutcome(input, amountIn, goalAmount, txHash, receipt, qr, parse);
  }

  lemma SubmittedOutcome(input: DeployInput, amountIn: string -> Option<string>, goalAmount: string,
                         txHash: string, receipt: Result<Option<Receipt>, string>, qr: QrArg,
                         parse: string -> Option<Json.Json>)
    requires IsValidAddress(input.beneficiaryAddress)
    requires FinalGoalAmount(input.goalAmount, input.originalUserInput, amountIn) == Success(goalAmount)
    requires Decimal.ParseEther(goalAmount).Success?
    requires ConfirmAsWritten(None, receipt) == Submitted
    ensures DeployFundraiserAsWritten(input, amountIn, true, Success(txHash), None, receipt, qr, parse)
         == SubmittedReply(txHash)
  {
    DeployReplySubmitted(input.beneficiaryAddress, goalAmount, input.fundraiserName, txHash, Submitted, qr, parse);
  }

  lemma RevertedOutcome(input: DeployInput, amountIn: string -> Option<string>, goalAmount: string,
                        txHash: string, receipt: Result<Option<Receipt>, string>, qr: QrArg,
                        parse: string -> Option<Json.Json>)
    requires IsValidAddress(input.beneficiaryAddress)
    requires FinalGoalAmount(input.goalAmount, input.originalUserInput, amountIn) == Success(goalAmount)
    requires Decimal.ParseEther(goalAmount).Success?
    requires Confirm(None, receipt) == Reverted
    ensures DeployFundraiser(input, amountIn, true, Success(txHash), None, receipt, qr, parse)
         == DeployErrorReply(RevertedMessage)
  {
    DeployReplySubmitted(input.beneficiaryAddress, goalAmount, input.fundraiserName, txHash, Reverted, qr, parse);
  }

  /** Past the checks, the reply is the one for how the submitted deployment ended. */
  lemma DeployReplySubmitted(beneficiaryAddress: string, goalAmount: string, fundraiserName: string,
                             txHash: string, confirmation: Confirmation, qr: QrArg, parse: string -> Option<Json.Json>)
    requires IsValidAddress(beneficiaryAddress) && Decimal.ParseEther(goalAmount).Success?
    ensures DeployReply(beneficiaryAddress, Success(goalAmount), fundraiserName, true, Success(txHash),
                        confirmation, qr, parse)
         == ConfirmationReply(confirmation, txHash, fundraiserName, goalAmount, qr, parse)
  {
  }
}
