# Zeon core, modelled in Dafny

Zeon is a fundraising agent on Base Sepolia. Its backend (`index.ts`) runs a chat agent with
blockchain tools; its web frontend is a chat window and a fundraiser page reached by a shareable
link. Most of the repository is glue around external SDKs. This project models the
deterministic logic around that glue:

- **Address and reply formatting** (`utils/blockchain.ts`, module `Blockchain`):
  - address and transaction-hash validators;
  - explorer links;
  - the transaction and deploy reply templates, with the decision on the trailing QR payload;
  - the contribution payment URI `ethereum:<address>?value=<wei>` (EIP-681).
- **Fundraiser links** (`utils/urlHelpers.js`, `utils/qrCodeGenerator.js`, modules `UrlHelpers`
  and `QrCodeGenerator`):
  - link builders over a model of the WHATWG URL parser and its `application/x-www-form-urlencoded`
    serializer (modules `Url`, `FormUrlencoded`);
  - the double-encoding repair and `safeURLEncode`, over `encodeURIComponent` and
    `decodeURIComponent` from section 19.2.6 of ECMA-262 (module `UriCodec`, with UTF-8 in `Utf8`);
  - the QR-URL builder and validator.
- **Environment helpers** (`helpers/client.ts`, module `Client`):
  - hex formatting of keys;
  - the `.env` line parser and its merge into `process.env`, as a class `Environment`;
  - the storage path, joined as Node's `path.join` does.
- **Backend policy** (`index.ts`):
  - the session-memory store, as a class `MemoryStore` (module `SessionMemory`);
  - chat-request aliasing and status codes (`ChatApi`);
  - the CORS decision (`Cors`);
  - tool input checks, recipient classification and gas bumps (`Tools`);
  - the deploy tool's outcomes and error classification (`DeployTool`).
- **Balance manager** (`utils/balance-manager.ts`), as a class `BalanceManager`:
  - the 30-second cache;
  - the fallback on a failed read;
  - monitoring start and stop;
  - the 5-minute alert throttle.
  Ether amounts are wei integers formatted by `formatEther` (module `Decimal`), and `parseFloat`
  is an exact decimal reading into reals.
- **Frontend**:
  - the chat window's payload classifier, address and amount extraction, link and bold splitting,
    and message list (`ChatInterface`, class `ChatView`, with the regular-expression scans in
    `RegexText`);
  - the example chat's SVG splitting and message list (`ExampleChat`, class `ExampleChatView`);
  - the route table and fundraiser route (`AppRoutes`);
  - the address display (`ContractAddress`).

JSON values are a datatype with `JSON.stringify` (module `Json`). `JSON.parse` is a parameter,
and lemmas that need it to read back what `JSON.stringify` wrote say so through
`Json.InvertsStringify`. External calls are parameters of the operations that make them:
the LLM agent, providers, receipts, name resolution, `fetch`, clocks and random bytes.

## Model

| member | source | states |
|---|---|---|
| UriCodec.DecodeEncode | utils/urlHelpers.js:81-93 | `decodeURIComponent` undoes `encodeURIComponent` on every string |
| UriCodec.DecodeWithoutPercent | utils/urlHelpers.js:81 | `decodeURIComponent` returns a text with no `%` unchanged (and does not throw) |
| UriCodec.DecodeChangesIffPercent | utils/urlHelpers.js:81-82 | a successful decode changes the text exactly when the text holds a `%` |
| UriCodec.DecodeShrinks | utils/urlHelpers.js:81 | a decode never lengthens a text, and shortens it when it holds a `%` |
| UriCodec.EncodeIdentityIffUnreserved | utils/urlHelpers.js:93 | `encodeURIComponent` leaves a text unchanged exactly when all its characters are unreserved |
| UriCodec.EncodeAppend | utils/urlHelpers.js:93 | encoding distributes over concatenation |
| FormUrlencoded.FormDecodeEncode | utils/urlHelpers.js:26 | the form decoding of `URLSearchParams` undoes its form encoding |
| FormUrlencoded.ParseSerialize | utils/urlHelpers.js:26 | parsing a serialized parameter list gives the list back (names and values in order) |
| FormUrlencoded.GetSet | utils/urlHelpers.js:26 | after `set(name, value)`, `get(name)` is the value and every other name reads as before |
| FormUrlencoded.SetAbsentAppends | utils/urlHelpers.js:26 | `set` of a name not yet present appends the pair at the end |
| FormUrlencoded.FormEncodeNoDoubleEncoding | utils/urlHelpers.js:26 | the serialization of a value without `%` holds no `%25` |
| Url.ParseHref | utils/urlHelpers.js:22 | `new URL(url.href)` gives the same URL back for every well-formed special URL |
| Url.RelativeUnparsed | utils/qrCodeGenerator.js:80 | `new URL` throws on a path-only text that starts with `/` |
| Url.SearchParamsSet | utils/urlHelpers.js:26 | `url.searchParams.set` changes the query as the form `set` does on its pairs |
| Url.SetSearchParamsAppends | utils/qrCodeGenerator.js:44-57 | setting distinct fresh names one after the other appends them in order |
| Url.PercentEncodeIdempotent | utils/urlHelpers.js:22 | the URL parser's percent-encoding of a component is idempotent |
| Decimal.ParseFormatEther | index.ts:667 | `parseEther(formatEther(wei)) == wei` for every amount |
| Decimal.ParseFloatFormatEther | utils/balance-manager.ts:68 | `parseFloat(formatEther(wei))` is the exact value `wei / 10^18` |
| Json.LookupDistinct | utils/blockchain.ts:223-224 | a property of an object with distinct keys reads back the value stored under it |
| Utf8.DecodeLossyEncode | utils/urlHelpers.js:81 | UTF-8 decoding undoes UTF-8 encoding of every string |
| Blockchain.ValidAddressMatchesRegex | utils/blockchain.ts:27-30 | `isValidAddress` holds exactly when the whole text matches `^0x[a-fA-F0-9]{40}$`, the pattern written as a sequence of character classes |
| Blockchain.ValidTxHashMatchesRegex | utils/blockchain.ts:22-25 | `isValidTxHash` holds exactly when the whole text matches `^0x[a-fA-F0-9]{64}$` |
| Blockchain.HexPatternMatches | utils/blockchain.ts:24 | the pattern `0x` plus n hex classes matches exactly the texts that are `0x` followed by n hex digits of either case |
| Blockchain.MatchesHexRun | utils/blockchain.ts:24 | a run of n hex classes matches exactly the texts of n hex digits |
| Blockchain.HexPattern | utils/blockchain.ts:24 | the anchored pattern is n + 2 long: a literal `0`, a literal `x`, then n hex classes |
| Blockchain.ScanLinkDetermines | utils/blockchain.ts:5-20 | the explorer link is `https://sepolia.basescan.org` + the path of its kind + the hash, and two links are equal only for the same hash and kind |
| Blockchain.ScanLinkDefault | utils/blockchain.ts:7-12 | without a kind the link is the transaction link `/tx/<hash>` |
| Blockchain.FormatTransactionResponse | utils/blockchain.ts:139-161 | an invalid hash gives the "Invalid Transaction Hash" text and nothing else; a valid one gives the success text, followed only when details are given by the details header and the present detail lines |
| Blockchain.AppendDetailsLines | utils/blockchain.ts:151-159 | the `response +=` accumulator equals the response followed by the lines of the set fields, in the order of the fields |
| Blockchain.PresentLinesExactly | utils/blockchain.ts:153-158 | every set field has its line in the details, and every detail line is the line of a set field |
| Blockchain.TransactionResponseLinks | utils/blockchain.ts:139-149 | the reply starts with "❌" exactly when the hash is invalid; for a valid hash it starts with "✅" and holds the hash and its transaction link |
| Blockchain.SuccessTextNames | utils/blockchain.ts:144-149 | the success text starts with "✅" and holds the hash and its link |
| Blockchain.SuccessParts | utils/blockchain.ts:146-149 | the success text is "✅ *", the action, the header, the hash, the link label and the transaction link of the hash, in that order |
| Blockchain.DeployMainParts | utils/blockchain.ts:172-205 | the main deployment text holds, in place, the goal, the contract's address link, the transaction link and the full contract address |
| Blockchain.DeployResponseMain | utils/blockchain.ts:172-205 | whatever the QR argument, the reply starts with the main text, and the main text names the full contract address, the goal and both explorer links |
| Blockchain.DeployMainNames | utils/blockchain.ts:182-205 | the main text contains the contract address, the goal and both explorer links |
| Blockchain.DeployMainHas | utils/blockchain.ts:182-205 | every piece of the main text occurs in it |
| Blockchain.FormatDeployResponse | utils/blockchain.ts:207-241 | the reply always starts with the main deployment text; a text argument is appended after a blank line, verbatim |
| Blockchain.DeployResponseTail | utils/blockchain.ts:207-241 | an object with a non-empty `qrCode` and `message` gives main + "\n\n" + a JSON text that parses back to those two fields; an object without them gives the main text alone; a string gives main + "\n\n" + the string verbatim |
| Blockchain.QrJsonReadsBack | utils/blockchain.ts:213-215 | the appended `JSON.stringify` text parses back to an object with the same `message` and `qrCode` |
| Blockchain.DeployResponseIgnoresParse | utils/blockchain.ts:219-236 | for a string argument the reply does not depend on what `JSON.parse` makes of it: the three sub-branches give the same text |
| Blockchain.ReadPaymentUriInverse | utils/blockchain.ts:74-75 | the payment URI `ethereum:<address>?value=<wei>` of a valid address reads back to the address and the wei amount |
| Blockchain.ReadPaymentUriOf | utils/blockchain.ts:75 | a URI made from an address without `?` and a digit string reads back to the address and the digits' value |
| Blockchain.ContributionMessageParts | utils/blockchain.ts:82-89 | the contribution message holds, in place, the amount, the name, the short address and the address link |
| Blockchain.ContributionQRPayment | utils/blockchain.ts:68-98 | for an amount in ether the QR encodes `ethereum:<address>?value=<wei as an integer>`, the `qrCode` is `data:image/png;base64,` + the rendered data, a rendering failure becomes "QR Code Generation Failed: ..." with the description, and the message names the fundraiser, the amount, the short address and the explorer link |
| Blockchain.ContributionQRParsed | utils/blockchain.ts:73-91 | for any amount `parseEther` accepts, the QR encodes the URI of its wei value and the message is the fixed template |
| Blockchain.GenerateContributionQR | utils/blockchain.ts:68-98 | an error exactly when `parseEther` rejects the amount or the drawing of the payment URI fails, and then the error starts with "QR Code Generation Failed: "; on success the code is a `data:image/png;base64,` URL |
| Blockchain.ContributionMessageNames | utils/blockchain.ts:83-89 | the message contains the name, the amount, the short address and the explorer link |
| Blockchain.ContributionQRRejects | utils/blockchain.ts:74-97 | an amount `parseEther` rejects fails with "QR Code Generation Failed: " + the parse error, and no QR is rendered |
| Blockchain.ShortFormOfAddress | utils/blockchain.ts:80 | the short address has 13 characters: the first six, "..." and the last four |
| UrlHelpers.GenerateFundraiserURL | utils/urlHelpers.js:12-16 | a link is made exactly for a valid address; any other address, the empty one included, fails with "Invalid wallet address format..." |
| UrlHelpers.FundraiserURLShape | utils/urlHelpers.js:19-39 | the link is `https://zeonai.xyz/fundraiser/<address>` followed by `?` and the serialization of goal, name and network, each only when non-empty and in that order |
| UrlHelpers.SetParamsAppends | utils/urlHelpers.js:25-36 | the three conditional `searchParams.set` calls append exactly the non-empty parameters, in order |
| UrlHelpers.SetIfTruthyAppends | utils/urlHelpers.js:25-27 | setting a parameter the page does not have appends it when its value is non-empty and changes nothing otherwise |
| UrlHelpers.ParamPairsGet | utils/urlHelpers.js:25-36 | `get` on the parameters finds goal, name and network exactly when given, with their values |
| UrlHelpers.FundraiserURLReadsBack | utils/urlHelpers.js:19-39 | parsing the link gives the page of the address with exactly the given parameters, each read back as it was passed |
| UrlHelpers.FundraiserPageParses | utils/urlHelpers.js:19-22 | `new URL` of the base and the address succeeds and gives the fundraiser page |
| UrlHelpers.FundraiserPageHref | utils/urlHelpers.js:19-22 | the page without a query serializes to the text it was parsed from |
| UrlHelpers.PageWithRoundTrip | utils/urlHelpers.js:39 | the page with a query serializes to a text that parses back to it, and its search parameters are the given ones |
| UrlHelpers.FundraiserURLNoDoubleEncoding | utils/urlHelpers.js:29-32 | for parameters without `%`, the link holds no `%25`: nothing is encoded twice |
| UrlHelpers.FundraiserURLTwoWordName | utils/urlHelpers.js:29-32 | a goal and a two-word name give `?goal=<goal>&name=<first>+<last>` |
| UrlHelpers.FormEncodeTwoWords | utils/urlHelpers.js:31 | a space in a name is written `+` |
| UrlHelpers.SafeURLEncodeCases | utils/urlHelpers.js:76-94 | a text is returned as it is exactly when it holds a `%` and `decodeURIComponent` accepts it; every other text goes through `encodeURIComponent` |
| UrlHelpers.SafeURLEncodeIdempotent | utils/urlHelpers.js:76-94 | encoding safely twice gives the same as once |
| UrlHelpers.SafeURLEncodeDecodes | utils/urlHelpers.js:76-94 | the result always decodes, to the argument itself unless the argument was taken to be encoded already |
| UrlHelpers.SafeURLEncodeTwoWords | utils/urlHelpers.js:93 | `first last` becomes `first%20last` |
| UrlHelpers.SafeURLEncodeLeavesTwoWords | utils/urlHelpers.js:81-86 | `first%20last` is returned unchanged |
| UrlHelpers.RepairWithoutEscapedPercent | utils/urlHelpers.js:52-58 | a text without `%25` passes the six replacements unchanged |
| UrlHelpers.RepairSpacesComplete | utils/urlHelpers.js:66 | the fallback leaves no `%2520` |
| UrlHelpers.FixDoubleEncodedURLFallback | utils/urlHelpers.js:47-67 | the result is empty exactly for the empty argument; when decoding or parsing fails the result holds no `%2520` |
| UrlHelpers.FixRepairsNothing | utils/urlHelpers.js:52-58 | a generated link whose parameters hold no `%` has nothing to repair |
| UrlHelpers.FixDecodesAndParses | utils/urlHelpers.js:61-62 | a link with nothing to repair becomes the serialization of the URL its decoding parses to |
| UrlHelpers.FixDoubleEncodedURLSplitsName | utils/urlHelpers.js:61 | (as written) a generated link whose name is `first&key=value` comes back with the name `first` and an extra parameter `key` |
| UrlHelpers.FixDoubleEncodedURLCorrectedKeepsLinks | utils/urlHelpers.js:47-67 | (corrected) without the whole-link decode, every generated link whose parameters hold no `%` is left as it is |
| UrlHelpers.SplitNameLink | utils/urlHelpers.js:29-32 | a name `first&key=value` is written `name=first%26key%3Dvalue` |
| UrlHelpers.DecodeSplitNameLink | utils/urlHelpers.js:61 | decoding that link turns the escaped `&` and `=` into separators |
| UrlHelpers.SplitPairsGet | utils/urlHelpers.js:61-62 | the reparsed link has `name` = `first` and `key` = `value` |
| QrCodeGenerator.GetEnvironmentConfig | utils/qrCodeGenerator.js:7-28 | the configuration is the development one (`http://localhost:3000`) exactly when `NODE_ENV` is `development` or the page's host name is `localhost`, the production one otherwise; the API path is `/api/qr-code` in both |
| QrCodeGenerator.ServiceUrlParses | utils/qrCodeGenerator.js:41 | `new URL(baseURL + apiPath)` succeeds for both configurations and serializes back to that text |
| QrCodeGenerator.QrCodeURLShape | utils/qrCodeGenerator.js:37-53 | the result is base + `/api/qr-code?` + the serialization of walletAddress, amount, fundraiserName, `network=base-sepolia`, `chainId=84532` in that order, and it parses back with exactly those parameters |
| QrCodeGenerator.QrCodeURLRecord | utils/qrCodeGenerator.js:41-52 | the five `set` calls give the service URL with the five parameters |
| QrCodeGenerator.SetQrParamsAppends | utils/qrCodeGenerator.js:44-50 | setting five distinct names appends them in order |
| QrCodeGenerator.QrUrlHref | utils/qrCodeGenerator.js:52 | the serialized QR URL is base + path + `?` + the serialized parameters |
| QrCodeGenerator.QrUrlParses | utils/qrCodeGenerator.js:52 | the serialized QR URL parses back to itself, with the five parameters |
| QrCodeGenerator.ReadCryptoQRData | utils/qrCodeGenerator.js:62-71 | the EIP-681 URI starts with `ethereum:<address>@84532?value=` and reads back to the address, chain 84532 and the amount text |
| QrCodeGenerator.AcceptsQrUrlMeans | utils/qrCodeGenerator.js:83-89 | a parsed URL is accepted exactly when it is `https`, or `http` on `localhost` |
| QrCodeGenerator.ValidateQRCodeURLMeans | utils/qrCodeGenerator.js:78-93 | the text is accepted exactly when it parses and is `https`, or `http` on `localhost`; a parse failure gives false |
| QrCodeGenerator.ValidateQRCodeURLRelative | utils/qrCodeGenerator.js:90-92 | a relative URL is refused, not thrown on |
| QrCodeGenerator.ValidateQRCodeURLHttps | utils/qrCodeGenerator.js:83-89 | every absolute https URL is accepted |
| QrCodeGenerator.GeneratedQRCodeURLValid | utils/qrCodeGenerator.js:37-93 | whatever the environment, the generated QR URL is accepted by the validator |
| Client.ByteHex | helpers/client.ts:14 | a byte becomes its two lower-case hex digits, high then low (`toString(16).padStart(2, '0')`) |
| Client.HexDigitValue | helpers/client.ts:14 | each lower-case hex digit has a value below 16 that maps back to it |
| Client.HexBodyAt | helpers/client.ts:13-15 | the digits at 2i and 2i+1 are those of byte i: order is kept |
| Client.HexBodyDigits | helpers/client.ts:13-15 | every character of the body is a lower-case hex digit |
| Client.GenerateEncryptionKeyHex | helpers/client.ts:9-17 | 32 bytes give `0x` and 64 lower-case hex digits |
| Client.GeneratePrivateKeyHex | helpers/client.ts:23-31 | 32 bytes give `0x` and 64 lower-case hex digits |
| Client.ParseHexBodyInverts | helpers/client.ts:13-15 | reading the hex body back gives the bytes |
| Client.HexBodyOfParse | helpers/client.ts:13-15 | every text that reads back is the body of its bytes, so the encoding is a bijection |
| Client.KeyHexRoundTrip | helpers/client.ts:16 | the prefixed key reads back to its bytes |
| Client.KeptLines | helpers/client.ts:48 | a line is kept exactly when it is not blank after trimming and does not start with `#` |
| Client.LineEntryMeans | helpers/client.ts:49-52 | a line gives an entry exactly when it has a `=` and does not start with one; the key is the trimmed text before the first `=`, the value the trimmed rest with later `=` kept |
| Client.LineEntryWithoutEquals | helpers/client.ts:50-51 | a line with no `=` is ignored |
| Client.LineEntryAtEquals | helpers/client.ts:50-51 | the entry of a line with a `=` is cut at its first `=` |
| Client.CollectAssigns | helpers/client.ts:45-53 | the `reduce` over the kept lines assigns the entries of the lines in order |
| Client.CollectHasKey | helpers/client.ts:45-53 | a key is defined exactly when some line gives it |
| Client.LastDefinitionWins | helpers/client.ts:49-53 | the value of a key is that of the last line giving it |
| Client.LaterLineOverrides | helpers/client.ts:49-53 | of two lines with the same key, the second one's value is kept |
| Client.AssignLastWins | helpers/client.ts:51 | in a sequence of assignments the last one to a key wins |
| Client.AssignHasKey | helpers/client.ts:51 | a key is assigned exactly when some entry sets it |
| Client.Missing | helpers/client.ts:39-64 | the missing names are exactly the requested ones that are unset or empty |
| Client.FillFromLookup | helpers/client.ts:55-57 | the `.env` value is written exactly for a missing requested name it defines, everything else is kept |
| Client.Merged | helpers/client.ts:41-57 | when nothing is missing, or there is no `.env` file, the environment is unchanged |
| Client.MergedKeepsSet | helpers/client.ts:55-57 | a variable already set is never overwritten |
| Client.MergedKeepsOthers | helpers/client.ts:55-57 | a variable that was not requested is never touched |
| Client.Outcome | helpers/client.ts:64-74 | failure exactly when a requested name is still unset, listing exactly those; success gives exactly the requested keys with their values |
| Client.ValidateSucceedsIff | helpers/client.ts:38-74 | validation succeeds exactly when each requested name is set in the environment or in the `.env` file |
| Client.Environment.ValidateEnvironment | helpers/client.ts:38-75 | `process.env` becomes the merge of the old one with the `.env` file, and the result is the outcome over the new environment |
| Client.NonEmpty | helpers/client.ts:88 | the empty segments are dropped and nothing else |
| Client.ResolveClean | helpers/client.ts:88 | the segments `path.join` keeps after normalising have no empty or `.` segment, and a normalised absolute path never climbs above the root |
| Client.JoinPlainSegments | helpers/client.ts:88 | `path.join` of two plain segments is `a/b` |
| Client.DefaultStoragePath | helpers/client.ts:82-88 | with no mount path and no description the storage path is `.data/data` |
| Client.VolumeStoragePath | helpers/client.ts:83-88 | a plain mount path and description give `mount/description` |
| Client.EmptyMountPath | helpers/client.ts:83-88 | an empty mount path (set but empty, so `??` keeps it) gives the description alone |
| SessionMemory.SweptKeepsExactly | index.ts:147-158 | a session survives the sweep exactly when now − lastActivity ≤ 86 400 000 ms, and a surviving session is unchanged |
| SessionMemory.SweepIdempotent | index.ts:147-158 | sweeping twice at the same time removes nothing more |
| SessionMemory.LaterSweepKeepsLess | index.ts:147-158 | a later sweep keeps no session an earlier one removed |
| SessionMemory.ActiveSessionSurvives | index.ts:153 | a session active at the time of the sweep is kept |
| SessionMemory.MemoryStore.CleanupOldMemories | index.ts:147-158 | the store becomes exactly the old store without the expired sessions |
| SessionMemory.Remember | index.ts:845-885 | a push appends exactly one entry at the end and stamps lastActivity |
| SessionMemory.AfterMessageAppends | index.ts:845-885 | a message appends the user's entry and then one assistant entry, or only the user's entry when the model threw; earlier entries are kept |
| SessionMemory.ToModelAll | index.ts:853-857 | each remembered entry becomes a human or AI message, in order |
| SessionMemory.ContextEndsWithCurrent | index.ts:852-862 | the model's context is the last 20 entries as messages, has between 1 and 20 messages and ends with the current user message, so the guard never adds it twice |
| SessionMemory.MemoryStore.ProcessMessage | index.ts:833-906 | the session's record (in the store, else loaded, else new) gets the message and the answer and is written back; the context is that of the record after the user's entry; the reply is the answer or the classified error text |
| SessionMemory.ProcessErrorOrder | index.ts:894-905 | the first matching substring of '401', 'insufficient funds', 'invalid address', 'network' decides the reply; with none, the generic reply quotes the error message |
| SessionMemory.GenericErrorReply | index.ts:905 | the generic reply contains the error message |
| SessionMemory.FixedRepliesDistinct | index.ts:896-903 | the four fixed replies are distinct texts |
| ChatApi.FirstTruthy | index.ts:1143-1144 | a chain of `||` is truthy exactly when one operand is, and its value is one of the operands |
| ChatApi.FirstTruthyIsFirst | index.ts:1143-1144 | the value of the chain is its first truthy operand |
| ChatApi.FirstTruthyNone | index.ts:1143-1144 | with no truthy operand the chain gives its last one |
| ChatApi.MessageOfTruthy | index.ts:1143-1149 | a message is found exactly when message, text, content or query is truthy |
| ChatApi.MessageAliasOrder | index.ts:1143 | the message is the first truthy field of message, text, content, query |
| ChatApi.SessionIdOf | index.ts:1144 | the session id chain always ends in a truthy value ('default-session' at worst) |
| ChatApi.SessionIdFallback | index.ts:1144-1160 | the session id is the first truthy of sessionId, session_id, userId, user_id, id, unless it is missing or 'default-session', in which case it is a generated `session-…` id |
| ChatApi.RequestStatus | index.ts:1140-1183 | 400 exactly when no message field is given (with the error text and the body received), checked before readiness; 503 exactly when there is a message and the agent is not ready; 200 exactly when the agent answers; 500 otherwise |
| ChatApi.SuccessReply | index.ts:1170-1178 | a 200 reply carries the answer and metadata with the effective session id |
| Cors.ListedAllowed | index.ts:1010-1025 | a request without an origin and the eight listed origins are allowed in every environment |
| Cors.OutsideProductionOnlyListed | index.ts:1012-1032 | outside production exactly the listed origins (and no origin) are allowed |
| Cors.SubdomainsAllowed | index.ts:1026-1028 | in production every `https://<sub>.zeonai.xyz` origin is allowed |
| Cors.IntendedWithinWritten | index.ts:1026-1032 | every origin the corrected rule allows, the rule as written allows too |
| Cors.ForeignHostAllowedAsWritten | index.ts:1026 | (as written) in production `https://zeonai.xyz.evil.example` is allowed by the substring test, and denied by the corrected host rule |
| Tools.InvalidAddressNeverQueries | index.ts:262-265 | the QR, contributors, status and balance tools answer "❌ Invalid Address" for an invalid address whatever the chain would have answered (the same check stands at lines 537-540, 612-615 and 657-660) |
| Tools.ParseAmountFromInput | index.ts:188-222 | fails exactly when no amount pattern matches, and then the error quotes the input |
| Tools.AmountParseError | index.ts:222 | the thrown message starts with "Could not parse amount from: \"" and quotes the input right after it |
| Tools.QrCodeTool | index.ts:258-275 | an invalid address gets "❌ Invalid Address"; otherwise the JSON text of the contribution QR, or, when it fails, "❌ QR Code Error" ending with the error's message |
| Tools.QrCodeToolJson | index.ts:268-269 | the QR tool's text parses back to the contribution QR's message and code |
| Tools.ContributorLines | index.ts:574-583 | one line per contributor, in order |
| Tools.ContributorListOneLine | index.ts:583 | (as written) the contributors joined with the two characters `\n` form a single line |
| Tools.ContributorListLines | index.ts:574-583 | (corrected) splitting the joined list at newlines gives back exactly one line per contributor |
| Tools.ContributorLineSingle | index.ts:578-582 | a contributor's line holds no newline |
| Tools.ContributorsToolAsWritten | index.ts:533-597 | (as written) an invalid address gets "❌ Invalid Address"; a failed lookup ends with the error's message; otherwise the reply ends with the contract footer, starts with "🤔 No Contributions Yet" when there are none, and contains every contributor's line |
| Tools.ContributorsTool | index.ts:533-597 | (corrected) the same outcomes, with the lines joined by newlines |
| Tools.ContributorsToolAgreesAsWritten | index.ts:583 | the written and the corrected tool agree on every reply with at most one contributor; from two on, the written reply is one character longer per separator |
| Tools.StatusTool | index.ts:608-641 | an invalid address gets "❌ Invalid Address"; an answer of the contract gives a reply containing the active or ended text and ending with the contract's explorer link; a failed call ends with the error's message |
| Tools.BalanceTool | index.ts:653-680 | an invalid address gets "❌ Invalid Address"; a failed call ends with the error's message |
| Tools.BalanceShown | index.ts:666-674 | the balance reply ends with the `formatEther` text and " ETH (on Base Sepolia)", and that text parses back to the exact wei amount |
| Tools.RecipientClasses | index.ts:711-731 | a recipient with a `.` is resolved as a name, else a valid address is sent to directly, else it is refused; a valid address never takes the name path |
| Tools.SendFundsTool | index.ts:693-699 | the tool throws exactly when the amount mentions dollars and no amount pattern matches it, with the parser's error; otherwise the reply is that for the amount read (when it mentions dollars) or the amount as given |
| Tools.InvalidRecipientRefused | index.ts:728-731 | once the amount is read, a recipient that is neither a name nor an address gets "❌ Invalid Recipient" |
| Tools.ValidAddressSentDirectly | index.ts:726-727 | a valid address is sent to as it is |
| Tools.UnresolvedName | index.ts:715-724 | a name that does not resolve gets "❌ Name Not Found" |
| Tools.TransferIsTransaction | index.ts:748-752 | a sent transfer is reported as a "Send Funds" transaction with from, to and value |
| Tools.TransferReported | index.ts:748-752 | the transfer reply is the success text, the details header and the From, To and Value lines |
| Tools.TransferDetailLines | index.ts:748-752 | only the From, To and Value lines are present |
| Tools.GasBump | index.ts:737 | the bumped price is ⌊p·percent/100⌋, undefined exactly when the network reports no or a zero price, and never below p for a bump of 100 % or more |
| Tools.ToolGasPrices | index.ts:340 | deploy uses ⌊p·150/100⌋ and send ⌊p·120/100⌋, both at least p (the send tool at line 737) |
| DeployTool.DeployErrorOrder | index.ts:478-521 | 'insufficient funds' is checked before 'nonce'; with neither the generic reply quotes the error |
| DeployTool.FinalGoalAmount | index.ts:303-317 | a non-empty user message is read by `parseAmountFromInput` and fails exactly when it holds no amount, with the parser's error; without one the goal is read the same way and kept as given when it holds no amount |
| DeployTool.DeployFundraiserAsWritten | index.ts:289-324 | (as written) a failed amount read gives the deploy error reply to its message; after a read goal, an invalid beneficiary gets "❌ Invalid Address" |
| DeployTool.DeployFundraiser | index.ts:289-324 | (corrected) the same two outcomes, and the same reply as the written tool on every confirmation but a reverted receipt |
| DeployTool.AmountParseFailureFirst | index.ts:305-307 | a non-empty user message holding no amount fails the deployment, in both tools, with the deploy error reply to the parser's message, which quotes the user's message |
| DeployTool.FailedReplyQuotes | index.ts:505-521 | the generic deploy failure quotes the error message |
| DeployTool.ConfirmOutcomes | index.ts:366-420 | the deployment is confirmed exactly when waiting succeeds or the receipt has a contract address; reverted exactly for a receipt with status 0 and no address; submitted exactly when the receipt lookup throws |
| DeployTool.ConfirmAgreesAsWritten | index.ts:376-381 | (as written) the code agrees with the corrected confirmation except for a reverted receipt, which it reports as submitted |
| DeployTool.RevertedReportedAsSubmitted | index.ts:380-408 | (as written) a reverted receipt gets "Deployment Submitted - Please Wait"; corrected, the deploy error reply |
| DeployTool.RevertedOutcome | index.ts:380-381 | (corrected) a reverted deployment gets the deploy error reply |
| DeployTool.SubmittedOutcome | index.ts:406-408 | a receipt lookup that fails gets the submitted reply |
| DeployTool.InvalidBeneficiaryRefused | index.ts:319-324 | once the goal is read, an invalid beneficiary gets "❌ Invalid Address", whatever the provider would have answered |
| DeployTool.DeploySucceeded | index.ts:366-470 | a confirmed deployment is reported with the main deployment text, naming the contract address, the goal and both explorer links |
| DeployTool.PendingRepliesLink | index.ts:384-420 | the in-progress and submitted replies name the transaction hash and its link |
| DeployTool.PendingReplies | index.ts:384-420 | both pending replies start with "⏳" and differ |
| DeployTool.ErrorReplyStart | index.ts:478-521 | every error reply starts with "❌" or "🔄" |
| DeployTool.DeployReplySubmitted | index.ts:352-470 | once the transaction is submitted the reply is decided by the confirmation alone |
| BalanceManagement.BalanceManager.constructor | utils/balance-manager.ts:24-38 | minimum "0.001", target "0.005" and recheck 60 000 ms unless overridden; balance "0", low, no cache, not monitoring |
| BalanceManagement.MergeLaws | utils/balance-manager.ts:168-171 | a spread of a partial configuration changes exactly the keys given; applying it twice is applying it once; an empty one changes nothing |
| BalanceManagement.BalanceManager.GetCurrentBalance | utils/balance-manager.ts:43-78 | the balance, the cache and the status become those of the read the source performs; the balance returned is the one the status shows, also when the read fails and the fallback answers; the configuration and the monitor are untouched |
| BalanceManagement.CachedReadIgnoresProvider | utils/balance-manager.ts:47-49 | with the cache asked for and younger than 30 000 ms, the cached value is returned whatever the provider would say, and nothing changes |
| BalanceManagement.ReadOutcomes | utils/balance-manager.ts:51-77 | a fresh read sets the cache and the status to the same value stamped now, with isLowBalance = balance < minimum and the alert time kept; a failed read returns the cached value or "0" and changes nothing |
| BalanceManagement.BalanceTextValue | utils/balance-manager.ts:57 | the six-decimal text parses back to the wei amount rounded to millionths of an ether |
| BalanceManagement.MicroEtherRounds | utils/balance-manager.ts:57 | the millionths are the wei amount rounded half up |
| BalanceManagement.FailedReadFallback | utils/balance-manager.ts:76 | a failed read without a cache gives "0" |
| BalanceManagement.FailedReadBelowMinimum | utils/balance-manager.ts:76-85 | that "0" is below any positive minimum |
| BalanceManagement.DefaultMinimumValue | utils/balance-manager.ts:27 | the default minimum reads as 0.001 |
| BalanceManagement.DefaultLowBalance | utils/balance-manager.ts:27-85 | with the default minimum a balance is low exactly below 1000 millionths of an ether |
| BalanceManagement.ComparisonsAgree | utils/balance-manager.ts:68-85 | when both texts parse, "≥ minimum" is the negation of "< minimum"; when one does not (NaN), both comparisons are false |
| BalanceManagement.BalanceManager.IsBalanceSufficient | utils/balance-manager.ts:83-86 | sufficient exactly when the balance read is at least the minimum |
| BalanceManagement.BalanceManager.EnsureSufficientBalance | utils/balance-manager.ts:91-110 | always reads past the cache; ready exactly when the balance is at least the minimum; only when not ready is the alert time set, with a message naming the balance, the minimum and the wallet |
| BalanceManagement.LowBalanceMessageNames | utils/balance-manager.ts:108 | the message contains the balance and the minimum and ends with the wallet address |
| BalanceManagement.BalanceManager.StartMonitoring | utils/balance-manager.ts:115-124 | a no-op when already monitoring; otherwise one uncached read, then monitoring |
| BalanceManagement.BalanceManager.MonitorTick | utils/balance-manager.ts:125-143 | one tick reads past the cache and stamps the alert only when the balance is low and there was no alert or the last is more than 300 000 ms old |
| BalanceManagement.AlertThrottle | utils/balance-manager.ts:133-136 | after an alert at t, the next is due exactly after t + 300 000 ms |
| BalanceManagement.BalanceManager.StopMonitoring | utils/balance-manager.ts:150-156 | monitoring stops and nothing else changes, also when it was not running |
| BalanceManagement.BalanceManager.GetStatus | utils/balance-manager.ts:161-163 | the status is returned as a value, so the caller cannot change the manager's |
| BalanceManagement.BalanceManager.UpdateConfig | utils/balance-manager.ts:168-171 | the configuration becomes the old one with the given keys replaced; nothing else changes |
| ChatInterface.ExtractPayload | frontend/src/components/ChatInterface.tsx:171-195 | a recognised payload has a truthy response, qrCode and qrMessage |
| ChatInterface.PayloadShapes | frontend/src/components/ChatInterface.tsx:171-195 | a payload is found exactly for an object with a truthy qrCode and either truthy response and qrMessage or a truthy message; the first shape is returned as it is and wins; the second gives response = qrMessage = message |
| ChatInterface.StringLiteralRefused | frontend/src/components/ChatInterface.tsx:173-184 | the text is parsed once only, so a JSON string literal gives null |
| ChatInterface.ExtractPayloadFromResponse | frontend/src/components/ChatInterface.tsx:173-184 | a text `JSON.parse` rejects, or `null`, gives no payload; a payload found has a truthy response, code and message |
| ChatInterface.AgentPayloadRecognised | frontend/src/components/ChatInterface.tsx:173-180 | the serialized `{response, qrCode, qrMessage}` object the agent sends is recognised with its three values |
| ChatInterface.PayloadOfObject | frontend/src/components/ChatInterface.tsx:174-180 | an object with three non-empty strings is returned as it is |
| RegexText.FirstAddressLeftmost | frontend/src/components/ChatInterface.tsx:127-131 | the address found is a valid `0x` + 40 hex digit substring at the leftmost position where one occurs, with no boundary check; null exactly when none occurs |
| RegexText.AddressAt | frontend/src/components/ChatInterface.tsx:128 | the pattern matches at a position exactly when the 42 characters there form a valid address |
| RegexText.FirstMatchLeftmost | frontend/src/components/ChatInterface.tsx:129-148 | `match` without the global flag gives the match at the leftmost position, null exactly when no position matches |
| RegexText.FirstFrom | frontend/src/components/ChatInterface.tsx:129 | the search returns the first matching position from the start, or none when none matches |
| RegexText.RunFacts | frontend/src/components/ChatInterface.tsx:147 | a greedy run covers exactly the longest prefix of matching characters |
| RegexText.SplitFromConcat | frontend/src/components/ChatInterface.tsx:154 | the parts of `split` with a capturing group concatenate back to the text |
| RegexText.SplitFromShape | frontend/src/components/ChatInterface.tsx:154 | `split` with a capturing group alternates gaps without a match and matches, odd parts being matches |
| ChatInterface.AmountLeftmost | frontend/src/components/ChatInterface.tsx:146-150 | the amount is the number text of the leftmost `<digits>[.digits] ETH` match (case-insensitive), null exactly when there is none |
| ChatInterface.ExtractContributionAmount | frontend/src/components/ChatInterface.tsx:146-150 | an amount found is a number text that stands in the message |
| ChatInterface.AmountAt | frontend/src/components/ChatInterface.tsx:147 | a match at a position gives the number text found there |
| ChatInterface.NumberEnd | frontend/src/components/ChatInterface.tsx:147 | `\d+\.?\d*` ends after a well-formed number text |
| ChatInterface.AmountRoundTrip | frontend/src/components/ChatInterface.tsx:146-150 | a message that starts with a number text and " ETH" gives back that number text |
| ChatInterface.UrlEnd | frontend/src/components/ChatInterface.tsx:153 | a URL match is `http://` or `https://` followed by a maximal run of non-whitespace |
| ChatInterface.UrlPartsShape | frontend/src/components/ChatInterface.tsx:153-154 | the parts alternate text without a URL and URL matches of the text |
| ChatInterface.LinksAreUrls | frontend/src/components/ChatInterface.tsx:156-158 | every link piece is a URL and every URL part becomes a link piece |
| ChatInterface.BoldEnd | frontend/src/components/ChatInterface.tsx:161 | a bold match starts and ends with `*` and is at least two characters long |
| ChatInterface.RenderTextWithLinks | frontend/src/components/ChatInterface.tsx:152-169 | (corrected) the pieces show the whole text in order: links verbatim, bold pieces with their two `*` |
| ChatInterface.RenderTextWithLinksAsWritten | frontend/src/components/ChatInterface.tsx:152-169 | (as written) piece for piece the corrected rendering, except that a lone `*` becomes an empty bold piece |
| ChatInterface.PartShown | frontend/src/components/ChatInterface.tsx:161-167 | (corrected) a text part's pieces show it unchanged |
| ChatInterface.BoldPiecesShown | frontend/src/components/ChatInterface.tsx:161-167 | (corrected) the bold split of a part shows the part |
| ChatInterface.LoneAsteriskDropped | frontend/src/components/ChatInterface.tsx:162-163 | (as written) a lone `*` both starts and ends with `*` and is shown as an empty bold piece, losing the character; corrected, it stays text |
| ChatInterface.ReplyMessageOutcomes | frontend/src/components/ChatInterface.tsx:82-97 | the reply is an 'agent' message exactly when the response is ok and its body has a truthy response; otherwise one 'system' error message "Failed to send message: …" with the reason |
| ChatInterface.ReplyMessageStamped | frontend/src/components/ChatInterface.tsx:45-51 | a message is stamped with its time and the id is the time's decimal text |
| ChatInterface.History | frontend/src/components/ChatInterface.tsx:75-78 | one history entry per message |
| ChatInterface.HistoryAfterSend | frontend/src/components/ChatInterface.tsx:75-125 | after a send the history grows by a 'user' entry for the wallet's message and an 'assistant' entry for the reply: a message is the user's exactly when its sender is the connected wallet |
| ChatInterface.ChatView.constructor | frontend/src/components/ChatInterface.tsx:28-30 | the list starts empty, the input empty and not typing |
| ChatInterface.ChatView.AddMessage | frontend/src/components/ChatInterface.tsx:44-53 | exactly one message is appended at the end; earlier messages are unchanged |
| ChatInterface.ChatView.SendMessage | frontend/src/components/ChatInterface.tsx:55-98 | a no-op on a blank input or without a wallet; otherwise the request carries the trimmed message, the history and the wallet, the list grows by the user message and exactly one reply or error message, the input is cleared and typing ends |
| ExampleChat.SvgBounds | examples/xmtp-coinbase-agentkit/frontend/src/components/ChatInterface.tsx:15 | the SVG match lies within the content |
| ExampleChat.SvgBoundsFirst | examples/xmtp-coinbase-agentkit/frontend/src/components/ChatInterface.tsx:15 | the SVG begins at the first `<svg` and ends at the first `</svg>` after it (lazy match); there is none exactly when no `</svg>` follows a `<svg` |
| ExampleChat.ShownWhenSvgCloses | examples/xmtp-coinbase-agentkit/frontend/src/components/ChatInterface.tsx:14-21 | the QR view is shown exactly when some `</svg>` follows a `<svg`; otherwise the content is shown with every backtick removed and every other character kept, in order |
| ExampleChat.SvgSegment | examples/xmtp-coinbase-agentkit/frontend/src/components/ChatInterface.tsx:15-25 | the SVG segment starts with `<svg`, ends with its first `</svg>` and starts at the first `<svg` of the content |
| ExampleChat.QrViewCut | examples/xmtp-coinbase-agentkit/frontend/src/components/ChatInterface.tsx:15-26 | the view is the text before the fence, the SVG and the text after the trailing fence |
| ExampleChat.ContentPartition | examples/xmtp-coinbase-agentkit/frontend/src/components/ChatInterface.tsx:15 | the content is exactly text before + optional fence, `svg` tag and spaces + SVG + spaces and fence + text after |
| ExampleChat.LeadStartLeast | examples/xmtp-coinbase-agentkit/frontend/src/components/ChatInterface.tsx:15 | the lazy `(.*?)` leaves the fence as long as it can be |
| ExampleChat.AddressFromTextBefore | examples/xmtp-coinbase-agentkit/frontend/src/components/ChatInterface.tsx:23-31 | the address is a valid one found in the trimmed text before the SVG, never in the SVG or after it |
| ExampleChat.ReplyOutcomes | examples/xmtp-coinbase-agentkit/frontend/src/components/ChatInterface.tsx:112-136 | the reply is one 'agent' message: `data.response` on success, or the fixed error text typed 'error' when the request failed |
| ExampleChat.ExampleChatView.constructor | examples/xmtp-coinbase-agentkit/frontend/src/components/ChatInterface.tsx:72-82 | the list is a single agent greeting with id '1', the input is empty, not loading |
| ExampleChat.ExampleChatView.SendMessage | examples/xmtp-coinbase-agentkit/frontend/src/components/ChatInterface.tsx:94-138 | a no-op on a blank input or while loading; otherwise the user message, then exactly one agent message, are appended, the input is cleared and loading ends |
| AppRoutes.RouteFor | frontend/src/App.tsx:84-93 | `/` shows the main app, `/fundraiser/<w>` with a non-empty w the fundraiser route with w as its wallet address, anything else nothing |
| AppRoutes.ParamOr | frontend/src/App.tsx:27-30 | `get(name) \|\| fallback` is the parameter when present and non-empty, the fallback otherwise |
| AppRoutes.FundraiserRouteAsWritten | frontend/src/App.tsx:23-46 | (as written) "Invalid fundraiser link" exactly when the wallet address is missing or empty |
| AppRoutes.FundraiserRoute | frontend/src/App.tsx:23-46 | (corrected) the same error case, and the page is always shown otherwise: no decode can throw |
| AppRoutes.PageDefaults | frontend/src/App.tsx:24-43 | the wallet address is passed unchecked, contributors are empty, goal, name and current default to '1', 'Fundraiser' and '0', and the description is undefined exactly when absent or empty |
| AppRoutes.RoutedLinkNeverInvalid | frontend/src/App.tsx:32-34 | a location the route table sends to the fundraiser route never shows the error text (the route table sends `/fundraiser/:walletAddress` here at line 89) |
| AppRoutes.AsWrittenWithoutPercent | frontend/src/App.tsx:40-41 | with no `%` in the name or the description, the second decode changes nothing |
| AppRoutes.LonePercentThrows | frontend/src/App.tsx:40 | `decodeURIComponent` throws on a text ending in a `%` with no escape before it |
| AppRoutes.PercentNameThrows | frontend/src/App.tsx:40 | (as written) a link `generateFundraiserURL` made for a name such as `100%` renders nothing, because the second decode throws |
| AppRoutes.GeneratedLinkShowsPage | frontend/src/App.tsx:27-43 | (corrected) a link `generateFundraiserURL` made opens the fundraiser screen of its address, with the goal and name exactly as passed (or their defaults), no description and current '0' |
| AppRoutes.ParamPairsOtherKey | frontend/src/App.tsx:29-30 | a generated link carries no description and no current amount, so those take their defaults |
| ContractAddress.Render | frontend/src/components/ContractAddress.jsx:7-34 | 'Invalid address' exactly for a missing address or one that is not `0x` + 40 hex digits; otherwise a link exactly unless `showExplorerLink` is false (default true) |
| ContractAddress.ShownAddress | frontend/src/components/ContractAddress.jsx:14-34 | the link goes to `https://sepolia.basescan.org/address/<address>`, the address page of the explorer links, and reads first 6 + "..." + last 4 characters; without the link the full address is shown |
| ContractAddress.LinkDeterminesAddress | frontend/src/components/ContractAddress.jsx:19-25 | two valid addresses shown as links have the same target only when they are equal |

## Left out

- Network and SDK calls: XMTP, the LangChain agent and its LLM, ethers providers (fee data, deploy, send, receipts, name lookups and their timeouts), Express wiring and the frontends' `fetch`. Their results are parameters of the modelled operations.
- File and process I/O: `saveChatMemory`/`loadChatMemory`, `ensureOptimizedStorage`, the `.env` file read (its text is a parameter), and console logging. `process.exit` is a `Failure` result.
- Scheduling: `setInterval` and `setImmediate` are not modelled. A monitoring tick is a call to `BalanceManager.MonitorTick`, and the clock is a `now` parameter.
- Concurrency: the source has no locking, and races between requests on one session or one wallet nonce are not modelled.
- Floating point:
  - the USD-to-ETH conversion and `toFixed` in `parseAmountFromInput` (see `Tools.ParseAmountFromInput` below), and the suggested amount;
  - `parseFloat(amount) * 1e18` in `generateCryptoQRData`, which is modelled up to its `value=` prefix with the amount text as a parameter;
  - `generateCoinbaseWalletLink`;
  - the progress percentage.
- Balance readings: `parseFloat` is modelled as exact decimal arithmetic, not IEEE doubles.
- BalanceManagement.BalanceText: the six-decimal text is computed exactly, as `wei / 10^18` rounded half up to millionths. The source rounds twice: it first divides `Number(wei)` by `1e18` as doubles, then applies `toFixed(6)` to that double. The two differ where the double falls on the wrong side of a tie. For 500000000000 wei the double is just below 0.0000005, so the source shows "0.000000" where the model shows "0.000001". Above 2^53 wei, `Number(wei)` also loses digits. `BalanceTextValue` and `MicroEtherRounds` are facts about the exact computation.
- Tools.ParseAmountFromInput: the amount patterns of `parseAmountFromInput` are the parameter `amountIn`. So are its float arithmetic (`parseFloat`, the dollar price of 2000 and `toFixed(6)`) and the suggested amount. The model keeps which inputs fail and the message thrown.
- Blockchain.ContributionQRRejects: the error is "QR Code Generation Failed: " followed by the head of ethers' message. Ethers appends details to its message (the argument, its value, the library version), and those are left out.
- Blockchain.EtherErrorMessage: only the head of each ethers error message is kept, for the same reason.
- Decimal.ParseEther: ethers reads the amount into a fixed-point number 512 bits wide. It rejects an amount whose wei value does not fit (a numeric fault "overflow"), but the model accepts any such amount.
- Strings: texts are sequences of Unicode scalar values, where JavaScript strings are sequences of UTF-16 code units. Lone surrogates cannot be written in the model. The source's behaviour on them is therefore not modelled: `encodeURIComponent` throws a `URIError` and `JSON.stringify` escapes them. Lengths and `slice` count scalar values, so they differ from the source's on text outside the Basic Multilingual Plane.
- ChatInterface.ReplyMessage: the page stores `data.response` as the server sent it. The model stores `String(data.response)`, which is the same for a string. A response that is not a string (a number, say) makes `split` throw when the source renders the message, and the model does not capture that throw.
- QR images, base64, `keccak256` and `crypto.getRandomValues`: the rendered image data, the hash and the random bytes are parameters.
- `Blockchain.FormatDeployResponse` argument types: the QR argument is an object with `message` and `qrCode` texts (a missing or empty field gives the main section alone) or a text. A `null` argument, which makes the source throw when it reads `qrCode`, and `undefined` or other types, which give the main section alone, are not modelled.
- `ContractAddress.Render` argument types: non-string addresses and non-boolean `showExplorerLink` values are not modelled.
- The URL parser covers absolute URLs with a special scheme (`http`, `https`, `ws`, `wss`, `ftp`), a plain host and an optional port. Relative references, `file` URLs, IPv6 and IPv4 hosts, IDNA processing, credentials and non-special schemes are not modelled; where the source parses such a text, the model reads it as a parse failure.
- `AppRoutes.RouteFor`: react-router's case-insensitive matching, trailing slashes and splats are not modelled. The path is given as its segments.
- The `showChat` toggle in `MainApp` is UI state with no logic.
- `ExampleChatView` and `ChatView`: the copy-to-clipboard flag, timers and DOM scrolling are not modelled.
- Not part of this model:
  - `utils/fundraiser-contract.ts`, apart from the reply shape the chat window recognises;
  - `FundraiserPage.tsx`, `LandingPage.tsx`, `Footer.tsx`, `Header.tsx`, the example `App.tsx`, and the build configuration files;
  - `scripts/generateKeys.ts` and the test harness `utils/fundraiserTests.js`. The harness's expectations appear as lemmas (for example `UrlHelpers.SafeURLEncodeTwoWords`).

## Findings

| source | as written | input that shows it | evidently intended | confidence | as-written member | corrected member |
|---|---|---|---|---|---|---|
| utils/urlHelpers.js:61 | the repaired link is passed through `decodeURIComponent` as a whole before it is parsed again | a generated link whose name is `first&key=value` (serialized `first%26key%3Dvalue`) | a correct link comes back unchanged | not executed | UrlHelpers.FixDoubleEncodedURLSplitsName | UrlHelpers.FixDoubleEncodedURLCorrectedKeepsLinks |
| index.ts:1026 | in production, any origin containing `zeonai.xyz` is allowed | `https://zeonai.xyz.evil.example` | only `zeonai.xyz` and its subdomains are allowed | not executed | Cors.ForeignHostAllowedAsWritten | Cors.SubdomainsAllowed |
| index.ts:583 | contributors are joined with the two characters `\n` | two contributors | one contributor per line | not executed | Tools.ContributorsToolAsWritten | Tools.ContributorsTool |
| index.ts:380-381 | the "reverted" error is thrown inside the try whose catch answers "Deployment Submitted - Please Wait" | a receipt with status 0 and no contract address | the deploy error reply | not executed | DeployTool.RevertedReportedAsSubmitted | DeployTool.RevertedOutcome |
| frontend/src/components/ChatInterface.tsx:162-163 | a piece that is a single `*` starts and ends with `*` and is shown as empty bold text | the text `*` | a lone `*` stays text | not executed | ChatInterface.RenderTextWithLinksAsWritten | ChatInterface.RenderTextWithLinks |
| frontend/src/App.tsx:40-41 | the name and description are decoded again after `searchParams.get` has decoded them | a link from `generateFundraiserURL` whose name is `100%` | the page shows the name as it was passed | not executed | AppRoutes.PercentNameThrows | AppRoutes.GeneratedLinkShowsPage |
