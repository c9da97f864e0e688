/** The QR helpers of the fundraiser pages: the address of the QR image service for the
    environment the code runs in, the EIP-681 payment request a wallet reads from the
    code, and the check that a QR address is absolute and secure. */
module QrCodeGenerator {
  import opened Wrappers
  import opened Strings
  import FormUrlencoded
  import Decimal
  import Url
  import Blockchain

  /** Where the QR image service lives: a base URL and the path of the service. */
  datatype QrConfig = QrConfig(baseURL: string, apiPath: string)

  const Development: QrConfig := QrConfig("http://localhost:3000", "/api/qr-code")
  const Production: QrConfig := QrConfig("https://zeonai.xyz", "/api/qr-code")

  /** `getEnvironmentConfig`: the development service when `NODE_ENV` is `development` or
      the page is served from `localhost`, the production one otherwise. `nodeEnv` is
      `process.env.NODE_ENV` and `hostname` is `window.location.hostname`, `None` when
      unset or when there is no window. */
  function GetEnvironmentConfig(nodeEnv: Option<string>, hostname: Option<string>): (r: QrConfig)
    ensures r == Development || r == Production
    ensures r.apiPath == "/api/qr-code"
    ensures r.baseURL == "http://localhost:3000" <==> nodeEnv == Some("development") || hostname == Some("localhost")
  {
    var isDevelopment := nodeEnv == Some("development") || hostname == Some("localhost");
    if isDevelopment then Development else Production
  }

  /** The URL record of a service address. */
  function ServiceUrl(config: QrConfig): Url.Url
    requires config == Development || config == Production
  {
    if config == Development then Url.Url("http", "localhost", Some(3000), ["api", "qr-code"], None, None)
    else Url.Url("https", "zeonai.xyz", None, ["api", "qr-code"], None, None)
  }

  lemma ServicePathname()
    ensures Url.Pathname(["api", "qr-code"]) == "/api/qr-code"
  {
    var path := ["api", "qr-code"];
    assert path[1..] == ["qr-code"];
    assert Url.Pathname(["qr-code"]) == "/" + "qr-code" + Url.Pathname([]);
    assert Url.Pathname(path) == "/" + "api" + Url.Pathname(["qr-code"]);
  }

  lemma ServiceSegments(u: Url.Url)
    requires u.path == ["api", "qr-code"]
    ensures forall i :: 0 <= i < |u.path| ==> Url.IsPlainSegment(u.path[i])
  {
    forall i | 0 <= i < |u.path| ensures Url.IsPlainSegment(u.path[i]) {
      if i == 0 {
        Url.AlphanumericSegment("api");
      } else {
        Url.HyphenatedSegment("qr-code");
      }
    }
  }

  lemma DevelopmentPort()
    ensures Url.PortText(Some(3000)) == ":3000"
  {
    assert Decimal.NatToString(3) == "3";
    assert Decimal.NatToString(30) == Decimal.NatToString(3) + "0";
    assert Decimal.NatToString(300) == Decimal.NatToString(30) + "0";
    assert Decimal.NatToString(3000) == Decimal.NatToString(300) + "0";
  }

  lemma DevelopmentWellFormed()
    ensures Url.WellFormed(ServiceUrl(Development))
  {
    ServiceSegments(ServiceUrl(Development));
    Url.LetterHost("localhost");
    Url.WebPorts();
  }

  lemma ProductionWellFormed()
    ensures Url.WellFormed(ServiceUrl(Production))
  {
    ServiceSegments(ServiceUrl(Production));
    Url.LetterHost("zeonai.xyz");
    Url.WebPorts();
  }

  lemma DevelopmentOrigin()
    ensures "http" + "://" + "localhost" + ":3000" == "http://localhost:3000"
  {
  }

  lemma ProductionOrigin()
    ensures "https" + "://" + "zeonai.xyz" + "" == "https://zeonai.xyz"
  {
  }

  lemma DevelopmentHref()
    ensures Url.Href(ServiceUrl(Development)) == Development.baseURL + Development.apiPath
  {
    var u := ServiceUrl(Development);
    assert u == Url.Url("http", "localhost", Some(3000), ["api", "qr-code"], None, None);
    Url.HrefWithoutQuery(u);
    ServicePathname();
    DevelopmentPort();
    DevelopmentOrigin();
  }

  lemma ProductionHref()
    ensures Url.Href(ServiceUrl(Production)) == Production.baseURL + Production.apiPath
  {
    var u := ServiceUrl(Production);
    assert u == Url.Url("https", "zeonai.xyz", None, ["api", "qr-code"], None, None);
    Url.HrefWithoutQuery(u);
    ServicePathname();
    ProductionOrigin();
  }

  /** `new URL(baseURL + apiPath)` succeeds for both environments: the service address
      is well formed and parses to its record. */
  lemma ServiceUrlParses(config: QrConfig)
    requires config == Development || config == Production
    ensures Url.WellFormed(ServiceUrl(config))
    ensures Url.Href(ServiceUrl(config)) == config.baseURL + config.apiPath
    ensures Url.Parse(config.baseURL + config.apiPath) == Some(ServiceUrl(config))
  {
    if config == Development {
      DevelopmentWellFormed();
      DevelopmentHref();
    } else {
      ProductionWellFormed();
      ProductionHref();
    }
    Url.ParseHref(ServiceUrl(config));
  }

  /** The search parameters of a QR image address, in the order they are set. */
  function QrParams(walletAddress: string, amount: string, fundraiserName: string): seq<(string, string)> {
    [("walletAddress", walletAddress), ("amount", amount), ("fundraiserName", fundraiserName),
     ("network", "base-sepolia"), ("chainId", "84532")]
  }

  /** `generateQRCodeURL`: the service address with the wallet, the amount, the name, the
      network `base-sepolia` and the chain id 84532 set as search parameters, in that
      order. `amount` is the text `amount.toString()` gives. */
  function GenerateQRCodeURL(nodeEnv: Option<string>, hostname: Option<string>,
                             walletAddress: string, amount: string, fundraiserName: string): string
  {
    var config := GetEnvironmentConfig(nodeEnv, hostname);
    ServiceUrlParses(config);
    var qrURL := Url.Parse(config.baseURL + config.apiPath).value;
    Url.Href(Url.SetSearchParams(qrURL, QrParams(walletAddress, amount, fundraiserName)))
  }

  /** The URL record behind a QR image address. */
  function QrUrl(config: QrConfig, walletAddress: string, amount: string, fundraiserName: string): Url.Url
    requires config == Development || config == Production
  {
    Url.WithQuery(ServiceUrl(config), QrParams(walletAddress, amount, fundraiserName))
  }

  /** The five names are distinct, so each `set` appends. */
  lemma QrNamesDistinct(walletAddress: string, amount: string, fundraiserName: string)
    ensures Url.DistinctNames(QrParams(walletAddress, amount, fundraiserName))
  {
  }

  lemma SetQrParamsAppends(config: QrConfig, walletAddress: string, amount: string, fundraiserName: string)
    requires config == Development || config == Production
    ensures Url.SetSearchParams(ServiceUrl(config), QrParams(walletAddress, amount, fundraiserName))
      == QrUrl(config, walletAddress, amount, fundraiserName)
  {
    var pairs := QrParams(walletAddress, amount, fundraiserName);
    QrNamesDistinct(walletAddress, amount, fundraiserName);
    assert Url.WithQuery(ServiceUrl(config), []) == ServiceUrl(config);
    assert [] + pairs == pairs;
    Url.SetSearchParamsAppends(ServiceUrl(config), [], pairs);
  }

  /** A QR image address is the `href` of the service address of the environment with
      exactly the five parameters, in order, as its query. */
  lemma QrCodeURLRecord(nodeEnv: Option<string>, hostname: Option<string>,
                        walletAddress: string, amount: string, fundraiserName: string)
    ensures var config := GetEnvironmentConfig(nodeEnv, hostname);
      GenerateQRCodeURL(nodeEnv, hostname, walletAddress, amount, fundraiserName)
        == Url.Href(QrUrl(config, walletAddress, amount, fundraiserName))
  {
    var config := GetEnvironmentConfig(nodeEnv, hostname);
    ServiceUrlParses(config);
    SetQrParamsAppends(config, walletAddress, amount, fundraiserName);
  }

  lemma QueryAfter(base: string, path: string, query: string)
    ensures base + path + ("?" + query) == base + path + "?" + query
  {
  }

  /** The record of a QR image address serializes to the service address, `?`, and the
      serialized parameters... */
  lemma QrUrlHref(config: QrConfig, walletAddress: string, amount: string, fundraiserName: string)
    requires config == Development || config == Production
    ensures Url.Href(QrUrl(config, walletAddress, amount, fundraiserName))
      == config.baseURL + config.apiPath + "?" + FormUrlencoded.Serialize(QrParams(walletAddress, amount, fundraiserName))
  {
    var pairs := QrParams(walletAddress, amount, fundraiserName);
    ServiceUrlParses(config);
    Url.HrefWithQuery(ServiceUrl(config), pairs);
    QueryAfter(config.baseURL, config.apiPath, FormUrlencoded.Serialize(pairs));
  }

  /** ... and parses back to itself, with the five as its search parameters. */
  lemma QrUrlParses(config: QrConfig, walletAddress: string, amount: string, fundraiserName: string)
    requires config == Development || config == Production
    ensures var u := QrUrl(config, walletAddress, amount, fundraiserName);
      && Url.Parse(Url.Href(u)) == Some(u)
      && Url.SearchParams(u) == QrParams(walletAddress, amount, fundraiserName)
  {
    var pairs := QrParams(walletAddress, amount, fundraiserName);
    ServiceUrlParses(config);
    Url.WithQueryWellFormed(ServiceUrl(config), pairs);
    Url.ParseHref(QrUrl(config, walletAddress, amount, fundraiserName));
    Url.WithQuerySearchParams(ServiceUrl(config), pairs);
  }

  /** A QR image address is the service address, `?`, and the five serialized
      parameters, and parses back to a URL with exactly those search parameters. */
  lemma QrCodeURLShape(nodeEnv: Option<string>, hostname: Option<string>,
                       walletAddress: string, amount: string, fundraiserName: string)
    ensures var config := GetEnvironmentConfig(nodeEnv, hostname);
      var u := QrUrl(config, walletAddress, amount, fundraiserName);
      && GenerateQRCodeURL(nodeEnv, hostname, walletAddress, amount, fundraiserName) == Url.Href(u)
      && Url.Href(u) == config.baseURL + config.apiPath + "?" + FormUrlencoded.Serialize(QrParams(walletAddress, amount, fundraiserName))
      && Url.Parse(Url.Href(u)) == Some(u)
      && Url.SearchParams(u) == QrParams(walletAddress, amount, fundraiserName)
  {
    QrCodeURLRecord(nodeEnv, hostname, walletAddress, amount, fundraiserName);
    QrUrlHref(GetEnvironmentConfig(nodeEnv, hostname), walletAddress, amount, fundraiserName);
    QrUrlParses(GetEnvironmentConfig(nodeEnv, hostname), walletAddress, amount, fundraiserName);
  }

  // The payment request in the code

  /** `generateCryptoQRData`: the EIP-681 request paying `amountInWei` to
      `walletAddress` on chain 84532. `amountInWei` is the text of
      `parseFloat(amount) * 1e18`, a floating-point computation this model takes as given. */
  function GenerateCryptoQRData(walletAddress: string, amountInWei: string): string {
    "ethereum:" + walletAddress + "@" + "84532" + "?value=" + amountInWei
  }

  /** A wallet's reading of such a request: the target address, the chain id and the
      amount text. */
  function ReadChainRequest(uri: string): Option<(string, string, string)> {
    if StartsWith(uri, "ethereum:") then ReadTarget(uri[9..]) else None
  }

  /** The target address up to the first `@`, then the chain and the amount. */
  function ReadTarget(rest: string): Option<(string, string, string)> {
    if '@' !in rest then None
    else
      var at := IndexOfChar(rest, '@');
      match ReadChain(rest[at + 1..])
      case None => None
      case Some((chain, value)) => Some((rest[..at], chain, value))
  }

  /** The chain id up to the first `?`, then the `value` parameter. */
  function ReadChain(afterAt: string): Option<(string, string)> {
    if '?' !in afterAt then None
    else
      var q := IndexOfChar(afterAt, '?');
      var query := afterAt[q + 1..];
      if StartsWith(query, "value=") then Some((afterAt[..q], query[6..])) else None
  }

  lemma ReadChainOf(chain: string, value: string)
    requires '?' !in chain
    ensures ReadChain(chain + ("?value=" + value)) == Some((chain, value))
  {
    var s := chain + ("?value=" + value);
    assert s[|chain|] == '?' && s[..|chain|] == chain;
    IndexOfCharFirst(s, '?', |chain|);
    assert s[|chain| + 1..] == "value=" + value;
  }

  lemma ReadTargetOf(target: string, tail: string)
    requires '@' !in target
    ensures ReadTarget(target + ("@" + tail))
      == if ReadChain(tail).Some? then Some((target, ReadChain(tail).value.0, ReadChain(tail).value.1)) else None
  {
    var s := target + ("@" + tail);
    assert s[|target|] == '@' && s[..|target|] == target;
    IndexOfCharFirst(s, '@', |target|);
    assert s[|target| + 1..] == tail;
  }

  lemma AddressLacks(walletAddress: string, c: char)
    requires Blockchain.IsValidAddress(walletAddress) && c != 'x' && !IsHexDigit(c)
    ensures c !in walletAddress
  {
    forall i | 0 <= i < |walletAddress| ensures walletAddress[i] != c {
      if i >= 2 {
        assert walletAddress[i] == walletAddress[2..][i - 2];
      }
    }
  }

  lemma RegroupRequest(scheme: string, target: string, at: string, chain: string, value: string, amount: string)
    ensures scheme + target + at + chain + value + amount == scheme + (target + (at + (chain + (value + amount))))
  {
  }

  /** The request for a valid address reads back to that address, chain 84532 and the
      amount text, and starts with the prefix the test suite checks. */
  lemma ReadCryptoQRData(walletAddress: string, amountInWei: string)
    requires Blockchain.IsValidAddress(walletAddress)
    ensures ReadChainRequest(GenerateCryptoQRData(walletAddress, amountInWei))
      == Some((walletAddress, "84532", amountInWei))
    ensures StartsWith(GenerateCryptoQRData(walletAddress, amountInWei), "ethereum:" + walletAddress + "@" + "84532" + "?value=")
  {
    var uri := GenerateCryptoQRData(walletAddress, amountInWei);
    var tail := "84532" + ("?value=" + amountInWei);
    RegroupRequest("ethereum:", walletAddress, "@", "84532", "?value=", amountInWei);
    assert uri[9..] == walletAddress + ("@" + tail);
    AddressLacks(walletAddress, '@');
    ReadChainOf("84532", amountInWei);
    ReadTargetOf(walletAddress, tail);
    var prefix := "ethereum:" + walletAddress + "@" + "84532" + "?value=";
    assert uri == prefix + amountInWei;
  }

  // Checking a QR address

  /** `validateQRCodeURL`: false when the text does not parse (where `new URL` throws);
      otherwise the check of the parsed URL. */
  function ValidateQRCodeURL(url: string): bool {
    match Url.Parse(url)
    case None => false
    case Some(u) => AcceptsQrUrl(u)
  }

  /** False for a URL that is neither on `localhost` nor `https:`; otherwise whether its
      `href` starts with `http`. */
  predicate AcceptsQrUrl(u: Url.Url) {
    if u.host != "localhost" && Url.Protocol(u) != "https:" then false
    else StartsWith(Url.Href(u), "http")
  }

  lemma HrefStartsWithScheme(u: Url.Url)
    ensures |Url.Href(u)| > |u.scheme| && Url.Href(u)[..|u.scheme|] == u.scheme
  {
  }

  lemma AcceptsQrUrlMeans(u: Url.Url)
    requires Url.DefaultPort(u.scheme).Some?
    ensures AcceptsQrUrl(u) <==> u.scheme == "https" || (u.scheme == "http" && u.host == "localhost")
  {
    var href := Url.Href(u);
    HrefStartsWithScheme(u);
    assert Url.Protocol(u) == "https:" <==> u.scheme == "https";
    if u.scheme == "http" || u.scheme == "https" {
      assert href[..4] == u.scheme[..4] == "http";
    } else {
      assert u.scheme == "ftp" || u.scheme == "ws" || u.scheme == "wss";
      assert href[0] == u.scheme[0] != 'h';
    }
  }

  /** An address is accepted exactly when it parses to an `https:` URL, or to an `http:`
      one on `localhost`. */
  lemma ValidateQRCodeURLMeans(url: string)
    ensures ValidateQRCodeURL(url) <==>
      Url.Parse(url).Some? &&
      (Url.Parse(url).value.scheme == "https" ||
       (Url.Parse(url).value.scheme == "http" && Url.Parse(url).value.host == "localhost"))
  {
    if Url.Parse(url).Some? {
      Url.ParseScheme(url);
      AcceptsQrUrlMeans(Url.Parse(url).value);
    }
  }

  /** A relative address, such as the test suite's `/api/qr-code?walletAddress=0x123`,
      is refused. */
  lemma ValidateQRCodeURLRelative(url: string)
    requires url != [] && url[0] == '/'
    ensures !ValidateQRCodeURL(url)
  {
    Url.RelativeUnparsed(url);
  }

  /** Every well-formed `https:` URL is accepted, the test suite's
      `https://zeonai.xyz/api/qr-code?walletAddress=0x123&amount=1` among them. */
  lemma ValidateQRCodeURLHttps(u: Url.Url)
    requires Url.WellFormed(u) && u.scheme == "https"
    ensures ValidateQRCodeURL(Url.Href(u))
  {
    Url.ParseHref(u);
    ValidateQRCodeURLMeans(Url.Href(u));
  }

  /** The QR image address is accepted in both environments: in production it is
      `https:`, in development it is `http:` on `localhost`. */
  lemma GeneratedQRCodeURLValid(nodeEnv: Option<string>, hostname: Option<string>,
                                walletAddress: string, amount: string, fundraiserName: string)
    ensures ValidateQRCodeURL(GenerateQRCodeURL(nodeEnv, hostname, walletAddress, amount, fundraiserName))
  {
    QrCodeURLShape(nodeEnv, hostname, walletAddress, amount, fundraiserName);
    ValidateQRCodeURLMeans(GenerateQRCodeURL(nodeEnv, hostname, walletAddress, amount, fundraiserName));
  }
}
