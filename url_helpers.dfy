/** The fundraiser link helpers: the link to a fundraiser's page with its goal, name and
    network as query parameters, the repair of a link whose escapes were percent-encoded a
    second time, and a percent-encoding that leaves already encoded text alone. */
module UrlHelpers {
  import opened Wrappers
  import opened Strings
  import UriCodec
  import FormUrlencoded
  import Url
  import Blockchain

  const FundraiserBase: string := "https://zeonai.xyz/fundraiser"

  const InvalidAddressMessage: string :=
        "Invalid wallet address format. Expected 0x followed " +
        "by 40 hex characters."

  /** The optional parameters of a fundraiser link. An absent parameter is the empty
      string: both are falsy, and neither is written into the link. */
  datatype FundraiserParams = FundraiserParams(goal: string, name: string, network: string)

  // The fundraiser link

  /** The page of the fundraiser collecting to `walletAddress`, without a query. */
  function FundraiserPage(walletAddress: string): Url.Url {
    Url.Url("https", "zeonai.xyz", None, ["fundraiser", walletAddress], None, None)
  }

  predicate AllAlphanumeric(s: string) { forall i :: 0 <= i < |s| ==> IsAsciiAlphanumeric(s[i]) }

  lemma AddressAlphanumeric(walletAddress: string)
    requires Blockchain.IsValidAddress(walletAddress)
    ensures walletAddress != [] && AllAlphanumeric(walletAddress)
  {
    forall i | 0 <= i < |walletAddress| ensures IsAsciiAlphanumeric(walletAddress[i]) {
      if i >= 2 {
        assert walletAddress[2..][i - 2] == walletAddress[i];
      }
    }
  }

  lemma FundraiserSegment()
    ensures Url.IsPlainSegment("fundraiser")
  {
    Url.AlphanumericSegment("fundraiser");
  }

  lemma FundraiserPageSegments(walletAddress: string)
    requires walletAddress != [] && AllAlphanumeric(walletAddress)
    ensures var path := FundraiserPage(walletAddress).path;
      forall i :: 0 <= i < |path| ==> Url.IsPlainSegment(path[i])
  {
    var path := FundraiserPage(walletAddress).path;
    forall i | 0 <= i < |path| ensures Url.IsPlainSegment(path[i]) {
      if i == 0 {
        FundraiserSegment();
      } else {
        Url.AlphanumericSegment(walletAddress);
      }
    }
  }

  lemma FundraiserPageHost(walletAddress: string)
    ensures Url.ParseHost(FundraiserPage(walletAddress).host) == Some(FundraiserPage(walletAddress).host)
  {
    Url.LetterHost("zeonai.xyz");
  }

  lemma HttpsPort()
    ensures Url.DefaultPort("https") == Some(443)
  {
  }

  lemma FundraiserPageWellFormed(walletAddress: string)
    requires walletAddress != [] && AllAlphanumeric(walletAddress)
    ensures Url.WellFormed(FundraiserPage(walletAddress))
  {
    var u := FundraiserPage(walletAddress);
    HttpsPort();
    FundraiserPageSegments(walletAddress);
    FundraiserPageHost(walletAddress);
    assert u.scheme == "https" && u.port.None? && u.query.None? && u.fragment.None?;
  }

  lemma FundraiserPageHref(walletAddress: string)
    ensures Url.Href(FundraiserPage(walletAddress)) == FundraiserBase + "/" + walletAddress
  {
    var u := FundraiserPage(walletAddress);
    var origin := u.scheme + "://" + u.host + Url.PortText(u.port);
    FundraiserPath(walletAddress);
    FundraiserOrigin();
    assert Url.Href(u) == origin + ("/fundraiser" + ("/" + walletAddress));
    AppendAssoc(origin, "/fundraiser", "/" + walletAddress);
  }

  lemma FundraiserPath(walletAddress: string)
    ensures Url.Pathname(FundraiserPage(walletAddress).path) == "/fundraiser" + ("/" + walletAddress)
  {
    var path := FundraiserPage(walletAddress).path;
    assert path[1..] == [walletAddress];
    assert Url.Pathname([walletAddress]) == "/" + walletAddress + Url.Pathname([]);
  }

  lemma FundraiserOrigin()
    ensures var u := FundraiserPage("");
      u.scheme + "://" + u.host + Url.PortText(u.port) + "/fundraiser" == FundraiserBase
  {
  }

  /** The page address of a valid wallet parses into the page, which is well formed. */
  lemma FundraiserPageParses(walletAddress: string)
    requires Blockchain.IsValidAddress(walletAddress)
    ensures Url.WellFormed(FundraiserPage(walletAddress))
    ensures Url.Parse(FundraiserBase + "/" + walletAddress) == Some(FundraiserPage(walletAddress))
  {
    AddressAlphanumeric(walletAddress);
    FundraiserPageWellFormed(walletAddress);
    Url.ParseHref(FundraiserPage(walletAddress));
    FundraiserPageHref(walletAddress);
  }

  /** `url.searchParams.set(name, value)` when `value` is truthy. */
  function SetIfTruthy(u: Url.Url, name: string, value: string): Url.Url {
    if value != "" then Url.SetSearchParam(u, name, value) else u
  }

  /** `generateFundraiserURL`: the fundraiser page of a valid wallet address with the
      truthy parameters set in the order goal, name, network; the error message for an
      address that is not `0x` and 40 hex digits. */
  function GenerateFundraiserURL(walletAddress: string, params: FundraiserParams): (r: Result<string, string>)
    ensures r.Success? <==> Blockchain.IsValidAddress(walletAddress)
    ensures r.Failure? ==> r.error == InvalidAddressMessage
  {
    if walletAddress == "" || !Blockchain.IsValidAddress(walletAddress) then Failure(InvalidAddressMessage)
    else
      FundraiserPageParses(walletAddress);
      var url := Url.Parse(FundraiserBase + "/" + walletAddress).value;
      Success(Url.Href(SetParams(url, params)))
  }

  /** The three conditional `searchParams.set` calls, one after the other. */
  function SetParams(url: Url.Url, params: FundraiserParams): Url.Url {
    var withGoal := SetIfTruthy(url, "goal", params.goal);
    var withName := SetIfTruthy(withGoal, "name", params.name);
    SetIfTruthy(withName, "network", params.network)
  }

  /** The query parameters a fundraiser link is meant to carry: goal, name and network,
      each only when given, in that order. */
  function ParamPairs(params: FundraiserParams): seq<(string, string)> {
    (if params.goal != "" then [("goal", params.goal)] else [])
    + (if params.name != "" then [("name", params.name)] else [])
    + (if params.network != "" then [("network", params.network)] else [])
  }

  /** The fundraiser page whose query is the serialization of `pairs`. */
  function PageWith(walletAddress: string, pairs: seq<(string, string)>): Url.Url {
    Url.WithQuery(FundraiserPage(walletAddress), pairs)
  }

  /** Setting a parameter the page does not have yet appends it to the query. */
  lemma SetIfTruthyAppends(walletAddress: string, pairs: seq<(string, string)>, name: string, value: string)
    requires FormUrlencoded.Get(pairs, name).None?
    ensures SetIfTruthy(PageWith(walletAddress, pairs), name, value)
      == PageWith(walletAddress, pairs + if value != "" then [(name, value)] else [])
  {
    if value != "" {
      Url.SetFreshAppends(FundraiserPage(walletAddress), pairs, name, value);
    } else {
      assert pairs + [] == pairs;
    }
  }

  lemma PageWithWellFormed(walletAddress: string, pairs: seq<(string, string)>)
    requires Blockchain.IsValidAddress(walletAddress)
    ensures Url.WellFormed(PageWith(walletAddress, pairs))
  {
    FundraiserPageParses(walletAddress);
    Url.SerializedQueryClean(pairs);
  }

  lemma SetParamsAppends(walletAddress: string, params: FundraiserParams)
    ensures SetParams(FundraiserPage(walletAddress), params) == PageWith(walletAddress, ParamPairs(params))
  {
    var goal := if params.goal != "" then [("goal", params.goal)] else [];
    var name := if params.name != "" then [("name", params.name)] else [];
    assert PageWith(walletAddress, []) == FundraiserPage(walletAddress);
    SetIfTruthyAppends(walletAddress, [], "goal", params.goal);
    assert [] + goal == goal;
    SetIfTruthyAppends(walletAddress, goal, "name", params.name);
    SetIfTruthyAppends(walletAddress, goal + name, "network", params.network);
  }

  lemma PageWithHref(walletAddress: string, pairs: seq<(string, string)>)
    ensures Url.Href(PageWith(walletAddress, pairs))
      == FundraiserBase + "/" + walletAddress + Url.QueryText(Url.QueryOf(pairs))
  {
    FundraiserPageHref(walletAddress);
  }

  /** A fundraiser link is the page of the address with exactly the given parameters in
      its query, in the order goal, name, network: the page address followed by `?` and
      their serialization, or by nothing when no parameter is given. */
  lemma FundraiserURLShape(walletAddress: string, params: FundraiserParams)
    requires Blockchain.IsValidAddress(walletAddress)
    ensures GenerateFundraiserURL(walletAddress, params)
      == Success(Url.Href(PageWith(walletAddress, ParamPairs(params))))
    ensures Url.Href(PageWith(walletAddress, ParamPairs(params)))
      == FundraiserBase + "/" + walletAddress + Url.QueryText(Url.QueryOf(ParamPairs(params)))
  {
    FundraiserPageParses(walletAddress);
    SetParamsAppends(walletAddress, params);
    PageWithHref(walletAddress, ParamPairs(params));
  }

  /** `get` on the parameters finds each one that was given, with its value. */
  lemma ParamPairsGet(params: FundraiserParams)
    ensures FormUrlencoded.Get(ParamPairs(params), "goal") == if params.goal != "" then Some(params.goal) else None
    ensures FormUrlencoded.Get(ParamPairs(params), "name") == if params.name != "" then Some(params.name) else None
    ensures FormUrlencoded.Get(ParamPairs(params), "network") == if params.network != "" then Some(params.network) else None
  {
    var goal := if params.goal != "" then [("goal", params.goal)] else [];
    var name := if params.name != "" then [("name", params.name)] else [];
    var network := if params.network != "" then [("network", params.network)] else [];
    assert ParamPairs(params) == goal + name + network;
    forall key | key in ["goal", "name", "network"]
      ensures FormUrlencoded.Get(goal + name + network, key)
        == if FormUrlencoded.Get(goal, key).Some? then FormUrlencoded.Get(goal, key)
           else if FormUrlencoded.Get(name, key).Some? then FormUrlencoded.Get(name, key)
           else FormUrlencoded.Get(network, key)
    {
      FormUrlencoded.GetAppend(goal + name, network, key);
      FormUrlencoded.GetAppend(goal, name, key);
    }
  }

  /** Reading a fundraiser link back gives the page of the address with the given
      parameters, and `get` on its search parameters gives each given parameter exactly as
      it was passed: nothing is lost or encoded twice on the way. */
  lemma FundraiserURLReadsBack(walletAddress: string, params: FundraiserParams)
    requires Blockchain.IsValidAddress(walletAddress)
    ensures var r := GenerateFundraiserURL(walletAddress, params);
      && r.Success?
      && Url.Parse(r.value) == Some(PageWith(walletAddress, ParamPairs(params)))
      && Url.SearchParams(PageWith(walletAddress, ParamPairs(params))) == ParamPairs(params)
    ensures var u := PageWith(walletAddress, ParamPairs(params));
      && u.path == ["fundraiser", walletAddress]
      && FormUrlencoded.Get(Url.SearchParams(u), "goal") == (if params.goal != "" then Some(params.goal) else None)
      && FormUrlencoded.Get(Url.SearchParams(u), "name") == (if params.name != "" then Some(params.name) else None)
      && FormUrlencoded.Get(Url.SearchParams(u), "network") == (if params.network != "" then Some(params.network) else None)
  {
    var pairs := ParamPairs(params);
    FundraiserURLShape(walletAddress, params);
    PageWithWellFormed(walletAddress, pairs);
    Url.ParseHref(PageWith(walletAddress, pairs));
    Url.WithQuerySearchParams(FundraiserPage(walletAddress), pairs);
    ParamPairsGet(params);
  }

  lemma PageAddressNoPercent(walletAddress: string)
    requires Blockchain.IsValidAddress(walletAddress)
    ensures '%' !in FundraiserBase + "/" + walletAddress
  {
    AddressAlphanumeric(walletAddress);
    assert '%' !in FundraiserBase;
  }

  lemma ParamPairsNoPercent(params: FundraiserParams)
    requires '%' !in params.goal && '%' !in params.name && '%' !in params.network
    ensures var pairs := ParamPairs(params);
      forall i :: 0 <= i < |pairs| ==> '%' !in pairs[i].0 && '%' !in pairs[i].1
  {
    var pairs := ParamPairs(params);
    assert forall i :: 0 <= i < |pairs| ==> pairs[i] in [("goal", params.goal), ("name", params.name), ("network", params.network)];
  }

  /** Parameters without `%` come out of a fundraiser link without a `%25` escape, so
      no part of the link is encoded twice. */
  lemma FundraiserURLNoDoubleEncoding(walletAddress: string, params: FundraiserParams)
    requires Blockchain.IsValidAddress(walletAddress)
    requires '%' !in params.goal && '%' !in params.name && '%' !in params.network
    ensures var r := GenerateFundraiserURL(walletAddress, params);
      r.Success? && FormUrlencoded.NoEncodedPercent(r.value) && !Contains(r.value, "%25")
  {
    FundraiserURLShape(walletAddress, params);
    PageAddressNoPercent(walletAddress);
    ParamPairsNoPercent(params);
    LinkTextNoEncodedPercent(FundraiserBase + "/" + walletAddress, ParamPairs(params));
  }

  /** A page address and a query serialized from parameters, none of them holding `%`,
      hold no encoded `%`. */
  lemma LinkTextNoEncodedPercent(page: string, pairs: seq<(string, string)>)
    requires '%' !in page
    requires forall i :: 0 <= i < |pairs| ==> '%' !in pairs[i].0 && '%' !in pairs[i].1
    ensures FormUrlencoded.NoEncodedPercent(page + Url.QueryText(Url.QueryOf(pairs)))
    ensures !Contains(page + Url.QueryText(Url.QueryOf(pairs)), "%25")
  {
    FormUrlencoded.NoPercentNoEncodedPercent(page);
    if pairs != [] {
      FormUrlencoded.SerializeNoEncodedPercent(pairs);
      FormUrlencoded.NoEncodedPercentConcat("?", FormUrlencoded.Serialize(pairs));
      FormUrlencoded.NoEncodedPercentConcat(page, "?" + FormUrlencoded.Serialize(pairs));
    } else {
      assert page + Url.QueryText(Url.QueryOf(pairs)) == page;
    }
    FormUrlencoded.NoEncodedPercentNoEscape(page + Url.QueryText(Url.QueryOf(pairs)));
  }

  // The links of the test suite

  /** A space in a name is written `+`, and ASCII alphanumerics and `*-._` as they are. */
  lemma FormEncodeTwoWords(first: string, last: string)
    requires FormUrlencoded.AllFormSafe(first) && FormUrlencoded.AllFormSafe(last)
    ensures FormUrlencoded.FormEncode(first + " " + last) == first + "+" + last
  {
    FormUrlencoded.FormEncodeAppend(first + " ", last);
    FormUrlencoded.FormEncodeAppend(first, " ");
    FormUrlencoded.FormEncodeSpace();
    FormUrlencoded.FormEncodeSafe(first);
    FormUrlencoded.FormEncodeSafe(last);
  }

  lemma TwoWordQuery(goal: string, first: string, last: string)
    requires FormUrlencoded.AllFormSafe(goal) && FormUrlencoded.AllFormSafe(first) && FormUrlencoded.AllFormSafe(last)
    ensures FormUrlencoded.Serialize([("goal", goal), ("name", first + " " + last)])
      == ("goal" + "=" + goal) + "&" + ("name" + "=" + (first + "+" + last))
  {
    FormUrlencoded.FormEncodeSafe("goal");
    FormUrlencoded.FormEncodeSafe(goal);
    FormUrlencoded.FormEncodeSafe("name");
    FormEncodeTwoWords(first, last);
    FormUrlencoded.SerializeTwo("goal", goal, "name", first + " " + last);
  }

  /** The link for a fundraiser with a goal and a two-word name, the case of the test
      suite's Web3 Ladies fundraiser: goal, then name, the space written as `+`. */
  lemma FundraiserURLTwoWordName(walletAddress: string, goal: string, first: string, last: string)
    requires Blockchain.IsValidAddress(walletAddress) && goal != ""
    requires FormUrlencoded.AllFormSafe(goal) && FormUrlencoded.AllFormSafe(first) && FormUrlencoded.AllFormSafe(last)
    ensures GenerateFundraiserURL(walletAddress, FundraiserParams(goal, first + " " + last, ""))
      == Success(FundraiserBase + "/" + walletAddress + "?" + ("goal" + "=" + goal) + "&" + ("name" + "=" + (first + "+" + last)))
  {
    var params := FundraiserParams(goal, first + " " + last, "");
    var pairs := [("goal", goal), ("name", first + " " + last)];
    assert ParamPairs(params) == pairs;
    FundraiserURLShape(walletAddress, params);
    TwoWordQuery(goal, first, last);
    var goalPair, namePair := "goal" + "=" + goal, "name" + "=" + (first + "+" + last);
    QueryAppend(FundraiserBase + "/" + walletAddress, goalPair, namePair);
  }

  lemma QueryAppend(page: string, first: string, second: string)
    ensures page + ("?" + (first + "&" + second)) == page + "?" + first + "&" + second
  {
  }

  /** The test suite's fundraiser fits the lemma above, with goal `0.0002` and the name
      `Web3 Ladies`. */
  lemma TestFundraiserFits()
    ensures FormUrlencoded.AllFormSafe("0.0002") && FormUrlencoded.AllFormSafe("Web3")
      && FormUrlencoded.AllFormSafe("Ladies")
  {
  }

  /** The test suite's wallet address is valid. */
  lemma TestAddressValid()
    ensures Blockchain.IsValidAddress("0x" + "7805B1557019e15BF3E6903d1bE02c2038da14D2")
  {
    TestAddressDigits();
    PrefixedAddress("7805B1557019e15BF3E6903d1bE02c2038da14D2");
  }

  lemma TestAddressDigits()
    ensures AllHexDigits("7805B1557019e15BF3E6903d1bE02c2038da14D2")
  {
  }

  lemma PrefixedAddress(digits: string)
    requires |digits| == 40 && AllHexDigits(digits)
    ensures Blockchain.IsValidAddress("0x" + digits)
  {
    assert ("0x" + digits)[2..] == digits;
  }

  // Encoding a text once

  /** `safeURLEncode`: the empty string for an empty argument; a text that
      `decodeURIComponent` changes is taken to be encoded already and returned as it is;
      any other text, one that `decodeURIComponent` rejects included, goes through
      `encodeURIComponent`. */
  function SafeURLEncode(str: string): string {
    if str == "" then ""
    else
      match UriCodec.DecodeURIComponent(str)
      case Some(decoded) => if decoded != str then str else UriCodec.EncodeURIComponent(str)
      case None => UriCodec.EncodeURIComponent(str)
  }

  /** A text counts as encoded already exactly when it has a `%` and decodes: only such a
      text is returned as it is, and every other one is encoded. */
  lemma SafeURLEncodeCases(str: string)
    ensures '%' in str && UriCodec.DecodeURIComponent(str).Some? ==> SafeURLEncode(str) == str
    ensures !('%' in str && UriCodec.DecodeURIComponent(str).Some?) ==>
      SafeURLEncode(str) == UriCodec.EncodeURIComponent(str)
  {
    if UriCodec.DecodeURIComponent(str).Some? {
      UriCodec.DecodeChangesIffPercent(str);
    }
  }

  /** Encoding safely twice is encoding safely once: the result of `safeURLEncode` is
      never encoded again. */
  lemma SafeURLEncodeIdempotent(str: string)
    ensures SafeURLEncode(SafeURLEncode(str)) == SafeURLEncode(str)
  {
    var d := UriCodec.DecodeURIComponent(str);
    if str != "" && !(d.Some? && d.value != str) {
      var e := UriCodec.EncodeURIComponent(str);
      UriCodec.DecodeEncode(str);
      assert SafeURLEncode(str) == e;
      if e != str {
        assert e != "";
        assert SafeURLEncode(e) == e;
      }
    }
  }

  /** `decodeURIComponent` never fails on the result, and gives back the argument unless
      the argument was taken to be encoded already, in which case it gives what the
      argument decodes to. */
  lemma SafeURLEncodeDecodes(str: string)
    ensures UriCodec.DecodeURIComponent(SafeURLEncode(str)) ==
      if '%' in str && UriCodec.DecodeURIComponent(str).Some?
      then UriCodec.DecodeURIComponent(str) else Some(str)
  {
    SafeURLEncodeCases(str);
    UriCodec.DecodeEncode(str);
  }

  predicate AllUriUnreserved(s: string) { forall i :: 0 <= i < |s| ==> UriCodec.IsUriUnreserved(s[i]) }

  lemma EncodeSpace()
    ensures UriCodec.EncodeURIComponent(" ") == "%20"
  {
    assert UriCodec.EncodeUnit(' ') == UriCodec.PercentBytes([0x20]);
    assert UriCodec.PercentBytes([0x20]) == UriCodec.PercentByte(0x20) + UriCodec.PercentBytes([]);
  }

  lemma DecodeSpace(rest: string)
    ensures UriCodec.DecodeURIComponent("%20" + rest)
      == UriCodec.Prepend(' ', UriCodec.DecodeURIComponent(rest))
  {
    var s := "%20" + rest;
    assert s[0] == '%' && s[1] == '2' && s[2] == '0';
    assert UriCodec.OctetAt(s, 0) == Some(0x20);
    assert UriCodec.DecodeEscape(s) == Some((' ', 3));
    assert s[3..] == rest;
  }

  /** A two-word text is encoded with `%20` for the space, the first case of the test
      suite's `Web3 Ladies`. */
  lemma SafeURLEncodeTwoWords(first: string, last: string)
    requires AllUriUnreserved(first) && AllUriUnreserved(last)
    ensures SafeURLEncode(first + " " + last) == first + "%20" + last
  {
    UriCodec.EncodeIdentityIffUnreserved(first);
    UriCodec.EncodeIdentityIffUnreserved(last);
    var plain := first + " " + last;
    assert '%' !in plain;
    SafeURLEncodeCases(plain);
    UriCodec.EncodeAppend(first, " ");
    UriCodec.EncodeAppend(first + " ", last);
    EncodeSpace();
  }

  lemma DecodeTwoWords(first: string, last: string)
    requires AllUriUnreserved(first) && AllUriUnreserved(last)
    ensures UriCodec.DecodeURIComponent(first + "%20" + last) == Some(first + " " + last)
  {
    UnreservedNoPercent(first);
    UnreservedNoPercent(last);
    UriCodec.DecodeWithoutPercent(last);
    DecodeSpace(last);
    UriCodec.DecodeSkipsPlain(first, "%20" + last);
    AppendAssoc(first, "%20", last);
    AppendAssoc(first, " ", last);
  }

  lemma UnreservedNoPercent(s: string)
    requires AllUriUnreserved(s)
    ensures '%' !in s
  {
  }

  /** The encoded two-word text is left as it is, the second case of the test suite's
      `Web3 Ladies`. */
  lemma SafeURLEncodeLeavesTwoWords(first: string, last: string)
    requires AllUriUnreserved(first) && AllUriUnreserved(last)
    ensures SafeURLEncode(first + "%20" + last) == first + "%20" + last
  {
    var encoded := first + "%20" + last;
    DecodeTwoWords(first, last);
    assert encoded[|first|] == '%';
    SafeURLEncodeCases(encoded);
  }

  /** The test suite's `Web3 Ladies` fits the lemma above. */
  lemma TestNameFits()
    ensures AllUriUnreserved("Web3") && AllUriUnreserved("Ladies")
  {
  }

  // Repairing a link encoded twice

  /** The six `.replace` calls of `fixDoubleEncodedURL`, in order: a doubly encoded
      space, `/`, `:`, `?`, `=` and `&` each becomes singly encoded. */
  function RepairDoubleEncoding(s: string): string {
    var s1 := ReplaceAll(s, "%2520", "%20");
    var s2 := ReplaceAll(s1, "%252F", "%2F");
    var s3 := ReplaceAll(s2, "%253A", "%3A");
    var s4 := ReplaceAll(s3, "%253F", "%3F");
    var s5 := ReplaceAll(s4, "%253D", "%3D");
    ReplaceAll(s5, "%2526", "%26")
  }

  /** The text returned when parsing fails: only doubly encoded spaces repaired. */
  function RepairSpaces(s: string): string {
    ReplaceAll(s, "%2520", "%20")
  }

  /** `fixDoubleEncodedURL`: the empty string for an empty argument; otherwise the
      repaired text, decoded with `decodeURIComponent` and parsed as a URL, serialized
      again; the argument with its doubly encoded spaces repaired when decoding or
      parsing fails. */
  function FixDoubleEncodedURL(malformedURL: string): string {
    if malformedURL == "" then ""
    else
      match UriCodec.DecodeURIComponent(RepairDoubleEncoding(malformedURL))
      case None => RepairSpaces(malformedURL)
      case Some(decoded) =>
        match Url.Parse(decoded)
        case None => RepairSpaces(malformedURL)
        case Some(u) => Url.Href(u)
  }

  lemma ReplaceEscapedPercentAbsent(s: string, digits: string, rep: string)
    requires !Contains(s, "%25")
    ensures ReplaceAll(s, "%25" + digits, rep) == s
  {
    ContainsExtension(s, "%25", digits);
    ReplaceAllAbsent(s, "%25" + digits, rep);
  }

  /** A text without a `%25` escape needs no repair. */
  lemma RepairWithoutEscapedPercent(s: string)
    requires !Contains(s, "%25")
    ensures RepairDoubleEncoding(s) == s
  {
    assert "%2520" == "%25" + "20" && "%252F" == "%25" + "2F" && "%253A" == "%25" + "3A";
    assert "%253F" == "%25" + "3F" && "%253D" == "%25" + "3D" && "%2526" == "%25" + "26";
    ReplaceEscapedPercentAbsent(s, "20", "%20");
    ReplaceEscapedPercentAbsent(s, "2F", "%2F");
    ReplaceEscapedPercentAbsent(s, "3A", "%3A");
    ReplaceEscapedPercentAbsent(s, "3F", "%3F");
    ReplaceEscapedPercentAbsent(s, "3D", "%3D");
    ReplaceEscapedPercentAbsent(s, "26", "%26");
  }

  /** The fallback leaves no doubly encoded space. */
  lemma RepairSpacesComplete(s: string)
    ensures !Contains(RepairSpaces(s), "%2520")
  {
    var pat, rep := "%2520", "%20";
    assert pat[0] !in pat[1..];
    assert rep[2] != pat[2];
    ReplaceAllRemoves(s, pat, rep);
  }

  /** What `fixDoubleEncodedURL` returns: nothing for nothing; when decoding or parsing
      fails, a text with no doubly encoded space left. */
  lemma FixDoubleEncodedURLFallback(malformedURL: string)
    ensures FixDoubleEncodedURL(malformedURL) == "" <==> malformedURL == ""
    ensures var decoded := UriCodec.DecodeURIComponent(RepairDoubleEncoding(malformedURL));
      malformedURL != "" && (decoded.None? || Url.Parse(decoded.value).None?) ==>
        !Contains(FixDoubleEncodedURL(malformedURL), "%2520")
  {
    RepairSpacesComplete(malformedURL);
    if malformedURL != "" {
      assert |RepairSpaces(malformedURL)| > 0 by {
        var s := malformedURL;
        if StartsWith(s, "%2520") {
          assert |RepairSpaces(s)| >= 3;
        } else {
          assert RepairSpaces(s)[0] == s[0];
        }
      }
    }
  }

  // Decoding the whole link

  lemma DecodeAmpersand(rest: string)
    ensures UriCodec.DecodeURIComponent("%26" + rest)
      == UriCodec.Prepend('&', UriCodec.DecodeURIComponent(rest))
  {
    assert UriCodec.EncodeUnit('&') == UriCodec.PercentBytes([0x26]);
    assert UriCodec.PercentBytes([0x26]) == UriCodec.PercentByte(0x26) + UriCodec.PercentBytes([]);
    UriCodec.DecodeUnit('&', rest);
  }

  lemma DecodeEquals(rest: string)
    ensures UriCodec.DecodeURIComponent("%3D" + rest)
      == UriCodec.Prepend('=', UriCodec.DecodeURIComponent(rest))
  {
    assert UriCodec.EncodeUnit('=') == UriCodec.PercentBytes([0x3D]);
    assert UriCodec.PercentBytes([0x3D]) == UriCodec.PercentByte(0x3D) + UriCodec.PercentBytes([]);
    UriCodec.DecodeUnit('=', rest);
  }

  /** The name `first&key=value`. */
  function SplitName(first: string, key: string, value: string): string {
    first + ("&" + (key + ("=" + value)))
  }

  /** The same name with its `&` and `=` escaped. */
  function EscapedSplitName(first: string, key: string, value: string): string {
    first + ("%26" + (key + ("%3D" + value)))
  }

  /** The serializer escapes the `&` and `=` of such a name and nothing else. */
  lemma FormEncodeSplitName(first: string, key: string, value: string)
    requires FormUrlencoded.AllFormSafe(first) && FormUrlencoded.AllFormSafe(key)
      && FormUrlencoded.AllFormSafe(value)
    ensures FormUrlencoded.FormEncode(SplitName(first, key, value)) == EscapedSplitName(first, key, value)
  {
    FormUrlencoded.FormEncodeAppend("=", value);
    FormUrlencoded.FormEncodeAppend(key, "=" + value);
    FormUrlencoded.FormEncodeAppend("&", key + ("=" + value));
    FormUrlencoded.FormEncodeAppend(first, "&" + (key + ("=" + value)));
    FormUrlencoded.FormEncodeAmpersand();
    FormUrlencoded.FormEncodeEquals();
    FormUrlencoded.FormEncodeSafe(first);
    FormUrlencoded.FormEncodeSafe(key);
    FormUrlencoded.FormEncodeSafe(value);
  }

  lemma SplitNamePairs(params: FundraiserParams)
    requires params.goal == "" && params.name != "" && params.network == ""
    ensures Url.QueryOf(ParamPairs(params)) == Some(FormUrlencoded.Serialize([("name", params.name)]))
  {
    assert ParamPairs(params) == [("name", params.name)];
  }

  /** The fundraiser link for such a name: its only parameter is the escaped name. */
  lemma SplitNameLink(walletAddress: string, first: string, key: string, value: string)
    requires Blockchain.IsValidAddress(walletAddress)
    requires FormUrlencoded.AllFormSafe(first) && FormUrlencoded.AllFormSafe(key)
      && FormUrlencoded.AllFormSafe(value)
    ensures GenerateFundraiserURL(walletAddress, FundraiserParams("", SplitName(first, key, value), ""))
      == Success(FundraiserBase + "/" + walletAddress
           + Url.QueryText(Some("name" + "=" + EscapedSplitName(first, key, value))))
  {
    FundraiserURLShape(walletAddress, FundraiserParams("", SplitName(first, key, value), ""));
    SplitNameQuery(first, key, value);
  }

  /** The query of a link for such a name: the escaped name as the only parameter. */
  lemma SplitNameQuery(first: string, key: string, value: string)
    requires FormUrlencoded.AllFormSafe(first) && FormUrlencoded.AllFormSafe(key)
      && FormUrlencoded.AllFormSafe(value)
    ensures Url.QueryOf(ParamPairs(FundraiserParams("", SplitName(first, key, value), "")))
      == Some("name" + "=" + EscapedSplitName(first, key, value))
  {
    var params := FundraiserParams("", SplitName(first, key, value), "");
    SplitNamePairs(params);
    FormUrlencoded.SerializeOne("name", params.name);
    FormUrlencoded.FormEncodeSafe("name");
    FormEncodeSplitName(first, key, value);
  }

  lemma DecodeAfterPlain(x: string, y: string, d: string)
    requires '%' !in x && UriCodec.DecodeURIComponent(y) == Some(d)
    ensures UriCodec.DecodeURIComponent(x + y) == Some(x + d)
  {
    UriCodec.DecodeSkipsPlain(x, y);
  }

  /** `decodeURIComponent` turns the escaped `&` and `=` back into the characters. */
  lemma DecodeSplitName(first: string, key: string, value: string)
    requires '%' !in first && '%' !in key && '%' !in value
    ensures UriCodec.DecodeURIComponent(EscapedSplitName(first, key, value))
      == Some(SplitName(first, key, value))
  {
    UriCodec.DecodeWithoutPercent(value);
    DecodeEquals(value);
    DecodeAfterPlain(key, "%3D" + value, "=" + value);
    DecodeAmpersand(key + ("%3D" + value));
    DecodeAfterPlain(first, "%26" + (key + ("%3D" + value)), "&" + (key + ("=" + value)));
  }

  lemma RegroupLink(page: string, q: string, n: string, eq: string, t: string)
    ensures page + (q + (n + eq + t)) == (page + q + n + eq) + t
  {
  }

  lemma RegroupSplit(n: string, eq: string, first: string, amp: string, key: string, value: string)
    ensures n + eq + (first + (amp + (key + (eq + value)))) == (n + eq + first) + amp + (key + eq + value)
  {
  }

  /** The serialization of the name `first` followed by the parameter `key`. */
  lemma SerializeSplitPairs(first: string, key: string, value: string)
    requires FormUrlencoded.AllFormSafe(first) && FormUrlencoded.AllFormSafe(key)
      && FormUrlencoded.AllFormSafe(value)
    ensures FormUrlencoded.Serialize([("name", first), (key, value)]) == "name" + "=" + SplitName(first, key, value)
  {
    FormUrlencoded.SerializeTwo("name", first, key, value);
    FormUrlencoded.FormEncodeSafe("name");
    FormUrlencoded.FormEncodeSafe(first);
    FormUrlencoded.FormEncodeSafe(key);
    FormUrlencoded.FormEncodeSafe(value);
    RegroupSplit("name", "=", first, "&", key, value);
  }

  lemma DecodeNameQuery(page: string, first: string, key: string, value: string)
    requires '%' !in page && '%' !in first && '%' !in key && '%' !in value
    ensures UriCodec.DecodeURIComponent(page + Url.QueryText(Some("name" + "=" + EscapedSplitName(first, key, value))))
      == Some(page + Url.QueryText(Some("name" + "=" + SplitName(first, key, value))))
  {
    var prefix := page + "?" + "name" + "=";
    assert '%' !in prefix;
    DecodeSplitName(first, key, value);
    DecodeAfterPlain(prefix, EscapedSplitName(first, key, value), SplitName(first, key, value));
    RegroupLink(page, "?", "name", "=", EscapedSplitName(first, key, value));
    RegroupLink(page, "?", "name", "=", SplitName(first, key, value));
  }

  /** `decodeURIComponent` of the whole link: the name's `&` and `=` become separators of
      the query, which now serializes two parameters. */
  lemma DecodeSplitNameLink(walletAddress: string, first: string, key: string, value: string)
    requires Blockchain.IsValidAddress(walletAddress)
    requires FormUrlencoded.AllFormSafe(first) && FormUrlencoded.AllFormSafe(key)
      && FormUrlencoded.AllFormSafe(value)
    ensures UriCodec.DecodeURIComponent(FundraiserBase + "/" + walletAddress
        + Url.QueryText(Some("name" + "=" + EscapedSplitName(first, key, value))))
      == Some(Url.Href(PageWith(walletAddress, [("name", first), (key, value)])))
  {
    var pairs := [("name", first), (key, value)];
    assert '%' !in first && '%' !in key && '%' !in value;
    PageAddressNoPercent(walletAddress);
    DecodeNameQuery(FundraiserBase + "/" + walletAddress, first, key, value);
    SerializeSplitPairs(first, key, value);
    PageWithHref(walletAddress, pairs);
  }

  /** A fundraiser page with a query serializes and parses back to itself, and its search
      parameters are the ones serialized. */
  lemma PageWithRoundTrip(walletAddress: string, pairs: seq<(string, string)>)
    requires Blockchain.IsValidAddress(walletAddress)
    ensures Url.Parse(Url.Href(PageWith(walletAddress, pairs))) == Some(PageWith(walletAddress, pairs))
    ensures Url.SearchParams(PageWith(walletAddress, pairs)) == pairs
  {
    PageWithWellFormed(walletAddress, pairs);
    Url.ParseHref(PageWith(walletAddress, pairs));
    Url.WithQuerySearchParams(FundraiserPage(walletAddress), pairs);
  }

  lemma SplitPairsGet(first: string, key: string, value: string)
    requires key != "name"
    ensures FormUrlencoded.Get([("name", first), (key, value)], "name") == Some(first)
    ensures FormUrlencoded.Get([("name", first), (key, value)], key) == Some(value)
  {
    FormUrlencoded.GetAppend([("name", first)], [(key, value)], key);
  }

  /** What `fixDoubleEncodedURL` makes of a correct fundraiser link whose name is
      `first&key=value`: it decodes the whole link, the escaped `&` and `=` of the name
      become separators, and the repaired link carries the name `first` and a parameter
      `key` of value `value` that the generated link does not have. */
  lemma FixDoubleEncodedURLSplitsName(walletAddress: string, first: string, key: string, value: string)
    requires Blockchain.IsValidAddress(walletAddress) && key != "name"
    requires FormUrlencoded.AllFormSafe(first) && FormUrlencoded.AllFormSafe(key)
      && FormUrlencoded.AllFormSafe(value)
    ensures var link := GenerateFundraiserURL(walletAddress, FundraiserParams("", SplitName(first, key, value), ""));
      && link.Success?
      && FixDoubleEncodedURL(link.value) == Url.Href(PageWith(walletAddress, [("name", first), (key, value)]))
    ensures var split := Url.SearchParams(PageWith(walletAddress, [("name", first), (key, value)]));
      && FormUrlencoded.Get(split, "name") == Some(first)
      && FormUrlencoded.Get(split, key) == Some(value)
  {
    var params := FundraiserParams("", SplitName(first, key, value), "");
    var pairs := [("name", first), (key, value)];
    var page := PageWith(walletAddress, pairs);
    SplitNameLink(walletAddress, first, key, value);
    var link := FundraiserBase + "/" + walletAddress
      + Url.QueryText(Some("name" + "=" + EscapedSplitName(first, key, value)));
    SplitNameNoPercent(first, key, value);
    FixRepairsNothing(walletAddress, params);
    DecodeSplitNameLink(walletAddress, first, key, value);
    PageWithRoundTrip(walletAddress, pairs);
    FixDecodesAndParses(link, Url.Href(page), page);
    SplitPairsGet(first, key, value);
  }

  /** A link with nothing to repair that decodes to a text parsing into `u` becomes the
      address of `u`. */
  lemma FixDecodesAndParses(link: string, decoded: string, u: Url.Url)
    requires link != [] && RepairDoubleEncoding(link) == link
    requires UriCodec.DecodeURIComponent(link) == Some(decoded) && Url.Parse(decoded) == Some(u)
    ensures FixDoubleEncodedURL(link) == Url.Href(u)
  {
  }

  lemma SplitNameNoPercent(first: string, key: string, value: string)
    requires FormUrlencoded.AllFormSafe(first) && FormUrlencoded.AllFormSafe(key)
      && FormUrlencoded.AllFormSafe(value)
    ensures '%' !in SplitName(first, key, value)
  {
    assert '%' !in first && '%' !in key && '%' !in value;
  }

  /** A link generated from parameters without `%` has nothing to repair. */
  lemma FixRepairsNothing(walletAddress: string, params: FundraiserParams)
    requires Blockchain.IsValidAddress(walletAddress)
    requires '%' !in params.goal && '%' !in params.name && '%' !in params.network
    ensures var link := GenerateFundraiserURL(walletAddress, params);
      link.Success? && RepairDoubleEncoding(link.value) == link.value
  {
    FundraiserURLNoDoubleEncoding(walletAddress, params);
    RepairWithoutEscapedPercent(GenerateFundraiserURL(walletAddress, params).value);
  }

  /** The name `Web3&goal=1` fits the lemma above: the repaired link has the name `Web3`
      and a goal of 1. */
  lemma SplitNameFits()
    ensures FormUrlencoded.AllFormSafe("Web3") && FormUrlencoded.AllFormSafe("goal")
      && FormUrlencoded.AllFormSafe("1") && "goal" != "name"
  {
  }

  /** `fixDoubleEncodedURL` without the `decodeURIComponent` of the whole link: the
      repaired text is parsed as it is, so the escapes inside names and values stay
      escapes. */
  function FixDoubleEncodedURLCorrected(malformedURL: string): string {
    if malformedURL == "" then ""
    else
      match Url.Parse(RepairDoubleEncoding(malformedURL))
      case None => RepairSpaces(malformedURL)
      case Some(u) => Url.Href(u)
  }

  /** The corrected repair leaves every correct fundraiser link as it is, so each of its
      parameters reads back as it was passed, a name holding `&` or `=` included. */
  lemma FixDoubleEncodedURLCorrectedKeepsLinks(walletAddress: string, params: FundraiserParams)
    requires Blockchain.IsValidAddress(walletAddress)
    requires '%' !in params.goal && '%' !in params.name && '%' !in params.network
    ensures var link := GenerateFundraiserURL(walletAddress, params);
      link.Success? && FixDoubleEncodedURLCorrected(link.value) == link.value
  {
    FixRepairsNothing(walletAddress, params);
    FundraiserURLReadsBack(walletAddress, params);
    FundraiserURLShape(walletAddress, params);
  }
}
