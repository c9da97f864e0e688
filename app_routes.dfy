/** The route table of the frontend (`AppContent`) and the fundraiser route
    (`FundraiserRoute`): which screen a location shows, and the properties the fundraiser
    page receives from the wallet address in the path and the search parameters. */
module AppRoutes {
  import opened Wrappers
  import opened Strings
  import UriCodec
  import FormUrlencoded
  import Url
  import Blockchain
  import UrlHelpers

  // The route table

  /** The screens of the route table; `NoRoute` when no route matches. */
  datatype Screen = MainScreen | FundraiserScreen(walletAddress: string) | NoRoute

  /** `<Route path="/">` and `<Route path="/fundraiser/:walletAddress">` on the path
      segments of the location: the dynamic segment matches any non-empty segment. */
  function RouteFor(path: seq<string>): (r: Screen)
    ensures r.FundraiserScreen? <==> |path| == 2 && path[0] == "fundraiser" && path[1] != ""
    ensures r.FundraiserScreen? ==> r.walletAddress == path[1]
    ensures r.MainScreen? <==> path == [""]
  {
    if path == [""] then MainScreen
    else if |path| == 2 && path[0] == "fundraiser" && path[1] != "" then FundraiserScreen(path[1])
    else NoRoute
  }

  // The fundraiser route

  /** The properties `FundraiserPage` receives. `description` is `None` for `undefined`. */
  datatype PageProps = PageProps(walletAddress: string, goalAmount: string, fundraiserName: string,
                                 description: Option<string>, currentAmount: string,
                                 contributors: seq<string>)

  /** What the route renders: the error text, the page, or nothing because a
      `decodeURIComponent` threw while the page's properties were computed. */
  datatype RouteView = InvalidLink(message: string) | Page(props: PageProps) | DecodeThrew

  const InvalidLinkText := "Invalid fundraiser link"

  /** `searchParams.get(name) || fallback`: the parameter when it is present and non-empty. */
  function ParamOr(params: seq<(string, string)>, name: string, fallback: string): (r: string)
    ensures (FormUrlencoded.Get(params, name).Some? && FormUrlencoded.Get(params, name).value != "")
      ==> r == FormUrlencoded.Get(params, name).value
    ensures (FormUrlencoded.Get(params, name).None? || FormUrlencoded.Get(params, name).value == "")
      ==> r == fallback
  {
    match FormUrlencoded.Get(params, name)
    case Some(v) => if v != "" then v else fallback
    case None => fallback
  }

  /** The route as written: the name, and the description when it is not empty, go through
      `decodeURIComponent` although `get` has already decoded them. `walletAddress` is the
      path parameter, `None` when it is missing. */
  function FundraiserRouteAsWritten(walletAddress: Option<string>, params: seq<(string, string)>): (r: RouteView)
    ensures r.InvalidLink? <==> walletAddress.None? || walletAddress.value == ""
    ensures r.InvalidLink? ==> r.message == "Invalid fundraiser link"
  {
    var goalAmount := ParamOr(params, "goal", "1");
    var fundraiserName := ParamOr(params, "name", "Fundraiser");
    var description := ParamOr(params, "description", "");
    var currentAmount := ParamOr(params, "current", "0");
    if walletAddress.None? || walletAddress.value == "" then InvalidLink(InvalidLinkText)
    else
      match UriCodec.DecodeURIComponent(fundraiserName)
      case None => DecodeThrew
      case Some(name) =>
        if description == "" then
          Page(PageProps(walletAddress.value, goalAmount, name, None, currentAmount, []))
        else
          match UriCodec.DecodeURIComponent(description)
          case None => DecodeThrew
          case Some(d) => Page(PageProps(walletAddress.value, goalAmount, name, Some(d), currentAmount, []))
  }

  /** The route as intended: the values `get` returns are used as they are. */
  function FundraiserRoute(walletAddress: Option<string>, params: seq<(string, string)>): (r: RouteView)
    ensures r.InvalidLink? <==> walletAddress.None? || walletAddress.value == ""
    ensures r.InvalidLink? ==> r.message == "Invalid fundraiser link"
    ensures !r.DecodeThrew?
  {
    var goalAmount := ParamOr(params, "goal", "1");
    var fundraiserName := ParamOr(params, "name", "Fundraiser");
    var description := ParamOr(params, "description", "");
    var currentAmount := ParamOr(params, "current", "0");
    if walletAddress.None? || walletAddress.value == "" then InvalidLink(InvalidLinkText)
    else
      Page(PageProps(walletAddress.value, goalAmount, fundraiserName,
                     if description == "" then None else Some(description), currentAmount, []))
  }

  // Properties

  /** The page gets the wallet address unchecked and no contributors; a missing or empty
      goal, name or current amount becomes "1", "Fundraiser" or "0", and a missing or
      empty description becomes `undefined`. None of the shown values is empty. */
  lemma PageDefaults(walletAddress: string, params: seq<(string, string)>)
    requires walletAddress != ""
    ensures var r := FundraiserRoute(Some(walletAddress), params);
      && r.Page?
      && r.props.walletAddress == walletAddress && r.props.contributors == []
      && r.props.goalAmount != "" && r.props.fundraiserName != "" && r.props.currentAmount != ""
      && (r.props.description.None? <==>
            FormUrlencoded.Get(params, "description").None? || FormUrlencoded.Get(params, "description") == Some(""))
      && (FormUrlencoded.Get(params, "goal").None? ==> r.props.goalAmount == "1")
      && (FormUrlencoded.Get(params, "name").None? ==> r.props.fundraiserName == "Fundraiser")
      && (FormUrlencoded.Get(params, "current").None? ==> r.props.currentAmount == "0")
  {
  }

  /** The route table never leaves the wallet parameter empty, so the route's error text is
      not shown for a location the table sends to it. */
  lemma RoutedLinkNeverInvalid(path: seq<string>, params: seq<(string, string)>)
    requires RouteFor(path).FundraiserScreen?
    ensures !FundraiserRouteAsWritten(Some(RouteFor(path).walletAddress), params).InvalidLink?
    ensures FundraiserRoute(Some(RouteFor(path).walletAddress), params).Page?
  {
  }

  /** Both routes agree when neither the name nor the description holds a `%`. */
  lemma AsWrittenWithoutPercent(walletAddress: Option<string>, params: seq<(string, string)>)
    requires '%' !in ParamOr(params, "name", "Fundraiser") && '%' !in ParamOr(params, "description", "")
    ensures FundraiserRouteAsWritten(walletAddress, params) == FundraiserRoute(walletAddress, params)
  {
    UriCodec.DecodeWithoutPercent(ParamOr(params, "name", "Fundraiser"));
    UriCodec.DecodeWithoutPercent(ParamOr(params, "description", ""));
  }

  /** A link made by `generateFundraiserURL` opens the fundraiser screen of its address,
      and the intended route shows the goal and the name exactly as they were passed (or
      their defaults), no description and a current amount of "0". */
  lemma GeneratedLinkShowsPage(walletAddress: string, params: UrlHelpers.FundraiserParams)
    requires Blockchain.IsValidAddress(walletAddress)
    ensures var link := UrlHelpers.GenerateFundraiserURL(walletAddress, params);
      && link.Success? && Url.Parse(link.value).Some?
      && RouteFor(Url.Parse(link.value).value.path) == FundraiserScreen(walletAddress)
      && FundraiserRoute(Some(walletAddress), Url.SearchParams(Url.Parse(link.value).value))
         == Page(PageProps(walletAddress, if params.goal != "" then params.goal else "1",
                           if params.name != "" then params.name else "Fundraiser", None, "0", []))
  {
    UrlHelpers.FundraiserURLReadsBack(walletAddress, params);
    var pairs := UrlHelpers.ParamPairs(params);
    ParamPairsOtherKey(params, "description");
    ParamPairsOtherKey(params, "current");
    var link := UrlHelpers.GenerateFundraiserURL(walletAddress, params).value;
    LinkRoute(walletAddress, params, link, UrlHelpers.PageWith(walletAddress, pairs));
  }

  /** The route of a parsed link whose path and parameters are those of a fundraiser link. */
  lemma LinkRoute(walletAddress: string, params: UrlHelpers.FundraiserParams, link: string, u: Url.Url)
    requires walletAddress != "" && Url.Parse(link) == Some(u) && u.path == ["fundraiser", walletAddress]
    requires var ps := Url.SearchParams(u);
      && FormUrlencoded.Get(ps, "goal") == (if params.goal != "" then Some(params.goal) else None)
      && FormUrlencoded.Get(ps, "name") == (if params.name != "" then Some(params.name) else None)
      && FormUrlencoded.Get(ps, "description").None? && FormUrlencoded.Get(ps, "current").None?
    ensures Url.Parse(link).Some? && RouteFor(Url.Parse(link).value.path) == FundraiserScreen(walletAddress)
    ensures FundraiserRoute(Some(walletAddress), Url.SearchParams(Url.Parse(link).value))
      == Page(PageProps(walletAddress, if params.goal != "" then params.goal else "1",
                        if params.name != "" then params.name else "Fundraiser", None, "0", []))
  {
  }

  /** A fundraiser link carries no parameter besides goal, name and network. */
  lemma ParamPairsOtherKey(params: UrlHelpers.FundraiserParams, key: string)
    requires key != "goal" && key != "name" && key != "network"
    ensures FormUrlencoded.Get(UrlHelpers.ParamPairs(params), key).None?
  {
    var pairs := UrlHelpers.ParamPairs(params);
    forall i | 0 <= i < |pairs| ensures pairs[i].0 != key {
      assert pairs[i].0 in ["goal", "name", "network"];
    }
  }

  /** A name that ends in a lone `%`, such as "100%", is written `100%25` in the link and
      read back as "100%"; decoding it a second time throws, so the route as written shows
      no page for a link `generateFundraiserURL` made. */
  lemma PercentNameThrows(walletAddress: string, prefix: string, goal: string, network: string)
    requires Blockchain.IsValidAddress(walletAddress) && '%' !in prefix
    ensures var params := UrlHelpers.FundraiserParams(goal, prefix + "%", network);
      var link := UrlHelpers.GenerateFundraiserURL(walletAddress, params);
      && link.Success? && Url.Parse(link.value).Some?
      && FundraiserRouteAsWritten(Some(walletAddress), Url.SearchParams(Url.Parse(link.value).value)) == DecodeThrew
  {
    var params := UrlHelpers.FundraiserParams(goal, prefix + "%", network);
    UrlHelpers.FundraiserURLReadsBack(walletAddress, params);
    LonePercentThrows(prefix);
  }

  /** `decodeURIComponent` throws on a text ending in a `%` with no escape before it. */
  lemma LonePercentThrows(prefix: string)
    requires '%' !in prefix
    ensures UriCodec.DecodeURIComponent(prefix + "%").None?
  {
    UriCodec.DecodeSkipsPlain(prefix, "%");
    assert UriCodec.DecodeEscape("%").None?;
  }
}
