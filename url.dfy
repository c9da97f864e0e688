/** The URLs the fundraiser helpers build and read: a record for an absolute URL of a
    special scheme, its serialization (`href`), `searchParams.set`, and the basic URL
    parser of the WHATWG URL Standard (section 4.4) for the inputs the helpers meet.

    The parser covers special schemes other than `file` with an ASCII host name. It fails
    (returns `None`) where the standard parser would need what is not modelled here:
    credentials, IPv4 and IPv6 hosts, internationalized or percent-encoded host names,
    non-special schemes and relative references resolved against a base. */
module Url {
  import opened Wrappers
  import opened Strings
  import Decimal
  import Utf8
  import UriCodec
  import FormUrlencoded

  /** An absolute URL of a special scheme. `path` holds the percent-encoded segments;
      `query` and `fragment` are stored percent-encoded, without their `?` and `#`. */
  datatype Url = Url(
    scheme: string,
    host: string,
    port: Option<nat>,
    path: seq<string>,
    query: Option<string>,
    fragment: Option<string>)

  /** `url.protocol`. */
  function Protocol(u: Url): string { u.scheme + ":" }

  /** `url.pathname`: each segment preceded by `/`. */
  function Pathname(path: seq<string>): (r: string)
    ensures path != [] ==> |r| >= 1 && r[0] == '/'
  {
    if path == [] then "" else "/" + path[0] + Pathname(path[1..])
  }

  function PortText(port: Option<nat>): string {
    match port
    case None => ""
    case Some(p) => ":" + Decimal.NatToString(p)
  }

  function QueryText(query: Option<string>): string {
    match query
    case None => ""
    case Some(q) => "?" + q
  }

  function FragmentText(fragment: Option<string>): string {
    match fragment
    case None => ""
    case Some(f) => "#" + f
  }

  /** The URL serializer (`url.href`, `url.toString()`). */
  function Href(u: Url): string {
    u.scheme + "://" + u.host + PortText(u.port) + Pathname(u.path)
      + QueryText(u.query) + FragmentText(u.fragment)
  }

  /** The special schemes the parser handles, with their default ports. */
  function DefaultPort(scheme: string): Option<nat> {
    if scheme == "ftp" then Some(21)
    else if scheme == "http" || scheme == "ws" then Some(80)
    else if scheme == "https" || scheme == "wss" then Some(443)
    else None
  }

  // Input preprocessing

  predicate IsControlOrSpace(c: char) { c as int <= 0x20 }

  predicate IsTabOrNewline(c: char) { c == '\t' || c == '\n' || c == '\r' }

  function StripLeading(s: string): (r: string)
    ensures |r| <= |s| && r == s[|s| - |r|..]
  {
    if |s| > 0 && IsControlOrSpace(s[0]) then StripLeading(s[1..]) else s
  }

  function StripTrailing(s: string): (r: string)
    ensures |r| <= |s| && r == s[..|r|]
  {
    if |s| > 0 && IsControlOrSpace(s[|s| - 1]) then StripTrailing(s[..|s| - 1]) else s
  }

  function RemoveTabNewline(s: string): (r: string)
    ensures forall i :: 0 <= i < |r| ==> !IsTabOrNewline(r[i])
  {
    if s == [] then []
    else (if IsTabOrNewline(s[0]) then [] else [s[0]]) + RemoveTabNewline(s[1..])
  }

  /** The parser's first steps: leading and trailing C0 controls and spaces go, then every
      tab and newline. */
  function Preprocess(input: string): string {
    RemoveTabNewline(StripTrailing(StripLeading(input)))
  }

  // Percent-encode sets (section 1.3)

  datatype EncodeSet = PathSet | SpecialQuerySet | FragmentSet

  /** The C0 control percent-encode set: C0 controls and everything above `~`. */
  predicate InC0ControlSet(c: char) { c as int < 0x20 || c as int > 0x7E }

  predicate InQuerySet(c: char) {
    InC0ControlSet(c) || c == ' ' || c == '"' || c == '#' || c == '<' || c == '>'
  }

  predicate InSet(c: char, es: EncodeSet) {
    match es
    case PathSet => InQuerySet(c) || c == '?' || c == '`' || c == '{' || c == '}'
    case SpecialQuerySet => InQuerySet(c) || c == '\''
    case FragmentSet => InC0ControlSet(c) || c == ' ' || c == '"' || c == '<' || c == '>' || c == '`'
  }

  /** UTF-8 percent-encoding of each character of `s` that is in the set. */
  function PercentEncode(s: string, es: EncodeSet): string {
    if s == [] then ""
    else
      (if InSet(s[0], es) then UriCodec.PercentBytes(Utf8.EncodeChar(s[0])) else [s[0]])
      + PercentEncode(s[1..], es)
  }

  predicate NoneInSet(s: string, es: EncodeSet) {
    forall i :: 0 <= i < |s| ==> !InSet(s[i], es)
  }

  // Scheme, authority and host

  predicate IsSchemeChar(c: char) { IsAsciiAlphanumeric(c) || c == '+' || c == '-' || c == '.' }

  /** The length of the longest prefix of scheme characters. */
  function SchemeLength(s: string): (n: nat)
    ensures n <= |s| && (n == |s| || !IsSchemeChar(s[n]))
    ensures forall i :: 0 <= i < n ==> IsSchemeChar(s[i])
  {
    if s != [] && IsSchemeChar(s[0]) then 1 + SchemeLength(s[1..]) else 0
  }

  predicate IsSlash(c: char) { c == '/' || c == '\\' }

  /** The special authority slashes states: every `/` or `\` before the authority goes. */
  function SkipSlashes(s: string): (r: string)
    ensures |r| <= |s| && r == s[|s| - |r|..]
    ensures r == [] || !IsSlash(r[0])
  {
    if s != [] && IsSlash(s[0]) then SkipSlashes(s[1..]) else s
  }

  predicate EndsAuthority(c: char) { IsSlash(c) || c == '?' || c == '#' }

  /** Where the authority ends: the first `/`, `\`, `?` or `#`. */
  function AuthorityLength(s: string): (n: nat)
    ensures n <= |s| && (n == |s| || EndsAuthority(s[n]))
    ensures forall i :: 0 <= i < n ==> !EndsAuthority(s[i])
  {
    if s != [] && !EndsAuthority(s[0]) then 1 + AuthorityLength(s[1..]) else 0
  }

  predicate IsHostChar(c: char) { IsAsciiAlphanumeric(c) || c == '-' || c == '.' || c == '_' }

  /** The ends-in-a-number checker: the last label (a trailing empty one aside) is a
      decimal number or a `0x` hexadecimal one, so the host would be read as IPv4. */
  predicate EndsInNumber(host: string) {
    var parts := Split(host, '.');
    var parts' := if |parts| > 1 && parts[|parts| - 1] == "" then parts[..|parts| - 1] else parts;
    var last := parts'[|parts'| - 1];
    (last != "" && AllDigits(last))
    || (|last| >= 2 && last[0] == '0' && (last[1] == 'x' || last[1] == 'X') && AllHexDigits(last[2..]))
  }

  /** A label in the ACE form `xn--`, which the domain-to-ASCII step would have to
      check as Punycode. */
  predicate HasAceLabel(host: string) {
    StartsWith(host, "xn--") || Contains(host, ".xn--")
  }

  /** The host parser on the ASCII domains the model covers: lower-cased, `None` for an
      empty host and for what this model does not parse. */
  function ParseHost(text: string): (r: Option<string>)
    ensures r.Some? ==> r.value != "" && r.value == LowerAscii(text)
    ensures r.Some? ==> forall i :: 0 <= i < |text| ==> IsHostChar(text[i])
  {
    if text == [] || exists i :: 0 <= i < |text| && !IsHostChar(text[i]) then None
    else
      var host := LowerAscii(text);
      if EndsInNumber(host) || HasAceLabel(host) then None else Some(host)
  }

  /** The port state: digits up to 65535, with a scheme's default port dropped; `None` for
      failure. */
  function ParsePort(text: Option<string>, scheme: string): (r: Option<Option<nat>>)
    ensures r.Some? && r.value.Some? ==> r.value.value <= 65535 && DefaultPort(scheme) != r.value
  {
    match text
    case None => Some(None)
    case Some(t) =>
      if t == "" then Some(None)
      else if !AllDigits(t) then None
      else
        var p := Decimal.DigitsValue(t);
        if p > 65535 then None
        else if DefaultPort(scheme) == Some(p) then Some(None)
        else Some(Some(p))
  }

  // Path

  predicate IsSingleDot(seg: string) { seg == "." || LowerAscii(seg) == "%2e" }

  predicate IsDoubleDot(seg: string) {
    var l := LowerAscii(seg);
    l == ".." || l == ".%2e" || l == "%2e." || l == "%2e%2e"
  }

  function Shorten(path: seq<string>): seq<string> {
    if path == [] then [] else path[..|path| - 1]
  }

  /** The path state over the `/`-separated pieces of a path: `..` removes the last
      segment, `.` is dropped, and a dot piece at the very end leaves an empty segment. */
  function PathSegments(pieces: seq<string>, acc: seq<string>): (r: seq<string>)
    ensures pieces != [] ==> r != []
  {
    if pieces == [] then acc
    else
      var last := if |pieces| == 1 then [""] else [];
      var b := pieces[0];
      if IsDoubleDot(b) then PathSegments(pieces[1..], Shorten(acc) + last)
      else if IsSingleDot(b) then PathSegments(pieces[1..], acc + last)
      else PathSegments(pieces[1..], acc + [PercentEncode(b, PathSet)])
  }

  function ReplaceBackslashes(s: string): (r: string)
    ensures |r| == |s| && '\\' !in r
    ensures forall i :: 0 <= i < |s| ==> r[i] == if s[i] == '\\' then '/' else s[i]
  {
    if s == [] then [] else [if s[0] == '\\' then '/' else s[0]] + ReplaceBackslashes(s[1..])
  }

  /** The path start and path states of a special URL: `\` counts as `/`. */
  function ParsePath(text: string): (r: seq<string>)
    ensures r != []
  {
    var t := if text != [] && IsSlash(text[0]) then text[1..] else text;
    PathSegments(Split(ReplaceBackslashes(t), '/'), [])
  }

  // The parser

  /** The path text, query and fragment that follow the authority. */
  function SplitRest(t: string): (string, Option<string>, Option<string>)
  {
    var (beforeHash, fragment) := CutAt(t, '#');
    var (pathText, query) := CutAt(beforeHash, '?');
    (pathText, query, fragment)
  }

  /** The text before the first `c` and, when there is one, the text after it: how the
      fragment, query and host states split at `#`, `?` and `:`. */
  function CutAt(t: string, c: char): (string, Option<string>)
  {
    if c in t then (t[..IndexOfChar(t, c)], Some(t[IndexOfChar(t, c) + 1..])) else (t, None)
  }

  function MapEncode(text: Option<string>, es: EncodeSet): Option<string> {
    match text
    case None => None
    case Some(t) => Some(PercentEncode(t, es))
  }

  /** The scheme start and scheme states: a letter, then scheme characters up to a `:`.
      Gives the lower-cased scheme and what follows the `:`. */
  function SplitScheme(s: string): (r: Option<(string, string)>)
  {
    var n := SchemeLength(s);
    if n == 0 || n == |s| || !IsAsciiAlpha(s[0]) || s[n] != ':' then None
    else Some((LowerAscii(s[..n]), s[n + 1..]))
  }

  /** The authority, host and port states on the text between the slashes and the path. */
  function ParseAuthority(authority: string, scheme: string): (r: Option<(string, Option<nat>)>)
  {
    if '@' in authority || '[' in authority then None
    else
      var (hostText, portText) := CutAt(authority, ':');
      match ParseHost(hostText)
      case None => None
      case Some(host) =>
        match ParsePort(portText, scheme)
        case None => None
        case Some(port) => Some((host, port))
  }

  /** What follows the scheme of a special URL: slashes, authority, path, query, fragment. */
  function ParseSpecial(scheme: string, afterColon: string): (r: Option<Url>)
    requires DefaultPort(scheme).Some?
  {
    var rest := SkipSlashes(afterColon);
    var a := AuthorityLength(rest);
    match ParseAuthority(rest[..a], scheme)
    case None => None
    case Some((host, port)) =>
      var (pathText, query, fragment) := SplitRest(rest[a..]);
      Some(Url(scheme, host, port, ParsePath(pathText),
        MapEncode(query, SpecialQuerySet), MapEncode(fragment, FragmentSet)))
  }

  /** The basic URL parser with no base URL, on the inputs this model covers. */
  function Parse(input: string): (r: Option<Url>)
  {
    match SplitScheme(Preprocess(input))
    case None => None
    case Some((scheme, afterColon)) =>
      if DefaultPort(scheme).None? then None else ParseSpecial(scheme, afterColon)
  }

  // Search parameters

  /** The list behind `url.searchParams`. */
  function SearchParams(u: Url): seq<(string, string)> {
    match u.query
    case None => []
    case Some(q) => FormUrlencoded.Parse(q)
  }

  /** `url.searchParams.set(name, value)`: the list changes as `set` says and the URL's
      query becomes the list's serialization (never empty, since `set` leaves at least
      one pair). */
  function SetSearchParam(u: Url, name: string, value: string): (r: Url)
    ensures r.query.Some? && r.query.value != ""
    ensures r == u.(query := r.query)
  {
    var pairs := FormUrlencoded.Set(SearchParams(u), name, value);
    FormUrlencoded.SetNonEmpty(SearchParams(u), name, value);
    u.(query := Some(FormUrlencoded.Serialize(pairs)))
  }

  /** The list read back from the query after `set` is the list `set` made: serializing
      into the query loses nothing. */
  lemma SearchParamsSet(u: Url, name: string, value: string)
    ensures SearchParams(SetSearchParam(u, name, value))
      == FormUrlencoded.Set(SearchParams(u), name, value)
  {
    FormUrlencoded.ParseSerialize(FormUrlencoded.Set(SearchParams(u), name, value));
  }

  /** The query text of a list of search parameters: none for an empty list. */
  function QueryOf(pairs: seq<(string, string)>): Option<string> {
    if pairs == [] then None else Some(FormUrlencoded.Serialize(pairs))
  }

  /** `u` with its query replaced by the serialization of `pairs`. */
  function WithQuery(u: Url, pairs: seq<(string, string)>): Url {
    u.(query := QueryOf(pairs))
  }

  lemma WithQuerySearchParams(u: Url, pairs: seq<(string, string)>)
    ensures SearchParams(WithQuery(u, pairs)) == pairs
  {
    if pairs != [] {
      FormUrlencoded.ParseSerialize(pairs);
    }
  }

  /** Setting a parameter the query does not have yet appends it to the list. */
  lemma SetFreshAppends(u: Url, pairs: seq<(string, string)>, name: string, value: string)
    requires FormUrlencoded.Get(pairs, name).None?
    ensures SetSearchParam(WithQuery(u, pairs), name, value) == WithQuery(u, pairs + [(name, value)])
  {
    WithQuerySearchParams(u, pairs);
    FormUrlencoded.SetAbsentAppends(pairs, name, value);
  }

  /** A query the urlencoded serializer wrote needs no further percent-encoding. */
  lemma SerializedQueryClean(pairs: seq<(string, string)>)
    ensures NoneInSet(FormUrlencoded.Serialize(pairs), SpecialQuerySet)
  {
    FormUrlencoded.SerializeChars(pairs);
    var q := FormUrlencoded.Serialize(pairs);
    forall i | 0 <= i < |q| ensures !InSet(q[i], SpecialQuerySet) {
      assert FormUrlencoded.IsSerializedChar(q[i]);
    }
  }

  /** `searchParams.set` for each pair in turn. */
  function SetSearchParams(u: Url, pairs: seq<(string, string)>): Url
    decreases |pairs|
  {
    if pairs == [] then u else SetSearchParams(SetSearchParam(u, pairs[0].0, pairs[0].1), pairs[1..])
  }

  predicate DistinctNames(pairs: seq<(string, string)>) {
    forall i, j :: 0 <= i < j < |pairs| ==> pairs[i].0 != pairs[j].0
  }

  /** Setting pairs whose names are new and distinct appends them all, in order. */
  lemma {:induction false} SetSearchParamsAppends(u: Url, done: seq<(string, string)>, rest: seq<(string, string)>)
    requires DistinctNames(done + rest)
    ensures SetSearchParams(WithQuery(u, done), rest) == WithQuery(u, done + rest)
    decreases |rest|
  {
    if rest == [] {
      assert done + rest == done;
    } else {
      DistinctNamesShift(done, rest);
      SetFreshAppends(u, done, rest[0].0, rest[0].1);
      SetSearchParamsAppends(u, done + [rest[0]], rest[1..]);
    }
  }

  /** Moving the next pair to the pairs already set keeps the names distinct, and its name
      is not among those set. */
  lemma DistinctNamesShift(done: seq<(string, string)>, rest: seq<(string, string)>)
    requires rest != [] && DistinctNames(done + rest)
    ensures FormUrlencoded.Get(done, rest[0].0).None?
    ensures done + rest == (done + [rest[0]]) + rest[1..]
    ensures DistinctNames((done + [rest[0]]) + rest[1..])
  {
    forall i | 0 <= i < |done| ensures done[i].0 != rest[0].0 {
      assert (done + rest)[i] == done[i] && (done + rest)[|done|] == rest[0];
    }
    assert done + rest == (done + [rest[0]]) + rest[1..];
  }

  lemma WebPorts()
    ensures DefaultPort("http") == Some(80) && DefaultPort("https") == Some(443)
  {
  }

  /** The `href` of a URL without query or fragment: the origin, then the path. */
  lemma HrefWithoutQuery(u: Url)
    requires u.query.None? && u.fragment.None?
    ensures Href(u) == (u.scheme + "://" + u.host + PortText(u.port)) + Pathname(u.path)
  {
  }

  /** Replacing the query keeps a URL well formed. */
  lemma WithQueryWellFormed(u: Url, pairs: seq<(string, string)>)
    requires WellFormed(u)
    ensures WellFormed(WithQuery(u, pairs))
  {
    SerializedQueryClean(pairs);
  }

  /** The `href` of a URL without query or fragment, given a query: `?` and the query
      follow the path. */
  lemma HrefWithQuery(u: Url, pairs: seq<(string, string)>)
    requires u.query.None? && u.fragment.None?
    ensures Href(WithQuery(u, pairs)) == Href(u) + QueryText(QueryOf(pairs))
  {
  }

  /** `searchParams.set` keeps a URL well formed, so the parser reads its `href` back. */
  lemma SetSearchParamWellFormed(u: Url, name: string, value: string)
    requires WellFormed(u)
    ensures WellFormed(SetSearchParam(u, name, value))
  {
    SerializedQueryClean(FormUrlencoded.Set(SearchParams(u), name, value));
  }

  // Properties of the parser

  lemma {:induction false} PercentEncodeIdentity(s: string, es: EncodeSet)
    requires NoneInSet(s, es)
    ensures PercentEncode(s, es) == s
  {
    if s != [] {
      PercentEncodeIdentity(s[1..], es);
      assert s == [s[0]] + s[1..];
    }
  }

  lemma {:induction false} PercentBytesChars(bs: seq<Utf8.Byte>)
    ensures forall i :: 0 <= i < |UriCodec.PercentBytes(bs)| ==>
      UriCodec.PercentBytes(bs)[i] == '%' || IsHexDigit(UriCodec.PercentBytes(bs)[i])
  {
    if bs != [] {
      PercentBytesChars(bs[1..]);
      var p := UriCodec.PercentByte(bs[0]);
      assert forall i :: 0 <= i < 3 ==> p[i] == '%' || IsHexDigit(p[i]);
    }
  }

  /** What the encoding writes is outside the set: `%`, hex digits and the characters it
      left alone. */
  lemma {:induction false} PercentEncodeOutside(s: string, es: EncodeSet)
    ensures NoneInSet(PercentEncode(s, es), es)
  {
    if s != [] {
      PercentEncodeOutside(s[1..], es);
      PercentBytesChars(Utf8.EncodeChar(s[0]));
    }
  }

  /** Percent-encoding twice is percent-encoding once. */
  lemma PercentEncodeIdempotent(s: string, es: EncodeSet)
    ensures PercentEncode(PercentEncode(s, es), es) == PercentEncode(s, es)
  {
    PercentEncodeOutside(s, es);
    PercentEncodeIdentity(PercentEncode(s, es), es);
  }

  // Reparsing a serialized URL

  /** A segment the path state keeps as it is. */
  predicate IsPlainSegment(seg: string) {
    NoneInSet(seg, PathSet) && '/' !in seg && '\\' !in seg && !IsSingleDot(seg) && !IsDoubleDot(seg)
  }

  /** A segment of ASCII letters and digits is kept as it is. */
  lemma AlphanumericSegment(seg: string)
    requires seg != [] && forall i :: 0 <= i < |seg| ==> IsAsciiAlphanumeric(seg[i])
    ensures IsPlainSegment(seg)
  {
    var l := LowerAscii(seg);
    assert l[0] == LowerAsciiChar(seg[0]) && l[0] != '.' && l[0] != '%';
    assert seg[0] != '.';
  }

  /** ... and so is one of letters, digits and `-` that starts with a letter or digit. */
  lemma HyphenatedSegment(seg: string)
    requires seg != [] && IsAsciiAlphanumeric(seg[0])
    requires forall i :: 0 <= i < |seg| ==> IsAsciiAlphanumeric(seg[i]) || seg[i] == '-'
    ensures IsPlainSegment(seg)
  {
    var l := LowerAscii(seg);
    assert l[0] == LowerAsciiChar(seg[0]) && l[0] != '.' && l[0] != '%';
    assert seg[0] != '.';
  }

  /** A URL record as the parser produces it, with segments that need no encoding. */
  predicate WellFormed(u: Url) {
    && DefaultPort(u.scheme).Some?
    && ParseHost(u.host) == Some(u.host)
    && (u.port.Some? ==> u.port.value <= 65535 && DefaultPort(u.scheme) != u.port)
    && u.path != []
    && (forall i :: 0 <= i < |u.path| ==> IsPlainSegment(u.path[i]))
    && (u.query.Some? ==> NoneInSet(u.query.value, SpecialQuerySet))
    && (u.fragment.Some? ==> NoneInSet(u.fragment.value, FragmentSet))
  }

  predicate Printable(s: string) { forall i :: 0 <= i < |s| ==> !IsControlOrSpace(s[i]) }

  lemma {:induction false} RemoveTabNewlineIdentity(s: string)
    requires Printable(s)
    ensures RemoveTabNewline(s) == s
  {
    if s != [] {
      RemoveTabNewlineIdentity(s[1..]);
      assert s == [s[0]] + s[1..];
    }
  }

  lemma PreprocessIdentity(s: string)
    requires Printable(s)
    ensures Preprocess(s) == s
  {
    RemoveTabNewlineIdentity(s);
  }

  lemma {:induction false} SchemeLengthPrefix(a: string, b: string)
    requires forall i :: 0 <= i < |a| ==> IsSchemeChar(a[i])
    requires b != [] && !IsSchemeChar(b[0])
    ensures SchemeLength(a + b) == |a|
  {
    if a != [] {
      assert (a + b)[1..] == a[1..] + b;
      SchemeLengthPrefix(a[1..], b);
    } else {
      assert a + b == b;
    }
  }

  lemma {:induction false} AuthorityLengthPrefix(a: string, b: string)
    requires forall i :: 0 <= i < |a| ==> !EndsAuthority(a[i])
    requires b != [] && EndsAuthority(b[0])
    ensures AuthorityLength(a + b) == |a|
  {
    if a != [] {
      assert (a + b)[1..] == a[1..] + b;
      AuthorityLengthPrefix(a[1..], b);
    } else {
      assert a + b == b;
    }
  }

  lemma {:induction false} PathnameJoin(path: seq<string>)
    requires path != []
    ensures Pathname(path) == "/" + Join(path, "/")
  {
    if |path| > 1 {
      PathnameJoin(path[1..]);
    }
  }

  lemma {:induction false} PathSegmentsPlain(pieces: seq<string>, acc: seq<string>)
    requires forall i :: 0 <= i < |pieces| ==> IsPlainSegment(pieces[i])
    ensures PathSegments(pieces, acc) == acc + pieces
  {
    if pieces != [] {
      PercentEncodeIdentity(pieces[0], PathSet);
      PathSegmentsPlain(pieces[1..], acc + [pieces[0]]);
      assert acc + [pieces[0]] + pieces[1..] == acc + pieces;
    }
  }

  lemma {:induction false} ReplaceBackslashesIdentity(s: string)
    requires '\\' !in s
    ensures ReplaceBackslashes(s) == s
  {
    if s != [] {
      assert '\\' !in s[1..] by { assert forall x :: x in s[1..] ==> x in s; }
      ReplaceBackslashesIdentity(s[1..]);
      assert s == [s[0]] + s[1..];
    }
  }

  lemma {:induction false} JoinLacks(parts: seq<string>, c: char)
    requires c != '/'
    requires forall i :: 0 <= i < |parts| ==> c !in parts[i]
    ensures c !in Join(parts, "/")
  {
    if |parts| > 1 {
      JoinLacks(parts[1..], c);
    }
  }

  /** The path state reads the segments of a serialized path back. */
  lemma ParsePathname(path: seq<string>)
    requires path != [] && forall i :: 0 <= i < |path| ==> IsPlainSegment(path[i])
    ensures ParsePath(Pathname(path)) == path
  {
    PathnameJoin(path);
    var t := Join(path, "/");
    assert Pathname(path)[1..] == t;
    JoinLacks(path, '\\');
    ReplaceBackslashesIdentity(t);
    SplitJoin(path, '/');
    PathSegmentsPlain(path, []);
    assert [] + path == path;
  }

  lemma {:induction false} PathnameLacks(path: seq<string>, c: char)
    requires c != '/'
    requires forall i :: 0 <= i < |path| ==> c !in path[i]
    ensures c !in Pathname(path)
  {
    if path != [] {
      PathnameLacks(path[1..], c);
    }
  }

  lemma NoneInSetLacks(s: string, es: EncodeSet, c: char)
    requires NoneInSet(s, es) && InSet(c, es)
    ensures c !in s
  {
  }

  lemma {:induction false} PathnamePrintable(path: seq<string>)
    requires forall i :: 0 <= i < |path| ==> IsPlainSegment(path[i])
    ensures Printable(Pathname(path))
  {
    if path != [] {
      PathnamePrintable(path[1..]);
      assert Printable(path[0]) by {
        forall i | 0 <= i < |path[0]| ensures !IsControlOrSpace(path[0][i]) {
          assert !InSet(path[0][i], PathSet);
        }
      }
    }
  }

  /** The text after the authority splits back into the path, query and fragment. */
  lemma SplitRestParts(p: string, query: Option<string>, fragment: Option<string>)
    requires '#' !in p && '?' !in p
    requires query.Some? ==> '#' !in query.value
    ensures SplitRest(p + QueryText(query) + FragmentText(fragment)) == (p, query, fragment)
  {
    var b := p + QueryText(query);
    assert '#' !in b;
    CutFragment(b, fragment);
    CutQuery(p, query);
  }

  /** Text without `#` followed by a fragment is cut at the fragment's `#`. */
  lemma CutFragment(b: string, fragment: Option<string>)
    requires '#' !in b
    ensures CutAt(b + FragmentText(fragment), '#') == (b, fragment)
  {
    if fragment.Some? {
      CutAfter(b, '#', fragment.value);
    } else {
      assert b + FragmentText(fragment) == b;
    }
  }

  /** A path without `?` followed by a query is cut at the query's `?`. */
  lemma CutQuery(p: string, query: Option<string>)
    requires '?' !in p
    ensures CutAt(p + QueryText(query), '?') == (p, query)
  {
    if query.Some? {
      CutAfter(p, '?', query.value);
    } else {
      assert p + QueryText(query) == p;
    }
  }

  lemma SplitRestHref(u: Url)
    requires WellFormed(u)
    ensures SplitRest(Pathname(u.path) + QueryText(u.query) + FragmentText(u.fragment))
      == (Pathname(u.path), u.query, u.fragment)
  {
    forall i | 0 <= i < |u.path| ensures '#' !in u.path[i] && '?' !in u.path[i] {
      NoneInSetLacks(u.path[i], PathSet, '#');
      NoneInSetLacks(u.path[i], PathSet, '?');
    }
    PathnameLacks(u.path, '#');
    PathnameLacks(u.path, '?');
    if u.query.Some? {
      NoneInSetLacks(u.query.value, SpecialQuerySet, '#');
    }
    SplitRestParts(Pathname(u.path), u.query, u.fragment);
  }

  lemma {:induction false} NatToStringPrintable(n: nat)
    ensures forall i :: 0 <= i < |Decimal.NatToString(n)| ==> IsDigit(Decimal.NatToString(n)[i])
  {
  }

  /** The port state reads a serialized port back. */
  lemma ParsePortText(u: Url)
    requires WellFormed(u) && u.port.Some?
    ensures ParsePort(Some(Decimal.NatToString(u.port.value)), u.scheme) == Some(u.port)
  {
    Decimal.DigitsValueOfNatToString(u.port.value);
  }

  lemma HostPrintable(u: Url)
    requires WellFormed(u)
    ensures forall i :: 0 <= i < |u.host| ==> IsHostChar(u.host[i])
  {
  }

  /** The characters an authority is serialized with. */
  predicate IsAuthorityChar(c: char) { IsHostChar(c) || c == ':' }

  lemma AuthorityChars(u: Url)
    requires WellFormed(u)
    ensures forall i :: 0 <= i < |u.host + PortText(u.port)| ==> IsAuthorityChar((u.host + PortText(u.port))[i])
  {
    HostPrintable(u);
    NatToStringPrintable(if u.port.Some? then u.port.value else 0);
  }

  /** The host state cuts a serialized host and port at the port's `:`. */
  lemma SplitHostPortText(host: string, port: Option<nat>)
    requires ':' !in host
    ensures CutAt(host + PortText(port), ':')
      == (host, if port.Some? then Some(Decimal.NatToString(port.value)) else None)
  {
    if port.Some? {
      CutAfter(host, ':', Decimal.NatToString(port.value));
    } else {
      assert host + PortText(port) == host;
    }
  }

  /** The authority states read a serialized host and port back. */
  lemma ParseAuthorityHref(u: Url)
    requires WellFormed(u)
    ensures ParseAuthority(u.host + PortText(u.port), u.scheme) == Some((u.host, u.port))
  {
    var auth := u.host + PortText(u.port);
    AuthorityChars(u);
    assert '@' !in auth && '[' !in auth;
    HostPrintable(u);
    SplitHostPortText(u.host, u.port);
    if u.port.Some? {
      ParsePortText(u);
    }
  }

  /** The special schemes are non-empty runs of lower-case letters. */
  lemma SpecialSchemeLetters(scheme: string)
    requires DefaultPort(scheme).Some?
    ensures scheme != [] && forall i :: 0 <= i < |scheme| ==> 'a' <= scheme[i] <= 'z'
  {
  }

  lemma {:induction false} LowerAsciiIdentity(s: string)
    requires forall i :: 0 <= i < |s| ==> !('A' <= s[i] <= 'Z')
    ensures LowerAscii(s) == s
  {
    if s != [] {
      LowerAsciiIdentity(s[1..]);
      assert s == [s[0]] + s[1..];
    }
  }

  predicate LettersAndDots(h: string) {
    forall i :: 0 <= i < |h| ==> 'a' <= h[i] <= 'z' || h[i] == '.'
  }

  lemma LettersNotNumber(h: string)
    requires LettersAndDots(h)
    ensures !EndsInNumber(h)
  {
    var parts := Split(h, '.');
    SplitChars(h, '.');
    SplitNoSeparator(h, '.');
    var parts' := if |parts| > 1 && parts[|parts| - 1] == "" then parts[..|parts| - 1] else parts;
    var last := parts'[|parts'| - 1];
    assert last == parts[|parts'| - 1];
    if last != "" {
      assert last[0] in h && last[0] != '.';
    }
  }

  lemma LettersNoAceLabel(h: string)
    requires LettersAndDots(h)
    ensures !HasAceLabel(h)
  {
    if |h| >= 4 {
      assert h[..4][2] == h[2];
    }
    forall i | 0 <= i <= |h| ensures !OccursAt(h, ".xn--", i) {
      if i + 5 <= |h| {
        assert h[i..i + 5][3] == h[i + 3];
      }
    }
  }

  /** A host name of lower-case ASCII letters and dots is its own parse: it is neither
      an IPv4 address nor an ACE label. */
  lemma LetterHost(h: string)
    requires h != [] && LettersAndDots(h)
    ensures ParseHost(h) == Some(h)
  {
    LowerAsciiIdentity(h);
    LettersNotNumber(h);
    LettersNoAceLabel(h);
    assert forall i :: 0 <= i < |h| ==> IsHostChar(h[i]);
  }

  lemma SplitSchemeHref(scheme: string, t: string)
    requires DefaultPort(scheme).Some?
    ensures SplitScheme(scheme + ":" + t) == Some((scheme, t))
  {
    var h := scheme + ":" + t;
    SpecialSchemeLetters(scheme);
    LowerAsciiIdentity(scheme);
    SchemeLengthPrefix(scheme, ":" + t);
    assert h == scheme + (":" + t);
    assert h[..|scheme|] == scheme && h[|scheme| + 1..] == t;
  }

  lemma PrintableConcat(a: string, b: string)
    requires Printable(a) && Printable(b)
    ensures Printable(a + b)
  {
    assert forall i :: |a| <= i < |a + b| ==> (a + b)[i] == b[i - |a|];
  }

  lemma NoneInSetPrintable(s: string, es: EncodeSet)
    requires NoneInSet(s, es)
    ensures Printable(s)
  {
    forall i | 0 <= i < |s| ensures !IsControlOrSpace(s[i]) {
      assert !InSet(s[i], es);
    }
  }

  lemma HrefPrintable(u: Url)
    requires WellFormed(u)
    ensures Printable(Href(u))
  {
    var origin := u.scheme + "://" + u.host + PortText(u.port);
    OriginPrintable(u);
    PathnamePrintable(u.path);
    QueryFragmentPrintable(u);
    PrintableConcat(origin, Pathname(u.path));
    PrintableConcat(origin + Pathname(u.path), QueryText(u.query));
    PrintableConcat(origin + Pathname(u.path) + QueryText(u.query), FragmentText(u.fragment));
  }

  lemma OriginPrintable(u: Url)
    requires WellFormed(u)
    ensures Printable(u.scheme + "://" + u.host + PortText(u.port))
  {
    SpecialSchemeLetters(u.scheme);
    HostPrintable(u);
    NatToStringPrintable(if u.port.Some? then u.port.value else 0);
    PrintableConcat(u.scheme, "://");
    PrintableConcat(u.scheme + "://", u.host);
    PrintableConcat(u.scheme + "://" + u.host, PortText(u.port));
  }

  lemma QueryFragmentPrintable(u: Url)
    requires WellFormed(u)
    ensures Printable(QueryText(u.query)) && Printable(FragmentText(u.fragment))
  {
    if u.query.Some? {
      NoneInSetPrintable(u.query.value, SpecialQuerySet);
      PrintableConcat("?", u.query.value);
    }
    if u.fragment.Some? {
      NoneInSetPrintable(u.fragment.value, FragmentSet);
      PrintableConcat("#", u.fragment.value);
    }
  }

  function AuthorityText(u: Url): string { u.host + PortText(u.port) }

  function TailText(u: Url): string { Pathname(u.path) + QueryText(u.query) + FragmentText(u.fragment) }

  lemma HrefParts(u: Url)
    ensures Href(u) == u.scheme + ":" + ("//" + (AuthorityText(u) + TailText(u)))
  {
  }

  lemma SkipTwoSlashes(x: string)
    requires x != [] && !IsSlash(x[0])
    ensures SkipSlashes("//" + x) == x
  {
    assert ("//" + x)[1..] == "/" + x;
    assert ("/" + x)[1..] == x;
    assert SkipSlashes("//" + x) == SkipSlashes("/" + x);
    assert SkipSlashes("/" + x) == SkipSlashes(x);
  }

  /** The steps of `ParseSpecial` one after the other, for a text that splits into an
      authority and a tail the parser reads back. */
  lemma ParseSpecialSteps(u: Url, auth: string, tail: string)
    requires DefaultPort(u.scheme).Some?
    requires auth != [] && !IsSlash(auth[0]) && AuthorityLength(auth + tail) == |auth|
    requires ParseAuthority(auth, u.scheme) == Some((u.host, u.port))
    requires SplitRest(tail) == (Pathname(u.path), u.query, u.fragment)
    requires ParsePath(Pathname(u.path)) == u.path
    requires MapEncode(u.query, SpecialQuerySet) == u.query
    requires MapEncode(u.fragment, FragmentSet) == u.fragment
    ensures ParseSpecial(u.scheme, "//" + (auth + tail)) == Some(u)
  {
    SkipTwoSlashes(auth + tail);
    assert (auth + tail)[..|auth|] == auth && (auth + tail)[|auth|..] == tail;
  }

  lemma MapEncodeIdentity(text: Option<string>, es: EncodeSet)
    requires text.Some? ==> NoneInSet(text.value, es)
    ensures MapEncode(text, es) == text
  {
    if text.Some? { PercentEncodeIdentity(text.value, es); }
  }

  lemma ParseSpecialHref(u: Url)
    requires WellFormed(u)
    ensures ParseSpecial(u.scheme, "//" + (AuthorityText(u) + TailText(u))) == Some(u)
  {
    HostPrintable(u);
    AuthorityPrefix(u);
    ParseAuthorityHref(u);
    SplitRestHref(u);
    ParsePathname(u.path);
    MapEncodeIdentity(u.query, SpecialQuerySet);
    MapEncodeIdentity(u.fragment, FragmentSet);
    ParseSpecialSteps(u, AuthorityText(u), TailText(u));
  }

  /** Parsing the serialization of a well-formed URL gives the URL back: `href` loses
      nothing the parser needs. */
  lemma ParseHref(u: Url)
    requires WellFormed(u)
    ensures Parse(Href(u)) == Some(u)
  {
    HrefParts(u);
    HrefPrintable(u);
    PreprocessIdentity(Href(u));
    SplitSchemeHref(u.scheme, "//" + (AuthorityText(u) + TailText(u)));
    ParseSpecialHref(u);
  }

  lemma AuthorityPrefix(u: Url)
    requires WellFormed(u)
    ensures AuthorityLength(AuthorityText(u) + TailText(u)) == |AuthorityText(u)|
  {
    AuthorityChars(u);
    AuthorityLengthPrefix(AuthorityText(u), TailText(u));
  }

  /** Every URL the parser gives has one of the special schemes. */
  lemma ParseScheme(input: string)
    requires Parse(input).Some?
    ensures DefaultPort(Parse(input).value.scheme).Some?
  {
  }

  lemma {:induction false} StripTrailingKeepsFirst(s: string)
    requires s != [] && !IsControlOrSpace(s[0])
    ensures StripTrailing(s) != [] && StripTrailing(s)[0] == s[0]
  {
    if IsControlOrSpace(s[|s| - 1]) {
      StripTrailingKeepsFirst(s[..|s| - 1]);
    }
  }

  /** A relative reference such as `/api/qr-code` does not parse: without a base URL the
      parser needs a scheme. */
  lemma RelativeUnparsed(input: string)
    requires input != [] && input[0] == '/'
    ensures Parse(input).None?
  {
    StripTrailingKeepsFirst(input);
    var t := StripTrailing(StripLeading(input));
    assert RemoveTabNewline(t) == [t[0]] + RemoveTabNewline(t[1..]);
    assert SchemeLength(Preprocess(input)) == 0;
  }
}
