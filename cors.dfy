/** The origin policy of the HTTP server (the `origin` callback of the CORS options in
    index.ts): which `Origin` headers the browser is told it may send credentials from. The
    `NODE_ENV` variable is a parameter. */
module Cors {
  import opened Wrappers
  import opened Strings

  /** `callback(null, true)` or `callback(new Error('Not allowed by CORS'))`. */
  datatype Decision = Allow | Deny

  /** The origins allowed in every environment. */
  const AllowedOrigins: seq<string> := [
    "https://www.zeonai.xyz",
    "https://zeonai.xyz",
    "http://localhost:3000",
    "http://localhost:5173",
    "http://localhost:5174",
    "http://127.0.0.1:3000",
    "http://127.0.0.1:5173",
    "http://127.0.0.1:5174"
  ]

  /** `!origin`: a request with no `Origin` header, or an empty one. */
  predicate NoOrigin(origin: Option<string>) { origin.None? || origin.value == "" }

  predicate IsProduction(nodeEnv: Option<string>) { nodeEnv == Some("production") }

  /** The callback as written: outside the list, any origin in whose text `zeonai.xyz`
      occurs is allowed in production. */
  function OriginDecisionAsWritten(origin: Option<string>, nodeEnv: Option<string>): Decision {
    if NoOrigin(origin) then Allow
    else if origin.value in AllowedOrigins then Allow
    else if Contains(origin.value, "zeonai.xyz") && IsProduction(nodeEnv) then Allow
    else Deny
  }

  /** An origin whose host is `zeonai.xyz` or one of its subdomains, under any scheme. */
  predicate ZeonaiOrigin(origin: string) {
    EndsWith(origin, "://zeonai.xyz") || EndsWith(origin, ".zeonai.xyz")
  }

  /** The callback as its comments intend it: outside the list, only `zeonai.xyz` and its
      subdomains are allowed in production. */
  function OriginDecision(origin: Option<string>, nodeEnv: Option<string>): Decision {
    if NoOrigin(origin) then Allow
    else if origin.value in AllowedOrigins then Allow
    else if ZeonaiOrigin(origin.value) && IsProduction(nodeEnv) then Allow
    else Deny
  }

  // Properties

  /** Requests without an origin and the listed origins are allowed in every environment. */
  lemma ListedAllowed(origin: Option<string>, nodeEnv: Option<string>)
    requires NoOrigin(origin) || origin.value in AllowedOrigins
    ensures OriginDecision(origin, nodeEnv) == Allow
    ensures OriginDecisionAsWritten(origin, nodeEnv) == Allow
  {
  }

  /** Outside production exactly the listed origins (and requests without one) are allowed. */
  lemma OutsideProductionOnlyListed(origin: Option<string>, nodeEnv: Option<string>)
    requires !IsProduction(nodeEnv)
    ensures OriginDecision(origin, nodeEnv) == Allow <==> NoOrigin(origin) || origin.value in AllowedOrigins
    ensures OriginDecisionAsWritten(origin, nodeEnv) == Allow <==> NoOrigin(origin) || origin.value in AllowedOrigins
  {
  }

  /** In production every subdomain of `zeonai.xyz` is allowed. */
  lemma SubdomainsAllowed(sub: string)
    ensures OriginDecision(Some("https://" + sub + ".zeonai.xyz"), Some("production")) == Allow
  {
    var origin := "https://" + sub + ".zeonai.xyz";
    assert origin[|origin| - 11..] == ".zeonai.xyz";
  }

  /** The intended policy allows nothing the written one refuses. */
  lemma IntendedWithinWritten(origin: Option<string>, nodeEnv: Option<string>)
    ensures OriginDecision(origin, nodeEnv) == Allow ==> OriginDecisionAsWritten(origin, nodeEnv) == Allow
  {
    if !NoOrigin(origin) && ZeonaiOrigin(origin.value) {
      ZeonaiOriginContains(origin.value);
    }
  }

  lemma ZeonaiOriginContains(o: string)
    requires ZeonaiOrigin(o)
    ensures Contains(o, "zeonai.xyz")
  {
    if EndsWith(o, "://zeonai.xyz") {
      SuffixOccurs(o, "://zeonai.xyz", 3);
      assert "://zeonai.xyz"[3..] == "zeonai.xyz";
    } else {
      SuffixOccurs(o, ".zeonai.xyz", 1);
      assert ".zeonai.xyz"[1..] == "zeonai.xyz";
    }
  }

  /** The tail of a suffix occurs where it ends the text. */
  lemma SuffixOccurs(o: string, p: string, k: nat)
    requires EndsWith(o, p) && k <= |p|
    ensures OccursAt(o, p[k..], |o| - |p| + k)
  {
    assert o[|o| - |p| + k..] == o[|o| - |p|..][k..];
  }

  /** The written policy lets in, in production, a host that only has `zeonai.xyz` as a
      label of its name, and the intended one refuses it. */
  lemma ForeignHostAllowedAsWritten()
    ensures var origin := Some("https://" + "zeonai.xyz" + ".evil.example");
      OriginDecisionAsWritten(origin, Some("production")) == Allow &&
      OriginDecision(origin, Some("production")) == Deny
  {
    var o := "https://" + "zeonai.xyz" + ".evil.example";
    assert |o| == 31;
    assert o[8..18] == "zeonai.xyz";
    assert OccursAt(o, "zeonai.xyz", 8);
    assert o[|o| - 13..] == ".evil.example";
    assert o[|o| - 13] == '.' && o[|o| - 11] == 'v';
  }
}
