/** JSON values as the agent and the frontends exchange them, `JSON.stringify`
    (section 25.5.2 of ECMA-262) and the JavaScript reading of a parsed value: truthiness
    and property access. `JSON.parse` is not defined here; operations that call it take it
    as a parameter, and lemmas that need it to undo `JSON.stringify` say so with
    `InvertsStringify`. */
module Json {
  import opened Wrappers
  import opened Strings
  import Decimal

  /** A JSON value. Numbers are integers. An object keeps its members in order, as
      `JSON.stringify` writes them. */
  datatype Json =
    | Null
    | Bool(b: bool)
    | Number(n: int)
    | String(s: string)
    | Array(items: seq<Json>)
    | Object(members: seq<(string, Json)>)

  function LowerHexDigit(d: nat): (c: char)
    requires d < 16
    ensures IsHexDigit(c)
  {
    if d < 10 then ('0' as int + d) as char else ('a' as int + d - 10) as char
  }

  /** How QuoteJSONString writes one code point. */
  function EscapeChar(c: char): (r: string)
    ensures |r| >= 1
  {
    if c == '\U{0008}' then "\\b"
    else if c == '\t' then "\\t"
    else if c == '\n' then "\\n"
    else if c == '\U{000C}' then "\\f"
    else if c == '\r' then "\\r"
    else if c == '"' then "\\\""
    else if c == '\\' then "\\\\"
    else if (c as int) < 0x20 then "\\u00" + [LowerHexDigit(c as int / 16), LowerHexDigit(c as int % 16)]
    else [c]
  }

  function EscapeString(s: string): string {
    if s == [] then "" else EscapeChar(s[0]) + EscapeString(s[1..])
  }

  /** QuoteJSONString: the text between double quotes, with `"`, `\` and control
      characters escaped. */
  function Quote(s: string): string {
    "\"" + EscapeString(s) + "\""
  }

  /** `JSON.stringify(v)` with no indentation. */
  function Stringify(v: Json): string
    decreases v
  {
    match v
    case Null => "null"
    case Bool(b) => if b then "true" else "false"
    case Number(n) => Decimal.IntToString(n)
    case String(s) => Quote(s)
    case Array(items) =>
      "[" + Join(seq(|items|, i requires 0 <= i < |items| => Stringify(items[i])), ",") + "]"
    case Object(members) =>
      "{" + Join(seq(|members|, i requires 0 <= i < |members| =>
        Quote(members[i].0) + ":" + Stringify(members[i].1)), ",") + "}"
  }

  /** What a `JSON.parse` must satisfy for the lemmas that use it: it reads back every
      value `JSON.stringify` writes. */
  ghost predicate InvertsStringify(parse: string -> Option<Json>) {
    forall v :: parse(Stringify(v)) == Some(v)
  }

  /** Such a parse reads `v` back from its serialization. */
  lemma ParseStringified(parse: string -> Option<Json>, v: Json)
    requires InvertsStringify(parse)
    ensures parse(Stringify(v)) == Some(v)
  {
  }

  /** JavaScript truthiness of a value. */
  predicate Truthy(v: Json) {
    match v
    case Null => false
    case Bool(b) => b
    case Number(n) => n != 0
    case String(s) => s != ""
    case Array(_) => true
    case Object(_) => true
  }

  /** The value of a property of an object: the last member with that key, as `JSON.parse`
      keeps the last of duplicated keys; `None` (`undefined`) if there is none. */
  function Lookup(members: seq<(string, Json)>, key: string): (r: Option<Json>)
    ensures r.None? <==> forall i :: 0 <= i < |members| ==> members[i].0 != key
    ensures r.Some? ==> exists i :: 0 <= i < |members| && members[i] == (key, r.value)
  {
    if members == [] then None
    else
      var last := members[|members| - 1];
      if last.0 == key then Some(last.1) else Lookup(members[..|members| - 1], key)
  }

  /** `v.key` on a parsed value other than `null`: a property of an object, and
      `undefined` on arrays, strings, numbers and booleans, none of which have
      the properties the model reads. */
  function Get(v: Json, key: string): Option<Json>
    requires v != Null
  {
    match v
    case Object(members) => Lookup(members, key)
    case _ => None
  }

  /** `v.key` is truthy. */
  predicate HasTruthy(v: Json, key: string)
    requires v != Null
  {
    var p := Get(v, key);
    p.Some? && Truthy(p.value)
  }

  /** The string a truthy string property holds. */
  function GetString(v: Json, key: string): Option<string>
    requires v != Null
  {
    match Get(v, key)
    case Some(String(s)) => Some(s)
    case _ => None
  }

  // Properties

  /** Looking up a key in an object written with distinct keys finds its member. */
  lemma {:induction false} LookupDistinct(members: seq<(string, Json)>, i: nat)
    requires i < |members|
    requires forall j :: 0 <= j < |members| && j != i ==> members[j].0 != members[i].0
    ensures Lookup(members, members[i].0) == Some(members[i].1)
  {
    var n := |members| - 1;
    if i != n {
      var init := members[..n];
      assert init[i] == members[i];
      forall j | 0 <= j < |init| && j != i ensures init[j].0 != init[i].0 {
        assert init[j] == members[j];
      }
      LookupDistinct(init, i);
    }
  }

  /** The escaped text of a string has no raw control character: each one is written as
      an escape sequence. */
  lemma {:induction false} EscapeStringClean(s: string)
    ensures forall i :: 0 <= i < |EscapeString(s)| ==> EscapeString(s)[i] as int >= 0x20
  {
    if s != [] {
      EscapeStringClean(s[1..]);
      var e := EscapeChar(s[0]);
      assert forall i :: 0 <= i < |e| ==> e[i] as int >= 0x20;
    }
  }
}
