/** The agent's start-up helpers: the hex text of a freshly drawn key, the check that the
    required environment variables are present (with the `.env` file as a fallback source),
    and the directory the agent keeps its data in. The random bytes, the `.env` file's text
    and the volume mount path are parameters; reading and creating files is not modelled. */
module Client {
  import opened Wrappers
  import opened Strings
  import Utf8

  type Byte = Utf8.Byte

  // Key formatting

  /** The digits `toString(16)` writes: decimal digits and lower-case letters. */
  predicate IsLowerHexDigit(c: char) { '0' <= c <= '9' || 'a' <= c <= 'f' }

  function HexDigitChar(d: nat): (c: char)
    requires d < 16
    ensures IsLowerHexDigit(c)
  {
    if d < 10 then ('0' as int + d) as char else ('a' as int + d - 10) as char
  }

  /** The value of a lower-case hex digit; the inverse of `HexDigitChar`. */
  function HexDigitValue(c: char): (d: nat)
    requires IsLowerHexDigit(c)
    ensures d < 16 && HexDigitChar(d) == c
  {
    if c <= '9' then c as int - '0' as int else c as int - 'a' as int + 10
  }

  /** `b.toString(16)` for a byte: one digit below 16, two from 16 on, most significant
      digit first and no leading zero. */
  function Radix16(b: Byte): (r: string)
  {
    if b < 16 then [HexDigitChar(b)] else [HexDigitChar(b / 16), HexDigitChar(b % 16)]
  }

  /** `s.padStart(width, fill)` for a one-character `fill`. */
  function PadStart(s: string, width: nat, fill: char): (r: string)
    ensures |r| == if |s| >= width then |s| else width
    decreases width - |s|
  {
    if |s| >= width then s else PadStart([fill] + s, width, fill)
  }

  /** The `map` callback `b.toString(16).padStart(2, '0')`: every byte becomes exactly two
      digits, the high four bits first. */
  function ByteHex(b: Byte): (r: string)
    ensures r == [HexDigitChar(b / 16), HexDigitChar(b % 16)]
  {
    var digits := Radix16(b);
    if b < 16 then
      assert digits == [HexDigitChar(b)];
      assert HexDigitChar(0) == '0';
      assert PadStart(digits, 2, '0') == PadStart(['0'] + digits, 2, '0');
      PadStart(digits, 2, '0')
    else
      PadStart(digits, 2, '0')
  }

  /** The digits of every byte in turn (`map(...).join('')`). */
  function HexBody(bytes: seq<Byte>): (r: string)
    ensures |r| == 2 * |bytes|
  {
    if bytes == [] then "" else ByteHex(bytes[0]) + HexBody(bytes[1..])
  }

  /** Every character of the text is a lower-case hex digit. */
  lemma {:induction false} HexBodyDigits(bytes: seq<Byte>)
    ensures forall i :: 0 <= i < |HexBody(bytes)| ==> IsLowerHexDigit(HexBody(bytes)[i])
  {
    if bytes != [] {
      var head := ByteHex(bytes[0]);
      var tail := HexBody(bytes[1..]);
      HexBodyDigits(bytes[1..]);
      assert IsLowerHexDigit(head[0]) && IsLowerHexDigit(head[1]);
      assert forall i :: 2 <= i < |head + tail| ==> (head + tail)[i] == tail[i - 2];
    }
  }

  /** The two digits at positions 2i and 2i+1 are those of byte i: the order is kept. */
  lemma {:induction false} HexBodyAt(bytes: seq<Byte>, i: nat)
    requires i < |bytes|
    ensures HexBody(bytes)[2 * i..2 * i + 2] == ByteHex(bytes[i])
  {
    var head := ByteHex(bytes[0]);
    var tail := HexBody(bytes[1..]);
    var s := HexBody(bytes);
    assert s == head + tail;
    AfterPrefix(head, tail);
    if i > 0 {
      HexBodyAt(bytes[1..], i - 1);
      assert bytes[1..][i - 1] == bytes[i];
      assert s[2 * i..2 * i + 2] == s[2..][2 * i - 2..2 * i];
    }
  }

  /** The text both key generators return: "0x" and the hex digits of the bytes. */
  function KeyHex(bytes: seq<Byte>): string
  {
    "0x" + HexBody(bytes)
  }

  /** `generateEncryptionKeyHex`, given the 32 bytes `getRandomValues` drew. */
  function GenerateEncryptionKeyHex(randomBytes: seq<Byte>): (r: string)
    requires |randomBytes| == 32
    ensures |r| == 66 && r[..2] == "0x"
    ensures forall i :: 2 <= i < |r| ==> IsLowerHexDigit(r[i])
  {
    HexBodyDigits(randomBytes);
    KeyHex(randomBytes)
  }

  /** `generatePrivateKeyHex`, given the 32 bytes `getRandomValues` drew. */
  function GeneratePrivateKeyHex(randomBytes: seq<Byte>): (r: string)
    requires |randomBytes| == 32
    ensures |r| == 66 && r[..2] == "0x"
    ensures forall i :: 2 <= i < |r| ==> IsLowerHexDigit(r[i])
  {
    HexBodyDigits(randomBytes);
    KeyHex(randomBytes)
  }

  /** Reads lower-case hex digits back into bytes, two digits a byte. */
  function ParseHexBody(s: string): (r: Option<seq<Byte>>)
    ensures r.Some? ==> 2 * |r.value| == |s|
    decreases |s|
  {
    if s == [] then Some([])
    else if |s| < 2 || !IsLowerHexDigit(s[0]) || !IsLowerHexDigit(s[1]) then None
    else
      match ParseHexBody(s[2..])
      case None => None
      case Some(rest) => Some([HexDigitValue(s[0]) * 16 + HexDigitValue(s[1])] + rest)
  }

  /** Reads a key's text back into its bytes. */
  function ParseKeyHex(s: string): Option<seq<Byte>>
  {
    if |s| >= 2 && s[..2] == "0x" then ParseHexBody(s[2..]) else None
  }

  lemma {:induction false} ParseHexBodyInverts(bytes: seq<Byte>)
    ensures ParseHexBody(HexBody(bytes)) == Some(bytes)
  {
    if bytes != [] {
      var b := bytes[0];
      var s := HexBody(bytes);
      assert s == ByteHex(b) + HexBody(bytes[1..]);
      assert s[2..] == HexBody(bytes[1..]);
      ParseHexBodyInverts(bytes[1..]);
      assert HexDigitValue(s[0]) == b / 16 && HexDigitValue(s[1]) == b % 16;
      assert bytes == [b] + bytes[1..];
    }
  }

  /** Every key's text reads back as the bytes it was made from. */
  lemma KeyHexRoundTrip(bytes: seq<Byte>)
    ensures ParseKeyHex(KeyHex(bytes)) == Some(bytes)
  {
    var s := KeyHex(bytes);
    assert s[..2] == "0x" && s[2..] == HexBody(bytes);
    ParseHexBodyInverts(bytes);
  }

  /** Every text that reads as bytes is the text of those bytes: lower-case hex is the only
      spelling of a key. */
  lemma {:induction false} HexBodyOfParse(s: string)
    requires ParseHexBody(s).Some?
    ensures HexBody(ParseHexBody(s).value) == s
    decreases |s|
  {
    if s != [] {
      HexBodyOfParse(s[2..]);
      var hi := HexDigitValue(s[0]);
      var lo := HexDigitValue(s[1]);
      var b: Byte := hi * 16 + lo;
      var bytes := ParseHexBody(s).value;
      assert bytes == [b] + ParseHexBody(s[2..]).value;
      assert b / 16 == hi && b % 16 == lo;
      assert bytes[1..] == ParseHexBody(s[2..]).value;
      assert s == s[..2] + s[2..];
    }
  }

  // The .env file

  /** The `filter` callback: a line is kept when it is not blank once trimmed and does not
      start with '#'; a '#' after leading blanks does not make a comment. */
  predicate KeptLine(line: string) { Trim(line) != "" && !StartsWith(line, "#") }

  /** The lines the `filter` keeps, in order. */
  function KeptLines(lines: seq<string>): (r: seq<string>)
    ensures forall x :: x in r <==> x in lines && KeptLine(x)
    decreases |lines|
  {
    if lines == [] then []
    else
      var init := lines[..|lines| - 1];
      var last := lines[|lines| - 1];
      assert lines == init + [last];
      if KeptLine(last) then KeptLines(init) + [last] else KeptLines(init)
  }

  /** The `reduce` callback on one line: `[key, ...val] = line.split("=")`, kept when `key`
      (not yet trimmed) is not empty and there is at least one '='. */
  function LineEntry(line: string): Option<(string, string)>
  {
    var parts := Split(line, '=');
    var key := parts[0];
    var val := parts[1..];
    if key != "" && |val| > 0 then Some((Trim(key), Trim(Join(val, "=")))) else None
  }

  lemma LineEntryAtEquals(line: string)
    requires '=' in line
    ensures var i := IndexOfChar(line, '=');
      LineEntry(line) == if i > 0 then Some((Trim(line[..i]), Trim(line[i + 1..]))) else None
  {
    var parts := Split(line, '=');
    SplitTail(line, '=');
    var i := IndexOfChar(line, '=');
    assert parts[0] == line[..i] && |parts[1..]| > 0;
    assert Join(parts[1..], "=") == line[i + 1..];
  }

  lemma LineEntryWithoutEquals(line: string)
    requires '=' !in line
    ensures LineEntry(line).None?
  {
    assert Split(line, '=') == [line];
  }

  /** A line makes an entry exactly when it has an '=' that is not its first character; the
      key is the trimmed text before the first '=' and the value the trimmed rest, later
      '=' signs included. */
  lemma LineEntryMeans(line: string)
    ensures LineEntry(line).Some? <==> '=' in line && line[0] != '='
    ensures '=' in line && line[0] != '=' ==>
      var i := IndexOfChar(line, '=');
      LineEntry(line) == Some((Trim(line[..i]), Trim(line[i + 1..])))
  {
    if '=' in line {
      LineEntryAtEquals(line);
      assert line[0] == '=' <==> IndexOfChar(line, '=') == 0;
    } else {
      LineEntryWithoutEquals(line);
    }
  }

  /** The `reduce` over the kept lines: a line's entry replaces any earlier one for its key. */
  function Collect(lines: seq<string>): map<string, string>
    decreases |lines|
  {
    if lines == [] then map[]
    else
      var acc := Collect(lines[..|lines| - 1]);
      match LineEntry(lines[|lines| - 1])
      case Some((key, value)) => acc[key := value]
      case None => acc
  }

  /** The variables the `.env` text defines. */
  function ParseEnvFile(content: string): map<string, string>
  {
    Collect(KeptLines(Split(content, '\n')))
  }

  /** What one line of the file contributes: its entry when the filter keeps it. */
  function Contribution(line: string): Option<(string, string)>
  {
    if KeptLine(line) then LineEntry(line) else None
  }

  /** The contributions of the lines, one per line and in order. */
  function Contributions(lines: seq<string>): (r: seq<Option<(string, string)>>)
    ensures |r| == |lines|
    ensures forall i :: 0 <= i < |lines| ==> r[i] == Contribution(lines[i])
    decreases |lines|
  {
    if lines == [] then [] else Contributions(lines[..|lines| - 1]) + [Contribution(lines[|lines| - 1])]
  }

  /** Entries applied in order to an empty record, each replacing any earlier one for its key. */
  function Assign(entries: seq<Option<(string, string)>>): map<string, string>
    decreases |entries|
  {
    if entries == [] then map[]
    else
      var acc := Assign(entries[..|entries| - 1]);
      match entries[|entries| - 1]
      case Some((key, value)) => acc[key := value]
      case None => acc
  }

  /** Collecting the kept lines of `init + [last]` adds `last`'s entry, if it has one, to
      what the kept lines of `init` collect. */
  lemma CollectSnoc(init: seq<string>, last: string)
    ensures var before := Collect(KeptLines(init));
      Collect(KeptLines(init + [last])) ==
        if KeptLine(last) && LineEntry(last).Some? then before[LineEntry(last).value.0 := LineEntry(last).value.1]
        else before
  {
    var lines := init + [last];
    assert lines[..|lines| - 1] == init;
    if KeptLine(last) {
      var kept := KeptLines(init) + [last];
      assert kept[..|kept| - 1] == KeptLines(init);
    }
  }

  /** Filtering the lines and then reducing them assigns their contributions in order. */
  lemma {:induction false} CollectAssigns(lines: seq<string>)
    ensures Collect(KeptLines(lines)) == Assign(Contributions(lines))
    decreases |lines|
  {
    if lines != [] {
      var init := lines[..|lines| - 1];
      var last := lines[|lines| - 1];
      assert lines == init + [last];
      CollectSnoc(init, last);
      CollectAssigns(init);
      var entries := Contributions(lines);
      assert entries[..|entries| - 1] == Contributions(init);
    }
  }

  /** Entry `i` sets `key`. */
  predicate SetsKey(entries: seq<Option<(string, string)>>, i: int, key: string) {
    0 <= i < |entries| && entries[i].Some? && entries[i].value.0 == key
  }

  /** A key is assigned exactly when some entry sets it. */
  lemma {:induction false} AssignHasKey(entries: seq<Option<(string, string)>>, key: string)
    ensures key in Assign(entries) <==> exists i :: SetsKey(entries, i, key)
    decreases |entries|
  {
    if entries != [] {
      var n := |entries| - 1;
      var init := entries[..n];
      AssignHasKey(init, key);
      forall i | SetsKey(init, i, key) ensures SetsKey(entries, i, key) {
        assert entries[i] == init[i];
      }
      if SetsKey(entries, n, key) {
        assert key in Assign(entries);
      } else {
        assert key in Assign(entries) <==> key in Assign(init);
        forall i | SetsKey(entries, i, key) ensures SetsKey(init, i, key) {
          assert entries[i] == init[i];
        }
      }
    }
  }

  /** The last entry that sets a key decides its value. */
  lemma {:induction false} AssignLastWins(entries: seq<Option<(string, string)>>, key: string, i: nat)
    requires SetsKey(entries, i, key)
    requires forall j :: i < j < |entries| ==> !SetsKey(entries, j, key)
    ensures key in Assign(entries) && Assign(entries)[key] == entries[i].value.1
    decreases |entries|
  {
    var init := entries[..|entries| - 1];
    if i < |entries| - 1 {
      assert !SetsKey(entries, |entries| - 1, key);
      forall j | i < j < |init| ensures !SetsKey(init, j, key) {
        assert !SetsKey(entries, j, key);
      }
      assert SetsKey(init, i, key);
      AssignLastWins(init, key, i);
    }
  }

  /** A key is defined exactly when some line survives the filter and sets it. */
  lemma CollectHasKey(lines: seq<string>, key: string)
    ensures key in Collect(KeptLines(lines)) <==>
      exists i :: 0 <= i < |lines| && Contribution(lines[i]).Some? && Contribution(lines[i]).value.0 == key
  {
    CollectAssigns(lines);
    var entries := Contributions(lines);
    AssignHasKey(entries, key);
    if key in Collect(KeptLines(lines)) {
      var i :| SetsKey(entries, i, key);
      assert entries[i] == Contribution(lines[i]);
    }
    if exists i :: 0 <= i < |lines| && Contribution(lines[i]).Some? && Contribution(lines[i]).value.0 == key {
      var i :| 0 <= i < |lines| && Contribution(lines[i]).Some? && Contribution(lines[i]).value.0 == key;
      assert entries[i] == Contribution(lines[i]);
      assert SetsKey(entries, i, key);
    }
  }

  /** The last line that survives the filter and sets a key decides its value: a later
      duplicate overrides an earlier one. */
  lemma LastDefinitionWins(lines: seq<string>, key: string, i: nat)
    requires i < |lines| && Contribution(lines[i]).Some? && Contribution(lines[i]).value.0 == key
    requires forall j :: i < j < |lines| ==> Contribution(lines[j]).None? || Contribution(lines[j]).value.0 != key
    ensures key in Collect(KeptLines(lines))
    ensures Collect(KeptLines(lines))[key] == Contribution(lines[i]).value.1
  {
    CollectAssigns(lines);
    var entries := Contributions(lines);
    forall j | i < j < |entries| ensures !SetsKey(entries, j, key) {
      assert entries[j] == Contribution(lines[j]);
    }
    AssignLastWins(entries, key, i);
  }

  /** Of two lines that set the same key, the second one's value is kept. */
  lemma LaterLineOverrides(first: string, second: string, key: string)
    requires '\n' !in first && '\n' !in second
    requires Contribution(first).Some? && Contribution(first).value.0 == key
    requires Contribution(second).Some? && Contribution(second).value.0 == key
    ensures key in ParseEnvFile(first + "\n" + second)
    ensures ParseEnvFile(first + "\n" + second)[key] == LineEntry(second).value.1
  {
    SplitJoin([first, second], '\n');
    assert Join([first, second], ['\n']) == first + "\n" + second;
    LastDefinitionWins([first, second], key, 1);
  }

  // validateEnvironment

  /** `process.env[name]` is truthy: present and not empty. */
  predicate IsSetIn(env: map<string, string>, name: string) { name in env && env[name] != "" }

  /** `vars.filter((v) => !process.env[v])`, in the order of `names`. */
  function Missing(env: map<string, string>, names: seq<string>): (r: seq<string>)
    ensures forall n :: n in r <==> n in names && !IsSetIn(env, n)
    ensures r == [] <==> forall n :: n in names ==> IsSetIn(env, n)
  {
    if names == [] then []
    else
      var rest := Missing(env, names[1..]);
      assert names == [names[0]] + names[1..];
      if IsSetIn(env, names[0]) then rest else [names[0]] + rest
  }

  /** `missing.forEach((v) => { if (envVars[v]) process.env[v] = envVars[v]; })`. */
  function FillFrom(env: map<string, string>, names: seq<string>, fileVars: map<string, string>): map<string, string>
    decreases |names|
  {
    if names == [] then env
    else
      var acc := FillFrom(env, names[..|names| - 1], fileVars);
      var v := names[|names| - 1];
      if IsSetIn(fileVars, v) then acc[v := fileVars[v]] else acc
  }

  /** After the fill a name holds the file's value when it was one of `names` and the file
      sets it, and its old value (or stays absent) otherwise. */
  lemma {:induction false} FillFromLookup(env: map<string, string>, names: seq<string>, fileVars: map<string, string>, k: string)
    ensures k in FillFrom(env, names, fileVars) <==> k in env || (k in names && IsSetIn(fileVars, k))
    ensures k in FillFrom(env, names, fileVars) ==>
      FillFrom(env, names, fileVars)[k] == if k in names && IsSetIn(fileVars, k) then fileVars[k] else env[k]
    decreases |names|
  {
    if names != [] {
      var init := names[..|names| - 1];
      assert names == init + [names[|names| - 1]];
      FillFromLookup(env, init, fileVars, k);
    }
  }

  /** `process.env` once the `.env` file has been consulted: only when some requested
      variable is missing, and only for the missing ones. `envFile` is `None` when there is
      no `.env` file or reading it fails. */
  function Merged(env: map<string, string>, names: seq<string>, envFile: Option<string>): (r: map<string, string>)
    ensures (forall n :: n in names ==> IsSetIn(env, n)) ==> r == env
    ensures envFile.None? ==> r == env
  {
    var missing := Missing(env, names);
    if |missing| > 0 && envFile.Some? then FillFrom(env, missing, ParseEnvFile(envFile.value)) else env
  }

  /** The end of `validateEnvironment`: the variables still missing (the process then
      exits), or every requested variable with its value. */
  function Outcome(env: map<string, string>, names: seq<string>): (r: Result<map<string, string>, seq<string>>)
    ensures r.Success? <==> forall n :: n in names ==> IsSetIn(env, n)
    ensures r.Failure? ==> forall n :: n in r.error <==> n in names && !IsSetIn(env, n)
    ensures r.Success? ==> r.value.Keys == set n | n in names
    ensures r.Success? ==> forall n :: n in names ==> r.value[n] == env[n]
  {
    var stillMissing := Missing(env, names);
    if |stillMissing| > 0 then Failure(stillMissing)
    else Success(map n | n in names :: env[n])
  }

  /** A variable that was already set keeps its value, whatever the `.env` file says. */
  lemma MergedKeepsSet(env: map<string, string>, names: seq<string>, envFile: Option<string>, k: string)
    requires IsSetIn(env, k)
    ensures k in Merged(env, names, envFile) && Merged(env, names, envFile)[k] == env[k]
  {
    var missing := Missing(env, names);
    if |missing| > 0 && envFile.Some? {
      FillFromLookup(env, missing, ParseEnvFile(envFile.value), k);
    }
  }

  /** A variable that was not requested is left as it was. */
  lemma MergedKeepsOthers(env: map<string, string>, names: seq<string>, envFile: Option<string>, k: string)
    requires k !in names
    ensures k in Merged(env, names, envFile) <==> k in env
    ensures k in env ==> Merged(env, names, envFile)[k] == env[k]
  {
    var missing := Missing(env, names);
    if |missing| > 0 && envFile.Some? {
      FillFromLookup(env, missing, ParseEnvFile(envFile.value), k);
    }
  }

  /** Validation succeeds exactly when every requested variable is set in the environment or
      in the `.env` file. */
  lemma ValidateSucceedsIff(env: map<string, string>, names: seq<string>, envFile: Option<string>)
    ensures Outcome(Merged(env, names, envFile), names).Success? <==>
      forall n :: n in names ==> IsSetIn(env, n) || (envFile.Some? && IsSetIn(ParseEnvFile(envFile.value), n))
  {
    var merged := Merged(env, names, envFile);
    var missing := Missing(env, names);
    if |missing| > 0 && envFile.Some? {
      var fileVars := ParseEnvFile(envFile.value);
      forall n | n in names ensures IsSetIn(merged, n) <==> IsSetIn(env, n) || IsSetIn(fileVars, n) {
        FillFromLookup(env, missing, fileVars, n);
      }
    }
  }

  /** `process.env` and the validation that reads the `.env` file into it. */
  class Environment {
    /** `process.env`. */
    var values: map<string, string>

    constructor(initial: map<string, string>)
      ensures values == initial
    {
      values := initial;
    }

    /** `validateEnvironment(names)`: fills the missing variables from `envFile` and
        returns the requested ones, or the list of those still missing (where the source
        exits the process). */
    method ValidateEnvironment(names: seq<string>, envFile: Option<string>) returns (r: Result<map<string, string>, seq<string>>)
      modifies this
      ensures values == Merged(old(values), names, envFile)
      ensures r == Outcome(values, names)
    {
      var missing := Missing(values, names);
      if |missing| > 0 {
        if envFile.Some? {
          var fileVars := ParseEnvFile(envFile.value);
          ghost var start := values;
          for i := 0 to |missing|
            invariant values == FillFrom(start, missing[..i], fileVars)
          {
            var v := missing[i];
            assert missing[..i + 1][..i] == missing[..i];
            if IsSetIn(fileVars, v) {
              values := values[v := fileVars[v]];
            }
          }
          assert missing[..|missing|] == missing;
        }
        var stillMissing := Missing(values, names);
        if |stillMissing| > 0 {
          return Failure(stillMissing);
        }
      }
      r := Outcome(values, names);
    }
  }

  // getStoragePath

  /** One step of the walk `path.normalize` makes over the segments of a path: empty and "."
      segments vanish, ".." removes the segment before it, or is kept when there is none to
      remove and the path is relative. */
  function ResolveStep(stack: seq<string>, segment: string, allowAboveRoot: bool): seq<string>
  {
    if segment == "" || segment == "." then stack
    else if segment == ".." then
      if |stack| > 0 && stack[|stack| - 1] != ".." then stack[..|stack| - 1]
      else if allowAboveRoot then stack + [".."]
      else stack
    else stack + [segment]
  }

  function Resolve(segments: seq<string>, allowAboveRoot: bool): seq<string>
    decreases |segments|
  {
    if segments == [] then []
    else ResolveStep(Resolve(segments[..|segments| - 1], allowAboveRoot), segments[|segments| - 1], allowAboveRoot)
  }

  /** `path.posix.normalize`. */
  function Normalize(p: string): string
  {
    if p == "" then "."
    else
      var isAbsolute := p[0] == '/';
      var trailingSeparator := p[|p| - 1] == '/';
      var body := Join(Resolve(Split(p, '/'), !isAbsolute), "/");
      if body == "" then (if isAbsolute then "/" else if trailingSeparator then "./" else ".")
      else (if isAbsolute then "/" else "") + body + (if trailingSeparator then "/" else "")
  }

  /** The arguments of `path.join` that are not empty. */
  function NonEmpty(parts: seq<string>): (r: seq<string>)
    ensures forall x :: x in r <==> x in parts && x != ""
  {
    if parts == [] then []
    else
      assert parts == [parts[0]] + parts[1..];
      if parts[0] == "" then NonEmpty(parts[1..]) else [parts[0]] + NonEmpty(parts[1..])
  }

  /** `path.posix.join`: the non-empty arguments joined with '/' and normalized. */
  function PathJoin(parts: seq<string>): string
  {
    var present := NonEmpty(parts);
    if present == [] then "." else Normalize(Join(present, "/"))
  }

  /** `getStoragePath(description)`; `mountPath` is `RAILWAY_VOLUME_MOUNT_PATH`, replaced by
      ".data" only when it is not defined (an empty value is kept). */
  function GetStoragePath(mountPath: Option<string>, description: string := "data"): string
  {
    PathJoin([mountPath.GetOr(".data"), description])
  }

  /** A directory name `path.normalize` leaves alone. */
  predicate PlainSegment(s: string) { s != "" && '/' !in s && s != "." && s != ".." }

  /** No segment is empty or ".", and ".." appears only where climbing above the start is
      allowed. */
  predicate CleanSegments(stack: seq<string>, allowAboveRoot: bool) {
    forall s :: s in stack ==> s != "" && s != "." && (allowAboveRoot || s != "..")
  }

  lemma ResolveStepClean(stack: seq<string>, segment: string, allowAboveRoot: bool)
    requires CleanSegments(stack, allowAboveRoot)
    ensures CleanSegments(ResolveStep(stack, segment, allowAboveRoot), allowAboveRoot)
  {
    var r := ResolveStep(stack, segment, allowAboveRoot);
    if segment == "" || segment == "." {
      assert r == stack;
    } else if segment == ".." {
      if |stack| > 0 && stack[|stack| - 1] != ".." {
        assert r == stack[..|stack| - 1];
        forall s | s in r ensures s in stack {
          var k :| 0 <= k < |r| && r[k] == s;
          assert stack[k] == s;
        }
      } else if allowAboveRoot {
        assert r == stack + [".."];
      } else {
        assert r == stack;
      }
    } else {
      assert r == stack + [segment];
    }
  }

  /** The segments left after resolving are clean: a normalized path has no empty or "."
      segment, and a normalized absolute path never climbs above the root. */
  lemma {:induction false} ResolveClean(segments: seq<string>, allowAboveRoot: bool)
    ensures CleanSegments(Resolve(segments, allowAboveRoot), allowAboveRoot)
    decreases |segments|
  {
    if segments != [] {
      var init := segments[..|segments| - 1];
      ResolveClean(init, allowAboveRoot);
      ResolveStepClean(Resolve(init, allowAboveRoot), segments[|segments| - 1], allowAboveRoot);
    }
  }

  lemma JoinTwo(a: string, b: string)
    requires a != "" && b != ""
    ensures NonEmpty([a, b]) == [a, b]
    ensures Join([a, b], "/") == a + "/" + b
  {
    assert [a, b][1..] == [b] && [b][1..] == [];
    assert NonEmpty([b]) == [b];
  }

  lemma JoinTwoChar(a: string, b: string)
    ensures Join([a, b], ['/']) == a + "/" + b
  {
    assert [a, b][1..] == [b];
  }

  lemma SplitTwo(a: string, b: string)
    requires '/' !in a && '/' !in b
    ensures Split(a + "/" + b, '/') == [a, b]
  {
    JoinTwoChar(a, b);
    SplitJoin([a, b], '/');
  }

  lemma ResolveTwo(a: string, b: string)
    requires PlainSegment(a) && PlainSegment(b)
    ensures Resolve([a, b], true) == [a, b]
  {
    assert [a, b][..1] == [a];
    assert [a][..0] == [];
    assert Resolve([a], true) == ResolveStep([], a, true) == [a];
  }

  /** Joining two plain directory names puts one '/' between them and nothing else. */
  lemma JoinPlainSegments(a: string, b: string)
    requires PlainSegment(a) && PlainSegment(b)
    ensures PathJoin([a, b]) == a + "/" + b
  {
    var p := a + "/" + b;
    JoinTwo(a, b);
    assert PathJoin([a, b]) == Normalize(p);
    SplitTwo(a, b);
    ResolveTwo(a, b);
    assert Join(Resolve(Split(p, '/'), true), "/") == p;
    assert p[0] == a[0] && p[|p| - 1] == b[|b| - 1];
    assert a[0] in a && b[|b| - 1] in b;
  }

  lemma DataDefaults()
    ensures PlainSegment(".data") && PlainSegment("data")
    ensures ".data" + "/" + "data" == ".data/data"
  {
  }

  /** Without a mount path the data lives in ".data/data". */
  lemma DefaultStoragePath()
    ensures GetStoragePath(None) == ".data/data"
  {
    DataDefaults();
    JoinPlainSegments(".data", "data");
  }

  /** On a volume whose mount path is a plain directory name, a plain description is a
      sub-directory of it. */
  lemma VolumeStoragePath(mountPath: string, description: string)
    requires PlainSegment(mountPath) && PlainSegment(description)
    ensures GetStoragePath(Some(mountPath), description) == mountPath + "/" + description
  {
    JoinPlainSegments(mountPath, description);
  }

  /** An empty mount path is kept by `??` and then dropped by `path.join`: the data lives
      in a directory named after the description, relative to the working directory. */
  lemma EmptyMountPath(description: string)
    requires PlainSegment(description)
    ensures GetStoragePath(Some(""), description) == description
  {
    assert ["", description][1..] == [description];
    assert [description][1..] == [];
    assert NonEmpty([description]) == [description];
    assert NonEmpty(["", description]) == [description];
    assert Join([description], "/") == description;
    assert description[0] in description && description[|description| - 1] in description;
    assert Split(description, '/') == [description];
    assert Resolve([description], true) == ResolveStep([], description, true);
  }
}
