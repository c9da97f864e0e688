/** String operations of JavaScript's standard library, as the rest of the model uses them:
    character classes, prefix and substring tests, `trim`, `split` on one character,
    `join`, `slice` from either end and a global `replace` of a literal pattern. */
module Strings {
  import opened Wrappers

  predicate IsDigit(c: char) { '0' <= c <= '9' }

  predicate IsHexDigit(c: char) { IsDigit(c) || 'a' <= c <= 'f' || 'A' <= c <= 'F' }

  predicate IsAsciiAlpha(c: char) { 'a' <= c <= 'z' || 'A' <= c <= 'Z' }

  predicate IsAsciiAlphanumeric(c: char) { IsAsciiAlpha(c) || IsDigit(c) }

  /** What `\s` matches and what `trim` strips: the WhiteSpace and LineTerminator
      code points of ECMA-262 (sections 12.2 and 12.3). */
  predicate IsJsSpace(c: char) {
    var n := c as int;
    n == 0x09 || n == 0x0A || n == 0x0B || n == 0x0C || n == 0x0D || n == 0x20
    || n == 0xA0 || n == 0x1680 || (0x2000 <= n <= 0x200A) || n == 0x2028 || n == 0x2029
    || n == 0x202F || n == 0x205F || n == 0x3000 || n == 0xFEFF
  }

  /** The code points a regular expression's `.` does not match without the `s` flag. */
  predicate IsLineTerminator(c: char) {
    c == '\n' || c == '\r' || c == '\U{2028}' || c == '\U{2029}'
  }

  predicate AllSpace(s: string) { forall i :: 0 <= i < |s| ==> IsJsSpace(s[i]) }

  predicate AllDigits(s: string) { forall i :: 0 <= i < |s| ==> IsDigit(s[i]) }

  predicate AllHexDigits(s: string) { forall i :: 0 <= i < |s| ==> IsHexDigit(s[i]) }

  predicate StartsWith(s: string, p: string) { |p| <= |s| && s[..|p|] == p }

  predicate EndsWith(s: string, p: string) { |p| <= |s| && s[|s| - |p|..] == p }

  /** `t` occurs in `s` starting at index `i`. */
  predicate OccursAt(s: string, t: string, i: int) {
    0 <= i && i + |t| <= |s| && s[i..i + |t|] == t
  }

  /** `s.includes(t)`. */
  predicate Contains(s: string, t: string) { exists i :: 0 <= i <= |s| && OccursAt(s, t, i) }

  /** The leftmost occurrence of `t` in `s` at or after `from` (`s.indexOf(t, from)`). */
  function IndexOfFrom(s: string, t: string, from: nat): (r: Option<nat>)
    decreases |s| - from
    ensures r.Some? ==> from <= r.value && OccursAt(s, t, r.value)
    ensures r.Some? ==> forall j :: from <= j < r.value ==> !OccursAt(s, t, j)
    ensures r.None? ==> forall j :: from <= j ==> !OccursAt(s, t, j)
  {
    if from + |t| > |s| then None
    else if s[from..from + |t|] == t then Some(from)
    else IndexOfFrom(s, t, from + 1)
  }

  lemma ContainsIffIndexOf(s: string, t: string)
    ensures Contains(s, t) <==> IndexOfFrom(s, t, 0).Some?
  {
    var r := IndexOfFrom(s, t, 0);
    if r.Some? { assert OccursAt(s, t, r.value); }
  }

  lemma OccursInPrefix(s: string, t: string, i: int, u: string)
    requires OccursAt(s, t, i)
    ensures OccursAt(s + u, t, i)
  {
    assert (s + u)[i..i + |t|] == s[i..i + |t|];
  }

  lemma OccursInSuffix(s: string, t: string, i: int, u: string)
    requires OccursAt(s, t, i)
    ensures OccursAt(u + s, t, |u| + i)
  {
    assert (u + s)[|u| + i..|u| + i + |t|] == s[i..i + |t|];
  }

  lemma ContainsInPrefix(s: string, t: string, u: string)
    requires Contains(s, t)
    ensures Contains(s + u, t)
  {
    var i :| 0 <= i <= |s| && OccursAt(s, t, i);
    OccursInPrefix(s, t, i, u);
  }

  lemma ContainsInSuffix(s: string, t: string, u: string)
    requires Contains(s, t)
    ensures Contains(u + s, t)
  {
    var i :| 0 <= i <= |s| && OccursAt(s, t, i);
    OccursInSuffix(s, t, i, u);
  }

  /** `s` occurs in `a + s + b` right after `a`, and so does whatever occurs in `s`. */
  lemma ContainsInMiddle(a: string, s: string, b: string, t: string)
    requires Contains(s, t)
    ensures OccursAt(a + s + b, s, |a|)
    ensures Contains(a + s + b, t)
  {
    var r := a + s + b;
    assert r[|a|..|a| + |s|] == s;
    var i :| 0 <= i <= |s| && OccursAt(s, t, i);
    assert r[|a| + i..|a| + i + |t|] == s[i..i + |t|];
    assert OccursAt(r, t, |a| + i);
  }

  /** What occurs in a part of a text occurs in the text. */
  lemma ContainsTransitive(s: string, t: string, u: string)
    requires Contains(s, t) && Contains(t, u)
    ensures Contains(s, u)
  {
    var i :| 0 <= i <= |s| && OccursAt(s, t, i);
    var j :| 0 <= j <= |t| && OccursAt(t, u, j);
    assert t == s[i..i + |t|];
    assert forall k :: 0 <= k < |u| ==> s[i + j + k] == t[j + k] == u[k];
    assert s[i + j..i + j + |u|] == u;
    assert OccursAt(s, u, i + j);
  }

  lemma StartsWithAppend(a: string, b: string)
    ensures StartsWith(a + b, a)
  {
    assert (a + b)[..|a|] == a;
  }

  lemma EndsWithAppend(a: string, b: string)
    ensures EndsWith(a + b, b)
  {
    assert (a + b)[|a + b| - |b|..] == b;
  }

  lemma OccursInSlice(s: string, a: nat, b: nat, t: string, i: int)
    requires a <= b <= |s| && OccursAt(s[a..b], t, i)
    ensures OccursAt(s, t, a + i)
  {
    var v := s[a..b][i..i + |t|];
    assert forall n :: 0 <= n < |t| ==> v[n] == s[a + i + n];
    assert v == s[a + i..a + i + |t|];
  }

  lemma ContainsInSlice(s: string, a: nat, b: nat, t: string)
    requires a <= b <= |s| && Contains(s[a..b], t)
    ensures Contains(s, t)
  {
    var i :| 0 <= i <= |s[a..b]| && OccursAt(s[a..b], t, i);
    OccursInSlice(s, a, b, t, i);
  }

  /** A string that does not contain `p` contains nothing that starts with `p`. */
  lemma ContainsExtension(s: string, p: string, q: string)
    ensures Contains(s, p + q) ==> Contains(s, p)
  {
    if Contains(s, p + q) {
      var i :| 0 <= i <= |s| && OccursAt(s, p + q, i);
      assert s[i..i + |p|] == (p + q)[..|p|] == p;
      assert OccursAt(s, p, i);
    }
  }

  /** The index of the first `c` in `s`. */
  function IndexOfChar(s: string, c: char): (i: nat)
    requires c in s
    ensures i < |s| && s[i] == c && c !in s[..i]
  {
    if s[0] == c then 0 else IndexOfChar(s[1..], c) + 1
  }

  /** The first occurrence of `c` is the one with no `c` before it. */
  lemma {:induction false} IndexOfCharFirst(s: string, c: char, i: nat)
    requires i < |s| && s[i] == c && c !in s[..i]
    ensures IndexOfChar(s, c) == i
  {
    if i > 0 {
      assert s[0] in s[..i];
      assert s[1..][i - 1] == c && s[1..][..i - 1] == s[1..i];
      assert forall x :: x in s[1..i] ==> x in s[..i];
      IndexOfCharFirst(s[1..], c, i - 1);
    }
  }

  /** A text cut at the first `c`, where `c` joins two texts and the first holds none. */
  lemma CutAfter(x: string, c: char, y: string)
    requires c !in x
    ensures var s := x + ([c] + y);
      c in s && IndexOfChar(s, c) == |x| && s[..|x|] == x && s[|x| + 1..] == y
  {
    var s := x + ([c] + y);
    assert s[|x|] == c && s[..|x|] == x;
    IndexOfCharFirst(s, c, |x|);
    assert s[|x| + 1..] == y;
  }

  function TrimStart(s: string): (r: string)
    ensures |r| <= |s|
  {
    if |s| > 0 && IsJsSpace(s[0]) then TrimStart(s[1..]) else s
  }

  /** `s.trimStart()` drops the leading white space and nothing else. */
  lemma {:induction false} TrimStartFacts(s: string)
    ensures var r := TrimStart(s);
      r == s[|s| - |r|..] && (r == [] || !IsJsSpace(r[0])) && AllSpace(s[..|s| - |r|])
  {
    if |s| > 0 && IsJsSpace(s[0]) {
      TrimStartFacts(s[1..]);
      var r := TrimStart(s);
      assert s[1..][..|s| - 1 - |r|] == s[1..|s| - |r|];
    }
  }

  function TrimEnd(s: string): (r: string)
    ensures |r| <= |s|
  {
    if |s| > 0 && IsJsSpace(s[|s| - 1]) then TrimEnd(s[..|s| - 1]) else s
  }

  /** `s.trimEnd()` drops the trailing white space and nothing else. */
  lemma {:induction false} TrimEndFacts(s: string)
    ensures var r := TrimEnd(s);
      r == s[..|r|] && (r == [] || !IsJsSpace(r[|r| - 1])) && AllSpace(s[|r|..])
  {
    if |s| > 0 && IsJsSpace(s[|s| - 1]) {
      TrimEndFacts(s[..|s| - 1]);
      var r := TrimEnd(s);
      assert s[..|s| - 1][|r|..] == s[|r|..|s| - 1];
    }
  }

  /** `s.trim()`: `s` without its leading and trailing white space. */
  function Trim(s: string): (r: string)
    ensures |r| <= |s|
    ensures r == [] || (!IsJsSpace(r[0]) && !IsJsSpace(r[|r| - 1]))
  {
    TrimStartFacts(s);
    TrimEndFacts(TrimStart(s));
    TrimEnd(TrimStart(s))
  }

  /** Trimming keeps a stretch of the text: what occurs in the trimmed text occurs in it. */
  lemma TrimContains(s: string, t: string)
    requires Contains(Trim(s), t)
    ensures Contains(s, t)
  {
    var u := TrimStart(s);
    TrimStartFacts(s);
    TrimEndFacts(u);
    assert TrimEnd(u) == u[0..|TrimEnd(u)|];
    ContainsInSlice(u, 0, |TrimEnd(u)|, t);
    assert u == s[|s| - |u|..|s|];
    ContainsInSlice(s, |s| - |u|, |s|, t);
  }

  /** A string is blank exactly when trimming leaves nothing. */
  lemma TrimEmptyIffAllSpace(s: string)
    ensures Trim(s) == [] <==> AllSpace(s)
  {
    var t := TrimStart(s);
    TrimStartFacts(s);
    TrimEndFacts(t);
    if AllSpace(s) {
      assert t == [];
    } else if Trim(s) == [] {
      assert TrimEnd(t) == [];
      assert AllSpace(t[0..]);
      assert s == s[..|s| - |t|] + t;
      assert AllSpace(s);
    }
  }

  /** `s.split(sep)` for a one-character separator. */
  function Split(s: string, sep: char): (parts: seq<string>)
    ensures |parts| >= 1
    decreases |s|
  {
    if sep !in s then [s]
    else
      var i := IndexOfChar(s, sep);
      [s[..i]] + Split(s[i + 1..], sep)
  }

  /** No piece of a split holds the separator. */
  lemma {:induction false} SplitNoSeparator(s: string, sep: char)
    ensures forall i :: 0 <= i < |Split(s, sep)| ==> sep !in Split(s, sep)[i]
    decreases |s|
  {
    if sep in s {
      var k := IndexOfChar(s, sep);
      SplitNoSeparator(s[k + 1..], sep);
      assert forall i :: 1 <= i < |Split(s, sep)| ==> Split(s, sep)[i] == Split(s[k + 1..], sep)[i - 1];
    }
  }

  /** `parts.join(sep)`. */
  function Join(parts: seq<string>, sep: string): string
  {
    if |parts| == 0 then ""
    else if |parts| == 1 then parts[0]
    else parts[0] + sep + Join(parts[1..], sep)
  }

  /** Each part occurs in the joined text. */
  lemma {:induction false} JoinContains(parts: seq<string>, sep: string, i: nat)
    requires i < |parts|
    ensures Contains(Join(parts, sep), parts[i])
    decreases |parts|
  {
    if i == 0 {
      assert OccursAt(Join(parts, sep), parts[0], 0);
    } else {
      JoinContains(parts[1..], sep, i - 1);
      ContainsInSuffix(Join(parts[1..], sep), parts[i], parts[0] + sep);
    }
  }

  /** A join is as long as its parts and one separator between each two of them. */
  lemma {:induction false} JoinLength(parts: seq<string>, sep: string)
    requires |parts| >= 1
    ensures |Join(parts, sep)| == |Concat(parts)| + (|parts| - 1) * |sep|
    decreases |parts|
  {
    if |parts| == 1 {
      assert Concat(parts) == parts[0] + Concat([]);
    } else {
      JoinLength(parts[1..], sep);
      assert (|parts| - 1) * |sep| == (|parts[1..]| - 1) * |sep| + |sep|;
    }
  }

  /** Joining the pieces of a split with the separator gives the string back. */
  lemma {:induction false} JoinSplit(s: string, sep: char)
    ensures Join(Split(s, sep), [sep]) == s
    decreases |s|
  {
    if sep in s {
      var i := IndexOfChar(s, sep);
      JoinSplit(s[i + 1..], sep);
      assert s == s[..i] + [sep] + s[i + 1..];
    }
  }

  /** The pieces of a split hold only characters of the string split. */
  lemma {:induction false} SplitChars(s: string, sep: char)
    ensures forall i, j :: 0 <= i < |Split(s, sep)| && 0 <= j < |Split(s, sep)[i]| ==> Split(s, sep)[i][j] in s
    decreases |s|
  {
    if sep in s {
      var k := IndexOfChar(s, sep);
      var rest := s[k + 1..];
      SplitChars(rest, sep);
      var parts := Split(s, sep);
      forall i, j | 0 <= i < |parts| && 0 <= j < |parts[i]| ensures parts[i][j] in s {
        if i == 0 {
          assert parts[0][j] == s[j];
        } else {
          assert parts[i] == Split(rest, sep)[i - 1];
          assert rest[..] == s[k + 1..];
          var m :| 0 <= m < |rest| && rest[m] == parts[i][j];
          assert s[k + 1 + m] == rest[m];
        }
      }
    }
  }

  /** Splitting a join on a separator that none of the parts contains gives the parts back. */
  lemma {:induction false} SplitJoin(xs: seq<string>, sep: char)
    requires |xs| >= 1
    requires forall i :: 0 <= i < |xs| ==> sep !in xs[i]
    ensures Split(Join(xs, [sep]), sep) == xs
  {
    if |xs| > 1 {
      var rest := Join(xs[1..], [sep]);
      assert Join(xs, [sep]) == xs[0] + [sep] + rest;
      SplitCons(xs[0], sep, rest);
      assert forall i :: 0 <= i < |xs| - 1 ==> xs[1..][i] == xs[i + 1];
      SplitJoin(xs[1..], sep);
      assert xs == [xs[0]] + xs[1..];
    }
  }

  /** Splitting a piece without the separator, the separator and more: that piece, then the
      pieces of the rest. */
  lemma SplitCons(a: string, sep: char, rest: string)
    requires sep !in a
    ensures Split(a + [sep] + rest, sep) == [a] + Split(rest, sep)
  {
    var s := a + [sep] + rest;
    assert s[|a|] == sep && s[..|a|] == a;
    IndexOfCharFirst(s, sep, |a|);
    AppendAssoc(a, [sep], rest);
    AfterPrefix(a + [sep], rest);
  }

  /** The pieces after the first one, joined back, are the text after the first separator. */
  lemma SplitTail(s: string, sep: char)
    requires sep in s
    ensures var i := IndexOfChar(s, sep);
      Split(s, sep)[0] == s[..i] && |Split(s, sep)| >= 2 &&
      Join(Split(s, sep)[1..], [sep]) == s[i + 1..]
  {
    var i := IndexOfChar(s, sep);
    var rest := Split(s[i + 1..], sep);
    assert s == s[..i] + [sep] + s[i + 1..];
    SplitCons(s[..i], sep, s[i + 1..]);
    JoinSplit(s[i + 1..], sep);
    assert ([s[..i]] + rest)[1..] == rest;
  }

  /** The concatenation of a sequence of strings. */
  function Concat(parts: seq<string>): string
  {
    if |parts| == 0 then "" else parts[0] + Concat(parts[1..])
  }

  lemma ConcatAppend(a: seq<string>, b: seq<string>)
    ensures Concat(a + b) == Concat(a) + Concat(b)
  {
    if |a| > 0 {
      ConcatAppend(a[1..], b);
      assert (a + b)[1..] == a[1..] + b;
    } else {
      assert a + b == b;
    }
  }

  /** Each part occurs in the concatenation, right after the parts before it. */
  lemma {:induction false} ConcatContains(parts: seq<string>, i: nat)
    requires i < |parts|
    ensures OccursAt(Concat(parts), parts[i], |Concat(parts[..i])|)
    ensures Contains(Concat(parts), parts[i])
  {
    ConcatAppend(parts[..i], parts[i..]);
    assert parts[..i] + parts[i..] == parts;
    assert parts[i..][0] == parts[i] && parts[i..][1..] == parts[i + 1..];
    var pre := Concat(parts[..i]);
    var whole := Concat(parts);
    assert whole == pre + (parts[i] + Concat(parts[i + 1..]));
    assert whole[|pre|..|pre| + |parts[i]|] == parts[i];
    assert OccursAt(whole, parts[i], |pre|);
  }

  /** `s.slice(0, n)`. */
  function Take(s: string, n: nat): (r: string)
    ensures |r| == if n < |s| then n else |s|
    ensures StartsWith(s, r)
  {
    if n < |s| then s[..n] else s
  }

  /** `s.slice(-n)` for n > 0: the last n characters, or all of a shorter string. */
  function TakeLast(s: string, n: nat): (r: string)
    ensures |r| == if n < |s| then n else |s|
    ensures EndsWith(s, r)
  {
    if n < |s| then s[|s| - n..] else s
  }

  /** The `0x1234...abcd` form used in links: `s.slice(0, 6)` + "..." + `s.slice(-4)`. */
  function ShortForm(s: string): (r: string)
    ensures |s| >= 10 ==> |r| == 13 && r[..6] == s[..6] && r[6..9] == "..." && r[9..] == s[|s| - 4..]
  {
    Take(s, 6) + "..." + TakeLast(s, 4)
  }

  function LowerAsciiChar(c: char): char {
    if 'A' <= c <= 'Z' then (c as int + 32) as char else c
  }

  /** ASCII lower-casing, as the URL parser applies to schemes and host names. */
  function LowerAscii(s: string): (r: string)
    ensures |r| == |s| && forall i :: 0 <= i < |s| ==> r[i] == LowerAsciiChar(s[i])
  {
    if s == [] then [] else [LowerAsciiChar(s[0])] + LowerAscii(s[1..])
  }

  /** `s.replace(/pat/g, rep)` for a literal pattern: matches are taken left to right
      and never overlap. */
  function ReplaceAll(s: string, pat: string, rep: string): string
    requires |pat| > 0
    decreases |s|
  {
    if |s| == 0 then ""
    else if StartsWith(s, pat) then rep + ReplaceAll(s[|pat|..], pat, rep)
    else [s[0]] + ReplaceAll(s[1..], pat, rep)
  }

  /** A global replace leaves a string in which the pattern does not occur unchanged. */
  lemma {:induction false} ReplaceAllAbsent(s: string, pat: string, rep: string)
    requires |pat| > 0 && !Contains(s, pat)
    ensures ReplaceAll(s, pat, rep) == s
    decreases |s|
  {
    if |s| > 0 {
      assert !OccursAt(s, pat, 0);
      forall i | 0 <= i <= |s[1..]|
        ensures !OccursAt(s[1..], pat, i)
      {
        assert !OccursAt(s, pat, i + 1);
        if i + |pat| <= |s[1..]| {
          assert s[1..][i..i + |pat|] == s[i + 1..i + 1 + |pat|];
        }
      }
      ReplaceAllAbsent(s[1..], pat, rep);
    }
  }

  /** A string starts with `p` exactly when its first character is `p`'s and the rest
      starts with the rest of `p`. */
  lemma StartsWithCons(c: char, t: string, p: string)
    requires |p| > 0
    ensures StartsWith([c] + t, p) <==> c == p[0] && StartsWith(t, p[1..])
  {
    var s := [c] + t;
    if |p| <= |s| {
      assert s[..|p|] == [c] + t[..|p| - 1];
      assert p == [p[0]] + p[1..];
    }
  }

  /** A replace leaves alone a prefix that lacks the first character of the pattern. */
  lemma {:induction false} ReplaceAllSkip(x: string, y: string, pat: string, rep: string)
    requires |pat| > 0 && pat[0] !in x
    ensures ReplaceAll(x + y, pat, rep) == x + ReplaceAll(y, pat, rep)
  {
    if x != [] {
      var s := x + y;
      assert s[0] == x[0];
      assert |pat| <= |s| ==> s[..|pat|][0] == x[0];
      assert !StartsWith(s, pat);
      assert s[1..] == x[1..] + y;
      assert pat[0] !in x[1..] by { assert forall c :: c in x[1..] ==> c in x; }
      ReplaceAllSkip(x[1..], y, pat, rep);
      calc {
        ReplaceAll(s, pat, rep);
        [x[0]] + ReplaceAll(x[1..] + y, pat, rep);
        [x[0]] + (x[1..] + ReplaceAll(y, pat, rep));
        { assert [x[0]] + x[1..] == x; }
        x + ReplaceAll(y, pat, rep);
      }
    } else {
      assert x + y == y;
    }
  }

  /** A text without the first character of the pattern is left as it is. */
  lemma ReplaceAllUntouched(s: string, pat: string, rep: string)
    requires |pat| > 0 && pat[0] !in s
    ensures ReplaceAll(s, pat, rep) == s
  {
    ReplaceAllSkip(s, [], pat, rep);
    assert s + [] == s;
  }

  /** When the replacement starts like the pattern, a replace creates no prefix free of
      that character that the text did not already have. */
  lemma {:induction false} ReplaceAllKeepsPrefix(t: string, w: string, pat: string, rep: string)
    requires |pat| > 0 && rep != [] && rep[0] == pat[0] && pat[0] !in w
    ensures StartsWith(ReplaceAll(t, pat, rep), w) ==> StartsWith(t, w)
    decreases |t|
  {
    if w != [] && t != [] {
      var r := ReplaceAll(t, pat, rep);
      assert w[0] != pat[0];
      if StartsWith(t, pat) {
        assert r[0] == pat[0];
        assert |w| <= |r| ==> r[..|w|][0] == r[0];
      } else {
        assert pat[0] !in w[1..] by { assert forall c :: c in w[1..] ==> c in w; }
        ReplaceAllKeepsPrefix(t[1..], w[1..], pat, rep);
        StartsWithCons(t[0], ReplaceAll(t[1..], pat, rep), w);
        StartsWithCons(t[0], t[1..], w);
        assert t == [t[0]] + t[1..];
      }
    }
  }

  /** After a global replace the pattern no longer occurs, provided the replacement cannot
      complete a new match: the pattern's first character occurs once in it and starts
      the shorter replacement, which differs from the pattern after that character. */
  lemma {:induction false} ReplaceAllRemoves(s: string, pat: string, rep: string)
    requires |pat| > 1 && pat[0] !in pat[1..]
    requires rep != [] && rep[0] == pat[0] && pat[0] !in rep[1..] && |rep| < |pat|
    requires exists j :: 1 <= j < |rep| && rep[j] != pat[j]
    ensures !Contains(ReplaceAll(s, pat, rep), pat)
    decreases |s|
  {
    if s != [] {
      if StartsWith(s, pat) {
        ReplaceAllRemoves(s[|pat|..], pat, rep);
        NoMatchAfterReplacement(ReplaceAll(s[|pat|..], pat, rep), pat, rep);
      } else {
        var x := ReplaceAll(s[1..], pat, rep);
        ReplaceAllRemoves(s[1..], pat, rep);
        ReplaceAllKeepsPrefix(s[1..], pat[1..], pat, rep);
        StartsWithCons(s[0], x, pat);
        StartsWithCons(s[0], s[1..], pat);
        assert s == [s[0]] + s[1..];
        NoMatchAfterChar(s[0], x, pat);
      }
    }
  }

  /** No match starts in a replacement of the kind above, nor after it. */
  lemma NoMatchAfterReplacement(x: string, pat: string, rep: string)
    requires |pat| > 1 && rep != [] && rep[0] == pat[0] && pat[0] !in rep[1..] && |rep| < |pat|
    requires exists j :: 1 <= j < |rep| && rep[j] != pat[j]
    requires !Contains(x, pat)
    ensures !Contains(rep + x, pat)
  {
    var r := rep + x;
    var j :| 1 <= j < |rep| && rep[j] != pat[j];
    forall i | 0 <= i <= |r| ensures !OccursAt(r, pat, i) {
      if i == 0 {
        assert r[j] == rep[j];
        if |pat| <= |r| { assert r[0..|pat|][j] == r[j]; }
      } else if i < |rep| {
        assert r[i] == rep[i] == rep[1..][i - 1];
        if i + |pat| <= |r| { assert r[i..i + |pat|][0] == r[i]; }
      } else {
        assert !OccursAt(x, pat, i - |rep|);
        if i + |pat| <= |r| { assert r[i..i + |pat|] == x[i - |rep|..i - |rep| + |pat|]; }
      }
    }
  }

  /** A character put before a text without a match, where no match starts, leaves
      a text without a match. */
  lemma NoMatchAfterChar(c: char, x: string, pat: string)
    requires |pat| > 0 && !Contains(x, pat) && !StartsWith([c] + x, pat)
    ensures !Contains([c] + x, pat)
  {
    var r := [c] + x;
    forall i | 0 <= i <= |r| ensures !OccursAt(r, pat, i) {
      if i == 0 {
        assert OccursAt(r, pat, 0) == StartsWith(r, pat);
      } else {
        assert !OccursAt(x, pat, i - 1);
        if i + |pat| <= |r| { assert r[i..i + |pat|] == x[i - 1..i - 1 + |pat|]; }
      }
    }
  }

  /** `s.replace(/`/g, '')` for a single character. */
  function RemoveChar(s: string, c: char): (r: string)
    ensures c !in r
    ensures |r| <= |s|
    ensures c !in s ==> r == s
  {
    if s == [] then [] else (if s[0] == c then [] else [s[0]]) + RemoveChar(s[1..], c)
  }

  /** Removing a character keeps the order of the rest: it works piece by piece, so
      `RemoveChar` is the filter that drops `c` and keeps every other character in place. */
  lemma {:induction false} RemoveCharAppend(a: string, b: string, c: char)
    ensures RemoveChar(a + b, c) == RemoveChar(a, c) + RemoveChar(b, c)
    decreases |a|
  {
    if a != [] {
      RemoveCharAppend(a[1..], b, c);
      assert (a + b)[1..] == a[1..] + b;
    } else {
      assert a + b == b;
    }
  }

  /** Removing a character removes only that character: every other character occurs
      in what remains as often as in `s`. */
  lemma {:induction false} RemoveCharKeepsOthers(s: string, c: char)
    ensures forall x :: x != c ==> multiset(RemoveChar(s, c))[x] == multiset(s)[x]
  {
    if s != [] {
      RemoveCharKeepsOthers(s[1..], c);
      assert s == [s[0]] + s[1..];
    }
  }
}
