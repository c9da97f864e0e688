/** The regular-expression operations the chat components use, stated over the positions
    where a fixed pattern matches: the leftmost match (`String.prototype.match`) and
    `String.prototype.split` with a pattern captured whole, whose separators stay in the
    result (section 22.2.6.14 of ECMA-262, `RegExp.prototype[@@split]`). A pattern is given
    by the function saying where a match starting at a position ends, or `None`. */
module RegexText {
  import opened Wrappers
  import opened Strings
  import Blockchain

  /** The leftmost position from `from` on, below `n`, where `matchAt` finds a match. */
  function FirstFrom<T>(n: nat, matchAt: nat -> Option<T>, from: nat): (r: Option<nat>)
    decreases n - from
    ensures r.Some? ==> from <= r.value < n && matchAt(r.value).Some?
    ensures r.Some? ==> forall j :: from <= j < r.value ==> matchAt(j).None?
    ensures r.None? ==> forall j :: from <= j < n ==> matchAt(j).None?
  {
    if from >= n then None
    else if matchAt(from).Some? then Some(from)
    else FirstFrom(n, matchAt, from + 1)
  }

  /** The text of the leftmost match in `s`. */
  function FirstMatch<T>(s: string, matchAt: nat -> Option<T>): Option<T> {
    match FirstFrom(|s| + 1, matchAt, 0)
    case None => None
    case Some(i) => matchAt(i)
  }

  /** The match found is the one at the leftmost position where the pattern matches, and
      none is found exactly when it matches nowhere. */
  lemma FirstMatchLeftmost<T>(s: string, matchAt: nat -> Option<T>)
    ensures var r := FirstMatch(s, matchAt);
      (r.Some? ==> exists i: nat :: i <= |s| && matchAt(i) == r && forall j: nat :: j < i ==> matchAt(j).None?) &&
      (r.None? <==> forall j: nat :: j <= |s| ==> matchAt(j).None?)
  {
    var k := FirstFrom(|s| + 1, matchAt, 0);
    if k.Some? {
      assert matchAt(k.value) == FirstMatch(s, matchAt);
    }
  }

  /** The length of the longest prefix of `t` whose characters all satisfy `p`: what a
      greedy `[…]*` takes. */
  function Run(t: string, p: char -> bool): (n: nat)
    ensures n <= |t|
  {
    if |t| > 0 && p(t[0]) then Run(t[1..], p) + 1 else 0
  }

  /** Every character of the prefix satisfies `p`, and the one after it does not. */
  lemma {:induction false} RunFacts(t: string, p: char -> bool)
    ensures var n := Run(t, p);
      (forall k :: 0 <= k < n ==> p(t[k])) && (n < |t| ==> !p(t[n]))
  {
    if |t| > 0 && p(t[0]) {
      var u := t[1..];
      RunFacts(u, p);
      assert forall k :: 1 <= k < Run(t, p) ==> t[k] == u[k - 1];
    }
  }

  /** The length of the longest suffix of `t` whose characters all satisfy `p`. */
  function RunBack(t: string, p: char -> bool): (n: nat)
    ensures n <= |t|
  {
    if |t| > 0 && p(t[|t| - 1]) then RunBack(t[..|t| - 1], p) + 1 else 0
  }

  /** Every character of the suffix satisfies `p`, and the one before it does not. */
  lemma {:induction false} RunBackFacts(t: string, p: char -> bool)
    ensures var n := RunBack(t, p);
      (forall k :: |t| - n <= k < |t| ==> p(t[k])) && (n < |t| ==> !p(t[|t| - n - 1]))
  {
    if |t| > 0 && p(t[|t| - 1]) {
      var u := t[..|t| - 1];
      RunBackFacts(u, p);
      assert forall k :: |u| - RunBack(u, p) <= k < |u| ==> t[k] == u[k];
    }
  }

  // Addresses

  /** `/0x[a-fA-F0-9]{40}/` matched at `i`: the 42 characters there form an address. */
  function AddressAt(s: string, i: nat): (r: Option<string>)
    ensures r.Some? <==> i + 42 <= |s| && Blockchain.IsValidAddress(s[i..i + 42])
    ensures r.Some? ==> r.value == s[i..i + 42] && Blockchain.IsValidAddress(r.value)
  {
    if i + 42 <= |s| && Blockchain.IsValidAddress(s[i..i + 42]) then Some(s[i..i + 42]) else None
  }

  /** `s.match(/(0x[a-fA-F0-9]{40})/)?.[0]`: the leftmost address in `s`, with no check of
      what comes before or after it. */
  function FirstAddress(s: string): Option<string> {
    FirstMatch(s, AddressMatcher(s))
  }

  function AddressMatcher(s: string): nat -> Option<string> {
    (i: nat) => AddressAt(s, i)
  }

  /** The address found is a valid address that occurs in the text, and no address starts
      before it; none is found exactly when no 42 characters of the text form one. */
  lemma FirstAddressLeftmost(s: string)
    ensures var r := FirstAddress(s);
      (r.Some? ==> Blockchain.IsValidAddress(r.value) &&
                   exists i: nat :: AddressAt(s, i) == r && forall j: nat :: j < i ==> AddressAt(s, j).None?) &&
      (r.None? <==> forall j: nat :: AddressAt(s, j).None?)
  {
    var m := AddressMatcher(s);
    FirstMatchLeftmost(s, m);
    if FirstAddress(s).Some? {
      var i: nat :| i <= |s| && m(i) == FirstAddress(s) && forall j: nat :: j < i ==> m(j).None?;
      assert AddressAt(s, i) == FirstAddress(s);
      forall j: nat | j < i
        ensures AddressAt(s, j).None?
      {
        assert m(j).None?;
      }
    } else {
      forall j: nat
        ensures AddressAt(s, j).None?
      {
        if j <= |s| {
          assert m(j).None?;
        }
      }
    }
  }

  // Splitting

  /** The matcher never matches the empty string and stays within the text. */
  ghost predicate Matcher(s: string, matchEnd: nat -> Option<nat>) {
    forall q: nat :: matchEnd(q).Some? ==> q < matchEnd(q).value <= |s|
  }

  /** `s.split(re)` from the last cut `p`, trying positions from `q`: the text between
      matches and the matches themselves, alternately. */
  function SplitFrom(s: string, matchEnd: nat -> Option<nat>, p: nat, q: nat): seq<string>
    requires Matcher(s, matchEnd)
    requires p <= q <= |s|
    decreases |s| - q
  {
    if q >= |s| then [s[p..]]
    else match matchEnd(q)
      case None => SplitFrom(s, matchEnd, p, q + 1)
      case Some(e) => [s[p..q], s[q..e]] + SplitFrom(s, matchEnd, e, e)
  }

  /** Putting the pieces of a split back together gives the text split. */
  lemma {:induction false} SplitFromConcat(s: string, matchEnd: nat -> Option<nat>, p: nat, q: nat)
    requires Matcher(s, matchEnd)
    requires p <= q <= |s|
    ensures Concat(SplitFrom(s, matchEnd, p, q)) == s[p..]
    decreases |s| - q
  {
    if q >= |s| {
      assert Concat([s[p..]]) == s[p..] + Concat([]);
    } else {
      match matchEnd(q)
      case None => SplitFromConcat(s, matchEnd, p, q + 1);
      case Some(e) =>
        SplitFromConcat(s, matchEnd, e, e);
        var rest := SplitFrom(s, matchEnd, e, e);
        ConcatAppend([s[p..q], s[q..e]], rest);
        assert Concat([s[p..q], s[q..e]]) == s[p..q] + (s[q..e] + Concat([]));
        assert s[p..q] + s[q..e] + s[e..] == s[p..];
    }
  }

  /** The pieces alternate: an odd number of them, every odd one a match of the pattern
      at the place it was cut from, every even one a stretch of the text in which no match
      starts. */
  lemma {:induction false} SplitFromShape(s: string, matchEnd: nat -> Option<nat>, p: nat, q: nat)
    requires Matcher(s, matchEnd)
    requires p <= q <= |s|
    requires forall k: nat :: p <= k < q ==> matchEnd(k).None?
    ensures var parts := SplitFrom(s, matchEnd, p, q);
      |parts| % 2 == 1 &&
      (forall i :: 0 <= i < |parts| && i % 2 == 1 ==>
        Match(s, matchEnd, p, parts[i])) &&
      (forall i :: 0 <= i < |parts| && i % 2 == 0 ==> Gap(s, matchEnd, p, parts[i]))
    decreases |s| - q
  {
    if q >= |s| {
      assert GapAt(s, matchEnd, p, |s|);
    } else {
      match matchEnd(q)
      case None =>
        assert SplitFrom(s, matchEnd, p, q) == SplitFrom(s, matchEnd, p, q + 1);
        SplitFromShape(s, matchEnd, p, q + 1);
      case Some(e) =>
        SplitFromShape(s, matchEnd, e, e);
        var rest := SplitFrom(s, matchEnd, e, e);
        var parts := [s[p..q], s[q..e]] + rest;
        assert GapAt(s, matchEnd, p, q);
        forall i | 0 <= i < |parts| && i % 2 == 1
          ensures Match(s, matchEnd, p, parts[i])
        {
          if i == 1 {
            assert parts[1] == s[q..matchEnd(q).value];
          } else {
            assert parts[i] == rest[i - 2];
            assert (i - 2) % 2 == 1;
            MatchLater(s, matchEnd, p, e, parts[i]);
          }
        }
        forall i | 0 <= i < |parts| && i % 2 == 0
          ensures Gap(s, matchEnd, p, parts[i])
        {
          if i > 0 {
            assert parts[i] == rest[i - 2];
            assert (i - 2) % 2 == 0;
            GapLater(s, matchEnd, p, e, parts[i]);
          }
        }
    }
  }

  /** `t` is a match of the pattern at or after `p`. */
  ghost predicate Match(s: string, matchEnd: nat -> Option<nat>, p: nat, t: string) {
    exists k: nat :: p <= k < |s| && matchEnd(k).Some? && k <= matchEnd(k).value <= |s| && t == s[k..matchEnd(k).value]
  }

  lemma MatchLater(s: string, matchEnd: nat -> Option<nat>, p: nat, p': nat, t: string)
    requires p <= p' && Match(s, matchEnd, p', t)
    ensures Match(s, matchEnd, p, t)
  {
  }

  /** `s[a..b]`, a stretch at or after `p` in which no match starts. */
  ghost predicate GapAt(s: string, matchEnd: nat -> Option<nat>, a: nat, b: nat) {
    a <= b <= |s| && forall k: nat :: a <= k < b ==> matchEnd(k).None?
  }

  ghost predicate Gap(s: string, matchEnd: nat -> Option<nat>, p: nat, t: string) {
    exists a: nat, b: nat :: p <= a && GapAt(s, matchEnd, a, b) && t == s[a..b]
  }

  lemma GapLater(s: string, matchEnd: nat -> Option<nat>, p: nat, p': nat, t: string)
    requires p <= p' && Gap(s, matchEnd, p', t)
    ensures Gap(s, matchEnd, p, t)
  {
  }
}
