/** Decimal text and fixed-point ether amounts.

    Wei amounts are integers. `parseEther` and `formatEther` convert between the decimal
    text of an ether amount and its wei value with 18 decimal places, exactly; `parseFloat`
    reads the leading decimal number of a string as a real number. */
module Decimal {
  import opened Wrappers
  import opened Strings

  function DigitChar(d: nat): char
    requires d < 10
  {
    ('0' as int + d) as char
  }

  function DigitValue(c: char): nat
    requires IsDigit(c)
  {
    c as int - '0' as int
  }

  function Pow10(k: nat): (r: nat)
    ensures r >= 1
  {
    if k == 0 then 1 else 10 * Pow10(k - 1)
  }

  /** `n.toString()` for a non-negative integer: its decimal digits, without leading zeros. */
  function NatToString(n: nat): (r: string)
    ensures |r| >= 1 && AllDigits(r)
    ensures r[0] == '0' <==> n == 0
  {
    if n < 10 then [DigitChar(n)] else NatToString(n / 10) + [DigitChar(n % 10)]
  }

  /** `n.toString()` for any integer. */
  function IntToString(n: int): (r: string)
    ensures n >= 0 ==> r == NatToString(n)
  {
    if n < 0 then "-" + NatToString(-n) else NatToString(n)
  }

  /** The number a string of decimal digits denotes (leading zeros allowed). */
  function DigitsValue(s: string): nat
    requires AllDigits(s)
  {
    if s == [] then 0 else DigitsValue(s[..|s| - 1]) * 10 + DigitValue(s[|s| - 1])
  }

  lemma {:induction false} DigitsValueOfNatToString(n: nat)
    ensures DigitsValue(NatToString(n)) == n
  {
    if n >= 10 {
      var p := NatToString(n / 10);
      DigitsValueOfNatToString(n / 10);
      assert (p + [DigitChar(n % 10)])[..|p|] == p;
    }
  }

  /** A string of digits followed by more digits denotes the first part shifted left. */
  lemma {:induction false} DigitsValueAppend(a: string, b: string)
    requires AllDigits(a) && AllDigits(b)
    ensures AllDigits(a + b)
    ensures DigitsValue(a + b) == DigitsValue(a) * Pow10(|b|) + DigitsValue(b)
    decreases |b|
  {
    if b != [] {
      var b' := b[..|b| - 1];
      var d := DigitValue(b[|b| - 1]);
      assert (a + b)[..|a + b| - 1] == a + b';
      DigitsValueAppend(a, b');
      calc {
        DigitsValue(a + b);
        DigitsValue(a + b') * 10 + d;
        (DigitsValue(a) * Pow10(|b'|) + DigitsValue(b')) * 10 + d;
        { MulAssoc(DigitsValue(a), Pow10(|b'|), 10); }
        DigitsValue(a) * (Pow10(|b'|) * 10) + (DigitsValue(b') * 10 + d);
        DigitsValue(a) * Pow10(|b|) + DigitsValue(b);
      }
    } else {
      assert a + b == a;
    }
  }

  lemma MulZero(x: int, y: int)
    requires x == 0
    ensures x * y == 0
  {
  }

  lemma MulTen(a: int, p: int)
    ensures a * (10 * p) == (a * 10) * p
  {
  }

  lemma MulAssoc(x: int, y: int, z: int)
    ensures (x * y) * z == x * (y * z)
  {
  }

  lemma {:induction false} DigitsValueBound(s: string)
    requires AllDigits(s)
    ensures DigitsValue(s) < Pow10(|s|)
  {
    if s != [] {
      DigitsValueBound(s[..|s| - 1]);
    }
  }

  function Zeros(k: nat): (r: string)
    ensures |r| == k && AllDigits(r)
    ensures forall i :: 0 <= i < k ==> r[i] == '0'
  {
    if k == 0 then "" else Zeros(k - 1) + "0"
  }

  lemma {:induction false} DigitsValueZeros(k: nat)
    ensures DigitsValue(Zeros(k)) == 0
  {
    if k > 0 {
      DigitsValueZeros(k - 1);
      assert Zeros(k)[..k - 1] == Zeros(k - 1);
    }
  }

  /** `n.toString()` left-padded with zeros to `k` digits (`padStart(k, '0')`). */
  function PadDigits(n: nat, k: nat): (r: string)
    ensures AllDigits(r) && |r| >= k
  {
    var s := NatToString(n);
    if |s| < k then Zeros(k - |s|) + s else s
  }

  lemma PadDigitsValue(n: nat, k: nat)
    ensures DigitsValue(PadDigits(n, k)) == n
    ensures 0 < k && n < Pow10(k) ==> |PadDigits(n, k)| == k
  {
    var s := NatToString(n);
    DigitsValueOfNatToString(n);
    if |s| < k {
      var z := Zeros(k - |s|);
      DigitsValueAppend(z, s);
      DigitsValueZeros(k - |s|);
      MulZero(DigitsValue(z), Pow10(|s|));
    }
    if n < Pow10(k) {
      NatToStringLength(n, k);
    }
  }

  /** A number below 10^k has at most k digits. */
  lemma {:induction false} NatToStringLength(n: nat, k: nat)
    requires n < Pow10(k)
    ensures |NatToString(n)| <= k || (n == 0 && k == 0)
  {
    if n >= 10 {
      assert k >= 1;
      NatToStringLength(n / 10, k - 1);
    }
  }

  /** The number of decimal places of an ether amount. */
  const EtherDecimals: nat := 18

  const WeiPerEther: nat := 1_000_000_000_000_000_000

  /** Why `parseEther` rejects its argument. */
  datatype EtherError = InvalidFixedNumber | TooManyDecimals

  /** The wei value of `whole.frac` ether, when it is representable. */
  function FixedValue(whole: string, frac: string): (r: Option<nat>)
    requires AllDigits(whole) && AllDigits(frac)
  {
    if |frac| <= EtherDecimals then
      Some(DigitsValue(whole) * WeiPerEther + DigitsValue(frac) * Pow10(EtherDecimals - |frac|))
    else if forall i :: EtherDecimals <= i < |frac| ==> frac[i] == '0' then
      Some(DigitsValue(whole) * WeiPerEther + DigitsValue(frac[..EtherDecimals]))
    else None
  }

  /** The text `-?[0-9]*\.?[0-9]*` with at least one digit, split into sign, whole and fraction. */
  datatype FixedText = FixedText(negative: bool, whole: string, frac: string)

  function SplitFixed(s: string): (r: Option<FixedText>)
    ensures r.Some? ==> AllDigits(r.value.whole) && AllDigits(r.value.frac)
    ensures r.Some? ==> |r.value.whole| + |r.value.frac| > 0
  {
    var negative := |s| > 0 && s[0] == '-';
    var body := if negative then s[1..] else s;
    var whole := if '.' in body then body[..IndexOfChar(body, '.')] else body;
    var frac := if '.' in body then body[IndexOfChar(body, '.') + 1..] else "";
    if AllDigits(whole) && AllDigits(frac) && |whole| + |frac| > 0 then
      Some(FixedText(negative, whole, frac))
    else None
  }

  /** `ethers.parseEther(s)`: the wei value of a decimal ether amount. Digits beyond the
      18th decimal place are accepted only when they are zeros. */
  function ParseEther(s: string): (r: Result<int, EtherError>)
  {
    match SplitFixed(s)
    case None => Failure(InvalidFixedNumber)
    case Some(t) =>
      match FixedValue(t.whole, t.frac)
      case None => Failure(TooManyDecimals)
      case Some(v) => Success(if t.negative then -(v as int) else v as int)
  }

  /** The fractional digits `formatEther` prints for `f` < 10^18 wei: 18 digits with the
      trailing zeros removed, but at least one digit. */
  function FracText(f: nat): string
  {
    StripTrailingZeros(PadDigits(f, EtherDecimals))
  }

  function StripTrailingZeros(s: string): (r: string)
    requires AllDigits(s)
    ensures AllDigits(r) && |r| <= |s| && r == s[..|r|]
    ensures |s| >= 1 ==> |r| >= 1
    ensures |r| >= 2 ==> r[|r| - 1] != '0'
    ensures forall i :: |r| <= i < |s| ==> s[i] == '0'
  {
    if |s| >= 2 && s[|s| - 1] == '0' then StripTrailingZeros(s[..|s| - 1]) else s
  }

  /** `ethers.formatEther(wei)` for a non-negative balance: whole ether, a point, and the
      significant decimals (at least one), as in "0.05" or "1.0". */
  function FormatEther(wei: nat): (r: string)
    ensures '.' in r
  {
    var r := NatToString(wei / WeiPerEther) + "." + FracText(wei % WeiPerEther);
    assert r[|NatToString(wei / WeiPerEther)|] == '.';
    r
  }

  lemma StripTrailingZerosValue(s: string)
    requires AllDigits(s) && |s| <= EtherDecimals
    ensures var r := StripTrailingZeros(s);
      DigitsValue(r) * Pow10(EtherDecimals - |r|) == DigitsValue(s) * Pow10(EtherDecimals - |s|)
    decreases |s|
  {
    if |s| >= 2 && s[|s| - 1] == '0' {
      var s' := s[..|s| - 1];
      StripTrailingZerosValue(s');
      var a, p := DigitsValue(s'), Pow10(EtherDecimals - |s|);
      assert DigitsValue(s) == a * 10;
      assert Pow10(EtherDecimals - |s'|) == 10 * p;
      MulTen(a, p);
    }
  }

  lemma Pow10Ether()
    ensures Pow10(EtherDecimals) == WeiPerEther
  {
    assert Pow10(3) == 1000;
    assert Pow10(6) == 1000 * Pow10(3);
    assert Pow10(9) == 1000 * Pow10(6);
    assert Pow10(12) == 1000 * Pow10(9);
    assert Pow10(15) == 1000 * Pow10(12);
    assert Pow10(18) == 1000 * Pow10(15);
  }

  /** Digits, a point and digits split into exactly those parts. */
  lemma SplitFixedPoint(w: string, f: string)
    requires |w| >= 1 && AllDigits(w) && AllDigits(f)
    ensures SplitFixed(w + "." + f) == Some(FixedText(false, w, f))
  {
    var s := w + "." + f;
    assert s[0] == w[0];
    assert s[..|w|] == w && s[|w| + 1..] == f;
    IndexOfCharFirst(s, '.', |w|);
  }

  /** The wei value `formatEther`'s two parts stand for. */
  lemma FormattedPartsValue(q: nat, m: nat)
    requires m < WeiPerEther
    ensures var w := NatToString(q);
      var f := FracText(m);
      AllDigits(w) && AllDigits(f) && FixedValue(w, f) == Some(q * WeiPerEther + m)
  {
    var padded := PadDigits(m, EtherDecimals);
    var f := StripTrailingZeros(padded);
    Pow10Ether();
    PadDigitsValue(m, EtherDecimals);
    StripTrailingZerosValue(padded);
    DigitsValueOfNatToString(q);
    assert |padded| == EtherDecimals;
    assert DigitsValue(f) * Pow10(EtherDecimals - |f|) == m;
  }

  /** `parseEther` inverts `formatEther`: the printed balance denotes exactly the wei
      amount it was printed from. */
  lemma ParseFormatEther(wei: nat)
    ensures ParseEther(FormatEther(wei)) == Success(wei)
  {
    var q, m := wei / WeiPerEther, wei % WeiPerEther;
    DivModWei(wei);
    FormatEtherParts(wei);
    ParseFormattedParts(wei, q, m);
  }

  lemma FormatEtherParts(wei: nat)
    ensures FormatEther(wei) == NatToString(wei / WeiPerEther) + "." + FracText(wei % WeiPerEther)
  {
  }


  lemma DivModWei(wei: nat)
    ensures wei % WeiPerEther < WeiPerEther && (wei / WeiPerEther) * WeiPerEther + wei % WeiPerEther == wei
  {
  }

  /** The text `formatEther` prints for whole ether `q` and wei `m` parses back to both. */
  lemma ParseFormattedParts(wei: nat, q: nat, m: nat)
    requires m < WeiPerEther && q * WeiPerEther + m == wei
    ensures ParseEther(NatToString(q) + "." + FracText(m)) == Success(wei)
  {
    var w := NatToString(q);
    var f := FracText(m);
    SplitFixedPoint(w, f);
    FormattedPartsValue(q, m);
    ParseEtherOf(w + "." + f, FixedText(false, w, f), wei);
  }

  /** A text that splits into non-negative parts of value `v` parses to `v`. */
  lemma ParseEtherOf(s: string, t: FixedText, v: nat)
    requires SplitFixed(s) == Some(t) && !t.negative && FixedValue(t.whole, t.frac) == Some(v)
    ensures ParseEther(s) == Success(v)
  {
  }

  /** The length of the run of digits at the start of `s`. */
  function DigitRun(s: string): (n: nat)
    ensures n <= |s|
  {
    if |s| > 0 && IsDigit(s[0]) then DigitRun(s[1..]) + 1 else 0
  }

  /** The run is all digits, and what follows it is not a digit. */
  lemma {:induction false} DigitRunFacts(s: string)
    ensures var n := DigitRun(s); AllDigits(s[..n]) && (n < |s| ==> !IsDigit(s[n]))
  {
    if |s| > 0 && IsDigit(s[0]) {
      DigitRunFacts(s[1..]);
      var n := DigitRun(s);
      assert s[..n] == [s[0]] + s[1..][..n - 1];
    }
  }

  /** The value of the decimal exponent that starts `s` (`e` or `E`, an optional sign and
      at least one digit), and its length; `(0, 0)` when there is none. */
  function ExponentPart(s: string): (r: (int, nat))
    ensures r.1 <= |s|
  {
    if |s| >= 2 && (s[0] == 'e' || s[0] == 'E') then
      var signed := s[1] == '+' || s[1] == '-';
      var start := if signed then 2 else 1;
      var k := DigitRun(s[start..]);
      DigitRunFacts(s[start..]);
      if k == 0 then (0, 0)
      else
        var v := DigitsValue(s[start..][..k]);
        (if s[1] == '-' then -(v as int) else v as int, start + k)
    else (0, 0)
  }

  function Scale(x: real, e: int): real
    decreases if e < 0 then -e else e
  {
    if e == 0 then x else if e > 0 then Scale(x * 10.0, e - 1) else Scale(x / 10.0, e + 1)
  }

  /** `parseFloat(s)`: the value of the longest decimal literal after leading white space,
      `None` standing for NaN when there is no digit to read. */
  function ParseFloat(s: string): (r: Option<real>)
  {
    var t := TrimStart(s);
    if |t| > 0 && (t[0] == '-' || t[0] == '+') then
      match ParseUnsigned(t[1..])
      case None => None
      case Some(v) => Some(if t[0] == '-' then -v else v)
    else ParseUnsigned(t)
  }

  /** The value of the longest unsigned decimal literal at the start of `u`. */
  function ParseUnsigned(u: string): (r: Option<real>)
  {
    var n1 := DigitRun(u);
    var hasPoint := n1 < |u| && u[n1] == '.';
    var n2 := if hasPoint then DigitRun(u[n1 + 1..]) else 0;
    DigitRunFacts(u);
    if n1 + n2 == 0 then None
    else
      var whole := DigitsValue(u[..n1]);
      var frac := if hasPoint then DigitRunFacts(u[n1 + 1..]); DigitsValue(u[n1 + 1..][..n2]) else 0;
      var rest := if hasPoint then u[n1 + 1 + n2..] else u[n1..];
      var mantissa := whole as real + DivPow10(frac as real, n2);
      Some(Scale(mantissa, ExponentPart(rest).0))
  }

  /** The value of the decimal text `w.f`. */
  function DecimalReal(w: string, f: string): real
    requires AllDigits(w) && AllDigits(f)
  {
    DigitsValue(w) as real + DivPow10(DigitsValue(f) as real, |f|)
  }

  /** `x` divided by ten `k` times. */
  function DivPow10(x: real, k: nat): real {
    if k == 0 then x else DivPow10(x, k - 1) / 10.0
  }

  lemma {:induction false} DivPow10Value(x: real, k: nat)
    ensures DivPow10(x, k) == x / Pow10(k) as real
  {
    if k > 0 {
      DivPow10Value(x, k - 1);
      var p := Pow10(k - 1) as real;
      assert Pow10(k) as real == 10.0 * p;
      assert x / p / 10.0 == x / (10.0 * p);
    }
  }

  /** `parseFloat` reads a plain decimal exactly. */
  lemma ParseFloatDecimal(w: string, f: string)
    requires |w| >= 1 && AllDigits(w) && AllDigits(f)
    ensures ParseFloat(w + "." + f) == Some(DecimalReal(w, f))
  {
    var u := w + "." + f;
    assert u[0] == w[0];
    assert TrimStart(u) == u;
    ParseUnsignedDecimal(w, f);
  }

  lemma ParseUnsignedDecimal(w: string, f: string)
    requires |w| >= 1 && AllDigits(w) && AllDigits(f)
    ensures ParseUnsigned(w + "." + f) == Some(DecimalReal(w, f))
  {
    var u := w + "." + f;
    assert u == w + ("." + f);
    DigitRunExact(w, "." + f);
    var n1 := DigitRun(u);
    assert n1 == |w|;
    assert u[n1] == '.';
    assert u[n1 + 1..] == f;
    DigitRunExact(f, "");
    assert f + "" == f;
    var n2 := DigitRun(u[n1 + 1..]);
    assert n2 == |f|;
    assert u[n1 + 1..][..n2] == f;
    assert u[..n1] == w;
    assert u[n1 + 1 + n2..] == "";
    assert ExponentPart("") == (0, 0);
    assert ParseUnsigned(u) == Some(Scale(DecimalReal(w, f), 0));
  }

  /** The digit run of digits followed by a non-digit is exactly those digits. */
  lemma {:induction false} DigitRunExact(d: string, rest: string)
    requires AllDigits(d) && (rest == [] || !IsDigit(rest[0]))
    ensures DigitRun(d + rest) == |d|
  {
    if d != [] {
      assert (d + rest)[1..] == d[1..] + rest;
      DigitRunExact(d[1..], rest);
    } else {
      assert d + rest == rest;
    }
  }

  /** The real number of ether a wei amount stands for. */
  function EtherValue(wei: int): real
  {
    wei as real / WeiPerEther as real
  }

  /** `parseFloat(formatEther(wei))` is the ether value of `wei`, exactly. */
  lemma ParseFloatFormatEther(wei: nat)
    ensures ParseFloat(FormatEther(wei)) == Some(EtherValue(wei))
  {
    var q, m := wei / WeiPerEther, wei % WeiPerEther;
    var w := NatToString(q);
    var f := FracText(m);
    ParseFloatDecimal(w, f);
    FormattedPartsValue(q, m);
    DigitsValueOfNatToString(q);
    FracRealValue(DigitsValue(f), |f|, m);
    DivPow10Value(DigitsValue(f) as real, |f|);
    assert DecimalReal(w, f) == q as real + m as real / WeiPerEther as real;
    DivSplit(q as real, m as real, WeiPerEther as real);
    var wr := wei as real;
    assert wr == q as real * WeiPerEther as real + m as real;
    calc {
      EtherValue(wei);
      wr / WeiPerEther as real;
      (q as real * WeiPerEther as real + m as real) / WeiPerEther as real;
      q as real + m as real / WeiPerEther as real;
      DecimalReal(w, f);
    }
    assert FormatEther(wei) == w + "." + f;
  }

  lemma DivSplit(q: real, m: real, w: real)
    requires w > 0.0
    ensures (q * w + m) / w == q + m / w
  {
    assert (q + m / w) * w == q * w + m;
  }

  /** A fraction with `k` digits scaled up to 18 digits denotes the same real. */
  lemma FracRealValue(d: nat, k: nat, m: nat)
    requires k <= EtherDecimals && d * Pow10(EtherDecimals - k) == m
    ensures d as real / Pow10(k) as real == m as real / WeiPerEther as real
  {
    Pow10Split(k, EtherDecimals - k);
    Pow10Ether();
    ScaledFraction(d, Pow10(k), Pow10(EtherDecimals - k), m, WeiPerEther);
  }

  lemma ScaledFraction(d: nat, big: nat, p: nat, m: nat, w: nat)
    requires big > 0 && p > 0 && big * p == w && d * p == m
    ensures d as real / big as real == m as real / w as real
  {
    MulReal(big, p);
    MulReal(d, p);
    DivCancel(d as real, big as real, p as real);
  }

  lemma MulReal(a: nat, b: nat)
    ensures (a * b) as real == a as real * b as real
  {
  }

  lemma DivCancel(x: real, y: real, z: real)
    requires y > 0.0 && z > 0.0
    ensures (x * z) / (y * z) == x / y
  {
    var a := x / y;
    assert a * y == x;
    assert a * (y * z) == x * z;
  }

  lemma {:induction false} Pow10Split(a: nat, b: nat)
    ensures Pow10(a) * Pow10(b) == Pow10(a + b)
  {
    if a > 0 {
      Pow10Split(a - 1, b);
      MulAssoc(10, Pow10(a - 1), Pow10(b));
    }
  }
}
