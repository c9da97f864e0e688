/** The wallet balance manager (utils/balance-manager.ts): a balance cache valid for 30
    seconds, the status it keeps, the sufficiency check, the low-balance alert of the
    monitor and its configuration. The clock and the provider's answers are parameters;
    amounts are the decimal texts the manager keeps, compared as `parseFloat` reads them. */
module BalanceManagement {
  import opened Wrappers
  import opened Strings
  import Decimal

  /** `BalanceConfig`. */
  datatype Config = Config(minimumBalance: string, targetBalance: string, recheckIntervalMs: int)

  /** `Partial<BalanceConfig>`: each key present or absent. */
  datatype PartialConfig = PartialConfig(minimumBalance: Option<string>, targetBalance: Option<string>,
                                         recheckIntervalMs: Option<int>)

  const NoOverrides := PartialConfig(None, None, None)

  const DefaultConfig := Config("0.001", "0.005", 60000)

  /** `{ ...config, ...overrides }`: the keys present in `overrides` replace those of `config`. */
  function Merge(config: Config, overrides: PartialConfig): Config {
    Config(overrides.minimumBalance.GetOr(config.minimumBalance),
           overrides.targetBalance.GetOr(config.targetBalance),
           overrides.recheckIntervalMs.GetOr(config.recheckIntervalMs))
  }

  /** `BalanceStatus`; times are milliseconds since the epoch. */
  datatype Status = Status(currentBalance: string, isLowBalance: bool, lastChecked: int,
                           lastLowBalanceAlert: Option<int>)

  /** The cached balance and when it was fetched. */
  datatype Cache = Cache(balance: string, timestamp: int)

  const CacheDurationMs: int := 30000

  const AlertIntervalMs: int := 300000

  // Amounts

  /** The balance in millionths of an ether, rounded half up as `toFixed(6)` rounds. */
  function MicroEther(wei: nat): nat { (wei + 500_000_000_000) / 1_000_000_000_000 }

  /** `(Number(wei) / 1e18).toFixed(6)`: the balance in ether with six decimals. */
  function BalanceText(wei: nat): string {
    var micro := MicroEther(wei);
    Decimal.NatToString(micro / 1_000_000) + "." + Decimal.PadDigits(micro % 1_000_000, 6)
  }

  /** `parseFloat(a) < parseFloat(b)`, false when either is NaN. */
  predicate Below(a: string, b: string) {
    var x, y := Decimal.ParseFloat(a), Decimal.ParseFloat(b);
    x.Some? && y.Some? && x.value < y.value
  }

  /** `parseFloat(a) >= parseFloat(b)`, false when either is NaN. */
  predicate AtLeast(a: string, b: string) {
    var x, y := Decimal.ParseFloat(a), Decimal.ParseFloat(b);
    x.Some? && y.Some? && x.value >= y.value
  }

  // Reading the balance

  /** A cached balance younger than the cache duration, when the caller accepts one. */
  predicate CacheFresh(cache: Option<Cache>, useCache: bool, now: int) {
    useCache && cache.Some? && now - cache.value.timestamp < CacheDurationMs
  }

  /** `this.balanceCache?.balance || "0"`. */
  function Fallback(cache: Option<Cache>): string {
    if cache.Some? && cache.value.balance != "" then cache.value.balance else "0"
  }

  /** The balance `getCurrentBalance` answers, with the cache and status it leaves. */
  datatype Reading = Reading(balance: string, cache: Option<Cache>, status: Status)

  /** `getCurrentBalance`. `now` is the clock when it is called, `fetched` the wei the
      provider answers or the message of its error, `checkedAt` the clock after the answer. */
  function Read(cache: Option<Cache>, status: Status, config: Config, useCache: bool, now: int,
                fetched: Result<nat, string>, checkedAt: int): Reading
  {
    if CacheFresh(cache, useCache, now) then Reading(cache.value.balance, cache, status)
    else match fetched
      case Success(wei) =>
        var balance := BalanceText(wei);
        Reading(balance, Some(Cache(balance, now)),
                status.(currentBalance := balance, lastChecked := checkedAt,
                        isLowBalance := Below(balance, config.minimumBalance)))
      case Failure(_) => Reading(Fallback(cache), cache, status)
  }

  /** The text of the low-balance answer of `ensureSufficientBalance`. */
  function LowBalanceMessage(balance: string, minimum: string, walletAddress: string): string {
    "I need more ETH for transaction fees. Current balance: " + balance + " ETH (need: " + minimum
    + " ETH). Please send ETH to my wallet address: " + walletAddress
  }

  /** The monitor raises an alert when there was none yet or the last one is more than
      five minutes old. */
  predicate AlertDue(lastAlert: Option<int>, now: int) {
    lastAlert.None? || now - lastAlert.value > AlertIntervalMs
  }

  /** The manager. `monitoring` says whether the interval of the monitor is set. */
  class BalanceManager {
    var config: Config
    var status: Status
    var monitoring: bool
    var balanceCache: Option<Cache>

    /** The status shows the cached balance, which is never empty, or "0" while nothing
        was read yet. */
    predicate Valid()
      reads this
    {
      (balanceCache.Some? ==>
         status.currentBalance == balanceCache.value.balance && balanceCache.value.balance != "") &&
      (balanceCache.None? ==> status.currentBalance == "0")
    }

    constructor(overrides: PartialConfig, now: int)
      ensures Valid()
      ensures config == Merge(DefaultConfig, overrides)
      ensures status == Status("0", true, now, None)
      ensures balanceCache == None && !monitoring
    {
      config := Merge(DefaultConfig, overrides);
      status := Status("0", true, now, None);
      balanceCache := None;
      monitoring := false;
    }

    method GetCurrentBalance(useCache: bool, now: int, fetched: Result<nat, string>, checkedAt: int)
      returns (balance: string)
      requires Valid()
      modifies this
      ensures Valid()
      ensures var r := Read(old(balanceCache), old(status), old(config), useCache, now, fetched, checkedAt);
        balance == r.balance && balanceCache == r.cache && status == r.status
      ensures config == old(config) && monitoring == old(monitoring)
      ensures balance == status.currentBalance
    {
      if useCache && balanceCache.Some? && now - balanceCache.value.timestamp < CacheDurationMs {
        return balanceCache.value.balance;
      }
      match fetched
      case Success(wei) =>
        balance := BalanceText(wei);
        balanceCache := Some(Cache(balance, now));
        status := status.(currentBalance := balance);
        status := status.(lastChecked := checkedAt);
        status := status.(isLowBalance := Below(balance, config.minimumBalance));
      case Failure(_) =>
        balance := if balanceCache.Some? && balanceCache.value.balance != "" then balanceCache.value.balance else "0";
    }

    /** `isBalanceSufficient`. */
    method IsBalanceSufficient(useCache: bool, now: int, fetched: Result<nat, string>, checkedAt: int)
      returns (sufficient: bool)
      requires Valid()
      modifies this
      ensures Valid()
      ensures var r := Read(old(balanceCache), old(status), old(config), useCache, now, fetched, checkedAt);
        sufficient == AtLeast(r.balance, config.minimumBalance) &&
        balanceCache == r.cache && status == r.status
      ensures config == old(config) && monitoring == old(monitoring)
      ensures sufficient == AtLeast(status.currentBalance, config.minimumBalance)
    {
      var balance := GetCurrentBalance(useCache, now, fetched, checkedAt);
      sufficient := AtLeast(balance, config.minimumBalance);
    }

    /** `ensureSufficientBalance`: always a fresh reading; when it is below the minimum the
        alert time is set and the answer asks for funds at `walletAddress`. */
    method EnsureSufficientBalance(now: int, fetched: Result<nat, string>, checkedAt: int, walletAddress: string)
      returns (ready: bool, message: Option<string>)
      requires Valid()
      modifies this
      ensures Valid()
      ensures var r := Read(old(balanceCache), old(status), old(config), false, now, fetched, checkedAt);
        (ready <==> AtLeast(r.balance, config.minimumBalance)) &&
        balanceCache == r.cache &&
        (ready ==> message == None && status == r.status) &&
        (!ready ==> message == Some(LowBalanceMessage(r.balance, config.minimumBalance, walletAddress)) &&
                    status == r.status.(lastLowBalanceAlert := Some(checkedAt)))
      ensures config == old(config) && monitoring == old(monitoring)
    {
      var balance := GetCurrentBalance(false, now, fetched, checkedAt);
      if AtLeast(balance, config.minimumBalance) {
        return true, None;
      }
      status := status.(lastLowBalanceAlert := Some(checkedAt));
      ready := false;
      message := Some(LowBalanceMessage(balance, config.minimumBalance, walletAddress));
    }

    /** `startMonitoring`: nothing when the monitor is already set; otherwise a first fresh
        reading and the monitor is set. */
    method StartMonitoring(now: int, fetched: Result<nat, string>, checkedAt: int)
      requires Valid()
      modifies this
      ensures Valid()
      ensures old(monitoring) ==> balanceCache == old(balanceCache) && status == old(status)
      ensures !old(monitoring) ==>
        var r := Read(old(balanceCache), old(status), old(config), false, now, fetched, checkedAt);
        balanceCache == r.cache && status == r.status
      ensures monitoring && config == old(config)
    {
      if monitoring {
        return;
      }
      var _ := GetCurrentBalance(false, now, fetched, checkedAt);
      monitoring := true;
    }

    /** One run of the monitor's interval: a fresh reading, and an alert when the balance is
        below the minimum and no alert was raised in the last five minutes. */
    method MonitorTick(now: int, fetched: Result<nat, string>, checkedAt: int)
      requires Valid() && monitoring
      modifies this
      ensures Valid()
      ensures var r := Read(old(balanceCache), old(status), old(config), false, now, fetched, checkedAt);
        balanceCache == r.cache &&
        if Below(r.balance, config.minimumBalance) && AlertDue(old(status.lastLowBalanceAlert), checkedAt)
        then status == r.status.(lastLowBalanceAlert := Some(checkedAt))
        else status == r.status
      ensures config == old(config) && monitoring
    {
      var balance := GetCurrentBalance(false, now, fetched, checkedAt);
      if Below(balance, config.minimumBalance) {
        var lastAlert := status.lastLowBalanceAlert;
        if lastAlert.None? || checkedAt - lastAlert.value > AlertIntervalMs {
          status := status.(lastLowBalanceAlert := Some(checkedAt));
        }
      }
    }

    /** `stopMonitoring`: clears the monitor, if set; nothing else changes. */
    method StopMonitoring()
      modifies this
      ensures !monitoring
      ensures config == old(config) && status == old(status) && balanceCache == old(balanceCache)
    {
      if monitoring {
        monitoring := false;
      }
    }

    /** `getStatus`: a copy of the status, which later changes to the manager leave alone. */
    method GetStatus() returns (s: Status)
      ensures s == status
    {
      s := status;
    }

    /** `updateConfig`: the keys given replace those of the configuration. */
    method UpdateConfig(overrides: PartialConfig)
      modifies this
      ensures config == Merge(old(config), overrides)
      ensures status == old(status) && balanceCache == old(balanceCache) && monitoring == old(monitoring)
    {
      config := Merge(config, overrides);
    }
  }

  // Properties

  /** The configuration keeps the keys not given and takes those given; merging the same
      overrides twice is merging them once, and merging none changes nothing. */
  lemma MergeLaws(config: Config, overrides: PartialConfig)
    ensures var m := Merge(config, overrides);
      (overrides.minimumBalance.Some? ==> m.minimumBalance == overrides.minimumBalance.value) &&
      (overrides.minimumBalance.None? ==> m.minimumBalance == config.minimumBalance) &&
      (overrides.targetBalance.Some? ==> m.targetBalance == overrides.targetBalance.value) &&
      (overrides.targetBalance.None? ==> m.targetBalance == config.targetBalance) &&
      (overrides.recheckIntervalMs.Some? ==> m.recheckIntervalMs == overrides.recheckIntervalMs.value) &&
      (overrides.recheckIntervalMs.None? ==> m.recheckIntervalMs == config.recheckIntervalMs)
    ensures Merge(Merge(config, overrides), overrides) == Merge(config, overrides)
    ensures Merge(config, NoOverrides) == config
  {
  }

  /** Within the cache duration a reading that accepts the cache answers the cached balance
      whatever the provider would answer, and changes nothing. */
  lemma CachedReadIgnoresProvider(balance: string, timestamp: int, status: Status, config: Config,
                                  now: int, fetched: Result<nat, string>, checkedAt: int)
    requires 0 <= now - timestamp < CacheDurationMs
    ensures var cache := Some(Cache(balance, timestamp));
      Read(cache, status, config, true, now, fetched, checkedAt) == Reading(balance, cache, status)
  {
  }

  /** A fresh reading shows the fetched balance in the cache and the status alike, stamps
      the cache with the time of the call, and flags a low balance exactly when it is below
      the minimum; a failed one answers the cached balance, or `"0"` when there is none, and
      changes nothing. */
  lemma ReadOutcomes(cache: Option<Cache>, status: Status, config: Config, useCache: bool, now: int,
                     fetched: Result<nat, string>, checkedAt: int)
    requires !CacheFresh(cache, useCache, now)
    ensures var r := Read(cache, status, config, useCache, now, fetched, checkedAt);
      (fetched.Success? ==>
        r.balance == BalanceText(fetched.value) && r.cache == Some(Cache(r.balance, now)) &&
        r.status.currentBalance == r.balance && r.status.lastChecked == checkedAt &&
        (r.status.isLowBalance <==> Below(r.balance, config.minimumBalance)) &&
        r.status.lastLowBalanceAlert == status.lastLowBalanceAlert) &&
      (fetched.Failure? ==>
        r.cache == cache && r.status == status &&
        (cache.None? ==> r.balance == "0") &&
        (cache.Some? && cache.value.balance != "" ==> r.balance == cache.value.balance))
  {
  }

  /** The text of a fetched balance has exactly six decimals, and `parseFloat` reads it as
      its number of millionths of an ether. */
  lemma BalanceTextValue(wei: nat)
    ensures Decimal.ParseFloat(BalanceText(wei)) == Some(MicroEther(wei) as real / 1_000_000.0)
  {
    SixDecimalsValue(MicroEther(wei));
  }

  /** `parseFloat` reads the six-decimal text of a number of millionths back. */
  lemma SixDecimalsValue(micro: nat)
    ensures var text := Decimal.NatToString(micro / 1_000_000) + "." + Decimal.PadDigits(micro % 1_000_000, 6);
      Decimal.ParseFloat(text) == Some(micro as real / 1_000_000.0)
  {
    WholeAndFraction(micro / 1_000_000, micro % 1_000_000);
    MillionthsValue(micro);
  }

  lemma WholeAndFraction(q: nat, m: nat)
    requires m < 1_000_000
    ensures Decimal.ParseFloat(Decimal.NatToString(q) + "." + Decimal.PadDigits(m, 6))
         == Some(q as real + m as real / 1_000_000.0)
  {
    PaddedDigits(q, m);
    SixDecimalText(Decimal.NatToString(q), Decimal.PadDigits(m, 6), q, m);
  }

  lemma SixDecimalText(w: string, f: string, q: nat, m: nat)
    requires |w| >= 1 && AllDigits(w) && AllDigits(f) && |f| == 6
    requires Decimal.DigitsValue(w) == q && Decimal.DigitsValue(f) == m
    ensures Decimal.ParseFloat(w + "." + f) == Some(q as real + m as real / 1_000_000.0)
  {
    Decimal.ParseFloatDecimal(w, f);
    SixDigitFraction(w, f, q, m);
  }

  lemma PaddedDigits(q: nat, m: nat)
    requires m < 1_000_000
    ensures |Decimal.PadDigits(m, 6)| == 6 && Decimal.DigitsValue(Decimal.PadDigits(m, 6)) == m
    ensures Decimal.DigitsValue(Decimal.NatToString(q)) == q
  {
    assert Decimal.Pow10(6) == 1_000_000;
    Decimal.PadDigitsValue(m, 6);
    Decimal.DigitsValueOfNatToString(q);
  }

  lemma SixDigitFraction(w: string, f: string, q: nat, m: nat)
    requires AllDigits(w) && AllDigits(f) && |f| == 6
    requires Decimal.DigitsValue(w) == q && Decimal.DigitsValue(f) == m
    ensures Decimal.DecimalReal(w, f) == q as real + m as real / 1_000_000.0
  {
    Decimal.DivPow10Value(m as real, 6);
    assert Decimal.Pow10(6) == 1_000_000;
  }

  /** Whole ethers and the six-digit remainder make up the millionths. */
  lemma MillionthsValue(micro: nat)
    ensures (micro / 1_000_000) as real + (micro % 1_000_000) as real / 1_000_000.0 == micro as real / 1_000_000.0
  {
    var q, m := micro / 1_000_000, micro % 1_000_000;
    Decimal.DivSplit(q as real, m as real, 1_000_000.0);
    Decimal.MulReal(q, 1_000_000);
    assert micro == q * 1_000_000 + m;
    assert micro as real == q as real * 1_000_000.0 + m as real;
  }

  /** The millionths shown are the wei amount rounded to the nearest millionth of an ether,
      halves rounded up. */
  lemma MicroEtherRounds(wei: nat)
    ensures MicroEther(wei) * 1_000_000_000_000 <= wei + 500_000_000_000 < MicroEther(wei) * 1_000_000_000_000 + 1_000_000_000_000
  {
  }

  /** `parseFloat` reads the default minimum as one thousandth. */
  lemma DefaultMinimumValue()
    ensures Decimal.ParseFloat(DefaultConfig.minimumBalance) == Some(0.001)
  {
    MinimumParts();
    Decimal.ParseFloatDecimal("0", "001");
    ThousandthValue();
  }

  lemma MinimumParts()
    ensures DefaultConfig.minimumBalance == "0" + "." + "001"
  {
  }

  lemma ThousandthValue()
    ensures AllDigits("0") && AllDigits("001") && Decimal.DecimalReal("0", "001") == 0.001
  {
    assert Decimal.DigitsValue("0") == 0;
    assert Decimal.DigitsValue("001") == 1 by {
      assert "001"[..2] == "00" && "00"[..1] == "0";
    }
    Decimal.DivPow10Value(1.0, 3);
    assert Decimal.Pow10(3) == 1000;
  }

  /** With the default minimum, a fetched balance is low exactly when it shows fewer than
      a thousand millionths of an ether. */
  lemma DefaultLowBalance(wei: nat)
    ensures Below(BalanceText(wei), DefaultConfig.minimumBalance) <==> MicroEther(wei) < 1000
    ensures AtLeast(BalanceText(wei), DefaultConfig.minimumBalance) <==> MicroEther(wei) >= 1000
  {
    BalanceTextValue(wei);
    DefaultMinimumValue();
  }

  /** When both texts are numbers the sufficiency check and the low flag are opposites; when
      either is NaN (a minimum like `"abc"`) the balance is neither sufficient nor low. */
  lemma ComparisonsAgree(balance: string, minimum: string)
    ensures Decimal.ParseFloat(balance).Some? && Decimal.ParseFloat(minimum).Some? ==>
      (AtLeast(balance, minimum) <==> !Below(balance, minimum))
    ensures Decimal.ParseFloat(balance).None? || Decimal.ParseFloat(minimum).None? ==>
      !AtLeast(balance, minimum) && !Below(balance, minimum)
  {
  }

  /** With no cache a failed reading answers `"0"`, which is below any positive minimum. */
  lemma FailedReadBelowMinimum(status: Status, config: Config, useCache: bool, now: int, error: string, checkedAt: int)
    requires Decimal.ParseFloat(config.minimumBalance).Some? && Decimal.ParseFloat(config.minimumBalance).value > 0.0
    ensures var r := Read(None, status, config, useCache, now, Failure(error), checkedAt);
      r.balance == "0" && Below(r.balance, config.minimumBalance)
  {
    FailedReadFallback(status, config, useCache, now, error, checkedAt);
    ZeroBelow(config.minimumBalance);
  }

  lemma FailedReadFallback(status: Status, config: Config, useCache: bool, now: int, error: string, checkedAt: int)
    ensures Read(None, status, config, useCache, now, Failure(error), checkedAt).balance == "0"
  {
  }

  lemma ZeroBelow(minimum: string)
    requires Decimal.ParseFloat(minimum).Some? && Decimal.ParseFloat(minimum).value > 0.0
    ensures Below("0", minimum)
  {
    ZeroValue();
  }

  lemma ZeroValue()
    ensures Decimal.ParseFloat("0") == Some(0.0)
  {
    assert TrimStart("0") == "0";
    Decimal.DigitRunExact("0", "");
    assert "0" + "" == "0";
    assert "0"[..1] == "0" && "0"[1..] == "";
    assert Decimal.DigitsValue("0") == 0;
    assert Decimal.ExponentPart("") == (0, 0);
  }

  /** The low-balance answer names the balance, the minimum and the wallet to fund. */
  lemma LowBalanceMessageNames(balance: string, minimum: string, walletAddress: string)
    ensures var m := LowBalanceMessage(balance, minimum, walletAddress);
      Contains(m, balance) && Contains(m, minimum) && EndsWith(m, walletAddress)
  {
    var m := LowBalanceMessage(balance, minimum, walletAddress);
    var head := "I need more ETH for transaction fees. Current balance: ";
    var i := |head|;
    var j := i + |balance| + |" ETH (need: "|;
    assert m[i..i + |balance|] == balance;
    assert OccursAt(m, balance, i);
    assert m[j..j + |minimum|] == minimum;
    assert OccursAt(m, minimum, j);
  }

  /** After an alert at `t` the monitor raises none before five minutes have passed, and
      raises one at the first tick after that. */
  lemma AlertThrottle(t: int, now: int)
    ensures AlertDue(Some(t), now) <==> now > t + AlertIntervalMs
  {
  }
}
