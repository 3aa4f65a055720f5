/**
  The newer converter view (src/Components/CurrencyConverter.tsx).

  A keystroke is stored only if it passes the filter; a conversion attempt
  first forgets the previous result, then runs six checks in order and
  stops at the first that fails, setting its message; if none fails it
  shows the formatted converted value with a deadline ten minutes ahead.
  The rate table and the clock are inputs, and the locale formatter
  (`Intl.NumberFormat` with two fraction digits) is the parameter `fmt`.
 */
module Converter {
  import opened Common
  import opened AmountGrammar
  import opened Decimal
  import opened View
  import opened Flags

  /** The checks of `handleConvert`, each of which can stop the conversion. */
  datatype Failure =
    | EmptyAmount
    | InvalidAmount
    | MissingCurrency
    | SameCurrency
    | NoRates
    | TargetUnavailable

  /** Position of a check in `handleConvert`; a smaller rank runs first. */
  function Rank(f: Failure): nat {
    match f
    case EmptyAmount => 0
    case InvalidAmount => 1
    case MissingCurrency => 2
    case SameCurrency => 3
    case NoRates => 4
    case TargetUnavailable => 5
  }

  /** Whether check `f`, taken on its own, rejects the request. */
  predicate Fails(f: Failure, amount: string, from: string, to: string, rates: Rates) {
    match f
    case EmptyAmount => Trim(amount) == []
    case InvalidAmount => !IsValidAmount(amount)
    case MissingCurrency => from == [] || to == []
    case SameCurrency => from == to
    case NoRates => |rates| == 0
    case TargetUnavailable => to !in rates
  }

  const InvalidSuffix := " is not a valid number (use up to 2 decimals)."

  /** The error text each check sets; the malformed-amount text echoes the amount. */
  function Message(f: Failure, amount: string): string {
    match f
    case EmptyAmount => "Please enter an amount."
    case InvalidAmount => amount + InvalidSuffix
    case MissingCurrency => "Please select both currencies."
    case SameCurrency => "Please select two different currencies."
    case NoRates => "Rates are not available. Please try again."
    case TargetUnavailable => "Selected target currency is not available in current rates."
  }

  /** Which check an error text comes from, if any. */
  function Classify(msg: string): Option<Failure> {
    if |InvalidSuffix| <= |msg| && msg[|msg| - |InvalidSuffix|..] == InvalidSuffix then Some(InvalidAmount)
    else if msg == Message(EmptyAmount, []) then Some(EmptyAmount)
    else if msg == Message(MissingCurrency, []) then Some(MissingCurrency)
    else if msg == Message(SameCurrency, []) then Some(SameCurrency)
    else if msg == Message(NoRates, []) then Some(NoRates)
    else if msg == Message(TargetUnavailable, []) then Some(TargetUnavailable)
    else None
  }

  /** The error text is never empty, names its check, and the malformed-amount text starts with the amount. */
  lemma MessageNamesFailure(f: Failure, amount: string)
    ensures Message(f, amount) != []
    ensures Classify(Message(f, amount)) == Some(f)
    ensures f == InvalidAmount ==> Message(f, amount)[..|amount|] == amount
  {
    match f
    case InvalidAmount =>
      var m := Message(f, amount);
      assert m[|m| - |InvalidSuffix|..] == InvalidSuffix;
      assert m[..|amount|] == amount;
    case EmptyAmount => EmptyAmountNamed();
    case MissingCurrency => MissingCurrencyNamed();
    case SameCurrency => SameCurrencyNamed();
    case NoRates => NoRatesNamed();
    case TargetUnavailable => TargetUnavailableNamed();
  }

  // One lemma per fixed text keeps each comparison of literals small.
  lemma EmptyAmountNamed()
    ensures Classify(Message(EmptyAmount, [])) == Some(EmptyAmount)
  {
  }

  lemma MissingCurrencyNamed()
    ensures Classify(Message(MissingCurrency, [])) == Some(MissingCurrency)
  {
  }

  lemma SameCurrencyNamed()
    ensures Classify(Message(SameCurrency, [])) == Some(SameCurrency)
  {
  }

  lemma NoRatesNamed()
    ensures Classify(Message(NoRates, [])) == Some(NoRates)
  {
  }

  lemma TargetUnavailableNamed()
    ensures Classify(Message(TargetUnavailable, [])) == Some(TargetUnavailable)
  {
    var m := Message(TargetUnavailable, []);
    assert m[|m| - 2] != InvalidSuffix[|InvalidSuffix| - 2];
  }

  /** `rates[fromCurrency] ?? 1`: the source's rate, or 1 when the table lacks it. */
  function BaseRate(rates: Rates, from: string): (r: real)
    ensures r > 0.0
    ensures from in rates ==> r == rates[from]
    ensures from !in rates ==> r == 1.0
  {
    if from in rates then rates[from] else 1.0
  }

  /** `x` in `from` expressed in `to`: it is worth the same in the table's base currency. */
  function ConvertedValue(x: real, from: string, to: string, rates: Rates): (v: real)
    requires to in rates
    ensures v * BaseRate(rates, from) == x * rates[to]
    ensures x >= 0.0 ==> v >= 0.0
  {
    x / BaseRate(rates, from) * rates[to]
  }

  /** Converting there and back with the same table gives the original value. */
  lemma ConversionRoundTrip(x: real, from: string, to: string, rates: Rates)
    requires from in rates && to in rates
    ensures ConvertedValue(ConvertedValue(x, from, to, rates), to, from, rates) == x
  {
    var v := ConvertedValue(x, from, to, rates);
    var w := ConvertedValue(v, to, from, rates);
    assert w * rates[to] == v * rates[from];
    assert v * rates[from] == x * rates[to];
  }

  /** What a conversion attempt comes to: the first failing check, or a value and its deadline. */
  datatype Outcome = Err(why: Failure) | Ok(value: real, deadline: int)

  /** The decisions of `handleConvert`, in the order it takes them. */
  function Decide(amount: string, from: string, to: string, rates: Rates, now: nat): (o: Outcome)
    ensures o.Err? ==> Fails(o.why, amount, from, to, rates)
    ensures o.Ok? ==> && IsValidAmount(amount) && to in rates
                      && o.value == ConvertedValue(AmountValue(amount), from, to, rates)
                      && o.deadline == now + TenMinutes
  {
    if Fails(EmptyAmount, amount, from, to, rates) then
      Err(EmptyAmount)
    else if Fails(InvalidAmount, amount, from, to, rates) then
      Err(InvalidAmount)
    else if Fails(MissingCurrency, amount, from, to, rates) then
      Err(MissingCurrency)
    else if Fails(SameCurrency, amount, from, to, rates) then
      Err(SameCurrency)
    else if Fails(NoRates, amount, from, to, rates) then
      Err(NoRates)
    else if Fails(TargetUnavailable, amount, from, to, rates) then
      Err(TargetUnavailable)
    else
      Ok(ConvertedValue(AmountValue(amount), from, to, rates), now + TenMinutes)
  }

  /**
    First failure wins: the reported check fails and no earlier check does,
    and the conversion succeeds exactly when no check fails at all.
   */
  lemma DecideReportsFirstFailure(amount: string, from: string, to: string, rates: Rates, now: nat)
    ensures var o := Decide(amount, from, to, rates, now);
      && (o.Err? ==> forall f :: Fails(f, amount, from, to, rates) ==> Rank(o.why) <= Rank(f))
      && (o.Ok? <==> forall f :: !Fails(f, amount, from, to, rates))
  {
    var o := Decide(amount, from, to, rates, now);
    forall f | Fails(f, amount, from, to, rates)
      ensures o.Err? && Rank(o.why) <= Rank(f)
    {
      match f
      case EmptyAmount =>
      case InvalidAmount =>
      case MissingCurrency =>
      case SameCurrency =>
      case NoRates =>
      case TargetUnavailable =>
    }
  }

  /** With a valid amount and the same currency on both sides the answer is always the same-currency error. */
  lemma SameCurrencyAlwaysRejected(amount: string, code: string, rates: Rates, now: nat)
    requires IsValidAmount(amount) && code != []
    ensures Decide(amount, code, code, rates, now) == Err(SameCurrency)
  {
    ValidIsNotBlank(amount);
    assert !Fails(EmptyAmount, amount, code, code, rates);
    assert !Fails(InvalidAmount, amount, code, code, rates);
    assert !Fails(MissingCurrency, amount, code, code, rates);
  }

  /** The amount field's `onChange`: the typed text is stored only if it passes the filter. */
  function Keystroke(st: State, value: string): (st': State)
    ensures PassesFilter(value) ==> st'.amount == value
    ensures !PassesFilter(value) ==> st' == st
    ensures st'.from == st.from && st'.to == st.to && st'.error == st.error
    ensures st'.result == st.result && st'.deadline == st.deadline
  {
    if PassesFilter(value) then st.(amount := value) else st
  }

  /** The Clear button: empty the amount and the error, and forget the result. */
  function Clear(st: State): (st': State)
    ensures st'.amount == [] && st'.error == []
    ensures st'.result == None && st'.deadline == None
    ensures st'.from == st.from && st'.to == st.to
  {
    ResetResult(st).(amount := [], error := [])
  }

  /** The Retry button's update of the source currency: "USD" becomes "GBP", anything else "USD". */
  function ToggleSource(code: string): string {
    if code == "USD" then "GBP" else "USD"
  }

  /**
    The Retry button: it sets the source currency twice through the same
    toggle, the second time from a zero-delay timer, so that the rates are
    fetched again. Only "GBP" and "USD" survive the round; any other
    source ends as "GBP". Nothing else in the view state changes.
   */
  function Retry(st: State): (st': State)
    ensures st.from == "GBP" || st.from == "USD" ==> st'.from == st.from
    ensures st.from != "GBP" && st.from != "USD" ==> st'.from == "GBP"
    ensures st'.amount == st.amount && st'.to == st.to && st'.error == st.error
    ensures st'.result == st.result && st'.deadline == st.deadline
  {
    assert "GBP" != "USD" by { assert "GBP"[0] != "USD"[0]; }
    var st1 := SelectFrom(st, ToggleSource(st.from));
    SelectFrom(st1, ToggleSource(st1.from))
  }

  /** Retry from a source other than GBP or USD while the target is GBP leaves both sides equal, and a shown result stays. */
  lemma RetryCanEqualizePair(st: State)
    requires st.from != "GBP" && st.from != "USD" && st.to == "GBP"
    ensures Retry(st).from == Retry(st).to
    ensures Retry(st).result == st.result
  {
  }

  /** `handleConvert` on the view state, with the loaded table, the clock and the formatter. */
  function Convert(st: State, rates: Rates, now: nat, fmt: real -> string): (st': State)
    ensures st'.amount == st.amount && st'.from == st.from && st'.to == st.to
    ensures st'.result.Some? <==> forall f :: !Fails(f, st.amount, st.from, st.to, rates)
    ensures st'.result.Some? <==> st'.deadline.Some?
    ensures st'.result.Some? <==> st'.error == []
    ensures st'.result.Some? ==>
      && IsValidAmount(st.amount) && st.to in rates
      && st'.result == Some(fmt(ConvertedValue(AmountValue(st.amount), st.from, st.to, rates)))
      && st'.deadline == Some(now + TenMinutes)
    ensures st'.result.None? ==>
      && st'.error == Message(Decide(st.amount, st.from, st.to, rates, now).why, st.amount)
      && Classify(st'.error) == Some(Decide(st.amount, st.from, st.to, rates, now).why)
  {
    var o := Decide(st.amount, st.from, st.to, rates, now);
    DecideReportsFirstFailure(st.amount, st.from, st.to, rates, now);
    if o.Err? then
      MessageNamesFailure(o.why, st.amount);
      Show(st, o, fmt)
    else
      Show(st, o, fmt)
  }

  /** The state after a decision: the message of a failed check, or the formatted value and its deadline. */
  function Show(st: State, o: Outcome, fmt: real -> string): (st': State)
    ensures st'.amount == st.amount && st'.from == st.from && st'.to == st.to
    ensures o.Err? ==> st'.result == None && st'.deadline == None && st'.error == Message(o.why, st.amount)
    ensures o.Ok? ==> st'.result == Some(fmt(o.value)) && st'.deadline == Some(o.deadline) && st'.error == []
  {
    match o
    case Err(why) => ResetResult(st).(error := Message(why, st.amount))
    case Ok(value, deadline) => ResetResult(st).(result := Some(fmt(value)), deadline := Some(deadline), error := [])
  }

  /** A user action or the countdown running out. */
  datatype Event =
    | Typed(value: string)
    | FromPicked(code: string)
    | ToPicked(code: string)
    | Submitted(rates: Rates, now: nat)
    | SwapClicked
    | ClearClicked
    | RetryClicked
    | TimerFinished

  function Step(st: State, e: Event, fmt: real -> string): State {
    match e
    case Typed(value) => Keystroke(st, value)
    case FromPicked(code) => SelectFrom(st, code)
    case ToPicked(code) => SelectTo(st, code)
    case Submitted(rates, now) => Convert(st, rates, now, fmt)
    case SwapClicked => Swap(st)
    case ClearClicked => Clear(st)
    case RetryClicked => Retry(st)
    case TimerFinished => TimerFinish(st)
  }

  function Run(st: State, events: seq<Event>, fmt: real -> string): State
    decreases |events|
  {
    if events == [] then st else Run(Step(st, events[0], fmt), events[1..], fmt)
  }

  /**
    What holds in every state the view can reach: the amount passes the
    filter, a result is shown exactly when a countdown is set, a shown
    result has no error beside it, and a set deadline is non-zero, so the
    countdown is mounted.
   */
  predicate Inv(st: State) {
    && PassesFilter(st.amount)
    && (st.result.Some? <==> st.deadline.Some?)
    && (st.result.Some? ==> st.error == [])
    && (st.deadline.Some? ==> st.deadline.value > 0)
  }

  lemma StepKeepsInv(st: State, e: Event, fmt: real -> string)
    requires Inv(st)
    ensures Inv(Step(st, e, fmt))
  {
  }

  lemma {:induction false} RunKeepsInv(st: State, events: seq<Event>, fmt: real -> string)
    requires Inv(st)
    ensures Inv(Run(st, events, fmt))
    decreases |events|
  {
    if events != [] {
      StepKeepsInv(st, events[0], fmt);
      RunKeepsInv(Step(st, events[0], fmt), events[1..], fmt);
    }
  }

  /** Every state reachable from a fresh view satisfies the invariant. */
  lemma ReachableInv(events: seq<Event>, fmt: real -> string)
    ensures Inv(Run(Initial, events, fmt))
  {
    assert PassesFilter(Initial.amount);
    RunKeepsInv(Initial, events, fmt);
  }

  /**
    In a reachable state the empty-amount check fails exactly for the empty
    field, and the malformed-amount message can only be about a partial
    amount: a bare trailing point or a leading point.
   */
  lemma ReachableFailures(st: State, rates: Rates, now: nat)
    requires Inv(st)
    ensures Fails(EmptyAmount, st.amount, st.from, st.to, rates) <==> st.amount == []
    ensures Decide(st.amount, st.from, st.to, rates, now) == Err(InvalidAmount) ==>
      || (st.amount[|st.amount| - 1] == '.' && AllDigits(st.amount[..|st.amount| - 1]))
      || (st.amount[0] == '.' && 2 <= |st.amount| <= 3 && AllDigits(st.amount[1..]))
  {
    FilteredAmountFailures(st.amount, st.from, st.to, rates, now);
  }

  /** `ReachableFailures` for any amount the keystroke filter lets through. */
  lemma FilteredAmountFailures(amount: string, from: string, to: string, rates: Rates, now: nat)
    requires PassesFilter(amount)
    ensures Fails(EmptyAmount, amount, from, to, rates) <==> amount == []
    ensures Decide(amount, from, to, rates, now) == Err(InvalidAmount) ==>
      || (amount[|amount| - 1] == '.' && AllDigits(amount[..|amount| - 1]))
      || (amount[0] == '.' && 2 <= |amount| <= 3 && AllDigits(amount[1..]))
  {
    FilteredBlankIsEmpty(amount);
    InvalidAmountIsPartial(amount, from, to, rates, now);
  }

  lemma InvalidAmountIsPartial(amount: string, from: string, to: string, rates: Rates, now: nat)
    requires PassesFilter(amount)
    ensures Decide(amount, from, to, rates, now) == Err(InvalidAmount) ==>
      && amount != []
      && (|| (amount[|amount| - 1] == '.' && AllDigits(amount[..|amount| - 1]))
          || (amount[0] == '.' && 2 <= |amount| <= 3 && AllDigits(amount[1..])))
  {
    var o := Decide(amount, from, to, rates, now);
    if o == Err(InvalidAmount) {
      DecideReportsFirstFailure(amount, from, to, rates, now);
      assert !Fails(EmptyAmount, amount, from, to, rates);
      assert Trim(amount) != [];
      FilterGap(amount);
    }
  }

  /** A conversion after Clear always asks for an amount. */
  lemma ClearThenConvert(st: State, rates: Rates, now: nat, fmt: real -> string)
    ensures Convert(Clear(st), rates, now, fmt).error == Message(EmptyAmount, [])
    ensures Convert(Clear(st), rates, now, fmt).result == None
  {
  }

  /** A successful result stays on screen exactly until ten minutes have passed. */
  lemma ResultLivesTenMinutes(st: State, rates: Rates, now: nat, fmt: real -> string, t: int)
    requires Convert(st, rates, now, fmt).result.Some?
    ensures Tick(Convert(st, rates, now, fmt), t).result.Some? <==> t < now + TenMinutes
  {
  }

  /** Typing the characters of `s` one at a time at the end of the field. */
  function TypeText(st: State, s: string): State
    decreases |s|
  {
    if s == [] then st else TypeText(Keystroke(st, st.amount + [s[0]]), s[1..])
  }

  /** If the finished text passes the filter, every keystroke on the way is accepted. */
  lemma {:induction false} TypingReachesText(st: State, s: string)
    requires PassesFilter(st.amount + s)
    ensures TypeText(st, s) == st.(amount := st.amount + s)
    decreases |s|
  {
    if s != [] {
      var t := st.amount + s;
      FilterPrefixClosed(t, |st.amount| + 1);
      assert t[..|st.amount| + 1] == st.amount + [s[0]];
      var st1 := Keystroke(st, st.amount + [s[0]]);
      assert st1.amount + s[1..] == t;
      TypingReachesText(st1, s[1..]);
    }
  }

  /** Every valid amount can be typed into a cleared field, character by character. */
  lemma ValidAmountCanBeTyped(st: State, s: string)
    requires IsValidAmount(s)
    ensures TypeText(Clear(st), s).amount == s
  {
    ValidPassesFilter(s);
    assert Clear(st).amount + s == s;
    TypingReachesText(Clear(st), s);
  }

  /** "100.0.0" cannot be typed: the keystroke is refused and the state stays as it was. */
  lemma DoublePointRefused(st: State)
    ensures Keystroke(st, "100.0.0") == st
  {
    SpanUnique("100.0.0", IsDigit, 3);
  }

  /** With rates {GBP: 1, USD: 1.25}, 10 GBP is shown as the formatted 12.5 USD for ten minutes. */
  lemma ConvertsTenPounds(now: nat, fmt: real -> string)
    ensures var st := Convert(Keystroke(Initial, "10"), map["GBP" := 1.0, "USD" := 1.25], now, fmt);
      && st.result == Some(fmt(12.5))
      && st.deadline == Some(now + 600000)
      && st.error == []
  {
    ValidPassesFilter("10");
    var st1 := Keystroke(Initial, "10");
    assert st1.amount == "10" && st1.from == "GBP" && st1.to == "USD";
    TenPoundsDecision(now);
  }

  lemma TenPoundsDecision(now: nat)
    ensures Decide("10", "GBP", "USD", map["GBP" := 1.0, "USD" := 1.25], now) == Ok(12.5, now + TenMinutes)
  {
    var rates: Rates := map["GBP" := 1.0, "USD" := 1.25];
    TenIsValid();
    ValidIsNotBlank("10");
    assert "GBP" != "USD" by { assert "GBP"[0] != "USD"[0]; }
    assert "USD" in rates && "GBP" in rates && rates["GBP"] == 1.0 && rates["USD"] == 1.25;
    var v := ConvertedValue(10.0, "GBP", "USD", rates);
    assert v * 1.0 == 10.0 * 1.25;
  }

  /**
    `getFlagUrl`: the flag of the code's first two characters, lower-cased;
    the optional chaining `?.` sends an absent code, like an empty one, to
    the placeholder.
   */
  function GetFlagUrl(code: Option<string>): (url: string)
    ensures url == Placeholder <==> code.None? || code.value == []
    ensures code.Some? && code.value != [] ==>
      var n := if |code.value| < 2 then |code.value| else 2;
      && |url| == |FlagBase| + n + |FlagExt|
      && url[..|FlagBase|] == FlagBase
      && url[|FlagBase| + n..] == FlagExt
      && forall i :: 0 <= i < n ==> url[|FlagBase| + i] == LowerAscii(code.value[i])
  {
    if code.None? then
      Placeholder
    else
      var cc := CountryCode(code.value);
      FlagUrlInjective(cc, []);
      FlagUrl(cc)
  }

  /** Two codes get the same flag exactly when their lower-cased first two characters agree. */
  lemma SameFlagIffSameCountry(a: string, b: string)
    ensures GetFlagUrl(Some(a)) == GetFlagUrl(Some(b)) <==> CountryCode(a) == CountryCode(b)
  {
    FlagUrlInjective(CountryCode(a), CountryCode(b));
  }
}
