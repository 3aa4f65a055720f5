/**
  The older converter view (src/CurrencyConverter.tsx).

  It stores whatever is typed, and its conversion has a single check, the
  amount grammar: a malformed amount sets the error and drops the result
  but leaves the countdown's deadline alone; a valid amount always
  converts, with `amount / rates[from] * rates[to]` written by
  `toFixed(2)`. A currency missing from the table reads as `undefined`,
  so the arithmetic yields NaN, which `toFixed` writes as "NaN".
 */
module LegacyConverter {
  import opened Common
  import opened AmountGrammar
  import opened Decimal
  import opened View
  import opened Flags

  /** The JavaScript numbers the conversion can produce: a finite value or NaN. */
  datatype JsNumber = Finite(val: real) | NaN

  /** `parseFloat(amount) / rates[fromCurrency] * rates[toCurrency]`. */
  function LegacyValue(amount: string, from: string, to: string, rates: Rates): (n: JsNumber)
    requires IsValidAmount(amount)
    ensures n.Finite? <==> from in rates && to in rates
    ensures n.Finite? ==> n.val * rates[from] == AmountValue(amount) * rates[to] && n.val >= 0.0
  {
    if from in rates && to in rates then Finite(AmountValue(amount) / rates[from] * rates[to]) else NaN
  }

  /** Number.prototype.toFixed(2). */
  function ToFixed(n: JsNumber): (s: string)
    ensures n.NaN? ==> s == "NaN"
    ensures n.Finite? && n.val >= 0.0 ==> IsValidAmount(s) && TwoDecimalForm(s) && -0.005 < AmountValue(s) - n.val <= 0.005
  {
    match n
    case NaN => "NaN"
    case Finite(x) => Fixed2(x)
  }

  const InvalidSuffix := " is not a valid number"

  /** The amount field's `onChange`: any text is stored as typed. */
  function Keystroke(st: State, value: string): (st': State)
    ensures st'.amount == value
    ensures st'.from == st.from && st'.to == st.to && st'.error == st.error
    ensures st'.result == st.result && st'.deadline == st.deadline
  {
    st.(amount := value)
  }

  /** `handleConvert`, with the loaded table and the clock. */
  function Convert(st: State, rates: Rates, now: nat): (st': State)
    ensures st'.amount == st.amount && st'.from == st.from && st'.to == st.to
    ensures !IsValidAmount(st.amount) ==>
      && st'.error == st.amount + InvalidSuffix
      && st'.result == None
      && st'.deadline == st.deadline
    ensures IsValidAmount(st.amount) ==>
      && st'.error == []
      && st'.result == Some(ToFixed(LegacyValue(st.amount, st.from, st.to, rates)))
      && st'.deadline == Some(now + TenMinutes)
  {
    if !IsValidAmount(st.amount) then
      st.(error := st.amount + InvalidSuffix, result := None)
    else
      var value := LegacyValue(st.amount, st.from, st.to, rates);
      st.(error := [], result := Some(ToFixed(value)), deadline := Some(now + TenMinutes))
  }

  /** Without the newer checks, the same currency on both sides converts to the amount itself. */
  lemma SameCurrencyConverts(st: State, rates: Rates, now: nat)
    requires IsValidAmount(st.amount) && st.from == st.to && st.from in rates
    ensures Convert(st, rates, now).error == []
    ensures AmountValue(Convert(st, rates, now).result.value) == AmountValue(st.amount)
  {
    var a := AmountValue(st.amount);
    var r := rates[st.from];
    assert a / r * r == a;
    assert LegacyValue(st.amount, st.from, st.to, rates) == Finite(a);
    Fixed2OfAmountIsExact(st.amount);
  }

  /** A user action or the countdown running out. */
  datatype Event =
    | Typed(value: string)
    | FromPicked(code: string)
    | ToPicked(code: string)
    | Submitted(rates: Rates, now: nat)
    | SwapClicked
    | CountdownFinished

  function Step(st: State, e: Event): State {
    match e
    case Typed(value) => Keystroke(st, value)
    case FromPicked(code) => SelectFrom(st, code)
    case ToPicked(code) => SelectTo(st, code)
    case Submitted(rates, now) => Convert(st, rates, now)
    case SwapClicked => Swap(st)
    case CountdownFinished => TimerFinish(st)
  }

  function Run(st: State, events: seq<Event>): State
    decreases |events|
  {
    if events == [] then st else Run(Step(st, events[0]), events[1..])
  }

  /**
    What holds in every reachable state: a shown result has a non-zero
    deadline (so its countdown is mounted) and no error beside it. Unlike
    the newer version, a deadline can outlive its result.
   */
  predicate Inv(st: State) {
    && (st.result.Some? ==> st.deadline.Some? && st.error == [])
    && (st.deadline.Some? ==> st.deadline.value > 0)
  }

  lemma {:induction false} RunKeepsInv(st: State, events: seq<Event>)
    requires Inv(st)
    ensures Inv(Run(st, events))
    decreases |events|
  {
    if events != [] {
      var st1 := Step(st, events[0]);
      assert Inv(st1);
      RunKeepsInv(st1, events[1..]);
    }
  }

  /**
    A malformed amount after a success leaves the old countdown running
    with no result beside it.
   */
  lemma StaleCountdown(rates: Rates, now: nat)
    ensures var st := Run(Initial, [Typed("10"), Submitted(rates, now), Typed("x"), Submitted(rates, now + 1)]);
      && st.result == None
      && st.deadline == Some(now + TenMinutes)
      && st.error == "x" + InvalidSuffix
  {
    SpanUnique("10", IsDigit, 2);
    SpanUnique("x", IsDigit, 0);
    assert IsValidAmount("10") && !IsValidAmount("x");
    var events := [Typed("10"), Submitted(rates, now), Typed("x"), Submitted(rates, now + 1)];
    var st2 := Convert(Keystroke(Initial, "10"), rates, now);
    assert st2.deadline == Some(now + TenMinutes);
    var st4 := Convert(Keystroke(st2, "x"), rates, now + 1);
    assert st4.result == None && st4.deadline == Some(now + TenMinutes);
    assert st4.error == "x" + InvalidSuffix;
    RunFour(Initial, events);
    assert events[0] == Typed("10") && events[1] == Submitted(rates, now);
    assert events[2] == Typed("x") && events[3] == Submitted(rates, now + 1);
  }

  lemma RunFour(st: State, events: seq<Event>)
    requires |events| == 4
    ensures Run(st, events) == Step(Step(Step(Step(st, events[0]), events[1]), events[2]), events[3])
  {
    var st1 := Step(st, events[0]);
    var st2 := Step(st1, events[1]);
    var st3 := Step(st2, events[2]);
    var st4 := Step(st3, events[3]);
    var e1 := events[1..];
    var e2 := e1[1..];
    var e3 := e2[1..];
    assert e1[0] == events[1] && e2[0] == events[2] && e3[0] == events[3];
    assert e3[1..] == [];
    assert Run(st3, e3) == Run(st4, []) == st4;
    assert Run(st2, e2) == Run(st3, e3);
    assert Run(st1, e1) == Run(st2, e2);
  }

  /** With rates {GBP: 1, USD: 1.25}, 10 GBP converts to "12.50" USD. */
  lemma ConvertsTenPounds(now: nat)
    ensures var st := Convert(Keystroke(Initial, "10"), map["GBP" := 1.0, "USD" := 1.25], now);
      && st.result == Some("12.50")
      && st.deadline == Some(now + 600000)
      && st.error == []
  {
    var rates: Rates := map["GBP" := 1.0, "USD" := 1.25];
    TenIsValid();
    assert "USD" in rates && "GBP" in rates && rates["GBP"] == 1.0 && rates["USD"] == 1.25;
    var v := LegacyValue("10", "GBP", "USD", rates);
    assert v.val * 1.0 == 10.0 * 1.25;
    assert v == Finite(12.5);
    TwelveFifty();
  }

  /** "100.0.0" is stored as typed and rejected on conversion, echoing the text. */
  lemma RejectsDoublePoint(rates: Rates, now: nat)
    ensures Convert(Keystroke(Initial, "100.0.0"), rates, now).error == "100.0.0" + InvalidSuffix
    ensures Convert(Keystroke(Initial, "100.0.0"), rates, now).result == None
  {
    SpanUnique("100.0.0", IsDigit, 3);
    assert !IsValidAmount("100.0.0");
  }

  /** `getFlagUrl`: the flag of the code's first two characters, lower-cased; an empty code gets the placeholder. */
  function GetFlagUrl(code: string): (url: string)
    ensures url == Placeholder <==> code == []
    ensures code != [] ==>
      var n := if |code| < 2 then |code| else 2;
      && |url| == |FlagBase| + n + |FlagExt|
      && url[..|FlagBase|] == FlagBase
      && url[|FlagBase| + n..] == FlagExt
      && forall i :: 0 <= i < n ==> url[|FlagBase| + i] == LowerAscii(code[i])
  {
    var cc := CountryCode(code);
    FlagUrlInjective(cc, []);
    FlagUrl(cc)
  }
}
