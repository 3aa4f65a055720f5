/**
  The view state both converter versions keep, and the handlers whose
  effect on that state is the same in both versions: picking a currency,
  swapping the pair, and the countdown running out.
 */
module View {
  import opened Common

  /**
    A loaded rate table: currency code to rate against the table's base
    currency. Rates from the feed are positive numbers.
   */
  type Rates = m: map<string, real> | forall k :: k in m ==> m[k] > 0.0

  /** Validity window of a result, in milliseconds: 10 * 60 * 1000. */
  const TenMinutes: nat := 10 * 60 * 1000

  /** `{amount, fromCurrency, toCurrency, result, deadline, error}`; `None` is `null`. */
  datatype State = State(
    amount: string,
    from: string,
    to: string,
    result: Option<string>,
    deadline: Option<int>,
    error: string)

  /** The state a freshly mounted view starts in. */
  const Initial := State("", "GBP", "USD", None, None, "")

  /** `resetResult`: forget the shown result and its countdown. */
  function ResetResult(st: State): (st': State)
    ensures st'.result == None && st'.deadline == None
    ensures st'.amount == st.amount && st'.from == st.from && st'.to == st.to
    ensures st'.error == st.error
  {
    st.(result := None, deadline := None)
  }

  /** The source-currency dropdown's `onChange`. */
  function SelectFrom(st: State, code: string): (st': State)
    ensures st'.from == code
    ensures st'.amount == st.amount && st'.to == st.to && st'.error == st.error
    ensures st'.result == st.result && st'.deadline == st.deadline
  {
    st.(from := code)
  }

  /** The target-currency dropdown's `onChange`. */
  function SelectTo(st: State, code: string): (st': State)
    ensures st'.to == code
    ensures st'.amount == st.amount && st'.from == st.from && st'.error == st.error
    ensures st'.result == st.result && st'.deadline == st.deadline
  {
    st.(to := code)
  }

  /** `handleSwitch`: exchange the two currencies and reset the result. */
  function Swap(st: State): (st': State)
    ensures st'.from == st.to && st'.to == st.from
    ensures st'.result == None && st'.deadline == None
    ensures st'.amount == st.amount && st'.error == st.error
  {
    ResetResult(st).(from := st.to, to := st.from)
  }

  /** The countdown's `onFinish`: the result has expired. */
  function TimerFinish(st: State): (st': State)
    ensures st'.result == None && st'.deadline == None
    ensures st'.amount == st.amount && st'.from == st.from && st'.to == st.to
    ensures st'.error == st.error
  {
    ResetResult(st)
  }

  /**
    The countdown is only mounted while `deadline` is truthy (a non-zero
    number), and it finishes once the clock has reached the deadline.
   */
  predicate TimerDue(st: State, now: int) {
    st.deadline.Some? && st.deadline.value != 0 && now >= st.deadline.value
  }

  /** The view at time `now`: the countdown fires if it is due, otherwise nothing happens. */
  function Tick(st: State, now: int): (st': State)
    ensures TimerDue(st, now) ==> st'.result == None && st'.deadline == None
    ensures !TimerDue(st, now) ==> st' == st
    ensures st'.amount == st.amount && st'.from == st.from && st'.to == st.to
    ensures st'.error == st.error
  {
    if TimerDue(st, now) then TimerFinish(st) else st
  }

  /** Swapping twice restores the pair; only the result and its countdown are gone. */
  lemma SwapTwice(st: State)
    ensures Swap(Swap(st)) == ResetResult(st)
    ensures Swap(Swap(st)).from == st.from && Swap(Swap(st)).to == st.to
  {
  }

  /** Swap, expiry and reset all end with nothing shown, and repeating them changes nothing more. */
  lemma ResetsAreIdempotent(st: State)
    ensures TimerFinish(TimerFinish(st)) == TimerFinish(st)
    ensures TimerFinish(Swap(st)) == Swap(st)
    ensures Swap(TimerFinish(st)) == Swap(st)
  {
  }

  /** Once the countdown has fired, no later tick changes anything. */
  lemma TickAfterExpiry(st: State, t1: int, t2: int)
    requires TimerDue(st, t1)
    ensures Tick(Tick(st, t1), t2) == Tick(st, t1)
  {
  }
}
