# Currency converter view — a Dafny model

This project models the non-visual logic of a browser currency-converter widget. It exists in two versions, and each has its own module because their rules differ:

- **Converter** models the newer view, `src/Components/CurrencyConverter.tsx`.
- **LegacyConverter** models the older view, `src/CurrencyConverter.tsx`.

Both versions share the logic below, which lives in its own modules:

- **AmountGrammar** holds the amount grammar `validateAmount` (`^\d+(\.\d{1,2})?$`). It also holds the newer version's keystroke filter (`^\d*\.?\d{0,2}$`). Each is written as a scan over the leading run of digits. Each is proved equal to the concatenation meaning of its regular expression. Lemmas relate the two languages.
- **Decimal** covers reading a valid amount. The model reads it as an exact `real`, which is always a whole number of hundredths. It also covers `toFixed(2)`, applied to an exact real.
- **Flags** builds the flagcdn.com image address from a currency code.
- **View** holds the view state record `{amount, from, to, result, deadline, error}`. It also holds the handlers whose effect on the state is the same in both versions: picking a currency, swap (`handleSwitch`), and the countdown's `onFinish`. The older file has its swap at lines 55-60 and its countdown at lines 151-154. Its swap sets `result` and `deadline` directly instead of calling `resetResult`, with the same effect.
- **Common** holds character classes, `trim` and ASCII lower-casing.

The modelling choices are:

- A conversion attempt is a pure function of the state, the loaded rate table (`Rates`) and the clock (`now`, milliseconds).
- The newer version formats with `Intl.NumberFormat`, which depends on the locale. It is the parameter `fmt: real -> string`.
- The older version formats with `toFixed(2)`, which is the concrete `Decimal.Fixed2`.
- In the older version, a currency missing from the table yields NaN. This is modelled as `JsNumber.NaN`, formatted as "NaN".

## Behaviour worth noting

- **Editing does not clear a shown result in the newer view.** The amount `onChange` (lines 210-213) and the dropdown `onChange` handlers (lines 233, 269) do not call `resetResult`. A shown result therefore stays beside an edited amount until the next Convert, Swap, Clear or expiry. `Converter.Keystroke`, `View.SelectFrom` and `View.SelectTo` state this.
- **The keystroke filter admits more than prefixes of valid amounts.** It also admits a leading point, as in ".5". No valid amount starts with a point. See `AmountGrammar.PointFirstNeverValid` and `AmountGrammar.FilterGap`.
- **The older view can leave a countdown without a result.** On a malformed amount it clears `result` but keeps `deadline`, so the countdown of an earlier success keeps running with no result beside it. See `LegacyConverter.StaleCountdown`. The newer view calls `resetResult` first.
- **Retry can change the source currency.** The Retry button (lines 176-177) toggles the source twice, which restores only "GBP" and "USD". Any other source ends as "GBP", which can equal the target. See `Converter.Retry` and `Converter.RetryCanEqualizePair`. It is one more event of the newer view, so `Converter.RunKeepsInv` and `Converter.ReachableInv` cover it.
- **The newer amount check has two steps.** It first tests whether the trimmed amount is empty ("Please enter an amount."), and only then tests the grammar (lines 79-86).

## Model

| member | source | states |
|---|---|---|
| Common.Trim | src/Components/CurrencyConverter.tsx:79 | `amount.trim()` is empty exactly when every character is ECMAScript whitespace. Otherwise it starts and ends with a non-space, and a text with no space at either end is unchanged. |
| Common.TrimCutsOuterSpace | src/Components/CurrencyConverter.tsx:79 | The trimmed text is the input with a run of whitespace removed from each end. With `Trim`'s contract this is exactly what `trim` returns. |
| AmountGrammar.ValidAmountIsRegex | src/Components/CurrencyConverter.tsx:72 | `validateAmount` (the predicate `IsValidAmount`) accepts exactly the texts that split into one or more digits, then either nothing or a point and one or two digits. |
| AmountGrammar.FilterIsRegex | src/Components/CurrencyConverter.tsx:210-213 | The keystroke filter (the predicate `PassesFilter`) accepts exactly the texts that split into any digits, an optional point, and at most two digits. |
| AmountGrammar.ValidPassesFilter | src/Components/CurrencyConverter.tsx:210-213 | Every text `validateAmount` accepts also passes the keystroke filter. |
| AmountGrammar.FilterGap | src/Components/CurrencyConverter.tsx:210-213 | A text passes the filter but fails validation exactly when it is empty, is digits followed by a bare point (including "."), or is a point followed by one or two digits. |
| AmountGrammar.FilterPrefixClosed | src/Components/CurrencyConverter.tsx:210-213 | Every prefix of a text that passes the filter also passes it. |
| AmountGrammar.ValidPrefixesPassFilter | src/Components/CurrencyConverter.tsx:210-213 | Every prefix of a valid amount passes the filter. |
| AmountGrammar.PointFirstNeverValid | src/Components/CurrencyConverter.tsx:72 | No text that starts with a point is a valid amount. |
| AmountGrammar.ValidIsNotBlank | src/Components/CurrencyConverter.tsx:79-86 | A valid amount never trims to empty, so the empty-amount check never hides a valid amount. |
| AmountGrammar.FilteredBlankIsEmpty | src/Components/CurrencyConverter.tsx:79-82 | For a text that passes the filter, trimming to empty is the same as being empty. |
| Decimal.AmountValue | src/Components/CurrencyConverter.tsx:109 | `parseFloat` of a valid amount is a non-negative whole number of hundredths. |
| Decimal.AmountValueOfSplit | src/Components/CurrencyConverter.tsx:72 | For an amount split as the regular expression splits it, the value is the whole digits plus the fraction digits as tenths (one digit) or hundredths (two digits). |
| Decimal.CentsText | src/CurrencyConverter.tsx:51 | Writing a count of hundredths gives a valid amount with exactly two digits after the point and no leading zero unless the whole part is 0. It reads back to the same count. |
| Decimal.RoundCents | src/CurrencyConverter.tsx:51 | The chosen count of hundredths is within half a hundredth of the value, and a tie goes up. |
| Decimal.Fixed2 | src/CurrencyConverter.tsx:51 | `toFixed(2)` of a non-negative value is a valid amount with exactly two decimals and no leading zero (other than "0."), within 0.005 of the value. A negative value gives "-" followed by the same for its magnitude. |
| Decimal.Fixed2OfAmountIsExact | src/CurrencyConverter.tsx:49-51 | Formatting the value of a valid amount with two decimals reads back to exactly that value. |
| Flags.CountryCode | src/Components/CurrencyConverter.tsx:128 | The country part is the code's first (at most) two characters, lower-cased. |
| Flags.FlagUrlInjective | src/Components/CurrencyConverter.tsx:129-131 | `FlagUrl` is the placeholder for an empty country code and the flagcdn address otherwise. Different country codes give different addresses, and no flag address equals the placeholder. |
| View.ResetResult | src/Components/CurrencyConverter.tsx:74 | `resetResult` nulls the result and the deadline and leaves the other fields as they were. |
| View.SelectFrom | src/Components/CurrencyConverter.tsx:233 | Picking a source currency changes only `from`. A shown result stays. |
| View.SelectTo | src/Components/CurrencyConverter.tsx:269 | Picking a target currency changes only `to`. A shown result stays. |
| View.Swap | src/Components/CurrencyConverter.tsx:121-125 | Swap exchanges `from` and `to` and nulls the result and the deadline. The amount and the error are unchanged. |
| View.TimerFinish | src/Components/CurrencyConverter.tsx:317-321 | Expiry nulls the result and the deadline and changes nothing else. |
| View.Tick | src/Components/CurrencyConverter.tsx:301-321 | The countdown is mounted only while the deadline is a non-zero number. It fires once the clock reaches the deadline. Otherwise the state is untouched. |
| View.SwapTwice | src/Components/CurrencyConverter.tsx:121-125 | Swapping twice restores the currency pair. Only the result and the countdown are lost. |
| View.ResetsAreIdempotent | src/Components/CurrencyConverter.tsx:317-321 | Expiring an expired or swapped state changes nothing. Swap after expiry is the same as swap. |
| View.TickAfterExpiry | src/Components/CurrencyConverter.tsx:317-321 | Once the countdown has fired, no later tick changes the state. |
| Converter.MessageNamesFailure | src/Components/CurrencyConverter.tsx:79-107 | `Message` holds the error text of each check. Every error text is non-empty and names exactly the check that set it. The malformed-amount text begins with the amount. |
| Converter.BaseRate | src/Components/CurrencyConverter.tsx:102 | The source rate is the table's rate for the source currency when the table has it, and 1 otherwise. It is always positive. |
| Converter.ConvertedValue | src/Components/CurrencyConverter.tsx:109 | The converted value is worth the same as the amount in the table's base currency. |
| Converter.ConversionRoundTrip | src/Components/CurrencyConverter.tsx:102-109 | Converting from A to B and back with the same table returns the original value exactly. |
| Converter.Decide | src/Components/CurrencyConverter.tsx:79-117 | A reported failure is one of the checks that fail. Success needs a valid amount and a target in the table, and carries the converted value and `now + 600000`. |
| Converter.DecideReportsFirstFailure | src/Components/CurrencyConverter.tsx:79-107 | `Fails` states when each of the six checks fails. The checks run in source order and the first failing one wins: no failing check ranks before the reported one. Success happens exactly when no check fails. |
| Converter.SameCurrencyAlwaysRejected | src/Components/CurrencyConverter.tsx:91-94 | With a valid amount and the same non-empty currency on both sides, the outcome is the two-different-currencies error, whatever the rate table. |
| Converter.Keystroke | src/Components/CurrencyConverter.tsx:210-213 | A keystroke stores the typed text exactly when it passes the filter, and otherwise leaves the state unchanged. It never touches the currencies, result, deadline or error. |
| Converter.Retry | src/Components/CurrencyConverter.tsx:176-177 | Retry applies the toggle "USD" to "GBP", anything else to "USD", twice to the source currency. A source of "GBP" or "USD" comes back unchanged, and any other source ends as "GBP". Nothing else changes, and a shown result stays. |
| Converter.RetryCanEqualizePair | src/Components/CurrencyConverter.tsx:176-177 | From a source other than GBP or USD with target GBP, Retry leaves both sides equal and keeps a shown result. |
| Converter.Clear | src/Components/CurrencyConverter.tsx:334-338 | Clear empties the amount and the error and nulls the result and the deadline. It keeps both currencies. |
| Converter.Convert | src/Components/CurrencyConverter.tsx:76-119 | Every attempt leaves the amount and currencies alone. A result appears exactly when no check fails, and then the deadline is `now + 600000`, the error is empty and the result is the formatted converted value. A failed attempt leaves result and deadline null and sets the message of the first failing check, which for a malformed amount repeats the amount. |
| Converter.Show | src/Components/CurrencyConverter.tsx:84-117 | After a failed check, the result and the deadline are null and the error is that check's message. After success, the result is the formatted value, the deadline is the decision's, and the error is empty. The amount and the currencies are kept. |
| Converter.StepKeepsInv | src/Components/CurrencyConverter.tsx:74-125 | Every handler preserves the invariant: the amount passes the filter, a result is shown exactly when a deadline is set, a shown result has no error, and a deadline is non-zero. |
| Converter.RunKeepsInv | src/Components/CurrencyConverter.tsx:74-125 | Any sequence of user actions and expiries preserves the invariant. |
| Converter.ReachableInv | src/Components/CurrencyConverter.tsx:20-25 | Every state reachable from the initial state satisfies the invariant. |
| Converter.ReachableFailures | src/Components/CurrencyConverter.tsx:79-86 | In a reachable state, "Please enter an amount." happens exactly for the empty field. A malformed-amount error can only concern a bare trailing point or a leading point. |
| Converter.ClearThenConvert | src/Components/CurrencyConverter.tsx:334-338 | Converting right after Clear always asks for an amount and shows no result. |
| Converter.ResultLivesTenMinutes | src/Components/CurrencyConverter.tsx:115-117 | A successful result is still shown at time `t` exactly when `t` is less than ten minutes after the conversion. |
| Converter.TypingReachesText | src/Components/CurrencyConverter.tsx:210-213 | Typing a text character by character stores all of it when the finished text passes the filter. Nothing else changes. |
| Converter.ValidAmountCanBeTyped | src/Components/CurrencyConverter.tsx:210-213 | Every valid amount can be typed into a cleared field. |
| Converter.DoublePointRefused | src/Components/CurrencyConverter.tsx:212 | Typing "100.0.0" is refused and the state stays as it was. |
| Converter.ConvertsTenPounds | src/Components/CurrencyConverter.tsx:102-117 | With rates {GBP: 1, USD: 1.25}, 10 GBP to USD shows the formatted 12.5, no error, and a deadline ten minutes ahead. |
| Converter.GetFlagUrl | src/Components/CurrencyConverter.tsx:127-132 | An absent or empty code gives the placeholder. Any other code gives the flagcdn address for its lower-cased first two characters. |
| Converter.SameFlagIffSameCountry | src/Components/CurrencyConverter.tsx:127-132 | Two codes get the same flag exactly when their lower-cased first two characters agree. |
| LegacyConverter.LegacyValue | src/CurrencyConverter.tsx:49-50 | The value is finite exactly when both currencies are in the table. It is then non-negative and worth the same as the amount in the base currency. Otherwise it is NaN. |
| LegacyConverter.ToFixed | src/CurrencyConverter.tsx:51 | NaN is written "NaN". A non-negative value is written as a valid amount with exactly two decimals, within 0.005 of it. |
| LegacyConverter.Keystroke | src/CurrencyConverter.tsx:78 | Any typed text is stored unchanged, and nothing else changes. |
| LegacyConverter.Convert | src/CurrencyConverter.tsx:39-53 | A malformed amount sets "`<amount>` is not a valid number", nulls the result and keeps the deadline. A valid amount always converts: the error is empty, the result is the two-decimal value, and the deadline is `now + 600000`. |
| LegacyConverter.SameCurrencyConverts | src/CurrencyConverter.tsx:48-52 | There is no same-currency check: converting a currency that is in the table to itself shows the amount's own value. A currency missing from the table gives "NaN" instead, as `LegacyValue` and `ToFixed` state. |
| LegacyConverter.RunKeepsInv | src/CurrencyConverter.tsx:42-60 | Any sequence of actions keeps this invariant: a shown result has a non-zero deadline and no error. |
| LegacyConverter.StaleCountdown | src/CurrencyConverter.tsx:43-47 | Converting "10" and then "x" leaves the first deadline running with no result, beside the error "x is not a valid number". |
| LegacyConverter.ConvertsTenPounds | src/CurrencyConverter.test.tsx:54-58 | With rates {GBP: 1, USD: 1.25} (the test's table), 10 GBP to USD gives "12.50". |
| LegacyConverter.RejectsDoublePoint | src/CurrencyConverter.test.tsx:40-45 | "100.0.0" is stored, and converting it gives "100.0.0 is not a valid number" and no result. |
| LegacyConverter.GetFlagUrl | src/CurrencyConverter.tsx:62-67 | An empty code gives the placeholder. Any other code gives the flagcdn address for its lower-cased first two characters. |

## Left out

- Network fetches of the currency list and the rate table, with their cancellation flags, loading flags and fetch-error text: these are asynchronous I/O. The rate table is an input of each conversion, and the currency list is not used by the modelled logic.
- Which base a rate table is relative to, and refetching when the source currency changes: this belongs to the fetch effect.
- The zero delay of the Retry button's second update: `Converter.Retry` applies both updates in one step. The refetch the two updates trigger belongs to the fetch effect above.
- The `isBusy` gating of the Convert button, all rendering, the accessibility markup, the live-region texts and `resultText`: these are presentation.
- The two CurrencyDropdown components: they only present options. Their `onChange` is modelled as `View.SelectFrom` and `View.SelectTo`.
- `Date.now()`: it is the parameter `now`, a non-negative number of milliseconds.
- When the antd countdown notices its deadline depends on its polling, which is library code. `View.Tick` fires once the clock has reached the deadline.
- Floating point: `parseFloat`, the division and the multiplication (src/Components/CurrencyConverter.tsx:109, src/CurrencyConverter.tsx:50) work on doubles, so 0.1 is not exact there. The model computes them exactly over `real`.
- Rates that are zero, negative, non-finite or not numbers: the `Rates` type admits only positive reals, as the feed delivers.
- Converter.Convert: says nothing about the shape of the shown text, because `Intl.NumberFormat` is locale-dependent and is the parameter `fmt`.
- LegacyConverter.ToFixed: rounds the exact real value rather than the nearest double, and does not model the exponent form `toFixed` uses at 1e21 and above.
- Decimal.Fixed2: rounds the exact real value; the double nearest an amount such as 1.005 can round the other way in JavaScript.
- Flags.CountryCode: lower-cases ASCII letters only, and counts characters as code points rather than UTF-16 units. Currency codes are ASCII letters.
- Converter.GetFlagUrl: the `?.` guard is modelled as an `Option` argument. A `null` and an `undefined` code are the same `None`.
- Discarding a late rate response for an earlier source (the `cancelled` flag, src/Components/CurrencyConverter.tsx:58-69): this is part of the fetch effect above.
- LegacyConverter.Convert: the older view stores `data.rates` without a guard and without checking `res.ok` (src/CurrencyConverter.tsx:29-30). A rate response without a `rates` key leaves the table undefined, and from then on every valid amount throws a TypeError at `rates[fromCurrency]` (line 50), after the error has been cleared (line 48) and before any result or deadline is set. The model's table is always a map. The newer view guards against this with `data.rates || {}` and `!rates` (src/Components/CurrencyConverter.tsx:66, 95).
- A round trip within 0.01 after formatting: `Converter.ConversionRoundTrip` proves the exact round trip on values. A round trip through the two-decimal text can be off by more than 0.01 when the target rate is much smaller than the source rate.
