# WiFi billing widget: decision logic

The widget is a captive-portal page. A WiFi user picks a time-limited
access package, enters an M-Pesa phone number, and waits while the page
polls a billing endpoint until the payment is confirmed. Most of the script
is DOM wiring and `fetch` calls. This project models the three pieces of
decision logic in it and proves what they promise:

- **Payment-status polling** (`pollPaymentStatus` and its inner
  `checkStatus`), in `poller.dfy`. A session keeps an attempt counter that
  starts at 0, with a budget of 30. Each tick increments the counter,
  issues one status query and classifies the answer as `Paid`, `NotYetPaid`
  or `QueryFailed`. The tick then either reports exactly one outcome
  (`Success`, `Timeout` or `Unreachable`) or schedules exactly one more
  tick. The query and the timer are abstracted: a tick consumes the next
  element of a sequence of query results. If the sequence runs out first,
  the session is `Waiting`, which means its next tick is still pending.
  - Pure specification: the tick rule `Decide`, the session function
    `Session`, and an independent closed form `Reference`. In the closed
    form, the first `Paid` within the budget wins. Otherwise the result at
    the budget decides between `Timeout` and `Unreachable`.
  - Imperative model: class `PaymentPoller` holds the counter, a
    "next tick scheduled" flag and the list of terminal callbacks made.
    Its `Valid()` ties that state to `Session` of the results answered so
    far. `PollPaymentStatus` runs the session as a loop.
- **Duration label** (`getDurationText`), in `duration.dfy`. Integers are
  rendered as JavaScript renders them, in `decimal.dfy`.
- **Phone validation** (`validatePhone`), in `phone.dfy`. The regular
  expression `^07\d{8}$` is modelled as a sequence of repeated character
  classes, matched against the whole string.

`wrappers.dfy` holds the `Option` type.

## Model

| member | source | states |
|---|---|---|
| `Poller.PollOutcome.Message` | script.js:133-145 | Each of the three texts shown to the user belongs to exactly one outcome: the success text to Success, "Payment timeout" to Timeout, "Unable to verify payment status" to Unreachable. |
| `Poller.Poll` | script.js:124-150 | The re-arming tick, run from any counter value over a sequence of results. The counter only grows, by at most one per result. While waiting, it has consumed every result. A finish counts the query that caused it. Started below the budget, it never goes past the budget, and a session still waiting after at least one tick is below the budget. |
| `Poller.Session` | script.js:120-153 | A session that starts at counter 0 makes at most one query per result and, for a budget of at least 1, at most the budget. While waiting, it has used every result, and after at least one result it is below the budget. Once finished, it has made at least one query. |
| `Poller.Reference` | script.js:120-153 | The closed form never exceeds the budget or the results. A Timeout or Unreachable always comes after exactly the budget of queries. A Success after n queries has Paid as its n-th result. |
| `Poller.Decide` | script.js:132-148 | Paid gives Success whatever the counter, even on the last attempt. At or over the budget, NotYetPaid gives Timeout and QueryFailed gives Unreachable. Below the budget, both schedule exactly one more tick. Each case is an if-and-only-if. |
| `Poller.PollMatchesReference` | script.js:124-150 | Ticks from any counter value below the budget agree with the closed form, shifted by the queries already made. |
| `Poller.SessionMatchesReference` | script.js:120-153 | A session that starts with the counter at 0 equals the closed form: the first Paid within 30 queries wins, otherwise the 30th result picks Timeout or Unreachable, otherwise the session is still waiting. |
| `Poller.SessionBounded` | script.js:121-149 | A session never makes more queries than the budget or than the results available. Once the budget's worth of results exist, it always has an outcome. |
| `Poller.SuccessIff` | script.js:132-138 | The outcome is Success after exactly n queries if and only if n is within the budget, the n-th result is Paid, and no earlier result is Paid. |
| `Poller.TimeoutIff` | script.js:138-139 | The outcome is Timeout if and only if exactly the budget of queries was made, none was Paid, and the last one was NotYetPaid. |
| `Poller.UnreachableIff` | script.js:143-145 | The outcome is Unreachable if and only if exactly the budget of queries was made, none was Paid, and the last one failed. |
| `Poller.WaitingIff` | script.js:140-148 | A session keeps scheduling ticks if and only if the budget is not used up and no result so far was Paid. A failure is retried like NotYetPaid. |
| `Poller.PaidOnLastAttemptSucceeds` | script.js:132-148 | 29 failed queries followed by Paid give Success after 30 queries. Failures use up attempts but do not reset the counter or block a later Paid. |
| `Poller.PollIgnoresLaterResults` | script.js:124-150 | From any counter value, once a tick has reported an outcome, further results never change the session. |
| `Poller.NoTickAfterOutcome` | script.js:132-149 | After the outcome of a session is reported, no further query is made. Appending more results changes nothing. |
| `Poller.PollExtends` | script.js:124-150 | A waiting session that gets one more result runs exactly one tick, with its counter one higher than the queries made so far. |
| `Poller.PaymentPoller.constructor` | script.js:121-122 | A session starts with the counter at 0, the first check due, and no outcome reported. |
| `Poller.PaymentPoller.Check` | script.js:124-150 | One tick raises the counter by exactly one and records the query's result. Its decision is `Decide`'s. A tick stays scheduled only on ScheduleNext, and an outcome is reported only on Finish. It keeps `Valid()`: the counter stays in [0, maxAttempts] (30 in `PollPaymentStatus`), at most one outcome is reported, and the state equals `Session` of the results so far. |
| `Poller.PollPaymentStatus` | script.js:120-153 | The loop over the results gives `Session(30, results)`. It makes at most 30 queries. It reports exactly one terminal callback, the outcome, when it finishes, and none while it waits. |
| `Poller.FirstPaid` | script.js:132 | Gives the index of the first Paid result, or the length when there is none. No result before it is Paid. |
| `Duration.DurationText` | script.js:58-64 | 1 gives "1 Hour" and 168 gives "7 Days". Any other number of hours up to 24 gives "<hours> Hours". More than 24 whole-day hours give "<hours/24> Days". The 168 special case agrees with that general rule. |
| `Duration.DurationTextRoundTrip` | script.js:58-64 | Reading a label back gives the number of hours it was made from. |
| `Duration.DurationTextInjective` | script.js:58-64 | Two different durations never get the same label. |
| `Decimal.IntToDecimal` | script.js:62-63 | `${n}` of any integer is non-empty. It starts with '-' exactly when the integer is negative, followed by digits. It has no leading zero except for "0". |
| `Decimal.NatToDecimal` | script.js:62-63 | `${n}` of a non-negative integer has at least one ASCII digit. It has no leading zero unless it is "0". |
| `Decimal.IntToDecimalRoundTrip` | script.js:62-63 | Reading the decimal rendering of any integer back gives that integer. |
| `Phone.ValidPhone` | script.js:101-104 | `validatePhone` is a whole-string match of `^07\d{8}$`. An accepted number has exactly 10 characters, the pattern's width, and starts with "07". |
| `Phone.ValidPhoneIff` | script.js:101-104 | `^07\d{8}$` accepts a string if and only if it has 10 characters, starts with "07", and its other 8 characters are ASCII digits. |
| `Phone.MatchesWidth` | script.js:102 | Every string that matches a fixed-count pattern has the pattern's total length. |

## Left out

- DOM and UI work: `bindEvents`, the DOM side of `selectPackage` (including its `"<price> KES - <label>"` text), the HTML that `showSuccess`/`showError` render, and the `alert` in `processPayment`. Outcomes are datatype values. `PollOutcome.Message` keeps the text each outcome shows.
- Network I/O: `sendPaymentRequest`, and the `fetch`/`response.json()` calls in `checkStatus` and `processPayment`. Each status query becomes a `StatusResult` input. A query that never settles is not modelled.
- `processPayment`'s control flow: validate, send, then poll or show an error. It depends entirely on the foreign request call. Only the validation predicate it uses is modelled.
- Timers and navigation: the 5000 ms re-check delay, the 2000 ms delay before the redirect, and `window.location.href`. A scheduled tick is "consume the next result". Elapsed time is not modelled.
- `generateMockMac` (it uses `Math.random`), `getClientInfo` (it reads URL parameters), and the `new Date().toISOString()` timestamp.
- `parseInt` on the package's `data-duration` string. `hours` is taken as an exact `int`, so NaN and the imprecision of huge doubles are not modelled. `Decimal.IntToDecimal` does not model JavaScript's exponent notation for magnitudes of 1e21 and above.
- Duration.DurationText: requires `hours <= 24 || hours % 24 == 0`. For any other hours above 24, the source divides in floating point and prints a fraction such as `1.0416666666666667 Days`, and floating point is not modelled.
- Poller: the budget is a parameter of the specification functions. The class requires it to be at least 1. `PollPaymentStatus` fixes it at 30, as the source does.
