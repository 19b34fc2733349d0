/**
 * Payment-status polling (`pollPaymentStatus` and its inner `checkStatus`).
 *
 * A session keeps an attempt counter that starts at 0. Each tick increments
 * it, issues one status query and classifies the answer; the paid test comes
 * first, then the budget test, and otherwise exactly one more tick is
 * scheduled. The network query and the timer are abstracted away: a tick
 * simply consumes the next element of a sequence of query results.
 */
module Poller {
  /** Attempt budget of a session: 30 checks, 5 seconds apart. */
  const MaxAttempts: nat := 30

  /** How one status query ended. */
  datatype StatusResult =
    | Paid         // the endpoint answered with a truthy `paid`
    | NotYetPaid   // the endpoint answered, `paid` false or absent
    | QueryFailed  // something in the try threw before a decision: fetch, JSON decoding, or reading `paid`

  /** The terminal outcome of a session, reported once to the page. */
  datatype PollOutcome = Success | Timeout | Unreachable
  {
    /** The message the page shows for this outcome; each text belongs to exactly one outcome. */
    function Message(): (m: string)
      ensures m == "Payment successful! You are now being connected..." <==> this == Success
      ensures m == "Payment timeout. Please try again." <==> this == Timeout
      ensures m == "Unable to verify payment status. Please contact support." <==> this == Unreachable
    {
      match this
      case Success => "Payment successful! You are now being connected..."
      case Timeout => "Payment timeout. Please try again."
      case Unreachable => "Unable to verify payment status. Please contact support."
    }
  }

  /** What a tick does after classifying its query: stop with an outcome, or schedule the next tick. */
  datatype Decision = Finish(outcome: PollOutcome) | ScheduleNext

  /** The transition rule of one tick; `attempts` is the counter after this tick's increment. */
  function Decide(attempts: nat, maxAttempts: nat, r: StatusResult): (d: Decision)
    ensures d == Finish(Success) <==> r == Paid
    ensures d == Finish(Timeout) <==> r == NotYetPaid && attempts >= maxAttempts
    ensures d == Finish(Unreachable) <==> r == QueryFailed && attempts >= maxAttempts
    ensures d == ScheduleNext <==> r != Paid && attempts < maxAttempts
  {
    match r
    case Paid => Finish(Success)
    case NotYetPaid => if attempts >= maxAttempts then Finish(Timeout) else ScheduleNext
    case QueryFailed => if attempts >= maxAttempts then Finish(Unreachable) else ScheduleNext
  }

  /** Where a session stands after the results it has been fed. */
  datatype SessionResult =
    | Waiting(queries: nat)                         // the next tick is scheduled
    | Finished(outcome: PollOutcome, queries: nat)  // the outcome was reported

  /** Runs ticks with the counter at `attempts`, feeding them `results` in order. */
  function Poll(maxAttempts: nat, attempts: nat, results: seq<StatusResult>): (s: SessionResult)
    ensures attempts <= s.queries <= attempts + |results|
    ensures s.Waiting? ==> s.queries == attempts + |results|
    ensures s.Finished? ==> s.queries > attempts
    ensures attempts < maxAttempts ==> s.queries <= maxAttempts
    ensures s.Waiting? && results != [] ==> s.queries < maxAttempts
    decreases |results|
  {
    if results == [] then Waiting(attempts)
    else
      match Decide(attempts + 1, maxAttempts, results[0])
      case Finish(o) => Finished(o, attempts + 1)
      case ScheduleNext => Poll(maxAttempts, attempts + 1, results[1..])
  }

  /** A whole session: the counter starts at 0 and the first tick runs at once. */
  function Session(maxAttempts: nat, results: seq<StatusResult>): (s: SessionResult)
    ensures s.queries <= |results|
    ensures s.Waiting? ==> s.queries == |results|
    ensures s.Waiting? && results != [] ==> s.queries < maxAttempts
    ensures s.Finished? ==> s.queries >= 1
    ensures maxAttempts >= 1 ==> s.queries <= maxAttempts
  {
    Poll(maxAttempts, 0, results)
  }

  /** Index of the first Paid result, or the length when there is none. */
  function FirstPaid(results: seq<StatusResult>): (k: nat)
    ensures k <= |results|
    ensures k < |results| ==> results[k] == Paid
    ensures forall j :: 0 <= j < k ==> results[j] != Paid
  {
    if results == [] || results[0] == Paid then 0 else 1 + FirstPaid(results[1..])
  }

  /**
   * Closed form of a session, independent of the tick-by-tick rule: the
   * first Paid within the budget wins; failing that, once the budget is
   * reached the last result decides between Timeout and Unreachable;
   * otherwise the session is still waiting.
   */
  ghost function Reference(maxAttempts: nat, results: seq<StatusResult>): (s: SessionResult)
    requires maxAttempts >= 1
    ensures s.queries <= maxAttempts && s.queries <= |results|
    ensures s.Finished? ==> s.queries >= 1
    ensures s.Finished? && s.outcome != Success ==> s.queries == maxAttempts
    ensures s.Finished? && s.outcome == Success ==> results[s.queries - 1] == Paid
  {
    var k := FirstPaid(results);
    if k < maxAttempts && k < |results| then Finished(Success, k + 1)
    else if |results| >= maxAttempts then
      Finished(if results[maxAttempts - 1] == NotYetPaid then Timeout else Unreachable, maxAttempts)
    else Waiting(|results|)
  }

  /** The same session result, with `a` more queries counted. */
  ghost function Delayed(s: SessionResult, a: nat): SessionResult {
    match s
    case Waiting(q) => Waiting(q + a)
    case Finished(o, q) => Finished(o, q + a)
  }

  lemma {:induction false} PollMatchesReference(maxAttempts: nat, attempts: nat, results: seq<StatusResult>)
    requires attempts < maxAttempts
    ensures Poll(maxAttempts, attempts, results) == Delayed(Reference(maxAttempts - attempts, results), attempts)
    decreases |results|
  {
    if results != [] && results[0] != Paid && attempts + 1 < maxAttempts {
      var rest := results[1..];
      PollMatchesReference(maxAttempts, attempts + 1, rest);
      assert FirstPaid(results) == 1 + FirstPaid(rest);
      if |rest| >= maxAttempts - attempts - 1 {
        assert rest[maxAttempts - attempts - 2] == results[maxAttempts - attempts - 1];
      }
    }
  }

  /** The tick-by-tick session agrees with its closed form. */
  lemma SessionMatchesReference(maxAttempts: nat, results: seq<StatusResult>)
    requires maxAttempts >= 1
    ensures Session(maxAttempts, results) == Reference(maxAttempts, results)
  {
    PollMatchesReference(maxAttempts, 0, results);
  }

  /** A session issues at most `maxAttempts` queries, and ends once that many results are available. */
  lemma SessionBounded(maxAttempts: nat, results: seq<StatusResult>)
    requires maxAttempts >= 1
    ensures Session(maxAttempts, results).queries <= maxAttempts
    ensures Session(maxAttempts, results).queries <= |results|
    ensures |results| >= maxAttempts ==> Session(maxAttempts, results).Finished?
  {
  }

  /** Success after exactly n queries iff the n-th result is the first Paid one and n is within budget. */
  lemma SuccessIff(maxAttempts: nat, results: seq<StatusResult>, n: nat)
    requires maxAttempts >= 1
    ensures Session(maxAttempts, results) == Finished(Success, n) <==>
      && 1 <= n <= maxAttempts && n <= |results|
      && results[n - 1] == Paid
      && forall j :: 0 <= j < n - 1 ==> results[j] != Paid
  {
    SessionMatchesReference(maxAttempts, results);
  }

  /** Timeout iff no result within budget is Paid and the last one, at the budget, is NotYetPaid. */
  lemma TimeoutIff(maxAttempts: nat, results: seq<StatusResult>, n: nat)
    requires maxAttempts >= 1
    ensures Session(maxAttempts, results) == Finished(Timeout, n) <==>
      && n == maxAttempts <= |results|
      && results[maxAttempts - 1] == NotYetPaid
      && forall j :: 0 <= j < maxAttempts ==> results[j] != Paid
  {
    SessionMatchesReference(maxAttempts, results);
  }

  /** Unreachable iff no result within budget is Paid and the last one, at the budget, is QueryFailed. */
  lemma UnreachableIff(maxAttempts: nat, results: seq<StatusResult>, n: nat)
    requires maxAttempts >= 1
    ensures Session(maxAttempts, results) == Finished(Unreachable, n) <==>
      && n == maxAttempts <= |results|
      && results[maxAttempts - 1] == QueryFailed
      && forall j :: 0 <= j < maxAttempts ==> results[j] != Paid
  {
    SessionMatchesReference(maxAttempts, results);
  }

  /** A session still waits iff the budget is not used up and nothing was Paid. */
  lemma WaitingIff(maxAttempts: nat, results: seq<StatusResult>)
    requires maxAttempts >= 1
    ensures Session(maxAttempts, results).Waiting? <==>
      |results| < maxAttempts && forall j :: 0 <= j < |results| ==> results[j] != Paid
  {
    SessionMatchesReference(maxAttempts, results);
  }

  /** Failed queries do not reset the counter or poison a later Paid: 29 failures then Paid is Success. */
  lemma PaidOnLastAttemptSucceeds()
    ensures Session(MaxAttempts, seq(MaxAttempts - 1, _ => QueryFailed) + [Paid]) == Finished(Success, MaxAttempts)
  {
    var results := seq(MaxAttempts - 1, _ => QueryFailed) + [Paid];
    SuccessIff(MaxAttempts, results, MaxAttempts);
  }

  lemma {:induction false} PollIgnoresLaterResults(maxAttempts: nat, attempts: nat, results: seq<StatusResult>, more: seq<StatusResult>)
    requires Poll(maxAttempts, attempts, results).Finished?
    ensures Poll(maxAttempts, attempts, results + more) == Poll(maxAttempts, attempts, results)
    decreases |results|
  {
    assert results != [];
    assert (results + more)[0] == results[0];
    if Decide(attempts + 1, maxAttempts, results[0]).ScheduleNext? {
      assert (results + more)[1..] == results[1..] + more;
      PollIgnoresLaterResults(maxAttempts, attempts + 1, results[1..], more);
    }
  }

  /** Once the outcome is reported no further query is issued: later results are never consumed. */
  lemma NoTickAfterOutcome(maxAttempts: nat, results: seq<StatusResult>, more: seq<StatusResult>)
    requires Session(maxAttempts, results).Finished?
    ensures Session(maxAttempts, results + more) == Session(maxAttempts, results)
  {
    PollIgnoresLaterResults(maxAttempts, 0, results, more);
  }

  /** A waiting session fed one more result takes exactly one tick, with its counter one higher. */
  lemma {:induction false} PollExtends(maxAttempts: nat, attempts: nat, results: seq<StatusResult>, r: StatusResult)
    requires Poll(maxAttempts, attempts, results).Waiting?
    ensures Poll(maxAttempts, attempts, results).queries == attempts + |results|
    ensures Poll(maxAttempts, attempts, results + [r]) ==
      match Decide(attempts + |results| + 1, maxAttempts, r)
      case Finish(o) => Finished(o, attempts + |results| + 1)
      case ScheduleNext => Waiting(attempts + |results| + 1)
    decreases |results|
  {
    if results == [] {
      assert [] + [r] == [r];
    } else {
      assert (results + [r])[0] == results[0];
      assert (results + [r])[1..] == results[1..] + [r];
      PollExtends(maxAttempts, attempts + 1, results[1..], r);
    }
  }

  /**
   * One poll session of the page. `attempts` is the counter the closure
   * captures, `scheduled` says whether a further `checkStatus` is pending on
   * the timer, and `emitted` records the terminal callbacks made so far
   * (showSuccess or showError). `answered` is the history of query results.
   */
  class PaymentPoller {
    const maxAttempts: nat
    var attempts: nat
    var scheduled: bool
    var emitted: seq<PollOutcome>
    ghost var answered: seq<StatusResult>

    /** The counter is in [0, maxAttempts], at most one outcome is ever reported, and a tick is pending exactly until then. */
    ghost predicate Valid()
      reads this
    {
      && maxAttempts >= 1
      && attempts == |answered| <= maxAttempts
      && |emitted| <= 1
      && (scheduled <==> emitted == [])
      && (scheduled ==> attempts < maxAttempts)
      && Session(maxAttempts, answered) == if scheduled then Waiting(attempts) else Finished(emitted[0], attempts)
    }

    /** Starts a session: the counter is 0 and the first check is due immediately. */
    constructor (maxAttempts: nat)
      requires maxAttempts >= 1
      ensures Valid() && this.maxAttempts == maxAttempts
      ensures attempts == 0 && scheduled && emitted == [] && answered == []
    {
      this.maxAttempts := maxAttempts;
      attempts := 0;
      scheduled := true;
      emitted := [];
      answered := [];
    }

    /** One tick (`checkStatus`) whose query answered `r`. */
    method Check(r: StatusResult) returns (d: Decision)
      requires Valid() && scheduled
      modifies this
      ensures Valid()
      ensures attempts == old(attempts) + 1
      ensures answered == old(answered) + [r]
      ensures d == Decide(attempts, maxAttempts, r)
      ensures scheduled <==> d == ScheduleNext
      ensures emitted == if d.Finish? then [d.outcome] else []
    {
      PollExtends(maxAttempts, 0, answered, r);
      attempts := attempts + 1;
      answered := answered + [r];
      if r != QueryFailed {
        if r == Paid {
          d := Finish(Success);
        } else if attempts >= maxAttempts {
          d := Finish(Timeout);
        } else {
          d := ScheduleNext;
        }
      } else {
        if attempts >= maxAttempts {
          d := Finish(Unreachable);
        } else {
          d := ScheduleNext;
        }
      }
      if d.Finish? {
        emitted := emitted + [d.outcome];
        scheduled := false;
      }
    }
  }

  /**
   * A whole session of `pollPaymentStatus` with the 30-attempt budget, its
   * queries answered by `results` in order. Returns where the session stands
   * and the terminal callbacks it made.
   */
  method PollPaymentStatus(results: seq<StatusResult>) returns (s: SessionResult, emitted: seq<PollOutcome>)
    ensures s == Session(MaxAttempts, results)
    ensures s.queries <= MaxAttempts && s.queries <= |results|
    ensures s.Finished? ==> emitted == [s.outcome]
    ensures s.Waiting? ==> emitted == [] && s.queries == |results|
  {
    var poller := new PaymentPoller(MaxAttempts);
    var i := 0;
    while poller.scheduled && i < |results|
      invariant poller.Valid() && poller.maxAttempts == MaxAttempts
      invariant i <= |results| && poller.answered == results[..i]
      decreases |results| - i
    {
      var decision := poller.Check(results[i]);
      i := i + 1;
    }
    emitted := poller.emitted;
    if poller.scheduled {
      assert results[..i] == results;
      s := Waiting(poller.attempts);
    } else {
      assert results[..i] + results[i..] == results;
      NoTickAfterOutcome(MaxAttempts, results[..i], results[i..]);
      s := Finished(poller.emitted[0], poller.attempts);
    }
  }
}
