/** Keeping a received message hidden: renewVisibility of
    internal/infrastructure/queue/sqs/source.go. Times are nanoseconds. */
module Lease {
  const SECOND := 1_000_000_000
  const MAX_LIFETIME := 12 * 60 * 60 * SECOND
  const LIFETIME_MARGIN := SECOND
  const MAX_CALL_TIMEOUT := 5 * SECOND
  const MAX_VISIBILITY_TIMEOUT := 43200
  const INT32_MAX := 0x7fff_ffff

  /** Go's division by two and Duration.Truncate, which round toward zero. */
  function Half(d: int): int { if d >= 0 then d / 2 else -((-d) / 2) }

  function TruncateToSecond(d: int): int {
    if d >= 0 then d - d % SECOND else -((-d) - (-d) % SECOND)
  }

  function Min(a: int, b: int): int { if a < b then a else b }

  /** What the environment decides in one round of the loop. Every duration is how long
      something takes beyond what the program asked for, or the time between two readings of the clock. */
  datatype Round = Round(
    cancelledWaiting: bool,
    late: nat,
    beforeCall: nat,
    callTime: nat,
    cancelledInCall: bool,
    ok: bool,
    afterCall: nat,
    beforeReset: nat)

  /** One renewal call: the clock as read before deciding the lease and before the call,
      the lease left then, the call's timeout and requested seconds; when it ended and how;
      and the deadline and timer it left behind. */
  datatype Call = Call(
    now: int, readAt: int, remaining: int, timeout: int, seconds: int,
    endedAt: int, ok: bool, checkedAt: int, deadline: int, armedAt: int, delay: int)

  datatype Ending = Cancelled | LifetimeReached

  function ConfiguredLease(visibilityTimeout: int): int { visibilityTimeout * SECOND }

  function RetryDelay(visibilityTimeout: int): int { Min(SECOND, ConfiguredLease(visibilityTimeout) / 2 / 4) }

  /** The bounds every call respects: a whole number of seconds that fits an int32, an
      end within the lifetime as the clock read it, and a positive timeout and wait. */
  predicate CallBounds(visibilityTimeout: int, startedAt: int, c: Call) {
    && 1 <= c.seconds <= visibilityTimeout && c.seconds <= INT32_MAX
    && c.now + c.seconds * SECOND <= startedAt + MAX_LIFETIME - LIFETIME_MARGIN
    && c.now <= startedAt + MAX_LIFETIME - LIFETIME_MARGIN - SECOND
    && c.now <= c.readAt <= c.endedAt <= c.checkedAt <= c.armedAt
    && c.delay > 0
    && 0 < c.timeout <= MAX_CALL_TIMEOUT
    && c.timeout <= ConfiguredLease(visibilityTimeout) / 4
  }

  /** A failed call leaves the deadline and waits at most half of what is left; a call
      that succeeds moves the deadline and waits half of the new lease. */
  predicate CallOutcome(visibilityTimeout: int, c: Call) {
    && (c.remaining >= 2 ==> c.timeout == Min(MAX_CALL_TIMEOUT, c.remaining / 2))
    && (c.remaining < 2 ==> c.timeout == RetryDelay(visibilityTimeout))
    && (if c.ok then
          c.deadline == c.checkedAt + c.seconds * SECOND && c.delay == c.seconds * SECOND / 2
        else
          c.deadline == c.readAt + c.remaining &&
          var left := c.deadline - c.checkedAt;
          c.delay == if left >= 2 then Min(RetryDelay(visibilityTimeout), left / 2) else RetryDelay(visibilityTimeout))
  }

  /** d is the call after c: it is made when c's timer fired, against the deadline c left. */
  predicate Follows(c: Call, d: Call) {
    d.now >= c.armedAt + c.delay && d.remaining == c.deadline - d.readAt
  }

  /** The lifetime left when the clock read now, less the margin. */
  function LifetimeLeft(startedAt: int, now: int): int { MAX_LIFETIME - (now - startedAt) - LIFETIME_MARGIN }

  /** A call asks for the whole lease, or for all full seconds of lifetime that are left. */
  predicate LongestLease(visibilityTimeout: int, startedAt: int, c: Call) {
    LifetimeLeft(startedAt, c.now) >= 0 && c.seconds == Min(visibilityTimeout, LifetimeLeft(startedAt, c.now) / SECOND)
  }

  /** The clock as it was in the round in which the call was made, its timer being due then. */
  predicate Timed(round: Round, due: int, c: Call) {
    && c.now == due + round.late && c.readAt == c.now + round.beforeCall && c.endedAt == c.readAt + round.callTime
    && c.checkedAt == c.endedAt + round.afterCall && c.armedAt == c.checkedAt + round.beforeReset
    && c.ok == round.ok
  }

  /** The call asks for the whole lease; the lifetime does not cap it. */
  predicate Uncapped(visibilityTimeout: int, c: Call) { c.seconds == visibilityTimeout }

  /** One round once the timer has fired: the lease to ask for, the call, and the next
      wait; nothing when less than a second of lifetime is left. */
  method RenewOnce(visibilityTimeout: int, startedAt: int, leaseDeadline: int, now: int, round: Round)
    returns (fits: bool, c: Call)
    requires 1 <= visibilityTimeout <= MAX_VISIBILITY_TIMEOUT
    requires startedAt <= now && leaseDeadline - now <= ConfiguredLease(visibilityTimeout) / 2
    ensures fits <==> LifetimeLeft(startedAt, now) >= SECOND
    ensures fits ==> CallBounds(visibilityTimeout, startedAt, c) && CallOutcome(visibilityTimeout, c)
    ensures fits ==> LongestLease(visibilityTimeout, startedAt, c) && Timed(round, now - round.late, c)
    ensures fits ==> c.remaining == leaseDeadline - c.readAt
    ensures fits ==> c.deadline - (c.armedAt + c.delay) <= ConfiguredLease(visibilityTimeout) / 2
  {
    var configuredLease := ConfiguredLease(visibilityTimeout);
    var retryDelay := RetryDelay(visibilityTimeout);
    var remainingLifetime := LifetimeLeft(startedAt, now);
    var renewalLease := Min(configuredLease, TruncateToSecond(remainingLifetime));
    if renewalLease < SECOND {
      c := Call(now, now, 0, 1, 0, now, false, now, leaseDeadline, now, 1);
      return false, c;
    }
    var seconds := renewalLease / SECOND;
    var readAt := now + round.beforeCall;
    var remainingLease := leaseDeadline - readAt;
    var callTimeout := Min(MAX_CALL_TIMEOUT, Half(remainingLease));
    if callTimeout <= 0 {
      callTimeout := retryDelay;
    }
    var endedAt := readAt + round.callTime;
    var checkedAt := endedAt + round.afterCall;
    var armedAt := checkedAt + round.beforeReset;
    if round.ok {
      c := Call(now, readAt, remainingLease, callTimeout, seconds, endedAt, true, checkedAt, checkedAt + renewalLease,
                armedAt, renewalLease / 2);
      return true, c;
    }
    var left := leaseDeadline - checkedAt;
    var delay := retryDelay;
    if left > 0 {
      delay := Min(delay, Half(left));
    }
    if delay <= 0 {
      delay := retryDelay;
    }
    c := Call(now, readAt, remainingLease, callTimeout, seconds, endedAt, false, checkedAt, leaseDeadline, armedAt,
              delay);
    return true, c;
  }

  /** When the timer for the call after these is due. */
  function Due(visibilityTimeout: int, startedAt: int, calls: seq<Call>): int {
    if calls == [] then startedAt + ConfiguredLease(visibilityTimeout) / 2
    else calls[|calls| - 1].armedAt + calls[|calls| - 1].delay
  }

  /** When the lease that the next call renews runs out, as the program reckons. */
  function Deadline(visibilityTimeout: int, startedAt: int, calls: seq<Call>): int {
    if calls == [] then startedAt + ConfiguredLease(visibilityTimeout) else calls[|calls| - 1].deadline
  }

  /** c is the call that a round makes whose timer is due at due, against a deadline. */
  predicate Made(visibilityTimeout: int, startedAt: int, round: Round, due: int, deadline: int, c: Call) {
    && CallBounds(visibilityTimeout, startedAt, c) && CallOutcome(visibilityTimeout, c)
    && LongestLease(visibilityTimeout, startedAt, c) && Timed(round, due, c)
    && c.remaining == deadline - c.readAt && !round.cancelledWaiting
  }

  /** Every call was made in its round, and only the last can have been cancelled. */
  predicate Renewals(visibilityTimeout: int, startedAt: int, env: nat -> Round, calls: seq<Call>) {
    calls == [] ||
    var k := |calls| - 1;
    var before := calls[..k];
    && Renewals(visibilityTimeout, startedAt, env, before)
    && (k > 0 ==> !env(k - 1).cancelledInCall)
    && Made(visibilityTimeout, startedAt, env(k), Due(visibilityTimeout, startedAt, before),
            Deadline(visibilityTimeout, startedAt, before), calls[k])
  }

  lemma OneMoreRenewal(visibilityTimeout: int, startedAt: int, env: nat -> Round, calls: seq<Call>, c: Call)
    requires Renewals(visibilityTimeout, startedAt, env, calls)
    requires |calls| > 0 ==> !env(|calls| - 1).cancelledInCall
    requires Made(visibilityTimeout, startedAt, env(|calls|), Due(visibilityTimeout, startedAt, calls),
                  Deadline(visibilityTimeout, startedAt, calls), c)
    ensures Renewals(visibilityTimeout, startedAt, env, calls + [c])
  {
    assert (calls + [c])[..|calls|] == calls;
  }

  /** The calls of one message, in order, until the heartbeat is stopped or the lifetime
      leaves no full second to ask for. */
  method RenewVisibility(visibilityTimeout: int, startedAt: int, env: nat -> Round)
    returns (calls: seq<Call>, ending: Ending)
    requires 1 <= visibilityTimeout <= MAX_VISIBILITY_TIMEOUT
    ensures Renewals(visibilityTimeout, startedAt, env, calls)
    ensures ending == Cancelled ==> (|calls| > 0 && env(|calls| - 1).cancelledInCall) || env(|calls|).cancelledWaiting
    ensures ending == LifetimeReached ==>
              LifetimeLeft(startedAt, Due(visibilityTimeout, startedAt, calls) + env(|calls|).late) < SECOND
  {
    var configuredLease := ConfiguredLease(visibilityTimeout);
    var leaseDeadline := startedAt + configuredLease;
    var armedAt, delay := startedAt, configuredLease / 2;
    calls := [];
    while true
      invariant 0 < delay && startedAt <= armedAt
      invariant leaseDeadline - (armedAt + delay) <= configuredLease / 2
      invariant armedAt + delay == Due(visibilityTimeout, startedAt, calls)
      invariant leaseDeadline == Deadline(visibilityTimeout, startedAt, calls)
      invariant Renewals(visibilityTimeout, startedAt, env, calls)
      invariant |calls| > 0 ==> !env(|calls| - 1).cancelledInCall
      decreases startedAt + MAX_LIFETIME - armedAt
    {
      var round := env(|calls|);
      if round.cancelledWaiting {
        return calls, Cancelled;
      }
      var fits, c := RenewOnce(visibilityTimeout, startedAt, leaseDeadline, armedAt + delay + round.late, round);
      if !fits {
        return calls, LifetimeReached;
      }
      OneMoreRenewal(visibilityTimeout, startedAt, env, calls, c);
      calls := calls + [c];
      if round.cancelledInCall {
        return calls, Cancelled;
      }
      armedAt, delay, leaseDeadline := c.armedAt, c.delay, c.deadline;
    }
  }

  lemma {:induction false} RenewalAt(visibilityTimeout: int, startedAt: int, env: nat -> Round, calls: seq<Call>,
                                     i: nat)
    requires Renewals(visibilityTimeout, startedAt, env, calls) && i < |calls|
    ensures Made(visibilityTimeout, startedAt, env(i), Due(visibilityTimeout, startedAt, calls[..i]),
                 Deadline(visibilityTimeout, startedAt, calls[..i]), calls[i])
  {
    if i < |calls| - 1 {
      RenewalAt(visibilityTimeout, startedAt, env, calls[..|calls| - 1], i);
      assert calls[..|calls| - 1][..i] == calls[..i];
    }
  }

  /** Every call of a run keeps the bounds, and follows the one before it. */
  lemma RenewalsFollow(visibilityTimeout: int, startedAt: int, env: nat -> Round, calls: seq<Call>, i: nat)
    requires Renewals(visibilityTimeout, startedAt, env, calls) && i < |calls|
    ensures CallBounds(visibilityTimeout, startedAt, calls[i]) && CallOutcome(visibilityTimeout, calls[i])
    ensures LongestLease(visibilityTimeout, startedAt, calls[i])
    ensures i > 0 ==> Follows(calls[i - 1], calls[i])
  {
    RenewalAt(visibilityTimeout, startedAt, env, calls, i);
    if i > 0 {
      assert calls[..i][|calls[..i]| - 1] == calls[i - 1];
    }
  }

  /** In nanoseconds and seconds: every call ends its lease a second before twelve hours are
      over, takes five seconds and a quarter of the lease at most, and asks for whole seconds. */
  lemma EndsWithinLifetime(visibilityTimeout: int, startedAt: int, env: nat -> Round, calls: seq<Call>, i: nat)
    requires Renewals(visibilityTimeout, startedAt, env, calls) && i < |calls|
    ensures var c := calls[i];
            && 1 <= c.seconds <= visibilityTimeout
            && c.now + c.seconds * 1_000_000_000 <= startedAt + 43_199 * 1_000_000_000
            && 0 < c.timeout <= 5_000_000_000 && 4 * c.timeout <= visibilityTimeout * 1_000_000_000
  {
    RenewalAt(visibilityTimeout, startedAt, env, calls, i);
  }

  // ---- Retrying before the lease runs out ----

  /** The call ended within its timeout, and neither the clock readings nor the next timer cost any time. */
  predicate Prompt(c: Call, d: Call) {
    && c.endedAt - c.readAt <= c.timeout
    && c.checkedAt == c.endedAt && c.armedAt == c.checkedAt
    && d.readAt == d.now == c.armedAt + c.delay
  }

  /** Three nanoseconds is exactly the least lease from which a call that uses up its
      whole timeout and fails is retried before the lease runs out. */
  lemma RetriedInTimeExactly(visibilityTimeout: int, startedAt: int, c: Call, d: Call)
    requires 1 <= visibilityTimeout
    requires CallBounds(visibilityTimeout, startedAt, c) && CallOutcome(visibilityTimeout, c) && Follows(c, d)
             && Prompt(c, d) && !c.ok
    requires c.endedAt - c.readAt == c.timeout
    ensures d.remaining > 0 <==> c.remaining >= 3
  {
  }

  function Pow4(n: nat): (r: nat)
    ensures r >= 1
  {
    if n == 0 then 1 else 4 * Pow4(n - 1)
  }

  /** A run of calls as RenewVisibility makes them, the first n of which fail promptly. */
  predicate FailingRun(visibilityTimeout: int, calls: seq<Call>, n: nat) {
    && n < |calls|
    && forall i :: 0 <= i < n ==>
         CallOutcome(visibilityTimeout, calls[i]) && Follows(calls[i], calls[i + 1]) && Prompt(calls[i], calls[i + 1])
             && !calls[i].ok
  }

  lemma {:induction false} QuartersLeaveAPower(left: seq<int>, n: nat)
    requires n < |left|
    requires forall i :: 0 <= i < n && left[i] >= 3 ==> 4 * left[i + 1] >= left[i]
    requires n > 0 ==> left[0] >= 3 * Pow4(n - 1)
    ensures Pow4(n) * left[n] >= left[0]
  {
    if n > 0 {
      assert 4 * left[0 + 1] >= left[0];
      QuartersLeaveAPower(left[1..], n - 1);
    }
  }

  /** After n failures in a row at least the 4^n-th part of the lease is left. */
  lemma FailuresLeaveAPower(visibilityTimeout: int, calls: seq<Call>, n: nat)
    requires FailingRun(visibilityTimeout, calls, n)
    requires n > 0 ==> calls[0].remaining >= 3 * Pow4(n - 1)
    ensures Pow4(n) * calls[n].remaining >= calls[0].remaining
  {
    var left := seq(|calls|, i requires 0 <= i < |calls| => calls[i].remaining);
    assert forall i :: 0 <= i < n && left[i] >= 3 ==> 4 * left[i + 1] >= left[i];
    QuartersLeaveAPower(left, n);
  }

  // ---- Renewing before the lease runs out ----

  /** Time lost around a call that succeeded: beyond its timeout, between the clock
      readings, and until the next call started after its timer was due. */
  function Lost(c: Call, d: Call): int {
    (if c.endedAt - c.readAt > c.timeout then c.endedAt - c.readAt - c.timeout else 0) +
    (c.armedAt - c.endedAt) + (d.readAt - (c.armedAt + c.delay))
  }

  /** While renewals succeed with the whole lease, the next call starts before the lease
      the queue granted, at whatever moment of the previous call, runs out, as long as
      less than a quarter of the lease is lost on the way. */
  lemma RenewedInTime(visibilityTimeout: int, startedAt: int, c: Call, d: Call, grantedAt: int)
    requires 1 <= visibilityTimeout
    requires CallBounds(visibilityTimeout, startedAt, c) && CallOutcome(visibilityTimeout, c) && Follows(c, d)
    requires c.ok && Uncapped(visibilityTimeout, c) && c.readAt <= grantedAt <= c.endedAt
    requires Lost(c, d) < ConfiguredLease(visibilityTimeout) / 4
    ensures d.readAt < grantedAt + ConfiguredLease(visibilityTimeout)
  {
  }

  /** The message is hidden at an instant: some granted lease covers it. */
  ghost predicate Hidden(grants: seq<int>, lease: int, at: int) {
    exists i :: 0 <= i < |grants| && grants[i] <= at < grants[i] + lease
  }

  /** grants[0] is the receipt of the message, every other one falls within its call. */
  ghost predicate GrantsOf(calls: seq<Call>, grants: seq<int>) {
    |grants| == |calls| + 1 && forall i :: 0 <= i < |calls| ==> calls[i].readAt <= grants[i + 1] <= calls[i].endedAt
  }

  /** Between the receipt of the message, or the start of one call, and the end of the next less than a lease passes. */
  predicate NeverALeaseApart(lease: int, receivedAt: int, calls: seq<Call>) {
    && (|calls| > 0 ==> receivedAt <= calls[0].readAt && calls[0].endedAt < receivedAt + lease)
    && forall i :: 0 <= i < |calls| - 1 ==>
         calls[i].endedAt <= calls[i + 1].readAt && calls[i + 1].endedAt < calls[i].readAt + lease
  }

  /** Then the message is hidden without interruption, wherever within each call the queue granted its lease. */
  lemma {:induction false} HiddenThroughout(lease: int, calls: seq<Call>, grants: seq<int>, at: int)
    requires GrantsOf(calls, grants) && NeverALeaseApart(lease, grants[0], calls)
    requires grants[0] <= at < grants[|calls|] + lease
    ensures Hidden(grants, lease, at)
  {
    var n := |calls|;
    if at < grants[n] {
      var init := calls[..n - 1];
      assert GrantsOf(init, grants[..n]) && NeverALeaseApart(lease, grants[0], init);
      assert n > 1 ==> calls[n - 2 + 1].endedAt < calls[n - 2].readAt + lease;
      HiddenThroughout(lease, init, grants[..n], at);
      var i :| 0 <= i < n && grants[..n][i] <= at < grants[..n][i] + lease;
      assert grants[i] <= at < grants[i] + lease;
    }
  }

  /** Successful calls with the whole lease stay less than a lease apart when the two
      calls and the time lost between them take less than half a lease. A lease of more
      than twenty seconds leaves room for both calls to take all of their timeouts. */
  lemma SuccessesStayClose(visibilityTimeout: int, startedAt: int, c: Call, d: Call)
    requires 1 <= visibilityTimeout
    requires CallBounds(visibilityTimeout, startedAt, c) && CallBounds(visibilityTimeout, startedAt, d)
    requires CallOutcome(visibilityTimeout, c) && Follows(c, d) && c.ok && Uncapped(visibilityTimeout, c)
    ensures d.endedAt < c.readAt + ConfiguredLease(visibilityTimeout) <==>
            (c.endedAt - c.readAt) + (c.armedAt - c.endedAt) +
            (d.readAt - (c.armedAt + c.delay)) + (d.endedAt - d.readAt)
              < ConfiguredLease(visibilityTimeout) / 2
    ensures visibilityTimeout > 20 && Lost(c, d) == 0 && d.endedAt - d.readAt <= d.timeout ==>
              d.endedAt < c.readAt + ConfiguredLease(visibilityTimeout)
  {
  }

  // ---- Hidden through a whole run ----

  /** What a round takes from the moment its timer is due until its call has ended. */
  function Approach(round: Round): nat { round.late + round.beforeCall + round.callTime }

  /** What a round takes from its call until its timer is armed again. */
  function Retreat(round: Round): nat { round.callTime + round.afterCall + round.beforeReset }

  /** The first n calls succeed, and from the receipt to the end of the first call, and
      from the start of every call to the end of the next, the environment takes less than
      half a lease of its own. */
  predicate Punctual(visibilityTimeout: int, received: nat, env: nat -> Round, n: nat) {
    var half := ConfiguredLease(visibilityTimeout) / 2;
    && (forall i :: 0 <= i < n ==> env(i).ok)
    && (n > 0 ==> received + Approach(env(0)) < half)
    && forall i: nat :: i + 1 < n ==> Retreat(env(i)) + Approach(env(i + 1)) < half
  }

  lemma PunctualCallsStayClose(visibilityTimeout: int, startedAt: int, env: nat -> Round, calls: seq<Call>,
                               received: nat, i: nat)
    requires 1 <= visibilityTimeout && Renewals(visibilityTimeout, startedAt, env, calls) && i + 1 < |calls|
    requires Uncapped(visibilityTimeout, calls[i]) && Punctual(visibilityTimeout, received, env, |calls|)
    ensures calls[i].endedAt <= calls[i + 1].readAt
    ensures calls[i + 1].endedAt < calls[i].readAt + ConfiguredLease(visibilityTimeout)
  {
    var c, d := calls[i], calls[i + 1];
    RenewalsFollow(visibilityTimeout, startedAt, env, calls, i);
    RenewalsFollow(visibilityTimeout, startedAt, env, calls, i + 1);
    RenewalAt(visibilityTimeout, startedAt, env, calls, i);
    RenewalAt(visibilityTimeout, startedAt, env, calls, i + 1);
    assert calls[..i + 1][|calls[..i + 1]| - 1] == c;
    assert Retreat(env(i)) + Approach(env(i + 1)) < ConfiguredLease(visibilityTimeout) / 2;
    SuccessesStayClose(visibilityTimeout, startedAt, c, d);
  }

  /** A run of punctual renewals that the lifetime does not cap keeps the message hidden
      from its receipt to the end of the last lease granted. */
  lemma HiddenWhileRenewed(visibilityTimeout: int, startedAt: int, env: nat -> Round, calls: seq<Call>,
                           grants: seq<int>, at: int)
    requires 1 <= visibilityTimeout && Renewals(visibilityTimeout, startedAt, env, calls)
    requires GrantsOf(calls, grants) && grants[0] <= startedAt
    requires forall i :: 0 <= i < |calls| ==> Uncapped(visibilityTimeout, calls[i])
    requires Punctual(visibilityTimeout, startedAt - grants[0], env, |calls|)
    requires grants[0] <= at < grants[|calls|] + ConfiguredLease(visibilityTimeout)
    ensures Hidden(grants, ConfiguredLease(visibilityTimeout), at)
  {
    var lease := ConfiguredLease(visibilityTimeout);
    if calls != [] {
      RenewalAt(visibilityTimeout, startedAt, env, calls, 0);
    }
    forall i | 0 <= i < |calls| - 1
      ensures calls[i].endedAt <= calls[i + 1].readAt && calls[i + 1].endedAt < calls[i].readAt + lease
    {
      PunctualCallsStayClose(visibilityTimeout, startedAt, env, calls, startedAt - grants[0], i);
    }
    HiddenThroughout(lease, calls, grants, at);
  }
}
