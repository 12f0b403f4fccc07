/** Failed-login lockout and the per-client sliding-window rate limit
    (`core/middleware.py`). Each request handler call becomes one pure
    transition; the clock reading is a parameter in microseconds. */
module Throttling {

  /** Microseconds since the epoch. */
  type Time = int

  const Second := 1_000_000

  /** The entries of `times` strictly later than `cutoff`, in order: the
      list comprehension both classes use to forget old entries. */
  function Prune(times: seq<Time>, cutoff: Time): (r: seq<Time>)
    ensures |r| <= |times|
    ensures forall k :: 0 <= k < |r| ==> r[k] > cutoff
  {
    if |times| == 0 then []
    else (if times[0] > cutoff then [times[0]] else []) + Prune(times[1..], cutoff)
  }

  /** Pruning keeps exactly the entries later than the cutoff. */
  lemma {:induction false} PruneMembers(times: seq<Time>, cutoff: Time)
    ensures forall t :: t in Prune(times, cutoff) <==> t in times && t > cutoff
  {
    if |times| > 0 {
      PruneMembers(times[1..], cutoff);
      assert times == [times[0]] + times[1..];
    }
  }

  lemma {:induction false} PruneConcat(a: seq<Time>, b: seq<Time>, cutoff: Time)
    ensures Prune(a + b, cutoff) == Prune(a, cutoff) + Prune(b, cutoff)
  {
    if |a| > 0 {
      assert (a + b)[1..] == a[1..] + b;
      PruneConcat(a[1..], b, cutoff);
    } else {
      assert a + b == b;
    }
  }

  lemma {:induction false} PruneKeepsRecent(times: seq<Time>, cutoff: Time)
    requires forall k :: 0 <= k < |times| ==> times[k] > cutoff
    ensures Prune(times, cutoff) == times
  {
    if |times| > 0 {
      PruneKeepsRecent(times[1..], cutoff);
    }
  }

  /** Pruning twice is pruning once with the later cutoff. */
  lemma {:induction false} PruneTwice(times: seq<Time>, c1: Time, c2: Time)
    requires c1 <= c2
    ensures Prune(Prune(times, c1), c2) == Prune(times, c2)
  {
    if |times| > 0 {
      var head := if times[0] > c1 then [times[0]] else [];
      PruneConcat(head, Prune(times[1..], c1), c2);
      PruneTwice(times[1..], c1, c2);
    }
  }

  predicate NonDecreasing(times: seq<Time>) {
    forall i, j :: 0 <= i <= j < |times| ==> times[i] <= times[j]
  }

  // =====================================================================
  // LoginAttemptTracker

  /** Tracker state: thresholds, failed-attempt times per identifier, and
      lock expiry per locked identifier. */
  datatype Tracker = Tracker(
    maxAttempts: int,
    lockoutDuration: int,
    attempts: map<string, seq<Time>>,
    locked: map<string, Time>)
  {
    /** The lockout window in microseconds. */
    function Window(): int { lockoutDuration * Second }
  }

  /** A fresh tracker with the constructor defaults (5 attempts, 900 s). */
  function NewTracker(): Tracker {
    Tracker(5, 900, map[], map[])
  }

  /** The attempt list, empty when absent (the `defaultdict(list)`). */
  function Attempts(t: Tracker, id: string): seq<Time> {
    if id in t.attempts then t.attempts[id] else []
  }

  /** Nothing recorded for identifiers other than `id` changed. */
  ghost predicate OthersUnchanged(t: Tracker, t': Tracker, id: string) {
    && t'.maxAttempts == t.maxAttempts && t'.lockoutDuration == t.lockoutDuration
    && (forall x :: x != id ==> (x in t'.attempts <==> x in t.attempts))
    && (forall x :: x != id && x in t.attempts ==> t'.attempts[x] == t.attempts[x])
    && (forall x :: x != id ==> (x in t'.locked <==> x in t.locked))
    && (forall x :: x != id && x in t.locked ==> t'.locked[x] == t.locked[x])
  }

  /** `record_failed_attempt`: forget attempts older than the window, add
      this one, and lock when the count reaches the threshold. */
  function RecordFailedAttempt(t: Tracker, id: string, now: Time): (t': Tracker)
    ensures id in t'.attempts && |t'.attempts[id]| > 0
    ensures t'.attempts[id][|t'.attempts[id]| - 1] == now
    ensures forall x :: x in t'.attempts[id] <==> x == now || (x in Attempts(t, id) && x > now - t.Window())
    ensures forall x :: x in t'.attempts[id] && x != now ==> x > now - t.Window()
    ensures |t'.attempts[id]| >= t.maxAttempts ==> t'.locked == t.locked[id := now + t.Window()]
    ensures |t'.attempts[id]| < t.maxAttempts ==> t'.locked == t.locked
    ensures OthersUnchanged(t, t', id)
  {
    PruneMembers(Attempts(t, id), now - t.Window());
    var kept := Prune(Attempts(t, id), now - t.Window()) + [now];
    var locked := if |kept| >= t.maxAttempts then t.locked[id := now + t.Window()] else t.locked;
    t.(attempts := t.attempts[id := kept], locked := locked)
  }

  datatype LockCheck = LockCheck(tracker: Tracker, locked: bool)

  /** `is_locked`: an expired lock is removed and the attempts cleared. */
  function IsLocked(t: Tracker, id: string, now: Time): (r: LockCheck)
    ensures r.locked <==> id in t.locked && now <= t.locked[id]
    ensures id !in t.locked ==> r.tracker == t
    ensures r.locked ==> r.tracker == t
    ensures id in t.locked && now > t.locked[id] ==>
              && id !in r.tracker.locked && Attempts(r.tracker, id) == []
              && OthersUnchanged(t, r.tracker, id)
  {
    if id !in t.locked then LockCheck(t, false)
    else if now > t.locked[id] then
      LockCheck(t.(attempts := t.attempts[id := []], locked := t.locked - {id}), false)
    else LockCheck(t, true)
  }

  /** Python's `int()` of a float: truncation toward zero. */
  function TruncDiv(a: int, b: int): int
    requires b > 0
  {
    if a >= 0 then a / b else -((-a) / b)
  }

  /** `get_remaining_lockout_time`: whole seconds left, never negative. */
  function GetRemainingLockoutTime(t: Tracker, id: string, now: Time): (secs: int)
    ensures secs >= 0
    ensures id !in t.locked ==> secs == 0
    ensures id in t.locked ==> secs * Second <= (if t.locked[id] > now then t.locked[id] - now else 0) < (secs + 1) * Second
  {
    if id !in t.locked then 0
    else
      var remaining := TruncDiv(t.locked[id] - now, Second);
      if remaining > 0 then remaining else 0
  }

  /** `clear_attempts`: no attempts and no lock for `id`. */
  function ClearAttempts(t: Tracker, id: string): (t': Tracker)
    ensures Attempts(t', id) == [] && id !in t'.locked
    ensures OthersUnchanged(t, t', id)
  {
    t.(attempts := t.attempts[id := []], locked := t.locked - {id})
  }

  datatype AttemptCount = AttemptCount(tracker: Tracker, count: nat)

  /** `get_attempt_count`: prune, store, and count what is left. */
  function GetAttemptCount(t: Tracker, id: string, now: Time): (r: AttemptCount)
    ensures r.count == |Attempts(r.tracker, id)| <= |Attempts(t, id)|
    ensures Attempts(r.tracker, id) == Prune(Attempts(t, id), now - t.Window())
    ensures forall x :: x in Attempts(r.tracker, id) <==> x in Attempts(t, id) && x > now - t.Window()
    ensures r.tracker.locked == t.locked && OthersUnchanged(t, r.tracker, id)
  {
    PruneMembers(Attempts(t, id), now - t.Window());
    var kept := Prune(Attempts(t, id), now - t.Window());
    AttemptCount(t.(attempts := t.attempts[id := kept]), |kept|)
  }

  /** With a positive lockout duration, counting right after a failure sees
      every attempt the failure kept, the new one included. */
  lemma CountAfterRecord(t: Tracker, id: string, now: Time)
    requires t.lockoutDuration > 0
    ensures var t' := RecordFailedAttempt(t, id, now);
            var r := GetAttemptCount(t', id, now);
            && r.count == |t'.attempts[id]| >= 1
            && r.tracker == t'
  {
    var t' := RecordFailedAttempt(t, id, now);
    RecordStep(t, id, now);
    RepruneAfterAppend(Attempts(t, id), now, now - t.Window());
    assert t'.attempts[id := Attempts(t', id)] == t'.attempts;
  }

  /** Pruning again at the same cutoff after appending a later time changes
      nothing. */
  lemma RepruneAfterAppend(a: seq<Time>, now: Time, cutoff: Time)
    requires now > cutoff
    ensures Prune(Prune(a, cutoff) + [now], cutoff) == Prune(a, cutoff) + [now]
  {
    PruneConcat(Prune(a, cutoff), [now], cutoff);
    PruneTwice(a, cutoff, cutoff);
    assert Prune([now], cutoff) == [now];
  }

  /** A lock set by a failed attempt holds until it expires and is gone
      right after. */
  lemma LockHoldsForWindow(t: Tracker, id: string, now: Time, later: Time)
    requires t.lockoutDuration >= 0 && now <= later
    requires |RecordFailedAttempt(t, id, now).attempts[id]| >= t.maxAttempts
    ensures IsLocked(RecordFailedAttempt(t, id, now), id, later).locked <==> later <= now + t.Window()
  {
  }

  /** Clearing always unlocks. */
  lemma ClearUnlocks(t: Tracker, id: string, now: Time)
    ensures !IsLocked(ClearAttempts(t, id), id, now).locked
    ensures GetRemainingLockoutTime(ClearAttempts(t, id), id, now) == 0
  {
  }

  /** Failed attempts at the given times, oldest first. */
  function RecordAll(t: Tracker, id: string, times: seq<Time>): Tracker
  {
    if |times| == 0 then t
    else RecordFailedAttempt(RecordAll(t, id, times[..|times| - 1]), id, times[|times| - 1])
  }

  /** One failed attempt, seen from the attempt list of its identifier. */
  lemma RecordStep(t: Tracker, id: string, now: Time)
    ensures var t' := RecordFailedAttempt(t, id, now);
            && Attempts(t', id) == Prune(Attempts(t, id), now - t.Window()) + [now]
            && t'.Window() == t.Window() && t'.maxAttempts == t.maxAttempts
  {
  }

  lemma RecordAllUnfold(t: Tracker, id: string, times: seq<Time>)
    requires |times| > 0
    ensures RecordAll(t, id, times) == RecordFailedAttempt(RecordAll(t, id, times[..|times| - 1]), id, times[|times| - 1])
  {
  }

  /** Pruning a list that ends with recent entries keeps them at its end. */
  lemma PruneKeepsRecentTail(a: seq<Time>, recent: seq<Time>, cutoff: Time)
    requires |a| >= |recent| && a[|a| - |recent|..] == recent
    requires forall k :: 0 <= k < |recent| ==> recent[k] > cutoff
    ensures var p := Prune(a, cutoff);
            |p| >= |recent| && p[|p| - |recent|..] == recent
  {
    var older := a[..|a| - |recent|];
    assert a == older + recent;
    PruneConcat(older, recent, cutoff);
    PruneKeepsRecent(recent, cutoff);
    var kept := Prune(older, cutoff);
    assert Prune(a, cutoff) == kept + recent;
  }

  /** The attempt list after failures at `times`, starting from `a0`. */
  function AttemptsAfter(a0: seq<Time>, window: int, times: seq<Time>): seq<Time> {
    if |times| == 0 then a0
    else
      var now := times[|times| - 1];
      Prune(AttemptsAfter(a0, window, times[..|times| - 1]), now - window) + [now]
  }

  lemma {:induction false} RecordAllAttempts(t: Tracker, id: string, times: seq<Time>)
    ensures RecordAll(t, id, times).Window() == t.Window()
    ensures RecordAll(t, id, times).maxAttempts == t.maxAttempts
    ensures Attempts(RecordAll(t, id, times), id) == AttemptsAfter(Attempts(t, id), t.Window(), times)
  {
    if |times| > 0 {
      var init := times[..|times| - 1];
      RecordAllAttempts(t, id, init);
      RecordAllUnfold(t, id, times);
      RecordStep(RecordAll(t, id, init), id, times[|times| - 1]);
    }
  }

  /** Within one window, every failure of a burst is still on the list. */
  lemma AttemptsKeepBurst(a0: seq<Time>, window: int, times: seq<Time>)
    requires |times| > 0 && NonDecreasing(times)
    requires times[|times| - 1] - times[0] < window
    ensures EndsWith(AttemptsAfter(a0, window, times), times)
  {
    var lo := times[0];
    forall k | 0 <= k < |times|
      ensures lo <= times[k] < lo + window
    {
      assert times[0] <= times[k] <= times[|times| - 1];
    }
    AttemptsKeepSpan(a0, window, times, lo);
  }

  /** `a` ends with the entries of `tail`, in order. */
  predicate EndsWith(a: seq<Time>, tail: seq<Time>) {
    |a| >= |tail| && a[|a| - |tail|..] == tail
  }

  /** Failures that all fall in one span `[lo, lo + window)` are all still
      on the list after the last of them. */
  lemma {:induction false} AttemptsKeepSpan(a0: seq<Time>, window: int, times: seq<Time>, lo: Time)
    requires forall k :: 0 <= k < |times| ==> lo <= times[k] < lo + window
    ensures EndsWith(AttemptsAfter(a0, window, times), times)
  {
    if |times| > 0 {
      SpanPrefix(times, window, lo);
      AttemptsKeepSpan(a0, window, times[..|times| - 1], lo);
      SpanStep(a0, window, times);
    } else {
      var a := AttemptsAfter(a0, window, times);
      assert a[|a|..] == [] == times;
    }
  }

  /** One more failure of the span keeps the whole span on the list. */
  lemma {:induction false} SpanStep(a0: seq<Time>, window: int, times: seq<Time>)
    requires |times| > 0
    requires var init := times[..|times| - 1];
             && EndsWith(AttemptsAfter(a0, window, init), init)
             && (forall k :: 0 <= k < |init| ==> init[k] > times[|times| - 1] - window)
    ensures EndsWith(AttemptsAfter(a0, window, times), times)
  {
    var init := times[..|times| - 1];
    var now := times[|times| - 1];
    AttemptsAfterLast(a0, window, times);
    BurstExtends(AttemptsAfter(a0, window, init), init, now, window);
    assert init + [now] == times;
  }

  /** Dropping the last time of a span leaves a span, all of whose entries
      are inside the window that ends at the dropped one. */
  lemma SpanPrefix(times: seq<Time>, window: int, lo: Time)
    requires |times| > 0
    requires forall k :: 0 <= k < |times| ==> lo <= times[k] < lo + window
    ensures var init := times[..|times| - 1];
            && (forall k :: 0 <= k < |init| ==> lo <= init[k] < lo + window)
            && (forall k :: 0 <= k < |init| ==> init[k] > times[|times| - 1] - window)
  {
  }

  lemma AttemptsAfterLast(a0: seq<Time>, window: int, times: seq<Time>)
    requires |times| > 0
    ensures AttemptsAfter(a0, window, times) ==
              Prune(AttemptsAfter(a0, window, times[..|times| - 1]), times[|times| - 1] - window) + [times[|times| - 1]]
  {
  }

  /** A list ending with a burst, pruned at the next failure's cutoff and
      extended by it, ends with the burst extended by that failure. */
  lemma BurstExtends(a: seq<Time>, burst: seq<Time>, now: Time, window: int)
    requires |a| >= |burst| && a[|a| - |burst|..] == burst
    requires forall k :: 0 <= k < |burst| ==> burst[k] > now - window
    ensures EndsWith(Prune(a, now - window) + [now], burst + [now])
  {
    PruneKeepsRecentTail(a, burst, now - window);
    SuffixAppend(Prune(a, now - window), burst, now);
  }

  lemma SuffixAppend(p: seq<Time>, tail: seq<Time>, x: Time)
    requires |p| >= |tail| && p[|p| - |tail|..] == tail
    ensures (p + [x])[|p| - |tail|..] == tail + [x]
  {
    assert (p + [x])[|p| - |tail|..] == p[|p| - |tail|..] + [x];
  }

  /** A burst of at least `maxAttempts` failures within one lockout window
      locks the identifier until the window after the last failure ends. */
  lemma BurstLocks(t: Tracker, id: string, times: seq<Time>)
    requires |times| > 0 && NonDecreasing(times)
    requires |times| >= t.maxAttempts
    requires times[|times| - 1] - times[0] < t.Window()
    ensures var t' := RecordAll(t, id, times);
            id in t'.locked && t'.locked[id] == times[|times| - 1] + t.Window()
  {
    RecordAllAttempts(t, id, times[..|times| - 1]);
    AttemptsKeepBurst(Attempts(t, id), t.Window(), times);
    RecordAllUnfold(t, id, times);
    RecordStep(RecordAll(t, id, times[..|times| - 1]), id, times[|times| - 1]);
    RecordAllAttempts(t, id, times);
  }

  // =====================================================================
  // RateLimitMiddleware

  /** Limiter state: `calls` requests per `period` seconds per client. */
  datatype RateLimiter = RateLimiter(calls: int, period: int, requests: map<string, seq<Time>>)
  {
    function Window(): int { period * Second }
  }

  /** The middleware as installed: 100 requests per 60 seconds. */
  function NewRateLimiter(): RateLimiter {
    RateLimiter(100, 60, map[])
  }

  function Requests(r: RateLimiter, ip: string): seq<Time> {
    if ip in r.requests then r.requests[ip] else []
  }

  /** A rejection (429, with `retry_after`) or a pass with the values of the
      `X-RateLimit-Limit` and `X-RateLimit-Remaining` headers. */
  datatype Decision = Rejected(retryAfter: int) | Accepted(limit: int, remaining: int)

  datatype Dispatched = Dispatched(limiter: RateLimiter, decision: Decision)

  /** The limit decision of `RateLimitMiddleware.dispatch`. */
  function Dispatch(r: RateLimiter, ip: string, now: Time): (d: Dispatched)
    ensures d.limiter.calls == r.calls && d.limiter.period == r.period
    ensures ip in d.limiter.requests
    ensures var pruned := Prune(Requests(r, ip), now - r.Window());
            && (d.decision.Rejected? <==> |pruned| >= r.calls)
            && (d.decision.Rejected? ==> d.limiter.requests[ip] == pruned && d.decision.retryAfter == r.period)
            && (d.decision.Accepted? ==>
                  && d.limiter.requests[ip] == pruned + [now]
                  && d.decision.limit == r.calls
                  && d.decision.remaining == r.calls - |d.limiter.requests[ip]| >= 0)
  {
    var pruned := Prune(Requests(r, ip), now - r.Window());
    if |pruned| >= r.calls then
      Dispatched(r.(requests := r.requests[ip := pruned]), Rejected(r.period))
    else
      var window := pruned + [now];
      Dispatched(r.(requests := r.requests[ip := window]), Accepted(r.calls, r.calls - |window|))
  }

  /** A request from one client leaves every other client's window alone. */
  lemma DispatchIsolated(r: RateLimiter, ip: string, now: Time)
    ensures var d := Dispatch(r, ip, now);
            d.limiter.requests.Keys == r.requests.Keys + {ip}
            && forall x :: x != ip && x in r.requests ==> d.limiter.requests[x] == r.requests[x]
  {
  }

  /** No stored window is longer than `calls`. */
  ghost predicate WindowsBounded(r: RateLimiter) {
    forall ip :: ip in r.requests ==> |r.requests[ip]| <= r.calls
  }

  lemma DispatchKeepsBound(r: RateLimiter, ip: string, now: Time)
    requires r.calls >= 0 && WindowsBounded(r)
    ensures WindowsBounded(Dispatch(r, ip, now).limiter)
  {
  }

  datatype Run = Run(limiter: RateLimiter, accepted: seq<Time>)

  /** Requests from one client at the given times, oldest first; `accepted`
      lists the times that were let through. */
  function RunRequests(r: RateLimiter, ip: string, times: seq<Time>): (run: Run)
    ensures run.limiter.calls == r.calls && run.limiter.period == r.period
  {
    if |times| == 0 then Run(r, [])
    else
      var prev := RunRequests(r, ip, times[..|times| - 1]);
      var d := Dispatch(prev.limiter, ip, times[|times| - 1]);
      Run(d.limiter, prev.accepted + (if d.decision.Accepted? then [times[|times| - 1]] else []))
  }

  /** One dispatch, seen from the client's stored window. */
  lemma DispatchStep(r: RateLimiter, ip: string, now: Time)
    ensures var pruned := Prune(Requests(r, ip), now - r.Window());
            var d := Dispatch(r, ip, now);
            && (|pruned| >= r.calls ==> Requests(d.limiter, ip) == pruned && d.decision.Rejected?)
            && (|pruned| < r.calls ==> Requests(d.limiter, ip) == pruned + [now] && d.decision.Accepted?)
  {
  }

  lemma RunUnfold(r: RateLimiter, ip: string, times: seq<Time>)
    requires |times| > 0
    ensures var prev := RunRequests(r, ip, times[..|times| - 1]);
            var now := times[|times| - 1];
            var d := Dispatch(prev.limiter, ip, now);
            RunRequests(r, ip, times) == Run(d.limiter, prev.accepted + (if d.decision.Accepted? then [now] else []))
  {
  }

  /** What one client sees of a run, on sequences alone: its stored window
      and the requests let through. */
  datatype Trace = Trace(window: seq<Time>, accepted: seq<Time>)

  function Replay(calls: int, window: int, times: seq<Time>): Trace {
    if |times| == 0 then Trace([], [])
    else
      var prev := Replay(calls, window, times[..|times| - 1]);
      var now := times[|times| - 1];
      var pruned := Prune(prev.window, now - window);
      if |pruned| >= calls then Trace(pruned, prev.accepted)
      else Trace(pruned + [now], prev.accepted + [now])
  }

  /** A run of the middleware from an empty window is its replay. */
  lemma {:induction false} RunReplays(r: RateLimiter, ip: string, times: seq<Time>)
    requires Requests(r, ip) == []
    ensures var run := RunRequests(r, ip, times);
            var trace := Replay(r.calls, r.Window(), times);
            Requests(run.limiter, ip) == trace.window && run.accepted == trace.accepted
  {
    if |times| > 0 {
      var init := times[..|times| - 1];
      RunReplays(r, ip, init);
      RunReplayStep(r, ip, init, times[|times| - 1]);
      assert init + [times[|times| - 1]] == times;
    }
  }

  /** One more request keeps a run in step with its replay. */
  lemma {:induction false} RunReplayStep(r: RateLimiter, ip: string, init: seq<Time>, now: Time)
    requires Requests(RunRequests(r, ip, init).limiter, ip) == Replay(r.calls, r.Window(), init).window
    requires RunRequests(r, ip, init).accepted == Replay(r.calls, r.Window(), init).accepted
    ensures Requests(RunRequests(r, ip, init + [now]).limiter, ip) == Replay(r.calls, r.Window(), init + [now]).window
    ensures RunRequests(r, ip, init + [now]).accepted == Replay(r.calls, r.Window(), init + [now]).accepted
  {
    var prev := RunRequests(r, ip, init);
    RunLast(r, ip, init, now);
    ReplayLast(r.calls, r.Window(), init, now);
    StepAgrees(prev.limiter, prev.accepted, ip, now, r.calls, r.Window());
  }

  /** Dispatch on a limiter whose stored window is `Requests(l, ip)` does
      what one replay step does to that window. */
  lemma StepAgrees(l: RateLimiter, acc: seq<Time>, ip: string, now: Time, calls: int, window: int)
    requires l.calls == calls && l.Window() == window
    ensures var d := Dispatch(l, ip, now);
            var pruned := Prune(Requests(l, ip), now - window);
            && Requests(d.limiter, ip) == (if |pruned| >= calls then pruned else pruned + [now])
            && acc + (if d.decision.Accepted? then [now] else []) == (if |pruned| >= calls then acc else acc + [now])
  {
    DispatchStep(l, ip, now);
  }

  lemma {:induction false} RunLast(r: RateLimiter, ip: string, init: seq<Time>, now: Time)
    ensures var prev := RunRequests(r, ip, init);
            var d := Dispatch(prev.limiter, ip, now);
            RunRequests(r, ip, init + [now]) == Run(d.limiter, prev.accepted + (if d.decision.Accepted? then [now] else []))
  {
    var times := init + [now];
    assert times[..|times| - 1] == init;
    RunUnfold(r, ip, times);
  }

  lemma {:induction false} ReplayLast(calls: int, window: int, init: seq<Time>, now: Time)
    ensures var prev := Replay(calls, window, init);
            var pruned := Prune(prev.window, now - window);
            Replay(calls, window, init + [now]) ==
              if |pruned| >= calls then Trace(pruned, prev.accepted)
              else Trace(pruned + [now], prev.accepted + [now])
  {
    var times := init + [now];
    assert times[..|times| - 1] == init;
  }

  /** The replayed window never exceeds `calls`. */
  lemma {:induction false} ReplayBounded(calls: int, window: int, times: seq<Time>)
    requires calls >= 0
    ensures |Replay(calls, window, times).window| <= calls
  {
    if |times| > 0 {
      ReplayBounded(calls, window, times[..|times| - 1]);
    }
  }

  /** The replayed window is exactly the accepted requests of the last
      period. */
  lemma {:induction false} ReplayWindowIsRecent(calls: int, window: int, times: seq<Time>)
    requires window > 0 && |times| > 0 && NonDecreasing(times)
    ensures var trace := Replay(calls, window, times);
            trace.window == Prune(trace.accepted, times[|times| - 1] - window)
  {
    var init := times[..|times| - 1];
    var now := times[|times| - 1];
    var prev := Replay(calls, window, init);
    var cutoff := now - window;
    assert Prune([now], cutoff) == [now];
    if |init| == 0 {
      assert Prune([], cutoff) == [];
    } else {
      assert NonDecreasing(init);
      ReplayWindowIsRecent(calls, window, init);
      var last := init[|init| - 1];
      assert last <= now;
      PruneTwice(prev.accepted, last - window, cutoff);
      PruneConcat(prev.accepted, [now], cutoff);
    }
  }

  /** The rate limit holds: from an empty window, at most `calls` requests
      are let through in any trailing period of a run. */
  lemma RateLimitHolds(r: RateLimiter, ip: string, times: seq<Time>)
    requires r.period > 0 && r.calls >= 0 && Requests(r, ip) == []
    requires |times| > 0 && NonDecreasing(times)
    ensures var run := RunRequests(r, ip, times);
            |Prune(run.accepted, times[|times| - 1] - r.Window())| <= r.calls
  {
    RunReplays(r, ip, times);
    assert r.Window() > 0;
    ReplayWindowIsRecent(r.calls, r.Window(), times);
    ReplayBounded(r.calls, r.Window(), times);
  }
}
