/** `RateLimitController` as a state machine. A request is decided when its
    observable is subscribed (`Subscribe`); the 60-second reset timer and
    `destroy` are the other two events. Requests are identified by numbers;
    the emissions say what the subscriber of each request sees. */
module RateLimit {
  /** Length of one rate window, in seconds. */
  const RateIntervalSec: nat := 60

  /** The reset subscription: never created, running, already fired, or
      unsubscribed by `destroy`. Fired and cancelled subscriptions are
      `closed`. */
  datatype Timer = NoTimer | Running | Fired | Cancelled

  predicate Closed(t: Timer) {
    t.Fired? || t.Cancelled?
  }

  /** `held` are the requests waiting for the next reset, in arrival order;
      `open` is false once the reset subject has completed. */
  datatype Limiter = Limiter(limit: int, count: int, timer: Timer, held: seq<nat>, open: bool)

  /** What a request's subscriber receives: the source directly, or a
      `RateLimitWaitEvent` followed by the source. */
  datatype Emission = PassThrough(req: nat) | WaitThenPass(req: nat)

  datatype Step = Step(next: Limiter, emitted: seq<Emission>)

  function Init(limit: int): (l: Limiter)
    ensures l.count == 0 && l.held == [] && l.open && l.timer == NoTimer
  {
    Limiter(limit, 0, NoTimer, [], true)
  }

  /** The invariant kept by every event while the quota is positive. */
  predicate Valid(l: Limiter) {
    && l.limit >= 1
    && 0 <= l.count <= l.limit
    && (l.held != [] ==> l.open && l.count == l.limit)
    && (l.open ==> (l.count > 0 <==> l.timer.Running?))
  }

  /** The deferred body of `getLimited`. At the limit the request is held
      without counting it; once the subject has completed, the delayed wait
      event is dropped and the source follows at once. Below the limit the
      count goes up by one, and a timer starts when the count becomes 1 or
      the previous timer is closed. */
  function Subscribe(l: Limiter, req: nat): (s: Step)
    ensures l.count == l.limit && l.open ==> s == Step(l.(held := l.held + [req]), [])
    ensures l.count == l.limit && !l.open ==> s == Step(l, [PassThrough(req)])
    ensures l.count != l.limit ==> s.next.count == l.count + 1 && s.emitted == [PassThrough(req)]
    ensures l.count != l.limit ==> s.next.held == l.held && s.next.open == l.open && s.next.limit == l.limit
    ensures l.count != l.limit && (l.count == 0 || Closed(l.timer)) ==> s.next.timer.Running?
    ensures l.count != l.limit && l.count != 0 && !Closed(l.timer) ==> s.next.timer == l.timer
  {
    if l.count == l.limit then
      if l.open then Step(l.(held := l.held + [req]), [])
      else Step(l, [PassThrough(req)])
    else
      var count := l.count + 1;
      var timer := if count == 1 || Closed(l.timer) then Running else l.timer;
      Step(l.(count := count, timer := timer), [PassThrough(req)])
  }

  function Released(held: seq<nat>, wait: bool): (r: seq<Emission>)
    ensures |r| == |held|
    ensures forall i :: 0 <= i < |r| ==> r[i] == (if wait then WaitThenPass(held[i]) else PassThrough(held[i]))
  {
    if held == [] then []
    else [if wait then WaitThenPass(held[0]) else PassThrough(held[0])] + Released(held[1..], wait)
  }

  /** The timer callback: the count drops to 0 and `reset$.next()` releases
      every held request, each seeing its wait event and then its source. */
  function Fire(l: Limiter): (s: Step)
    requires l.timer.Running?
    ensures s.next.count == 0 && s.next.held == [] && s.next.timer == Fired
    ensures s.next.limit == l.limit && s.next.open == l.open
    ensures s.emitted == Released(l.held, true)
  {
    Step(l.(count := 0, timer := Fired, held := []), Released(l.held, true))
  }

  /** `destroy`: the pending timer is unsubscribed and the subject
      completes. A request still held then loses its wait event and
      subscribes its source. */
  function Destroy(l: Limiter): (s: Step)
    ensures !s.next.open && s.next.held == [] && !s.next.timer.Running?
    ensures s.next.count == l.count && s.next.limit == l.limit
    ensures s.emitted == Released(l.held, false)
  {
    var timer := if l.timer.Running? then Cancelled else l.timer;
    Step(l.(timer := timer, held := [], open := false), Released(l.held, false))
  }

  lemma InitValid(limit: int)
    requires limit >= 1
    ensures Valid(Init(limit))
  {
  }

  /** `0 <= count <= limit` and the other invariant clauses survive every
      event. */
  lemma SubscribePreservesValid(l: Limiter, req: nat)
    requires Valid(l)
    ensures Valid(Subscribe(l, req).next)
  {
  }

  lemma FirePreservesValid(l: Limiter)
    requires Valid(l) && l.timer.Running?
    ensures Valid(Fire(l).next)
  {
  }

  lemma DestroyPreservesValid(l: Limiter)
    requires Valid(l)
    ensures Valid(Destroy(l).next)
  {
  }

  /** After `destroy` no request is ever held again. */
  lemma DestroyedNeverHolds(l: Limiter, req: nat)
    requires !l.open && l.held == []
    ensures Subscribe(l, req).next.held == [] && Subscribe(l, req).emitted == [PassThrough(req)]
  {
  }

  /** Subscribes the requests one after another. */
  function Run(l: Limiter, reqs: seq<nat>): (s: Step)
    ensures |s.emitted| <= |reqs|
    ensures s.next.limit == l.limit && s.next.open == l.open
    decreases |reqs|
  {
    if reqs == [] then Step(l, [])
    else
      var first := Subscribe(l, reqs[0]);
      var rest := Run(first.next, reqs[1..]);
      Step(rest.next, first.emitted + rest.emitted)
  }

  function Min(a: int, b: int): int {
    if a <= b then a else b
  }

  /** Within one window, the first `limit - count` requests pass through,
      the rest are held in arrival order, and the count stops at the limit. */
  lemma {:induction false} RunWithinWindow(l: Limiter, reqs: seq<nat>)
    requires Valid(l) && l.open
    ensures var n := Min(l.limit - l.count, |reqs|);
      && Run(l, reqs).emitted == Released(reqs[..n], false)
      && Run(l, reqs).next.held == l.held + reqs[n..]
      && Run(l, reqs).next.count == l.count + n
      && Valid(Run(l, reqs).next)
    decreases |reqs|
  {
    if reqs != [] {
      var first := Subscribe(l, reqs[0]);
      SubscribePreservesValid(l, reqs[0]);
      RunWithinWindow(first.next, reqs[1..]);
      var n := Min(l.limit - l.count, |reqs|);
      if l.count == l.limit {
        assert n == 0;
        assert l.held + reqs[..] == l.held + [reqs[0]] + reqs[1..];
      } else {
        assert reqs[..n] == [reqs[0]] + reqs[1..][..n - 1];
        assert reqs[n..] == reqs[1..][n - 1..];
      }
    }
  }

  /** From a fresh limiter, `limit + k` requests: `limit` pass, `k` wait,
      and the next reset releases exactly those `k`, in order, with a wait
      event each. */
  lemma BurstThenReset(limit: int, reqs: seq<nat>)
    requires limit >= 1 && |reqs| >= limit
    ensures Run(Init(limit), reqs).emitted == Released(reqs[..limit], false)
    ensures Run(Init(limit), reqs).next.timer.Running?
    ensures Fire(Run(Init(limit), reqs).next).emitted == Released(reqs[limit..], true)
    ensures Fire(Run(Init(limit), reqs).next).next.count == 0
  {
    RunWithinWindow(Init(limit), reqs);
    assert [] + reqs[limit..] == reqs[limit..];
  }
}
