/**
 Re-dialling the media connection of a call: an exponential backoff whose attempt count only a long
 Live period (or leaving the call) may lower. Times are nanoseconds of a clock that never goes back.
 */
module Redial {
  import opened Text

  /** Seconds to wait before the given attempt (counted from 1). */
  function DelaySecs(attempts: nat): nat {
    if attempts == 0 then 0
    else
      var shift := if attempts < 5 then attempts else 5;
      var wait := Shifted(shift);
      if wait < 30 then wait else 30
  }

  /** 1 shifted left. */
  function Shifted(n: nat): nat {
    if n == 0 then 1 else 2 * Shifted(n - 1)
  }

  function Nanos(secs: nat): nat {
    secs * 1_000_000_000
  }

  datatype Backoff = Backoff(attempts: nat, at: Option<int>, liveSince: Option<int>)

  /** Where the call stands when the timer is polled. */
  datatype Call = NoCall | NoSession | InSession

  datatype Event =
    | Schedule(now: int)
    | Live(now: int)
    | PollStability(now: int)
    | Poll(now: int, call: Call)
    | Cancel(now: int)

  /** Live for at least 8 seconds. */
  predicate Stable(b: Backoff, now: int) {
    b.liveSince.Some? && now - b.liveSince.value >= 8_000_000_000
  }

  function Saturated(n: nat): nat {
    if n < 0xFFFF_FFFF then n else 0xFFFF_FFFF
  }

  function DoSchedule(b: Backoff, now: int): Backoff {
    var attempts := Saturated((if Stable(b, now) then 0 else b.attempts) + 1);
    Backoff(attempts, Some(now + Nanos(DelaySecs(attempts))), None)
  }

  function DoLive(b: Backoff, now: int): Backoff {
    b.(at := None, liveSince := if b.liveSince.None? then Some(now) else b.liveSince)
  }

  function DoPollStability(b: Backoff, now: int): Backoff {
    if b.attempts != 0 && Stable(b, now) then b.(attempts := 0) else b
  }

  function DoCancel(b: Backoff): Backoff {
    Backoff(0, None, None)
  }

  /** Fire a timer that is due: in a session this dials again. */
  function DoPoll(b: Backoff, now: int, call: Call): Backoff {
    if b.at.None? then b
    else if call.NoCall? then DoCancel(b)
    else if now < b.at.value then b
    else b.(at := None)
  }

  predicate Redials(b: Backoff, e: Event) {
    e.Poll? && e.call.InSession? && b.at.Some? && e.now >= b.at.value
  }

  function Step(b: Backoff, e: Event): Backoff {
    match e
    case Schedule(now) => DoSchedule(b, now)
    case Live(now) => DoLive(b, now)
    case PollStability(now) => DoPollStability(b, now)
    case Poll(now, call) => DoPoll(b, now, call)
    case Cancel(_) => DoCancel(b)
  }

  /** The event gives the attempt count back: the call is left, or a stable Live period is seen. */
  predicate Forgives(b: Backoff, e: Event) {
    || e.Cancel?
    || (e.Poll? && e.call.NoCall? && b.at.Some?)
    || ((e.Schedule? || e.PollStability?) && Stable(b, e.now))
  }

  /**
   Nothing else lowers the attempt count; a short Live does not. Forgiven it starts over, otherwise each drop
   counts one more.
   */
  lemma AttemptsFallOnlyIfForgiven(b: Backoff, e: Event)
    requires b.attempts <= 0xFFFF_FFFF
    ensures Step(b, e).attempts < b.attempts ==> Forgives(b, e)
    ensures Forgives(b, e) ==> Step(b, e).attempts == if e.Schedule? then 1 else 0
    ensures !Forgives(b, e) && !e.Schedule? ==> Step(b, e).attempts == b.attempts
    ensures !Forgives(b, e) && e.Schedule? && b.attempts < 0xFFFF_FFFF ==> Step(b, e).attempts == b.attempts + 1
  {
  }

  /** A drop waits two seconds exactly when it is the first, or the first after a stable Live period. */
  lemma FreshDropWaitsTwoSecondsIff(b: Backoff, now: int)
    ensures DoSchedule(b, now).at == Some(now + Nanos(2)) <==> Stable(b, now) || b.attempts == 0
  {
    var n := DoSchedule(b, now).attempts;
    assert Shifted(1) == 2 && Shifted(2) == 4;
    if n >= 2 { DelayMonotone(2, n); }
  }

  // ---- whole runs ------------------------------------------------------------------------

  predicate Ordered(from: int, events: seq<Event>) {
    && (forall i | 0 <= i < |events| :: from <= events[i].now)
    && (forall i, j | 0 <= i < j < |events| :: events[i].now <= events[j].now)
  }

  /** No event of the run forgives. */
  predicate Unforgiven(b: Backoff, events: seq<Event>)
    decreases |events|
  {
    events == [] || (!Forgives(b, events[0]) && Unforgiven(Step(b, events[0]), events[1..]))
  }

  /** When the run dials again. */
  function RedialTimes(b: Backoff, events: seq<Event>): seq<int>
    decreases |events|
  {
    if events == [] then []
    else (if Redials(b, events[0]) then [events[0].now] else []) + RedialTimes(Step(b, events[0]), events[1..])
  }

  /** The shortest time in which `n` re-dials can follow a first schedule. */
  function Budget(n: nat): nat {
    if n == 0 then 0 else Budget(n - 1) + Nanos(DelaySecs(n))
  }

  lemma DelayMonotone(a: nat, b: nat)
    requires a <= b
    ensures DelaySecs(a) <= DelaySecs(b) <= 30
    ensures DelaySecs(Saturated(a)) == DelaySecs(a)
  {
    assert Shifted(2) == 4 && Shifted(3) == 8 && Shifted(4) == 16 && Shifted(5) == 32;
  }

  /** Each attempt waits twice as long as the one before, from two seconds up to half a minute. */
  lemma DelayDoubles(attempts: nat)
    requires attempts >= 1
    ensures DelaySecs(attempts + 1) == if 2 * DelaySecs(attempts) < 30 then 2 * DelaySecs(attempts) else 30
    ensures DelaySecs(1) == 2
  {
    assert Shifted(1) == 2 && Shifted(2) == 4 && Shifted(3) == 8 && Shifted(4) == 16 && Shifted(5) == 32;
  }

  lemma {:induction false} BudgetIs(n: nat)
    requires n >= 4
    ensures Budget(n) == Nanos(30 * (n - 3))
  {
    if n > 4 { BudgetIs(n - 1); }
  }

  /** What holds after `k` re-dials since the first schedule at `t0`. */
  predicate Paced(b: Backoff, t0: int, now: int, k: nat) {
    && Saturated(k) <= b.attempts <= 0xFFFF_FFFF
    && t0 + Budget(k) <= now
    && (b.at.Some? ==> Saturated(k + 1) <= b.attempts && t0 + Budget(k + 1) <= b.at.value)
  }

  lemma StepKeepsPaced(b: Backoff, e: Event, t0: int, now: int, k: nat)
    requires Paced(b, t0, now, k) && now <= e.now && !Forgives(b, e)
    ensures Paced(Step(b, e), t0, e.now, if Redials(b, e) then k + 1 else k)
    ensures Redials(b, e) ==> t0 + Budget(k + 1) <= e.now
  {
    if e.Schedule? {
      var attempts := Step(b, e).attempts;
      DelayMonotone(k + 1, k + 1);
      DelayMonotone(Saturated(k + 1), attempts);
    }
  }

  lemma {:induction false} RedialsArePaced(b: Backoff, events: seq<Event>, t0: int, now: int, k: nat, i: nat)
    requires Paced(b, t0, now, k) && Ordered(now, events) && Unforgiven(b, events)
    requires i < |RedialTimes(b, events)|
    ensures t0 + Budget(k + i + 1) <= RedialTimes(b, events)[i]
    decreases |events|
  {
    var e, rest := events[0], events[1..];
    StepKeepsPaced(b, e, t0, now, k);
    assert RedialTimes(b, events) == (if Redials(b, e) then [e.now] else []) + RedialTimes(Step(b, e), rest);
    if !Redials(b, e) {
      RedialsArePaced(Step(b, e), rest, t0, e.now, k, i);
    } else if i > 0 {
      RedialsArePaced(Step(b, e), rest, t0, e.now, k + 1, i - 1);
    }
  }

  /**
   However dials, short Lives and further drops interleave, `n >= 4` timer-driven re-dials take at
   least 30(n - 3) seconds from the first schedule, unless the call is left or stays Live for 8 s.
   */
  lemma RedialBound(b: Backoff, t0: int, events: seq<Event>, n: nat)
    requires b.attempts <= 0xFFFF_FFFF && Ordered(t0, events) && Unforgiven(DoSchedule(b, t0), events)
    requires 4 <= n <= |RedialTimes(DoSchedule(b, t0), events)|
    ensures RedialTimes(DoSchedule(b, t0), events)[n - 1] - t0 >= Nanos(30 * (n - 3))
  {
    var c := DoSchedule(b, t0);
    DelayMonotone(1, c.attempts);
    assert Budget(1) == Budget(0) + Nanos(DelaySecs(1));
    RedialsArePaced(c, events, t0, t0, 0, n - 1);
    BudgetIs(n);
  }

  // ---- the bound is met ------------------------------------------------------------------

  /** `n` drops, each scheduled at once and dialled the moment its timer is due. */
  function Eager(attempts: nat, t: int, n: nat): seq<Event>
    decreases n
  {
    if n == 0 then []
    else
      var due := t + Nanos(DelaySecs(attempts));
      [Poll(due, InSession), Schedule(due)] + Eager(attempts + 1, due, n - 1)
  }

  lemma {:induction false} EagerOrdered(attempts: nat, t: int, n: nat)
    ensures Ordered(t, Eager(attempts, t, n))
    decreases n
  {
    if n > 0 {
      var due := t + Nanos(DelaySecs(attempts));
      var run, rest := Eager(attempts, t, n), Eager(attempts + 1, due, n - 1);
      EagerOrdered(attempts + 1, due, n - 1);
      assert forall i | 2 <= i < |run| :: run[i] == rest[i - 2];
    }
  }

  /** A due dial and the drop that follows it, then the rest. */
  lemma DialAndDrop(b: Backoff, due: int, rest: seq<Event>)
    requires b.at == Some(due) && b.liveSince.None?
    ensures var c, run := Step(b.(at := None), Schedule(due)), [Poll(due, InSession), Schedule(due)] + rest;
      && c == Backoff(Saturated(b.attempts + 1), Some(due + Nanos(DelaySecs(Saturated(b.attempts + 1)))), None)
      && RedialTimes(b, run) == [due] + RedialTimes(c, rest)
      && (Unforgiven(b, run) <==> Unforgiven(c, rest))
  {
    var run := [Poll(due, InSession), Schedule(due)] + rest;
    var fired := b.(at := None);
    assert run[1..] == [Schedule(due)] + rest && run[1..][1..] == rest;
    assert RedialTimes(fired, run[1..]) == RedialTimes(Step(fired, Schedule(due)), rest);
    assert Unforgiven(fired, run[1..]) <==> Unforgiven(Step(fired, Schedule(due)), rest);
  }

  /** Waiting for attempt `attempts` since `t`; the counter saturates, the delay has long stopped growing. */
  function Waiting(attempts: nat, t: int): Backoff {
    Backoff(Saturated(attempts), Some(t + Nanos(DelaySecs(attempts))), None)
  }

  /** When the eager run dials. */
  function EagerTimes(attempts: nat, t: int, n: nat): seq<int>
    requires attempts >= 1
  {
    seq(n, i requires 0 <= i < n => t + Budget(attempts + i) - Budget(attempts - 1))
  }

  lemma BudgetStep(attempts: nat)
    requires attempts >= 1
    ensures Budget(attempts) == Budget(attempts - 1) + Nanos(DelaySecs(attempts))
  {
  }

  lemma EagerTimesUnfold(attempts: nat, t: int, due: int, n: nat)
    requires attempts >= 1 && n > 0 && due == t + Budget(attempts) - Budget(attempts - 1)
    ensures EagerTimes(attempts, t, n) == [due] + EagerTimes(attempts + 1, due, n - 1)
  {
  }

  /** The eager run dials, schedules the next attempt, and goes on. */
  lemma EagerStep(attempts: nat, t: int, n: nat)
    requires attempts >= 1 && n > 0
    ensures var due := t + Nanos(DelaySecs(attempts));
      var wait, run := Waiting(attempts, t), Eager(attempts, t, n);
      var next, rest := Waiting(attempts + 1, due), Eager(attempts + 1, due, n - 1);
      && RedialTimes(wait, run) == [due] + RedialTimes(next, rest)
      && (Unforgiven(wait, run) <==> Unforgiven(next, rest))
  {
    var due := t + Nanos(DelaySecs(attempts));
    DelayMonotone(attempts + 1, attempts + 1);
    assert Saturated(Saturated(attempts) + 1) == Saturated(attempts + 1);
    DialAndDrop(Waiting(attempts, t), due, Eager(attempts + 1, due, n - 1));
  }

  lemma {:induction false} EagerRun(attempts: nat, t: int, n: nat)
    requires attempts >= 1
    ensures Unforgiven(Waiting(attempts, t), Eager(attempts, t, n))
    ensures RedialTimes(Waiting(attempts, t), Eager(attempts, t, n)) == EagerTimes(attempts, t, n)
    decreases n
  {
    if n > 0 {
      var due := t + Nanos(DelaySecs(attempts));
      EagerStep(attempts, t, n);
      EagerRun(attempts + 1, due, n - 1);
      BudgetStep(attempts);
      EagerTimesUnfold(attempts, t, due, n);
    }
  }

  /** The bound cannot be improved: for every n an unforgiven run meets it exactly. */
  lemma RedialBoundIsTight(t0: int, n: nat)
    requires n >= 4
    ensures var c, run := DoSchedule(Backoff(0, None, None), t0), Eager(1, t0, n);
      && Ordered(t0, run) && Unforgiven(c, run) && |RedialTimes(c, run)| == n
      && RedialTimes(c, run)[n - 1] - t0 == Nanos(30 * (n - 3))
  {
    EagerOrdered(1, t0, n);
    EagerRun(1, t0, n);
    BudgetIs(n);
  }
}
