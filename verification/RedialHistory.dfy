/**
 The redial timer told from its history: what is pending, since when the media is Live, and when the timer
 dials are each a matter of which events came since the last drop.
 */
module RedialHistory {
  import opened Text
  import opened Redial

  const FRESH := Backoff(0, None, None)

  /** The timer after the events, from a fresh start. */
  function After(es: seq<Event>): Backoff {
    if es == [] then FRESH else Step(After(es[..|es| - 1]), es[|es| - 1])
  }

  /** The media is lost, or the call is over. */
  predicate Drops(e: Event) {
    e.Schedule? || e.Cancel?
  }

  /** The last drop, or -1. */
  function LastDrop(es: seq<Event>): (i: int)
    ensures -1 <= i < |es| && (i >= 0 ==> Drops(es[i]))
    ensures forall k | i < k < |es| :: !Drops(es[k])
  {
    if es == [] then -1 else if Drops(es[|es| - 1]) then |es| - 1 else LastDrop(es[..|es| - 1])
  }

  /** The first Live from position `from` on, or -1. */
  function FirstLive(es: seq<Event>, from: nat): (i: int)
    ensures i == -1 || from <= i < |es|
    ensures i >= 0 ==> es[i].Live? && forall k | from <= k < i :: !es[k].Live?
    ensures i < 0 ==> forall k | from <= k < |es| :: !es[k].Live?
  {
    if |es| <= from then -1
    else
      var i := FirstLive(es[..|es| - 1], from);
      if i >= 0 then i else if es[|es| - 1].Live? then |es| - 1 else -1
  }

  /** Where the present Live period began, or -1. */
  function LiveStart(es: seq<Event>): (i: int)
    ensures -1 <= i < |es|
  {
    FirstLive(es, LastDrop(es) + 1)
  }

  /** The media has been Live since the first Live after the last drop; later ones do not restart the clock. */
  lemma {:induction false} LiveSinceIs(es: seq<Event>)
    ensures After(es).liveSince == if LiveStart(es) < 0 then None else Some(es[LiveStart(es)].now)
    ensures After(es).at.Some? ==> After(es).liveSince.None?
    decreases |es|
  {
    if es != [] {
      LiveSinceIs(es[..|es| - 1]);
    }
  }

  /** The attempts are forgiven by a poll exactly 8 seconds or more after the first Live since the last drop. */
  lemma PollForgivesIff(es: seq<Event>, now: int)
    ensures Forgives(After(es), PollStability(now)) <==>
      LiveStart(es) >= 0 && now - es[LiveStart(es)].now >= 8_000_000_000
    ensures After(es + [PollStability(now)]).attempts ==
      if LiveStart(es) >= 0 && now - es[LiveStart(es)].now >= 8_000_000_000 then 0 else After(es).attempts
  {
    LiveSinceIs(es);
    assert (es + [PollStability(now)])[..|es|] == es;
  }

  // ---- the timer ---------------------------------------------------------------------------

  /** The last time the timer was set, or -1. */
  function LastSchedule(es: seq<Event>): (i: int)
    ensures -1 <= i < |es| && (i >= 0 ==> es[i].Schedule?)
    ensures forall k | i < k < |es| :: !es[k].Schedule?
  {
    if es == [] then -1 else if es[|es| - 1].Schedule? then |es| - 1 else LastSchedule(es[..|es| - 1])
  }

  /** When a timer set by event `i` is due. */
  function Due(es: seq<Event>, i: nat): int
    requires i < |es|
  {
    es[i].now + Nanos(DelaySecs(After(es[..i + 1]).attempts))
  }

  /** The event takes away a timer due at `due`: Live again, the call over, or the timer seen to be due. */
  predicate TakesTimer(e: Event, due: int) {
    e.Live? || e.Cancel? || (e.Poll? && (e.call.NoCall? || e.now >= due))
  }

  predicate Pending(es: seq<Event>) {
    var i := LastSchedule(es);
    i >= 0 && forall k | i < k < |es| :: !TakesTimer(es[k], Due(es, i))
  }

  lemma DueLater(es: seq<Event>, e: Event, i: nat)
    requires i < |es|
    ensures Due(es + [e], i) == Due(es, i)
  {
    assert (es + [e])[..i + 1] == es[..i + 1];
  }

  lemma PendingMore(es: seq<Event>, e: Event)
    requires !e.Schedule?
    ensures LastSchedule(es + [e]) == LastSchedule(es)
    ensures Pending(es + [e]) <==> Pending(es) && !TakesTimer(e, Due(es, LastSchedule(es)))
  {
    var all, i := es + [e], LastSchedule(es);
    assert all[..|es|] == es && all[|es|] == e;
    if i >= 0 {
      DueLater(es, e, i);
      assert forall k | i < k < |es| :: all[k] == es[k];
    }
  }

  lemma PendingSet(es: seq<Event>, e: Event)
    requires e.Schedule?
    ensures LastSchedule(es + [e]) == |es| && Pending(es + [e])
    ensures Due(es + [e], |es|) == e.now + Nanos(DelaySecs(After(es + [e]).attempts))
  {
    var all := es + [e];
    assert all[|es|] == e && all[..|es| + 1] == all;
  }

  /**
   A timer is pending exactly when one was set and since then the media was not Live again, the call was not
   left and no poll has seen it due; it is due its backoff after it was set.
   */
  lemma {:induction false} TimerIs(es: seq<Event>)
    ensures After(es).at == if Pending(es) then Some(Due(es, LastSchedule(es))) else None
    decreases |es|
  {
    if es != [] {
      var init, e := es[..|es| - 1], es[|es| - 1];
      assert es == init + [e];
      TimerIs(init);
      if e.Schedule? {
        PendingSet(init, e);
      } else {
        PendingMore(init, e);
        if LastSchedule(init) >= 0 { DueLater(init, e, LastSchedule(init)); }
      }
    }
  }

  /** The timer dials exactly in a session, when one is pending and due. */
  lemma DialsIff(es: seq<Event>, e: Event)
    ensures Redials(After(es), e) <==>
      e.Poll? && e.call.InSession? && Pending(es) && e.now >= Due(es, LastSchedule(es))
  {
    TimerIs(es);
  }

  /** Whatever the state, once Live again nothing is dialled until the media is lost again. */
  lemma {:induction false} LiveDialsNothing(b: Backoff, now: int, es: seq<Event>)
    requires forall e | e in es :: !e.Schedule?
    ensures RedialTimes(Step(b, Live(now)), es) == []
  {
    NothingPending(Step(b, Live(now)), es);
  }

  lemma {:induction false} NothingPending(b: Backoff, es: seq<Event>)
    requires b.at.None? && forall e | e in es :: !e.Schedule?
    ensures RedialTimes(b, es) == []
    decreases |es|
  {
    if es != [] {
      assert es[0] in es && forall e | e in es[1..] :: e in es;
      NothingPending(Step(b, es[0]), es[1..]);
    }
  }
}
