/** The redial timer as fields the application updates in place. */
module MediaRedials {
  import opened Text
  import R = Redial

  class MediaRedial {
    var attempts: nat
    var at: Option<int>
    var liveSince: Option<int>

    constructor ()
      ensures View() == R.Backoff(0, None, None)
    {
      attempts, at, liveSince := 0, None, None;
    }

    ghost function View(): R.Backoff
      reads this
    {
      R.Backoff(attempts, at, liveSince)
    }

    method Schedule(now: int)
      modifies this
      ensures View() == R.Step(old(View()), R.Schedule(now))
    {
      if liveSince.Some? && now - liveSince.value >= 8_000_000_000 {
        attempts := 0;
      }
      liveSince := None;
      attempts := R.Saturated(attempts + 1);
      var delay := R.DelaySecs(attempts);
      at := Some(now + R.Nanos(delay));
    }

    method Cancel()
      modifies this
      ensures View() == R.DoCancel(old(View()))
    {
      at := None;
      attempts := 0;
      liveSince := None;
    }

    /** Live again: no timer, but the attempts stay. */
    method OnLive(now: int)
      modifies this
      ensures View() == R.Step(old(View()), R.Live(now))
    {
      at := None;
      if liveSince.None? {
        liveSince := Some(now);
      }
    }

    method PollStability(now: int)
      modifies this
      ensures View() == R.Step(old(View()), R.PollStability(now))
    {
      if attempts == 0 {
        return;
      }
      if liveSince.Some? && now - liveSince.value >= 8_000_000_000 {
        attempts := 0;
      }
    }

    /** True when the call is to be dialled again now. */
    method Poll(now: int, call: R.Call) returns (dial: bool)
      modifies this
      ensures View() == R.Step(old(View()), R.Poll(now, call))
      ensures dial == R.Redials(old(View()), R.Poll(now, call))
    {
      if at.None? {
        return false;
      }
      if call.NoCall? {
        Cancel();
        return false;
      }
      if now < at.value {
        return false;
      }
      at := None;
      return call.InSession?;
    }
  }
}
