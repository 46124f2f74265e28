/**
 Which device the media loop has open. A request for a device is queued behind the others and taken up in
 order; when the camera is on it releases the device and opens the one asked for, when it is off it is
 only remembered.
 */
module CameraDevices {
  import opened Text
  import opened Camera

  /** A request to turn the camera off is stored and not yet taken up. */
  predicate OffOutstanding(s: State) {
    s.pending[false] > 0 || SetEnabled(false) in s.queue
  }

  /** The device request sent last among those still queued. */
  function LastDeviceQueued(queue: seq<Control>): Option<Control> {
    if queue == [] then None
    else if queue[|queue| - 1].SetDevice? then Some(queue[|queue| - 1])
    else LastDeviceQueued(queue[..|queue| - 1])
  }

  /** What was last asked for is the last request queued, or else the last one taken up. */
  predicate WishRight(queue: seq<Control>, wish: Option<string>, lastDevice: Option<string>) {
    match LastDeviceQueued(queue)
    case Some(m) => m == SetDevice(lastDevice)
    case None => wish == lastDevice
  }

  predicate Wanted(s: State) {
    WishRight(s.queue, s.wish, s.lastDevice)
  }

  /** The device was asked for, or is what an open since has resolved the request to. */
  predicate StandsFor(device: Option<string>, s: State) {
    device == s.wish || (device.Some? && device.value in s.answers)
  }

  /** The flag is off while a device is open or being opened only until a request says so. */
  predicate DarkIsOutstanding(s: State) {
    !s.flag && (s.open || s.phase.Opening? || s.phase.Opened? || s.phase == Starting(true)) ==>
      OffOutstanding(s) || s.phase == Enabling(false) || s.phase == Releasing
  }

  /** A device other than the preferred one is open only until it is released. */
  predicate StaleIsOutstanding(s: State) {
    s.open && s.device != s.preferred ==>
      OffOutstanding(s) || s.phase == Enabling(false) || s.phase == Releasing || s.phase == Switching
  }

  predicate OffIsComing(s: State) {
    DarkIsOutstanding(s) && StaleIsOutstanding(s)
  }

  predicate DeviceInvariant(s: State) {
    && Wanted(s) && StandsFor(s.preferred, s) && OffIsComing(s)
  }

  lemma LastDeviceAppend(queue: seq<Control>, m: Control)
    ensures LastDeviceQueued(queue + [m]) == if m.SetDevice? then Some(m) else LastDeviceQueued(queue)
  {
    assert (queue + [m])[..|queue|] == queue;
  }

  lemma {:induction false} LastDeviceRest(queue: seq<Control>)
    requires queue != []
    ensures LastDeviceQueued(queue) ==
      if LastDeviceQueued(queue[1..]).Some? then LastDeviceQueued(queue[1..])
      else if queue[0].SetDevice? then Some(queue[0]) else None
    decreases |queue|
  {
    var init := queue[..|queue| - 1];
    if |queue| == 1 {
      assert init == [] && queue[1..] == [];
    } else {
      LastDeviceRest(init);
      assert queue[1..][..|queue| - 2] == init[1..];
    }
  }

  lemma TakeOff(s: State)
    requires s.queue != []
    ensures SetEnabled(false) in s.queue <==> s.queue[0] == SetEnabled(false) || SetEnabled(false) in s.queue[1..]
  {
    assert s.queue == [s.queue[0]] + s.queue[1..];
  }

  lemma WishAfterTake(queue: seq<Control>, wish: Option<string>, lastDevice: Option<string>)
    requires queue != [] && WishRight(queue, wish, lastDevice)
    ensures WishRight(queue[1..], if queue[0].SetDevice? then queue[0].id else wish, lastDevice)
  {
    LastDeviceRest(queue);
  }

  lemma TakeKeepsWish(s: State)
    requires Wanted(s) && StandsFor(s.preferred, s) && s.queue != []
    ensures Wanted(TakeMessage(s)) && StandsFor(TakeMessage(s).preferred, TakeMessage(s))
  {
    WishAfterTake(s.queue, s.wish, s.lastDevice);
  }

  lemma TakeKeepsOff(s: State)
    requires OffIsComing(s) && Enabled(s, Take)
    ensures OffIsComing(TakeMessage(s))
  {
    TakeOff(s);
    match s.queue[0]
    case SetEnabled(on) =>
    case SetDevice(id) =>
    case Unrelated =>
  }

  /** The task's own steps change the preferred device only to what an open has resolved it to. */
  lemma AdvanceDevices(s: State)
    ensures var t := Advance(s);
      && t.queue == s.queue && t.wish == s.wish && t.lastDevice == s.lastDevice && s.answers <= t.answers
      && (t.preferred == s.preferred || (t.preferred.Some? && t.preferred.value in t.answers))
  {
    match s.phase
    case Starting(_) =>
    case Enabling(_) =>
    case Switching =>
    case _ =>
  }

  lemma AdvanceKeepsWish(s: State)
    requires Wanted(s) && StandsFor(s.preferred, s)
    ensures Wanted(Advance(s)) && StandsFor(Advance(s).preferred, Advance(s))
  {
    AdvanceDevices(s);
  }

  lemma AdvanceKeepsOff(s: State)
    requires OffIsComing(s) && GateRight(s)
    ensures OffIsComing(Advance(s))
  {
    AdvanceKeepsQueue(s);
    match s.phase
    case Starting(_) =>
    case Enabling(_) =>
    case Switching =>
    case _ =>
  }

  lemma StepKeepsDevice(s: State, a: Action)
    requires DeviceInvariant(s) && GateRight(s)
    ensures DeviceInvariant(Next(s, a))
  {
    match a
    case Store(on) => assert on in s.pending + multiset{on};
    case Send(on) =>
      if Enabled(s, a) {
        LastDeviceAppend(s.queue, SetEnabled(on));
        assert (s.queue + [SetEnabled(on)])[|s.queue|] == SetEnabled(on);
      }
    case SendOther(m) => LastDeviceAppend(s.queue, m);
    case Take => 
      if Enabled(s, Take) {
        TakeKeepsWish(s);
        TakeKeepsOff(s);
      }
    case Proceed =>
      AdvanceKeepsWish(s);
      AdvanceKeepsOff(s);
    case OpenResult(_, _) =>
    case StartCapture(_) =>
    case StopCapture(_) =>
    case Load =>
    case Poll(_) =>
  }

  lemma {:induction false} RunKeepsDevice(s: State, actions: seq<Action>)
    requires Invariant(s) && DeviceInvariant(s)
    ensures Invariant(Run(s, actions)) && DeviceInvariant(Run(s, actions))
    decreases |actions|
  {
    if actions != [] {
      var init := actions[..|actions| - 1];
      RunKeepsDevice(s, init);
      StepKeepsInvariant(Run(s, init), actions[|actions| - 1]);
      StepKeepsDevice(Run(s, init), actions[|actions| - 1]);
    }
  }

  /**
   In every interleaving, whenever the loop is idle, no device request is queued and no request to turn the
   camera off is outstanding, a device that is open is the one last asked for, or one that an open has
   resolved that request to.
   */
  lemma OpenDeviceIsTheOneAsked(android: bool, config: bool, id: Option<string>, actions: seq<Action>)
    ensures var s := Run(Init(android, config, id), actions);
      s.phase == Idle && s.open && LastDeviceQueued(s.queue).None? && !OffOutstanding(s) ==>
        s.device == s.lastDevice
        || (s.device.Some? && s.device.value in s.answers && OpenResult(true, s.device) in actions)
  {
    RunKeepsDevice(Init(android, config, id), actions);
    AnswersWereGiven(Init(android, config, id), actions);
  }

  // ---- what opens have resolved ----------------------------------------------------------

  /** Every recorded answer, and the one about to be recorded, was given by an open that succeeded. */
  predicate Resolved(s: State, actions: seq<Action>) {
    && (forall id | id in s.answers :: OpenResult(true, Some(id)) in actions)
    && (s.phase.Opened? ==> OpenResult(true, s.phase.resolved) in actions)
  }

  lemma AdvanceKeepsResolved(s: State, actions: seq<Action>, a: Action)
    requires Resolved(s, actions)
    ensures var t := Advance(s);
      (forall id | id in t.answers :: OpenResult(true, Some(id)) in actions) && !t.phase.Opened?
  {
    match s.phase
    case Enabling(_) =>
    case Switching =>
    case _ =>
  }

  lemma StepKeepsResolved(s: State, actions: seq<Action>, a: Action)
    requires Resolved(s, actions)
    ensures Resolved(Next(s, a), actions + [a])
  {
    var all := actions + [a];
    assert all[|actions|] == a;
    forall x | x in actions ensures x in all {
    }
    match a
    case Proceed => AdvanceKeepsResolved(s, actions, a);
    case Take =>
    case _ =>
  }

  lemma {:induction false} AnswersWereGiven(s: State, actions: seq<Action>)
    requires Resolved(s, [])
    ensures Resolved(Run(s, actions), actions)
    decreases |actions|
  {
    if actions != [] {
      var init, a := actions[..|actions| - 1], actions[|actions| - 1];
      AnswersWereGiven(s, init);
      StepKeepsResolved(Run(s, init), init, a);
      assert actions == init + [a];
    }
  }

  // ---- one switch --------------------------------------------------------------------------

  /**
   A device request taken up while the camera is on and a device is open closes that device and waits for
   the one asked for to open; taken up while the camera is off it opens and closes nothing.
   */
  lemma SwitchReopens(s: State)
    requires s.phase == Idle && s.queue != [] && s.queue[0].SetDevice?
    ensures var t := Next(Next(s, Take), Proceed);
      && t.preferred == s.queue[0].id
      && (if s.flag then t.phase.Opening? && !t.open && t.gate.None? && t.loaded.None?
          else t.phase == Idle && t.open == s.open && t.gate == s.gate && t.device == s.device)
  {
    var t := Next(s, Take);
    assert t.phase == Switching;
  }

  // ---- a camera turned off while it opens --------------------------------------------------

  /**
   When an open succeeds the flag is on afterwards exactly when it was, or at start-up, or on Android: there
   a choice made while the device was opening is overwritten until its own request is taken up.
   */
  lemma OpenOverwritesFlagIff(s: State)
    requires s.phase.Opened?
    ensures Next(s, Proceed).flag <==> s.flag || s.android || s.phase.startup
    ensures Next(s, Proceed).open && Next(s, Proceed).phase == Idle
  {
  }

  lemma RunFour(s: State, a: Action, b: Action, c: Action, d: Action)
    ensures Run(s, [a, b, c, d]) == Next(Next(Next(Next(s, a), b), c), d)
  {
    RunThree(s, a, b, c);
    Camera.RunFour(s, a, b, c, d);
  }

  /** The session opens its device; meanwhile the user turns the camera off, and the request is not yet sent. */
  function OffWhileOpening(id: Option<string>): seq<Action> {
    [Proceed, Store(false), OpenResult(true, id), Proceed]
  }

  /** An instance: the flag is on again, and the next poll shows a frame. */
  lemma OffWhileOpeningShows(android: bool, id: Option<string>, o: Outcome)
    requires o.startOk && o.popOk && o.hasFrame
    ensures var s := Run(Init(android, true, id), OffWhileOpening(id));
      var t := Next(Next(s, Load), Poll(o));
      s.flag && s.pending == multiset{false} && s.frames == 0 && t.frames == 1
  {
    var s0 := Init(android, true, id);
    RunFour(s0, Proceed, Store(false), OpenResult(true, id), Proceed);
    OpensThenOverwrites(s0, id);
    FrameComesOutIff(Run(s0, OffWhileOpening(id)), o);
  }

  lemma OpensThenOverwrites(s: State, id: Option<string>)
    requires s.phase == Starting(true) && s.loaded.None? && s.frames == 0 && s.pending == multiset{}
    ensures var t := Next(Next(Next(Next(s, Proceed), Store(false)), OpenResult(true, id)), Proceed);
      && t.flag && t.gate == Some(Gate(false, false)) && t.loaded.None? && t.frames == 0
      && t.pending == multiset{false}
  {
    var t2 := Next(Next(s, Proceed), Store(false));
    assert t2.phase == Opening(true) && !t2.flag;
    var t3 := Next(t2, OpenResult(true, id));
    assert t3.phase == Opened(true, id);
    OpenOverwritesFlagIff(t3);
  }
}
