/**
 The camera control protocol. Requesters write a shared flag and then queue a message; the
 media loop takes messages in order, opens and releases the device and overwrites the same
 flag; a capture thread polls the flag before every frame. One action is one atomic step of
 one of them, so a run is an arbitrary interleaving.
 */
module Camera {
  import opened Text

  datatype Control =
    | SetEnabled(on: bool)
    | SetDevice(id: Option<string>)
    | Unrelated

  /** Where the media task stands between two of its steps. */
  datatype Phase =
    | Starting(config: bool)
    | Idle
    | Enabling(on: bool)
    | Switching
    | Releasing
    | Opening(startup: bool)
    | Opened(startup: bool, resolved: Option<string>)
    | GivingUp

  /** The gate around the attached device: what it believes, and whether the device runs. */
  datatype Gate = Gate(streaming: bool, running: bool)

  /**
   `preferred` is the device the task asks for when it opens one, `device` the one it has open. The last five
   fields are for the proofs: the requests last sent, whether an open has failed since, the device request
   last taken up, and the devices that opens have resolved it to.
   */
  datatype State = State(
    android: bool,
    flag: bool,
    pending: multiset<bool>,
    queue: seq<Control>,
    phase: Phase,
    open: bool,
    preferred: Option<string>,
    device: Option<string>,
    gate: Option<Gate>,
    loaded: Option<bool>,
    frames: nat,
    lastRequest: bool,
    failedSince: bool,
    lastDevice: Option<string>,
    wish: Option<string>,
    answers: set<string>)

  /** What the device answers to one poll. */
  datatype Outcome = Outcome(startOk: bool, stopOk: bool, popOk: bool, hasFrame: bool)

  datatype Action =
    | Store(on: bool)
    | Send(on: bool)
    | SendOther(m: Control)
    | Take
    | Proceed
    | OpenResult(ok: bool, resolved: Option<string>)
    | StartCapture(ok: bool)
    | StopCapture(ok: bool)
    | Load
    | Poll(o: Outcome)

  /** A session as it is created: flag and preferred device are the settings, the task has not run yet. */
  function Init(android: bool, config: bool, id: Option<string>): State {
    State(android, config, multiset{}, [], Starting(config), false, id, None, None, None, 0, config, false, id, id, {})
  }

  // ---- one poll of the gate --------------------------------------------------------------

  /** The gate after a poll that read `on`, and whether a frame came out. */
  function PollGate(g: Gate, on: bool, o: Outcome): (Gate, bool) {
    if !on then
      (if g.streaming then Gate(false, g.running && !o.stopOk) else g, false)
    else if !g.streaming && !o.startOk then (g, false)
    else
      var running := if g.streaming then g.running else true;
      if !o.popOk then (Gate(false, running), false) else (Gate(true, running), o.hasFrame)
  }

  // ---- steps -----------------------------------------------------------------------------

  predicate Enabled(s: State, a: Action) {
    match a
    case Store(_) => true
    case Send(on) => s.pending[on] > 0
    case SendOther(m) => !m.SetEnabled?
    case Take => s.phase == Idle && s.queue != []
    case Proceed => s.phase.Starting? || s.phase.Enabling? || s.phase.Switching? || s.phase.Releasing?
                    || s.phase.Opened? || s.phase.GivingUp?
    case OpenResult(_, _) => s.phase.Opening?
    case StartCapture(_) => s.gate.Some? && s.loaded.None?
    case StopCapture(_) => s.gate.Some? && s.loaded.None?
    case Load => s.gate.Some? && s.loaded.None?
    case Poll(_) => s.gate.Some? && s.loaded.Some?
  }

  function TakeMessage(s: State): State
    requires s.queue != []
  {
    var rest := s.(queue := s.queue[1..]);
    match s.queue[0]
    case SetEnabled(on) => rest.(phase := Enabling(on))
    case SetDevice(id) => rest.(preferred := id, wish := id, answers := {}, phase := Switching)
    case Unrelated => rest
  }

  /** The media task's next step where it does not wait for the device. */
  function Advance(s: State): State {
    match s.phase
    case Starting(config) =>
      if config then s.(phase := Opening(true)) else s.(flag := false, phase := Idle)
    case Enabling(on) =>
      var t := s.(flag := on, failedSince := false);
      if on then (if s.open then t.(phase := Idle) else t.(phase := Opening(false)))
      else (if s.open then t.(phase := Releasing) else t.(phase := Idle))
    case Switching =>
      if !s.flag then s.(phase := Idle)
      else s.(open := false, gate := None, loaded := None, phase := Opening(false))
    case Releasing => s.(open := false, gate := None, loaded := None, phase := Idle)
    case Opened(startup, resolved) =>
      var t := s.(flag := if startup || s.android then true else s.flag, open := true, phase := Idle);
      if resolved.None? || s.android then t.(device := s.preferred)
      else t.(preferred := resolved, device := resolved, answers := s.answers + {resolved.value})
    case GivingUp => s.(flag := false, failedSince := true, phase := Idle)
    case _ => s
  }

  /** One action; an action that is not possible now does nothing. */
  function Next(s: State, a: Action): State {
    if !Enabled(s, a) then s
    else match a
    case Store(on) => s.(flag := on, pending := s.pending + multiset{on})
    case Send(on) =>
      s.(pending := s.pending - multiset{on}, queue := s.queue + [SetEnabled(on)], lastRequest := on)
    case SendOther(m) => s.(queue := s.queue + [m], lastDevice := if m.SetDevice? then m.id else s.lastDevice)
    case Take => TakeMessage(s)
    case Proceed => Advance(s)
    case OpenResult(ok, resolved) =>
      if ok then s.(gate := Some(Gate(false, false)), phase := Opened(s.phase.startup, resolved))
      else s.(phase := GivingUp)
    case StartCapture(ok) => if ok then s.(gate := Some(Gate(true, true))) else s
    case StopCapture(ok) => s.(gate := Some(Gate(false, s.gate.value.running && !ok)))
    case Load => s.(loaded := Some(s.flag))
    case Poll(o) =>
      var (g, frame) := PollGate(s.gate.value, s.loaded.value, o);
      s.(gate := Some(g), loaded := None, frames := if frame then s.frames + 1 else s.frames)
  }

  function Run(s: State, actions: seq<Action>): State {
    if actions == [] then s
    else Next(Run(s, actions[..|actions| - 1]), actions[|actions| - 1])
  }

  // ---- quiescence ------------------------------------------------------------------------

  /** The last enable request still queued. */
  function LastQueued(queue: seq<Control>): Option<bool> {
    if queue == [] then None
    else if queue[|queue| - 1].SetEnabled? then Some(queue[|queue| - 1].on)
    else LastQueued(queue[..|queue| - 1])
  }

  /** Nobody is between store and send, and no enable message is waiting. */
  predicate Settled(s: State) {
    s.pending == multiset{} && LastQueued(s.queue).None?
  }

  /** What the flag has to be: the last request, unless an open has failed since it was taken up. */
  predicate FlagRight(s: State) {
    s.flag == (s.lastRequest && !s.failedSince)
  }

  predicate PhaseRight(s: State) {
    match s.phase
    case Starting(config) => s.lastRequest == config == s.flag && !s.failedSince && !s.open
    case Idle => s.open == s.flag && FlagRight(s)
    case Enabling(on) => on == s.lastRequest
    case Switching => s.open == s.flag && FlagRight(s)
    case Releasing => !s.flag && FlagRight(s)
    case Opening(_) => s.flag && !s.open && FlagRight(s)
    case Opened(_, _) => s.flag && FlagRight(s)
    case GivingUp => s.flag && !s.open && FlagRight(s)
  }

  /** The attached source and the task's own record of it. */
  predicate GateRight(s: State) {
    && (s.open ==> s.gate.Some?)
    && (s.gate.Some? ==> s.open || s.phase.Opened?)
    && (s.phase.Opened? ==> s.gate.Some?)
    && (s.loaded.Some? ==> s.gate.Some?)
    && (s.phase.Opening? || s.phase.Opened? || s.phase.GivingUp? || s.phase.Starting? ==> !s.open)
  }

  predicate Invariant(s: State) {
    && (LastQueued(s.queue).Some? ==> LastQueued(s.queue) == Some(s.lastRequest))
    && (Settled(s) ==> PhaseRight(s))
    && GateRight(s)
  }

  lemma LastQueuedAppend(queue: seq<Control>, m: Control)
    ensures LastQueued(queue + [m]) == if m.SetEnabled? then Some(m.on) else LastQueued(queue)
  {
    assert (queue + [m])[..|queue|] == queue;
  }

  lemma {:induction false} LastQueuedRest(queue: seq<Control>)
    requires queue != []
    ensures LastQueued(queue) ==
      if LastQueued(queue[1..]).Some? then LastQueued(queue[1..])
      else if queue[0].SetEnabled? then Some(queue[0].on) else None
    decreases |queue|
  {
    var init := queue[..|queue| - 1];
    if |queue| == 1 {
      assert init == [] && queue[1..] == [];
    } else {
      LastQueuedRest(init);
      assert queue[1..][..|queue| - 2] == init[1..];
    }
  }

  lemma TakeKeepsInvariant(s: State)
    requires Invariant(s) && Enabled(s, Take)
    ensures Invariant(TakeMessage(s))
  {
    LastQueuedRest(s.queue);
  }

  lemma AdvanceKeepsGate(s: State)
    requires GateRight(s)
    ensures GateRight(Advance(s))
  {
    match s.phase
    case Opened(_, _) =>
    case _ =>
  }

  lemma AdvanceKeepsPhase(s: State)
    requires PhaseRight(s) && GateRight(s)
    ensures PhaseRight(Advance(s))
  {
    match s.phase
    case Starting(_) =>
    case Idle =>
    case Enabling(_) =>
    case Switching =>
    case Releasing =>
    case Opening(_) =>
    case Opened(_, _) =>
    case GivingUp =>
  }

  lemma AdvanceKeepsQueue(s: State)
    ensures var t := Advance(s);
      t.queue == s.queue && t.pending == s.pending && t.lastRequest == s.lastRequest
  {
    match s.phase
    case Starting(_) =>
    case Enabling(_) =>
    case Switching =>
    case _ =>
  }

  lemma AdvanceKeepsInvariant(s: State)
    requires Invariant(s)
    ensures Invariant(Advance(s))
  {
    AdvanceKeepsQueue(s);
    AdvanceKeepsGate(s);
    if Settled(s) { AdvanceKeepsPhase(s); }
  }

  lemma StepKeepsInvariant(s: State, a: Action)
    requires Invariant(s)
    ensures Invariant(Next(s, a))
  {
    match a
    case Store(on) => assert on in s.pending + multiset{on};
    case Send(on) => LastQueuedAppend(s.queue, SetEnabled(on));
    case SendOther(m) => LastQueuedAppend(s.queue, m);
    case Take => if Enabled(s, Take) { TakeKeepsInvariant(s); }
    case Proceed => AdvanceKeepsInvariant(s);
    case OpenResult(_, _) =>
    case StartCapture(_) =>
    case StopCapture(_) =>
    case Load =>
    case Poll(_) =>
  }

  lemma {:induction false} RunKeepsInvariant(s: State, actions: seq<Action>)
    requires Invariant(s)
    ensures Invariant(Run(s, actions))
    decreases |actions|
  {
    if actions != [] {
      RunKeepsInvariant(s, actions[..|actions| - 1]);
      StepKeepsInvariant(Run(s, actions[..|actions| - 1]), actions[|actions| - 1]);
    }
  }

  /**
   In every interleaving, whenever the loop is idle, no enable message is queued and nobody is
   between store and send, the device is open exactly when the shared flag is on, and the flag
   is the last request (or the initial setting) unless an open has failed since it was taken up.
   */
  lemma Quiescence(android: bool, config: bool, id: Option<string>, actions: seq<Action>)
    ensures var s := Run(Init(android, config, id), actions);
      Settled(s) && s.phase == Idle ==>
        s.open == s.flag && s.flag == (s.lastRequest && !s.failedSince) && (s.gate.Some? <==> s.open)
  {
    RunKeepsInvariant(Init(android, config, id), actions);
  }

  /** No open fails in the run. */
  predicate OpensSucceed(actions: seq<Action>) {
    forall a | a in actions && a.OpenResult? :: a.ok
  }

  lemma AdvanceWithoutFailure(s: State)
    requires !s.failedSince && s.phase != GivingUp
    ensures !Advance(s).failedSince && Advance(s).phase != GivingUp
  {
    match s.phase
    case Starting(_) =>
    case Enabling(_) =>
    case Switching =>
    case _ =>
  }

  lemma StepWithoutFailure(s: State, a: Action)
    requires !s.failedSince && s.phase != GivingUp && (a.OpenResult? ==> a.ok)
    ensures !Next(s, a).failedSince && Next(s, a).phase != GivingUp
  {
    match a
    case Proceed => AdvanceWithoutFailure(s);
    case Take =>
    case _ =>
  }

  lemma {:induction false} RunWithoutFailure(s: State, actions: seq<Action>)
    requires !s.failedSince && s.phase != GivingUp && OpensSucceed(actions)
    ensures !Run(s, actions).failedSince && Run(s, actions).phase != GivingUp
    decreases |actions|
  {
    if actions != [] {
      var init, a := actions[..|actions| - 1], actions[|actions| - 1];
      assert a in actions && forall x | x in init :: x in actions;
      RunWithoutFailure(s, init);
      StepWithoutFailure(Run(s, init), a);
    }
  }

  /** With a device that never refuses to open, a settled and idle loop does what was last asked. */
  lemma QuiescenceWithoutFailures(android: bool, config: bool, id: Option<string>, actions: seq<Action>)
    requires OpensSucceed(actions)
    ensures var s := Run(Init(android, config, id), actions);
      Settled(s) && s.phase == Idle ==> s.open == s.flag == s.lastRequest
  {
    Quiescence(android, config, id, actions);
    RunWithoutFailure(Init(android, config, id), actions);
  }

  // ---- capture ---------------------------------------------------------------------------

  /**
   Gate and device agree after a poll exactly when the device did not fail it: a failed stop
   leaves a device running that the gate thinks stopped, and so does a failed capture.
   */
  lemma PollAgreesIff(g: Gate, on: bool, o: Outcome)
    requires g.streaming == g.running
    ensures var h := PollGate(g, on, o).0;
      h.streaming == h.running <==>
        (if on then (g.streaming || o.startOk) ==> o.popOk else g.streaming ==> o.stopOk)
  {
  }

  predicate FlagOffThroughout(s: State, actions: seq<Action>) {
    !Run(s, actions).flag && (actions != [] ==> FlagOffThroughout(s, actions[..|actions| - 1]))
  }

  /** Frames still owed to a poll that has read the flag on. */
  function InFlight(s: State): nat {
    if s.loaded == Some(true) then 1 else 0
  }

  lemma OnlyOnPollsShow(g: Gate, on: bool, o: Outcome)
    ensures PollGate(g, on, o).1 ==> on
  {
  }

  lemma AdvanceShowsNothing(s: State)
    ensures Advance(s).frames == s.frames
    ensures Advance(s).loaded == s.loaded || Advance(s).loaded.None?
  {
    match s.phase
    case Starting(_) =>
    case Enabling(_) =>
    case Switching =>
    case _ =>
  }

  lemma DarkStep(s: State, a: Action)
    requires !s.flag
    ensures s.frames <= Next(s, a).frames <= s.frames + InFlight(s) - InFlight(Next(s, a))
  {
    match a
    case Poll(o) => if Enabled(s, a) { OnlyOnPollsShow(s.gate.value, s.loaded.value, o); }
    case Proceed => AdvanceShowsNothing(s);
    case Take =>
    case _ =>
  }

  /**
   While the flag stays off, whatever the others do, at most one more frame comes out: the one
   whose poll had read the flag before it went off. After the next reading there is none.
   */
  lemma {:induction false} OffMeansDark(s: State, actions: seq<Action>)
    requires FlagOffThroughout(s, actions)
    ensures s.frames <= Run(s, actions).frames <= s.frames + InFlight(s) - InFlight(Run(s, actions))
    decreases |actions|
  {
    if actions != [] {
      var init := actions[..|actions| - 1];
      OffMeansDark(s, init);
      DarkStep(Run(s, init), actions[|actions| - 1]);
    }
  }

  /**
   Turned on, the camera shows: with the flag on when it is read, a poll yields a frame exactly when the
   device captures, or starts, and has one; and the device is then running.
   */
  lemma FrameComesOutIff(s: State, o: Outcome)
    requires s.flag && s.gate.Some? && s.loaded.None?
    ensures var t := Next(Next(s, Load), Poll(o)); var captures := (s.gate.value.streaming || o.startOk) && o.popOk;
      && t.frames == s.frames + (if captures && o.hasFrame then 1 else 0) && t.flag
      && (captures ==> t.gate == Some(Gate(true, s.gate.value.running || !s.gate.value.streaming)))
      && (!captures ==> t.gate.Some? && !t.gate.value.streaming)
  {
    assert Next(s, Load).loaded == Some(true);
  }

  predicate DeviceAnswers(a: Action) {
    && (a.Poll? ==> a.o.startOk && a.o.stopOk && a.o.popOk)
    && (a.StopCapture? ==> a.ok)
  }

  predicate Agrees(s: State) {
    s.gate.Some? ==> s.gate.value.streaming == s.gate.value.running
  }

  lemma AdvanceKeepsAgreement(s: State)
    requires Agrees(s)
    ensures Agrees(Advance(s))
  {
    match s.phase
    case Starting(_) =>
    case Enabling(_) =>
    case Switching =>
    case _ =>
  }

  /** How the action can part gate and device: a stop that fails, or a poll whose stop or capture fails. */
  predicate Parts(s: State, a: Action)
    requires Enabled(s, a)
  {
    match a
    case StopCapture(ok) => !ok && s.gate.value.running
    case Poll(o) =>
      if s.loaded.value then (s.gate.value.streaming || o.startOk) && !o.popOk
      else s.gate.value.streaming && !o.stopOk
    case _ => false
  }

  /**
   Where gate and device agree, one step of anybody's keeps them agreeing exactly when it is no failed stop
   of a running device and no poll whose stop or capture fails.
   */
  lemma StepAgreesIff(s: State, a: Action)
    requires Agrees(s) && Enabled(s, a)
    ensures Agrees(Next(s, a)) <==> !Parts(s, a)
  {
    match a
    case Poll(o) => PollAgreesIff(s.gate.value, s.loaded.value, o);
    case Proceed => AdvanceKeepsAgreement(s);
    case Take =>
    case _ =>
  }

  /** With a device that does not fail, what the gate believes about it is always true. */
  lemma {:induction false} GateAgrees(s: State, actions: seq<Action>)
    requires Agrees(s) && forall a | a in actions :: DeviceAnswers(a)
    ensures Agrees(Run(s, actions))
    decreases |actions|
  {
    if actions != [] {
      var init, a := actions[..|actions| - 1], actions[|actions| - 1];
      assert a in actions && forall x | x in init :: x in actions;
      GateAgrees(s, init);
      if Enabled(Run(s, init), a) { StepAgreesIff(Run(s, init), a); }
    }
  }

  // ---- a stop that fails -----------------------------------------------------------------

  lemma RunOneMore(s: State, actions: seq<Action>, a: Action)
    ensures Run(s, actions + [a]) == Next(Run(s, actions), a)
  {
    assert (actions + [a])[..|actions|] == actions;
  }

  lemma RunThree(s: State, a: Action, b: Action, c: Action)
    ensures Run(s, [a, b, c]) == Next(Next(Next(s, a), b), c)
  {
    var none: seq<Action>, one, two := [], [a], [a, b];
    assert none + [a] == one && one + [b] == two && two + [c] == [a, b, c];
    RunOneMore(s, none, a);
    RunOneMore(s, one, b);
    RunOneMore(s, two, c);
  }

  lemma RunFour(s: State, a: Action, b: Action, c: Action, d: Action)
    ensures Run(s, [a, b, c, d]) == Next(Run(s, [a, b, c]), d)
  {
    assert [a, b, c] + [d] == [a, b, c, d];
    RunOneMore(s, [a, b, c], d);
  }

  /** A session that starts with its camera on, until frames are captured. */
  function CameraOn(): seq<Action> {
    [Proceed, OpenResult(true, None), Proceed, StartCapture(true)]
  }

  lemma OpenedAndCapturing(android: bool, id: Option<string>)
    ensures var s := Run(Init(android, true, id), CameraOn());
      s.open && s.flag && s.phase == Idle && s.gate == Some(Gate(true, true)) && s.loaded.None?
  {
    var s := Init(android, true, id);
    RunThree(s, Proceed, OpenResult(true, None), Proceed);
    RunFour(s, Proceed, OpenResult(true, None), Proceed, StartCapture(true));
    Opens(s);
  }

  lemma Opens(s: State)
    requires s.phase == Starting(true) && s.flag && s.gate.None? && s.loaded.None?
    ensures var t := Next(Next(Next(s, Proceed), OpenResult(true, None)), Proceed);
      t.open && t.flag && t.phase == Idle && t.gate == Some(Gate(false, false)) && t.loaded.None?
  {
    var t1 := Next(s, Proceed);
    assert t1.phase == Opening(true);
    var t2 := Next(t1, OpenResult(true, None));
    assert t2.phase == Opened(true, None);
  }

  /** The camera is turned off, and the device does not stop when the capture thread polls. */
  function FailedStop(): seq<Action> {
    [Store(false), Load, Poll(Outcome(true, false, true, true))]
  }

  /**
   An instance: after a failed stop the gate holds the device for stopped while it goes on running,
   and the flag is off.
   */
  lemma FailedStopLeavesDeviceRunning(android: bool, id: Option<string>)
    ensures var s := Run(Run(Init(android, true, id), CameraOn()), FailedStop());
      !s.flag && s.gate == Some(Gate(false, true))
  {
    OpenedAndCapturing(android, id);
    RunThree(Run(Init(android, true, id), CameraOn()), Store(false), Load, Poll(Outcome(true, false, true, true)));
    StopFails(Run(Init(android, true, id), CameraOn()), Outcome(true, false, true, true));
  }

  lemma StopFails(s: State, o: Outcome)
    requires s.gate == Some(Gate(true, true)) && s.loaded.None? && !o.stopOk
    ensures var t := Next(Next(Next(s, Store(false)), Load), Poll(o));
      !t.flag && t.gate == Some(Gate(false, true))
  {
    var t2 := Next(Next(s, Store(false)), Load);
    assert t2.loaded == Some(false) && t2.gate == s.gate;
  }
}
