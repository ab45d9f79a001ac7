/**
 * The global ghost-mode state machine (`GhostModeController`): a Scatter/Chase
 * phase schedule, held at Chase once used up, and a timed Frightened override
 * that pauses the schedule and restores the recorded mode when it runs out.
 * Each operation returns the new controller together with the (old, new)
 * notifications it emitted, in order.
 */
module ModeController {
  import opened Modes

  /** One configured schedule entry; the duration is in seconds. */
  datatype Phase = Phase(mode: GhostMode, duration: real)

  /** The (oldMode, newMode) pair passed to the mode-change listeners. */
  datatype ModeChange = ModeChange(oldMode: GhostMode, newMode: GhostMode)

  /** The controller's fields; an unassigned schedule is the empty sequence. */
  datatype Controller = Controller(
    phases: seq<Phase>,
    mode: GhostMode,
    phaseIndex: nat,
    phaseTimer: real,
    frightenedActive: bool,
    frightenedTimer: real,
    modeBeforeFrightened: GhostMode)

  /** A new controller state and the notifications emitted on the way to it. */
  datatype Step = Step(ctrl: Controller, events: seq<ModeChange>)

  /** The notifications describe the step's mode change exactly: one when it changed, none otherwise. */
  predicate Announces(c: Controller, r: Step) {
    if r.ctrl.mode == c.mode then r.events == []
    else r.events == [ModeChange(c.mode, r.ctrl.mode)]
  }

  /** The phase schedule is exhausted (always the case for an empty schedule). */
  predicate Exhausted(c: Controller) {
    c.phaseIndex >= |c.phases|
  }

  /** The fields before `Start` runs: C# defaults, so the mode is the enum's first value, Scatter. */
  function Initial(phases: seq<Phase>): (c: Controller)
    ensures c.phases == phases && c.mode == Scatter && !c.frightenedActive
  {
    Controller(phases, Scatter, 0, 0.0, false, 0.0, Scatter)
  }

  /** Changes the mode and notifies the listeners only if the value changes. */
  function SetMode(c: Controller, m: GhostMode): (r: Step)
    ensures r.ctrl == c.(mode := m)
    ensures |r.events| <= 1
    ensures r.events == [] <==> c.mode == m
    ensures r.events != [] ==> r.events[0] == ModeChange(c.mode, m) && c.mode != m
  {
    if c.mode == m then Step(c, []) else Step(c.(mode := m), [ModeChange(c.mode, m)])
  }

  /** Resets the schedule and enters its first mode, or Chase when it is empty. */
  function Start(c: Controller): (r: Step)
    ensures Announces(c, r)
    ensures r.ctrl.phaseIndex == 0 && r.ctrl.phaseTimer == 0.0 && r.ctrl.phases == c.phases
    ensures r.ctrl.mode == (if |c.phases| > 0 then c.phases[0].mode else Chase)
    ensures r.ctrl.frightenedActive == c.frightenedActive
    ensures r.ctrl.modeBeforeFrightened == c.modeBeforeFrightened
  {
    var c1 := c.(phaseIndex := 0, phaseTimer := 0.0);
    if |c.phases| > 0 then SetMode(c1, c.phases[0].mode) else SetMode(c1, Chase)
  }

  /** One frame (`Update`) of `dt` seconds. */
  function Tick(c: Controller, dt: real): (r: Step)
    ensures Announces(c, r)
    ensures r.ctrl.phases == c.phases
    // The override pauses the schedule, also on the frame on which it runs out.
    ensures c.frightenedActive ==>
              r.ctrl.phaseIndex == c.phaseIndex && r.ctrl.phaseTimer == c.phaseTimer
              && r.ctrl.modeBeforeFrightened == c.modeBeforeFrightened
    ensures c.frightenedActive && c.frightenedTimer - dt <= 0.0 ==>
              !r.ctrl.frightenedActive && r.ctrl.mode == c.modeBeforeFrightened
    ensures c.frightenedActive && c.frightenedTimer - dt > 0.0 ==>
              r.ctrl.frightenedActive && r.ctrl.mode == c.mode
              && r.ctrl.frightenedTimer == c.frightenedTimer - dt
    ensures !c.frightenedActive ==> !r.ctrl.frightenedActive
    // The index moves by at most one, and a phase boundary restarts the timer.
    ensures r.ctrl.phaseIndex == c.phaseIndex
            || (r.ctrl.phaseIndex == c.phaseIndex + 1 && c.phaseIndex < |c.phases|
                && r.ctrl.phaseTimer == 0.0)
    ensures r.ctrl.phaseIndex == c.phaseIndex + 1 ==>
              r.ctrl.mode == (if r.ctrl.phaseIndex < |c.phases| then c.phases[r.ctrl.phaseIndex].mode else Chase)
    // Within the schedule, the phase ends exactly when its duration is reached; until then the timer accumulates.
    ensures !c.frightenedActive && c.phaseIndex < |c.phases| ==>
              (r.ctrl.phaseIndex == c.phaseIndex + 1 <==> c.phaseTimer + dt >= c.phases[c.phaseIndex].duration)
    ensures !c.frightenedActive && c.phaseIndex < |c.phases| && c.phaseTimer + dt < c.phases[c.phaseIndex].duration ==>
              r.ctrl.phaseTimer == c.phaseTimer + dt && r.ctrl.mode == c.mode
    ensures !c.frightenedActive && 0 < |c.phases| <= c.phaseIndex ==> r.ctrl.mode == Chase
    ensures !c.frightenedActive && |c.phases| == 0 ==> r == Step(c, [])
  {
    if c.frightenedActive then
      var left := c.frightenedTimer - dt;
      if left <= 0.0 then
        SetMode(c.(frightenedTimer := left, frightenedActive := false), c.modeBeforeFrightened)
      else
        Step(c.(frightenedTimer := left), [])
    else if |c.phases| == 0 then
      Step(c, [])
    else if c.phaseIndex >= |c.phases| then
      SetMode(c, Chase)
    else
      var elapsed := c.phaseTimer + dt;
      if elapsed >= c.phases[c.phaseIndex].duration then
        var next := c.phaseIndex + 1;
        var c1 := c.(phaseTimer := 0.0, phaseIndex := next);
        if next < |c.phases| then SetMode(c1, c.phases[next].mode) else SetMode(c1, Chase)
      else
        Step(c.(phaseTimer := elapsed), [])
  }

  /** Arms the override for `duration` seconds; only the first trigger records the mode to restore. */
  function TriggerFrightened(c: Controller, duration: real): (r: Step)
    ensures Announces(c, r)
    ensures r.ctrl.mode == Frightened && r.ctrl.frightenedActive
    ensures r.ctrl.frightenedTimer == duration
    ensures r.ctrl.modeBeforeFrightened == (if c.frightenedActive then c.modeBeforeFrightened else c.mode)
    ensures r.ctrl.phases == c.phases && r.ctrl.phaseIndex == c.phaseIndex
            && r.ctrl.phaseTimer == c.phaseTimer
  {
    var c1 := if c.frightenedActive then c else c.(modeBeforeFrightened := c.mode);
    SetMode(c1.(frightenedActive := true, frightenedTimer := duration), Frightened)
  }

  /** What can happen to the controller: a frame passes, or a power pellet is eaten. */
  datatype Op = Elapse(dt: real) | PowerUp(duration: real)

  function Apply(c: Controller, op: Op): Step {
    match op
    case Elapse(dt) => Tick(c, dt)
    case PowerUp(d) => TriggerFrightened(c, d)
  }

  /** Applies the operations in order, concatenating the notifications. */
  function Run(c: Controller, ops: seq<Op>): Step
    decreases |ops|
  {
    if |ops| == 0 then Step(c, [])
    else
      var s := Apply(c, ops[0]);
      var t := Run(s.ctrl, ops[1..]);
      Step(t.ctrl, s.events + t.events)
  }

  /** The notifications lead from mode `a` to mode `b`, each one a real change. */
  predicate Chain(a: GhostMode, evs: seq<ModeChange>, b: GhostMode)
    decreases |evs|
  {
    if |evs| == 0 then a == b
    else evs[0].oldMode == a && evs[0].newMode != a && Chain(evs[0].newMode, evs[1..], b)
  }

  lemma {:induction false} ChainAppend(a: GhostMode, e1: seq<ModeChange>, b: GhostMode, e2: seq<ModeChange>, c: GhostMode)
    requires Chain(a, e1, b) && Chain(b, e2, c)
    ensures Chain(a, e1 + e2, c)
    decreases |e1|
  {
    if |e1| == 0 {
      assert e1 + e2 == e2;
    } else {
      ChainAppend(e1[0].newMode, e1[1..], b, e2, c);
      assert (e1 + e2)[1..] == e1[1..] + e2;
    }
  }

  /**
   * A listener that starts from the controller's mode and applies every
   * notification of a run ends at the run's final mode: none is lost, none is
   * a no-op.
   */
  lemma {:induction false} RunEventsTrackMode(c: Controller, ops: seq<Op>)
    ensures Chain(c.mode, Run(c, ops).events, Run(c, ops).ctrl.mode)
    decreases |ops|
  {
    if |ops| > 0 {
      var s := Apply(c, ops[0]);
      RunEventsTrackMode(s.ctrl, ops[1..]);
      assert Chain(c.mode, s.events, s.ctrl.mode);
      ChainAppend(c.mode, s.events, s.ctrl.mode, Run(s.ctrl, ops[1..]).events, Run(c, ops).ctrl.mode);
    }
  }

  /** The phase index stays within the schedule, never decreases, and the schedule never changes. */
  lemma {:induction false} RunKeepsPhaseIndex(c: Controller, ops: seq<Op>)
    requires c.phaseIndex <= |c.phases|
    ensures Run(c, ops).ctrl.phases == c.phases
    ensures c.phaseIndex <= Run(c, ops).ctrl.phaseIndex <= |c.phases|
    decreases |ops|
  {
    if |ops| > 0 {
      RunKeepsPhaseIndex(Apply(c, ops[0]).ctrl, ops[1..]);
    }
  }

  /**
   * Once the schedule is used up, Chase is the mode whenever the override is
   * off, and the mode the override will restore otherwise.
   */
  predicate ChaseLocked(c: Controller) {
    Exhausted(c) ==> (if c.frightenedActive then c.modeBeforeFrightened == Chase else c.mode == Chase)
  }

  lemma {:induction false} RunKeepsChaseLocked(c: Controller, ops: seq<Op>)
    requires ChaseLocked(c)
    ensures ChaseLocked(Run(c, ops).ctrl)
    decreases |ops|
  {
    if |ops| > 0 {
      RunKeepsChaseLocked(Apply(c, ops[0]).ctrl, ops[1..]);
    }
  }

  /** Starting with an empty schedule establishes the lock. */
  lemma EmptyScheduleStartsInChase(phases: seq<Phase>)
    requires |phases| == 0
    ensures Start(Initial(phases)).ctrl.mode == Chase
    ensures ChaseLocked(Start(Initial(phases)).ctrl)
  {
  }

  /**
   * Terminal Chase: from an exhausted schedule, every later state whose
   * override is off is in Chase, whatever frames and power pellets follow.
   */
  lemma ExhaustedScheduleHoldsChase(c: Controller, ops: seq<Op>)
    requires ChaseLocked(c) && Exhausted(c)
    ensures Run(c, ops).ctrl.frightenedActive || Run(c, ops).ctrl.mode == Chase
  {
    RunKeepsChaseLocked(c, ops);
    RunExhaustedStays(c, ops);
  }

  lemma {:induction false} RunExhaustedStays(c: Controller, ops: seq<Op>)
    requires Exhausted(c)
    ensures Exhausted(Run(c, ops).ctrl)
    decreases |ops|
  {
    if |ops| > 0 {
      RunExhaustedStays(Apply(c, ops[0]).ctrl, ops[1..]);
    }
  }

  /** Every operation is applied while the Frightened override is still active. */
  predicate OverrideHeld(c: Controller, ops: seq<Op>)
    decreases |ops|
  {
    |ops| == 0 || (c.frightenedActive && OverrideHeld(Apply(c, ops[0]).ctrl, ops[1..]))
  }

  /**
   * While the override is held the schedule is frozen and the mode to
   * restore is kept; when it runs out the mode is exactly that one.
   */
  lemma {:induction false} OverrideFreezesSchedule(c: Controller, ops: seq<Op>)
    requires c.frightenedActive && OverrideHeld(c, ops)
    ensures Run(c, ops).ctrl.phaseIndex == c.phaseIndex
    ensures Run(c, ops).ctrl.phaseTimer == c.phaseTimer
    ensures Run(c, ops).ctrl.modeBeforeFrightened == c.modeBeforeFrightened
    ensures !Run(c, ops).ctrl.frightenedActive ==> Run(c, ops).ctrl.mode == c.modeBeforeFrightened
    decreases |ops|
  {
    if |ops| > 0 {
      var s := Apply(c, ops[0]);
      if s.ctrl.frightenedActive {
        OverrideFreezesSchedule(s.ctrl, ops[1..]);
      } else {
        assert ops[1..] == [];
      }
    }
  }

  /**
   * Pause and resume are lossless: a power pellet eaten outside the override,
   * followed by any frames and further pellets while it lasts, leaves the
   * phase index and phase timer where they were, and once it runs out the
   * mode is the one current at the first pellet, not Frightened and not the
   * mode at a later pellet.
   */
  lemma PauseResumeIsLossless(c: Controller, duration: real, ops: seq<Op>)
    requires !c.frightenedActive
    requires OverrideHeld(TriggerFrightened(c, duration).ctrl, ops)
    ensures Run(TriggerFrightened(c, duration).ctrl, ops).ctrl.phaseIndex == c.phaseIndex
    ensures Run(TriggerFrightened(c, duration).ctrl, ops).ctrl.phaseTimer == c.phaseTimer
    ensures !Run(TriggerFrightened(c, duration).ctrl, ops).ctrl.frightenedActive ==>
              Run(TriggerFrightened(c, duration).ctrl, ops).ctrl.mode == c.mode
  {
    OverrideFreezesSchedule(TriggerFrightened(c, duration).ctrl, ops);
  }

  /** Nothing the controller does brings a ghost into Returning. */
  predicate NeverReturning(c: Controller) {
    && c.mode != Returning
    && c.modeBeforeFrightened != Returning
    && forall i :: 0 <= i < |c.phases| ==> c.phases[i].mode != Returning
  }

  lemma {:induction false} RunNeverReturns(c: Controller, ops: seq<Op>)
    requires NeverReturning(c)
    ensures NeverReturning(Run(c, ops).ctrl)
    decreases |ops|
  {
    if |ops| > 0 {
      RunNeverReturns(Apply(c, ops[0]).ctrl, ops[1..]);
    }
  }

  /**
   * While the override is active the mode shown is Frightened: the pickup
   * sets both, and a frame changes the mode only on expiry, when the flag
   * drops. `Initial` has the override off, so `Start` on it establishes
   * this; `Start` called mid-override would break it, which Unity never does.
   */
  predicate FrightenedShown(c: Controller) {
    c.frightenedActive ==> c.mode == Frightened
  }

  lemma {:induction false} RunKeepsFrightenedShown(c: Controller, ops: seq<Op>)
    requires FrightenedShown(c)
    ensures FrightenedShown(Run(c, ops).ctrl)
    decreases |ops|
  {
    if |ops| > 0 {
      RunKeepsFrightenedShown(Apply(c, ops[0]).ctrl, ops[1..]);
    }
  }

  /**
   * Because the fields start at Scatter, starting a schedule whose first
   * phase is Chase (or an empty one) notifies a Scatter-to-Chase change,
   * while a schedule that opens with Scatter notifies nothing.
   */
  lemma StartNotifiesFromScatter(phases: seq<Phase>)
    ensures var r := Start(Initial(phases));
            var first := if |phases| > 0 then phases[0].mode else Chase;
            r.events == (if first == Scatter then [] else [ModeChange(Scatter, first)])
  {
  }
}
