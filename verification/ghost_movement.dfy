/**
 * Per-ghost movement (`GhostMovement`): the tile-centre decision driven by
 * the ghost's brain, the forced 180-degree turn on a Scatter/Chase flip, and
 * the priority rule that picks the speed multiplier. The older root
 * `GhostMovement` is modelled alongside: it always chases Pinky's target
 * and reverses at dead ends.
 */
module GhostMovement {
  import opened Grid
  import opened Modes
  import opened ModeController
  import opened DirectionChoice
  import opened Targeting
  import opened Movement

  /** The decision of a ghost driven by a `ScatterChaseBrain`, on arriving at a cell centre. */
  function GhostDecide(maze: Maze, ctrl: Controller, rule: ChaseRule, scan: seq<Vec>, marked: set<Vec>,
                       pac: PacView, g: Mover): (r: Mover)
    ensures r.cell == g.cell && Heading(maze, r)
  {
    Decide(maze, g, DesiredDir(ctrl, rule, scan, marked, pac, maze, g.cell, g.dir))
  }

  /**
   * With the current chooser the ghost always takes the brain's direction:
   * a non-zero choice is movable, and a zero choice means even the current
   * direction is blocked, so the ghost stops instead of keeping it.
   */
  lemma GhostFollowsBrain(maze: Maze, ctrl: Controller, rule: ChaseRule, scan: seq<Vec>, marked: set<Vec>,
                          pac: PacView, g: Mover)
    requires g.dir == Zero || IsUnit(g.dir)
    ensures GhostDecide(maze, ctrl, rule, scan, marked, pac, g).dir
            == DesiredDir(ctrl, rule, scan, marked, pac, maze, g.cell, g.dir)
  {
    var want := DesiredDir(ctrl, rule, scan, marked, pac, maze, g.cell, g.dir);
    if want == Zero && g.dir != Zero {
      var target := TargetTile(ctrl.mode, rule, scan, marked, pac);
      assert ChooseDir(maze, g.cell, g.dir, target) == Zero;
      assert NoneAdmissible(maze, g.cell, g.dir, |PriorityDirs|);
      assert g.dir == PriorityDirs[0] || g.dir == PriorityDirs[1] || g.dir == PriorityDirs[2] || g.dir == PriorityDirs[3];
      assert !CanMove(maze, g.cell, g.dir);
    }
  }

  /** At a dead end (no admissible direction) the current ghost stops rather than reversing. */
  lemma GhostStopsAtDeadEnd(maze: Maze, ctrl: Controller, rule: ChaseRule, scan: seq<Vec>, marked: set<Vec>,
                            pac: PacView, g: Mover)
    requires IsUnit(g.dir)
    requires NoneAdmissible(maze, g.cell, g.dir, |PriorityDirs|)
    ensures GhostDecide(maze, ctrl, rule, scan, marked, pac, g).dir == Zero
    ensures GhostDecide(maze, ctrl, rule, scan, marked, pac, g).next == g.next
  {
    GhostFollowsBrain(maze, ctrl, rule, scan, marked, pac, g);
  }

  /** The decision of the older root `GhostMovement`: Pinky's target, reversal as a last resort. */
  function LegacyGhostDecide(maze: Maze, pac: PacView, g: Mover): (r: Mover)
    ensures r.cell == g.cell && Heading(maze, r)
  {
    Decide(maze, g, LegacyPinkyDesiredDir(maze, g.cell, g.dir, pac))
  }

  /** At a dead end whose reverse is open the older ghost turns back and heads for the cell behind it. */
  lemma LegacyGhostTurnsBackAtDeadEnd(maze: Maze, pac: PacView, g: Mover)
    requires g.dir != Zero
    requires NoneAdmissible(maze, g.cell, g.dir, |PriorityDirs|)
    requires CanMove(maze, g.cell, Neg(g.dir))
    ensures LegacyGhostDecide(maze, pac, g).dir == Neg(g.dir)
    ensures LegacyGhostDecide(maze, pac, g).next == Add(g.cell, Neg(g.dir))
  {
  }

  /** A switch between Scatter and Chase, in either direction. */
  predicate IsScatterChaseFlip(oldMode: GhostMode, newMode: GhostMode) {
    (oldMode == Scatter && newMode == Chase) || (oldMode == Chase && newMode == Scatter)
  }

  /**
   * `HandleModeChanged`: on a Scatter/Chase flip a moving ghost whose
   * reverse is movable turns around at once and retargets the cell behind
   * it; any other notification, a stopped ghost, or a blocked reverse leaves
   * it as it was.
   */
  function HandleModeChanged(maze: Maze, g: Mover, oldMode: GhostMode, newMode: GhostMode): (r: Mover)
    ensures r.cell == g.cell
    ensures r != g <==> IsScatterChaseFlip(oldMode, newMode) && g.dir != Zero && CanMove(maze, g.cell, Neg(g.dir))
    ensures r != g ==> r.dir == Neg(g.dir) && r.next == Add(g.cell, r.dir)
    ensures Heading(maze, g) ==> Heading(maze, r)
  {
    if !IsScatterChaseFlip(oldMode, newMode) || g.dir == Zero then g
    else
      var reversed := Neg(g.dir);
      if CanMove(maze, g.cell, reversed) then Mover(g.cell, reversed, Add(g.cell, reversed)) else g
  }

  /** Notifications into or out of Frightened never turn a ghost. */
  lemma FrightenedNeverReverses(maze: Maze, g: Mover, oldMode: GhostMode, newMode: GhostMode)
    requires oldMode == Frightened || newMode == Frightened
    ensures HandleModeChanged(maze, g, oldMode, newMode) == g
  {
  }

  /**
   * Two flips in a row undo each other: a ghost heading to an open
   * neighbour whose reverse is open turns back, then turns forward again to
   * the same direction and target.
   */
  lemma DoubleFlipRestores(maze: Maze, g: Mover)
    requires g.dir != Zero && Heading(maze, g)
    requires CanMove(maze, g.cell, Neg(g.dir))
    ensures HandleModeChanged(maze, HandleModeChanged(maze, g, Chase, Scatter), Scatter, Chase) == g
  {
    assert Neg(Neg(g.dir)) == g.dir;
  }

  /** Delivers the controller's notifications to one ghost, in order. */
  function DeliverEvents(maze: Maze, g: Mover, evs: seq<ModeChange>): (r: Mover)
    ensures r.cell == g.cell
    ensures Heading(maze, g) ==> Heading(maze, r)
    ensures (forall i :: 0 <= i < |evs| ==> !IsScatterChaseFlip(evs[i].oldMode, evs[i].newMode)) ==> r == g
    ensures r.dir == g.dir || r.dir == Neg(g.dir)
    decreases |evs|
  {
    if |evs| == 0 then g
    else DeliverEvents(maze, HandleModeChanged(maze, g, evs[0].oldMode, evs[0].newMode), evs[1..])
  }

  /** Eating a power pellet never turns a ghost around, whatever the controller's state. */
  lemma PowerPelletNeverReverses(maze: Maze, g: Mover, c: Controller, duration: real)
    ensures DeliverEvents(maze, g, TriggerFrightened(c, duration).events) == g
  {
    var evs := TriggerFrightened(c, duration).events;
    if |evs| > 0 {
      assert evs[1..] == [];
    }
  }

  /**
   * A frame during the Frightened override, including the one ending it,
   * never turns a ghost around. `FrightenedShown` holds on every state a
   * run reaches (`RunKeepsFrightenedShown`).
   */
  lemma OverrideFrameNeverReverses(maze: Maze, g: Mover, c: Controller, dt: real)
    requires FrightenedShown(c) && c.frightenedActive
    ensures DeliverEvents(maze, g, Tick(c, dt).events) == g
  {
    var evs := Tick(c, dt).events;
    if |evs| > 0 {
      assert evs[1..] == [];
    }
  }

  /**
   * From a started controller, after any frames and pickups, a frame taken
   * while the override is active never turns a ghost around.
   */
  lemma OverrideNeverReversesAfterStart(maze: Maze, g: Mover, phases: seq<Phase>, ops: seq<Op>, dt: real)
    requires Run(Start(Initial(phases)).ctrl, ops).ctrl.frightenedActive
    ensures DeliverEvents(maze, g, Tick(Run(Start(Initial(phases)).ctrl, ops).ctrl, dt).events) == g
  {
    var c0 := Start(Initial(phases)).ctrl;
    RunKeepsFrightenedShown(c0, ops);
    OverrideFrameNeverReverses(maze, g, Run(c0, ops).ctrl, dt);
  }

  /**
   * A frame that crosses a phase boundary from Scatter into Chase turns
   * every moving ghost whose reverse is open.
   */
  lemma PhaseFlipReverses(maze: Maze, g: Mover, c: Controller, dt: real)
    requires !c.frightenedActive && c.mode == Scatter
    requires Tick(c, dt).ctrl.mode == Chase
    requires g.dir != Zero && CanMove(maze, g.cell, Neg(g.dir))
    ensures DeliverEvents(maze, g, Tick(c, dt).events).dir == Neg(g.dir)
    ensures DeliverEvents(maze, g, Tick(c, dt).events).next == Add(g.cell, Neg(g.dir))
  {
    var evs := Tick(c, dt).events;
    assert evs == [ModeChange(Scatter, Chase)];
    assert evs[1..] == [];
  }

  /** The speed rules, in the priority order `GetSpeedMultiplier` tests them. */
  datatype SpeedRule = HouseSpeed | TunnelSpeed | FrightenedSpeed | NormalSpeed

  function Rank(rule: SpeedRule): nat {
    match rule
    case HouseSpeed => 0
    case TunnelSpeed => 1
    case FrightenedSpeed => 2
    case NormalSpeed => 3
  }

  /** When each rule, taken on its own, applies to a ghost in `cell`. */
  predicate Applies(rule: SpeedRule, maze: Maze, cell: Vec, mode: GhostMode) {
    match rule
    case HouseSpeed => cell in maze.room || cell in maze.door
    case TunnelSpeed => cell in maze.tunnel
    case FrightenedSpeed => mode == Frightened
    case NormalSpeed => true
  }

  /** `GetSpeedMultiplier`, as the rule that fires rather than its value. */
  function SpeedRuleAt(maze: Maze, cell: Vec, mode: GhostMode): (r: SpeedRule)
    ensures Applies(r, maze, cell, mode)
    ensures forall q: SpeedRule :: Rank(q) < Rank(r) ==> !Applies(q, maze, cell, mode)
  {
    if cell in maze.room || cell in maze.door then HouseSpeed
    else if cell in maze.tunnel then TunnelSpeed
    else if mode == Frightened then FrightenedSpeed
    else NormalSpeed
  }

  /** A Frightened ghost in a tunnel cell outside the house is slowed by the tunnel rule. */
  lemma TunnelBeatsFrightened(maze: Maze, cell: Vec)
    requires cell in maze.tunnel && cell !in maze.room && cell !in maze.door
    ensures SpeedRuleAt(maze, cell, Frightened) == TunnelSpeed
  {
  }
}
