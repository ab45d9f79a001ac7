/**
 * Target selection (`ScatterChaseBrain`, `BlinkyBrain`, `PinkyBrain`): in
 * Scatter a ghost heads for the first marked cell of its scatter layer; in
 * every other mode, Frightened included, it heads for its chase target. The
 * desired direction is the greedy choice toward that target. The older Pinky
 * brain ignores the mode and uses the chooser with dead-end reversal.
 */
module Targeting {
  import opened Grid
  import opened Modes
  import opened ModeController
  import opened DirectionChoice

  /** Which chase rule a ghost's brain implements. */
  datatype ChaseRule = Blinky | Pinky

  /** What the brains read from Pac-Man: the cell holding it and its current direction. */
  datatype PacView = PacView(cell: Vec, dir: Vec)

  /** Blinky aims at Pac-Man's cell. */
  function BlinkyTarget(pac: PacView): Vec {
    pac.cell
  }

  /**
   * Pinky aims 4 cells ahead of Pac-Man, taking an idle Pac-Man as facing
   * Right; the arcade's extra shift when facing Up is not applied.
   */
  function PinkyTarget(pac: PacView): (t: Vec)
    ensures IsUnit(pac.dir) || pac.dir == Zero ==> Manhattan(t, pac.cell) == 4
    ensures pac.dir == Zero ==> t == Vec(pac.cell.x + 4, pac.cell.y)
    ensures pac.dir == Up ==> t.x == pac.cell.x && t.y == pac.cell.y + 4
    ensures pac.dir != Zero ==> t == Add(pac.cell, Scale(pac.dir, 4))
  {
    var d := if pac.dir == Zero then Right else pac.dir;
    Add(pac.cell, Scale(d, 4))
  }

  /** The cell reached from `c` by `n` steps along `d`, one step at a time. */
  function Walk(c: Vec, d: Vec, n: nat): Vec
    decreases n
  {
    if n == 0 then c else Walk(Add(c, d), d, n - 1)
  }

  lemma {:induction false} WalkIsScaledStep(c: Vec, d: Vec, n: nat)
    ensures Walk(c, d, n) == Add(c, Scale(d, n))
    decreases n
  {
    if n > 0 {
      WalkIsScaledStep(Add(c, d), d, n - 1);
    }
  }

  /**
   * Pinky's target is the cell Pac-Man would reach after four more steps in
   * its current direction (Right when idle), and it lies strictly ahead: it
   * is nearer to the cell one step ahead than to the cell one step behind.
   */
  lemma PinkyAimsFourStepsAhead(pac: PacView)
    requires IsUnit(pac.dir) || pac.dir == Zero
    ensures var d := if pac.dir == Zero then Right else pac.dir;
            && PinkyTarget(pac) == Walk(pac.cell, d, 4)
            && SqDist(PinkyTarget(pac), Add(pac.cell, d)) < SqDist(PinkyTarget(pac), Add(pac.cell, Neg(d)))
  {
    var d := if pac.dir == Zero then Right else pac.dir;
    WalkIsScaledStep(pac.cell, d, 4);
  }

  function ChaseTarget(rule: ChaseRule, pac: PacView): Vec {
    match rule
    case Blinky => BlinkyTarget(pac)
    case Pinky => PinkyTarget(pac)
  }

  /** `scan[i]` is marked and no earlier scanned cell is. */
  predicate IsFirstMarked(scan: seq<Vec>, marked: set<Vec>, i: nat)
    requires i < |scan|
  {
    scan[i] in marked && forall j :: 0 <= j < i ==> scan[j] !in marked
  }

  /**
   * The scatter-target scan from position `i`, over the cells of the scatter
   * layer's bounds in scan order; the cells before `i` are unmarked.
   */
  function ScatterScan(scan: seq<Vec>, marked: set<Vec>, i: nat): (r: Vec)
    requires i <= |scan|
    requires forall j :: 0 <= j < i ==> scan[j] !in marked
    ensures (forall j :: i <= j < |scan| ==> scan[j] !in marked) ==> r == Zero
    ensures (exists j :: i <= j < |scan| && scan[j] in marked) ==>
              exists k :: i <= k < |scan| && IsFirstMarked(scan, marked, k) && r == scan[k]
    decreases |scan| - i
  {
    if i == |scan| then Zero
    else if scan[i] in marked then
      assert IsFirstMarked(scan, marked, i);
      scan[i]
    else ScatterScan(scan, marked, i + 1)
  }

  /** The scatter target: the first marked cell in scan order, or (0, 0) if there is none. */
  function ScatterTarget(scan: seq<Vec>, marked: set<Vec>): (r: Vec)
    ensures (forall j :: 0 <= j < |scan| ==> scan[j] !in marked) ==> r == Zero
    ensures (exists j :: 0 <= j < |scan| && scan[j] in marked) ==>
              exists k :: 0 <= k < |scan| && IsFirstMarked(scan, marked, k) && r == scan[k]
  {
    ScatterScan(scan, marked, 0)
  }

  /** `GetDesiredDir`'s target: the scatter cell in Scatter, the chase target otherwise. */
  function TargetTile(mode: GhostMode, rule: ChaseRule, scan: seq<Vec>, marked: set<Vec>, pac: PacView): Vec {
    if mode == Scatter then ScatterTarget(scan, marked) else ChaseTarget(rule, pac)
  }

  /**
   * Frightened and Returning select the same target as Chase: there is no
   * randomised evasion, and only Scatter sends a ghost to its corner.
   */
  lemma OnlyScatterLeavesPursuit(rule: ChaseRule, scan: seq<Vec>, marked: set<Vec>, pac: PacView)
    ensures TargetTile(Frightened, rule, scan, marked, pac) == TargetTile(Chase, rule, scan, marked, pac)
    ensures TargetTile(Returning, rule, scan, marked, pac) == TargetTile(Chase, rule, scan, marked, pac)
    ensures TargetTile(Chase, rule, scan, marked, pac) == ChaseTarget(rule, pac)
    ensures TargetTile(Scatter, rule, scan, marked, pac) == ScatterTarget(scan, marked)
  {
  }

  /**
   * The desired direction of a `ScatterChaseBrain` ghost at `cell` moving
   * `cur`: the greedy choice toward the target its controller's mode selects.
   * The controller is only read.
   */
  function DesiredDir(ctrl: Controller, rule: ChaseRule, scan: seq<Vec>, marked: set<Vec>, pac: PacView,
                      maze: Maze, cell: Vec, cur: Vec): (r: Vec)
    ensures BestAmong(maze, cell, cur, TargetTile(ctrl.mode, rule, scan, marked, pac), |PriorityDirs|, r)
    ensures r == Zero || IsUnit(r)
    ensures r != Zero ==> CanMove(maze, cell, r)
    ensures cur != Zero ==> r != Neg(cur)
  {
    ChooseDir(maze, cell, cur, TargetTile(ctrl.mode, rule, scan, marked, pac))
  }

  /**
   * Blinky's target is Pac-Man's cell whatever Pac-Man's direction, in Chase
   * and in Frightened alike; in Scatter it is the scatter cell.
   */
  lemma BlinkyPursuesPacManCell(scan: seq<Vec>, marked: set<Vec>, cell: Vec, d1: Vec, d2: Vec, mode: GhostMode)
    ensures mode != Scatter ==>
              TargetTile(mode, Blinky, scan, marked, PacView(cell, d1)) == cell
              && TargetTile(mode, Blinky, scan, marked, PacView(cell, d1))
                 == TargetTile(mode, Blinky, scan, marked, PacView(cell, d2))
    ensures mode == Scatter ==> TargetTile(mode, Blinky, scan, marked, PacView(cell, d1)) == ScatterTarget(scan, marked)
  {
  }

  /**
   * Outside Scatter, when Pac-Man sits in an admissible neighbour cell of
   * Blinky, Blinky steps straight onto it.
   */
  lemma BlinkyStepsOntoAdjacentPacMan(ctrl: Controller, scan: seq<Vec>, marked: set<Vec>, pacDir: Vec,
                                      maze: Maze, cell: Vec, cur: Vec, k: nat)
    requires ctrl.mode != Scatter
    requires k < |PriorityDirs| && Admissible(maze, cell, cur, PriorityDirs[k])
    ensures DesiredDir(ctrl, Blinky, scan, marked, PacView(Add(cell, PriorityDirs[k]), pacDir), maze, cell, cur)
            == PriorityDirs[k]
  {
    StepOntoTargetIsChosen(maze, cell, cur, k);
  }

  /**
   * The older Pinky brain: always the Pinky chase target, whatever the mode,
   * with the chooser that reverses at a dead end.
   */
  function LegacyPinkyDesiredDir(maze: Maze, cell: Vec, cur: Vec, pac: PacView): (r: Vec)
    ensures !NoneAdmissible(maze, cell, cur, |PriorityDirs|) ==>
              BestAmong(maze, cell, cur, PinkyTarget(pac), |PriorityDirs|, r)
    ensures NoneAdmissible(maze, cell, cur, |PriorityDirs|) && cur != Zero && CanMove(maze, cell, Neg(cur)) ==>
              r == Neg(cur)
    ensures r != Zero ==> CanMove(maze, cell, r)
    ensures cur != Zero && r == Neg(cur) ==> NoneAdmissible(maze, cell, cur, |PriorityDirs|)
  {
    ChooseDirWithReversal(maze, cell, cur, PinkyTarget(pac))
  }
}
