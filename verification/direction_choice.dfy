/**
 * The ghosts' greedy direction choice (`ChooseDirTowardTarget`): scan Up,
 * Left, Down, Right; skip the reverse of a non-zero current direction and
 * every step `CanMove` refuses; keep the step whose destination is nearest the
 * target by squared distance, replacing the best only on a strictly smaller
 * distance. The current chooser returns zero at a dead end; the older one
 * falls back to reversing.
 */
module DirectionChoice {
  import opened Grid
  import opened Wrappers

  /** The scan order, which is also the tie-break order. */
  const PriorityDirs: seq<Vec> := [Up, Left, Down, Right]

  /** A direction the scan may pick: not the reverse of a non-zero current direction, and movable. */
  predicate Admissible(maze: Maze, cell: Vec, cur: Vec, d: Vec) {
    !(cur != Zero && d == Neg(cur)) && CanMove(maze, cell, d)
  }

  /** No direction among the first `n` of the priority order is admissible. */
  predicate NoneAdmissible(maze: Maze, cell: Vec, cur: Vec, n: nat)
    requires n <= |PriorityDirs|
  {
    forall j :: 0 <= j < n ==> !Admissible(maze, cell, cur, PriorityDirs[j])
  }

  /** Squared distance from the cell one step along `d` to the target. */
  function StepDist(cell: Vec, d: Vec, target: Vec): int {
    SqDist(Add(cell, d), target)
  }

  /**
   * Among the first `n` priority directions, the `k`-th is admissible, no
   * admissible direction is nearer, and every admissible direction before it
   * is strictly farther.
   */
  predicate IsPick(maze: Maze, cell: Vec, cur: Vec, target: Vec, n: nat, k: nat)
    requires k < n <= |PriorityDirs|
  {
    && Admissible(maze, cell, cur, PriorityDirs[k])
    && (forall j :: 0 <= j < n && Admissible(maze, cell, cur, PriorityDirs[j]) ==>
          StepDist(cell, PriorityDirs[k], target) <= StepDist(cell, PriorityDirs[j], target))
    && (forall j :: 0 <= j < k && Admissible(maze, cell, cur, PriorityDirs[j]) ==>
          StepDist(cell, PriorityDirs[k], target) < StepDist(cell, PriorityDirs[j], target))
  }

  /**
   * Reference definition of the greedy choice among the first `n` priority
   * directions: zero when none is admissible, otherwise the earliest nearest
   * admissible one.
   */
  predicate BestAmong(maze: Maze, cell: Vec, cur: Vec, target: Vec, n: nat, r: Vec)
    requires n <= |PriorityDirs|
  {
    if NoneAdmissible(maze, cell, cur, n) then r == Zero
    else exists k :: 0 <= k < n && IsPick(maze, cell, cur, target, n, k) && r == PriorityDirs[k]
  }

  /** The loop state after scanning `i` directions: the best so far and its distance, if any. */
  predicate ScanState(maze: Maze, cell: Vec, cur: Vec, target: Vec, i: nat, best: Vec, bestDist: Option<int>)
    requires i <= |PriorityDirs|
  {
    && BestAmong(maze, cell, cur, target, i, best)
    && (bestDist.None? <==> NoneAdmissible(maze, cell, cur, i))
    && (bestDist.Some? ==> bestDist.value == StepDist(cell, best, target))
  }

  /**
   * The scan loop from index `i`. `bestDist` is `None` until a candidate has
   * been seen, playing the part of the `int.MaxValue` start value.
   */
  function ScanFrom(maze: Maze, cell: Vec, cur: Vec, target: Vec, i: nat, best: Vec, bestDist: Option<int>): (r: Vec)
    requires i <= |PriorityDirs|
    requires ScanState(maze, cell, cur, target, i, best, bestDist)
    ensures BestAmong(maze, cell, cur, target, |PriorityDirs|, r)
    decreases |PriorityDirs| - i
  {
    if i == |PriorityDirs| then best
    else
      var d := PriorityDirs[i];
      var dist := StepDist(cell, d, target);
      if Admissible(maze, cell, cur, d) && (bestDist.None? || dist < bestDist.value) then
        TakeKeepsScanState(maze, cell, cur, target, i, best, bestDist);
        ScanFrom(maze, cell, cur, target, i + 1, d, Some(dist))
      else
        SkipKeepsScanState(maze, cell, cur, target, i, best, bestDist);
        ScanFrom(maze, cell, cur, target, i + 1, best, bestDist)
  }

  lemma TakeKeepsScanState(maze: Maze, cell: Vec, cur: Vec, target: Vec, i: nat, best: Vec, bestDist: Option<int>)
    requires i < |PriorityDirs|
    requires ScanState(maze, cell, cur, target, i, best, bestDist)
    requires Admissible(maze, cell, cur, PriorityDirs[i])
    requires bestDist.None? || StepDist(cell, PriorityDirs[i], target) < bestDist.value
    ensures ScanState(maze, cell, cur, target, i + 1, PriorityDirs[i],
                      Some(StepDist(cell, PriorityDirs[i], target)))
  {
    if !NoneAdmissible(maze, cell, cur, i) {
      var k :| 0 <= k < i && IsPick(maze, cell, cur, target, i, k) && best == PriorityDirs[k];
    }
    assert IsPick(maze, cell, cur, target, i + 1, i);
  }

  lemma SkipKeepsScanState(maze: Maze, cell: Vec, cur: Vec, target: Vec, i: nat, best: Vec, bestDist: Option<int>)
    requires i < |PriorityDirs|
    requires ScanState(maze, cell, cur, target, i, best, bestDist)
    requires !(Admissible(maze, cell, cur, PriorityDirs[i])
               && (bestDist.None? || StepDist(cell, PriorityDirs[i], target) < bestDist.value))
    ensures ScanState(maze, cell, cur, target, i + 1, best, bestDist)
  {
    if !NoneAdmissible(maze, cell, cur, i) {
      var k :| 0 <= k < i && IsPick(maze, cell, cur, target, i, k) && best == PriorityDirs[k];
      assert IsPick(maze, cell, cur, target, i + 1, k);
    }
  }

  /** Facts about any greedy choice that follow from the reference definition. */
  lemma BestAmongFacts(maze: Maze, cell: Vec, cur: Vec, target: Vec, r: Vec)
    requires BestAmong(maze, cell, cur, target, |PriorityDirs|, r)
    ensures r == Zero || IsUnit(r)
    ensures r != Zero ==> Admissible(maze, cell, cur, r)
    ensures r == Zero <==> NoneAdmissible(maze, cell, cur, |PriorityDirs|)
  {
    if !NoneAdmissible(maze, cell, cur, |PriorityDirs|) {
      var k :| 0 <= k < |PriorityDirs| && IsPick(maze, cell, cur, target, |PriorityDirs|, k) && r == PriorityDirs[k];
    }
  }

  /**
   * The current chooser (no dead-end fallback). Its result is the greedy
   * choice, hence zero or a cardinal step, never the reverse of a non-zero
   * current direction, always movable when non-zero, and zero exactly when
   * nothing is admissible.
   */
  function ChooseDir(maze: Maze, cell: Vec, cur: Vec, target: Vec): (r: Vec)
    ensures BestAmong(maze, cell, cur, target, |PriorityDirs|, r)
    ensures r == Zero || IsUnit(r)
    ensures r != Zero ==> CanMove(maze, cell, r)
    ensures cur != Zero ==> r != Neg(cur)
    ensures r == Zero <==> NoneAdmissible(maze, cell, cur, |PriorityDirs|)
  {
    var r := ScanFrom(maze, cell, cur, target, 0, Zero, None);
    BestAmongFacts(maze, cell, cur, target, r);
    r
  }

  /** The reference definition determines the choice: two greedy choices are equal. */
  lemma {:induction false} GreedyChoiceIsUnique(maze: Maze, cell: Vec, cur: Vec, target: Vec, r1: Vec, r2: Vec)
    requires BestAmong(maze, cell, cur, target, |PriorityDirs|, r1)
    requires BestAmong(maze, cell, cur, target, |PriorityDirs|, r2)
    ensures r1 == r2
  {
    if !NoneAdmissible(maze, cell, cur, |PriorityDirs|) {
      var k1 :| 0 <= k1 < |PriorityDirs| && IsPick(maze, cell, cur, target, |PriorityDirs|, k1) && r1 == PriorityDirs[k1];
      var k2 :| 0 <= k2 < |PriorityDirs| && IsPick(maze, cell, cur, target, |PriorityDirs|, k2) && r2 == PriorityDirs[k2];
    }
  }

  /**
   * With no current direction every direction is a candidate, so the chooser
   * stops exactly when no direction is movable.
   */
  lemma IdleChoosesAnyMovable(maze: Maze, cell: Vec, target: Vec)
    ensures ChooseDir(maze, cell, Zero, target) == Zero <==>
              (forall d :: IsUnit(d) ==> !CanMove(maze, cell, d))
  {
    var r := ChooseDir(maze, cell, Zero, target);
    if r == Zero {
      forall d | IsUnit(d)
        ensures !CanMove(maze, cell, d)
      {
        assert d == PriorityDirs[0] || d == PriorityDirs[1] || d == PriorityDirs[2] || d == PriorityDirs[3];
      }
    }
  }

  /**
   * A direction in which the step lands on the target is chosen whenever it
   * is admissible, since its distance 0 is beaten by no other step.
   */
  lemma {:induction false} StepOntoTargetIsChosen(maze: Maze, cell: Vec, cur: Vec, k: nat)
    requires k < |PriorityDirs|
    requires Admissible(maze, cell, cur, PriorityDirs[k])
    ensures ChooseDir(maze, cell, cur, Add(cell, PriorityDirs[k])) == PriorityDirs[k]
  {
    var target := Add(cell, PriorityDirs[k]);
    SqDistZero(target, target);
    forall j | 0 <= j < |PriorityDirs|
      ensures StepDist(cell, PriorityDirs[k], target) <= StepDist(cell, PriorityDirs[j], target)
      ensures j != k ==> StepDist(cell, PriorityDirs[k], target) < StepDist(cell, PriorityDirs[j], target)
    {
      SqDistZero(Add(cell, PriorityDirs[j]), target);
    }
    assert IsPick(maze, cell, cur, target, |PriorityDirs|, k);
    assert BestAmong(maze, cell, cur, target, |PriorityDirs|, PriorityDirs[k]);
    GreedyChoiceIsUnique(maze, cell, cur, target, ChooseDir(maze, cell, cur, target), PriorityDirs[k]);
  }

  /**
   * Tie-break: with all four neighbours open and no current direction, a
   * target one cell down and one cell left is as near via Left as via Down,
   * and Left, earlier in the order, wins.
   */
  lemma TieGoesToEarlierDirection(maze: Maze, cell: Vec)
    requires forall d :: IsUnit(d) ==> !Blocked(maze, Add(cell, d))
    ensures ChooseDir(maze, cell, Zero, Add(cell, Vec(-1, -1))) == Left
  {
    var target := Add(cell, Vec(-1, -1));
    assert PriorityDirs[0] == Up && PriorityDirs[1] == Left && PriorityDirs[2] == Down && PriorityDirs[3] == Right;
    assert StepDist(cell, Up, target) == 5;
    assert StepDist(cell, Left, target) == 1;
    assert StepDist(cell, Down, target) == 1;
    assert StepDist(cell, Right, target) == 5;
    forall j | 0 <= j < |PriorityDirs|
      ensures Admissible(maze, cell, Zero, PriorityDirs[j])
      ensures StepDist(cell, Left, target) <= StepDist(cell, PriorityDirs[j], target)
    {
      assert IsUnit(PriorityDirs[j]);
    }
    assert IsPick(maze, cell, Zero, target, |PriorityDirs|, 1);
    assert BestAmong(maze, cell, Zero, target, |PriorityDirs|, Left);
    GreedyChoiceIsUnique(maze, cell, Zero, target, ChooseDir(maze, cell, Zero, target), Left);
  }

  /**
   * No-reversal: a ghost moving Right never chooses Left, whatever the maze
   * and wherever the target is.
   */
  lemma MovingRightNeverTurnsLeft(maze: Maze, cell: Vec, target: Vec)
    ensures ChooseDir(maze, cell, Right, target) != Left
  {
  }

  /**
   * The older chooser (root `GhostMovement` and root `PinkyBrain`): the same
   * greedy scan, but when nothing is admissible and the reverse of a non-zero
   * current direction is movable, it reverses.
   */
  function ChooseDirWithReversal(maze: Maze, cell: Vec, cur: Vec, target: Vec): (r: Vec)
    ensures !NoneAdmissible(maze, cell, cur, |PriorityDirs|) ==>
              BestAmong(maze, cell, cur, target, |PriorityDirs|, r) && r != Zero
    ensures NoneAdmissible(maze, cell, cur, |PriorityDirs|) && cur != Zero && CanMove(maze, cell, Neg(cur)) ==>
              r == Neg(cur)
    ensures r == Zero <==>
              NoneAdmissible(maze, cell, cur, |PriorityDirs|) && !(cur != Zero && CanMove(maze, cell, Neg(cur)))
    ensures r != Zero ==> CanMove(maze, cell, r)
    ensures cur != Zero && r == Neg(cur) ==> NoneAdmissible(maze, cell, cur, |PriorityDirs|)
  {
    var best := ChooseDir(maze, cell, cur, target);
    if best == Zero && cur != Zero && CanMove(maze, cell, Neg(cur)) then Neg(cur) else best
  }
}
