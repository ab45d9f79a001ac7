/**
 * Pac-Man's movement step (`PacManMovement`): input normalisation, the
 * shared tile-centre decision, and eating the pellet in the cell reached.
 * The root `PacManMovement` also scores 10 per pellet.
 */
module PacMan {
  import opened Grid
  import opened Movement

  /** Pac-Man's state: its mover and the direction last requested by input. */
  datatype PacState = PacState(mover: Mover, desired: Vec)

  /** At spawn Pac-Man faces Right and wants to go Right. */
  function SpawnPacMan(cell: Vec): (p: PacState)
    ensures p.mover.dir == Right && p.desired == Right
    ensures p.mover.cell == cell && p.mover.next == cell
  {
    PacState(Spawn(cell), Right)
  }

  /**
   * `ReadInput` on stick values already rounded to integers: horizontal
   * input wins over vertical, and zero input keeps the previous request.
   */
  function ReadInput(x: int, y: int, desired: Vec): (r: Vec)
    ensures x == 0 && y == 0 ==> r == desired
    ensures x != 0 ==> r == Vec(x, 0)
    ensures x == 0 && y != 0 ==> r == Vec(0, y)
    ensures x != 0 || y != 0 ==> r.x == 0 || r.y == 0
    ensures x in {-1, 0, 1} && y in {-1, 0, 1} && (x != 0 || y != 0) ==> IsUnit(r)
  {
    var y1 := if x != 0 then 0 else y;
    if x != 0 || y1 != 0 then Vec(x, y1) else desired
  }

  /** A non-diagonal request stays non-diagonal, whatever the input. */
  lemma InputNeverDiagonal(x: int, y: int, desired: Vec)
    requires desired.x == 0 || desired.y == 0
    ensures ReadInput(x, y, desired).x == 0 || ReadInput(x, y, desired).y == 0
  {
  }

  /**
   * The source reads input on every frame, not only at cell centres. This
   * folds `ReadInput` over the frames since the previous centre.
   */
  function ReadFrames(frames: seq<(int, int)>, desired: Vec): (r: Vec)
    ensures (desired.x == 0 || desired.y == 0) ==> r.x == 0 || r.y == 0
    decreases |frames|
  {
    if |frames| == 0 then desired
    else ReadFrames(frames[1..], ReadInput(frames[0].0, frames[0].1, desired))
  }

  /** Frames without input leave the request alone. */
  lemma {:induction false} IdleFramesKeepRequest(frames: seq<(int, int)>, desired: Vec)
    requires forall j :: 0 <= j < |frames| ==> frames[j] == (0, 0)
    ensures ReadFrames(frames, desired) == desired
    decreases |frames|
  {
    if |frames| > 0 {
      IdleFramesKeepRequest(frames[1..], desired);
    }
  }

  /**
   * Reading every frame amounts to reading the last non-zero input once:
   * so the `(x, y)` of `PacManStep` stands for that input, or `(0, 0)`
   * when there was none since the previous centre.
   */
  lemma {:induction false} LastPressWins(frames: seq<(int, int)>, desired: Vec, k: nat)
    requires k < |frames| && (frames[k].0 != 0 || frames[k].1 != 0)
    requires forall j :: k < j < |frames| ==> frames[j] == (0, 0)
    ensures ReadFrames(frames, desired) == ReadInput(frames[k].0, frames[k].1, desired)
    decreases |frames|
  {
    var next := ReadInput(frames[0].0, frames[0].1, desired);
    if k == 0 {
      IdleFramesKeepRequest(frames[1..], next);
    } else {
      LastPressWins(frames[1..], next, k - 1);
    }
  }

  /** The result of one Pac-Man frame at a cell centre. */
  datatype PacStep = PacStep(pac: PacState, pellets: set<Vec>)

  /**
   * One frame on arrival at the centre of `p.mover.cell`: read input,
   * decide, then remove the pellet of the current cell, if any.
   */
  function PacManStep(maze: Maze, pellets: set<Vec>, p: PacState, x: int, y: int): (r: PacStep)
    ensures r.pac.desired == ReadInput(x, y, p.desired)
    ensures r.pac.mover == Decide(maze, p.mover, r.pac.desired)
    ensures Heading(maze, r.pac.mover)
    ensures p.mover.cell !in r.pellets
    ensures forall c :: c != p.mover.cell ==> (c in r.pellets <==> c in pellets)
  {
    var desired := ReadInput(x, y, p.desired);
    var m := Decide(maze, p.mover, desired);
    PacStep(PacState(m, desired), pellets - {p.mover.cell})
  }

  /** The pellets left and the score. */
  datatype ScoredPellets = ScoredPellets(pellets: set<Vec>, score: int)

  /** Eating at `cell` (root `PacManMovement`): a pellet there is removed and scores 10. */
  function EatPellet(p: ScoredPellets, cell: Vec): (r: ScoredPellets)
    ensures cell in p.pellets ==> r.score == p.score + 10 && r.pellets == p.pellets - {cell}
    ensures cell !in p.pellets ==> r == p
  {
    if cell in p.pellets then ScoredPellets(p.pellets - {cell}, p.score + 10) else p
  }

  /** The root `PacManMovement` frame: the same step, scoring the pellet eaten. */
  function ScoredPacManStep(maze: Maze, scored: ScoredPellets, p: PacState, x: int, y: int): (r: (PacState, ScoredPellets))
    ensures r.0 == PacManStep(maze, scored.pellets, p, x, y).pac
    ensures r.1.pellets == PacManStep(maze, scored.pellets, p, x, y).pellets
    ensures r.1.score == scored.score + (if p.mover.cell in scored.pellets then 10 else 0)
  {
    var s := PacManStep(maze, scored.pellets, p, x, y);
    (s.pac, EatPellet(scored, p.mover.cell))
  }

  /** Eating along the cells where Pac-Man stops at a centre, in order. */
  function EatAlong(p: ScoredPellets, path: seq<Vec>): ScoredPellets
    decreases |path|
  {
    if |path| == 0 then p else EatAlong(EatPellet(p, path[0]), path[1..])
  }

  /** The cells of a path. */
  function Visited(path: seq<Vec>): set<Vec> {
    set i | 0 <= i < |path| :: path[i]
  }

  lemma VisitedCons(path: seq<Vec>)
    requires |path| > 0
    ensures Visited(path) == {path[0]} + Visited(path[1..])
  {
    forall v | v in Visited(path) ensures v in {path[0]} + Visited(path[1..]) {
      var i :| 0 <= i < |path| && path[i] == v;
      if i > 0 {
        assert path[1..][i - 1] == v;
      }
    }
    forall v | v in Visited(path[1..]) ensures v in Visited(path) {
      var i :| 0 <= i < |path| - 1 && path[1..][i] == v;
      assert path[i + 1] == v;
    }
    assert path[0] in Visited(path);
  }

  /**
   * Each pellet scores at most once: along any path the score grows by
   * exactly 10 per distinct pellet cell visited, and those pellets are gone.
   */
  lemma {:induction false} ScoreCountsEachPelletOnce(p: ScoredPellets, path: seq<Vec>)
    ensures EatAlong(p, path).pellets == p.pellets - Visited(path)
    ensures EatAlong(p, path).score == p.score + 10 * |p.pellets * Visited(path)|
    decreases |path|
  {
    if |path| == 0 {
      assert Visited(path) == {};
    } else {
      var c := path[0];
      var rest := Visited(path[1..]);
      VisitedCons(path);
      var q := EatPellet(p, c);
      ScoreCountsEachPelletOnce(q, path[1..]);
      if c in p.pellets {
        assert p.pellets * Visited(path) == {c} + (q.pellets * rest);
        assert c !in q.pellets * rest;
      } else {
        assert p.pellets * Visited(path) == q.pellets * rest;
      }
    }
  }

  /** Pellet scores keep the score a non-negative multiple of 10. */
  lemma {:induction false} ScoreStaysMultipleOfTen(p: ScoredPellets, path: seq<Vec>)
    requires p.score >= 0 && p.score % 10 == 0
    ensures EatAlong(p, path).score >= 0 && EatAlong(p, path).score % 10 == 0
    decreases |path|
  {
    if |path| > 0 {
      ScoreStaysMultipleOfTen(EatPellet(p, path[0]), path[1..]);
    }
  }
}
