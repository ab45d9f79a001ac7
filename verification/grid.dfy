/**
 * Grid cells and directions, both the integer pairs the game calls `Vector2Int`,
 * and the maze's tilemap layers, each represented as the set of cells holding a tile.
 */
module Grid {

  /** An integer (x, y) pair: a cell of the grid or a step between cells. */
  datatype Vec = Vec(x: int, y: int)

  const Zero: Vec := Vec(0, 0)
  const Up: Vec := Vec(0, 1)
  const Left: Vec := Vec(-1, 0)
  const Down: Vec := Vec(0, -1)
  const Right: Vec := Vec(1, 0)

  function Add(a: Vec, b: Vec): Vec {
    Vec(a.x + b.x, a.y + b.y)
  }

  function Neg(a: Vec): Vec {
    Vec(-a.x, -a.y)
  }

  function Scale(a: Vec, k: int): Vec {
    Vec(a.x * k, a.y * k)
  }

  /** One of the four cardinal unit steps. */
  predicate IsUnit(d: Vec) {
    d == Up || d == Left || d == Down || d == Right
  }

  /** Squared Euclidean distance, as the ghosts compare it (`dx * dx + dy * dy`). */
  function SqDist(a: Vec, b: Vec): int {
    (a.x - b.x) * (a.x - b.x) + (a.y - b.y) * (a.y - b.y)
  }

  function Abs(n: int): nat {
    if n < 0 then -n else n
  }

  function Manhattan(a: Vec, b: Vec): nat {
    Abs(a.x - b.x) + Abs(a.y - b.y)
  }

  lemma SqDistZero(a: Vec, b: Vec)
    ensures SqDist(a, b) >= 0
    ensures SqDist(a, b) == 0 <==> a == b
  {
    var dx := a.x - b.x;
    var dy := a.y - b.y;
    assert dx * dx >= 0 && dy * dy >= 0;
    if dx != 0 {
      assert dx * dx > 0;
    }
    if dy != 0 {
      assert dy * dy > 0;
    }
  }

  /**
   * The collision and speed layers of one level. A layer the scene leaves
   * unassigned is the empty set.
   */
  datatype Maze = Maze(walls: set<Vec>, room: set<Vec>, door: set<Vec>, tunnel: set<Vec>)

  /** Cells no agent may enter: walls, the ghost door and the ghost room. */
  predicate Blocked(maze: Maze, c: Vec) {
    c in maze.walls || c in maze.door || c in maze.room
  }

  /** `CanMove`: a non-zero step whose destination cell is not blocked. */
  predicate CanMove(maze: Maze, cell: Vec, dir: Vec) {
    dir != Zero && !Blocked(maze, Add(cell, dir))
  }
}
