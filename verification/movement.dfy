/**
 * The tile-centre decision shared by the ghosts and Pac-Man: commit to the
 * desired direction if it is movable, otherwise keep the current direction
 * while it is still movable, otherwise stop; when moving, the next target
 * cell is one step along the direction. Continuous motion between cell
 * centres is not modelled: an agent's position is the cell holding it.
 */
module Movement {
  import opened Grid

  /** An agent: the cell holding it, its current direction, and the cell it is heading to. */
  datatype Mover = Mover(cell: Vec, dir: Vec, next: Vec)

  /** A spawned agent sits at the centre of its cell, facing Right. */
  function Spawn(cell: Vec): (m: Mover)
    ensures m.dir == Right && m.cell == cell && m.next == cell
  {
    Mover(cell, Right, cell)
  }

  /** The agent is stopped, or moving to the open neighbour along its direction. */
  predicate Heading(maze: Maze, m: Mover) {
    m.dir == Zero || (CanMove(maze, m.cell, m.dir) && m.next == Add(m.cell, m.dir))
  }

  /** The decision made on arriving at the centre of `m.cell`, given the desired direction. */
  function Decide(maze: Maze, m: Mover, desired: Vec): (r: Mover)
    ensures r.cell == m.cell
    ensures Heading(maze, r)
    ensures CanMove(maze, m.cell, desired) ==> r.dir == desired
    ensures desired != Zero ==> (r.dir == desired <==> CanMove(maze, m.cell, desired))
    ensures !CanMove(maze, m.cell, desired) && CanMove(maze, m.cell, m.dir) ==> r.dir == m.dir
    ensures !CanMove(maze, m.cell, desired) && !CanMove(maze, m.cell, m.dir) ==> r.dir == Zero
    ensures r.dir == Zero ==> r.next == m.next
  {
    var d1 := if CanMove(maze, m.cell, desired) then desired else m.dir;
    var d2 := if CanMove(maze, m.cell, d1) then d1 else Zero;
    if d2 != Zero then Mover(m.cell, d2, Add(m.cell, d2)) else Mover(m.cell, Zero, m.next)
  }
}
