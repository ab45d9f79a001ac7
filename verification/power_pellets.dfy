/**
 * The power-pellet boundary: the blinking tilemap (`PowerPelletBlinkTilemap`)
 * keeps a cache of the pellets still in play and toggles only those, and the
 * pickup (`PowerPelletPickup`) consumes the live tile under Pac-Man and arms
 * the Frightened override.
 */
module PowerPellets {
  import opened Grid
  import opened Modes
  import opened ModeController

  /** The tile asset a cell holds (a `TileBase` reference). */
  datatype Tile = Tile(id: int)

  /**
   * The live power-pellet layer, the cache of original tiles, whether the
   * pellets are currently shown, and the blink timer and interval in seconds.
   */
  datatype Blink = Blink(tiles: map<Vec, Tile>, cache: map<Vec, Tile>, visible: bool, timer: real, interval: real)

  /** The cache holds exactly the pellets in play: every entry came from the initial layer. */
  predicate CacheFrom(b: Blink, initial: map<Vec, Tile>) {
    forall c :: c in b.cache ==> c in initial && b.cache[c] == initial[c]
  }

  /**
   * Field initialisers then `Start`: cache every cell within the layer's
   * bounds that holds a tile, with the tile it holds.
   */
  function StartBlink(tiles: map<Vec, Tile>, bounds: set<Vec>, interval: real): (b: Blink)
    ensures b.cache.Keys == bounds * tiles.Keys
    ensures CacheFrom(b, tiles)
    ensures b.tiles == tiles && b.visible && b.timer == 0.0 && b.interval == interval
  {
    Blink(tiles, map c | c in bounds && c in tiles :: tiles[c], true, 0.0, interval)
  }

  /** Removes a pellet for good: from the cache and from the live layer. */
  function Consume(b: Blink, cell: Vec): (r: Blink)
    ensures cell !in r.cache && cell !in r.tiles
    ensures forall c :: c != cell ==> (c in r.cache <==> c in b.cache)
    ensures forall c :: c in r.cache ==> r.cache[c] == b.cache[c]
    ensures forall c :: c != cell ==> (c in r.tiles <==> c in b.tiles)
    ensures forall c :: c in r.tiles ==> r.tiles[c] == b.tiles[c]
    ensures r.visible == b.visible && r.timer == b.timer && r.interval == b.interval
  {
    b.(cache := b.cache - {cell}, tiles := b.tiles - {cell})
  }

  /**
   * One frame of `dt` seconds: when the interval has elapsed, the timer
   * restarts, visibility flips, and every cached cell is set to its
   * original tile or cleared; no other cell is touched.
   */
  function BlinkTick(b: Blink, dt: real): (r: Blink)
    ensures r.cache == b.cache && r.interval == b.interval
    ensures b.timer + dt >= b.interval ==> r.timer == 0.0 && r.visible == !b.visible
    ensures b.timer + dt < b.interval ==> r == b.(timer := b.timer + dt)
    ensures forall c :: c !in b.cache ==> (c in r.tiles <==> c in b.tiles)
    ensures forall c :: c !in b.cache && c in r.tiles ==> r.tiles[c] == b.tiles[c]
    ensures b.timer + dt >= b.interval ==>
              forall c :: c in b.cache ==> (c in r.tiles <==> r.visible) && (r.visible ==> r.tiles[c] == b.cache[c])
  {
    var timer := b.timer + dt;
    if timer >= b.interval then
      var visible := !b.visible;
      var tiles := if visible then b.tiles + b.cache else b.tiles - b.cache.Keys;
      Blink(tiles, b.cache, visible, 0.0, b.interval)
    else
      b.(timer := timer)
  }

  /** What can happen to the blinking layer: a frame passes, or a pellet is consumed. */
  datatype BlinkOp = Frame(dt: real) | Eat(cell: Vec)

  function ApplyBlink(b: Blink, op: BlinkOp): Blink {
    match op
    case Frame(dt) => BlinkTick(b, dt)
    case Eat(cell) => Consume(b, cell)
  }

  function RunBlink(b: Blink, ops: seq<BlinkOp>): Blink
    decreases |ops|
  {
    if |ops| == 0 then b else RunBlink(ApplyBlink(b, ops[0]), ops[1..])
  }

  /**
   * The cache only shrinks: after any frames and consumptions it is still
   * drawn from the initial layer, and keys never come back.
   */
  lemma {:induction false} CacheOnlyShrinks(b: Blink, initial: map<Vec, Tile>, ops: seq<BlinkOp>)
    requires CacheFrom(b, initial)
    ensures CacheFrom(RunBlink(b, ops), initial)
    ensures RunBlink(b, ops).cache.Keys <= b.cache.Keys
    decreases |ops|
  {
    if |ops| > 0 {
      CacheOnlyShrinks(ApplyBlink(b, ops[0]), initial, ops[1..]);
    }
  }

  /** A consumed pellet never reappears, whatever frames and consumptions follow. */
  lemma {:induction false} ConsumedNeverReappears(b: Blink, cell: Vec, ops: seq<BlinkOp>)
    requires cell !in b.cache && cell !in b.tiles
    ensures cell !in RunBlink(b, ops).cache && cell !in RunBlink(b, ops).tiles
    decreases |ops|
  {
    if |ops| > 0 {
      ConsumedNeverReappears(ApplyBlink(b, ops[0]), cell, ops[1..]);
    }
  }

  /** The outcome of one pickup frame: the pellet layer and the controller step. */
  datatype Pickup = Pickup(blink: Blink, step: Step)

  /**
   * `PowerPelletPickup.Update`: if the live layer has a tile in Pac-Man's
   * cell, consume it and trigger Frightened for `duration` seconds;
   * otherwise change nothing.
   */
  function PickUp(b: Blink, ctrl: Controller, cell: Vec, duration: real): (r: Pickup)
    ensures cell in b.tiles ==> r.blink == Consume(b, cell) && r.step == TriggerFrightened(ctrl, duration)
    ensures cell in b.tiles ==> r.step.ctrl.mode == Frightened && r.step.ctrl.frightenedActive
                                && cell !in r.blink.tiles && cell !in r.blink.cache
    ensures cell !in b.tiles ==> r.blink == b && r.step == Step(ctrl, [])
  {
    if cell in b.tiles then Pickup(Consume(b, cell), TriggerFrightened(ctrl, duration))
    else Pickup(b, Step(ctrl, []))
  }

  /** A second pickup frame on the same cell does nothing: the tile is gone. */
  lemma SecondPickupDoesNothing(b: Blink, ctrl: Controller, cell: Vec, duration: real)
    ensures var first := PickUp(b, ctrl, cell, duration);
            PickUp(first.blink, first.step.ctrl, cell, duration) == Pickup(first.blink, Step(first.step.ctrl, []))
  {
  }

  /**
   * A pellet hidden by the blink cannot be picked up: the frame changes
   * nothing and the pellet stays cached, to show again on the next toggle.
   */
  lemma HiddenPelletIsNotPickedUp(b: Blink, ctrl: Controller, cell: Vec, duration: real)
    requires cell in b.cache && cell !in b.tiles
    ensures PickUp(b, ctrl, cell, duration).blink.cache == b.cache
    ensures PickUp(b, ctrl, cell, duration).step == Step(ctrl, [])
  {
  }
}
