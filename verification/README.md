# PacHack ghost and Pac-Man decision core, in Dafny

This project models the decision logic of PacHack, a tile-based Pac-Man clone written for Unity. The model covers:

- **The global ghost-mode controller** (`GhostModeController`). It runs a schedule of Scatter/Chase phases and holds Chase once the schedule is used up. It also runs a timed Frightened override, which pauses the schedule and then restores the mode it recorded. Every time the mode value changes, it sends an (old, new) notification.
- **The ghost brains.** `ScatterChaseBrain` picks the scatter cell in Scatter and the chase target in every other mode. `BlinkyBrain` chases Pac-Man's cell. `PinkyBrain` aims four cells ahead of Pac-Man. The older root `PinkyBrain` always chases, whatever the mode.
- **The greedy direction chooser** (`ChooseDirTowardTarget`). It scans Up, Left, Down, Right. It skips the reverse of the current direction and any blocked step. It keeps the step whose destination has the strictly smallest squared distance to the target. The older variant falls back to reversing at a dead end.
- **The tile-centre decision** that ghosts and Pac-Man share. The agent commits to the desired direction if it can move that way, otherwise keeps its current direction if that is still movable, and otherwise stops.
- **The ghost's other rules:** the 180-degree turn on a Scatter/Chase flip (`HandleModeChanged`), and the priority order that picks the speed multiplier.
- **Pac-Man's rules:** input normalisation (horizontal input wins over vertical), pellet removal, and the root version's 10 points per pellet.
- **The power pellets:** the blinking layer, which caches the pellets still in play, and the pickup, which consumes a pellet and arms Frightened.
- **The score display:** the zero-padded digit slots.

Positions are tile cells (`Vec`). A tilemap layer is a set of cells. Times are `real` seconds. Every operation is a pure function from the old state to the new one.

Listener calls are not modelled as side effects. Each controller operation returns the notifications it emitted, in order. `GhostMovement.DeliverEvents` passes them to one ghost.

The fields of a fresh controller hold C# default values, so its mode is `Scatter`, the enum's first value. As a result, starting a schedule whose first phase is Chase (or an empty schedule) sends a Scatter-to-Chase notification. That notification turns moving ghosts around. `ModeController.StartNotifiesFromScatter` states this behaviour as the code has it.

## Model

Source paths are relative to the repository root.

| member | source | states |
|---|---|---|
| ModeController.Initial | Assets/Scripts/GhostScripts/GhostModeController.cs:51-62 | Before `Start`, the mode is Scatter (the enum default) and the Frightened override is off. |
| ModeController.SetMode | Assets/Scripts/GhostScripts/GhostModeController.cs:157-167 | The mode becomes the new value. Exactly one (old, new) notification is sent when the value changes, and none when it does not. |
| ModeController.Start | Assets/Scripts/GhostScripts/GhostModeController.cs:68-78 | Resets the phase index and timer. Enters the first phase's mode, or Chase for an empty schedule. Announces the change exactly. |
| ModeController.Tick | Assets/Scripts/GhostScripts/GhostModeController.cs:80-126 | While the override is active, the schedule is paused, including on the frame that ends it. An expired override restores the recorded mode. Within the schedule, the phase ends (the index advances by one and the timer restarts) exactly when the accumulated time reaches the phase's duration. Until then the timer grows by the frame time and the mode stays. An exhausted schedule gives Chase. An empty schedule changes nothing. Each notification matches the mode change. |
| ModeController.TriggerFrightened | Assets/Scripts/GhostScripts/GhostModeController.cs:136-147 | Enters Frightened and sets the override timer. The mode to restore is recorded only when the override was not already active. The schedule is untouched. |
| ModeController.RunEventsTrackMode | Assets/Scripts/GhostScripts/GhostModeController.cs:157-167 | Over any sequence of frames and power pellets, the notifications form a chain from the first mode to the last. Every one is a real change, and none is lost. |
| ModeController.RunKeepsPhaseIndex | Assets/Scripts/GhostScripts/GhostModeController.cs:104-126 | The phase index never decreases and never passes the schedule length. The schedule never changes. |
| ModeController.RunKeepsChaseLocked | Assets/Scripts/GhostScripts/GhostModeController.cs:107-124 | Once the schedule is used up, the mode is Chase whenever the override is off. While it is on, the mode it will restore is Chase. This is preserved by every operation. |
| ModeController.EmptyScheduleStartsInChase | Assets/Scripts/GhostScripts/GhostModeController.cs:74-77 | With no phases configured, `Start` enters Chase and the Chase lock holds. |
| ModeController.ExhaustedScheduleHoldsChase | Assets/Scripts/GhostScripts/GhostModeController.cs:38-41 | After the last phase, every later state with the override off is in Chase, whatever frames and power pellets follow. |
| ModeController.RunExhaustedStays | Assets/Scripts/GhostScripts/GhostModeController.cs:107-112 | A used-up schedule stays used up. |
| ModeController.OverrideFreezesSchedule | Assets/Scripts/GhostScripts/GhostModeController.cs:86-98 | While the override is held, the phase index, phase timer and recorded mode do not change. When the override ends, the mode is the recorded one. |
| ModeController.PauseResumeIsLossless | Assets/Scripts/GhostScripts/GhostModeController.cs:136-147 | Take a power pellet eaten outside the override, then any frames and further pellets while it lasts. Together they leave the phase index and timer unchanged, and end in the mode that was current at the first pellet. |
| ModeController.RunNeverReturns | Assets/Scripts/GhostScripts/GhostModeController.cs:80-147 | The controller never enters Returning unless the schedule names it. |
| ModeController.RunKeepsFrightenedShown | Assets/Scripts/GhostScripts/GhostModeController.cs:86-98 | While the Frightened override is active, the mode is Frightened. The pickup sets both together (lines 144-146), and a frame changes the mode only on expiry, which also clears the flag. Every frame and pickup preserves this. |
| ModeController.StartNotifiesFromScatter | Assets/Scripts/GhostScripts/GhostModeController.cs:51 | Starting from the default fields sends (Scatter, first mode) exactly when the first mode is not Scatter. |
| Grid.Blocked | Assets/Scripts/GhostScripts/GhostMovement.cs:198-202 | Defines a blocked cell: a wall, ghost-door or ghost-room tile. |
| Grid.CanMove | Assets/Scripts/GhostScripts/GhostMovement.cs:191-205 | Defines a movable step: a non-zero direction whose destination is not blocked. Pac-Man uses the same rule (Assets/Scripts/PacManScripts/PacManMovement.cs, lines 184-199). |
| Grid.SqDistZero | Assets/Scripts/GhostScripts/GhostBrain.cs:95-97 | The squared distance is never negative, and it is zero exactly when the two cells coincide. |
| DirectionChoice.ScanFrom | Assets/Scripts/GhostScripts/GhostBrain.cs:78-107 | Starting from the loop state after `i` directions, the scan ends in the reference greedy choice (`BestAmong`). |
| DirectionChoice.TakeKeepsScanState | Assets/Scripts/GhostScripts/GhostBrain.cs:99-104 | Taking a strictly nearer admissible direction keeps the loop invariant. |
| DirectionChoice.SkipKeepsScanState | Assets/Scripts/GhostScripts/GhostBrain.cs:83-89 | Skipping a reverse, blocked or not-nearer direction keeps the loop invariant. |
| DirectionChoice.BestAmongFacts | Assets/Scripts/GhostScripts/GhostBrain.cs:78-107 | A greedy choice is zero or a cardinal step. When non-zero it is admissible. It is zero exactly when nothing is admissible. |
| DirectionChoice.ChooseDir | Assets/Scripts/GhostScripts/GhostBrain.cs:68-108 | The result is the earliest nearest admissible direction. It never reverses a non-zero direction and is always movable when non-zero. It is zero exactly when nothing is admissible. |
| DirectionChoice.GreedyChoiceIsUnique | Assets/Scripts/GhostScripts/GhostBrain.cs:99-104 | The reference definition fixes the choice: a strict `<` with priority order breaks every tie. |
| DirectionChoice.IdleChoosesAnyMovable | Assets/Scripts/GhostScripts/GhostBrain.cs:83-89 | With no current direction, the chooser stops exactly when no cardinal step is movable. |
| DirectionChoice.StepOntoTargetIsChosen | Assets/Scripts/GhostScripts/GhostBrain.cs:91-104 | A direction whose step lands on the target is chosen whenever it is admissible. |
| DirectionChoice.TieGoesToEarlierDirection | Assets/Scripts/GhostScripts/GhostBrain.cs:26-32 | In an open junction, a target one cell down and one cell left is as near via Left as via Down, and Left wins by priority. |
| DirectionChoice.MovingRightNeverTurnsLeft | Assets/Scripts/GhostScripts/GhostBrain.cs:83-85 | A ghost moving Right never chooses Left, whatever the maze and the target. |
| DirectionChoice.ChooseDirWithReversal | Assets/Scripts/GhostMovement.cs:86-121 | It makes the greedy choice when anything is admissible. Otherwise it reverses a non-zero direction whose reverse is movable, and else returns zero. It reverses only at a dead end. |
| Targeting.PinkyTarget | Assets/Scripts/GhostScripts/PinkyBrain.cs:39-54 | The target is Pac-Man's cell plus 4 times its direction, 4 cells away for a cardinal direction. An idle Pac-Man counts as facing Right, giving (x+4, y). Facing Up gets no leftward shift. |
| Targeting.PinkyAimsFourStepsAhead | Assets/Scripts/GhostScripts/PinkyBrain.cs:45-53 | The target is the cell reached by walking four single steps from Pac-Man in its direction (Right when idle). It lies ahead: nearer the cell in front of Pac-Man than the cell behind. |
| Targeting.BlinkyTarget | Assets/Scripts/GhostScripts/BlinkyBrain.cs:37-44 | Defines Blinky's chase target as Pac-Man's cell. Its properties are in `Targeting.BlinkyPursuesPacManCell`. |
| Targeting.TargetTile | Assets/Scripts/GhostScripts/ScatterChaseBrain.cs:15-22 | Defines the mode's target: the scatter cell in Scatter, the chase target otherwise. Its properties are in `Targeting.OnlyScatterLeavesPursuit`. |
| Targeting.ScatterScan | Assets/Scripts/GhostScripts/ScatterChaseBrain.cs:27-38 | Returns the first marked cell in scan order, or (0, 0) when there is none. |
| Targeting.ScatterTarget | Assets/Scripts/GhostScripts/ScatterChaseBrain.cs:27-38 | The scatter target is the first marked cell of the layer's bounds in scan order, or (0, 0) when the layer is empty. |
| Targeting.OnlyScatterLeavesPursuit | Assets/Scripts/GhostScripts/ScatterChaseBrain.cs:11-25 | Frightened and Returning select the same target as Chase. Only Scatter selects the scatter cell. |
| Targeting.DesiredDir | Assets/Scripts/GhostScripts/ScatterChaseBrain.cs:11-25 | The desired direction is the greedy choice toward the target that the controller's mode selects. It is never a reversal, and it is movable when non-zero. |
| Targeting.BlinkyPursuesPacManCell | Assets/Scripts/GhostScripts/BlinkyBrain.cs:37-44 | Outside Scatter, Blinky's target is Pac-Man's cell, independent of Pac-Man's direction. In Scatter, it is the scatter cell. |
| Targeting.BlinkyStepsOntoAdjacentPacMan | Assets/Scripts/GhostScripts/BlinkyBrain.cs:37-44 | Outside Scatter, Blinky steps onto Pac-Man when Pac-Man is in an admissible neighbour cell. |
| Targeting.LegacyPinkyDesiredDir | Assets/Scripts/PinkyBrain.cs:14-66 | The older Pinky ignores the mode. It makes the greedy choice toward Pinky's target, and reverses only at a dead end whose reverse is open. |
| Movement.Spawn | Assets/Scripts/GhostScripts/GhostMovement.cs:54 | A spawned agent faces Right at its own cell. |
| Movement.Decide | Assets/Scripts/GhostScripts/GhostMovement.cs:101-114 | The desired direction is adopted exactly when it is movable. Otherwise the current direction is kept while movable, and else the agent stops. A moving agent heads to the neighbour along its direction. A stopped agent keeps its old target. |
| GhostMovement.GhostDecide | Assets/Scripts/GhostScripts/GhostMovement.cs:94-115 | A ghost stays in its cell and is either stopped or heading to an open neighbour. |
| GhostMovement.GhostFollowsBrain | Assets/Scripts/GhostScripts/GhostMovement.cs:99-106 | For a ghost whose direction is zero or cardinal, the direction after the decision is exactly the brain's choice. A zero choice means the current direction is blocked as well. |
| GhostMovement.GhostStopsAtDeadEnd | Assets/Scripts/GhostScripts/GhostMovement.cs:104-106 | At a dead end, the current ghost stops rather than reversing, and keeps its old target. |
| GhostMovement.LegacyGhostDecide | Assets/Scripts/GhostMovement.cs:37-58 | The older ghost stays in its cell and is either stopped or heading to an open neighbour. |
| GhostMovement.LegacyGhostTurnsBackAtDeadEnd | Assets/Scripts/GhostMovement.cs:116-118 | At a dead end whose reverse is open, the older ghost turns back and heads for the cell behind it. |
| GhostMovement.HandleModeChanged | Assets/Scripts/GhostScripts/GhostMovement.cs:153-174 | The ghost changes exactly when the notification is a Scatter/Chase flip, it is moving, and its reverse is movable. It then reverses and retargets the cell behind it. |
| GhostMovement.DeliverEvents | Assets/Scripts/GhostScripts/GhostMovement.cs:65-70 | Delivering a run's notifications in order keeps the ghost in its cell, keeps it heading to an open neighbour, and only ever leaves its direction or its reverse. Without a Scatter/Chase flip among them, nothing changes. |
| GhostMovement.FrightenedNeverReverses | Assets/Scripts/GhostScripts/GhostMovement.cs:155-159 | A notification into or out of Frightened never turns a ghost. |
| GhostMovement.DoubleFlipRestores | Assets/Scripts/GhostScripts/GhostMovement.cs:153-174 | Two flips in a row restore the ghost's direction and target. |
| GhostMovement.PowerPelletNeverReverses | Assets/Scripts/GhostScripts/GhostModeController.cs:136-147 | The notifications sent by eating a power pellet never turn a ghost. |
| GhostMovement.OverrideFrameNeverReverses | Assets/Scripts/GhostScripts/GhostModeController.cs:86-98 | A frame during the override, including the one that ends it, never turns a ghost. |
| GhostMovement.OverrideNeverReversesAfterStart | Assets/Scripts/GhostScripts/GhostModeController.cs:86-98 | After `Start` and any frames and pickups, a frame taken while the override is active never turns a ghost, the last frame of the override included. |
| GhostMovement.PhaseFlipReverses | Assets/Scripts/GhostScripts/GhostModeController.cs:114-125 | A frame that crosses from Scatter into Chase turns every moving ghost whose reverse is open. |
| GhostMovement.SpeedRuleAt | Assets/Scripts/GhostScripts/GhostMovement.cs:213-239 | The rule chosen applies, and no rule of higher priority applies. The order is house/door, then tunnel, then Frightened, then normal. |
| GhostMovement.TunnelBeatsFrightened | Assets/Scripts/GhostScripts/GhostMovement.cs:224-235 | A Frightened ghost in a tunnel cell outside the house gets the tunnel multiplier. |
| PacMan.SpawnPacMan | Assets/Scripts/PacManScripts/PacManMovement.cs:52-57 | Pac-Man starts facing Right and requesting Right. |
| PacMan.ReadInput | Assets/Scripts/PacManScripts/PacManMovement.cs:162-174 | Horizontal input wins over vertical, and zero input keeps the previous request. A non-zero request is never diagonal, and is a unit step for inputs in -1..1. |
| PacMan.InputNeverDiagonal | Assets/Scripts/PacManScripts/PacManMovement.cs:167-168 | A non-diagonal request stays non-diagonal, whatever the input. |
| PacMan.PacManStep | Assets/Scripts/PacManScripts/PacManMovement.cs:81-123 | At a cell centre, the request is updated from input and the shared decision is taken. The pellet of the current cell is removed, and no other pellet changes. |
| PacMan.ReadFrames | Assets/Scripts/PacManScripts/PacManMovement.cs:83 | `ReadInput` runs on every frame, so the request is folded over the frames' inputs. A non-diagonal request stays non-diagonal. |
| PacMan.IdleFramesKeepRequest | Assets/Scripts/PacManScripts/PacManMovement.cs:170-173 | Frames with no input leave the request unchanged. |
| PacMan.LastPressWins | Assets/Scripts/PacManScripts/PacManMovement.cs:162-174 | Reading every frame gives the same request as reading only the last non-zero input since the previous centre. |
| PacMan.EatPellet | Assets/Scripts/PacManMovement.cs:53-57 | A pellet in the cell is removed and scores exactly 10. An empty cell changes nothing. |
| PacMan.ScoredPacManStep | Assets/Scripts/PacManMovement.cs:32-58 | The root frame moves like the current one and adds 10 exactly when the cell held a pellet. |
| PacMan.ScoreCountsEachPelletOnce | Assets/Scripts/PacManMovement.cs:53-57 | Along any path, the visited pellets are gone. The score rises by 10 times the number of distinct pellet cells visited, so no pellet scores twice. |
| PacMan.ScoreStaysMultipleOfTen | Assets/Scripts/PacManMovement.cs:53-57 | Starting from a non-negative multiple of 10, eating along any path keeps the score a non-negative multiple of 10. |
| PowerPellets.StartBlink | Assets/Scripts/PowerPelletBlinkTilemap.cs:56-69 | The cache holds exactly the cells within the bounds that hold a tile, each with its original tile. Pellets start visible. |
| PowerPellets.Consume | Assets/Scripts/PowerPelletBlinkTilemap.cs:79-86 | The cell leaves both the cache and the live layer. Every other cell and every other field is unchanged. |
| PowerPellets.BlinkTick | Assets/Scripts/PowerPelletBlinkTilemap.cs:92-110 | When the interval elapses, the timer restarts and visibility flips. Cached cells are then all shown with their original tiles, or all cleared. Cells outside the cache are never touched. Before the interval, only the timer moves. |
| PowerPellets.CacheOnlyShrinks | Assets/Scripts/PowerPelletBlinkTilemap.cs:56-110 | Across any frames and consumptions, the cache only loses keys and still holds original tiles. |
| PowerPellets.ConsumedNeverReappears | Assets/Scripts/PowerPelletBlinkTilemap.cs:79-86 | A consumed pellet never comes back, in the cache or on the layer, whatever frames follow. |
| PowerPellets.PickUp | Assets/Scripts/PacManScripts/PowerPelletPickup.cs:48-62 | A live tile under Pac-Man is consumed and Frightened is armed for the duration. Otherwise nothing changes and nothing is notified. |
| PowerPellets.SecondPickupDoesNothing | Assets/Scripts/PacManScripts/PowerPelletPickup.cs:48-62 | A second pickup frame on the same cell does nothing. |
| PowerPellets.HiddenPelletIsNotPickedUp | Assets/Scripts/PacManScripts/PowerPelletPickup.cs:54-61 | A pellet hidden by the blink is not picked up and stays cached. |
| ScoreDisplay.IntToString | Assets/Scripts/ScoreDisplay.cs:18 | Defines `score.ToString()`: a '-' before the digits of a negative number. Its properties are in `ScoreDisplay.DigitsDenote`. |
| ScoreDisplay.PadLeft | Assets/Scripts/ScoreDisplay.cs:18 | `PadLeft(width, '0')` gives length max(text, width) and never truncates. A shorter text gets pad characters prepended. |
| ScoreDisplay.DigitsDenote | Assets/Scripts/ScoreDisplay.cs:18 | The decimal text of a natural number has only digits and denotes the number. Its length fixes the number's order of magnitude. |
| ScoreDisplay.UpdateScore | Assets/Scripts/ScoreDisplay.cs:16-25 | A non-negative score fills every slot with a digit 0..9. A negative score with any slot hits the '-' sprite index and fails. |
| ScoreDisplay.ScoreShowsLeadingDigits | Assets/Scripts/ScoreDisplay.cs:16-25 | Padding never truncates, so the slots show the score's most significant digits. |
| ScoreDisplay.ScoreRoundTrip | Assets/Scripts/ScoreDisplay.cs:16-25 | For a score below 10^slots, slot `i` shows the digit of weight 10^(slots-1-i), and reading the slots back gives the score. |
| ScoreDisplay.ZeroShowsAllZeros | Assets/Scripts/ScoreDisplay.cs:16-25 | A score of 0 shows 0 in every slot. |
| ScoreDisplay.PelletScoreEndsInZero | Assets/Scripts/ScoreManager.cs:17-20 | A score built from 0 by eating pellets always displays, and its last slot shows 0 while it fits. |

## Left out

- Continuous motion is not modelled: `MoveTowards`, speeds, the 0.001 arrival threshold and `Time.deltaTime` integration between cell centres. An agent's position is the cell that holds it, and a decision happens on arrival at that cell's centre.
- Speed multiplier values are not modelled. `SpeedRuleAt` returns which rule fires, not the float it selects.
- Animator parameters, sprite facing (`UpdateFacing`) and animation speed are not modelled. They are presentation only.
- Input rounding is not modelled. `ReadInput` takes the stick values after `Mathf.RoundToInt`, and the Input System callback `OnMove` is left out.
- Unity event wiring and frame order are not modelled: `OnEnable`/`OnDisable` subscription, `Update` order between components, and singleton setup. Notifications are delivered by an explicit fold.
- Grid.SqDist: does not model 32-bit overflow of `dx * dx + dy * dy`. The squared distance is unbounded, which matches the source for any maze of realistic size.
- DirectionChoice.ScanFrom: the `int.MaxValue` start value is modelled as "no candidate yet". The two agree whenever every distance is below `int.MaxValue`.
- PacMan.PacManStep: `ReadInput` runs every frame (line 83 of `PacManScripts/PacManMovement.cs`, line 34 of the root `PacManMovement.cs`), but the step takes one input. Its `x, y` stand for the last non-zero rounded input since the previous centre, or `(0, 0)` when there was none. `PacMan.LastPressWins` shows that folding every frame's input gives the same request.
- PacMan.EatPellet: does not model 32-bit wrap-around of `ScoreManager.score`. The score is unbounded.
- Null tilemaps in the root `GhostMovement`, root `PacManMovement` and `PacManMovement` `CanMove` are not modelled. A missing `Ghost_Door` or `Ghost_Room` there throws, and the model treats every layer as an assigned (possibly empty) set.
- `ScoreDisplay.Update`'s choice between `score` and `highScore` is not modelled: `ScoreManager` declares no `highScore` field. Only `UpdateScore` is modelled, and `Update` itself is not.
- ScoreDisplay.UpdateScore: assumes `numberSprites` has the ten sprites 0-9. A slot value outside 0..9 is the failure (`None`). For a negative score, the loop has already set every slot before the '-' to sprite 0 when the index fails. The model drops that partial update and returns only `None`.
- The abstract root `GhostBrain` has no logic and is not modelled separately.
- Targeting.ScatterTarget: the order of `cellBounds.allPositionsWithin` is taken as a given sequence `scan`, with the layer's occupied cells as the set `marked`.
- Targeting.DesiredDir: brain queries leave the controller unchanged by construction, because the function only reads the controller. No separate lemma states this.
- GhostMovement.HandleModeChanged: the ghost's cell during a notification is the cell holding its position. A notification mid-way between centres retargets from that cell, exactly as `WorldToCell` does.
- Start-up snapping (`Start` placing each agent at its cell centre) is modelled only as `Movement.Spawn` starting with the agent's target at its own cell.
