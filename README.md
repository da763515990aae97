# Bee catching game: a verified model of the frame update

The game (app/bee/main.go) shows bees and hornets flying over a forest. The
player clicks bees to score and avoids hornets, within 60 seconds. All of the
game's logic sits in `(*Game).Update`, which the engine calls once per frame,
and in its helper `(*Game).addBee`. This project models those two functions
and proves what they promise.

- `entities.dfy` (module `Entities`) holds the entity record `Bee`. It also
  holds the spawn rule (`NewBee`), one movement step with wall bounce
  (`Move`, `MoveAll`), the click hit test (`Hits`, `FirstHit`) and the
  order-preserving compaction of the entity list (`Compact`), with lemmas
  about each.
- `game_state.dfy` (module `GameState`) holds the game state as a value and
  `Tick`, a pure function giving the effect of one `Update` call. Tick goes
  through the same phases as the source: not started, playing, over. Its
  stages are the timer, spawning, the lightning countdown, movement, the
  click and compaction. The lemmas here state the game's properties:
  - the state invariant (at most 10 entities, all visible, at most 3 hornet
    hits, and 3 hits force game over; the remaining time is never negative,
    and 0 forces game over);
  - what a frame does in each phase;
  - the hit rule and the scoring;
  - how the score and the hornet count may change per frame.
- `game.dfy` (module `BeeGame`) holds the class `Game`, whose fields are the
  Go struct's fields. `AddBee` and `Update` update those fields in place, as
  the source does. Update's three loops are written as their own methods
  (`MoveBees`, `HandleClick`, `RemoveInvisible`): the movement loop, the
  hit-test loop that stops at the first hit, and the loop that rebuilds the
  list. `Advance` groups spawning, the lightning countdown and the movement
  loop, in the source's order. Each stage method is proved equal to its stage
  of `Tick`, and `Update` is proved equal to `Tick`.

The engine and library inputs of `Update` are the fields of `Input`:
- whether the left button was pressed on this frame;
- the cursor position;
- a monotonic clock reading in nanoseconds;
- the random draws (`Draws`).

The draws model the results of `rand.Float64()` and `rand.Intn` directly.
The spawn, hornet and fast-tier decisions compare a roll with 0.05, 0.2 and
0.1, as the source does. The sprite sizes come from the decoded images; they
are passed to the constructor and kept constant.

Two details of the code are kept as written:
- The entity list is ordered, and the click hit test depends on that order.
- A restart leaves `lightningTimer` unchanged.

## Model

| member | source | states |
|---|---|---|
| `Entities.SpeedComponent` | app/bee/main.go:154-163 | a speed component `(roll*2-1)*base` from a roll in [0,1) lies in [-base, base), with base 2 or 5 by tier |
| `Entities.NewBee` | app/bee/main.go:139-172 | a spawned entity is visible; it is a hornet iff its roll is below 0.2 and fast iff its roll is below 0.1; its hitbox is half its sprite's size; with in-range draws it lies fully on screen and its speeds are within ±2 (±5 when fast) |
| `Entities.Move` | app/bee/main.go:221-236 | a visible entity advances by its speed; a non-zero speed component is reversed exactly when the new position is at or past a wall on that axis; size, kind, tier and visibility are kept; an invisible entity is unchanged |
| `Entities.MoveAll` | app/bee/main.go:221-236 | the movement loop moves every entity of the list, at the same index, and keeps the length |
| `Entities.GlideAt` | app/bee/main.go:226-227 | n steps at constant speed move an entity by n times its speed |
| `Entities.StraightFlight` | app/bee/main.go:221-236 | an entity that meets no wall in n movement steps ends at its start plus n times its speed, with its speed unchanged |
| `Entities.Hits` | app/bee/main.go:242-248 | only a visible entity can be hit, and the edges of its box count: each corner of the box is a hit |
| `Entities.FirstHit` | app/bee/main.go:241-268 | the click selects the first entity in list order that is visible and whose box, edges included, holds the cursor; no earlier entity is hit; with no result, no entity is hit |
| `Entities.Compact` | app/bee/main.go:272-279 | after compaction every entity is visible and the list is no longer |
| `Entities.CompactAppend` | app/bee/main.go:273-278 | compaction distributes over concatenation, so it keeps the original order |
| `Entities.CompactMembers` | app/bee/main.go:273-278 | an entity remains after compaction iff it was in the list and visible |
| `Entities.CompactAllVisible` | app/bee/main.go:273-279 | a list of visible entities is unchanged by compaction |
| `Entities.CompactRemovesHidden` | app/bee/main.go:250-279 | hiding entity i of a visible list and compacting removes exactly entity i; the others keep their order and the length drops by one |
| `GameState.Initial` | app/bee/main.go:54-63 | the new game is not started and not over, has 60 seconds left and satisfies the state invariant |
| `GameState.WholeSeconds` | app/bee/main.go:199-200 | elapsed whole seconds are the duration truncated toward zero |
| `GameState.Start` | app/bee/main.go:177-180 | the first press sets `gameStarted` and records the start time, and changes nothing else |
| `GameState.Restart` | app/bee/main.go:185-194 | the reset empties the list, zeroes score and hornet count, clears gameOver and the lightning, sets 60 seconds and a new start time, keeps `gameStarted` and `lightningTimer`, and yields a state satisfying the invariant |
| `GameState.SpawnStep` | app/bee/main.go:207-210 | the spawn adds one entity iff the roll is below 0.05 and there are fewer than 10, appended after the old entities and visible, so a list of at most 10 stays at most 10; nothing else changes |
| `GameState.CountDown` | app/bee/main.go:212-218 | while the effect is on the timer drops by one and the effect stays on iff the timer is still above 0; the countdown never turns the effect on and changes nothing else |
| `GameState.ApplyHit` | app/bee/main.go:250-266 | the hit entity is hidden and every other entity kept; a hornet adds one hit, arms the lightning for 30 frames, sets gameOver once 3 hits are reached and leaves the score; a bee adds 3 if fast, else 1, and leaves hornet count, gameOver and the lightning |
| `GameState.ClickStep` | app/bee/main.go:239-270 | a press changes at most one entity, the first one hit, which becomes hidden; with no hit nothing changes |
| `GameState.Tick` | app/bee/main.go:175-282 | only a press starts the game and it stays started; outside play a frame without a press changes nothing; during play score and hornet count never decrease, the count grows by at most one, and the list grows by at most one; a frame during play keeps the start time |
| `GameState.TickKeepsInv` | app/bee/main.go:175-282 | every frame keeps the invariant: at most 10 entities, all visible, 0 to 3 hornet hits, 3 hits only when over, remaining time not negative and 0 only when over, score not negative |
| `GameState.TickBeforeStart` | app/bee/main.go:176-182 | before the start, a frame changes nothing without a press; a press sets `gameStarted` and the start time and nothing else |
| `GameState.TickWhenOver` | app/bee/main.go:184-196 | while over, a frame changes nothing without a press; a press empties the list, sets score and hornet count to 0, time to 60, lightning off, gameOver false, keeps `lightningTimer`, and the game is playing again |
| `GameState.TimeUpExactly` | app/bee/main.go:199-201 | the time is up exactly when 60 whole seconds have passed since the start |
| `GameState.TickTimeUp` | app/bee/main.go:199-205 | when the time is up, the frame sets gameOver and clamps the remaining time to 0, and changes nothing else (entities, score and hornet count included) |
| `GameState.PreClickSteps` | app/bee/main.go:198-236 | with time left, the frame sets the remaining time to 60 minus the elapsed seconds; it spawns exactly one entity iff the roll is below 0.05 and there are fewer than 10, so there are never more than 10; the lightning timer drops by one while the effect is on, and the effect stays on only while the timer is above 0; every entity then moves one step; score, hornet count and start time are kept |
| `GameState.PreClickAllVisible` | app/bee/main.go:207-236 | every entity is visible when the click is tested |
| `GameState.TickHit` | app/bee/main.go:239-279 | a press that hits entity i removes exactly that entity and keeps the others in order; a hornet adds one hit, turns the lightning on for 30 frames, ends the game iff that was the third, and leaves the score; a bee adds 3 if fast, else 1, and leaves the hornet count, the lightning and the game running; the start time is kept in both cases |
| `GameState.TickNoHit` | app/bee/main.go:239-279 | with no press, or a press that hits nothing, the frame ends in the moved state with all entities kept |
| `GameState.TickScoreStep` | app/bee/main.go:252-266 | while playing, the score changes by exactly 0, 1 or 3 in a frame |
| `GameState.TickHornetStep` | app/bee/main.go:252-258 | while playing, the hornet count stays or grows by one, never exceeds 3, and reaching 3 ends the game |
| `GameState.CatchOneBee` | app/bee/main.go:239-279 | a press on the one slow bee of a started game scores 1 and leaves the list empty |
| `BeeGame.Game.constructor` | app/bee/main.go:54-63 | the new game holds the initial state and satisfies the invariant |
| `BeeGame.Game.AddBee` | app/bee/main.go:139-172 | appends the entity `NewBee` describes and changes no other field |
| `BeeGame.Game.Update` | app/bee/main.go:175-282 | the new fields are `Tick` of the old ones and the invariant is kept |
| `BeeGame.Game.Advance` | app/bee/main.go:207-236 | spawning, the lightning countdown and the movement loop give the state `SpawnStep`, `CountDown` and `MoveStep` describe, in that order |
| `BeeGame.Game.MoveBees` | app/bee/main.go:221-236 | the loop replaces each entity with its movement step and changes no other field |
| `BeeGame.Game.HandleClick` | app/bee/main.go:239-270 | the loop hides and scores the first entity hit, as `ClickStep` says, and changes nothing if none is hit |
| `BeeGame.Game.RemoveInvisible` | app/bee/main.go:272-279 | the list becomes its compaction and no other field changes |

## Left out

- Image loading and decoding (`loadBeeImages`), including the fatal exit when an image is missing. This is file I/O and image decoding. Only the resulting sprite sizes enter the model, as a constructor parameter.
- Drawing (`drawForestBackground`, `Draw`, text and the random lightning lines), `Layout` and `main`. These make engine calls and change no game state.
- The font face field of `Game`. Only drawing uses it.
- `math/rand`, `time.Now`/`time.Since`, `inpututil.IsMouseButtonJustPressed` and `ebiten.CursorPosition`. Their results are fields of `Input`. Each path through `Update` reads the clock at most once, so one reading per frame is enough.
- `Entities.NewBee`: the bounds on position and speed hold only for draws the random library can return (`DrawsInRange`). `rand.Intn` panics when a sprite's half size is not below the screen size; the model does not capture that panic.
- Float64 arithmetic. Positions and speeds are reals, with no rounding. The conversion of elapsed seconds to an int is modelled as truncation toward zero, without float rounding.
- Go's 64-bit `int` overflow of the score, the hornet count, the timer and the clock. The model's integers are unbounded; none of these counters can come near the limit in a game that lasts 60 seconds.
- The `error` result of `Update`. It is always nil.
