# Whack-the-bug, modelled in Dafny

`sketch.js` is a p5.js clicker game. Bugs walk across a 400 x 400 canvas and
bounce off its edges. A click on a walking bug squishes it. A squished bug
disappears half a second later and a new one is spawned in its place, so the
population stays constant. A round lasts 30 seconds, and the game runs through
START, PLAY and END with a score and a high score.

This project models the game logic without its rendering:

- `sprite.dfy` (module `Sprite`): the frame counter of a sprite-sheet
  animation. It is the class `SpriteAnimation`, specified by the value type
  `AnimState` and the function `Advance`.
- `bug.dfy` (module `Bug`): one bug (`Character`). Movement, bouncing and the
  squish countdown are specified by the pure functions `StepBug`, `Squished`
  and `Run` on the value type `BugState`. The hit test `IsClicked` is a
  function of the object itself, because it reads the size of the bug's
  "move" frame.
- `population.dfy` (module `Population`): `spawnBug` with its random draws
  passed in. It also holds the selection of survivors the reap pass makes, and
  the search for the bug a click lands on.
- `lifecycle.dfy` (module `Lifecycle`): the START -> PLAY -> END lifecycle and the
  globals `score`, `highScore`, `time` and `speedMultiplier`, as pure
  functions of the events that change them.
- `game.dfy` (module `Game`): the script as one object (`Game.Sketch`), with the
  globals as fields and `setup`, `draw`, `keyPressed` and `mousePressed` as
  methods. Each method is proved against the functions above. The object's
  invariant `Valid` also says that every bug in the list keeps the two strips
  `spawnBug` gave it.
- `clock.dfy` and `options.dfy`: frame-time sums, `Abs`/`Max`, and `Option`
  (which stands for JavaScript's `null`).

Each class method states its new state as a function of the old one, for
example `Model() == StepBug(old(Model()), dt)`. The properties the game
promises are then proved as lemmas about those functions. The per-frame reap
loop works in place as the source does: it walks the list backwards, and each
removed bug is spliced out and replaced by a spawn pushed at the end. Its
contract says the list keeps its length, the survivors keep their order and
come first, and the spawns follow, one per removed bug.

## Model

| member | source | states |
|---|---|---|
| Sprite.Initial | sketch.js:208-220 | the constructor's counter state: frame 0, tick 0, frame count equal to the duration, and the range invariant holds |
| Sprite.Advance | sketch.js:222-230 | one `update()` never changes the strip or the frame count; with at most one frame it changes nothing; it preserves the range invariant |
| Sprite.AlwaysInRange | sketch.js:222-230 | after any number of updates the frame index stays in `[0, frameCount)` and the tick counter in `[0, 6)` |
| Sprite.SingleFrameIsStatic | sketch.js:223-229 | an animation with `frameCount <= 1` is unchanged by any number of updates |
| Sprite.FrameSchedule | sketch.js:215-228 | from the initial state, after `n` updates of a multi-frame animation the frame is `(n / 6) % frameCount` and the tick counter is `n % 6`, so the frame moves by exactly one every sixth update |
| Sprite.SpriteAnimation.constructor | sketch.js:208-220 | the new object's state is `Initial(startU, startV, duration)` |
| Sprite.SpriteAnimation.Update | sketch.js:222-230 | the object's new state is `Advance` of its old state |
| Bug.StepBug | sketch.js:141-177 | a squished bug stays in place; its timer drops by `dt/1000`; it is removed iff it already was or the timer is now 0 or below. A walking bug moves by its velocity; it negates `vx` (`vy`) exactly when its box, 32 pixels wide (high), is outside `[0, 400]` on that axis after the move; it keeps its timer, removed flag and speed. `removed` never clears |
| Bug.Run | sketch.js:141-177 | repeated `update()` never changes the current animation |
| Bug.Squished | sketch.js:197-202 | `squish()` selects the squish animation, zeroes both velocities and sets the timer to 0.5, keeping position and removed flag |
| Bug.SquishCountdown | sketch.js:142-150 | while squished, with nonnegative frame times, the bug keeps its position and velocity; its timer drops by the summed seconds; it is removed iff it was already or some frame brought the timer to 0 or below |
| Bug.SquishLifetime | sketch.js:142-150 | after `squish()` of a live bug, it is removed iff at least 500 ms of frame time passed, and it stays where it was squished |
| Bug.WalkingStaysOnCanvas | sketch.js:151-172 | a walking bug that is on the canvas (at most one step out, and heading back when out) stays on it over any number of frames and keeps its speed |
| Bug.Character.constructor | sketch.js:125-135 | a new bug has no animations, no current animation, zero velocity and timer, and is not removed |
| Bug.Character.AddAnimation | sketch.js:137-139 | the animation map gains or replaces exactly the given key |
| Bug.Character.Update | sketch.js:141-177 | the bug's new state is `StepBug` of its old state; the animation of the current mode advances by one `update()` and the other does not change |
| Bug.Character.UpdateAnimation | sketch.js:148-150 | the animation under the key advances and no other registered animation changes |
| Bug.Character.IsClicked | sketch.js:190-194 | true iff `x <= mx <= x + 32` and `y <= my <= y + 32`, using the move frame's width and height whatever animation is showing |
| Bug.Character.Squish | sketch.js:197-202 | the bug's new state is `Squished` of its old state |
| Population.SpawnIsLive | sketch.js:108-121 | a spawn is walking and not removed, has `vy = 0` and `|vx|` equal to the drawn speed times the multiplier, starts inside `[80, 320]` on both axes and on the canvas, and its squish animation is static |
| Population.SpawnBug | sketch.js:108-121 | `spawnBug()` returns a new bug whose state is `Spawned(draw, multiplier)`, with a four-frame move strip at `u = 0` and a one-frame squish strip at `u = 128`, both at their first frame |
| Population.SpawnAnimationsSplit | sketch.js:111-113 | a bug has exactly the animations `spawnBug()` creates iff it has its two strips (fixed for the bug's life) and both are at their first frame |
| Population.KeepFrom | sketch.js:58-63 | the selection a reap pass makes is never longer than the list it selects from |
| Population.KeepExactly | sketch.js:58-63 | every kept element comes from an unflagged position, and every unflagged element is kept |
| Population.KeepAppend | sketch.js:58-63 | selection distributes over concatenation, so kept elements keep their relative order |
| Population.KeptAreLive | sketch.js:58-63 | selecting by the bugs' own `removed` flags keeps no removed bug and every live one |
| Population.SurvivorsExactly | sketch.js:58-63 | the survivors of a list are exactly its bugs not marked removed, and survivors of a concatenation are the concatenated survivors |
| Population.FirstTarget | sketch.js:94-102 | the index found is that of a bug that is not squished and is under the pointer, and no earlier bug is one; or it is the list length if no bug is |
| Lifecycle.OnKey | sketch.js:85-89 | the state becomes PLAY iff it was PLAY, or it was START and the key is ENTER; nothing else changes |
| Lifecycle.OnHit | sketch.js:96-99 | a hit adds exactly 1 to the score and 0.1 to the speed multiplier and changes nothing else |
| Lifecycle.OnFrame | sketch.js:66-79 | START is unchanged. In PLAY the clock drops by `dt/1000` and the state becomes END iff the new time is at most 0. END sets the high score to the larger of high score and score. The score and multiplier never change |
| Lifecycle.EndIsTerminal | sketch.js:72-89 | from END neither frames nor keys leave END, and the score stays fixed |
| Lifecycle.HighScoreNeverDecreases | sketch.js:77-79 | the high score never decreases over any number of frames |
| Lifecycle.HighScoreSettles | sketch.js:77-79 | after one END frame the high score is `max(highScore, score)`, and further END frames change nothing |
| Lifecycle.HighScoreBounded | sketch.js:77-79 | frames never lift the high score above the larger of score and old high score |
| Lifecycle.RoundRunsOut | sketch.js:66-69 | in a running round with no clicks, the game is over iff the frame times sum to the remaining time; until then the clock reads the remaining time minus the elapsed seconds |
| Lifecycle.IdleRound | sketch.js:7-10 | from the initial globals, ENTER and 30 seconds of frames end the game with score 0 and high score 0 |
| Lifecycle.EventsKeepReachable | sketch.js:7-15 | the initial globals are reachable, and every event keeps time positive before END, scores nonnegative and the multiplier at least 1 |
| Game.ReapStep | sketch.js:58-63 | one step of the backward pass, on values: splicing out a dead element and pushing a spawn, or keeping a live one, leaves "prefix, survivors of the rest, spawns" one position earlier |
| Game.NoneRemoved | sketch.js:58-63 | after a reap pass by the bugs' own flags no bug of the list is removed, because survivors were not and spawns never are |
| Game.Sketch.constructor | sketch.js:7-15 | the globals start as START, score 0, high score 0, 30 seconds, multiplier 1, and no bugs |
| Game.Sketch.PushSpawn | sketch.js:61 | `bugs.push(spawnBug())` appends one new bug in the spawned state, with exactly the animations `spawnBug()` creates, and changes no global |
| Game.Sketch.Splice | sketch.js:60 | `bugs.splice(k, 1)` removes exactly position `k` |
| Game.Sketch.Respawn | sketch.js:60-61 | a splice at `k` followed by a push of a new spawn with the animations `spawnBug()` creates |
| Game.Sketch.ReapAt | sketch.js:59-62 | one iteration of the reap loop: a removed bug at `i` is replaced by a new spawn at the end, whose animations are at their first frame, and a live one stays; the game's footprint grows only by new objects |
| Game.Sketch.SpawnOne | sketch.js:29 | one iteration of the spawn loop pushes one new bug from the next draw, with the animations `spawnBug()` creates, after those pushed so far, and changes no global |
| Game.Sketch.Setup | sketch.js:28-30 | `setup()` appends exactly five new bugs, each spawned from its own draw with the animations `spawnBug()` creates, and leaves the globals unchanged; the game's footprint grows only by new objects |
| Game.Sketch.KeyPressed | sketch.js:85-89 | the globals become `OnKey` of the old globals |
| Game.Sketch.UpdateAll | sketch.js:52-55 | every bug of the list takes one `StepBug` step, and its new `removed` flag is the one that step gives; the list and the globals are unchanged |
| Game.Sketch.UpdateAt | sketch.js:53 | `update()` on one bug changes that bug's state by `StepBug`, advances the animation of its current mode by one `update()` and leaves its other animation alone; no other bug changes |
| Game.Sketch.Reap | sketch.js:58-63 | the list keeps its length; it becomes the old survivors in their order followed by the spawns, each spawned from the next draw at the current multiplier with both strips at their first frame; no bug of the list is removed; the globals are unchanged, and the game's footprint grows only by new objects |
| Game.Sketch.StepBugs | sketch.js:52-63 | the update pass and the reap pass of a PLAY frame: every old bug has taken one step; the list keeps its length and is the bugs that step did not remove, in order, followed by the spawns at their first frames; no bug of the list is removed; the globals are unchanged |
| Game.Sketch.PlayFrame | sketch.js:52-69 | in PLAY every old bug has taken one step; the list is the bugs that step did not remove, in order, followed by the spawns, each spawned from its draw with both strips at their first frame; no bug of the list is removed; the globals follow `OnFrame`; the game's footprint grows only by new objects |
| Game.Sketch.Tick | sketch.js:66-69 | the clock part of a PLAY frame follows `OnFrame` |
| Game.Sketch.Draw | sketch.js:33-83 | the globals follow `OnFrame`. Outside PLAY no bug, no bug's animation map and no animation counter changes. In PLAY the list keeps its length, every old bug has taken one step, the survivors come first in order, the spawns follow with both strips at their first frame, and no bug of the list is removed. In every state the game's footprint grows only by new objects, so `draw()` can be called again |
| Game.Sketch.HitAt | sketch.js:97-99 | the chosen bug is squished and keeps its animations, the globals follow `OnHit`, and no other bug changes |
| Game.Sketch.MousePressed | sketch.js:91-105 | in PLAY the first bug in list order that is not squished and under the pointer is squished and the globals follow `OnHit`; if there is no such bug, or the state is not PLAY, nothing changes. No bug's animations, and no animation's counters, change in either case |
| Game.StripsAreFixed | sketch.js:111-113 | in a valid game every bug's move strip has four frames and its squish animation is a single frame that no number of updates changes |

## Left out

- Rendering is not modelled: `background`, the `text*` calls, `Character.draw`, `SpriteAnimation.draw` and the START branch of `draw` (sketch.js:34-49, 73-76, 80, 179-187, 232-248). None of them changes game state.
- Asset loading and canvas set-up (`preload`, `loadFont`, `loadImage`, `createCanvas`, `textFont`) are foreign p5 calls and are not modelled. The sprite-sheet image a `SpriteAnimation` holds has no counterpart.
- The facing angle (`atan2(vy, vx) + HALF_PI`, sketch.js:157-159) is floating-point trigonometry that only rendering reads, so `Character` has no `angle` field.
- p5's `random` is replaced by `SpawnDraw` values passed in. `ValidDraw` uses closed ranges, a superset of what p5 draws from its half-open ones. `random([-1, 1])` is the `sign` field.
- The host's `deltaTime` is a `dt` parameter in milliseconds. Its nonnegativity is a hypothesis of the lemmas about several frames only, not a precondition.
- Positions, velocities, timers, `time` and `speedMultiplier` are exact reals, not IEEE doubles. The rounding of the repeated `+= 0.1` and of `Math.ceil(time)` in the display is not modelled.
- Browser event delivery is not modelled: `keyPressed`, `mousePressed` and a frame are separate atomic method calls.
- Game.Sketch.StepBugs, Game.Sketch.Reap, Game.Sketch.PlayFrame and Game.Sketch.Draw take as many draws as there are bugs, enough for every bug to be respawned. They state that the game's footprint grows only by newly allocated objects, but not that each spawn in the returned list is itself a new object. The reason is proof cost: carrying that freshness through the reap loop's invariant makes the loop's proof about four times as expensive, beyond the solver resource budget of 2,000,000 the whole project is verified under. `Game.Sketch.ReapAt` states it for the one spawn each iteration pushes; `Game.Sketch.PushSpawn`, `Game.Sketch.Respawn` and `Game.Sketch.Setup` state it too.
- Game.Sketch.UpdateAll, Game.Sketch.StepBugs, Game.Sketch.PlayFrame and Game.Sketch.Draw state each bug's `BugState` and its strips, but not the animation counters of the bugs that were already in the list. `Game.Sketch.UpdateAt` and `Bug.Character.Update` state those for one bug. The game invariant does not say that different bugs own different animation objects.
- Bug.Character.Update requires a "move" animation outside squish mode, because the source reads its frame size without a check. The later `if (this.animations["move"])` guard is therefore always true there.
- Bug.Character.IsClicked requires a "move" animation, as do `Population.Eligible` and `Population.FirstTarget`, which call it. The source reads that animation's frame size without a check and would throw without one. Every bug in a valid game has one.
- Bug.Character.AddAnimation requires that the object is not already registered under the other name. JavaScript would allow that aliasing, but then advancing one animation would advance the other.
- `Game.Sketch.Valid` requires every bug of the list to carry the two strips `spawnBug` registers. Every bug the script creates comes from `spawnBug`.
