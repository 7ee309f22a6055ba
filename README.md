# synthbird: the per-frame game rules

This project models the game rules of `main.py`, a pygame clone of Flappy
Bird. pygame is treated as an opaque library. The model covers:

- the player sprite ("the bird"): capped gravity, the jump and its 400 ms
  cooldown, the floor and ceiling rules, death on contact, scoring, and the
  sprite-strip animation cursor;
- the `Pipe` sprite: its random height and hole size, its leftward scroll
  and its `destroy` flag;
- the pool of three pipes: `reset_pipes`, and the loop that replaces every
  destroyed pipe with a new one;
- one iteration of `main`'s loop: the events (R resets, SPACE starts a round
  from idle, the window's close event ends the loop), recycling, the player
  and pipe updates that run only while a round is played, and the
  animation.

There are four modules:

- `Playfield` (playfield.dfy): the 800x600 playfield, pygame's `clamp_ip`,
  the conversion of a centre back to integer coordinates, and Python's
  `randrange`.
- `Pipes` (pipes.dfy): the `Pipe` class, the score band, and the pool
  bookkeeping lemmas.
- `Bird` (bird.dfy): the `Player` class.
- `Loop` (loop.dfy): the `Game` class, which holds `main`'s state across
  frames.

Notes on the model:

- **Half-unit velocity.** Vertical velocity is an integer count of half-units.
  Gravity 0.5 becomes 1, the cap 50 becomes 100, and the jump -9 becomes -18.
- **Integral pipe positions.** Pipe x positions are integers: 800, plus 100,
  plus whole image widths, moving in steps of 3.
- **The round state.** The two flags `play` and `died` encode three phases:
  Idle, Playing and Dead.
- **Ghost bookkeeping for the score.** Each pipe records, as ghost state:
  - where it was placed;
  - how many updates it took;
  - how many of the player's score tests found it in the band;
  - the two random draws its y and hole came from.

  The game records, also as ghost state, how many pipes were recycled since
  the pool was built. The invariant `score == passed + Scored(pipes)` ties
  the player's score to these records. It shows that every pipe scores at
  most once during its pass, and exactly once before it is destroyed.
- **Branches that never fire.** Two tests in the source cannot succeed during play:
  - the floor clamp of `update_pos` (main.py:96-98), because a player reaching the floor dies in the same frame (Loop.Game.PlayingAboveFloor);
  - the `fc == 0` test of `animate` (main.py:138), because `fc` starts at 0 and is incremented before the test, so it is at least 1 there.

  The model keeps both branches as the source writes them.
- **Parameters.** Inputs the program reads from pygame become parameters:
  - the key state;
  - the two clock readings of `update_pos`;
  - the pixel-mask collision test, as one boolean per pipe;
  - the random generator's output stream;
  - the integer conversion of `rect.center += v`, constrained to land on an
    integer nearest to the exact value.

## Model

| member | source | states |
|---|---|---|
| Playfield.Clamp | main.py:99 | The clamped box lies inside the bound when it fits. A box already inside does not move. A box off the low side goes to 0, and one off the high side goes to `bound - size`. |
| Playfield.RoundingExact | main.py:101 | The conversion of `rect.center += v` is exact on whole coordinates, so a zero x velocity never moves the rect sideways. |
| Playfield.RangeCount | main.py:159-162 | `randrange(start, stop, step)` has `n > 0` admissible values, and the last of them is below `stop`. |
| Playfield.RandRange | main.py:159-162 | `randrange` returns a value in `[start, stop)` that is `start` plus a multiple of `step`. |
| Playfield.RandRangeCovers | main.py:159-162 | Every admissible value of `randrange` is produced by some draw. |
| Pipes.CountInBandExtremes | main.py:128-131 | The score test adds nothing exactly when no pipe is in the `x - 1 <= centerx <= x + 1` band. It adds one per pipe exactly when every pipe is in the band. |
| Pipes.NoCrossingRightOfBand | main.py:126-131 | A pipe whose samples all lie right of the band is never scored. |
| Pipes.CrossingsAtMostOne | main.py:190-192 | The band is 3 wide and each step is 3, so a pass is scored at most once. |
| Pipes.CrossingExactlyOnce | main.py:190-196 | A pass that starts at or right of the band and ends at or left of it is scored exactly once: the step never skips the band. |
| Pipes.Pipe.constructor | main.py:154-188 | A new pipe is at x = 800, not destroyed, with its rect at x = 800. Its y is `randrange(200,500,50)` of its first draw and its hole `randrange(240,320,20)` of its second, and it records both draws. Its height is top image, plus hole, plus bottom image. Its rect top is `y - height // 2`. |
| Pipes.Pipe.Offset | main.py:250 | `_p.pos.x += offset` moves only `pos`. The rect stays at 800 until the first update. |
| Pipes.Pipe.Update | main.py:190-196 | A live pipe moves by exactly -3, its rect follows, and it is flagged `destroy` exactly when its right edge is below 0. Once flagged, nothing changes, so the flag is monotone. |
| Pipes.Pipe.CrossedAtMostOnce | main.py:126-131 | A pipe is never scored twice. |
| Pipes.Pipe.CrossedOnceWhenDestroyed | main.py:190-196 | A pipe flagged `destroy` was scored exactly once on its way out. |
| Pipes.SurvivorsMembers | main.py:318-320 | The pipes the recycle loop keeps are exactly the group's members that were not destroyed. No sprite is kept twice. |
| Pipes.ScoredSurvivors | main.py:318-323 | The score events recorded on a pool are those of its survivors plus one per destroyed pipe. |
| Pipes.ScoredAtMostSize | main.py:126-131 | A valid pool records at most one score event per pipe. |
| Pipes.RecycledPool | main.py:318-323 | Survivors followed by the replacements form a set of valid live pipes. Only the destroyed pipes' score events leave the pool. |
| Pipes.RecycledOrder | main.py:318-323 | In the recycled pool, the survivors' entries come from the old pool, and every entry after them is a pipe spawned during the pass. |
| Bird.Gravity | main.py:86-87 | Gravity adds 0.5 exactly when `v.y < 50`. It never lifts a velocity at or below 50 above 50. |
| Bird.FallToCap | main.py:86-87 | From at most 50, free fall grows by 0.5 per update until exactly 50, and then stays there. |
| Bird.FallAboveCap | main.py:86-87 | A velocity above 50 is never corrected. |
| Bird.CooldownBlocks | main.py:90-94 | After an accepted jump, every attempt within 400 ms of it is refused. |
| Bird.CursorAt | main.py:136-145 | After `fc` calls of `animate`, `i_x` is a whole cell in `{0, 16, ..., 128}`. It is 0 exactly before the 10th call. |
| Bird.FrameAt | main.py:136-145 | The cell shown is a cut-out at an offset in `{0, 16, ..., 112}`, inside the 128-wide strip. It is blank exactly before the 10th call. |
| Bird.AnimateStep | main.py:136-145 | On every 10th count, the cursor (wrapped to 0 past 112) becomes the new shown cell and moves on by 16. On any other count, cursor and cell stay. |
| Bird.Player.constructor | main.py:35-68 | A new player is centred on (400, 300), at rest, alive and not playing, with score 0 and `last_jumped` 0. The constructor's own `animate` leaves `fc == 1`. |
| Bird.Player.UpdatePos | main.py:81-101 | Describes the new velocity, `last_jumped` and top edge: capped gravity, then a jump only when SPACE is held and 400 ms have passed, then the floor clamp with zero velocity when SPACE is not held. The centre then moves by `v.y` up to the integer conversion; x never changes. The result is `Moved`, which `Motion` reuses. |
| Bird.Player.TestCollision | main.py:103-118 | `died` becomes true and `play` false exactly when the rect touches the floor or a pipe's mask test hits. Above the ceiling the player is clamped to top 0 with zero velocity, and is not killed. |
| Bird.Player.UpdateScore | main.py:126-131 | The score rises by exactly the number of pipes whose x lies within 1 of the rect's centre x; the player stays valid. |
| Bird.Player.Animate | main.py:136-145 | `fc` rises by one per call, and the shown cell changes exactly on every 10th count. The `fc == 0` test never fires. |
| Bird.Player.Update | main.py:147-150 | Move, test collisions, score. The new velocity, top edge and `last_jumped` are those of `update_pos` followed by the ceiling clamp (`Motion`): capped gravity, the jump past the cooldown, the floor clamp, the move by `v.y`, and a top above 0 clamped to 0 with zero velocity. Afterwards `play` and `died` are never both true, a dead player stays dead, and x and the animation are untouched. |
| Loop.WithoutReset | main.py:303-315 | Without R, SPACE moves Idle to Playing and nothing else changes the phase. A Dead round cannot be restarted and no key stops a round. |
| Loop.AfterLastReset | main.py:303-312 | After the last R of a frame the round is Idle, unless a later SPACE starts it. |
| Loop.ResetRevives | main.py:305-307 | A frame with R never ends Dead. |
| Loop.WithoutOnce | main.py:320 | `Group.remove` of a sprite that occurs once removes exactly that entry and keeps the order. |
| Loop.Game.constructor | main.py:273-275 | `main` starts Idle, with a fresh valid player and a fresh valid pool, in the `Restarted` state: player at rest at the centre, never jumped, animated once, score 0, and the pipes at 900 + i * (width + 200). Six draws have been taken. |
| Loop.Game.Roll | main.py:159-162 | Each random call consumes the next value of the generator's stream. |
| Loop.Game.NewPipe | main.py:154-165 | `Pipe()` takes the next two draws of the stream, the first for y and the second for the hole height, and yields a fresh valid pipe at the spawn point. Its y is `200 + 50 * (d % 6)` for the first draw d, its hole is `240 + 20 * (e % 4)` for the second draw e, and its height is top image, plus hole, plus bottom image. |
| Pipes.PipeDrawsSelect | main.py:159-162 | `randrange(200, 500, 50)` picks one of the 6 values 200, 250, ..., 450, and `randrange(240, 320, 20)` one of the 4 values 240, 260, 280, 300, each by the draw modulo the count. |
| Loop.Game.ResetPipes | main.py:242-252 | The group holds exactly 3 distinct fresh pipes with no score events. The i-th is at x = 800 + 100 + i * (width + 200). Two draws are taken per pipe. |
| Loop.Game.HandleEvent | main.py:303-315 | One event: R builds a fresh player and pool in the `Restarted` state, SPACE starts only from Idle and sets `v.y = -9`, and QUIT sets `done`. Any event but R leaves the player object, its score, `died`, top, `last_jumped` and frame count, the pool and the draw count unchanged, and the velocity too unless SPACE started the round. |
| Loop.Game.HandleEvents | main.py:303-315 | A frame's events change the phase as `AfterEvents` says, and `done` records any QUIT. With an R, the frame ends with a fresh player and pool in the `Restarted` state (a SPACE after the R leaves it launched at `v.y = -9`). Without one, the player, pool and draw count are unchanged except that SPACE from Idle sets `v.y = -9`. |
| Loop.Game.Replace | main.py:319-323 | `remove` then `add(Pipe())` takes the sprite out of the group and appends one fresh spawned pipe. |
| Loop.Game.RecycleAt | main.py:318-323 | One iteration of the loop over the group's snapshot: a destroyed pipe is replaced at the end, a live one is kept in place. |
| Loop.Game.RecycleLoop | main.py:318-323 | After the loop, the group is the survivors in their order, followed by one fresh spawned pipe per destroyed one. |
| Loop.Game.Recycle | main.py:318-323 | The pool keeps 3 valid distinct pipes, none destroyed. The survivors come first, unchanged; then fresh pipes at x = 800; and each replacement counts as one passed pipe. |
| Loop.Game.UpdatePipes | main.py:329 | Every pipe moves by exactly -3. The score events recorded on the pool grow by the number of pipes that were in the band. |
| Loop.Game.Play | main.py:326-329 | A played frame ends Dead exactly when a mask test hit or the player reached the floor, and never Idle. The player moves as `Motion` says, the score rises by the pipes in the band, and every pipe moves by -3. |
| Loop.Game.Advance | main.py:326-329 | The player and the pipes change only while the round is Playing; otherwise both are untouched. While Playing, the frame is as `Play` states it, movement included. |
| Loop.Game.AnimatePlayer | main.py:344-345 | `player.animate()` counts one frame and changes the shown cell exactly on every 10th count, leaving the score and pool invariant intact. |
| Loop.Game.Tick | main.py:317-356 | After the events, a Playing round stays Playing or dies, and any other phase is unchanged. The player object is the same, and a dead player stays dead. |
| Loop.Game.Step | main.py:294-356 | One frame: the phase after the events is `AfterEvents`. Playing may then turn Dead, and nothing else changes the phase. `done` records QUIT. A fresh player exists exactly when R was pressed; otherwise a dead player stays dead. |
| Loop.Game.PlayingAboveFloor | main.py:96-106 | While a round is Playing, the player's bottom is above the floor. So the floor clamp of `update_pos` never fires in a played frame, and the new velocity is the jump or capped gravity. |
| Loop.Game.ScoreCountsPasses | main.py:318-331 | The score is the number of recycled pipes plus at most one point per live pipe. |

## Left out

- Rendering: screen fills, blits, images, the title, `display.flip` and `clock.tick(60)` (main.py:296-300, 335-362). They hold no game rule.
- The buildings scroll (main.py:346-348): it only moves a background image.
- The `Text` class and the score label (main.py:199-234, 332): font rendering over surfaces the model cannot see.
- Audio: mixer channels, busy checks, play and stop calls, and the score `print` (main.py:29-30, 73-79, 91-92, 121-124, 132-134). They are side effects with no effect on the state.
- Asset loading and the colour dictionary (main.py:10-14, 269-271): I/O and library plumbing.
- Pixel-mask collision (main.py:116, 175): `collide_mask` is an oracle, one boolean per pipe in pool order, supplied to each frame.
- Image compositing in `combine_imgs` (main.py:182-188) is reduced to its height sum. The image sizes are a parameter of the game.
- Randomness: `randrange`'s draws come from a stream `rng` that the game reads in order. Every admissible value is reachable (Playfield.RandRangeCovers).
- The clock: `get_ticks()` is the pair of readings `now` and `later`. The model does not require `later >= now`, so it covers any clock.
- Key state: `key.get_pressed()[K_SPACE]` is the parameter `spaceHeld`.
- Float rounding of `rect.center += v` (main.py:101): any conversion to a nearest integer is allowed. Which one pygame uses is not fixed.
- The `size` argument of `Player` (main.py:45, 260) is stored but never read, so it is not modelled.
- The blit area's width argument `i_x + 16` (main.py:142): the 16x15 destination clips it, so only the offset is modelled.
- Loop.Game.Tick: its contract states the phase, the player's identity and the invariant, not the pool's new positions. Those are stated by Loop.Game.Recycle and Loop.Game.Advance, which it calls.
- Loop.Game.Step: like Tick, it does not restate the pool's positions or the score increase. Those are stated by Loop.Game.Recycle, Loop.Game.Play and Loop.Game.HandleEvents.
- Loop.Game.AnimatePlayer: it does not restate the cursor formula. Bird.Player.Animate states it.
