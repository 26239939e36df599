# miniterms T-Rex runner, modelled in Dafny

miniterms is a terminal arcade whose main game is a dinosaur endless runner. Each tick:

- the player's dinosaur reacts to the keys (crouch with Down, jump with Space);
- a "ghost" dinosaur replays key states from a pre-generated solution buffer;
- obstacles (cacti and birds) spawn at the right edge on a random countdown, move left, and
  leave at the front of the queue;
- a pixel-exact sprite collision decides game over.

This project models that engine and proves what its operations promise. The modules follow
the source files, leaves first:

| module | file | source |
|---|---|---|
| `Bits` | `bits.dfy` | `>>` and `&` on unsigned integers, defined on naturals |
| `Geometry` | `geometry.dfy` | `src/math.rs`: `Pos`, `Size`, half-open `Line`, `Rect` |
| `Motion` | `motion.dfy` | `src/games/utils.rs`: the integer jump `Parabola` |
| `Input` | `input.dfy` | `src/input.rs`: `Key` and the two-bit-mask `Keys` |
| `Random` | `random.dfy` | the seeded `SmallRng`, as a stream of draws |
| `Sprites` | `sprites.dfy` | `src/image.rs`: images, bounding boxes, `collide`, clipping, `draw` |
| `SpriteCases` | `sprite_cases.dfy` | the unit tests of `src/image.rs` |
| `Skins` | `skins.dfy` | the bitmap tables of `src/games/trex.rs` |
| `Solutions` | `solutions.dfy` | `src/solution.rs`: the generator and the 1024-slot ring buffer |
| `Runner` | `runner.dfy` | `src/games/trex.rs`: `TRex`, `Enemy`, `TRexGame` |

## How the model is shaped

**Copy values become datatypes.** `Keys`, `Parabola`, `TRex`, `Enemy`, `Line` and `Rect` are
`Copy` values in the source. Each is a Dafny datatype, and each of its `&mut self` methods is a
function that returns the updated value. `Sprite` is not `Copy`, but it is a plain value built
afresh by every `sprite` call and never changed, so it is a datatype too.

**Owning objects become classes.** `SolutionGenerator`, `Solution` and `TRexGame` own state
that their methods change in place, so they are classes with `modifies` clauses:

- `Solution.keys` is an `array<Keys>` of 1024 slots.
- The `VecDeque` of enemies is a `seq<Enemy>` field.

**Loops stay loops.** Loops of the source are `while`/`for` loops with invariants:

- `collide`, `draw` and `update_enemies`;
- the fill of `Solution::new`;
- the `any` of `TRexGame::collide`;
- `trex_solution`.

Each such method is proved against a specification function. For example:

- `Solutions.Solution.Update` against the generator history `Outputs`;
- `Runner.TRexGame.Update` against `EnemyStep` and `TRex.Update`;
- `Sprites.Sprite.Collide` against `Collides` and pixel `Overlaps`.

**Bit operations.** Image rows (`u32`) are naturals, and `>>` and `&` are the arithmetic
functions of `Bits`. The key masks (`u8`) are `bv8`.

**Randomness.** `SmallRng` is a seed stream `nat -> nat` plus the number of draws consumed:

- each `gen_range`/`next_u32` call consumes one draw and lies in its range;
- the two HighFreq loops of `SolutionGenerator::next` still consume their 8 draws;
- the constructors take the seed stream as a parameter.

**Surprising behaviour of the source that the model keeps as written:**

- `Sprite::rect` clips the y axis against `canvas_size.width`, as written.
- It translates the y range by `origin.y - 2 * position.y`.
- The HighFreq guards `gen_range(..) < 0` never hold, so HighFreq only clears just-pressed bits.
- `collide`'s look-ahead moves enemies by `+velocity * time`, while enemies move left by
  `velocity`.
- `despawn_enemies` inspects only the front of the queue.

## Model

| member | source | states |
|---|---|---|
| Bits.AndLowMask | src/solution.rs:123 | masking with `2^k - 1` is `mod 2^k`, so `& (SOLUTION_SIZE - 1)` is `mod 1024` |
| Bits.AndNonZero | src/image.rs:136 | `x & y != 0` exactly when some bit position is set in both |
| Bits.AndShrCommonBit | src/image.rs:130-136 | a common bit of `(x >> s) & y`, for rows that fit their widths, is a bit of both rows inside both widths |
| Bits.AndShrFromCommonBit | src/image.rs:130-136 | bit `s + c` of x and bit c of y make `(x >> s) & y` non-zero |
| Bits.Shr | src/image.rs:131-133 | `x >> s` never exceeds x |
| Bits.ShrIsDiv | src/image.rs:131-133 | `x >> s` is `x / 2^s` |
| Bits.And | src/image.rs:136 | `x & y` is at most either operand |
| Bits.BitOfShr | src/image.rs:131-133 | bit c of `x >> s` is bit `s + c` of x |
| Geometry.Add | src/math.rs:110-115 | axis-wise sum: subtracting q from the result gives p back |
| Geometry.Sub | src/math.rs:117-122 | axis-wise difference; adding q back gives p |
| Geometry.SubUndoesAdd | src/math.rs:110-122 | `(p + q) - q == p` |
| Geometry.Line.NewChecked | src/math.rs:58-64 | None exactly when `start >= end`, otherwise the line with those ends |
| Geometry.Line.Range | src/math.rs:48-50 | the values `start..end` in order, exactly the members of the line, empty when `start >= end` |
| Geometry.Line.Intersect | src/math.rs:66-70 | None exactly when max of starts >= min of ends; otherwise those ends, inside both lines, containing exactly the common points |
| Geometry.IntersectCommutes | src/math.rs:66-70 | intersection does not depend on the argument order |
| Geometry.Line.Translate | src/math.rs:77-82 | both ends shift by the amount; size and membership are carried along |
| Geometry.Line.Size | src/math.rs:74-76 | positive exactly for the lines `new_checked` accepts |
| Geometry.Rect.Intersect | src/math.rs:86-91 | None exactly when an axis has no overlap, otherwise the axis-wise intersection |
| Geometry.Rect.Size | src/math.rs:105-107 | width and height are the per-axis `end - start` |
| Motion.Parabola.New | src/games/utils.rs:12-19 | time 0, value 0, consistent, finished only for duration 0 |
| Motion.Parabola.Step | src/games/utils.rs:21-24 | time + 1, same max and duration, value recomputed and at most max, 0 once finished |
| Motion.Parabola.Value | src/games/utils.rs:26-28 | for a consistent curve, at most max and 0 once finished |
| Motion.Parabola.Finished | src/games/utils.rs:30-32 | an unfinished curve has a non-zero duration, so `calc_value` never divides by zero |
| Motion.Parabola.CalcValue | src/games/utils.rs:34-43 | 0 when finished; otherwise at most max (the division is reached only with a non-zero duration) |
| Motion.CalcValueIsFloor | src/games/utils.rs:34-43 | before the end, the value is the floor of `4*max*t*(d-t)/d^2` |
| Motion.CurveFacts | src/games/utils.rs:35-42 | the numerator is non-negative (no unsigned underflow) and the quotient is at most max |
| Motion.NumeratorIsArc | src/games/utils.rs:42 | `4*max*d*t - 4*max*t*t == 4*max*t*(d-t) >= 0` |
| Motion.ArcAtMostSquare | src/games/utils.rs:42 | `4*max*t*(d-t) <= max*d^2` |
| Motion.Symmetric | src/games/utils.rs:42 | the value at t equals the value at `d - t` |
| Motion.PeakAtHalfTime | src/games/utils.rs:42 | for even d, the value at `d/2` is max |
| Motion.Trajectory | src/games/utils.rs:12-32 | n steps after `new` the time is n, the value is the curve at n, finished iff `n >= duration`, then value 0 |
| Input.Key.Index | src/input.rs:4-10 | below 5; the values Up = 0 .. Space = 4 are fixed by the match, and `Input.IndexRoundTrip` ties them to `from_u8` |
| Input.IndexRoundTrip | src/input.rs:82-91 | `from_u8(key as u8) == Some(key)` for every key, so each discriminant names exactly one key |
| Input.Key.Mask | src/input.rs:66-68 | `1 << key` is one non-zero bit in the low five bits |
| Input.MasksDisjoint | src/input.rs:66-68 | distinct keys have disjoint masks, equal keys do not |
| Input.Key.FromU8 | src/input.rs:82-91 | defined exactly for 0..5 (the source panics otherwise), with index n and mask `1 << n` |
| Input.Keys.New | src/input.rs:19-24 | nothing just pressed, nothing pressing, nothing pressed at all |
| Input.Keys.Held | src/input.rs:55-58 | the held bit of the key, bit `key` of the pressing mask |
| Input.Keys.JustPressed | src/input.rs:51-53 | bit `key` of the just-pressed mask |
| Input.Keys.Pressing | src/input.rs:55-58 | the key's bit is set in the union of the two masks |
| Input.Keys.AnyPressed | src/input.rs:60-62 | the union of the masks is non-zero; when it is false no key is pressing |
| Input.Keys.Update | src/input.rs:26-28 | every just-pressed bit cleared, held mask kept |
| Input.Keys.Press | src/input.rs:30-33 | the key is just pressed, held and pressing; every other key keeps both bits |
| Input.Keys.Release | src/input.rs:35-37 | only the key's held bit is cleared; it is still pressing iff just pressed; just-pressed mask kept |
| Input.ClearedBit | src/input.rs:35-37 | `m & !b` keeps every other single bit of m |
| Input.AnyPressedIffSomeKey | src/input.rs:60-62 | for masks within the five key bits, `any_pressed` iff some key is pressing |
| Random.Rng.GenRange | src/solution.rs:23 | `gen_range(lo..hi)` lies in `[lo, hi)` and consumes one draw |
| Random.Rng.NextU32 | src/games/trex.rs:107 | `next_u32` is below `2^32` and consumes one draw |
| Sprites.Image.Width | src/image.rs:146-148 | the declared width, at most 32 for a valid image |
| Sprites.Image.Height | src/image.rs:149-151 | the row count, truncated to `u16` |
| Sprites.Animation.Image | src/image.rs:16-18 | frame n is image `n mod len`, defined for a non-empty animation |
| Sprites.AnimationCycles | src/image.rs:16-18 | the animation has period `len` |
| Sprites.ClipNew | src/image.rs:45-57 | None iff `end <= 0` or `window <= start`; otherwise the covered cells are exactly the range inside `[0, window)`, offset `max(-start, 0)` and `position.start == start + offset` |
| Sprites.SpriteRect.Draw | src/image.rs:61-76 | the painted points are exactly those whose mapped image bit is set |
| Sprites.Sprite.BoundingBox | src/image.rs:80-97 | Min starts the box at the anchor, Max ends it just past it; the size is width by height |
| Sprites.Sprite.ShiftTo | src/image.rs:130-134 | the alignment shift is below 32 whenever the boxes overlap |
| Sprites.Sprite.Collide | src/image.rs:118-142 | the result is the row test over the intersection; false without intersection; for fitting rows, true iff the sprites share an opaque pixel |
| Sprites.Sprite.Rect | src/image.rs:99-116 | None exactly when the translated box lies wholly before 0 or at/after the canvas width on some axis; otherwise drawable, and it paints exactly the canvas points showing an opaque pixel; when None, no point shows |
| Sprites.RectProjects | src/image.rs:99-116 | the clip facts behind `rect`: what each clip pair paints, or that nothing shows |
| Sprites.RowsMeetIffCommonPixel | src/image.rs:126-139 | on a common row, the shifted rows meet iff some column is opaque in both |
| Sprites.MeetShiftingFirst | src/image.rs:130-131 | when the first box starts further left, a meeting row yields a common opaque column |
| Sprites.PixelShiftingFirst | src/image.rs:130-131 | and a common opaque column makes the shifted rows meet |
| Sprites.MeetShiftingSecond | src/image.rs:132-133 | the same when the second row is shifted |
| Sprites.PixelShiftingSecond | src/image.rs:132-133 | the converse when the second row is shifted |
| Sprites.CollidesIffOverlaps | src/image.rs:118-142 | for fitting rows, `collide` is exact pixel overlap |
| Sprites.CollidesSymmetric | src/image.rs:118-142 | `a.collide(b) == b.collide(a)` |
| SpriteCases.BoundingBoxCases | src/image.rs:212-241 | the 4x2 image at (3, 1): x [3, 7), y [1, 3) for Min/Min and x [0, 4), y [0, 2) for Max/Max |
| SpriteCases.CollisionTouching | src/image.rs:170-181 | touching in one column collides, in both orders |
| SpriteCases.CollisionSideBySide | src/image.rs:185-186 | at (4, 0) there is no collision |
| SpriteCases.CollisionSecondRow | src/image.rs:188-190 | at (0, -1) they collide, in both orders |
| SpriteCases.CollisionSecondRowMissed | src/image.rs:192-194 | at (-1, -1) they do not collide, in both orders |
| SpriteCases.CollisionByOrigin | src/image.rs:198-208 | Max/Max at (-1, 0) and Min/Max at (4, -1) do not collide |
| SpriteCases.CollisionAsWrittenMissesMaxY | src/image.rs:202-204 | the Min/Max case at (3, -1) has y box [-2, 0) and does not collide |
| SpriteCases.CollisionWithMaxYPlacedOnBar | src/image.rs:202-204 | with the anchor at (3, 0), the y box is [-1, 1) and the sprites collide and share a pixel |
| Skins.TRexRunningFits | src/games/trex.rs:239-284 | two frames, each at most 32 wide with every row within its width |
| Skins.TRexCrouchingFits | src/games/trex.rs:286-321 | the same for the two crouching frames |
| Skins.BirdFits | src/games/trex.rs:323-388 | the same for the four bird frames |
| Skins.CactusesFit | src/games/trex.rs:414-478 | the same for the three cactus images |
| Skins.SkinsFit | src/games/trex.rs:239-478 | all tables are non-empty and fit, so `image(frame)` never divides by zero |
| Solutions.WrappingAdd | src/solution.rs:123 | `usize` wrapping addition: below `2^64`, exact when there is no overflow |
| Solutions.SlotOf | src/solution.rs:123 | `i & 1023` is `i mod 1024` |
| Solutions.SamplePhase | src/solution.rs:22-29 | one draw; LowFreq iff it is below 30 |
| Solutions.DrawKey | src/solution.rs:60 | `from_u8(gen_range(0..5))` never panics and consumes one draw |
| Solutions.GenStepSpec | src/solution.rs:42-86 | countdown resampled into `[50, 100)` with two draws, or decremented; HighFreq only clears just-pressed bits and makes exactly 8 draws; LowFreq draws from `[0, 20)`: a non-zero draw keeps the keys, a 0 releases all when one is pressed and otherwise presses `DrawKey`'s key from one more draw; at most one just-pressed key; masks kept in five bits |
| Solutions.GenStep | src/solution.rs:42-86 | one call of `next` keeps the seed stream and makes between 1 and 10 draws |
| Solutions.PressedAlone | src/solution.rs:56-62 | a press after `update` leaves one just-pressed key |
| Solutions.RunKeepsKeysValid | src/solution.rs:42-86 | every generated state keeps the masks within the five key bits |
| Solutions.SolutionGenerator.constructor | src/solution.rs:33-40 | nothing pressed, LowFreq, countdown 0, a fresh seeded generator |
| Solutions.SolutionGenerator.Next | src/solution.rs:42-86 | the in-place step is exactly one step of the phase machine and returns the new keys |
| Solutions.Rotated | src/solution.rs:123-124 | element t of the rotation is slot `(first + t) mod n` |
| Solutions.RotatedAfterOverwrite | src/solution.rs:127-130 | overwriting the oldest slot and advancing drops the front and appends the new value |
| Solutions.OutputsAt | src/solution.rs:108-116 | output i of the history is the key state after `i + 1` calls of `next` |
| Solutions.Fill | src/solution.rs:113 | slot i takes output i of the generator, and the generator advances by the array length |
| Solutions.Solution.constructor | src/solution.rs:108-116 | `first_index` is 0 and the buffer holds the first 1024 outputs in order |
| Solutions.Solution.KeysAt | src/solution.rs:118-125 | fails iff `t >= 1024`; otherwise element t of the buffer, the output produced `1024 - t` calls ago |
| Solutions.Solution.Update | src/solution.rs:127-130 | the buffer moves one place on (`keys'(i) == keys(i + 1)`), `keys'(1023)` is the new output, `first_index` stays below 1024, and the history grows by one |
| Solutions.Solution.Overwrite | src/solution.rs:128-129 | the oldest slot takes the value, every other slot is unchanged, `first_index` advances modulo 1024, and the buffer's view drops its front and appends the value |
| Runner.Enemy.Skin | src/games/trex.rs:223-228 | the table image of the cactus model, or bird frame `velocity * frame / 16`; either way valid and with rows that fit |
| Runner.Enemy.Sprite | src/games/trex.rs:230-236 | the skin at the enemy's position, anchored Min/Max: its box starts at x and ends just past y |
| Runner.Enemy.Advanced | src/games/trex.rs:128 | x decreases by the velocity, nothing else changes, and the spawn shape is kept |
| Runner.Enemy.LookAhead | src/games/trex.rs:78 | x increases by `velocity * time`, nothing else changes |
| Runner.JumpFor | src/games/trex.rs:176-178 | a new jump is 6 high for 8 ticks when crouching, 25 for 22 otherwise |
| Runner.TRex.Pos | src/games/trex.rs:154-157 | `(4, jump height)`, 0 on the ground, at most 25 for a valid dinosaur |
| Runner.TRex.SteppedJump | src/games/trex.rs:166-172 | the active jump is stepped and dropped once finished |
| Runner.TRex.HandleJump | src/games/trex.rs:164-180 | an active jump runs on; a jump starts iff none is active after the step (even the tick one ends) and Space is pressing |
| Runner.TRex.Update | src/games/trex.rs:159-162 | crouching follows Down before the jump logic, so a started jump has the crouching shape; an active jump runs on whatever the keys; a jump starts only with Space when no jump is active |
| Runner.TRex.Sprite | src/games/trex.rs:188-207 | frame `frame / 2` of the posture's animation in the air and `frame / 4` on the ground (twice as fast while jumping), x alternating 0/1 on the ground, y the jump height |
| Runner.Replay | src/games/trex.rs:143-150 | replaying no key states leaves the dinosaur unchanged; replaying keeps a valid dinosaur valid |
| Runner.ReplayOneMore | src/games/trex.rs:145-148 | replaying `keys(1..=t)` is replaying `keys(1..t)` and one more `update` |
| Runner.ReplaySnoc | src/games/trex.rs:145-148 | replaying one more key state is one more `update` |
| Runner.ReplayKeepsValid | src/games/trex.rs:143-150 | replays keep the dinosaur valid and at most 25 high |
| Runner.Despawned | src/games/trex.rs:132-140 | at most the front enemy leaves, exactly when its x is below -32 |
| Runner.Moved | src/games/trex.rs:126-130 | same length and order, every enemy advanced |
| Runner.NewCactus | src/games/trex.rs:83-91 | a model-0 cactus at `(width, 0)`, speed 3 |
| Runner.NewBird | src/games/trex.rs:93-104 | a bird at x = width, y in [1, 20], speed in [4, 7], two draws |
| Runner.NewEnemy | src/games/trex.rs:106-114 | a bird iff `next_u32() & 3 == 0` and frame >= 100; a cactus otherwise |
| Runner.SpawnStep | src/games/trex.rs:116-124 | at cooldown 0, one well-formed enemy is pushed and the cooldown lands in [9, 48]; otherwise the cooldown only decreases; at most 4 draws |
| Runner.EnemyStep | src/games/trex.rs:62-64 | despawn, spawn and move change the queue length by at most one and make at most 4 draws |
| Runner.EnemyStepKeepsWellFormed | src/games/trex.rs:62-64 | despawn, spawn and move keep every enemy well formed and the cooldown at most 48 |
| Runner.AnyHitIffAnyOverlap | src/games/trex.rs:73-81 | the queue hits the dinosaur by the row test iff some enemy shares an opaque pixel with it |
| Runner.EnemyHits | src/games/trex.rs:77-80 | the closure of the `any`: the projected enemy collides with the dinosaur sprite |
| Runner.TRexGame.constructor | src/games/trex.rs:43-56 | two grounded dinosaurs, no enemies, cooldown 10, frame 0 |
| Runner.TRexGame.Update | src/games/trex.rs:58-71 | both dinosaurs updated, then despawn, spawn and move, then game over iff the collision check holds; one frame passes; validity is kept |
| Runner.TRexGame.UpdateDinosaurs | src/games/trex.rs:59-60 | the player takes this frame's keys, the ghost takes `keys(0)` |
| Runner.TRexGame.StepEnemies | src/games/trex.rs:62-64 | the three enemy passes, whose result is `EnemyStep` |
| Runner.TRexGame.Collide | src/games/trex.rs:73-81 | true iff some projected enemy collides, iff some shares an opaque pixel; false on an empty queue |
| Runner.TRexGame.SpawnCactus | src/games/trex.rs:83-91 | pushes `NewCactus(width)` |
| Runner.TRexGame.SpawnBird | src/games/trex.rs:93-104 | pushes the bird and advances the generator by its two draws |
| Runner.TRexGame.SpawnEnemy | src/games/trex.rs:106-114 | pushes `NewEnemy` of the current generator |
| Runner.TRexGame.SpawnEnemies | src/games/trex.rs:116-124 | the queue, cooldown and generator become `SpawnStep` of the old ones |
| Runner.TRexGame.UpdateEnemies | src/games/trex.rs:126-130 | the in-place pass is `Moved` |
| Runner.TRexGame.DespawnEnemies | src/games/trex.rs:132-140 | the queue becomes `Despawned` of the old one |
| Runner.TRexGame.TRexSolution | src/games/trex.rs:143-150 | fails iff `time >= 1024`; the ghost replayed with `keys(1..=time)`, valid; unchanged for time 0 |

## Left out

- `src/main.rs` is not part of this model. It holds the terminal set-up, event polling, frame
  timing and layout, which are I/O.
- `src/log.rs` is not part of this model. It is a global log behind a mutex. The "Game Over"
  event is the boolean returned by `TRexGame.Update`, and the generator's `log!` calls have no
  effect.
- `src/pixel_canvas.rs` is not part of this model. It forwards to `Sprite.Rect` and ratatui.
- `src/games/mod.rs` is not part of this model. The window width and the solution it carries
  are parameters of `TRexGame.Update`.
- `Keys::handle_key_event` and `Key::from_code` are left out: they decode crossterm events, a
  foreign type.
- `SolutionGenerator::random_key` and the `TREX` image are left out: the source never uses them.
- `TRexGame::draw` is left out. It is foreign painting. What a sprite paints is `Sprite.Rect`
  with `SpriteRect.Draw`.
- Colours and the ratatui `Painter` are left out. A colour is an opaque tag, and painting is the
  set of points returned by `Draw`.
- Random.Rng.GenRange: the formula `lo + stream(drawn) % (hi - lo)` stands in for SmallRng's
  own sampling. Only the range and the one-draw consumption are relied on. The fixed seeds of
  the source are constructor parameters.
- Runner.TRexGame.Update: enemy x positions (`i32`), `frame_count` (`usize`) and the
  `enemy_cooldown` `u16` are unbounded integers. Their overflow, after more than 2^31 pixels or
  2^64 frames, is not modelled. The same holds for the `usize` products of `Parabola::calc_value`
  (`4 * max * duration * time`, src/games/utils.rs:42) and the `i32` arithmetic of `Sprite::rect`
  and `Clip::new` (`position.y * 2`, src/image.rs:105-110). No caller reaches those bounds
  with the constants of the game.
- Input.Keys.Press: `press`, `release` and `update` mutate a `Copy` struct in place. Here they
  are functions returning the new value, which is the same for a value that cannot be aliased.
  The same holds for `Parabola::step` and `TRex::update`/`handle_jump`.
- Runner.Enemy.LookAhead: `collide` projects enemies with `+velocity * time`, although they move
  left. This is modelled as written, and no property about look-ahead accuracy is claimed.
- Queue order versus x order is not claimed. Neither is removing an enemy after a fixed number
  of ticks: faster birds can overtake cacti, while despawn only inspects the front.
- The per-tick call order of `src/main.rs` is not modelled as one composed step. That order is
  `trex.update`, then `keys.update()`, then `solution.update()`.

## Findings

| source | as written | input that shows it | evidently intended | confidence | as-written member | corrected member |
|---|---|---|---|---|---|---|
| src/image.rs:202-204 | the test places `b` (Min/Max origin) at (3, -1) and asserts that `a.collide(&b)` holds | `b`'s bounding box is rows [-2, 0), which never meets row 0 of `a`, so `collide` returns false; the `bounding_box` test at lines 212-241 pins this box semantics | the anchor one row higher, at (3, 0), where the single-pixel row of `b` lies on the bar's last column and the sprites collide | not executed | SpriteCases.CollisionAsWrittenMissesMaxY | SpriteCases.CollisionWithMaxYPlacedOnBar |
