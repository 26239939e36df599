/** The endless-runner simulation of `src/games/trex.rs`: the player dinosaur and its replayed
    ghost, obstacles that spawn on a random countdown, move left and despawn at the front of the
    queue, and the per-tick collision check that signals game over. */
module Runner {

  import opened Wrappers
  import opened Bits
  import opened Geometry
  import opened Motion
  import opened Input
  import opened Random
  import opened Sprites
  import opened Skins
  import opened Solutions

  /** `EnemyModel`: a cactus names one of the `CACTUSES` images (`model: u8`). */
  datatype EnemyModel = Cactus(model: nat) | Bird

  /** `Enemy`: position, speed (`velocity: u8`, pixels per tick to the left) and look. */
  datatype Enemy = Enemy(position: Geometry.Pos<int>, velocity: nat, model: EnemyModel) {

    /** The cactus index is inside `CACTUSES`, so that `skin` does not go out of bounds. */
    predicate HasSkin() {
      model.Cactus? ==> model.model < |Cactuses|
    }

    /** What the spawners produce: a cactus of model 0 on the ground at speed 3, or a bird at a
        height in [1, 20] with a speed in [4, 7]. */
    predicate WellFormed() {
      match model
      case Cactus(m) => m == 0 && velocity == 3 && position.y == 0
      case Bird => 1 <= position.y <= 20 && 4 <= velocity <= 7
    }

    /** `Enemy::skin`: the cactus image, or the bird animation at frame `velocity * frame / 16`,
        so faster birds flap faster. */
    function Skin(frameCount: nat): (img: Image)
      requires HasSkin()
      ensures img.Valid() && img.RowsFit()
      ensures model.Cactus? ==> img == Cactuses[model.model]
      ensures model.Bird? ==> img == Bird.Image(velocity * frameCount / 16)
    {
      SkinsFit();
      match model
      case Cactus(m) => Cactuses[m]
      case Bird => Bird.Image(velocity * frameCount / 16)
    }

    /** `Enemy::sprite`: the skin anchored at the enemy's position, with the box starting at its
        x and ending at its y. */
    function Sprite(frameCount: nat): (s: Sprites.Sprite)
      requires HasSkin()
      ensures s.image == Skin(frameCount) && s.image.Valid() && s.image.RowsFit()
      ensures s.position == position && s.origin == Geometry.Pos(Min, Max)
      ensures s.BoundingBox().x.start == position.x && s.BoundingBox().y.end == position.y + 1
    {
      Sprites.Sprite(Skin(frameCount), position, Geometry.Pos(Min, Max))
    }

    /** One tick of `update_enemies`: x decreases by the velocity, nothing else changes. */
    function Advanced(): (e: Enemy)
      ensures e.position.x == position.x - velocity && e.position.y == position.y
      ensures e.velocity == velocity && e.model == model
      ensures WellFormed() ==> e.WellFormed()
    {
      this.(position := Geometry.Pos(position.x - velocity, position.y))
    }

    /** The enemy as `collide` projects it `time` ticks ahead: x moves by `+velocity * time`. */
    function LookAhead(time: nat): (e: Enemy)
      ensures e.position.x == position.x + velocity * time && e.position.y == position.y
      ensures e.velocity == velocity && e.model == model
      ensures HasSkin() ==> e.HasSkin()
    {
      this.(position := Geometry.Pos(position.x + velocity * time, position.y))
    }
  }

  /** A jump has the crouching shape (6 high, 8 ticks) or the standing shape (25 high, 22 ticks). */
  predicate JumpShape(p: Parabola) {
    (p.max == 6 && p.duration == 8) || (p.max == 25 && p.duration == 22)
  }

  /** The parabola of a jump started in the given posture. */
  function JumpFor(crouching: bool): (p: Parabola)
    ensures p.Valid() && !p.Finished() && JumpShape(p) && p.time == 0
    ensures crouching ==> p.max == 6 && p.duration == 8
    ensures !crouching ==> p.max == 25 && p.duration == 22
  {
    var height := if crouching then 6 else 25;
    var duration := if crouching then 8 else 22;
    Parabola.New(height, duration)
  }

  /** `TRex`. */
  datatype TRex = TRex(jump: Option<Parabola>, crouching: bool) {

    /** An active jump is a valid, unfinished parabola of one of the two shapes. */
    predicate Valid() {
      jump.Some? ==> jump.value.Valid() && !jump.value.Finished() && JumpShape(jump.value)
    }

    /** `TRex::pos`: the constant `TREX_Y` and the jump height, 0 on the ground. A valid
        dinosaur is never higher than 25. */
    function Pos(): (p: (int, int))
      ensures p.0 == 4
      ensures jump.None? ==> p.1 == 0
      ensures jump.Some? ==> p.1 == jump.value.Value()
      ensures Valid() ==> 0 <= p.1 <= 25
    {
      (4, match jump case None => 0 case Some(p) => p.Value())
    }

    /** The jump after the "update jump" half of `handle_jump`: an active parabola is stepped
        and dropped once finished. */
    function SteppedJump(): (j: Option<Parabola>)
      ensures jump.None? ==> j.None?
      ensures jump.Some? ==> (j.None? <==> jump.value.Step().Finished())
      ensures j.Some? ==> j.value == jump.value.Step() && !j.value.Finished()
      ensures Valid() ==> j.Some? ==> j.value.Valid() && JumpShape(j.value)
    {
      match jump
      case None => None
      case Some(p) => var q := p.Step(); if q.Finished() then None else Some(q)
    }

    /** `TRex::handle_jump`: the active jump runs on, whatever the keys; a new jump, shaped by the
        current posture, starts exactly when there is no active jump after stepping (including
        the tick a jump ends) and Space is pressing. */
    function HandleJump(keys: Keys): (r: TRex)
      ensures r.crouching == crouching
      ensures SteppedJump().Some? ==> r.jump == SteppedJump()
      ensures SteppedJump().None? ==> (r.jump.Some? <==> keys.Pressing(Space))
      ensures SteppedJump().None? && keys.Pressing(Space) ==> r.jump == Some(JumpFor(crouching))
      ensures Valid() ==> r.Valid()
    {
      var jump := SteppedJump();
      if jump.None? && keys.Pressing(Space) then TRex(Some(JumpFor(crouching)), crouching)
      else TRex(jump, crouching)
    }

    /** `TRex::update`: the posture follows Down before the jump logic runs, so a jump started
        while Down is pressing has the crouching shape. */
    function Update(keys: Keys): (r: TRex)
      ensures r.crouching == keys.Pressing(Down)
      ensures SteppedJump().Some? ==> r.jump == SteppedJump()
      ensures r.jump != SteppedJump() ==> r.jump == Some(JumpFor(keys.Pressing(Down))) && keys.Pressing(Space)
      ensures SteppedJump().None? && keys.Pressing(Space) ==> r.jump == Some(JumpFor(keys.Pressing(Down)))
      ensures Valid() ==> r.Valid()
    {
      this.(crouching := keys.Pressing(Down)).HandleJump(keys)
    }

    /** `TRex::sprite`: the running or crouching animation, twice as fast while jumping; on the
        ground the sprite alternates between x = 0 and x = 1; it stands at the jump height. */
    function Sprite(frameCount: nat): (s: Sprites.Sprite)
      ensures s.image.Valid() && s.image.RowsFit()
      ensures s.image == (if crouching then TRexCrouching else TRexRunning).Image(frameCount / (if jump.Some? then 2 else 4))
      ensures s.position.y == Pos().1
      ensures jump.Some? ==> s.position.x == 0
      ensures jump.None? ==> s.position.x == (frameCount / 4) % 2
      ensures s.origin == Geometry.Pos(Min, Max)
    {
      SkinsFit();
      var divisor := if jump.Some? then 2 else 4;
      var skin := if crouching then TRexCrouching else TRexRunning;
      var x := if jump.Some? then 0 else And(frameCount / divisor, 1);
      AndOne(frameCount / divisor);
      Sprites.Sprite(skin.Image(frameCount / divisor), Geometry.Pos(x, Pos().1), Geometry.Pos(Min, Max))
    }
  }

  /** The dinosaur after `update` with each key state of ks in turn. */
  function Replay(trex: TRex, ks: seq<Keys>): (r: TRex)
    ensures ks == [] ==> r == trex
    ensures trex.Valid() ==> r.Valid()
  {
    if |ks| == 0 then trex else Replay(trex, ks[..|ks| - 1]).Update(ks[|ks| - 1])
  }

  /** Extending a slice by one index appends that element. */
  lemma SliceSnoc<T>(s: seq<T>, i: nat, j: nat)
    requires i <= j < |s|
    ensures s[i..j + 1] == s[i..j] + [s[j]]
  {
  }

  /** Replaying one more key state is one more `update`. */
  lemma ReplaySnoc(trex: TRex, ks: seq<Keys>, k: Keys)
    ensures Replay(trex, ks + [k]) == Replay(trex, ks).Update(k)
  {
    assert (ks + [k])[..|ks|] == ks;
  }

  /** Replaying the slice `ks[1..t + 1]` is replaying `ks[1..t]` and then one more `update`. */
  lemma ReplayOneMore(trex: TRex, ks: seq<Keys>, t: nat)
    requires 1 <= t < |ks|
    ensures Replay(trex, ks[1..t + 1]) == Replay(trex, ks[1..t]).Update(ks[t])
  {
    SliceSnoc(ks, 1, t);
    ReplaySnoc(trex, ks[1..t], ks[t]);
  }

  /** Replaying keeps a dinosaur valid, so a replayed jump is never higher than 25. */
  lemma {:induction false} ReplayKeepsValid(trex: TRex, ks: seq<Keys>)
    requires trex.Valid()
    ensures Replay(trex, ks).Valid() && 0 <= Replay(trex, ks).Pos().1 <= 25
  {
    if |ks| > 0 {
      ReplayKeepsValid(trex, ks[..|ks| - 1]);
    }
  }

  /** `despawn_enemies`: only the front enemy can leave, and only when its x is below -32. */
  function Despawned(es: seq<Enemy>): (r: seq<Enemy>)
    ensures r == es || (|es| > 0 && es[0].position.x < -32 && r == es[1..])
    ensures |es| > 0 && es[0].position.x < -32 ==> |r| == |es| - 1
    ensures (|es| == 0 || es[0].position.x >= -32) ==> r == es
  {
    if |es| > 0 && es[0].position.x < -32 then es[1..] else es
  }

  /** `update_enemies`: every enemy advances by its own velocity; length and order are kept. */
  function Moved(es: seq<Enemy>): (r: seq<Enemy>)
    ensures |r| == |es|
    ensures forall i | 0 <= i < |es| :: r[i] == es[i].Advanced()
  {
    seq(|es|, i requires 0 <= i < |es| => es[i].Advanced())
  }

  /** `spawn_cactus`: a model-0 cactus on the ground at the right edge, at speed 3. */
  function NewCactus(width: u16): (e: Enemy)
    ensures e.WellFormed() && e.model.Cactus? && e.position == Geometry.Pos(width as int, 0)
  {
    Enemy(Geometry.Pos(width as int, 0), 3, Cactus(0))
  }

  /** `spawn_bird`: a bird at the right edge, with a height drawn from [1, 20] and then a speed
      drawn from [4, 7]. */
  function NewBird(width: u16, rng: Rng): (r: (Enemy, Rng))
    ensures r.0.WellFormed() && r.0.model.Bird? && r.0.position.x == width as int
    ensures r.0.position.y == rng.GenRange(1, 21).0
    ensures r.1 == rng.Skip(2)
  {
    var (y, r1) := rng.GenRange(1, 21);
    var (velocity, r2) := r1.GenRange(4, 8);
    (Enemy(Geometry.Pos(width as int, y), velocity, Bird), r2)
  }

  /** `spawn_enemy`: a bird exactly when the low two bits of a fresh `u32` draw are 0 and at
      least 100 frames have passed; a cactus otherwise (the draw is made either way). */
  function NewEnemy(width: u16, rng: Rng, frameCount: nat): (r: (Enemy, Rng))
    ensures r.0.WellFormed() && r.0.position.x == width as int
    ensures r.0.model.Bird? <==> rng.NextU32().0 % 4 == 0 && frameCount >= 100
    ensures r.0.model.Cactus? ==> r.1 == rng.Skip(1)
    ensures r.0.model.Bird? ==> r.1 == rng.Skip(3)
  {
    var (n, r1) := rng.NextU32();
    AndLowMask(n, 2);
    assert Pow2(2) == 4;
    if And(n, 3) != 0 || frameCount < 100 then (NewCactus(width), r1)
    else NewBird(width, r1)
  }

  /** `spawn_enemies`: at cooldown 0 the cooldown is redrawn from [10, 50) and one enemy is pushed
      at the back; the cooldown then always decreases by one, so it cannot underflow and stays
      at most 48 after a spawn. */
  function SpawnStep(es: seq<Enemy>, cooldown: nat, rng: Rng, frameCount: nat, width: u16): (r: (seq<Enemy>, nat, Rng))
    ensures cooldown > 0 ==> r == (es, cooldown - 1, rng)
    ensures cooldown == 0 ==> 9 <= r.1 <= 48
    ensures cooldown == 0 ==> |r.0| == |es| + 1 && r.0[..|es|] == es
    ensures cooldown == 0 ==> r.0[|es|].WellFormed() && r.0[|es|].position.x == width as int
    ensures cooldown == 0 && frameCount < 100 ==> r.0[|es|].model.Cactus?
    ensures r.2.stream == rng.stream && rng.drawn <= r.2.drawn <= rng.drawn + 4
  {
    if cooldown == 0 then
      var (next, r1) := rng.GenRange(10, 50);
      var (e, r2) := NewEnemy(width, r1, frameCount);
      (es + [e], next - 1, r2)
    else (es, cooldown - 1, rng)
  }

  /** Every enemy of the queue has a well-formed spawn shape. */
  predicate AllWellFormed(es: seq<Enemy>) {
    forall i | 0 <= i < |es| :: es[i].WellFormed()
  }

  /** The enemy half of `update`: despawn, spawn, then move every enemy. */
  function EnemyStep(es: seq<Enemy>, cooldown: nat, rng: Rng, frameCount: nat, width: u16): (r: (seq<Enemy>, nat, Rng))
    ensures |es| - 1 <= |r.0| <= |es| + 1
    ensures r.2.stream == rng.stream && rng.drawn <= r.2.drawn <= rng.drawn + 4
  {
    var s := SpawnStep(Despawned(es), cooldown, rng, frameCount, width);
    (Moved(s.0), s.1, s.2)
  }

  /** Despawning, spawning and moving keep every enemy well formed and the cooldown at most 48. */
  lemma EnemyStepKeepsWellFormed(es: seq<Enemy>, cooldown: nat, rng: Rng, frameCount: nat, width: u16)
    requires AllWellFormed(es) && cooldown <= 49
    ensures var r := EnemyStep(es, cooldown, rng, frameCount, width);
      AllWellFormed(r.0) && r.1 <= 48
  {
    var d := Despawned(es);
    assert AllWellFormed(d);
    var s := SpawnStep(d, cooldown, rng, frameCount, width).0;
    assert AllWellFormed(s) by {
      if cooldown == 0 {
        forall i | 0 <= i < |s| ensures s[i].WellFormed() {
          if i < |d| {
            assert s[i] == s[..|d|][i];
          }
        }
      }
    }
  }

  /** Enemy e, looked ahead `time` ticks, collides with the dinosaur's sprite of frame
      `frameCount + time`. */
  ghost predicate Hits(e: Enemy, trex: TRex, frameCount: nat, time: nat)
    requires e.HasSkin()
  {
    e.LookAhead(time).Sprite(frameCount + time).Collides(trex.Sprite(frameCount + time))
  }

  /** Some enemy of the queue hits the dinosaur. */
  ghost predicate AnyHit(es: seq<Enemy>, trex: TRex, frameCount: nat, time: nat)
    requires AllWellFormed(es)
  {
    exists i | 0 <= i < |es| :: Hits(es[i], trex, frameCount, time)
  }

  /** Some enemy of the queue has an opaque pixel on an opaque pixel of the dinosaur. */
  ghost predicate AnyOverlap(es: seq<Enemy>, trex: TRex, frameCount: nat, time: nat)
    requires AllWellFormed(es)
  {
    exists i | 0 <= i < |es| ::
      es[i].LookAhead(time).Sprite(frameCount + time).Overlaps(trex.Sprite(frameCount + time))
  }

  /** Every skin fits its width, so a hit by the row test is a common opaque pixel and back. */
  lemma AnyHitIffAnyOverlap(es: seq<Enemy>, trex: TRex, frameCount: nat, time: nat)
    requires AllWellFormed(es)
    ensures AnyHit(es, trex, frameCount, time) <==> AnyOverlap(es, trex, frameCount, time)
  {
    forall i | 0 <= i < |es|
      ensures Hits(es[i], trex, frameCount, time)
          <==> es[i].LookAhead(time).Sprite(frameCount + time).Overlaps(trex.Sprite(frameCount + time))
    {
      CollidesIffOverlaps(es[i].LookAhead(time).Sprite(frameCount + time), trex.Sprite(frameCount + time));
    }
  }

  /** A miss at index i extends the run of misses before it. */
  lemma MissExtends(es: seq<Enemy>, trex: TRex, frameCount: nat, time: nat, i: nat)
    requires AllWellFormed(es) && i < |es|
    requires forall j | 0 <= j < i :: !Hits(es[j], trex, frameCount, time)
    requires !Hits(es[i], trex, frameCount, time)
    ensures forall j | 0 <= j < i + 1 :: !Hits(es[j], trex, frameCount, time)
  {
  }

  /** A hit at any index is a hit of the queue. */
  lemma HitWitness(es: seq<Enemy>, trex: TRex, frameCount: nat, time: nat, i: nat)
    requires AllWellFormed(es) && i < |es|
    requires Hits(es[i], trex, frameCount, time)
    ensures AnyHit(es, trex, frameCount, time)
  {
  }

  /** Misses at every index are no hit of the queue. */
  lemma AllMiss(es: seq<Enemy>, trex: TRex, frameCount: nat, time: nat)
    requires AllWellFormed(es)
    requires forall j | 0 <= j < |es| :: !Hits(es[j], trex, frameCount, time)
    ensures !AnyHit(es, trex, frameCount, time)
  {
  }

  /** The body of the `any` in `collide`: the enemy moved `time` ticks ahead, against the
      dinosaur's sprite of the same frame. */
  method EnemyHits(e: Enemy, trex: TRex, frameCount: nat, time: nat) returns (hit: bool)
    requires e.HasSkin()
    ensures hit <==> Hits(e, trex, frameCount, time)
  {
    var sprite := trex.Sprite(frameCount + time);
    var enemy := e.LookAhead(time).Sprite(frameCount + time);
    hit := enemy.Collide(sprite);
  }

  /** `TRexGame`. */
  class TRexGame {
    var trex: TRex
    var trexSolution: TRex
    var enemies: seq<Enemy>
    var enemyCooldown: nat
    var rng: Rng
    var frameCount: nat

    /** Both dinosaurs are valid, the cooldown stays in [0, 49] and every enemy has a spawn
        shape. */
    ghost predicate Valid()
      reads this
    {
      trex.Valid() && trexSolution.Valid() && enemyCooldown <= 49 && AllWellFormed(enemies)
    }

    /** `TRexGame::new`: two grounded dinosaurs, no enemies, cooldown 10, frame 0. */
    constructor (seed: nat -> nat)
      ensures Valid()
      ensures trex == TRex(None, false) && trexSolution == trex
      ensures enemies == [] && enemyCooldown == 10 && frameCount == 0 && rng == Rng.FromSeed(seed)
    {
      trex := TRex(None, false);
      trexSolution := TRex(None, false);
      frameCount := 0;
      enemies := [];
      enemyCooldown := 10;
      rng := Rng.FromSeed(seed);
    }

    /** `TRexGame::update`: player and ghost physics, despawn, spawn, movement, then the collision
        check of this frame, whose result is the game-over signal; one frame passes. */
    method Update(keys: Keys, solution: Solution, width: u16) returns (gameOver: bool)
      requires Valid() && solution.Shaped()
      modifies this
      ensures Valid()
      ensures trex == old(trex).Update(keys)
      ensures trexSolution == old(trexSolution).Update(solution.View()[0])
      ensures (enemies, enemyCooldown, rng)
              == EnemyStep(old(enemies), old(enemyCooldown), old(rng), old(frameCount), width)
      ensures frameCount == old(frameCount) + 1
      ensures gameOver <==> AnyHit(enemies, trex, old(frameCount), 0)
    {
      UpdateDinosaurs(keys, solution);
      StepEnemies(width);
      gameOver := Collide(trex, 0);
      frameCount := frameCount + 1;
    }

    /** Lines 59-60 of `update`: the player's dinosaur takes the keys of this frame, the ghost
        the first keys of the solution. */
    method UpdateDinosaurs(keys: Keys, solution: Solution)
      requires trex.Valid() && trexSolution.Valid() && solution.Shaped()
      modifies this`trex, this`trexSolution
      ensures trex.Valid() && trexSolution.Valid()
      ensures trex == old(trex).Update(keys)
      ensures trexSolution == old(trexSolution).Update(solution.View()[0])
    {
      trex := trex.Update(keys);
      var ghostKeys := solution.KeysAt(0);
      trexSolution := trexSolution.Update(ghostKeys.value);
    }

    /** Lines 62-64 of `update`: `despawn_enemies`, `spawn_enemies`, `update_enemies`. */
    method StepEnemies(width: u16)
      requires AllWellFormed(enemies) && enemyCooldown <= 49
      modifies this`enemies, this`enemyCooldown, this`rng
      ensures (enemies, enemyCooldown, rng) == EnemyStep(old(enemies), old(enemyCooldown), old(rng), frameCount, width)
      ensures AllWellFormed(enemies) && enemyCooldown <= 49
    {
      EnemyStepKeepsWellFormed(enemies, enemyCooldown, rng, frameCount, width);
      DespawnEnemies();
      SpawnEnemies(width);
      UpdateEnemies();
    }

    /** `TRexGame::collide`: some enemy, looked ahead `time` ticks, collides with the dinosaur's
        sprite of frame `frame_count + time`; since all skins fit their widths, this is pixel
        overlap. False on an empty queue. */
    method Collide(trex: TRex, time: nat) returns (hit: bool)
      requires AllWellFormed(enemies)
      ensures hit <==> AnyHit(enemies, trex, frameCount, time)
      ensures hit <==> AnyOverlap(enemies, trex, frameCount, time)
      ensures enemies == [] ==> !hit
    {
      var es, fc := enemies, frameCount;
      AnyHitIffAnyOverlap(es, trex, fc, time);
      var i := 0;
      while i < |es|
        invariant 0 <= i <= |es|
        invariant forall j | 0 <= j < i :: !Hits(es[j], trex, fc, time)
      {
        hit := EnemyHits(es[i], trex, fc, time);
        if hit {
          HitWitness(es, trex, fc, time, i);
          return;
        }
        MissExtends(es, trex, fc, time, i);
        i := i + 1;
      }
      AllMiss(es, trex, fc, time);
      hit := false;
    }

    /** `TRexGame::spawn_cactus`. */
    method SpawnCactus(width: u16)
      modifies this`enemies
      ensures enemies == old(enemies) + [NewCactus(width)]
    {
      enemies := enemies + [Enemy(Geometry.Pos(width as int, 0), 3, Cactus(0))];
    }

    /** `TRexGame::spawn_bird`. */
    method SpawnBird(width: u16)
      modifies this`enemies, this`rng
      ensures enemies == old(enemies) + [NewBird(width, old(rng)).0] && rng == NewBird(width, old(rng)).1
    {
      var x := width as int;
      var y, r1 := rng.GenRange(1, 21).0, rng.GenRange(1, 21).1;
      rng := r1;
      var velocity, r2 := rng.GenRange(4, 8).0, rng.GenRange(4, 8).1;
      rng := r2;
      enemies := enemies + [Enemy(Geometry.Pos(x, y), velocity, Bird)];
    }

    /** `TRexGame::spawn_enemy`. */
    method SpawnEnemy(width: u16)
      modifies this`enemies, this`rng
      ensures enemies == old(enemies) + [NewEnemy(width, old(rng), frameCount).0]
      ensures rng == NewEnemy(width, old(rng), frameCount).1
    {
      var n, r1 := rng.NextU32().0, rng.NextU32().1;
      rng := r1;
      var spawnCactus := And(n, 3) != 0 || frameCount < 100;
      if spawnCactus {
        SpawnCactus(width);
      } else {
        SpawnBird(width);
      }
    }

    /** `TRexGame::spawn_enemies`. */
    method SpawnEnemies(width: u16)
      modifies this`enemies, this`enemyCooldown, this`rng
      ensures (enemies, enemyCooldown, rng) == SpawnStep(old(enemies), old(enemyCooldown), old(rng), frameCount, width)
    {
      if enemyCooldown == 0 {
        var next, r1 := rng.GenRange(10, 50).0, rng.GenRange(10, 50).1;
        enemyCooldown, rng := next, r1;
        SpawnEnemy(width);
      }
      enemyCooldown := enemyCooldown - 1;
    }

    /** `TRexGame::update_enemies`: the in-place pass over the queue. */
    method UpdateEnemies()
      modifies this`enemies
      ensures enemies == Moved(old(enemies))
    {
      var i := 0;
      while i < |enemies|
        invariant 0 <= i <= |enemies| == |old(enemies)|
        invariant forall j | 0 <= j < i :: enemies[j] == old(enemies)[j].Advanced()
        invariant forall j | i <= j < |enemies| :: enemies[j] == old(enemies)[j]
      {
        var enemy := enemies[i];
        enemies := enemies[i := enemy.(position := Geometry.Pos(enemy.position.x - enemy.velocity, enemy.position.y))];
        i := i + 1;
      }
    }

    /** `TRexGame::despawn_enemies`. */
    method DespawnEnemies()
      modifies this`enemies
      ensures enemies == Despawned(old(enemies))
    {
      if |enemies| > 0 {
        if enemies[0].position.x < -32 {
          enemies := enemies[1..];
        }
      }
    }

    /** `TRexGame::trex_solution`: the ghost replayed with `keys(1)`, ..., `keys(time)`; it fails
        (None) exactly when `time >= 1024`, where `keys` fails. */
    method TRexSolution(solution: Solution, time: nat) returns (r: Option<TRex>)
      requires solution.Shaped() && trexSolution.Valid()
      ensures r.None? <==> time >= SolutionSize
      ensures r.Some? ==> r.value == Replay(trexSolution, solution.View()[1..time + 1])
      ensures r.Some? ==> r.value.Valid()
      ensures time == 0 ==> r == Some(trexSolution)
    {
      ghost var view := solution.View();
      var first := trexSolution;
      var trex := first;
      var t := 1;
      while t <= time
        invariant 1 <= t <= time + 1 && t <= SolutionSize
        invariant trex == Replay(first, view[1..t])
      {
        var keys := solution.KeysAt(t);
        if keys.None? {
          return None;
        }
        ReplayOneMore(first, view, t);
        trex := trex.Update(keys.value);
        t := t + 1;
      }
      ReplayKeepsValid(first, view[1..time + 1]);
      return Some(trex);
    }
  }
}
