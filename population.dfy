/** The bug population: the spawn factory (`spawnBug` in sketch.js), the
    selection of survivors that the reap pass keeps, and the search for the
    bug a click lands on. The list itself lives in `Game.Sketch`. */
module Population {
  import opened Options
  import opened Clock
  import opened Sprite
  import opened Bug

  /** Bugs spawned by `setup()`. */
  const InitialPopulation: nat := 5
  /** Spawn positions are drawn from `[SpawnMargin, 400 - SpawnMargin]`. */
  const SpawnMargin: real := 80.0
  /** Frames of the "move" strip and the "squish" strip of the sheet. */
  const MoveFrames: int := 4
  const SquishFrames: int := 1

  /** The random draws one spawn consumes: `random(80, width - 80)`,
      `random(80, height - 80)`, `random([-1, 1])` and `random(1, 3)`. */
  datatype SpawnDraw = SpawnDraw(x: real, y: real, sign: int, speed: real)

  /** The ranges p5's `random` draws from. */
  predicate ValidDraw(d: SpawnDraw)
  {
    SpawnMargin <= d.x <= Width - SpawnMargin &&
    SpawnMargin <= d.y <= Height - SpawnMargin &&
    (d.sign == -1 || d.sign == 1) &&
    1.0 <= d.speed <= 3.0
  }

  /** The state of a freshly spawned bug. */
  function Spawned(d: SpawnDraw, speedMultiplier: real): BugState
  {
    BugState(d.x, d.y, d.sign as real * d.speed * speedMultiplier, 0.0, Some(Move), 0.0, false)
  }

  /** The animations a spawn registers: the four-frame "move" strip at the
      left of the sheet and the single "squish" frame after it. */
  function SpawnedAnimations(): map<AnimName, AnimState>
  {
    map[Move := Initial(0, 0, MoveFrames), Squish := Initial(MoveFrames * FrameWidth, 0, SquishFrames)]
  }

  /** The strips a bug made by `spawnBug()` keeps for its whole life: a
      four-frame "move" strip at the left of the sheet and the single
      "squish" frame after it, both in the top row. */
  predicate HasSpawnStrips(b: Character)
    reads b
  {
    Move in b.animations && Squish in b.animations &&
    b.animations[Move].startU == 0 && b.animations[Move].v == 0 &&
    b.animations[Move].frameCount == MoveFrames &&
    b.animations[Squish].startU == MoveFrames * FrameWidth && b.animations[Squish].v == 0 &&
    b.animations[Squish].frameCount == SquishFrames
  }

  /** The animations of a bug as `spawnBug()` leaves them: exactly the two
      strips, each at its first frame. */
  ghost predicate HasSpawnAnimations(b: Character)
    reads b, b.animations.Values
  {
    b.animations.Keys == SpawnedAnimations().Keys &&
    forall k :: k in b.animations ==> b.animations[k].Model() == SpawnedAnimations()[k]
  }

  /** Both strips of a bug at their first frame, as `spawnBug()` leaves them. */
  ghost predicate AtFirstFrames(b: Character)
    reads b, b.animations.Values
  {
    Move in b.animations && Squish in b.animations &&
    b.animations[Move].currentFrame == 0 && b.animations[Move].elapsedTime == 0 &&
    b.animations[Squish].currentFrame == 0 && b.animations[Squish].elapsedTime == 0
  }

  /** The animations `spawnBug()` leaves are exactly its fixed strips, each at
      its first frame. */
  lemma SpawnAnimationsSplit(b: Character)
    ensures HasSpawnAnimations(b) <==> HasSpawnStrips(b) && AtFirstFrames(b)
  {
    if HasSpawnStrips(b) && AtFirstFrames(b) {
      assert b.animations.Keys == {Move, Squish} by {
        forall k | k in b.animations ensures k in {Move, Squish} {
          assert k == Move || k == Squish;
        }
      }
    }
    if HasSpawnAnimations(b) {
      assert Move in b.animations && Squish in b.animations;
    }
  }

  /** A spawn is a live walking bug inside the inner square, moving only
      horizontally at the drawn speed (one to three) times the current multiplier, and
      so on the canvas in the sense of `Bug.OnCanvas`. Its squish animation is
      a single frame and hence static. */
  lemma SpawnIsLive(d: SpawnDraw, speedMultiplier: real)
    requires ValidDraw(d) && speedMultiplier >= 0.0
    ensures var b := Spawned(d, speedMultiplier);
      b.current == Some(Move) && !b.removed && b.vy == 0.0 &&
      SpawnMargin <= b.x <= Width - SpawnMargin && SpawnMargin <= b.y <= Height - SpawnMargin &&
      Abs(b.vx) == d.speed * speedMultiplier &&
      OnCanvas(b) &&
      forall n: nat :: AdvanceN(SpawnedAnimations()[Squish], n) == SpawnedAnimations()[Squish]
  {
    var b := Spawned(d, speedMultiplier);
    var m := d.speed * speedMultiplier;
    ProductNonNegative(d.speed, speedMultiplier);
    assert b.vx == d.sign as real * m;
    if d.sign == 1 {
      assert b.vx == m;
    } else {
      assert d.sign as real == -1.0;
      assert b.vx == -m;
    }
    forall n: nat ensures AdvanceN(SpawnedAnimations()[Squish], n) == SpawnedAnimations()[Squish] {
      SingleFrameIsStatic(SpawnedAnimations()[Squish], n);
    }
  }

  /** `spawnBug()` with its random draws passed in. */
  method SpawnBug(d: SpawnDraw, speedMultiplier: real) returns (b: Character)
    ensures fresh(b.Repr()) && b.Valid()
    ensures b.Model() == Spawned(d, speedMultiplier)
    ensures HasSpawnAnimations(b) && HasSpawnStrips(b) && AtFirstFrames(b)
  {
    b := new Character(d.x, d.y);
    var move := new SpriteAnimation(0, 0, MoveFrames);
    b.AddAnimation(Move, move);
    var squish := new SpriteAnimation(MoveFrames * FrameWidth, 0, SquishFrames);
    b.AddAnimation(Squish, squish);
    b.currentAnimation := Some(Move);
    b.vx := d.sign as real * d.speed * speedMultiplier;
    b.vy := 0.0;
  }

  /** The selection the reap pass performs, on values: the elements of `xs`
      from position `i` on whose flag is unset, in their order. */
  function KeepFrom<T>(xs: seq<T>, dead: seq<bool>, i: nat): (r: seq<T>)
    requires |xs| == |dead| && i <= |xs|
    ensures |r| <= |xs| - i
    decreases |xs| - i
  {
    if i == |xs| then [] else (if dead[i] then [] else [xs[i]]) + KeepFrom(xs, dead, i + 1)
  }

  /** Every kept element comes from an unflagged position, and every
      unflagged element is kept. */
  lemma {:induction false} KeepExactly<T>(xs: seq<T>, dead: seq<bool>, i: nat)
    requires |xs| == |dead| && i <= |xs|
    ensures forall k :: 0 <= k < |KeepFrom(xs, dead, i)| ==>
      exists j :: i <= j < |xs| && xs[j] == KeepFrom(xs, dead, i)[k] && !dead[j]
    ensures forall j :: i <= j < |xs| && !dead[j] ==> xs[j] in KeepFrom(xs, dead, i)
    decreases |xs| - i
  {
    if i < |xs| {
      KeepExactly(xs, dead, i + 1);
      var head := if dead[i] then [] else [xs[i]];
      var tail := KeepFrom(xs, dead, i + 1);
      var r := KeepFrom(xs, dead, i);
      assert r == head + tail;
      forall k | 0 <= k < |r|
        ensures exists j :: i <= j < |xs| && xs[j] == r[k] && !dead[j]
      {
        if k < |head| {
          assert xs[i] == r[k] && !dead[i];
        } else {
          assert r[k] == tail[k - |head|];
          var j :| i + 1 <= j < |xs| && xs[j] == tail[k - |head|] && !dead[j];
          assert xs[j] == r[k];
        }
      }
      forall j | i <= j < |xs| && !dead[j] ensures xs[j] in r {
        if j > i {
          assert xs[j] in tail;
        }
      }
    } else {
      assert KeepFrom(xs, dead, i) == [];
    }
  }

  /** Selecting from `b` behind a prefix `a` is selecting from `b` alone. */
  lemma {:induction false} KeepShift<T>(a: seq<T>, da: seq<bool>, b: seq<T>, db: seq<bool>, j: nat)
    requires |a| == |da| && |b| == |db| && j <= |b|
    ensures KeepFrom(a + b, da + db, |a| + j) == KeepFrom(b, db, j)
    decreases |b| - j
  {
    var ab, dab := a + b, da + db;
    if j < |b| {
      KeepShift(a, da, b, db, j + 1);
      assert ab[|a| + j] == b[j] && dab[|a| + j] == db[j];
      assert KeepFrom(ab, dab, |a| + j) ==
        (if dab[|a| + j] then [] else [ab[|a| + j]]) + KeepFrom(ab, dab, |a| + j + 1);
    } else {
      assert KeepFrom(ab, dab, |a| + j) == [];
    }
  }

  /** Selection distributes over concatenation, so the kept elements keep
      the relative order they had. */
  lemma {:induction false} KeepAppend<T>(a: seq<T>, da: seq<bool>, b: seq<T>, db: seq<bool>, i: nat)
    requires |a| == |da| && |b| == |db| && i <= |a|
    ensures KeepFrom(a + b, da + db, i) == KeepFrom(a, da, i) + KeepFrom(b, db, 0)
    decreases |a| - i
  {
    var ab, dab := a + b, da + db;
    if i == |a| {
      KeepShift(a, da, b, db, 0);
      assert KeepFrom(a, da, i) == [];
    } else {
      KeepAppend(a, da, b, db, i + 1);
      assert ab[i] == a[i] && dab[i] == da[i];
      var head := if da[i] then [] else [a[i]];
      var x, y := KeepFrom(a, da, i + 1), KeepFrom(b, db, 0);
      assert KeepFrom(ab, dab, i) == head + (x + y);
      assert KeepFrom(a, da, i) == head + x;
      assert head + (x + y) == (head + x) + y;
    }
  }

  /** Selecting by the bugs' own `removed` flags keeps exactly the bugs that
      are not marked removed. */
  lemma KeptAreLive(bs: seq<Character>, dead: seq<bool>)
    requires |bs| == |dead|
    requires forall i :: 0 <= i < |bs| ==> dead[i] == bs[i].removed
    ensures forall k :: 0 <= k < |KeepFrom(bs, dead, 0)| ==> !KeepFrom(bs, dead, 0)[k].removed
    ensures forall i :: 0 <= i < |bs| && !bs[i].removed ==> bs[i] in KeepFrom(bs, dead, 0)
  {
    KeepExactly(bs, dead, 0);
    forall k | 0 <= k < |KeepFrom(bs, dead, 0)| ensures !KeepFrom(bs, dead, 0)[k].removed {
      var j :| 0 <= j < |bs| && bs[j] == KeepFrom(bs, dead, 0)[k] && !dead[j];
    }
  }

  /** The `removed` flags of a list of bugs. */
  function RemovedFlags(bs: seq<Character>): (f: seq<bool>)
    reads bs
    ensures |f| == |bs|
    ensures forall i :: 0 <= i < |bs| ==> f[i] == bs[i].removed
  {
    seq(|bs|, i requires 0 <= i < |bs| reads bs => bs[i].removed)
  }

  /** The bugs the reap pass keeps, in their order. */
  function Survivors(bs: seq<Character>): (r: seq<Character>)
    reads bs
  {
    KeepFrom(bs, RemovedFlags(bs), 0)
  }

  /** The survivors are exactly the bugs of the list not marked removed, and
      they keep their relative order. */
  lemma SurvivorsExactly(bs: seq<Character>, cs: seq<Character>)
    ensures |Survivors(bs)| <= |bs|
    ensures forall i :: 0 <= i < |Survivors(bs)| ==>
      Survivors(bs)[i] in bs && !Survivors(bs)[i].removed
    ensures forall i :: 0 <= i < |bs| && !bs[i].removed ==> bs[i] in Survivors(bs)
    ensures Survivors(bs + cs) == Survivors(bs) + Survivors(cs)
  {
    var f := RemovedFlags(bs);
    KeepExactly(bs, f, 0);
    forall i | 0 <= i < |Survivors(bs)|
      ensures Survivors(bs)[i] in bs && !Survivors(bs)[i].removed
    {
      var j :| 0 <= j < |bs| && bs[j] == Survivors(bs)[i] && !f[j];
    }
    assert RemovedFlags(bs + cs) == f + RemovedFlags(cs);
    KeepAppend(bs, f, cs, RemovedFlags(cs), 0);
  }

  /** What `mousePressed` looks for: a bug not in squish mode under the pointer. */
  predicate Eligible(b: Character, mx: real, my: real)
    reads b
    requires Move in b.animations
  {
    b.currentAnimation != Some(Squish) && b.IsClicked(mx, my)
  }

  /** The position of the first eligible bug of `bs`, or `|bs|` if none is. */
  function FirstTarget(bs: seq<Character>, mx: real, my: real): (k: nat)
    reads bs
    requires forall i :: 0 <= i < |bs| ==> Move in bs[i].animations
    ensures k <= |bs|
    ensures k < |bs| ==> Eligible(bs[k], mx, my)
    ensures forall j :: 0 <= j < k ==> !Eligible(bs[j], mx, my)
    decreases |bs|
  {
    if bs == [] then 0
    else if Eligible(bs[0], mx, my) then 0
    else 1 + FirstTarget(bs[1..], mx, my)
  }
}
