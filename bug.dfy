/** One bug on the 400 x 400 canvas (`Character` in sketch.js): it walks by its
    velocity, bounces off the canvas edges, and once squished counts a timer
    down to its removal. */
module Bug {
  import opened Options
  import opened Clock
  import opened Sprite

  const Width: real := 400.0
  const Height: real := 400.0
  /** Seconds a squished bug stays on screen. */
  const SquishDuration: real := 0.5

  /** The names under which a bug keeps its animations. */
  datatype AnimName = Move | Squish

  /** The observable state of a bug apart from its animations (which
      `Character` keeps as objects). `current` is `None` until an animation is
      selected, as the constructor leaves it `null`. */
  datatype BugState = BugState(
    x: real, y: real, vx: real, vy: real,
    current: Option<AnimName>,
    squishTimer: real, removed: bool)

  /** The animation `update()` advances: the squish one in squish mode, the
      move one otherwise. */
  function ActiveAnimation(current: Option<AnimName>): AnimName
  {
    if current == Some(Squish) then Squish else Move
  }

  /** A coordinate after a move must be flipped when the frame box, `size`
      long on that axis, pokes out of `[0, extent]`. */
  predicate OutOfBounds(p: real, size: real, extent: real)
  {
    p < 0.0 || p + size > extent
  }

  /** One call of `update()` with the host's `deltaTime` (milliseconds). */
  function StepBug(b: BugState, dt: real): (r: BugState)
    ensures r.current == b.current
    ensures b.removed ==> r.removed
    // a squished bug stays where it is and does not start moving
    ensures b.current == Some(Squish) ==>
      r.x == b.x && r.y == b.y && r.vx == b.vx && r.vy == b.vy &&
      r.squishTimer == b.squishTimer - dt / MillisPerSecond &&
      (r.removed <==> b.removed || r.squishTimer <= 0.0)
    // a walking bug keeps its timer and its removed flag, and keeps its speed
    ensures b.current != Some(Squish) ==>
      r.squishTimer == b.squishTimer && r.removed == b.removed &&
      r.x == b.x + b.vx && r.y == b.y + b.vy &&
      Abs(r.vx) == Abs(b.vx) && Abs(r.vy) == Abs(b.vy)
    // and turns back on an axis exactly when its box is out of bounds there
    // after the move
    ensures b.current != Some(Squish) ==>
      (OutOfBounds(r.x, FrameWidth as real, Width) ==> r.vx == -b.vx) && (!OutOfBounds(r.x, FrameWidth as real, Width) ==> r.vx == b.vx) &&
      (OutOfBounds(r.y, FrameHeight as real, Height) ==> r.vy == -b.vy) && (!OutOfBounds(r.y, FrameHeight as real, Height) ==> r.vy == b.vy)
  {
    if b.current == Some(Squish) then CountDown(b, dt) else Walk(b)
  }

  /** The squish branch of `update()`: the timer runs down by the elapsed
      seconds and the bug is marked removed once it reaches zero. */
  function CountDown(b: BugState, dt: real): BugState
  {
    var t := b.squishTimer - dt / MillisPerSecond;
    b.(squishTimer := t,
       removed := if t <= 0.0 then true else b.removed)
  }

  /** The move branch of `update()`: step by the velocity, then reverse each
      velocity component whose axis is out of bounds after the step. */
  function Walk(b: BugState): BugState
  {
    var x, y := b.x + b.vx, b.y + b.vy;
    b.(x := x, y := y,
       vx := if OutOfBounds(x, FrameWidth as real, Width) then -b.vx else b.vx,
       vy := if OutOfBounds(y, FrameHeight as real, Height) then -b.vy else b.vy)
  }

  /** `update()` once per frame for the given frame durations. */
  function Run(b: BugState, dts: seq<real>): (r: BugState)
    ensures r.current == b.current
    decreases |dts|
  {
    if dts == [] then b else Run(StepBug(b, dts[0]), dts[1..])
  }

  /** `squish()`. */
  function Squished(b: BugState): (r: BugState)
    ensures r.current == Some(Squish)
    ensures r.vx == 0.0 && r.vy == 0.0 && r.squishTimer == SquishDuration
    ensures r.x == b.x && r.y == b.y && r.removed == b.removed
  {
    b.(current := Some(Squish), vx := 0.0, vy := 0.0, squishTimer := SquishDuration)
  }

  /** A squished bug with nonnegative frame durations stays frozen in place,
      its timer drops by the elapsed seconds, and it is marked removed exactly
      when some frame brought the timer to zero or below (the flag never
      clears again). */
  lemma {:induction false} SquishCountdown(b: BugState, dts: seq<real>)
    requires b.current == Some(Squish) && AllNonNegative(dts)
    ensures Run(b, dts).x == b.x && Run(b, dts).y == b.y
    ensures Run(b, dts).vx == b.vx && Run(b, dts).vy == b.vy
    ensures Run(b, dts).squishTimer == b.squishTimer - Sum(dts) / MillisPerSecond
    ensures Run(b, dts).removed <==>
      b.removed || (dts != [] && Run(b, dts).squishTimer <= 0.0)
    decreases |dts|
  {
    if dts != [] {
      var b' := StepBug(b, dts[0]);
      assert AllNonNegative(dts[1..]) by {
        forall i | 0 <= i < |dts[1..]| ensures dts[1..][i] >= 0.0 {
          assert dts[1..][i] == dts[i + 1];
        }
      }
      SquishCountdown(b', dts[1..]);
      SumNonNegative(dts[1..]);
      assert Run(b, dts) == Run(b', dts[1..]);
    }
  }

  /** After `squish()` on a live bug, it is removed exactly once at least
      `SquishDuration` seconds (500 ms) of frame time have passed in at least
      one frame; the boundary of exactly 0.5 s removes it. */
  lemma SquishLifetime(b: BugState, dts: seq<real>)
    requires !b.removed && AllNonNegative(dts)
    ensures Run(Squished(b), dts).removed <==> dts != [] && Sum(dts) >= SquishDuration * MillisPerSecond
    ensures Run(Squished(b), dts).x == b.x && Run(Squished(b), dts).y == b.y
  {
    SquishCountdown(Squished(b), dts);
  }

  /** One axis of a walking bug that is "on the canvas": the box, `size` long
      on that axis, is at most one step outside `[0, extent]`, and when it is
      outside the velocity already points back in. */
  predicate AxisOnCanvas(p: real, v: real, size: real, extent: real)
  {
    -Abs(v) <= p <= extent - size + Abs(v) &&
    (p < 0.0 ==> v > 0.0) &&
    (p + size > extent ==> v < 0.0)
  }

  predicate OnCanvas(b: BugState)
  {
    AxisOnCanvas(b.x, b.vx, FrameWidth as real, Width) && AxisOnCanvas(b.y, b.vy, FrameHeight as real, Height)
  }

  /** A walking bug that is on the canvas stays on it, however many frames pass:
      the bounce rule, judged on the position after the move, always turns the
      bug back before it gets more than one step away. */
  lemma {:induction false} WalkingStaysOnCanvas(b: BugState, dts: seq<real>)
    requires b.current != Some(Squish) && OnCanvas(b)
    ensures OnCanvas(Run(b, dts))
    ensures Abs(Run(b, dts).vx) == Abs(b.vx) && Abs(Run(b, dts).vy) == Abs(b.vy)
    decreases |dts|
  {
    if dts != [] {
      var b' := StepBug(b, dts[0]);
      assert OnCanvas(b');
      WalkingStaysOnCanvas(b', dts[1..]);
    }
  }

  /** A bug of sketch.js. The facing angle is not modelled (see README). */
  class Character {
    var x: real
    var y: real
    var currentAnimation: Option<AnimName>
    var animations: map<AnimName, SpriteAnimation>
    var vx: real
    var vy: real
    var squishTimer: real
    var removed: bool

    /** The objects this bug owns: itself and its animations. */
    ghost function Repr(): set<object>
      reads this
    {
      {this} + animations.Values
    }

    /** No animation object is registered under two names. */
    ghost predicate Valid()
      reads this
    {
      forall k, k' :: k in animations && k' in animations && k != k' ==> animations[k] != animations[k']
    }

    ghost function Model(): BugState
      reads this
    {
      BugState(x, y, vx, vy, currentAnimation, squishTimer, removed)
    }

    constructor (x: real, y: real)
      ensures Valid() && animations == map[]
      ensures Model() == BugState(x, y, 0.0, 0.0, None, 0.0, false)
    {
      this.x := x;
      this.y := y;
      this.currentAnimation := None;
      this.animations := map[];
      this.vx := 0.0;
      this.vy := 0.0;
      this.squishTimer := 0.0;
      this.removed := false;
    }

    /** `addAnimation(key, animation)`: registers or replaces an animation. */
    method AddAnimation(key: AnimName, animation: SpriteAnimation)
      requires Valid()
      requires forall k :: k in animations && k != key ==> animations[k] != animation
      modifies this`animations
      ensures Valid() && animations == old(animations)[key := animation]
    {
      animations := animations[key := animation];
    }

    /** `update()`. Outside squish mode it reads the "move" animation without
        a check, so a bug without one cannot be updated there. */
    method Update(dt: real)
      requires Valid()
      requires currentAnimation != Some(AnimName.Squish) ==> Move in animations
      modifies Repr()
      ensures Valid() && animations == old(animations)
      ensures Model() == StepBug(old(Model()), dt)
      ensures forall k :: k in animations ==>
        animations[k].Model() ==
          if k == ActiveAnimation(old(currentAnimation)) then Advance(old(animations[k].Model()))
          else old(animations[k].Model())
    {
      if currentAnimation == Some(AnimName.Squish) {
        squishTimer := squishTimer - dt / MillisPerSecond;
        if squishTimer <= 0.0 {
          removed := true;
        }
        if AnimName.Squish in animations {
          UpdateAnimation(AnimName.Squish);
        }
      } else {
        x := x + vx;
        y := y + vy;
        var anim := animations[Move];
        if x < 0.0 || x + anim.frameWidth as real > Width {
          vx := vx * -1.0;
        }
        if y < 0.0 || y + anim.frameHeight as real > Height {
          vy := vy * -1.0;
        }
        if Move in animations {
          UpdateAnimation(Move);
        }
      }
    }

    /** Advances the animation registered under `key` and nothing else. */
    method UpdateAnimation(key: AnimName)
      requires Valid() && key in animations
      modifies animations[key]
      ensures forall k :: k in animations ==>
        animations[k].Model() ==
          if k == key then Advance(old(animations[k].Model())) else old(animations[k].Model())
    {
      var a := animations[key];
      a.Update();
      assert forall k :: k in animations && k != key ==> animations[k] != a;
    }

    /** `isClicked(mx, my)`: the pointer is inside the closed box of the "move"
        frame at the bug's position, whichever animation is showing. */
    function IsClicked(mx: real, my: real): (r: bool)
      reads this
      requires Move in animations
      ensures r <==> x <= mx <= x + FrameWidth as real && y <= my <= y + FrameHeight as real
    {
      var anim := animations[Move];
      mx >= x && mx <= x + anim.frameWidth as real &&
      my >= y && my <= y + anim.frameHeight as real
    }

    /** `squish()`. */
    method Squish()
      modifies this`currentAnimation, this`vx, this`vy, this`squishTimer
      ensures Model() == Squished(old(Model()))
    {
      currentAnimation := Some(AnimName.Squish);
      vx := 0.0;
      vy := 0.0;
      squishTimer := SquishDuration;
    }
  }
}
