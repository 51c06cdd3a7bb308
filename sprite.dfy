/** The frame counter of a sprite-sheet animation (`SpriteAnimation` in sketch.js).
    Every rendering tick calls `Update`; an animation with more than one frame
    holds each frame for `FrameDelay` ticks and then moves on cyclically, an
    animation with one frame never moves. */
module Sprite {

  /** Ticks each frame is held. */
  const FrameDelay: int := 6
  /** Size of one frame on the sheet, in pixels; also the hit box of a bug. */
  const FrameWidth: int := 32
  const FrameHeight: int := 32

  /** The observable state of one animation: where its strip starts on the
      sheet, how many frames it has, and the frame counter. */
  datatype AnimState = AnimState(startU: int, v: int, frameCount: int, currentFrame: int, elapsedTime: int)
  {
    /** The range invariant: the tick counter stays below the delay and the
        frame index stays inside the strip (a strip of no frames keeps index 0). */
    predicate Inv()
    {
      0 <= elapsedTime < FrameDelay && 0 <= currentFrame &&
      (frameCount >= 1 ==> currentFrame < frameCount)
    }
  }

  /** The state the constructor establishes. */
  function Initial(startU: int, v: int, duration: int): (a: AnimState)
    ensures a.Inv() && a.frameCount == duration
    ensures a.currentFrame == 0 && a.elapsedTime == 0
  {
    AnimState(startU, v, duration, 0, 0)
  }

  /** One call of `update()`. */
  function Advance(a: AnimState): (r: AnimState)
    ensures r.startU == a.startU && r.v == a.v && r.frameCount == a.frameCount
    ensures a.frameCount <= 1 ==> r == a
    ensures a.Inv() ==> r.Inv()
  {
    if a.frameCount > 1 then
      if a.elapsedTime + 1 >= FrameDelay then
        a.(currentFrame := (a.currentFrame + 1) % a.frameCount, elapsedTime := 0)
      else
        a.(elapsedTime := a.elapsedTime + 1)
    else
      a
  }

  /** `n` consecutive calls of `update()`. */
  function AdvanceN(a: AnimState, n: nat): AnimState
  {
    if n == 0 then a else Advance(AdvanceN(a, n - 1))
  }

  /** The range invariant holds after any number of updates. */
  lemma {:induction false} AlwaysInRange(a: AnimState, n: nat)
    requires a.Inv()
    ensures AdvanceN(a, n).Inv()
    ensures AdvanceN(a, n).frameCount == a.frameCount
  {
    if n > 0 {
      AlwaysInRange(a, n - 1);
    }
  }

  /** A single-frame (or empty) animation is static: no number of updates changes it. */
  lemma {:induction false} SingleFrameIsStatic(a: AnimState, n: nat)
    requires a.frameCount <= 1
    ensures AdvanceN(a, n) == a
  {
    if n > 0 {
      SingleFrameIsStatic(a, n - 1);
    }
  }

  /** Incrementing an index modulo `m` commutes with reducing it first. */
  lemma ModSucc(q: nat, m: int)
    requires m > 1
    ensures ((q % m) + 1) % m == (q + 1) % m
  {
    var d, r := q / m, q % m;
    assert q == m * d + r;
    if r + 1 < m {
      assert q + 1 == m * d + (r + 1);
      ModUnique(q + 1, m, d, r + 1);
    } else {
      assert q + 1 == m * (d + 1);
      ModUnique(q + 1, m, d + 1, 0);
      ModUnique(r + 1, m, 1, 0);
    }
  }

  /** The remainder is determined by any quotient/remainder decomposition. */
  lemma ModUnique(n: int, m: int, d: int, r: int)
    requires m > 0 && 0 <= r < m && n == m * d + r
    ensures n % m == r
  {
    var d', r' := n / m, n % m;
    assert m * d' + r' == m * d + r;
    assert m * (d' - d) == r - r';
    if d' - d >= 1 {
      MulAtLeast(m, d' - d);
    } else if d - d' >= 1 {
      MulAtLeast(m, d - d');
    }
  }

  lemma {:induction false} MulAtLeast(m: int, k: int)
    requires m > 0 && k >= 1
    ensures m * k >= m
  {
    if k > 1 {
      MulAtLeast(m, k - 1);
      assert m * k == m * (k - 1) + m;
    }
  }

  /** The frame schedule from the constructor's state: after `n` updates of a
      multi-frame animation, the frame index is the number of completed holds
      modulo the frame count, and the tick counter is `n` modulo the delay. So
      the frame advances by exactly one (cyclically) on every sixth update and
      stays put on the five updates between. */
  lemma {:induction false} FrameSchedule(startU: int, v: int, frameCount: int, n: nat)
    requires frameCount > 1
    ensures AdvanceN(Initial(startU, v, frameCount), n).currentFrame == (n / FrameDelay) % frameCount
    ensures AdvanceN(Initial(startU, v, frameCount), n).elapsedTime == n % FrameDelay
  {
    if n > 0 {
      var m: nat := n - 1;
      FrameSchedule(startU, v, frameCount, m);
      AlwaysInRange(Initial(startU, v, frameCount), m);
      if m % FrameDelay == FrameDelay - 1 {
        assert n / FrameDelay == m / FrameDelay + 1 && n % FrameDelay == 0;
        ModSucc(m / FrameDelay, frameCount);
      } else {
        assert n / FrameDelay == m / FrameDelay && n % FrameDelay == m % FrameDelay + 1;
      }
    }
  }

  /** One animation of a bug. The sheet image it draws from is not modelled. */
  class SpriteAnimation {
    const startU: int
    const v: int
    const duration: int
    const frameCount: int
    const frameDelay: int := FrameDelay
    const frameWidth: int := FrameWidth
    const frameHeight: int := FrameHeight
    var currentFrame: int
    var elapsedTime: int

    ghost function Model(): AnimState
      reads this
    {
      AnimState(startU, v, frameCount, currentFrame, elapsedTime)
    }

    constructor (startU: int, startV: int, duration: int)
      ensures Model() == Initial(startU, startV, duration)
      ensures this.duration == duration
    {
      this.startU := startU;
      this.v := startV;
      this.duration := duration;
      this.frameCount := duration;
      this.currentFrame := 0;
      this.elapsedTime := 0;
    }

    method Update()
      modifies this
      ensures Model() == Advance(old(Model()))
    {
      if frameCount > 1 {
        elapsedTime := elapsedTime + 1;
        if elapsedTime >= frameDelay {
          currentFrame := (currentFrame + 1) % frameCount;
          elapsedTime := 0;
        }
      }
    }
  }
}
