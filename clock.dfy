/** Elapsed-time bookkeeping shared by the bug timers and the round clock.
    The host hands every frame its `deltaTime` in milliseconds. */
module Clock {

  /** Milliseconds per second: timers in the game count seconds. */
  const MillisPerSecond: real := 1000.0

  /** Total of a sequence of frame durations. */
  function Sum(dts: seq<real>): real
  {
    if dts == [] then 0.0 else dts[0] + Sum(dts[1..])
  }

  /** Every frame duration is nonnegative, as a real clock delivers them. */
  predicate AllNonNegative(dts: seq<real>)
  {
    forall i :: 0 <= i < |dts| ==> dts[i] >= 0.0
  }

  /** The total of nonnegative durations is nonnegative and bounds every suffix. */
  lemma {:induction false} SumNonNegative(dts: seq<real>)
    requires AllNonNegative(dts)
    ensures Sum(dts) >= 0.0
    ensures dts != [] ==> Sum(dts) >= Sum(dts[1..]) && Sum(dts) >= dts[0]
  {
    if dts != [] {
      assert AllNonNegative(dts[1..]) by {
        forall i | 0 <= i < |dts[1..]| ensures dts[1..][i] >= 0.0 {
          assert dts[1..][i] == dts[i + 1];
        }
      }
      SumNonNegative(dts[1..]);
    }
  }

  /** A product of nonnegative reals is nonnegative. */
  lemma ProductNonNegative(a: real, b: real)
    requires a >= 0.0 && b >= 0.0
    ensures a * b >= 0.0
  {
  }

  function Max(a: int, b: int): (m: int)
    ensures m >= a && m >= b && (m == a || m == b)
  {
    if a > b then a else b
  }

  function Abs(r: real): (a: real)
    ensures a >= 0.0 && (a == r || a == -r)
  {
    if r < 0.0 then -r else r
  }
}
