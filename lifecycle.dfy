/** The game session of sketch.js: the three-state lifecycle START -> PLAY ->
    END and the globals `score`, `highScore`, `time` and `speedMultiplier`,
    as pure functions of the events that change them. `Game.Sketch` applies them
    to its fields. */
module Lifecycle {
  import opened Clock

  datatype GameState = Start | Play | End

  datatype Session = Session(state: GameState, score: int, highScore: int, time: real, speedMultiplier: real)

  /** p5's `ENTER` key code. */
  const Enter: int := 13
  /** Length of a round, in seconds. */
  const RoundTime: real := 30.0
  /** Added to the speed multiplier on every hit. */
  const SpeedStep: real := 0.1

  /** The globals as the script declares them. */
  const InitialSession: Session := Session(Start, 0, 0, RoundTime, 1.0)

  /** `keyPressed()`: ENTER on the start screen begins the round; every other
      key, and every key in another state, is ignored. */
  function OnKey(s: Session, keyCode: int): (r: Session)
    ensures r.state == Play <==> s.state == Play || (s.state == Start && keyCode == Enter)
    ensures r.state != s.state ==> s.state == Start && keyCode == Enter
    ensures r.(state := s.state) == s
  {
    if s.state == Start && keyCode == Enter then s.(state := Play) else s
  }

  /** What `mousePressed()` does to the session when it squishes a bug. */
  function OnHit(s: Session): (r: Session)
    ensures r.score == s.score + 1 && r.speedMultiplier == s.speedMultiplier + SpeedStep
    ensures r.state == s.state && r.highScore == s.highScore && r.time == s.time
  {
    s.(score := s.score + 1, speedMultiplier := s.speedMultiplier + SpeedStep)
  }

  /** The session part of one `draw()` call with the host's `deltaTime` in
      milliseconds. */
  function OnFrame(s: Session, dt: real): (r: Session)
    ensures r.score == s.score && r.speedMultiplier == s.speedMultiplier
    ensures s.state == Start ==> r == s
    ensures s.state == Play ==>
      r.time == s.time - dt / MillisPerSecond && r.highScore == s.highScore &&
      (r.state == End <==> r.time <= 0.0) && r.state != Start
    ensures s.state == End ==>
      r.state == End && r.time == s.time && r.highScore == Max(s.highScore, s.score)
  {
    match s.state
    case Start => s
    case Play =>
      var t := s.time - dt / MillisPerSecond;
      s.(time := t, state := if t <= 0.0 then End else Play)
    case End =>
      if s.score > s.highScore then s.(highScore := s.score) else s
  }

  /** One `draw()` per given frame duration, with no input events between them. */
  function RunFrames(s: Session, dts: seq<real>): Session
    decreases |dts|
  {
    if dts == [] then s else RunFrames(OnFrame(s, dts[0]), dts[1..])
  }

  /** END has no way out: neither a frame nor a key leaves it, and the score
      stays fixed from then on. */
  lemma {:induction false} EndIsTerminal(s: Session, dts: seq<real>, keyCode: int)
    requires s.state == End
    ensures RunFrames(s, dts).state == End && OnKey(s, keyCode).state == End
    ensures RunFrames(s, dts).score == s.score
    decreases |dts|
  {
    if dts != [] {
      EndIsTerminal(OnFrame(s, dts[0]), dts[1..], keyCode);
    }
  }

  /** The high score never decreases, whatever the state and however many
      frames pass. */
  lemma {:induction false} HighScoreNeverDecreases(s: Session, dts: seq<real>)
    ensures RunFrames(s, dts).highScore >= s.highScore
    decreases |dts|
  {
    if dts != [] {
      HighScoreNeverDecreases(OnFrame(s, dts[0]), dts[1..]);
    }
  }

  /** The END update of the high score is idempotent: after one END frame,
      further END frames change nothing. */
  lemma {:induction false} HighScoreSettles(s: Session, dt: real, dts: seq<real>)
    requires s.state == End
    ensures RunFrames(OnFrame(s, dt), dts) == OnFrame(s, dt)
    ensures OnFrame(s, dt).highScore == Max(s.highScore, s.score)
    decreases |dts|
  {
    if dts != [] {
      assert OnFrame(OnFrame(s, dt), dts[0]) == OnFrame(s, dt);
      HighScoreSettles(s, dt, dts[1..]);
    }
  }

  /** A running round with no clicks: with nonnegative frame durations the
      round is over exactly when the frames add up to the time left, the score
      is unchanged, and while the round lasts its clock reads the time left
      minus the elapsed seconds. */
  lemma {:induction false} RoundRunsOut(s: Session, dts: seq<real>)
    requires s.state == Play && s.time > 0.0 && AllNonNegative(dts)
    ensures RunFrames(s, dts).state == End <==> Sum(dts) >= s.time * MillisPerSecond
    ensures RunFrames(s, dts).state != End ==>
      RunFrames(s, dts).state == Play && RunFrames(s, dts).time == s.time - Sum(dts) / MillisPerSecond
    ensures RunFrames(s, dts).score == s.score
    decreases |dts|
  {
    if dts != [] {
      var s' := OnFrame(s, dts[0]);
      assert AllNonNegative(dts[1..]) by {
        forall i | 0 <= i < |dts[1..]| ensures dts[1..][i] >= 0.0 {
          assert dts[1..][i] == dts[i + 1];
        }
      }
      SumNonNegative(dts);
      SumNonNegative(dts[1..]);
      if s'.state == End {
        EndIsTerminal(s', dts[1..], Enter);
      } else {
        RoundRunsOut(s', dts[1..]);
      }
    }
  }

  /** The scenario of a round nobody plays: from the initial globals, ENTER
      starts the round, and once frames adding up to 30 seconds have passed
      the game is over with a score of 0 and the high score still 0. */
  lemma IdleRound(dts: seq<real>)
    requires AllNonNegative(dts) && Sum(dts) >= RoundTime * MillisPerSecond
    ensures var r := RunFrames(OnKey(InitialSession, Enter), dts);
      r.state == End && r.score == 0 && r.highScore == 0
  {
    var s := OnKey(InitialSession, Enter);
    RoundRunsOut(s, dts);
    HighScoreBounded(s, dts);
    HighScoreNeverDecreases(s, dts);
  }

  /** Frames never lift the high score above the larger of the score and the
      old high score. */
  lemma {:induction false} HighScoreBounded(s: Session, dts: seq<real>)
    ensures RunFrames(s, dts).highScore <= Max(s.highScore, s.score)
    decreases |dts|
  {
    if dts != [] {
      HighScoreBounded(OnFrame(s, dts[0]), dts[1..]);
    }
  }

  /** The reachable sessions: before END the round always has time left, scores
      are nonnegative and the multiplier is at least its initial 1. */
  predicate Reachable(s: Session)
  {
    (s.state != End ==> s.time > 0.0) &&
    0 <= s.score && 0 <= s.highScore && s.speedMultiplier >= 1.0
  }

  /** The initial globals are reachable, and every event keeps a session
      reachable. */
  lemma EventsKeepReachable(s: Session, keyCode: int, dt: real)
    requires Reachable(s)
    ensures Reachable(OnKey(s, keyCode)) && Reachable(OnFrame(s, dt))
    ensures Reachable(OnHit(s))
    ensures Reachable(InitialSession)
  {
  }
}
