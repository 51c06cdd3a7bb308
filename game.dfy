/** The script of sketch.js as one object: its globals become the fields of
    `Game`, and `setup`, `draw`, `keyPressed` and `mousePressed` become its
    methods. Rendering is not modelled; what `draw` changes is. */
module Game {
  import opened Options
  import opened Sprite
  import opened Bug
  import opened Population
  import opened Lifecycle
  import opened Clock

  /** No bug occurs twice in the list. */
  ghost predicate Distinct(bs: seq<Character>)
    decreases |bs|
  {
    bs == [] || (bs[0] !in bs[1..] && Distinct(bs[1..]))
  }

  /** `Distinct` means pairwise different. */
  lemma {:induction false} DistinctPairs(bs: seq<Character>)
    ensures Distinct(bs) <==> forall i, j :: 0 <= i < j < |bs| ==> bs[i] != bs[j]
    decreases |bs|
  {
    if bs != [] {
      var t := bs[1..];
      DistinctPairs(t);
      assert forall i :: 1 <= i < |bs| ==> bs[i] == t[i - 1];
      if Distinct(bs) {
        forall i, j | 0 <= i < j < |bs| ensures bs[i] != bs[j] {
          if i > 0 {
            assert t[i - 1] != t[j - 1];
          } else {
            assert bs[j] in t;
          }
        }
      }
      if forall i, j :: 0 <= i < j < |bs| ==> bs[i] != bs[j] {
        forall i, j | 0 <= i < j < |t| ensures t[i] != t[j] {
          assert bs[i + 1] != bs[j + 1];
        }
        forall j | 0 <= j < |t| ensures t[j] != bs[0] {
          assert bs[0] != bs[j + 1];
        }
      }
    }
  }

  lemma DistinctSplice(bs: seq<Character>, k: nat)
    requires Distinct(bs) && k < |bs|
    ensures Distinct(bs[..k] + bs[k + 1..])
  {
    var cs := bs[..k] + bs[k + 1..];
    DistinctPairs(bs);
    DistinctPairs(cs);
    forall i, j | 0 <= i < j < |cs| ensures cs[i] != cs[j] {
      var i' := if i < k then i else i + 1;
      var j' := if j < k then j else j + 1;
      assert cs[i] == bs[i'] && cs[j] == bs[j'] && i' < j';
    }
  }

  lemma DistinctPush(bs: seq<Character>, b: Character)
    requires Distinct(bs) && b !in bs
    ensures Distinct(bs + [b])
  {
    DistinctPairs(bs);
    DistinctPairs(bs + [b]);
    assert forall i :: 0 <= i < |bs| ==> (bs + [b])[i] == bs[i];
  }

  /** Removing the element after a prefix `a` of a concatenation. */
  lemma CutAfter<X>(a: seq<X>, x: X, t: seq<X>)
    ensures var s := a + [x] + t; s[..|a|] + s[|a| + 1..] == a + t
  {
    var s := a + [x] + t;
    assert s[..|a|] == a;
    assert s[|a| + 1..] == t;
  }

  /** One step of the backward reap pass, on values: with `kept` the
      survivors of the suffix after `i`, dropping a dead element at `i` and
      appending a spawn, or keeping a live one, leaves the list in the same
      shape one position earlier. */
  lemma ReapStep<T>(all: seq<T>, dead: seq<bool>, i: nat, spawned: seq<T>, b: T)
    requires |all| == |dead| && i < |all|
    ensures var cur := all[..i + 1] + KeepFrom(all, dead, i + 1) + spawned;
      if dead[i] then
        cur[..i] + cur[i + 1..] + [b] == all[..i] + KeepFrom(all, dead, i) + (spawned + [b])
      else
        cur == all[..i] + KeepFrom(all, dead, i) + spawned
  {
    var pre, k1 := all[..i], KeepFrom(all, dead, i + 1);
    var cur := all[..i + 1] + k1 + spawned;
    assert all[..i + 1] == pre + [all[i]];
    assert KeepFrom(all, dead, i) == (if dead[i] then [] else [all[i]]) + k1;
    if dead[i] {
      CutAfter(pre, all[i], k1 + spawned);
      assert cur == pre + [all[i]] + (k1 + spawned);
      assert cur[..i] + cur[i + 1..] == pre + (k1 + spawned);
    } else {
      assert cur == pre + ([all[i]] + k1) + spawned;
    }
  }

  /** The bugs spawned so far by a pass, each from its own draw. */
  ghost predicate SpawnedFrom(spawned: seq<Character>, draws: seq<SpawnDraw>, mult: real)
    reads spawned
  {
    |spawned| <= |draws| &&
    forall j :: 0 <= j < |spawned| ==> spawned[j].Model() == Spawned(draws[j], mult)
  }

  /** After a reap pass by the bugs' own flags no bug of the list is marked
      removed: the survivors were not, and a spawn never is. */
  lemma NoneRemoved(bs: seq<Character>, dead: seq<bool>, spawned: seq<Character>, draws: seq<SpawnDraw>, mult: real)
    requires |bs| == |dead| && forall i :: 0 <= i < |bs| ==> dead[i] == bs[i].removed
    requires SpawnedFrom(spawned, draws, mult)
    ensures var after := KeepFrom(bs, dead, 0) + spawned;
      forall i :: 0 <= i < |after| ==> !after[i].removed
  {
    KeptAreLive(bs, dead);
    var s := KeepFrom(bs, dead, 0);
    forall i | 0 <= i < |s + spawned| ensures !(s + spawned)[i].removed {
      if i >= |s| {
        assert (s + spawned)[i] == spawned[i - |s|];
        assert spawned[i - |s|].Model() == Spawned(draws[i - |s|], mult);
      }
    }
  }

  /** Which bugs of `bs` one `update()` with frame duration `dt` marks removed. */
  ghost function StepRemoved(bs: seq<Character>, dt: real): (f: seq<bool>)
    reads bs
    ensures |f| == |bs|
    ensures forall i :: 0 <= i < |bs| ==> f[i] == StepBug(bs[i].Model(), dt).removed
  {
    seq(|bs|, i requires 0 <= i < |bs| reads bs => StepBug(bs[i].Model(), dt).removed)
  }

  class Sketch {
    var gameState: GameState
    var score: int
    var highScore: int
    var time: real
    var speedMultiplier: real
    var bugs: seq<Character>
    /** The game and every object its bugs own. */
    ghost var Repr: set<object>

    ghost predicate Valid()
      reads this`bugs, this`Repr, Repr - {this}
    {
      this in Repr &&
      (forall i :: 0 <= i < |bugs| ==>
        bugs[i] in Repr && bugs[i].Repr() <= Repr && this !in bugs[i].Repr() &&
        bugs[i].Valid() && HasSpawnStrips(bugs[i])) &&
      Distinct(bugs)
    }

    /** The session globals. */
    function Globals(): Session
      reads this
    {
      Lifecycle.Session(gameState, score, highScore, time, speedMultiplier)
    }

    /** The globals as the script initialises them, before `setup()`. */
    constructor ()
      ensures Valid() && fresh(Repr)
      ensures Globals() == InitialSession && bugs == []
    {
      gameState := Start;
      score := 0;
      highScore := 0;
      time := RoundTime;
      speedMultiplier := 1.0;
      bugs := [];
      Repr := {this};
    }

    /** `bugs.push(spawnBug())`. */
    method PushSpawn(d: SpawnDraw) returns (b: Character)
      requires Valid()
      modifies this
      ensures Valid() && fresh(Repr - old(Repr)) && Globals() == old(Globals())
      ensures bugs == old(bugs) + [b]
      ensures fresh(b) && b.Model() == Spawned(d, speedMultiplier) && HasSpawnAnimations(b) && AtFirstFrames(b)
    {
      b := SpawnBug(d, speedMultiplier);
      DistinctPush(bugs, b);
      bugs := bugs + [b];
      Repr := Repr + b.Repr();
    }

    /** `bugs.splice(k, 1)`. */
    method Splice(k: nat)
      requires Valid() && k < |bugs|
      modifies this
      ensures Valid() && Repr == old(Repr) && Globals() == old(Globals())
      ensures bugs == old(bugs[..k] + bugs[k + 1..])
    {
      DistinctSplice(bugs, k);
      bugs := bugs[..k] + bugs[k + 1..];
    }

    /** `bugs.splice(k, 1)` followed by `bugs.push(spawnBug())`. */
    method Respawn(k: nat, d: SpawnDraw) returns (b: Character)
      requires Valid() && k < |bugs|
      modifies this
      ensures Valid() && fresh(Repr - old(Repr)) && Globals() == old(Globals())
      ensures bugs == old(bugs[..k] + bugs[k + 1..]) + [b]
      ensures fresh(b) && b.Model() == Spawned(d, speedMultiplier) && HasSpawnAnimations(b) && AtFirstFrames(b)
    {
      Splice(k);
      b := PushSpawn(d);
    }

    /** One step of the reap pass: a removed bug at `i` is replaced by a spawn
        at the end of the list; a live one is left alone. `all` and `dead` are
        the list and its `removed` flags before the pass, `kept` the survivors
        behind `i` and `spawned` the spawns pushed so far. */
    method ReapAt(i: nat, d: SpawnDraw, ghost all: seq<Character>, ghost dead: seq<bool>,
                  ghost kept: seq<Character>, ghost spawned: seq<Character>, ghost draws: seq<SpawnDraw>)
      returns (respawned: bool, ghost kept': seq<Character>, ghost spawned': seq<Character>)
      requires Valid() && i < |all| == |dead|
      requires kept == KeepFrom(all, dead, i + 1)
      requires bugs == all[..i + 1] + kept + spawned
      requires all[i].removed == dead[i]
      requires SpawnedFrom(spawned, draws, speedMultiplier) && |spawned| < |draws| && d == draws[|spawned|]
      requires forall j :: 0 <= j < |spawned| ==> AtFirstFrames(spawned[j])
      modifies this
      ensures Valid() && fresh(Repr - old(Repr)) && Globals() == old(Globals())
      ensures kept' == KeepFrom(all, dead, i)
      ensures bugs == all[..i] + kept' + spawned'
      ensures SpawnedFrom(spawned', draws, speedMultiplier)
      ensures forall j :: 0 <= j < |spawned'| ==> AtFirstFrames(spawned'[j])
      ensures respawned == dead[i]
      ensures !dead[i] ==> spawned' == spawned
      ensures dead[i] ==> |spawned'| == |spawned| + 1 && spawned'[..|spawned|] == spawned
      ensures dead[i] ==> fresh(spawned'[|spawned|])
    {
      ReapStep(all, dead, i, spawned, all[i]);
      if bugs[i].removed {
        var b := Respawn(i, d);
        ReapStep(all, dead, i, spawned, b);
        respawned, kept', spawned' := true, kept, spawned + [b];
      } else {
        respawned, kept', spawned' := false, [all[i]] + kept, spawned;
      }
    }

    /** One iteration of the spawn loop of `setup()`: `before` is the list as
        `setup()` found it, `made` the bugs it has pushed so far, each from
        its own draw of `ds`, and `d` the next draw. */
    method SpawnOne(d: SpawnDraw, ghost before: seq<Character>, ghost made: seq<Character>, ghost ds: seq<SpawnDraw>)
      returns (ghost made': seq<Character>)
      requires Valid() && bugs == before + made && |made| < |ds| && d == ds[|made|]
      requires forall j :: 0 <= j < |made| ==>
        made[j].Model() == Spawned(ds[j], speedMultiplier) && HasSpawnAnimations(made[j])
      modifies this
      ensures Valid() && fresh(Repr - old(Repr)) && Globals() == old(Globals()) && bugs == before + made'
      ensures |made'| == |made| + 1 && made'[..|made|] == made && fresh(made'[|made|])
      ensures forall j :: 0 <= j < |made'| ==>
        made'[j].Model() == Spawned(ds[j], speedMultiplier) && HasSpawnAnimations(made'[j])
    {
      var b := PushSpawn(d);
      made' := made + [b];
    }

    /** The spawn loop of `setup()`: five bugs at the current multiplier,
        appended to the list. */
    method Setup(draws: seq<SpawnDraw>)
      requires Valid() && |draws| >= InitialPopulation
      modifies this
      ensures Valid() && fresh(Repr - old(Repr)) && Globals() == old(Globals())
      ensures |bugs| == |old(bugs)| + InitialPopulation && bugs[..|old(bugs)|] == old(bugs)
      ensures forall j :: |old(bugs)| <= j < |bugs| ==>
        fresh(bugs[j]) && bugs[j].Model() == Spawned(draws[j - |old(bugs)|], speedMultiplier) &&
        HasSpawnAnimations(bugs[j])
    {
      ghost var n, made := |bugs|, [];
      for i := 0 to InitialPopulation
        invariant Valid() && fresh(Repr - old(Repr)) && Globals() == old(Globals())
        invariant |made| == i && bugs == old(bugs) + made
        invariant forall j :: 0 <= j < i ==> fresh(made[j])
        invariant forall j :: 0 <= j < i ==>
          made[j].Model() == Spawned(draws[j], speedMultiplier) && HasSpawnAnimations(made[j])
      {
        made := SpawnOne(draws[i], old(bugs), made, draws);
      }
      assert forall j :: n <= j < |bugs| ==> bugs[j] == made[j - n];
    }

    /** `keyPressed()`. */
    method KeyPressed(keyCode: int)
      modifies this`gameState
      ensures Globals() == OnKey(old(Globals()), keyCode)
    {
      if gameState == Start && keyCode == Enter {
        gameState := Play;
      }
    }

    /** The update pass of `draw()` in PLAY: `update()` on every bug in order. */
    method UpdateAll(dt: real)
      requires Valid()
      modifies Repr
      ensures Valid() && Repr == old(Repr) && bugs == old(bugs) && Globals() == old(Globals())
      ensures forall i :: 0 <= i < |bugs| ==> bugs[i].Model() == StepBug(old(bugs[i].Model()), dt)
      ensures RemovedFlags(bugs) == old(StepRemoved(bugs, dt))
    {
      var i := 0;
      while i < |bugs|
        invariant 0 <= i <= |bugs|
        invariant bugs == old(bugs) && Repr == old(Repr) && Globals() == old(Globals())
        invariant Valid()
        invariant forall j :: 0 <= j < i ==> bugs[j].Model() == StepBug(old(bugs[j].Model()), dt)
        invariant forall j :: i <= j < |bugs| ==> bugs[j].Model() == old(bugs[j].Model())
      {
        UpdateAt(i, dt);
        i := i + 1;
      }
    }

    /** `bugs[i].update()`: that bug takes a step and no other bug changes. */
    method UpdateAt(i: nat, dt: real)
      requires Valid() && i < |bugs|
      modifies bugs[i].Repr()
      ensures Valid()
      ensures bugs[i].Model() == StepBug(old(bugs[i].Model()), dt)
      ensures bugs[i].animations == old(bugs[i].animations)
      ensures forall k :: k in bugs[i].animations ==>
        bugs[i].animations[k].Model() ==
          if k == ActiveAnimation(old(bugs[i].currentAnimation)) then Advance(old(bugs[i].animations[k].Model()))
          else old(bugs[i].animations[k].Model())
      ensures forall j :: 0 <= j < |bugs| && j != i ==> unchanged(bugs[j])
    {
      var b := bugs[i];
      DistinctPairs(bugs);
      b.Update(dt);
      assert forall j :: 0 <= j < |bugs| && j != i ==> bugs[j] != b && bugs[j] !in b.Repr();
    }

    /** The reap pass of `draw()` in PLAY: walking the list backwards, every
        removed bug is spliced out and a fresh spawn is pushed for it. The
        list keeps its length; the survivors come first, in their order, and
        the spawns follow, one per removed bug, drawing from `draws` in turn. */
    method Reap(draws: seq<SpawnDraw>) returns (ghost spawned: seq<Character>)
      requires Valid() && |draws| >= |bugs|
      modifies this
      ensures Valid() && fresh(Repr - old(Repr)) && Globals() == old(Globals())
      ensures |bugs| == |old(bugs)|
      ensures bugs == old(Survivors(bugs)) + spawned
      ensures SpawnedFrom(spawned, draws, speedMultiplier)
      ensures forall j :: 0 <= j < |spawned| ==> AtFirstFrames(spawned[j])
      ensures forall i :: 0 <= i < |bugs| ==> !bugs[i].removed
    {
      ghost var all, dead, mult := bugs, RemovedFlags(bugs), speedMultiplier;
      ghost var kept: seq<Character> := [];
      spawned := [];
      var i, used := |bugs|, 0;
      while i > 0
        invariant 0 <= i <= |all| == |dead|
        invariant Valid() && fresh(Repr - old(Repr)) && Globals() == old(Globals())
        invariant kept == KeepFrom(all, dead, i)
        invariant bugs == all[..i] + kept + spawned
        invariant used == |spawned| && |kept| + used == |all| - i
        invariant SpawnedFrom(spawned, draws, mult)
        invariant forall j :: 0 <= j < |spawned| ==> AtFirstFrames(spawned[j])
        decreases i
      {
        i := i - 1;
        var respawned;
        respawned, kept, spawned := ReapAt(i, draws[used], all, dead, kept, spawned, draws);
        if respawned {
          used := used + 1;
        }
      }
      NoneRemoved(all, dead, spawned, draws, mult);
    }

    /** The bug part of a PLAY frame: the update pass, then the reap pass. */
    method StepBugs(dt: real, draws: seq<SpawnDraw>) returns (ghost spawned: seq<Character>)
      requires Valid() && |draws| >= |bugs|
      modifies Repr
      ensures Valid() && fresh(Repr - old(Repr)) && Globals() == old(Globals())
      ensures |bugs| == |old(bugs)|
      ensures forall i :: 0 <= i < |old(bugs)| ==> old(bugs)[i].Model() == StepBug(old(bugs[i].Model()), dt)
      ensures bugs == KeepFrom(old(bugs), old(StepRemoved(bugs, dt)), 0) + spawned
      ensures SpawnedFrom(spawned, draws, speedMultiplier)
      ensures forall j :: 0 <= j < |spawned| ==> AtFirstFrames(spawned[j])
      ensures forall i :: 0 <= i < |bugs| ==> !bugs[i].removed
    {
      UpdateAll(dt);
      spawned := Reap(draws);
    }

    /** The PLAY branch of `draw()`: every bug takes a step, the reap pass
        replaces the removed ones, and the round clock runs down. */
    method PlayFrame(dt: real, draws: seq<SpawnDraw>) returns (ghost spawned: seq<Character>)
      requires Valid() && |draws| >= |bugs| && gameState == Play
      modifies Repr
      ensures Valid() && fresh(Repr - old(Repr)) && Globals() == OnFrame(old(Globals()), dt)
      ensures |bugs| == |old(bugs)|
      ensures forall i :: 0 <= i < |old(bugs)| ==> old(bugs)[i].Model() == StepBug(old(bugs[i].Model()), dt)
      ensures bugs == KeepFrom(old(bugs), old(StepRemoved(bugs, dt)), 0) + spawned
      ensures SpawnedFrom(spawned, draws, speedMultiplier)
      ensures forall j :: 0 <= j < |spawned| ==> AtFirstFrames(spawned[j])
      ensures forall i :: 0 <= i < |bugs| ==> !bugs[i].removed
    {
      spawned := StepBugs(dt, draws);
      Tick(dt);
    }

    /** The clock part of `draw()` in PLAY: the round loses the frame's
        seconds and is over once no time is left. */
    method Tick(dt: real)
      requires gameState == Play
      modifies this`time, this`gameState
      ensures Globals() == OnFrame(old(Globals()), dt)
    {
      time := time - dt / MillisPerSecond;
      if time <= 0.0 {
        gameState := End;
      }
    }

    /** `draw()` without its rendering, with the host's `deltaTime` in
        milliseconds and one random draw per bug for the spawns it may need.
        Outside PLAY no bug changes; in PLAY every bug of the list takes one
        step, the survivors stay in their order and the spawns follow them. */
    method Draw(dt: real, draws: seq<SpawnDraw>) returns (ghost spawned: seq<Character>)
      requires Valid() && |draws| >= |bugs|
      modifies Repr
      ensures Valid() && fresh(Repr - old(Repr)) && Globals() == OnFrame(old(Globals()), dt)
      ensures |bugs| == |old(bugs)|
      ensures old(gameState) != Play ==>
        bugs == old(bugs) && spawned == [] &&
        (forall i :: 0 <= i < |bugs| ==> bugs[i].Model() == old(bugs[i].Model())) &&
        (forall i :: 0 <= i < |bugs| ==> bugs[i].animations == old(bugs[i].animations)) &&
        forall i, k :: 0 <= i < |bugs| && k in bugs[i].animations ==>
          bugs[i].animations[k].Model() == old(bugs[i].animations[k].Model())
      ensures old(gameState) == Play ==>
        (forall i :: 0 <= i < |old(bugs)| ==> old(bugs)[i].Model() == StepBug(old(bugs[i].Model()), dt)) &&
        bugs == KeepFrom(old(bugs), old(StepRemoved(bugs, dt)), 0) + spawned &&
        SpawnedFrom(spawned, draws, speedMultiplier) &&
        (forall j :: 0 <= j < |spawned| ==> AtFirstFrames(spawned[j])) &&
        forall i :: 0 <= i < |bugs| ==> !bugs[i].removed
    {
      spawned := [];
      match gameState {
        case Start =>
        case Play =>
          spawned := PlayFrame(dt, draws);
        case End =>
          if score > highScore {
            highScore := score;
          }
      }
    }

    /** The hit branch of `mousePressed()`: `bugs[i].squish()`, one more
        point and a faster next spawn. */
    method HitAt(i: nat)
      requires Valid() && i < |bugs|
      modifies this, bugs[i]
      ensures Valid() && Repr == old(Repr) && bugs == old(bugs)
      ensures Globals() == OnHit(old(Globals()))
      ensures bugs[i].Model() == Squished(old(bugs[i].Model()))
      ensures bugs[i].animations == old(bugs[i].animations)
      ensures forall j :: 0 <= j < |bugs| && j != i ==> bugs[j].Model() == old(bugs[j].Model())
    {
      DistinctPairs(bugs);
      bugs[i].Squish();
      score := score + 1;
      speedMultiplier := speedMultiplier + SpeedStep;
    }

    /** `mousePressed()`: in PLAY, the first bug in list order that is not in
        squish mode and is under the pointer is squished, and the score and
        the speed multiplier go up; nothing else changes. */
    method MousePressed(mx: real, my: real)
      requires Valid()
      modifies this, bugs
      ensures Valid() && Repr == old(Repr) && bugs == old(bugs)
      ensures forall i :: 0 <= i < |bugs| ==> bugs[i].animations == old(bugs[i].animations)
      ensures forall i, k :: 0 <= i < |bugs| && k in bugs[i].animations ==>
        bugs[i].animations[k].Model() == old(bugs[i].animations[k].Model())
      ensures var k := old(FirstTarget(bugs, mx, my));
        if old(gameState) == Play && k < |bugs| then
          Globals() == OnHit(old(Globals())) &&
          bugs[k].Model() == Squished(old(bugs[k].Model())) &&
          forall i :: 0 <= i < |bugs| && i != k ==> bugs[i].Model() == old(bugs[i].Model())
        else
          Globals() == old(Globals()) &&
          forall i :: 0 <= i < |bugs| ==> bugs[i].Model() == old(bugs[i].Model())
    {
      if gameState == Play {
        ghost var k := FirstTarget(bugs, mx, my);
        var i := 0;
        while i < |bugs|
          invariant 0 <= i <= k
          invariant Valid() && Repr == old(Repr) && bugs == old(bugs) && Globals() == old(Globals())
          invariant forall j :: 0 <= j < |bugs| ==> bugs[j].Model() == old(bugs[j].Model())
          invariant forall j :: 0 <= j < |bugs| ==> bugs[j].animations == old(bugs[j].animations)
        {
          if bugs[i].currentAnimation != Some(AnimName.Squish) && bugs[i].IsClicked(mx, my) {
            HitAt(i);
            break;
          }
          i := i + 1;
        }
      }
    }
  }

  /** Every bug of a valid game keeps the strips `spawnBug()` gave it: its
      move strip has four frames, and its squish animation is a single frame
      that no number of updates changes. */
  lemma {:induction false} StripsAreFixed(g: Sketch, i: nat, n: nat)
    requires g.Valid() && i < |g.bugs|
    ensures g.bugs[i].animations[Move].frameCount == MoveFrames
    ensures AdvanceN(g.bugs[i].animations[Squish].Model(), n) == g.bugs[i].animations[Squish].Model()
  {
    SingleFrameIsStatic(g.bugs[i].animations[Squish].Model(), n);
  }
}
