/**
 * The state of one game and what one frame does to it, as pure functions:
 * the reference definition that the `Game` class of module BeeGame is proved
 * to follow, and the properties of the game proved about it.
 */
module GameState {
  import opened Entities

  // Length of a round in seconds.
  const GameTime: int := 60
  // Number of hornet hits that ends a round.
  const MaxHornets: int := 3
  // Number of frames the lightning effect lasts after a hornet hit.
  const LightningFrames: int := 30
  // The clock counts nanoseconds.
  const NanosPerSecond: int := 1_000_000_000

  datatype State = State(
    bees: seq<Bee>,
    score: int,
    hornetsClicked: int,
    gameOver: bool,
    gameStarted: bool,
    startTime: int,
    remainingTime: int,
    lightningEffect: bool,
    lightningTimer: int)

  /**
   * What the engine and the libraries supply to one frame: whether the left
   * mouse button was pressed on this frame, the cursor position, the
   * monotonic clock reading in nanoseconds, and the random draws.
   */
  datatype Input = Input(justPressed: bool, cursorX: int, cursorY: int, now: int, draws: Draws)

  /** The state `NewGame` builds: no entities, nothing scored, not started. */
  function Initial(): (s: State)
    ensures Inv(s) && !s.gameStarted && !s.gameOver
    ensures s.remainingTime == GameTime
  {
    State([], 0, 0, false, false, 0, GameTime, false, 0)
  }

  /** Whole seconds in a duration, truncated toward zero as a float-to-int conversion does. */
  function WholeSeconds(nanos: int): (r: int)
    ensures nanos >= 0 ==> 0 <= r && r * NanosPerSecond <= nanos < (r + 1) * NanosPerSecond
    ensures nanos < 0 ==> r <= 0 && (r - 1) * NanosPerSecond < nanos <= r * NanosPerSecond
  {
    if nanos >= 0 then nanos / NanosPerSecond else -((-nanos) / NanosPerSecond)
  }

  /** The seconds left in the round at clock reading `now`, before clamping. */
  function Remaining(s: State, now: int): int
  {
    GameTime - WholeSeconds(now - s.startTime)
  }

  /** The object invariant every reachable state keeps. */
  predicate Inv(s: State)
  {
    |s.bees| <= MaxBees &&
    (forall i :: 0 <= i < |s.bees| ==> s.bees[i].visible) &&
    0 <= s.hornetsClicked <= MaxHornets &&
    (s.hornetsClicked == MaxHornets ==> s.gameOver) &&
    0 <= s.remainingTime && (s.remainingTime == 0 ==> s.gameOver) &&
    0 <= s.score
  }

  /** The first press starts the game and the clock. */
  function Start(s: State, now: int): (r: State)
    ensures r.gameStarted && r.startTime == now
    ensures r.(gameStarted := s.gameStarted, startTime := s.startTime) == s
  {
    s.(gameStarted := true, startTime := now)
  }

  /** A press after the game is over starts a new round. */
  function Restart(s: State, now: int): (r: State)
    ensures r.bees == [] && r.score == 0 && r.hornetsClicked == 0 && !r.gameOver
    ensures r.remainingTime == GameTime && !r.lightningEffect && r.startTime == now
    ensures r.gameStarted == s.gameStarted && r.lightningTimer == s.lightningTimer
    ensures Inv(r)
  {
    s.(bees := [], score := 0, hornetsClicked := 0, gameOver := false,
       startTime := now, remainingTime := GameTime, lightningEffect := false)
  }

  /** Whether this frame spawns a new entity. */
  predicate Spawns(s: State, d: Draws)
  {
    d.spawnRoll < SpawnChance && |s.bees| < MaxBees
  }

  function SpawnStep(s: State, sprites: Sprites, d: Draws): (r: State)
    ensures |r.bees| == |s.bees| + (if Spawns(s, d) then 1 else 0)
    ensures |s.bees| <= MaxBees ==> |r.bees| <= MaxBees
    ensures r.bees[..|s.bees|] == s.bees
    ensures Spawns(s, d) ==> r.bees[|s.bees|].visible && r.bees[|s.bees|] == NewBee(d, sprites)
    ensures r.(bees := s.bees) == s
  {
    if Spawns(s, d) then s.(bees := s.bees + [NewBee(d, sprites)]) else s
  }

  /** One frame of the lightning countdown. */
  function CountDown(s: State): (r: State)
    ensures r.lightningEffect ==> s.lightningEffect
    ensures r.lightningTimer == if s.lightningEffect then s.lightningTimer - 1 else s.lightningTimer
    ensures s.lightningEffect ==> (r.lightningEffect <==> r.lightningTimer > 0)
    ensures r.(lightningEffect := s.lightningEffect, lightningTimer := s.lightningTimer) == s
  {
    if s.lightningEffect then
      var t := s.lightningTimer - 1;
      s.(lightningTimer := t, lightningEffect := t > 0)
    else s
  }

  function MoveStep(s: State): State
  {
    s.(bees := MoveAll(s.bees))
  }

  /** Points for catching a bee: 3 for a fast one, 1 otherwise. */
  function BeePoints(b: Bee): int
  {
    if b.isHighSpeed then 3 else 1
  }

  /** The effect of hitting entity i: hide it, then score it or count the hornet. */
  function ApplyHit(s: State, i: nat): (r: State)
    requires i < |s.bees|
    ensures |r.bees| == |s.bees| && !r.bees[i].visible
    ensures r.bees[i] == s.bees[i].(visible := false)
    ensures forall j :: 0 <= j < |s.bees| && j != i ==> r.bees[j] == s.bees[j]
    ensures s.bees[i].isHornet ==>
      r.hornetsClicked == s.hornetsClicked + 1 && r.score == s.score &&
      r.lightningEffect && r.lightningTimer == LightningFrames &&
      (r.gameOver <==> s.gameOver || r.hornetsClicked >= MaxHornets)
    ensures !s.bees[i].isHornet ==>
      r.hornetsClicked == s.hornetsClicked && r.gameOver == s.gameOver &&
      r.score == s.score + (if s.bees[i].isHighSpeed then 3 else 1) &&
      r.lightningEffect == s.lightningEffect && r.lightningTimer == s.lightningTimer
    ensures r.gameStarted == s.gameStarted && r.startTime == s.startTime &&
      r.remainingTime == s.remainingTime
  {
    var b := s.bees[i];
    var s1 := s.(bees := s.bees[i := b.(visible := false)]);
    if b.isHornet then
      var h := s.hornetsClicked + 1;
      s1.(hornetsClicked := h, lightningEffect := true, lightningTimer := LightningFrames,
          gameOver := s.gameOver || h >= MaxHornets)
    else
      s1.(score := s.score + BeePoints(b))
  }

  function ClickStep(s: State, cx: int, cy: int): (r: State)
    ensures |r.bees| == |s.bees|
    // At most one entity changes: the first one hit, which is hidden.
    ensures FirstHit(s.bees, cx, cy).None? ==> r == s
    ensures forall j :: 0 <= j < |s.bees| && r.bees[j] != s.bees[j] ==>
      FirstHit(s.bees, cx, cy) == Some(j) && !r.bees[j].visible
  {
    match FirstHit(s.bees, cx, cy)
    case None => s
    case Some(i) => ApplyHit(s, i)
  }

  /** The state of a playing frame just before the click is handled. */
  function PreClick(s: State, sprites: Sprites, inp: Input): State
  {
    var s1 := s.(remainingTime := Remaining(s, inp.now));
    MoveStep(CountDown(SpawnStep(s1, sprites, inp.draws)))
  }

  /** Playing: started and not over. */
  predicate Playing(s: State)
  {
    s.gameStarted && !s.gameOver
  }

  /** One call of `Update`. */
  function Tick(s: State, sprites: Sprites, inp: Input): (r: State)
    // Only a press starts the game, and once started it stays started.
    ensures r.gameStarted <==> s.gameStarted || inp.justPressed
    // Outside play, a frame without a press changes nothing.
    ensures !Playing(s) && !inp.justPressed ==> r == s
    // During play, score and hornet count never decrease; the count grows by at most one.
    ensures Playing(s) ==> s.score <= r.score && s.hornetsClicked <= r.hornetsClicked <= s.hornetsClicked + 1
    // During play, the list grows by at most the one spawned entity.
    ensures Playing(s) ==> |r.bees| <= |s.bees| + 1
    // Only the start press and the restart press set the start time.
    ensures Playing(s) ==> r.startTime == s.startTime
  {
    if !s.gameStarted then
      if inp.justPressed then Start(s, inp.now) else s
    else if s.gameOver then
      if inp.justPressed then Restart(s, inp.now) else s
    else if Remaining(s, inp.now) <= 0 then
      s.(gameOver := true, remainingTime := 0)
    else
      var pre := PreClick(s, sprites, inp);
      var clicked := if inp.justPressed then ClickStep(pre, inp.cursorX, inp.cursorY) else pre;
      clicked.(bees := Compact(clicked.bees))
  }

  // ---------------------------------------------------------------------
  // Properties of a frame
  // ---------------------------------------------------------------------

  /** Every frame keeps the invariant. */
  lemma TickKeepsInv(s: State, sprites: Sprites, inp: Input)
    requires Inv(s)
    ensures Inv(Tick(s, sprites, inp))
  {
  }

  /** Before the start, a frame without a press changes nothing; a press only starts the clock. */
  lemma TickBeforeStart(s: State, sprites: Sprites, inp: Input)
    requires !s.gameStarted
    ensures var t := Tick(s, sprites, inp);
      if inp.justPressed then t.gameStarted && t.startTime == inp.now && t.(gameStarted := false, startTime := s.startTime) == s
      else t == s
  {
  }

  /**
   * While over, a frame without a press changes nothing; a press starts a new
   * round with no entities, zero score and hornets, full time and no
   * lightning, and leaves the lightning timer as it was.
   */
  lemma TickWhenOver(s: State, sprites: Sprites, inp: Input)
    requires s.gameStarted && s.gameOver
    ensures var t := Tick(s, sprites, inp);
      if inp.justPressed then
        t.bees == [] && t.score == 0 && t.hornetsClicked == 0 && !t.gameOver &&
        t.remainingTime == GameTime && !t.lightningEffect &&
        t.lightningTimer == s.lightningTimer && t.gameStarted && t.startTime == inp.now &&
        Playing(t)
      else t == s
  {
  }

  /** The round ends exactly once 60 whole seconds have passed since its start. */
  lemma TimeUpExactly(s: State, now: int)
    ensures Remaining(s, now) <= 0 <==> now - s.startTime >= GameTime * NanosPerSecond
  {
  }

  /**
   * When the time is up, the frame ends the game with the remaining time
   * clamped to 0 and leaves entities, score and everything else untouched.
   */
  lemma TickTimeUp(s: State, sprites: Sprites, inp: Input)
    requires Playing(s)
    requires inp.now - s.startTime >= GameTime * NanosPerSecond
    ensures Tick(s, sprites, inp) == s.(gameOver := true, remainingTime := 0)
  {
  }

  /**
   * A playing frame with time left sets the remaining time, spawns at most
   * one entity (only below the cap, as the last entity, visible), counts the
   * lightning down, and moves every entity one step; the start time is kept.
   */
  lemma PreClickSteps(s: State, sprites: Sprites, inp: Input)
    requires Inv(s) && Playing(s) && Remaining(s, inp.now) > 0
    ensures var pre := PreClick(s, sprites, inp);
      var spawned := if Spawns(s, inp.draws) then s.bees + [NewBee(inp.draws, sprites)] else s.bees;
      pre.bees == MoveAll(spawned) &&
      |pre.bees| == |s.bees| + (if Spawns(s, inp.draws) then 1 else 0) <= MaxBees &&
      pre.remainingTime == Remaining(s, inp.now) > 0 &&
      pre.lightningTimer == (if s.lightningEffect then s.lightningTimer - 1 else s.lightningTimer) &&
      pre.lightningEffect == (s.lightningEffect && s.lightningTimer - 1 > 0) &&
      pre.score == s.score && pre.hornetsClicked == s.hornetsClicked &&
      pre.startTime == s.startTime && Playing(pre)
  {
  }

  /** All entities are still visible when the click is handled. */
  lemma PreClickAllVisible(s: State, sprites: Sprites, inp: Input)
    requires Inv(s) && Playing(s) && Remaining(s, inp.now) > 0
    ensures var pre := PreClick(s, sprites, inp).bees;
      forall i :: 0 <= i < |pre| ==> pre[i].visible
  {
  }

  /**
   * A press that hits: the first entity in list order whose box contains the
   * cursor is removed, the others stay in order; a hornet counts against the
   * player, arms the lightning and may end the game, a bee scores 1 or 3.
   */
  lemma TickHit(s: State, sprites: Sprites, inp: Input, i: nat)
    requires Inv(s) && Playing(s) && Remaining(s, inp.now) > 0 && inp.justPressed
    requires FirstHit(PreClick(s, sprites, inp).bees, inp.cursorX, inp.cursorY) == Some(i)
    ensures var pre := PreClick(s, sprites, inp);
      var b := pre.bees[i];
      var t := Tick(s, sprites, inp);
      t.bees == pre.bees[..i] + pre.bees[i + 1..] &&
      t.remainingTime == pre.remainingTime && t.gameStarted &&
      (b.isHornet ==>
        t.hornetsClicked == s.hornetsClicked + 1 && t.score == s.score &&
        t.lightningEffect && t.lightningTimer == LightningFrames &&
        (t.gameOver <==> t.hornetsClicked == MaxHornets)) &&
      (!b.isHornet ==>
        t.score == s.score + (if b.isHighSpeed then 3 else 1) &&
        t.hornetsClicked == s.hornetsClicked && !t.gameOver &&
        t.lightningEffect == pre.lightningEffect && t.lightningTimer == pre.lightningTimer)
    ensures Tick(s, sprites, inp).startTime == s.startTime
  {
    var pre := PreClick(s, sprites, inp);
    PreClickAllVisible(s, sprites, inp);
    CompactRemovesHidden(pre.bees, i);
  }

  /**
   * A frame without a press, or with a press that hits nothing, keeps every
   * moved entity and changes neither score nor hornet count.
   */
  lemma TickNoHit(s: State, sprites: Sprites, inp: Input)
    requires Inv(s) && Playing(s) && Remaining(s, inp.now) > 0
    requires inp.justPressed ==> FirstHit(PreClick(s, sprites, inp).bees, inp.cursorX, inp.cursorY).None?
    ensures Tick(s, sprites, inp) == PreClick(s, sprites, inp)
  {
    var pre := PreClick(s, sprites, inp);
    PreClickAllVisible(s, sprites, inp);
    CompactAllVisible(pre.bees);
  }

  /** During play the score grows by exactly 0, 1 or 3 per frame, and never decreases. */
  lemma TickScoreStep(s: State, sprites: Sprites, inp: Input)
    requires Inv(s) && Playing(s)
    ensures var d := Tick(s, sprites, inp).score - s.score;
      d == 0 || d == 1 || d == 3
  {
  }

  /** During play the hornet count grows by at most one per frame and reaching 3 ends the game. */
  lemma TickHornetStep(s: State, sprites: Sprites, inp: Input)
    requires Inv(s) && Playing(s)
    ensures var t := Tick(s, sprites, inp);
      (t.hornetsClicked == s.hornetsClicked || t.hornetsClicked == s.hornetsClicked + 1) &&
      t.hornetsClicked <= MaxHornets && (t.hornetsClicked == MaxHornets ==> t.gameOver)
  {
  }

  /** Catching a single slow bee at the cursor scores 1 and empties the list. */
  lemma CatchOneBee()
    ensures var bee := Bee(100.0, 100.0, 0.0, 0.0, 20, 20, false, false, true);
      var s := State([bee], 0, 0, false, true, 0, GameTime, false, 0);
      var inp := Input(true, 105, 105, 1_000_000_000, Draws(0.5, 0.5, 0.5, 0, 0, 0.5, 0.5));
      var t := Tick(s, Sprites(Size(40, 40), Size(40, 40)), inp);
      t.score == 1 && t.bees == []
  {
  }
}
