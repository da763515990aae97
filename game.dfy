/**
 * The game object of app/bee/main.go: its fields, `addBee` and the per-frame
 * `Update`, written as the source writes them (in-place field updates, a
 * movement loop, a hit-test loop that stops at the first hit, and a loop that
 * rebuilds the entity list), and proved to do what `GameState.Tick` says.
 */
module BeeGame {
  import opened Entities
  import opened GameState

  class Game {
    var bees: seq<Bee>
    var score: int
    var hornetsClicked: int
    var gameOver: bool
    var gameStarted: bool
    var startTime: int
    var remainingTime: int
    var lightningEffect: bool
    var lightningTimer: int
    // The sprite sizes, fixed once the images are loaded.
    const sprites: Sprites

    /** The fields as a value of GameState. */
    function Snapshot(): State
      reads this
    {
      State(bees, score, hornetsClicked, gameOver, gameStarted, startTime,
            remainingTime, lightningEffect, lightningTimer)
    }

    ghost predicate Valid()
      reads this
    {
      Inv(Snapshot())
    }

    /** `NewGame`, with the sprite sizes of the loaded images. */
    constructor (sprites: Sprites)
      ensures Valid()
      ensures this.sprites == sprites && Snapshot() == Initial()
    {
      this.sprites := sprites;
      bees := [];
      score := 0;
      hornetsClicked := 0;
      gameOver := false;
      gameStarted := false;
      startTime := 0;
      remainingTime := GameTime;
      lightningEffect := false;
      lightningTimer := 0;
    }

    /** `addBee`: append the entity the draws describe. */
    method AddBee(d: Draws)
      modifies this
      ensures Snapshot() == old(Snapshot()).(bees := old(bees) + [NewBee(d, sprites)])
    {
      var isHornet := d.hornetRoll < HornetChance;
      var isHighSpeed := d.speedRoll < HighSpeedChance;
      var img := if isHornet then sprites.hornet else sprites.bee;
      var width, height := img.w / 2, img.h / 2;
      var speedBase := 2.0;
      if isHighSpeed {
        speedBase := 5.0;
      }
      var bee := Bee(d.xPick as real, d.yPick as real,
                     (d.speedXRoll * 2.0 - 1.0) * speedBase, (d.speedYRoll * 2.0 - 1.0) * speedBase,
                     width, height, isHornet, isHighSpeed, true);
      bees := bees + [bee];
    }

    /** One frame. */
    method Update(inp: Input)
      requires Valid()
      modifies this
      ensures Valid()
      ensures Snapshot() == Tick(old(Snapshot()), sprites, inp)
    {
      TickKeepsInv(Snapshot(), sprites, inp);
      if !gameStarted {
        if inp.justPressed {
          gameStarted := true;
          startTime := inp.now;
        }
        return;
      }

      if gameOver {
        if inp.justPressed {
          bees := [];
          score := 0;
          hornetsClicked := 0;
          gameOver := false;
          startTime := inp.now;
          remainingTime := GameTime;
          lightningEffect := false;
        }
        return;
      }

      ghost var s0 := Snapshot();
      remainingTime := GameTime - WholeSeconds(inp.now - startTime);
      if remainingTime <= 0 {
        gameOver := true;
        remainingTime := 0;
        return;
      }
      ghost var s1 := Snapshot();
      assert s1 == s0.(remainingTime := Remaining(s0, inp.now));

      Advance(inp.draws);
      ghost var pre := Snapshot();
      assert pre == PreClick(s0, sprites, inp);
      if inp.justPressed {
        HandleClick(inp.cursorX, inp.cursorY);
      }
      ghost var clicked := Snapshot();
      assert clicked == if inp.justPressed then ClickStep(pre, inp.cursorX, inp.cursorY) else pre;
      RemoveInvisible();
      assert Snapshot() == clicked.(bees := Compact(clicked.bees));
      assert Tick(s0, sprites, inp) == clicked.(bees := Compact(clicked.bees));
    }

    /** Spawning, the lightning countdown and movement, in the order of `Update`. */
    method Advance(d: Draws)
      modifies this
      ensures Snapshot() == MoveStep(CountDown(SpawnStep(old(Snapshot()), sprites, d)))
    {
      if d.spawnRoll < SpawnChance && |bees| < MaxBees {
        AddBee(d);
      }
      ghost var spawned := Snapshot();
      assert spawned == SpawnStep(old(Snapshot()), sprites, d);

      if lightningEffect {
        lightningTimer := lightningTimer - 1;
        if lightningTimer <= 0 {
          lightningEffect := false;
        }
      }
      assert Snapshot() == CountDown(spawned);

      MoveBees();
    }

    /** The movement loop of `Update`: move every visible entity one step and bounce it. */
    method MoveBees()
      modifies this
      ensures Snapshot() == MoveStep(old(Snapshot()))
    {
      var i := 0;
      while i < |bees|
        invariant 0 <= i <= |bees| == |old(bees)|
        invariant forall k :: 0 <= k < i ==> bees[k] == Move(old(bees)[k])
        invariant forall k :: i <= k < |bees| ==> bees[k] == old(bees)[k]
        invariant Snapshot() == old(Snapshot()).(bees := bees)
      {
        if bees[i].visible {
          var b := bees[i];
          b := b.(x := b.x + b.speedX, y := b.y + b.speedY);
          if b.x <= 0.0 || b.x >= (ScreenWidth - b.width) as real {
            b := b.(speedX := -b.speedX);
          }
          if b.y <= 0.0 || b.y >= (ScreenHeight - b.height) as real {
            b := b.(speedY := -b.speedY);
          }
          bees := bees[i := b];
        }
        i := i + 1;
      }
    }

    /**
     * The click handling of `Update`: find the first visible entity in list
     * order whose box contains (cx, cy), hide it, and score it.
     */
    method HandleClick(cx: int, cy: int)
      modifies this
      ensures Snapshot() == ClickStep(old(Snapshot()), cx, cy)
    {
      var j := 0;
      while j < |bees|
        invariant 0 <= j <= |bees|
        invariant Snapshot() == old(Snapshot())
        invariant forall k :: 0 <= k < j ==> !Hits(bees[k], cx, cy)
      {
        if bees[j].visible {
          var b := bees[j];
          if cx as real >= b.x && cx as real <= b.x + b.width as real &&
             cy as real >= b.y && cy as real <= b.y + b.height as real
          {
            assert FirstHit(bees, cx, cy) == Some(j);
            bees := bees[j := b.(visible := false)];
            if b.isHornet {
              hornetsClicked := hornetsClicked + 1;
              lightningEffect := true;
              lightningTimer := LightningFrames;
              if hornetsClicked >= MaxHornets {
                gameOver := true;
              }
            } else {
              if b.isHighSpeed {
                score := score + 3;
              } else {
                score := score + 1;
              }
            }
            return;
          }
        }
        j := j + 1;
      }
    }

    /** The last loop of `Update`: rebuild the list from its visible entities, in order. */
    method RemoveInvisible()
      modifies this
      ensures Snapshot() == old(Snapshot()).(bees := Compact(old(bees)))
    {
      var newBees: seq<Bee> := [];
      for k := 0 to |bees|
        invariant newBees == Compact(bees[..k])
      {
        if bees[k].visible {
          newBees := newBees + [bees[k]];
        }
        assert bees[..k + 1][..k] == bees[..k];
      }
      assert bees[..|bees|] == bees;
      bees := newBees;
    }
  }
}
