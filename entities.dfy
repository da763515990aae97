/**
 * The moving entities of the bee catching game (app/bee/main.go): bees and
 * hornets, how one is spawned, how it moves and bounces, how a click point is
 * tested against it, and how the list of entities is compacted.
 */
module Entities {

  // Logical screen size in pixels.
  const ScreenWidth: int := 800
  const ScreenHeight: int := 600

  // Spawning: at most MaxBees entities, a spawn chance per tick, and the
  // chances for a new entity to be a hornet and to be fast.
  const MaxBees: int := 10
  const SpawnChance: real := 0.05
  const HornetChance: real := 0.2
  const HighSpeedChance: real := 0.1

  // Largest speed component of a normal and of a fast entity.
  const NormalSpeed: real := 2.0
  const FastSpeed: real := 5.0

  datatype Option<T> = None | Some(value: T)

  /** One entity; `isHornet` distinguishes a hornet from a bee. */
  datatype Bee = Bee(
    x: real, y: real,
    speedX: real, speedY: real,
    width: int, height: int,
    isHornet: bool, isHighSpeed: bool,
    visible: bool)

  /** The pixel size of a decoded sprite image. */
  datatype Size = Size(w: nat, h: nat)

  /** The two sprite images an entity can be drawn with. */
  datatype Sprites = Sprites(bee: Size, hornet: Size)

  /**
   * The random numbers one tick may consume: the results of the three
   * `rand.Float64()` rolls deciding spawn, kind and speed tier, the two
   * `rand.Intn` results for the initial position, and the two
   * `rand.Float64()` rolls for the speed components.
   */
  datatype Draws = Draws(
    spawnRoll: real, hornetRoll: real, speedRoll: real,
    xPick: int, yPick: int,
    speedXRoll: real, speedYRoll: real)

  predicate IsUnitRoll(r: real) { 0.0 <= r < 1.0 }

  /** The hitbox of a new entity is half the size of its sprite. */
  function Hitbox(sprites: Sprites, isHornet: bool): Size
  {
    var img := if isHornet then sprites.hornet else sprites.bee;
    Size(img.w / 2, img.h / 2)
  }

  function SpeedBase(isHighSpeed: bool): real
  {
    if isHighSpeed then FastSpeed else NormalSpeed
  }

  /**
   * The draws are what the random library can return: every roll in [0, 1)
   * and each `rand.Intn(n)` result in [0, n), where n is the screen size
   * minus the hitbox.
   */
  predicate DrawsInRange(d: Draws, sprites: Sprites)
  {
    var hb := Hitbox(sprites, d.hornetRoll < HornetChance);
    IsUnitRoll(d.spawnRoll) && IsUnitRoll(d.hornetRoll) && IsUnitRoll(d.speedRoll) &&
    IsUnitRoll(d.speedXRoll) && IsUnitRoll(d.speedYRoll) &&
    0 <= d.xPick < ScreenWidth - hb.w &&
    0 <= d.yPick < ScreenHeight - hb.h
  }

  /** A speed component `(roll*2 - 1) * base` lies in [-base, base). */
  function SpeedComponent(roll: real, isHighSpeed: bool): (v: real)
    ensures IsUnitRoll(roll) ==> -SpeedBase(isHighSpeed) <= v < SpeedBase(isHighSpeed)
  {
    (roll * 2.0 - 1.0) * SpeedBase(isHighSpeed)
  }

  /** The entity `addBee` creates from the given draws. */
  function NewBee(d: Draws, sprites: Sprites): (b: Bee)
    ensures b.visible
    ensures b.isHornet <==> d.hornetRoll < HornetChance
    ensures b.isHighSpeed <==> d.speedRoll < HighSpeedChance
    ensures b.width == Hitbox(sprites, b.isHornet).w && b.height == Hitbox(sprites, b.isHornet).h
    // Spawned fully on screen, moving no faster than its tier allows.
    ensures DrawsInRange(d, sprites) ==>
      0.0 <= b.x && b.x + b.width as real < ScreenWidth as real &&
      0.0 <= b.y && b.y + b.height as real < ScreenHeight as real
    ensures DrawsInRange(d, sprites) ==>
      -SpeedBase(b.isHighSpeed) <= b.speedX < SpeedBase(b.isHighSpeed) &&
      -SpeedBase(b.isHighSpeed) <= b.speedY < SpeedBase(b.isHighSpeed)
  {
    var isHornet := d.hornetRoll < HornetChance;
    var isHighSpeed := d.speedRoll < HighSpeedChance;
    var hb := Hitbox(sprites, isHornet);
    Bee(d.xPick as real, d.yPick as real,
        SpeedComponent(d.speedXRoll, isHighSpeed), SpeedComponent(d.speedYRoll, isHighSpeed),
        hb.w, hb.h, isHornet, isHighSpeed, true)
  }

  /** At or past the left or right wall, for an entity of the given width. */
  predicate AtXWall(x: real, width: int)
  {
    x <= 0.0 || x >= (ScreenWidth - width) as real
  }

  /** At or past the top or bottom wall, for an entity of the given height. */
  predicate AtYWall(y: real, height: int)
  {
    y <= 0.0 || y >= (ScreenHeight - height) as real
  }

  /**
   * One movement step: a visible entity advances by its speed, and a speed
   * component is reversed when the new position is at or past a wall on that
   * axis. An invisible entity does not move.
   */
  function Move(b: Bee): (r: Bee)
    ensures r.width == b.width && r.height == b.height && r.visible == b.visible
    ensures r.isHornet == b.isHornet && r.isHighSpeed == b.isHighSpeed
    ensures !b.visible ==> r == b
    ensures b.visible ==> r.x == b.x + b.speedX && r.y == b.y + b.speedY
    ensures r.speedX == b.speedX || r.speedX == -b.speedX
    ensures r.speedY == b.speedY || r.speedY == -b.speedY
    // With a non-zero speed, the component changes exactly at a wall.
    ensures b.visible && b.speedX != 0.0 ==> (r.speedX != b.speedX <==> AtXWall(r.x, b.width))
    ensures b.visible && b.speedY != 0.0 ==> (r.speedY != b.speedY <==> AtYWall(r.y, b.height))
  {
    if !b.visible then b
    else
      var nx := b.x + b.speedX;
      var ny := b.y + b.speedY;
      b.(x := nx, y := ny,
         speedX := if AtXWall(nx, b.width) then -b.speedX else b.speedX,
         speedY := if AtYWall(ny, b.height) then -b.speedY else b.speedY)
  }

  /** The movement step applied to every entity of the list. */
  function MoveAll(bees: seq<Bee>): (r: seq<Bee>)
    ensures |r| == |bees|
    ensures forall i :: 0 <= i < |bees| ==> r[i] == Move(bees[i])
  {
    seq(|bees|, i requires 0 <= i < |bees| => Move(bees[i]))
  }

  /** `n` movement steps. */
  function MoveN(b: Bee, n: nat): Bee
  {
    if n == 0 then b else Move(MoveN(b, n - 1))
  }

  /** Flight at constant speed for `n` steps, walls ignored. */
  function Glide(b: Bee, n: nat): Bee
  {
    if n == 0 then b
    else
      var g := Glide(b, n - 1);
      g.(x := g.x + b.speedX, y := g.y + b.speedY)
  }

  /** Constant-speed flight puts the entity at its start plus `n` times its speed. */
  lemma {:induction false} GlideAt(b: Bee, n: nat)
    ensures Glide(b, n) == b.(x := b.x + n as real * b.speedX, y := b.y + n as real * b.speedY)
  {
    if n > 0 {
      GlideAt(b, n - 1);
      var m := (n - 1) as real;
      assert m * b.speedX + b.speedX == n as real * b.speedX;
      assert m * b.speedY + b.speedY == n as real * b.speedY;
    }
  }

  /** Strictly inside the walls on both axes. */
  predicate ClearOfWalls(b: Bee)
  {
    !AtXWall(b.x, b.width) && !AtYWall(b.y, b.height)
  }

  /**
   * An entity that meets no wall during `n` steps flies straight: it ends at
   * its start position plus `n` times its speed, with the speed unchanged.
   */
  lemma {:induction false} StraightFlight(b: Bee, n: nat)
    requires b.visible
    requires forall k :: 1 <= k <= n ==> ClearOfWalls(Glide(b, k))
    ensures MoveN(b, n) == Glide(b, n)
    ensures MoveN(b, n) == b.(x := b.x + n as real * b.speedX, y := b.y + n as real * b.speedY)
  {
    if n > 0 {
      StraightFlight(b, n - 1);
      assert ClearOfWalls(Glide(b, n));
    }
    GlideAt(b, n);
  }

  /** The click point (cx, cy) lies in the box of a visible entity, edges included. */
  predicate Hits(b: Bee, cx: int, cy: int)
    ensures Hits(b, cx, cy) ==> b.visible
    // The corners of the box count as inside it.
    ensures (b.visible && b.width >= 0 && b.height >= 0 &&
             (cx as real == b.x || cx as real == b.x + b.width as real) &&
             (cy as real == b.y || cy as real == b.y + b.height as real)) ==> Hits(b, cx, cy)
  {
    b.visible &&
    cx as real >= b.x && cx as real <= b.x + b.width as real &&
    cy as real >= b.y && cy as real <= b.y + b.height as real
  }

  /** The index of the first entity, in list order, that the click point hits. */
  function FirstHit(bees: seq<Bee>, cx: int, cy: int): (r: Option<nat>)
    ensures r.Some? ==>
      r.value < |bees| && Hits(bees[r.value], cx, cy) &&
      forall j :: 0 <= j < r.value ==> !Hits(bees[j], cx, cy)
    ensures r.None? ==> forall j :: 0 <= j < |bees| ==> !Hits(bees[j], cx, cy)
  {
    if bees == [] then None
    else if Hits(bees[0], cx, cy) then Some(0)
    else match FirstHit(bees[1..], cx, cy)
      case None => None
      case Some(k) => Some(k + 1)
  }

  /** The visible entities of the list, in their original order. */
  function Compact(bees: seq<Bee>): (r: seq<Bee>)
    ensures |r| <= |bees|
    ensures forall i :: 0 <= i < |r| ==> r[i].visible
  {
    if bees == [] then []
    else
      var last := bees[|bees| - 1];
      Compact(bees[..|bees| - 1]) + (if last.visible then [last] else [])
  }

  /** Compact distributes over concatenation: it keeps the order of the list. */
  lemma {:induction false} CompactAppend(s: seq<Bee>, t: seq<Bee>)
    ensures Compact(s + t) == Compact(s) + Compact(t)
  {
    if t == [] {
      assert s + t == s;
    } else {
      var t' := t[..|t| - 1];
      assert (s + t)[..|s + t| - 1] == s + t';
      assert (s + t)[|s + t| - 1] == t[|t| - 1];
      CompactAppend(s, t');
    }
  }

  /** An entity survives compaction exactly when it is in the list and visible. */
  lemma {:induction false} CompactMembers(s: seq<Bee>, b: Bee)
    ensures b in Compact(s) <==> b in s && b.visible
  {
    if s != [] {
      var init := s[..|s| - 1];
      assert s == init + [s[|s| - 1]];
      CompactMembers(init, b);
    }
  }

  /** A list of visible entities is left as it is. */
  lemma {:induction false} CompactAllVisible(s: seq<Bee>)
    requires forall i :: 0 <= i < |s| ==> s[i].visible
    ensures Compact(s) == s
  {
    if s != [] {
      var init := s[..|s| - 1];
      CompactAllVisible(init);
      assert init + [s[|s| - 1]] == s;
    }
  }

  /**
   * Hiding the entity at index i of a list of visible entities and then
   * compacting removes exactly that entity and keeps the others in order.
   */
  lemma CompactRemovesHidden(s: seq<Bee>, i: nat)
    requires i < |s|
    requires forall k :: 0 <= k < |s| ==> s[k].visible
    ensures Compact(s[i := s[i].(visible := false)]) == s[..i] + s[i + 1..]
    ensures |Compact(s[i := s[i].(visible := false)])| == |s| - 1
  {
    var hidden := s[i].(visible := false);
    assert s[i := hidden] == s[..i] + [hidden] + s[i + 1..];
    CompactAppend(s[..i] + [hidden], s[i + 1..]);
    CompactAppend(s[..i], [hidden]);
    assert Compact([hidden]) == [] by {
      assert [hidden][..0] == [];
    }
    CompactAllVisible(s[..i]);
    CompactAllVisible(s[i + 1..]);
  }
}
