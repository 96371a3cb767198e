/**
 * The per-tick step rule of each actor kind: `Player.update`, `Lava.update` and
 * `Coin.update`. Each reads only the level of the pre-tick state and returns a new actor.
 */
module Motion {
  import opened Wrappers
  import opened Vectors
  import opened Actors
  import opened Levels

  const PlayerXSpeed: real := 7.0
  const Gravity: real := 30.0
  const JumpSpeed: real := 17.0
  const WobbleSpeed: real := 8.0
  const WobbleDist: real := 0.07

  /** The arrow keys held during the tick. */
  datatype Keys = Keys(arrowLeft: bool, arrowRight: bool, arrowUp: bool)

  /** The horizontal speed the arrow keys ask for: the two keys' speeds are added. */
  function WalkSpeed(keys: Keys): (v: real)
    ensures keys.arrowLeft && !keys.arrowRight ==> v == -PlayerXSpeed
    ensures keys.arrowRight && !keys.arrowLeft ==> v == PlayerXSpeed
    ensures keys.arrowLeft == keys.arrowRight ==> v == 0.0
  {
    (if keys.arrowLeft then -PlayerXSpeed else 0.0) + (if keys.arrowRight then PlayerXSpeed else 0.0)
  }

  /** The vertical speed after gravity has acted for `time`. */
  function FallSpeed(player: Actor, time: real): real
    requires player.Player?
  {
    player.speed.y + time * Gravity
  }

  /**
   * The player's position after the horizontal move is tried: moved by
   * `WalkSpeed * time` when that box is free of walls, unmoved otherwise.
   */
  function AfterWalk(player: Actor, time: real, level: Level, keys: Keys): (pos: Vec)
    requires player.Player?
    ensures pos.y == player.pos.y
  {
    var movedX := player.pos.Plus(Vec(WalkSpeed(keys) * time, 0.0));
    if !Touches(level, movedX, PlayerSize, Wall) then movedX else player.pos
  }

  /** The horizontal move is taken exactly when its target box touches no wall. */
  lemma WalkTakenWhenClear(player: Actor, time: real, level: Level, keys: Keys)
    requires player.Player?
    ensures var target := player.pos.Plus(Vec(WalkSpeed(keys) * time, 0.0));
            AfterWalk(player, time, level, keys) == if Touches(level, target, PlayerSize, Wall) then player.pos else target
  {
  }

  /** The box position the vertical move aims at: `from` moved down by the new vertical speed times `time`. */
  function FallTarget(player: Actor, from: Vec, time: real): Vec
    requires player.Player?
  {
    from.Plus(Vec(0.0, FallSpeed(player, time) * time))
  }

  /**
   * `r` is the outcome of the vertical half of `Player.update` from the position `from`
   * the horizontal move left: the gravity-integrated move when its box is wall-free;
   * if blocked, the player stays at `from` and either starts a jump (up held while
   * falling) or stops.
   */
  predicate FallsFrom(player: Actor, from: Vec, time: real, level: Level, keys: Keys, r: Actor)
    requires player.Player? && r.Player?
  {
    var ySpeed := FallSpeed(player, time);
    var target := FallTarget(player, from, time);
    if Touches(level, target, PlayerSize, Wall) then
      r.pos == from && r.speed.y == (if keys.arrowUp && ySpeed > 0.0 then -JumpSpeed else 0.0)
    else
      r.pos == target && r.speed.y == ySpeed
  }

  /** The vertical half of `Player.update`, from the position `from` the horizontal move left. */
  function Fall(player: Actor, from: Vec, time: real, level: Level, keys: Keys): (r: Actor)
    requires player.Player?
    ensures r.Player? && r.speed.x == WalkSpeed(keys)
    ensures FallsFrom(player, from, time, level, keys, r)
  {
    var xSpeed := WalkSpeed(keys);
    var ySpeed := FallSpeed(player, time);
    var movedY := FallTarget(player, from, time);
    if !Touches(level, movedY, PlayerSize, Wall) then
      Player(movedY, Vec(xSpeed, ySpeed))
    else if keys.arrowUp && ySpeed > 0.0 then
      Player(from, Vec(xSpeed, -JumpSpeed))
    else
      Player(from, Vec(xSpeed, 0.0))
  }

  /**
   * `Player.update`: the horizontal move is taken only if its target box is free of
   * walls, then the vertical move by the gravity-integrated speed likewise; a blocked
   * vertical move either starts a jump (up held while falling) or stops.
   */
  function PlayerUpdate(player: Actor, time: real, level: Level, keys: Keys): (r: Actor)
    requires player.Player?
    ensures r.Player? && r.speed.x == WalkSpeed(keys)
    ensures FallsFrom(player, AfterWalk(player, time, level, keys), time, level, keys, r)
  {
    Fall(player, AfterWalk(player, time, level, keys), time, level, keys)
  }

  /**
   * While the vertical move is not blocked, gravity only ever speeds the fall: a
   * tick of `time` adds 30 per unit of time to the vertical speed, so it never
   * decreases, and gravity acting on from there adds up as over one longer step.
   */
  lemma FallSpeedGrows(player: Actor, time: real, later: real, level: Level, keys: Keys)
    requires player.Player? && time >= 0.0
    requires !Touches(level, FallTarget(player, AfterWalk(player, time, level, keys), time), PlayerSize, Wall)
    ensures PlayerUpdate(player, time, level, keys).speed.y == player.speed.y + time * Gravity
    ensures PlayerUpdate(player, time, level, keys).speed.y >= player.speed.y
    ensures FallSpeed(PlayerUpdate(player, time, level, keys), later) == FallSpeed(player, time + later)
  {
  }

  /**
   * A player at rest on the ground with no key held stays exactly where it is: the
   * horizontal move is by zero, the fall is blocked, and the vertical speed stays 0.
   */
  lemma RestingPlayerStaysPut(player: Actor, time: real, level: Level)
    requires player.Player? && player.speed == Vec(0.0, 0.0)
    requires Touches(level, FallTarget(player, player.pos, time), PlayerSize, Wall)
    ensures PlayerUpdate(player, time, level, Keys(false, false, false)) == player
  {
  }

  /** A player clear of walls stays clear of walls: every move it makes lands on a wall-free box. */
  lemma PlayerStaysClear(player: Actor, time: real, level: Level, keys: Keys)
    requires player.Player? && !Touches(level, player.pos, PlayerSize, Wall)
    ensures !Touches(level, PlayerUpdate(player, time, level, keys).pos, PlayerSize, Wall)
  {
  }

  /**
   * `Lava.update`: move by `speed * time` when the target is wall-free; otherwise a
   * dripping block goes back to its reset point and a bouncing one reverses.
   */
  function LavaUpdate(lava: Actor, time: real, level: Level): (r: Actor)
    requires lava.Lava?
    ensures r.Lava? && r.reset == lava.reset
    ensures var target := lava.pos.Plus(lava.speed.Times(time));
            !Touches(level, target, LavaSize, Wall) ==> r.pos == target && r.speed == lava.speed
    ensures var target := lava.pos.Plus(lava.speed.Times(time));
            Touches(level, target, LavaSize, Wall) && lava.reset.Some? ==>
              r.pos == lava.reset.value && r.speed == lava.speed
    ensures var target := lava.pos.Plus(lava.speed.Times(time));
            Touches(level, target, LavaSize, Wall) && lava.reset.None? ==>
              r.pos == lava.pos && r.speed.x == -lava.speed.x && r.speed.y == -lava.speed.y
    // a dripping block never changes its speed
    ensures lava.reset.Some? ==> r.speed == lava.speed
  {
    var newPos := lava.pos.Plus(lava.speed.Times(time));
    if !Touches(level, newPos, LavaSize, Wall) then Lava(newPos, lava.speed, lava.reset)
    else if lava.reset.Some? then Lava(lava.reset.value, lava.speed, lava.reset)
    else Lava(lava.pos, lava.speed.Times(-1.0), None)
  }

  /**
   * A hazard whose position (and reset point, if any) is clear of walls is still
   * clear of walls after a step.
   */
  lemma LavaStaysClear(lava: Actor, time: real, level: Level)
    requires lava.Lava? && !Touches(level, lava.pos, LavaSize, Wall)
    requires lava.reset.Some? ==> !Touches(level, lava.reset.value, LavaSize, Wall)
    ensures !Touches(level, LavaUpdate(lava, time, level).pos, LavaSize, Wall)
  {
  }

  /**
   * A bouncing hazard blocked in both directions at the same spot alternates:
   * two steps give back the very same hazard.
   */
  lemma BounceAlternates(lava: Actor, time: real, level: Level)
    requires lava.Lava? && lava.reset.None?
    requires Touches(level, lava.pos.Plus(lava.speed.Times(time)), LavaSize, Wall)
    requires Touches(level, lava.pos.Plus(lava.speed.Times(-1.0).Times(time)), LavaSize, Wall)
    ensures LavaUpdate(lava, time, level).speed == lava.speed.Times(-1.0)
    ensures LavaUpdate(LavaUpdate(lava, time, level), time, level) == lava
  {
    NegateTwice(lava.speed);
  }

  /**
   * `Coin.update`: the phase advances by `time * 8` and the coin is drawn `sin(phase) * 0.07`
   * below its base. `sin` stands for `Math.sin`.
   */
  function CoinUpdate(coin: Actor, time: real, sin: real -> real): (r: Actor)
    requires coin.Coin?
    ensures r.Coin? && r.basePos == coin.basePos
    ensures r.wobble == coin.wobble + time * WobbleSpeed
    ensures r.pos.x == coin.basePos.x && r.pos.y == coin.basePos.y + sin(r.wobble) * WobbleDist
  {
    var wobble := coin.wobble + time * WobbleSpeed;
    var wobblePos := sin(wobble) * WobbleDist;
    Coin(coin.basePos.Plus(Vec(0.0, wobblePos)), coin.basePos, wobble)
  }

  /** With a sine bounded by 1 the coin never strays more than 0.07 from its base. */
  lemma CoinStaysNearBase(coin: Actor, time: real, sin: real -> real)
    requires coin.Coin?
    requires -1.0 <= sin(coin.wobble + time * WobbleSpeed) <= 1.0
    ensures var r := CoinUpdate(coin, time, sin);
            r.pos.x == coin.basePos.x && -WobbleDist <= r.pos.y - coin.basePos.y <= WobbleDist
  {
  }

  /** Two coin steps make one step of the summed time. */
  lemma CoinStepsCompose(coin: Actor, t1: real, t2: real, sin: real -> real)
    requires coin.Coin?
    ensures CoinUpdate(CoinUpdate(coin, t1, sin), t2, sin) == CoinUpdate(coin, t1 + t2, sin)
  {
  }

  /** `actor.update(time, state, keys)`: dispatch on the kind; the kind never changes. */
  function ActorUpdate(a: Actor, time: real, level: Level, keys: Keys, sin: real -> real): (r: Actor)
    ensures KindOf(r) == KindOf(a)
  {
    match a
    case Player(_, _) => PlayerUpdate(a, time, level, keys)
    case Lava(_, _, _) => LavaUpdate(a, time, level)
    case Coin(_, _, _) => CoinUpdate(a, time, sin)
  }
}
