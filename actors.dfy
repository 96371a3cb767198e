/**
 * The three actor kinds (`Player`, `Lava`, `Coin`), their fixed sizes,
 * how each is created from a level glyph, and the box overlap test.
 */
module Actors {
  import opened Wrappers
  import opened Vectors

  /**
   * An actor is a value: `update` and `collide` build new ones.
   * A `Lava` with a `reset` point is a dripping block; without one it bounces.
   * A `Coin` bobs around `basePos`; `wobble` is its phase.
   */
  datatype Actor =
    | Player(pos: Vec, speed: Vec)
    | Lava(pos: Vec, speed: Vec, reset: Option<Vec>)
    | Coin(pos: Vec, basePos: Vec, wobble: real)

  const PlayerSize := Vec(0.8, 1.5)
  const LavaSize := Vec(1.0, 1.0)
  const CoinSize := Vec(0.6, 0.6)

  /** The per-kind `size` shared by all actors of that kind. */
  function Size(a: Actor): (s: Vec)
    ensures s.x > 0.0 && s.y > 0.0
  {
    match a
    case Player(_, _) => PlayerSize
    case Lava(_, _, _) => LavaSize
    case Coin(_, _, _) => CoinSize
  }

  /** The kind an actor's `type` getter names. */
  datatype Kind = PlayerKind | LavaKind | CoinKind

  function KindOf(a: Actor): Kind
  {
    match a
    case Player(_, _) => PlayerKind
    case Lava(_, _, _) => LavaKind
    case Coin(_, _, _) => CoinKind
  }

  /**
   * `Player.create`: the player is half a cell taller than a cell, so it is lifted by
   * half a cell and its feet rest on the bottom edge of its glyph's cell; it starts at rest.
   */
  function PlayerCreate(pos: Vec): (a: Actor)
    ensures a.Player? && a.speed == Vec(0.0, 0.0)
    ensures a.pos.x == pos.x && a.pos.y + PlayerSize.y == pos.y + 1.0
  {
    Player(pos.Plus(Vec(0.0, -0.5)), Vec(0.0, 0.0))
  }

  /** The glyphs `Lava.create` understands. */
  predicate IsLavaGlyph(ch: char)
  {
    ch == '=' || ch == '|' || ch == 'v'
  }

  /**
   * `Lava.create`: the block fills its cell; `=` moves right at 2, `|` down at 2,
   * and `v` drips down at 3 and remembers its cell as the reset point.
   */
  function LavaCreate(pos: Vec, ch: char): (a: Actor)
    requires IsLavaGlyph(ch)
    ensures a.Lava? && a.pos == pos
    ensures a.reset.Some? <==> ch == 'v'
    ensures a.reset.Some? ==> a.reset.value == pos
    ensures ch == '=' ==> a.speed == Vec(2.0, 0.0)
    ensures ch == '|' ==> a.speed == Vec(0.0, 2.0)
    ensures ch == 'v' ==> a.speed == Vec(0.0, 3.0)
  {
    if ch == '=' then Lava(pos, Vec(2.0, 0.0), None)
    else if ch == '|' then Lava(pos, Vec(0.0, 2.0), None)
    else Lava(pos, Vec(0.0, 3.0), Some(pos))
  }

  /**
   * `Coin.create`: the coin sits inside its cell, centred across it, and starts
   * at its base position. `wobble` stands for the random phase the source draws.
   */
  function CoinCreate(pos: Vec, wobble: real): (a: Actor)
    ensures a.Coin? && a.pos == a.basePos && a.wobble == wobble
    ensures pos.x <= a.basePos.x && a.basePos.x + CoinSize.x <= pos.x + 1.0
    ensures pos.y <= a.basePos.y && a.basePos.y + CoinSize.y <= pos.y + 1.0
    ensures a.basePos.x + CoinSize.x / 2.0 == pos.x + 0.5
    ensures a.basePos == Vec(pos.x + 0.2, pos.y + 0.1)
  {
    var basePos := pos.Plus(Vec(0.2, 0.1));
    Coin(basePos, basePos, wobble)
  }

  /** The point `p` lies in the half-open box `[pos, pos + size)` of `a`. */
  predicate InBox(a: Actor, p: Vec)
  {
    && a.pos.x <= p.x < a.pos.x + Size(a).x
    && a.pos.y <= p.y < a.pos.y + Size(a).y
  }

  /**
   * `overlap`: strict comparisons on all four sides. When it holds, the corner
   * where the later-starting box begins lies in both boxes.
   */
  function Overlap(a1: Actor, a2: Actor): (b: bool)
    ensures b ==> var corner := Vec(Max(a1.pos.x, a2.pos.x), Max(a1.pos.y, a2.pos.y));
                  InBox(a1, corner) && InBox(a2, corner)
  {
    && a1.pos.x + Size(a1).x > a2.pos.x
    && a1.pos.x < a2.pos.x + Size(a2).x
    && a1.pos.y + Size(a1).y > a2.pos.y
    && a1.pos.y < a2.pos.y + Size(a2).y
  }

  function Max(u: real, v: real): real
  {
    if u < v then v else u
  }

  /**
   * The test is exact for the actors' half-open boxes: it holds exactly when
   * some point lies in both. It is therefore symmetric, and boxes that only
   * share an edge do not overlap.
   */
  lemma OverlapIffSharedPoint(a1: Actor, a2: Actor)
    ensures Overlap(a1, a2) <==> exists p :: InBox(a1, p) && InBox(a2, p)
  {
    if Overlap(a1, a2) {
      var px := if a1.pos.x < a2.pos.x then a2.pos.x else a1.pos.x;
      var py := if a1.pos.y < a2.pos.y then a2.pos.y else a1.pos.y;
      assert InBox(a1, Vec(px, py)) && InBox(a2, Vec(px, py));
    }
  }

  lemma OverlapSymmetric(a1: Actor, a2: Actor)
    ensures Overlap(a1, a2) == Overlap(a2, a1)
  {
    OverlapIffSharedPoint(a1, a2);
    OverlapIffSharedPoint(a2, a1);
  }

  /** Boxes that meet along a vertical or horizontal edge do not overlap. */
  lemma EdgeContactIsNoOverlap(a1: Actor, a2: Actor)
    requires a1.pos.x + Size(a1).x == a2.pos.x || a1.pos.y + Size(a1).y == a2.pos.y
    ensures !Overlap(a1, a2) && !Overlap(a2, a1)
  {
  }

  /** How many players a list of actors holds. */
  function PlayerCount(actors: seq<Actor>): nat
    decreases |actors|
  {
    if actors == [] then 0
    else PlayerCount(actors[..|actors| - 1]) + (if actors[|actors| - 1].Player? then 1 else 0)
  }

  lemma {:induction false} PlayerCountAppend(a: seq<Actor>, b: seq<Actor>)
    ensures PlayerCount(a + b) == PlayerCount(a) + PlayerCount(b)
    decreases |b|
  {
    if b != [] {
      assert (a + b)[..|a + b| - 1] == a + b[..|b| - 1];
      PlayerCountAppend(a, b[..|b| - 1]);
    } else {
      assert a + b == a;
    }
  }

  /** The count is zero exactly when no actor is a player. */
  lemma {:induction false} PlayerCountZero(actors: seq<Actor>)
    ensures PlayerCount(actors) == 0 <==> forall i :: 0 <= i < |actors| ==> !actors[i].Player?
    decreases |actors|
  {
    if actors != [] {
      var init := actors[..|actors| - 1];
      PlayerCountZero(init);
      assert forall i :: 0 <= i < |init| ==> init[i] == actors[i];
    }
  }
}
