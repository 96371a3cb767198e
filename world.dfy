/**
 * The game state and its tick: `State.start`, the `player` getter, the collision
 * handlers `Lava.collide` and `Coin.collide`, and `State.update`.
 */
module World {
  import opened Wrappers
  import opened Vectors
  import opened Actors
  import opened Levels
  import opened Motion

  datatype Status = Playing | Won | Lost

  /** A snapshot of a running game. Every transition builds a new one. */
  datatype State = State(level: Level, actors: seq<Actor>, status: Status)

  /**
   * The ways a tick throws in the source: no player to look up while playing
   * (`player.pos` of `undefined`), or a second player overlapping the first
   * (players have no `collide`).
   */
  datatype Fault = NoPlayer | NotCollidable

  /** `State.start`: the level's start actors, playing. */
  function Start(level: Level): (s: State)
    ensures s.level == level && s.actors == level.startActors && s.status == Playing
  {
    State(level, level.startActors, Playing)
  }

  /**
   * Starting a level built from a plan: the actors are the ones the plan's actor
   * glyphs spawn, one each, and there are as many players as `@` glyphs.
   */
  lemma StartOfBuiltLevel(lines: seq<string>, initialWobble: (int, int) -> real)
    requires |lines| >= 1 && KnownGlyphs(lines)
    ensures var s := Start(BuiltLevel(lines, initialWobble));
            && s.status == Playing
            && s.actors == Spawns(lines, initialWobble)
            && |s.actors| == SpawnTotal(lines)
            && PlayerCount(s.actors) == CharTotal(lines, '@')
  {
    SpawnsLength(lines, initialWobble);
  }

  /** The `player` getter (`actors.find`): the first player, if any. */
  function FindPlayer(actors: seq<Actor>): (r: Option<nat>)
    ensures r.Some? ==> r.value < |actors| && actors[r.value].Player?
                        && forall j :: 0 <= j < r.value ==> !actors[j].Player?
    ensures r.None? ==> forall j :: 0 <= j < |actors| ==> !actors[j].Player?
  {
    if actors == [] then None
    else if actors[0].Player? then Some(0)
    else match FindPlayer(actors[1..])
      case None => None
      case Some(i) => Some(i + 1)
  }

  /** `actors.some(a => a.type == "coin")`, scanning from the front. */
  predicate HasCoin(actors: seq<Actor>)
  {
    if actors == [] then false
    else if actors[0].Coin? then true
    else HasCoin(actors[1..])
  }

  /** The scan finds a coin exactly when some actor in the list is a coin. */
  lemma {:induction false} HasCoinSome(actors: seq<Actor>)
    ensures HasCoin(actors) <==> exists i :: 0 <= i < |actors| && actors[i].Coin?
  {
    if actors != [] && !actors[0].Coin? {
      var rest := actors[1..];
      HasCoinSome(rest);
      assert forall i :: 0 < i < |actors| ==> actors[i] == rest[i - 1];
      if HasCoin(actors) {
        var i :| 0 <= i < |rest| && rest[i].Coin?;
        assert actors[i + 1].Coin?;
      }
    }
  }

  /** `Lava.collide`: the same level and actors, and the game is lost. */
  function LavaCollide(s: State): (r: State)
    ensures r.level == s.level && r.actors == s.actors && r.status == Lost
  {
    State(s.level, s.actors, Lost)
  }

  /**
   * `Coin.collide` for the coin at index `self`: exactly that coin is removed, and
   * the game is won exactly when no coin is left; otherwise the status is kept,
   * whatever it was.
   */
  function CoinCollide(s: State, self: nat): (r: State)
    requires self < |s.actors| && s.actors[self].Coin?
    ensures r.level == s.level
    ensures |r.actors| == |s.actors| - 1
    ensures forall j :: 0 <= j < |r.actors| ==> r.actors[j] == s.actors[if j < self then j else j + 1]
    ensures !HasCoin(r.actors) ==> r.status == Won
    ensures HasCoin(r.actors) ==> r.status == s.status
  {
    var filtered := s.actors[..self] + s.actors[self + 1..];
    assert s.actors == s.actors[..self] + [s.actors[self]] + s.actors[self + 1..];
    var status := if HasCoin(filtered) then s.status else Won;
    State(s.level, filtered, status)
  }

  /** Picking up a coin loses no other actor: the rest plus that coin are the actors before. */
  lemma CoinCollideRemovesOne(s: State, self: nat)
    requires self < |s.actors| && s.actors[self].Coin?
    ensures multiset(CoinCollide(s, self).actors) + multiset{s.actors[self]} == multiset(s.actors)
  {
    assert s.actors == s.actors[..self] + [s.actors[self]] + s.actors[self + 1..];
  }

  /** `actor.collide(state)` for the actor at index `self` of `state`. */
  function Collide(s: State, self: nat): (r: Result<State, Fault>)
    requires self < |s.actors|
    ensures r.Err? <==> s.actors[self].Player?
    ensures r.Ok? ==> r.value.level == s.level
    ensures s.actors[self].Lava? ==> r == Ok(LavaCollide(s))
    ensures s.actors[self].Coin? ==> r == Ok(CoinCollide(s, self))
  {
    match s.actors[self]
    case Player(_, _) => Err(NotCollidable)
    case Lava(_, _, _) => Ok(LavaCollide(s))
    case Coin(_, _, _) => Ok(CoinCollide(s, self))
  }

  /** Every actor's `update` against the pre-tick state (`this.actors.map`). */
  function MoveAll(s: State, time: real, keys: Keys, sin: real -> real): (moved: seq<Actor>)
    ensures |moved| == |s.actors|
    ensures forall i :: 0 <= i < |moved| ==> moved[i] == ActorUpdate(s.actors[i], time, s.level, keys, sin)
  {
    seq(|s.actors|, i requires 0 <= i < |s.actors| => ActorUpdate(s.actors[i], time, s.level, keys, sin))
  }

  /** The actor at index `j` of the moved list is another actor overlapping the player at index `p`. */
  predicate Hit(actors: seq<Actor>, p: nat, j: nat): (b: bool)
    requires p < |actors| && j < |actors|
    ensures b <==> j != p && Overlap(actors[p], actors[j])
  {
    OverlapSymmetric(actors[j], actors[p]);
    j != p && Overlap(actors[j], actors[p])
  }

  /**
   * The accumulated state of the collision loop before index `i`: its actor list
   * ends with the actors not yet visited, `actors[i..]`, so the actor at index `i`
   * of the moved list sits at `Self(actors, i, acc)` of the accumulated state.
   */
  predicate Aligned(actors: seq<Actor>, i: nat, acc: State)
  {
    && i <= |actors| && |actors| - i <= |acc.actors|
    && acc.actors[|acc.actors| - (|actors| - i)..] == actors[i..]
  }

  function Self(actors: seq<Actor>, i: nat, acc: State): (k: nat)
    requires Aligned(actors, i, acc) && i < |actors|
    ensures k < |acc.actors| && acc.actors[k] == actors[i]
  {
    assert acc.actors[|acc.actors| - (|actors| - i)..][0] == actors[i..][0];
    |acc.actors| - (|actors| - i)
  }

  lemma CollideAligned(actors: seq<Actor>, i: nat, acc: State)
    requires Aligned(actors, i, acc) && i < |actors|
    requires Collide(acc, Self(actors, i, acc)).Ok?
    ensures Aligned(actors, i + 1, Collide(acc, Self(actors, i, acc)).value)
  {
    var k := Self(actors, i, acc);
    var next := Collide(acc, k).value;
    assert actors[i + 1..] == actors[i..][1..];
    if acc.actors[k].Coin? {
      assert next.actors[|next.actors| - (|actors| - i - 1)..] == acc.actors[k + 1..];
    }
  }

  /**
   * The collision loop of `State.update` from index `i` on: each other actor that
   * overlaps the player at index `p` applies its `collide` to the accumulated state,
   * in list order.
   */
  function Resolve(actors: seq<Actor>, p: nat, i: nat, acc: State): (r: Result<State, Fault>)
    requires p < |actors| && Aligned(actors, i, acc)
    ensures r.Ok? ==> r.value.level == acc.level
    decreases |actors| - i
  {
    if i == |actors| then Ok(acc)
    else if Hit(actors, p, i) then
      match Collide(acc, Self(actors, i, acc))
      case Err(e) => Err(e)
      case Ok(next) =>
        CollideAligned(actors, i, acc);
        Resolve(actors, p, i + 1, next)
    else
      Resolve(actors, p, i + 1, acc)
  }

  /**
   * `State.update`: move every actor against the pre-tick state; if the game is
   * already over stop there; otherwise the player touching background lava loses the
   * game, and failing that the overlapping actors collide in list order.
   */
  function Tick(s: State, time: real, keys: Keys, sin: real -> real): (r: Result<State, Fault>)
    ensures r.Ok? ==> r.value.level == s.level
    // a finished game keeps its status and only moves its actors
    ensures s.status != Playing ==> r == Ok(State(s.level, MoveAll(s, time, keys, sin), s.status))
    // playing without a player throws
    ensures s.status == Playing && FindPlayer(MoveAll(s, time, keys, sin)).None? ==> r == Err(NoPlayer)
    // the first player on background lava loses at once, with the moved actors and no `collide`
    ensures var moved := MoveAll(s, time, keys, sin);
            var p := FindPlayer(moved);
            s.status == Playing && p.Some? && Touches(s.level, moved[p.value].pos, PlayerSize, LavaTile) ==>
              r == Ok(State(s.level, moved, Lost))
  {
    var actors := MoveAll(s, time, keys, sin);
    var newState := State(s.level, actors, s.status);
    if newState.status != Playing then Ok(newState)
    else match FindPlayer(actors)
      case None => Err(NoPlayer)
      case Some(p) =>
        if Touches(s.level, actors[p].pos, Size(actors[p]), LavaTile) then Ok(State(s.level, actors, Lost))
        else
          assert Aligned(actors, 0, newState);
          Resolve(actors, p, 0, newState)
  }

  /**
   * The loop of `State.update` that reassigns `newState`: for each actor of the moved
   * list other than the player that overlaps it, `newState = actor.collide(newState)`.
   */
  method CollideAll(actors: seq<Actor>, p: nat, start: State) returns (r: Result<State, Fault>)
    requires p < |actors| && start.actors == actors
    ensures r == Resolve(actors, p, 0, start)
  {
    var newState := start;
    for i := 0 to |actors|
      invariant Aligned(actors, i, newState)
      invariant Resolve(actors, p, i, newState) == Resolve(actors, p, 0, start)
    {
      ResolveUnfold(actors, p, i, newState);
      if i != p && Overlap(actors[i], actors[p]) {
        var next := Collide(newState, |newState.actors| - (|actors| - i));
        if next.Err? {
          return Err(next.error);
        }
        newState := next.value;
      }
    }
    return Ok(newState);
  }

  /** The status a `collide` that does not throw leaves: lost after lava, won after the last coin. */
  lemma CollideStatus(s: State, self: nat, n: State)
    requires self < |s.actors| && Collide(s, self) == Ok(n)
    ensures s.actors[self].Lava? ==> n.status == Lost
    ensures s.actors[self].Coin? && !HasCoin(n.actors) ==> n.status == Won
  {
    if s.actors[self].Coin? {
      assert n == CoinCollide(s, self);
    }
  }

  /** One step of the collision loop: `Resolve` at `i` in terms of `Resolve` at `i + 1`. */
  lemma ResolveUnfold(actors: seq<Actor>, p: nat, i: nat, acc: State)
    requires p < |actors| && i < |actors| && Aligned(actors, i, acc)
    ensures var k := |acc.actors| - (|actors| - i);
            var hit := i != p && Overlap(actors[i], actors[p]);
            && k < |acc.actors|
            && (hit && Collide(acc, k).Err? ==> Resolve(actors, p, i, acc) == Err(Collide(acc, k).error))
            && (hit && Collide(acc, k).Ok? ==>
                  Aligned(actors, i + 1, Collide(acc, k).value)
                  && Resolve(actors, p, i, acc) == Resolve(actors, p, i + 1, Collide(acc, k).value))
            && (!hit ==> Aligned(actors, i + 1, acc) && Resolve(actors, p, i, acc) == Resolve(actors, p, i + 1, acc))
  {
    var k := Self(actors, i, acc);
    OverlapSymmetric(actors[i], actors[p]);
    if Hit(actors, p, i) {
      var c := Collide(acc, k);
      if c.Ok? {
        CollideAligned(actors, i, acc);
        assert Resolve(actors, p, i, acc) == Resolve(actors, p, i + 1, c.value);
      } else {
        assert Resolve(actors, p, i, acc) == Err(c.error);
      }
    } else {
      assert actors[i + 1..] == actors[i..][1..];
      assert Resolve(actors, p, i, acc) == Resolve(actors, p, i + 1, acc);
    }
  }

  /** `State.prototype.update` as the source runs it: a map, the checks, then the collision loop. */
  method Update(s: State, time: real, keys: Keys, sin: real -> real) returns (r: Result<State, Fault>)
    ensures r == Tick(s, time, keys, sin)
  {
    var actors := MoveAll(s, time, keys, sin);
    var newState := State(s.level, actors, s.status);
    if newState.status != Playing {
      return Ok(newState);
    }
    var player := FindPlayer(actors);
    if player.None? {
      return Err(NoPlayer);
    }
    var p := player.value;
    var onLava := ScanTouches(s.level, actors[p].pos, Size(actors[p]), LavaTile);
    if onLava {
      return Ok(State(s.level, actors, Lost));
    }
    r := CollideAll(actors, p, newState);
  }

  // ---- what a tick promises ----------------------------------------------------

  /** The moved actors from index `i` on, in order, less the coins the player at `p` overlaps. */
  function Unpicked(actors: seq<Actor>, p: nat, i: nat): seq<Actor>
    requires p < |actors| && i <= |actors|
    decreases |actors| - i
  {
    if i == |actors| then []
    else (if Hit(actors, p, i) && actors[i].Coin? then [] else [actors[i]]) + Unpicked(actors, p, i + 1)
  }

  /** The part of the accumulated state's actors that the loop has already gone past. */
  function Kept(actors: seq<Actor>, i: nat, acc: State): seq<Actor>
    requires Aligned(actors, i, acc)
  {
    acc.actors[..|acc.actors| - (|actors| - i)]
  }

  /** Some actor from index `i` on that overlaps the player is of the kind `kind` stands for. */
  predicate HitFrom(actors: seq<Actor>, p: nat, i: nat, kind: Kind)
    requires p < |actors|
  {
    exists j :: i <= j < |actors| && Hit(actors, p, j) && KindOf(actors[j]) == kind
  }

  /** Whether an actor of the kind of `kind` overlaps the player from index `i` on, looking at `i` first. */
  lemma HitFromStep(actors: seq<Actor>, p: nat, i: nat, kind: Kind)
    requires p < |actors| && i < |actors|
    ensures HitFrom(actors, p, i, kind) <==>
              (Hit(actors, p, i) && KindOf(actors[i]) == kind) || HitFrom(actors, p, i + 1, kind)
  {
    if HitFrom(actors, p, i, kind) {
      var j :| i <= j < |actors| && Hit(actors, p, j) && KindOf(actors[j]) == kind;
      if j > i {
        assert HitFrom(actors, p, i + 1, kind);
      }
    }
  }

  /** One step of the collision loop moves the actor at `i` to the visited part, unless it is a coin it picks up. */
  lemma KeptStep(actors: seq<Actor>, p: nat, i: nat, acc: State, next: State)
    requires p < |actors| && i < |actors| && Aligned(actors, i, acc)
    requires if Hit(actors, p, i) then Collide(acc, Self(actors, i, acc)) == Ok(next) else next == acc
    ensures Aligned(actors, i + 1, next)
    ensures Kept(actors, i + 1, next)
            == Kept(actors, i, acc) + (if Hit(actors, p, i) && actors[i].Coin? then [] else [actors[i]])
  {
    var k := Self(actors, i, acc);
    if Hit(actors, p, i) {
      CollideAligned(actors, i, acc);
    } else {
      assert actors[i + 1..] == actors[i..][1..];
    }
    assert acc.actors[..k + 1] == Kept(actors, i, acc) + [actors[i]];
    if Hit(actors, p, i) && actors[i].Coin? {
      assert Kept(actors, i + 1, next) == next.actors[..k] == Kept(actors, i, acc);
    } else {
      assert Kept(actors, i + 1, next) == acc.actors[..k + 1];
    }
  }

  /** The collision loop throws exactly when it meets an overlapping second player. */
  lemma {:induction false} ResolveFails(actors: seq<Actor>, p: nat, i: nat, acc: State)
    requires p < |actors| && Aligned(actors, i, acc)
    ensures Resolve(actors, p, i, acc).Err? <==> HitFrom(actors, p, i, PlayerKind)
    decreases |actors| - i
  {
    if i < |actors| {
      HitFromStep(actors, p, i, PlayerKind);
      if Hit(actors, p, i) {
        var next := Collide(acc, Self(actors, i, acc));
        if next.Ok? {
          CollideAligned(actors, i, acc);
          ResolveFails(actors, p, i + 1, next.value);
        }
      } else {
        ResolveFails(actors, p, i + 1, acc);
      }
    }
  }

  /** When the collision loop does not throw, it keeps every actor except the overlapping coins, in order. */
  lemma {:induction false} ResolveActors(actors: seq<Actor>, p: nat, i: nat, acc: State)
    requires p < |actors| && Aligned(actors, i, acc)
    ensures var r := Resolve(actors, p, i, acc);
            r.Ok? ==> r.value.actors == Kept(actors, i, acc) + Unpicked(actors, p, i)
    decreases |actors| - i
  {
    if i == |actors| {
      assert acc.actors[..|acc.actors|] == acc.actors;
    } else if Resolve(actors, p, i, acc).Ok? {
      var n := ResolveStep(actors, p, i, acc);
      KeptStep(actors, p, i, acc, n);
      ResolveActors(actors, p, i + 1, n);
      var head := UnpickedStep(actors, p, i);
      Regroup(Kept(actors, i, acc), head, Unpicked(actors, p, i + 1), Unpicked(actors, p, i));
    }
  }

  /** The first actor `Unpicked` visits is kept unless it is a coin the player overlaps. */
  lemma UnpickedStep(actors: seq<Actor>, p: nat, i: nat) returns (head: seq<Actor>)
    requires p < |actors| && i < |actors|
    ensures head == if Hit(actors, p, i) && actors[i].Coin? then [] else [actors[i]]
    ensures Unpicked(actors, p, i) == head + Unpicked(actors, p, i + 1)
  {
    head := if Hit(actors, p, i) && actors[i].Coin? then [] else [actors[i]];
  }

  lemma Regroup(kept: seq<Actor>, head: seq<Actor>, rest: seq<Actor>, whole: seq<Actor>)
    requires whole == head + rest
    ensures (kept + head) + rest == kept + whole
  {
  }

  /** A slice is empty when its bounds meet, and otherwise its first actor followed by the rest. */
  lemma SliceSplit(actors: seq<Actor>, i: nat, j: nat)
    requires i <= j <= |actors|
    ensures i == j ==> actors[i..j] == []
    ensures i < j ==> actors[i..j] == [actors[i]] + actors[i + 1..j]
  {
  }

  /** A collision-loop step that does not throw: the state it hands on. */
  lemma ResolveStep(actors: seq<Actor>, p: nat, i: nat, acc: State) returns (n: State)
    requires p < |actors| && i < |actors| && Aligned(actors, i, acc)
    requires Resolve(actors, p, i, acc).Ok?
    ensures Aligned(actors, i + 1, n)
    ensures Resolve(actors, p, i, acc) == Resolve(actors, p, i + 1, n)
    ensures if Hit(actors, p, i) then Collide(acc, Self(actors, i, acc)) == Ok(n) else n == acc
  {
    if Hit(actors, p, i) {
      var c := Collide(acc, Self(actors, i, acc));
      n := c.value;
      CollideAligned(actors, i, acc);
    } else {
      n := acc;
      assert actors[i + 1..] == actors[i..][1..];
    }
  }



  /** With no overlap from index `i` on, the loop leaves the state as it is. */
  lemma {:induction false} ResolveNoHits(actors: seq<Actor>, p: nat, i: nat, acc: State)
    requires p < |actors| && Aligned(actors, i, acc)
    requires forall j :: i <= j < |actors| ==> !Hit(actors, p, j)
    ensures Resolve(actors, p, i, acc) == Ok(acc)
    decreases |actors| - i
  {
    if i < |actors| {
      ResolveNoHits(actors, p, i + 1, acc);
    }
  }

  /**
   * How the loop can change the status: it is won only with no coin left and a coin
   * picked up (or already won), lost only after an overlapping hazard (or already
   * lost), and still playing only if it was and no hazard overlapped.
   */
  lemma {:induction false} ResolveStatus(actors: seq<Actor>, p: nat, i: nat, acc: State)
    requires p < |actors| && Aligned(actors, i, acc)
    requires acc.status == Won ==> !HasCoin(acc.actors)
    ensures var r := Resolve(actors, p, i, acc);
            r.Ok? ==>
              && (r.value.status == Won ==>
                    !HasCoin(r.value.actors) && (acc.status == Won || HitFrom(actors, p, i, CoinKind)))
              && (r.value.status == Lost ==> acc.status == Lost || HitFrom(actors, p, i, LavaKind))
              && (r.value.status == Playing ==> acc.status == Playing && !HitFrom(actors, p, i, LavaKind))
    decreases |actors| - i
  {
    if i < |actors| {
      var next := if Hit(actors, p, i) then Collide(acc, Self(actors, i, acc)) else Ok(acc);
      if next.Ok? {
        StatusStep(actors, p, i, acc, next.value);
        assert Resolve(actors, p, i, acc) == Resolve(actors, p, i + 1, next.value);
        HitFromStep(actors, p, i, CoinKind);
        HitFromStep(actors, p, i, LavaKind);
        ResolveStatus(actors, p, i + 1, next.value);
      }
    }
  }

  /** How one step of the collision loop can change the status. */
  lemma StatusStep(actors: seq<Actor>, p: nat, i: nat, acc: State, next: State)
    requires p < |actors| && i < |actors| && Aligned(actors, i, acc)
    requires if Hit(actors, p, i) then Collide(acc, Self(actors, i, acc)) == Ok(next) else next == acc
    requires acc.status == Won ==> !HasCoin(acc.actors)
    ensures Aligned(actors, i + 1, next)
    ensures next.status == Won ==>
              !HasCoin(next.actors) && (acc.status == Won || (Hit(actors, p, i) && actors[i].Coin?))
    ensures next.status == Lost ==> acc.status == Lost || (Hit(actors, p, i) && actors[i].Lava?)
    ensures next.status == Playing ==> acc.status == Playing && !(Hit(actors, p, i) && actors[i].Lava?)
  {
    var k := Self(actors, i, acc);
    if Hit(actors, p, i) {
      CollideAligned(actors, i, acc);
      if actors[i].Coin? && HasCoin(next.actors) {
        HasCoinSome(next.actors);
        HasCoinSome(acc.actors);
        var c :| 0 <= c < |next.actors| && next.actors[c].Coin?;
        assert acc.actors[if c < k then c else c + 1].Coin?;
      }
    } else {
      assert actors[i + 1..] == actors[i..][1..];
    }
  }

  /**
   * The last overlapping actor decides when it can: a hazard last in list order
   * loses the game, and a coin last in list order that leaves no coin wins it.
   */
  lemma {:induction false} ResolveLastHit(actors: seq<Actor>, p: nat, i: nat, acc: State, j: nat)
    requires p < |actors| && Aligned(actors, i, acc)
    requires i <= j < |actors| && Hit(actors, p, j)
    requires forall k :: j < k < |actors| ==> !Hit(actors, p, k)
    requires Resolve(actors, p, i, acc).Ok?
    ensures actors[j].Lava? ==> Resolve(actors, p, i, acc).value.status == Lost
    ensures actors[j].Coin? && !HasCoin(Resolve(actors, p, i, acc).value.actors) ==>
              Resolve(actors, p, i, acc).value.status == Won
    decreases |actors| - i
  {
    if i == j {
      ResolveHitsLastHere(actors, p, i, acc);
    } else {
      var n := ResolveStep(actors, p, i, acc);
      ResolveLastHit(actors, p, i + 1, n, j);
    }
  }

  /** `ResolveLastHit` when the last overlapping actor is the one the loop is at. */
  lemma ResolveHitsLastHere(actors: seq<Actor>, p: nat, i: nat, acc: State)
    requires p < |actors| && Aligned(actors, i, acc)
    requires i < |actors| && Hit(actors, p, i)
    requires forall k :: i < k < |actors| ==> !Hit(actors, p, k)
    requires Resolve(actors, p, i, acc).Ok?
    ensures actors[i].Lava? ==> Resolve(actors, p, i, acc).value.status == Lost
    ensures actors[i].Coin? && !HasCoin(Resolve(actors, p, i, acc).value.actors) ==>
              Resolve(actors, p, i, acc).value.status == Won
  {
    var n := ResolveStep(actors, p, i, acc);
    var k := Self(actors, i, acc);
    assert Collide(acc, k) == Ok(n) && acc.actors[k] == actors[i];
    ResolveNoHits(actors, p, i + 1, n);
    CollideStatus(acc, k, n);
  }

  lemma {:induction false} PlayerCountSameKinds(a: seq<Actor>, b: seq<Actor>)
    requires |a| == |b| && forall i :: 0 <= i < |a| ==> KindOf(a[i]) == KindOf(b[i])
    ensures PlayerCount(a) == PlayerCount(b)
    decreases |a|
  {
    if a != [] {
      var n := |a| - 1;
      PlayerCountSameKinds(a[..n], b[..n]);
    }
  }

  lemma {:induction false} TwoPlayers(a: seq<Actor>, i: nat, j: nat)
    requires i < j < |a| && a[i].Player? && a[j].Player?
    ensures PlayerCount(a) >= 2
    decreases |a|
  {
    var n := |a| - 1;
    if j < n {
      TwoPlayers(a[..n], i, j);
    } else {
      PlayerCountZero(a[..n]);
      assert a[..n][i].Player?;
    }
  }

  lemma {:induction false} UnpickedPlayers(actors: seq<Actor>, p: nat, i: nat)
    requires p < |actors| && i <= |actors|
    ensures PlayerCount(Unpicked(actors, p, i)) == PlayerCount(actors[i..])
    decreases |actors| - i
  {
    if i < |actors| {
      var a := actors[i];
      var picked := Hit(actors, p, i) && a.Coin?;
      var head := if picked then [] else [a];
      var rest := Unpicked(actors, p, i + 1);
      assert Unpicked(actors, p, i) == head + rest;
      UnpickedPlayers(actors, p, i + 1);
      PlayerCountHead(a, picked);
      PlayerCountAppend(head, rest);
      assert actors[i..] == [a] + actors[i + 1..];
      PlayerCountAppend([a], actors[i + 1..]);
    }
  }

  /** Dropping an actor that is not a player leaves the player count as it was. */
  lemma PlayerCountHead(a: Actor, drop: bool)
    requires drop ==> !a.Player?
    ensures PlayerCount(if drop then [] else [a]) == PlayerCount([a])
  {
    assert [a][..0] == [];
  }


  /** With exactly one player, the collision loop never throws and keeps that one player. */
  lemma ResolveOnePlayer(actors: seq<Actor>, p: nat, start: State)
    requires p < |actors| && actors[p].Player? && PlayerCount(actors) == 1
    requires start.actors == actors
    ensures Resolve(actors, p, 0, start).Ok?
    ensures PlayerCount(Resolve(actors, p, 0, start).value.actors) == 1
  {
    assert Aligned(actors, 0, start);
    ResolveFails(actors, p, 0, start);
    ResolveActors(actors, p, 0, start);
    if HitFrom(actors, p, 0, PlayerKind) {
      var j :| 0 <= j < |actors| && Hit(actors, p, j) && actors[j].Player?;
      if j < p { TwoPlayers(actors, j, p); } else { TwoPlayers(actors, p, j); }
    }
    UnpickedPlayers(actors, p, 0);
    assert actors[0..] == actors;
    assert Kept(actors, 0, start) == [];
    assert Resolve(actors, p, 0, start).value.actors == Unpicked(actors, p, 0);
  }

  /** A playing tick whose player is clear of background lava is the collision loop over the moved actors. */
  lemma TickResolves(s: State, time: real, keys: Keys, sin: real -> real)
    requires s.status == Playing
    requires var moved := MoveAll(s, time, keys, sin);
             var p := FindPlayer(moved);
             p.Some? && !Touches(s.level, moved[p.value].pos, PlayerSize, LavaTile)
    ensures var moved := MoveAll(s, time, keys, sin);
            Tick(s, time, keys, sin) == Resolve(moved, FindPlayer(moved).value, 0, State(s.level, moved, Playing))
  {
  }

  /** Moving every actor keeps the number of players. */
  lemma MoveAllPlayers(s: State, time: real, keys: Keys, sin: real -> real)
    ensures PlayerCount(MoveAll(s, time, keys, sin)) == PlayerCount(s.actors)
  {
    PlayerCountSameKinds(MoveAll(s, time, keys, sin), s.actors);
  }

  /**
   * Exactly one player is an invariant of the tick: from such a state a tick never
   * throws and again leaves exactly one player.
   */
  lemma TickKeepsOnePlayer(s: State, time: real, keys: Keys, sin: real -> real)
    requires PlayerCount(s.actors) == 1
    ensures Tick(s, time, keys, sin).Ok?
    ensures PlayerCount(Tick(s, time, keys, sin).value.actors) == 1
  {
    var moved := MoveAll(s, time, keys, sin);
    MoveAllPlayers(s, time, keys, sin);
    if s.status == Playing {
      PlayerCountZero(moved);
      var p := FindPlayer(moved).value;
      if !Touches(s.level, moved[p].pos, PlayerSize, LavaTile) {
        TickResolves(s, time, keys, sin);
        ResolveOnePlayer(moved, p, State(s.level, moved, Playing));
      }
    }
  }

  /**
   * A tick of a playing game with one player. Touching background lava loses at once
   * with the moved actors and no `collide` runs. Otherwise the coins the player
   * overlaps are removed and nothing else; the game is won only with no coin left
   * after picking one up, lost only through an overlapping hazard, and goes on
   * playing only when no hazard overlaps; with no overlap at all the moved actors
   * are the new state, still playing.
   */
  lemma TickWhilePlaying(s: State, time: real, keys: Keys, sin: real -> real)
    requires s.status == Playing && PlayerCount(s.actors) == 1
    ensures var moved := MoveAll(s, time, keys, sin);
            var p := FindPlayer(moved);
            var r := Tick(s, time, keys, sin);
            && p.Some? && r.Ok?
            && (Touches(s.level, moved[p.value].pos, PlayerSize, LavaTile) ==>
                  r.value == State(s.level, moved, Lost))
            && (!Touches(s.level, moved[p.value].pos, PlayerSize, LavaTile) ==>
                  && r.value.actors == Unpicked(moved, p.value, 0)
                  && (r.value.status == Won ==> !HasCoin(r.value.actors) && HitFrom(moved, p.value, 0, CoinKind))
                  && (r.value.status == Lost ==> HitFrom(moved, p.value, 0, LavaKind))
                  && (r.value.status == Playing <==> !HitFrom(moved, p.value, 0, LavaKind) && r.value.status != Won)
                  && ((forall j :: 0 <= j < |moved| ==> !Hit(moved, p.value, j)) ==>
                        r.value == State(s.level, moved, Playing)))
  {
    TickKeepsOnePlayer(s, time, keys, sin);
    var moved := MoveAll(s, time, keys, sin);
    PlayerCountSameKinds(moved, s.actors);
    PlayerCountZero(moved);
    var p := FindPlayer(moved).value;
    if !Touches(s.level, moved[p].pos, PlayerSize, LavaTile) {
      var start := State(s.level, moved, s.status);
      assert Aligned(moved, 0, start);
      ResolveActors(moved, p, 0, start);
      ResolveStatus(moved, p, 0, start);
      assert Kept(moved, 0, start) == [];
      if forall j :: 0 <= j < |moved| ==> !Hit(moved, p, j) {
        ResolveNoHits(moved, p, 0, start);
      }
    }
  }

  /**
   * In a tick of a playing game with one player that is not on background lava, the
   * last actor in list order to overlap the player decides when it can: a hazard
   * loses the game, and a coin that leaves no coin behind wins it, whatever came before.
   */
  lemma TickLastContact(s: State, time: real, keys: Keys, sin: real -> real, j: nat)
    requires s.status == Playing && PlayerCount(s.actors) == 1
    requires var moved := MoveAll(s, time, keys, sin);
             var p := FindPlayer(moved);
             && p.Some? && !Touches(s.level, moved[p.value].pos, PlayerSize, LavaTile)
             && j < |moved| && Hit(moved, p.value, j)
             && forall k :: j < k < |moved| ==> !Hit(moved, p.value, k)
    ensures var r := Tick(s, time, keys, sin);
            var moved := MoveAll(s, time, keys, sin);
            && r.Ok?
            && (moved[j].Lava? ==> r.value.status == Lost)
            && (moved[j].Coin? && !HasCoin(r.value.actors) ==> r.value.status == Won)
  {
    TickKeepsOnePlayer(s, time, keys, sin);
    var moved := MoveAll(s, time, keys, sin);
    var p := FindPlayer(moved).value;
    var start := State(s.level, moved, s.status);
    assert Aligned(moved, 0, start);
    ResolveLastHit(moved, p, 0, start, j);
  }

  /** With no overlap from index `i` on, nothing is picked up. */
  lemma {:induction false} UnpickedNoHits(actors: seq<Actor>, p: nat, i: nat)
    requires p < |actors| && i <= |actors|
    requires forall k :: i <= k < |actors| ==> !Hit(actors, p, k)
    ensures Unpicked(actors, p, i) == actors[i..]
    decreases |actors| - i
  {
    if i < |actors| {
      UnpickedNoHits(actors, p, i + 1);
      assert actors[i..] == [actors[i]] + actors[i + 1..];
    }
  }

  /** With a single overlapping coin at `j`, exactly that coin is picked up. */
  lemma {:induction false} UnpickedOneCoin(actors: seq<Actor>, p: nat, i: nat, j: nat)
    requires p < |actors| && i <= j < |actors| && Hit(actors, p, j) && actors[j].Coin?
    requires forall k :: i <= k < |actors| && k != j ==> !Hit(actors, p, k)
    ensures Unpicked(actors, p, i) == actors[i..j] + actors[j + 1..]
    decreases |actors| - i
  {
    if i == j {
      UnpickedCoinHere(actors, p, j);
    } else {
      var head := UnpickedStep(actors, p, i);
      assert !Hit(actors, p, i) && head == [actors[i]];
      UnpickedOneCoin(actors, p, i + 1, j);
      Regroup(head, actors[i + 1..j], actors[j + 1..], Unpicked(actors, p, i + 1));
      SliceSplit(actors, i, j);
    }
  }

  /** `UnpickedOneCoin` from the coin itself: it is dropped and all after it kept. */
  lemma UnpickedCoinHere(actors: seq<Actor>, p: nat, j: nat)
    requires p < |actors| && j < |actors| && Hit(actors, p, j) && actors[j].Coin?
    requires forall k :: j < k < |actors| ==> !Hit(actors, p, k)
    ensures Unpicked(actors, p, j) == actors[j..j] + actors[j + 1..]
  {
    var head := UnpickedStep(actors, p, j);
    UnpickedNoHits(actors, p, j + 1);
    SliceSplit(actors, j, j);
    assert head == [];
  }

  /**
   * Picking up the last coin: when the only actor overlapping the player is the
   * only coin, the tick removes exactly that coin and the game is won.
   */
  lemma TickPicksLastCoin(s: State, time: real, keys: Keys, sin: real -> real, j: nat)
    requires s.status == Playing && PlayerCount(s.actors) == 1
    requires var moved := MoveAll(s, time, keys, sin);
             var p := FindPlayer(moved);
             && p.Some? && !Touches(s.level, moved[p.value].pos, PlayerSize, LavaTile)
             && j < |moved| && Hit(moved, p.value, j) && moved[j].Coin?
             && (forall k :: 0 <= k < |moved| && k != j ==> !Hit(moved, p.value, k))
             && (forall k :: 0 <= k < |moved| && k != j ==> !moved[k].Coin?)
    ensures var moved := MoveAll(s, time, keys, sin);
            Tick(s, time, keys, sin) == Ok(State(s.level, moved[..j] + moved[j + 1..], Won))
  {
    var moved := MoveAll(s, time, keys, sin);
    TickResolves(s, time, keys, sin);
    MoveAllPlayers(s, time, keys, sin);
    ResolvePicksLastCoin(moved, FindPlayer(moved).value, State(s.level, moved, Playing), j);
  }

  /** The collision loop with a single overlapping actor that is the only coin: it removes that coin and wins. */
  lemma ResolvePicksLastCoin(actors: seq<Actor>, p: nat, start: State, j: nat)
    requires p < |actors| && actors[p].Player? && PlayerCount(actors) == 1 && start.actors == actors
    requires j < |actors| && Hit(actors, p, j) && actors[j].Coin?
    requires forall k :: 0 <= k < |actors| && k != j ==> !Hit(actors, p, k)
    requires forall k :: 0 <= k < |actors| && k != j ==> !actors[k].Coin?
    ensures Resolve(actors, p, 0, start) == Ok(State(start.level, actors[..j] + actors[j + 1..], Won))
  {
    ResolveOnePlayer(actors, p, start);
    ResolveOneCoinActors(actors, p, start, j);
    NoCoinLeft(actors, j);
    assert Aligned(actors, 0, start);
    ResolveLastHit(actors, p, 0, start, j);
  }

  lemma ResolveOneCoinActors(actors: seq<Actor>, p: nat, start: State, j: nat)
    requires p < |actors| && start.actors == actors
    requires j < |actors| && Hit(actors, p, j) && actors[j].Coin?
    requires forall k :: 0 <= k < |actors| && k != j ==> !Hit(actors, p, k)
    ensures Resolve(actors, p, 0, start).Ok? ==>
              Resolve(actors, p, 0, start).value.actors == actors[..j] + actors[j + 1..]
  {
    assert Aligned(actors, 0, start);
    ResolveActors(actors, p, 0, start);
    assert Kept(actors, 0, start) == [];
    UnpickedOneCoin(actors, p, 0, j);
    assert actors[0..j] == actors[..j];
  }

  lemma NoCoinLeft(actors: seq<Actor>, j: nat)
    requires j < |actors| && forall k :: 0 <= k < |actors| && k != j ==> !actors[k].Coin?
    ensures !HasCoin(actors[..j] + actors[j + 1..])
  {
    var rest := actors[..j] + actors[j + 1..];
    forall c | 0 <= c < |rest|
      ensures !rest[c].Coin?
    {
      assert rest[c] == actors[if c < j then c else c + 1];
    }
    HasCoinSome(rest);
  }
}
