/**
 * The level: a grid of background tiles and the ordered list of start actors,
 * built from a text plan through the glyph table, and the `touches` query.
 */
module Levels {
  import opened Wrappers
  import opened Vectors
  import opened PlanText
  import opened Actors

  /** A background tile: `"empty"`, `"wall"` or `"lava"`. */
  datatype TileKind = Empty | Wall | LavaTile

  /**
   * `width` comes from the first row only and row lengths are never compared,
   * so `rows` may be ragged.
   */
  datatype Level = Level(width: int, height: int, rows: seq<seq<TileKind>>, startActors: seq<Actor>)

  /** What the grid query finds at a cell: outside the bounds a wall; `None` where a short row has no entry (`undefined`). */
  function Here(level: Level, x: int, y: int): (t: Option<TileKind>)
    ensures (x < 0 || x >= level.width || y < 0 || y >= level.height) ==> t == Some(Wall)
    ensures t.None? ==> 0 <= y < level.height && 0 <= x < level.width
                        && (y >= |level.rows| || x >= |level.rows[y]|)
    ensures 0 <= x < level.width && 0 <= y < level.height && y < |level.rows| && x < |level.rows[y]| ==>
              t == Some(level.rows[y][x])
  {
    if x < 0 || x >= level.width || y < 0 || y >= level.height then Some(Wall)
    else if y < |level.rows| && x < |level.rows[y]| then Some(level.rows[y][x])
    else None
  }

  /**
   * The meaning of `touches`: some integer cell of the (floor, ceil) cover of the
   * box `[pos, pos + size)` holds `kind`.
   */
  predicate Touches(level: Level, pos: Vec, size: Vec, kind: TileKind): (b: bool)
    // a kind other than wall lies only inside the grid, so it is never touched in an empty grid
    ensures b && kind != Wall ==> level.width > 0 && level.height > 0
  {
    exists x, y :: Floor(pos.x) <= x < Ceil(pos.x + size.x) && Floor(pos.y) <= y < Ceil(pos.y + size.y)
                   && Here(level, x, y) == Some(kind)
  }

  /** `Level.prototype.touches`: the row-by-row scan of the covered cells with its early return. */
  method ScanTouches(level: Level, pos: Vec, size: Vec, kind: TileKind) returns (found: bool)
    ensures found == Touches(level, pos, size, kind)
  {
    var xStart := Floor(pos.x);
    var xEnd := Ceil(pos.x + size.x);
    var yStart := Floor(pos.y);
    var yEnd := Ceil(pos.y + size.y);
    var y := yStart;
    while y < yEnd
      invariant yStart <= y
      invariant y <= yEnd || y == yStart
      invariant forall y', x' :: yStart <= y' < y && xStart <= x' < xEnd ==> Here(level, x', y') != Some(kind)
    {
      var x := xStart;
      while x < xEnd
        invariant xStart <= x
        invariant x <= xEnd || x == xStart
        invariant forall y', x' :: yStart <= y' < y && xStart <= x' < xEnd ==> Here(level, x', y') != Some(kind)
        invariant forall x' :: xStart <= x' < x ==> Here(level, x', y) != Some(kind)
      {
        var isOutside := x < 0 || x >= level.width || y < 0 || y >= level.height;
        var here := if isOutside then Some(Wall)
                    else if y < |level.rows| && x < |level.rows[y]| then Some(level.rows[y][x])
                    else None;
        if here == Some(kind) {
          assert Here(level, x, y) == Some(kind);
          return true;
        }
        x := x + 1;
      }
      y := y + 1;
    }
    return false;
  }

  /** Only walls lie outside the grid, so any other kind is touched only by a box whose cover meets the grid. */
  lemma TouchesOnlyWallOutside(level: Level, pos: Vec, size: Vec, kind: TileKind)
    requires kind != Wall && Touches(level, pos, size, kind)
    ensures Floor(pos.x) < level.width && Ceil(pos.x + size.x) > 0
    ensures Floor(pos.y) < level.height && Ceil(pos.y + size.y) > 0
  {
    var x, y :| Floor(pos.x) <= x < Ceil(pos.x + size.x) && Floor(pos.y) <= y < Ceil(pos.y + size.y)
                && Here(level, x, y) == Some(kind);
    assert 0 <= x < level.width && 0 <= y < level.height;
  }

  /** A cell of the box's floor/ceil cover that holds `kind` makes the box touch `kind`. */
  lemma TouchesCell(level: Level, pos: Vec, size: Vec, kind: TileKind, x: int, y: int)
    requires Floor(pos.x) <= x < Ceil(pos.x + size.x) && Floor(pos.y) <= y < Ceil(pos.y + size.y)
    requires Here(level, x, y) == Some(kind)
    ensures Touches(level, pos, size, kind)
  {
  }

  /** Any box of positive size that reaches outside `[0, width) x [0, height)` touches a wall. */
  lemma OutsideTouchesWall(level: Level, pos: Vec, size: Vec)
    requires size.x > 0.0 && size.y > 0.0
    requires pos.x < 0.0 || pos.x + size.x > level.width as real
          || pos.y < 0.0 || pos.y + size.y > level.height as real
    ensures Touches(level, pos, size, Wall)
  {
    var x := if pos.x < 0.0 then Floor(pos.x) else Ceil(pos.x + size.x) - 1;
    var y := if pos.x < 0.0 || pos.x + size.x > level.width as real then Floor(pos.y)
             else if pos.y < 0.0 then Floor(pos.y)
             else Ceil(pos.y + size.y) - 1;
    assert Here(level, x, y) == Some(Wall);
    TouchesCell(level, pos, size, Wall, x, y);
  }

  // ---- the glyph table --------------------------------------------------------

  /** The actor classes a glyph can name. */
  datatype ActorClass = PlayerClass | CoinClass | LavaClass

  /** An entry of `levelChars`: a background tile, or an actor class to `create`. */
  datatype Glyph = Background(kind: TileKind) | Spawn(cls: ActorClass)

  /** `levelChars`; `None` for a glyph the table lacks. */
  function LevelChar(ch: char): (g: Option<Glyph>)
    ensures g == Some(Spawn(LavaClass)) <==> IsLavaGlyph(ch)
    ensures g.Some? && g.value.Background? <==> ch == '.' || ch == '#' || ch == '+'
  {
    match ch
    case '.' => Some(Background(Empty))
    case '#' => Some(Background(Wall))
    case '+' => Some(Background(LavaTile))
    case '@' => Some(Spawn(PlayerClass))
    case 'o' => Some(Spawn(CoinClass))
    case '=' => Some(Spawn(LavaClass))
    case '|' => Some(Spawn(LavaClass))
    case 'v' => Some(Spawn(LavaClass))
    case _ => None
  }

  predicate IsActorGlyph(ch: char)
  {
    LevelChar(ch).Some? && LevelChar(ch).value.Spawn?
  }

  predicate RowKnown(row: string)
  {
    forall x :: 0 <= x < |row| ==> LevelChar(row[x]).Some?
  }

  predicate KnownGlyphs(lines: seq<string>)
  {
    forall y :: 0 <= y < |lines| ==> RowKnown(lines[y])
  }

  /** The tile a known glyph leaves in the grid: its own kind, or `"empty"` under an actor. */
  function TileOf(ch: char): TileKind
    requires LevelChar(ch).Some?
  {
    match LevelChar(ch).value
    case Background(kind) => kind
    case Spawn(_) => Empty
  }

  /** The actor `type.create(new Vec(x, y), ch)` makes for an actor glyph. */
  function SpawnAt(ch: char, x: int, y: int, initialWobble: (int, int) -> real): (a: Actor)
    requires IsActorGlyph(ch)
    ensures ch == '@' <==> a.Player?
    ensures ch == 'o' <==> a.Coin?
    ensures ch == '@' ==> a == PlayerCreate(Vec(x as real, y as real))
    ensures ch == 'o' ==> a == CoinCreate(Vec(x as real, y as real), initialWobble(x, y))
    ensures IsLavaGlyph(ch) ==> a == LavaCreate(Vec(x as real, y as real), ch)
  {
    var pos := Vec(x as real, y as real);
    match LevelChar(ch).value.cls
    case PlayerClass => PlayerCreate(pos)
    case CoinClass => CoinCreate(pos, initialWobble(x, y))
    case LavaClass => LavaCreate(pos, ch)
  }

  /** The grid row a row of known glyphs decodes to. */
  function GridRow(row: string): (cells: seq<TileKind>)
    requires RowKnown(row)
    ensures |cells| == |row|
    ensures forall x :: 0 <= x < |row| ==> cells[x] == TileOf(row[x])
  {
    seq(|row|, x requires 0 <= x < |row| => TileOf(row[x]))
  }

  function Grid(lines: seq<string>): (rows: seq<seq<TileKind>>)
    requires KnownGlyphs(lines)
    ensures |rows| == |lines|
    ensures forall y :: 0 <= y < |lines| ==> rows[y] == GridRow(lines[y])
  {
    seq(|lines|, y requires 0 <= y < |lines| => GridRow(lines[y]))
  }

  /** The actors one cell contributes: one for an actor glyph, none otherwise. */
  function CellSpawns(ch: char, x: int, y: int, initialWobble: (int, int) -> real): (s: seq<Actor>)
    requires LevelChar(ch).Some?
  {
    if IsActorGlyph(ch) then [SpawnAt(ch, x, y, initialWobble)] else []
  }

  /** The actors of one row, left to right. */
  function RowSpawns(row: string, y: int, initialWobble: (int, int) -> real): seq<Actor>
    requires RowKnown(row)
    decreases |row|
  {
    if row == [] then []
    else RowSpawns(row[..|row| - 1], y, initialWobble) + CellSpawns(row[|row| - 1], |row| - 1, y, initialWobble)
  }

  /** The start actors of the first `|lines|` rows, row by row. */
  function Spawns(lines: seq<string>, initialWobble: (int, int) -> real): seq<Actor>
    requires KnownGlyphs(lines)
    decreases |lines|
  {
    if lines == [] then []
    else Spawns(lines[..|lines| - 1], initialWobble) + RowSpawns(lines[|lines| - 1], |lines| - 1, initialWobble)
  }

  /** The level a plan of known glyphs builds. */
  function BuiltLevel(lines: seq<string>, initialWobble: (int, int) -> real): Level
    requires |lines| >= 1 && KnownGlyphs(lines)
  {
    Level(|lines[0]|, |lines|, Grid(lines), Spawns(lines, initialWobble))
  }

  lemma RowPrefixStep(row: string, x: nat, y: int, initialWobble: (int, int) -> real)
    requires x < |row| && RowKnown(row[..x]) && LevelChar(row[x]).Some?
    ensures RowKnown(row[..x + 1])
    ensures GridRow(row[..x + 1]) == GridRow(row[..x]) + [TileOf(row[x])]
    ensures RowSpawns(row[..x + 1], y, initialWobble)
            == RowSpawns(row[..x], y, initialWobble) + CellSpawns(row[x], x, y, initialWobble)
  {
    assert row[..x + 1][..x] == row[..x];
  }

  lemma LinesPrefixStep(lines: seq<string>, y: nat, initialWobble: (int, int) -> real)
    requires y < |lines| && KnownGlyphs(lines[..y]) && RowKnown(lines[y])
    ensures KnownGlyphs(lines[..y + 1])
    ensures Grid(lines[..y + 1]) == Grid(lines[..y]) + [GridRow(lines[y])]
    ensures Spawns(lines[..y + 1], initialWobble)
            == Spawns(lines[..y], initialWobble) + RowSpawns(lines[y], y, initialWobble)
  {
    assert lines[..y + 1][..y] == lines[..y];
  }

  /** The construction failure: a glyph the table lacks (the source throws calling `create` on `undefined`). */
  datatype LevelError = UnknownGlyph(ch: char, x: nat, y: nat)

  /**
   * The inner `row.map` of the constructor: decodes row `y` glyph by glyph, appending
   * to `actors` each actor it meets; stops at the first glyph the table lacks.
   */
  method DecodeRow(row: string, y: nat, initialWobble: (int, int) -> real, actors: seq<Actor>)
    returns (cells: seq<TileKind>, pushed: seq<Actor>, bad: Option<nat>)
    ensures bad.None? <==> RowKnown(row)
    ensures bad.None? ==> cells == GridRow(row) && pushed == actors + RowSpawns(row, y, initialWobble)
    ensures bad.Some? ==> bad.value < |row| && LevelChar(row[bad.value]).None? && RowKnown(row[..bad.value])
  {
    cells, pushed := [], actors;
    var x := 0;
    while x < |row|
      invariant 0 <= x <= |row|
      invariant RowKnown(row[..x])
      invariant cells == GridRow(row[..x])
      invariant pushed == actors + RowSpawns(row[..x], y, initialWobble)
    {
      var g := LevelChar(row[x]);
      if g.None? {
        return cells, pushed, Some(x);
      }
      RowPrefixStep(row, x, y, initialWobble);
      match g.value {
        case Background(kind) =>
          cells := cells + [kind];
        case Spawn(cls) =>
          pushed := pushed + [SpawnAt(row[x], x, y, initialWobble)];
          cells := cells + [Empty];
      }
      x := x + 1;
    }
    assert row[..x] == row;
    return cells, pushed, None;
  }

  /**
   * The `Level` constructor: trims and splits the plan, then maps every glyph of every
   * row, pushing start actors as it meets actor glyphs. It fails at the first unknown
   * glyph in row-major order.
   */
  method NewLevel(plan: string, initialWobble: (int, int) -> real) returns (r: Result<Level, LevelError>)
    ensures r.Ok? <==> KnownGlyphs(Lines(plan))
    ensures r.Ok? ==> r.value == BuiltLevel(Lines(plan), initialWobble)
    ensures r.Err? ==> var e := r.error; var lines := Lines(plan);
              && e.y < |lines| && e.x < |lines[e.y]| && lines[e.y][e.x] == e.ch
              && LevelChar(e.ch).None?
              && KnownGlyphs(lines[..e.y]) && RowKnown(lines[e.y][..e.x])
  {
    var lines := Lines(plan);
    var height := |lines|;
    var width := |lines[0]|;
    var startActors: seq<Actor> := [];
    var rows: seq<seq<TileKind>> := [];
    var y := 0;
    while y < |lines|
      invariant 0 <= y <= |lines|
      invariant KnownGlyphs(lines[..y])
      invariant rows == Grid(lines[..y])
      invariant startActors == Spawns(lines[..y], initialWobble)
    {
      var cells, bad;
      cells, startActors, bad := DecodeRow(lines[y], y, initialWobble, startActors);
      if bad.Some? {
        var x := bad.value;
        return Err(UnknownGlyph(lines[y][x], x, y));
      }
      LinesPrefixStep(lines, y, initialWobble);
      rows := rows + [cells];
      y := y + 1;
    }
    assert lines[..y] == lines;
    return Ok(Level(width, height, rows, startActors));
  }

  // ---- what construction promises about the start actors ---------------------

  /** The number of actor glyphs in a row. */
  function SpawnCount(row: string): nat
    decreases |row|
  {
    if row == [] then 0
    else SpawnCount(row[..|row| - 1]) + (if IsActorGlyph(row[|row| - 1]) then 1 else 0)
  }

  /** The number of actor glyphs in the plan. */
  function SpawnTotal(lines: seq<string>): nat
    decreases |lines|
  {
    if lines == [] then 0 else SpawnTotal(lines[..|lines| - 1]) + SpawnCount(lines[|lines| - 1])
  }

  /** The number of times `c` occurs in a row. */
  function CharCount(row: string, c: char): nat
    decreases |row|
  {
    if row == [] then 0
    else CharCount(row[..|row| - 1], c) + (if row[|row| - 1] == c then 1 else 0)
  }

  /** The number of times `c` occurs in the plan. */
  function CharTotal(lines: seq<string>, c: char): nat
    decreases |lines|
  {
    if lines == [] then 0 else CharTotal(lines[..|lines| - 1], c) + CharCount(lines[|lines| - 1], c)
  }

  lemma {:induction false} RowSpawnsLength(row: string, y: int, initialWobble: (int, int) -> real)
    requires RowKnown(row)
    ensures |RowSpawns(row, y, initialWobble)| == SpawnCount(row)
    ensures PlayerCount(RowSpawns(row, y, initialWobble)) == CharCount(row, '@')
    decreases |row|
  {
    if row != [] {
      var n := |row| - 1;
      RowSpawnsLength(row[..n], y, initialWobble);
      PlayerCountAppend(RowSpawns(row[..n], y, initialWobble), CellSpawns(row[n], n, y, initialWobble));
      var cell := CellSpawns(row[n], n, y, initialWobble);
      assert cell != [] ==> cell[..0] == [];
    }
  }

  /**
   * Each actor glyph contributes exactly one actor, and row `y`'s actors come in
   * left-to-right order: the actor of cell `x` is preceded by one actor per actor glyph
   * left of it.
   */
  lemma {:induction false} RowSpawnsAt(row: string, y: int, initialWobble: (int, int) -> real, x: nat)
    requires RowKnown(row) && x < |row| && IsActorGlyph(row[x])
    ensures SpawnCount(row[..x]) < |RowSpawns(row, y, initialWobble)|
    ensures RowSpawns(row, y, initialWobble)[SpawnCount(row[..x])] == SpawnAt(row[x], x, y, initialWobble)
    decreases |row|
  {
    var n := |row| - 1;
    assert RowKnown(row[..n]) by {
      forall j | 0 <= j < n ensures LevelChar(row[..n][j]).Some? {
        assert row[..n][j] == row[j];
      }
    }
    var front := RowSpawns(row[..n], y, initialWobble);
    var cell := CellSpawns(row[n], n, y, initialWobble);
    assert RowSpawns(row, y, initialWobble) == front + cell;
    RowSpawnsLength(row[..n], y, initialWobble);
    if x == n {
      assert row[..x] == row[..n];
      assert cell == [SpawnAt(row[x], x, y, initialWobble)];
      assert (front + cell)[|front|] == cell[0];
    } else {
      assert row[..n][..x] == row[..x];
      assert row[..n][x] == row[x];
      RowSpawnsAt(row[..n], y, initialWobble, x);
      var k := SpawnCount(row[..x]);
      assert (front + cell)[k] == front[k];
    }
  }

  lemma {:induction false} SpawnsLength(lines: seq<string>, initialWobble: (int, int) -> real)
    requires KnownGlyphs(lines)
    ensures |Spawns(lines, initialWobble)| == SpawnTotal(lines)
    ensures PlayerCount(Spawns(lines, initialWobble)) == CharTotal(lines, '@')
    decreases |lines|
  {
    if lines != [] {
      var n := |lines| - 1;
      SpawnsLength(lines[..n], initialWobble);
      RowSpawnsLength(lines[n], n, initialWobble);
      PlayerCountAppend(Spawns(lines[..n], initialWobble), RowSpawns(lines[n], n, initialWobble));
    }
  }

  /**
   * Start actors come in row-major scan order: the actor of the actor glyph at
   * (`x`, `y`) sits at the index that counts the actor glyphs of all earlier rows
   * and those left of it in its row. Distinct actor cells so get distinct indices,
   * and with `SpawnsLength` every start actor belongs to exactly one actor glyph.
   */
  lemma {:induction false} SpawnsAt(lines: seq<string>, initialWobble: (int, int) -> real, x: nat, y: nat)
    requires KnownGlyphs(lines) && y < |lines| && x < |lines[y]| && IsActorGlyph(lines[y][x])
    ensures SpawnTotal(lines[..y]) + SpawnCount(lines[y][..x]) < |Spawns(lines, initialWobble)|
    ensures Spawns(lines, initialWobble)[SpawnTotal(lines[..y]) + SpawnCount(lines[y][..x])]
            == SpawnAt(lines[y][x], x, y, initialWobble)
    decreases |lines|
  {
    var n := |lines| - 1;
    SpawnsSplit(lines, initialWobble);
    var front := Spawns(lines[..n], initialWobble);
    var last := RowSpawns(lines[n], n, initialWobble);
    if y == n {
      assert lines[..y] == lines[..n];
      RowSpawnsAt(lines[n], n, initialWobble, x);
      var k := SpawnCount(lines[y][..x]);
      assert (front + last)[|front| + k] == last[k];
    } else {
      assert lines[..n][..y] == lines[..y];
      assert lines[..n][y] == lines[y];
      SpawnsAt(lines[..n], initialWobble, x, y);
      var k := SpawnTotal(lines[..y]) + SpawnCount(lines[y][..x]);
      assert (front + last)[k] == front[k];
    }
  }

  /** The start actors of a plan are those of all rows but the last, then the last row's. */
  lemma SpawnsSplit(lines: seq<string>, initialWobble: (int, int) -> real)
    requires KnownGlyphs(lines) && lines != []
    ensures KnownGlyphs(lines[..|lines| - 1])
    ensures Spawns(lines, initialWobble)
            == Spawns(lines[..|lines| - 1], initialWobble) + RowSpawns(lines[|lines| - 1], |lines| - 1, initialWobble)
    ensures |Spawns(lines[..|lines| - 1], initialWobble)| == SpawnTotal(lines[..|lines| - 1])
  {
    var n := |lines| - 1;
    assert KnownGlyphs(lines[..n]) by {
      forall j | 0 <= j < n ensures RowKnown(lines[..n][j]) {
        assert lines[..n][j] == lines[j];
      }
    }
    SpawnsLength(lines[..n], initialWobble);
  }


  /**
   * The grid of a built level: one row per plan row, `width` from the first row,
   * background glyphs decode to their tile and actor glyphs leave `"empty"`.
   */
  lemma BuiltLevelGrid(lines: seq<string>, initialWobble: (int, int) -> real, x: nat, y: nat)
    requires |lines| >= 1 && KnownGlyphs(lines) && y < |lines| && x < |lines[y]|
    ensures var level := BuiltLevel(lines, initialWobble);
            && level.height == |level.rows| == |lines| && level.width == |lines[0]|
            && |level.rows[y]| == |lines[y]|
            && (IsActorGlyph(lines[y][x]) ==> level.rows[y][x] == Empty)
            && (lines[y][x] == '#' ==> level.rows[y][x] == Wall)
            && (lines[y][x] == '+' ==> level.rows[y][x] == LavaTile)
            && (lines[y][x] == '.' ==> level.rows[y][x] == Empty)
  {
  }
}
