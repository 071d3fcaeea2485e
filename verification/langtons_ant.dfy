/** langtons-ant/ant.js: a five-colour turmite on an unbounded plane stored
    sparsely as 10 x 10 tiles that are created on first write. */
module LangtonsAnt {
  import opened JsCore

  const TileSize: int := 10

  /** Headings: `Ant.left`, `Ant.up`, `Ant.right`, `Ant.down`. */
  const Left: int := 0
  const Up: int := 1
  const Right: int := 2
  const Down: int := 3

  type Tile = seq<seq<int>>

  /** The ant: its tiles keyed by tile coordinates, its heading and its
      position. */
  datatype Ant = Ant(tiles: map<(int, int), Tile>, dir: int, x: int, y: int)

  /** The rule table `rules[colour] = [turn, new colour]`; every other colour
      indexes a hole of the array and reads `undefined`. */
  function RuleFor(colour: int): (r: Option<(int, int)>)
    ensures r.Some? <==> colour in {0, 3, 4, 8, 10}
    ensures r.Some? ==> (r.value.0 == 1 || r.value.0 == -1)
  {
    if colour == 0 then Some((1, 3))
    else if colour == 3 then Some((-1, 4))
    else if colour == 4 then Some((-1, 8))
    else if colour == 8 then Some((1, 10))
    else if colour == 10 then Some((-1, 0))
    else None
  }

  /** The rule table is closed: every new colour it paints has a rule. */
  lemma RulesClosed(colour: int)
    requires RuleFor(colour).Some?
    ensures RuleFor(RuleFor(colour).value.1).Some?
  {
  }

  /** `new Ant()`: no tiles, heading right, at the origin. */
  function New(): (a: Ant)
    ensures a.tiles == map[] && a.dir == Right && a.x == 0 && a.y == 0
    ensures Inv(a)
  {
    Ant(map[], Right, 0, 0)
  }

  /** Every tile is 10 x 10. */
  ghost predicate TilesWellFormed(tiles: map<(int, int), Tile>)
  {
    forall k :: k in tiles ==>
      |tiles[k]| == TileSize && forall r :: 0 <= r < |tiles[k]| ==> |tiles[k][r]| == TileSize
  }

  /** The invariant of every reachable ant: well-formed tiles whose colours
      all have a rule, and a heading among the four. */
  ghost predicate Inv(a: Ant)
  {
    TilesWellFormed(a.tiles) && 0 <= a.dir < 4
    && forall k, r, c {:trigger RuleFor(a.tiles[k][r][c])} :: k in a.tiles && 0 <= r < |a.tiles[k]| && 0 <= c < |a.tiles[k][r]| ==>
         RuleFor(a.tiles[k][r][c]).Some?
  }

  /** The tile key `floor(x / 10):floor(y / 10)`; with a positive divisor
      Dafny's `/` is the floor. The string key is kept as the pair it
      spells. */
  function Key(x: int, y: int): (k: (int, int))
    ensures k.0 * TileSize <= x < k.0 * TileSize + TileSize
    ensures k.1 * TileSize <= y < k.1 * TileSize + TileSize
  {
    (x / TileSize, y / TileSize)
  }

  /** `_getIndex(v)`: `((v % 10) + 10) % 10`, the Euclidean residue. */
  function Index(v: int): (i: int)
    ensures 0 <= i < TileSize && i == v % TileSize
  {
    WrapIsMod(v, TileSize);
    Wrap(v, TileSize)
  }

  /** A coordinate is determined by its tile number and its index in the
      tile, so distinct cells never share storage. */
  lemma KeyIndexInjective(v: int, v': int)
    requires v / TileSize == v' / TileSize && Index(v) == Index(v')
    ensures v == v'
  {
  }

  /** `_generateTile()`: 10 rows of 10 zeros. */
  function GenerateTile(): (t: Tile)
    ensures |t| == TileSize && forall r :: 0 <= r < |t| ==> |t[r]| == TileSize
    ensures forall r, c :: 0 <= r < |t| && 0 <= c < |t[r]| ==> t[r][c] == 0
  {
    seq(TileSize, _ => seq(TileSize, _ => 0))
  }

  /** `getCell(x, y)`: 0 when the tile has not been created. */
  function GetCell(a: Ant, x: int, y: int): (c: int)
    requires TilesWellFormed(a.tiles)
    ensures Key(x, y) !in a.tiles ==> c == 0
  {
    var k := Key(x, y);
    if k !in a.tiles then 0 else a.tiles[k][Index(y)][Index(x)]
  }

  /** `setCell(x, y, v)`: creates the tile if needed, then writes one entry;
      heading and position are untouched. */
  function SetCell(a: Ant, x: int, y: int, v: int): (a': Ant)
    requires TilesWellFormed(a.tiles)
    ensures TilesWellFormed(a'.tiles)
    ensures a'.tiles.Keys == a.tiles.Keys + {Key(x, y)}
    ensures a'.dir == a.dir && a'.x == a.x && a'.y == a.y
    ensures GetCell(a', x, y) == v
  {
    var k := Key(x, y);
    var tile := if k in a.tiles then a.tiles[k] else GenerateTile();
    var iy, ix := Index(y), Index(x);
    a.(tiles := a.tiles[k := tile[iy := tile[iy][ix := v]]])
  }

  /** `setCell` changes no other cell, created tile or not. */
  lemma SetCellFrame(a: Ant, x: int, y: int, v: int, x': int, y': int)
    requires TilesWellFormed(a.tiles) && (x', y') != (x, y)
    ensures GetCell(SetCell(a, x, y, v), x', y') == GetCell(a, x', y')
  {
    if Key(x', y') == Key(x, y) && Index(x') == Index(x) && Index(y') == Index(y) {
      KeyIndexInjective(x, x');
      KeyIndexInjective(y, y');
    }
  }

  /** `turn(t)`: `((ant + t) % 4 + 4) % 4`, i.e. the heading plus `t` modulo
      4. */
  function Turn(a: Ant, t: int): (a': Ant)
    ensures 0 <= a'.dir < 4 && a'.dir == (a.dir + t) % 4
    ensures a'.tiles == a.tiles && a'.x == a.x && a'.y == a.y
  {
    WrapIsMod(a.dir + t, 4);
    a.(dir := Wrap(a.dir + t, 4))
  }

  /** A turn by `t` from a valid heading `d` to the heading `e`, whenever
      `e` is `d + t` modulo 4; only the heading changes. */
  lemma TurnTo(a: Ant, t: int, e: int)
    requires 0 <= e < 4 && (a.dir + t - e) % 4 == 0
    ensures Turn(a, t) == a.(dir := e)
  {
    var r := Turn(a, t);
    ModUnique(a.dir + t, 4, (a.dir + t - e) / 4, e);
    assert r.dir == e;
  }

  /** A right turn undone by a left turn restores any valid heading, and the
      other way round. */
  lemma TurnInverse(a: Ant)
    requires 0 <= a.dir < 4
    ensures Turn(Turn(a, 1), -1) == a
    ensures Turn(Turn(a, -1), 1) == a
  {
    var r := if a.dir == 3 then 0 else a.dir + 1;
    var l := if a.dir == 0 then 3 else a.dir - 1;
    TurnTo(a, 1, r);
    TurnTo(a.(dir := r), -1, a.dir);
    TurnTo(a, -1, l);
    TurnTo(a.(dir := l), 1, a.dir);
  }

  /** Two right turns reverse a valid heading. */
  lemma TurnAround(a: Ant)
    requires 0 <= a.dir < 4
    ensures Turn(Turn(a, 1), 1) == a.(dir := if a.dir < 2 then a.dir + 2 else a.dir - 2)
  {
    var d1 := if a.dir == 3 then 0 else a.dir + 1;
    TurnTo(a, 1, d1);
    TurnTo(a.(dir := d1), 1, if a.dir < 2 then a.dir + 2 else a.dir - 2);
  }

  /** Four right turns come back to any valid heading. */
  lemma FourTurns(a: Ant)
    requires 0 <= a.dir < 4
    ensures Turn(Turn(Turn(Turn(a, 1), 1), 1), 1) == a
  {
    TurnAround(a);
    TurnAround(Turn(Turn(a, 1), 1));
  }

  /** The unit step of each heading, indexed left, up, right, down; `y`
      grows downwards. */
  const Dx: seq<int> := [-1, 0, 1, 0]
  const Dy: seq<int> := [0, -1, 0, 1]

  /** The move of the `switch`: one unit along the heading, `y` growing
      downwards; any other heading does not move. */
  function Move(a: Ant): (a': Ant)
    ensures a'.tiles == a.tiles && a'.dir == a.dir
    ensures 0 <= a.dir < 4 ==> a'.x == a.x + Dx[a.dir] && a'.y == a.y + Dy[a.dir]
    ensures 0 <= a.dir < 4 ==> Abs(a'.x - a.x) + Abs(a'.y - a.y) == 1
    ensures !(0 <= a.dir < 4) ==> a' == a
  {
    if a.dir == Left then a.(x := a.x - 1)
    else if a.dir == Right then a.(x := a.x + 1)
    else if a.dir == Up then a.(y := a.y - 1)
    else if a.dir == Down then a.(y := a.y + 1)
    else a
  }

  /** `step()`: look the current colour up in the table (a colour without a
      rule makes `rule[1]` throw a TypeError), recolour the cell, turn, and
      move. */
  function Step(a: Ant): (r: Result<Ant, ErrorClass>)
    requires TilesWellFormed(a.tiles)
    ensures r.Throw? <==> RuleFor(GetCell(a, a.x, a.y)).None?
    ensures r.Throw? ==> r.reason == TypeError
    ensures r.Ok? ==> TilesWellFormed(r.value.tiles)
    ensures r.Ok? ==>
              var (t, nc) := RuleFor(GetCell(a, a.x, a.y)).value;
              GetCell(r.value, a.x, a.y) == nc
              && r.value.dir == (a.dir + t) % 4
              && r.value.x == a.x + Dx[r.value.dir] && r.value.y == a.y + Dy[r.value.dir]
    ensures r.Ok? ==> OthersKept(a, r.value)
  {
    match RuleFor(GetCell(a, a.x, a.y))
    case None => Throw(TypeError)
    case Some((t, nc)) =>
      PaintKeepsOthers(a, nc, t);
      var turned := Turn(SetCell(a, a.x, a.y, nc), t);
      assert GetCell(turned, a.x, a.y) == nc;
      Ok(Move(turned))
  }

  /** Every cell other than the ant's has the same colour in `b` as in `a`. */
  ghost predicate OthersKept(a: Ant, b: Ant)
    requires TilesWellFormed(a.tiles) && TilesWellFormed(b.tiles)
  {
    forall x', y' {:trigger GetCell(b, x', y')} :: (x', y') != (a.x, a.y) ==> GetCell(b, x', y') == GetCell(a, x', y')
  }

  /** Painting the ant's cell, and then turning and moving, which do not
      touch the tiles, keeps every other cell. */
  lemma PaintKeepsOthers(a: Ant, nc: int, t: int)
    requires TilesWellFormed(a.tiles)
    ensures OthersKept(a, Move(Turn(SetCell(a, a.x, a.y, nc), t)))
  {
    var painted := SetCell(a, a.x, a.y, nc);
    forall x', y' | (x', y') != (a.x, a.y)
      ensures GetCell(painted, x', y') == GetCell(a, x', y')
    {
      SetCellFrame(a, a.x, a.y, nc, x', y');
    }
  }

  /** `step` keeps the invariant, and from an ant satisfying it `step` never
      throws. */
  lemma {:induction false} StepPreservesInv(a: Ant)
    requires Inv(a)
    ensures Step(a).Ok?
    ensures Inv(Step(a).value)
  {
    var c := GetCell(a, a.x, a.y);
    if Key(a.x, a.y) in a.tiles {
      var k := Key(a.x, a.y);
      assert c == a.tiles[k][Index(a.y)][Index(a.x)];
    }
    assert RuleFor(c).Some?;
    var nc := RuleFor(c).value.1;
    RulesClosed(c);
    var a' := Step(a).value;
    var k := Key(a.x, a.y);
    forall k', r, col | k' in a'.tiles && 0 <= r < |a'.tiles[k']| && 0 <= col < |a'.tiles[k'][r]|
      ensures RuleFor(a'.tiles[k'][r][col]).Some?
    {
      if k' != k {
        assert a'.tiles[k'] == a.tiles[k'];
      } else if k !in a.tiles {
        var t := GenerateTile();
        assert a'.tiles[k] == t[Index(a.y) := t[Index(a.y)][Index(a.x) := nc]];
      } else {
        var t := a.tiles[k];
        assert a'.tiles[k] == t[Index(a.y) := t[Index(a.y)][Index(a.x) := nc]];
      }
    }
  }

  /** `n` calls of `step()` in a row; the first throw ends the run. */
  function Run(a: Ant, n: nat): (r: Result<Ant, ErrorClass>)
    requires TilesWellFormed(a.tiles)
    ensures r.Ok? ==> TilesWellFormed(r.value.tiles)
    ensures r.Throw? ==> r.reason == TypeError
    decreases n
  {
    if n == 0 then Ok(a)
    else
      var b :- Run(a, n - 1);
      Step(b)
  }

  /** From any ant satisfying the invariant, a new one included, any number
      of steps succeeds and ends in an ant satisfying it. */
  lemma {:induction false} RunNeverThrows(a: Ant, n: nat)
    requires Inv(a)
    ensures Run(a, n).Ok? && Inv(Run(a, n).value)
    decreases n
  {
    if n > 0 {
      RunNeverThrows(a, n - 1);
      StepPreservesInv(Run(a, n - 1).value);
    }
  }

  /** Without the invariant a run can throw: an ant standing on a colour that
      has no rule throws a TypeError on its first step, and the throw ends
      every longer run. */
  lemma {:induction false} RunThrowsWithoutRule(a: Ant, n: nat)
    requires TilesWellFormed(a.tiles) && n >= 1
    requires RuleFor(GetCell(a, a.x, a.y)).None?
    ensures Run(a, n) == Throw(TypeError)
    decreases n
  {
    if n > 1 {
      RunThrowsWithoutRule(a, n - 1);
    }
  }

  /** The first step of a new ant: the origin turns from colour 0 to 3, the
      heading from right to down, and the ant moves to `(0, 1)`. */
  lemma FirstStep()
    ensures Step(New()).Ok?
    ensures var a := Step(New()).value;
            GetCell(a, 0, 0) == 3 && a.dir == Down && a.x == 0 && a.y == 1
  {
    var a0 := New();
    assert GetCell(a0, 0, 0) == 0;
    assert RuleFor(0) == Some((1, 3));
    var a := Step(a0).value;
    assert GetCell(a, 0, 0) == 3;
    assert a.dir == Wrap(Right + 1, 4);
    WrapInRange(Right + 1, 4);
  }
}
