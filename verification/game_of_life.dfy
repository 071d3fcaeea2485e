/** conways-game-of-life/game-of-life.js: Conway's Game of Life on a torus,
    rule B3/S23, with a double-buffered synchronous step. */
module GameOfLife {
  import opened JsCore

  /** A stored cell: the constructor and `setCell` store the numbers 0 and 1,
      while `step` stores the booleans `rule` returns. */
  datatype Value = Num(k: int) | Flag(b: bool)

  /** JavaScript truthiness of a stored cell. */
  predicate Alive(v: Value)
  {
    match v
    case Num(k) => k != 0
    case Flag(b) => b
  }

  /** The game: its width and height, the visible field (rows indexed by
      `y`, then `x`) and the back buffer `step` writes into. */
  datatype Game = Game(w: int, h: int, field: seq<seq<Value>>, tmp: seq<seq<Value>>)

  /** A `rows` x `cols` array of values. */
  ghost predicate IsGrid(g: seq<seq<Value>>, cols: int, rows: int)
  {
    |g| == rows && forall y :: 0 <= y < |g| ==> |g[y]| == cols
  }

  /** A game with at least one cell whose two buffers have its shape. */
  ghost predicate Valid(g: Game)
  {
    g.w > 0 && g.h > 0 && IsGrid(g.field, g.w, g.h) && IsGrid(g.tmp, g.w, g.h)
  }

  /** Every cell of the field is dead. */
  ghost predicate AllDead(g: Game)
  {
    forall y, x :: 0 <= y < |g.field| && 0 <= x < |g.field[y]| ==> !Alive(g.field[y][x])
  }

  function Zeros(w: int, h: int): (z: seq<seq<Value>>)
    ensures IsGrid(z, if w < 0 then 0 else w, if h < 0 then 0 else h)
    ensures forall y, x :: 0 <= y < |z| && 0 <= x < |z[y]| ==> z[y][x] == Num(0)
  {
    var rows := if h < 0 then 0 else h;
    var cols := if w < 0 then 0 else w;
    seq(rows, _ => seq(cols, _ => Num(0)))
  }

  /** `new GameOfLife(width, height)`: both buffers `height` rows of `width`
      zeros, every cell dead. */
  function New(w: int, h: int): (g: Game)
    ensures g.w == w && g.h == h
    ensures w > 0 && h > 0 ==> Valid(g)
    ensures AllDead(g)
  {
    Game(w, h, Zeros(w, h), Zeros(w, h))
  }

  /** `new GameOfLife()` uses a 100 x 100 field. */
  function Default(): (g: Game)
    ensures Valid(g) && g.w == 100 && g.h == 100
  {
    New(100, 100)
  }

  /** `xIndex(x)`: `((x % w) + w) % w`, the Euclidean residue of `x`. */
  function XIndex(g: Game, x: int): (i: int)
    requires g.w > 0
    ensures 0 <= i < g.w && i == x % g.w
  {
    WrapIsMod(x, g.w);
    Wrap(x, g.w)
  }

  /** `yIndex(y)`: `((y % h) + h) % h`, the Euclidean residue of `y`. */
  function YIndex(g: Game, y: int): (i: int)
    requires g.h > 0
    ensures 0 <= i < g.h && i == y % g.h
  {
    WrapIsMod(y, g.h);
    Wrap(y, g.h)
  }

  /** `cell(x, y)`: the value at the wrapped coordinates. */
  function Cell(g: Game, x: int, y: int): (v: Value)
    requires Valid(g)
    ensures v == g.field[y % g.h][x % g.w]
  {
    g.field[YIndex(g, y)][XIndex(g, x)]
  }

  /** `setCell(x, y, val)`: stores 1 for a truthy `val` and 0 otherwise at the
      wrapped coordinates. */
  function SetCell(g: Game, x: int, y: int, val: Value): (g': Game)
    requires Valid(g)
    ensures Valid(g') && g'.w == g.w && g'.h == g.h && g'.tmp == g.tmp
    ensures Cell(g', x, y) == if Alive(val) then Num(1) else Num(0)
  {
    var yi, xi := YIndex(g, y), XIndex(g, x);
    g.(field := g.field[yi := g.field[yi][xi := if Alive(val) then Num(1) else Num(0)]])
  }

  /** The eight neighbour offsets in the order `rule` visits them, the
      centre skipped. */
  const Offsets: seq<(int, int)> :=
    [(-1, -1), (-1, 0), (-1, 1), (0, -1), (0, 1), (1, -1), (1, 0), (1, 1)]

  /** How many of the cells at `(x, y) + offs[i]`, for `i < k`, are alive. */
  function CountAlive(g: Game, x: int, y: int, offs: seq<(int, int)>, k: nat): (n: int)
    requires Valid(g) && k <= |offs|
    ensures 0 <= n <= k
    ensures (forall i :: 0 <= i < k ==> !Alive(Cell(g, x + offs[i].0, y + offs[i].1))) ==> n == 0
  {
    if k == 0 then 0
    else CountAlive(g, x, y, offs, k - 1) + (if Alive(Cell(g, x + offs[k - 1].0, y + offs[k - 1].1)) then 1 else 0)
  }

  /** The live-neighbour count of `rule`: the eight wrapped neighbours, the
      cell itself excluded. */
  function Neighbours(g: Game, x: int, y: int): (n: int)
    requires Valid(g)
    ensures 0 <= n <= 8
  {
    CountAlive(g, x, y, Offsets, |Offsets|)
  }

  /** `rule(x, y)`: a live cell survives with 2 or 3 live neighbours, a dead
      one is born with exactly 3. */
  function Rule(g: Game, x: int, y: int): (b: bool)
    requires Valid(g)
    ensures b ==> 2 <= Neighbours(g, x, y) <= 3
    ensures Neighbours(g, x, y) == 3 ==> b
  {
    var n := Neighbours(g, x, y);
    if Alive(Cell(g, x, y)) then n == 2 || n == 3 else n == 3
  }

  /** B3/S23 in its usual form: a cell is alive next generation iff it has
      three live neighbours, or it is alive and has two. */
  lemma RuleIsB3S23(g: Game, x: int, y: int)
    requires Valid(g)
    ensures Rule(g, x, y) <==> Neighbours(g, x, y) == 3 || (Alive(Cell(g, x, y)) && Neighbours(g, x, y) == 2)
    ensures Rule(g, x, y) ==> 2 <= Neighbours(g, x, y) <= 3
  {
  }

  /** The field `step` computes: `rule` evaluated on the old field at every
      cell. */
  function NextField(g: Game): (f: seq<seq<Value>>)
    requires Valid(g)
    ensures IsGrid(f, g.w, g.h)
  {
    seq(g.h, y requires 0 <= y < g.h => seq(g.w, x requires 0 <= x < g.w => Flag(Rule(g, x, y))))
  }

  /** The inner loop of `step()`: writes `rule(x, y)` into row `y` of the
      back buffer, leaving the other rows as they were. */
  method StepRow(g: Game, tmp: seq<seq<Value>>, y: int) returns (tmp': seq<seq<Value>>)
    requires Valid(g) && IsGrid(tmp, g.w, g.h) && 0 <= y < g.h
    ensures IsGrid(tmp', g.w, g.h)
    ensures forall j :: 0 <= j < g.h && j != y ==> tmp'[j] == tmp[j]
    ensures forall i :: 0 <= i < g.w ==> tmp'[y][i] == Flag(Rule(g, i, y))
  {
    tmp' := tmp;
    var x := 0;
    while x < g.w
      invariant 0 <= x <= g.w
      invariant IsGrid(tmp', g.w, g.h)
      invariant forall j :: 0 <= j < g.h && j != y ==> tmp'[j] == tmp[j]
      invariant forall i :: 0 <= i < x ==> tmp'[y][i] == Flag(Rule(g, i, y))
    {
      tmp' := tmp'[y := tmp'[y][x := Flag(Rule(g, x, y))]];
      x := x + 1;
    }
  }

  /** `step()`: writes `rule(x, y)` into the back buffer row by row, then
      swaps the buffers. */
  method Step(g: Game) returns (g': Game)
    requires Valid(g)
    ensures Valid(g') && g'.w == g.w && g'.h == g.h
    ensures forall y, x :: 0 <= y < g.h && 0 <= x < g.w ==> g'.field[y][x] == Flag(Rule(g, x, y))
    ensures g'.tmp == g.field
    ensures g'.field == NextField(g)
  {
    var tmp := g.tmp;
    var y := 0;
    while y < g.h
      invariant 0 <= y <= g.h
      invariant IsGrid(tmp, g.w, g.h)
      invariant forall j, i :: 0 <= j < y && 0 <= i < g.w ==> tmp[j][i] == Flag(Rule(g, i, j))
    {
      tmp := StepRow(g, tmp, y);
      y := y + 1;
    }
    g' := Game(g.w, g.h, tmp, g.field);
    assert g'.field == NextField(g) by {
      StepIsNextField(g, g');
    }
  }

  /** The loop computes exactly `NextField`. */
  lemma StepIsNextField(g: Game, g': Game)
    requires Valid(g) && Valid(g') && g'.w == g.w && g'.h == g.h
    requires forall y, x :: 0 <= y < g.h && 0 <= x < g.w ==> g'.field[y][x] == Flag(Rule(g, x, y))
    ensures g'.field == NextField(g)
  {
    var f := NextField(g);
    assert |g'.field| == |f|;
    forall y | 0 <= y < g.h
      ensures g'.field[y] == f[y]
    {
      assert |g'.field[y]| == |f[y]| == g.w;
      forall x | 0 <= x < g.w
        ensures g'.field[y][x] == f[y][x]
      {
      }
    }
  }

  /** The indices are the identity on in-range coordinates. */
  lemma IndexInRange(g: Game, x: int, y: int)
    requires Valid(g) && 0 <= x < g.w && 0 <= y < g.h
    ensures XIndex(g, x) == x && YIndex(g, y) == y
    ensures Cell(g, x, y) == g.field[y][x]
  {
    WrapInRange(x, g.w);
    WrapInRange(y, g.h);
  }

  /** The field is a torus: a shift by the width or the height reads the
      same cell. */
  lemma CellPeriodic(g: Game, x: int, y: int)
    requires Valid(g)
    ensures Cell(g, x + g.w, y) == Cell(g, x, y)
    ensures Cell(g, x, y + g.h) == Cell(g, x, y)
  {
    WrapPeriodic(x, g.w);
    WrapPeriodic(y, g.h);
  }

  /** `setCell` changes no cell other than the one it wraps to. */
  lemma SetCellFrame(g: Game, x: int, y: int, val: Value, x': int, y': int)
    requires Valid(g)
    requires XIndex(g, x') != XIndex(g, x) || YIndex(g, y') != YIndex(g, y)
    ensures Cell(SetCell(g, x, y, val), x', y') == Cell(g, x', y')
  {
  }

  /** No live cell means no live neighbour. */
  lemma {:induction false} DeadHasNoNeighbours(g: Game, x: int, y: int, offs: seq<(int, int)>)
    requires Valid(g) && AllDead(g)
    ensures CountAlive(g, x, y, offs, |offs|) == 0
  {
    forall i | 0 <= i < |offs|
      ensures !Alive(Cell(g, x + offs[i].0, y + offs[i].1))
    {
      var xi, yi := XIndex(g, x + offs[i].0), YIndex(g, y + offs[i].1);
      assert Cell(g, x + offs[i].0, y + offs[i].1) == g.field[yi][xi];
    }
  }

  /** An all-dead field stays all-dead. */
  lemma AllDeadStaysDead(g: Game, g': Game)
    requires Valid(g) && AllDead(g)
    requires Valid(g') && g'.w == g.w && g'.h == g.h
    requires forall y, x :: 0 <= y < g.h && 0 <= x < g.w ==> g'.field[y][x] == Flag(Rule(g, x, y))
    ensures AllDead(g')
  {
    forall y, x | 0 <= y < g.h && 0 <= x < g.w
      ensures !Alive(g'.field[y][x])
    {
      DeadHasNoNeighbours(g, x, y, Offsets);
    }
  }
}
