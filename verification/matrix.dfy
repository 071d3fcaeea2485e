/** The dense matrix of math/Matrix.js, as a value.

    A matrix is an array of columns: `g[x][y]` is the cell in column `x` and
    row `y`. `width` is the number of columns and `height` the length of
    column 0. Cells are exact reals. The JavaScript class mutates itself in
    place; here every operation maps the old contents to the new ones, and
    module MatrixObjects adds object identity on top. */
module Matrices {
  import opened JsCore

  type Grid = seq<seq<real>>

  /** Which of the file's `throw` statements ran. */
  datatype MatrixError =
    | NotTwoDimensional   // fromArray: no column, or an empty column 0
    | DimensionMismatch   // add/subtract: widths or heights differ
    | ContractionMismatch // dot: this.width != m.height
    | EmptyShape          // reshape: a requested dimension below 1

  function ClassOf(e: MatrixError): ErrorClass
  {
    if e == EmptyShape then RangeError else Error
  }

  /** `width`: the number of columns, `this.length`. */
  function Width(g: Grid): (w: nat)
    ensures w == |g|
  {
    |g|
  }

  /** `height`: the length of column 0, and 0 for a matrix without columns. */
  function Height(g: Grid): (h: nat)
    ensures Width(g) == 0 ==> h == 0
    ensures Width(g) > 0 ==> h == |g[0]|
  {
    if |g| == 0 then 0 else |g[0]|
  }

  /** Every column has exactly `h` cells and there are `w` columns. */
  ghost predicate HasShape(g: Grid, w: int, h: int)
  {
    |g| == w && forall x :: 0 <= x < |g| ==> |g[x]| == h
  }

  /** Every column is as long as column 0. `fromArray` does not check this. */
  ghost predicate Rectangular(g: Grid)
  {
    HasShape(g, Width(g), Height(g))
  }

  function Count(n: int): nat
  {
    if n < 0 then 0 else n
  }

  /** `new Matrix(w, h)` with numbers: `w` columns of `h` zeros (none when a
      bound is not positive, since the loops do not run). */
  function Zeros(w: int, h: int): (g: Grid)
    ensures HasShape(g, Count(w), Count(h))
    ensures w >= 1 ==> Width(g) == w && Height(g) == Count(h)
    ensures forall x, y :: 0 <= x < |g| && 0 <= y < |g[x]| ==> g[x][y] == 0.0
  {
    seq(Count(w), _ => seq(Count(h), _ => 0.0))
  }

  /** `fromArray(array)`: refuse an array with no column or an empty column 0,
      otherwise copy every column. Raggedness is not checked. */
  function FromArray(a: Grid): (r: Result<Grid, MatrixError>)
    ensures r.Throw? <==> Width(a) == 0 || Height(a) == 0
    ensures r.Throw? ==> r.reason == NotTwoDimensional
    ensures r.Ok? ==> r.value == a && Width(r.value) >= 1 && Height(r.value) >= 1
  {
    if |a| == 0 || |a[0]| == 0 then Throw(NotTwoDimensional) else Ok(a)
  }

  /** `clone()` is `new Matrix(this)`, which goes through `fromArray`. */
  function Clone(g: Grid): (r: Result<Grid, MatrixError>)
    ensures r.Throw? <==> Width(g) == 0 || Height(g) == 0
    ensures r.Ok? ==> r.value == g
  {
    FromArray(g)
  }

  /** `forEach(func)`: every cell `(x, y)` becomes `func(old, x, y)`. */
  function ForEach(g: Grid, f: (real, nat, nat) -> real): (r: Grid)
    requires Rectangular(g)
    ensures HasShape(r, Width(g), Height(g))
    ensures forall x, y :: 0 <= x < Width(g) && 0 <= y < Height(g) ==> r[x][y] == f(g[x][y], x, y)
  {
    seq(|g|, x requires 0 <= x < |g| => seq(|g[x]|, y requires 0 <= y < |g[x]| => f(g[x][y], x, y)))
  }

  /** `add(m)`: refuse operands of different shape, else add cell-wise. */
  function Add(a: Grid, b: Grid): (r: Result<Grid, MatrixError>)
    requires Rectangular(a) && Rectangular(b)
    ensures r.Throw? <==> Width(a) != Width(b) || Height(a) != Height(b)
    ensures r.Throw? ==> r.reason == DimensionMismatch
    ensures r.Ok? ==> HasShape(r.value, Width(a), Height(a))
    ensures r.Ok? ==> forall x, y :: 0 <= x < Width(a) && 0 <= y < Height(a) ==>
                        r.value[x][y] == a[x][y] + b[x][y]
  {
    if Width(a) != Width(b) || Height(a) != Height(b) then Throw(DimensionMismatch)
    else Ok(seq(|a|, x requires 0 <= x < |a| =>
      seq(|a[x]|, y requires 0 <= y < |a[x]| => a[x][y] + b[x][y])))
  }

  /** `subtract(m)`: refuse operands of different shape, else subtract
      cell-wise. */
  function Subtract(a: Grid, b: Grid): (r: Result<Grid, MatrixError>)
    requires Rectangular(a) && Rectangular(b)
    ensures r.Throw? <==> Width(a) != Width(b) || Height(a) != Height(b)
    ensures r.Throw? ==> r.reason == DimensionMismatch
    ensures r.Ok? ==> HasShape(r.value, Width(a), Height(a))
    ensures r.Ok? ==> forall x, y :: 0 <= x < Width(a) && 0 <= y < Height(a) ==>
                        r.value[x][y] == a[x][y] - b[x][y]
  {
    if Width(a) != Width(b) || Height(a) != Height(b) then Throw(DimensionMismatch)
    else Ok(seq(|a|, x requires 0 <= x < |a| =>
      seq(|a[x]|, y requires 0 <= y < |a[x]| => a[x][y] - b[x][y])))
  }

  /** `subtract(b)` undoes `add(b)` on matrices of one shape. */
  lemma SubtractUndoesAdd(a: Grid, b: Grid)
    requires Rectangular(a) && Rectangular(b)
    requires Width(a) == Width(b) && Height(a) == Height(b)
    ensures Add(a, b).Ok? && Rectangular(Add(a, b).value)
    ensures Subtract(Add(a, b).value, b) == Ok(a)
  {
    var s := Add(a, b).value;
    assert Height(s) == Height(a);
    assert Subtract(s, b).Ok?;
    var d := Subtract(s, b).value;
    assert |d| == |a|;
    forall x | 0 <= x < |a|
      ensures d[x] == a[x]
    {
      assert |d[x]| == |a[x]|;
      forall y | 0 <= y < |a[x]|
        ensures d[x][y] == a[x][y]
      {
      }
    }
    assert d == a;
  }

  /** `multiply(val)`: scale every cell. */
  function Multiply(g: Grid, val: real): (r: Grid)
    requires Rectangular(g)
    ensures HasShape(r, Width(g), Height(g))
    ensures forall x, y :: 0 <= x < Width(g) && 0 <= y < Height(g) ==> r[x][y] == g[x][y] * val
  {
    ForEach(g, (e, x, y) => e * val)
  }

  /** `diagonalOnes()`: 1 on the diagonal `x == y`, 0 elsewhere, whatever the
      cells held before. */
  function DiagonalOnes(g: Grid): (r: Grid)
    requires Rectangular(g)
    ensures HasShape(r, Width(g), Height(g))
    ensures forall x, y :: 0 <= x < Width(g) && 0 <= y < Height(g) ==>
              r[x][y] == if x == y then 1.0 else 0.0
  {
    ForEach(g, (e, x, y) => if x == y then 1.0 else 0.0)
  }

  /** The first `k` terms of the accumulation in `dot`:
      `m[x][0] * this[0][y] + ... + m[x][k-1] * this[k-1][y]`. */
  function DotSum(self: Grid, m: Grid, x: nat, y: nat, k: nat): real
    requires x < |m| && k <= |m[x]| && k <= |self|
    requires forall i :: 0 <= i < k ==> y < |self[i]|
  {
    if k == 0 then 0.0 else DotSum(self, m, x, y, k - 1) + m[x][k - 1] * self[k - 1][y]
  }

  /** `this.dot(m)`: refuse unless `this.width == m.height`; otherwise a new
      `m.width` by `this.height` matrix whose cell `(x, y)` is the sum over
      `i < this.width` of `m[x][i] * this[i][y]` (the usual product
      `this * m` in row-and-column terms). */
  function Dot(self: Grid, m: Grid): (r: Result<Grid, MatrixError>)
    requires Rectangular(self) && Rectangular(m)
    ensures r.Throw? <==> Width(self) != Height(m)
    ensures r.Throw? ==> r.reason == ContractionMismatch
    ensures r.Ok? ==> HasShape(r.value, Width(m), Height(self))
    ensures r.Ok? ==> forall x, y :: 0 <= x < Width(m) && 0 <= y < Height(self) ==>
                        r.value[x][y] == DotSum(self, m, x, y, Width(self))
  {
    if Width(self) != Height(m) then Throw(ContractionMismatch)
    else
      var e := Zeros(Width(m), Height(self));
      Ok(seq(|e|, x requires 0 <= x < |e| =>
        seq(|e[x]|, y requires 0 <= y < |e[x]| => e[x][y] + DotSum(self, m, x, y, Width(self)))))
  }

  /** The getter `T`: a new `height` by `width` matrix with `T[y][x] == g[x][y]`. */
  function T(g: Grid): (r: Grid)
    requires Rectangular(g)
    ensures HasShape(r, Height(g), Width(g))
    ensures forall x, y :: 0 <= x < Width(g) && 0 <= y < Height(g) ==> r[y][x] == g[x][y]
  {
    seq(Height(g), y requires 0 <= y < Height(g) => seq(|g|, x requires 0 <= x < |g| => g[x][y]))
  }

  /** One column brought to length `h`: cut, or extended with zeros. */
  function Fit(c: seq<real>, h: nat): (r: seq<real>)
    ensures |r| == h
    ensures forall y :: 0 <= y < h ==> r[y] == if y < |c| then c[y] else 0.0
  {
    if |c| >= h then c[..h] else c + seq(h - |c|, _ => 0.0)
  }

  /** `reshape(width, height)`: refuse a dimension below 1 with a RangeError;
      otherwise drop columns beyond `width`, append empty columns up to
      `width`, and fit every column to `height`. */
  function Reshape(g: Grid, w: int, h: int): (r: Result<Grid, MatrixError>)
    ensures r.Throw? <==> w < 1 || h < 1
    ensures r.Throw? ==> ClassOf(r.reason) == RangeError
    ensures r.Ok? ==> HasShape(r.value, w, h) && Width(r.value) == w && Height(r.value) == h
    ensures r.Ok? ==> forall x, y :: 0 <= x < w && 0 <= y < h ==>
                        r.value[x][y] == if x < |g| && y < |g[x]| then g[x][y] else 0.0
  {
    if w < 1 || h < 1 then Throw(EmptyShape)
    else
      var cols := if |g| > w then g[..w] else g + seq(w - |g|, _ => []);
      Ok(seq(w, x requires 0 <= x < w => Fit(cols[x], h)))
  }

  // ---------------------------------------------------------------------
  // Properties relating the operations

  /** Transposing twice gives back a rectangular matrix with at least one row. */
  lemma TransposeInvolution(g: Grid)
    requires Rectangular(g) && Height(g) >= 1
    ensures T(T(g)) == g
  {
    var t := T(g);
    assert HasShape(t, Height(g), Width(g));
    assert Width(g) >= 1;
    var tt := T(t);
    assert |tt| == |g|;
    forall x | 0 <= x < |g|
      ensures tt[x] == g[x]
    {
      assert |tt[x]| == |g[x]|;
    }
  }

  /** With no rows the getter cannot recover the width: a matrix of one empty
      column transposes to the empty matrix and stays there. */
  lemma TransposeForgetsEmptyColumns()
    ensures T(T([[]])) == [] != [[]]
  {
  }

  /** The transposition law for `dot` needs a row: `new Matrix(1, 0)` times
      `[[1]]` succeeds, but `[[1]].T.dot(new Matrix(1, 0).T)` throws, since
      the empty transpose has height 0. */
  lemma DotTransposeNeedsRows()
    ensures Dot(Zeros(1, 0), [[1.0]]).Ok?
    ensures Dot(T([[1.0]]), T(Zeros(1, 0))).Throw?
  {
  }

  /** Reshaping twice to the same shape changes nothing the second time. */
  lemma ReshapeIdempotent(g: Grid, w: int, h: int)
    requires w >= 1 && h >= 1
    ensures Reshape(Reshape(g, w, h).value, w, h) == Reshape(g, w, h)
  {
    var once := Reshape(g, w, h).value;
    var twice := Reshape(once, w, h).value;
    assert |twice| == |once|;
    forall x | 0 <= x < w
      ensures twice[x] == once[x]
    {
      assert |twice[x]| == |once[x]| == h;
      forall y | 0 <= y < h
        ensures twice[x][y] == once[x][y]
      {
      }
    }
    assert twice == once;
  }

  /** Reshaping to the current shape of a rectangular matrix changes nothing. */
  lemma ReshapeToOwnShape(g: Grid)
    requires Rectangular(g) && Width(g) >= 1 && Height(g) >= 1
    ensures Reshape(g, Width(g), Height(g)) == Ok(g)
  {
    var r := Reshape(g, Width(g), Height(g)).value;
    forall x | 0 <= x < |g|
      ensures r[x] == g[x]
    {
      assert |r[x]| == |g[x]|;
      forall y | 0 <= y < |g[x]|
        ensures r[x][y] == g[x][y]
      {
      }
    }
    assert r == g;
  }

  /** The `n` by `n` identity that `new Matrix(n, n).diagonalOnes()` builds. */
  function Identity(n: nat): (r: Grid)
    ensures Rectangular(r) && Width(r) == n && (n >= 1 ==> Height(r) == n)
  {
    DiagonalOnes(Zeros(n, n))
  }

  /** A sum whose only non-zero term is the one at index `j` (if `j < k`). */
  lemma {:induction false} DotSumIdentityRight(self: Grid, n: nat, x: nat, y: nat, k: nat)
    requires Rectangular(self) && Width(self) == n && y < Height(self)
    requires x < n && k <= n
    ensures DotSum(self, Identity(n), x, y, k) == if x < k then self[x][y] else 0.0
  {
    if k > 0 {
      DotSumIdentityRight(self, n, x, y, k - 1);
    }
  }

  lemma {:induction false} DotSumIdentityLeft(m: Grid, n: nat, x: nat, y: nat, k: nat)
    requires Rectangular(m) && Height(m) == n && x < Width(m)
    requires y < n && k <= n
    ensures DotSum(Identity(n), m, x, y, k) == if y < k then m[x][y] else 0.0
  {
    if k > 0 {
      DotSumIdentityLeft(m, n, x, y, k - 1);
    }
  }

  /** The identity built by `diagonalOnes` is neutral for `dot` on both sides. */
  lemma DotIdentity(g: Grid)
    requires Rectangular(g) && Width(g) >= 1 && Height(g) >= 1
    ensures Dot(g, Identity(Width(g))) == Ok(g)
    ensures Dot(Identity(Height(g)), g) == Ok(g)
  {
    var w, h := Width(g), Height(g);
    var right := Dot(g, Identity(w)).value;
    assert |right| == w;
    forall x | 0 <= x < w
      ensures right[x] == g[x]
    {
      assert |right[x]| == h == |g[x]|;
      forall y | 0 <= y < h
        ensures right[x][y] == g[x][y]
      {
        DotSumIdentityRight(g, w, x, y, w);
      }
    }
    assert right == g;
    var left := Dot(Identity(h), g).value;
    assert |left| == w;
    forall x | 0 <= x < w
      ensures left[x] == g[x]
    {
      assert |left[x]| == h == |g[x]|;
      forall y | 0 <= y < h
        ensures left[x][y] == g[x][y]
      {
        DotSumIdentityLeft(g, h, x, y, h);
      }
    }
    assert left == g;
  }

  lemma {:induction false} DotSumTranspose(a: Grid, b: Grid, x: nat, y: nat, k: nat)
    requires Rectangular(a) && Rectangular(b) && Width(a) == Height(b)
    requires x < Width(b) && y < Height(a) && k <= Width(a)
    ensures DotSum(T(b), T(a), y, x, k) == DotSum(a, b, x, y, k)
  {
    if k > 0 {
      DotSumTranspose(a, b, x, y, k - 1);
      assert T(a)[y][k - 1] == a[k - 1][y];
      assert T(b)[k - 1][x] == b[x][k - 1];
    }
  }

  /** `(a.dot(b)).T` equals `b.T.dot(a.T)`. */
  lemma DotTranspose(a: Grid, b: Grid)
    requires Rectangular(a) && Rectangular(b) && Width(a) == Height(b)
    requires Width(a) >= 1 && Height(a) >= 1
    ensures Dot(a, b).Ok? && Dot(T(b), T(a)).Ok?
    ensures T(Dot(a, b).value) == Dot(T(b), T(a)).value
  {
    var p := Dot(a, b).value;
    assert Width(b) >= 1;
    var lhs := T(p);
    var rhs := Dot(T(b), T(a)).value;
    assert |lhs| == |rhs|;
    forall y | 0 <= y < |lhs|
      ensures lhs[y] == rhs[y]
    {
      forall x | 0 <= x < Width(b)
        ensures lhs[y][x] == rhs[y][x]
      {
        DotSumTranspose(a, b, x, y, Width(a));
      }
    }
  }
}
