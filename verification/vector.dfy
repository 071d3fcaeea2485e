/** The variable-length vector of math/Vector.js and its TypeScript twin
    math/vector.ts, as values: element-wise arithmetic over the common prefix
    of two vectors, the dot product, and the generalised cross product built
    from a recursive cyclic-minor determinant. Both files run the same
    algorithms; they differ in the class of the exceptions `cross` throws and
    in how `fromArray`/`setFromArray` treat aliasing (module VectorObjects). */
module Vectors {
  import opened JsCore

  type Vec = seq<real>

  function Min(a: nat, b: nat): nat
  {
    if a <= b then a else b
  }

  /** The arguments of `new Vector(...)`: numbers, or an array first (whose
      elements are taken, the remaining arguments being ignored). */
  datatype CtorArgs = Numbers(xs: seq<real>) | ArrayFirst(first: seq<real>, rest: seq<real>)

  /** The elements a freshly constructed vector holds. */
  function Construct(args: CtorArgs): (v: Vec)
    ensures args.Numbers? ==> v == args.xs
    ensures args.ArrayFirst? ==> v == args.first
  {
    match args
    case Numbers(xs) => xs
    case ArrayFirst(first, _) => first
  }

  /** `add(v)`: the entries below `min(this.length, v.length)` gain the
      matching entry of `v`; later entries and the length stay. */
  function Add(self: Vec, v: Vec): (r: Vec)
    ensures |r| == |self|
    ensures forall i :: 0 <= i < Min(|self|, |v|) ==> r[i] == self[i] + v[i]
    ensures forall i :: Min(|self|, |v|) <= i < |self| ==> r[i] == self[i]
  {
    seq(|self|, i requires 0 <= i < |self| => if i < |v| then self[i] + v[i] else self[i])
  }

  /** `subtract(v)`, over the common prefix likewise. */
  function Subtract(self: Vec, v: Vec): (r: Vec)
    ensures |r| == |self|
    ensures forall i :: 0 <= i < Min(|self|, |v|) ==> r[i] == self[i] - v[i]
    ensures forall i :: Min(|self|, |v|) <= i < |self| ==> r[i] == self[i]
  {
    seq(|self|, i requires 0 <= i < |self| => if i < |v| then self[i] - v[i] else self[i])
  }

  /** `multiply(val)`: every entry scaled, the length kept. */
  function Multiply(self: Vec, val: real): (r: Vec)
    ensures |r| == |self|
    ensures forall i :: 0 <= i < |self| ==> r[i] == self[i] * val
  {
    seq(|self|, i requires 0 <= i < |self| => self[i] * val)
  }

  /** The accumulator of `dot` after its first `k` iterations. */
  function DotTo(self: Vec, v: Vec, k: nat): real
    requires k <= |self| && k <= |v|
  {
    if k == 0 then 0.0 else DotTo(self, v, k - 1) + self[k - 1] * v[k - 1]
  }

  lemma SquareNonNegative(x: real)
    ensures x * x >= 0.0
  {
    if x < 0.0 {
      assert x * x == (-x) * (-x);
    }
  }

  /** A sum of squares is never negative. */
  lemma {:induction false} DotToSelfNonNegative(v: Vec, k: nat)
    requires k <= |v|
    ensures DotTo(v, v, k) >= 0.0
  {
    if k > 0 {
      DotToSelfNonNegative(v, k - 1);
      SquareNonNegative(v[k - 1]);
    }
  }

  /** `v.dot(v)`, the square of the magnitude, is never negative. */
  lemma DotSelfNonNegative(v: Vec)
    ensures Dot(v, v) >= 0.0
  {
    DotToSelfNonNegative(v, |v|);
  }

  /** Two pairs of vectors that agree on their first `k` entries have the
      same accumulator after `k` iterations. */
  lemma {:induction false} DotToAgree(u: Vec, v: Vec, u': Vec, v': Vec, k: nat)
    requires k <= |u| && k <= |v| && k <= |u'| && k <= |v'|
    requires forall i :: 0 <= i < k ==> u[i] == u'[i] && v[i] == v'[i]
    ensures DotTo(u, v, k) == DotTo(u', v', k)
  {
    if k > 0 {
      DotToAgree(u, v, u', v', k - 1);
    }
  }

  /** `dot(v)`: the sum of products over the common prefix; entries past the
      shorter length play no part. */
  function Dot(self: Vec, v: Vec): (r: real)
    ensures var m := Min(|self|, |v|); r == DotTo(self[..m], v[..m], m)
  {
    var m := Min(|self|, |v|);
    DotToAgree(self, v, self[..m], v[..m], m);
    DotTo(self, v, m)
  }

  lemma {:induction false} DotToSymmetric(u: Vec, v: Vec, k: nat)
    requires k <= |u| && k <= |v|
    ensures DotTo(u, v, k) == DotTo(v, u, k)
  {
    if k > 0 {
      DotToSymmetric(u, v, k - 1);
    }
  }

  /** `u.dot(v) == v.dot(u)`, whatever the two lengths. */
  lemma DotSymmetric(u: Vec, v: Vec)
    ensures Dot(u, v) == Dot(v, u)
  {
    DotToSymmetric(u, v, Min(|u|, |v|));
  }

  /** An empty vector has a zero dot product with anything. */
  lemma DotWithEmpty(v: Vec)
    ensures Dot([], v) == 0.0 && Dot(v, []) == 0.0
  {
  }

  lemma {:induction false} DotToScale(u: Vec, v: Vec, c: real, k: nat)
    requires k <= |u| && k <= |v|
    ensures DotTo(Multiply(u, c), v, k) == c * DotTo(u, v, k)
  {
    if k > 0 {
      DotToScale(u, v, c, k - 1);
    }
  }

  /** Scaling one operand scales the dot product. */
  lemma DotScale(u: Vec, v: Vec, c: real)
    ensures Dot(Multiply(u, c), v) == c * Dot(u, v)
  {
    DotToScale(u, v, c, Min(|u|, |v|));
  }

  lemma {:induction false} DotToAdd(u: Vec, v: Vec, w: Vec, k: nat)
    requires |u| == |v| && k <= |u| && k <= |w|
    ensures DotTo(Add(u, v), w, k) == DotTo(u, w, k) + DotTo(v, w, k)
  {
    if k > 0 {
      DotToAdd(u, v, w, k - 1);
    }
  }

  /** For operands of equal length, `dot` distributes over `add`. */
  lemma DotDistributes(u: Vec, v: Vec, w: Vec)
    requires |u| == |v|
    ensures Dot(Add(u, v), w) == Dot(u, w) + Dot(v, w)
  {
    DotToAdd(u, v, w, Min(|u|, |w|));
  }

  /** Subtracting and then adding the same vector restores the original, at
      any pair of lengths. */
  lemma SubtractThenAdd(u: Vec, v: Vec)
    ensures Add(Subtract(u, v), v) == u
  {
    var r := Add(Subtract(u, v), v);
    assert |r| == |u|;
    forall i | 0 <= i < |u|
      ensures r[i] == u[i]
    {
    }
  }

  // ---------------------------------------------------------------------
  // The generalised cross product

  /** Which of `cross`'s checks failed, in the order they run. */
  datatype CrossError = NoVectors | DifferentDimensions | DimensionTooSmall | WrongCount

  /** Vector.js throws `Error` for every check. */
  function JsClassOf(e: CrossError): (c: ErrorClass)
    ensures c == Error
  {
    Error
  }

  /** vector.ts throws `Error` for an empty argument list and `TypeError` for
      the other checks. */
  function TsClassOf(e: CrossError): (c: ErrorClass)
    ensures c == Error <==> e == NoVectors
  {
    if e == NoVectors then Error else TypeError
  }

  /** `i % 2 ? -1 : 1` for a non-negative `i`. */
  function Sign(i: nat): real
  {
    if i % 2 == 1 then -1.0 else 1.0
  }

  /** The sign given to the `i`-th term of an expansion over an `n`-row
      cyclic matrix. The file always uses `(-1)^i`. Taking the rows (or the
      columns) cyclically from `i + 1` already reorders them by a permutation
      of sign `(-1)^(i * (n - 1 - i))`, which is `(-1)^i` when `n` is odd; there
      the cofactor sign must therefore be 1, and only for even `n` is `(-1)^i`
      the cofactor sign. */
  datatype SignRule = AsWritten | ParityAware

  function TermSign(rule: SignRule, i: nat, n: nat): (s: real)
    ensures rule.AsWritten? ==> s == Sign(i)
    ensures n % 2 == 0 ==> s == Sign(i)
    ensures rule.ParityAware? && n % 2 == 1 ==> s == 1.0
  {
    if rule.AsWritten? || n % 2 == 0 then Sign(i) else 1.0
  }

  /** `det` reads, of an `n`-row matrix, only the first `n` entries of each row. */
  ghost predicate DetReadable(m: seq<seq<real>>)
  {
    forall r :: 0 <= r < |m| ==> |m[r]| >= |m|
  }

  /** The matrix `det` builds for row `i` of the first column: rows
      `i+1 .. i+n-1` taken cyclically, each row being columns `1 .. n` taken
      modulo `n` (so column 0 comes last and is never read again). */
  function CyclicMinor(m: seq<seq<real>>, i: nat): (r: seq<seq<real>>)
    requires DetReadable(m) && i < |m|
    ensures |r| == |m| - 1 && DetReadable(r)
  {
    var n := |m|;
    seq(n - 1, k requires 0 <= k < n - 1 =>
      seq(n, c requires 0 <= c < n => m[(i + 1 + k) % n][(c + 1) % n]))
  }

  /** The first `k` entries of the first column are zero. */
  ghost predicate ZeroColumn(m: seq<seq<real>>, k: nat)
    requires DetReadable(m) && k <= |m|
  {
    forall r :: 0 <= r < k ==> m[r][0] == 0.0
  }

  /** The inner `det` of `cross`: a 1-by-1 matrix is its element; otherwise the
      signed sum over the first column of each entry times the `det` of its
      cyclic minor. */
  function Det(m: seq<seq<real>>, rule: SignRule): (d: real)
    requires DetReadable(m)
    ensures |m| == 0 ==> d == 0.0
    ensures ZeroColumn(m, |m|) ==> d == 0.0
    decreases |m|, 1, 0
  {
    if |m| == 1 then m[0][0] else DetSum(m, |m|, rule)
  }

  /** The accumulator `d` of `det` after its first `k` iterations: zero when
      the first `k` entries of the first column are. */
  function DetSum(m: seq<seq<real>>, k: nat, rule: SignRule): (d: real)
    requires DetReadable(m) && k <= |m|
    ensures ZeroColumn(m, k) ==> d == 0.0
    decreases |m|, 0, k + 1
  {
    if k == 0 then 0.0 else DetSum(m, k - 1, rule) + DetTerm(m, k - 1, rule)
  }

  /** The `i`-th summand of `det`: the entry of the first column, the `det` of
      its cyclic minor and the alternating sign; it vanishes with its entry. */
  function DetTerm(m: seq<seq<real>>, i: nat, rule: SignRule): (t: real)
    requires DetReadable(m) && i < |m|
    ensures m[i][0] == 0.0 ==> t == 0.0
    decreases |m|, 0, i
  {
    m[i][0] * Det(CyclicMinor(m, i), rule) * TermSign(rule, i, |m|)
  }

  /** The square matrix `cross` builds for component `i`: row `y` holds
      entries `i+1 .. i+dim-1` of vector `y`, indices taken modulo `dim`. */
  function CrossMatrix(vs: seq<Vec>, i: nat, dim: nat): (m: seq<seq<real>>)
    requires dim >= 2 && |vs| == dim - 1
    requires forall y :: 0 <= y < |vs| ==> |vs[y]| == dim
    ensures |m| == dim - 1 && DetReadable(m)
  {
    seq(|vs|, y requires 0 <= y < |vs| => seq(dim - 1, k requires 0 <= k < dim - 1 => vs[y][(i + 1 + k) % dim]))
  }

  predicate SameDimensions(vs: seq<Vec>)
    requires |vs| > 0
  {
    forall y | 1 <= y < |vs| :: |vs[y]| == |vs[0]|
  }

  /** The conditions under which `cross` does not throw. */
  predicate CrossDefined(vs: seq<Vec>)
  {
    |vs| > 0 && SameDimensions(vs) && |vs[0]| >= 2 && |vs| == |vs[0]| - 1
  }

  /** `Vector.cross(...vs)` (the instance method passes `this` as `vs[0]`),
      under the sign rule `rule`; the file is `AsWritten`. The checks run in
      order: no vector, differing dimensions, a dimension below 2, a count
      other than `dim - 1`. On success component `i` of the result is the
      `det` of the cyclic matrix of `i` times the sign of term `i`. */
  function Cross(vs: seq<Vec>, rule: SignRule): (r: Result<Vec, CrossError>)
    ensures r.Ok? <==> CrossDefined(vs)
    ensures |vs| == 0 ==> r == Throw(NoVectors)
    ensures |vs| > 0 && !SameDimensions(vs) ==> r == Throw(DifferentDimensions)
    ensures |vs| > 0 && SameDimensions(vs) && |vs[0]| < 2 ==> r == Throw(DimensionTooSmall)
    ensures |vs| > 0 && SameDimensions(vs) && |vs[0]| >= 2 && |vs| != |vs[0]| - 1 ==> r == Throw(WrongCount)
    ensures r.Ok? ==> |r.value| == |vs[0]|
    ensures r.Ok? ==> forall i :: 0 <= i < |vs[0]| ==>
                        r.value[i] == Det(CrossMatrix(vs, i, |vs[0]|), rule) * TermSign(rule, i, |vs[0]|)
  {
    if |vs| == 0 then Throw(NoVectors)
    else
      var dim := |vs[0]|;
      if !SameDimensions(vs) then Throw(DifferentDimensions)
      else if dim < 2 then Throw(DimensionTooSmall)
      else if |vs| != dim - 1 then Throw(WrongCount)
      else Ok(seq(dim, i requires 0 <= i < dim => Det(CrossMatrix(vs, i, dim), rule) * TermSign(rule, i, dim)))
  }

  /** Which class each file throws: Vector.js throws `Error` whenever
      `cross` fails; vector.ts throws `TypeError` for every failed check that
      has a vector to look at, and `Error` only when there is none. */
  lemma CrossErrorClass(vs: seq<Vec>, rule: SignRule)
    ensures Cross(vs, rule).Throw? ==> JsClassOf(Cross(vs, rule).reason) == Error
    ensures Cross(vs, rule).Throw? ==> (TsClassOf(Cross(vs, rule).reason) == TypeError <==> |vs| > 0)
  {
    if |vs| > 0 && Cross(vs, rule).Throw? {
      assert Cross(vs, rule).reason != NoVectors;
    }
  }

  // ---------------------------------------------------------------------
  // Properties of det and cross

  /** `det` of a 1-by-1 matrix is its element. */
  lemma DetOne(m: seq<seq<real>>, rule: SignRule)
    requires |m| == 1 && |m[0]| >= 1
    ensures Det(m, rule) == m[0][0]
  {
  }

  /** `det` of a 2-by-2 matrix is the usual `ad - cb`. */
  lemma DetTwo(m: seq<seq<real>>, rule: SignRule)
    requires |m| == 2 && |m[0]| >= 2 && |m[1]| >= 2
    ensures Det(m, rule) == m[0][0] * m[1][1] - m[1][0] * m[0][1]
  {
    var m0 := CyclicMinor(m, 0);
    var m1 := CyclicMinor(m, 1);
    assert m0[0][0] == m[1][1];
    assert m1[0][0] == m[0][1];
    assert Det(m0, rule) == m[1][1];
    assert Det(m1, rule) == m[0][1];
    assert DetTerm(m, 0, rule) == m[0][0] * m[1][1];
    assert DetTerm(m, 1, rule) == -(m[1][0] * m[0][1]);
    assert DetSum(m, 1, rule) == m[0][0] * m[1][1];
  }

  /** In two dimensions `cross(v)` is `(v[1], -v[0])`, under either sign
      rule. */
  lemma CrossTwo(v: Vec, rule: SignRule)
    requires |v| == 2
    ensures Cross([v], rule) == Ok([v[1], -v[0]])
  {
    var r := Cross([v], rule).value;
    var m0 := CrossMatrix([v], 0, 2);
    var m1 := CrossMatrix([v], 1, 2);
    assert m0[0][0] == v[1];
    assert m1[0][0] == v[0];
    assert r[0] == v[1];
    assert r[1] == -v[0];
    assert r == [v[1], -v[0]];
  }

  /** The three cyclic 2-by-2 matrices of `cross(a, b)`, with their `det`s. */
  lemma CrossThreeMinors(a: Vec, b: Vec, rule: SignRule)
    requires |a| == 3 && |b| == 3
    ensures Det(CrossMatrix([a, b], 0, 3), rule) == a[1] * b[2] - b[1] * a[2]
    ensures Det(CrossMatrix([a, b], 1, 3), rule) == a[2] * b[0] - b[2] * a[0]
    ensures Det(CrossMatrix([a, b], 2, 3), rule) == a[0] * b[1] - b[0] * a[1]
  {
    var m0 := CrossMatrix([a, b], 0, 3);
    var m1 := CrossMatrix([a, b], 1, 3);
    var m2 := CrossMatrix([a, b], 2, 3);
    assert m0[0][0] == a[1] && m0[0][1] == a[2] && m0[1][0] == b[1] && m0[1][1] == b[2];
    assert m1[0][0] == a[2] && m1[0][1] == a[0] && m1[1][0] == b[2] && m1[1][1] == b[0];
    assert m2[0][0] == a[0] && m2[0][1] == a[1] && m2[1][0] == b[0] && m2[1][1] == b[1];
    DetTwo(m0, rule);
    DetTwo(m1, rule);
    DetTwo(m2, rule);
  }

  /** In three dimensions the file's components are the cyclic 2-by-2
      minors, with the middle one negated by the `(-1)^i` factor. */
  lemma CrossThree(a: Vec, b: Vec)
    requires |a| == 3 && |b| == 3
    ensures Cross([a, b], AsWritten) == Ok([a[1] * b[2] - b[1] * a[2],
                                            -(a[2] * b[0] - b[2] * a[0]),
                                            a[0] * b[1] - b[0] * a[1]])
  {
    var r := Cross([a, b], AsWritten).value;
    CrossThreeMinors(a, b, AsWritten);
    assert r[1] == -(a[2] * b[0] - b[2] * a[0]);
    assert r == [a[1] * b[2] - b[1] * a[2], -(a[2] * b[0] - b[2] * a[0]), a[0] * b[1] - b[0] * a[1]];
  }

  /** The file's result need not be normal to its arguments in three
      dimensions: `cross((1,1,0), (0,0,1))` is `(1,1,0)`, whose dot product
      with the first argument is 2. */
  lemma CrossThreeNotNormal()
    ensures Cross([[1.0, 1.0, 0.0], [0.0, 0.0, 1.0]], AsWritten) == Ok([1.0, 1.0, 0.0])
    ensures Dot([1.0, 1.0, 0.0], [1.0, 1.0, 0.0]) == 2.0
  {
    CrossThree([1.0, 1.0, 0.0], [0.0, 0.0, 1.0]);
    var u := [1.0, 1.0, 0.0];
    assert DotTo(u, u, 2) == 2.0;
  }

  /** With the parity-aware sign the three-dimensional result is the usual
      cross product `a x b`. */
  lemma CrossFixedThree(a: Vec, b: Vec)
    requires |a| == 3 && |b| == 3
    ensures Cross([a, b], ParityAware) == Ok([a[1] * b[2] - b[1] * a[2],
                                              a[2] * b[0] - b[2] * a[0],
                                              a[0] * b[1] - b[0] * a[1]])
  {
    var r := Cross([a, b], ParityAware).value;
    CrossThreeMinors(a, b, ParityAware);
    assert r == [a[1] * b[2] - b[1] * a[2], a[2] * b[0] - b[2] * a[0], a[0] * b[1] - b[0] * a[1]];
  }

  /** Swapping the two arguments of a three-dimensional `cross` negates the
      result, under either sign rule. */
  lemma CrossThreeAntisymmetric(a: Vec, b: Vec, rule: SignRule)
    requires |a| == 3 && |b| == 3
    ensures Cross([a, b], rule).Ok? && Cross([b, a], rule).Ok?
    ensures var u, v := Cross([a, b], rule).value, Cross([b, a], rule).value;
            |u| == |v| == 3 && forall k :: 0 <= k < 3 ==> v[k] == -u[k]
  {
    CrossThreeMinors(a, b, rule);
    CrossThreeMinors(b, a, rule);
  }

  /** The dot product of two 3-vectors written out. */
  lemma DotThree(u: Vec, v: Vec)
    requires |u| == 3 && |v| == 3
    ensures Dot(u, v) == u[0] * v[0] + u[1] * v[1] + u[2] * v[2]
  {
    assert DotTo(u, v, 1) == u[0] * v[0];
    assert DotTo(u, v, 2) == u[0] * v[0] + u[1] * v[1];
  }

  /** The corrected three-dimensional result is normal to both arguments, as
      the documentation of `cross` promises. */
  lemma CrossFixedThreeNormal(a: Vec, b: Vec)
    requires |a| == 3 && |b| == 3
    ensures Cross([a, b], ParityAware).Ok?
    ensures Dot(a, Cross([a, b], ParityAware).value) == 0.0
    ensures Dot(b, Cross([a, b], ParityAware).value) == 0.0
  {
    CrossFixedThree(a, b);
    var c := Cross([a, b], ParityAware).value;
    DotThree(a, c);
    DotThree(b, c);
    TripleProductVanishes(a[0], a[1], a[2], b[0], b[1], b[2]);
  }

  /** The scalar triple products `a . (a x b)` and `b . (a x b)` are zero. */
  lemma TripleProductVanishes(a0: real, a1: real, a2: real, b0: real, b1: real, b2: real)
    ensures a0 * (a1 * b2 - b1 * a2) + a1 * (a2 * b0 - b2 * a0) + a2 * (a0 * b1 - b0 * a1) == 0.0
    ensures b0 * (a1 * b2 - b1 * a2) + b1 * (a2 * b0 - b2 * a0) + b2 * (a0 * b1 - b0 * a1) == 0.0
  {
  }

  /** The two-dimensional result is normal to its argument, under either
      sign rule. */
  lemma CrossTwoNormal(v: Vec, rule: SignRule)
    requires |v| == 2
    ensures Cross([v], rule).Ok? && Dot(v, Cross([v], rule).value) == 0.0
  {
    CrossTwo(v, rule);
    var w := [v[1], -v[0]];
    assert DotTo(v, w, 1) == v[0] * v[1];
    assert DotTo(v, w, 2) == v[0] * v[1] + v[1] * -v[0];
  }
}
