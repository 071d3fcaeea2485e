# Six small JavaScript components, modelled in Dafny

This project models the computational core of a collection of browser
experiments. It covers six components:

- **Matrices** (`math/Matrix.js`): a dense, column-major matrix class. It has
  in-place `add`, `subtract`, `multiply` and `reshape`, a pure `dot` and
  transpose `T`, and `diagonalOnes`. Its static `add`, `subtract` and
  `multiply` work on a clone of the first operand; static `dot` does not
  clone.
- **Vectors** (`math/Vector.js` and its TypeScript twin `math/vector.ts`): a
  variable-length vector. Arithmetic acts over the common prefix of the two
  operands. It also has a generalised cross product of `dim - 1` vectors,
  built from a recursive cyclic-minor determinant.
- **Ratios** (`math/Ratio.js`): exact rationals over BigInt, with Euclid's
  `gcd`, `simplify`, and comparisons by cross-multiplication.
- **LCGRandom** (`math/LCGRandom.js`): a linear congruential generator with
  GCC's constants and modulus 2^31.
- **GameOfLife** (`conways-game-of-life/game-of-life.js`): Conway's Game of
  Life on a torus, rule B3/S23, with a double-buffered step.
- **LangtonsAnt** (`langtons-ant/ant.js`): a five-colour turmite on an
  unbounded plane, stored sparsely as 10 x 10 tiles.

Every component is a Dafny module of datatypes and pure functions. Where
the loop is what matters, the operation is a method with loop invariants.
These are the Game of Life `step` and repeated `nextInt` calls, including
their replay after `reset`.

JavaScript semantics the code relies on are written out in module `JsCore`:

- the truncating `%` operator (`JsRem`);
- BigInt division (`JsQuot`);
- the index normaliser `((v % n) + n) % n` (`Wrap`);
- exceptions, as a `Result` that is either `Ok` or `Throw` with the error class.

Classes that mutate themselves are modelled twice:

- as a value transformer, in modules `Matrices`, `Vectors` and `Ratios`;
- as objects in a heap `seq<T>` indexed by references, in modules `Objects`,
  `MatrixObjects`, `VectorObjects` and the object part of `Ratios`.

The heap layer is what lets the contracts say "returns `this`", "returns a new
object", "leaves its operands unchanged" and "a clone is independent storage",
and what shows the aliasing behaviour of `fromArray`.

Numbers are exact: matrix and vector cells are `real`, and the ratio, LCG,
Game of Life and ant state are `int`.

## Model

| member | source | states |
|---|---|---|
| JsCore.JsRem | conways-game-of-life/game-of-life.js:18 | JavaScript's `%`: the result has the sign of the dividend and a magnitude below the divisor's |
| JsCore.JsQuot | math/Ratio.js:93-94 | BigInt `/` truncates toward zero: dividend = divisor * quotient + `%` remainder |
| JsCore.Wrap | conways-game-of-life/game-of-life.js:16-24 | `((v % n) + n) % n` always lands in `[0, n)` |
| JsCore.WrapIsMod | conways-game-of-life/game-of-life.js:16-24 | the normaliser equals the Euclidean residue `v mod n` for every integer `v`, negative or not |
| JsCore.WrapInRange | conways-game-of-life/game-of-life.js:16-24 | the normaliser is the identity on `[0, n)` |
| JsCore.WrapPeriodic | conways-game-of-life/game-of-life.js:16-24 | shifting the input by `n` does not change the normalised index |
| Objects.Alloc | math/Matrix.js:45-60 | `new` yields a reference distinct from every existing object and changes no existing object |
| Matrices.Width | math/Matrix.js:65-67 | `width` is the number of columns |
| Matrices.Height | math/Matrix.js:72-74 | `height` is the length of column 0, and 0 when there is no column |
| Matrices.Zeros | math/Matrix.js:45-74 | `new Matrix(w, h)` has `w` columns of `h` zeros, so `width == w` and `height == h` for `w >= 1`; a non-positive bound gives no columns or empty columns |
| Matrices.FromArray | math/Matrix.js:81-89 | throws exactly when the outer array or its column 0 is empty; otherwise copies every column unchanged (raggedness is not checked) |
| Matrices.Clone | math/Matrix.js:106-108 | throws exactly where `fromArray` does; otherwise the copy equals the original |
| Matrices.ForEach | math/Matrix.js:95-101 | the shape is kept and cell `(x, y)` becomes `f(old, x, y)` |
| Matrices.Add | math/Matrix.js:115-122 | throws iff widths or heights differ; otherwise the shape is kept and each cell is the sum of the two cells |
| Matrices.Subtract | math/Matrix.js:128-135 | throws iff widths or heights differ; otherwise the shape is kept and each cell is the difference |
| Matrices.SubtractUndoesAdd | math/Matrix.js:115-135 | on matrices of one shape, `subtract(b)` after `add(b)` restores the original |
| Matrices.Multiply | math/Matrix.js:141-146 | the shape is kept and each cell becomes `old * val` |
| Matrices.DiagonalOnes | math/Matrix.js:217-222 | each cell becomes 1 iff `x == y`, else 0, whatever it held |
| Matrices.Dot | math/Matrix.js:153-165 | throws iff `this.width != m.height`; otherwise the result is `m.width` by `this.height`, with cell `(x, y)` the sum over `i < this.width` of `m[x][i] * this[i][y]` |
| Matrices.T | math/Matrix.js:171-177 | the transpose has swapped dimensions and `T[y][x] == this[x][y]` |
| Matrices.Fit | math/Matrix.js:190-197 | one column cut or zero-padded to exactly `h` cells, keeping the cells that were there |
| Matrices.Reshape | math/Matrix.js:184-199 | throws a RangeError iff a dimension is below 1; otherwise the shape is exactly `w` by `h`, cells inside both shapes are kept and new cells are 0 |
| Matrices.TransposeInvolution | math/Matrix.js:171-177 | transposing twice restores a rectangular matrix with at least one row |
| Matrices.TransposeForgetsEmptyColumns | math/Matrix.js:171-177 | a matrix with columns but no rows does not survive two transposes |
| Matrices.ReshapeIdempotent | math/Matrix.js:184-199 | reshaping twice to the same shape equals reshaping once |
| Matrices.ReshapeToOwnShape | math/Matrix.js:184-199 | reshaping a rectangular matrix to its own shape changes nothing |
| Matrices.Identity | math/Matrix.js:217-222 | `new Matrix(n, n).diagonalOnes()` is an `n` by `n` rectangular matrix |
| Matrices.DotIdentity | math/Matrix.js:153-165 | the identity built by `diagonalOnes` is neutral for `dot` on both sides |
| Matrices.DotTranspose | math/Matrix.js:153-177 | for `a` with at least one row, the transpose of `a.dot(b)` equals `b.T.dot(a.T)` |
| Matrices.DotTransposeNeedsRows | math/Matrix.js:153-177 | without a row the law fails: `new Matrix(1, 0).dot([[1]])` succeeds while `[[1]].T.dot(new Matrix(1, 0).T)` throws |
| MatrixObjects.NewZeros | math/Matrix.js:45-60 | `new Matrix(w, h)` is a fresh object holding the zero matrix |
| MatrixObjects.FromArrayAt | math/Matrix.js:81-89 | throws iff the source is empty; otherwise only `this` changes, it then holds the source, and reading `this` into itself leaves it empty |
| MatrixObjects.NewFrom | math/Matrix.js:45-50 | `new Matrix(array)` is a fresh object holding the array, or throws where `fromArray` does |
| MatrixObjects.CloneAt | math/Matrix.js:106-108 | the clone is a new object with the same cells; no existing object changes |
| MatrixObjects.AddAt | math/Matrix.js:115-122 | throws iff the shapes differ; otherwise only `this` changes, to the sum, and `this` is returned |
| MatrixObjects.SubtractAt | math/Matrix.js:128-135 | throws iff the shapes differ; otherwise only `this` changes, to the difference, and `this` is returned |
| MatrixObjects.MultiplyAt | math/Matrix.js:141-146 | only `this` changes, to the scaled matrix, and `this` is returned |
| MatrixObjects.ReshapeAt | math/Matrix.js:184-199 | throws iff a dimension is below 1; otherwise only `this` changes and `this` is returned |
| MatrixObjects.DotAt | math/Matrix.js:153-165 | throws iff `this.width != m.height`; otherwise the product is a new object and neither operand changes |
| MatrixObjects.TAt | math/Matrix.js:171-177 | the transpose is a new object and `this` does not change |
| MatrixObjects.StaticAdd | math/Matrix.js:9-11 | throws iff `m1` is empty or the shapes differ; otherwise the sum is a new object and both operands are unchanged |
| MatrixObjects.StaticSubtract | math/Matrix.js:18-20 | throws iff `m1` is empty or the shapes differ; otherwise the difference is a new object and both operands are unchanged |
| MatrixObjects.StaticMultiply | math/Matrix.js:27-29 | throws iff `m` is empty; otherwise the scaled copy is a new object and `m` is unchanged |
| MatrixObjects.StaticDot | math/Matrix.js:36-38 | throws iff the contraction dimensions differ (an empty `m1` alone does not throw); the product is a new object |
| MatrixObjects.AddToItselfDoubles | math/Matrix.js:115-122 | `m.add(m)` doubles `m` |
| MatrixObjects.CloneIsIndependent | math/Matrix.js:106-122 | adding into a clone leaves the original unchanged |
| MatrixObjects.FromArrayOfItselfEmpties | math/Matrix.js:81-89 | `m.fromArray(m)` passes the emptiness check and leaves `m` empty |
| Vectors.Construct | math/Vector.js:116-121 | a new vector holds exactly the given numbers, or the elements of an array given first |
| Vectors.Add | math/Vector.js:160-164 | the length is kept; entries below the common length gain `v`'s entry and later entries are unchanged |
| Vectors.Subtract | math/Vector.js:170-174 | the length is kept; entries below the common length lose `v`'s entry and later entries are unchanged |
| Vectors.Multiply | math/Vector.js:181-184 | the length is kept and every entry is scaled |
| Vectors.Dot | math/Vector.js:191-196 | `dot` sums products over the common prefix only: cutting both vectors to the shorter length gives the same value |
| Vectors.DotSelfNonNegative | math/Vector.js:191-196 | `v.dot(v)` is never negative |
| Vectors.DotSymmetric | math/Vector.js:191-196 | `u.dot(v) == v.dot(u)` whatever the two lengths |
| Vectors.DotWithEmpty | math/Vector.js:191-196 | the dot product with an empty vector is 0 on either side |
| Vectors.DotScale | math/Vector.js:181-196 | scaling one operand scales the dot product |
| Vectors.DotDistributes | math/Vector.js:160-196 | for operands of equal length, `dot` distributes over `add` |
| Vectors.SubtractThenAdd | math/Vector.js:160-174 | subtracting and then adding the same vector restores the original, at any pair of lengths |
| Vectors.JsClassOf | math/Vector.js:48-59 | Vector.js throws `Error` for every failed check |
| Vectors.CrossErrorClass | math/Vector.js:48-59 | whenever `cross` throws, Vector.js throws `Error`; vector.ts throws `TypeError` exactly when at least one vector was passed, and `Error` otherwise |
| Vectors.TsClassOf | math/vector.ts:55-76 | vector.ts throws `Error` only for an empty argument list and `TypeError` for the other checks |
| Vectors.TermSign | math/Vector.js:75 | under the file's rule the sign of term `i` is always `(-1)^i`; under the corrected rule it is `(-1)^i` when the number of cycled rows is even and 1 when it is odd |
| Vectors.CyclicMinor | math/Vector.js:69-74 | the matrix built for term `i` has one row fewer and every row long enough to be read |
| Vectors.CrossMatrix | math/Vector.js:80-86 | the matrix built for component `i` is square, of size `dim - 1` |
| Vectors.Cross | math/Vector.js:45-91 | succeeds iff there is a vector, all have the same dimension `dim >= 2` and there are `dim - 1` of them; each failure is reported in the file's order; the result has `dim` components, component `i` being the signed `det` of the cyclic matrix of `i` |
| Vectors.Det | math/Vector.js:63-78 | `det` of an empty matrix is 0, and `det` of a matrix whose first column is zero is 0 |
| Vectors.DetSum | math/Vector.js:67-77 | the running sum of the expansion is 0 while every entry of the first column visited so far is 0 |
| Vectors.DetTerm | math/Vector.js:76 | a term of the expansion vanishes when its entry of the first column is 0 |
| Vectors.DetOne | math/vector.ts:82 | `det` of a 1-by-1 matrix is its element |
| Vectors.DetTwo | math/Vector.js:63-78 | `det` of a 2-by-2 matrix is `a*d - c*b` |
| Vectors.CrossTwo | math/vector.ts:52-114 | in two dimensions `cross(v)` is `(v[1], -v[0])` |
| Vectors.CrossThreeMinors | math/Vector.js:80-87 | the three cyclic 2-by-2 determinants of a 3D `cross` |
| Vectors.CrossThree | math/Vector.js:45-91 | in three dimensions the file's result is the usual cross product with its middle component negated |
| Vectors.CrossThreeNotNormal | math/Vector.js:40-41 | `cross((1,1,0), (0,0,1))` is `(1,1,0)`, which is not normal to `(1,1,0)` |
| Vectors.CrossFixedThree | math/Vector.js:75 | with the parity-aware sign, the 3D result is the usual cross product |
| Vectors.CrossThreeAntisymmetric | math/Vector.js:45-91 | swapping the two arguments of a 3D `cross` negates every component |
| Vectors.CrossFixedThreeNormal | math/Vector.js:40-41 | with the parity-aware sign, the 3D result is normal to both arguments |
| Vectors.CrossTwoNormal | math/vector.ts:47-51 | the 2D result is normal to its argument |
| VectorObjects.FromArrayAt | math/Vector.js:127-131 | only `this` changes, to the source's elements; reading `this` into itself leaves it empty |
| VectorObjects.SetFromArrayAt | math/vector.ts:162-166 | only `this` changes, and it holds exactly the source's elements, also when the source is `this` |
| VectorObjects.ReadIntoItself | math/vector.ts:162-166 | on a non-empty vector read into itself the two files disagree: Vector.js empties it and vector.ts keeps it |
| VectorObjects.ReadFromOtherAgrees | math/Vector.js:127-131 | on any other source the two files agree |
| VectorObjects.CloneAt | math/Vector.js:151-153 | the clone is a new object with the same elements |
| VectorObjects.AddAt | math/vector.ts:199-202 | only `this` changes, to the prefix sum, and `this` is returned |
| VectorObjects.SubtractAt | math/vector.ts:210-213 | only `this` changes, to the prefix difference, and `this` is returned |
| VectorObjects.MultiplyAt | math/vector.ts:221-224 | only `this` changes, to the scaled vector, and `this` is returned |
| VectorObjects.StaticAdd | math/Vector.js:9-11 | the sum is a new object and both operands are unchanged |
| VectorObjects.StaticSubtract | math/Vector.js:18-20 | the difference is a new object and both operands are unchanged |
| VectorObjects.StaticMultiply | math/vector.ts:33-35 | the scaled copy is a new object and the operand is unchanged |
| VectorObjects.AddToItselfDoubles | math/Vector.js:160-164 | `v.add(v)` doubles `v` |
| VectorObjects.CloneIsIndependent | math/Vector.js:151-184 | adding into or scaling a clone leaves the original unchanged |
| Ratios.Gcd | math/Ratio.js:19-27 | the loop terminates; on non-negative arguments the result is non-negative, and it is 0 only for `gcd(0, 0)` |
| Ratios.GcdIsGreatest | math/Ratio.js:19-27 | the result divides both arguments, and every common divisor divides it |
| Ratios.Trichotomy | math/Ratio.js:3-76 | for any denominators exactly one of `lt`, `eq`, `gt` holds; `lte` is not-`gt`, `gte` is not-`lt`, and `eq` is symmetric |
| Ratios.Eq | math/Ratio.js:3-5 | on non-zero denominators `eq` holds exactly when the two rational values are equal |
| Ratios.Lt | math/Ratio.js:7-9 | on positive denominators `lt` holds exactly when the first value is smaller |
| Ratios.Lte | math/Ratio.js:58-60 | on positive denominators `lte` holds exactly when the first value is smaller or equal |
| Ratios.Gt | math/Ratio.js:66-68 | on positive denominators `gt` holds exactly when the first value is larger |
| Ratios.Gte | math/Ratio.js:74-76 | on positive denominators `gte` holds exactly when the first value is larger or equal |
| Ratios.NegativeDenominatorMisorders | math/Ratio.js:7-9 | with a negative denominator `lt` disagrees with the values: `1/-2` is `gt` `0/1` |
| Ratios.EqIsEquivalence | math/Ratio.js:3-5 | on non-zero denominators `eq` is reflexive, symmetric and transitive |
| Ratios.ZeroOverZeroEqualsAll | math/Ratio.js:3-5 | `0/0` is `eq` to both `0/1` and `1/1`, which are not `eq` to each other |
| Ratios.TestComparisons | math/tests.js:9-17 | `11/20` against `1/2`: `eq`, `lt`, `lte` false; `gt`, `gte` true |
| Ratios.Simplify | math/Ratio.js:88-96 | throws a RangeError exactly on `0/0` |
| Ratios.SimplifyEdgeCases | math/Ratio.js:88-96 | `0/d` becomes `0/1`, and `n/0` becomes `-1/0` whatever the sign of `n` |
| Ratios.QuotientsCoprime | math/Ratio.js:92-94 | dividing two numbers by their gcd is exact and leaves coprime quotients |
| Ratios.ProductSign | math/Ratio.js:89 | the sign is 1 exactly when `n` and `d` are both positive or both negative, else -1 |
| Ratios.SimplifyReduces | math/Ratio.js:88-96 | for `d != 0` the result has a positive denominator, coprime parts, is `eq` to the input and has the same value |
| Ratios.SimplifyReducedIsIdentity | math/Ratio.js:88-96 | a ratio already in lowest terms with a positive denominator is unchanged |
| Ratios.SimplifyIdempotent | math/Ratio.js:88-96 | simplifying twice equals simplifying once |
| Ratios.CloneAt | math/Ratio.js:81-83 | the clone is a new object with the same `n` and `d` |
| Ratios.SimplifyAt | math/Ratio.js:88-96 | throws iff `this` is `0/0`; otherwise only `this` changes, to lowest terms when `d != 0`, and `this` is returned |
| Ratios.SimplifyCloneKeepsOriginal | math/Ratio.js:81-96 | simplifying a clone leaves the original unchanged |
| LcgRandom.New | math/LCGRandom.js:21-25 | with an explicit seed the state starts at the seed |
| LcgRandom.Reset | math/LCGRandom.js:30-32 | the state returns to the seed, whatever was drawn |
| LcgRandom.Next | math/LCGRandom.js:8-10 | one step is `(A * state + C) mod 2^31`; from a non-negative state it lies in `[0, 2^31)` |
| LcgRandom.NextInt | math/LCGRandom.js:37-40 | the state advances one step, the new state is returned and the seed is kept |
| LcgRandom.NextRange | math/LCGRandom.js:54-58 | advances like `nextInt`; for `start < end` the result is in `[start, end)`, for `start == end` it is `start`, for `start > end` it is in `[end, start]` |
| LcgRandom.ScaledBelow | math/LCGRandom.js:56-57 | `floor(k / 2^31 * size)` lies in `[0, size)` for `0 <= k < 2^31` and positive `size` |
| LcgRandom.Choice | math/LCGRandom.js:65-67 | an empty array gives `undefined`; from a non-negative state a non-empty array gives one of its elements |
| LcgRandom.Draws | math/LCGRandom.js:37-40 | the draws from a state follow the recurrence, each the step of the one before |
| LcgRandom.NextInts | math/LCGRandom.js:37-40 | `n` calls of `nextInt` return the draws from the state and leave the last as the state |
| LcgRandom.RecurrenceDeterminesDraws | math/LCGRandom.js:37-40 | any sequence following the recurrence from a state is that state's draws: two generators in the same state draw the same numbers |
| LcgRandom.ResetReplays | math/LCGRandom.js:21-40 | after `reset`, a generator draws again the sequence its seed started with |
| LcgRandom.DrawsArePrefixes | math/LCGRandom.js:37-40 | a shorter run's draws are the start of a longer run's |
| GameOfLife.Zeros | conways-game-of-life/game-of-life.js:8-13 | `height` rows of `width` zeros |
| GameOfLife.New | conways-game-of-life/game-of-life.js:2-14 | both buffers have the requested shape and every cell is dead |
| GameOfLife.Default | conways-game-of-life/game-of-life.js:2 | the default game is 100 by 100 |
| GameOfLife.XIndex | conways-game-of-life/game-of-life.js:16-19 | the column index lies in `[0, w)` and is `x mod w` |
| GameOfLife.YIndex | conways-game-of-life/game-of-life.js:21-24 | the row index lies in `[0, h)` and is `y mod h` |
| GameOfLife.Cell | conways-game-of-life/game-of-life.js:26-28 | `cell(x, y)` reads the field at row `y mod h` and column `x mod w` |
| GameOfLife.SetCell | conways-game-of-life/game-of-life.js:30-32 | afterwards `cell(x, y)` is 1 for a truthy value and 0 otherwise; shape and back buffer are kept |
| GameOfLife.SetCellFrame | conways-game-of-life/game-of-life.js:30-32 | every cell that wraps to a different position is unchanged |
| GameOfLife.IndexInRange | conways-game-of-life/game-of-life.js:16-28 | on in-range coordinates the indices are the identity and `cell` reads the field directly |
| GameOfLife.CellPeriodic | conways-game-of-life/game-of-life.js:26-28 | `cell(x + w, y) == cell(x, y)` and `cell(x, y + h) == cell(x, y)` |
| GameOfLife.CountAlive | conways-game-of-life/game-of-life.js:47-49 | the count lies between 0 and the number of offsets, and is 0 when no visited cell is alive |
| GameOfLife.Neighbours | conways-game-of-life/game-of-life.js:46-49 | the neighbour count lies in `[0, 8]` |
| GameOfLife.Rule | conways-game-of-life/game-of-life.js:45-58 | a cell that lives next has 2 or 3 live neighbours, and one with 3 always lives |
| GameOfLife.RuleIsB3S23 | conways-game-of-life/game-of-life.js:45-58 | a cell lives next iff it has 3 live neighbours, or it is alive with 2 |
| GameOfLife.NextField | conways-game-of-life/game-of-life.js:34-43 | the next field has the shape of the game |
| GameOfLife.StepRow | conways-game-of-life/game-of-life.js:37-39 | the inner loop writes `rule(x, y)` into every cell of row `y` and leaves every other row as it was |
| GameOfLife.Step | conways-game-of-life/game-of-life.js:34-43 | the shape is kept, every new cell is `rule` on the old field, so the new field is the reference NextField, and the old field becomes the back buffer |
| GameOfLife.StepIsNextField | conways-game-of-life/game-of-life.js:34-43 | the field `step` writes is exactly `rule` evaluated everywhere on the old field |
| GameOfLife.DeadHasNoNeighbours | conways-game-of-life/game-of-life.js:45-58 | on an all-dead field every neighbour count is 0 |
| GameOfLife.AllDeadStaysDead | conways-game-of-life/game-of-life.js:34-58 | an all-dead field stays all-dead after `step` |
| LangtonsAnt.RuleFor | langtons-ant/ant.js:9-14 | a rule exists exactly for the colours 0, 3, 4, 8, 10, and every turn is 1 or -1 |
| LangtonsAnt.RulesClosed | langtons-ant/ant.js:9-14 | every colour a rule paints has a rule |
| LangtonsAnt.New | langtons-ant/ant.js:4-19 | a new ant has no tiles, heads right and stands at the origin, and satisfies the invariant |
| LangtonsAnt.Key | langtons-ant/ant.js:68 | the tile key of `(x, y)` is the pair of floors of `x / 10` and `y / 10`: each coordinate lies in its tile's range of 10 |
| LangtonsAnt.Index | langtons-ant/ant.js:57-60 | the index in the tile lies in `[0, 10)` and is `v mod 10` |
| LangtonsAnt.KeyIndexInjective | langtons-ant/ant.js:67-78 | tile number and index in the tile determine the coordinate |
| LangtonsAnt.GenerateTile | langtons-ant/ant.js:46-55 | a tile is 10 rows of 10 zeros |
| LangtonsAnt.GetCell | langtons-ant/ant.js:67-72 | a cell whose tile was never created reads 0 |
| LangtonsAnt.SetCell | langtons-ant/ant.js:74-78 | the tile of the cell now exists, the cell reads the new colour, and heading and position are kept |
| LangtonsAnt.SetCellFrame | langtons-ant/ant.js:67-78 | every other coordinate keeps its colour |
| LangtonsAnt.Turn | langtons-ant/ant.js:62-65 | the heading becomes `(dir + t) mod 4`, in `{0, 1, 2, 3}`; nothing else changes |
| LangtonsAnt.TurnTo | langtons-ant/ant.js:62-65 | a turn lands on the heading congruent to `dir + t` modulo 4 |
| LangtonsAnt.TurnInverse | langtons-ant/ant.js:62-65 | `turn(1)` then `turn(-1)` restores the ant, and so does the reverse order |
| LangtonsAnt.TurnAround | langtons-ant/ant.js:62-65 | two right turns reverse the heading |
| LangtonsAnt.FourTurns | langtons-ant/ant.js:62-65 | four right turns restore the ant |
| LangtonsAnt.Move | langtons-ant/ant.js:30-43 | one unit along the heading (left `x-1`, up `y-1`, right `x+1`, down `y+1`); any other heading does not move |
| LangtonsAnt.Step | langtons-ant/ant.js:21-44 | throws a TypeError iff the current colour has no rule; otherwise recolours the ant's cell, keeps every other cell's colour, turns by the rule and moves one unit |
| LangtonsAnt.StepPreservesInv | langtons-ant/ant.js:9-44 | from a reachable ant `step` never throws, and the result is again reachable |
| LangtonsAnt.Run | langtons-ant/ant.js:21-44 | `n` calls of `step()` from any ant with well-formed tiles: a throw is the TypeError of `step`, and a run that succeeds ends with well-formed tiles |
| LangtonsAnt.RunNeverThrows | langtons-ant/ant.js:21-44 | from an ant satisfying the invariant, any number of steps succeeds and ends in an ant satisfying it |
| LangtonsAnt.RunThrowsWithoutRule | langtons-ant/ant.js:21-25 | an ant standing on a colour with no rule throws a TypeError, and so does every run of one or more steps |
| LangtonsAnt.FirstStep | langtons-ant/ant.js:4-44 | the first step turns the origin from colour 0 to 3, the heading from right to down, and moves to `(0, 1)` |

## Left out

- The neural-network code, the training driver, the DOM toolkit, the canvas
  front ends, timers and `localStorage`: they are not computational.
- `Matrix.randomize` uses `Math.random`. `Matrix.toString`, `Ratio.toString`
  and `GameOfLife.raw` are JSON or string formatting.
- Vector `magnitude`, `cos` and `angle` use `Math.sqrt` and `Math.acos` on
  floating point. `Ratio.valueOf` converts to a float.
- `LCGRandom.nextFloat` divides in floating point. The default seed comes from
  `Math.random`. The model takes the seed as a parameter.
- Matrix and vector cells are exact reals. Floating-point rounding of `+`,
  `-` and `*` is not modelled.
- LcgRandom.Next: computed with exact integers. JavaScript evaluates
  `A * state` as a double, which rounds once the product passes 2^53 (states
  above about 2^23). From such states the generator's real sequence differs
  from the exact recurrence. Range, `reset` and determinism hold either way.
- LcgRandom.NextRange: computed exactly. The source's `nextInt() / M * size`
  is a float product that is not modelled.
- Matrices.ForEach: the callback is a pure function of the old cell and its
  coordinates. A callback that reads or writes the matrix is not modelled.
- Matrices.Add, Matrices.Subtract, Matrices.Dot, Matrices.ForEach,
  Matrices.Multiply, Matrices.DiagonalOnes, Matrices.T: these require a
  rectangular matrix. `fromArray` accepts ragged arrays, and on those the
  source indexes past a short column and yields `NaN` or `undefined`.
- GameOfLife.XIndex, GameOfLife.YIndex, GameOfLife.Cell, GameOfLife.SetCell,
  GameOfLife.Rule, GameOfLife.Step: these require a positive width and
  height. With a zero dimension the normaliser of that dimension returns
  `NaN`. A zero height makes `cell` and `setCell` throw a TypeError, since
  `_field[NaN]` is undefined. A zero width with a positive height throws
  nothing: `cell` returns undefined and `setCell` stores a property named
  `NaN` on the row. With either dimension zero, `step` runs no iteration
  and only swaps the buffers.
- Ratios.Gcd: written as tail recursion rather than the source's `while`
  loop. The `BigInt(n)` conversion in the constructor is not modelled: a
  ratio holds integers, and `BigInt` of a non-integer number, which would
  throw, cannot be expressed.
- Vectors.Cross: normality of the result is proved only for the corrected
  sign rule in three dimensions and for two dimensions. Dimensions of 4 and
  above are covered only by the general formula.
- Vector.js constructor: the arguments are modelled as numbers or an array
  first. The source's further mixes of argument types are not modelled.
- LangtonsAnt.Key: the string key `floor(x/10):floor(y/10)` is kept as the
  integer pair it spells.

## Findings

| source | as written | input that shows it | evidently intended | confidence | as-written member | corrected member |
|---|---|---|---|---|---|---|
| math/Vector.js:75 (also math/vector.ts:96) | each term of `det` and each component of `cross` gets the sign `(-1)^i`, but taking the rows cyclically from `i + 1` already contributes `(-1)^i` when the number of cycled rows (the dimension in `cross`, the matrix size in `det`) is odd, so the signs cancel wrongly and the 3D result is not normal to its arguments, contrary to the comment at line 41 | `cross((1,1,0), (0,0,1))` gives `(1,1,0)`, whose dot product with `(1,1,0)` is 2 | sign 1 when the number of cycled rows is odd, `(-1)^i` when it is even, which gives the usual cross product `(1,-1,0)` | not executed | Vectors.CrossThreeNotNormal | Vectors.CrossFixedThreeNormal |
