/** JavaScript semantics shared by every component of the model: the outcome of
    a call that may throw, and the integer `%` operator of the language, which
    truncates toward zero (the remainder takes the sign of the dividend) where
    Dafny's `%` is Euclidean. */
module JsCore {

  /** The constructor of a thrown JavaScript exception. */
  datatype ErrorClass = Error | TypeError | RangeError

  /** The outcome of a call: a value, or a thrown exception described by a
      reason `E`, which is an error class or a value naming the failing check. */
  datatype Result<+T, +E> = Ok(value: T) | Throw(reason: E)
  {
    predicate IsFailure() { Throw? }

    function PropagateFailure<U>(): Result<U, E>
      requires Throw?
    {
      Throw(reason)
    }

    function Extract(): T
      requires Ok?
    {
      value
    }
  }

  /** `undefined` or a value. */
  datatype Option<+T> = None | Some(value: T)

  function Abs(a: int): (r: int)
    ensures r >= 0 && (r == a || r == -a)
  {
    if a < 0 then -a else a
  }

  /** JavaScript `a % b` on integers (Number or BigInt): the magnitude is
      `|a| mod |b|` and the sign is the sign of `a`. */
  function JsRem(a: int, b: int): (r: int)
    requires b != 0
    ensures a >= 0 ==> 0 <= r < Abs(b)
    ensures a < 0 ==> -Abs(b) < r <= 0
  {
    if a >= 0 then a % Abs(b) else -((-a) % Abs(b))
  }

  /** JavaScript `a / b` on BigInt: the quotient truncated toward zero. */
  function JsQuot(a: int, b: int): (q: int)
    requires b != 0
    ensures a == b * q + JsRem(a, b)
  {
    if a >= 0 then
      if b > 0 then a / b else -(a / -b)
    else
      if b > 0 then -((-a) / b) else (-a) / -b
  }

  /** The index normaliser `((v % n) + n) % n` used by the grid components,
      computed with JavaScript's remainder. */
  function Wrap(v: int, n: int): (r: int)
    requires n > 0
    ensures 0 <= r < n
  {
    JsRem(JsRem(v, n) + n, n)
  }

  /** If `t` is in `[0, n)` and differs from `a` by a multiple of `n`, it is
      Dafny's (Euclidean) `a % n`. */
  lemma ModUnique(a: int, n: int, q: int, t: int)
    requires n > 0 && 0 <= t < n && a == q * n + t
    ensures a % n == t && a / n == q
  {
    MulBounds(a / n - q, n);
  }

  /** A non-zero multiple of a positive `n` is at least `n` in magnitude. */
  lemma MulBounds(k: int, n: int)
    requires n > 0
    ensures k >= 1 ==> k * n >= n
    ensures k <= -1 ==> k * n <= -n
  {
  }

  /** The normaliser is the Euclidean remainder: it lands in `[0, n)` and is
      congruent to `v` modulo `n`. */
  lemma {:induction false} WrapIsMod(v: int, n: int)
    requires n > 0
    ensures Wrap(v, n) == v % n
  {
    var r := JsRem(v, n);
    if v >= 0 {
      assert r == v % n;
      ModUnique(r + n, n, 1, r);
    } else {
      var s := (-v) % n;
      var q := (-v) / n;
      assert -v == q * n + s;
      if s == 0 {
        assert r + n == n;
        ModUnique(r + n, n, 1, 0);
        ModUnique(v, n, -q, 0);
      } else {
        assert r + n == n - s;
        ModUnique(r + n, n, 0, n - s);
        ModUnique(v, n, -q - 1, n - s);
      }
    }
  }

  /** The normaliser is the identity on `[0, n)`. */
  lemma WrapInRange(v: int, n: int)
    requires 0 <= v < n
    ensures Wrap(v, n) == v
  {
    WrapIsMod(v, n);
    ModUnique(v, n, 0, v);
  }

  /** Shifting by one period does not change the normalised index. */
  lemma WrapPeriodic(v: int, n: int)
    requires n > 0
    ensures Wrap(v + n, n) == Wrap(v, n)
  {
    WrapIsMod(v, n);
    WrapIsMod(v + n, n);
    ModUnique(v + n, n, v / n + 1, v % n);
  }
}
