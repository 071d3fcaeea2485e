/** math/Ratio.js: rational numbers as a BigInt numerator and denominator,
    compared by cross-multiplication and reduced by Euclid's algorithm. */
module Ratios {
  import opened JsCore
  import opened Objects

  /** `n / d`; nothing stops `d` from being zero or negative. */
  datatype Ratio = Ratio(n: int, d: int)

  function Mul(a: int, b: int): int { a * b }

  /** `d` divides `x`: `x` is a multiple of `d`. */
  ghost predicate Divides(d: int, x: int)
  {
    exists k :: Mul(d, k) == x
  }

  /** Two integers whose only common divisors are the units. */
  ghost predicate Coprime(a: int, b: int)
  {
    forall c :: Divides(c, a) && Divides(c, b) ==> c == 1 || c == -1
  }

  /** The rational value of a ratio with a non-zero denominator. */
  function Value(r: Ratio): real
    requires r.d != 0
  {
    r.n as real / r.d as real
  }

  /** `Ratio.gcd(a, b)`: the `while (b !== 0n)` loop written as tail
      recursion, with BigInt's truncating `%`. On non-negative arguments the
      result is non-negative; it is zero only for `gcd(0, 0)`. */
  function Gcd(a: int, b: int): (g: int)
    ensures a >= 0 && b >= 0 ==> g >= 0
    ensures g == 0 <==> a == 0 && b == 0
    decreases Abs(b)
  {
    if b == 0 then a else Gcd(b, JsRem(a, b))
  }

  /** A common divisor of `x` and `y` divides `x + y * q`. */
  lemma DividesCombination(c: int, x: int, y: int, q: int)
    requires Divides(c, x) && Divides(c, y)
    ensures Divides(c, x + y * q)
  {
    var kx :| Mul(c, kx) == x;
    var ky :| Mul(c, ky) == y;
    assert c * (ky * q) == (c * ky) * q;
    assert Mul(c, kx + ky * q) == c * kx + c * (ky * q);
  }

  /** A common divisor of `a` and `b` divides `a % b`, and a common divisor
      of `b` and `a % b` divides `a`. */
  lemma DividesRem(c: int, a: int, b: int)
    requires b != 0
    ensures Divides(c, a) && Divides(c, b) ==> Divides(c, JsRem(a, b))
    ensures Divides(c, b) && Divides(c, JsRem(a, b)) ==> Divides(c, a)
  {
    var q := JsQuot(a, b);
    var r := JsRem(a, b);
    assert a == b * q + r;
    if Divides(c, a) && Divides(c, b) {
      DividesCombination(c, a, b, -q);
      assert a + b * -q == r;
    }
    if Divides(c, b) && Divides(c, r) {
      DividesCombination(c, r, b, q);
    }
  }

  /** Euclid's algorithm is correct for all integers: the result divides
      both arguments, and every common divisor divides the result. */
  lemma {:induction false} GcdIsGreatest(a: int, b: int)
    ensures Divides(Gcd(a, b), a) && Divides(Gcd(a, b), b)
    ensures forall c :: Divides(c, a) && Divides(c, b) ==> Divides(c, Gcd(a, b))
    decreases Abs(b)
  {
    if b == 0 {
      assert Mul(a, 1) == a;
      assert Mul(a, 0) == 0;
    } else {
      var r := JsRem(a, b);
      GcdIsGreatest(b, r);
      DividesRem(Gcd(b, r), a, b);
      forall c | Divides(c, a) && Divides(c, b)
        ensures Divides(c, Gcd(a, b))
      {
        DividesRem(c, a, b);
      }
    }
  }

  /** `eq`: cross-multiplication `a.n * b.d === a.d * b.n`. On non-zero
      denominators it is equality of the rational values. */
  predicate Eq(a: Ratio, b: Ratio)
    ensures a.d != 0 && b.d != 0 ==> (Eq(a, b) <==> Value(a) == Value(b))
  {
    CrossProducts(a, b);
    a.n * b.d == a.d * b.n
  }

  /** `lt`: cross-multiplication `a.n * b.d < a.d * b.n`. On positive
      denominators it is the order of the rational values. */
  predicate Lt(a: Ratio, b: Ratio)
    ensures a.d > 0 && b.d > 0 ==> (Lt(a, b) <==> Value(a) < Value(b))
  {
    CrossProducts(a, b);
    a.n * b.d < a.d * b.n
  }

  /** `lte`: `lt` or `eq`. */
  predicate Lte(a: Ratio, b: Ratio)
    ensures a.d > 0 && b.d > 0 ==> (Lte(a, b) <==> Value(a) <= Value(b))
  {
    Lt(a, b) || Eq(a, b)
  }

  /** `gt`: `lt` with the operands swapped. */
  predicate Gt(a: Ratio, b: Ratio)
    ensures a.d > 0 && b.d > 0 ==> (Gt(a, b) <==> Value(a) > Value(b))
  {
    Lt(b, a)
  }

  /** `gte`: `gt` or `eq`. */
  predicate Gte(a: Ratio, b: Ratio)
    ensures a.d > 0 && b.d > 0 ==> (Gte(a, b) <==> Value(a) >= Value(b))
  {
    Lt(b, a) || Eq(b, a)
  }

  /** The cross products compare like the values: equal on non-zero
      denominators, ordered on positive ones. */
  lemma CrossProducts(a: Ratio, b: Ratio)
    ensures a.d != 0 && b.d != 0 ==> (a.n * b.d == a.d * b.n <==> Value(a) == Value(b))
    ensures a.d > 0 && b.d > 0 ==> (a.n * b.d < a.d * b.n <==> Value(a) < Value(b))
  {
    if a.d != 0 && b.d != 0 {
      var ad, bd := a.d as real, b.d as real;
      var va, vb := Value(a), Value(b);
      assert va * ad == a.n as real;
      assert vb * bd == b.n as real;
      assert va * (ad * bd) == (a.n * b.d) as real;
      assert vb * (ad * bd) == (a.d * b.n) as real;
      assert ad * bd != 0.0;
      if a.d > 0 && b.d > 0 {
        MulPositive(va, vb, ad * bd);
      }
    }
  }

  /** Whatever the denominators, exactly one of `lt`, `eq`, `gt` holds, and
      `lte`/`gte` are the negations of `gt`/`lt`. */
  lemma Trichotomy(a: Ratio, b: Ratio)
    ensures Lt(a, b) || Eq(a, b) || Gt(a, b)
    ensures !(Lt(a, b) && Eq(a, b)) && !(Lt(a, b) && Gt(a, b)) && !(Eq(a, b) && Gt(a, b))
    ensures Lte(a, b) <==> !Gt(a, b)
    ensures Gte(a, b) <==> !Lt(a, b)
    ensures Eq(a, b) <==> Eq(b, a)
  {
  }

  /** `x * d` compares like `x` when `d` is positive. */
  lemma MulPositive(x: real, y: real, d: real)
    requires d > 0.0
    ensures x < y <==> x * d < y * d
    ensures x == y <==> x * d == y * d
  {
  }

  /** A negative denominator breaks that agreement: `1/-2` is below `0/1` in
      value, yet `lt` says no and `gt` says yes. */
  lemma NegativeDenominatorMisorders()
    ensures Value(Ratio(1, -2)) < Value(Ratio(0, 1))
    ensures !Lt(Ratio(1, -2), Ratio(0, 1)) && Gt(Ratio(1, -2), Ratio(0, 1))
  {
  }

  /** `eq` is an equivalence on ratios with non-zero denominators. */
  lemma EqIsEquivalence(a: Ratio, b: Ratio, c: Ratio)
    requires a.d != 0 && b.d != 0 && c.d != 0
    ensures Eq(a, a)
    ensures Eq(a, b) ==> Eq(b, a)
    ensures Eq(a, b) && Eq(b, c) ==> Eq(a, c)
  {
    if Eq(a, b) && Eq(b, c) {
      assert (a.n * c.d) * b.d == (a.d * c.n) * b.d by {
        assert (a.n * c.d) * b.d == (a.n * b.d) * c.d;
        assert (a.d * c.n) * b.d == a.d * (b.d * c.n);
        assert (a.n * b.d) * c.d == (a.d * b.n) * c.d;
        assert (b.n * c.d) * a.d == (b.d * c.n) * a.d;
      }
    }
  }

  /** A zero denominator makes `eq` hold against everything: `0/0` equals
      both `0/1` and `1/1`, which differ. */
  lemma ZeroOverZeroEqualsAll()
    ensures Eq(Ratio(0, 0), Ratio(0, 1)) && Eq(Ratio(0, 0), Ratio(1, 1))
    ensures !Eq(Ratio(0, 1), Ratio(1, 1))
  {
  }

  /** The comparisons of math/tests.js: `11/20` against `1/2`. */
  lemma TestComparisons()
    ensures var a, b := Ratio(11, 20), Ratio(1, 2);
            !Eq(a, b) && !Lt(a, b) && !Lte(a, b) && Gt(a, b) && Gte(a, b)
  {
  }

  /** `simplify()`: the sign `n * d > 0 ? 1 : -1` goes to the numerator,
      both magnitudes are divided by their gcd with BigInt division, which
      throws a RangeError when that gcd is zero. */
  function Simplify(r: Ratio): (s: Result<Ratio, ErrorClass>)
    ensures s.Throw? <==> r.n == 0 && r.d == 0
    ensures s.Throw? ==> s.reason == RangeError
  {
    var sign := if r.n * r.d > 0 then 1 else -1;
    var nabs := Abs(r.n);
    var dabs := Abs(r.d);
    var g := Gcd(nabs, dabs);
    if g == 0 then Throw(RangeError)
    else Ok(Ratio(JsQuot(sign * nabs, g), JsQuot(dabs, g)))
  }

  /** A zero numerator becomes `0/1`; a zero denominator becomes `-1/0`
      whatever the sign of the numerator. */
  lemma SimplifyEdgeCases(r: Ratio)
    ensures r.n == 0 && r.d != 0 ==> Simplify(r) == Ok(Ratio(0, 1))
    ensures r.n != 0 && r.d == 0 ==> Simplify(r) == Ok(Ratio(-1, 0))
  {
    var nabs, dabs := Abs(r.n), Abs(r.d);
    if r.n == 0 && r.d != 0 {
      assert JsRem(0, dabs) == 0;
      assert Gcd(0, dabs) == Gcd(dabs, 0) == dabs;
      QuotSelf(dabs);
    }
    if r.n != 0 && r.d == 0 {
      assert r.n * r.d == 0;
      assert Gcd(nabs, 0) == nabs;
      QuotSelf(nabs);
    }
  }

  /** `x / x`, `-x / x` and `0 / x` for a positive BigInt `x`. */
  lemma QuotSelf(x: int)
    requires x > 0
    ensures JsQuot(x, x) == 1 && JsQuot(-x, x) == -1 && JsQuot(0, x) == 0
  {
    ModUnique(x, x, 1, 0);
    ModUnique(0, x, 0, 0);
  }

  /** BigInt division by a divisor is exact. */
  lemma DivideExact(x: int, g: int)
    requires g > 0 && Divides(g, x)
    ensures g * JsQuot(x, g) == x && JsRem(x, g) == 0
  {
    var k :| Mul(g, k) == x;
    if x >= 0 {
      if k < 0 { MulBounds(-k, g); }
      ModUnique(x, g, k, 0);
    } else {
      MulBounds(k, g);
      ModUnique(-x, g, -k, 0);
    }
  }

  /** If `x == g * p` and `c` divides `p`, then `g * c` divides `x`. */
  lemma ScaledDivisor(g: int, p: int, c: int)
    requires Divides(c, p)
    ensures Divides(Mul(g, c), Mul(g, p))
  {
    var k :| Mul(c, k) == p;
    assert Mul(Mul(g, c), k) == g * (c * k);
  }

  /** `g * c * k == g` with `g` non-zero forces `c` to be a unit. */
  lemma UnitFactor(g: int, c: int, k: int)
    requires g != 0 && Mul(Mul(g, c), k) == g
    ensures c == 1 || c == -1
  {
    assert g * (c * k) == g * 1;
    assert c * k == 1;
    if c > 1 || c < -1 {
      if k > 0 { MulBounds(k, Abs(c)); } else { MulBounds(-k, Abs(c)); }
    }
  }

  /** Dividing both numbers by their gcd leaves a coprime pair. */
  lemma {:induction false} QuotientsCoprime(a: int, b: int)
    requires a >= 0 && b >= 0 && Gcd(a, b) != 0
    ensures Gcd(a, b) * JsQuot(a, Gcd(a, b)) == a && Gcd(a, b) * JsQuot(b, Gcd(a, b)) == b
    ensures Coprime(JsQuot(a, Gcd(a, b)), JsQuot(b, Gcd(a, b)))
  {
    var g := Gcd(a, b);
    GcdIsGreatest(a, b);
    DivideExact(a, g);
    DivideExact(b, g);
    var p, q := JsQuot(a, g), JsQuot(b, g);
    forall c | Divides(c, p) && Divides(c, q)
      ensures c == 1 || c == -1
    {
      ScaledDivisor(g, p, c);
      ScaledDivisor(g, q, c);
      assert Mul(g, p) == a && Mul(g, q) == b;
      assert Divides(Mul(g, c), g);
      var k :| Mul(Mul(g, c), k) == g;
      UnitFactor(g, c, k);
    }
  }

  /** `x / 1n` is `x`, and a negated BigInt quotient is the quotient of the
      negation. */
  lemma QuotFacts(x: int, g: int)
    requires g > 0
    ensures JsQuot(x, 1) == x
    ensures JsQuot(-x, g) == -JsQuot(x, g)
  {
  }

  /** The sign `simplify` gives the numerator: `n * d > 0 ? 1n : -1n`. */
  function ProductSign(n: int, d: int): (s: int)
    ensures s == 1 <==> (n > 0 && d > 0) || (n < 0 && d < 0)
    ensures s == 1 || s == -1
  {
    if n * d > 0 then 1 else -1
  }

  /** Negating a number does not change its divisors. */
  lemma CoprimeNegate(a: int, b: int)
    requires Coprime(a, b)
    ensures Coprime(-a, b)
  {
    forall c | Divides(c, -a) && Divides(c, b)
      ensures c == 1 || c == -1
    {
      var k :| Mul(c, k) == -a;
      assert Mul(c, -k) == a;
    }
  }

  /** The cross products of `sign * p / q` and `n / d` agree when `g * p` and
      `g * q` are the magnitudes of `n` and `d`. */
  lemma CrossEqual(n: int, d: int, g: int, p: int, q: int)
    requires g > 0 && g * p == Abs(n) && g * q == Abs(d)
    ensures (ProductSign(n, d) * p) * d == q * n
  {
    var sign := ProductSign(n, d);
    assert p * (g * q) == q * (g * p);
    if n == 0 {
      assert p == 0;
    } else if (n > 0) == (d > 0) {
      if n > 0 { assert sign * p * d == p * (g * q); }
      else { assert sign * p * d == -(p * (g * q)); }
    } else {
      if n > 0 { assert sign * p * d == p * (g * q); }
      else { assert sign * p * d == -(p * (g * q)); }
    }
  }

  /** The pieces `simplify` produces for a non-zero denominator: the gcd `g`,
      the reduced magnitudes `p` and `q`, and the result `sign * p / q`. */
  lemma {:induction false} SimplifyParts(r: Ratio)
    requires r.d != 0
    ensures var g := Gcd(Abs(r.n), Abs(r.d));
            var p, q := JsQuot(Abs(r.n), g), JsQuot(Abs(r.d), g);
            g > 0 && g * p == Abs(r.n) && g * q == Abs(r.d) && q > 0 && Coprime(p, q)
            && Simplify(r) == Ok(Ratio(ProductSign(r.n, r.d) * p, q))
  {
    var nabs, dabs := Abs(r.n), Abs(r.d);
    var g := Gcd(nabs, dabs);
    QuotientsCoprime(nabs, dabs);
    var q := JsQuot(dabs, g);
    if q <= 0 { MulBounds(-q, g); }
    QuotFacts(nabs, g);
    var sign := ProductSign(r.n, r.d);
    assert JsQuot(sign * nabs, g) == sign * JsQuot(nabs, g) by {
      if sign == -1 { assert sign * nabs == -nabs; }
    }
  }

  /** On any ratio with a non-zero denominator, `simplify` yields the same
      value in lowest terms with a positive denominator. */
  lemma {:induction false} SimplifyReduces(r: Ratio)
    requires r.d != 0
    ensures Simplify(r).Ok?
    ensures var s := Simplify(r).value;
            s.d > 0 && Eq(s, r) && Coprime(s.n, s.d) && Value(s) == Value(r)
  {
    SimplifyParts(r);
    var g := Gcd(Abs(r.n), Abs(r.d));
    var p, q := JsQuot(Abs(r.n), g), JsQuot(Abs(r.d), g);
    var s := Simplify(r).value;
    if ProductSign(r.n, r.d) == -1 {
      CoprimeNegate(p, q);
      assert s.n == -p;
    }
    CrossEqual(r.n, r.d, g, p, q);
    assert Eq(s, r);
  }

  /** A coprime pair with a positive second member has gcd one. */
  lemma CoprimeGcd(a: int, b: int)
    requires a >= 0 && b > 0 && Coprime(a, b)
    ensures Gcd(a, b) == 1
  {
    GcdIsGreatest(a, b);
  }

  /** A reduced ratio with a positive denominator is a fixed point of
      `simplify`. */
  lemma {:induction false} SimplifyReducedIsIdentity(s: Ratio)
    requires s.d > 0 && Coprime(s.n, s.d)
    ensures Simplify(s) == Ok(s)
  {
    if s.n < 0 {
      CoprimeNegate(s.n, s.d);
      assert -s.n == Abs(s.n);
    }
    CoprimeGcd(Abs(s.n), s.d);
    QuotFacts(Abs(s.n), 1);
    QuotFacts(s.d, 1);
    var sign := ProductSign(s.n, s.d);
    assert sign * Abs(s.n) == s.n;
  }

  /** Simplifying twice is simplifying once. */
  lemma {:induction false} SimplifyIdempotent(r: Ratio)
    requires Simplify(r).Ok?
    ensures Simplify(Simplify(r).value) == Simplify(r)
  {
    if r.d == 0 {
      SimplifyEdgeCases(r);
      SimplifyEdgeCases(Ratio(-1, 0));
    } else {
      SimplifyReduces(r);
      SimplifyReducedIsIdentity(Simplify(r).value);
    }
  }

  /** `clone()`: a new Ratio object with the same fields. */
  function CloneAt(h: seq<Ratio>, self: Ref): (res: (seq<Ratio>, Ref))
    requires self < |h|
    ensures res.1 != self && Allocated(h, res.0, res.1)
    ensures res.0[res.1] == h[self]
  {
    Alloc(h, Ratio(h[self].n, h[self].d))
  }

  /** `self.simplify()`: rewrites `this` and returns it. */
  function SimplifyAt(h: seq<Ratio>, self: Ref): (res: Result<(seq<Ratio>, Ref), ErrorClass>)
    requires self < |h|
    ensures res.Throw? <==> h[self] == Ratio(0, 0)
    ensures res.Ok? ==> res.value.1 == self && OnlyChanged(h, res.value.0, self)
    ensures res.Ok? && h[self].d != 0 ==>
              var s := res.value.0[self];
              s.d > 0 && Coprime(s.n, s.d) && Eq(s, h[self])
  {
    var s :- Simplify(h[self]);
    if h[self].d == 0 then Ok((h[self := s], self))
    else
      SimplifyReduces(h[self]);
      Ok((h[self := s], self))
  }

  /** Simplifying a clone leaves the original as it was. */
  lemma SimplifyCloneKeepsOriginal(h: seq<Ratio>, r: Ref)
    requires r < |h| && h[r] != Ratio(0, 0)
    ensures var (h1, c) := CloneAt(h, r);
            SimplifyAt(h1, c).Ok? && SimplifyAt(h1, c).value.0[r] == h[r]
  {
  }
}
