/** math/LCGRandom.js: a linear congruential generator with GCC's constants,
    modulus 2^31, whose whole state is one integer. */
module LcgRandom {
  import opened JsCore

  const M: int := 0x8000_0000
  const A: int := 1103515245
  const C: int := 12345

  /** The generator: the seed it was built with and its current state. */
  datatype Lcg = Lcg(seed: int, state: int)

  /** `new LCGRandom(seed)` with an explicit seed: the state starts at the
      seed. */
  function New(seed: int): (g: Lcg)
    ensures g.seed == seed && g.state == seed
  {
    Reset(Lcg(seed, 0))
  }

  /** `reset()`: back to the seed, whatever was drawn before. */
  function Reset(g: Lcg): (g': Lcg)
    ensures g'.seed == g.seed && g'.state == g.seed
  {
    g.(state := g.seed)
  }

  /** One step of the recurrence, `(A * state + C) % M` with JavaScript's
      truncating remainder: from a non-negative state it lands in `[0, M)`;
      from a negative one it may be negative. */
  function Next(state: int): (s: int)
    ensures -M < s < M
    ensures state >= 0 ==> 0 <= s < M
    ensures A * state + C >= 0 ==> s == (A * state + C) % M
  {
    JsRem(A * state + C, M)
  }

  /** `nextInt()`: advances the state and returns it; the seed is kept. */
  function NextInt(g: Lcg): (res: (Lcg, int))
    ensures res.0.seed == g.seed && res.0.state == res.1
    ensures res.1 == Next(g.state)
    ensures g.state >= 0 ==> 0 <= res.1 < M
  {
    var s := Next(g.state);
    (g.(state := s), s)
  }

  /** `start + floor(nextInt() / M * (end - start))`, computed exactly: with
      a positive divisor Dafny's `/` is the floor. For `start < end` the
      result lies in `[start, end)`; for `start > end` in `[end, start]`. */
  function NextRange(g: Lcg, start: int, end: int): (res: (Lcg, int))
    ensures res.0 == NextInt(g).0
    ensures g.state >= 0 && start < end ==> start <= res.1 < end
    ensures g.state >= 0 && start == end ==> res.1 == start
    ensures g.state >= 0 && end < start ==> end <= res.1 <= start
  {
    var (g', k) := NextInt(g);
    var size := end - start;
    ScaledBelow(k, size);
    (g', start + (k * size) / M)
  }

  /** `floor(k * size / M)` for `0 <= k < M` lies between `0` and `size`,
      and below `size` when `size` is positive. */
  lemma ScaledBelow(k: int, size: int)
    ensures 0 <= k < M && size > 0 ==> 0 <= (k * size) / M < size
    ensures size == 0 ==> (k * size) / M == 0
    ensures 0 <= k < M && size < 0 ==> size <= (k * size) / M <= 0
  {
    var p := k * size;
    if !(0 <= k < M) {
    } else if size > 0 {
      assert 0 <= p < M * size;
      ModUnique(p, M, p / M, p % M);
      MulBounds(p / M - size, M);
    } else if size < 0 {
      assert M * size < p <= 0;
      MulBounds(size - p / M, M);
      MulBounds(p / M, M);
    }
  }

  /** `choice(array)`: the element at a drawn index; an empty array gives
      `array[0]`, i.e. `undefined`, and so does an index made negative by a
      negative seed. */
  function Choice<T>(g: Lcg, arr: seq<T>): (res: (Lcg, Option<T>))
    ensures res.0 == NextInt(g).0
    ensures |arr| == 0 ==> res.1 == None
    ensures g.state >= 0 && |arr| > 0 ==> res.1.Some? && res.1.value in arr
  {
    var (g', i) := NextRange(g, 0, |arr|);
    (g', if 0 <= i < |arr| then Some(arr[i]) else None)
  }

  /** The first `n` numbers `nextInt` returns from `state`, each the step of
      the one before. */
  function Draws(state: int, n: nat): (out: seq<int>)
    ensures |out| == n
    ensures n > 0 ==> out[0] == Next(state)
    ensures forall i :: 0 < i < n ==> out[i] == Next(out[i - 1])
    ensures state >= 0 ==> forall i :: 0 <= i < n ==> 0 <= out[i] < M
    decreases n
  {
    if n == 0 then [] else [Next(state)] + Draws(Next(state), n - 1)
  }

  /** Calling `nextInt` `n` times in a row returns `Draws(state, n)` and
      leaves the last of them as the state. */
  method NextInts(g: Lcg, n: nat) returns (g': Lcg, out: seq<int>)
    ensures out == Draws(g.state, n)
    ensures g'.seed == g.seed
    ensures g'.state == if n == 0 then g.state else out[n - 1]
  {
    g', out := g, [];
    var i := 0;
    while i < n
      invariant 0 <= i <= n
      invariant g'.seed == g.seed
      invariant out == Draws(g.state, i)
      invariant g'.state == if i == 0 then g.state else out[i - 1]
    {
      var x;
      g', x := NextInt(g').0, NextInt(g').1;
      DrawsExtend(g.state, i);
      out := out + [x];
      i := i + 1;
    }
  }

  /** One more draw appends the step of the last one. */
  lemma DrawsExtend(state: int, n: nat)
    ensures Draws(state, n + 1) == Draws(state, n) + [Next(if n == 0 then state else Draws(state, n)[n - 1])]
  {
    var a := Draws(state, n + 1);
    var b := Draws(state, n) + [Next(if n == 0 then state else Draws(state, n)[n - 1])];
    forall i | 0 <= i < n + 1
      ensures a[i] == b[i]
    {
      if i > 0 { DrawsExtendAt(state, n, i); }
    }
  }

  /** Helper for `DrawsExtend`: the two sequences agree at `i`. */
  lemma {:induction false} DrawsExtendAt(state: int, n: nat, i: nat)
    requires 0 < i <= n
    ensures Draws(state, n + 1)[i] == (Draws(state, n) + [Next(Draws(state, n)[n - 1])])[i]
  {
    if i < n {
      DrawsPrefix(state, n, n + 1, i);
    } else {
      DrawsPrefix(state, n, n + 1, i - 1);
    }
  }

  /** Drawing more numbers does not change the ones drawn first. */
  lemma {:induction false} DrawsPrefix(state: int, n: nat, m: nat, i: nat)
    requires i < n <= m
    ensures Draws(state, n)[i] == Draws(state, m)[i]
  {
    if i > 0 {
      DrawsPrefix(state, n, m, i - 1);
    }
  }

  /** Any sequence that follows the recurrence from `state` is `Draws`:
      the numbers drawn depend on nothing but the state. */
  lemma {:induction false} RecurrenceDeterminesDraws(state: int, xs: seq<int>)
    requires |xs| > 0 ==> xs[0] == Next(state)
    requires forall i :: 0 < i < |xs| ==> xs[i] == Next(xs[i - 1])
    ensures xs == Draws(state, |xs|)
  {
    var ds := Draws(state, |xs|);
    forall i | 0 <= i < |xs|
      ensures xs[i] == ds[i]
    {
      SameAt(state, xs, i);
    }
  }

  /** Helper for `RecurrenceDeterminesDraws`, one index at a time. */
  lemma {:induction false} SameAt(state: int, xs: seq<int>, i: nat)
    requires i < |xs|
    requires xs[0] == Next(state)
    requires forall j :: 0 < j < |xs| ==> xs[j] == Next(xs[j - 1])
    ensures xs[i] == Draws(state, |xs|)[i]
  {
    if i > 0 { SameAt(state, xs, i - 1); }
  }

  /** A generator built from `seed` draws `k` numbers, is reset, and draws
      `n` more: the replay is the start of the seed's sequence again, the
      same numbers any generator with that seed draws first. */
  method ResetReplays(seed: int, k: nat, n: nat) returns (first: seq<int>, replay: seq<int>)
    ensures first == Draws(seed, k) && replay == Draws(seed, n)
    ensures n <= k ==> replay == first[..n]
  {
    var g := New(seed);
    var g1, xs := NextInts(g, k);
    var g2 := Reset(g1);
    var g3, ys := NextInts(g2, n);
    if n <= k { DrawsArePrefixes(seed, n, k); }
    first, replay := xs, ys;
  }

  /** The first draws of a longer run are the draws of a shorter run. */
  lemma DrawsArePrefixes(state: int, n: nat, m: nat)
    requires n <= m
    ensures Draws(state, n) == Draws(state, m)[..n]
  {
    forall i | 0 <= i < n
      ensures Draws(state, n)[i] == Draws(state, m)[i]
    {
      DrawsPrefix(state, n, m, i);
    }
  }
}
