/** The Vector classes of math/Vector.js and math/vector.ts as objects in a
    heap: in-place arithmetic that returns `this`, static wrappers that work
    on a clone, and the one place where the two files behave differently,
    reading a vector into itself. */
module VectorObjects {
  import opened Objects
  import opened Vectors

  /** Vector.js `self.fromArray(src)`: pops every element of `this`, then
      copies `src` element by element; when `src` is `this` the copy reads an
      already emptied array. It never throws. */
  function FromArrayAt(h: seq<Vec>, self: Ref, src: Source<Vec>): (h': seq<Vec>)
    requires self < |h| && ValidSource(h, src)
    ensures OnlyChanged(h, h', self)
    ensures src != Object(self) ==> h'[self] == Contents(h, src)
    ensures src == Object(self) ==> h'[self] == []
  {
    var emptied := h[self := []];
    emptied[self := Contents(emptied, src)]
  }

  /** vector.ts `self.setFromArray(src)`: sets the length to `src.length`, then
      copies element by element; when `src` is `this` every element is
      written onto itself. */
  function SetFromArrayAt(h: seq<Vec>, self: Ref, src: Source<Vec>): (h': seq<Vec>)
    requires self < |h| && ValidSource(h, src)
    ensures OnlyChanged(h, h', self)
    ensures h'[self] == Contents(h, src)
  {
    var n := |Contents(h, src)|;
    var h1 := h[self := seq(n, i requires 0 <= i < n => if i < |h[self]| then h[self][i] else 0.0)];
    var a := Contents(h1, src);
    h1[self := seq(n, i requires 0 <= i < n => a[i])]
  }

  /** The two files disagree only when a vector reads itself. */
  lemma ReadIntoItself(h: seq<Vec>, v: Ref)
    requires v < |h| && |h[v]| > 0
    ensures FromArrayAt(h, v, Object(v))[v] == []
    ensures SetFromArrayAt(h, v, Object(v))[v] == h[v]
    ensures FromArrayAt(h, v, Object(v)) != SetFromArrayAt(h, v, Object(v))
  {
  }

  /** On any other source the two agree. */
  lemma ReadFromOtherAgrees(h: seq<Vec>, v: Ref, src: Source<Vec>)
    requires v < |h| && ValidSource(h, src) && src != Object(v)
    ensures FromArrayAt(h, v, src) == SetFromArrayAt(h, v, src)
  {
  }

  /** `self.clone()` is `new Vector(this)`: a fresh object holding a copy (the
      fresh object is never its own source, so both files agree). */
  function CloneAt(h: seq<Vec>, self: Ref): (res: (seq<Vec>, Ref))
    requires self < |h|
    ensures res.1 != self && Allocated(h, res.0, res.1)
    ensures res.0[res.1] == h[self]
  {
    var (h1, obj) := Alloc(h, []);
    (FromArrayAt(h1, obj, Object(self)), obj)
  }

  /** `self.add(v)`: only `self` changes, over the common prefix, and the
      call returns `self`. */
  function AddAt(h: seq<Vec>, self: Ref, v: Ref): (res: (seq<Vec>, Ref))
    requires self < |h| && v < |h|
    ensures res.1 == self && OnlyChanged(h, res.0, self)
    ensures res.0[self] == Add(h[self], h[v])
  {
    (h[self := Add(h[self], h[v])], self)
  }

  /** `self.subtract(v)`, the same pattern. */
  function SubtractAt(h: seq<Vec>, self: Ref, v: Ref): (res: (seq<Vec>, Ref))
    requires self < |h| && v < |h|
    ensures res.1 == self && OnlyChanged(h, res.0, self)
    ensures res.0[self] == Subtract(h[self], h[v])
  {
    (h[self := Subtract(h[self], h[v])], self)
  }

  /** `self.multiply(val)`: scales `self` in place and returns it. */
  function MultiplyAt(h: seq<Vec>, self: Ref, val: real): (res: (seq<Vec>, Ref))
    requires self < |h|
    ensures res.1 == self && OnlyChanged(h, res.0, self)
    ensures res.0[self] == Multiply(h[self], val)
  {
    (h[self := Multiply(h[self], val)], self)
  }

  /** `Vector.add(v1, v2)` is `v1.clone().add(v2)`: a new vector, both
      operands unchanged. */
  function StaticAdd(h: seq<Vec>, v1: Ref, v2: Ref): (res: (seq<Vec>, Ref))
    requires v1 < |h| && v2 < |h|
    ensures Allocated(h, res.0, res.1)
    ensures res.0[res.1] == Add(h[v1], h[v2])
  {
    var (h1, c) := CloneAt(h, v1);
    AddAt(h1, c, v2)
  }

  /** `Vector.subtract(v1, v2)` is `v1.clone().subtract(v2)`. */
  function StaticSubtract(h: seq<Vec>, v1: Ref, v2: Ref): (res: (seq<Vec>, Ref))
    requires v1 < |h| && v2 < |h|
    ensures Allocated(h, res.0, res.1)
    ensures res.0[res.1] == Subtract(h[v1], h[v2])
  {
    var (h1, c) := CloneAt(h, v1);
    SubtractAt(h1, c, v2)
  }

  /** `Vector.multiply(v1, val)` is `v1.clone().multiply(val)`. */
  function StaticMultiply(h: seq<Vec>, v1: Ref, val: real): (res: (seq<Vec>, Ref))
    requires v1 < |h|
    ensures Allocated(h, res.0, res.1)
    ensures res.0[res.1] == Multiply(h[v1], val)
  {
    var (h1, c) := CloneAt(h, v1);
    MultiplyAt(h1, c, val)
  }

  /** `v.add(v)` reads each entry before writing it, so it doubles `v`. */
  lemma AddToItselfDoubles(h: seq<Vec>, v: Ref)
    requires v < |h|
    ensures AddAt(h, v, v).0[v] == Multiply(h[v], 2.0)
  {
    var r := AddAt(h, v, v).0[v];
    assert |r| == |h[v]|;
    forall i | 0 <= i < |r|
      ensures r[i] == h[v][i] * 2.0
    {
    }
  }

  /** Mutating a clone leaves the original untouched. */
  lemma CloneIsIndependent(h: seq<Vec>, v: Ref, other: Ref, val: real)
    requires v < |h| && other < |h|
    ensures var (h1, c) := CloneAt(h, v);
            AddAt(h1, c, other).0[v] == h[v] && MultiplyAt(h1, c, val).0[v] == h[v]
  {
  }
}
