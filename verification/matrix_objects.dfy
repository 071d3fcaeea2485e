/** The Matrix class of math/Matrix.js as objects in a heap: which methods
    mutate `this` and return it, which allocate a new matrix, and what the
    static wrappers leave untouched. */
module MatrixObjects {
  import opened JsCore
  import opened Objects
  import opened Matrices

  /** `new Matrix(w, h)` with numbers: a fresh zero matrix. */
  function NewZeros(h: seq<Grid>, w: int, hgt: int): (res: (seq<Grid>, Ref))
    ensures Allocated(h, res.0, res.1)
    ensures res.0[res.1] == Zeros(w, hgt)
  {
    Alloc(h, Zeros(w, hgt))
  }

  /** `self.fromArray(src)`: after the emptiness check the method first pops
      every column of `this`, then copies the columns of `src`. When `src`
      is `this` itself the copy therefore reads an already emptied array. */
  function FromArrayAt(h: seq<Grid>, self: Ref, src: Source<Grid>): (r: Result<seq<Grid>, MatrixError>)
    requires self < |h| && ValidSource(h, src)
    ensures r.Throw? <==> Width(Contents(h, src)) == 0 || Height(Contents(h, src)) == 0
    ensures r.Ok? ==> OnlyChanged(h, r.value, self)
    ensures r.Ok? && src != Object(self) ==> r.value[self] == Contents(h, src)
    ensures r.Ok? && src == Object(self) ==> r.value[self] == []
  {
    var a := Contents(h, src);
    if |a| == 0 || |a[0]| == 0 then Throw(NotTwoDimensional)
    else
      var emptied := h[self := []];
      Ok(emptied[self := Contents(emptied, src)])
  }

  /** `new Matrix(array)`: a fresh object filled by `fromArray`. */
  function NewFrom(h: seq<Grid>, src: Source<Grid>): (r: Result<(seq<Grid>, Ref), MatrixError>)
    requires ValidSource(h, src)
    ensures r.Throw? <==> Width(Contents(h, src)) == 0 || Height(Contents(h, src)) == 0
    ensures r.Ok? ==> Allocated(h, r.value.0, r.value.1)
    ensures r.Ok? ==> r.value.0[r.value.1] == Contents(h, src)
  {
    var (h1, obj) := Alloc(h, []);
    var h2 :- FromArrayAt(h1, obj, src);
    Ok((h2, obj))
  }

  /** `self.clone()`: a distinct object with the same cells; it throws where
      `fromArray` does. */
  function CloneAt(h: seq<Grid>, self: Ref): (r: Result<(seq<Grid>, Ref), MatrixError>)
    requires self < |h|
    ensures r.Throw? <==> Width(h[self]) == 0 || Height(h[self]) == 0
    ensures r.Ok? ==> r.value.1 != self && Allocated(h, r.value.0, r.value.1)
    ensures r.Ok? ==> r.value.0[r.value.1] == h[self]
  {
    NewFrom(h, Object(self))
  }

  /** `self.add(m)`: throws on a shape mismatch; otherwise only `self`
      changes, and `self` is what the call returns. */
  function AddAt(h: seq<Grid>, self: Ref, m: Ref): (r: Result<(seq<Grid>, Ref), MatrixError>)
    requires self < |h| && m < |h| && Rectangular(h[self]) && Rectangular(h[m])
    ensures r.Throw? <==> Width(h[self]) != Width(h[m]) || Height(h[self]) != Height(h[m])
    ensures r.Ok? ==> r.value.1 == self && OnlyChanged(h, r.value.0, self)
    ensures r.Ok? ==> r.value.0[self] == Add(h[self], h[m]).value
  {
    var sum :- Add(h[self], h[m]);
    Ok((h[self := sum], self))
  }

  /** `self.subtract(m)`, the same pattern as `add`. */
  function SubtractAt(h: seq<Grid>, self: Ref, m: Ref): (r: Result<(seq<Grid>, Ref), MatrixError>)
    requires self < |h| && m < |h| && Rectangular(h[self]) && Rectangular(h[m])
    ensures r.Throw? <==> Width(h[self]) != Width(h[m]) || Height(h[self]) != Height(h[m])
    ensures r.Ok? ==> r.value.1 == self && OnlyChanged(h, r.value.0, self)
    ensures r.Ok? ==> r.value.0[self] == Subtract(h[self], h[m]).value
  {
    var diff :- Subtract(h[self], h[m]);
    Ok((h[self := diff], self))
  }

  /** `self.multiply(val)`: scales `self` in place and returns it. */
  function MultiplyAt(h: seq<Grid>, self: Ref, val: real): (res: (seq<Grid>, Ref))
    requires self < |h| && Rectangular(h[self])
    ensures res.1 == self && OnlyChanged(h, res.0, self)
    ensures res.0[self] == Multiply(h[self], val)
  {
    (h[self := Multiply(h[self], val)], self)
  }

  /** `self.reshape(w, hgt)`: in place; a RangeError leaves the heap as it was. */
  function ReshapeAt(h: seq<Grid>, self: Ref, w: int, hgt: int): (r: Result<(seq<Grid>, Ref), MatrixError>)
    requires self < |h|
    ensures r.Throw? <==> w < 1 || hgt < 1
    ensures r.Ok? ==> r.value.1 == self && OnlyChanged(h, r.value.0, self)
    ensures r.Ok? ==> r.value.0[self] == Reshape(h[self], w, hgt).value
  {
    var g :- Reshape(h[self], w, hgt);
    Ok((h[self := g], self))
  }

  /** `self.dot(m)`: a new object; neither operand changes. */
  function DotAt(h: seq<Grid>, self: Ref, m: Ref): (r: Result<(seq<Grid>, Ref), MatrixError>)
    requires self < |h| && m < |h| && Rectangular(h[self]) && Rectangular(h[m])
    ensures r.Throw? <==> Width(h[self]) != Height(h[m])
    ensures r.Ok? ==> Allocated(h, r.value.0, r.value.1)
    ensures r.Ok? ==> r.value.0[r.value.1] == Dot(h[self], h[m]).value
  {
    var e :- Dot(h[self], h[m]);
    Ok(Alloc(h, e))
  }

  /** The getter `self.T`: a new object; `self` does not change. */
  function TAt(h: seq<Grid>, self: Ref): (res: (seq<Grid>, Ref))
    requires self < |h| && Rectangular(h[self])
    ensures Allocated(h, res.0, res.1)
    ensures res.0[res.1] == T(h[self])
  {
    Alloc(h, T(h[self]))
  }

  /** `Matrix.add(m1, m2)` is `m1.clone().add(m2)`: it also throws when `m1`
      has no cell, and on success neither operand changes. */
  function StaticAdd(h: seq<Grid>, m1: Ref, m2: Ref): (r: Result<(seq<Grid>, Ref), MatrixError>)
    requires m1 < |h| && m2 < |h| && Rectangular(h[m1]) && Rectangular(h[m2])
    ensures r.Throw? <==> Width(h[m1]) == 0 || Height(h[m1]) == 0
                          || Width(h[m1]) != Width(h[m2]) || Height(h[m1]) != Height(h[m2])
    ensures r.Ok? ==> Allocated(h, r.value.0, r.value.1)
    ensures r.Ok? ==> r.value.0[r.value.1] == Add(h[m1], h[m2]).value
  {
    var copy :- CloneAt(h, m1);
    AddAt(copy.0, copy.1, m2)
  }

  /** `Matrix.subtract(m1, m2)` is `m1.clone().subtract(m2)`. */
  function StaticSubtract(h: seq<Grid>, m1: Ref, m2: Ref): (r: Result<(seq<Grid>, Ref), MatrixError>)
    requires m1 < |h| && m2 < |h| && Rectangular(h[m1]) && Rectangular(h[m2])
    ensures r.Throw? <==> Width(h[m1]) == 0 || Height(h[m1]) == 0
                          || Width(h[m1]) != Width(h[m2]) || Height(h[m1]) != Height(h[m2])
    ensures r.Ok? ==> Allocated(h, r.value.0, r.value.1)
    ensures r.Ok? ==> r.value.0[r.value.1] == Subtract(h[m1], h[m2]).value
  {
    var copy :- CloneAt(h, m1);
    SubtractAt(copy.0, copy.1, m2)
  }

  /** `Matrix.multiply(m, val)` is `m.clone().multiply(val)`. */
  function StaticMultiply(h: seq<Grid>, m: Ref, val: real): (r: Result<(seq<Grid>, Ref), MatrixError>)
    requires m < |h| && Rectangular(h[m])
    ensures r.Throw? <==> Width(h[m]) == 0 || Height(h[m]) == 0
    ensures r.Ok? ==> Allocated(h, r.value.0, r.value.1)
    ensures r.Ok? ==> r.value.0[r.value.1] == Multiply(h[m], val)
  {
    var copy :- CloneAt(h, m);
    Ok(MultiplyAt(copy.0, copy.1, val))
  }

  /** `Matrix.dot(m1, m2)` is `m1.dot(m2)`, with no clone: it does not throw on
      an empty `m1` when the contraction dimension matches. */
  function StaticDot(h: seq<Grid>, m1: Ref, m2: Ref): (r: Result<(seq<Grid>, Ref), MatrixError>)
    requires m1 < |h| && m2 < |h| && Rectangular(h[m1]) && Rectangular(h[m2])
    ensures r.Throw? <==> Width(h[m1]) != Height(h[m2])
    ensures r.Ok? ==> Allocated(h, r.value.0, r.value.1)
    ensures r.Ok? ==> r.value.0[r.value.1] == Dot(h[m1], h[m2]).value
  {
    DotAt(h, m1, m2)
  }

  /** `m.add(m)` reads each cell before writing it, so it doubles `m`. */
  lemma AddToItselfDoubles(h: seq<Grid>, m: Ref)
    requires m < |h| && Rectangular(h[m])
    ensures AddAt(h, m, m).Ok?
    ensures Multiply(h[m], 2.0) == AddAt(h, m, m).value.0[m]
  {
    var sum := AddAt(h, m, m).value.0[m];
    var twice := Multiply(h[m], 2.0);
    forall x | 0 <= x < |sum|
      ensures sum[x] == twice[x]
    {
      assert |sum[x]| == |twice[x]|;
    }
  }

  /** Mutating a clone leaves the original untouched. */
  lemma CloneIsIndependent(h: seq<Grid>, m: Ref, other: Ref)
    requires m < |h| && other < |h| && Rectangular(h[m]) && Rectangular(h[other])
    requires Width(h[m]) >= 1 && Height(h[m]) >= 1
    requires Width(h[other]) == Width(h[m]) && Height(h[other]) == Height(h[m])
    ensures var (h1, c) := CloneAt(h, m).value;
            AddAt(h1, c, other).Ok? && AddAt(h1, c, other).value.0[m] == h[m]
  {
  }

  /** `m.fromArray(m)` passes the emptiness check and then empties `m`. */
  lemma FromArrayOfItselfEmpties(h: seq<Grid>, m: Ref)
    requires m < |h| && Width(h[m]) >= 1 && Height(h[m]) >= 1
    ensures FromArrayAt(h, m, Object(m)).Ok?
    ensures FromArrayAt(h, m, Object(m)).value[m] == []
  {
  }
}
