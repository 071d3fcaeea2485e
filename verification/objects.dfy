/** Object identity for the classes that mutate themselves in place.

    The objects of one class live in a heap `h: seq<T>`; the reference `r`
    designates the state `h[r]`. Allocation appends, so a fresh object never
    aliases an existing one. An in-place method changes one entry; a method
    that "returns a new object" appends and changes none. */
module Objects {

  type Ref = nat

  /** An argument that is either a plain value or an object of the heap
      (which may be the receiver itself). */
  datatype Source<T> = Literal(value: T) | Object(ref: Ref)

  ghost predicate ValidSource<T>(h: seq<T>, src: Source<T>)
  {
    src.Object? ==> src.ref < |h|
  }

  /** The state an argument designates at the time it is read. */
  function Contents<T>(h: seq<T>, src: Source<T>): T
    requires ValidSource(h, src)
  {
    match src
    case Literal(v) => v
    case Object(r) => h[r]
  }

  /** `new C(...)`: a fresh reference holding `v`; every existing object keeps
      its state. */
  function Alloc<T>(h: seq<T>, v: T): (res: (seq<T>, Ref))
    ensures Allocated(h, res.0, res.1) && res.0[res.1] == v
  {
    (h + [v], |h|)
  }

  /** Every object of `h` still exists in `h'` with the same state. */
  ghost predicate Extends<T>(h: seq<T>, h': seq<T>)
  {
    |h| <= |h'| && forall q :: 0 <= q < |h| ==> h'[q] == h[q]
  }

  /** `r` is a new object of `h'`; every object of `h` is unchanged. */
  ghost predicate Allocated<T>(h: seq<T>, h': seq<T>, r: Ref)
  {
    r == |h| && |h'| == |h| + 1 && Extends(h, h')
  }

  /** `h'` differs from `h` at most in the state of object `r`. */
  ghost predicate OnlyChanged<T>(h: seq<T>, h': seq<T>, r: Ref)
  {
    |h'| == |h| && forall q :: 0 <= q < |h| && q != r ==> h'[q] == h[q]
  }
}
