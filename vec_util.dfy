/** The vector helpers of `lpg::vec`: a bounds-checked element lookup and two
    in-place helpers that grow a vector so that an index becomes valid.
    A vector is a `seq`; `std::vector::resize` value-initialises the elements it
    adds, and that value is the `fill` of the vector. */
module Vec {
  import opened Wrappers

  /** `TryGet`: the element `index` designates, or None (the null pointer) when
      `index` is past the end. The returned pointer is modelled by the element
      it points to. */
  function TryGet<T>(v: seq<T>, index: nat): (r: Option<T>)
    ensures r.None? <==> index >= |v|
    ensures r.Some? ==> r.value == v[index]
  {
    if index >= |v| then None else Some(v[index])
  }

  /** The contents of `v` after `ResizeFor(v, index)`. */
  function ResizedFor<T>(v: seq<T>, index: nat, fill: T): (r: seq<T>)
    ensures index < |r|
    ensures |v| <= |r|
    ensures |r| == if |v| <= index then index + 1 else |v|
    ensures forall k :: 0 <= k < |v| ==> r[k] == v[k]
    ensures forall k :: |v| <= k < |r| ==> r[k] == fill
  {
    if |v| <= index then v + seq(index + 1 - |v|, _ => fill) else v
  }

  /** The contents of `v` after `InsertAt(v, index, value)`. */
  function InsertedAt<T>(v: seq<T>, index: nat, value: T, fill: T): (r: seq<T>)
    ensures |r| == if |v| <= index then index + 1 else |v|
    ensures r[index] == value
    ensures forall k :: 0 <= k < |v| && k != index ==> r[k] == v[k]
    ensures forall k :: |v| <= k < |r| && k != index ==> r[k] == fill
  {
    ResizedFor(v, index, fill)[index := value]
  }

  /** A vector the helpers update in place. */
  class Vector<T> {
    var elems: seq<T>
    const fill: T

    constructor (init: seq<T>, fill: T)
      ensures elems == init && this.fill == fill
    {
      elems := init;
      this.fill := fill;
    }

    /** `ResizeFor`: grows the vector to `index + 1` elements if it is shorter. */
    method ResizeFor(index: nat)
      modifies this
      ensures elems == ResizedFor(old(elems), index, fill)
      ensures old(|elems|) > index ==> elems == old(elems)
    {
      if |elems| <= index {
        elems := elems + seq(index + 1 - |elems|, _ => fill);
      }
    }

    /** `InsertAt`: `ResizeFor(index)`, then overwrites element `index`. */
    method InsertAt(index: nat, value: T)
      modifies this
      ensures elems == InsertedAt(old(elems), index, value, fill)
    {
      ResizeFor(index);
      elems := elems[index := value];
    }
  }

  /** Resizing for an index that is already valid changes nothing, so a second
      `ResizeFor` with the same index is a no-op. */
  lemma ResizeForIdempotent<T>(v: seq<T>, index: nat, fill: T)
    ensures ResizedFor(ResizedFor(v, index, fill), index, fill) == ResizedFor(v, index, fill)
  {
  }

  /** After `ResizeFor(v, index)` the lookup of `index` succeeds, and every
      lookup that succeeded before still returns the same element. */
  lemma TryGetAfterResize<T>(v: seq<T>, index: nat, fill: T, k: nat)
    ensures TryGet(ResizedFor(v, index, fill), index).Some?
    ensures TryGet(v, k).Some? ==> TryGet(ResizedFor(v, index, fill), k) == TryGet(v, k)
  {
  }

  /** After `InsertAt(v, index, x)` the lookup of `index` yields `x`, and
      lookups of other indices that succeeded before are unchanged. */
  lemma TryGetAfterInsert<T>(v: seq<T>, index: nat, x: T, fill: T, k: nat)
    ensures TryGet(InsertedAt(v, index, x, fill), index) == Some(x)
    ensures k != index && TryGet(v, k).Some? ==> TryGet(InsertedAt(v, index, x, fill), k) == TryGet(v, k)
  {
  }
}
