/** A view over elements that sit a fixed number of bytes apart. Pointers are
    byte addresses (`nat`); `size_t` arithmetic wraps modulo 2^64, as in the
    source's iterator index. */
module Strided {

  /** 2^64: the modulus of `size_t` arithmetic. */
  const SizeModulus: int := 0x1_0000_0000_0000_0000

  /** A `size_t` value. */
  type Size = x: int | 0 <= x < SizeModulus

  /** The `size_t` result of an arithmetic expression whose exact value is `x`
      (a negative `int` operand converts to `size_t` modulo 2^64 as well). */
  function ToSize(x: int): (r: Size)
    ensures 0 <= x < SizeModulus ==> r == x
    ensures (r - x) % SizeModulus == 0
  {
    x % SizeModulus
  }

  /** `TypeErasedStridedSpan`: a start address, an element count and a stride. */
  datatype TypeErasedStridedSpan = TypeErasedStridedSpan(data: nat, count: Size, stride: Size)
  {
    /** `nth_element(n)`: the address `n * stride` bytes past `data`; no bounds check. */
    function NthElement(n: nat): (addr: nat)
      ensures addr >= data
      ensures n == 0 ==> addr == data
      ensures stride > 0 ==> addr >= data + n
    {
      data + n * stride
    }

    /** `numElements()`: the count given at construction. */
    function NumElements(): (r: Size)
      ensures r == count
    {
      count
    }
  }

  /** Consecutive elements are exactly one stride apart. */
  lemma NthElementSpacing(s: TypeErasedStridedSpan, n: nat)
    ensures s.NthElement(n + 1) == s.NthElement(n) + s.stride
  {
  }

  /** With a non-zero stride, distinct indices address distinct bytes, in
      increasing order. */
  lemma {:induction false} NthElementStrictlyIncreasing(s: TypeErasedStridedSpan, m: nat, n: nat)
    requires s.stride > 0 && m < n
    ensures s.NthElement(m) + s.stride <= s.NthElement(n)
  {
    if m + 1 < n {
      NthElementStrictlyIncreasing(s, m, n - 1);
    }
    NthElementSpacing(s, n - 1);
  }

  /** `StridedSpan<T>`: a typed view of a type-erased span. `address` is where
      the span object itself lives: iterators hold a pointer to their span, and
      the defaulted iterator comparison orders by that pointer first. */
  class StridedSpan {
    const underlying: TypeErasedStridedSpan
    const address: nat

    /** `StridedSpan(data, numElements, stride)`. */
    constructor (address: nat, data: nat, numElements: Size, stride: Size)
      ensures underlying == TypeErasedStridedSpan(data, numElements, stride)
      ensures this.address == address
    {
      this.address := address;
      underlying := TypeErasedStridedSpan(data, numElements, stride);
    }

    /** The explicit `StridedSpan(const TypeErasedStridedSpan&)`: keeps data,
        count and stride. */
    constructor FromTypeErased(address: nat, s: TypeErasedStridedSpan)
      ensures underlying == s && this.address == address
    {
      this.address := address;
      underlying := s;
    }

    /** `size()`. */
    function Size(): (r: Size)
      ensures r == underlying.count
    {
      underlying.NumElements()
    }

    /** `operator[](i)`: the address of element `i`, with no bounds check. */
    function At(i: nat): (addr: nat)
      ensures addr == underlying.data + i * underlying.stride
    {
      underlying.NthElement(i)
    }

    /** `begin()`: an iterator over this span at index 0. */
    method Begin() returns (it: Iterator)
      ensures fresh(it) && it.sspan == this && it.index == 0
    {
      it := new Iterator(this, 0);
    }

    /** `end()`: an iterator over this span at index `size()`. */
    method End() returns (it: Iterator)
      ensures fresh(it) && it.sspan == this && it.index == Size()
    {
      it := new Iterator(this, Size());
    }
  }

  /** `interpretAs<T>()`: a typed span over the same data, count and stride. */
  method InterpretAs(s: TypeErasedStridedSpan, address: nat) returns (r: StridedSpan)
    ensures fresh(r) && r.underlying == s && r.Size() == s.count
  {
    r := new StridedSpan.FromTypeErased(address, s);
  }

  datatype Ordering = Less | Equal | Greater

  /** `StridedSpan<T>::iterator`: a pointer to its span and a `size_t` index
      that the increment operators update in place. */
  class Iterator {
    const sspan: StridedSpan
    var index: Size

    constructor (sspan: StridedSpan, index: Size)
      ensures this.sspan == sspan && this.index == index
    {
      this.sspan := sspan;
      this.index := index;
    }

    /** `operator*`: the address of the element at the current index. */
    function Deref(): (addr: nat)
      reads this
      ensures addr == sspan.At(index)
    {
      sspan.underlying.NthElement(index)
    }

    /** Prefix `++`: increments the index and returns this iterator. */
    method PreIncrement() returns (r: Iterator)
      modifies this
      ensures r == this && index == ToSize(old(index) + 1)
    {
      index := ToSize(index + 1);
      r := this;
    }

    /** Postfix `++`: the source returns `*this` after incrementing, so it
        behaves exactly like the prefix form (not the usual copy of the old
        iterator). */
    method PostIncrement() returns (r: Iterator)
      modifies this
      ensures r == this && index == ToSize(old(index) + 1)
    {
      index := ToSize(index + 1);
      r := this;
    }

    /** `+= n`. */
    method AddAssign(n: int) returns (r: Iterator)
      modifies this
      ensures r == this && index == ToSize(old(index) + n)
    {
      index := ToSize(index + n);
      r := this;
    }

    /** `-= n`. */
    method SubAssign(n: int) returns (r: Iterator)
      modifies this
      ensures r == this && index == ToSize(old(index) - n)
    {
      index := ToSize(index - n);
      r := this;
    }

    /** `+ n`: a new iterator over the same span; this one is untouched. */
    method Plus(n: int) returns (r: Iterator)
      ensures fresh(r) && r.sspan == sspan && r.index == ToSize(index + n)
    {
      r := new Iterator(sspan, ToSize(index + n));
    }

    /** `- n`: a new iterator over the same span; this one is untouched. */
    method Minus(n: int) returns (r: Iterator)
      ensures fresh(r) && r.sspan == sspan && r.index == ToSize(index - n)
    {
      r := new Iterator(sspan, ToSize(index - n));
    }
  }

  /** The defaulted `operator<=>`: lexicographic over (span pointer, index). */
  function Compare(a: Iterator, b: Iterator): (o: Ordering)
    reads a, b
    ensures o == Equal <==> a.sspan.address == b.sspan.address && a.index == b.index
    ensures a.sspan.address == b.sspan.address ==> (o == Less <==> a.index < b.index)
    ensures a.sspan.address != b.sspan.address ==> (o == Less <==> a.sspan.address < b.sspan.address)
  {
    if a.sspan.address < b.sspan.address then Less
    else if a.sspan.address > b.sspan.address then Greater
    else if a.index < b.index then Less
    else if a.index > b.index then Greater
    else Equal
  }

  /** Swapping the operands of the comparison flips its result. */
  lemma CompareAntisymmetric(a: Iterator, b: Iterator)
    ensures Compare(a, b) == Less <==> Compare(b, a) == Greater
    ensures Compare(a, b) == Equal <==> Compare(b, a) == Equal
  {
  }

  /** The comparison is transitive. */
  lemma CompareTransitive(a: Iterator, b: Iterator, c: Iterator)
    requires Compare(a, b) == Less && Compare(b, c) == Less
    ensures Compare(a, c) == Less
  {
  }

  /** `size_t` addition and subtraction of the same `int` cancel, so `(it + n) - n`
      is back at `it`'s index, and so is `it += n; it -= n`. */
  lemma AddSubRoundTrip(i: Size, n: int)
    ensures ToSize(ToSize(i + n) - n) == i
  {
    var j := ToSize(i + n);
    assert (j - (i + n)) % SizeModulus == 0;
    var q := (j - (i + n)) / SizeModulus;
    assert j - n == i + q * SizeModulus;
    ModMultiple(i, q);
  }

  lemma {:induction false} ModMultiple(i: Size, q: int)
    ensures (i + q * SizeModulus) % SizeModulus == i
    decreases if q < 0 then -q else q
  {
    if q > 0 {
      ModMultiple(i, q - 1);
      assert i + q * SizeModulus == (i + (q - 1) * SizeModulus) + SizeModulus;
    } else if q < 0 {
      ModMultiple(i, q + 1);
      assert i + q * SizeModulus == (i + (q + 1) * SizeModulus) - SizeModulus;
    }
  }

  /** Starting from `begin()` and applying `++` `k <= size()` times reaches
      the iterator whose element is `operator[](k)`; with `k == size()` it is
      at the index `end()` gives. */
  method AdvanceFromBegin(s: StridedSpan, k: nat) returns (it: Iterator)
    requires k <= s.Size()
    ensures fresh(it) && it.sspan == s && it.index == k
    ensures it.Deref() == s.At(k)
    ensures it.index == s.Size() <==> k == s.Size()
  {
    it := s.Begin();
    var j := 0;
    while j < k
      invariant 0 <= j <= k && it.sspan == s && it.index == j
      invariant fresh(it)
    {
      var same := it.PreIncrement();
      j := j + 1;
    }
  }

  /** `begin() += k` for `k <= size()` lands on the same element as `k`
      increments; the operand of `+=` is an `int`, so `k` fits in 31 bits. */
  method JumpFromBegin(s: StridedSpan, k: nat) returns (it: Iterator)
    requires k <= s.Size() && k < 0x8000_0000
    ensures fresh(it) && it.sspan == s && it.index == k
    ensures it.Deref() == s.At(k)
  {
    it := s.Begin();
    var same := it.AddAssign(k);
  }
}
