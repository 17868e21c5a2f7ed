/** 64-bit words as sequences of 64 bits, bit 0 (the least significant) first,
    and the `<bit>` intrinsics the entity page applies to its occupancy words:
    `std::countr_zero`, `std::countr_one`, `std::popcount`, shifts and masks. */
module Bits {
  import opened Wrappers

  type Word = w: seq<bool> | |w| == 64 witness seq(64, _ => false)

  function Zero(): (w: Word)
    ensures forall k :: 0 <= k < 64 ==> !w[k]
  {
    seq(64, _ => false)
  }

  predicate IsZero(w: Word)
  {
    forall k :: 0 <= k < 64 ==> !w[k]
  }

  /** The number of consecutive bits equal to `b` from bit `from` upwards. */
  function RunLength(s: seq<bool>, from: nat, b: bool): (r: nat)
    requires from <= |s|
    ensures from + r <= |s|
    ensures forall k :: from <= k < from + r ==> s[k] == b
    ensures from + r < |s| ==> s[from + r] != b
    decreases |s| - from
  {
    if from == |s| || s[from] != b then 0 else 1 + RunLength(s, from + 1, b)
  }

  /** `std::countr_zero`: the index of the lowest set bit, 64 for zero. */
  function CountrZero(w: Word): (r: nat)
    ensures r <= 64
    ensures forall k :: 0 <= k < r ==> !w[k]
    ensures r < 64 ==> w[r]
    ensures r == 64 <==> IsZero(w)
  {
    RunLength(w, 0, false)
  }

  /** `std::countr_one`: the index of the lowest clear bit, 64 for all ones. */
  function CountrOne(w: Word): (r: nat)
    ensures r <= 64
    ensures forall k :: 0 <= k < r ==> w[k]
    ensures r < 64 ==> !w[r]
  {
    RunLength(w, 0, true)
  }

  /** The number of set bits among `s`. */
  function Count(s: seq<bool>): (r: nat)
    ensures r <= |s|
  {
    if s == [] then 0 else Count(s[..|s| - 1]) + (if s[|s| - 1] then 1 else 0)
  }

  /** No bit set exactly when the count is 0; every bit set exactly when the
      count is the length. */
  lemma {:induction false} CountExtremes(s: seq<bool>)
    ensures Count(s) == 0 <==> forall k :: 0 <= k < |s| ==> !s[k]
    ensures Count(s) == |s| <==> forall k :: 0 <= k < |s| ==> s[k]
  {
    if s != [] {
      var init := s[..|s| - 1];
      CountExtremes(init);
      assert forall k :: 0 <= k < |init| ==> init[k] == s[k];
    }
  }

  lemma {:induction false} CountAppend(s: seq<bool>, t: seq<bool>)
    ensures Count(s + t) == Count(s) + Count(t)
    decreases |t|
  {
    if t != [] {
      assert (s + t)[..|s + t| - 1] == s + t[..|t| - 1];
      CountAppend(s, t[..|t| - 1]);
    } else {
      assert s + t == s;
    }
  }

  /** `std::popcount`. */
  function Popcount(w: Word): (r: nat)
    ensures r <= 64
  {
    Count(w)
  }

  /** `w >> n` on an unsigned word, for a shift amount below 64. */
  function ShiftRight(w: Word, n: nat): (r: Word)
    requires n <= 64
    ensures forall k :: 0 <= k < 64 ==> r[k] == (k + n < 64 && w[k + n])
  {
    seq(64, k requires 0 <= k < 64 => k + n < 64 && w[k + n])
  }

  /** Shifting by `m` then by `n` shifts by `m + n`. */
  lemma ShiftRightTwice(w: Word, m: nat, n: nat)
    requires m + n <= 64
    ensures ShiftRight(ShiftRight(w, m), n) == ShiftRight(w, m + n)
  {
    assert forall k :: 0 <= k < 64 ==> ShiftRight(ShiftRight(w, m), n)[k] == ShiftRight(w, m + n)[k];
  }

  /** The word with only bit `s` set: `uint64_t{1} << s`. */
  function Bit(s: nat): (m: Word)
    requires s < 64
    ensures forall k :: 0 <= k < 64 ==> m[k] == (k == s)
  {
    seq(64, k => k == s)
  }

  function Or(a: Word, b: Word): (r: Word)
    ensures forall k :: 0 <= k < 64 ==> r[k] == (a[k] || b[k])
  {
    seq(64, k requires 0 <= k < 64 => a[k] || b[k])
  }

  function And(a: Word, b: Word): (r: Word)
    ensures forall k :: 0 <= k < 64 ==> r[k] == (a[k] && b[k])
  {
    seq(64, k requires 0 <= k < 64 => a[k] && b[k])
  }

  function Not(a: Word): (r: Word)
    ensures forall k :: 0 <= k < 64 ==> r[k] == !a[k]
  {
    seq(64, k requires 0 <= k < 64 => !a[k])
  }

  /** `1 << s` evaluated in 32-bit `int` and then widened to `uint64_t`, as the
      expression `occupancy[off / 64] |= (1 << (off % 64))` does. For `s < 31`
      it is bit `s`; `1 << 31` is `INT_MIN`, whose sign extension sets bits
      31..63; a shift by 32 or more is undefined behaviour (None). The bitwise
      complement commutes with sign extension, so `~(1 << s)` widens to
      `Not` of the same word. */
  function IntMaskAsWritten(s: nat): (m: Option<Word>)
    requires s < 64
    ensures s < 32 <==> m.Some?
  {
    if s < 31 then Some(Bit(s))
    else if s == 31 then Some(seq(64, k => k >= 31))
    else None
  }

  /** Bits 0..30 get the one-bit mask the page means; slot 31 of each word
      gets 33 bits, and slots 32..63 have no defined mask. */
  lemma IntMaskDiverges(s: nat)
    requires s < 64
    ensures s < 31 ==> IntMaskAsWritten(s) == Some(Bit(s))
    ensures s == 31 ==> IntMaskAsWritten(s).Some? && IntMaskAsWritten(s).value != Bit(s) &&
                        Count(IntMaskAsWritten(s).value) == 33
    ensures s >= 32 ==> IntMaskAsWritten(s).None?
  {
    if s == 31 {
      var m := IntMaskAsWritten(s).value;
      assert m[32] != Bit(s)[32];
      CountAppend(m[..31], m[31..]);
      assert m == m[..31] + m[31..];
      CountExtremes(m[..31]);
      CountExtremes(m[31..]);
    }
  }

  /** `w & ~(1 << s)` with the 32-bit `int` mask, as `releaseEntity` writes
      it: below 31 it clears bit `s` alone; at 31 it clears bits 31..63; from
      32 the shift is undefined (None). */
  function ClearAsWritten(w: Word, s: nat): (r: Option<Word>)
    requires s < 64
    ensures r.Some? <==> s < 32
    ensures r.Some? ==> forall k :: 0 <= k < 64 ==> r.value[k] == (w[k] && k != s && !(s == 31 && k > 31))
  {
    match IntMaskAsWritten(s)
    case None => None
    case Some(m) => Some(And(w, Not(m)))
  }

  /** `(w & (1 << s)) != 0` with the 32-bit `int` mask, as `isEntityPresent`
      writes it: below 31 it tests bit `s`; at 31 it tests bits 31..63; from
      32 the shift is undefined (None). */
  function TestAsWritten(w: Word, s: nat): (r: Option<bool>)
    requires s < 64
    ensures r.Some? <==> s < 32
    ensures r.Some? ==> (r.value <==> w[s] || (s == 31 && exists k :: 32 <= k < 64 && w[k]))
  {
    match IntMaskAsWritten(s)
    case None => None
    case Some(m) =>
      var t := And(w, m);
      if t == Zero() then
        assert forall k :: 0 <= k < 64 ==> !t[k];
        Some(false)
      else
        assert exists k :: 0 <= k < 64 && t[k] by { NonZeroBit(t); }
        Some(true)
  }

  /** A word other than zero has a set bit. */
  lemma NonZeroBit(w: Word)
    requires w != Zero()
    ensures exists k :: 0 <= k < 64 && w[k]
  {
    var z := Zero();
    assert !(w == z);
    var k :| 0 <= k < 64 && w[k] != z[k];
  }

  /** Changing one bit changes the count by the difference it makes. */
  lemma {:induction false} CountUpdate(s: seq<bool>, o: nat, b: bool)
    requires o < |s|
    ensures Count(s[o := b]) == Count(s) - (if s[o] then 1 else 0) + (if b then 1 else 0)
  {
    var t := s[o := b];
    if o == |s| - 1 {
      assert t[..|t| - 1] == s[..|s| - 1];
    } else {
      CountUpdate(s[..|s| - 1], o, b);
      assert t[..|t| - 1] == s[..|s| - 1][o := b];
    }
  }

  /** `(w & (1 << k)) != 0` tests bit `k`. */
  lemma MaskTest(w: Word, k: nat)
    requires k < 64
    ensures And(w, Bit(k)) != Zero() <==> w[k]
  {
    if w[k] {
      assert And(w, Bit(k))[k] != Zero()[k];
    } else {
      assert And(w, Bit(k)) == Zero();
    }
  }
}
