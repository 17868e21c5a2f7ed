/** System update frequencies and their tick counters. Each `SysFreq`
    enumerator's name carries its divisor of the 360 Hz master frequency in
    characters 3..6 (`Div0029_12Hz41` runs every 29th tick). Enumerator names
    come from the reflection library; here they are the table below. */
module SysCounter {

  /** The names of the `SysFreq` enumerators before `MAX`, in declaration order. */
  const SysFreqNames: seq<string> := [
    "Div0001_360Hz", "Div0002_180Hz", "Div0003_120Hz", "Div0005_72Hz",
    "Div0007_51Hz43", "Div0011_32Hz73", "Div0013_27Hz69", "Div0019_18Hz95",
    "Div0029_12Hz41", "Div0037_9Hz73", "Div0067_5Hz37", "Div0131_2Hz75",
    "Div0257_1Hz40", "Div0521_1sec45", "Div1031_2sec86", "Div2053_5sec70",
    "Div4099_11sec39", "Div8201_22sec78"
  ]

  /** `std::to_underlying(SysFreq::MAX)`. */
  const Max: nat := 18

  /** Enumerator indices before `MAX`. */
  type SysFreq = i: nat | i < Max

  function DigitValue(c: char): int {
    c as int - '0' as int
  }

  predicate IsDigit(c: char) {
    '0' <= c <= '9'
  }

  /** Characters 3..6 of an enumerator name read as a four-digit decimal
      number, with no check that they are digits. */
  function ParseDivision(name: string): (d: int)
    requires |name| >= 7
  {
    DigitValue(name[3]) * 1000 + DigitValue(name[4]) * 100 + DigitValue(name[5]) * 10 + DigitValue(name[6])
  }

  /** Four decimal digits at positions 3..6 give a value in `[0, 9999]`
      whose first and last digits are those at positions 3 and 6. */
  lemma ParseDivisionDigits(name: string)
    requires |name| >= 7
    requires IsDigit(name[3]) && IsDigit(name[4]) && IsDigit(name[5]) && IsDigit(name[6])
    ensures 0 <= ParseDivision(name) <= 9999
    ensures ParseDivision(name) % 10 == DigitValue(name[6])
    ensures ParseDivision(name) / 1000 == DigitValue(name[3])
  {
  }

  /** Every enumerator name has four digits at positions 3..6. */
  lemma NamesHaveDigits()
    ensures forall i :: 0 <= i < Max ==>
      |SysFreqNames[i]| >= 7 && IsDigit(SysFreqNames[i][3]) && IsDigit(SysFreqNames[i][4]) &&
      IsDigit(SysFreqNames[i][5]) && IsDigit(SysFreqNames[i][6])
  {
  }

  /** `SysFreqToDivision`: the four digits of the enumerator's name, so a
      value in `[0, 9999]` whose last digit is the name's seventh character. */
  function SysFreqToDivision(freq: SysFreq): (d: int)
    ensures 0 <= d <= 9999
    ensures d % 10 == DigitValue(SysFreqNames[freq][6])
  {
    NamesHaveDigits();
    ParseDivisionDigits(SysFreqNames[freq]);
    ParseDivision(SysFreqNames[freq])
  }

  /** The two compile-time checks next to the definition. */
  lemma DivisionExamples()
    ensures SysFreqNames[8] == "Div0029_12Hz41" && SysFreqToDivision(8) == 29
    ensures SysFreqNames[17] == "Div8201_22sec78" && SysFreqToDivision(17) == 8201
  {
  }

  /** Every enumerator before `MAX` has a divisor of at least 1, so the modulo
      in `advanceCounters` never divides by zero; the first is exactly 1. */
  lemma DivisionsPositive(freq: SysFreq)
    ensures SysFreqToDivision(freq) >= 1
    ensures freq == 0 ==> SysFreqToDivision(freq) == 1
  {
    LastDigitsNonZero();
    assert SysFreqToDivision(freq) % 10 != 0;
    if freq == 0 {
      assert SysFreqToDivision(0) == 1;
    }
  }

  /** No enumerator name has `0` as the last digit of its divisor. */
  lemma LastDigitsNonZero()
    ensures forall i :: 0 <= i < Max ==> |SysFreqNames[i]| >= 7 && DigitValue(SysFreqNames[i][6]) != 0
  {
  }

  /** A product of a positive multiplier and a positive divisor is at least
      the divisor. */
  lemma {:induction false} MulAtLeast(k: int, d: int)
    requires k >= 1 && d >= 1
    ensures k * d >= d
  {
    if k > 1 {
      MulAtLeast(k - 1, d);
      assert k * d == (k - 1) * d + d;
    }
  }

  /** Euclidean division is unique: `q * d + r` with `0 <= r < d` has
      remainder `r`. */
  lemma ModUnique(x: int, d: int, q: int, r: int)
    requires d >= 1 && 0 <= r < d && x == q * d + r
    ensures x % d == r
  {
    var q', r' := x / d, x % d;
    assert x == q' * d + r';
    assert (q - q') * d == r' - r;
    if q > q' {
      MulAtLeast(q - q', d);
    } else if q < q' {
      MulAtLeast(q' - q, d);
    }
  }

  /** The value of a counter with divisor `d` after `t` increments, counted
      up one step at a time: it wraps to 0 on reaching `d`. */
  function Residue(t: nat, d: int): (r: int)
    requires d >= 1
    ensures 0 <= r < d
  {
    if t == 0 then 0
    else if Residue(t - 1, d) + 1 == d then 0
    else Residue(t - 1, d) + 1
  }

  /** One `advanceCounters` step, `(c + 1) % d`, takes the counter after `t`
      increments to the counter after `t + 1`. */
  lemma ResidueStep(t: nat, d: int)
    requires d >= 1
    ensures (Residue(t, d) + 1) % d == Residue(t + 1, d)
  {
    var r := Residue(t, d);
    if r + 1 == d {
      ModUnique(r + 1, d, 1, 0);
    } else {
      ModUnique(r + 1, d, 0, r + 1);
    }
  }

  /** The counter after `t` increments is the remainder of a division of `t`
      by `d` with quotient `q`. */
  lemma {:induction false} ResidueDecomposes(t: nat, d: int) returns (q: nat)
    requires d >= 1
    ensures t == q * d + Residue(t, d)
  {
    if t == 0 {
      q := 0;
    } else {
      var q' := ResidueDecomposes(t - 1, d);
      if Residue(t - 1, d) + 1 == d {
        q := q' + 1;
        assert q * d == q' * d + d;
      } else {
        q := q';
      }
    }
  }

  /** The counter after `t` increments is `t mod d`. */
  lemma ResidueIsMod(t: nat, d: int)
    requires d >= 1
    ensures Residue(t, d) == t % d
  {
    var q := ResidueDecomposes(t, d);
    ModUnique(t, d, q, Residue(t, d));
  }

  /** `SystemCounters`: one counter per frequency. `ticks` counts the calls to
      `advanceCounters` so far. */
  class SystemCounters {
    const counters: array<int>
    ghost var ticks: nat

    ghost predicate Valid()
      reads this, counters
    {
      counters.Length == Max &&
      forall i :: 0 <= i < Max ==> counters[i] == Residue(ticks, SysFreqToDivision(i))
    }

    /** The value-initialised `counters` array. */
    constructor ()
      ensures Valid() && fresh(counters) && ticks == 0
      ensures forall i :: 0 <= i < Max ==> counters[i] == 0
    {
      counters := new int[Max](_ => 0);
      ticks := 0;
      new;
      forall i | 0 <= i < Max ensures counters[i] == Residue(ticks, SysFreqToDivision(i)) {
        DivisionsPositive(i);
      }
    }

    /** The loop of `advanceCounters`. */
    method StepCounters()
      requires counters.Length == Max
      modifies counters
      ensures forall i :: 0 <= i < Max ==> counters[i] == (old(counters[i]) + 1) % SysFreqToDivision(i)
    {
      ghost var before := counters[..];
      var i := 0;
      while i < counters.Length
        invariant 0 <= i <= counters.Length
        invariant forall k :: 0 <= k < i ==> counters[k] == (before[k] + 1) % SysFreqToDivision(k)
        invariant forall k :: i <= k < Max ==> counters[k] == before[k]
      {
        var d := SysFreqToDivision(i);
        DivisionsPositive(i);
        counters[i] := (counters[i] + 1) % d;
        i := i + 1;
      }
    }

    /** `advanceCounters`: every counter steps modulo its divisor; `Valid()`
        ties each counter to the number of calls so far. */
    method AdvanceCounters()
      requires Valid()
      modifies this, counters
      ensures Valid() && ticks == old(ticks) + 1
      ensures forall i :: 0 <= i < Max ==> counters[i] == (old(counters[i]) + 1) % SysFreqToDivision(i)
    {
      ghost var t := ticks;
      StepCounters();
      forall k | 0 <= k < Max
        ensures counters[k] == Residue(t + 1, SysFreqToDivision(k))
      {
        DivisionsPositive(k);
        ResidueStep(t, SysFreqToDivision(k));
      }
      ticks := t + 1;
    }
  }

  /** In every valid state, counter `i` equals the number of
      `advanceCounters` calls modulo its divisor, lies in `[0, div_i)`, and
      the 360 Hz counter is 0. */
  lemma CountersAreTicksMod(c: SystemCounters, i: SysFreq)
    requires c.Valid()
    ensures c.counters[i] == c.ticks % SysFreqToDivision(i)
    ensures 0 <= c.counters[i] < SysFreqToDivision(i)
    ensures i == 0 ==> c.counters[i] == 0
  {
    DivisionsPositive(i);
    ResidueIsMod(c.ticks, SysFreqToDivision(i));
  }
}
