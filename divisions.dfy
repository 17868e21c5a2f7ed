/** The timer-divisor selection loop in `say_hello` (lpg_engine.cpp): for
    `i = 2, 3, ..., 16, 32, 64, ...` below 10000 it appends the first value
    among `i, i+1, ..., 2i-1` that no previously chosen divisor divides. */
module Divisions {
  import opened Wrappers

  /** A chosen divisor; every candidate is at least 2, so none is zero. */
  type Divisor = d: int | d >= 1 witness 1

  /** No chosen divisor from the `k`-th on divides `n`. */
  predicate NoneDividesFrom(divisions: seq<Divisor>, n: int, k: nat)
    decreases |divisions| - k
  {
    k >= |divisions| || (n % divisions[k] != 0 && NoneDividesFrom(divisions, n, k + 1))
  }

  /** No chosen divisor divides `n` (what `coprime_with_all` returns). */
  predicate NoneDivides(divisions: seq<Divisor>, n: int)
  {
    NoneDividesFrom(divisions, n, 0)
  }

  /** The scan agrees with the quantified statement. */
  lemma {:induction false} NoneDividesFromMeans(divisions: seq<Divisor>, n: int, k: nat)
    ensures NoneDividesFrom(divisions, n, k) <==>
            forall m :: k <= m < |divisions| ==> n % divisions[m] != 0
    decreases |divisions| - k
  {
    if k < |divisions| {
      NoneDividesFromMeans(divisions, n, k + 1);
    }
  }

  /** The loop bound and step of the outer `for`: `i` grows by one while below
      16 and doubles from then on. */
  const Limit := 10000

  function NextI(i: int): (r: int)
    requires i >= 1
    ensures r > i
  {
    if i < 16 then i + 1 else i * 2
  }

  /** The inner loop from `j` on: the first `i + j'` with `j <= j' < i` that
      no chosen divisor divides. */
  function FirstAccepted(divisions: seq<Divisor>, i: int, j: int): (r: Option<Divisor>)
    requires 0 <= j && i >= 1
    ensures r.Some? ==> i + j <= r.value < 2 * i
    decreases i - j
  {
    if j >= i then None
    else if NoneDivides(divisions, i + j) then Some(i + j)
    else FirstAccepted(divisions, i, j + 1)
  }

  /** The inner loop accepts the first candidate no chosen divisor divides,
      and finds none exactly when every candidate is divided. */
  lemma {:induction false} FirstAcceptedIsFirst(divisions: seq<Divisor>, i: int, j: nat)
    requires i >= 1
    ensures var r := FirstAccepted(divisions, i, j);
            (r.Some? ==> NoneDivides(divisions, r.value) &&
                         forall n :: i + j <= n < r.value ==> !NoneDivides(divisions, n)) &&
            (r.None? <==> forall n :: i + j <= n < 2 * i ==> !NoneDivides(divisions, n))
    decreases i - j
  {
    if j < i && !NoneDivides(divisions, i + j) {
      FirstAcceptedIsFirst(divisions, i, j + 1);
    }
  }

  /** One pass of the outer loop body: append the first accepted candidate,
      if any. */
  function Step(divisions: seq<Divisor>, i: int): (r: seq<Divisor>)
    requires i >= 1
    ensures |divisions| <= |r| <= |divisions| + 1 && r[..|divisions|] == divisions
  {
    match FirstAccepted(divisions, i, 0)
    case None => divisions
    case Some(n) => divisions + [n]
  }

  /** `divisions` after the outer loop runs from `i` on. */
  function Selection(divisions: seq<Divisor>, i: int): seq<Divisor>
    requires i >= 1
    decreases Limit - i
  {
    if i >= Limit then divisions else Selection(Step(divisions, i), NextI(i))
  }

  lemma SelectionStep(divisions: seq<Divisor>, i: int)
    requires 1 <= i < Limit
    ensures Selection(divisions, i) == Selection(Step(divisions, i), NextI(i))
  {
  }

  /** No divisor divides one chosen after it. */
  predicate NoEarlierDivides(divisions: seq<Divisor>)
  {
    forall b :: 0 <= b < |divisions| ==> NoneDivides(divisions[..b], divisions[b])
  }

  /** Each pass keeps the chosen divisors free of divisibility, so the
      whole selection is. */
  lemma {:induction false} SelectionNoEarlierDivides(divisions: seq<Divisor>, i: int)
    requires i >= 1 && NoEarlierDivides(divisions)
    ensures NoEarlierDivides(Selection(divisions, i))
    decreases Limit - i
  {
    if i < Limit {
      var next := Step(divisions, i);
      match FirstAccepted(divisions, i, 0) {
        case None =>
          assert next == divisions;
        case Some(n) =>
          FirstAcceptedIsFirst(divisions, i, 0);
          assert next == divisions + [n];
          forall b | 0 <= b < |next|
            ensures NoneDivides(next[..b], next[b])
          {
            if b == |divisions| {
              assert next[..b] == divisions;
            } else {
              assert next[..b] == divisions[..b];
            }
          }
      }
      SelectionNoEarlierDivides(next, NextI(i));
      assert Selection(divisions, i) == Selection(next, NextI(i));
    }
  }

  /** Starting from an empty list, the first candidate is accepted. */
  lemma EmptyAcceptsFirst(i: int)
    requires i >= 1
    ensures FirstAccepted([], i, 0) == Some(i)
    ensures Step([], i) == [i]
  {
  }

  /** Every chosen divisor is at least the start value. */
  lemma {:induction false} SelectionAtLeastStart(divisions: seq<Divisor>, i: int, lo: int)
    requires i >= 1 && lo <= i
    requires forall k :: 0 <= k < |divisions| ==> divisions[k] >= lo
    ensures forall k :: 0 <= k < |Selection(divisions, i)| ==> Selection(divisions, i)[k] >= lo
    decreases Limit - i
  {
    if i < Limit {
      var next := Step(divisions, i);
      assert forall k :: 0 <= k < |next| ==> next[k] >= lo by {
        match FirstAccepted(divisions, i, 0) {
          case None =>
          case Some(n) =>
            forall k | 0 <= k < |next|
              ensures next[k] >= lo
            {
              if k < |divisions| {
                assert next[k] == divisions[k];
              }
            }
        }
      }
      SelectionAtLeastStart(next, NextI(i), lo);
    }
  }

  /** `coprime_with_all`: an early-exit scan over the chosen divisors. */
  method CoprimeWithAll(divisions: seq<Divisor>, n: int) returns (b: bool)
    ensures b <==> NoneDivides(divisions, n)
  {
    for k := 0 to |divisions|
      invariant NoneDivides(divisions, n) == NoneDividesFrom(divisions, n, k)
    {
      if n % divisions[k] == 0 {
        return false;
      }
    }
    return true;
  }

  /** The inner `for (j = 0; j < i; j++)` loop: the first candidate
      `i + j` that no chosen divisor divides, which the outer loop appends
      before its `break`. */
  method FirstCandidate(divisions: seq<Divisor>, i: int) returns (r: Option<Divisor>)
    requires i >= 1
    ensures r == FirstAccepted(divisions, i, 0)
  {
    var j := 0;
    while j < i
      invariant 0 <= j <= i
      invariant FirstAccepted(divisions, i, j) == FirstAccepted(divisions, i, 0)
      decreases i - j
    {
      var ok := CoprimeWithAll(divisions, i + j);
      if ok {
        return Some(i + j);
      }
      j := j + 1;
    }
    return None;
  }

  /** The whole selection loop, starting from `i = start` (2 in the
      program). */
  method SelectDivisions(start: int) returns (divisions: seq<Divisor>)
    requires start >= 1
    ensures divisions == Selection([], start)
  {
    divisions := [];
    var i := start;
    while i < Limit
      invariant i >= 1
      invariant Selection(divisions, i) == Selection([], start)
      decreases Limit - i
    {
      var candidate := FirstCandidate(divisions, i);
      SelectionStep(divisions, i);
      if candidate.Some? {
        divisions := divisions + [candidate.value];
      }
      if i < 16 {
        i := i + 1;
      } else {
        i := i * 2;
      }
    }
  }
  // ---------------------------------------------------------------------
  // Evaluation of the loop from `i = 2`. `AcceptedN` unfolds the inner
  // loop of pass `i = N` candidate by candidate (for a rejected candidate,
  // down to the divisor that divides it); `StageN` turns that into one
  // outer pass. The lists are passed as parameters so that the verifier
  // unfolds each pass only as far as these hints lead it.

  lemma Coprime2(d: seq<Divisor>)
    requires d == []
    ensures NoneDivides(d, 2)
  {

  }

  lemma Accepted2(d: seq<Divisor>)
    requires d == []
    ensures FirstAccepted(d, 2, 0) == Some(2)
  {
    Coprime2(d);
    assert FirstAccepted(d, 2, 0) == Some(2);
  }

  lemma Coprime3(d: seq<Divisor>)
    requires d == [2]
    ensures NoneDivides(d, 3)
  {
    assert NoneDividesFrom(d, 3, 1);
  }

  lemma Accepted3(d: seq<Divisor>)
    requires d == [2]
    ensures FirstAccepted(d, 3, 0) == Some(3)
  {
    Coprime3(d);
    assert FirstAccepted(d, 3, 0) == Some(3);
  }

  lemma Coprime5(d: seq<Divisor>)
    requires d == [2, 3]
    ensures NoneDivides(d, 5)
  {
    assert NoneDividesFrom(d, 5, 2);
    assert NoneDividesFrom(d, 5, 1);
  }

  lemma Accepted4(d: seq<Divisor>)
    requires d == [2, 3]
    ensures FirstAccepted(d, 4, 0) == Some(5)
  {
    assert FirstAccepted(d, 4, 0) == FirstAccepted(d, 4, 1);
    Coprime5(d);
    assert FirstAccepted(d, 4, 1) == Some(5);
  }

  lemma Coprime7(d: seq<Divisor>)
    requires d == [2, 3, 5]
    ensures NoneDivides(d, 7)
  {
    assert NoneDividesFrom(d, 7, 3);
    assert NoneDividesFrom(d, 7, 2);
    assert NoneDividesFrom(d, 7, 1);
  }

  lemma Accepted5(d: seq<Divisor>)
    requires d == [2, 3, 5]
    ensures FirstAccepted(d, 5, 0) == Some(7)
  {
    assert !NoneDividesFrom(d, 5, 2);
    assert !NoneDividesFrom(d, 5, 1);
    assert !NoneDividesFrom(d, 5, 0);
    assert FirstAccepted(d, 5, 0) == FirstAccepted(d, 5, 1);
    assert FirstAccepted(d, 5, 1) == FirstAccepted(d, 5, 2);
    Coprime7(d);
    assert FirstAccepted(d, 5, 2) == Some(7);
  }

  lemma Coprime11(d: seq<Divisor>)
    requires d == [2, 3, 5, 7]
    ensures NoneDivides(d, 11)
  {
    assert NoneDividesFrom(d, 11, 4);
    assert NoneDividesFrom(d, 11, 3);
    assert NoneDividesFrom(d, 11, 2);
    assert NoneDividesFrom(d, 11, 1);
  }

  lemma Accepted6(d: seq<Divisor>)
    requires d == [2, 3, 5, 7]
    ensures FirstAccepted(d, 6, 0) == Some(11)
  {
    assert FirstAccepted(d, 6, 0) == FirstAccepted(d, 6, 1);
    assert !NoneDividesFrom(d, 7, 3);
    assert !NoneDividesFrom(d, 7, 2);
    assert !NoneDividesFrom(d, 7, 1);
    assert !NoneDividesFrom(d, 7, 0);
    assert FirstAccepted(d, 6, 1) == FirstAccepted(d, 6, 2);
    assert FirstAccepted(d, 6, 2) == FirstAccepted(d, 6, 3);
    assert !NoneDividesFrom(d, 9, 1);
    assert !NoneDividesFrom(d, 9, 0);
    assert FirstAccepted(d, 6, 3) == FirstAccepted(d, 6, 4);
    assert FirstAccepted(d, 6, 4) == FirstAccepted(d, 6, 5);
    Coprime11(d);
    assert FirstAccepted(d, 6, 5) == Some(11);
  }

  lemma Coprime13(d: seq<Divisor>)
    requires d == [2, 3, 5, 7, 11]
    ensures NoneDivides(d, 13)
  {
    assert NoneDividesFrom(d, 13, 5);
    assert NoneDividesFrom(d, 13, 4);
    assert NoneDividesFrom(d, 13, 3);
    assert NoneDividesFrom(d, 13, 2);
    assert NoneDividesFrom(d, 13, 1);
  }

  lemma Accepted7(d: seq<Divisor>)
    requires d == [2, 3, 5, 7, 11]
    ensures FirstAccepted(d, 7, 0) == Some(13)
  {
    assert !NoneDividesFrom(d, 7, 3);
    assert !NoneDividesFrom(d, 7, 2);
    assert !NoneDividesFrom(d, 7, 1);
    assert !NoneDividesFrom(d, 7, 0);
    assert FirstAccepted(d, 7, 0) == FirstAccepted(d, 7, 1);
    assert FirstAccepted(d, 7, 1) == FirstAccepted(d, 7, 2);
    assert !NoneDividesFrom(d, 9, 1);
    assert !NoneDividesFrom(d, 9, 0);
    assert FirstAccepted(d, 7, 2) == FirstAccepted(d, 7, 3);
    assert FirstAccepted(d, 7, 3) == FirstAccepted(d, 7, 4);
    assert !NoneDividesFrom(d, 11, 4);
    assert !NoneDividesFrom(d, 11, 3);
    assert !NoneDividesFrom(d, 11, 2);
    assert !NoneDividesFrom(d, 11, 1);
    assert !NoneDividesFrom(d, 11, 0);
    assert FirstAccepted(d, 7, 4) == FirstAccepted(d, 7, 5);
    assert FirstAccepted(d, 7, 5) == FirstAccepted(d, 7, 6);
    Coprime13(d);
    assert FirstAccepted(d, 7, 6) == Some(13);
  }

  lemma Accepted8(d: seq<Divisor>)
    requires d == [2, 3, 5, 7, 11, 13]
    ensures FirstAccepted(d, 8, 0) == None
  {
    assert FirstAccepted(d, 8, 0) == FirstAccepted(d, 8, 1);
    assert !NoneDividesFrom(d, 9, 1);
    assert !NoneDividesFrom(d, 9, 0);
    assert FirstAccepted(d, 8, 1) == FirstAccepted(d, 8, 2);
    assert FirstAccepted(d, 8, 2) == FirstAccepted(d, 8, 3);
    assert !NoneDividesFrom(d, 11, 4);
    assert !NoneDividesFrom(d, 11, 3);
    assert !NoneDividesFrom(d, 11, 2);
    assert !NoneDividesFrom(d, 11, 1);
    assert !NoneDividesFrom(d, 11, 0);
    assert FirstAccepted(d, 8, 3) == FirstAccepted(d, 8, 4);
    assert FirstAccepted(d, 8, 4) == FirstAccepted(d, 8, 5);
    assert !NoneDividesFrom(d, 13, 5);
    assert !NoneDividesFrom(d, 13, 4);
    assert !NoneDividesFrom(d, 13, 3);
    assert !NoneDividesFrom(d, 13, 2);
    assert !NoneDividesFrom(d, 13, 1);
    assert !NoneDividesFrom(d, 13, 0);
    assert FirstAccepted(d, 8, 5) == FirstAccepted(d, 8, 6);
    assert FirstAccepted(d, 8, 6) == FirstAccepted(d, 8, 7);
    assert !NoneDividesFrom(d, 15, 1);
    assert !NoneDividesFrom(d, 15, 0);
    assert FirstAccepted(d, 8, 7) == FirstAccepted(d, 8, 8);
    assert FirstAccepted(d, 8, 8) == None;
  }

  lemma Coprime17(d: seq<Divisor>)
    requires d == [2, 3, 5, 7, 11, 13]
    ensures NoneDivides(d, 17)
  {
    assert NoneDividesFrom(d, 17, 6);
    assert NoneDividesFrom(d, 17, 5);
    assert NoneDividesFrom(d, 17, 4);
    assert NoneDividesFrom(d, 17, 3);
    assert NoneDividesFrom(d, 17, 2);
    assert NoneDividesFrom(d, 17, 1);
  }

  lemma Accepted9(d: seq<Divisor>)
    requires d == [2, 3, 5, 7, 11, 13]
    ensures FirstAccepted(d, 9, 0) == Some(17)
  {
    assert !NoneDividesFrom(d, 9, 1);
    assert !NoneDividesFrom(d, 9, 0);
    assert FirstAccepted(d, 9, 0) == FirstAccepted(d, 9, 1);
    assert FirstAccepted(d, 9, 1) == FirstAccepted(d, 9, 2);
    assert !NoneDividesFrom(d, 11, 4);
    assert !NoneDividesFrom(d, 11, 3);
    assert !NoneDividesFrom(d, 11, 2);
    assert !NoneDividesFrom(d, 11, 1);
    assert !NoneDividesFrom(d, 11, 0);
    assert FirstAccepted(d, 9, 2) == FirstAccepted(d, 9, 3);
    assert FirstAccepted(d, 9, 3) == FirstAccepted(d, 9, 4);
    assert !NoneDividesFrom(d, 13, 5);
    assert !NoneDividesFrom(d, 13, 4);
    assert !NoneDividesFrom(d, 13, 3);
    assert !NoneDividesFrom(d, 13, 2);
    assert !NoneDividesFrom(d, 13, 1);
    assert !NoneDividesFrom(d, 13, 0);
    assert FirstAccepted(d, 9, 4) == FirstAccepted(d, 9, 5);
    assert FirstAccepted(d, 9, 5) == FirstAccepted(d, 9, 6);
    assert !NoneDividesFrom(d, 15, 1);
    assert !NoneDividesFrom(d, 15, 0);
    assert FirstAccepted(d, 9, 6) == FirstAccepted(d, 9, 7);
    assert FirstAccepted(d, 9, 7) == FirstAccepted(d, 9, 8);
    Coprime17(d);
    assert FirstAccepted(d, 9, 8) == Some(17);
  }

  lemma Coprime19(d: seq<Divisor>)
    requires d == [2, 3, 5, 7, 11, 13, 17]
    ensures NoneDivides(d, 19)
  {
    assert NoneDividesFrom(d, 19, 7);
    assert NoneDividesFrom(d, 19, 6);
    assert NoneDividesFrom(d, 19, 5);
    assert NoneDividesFrom(d, 19, 4);
    assert NoneDividesFrom(d, 19, 3);
    assert NoneDividesFrom(d, 19, 2);
    assert NoneDividesFrom(d, 19, 1);
  }

  lemma Accepted10(d: seq<Divisor>)
    requires d == [2, 3, 5, 7, 11, 13, 17]
    ensures FirstAccepted(d, 10, 0) == Some(19)
  {
    assert FirstAccepted(d, 10, 0) == FirstAccepted(d, 10, 1);
    assert !NoneDividesFrom(d, 11, 4);
    assert !NoneDividesFrom(d, 11, 3);
    assert !NoneDividesFrom(d, 11, 2);
    assert !NoneDividesFrom(d, 11, 1);
    assert !NoneDividesFrom(d, 11, 0);
    assert FirstAccepted(d, 10, 1) == FirstAccepted(d, 10, 2);
    assert FirstAccepted(d, 10, 2) == FirstAccepted(d, 10, 3);
    assert !NoneDividesFrom(d, 13, 5);
    assert !NoneDividesFrom(d, 13, 4);
    assert !NoneDividesFrom(d, 13, 3);
    assert !NoneDividesFrom(d, 13, 2);
    assert !NoneDividesFrom(d, 13, 1);
    assert !NoneDividesFrom(d, 13, 0);
    assert FirstAccepted(d, 10, 3) == FirstAccepted(d, 10, 4);
    assert FirstAccepted(d, 10, 4) == FirstAccepted(d, 10, 5);
    assert !NoneDividesFrom(d, 15, 1);
    assert !NoneDividesFrom(d, 15, 0);
    assert FirstAccepted(d, 10, 5) == FirstAccepted(d, 10, 6);
    assert FirstAccepted(d, 10, 6) == FirstAccepted(d, 10, 7);
    assert !NoneDividesFrom(d, 17, 6);
    assert !NoneDividesFrom(d, 17, 5);
    assert !NoneDividesFrom(d, 17, 4);
    assert !NoneDividesFrom(d, 17, 3);
    assert !NoneDividesFrom(d, 17, 2);
    assert !NoneDividesFrom(d, 17, 1);
    assert !NoneDividesFrom(d, 17, 0);
    assert FirstAccepted(d, 10, 7) == FirstAccepted(d, 10, 8);
    assert FirstAccepted(d, 10, 8) == FirstAccepted(d, 10, 9);
    Coprime19(d);
    assert FirstAccepted(d, 10, 9) == Some(19);
  }

  lemma Accepted11(d: seq<Divisor>)
    requires d == [2, 3, 5, 7, 11, 13, 17, 19]
    ensures FirstAccepted(d, 11, 0) == None
  {
    assert !NoneDividesFrom(d, 11, 4);
    assert !NoneDividesFrom(d, 11, 3);
    assert !NoneDividesFrom(d, 11, 2);
    assert !NoneDividesFrom(d, 11, 1);
    assert !NoneDividesFrom(d, 11, 0);
    assert FirstAccepted(d, 11, 0) == FirstAccepted(d, 11, 1);
    assert FirstAccepted(d, 11, 1) == FirstAccepted(d, 11, 2);
    assert !NoneDividesFrom(d, 13, 5);
    assert !NoneDividesFrom(d, 13, 4);
    assert !NoneDividesFrom(d, 13, 3);
    assert !NoneDividesFrom(d, 13, 2);
    assert !NoneDividesFrom(d, 13, 1);
    assert !NoneDividesFrom(d, 13, 0);
    assert FirstAccepted(d, 11, 2) == FirstAccepted(d, 11, 3);
    assert FirstAccepted(d, 11, 3) == FirstAccepted(d, 11, 4);
    assert !NoneDividesFrom(d, 15, 1);
    assert !NoneDividesFrom(d, 15, 0);
    assert FirstAccepted(d, 11, 4) == FirstAccepted(d, 11, 5);
    assert FirstAccepted(d, 11, 5) == FirstAccepted(d, 11, 6);
    assert !NoneDividesFrom(d, 17, 6);
    assert !NoneDividesFrom(d, 17, 5);
    assert !NoneDividesFrom(d, 17, 4);
    assert !NoneDividesFrom(d, 17, 3);
    assert !NoneDividesFrom(d, 17, 2);
    assert !NoneDividesFrom(d, 17, 1);
    assert !NoneDividesFrom(d, 17, 0);
    assert FirstAccepted(d, 11, 6) == FirstAccepted(d, 11, 7);
    assert FirstAccepted(d, 11, 7) == FirstAccepted(d, 11, 8);
    assert !NoneDividesFrom(d, 19, 7);
    assert !NoneDividesFrom(d, 19, 6);
    assert !NoneDividesFrom(d, 19, 5);
    assert !NoneDividesFrom(d, 19, 4);
    assert !NoneDividesFrom(d, 19, 3);
    assert !NoneDividesFrom(d, 19, 2);
    assert !NoneDividesFrom(d, 19, 1);
    assert !NoneDividesFrom(d, 19, 0);
    assert FirstAccepted(d, 11, 8) == FirstAccepted(d, 11, 9);
    assert FirstAccepted(d, 11, 9) == FirstAccepted(d, 11, 10);
    assert !NoneDividesFrom(d, 21, 1);
    assert !NoneDividesFrom(d, 21, 0);
    assert FirstAccepted(d, 11, 10) == FirstAccepted(d, 11, 11);
    assert FirstAccepted(d, 11, 11) == None;
  }

  lemma Coprime23(d: seq<Divisor>)
    requires d == [2, 3, 5, 7, 11, 13, 17, 19]
    ensures NoneDivides(d, 23)
  {
    assert NoneDividesFrom(d, 23, 8);
    assert NoneDividesFrom(d, 23, 7);
    assert NoneDividesFrom(d, 23, 6);
    assert NoneDividesFrom(d, 23, 5);
    assert NoneDividesFrom(d, 23, 4);
    assert NoneDividesFrom(d, 23, 3);
    assert NoneDividesFrom(d, 23, 2);
    assert NoneDividesFrom(d, 23, 1);
  }

  lemma Accepted12(d: seq<Divisor>)
    requires d == [2, 3, 5, 7, 11, 13, 17, 19]
    ensures FirstAccepted(d, 12, 0) == Some(23)
  {
    assert FirstAccepted(d, 12, 0) == FirstAccepted(d, 12, 1);
    assert !NoneDividesFrom(d, 13, 5);
    assert !NoneDividesFrom(d, 13, 4);
    assert !NoneDividesFrom(d, 13, 3);
    assert !NoneDividesFrom(d, 13, 2);
    assert !NoneDividesFrom(d, 13, 1);
    assert !NoneDividesFrom(d, 13, 0);
    assert FirstAccepted(d, 12, 1) == FirstAccepted(d, 12, 2);
    assert FirstAccepted(d, 12, 2) == FirstAccepted(d, 12, 3);
    assert !NoneDividesFrom(d, 15, 1);
    assert !NoneDividesFrom(d, 15, 0);
    assert FirstAccepted(d, 12, 3) == FirstAccepted(d, 12, 4);
    assert FirstAccepted(d, 12, 4) == FirstAccepted(d, 12, 5);
    assert !NoneDividesFrom(d, 17, 6);
    assert !NoneDividesFrom(d, 17, 5);
    assert !NoneDividesFrom(d, 17, 4);
    assert !NoneDividesFrom(d, 17, 3);
    assert !NoneDividesFrom(d, 17, 2);
    assert !NoneDividesFrom(d, 17, 1);
    assert !NoneDividesFrom(d, 17, 0);
    assert FirstAccepted(d, 12, 5) == FirstAccepted(d, 12, 6);
    assert FirstAccepted(d, 12, 6) == FirstAccepted(d, 12, 7);
    assert !NoneDividesFrom(d, 19, 7);
    assert !NoneDividesFrom(d, 19, 6);
    assert !NoneDividesFrom(d, 19, 5);
    assert !NoneDividesFrom(d, 19, 4);
    assert !NoneDividesFrom(d, 19, 3);
    assert !NoneDividesFrom(d, 19, 2);
    assert !NoneDividesFrom(d, 19, 1);
    assert !NoneDividesFrom(d, 19, 0);
    assert FirstAccepted(d, 12, 7) == FirstAccepted(d, 12, 8);
    assert FirstAccepted(d, 12, 8) == FirstAccepted(d, 12, 9);
    assert !NoneDividesFrom(d, 21, 1);
    assert !NoneDividesFrom(d, 21, 0);
    assert FirstAccepted(d, 12, 9) == FirstAccepted(d, 12, 10);
    assert FirstAccepted(d, 12, 10) == FirstAccepted(d, 12, 11);
    Coprime23(d);
    assert FirstAccepted(d, 12, 11) == Some(23);
  }

  lemma Accepted13(d: seq<Divisor>)
    requires d == [2, 3, 5, 7, 11, 13, 17, 19, 23]
    ensures FirstAccepted(d, 13, 0) == None
  {
    assert !NoneDividesFrom(d, 13, 5);
    assert !NoneDividesFrom(d, 13, 4);
    assert !NoneDividesFrom(d, 13, 3);
    assert !NoneDividesFrom(d, 13, 2);
    assert !NoneDividesFrom(d, 13, 1);
    assert !NoneDividesFrom(d, 13, 0);
    assert FirstAccepted(d, 13, 0) == FirstAccepted(d, 13, 1);
    assert FirstAccepted(d, 13, 1) == FirstAccepted(d, 13, 2);
    assert !NoneDividesFrom(d, 15, 1);
    assert !NoneDividesFrom(d, 15, 0);
    assert FirstAccepted(d, 13, 2) == FirstAccepted(d, 13, 3);
    assert FirstAccepted(d, 13, 3) == FirstAccepted(d, 13, 4);
    assert !NoneDividesFrom(d, 17, 6);
    assert !NoneDividesFrom(d, 17, 5);
    assert !NoneDividesFrom(d, 17, 4);
    assert !NoneDividesFrom(d, 17, 3);
    assert !NoneDividesFrom(d, 17, 2);
    assert !NoneDividesFrom(d, 17, 1);
    assert !NoneDividesFrom(d, 17, 0);
    assert FirstAccepted(d, 13, 4) == FirstAccepted(d, 13, 5);
    assert FirstAccepted(d, 13, 5) == FirstAccepted(d, 13, 6);
    assert !NoneDividesFrom(d, 19, 7);
    assert !NoneDividesFrom(d, 19, 6);
    assert !NoneDividesFrom(d, 19, 5);
    assert !NoneDividesFrom(d, 19, 4);
    assert !NoneDividesFrom(d, 19, 3);
    assert !NoneDividesFrom(d, 19, 2);
    assert !NoneDividesFrom(d, 19, 1);
    assert !NoneDividesFrom(d, 19, 0);
    assert FirstAccepted(d, 13, 6) == FirstAccepted(d, 13, 7);
    assert FirstAccepted(d, 13, 7) == FirstAccepted(d, 13, 8);
    assert !NoneDividesFrom(d, 21, 1);
    assert !NoneDividesFrom(d, 21, 0);
    assert FirstAccepted(d, 13, 8) == FirstAccepted(d, 13, 9);
    assert FirstAccepted(d, 13, 9) == FirstAccepted(d, 13, 10);
    assert !NoneDividesFrom(d, 23, 8);
    assert !NoneDividesFrom(d, 23, 7);
    assert !NoneDividesFrom(d, 23, 6);
    assert !NoneDividesFrom(d, 23, 5);
    assert !NoneDividesFrom(d, 23, 4);
    assert !NoneDividesFrom(d, 23, 3);
    assert !NoneDividesFrom(d, 23, 2);
    assert !NoneDividesFrom(d, 23, 1);
    assert !NoneDividesFrom(d, 23, 0);
    assert FirstAccepted(d, 13, 10) == FirstAccepted(d, 13, 11);
    assert FirstAccepted(d, 13, 11) == FirstAccepted(d, 13, 12);
    assert !NoneDividesFrom(d, 25, 2);
    assert !NoneDividesFrom(d, 25, 1);
    assert !NoneDividesFrom(d, 25, 0);
    assert FirstAccepted(d, 13, 12) == FirstAccepted(d, 13, 13);
    assert FirstAccepted(d, 13, 13) == None;
  }

  lemma Accepted14(d: seq<Divisor>)
    requires d == [2, 3, 5, 7, 11, 13, 17, 19, 23]
    ensures FirstAccepted(d, 14, 0) == None
  {
    assert FirstAccepted(d, 14, 0) == FirstAccepted(d, 14, 1);
    assert !NoneDividesFrom(d, 15, 1);
    assert !NoneDividesFrom(d, 15, 0);
    assert FirstAccepted(d, 14, 1) == FirstAccepted(d, 14, 2);
    assert FirstAccepted(d, 14, 2) == FirstAccepted(d, 14, 3);
    assert !NoneDividesFrom(d, 17, 6);
    assert !NoneDividesFrom(d, 17, 5);
    assert !NoneDividesFrom(d, 17, 4);
    assert !NoneDividesFrom(d, 17, 3);
    assert !NoneDividesFrom(d, 17, 2);
    assert !NoneDividesFrom(d, 17, 1);
    assert !NoneDividesFrom(d, 17, 0);
    assert FirstAccepted(d, 14, 3) == FirstAccepted(d, 14, 4);
    assert FirstAccepted(d, 14, 4) == FirstAccepted(d, 14, 5);
    assert !NoneDividesFrom(d, 19, 7);
    assert !NoneDividesFrom(d, 19, 6);
    assert !NoneDividesFrom(d, 19, 5);
    assert !NoneDividesFrom(d, 19, 4);
    assert !NoneDividesFrom(d, 19, 3);
    assert !NoneDividesFrom(d, 19, 2);
    assert !NoneDividesFrom(d, 19, 1);
    assert !NoneDividesFrom(d, 19, 0);
    assert FirstAccepted(d, 14, 5) == FirstAccepted(d, 14, 6);
    assert FirstAccepted(d, 14, 6) == FirstAccepted(d, 14, 7);
    assert !NoneDividesFrom(d, 21, 1);
    assert !NoneDividesFrom(d, 21, 0);
    assert FirstAccepted(d, 14, 7) == FirstAccepted(d, 14, 8);
    assert FirstAccepted(d, 14, 8) == FirstAccepted(d, 14, 9);
    assert !NoneDividesFrom(d, 23, 8);
    assert !NoneDividesFrom(d, 23, 7);
    assert !NoneDividesFrom(d, 23, 6);
    assert !NoneDividesFrom(d, 23, 5);
    assert !NoneDividesFrom(d, 23, 4);
    assert !NoneDividesFrom(d, 23, 3);
    assert !NoneDividesFrom(d, 23, 2);
    assert !NoneDividesFrom(d, 23, 1);
    assert !NoneDividesFrom(d, 23, 0);
    assert FirstAccepted(d, 14, 9) == FirstAccepted(d, 14, 10);
    assert FirstAccepted(d, 14, 10) == FirstAccepted(d, 14, 11);
    assert !NoneDividesFrom(d, 25, 2);
    assert !NoneDividesFrom(d, 25, 1);
    assert !NoneDividesFrom(d, 25, 0);
    assert FirstAccepted(d, 14, 11) == FirstAccepted(d, 14, 12);
    assert FirstAccepted(d, 14, 12) == FirstAccepted(d, 14, 13);
    assert !NoneDividesFrom(d, 27, 1);
    assert !NoneDividesFrom(d, 27, 0);
    assert FirstAccepted(d, 14, 13) == FirstAccepted(d, 14, 14);
    assert FirstAccepted(d, 14, 14) == None;
  }

  lemma Coprime29(d: seq<Divisor>)
    requires d == [2, 3, 5, 7, 11, 13, 17, 19, 23]
    ensures NoneDivides(d, 29)
  {
    assert NoneDividesFrom(d, 29, 9);
    assert NoneDividesFrom(d, 29, 8);
    assert NoneDividesFrom(d, 29, 7);
    assert NoneDividesFrom(d, 29, 6);
    assert NoneDividesFrom(d, 29, 5);
    assert NoneDividesFrom(d, 29, 4);
    assert NoneDividesFrom(d, 29, 3);
    assert NoneDividesFrom(d, 29, 2);
    assert NoneDividesFrom(d, 29, 1);
  }

  lemma Accepted15(d: seq<Divisor>)
    requires d == [2, 3, 5, 7, 11, 13, 17, 19, 23]
    ensures FirstAccepted(d, 15, 0) == Some(29)
  {
    assert !NoneDividesFrom(d, 15, 1);
    assert !NoneDividesFrom(d, 15, 0);
    assert FirstAccepted(d, 15, 0) == FirstAccepted(d, 15, 1);
    assert FirstAccepted(d, 15, 1) == FirstAccepted(d, 15, 2);
    assert !NoneDividesFrom(d, 17, 6);
    assert !NoneDividesFrom(d, 17, 5);
    assert !NoneDividesFrom(d, 17, 4);
    assert !NoneDividesFrom(d, 17, 3);
    assert !NoneDividesFrom(d, 17, 2);
    assert !NoneDividesFrom(d, 17, 1);
    assert !NoneDividesFrom(d, 17, 0);
    assert FirstAccepted(d, 15, 2) == FirstAccepted(d, 15, 3);
    assert FirstAccepted(d, 15, 3) == FirstAccepted(d, 15, 4);
    assert !NoneDividesFrom(d, 19, 7);
    assert !NoneDividesFrom(d, 19, 6);
    assert !NoneDividesFrom(d, 19, 5);
    assert !NoneDividesFrom(d, 19, 4);
    assert !NoneDividesFrom(d, 19, 3);
    assert !NoneDividesFrom(d, 19, 2);
    assert !NoneDividesFrom(d, 19, 1);
    assert !NoneDividesFrom(d, 19, 0);
    assert FirstAccepted(d, 15, 4) == FirstAccepted(d, 15, 5);
    assert FirstAccepted(d, 15, 5) == FirstAccepted(d, 15, 6);
    assert !NoneDividesFrom(d, 21, 1);
    assert !NoneDividesFrom(d, 21, 0);
    assert FirstAccepted(d, 15, 6) == FirstAccepted(d, 15, 7);
    assert FirstAccepted(d, 15, 7) == FirstAccepted(d, 15, 8);
    assert !NoneDividesFrom(d, 23, 8);
    assert !NoneDividesFrom(d, 23, 7);
    assert !NoneDividesFrom(d, 23, 6);
    assert !NoneDividesFrom(d, 23, 5);
    assert !NoneDividesFrom(d, 23, 4);
    assert !NoneDividesFrom(d, 23, 3);
    assert !NoneDividesFrom(d, 23, 2);
    assert !NoneDividesFrom(d, 23, 1);
    assert !NoneDividesFrom(d, 23, 0);
    assert FirstAccepted(d, 15, 8) == FirstAccepted(d, 15, 9);
    assert FirstAccepted(d, 15, 9) == FirstAccepted(d, 15, 10);
    assert !NoneDividesFrom(d, 25, 2);
    assert !NoneDividesFrom(d, 25, 1);
    assert !NoneDividesFrom(d, 25, 0);
    assert FirstAccepted(d, 15, 10) == FirstAccepted(d, 15, 11);
    assert FirstAccepted(d, 15, 11) == FirstAccepted(d, 15, 12);
    assert !NoneDividesFrom(d, 27, 1);
    assert !NoneDividesFrom(d, 27, 0);
    assert FirstAccepted(d, 15, 12) == FirstAccepted(d, 15, 13);
    assert FirstAccepted(d, 15, 13) == FirstAccepted(d, 15, 14);
    Coprime29(d);
    assert FirstAccepted(d, 15, 14) == Some(29);
  }

  lemma Coprime31(d: seq<Divisor>)
    requires d == [2, 3, 5, 7, 11, 13, 17, 19, 23, 29]
    ensures NoneDivides(d, 31)
  {
    assert NoneDividesFrom(d, 31, 10);
    assert NoneDividesFrom(d, 31, 9);
    assert NoneDividesFrom(d, 31, 8);
    assert NoneDividesFrom(d, 31, 7);
    assert NoneDividesFrom(d, 31, 6);
    assert NoneDividesFrom(d, 31, 5);
    assert NoneDividesFrom(d, 31, 4);
    assert NoneDividesFrom(d, 31, 3);
    assert NoneDividesFrom(d, 31, 2);
    assert NoneDividesFrom(d, 31, 1);
  }

  lemma Accepted16(d: seq<Divisor>)
    requires d == [2, 3, 5, 7, 11, 13, 17, 19, 23, 29]
    ensures FirstAccepted(d, 16, 0) == Some(31)
  {
    assert FirstAccepted(d, 16, 0) == FirstAccepted(d, 16, 1);
    assert !NoneDividesFrom(d, 17, 6);
    assert !NoneDividesFrom(d, 17, 5);
    assert !NoneDividesFrom(d, 17, 4);
    assert !NoneDividesFrom(d, 17, 3);
    assert !NoneDividesFrom(d, 17, 2);
    assert !NoneDividesFrom(d, 17, 1);
    assert !NoneDividesFrom(d, 17, 0);
    assert FirstAccepted(d, 16, 1) == FirstAccepted(d, 16, 2);
    assert FirstAccepted(d, 16, 2) == FirstAccepted(d, 16, 3);
    assert !NoneDividesFrom(d, 19, 7);
    assert !NoneDividesFrom(d, 19, 6);
    assert !NoneDividesFrom(d, 19, 5);
    assert !NoneDividesFrom(d, 19, 4);
    assert !NoneDividesFrom(d, 19, 3);
    assert !NoneDividesFrom(d, 19, 2);
    assert !NoneDividesFrom(d, 19, 1);
    assert !NoneDividesFrom(d, 19, 0);
    assert FirstAccepted(d, 16, 3) == FirstAccepted(d, 16, 4);
    assert FirstAccepted(d, 16, 4) == FirstAccepted(d, 16, 5);
    assert !NoneDividesFrom(d, 21, 1);
    assert !NoneDividesFrom(d, 21, 0);
    assert FirstAccepted(d, 16, 5) == FirstAccepted(d, 16, 6);
    assert FirstAccepted(d, 16, 6) == FirstAccepted(d, 16, 7);
    assert !NoneDividesFrom(d, 23, 8);
    assert !NoneDividesFrom(d, 23, 7);
    assert !NoneDividesFrom(d, 23, 6);
    assert !NoneDividesFrom(d, 23, 5);
    assert !NoneDividesFrom(d, 23, 4);
    assert !NoneDividesFrom(d, 23, 3);
    assert !NoneDividesFrom(d, 23, 2);
    assert !NoneDividesFrom(d, 23, 1);
    assert !NoneDividesFrom(d, 23, 0);
    assert FirstAccepted(d, 16, 7) == FirstAccepted(d, 16, 8);
    assert FirstAccepted(d, 16, 8) == FirstAccepted(d, 16, 9);
    assert !NoneDividesFrom(d, 25, 2);
    assert !NoneDividesFrom(d, 25, 1);
    assert !NoneDividesFrom(d, 25, 0);
    assert FirstAccepted(d, 16, 9) == FirstAccepted(d, 16, 10);
    assert FirstAccepted(d, 16, 10) == FirstAccepted(d, 16, 11);
    assert !NoneDividesFrom(d, 27, 1);
    assert !NoneDividesFrom(d, 27, 0);
    assert FirstAccepted(d, 16, 11) == FirstAccepted(d, 16, 12);
    assert FirstAccepted(d, 16, 12) == FirstAccepted(d, 16, 13);
    assert !NoneDividesFrom(d, 29, 9);
    assert !NoneDividesFrom(d, 29, 8);
    assert !NoneDividesFrom(d, 29, 7);
    assert !NoneDividesFrom(d, 29, 6);
    assert !NoneDividesFrom(d, 29, 5);
    assert !NoneDividesFrom(d, 29, 4);
    assert !NoneDividesFrom(d, 29, 3);
    assert !NoneDividesFrom(d, 29, 2);
    assert !NoneDividesFrom(d, 29, 1);
    assert !NoneDividesFrom(d, 29, 0);
    assert FirstAccepted(d, 16, 13) == FirstAccepted(d, 16, 14);
    assert FirstAccepted(d, 16, 14) == FirstAccepted(d, 16, 15);
    Coprime31(d);
    assert FirstAccepted(d, 16, 15) == Some(31);
  }

  lemma Coprime37(d: seq<Divisor>)
    requires d == [2, 3, 5, 7, 11, 13, 17, 19, 23, 29, 31]
    ensures NoneDivides(d, 37)
  {
    assert NoneDividesFrom(d, 37, 11);
    assert NoneDividesFrom(d, 37, 10);
    assert NoneDividesFrom(d, 37, 9);
    assert NoneDividesFrom(d, 37, 8);
    assert NoneDividesFrom(d, 37, 7);
    assert NoneDividesFrom(d, 37, 6);
    assert NoneDividesFrom(d, 37, 5);
    assert NoneDividesFrom(d, 37, 4);
    assert NoneDividesFrom(d, 37, 3);
    assert NoneDividesFrom(d, 37, 2);
    assert NoneDividesFrom(d, 37, 1);
  }

  lemma Accepted32(d: seq<Divisor>)
    requires d == [2, 3, 5, 7, 11, 13, 17, 19, 23, 29, 31]
    ensures FirstAccepted(d, 32, 0) == Some(37)
  {
    assert FirstAccepted(d, 32, 0) == FirstAccepted(d, 32, 1);
    assert !NoneDividesFrom(d, 33, 1);
    assert !NoneDividesFrom(d, 33, 0);
    assert FirstAccepted(d, 32, 1) == FirstAccepted(d, 32, 2);
    assert FirstAccepted(d, 32, 2) == FirstAccepted(d, 32, 3);
    assert !NoneDividesFrom(d, 35, 2);
    assert !NoneDividesFrom(d, 35, 1);
    assert !NoneDividesFrom(d, 35, 0);
    assert FirstAccepted(d, 32, 3) == FirstAccepted(d, 32, 4);
    assert FirstAccepted(d, 32, 4) == FirstAccepted(d, 32, 5);
    Coprime37(d);
    assert FirstAccepted(d, 32, 5) == Some(37);
  }

  lemma Coprime67(d: seq<Divisor>)
    requires d == [2, 3, 5, 7, 11, 13, 17, 19, 23, 29, 31, 37]
    ensures NoneDivides(d, 67)
  {
    assert NoneDividesFrom(d, 67, 12);
    assert NoneDividesFrom(d, 67, 11);
    assert NoneDividesFrom(d, 67, 10);
    assert NoneDividesFrom(d, 67, 9);
    assert NoneDividesFrom(d, 67, 8);
    assert NoneDividesFrom(d, 67, 7);
    assert NoneDividesFrom(d, 67, 6);
    assert NoneDividesFrom(d, 67, 5);
    assert NoneDividesFrom(d, 67, 4);
    assert NoneDividesFrom(d, 67, 3);
    assert NoneDividesFrom(d, 67, 2);
    assert NoneDividesFrom(d, 67, 1);
  }

  lemma Accepted64(d: seq<Divisor>)
    requires d == [2, 3, 5, 7, 11, 13, 17, 19, 23, 29, 31, 37]
    ensures FirstAccepted(d, 64, 0) == Some(67)
  {
    assert FirstAccepted(d, 64, 0) == FirstAccepted(d, 64, 1);
    assert !NoneDividesFrom(d, 65, 2);
    assert !NoneDividesFrom(d, 65, 1);
    assert !NoneDividesFrom(d, 65, 0);
    assert FirstAccepted(d, 64, 1) == FirstAccepted(d, 64, 2);
    assert FirstAccepted(d, 64, 2) == FirstAccepted(d, 64, 3);
    Coprime67(d);
    assert FirstAccepted(d, 64, 3) == Some(67);
  }

  lemma Coprime131(d: seq<Divisor>)
    requires d == [2, 3, 5, 7, 11, 13, 17, 19, 23, 29, 31, 37, 67]
    ensures NoneDivides(d, 131)
  {
    assert NoneDividesFrom(d, 131, 13);
    assert NoneDividesFrom(d, 131, 12);
    assert NoneDividesFrom(d, 131, 11);
    assert NoneDividesFrom(d, 131, 10);
    assert NoneDividesFrom(d, 131, 9);
    assert NoneDividesFrom(d, 131, 8);
    assert NoneDividesFrom(d, 131, 7);
    assert NoneDividesFrom(d, 131, 6);
    assert NoneDividesFrom(d, 131, 5);
    assert NoneDividesFrom(d, 131, 4);
    assert NoneDividesFrom(d, 131, 3);
    assert NoneDividesFrom(d, 131, 2);
    assert NoneDividesFrom(d, 131, 1);
  }

  lemma Accepted128(d: seq<Divisor>)
    requires d == [2, 3, 5, 7, 11, 13, 17, 19, 23, 29, 31, 37, 67]
    ensures FirstAccepted(d, 128, 0) == Some(131)
  {
    assert FirstAccepted(d, 128, 0) == FirstAccepted(d, 128, 1);
    assert !NoneDividesFrom(d, 129, 1);
    assert !NoneDividesFrom(d, 129, 0);
    assert FirstAccepted(d, 128, 1) == FirstAccepted(d, 128, 2);
    assert FirstAccepted(d, 128, 2) == FirstAccepted(d, 128, 3);
    Coprime131(d);
    assert FirstAccepted(d, 128, 3) == Some(131);
  }

  lemma Coprime257(d: seq<Divisor>)
    requires d == [2, 3, 5, 7, 11, 13, 17, 19, 23, 29, 31, 37, 67, 131]
    ensures NoneDivides(d, 257)
  {
    assert NoneDividesFrom(d, 257, 14);
    assert NoneDividesFrom(d, 257, 13);
    assert NoneDividesFrom(d, 257, 12);
    assert NoneDividesFrom(d, 257, 11);
    assert NoneDividesFrom(d, 257, 10);
    assert NoneDividesFrom(d, 257, 9);
    assert NoneDividesFrom(d, 257, 8);
    assert NoneDividesFrom(d, 257, 7);
    assert NoneDividesFrom(d, 257, 6);
    assert NoneDividesFrom(d, 257, 5);
    assert NoneDividesFrom(d, 257, 4);
    assert NoneDividesFrom(d, 257, 3);
    assert NoneDividesFrom(d, 257, 2);
    assert NoneDividesFrom(d, 257, 1);
  }

  lemma Accepted256(d: seq<Divisor>)
    requires d == [2, 3, 5, 7, 11, 13, 17, 19, 23, 29, 31, 37, 67, 131]
    ensures FirstAccepted(d, 256, 0) == Some(257)
  {
    assert FirstAccepted(d, 256, 0) == FirstAccepted(d, 256, 1);
    Coprime257(d);
    assert FirstAccepted(d, 256, 1) == Some(257);
  }

  lemma Coprime521(d: seq<Divisor>)
    requires d == [2, 3, 5, 7, 11, 13, 17, 19, 23, 29, 31, 37, 67, 131, 257]
    ensures NoneDivides(d, 521)
  {
    assert NoneDividesFrom(d, 521, 15);
    assert NoneDividesFrom(d, 521, 14);
    assert NoneDividesFrom(d, 521, 13);
    assert NoneDividesFrom(d, 521, 12);
    assert NoneDividesFrom(d, 521, 11);
    assert NoneDividesFrom(d, 521, 10);
    assert NoneDividesFrom(d, 521, 9);
    assert NoneDividesFrom(d, 521, 8);
    assert NoneDividesFrom(d, 521, 7);
    assert NoneDividesFrom(d, 521, 6);
    assert NoneDividesFrom(d, 521, 5);
    assert NoneDividesFrom(d, 521, 4);
    assert NoneDividesFrom(d, 521, 3);
    assert NoneDividesFrom(d, 521, 2);
    assert NoneDividesFrom(d, 521, 1);
  }

  lemma Accepted512(d: seq<Divisor>)
    requires d == [2, 3, 5, 7, 11, 13, 17, 19, 23, 29, 31, 37, 67, 131, 257]
    ensures FirstAccepted(d, 512, 0) == Some(521)
  {
    assert FirstAccepted(d, 512, 0) == FirstAccepted(d, 512, 1);
    assert !NoneDividesFrom(d, 513, 1);
    assert !NoneDividesFrom(d, 513, 0);
    assert FirstAccepted(d, 512, 1) == FirstAccepted(d, 512, 2);
    assert FirstAccepted(d, 512, 2) == FirstAccepted(d, 512, 3);
    assert !NoneDividesFrom(d, 515, 2);
    assert !NoneDividesFrom(d, 515, 1);
    assert !NoneDividesFrom(d, 515, 0);
    assert FirstAccepted(d, 512, 3) == FirstAccepted(d, 512, 4);
    assert FirstAccepted(d, 512, 4) == FirstAccepted(d, 512, 5);
    assert !NoneDividesFrom(d, 517, 4);
    assert !NoneDividesFrom(d, 517, 3);
    assert !NoneDividesFrom(d, 517, 2);
    assert !NoneDividesFrom(d, 517, 1);
    assert !NoneDividesFrom(d, 517, 0);
    assert FirstAccepted(d, 512, 5) == FirstAccepted(d, 512, 6);
    assert FirstAccepted(d, 512, 6) == FirstAccepted(d, 512, 7);
    assert !NoneDividesFrom(d, 519, 1);
    assert !NoneDividesFrom(d, 519, 0);
    assert FirstAccepted(d, 512, 7) == FirstAccepted(d, 512, 8);
    assert FirstAccepted(d, 512, 8) == FirstAccepted(d, 512, 9);
    Coprime521(d);
    assert FirstAccepted(d, 512, 9) == Some(521);
  }

  lemma Coprime1031(d: seq<Divisor>)
    requires d == [2, 3, 5, 7, 11, 13, 17, 19, 23, 29, 31, 37, 67, 131, 257, 521]
    ensures NoneDivides(d, 1031)
  {
    assert NoneDividesFrom(d, 1031, 16);
    assert NoneDividesFrom(d, 1031, 15);
    assert NoneDividesFrom(d, 1031, 14);
    assert NoneDividesFrom(d, 1031, 13);
    assert NoneDividesFrom(d, 1031, 12);
    assert NoneDividesFrom(d, 1031, 11);
    assert NoneDividesFrom(d, 1031, 10);
    assert NoneDividesFrom(d, 1031, 9);
    assert NoneDividesFrom(d, 1031, 8);
    assert NoneDividesFrom(d, 1031, 7);
    assert NoneDividesFrom(d, 1031, 6);
    assert NoneDividesFrom(d, 1031, 5);
    assert NoneDividesFrom(d, 1031, 4);
    assert NoneDividesFrom(d, 1031, 3);
    assert NoneDividesFrom(d, 1031, 2);
    assert NoneDividesFrom(d, 1031, 1);
  }

  lemma Accepted1024(d: seq<Divisor>)
    requires d == [2, 3, 5, 7, 11, 13, 17, 19, 23, 29, 31, 37, 67, 131, 257, 521]
    ensures FirstAccepted(d, 1024, 0) == Some(1031)
  {
    assert FirstAccepted(d, 1024, 0) == FirstAccepted(d, 1024, 1);
    assert !NoneDividesFrom(d, 1025, 2);
    assert !NoneDividesFrom(d, 1025, 1);
    assert !NoneDividesFrom(d, 1025, 0);
    assert FirstAccepted(d, 1024, 1) == FirstAccepted(d, 1024, 2);
    assert FirstAccepted(d, 1024, 2) == FirstAccepted(d, 1024, 3);
    assert !NoneDividesFrom(d, 1027, 5);
    assert !NoneDividesFrom(d, 1027, 4);
    assert !NoneDividesFrom(d, 1027, 3);
    assert !NoneDividesFrom(d, 1027, 2);
    assert !NoneDividesFrom(d, 1027, 1);
    assert !NoneDividesFrom(d, 1027, 0);
    assert FirstAccepted(d, 1024, 3) == FirstAccepted(d, 1024, 4);
    assert FirstAccepted(d, 1024, 4) == FirstAccepted(d, 1024, 5);
    assert !NoneDividesFrom(d, 1029, 1);
    assert !NoneDividesFrom(d, 1029, 0);
    assert FirstAccepted(d, 1024, 5) == FirstAccepted(d, 1024, 6);
    assert FirstAccepted(d, 1024, 6) == FirstAccepted(d, 1024, 7);
    Coprime1031(d);
    assert FirstAccepted(d, 1024, 7) == Some(1031);
  }

  lemma Coprime2053(d: seq<Divisor>)
    requires d == [2, 3, 5, 7, 11, 13, 17, 19, 23, 29, 31, 37, 67, 131, 257, 521, 1031]
    ensures NoneDivides(d, 2053)
  {
    assert NoneDividesFrom(d, 2053, 17);
    assert NoneDividesFrom(d, 2053, 16);
    assert NoneDividesFrom(d, 2053, 15);
    assert NoneDividesFrom(d, 2053, 14);
    assert NoneDividesFrom(d, 2053, 13);
    assert NoneDividesFrom(d, 2053, 12);
    assert NoneDividesFrom(d, 2053, 11);
    assert NoneDividesFrom(d, 2053, 10);
    assert NoneDividesFrom(d, 2053, 9);
    assert NoneDividesFrom(d, 2053, 8);
    assert NoneDividesFrom(d, 2053, 7);
    assert NoneDividesFrom(d, 2053, 6);
    assert NoneDividesFrom(d, 2053, 5);
    assert NoneDividesFrom(d, 2053, 4);
    assert NoneDividesFrom(d, 2053, 3);
    assert NoneDividesFrom(d, 2053, 2);
    assert NoneDividesFrom(d, 2053, 1);
  }

  lemma Accepted2048(d: seq<Divisor>)
    requires d == [2, 3, 5, 7, 11, 13, 17, 19, 23, 29, 31, 37, 67, 131, 257, 521, 1031]
    ensures FirstAccepted(d, 2048, 0) == Some(2053)
  {
    assert FirstAccepted(d, 2048, 0) == FirstAccepted(d, 2048, 1);
    assert !NoneDividesFrom(d, 2049, 1);
    assert !NoneDividesFrom(d, 2049, 0);
    assert FirstAccepted(d, 2048, 1) == FirstAccepted(d, 2048, 2);
    assert FirstAccepted(d, 2048, 2) == FirstAccepted(d, 2048, 3);
    assert !NoneDividesFrom(d, 2051, 3);
    assert !NoneDividesFrom(d, 2051, 2);
    assert !NoneDividesFrom(d, 2051, 1);
    assert !NoneDividesFrom(d, 2051, 0);
    assert FirstAccepted(d, 2048, 3) == FirstAccepted(d, 2048, 4);
    assert FirstAccepted(d, 2048, 4) == FirstAccepted(d, 2048, 5);
    Coprime2053(d);
    assert FirstAccepted(d, 2048, 5) == Some(2053);
  }

  lemma Coprime4099(d: seq<Divisor>)
    requires d == [2, 3, 5, 7, 11, 13, 17, 19, 23, 29, 31, 37, 67, 131, 257, 521, 1031, 2053]
    ensures NoneDivides(d, 4099)
  {
    assert NoneDividesFrom(d, 4099, 18);
    assert NoneDividesFrom(d, 4099, 17);
    assert NoneDividesFrom(d, 4099, 16);
    assert NoneDividesFrom(d, 4099, 15);
    assert NoneDividesFrom(d, 4099, 14);
    assert NoneDividesFrom(d, 4099, 13);
    assert NoneDividesFrom(d, 4099, 12);
    assert NoneDividesFrom(d, 4099, 11);
    assert NoneDividesFrom(d, 4099, 10);
    assert NoneDividesFrom(d, 4099, 9);
    assert NoneDividesFrom(d, 4099, 8);
    assert NoneDividesFrom(d, 4099, 7);
    assert NoneDividesFrom(d, 4099, 6);
    assert NoneDividesFrom(d, 4099, 5);
    assert NoneDividesFrom(d, 4099, 4);
    assert NoneDividesFrom(d, 4099, 3);
    assert NoneDividesFrom(d, 4099, 2);
    assert NoneDividesFrom(d, 4099, 1);
  }

  lemma Accepted4096(d: seq<Divisor>)
    requires d == [2, 3, 5, 7, 11, 13, 17, 19, 23, 29, 31, 37, 67, 131, 257, 521, 1031, 2053]
    ensures FirstAccepted(d, 4096, 0) == Some(4099)
  {
    assert FirstAccepted(d, 4096, 0) == FirstAccepted(d, 4096, 1);
    assert !NoneDividesFrom(d, 4097, 6);
    assert !NoneDividesFrom(d, 4097, 5);
    assert !NoneDividesFrom(d, 4097, 4);
    assert !NoneDividesFrom(d, 4097, 3);
    assert !NoneDividesFrom(d, 4097, 2);
    assert !NoneDividesFrom(d, 4097, 1);
    assert !NoneDividesFrom(d, 4097, 0);
    assert FirstAccepted(d, 4096, 1) == FirstAccepted(d, 4096, 2);
    assert FirstAccepted(d, 4096, 2) == FirstAccepted(d, 4096, 3);
    Coprime4099(d);
    assert FirstAccepted(d, 4096, 3) == Some(4099);
  }

  lemma Coprime8201(d: seq<Divisor>)
    requires d == [2, 3, 5, 7, 11, 13, 17, 19, 23, 29, 31, 37, 67, 131, 257, 521, 1031, 2053, 4099]
    ensures NoneDivides(d, 8201)
  {
    assert NoneDividesFrom(d, 8201, 19);
    assert NoneDividesFrom(d, 8201, 18);
    assert NoneDividesFrom(d, 8201, 17);
    assert NoneDividesFrom(d, 8201, 16);
    assert NoneDividesFrom(d, 8201, 15);
    assert NoneDividesFrom(d, 8201, 14);
    assert NoneDividesFrom(d, 8201, 13);
    assert NoneDividesFrom(d, 8201, 12);
    assert NoneDividesFrom(d, 8201, 11);
    assert NoneDividesFrom(d, 8201, 10);
    assert NoneDividesFrom(d, 8201, 9);
    assert NoneDividesFrom(d, 8201, 8);
    assert NoneDividesFrom(d, 8201, 7);
    assert NoneDividesFrom(d, 8201, 6);
    assert NoneDividesFrom(d, 8201, 5);
    assert NoneDividesFrom(d, 8201, 4);
    assert NoneDividesFrom(d, 8201, 3);
    assert NoneDividesFrom(d, 8201, 2);
    assert NoneDividesFrom(d, 8201, 1);
  }

  lemma Accepted8192(d: seq<Divisor>)
    requires d == [2, 3, 5, 7, 11, 13, 17, 19, 23, 29, 31, 37, 67, 131, 257, 521, 1031, 2053, 4099]
    ensures FirstAccepted(d, 8192, 0) == Some(8201)
  {
    assert FirstAccepted(d, 8192, 0) == FirstAccepted(d, 8192, 1);
    assert !NoneDividesFrom(d, 8193, 1);
    assert !NoneDividesFrom(d, 8193, 0);
    assert FirstAccepted(d, 8192, 1) == FirstAccepted(d, 8192, 2);
    assert FirstAccepted(d, 8192, 2) == FirstAccepted(d, 8192, 3);
    assert !NoneDividesFrom(d, 8195, 2);
    assert !NoneDividesFrom(d, 8195, 1);
    assert !NoneDividesFrom(d, 8195, 0);
    assert FirstAccepted(d, 8192, 3) == FirstAccepted(d, 8192, 4);
    assert FirstAccepted(d, 8192, 4) == FirstAccepted(d, 8192, 5);
    assert !NoneDividesFrom(d, 8197, 3);
    assert !NoneDividesFrom(d, 8197, 2);
    assert !NoneDividesFrom(d, 8197, 1);
    assert !NoneDividesFrom(d, 8197, 0);
    assert FirstAccepted(d, 8192, 5) == FirstAccepted(d, 8192, 6);
    assert FirstAccepted(d, 8192, 6) == FirstAccepted(d, 8192, 7);
    assert !NoneDividesFrom(d, 8199, 1);
    assert !NoneDividesFrom(d, 8199, 0);
    assert FirstAccepted(d, 8192, 7) == FirstAccepted(d, 8192, 8);
    assert FirstAccepted(d, 8192, 8) == FirstAccepted(d, 8192, 9);
    Coprime8201(d);
    assert FirstAccepted(d, 8192, 9) == Some(8201);
  }

  lemma Stage2(d: seq<Divisor>)
    requires d == []
    ensures Selection(d, 2) == Selection([2], 3)
  {
    Accepted2(d);
    SelectionStep(d, 2);
    assert Step(d, 2) == [2];
  }

  lemma Stage3(d: seq<Divisor>)
    requires d == [2]
    ensures Selection(d, 3) == Selection([2, 3], 4)
  {
    Accepted3(d);
    SelectionStep(d, 3);
    assert Step(d, 3) == [2, 3];
  }

  lemma Stage4(d: seq<Divisor>)
    requires d == [2, 3]
    ensures Selection(d, 4) == Selection([2, 3, 5], 5)
  {
    Accepted4(d);
    SelectionStep(d, 4);
    assert Step(d, 4) == [2, 3, 5];
  }

  lemma Stage5(d: seq<Divisor>)
    requires d == [2, 3, 5]
    ensures Selection(d, 5) == Selection([2, 3, 5, 7], 6)
  {
    Accepted5(d);
    SelectionStep(d, 5);
    assert Step(d, 5) == [2, 3, 5, 7];
  }

  lemma Stage6(d: seq<Divisor>)
    requires d == [2, 3, 5, 7]
    ensures Selection(d, 6) == Selection([2, 3, 5, 7, 11], 7)
  {
    Accepted6(d);
    SelectionStep(d, 6);
    assert Step(d, 6) == [2, 3, 5, 7, 11];
  }

  lemma Stage7(d: seq<Divisor>)
    requires d == [2, 3, 5, 7, 11]
    ensures Selection(d, 7) == Selection([2, 3, 5, 7, 11, 13], 8)
  {
    Accepted7(d);
    SelectionStep(d, 7);
    assert Step(d, 7) == [2, 3, 5, 7, 11, 13];
  }

  lemma Stage8(d: seq<Divisor>)
    requires d == [2, 3, 5, 7, 11, 13]
    ensures Selection(d, 8) == Selection([2, 3, 5, 7, 11, 13], 9)
  {
    Accepted8(d);
    SelectionStep(d, 8);
    assert Step(d, 8) == [2, 3, 5, 7, 11, 13];
  }

  lemma Stage9(d: seq<Divisor>)
    requires d == [2, 3, 5, 7, 11, 13]
    ensures Selection(d, 9) == Selection([2, 3, 5, 7, 11, 13, 17], 10)
  {
    Accepted9(d);
    SelectionStep(d, 9);
    assert Step(d, 9) == [2, 3, 5, 7, 11, 13, 17];
  }

  lemma Stage10(d: seq<Divisor>)
    requires d == [2, 3, 5, 7, 11, 13, 17]
    ensures Selection(d, 10) == Selection([2, 3, 5, 7, 11, 13, 17, 19], 11)
  {
    Accepted10(d);
    SelectionStep(d, 10);
    assert Step(d, 10) == [2, 3, 5, 7, 11, 13, 17, 19];
  }

  lemma Stage11(d: seq<Divisor>)
    requires d == [2, 3, 5, 7, 11, 13, 17, 19]
    ensures Selection(d, 11) == Selection([2, 3, 5, 7, 11, 13, 17, 19], 12)
  {
    Accepted11(d);
    SelectionStep(d, 11);
    assert Step(d, 11) == [2, 3, 5, 7, 11, 13, 17, 19];
  }

  lemma Stage12(d: seq<Divisor>)
    requires d == [2, 3, 5, 7, 11, 13, 17, 19]
    ensures Selection(d, 12) == Selection([2, 3, 5, 7, 11, 13, 17, 19, 23], 13)
  {
    Accepted12(d);
    SelectionStep(d, 12);
    assert Step(d, 12) == [2, 3, 5, 7, 11, 13, 17, 19, 23];
  }

  lemma Stage13(d: seq<Divisor>)
    requires d == [2, 3, 5, 7, 11, 13, 17, 19, 23]
    ensures Selection(d, 13) == Selection([2, 3, 5, 7, 11, 13, 17, 19, 23], 14)
  {
    Accepted13(d);
    SelectionStep(d, 13);
    assert Step(d, 13) == [2, 3, 5, 7, 11, 13, 17, 19, 23];
  }

  lemma Stage14(d: seq<Divisor>)
    requires d == [2, 3, 5, 7, 11, 13, 17, 19, 23]
    ensures Selection(d, 14) == Selection([2, 3, 5, 7, 11, 13, 17, 19, 23], 15)
  {
    Accepted14(d);
    SelectionStep(d, 14);
    assert Step(d, 14) == [2, 3, 5, 7, 11, 13, 17, 19, 23];
  }

  lemma Stage15(d: seq<Divisor>)
    requires d == [2, 3, 5, 7, 11, 13, 17, 19, 23]
    ensures Selection(d, 15) == Selection([2, 3, 5, 7, 11, 13, 17, 19, 23, 29], 16)
  {
    Accepted15(d);
    SelectionStep(d, 15);
    assert Step(d, 15) == [2, 3, 5, 7, 11, 13, 17, 19, 23, 29];
  }

  lemma Stage16(d: seq<Divisor>)
    requires d == [2, 3, 5, 7, 11, 13, 17, 19, 23, 29]
    ensures Selection(d, 16) == Selection([2, 3, 5, 7, 11, 13, 17, 19, 23, 29, 31], 32)
  {
    Accepted16(d);
    SelectionStep(d, 16);
    assert Step(d, 16) == [2, 3, 5, 7, 11, 13, 17, 19, 23, 29, 31];
  }

  lemma Stage32(d: seq<Divisor>)
    requires d == [2, 3, 5, 7, 11, 13, 17, 19, 23, 29, 31]
    ensures Selection(d, 32) == Selection([2, 3, 5, 7, 11, 13, 17, 19, 23, 29, 31, 37], 64)
  {
    Accepted32(d);
    SelectionStep(d, 32);
    assert Step(d, 32) == [2, 3, 5, 7, 11, 13, 17, 19, 23, 29, 31, 37];
  }

  lemma Stage64(d: seq<Divisor>)
    requires d == [2, 3, 5, 7, 11, 13, 17, 19, 23, 29, 31, 37]
    ensures Selection(d, 64) == Selection([2, 3, 5, 7, 11, 13, 17, 19, 23, 29, 31, 37, 67], 128)
  {
    Accepted64(d);
    SelectionStep(d, 64);
    assert Step(d, 64) == [2, 3, 5, 7, 11, 13, 17, 19, 23, 29, 31, 37, 67];
  }

  lemma Stage128(d: seq<Divisor>)
    requires d == [2, 3, 5, 7, 11, 13, 17, 19, 23, 29, 31, 37, 67]
    ensures Selection(d, 128) == Selection([2, 3, 5, 7, 11, 13, 17, 19, 23, 29, 31, 37, 67, 131], 256)
  {
    Accepted128(d);
    SelectionStep(d, 128);
    assert Step(d, 128) == [2, 3, 5, 7, 11, 13, 17, 19, 23, 29, 31, 37, 67, 131];
  }

  lemma Stage256(d: seq<Divisor>)
    requires d == [2, 3, 5, 7, 11, 13, 17, 19, 23, 29, 31, 37, 67, 131]
    ensures Selection(d, 256) == Selection([2, 3, 5, 7, 11, 13, 17, 19, 23, 29, 31, 37, 67, 131, 257], 512)
  {
    Accepted256(d);
    SelectionStep(d, 256);
    assert Step(d, 256) == [2, 3, 5, 7, 11, 13, 17, 19, 23, 29, 31, 37, 67, 131, 257];
  }

  lemma Stage512(d: seq<Divisor>)
    requires d == [2, 3, 5, 7, 11, 13, 17, 19, 23, 29, 31, 37, 67, 131, 257]
    ensures Selection(d, 512) == Selection([2, 3, 5, 7, 11, 13, 17, 19, 23, 29, 31, 37, 67, 131, 257, 521], 1024)
  {
    Accepted512(d);
    SelectionStep(d, 512);
    assert Step(d, 512) == [2, 3, 5, 7, 11, 13, 17, 19, 23, 29, 31, 37, 67, 131, 257, 521];
  }

  lemma Stage1024(d: seq<Divisor>)
    requires d == [2, 3, 5, 7, 11, 13, 17, 19, 23, 29, 31, 37, 67, 131, 257, 521]
    ensures Selection(d, 1024) == Selection([2, 3, 5, 7, 11, 13, 17, 19, 23, 29, 31, 37, 67, 131, 257, 521, 1031], 2048)
  {
    Accepted1024(d);
    SelectionStep(d, 1024);
    assert Step(d, 1024) == [2, 3, 5, 7, 11, 13, 17, 19, 23, 29, 31, 37, 67, 131, 257, 521, 1031];
  }

  lemma Stage2048(d: seq<Divisor>)
    requires d == [2, 3, 5, 7, 11, 13, 17, 19, 23, 29, 31, 37, 67, 131, 257, 521, 1031]
    ensures Selection(d, 2048) == Selection([2, 3, 5, 7, 11, 13, 17, 19, 23, 29, 31, 37, 67, 131, 257, 521, 1031, 2053], 4096)
  {
    Accepted2048(d);
    SelectionStep(d, 2048);
    assert Step(d, 2048) == [2, 3, 5, 7, 11, 13, 17, 19, 23, 29, 31, 37, 67, 131, 257, 521, 1031, 2053];
  }

  lemma Stage4096(d: seq<Divisor>)
    requires d == [2, 3, 5, 7, 11, 13, 17, 19, 23, 29, 31, 37, 67, 131, 257, 521, 1031, 2053]
    ensures Selection(d, 4096) == Selection([2, 3, 5, 7, 11, 13, 17, 19, 23, 29, 31, 37, 67, 131, 257, 521, 1031, 2053, 4099], 8192)
  {
    Accepted4096(d);
    SelectionStep(d, 4096);
    assert Step(d, 4096) == [2, 3, 5, 7, 11, 13, 17, 19, 23, 29, 31, 37, 67, 131, 257, 521, 1031, 2053, 4099];
  }

  lemma Stage8192(d: seq<Divisor>)
    requires d == [2, 3, 5, 7, 11, 13, 17, 19, 23, 29, 31, 37, 67, 131, 257, 521, 1031, 2053, 4099]
    ensures Selection(d, 8192) == Selection([2, 3, 5, 7, 11, 13, 17, 19, 23, 29, 31, 37, 67, 131, 257, 521, 1031, 2053, 4099, 8201], 16384)
  {
    Accepted8192(d);
    SelectionStep(d, 8192);
    assert Step(d, 8192) == [2, 3, 5, 7, 11, 13, 17, 19, 23, 29, 31, 37, 67, 131, 257, 521, 1031, 2053, 4099, 8201];
  }

  lemma EvaluateSmall(d: seq<Divisor>)
    requires d == []
    ensures Selection(d, 2) == Selection([2, 3, 5, 7, 11, 13], 9)
  {
    Stage2([]);
    Stage3([2]);
    Stage4([2, 3]);
    Stage5([2, 3, 5]);
    Stage6([2, 3, 5, 7]);
    Stage7([2, 3, 5, 7, 11]);
    Stage8([2, 3, 5, 7, 11, 13]);
  }

  lemma EvaluateMiddle(d: seq<Divisor>)
    requires d == [2, 3, 5, 7, 11, 13]
    ensures Selection(d, 9) == Selection([2, 3, 5, 7, 11, 13, 17, 19, 23, 29], 16)
  {
    Stage9([2, 3, 5, 7, 11, 13]);
    Stage10([2, 3, 5, 7, 11, 13, 17]);
    Stage11([2, 3, 5, 7, 11, 13, 17, 19]);
    Stage12([2, 3, 5, 7, 11, 13, 17, 19]);
    Stage13([2, 3, 5, 7, 11, 13, 17, 19, 23]);
    Stage14([2, 3, 5, 7, 11, 13, 17, 19, 23]);
    Stage15([2, 3, 5, 7, 11, 13, 17, 19, 23]);
  }

  lemma EvaluateDoubling(d: seq<Divisor>)
    requires d == [2, 3, 5, 7, 11, 13, 17, 19, 23, 29]
    ensures Selection(d, 16) == Selection([2, 3, 5, 7, 11, 13, 17, 19, 23, 29, 31, 37, 67, 131, 257], 512)
  {
    Stage16([2, 3, 5, 7, 11, 13, 17, 19, 23, 29]);
    Stage32([2, 3, 5, 7, 11, 13, 17, 19, 23, 29, 31]);
    Stage64([2, 3, 5, 7, 11, 13, 17, 19, 23, 29, 31, 37]);
    Stage128([2, 3, 5, 7, 11, 13, 17, 19, 23, 29, 31, 37, 67]);
    Stage256([2, 3, 5, 7, 11, 13, 17, 19, 23, 29, 31, 37, 67, 131]);
  }

  lemma EvaluateLarge(d: seq<Divisor>)
    requires d == [2, 3, 5, 7, 11, 13, 17, 19, 23, 29, 31, 37, 67, 131, 257]
    ensures Selection(d, 512) == Selection([2, 3, 5, 7, 11, 13, 17, 19, 23, 29, 31, 37, 67, 131, 257, 521, 1031, 2053, 4099, 8201], 16384)
  {
    Stage512([2, 3, 5, 7, 11, 13, 17, 19, 23, 29, 31, 37, 67, 131, 257]);
    Stage1024([2, 3, 5, 7, 11, 13, 17, 19, 23, 29, 31, 37, 67, 131, 257, 521]);
    Stage2048([2, 3, 5, 7, 11, 13, 17, 19, 23, 29, 31, 37, 67, 131, 257, 521, 1031]);
    Stage4096([2, 3, 5, 7, 11, 13, 17, 19, 23, 29, 31, 37, 67, 131, 257, 521, 1031, 2053]);
    Stage8192([2, 3, 5, 7, 11, 13, 17, 19, 23, 29, 31, 37, 67, 131, 257, 521, 1031, 2053, 4099]);
  }

  /** Run from `i = 2`, the loop selects exactly these twenty divisors:
      every divisor of the `SysFreq` list in SystemManager.hpp after
      `Div0001`. */
  lemma SelectionFromTwo(start: int)
    requires start == 2
    ensures Selection([], start) == [2, 3, 5, 7, 11, 13, 17, 19, 23, 29, 31, 37, 67, 131, 257, 521, 1031, 2053, 4099, 8201]
  {
    EvaluateSmall([]);
    EvaluateMiddle([2, 3, 5, 7, 11, 13]);
    EvaluateDoubling([2, 3, 5, 7, 11, 13, 17, 19, 23, 29]);
    EvaluateLarge([2, 3, 5, 7, 11, 13, 17, 19, 23, 29, 31, 37, 67, 131, 257]);
    assert Selection([2, 3, 5, 7, 11, 13, 17, 19, 23, 29, 31, 37, 67, 131, 257, 521, 1031, 2053, 4099, 8201], 16384) == [2, 3, 5, 7, 11, 13, 17, 19, 23, 29, 31, 37, 67, 131, 257, 521, 1031, 2053, 4099, 8201];
  }
}
