/** The index mapping of `lpg::refl` (data.hpp). `LPG_ATTR(...)` inserts an
    empty marker member (an attribute list) before the member it annotates, so
    a struct has more real members than it appears to have. A struct's real
    members are described by `isAttr`: `isAttr[k]` holds when real member `k`
    is such a marker. Template instantiations that fail to compile are `None`. */
module Refl {
  import opened Wrappers

  function BoolToInt(b: bool): int {
    if b then 1 else 0
  }

  /** `is_member_attr_list<N>`: whether real member `N` carries the
      attribute-list tag. Where there is no member `N` the `requires`
      expression does not hold, so the answer is false. */
  predicate IsAttr(isAttr: seq<bool>, n: int): (r: bool)
    ensures !(0 <= n < |isAttr|) ==> !r
    ensures 0 <= n < |isAttr| ==> (r <==> isAttr[n])
  {
    0 <= n < |isAttr| && isAttr[n]
  }

  /** `num_attributes_until<N>`, AS WRITTEN: its return type is `bool`, so
      `is_attr(N) + num_attributes_until<N-1>` is converted back to `bool` and
      the "count" saturates at 1.
      The saturated count is 1 exactly when some member in `0..n` is an
      attribute list. */
  function NumAttributesUntil(isAttr: seq<bool>, n: int): (r: bool)
    requires n < |isAttr|
    ensures r <==> exists k :: 0 <= k <= n && isAttr[k]
    decreases if n < 0 then 0 else n + 1
  {
    if n < 0 then false
    else
      var rest := NumAttributesUntil(isAttr, n - 1);
      assert IsAttr(isAttr, n) ==> 0 <= n <= n && isAttr[n];
      IsAttr(isAttr, n) || rest
  }

  /** `idx_real_to_reduced<N>`: `N - num_attributes_until<N>`. */
  function IdxRealToReduced(isAttr: seq<bool>, n: nat): (r: int)
    requires n < |isAttr|
    ensures n - 1 <= r <= n
    ensures r == n <==> forall k :: 0 <= k <= n ==> !isAttr[k]
  {
    n - BoolToInt(NumAttributesUntil(isAttr, n))
  }

  /** `num_non_attr_members`: `size - num_attributes_until<size - 1>`. */
  function NumNonAttrMembers(isAttr: seq<bool>): (r: int)
    ensures |isAttr| - 1 <= r <= |isAttr|
    ensures r == |isAttr| <==> forall k :: 0 <= k < |isAttr| ==> !isAttr[k]
  {
    |isAttr| - BoolToInt(NumAttributesUntil(isAttr, |isAttr| - 1))
  }

  /** `idx_reduced_to_real_impl<N, X>`: scans `X, X-1, ...` for a real index
      whose reduced index is `n`; below 0 the `requires (X >= 0)` constraint
      fails and the program does not compile (`None`). */
  function IdxReducedToRealImpl(isAttr: seq<bool>, n: int, x: int): (r: Option<nat>)
    requires x < |isAttr|
    ensures r.Some? ==> r.value <= x && IdxRealToReduced(isAttr, r.value) == n
    ensures r.Some? ==> forall y :: r.value < y <= x ==> IdxRealToReduced(isAttr, y) != n
    ensures r.None? <==> forall y :: 0 <= y <= x ==> IdxRealToReduced(isAttr, y) != n
    decreases if x < 0 then 0 else x + 1
  {
    if x < 0 then None
    else if IdxRealToReduced(isAttr, x) == n then Some(x)
    else IdxReducedToRealImpl(isAttr, n, x - 1)
  }

  /** `idx_reduced_to_real<N>`, defined for `N < num_non_attr_members`: the
      LARGEST real index whose reduced index is `n`, or no instantiation. The
      constraint compares `int` with `size_t`, so a negative `N` converts to
      a huge value and fails it. */
  function IdxReducedToReal(isAttr: seq<bool>, n: int): (r: Option<nat>)
    requires n < NumNonAttrMembers(isAttr)
    ensures n < 0 ==> r.None?
    ensures r.Some? ==> r.value < |isAttr| && IdxRealToReduced(isAttr, r.value) == n
    ensures r.Some? ==> forall y :: r.value < y < |isAttr| ==> IdxRealToReduced(isAttr, y) != n
    ensures r.None? <==> n < 0 || forall y :: 0 <= y < |isAttr| ==> IdxRealToReduced(isAttr, y) != n
  {
    if n < 0 then None else IdxReducedToRealImpl(isAttr, n, |isAttr| - 1)
  }

  /** For a member that is not an attribute list, mapping its real index to
      the reduced one and back always instantiates, and lands on it or on a
      later real index. */
  lemma ReducedToRealOfDecl(isAttr: seq<bool>, x: nat)
    requires x < |isAttr| && !isAttr[x]
    ensures IdxRealToReduced(isAttr, x) < NumNonAttrMembers(isAttr)
    ensures IdxReducedToReal(isAttr, IdxRealToReduced(isAttr, x)).Some?
    ensures x <= IdxReducedToReal(isAttr, IdxRealToReduced(isAttr, x)).value
  {
    var r := IdxRealToReduced(isAttr, x);
    if r == x && exists k :: 0 <= k < |isAttr| && isAttr[k] {
      var k :| 0 <= k < |isAttr| && isAttr[k];
      assert k > x;
      assert x < |isAttr| - 1;
    }
  }

  /** `has_attributes<N>`: false when the real index is 0, otherwise whether
      the real member just before it is an attribute list. */
  function HasAttributes(isAttr: seq<bool>, n: int): (r: Option<bool>)
    requires n < NumNonAttrMembers(isAttr)
    ensures r.None? <==> IdxReducedToReal(isAttr, n).None?
    ensures r.Some? ==> (r.value <==> IdxReducedToReal(isAttr, n).value > 0 &&
                                      isAttr[IdxReducedToReal(isAttr, n).value - 1])
  {
    match IdxReducedToReal(isAttr, n)
    case None => None
    case Some(idx) => Some(if idx == 0 then false else isAttr[idx - 1])
  }

  /** A negative reduced index instantiates neither mapping, even where some
      real index would reduce to it (a leading marker reduces to -1). */
  lemma NegativeIndexRejected()
    ensures IdxRealToReduced([true, false], 0) == -1
    ensures IdxReducedToReal([true, false], -1).None?
    ensures HasAttributes([true, false], -1).None?
  {
    assert NumAttributesUntil([true, false], 0);
  }

  /** The real indices `for_each_decl` visits, from `from` on: the members
      that are not attribute lists, ascending. */
  function DeclMembers(isAttr: seq<bool>, from: nat): (r: seq<nat>)
    requires from <= |isAttr|
    ensures forall j :: 0 <= j < |r| ==> from <= r[j] < |isAttr| && !isAttr[r[j]]
    decreases |isAttr| - from
  {
    if from == |isAttr| then []
    else if isAttr[from] then DeclMembers(isAttr, from + 1)
    else [from] + DeclMembers(isAttr, from + 1)
  }

  /** `for_each_decl<T>(fn)`: the arguments of the calls to `fn`, in order:
      one call per real member that is not an attribute list, passing that
      member's `idx_real_to_reduced`. */
  function ForEachDecl(isAttr: seq<bool>): (calls: seq<int>)
    ensures |calls| == |DeclMembers(isAttr, 0)|
    ensures forall j :: 0 <= j < |calls| ==>
              calls[j] == IdxRealToReduced(isAttr, DeclMembers(isAttr, 0)[j])
  {
    var members := DeclMembers(isAttr, 0);
    seq(|members|, j requires 0 <= j < |members| => IdxRealToReduced(isAttr, members[j]))
  }

  /** The visited real indices ascend strictly. */
  lemma {:induction false} DeclMembersAscending(isAttr: seq<bool>, from: nat)
    requires from <= |isAttr|
    ensures forall j, k :: 0 <= j < k < |DeclMembers(isAttr, from)| ==>
              DeclMembers(isAttr, from)[j] < DeclMembers(isAttr, from)[k]
    decreases |isAttr| - from
  {
    if from < |isAttr| {
      DeclMembersAscending(isAttr, from + 1);
      var rest := DeclMembers(isAttr, from + 1);
      if !isAttr[from] {
        var m := DeclMembers(isAttr, from);
        assert m == [from] + rest;
        forall j, k | 0 <= j < k < |m|
          ensures m[j] < m[k]
        {
          if j > 0 {
            assert m[j] == rest[j - 1] && m[k] == rest[k - 1];
          } else {
            assert m[k] == rest[k - 1];
          }
        }
      }
    }
  }

  /** Each member that is not an attribute list is visited exactly once. */
  lemma DeclMembersOnce(isAttr: seq<bool>, x: nat)
    requires x < |isAttr| && !isAttr[x]
    ensures exists j :: 0 <= j < |DeclMembers(isAttr, 0)| && DeclMembers(isAttr, 0)[j] == x
    ensures forall j, k :: 0 <= j < k < |DeclMembers(isAttr, 0)| ==>
              DeclMembers(isAttr, 0)[j] != DeclMembers(isAttr, 0)[k]
  {
    DeclMembersPosition(isAttr, 0, x);
    DeclMembersAscending(isAttr, 0);
  }

  // ---------------------------------------------------------------------
  // The mapping as evidently intended: a true attribute count.

  /** The number of attribute lists among real members `0..n`. */
  function CountAttributesUntil(isAttr: seq<bool>, n: int): (r: nat)
    requires n < |isAttr|
    ensures r <= if n < 0 then 0 else n + 1
    decreases if n < 0 then 0 else n + 1
  {
    if n < 0 then 0 else BoolToInt(isAttr[n]) + CountAttributesUntil(isAttr, n - 1)
  }

  /** The saturated `bool` agrees with the true count only on whether it is
      zero. */
  lemma {:induction false} SaturatedCountIsNonZero(isAttr: seq<bool>, n: int)
    requires n < |isAttr|
    ensures NumAttributesUntil(isAttr, n) <==> CountAttributesUntil(isAttr, n) > 0
    decreases if n < 0 then 0 else n + 1
  {
    if n >= 0 {
      SaturatedCountIsNonZero(isAttr, n - 1);
    }
  }

  /** The reduced index of real member `n`: the number of real members before
      it that are not attribute lists. */
  function IntendedRealToReduced(isAttr: seq<bool>, n: nat): (r: int)
    requires n < |isAttr|
  {
    n - CountAttributesUntil(isAttr, n)
  }

  /** The real index of the `n`-th member that is not an attribute list. */
  function IntendedReducedToReal(isAttr: seq<bool>, n: nat): (r: Option<nat>)
    ensures r.Some? ==> r.value < |isAttr| && !isAttr[r.value]
    ensures r.None? <==> n >= |DeclMembers(isAttr, 0)|
  {
    var members := DeclMembers(isAttr, 0);
    if n < |members| then Some(members[n]) else None
  }

  /** The number of members in `from..x-1` that are not attribute lists. */
  function DeclsBetween(isAttr: seq<bool>, from: nat, x: nat): (r: nat)
    requires from <= x <= |isAttr|
    ensures r <= x - from
    decreases x - from
  {
    if x == from then 0 else DeclsBetween(isAttr, from, x - 1) + BoolToInt(!isAttr[x - 1])
  }

  lemma {:induction false} DeclsBetweenFront(isAttr: seq<bool>, from: nat, x: nat)
    requires from < x <= |isAttr|
    ensures DeclsBetween(isAttr, from, x) == BoolToInt(!isAttr[from]) + DeclsBetween(isAttr, from + 1, x)
    decreases x - from
  {
    if x > from + 1 {
      DeclsBetweenFront(isAttr, from, x - 1);
    }
  }

  /** Member `x` sits in the visit order after exactly the visited members
      before it. */
  lemma {:induction false} DeclMembersPosition(isAttr: seq<bool>, from: nat, x: nat)
    requires from <= x < |isAttr| && !isAttr[x]
    ensures DeclsBetween(isAttr, from, x) < |DeclMembers(isAttr, from)|
    ensures DeclMembers(isAttr, from)[DeclsBetween(isAttr, from, x)] == x
    decreases x - from
  {
    var rest := DeclMembers(isAttr, from + 1);
    if from < x {
      DeclMembersPosition(isAttr, from + 1, x);
      DeclsBetweenFront(isAttr, from, x);
      var p := DeclsBetween(isAttr, from + 1, x);
      if isAttr[from] {
        assert DeclMembers(isAttr, from) == rest;
      } else {
        assert DeclMembers(isAttr, from) == [from] + rest;
        assert ([from] + rest)[p + 1] == rest[p];
      }
    } else {
      assert DeclMembers(isAttr, from) == [from] + rest;
    }
  }

  /** Below `x`, the visited members and the attribute lists add up to `x`. */
  lemma {:induction false} DeclsBetweenCount(isAttr: seq<bool>, x: nat)
    requires x <= |isAttr|
    ensures DeclsBetween(isAttr, 0, x) == x - CountAttributesUntil(isAttr, x - 1)
  {
    if x > 0 {
      DeclsBetweenCount(isAttr, x - 1);
    }
  }

  /** With a true count, mapping a member's real index to its reduced index
      and back returns the member itself. */
  lemma IntendedRoundTrip(isAttr: seq<bool>, x: nat)
    requires x < |isAttr| && !isAttr[x]
    ensures IntendedRealToReduced(isAttr, x) >= 0
    ensures IntendedReducedToReal(isAttr, IntendedRealToReduced(isAttr, x)) == Some(x)
  {
    DeclMembersPosition(isAttr, 0, x);
    DeclsBetweenCount(isAttr, x);
  }

  /** AS WRITTEN, two attribute lists count as one: for `{ATTR, a, ATTR, b}`
      member `b` (real 3) gets reduced index 2 instead of 1. */
  lemma SaturationExample()
    ensures var isAttr := [true, false, true, false];
            CountAttributesUntil(isAttr, 3) == 2 &&
            NumAttributesUntil(isAttr, 3) &&
            IdxRealToReduced(isAttr, 3) == 2 &&
            IntendedRealToReduced(isAttr, 3) == 1
  {
  }

  /** AS WRITTEN, for `{a, ATTR, b}` reduced index 0 maps to real index 1,
      the marker, because the scan returns the largest match; member `a`
      (real 0) is never reached. The intended mapping gives 0. */
  lemma ReducedToRealHitsMarker()
    ensures var isAttr := [false, true, false];
            NumNonAttrMembers(isAttr) == 2 &&
            DeclMembers(isAttr, 0) == [0, 2] &&
            |ForEachDecl(isAttr)| == 2 &&
            ForEachDecl(isAttr)[0] == 0 && ForEachDecl(isAttr)[1] == 1 &&
            IdxReducedToReal(isAttr, 0) == Some(1) && isAttr[1] &&
            IdxReducedToReal(isAttr, 1) == Some(2) &&
            IntendedReducedToReal(isAttr, 0) == Some(0)
  {
    var isAttr := [false, true, false];
    ExampleLookups();
    ExampleCalls(isAttr);
    ExampleDeclMembers();
  }

  lemma ExampleLookups()
    ensures NumNonAttrMembers([false, true, false]) == 2
    ensures IdxReducedToReal([false, true, false], 0) == Some(1)
    ensures IdxReducedToReal([false, true, false], 1) == Some(2)
  {
    var isAttr := [false, true, false];
    ExampleReduced();
    assert NumAttributesUntil(isAttr, 2);
    assert IdxReducedToRealImpl(isAttr, 0, 1) == Some(1);
    assert IdxReducedToRealImpl(isAttr, 0, 2) == Some(1);
    assert IdxReducedToRealImpl(isAttr, 1, 2) == Some(2);
  }

  lemma ExampleCalls(isAttr: seq<bool>)
    requires isAttr == [false, true, false]
    ensures |ForEachDecl(isAttr)| == 2
    ensures ForEachDecl(isAttr)[0] == 0 && ForEachDecl(isAttr)[1] == 1
  {
    ExampleDeclMembers();
    ExampleReduced();
  }

  lemma ExampleReduced()
    ensures var isAttr := [false, true, false];
            IdxRealToReduced(isAttr, 0) == 0 &&
            IdxRealToReduced(isAttr, 1) == 0 &&
            IdxRealToReduced(isAttr, 2) == 1
  {
    var isAttr := [false, true, false];
    assert NumAttributesUntil(isAttr, 0) == false;
    assert NumAttributesUntil(isAttr, 1);
    assert NumAttributesUntil(isAttr, 2);
  }

  lemma ExampleDeclMembers()
    ensures DeclMembers([false, true, false], 0) == [0, 2]
  {
    var isAttr := [false, true, false];
    assert DeclMembers(isAttr, 3) == [];
    assert DeclMembers(isAttr, 2) == [2];
    assert DeclMembers(isAttr, 1) == [2];
  }
}
