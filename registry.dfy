/** `lpg::Registry` (Registry.hpp): registers pointers to the scalar leaves
    of a value under dotted keys, walking aggregates through the `lpg::refl`
    index mapping exactly as written. */
module Registry {
  import opened Wrappers
  import Refl

  /** A registrable value: a scalar convertible to a data unit, identified by
      its address, or an aggregate with its real members in declaration order
      (attribute-list markers included). */
  datatype Value = Scalar(address: nat) | Aggregate(members: seq<Member>)

  /** A real data member of an aggregate. */
  datatype Member = Member(name: string, isAttr: bool, value: Value)

  /** The marker flags of an aggregate's real members. */
  function AttrFlags(members: seq<Member>): (flags: seq<bool>)
    ensures |flags| == |members|
    ensures forall k :: 0 <= k < |members| ==> flags[k] == members[k].isAttr
  {
    seq(|members|, k requires 0 <= k < |members| => members[k].isAttr)
  }

  /** `std::format("{}.{}", key, name)`. */
  function SubKey(key: string, name: string): (r: string)
    ensures |r| > |key| && r[..|key| + 1] == key + "."
  {
    assert (key + "." + name)[..|key| + 1] == key + ".";
    key + "." + name
  }

  predicate HasPrefix(k: string, p: string)
  {
    |p| <= |k| && k[..|p|] == p
  }

  /** The real member the `j`-th `for_each_decl` call reaches through
      `member_name` / `get`: `idx_reduced_to_real` of the reduced index it is
      passed. AS WRITTEN (`intended` false) with the saturating count and the
      largest-match scan of data.hpp; otherwise with the true count, which
      lands on the `j`-th member that is not an attribute list. */
  function CalledMember(ms: seq<Member>, j: nat, intended: bool): (r: nat)
    requires j < |Refl.DeclMembers(AttrFlags(ms), 0)|
    ensures r < |ms|
    ensures intended ==> r == Refl.DeclMembers(AttrFlags(ms), 0)[j] && !ms[r].isAttr
  {
    var flags := AttrFlags(ms);
    var x := Refl.DeclMembers(flags, 0)[j];
    if intended then
      Refl.IntendedRoundTrip(flags, x);
      Refl.IntendedReducedToReal(flags, Refl.IntendedRealToReduced(flags, x)).value
    else
      Refl.ReducedToRealOfDecl(flags, x);
      Refl.IdxReducedToReal(flags, Refl.ForEachDecl(flags)[j]).value
  }

  /** The storage after `registerValue(key, v)`. */
  function Register(storage: map<string, nat>, key: string, v: Value, intended: bool): map<string, nat>
    decreases v, 1
  {
    match v
    case Scalar(a) => storage[key := a]
    case Aggregate(ms) => RegisterFrom(storage, key, v, 0, intended)
  }

  /** The storage after the `for_each_decl` calls from the `j`-th on. */
  function RegisterFrom(storage: map<string, nat>, key: string, v: Value, j: nat, intended: bool): map<string, nat>
    requires v.Aggregate?
    decreases v, 0, |Refl.DeclMembers(AttrFlags(v.members), 0)| - j
  {
    var ms := v.members;
    if j >= |Refl.DeclMembers(AttrFlags(ms), 0)| then storage
    else
      var m := ms[CalledMember(ms, j, intended)];
      RegisterFrom(Register(storage, SubKey(key, m.name), m.value, intended), key, v, j + 1, intended)
  }

  class Registry {
    var storage: map<string, nat>

    constructor()
      ensures storage == map[]
    {
      storage := map[];
    }

    /** Both `registerValue` overloads: a scalar is stored under `key`, an
        aggregate registers each member reached by `for_each_decl` under
        `key.name`. */
    method RegisterValue(key: string, v: Value, intended: bool)
      modifies this
      ensures storage == Register(old(storage), key, v, intended)
      decreases v
    {
      match v
      case Scalar(a) =>
        storage := storage[key := a];
      case Aggregate(ms) =>
        var flags := AttrFlags(ms);
        var calls := Refl.ForEachDecl(flags);
        ghost var start := storage;
        var j := 0;
        while j < |calls|
          invariant 0 <= j <= |calls|
          invariant RegisterFrom(storage, key, v, j, intended) == RegisterFrom(start, key, v, 0, intended)
        {
          var idx := CalledMember(ms, j, intended);
          var m := ms[idx];
          RegisterValue(SubKey(key, m.name), m.value, intended);
          j := j + 1;
        }
    }
  }

  /** Registering writes only `key` itself (for a scalar) or keys strictly
      under `key.` (for an aggregate); every other entry is unchanged. */
  lemma {:induction false} RegisterFrame(storage: map<string, nat>, key: string, v: Value, intended: bool, k: string)
    requires v.Aggregate? ==> !HasPrefix(k, key + ".")
    requires v.Scalar? ==> k != key
    ensures k in Register(storage, key, v, intended) <==> k in storage
    ensures k in storage ==> Register(storage, key, v, intended)[k] == storage[k]
    decreases v, 1
  {
    if v.Aggregate? {
      RegisterFromFrame(storage, key, v, 0, intended, k);
    }
  }

  lemma {:induction false} RegisterFromFrame(storage: map<string, nat>, key: string, v: Value, j: nat, intended: bool, k: string)
    requires v.Aggregate? && !HasPrefix(k, key + ".")
    ensures k in RegisterFrom(storage, key, v, j, intended) <==> k in storage
    ensures k in storage ==> RegisterFrom(storage, key, v, j, intended)[k] == storage[k]
    decreases v, 0, |Refl.DeclMembers(AttrFlags(v.members), 0)| - j
  {
    if j < |Refl.DeclMembers(AttrFlags(v.members), 0)| {
      var m := RegisterFromStep(storage, key, v, j, intended);
      MemberFrame(storage, key, m, intended, k);
      RegisterFromFrame(Register(storage, SubKey(key, m.name), m.value, intended), key, v, j + 1, intended, k);
    }
  }

  /** The `j`-th call registers member `m` of `v` and the rest follow. */
  lemma RegisterFromStep(storage: map<string, nat>, key: string, v: Value, j: nat, intended: bool) returns (m: Member)
    requires v.Aggregate? && j < |Refl.DeclMembers(AttrFlags(v.members), 0)|
    ensures m in v.members && m == v.members[CalledMember(v.members, j, intended)]
    ensures RegisterFrom(storage, key, v, j, intended) ==
            RegisterFrom(Register(storage, SubKey(key, m.name), m.value, intended), key, v, j + 1, intended)
  {
    m := v.members[CalledMember(v.members, j, intended)];
  }

  /** Registering one member of the aggregate at `key` leaves keys outside
      `key.` alone. */
  lemma MemberFrame(storage: map<string, nat>, key: string, m: Member, intended: bool, k: string)
    requires !HasPrefix(k, key + ".")
    ensures k in Register(storage, SubKey(key, m.name), m.value, intended) <==> k in storage
    ensures k in storage ==> Register(storage, SubKey(key, m.name), m.value, intended)[k] == storage[k]
    decreases m.value, 2
  {
    OutsideSubKey(key, m.name, k);
    RegisterFrame(storage, SubKey(key, m.name), m.value, intended, k);
  }

  /** A key outside `key.` is outside every member's subtree. */
  lemma OutsideSubKey(key: string, name: string, k: string)
    requires !HasPrefix(k, key + ".")
    ensures k != SubKey(key, name)
    ensures !HasPrefix(k, SubKey(key, name) + ".")
  {
    var sub := SubKey(key, name);
    assert (sub + ".")[..|key| + 1] == key + ".";
  }

  /** An aggregate never stores anything under its own key. */
  lemma AggregateKeyUntouched(storage: map<string, nat>, key: string, ms: seq<Member>, intended: bool)
    ensures key in Register(storage, key, Aggregate(ms), intended) <==> key in storage
    ensures key in storage ==> Register(storage, key, Aggregate(ms), intended)[key] == storage[key]
  {
    RegisterFrame(storage, key, Aggregate(ms), intended, key);
  }

  /** An attribute-list marker registers nothing. */
  lemma MarkerRegistersNothing(storage: map<string, nat>, key: string, intended: bool)
    ensures Register(storage, key, Aggregate([]), intended) == storage
  {
    assert Refl.DeclMembers(AttrFlags([]), 0) == [];
  }

  /** A scalar member is registered under `key.name` with its address. */
  lemma ScalarStoredAtKey(storage: map<string, nat>, key: string, a: nat, intended: bool)
    ensures key in Register(storage, key, Scalar(a), intended)
    ensures Register(storage, key, Scalar(a), intended)[key] == a
    ensures forall k :: k != key ==> (k in Register(storage, key, Scalar(a), intended) <==> k in storage)
  {
  }

  /** On an aggregate without attribute lists every member is visited at its
      own index, so each scalar member `name` ends up under `key.name`. */
  lemma {:induction false} NoAttrsVisitsOwnMember(ms: seq<Member>, j: nat)
    requires forall k :: 0 <= k < |ms| ==> !ms[k].isAttr
    requires j < |ms|
    ensures j < |Refl.DeclMembers(AttrFlags(ms), 0)|
    ensures CalledMember(ms, j, false) == j
  {
    var flags := AttrFlags(ms);
    Refl.DeclMembersPosition(flags, 0, j);
    Refl.DeclsBetweenCount(flags, j);
    ZeroCount(flags, j - 1);
    assert Refl.DeclMembers(flags, 0)[j] == j;
    var r := CalledMember(ms, j, false);
    assert Refl.IdxRealToReduced(flags, r) == j;
    assert Refl.IdxRealToReduced(flags, r) == r;
  }

  lemma {:induction false} ZeroCount(flags: seq<bool>, n: int)
    requires n < |flags|
    requires forall k :: 0 <= k < |flags| ==> !flags[k]
    ensures Refl.CountAttributesUntil(flags, n) == 0
    decreases if n < 0 then 0 else n + 1
  {
    if n >= 0 {
      ZeroCount(flags, n - 1);
    }
  }

  lemma ExampleCalls(ms: seq<Member>)
    requires |ms| == 3 && !ms[0].isAttr && ms[1].isAttr && !ms[2].isAttr
    ensures |Refl.DeclMembers(AttrFlags(ms), 0)| == 2
    ensures CalledMember(ms, 0, false) == 1 && CalledMember(ms, 1, false) == 2
  {
    var flags := AttrFlags(ms);
    assert flags == [false, true, false];
    Refl.ExampleLookups();
    Refl.ExampleCalls(flags);
    Refl.ExampleDeclMembers();
  }

  /** AS WRITTEN, a struct shaped `{a, ATTR, b}` (as `BaseGameObject`'s
      `{id, LPG_ATTR, ptrWorld, ...}` is) never registers `a`: its reduced
      index 0 maps back to the marker, which registers nothing. */
  lemma FirstMemberDropped(a: nat, b: nat)
    ensures var v := Aggregate([Member("a", false, Scalar(a)),
                                Member("attr", true, Aggregate([])),
                                Member("b", false, Scalar(b))]);
            Register(map[], "k", v, false) == map["k.b" := b]
  {
    var ms := [Member("a", false, Scalar(a)),
               Member("attr", true, Aggregate([])),
               Member("b", false, Scalar(b))];
    ExampleCalls(ms);
    var v := Aggregate(ms);
    MarkerRegistersNothing(map[], "k.attr", false);
    assert SubKey("k", "attr") == "k.attr";
    assert SubKey("k", "b") == "k.b";
    calc {
      Register(map[], "k", v, false);
      RegisterFrom(map[], "k", v, 0, false);
      RegisterFrom(Register(map[], "k.attr", Aggregate([]), false), "k", v, 1, false);
      RegisterFrom(map[], "k", v, 1, false);
      RegisterFrom(Register(map[], "k.b", Scalar(b), false), "k", v, 2, false);
      map["k.b" := b];
    }
  }

  /** With the true attribute count every member that is not an attribute
      list is reached by exactly one `for_each_decl` call. */
  lemma IntendedReachesEveryMember(ms: seq<Member>, x: nat)
    requires x < |ms| && !ms[x].isAttr
    ensures exists j :: 0 <= j < |Refl.DeclMembers(AttrFlags(ms), 0)| && CalledMember(ms, j, true) == x
    ensures forall j, k :: 0 <= j < k < |Refl.DeclMembers(AttrFlags(ms), 0)| ==>
              CalledMember(ms, j, true) != CalledMember(ms, k, true)
  {
    var flags := AttrFlags(ms);
    Refl.DeclMembersOnce(flags, x);
    var j :| 0 <= j < |Refl.DeclMembers(flags, 0)| && Refl.DeclMembers(flags, 0)[j] == x;
    assert CalledMember(ms, j, true) == x;
  }

  lemma IntendedCalls(ms: seq<Member>)
    requires |ms| == 3 && !ms[0].isAttr && ms[1].isAttr && !ms[2].isAttr
    ensures |Refl.DeclMembers(AttrFlags(ms), 0)| == 2
    ensures CalledMember(ms, 0, true) == 0 && CalledMember(ms, 1, true) == 2
  {
    assert AttrFlags(ms) == [false, true, false];
    Refl.ExampleDeclMembers();
  }

  /** Registering member `m` of the aggregate at `key` cannot write `k`. */
  predicate Untouched(key: string, m: Member, k: string)
  {
    (m.value.Aggregate? ==> !HasPrefix(k, SubKey(key, m.name) + ".")) &&
    (m.value.Scalar? ==> k != SubKey(key, m.name))
  }

  /** Every call from the `j`-th on leaves `k` untouched. */
  predicate UntouchedFrom(key: string, v: Value, j: nat, k: string)
    requires v.Aggregate?
  {
    forall i :: j <= i < |Refl.DeclMembers(AttrFlags(v.members), 0)| ==>
      Untouched(key, v.members[CalledMember(v.members, i, true)], k)
  }

  /** Calls from the `j`-th on that all leave `k` untouched keep its entry. */
  lemma {:induction false} RegisterFromKeeps(storage: map<string, nat>, key: string, v: Value, j: nat, k: string)
    requires v.Aggregate? && UntouchedFrom(key, v, j, k)
    requires k in storage
    ensures k in RegisterFrom(storage, key, v, j, true)
    ensures RegisterFrom(storage, key, v, j, true)[k] == storage[k]
    decreases |Refl.DeclMembers(AttrFlags(v.members), 0)| - j
  {
    if j < |Refl.DeclMembers(AttrFlags(v.members), 0)| {
      var m := RegisterFromStep(storage, key, v, j, true);
      assert Untouched(key, m, k);
      RegisterFrame(storage, SubKey(key, m.name), m.value, true, k);
      RegisterFromKeeps(Register(storage, SubKey(key, m.name), m.value, true), key, v, j + 1, k);
    }
  }

  /** If the `j0`-th call registers scalar member `x` and no later call
      touches its key, the run from any `j <= j0` ends with `x`'s address
      under `key.name`. */
  lemma {:induction false} RegisterFromReaches(storage: map<string, nat>, key: string, v: Value, j: nat, j0: nat, a: nat)
    requires v.Aggregate? && j <= j0 < |Refl.DeclMembers(AttrFlags(v.members), 0)|
    requires v.members[CalledMember(v.members, j0, true)].value == Scalar(a)
    requires UntouchedFrom(key, v, j0 + 1, SubKey(key, v.members[CalledMember(v.members, j0, true)].name))
    ensures SubKey(key, v.members[CalledMember(v.members, j0, true)].name) in RegisterFrom(storage, key, v, j, true)
    ensures RegisterFrom(storage, key, v, j, true)[SubKey(key, v.members[CalledMember(v.members, j0, true)].name)] == a
    decreases j0 - j
  {
    var m := RegisterFromStep(storage, key, v, j, true);
    var next := Register(storage, SubKey(key, m.name), m.value, true);
    if j < j0 {
      RegisterFromReaches(next, key, v, j + 1, j0, a);
    } else {
      assert m == v.members[CalledMember(v.members, j0, true)];
      ScalarStoredAtKey(storage, SubKey(key, m.name), a, true);
      RegisterFromKeeps(next, key, v, j + 1, SubKey(key, m.name));
    }
  }

  /** Keys of distinct member names differ. */
  lemma SubKeyInjective(key: string, n1: string, n2: string)
    requires SubKey(key, n1) == SubKey(key, n2)
    ensures n1 == n2
  {
    assert n1 == SubKey(key, n1)[|key| + 1..];
  }

  /** The key of a member whose name has no dot is not inside another
      member's subtree. */
  lemma NotUnderSibling(key: string, n1: string, n2: string)
    requires '.' !in n1
    ensures !HasPrefix(SubKey(key, n1), SubKey(key, n2) + ".")
  {
    var k := SubKey(key, n1);
    var p := SubKey(key, n2) + ".";
    if |p| <= |k| {
      assert k[|p| - 1] == n1[|n2|] && n1[|n2|] in n1;
      assert k[..|p|][|p| - 1] != p[|p| - 1];
    }
  }

  /** With the true attribute count every scalar data member is registered:
      when data members have distinct names without a dot, the scalar member
      `ms[x]` ends up with its address under `key.name`. */
  lemma ScalarMemberStored(storage: map<string, nat>, key: string, ms: seq<Member>, x: nat, a: nat)
    requires x < |ms| && !ms[x].isAttr && ms[x].value == Scalar(a) && '.' !in ms[x].name
    requires forall y :: 0 <= y < |ms| && y != x && !ms[y].isAttr ==> ms[y].name != ms[x].name
    ensures SubKey(key, ms[x].name) in Register(storage, key, Aggregate(ms), true)
    ensures Register(storage, key, Aggregate(ms), true)[SubKey(key, ms[x].name)] == a
  {
    var v := Aggregate(ms);
    var k := SubKey(key, ms[x].name);
    IntendedReachesEveryMember(ms, x);
    var j0 :| 0 <= j0 < |Refl.DeclMembers(AttrFlags(ms), 0)| && CalledMember(ms, j0, true) == x;
    forall i | j0 + 1 <= i < |Refl.DeclMembers(AttrFlags(ms), 0)|
      ensures Untouched(key, ms[CalledMember(ms, i, true)], k)
    {
      var y := CalledMember(ms, i, true);
      assert y != x;
      NotUnderSibling(key, ms[x].name, ms[y].name);
      if k == SubKey(key, ms[y].name) {
        SubKeyInjective(key, ms[x].name, ms[y].name);
      }
    }
    RegisterFromReaches(storage, key, v, 0, j0, a);
  }

  /** With the true attribute count the same struct registers both scalar
      members under their own names, and nothing for the marker. */
  lemma BothMembersRegistered(a: nat, b: nat)
    ensures var v := Aggregate([Member("a", false, Scalar(a)),
                                Member("attr", true, Aggregate([])),
                                Member("b", false, Scalar(b))]);
            Register(map[], "k", v, true) == map["k.a" := a, "k.b" := b]
  {
    var ms := [Member("a", false, Scalar(a)),
               Member("attr", true, Aggregate([])),
               Member("b", false, Scalar(b))];
    var v := Aggregate(ms);
    IntendedCalls(ms);
    assert SubKey("k", "a") == "k.a";
    assert SubKey("k", "b") == "k.b";
    var m1 := map["k.a" := a];
    var m2 := map["k.a" := a, "k.b" := b];
    assert RegisterFrom(m2, "k", v, 2, true) == m2;
    assert RegisterFrom(m1, "k", v, 1, true) == RegisterFrom(m2, "k", v, 2, true);
    assert RegisterFrom(map[], "k", v, 0, true) == RegisterFrom(m1, "k", v, 1, true);
  }
}
