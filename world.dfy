/** `lpg::World` (src/lpg/core/World.cpp): entity types, the pages that
    store their entities, and the per-type pool of pages taken for new
    entities. Addresses are byte offsets into one page's buffer; the
    type-erased calls through an `EntityInterface` (`destroy`, `move`,
    `swap`, a message handler, the `forEachEntity` callback) are recorded,
    in order, in a ghost log of events. */
module Worlds {
  import opened Wrappers
  import opened Bits
  import opened EntityPages
  import Vec

  // ---------------------------------------------------------------------
  // Entity descriptors

  const TwoTo31: int := 0x8000_0000
  const TwoTo32: int := 0x1_0000_0000

  /** Conversion of a 32-bit value to `uint32_t`. */
  function ToUnsigned(x: int): (u: int)
    ensures 0 <= u < TwoTo32
    ensures -TwoTo31 <= x < 0 ==> u == x + TwoTo32
    ensures 0 <= x < TwoTo32 ==> u == x
  {
    x % TwoTo32
  }

  /** `static_cast<int32_t>` of an unsigned 32-bit value, which wraps. */
  function ToInt32(u: int): (x: int)
    requires 0 <= u < TwoTo32
    ensures -TwoTo31 <= x < TwoTo31
    ensures ToUnsigned(x) == u
  {
    if u < TwoTo31 then u else u - TwoTo32
  }

  /** `DecomposeEntityDescriptor`'s result. */
  datatype Decomposed = Decomposed(page: int, offset: int)

  /** `DecomposeEntityDescriptor`: the descriptor, converted to unsigned,
      split into page number and slot. */
  function DecomposeEntityDescriptor(ed: int): (r: Decomposed)
    ensures 0 <= r.offset < EntityPageSize && 0 <= r.page < TwoTo32 / EntityPageSize
    ensures r.page * EntityPageSize + r.offset == ToUnsigned(ed)
  {
    Decomposed(ToUnsigned(ed) / EntityPageSize, ToUnsigned(ed) % EntityPageSize)
  }

  /** The descriptor `World::reserveEntity` hands out:
      `static_cast<int32_t>(pageId * EntityPageSize + offset)`, computed in
      unsigned 32-bit arithmetic because `EntityPageSize` is unsigned. */
  function ComposeEntityDescriptor(pageId: int, offset: int): (ed: int)
    ensures -TwoTo31 <= ed < TwoTo31
    ensures ToUnsigned(ed) == (pageId * EntityPageSize + offset) % TwoTo32
  {
    ToInt32((pageId * EntityPageSize + offset) % TwoTo32)
  }

  /** Descriptors of pages below `2^24` decompose into the page and slot they
      were built from, even when the signed cast wraps. */
  lemma DescriptorRoundTrip(pageId: int, offset: int)
    requires 0 <= pageId < TwoTo32 / EntityPageSize && 0 <= offset < EntityPageSize
    ensures DecomposeEntityDescriptor(ComposeEntityDescriptor(pageId, offset)) == Decomposed(pageId, offset)
  {
    var u := pageId * EntityPageSize + offset;
    assert u < TwoTo32;
    assert u % TwoTo32 == u;
    assert ToUnsigned(ComposeEntityDescriptor(pageId, offset)) == u;
  }

  // ---------------------------------------------------------------------
  // Entity types and events

  /** An `embeddedComponents` entry of an interface: the component's entity
      type and its byte offset within the entity. */
  datatype ComponentRef = ComponentRef(entityTypeId: int, offset: int)

  /** `EntityInterface`: the entity's size, its embedded components, and
      which message types it handles (`sendMessage[id]` non-null). */
  datatype EntityInterface = EntityInterface(entitySize: nat, embeddedComponents: seq<ComponentRef>, sendMessage: seq<bool>)

  /** A value-initialised `EntityInterface`. */
  const DefaultInterface := EntityInterface(0, [], [])

  /** `WorldData::ComponentInfo`. */
  datatype ComponentInfo = ComponentInfo(pageId: int, componentOffset: int)

  /** An address: a byte offset into a page's buffer. */
  datatype Addr = Addr(page: int, offset: int)

  /** A type-erased call, naming the index of the interface it went
      through. */
  datatype Event =
    | PreKill(interfaceIndex: int, descriptor: int, entity: Addr)
    | Destroy(interfaceIndex: int, entity: Addr)
    | Move(interfaceIndex: int, dst: Addr, src: Addr)
    | Swap(interfaceIndex: int, dst: Addr, src: Addr)
    | Visit(begin: Addr, end: Addr)

  /** The exceptions the world throws, and undefined behaviour. */
  datatype WorldError =
    | TypeAlreadyRegistered(name: string)
    | InitFinalized
    | PagesIncompatible
    | InvalidRelocation
    | SwapWithEmpty
    | OutOfRange
    | UndefinedBehaviour

  /** `detail::ReserveEntityResult`. */
  datatype ReserveEntityResult = ReserveEntityResult(entity: Addr, descriptor: int)

  /** `entityPagesByComponentType_` after a new page `pageId` records one
      entry for each embedded component, in order. */
  function AddComponentPages(lists: seq<seq<ComponentInfo>>, comps: seq<ComponentRef>, pageId: int): (r: seq<seq<ComponentInfo>>)
    requires forall k :: 0 <= k < |comps| ==> 0 <= comps[k].entityTypeId < |lists|
    ensures |r| == |lists|
    ensures forall t :: 0 <= t < |lists| ==> |lists[t]| <= |r[t]| && r[t][..|lists[t]|] == lists[t]
    ensures forall t, j :: 0 <= t < |lists| && |lists[t]| <= j < |r[t]| ==> r[t][j].pageId == pageId
  {
    if comps == [] then lists
    else
      var prev := AddComponentPages(lists, comps[..|comps| - 1], pageId);
      var c := comps[|comps| - 1];
      prev[c.entityTypeId := prev[c.entityTypeId] + [ComponentInfo(pageId, c.offset)]]
  }

  // A `std::set<int>` is held as its elements in ascending order, the order
  // it iterates in (`Ascending`).

  /** Removing the first element of an ascending sequence. */
  lemma AscendingTail(s: seq<int>)
    requires Ascending(s) && s != []
    ensures Ascending(s[1..])
    ensures forall y :: y in s[1..] ==> s[0] < y
    ensures forall y :: y in s <==> y == s[0] || y in s[1..]
  {
    assert s == [s[0]] + s[1..];
  }

  /** Putting a smaller element in front of an ascending sequence. */
  lemma AscendingCons(h: int, t: seq<int>)
    requires Ascending(t)
    requires forall y :: y in t ==> h < y
    ensures Ascending([h] + t)
  {
    assert forall j :: 0 <= j < |t| ==> t[j] in t;
  }

  /** `std::set::insert`. */
  function SetInsert(s: seq<int>, x: int): (r: seq<int>)
    requires Ascending(s)
    ensures Ascending(r)
    ensures forall y :: y in r <==> y in s || y == x
  {
    if s == [] then [x]
    else
      AscendingTail(s);
      if x < s[0] then
        AscendingCons(x, s);
        [x] + s
      else if x == s[0] then s
      else
        var rest := SetInsert(s[1..], x);
        AscendingCons(s[0], rest);
        [s[0]] + rest
  }

  /** `std::set::erase` of a key. */
  function SetErase(s: seq<int>, x: int): (r: seq<int>)
    requires Ascending(s)
    ensures Ascending(r)
    ensures forall y :: y in r <==> y in s && y != x
  {
    if s == [] then []
    else
      AscendingTail(s);
      if s[0] == x then s[1..]
      else
        var rest := SetErase(s[1..], x);
        AscendingCons(s[0], rest);
        [s[0]] + rest
  }

  /** The first element of an ascending sequence is its least. */
  lemma AscendingFirstLeast(s: seq<int>, y: int)
    requires Ascending(s) && y in s
    ensures s[0] <= y
  {
  }

  // ---------------------------------------------------------------------
  // The world's invariant, over the page types and bitmaps

  /** Page `p` exists and holds entities of type `t`. */
  ghost predicate PageOfType(types: seq<int>, p: int, t: int)
  {
    0 <= p < |types| && types[p] == t
  }

  /** Page `p` exists and has a free slot. */
  ghost predicate HasRoom(occupied: seq<seq<bool>>, p: int)
  {
    0 <= p < |occupied| && Count(occupied[p]) < EntityPageSize
  }

  /** The structure of the world's tables, given each page's type:
      - every page's type has its per-type tables, and those grow together;
      - `entityPagesByType_[t]` lists the pages of type `t`, ascending;
      - component entries name existing pages;
      - each free pool is a set of pages of its type. */
  ghost predicate Shape(types: seq<int>, byType: seq<seq<int>>, byComp: seq<seq<ComponentInfo>>, free: seq<seq<int>>)
  {
    (forall i :: 0 <= i < |types| ==> 0 <= types[i] < |free|) &&
    |byType| == |free| == |byComp| &&
    (forall t :: 0 <= t < |byType| ==> Ascending(byType[t])) &&
    (forall t, p :: 0 <= t < |byType| ==> (p in byType[t] <==> PageOfType(types, p, t))) &&
    (forall t, k :: 0 <= t < |byComp| && 0 <= k < |byComp[t]| ==> 0 <= byComp[t][k].pageId < |types|) &&
    (forall t :: 0 <= t < |free| ==> Ascending(free[t])) &&
    (forall t, p :: 0 <= t < |free| && p in free[t] ==> PageOfType(types, p, t))
  }

  /** The pages listed for type `t`, and those its component entries name,
      exist. */
  lemma ShapeIndices(types: seq<int>, byType: seq<seq<int>>, byComp: seq<seq<ComponentInfo>>, free: seq<seq<int>>, t: int)
    requires Shape(types, byType, byComp, free) && 0 <= t < |byType|
    ensures forall k :: 0 <= k < |byType[t]| ==> 0 <= byType[t][k] < |types|
    ensures forall k :: 0 <= k < |byComp[t]| ==> 0 <= byComp[t][k].pageId < |types|
  {
    forall k | 0 <= k < |byType[t]|
      ensures 0 <= byType[t][k] < |types|
    {
      assert byType[t][k] in byType[t];
    }
  }

  /** The free pool of each type holds exactly its pages with a free slot,
      which is what `reserveEntity` and `despawnEntity` maintain between
      them. */
  ghost predicate PoolsExact(types: seq<int>, occupied: seq<seq<bool>>, free: seq<seq<int>>)
  {
    forall t, p :: 0 <= t < |free| ==> (p in free[t] <==> PageOfType(types, p, t) && HasRoom(occupied, p))
  }

  /** The pool of type `t` exists and is not empty. */
  predicate HasPooled(free: seq<seq<int>>, t: int)
  {
    0 <= t < |free| && free[t] != []
  }

  /** Every embedded component names a component table among the first
      `n`; `createNewPage` indexes them with `operator[]`. */
  predicate ComponentsFit(comps: seq<ComponentRef>, n: int)
  {
    forall k :: 0 <= k < |comps| ==> 0 <= comps[k].entityTypeId < n
  }

  /** A bitmap with no slot occupied. */
  function EmptyBitmap(): (s: seq<bool>)
    ensures |s| == EntityPageSize && Count(s) == 0
  {
    var s := seq(EntityPageSize, _ => false);
    CountExtremes(s);
    s
  }

  /** `createNewPage`'s table updates keep the shape and the pools exact:
      the new page `|types|`, empty and of type `t`, joins its type's list
      and pool, and its components' tables. */
  lemma {:induction false} NewPageKeepsShape(types: seq<int>, occupied: seq<seq<bool>>,
                          byType: seq<seq<int>>, byComp: seq<seq<ComponentInfo>>, free: seq<seq<int>>,
                          t: nat, comps: seq<ComponentRef>)
    requires Shape(types, byType, byComp, free) && PoolsExact(types, occupied, free)
    requires |occupied| == |types|
    requires ComponentsFit(comps, |Vec.ResizedFor(byComp, t, [])|)
    ensures Ascending(Vec.ResizedFor(free, t, [])[t])
    ensures var id := |types|;
      var bt := Vec.ResizedFor(byType, t, []);
      var fr := Vec.ResizedFor(free, t, []);
      Shape(types + [t], bt[t := bt[t] + [id]],
            AddComponentPages(Vec.ResizedFor(byComp, t, []), comps, id), fr[t := SetInsert(fr[t], id)]) &&
      PoolsExact(types + [t], occupied + [EmptyBitmap()], fr[t := SetInsert(fr[t], id)])
  {
    var id := |types|;
    var types' := types + [t];
    var occupied' := occupied + [EmptyBitmap()];
    var bt := Vec.ResizedFor(byType, t, []);
    var fr := Vec.ResizedFor(free, t, []);
    var bc := Vec.ResizedFor(byComp, t, []);
    var byType' := bt[t := bt[t] + [id]];
    assert Ascending(fr[t]) by {
      if t < |free| { assert fr[t] == free[t]; }
    }
    var free' := fr[t := SetInsert(fr[t], id)];
    var byComp': seq<seq<ComponentInfo>> := AddComponentPages(bc, comps, id);
    assert forall p, t' :: PageOfType(types', p, t') <==> PageOfType(types, p, t') || (p == id && t' == t);
    assert forall p :: HasRoom(occupied', p) <==> HasRoom(occupied, p) || p == id;
    // No existing page has a type whose tables are new.
    assert forall p, t' :: |free| <= t' && PageOfType(types, p, t') ==> false;
    forall t' | 0 <= t' < |byType'|
      ensures Ascending(byType'[t'])
      ensures forall p :: p in byType'[t'] <==> PageOfType(types', p, t')
    {
      if t' == t {
        assert forall p :: p in bt[t] ==> p < id;
        assert forall j :: 0 <= j < |bt[t]| ==> bt[t][j] in bt[t];
      }
    }
    forall t', k | 0 <= t' < |byComp'| && 0 <= k < |byComp'[t']|
      ensures 0 <= byComp'[t'][k].pageId < |types'|
    {
      if k < |bc[t']| {
        assert byComp'[t'][..|bc[t']|] == bc[t'];
        assert byComp'[t'][k] == bc[t'][k];
      }
    }
  }

  /** The loop of `createNewPage` over the interface's embedded components:
      each appends the new page and the component's offset to the table of
      the component's type. */
  method RecordComponentPages(lists: seq<seq<ComponentInfo>>, comps: seq<ComponentRef>, pageId: int) returns (r: seq<seq<ComponentInfo>>)
    requires ComponentsFit(comps, |lists|)
    ensures r == AddComponentPages(lists, comps, pageId)
  {
    r := lists;
    var k := 0;
    while k < |comps|
      invariant 0 <= k <= |comps|
      invariant r == AddComponentPages(lists, comps[..k], pageId)
    {
      var c := comps[k];
      assert comps[..k + 1][..k] == comps[..k];
      r := r[c.entityTypeId := r[c.entityTypeId] + [ComponentInfo(pageId, c.offset)]];
      k := k + 1;
    }
    assert comps[..k] == comps;
  }

  /** Replacing the pool of type `t` by another ascending set of pages of
      that type keeps the shape. */
  lemma PoolUpdateKeepsShape(types: seq<int>, byType: seq<seq<int>>, byComp: seq<seq<ComponentInfo>>,
                             free: seq<seq<int>>, t: int, pool: seq<int>)
    requires Shape(types, byType, byComp, free) && 0 <= t < |free|
    requires Ascending(pool) && forall p :: p in pool ==> PageOfType(types, p, t)
    ensures Shape(types, byType, byComp, free[t := pool])
  {
  }

  /** Occupying the clear slot `o` of page `p`: the page leaves its type's
      pool exactly when that fills it, and every other pool is unaffected. */
  lemma {:induction false} ReserveKeepsPools(types: seq<int>, occupied: seq<seq<bool>>, free: seq<seq<int>>, p: int, o: nat)
    requires PoolsExact(types, occupied, free) && |occupied| == |types|
    requires 0 <= p < |types| && 0 <= types[p] < |free| && Ascending(free[types[p]])
    requires |occupied[p]| == EntityPageSize && o < EntityPageSize && !occupied[p][o]
    ensures var bitmap := occupied[p][o := true];
      var t := types[p];
      PoolsExact(types, occupied[p := bitmap],
                 if Count(bitmap) == EntityPageSize then free[t := SetErase(free[t], p)] else free)
  {
    var bitmap := occupied[p][o := true];
    CountUpdate(occupied[p], o, true);
    var occ := occupied[p := bitmap];
    assert forall q :: q != p ==> HasRoom(occ, q) == HasRoom(occupied, q);
  }

  /** Clearing the occupied slot `o` of page `p`: the page rejoins its
      type's pool when that leaves exactly one slot free, which is when it
      was full. */
  lemma {:induction false} ReleaseKeepsPools(types: seq<int>, occupied: seq<seq<bool>>, free: seq<seq<int>>, p: int, o: nat)
    requires PoolsExact(types, occupied, free) && |occupied| == |types|
    requires 0 <= p < |types| && 0 <= types[p] < |free| && Ascending(free[types[p]])
    requires |occupied[p]| == EntityPageSize && o < EntityPageSize && occupied[p][o]
    ensures Count(occupied[p][o := false]) == EntityPageSize - 1 <==> Count(occupied[p]) == EntityPageSize
    ensures var bitmap := occupied[p][o := false];
      var t := types[p];
      PoolsExact(types, occupied[p := bitmap],
                 if Count(bitmap) == EntityPageSize - 1 then free[t := SetInsert(free[t], p)] else free)
  {
    var bitmap := occupied[p][o := false];
    CountUpdate(occupied[p], o, false);
    var occ := occupied[p := bitmap];
    assert forall q :: q != p ==> HasRoom(occ, q) == HasRoom(occupied, q);
  }

  /** The first page of a pool is the lowest-numbered page of its type with
      a free slot. */
  lemma PoolFirstIsLowest(types: seq<int>, occupied: seq<seq<bool>>, free: seq<seq<int>>, t: int)
    requires PoolsExact(types, occupied, free) && HasPooled(free, t) && Ascending(free[t])
    ensures PageOfType(types, free[t][0], t) && HasRoom(occupied, free[t][0])
    ensures forall q :: PageOfType(types, q, t) && HasRoom(occupied, q) ==> free[t][0] <= q
  {
    assert free[t][0] in free[t];
    forall q | PageOfType(types, q, t) && HasRoom(occupied, q)
      ensures free[t][0] <= q
    {
      AscendingFirstLeast(free[t], q);
    }
  }

  // ---------------------------------------------------------------------
  // The world

  /** The page objects are distinct, valid, at the index of their id, and
      agree with `types`, `occupied` and `strides`. */
  ghost predicate PagesMatch(pages: seq<EntityPage>, types: seq<int>, occupied: seq<seq<bool>>, strides: seq<int>)
    reads pages
  {
    |pages| == |types| == |occupied| == |strides| &&
    (forall i, j :: 0 <= i < j < |pages| ==> pages[i] != pages[j]) &&
    (forall i :: 0 <= i < |pages| ==>
       pages[i].Valid() && pages[i].pageId == i && pages[i].entityTypeId == types[i] &&
       pages[i].Slots() == occupied[i] && pages[i].stride == strides[i])
  }

  /** Appending a page object that is new, at its own index, keeps the
      pages matching. */
  lemma PagesMatchAppend(pages: seq<EntityPage>, types: seq<int>, occupied: seq<seq<bool>>, strides: seq<int>, page: EntityPage)
    requires PagesMatch(pages, types, occupied, strides)
    requires page !in pages && page.Valid() && page.pageId == |pages|
    ensures PagesMatch(pages + [page], types + [page.entityTypeId], occupied + [page.Slots()], strides + [page.stride])
  {
  }

  /** The message `despawnEntity` sends before destroying an entity, if the
      entity's interface handles message type `msgId`. */
  function PreKillEvents(iface: EntityInterface, msgId: nat, index: int, ed: int, entity: Addr): (r: seq<Event>)
    ensures |r| <= 1
    ensures r != [] <==> msgId < |iface.sendMessage| && iface.sendMessage[msgId]
    ensures r != [] ==> r[0] == PreKill(index, ed, entity)
  {
    if msgId < |iface.sendMessage| && iface.sendMessage[msgId] then [PreKill(index, ed, entity)] else []
  }

  /** One `onEntity` call per run of occupied slots of page `p`, spanning
      the run's entities. */
  function RunVisits(p: int, stride: int, runs: seq<Range>): (r: seq<Event>)
    ensures |r| == |runs|
    ensures forall j :: 0 <= j < |runs| ==>
      r[j] == Visit(Addr(p, runs[j].begin * stride), Addr(p, runs[j].end * stride))
  {
    if runs == [] then []
    else
      var last := runs[|runs| - 1];
      RunVisits(p, stride, runs[..|runs| - 1]) + [Visit(Addr(p, last.begin * stride), Addr(p, last.end * stride))]
  }

  /** The `onEntity` call for the component at `componentOffset` in slot
      `o`, spanning `size` bytes. */
  function ComponentVisit(p: int, componentOffset: int, stride: int, size: int, o: int): Event
  {
    Visit(Addr(p, componentOffset + o * stride), Addr(p, componentOffset + o * stride + size))
  }

  /** One `onEntity` call per slot of `slots`, for the component at
      `componentOffset` in that slot's entity. */
  function SlotVisits(p: int, componentOffset: int, stride: int, size: int, slots: seq<int>): (r: seq<Event>)
    ensures |r| == |slots|
  {
    if slots == [] then []
    else
      SlotVisits(p, componentOffset, stride, size, slots[..|slots| - 1]) +
      [ComponentVisit(p, componentOffset, stride, size, slots[|slots| - 1])]
  }

  /** Call `k` visits the component in slot `slots[k]`. */
  lemma {:induction false} SlotVisitsAt(p: int, componentOffset: int, stride: int, size: int, slots: seq<int>)
    ensures forall k :: 0 <= k < |slots| ==>
      SlotVisits(p, componentOffset, stride, size, slots)[k] == ComponentVisit(p, componentOffset, stride, size, slots[k])
    decreases |slots|
  {
    if slots != [] {
      SlotVisitsAt(p, componentOffset, stride, size, slots[..|slots| - 1]);
    }
  }

  /** One `destroy` call, through the interface at `index`, per slot of
      `slots`. */
  function SlotDestroys(index: int, p: int, stride: int, slots: seq<int>): (r: seq<Event>)
    ensures |r| == |slots|
  {
    if slots == [] then []
    else SlotDestroys(index, p, stride, slots[..|slots| - 1]) + [Destroy(index, Addr(p, slots[|slots| - 1] * stride))]
  }

  /** Call `k` destroys the entity in slot `slots[k]`. */
  lemma {:induction false} SlotDestroysAt(index: int, p: int, stride: int, slots: seq<int>)
    ensures forall k :: 0 <= k < |slots| ==>
      SlotDestroys(index, p, stride, slots)[k] == Destroy(index, Addr(p, slots[k] * stride))
    decreases |slots|
  {
    if slots != [] {
      SlotDestroysAt(index, p, stride, slots[..|slots| - 1]);
    }
  }

  /** The slots of `RunSlots(runs)` after one more run. */
  lemma RunSlotsSnoc(runs: seq<Range>, j: nat)
    requires j < |runs| && runs[j].begin <= runs[j].end
    ensures RunSlots(runs[..j + 1]) == RunSlots(runs[..j]) + Span(runs[j].begin, runs[j].end)
  {
    assert runs[..j + 1][..j] == runs[..j];
  }

  /** One more slot destroyed. */
  lemma SlotDestroysSnoc(index: int, p: int, stride: int, slots: seq<int>, o: int)
    ensures SlotDestroys(index, p, stride, slots + [o]) ==
      SlotDestroys(index, p, stride, slots) + [Destroy(index, Addr(p, o * stride))]
  {
    assert (slots + [o])[..|slots|] == slots;
  }

  /** The destroy calls for two lists of slots, one after the other. */
  lemma {:induction false} SlotDestroysAppend(index: int, p: int, stride: int, a: seq<int>, b: seq<int>)
    ensures SlotDestroys(index, p, stride, a + b) == SlotDestroys(index, p, stride, a) + SlotDestroys(index, p, stride, b)
    decreases |b|
  {
    if b == [] {
      assert a + b == a;
    } else {
      var b' := b[..|b| - 1];
      assert a + b == (a + b') + [b[|b| - 1]];
      assert b == b' + [b[|b| - 1]];
      SlotDestroysAppend(index, p, stride, a, b');
      SlotDestroysSnoc(index, p, stride, a + b', b[|b| - 1]);
      SlotDestroysSnoc(index, p, stride, b', b[|b| - 1]);
    }
  }

  /** The slots whose component the loop `for (i = beg; i != end; ++i)` of
      `forEachEntity` visits for the run `[beg, end)`: slot `i` each time
      round when corrected; as written it passes `beg` to `componentPtr`, so
      the run's first slot every time round. */
  function RunLoopSlots(beg: int, end: int, asWritten: bool): (r: seq<int>)
    ensures |r| == |Span(beg, end)|
    ensures asWritten ==> forall k :: 0 <= k < |r| ==> r[k] == beg
  {
    if asWritten then seq(|Span(beg, end)|, _ => beg) else Span(beg, end)
  }

  /** The component loop's slots for a run counted up to `i`, one time
      round further. */
  lemma RunLoopSlotsStep(beg: int, i: int, asWritten: bool)
    requires beg <= i
    ensures RunLoopSlots(beg, i + 1, asWritten) == RunLoopSlots(beg, i, asWritten) + [if asWritten then beg else i]
  {
  }

  /** The slots the component loop visits over the runs `r`, run after run. */
  function LoopSlots(r: seq<Range>, asWritten: bool): seq<int>
  {
    if r == [] then []
    else LoopSlots(r[..|r| - 1], asWritten) + RunLoopSlots(r[|r| - 1].begin, r[|r| - 1].end, asWritten)
  }

  /** Corrected, the component loop visits the same slots as the
      destructor's loop: every occupied slot, ascending. */
  lemma {:induction false} LoopSlotsCorrected(r: seq<Range>)
    ensures LoopSlots(r, false) == RunSlots(r)
  {
    if r != [] {
      LoopSlotsCorrected(r[..|r| - 1]);
    }
  }

  /** As written, the component loop only ever visits the first slot of a
      run, as often as the run is long. */
  lemma {:induction false} LoopSlotsAsWritten(r: seq<Range>)
    ensures |LoopSlots(r, true)| == |RunSlots(r)|
    ensures forall x :: x in LoopSlots(r, true) ==> exists j :: 0 <= j < |r| && r[j].begin == x
  {
    if r != [] {
      var init := r[..|r| - 1];
      var last := r[|r| - 1];
      LoopSlotsAsWritten(init);
      forall x | x in LoopSlots(r, true)
        ensures exists j :: 0 <= j < |r| && r[j].begin == x
      {
        if x in LoopSlots(init, true) {
          var j :| 0 <= j < |init| && init[j].begin == x;
          assert r[j] == init[j];
        } else {
          assert x in RunLoopSlots(last.begin, last.end, true);
          assert r[|r| - 1].begin == x;
        }
      }
    }
  }

  /** With slots `o - 1` and `o` both occupied, the component loop as
      written never visits the component in slot `o`, which the corrected
      loop visits. */
  lemma ComponentLoopSkipsSlot(s: seq<bool>, o: nat)
    requires 0 < o < |s| && s[o - 1] && s[o]
    ensures o in LoopSlots(Runs(s, |s|), false)
    ensures o !in LoopSlots(Runs(s, |s|), true)
  {
    var r := Runs(s, |s|);
    RunSlotsOccupied(s);
    LoopSlotsCorrected(r);
    RunsMaximal(s, |s|);
    LoopSlotsAsWritten(r);
  }

  /** One more run of the component loop. */
  lemma LoopSlotsSnoc(runs: seq<Range>, j: nat, asWritten: bool)
    requires j < |runs|
    ensures LoopSlots(runs[..j + 1], asWritten) ==
      LoopSlots(runs[..j], asWritten) + RunLoopSlots(runs[j].begin, runs[j].end, asWritten)
  {
    assert runs[..j + 1][..j] == runs[..j];
  }

  /** One more component visited. */
  lemma SlotVisitsSnoc(p: int, componentOffset: int, stride: int, size: int, slots: seq<int>, o: int)
    ensures SlotVisits(p, componentOffset, stride, size, slots + [o]) ==
      SlotVisits(p, componentOffset, stride, size, slots) + [ComponentVisit(p, componentOffset, stride, size, o)]
  {
    assert (slots + [o])[..|slots|] == slots;
  }

  /** The visits for two lists of slots, one after the other. */
  lemma {:induction false} SlotVisitsAppend(p: int, componentOffset: int, stride: int, size: int, a: seq<int>, b: seq<int>)
    ensures SlotVisits(p, componentOffset, stride, size, a + b) ==
      SlotVisits(p, componentOffset, stride, size, a) + SlotVisits(p, componentOffset, stride, size, b)
    decreases |b|
  {
    if b == [] {
      assert a + b == a;
    } else {
      var b' := b[..|b| - 1];
      assert a + b == (a + b') + [b[|b| - 1]];
      assert b == b' + [b[|b| - 1]];
      SlotVisitsAppend(p, componentOffset, stride, size, a, b');
      SlotVisitsSnoc(p, componentOffset, stride, size, a + b', b[|b| - 1]);
      SlotVisitsSnoc(p, componentOffset, stride, size, b', b[|b| - 1]);
    }
  }

  /** `forEachEntity`'s first loop: the runs of every page of the list, page
      by page, given each page's bitmap and stride. */
  function PageVisits(occupied: seq<seq<bool>>, strides: seq<int>, ids: seq<int>): seq<Event>
    requires forall k :: 0 <= k < |ids| ==> 0 <= ids[k] < |occupied| && ids[k] < |strides|
  {
    if ids == [] then []
    else
      var p := ids[|ids| - 1];
      PageVisits(occupied, strides, ids[..|ids| - 1]) + RunVisits(p, strides[p], Runs(occupied[p], |occupied[p]|))
  }

  /** `forEachEntity`'s second loop: for each component entry, the component
      in every occupied slot of its page. */
  function ComponentVisits(occupied: seq<seq<bool>>, strides: seq<int>, infos: seq<ComponentInfo>, size: int, asWritten: bool): seq<Event>
    requires forall k :: 0 <= k < |infos| ==> 0 <= infos[k].pageId < |occupied| && infos[k].pageId < |strides|
  {
    if infos == [] then []
    else
      var c := infos[|infos| - 1];
      var s := occupied[c.pageId];
      ComponentVisits(occupied, strides, infos[..|infos| - 1], size, asWritten) +
      SlotVisits(c.pageId, c.componentOffset, strides[c.pageId], size, LoopSlots(Runs(s, |s|), asWritten))
  }

  /** `~World`: every occupied slot of the first `n` pages destroyed, page by
      page and in ascending slot order, through the interface of its page's
      type. */
  function Destructions(types: seq<int>, occupied: seq<seq<bool>>, strides: seq<int>, n: nat): seq<Event>
    requires n <= |types| && n <= |occupied| && n <= |strides|
  {
    if n == 0 then []
    else
      var s := occupied[n - 1];
      Destructions(types, occupied, strides, n - 1) +
      SlotDestroys(types[n - 1], n - 1, strides[n - 1], RunSlots(Runs(s, |s|)))
  }

  /** The calls for one page in `forEachEntity`'s first loop: one per run
      of occupied slots, from the run's first entity to the end of its
      last. */
  method PageRunVisits(page: EntityPage, p: int) returns (ghost acc: seq<Event>)
    requires page.Valid()
    ensures acc == RunVisits(p, page.stride, Runs(page.Slots(), EntityPageSize))
  {
    var ranges := page.GetActiveRanges();
    acc := [];
    for j := 0 to |ranges|
      invariant acc == RunVisits(p, page.stride, ranges[..j])
    {
      assert ranges[..j + 1][..j] == ranges[..j];
      acc := acc + [Visit(Addr(p, page.EntityPtr(ranges[j].begin)), Addr(p, page.EntityPtr(ranges[j].end)))];
    }
    assert ranges[..|ranges|] == ranges;
  }

  /** The calls for one run `[beg, end)` in `forEachEntity`'s second loop:
      one per time round the loop, spanning `size` bytes from the component
      at `componentOffset` in the slot `componentPtr` is given. */
  method RunComponentVisits(page: EntityPage, p: int, componentOffset: int, size: int, asWritten: bool,
                            beg: int, end: int) returns (ghost acc: seq<Event>)
    requires beg <= end
    ensures acc == SlotVisits(p, componentOffset, page.stride, size, RunLoopSlots(beg, end, asWritten))
  {
    acc := [];
    var i := beg;
    while i != end
      invariant beg <= i <= end
      invariant acc == SlotVisits(p, componentOffset, page.stride, size, RunLoopSlots(beg, i, asWritten))
      decreases end - i
    {
      var slot := if asWritten then beg else i;
      var pBeg := page.ComponentPtr(slot, componentOffset);
      assert Visit(Addr(p, pBeg), Addr(p, pBeg + size)) == ComponentVisit(p, componentOffset, page.stride, size, slot);
      RunLoopSlotsStep(beg, i, asWritten);
      SlotVisitsSnoc(p, componentOffset, page.stride, size, RunLoopSlots(beg, i, asWritten), slot);
      acc := acc + [Visit(Addr(p, pBeg), Addr(p, pBeg + size))];
      i := i + 1;
    }
  }

  /** The calls for one component entry in `forEachEntity`'s second loop,
      run after run of the page's occupied slots. */
  method PageSlotVisits(page: EntityPage, p: int, componentOffset: int, size: int, asWritten: bool) returns (ghost acc: seq<Event>)
    requires page.Valid()
    ensures acc == SlotVisits(p, componentOffset, page.stride, size, LoopSlots(Runs(page.Slots(), EntityPageSize), asWritten))
  {
    var ranges := page.GetActiveRanges();
    RunsOrdered(page.Slots(), EntityPageSize);
    acc := [];
    for j := 0 to |ranges|
      invariant acc == SlotVisits(p, componentOffset, page.stride, size, LoopSlots(ranges[..j], asWritten))
    {
      var calls := RunComponentVisits(page, p, componentOffset, size, asWritten, ranges[j].begin, ranges[j].end);
      LoopSlotsSnoc(ranges, j, asWritten);
      SlotVisitsAppend(p, componentOffset, page.stride, size, LoopSlots(ranges[..j], asWritten),
                       RunLoopSlots(ranges[j].begin, ranges[j].end, asWritten));
      acc := acc + calls;
    }
    assert ranges[..|ranges|] == ranges;
  }

  /** The destructor's calls for the run `[beg, end)` of page `p`, in
      ascending slot order. */
  method RunDestroys(page: EntityPage, p: int, beg: int, end: int) returns (ghost acc: seq<Event>)
    requires beg <= end
    ensures acc == SlotDestroys(page.entityTypeId, p, page.stride, Span(beg, end))
  {
    acc := [];
    for i := beg to end
      invariant acc == SlotDestroys(page.entityTypeId, p, page.stride, Span(beg, i))
    {
      SlotDestroysSnoc(page.entityTypeId, p, page.stride, Span(beg, i), i);
      acc := acc + [Destroy(page.entityTypeId, Addr(p, page.EntityPtr(i)))];
    }
  }

  /** The destructor's calls for page `p`: each occupied slot destroyed, in
      ascending order, through the interface of the page's type. */
  method PageDestroys(page: EntityPage, p: int) returns (ghost acc: seq<Event>)
    requires page.Valid()
    ensures acc == SlotDestroys(page.entityTypeId, p, page.stride, RunSlots(Runs(page.Slots(), EntityPageSize)))
  {
    var ranges := page.GetActiveRanges();
    RunsOrdered(page.Slots(), EntityPageSize);
    acc := [];
    for j := 0 to |ranges|
      invariant acc == SlotDestroys(page.entityTypeId, p, page.stride, RunSlots(ranges[..j]))
    {
      var calls := RunDestroys(page, p, ranges[j].begin, ranges[j].end);
      RunSlotsSnoc(ranges, j);
      SlotDestroysAppend(page.entityTypeId, p, page.stride, RunSlots(ranges[..j]), Span(ranges[j].begin, ranges[j].end));
      acc := acc + calls;
    }
    assert ranges[..|ranges|] == ranges;
  }

  /** `forEachEntity`'s first loop, over the pages `ids`. */
  method VisitPages(pages: seq<EntityPage>, ghost types: seq<int>, ghost occupied: seq<seq<bool>>, ghost strides: seq<int>,
                    ids: seq<int>) returns (ghost acc: seq<Event>)
    requires PagesMatch(pages, types, occupied, strides)
    requires forall k :: 0 <= k < |ids| ==> 0 <= ids[k] < |pages|
    ensures acc == PageVisits(occupied, strides, ids)
  {
    acc := [];
    for i := 0 to |ids|
      invariant acc == PageVisits(occupied, strides, ids[..i])
    {
      var calls := PageRunVisits(pages[ids[i]], ids[i]);
      assert ids[..i + 1][..i] == ids[..i];
      acc := acc + calls;
    }
    assert ids[..|ids|] == ids;
  }

  /** `forEachEntity`'s second loop, over the component entries `infos`. */
  method VisitComponents(pages: seq<EntityPage>, ghost types: seq<int>, ghost occupied: seq<seq<bool>>, ghost strides: seq<int>,
                         infos: seq<ComponentInfo>, size: int, asWritten: bool) returns (ghost acc: seq<Event>)
    requires PagesMatch(pages, types, occupied, strides)
    requires forall k :: 0 <= k < |infos| ==> 0 <= infos[k].pageId < |pages|
    ensures acc == ComponentVisits(occupied, strides, infos, size, asWritten)
  {
    acc := [];
    for i := 0 to |infos|
      invariant acc == ComponentVisits(occupied, strides, infos[..i], size, asWritten)
    {
      var c := infos[i];
      var calls := PageSlotVisits(pages[c.pageId], c.pageId, c.componentOffset, size, asWritten);
      assert infos[..i + 1][..i] == infos[..i];
      acc := acc + calls;
    }
    assert infos[..|infos|] == infos;
  }

  /** The destructor's loop over the first `n` pages. */
  method DestroyPages(pages: seq<EntityPage>, ghost types: seq<int>, ghost occupied: seq<seq<bool>>, ghost strides: seq<int>,
                      n: nat) returns (ghost acc: seq<Event>)
    requires PagesMatch(pages, types, occupied, strides) && n <= |pages|
    ensures acc == Destructions(types, occupied, strides, n)
  {
    acc := [];
    for p := 0 to n
      invariant acc == Destructions(types, occupied, strides, p)
    {
      var calls := PageDestroys(pages[p], p);
      acc := acc + calls;
    }
  }

  /** `lpg::World` over `detail::WorldData`. The ghost `pageTypes` and
      `occupied` hold each page's type and bitmap. */
  class World {
    var entityInterfaces: seq<EntityInterface>
    var entityTypeMap: map<string, int>
    var entityPages: seq<EntityPage>
    var entityPagesByType: seq<seq<int>>
    var entityPagesByComponentType: seq<seq<ComponentInfo>>
    var freePagesByType: seq<seq<int>>
    var initFinalized: bool
    ghost var events: seq<Event>
    ghost var pageTypes: seq<int>
    ghost var occupied: seq<seq<bool>>
    ghost var strides: seq<int>

    /** The pages match, every page's type is registered, the tables keep
        their shape and each free pool holds exactly the pages with room. */
    ghost predicate Valid()
      reads this`entityInterfaces, this`entityPages, this`entityPagesByType, this`entityPagesByComponentType
      reads this`freePagesByType, this`pageTypes, this`occupied, this`strides, entityPages
    {
      PagesMatch(entityPages, pageTypes, occupied, strides) && |freePagesByType| <= |entityInterfaces| &&
      Shape(pageTypes, entityPagesByType, entityPagesByComponentType, freePagesByType) &&
      PoolsExact(pageTypes, occupied, freePagesByType)
    }

    /** Only the event log changed. */
    twostate predicate OnlyEvents()
      reads this
    {
      entityInterfaces == old(entityInterfaces) && entityTypeMap == old(entityTypeMap) &&
      entityPages == old(entityPages) && entityPagesByType == old(entityPagesByType) &&
      entityPagesByComponentType == old(entityPagesByComponentType) &&
      freePagesByType == old(freePagesByType) && initFinalized == old(initFinalized) &&
      pageTypes == old(pageTypes) && strides == old(strides) && occupied == old(occupied)
    }

    /** `World::World`: no types, no pages, not finalised. */
    constructor ()
      ensures Valid()
      ensures entityInterfaces == [] && entityTypeMap == map[] && entityPages == []
      ensures entityPagesByType == [] && entityPagesByComponentType == [] && freePagesByType == []
      ensures !initFinalized && events == []
    {
      entityInterfaces := [];
      entityTypeMap := map[];
      entityPages := [];
      entityPagesByType := [];
      entityPagesByComponentType := [];
      freePagesByType := [];
      initFinalized := false;
      events := [];
      pageTypes := [];
      occupied := [];
      strides := [];
    }

    /** `registerEntityTypeImpl`, as its body intends: a known name is
        rejected and nothing changes; otherwise the interface is appended
        and its index, the old number of types, is the new type's id. */
    method RegisterEntityType(name: string, entityInterface: EntityInterface) returns (r: Result<int, WorldError>)
      requires Valid()
      modifies this
      ensures Valid()
      ensures entityPages == old(entityPages) && entityPagesByType == old(entityPagesByType)
      ensures entityPagesByComponentType == old(entityPagesByComponentType)
      ensures freePagesByType == old(freePagesByType) && initFinalized == old(initFinalized)
      ensures events == old(events) && pageTypes == old(pageTypes) && strides == old(strides) && occupied == old(occupied)
      ensures name in old(entityTypeMap) ==>
        r == Err(TypeAlreadyRegistered(name)) &&
        entityInterfaces == old(entityInterfaces) && entityTypeMap == old(entityTypeMap)
      ensures name !in old(entityTypeMap) ==>
        r == Ok(|old(entityInterfaces)|) &&
        entityInterfaces == old(entityInterfaces) + [entityInterface] &&
        entityTypeMap == old(entityTypeMap)[name := |old(entityInterfaces)|]
    {
      if name in entityTypeMap {
        return Err(TypeAlreadyRegistered(name));
      }
      var newEntTypeId := |entityInterfaces|;
      entityInterfaces := entityInterfaces + [entityInterface];
      entityTypeMap := entityTypeMap[name := newEntTypeId];
      return Ok(newEntTypeId);
    }

    /** `saveEntityInterface`: after `finalizeInit` it throws and nothing
        changes; otherwise the interface list grows to hold `entTypeId`,
        with value-initialised interfaces, and the interface is stored
        there. A negative id indexes before the vector, which the source
        leaves undefined. */
    method SaveEntityInterface(entityInterface: EntityInterface, entTypeId: int) returns (r: Outcome<WorldError>)
      requires Valid() && entTypeId >= 0
      modifies this
      ensures Valid()
      ensures entityPages == old(entityPages) && entityPagesByType == old(entityPagesByType)
      ensures entityPagesByComponentType == old(entityPagesByComponentType)
      ensures freePagesByType == old(freePagesByType) && initFinalized == old(initFinalized)
      ensures entityTypeMap == old(entityTypeMap) && events == old(events)
      ensures pageTypes == old(pageTypes) && strides == old(strides) && occupied == old(occupied)
      ensures old(initFinalized) ==> r == Fail(InitFinalized) && entityInterfaces == old(entityInterfaces)
      ensures !old(initFinalized) ==>
        r == Pass && entityInterfaces == Vec.InsertedAt(old(entityInterfaces), entTypeId, entityInterface, DefaultInterface)
    {
      if initFinalized {
        return Fail(InitFinalized);
      }
      var interfaces := entityInterfaces;
      if |interfaces| < entTypeId + 1 {
        interfaces := Vec.ResizedFor(interfaces, entTypeId, DefaultInterface);
      }
      entityInterfaces := interfaces[entTypeId := entityInterface];
      assert entityInterfaces == Vec.InsertedAt(old(entityInterfaces), entTypeId, entityInterface, DefaultInterface);
      return Pass;
    }

    /** `registerMessageTypeImpl`: it only refuses once `finalizeInit` has
        run; it records nothing. */
    method RegisterMessageType(name: string, messageTypeId: int) returns (r: Outcome<WorldError>)
      requires Valid()
      ensures r == (if initFinalized then Fail(InitFinalized) else Pass)
    {
      if initFinalized {
        return Fail(InitFinalized);
      }
      return Pass;
    }

    /** `finalizeInit`. */
    method FinalizeInit()
      requires Valid()
      modifies this
      ensures Valid() && initFinalized
      ensures entityInterfaces == old(entityInterfaces) && entityTypeMap == old(entityTypeMap)
      ensures entityPages == old(entityPages) && entityPagesByType == old(entityPagesByType)
      ensures entityPagesByComponentType == old(entityPagesByComponentType)
      ensures freePagesByType == old(freePagesByType) && events == old(events)
      ensures pageTypes == old(pageTypes) && strides == old(strides) && occupied == old(occupied)
    {
      initFinalized := true;
    }

    // -------------------------------------------------------------------
    // Pages

    /** `createNewPage` succeeds: type `t` is registered and its embedded
        components name existing component tables once those grow to hold
        `t`. */
    predicate CanCreate(t: int)
      reads this
    {
      0 <= t < |entityInterfaces| &&
      ComponentsFit(entityInterfaces[t].embeddedComponents, |Vec.ResizedFor(entityPagesByComponentType, t, [])|)
    }

    /** `createNewPage(t)` appended page `id`: a new page of type `t`, with
        the type's entity size as its stride, no slot occupied, an empty
        buffer and no parent; the three per-type tables grew to hold `t`,
        the page joined the type's list and free pool, and one entry per
        embedded component joined that component type's table. */
    twostate predicate PageCreated(t: int, id: int)
      reads this, entityPages
    {
      0 <= t < |entityInterfaces| &&
      id == |old(entityPages)| && |entityPages| == id + 1 && entityPages[..id] == old(entityPages) &&
      fresh(entityPages[id]) &&
      entityPages[id].stride == entityInterfaces[t].entitySize &&
      entityPages[id].parentPage == -1 && entityPages[id].storageSize == 0 &&
      pageTypes == old(pageTypes) + [t] && occupied == old(occupied) + [EmptyBitmap()] &&
      strides == old(strides) + [entityInterfaces[t].entitySize] &&
      var byType := Vec.ResizedFor(old(entityPagesByType), t, []);
      var free := Vec.ResizedFor(old(freePagesByType), t, []);
      var byComp := Vec.ResizedFor(old(entityPagesByComponentType), t, []);
      Ascending(free[t]) &&
      ComponentsFit(entityInterfaces[t].embeddedComponents, |byComp|) &&
      entityPagesByType == byType[t := byType[t] + [id]] &&
      freePagesByType == free[t := SetInsert(free[t], id)] &&
      entityPagesByComponentType == AddComponentPages(byComp, entityInterfaces[t].embeddedComponents, id)
    }

    /** The table updates of `createNewPage(t)` for the new page `id`. */
    method GrowTables(t: nat, id: int)
      requires t < |entityInterfaces|
      requires Ascending(Vec.ResizedFor(freePagesByType, t, [])[t])
      requires ComponentsFit(entityInterfaces[t].embeddedComponents, |Vec.ResizedFor(entityPagesByComponentType, t, [])|)
      modifies this
      ensures entityInterfaces == old(entityInterfaces) && entityTypeMap == old(entityTypeMap)
      ensures initFinalized == old(initFinalized) && events == old(events)
      ensures entityPages == old(entityPages) && pageTypes == old(pageTypes) && strides == old(strides) && occupied == old(occupied)
      ensures var byType := Vec.ResizedFor(old(entityPagesByType), t, []);
        entityPagesByType == byType[t := byType[t] + [id]]
      ensures var free := Vec.ResizedFor(old(freePagesByType), t, []);
        freePagesByType == free[t := SetInsert(free[t], id)]
      ensures entityPagesByComponentType ==
        AddComponentPages(Vec.ResizedFor(old(entityPagesByComponentType), t, []), entityInterfaces[t].embeddedComponents, id)
    {
      var byType := Vec.ResizedFor(entityPagesByType, t, []);
      var free := Vec.ResizedFor(freePagesByType, t, []);
      var byComp := Vec.ResizedFor(entityPagesByComponentType, t, []);
      entityPagesByType := byType[t := byType[t] + [id]];
      freePagesByType := free[t := SetInsert(free[t], id)];
      entityPagesByComponentType := RecordComponentPages(byComp, entityInterfaces[t].embeddedComponents, id);
    }

    /** `entityPages_.push_back` of the new page of type `t`. */
    method AppendPage(t: int, stride: nat)
      requires PagesMatch(entityPages, pageTypes, occupied, strides)
      modifies this
      ensures PagesMatch(entityPages, pageTypes, occupied, strides)
      ensures entityInterfaces == old(entityInterfaces) && entityTypeMap == old(entityTypeMap)
      ensures initFinalized == old(initFinalized) && events == old(events)
      ensures entityPagesByType == old(entityPagesByType) && freePagesByType == old(freePagesByType)
      ensures entityPagesByComponentType == old(entityPagesByComponentType)
      ensures |entityPages| == |old(entityPages)| + 1 && entityPages[..|old(entityPages)|] == old(entityPages)
      ensures var page := entityPages[|old(entityPages)|];
        fresh(page) && page.stride == stride && page.parentPage == -1 && page.storageSize == 0
      ensures pageTypes == old(pageTypes) + [t] && occupied == old(occupied) + [EmptyBitmap()]
      ensures strides == old(strides) + [stride]
    {
      var page := new EntityPage(t, |entityPages|, stride);
      assert page.Slots() == EmptyBitmap();
      PagesMatchAppend(entityPages, pageTypes, occupied, strides, page);
      entityPages, pageTypes, occupied, strides := entityPages + [page], pageTypes + [t], occupied + [EmptyBitmap()], strides + [stride];
    }

    /** `createNewPage`, returning the new page's id (the source's body
        ends without a `return`, which is undefined; the declared result
        and `getFreePage` mean the new id). An unregistered type throws
        from `entityInterfaces_.at`. An embedded component naming a table
        that does not exist is undefined behaviour; the model reports it
        before changing anything. */
    method CreateNewPage(t: int) returns (r: Result<int, WorldError>)
      requires Valid()
      modifies this
      ensures Valid()
      ensures entityInterfaces == old(entityInterfaces) && entityTypeMap == old(entityTypeMap)
      ensures initFinalized == old(initFinalized) && events == old(events)
      ensures r.Ok? <==> old(CanCreate(t))
      ensures r.Ok? ==> PageCreated(t, r.value)
      ensures r.Err? ==>
        unchanged(this) && r.error == (if 0 <= t < |entityInterfaces| then UndefinedBehaviour else OutOfRange)
    {
      if !(0 <= t < |entityInterfaces|) {
        return Err(OutOfRange);
      }
      var iface := entityInterfaces[t];
      var comps := iface.embeddedComponents;
      var newPageId := |entityPages|;
      var byComp := Vec.ResizedFor(entityPagesByComponentType, t, []);
      if !ComponentsFit(comps, |byComp|) {
        return Err(UndefinedBehaviour);
      }
      NewPageKeepsShape(pageTypes, occupied, entityPagesByType, entityPagesByComponentType, freePagesByType, t, comps);
      GrowTables(t, newPageId);
      AppendPage(t, iface.entitySize);
      return Ok(newPageId);
    }

    /** `page.reserveEntity().value()` on page `p`, which has a free slot:
        its lowest clear slot becomes occupied, and the slot and its address
        are returned. No other page and no table changes. */
    method ReserveInPage(p: int) returns (res: PageReservation)
      requires PagesMatch(entityPages, pageTypes, occupied, strides)
      requires 0 <= p < |entityPages| && Count(occupied[p]) < EntityPageSize
      modifies this, entityPages[p]
      ensures PagesMatch(entityPages, pageTypes, occupied, strides)
      ensures entityInterfaces == old(entityInterfaces) && entityTypeMap == old(entityTypeMap)
      ensures initFinalized == old(initFinalized) && events == old(events)
      ensures entityPages == old(entityPages) && entityPagesByType == old(entityPagesByType)
      ensures entityPagesByComponentType == old(entityPagesByComponentType)
      ensures freePagesByType == old(freePagesByType) && pageTypes == old(pageTypes) && strides == old(strides)
      ensures entityPages[p].stride == old(entityPages[p].stride)
      ensures FirstFrom(old(occupied[p]), false, 0) == Some(res.offset)
      ensures res.entity == res.offset * entityPages[p].stride
      ensures occupied == old(occupied)[p := old(occupied[p])[res.offset := true]]
    {
      var page := entityPages[p];
      RoomHasFreeSlot(occupied[p]);
      var r := page.ReserveEntity();
      res := r.value;
      occupied := occupied[p := page.Slots()];
    }

    /** `page.releaseEntity(o)` on page `p`: slot `o` becomes free. No other
        page and no table changes. */
    method ReleaseInPage(p: int, o: nat)
      requires PagesMatch(entityPages, pageTypes, occupied, strides)
      requires 0 <= p < |entityPages| && o < EntityPageSize
      modifies this, entityPages[p]
      ensures PagesMatch(entityPages, pageTypes, occupied, strides)
      ensures entityInterfaces == old(entityInterfaces) && entityTypeMap == old(entityTypeMap)
      ensures initFinalized == old(initFinalized) && events == old(events)
      ensures entityPages == old(entityPages) && entityPagesByType == old(entityPagesByType)
      ensures entityPagesByComponentType == old(entityPagesByComponentType)
      ensures freePagesByType == old(freePagesByType) && pageTypes == old(pageTypes) && strides == old(strides)
      ensures entityPages[p].stride == old(entityPages[p].stride)
      ensures occupied == old(occupied)[p := old(occupied[p])[o := false]]
    {
      var page := entityPages[p];
      page.ReleaseEntity(o);
      occupied := occupied[p := page.Slots()];
    }

    /** `getFreePage` as `reserveEntity` relies on it: a type no page has been
        created for yet has an empty pool, and the page stays in its pool
        (`reserveEntity` removes it once full). The pool's first page is the
        lowest-numbered page of the type with a free slot, and nothing
        changes; with none, a new page is created. */
    method GetFreePage(t: int) returns (r: Result<int, WorldError>)
      requires Valid()
      modifies this
      ensures Valid()
      ensures entityInterfaces == old(entityInterfaces) && entityTypeMap == old(entityTypeMap)
      ensures initFinalized == old(initFinalized) && events == old(events)
      ensures old(HasPooled(freePagesByType, t)) ==>
        unchanged(this) && r == Ok(old(freePagesByType[t][0])) &&
        PageOfType(pageTypes, r.value, t) && HasRoom(occupied, r.value) &&
        forall q :: PageOfType(pageTypes, q, t) && HasRoom(occupied, q) ==> r.value <= q
      ensures !old(HasPooled(freePagesByType, t)) ==>
        (forall q :: !(PageOfType(old(pageTypes), q, t) && HasRoom(old(occupied), q))) &&
        (r.Ok? <==> old(CanCreate(t))) &&
        (r.Ok? ==> PageCreated(t, r.value)) &&
        (r.Err? ==> unchanged(this) && r.error == (if 0 <= t < |entityInterfaces| then UndefinedBehaviour else OutOfRange))
    {
      if 0 <= t < |freePagesByType| && freePagesByType[t] != [] {
        PoolFirstIsLowest(pageTypes, occupied, freePagesByType, t);
        return Ok(freePagesByType[t][0]);
      }
      assert forall q :: !(PageOfType(pageTypes, q, t) && HasRoom(occupied, q));
      r := CreateNewPage(t);
    }

    /** `getFreePage` as written. `freePagesByType_.at(t)` throws for a type
        no page has been created for, and only `createNewPage` grows the
        pools, so the first `reserveEntity` of every type fails. A pooled
        page is erased from its pool however many free slots it has left,
        so the pools no longer hold every page with room. */
    method GetFreePageAsWritten(t: int) returns (r: Result<int, WorldError>)
      requires Valid()
      modifies this
      ensures PagesMatch(entityPages, pageTypes, occupied, strides)
      ensures Shape(pageTypes, entityPagesByType, entityPagesByComponentType, freePagesByType)
      ensures entityInterfaces == old(entityInterfaces) && entityTypeMap == old(entityTypeMap)
      ensures initFinalized == old(initFinalized) && events == old(events)
      ensures !(0 <= t < old(|freePagesByType|)) ==> r == Err(OutOfRange) && unchanged(this)
      ensures old(HasPooled(freePagesByType, t)) ==>
        r == Ok(old(freePagesByType[t][0])) &&
        freePagesByType == old(freePagesByType)[t := old(freePagesByType[t])[1..]] &&
        entityPages == old(entityPages) && pageTypes == old(pageTypes) && strides == old(strides) && occupied == old(occupied) &&
        entityPagesByType == old(entityPagesByType) &&
        entityPagesByComponentType == old(entityPagesByComponentType) &&
        PageOfType(pageTypes, r.value, t) && HasRoom(occupied, r.value) &&
        r.value !in freePagesByType[t] && !PoolsExact(pageTypes, occupied, freePagesByType)
      ensures 0 <= t < old(|freePagesByType|) && old(freePagesByType[t]) == [] ==>
        Valid() && (r.Ok? <==> old(CanCreate(t))) && (r.Ok? ==> PageCreated(t, r.value)) &&
        (r.Err? ==> unchanged(this))
    {
      if !(0 <= t < |freePagesByType|) {
        return Err(OutOfRange);
      }
      var pageSet := freePagesByType[t];
      if pageSet != [] {
        var result := pageSet[0];
        PoolFirstIsLowest(pageTypes, occupied, freePagesByType, t);
        AscendingTail(pageSet);
        PoolUpdateKeepsShape(pageTypes, entityPagesByType, entityPagesByComponentType, freePagesByType, t, pageSet[1..]);
        freePagesByType := freePagesByType[t := pageSet[1..]];
        return Ok(result);
      }
      r := CreateNewPage(t);
    }

    /** The part of `reserveEntity` after `getFreePage`: page `p` of type
        `t`, which has room, gets an entity in its lowest free slot and
        leaves the pool if that fills it. */
    method ReserveOnPage(t: int, p: int) returns (res: ReserveEntityResult, ghost off: int)
      requires Valid() && PageOfType(pageTypes, p, t) && HasRoom(occupied, p)
      modifies this, entityPages[p]
      ensures Valid()
      ensures entityInterfaces == old(entityInterfaces) && entityTypeMap == old(entityTypeMap)
      ensures initFinalized == old(initFinalized) && events == old(events)
      ensures entityPages == old(entityPages) && pageTypes == old(pageTypes) && strides == old(strides)
      ensures entityPagesByType == old(entityPagesByType) && entityPagesByComponentType == old(entityPagesByComponentType)
      ensures FirstFrom(old(occupied[p]), false, 0) == Some(off)
      ensures occupied == old(occupied)[p := old(occupied[p])[off := true]]
      ensures freePagesByType ==
        if Count(occupied[p]) == EntityPageSize then old(freePagesByType)[t := SetErase(old(freePagesByType[t]), p)]
        else old(freePagesByType)
      ensures res == ReserveEntityResult(Addr(p, off * entityPages[p].stride), ComposeEntityDescriptor(p, off))
    {
      ghost var occ0, free0 := occupied, freePagesByType;
      var r := ReserveInPage(p);
      ReserveKeepsPools(pageTypes, occ0, free0, p, r.offset);
      var page := entityPages[p];
      var full := page.IsFull();
      if full {
        PoolUpdateKeepsShape(pageTypes, entityPagesByType, entityPagesByComponentType, freePagesByType, t,
                             SetErase(freePagesByType[t], page.pageId));
        freePagesByType := freePagesByType[t := SetErase(freePagesByType[t], page.pageId)];
      }
      res := ReserveEntityResult(Addr(p, page.EntityPtr(r.offset)), ComposeEntityDescriptor(page.pageId, r.offset));
      off := r.offset;
    }

    /** `reserveEntity`, over the corrected `getFreePage`: the entity takes
        the lowest free slot of the lowest-numbered page of type `t` with
        room, or slot 0 of a new page. The page leaves its pool once full.
        The descriptor is the page number times 256 plus the slot, and the
        address is the slot's offset into the page's buffer. */
    method ReserveEntity(t: int) returns (r: Result<ReserveEntityResult, WorldError>, ghost pid: int, ghost off: int)
      requires Valid()
      modifies this, entityPages
      ensures Valid()
      ensures entityInterfaces == old(entityInterfaces) && entityTypeMap == old(entityTypeMap)
      ensures initFinalized == old(initFinalized) && events == old(events)
      ensures r.Ok? <==> old(HasPooled(freePagesByType, t) || CanCreate(t))
      ensures r.Err? ==> unchanged(this) && r.error == (if 0 <= t < |entityInterfaces| then UndefinedBehaviour else OutOfRange)
      ensures r.Ok? && old(HasPooled(freePagesByType, t)) ==>
        pid == old(freePagesByType[t][0]) && entityPages == old(entityPages) && pageTypes == old(pageTypes) && strides == old(strides) &&
        entityPagesByType == old(entityPagesByType) && entityPagesByComponentType == old(entityPagesByComponentType)
      ensures r.Ok? && !old(HasPooled(freePagesByType, t)) ==>
        pid == old(|entityPages|) && off == 0 && pageTypes == old(pageTypes) + [t] &&
        strides == old(strides) + [entityInterfaces[t].entitySize] &&
        entityPages[..pid] == old(entityPages)
      ensures r.Ok? ==>
        0 <= pid < |entityPages| && PageOfType(pageTypes, pid, t) &&
        var before := if pid < old(|occupied|) then old(occupied[pid]) else EmptyBitmap();
        FirstFrom(before, false, 0) == Some(off) &&
        occupied == (if pid < old(|occupied|) then old(occupied) else old(occupied) + [EmptyBitmap()])[pid := before[off := true]] &&
        r.value == ReserveEntityResult(Addr(pid, off * entityPages[pid].stride), ComposeEntityDescriptor(pid, off)) &&
        (pid in freePagesByType[t] <==> Count(occupied[pid]) < EntityPageSize)
    {
      var g := GetFreePage(t);
      if g.Err? {
        r, pid, off := Err(g.error), -1, -1;
        return;
      }
      var pageId := g.value;
      var res;
      res, off := ReserveOnPage(t, pageId);
      r, pid := Ok(res), pageId;
    }

    /** The entity in the occupied slot `o` of page `p` is sent the pre-kill
        message when its interface handles it, destroyed, and its slot
        freed; the page rejoins its type's pool when that leaves exactly one
        slot free. The calls go through `iface`, the interface at `index`. */
    method KillAt(p: int, o: nat, iface: EntityInterface, index: int, ed: int, preKillId: nat)
      requires Valid() && 0 <= p < |entityPages| && o < EntityPageSize && occupied[p][o]
      modifies this, entityPages[p]
      ensures Valid()
      ensures entityInterfaces == old(entityInterfaces) && entityTypeMap == old(entityTypeMap)
      ensures initFinalized == old(initFinalized) && entityPages == old(entityPages) && pageTypes == old(pageTypes) && strides == old(strides)
      ensures entityPagesByType == old(entityPagesByType) && entityPagesByComponentType == old(entityPagesByComponentType)
      ensures occupied == old(occupied)[p := old(occupied[p])[o := false]]
      ensures var t := pageTypes[p];
        freePagesByType ==
          if old(Count(occupied[p])) == EntityPageSize then old(freePagesByType)[t := SetInsert(old(freePagesByType[t]), p)]
          else old(freePagesByType)
      ensures var entity := Addr(p, o * entityPages[p].stride);
        events == old(events) + PreKillEvents(iface, preKillId, index, ed, entity) + [Destroy(index, entity)]
    {
      var page := entityPages[p];
      var ptr := page.EntityPtr(o);
      events := events + PreKillEvents(iface, preKillId, index, ed, Addr(p, ptr)) + [Destroy(index, Addr(p, ptr))];
      ghost var occ0, free0 := occupied, freePagesByType;
      ReleaseInPage(p, o);
      ReleaseKeepsPools(pageTypes, occ0, free0, p, o);
      var n := page.NumActiveEntities();
      if n == EntityPageSize - 1 {
        PoolUpdateKeepsShape(pageTypes, entityPagesByType, entityPagesByComponentType, freePagesByType, page.entityTypeId,
                             SetInsert(freePagesByType[page.entityTypeId], page.pageId));
        freePagesByType := freePagesByType[page.entityTypeId := SetInsert(freePagesByType[page.entityTypeId], page.pageId)];
      }
    }

    /** `despawnEntity`, with the calls going through the interface of the
        page's entity type: a page that does not exist throws from
        `entityPages_.at`; an empty slot gives `false` and changes nothing;
        otherwise the entity is killed (`KillAt`) and the result is
        `true`. */
    method DespawnEntity(ed: int, preKillId: nat) returns (r: Result<bool, WorldError>)
      requires Valid()
      modifies this, entityPages
      ensures Valid()
      ensures entityInterfaces == old(entityInterfaces) && entityTypeMap == old(entityTypeMap)
      ensures initFinalized == old(initFinalized) && entityPages == old(entityPages) && pageTypes == old(pageTypes) && strides == old(strides)
      ensures entityPagesByType == old(entityPagesByType) && entityPagesByComponentType == old(entityPagesByComponentType)
      ensures var d := DecomposeEntityDescriptor(ed);
        if d.page >= old(|entityPages|) then r == Err(OutOfRange) && unchanged(this)
        else if !old(occupied[d.page][d.offset]) then r == Ok(false) && unchanged(this)
        else
          var t := pageTypes[d.page];
          var entity := Addr(d.page, d.offset * entityPages[d.page].stride);
          r == Ok(true) &&
          occupied == old(occupied)[d.page := old(occupied[d.page])[d.offset := false]] &&
          d.page in freePagesByType[t] &&
          events == old(events) + PreKillEvents(entityInterfaces[t], preKillId, t, ed, entity) + [Destroy(t, entity)]
    {
      var d := DecomposeEntityDescriptor(ed);
      if d.page >= |entityPages| {
        return Err(OutOfRange);
      }
      var page := entityPages[d.page];
      var entInterface := entityInterfaces[page.entityTypeId];
      if !page.IsEntityPresent(d.offset) {
        return Ok(false);
      }
      CountUpdate(occupied[d.page], d.offset, false);
      KillAt(d.page, d.offset, entInterface, page.entityTypeId, ed, preKillId);
      assert HasRoom(occupied, d.page) && PageOfType(pageTypes, d.page, pageTypes[d.page]);
      return Ok(true);
    }

    /** `despawnEntity` as written: the interface is looked up with
        `entityInterfaces_.at(pageNum)`, the page number rather than the
        page's entity type. A page number past the last type throws before
        the slot is looked at, and otherwise the pre-kill message and the
        destruction go through the interface of type `pageNum`. */
    method DespawnEntityAsWritten(ed: int, preKillId: nat) returns (r: Result<bool, WorldError>)
      requires Valid()
      modifies this, entityPages
      ensures Valid()
      ensures entityInterfaces == old(entityInterfaces) && entityTypeMap == old(entityTypeMap)
      ensures initFinalized == old(initFinalized) && entityPages == old(entityPages) && pageTypes == old(pageTypes) && strides == old(strides)
      ensures entityPagesByType == old(entityPagesByType) && entityPagesByComponentType == old(entityPagesByComponentType)
      ensures var d := DecomposeEntityDescriptor(ed);
        if d.page >= old(|entityPages|) || d.page >= |entityInterfaces| then r == Err(OutOfRange) && unchanged(this)
        else if !old(occupied[d.page][d.offset]) then r == Ok(false) && unchanged(this)
        else
          var entity := Addr(d.page, d.offset * entityPages[d.page].stride);
          r == Ok(true) &&
          occupied == old(occupied)[d.page := old(occupied[d.page])[d.offset := false]] &&
          events == old(events) + PreKillEvents(entityInterfaces[d.page], preKillId, d.page, ed, entity) + [Destroy(d.page, entity)]
    {
      var d := DecomposeEntityDescriptor(ed);
      if d.page >= |entityPages| {
        return Err(OutOfRange);
      }
      var page := entityPages[d.page];
      if d.page >= |entityInterfaces| {
        return Err(OutOfRange);
      }
      var entInterface := entityInterfaces[d.page];
      if !page.IsEntityPresent(d.offset) {
        return Ok(false);
      }
      KillAt(d.page, d.offset, entInterface, d.page, ed, preKillId);
      return Ok(true);
    }

    /** `relocateEntity`: both pages must exist (`entityPages_.at`), hold
        the same entity type and the target slot must be empty; then the
        entity is moved to the target slot and the source destroyed, both
        through the type's interface. The bitmaps are left as they are. */
    method RelocateEntity(targetDescriptor: int, sourceDescriptor: int) returns (r: Outcome<WorldError>)
      requires Valid()
      modifies this
      ensures Valid() && OnlyEvents()
      ensures var dst := DecomposeEntityDescriptor(targetDescriptor);
        var src := DecomposeEntityDescriptor(sourceDescriptor);
        if dst.page >= |entityPages| || src.page >= |entityPages| then r == Fail(OutOfRange) && events == old(events)
        else if pageTypes[dst.page] != pageTypes[src.page] then r == Fail(PagesIncompatible) && events == old(events)
        else if occupied[dst.page][dst.offset] then r == Fail(InvalidRelocation) && events == old(events)
        else
          var t := pageTypes[src.page];
          var s := Addr(src.page, src.offset * entityPages[src.page].stride);
          r == Pass && events == old(events) + [Move(t, Addr(dst.page, dst.offset * entityPages[dst.page].stride), s), Destroy(t, s)]
    {
      var dst := DecomposeEntityDescriptor(targetDescriptor);
      var src := DecomposeEntityDescriptor(sourceDescriptor);
      if dst.page >= |entityPages| || src.page >= |entityPages| {
        return Fail(OutOfRange);
      }
      var dstPage := entityPages[dst.page];
      var srcPage := entityPages[src.page];
      if srcPage.entityTypeId != dstPage.entityTypeId {
        return Fail(PagesIncompatible);
      }
      if dstPage.IsEntityPresent(dst.offset) {
        return Fail(InvalidRelocation);
      }
      var s := Addr(src.page, srcPage.EntityPtr(src.offset));
      events := events + [Move(srcPage.entityTypeId, Addr(dst.page, dstPage.EntityPtr(dst.offset)), s), Destroy(srcPage.entityTypeId, s)];
      return Pass;
    }

    /** `swapEntities`: both pages must exist, hold the same entity type and
        both slots must be occupied; then the two entities are swapped
        through the type's interface. */
    method SwapEntities(targetDescriptor: int, sourceDescriptor: int) returns (r: Outcome<WorldError>)
      requires Valid()
      modifies this
      ensures Valid() && OnlyEvents()
      ensures var dst := DecomposeEntityDescriptor(targetDescriptor);
        var src := DecomposeEntityDescriptor(sourceDescriptor);
        if dst.page >= |entityPages| || src.page >= |entityPages| then r == Fail(OutOfRange) && events == old(events)
        else if pageTypes[dst.page] != pageTypes[src.page] then r == Fail(PagesIncompatible) && events == old(events)
        else if !occupied[src.page][src.offset] || !occupied[dst.page][dst.offset] then
          r == Fail(SwapWithEmpty) && events == old(events)
        else
          r == Pass &&
          events == old(events) + [Swap(pageTypes[src.page], Addr(dst.page, dst.offset * entityPages[dst.page].stride),
                                        Addr(src.page, src.offset * entityPages[src.page].stride))]
    {
      var dst := DecomposeEntityDescriptor(targetDescriptor);
      var src := DecomposeEntityDescriptor(sourceDescriptor);
      if dst.page >= |entityPages| || src.page >= |entityPages| {
        return Fail(OutOfRange);
      }
      var dstPage := entityPages[dst.page];
      var srcPage := entityPages[src.page];
      if srcPage.entityTypeId != dstPage.entityTypeId {
        return Fail(PagesIncompatible);
      }
      if !srcPage.IsEntityPresent(src.offset) || !dstPage.IsEntityPresent(dst.offset) {
        return Fail(SwapWithEmpty);
      }
      events := events + [Swap(srcPage.entityTypeId, Addr(dst.page, dstPage.EntityPtr(dst.offset)),
                               Addr(src.page, srcPage.EntityPtr(src.offset)))];
      return Pass;
    }

    /** Appends the calls made through type-erased pointers to the log. */
    method Record(ghost calls: seq<Event>)
      requires Valid()
      modifies this`events
      ensures Valid() && OnlyEvents()
      ensures events == old(events) + calls
    {
      events := events + calls;
    }

    /** `forEachEntityImpl`; `asWritten` selects the component loop as the
        source has it (`componentPtr(beg, …)` every time round, see
        `ComponentLoopSkipsSlot`) rather than visiting slot `i`. The type's
        interface and page list are looked up with `.at`, so a type no page
        has been created for throws. The callback's calls are appended to
        the log: first one per run of each page of the type, then one per
        time round the component loop, for each embedded component of this
        type in the pages holding it. */
    method ForEachEntity(t: int, asWritten: bool) returns (r: Outcome<WorldError>)
      requires Valid()
      modifies this`events
      ensures Valid() && OnlyEvents()
      ensures !(0 <= t < |entityPagesByType|) ==> r == Fail(OutOfRange) && events == old(events)
      ensures 0 <= t < |entityPagesByType| ==>
        forall k :: 0 <= k < |entityPagesByType[t]| ==> 0 <= entityPagesByType[t][k] < |entityPages|
      ensures 0 <= t < |entityPagesByType| ==>
        r == Pass &&
        events == old(events) + PageVisits(occupied, strides, entityPagesByType[t]) +
                  ComponentVisits(occupied, strides, entityPagesByComponentType[t], entityInterfaces[t].entitySize, asWritten)
    {
      assert |entityPagesByType| <= |entityInterfaces|;
      if !(0 <= t < |entityInterfaces|) {
        return Fail(OutOfRange);
      }
      var entitySize := entityInterfaces[t].entitySize;
      if !(t < |entityPagesByType|) {
        return Fail(OutOfRange);
      }
      VisitType(t, entitySize, asWritten);
      return Pass;
    }

    /** The two loops of `forEachEntityImpl` for a type `t` that has its
        tables. */
    method VisitType(t: int, entitySize: int, asWritten: bool)
      requires Valid() && 0 <= t < |entityPagesByType|
      modifies this`events
      ensures Valid() && OnlyEvents()
      ensures forall k :: 0 <= k < |entityPagesByType[t]| ==> 0 <= entityPagesByType[t][k] < |entityPages|
      ensures forall k :: 0 <= k < |entityPagesByComponentType[t]| ==> 0 <= entityPagesByComponentType[t][k].pageId < |entityPages|
      ensures events == old(events) + PageVisits(occupied, strides, entityPagesByType[t]) +
                        ComponentVisits(occupied, strides, entityPagesByComponentType[t], entitySize, asWritten)
    {
      var ids := entityPagesByType[t];
      var infos := entityPagesByComponentType[t];
      ShapeIndices(pageTypes, entityPagesByType, entityPagesByComponentType, freePagesByType, t);
      ghost var pageCalls := VisitPages(entityPages, pageTypes, occupied, strides, ids);
      ghost var componentCalls := VisitComponents(entityPages, pageTypes, occupied, strides, infos, entitySize, asWritten);
      Record(pageCalls + componentCalls);
    }

    /** `World::~World`: every entity still stored is destroyed through the
        interface of its page's type, page by page and in ascending slot
        order. */
    method DestroyAll()
      requires Valid()
      modifies this
      ensures Valid() && OnlyEvents()
      ensures events == old(events) + Destructions(pageTypes, occupied, strides, |entityPages|)
    {
      ghost var calls := DestroyPages(entityPages, pageTypes, occupied, strides, |entityPages|);
      Record(calls);
    }
  }
}
