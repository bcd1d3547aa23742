/**
 How many blocks and how much heap the lists use over whole runs of list operations.  List
 headers and nodes are three words each, so that both come out of the same pool.
 */
module ListRuns {
  import opened Target
  import opened PoolSpec
  import opened PoolTheorems
  import opened PoolRuns
  import opened ListBlocks
  import opened Sequences

  // ---------------------------------------------------------------- the one pool

  /** There is no pool but the one with blocks of three words. */
  ghost predicate OnePool(heap: nat, st: State) {
    Inv(heap, st) && st.pools.Keys <= {3 * W}
  }

  ghost function FreeCount(st: State): nat {
    if 3 * W in st.pools then |st.pools[3 * W].free| else 0
  }

  /** One block asked for is one block more, or none if the request fails. */
  lemma CreateOne(heap: nat, st: State)
    requires OnePool(heap, st)
    ensures var (st', ok) := Create(heap, st, 1, 3 * W);
      && OnePool(heap, st')
      && BlockCount(st', 3 * W) == BlockCount(st, 3 * W) + (if ok then 1 else 0)
      && HeldCount(st', 3 * W) == HeldCount(st, 3 * W)
  {
    CreateInv(heap, st, 1, 3 * W);
    BytesPositive(3 * W);
    var a := heap - st.taken;
    if 3 * W in st.pools {
      CreateExtendsExactly(heap, st, 1, 3 * W);
      AddedOne(a);
    } else {
      CreateNewExactly(heap, st, 1, 3 * W);
    }
    hide Inv, Create, Added, TakenByBlocks;
  }

  lemma AddedOne(a: nat)
    ensures NodeBytes() > 0 && 0 <= Added(a, 1, NodeBytes(), BlockBytes(3 * W)) <= 1
  {
    BytesPositive(3 * W);
  }

  /** There are two blocks exactly if both first requests are granted, and never more. */
  lemma FirstPoolsMade(heap: nat, taken: nat)
    requires Aligned(taken) && taken <= heap
    ensures var (st, ok) := FirstPools(heap, State(taken, map[]));
      && OnePool(heap, st) && HeldCount(st, 3 * W) == 0
      && BlockCount(st, 3 * W) <= 2 && (ok <==> BlockCount(st, 3 * W) == 2)
  {
    hide Create;
    var st := State(taken, map[]);
    assert Inv(heap, st);
    CreateOne(heap, st);
    CreateOne(heap, Create(heap, st, 1, 3 * W).0);
  }

  /** Only a pool that exists is asked twice. */
  lemma GetIsAuto(heap: nat, st: State)
    requires OnePool(heap, st)
    ensures AllocateOrGrow(heap, st, 3 * W) == AllocateAuto(heap, st, 3 * W)
  {
    if 3 * W !in st.pools {
      assert forall s :: !IsBestFit(st.pools.Keys, 3 * W, s);
    }
  }

  lemma GetKeys(heap: nat, st: State)
    requires OnePool(heap, st)
    ensures AllocateOrGrow(heap, st, 3 * W).0.pools.Keys <= {3 * W}
  {
    var s := 3 * W;
    GetIsAuto(heap, st);
    if s !in st.pools {
      GrowNewPool(heap, st, s);
    } else if st.pools[s].free == [] {
      GrowFullPool(heap, st, s);
    } else {
      ExactFit(st, s);
    }
  }

  /** The block that a list operation gets is from the one pool and is held from then on. */
  lemma GetEffect(heap: nat, st: State)
    requires OnePool(heap, st)
    ensures var (st', p) := AllocateOrGrow(heap, st, 3 * W);
      && OnePool(heap, st')
      && forall q: nat :: Holds(st', 3 * W, q) <==> Holds(st, 3 * W, q) || (p != NULL && q == p)
  {
    AllocateOrGrowInv(heap, st, 3 * W);
    GetKeys(heap, st);
    var s := GrowHolds(heap, st, 3 * W);
    HeldKeys(AllocateOrGrow(heap, st, 3 * W).0, s);
    hide Inv, AllocateOrGrow, Holds;
  }

  lemma GetCounts(heap: nat, st: State)
    requires OnePool(heap, st)
    ensures var st' := AllocateOrGrow(heap, st, 3 * W).0;
      BlockCount(st', 3 * W) == Max(BlockCount(st, 3 * W), HeldCount(st', 3 * W))
  {
    AllocateOrGrowInv(heap, st, 3 * W);
    GetIsAuto(heap, st);
    AllocateAutoPeak(heap, st, 3 * W, 3 * W);
    HeldWithinBlocks(heap, AllocateOrGrow(heap, st, 3 * W).0, 3 * W);
    HeldWithinBlocks(heap, st, 3 * W);
    hide Inv, AllocateOrGrow, BlockCount, HeldCount;
  }

  lemma HeldKeys(st: State, s: nat)
    ensures forall p: nat :: Holds(st, s, p) ==> s in st.pools.Keys
  {
  }

  lemma ReleaseOnlyHeld(st: State, s: nat, p: nat)
    requires Holds(st, s, p)
    ensures forall q: nat :: Holds(Release(st, s, p), s, q) <==> Holds(st, s, q) && q != p
  {
  }

  // ---------------------------------------------------------------- giving many blocks back

  /** Every one of these blocks is held, out of the pool for three words. */
  ghost predicate AllHeld(st: State, owner: map<nat, Owner>, ps: seq<nat>) {
    forall p | p in ps :: p in owner && owner[p].s == 3 * W && Holds(st, 3 * W, p)
  }

  /** Giving different blocks back frees exactly these and takes or returns no heap. */
  lemma {:induction false} ReleaseNodesEffect(heap: nat, st: State, owner: map<nat, Owner>, ps: seq<nat>)
    requires Inv(heap, st) && Distinct(ps) && AllHeld(st, owner, ps)
    ensures var st' := ReleaseNodes(st, owner, ps);
      && Inv(heap, st') && st'.pools.Keys == st.pools.Keys
      && BlockCount(st', 3 * W) == BlockCount(st, 3 * W)
      && (forall p: nat :: Holds(st', 3 * W, p) <==> Holds(st, 3 * W, p) && p !in ps)
      && st'.taken == st.taken
      && FreeCount(st') == FreeCount(st) + |ps|
  {
    if ps != [] {
      var init, p := ps[..|ps| - 1], ps[|ps| - 1];
      assert ps == init + [p];
      LastIsNew(ps);
      ReleaseNodesEffect(heap, st, owner, init);
      var st1 := ReleaseNodes(st, owner, init);
      hide Inv, Distinct;
      assert p in ps;
      ReleaseOne(heap, st1, p);
    }
  }

  lemma ReleaseOne(heap: nat, st: State, p: nat)
    requires Inv(heap, st) && Holds(st, 3 * W, p)
    ensures var st' := Release(st, 3 * W, p);
      && Inv(heap, st') && st'.pools.Keys == st.pools.Keys
      && BlockCount(st', 3 * W) == BlockCount(st, 3 * W)
      && (forall q: nat :: Holds(st', 3 * W, q) <==> Holds(st, 3 * W, q) && q != p)
      && st'.taken == st.taken
      && FreeCount(st') == FreeCount(st) + 1
  {
    ReleaseInv(heap, st, 3 * W, p);
    ReleaseOnlyHeld(st, 3 * W, p);
    hide Inv;
  }

  /** The pools after asking for k blocks, and whether all of them were there. */
  ghost function GetMany(heap: nat, st: State, k: nat): (State, bool) {
    if k == 0 then (st, true)
    else
      var (st1, ok) := GetMany(heap, st, k - 1);
      var (st2, p) := AllocateOrGrow(heap, st1, 3 * W);
      (st2, ok && p != NULL)
  }

  lemma {:induction false} GetManyFromFree(heap: nat, st: State, k: nat)
    requires k <= FreeCount(st)
    ensures var (st', ok) := GetMany(heap, st, k);
      ok && st'.taken == st.taken && FreeCount(st') == FreeCount(st) - k
  {
    if k > 0 {
      GetManyFromFree(heap, st, k - 1);
      ExactFit(GetMany(heap, st, k - 1).0, 3 * W);
    }
  }

  /** Giving n blocks back and asking for no more than n takes nothing from the heap. */
  lemma RebuildTakesNothing(heap: nat, st: State, owner: map<nat, Owner>, ps: seq<nat>, k: nat)
    requires Inv(heap, st) && Distinct(ps) && AllHeld(st, owner, ps) && k <= |ps|
    ensures var st1 := ReleaseNodes(st, owner, ps);
      && FreeCount(st1) == FreeCount(st) + |ps|
      && GetMany(heap, st1, k).1 && GetMany(heap, st1, k).0.taken == st.taken
  {
    ReleaseNodesEffect(heap, st, owner, ps);
    GetManyFromFree(heap, ReleaseNodes(st, owner, ps), k);
  }

  // ---------------------------------------------------------------- one pool for all lists

  /** There is a pool for three words, and every block of a list is from it; others may exist. */
  ghost predicate AllFromThree(u: Usage) {
    3 * W in u.st.pools && forall d | d in u.owner :: u.owner[d].s == 3 * W
  }

  /** Where the pool for three words exists it is the one that a list gets its block from. */
  lemma GetFromThree(heap: nat, st: State, s: nat)
    requires Inv(heap, st) && 3 * W in st.pools
    ensures var (st', p) := AllocateOrGrow(heap, st, 3 * W);
      3 * W in st'.pools && (p != NULL && Holds(st', s, p) ==> s == 3 * W)
  {
    var (st', p) := AllocateOrGrow(heap, st, 3 * W);
    AllocateAutoIsExact(heap, st, 3 * W);
    PoolsStay(heap, st, DoAllocateAuto(3 * W));
    if p != NULL && Holds(st', s, p) {
      AllocateOrGrowInv(heap, st, 3 * W);
      hide Inv, AllocateOrGrow;
      HeldOnce(heap, st', s, 3 * W, p);
    }
  }

  /** That is so from the first list on if a first request makes the pool, or it was there before. */
  lemma NewListFromThree(heap: nat, u: Usage, v: Usage)
    requires Inv(heap, u.st) && NewListNext(heap, u, v)
    requires 3 * W in PoolsForNew(heap, u).0.pools && forall d | d in u.owner :: u.owner[d].s == 3 * W
    ensures AllFromThree(v)
  {
    var (st, ok) := PoolsForNew(heap, u);
    if ok {
      CreateInv(heap, u.st, 1, 3 * W);
      CreateInv(heap, Create(heap, u.st, 1, 3 * W).0, 1, 3 * W);
      hide Inv, AllocateOrGrow, Create, Holds;
      var p := AllocateOrGrow(heap, st, 3 * W).1;
      GetFromThree(heap, st, if p in v.owner then v.owner[p].s else 0);
    }
  }

  lemma {:induction false} ReleaseNodesKeys(st: State, owner: map<nat, Owner>, ps: seq<nat>)
    ensures ReleaseNodes(st, owner, ps).pools.Keys == st.pools.Keys
  {
    if ps != [] {
      ReleaseNodesKeys(st, owner, ps[..|ps| - 1]);
    }
  }

  /** And it stays so, whatever the lists do. */
  lemma NextFromThree(heap: nat, u: Usage, op: ListBlocks.Op, v: Usage)
    requires Inv(heap, u.st) && AllFromThree(u) && Next(heap, u, op, v)
    ensures AllFromThree(v)
  {
    match op
    case NewList =>
      CreateKeeps(heap, u.st, 1, 3 * W);
      CreateKeeps(heap, Create(heap, u.st, 1, 3 * W).0, 1, 3 * W);
      hide Inv, AllocateOrGrow, Create, Holds, NewListNext;
      NewListFromThree(heap, u, v);
    case Insert(list, k) =>
      hide Inv, AllocateOrGrow, Holds;
      var p := AllocateOrGrow(heap, u.st, 3 * W).1;
      GetFromThree(heap, u.st, if p in v.owner then v.owner[p].s else 0);
    case Remove(list, k) =>
      hide Inv;
    case Clear(list) =>
      hide Inv, ReleaseNodes;
      ReleaseNodesKeys(u.st, u.owner, u.lists[list]);
    case Delete(list) =>
      hide Inv, ReleaseNodes;
      ReleaseNodesKeys(u.st, u.owner, u.lists[list] + [list]);
  }

  // ---------------------------------------------------------------- steps

  /** Only lists use the pools: exactly the headers and nodes are held. */
  ghost predicate Tracked(heap: nat, u: Usage) {
    && u.created && OnePool(heap, u.st) && Consistent(u.lists, u.owner)
    && (forall p: nat :: p in u.owner <==> Holds(u.st, 3 * W, p))
    && (forall d | d in u.owner :: u.owner[d].s == 3 * W)
  }

  /** As many blocks are held as the live lists have headers and nodes. */
  lemma HeldIsNeeded(heap: nat, u: Usage)
    requires Tracked(heap, u)
    ensures HeldCount(u.st, 3 * W) == BlocksNeeded(u.lists)
    ensures HeldCount(u.st, 3 * W) <= BlockCount(u.st, 3 * W)
  {
    BlocksInUse(u.lists, u.owner);
    HeldWithinBlocks(heap, u.st, 3 * W);
    SamePointers(u);
    hide Inv, Consistent, BlocksNeeded;
    PointersCount(Held(u.st));
  }

  ghost function Held(st: State): set<nat> {
    if 3 * W in st.pools then st.pools[3 * W].held else {}
  }

  /** The data pointers of the given blocks. */
  ghost function Pointers(blocks: set<nat>): set<nat> {
    set b | b in blocks :: b + 1
  }

  lemma SamePointers(u: Usage)
    requires forall p: nat :: p in u.owner <==> Holds(u.st, 3 * W, p)
    ensures u.owner.Keys == Pointers(Held(u.st))
  {
    forall b | b in Held(u.st)
      ensures b + 1 in u.owner
    {
      assert Holds(u.st, 3 * W, b + 1);
    }
  }

  lemma {:induction false} PointersCount(blocks: set<nat>)
    ensures |Pointers(blocks)| == |blocks|
  {
    if blocks != {} {
      var b :| b in blocks;
      PointersCount(blocks - {b});
      forall p | p in Pointers(blocks)
        ensures p == b + 1 || p in Pointers(blocks - {b})
      {
        assert p == b + 1 || p - 1 in blocks - {b};
      }
      assert Pointers(blocks) == Pointers(blocks - {b}) + {b + 1};
    } else {
      assert Pointers(blocks) == {};
    }
  }

  /** A block that a list got is of the one pool. */
  lemma NewOwner(heap: nat, u: Usage, v: Usage, st: State, list: nat)
    requires Tracked(heap, u) && OnePool(heap, st)
    requires forall q: nat :: Holds(st, 3 * W, q) <==> Holds(u.st, 3 * W, q)
    requires var (st1, p) := AllocateOrGrow(heap, st, 3 * W);
      v.st == st1 && p != NULL && UsedFor(v, p, list)
    ensures var p := AllocateOrGrow(heap, st, 3 * W).1;
      v.owner[p] == Owner(list, 3 * W) && p !in u.owner && OnePool(heap, v.st)
      && (forall q: nat :: Holds(v.st, 3 * W, q) <==> Holds(u.st, 3 * W, q) || q == p)
  {
    var p := AllocateOrGrow(heap, st, 3 * W).1;
    GetEffect(heap, st);
    var s := GrowHolds(heap, st, 3 * W);
    HeldKeys(v.st, v.owner[p].s);
    hide Inv, AllocateOrGrow, Consistent;
  }

  /** What a step keeps, and that it adds blocks only to use them. */
  ghost predicate Grows(heap: nat, u: Usage, v: Usage) {
    && Tracked(heap, v)
    && BlockCount(v.st, 3 * W) == Max(BlockCount(u.st, 3 * W), BlocksNeeded(v.lists))
  }

  /** With one block more held and noted all blocks held are noted still. */
  lemma TrackedMore(heap: nat, u: Usage, v: Usage, p: nat, list: nat)
    requires Tracked(heap, u) && v.created && OnePool(heap, v.st) && Consistent(v.lists, v.owner)
    requires v.owner == u.owner[p := Owner(list, 3 * W)]
    requires forall q: nat :: Holds(v.st, 3 * W, q) <==> Holds(u.st, 3 * W, q) || q == p
    ensures Tracked(heap, v)
  {
    hide OnePool, Consistent, Holds;
  }

  /** A list got a block. */
  lemma GetGrows(heap: nat, u: Usage, v: Usage, list: nat)
    requires Tracked(heap, u) && v.created && Consistent(v.lists, v.owner)
    requires var (st, p) := AllocateOrGrow(heap, u.st, 3 * W);
      && v.st == st && p != NULL && UsedFor(v, p, list)
      && v.owner == u.owner[p := v.owner[p]]
    ensures Grows(heap, u, v)
  {
    NewOwner(heap, u, v, u.st, list);
    GetCounts(heap, u.st);
    hide AllocateOrGrow, Consistent, OnePool, BlockCount, Holds;
    TrackedMore(heap, u, v, AllocateOrGrow(heap, u.st, 3 * W).1, list);
    hide Tracked;
    HeldIsNeeded(heap, v);
  }

  /** No list got a block, and the pools are as before but for what the heap lost. */
  lemma GetNothingGrows(heap: nat, u: Usage, v: Usage)
    requires Tracked(heap, u) && AllocateOrGrow(heap, u.st, 3 * W).1 == NULL
    requires v == u.(st := AllocateOrGrow(heap, u.st, 3 * W).0)
    ensures Grows(heap, u, v)
  {
    GetCounts(heap, u.st);
    GetEffect(heap, u.st);
    hide AllocateOrGrow, Consistent, OnePool, BlockCount, Holds;
    HeldIsNeeded(heap, v);
  }

  lemma InsertGrows(heap: nat, u: Usage, list: nat, k: nat, v: Usage)
    requires Tracked(heap, u) && InsertNext(heap, u, list, k, v)
    ensures Grows(heap, u, v)
  {
    hide AllocateOrGrow, Consistent, OnePool, Holds, Grows;
    var p := AllocateOrGrow(heap, u.st, 3 * W).1;
    if p == NULL {
      GetNothingGrows(heap, u, v);
    } else {
      NewOwner(heap, u, v, u.st, list);
      ConsistentInsert(u.lists, u.owner, list, k, p, 3 * W);
      GetGrows(heap, u, v, list);
    }
  }

  /** Blocks given back lower the number in use only. */
  lemma ReleaseGrows(heap: nat, u: Usage, v: Usage)
    requires Tracked(heap, u) && Tracked(heap, v)
    requires BlockCount(v.st, 3 * W) == BlockCount(u.st, 3 * W)
    ensures Grows(heap, u, v)
  {
    HeldIsNeeded(heap, v);
  }

  lemma RemoveGrows(heap: nat, u: Usage, list: nat, k: nat, v: Usage)
    requires Tracked(heap, u) && RemoveNext(u, list, k, v)
    ensures Grows(heap, u, v)
  {
    ReleaseOne(heap, u.st, u.lists[list][k]);
    ConsistentRemove(u.lists, u.owner, list, k);
    hide Consistent, OnePool, BlockCount, Holds, Release;
    ReleaseGrows(heap, u, v);
  }

  lemma BlocksHeld(heap: nat, u: Usage, list: nat)
    requires Tracked(heap, u) && list in u.lists
    ensures var blocks := u.lists[list] + [list];
      && Distinct(u.lists[list]) && AllHeld(u.st, u.owner, u.lists[list])
      && Distinct(blocks) && AllHeld(u.st, u.owner, blocks)
  {
    assert OwnBlocks(u.owner, list, u.lists[list]);
    hide OnePool, Holds;
  }

  lemma ClearGrows(heap: nat, u: Usage, list: nat, v: Usage)
    requires Tracked(heap, u) && ClearNext(u, list, v)
    ensures Grows(heap, u, v)
  {
    BlocksHeld(heap, u, list);
    ReleaseNodesEffect(heap, u.st, u.owner, u.lists[list]);
    ConsistentClear(u.lists, u.owner, list);
    hide Consistent, OnePool, BlockCount, Holds, ReleaseNodes, Distinct, AllHeld;
    ReleaseGrows(heap, u, v);
  }

  lemma DeleteGrows(heap: nat, u: Usage, list: nat, v: Usage)
    requires Tracked(heap, u) && DeleteNext(u, list, v)
    ensures Grows(heap, u, v)
  {
    BlocksHeld(heap, u, list);
    ReleaseNodesEffect(heap, u.st, u.owner, u.lists[list] + [list]);
    ConsistentDelete(u.lists, u.owner, list);
    hide Consistent, OnePool, BlockCount, Holds, ReleaseNodes, Distinct, AllHeld;
    ReleaseGrows(heap, u, v);
  }

  lemma NewListGrows(heap: nat, u: Usage, v: Usage)
    requires Tracked(heap, u) && NewListNext(heap, u, v)
    ensures Grows(heap, u, v)
  {
    hide AllocateOrGrow, Consistent, OnePool, Holds, Grows, FirstPools;
    var p := AllocateOrGrow(heap, u.st, 3 * W).1;
    if p == NULL {
      GetNothingGrows(heap, u, v);
    } else {
      NewOwner(heap, u, v, u.st, p);
      ConsistentNew(u.lists, u.owner, p, 3 * W);
      GetGrows(heap, u, v, p);
    }
  }

  /** Every list operation keeps exactly the headers and nodes held and adds blocks only to use them. */
  lemma NextGrows(heap: nat, u: Usage, op: ListBlocks.Op, v: Usage)
    requires Tracked(heap, u) && Next(heap, u, op, v)
    ensures Grows(heap, u, v)
  {
    hide Tracked, Grows, NewListNext, InsertNext, RemoveNext, ClearNext, DeleteNext;
    match op
    case NewList => NewListGrows(heap, u, v);
    case Insert(list, k) => InsertGrows(heap, u, list, k, v);
    case Remove(list, k) => RemoveGrows(heap, u, list, k, v);
    case Clear(list) => ClearGrows(heap, u, list, v);
    case Delete(list) => DeleteGrows(heap, u, list, v);
  }

  /** The application may take heap for itself at any time. */
  lemma HeapRequestGrows(heap: nat, u: Usage, bytes: nat)
    requires Tracked(heap, u)
    ensures Grows(heap, u, u.(st := HeapRequest(heap, u.st, bytes)))
  {
    HeapRequestInv(heap, u.st, bytes);
    hide Inv, Consistent;
    HeldIsNeeded(heap, u.(st := HeapRequest(heap, u.st, bytes)));
  }

  // ---------------------------------------------------------------- runs

  /**
   A run from before the first list on, as the states that it goes through.  The application has
   taken some of the heap already and may take more between any two list operations.
   */
  ghost predicate History(heap: nat, taken: nat, us: seq<Usage>) {
    us != [] && if |us| == 1 then us[0] == Unused(taken) && Aligned(taken) && taken <= heap
                else History(heap, taken, us[..|us| - 1]) && Follows(heap, us[|us| - 2], us[|us| - 1])
  }

  ghost predicate Follows(heap: nat, u: Usage, v: Usage) {
    || (exists op :: Next(heap, u, op, v))
    || (u.created && exists bytes :: v == u.(st := HeapRequest(heap, u.st, bytes)))
  }

  /** The largest number of headers and nodes that live lists had at the same time. */
  ghost function Peak(us: seq<Usage>): nat {
    if us == [] then 0 else Max(Peak(us[..|us| - 1]), BlocksNeeded(us[|us| - 1].lists))
  }

  /** Right after both requests for the pools. */
  ghost function Prepared(heap: nat, taken: nat): Usage {
    Usage(FirstPools(heap, Unused(taken).st).0, true, map[], map[])
  }

  lemma PreparedTracked(heap: nat, taken: nat)
    requires Aligned(taken) && taken <= heap
    ensures Tracked(heap, Prepared(heap, taken))
  {
    FirstPoolsMade(heap, taken);
    var st := Prepared(heap, taken).st;
    hide FirstPools;
    assert Held(st) == {};
    assert forall p: nat :: !Holds(st, 3 * W, p);
  }

  /** The first operation that does anything is the first call that makes a list, with the pools. */
  lemma FirstStep(heap: nat, taken: nat, op: ListBlocks.Op, v: Usage)
    requires Aligned(taken) && taken <= heap && Next(heap, Unused(taken), op, v)
    ensures Grows(heap, Prepared(heap, taken), v)
  {
    PreparedTracked(heap, taken);
    assert op.NewList?;
    if FirstPools(heap, Unused(taken).st).1 {
      assert NewListNext(heap, Prepared(heap, taken), v);
      hide NewListNext, FirstPools, Tracked, Next, Grows;
      NewListGrows(heap, Prepared(heap, taken), v);
    } else {
      assert BlocksNeeded(v.lists) == 0;
    }
  }

  /** One step more, which is a list operation or a request of the application. */
  lemma FollowsGrows(heap: nat, u: Usage, v: Usage)
    requires Tracked(heap, u) && Follows(heap, u, v)
    ensures Grows(heap, u, v)
  {
    hide Tracked, Grows, Next;
    if op :| Next(heap, u, op, v) {
      NextGrows(heap, u, op, v);
    } else {
      var bytes :| v == u.(st := HeapRequest(heap, u.st, bytes));
      HeapRequestGrows(heap, u, bytes);
    }
  }

  /**
   If only lists use the pools, then after any run of list operations that did anything the one
   pool, shared by headers and nodes, has as many blocks as the first requests made, or as many
   as the live lists had headers and nodes at the same time, whichever is more.
   */
  lemma {:induction false} BlocksAreTwoOrThePeak(heap: nat, taken: nat, us: seq<Usage>)
    requires History(heap, taken, us)
    ensures var (st, granted) := FirstPools(heap, Unused(taken).st);
      var u, first := us[|us| - 1], BlockCount(st, 3 * W);
      && (granted <==> first == 2)
      && if |us| == 1 then u == Unused(taken) && Peak(us) == 0
         else Tracked(heap, u) && BlockCount(u.st, 3 * W) == Max(first, Peak(us))
  {
    HistoryStart(heap, taken, us);
    FirstPoolsMade(heap, taken);
    hide FirstPools, Tracked, BlockCount, Next, OnePool;
    var init := us[..|us| - 1];
    if |us| == 1 {
      assert init == [] && BlocksNeeded(map[]) == 0;
    } else {
      var u, v := us[|us| - 2], us[|us| - 1];
      assert u == init[|init| - 1];
      BlocksAreTwoOrThePeak(heap, taken, init);
      if |us| == 2 {
        var op :| Next(heap, u, op, v);
        FirstStep(heap, taken, op, v);
      } else {
        hide Follows;
        FollowsGrows(heap, u, v);
      }
    }
  }

  lemma {:induction false} HistoryStart(heap: nat, taken: nat, us: seq<Usage>)
    requires History(heap, taken, us)
    ensures Aligned(taken) && taken <= heap
  {
    if |us| > 1 {
      HistoryStart(heap, taken, us[..|us| - 1]);
    }
  }
}
