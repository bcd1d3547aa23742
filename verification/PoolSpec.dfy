/**
 What the memory pools do, as functions on an abstract state: how many heap bytes are taken
 and, per block size, which blocks were ever created, which are free and which are held by
 clients.  A block is named by the address of its header word; clients hold the address one
 word further.  The class in MemPool.dfy refines these functions on real memory.
 */
module PoolSpec {
  import opened Target
  import opened Heap
  import opened Sequences

  datatype Pool = Pool(
    free: seq<nat>,     // the blocks named by the free list, next one to hand out first
    held: set<nat>,     // the blocks that clients hold
    blocks: set<nat>)   // every block ever created for this pool

  datatype State = State(taken: nat, pools: map<nat, Pool>)

  const Initial := State(0, map[])

  // ---------------------------------------------------------------- heap requests

  /** Whether a request fits in what is left of a heap of the given size. */
  predicate Fits(heap: nat, st: State, bytes: nat) {
    heap - st.taken >= RoundUp(bytes)
  }

  function Take(st: State, bytes: nat): State {
    st.(taken := st.taken + RoundUp(bytes))
  }

  /** The application's own request, by which nothing but the heap changes. */
  function HeapRequest(heap: nat, st: State, bytes: nat): State {
    if bytes > 0 && FitsSizeT(bytes) && Fits(heap, st, bytes) then Take(st, bytes) else st
  }

  /** The heap bytes of one block node and of one block of the given size. */
  function NodeBytes(): nat {
    RoundUp(2 * W)
  }

  function BlockBytes(s: nat): nat {
    RoundUp(W + s)
  }

  // ---------------------------------------------------------------- create

  /** One iteration of the loop that adds blocks: a node first, then the block itself. */
  function AddBlock(heap: nat, st: State, s: nat): (State, bool)
    requires s in st.pools
  {
    if !Fits(heap, st, 2 * W) then (st, false)
    else
      var st1 := Take(st, 2 * W);
      if !Fits(heap, st1, W + s) then (st1, false)
      else
        var block := Address(st1.taken);
        var p := st1.pools[s];
        (State(Take(st1, W + s).taken,
               st1.pools[s := Pool([block] + p.free, p.held, p.blocks + {block})]), true)
  }

  /** The whole loop; it goes on after an iteration that failed. */
  function AddBlocks(heap: nat, st: State, n: nat, s: nat): (r: (State, bool))
    requires s in st.pools
    ensures r.0.pools.Keys == st.pools.Keys
  {
    if n == 0 then (st, true)
    else
      var (st1, ok1) := AddBlocks(heap, st, n - 1, s);
      var (st2, ok2) := AddBlock(heap, st1, s);
      (st2, ok1 && ok2)
  }

  /**
   The heap bytes taken after asking for a new pool's list node, its record and its two list
   heads, and whether all of them were there.  What was taken before a failure stays taken.
   (Where the first list head does not fit, the second one does not fit either.)
   */
  function PoolBytes(heap: nat, taken: nat): (nat, bool) {
    if heap - taken < RoundUp(2 * W) then (taken, false)
    else
      var t1 := taken + RoundUp(2 * W);
      if heap - t1 < RoundUp(3 * W) then (t1, false)
      else
        var t2 := t1 + RoundUp(3 * W);
        if heap - t2 < RoundUp(W) then (t2, false)
        else
          var t3 := t2 + RoundUp(W);
          if heap - t3 < RoundUp(W) then (t3, false)
          else (t3 + RoundUp(W), true)
  }

  /** A new empty pool. */
  function MakePool(heap: nat, st: State, s: nat): (r: (State, bool))
    ensures r.1 ==> s in r.0.pools
  {
    var (taken, ok) := PoolBytes(heap, st.taken);
    (State(taken, if ok then st.pools[s := Pool([], {}, {})] else st.pools), ok)
  }

  function Create(heap: nat, st: State, n: nat, s: nat): (State, bool) {
    if n == 0 || s == 0 then (st, false)
    else if s in st.pools then AddBlocks(heap, st, n, s)
    else
      var (st1, ok) := MakePool(heap, st, s);
      if ok then AddBlocks(heap, st1, n, s) else (st1, false)
  }

  // ---------------------------------------------------------------- allocate and release

  ghost predicate IsBestFit(sizes: set<nat>, size: nat, s: nat) {
    s in sizes && size <= s && forall t :: t in sizes && size <= t ==> s <= t
  }

  /** Takes a block out of the smallest pool that fits, if that one pool has a free block. */
  ghost function Allocate(st: State, size: nat): (State, nat) {
    if size > 0 && exists s :: IsBestFit(st.pools.Keys, size, s) then
      var s :| IsBestFit(st.pools.Keys, size, s);
      AllocateFrom(st, s)
    else (st, NULL)
  }

  function AllocateFrom(st: State, s: nat): (State, nat)
    requires s in st.pools
  {
    var p := st.pools[s];
    if p.free == [] then (st, NULL)
    else (st.(pools := st.pools[s := Pool(p.free[1..], p.held + {p.free[0]}, p.blocks)]),
          p.free[0] + 1)
  }

  ghost function AllocateAuto(heap: nat, st: State, size: nat): (State, nat) {
    if size == 0 then (st, NULL)
    else if size !in st.pools then
      var (st1, ok) := Create(heap, st, 1, size);
      if ok then Allocate(st1, size) else (st1, NULL)
    else
      AllocateOrGrow(heap, st, size)
  }

  /** Allocates; if that fails, adds one block of exactly this size and allocates again. */
  ghost function AllocateOrGrow(heap: nat, st: State, size: nat): (State, nat) {
    var (st1, p) := Allocate(st, size);
    if p != NULL then (st1, p)
    else
      var (st2, ok) := Create(heap, st1, 1, size);
      if ok then Allocate(st2, size) else (st2, NULL)
  }

  /** Whether a client holds the block with this data pointer, out of the pool of size s. */
  predicate Holds(st: State, s: nat, p: nat) {
    p > 0 && s in st.pools && p - 1 in st.pools[s].held
  }

  function Release(st: State, s: nat, p: nat): State
    requires Holds(st, s, p)
  {
    var pool := st.pools[s];
    st.(pools := st.pools[s := Pool([p - 1] + pool.free, pool.held - {p - 1}, pool.blocks)])
  }

  // ---------------------------------------------------------------- the invariant

  /** The free blocks are distinct and, with the held ones, partition all blocks created. */
  ghost predicate Partitioned(p: Pool) {
    && Distinct(p.free)
    && Elements(p.free) !! p.held
    && Elements(p.free) + p.held == p.blocks
  }

  /** Two blocks of size s and s' that do not share a word, headers included. */
  predicate Apart(s: nat, b: nat, s': nat, b': nat) {
    b + 1 + Words(s) <= b' || b' + 1 + Words(s') <= b
  }

  predicate IsBlock(pools: map<nat, Pool>, s: nat, b: nat) {
    s in pools && b in pools[s].blocks
  }

  ghost predicate Inv(heap: nat, st: State) {
    && st.taken <= heap && Aligned(st.taken)
    && (forall s :: s in st.pools ==> s > 0 && Partitioned(st.pools[s]))
    && (forall s: nat, b: nat | IsBlock(st.pools, s, b) ::
          0 < b && b + 1 + Words(s) <= Address(st.taken))
    && (forall s: nat, b: nat, s': nat, b': nat
          | IsBlock(st.pools, s, b) && IsBlock(st.pools, s', b') && (s != s' || b != b') ::
          Apart(s, b, s', b'))
  }

  lemma InvPartitioned(heap: nat, st: State, s: nat)
    requires Inv(heap, st) && s in st.pools
    ensures s > 0 && Partitioned(st.pools[s])
  {
  }

  lemma TakeInv(heap: nat, st: State, bytes: nat)
    requires Inv(heap, st) && Fits(heap, st, bytes)
    ensures Inv(heap, Take(st, bytes))
    ensures Address(Take(st, bytes).taken) == Address(st.taken) + Words(bytes)
  {
  }

  lemma HeapRequestInv(heap: nat, st: State, bytes: nat)
    requires Inv(heap, st)
    ensures Inv(heap, HeapRequest(heap, st, bytes))
  {
    if Fits(heap, st, bytes) {
      TakeInv(heap, st, bytes);
    }
  }

  /** A block above everything taken so far may join a pool. */
  lemma NewBlockInv(heap: nat, st: State, s: nat, b: nat, taken: nat)
    requires Inv(heap, st) && s in st.pools
    requires Address(st.taken) <= b && b + 1 + Words(s) <= Address(taken)
    requires st.taken <= taken <= heap && Aligned(taken)
    ensures var p := st.pools[s];
      Inv(heap, State(taken, st.pools[s := Pool([b] + p.free, p.held, p.blocks + {b})]))
  {
    var p := st.pools[s];
    var p' := Pool([b] + p.free, p.held, p.blocks + {b});
    var st' := State(taken, st.pools[s := p']);
    assert !IsBlock(st.pools, s, b);
    assert Partitioned(p') by {
      assert Elements(p'.free) == {b} + Elements(p.free);
      assert b !in Elements(p.free);
    }
    forall t: nat, c: nat | IsBlock(st'.pools, t, c)
      ensures IsBlock(st.pools, t, c) || (t == s && c == b)
      ensures 0 < c && c + 1 + Words(t) <= Address(st'.taken)
    {
    }
    forall t: nat, c: nat | IsBlock(st.pools, t, c)
      ensures Apart(t, c, s, b) && Apart(s, b, t, c)
    {
    }
  }

  lemma AddBlockInv(heap: nat, st: State, s: nat)
    requires Inv(heap, st) && s in st.pools
    ensures Inv(heap, AddBlock(heap, st, s).0)
  {
    if Fits(heap, st, 2 * W) {
      var st1 := Take(st, 2 * W);
      TakeInv(heap, st, 2 * W);
      if Fits(heap, st1, W + s) {
        TakeInv(heap, st1, W + s);
        NewBlockInv(heap, st1, s, Address(st1.taken), Take(st1, W + s).taken);
      }
    }
  }

  lemma {:induction false} AddBlocksInv(heap: nat, st: State, n: nat, s: nat)
    requires Inv(heap, st) && s in st.pools
    ensures Inv(heap, AddBlocks(heap, st, n, s).0)
  {
    if n > 0 {
      AddBlocksInv(heap, st, n - 1, s);
      AddBlockInv(heap, AddBlocks(heap, st, n - 1, s).0, s);
    }
  }

  lemma TakenAligned(taken: nat, bytes: nat)
    requires Aligned(taken)
    ensures Aligned(taken + RoundUp(bytes)) && Address(taken) <= Address(taken + RoundUp(bytes))
  {
  }

  lemma PoolBytesAligned(heap: nat, taken: nat)
    requires Aligned(taken) && taken <= heap
    ensures var (t, ok) := PoolBytes(heap, taken);
      Aligned(t) && taken <= t <= heap && Address(taken) <= Address(t)
  {
    var t1 := taken + RoundUp(2 * W);
    var t2 := t1 + RoundUp(3 * W);
    var t3 := t2 + RoundUp(W);
    TakenAligned(taken, 2 * W);
    TakenAligned(t1, 3 * W);
    TakenAligned(t2, W);
    TakenAligned(t3, W);
    hide Aligned, Address, RoundUp;
  }

  lemma MakePoolInv(heap: nat, st: State, s: nat)
    requires Inv(heap, st) && s > 0 && s !in st.pools
    ensures Inv(heap, MakePool(heap, st, s).0)
  {
    PoolBytesAligned(heap, st.taken);
    var pools := st.pools[s := Pool([], {}, {})];
    assert forall t: nat, c: nat :: IsBlock(pools, t, c) ==> IsBlock(st.pools, t, c);
  }

  lemma CreateInv(heap: nat, st: State, n: nat, s: nat)
    requires Inv(heap, st)
    ensures Inv(heap, Create(heap, st, n, s).0)
  {
    if n > 0 && s > 0 {
      if s in st.pools {
        AddBlocksInv(heap, st, n, s);
      } else {
        MakePoolInv(heap, st, s);
        var (st1, ok) := MakePool(heap, st, s);
        if ok { AddBlocksInv(heap, st1, n, s); }
      }
    }
  }

  /** Replacing a pool by one with the same blocks, still partitioned, keeps the invariant. */
  lemma SetPoolInv(heap: nat, st: State, s: nat, p: Pool)
    requires Inv(heap, st) && s in st.pools
    requires p.blocks == st.pools[s].blocks && Partitioned(p)
    ensures Inv(heap, st.(pools := st.pools[s := p]))
  {
    var pools := st.pools[s := p];
    assert forall t: nat, c: nat :: IsBlock(pools, t, c) ==> IsBlock(st.pools, t, c);
  }

  lemma AllocateFromInv(heap: nat, st: State, s: nat)
    requires Inv(heap, st) && s in st.pools
    ensures Inv(heap, AllocateFrom(st, s).0)
  {
    var p := st.pools[s];
    if p.free != [] {
      var p' := Pool(p.free[1..], p.held + {p.free[0]}, p.blocks);
      assert p.free == [p.free[0]] + p.free[1..];
      assert Elements(p.free) == {p.free[0]} + Elements(p.free[1..]);
      assert p.free[0] !in p.free[1..];
      SetPoolInv(heap, st, s, p');
    }
  }

  lemma AllocateInv(heap: nat, st: State, size: nat)
    requires Inv(heap, st)
    ensures Inv(heap, Allocate(st, size).0)
  {
    forall s | s in st.pools { AllocateFromInv(heap, st, s); }
  }

  lemma ReleaseInv(heap: nat, st: State, s: nat, p: nat)
    requires Inv(heap, st) && Holds(st, s, p)
    ensures Inv(heap, Release(st, s, p))
  {
    var pool := st.pools[s];
    var pool' := Pool([p - 1] + pool.free, pool.held - {p - 1}, pool.blocks);
    assert Elements(pool'.free) == {p - 1} + Elements(pool.free);
    assert p - 1 !in pool.free by { assert p - 1 !in Elements(pool.free); }
    SetPoolInv(heap, st, s, pool');
  }
}
