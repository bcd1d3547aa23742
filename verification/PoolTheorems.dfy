/**
 What one call to the memory pools does and does not do: when it succeeds, which pool it
 takes from, what it leaves alone, what a later call undoes and how much heap it uses.
 */
module PoolTheorems {
  import opened Target
  import opened Heap
  import opened PoolSpec
  import opened Sequences

  // ---------------------------------------------------------------- best fit

  /** If any pool is large enough there is exactly one best fit. */
  lemma {:induction false} BestFitExists(sizes: set<nat>, size: nat, t: nat) returns (s: nat)
    requires t in sizes && size <= t
    ensures IsBestFit(sizes, size, s) && forall u | IsBestFit(sizes, size, u) :: u == s
    ensures s in sizes && size <= s && forall u | u in sizes && size <= u :: s <= u
    decreases t
  {
    if IsBestFit(sizes, size, t) {
      s := t;
    } else {
      var u :| u in sizes && size <= u < t;
      s := BestFitExists(sizes, size, u);
    }
  }

  lemma AllocateIsFromBestFit(st: State, size: nat, s: nat)
    requires size > 0 && IsBestFit(st.pools.Keys, size, s)
    ensures Allocate(st, size) == AllocateFrom(st, s)
  {
    assert forall t | IsBestFit(st.pools.Keys, size, t) :: t == s;
  }

  /**
   Allocate succeeds if and only if the smallest pool that is large enough has a free block;
   there is no falling back to a larger pool.
   */
  lemma AllocateSucceedsIff(heap: nat, st: State, size: nat)
    requires Inv(heap, st)
    ensures Allocate(st, size).1 != NULL
            <==> size > 0 && exists s :: IsBestFit(st.pools.Keys, size, s) && st.pools[s].free != []
    ensures Allocate(st, size).1 == NULL ==> Allocate(st, size).0 == st
  {
  }

  /** It fails exactly if no pool is large enough, or the smallest one that is has no free block. */
  lemma AllocateFailsIff(heap: nat, st: State, size: nat)
    requires Inv(heap, st)
    ensures Allocate(st, size).1 == NULL <==>
            size == 0 || (forall s | s in st.pools :: s < size)
            || exists s :: IsBestFit(st.pools.Keys, size, s) && st.pools[s].free == []
  {
    AllocateSucceedsIff(heap, st, size);
    hide Inv, Allocate;
    if t :| t in st.pools && size <= t {
      var s := BestFitExists(st.pools.Keys, size, t);
    }
  }

  lemma AllocateFails(st: State, size: nat)
    requires forall s | IsBestFit(st.pools.Keys, size, s) :: st.pools[s].free == []
    ensures Allocate(st, size) == (st, NULL)
  {
  }

  /**
   An allocated block is from the smallest pool that is large enough, was free before, is held by
   nobody else and shares no word with any other block; every other pool and block keeps its state.
   */
  lemma AllocateGivesFreshBlock(heap: nat, st: State, size: nat)
    requires Inv(heap, st) && Allocate(st, size).1 != NULL
    ensures var (st', p) := Allocate(st, size);
      exists s :: && s in st.pools && size <= s && (forall t | t in st.pools && size <= t :: s <= t)
                  && !Holds(st, s, p) && Holds(st', s, p)
                  && st'.pools[s].held == st.pools[s].held + {p - 1}
                  && |st'.pools[s].held| == |st.pools[s].held| + 1
                  && st'.pools[s].free == st.pools[s].free[1..]
                  && st' == st.(pools := st.pools[s := st'.pools[s]])
                  && (forall t: nat, q: nat :: Holds(st, t, q) ==> Apart(s, p - 1, t, q - 1))
  {
    var s :| IsBestFit(st.pools.Keys, size, s);
    AllocateIsFromBestFit(st, size, s);
    var (st', p) := Allocate(st, size);
    var pool := st.pools[s];
    assert pool.free[0] in Elements(pool.free);
    assert p - 1 !in pool.held;
    forall t: nat, q: nat | Holds(st, t, q)
      ensures Apart(s, p - 1, t, q - 1)
    {
      assert IsBlock(st.pools, s, p - 1) && IsBlock(st.pools, t, q - 1);
    }
  }

  /** Releasing a block right after it was allocated restores the state, and the other way round. */
  lemma ReleaseUndoesAllocate(heap: nat, st: State, size: nat, s: nat)
    requires Inv(heap, st) && Allocate(st, size).1 != NULL
    requires IsBestFit(st.pools.Keys, size, s)
    ensures var (st', p) := Allocate(st, size);
      Holds(st', s, p) && Release(st', s, p) == st
  {
    AllocateIsFromBestFit(st, size, s);
    var (st', p) := Allocate(st, size);
    var pool := st.pools[s];
    assert pool.free[0] in Elements(pool.free);
    assert pool.free == [p - 1] + pool.free[1..];
    assert pool.held + {p - 1} - {p - 1} == pool.held;
    assert Release(st', s, p).pools[s] == pool;
    assert st'.pools[s := pool] == st.pools;
  }

  lemma AllocateUndoesRelease(heap: nat, st: State, s: nat, p: nat)
    requires Inv(heap, st) && Holds(st, s, p)
    ensures Allocate(Release(st, s, p), s) == (st, p)
  {
    var st' := Release(st, s, p);
    assert IsBestFit(st'.pools.Keys, s, s);
    AllocateIsFromBestFit(st', s, s);
    var pool, pool' := st.pools[s], st'.pools[s];
    assert pool'.free[1..] == pool.free;
    assert pool.held - {p - 1} + {p - 1} == pool.held;
    assert Allocate(st', s).0.pools[s] == pool;
    assert st'.pools[s := pool] == st.pools;
  }

  /** A block is held out of one pool only, the one whose size its header carries. */
  lemma HeldOnce(heap: nat, st: State, s: nat, t: nat, p: nat)
    requires Inv(heap, st) && Holds(st, s, p) && Holds(st, t, p)
    ensures s == t
  {
    assert IsBlock(st.pools, s, p - 1) && IsBlock(st.pools, t, p - 1);
  }

  /** Allocating hands out one block, of the returned size, and changes nobody's holdings. */
  lemma AllocateHolds(heap: nat, st: State, size: nat) returns (s: nat)
    requires Inv(heap, st)
    ensures var (st', p) := Allocate(st, size);
      if p == NULL then st' == st
      else
        && size <= s && Holds(st', s, p)
        && (forall t: nat, q: nat :: Holds(st', t, q) <==> Holds(st, t, q) || (t == s && q == p))
        && (forall t: nat :: !Holds(st, t, p))
  {
    s := 0;
    if Allocate(st, size).1 != NULL {
      s :| IsBestFit(st.pools.Keys, size, s);
      AllocateIsFromBestFit(st, size, s);
      var b := st.pools[s].free[0];
      assert b in Elements(st.pools[s].free);
      assert IsBlock(st.pools, s, b) && b !in st.pools[s].held;
      var p := b + 1;
      forall t: nat | Holds(st, t, p)
        ensures false
      {
        assert IsBlock(st.pools, t, b);
      }
    }
  }

  lemma {:induction false} AddBlocksHolds(heap: nat, st: State, n: nat, s: nat)
    requires s in st.pools
    ensures forall t: nat, q: nat :: Holds(AddBlocks(heap, st, n, s).0, t, q) <==> Holds(st, t, q)
  {
    if n > 0 {
      AddBlocksHolds(heap, st, n - 1, s);
    }
  }

  lemma CreateHolds(heap: nat, st: State, n: nat, s: nat)
    ensures forall t: nat, q: nat :: Holds(Create(heap, st, n, s).0, t, q) <==> Holds(st, t, q)
  {
    if n > 0 && s > 0 {
      if s in st.pools {
        AddBlocksHolds(heap, st, n, s);
      } else {
        var (st1, ok) := MakePool(heap, st, s);
        if ok {
          AddBlocksHolds(heap, st1, n, s);
        }
      }
    }
  }

  /** The same for an allocation that may grow the pool. */
  lemma GrowHolds(heap: nat, st: State, size: nat) returns (s: nat)
    requires Inv(heap, st)
    ensures var (st', p) := AllocateOrGrow(heap, st, size);
      if p == NULL then forall t: nat, q: nat :: Holds(st', t, q) <==> Holds(st, t, q)
      else
        && size <= s && Holds(st', s, p)
        && (forall t: nat, q: nat :: Holds(st', t, q) <==> Holds(st, t, q) || (t == s && q == p))
        && (forall t: nat :: !Holds(st, t, p))
  {
    s := AllocateHolds(heap, st, size);
    if Allocate(st, size).1 == NULL {
      var st1 := Create(heap, st, 1, size).0;
      CreateHolds(heap, st, 1, size);
      CreateInv(heap, st, 1, size);
      s := AllocateHolds(heap, st1, size);
    }
  }

  lemma AllocateAutoHolds(heap: nat, st: State, size: nat) returns (s: nat)
    requires Inv(heap, st)
    ensures var (st', p) := AllocateAuto(heap, st, size);
      if p == NULL then forall t: nat, q: nat :: Holds(st', t, q) <==> Holds(st, t, q)
      else
        && size <= s && Holds(st', s, p)
        && (forall t: nat, q: nat :: Holds(st', t, q) <==> Holds(st, t, q) || (t == s && q == p))
        && (forall t: nat :: !Holds(st, t, p))
  {
    if size > 0 && size !in st.pools {
      CreateHolds(heap, st, 1, size);
      CreateInv(heap, st, 1, size);
      s := AllocateHolds(heap, Create(heap, st, 1, size).0, size);
    } else {
      s := GrowHolds(heap, st, size);
    }
  }

  /** Growing is what comes after an allocation that failed, and it grows the pool of this size only. */
  lemma AllocateOrGrowIs(heap: nat, st: State, size: nat)
    ensures AllocateOrGrow(heap, st, size)
            == if Allocate(st, size).1 != NULL then Allocate(st, size) else AllocateAuto(heap, st, size)
  {
    if Allocate(st, size).1 == NULL {
      NullKeepsState(st, size);
    }
  }

  lemma NullKeepsState(st: State, size: nat)
    requires Allocate(st, size).1 == NULL
    ensures Allocate(st, size).0 == st
  {
  }

  // ---------------------------------------------------------------- create

  function Min(a: int, b: int): int {
    if a <= b then a else b
  }

  lemma BytesPositive(s: nat)
    ensures NodeBytes() > 0 && BlockBytes(s) > 0
  {
    RoundUpIsLeast(2 * W, 0);
    RoundUpIsLeast(W + s, 0);
  }

  /**
   The blocks that n iterations add when a heap bytes are free and a node and a block take the
   given numbers of bytes.
   */
  function Added(a: nat, n: nat, node: nat, block: nat): int
    requires node > 0
  {
    Min(n, a / (node + block))
  }

  /** The bytes that the failed iterations take: one node each, while nodes still fit. */
  function Wasted(a: nat, n: nat, node: nat, block: nat): int
    requires node > 0
  {
    node * Min(n - Added(a, n, node, block), a % (node + block) / node)
  }

  function TakenByBlocks(a: nat, n: nat, node: nat, block: nat): int
    requires node > 0
  {
    Added(a, n, node, block) * (node + block) + Wasted(a, n, node, block)
  }

  /** The blocks added and the bytes taken by n iterations, counted one iteration at a time. */
  function Counted(a: nat, n: nat, node: nat, block: nat): (nat, nat) {
    if n == 0 then (0, 0)
    else var (k, t) := Counted(a, n - 1, node, block); CountOne(a, k, t, node, block)
  }

  function CountOne(a: nat, k: nat, t: nat, node: nat, block: nat): (nat, nat) {
    if a - t >= node + block then (k + 1, t + node + block)
    else if a - t >= node then (k, t + node)
    else (k, t)
  }

  lemma CountOneShift(a: nat, k: nat, t: nat, node: nat, block: nat)
    requires t <= a
    ensures var (k', t') := CountOne(a - t, 0, 0, node, block);
      CountOne(a, k, t, node, block) == (k + k', t + t')
  {
  }

  lemma MulOneMore(x: int, d: int)
    ensures (x - 1) * d + d == x * d
    ensures d * (x - 1) + d == d * x
  {
  }

  lemma MulMonotone(x: int, y: int, d: int)
    requires x <= y && d >= 0
    ensures x * d <= y * d && d * x <= d * y
  {
  }

  /** While a whole node and block fit, every iteration adds a block. */
  lemma {:induction false} CountedWhileFitting(a: nat, n: nat, node: nat, block: nat)
    requires n * (node + block) <= a
    ensures Counted(a, n, node, block) == (n, n * (node + block))
  {
    if n > 0 {
      MulOneMore(n, node + block);
      CountedWhileFitting(a, n - 1, node, block);
    }
  }

  /**
   After q blocks fewer bytes are left than a node and a block take, enough for c nodes; every
   further iteration takes one of these and adds nothing.
   */
  lemma {:induction false} CountedWhenFailing(a: nat, q: nat, m: nat, node: nat, block: nat,
                                              left: nat, c: nat)
    requires a == q * (node + block) + left && left < node + block
    requires node * c <= left < node * c + node
    ensures Counted(a, q + m, node, block) == (q, q * (node + block) + node * Min(m, c))
  {
    if m == 0 {
      CountedWhileFitting(a, q, node, block);
    } else {
      CountedWhenFailing(a, q, m - 1, node, block, left, c);
      MulOneMore(m, node);
      if m <= c { MulMonotone(m, c, node); }
      MulMonotone(0, Min(m - 1, c), node);
    }
  }

  lemma DivMod(a: nat, d: nat)
    requires d > 0
    ensures a == a / d * d + a % d && a % d < d
    ensures d * (a / d) == a / d * d
  {
  }

  lemma CountedInClosedForm(a: nat, n: nat, node: nat, block: nat)
    requires node > 0
    ensures Counted(a, n, node, block) == (Added(a, n, node, block), TakenByBlocks(a, n, node, block))
  {
    var q := a / (node + block);
    DivMod(a, node + block);
    if n <= q {
      MulMonotone(n, q, node + block);
      CountedWhileFitting(a, n, node, block);
      ClosedFormWhileFitting(a, n, node, block);
    } else {
      var left := a % (node + block);
      DivMod(left, node);
      CountedWhenFailing(a, q, n - q, node, block, left, left / node);
    }
  }

  lemma ClosedFormWhileFitting(a: nat, n: nat, node: nat, block: nat)
    requires node > 0 && n <= a / (node + block)
    ensures Added(a, n, node, block) == n && TakenByBlocks(a, n, node, block) == n * (node + block)
  {
    assert Wasted(a, n, node, block) == node * 0;
  }

  /** The pools differ in the free blocks of one pool only: k new ones are there. */
  ghost predicate Grown(st: State, st': State, s: nat, k: nat) {
    && s in st.pools && s in st'.pools
    && |st'.pools[s].free| == |st.pools[s].free| + k && st'.pools[s].free[k..] == st.pools[s].free
    && |st'.pools[s].blocks| == |st.pools[s].blocks| + k
    && st'.pools[s].held == st.pools[s].held
    && st'.pools == st.pools[s := st'.pools[s]]
  }

  lemma GrownTwice(st: State, st1: State, st2: State, s: nat, k1: nat, k2: nat)
    requires Grown(st, st1, s, k1) && Grown(st1, st2, s, k2)
    ensures Grown(st, st2, s, k1 + k2)
  {
    assert st2.pools[s].free[k1 + k2..] == st2.pools[s].free[k2..][k1..];
  }

  ghost predicate BlocksBelow(st: State, s: nat) {
    s in st.pools && forall b :: b in st.pools[s].blocks ==> b < Address(st.taken)
  }

  /** One iteration adds a block exactly if a node and a block fit, and a node if just that fits. */
  lemma AddBlockCounted(heap: nat, st: State, s: nat, node: nat, block: nat)
    requires BlocksBelow(st, s) && st.taken <= heap
    requires node == NodeBytes() && block == BlockBytes(s)
    ensures var (st', ok) := AddBlock(heap, st, s);
      var (k, t) := CountOne(heap - st.taken, 0, 0, node, block);
      && Grown(st, st', s, k) && (ok <==> k == 1) && k <= 1
      && st'.taken == st.taken + t
      && BlocksBelow(st', s)
  {
    assert st.pools[s := st.pools[s]] == st.pools;
  }

  lemma {:induction false} AddBlocksCounted(heap: nat, st: State, n: nat, s: nat,
                                            node: nat, block: nat)
    requires BlocksBelow(st, s) && st.taken <= heap
    requires node == NodeBytes() && block == BlockBytes(s)
    ensures var (st', ok) := AddBlocks(heap, st, n, s);
      var (k, t) := Counted(heap - st.taken, n, node, block);
      && Grown(st, st', s, k) && k <= n && (ok <==> k == n)
      && st'.taken == st.taken + t <= heap
      && BlocksBelow(st', s)
  {
    if n == 0 {
      assert st.pools[s := st.pools[s]] == st.pools;
    } else {
      AddBlocksCounted(heap, st, n - 1, s, node, block);
      var (st1, ok1) := AddBlocks(heap, st, n - 1, s);
      AddBlockCounted(heap, st1, s, node, block);
      var (k1, t1) := Counted(heap - st.taken, n - 1, node, block);
      var (k2, t2) := CountOne(heap - st1.taken, 0, 0, node, block);
      CountOneShift(heap - st.taken, k1, t1, node, block);
      GrownTwice(st, st1, AddBlock(heap, st1, s).0, s, k1, k2);
    }
  }

  /**
   Extending a pool adds exactly as many blocks as were asked for or as fit, succeeds exactly
   if it added them all, and on failure wastes exactly the nodes that no longer found a block.
   The new blocks are handed out first.
   */
  lemma CreateExtendsExactly(heap: nat, st: State, n: nat, s: nat)
    requires Inv(heap, st) && s in st.pools && n > 0
    ensures NodeBytes() > 0
    ensures var (st', ok) := Create(heap, st, n, s);
      var a := heap - st.taken;
      var k := Added(a, n, NodeBytes(), BlockBytes(s));
      && |st'.pools[s].blocks| == |st.pools[s].blocks| + k
      && |st'.pools[s].free| == |st.pools[s].free| + k && k >= 0
      && st'.pools[s].free[k..] == st.pools[s].free
      && st'.pools[s].held == st.pools[s].held
      && st'.pools == st.pools[s := st'.pools[s]]
      && (ok <==> k == n)
      && st'.taken == st.taken + TakenByBlocks(a, n, NodeBytes(), BlockBytes(s))
  {
    hide Counted, CountOne, TakenByBlocks, Added;
    assert forall b: nat :: b in st.pools[s].blocks ==> IsBlock(st.pools, s, b);
    assert s > 0;
    hide Inv;
    BytesPositive(s);
    AddBlocksCounted(heap, st, n, s, NodeBytes(), BlockBytes(s));
    CountedInClosedForm(heap - st.taken, n, NodeBytes(), BlockBytes(s));
  }

  /** The bytes that are lost if a heap bytes do not hold a new pool's node, record and lists. */
  function LostWithPool(a: nat): nat {
    if a < Bytes(2) then 0 else if a < Bytes(5) then Bytes(2) else if a < Bytes(6) then Bytes(5) else Bytes(6)
  }

  lemma PoolBytesCounted(heap: nat, taken: nat)
    requires taken <= heap
    ensures var (t, ok) := PoolBytes(heap, taken);
      && (ok <==> heap - taken >= Bytes(7))
      && t == taken + if ok then Bytes(7) else LostWithPool(heap - taken)
  {
    StructureSizes(0);
    assert RoundUp(2 * W) == Bytes(2) && RoundUp(3 * W) == Bytes(3) && RoundUp(W) == Bytes(1);
    hide RoundUp;
    assert Bytes(2) + Bytes(3) == Bytes(5) && Bytes(5) + Bytes(1) == Bytes(6) && Bytes(6) + Bytes(1) == Bytes(7);
  }

  /**
   Creating a pool needs seven words of bookkeeping.  If they are not there no pool results and
   0, 2, 5 or 6 words are lost.  Otherwise there is one, even if it gets no block, and its blocks
   and the bytes taken are counted over what is left as when an existing pool is extended.
   */
  lemma CreateNewExactly(heap: nat, st: State, n: nat, s: nat)
    requires Inv(heap, st) && s !in st.pools && s > 0 && n > 0
    ensures NodeBytes() > 0
    ensures var (st', ok) := Create(heap, st, n, s);
      var a := heap - st.taken;
      if a < Bytes(7) then
        !ok && st' == State(st.taken + LostWithPool(a), st.pools)
      else
        var left := a - Bytes(7);
        var k := Added(left, n, NodeBytes(), BlockBytes(s));
        && s in st'.pools && st'.pools == st.pools[s := st'.pools[s]]
        && |st'.pools[s].blocks| == |st'.pools[s].free| == k && st'.pools[s].held == {}
        && (ok <==> k == n)
        && st'.taken == st.taken + Bytes(7) + TakenByBlocks(left, n, NodeBytes(), BlockBytes(s))
  {
    hide Counted, CountOne, TakenByBlocks, Added, PoolBytes;
    BytesPositive(s);
    PoolBytesCounted(heap, st.taken);
    var (st1, ok1) := MakePool(heap, st, s);
    if ok1 {
      hide Inv;
      AddBlocksCounted(heap, st1, n, s, NodeBytes(), BlockBytes(s));
      CountedInClosedForm(heap - st1.taken, n, NodeBytes(), BlockBytes(s));
    }
  }
}
