/**
 What holds over whole runs of the memory pools, from the empty heap on.
 */
module PoolRuns {
  import opened Target
  import opened PoolSpec
  import opened Sequences
  import opened PoolTheorems

  datatype Op =
    | DoCreate(n: nat, s: nat)
    | DoAllocate(size: nat)
    | DoAllocateAuto(size: nat)
    | DoRelease(p: nat)
    | DoHeapAllocate(bytes: nat)  // by the application, for itself

  /** Clients release only what they hold, and so nothing twice. */
  ghost predicate Enabled(st: State, op: Op) {
    op.DoRelease? ==> exists s :: Holds(st, s, op.p)
  }

  ghost function Step(heap: nat, st: State, op: Op): State {
    match op
    case DoCreate(n, s) => Create(heap, st, n, s).0
    case DoAllocate(size) => Allocate(st, size).0
    case DoAllocateAuto(size) => AllocateAuto(heap, st, size).0
    case DoRelease(p) =>
      if exists s :: Holds(st, s, p) then var s :| Holds(st, s, p); Release(st, s, p) else st
    case DoHeapAllocate(bytes) => HeapRequest(heap, st, bytes)
  }

  /** The state after the given calls. */
  ghost function Run(heap: nat, ops: seq<Op>): State {
    if ops == [] then Initial else Step(heap, Run(heap, ops[..|ops| - 1]), ops[|ops| - 1])
  }

  /** The calls that clients may make one after the other. */
  ghost predicate Legal(heap: nat, ops: seq<Op>) {
    ops == [] || (Legal(heap, ops[..|ops| - 1])
                  && Enabled(Run(heap, ops[..|ops| - 1]), ops[|ops| - 1]))
  }

  // ---------------------------------------------------------------- automatic growth

  /** The heap bytes of a new pool with one block. */
  function PoolAndBlockBytes(s: nat): nat {
    RoundUp(2 * W) + RoundUp(3 * W) + RoundUp(W) + RoundUp(W) + NodeBytes() + BlockBytes(s)
  }

  /** The bytes that are lost if a heap bytes hold no block with its node. */
  function LostWithNode(a: nat): nat {
    if a >= NodeBytes() then NodeBytes() else 0
  }

  lemma PoolBytesAre(s: nat)
    ensures PoolAndBlockBytes(s) == Bytes(7) + NodeBytes() + BlockBytes(s)
  {
    StructureSizes(0);
    assert RoundUp(2 * W) == Bytes(2) && RoundUp(3 * W) == Bytes(3) && RoundUp(W) == Bytes(1);
    assert Bytes(2) + Bytes(3) + Bytes(1) + Bytes(1) == Bytes(7);
  }

  lemma ExactFit(st: State, s: nat)
    requires s in st.pools && s > 0
    ensures Allocate(st, s) == AllocateFrom(st, s)
  {
    assert IsBestFit(st.pools.Keys, s, s);
    AllocateIsFromBestFit(st, s, s);
  }

  lemma AddOneBlock(heap: nat, st: State, s: nat)
    requires s in st.pools
    ensures AddBlocks(heap, st, 1, s) == AddBlock(heap, st, s)
  {
    assert AddBlocks(heap, st, 0, s) == (st, true);
  }

  /** Growing a full pool: the new block goes straight to the client, or at most its node is lost. */
  lemma GrowFullPool(heap: nat, st: State, s: nat)
    requires Inv(heap, st) && s in st.pools && st.pools[s].free == []
    ensures var (st', p) := AllocateOrGrow(heap, st, s);
      var pool := st.pools[s];
      if heap - st.taken >= NodeBytes() + BlockBytes(s) then
        && p != NULL && p - 1 !in pool.blocks
        && st' == State(st.taken + NodeBytes() + BlockBytes(s),
                        st.pools[s := Pool([], pool.held + {p - 1}, pool.blocks + {p - 1})])
      else
        p == NULL && st' == State(st.taken + LostWithNode(heap - st.taken), st.pools)
  {
    ExactFit(st, s);
    assert Allocate(st, s) == (st, NULL);
    var (st2, ok) := AddBlock(heap, st, s);
    AddOneBlock(heap, st, s);
    hide AddBlocks;
    if ok {
      ExactFit(st2, s);
      assert forall b: nat :: b in st.pools[s].blocks ==> IsBlock(st.pools, s, b);
    }
  }

  /** Making a pool: its one block goes straight to the client, or no block is there at all. */
  lemma GrowNewPool(heap: nat, st: State, s: nat)
    requires Inv(heap, st) && s !in st.pools && s > 0
    ensures var (st', p) := AllocateAuto(heap, st, s);
      if heap - st.taken >= PoolAndBlockBytes(s) then
        && p != NULL
        && st' == State(st.taken + PoolAndBlockBytes(s),
                        st.pools[s := Pool([], {p - 1}, {p - 1})])
      else
        && p == NULL
        && st' == if heap - st.taken < Bytes(7) then
                    State(st.taken + LostWithPool(heap - st.taken), st.pools)
                  else
                    State(st.taken + Bytes(7) + LostWithNode(heap - st.taken - Bytes(7)),
                          st.pools[s := Pool([], {}, {})])
  {
    PoolBytesCounted(heap, st.taken);
    PoolBytesAre(s);
    var (st1, made) := MakePool(heap, st, s);
    if made {
      var (st2, ok) := AddBlock(heap, st1, s);
      AddOneBlock(heap, st1, s);
      hide AddBlocks;
      if ok {
        ExactFit(st2, s);
        var b := st2.pools[s].free[0];
        assert st2.pools[s] == Pool([b], {}, {b});
        assert Allocate(st2, s).0.pools[s] == Pool([], {b}, {b});
      }
    }
  }

  /**
   A block that AllocateAuto hands out comes from the pool with exactly the requested size, and
   there is none exactly if that pool has no free block and the heap has no room for what is
   missing: a node and a block, and the pool itself if it does not exist.
   */
  lemma AllocateAutoIsExact(heap: nat, st: State, size: nat)
    requires Inv(heap, st) && size > 0
    ensures var (st', p) := AllocateAuto(heap, st, size);
      && (p != NULL ==> !Holds(st, size, p) && Holds(st', size, p))
      && (p == NULL <==>
            if size in st.pools then
              st.pools[size].free == [] && heap - st.taken < NodeBytes() + BlockBytes(size)
            else
              heap - st.taken < PoolAndBlockBytes(size))
  {
    if size !in st.pools {
      GrowNewPool(heap, st, size);
    } else if st.pools[size].free == [] {
      GrowFullPool(heap, st, size);
    } else {
      ExactFit(st, size);
      assert st.pools[size].free[0] in Elements(st.pools[size].free);
    }
  }

  /** Asking for nothing gives nothing and changes nothing. */
  lemma NothingForZero(heap: nat, st: State, n: nat, s: nat)
    requires n == 0 || s == 0
    ensures Create(heap, st, n, s) == (st, false)
    ensures Allocate(st, 0) == AllocateAuto(heap, st, 0) == AllocateOrGrow(heap, st, 0) == (st, NULL)
    ensures HeapRequest(heap, st, 0) == st
  {
  }

  // ---------------------------------------------------------------- every run

  lemma AllocateAutoInv(heap: nat, st: State, size: nat)
    requires Inv(heap, st)
    ensures Inv(heap, AllocateAuto(heap, st, size).0)
  {
    AllocateOrGrowInv(heap, st, size);
    CreateInv(heap, st, 1, size);
    AllocateInv(heap, Create(heap, st, 1, size).0, size);
  }

  lemma AllocateOrGrowInv(heap: nat, st: State, size: nat)
    requires Inv(heap, st)
    ensures Inv(heap, AllocateOrGrow(heap, st, size).0)
  {
    AllocateInv(heap, st, size);
    var (st1, p) := Allocate(st, size);
    CreateInv(heap, st1, 1, size);
    AllocateInv(heap, Create(heap, st1, 1, size).0, size);
  }

  /**
   In every reachable state the free blocks of each pool are all different and, with the held
   ones, partition all blocks ever created for it, and all blocks of all pools lie apart from each
   other inside the heap.
   */
  lemma {:induction false} RunInv(heap: nat, ops: seq<Op>)
    requires Legal(heap, ops)
    ensures Inv(heap, Run(heap, ops))
  {
    if ops == [] {
    } else {
      var st, op := Run(heap, ops[..|ops| - 1]), ops[|ops| - 1];
      RunInv(heap, ops[..|ops| - 1]);
      match op
      case DoCreate(n, s) => CreateInv(heap, st, n, s);
      case DoAllocate(size) => AllocateInv(heap, st, size);
      case DoAllocateAuto(size) => AllocateAutoInv(heap, st, size);
      case DoRelease(p) =>
        forall s | Holds(st, s, p) { ReleaseInv(heap, st, s, p); }
      case DoHeapAllocate(bytes) => HeapRequestInv(heap, st, bytes);
    }
  }

  /** A pool that exists stays. */
  lemma PoolsStay(heap: nat, st: State, op: Op)
    ensures st.pools.Keys <= Step(heap, st, op).pools.Keys
  {
    match op
    case DoCreate(n, s) => CreateKeeps(heap, st, n, s);
    case DoAllocate(size) =>
    case DoAllocateAuto(size) =>
      CreateKeeps(heap, st, 1, size);
      CreateKeeps(heap, Allocate(st, size).0, 1, size);
    case DoRelease(p) =>
    case DoHeapAllocate(bytes) =>
  }

  lemma CreateKeeps(heap: nat, st: State, n: nat, s: nat)
    ensures st.pools.Keys <= Create(heap, st, n, s).0.pools.Keys
  {
  }

  // ---------------------------------------------------------------- pools never outgrow demand

  ghost function HeldCount(st: State, s: nat): nat {
    if s in st.pools then |st.pools[s].held| else 0
  }

  ghost function BlockCount(st: State, s: nat): nat {
    if s in st.pools then |st.pools[s].blocks| else 0
  }

  function Max(a: nat, b: nat): nat {
    if a >= b then a else b
  }

  /** The largest number of blocks of size s that were held at the same time. */
  ghost function Peak(heap: nat, ops: seq<Op>, s: nat): nat
  {
    if ops == [] then 0
    else Max(Peak(heap, ops[..|ops| - 1], s), HeldCount(Run(heap, ops), s))
  }

  lemma HeldWithinBlocks(heap: nat, st: State, s: nat)
    requires Inv(heap, st)
    ensures HeldCount(st, s) <= BlockCount(st, s)
    ensures s in st.pools && st.pools[s].free == [] ==> st.pools[s].held == st.pools[s].blocks
  {
    if s in st.pools {
      var p := st.pools[s];
      assert p.held <= p.blocks;
      SubsetCardinality(p.held, p.blocks);
      if p.free == [] {
        assert Elements(p.free) == {};
      }
    }
  }

  lemma {:induction false} SubsetCardinality(a: set<nat>, b: set<nat>)
    requires a <= b
    ensures |a| <= |b|
    decreases a
  {
    if a != {} {
      var x :| x in a;
      SubsetCardinality(a - {x}, b - {x});
    }
  }

  lemma AllocatePeak(heap: nat, st: State, size: nat, s: nat)
    requires Inv(heap, st)
    ensures BlockCount(Allocate(st, size).0, s) == BlockCount(st, s)
  {
  }

  /** A pool that is extended is extended by a block that is handed out. */
  lemma GrowPeak(heap: nat, st: State, size: nat, s: nat)
    requires Inv(heap, st) && size in st.pools
    ensures var st' := AllocateOrGrow(heap, st, size).0;
      || BlockCount(st', s) == BlockCount(st, s)
      || BlockCount(st', s) == BlockCount(st, s) + 1 == HeldCount(st', s)
  {
    if st.pools[size].free == [] {
      HeldWithinBlocks(heap, st, size);
      GrowFullPool(heap, st, size);
      hide Inv, AllocateOrGrow;
    } else {
      ExactFit(st, size);
      hide Inv;
    }
  }

  /** A call to AllocateAuto adds a block only to hand it out. */
  lemma AllocateAutoPeak(heap: nat, st: State, size: nat, s: nat)
    requires Inv(heap, st)
    ensures var st' := AllocateAuto(heap, st, size).0;
      || BlockCount(st', s) == BlockCount(st, s)
      || BlockCount(st', s) == BlockCount(st, s) + 1 == HeldCount(st', s)
  {
    hide Inv, AllocateOrGrow, Create, Allocate;
    if size in st.pools {
      if size > 0 { GrowPeak(heap, st, size, s); }
    } else if size > 0 {
      GrowNewPool(heap, st, size);
      hide AllocateAuto;
    }
  }

  /** One call that is not a Create adds blocks only to serve what is then held. */
  lemma StepPeak(heap: nat, st: State, op: Op, s: nat)
    requires Inv(heap, st) && !op.DoCreate?
    requires Inv(heap, Step(heap, st, op))
    ensures BlockCount(Step(heap, st, op), s)
            == Max(BlockCount(st, s), HeldCount(Step(heap, st, op), s))
  {
    hide Inv, Allocate, AllocateAuto;
    HeldWithinBlocks(heap, Step(heap, st, op), s);
    match op
    case DoAllocate(size) => AllocatePeak(heap, st, size, s);
    case DoAllocateAuto(size) => AllocateAutoPeak(heap, st, size, s);
    case DoRelease(p) =>
    case DoHeapAllocate(bytes) =>
  }

  /**
   If clients never create pools themselves, then after any run, in which the application may take
   heap for itself at any time, every pool has exactly as many
   blocks as were ever held of it at the same time.
   */
  lemma {:induction false} BlocksAreThePeak(heap: nat, ops: seq<Op>, s: nat)
    requires Legal(heap, ops)
    requires forall op | op in ops :: !op.DoCreate?
    ensures BlockCount(Run(heap, ops), s) == Peak(heap, ops, s)
  {
    if ops == [] {
    } else {
      var init, op := ops[..|ops| - 1], ops[|ops| - 1];
      BlocksAreThePeak(heap, init, s);
      RunInv(heap, init);
      RunInv(heap, ops);
      StepPeak(heap, Run(heap, init), op, s);
    }
  }
}
