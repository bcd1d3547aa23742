/**
 The memory pools: segregated free lists carved out of the heap (source/tbx_mempool.c).
 Every method works on the words of the heap buffer, and its contract says that on the
 abstract state it does exactly what the function of the same name in PoolSpec does.
 */
module MemPool {
  import opened Target
  import opened Heap
  import PoolSpec
  import PoolTheorems
  import opened PoolMemory

  /** The address of the data of a block, and of the block with the given data. */
  function DataPtr(memPtr: nat): nat {
    memPtr + 1
  }

  function MemPtr(dataPtr: nat): nat
    requires dataPtr > 0
  {
    dataPtr - 1
  }

  class MemPool {
    const heap: Heap
    /** The head of the list of pools (tbxPoolList). */
    var poolList: nat
    ghost var view: View

    ghost predicate Valid()
      reads this, heap, heap.buffer
    {
      && heap.Valid()
      && Rep(heap.buffer[..], poolList, heap.Top(), view)
      && PoolSpec.Inv(heap.size, State())
    }

    /** The abstract state. */
    ghost function State(): PoolSpec.State
      reads this, heap
    {
      PoolSpec.State(heap.allocatedBytes, view.pools)
    }

    /** No pools yet; the application may have taken bytes from the heap already. */
    constructor (heap: Heap)
      requires heap.Valid()
      ensures Valid() && this.heap == heap && State() == PoolSpec.State(heap.allocatedBytes, map[])
    {
      PackedTotal(heap.regions, heap.allocatedBytes);
      this.heap := heap;
      poolList := NULL;
      view := View([], map[], map[], map[]);
    }

    // -------------------------------------------------------------- block lists

    method BlockListInsert(list: nat, node: nat)
      requires 0 < list < heap.buffer.Length && 0 < node < heap.buffer.Length - 1
      requires list != node + 1
      modifies heap.buffer
      ensures heap.buffer[..] == Inserted(old(heap.buffer[..]), list, node)
    {
      if heap.buffer[list] == NULL {
        heap.Store(node + 1, NULL);
      } else {
        heap.Store(node + 1, heap.buffer[list]);
      }
      heap.Store(list, node);
    }

    method BlockListExtract(list: nat) returns (result: nat)
      requires 0 < list < heap.buffer.Length
      requires heap.buffer[list] < heap.buffer.Length - 1
      modifies heap.buffer
      ensures result == old(heap.buffer[list])
      ensures heap.buffer[..] ==
        if result == NULL then old(heap.buffer[..]) else Extracted(old(heap.buffer[..]), list)
    {
      result := NULL;
      if heap.buffer[list] != NULL {
        result := heap.buffer[list];
        if heap.buffer[result + 1] == NULL {
          heap.Store(list, NULL);
        } else {
          heap.Store(list, heap.buffer[result + 1]);
        }
      }
    }

    method BlockListIsEmpty(list: nat) returns (empty: bool)
      requires list < heap.buffer.Length
      ensures empty <==> heap.buffer[list] == NULL
    {
      empty := heap.buffer[list] == NULL;
    }

    // -------------------------------------------------------------- the pool list

    /** The pool list can be walked. */
    ghost predicate Walkable()
      reads this, heap, heap.buffer
    {
      && Mapped(heap.buffer[..], view.tags)
      && Shape(heap.buffer[..], poolList, heap.Top(), view.tags, view.layout, view.order)
      && Sizes(heap.buffer[..], view.layout)
    }

    method ListFind(blockSize: nat) returns (result: nat)
      requires Walkable()
      ensures blockSize in view.layout ==> result == view.layout[blockSize].node != NULL
      ensures blockSize !in view.layout ==> result == NULL
    {
      hide Shape, Sizes, PoolChain;
      ghost var m, v, head, top := heap.buffer[..], view, poolList, heap.Top();
      result := NULL;
      var node := poolList;
      ghost var i: nat := 0;
      WalkStart(m, head, top, v.tags, v.layout, v.order);
      while node != NULL
        invariant result == NULL
        invariant i <= |v.order| && blockSize !in v.order[..i]
        invariant node == NULL <==> i == |v.order|
        invariant PoolChain(m, v.tags, v.layout, node, v.order[i..])
        decreases |v.order| - i
      {
        WalkStep(m, head, top, v.tags, v.layout, v.order, i, node);
        if heap.buffer[heap.buffer[node]] == blockSize {
          result := node;
          break;
        }
        node := heap.buffer[node + 1];
        i := i + 1;
      }
    }

    /** The smallest pool that fits, provided that it has a free block. */
    method ListFindBestFit(blockSize: nat) returns (result: nat, ghost s: nat)
      requires Walkable()
      ensures result != NULL ==>
        && PoolSpec.IsBestFit(view.layout.Keys, blockSize, s)
        && result == view.layout[s].node
        && view.layout[s].free < heap.buffer.Length && heap.buffer[view.layout[s].free] != NULL
      ensures result == NULL ==>
        forall t | PoolSpec.IsBestFit(view.layout.Keys, blockSize, t) ::
          view.layout[t].free < heap.buffer.Length && heap.buffer[view.layout[t].free] == NULL
    {
      hide Shape, Sizes, PoolChain;
      ghost var m, v, head, top := heap.buffer[..], view, poolList, heap.Top();
      result, s := NULL, 0;
      var node := poolList;
      ghost var i: nat := 0;
      WalkStart(m, head, top, v.tags, v.layout, v.order);
      while node != NULL
        invariant result == NULL
        invariant i <= |v.order| && forall j | 0 <= j < i :: v.order[j] < blockSize
        invariant node == NULL <==> i == |v.order|
        invariant PoolChain(m, v.tags, v.layout, node, v.order[i..])
        decreases |v.order| - i
      {
        WalkStep(m, head, top, v.tags, v.layout, v.order, i, node);
        if heap.buffer[heap.buffer[node]] >= blockSize {
          s := v.order[i];
          FirstIsBestFit(m, head, top, v.tags, v.layout, v.order, i, blockSize);
          var empty := BlockListIsEmpty(heap.buffer[heap.buffer[node] + 1]);
          if !empty {
            result := node;
          }
          break;
        }
        node := heap.buffer[node + 1];
        i := i + 1;
      }
    }

    /** Links a node in between the previous and the current one, or as the new head. */
    method LinkBefore(node: nat, current: nat, prev: nat)
      requires 0 < node < heap.buffer.Length - 1 && prev < heap.buffer.Length - 1
      requires if prev == NULL then current == poolList
               else current != poolList && heap.buffer[prev + 1] == current
      modifies this`poolList, heap.buffer
      ensures Linked(old(heap.buffer[..]), heap.buffer[..], old(poolList), poolList, node, prev)
    {
      if current == poolList {
        assert prev == NULL;
        heap.Store(node + 1, current);
        poolList := node;
      } else {
        assert prev != NULL;
        if prev != NULL {
          heap.Store(node + 1, current);
          heap.Store(prev + 1, node);
        }
      }
    }

    /** Links a node in as the only one. */
    method LinkOnly(node: nat)
      requires 0 < node < heap.buffer.Length - 1 && poolList == NULL
      modifies this`poolList, heap.buffer
      ensures Linked(old(heap.buffer[..]), heap.buffer[..], NULL, poolList, node, NULL)
    {
      heap.Store(node + 1, NULL);
      poolList := node;
    }

    /** Links a node in behind the last one. */
    method LinkLast(node: nat, last: nat)
      requires 0 < node < heap.buffer.Length - 1 && 0 < last < heap.buffer.Length - 1
      requires heap.buffer[last + 1] == NULL
      modifies heap.buffer
      ensures Linked(old(heap.buffer[..]), heap.buffer[..], poolList, poolList, node, last)
    {
      heap.Store(node + 1, NULL);
      heap.Store(last + 1, node);
    }

    /**
     Links a prepared node into the pool list, before the first pool with larger blocks or at
     the end: the i-th place of the order.
     */
    method LinkSorted(node: nat, ghost s: nat) returns (ghost i: nat, ghost before: nat)
      requires Walkable()
      requires s !in view.layout && At(view.tags, node, PoolNodePool(s))
      requires 0 < node < heap.buffer.Length - 1
      requires NULL < heap.buffer[node] < heap.buffer.Length && heap.buffer[heap.buffer[node]] == s
      modifies this`poolList, heap.buffer
      ensures i <= |view.order|
      ensures i > 0 ==> view.order[i - 1] in view.layout && view.order[i - 1] < s
      ensures i < |view.order| ==> s < view.order[i]
      ensures before == if i == 0 then NULL else view.layout[view.order[i - 1]].node
      ensures before < heap.buffer.Length - 1 && (i > 0 ==> before != NULL)
      ensures Linked(old(heap.buffer[..]), heap.buffer[..], old(poolList), poolList, node, before)
    {
      hide Shape, Sizes, PoolChain, Linked;
      ghost var m, v, head, top := heap.buffer[..], view, poolList, heap.Top();
      i, before := 0, NULL;
      WalkStart(m, head, top, v.tags, v.layout, v.order);
      assert heap.buffer[node] != NULL;
      if poolList == NULL {
        LinkOnly(node);
      } else {
        var current, prev := poolList, NULL;
        var inserted := false;
        while current != NULL
          invariant heap.buffer[..] == m && poolList == head
          invariant !inserted && current != NULL
          invariant i < |v.order| && before == prev
          invariant PoolChain(m, v.tags, v.layout, current, v.order[i..])
          invariant WalkedTo(m, head, v.layout, v.order, s, i, prev, current)
          decreases |v.order| - i
        {
          WalkStep(m, head, top, v.tags, v.layout, v.order, i, current);
          assert heap.buffer[current] != NULL;
          assert heap.buffer[heap.buffer[current]] != heap.buffer[heap.buffer[node]];
          if heap.buffer[heap.buffer[current]] > heap.buffer[heap.buffer[node]] {
            LinkBefore(node, current, prev);
            inserted := true;
          }
          if heap.buffer[current + 1] == NULL && !inserted {
            LinkLast(node, current);
            inserted := true;
            i, before := i + 1, current;
          }
          if inserted {
            break;
          }
          WalkOn(m, head, top, v.tags, v.layout, v.order, s, i, current);
          prev, before := current, current;
          current := heap.buffer[current + 1];
          i := i + 1;
        }
      }
    }

    /** The pool list with the new pool in it is sorted as before; nothing but links changes. */
    method ListInsert(node: nat, ghost s: nat, ghost l: Layout)
      requires Walkable()
      requires s !in view.layout && node == l.node > 0
      requires At(view.tags, node, PoolNodePool(s)) && At(view.tags, node + 1, PoolNodeNext(s))
      requires NULL < heap.buffer[node] < heap.buffer.Length && heap.buffer[heap.buffer[node]] == s
      modifies this`poolList, this`view, heap.buffer
      ensures view == old(view).(layout := old(view).layout[s := l], order := view.order)
      ensures Shape(heap.buffer[..], poolList, heap.Top(), view.tags, view.layout, view.order)
      ensures forall a | a in view.tags && heap.buffer[a] != old(heap.buffer[a]) ::
                view.tags[a].PoolNodeNext?
    {
      ghost var m, head := heap.buffer[..], poolList;
      ghost var i, before := LinkSorted(node, s);
      ShapeInserted(m, heap.buffer[..], head, poolList, heap.Top(), view.tags, view.layout,
                    view.order, i, s, l);
      view := view.(layout := view.layout[s := l], order := InsertAt(view.order, i, s));
    }

    // -------------------------------------------------------------- allocate and release

    /**
     Moves the first node of a free list to the used list; the result is the data of the block
     that it names.
     */
    method TakeFrom(free: nat, used: nat) returns (result: nat)
      requires 0 < free < heap.buffer.Length && 0 < used < heap.buffer.Length && free != used
      requires var node := heap.buffer[free];
        node != NULL ==> && node < heap.buffer.Length - 1 && node != free
                         && node + 1 != free && node + 1 != used
      modifies heap.buffer
      ensures old(heap.buffer[free]) == NULL ==>
                result == NULL && heap.buffer[..] == old(heap.buffer[..])
      ensures old(heap.buffer[free]) != NULL ==>
        && result == DataPtr(old(heap.buffer[heap.buffer[free]]))
        && Taken(old(heap.buffer[..]), heap.buffer[..], free, used)
    {
      result := NULL;
      var node := BlockListExtract(free);
      if node != NULL {
        result := DataPtr(heap.buffer[node]);
        BlockListInsert(used, node);
        assert result != NULL;
      }
    }

    /**
     Hands out a block exactly if the smallest pool that fits exists and has a free one; there is
     no falling back to a larger pool.
     */
    method Allocate(size: nat) returns (result: nat)
      requires Valid()
      modifies this`view, heap.buffer
      ensures Valid()
      ensures (State(), result) == PoolSpec.Allocate(old(State()), size)
      ensures result != NULL <==>
        size > 0 && exists s :: PoolSpec.IsBestFit(old(State()).pools.Keys, size, s)
                                && old(State()).pools[s].free != []
      ensures result == NULL <==>
        || size == 0 || (forall s | s in old(State()).pools :: s < size)
        || exists s :: PoolSpec.IsBestFit(old(State()).pools.Keys, size, s)
                       && old(State()).pools[s].free == []
      ensures DataKept(old(heap.buffer[..]), heap.buffer[..], old(view.tags), view.tags)
    {
      hide Rep, Shape, Sizes, PoolSpec.Inv, Taken, OwnsData, PoolSpec.Allocate;
      result := NULL;
      if size > 0 {
        ghost var m, v, top := heap.buffer[..], view, heap.Top();
        RepKeys(m, poolList, top, v);
        var node, s := ListFindBestFit(size);
        if node != NULL {
          RepCells(m, poolList, top, v, s);
          var pool := heap.buffer[node];
          assert pool != NULL;
          result := TakeFrom(heap.buffer[pool + 1], heap.buffer[pool + 2]);
          PoolSpec.InvPartitioned(heap.size, State(), s);
          RepTake(m, heap.buffer[..], poolList, top, v, s);
          view := AfterTake(v, s, m[v.layout[s].free]);
          PoolSpec.AllocateInv(heap.size, old(State()), size);
          PoolTheorems.AllocateIsFromBestFit(old(State()), size, s);
        } else {
          forall s | PoolSpec.IsBestFit(v.pools.Keys, size, s)
            ensures v.pools[s].free == []
          {
            RepCells(m, poolList, top, v, s);
          }
          PoolTheorems.AllocateFails(State(), size);
        }
      }
      PoolTheorems.AllocateSucceedsIff(heap.size, old(State()), size);
      PoolTheorems.AllocateFailsIff(heap.size, old(State()), size);
    }

    /**
     Moves the first node of a used list, whichever block it named, to the free list and lets
     it name the given block.
     */
    method GiveTo(free: nat, used: nat, block: nat)
      requires 0 < free < heap.buffer.Length && 0 < used < heap.buffer.Length && free != used
      requires var node := heap.buffer[used];
        && 0 < node < heap.buffer.Length - 1 && node != used && node != free
        && node + 1 != free && node + 1 != used
      modifies heap.buffer
      ensures Given(old(heap.buffer[..]), heap.buffer[..], free, used, block)
    {
      var node := BlockListExtract(used);
      assert node != NULL;
      if node != NULL {
        heap.Store(node, block);
        BlockListInsert(free, node);
      }
    }

    /** Gives back a block that is held; s is the size of the pool that it came from. */
    method Release(memPtr: nat, ghost s: nat)
      requires Valid()
      requires memPtr != NULL ==> PoolSpec.Holds(State(), s, memPtr)
      modifies this`view, heap.buffer
      ensures Valid()
      ensures memPtr == NULL ==> State() == old(State()) && heap.buffer[..] == old(heap.buffer[..])
      ensures memPtr != NULL ==> State() == PoolSpec.Release(old(State()), s, memPtr)
      ensures DataKept(old(heap.buffer[..]), heap.buffer[..], old(view.tags), view.tags)
    {
      hide Rep, Shape, Sizes, PoolSpec.Inv, Given, OwnsData, Cells;
      if memPtr != NULL {
        ghost var m, v, top := heap.buffer[..], view, heap.Top();
        RepKeys(m, poolList, top, v);
        HeldBlock(m, poolList, top, v, heap.size, heap.allocatedBytes, s, memPtr - 1);
        var block := MemPtr(memPtr);
        var blockSize := heap.buffer[block];
        var node := ListFind(blockSize);
        assert node != NULL;
        if node != NULL {
          RepCells(m, poolList, top, v, s);
          CellsRelease(m, v.layout[s], v.pools[s], block);
          var pool := heap.buffer[node];
          assert pool != NULL;
          GiveTo(heap.buffer[pool + 1], heap.buffer[pool + 2], block);
          RepGive(m, heap.buffer[..], poolList, top, v, s, block);
          view := AfterGive(v, s, m[v.layout[s].used], block);
          PoolSpec.ReleaseInv(heap.size, old(State()), s, memPtr);
        }
      }
    }

    /** A client writes a word of a block that it holds: no bookkeeping can be hit by that. */
    method ClientWrite(p: nat, i: nat, value: nat, ghost s: nat)
      requires Valid()
      requires PoolSpec.Holds(State(), s, p) && i < Words(s)
      modifies heap.buffer
      ensures Valid() && State() == old(State())
      ensures p + i < heap.buffer.Length
      ensures heap.buffer[..] == old(heap.buffer[..])[p + i := value]
    {
      hide Rep, PoolSpec.Inv;
      ghost var m, top := heap.buffer[..], heap.Top();
      HeldBlock(m, poolList, top, view, heap.size, heap.allocatedBytes, s, p - 1);
      assert At(view.tags, p + i, Data(s, p - 1));
      RepTop(m, poolList, top, view);
      heap.Store(p + i, value);
      RepDataWritten(m, heap.buffer[..], poolList, top, view);
    }

    /** The application takes bytes from the heap for itself, above all that the pools use so far. */
    method ApplicationAllocates(bytes: nat) returns (result: nat)
      requires Valid() && bytes < SIZE_LIMIT
      modifies heap`allocatedBytes, heap`regions
      ensures Valid() && State() == PoolSpec.HeapRequest(heap.size, old(State()), bytes)
      ensures result == NULL <==>
        bytes == 0 || (FitsSizeT(bytes) && !PoolSpec.Fits(heap.size, old(State()), bytes))
      ensures result != NULL ==> forall a | a in view.tags :: a < result
      ensures result != NULL && FitsSizeT(bytes) ==> result + Words(bytes) == heap.Top()
    {
      hide Rep, PoolSpec.Inv;
      ghost var top := heap.Top();
      RepTop(heap.buffer[..], poolList, top, view);
      if PoolSpec.Fits(heap.size, State(), bytes) {
        PoolSpec.TakeInv(heap.size, State(), bytes);
      }
      result := heap.Allocate(bytes);
      RepLeak(heap.buffer[..], heap.buffer[..], poolList, top, heap.Top(), view);
    }

    // -------------------------------------------------------------- creating blocks and pools

    /** A block of the given data size with its header written, above everything taken so far. */
    method BlockCreate(size: nat) returns (result: nat)
      requires heap.Valid() && FitsSizeT(W + size)
      modifies heap`allocatedBytes, heap`regions, heap.buffer
      ensures heap.Valid()
      ensures result == NULL <==> size == 0 || heap.size - old(heap.allocatedBytes) < RoundUp(W + size)
      ensures result == NULL ==> heap.allocatedBytes == old(heap.allocatedBytes)
                                 && heap.buffer[..] == old(heap.buffer[..])
      ensures result != NULL ==>
        && result == old(heap.Top()) && result + Words(size) < heap.Top() <= heap.buffer.Length
        && heap.allocatedBytes == old(heap.allocatedBytes) + RoundUp(W + size)
        && heap.buffer[..] == old(heap.buffer[..])[result := size]
    {
      result := NULL;
      if size > 0 {
        var memPtr := heap.Allocate(W + size);
        if memPtr != NULL {
          result := memPtr;
          heap.Store(memPtr, size);
        }
      }
    }

    /** One iteration of the loop that adds blocks to the pool with the given list node. */
    method AddBlock(poolNode: nat, blockSize: nat) returns (ok: bool)
      requires Valid() && FitsSizeT(W + blockSize)
      requires blockSize in view.pools && blockSize in view.layout
      requires poolNode == view.layout[blockSize].node
      modifies this`view, heap`allocatedBytes, heap`regions, heap.buffer
      ensures Valid()
      ensures (State(), ok) == PoolSpec.AddBlock(heap.size, old(State()), blockSize)
      ensures DataKept(old(heap.buffer[..]), heap.buffer[..], old(view.tags), view.tags)
      ensures blockSize in view.layout && poolNode == view.layout[blockSize].node
    {
      StructureSizes(blockSize);
      StructuresFit();
      hide Rep, Shape, Sizes, PoolSpec.Inv, BlockAdded, DataKept, TagsWithBlock, Packed, Words, RoundUp;
      ghost var m, v, top := heap.buffer[..], view, heap.Top();
      PoolSpec.AddBlockInv(heap.size, State(), blockSize);
      PoolSpec.InvPartitioned(heap.size, State(), blockSize);
      RepFreeCell(m, poolList, top, v, blockSize);
      var freeList := heap.buffer[heap.buffer[poolNode] + 1];
      var node := heap.Allocate(2 * W);
      if node == NULL {
        ok := false;
        RepLeak(m, heap.buffer[..], poolList, top, heap.Top(), v);
      } else {
        var block := BlockCreate(blockSize);
        if block == NULL {
          ok := false;
          RepLeak(m, heap.buffer[..], poolList, top, heap.Top(), v);
        } else {
          heap.Store(node, block);
          heap.Store(node + 1, NULL);
          assert poolNode != NULL;
          BlockListInsert(freeList, node);
          ok := true;
          BlockAddedBy(m, blockSize, v.layout[blockSize].free, node, block);
          RepAddBlock(m, heap.buffer[..], poolList, top, heap.Top(), v, blockSize, node, block);
          view := AfterAddBlock(v, blockSize, node, block);
        }
      }
    }

    /** A new empty list on the heap. */
    method BlockListCreate() returns (result: nat)
      requires heap.Valid()
      modifies heap`allocatedBytes, heap`regions, heap.buffer
      ensures heap.Valid()
      ensures result == NULL <==> heap.size - old(heap.allocatedBytes) < RoundUp(W)
      ensures result == NULL ==> heap.allocatedBytes == old(heap.allocatedBytes)
                                 && heap.buffer[..] == old(heap.buffer[..])
      ensures result != NULL ==>
        && result == old(heap.Top()) && result + 1 == heap.Top() <= heap.buffer.Length
        && heap.allocatedBytes == old(heap.allocatedBytes) + RoundUp(W)
        && heap.buffer[..] == old(heap.buffer[..])[result := NULL]
    {
      StructuresFit();
      result := heap.Allocate(W);
      if result != NULL {
        heap.Store(result, NULL);
      }
    }

    /** The link and the pool of a new list node, and the block size of its pool. */
    method PoolInit(node: nat, pool: nat, blockSize: nat)
      requires 0 < node && node + 1 < pool < heap.buffer.Length
      modifies heap.buffer
      ensures heap.buffer[node] == pool && heap.buffer[node + 1] == NULL
      ensures heap.buffer[pool] == blockSize
      ensures forall a | 0 <= a < heap.buffer.Length && a != node && a != node + 1 && a != pool ::
                heap.buffer[a] == old(heap.buffer[a])
    {
      heap.Store(node + 1, NULL);
      heap.Store(node, pool);
      heap.Store(pool, blockSize);
    }

    /** Both lists of a new pool, with their addresses written into the pool record. */
    method PoolListsCreate(pool: nat) returns (free: nat, used: nat)
      requires heap.Valid() && 0 < pool && pool + 2 < heap.Top() <= heap.buffer.Length
      modifies heap`allocatedBytes, heap`regions, heap.buffer
      ensures heap.Valid() && old(heap.Top()) <= heap.Top() <= heap.buffer.Length
      ensures forall a | 0 <= a < old(heap.Top()) && a != pool + 1 && a != pool + 2 ::
                heap.buffer[a] == old(heap.buffer[a])
      ensures var left := heap.size - old(heap.allocatedBytes);
        if left < RoundUp(W) then
          free == used == NULL && heap.allocatedBytes == old(heap.allocatedBytes)
        else if left - RoundUp(W) < RoundUp(W) then
          free != NULL && used == NULL && heap.allocatedBytes == old(heap.allocatedBytes) + RoundUp(W)
        else
          && heap.allocatedBytes == old(heap.allocatedBytes) + RoundUp(W) + RoundUp(W)
          && free == old(heap.Top()) && used == free + 1 && heap.Top() == free + 2
          && heap.buffer[pool + 1] == free && heap.buffer[pool + 2] == used
          && heap.buffer[free] == NULL && heap.buffer[used] == NULL
    {
      StructureSizes(0);
      StructuresFit();
      hide Packed, Words, RoundUp, Address;
      free := BlockListCreate();
      heap.Store(pool + 1, free);
      used := BlockListCreate();
      heap.Store(pool + 2, used);
    }

    /** The list node of a new pool and its record, with what does not depend on its lists. */
    method PoolRecordCreate(blockSize: nat) returns (node: nat, pool: nat)
      requires heap.Valid() && heap.Top() <= heap.buffer.Length
      modifies heap`allocatedBytes, heap`regions, heap.buffer
      ensures heap.Valid() && old(heap.Top()) <= heap.Top() <= heap.buffer.Length
      ensures forall a | 0 <= a < old(heap.Top()) :: heap.buffer[a] == old(heap.buffer[a])
      ensures var left := heap.size - old(heap.allocatedBytes);
        if left < RoundUp(2 * W) then
          node == NULL && heap.allocatedBytes == old(heap.allocatedBytes)
        else if left - RoundUp(2 * W) < RoundUp(3 * W) then
          node == NULL && heap.allocatedBytes == old(heap.allocatedBytes) + RoundUp(2 * W)
        else
          && heap.allocatedBytes == old(heap.allocatedBytes) + RoundUp(2 * W) + RoundUp(3 * W)
          && node == old(heap.Top()) && pool == node + 2 && heap.Top() == node + 5
          && heap.buffer[node] == pool && heap.buffer[pool] == blockSize
    {
      StructureSizes(0);
      StructuresFit();
      hide Packed, Words, RoundUp, Address;
      pool := NULL;
      node := heap.Allocate(2 * W);
      if node != NULL {
        pool := heap.Allocate(3 * W);
        if pool == NULL {
          node := NULL;
        } else {
          PoolInit(node, pool, blockSize);
        }
      }
    }

    /** A new pool in memory, not linked in yet.  If anything does not fit, what was taken stays taken. */
    method PoolCreate(blockSize: nat) returns (node: nat, ghost l: Layout)
      requires heap.Valid() && heap.Top() <= heap.buffer.Length
      modifies heap`allocatedBytes, heap`regions, heap.buffer
      ensures heap.Valid() && old(heap.Top()) <= heap.Top() <= heap.buffer.Length
      ensures forall a | 0 <= a < old(heap.Top()) :: heap.buffer[a] == old(heap.buffer[a])
      ensures (heap.allocatedBytes, node != NULL)
              == PoolSpec.PoolBytes(heap.size, old(heap.allocatedBytes))
      ensures node != NULL ==>
        && l == Layout(node, node + 2, node + 5, node + 6, [], [])
        && node == old(heap.Top()) && node + 7 == heap.Top()
        && EmptyPool(heap.buffer[..], blockSize, l)
    {
      StructureSizes(0);
      StructuresFit();
      hide Packed, Words, RoundUp, Address, EmptyPool;
      l := Layout(0, 0, 0, 0, [], []);
      var pool;
      node, pool := PoolRecordCreate(blockSize);
      if node != NULL {
        var free, used := PoolListsCreate(pool);
        if free == NULL || used == NULL {
          node := NULL;
        } else {
          l := Layout(node, pool, free, used, [], []);
          EmptyPoolBy(heap.buffer[..], blockSize, l);
        }
      }
    }

    /** Makes a new empty pool and links it in; NULL if the heap has no room for it. */
    method MakePool(blockSize: nat) returns (node: nat)
      requires Valid()
      requires blockSize > 0 && blockSize !in view.pools
      modifies this`view, this`poolList, heap`allocatedBytes, heap`regions, heap.buffer
      ensures Valid()
      ensures (State(), node != NULL) == PoolSpec.MakePool(heap.size, old(State()), blockSize)
      ensures DataKept(old(heap.buffer[..]), heap.buffer[..], old(view.tags), view.tags)
      ensures node != NULL ==> blockSize in view.layout && node == view.layout[blockSize].node
    {
      hide Rep, Shape, Sizes, PoolSpec.Inv, PoolSpec.PoolBytes, EmptyPool, PoolTags, Packed;
      ghost var m, v, top := heap.buffer[..], view, heap.Top();
      RepKeys(m, poolList, top, v);
      RepTop(m, poolList, top, v);
      PoolSpec.MakePoolInv(heap.size, State(), blockSize);
      ghost var l;
      node, l := PoolCreate(blockSize);
      if node == NULL {
        RepLeak(m, heap.buffer[..], poolList, top, heap.Top(), v);
      } else {
        ghost var m1, head1, v1 := heap.buffer[..], poolList, v.(tags := v.tags + PoolTags(blockSize, l));
        RepRoomForPool(m, m1, poolList, top, heap.Top(), v, blockSize, l);
        view := v1;
        RepKeys(m1, poolList, heap.Top(), v1);
        EmptyPoolSize(m1, blockSize, l);
        ListInsert(node, blockSize, l);
        RepAddPool(m1, heap.buffer[..], head1, poolList, heap.Top(), v1, view.order, v.tags,
                   blockSize, l);
        view := view.(pools := view.pools[blockSize := PoolSpec.Pool([], {}, {})]);
      }
    }

    /** Creates a pool of numBlocks blocks, or extends the one with blocks of this size. */
    method Create(numBlocks: nat, blockSize: nat) returns (ok: bool)
      requires Valid() && FitsSizeT(W + blockSize)
      modifies this`view, this`poolList, heap`allocatedBytes, heap`regions, heap.buffer
      ensures Valid()
      ensures (State(), ok) == PoolSpec.Create(heap.size, old(State()), numBlocks, blockSize)
      ensures DataKept(old(heap.buffer[..]), heap.buffer[..], old(view.tags), view.tags)
    {
      hide Rep, Shape, Sizes, PoolSpec.Inv, PoolSpec.AddBlock, PoolSpec.MakePool;
      ok := false;
      if numBlocks > 0 && blockSize > 0 {
        ok := true;
        RepKeys(heap.buffer[..], poolList, heap.Top(), view);
        var node := ListFind(blockSize);
        if node == NULL {
          node := MakePool(blockSize);
          if node == NULL {
            ok := false;
          }
        }
        if ok {
          ghost var st := State();
          RepKeys(heap.buffer[..], poolList, heap.Top(), view);
          for i := 0 to numBlocks
            invariant Valid()
            invariant (State(), ok) == PoolSpec.AddBlocks(heap.size, st, i, blockSize)
            invariant blockSize in view.layout && node == view.layout[blockSize].node
            invariant DataKept(old(heap.buffer[..]), heap.buffer[..], old(view.tags), view.tags)
          {
            var added := AddBlock(node, blockSize);
            if !added {
              ok := false;
            }
          }
        }
      }
    }

    /** Allocates; if there is no block, adds one of exactly this size and tries once more. */
    method AllocateOrGrow(size: nat) returns (result: nat)
      requires Valid() && FitsSizeT(W + size)
      modifies this`view, this`poolList, heap`allocatedBytes, heap`regions, heap.buffer
      ensures Valid()
      ensures (State(), result) == PoolSpec.AllocateOrGrow(heap.size, old(State()), size)
      ensures DataKept(old(heap.buffer[..]), heap.buffer[..], old(view.tags), view.tags)
    {
      hide Rep, PoolSpec.Inv, PoolSpec.Allocate, PoolSpec.Create;
      result := Allocate(size);
      if result == NULL {
        var ok := Create(1, size);
        if ok {
          result := Allocate(size);
        }
      }
    }

    /** Allocates a block of exactly this size, out of a pool that is made or extended if need be. */
    method AllocateAuto(size: nat) returns (result: nat)
      requires Valid() && FitsSizeT(W + size)
      modifies this`view, this`poolList, heap`allocatedBytes, heap`regions, heap.buffer
      ensures Valid()
      ensures (State(), result) == PoolSpec.AllocateAuto(heap.size, old(State()), size)
      ensures DataKept(old(heap.buffer[..]), heap.buffer[..], old(view.tags), view.tags)
    {
      hide Rep, Shape, Sizes, PoolSpec.Inv, PoolSpec.Allocate, PoolSpec.Create, PoolSpec.AllocateOrGrow;
      result := NULL;
      if size > 0 {
        RepKeys(heap.buffer[..], poolList, heap.Top(), view);
        var node := ListFind(size);
        if node == NULL {
          var ok := Create(1, size);
          if ok {
            result := Allocate(size);
          }
        } else {
          result := AllocateOrGrow(size);
        }
      }
    }
  }
}
