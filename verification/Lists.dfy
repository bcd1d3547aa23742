/**
 Doubly linked lists whose headers and nodes are memory pool blocks (source/tbx_list.c).
 The methods follow pointers through the words of the heap buffer; their contracts say what
 happens to the sequence of items of the list, and that no other list changes.
 */
module Lists {
  import opened Target
  import opened PoolMemory
  import PoolSpec
  import PoolTheorems
  import MemPool
  import opened ListSpec
  import ListSort
  import opened ListBlocks
  import ListRuns
  import opened ListMemory

  class Lists {
    const pool: MemPool.MemPool
    /** Whether the pools have been asked for already. */
    var memPoolsCreated: bool
    /** The live lists with their nodes, and every block in use. */
    ghost var lists: map<nat, seq<nat>>
    ghost var owner: map<nat, Owner>

    ghost predicate Valid()
      reads this, pool, pool.heap, pool.heap.buffer
    {
      && pool.Valid()
      && Owned(pool.view.tags, pool.State(), owner)
      && AllLists(pool.heap.buffer[..], lists, owner)
    }

    constructor (pool: MemPool.MemPool)
      requires pool.Valid()
      ensures Valid() && this.pool == pool
      ensures Usage() == ListBlocks.Usage(pool.State(), false, map[], map[])
    {
      hide Rep, PoolSpec.Inv;
      this.pool := pool;
      memPoolsCreated := false;
      lists, owner := map[], map[];
    }

    /** The items of every live list. */
    ghost function Contents(): (c: map<nat, seq<int>>)
      requires Valid()
      reads this, pool, pool.heap, pool.heap.buffer
      ensures c.Keys == lists.Keys
    {
      AllListsFitting(pool.heap.buffer[..], lists, owner);
      ListMemory.Contents(pool.heap.buffer[..], lists)
    }

    ghost function ItemsOf(list: nat): (items: seq<int>)
      requires Valid() && list in lists
      reads this, pool, pool.heap, pool.heap.buffer
      ensures |items| == |lists[list]|
    {
      Contents()[list]
    }

    /** What the lists use of the pools. */
    ghost function Usage(): ListBlocks.Usage
      reads this, pool, pool.heap, pool.heap.buffer
    {
      ListBlocks.Usage(pool.State(), memPoolsCreated, lists, owner)
    }

    // -------------------------------------------------------------- blocks

    /** A block of three words, out of a pool that is extended if need be. */
    method NewBlock(ghost list: nat) returns (n: nat, ghost o: Owner)
      requires Valid()
      modifies pool`view, pool`poolList, pool.heap`allocatedBytes, pool.heap`regions, pool.heap.buffer
      ensures pool.Valid() && Valid()
      ensures (pool.State(), n) == PoolSpec.AllocateOrGrow(pool.heap.size, old(pool.State()), 3 * W)
      ensures lists == old(lists) && owner == old(owner) && Contents() == old(Contents())
      ensures n != NULL ==>
        && n !in owner && o.list == list && PoolSpec.Holds(pool.State(), o.s, n)
        && Owned(pool.view.tags, pool.State(), owner[n := o])
        && Fits3(pool.heap.buffer[..], n)
    {
      hide Rep, PoolSpec.Inv, PoolSpec.AllocateOrGrow, OwnWords, OwnHolds, AllLists, DataKept, PoolSpec.Holds;
      ghost var m, v, st := pool.heap.buffer[..], pool.view, pool.State();
      RepKeys(m, pool.poolList, pool.heap.Top(), v);
      StructuresFit();
      n := pool.AllocateOrGrow(3 * W);
      ghost var s := PoolTheorems.GrowHolds(pool.heap.size, st, 3 * W);
      o := Owner(list, s);
      AllListsKept(m, pool.heap.buffer[..], v.tags, pool.view.tags, lists, owner);
      DataKeptTags(m, pool.heap.buffer[..], v.tags, pool.view.tags);
      OwnedKept(v.tags, pool.view.tags, st, pool.State(), owner);
      OwnedHeld(v.tags, st, owner);
      if n != NULL {
        RepKeys(pool.heap.buffer[..], pool.poolList, pool.heap.Top(), pool.view);
        NewBlockOwned(pool.heap.buffer[..], pool.poolList, pool.heap.Top(), pool.view,
                      pool.heap.size, pool.State(), st, owner, n, o);
      }
    }

    /** No call to the pools changes a list unless it releases a block of one. */
    twostate lemma PoolCallKeeps()
      requires old(Valid()) && pool.Valid() && lists == old(lists) && owner == old(owner)
      requires DataKept(old(pool.heap.buffer[..]), pool.heap.buffer[..], old(pool.view.tags), pool.view.tags)
      requires forall d | d in owner :: PoolSpec.Holds(pool.State(), owner[d].s, d)
      ensures Valid() && Contents() == old(Contents())
    {
      hide Rep, PoolSpec.Inv, OwnWords, OwnHolds, AllLists, DataKept, PoolSpec.Holds;
      var m, m', v := old(pool.heap.buffer[..]), pool.heap.buffer[..], old(pool.view);
      RepKeys(m, old(pool.poolList), old(pool.heap.Top()), v);
      OwnedWords(v.tags, old(pool.State()), owner);
      AllListsKept(m, m', v.tags, pool.view.tags, lists, owner);
      DataKeptTags(m, m', v.tags, pool.view.tags);
      OwnedStay(v.tags, pool.view.tags, old(pool.State()), pool.State(), owner);
    }

    /** A block is released that no list uses, by another client or after a list gave it up. */
    method ReleaseUnused(p: nat, ghost s: nat)
      requires Valid() && PoolSpec.Holds(pool.State(), s, p) && p !in owner
      modifies pool`view, pool.heap.buffer
      ensures pool.State() == PoolSpec.Release(old(pool.State()), s, p)
      ensures Valid() && Contents() == old(Contents())
    {
      hide Lists.Contents, Rep, PoolSpec.Inv, OwnWords, OwnHolds, AllLists, DataKept;
      OwnedHeld(pool.view.tags, pool.State(), owner);
      pool.Release(p, s);
      PoolCallKeeps();
    }

    // -------------------------------------------------------------- links

    method InitNode(n: nat, item: nat)
      requires Fits3(pool.heap.buffer[..], n)
      modifies pool.heap.buffer
      ensures pool.heap.buffer[..]
              == old(pool.heap.buffer[..])[n + ITEM := item][n + PREV := NULL][n + NEXT := NULL]
    {
      pool.heap.Store(n + ITEM, item);
      pool.heap.Store(n + PREV, NULL);
      pool.heap.Store(n + NEXT, NULL);
    }

    /** Links a new node in at the start. */
    method LinkFront(list: nat, n: nat, item: nat)
      requires Fits3(pool.heap.buffer[..], list) && Fits3(pool.heap.buffer[..], n) && Apart3(n, list)
      requires var first := pool.heap.buffer[list + FIRST];
        first != NULL ==> && pool.heap.buffer[list + COUNT] > 0
                          && Fits3(pool.heap.buffer[..], first) && Apart3(first, n) && Apart3(first, list)
      modifies pool.heap.buffer
      ensures SplicedIn(old(pool.heap.buffer[..]), pool.heap.buffer[..], list, NULL, n,
                        old(pool.heap.buffer[list + FIRST]), item)
    {
      hide SplicedIn;
      ghost var m := pool.heap.buffer[..];
      InitNode(n, item);
      var first := pool.heap.buffer[list + FIRST];
      if first != NULL {
        assert pool.heap.buffer[list + COUNT] > 0;
        pool.heap.Store(n + NEXT, first);
        pool.heap.Store(first + PREV, n);
        FirstSpliced(m, list, n, item, first);
      } else {
        pool.heap.Store(list + LAST, n);
        OnlySpliced(m, list, n, item);
      }
      pool.heap.Store(list + FIRST, n);
      pool.heap.Store(list + COUNT, pool.heap.buffer[list + COUNT] + 1);
    }

    /** Links a new node in at the end. */
    method LinkBack(list: nat, n: nat, item: nat)
      requires Fits3(pool.heap.buffer[..], list) && Fits3(pool.heap.buffer[..], n) && Apart3(n, list)
      requires var last := pool.heap.buffer[list + LAST];
        if pool.heap.buffer[list + FIRST] == NULL then last == NULL
        else && last != NULL && pool.heap.buffer[list + COUNT] > 0
             && Fits3(pool.heap.buffer[..], last) && Apart3(last, n) && Apart3(last, list)
      modifies pool.heap.buffer
      ensures SplicedIn(old(pool.heap.buffer[..]), pool.heap.buffer[..], list,
                        old(pool.heap.buffer[list + LAST]), n, NULL, item)
    {
      hide SplicedIn;
      ghost var m := pool.heap.buffer[..];
      InitNode(n, item);
      if pool.heap.buffer[list + FIRST] != NULL {
        assert pool.heap.buffer[list + COUNT] > 0;
        var last := pool.heap.buffer[list + LAST];
        pool.heap.Store(n + PREV, last);
        pool.heap.Store(last + NEXT, n);
        LastSpliced(m, list, n, item, last);
      } else {
        pool.heap.Store(list + FIRST, n);
        OnlySpliced(m, list, n, item);
      }
      pool.heap.Store(list + LAST, n);
      pool.heap.Store(list + COUNT, pool.heap.buffer[list + COUNT] + 1);
    }

    /** What the neighbours of a node must look like for a new node to go in beside it. */
    ghost predicate Neighbour(list: nat, n: nat, d: nat)
      reads this, pool, pool.heap, pool.heap.buffer
    {
      Fits3(pool.heap.buffer[..], d) && Apart3(d, n) && Apart3(d, list)
    }

    /** The four pointer writes that put a node in between two others. */
    method LinkBetween(n: nat, prev: nat, next: nat)
      requires Fits3(pool.heap.buffer[..], n) && Fits3(pool.heap.buffer[..], prev)
      requires Fits3(pool.heap.buffer[..], next)
      modifies pool.heap.buffer
      ensures pool.heap.buffer[..]
              == old(pool.heap.buffer[..])[n + PREV := prev][n + NEXT := next][prev + NEXT := n][next + PREV := n]
    {
      pool.heap.Store(n + PREV, prev);
      pool.heap.Store(n + NEXT, next);
      pool.heap.Store(prev + NEXT, n);
      pool.heap.Store(next + PREV, n);
    }

    /** Links a new node in before the given one. */
    method LinkBefore(list: nat, n: nat, item: nat, ref: nat)
      requires Fits3(pool.heap.buffer[..], list) && Fits3(pool.heap.buffer[..], n) && Apart3(n, list)
      requires Neighbour(list, n, ref)
      requires var prev := pool.heap.buffer[ref + PREV];
        && (prev == NULL <==> ref == pool.heap.buffer[list + FIRST])
        && (prev != NULL ==> Neighbour(list, n, prev) && Apart3(prev, ref))
      modifies pool.heap.buffer
      ensures SplicedIn(old(pool.heap.buffer[..]), pool.heap.buffer[..], list,
                        old(pool.heap.buffer[ref + PREV]), n, ref, item)
    {
      hide SplicedIn;
      ghost var m := pool.heap.buffer[..];
      InitNode(n, item);
      if ref == pool.heap.buffer[list + FIRST] {
        pool.heap.Store(n + NEXT, pool.heap.buffer[list + FIRST]);
        pool.heap.Store(ref + PREV, n);
        pool.heap.Store(list + FIRST, n);
        FirstSpliced(m, list, n, item, ref);
      } else {
        var prev := pool.heap.buffer[ref + PREV];
        assert prev != NULL;
        LinkBetween(n, prev, ref);
        BetweenSpliced(m, list, n, item, prev, ref);
      }
      pool.heap.Store(list + COUNT, pool.heap.buffer[list + COUNT] + 1);
    }

    /** Links a new node in behind the given one. */
    method LinkAfter(list: nat, n: nat, item: nat, ref: nat)
      requires Fits3(pool.heap.buffer[..], list) && Fits3(pool.heap.buffer[..], n) && Apart3(n, list)
      requires Neighbour(list, n, ref)
      requires var next := pool.heap.buffer[ref + NEXT];
        && (next == NULL <==> ref == pool.heap.buffer[list + LAST])
        && (next != NULL ==> Neighbour(list, n, next) && Apart3(next, ref))
      modifies pool.heap.buffer
      ensures SplicedIn(old(pool.heap.buffer[..]), pool.heap.buffer[..], list,
                        ref, n, old(pool.heap.buffer[ref + NEXT]), item)
    {
      hide SplicedIn;
      ghost var m := pool.heap.buffer[..];
      InitNode(n, item);
      if ref == pool.heap.buffer[list + LAST] {
        pool.heap.Store(n + PREV, pool.heap.buffer[list + LAST]);
        pool.heap.Store(ref + NEXT, n);
        pool.heap.Store(list + LAST, n);
        LastSpliced(m, list, n, item, ref);
      } else {
        var next := pool.heap.buffer[ref + NEXT];
        assert next != NULL;
        if next != NULL {
          LinkBetween(n, ref, next);
          BetweenSpliced(m, list, n, item, ref, next);
        }
      }
      pool.heap.Store(list + COUNT, pool.heap.buffer[list + COUNT] + 1);
    }

    /** Links a node out. */
    method Unlink(list: nat, n: nat)
      requires Fits3(pool.heap.buffer[..], list) && Fits3(pool.heap.buffer[..], n) && Apart3(n, list)
      requires var prev, next := pool.heap.buffer[n + PREV], pool.heap.buffer[n + NEXT];
        && (prev == NULL <==> n == pool.heap.buffer[list + FIRST])
        && (next == NULL <==> n == pool.heap.buffer[list + LAST])
        && (prev != NULL ==> Neighbour(list, n, prev)) && (next != NULL ==> Neighbour(list, n, next))
        && (prev != NULL && next != NULL ==> Apart3(prev, next))
        && pool.heap.buffer[list + COUNT] >= 1 + (if prev == NULL then 0 else 1) + (if next == NULL then 0 else 1)
        && (prev == NULL && next == NULL ==> pool.heap.buffer[list + COUNT] == 1)
      modifies pool.heap.buffer
      ensures SplicedOut(old(pool.heap.buffer[..]), pool.heap.buffer[..], list,
                         old(pool.heap.buffer[n + PREV]), old(pool.heap.buffer[n + NEXT]))
    {
      var prev, next := pool.heap.buffer[n + PREV], pool.heap.buffer[n + NEXT];
      if prev == NULL && next == NULL {
        assert n == pool.heap.buffer[list + FIRST] && n == pool.heap.buffer[list + LAST];
        assert pool.heap.buffer[list + COUNT] == 1;
        pool.heap.Store(list + FIRST, NULL);
        pool.heap.Store(list + LAST, NULL);
      } else if prev == NULL {
        assert n == pool.heap.buffer[list + FIRST] && pool.heap.buffer[list + COUNT] > 1;
        pool.heap.Store(list + FIRST, next);
        pool.heap.Store(next + PREV, NULL);
      } else if next == NULL {
        assert n == pool.heap.buffer[list + LAST] && pool.heap.buffer[list + COUNT] > 1;
        pool.heap.Store(list + LAST, prev);
        pool.heap.Store(prev + NEXT, NULL);
      } else {
        assert pool.heap.buffer[list + COUNT] > 2;
        pool.heap.Store(prev + NEXT, next);
        pool.heap.Store(next + PREV, prev);
      }
      pool.heap.Store(list + COUNT, pool.heap.buffer[list + COUNT] - 1);
    }

    // -------------------------------------------------------------- finding

    /** Only in an empty list does the pointer to the first node lead nowhere. */
    lemma EmptyListHasNoFirstNode(list: nat)
      requires Valid() && list in lists
      ensures list + FIRST < pool.heap.buffer.Length
      ensures pool.heap.buffer[list + FIRST] == NULL <==> ItemsOf(list) == []
    {
      hide Lists.Valid, Lists.Contents;
      Place(list, 0);
    }

    lemma Place(list: nat, k: nat)
      requires Valid() && list in lists && k <= |lists[list]|
      ensures PlaceAt(pool.heap.buffer[..], list, lists[list], k)
      ensures AllFit(pool.heap.buffer[..], lists[list])
      ensures ItemsOf(list) == Items(pool.heap.buffer[..], lists[list])
    {
      hide Rep, PoolSpec.Inv, OwnWords, OwnHolds, AllLists, ListRep, PlaceAt;
      ListOf(pool.heap.buffer[..], lists, owner, list);
      ListRepFits(pool.heap.buffer[..], list, lists[list]);
      ListRepPlace(pool.heap.buffer[..], list, lists[list], k);
    }

    /** The node of the first occurrence of an item; k is its place. */
    method FindListNode(list: nat, item: nat) returns (result: nat, ghost k: nat)
      requires Valid() && (list != NULL ==> list in lists)
      ensures Valid()
      ensures list == NULL || item == NULL ==> result == NULL
      ensures list != NULL && item != NULL ==>
        && k == FirstIndex(ItemsOf(list), item)
        && result == Behind(lists[list], k) && (result == NULL <==> k == |lists[list]|)
    {
      hide Lists.Valid, Lists.Contents, Lists.ItemsOf, FirstIndex;
      result, k := NULL, 0;
      if list != NULL && item != NULL {
        ghost var m, nodes, items := pool.heap.buffer[..], lists[list], ItemsOf(list);
        Place(list, 0);
        var current := pool.heap.buffer[list + FIRST];
        while current != NULL
          invariant result == NULL && k <= |nodes| && PlaceAt(m, list, nodes, k)
          invariant current == Behind(nodes, k)
          invariant k <= FirstIndex(items, item)
          decreases |nodes| - k
        {
          FirstIndexStep(items, item, k);
          if pool.heap.buffer[current + ITEM] == item {
            result := current;
            break;
          }
          Place(list, k + 1);
          current := pool.heap.buffer[current + NEXT];
          k := k + 1;
        }
      }
    }

    // -------------------------------------------------------------- inserting

    /** Notes a node that was linked in at place k, with which everything is in order again. */
    ghost method NoteNode(m: seq<nat>, list: nat, k: nat, n: nat, item: nat, o: Owner, u: ListBlocks.Usage)
      requires pool.heap.Valid() && PoolSpec.Inv(pool.heap.size, pool.State())
      requires Rep(m, pool.poolList, pool.heap.Top(), pool.view) && AllLists(m, lists, owner)
      requires n !in owner && o.list == list && Owned(pool.view.tags, pool.State(), owner[n := o])
      requires PoolSpec.Holds(pool.State(), o.s, n)
      requires list in lists && k <= |lists[list]|
      requires SplicedIn(m, pool.heap.buffer[..], list, Before(lists[list], k), n, Behind(lists[list], k), item)
      requires u.created == memPoolsCreated && u.lists == lists && u.owner == owner && n != NULL
      requires (pool.State(), n) == PoolSpec.AllocateOrGrow(pool.heap.size, u.st, 3 * W)
      modifies this`lists, this`owner
      ensures Valid()
      ensures ListBlocks.Next(pool.heap.size, u, ListBlocks.Insert(list, k), Usage())
      ensures AllListsFit(m, u.lists)
      ensures var c := ListMemory.Contents(m, u.lists);
        list in c && k <= |c[list]| && Contents() == c[list := SeqInsert(c[list], k, item)]
    {
      hide Rep, PoolSpec.Inv, PoolSpec.AllocateOrGrow, OwnWords, OwnHolds, AllLists, ListRep, SplicedIn,
           PoolSpec.Holds, ListBlocks.Next, SeqInsert;
      FinishInsert(m, pool.heap.buffer[..], pool.poolList, pool.heap.Top(), pool.view,
                   lists, owner, list, k, n, item, o.s);
      InsertGot(pool.heap.size, u, list, k, pool.State(), n, o);
      lists, owner := lists[list := SeqInsert(lists[list], k, n)], owner[n := o];
    }

    /** Inserts an item at the start. */
    method InsertFrontNode(list: nat, item: nat) returns (ok: bool)
      requires Valid() && list in lists
      modifies this`lists, this`owner, pool`view, pool`poolList, pool.heap`allocatedBytes,
               pool.heap`regions, pool.heap.buffer
      ensures Valid()
      ensures ListBlocks.Next(pool.heap.size, old(Usage()), ListBlocks.Insert(list, 0), Usage())
      ensures ok <==> PoolSpec.AllocateOrGrow(pool.heap.size, old(pool.State()), 3 * W).1 != NULL
      ensures !ok ==> Contents() == old(Contents())
      ensures ok ==>
        Contents() == old(Contents())[list := SeqInsert(old(Contents())[list], 0, item)]
    {
      hide Rep, PoolSpec.Inv, PoolSpec.AllocateOrGrow, OwnWords, OwnHolds, AllLists, ListRep, SplicedIn,
           PoolSpec.Holds, ListBlocks.Next, SeqInsert;
      ghost var u := Usage();
      ok := false;
      var n, o := NewBlock(list);
      if n != NULL {
        ghost var m, nodes := pool.heap.buffer[..], lists[list];
        PlaceForNew(m, pool.view.tags, lists, owner, list, 0, n, o.s);
        LinkFront(list, n, item);
        NoteNode(m, list, 0, n, item, o, u);
        ok := true;
      } else {
        InsertFailed(pool.heap.size, u, list, 0);
      }
    }

    method InsertItemFront(list: nat, item: nat) returns (ok: bool)
      requires Valid() && (list != NULL ==> list in lists)
      modifies this`lists, this`owner, pool`view, pool`poolList, pool.heap`allocatedBytes,
               pool.heap`regions, pool.heap.buffer
      ensures Valid()
      ensures !(list != NULL && item != NULL) ==> !ok && Usage() == old(Usage())
      ensures list != NULL && item != NULL ==>
        && ListBlocks.Next(pool.heap.size, old(Usage()), ListBlocks.Insert(list, 0), Usage())
        && (ok <==> PoolSpec.AllocateOrGrow(pool.heap.size, old(pool.State()), 3 * W).1 != NULL)
      ensures !ok ==> Contents() == old(Contents())
      ensures ok ==> Contents() == old(Contents())[list := [item] + old(Contents())[list]]
    {
      hide Lists.Valid, Lists.Contents, PoolSpec.AllocateOrGrow, ListBlocks.Next, SeqInsert;
      ok := false;
      if list != NULL && item != NULL {
        ghost var items := ItemsOf(list);
        ok := InsertFrontNode(list, item);
        InsertFirst(items, item);
      }
    }

    /** Inserts an item at the end. */
    method InsertBackNode(list: nat, item: nat) returns (ok: bool)
      requires Valid() && list in lists
      modifies this`lists, this`owner, pool`view, pool`poolList, pool.heap`allocatedBytes,
               pool.heap`regions, pool.heap.buffer
      ensures Valid()
      ensures ListBlocks.Next(pool.heap.size, old(Usage()), ListBlocks.Insert(list, |old(lists)[list]|), Usage())
      ensures ok <==> PoolSpec.AllocateOrGrow(pool.heap.size, old(pool.State()), 3 * W).1 != NULL
      ensures !ok ==> Contents() == old(Contents())
      ensures ok ==>
        Contents() == old(Contents())[list := SeqInsert(old(Contents())[list], |old(Contents())[list]|, item)]
    {
      hide Rep, PoolSpec.Inv, PoolSpec.AllocateOrGrow, OwnWords, OwnHolds, AllLists, ListRep, SplicedIn,
           PoolSpec.Holds, ListBlocks.Next, SeqInsert;
      ghost var u := Usage();
      ok := false;
      var n, o := NewBlock(list);
      if n != NULL {
        ghost var m, nodes := pool.heap.buffer[..], lists[list];
        PlaceForNew(m, pool.view.tags, lists, owner, list, |nodes|, n, o.s);
        LinkBack(list, n, item);
        NoteNode(m, list, |nodes|, n, item, o, u);
        ok := true;
      } else {
        InsertFailed(pool.heap.size, u, list, |lists[list]|);
      }
    }

    method InsertItemBack(list: nat, item: nat) returns (ok: bool)
      requires Valid() && (list != NULL ==> list in lists)
      modifies this`lists, this`owner, pool`view, pool`poolList, pool.heap`allocatedBytes,
               pool.heap`regions, pool.heap.buffer
      ensures Valid()
      ensures !(list != NULL && item != NULL) ==> !ok && Usage() == old(Usage())
      ensures list != NULL && item != NULL ==>
        && ListBlocks.Next(pool.heap.size, old(Usage()), ListBlocks.Insert(list, |old(lists)[list]|), Usage())
        && (ok <==> PoolSpec.AllocateOrGrow(pool.heap.size, old(pool.State()), 3 * W).1 != NULL)
      ensures !ok ==> Contents() == old(Contents())
      ensures ok ==> Contents() == old(Contents())[list := old(Contents())[list] + [item]]
    {
      hide Lists.Valid, Lists.Contents, PoolSpec.AllocateOrGrow, ListBlocks.Next, SeqInsert;
      ok := false;
      if list != NULL && item != NULL {
        ghost var items := ItemsOf(list);
        ok := InsertBackNode(list, item);
        InsertLast(items, item);
      }
    }

    /** Inserts an item before the node at place k. */
    method InsertBeforeNode(list: nat, item: nat, ref: nat, ghost k: nat) returns (ok: bool)
      requires Valid() && list in lists && k < |lists[list]| && ref == lists[list][k]
      modifies this`lists, this`owner, pool`view, pool`poolList, pool.heap`allocatedBytes,
               pool.heap`regions, pool.heap.buffer
      ensures Valid()
      ensures ListBlocks.Next(pool.heap.size, old(Usage()), ListBlocks.Insert(list, k), Usage())
      ensures ok <==> PoolSpec.AllocateOrGrow(pool.heap.size, old(pool.State()), 3 * W).1 != NULL
      ensures !ok ==> Contents() == old(Contents())
      ensures ok ==> k < |old(Contents())[list]|
      ensures ok ==>
        Contents() == old(Contents())[list := SeqInsert(old(Contents())[list], k, item)]
    {
      hide Rep, PoolSpec.Inv, PoolSpec.AllocateOrGrow, OwnWords, OwnHolds, AllLists, ListRep, SplicedIn,
           PoolSpec.Holds, ListBlocks.Next;
      ghost var u := Usage();
      ok := false;
      var n, o := NewBlock(list);
      if n != NULL {
        ghost var m, nodes := pool.heap.buffer[..], lists[list];
        PlaceForNew(m, pool.view.tags, lists, owner, list, k, n, o.s);
        LinkBefore(list, n, item, ref);
        NoteNode(m, list, k, n, item, o, u);
        ok := true;
      } else {
        InsertFailed(pool.heap.size, u, list, k);
      }
    }

    /** Inserts an item before the first occurrence of the reference item. */
    method InsertItemBefore(list: nat, item: nat, itemRef: nat) returns (ok: bool)
      requires Valid() && (list != NULL ==> list in lists)
      modifies this`lists, this`owner, pool`view, pool`poolList, pool.heap`allocatedBytes,
               pool.heap`regions, pool.heap.buffer
      ensures Valid()
      ensures !(list != NULL && item != NULL && itemRef != NULL && itemRef in old(Contents())[list])
              ==> !ok && Usage() == old(Usage())
      ensures list != NULL && item != NULL && itemRef != NULL && itemRef in old(Contents())[list] ==>
        var k := FirstIndex(old(Contents())[list], itemRef);
        && ListBlocks.Next(pool.heap.size, old(Usage()), ListBlocks.Insert(list, k), Usage())
        && (ok <==> PoolSpec.AllocateOrGrow(pool.heap.size, old(pool.State()), 3 * W).1 != NULL)
      ensures !ok ==> Contents() == old(Contents())
      ensures ok ==>
        Contents() == old(Contents())[list := InsertBefore(old(Contents())[list], itemRef, item)]
    {
      hide Lists.Valid, Lists.Contents;
      ok := false;
      if list != NULL && item != NULL && itemRef != NULL {
        var ref, k := FindListNode(list, itemRef);
        if ref != NULL {
          ok := InsertBeforeNode(list, item, ref, k);
        }
      }
    }

    /** Inserts an item behind the node at place k. */
    method InsertAfterNode(list: nat, item: nat, ref: nat, ghost k: nat) returns (ok: bool)
      requires Valid() && list in lists && k < |lists[list]| && ref == lists[list][k]
      modifies this`lists, this`owner, pool`view, pool`poolList, pool.heap`allocatedBytes,
               pool.heap`regions, pool.heap.buffer
      ensures Valid()
      ensures ListBlocks.Next(pool.heap.size, old(Usage()), ListBlocks.Insert(list, k + 1), Usage())
      ensures ok <==> PoolSpec.AllocateOrGrow(pool.heap.size, old(pool.State()), 3 * W).1 != NULL
      ensures !ok ==> Contents() == old(Contents())
      ensures ok ==> k < |old(Contents())[list]|
      ensures ok ==>
        Contents() == old(Contents())[list := SeqInsert(old(Contents())[list], k + 1, item)]
    {
      hide Rep, PoolSpec.Inv, PoolSpec.AllocateOrGrow, OwnWords, OwnHolds, AllLists, ListRep, SplicedIn,
           PoolSpec.Holds, ListBlocks.Next;
      ghost var u := Usage();
      ok := false;
      var n, o := NewBlock(list);
      if n != NULL {
        ghost var m, nodes := pool.heap.buffer[..], lists[list];
        PlaceForNew(m, pool.view.tags, lists, owner, list, k + 1, n, o.s);
        LinkAfter(list, n, item, ref);
        NoteNode(m, list, k + 1, n, item, o, u);
        ok := true;
      } else {
        InsertFailed(pool.heap.size, u, list, k + 1);
      }
    }

    /** Inserts an item behind the first occurrence of the reference item. */
    method InsertItemAfter(list: nat, item: nat, itemRef: nat) returns (ok: bool)
      requires Valid() && (list != NULL ==> list in lists)
      modifies this`lists, this`owner, pool`view, pool`poolList, pool.heap`allocatedBytes,
               pool.heap`regions, pool.heap.buffer
      ensures Valid()
      ensures !(list != NULL && item != NULL && itemRef != NULL && itemRef in old(Contents())[list])
              ==> !ok && Usage() == old(Usage())
      ensures list != NULL && item != NULL && itemRef != NULL && itemRef in old(Contents())[list] ==>
        var k := FirstIndex(old(Contents())[list], itemRef) + 1;
        && ListBlocks.Next(pool.heap.size, old(Usage()), ListBlocks.Insert(list, k), Usage())
        && (ok <==> PoolSpec.AllocateOrGrow(pool.heap.size, old(pool.State()), 3 * W).1 != NULL)
      ensures !ok ==> Contents() == old(Contents())
      ensures ok ==>
        Contents() == old(Contents())[list := InsertAfter(old(Contents())[list], itemRef, item)]
    {
      hide Lists.Valid, Lists.Contents;
      ok := false;
      if list != NULL && item != NULL && itemRef != NULL {
        var ref, k := FindListNode(list, itemRef);
        if ref != NULL {
          ok := InsertAfterNode(list, item, ref, k);
        }
      }
    }

    // -------------------------------------------------------------- removing

    /** Removes the node at place k and gives it back to its pool. */
    method RemoveNode(list: nat, n: nat, ghost k: nat)
      requires Valid() && list in lists && k < |lists[list]| && n == lists[list][k]
      modifies this`lists, this`owner, pool`view, pool.heap.buffer
      ensures Valid()
      ensures k < |old(Contents())[list]|
      ensures Contents() == old(Contents())[list := SeqRemove(old(Contents())[list], k)]
      ensures ListBlocks.Next(pool.heap.size, old(Usage()), ListBlocks.Remove(list, k), Usage())
    {
      hide Rep, PoolSpec.Inv, OwnWords, OwnHolds, AllLists, ListRep, SplicedOut, PoolSpec.Holds, PoolSpec.Release,
           ListBlocks.Next;
      ghost var m, v, nodes := pool.heap.buffer[..], pool.view, lists[list];
      NodeToRemove(m, v.tags, pool.State(), lists, owner, list, k);
      Removed(pool.heap.size, Usage(), list, k);
      ghost var s := owner[n].s;
      Unlink(list, n);
      FinishRemove(m, pool.heap.buffer[..], pool.poolList, pool.heap.Top(), v, lists, owner, list, k);
      OwnedLess(v.tags, pool.State(), owner, n);
      lists, owner := lists[list := SeqRemove(nodes, k)], owner - {n};
      ReleaseUnused(n, s);
    }

    /** Removes the first occurrence of an item, if any, and gives its node back to its pool. */
    method RemoveItem(list: nat, item: nat)
      requires Valid() && (list != NULL ==> list in lists)
      modifies this`lists, this`owner, pool`view, pool.heap.buffer
      ensures Valid()
      ensures !(list != NULL && item != NULL && item in old(Contents())[list]) ==>
        Contents() == old(Contents()) && Usage() == old(Usage())
      ensures list != NULL && item != NULL && item in old(Contents())[list] ==>
        && Contents() == old(Contents())[list := RemoveFirst(old(Contents())[list], item)]
        && ListBlocks.Next(pool.heap.size, old(Usage()),
                           ListBlocks.Remove(list, FirstIndex(old(Contents())[list], item)), Usage())
    {
      hide Lists.Valid, Lists.Contents;
      if list != NULL && item != NULL {
        var n, k := FindListNode(list, item);
        if n != NULL {
          RemoveNode(list, n, k);
        }
      }
    }

    // -------------------------------------------------------------- clearing

    /** Gives every node back to its pool, from the first one to the last. */
    method ReleaseWalk(list: nat)
      requires Valid() && list in lists
      modifies pool`view, pool.heap.buffer
      ensures pool.Valid()
      ensures DataKept(old(pool.heap.buffer[..]), pool.heap.buffer[..], old(pool.view.tags), pool.view.tags)
      ensures Owned(pool.view.tags, pool.State(), Without(owner, lists[list]))
      ensures pool.State() == ReleaseNodes(old(pool.State()), owner, lists[list])
    {
      hide Rep, PoolSpec.Inv, OwnWords, OwnHolds, AllLists, DataKept, Without, ReleaseNodes,
           PoolSpec.Holds, PoolSpec.Release;
      ghost var m, v, st, nodes := pool.heap.buffer[..], pool.view, pool.State(), lists[list];
      ghost var head, top := pool.poolList, pool.heap.Top();
      Place(list, 0);
      RepKeys(m, head, top, v);
      ClearStart(m, v.tags, st, owner, nodes);
      var current := pool.heap.buffer[list + FIRST];
      ghost var i: nat := 0;
      while current != NULL
        invariant pool.Valid()
        invariant i <= |nodes| && current == Behind(nodes, i) && (current == NULL <==> i == |nodes|)
        invariant DataKept(m, pool.heap.buffer[..], v.tags, pool.view.tags)
        invariant Owned(pool.view.tags, pool.State(), Without(owner, nodes[..i]))
        invariant pool.State() == ReleaseNodes(st, owner, nodes[..i])
        decreases |nodes| - i
      {
        ghost var m1, v1, st1 := pool.heap.buffer[..], pool.view, pool.State();
        ClearStep(m, m1, v.tags, v1.tags, st1, lists, owner, list, i);
        var temp := current;
        current := pool.heap.buffer[current + NEXT];
        pool.Release(temp, owner[temp].s);
        OwnedAfterRelease(m1, pool.heap.buffer[..], head, top, v1, pool.view.tags, st1,
                          Without(owner, nodes[..i]), temp);
        DataKeptTwice(m, m1, pool.heap.buffer[..], v.tags, v1.tags, pool.view.tags);
        ReleaseNodesStep(st, owner, nodes, i);
        i := i + 1;
      }
    }

    method ClearHeader(list: nat)
      requires Fits3(pool.heap.buffer[..], list)
      modifies pool.heap.buffer
      ensures Fits3(old(pool.heap.buffer[..]), list)
      ensures pool.heap.buffer[..] == HeaderCleared(old(pool.heap.buffer[..]), list)
    {
      pool.heap.Store(list + FIRST, NULL);
      pool.heap.Store(list + LAST, NULL);
      pool.heap.Store(list + COUNT, 0);
    }

    /** Removes all items and gives the nodes back to their pools. */
    method Clear(list: nat)
      requires Valid() && (list != NULL ==> list in lists)
      modifies this`lists, this`owner, pool`view, pool.heap.buffer
      ensures Valid()
      ensures list == NULL ==> Contents() == old(Contents()) && Usage() == old(Usage())
      ensures list != NULL ==>
        && Contents() == old(Contents())[list := []]
        && ListBlocks.Next(pool.heap.size, old(Usage()), ListBlocks.Clear(list), Usage())
    {
      hide Rep, PoolSpec.Inv, OwnWords, OwnHolds, AllLists, DataKept, Without, ReleaseNodes, ListBlocks.Next;
      if list != NULL {
        ghost var m, v, nodes := pool.heap.buffer[..], pool.view, lists[list];
        RepKeys(m, pool.poolList, pool.heap.Top(), v);
        Cleared(pool.heap.size, Usage(), list);
        ReleaseWalk(list);
        ghost var m1, v1 := pool.heap.buffer[..], pool.view;
        AllListsKept(m, m1, v.tags, v1.tags, lists, owner);
        OwnWordsKept(v.tags, v1.tags, m, m1, owner);
        HeaderFits(m1, lists, owner, list);
        ClearHeader(list);
        FinishClear(m1, pool.poolList, pool.heap.Top(), v1, lists, owner, list);
        lists, owner := lists[list := []], Without(owner, nodes);
      }
    }

    /** Gives the header of a list without items back; u is what was used before it was cleared. */
    method ReleaseHeader(list: nat, ghost u: ListBlocks.Usage)
      requires Valid() && list != NULL && list in lists && lists[list] == []
      requires ListBlocks.Next(pool.heap.size, u, ListBlocks.Clear(list), Usage())
      modifies this`lists, this`owner, pool`view, pool.heap.buffer
      ensures Valid()
      ensures Contents() == old(Contents()) - {list}
      ensures ListBlocks.Next(pool.heap.size, u, ListBlocks.Delete(list), Usage())
    {
      hide Rep, PoolSpec.Inv, OwnWords, OwnHolds, AllLists, PoolSpec.Release, ListBlocks.Next, PoolSpec.Holds;
      ghost var m := pool.heap.buffer[..];
      HeaderOwned(m, lists, owner, list);
      AllListsDrop(m, lists, owner, list);
      OwnedHeld(pool.view.tags, pool.State(), owner);
      HeaderReleased(pool.heap.size, u, list, Usage());
      ghost var s := owner[list].s;
      OwnedLess(pool.view.tags, pool.State(), owner, list);
      lists, owner := lists - {list}, owner - {list};
      ReleaseUnused(list, s);
    }

    /** Removes all items and gives the nodes and then the header back to their pools. */
    method Delete(list: nat)
      requires Valid() && (list != NULL ==> list in lists)
      modifies this`lists, this`owner, pool`view, pool.heap.buffer
      ensures Valid()
      ensures list == NULL ==> Contents() == old(Contents()) && Usage() == old(Usage())
      ensures list != NULL ==>
        && Contents() == old(Contents()) - {list}
        && ListBlocks.Next(pool.heap.size, old(Usage()), ListBlocks.Delete(list), Usage())
    {
      hide Lists.Valid, Lists.Contents, ListBlocks.Next;
      if list != NULL {
        ghost var u := Usage();
        Clear(list);
        ClearedList(pool.heap.size, u, list, Usage());
        ReleaseHeader(list, u);
      }
    }

    /**
     Deleting a list of n items returns n + 1 blocks, and building one of no more items than
     that afterwards takes nothing from the heap.
     */
    lemma DeletedListIsReused(list: nat, k: nat)
      requires Valid() && list in lists && k <= |ItemsOf(list)|
      requires forall d :: d in lists[list] + [list] ==> d in owner && owner[d].s == 3 * W
      ensures var st1 := ReleaseNodes(pool.State(), owner, lists[list] + [list]);
        && ListRuns.FreeCount(st1) == ListRuns.FreeCount(pool.State()) + |ItemsOf(list)| + 1
        && var (st2, ok) := ListRuns.GetMany(pool.heap.size, st1, k + 1);
           ok && st2.taken == pool.State().taken
    {
      hide Rep, PoolSpec.Inv, OwnWords, OwnHolds, AllLists, ListRuns.GetMany, PoolSpec.Holds, ReleaseNodes,
           ListRuns.FreeCount, OwnBlocks;
      BlocksOfList(pool.heap.buffer[..], lists, owner, list);
      OwnedHeld(pool.view.tags, pool.State(), owner);
      AllDifferent(owner, list, lists[list]);
      ListRuns.RebuildTakesNothing(pool.heap.size, pool.State(), owner, lists[list] + [list], k + 1);
    }

    /** The lists hold exactly one block for each of them and one for each item. */
    lemma BlocksInUse()
      requires Valid()
      ensures Consistent(lists, owner) && |owner| == BlocksNeeded(lists)
    {
      hide Rep, PoolSpec.Inv, OwnWords, OwnHolds, AllLists, Consistent;
      ListsConsistent(pool.heap.buffer[..], lists, owner);
      ListBlocks.BlocksInUse(lists, owner);
    }

    /** One of the two pools for headers and nodes, asked for before the first list. */
    method FirstPool() returns (ok: bool)
      requires Valid()
      modifies pool`view, pool`poolList, pool.heap`allocatedBytes, pool.heap`regions, pool.heap.buffer
      ensures Valid() && Contents() == old(Contents())
      ensures (pool.State(), ok) == PoolSpec.Create(pool.heap.size, old(pool.State()), 1, 3 * W)
    {
      hide Rep, PoolSpec.Inv, PoolSpec.Create, OwnWords, OwnHolds, AllLists, DataKept, PoolSpec.Holds;
      ghost var m, v, st := pool.heap.buffer[..], pool.view, pool.State();
      RepKeys(m, pool.poolList, pool.heap.Top(), v);
      StructuresFit();
      ok := pool.Create(1, 3 * W);
      PoolTheorems.CreateHolds(pool.heap.size, st, 1, 3 * W);
      AllListsKept(m, pool.heap.buffer[..], v.tags, pool.view.tags, lists, owner);
      DataKeptTags(m, pool.heap.buffer[..], v.tags, pool.view.tags);
      OwnedKept(v.tags, pool.view.tags, st, pool.State(), owner);
    }

    /**
     A new empty list.  The first call asks for the pools of headers and nodes, and gives up if
     either request fails; no later call asks again.
     */
    method Create() returns (list: nat)
      requires Valid()
      modifies this, pool`view, pool`poolList, pool.heap`allocatedBytes, pool.heap`regions, pool.heap.buffer
      ensures Valid() && memPoolsCreated
      ensures ListBlocks.Next(pool.heap.size, old(Usage()), ListBlocks.NewList, Usage())
      ensures list != NULL <==>
        var (st, ok) := PoolsForNew(pool.heap.size, old(Usage()));
        ok && PoolSpec.AllocateOrGrow(pool.heap.size, st, 3 * W).1 != NULL
      ensures list != NULL ==> list in lists
      ensures list == NULL ==> Contents() == old(Contents())
      ensures list != NULL ==>
        list !in old(Contents()) && Contents() == old(Contents())[list := []]
    {
      hide Rep, PoolSpec.Inv, PoolSpec.AllocateOrGrow, PoolSpec.Create, OwnWords, OwnHolds, AllLists,
           ListBlocks.NewListNext;
      ghost var u := Usage();
      list := NULL;
      var errorDetected := false;
      if !memPoolsCreated {
        memPoolsCreated := true;
        var ok := FirstPool();
        if !ok { errorDetected := true; }
        ok := FirstPool();
        if !ok { errorDetected := true; }
      }
      assert PoolsForNew(pool.heap.size, u) == (pool.State(), !errorDetected);
      if !errorDetected {
        list := NewList(u);
      } else {
        NoPools(pool.heap.size, u);
      }
    }

    /** The header of a new list; u is what was used before the pools were made sure of. */
    method NewList(ghost u: ListBlocks.Usage) returns (list: nat)
      requires Valid() && u.lists == lists && u.owner == owner && memPoolsCreated
      requires PoolsForNew(pool.heap.size, u) == (pool.State(), true)
      modifies this`lists, this`owner, pool`view, pool`poolList, pool.heap`allocatedBytes,
               pool.heap`regions, pool.heap.buffer
      ensures Valid()
      ensures ListBlocks.Next(pool.heap.size, u, ListBlocks.NewList, Usage())
      ensures list == PoolSpec.AllocateOrGrow(pool.heap.size, old(pool.State()), 3 * W).1
      ensures list != NULL ==> list in lists
      ensures list == NULL ==> Contents() == old(Contents())
      ensures list != NULL ==>
        list !in old(Contents()) && Contents() == old(Contents())[list := []]
    {
      hide Rep, PoolSpec.Inv, PoolSpec.AllocateOrGrow, OwnWords, OwnHolds, AllLists, PoolSpec.Holds,
           ListBlocks.Next, PoolsForNew;
      var n, o := NewBlock(NULL);
      list := n;
      if n != NULL {
        ghost var m := pool.heap.buffer[..];
        o := Owner(n, o.s);
        OwnedOther(pool.view.tags, pool.State(), owner, n, NULL, o.s);
        ClearHeader(n);
        FinishCreate(m, pool.poolList, pool.heap.Top(), pool.view, lists, owner, n, o.s);
        NewListGot(pool.heap.size, u, pool.State(), n, o);
        lists, owner := lists[n := []], owner[n := o];
      } else {
        NewListFailed(pool.heap.size, u);
      }
    }

    // -------------------------------------------------------------- reading

    method GetSize(list: nat) returns (size: nat)
      requires Valid() && (list != NULL ==> list in lists)
      ensures Valid()
      ensures size == if list == NULL then 0 else |ItemsOf(list)|
    {
      hide Lists.Valid, Lists.Contents;
      size := 0;
      if list != NULL {
        Place(list, 0);
        size := pool.heap.buffer[list + COUNT];
      }
    }

    method GetFirstItem(list: nat) returns (item: nat)
      requires Valid() && (list != NULL ==> list in lists)
      ensures Valid()
      ensures item == if list == NULL then NULL else FirstItem(ItemsOf(list))
    {
      hide Lists.Valid, Lists.Contents;
      item := NULL;
      if list != NULL {
        Place(list, 0);
        if pool.heap.buffer[list + FIRST] != NULL {
          item := pool.heap.buffer[pool.heap.buffer[list + FIRST] + ITEM];
        }
      }
    }

    method GetLastItem(list: nat) returns (item: nat)
      requires Valid() && (list != NULL ==> list in lists)
      ensures Valid()
      ensures item == if list == NULL then NULL else LastItem(ItemsOf(list))
    {
      hide Lists.Valid, Lists.Contents;
      item := NULL;
      if list != NULL {
        Place(list, |lists[list]|);
        if pool.heap.buffer[list + LAST] != NULL {
          item := pool.heap.buffer[pool.heap.buffer[list + LAST] + ITEM];
        }
      }
    }

    /** The item before the first occurrence of the given one. */
    method GetPreviousItem(list: nat, itemRef: nat) returns (item: nat)
      requires Valid() && (list != NULL ==> list in lists)
      ensures Valid()
      ensures item ==
        if list == NULL || itemRef == NULL then NULL else ItemBefore(ItemsOf(list), itemRef)
    {
      hide Lists.Valid, Lists.Contents;
      item := NULL;
      if list != NULL && itemRef != NULL {
        var node, k := FindListNode(list, itemRef);
        if node != NULL {
          Place(list, k);
          node := pool.heap.buffer[node + PREV];
          if node != NULL {
            item := pool.heap.buffer[node + ITEM];
          }
        }
      }
    }

    /** The item behind the first occurrence of the given one. */
    method GetNextItem(list: nat, itemRef: nat) returns (item: nat)
      requires Valid() && (list != NULL ==> list in lists)
      ensures Valid()
      ensures item ==
        if list == NULL || itemRef == NULL then NULL else ItemBehind(ItemsOf(list), itemRef)
    {
      hide Lists.Valid, Lists.Contents;
      item := NULL;
      if list != NULL && itemRef != NULL {
        var node, k := FindListNode(list, itemRef);
        if node != NULL {
          Place(list, k + 1);
          node := pool.heap.buffer[node + NEXT];
          if node != NULL {
            item := pool.heap.buffer[node + ITEM];
          }
        }
      }
    }

    // -------------------------------------------------------------- other clients of the pools

    /** The application takes bytes from the heap for itself. */
    method ApplicationAllocates(bytes: nat) returns (p: nat)
      requires Valid() && bytes < SIZE_LIMIT
      modifies pool.heap`allocatedBytes, pool.heap`regions
      ensures pool.State() == PoolSpec.HeapRequest(pool.heap.size, old(pool.State()), bytes)
      ensures Valid() && Contents() == old(Contents())
    {
      hide Lists.Contents, Rep, PoolSpec.Inv, OwnWords, OwnHolds, AllLists, PoolSpec.Holds;
      OwnedHeld(pool.view.tags, pool.State(), owner);
      HeldAnyway(pool.heap.size, pool.State(), bytes, owner);
      p := pool.ApplicationAllocates(bytes);
      PoolCallKeeps();
    }

    /** Another client creates or extends a pool. */
    method OtherCreates(numBlocks: nat, blockSize: nat) returns (ok: bool)
      requires Valid() && FitsSizeT(W + blockSize)
      modifies pool`view, pool`poolList, pool.heap`allocatedBytes, pool.heap`regions, pool.heap.buffer
      ensures (pool.State(), ok) == PoolSpec.Create(pool.heap.size, old(pool.State()), numBlocks, blockSize)
      ensures Valid() && Contents() == old(Contents())
    {
      hide Lists.Contents, Rep, PoolSpec.Inv, OwnWords, OwnHolds, AllLists, DataKept, PoolSpec.Holds, PoolSpec.Create;
      OwnedHeld(pool.view.tags, pool.State(), owner);
      PoolTheorems.CreateHolds(pool.heap.size, pool.State(), numBlocks, blockSize);
      ok := pool.Create(numBlocks, blockSize);
      PoolCallKeeps();
    }

    /** Another client allocates a block; whatever it gets is no block of a list. */
    method OtherAllocates(size: nat) returns (p: nat)
      requires Valid()
      modifies pool`view, pool.heap.buffer
      ensures (pool.State(), p) == PoolSpec.Allocate(old(pool.State()), size)
      ensures Valid() && Contents() == old(Contents()) && (p != NULL ==> p !in owner)
    {
      hide Lists.Contents, Rep, PoolSpec.Inv, OwnWords, OwnHolds, AllLists, DataKept, PoolSpec.Holds, PoolSpec.Allocate;
      OwnedHeld(pool.view.tags, pool.State(), owner);
      ghost var s := PoolTheorems.AllocateHolds(pool.heap.size, pool.State(), size);
      p := pool.Allocate(size);
      PoolCallKeeps();
    }

    /** The same for an allocation that creates or extends the pool of this size. */
    method OtherAllocatesAuto(size: nat) returns (p: nat)
      requires Valid() && FitsSizeT(W + size)
      modifies pool`view, pool`poolList, pool.heap`allocatedBytes, pool.heap`regions, pool.heap.buffer
      ensures (pool.State(), p) == PoolSpec.AllocateAuto(pool.heap.size, old(pool.State()), size)
      ensures Valid() && Contents() == old(Contents()) && (p != NULL ==> p !in owner)
    {
      hide Lists.Contents, Rep, PoolSpec.Inv, OwnWords, OwnHolds, AllLists, DataKept, PoolSpec.Holds,
           PoolSpec.AllocateAuto;
      OwnedHeld(pool.view.tags, pool.State(), owner);
      ghost var s := PoolTheorems.AllocateAutoHolds(pool.heap.size, pool.State(), size);
      p := pool.AllocateAuto(size);
      PoolCallKeeps();
    }

    /** Another client writes the i-th word of a block that it holds. */
    method OtherWrites(p: nat, i: nat, value: nat, ghost s: nat)
      requires Valid() && PoolSpec.Holds(pool.State(), s, p) && p !in owner && i < Words(s)
      modifies pool.heap.buffer
      ensures Valid() && pool.State() == old(pool.State()) && Contents() == old(Contents())
    {
      hide Rep, PoolSpec.Inv, OwnWords, OwnHolds, AllLists, Words;
      ghost var m, v, top := pool.heap.buffer[..], pool.view, pool.heap.Top();
      HeldBlock(m, pool.poolList, top, v, pool.heap.size, pool.heap.allocatedBytes, s, p - 1);
      RepKeys(m, pool.poolList, top, v);
      OwnedWords(v.tags, pool.State(), owner);
      WordBeside(v.tags, owner, s, p, i);
      AllOwnedFit(m, v.tags, owner);
      pool.ClientWrite(p, i, value, s);
      ListsBeside(m, pool.heap.buffer[..], lists, owner, p + i, value);
    }

    // -------------------------------------------------------------- reordering

    /** Writes the items of the nodes at places i and j. */
    method WriteItems(list: nat, node1: nat, node2: nat, item1: nat, item2: nat, ghost i: nat, ghost j: nat)
      requires Valid() && list in lists && i < |lists[list]| && j < |lists[list]|
      requires node1 == lists[list][i] && node2 == lists[list][j] && (i == j ==> item1 == item2)
      modifies pool.heap.buffer
      ensures Valid() && pool.State() == old(pool.State())
      ensures Contents() == old(Contents())[list := Overwrite(old(ItemsOf(list)), i, j, item2, item1)]
    {
      hide Rep, PoolSpec.Inv, Owned, OwnWords, AllLists, AllListsFit, ListRep, AllFit, Overwrite, Items;
      ghost var m, nodes := pool.heap.buffer[..], lists[list];
      NodeFits(m, lists, owner, list, i);
      NodeFits(m, lists, owner, list, j);
      OwnedWords(pool.view.tags, pool.State(), owner);
      pool.heap.Store(node1 + ITEM, item2);
      pool.heap.Store(node2 + ITEM, item1);
      FinishItems(m, pool.heap.buffer[..], pool.poolList, pool.heap.Top(), pool.view, lists, owner, list);
      ItemsSwapped(m, pool.heap.buffer[..], list, nodes, i, j, item1, item2);
    }

    /** Exchanges the first occurrences of two items, if both are there. */
    method SwapItems(list: nat, item1: nat, item2: nat)
      requires Valid() && (list != NULL ==> list in lists)
      modifies pool.heap.buffer
      ensures Valid() && pool.State() == old(pool.State())
      ensures !(list != NULL && item1 != NULL && item2 != NULL) ==> Contents() == old(Contents())
      ensures list != NULL && item1 != NULL && item2 != NULL ==>
        Contents() == old(Contents())[list := Exchange(old(ItemsOf(list)), item1, item2)]
    {
      hide Lists.Valid, Lists.Contents;
      if list != NULL && item1 != NULL && item2 != NULL {
        var node1, i := FindListNode(list, item1);
        var node2, j := FindListNode(list, item2);
        if node1 != NULL && node2 != NULL {
          WriteItems(list, node1, node2, item1, item2, i, j);
        }
      }
    }

    /** One comparison of the inner loop, with the exchange that may follow. */
    method CompareNodes(list: nat, current: nat, idx: nat, greater: ListSort.Comparator, call: nat,
                        ghost i: nat, ghost j: nat)
      requires Valid() && list in lists && i < j < |lists[list]|
      requires current == lists[list][i] && idx == lists[list][j]
      modifies pool.heap.buffer
      ensures Valid() && pool.State() == old(pool.State())
      ensures Contents()
              == old(Contents())[list := ListSort.Compare(old(ItemsOf(list)), i, j, greater, call)]
    {
      hide Lists.Valid, Lists.Contents;
      Place(list, i);
      Place(list, j);
      var item1, item2 := pool.heap.buffer[current + ITEM], pool.heap.buffer[idx + ITEM];
      if ListSort.Answers(greater, call, item1, item2) {
        WriteItems(list, current, idx, item1, item2, i, j);
      }
    }

    /** Where the link of the node at place i leads. */
    lemma NextOf(list: nat, i: nat)
      requires Valid() && list in lists && i < |lists[list]|
      ensures lists[list][i] + NEXT < pool.heap.buffer.Length
      ensures var next := pool.heap.buffer[lists[list][i] + NEXT];
        next == Behind(lists[list], i + 1) && (next == NULL <==> i + 1 == |lists[list]|)
    {
      hide Lists.Valid, Lists.Contents;
      Place(list, i + 1);
    }

    /** The inner loop of the sort, for the node at place i. */
    method SortInner(list: nat, current: nat, greater: ListSort.Comparator, before: nat, ghost i: nat)
        returns (calls: nat)
      requires Valid() && list in lists && i < |lists[list]| && current == lists[list][i]
      modifies pool.heap.buffer
      ensures Valid() && pool.State() == old(pool.State())
      ensures var (items, c) := ListSort.Inner(old(ItemsOf(list)), i, i + 1, greater, before);
        Contents() == old(Contents())[list := items] && calls == c
    {
      hide Lists.Valid, Lists.Contents, ListSort.Compare;
      ghost var start := ItemsOf(list);
      calls := before;
      NextOf(list, i);
      var idx := pool.heap.buffer[current + NEXT];
      ghost var j: nat := i + 1;
      while idx != NULL
        invariant Valid() && pool.State() == old(pool.State())
        invariant i < j <= |lists[list]| && idx == Behind(lists[list], j) && (idx == NULL <==> j == |lists[list]|)
        invariant Contents() == old(Contents())[list := ItemsOf(list)]
        invariant ListSort.Inner(ItemsOf(list), i, j, greater, calls)
                  == ListSort.Inner(start, i, i + 1, greater, before)
        decreases |lists[list]| - j
      {
        CompareNodes(list, current, idx, greater, calls, i, j);
        calls := calls + 1;
        NextOf(list, j);
        idx := pool.heap.buffer[idx + NEXT];
        j := j + 1;
      }
    }

    /**
     Sorts a list that is not empty, calling the comparator on the items in exactly the order
     in which the algorithm in ListSort does; calls counts the calls.
     */
    method SortItems(list: nat, compareItems: ListSort.CompareItems) returns (calls: nat)
      requires Valid() && (list != NULL ==> list in lists)
      requires list != NULL && compareItems.Function? ==> ItemsOf(list) != []
      modifies pool.heap.buffer
      ensures Valid() && pool.State() == old(pool.State())
      ensures list == NULL || compareItems.NoFunction? ==> Contents() == old(Contents()) && calls == 0
      ensures list != NULL && compareItems.Function? ==>
        var (items, c) := ListSort.Sort(old(ItemsOf(list)), compareItems.greater);
        Contents() == old(Contents())[list := items] && calls == c
    {
      hide Lists.Valid, Lists.Contents, ListSort.Inner;
      calls := 0;
      if list != NULL && compareItems.Function? {
        var greater := compareItems.greater;
        ghost var items := ItemsOf(list);
        Place(list, 0);
        NextOf(list, 0);
        var current := pool.heap.buffer[list + FIRST];
        ghost var i: nat := 0;
        while pool.heap.buffer[current + NEXT] != NULL
          invariant Valid() && pool.State() == old(pool.State())
          invariant i < |lists[list]| && current == lists[list][i] && current + NEXT < pool.heap.buffer.Length
          invariant var next := pool.heap.buffer[current + NEXT];
            next == Behind(lists[list], i + 1) && (next == NULL <==> i + 1 == |lists[list]|)
          invariant Contents() == old(Contents())[list := ItemsOf(list)]
          invariant ListSort.Outer(ItemsOf(list), i, greater, calls) == ListSort.Outer(items, 0, greater, 0)
          decreases |lists[list]| - i
        {
          calls := SortInner(list, current, greater, calls, i);
          NextOf(list, i);
          NextOf(list, i + 1);
          current := pool.heap.buffer[current + NEXT];
          i := i + 1;
        }
      }
    }
  }

  lemma OnlySpliced(m: seq<nat>, h: nat, n: nat, item: nat)
    requires Fits3(m, h) && Fits3(m, n) && Apart3(n, h)
    ensures var m1 := m[n + ITEM := item][n + PREV := NULL][n + NEXT := NULL];
      && m1[h + LAST := n][h + FIRST := n] == m1[h + FIRST := n][h + LAST := n]
      && m1[h + FIRST := n][h + LAST := n][h + COUNT] == m[h + COUNT]
      && SplicedIn(m, m1[h + FIRST := n][h + LAST := n][h + COUNT := m[h + COUNT] + 1], h, NULL, n, NULL, item)
  {
  }

  lemma FirstSpliced(m: seq<nat>, h: nat, n: nat, item: nat, next: nat)
    requires Fits3(m, h) && Fits3(m, n) && Fits3(m, next)
    requires Apart3(n, h) && Apart3(next, n) && Apart3(next, h)
    ensures var m1 := m[n + ITEM := item][n + PREV := NULL][n + NEXT := NULL]
                       [n + NEXT := next][next + PREV := n][h + FIRST := n];
      && m1[h + COUNT] == m[h + COUNT]
      && SplicedIn(m, m1[h + COUNT := m[h + COUNT] + 1], h, NULL, n, next, item)
  {
  }

  lemma LastSpliced(m: seq<nat>, h: nat, n: nat, item: nat, prev: nat)
    requires Fits3(m, h) && Fits3(m, n) && Fits3(m, prev)
    requires Apart3(n, h) && Apart3(prev, n) && Apart3(prev, h)
    ensures var m1 := m[n + ITEM := item][n + PREV := NULL][n + NEXT := NULL]
                       [n + PREV := prev][prev + NEXT := n][h + LAST := n];
      && m1[h + COUNT] == m[h + COUNT]
      && SplicedIn(m, m1[h + COUNT := m[h + COUNT] + 1], h, prev, n, NULL, item)
  {
  }

  lemma BetweenSpliced(m: seq<nat>, h: nat, n: nat, item: nat, prev: nat, next: nat)
    requires Fits3(m, h) && Fits3(m, n) && Fits3(m, prev) && Fits3(m, next)
    requires Apart3(n, h) && Apart3(prev, n) && Apart3(prev, h) && Apart3(next, n) && Apart3(next, h)
    requires Apart3(prev, next)
    ensures var m1 := m[n + ITEM := item][n + PREV := NULL][n + NEXT := NULL]
                       [n + PREV := prev][n + NEXT := next][prev + NEXT := n][next + PREV := n];
      && m1[h + COUNT] == m[h + COUNT]
      && SplicedIn(m, m1[h + COUNT := m[h + COUNT] + 1], h, prev, n, next, item)
  {
  }

  lemma OwnedHeld(tags: map<nat, Tag>, st: PoolSpec.State, owner: map<nat, Owner>)
    requires Owned(tags, st, owner)
    ensures forall d :: d in owner ==> PoolSpec.Holds(st, owner[d].s, d)
  {
  }

  lemma HeldAnyway(heap: nat, st: PoolSpec.State, bytes: nat, owner: map<nat, Owner>)
    requires forall d | d in owner :: PoolSpec.Holds(st, owner[d].s, d)
    ensures forall d | d in owner :: PoolSpec.Holds(PoolSpec.HeapRequest(heap, st, bytes), owner[d].s, d)
  {
  }

  lemma DataKeptTags(m: seq<nat>, m': seq<nat>, tags: map<nat, Tag>, tags': map<nat, Tag>)
    requires DataKept(m, m', tags, tags')
    ensures |m'| == |m| && forall a :: a in tags ==> a in tags' && tags'[a] == tags[a]
  {
  }

  lemma OwnWordsKept(tags: map<nat, Tag>, tags': map<nat, Tag>, m: seq<nat>, m': seq<nat>, owner: map<nat, Owner>)
    requires OwnWords(tags, owner) && DataKept(m, m', tags, tags')
    ensures OwnWords(tags', owner)
  {
  }

  lemma OwnedLess(tags: map<nat, Tag>, st: PoolSpec.State, owner: map<nat, Owner>, d: nat)
    requires Owned(tags, st, owner)
    ensures Owned(tags, st, owner - {d})
  {
  }

  lemma OwnedWords(tags: map<nat, Tag>, st: PoolSpec.State, owner: map<nat, Owner>)
    requires Owned(tags, st, owner)
    ensures OwnWords(tags, owner)
  {
  }

  lemma NodeFits(m: seq<nat>, lists: map<nat, seq<nat>>, owner: map<nat, Owner>, h: nat, i: nat)
    requires AllLists(m, lists, owner) && h in lists && i < |lists[h]|
    ensures 0 < lists[h][i] < |m| && ListRep(m, h, lists[h])
  {
    ListOf(m, lists, owner, h);
  }

  lemma HeaderFits(m: seq<nat>, lists: map<nat, seq<nat>>, owner: map<nat, Owner>, h: nat)
    requires AllLists(m, lists, owner) && h in lists
    ensures Fits3(m, h)
  {
    ListOf(m, lists, owner, h);
  }

  lemma AllOwnedFit(m: seq<nat>, tags: map<nat, Tag>, owner: map<nat, Owner>)
    requires OwnWords(tags, owner) && Mapped(m, tags)
    ensures forall d | d in owner :: Fits3(m, d)
  {
    forall d | d in owner
      ensures Fits3(m, d)
    {
      OwnedFits(m, tags, owner, d);
    }
  }

  lemma HeaderOwned(m: seq<nat>, lists: map<nat, seq<nat>>, owner: map<nat, Owner>, h: nat)
    requires AllLists(m, lists, owner) && h in lists
    ensures h in owner
  {
    ListOf(m, lists, owner, h);
  }

  /** Which list a block belongs to does not matter for owning it. */
  lemma OwnedOther(tags: map<nat, Tag>, st: PoolSpec.State, owner: map<nat, Owner>, n: nat,
                   h: nat, s: nat)
    requires Owned(tags, st, owner[n := Owner(h, s)])
    ensures Owned(tags, st, owner[n := Owner(n, s)])
  {
    var a, b := owner[n := Owner(h, s)], owner[n := Owner(n, s)];
    forall d | d in b
      ensures ThreeWords(tags, b[d].s, d) && PoolSpec.Holds(st, b[d].s, d) && b[d].s >= 3 * W
    {
      assert d in a && a[d].s == b[d].s;
    }
  }

  /** Live lists use different blocks, and every block noted is a header or a node. */
  lemma ListsConsistent(m: seq<nat>, lists: map<nat, seq<nat>>, owner: map<nat, Owner>)
    requires AllLists(m, lists, owner)
    ensures Consistent(lists, owner)
  {
    hide ListRep;
    forall h | h in lists
      ensures OwnBlocks(owner, h, lists[h])
    {
      BlocksOfList(m, lists, owner, h);
    }
  }

  lemma BlocksOfList(m: seq<nat>, lists: map<nat, seq<nat>>, owner: map<nat, Owner>, h: nat)
    requires AllLists(m, lists, owner) && h in lists
    ensures OwnBlocks(owner, h, lists[h])
  {
    var nodes := lists[h];
    ListOf(m, lists, owner, h);
    HeaderApart(m, h, nodes);
    hide AllLists, ListIn, ListRep;
    forall i, j | 0 <= i < j < |nodes|
      ensures nodes[i] != nodes[j]
    {
      NodesDistinct(m, h, nodes, j);
      assert nodes[i] in nodes[..j];
    }
  }

  lemma NewBlockOwned(m: seq<nat>, head: nat, top: nat, v: View, heap: nat, st: PoolSpec.State,
                      before: PoolSpec.State, owner: map<nat, Owner>, n: nat, o: Owner)
    requires Rep(m, head, top, v) && PoolSpec.Inv(heap, st) && v.pools == st.pools
    requires Owned(v.tags, st, owner)
    requires PoolSpec.Holds(st, o.s, n) && o.s >= 3 * W
    ensures Owned(v.tags, st, owner[n := o]) && Fits3(m, n)
  {
    hide Rep, PoolSpec.Inv, OwnWords;
    HeldBlock(m, head, top, v, heap, st.taken, o.s, n - 1);
    OwnedAdd(v.tags, st, owner, n, o);
    RepKeys(m, head, top, v);
    OwnedFits(m, v.tags, owner[n := o], n);
  }
}
