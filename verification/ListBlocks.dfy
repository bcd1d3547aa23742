/**
 Which memory pool block belongs to which list, and what every list operation that asks the
 pools for blocks or gives blocks back does to that (source/tbx_list.c).  The contracts of the
 class in Lists.dfy refer to the steps that are defined here.
 */
module ListBlocks {
  import opened Target
  import PoolSpec
  import opened ListSpec
  import opened Sequences

  /** The list that a block belongs to, as its header or as one of its nodes, and its pool. */
  datatype Owner = Owner(list: nat, s: nat)

  /** The pools, whether they have been asked for, the live lists with their nodes, and their blocks. */
  datatype Usage = Usage(
    st: PoolSpec.State, created: bool, lists: map<nat, seq<nat>>, owner: map<nat, Owner>)

  /** Nothing used yet, after the application took the given number of bytes from the heap. */
  function Unused(taken: nat): Usage {
    Usage(PoolSpec.State(taken, map[]), false, map[], map[])
  }

  /** Places count from the start of a list. */
  datatype Op =
    | NewList
    | Insert(list: nat, k: nat)
    | Remove(list: nat, k: nat)
    | Clear(list: nat)
    | Delete(list: nat)

  // ---------------------------------------------------------------- steps

  /** Both first-time pool creations; the second one extends the pool that the first one made. */
  function FirstPools(heap: nat, st: PoolSpec.State): (PoolSpec.State, bool) {
    var (st1, ok1) := PoolSpec.Create(heap, st, 1, 3 * W);
    var (st2, ok2) := PoolSpec.Create(heap, st1, 1, 3 * W);
    (st2, ok1 && ok2)
  }

  function Without(owner: map<nat, Owner>, nodes: seq<nat>): map<nat, Owner> {
    owner - Elements(nodes)
  }

  /** The pools after the blocks of the given nodes were given back one after the other. */
  ghost function ReleaseNodes(st: PoolSpec.State, owner: map<nat, Owner>, nodes: seq<nat>): PoolSpec.State {
    if nodes == [] then st
    else
      var st1 := ReleaseNodes(st, owner, nodes[..|nodes| - 1]);
      var d := nodes[|nodes| - 1];
      if d in owner && PoolSpec.Holds(st1, owner[d].s, d) then PoolSpec.Release(st1, owner[d].s, d)
      else st1
  }

  lemma ReleaseNodesStep(st: PoolSpec.State, owner: map<nat, Owner>, nodes: seq<nat>, i: nat)
    requires i < |nodes| && nodes[i] in owner
    requires PoolSpec.Holds(ReleaseNodes(st, owner, nodes[..i]), owner[nodes[i]].s, nodes[i])
    ensures ReleaseNodes(st, owner, nodes[..i + 1])
            == PoolSpec.Release(ReleaseNodes(st, owner, nodes[..i]), owner[nodes[i]].s, nodes[i])
  {
    assert nodes[..i + 1][..i] == nodes[..i];
  }

  /** The block is used for the given list and held out of the pool that is noted for it. */
  ghost predicate UsedFor(u: Usage, d: nat, list: nat) {
    d in u.owner && u.owner[d].list == list && PoolSpec.Holds(u.st, u.owner[d].s, d)
  }

  /** The pools from which the first block of a new list is asked for, if they are there. */
  ghost function PoolsForNew(heap: nat, u: Usage): (PoolSpec.State, bool) {
    if u.created then (u.st, true) else FirstPools(heap, u.st)
  }

  /** The first call asks for the pools; then a list gets a header, if there is a block for it. */
  ghost predicate NewListNext(heap: nat, u: Usage, v: Usage) {
    var (st, ok) := PoolsForNew(heap, u);
    if !ok then v == Usage(st, true, u.lists, u.owner)
    else
      var (st1, p) := PoolSpec.AllocateOrGrow(heap, st, 3 * W);
      if p == NULL then v == Usage(st1, true, u.lists, u.owner)
      else
        && UsedFor(v, p, p)
        && v == Usage(st1, true, u.lists[p := []], u.owner[p := v.owner[p]])
  }

  /** A list gets a node at the given place, if there is a block for it. */
  ghost predicate InsertNext(heap: nat, u: Usage, list: nat, k: nat, v: Usage) {
    && list in u.lists && k <= |u.lists[list]|
    && var (st, p) := PoolSpec.AllocateOrGrow(heap, u.st, 3 * W);
       if p == NULL then v == u.(st := st)
       else
         && UsedFor(v, p, list)
         && v == Usage(st, u.created, u.lists[list := SeqInsert(u.lists[list], k, p)],
                       u.owner[p := v.owner[p]])
  }

  ghost predicate RemoveNext(u: Usage, list: nat, k: nat, v: Usage) {
    && list in u.lists && k < |u.lists[list]|
    && var n := u.lists[list][k];
    && UsedFor(u, n, list)
    && v == Usage(PoolSpec.Release(u.st, u.owner[n].s, n), u.created,
                  u.lists[list := SeqRemove(u.lists[list], k)], u.owner - {n})
  }

  ghost predicate ClearNext(u: Usage, list: nat, v: Usage) {
    && list in u.lists
    && var nodes := u.lists[list];
       v == Usage(ReleaseNodes(u.st, u.owner, nodes), u.created, u.lists[list := []],
                  Without(u.owner, nodes))
  }

  ghost predicate DeleteNext(u: Usage, list: nat, v: Usage) {
    && list in u.lists
    && var blocks := u.lists[list] + [list];
       v == Usage(ReleaseNodes(u.st, u.owner, blocks), u.created, u.lists - {list},
                  Without(u.owner, blocks))
  }

  /** What one list operation may do. */
  ghost predicate Next(heap: nat, u: Usage, op: Op, v: Usage) {
    match op
    case NewList => NewListNext(heap, u, v)
    case Insert(list, k) => InsertNext(heap, u, list, k, v)
    case Remove(list, k) => RemoveNext(u, list, k, v)
    case Clear(list) => ClearNext(u, list, v)
    case Delete(list) => DeleteNext(u, list, v)
  }

  /** An insertion that got a block. */
  lemma InsertGot(heap: nat, u: Usage, list: nat, k: nat, st: PoolSpec.State, n: nat, o: Owner)
    requires list in u.lists && k <= |u.lists[list]|
    requires (st, n) == PoolSpec.AllocateOrGrow(heap, u.st, 3 * W) && n != NULL
    requires o.list == list && PoolSpec.Holds(st, o.s, n)
    ensures Next(heap, u, Insert(list, k),
                 Usage(st, u.created, u.lists[list := SeqInsert(u.lists[list], k, n)], u.owner[n := o]))
  {
    hide PoolSpec.AllocateOrGrow;
  }

  /** An insertion that did not get one. */
  lemma InsertFailed(heap: nat, u: Usage, list: nat, k: nat)
    requires list in u.lists && k <= |u.lists[list]|
    requires PoolSpec.AllocateOrGrow(heap, u.st, 3 * W).1 == NULL
    ensures Next(heap, u, Insert(list, k), u.(st := PoolSpec.AllocateOrGrow(heap, u.st, 3 * W).0))
  {
    hide PoolSpec.AllocateOrGrow;
  }

  lemma Removed(heap: nat, u: Usage, list: nat, k: nat)
    requires list in u.lists && k < |u.lists[list]| && UsedFor(u, u.lists[list][k], list)
    ensures var n := u.lists[list][k];
      Next(heap, u, Remove(list, k),
           Usage(PoolSpec.Release(u.st, u.owner[n].s, n), u.created,
                 u.lists[list := SeqRemove(u.lists[list], k)], u.owner - {n}))
  {
  }

  lemma Cleared(heap: nat, u: Usage, list: nat)
    requires list in u.lists
    ensures var nodes := u.lists[list];
      Next(heap, u, Clear(list),
           Usage(ReleaseNodes(u.st, u.owner, nodes), u.created, u.lists[list := []], Without(u.owner, nodes)))
  {
  }

  lemma ClearedList(heap: nat, u: Usage, list: nat, v: Usage)
    requires Next(heap, u, Clear(list), v)
    ensures list in v.lists && v.lists[list] == []
  {
  }

  /** A list that was cleared and then gave its header back was deleted. */
  lemma HeaderReleased(heap: nat, u: Usage, list: nat, v: Usage)
    requires Next(heap, u, Clear(list), v)
    requires list in v.owner && PoolSpec.Holds(v.st, v.owner[list].s, list)
    ensures Next(heap, u, Delete(list),
                 Usage(PoolSpec.Release(v.st, v.owner[list].s, list), v.created,
                       v.lists - {list}, v.owner - {list}))
  {
    var nodes := u.lists[list];
    hide PoolSpec.Holds, PoolSpec.Release;
    assert (nodes + [list])[..|nodes|] == nodes;
    assert Without(u.owner, nodes + [list]) == Without(u.owner, nodes) - {list};
    assert v.lists - {list} == u.lists - {list};
  }

  /** A new list that got a block. */
  lemma NewListGot(heap: nat, u: Usage, st: PoolSpec.State, n: nat, o: Owner)
    requires PoolsForNew(heap, u).1
    requires (st, n) == PoolSpec.AllocateOrGrow(heap, PoolsForNew(heap, u).0, 3 * W) && n != NULL
    requires o.list == n && PoolSpec.Holds(st, o.s, n)
    ensures Next(heap, u, NewList, Usage(st, true, u.lists[n := []], u.owner[n := o]))
  {
    hide PoolSpec.AllocateOrGrow, FirstPools;
  }

  /** A new list that did not get one. */
  lemma NewListFailed(heap: nat, u: Usage)
    requires PoolsForNew(heap, u).1
    requires PoolSpec.AllocateOrGrow(heap, PoolsForNew(heap, u).0, 3 * W).1 == NULL
    ensures var st := PoolSpec.AllocateOrGrow(heap, PoolsForNew(heap, u).0, 3 * W).0;
      Next(heap, u, NewList, Usage(st, true, u.lists, u.owner))
  {
    hide PoolSpec.AllocateOrGrow, FirstPools;
  }

  /** A new list for which the pools could not be made. */
  lemma NoPools(heap: nat, u: Usage)
    requires !PoolsForNew(heap, u).1
    ensures Next(heap, u, NewList, Usage(PoolsForNew(heap, u).0, true, u.lists, u.owner))
  {
    hide FirstPools;
  }

  // ---------------------------------------------------------------- lists and their blocks

  /** The header and the nodes of a list are different blocks, all noted for that list. */
  ghost predicate OwnBlocks(owner: map<nat, Owner>, h: nat, nodes: seq<nat>) {
    && h in owner && owner[h].list == h && h !in nodes && Distinct(nodes)
    && (forall i {:trigger nodes[i]} | 0 <= i < |nodes| ::
          nodes[i] in owner && owner[nodes[i]].list == h)
  }

  lemma AllDifferent(owner: map<nat, Owner>, h: nat, nodes: seq<nat>)
    requires OwnBlocks(owner, h, nodes)
    ensures Distinct(nodes) && Distinct(nodes + [h])
    ensures forall d | d in nodes + [h] :: d in owner && owner[d].list == h
  {
  }

  /** Every block noted belongs to a live list, as its header or as one of its nodes. */
  ghost predicate AllUsed(lists: map<nat, seq<nat>>, owner: map<nat, Owner>) {
    forall d {:trigger d in owner} | d in owner ::
      owner[d].list in lists && (d == owner[d].list || d in lists[owner[d].list])
  }

  ghost predicate Consistent(lists: map<nat, seq<nat>>, owner: map<nat, Owner>) {
    && (forall h {:trigger lists[h]} {:trigger h in lists} | h in lists :: OwnBlocks(owner, h, lists[h]))
    && AllUsed(lists, owner)
  }

  lemma ConsistentNew(lists: map<nat, seq<nat>>, owner: map<nat, Owner>, p: nat, s: nat)
    requires Consistent(lists, owner) && p !in owner
    ensures Consistent(lists[p := []], owner[p := Owner(p, s)])
  {
  }

  lemma ConsistentInsert(lists: map<nat, seq<nat>>, owner: map<nat, Owner>, h: nat, k: nat, p: nat,
                         s: nat)
    requires Consistent(lists, owner) && p !in owner && h in lists && k <= |lists[h]|
    ensures Consistent(lists[h := SeqInsert(lists[h], k, p)], owner[p := Owner(h, s)])
  {
  }

  lemma ConsistentRemove(lists: map<nat, seq<nat>>, owner: map<nat, Owner>, h: nat, k: nat)
    requires Consistent(lists, owner) && h in lists && k < |lists[h]|
    ensures Consistent(lists[h := SeqRemove(lists[h], k)], owner - {lists[h][k]})
  {
  }

  /** A list keeps its blocks when blocks of another one are no longer used. */
  lemma OwnBlocksKept(lists: map<nat, seq<nat>>, owner: map<nat, Owner>, h: nat, g: nat, blocks: seq<nat>)
    requires h in lists && g in lists && g != h
    requires OwnBlocks(owner, h, lists[h]) && OwnBlocks(owner, g, lists[g])
    requires forall d | d in blocks :: d in lists[h] || d == h
    ensures OwnBlocks(Without(owner, blocks), g, lists[g])
  {
  }

  lemma ConsistentClear(lists: map<nat, seq<nat>>, owner: map<nat, Owner>, h: nat)
    requires Consistent(lists, owner) && h in lists
    ensures Consistent(lists[h := []], Without(owner, lists[h]))
  {
    assert OwnBlocks(owner, h, lists[h]);
    forall g | g in lists && g != h
      ensures OwnBlocks(Without(owner, lists[h]), g, lists[g])
    {
      OwnBlocksKept(lists, owner, h, g, lists[h]);
    }
  }

  lemma ConsistentDelete(lists: map<nat, seq<nat>>, owner: map<nat, Owner>, h: nat)
    requires Consistent(lists, owner) && h in lists
    ensures Consistent(lists - {h}, Without(owner, lists[h] + [h]))
  {
    assert OwnBlocks(owner, h, lists[h]);
    forall g | g in lists && g != h
      ensures OwnBlocks(Without(owner, lists[h] + [h]), g, lists[g])
    {
      OwnBlocksKept(lists, owner, h, g, lists[h] + [h]);
    }
  }

  // ---------------------------------------------------------------- counting blocks

  /** The headers and nodes of the given lists. */
  ghost function BlocksNeeded(lists: map<nat, seq<nat>>): nat {
    if lists == map[] then 0
    else var h :| h in lists; 1 + |lists[h]| + BlocksNeeded(lists - {h})
  }

  /** The blocks noted are exactly the headers and nodes of the live lists. */
  lemma {:induction false} BlocksInUse(lists: map<nat, seq<nat>>, owner: map<nat, Owner>)
    requires Consistent(lists, owner)
    ensures |owner| == BlocksNeeded(lists)
    decreases |lists|
  {
    if lists == map[] {
      assert forall d :: d !in owner;
    } else {
      hide Consistent;
      var h :| h in lists && BlocksNeeded(lists) == 1 + |lists[h]| + BlocksNeeded(lists - {h});
      ConsistentDelete(lists, owner, h);
      BlocksInUse(lists - {h}, Without(owner, lists[h] + [h]));
      BlocksOfOne(lists, owner, h);
    }
  }

  lemma BlocksOfOne(lists: map<nat, seq<nat>>, owner: map<nat, Owner>, h: nat)
    requires Consistent(lists, owner) && h in lists
    ensures |owner| == |Without(owner, lists[h] + [h])| + 1 + |lists[h]|
  {
    var blocks := lists[h] + [h];
    assert OwnBlocks(owner, h, lists[h]);
    hide Consistent;
    AllDifferent(owner, h, lists[h]);
    DistinctCount(blocks);
    WithoutCount(owner, blocks);
  }

  lemma WithoutCount(owner: map<nat, Owner>, blocks: seq<nat>)
    requires forall d | d in blocks :: d in owner
    ensures |owner| == |Without(owner, blocks)| + |Elements(blocks)|
  {
    assert owner.Keys == Without(owner, blocks).Keys + Elements(blocks);
  }
}
