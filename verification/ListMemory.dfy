/**
 How linked lists lie in memory (tTbxList and tTbxListNode of source/tbx_list.h): the header
 of a list and every node is three words inside a memory pool block that the list module
 holds.
 */
module ListMemory {
  import opened Target
  import PoolSpec
  import opened PoolMemory
  import opened ListSpec
  import opened ListBlocks

  // tTbxList: nodeCount, firstNodePtr, lastNodePtr
  const COUNT: nat := 0
  const FIRST: nat := 1
  const LAST: nat := 2

  // tTbxListNode: itemPtr, prevNodePtr, nextNodePtr
  const ITEM: nat := 0
  const PREV: nat := 1
  const NEXT: nat := 2

  /** The block with this data pointer has its three words inside the given memory. */
  ghost predicate Fits3(m: seq<nat>, d: nat) {
    0 < d && d + 2 < |m|
  }

  ghost predicate AllFit(m: seq<nat>, nodes: seq<nat>) {
    forall i {:trigger nodes[i]} | 0 <= i < |nodes| :: Fits3(m, nodes[i])
  }

  /** Two such blocks share no word. */
  predicate Apart3(d: nat, e: nat) {
    d + 2 < e || e + 2 < d
  }

  /** Header and nodes are blocks that share no word with each other. */
  ghost predicate Separate(m: seq<nat>, h: nat, nodes: seq<nat>) {
    && Fits3(m, h) && AllFit(m, nodes)
    && (forall i {:trigger nodes[i]} | 0 <= i < |nodes| :: Apart3(nodes[i], h))
    && (forall i, j {:trigger nodes[i], nodes[j]} | 0 <= i < j < |nodes| ::
          Apart3(nodes[i], nodes[j]))
  }

  ghost predicate Neighbours(m: seq<nat>, d: nat, e: nat)
    requires d + NEXT < |m| && e + PREV < |m|
  {
    m[d + NEXT] == e && m[e + PREV] == d
  }

  /** Neighbours point to each other, and the ends to nothing. */
  ghost predicate Links(m: seq<nat>, nodes: seq<nat>)
    requires AllFit(m, nodes)
  {
    && (forall i, j {:trigger nodes[i], nodes[j]} | 0 <= i < j < |nodes| && j == i + 1 ::
          Neighbours(m, nodes[i], nodes[j]))
    && (nodes != [] ==> m[nodes[0] + PREV] == NULL && m[nodes[|nodes| - 1] + NEXT] == NULL)
  }

  ghost predicate ListRep(m: seq<nat>, h: nat, nodes: seq<nat>) {
    && Separate(m, h, nodes)
    && Links(m, nodes)
    && m[h + COUNT] == |nodes|
    && m[h + FIRST] == (if nodes == [] then NULL else nodes[0])
    && m[h + LAST] == (if nodes == [] then NULL else nodes[|nodes| - 1])
  }

  /** The items in the order of the nodes. */
  ghost function Items(m: seq<nat>, nodes: seq<nat>): (items: seq<int>)
    requires AllFit(m, nodes)
    ensures |items| == |nodes|
    ensures forall i | 0 <= i < |items| :: items[i] == m[nodes[i] + ITEM]
  {
    seq(|nodes|, i requires 0 <= i < |nodes| => m[nodes[i] + ITEM])
  }

  /** Nothing changes outside the words of the given blocks. */
  ghost predicate SameOn(m: seq<nat>, m': seq<nat>, d: nat) {
    d + 2 < |m| == |m'| && m'[d] == m[d] && m'[d + 1] == m[d + 1] && m'[d + 2] == m[d + 2]
  }

  lemma ListRepFrame(m: seq<nat>, m': seq<nat>, h: nat, nodes: seq<nat>)
    requires ListRep(m, h, nodes) && SameOn(m, m', h)
    requires forall i {:trigger nodes[i]} | 0 <= i < |nodes| :: SameOn(m, m', nodes[i])
    ensures ListRep(m', h, nodes) && Items(m', nodes) == Items(m, nodes)
  {
  }

  // ---------------------------------------------------------------- insertion

  /** The memory after linking a new node in at place k. */
  ghost predicate LinkedIn(m: seq<nat>, m': seq<nat>, h: nat, nodes: seq<nat>, k: nat, n: nat,
                           item: nat)
  {
    && |m'| == |m| && k <= |nodes| && Separate(m, h, nodes) && Fits3(m, n)
    && m'[n + ITEM] == item
    && m'[n + PREV] == (if k > 0 then nodes[k - 1] else NULL)
    && m'[n + NEXT] == (if k < |nodes| then nodes[k] else NULL)
    && m'[h + COUNT] == m[h + COUNT] + 1
    && m'[h + FIRST] == (if k == 0 then n else m[h + FIRST])
    && m'[h + LAST] == (if k == |nodes| then n else m[h + LAST])
    && (forall i {:trigger nodes[i]} | 0 <= i < |nodes| ::
          && m'[nodes[i] + ITEM] == m[nodes[i] + ITEM]
          && m'[nodes[i] + PREV] == (if i == k then n else m[nodes[i] + PREV])
          && m'[nodes[i] + NEXT] == (if i == k - 1 then n else m[nodes[i] + NEXT]))
  }

  lemma LinkIn(m: seq<nat>, m': seq<nat>, h: nat, nodes: seq<nat>, k: nat, n: nat, item: nat)
    requires ListRep(m, h, nodes) && LinkedIn(m, m', h, nodes, k, n, item)
    requires Apart3(n, h) && forall i {:trigger nodes[i]} | 0 <= i < |nodes| :: Apart3(n, nodes[i])
    ensures ListRep(m', h, SeqInsert(nodes, k, n))
    ensures Items(m', SeqInsert(nodes, k, n)) == SeqInsert(Items(m, nodes), k, item)
  {
    LinkInSeparate(m, m', h, nodes, k, n);
    LinkInLinks(m, m', h, nodes, k, n, item);
    LinkInItems(m, m', h, nodes, k, n, item);
    hide Separate, Links;
  }

  lemma LinkInSeparate(m: seq<nat>, m': seq<nat>, h: nat, nodes: seq<nat>, k: nat, n: nat)
    requires Separate(m, h, nodes) && k <= |nodes| && |m'| == |m| && Fits3(m, n)
    requires Apart3(n, h) && forall i {:trigger nodes[i]} | 0 <= i < |nodes| :: Apart3(n, nodes[i])
    ensures Separate(m', h, SeqInsert(nodes, k, n))
  {
  }

  lemma LinkInLinks(m: seq<nat>, m': seq<nat>, h: nat, nodes: seq<nat>, k: nat, n: nat, item: nat)
    requires Separate(m, h, nodes) && Links(m, nodes) && LinkedIn(m, m', h, nodes, k, n, item)
    requires AllFit(m', SeqInsert(nodes, k, n))
    ensures Links(m', SeqInsert(nodes, k, n))
  {
    var r := SeqInsert(nodes, k, n);
    hide SeqInsert, Separate;
    forall i, j | 0 <= i < j < |r| && j == i + 1
      ensures Neighbours(m', r[i], r[j])
    {
      LinkInPair(m, m', h, nodes, k, n, item, i);
    }
    LinkInEnds(m, m', h, nodes, k, n, item);
    hide Neighbours, LinkedIn;
  }

  lemma LinkInPair(m: seq<nat>, m': seq<nat>, h: nat, nodes: seq<nat>, k: nat, n: nat,
                   item: nat, i: nat)
    requires AllFit(m, nodes) && Links(m, nodes) && LinkedIn(m, m', h, nodes, k, n, item)
    requires AllFit(m', SeqInsert(nodes, k, n)) && i < |nodes|
    ensures Neighbours(m', SeqInsert(nodes, k, n)[i], SeqInsert(nodes, k, n)[i + 1])
  {
    hide SeqInsert, Separate;
    if i + 1 < k {
      assert Neighbours(m, nodes[i], nodes[i + 1]);
    } else if i > k {
      assert Neighbours(m, nodes[i - 1], nodes[i]);
    }
  }

  lemma LinkInEnds(m: seq<nat>, m': seq<nat>, h: nat, nodes: seq<nat>, k: nat, n: nat, item: nat)
    requires Separate(m, h, nodes) && Links(m, nodes) && LinkedIn(m, m', h, nodes, k, n, item)
    requires AllFit(m', SeqInsert(nodes, k, n))
    ensures var r := SeqInsert(nodes, k, n);
      m'[r[0] + PREV] == NULL && m'[r[|r| - 1] + NEXT] == NULL
  {
    hide SeqInsert, Separate;
  }

  lemma LinkInItems(m: seq<nat>, m': seq<nat>, h: nat, nodes: seq<nat>, k: nat, n: nat, item: nat)
    requires AllFit(m, nodes) && LinkedIn(m, m', h, nodes, k, n, item)
    requires AllFit(m', SeqInsert(nodes, k, n))
    ensures Items(m', SeqInsert(nodes, k, n)) == SeqInsert(Items(m, nodes), k, item)
  {
    hide Separate;
  }

  // ---------------------------------------------------------------- removal

  /** The memory after linking the node at place k out. */
  ghost predicate LinkedOut(m: seq<nat>, m': seq<nat>, h: nat, nodes: seq<nat>, k: nat) {
    && |m'| == |m| && k < |nodes| && Separate(m, h, nodes)
    && m'[h + COUNT] == |nodes| - 1
    && m'[h + FIRST] == (if k > 0 then nodes[0] else if |nodes| > 1 then nodes[1] else NULL)
    && m'[h + LAST] == (if k < |nodes| - 1 then nodes[|nodes| - 1]
                        else if |nodes| > 1 then nodes[|nodes| - 2] else NULL)
    && (forall i {:trigger nodes[i]} | 0 <= i < |nodes| && i != k ::
          && m'[nodes[i] + ITEM] == m[nodes[i] + ITEM]
          && m'[nodes[i] + PREV] ==
             (if i == k + 1 then (if k > 0 then nodes[k - 1] else NULL) else m[nodes[i] + PREV])
          && m'[nodes[i] + NEXT] ==
             (if i == k - 1 then (if k + 1 < |nodes| then nodes[k + 1] else NULL)
              else m[nodes[i] + NEXT]))
  }

  lemma LinkOut(m: seq<nat>, m': seq<nat>, h: nat, nodes: seq<nat>, k: nat)
    requires ListRep(m, h, nodes) && LinkedOut(m, m', h, nodes, k)
    ensures ListRep(m', h, SeqRemove(nodes, k))
    ensures Items(m', SeqRemove(nodes, k)) == SeqRemove(Items(m, nodes), k)
  {
    LinkOutSeparate(m, m', h, nodes, k);
    LinkOutLinks(m, m', h, nodes, k);
    hide Separate, Links;
  }

  lemma LinkOutSeparate(m: seq<nat>, m': seq<nat>, h: nat, nodes: seq<nat>, k: nat)
    requires Separate(m, h, nodes) && k < |nodes| && |m'| == |m|
    ensures Separate(m', h, SeqRemove(nodes, k))
    ensures AllFit(m', SeqRemove(nodes, k)) && AllFit(m, nodes)
  {
  }

  lemma LinkOutLinks(m: seq<nat>, m': seq<nat>, h: nat, nodes: seq<nat>, k: nat)
    requires Separate(m, h, nodes) && Links(m, nodes) && LinkedOut(m, m', h, nodes, k)
    requires AllFit(m', SeqRemove(nodes, k))
    ensures Links(m', SeqRemove(nodes, k))
  {
    var r := SeqRemove(nodes, k);
    hide SeqRemove, Separate;
    forall i, j | 0 <= i < j < |r| && j == i + 1
      ensures Neighbours(m', r[i], r[j])
    {
      if j < k {
        assert Neighbours(m, nodes[i], nodes[j]);
      } else if i >= k {
        assert Neighbours(m, nodes[i + 1], nodes[j + 1]);
      }
    }
  }

  // ---------------------------------------------------------------- pointer writes

  /** A node goes in between two neighbours, either of which may be missing at an end. */
  ghost predicate SplicedIn(m: seq<nat>, m': seq<nat>, h: nat, prev: nat, n: nat, next: nat,
                            item: nat)
  {
    && |m'| == |m| && Fits3(m, h) && Fits3(m, n)
    && (prev != NULL ==> Fits3(m, prev)) && (next != NULL ==> Fits3(m, next))
    && m'[n + ITEM] == item && m'[n + PREV] == prev && m'[n + NEXT] == next
    && var toNext := if prev == NULL then h + FIRST else prev + NEXT;
       var toPrev := if next == NULL then h + LAST else next + PREV;
    && m'[toNext] == n && m'[toPrev] == n && m'[h + COUNT] == m[h + COUNT] + 1
    && forall a | 0 <= a < |m| && !(n <= a <= n + 2) && a != toNext && a != toPrev && a != h + COUNT ::
         m'[a] == m[a]
  }

  /** A node goes out from between its neighbours. */
  ghost predicate SplicedOut(m: seq<nat>, m': seq<nat>, h: nat, prev: nat, next: nat) {
    && |m'| == |m| && Fits3(m, h)
    && (prev != NULL ==> Fits3(m, prev)) && (next != NULL ==> Fits3(m, next))
    && m[h + COUNT] > 0
    && var toNext := if prev == NULL then h + FIRST else prev + NEXT;
       var toPrev := if next == NULL then h + LAST else next + PREV;
    && m'[toNext] == next && m'[toPrev] == prev && m'[h + COUNT] == m[h + COUNT] - 1
    && forall a | 0 <= a < |m| && a != toNext && a != toPrev && a != h + COUNT :: m'[a] == m[a]
  }

  /** Only blocks of the given list, and one more block, may have changed. */
  ghost predicate OnlyTouches(m: seq<nat>, m': seq<nat>, h: nat, nodes: seq<nat>, n: nat) {
    && |m'| == |m|
    && (forall d {:trigger AllApart(d, nodes)}
          | Fits3(m, d) && Apart3(d, n) && Apart3(d, h) && AllApart(d, nodes) :: SameOn(m, m', d))
  }

  ghost predicate AllApart(d: nat, nodes: seq<nat>) {
    forall i {:trigger nodes[i]} | 0 <= i < |nodes| :: Apart3(d, nodes[i])
  }

  function Before(nodes: seq<nat>, k: nat): nat {
    if 0 < k <= |nodes| then nodes[k - 1] else NULL
  }

  function Behind(nodes: seq<nat>, k: nat): nat {
    if k < |nodes| then nodes[k] else NULL
  }

  lemma SpliceIn(m: seq<nat>, m': seq<nat>, h: nat, nodes: seq<nat>, k: nat, n: nat, item: nat)
    requires ListRep(m, h, nodes) && k <= |nodes|
    requires SplicedIn(m, m', h, Before(nodes, k), n, Behind(nodes, k), item)
    requires Apart3(n, h) && AllApart(n, nodes)
    ensures LinkedIn(m, m', h, nodes, k, n, item)
  {
    hide Links;
  }

  lemma SpliceInTouches(m: seq<nat>, m': seq<nat>, h: nat, nodes: seq<nat>, k: nat, n: nat, item: nat)
    requires k <= |nodes|
    requires SplicedIn(m, m', h, Before(nodes, k), n, Behind(nodes, k), item)
    ensures OnlyTouches(m, m', h, nodes, n)
  {
  }

  lemma SpliceOut(m: seq<nat>, m': seq<nat>, h: nat, nodes: seq<nat>, k: nat)
    requires ListRep(m, h, nodes) && k < |nodes|
    requires SplicedOut(m, m', h, Before(nodes, k), Behind(nodes, k + 1))
    ensures LinkedOut(m, m', h, nodes, k)
  {
    hide Links;
  }

  lemma SpliceOutTouches(m: seq<nat>, m': seq<nat>, h: nat, nodes: seq<nat>, k: nat)
    requires k < |nodes|
    requires SplicedOut(m, m', h, Before(nodes, k), Behind(nodes, k + 1))
    ensures OnlyTouches(m, m', h, nodes, nodes[k])
  {
  }

  /** What the pointers around the k-th place of a list look like. */
  ghost predicate PlaceAt(m: seq<nat>, h: nat, nodes: seq<nat>, k: nat) {
    && k <= |nodes|
    && var p, q := Before(nodes, k), Behind(nodes, k);
    && Fits3(m, h) && m[h + COUNT] == |nodes|
    && m[h + FIRST] == Behind(nodes, 0) && m[h + LAST] == Before(nodes, |nodes|)
    && (p == NULL <==> k == 0) && (q == NULL <==> k == |nodes|)
    && (p != NULL ==> && Fits3(m, p) && Apart3(p, h) && m[p + NEXT] == q
                      && (p == m[h + LAST] <==> q == NULL))
    && (q != NULL ==> && Fits3(m, q) && Apart3(q, h) && m[q + PREV] == p
                      && (q == m[h + FIRST] <==> p == NULL))
    && (p != NULL && q != NULL ==> Apart3(p, q))
  }

  lemma ListRepPlace(m: seq<nat>, h: nat, nodes: seq<nat>, k: nat)
    requires ListRep(m, h, nodes) && k <= |nodes|
    ensures PlaceAt(m, h, nodes, k)
  {
    if 0 < k < |nodes| {
      assert Neighbours(m, nodes[k - 1], nodes[k]);
    }
  }

  /** The nodes on both sides of a node do not overlap either. */
  lemma ListRepSides(m: seq<nat>, h: nat, nodes: seq<nat>, k: nat)
    requires ListRep(m, h, nodes) && k < |nodes|
    ensures Before(nodes, k) != NULL && Behind(nodes, k + 1) != NULL
            ==> Apart3(Before(nodes, k), Behind(nodes, k + 1))
  {
  }

  // ---------------------------------------------------------------- all lists

  ghost predicate ThreeWords(tags: map<nat, Tag>, s: nat, d: nat) {
    && d > 0 && At(tags, d, Data(s, d - 1)) && At(tags, d + 1, Data(s, d - 1))
    && At(tags, d + 2, Data(s, d - 1))
  }

  /** Every block that the module uses has its three words among the data words of its block. */
  ghost predicate OwnWords(tags: map<nat, Tag>, owner: map<nat, Owner>) {
    forall d {:trigger owner[d]} {:trigger d in owner} | d in owner ::
      ThreeWords(tags, owner[d].s, d)
  }

  /** Every such block is held and large enough. */
  ghost predicate OwnHolds(st: PoolSpec.State, owner: map<nat, Owner>) {
    forall d {:trigger owner[d]} {:trigger d in owner} | d in owner ::
      PoolSpec.Holds(st, owner[d].s, d) && owner[d].s >= 3 * W
  }

  ghost predicate Owned(tags: map<nat, Tag>, st: PoolSpec.State, owner: map<nat, Owner>) {
    OwnWords(tags, owner) && OwnHolds(st, owner)
  }

  ghost predicate ListIn(m: seq<nat>, owner: map<nat, Owner>, h: nat, nodes: seq<nat>) {
    && ListRep(m, h, nodes)
    && h in owner && owner[h].list == h
    && (forall i {:trigger nodes[i]} | 0 <= i < |nodes| ::
          nodes[i] in owner && owner[nodes[i]].list == h)
  }

  /** The live lists, each in its own blocks; every block in use is a header or a node. */
  ghost predicate AllLists(m: seq<nat>, lists: map<nat, seq<nat>>, owner: map<nat, Owner>) {
    && (forall h {:trigger lists[h]} {:trigger h in lists} | h in lists :: ListIn(m, owner, h, lists[h]))
    && AllUsed(lists, owner)
  }

  /** Different blocks share no word. */
  lemma OwnedApart(tags: map<nat, Tag>, owner: map<nat, Owner>, d: nat, e: nat)
    requires OwnWords(tags, owner) && d in owner && e in owner && d != e
    ensures Apart3(d, e)
  {
    assert ThreeWords(tags, owner[d].s, d) && ThreeWords(tags, owner[e].s, e);
  }

  /** Lists other than the one worked on keep their nodes and items. */
  lemma OthersKept(m: seq<nat>, m': seq<nat>, tags: map<nat, Tag>,
                   lists: map<nat, seq<nat>>, owner: map<nat, Owner>, owner': map<nat, Owner>,
                   h: nat, n: nat, g: nat)
    requires OwnWords(tags, owner') && AllLists(m, lists, owner)
    requires forall d :: d in owner ==> d in owner' && owner'[d] == owner[d]
    requires h in lists && g in lists && g != h && n in owner' && owner'[n].list == h
    requires OnlyTouches(m, m', h, lists[h], n)
    ensures ListIn(m', owner, g, lists[g]) && AllFit(m, lists[g]) && AllFit(m', lists[g])
    ensures Items(m', lists[g]) == Items(m, lists[g])
  {
    assert ListIn(m, owner, g, lists[g]) && ListIn(m, owner, h, lists[h]);
    forall d | d in owner && owner[d].list == g && Fits3(m, d)
      ensures SameOn(m, m', d)
    {
      OwnedApart(tags, owner', d, n);
      OwnedApart(tags, owner', d, h);
      forall i | 0 <= i < |lists[h]|
        ensures Apart3(d, lists[h][i])
      {
        OwnedApart(tags, owner', d, lists[h][i]);
      }
      assert AllApart(d, lists[h]);
    }
    ListRepFrame(m, m', g, lists[g]);
  }

  ghost predicate AllListsFit(m: seq<nat>, lists: map<nat, seq<nat>>) {
    forall h {:trigger lists[h]} | h in lists :: AllFit(m, lists[h])
  }

  /** What every live list holds. */
  ghost function Contents(m: seq<nat>, lists: map<nat, seq<nat>>): (c: map<nat, seq<int>>)
    requires AllListsFit(m, lists)
    ensures c.Keys == lists.Keys
    ensures forall h {:trigger c[h]} | h in lists :: c[h] == Items(m, lists[h])
  {
    map h | h in lists :: Items(m, lists[h])
  }

  lemma AllListsFitting(m: seq<nat>, lists: map<nat, seq<nat>>, owner: map<nat, Owner>)
    requires AllLists(m, lists, owner)
    ensures AllListsFit(m, lists)
  {
    forall h | h in lists
      ensures AllFit(m, lists[h])
    {
      assert ListIn(m, owner, h, lists[h]);
    }
  }

  /** One list changes, the others stay; with what a walk through all of them then finds. */
  lemma AllListsSet(m: seq<nat>, m': seq<nat>, lists: map<nat, seq<nat>>, owner: map<nat, Owner>,
                    owner': map<nat, Owner>, h: nat, nodes: seq<nat>)
    requires AllListsFit(m, lists) && h in lists
    requires ListIn(m', owner', h, nodes)
    requires forall g {:trigger lists[g]} | g in lists && g != h ::
      && ListIn(m', owner, g, lists[g]) && AllFit(m, lists[g]) && AllFit(m', lists[g])
      && Items(m', lists[g]) == Items(m, lists[g])
    requires forall d | d in owner && owner[d].list != h :: d in owner' && owner'[d] == owner[d]
    requires forall d {:trigger d in owner'} | d in owner' ::
      if owner'[d].list == h then d == h || d in nodes
      else d in owner && owner'[d].list in lists
           && (d == owner'[d].list || d in lists[owner'[d].list])
    ensures AllLists(m', lists[h := nodes], owner')
    ensures AllFit(m', nodes) && AllListsFit(m', lists[h := nodes])
    ensures Contents(m', lists[h := nodes]) == Contents(m, lists)[h := Items(m', nodes)]
  {
    hide ListRep, AllFit, Items;
    ListInFits(m', owner', h, nodes);
    var lists' := lists[h := nodes];
    forall g | g in lists'
      ensures ListIn(m', owner', g, lists'[g])
    {
      if g != h {
        assert lists'[g] == lists[g];
      }
    }
    hide ListIn;
    ContentsSet(m, m', lists, h, nodes);
  }

  lemma ContentsSet(m: seq<nat>, m': seq<nat>, lists: map<nat, seq<nat>>, h: nat, nodes: seq<nat>)
    requires AllListsFit(m, lists) && AllFit(m', nodes)
    requires forall g {:trigger lists[g]} | g in lists && g != h ::
      AllFit(m', lists[g]) && AllFit(m, lists[g]) && Items(m', lists[g]) == Items(m, lists[g])
    ensures AllListsFit(m', lists[h := nodes])
    ensures Contents(m', lists[h := nodes]) == Contents(m, lists)[h := Items(m', nodes)]
  {
    hide AllFit, Items;
  }

  lemma ListInFits(m: seq<nat>, owner: map<nat, Owner>, h: nat, nodes: seq<nat>)
    requires ListIn(m, owner, h, nodes)
    ensures AllFit(m, nodes) && Fits3(m, h)
  {
  }

  /** A new node in a list. */
  lemma AllListsInsert(m: seq<nat>, m': seq<nat>, tags: map<nat, Tag>,
                       lists: map<nat, seq<nat>>, owner: map<nat, Owner>, h: nat, k: nat, n: nat,
                       item: nat, s: nat)
    requires AllLists(m, lists, owner) && h in lists && k <= |lists[h]| && n !in owner
    requires OwnWords(tags, owner[n := Owner(h, s)])
    requires Apart3(n, h) && AllApart(n, lists[h])
    requires LinkedIn(m, m', h, lists[h], k, n, item) && OnlyTouches(m, m', h, lists[h], n)
    ensures var nodes := SeqInsert(lists[h], k, n);
      && AllLists(m', lists[h := nodes], owner[n := Owner(h, s)])
      && AllListsFit(m, lists) && AllListsFit(m', lists[h := nodes])
      && Contents(m', lists[h := nodes])
         == Contents(m, lists)[h := SeqInsert(Contents(m, lists)[h], k, item)]
  {
    hide LinkedIn, OnlyTouches, OwnWords, ListIn, AllFit;
    var nodes, owner' := lists[h], owner[n := Owner(h, s)];
    ListInInserted(m, m', owner, h, nodes, k, n, item, s);
    AllListsFitting(m, lists, owner);
    AllOthersKept(m, m', tags, lists, owner, owner', h, n);
    AllListsSet(m, m', lists, owner, owner', h, SeqInsert(nodes, k, n));
  }

  lemma ListInInserted(m: seq<nat>, m': seq<nat>, owner: map<nat, Owner>, h: nat, nodes: seq<nat>,
                       k: nat, n: nat, item: nat, s: nat)
    requires ListIn(m, owner, h, nodes) && k <= |nodes| && n !in owner
    requires LinkedIn(m, m', h, nodes, k, n, item) && Apart3(n, h) && AllApart(n, nodes)
    ensures ListIn(m', owner[n := Owner(h, s)], h, SeqInsert(nodes, k, n))
    ensures AllFit(m, nodes) && AllFit(m', SeqInsert(nodes, k, n))
    ensures Items(m', SeqInsert(nodes, k, n)) == SeqInsert(Items(m, nodes), k, item)
    ensures forall x :: x in SeqInsert(nodes, k, n) <==> x == n || x in nodes
  {
    LinkIn(m, m', h, nodes, k, n, item);
    ListRepFits(m, h, nodes);
    ListRepFits(m', h, SeqInsert(nodes, k, n));
    InsertedMembers(nodes, k, n);
    InsertedOwned(owner, h, nodes, k, n, s);
    hide ListRep, LinkedIn, Apart3, AllApart, AllFit, SeqInsert;
  }

  lemma ListRepFits(m: seq<nat>, h: nat, nodes: seq<nat>)
    requires ListRep(m, h, nodes)
    ensures AllFit(m, nodes)
  {
  }

  lemma InsertedOwned(owner: map<nat, Owner>, h: nat, nodes: seq<nat>, k: nat, n: nat, s: nat)
    requires k <= |nodes|
    requires forall i {:trigger nodes[i]} | 0 <= i < |nodes| ::
               nodes[i] in owner && owner[nodes[i]].list == h
    ensures var r, owner' := SeqInsert(nodes, k, n), owner[n := Owner(h, s)];
      forall i {:trigger r[i]} | 0 <= i < |r| :: r[i] in owner' && owner'[r[i]].list == h
  {
  }

  lemma InsertedMembers(nodes: seq<nat>, k: nat, n: nat)
    requires k <= |nodes|
    ensures forall x :: x in SeqInsert(nodes, k, n) <==> x == n || x in nodes
  {
    assert nodes == nodes[..k] + nodes[k..];
  }

  lemma AllOthersKept(m: seq<nat>, m': seq<nat>, tags: map<nat, Tag>,
                      lists: map<nat, seq<nat>>, owner: map<nat, Owner>, owner': map<nat, Owner>,
                      h: nat, n: nat)
    requires OwnWords(tags, owner') && AllLists(m, lists, owner)
    requires forall d :: d in owner ==> d in owner' && owner'[d] == owner[d]
    requires h in lists && n in owner' && owner'[n].list == h
    requires OnlyTouches(m, m', h, lists[h], n)
    ensures forall g {:trigger lists[g]} | g in lists && g != h ::
      && ListIn(m', owner, g, lists[g]) && AllFit(m, lists[g]) && AllFit(m', lists[g])
      && Items(m', lists[g]) == Items(m, lists[g])
  {
    hide OwnWords, AllLists, OnlyTouches, ListIn, AllFit;
    forall g | g in lists && g != h
      ensures ListIn(m', owner, g, lists[g]) && AllFit(m, lists[g]) && AllFit(m', lists[g])
      ensures Items(m', lists[g]) == Items(m, lists[g])
    {
      OthersKept(m, m', tags, lists, owner, owner', h, n, g);
    }
  }

  /** A node less in a list; its block is no longer in use. */
  lemma AllListsRemove(m: seq<nat>, m': seq<nat>, tags: map<nat, Tag>,
                       lists: map<nat, seq<nat>>, owner: map<nat, Owner>, h: nat, k: nat)
    requires AllLists(m, lists, owner) && h in lists && k < |lists[h]|
    requires OwnWords(tags, owner)
    requires LinkedOut(m, m', h, lists[h], k) && OnlyTouches(m, m', h, lists[h], lists[h][k])
    ensures var nodes := SeqRemove(lists[h], k);
      && AllLists(m', lists[h := nodes], owner - {lists[h][k]})
      && AllListsFit(m, lists) && AllListsFit(m', lists[h := nodes])
      && Contents(m', lists[h := nodes])
         == Contents(m, lists)[h := SeqRemove(Contents(m, lists)[h], k)]
  {
    hide LinkedOut, OnlyTouches, OwnWords, ListIn, AllFit;
    var nodes, n := lists[h], lists[h][k];
    ListInRemoved(m, m', owner, h, nodes, k);
    AllListsFitting(m, lists, owner);
    assert n in owner && owner[n].list == h;
    AllOthersKept(m, m', tags, lists, owner, owner, h, n);
    AllListsSet(m, m', lists, owner, owner - {n}, h, SeqRemove(nodes, k));
  }

  lemma ListInRemoved(m: seq<nat>, m': seq<nat>, owner: map<nat, Owner>, h: nat, nodes: seq<nat>,
                      k: nat)
    requires ListIn(m, owner, h, nodes) && k < |nodes|
    requires LinkedOut(m, m', h, nodes, k)
    ensures nodes[k] in owner && owner[nodes[k]].list == h
    ensures ListIn(m', owner - {nodes[k]}, h, SeqRemove(nodes, k))
    ensures AllFit(m, nodes) && AllFit(m', SeqRemove(nodes, k))
    ensures Items(m', SeqRemove(nodes, k)) == SeqRemove(Items(m, nodes), k)
    ensures forall x :: x in SeqRemove(nodes, k) <==> x in nodes && x != nodes[k]
    ensures h != nodes[k]
  {
    hide Links, LinkedOut;
    LinkOut(m, m', h, nodes, k);
    RemovedMembers(m, h, nodes, k);
    forall i | 0 <= i < |SeqRemove(nodes, k)|
      ensures SeqRemove(nodes, k)[i] in owner - {nodes[k]} && owner[SeqRemove(nodes, k)[i]].list == h
    {
      assert SeqRemove(nodes, k)[i] in SeqRemove(nodes, k);
    }
  }

  lemma RemovedMembers(m: seq<nat>, h: nat, nodes: seq<nat>, k: nat)
    requires Separate(m, h, nodes) && k < |nodes|
    ensures forall x :: x in SeqRemove(nodes, k) <==> x in nodes && x != nodes[k]
    ensures h != nodes[k]
  {
    assert nodes == nodes[..k] + [nodes[k]] + nodes[k + 1..];
  }

  // ---------------------------------------------------------------- over the pools

  /** Blocks that stay held stay owned. */
  lemma OwnedKept(tags: map<nat, Tag>, tags': map<nat, Tag>, st: PoolSpec.State,
                  st': PoolSpec.State, owner: map<nat, Owner>)
    requires Owned(tags, st, owner)
    requires forall a :: a in tags ==> a in tags' && tags'[a] == tags[a]
    requires forall t: nat, q: nat :: PoolSpec.Holds(st, t, q) ==> PoolSpec.Holds(st', t, q)
    ensures Owned(tags', st', owner)
  {
    hide PoolSpec.Holds;
  }

  /** The same when only these blocks are known to stay held. */
  lemma OwnedStay(tags: map<nat, Tag>, tags': map<nat, Tag>, st: PoolSpec.State,
                  st': PoolSpec.State, owner: map<nat, Owner>)
    requires Owned(tags, st, owner)
    requires forall a :: a in tags ==> a in tags' && tags'[a] == tags[a]
    requires forall d | d in owner :: PoolSpec.Holds(st', owner[d].s, d)
    ensures Owned(tags', st', owner)
  {
    hide PoolSpec.Holds;
  }

  /** A word of a block that no list owns is no word of a list. */
  lemma WordBeside(tags: map<nat, Tag>, owner: map<nat, Owner>, s: nat, p: nat, i: nat)
    requires OwnWords(tags, owner) && p > 0 && p !in owner && i < Words(s)
    requires OwnsData(tags, s, p - 1)
    ensures forall d | d in owner :: p + i < d || d + 2 < p + i
  {
    assert At(tags, p + i, Data(s, p - 1));
    forall d | d in owner
      ensures p + i < d || d + 2 < p + i
    {
      assert ThreeWords(tags, owner[d].s, d);
    }
  }

  /** Writing beside the blocks of all lists leaves the lists what they are. */
  lemma ListsBeside(m: seq<nat>, m': seq<nat>, lists: map<nat, seq<nat>>, owner: map<nat, Owner>, a: nat,
                    value: nat)
    requires AllLists(m, lists, owner) && a < |m| && m' == m[a := value]
    requires forall d | d in owner :: Fits3(m, d) && (a < d || d + 2 < a)
    ensures AllLists(m', lists, owner)
    ensures AllListsFit(m, lists) && AllListsFit(m', lists)
    ensures Contents(m', lists) == Contents(m, lists)
  {
    EveryListKept(m, m', lists, owner);
    ContentsSame(m, m', lists);
    hide ListIn, AllFit;
  }

  /** A newly held block of at least three words can be used. */
  lemma OwnedAdd(tags: map<nat, Tag>, st: PoolSpec.State, owner: map<nat, Owner>, d: nat, o: Owner)
    requires Owned(tags, st, owner)
    requires PoolSpec.Holds(st, o.s, d) && o.s >= 3 * W && OwnsData(tags, o.s, d - 1)
    ensures Owned(tags, st, owner[d := o])
  {
    StructureSizes(o.s);
    assert ThreeWords(tags, o.s, d) by {
      hide Words;
    }
  }

  lemma OwnedFits(m: seq<nat>, tags: map<nat, Tag>, owner: map<nat, Owner>, d: nat)
    requires OwnWords(tags, owner) && Mapped(m, tags) && d in owner
    ensures Fits3(m, d)
  {
    assert ThreeWords(tags, owner[d].s, d);
  }

  /** As long as no data word changes, the lists stay what they are. */
  lemma AllListsKept(m: seq<nat>, m': seq<nat>, tags: map<nat, Tag>, tags': map<nat, Tag>,
                     lists: map<nat, seq<nat>>, owner: map<nat, Owner>)
    requires OwnWords(tags, owner) && AllLists(m, lists, owner)
    requires Mapped(m, tags) && DataKept(m, m', tags, tags')
    ensures AllLists(m', lists, owner)
    ensures AllListsFit(m, lists) && AllListsFit(m', lists)
    ensures Contents(m', lists) == Contents(m, lists)
  {
    OwnedSame(m, m', tags, tags', owner);
    EveryListKept(m, m', lists, owner);
    ContentsSame(m, m', lists);
    hide OwnWords, DataKept, ListIn, Mapped;
  }

  lemma EveryListKept(m: seq<nat>, m': seq<nat>, lists: map<nat, seq<nat>>, owner: map<nat, Owner>)
    requires AllLists(m, lists, owner)
    requires forall d :: d in owner ==> SameOn(m, m', d)
    ensures forall h {:trigger lists[h]} | h in lists ::
      && ListIn(m', owner, h, lists[h]) && AllFit(m', lists[h]) && AllFit(m, lists[h])
      && Items(m', lists[h]) == Items(m, lists[h])
  {
    hide ListIn, SameOn, AllFit;
    forall h | h in lists
      ensures ListIn(m', owner, h, lists[h]) && AllFit(m', lists[h]) && AllFit(m, lists[h])
      ensures Items(m', lists[h]) == Items(m, lists[h])
    {
      OneListKept(m, m', owner, h, lists[h]);
    }
  }

  lemma ContentsSame(m: seq<nat>, m': seq<nat>, lists: map<nat, seq<nat>>)
    requires forall h {:trigger lists[h]} | h in lists ::
      AllFit(m', lists[h]) && AllFit(m, lists[h]) && Items(m', lists[h]) == Items(m, lists[h])
    ensures AllListsFit(m, lists) && AllListsFit(m', lists)
    ensures Contents(m', lists) == Contents(m, lists)
  {
    hide AllFit;
  }

  lemma OwnedSame(m: seq<nat>, m': seq<nat>, tags: map<nat, Tag>, tags': map<nat, Tag>, owner: map<nat, Owner>)
    requires OwnWords(tags, owner) && Mapped(m, tags) && DataKept(m, m', tags, tags')
    ensures forall d :: d in owner ==> SameOn(m, m', d)
  {
    forall d | d in owner
      ensures SameOn(m, m', d)
    {
      assert ThreeWords(tags, owner[d].s, d);
    }
  }

  lemma OneListKept(m: seq<nat>, m': seq<nat>, owner: map<nat, Owner>, h: nat, nodes: seq<nat>)
    requires ListIn(m, owner, h, nodes)
    requires forall d :: d in owner ==> SameOn(m, m', d)
    ensures ListIn(m', owner, h, nodes) && AllFit(m, nodes) && AllFit(m', nodes)
    ensures Items(m', nodes) == Items(m, nodes)
  {
    ListRepFrame(m, m', h, nodes);
  }

  // ---------------------------------------------------------------- whole operations

  /** After the pointer writes of an insertion everything is in order again. */
  lemma FinishInsert(m: seq<nat>, m': seq<nat>, head: nat, top: nat, v: View,
                     lists: map<nat, seq<nat>>, owner: map<nat, Owner>, h: nat, k: nat, n: nat,
                     item: nat, s: nat)
    requires Rep(m, head, top, v) && 0 < top && OwnWords(v.tags, owner[n := Owner(h, s)])
    requires AllLists(m, lists, owner) && h in lists && k <= |lists[h]| && n !in owner
    requires SplicedIn(m, m', h, Before(lists[h], k), n, Behind(lists[h], k), item)
    ensures Rep(m', head, top, v)
    ensures var nodes := SeqInsert(lists[h], k, n);
      && AllLists(m', lists[h := nodes], owner[n := Owner(h, s)])
      && AllListsFit(m, lists) && AllListsFit(m', lists[h := nodes])
      && Contents(m', lists[h := nodes])
         == Contents(m, lists)[h := SeqInsert(Contents(m, lists)[h], k, item)]
  {
    hide Rep, OwnWords, AllLists, ListRep, SplicedIn, LinkedIn, OnlyTouches;
    ListOf(m, lists, owner, h);
    NewApart(v.tags, owner, h, lists[h], n, s);
    SpliceIn(m, m', h, lists[h], k, n, item);
    SpliceInTouches(m, m', h, lists[h], k, n, item);
    AllListsInsert(m, m', v.tags, lists, owner, h, k, n, item, s);
    SpliceInData(m, m', v.tags, owner[n := Owner(h, s)], h, lists[h], k, n, item);
    RepTop(m, head, top, v);
    RepDataWritten(m, m', head, top, v);
  }

  lemma ListOf(m: seq<nat>, lists: map<nat, seq<nat>>, owner: map<nat, Owner>, h: nat)
    requires AllLists(m, lists, owner) && h in lists
    ensures ListRep(m, h, lists[h]) && h in owner && owner[h].list == h
    ensures forall i {:trigger lists[h][i]} | 0 <= i < |lists[h]| ::
              lists[h][i] in owner && owner[lists[h][i]].list == h
    ensures ListIn(m, owner, h, lists[h])
  {
    assert ListIn(m, owner, h, lists[h]);
  }

  lemma NewApart(tags: map<nat, Tag>, owner: map<nat, Owner>, h: nat,
                 nodes: seq<nat>, n: nat, s: nat)
    requires OwnWords(tags, owner[n := Owner(h, s)]) && n !in owner && h in owner
    requires forall i {:trigger nodes[i]} | 0 <= i < |nodes| :: nodes[i] in owner
    ensures Apart3(n, h) && AllApart(n, nodes)
  {
    hide OwnWords, Apart3;
    OwnedApart(tags, owner[n := Owner(h, s)], n, h);
    forall i | 0 <= i < |nodes|
      ensures Apart3(n, nodes[i])
    {
      OwnedApart(tags, owner[n := Owner(h, s)], n, nodes[i]);
    }
  }

  /** The pointer writes of an insertion hit data words only. */
  lemma SpliceInData(m: seq<nat>, m': seq<nat>, tags: map<nat, Tag>,
                     owner: map<nat, Owner>, h: nat, nodes: seq<nat>, k: nat, n: nat, item: nat)
    requires OwnWords(tags, owner) && h in owner && n in owner && k <= |nodes|
    requires forall i {:trigger nodes[i]} | 0 <= i < |nodes| :: nodes[i] in owner
    requires SplicedIn(m, m', h, Before(nodes, k), n, Behind(nodes, k), item)
    ensures |m'| == |m|
    ensures forall a | a in tags && !tags[a].Data? && a < |m| :: m'[a] == m[a]
  {
    assert ThreeWords(tags, owner[h].s, h) && ThreeWords(tags, owner[n].s, n);
    if k > 0 { assert ThreeWords(tags, owner[nodes[k - 1]].s, nodes[k - 1]); }
    if k < |nodes| { assert ThreeWords(tags, owner[nodes[k]].s, nodes[k]); }
  }

  /** The pointer writes of a removal hit data words only. */
  lemma SpliceOutData(m: seq<nat>, m': seq<nat>, tags: map<nat, Tag>,
                      owner: map<nat, Owner>, h: nat, nodes: seq<nat>, k: nat)
    requires OwnWords(tags, owner) && h in owner && k < |nodes|
    requires forall i {:trigger nodes[i]} | 0 <= i < |nodes| :: nodes[i] in owner
    requires SplicedOut(m, m', h, Before(nodes, k), Behind(nodes, k + 1))
    ensures |m'| == |m|
    ensures forall a | a in tags && !tags[a].Data? && a < |m| :: m'[a] == m[a]
  {
    assert ThreeWords(tags, owner[h].s, h);
    if k > 0 { assert ThreeWords(tags, owner[nodes[k - 1]].s, nodes[k - 1]); }
    if k + 1 < |nodes| { assert ThreeWords(tags, owner[nodes[k + 1]].s, nodes[k + 1]); }
  }

  /** After the pointer writes of a removal everything but the removed node is in order again. */
  lemma FinishRemove(m: seq<nat>, m': seq<nat>, head: nat, top: nat, v: View,
                     lists: map<nat, seq<nat>>, owner: map<nat, Owner>, h: nat, k: nat)
    requires Rep(m, head, top, v) && 0 < top && OwnWords(v.tags, owner)
    requires AllLists(m, lists, owner) && h in lists && k < |lists[h]|
    requires SplicedOut(m, m', h, Before(lists[h], k), Behind(lists[h], k + 1))
    ensures Rep(m', head, top, v)
    ensures var nodes := SeqRemove(lists[h], k);
      && AllLists(m', lists[h := nodes], owner - {lists[h][k]})
      && AllListsFit(m, lists) && AllListsFit(m', lists[h := nodes])
      && Contents(m', lists[h := nodes])
         == Contents(m, lists)[h := SeqRemove(Contents(m, lists)[h], k)]
  {
    hide Rep, OwnWords, AllLists, ListRep, SplicedOut, LinkedOut, OnlyTouches;
    ListOf(m, lists, owner, h);
    SpliceOut(m, m', h, lists[h], k);
    SpliceOutTouches(m, m', h, lists[h], k);
    AllListsRemove(m, m', v.tags, lists, owner, h, k);
    SpliceOutData(m, m', v.tags, owner, h, lists[h], k);
    RepTop(m, head, top, v);
    RepDataWritten(m, m', head, top, v);
  }

  /** Blocks other than the released one stay owned. */
  lemma OwnedReleased(tags: map<nat, Tag>, tags': map<nat, Tag>, st: PoolSpec.State,
                      owner: map<nat, Owner>, d: nat)
    requires Owned(tags, st, owner) && d in owner
    requires PoolSpec.Holds(st, owner[d].s, d)
    requires forall a :: a in tags ==> a in tags' && tags'[a] == tags[a]
    ensures Owned(tags', PoolSpec.Release(st, owner[d].s, d), owner - {d})
  {
  }

  /** Where a new node may be linked in. */
  lemma PlaceForNew(m: seq<nat>, tags: map<nat, Tag>, lists: map<nat, seq<nat>>,
                    owner: map<nat, Owner>, h: nat, k: nat, n: nat, s: nat)
    requires OwnWords(tags, owner[n := Owner(h, s)]) && AllLists(m, lists, owner)
    requires h in lists && k <= |lists[h]| && n !in owner
    ensures PlaceAt(m, h, lists[h], k)
    ensures PlaceAt(m, h, lists[h], 0) && PlaceAt(m, h, lists[h], |lists[h]|)
    ensures Apart3(n, h) && AllApart(n, lists[h])
  {
    ListOf(m, lists, owner, h);
    hide OwnWords, AllLists, ListRep, ListIn;
    NewApart(tags, owner, h, lists[h], n, s);
    ListRepPlace(m, h, lists[h], k);
    ListRepPlace(m, h, lists[h], 0);
    ListRepPlace(m, h, lists[h], |lists[h]|);
  }

  /** After a release the other blocks are owned as before. */
  lemma OwnedAfterRelease(m: seq<nat>, m': seq<nat>, head: nat, top: nat, v: View,
                          tags': map<nat, Tag>, st: PoolSpec.State, owner: map<nat, Owner>, d: nat)
    requires Rep(m, head, top, v) && DataKept(m, m', v.tags, tags')
    requires Owned(v.tags, st, owner) && d in owner
    ensures PoolSpec.Holds(st, owner[d].s, d)
    ensures Mapped(m, v.tags) && Owned(v.tags, st, owner - {d})
    ensures Owned(tags', PoolSpec.Release(st, owner[d].s, d), owner - {d})
  {
    hide AllPools, PoolChain;
    assert PoolSpec.Holds(st, owner[d].s, d);
    OwnedReleased(v.tags, tags', st, owner, d);
  }

  /** What the pointers of a node that is to be removed look like. */
  lemma NodeToRemove(m: seq<nat>, tags: map<nat, Tag>, st: PoolSpec.State,
                     lists: map<nat, seq<nat>>, owner: map<nat, Owner>, h: nat, k: nat)
    requires Owned(tags, st, owner) && AllLists(m, lists, owner)
    requires h in lists && k < |lists[h]|
    ensures var nodes := lists[h];
      && PlaceAt(m, h, nodes, k) && PlaceAt(m, h, nodes, k + 1)
      && nodes[k] in owner && owner[nodes[k]].list == h
      && PoolSpec.Holds(st, owner[nodes[k]].s, nodes[k])
      && (Before(nodes, k) != NULL && Behind(nodes, k + 1) != NULL
          ==> Apart3(Before(nodes, k), Behind(nodes, k + 1)))
  {
    ListOf(m, lists, owner, h);
    ListRepPlace(m, h, lists[h], k);
    ListRepPlace(m, h, lists[h], k + 1);
    ListRepSides(m, h, lists[h], k);
  }

  // ---------------------------------------------------------------- writing items

  /** Writing item words keeps the list a list. */
  lemma ItemsWritten(m: seq<nat>, m': seq<nat>, h: nat, nodes: seq<nat>)
    requires ListRep(m, h, nodes) && |m'| == |m|
    requires forall a | 0 <= a < |m| && a !in nodes :: m'[a] == m[a]
    ensures ListRep(m', h, nodes)
  {
    hide Links, Items;
    ItemWordsOnly(m, h, nodes);
    LinksKept(m, m', h, nodes);
  }

  /** No header, link or other block's word is an item word of the list. */
  lemma ItemWordsOnly(m: seq<nat>, h: nat, nodes: seq<nat>)
    requires Separate(m, h, nodes)
    ensures h !in nodes && h + 1 !in nodes && h + 2 !in nodes
    ensures forall i {:trigger nodes[i]} | 0 <= i < |nodes| ::
              nodes[i] + 1 !in nodes && nodes[i] + 2 !in nodes
  {
    forall i, j | 0 <= i < |nodes| && 0 <= j < |nodes|
      ensures nodes[i] + 1 != nodes[j] && nodes[i] + 2 != nodes[j]
    {
      if i < j {
        assert Apart3(nodes[i], nodes[j]);
      } else if j < i {
        assert Apart3(nodes[j], nodes[i]);
      }
    }
  }

  lemma LinksKept(m: seq<nat>, m': seq<nat>, h: nat, nodes: seq<nat>)
    requires AllFit(m, nodes) && Links(m, nodes) && |m'| == |m|
    requires forall a | 0 <= a < |m| && a !in nodes :: m'[a] == m[a]
    requires forall i {:trigger nodes[i]} | 0 <= i < |nodes| ::
               nodes[i] + 1 !in nodes && nodes[i] + 2 !in nodes
    ensures AllFit(m', nodes) && Links(m', nodes)
  {
  }

  lemma ItemsTouch(m: seq<nat>, m': seq<nat>, h: nat, nodes: seq<nat>)
    requires |m'| == |m|
    requires forall a | 0 <= a < |m| && a !in nodes :: m'[a] == m[a]
    ensures OnlyTouches(m, m', h, nodes, h)
  {
    forall d: nat | Fits3(m, d) && AllApart(d, nodes)
      ensures d !in nodes && d + 1 !in nodes && d + 2 !in nodes
    {
      forall i | 0 <= i < |nodes|
        ensures nodes[i] != d && nodes[i] != d + 1 && nodes[i] != d + 2
      {
        assert Apart3(d, nodes[i]);
      }
    }
  }

  /** After item words of one list were written everything else is as before. */
  lemma FinishItems(m: seq<nat>, m': seq<nat>, head: nat, top: nat, v: View,
                    lists: map<nat, seq<nat>>, owner: map<nat, Owner>, h: nat)
    requires Rep(m, head, top, v) && 0 < top && OwnWords(v.tags, owner)
    requires AllLists(m, lists, owner) && h in lists && |m'| == |m|
    requires forall a | 0 <= a < |m| && a !in lists[h] :: m'[a] == m[a]
    ensures Rep(m', head, top, v) && AllLists(m', lists, owner)
    ensures ListRep(m', h, lists[h])
    ensures AllListsFit(m, lists) && AllListsFit(m', lists)
    ensures Contents(m', lists) == Contents(m, lists)[h := Items(m', lists[h])]
  {
    hide Rep, ListRep, OnlyTouches, OwnWords, AllFit, Links, ListIn;
    ListOf(m, lists, owner, h);
    ItemsWritten(m, m', h, lists[h]);
    ItemsTouch(m, m', h, lists[h]);
    StillListIn(m, m', owner, h, lists[h]);
    ListInFits(m', owner, h, lists[h]);
    AllListsFitting(m, lists, owner);
    AllOthersKept(m, m', v.tags, lists, owner, owner, h, h);
    AllListsSet(m, m', lists, owner, owner, h, lists[h]);
    assert lists[h := lists[h]] == lists;
    NodesAreData(v.tags, owner, lists[h]);
    RepTop(m, head, top, v);
    RepDataWritten(m, m', head, top, v);
  }

  lemma StillListIn(m: seq<nat>, m': seq<nat>, owner: map<nat, Owner>, h: nat, nodes: seq<nat>)
    requires ListIn(m, owner, h, nodes) && ListRep(m', h, nodes)
    ensures ListIn(m', owner, h, nodes)
  {
    hide ListRep;
  }

  lemma NodesAreData(tags: map<nat, Tag>, owner: map<nat, Owner>, nodes: seq<nat>)
    requires OwnWords(tags, owner)
    requires forall i {:trigger nodes[i]} | 0 <= i < |nodes| :: nodes[i] in owner
    ensures forall a | a in nodes :: a in tags && tags[a].Data?
  {
    forall a | a in nodes
      ensures a in tags && tags[a].Data?
    {
      assert ThreeWords(tags, owner[a].s, a);
    }
  }

  lemma ItemsSwapped(m: seq<nat>, m': seq<nat>, h: nat, nodes: seq<nat>, i: nat, j: nat, item1: nat,
                     item2: nat)
    requires ListRep(m, h, nodes) && i < |nodes| && j < |nodes|
    requires i == j ==> item1 == item2
    requires m' == m[nodes[i] + ITEM := item2][nodes[j] + ITEM := item1]
    ensures AllFit(m, nodes) && AllFit(m', nodes)
    ensures Items(m', nodes) == Overwrite(Items(m, nodes), i, j, item2, item1)
  {
    hide Links;
  }

  // ---------------------------------------------------------------- clearing

  lemma DataKeptTwice(m: seq<nat>, m1: seq<nat>, m2: seq<nat>, tags: map<nat, Tag>,
                      tags1: map<nat, Tag>, tags2: map<nat, Tag>)
    requires DataKept(m, m1, tags, tags1) && DataKept(m1, m2, tags1, tags2)
    ensures DataKept(m, m2, tags, tags2)
  {
  }

  /** What a walk that releases every node finds at its i-th step. */
  lemma ClearStep(m: seq<nat>, m': seq<nat>, tags: map<nat, Tag>, tags': map<nat, Tag>,
                  st: PoolSpec.State, lists: map<nat, seq<nat>>, owner: map<nat, Owner>, h: nat, i: nat)
    requires AllLists(m, lists, owner) && h in lists && i < |lists[h]|
    requires OwnWords(tags, owner) && Mapped(m, tags) && DataKept(m, m', tags, tags')
    requires Owned(tags', st, Without(owner, lists[h][..i]))
    ensures var nodes, n := lists[h], lists[h][i];
      && 0 < n < |m'| - 2 && m'[n + NEXT] == Behind(nodes, i + 1)
      && (m'[n + NEXT] == NULL <==> i + 1 == |nodes|)
      && n in owner && PoolSpec.Holds(st, owner[n].s, n)
      && Without(owner, nodes[..i + 1]) == Without(owner, nodes[..i]) - {n}
      && n in Without(owner, nodes[..i]) && Without(owner, nodes[..i])[n] == owner[n]
  {
    ListOf(m, lists, owner, h);
    OwnedSame(m, m', tags, tags', owner);
    hide AllLists, DataKept, OwnWords, Without, PoolSpec.Holds;
    var nodes, n := lists[h], lists[h][i];
    WalkNext(m, m', h, nodes, i);
    NodesDistinct(m, h, nodes, i);
    hide ListRep;
    WithoutOneMore(owner, nodes, i);
  }

  lemma WalkNext(m: seq<nat>, m': seq<nat>, h: nat, nodes: seq<nat>, i: nat)
    requires ListRep(m, h, nodes) && i < |nodes| && SameOn(m, m', nodes[i])
    ensures 0 < nodes[i] < |m'| - 2 && m'[nodes[i] + NEXT] == Behind(nodes, i + 1)
    ensures m'[nodes[i] + NEXT] == NULL <==> i + 1 == |nodes|
  {
    ListRepPlace(m, h, nodes, i + 1);
    hide ListRep;
  }

  lemma WithoutOneMore(owner: map<nat, Owner>, nodes: seq<nat>, i: nat)
    requires i < |nodes| && nodes[i] in owner && nodes[i] !in nodes[..i]
    ensures var n := nodes[i];
      && n in Without(owner, nodes[..i]) && Without(owner, nodes[..i])[n] == owner[n]
      && Without(owner, nodes[..i + 1]) == Without(owner, nodes[..i]) - {n}
  {
    assert nodes[..i + 1] == nodes[..i] + [nodes[i]];
  }

  lemma NodesDistinct(m: seq<nat>, h: nat, nodes: seq<nat>, i: nat)
    requires ListRep(m, h, nodes) && i < |nodes|
    ensures nodes[i] !in nodes[..i]
  {
    hide Links;
    forall j | 0 <= j < i
      ensures nodes[j] != nodes[i]
    {
      assert Apart3(nodes[j], nodes[i]);
    }
  }

  /** Before and after the walk. */
  lemma ClearStart(m: seq<nat>, tags: map<nat, Tag>, st: PoolSpec.State, owner: map<nat, Owner>,
                   nodes: seq<nat>)
    ensures nodes[..0] == [] && nodes[..|nodes|] == nodes
    ensures Without(owner, []) == owner && ReleaseNodes(st, owner, []) == st
    ensures DataKept(m, m, tags, tags)
  {
  }

  /** The memory after the header of a list was set to empty. */
  function HeaderCleared(m: seq<nat>, h: nat): seq<nat>
    requires h + 2 < |m|
  {
    m[h + FIRST := NULL][h + LAST := NULL][h + COUNT := 0]
  }

  /** An empty list with its header as its only block, beside the others. */
  lemma FinishClear(m: seq<nat>, head: nat, top: nat, v: View,
                    lists: map<nat, seq<nat>>, owner: map<nat, Owner>, h: nat)
    requires Rep(m, head, top, v) && 0 < top && OwnWords(v.tags, owner)
    requires AllLists(m, lists, owner) && h in lists && h + 2 < |m|
    ensures var m' := HeaderCleared(m, h);
      && Rep(m', head, top, v)
      && AllLists(m', lists[h := []], Without(owner, lists[h]))
      && AllListsFit(m, lists) && AllListsFit(m', lists[h := []])
      && Contents(m', lists[h := []]) == Contents(m, lists)[h := []]
  {
    hide Rep, OwnWords, ListIn, AllFit;
    var m', nodes, owner' := HeaderCleared(m, h), lists[h], Without(owner, lists[h]);
    ListOf(m, lists, owner, h);
    HeaderApart(m, h, nodes);
    ClearedListIn(m, owner', h);
    AllListsFitting(m, lists, owner);
    ClearedTouches(m, h, nodes);
    AllOthersKept(m, m', v.tags, lists, owner, owner, h, h);
    hide ListRep, OnlyTouches;
    AllListsSet(m, m', lists, owner, owner', h, []);
    EmptyFits(m');
    assert Items(m', []) == [];
    HeaderIsData(v.tags, owner, h);
    RepTop(m, head, top, v);
    RepDataWritten(m, m', head, top, v);
  }

  lemma HeaderApart(m: seq<nat>, h: nat, nodes: seq<nat>)
    requires ListRep(m, h, nodes)
    ensures h !in nodes && Fits3(m, h)
  {
    hide Links;
    forall i | 0 <= i < |nodes|
      ensures nodes[i] != h
    {
      assert Apart3(nodes[i], h);
    }
  }

  lemma ClearedListIn(m: seq<nat>, owner: map<nat, Owner>, h: nat)
    requires Fits3(m, h) && h in owner && owner[h].list == h
    ensures ListIn(HeaderCleared(m, h), owner, h, [])
  {
  }

  lemma ClearedTouches(m: seq<nat>, h: nat, nodes: seq<nat>)
    requires Fits3(m, h)
    ensures OnlyTouches(m, HeaderCleared(m, h), h, nodes, h)
  {
  }

  lemma HeaderIsData(tags: map<nat, Tag>, owner: map<nat, Owner>, h: nat)
    requires OwnWords(tags, owner) && h in owner
    ensures h in tags && tags[h].Data? && h + 1 in tags && tags[h + 1].Data?
    ensures h + 2 in tags && tags[h + 2].Data?
  {
    assert ThreeWords(tags, owner[h].s, h);
  }

  /** A list that is gone with its header. */
  lemma AllListsDrop(m: seq<nat>, lists: map<nat, seq<nat>>, owner: map<nat, Owner>, h: nat)
    requires AllLists(m, lists, owner) && h in lists && lists[h] == []
    ensures AllLists(m, lists - {h}, owner - {h})
    ensures AllListsFit(m, lists) && AllListsFit(m, lists - {h})
    ensures Contents(m, lists - {h}) == Contents(m, lists) - {h}
  {
    AllListsFitting(m, lists, owner);
    ListOf(m, lists, owner, h);
    ContentsDrop(m, lists, h);
    BlocksDrop(m, lists, owner, h);
    hide ListIn, AllFit, AllListsFit, Contents;
    forall g | g in lists - {h}
      ensures ListIn(m, owner - {h}, g, (lists - {h})[g])
    {
      OtherListIn(m, owner, h, g, lists[g]);
    }
    hide AllLists;
    AllListsBy(m, lists - {h}, owner - {h});
  }

  lemma ContentsDrop(m: seq<nat>, lists: map<nat, seq<nat>>, h: nat)
    requires AllListsFit(m, lists)
    ensures AllListsFit(m, lists - {h}) && Contents(m, lists - {h}) == Contents(m, lists) - {h}
  {
    hide AllFit;
  }

  lemma BlocksDrop(m: seq<nat>, lists: map<nat, seq<nat>>, owner: map<nat, Owner>, h: nat)
    requires AllLists(m, lists, owner) && h in lists && lists[h] == []
    ensures AllUsed(lists - {h}, owner - {h})
  {
    hide ListIn;
  }

  lemma OtherListIn(m: seq<nat>, owner: map<nat, Owner>, h: nat, g: nat, nodes: seq<nat>)
    requires ListIn(m, owner, g, nodes) && g != h && h in owner && owner[h].list == h
    ensures ListIn(m, owner - {h}, g, nodes)
  {
    hide ListRep;
  }

  /** A new empty list in a block of its own. */
  lemma FinishCreate(m: seq<nat>, head: nat, top: nat, v: View, lists: map<nat, seq<nat>>,
                     owner: map<nat, Owner>, h: nat, s: nat)
    requires Rep(m, head, top, v) && 0 < top && OwnWords(v.tags, owner[h := Owner(h, s)])
    requires AllLists(m, lists, owner) && h !in owner && Fits3(m, h)
    ensures var m' := HeaderCleared(m, h);
      && Rep(m', head, top, v)
      && AllLists(m', lists[h := []], owner[h := Owner(h, s)])
      && AllListsFit(m, lists) && AllListsFit(m', lists[h := []])
      && Contents(m', lists[h := []]) == Contents(m, lists)[h := []]
      && h !in lists
  {
    hide Rep, OwnWords, AllLists, ListIn, AllFit;
    var m', owner' := HeaderCleared(m, h), owner[h := Owner(h, s)];
    RepTop(m, head, top, v);
    RepKeys(m, head, top, v);
    SameBeside(m, v.tags, owner, h, s);
    EveryHeaderOwned(m, lists, owner);
    EveryListKept(m, m', lists, owner);
    AllListsNew(m, m', lists, owner, h, s);
    HeaderIsData(v.tags, owner', h);
    RepDataWritten(m, m', head, top, v);
  }

  lemma AllListsNew(m: seq<nat>, m': seq<nat>, lists: map<nat, seq<nat>>, owner: map<nat, Owner>,
                    h: nat, s: nat)
    requires AllLists(m, lists, owner) && h !in owner && h !in lists && Fits3(m, h)
    requires m' == HeaderCleared(m, h)
    requires forall g {:trigger lists[g]} | g in lists ::
      && ListIn(m', owner, g, lists[g]) && AllFit(m', lists[g]) && AllFit(m, lists[g])
      && Items(m', lists[g]) == Items(m, lists[g])
    ensures AllLists(m', lists[h := []], owner[h := Owner(h, s)])
    ensures AllListsFit(m, lists) && AllListsFit(m', lists[h := []])
    ensures Contents(m', lists[h := []]) == Contents(m, lists)[h := []]
  {
    hide ListIn, AllFit, HeaderCleared, AllListsFit, Contents, AllLists;
    ContentsNew(m, m', lists, h);
    ClearedListIn(m, owner[h := Owner(h, s)], h);
    BlocksNew(m, lists, owner, h, s);
    ListsNew(m', lists, owner, owner[h := Owner(h, s)], h);
    AllListsBy(m', lists[h := []], owner[h := Owner(h, s)]);
  }

  lemma ListsNew(m: seq<nat>, lists: map<nat, seq<nat>>, owner: map<nat, Owner>,
                 owner': map<nat, Owner>, h: nat)
    requires forall d :: d in owner ==> d in owner' && owner'[d] == owner[d]
    requires forall g {:trigger lists[g]} | g in lists :: ListIn(m, owner, g, lists[g])
    requires ListIn(m, owner', h, [])
    ensures var lists' := lists[h := []];
      forall g {:trigger lists'[g]} {:trigger g in lists'} | g in lists' :: ListIn(m, owner', g, lists'[g])
  {
    hide ListIn;
    var lists' := lists[h := []];
    forall g | g in lists'
      ensures ListIn(m, owner', g, lists'[g])
    {
      if g != h {
        assert lists'[g] == lists[g];
        MoreOwners(m, owner, owner', g, lists[g]);
      }
    }
  }

  lemma AllListsBy(m: seq<nat>, lists: map<nat, seq<nat>>, owner: map<nat, Owner>)
    requires forall h {:trigger lists[h]} {:trigger h in lists} | h in lists :: ListIn(m, owner, h, lists[h])
    requires AllUsed(lists, owner)
    ensures AllLists(m, lists, owner)
  {
  }

  lemma ContentsNew(m: seq<nat>, m': seq<nat>, lists: map<nat, seq<nat>>, h: nat)
    requires h !in lists
    requires forall g {:trigger lists[g]} | g in lists ::
      AllFit(m', lists[g]) && AllFit(m, lists[g]) && Items(m', lists[g]) == Items(m, lists[g])
    ensures AllListsFit(m, lists) && AllListsFit(m', lists[h := []])
    ensures Contents(m', lists[h := []]) == Contents(m, lists)[h := []]
  {
    EmptyFits(m');
    hide AllFit;
    assert Items(m', []) == [];
  }

  /** Every block still belongs to a live list. */
  lemma BlocksNew(m: seq<nat>, lists: map<nat, seq<nat>>, owner: map<nat, Owner>, h: nat, s: nat)
    requires AllLists(m, lists, owner) && h !in lists && h !in owner
    ensures AllUsed(lists[h := []], owner[h := Owner(h, s)])
  {
    hide ListIn;
  }

  lemma EmptyFits(m: seq<nat>)
    ensures AllFit(m, [])
  {
  }

  lemma EveryHeaderOwned(m: seq<nat>, lists: map<nat, seq<nat>>, owner: map<nat, Owner>)
    requires AllLists(m, lists, owner)
    ensures forall h :: h in lists ==> h in owner
  {
    hide ListRep;
    forall h | h in lists
      ensures h in owner
    {
      assert ListIn(m, owner, h, lists[h]);
    }
  }

  lemma SameBeside(m: seq<nat>, tags: map<nat, Tag>, owner: map<nat, Owner>, h: nat, s: nat)
    requires OwnWords(tags, owner[h := Owner(h, s)]) && h !in owner && Fits3(m, h)
    requires forall a :: a in tags ==> 0 < a < |m|
    ensures forall d :: d in owner ==> SameOn(m, HeaderCleared(m, h), d)
  {
    forall d | d in owner
      ensures SameOn(m, HeaderCleared(m, h), d)
    {
      OwnedApart(tags, owner[h := Owner(h, s)], d, h);
      assert ThreeWords(tags, owner[h := Owner(h, s)][d].s, d);
    }
  }

  lemma MoreOwners(m: seq<nat>, owner: map<nat, Owner>, owner': map<nat, Owner>, g: nat,
                   nodes: seq<nat>)
    requires ListIn(m, owner, g, nodes)
    requires forall d :: d in owner ==> d in owner' && owner'[d] == owner[d]
    ensures ListIn(m, owner', g, nodes)
  {
    hide ListRep;
  }
}
