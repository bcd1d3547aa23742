/**
 How the memory pools lie in the words of the heap buffer (the structures tPoolNode, tPool,
 tBlockList and tBlockNode and the block headers of source/tbx_mempool.c).

 A ghost map gives every word of these structures a tag with its role, its pool and, for
 data words, its block.  Words with different tags are different words, so a write through
 one pointer can only change fields with the same tag: this is what separates the lists of
 different pools, and the clients' data from the bookkeeping.
 */
module PoolMemory {
  import opened Target
  import opened PoolSpec
  import opened Sequences

  datatype Tag =
    | PoolNodePool(s: nat) | PoolNodeNext(s: nat)             // tPoolNode
    | PoolSize(s: nat) | PoolFree(s: nat) | PoolUsed(s: nat)  // tPool
    | FreeHead(s: nat) | UsedHead(s: nat)                     // the two tBlockList objects
    | NodeBlock(s: nat) | NodeNext(s: nat)                    // tBlockNode
    | Header(s: nat) | Data(s: nat, b: nat)                   // a block and its data words

  /** The addresses of one pool's structures, and the nodes of its two lists in order. */
  datatype Layout = Layout(
    node: nat, pool: nat, free: nat, used: nat, freeNodes: seq<nat>, usedNodes: seq<nat>)

  datatype View = View(
    order: seq<nat>,            // the block sizes in the order of the pool list
    layout: map<nat, Layout>,
    tags: map<nat, Tag>,
    pools: map<nat, Pool>)

  // ---------------------------------------------------------------- one pool

  ghost predicate At(tags: map<nat, Tag>, a: nat, t: Tag) {
    a in tags && tags[a] == t
  }

  ghost predicate Mapped(m: seq<nat>, tags: map<nat, Tag>) {
    forall a :: a in tags ==> 0 < a < |m|
  }

  ghost predicate Fields(m: seq<nat>, tags: map<nat, Tag>, s: nat, l: Layout)
    requires Mapped(m, tags)
  {
    && At(tags, l.node, PoolNodePool(s)) && At(tags, l.node + 1, PoolNodeNext(s))
    && At(tags, l.pool, PoolSize(s)) && At(tags, l.pool + 1, PoolFree(s))
    && At(tags, l.pool + 2, PoolUsed(s))
    && m[l.node] == l.pool
    && m[l.pool] == s && m[l.pool + 1] == l.free && m[l.pool + 2] == l.used
  }

  /** The list that starts at the given node consists of exactly these nodes in this order. */
  ghost predicate Chain(m: seq<nat>, tags: map<nat, Tag>, s: nat, head: nat, nodes: seq<nat>)
    requires Mapped(m, tags)
    decreases |nodes|
  {
    if nodes == [] then head == NULL
    else
      && head == nodes[0]
      && At(tags, head, NodeBlock(s)) && At(tags, head + 1, NodeNext(s))
      && Chain(m, tags, s, m[head + 1], nodes[1..])
  }

  /** Every block has its size in its header and owns its data words. */
  ghost predicate Blocks(m: seq<nat>, tags: map<nat, Tag>, s: nat, blocks: set<nat>)
    requires Mapped(m, tags)
  {
    forall b {:trigger b in blocks} :: b in blocks ==> At(tags, b, Header(s)) && m[b] == s && OwnsData(tags, s, b)
  }

  ghost predicate OwnsData(tags: map<nat, Tag>, s: nat, b: nat) {
    forall a :: b < a <= b + Words(s) ==> At(tags, a, Data(s, b))
  }

  /** The given nodes name the given blocks. */
  ghost predicate Named(m: seq<nat>, nodes: seq<nat>, blocks: seq<nat>) {
    && |nodes| == |blocks|
    && (nodes != [] ==>
          && nodes[0] < |m| && m[nodes[0]] == blocks[0]
          && Named(m, nodes[1..], blocks[1..]))
  }

  /**
   The two lists of a pool.  The free nodes name the free blocks.  The used nodes are as many
   as there are held blocks, but what they name says nothing: Release takes any one of them.
   */
  ghost predicate Lists(m: seq<nat>, tags: map<nat, Tag>, s: nat, l: Layout,
                        free: seq<nat>, held: nat)
    requires Mapped(m, tags)
  {
    && At(tags, l.free, FreeHead(s)) && At(tags, l.used, UsedHead(s))
    && Chain(m, tags, s, m[l.free], l.freeNodes) && Chain(m, tags, s, m[l.used], l.usedNodes)
    && Distinct(l.freeNodes) && Distinct(l.usedNodes)
    && (forall n :: n in l.freeNodes ==> n !in l.usedNodes)
    && Named(m, l.freeNodes, free)
    && |l.usedNodes| == held
  }

  ghost predicate PoolRep(m: seq<nat>, tags: map<nat, Tag>, s: nat, l: Layout, p: Pool)
    requires Mapped(m, tags)
  {
    Fields(m, tags, s, l) && Lists(m, tags, s, l, p.free, |p.held|) && Blocks(m, tags, s, p.blocks)
  }

  /** No bookkeeping word of the pool of size s changes, but for its link in the pool list. */
  ghost predicate Untouched(m: seq<nat>, m': seq<nat>, tags: map<nat, Tag>, s: nat)
    requires Mapped(m, tags) && |m'| == |m|
  {
    forall a | a in tags && tags[a].s == s && !tags[a].Data? && !tags[a].PoolNodeNext? ::
      m'[a] == m[a]
  }

  lemma {:induction false} ChainFrame(m: seq<nat>, m': seq<nat>, tags: map<nat, Tag>,
                                      tags': map<nat, Tag>, s: nat, head: nat, nodes: seq<nat>)
    requires Mapped(m, tags) && Mapped(m', tags') && |m'| == |m|
    requires forall a :: a in tags ==> a in tags' && tags'[a] == tags[a]
    requires forall n :: n in nodes && n + 1 in tags ==> m'[n + 1] == m[n + 1]
    requires Chain(m, tags, s, head, nodes)
    ensures Chain(m', tags', s, head, nodes)
    decreases |nodes|
  {
    if nodes != [] {
      assert head in nodes;
      assert forall n :: n in nodes[1..] ==> n in nodes;
      ChainFrame(m, m', tags, tags', s, m[head + 1], nodes[1..]);
    }
  }

  lemma {:induction false} ChainNodes(m: seq<nat>, tags: map<nat, Tag>, s: nat, head: nat,
                                      nodes: seq<nat>)
    requires Mapped(m, tags) && Chain(m, tags, s, head, nodes)
    ensures forall n :: n in nodes
              ==> At(tags, n, NodeBlock(s)) && At(tags, n + 1, NodeNext(s))
    decreases |nodes|
  {
    if nodes != [] {
      ChainNodes(m, tags, s, m[head + 1], nodes[1..]);
    }
  }

  lemma {:induction false} NamedFrame(m: seq<nat>, m': seq<nat>, nodes: seq<nat>,
                                      blocks: seq<nat>)
    requires Named(m, nodes, blocks) && |m'| == |m|
    requires forall n :: n in nodes && n < |m| ==> m'[n] == m[n]
    ensures Named(m', nodes, blocks)
  {
    if nodes != [] {
      assert nodes[0] in nodes;
      assert forall n :: n in nodes[1..] ==> n in nodes;
      NamedFrame(m, m', nodes[1..], blocks[1..]);
    }
  }

  lemma BlocksFrame(m: seq<nat>, m': seq<nat>, tags: map<nat, Tag>, tags': map<nat, Tag>,
                    s: nat, blocks: set<nat>)
    requires Mapped(m, tags) && Mapped(m', tags') && |m'| == |m|
    requires forall a :: a in tags ==> a in tags' && tags'[a] == tags[a]
    requires forall a :: a in tags && tags[a] == Header(s) ==> m'[a] == m[a]
    requires Blocks(m, tags, s, blocks)
    ensures Blocks(m', tags', s, blocks)
  {
    forall b | b in blocks
      ensures OwnsData(tags', s, b)
    {
      assert OwnsData(tags, s, b);
      forall a | b < a <= b + Words(s)
        ensures At(tags', a, Data(s, b))
      {
        assert At(tags, a, Data(s, b));
      }
    }
  }

  lemma ListsFrame(m: seq<nat>, m': seq<nat>, tags: map<nat, Tag>, tags': map<nat, Tag>,
                   s: nat, l: Layout, free: seq<nat>, held: nat)
    requires Mapped(m, tags) && Mapped(m', tags') && |m'| == |m|
    requires forall a :: a in tags ==> a in tags' && tags'[a] == tags[a]
    requires Untouched(m, m', tags, s)
    requires Lists(m, tags, s, l, free, held)
    ensures Lists(m', tags', s, l, free, held)
  {
    ChainNodes(m, tags, s, m[l.free], l.freeNodes);
    ChainNodes(m, tags, s, m[l.used], l.usedNodes);
    ChainFrame(m, m', tags, tags', s, m[l.free], l.freeNodes);
    ChainFrame(m, m', tags, tags', s, m[l.used], l.usedNodes);
    NamedFrame(m, m', l.freeNodes, free);
  }

  lemma PoolRepFrame(m: seq<nat>, m': seq<nat>, tags: map<nat, Tag>, tags': map<nat, Tag>,
                     s: nat, l: Layout, p: Pool)
    requires Mapped(m, tags) && Mapped(m', tags') && |m'| == |m|
    requires forall a :: a in tags ==> a in tags' && tags'[a] == tags[a]
    requires Untouched(m, m', tags, s)
    requires PoolRep(m, tags, s, l, p)
    ensures PoolRep(m', tags', s, l, p)
  {
    ListsFrame(m, m', tags, tags', s, l, p.free, |p.held|);
    BlocksFrame(m, m', tags, tags', s, p.blocks);
  }

  // ---------------------------------------------------------------- block lists

  /** Memory after TbxMemPoolBlockListInsert and TbxMemPoolBlockListExtract. */
  function Inserted(m: seq<nat>, list: nat, node: nat): seq<nat>
    requires list < |m| && node + 1 < |m|
  {
    m[node + 1 := m[list]][list := node]
  }

  function Extracted(m: seq<nat>, list: nat): seq<nat>
    requires list < |m| && m[list] + 1 < |m|
  {
    m[list := m[m[list] + 1]]
  }

  /** The memory in which the first free node has moved to the used list. */
  ghost predicate Taken(m: seq<nat>, m': seq<nat>, free: nat, used: nat) {
    && |m'| == |m| && free < |m| && used < |m| && m[free] + 1 < |m|
    && var node := m[free];
    && m'[free] == m[node + 1]
    && m'[node + 1] == m[used] && m'[used] == node
    && forall a | 0 <= a < |m| && a != used && a != free && a != node + 1 :: m'[a] == m[a]
  }

  lemma FreeNode(m: seq<nat>, tags: map<nat, Tag>, s: nat, l: Layout, free: seq<nat>, held: nat)
    requires Mapped(m, tags) && Lists(m, tags, s, l, free, held)
    ensures m[l.free] == NULL <==> free == []
    ensures free != [] ==>
      && l.freeNodes != [] && m[l.free] == l.freeNodes[0]
      && At(tags, m[l.free], NodeBlock(s)) && At(tags, m[l.free] + 1, NodeNext(s))
      && m[m[l.free]] == free[0]
  {
  }

  /** Moving the first free node to the used list takes the block that it names. */
  lemma TakeNode(m: seq<nat>, m': seq<nat>, tags: map<nat, Tag>, s: nat, l: Layout,
                 free: seq<nat>, held: nat)
    requires Mapped(m, tags) && Lists(m, tags, s, l, free, held) && free != []
    requires Taken(m, m', l.free, l.used)
    ensures l.freeNodes != []
    ensures Lists(m', tags, s,
                  l.(freeNodes := l.freeNodes[1..], usedNodes := [m[l.free]] + l.usedNodes),
                  free[1..], held + 1)
  {
    var node, rest := m[l.free], l.freeNodes[1..];
    ChainNodes(m, tags, s, m[l.free], l.freeNodes);
    ChainNodes(m, tags, s, m[l.used], l.usedNodes);
    FirstIsNew(l.freeNodes);
    DistinctPrepended(node, l.usedNodes);
    hide Distinct;
    assert forall n :: n in rest ==> n in l.freeNodes && n != node;
    ChainFrame(m, m', tags, tags, s, m[node + 1], rest);
    ChainFrame(m, m', tags, tags, s, m[l.used], l.usedNodes);
    NamedFrame(m, m', rest, free[1..]);
    assert ([node] + l.usedNodes)[1..] == l.usedNodes;
  }

  /** Moving the first free node hands out the block that it names. */
  lemma TakeBlock(m: seq<nat>, m': seq<nat>, tags: map<nat, Tag>, s: nat, l: Layout, p: Pool)
    requires Mapped(m, tags) && PoolRep(m, tags, s, l, p)
    requires p.free != [] && p.free[0] !in p.held && p.free[0] in p.blocks
    requires Taken(m, m', l.free, l.used)
    ensures l.freeNodes != []
    ensures PoolRep(m', tags, s,
                    l.(freeNodes := l.freeNodes[1..], usedNodes := [m[l.free]] + l.usedNodes),
                    Pool(p.free[1..], p.held + {p.free[0]}, p.blocks))
    ensures OwnsData(tags, s, p.free[0])
    ensures forall a | a in tags && m'[a] != m[a] ::
              tags[a].s == s && !tags[a].PoolNodeNext? && !tags[a].Data?
  {
    hide Chain, Named, Distinct;
    FreeNode(m, tags, s, l, p.free, |p.held|);
    TakeNode(m, m', tags, s, l, p.free, |p.held|);
    BlocksFrame(m, m', tags, tags, s, p.blocks);
  }

  /** The memory in which the first used node, renamed to b, has moved to the free list. */
  ghost predicate Given(m: seq<nat>, m': seq<nat>, free: nat, used: nat, b: nat) {
    && |m'| == |m| && free < |m| && used < |m| && m[used] + 1 < |m|
    && var node := m[used];
    && m'[used] == m[node + 1] && m'[node] == b
    && m'[node + 1] == m[free] && m'[free] == node
    && forall a | 0 <= a < |m| && a != used && a != free && a != node && a != node + 1 ::
         m'[a] == m[a]
  }

  lemma UsedNode(m: seq<nat>, tags: map<nat, Tag>, s: nat, l: Layout, free: seq<nat>, held: nat)
    requires Mapped(m, tags) && Lists(m, tags, s, l, free, held) && held > 0
    ensures l.usedNodes != [] && m[l.used] == l.usedNodes[0] && m[l.used] != NULL
    ensures At(tags, m[l.used], NodeBlock(s)) && At(tags, m[l.used] + 1, NodeNext(s))
  {
  }

  /** Moving any used node back, renamed to the given block, adds that block. */
  lemma GiveNode(m: seq<nat>, m': seq<nat>, tags: map<nat, Tag>, s: nat, l: Layout,
                 free: seq<nat>, held: nat, b: nat)
    requires Mapped(m, tags) && Lists(m, tags, s, l, free, held) && held > 0
    requires Given(m, m', l.free, l.used, b)
    ensures l.usedNodes != [] && m[l.used] == l.usedNodes[0]
    ensures Lists(m', tags, s,
                  l.(freeNodes := [m[l.used]] + l.freeNodes, usedNodes := l.usedNodes[1..]),
                  [b] + free, held - 1)
  {
    var node, rest := m[l.used], l.usedNodes[1..];
    ChainNodes(m, tags, s, m[l.free], l.freeNodes);
    ChainNodes(m, tags, s, m[l.used], l.usedNodes);
    FirstIsNew(l.usedNodes);
    DistinctPrepended(node, l.freeNodes);
    hide Distinct;
    assert forall n :: n in rest ==> n in l.usedNodes && n != node;
    ChainFrame(m, m', tags, tags, s, m[l.free], l.freeNodes);
    ChainFrame(m, m', tags, tags, s, m[node + 1], rest);
    NamedFrame(m, m', l.freeNodes, free);
    assert ([node] + l.freeNodes)[1..] == l.freeNodes && ([b] + free)[1..] == free;
  }

  // ---------------------------------------------------------------- all pools

  /** The pool list from the given node on consists of the pools of these sizes in this order. */
  ghost predicate PoolChain(m: seq<nat>, tags: map<nat, Tag>, layout: map<nat, Layout>,
                            head: nat, order: seq<nat>)
    requires Mapped(m, tags)
    decreases |order|
  {
    if order == [] then head == NULL
    else
      && order[0] in layout && head == layout[order[0]].node
      && At(tags, head, PoolNodePool(order[0])) && At(tags, head + 1, PoolNodeNext(order[0]))
      && PoolChain(m, tags, layout, m[head + 1], order[1..])
  }

  predicate Ascending(order: seq<nat>) {
    |order| <= 1 || (order[0] < order[1] && Ascending(order[1..]))
  }

  /** The sequence with one more number at the given place. */
  function InsertAt(order: seq<nat>, i: nat, s: nat): seq<nat>
    requires i <= |order|
  {
    if i == 0 then [s] + order else [order[0]] + InsertAt(order[1..], i - 1, s)
  }

  lemma {:induction false} AscendingPairwise(order: seq<nat>, i: nat, j: nat)
    requires Ascending(order) && i < j < |order|
    ensures order[i] < order[j]
  {
    if i > 0 {
      AscendingPairwise(order[1..], i - 1, j - 1);
    } else if j > 1 {
      AscendingPairwise(order[1..], 0, j - 1);
    }
  }

  /** The pool list and the words in use. */
  ghost predicate Shape(m: seq<nat>, head: nat, top: nat, tags: map<nat, Tag>,
                        layout: map<nat, Layout>, order: seq<nat>)
  {
    && top <= |m| && (forall a :: a in tags ==> 0 < a < top)
    && Ascending(order)
    && (forall s :: s in order <==> s in layout)
    && PoolChain(m, tags, layout, head, order)
  }

  ghost predicate AllPools(m: seq<nat>, tags: map<nat, Tag>, layout: map<nat, Layout>,
                           pools: map<nat, Pool>)
    requires Mapped(m, tags)
  {
    && (forall s :: s in layout <==> s in pools)
    && forall s {:trigger pools[s]} | s in pools :: PoolRep(m, tags, s, layout[s], pools[s])
  }

  /** What a walk along the pool list needs to read the block size of every pool. */
  ghost predicate Sizes(m: seq<nat>, layout: map<nat, Layout>) {
    forall s {:trigger layout[s]} | s in layout ::
      && 0 < layout[s].node < |m| - 1
      && 0 < m[layout[s].node] < |m| - 1 && m[m[layout[s].node]] == s
      && m[m[layout[s].node] + 1] == layout[s].free && 0 < layout[s].free < |m|
  }

  lemma AllPoolsSizes(m: seq<nat>, tags: map<nat, Tag>, layout: map<nat, Layout>,
                      pools: map<nat, Pool>)
    requires Mapped(m, tags) && AllPools(m, tags, layout, pools)
    ensures Sizes(m, layout)
  {
    forall s | s in layout
      ensures && 0 < layout[s].node < |m| - 1
              && 0 < m[layout[s].node] < |m| - 1 && m[m[layout[s].node]] == s
              && m[m[layout[s].node] + 1] == layout[s].free && 0 < layout[s].free < |m|
    {
      assert s in pools && PoolRep(m, tags, s, layout[s], pools[s]);
    }
  }

  ghost predicate Rep(m: seq<nat>, head: nat, top: nat, v: View) {
    && Shape(m, head, top, v.tags, v.layout, v.order)
    && AllPools(m, v.tags, v.layout, v.pools)
  }

  lemma {:induction false} PoolChainFrame(m: seq<nat>, m': seq<nat>, tags: map<nat, Tag>,
                                          tags': map<nat, Tag>, layout: map<nat, Layout>,
                                          layout': map<nat, Layout>, head: nat, order: seq<nat>)
    requires Mapped(m, tags) && Mapped(m', tags') && |m'| == |m|
    requires forall a :: a in tags ==> a in tags' && tags'[a] == tags[a]
    requires forall s | s in order :: s in layout ==> s in layout' && layout'[s].node == layout[s].node
    requires forall a | a in tags && tags[a].PoolNodeNext? && tags[a].s in order :: m'[a] == m[a]
    requires PoolChain(m, tags, layout, head, order)
    ensures PoolChain(m', tags', layout', head, order)
    decreases |order|
  {
    if order != [] {
      assert order[0] in order;
      assert forall s :: s in order[1..] ==> s in order;
      PoolChainFrame(m, m', tags, tags', layout, layout', m[head + 1], order[1..]);
    }
  }

  /** A change inside the bookkeeping of one pool leaves the others as they are. */
  lemma AllPoolsSet(m: seq<nat>, m': seq<nat>, tags: map<nat, Tag>, layout: map<nat, Layout>,
                    pools: map<nat, Pool>, s: nat, l: Layout, p: Pool)
    requires Mapped(m, tags) && |m'| == |m|
    requires AllPools(m, tags, layout, pools)
    requires forall a | a in tags && m'[a] != m[a] :: tags[a].s == s
    requires PoolRep(m', tags, s, l, p)
    ensures AllPools(m', tags, layout[s := l], pools[s := p])
  {
    var layout', pools' := layout[s := l], pools[s := p];
    forall t | t in pools'
      ensures PoolRep(m', tags, t, layout'[t], pools'[t])
    {
      if t != s {
        assert layout'[t] == layout[t] && pools'[t] == pools[t];
        PoolRepFrame(m, m', tags, tags, t, layout[t], pools[t]);
      }
    }
  }

  lemma ShapeKept(m: seq<nat>, m': seq<nat>, head: nat, top: nat, tags: map<nat, Tag>,
                  layout: map<nat, Layout>, order: seq<nat>, s: nat, l: Layout)
    requires Shape(m, head, top, tags, layout, order) && |m'| == |m|
    requires forall a | a in tags && tags[a].PoolNodeNext? :: m'[a] == m[a]
    requires s in layout && l.node == layout[s].node
    ensures Shape(m', head, top, tags, layout[s := l], order)
  {
    PoolChainFrame(m, m', tags, tags, layout, layout[s := l], head, order);
  }

  /** One pool changes, inside its own bookkeeping words; the others and all data stay. */
  lemma RepSetPool(m: seq<nat>, m': seq<nat>, head: nat, top: nat, v: View, s: nat,
                   l: Layout, p: Pool)
    requires Rep(m, head, top, v) && |m'| == |m|
    requires s in v.pools && l.node == v.layout[s].node
    requires forall a | a in v.tags && m'[a] != m[a] ::
               v.tags[a].s == s && !v.tags[a].PoolNodeNext?
    requires PoolRep(m', v.tags, s, l, p)
    ensures Rep(m', head, top, v.(layout := v.layout[s := l], pools := v.pools[s := p]))
  {
    ShapeKept(m, m', head, top, v.tags, v.layout, v.order, s, l);
    AllPoolsSet(m, m', v.tags, v.layout, v.pools, s, l, p);
  }

  /** Words that no structure uses may change, and new ones may join from above. */
  lemma RepGrow(m: seq<nat>, m': seq<nat>, head: nat, top: nat, top': nat, v: View,
                tags': map<nat, Tag>)
    requires Rep(m, head, top, v) && |m'| == |m|
    requires 0 < top <= top' <= |m|
    requires forall a :: a in v.tags ==> a in tags' && tags'[a] == v.tags[a]
    requires forall a | a in v.tags && !v.tags[a].Data? :: m'[a] == m[a]
    requires forall a :: a in tags' && a !in v.tags ==> top <= a < top'
    ensures Rep(m', head, top', v.(tags := tags'))
  {
    PoolChainFrame(m, m', v.tags, tags', v.layout, v.layout, head, v.order);
    forall t | t in v.pools
      ensures PoolRep(m', tags', t, v.layout[t], v.pools[t])
    {
      PoolRepFrame(m, m', v.tags, tags', t, v.layout[t], v.pools[t]);
    }
  }

  /**
   Whatever is written into data words, and into words that no structure uses, all headers,
   nodes and pool records stay intact.
   */
  lemma RepDataWritten(m: seq<nat>, m': seq<nat>, head: nat, top: nat, v: View)
    requires Rep(m, head, top, v) && 0 < top && |m'| == |m|
    requires forall a | a in v.tags && !v.tags[a].Data? :: m'[a] == m[a]
    ensures Rep(m', head, top, v)
  {
    hide PoolRep, PoolChain, Ascending;
    RepGrow(m, m', head, top, top, v, v.tags);
    assert v.(tags := v.tags) == v;
  }

  // ---------------------------------------------------------------- new blocks and pools

  /** The memory in which a new node, naming a new block, heads the free list. */
  ghost predicate BlockAdded(m: seq<nat>, m': seq<nat>, s: nat, free: nat, node: nat, b: nat) {
    && |m'| == |m| && free < |m| && node + 1 < |m| && b < |m|
    && m'[b] == s && m'[node] == b && m'[node + 1] == m[free] && m'[free] == node
    && forall a | 0 <= a < |m| && a != b && a != node && a != node + 1 && a != free ::
         m'[a] == m[a]
  }

  lemma BlockAddedBy(m: seq<nat>, s: nat, free: nat, node: nat, b: nat)
    requires free < node && node + 1 < b < |m|
    ensures BlockAdded(m, Inserted(m[b := s][node := b][node + 1 := NULL], free, node),
                       s, free, node, b)
  {
  }

  lemma ListsAddNode(m: seq<nat>, m': seq<nat>, tags: map<nat, Tag>, s: nat, l: Layout,
                     free: seq<nat>, held: nat, node: nat, b: nat)
    requires Mapped(m, tags) && Lists(m, tags, s, l, free, held)
    requires BlockAdded(m, m', s, l.free, node, b)
    requires At(tags, node, NodeBlock(s)) && At(tags, node + 1, NodeNext(s))
    requires At(tags, b, Header(s))
    requires node !in l.freeNodes && node !in l.usedNodes
    ensures Lists(m', tags, s, l.(freeNodes := [node] + l.freeNodes), [b] + free, held)
  {
    ChainNodes(m, tags, s, m[l.free], l.freeNodes);
    ChainNodes(m, tags, s, m[l.used], l.usedNodes);
    ChainFrame(m, m', tags, tags, s, m[l.free], l.freeNodes);
    ChainFrame(m, m', tags, tags, s, m[l.used], l.usedNodes);
    NamedFrame(m, m', l.freeNodes, free);
    assert ([node] + l.freeNodes)[1..] == l.freeNodes && ([b] + free)[1..] == free;
  }

  lemma PoolRepAddBlock(m: seq<nat>, m': seq<nat>, tags: map<nat, Tag>, s: nat, l: Layout,
                        p: Pool, node: nat, b: nat)
    requires Mapped(m, tags) && PoolRep(m, tags, s, l, p)
    requires BlockAdded(m, m', s, l.free, node, b)
    requires At(tags, node, NodeBlock(s)) && At(tags, node + 1, NodeNext(s))
    requires At(tags, b, Header(s)) && OwnsData(tags, s, b)
    requires node !in l.freeNodes && node !in l.usedNodes
    ensures PoolRep(m', tags, s, l.(freeNodes := [node] + l.freeNodes),
                    Pool([b] + p.free, p.held, p.blocks + {b}))
  {
    hide Chain, Named, Distinct, OwnsData;
    ListsAddNode(m, m', tags, s, l, p.free, |p.held|, node, b);
    BlocksAdd(m, m', tags, s, p.blocks, b);
  }

  lemma BlocksAdd(m: seq<nat>, m': seq<nat>, tags: map<nat, Tag>, s: nat, blocks: set<nat>, b: nat)
    requires Mapped(m, tags) && |m'| == |m| && Blocks(m, tags, s, blocks)
    requires forall a | a in tags && tags[a] == Header(s) && a != b :: m'[a] == m[a]
    requires At(tags, b, Header(s)) && m'[b] == s && OwnsData(tags, s, b)
    ensures Blocks(m', tags, s, blocks + {b})
  {
  }

  /** A new pool, empty still. */
  ghost predicate EmptyPool(m: seq<nat>, s: nat, l: Layout) {
    && l.node + 1 < |m| && l.pool + 2 < |m| && l.free < |m| && l.used < |m|
    && m[l.node] == l.pool
    && m[l.pool] == s && m[l.pool + 1] == l.free && m[l.pool + 2] == l.used
    && m[l.free] == NULL && m[l.used] == NULL
    && l.freeNodes == [] && l.usedNodes == []
  }

  function PoolTags(s: nat, l: Layout): map<nat, Tag> {
    map[l.node := PoolNodePool(s), l.node + 1 := PoolNodeNext(s),
        l.pool := PoolSize(s), l.pool + 1 := PoolFree(s), l.pool + 2 := PoolUsed(s),
        l.free := FreeHead(s), l.used := UsedHead(s)]
  }

  lemma AllPoolsAdd(m: seq<nat>, m': seq<nat>, tags: map<nat, Tag>, layout: map<nat, Layout>,
                    pools: map<nat, Pool>, s: nat, l: Layout)
    requires Mapped(m, tags) && |m'| == |m|
    requires AllPools(m, tags, layout, pools) && s !in pools
    requires forall a | a in tags && m'[a] != m[a] :: tags[a].PoolNodeNext?
    requires PoolRep(m', tags, s, l, Pool([], {}, {}))
    ensures AllPools(m', tags, layout[s := l], pools[s := Pool([], {}, {})])
  {
    var layout', pools' := layout[s := l], pools[s := Pool([], {}, {})];
    forall t | t in pools'
      ensures PoolRep(m', tags, t, layout'[t], pools'[t])
    {
      if t != s {
        assert layout'[t] == layout[t] && pools'[t] == pools[t];
        PoolRepFrame(m, m', tags, tags, t, layout[t], pools[t]);
      }
    }
  }

  /**
   Linking a new node in behind the i-th one keeps the chain, with the new size inserted.
   */
  lemma {:induction false} PoolChainInserted(m: seq<nat>, m': seq<nat>, tags: map<nat, Tag>,
                                             layout: map<nat, Layout>, head: nat, order: seq<nat>,
                                             i: nat, s: nat)
    requires Mapped(m, tags) && |m'| == |m|
    requires PoolChain(m, tags, layout, head, order) && Ascending(order)
    requires 0 < i <= |order| && order[i - 1] in layout
    requires s in layout && s !in order
    requires At(tags, layout[s].node, PoolNodePool(s)) && At(tags, layout[s].node + 1, PoolNodeNext(s))
    requires At(tags, layout[order[i - 1]].node + 1, PoolNodeNext(order[i - 1]))
    requires m'[layout[order[i - 1]].node + 1] == layout[s].node
    requires m'[layout[s].node + 1] == m[layout[order[i - 1]].node + 1]
    requires forall a | a in tags && tags[a].PoolNodeNext? && tags[a].s in order
                        && tags[a].s != order[i - 1] :: m'[a] == m[a]
    ensures PoolChain(m', tags, layout, head, InsertAt(order, i, s))
    decreases |order|
  {
    var rest := order[1..];
    forall t | t in rest
      ensures t in order && t != order[0]
    {
      var j :| 0 <= j < |rest| && rest[j] == t;
      AscendingPairwise(order, 0, j + 1);
    }
    assert InsertAt(order, i, s)[1..] == InsertAt(rest, i - 1, s);
    if i == 1 {
      PoolChainFrame(m, m', tags, tags, layout, layout, m[head + 1], rest);
      assert InsertAt(rest, 0, s)[1..] == rest;
    } else {
      assert rest[i - 2] == order[i - 1];
      PoolChainInserted(m, m', tags, layout, m[head + 1], rest, i - 1, s);
      AscendingPairwise(order, 0, i - 1);
      assert order[0] in order;
      assert m'[head + 1] == m[head + 1];
      assert PoolChain(m', tags, layout, m'[head + 1], InsertAt(order, i, s)[1..]);
    }
  }

  /** The memory after linking a node in: as the new head, or behind the given node. */
  ghost predicate Linked(m: seq<nat>, m': seq<nat>, head: nat, head': nat, node: nat, prev: nat)
    requires node + 1 < |m| && prev + 1 < |m|
  {
    if prev == NULL then head' == node && m' == m[node + 1 := head]
    else head' == head && m' == m[node + 1 := m[prev + 1]][prev + 1 := node]
  }

  /** Every size in the list leads to a node with its tags. */
  lemma {:induction false} PoolChainTags(m: seq<nat>, tags: map<nat, Tag>, layout: map<nat, Layout>,
                                         head: nat, order: seq<nat>, i: nat)
    requires Mapped(m, tags) && PoolChain(m, tags, layout, head, order)
    requires i < |order|
    ensures order[i] in layout
    ensures At(tags, layout[order[i]].node, PoolNodePool(order[i]))
    ensures At(tags, layout[order[i]].node + 1, PoolNodeNext(order[i]))
    decreases |order|
  {
    if i > 0 {
      PoolChainTags(m, tags, layout, m[head + 1], order[1..], i - 1);
    }
  }

  lemma {:induction false} OrderInserted(order: seq<nat>, i: nat, s: nat)
    requires Ascending(order) && i <= |order|
    requires i > 0 ==> order[i - 1] < s
    requires i < |order| ==> s < order[i]
    ensures Ascending(InsertAt(order, i, s))
    ensures forall t :: t in InsertAt(order, i, s) <==> t == s || t in order
  {
    if i == 0 {
      assert ([s] + order)[1..] == order;
    } else {
      var rest := InsertAt(order[1..], i - 1, s);
      OrderInserted(order[1..], i - 1, s);
      assert ([order[0]] + rest)[1..] == rest;
      assert rest[0] == if i == 1 then s else order[1];
      assert order == [order[0]] + order[1..];
    }
  }

  lemma LinkedChanges(m: seq<nat>, m': seq<nat>, tags: map<nat, Tag>, head: nat, head': nat,
                      node: nat, prev: nat)
    requires node + 1 < |m| && prev + 1 < |m| && Linked(m, m', head, head', node, prev)
    requires node + 1 in tags && tags[node + 1].PoolNodeNext?
    requires prev != NULL ==> prev + 1 in tags && tags[prev + 1].PoolNodeNext?
    ensures |m'| == |m|
    ensures forall a | a in tags && a < |m| && m'[a] != m[a] :: tags[a].PoolNodeNext?
  {
  }

  /** A walk along the pool list starts at its head. */
  lemma WalkStart(m: seq<nat>, head: nat, top: nat, tags: map<nat, Tag>,
                  layout: map<nat, Layout>, order: seq<nat>)
    requires Shape(m, head, top, tags, layout, order)
    ensures PoolChain(m, tags, layout, head, order[0..])
    ensures head == NULL <==> |order| == 0
    ensures forall s :: s in order <==> s in layout
  {
    hide Ascending;
    assert order[0..] == order;
  }

  /** The first pool that fits is the smallest one. */
  lemma FirstIsBestFit(m: seq<nat>, head: nat, top: nat, tags: map<nat, Tag>,
                       layout: map<nat, Layout>, order: seq<nat>, i: nat, size: nat)
    requires Shape(m, head, top, tags, layout, order)
    requires i < |order| && size <= order[i]
    requires forall j | 0 <= j < i :: order[j] < size
    ensures IsBestFit(layout.Keys, size, order[i])
    ensures forall t | IsBestFit(layout.Keys, size, t) :: t == order[i]
  {
    hide PoolChain;
    assert order[i] in order;
    forall t | t in layout.Keys && size <= t
      ensures order[i] <= t
    {
      var j :| 0 <= j < |order| && order[j] == t;
      if i < j {
        AscendingPairwise(order, i, j);
      }
    }
  }

  /** One step of a walk along the pool list. */
  lemma WalkStep(m: seq<nat>, head: nat, top: nat, tags: map<nat, Tag>,
                 layout: map<nat, Layout>, order: seq<nat>, i: nat, node: nat)
    requires Shape(m, head, top, tags, layout, order) && Sizes(m, layout)
    requires i <= |order| && PoolChain(m, tags, layout, node, order[i..])
    ensures node == NULL <==> i == |order|
    ensures i < |order| ==>
      && order[i] in layout && node == layout[order[i]].node
      && 0 < node < |m| - 1 && 0 < m[node] < |m| - 1 && m[m[node]] == order[i]
      && m[m[node] + 1] == layout[order[i]].free < |m|
      && PoolChain(m, tags, layout, m[node + 1], order[i + 1..])
      && (m[node + 1] == NULL <==> i + 1 == |order|)
      && (i > 0 ==> node != head)
  {
    if i < |order| {
      assert order[i..][1..] == order[i + 1..];
      if i > 0 {
        AscendingPairwise(order, 0, i);
      }
    }
  }

  /** A walk that keeps the node before the current one has only passed smaller pools. */
  ghost predicate WalkedTo(m: seq<nat>, head: nat, layout: map<nat, Layout>, order: seq<nat>,
                           s: nat, i: nat, prev: nat, current: nat)
  {
    if i == 0 then prev == NULL && current == head
    else
      && i <= |order| && order[i - 1] in layout && order[i - 1] < s
      && prev == layout[order[i - 1]].node
      && 0 < prev < |m| - 1 && m[prev + 1] == current != head
  }

  lemma WalkOn(m: seq<nat>, head: nat, top: nat, tags: map<nat, Tag>, layout: map<nat, Layout>,
               order: seq<nat>, s: nat, i: nat, current: nat)
    requires Shape(m, head, top, tags, layout, order) && Sizes(m, layout)
    requires i + 1 < |order| && PoolChain(m, tags, layout, current, order[i..])
    requires order[i] < s
    ensures current + 1 < |m|
    ensures WalkedTo(m, head, layout, order, s, i + 1, current, m[current + 1])
    ensures PoolChain(m, tags, layout, m[current + 1], order[i + 1..]) && m[current + 1] != NULL
  {
    hide Shape, Sizes, PoolChain;
    WalkStep(m, head, top, tags, layout, order, i, current);
    WalkStep(m, head, top, tags, layout, order, i + 1, m[current + 1]);
  }

  /** Linking a new pool in at its place keeps the pool list a list. */
  lemma ChainLinked(m: seq<nat>, m': seq<nat>, head: nat, head': nat, tags: map<nat, Tag>,
                    layout: map<nat, Layout>, order: seq<nat>, i: nat, s: nat)
    requires Mapped(m, tags) && PoolChain(m, tags, layout, head, order) && Ascending(order)
    requires s in layout && s !in order && i <= |order|
    requires At(tags, layout[s].node, PoolNodePool(s)) && At(tags, layout[s].node + 1, PoolNodeNext(s))
    requires i > 0 ==> order[i - 1] in layout
    requires var prev := if i == 0 then NULL else layout[order[i - 1]].node;
      prev + 1 < |m| && (i > 0 ==> prev != NULL) && Linked(m, m', head, head', layout[s].node, prev)
    ensures PoolChain(m', tags, layout, head', InsertAt(order, i, s))
  {
    if i == 0 {
      PoolChainFrame(m, m', tags, tags, layout, layout, head, order);
      assert InsertAt(order, i, s)[1..] == order;
    } else {
      PoolChainTags(m, tags, layout, head, order, i - 1);
      PoolChainInserted(m, m', tags, layout, head, order, i, s);
    }
  }

  /** Linking a new pool in at its place in the order keeps the pool list sorted. */
  lemma ShapeInserted(m: seq<nat>, m': seq<nat>, head: nat, head': nat, top: nat,
                      tags: map<nat, Tag>, layout: map<nat, Layout>, order: seq<nat>,
                      i: nat, s: nat, l: Layout)
    requires Shape(m, head, top, tags, layout, order) && s !in layout && i <= |order|
    requires At(tags, l.node, PoolNodePool(s)) && At(tags, l.node + 1, PoolNodeNext(s))
    requires i > 0 ==> order[i - 1] < s
    requires i < |order| ==> s < order[i]
    requires i > 0 ==> order[i - 1] in layout
    requires var prev := if i == 0 then NULL else layout[order[i - 1]].node;
      prev + 1 < |m| && (i > 0 ==> prev != NULL) && Linked(m, m', head, head', l.node, prev)
    ensures Shape(m', head', top, tags, layout[s := l], InsertAt(order, i, s))
    ensures forall a | a in tags && m'[a] != m[a] :: tags[a].PoolNodeNext?
  {
    hide PoolChain, Ascending, InsertAt, Linked;
    var layout' := layout[s := l];
    PoolChainFrame(m, m, tags, tags, layout, layout', head, order);
    if i > 0 {
      PoolChainTags(m, tags, layout, head, order, i - 1);
    }
    LinkedChanges(m, m', tags, head, head', l.node,
                  if i == 0 then NULL else layout[order[i - 1]].node);
    ChainLinked(m, m', head, head', tags, layout', order, i, s);
    OrderInserted(order, i, s);
  }

  // ---------------------------------------------------------------- taking and giving blocks

  /** No data word of a block changes; all structures stay where they are. */
  ghost predicate DataKept(m: seq<nat>, m': seq<nat>, tags: map<nat, Tag>, tags': map<nat, Tag>) {
    && |m'| == |m|
    && (forall a :: a in tags ==> a in tags' && tags'[a] == tags[a])
    && (forall a | a in tags && tags[a].Data? && a < |m| :: m'[a] == m[a])
  }

  function AfterTake(v: View, s: nat, node: nat): View
    requires s in v.pools && s in v.layout && v.pools[s].free != [] && v.layout[s].freeNodes != []
  {
    var l, p := v.layout[s], v.pools[s];
    v.(layout := v.layout[s := l.(freeNodes := l.freeNodes[1..], usedNodes := [node] + l.usedNodes)],
       pools := v.pools[s := Pool(p.free[1..], p.held + {p.free[0]}, p.blocks)])
  }

  lemma RepKeys(m: seq<nat>, head: nat, top: nat, v: View)
    requires Rep(m, head, top, v)
    ensures v.layout.Keys == v.pools.Keys && Mapped(m, v.tags)
    ensures Sizes(m, v.layout) && Shape(m, head, top, v.tags, v.layout, v.order)
  {
    hide PoolRep, PoolChain, Ascending, Sizes;
    AllPoolsSizes(m, v.tags, v.layout, v.pools);
    assert forall s :: s in v.layout.Keys <==> s in v.pools.Keys;
  }

  /** The addresses and the first nodes of a pool's two lists. */
  ghost predicate Cells(m: seq<nat>, l: Layout, p: Pool) {
    && l.node < |m| && m[l.node] == l.pool
    && 0 < l.pool < |m| - 2 && m[l.pool + 1] == l.free && m[l.pool + 2] == l.used
    && 0 < l.free < |m| && 0 < l.used < |m| && l.free != l.used
    && (m[l.free] == NULL <==> p.free == []) && |l.freeNodes| == |p.free|
    && (m[l.used] == NULL <==> p.held == {}) && |l.usedNodes| == |p.held|
    && (m[l.free] != NULL ==> ListNode(m, l, m[l.free]) && p.free != [] && m[m[l.free]] == p.free[0])
    && (m[l.used] != NULL ==> ListNode(m, l, m[l.used]))
  }

  ghost predicate ListNode(m: seq<nat>, l: Layout, node: nat) {
    && 0 < node < |m| - 1
    && node != l.free && node != l.used && node + 1 != l.free && node + 1 != l.used
  }

  lemma PoolCells(m: seq<nat>, tags: map<nat, Tag>, s: nat, l: Layout, p: Pool)
    requires Mapped(m, tags) && PoolRep(m, tags, s, l, p)
    ensures Cells(m, l, p)
  {
    hide Distinct, Blocks;
    FreeNode(m, tags, s, l, p.free, |p.held|);
    if |p.held| > 0 {
      UsedNode(m, tags, s, l, p.free, |p.held|);
    }
  }

  lemma RepCells(m: seq<nat>, head: nat, top: nat, v: View, s: nat)
    requires Rep(m, head, top, v) && s in v.pools
    ensures s in v.layout && Cells(m, v.layout[s], v.pools[s])
  {
    hide PoolRep, PoolChain, Ascending, Cells;
    PoolCells(m, v.tags, s, v.layout[s], v.pools[s]);
  }

  /** The way to the free list of a pool, all of it below the top. */
  lemma RepFreeCell(m: seq<nat>, head: nat, top: nat, v: View, s: nat)
    requires Rep(m, head, top, v) && s in v.pools
    ensures s in v.layout && 0 < top <= |m|
    ensures var l := v.layout[s];
      && 0 < l.node < top && m[l.node] == l.pool
      && l.pool + 1 < top && m[l.pool + 1] == l.free && 0 < l.free < top
  {
    hide PoolRep, PoolChain, Ascending;
    PoolFreeCell(m, v.tags, s, v.layout[s], v.pools[s]);
  }

  lemma PoolFreeCell(m: seq<nat>, tags: map<nat, Tag>, s: nat, l: Layout, p: Pool)
    requires Mapped(m, tags) && PoolRep(m, tags, s, l, p)
    ensures l.node in tags && l.pool + 1 in tags && l.free in tags
    ensures m[l.node] == l.pool && m[l.pool + 1] == l.free
  {
    hide Chain, Named, Distinct, Blocks;
  }

  /** Every block of a pool has the pool's size in its header and owns its data words. */
  lemma RepBlock(m: seq<nat>, head: nat, top: nat, v: View, s: nat, b: nat)
    requires Rep(m, head, top, v) && s in v.pools && b in v.pools[s].blocks
    ensures b < |m| && m[b] == s && At(v.tags, b, Header(s)) && OwnsData(v.tags, s, b)
  {
    hide Lists, Fields, PoolChain, Ascending, OwnsData;
    assert PoolRep(m, v.tags, s, v.layout[s], v.pools[s]);
  }

  lemma RepTake(m: seq<nat>, m': seq<nat>, head: nat, top: nat, v: View, s: nat)
    requires Rep(m, head, top, v) && s in v.pools && s in v.layout && Partitioned(v.pools[s])
    requires v.pools[s].free != [] && v.layout[s].freeNodes != []
    requires Taken(m, m', v.layout[s].free, v.layout[s].used)
    ensures Rep(m', head, top, AfterTake(v, s, m[v.layout[s].free]))
    ensures DataKept(m, m', v.tags, v.tags)
    ensures OwnsData(v.tags, s, v.pools[s].free[0])
  {
    hide PoolRep, PoolChain, Ascending, OwnsData;
    var l, p := v.layout[s], v.pools[s];
    assert p.free[0] in Elements(p.free);
    TakeBlock(m, m', v.tags, s, l, p);
    RepSetPool(m, m', head, top, v, s,
               l.(freeNodes := l.freeNodes[1..], usedNodes := [m[l.free]] + l.usedNodes),
               Pool(p.free[1..], p.held + {p.free[0]}, p.blocks));
  }

  /** A held block is a block of its pool, and its header says so. */
  lemma HeldBlock(m: seq<nat>, head: nat, top: nat, v: View, heap: nat, taken: nat, s: nat, b: nat)
    requires Rep(m, head, top, v) && Inv(heap, State(taken, v.pools))
    requires s in v.pools && b in v.pools[s].held
    ensures s in v.layout && b in v.pools[s].blocks && b < |m| && m[b] == s
    ensures At(v.tags, b, Header(s)) && OwnsData(v.tags, s, b)
  {
    hide Rep, OwnsData;
    InvPartitioned(heap, State(taken, v.pools), s);
    RepBlock(m, head, top, v, s, b);
    RepKeys(m, head, top, v);
  }

  lemma CellsRelease(m: seq<nat>, l: Layout, p: Pool, b: nat)
    requires Cells(m, l, p) && b in p.held
    ensures l.node < |m| && m[l.node] == l.pool && l.usedNodes != []
    ensures 0 < l.pool < |m| - 2 && m[l.pool + 1] == l.free && m[l.pool + 2] == l.used
    ensures 0 < l.free < |m| && 0 < l.used < |m| && l.free != l.used && ListNode(m, l, m[l.used])
  {
  }

  function AfterGive(v: View, s: nat, node: nat, b: nat): View
    requires s in v.pools && s in v.layout && v.layout[s].usedNodes != []
  {
    var l, p := v.layout[s], v.pools[s];
    v.(layout := v.layout[s := l.(freeNodes := [node] + l.freeNodes, usedNodes := l.usedNodes[1..])],
       pools := v.pools[s := Pool([b] + p.free, p.held - {b}, p.blocks)])
  }

  lemma RepGive(m: seq<nat>, m': seq<nat>, head: nat, top: nat, v: View, s: nat, b: nat)
    requires Rep(m, head, top, v) && s in v.pools && s in v.layout
    requires b in v.pools[s].held && v.layout[s].usedNodes != []
    requires Given(m, m', v.layout[s].free, v.layout[s].used, b)
    ensures Rep(m', head, top, AfterGive(v, s, m[v.layout[s].used], b))
    ensures DataKept(m, m', v.tags, v.tags)
  {
    hide PoolRep, PoolChain, Ascending;
    var l, p := v.layout[s], v.pools[s];
    GiveBlock(m, m', v.tags, s, l, p, b);
    RepSetPool(m, m', head, top, v, s,
               l.(freeNodes := [m[l.used]] + l.freeNodes, usedNodes := l.usedNodes[1..]),
               Pool([b] + p.free, p.held - {b}, p.blocks));
  }

  /** Moving any used node back, renamed to a held block, frees that block. */
  lemma GiveBlock(m: seq<nat>, m': seq<nat>, tags: map<nat, Tag>, s: nat, l: Layout, p: Pool, b: nat)
    requires Mapped(m, tags) && PoolRep(m, tags, s, l, p)
    requires b in p.held && l.usedNodes != []
    requires Given(m, m', l.free, l.used, b)
    ensures PoolRep(m', tags, s,
                    l.(freeNodes := [m[l.used]] + l.freeNodes, usedNodes := l.usedNodes[1..]),
                    Pool([b] + p.free, p.held - {b}, p.blocks))
    ensures forall a | a in tags && m'[a] != m[a] ::
              tags[a].s == s && !tags[a].PoolNodeNext? && !tags[a].Data?
  {
    hide Chain, Named, Distinct;
    assert |p.held| > 0;
    UsedNode(m, tags, s, l, p.free, |p.held|);
    GiveNode(m, m', tags, s, l, p.free, |p.held|, b);
    BlocksFrame(m, m', tags, tags, s, p.blocks);
  }

  // ---------------------------------------------------------------- growing

  /** The addresses of the n words behind the given one. */
  function WordsBehind(b: nat, n: nat): (r: set<nat>)
    ensures forall a :: a in r <==> b < a <= b + n
  {
    if n == 0 then {} else WordsBehind(b, n - 1) + {b + n}
  }

  /** The tags with those of a new node and a new block. */
  function TagsWithBlock(tags: map<nat, Tag>, s: nat, node: nat, b: nat): map<nat, Tag> {
    (tags + map a | a in WordsBehind(b, Words(s)) :: Data(s, b))
      [node := NodeBlock(s)][node + 1 := NodeNext(s)][b := Header(s)]
  }

  function AfterAddBlock(v: View, s: nat, node: nat, b: nat): View
    requires s in v.pools && s in v.layout
  {
    var l, p := v.layout[s], v.pools[s];
    v.(tags := TagsWithBlock(v.tags, s, node, b),
       layout := v.layout[s := l.(freeNodes := [node] + l.freeNodes)],
       pools := v.pools[s := Pool([b] + p.free, p.held, p.blocks + {b})])
  }

  lemma TagsWithBlockAbove(tags: map<nat, Tag>, s: nat, node: nat, b: nat, top: nat, top': nat)
    requires forall a :: a in tags ==> a < top
    requires top <= node && node + 1 < b && b + Words(s) < top'
    ensures var tags' := TagsWithBlock(tags, s, node, b);
      && (forall a :: a in tags ==> a in tags' && tags'[a] == tags[a])
      && (forall a :: a in tags' && a !in tags ==> top <= a < top')
      && At(tags', node, NodeBlock(s)) && At(tags', node + 1, NodeNext(s))
      && At(tags', b, Header(s)) && OwnsData(tags', s, b)
  {
  }

  /** A node and a block carved from above everything in use join the pool as free. */
  lemma RepAddBlock(m: seq<nat>, m': seq<nat>, head: nat, top: nat, top': nat, v: View, s: nat,
                    node: nat, b: nat)
    requires Rep(m, head, top, v) && s in v.pools && s in v.layout
    requires 0 < top <= node && node + 1 < b && b + Words(s) < top' <= |m|
    requires BlockAdded(m, m', s, v.layout[s].free, node, b)
    ensures Rep(m', head, top', AfterAddBlock(v, s, node, b))
    ensures DataKept(m, m', v.tags, TagsWithBlock(v.tags, s, node, b))
  {
    hide PoolRep, BlockAdded, Shape, AllPools, OwnsData, TagsWithBlock;
    var tags' := TagsWithBlock(v.tags, s, node, b);
    var l, p := v.layout[s], v.pools[s];
    PoolOfRep(m, head, top, v, s);
    TagsWithBlockAbove(v.tags, s, node, b, top, top');
    RepGrow(m, m, head, top, top', v, tags');
    PoolOfRep(m, head, top', v.(tags := tags'), s);
    PoolNodesBelow(m, v.tags, s, l, p, top);
    PoolRepAddBlock(m, m', tags', s, l, p, node, b);
    BlockAddedChanges(m, m', v.tags, tags', s, l, p, node, b);
    RepSetPool(m, m', head, top', v.(tags := tags'), s, l.(freeNodes := [node] + l.freeNodes),
               Pool([b] + p.free, p.held, p.blocks + {b}));
  }

  lemma PoolOfRep(m: seq<nat>, head: nat, top: nat, v: View, s: nat)
    requires Rep(m, head, top, v) && s in v.pools
    ensures Mapped(m, v.tags) && s in v.layout && PoolRep(m, v.tags, s, v.layout[s], v.pools[s])
    ensures forall a :: a in v.tags ==> a < top
  {
    hide PoolRep, PoolChain, Ascending;
  }

  lemma RepTop(m: seq<nat>, head: nat, top: nat, v: View)
    requires Rep(m, head, top, v)
    ensures top <= |m| && forall a :: a in v.tags ==> a < top
  {
    hide AllPools, PoolChain, Ascending;
  }

  lemma PoolNodesBelow(m: seq<nat>, tags: map<nat, Tag>, s: nat, l: Layout, p: Pool, top: nat)
    requires Mapped(m, tags) && PoolRep(m, tags, s, l, p)
    requires forall a :: a in tags ==> a < top
    ensures forall n | n in l.freeNodes || n in l.usedNodes :: n < top
  {
    hide Named, Distinct, Blocks;
    ChainNodes(m, tags, s, m[l.free], l.freeNodes);
    ChainNodes(m, tags, s, m[l.used], l.usedNodes);
  }

  lemma BlockAddedChanges(m: seq<nat>, m': seq<nat>, tags: map<nat, Tag>, tags': map<nat, Tag>,
                          s: nat, l: Layout, p: Pool, node: nat, b: nat)
    requires Mapped(m, tags') && PoolRep(m, tags', s, l, p)
    requires forall a :: a in tags ==> a in tags' && tags'[a] == tags[a]
    requires BlockAdded(m, m', s, l.free, node, b)
    requires At(tags', node, NodeBlock(s)) && At(tags', node + 1, NodeNext(s))
    requires At(tags', b, Header(s))
    ensures forall a | a in tags' && m'[a] != m[a] ::
              tags'[a].s == s && !tags'[a].PoolNodeNext? && !tags'[a].Data?
    ensures DataKept(m, m', tags, tags')
  {
    hide Chain, Named, Distinct, Blocks;
  }

  /** More of the heap is taken; what lies above the old top may have been written. */
  lemma RepLeak(m: seq<nat>, m': seq<nat>, head: nat, top: nat, top': nat, v: View)
    requires Rep(m, head, top, v) && 0 < top <= top' <= |m| && |m'| == |m|
    requires forall a | 0 <= a < top :: m'[a] == m[a]
    ensures Rep(m', head, top', v) && DataKept(m, m', v.tags, v.tags)
  {
    hide PoolRep, PoolChain, Ascending;
    RepGrow(m, m', head, top, top', v, v.tags);
    assert v.(tags := v.tags) == v;
  }

  lemma TagsWithPoolAbove(tags: map<nat, Tag>, s: nat, l: Layout, top: nat, top': nat)
    requires forall a :: a in tags ==> a < top
    requires l == Layout(top, top + 2, top + 5, top + 6, [], []) && top' == top + 7
    ensures var tags' := tags + PoolTags(s, l);
      && (forall a :: a in tags ==> a in tags' && tags'[a] == tags[a])
      && (forall a :: a in tags' && a !in tags ==> top <= a < top')
      && (forall a :: a in PoolTags(s, l) ==> At(tags', a, PoolTags(s, l)[a]))
  {
  }

  /** Room for a new pool above everything in use, all tagged but not linked in yet. */
  lemma RepRoomForPool(m: seq<nat>, m': seq<nat>, head: nat, top: nat, top': nat, v: View,
                       s: nat, l: Layout)
    requires Rep(m, head, top, v) && |m'| == |m| && 0 < top <= top' <= |m|
    requires forall a | 0 <= a < top :: m'[a] == m[a]
    requires l == Layout(top, top + 2, top + 5, top + 6, [], []) && top' == top + 7
    ensures Rep(m', head, top', v.(tags := v.tags + PoolTags(s, l)))
    ensures DataKept(m, m', v.tags, v.tags + PoolTags(s, l))
    ensures At(v.tags + PoolTags(s, l), l.node, PoolNodePool(s))
    ensures At(v.tags + PoolTags(s, l), l.node + 1, PoolNodeNext(s))
  {
    hide AllPools, PoolChain, Ascending;
    TagsWithPoolAbove(v.tags, s, l, top, top');
    RepGrow(m, m', head, top, top', v, v.tags + PoolTags(s, l));
  }

  lemma EmptyPoolBy(m: seq<nat>, s: nat, l: Layout)
    requires l.node + 1 < |m| && l.pool + 2 < |m| && l.free < |m| && l.used < |m|
    requires m[l.node] == l.pool && m[l.pool] == s
    requires m[l.pool + 1] == l.free && m[l.pool + 2] == l.used
    requires m[l.free] == NULL && m[l.used] == NULL && l.freeNodes == [] && l.usedNodes == []
    ensures EmptyPool(m, s, l)
  {
  }

  lemma EmptyPoolSize(m: seq<nat>, s: nat, l: Layout)
    requires EmptyPool(m, s, l)
    ensures l.node < |m| && m[l.node] < |m| && m[m[l.node]] == s && m[l.node] == l.pool
  {
  }

  lemma EmptyPoolRep(m: seq<nat>, m': seq<nat>, tags: map<nat, Tag>, s: nat, l: Layout)
    requires Mapped(m, tags) && |m'| == |m| && EmptyPool(m, s, l)
    requires l.pool > l.node + 1 && l.free > l.pool + 2 && l.used > l.free
    requires forall a :: a in PoolTags(s, l) ==> At(tags, a, PoolTags(s, l)[a])
    requires forall a | a in tags && m'[a] != m[a] :: tags[a].PoolNodeNext?
    ensures PoolRep(m', tags, s, l, Pool([], {}, {}))
  {
    var t := PoolTags(s, l);
    assert t[l.node] == PoolNodePool(s) && t[l.node + 1] == PoolNodeNext(s);
    assert t[l.pool] == PoolSize(s) && t[l.pool + 1] == PoolFree(s) && t[l.pool + 2] == PoolUsed(s);
    assert t[l.free] == FreeHead(s) && t[l.used] == UsedHead(s);
  }

  /** Linking the new pool in completes it. */
  lemma RepAddPool(m: seq<nat>, m': seq<nat>, head: nat, head': nat, top: nat, v: View,
                   order: seq<nat>, tags: map<nat, Tag>, s: nat, l: Layout)
    requires forall a :: a in tags ==> a < l.node
    requires v.tags == tags + PoolTags(s, l) && Rep(m, head, top, v) && |m'| == |m|
    requires l == Layout(l.node, l.node + 2, l.node + 5, l.node + 6, [], []) && top == l.node + 7
    requires EmptyPool(m, s, l) && s !in v.pools
    requires Shape(m', head', top, v.tags, v.layout[s := l], order)
    requires forall a | a in v.tags && m'[a] != m[a] :: v.tags[a].PoolNodeNext?
    ensures Rep(m', head', top, v.(layout := v.layout[s := l], order := order,
                                   pools := v.pools[s := Pool([], {}, {})]))
    ensures DataKept(m, m', v.tags, v.tags)
  {
    hide PoolRep, PoolChain, Ascending, EmptyPool;
    TagsWithPoolAbove(tags, s, l, l.node, top);
    EmptyPoolRep(m, m', v.tags, s, l);
    AllPoolsAdd(m, m', v.tags, v.layout, v.pools, s, l);
  }
}
