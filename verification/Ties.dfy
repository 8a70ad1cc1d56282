/** Which tip nodes end with when several blocks are heaviest: the one delivered first, and any of them can be. */
module Ties {
  import opened Types
  import opened Ledger
  import opened BlockTree
  import opened Chain
  import opened Replay
  import opened NodeProofs
  import opened Runs
  import opened ForkChoice
  import opened ValidForkChoice
  import opened Convergence
  import opened Rejections

  ghost predicate IsHeaviest(t: Tree, h: Hash)
    requires Acyclic(t)
  {
    h in t && forall x | x in t :: WorkOf(t, x) <= WorkOf(t, h)
  }

  ghost predicate OnlyHeaviest(t: Tree, h: Hash)
    requires Acyclic(t)
  {
    h in t && forall x | x in t && x != h :: WorkOf(t, x) < WorkOf(t, h)
  }

  /** Among the blocks of the list, it is a heaviest one, and those before it are lighter. */
  ghost predicate FirstHeaviest(c: Crypto, log: seq<Block>, t: Tree, h: Hash)
    requires Acyclic(t)
  {
    IsHeaviest(t, h) && exists i | 0 <= i < |log| :: HashOf(c, log[i]) == h && LighterBefore(c, log, t, i)
  }

  ghost predicate LighterBefore(c: Crypto, log: seq<Block>, t: Tree, i: nat)
    requires Acyclic(t) && i < |log|
  {
    forall j | 0 <= j < i && HashOf(c, log[j]) in t :: WorkOf(t, HashOf(c, log[j])) < WorkOf(t, HashOf(c, log[i]))
  }

  lemma FirstHeaviestIsUnique(c: Crypto, log: seq<Block>, t: Tree, h: Hash, h': Hash)
    requires Acyclic(t) && FirstHeaviest(c, log, t, h) && FirstHeaviest(c, log, t, h')
    ensures h == h'
  {
    hide WorkOf;
    var i :| 0 <= i < |log| && HashOf(c, log[i]) == h && LighterBefore(c, log, t, i);
    var j :| 0 <= j < |log| && HashOf(c, log[j]) == h' && LighterBefore(c, log, t, j);
  }

  lemma FirstInStore(c: Crypto, log: seq<Block>, s: Store)
    requires StoreOk(c, s) && TipIsFirst(c, log, s)
    ensures Acyclic(s.cache) && FirstHeaviest(c, log, s.cache, s.tip)
  {
    hide Acyclic, WorkOf, EntryOk, OrphansOk, RestorableDiffs, NoZeroHash;
    forall h | h in s.cache
      ensures h in s.blocks && s.blocks[h].accumulatedWork == WorkOf(s.cache, h)
    {
      EntryWork(c, s, h);
    }
    StoredAreEntered(c, s);
    TipEntry(c, s);
    var i: nat :| FirstAt(c, log, s, i);
    assert HashOf(c, log[i]) == s.tip && LighterBefore(c, log, s.cache, i);
  }

  /** The tip of a node that rejects nothing is the first heaviest block of what it received. */
  lemma TipIsFirstInOrder(c: Crypto, genesis: Block, ledger: LedgerState, bs: seq<Block>, nodes: seq<Node>)
    requires NoZeroHash(c) && IsGenesis(genesis) && ParentFirst(c, genesis, bs)
    requires Run(c, genesis, ledger, Deliveries(bs), nodes) && NoneRejected(c, bs, nodes)
    requires WorkGrows(TreeOf(c, genesis, bs, |bs|))
    ensures
      var t := TreeOf(c, genesis, bs, |bs|);
      Acyclic(t) && FirstHeaviest(c, [genesis] + bs, t, nodes[|bs|].store.tip)
  {
    hide StoreOk, Step, NoZeroHash, NoCollisions, Deliverable, NoneRejected, TreeOf, WorkGrows, TipIsFirst,
        FirstHeaviest, Acyclic;
    DeliveredTree(c, genesis, ledger, bs, nodes, |bs|);
    RunKeepsStore(c, genesis, ledger, Deliveries(bs), nodes, |bs|, |bs|);
    TipIsFirstHeaviest(c, genesis, ledger, bs, nodes, |bs|);
    assert bs[..|bs|] == bs;
    FirstInStore(c, [genesis] + bs, nodes[|bs|].store);
  }

  /** Two nodes that receive the same blocks and reject none, where every block adds work, end with the same tip if
      and only if the same heaviest block comes first in both orders. */
  lemma TipsAgreeExactly(c: Crypto, genesis: Block, ledger: LedgerState, bs: seq<Block>, nodes: seq<Node>,
      bs': seq<Block>, nodes': seq<Node>)
    requires NoZeroHash(c) && IsGenesis(genesis)
    requires ParentFirst(c, genesis, bs) && ParentFirst(c, genesis, bs') && SameMembers(bs, bs')
    requires Run(c, genesis, ledger, Deliveries(bs), nodes) && NoneRejected(c, bs, nodes)
    requires Run(c, genesis, ledger, Deliveries(bs'), nodes') && NoneRejected(c, bs', nodes')
    requires WorkGrows(TreeOf(c, genesis, bs, |bs|))
    ensures
      var t := TreeOf(c, genesis, bs, |bs|);
      && Acyclic(t)
      && (nodes[|bs|].store.tip == nodes'[|bs'|].store.tip
          <==> exists h :: FirstHeaviest(c, [genesis] + bs, t, h) && FirstHeaviest(c, [genesis] + bs', t, h))
  {
    hide Step, NoZeroHash, NoCollisions, Deliverable, NoneRejected, TreeOf, WorkGrows, FirstHeaviest, Acyclic;
    var t := TreeOf(c, genesis, bs, |bs|);
    TreeOfIsASet(c, genesis, bs, bs');
    TipIsFirstInOrder(c, genesis, ledger, bs, nodes);
    TipIsFirstInOrder(c, genesis, ledger, bs', nodes');
    forall h | FirstHeaviest(c, [genesis] + bs, t, h) && FirstHeaviest(c, [genesis] + bs', t, h)
      ensures nodes[|bs|].store.tip == h == nodes'[|bs'|].store.tip
    {
      FirstHeaviestIsUnique(c, [genesis] + bs, t, h, nodes[|bs|].store.tip);
      FirstHeaviestIsUnique(c, [genesis] + bs', t, h, nodes'[|bs'|].store.tip);
    }
  }

  // ----- Any heaviest block can be the tip

  lemma {:induction false} LighterBelow(t: Tree, h: Hash, x: Hash)
    requires WellFounded(t) && WorkGrows(t) && h in t && x in Ancestors(t, h) && x != h
    ensures x in t && WorkOf(t, x) < WorkOf(t, h)
    decreases Depth(t, h)
  {
    hide Acyclic;
    if x != Prev(t, h) { LighterBelow(t, Prev(t, h), x); }
  }

  /** Delivered ahead along its path, a heaviest block comes before all others. */
  lemma PathComesFirst(o: Origin, genesis: Block, t: Tree, bs: seq<Block>, h: Hash)
    requires WellFounded(t) && SingleRoot(o, t) && GenesisOk(o, t) && Hashed(o.c, t) && WorkGrows(t)
    requires o.genesis == HashOf(o.c, genesis) && IsHeaviest(t, h)
    ensures FirstHeaviest(o.c, [genesis] + (PathTo(t, o.genesis, h) + bs), t, h)
  {
    hide Acyclic, Closed, PathTo, Ancestors, WorkOf, SingleRoot, GenesisOk, Hashed, WorkGrows;
    var p := PathTo(t, o.genesis, h);
    var log := [genesis] + (p + bs);
    GenesisIsAncestor(o, t, h);
    if p == [] {
      if h != o.genesis { PathStarts(o, t, h); }
    } else {
      PathAt(o, t, h, |p| - 1);
    }
    assert HashOf(o.c, log[|p|]) == h by {
      if p != [] { assert log[|p|] == p[|p| - 1]; }
    }
    forall j | 0 <= j < |p|
      ensures WorkOf(t, HashOf(o.c, log[j])) < WorkOf(t, h)
    {
      if j > 0 {
        assert log[j] == p[j - 1];
        PathAt(o, t, h, j - 1);
      } else {
        assert h != o.genesis by { PathAt(o, t, h, |p| - 1); }
      }
      LighterBelow(t, h, HashOf(o.c, log[j]));
    }
    assert LighterBefore(o.c, log, t, |p|);
  }

  /** For every heaviest block there is an order of delivery that makes it the tip. */
  lemma HeaviestCanBeTip(c: Crypto, genesis: Block, ledger: LedgerState, bs: seq<Block>, h: Hash)
      returns (order: seq<Block>, nodes: seq<Node>)
    requires NoZeroHash(c) && IsGenesis(genesis) && ParentFirst(c, genesis, bs)
    requires
      var o, t := OriginOf(c, genesis, ledger), TreeOf(c, genesis, bs, |bs|);
      AllValid(o, t) && ShallowOvertakes(t) && WorkGrows(t) && IsHeaviest(t, h)
    ensures Order(c, genesis, ledger, bs, order, nodes) && nodes[|order|].store.tip == h
  {
    hide Step, NoZeroHash, TreeOf, Acyclic, Closed, AllValid, ShallowOvertakes, WorkGrows, IsHeaviest, PathTo,
        NoCollisions, Deliverable, SelfContained, Hashed, GenesisOk, SingleRoot, FirstHeaviest, NoneRejected,
        SameMembers, Ancestors, ParentFirst;
    var o, t := OriginOf(c, genesis, ledger), TreeOf(c, genesis, bs, |bs|);
    var first := RunExists(c, genesis, ledger, bs, |bs|);
    assert bs[..|bs|] == bs;
    TreeFacts(o, genesis, ledger, bs, first);
    ParentFirstHasNoCollisions(c, genesis, bs);
    HeaviestIsStored(t, h);
    var lead := PathTo(t, o.genesis, h);
    forall b | b in lead
      ensures b in bs
    {
      PathIsAmong(o, genesis, bs, h, b);
    }
    PathIsSelfContained(o, genesis, t, h);
    LeadIsAnOrder(c, genesis, lead, bs);
    order := lead + bs;
    ParentFirstHasNoCollisions(c, genesis, order);
    TreeOfIsASet(c, genesis, order, bs);
    nodes := RunExists(c, genesis, ledger, order, |order|);
    assert order[..|order|] == order;
    DeliveredTree(c, genesis, ledger, order, nodes, |order|);
    ValidBlocksAreAccepted(c, genesis, ledger, order, nodes);
    TipIsFirstInOrder(c, genesis, ledger, order, nodes);
    PathComesFirst(o, genesis, t, bs, h);
    FirstHeaviestIsUnique(c, [genesis] + order, t, h, nodes[|order|].store.tip);
  }

  lemma HeaviestIsStored(t: Tree, h: Hash)
    requires Acyclic(t) && IsHeaviest(t, h)
    ensures h in t
  {
  }

  ghost predicate SameTips(order: seq<Block>, nodes: seq<Node>, order': seq<Block>, nodes': seq<Node>) {
    |nodes| == |order| + 1 && |nodes'| == |order'| + 1 && nodes[|order|].store.tip == nodes'[|order'|].store.tip
  }

  /** Where all blocks are valid and add work, and overtakes are shallow: all orders of delivery end with one tip if
      and only if one block is heavier than all others. */
  lemma OneTipExactly(c: Crypto, genesis: Block, ledger: LedgerState, bs: seq<Block>)
    requires NoZeroHash(c) && IsGenesis(genesis) && ParentFirst(c, genesis, bs)
    requires
      var o, t := OriginOf(c, genesis, ledger), TreeOf(c, genesis, bs, |bs|);
      AllValid(o, t) && ShallowOvertakes(t) && WorkGrows(t)
    ensures
      var t := TreeOf(c, genesis, bs, |bs|);
      && Acyclic(t)
      && ((forall order, nodes, order', nodes' | Order(c, genesis, ledger, bs, order, nodes)
             && Order(c, genesis, ledger, bs, order', nodes') :: SameTips(order, nodes, order', nodes'))
          <==> exists h :: OnlyHeaviest(t, h))
  {
    hide NoZeroHash, TreeOf, Acyclic, AllValid, ShallowOvertakes, WorkGrows, Order, WorkOf, ParentFirst;
    var o, t := OriginOf(c, genesis, ledger), TreeOf(c, genesis, bs, |bs|);
    AllValidIsShallow(o, t);
    ShallowIsAcyclic(o, t);
    if h :| OnlyHeaviest(t, h) {
      forall order, nodes, order', nodes' | Order(c, genesis, ledger, bs, order, nodes)
        && Order(c, genesis, ledger, bs, order', nodes')
        ensures SameTips(order, nodes, order', nodes')
      {
        OrderEndsHeaviest(c, genesis, ledger, bs, order, nodes);
        OrderEndsHeaviest(c, genesis, ledger, bs, order', nodes');
      }
    } else {
      var order, nodes := SomeOrder(c, genesis, ledger, bs);
      OrderEndsHeaviest(c, genesis, ledger, bs, order, nodes);
      var tip := nodes[|order|].store.tip;
      assert !OnlyHeaviest(t, tip);
      var h: Hash :| h in t && h != tip && WorkOf(t, h) >= WorkOf(t, tip);
      assert IsHeaviest(t, h);
      var order', nodes' := HeaviestCanBeTip(c, genesis, ledger, bs, h);
      assert !SameTips(order, nodes, order', nodes');
    }
  }

  lemma SomeOrder(c: Crypto, genesis: Block, ledger: LedgerState, bs: seq<Block>)
      returns (order: seq<Block>, nodes: seq<Node>)
    requires NoZeroHash(c) && IsGenesis(genesis) && ParentFirst(c, genesis, bs)
    ensures Order(c, genesis, ledger, bs, order, nodes)
  {
    order := bs;
    nodes := RunExists(c, genesis, ledger, bs, |bs|);
    assert bs[..|bs|] == bs;
  }

  lemma OrderEndsHeaviest(c: Crypto, genesis: Block, ledger: LedgerState, bs: seq<Block>, order: seq<Block>,
      nodes: seq<Node>)
    requires NoZeroHash(c) && IsGenesis(genesis) && ParentFirst(c, genesis, bs)
    requires Order(c, genesis, ledger, bs, order, nodes)
    requires AllValid(OriginOf(c, genesis, ledger), TreeOf(c, genesis, bs, |bs|))
        && ShallowOvertakes(TreeOf(c, genesis, bs, |bs|))
    ensures |nodes| == |order| + 1 && Acyclic(TreeOf(c, genesis, bs, |bs|))
    ensures IsHeaviest(TreeOf(c, genesis, bs, |bs|), nodes[|order|].store.tip)
  {
    hide Step, NoZeroHash, TreeOf, Acyclic, AllValid, ShallowOvertakes, WorkOf, NoCollisions, Deliverable, ReplayTo,
        StoreOk;
    TreeOfIsASet(c, genesis, order, bs);
    AllValidIsShallow(OriginOf(c, genesis, ledger), TreeOf(c, genesis, bs, |bs|));
    LeadAtTheEnd(c, genesis, ledger, order, nodes);
  }
}
