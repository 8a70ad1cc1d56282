/** Two nodes that receive the same blocks in different orders agree. */
module Convergence {
  import opened Types
  import opened Ledger
  import opened BlockTree
  import opened Chain
  import opened Replay
  import opened NodeProofs
  import opened Runs
  import opened ForkChoice
  import opened ValidForkChoice

  // ----- The tree depends on the set of blocks alone

  /** Genesis and the first `n` blocks, under their hashes. */
  function TreeOf(c: Crypto, genesis: Block, bs: seq<Block>, n: nat): Tree
    requires n <= |bs|
  {
    if n == 0 then map[HashOf(c, genesis) := genesis]
    else TreeOf(c, genesis, bs, n - 1)[HashOf(c, bs[n - 1]) := bs[n - 1]]
  }

  /** A block that can be delivered after the first `i`: its parent is among them, it meets its proof of
      work, and it is not a root. */
  predicate Deliverable(c: Crypto, genesis: Block, bs: seq<Block>, i: nat)
    requires i < |bs|
  {
    && bs[i].header.previousHash in TreeOf(c, genesis, bs, i)
    && bs[i].header.previousHash != ZERO && c.powOk(bs[i])
  }

  predicate NoCollisions(c: Crypto, genesis: Block, bs: seq<Block>) {
    && (forall i | 0 <= i < |bs| :: HashOf(c, bs[i]) != HashOf(c, genesis))
    && forall i, j | 0 <= i < |bs| && 0 <= j < |bs| && HashOf(c, bs[i]) == HashOf(c, bs[j]) :: bs[i] == bs[j]
  }

  /** Each block comes after its parent, and no two blocks share a hash. */
  predicate ParentFirst(c: Crypto, genesis: Block, bs: seq<Block>) {
    NoCollisions(c, genesis, bs) && forall i | 0 <= i < |bs| :: Deliverable(c, genesis, bs, i)
  }

  predicate Among(c: Crypto, bs: seq<Block>, n: nat, h: Hash, b: Block)
    requires n <= |bs|
  {
    exists i :: 0 <= i < n && HashOf(c, bs[i]) == h && bs[i] == b
  }

  lemma {:induction false} TreeOfMembers(c: Crypto, genesis: Block, bs: seq<Block>, n: nat, h: Hash)
    requires n <= |bs| && NoCollisions(c, genesis, bs)
    ensures
      var t := TreeOf(c, genesis, bs, n);
      && (h in t ==> if h == HashOf(c, genesis) then t[h] == genesis else Among(c, bs, n, h, t[h]))
      && (h == HashOf(c, genesis) ==> h in t)
      && (forall i | 0 <= i < n && HashOf(c, bs[i]) == h :: h in t && t[h] == bs[i])
  {
    if n > 0 {
      TreeOfMembers(c, genesis, bs, n - 1, h);
      var t, t' := TreeOf(c, genesis, bs, n - 1), TreeOf(c, genesis, bs, n);
      if h == HashOf(c, bs[n - 1]) {
        assert Among(c, bs, n, h, bs[n - 1]);
      } else if h in t && h != HashOf(c, genesis) {
        var i :| 0 <= i < n - 1 && HashOf(c, bs[i]) == h && bs[i] == t[h];
        assert Among(c, bs, n, h, t'[h]);
      }
    }
  }

  ghost predicate SameMembers(bs: seq<Block>, bs': seq<Block>) {
    forall b :: b in bs <==> b in bs'
  }

  lemma TreeOfSubset(c: Crypto, genesis: Block, bs: seq<Block>, bs': seq<Block>, h: Hash)
    requires NoCollisions(c, genesis, bs) && NoCollisions(c, genesis, bs') && SameMembers(bs, bs')
    requires h in TreeOf(c, genesis, bs, |bs|)
    ensures h in TreeOf(c, genesis, bs', |bs'|) && TreeOf(c, genesis, bs', |bs'|)[h] == TreeOf(c, genesis, bs, |bs|)[h]
  {
    hide TreeOf, NoCollisions;
    TreeOfMembers(c, genesis, bs, |bs|, h);
    TreeOfMembers(c, genesis, bs', |bs'|, h);
    if h != HashOf(c, genesis) {
      var i :| 0 <= i < |bs| && HashOf(c, bs[i]) == h && bs[i] == TreeOf(c, genesis, bs, |bs|)[h];
      assert bs[i] in bs';
      var j :| 0 <= j < |bs'| && bs'[j] == bs[i];
    }
  }

  lemma TreeOfIsASet(c: Crypto, genesis: Block, bs: seq<Block>, bs': seq<Block>)
    requires NoCollisions(c, genesis, bs) && NoCollisions(c, genesis, bs') && SameMembers(bs, bs')
    ensures TreeOf(c, genesis, bs, |bs|) == TreeOf(c, genesis, bs', |bs'|)
  {
    hide TreeOf, NoCollisions, SameMembers;
    var t, t' := TreeOf(c, genesis, bs, |bs|), TreeOf(c, genesis, bs', |bs'|);
    forall h | h in t
      ensures h in t' && t'[h] == t[h]
    {
      TreeOfSubset(c, genesis, bs, bs', h);
    }
    forall h | h in t'
      ensures h in t
    {
      SameMembersSwap(bs, bs');
      TreeOfSubset(c, genesis, bs', bs, h);
    }
  }

  lemma SameMembersSwap(bs: seq<Block>, bs': seq<Block>)
    requires SameMembers(bs, bs')
    ensures SameMembers(bs', bs)
  {
  }

  /** Delivering one more block adds exactly that block. */
  lemma OneMoreBlock(c: Crypto, genesis: Block, bs: seq<Block>, i: nat, n: Node)
    requires i < |bs| && NoCollisions(c, genesis, bs) && Deliverable(c, genesis, bs, i)
    requires StoreOk(c, n.store) && n.store.cache == TreeOf(c, genesis, bs, i)
    ensures Acyclic(n.store.cache) && Acyclic(AddBlock(c, n.store, bs[i]).0.cache)
    ensures Receive(c, n, bs[i]).0.store.cache == TreeOf(c, genesis, bs, i + 1)
  {
    hide StoreOk, Receive, Acyclic;
    AddBlockIsAcyclic(c, n.store, bs[i]);
    ReceiveKeepsStore(c, n, bs[i]);
    StoredAreEntered(c, n.store);
    TreeOfMembers(c, genesis, bs, i, HashOf(c, bs[i]));
    if HashOf(c, bs[i]) in n.store.cache {
      assert n.store.cache[HashOf(c, bs[i])] == bs[i];
    }
  }

  /** A node to which blocks are delivered parents first ends with exactly those blocks in its tree. */
  lemma {:induction false} DeliveredTree(c: Crypto, genesis: Block, ledger: LedgerState, bs: seq<Block>,
      nodes: seq<Node>, i: nat)
    requires NoZeroHash(c) && IsGenesis(genesis) && ParentFirst(c, genesis, bs)
    requires Run(c, genesis, ledger, Deliveries(bs), nodes) && i < |nodes|
    ensures nodes[i].store.cache == TreeOf(c, genesis, bs, i)
  {
    hide StoreOk, Receive, NoZeroHash, Acyclic, NoCollisions, Deliverable;
    if i > 0 {
      DeliveredTree(c, genesis, ledger, bs, nodes, i - 1);
      RunKeepsStore(c, genesis, ledger, Deliveries(bs), nodes, i - 1, i - 1);
      assert Step(c, nodes[i - 1], Deliveries(bs)[i - 1], nodes[i]);
      OneMoreBlock(c, genesis, bs, i - 1, nodes[i - 1]);
    }
  }

  lemma StoredAreEntered(c: Crypto, s: Store)
    requires StoreOk(c, s)
    ensures s.blocks.Keys == s.cache.Keys
  {
  }

  // ----- Independence of the order of delivery

  lemma SameTreeSameBlocks(c: Crypto, s: Store, s': Store)
    requires StoreOk(c, s) && StoreOk(c, s') && s.cache == s'.cache
    ensures s.blocks == s'.blocks && s.tip in s.blocks && s'.tip in s.blocks
    ensures s.tipWork == s.blocks[s.tip].accumulatedWork && s'.tipWork == s.blocks[s'.tip].accumulatedWork
  {
  }

  /** Whatever the blocks are: if neither node rejects one that it inserts, both end with the same tree
      and with tips of the same work. */
  lemma AcceptedRunsAgree(c: Crypto, genesis: Block, ledger: LedgerState, bs: seq<Block>, nodes: seq<Node>,
      bs': seq<Block>, nodes': seq<Node>)
    requires NoZeroHash(c) && IsGenesis(genesis)
    requires ParentFirst(c, genesis, bs) && ParentFirst(c, genesis, bs') && SameMembers(bs, bs')
    requires Run(c, genesis, ledger, Deliveries(bs), nodes) && NoneRejected(c, bs, nodes)
    requires Run(c, genesis, ledger, Deliveries(bs'), nodes') && NoneRejected(c, bs', nodes')
    ensures
      var s, s' := nodes[|bs|].store, nodes'[|bs'|].store;
      s.cache == s'.cache && s.blocks == s'.blocks && s.tipWork == s'.tipWork
  {
    hide StoreOk, Step, NoZeroHash, NoCollisions, Deliverable, NoneRejected, TreeOf;
    TreeOfIsASet(c, genesis, bs, bs');
    DeliveredTree(c, genesis, ledger, bs, nodes, |bs|);
    DeliveredTree(c, genesis, ledger, bs', nodes', |bs'|);
    TipIsHeaviest(c, genesis, ledger, bs, nodes, |bs|);
    TipIsHeaviest(c, genesis, ledger, bs', nodes', |bs'|);
    RunKeepsStore(c, genesis, ledger, Deliveries(bs), nodes, |bs|, |bs|);
    RunKeepsStore(c, genesis, ledger, Deliveries(bs'), nodes', |bs'|, |bs'|);
    SameTreeSameBlocks(c, nodes[|bs|].store, nodes'[|bs'|].store);
  }

  /** Two nodes receive the same blocks, valid or not, each in some order that puts parents first, possibly
      repeatedly. If the tree is reversible and its valid branches overtake each other within the cap, both end with
      the same tree and with tips of the same work; and if one valid block is heavier than all others, both nodes
      have it as tip and hold the same ledger. All conditions are about the blocks. */
  lemma DeliveryOrderIsIrrelevant(c: Crypto, genesis: Block, ledger: LedgerState, bs: seq<Block>, nodes: seq<Node>,
      bs': seq<Block>, nodes': seq<Node>)
    requires NoZeroHash(c) && IsGenesis(genesis)
    requires ParentFirst(c, genesis, bs) && ParentFirst(c, genesis, bs') && SameMembers(bs, bs')
    requires Run(c, genesis, ledger, Deliveries(bs), nodes) && Run(c, genesis, ledger, Deliveries(bs'), nodes')
    requires
      var o, t := OriginOf(c, genesis, ledger), TreeOf(c, genesis, bs, |bs|);
      SafeTree(o, t) && ShallowAmongValid(o, t)
    ensures
      var o, n, n' := OriginOf(c, genesis, ledger), nodes[|bs|], nodes'[|bs'|];
      var t := n.store.cache;
      && Acyclic(t) && t == n'.store.cache && n.store.blocks == n'.store.blocks && n.store.tipWork == n'.store.tipWork
      && forall best | ValidIn(o, t, best)
           && (forall h | ValidIn(o, t, h) && h != best :: WorkOf(t, h) < WorkOf(t, best)) ::
           n.store.tip == best && n'.store.tip == best && n.ledger == n'.ledger
  {
    hide StoreOk, NodeOk, Step, SafeTree, NoZeroHash, NoCollisions, Deliverable, ShallowAmongValid, TreeOf, ReplayTo,
        WorkOf;
    TreeOfIsASet(c, genesis, bs, bs');
    LeadAtTheEnd(c, genesis, ledger, bs, nodes);
    LeadAtTheEnd(c, genesis, ledger, bs', nodes');
    SameTreeSameBlocks(c, nodes[|bs|].store, nodes'[|bs'|].store);
  }

  lemma LeadAtTheEnd(c: Crypto, genesis: Block, ledger: LedgerState, bs: seq<Block>, nodes: seq<Node>)
    requires NoZeroHash(c) && IsGenesis(genesis) && ParentFirst(c, genesis, bs)
    requires Run(c, genesis, ledger, Deliveries(bs), nodes)
    requires
      var o, t := OriginOf(c, genesis, ledger), TreeOf(c, genesis, bs, |bs|);
      SafeTree(o, t) && ShallowAmongValid(o, t)
    ensures
      var o, n, t := OriginOf(c, genesis, ledger), nodes[|bs|], TreeOf(c, genesis, bs, |bs|);
      && n.store.cache == t && TipLeads(o, n.store) && StoreOk(c, n.store) && Acyclic(t)
      && n.store.tip in t && ReplayTo(o, t, n.store.tip) == Some(n.ledger) && n.store.tipWork == WorkOf(t, n.store.tip)
  {
    hide StoreOk, NodeOk, Step, SafeTree, NoZeroHash, NoCollisions, Deliverable, ShallowAmongValid, TreeOf, ReplayTo,
        WorkOf, SafeRun, TipLeads;
    var o := OriginOf(c, genesis, ledger);
    DeliveredTree(c, genesis, ledger, bs, nodes, |bs|);
    TipLeadsValid(c, genesis, ledger, bs, nodes, |bs|);
    SafeTreeIsSafeRun(c, genesis, ledger, Deliveries(bs), nodes);
    LedgerIsReplay(c, genesis, ledger, Deliveries(bs), nodes, |bs|);
    TipIsValid(o, nodes[|bs|]);
    RunKeepsStore(c, genesis, ledger, Deliveries(bs), nodes, |bs|, |bs|);
  }

  lemma RunPrefix(c: Crypto, genesis: Block, ledger: LedgerState, bs: seq<Block>, nodes: seq<Node>, n: nat)
    requires Run(c, genesis, ledger, Deliveries(bs), nodes) && n <= |bs|
    ensures Run(c, genesis, ledger, Deliveries(bs[..n]), nodes[..n + 1])
  {
    hide Step;
    forall i | 0 <= i < n
      ensures Step(c, nodes[..n + 1][i], Deliveries(bs[..n])[i], nodes[..n + 1][i + 1])
    {
      assert Step(c, nodes[i], Deliveries(bs)[i], nodes[i + 1]);
    }
  }

  lemma TreeOfHasSingleRoot(o: Origin, c: Crypto, genesis: Block, bs: seq<Block>)
    requires ParentFirst(c, genesis, bs) && o.genesis == HashOf(c, genesis)
    ensures SingleRoot(o, TreeOf(c, genesis, bs, |bs|))
  {
    var t := TreeOf(c, genesis, bs, |bs|);
    forall h | h in t && h != o.genesis
      ensures Prev(t, h) != ZERO
    {
      TreeOfMembers(c, genesis, bs, |bs|, h);
      var i :| 0 <= i < |bs| && HashOf(c, bs[i]) == h && bs[i] == t[h];
      assert Deliverable(c, genesis, bs, i);
    }
  }

  // ----- Ties go to the first block

  lemma GrowthInSubtree(t: Tree, t': Tree)
    requires WellFounded(t) && WellFounded(t') && Extends(t, t') && WorkGrows(t')
    ensures WorkGrows(t)
  {
    hide Acyclic, Closed, PathWork;
    forall h | h in t
      ensures BlockWork(t[h].header) > 0 && PathWork(t, h) <= U128_MAX
    {
      PathWorkExtend(t, t', h);
    }
  }

  lemma LogIsInTree(c: Crypto, genesis: Block, bs: seq<Block>, i: nat, k: nat)
    requires NoCollisions(c, genesis, bs) && k <= i <= |bs|
    ensures HashOf(c, ([genesis] + bs[..i])[k]) in TreeOf(c, genesis, bs, i)
  {
    hide TreeOf, NoCollisions;
    var h := HashOf(c, ([genesis] + bs[..i])[k]);
    TreeOfMembers(c, genesis, bs, i, h);
    if k > 0 { assert HashOf(c, bs[k - 1]) == h; }
  }

  lemma LogIsStored(c: Crypto, genesis: Block, bs: seq<Block>, i: nat, s: Store)
    requires NoCollisions(c, genesis, bs) && i <= |bs| && StoreOk(c, s) && s.cache == TreeOf(c, genesis, bs, i)
    ensures
      var log := [genesis] + bs[..i];
      forall j | 0 <= j < |log| :: HashOf(c, log[j]) in s.blocks
  {
    hide TreeOf, NoCollisions, StoreOk;
    StoredAreEntered(c, s);
    forall j | 0 <= j < i + 1
      ensures HashOf(c, ([genesis] + bs[..i])[j]) in s.blocks
    {
      LogIsInTree(c, genesis, bs, i, j);
    }
  }

  lemma GrowthOnTheWay(c: Crypto, genesis: Block, ledger: LedgerState, bs: seq<Block>, nodes: seq<Node>, i: nat)
    requires NoZeroHash(c) && IsGenesis(genesis) && i <= |bs| && Run(c, genesis, ledger, Deliveries(bs), nodes)
    requires WorkGrows(nodes[|bs|].store.cache)
    ensures WorkGrows(nodes[i].store.cache)
  {
    hide StoreOk, NoZeroHash, WorkGrows, Step;
    RunKeepsStore(c, genesis, ledger, Deliveries(bs), nodes, i, |bs|);
    TreesAreWellFounded(c, nodes[i].store, nodes[|bs|].store);
    GrowthInSubtree(nodes[i].store.cache, nodes[|bs|].store.cache);
  }

  /** An accepted block that is heavier than the tip comes last in the list and is the first of its weight. */
  lemma NewTipIsFirst(c: Crypto, log: seq<Block>, b: Block, s: Store, s': Store)
    requires Heaviest(s) && s'.tip == HashOf(c, b) && s'.tip in s'.blocks
        && s'.blocks[s'.tip].accumulatedWork == s'.tipWork
    requires s'.tipWork > s.tipWork
    requires forall h | h in s'.blocks && h != s'.tip :: h in s.blocks && s'.blocks[h] == s.blocks[h]
    requires forall j | 0 <= j < |log| :: HashOf(c, log[j]) != s'.tip
    ensures TipIsFirst(c, log + [b], s')
  {
    assert FirstAt(c, log + [b], s', |log|);
  }

  lemma StepKeepsFirst(o: Origin, log: seq<Block>, n: Node, b: Block)
    requires StoreOk(o.c, n.store) && SingleRoot(o, n.store.cache) && TipIsFirst(o.c, log, n.store)
    requires Acyclic(n.store.cache) && Acyclic(AddBlock(o.c, n.store, b).0.cache) && Accepted(o.c, n, b)
    requires WorkGrows(Receive(o.c, n, b).0.store.cache)
    requires HashOf(o.c, b) !in n.store.blocks ==> forall j | 0 <= j < |log| :: HashOf(o.c, log[j]) != HashOf(o.c, b)
    ensures TipIsFirst(o.c, log + [b], Receive(o.c, n, b).0.store)
  {
    hide EntryOk, OrphansOk, RestorableDiffs, Acyclic, Receive, Inserts, WorkGrows, FirstAt, NoZeroHash;
    var c, s, s', h := o.c, n.store, Receive(o.c, n, b).0.store, HashOf(o.c, b);
    AcceptedKeepsHeaviest(o, n, b);
    ReceiveKeepsStore(c, n, b);
    if Inserts(c, n, b) {
      AcceptedMovesTip(o, n, b);
      InsertDecides(c, n, b);
      if s'.tip == h {
        if b.header.previousHash == s.tip {
          TipEntry(c, s);
          ChildIsHeavier(c, s', h);
        }
        NewTipIsFirst(c, log, b, s, s');
      } else {
        FirstStays(c, log, b, s, s');
      }
    } else {
      NotInserted(c, n, b);
      FirstStays(c, log, b, s, s');
    }
  }

  /** Where every block adds work, the tip is in every state the first heaviest block that was delivered. */
  lemma {:induction false} TipIsFirstHeaviest(c: Crypto, genesis: Block, ledger: LedgerState, bs: seq<Block>,
      nodes: seq<Node>, i: nat)
    requires NoZeroHash(c) && IsGenesis(genesis) && ParentFirst(c, genesis, bs) && i <= |bs|
    requires Run(c, genesis, ledger, Deliveries(bs), nodes) && NoneRejected(c, bs, nodes)
    requires WorkGrows(nodes[|bs|].store.cache)
    ensures TipIsFirst(c, [genesis] + bs[..i], nodes[i].store)
  {
    hide StoreOk, Receive, NoZeroHash, Acyclic, Closed, NoCollisions, Deliverable, Accepted, TipIsFirst, WorkGrows,
        SingleRoot, TreeOf;
    if i == 0 {
      StartIsFirst(c, genesis);
      assert [genesis] + bs[..0] == [genesis];
    } else {
      var o, log := OriginOf(c, genesis, ledger), [genesis] + bs[..i - 1];
      TipIsFirstHeaviest(c, genesis, ledger, bs, nodes, i - 1);
      TipIsHeaviest(c, genesis, ledger, bs, nodes, i - 1);
      RunKeepsStore(c, genesis, ledger, Deliveries(bs), nodes, i - 1, i - 1);
      GrowthOnTheWay(c, genesis, ledger, bs, nodes, i);
      assert Step(c, nodes[i - 1], Deliveries(bs)[i - 1], nodes[i]);
      assert Accepted(c, nodes[i - 1], bs[i - 1]);
      DeliveredTree(c, genesis, ledger, bs, nodes, i - 1);
      LogIsStored(c, genesis, bs, i - 1, nodes[i - 1].store);
      StepKeepsFirst(o, log, nodes[i - 1], bs[i - 1]);
      assert log + [bs[i - 1]] == [genesis] + bs[..i];
    }
  }

  lemma StartIsFirst(c: Crypto, genesis: Block)
    ensures TipIsFirst(c, [genesis], NewStore(c, genesis))
  {
    assert FirstAt(c, [genesis], NewStore(c, genesis), 0);
  }
}
