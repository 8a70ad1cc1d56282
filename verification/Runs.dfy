/** Runs of a node: blocks arrive in any order, orphans are resolved at any time, and steps may fail. */
module Runs {
  import opened Types
  import opened Ledger
  import opened LedgerProofs
  import opened BlockTree
  import opened Chain
  import opened Replay
  import opened Orphans
  import opened NodeProofs

  datatype Event = Deliver(block: Block) | ResolveOrphansOf(parent: Hash)

  ghost predicate Step(c: Crypto, n: Node, e: Event, n': Node) {
    match e
    case Deliver(b) =>
      && Acyclic(n.store.cache) && Acyclic(AddBlock(c, n.store, b).0.cache)
      && n' == Receive(c, n, b).0
    case ResolveOrphansOf(p) =>
      && p in n.store.cache
      && Resolved(c, n.store, n'.store, p)
      && n'.ledger == n.ledger
  }

  /** A node's states, from the genesis block and its ledger on. */
  ghost predicate Run(c: Crypto, genesis: Block, ledger: LedgerState, events: seq<Event>, nodes: seq<Node>) {
    && |nodes| == |events| + 1
    && nodes[0] == Node(NewStore(c, genesis), ledger)
    && forall i | 0 <= i < |events| :: Step(c, nodes[i], events[i], nodes[i + 1])
  }

  predicate IsGenesis(b: Block) { b.header.previousHash == ZERO && b.header.height == 0 }

  function OriginOf(c: Crypto, genesis: Block, ledger: LedgerState): Origin { Origin(c, HashOf(c, genesis), ledger) }

  // ----- Without any hypothesis on the blocks

  lemma StepKeepsStore(c: Crypto, n: Node, e: Event, n': Node)
    requires StoreOk(c, n.store) && Step(c, n, e, n')
    ensures StoreOk(c, n'.store) && Extends(n.store.cache, n'.store.cache) && n'.store.tipWork >= n.store.tipWork
  {
    hide StoreOk, Receive, ClosedUnder;
    if e.Deliver? { ReceiveKeepsStore(c, n, e.block); }
  }

  lemma ExtendsTransitive(t: Tree, t': Tree, t'': Tree)
    requires Extends(t, t') && Extends(t', t'')
    ensures Extends(t, t'')
  {
  }

  /** In every run: entries carry the saturating sum of the work on their path, the orphan queue
      matches its pool, the tree only grows, and the work of the tip never falls. */
  lemma {:induction false} RunKeepsStore(c: Crypto, genesis: Block, ledger: LedgerState, events: seq<Event>,
      nodes: seq<Node>, i: nat, j: nat)
    requires NoZeroHash(c) && IsGenesis(genesis)
    requires Run(c, genesis, ledger, events, nodes) && i <= j < |nodes|
    ensures StoreOk(c, nodes[i].store) && StoreOk(c, nodes[j].store)
    ensures Extends(nodes[i].store.cache, nodes[j].store.cache)
    ensures nodes[j].store.tipWork >= nodes[i].store.tipWork
    decreases j
  {
    hide StoreOk, Step, NoZeroHash, Extends;
    if j == 0 {
      StartIsOk(c, genesis, ledger);
      ExtendsItself(nodes[0].store.cache);
    } else {
      RunKeepsStore(c, genesis, ledger, events, nodes, if i < j then i else j - 1, j - 1);
      StepKeepsStore(c, nodes[j - 1], events[j - 1], nodes[j]);
      if i == j {
        ExtendsItself(nodes[j].store.cache);
      } else {
        ExtendsTransitive(nodes[i].store.cache, nodes[j - 1].store.cache, nodes[j].store.cache);
      }
    }
  }

  lemma ExtendsItself(t: Tree)
    ensures Extends(t, t)
  {
  }

  // ----- The ledger is the replay

  /** Each block that the step undertakes to apply is reversible where it applies. Blocks that are only
      stored, and plans that are refused for their depth, do not count. */
  ghost predicate SafeStep(o: Origin, n: Node, e: Event) {
    e.Deliver? && Acyclic(AddBlock(o.c, n.store, e.block).0.cache) && Inserts(o.c, n, e.block) ==>
      SafeDecision(o, AddBlock(o.c, n.store, e.block).0, e.block)
  }

  ghost predicate SafeRun(o: Origin, events: seq<Event>, nodes: seq<Node>)
    requires |nodes| == |events| + 1
  {
    forall i | 0 <= i < |events| :: SafeStep(o, nodes[i], events[i])
  }

  lemma PlanIsInTree(t: Tree, h: Hash, tip: Hash)
    requires WellFounded(t) && h in t && Prev(t, h) in t && tip in t
    requires FindLca(t, Prev(t, h), tip).Some?
    ensures forall x | x in Reverse(ChainToFork(t, Prev(t, h), FindLca(t, Prev(t, h), tip).value)) + [h] :: x in t
  {
    hide Acyclic, Closed, Ancestors, ChainToFork, FindLca;
    var i, j := ForkIndices(t, Prev(t, h), tip);
    forall k | 0 <= k < j
      ensures Ancestors(t, Prev(t, h))[k] in t
    {
      AncestorsSuffix(t, Prev(t, h), k);
    }
  }

  lemma SafeTreeIsSafeDecision(o: Origin, s: Store, b: Block)
    requires StoreOk(o.c, s) && SafeTree(o, s.cache) && HashOf(o.c, b) in s.cache && s.cache[HashOf(o.c, b)] == b
    ensures SafeDecision(o, s, b)
  {
    hide SafeBlock, Acyclic, EntryOk, OrphansOk, ChainToFork, FindLca, RestorableDiffs, Ancestors;
    var d := AnalyzeFork(o.c, s, b);
    if d.ReorgToNew? { PlanIsInTree(s.cache, HashOf(o.c, b), s.tip); }
  }

  /** A condition on the blocks alone: where every block of the final tree is reversible, every step is safe. */
  lemma SafeTreeIsSafeRun(c: Crypto, genesis: Block, ledger: LedgerState, events: seq<Event>, nodes: seq<Node>)
    requires NoZeroHash(c) && IsGenesis(genesis) && Run(c, genesis, ledger, events, nodes)
    requires SafeTree(OriginOf(c, genesis, ledger), nodes[|nodes| - 1].store.cache)
    ensures SafeRun(OriginOf(c, genesis, ledger), events, nodes)
  {
    hide StoreOk, Receive, SafeBlock, NoZeroHash, Acyclic, Closed, Resolved, SafeDecision, Inserts;
    var o := OriginOf(c, genesis, ledger);
    forall i | 0 <= i < |events|
      ensures SafeStep(o, nodes[i], events[i])
    {
      assert Step(c, nodes[i], events[i], nodes[i + 1]);
      if events[i].Deliver? && Inserts(c, nodes[i], events[i].block) {
        RunKeepsStore(c, genesis, ledger, events, nodes, i, i + 1);
        RunKeepsStore(c, genesis, ledger, events, nodes, i + 1, |nodes| - 1);
        TreesAreWellFounded(c, nodes[i + 1].store, nodes[|nodes| - 1].store);
        SafeSubtree(o, nodes[i + 1].store.cache, nodes[|nodes| - 1].store.cache);
        AddedIsStored(c, nodes[i], events[i].block);
        SafeTreeIsSafeDecision(o, AddBlock(c, nodes[i].store, events[i].block).0, events[i].block);
      }
    }
  }

  lemma AddedIsStored(c: Crypto, n: Node, b: Block)
    requires StoreOk(c, n.store) && Inserts(c, n, b)
    ensures Acyclic(n.store.cache) && Acyclic(AddBlock(c, n.store, b).0.cache)
    ensures
      var s' := AddBlock(c, n.store, b).0;
      StoreOk(c, s') && s'.cache == Receive(c, n, b).0.store.cache && HashOf(c, b) in s'.cache
      && s'.cache[HashOf(c, b)] == b
  {
    hide StoreOk, Receive, Acyclic;
    AddBlockIsAcyclic(c, n.store, b);
    AddBlockKeepsStore(c, n.store, b);
    ReceiveKeepsStore(c, n, b);
  }

  /** After every step of every run, whether it succeeds or fails, the ledger is the replay of the blocks
      from genesis to the tip, and the stored diffs are the ones the replay produces. The hypothesis is
      about the blocks that steps undertake to apply: each is reversible where it applies. */
  lemma {:induction false} LedgerIsReplay(c: Crypto, genesis: Block, ledger: LedgerState, events: seq<Event>,
      nodes: seq<Node>, i: nat)
    requires NoZeroHash(c) && IsGenesis(genesis)
    requires Run(c, genesis, ledger, events, nodes) && i < |nodes|
    requires SafeRun(OriginOf(c, genesis, ledger), events, nodes)
    ensures NodeOk(OriginOf(c, genesis, ledger), nodes[i])
    ensures ReplayTo(OriginOf(c, genesis, ledger), nodes[i].store.cache, nodes[i].store.tip) == Some(nodes[i].ledger)
  {
    hide StoreOk, NodeOk, Receive, NoZeroHash, Acyclic, Closed, Resolved, SafeDecision, Inserts;
    var o := OriginOf(c, genesis, ledger);
    if i == 0 {
      StartIsOk(c, genesis, ledger);
    } else {
      LedgerIsReplay(c, genesis, ledger, events, nodes, i - 1);
      assert Step(c, nodes[i - 1], events[i - 1], nodes[i]);
      match events[i - 1]
      case Deliver(b) =>
        assert SafeStep(o, nodes[i - 1], events[i - 1]);
        ReceiveKeeps(o, nodes[i - 1], b);
      case ResolveOrphansOf(p) =>
        ResolvedKeepsLedger(o, nodes[i - 1], nodes[i].store, p);
    }
    OkMeansReplay(o, nodes[i]);
  }

  lemma OkMeansReplay(o: Origin, n: Node)
    requires NodeOk(o, n)
    ensures WellFounded(n.store.cache) && ReplayTo(o, n.store.cache, n.store.tip) == Some(n.ledger)
  {
  }

  lemma TreesAreWellFounded(c: Crypto, s: Store, s': Store)
    requires StoreOk(c, s) && StoreOk(c, s')
    ensures WellFounded(s.cache) && WellFounded(s'.cache)
  {
  }
}
