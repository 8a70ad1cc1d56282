/** Why convergence needs its conditions: two families of blocks, all valid and without transactions,
    for which two delivery orders leave nodes that disagree. */
module Divergence {
  import opened Types
  import opened Ledger
  import opened BlockTree
  import opened Chain
  import opened Replay
  import opened NodeProofs
  import opened Runs
  import opened ForkChoice
  import opened Convergence

  /** A block that is valid on any ledger. */
  predicate Empty(c: Crypto, b: Block) { b.transactions == [] && c.powOk(b) }

  /** Position `i` of the chain of blocks over genesis, which itself is position 0. */
  function At(c: Crypto, genesis: Block, a: seq<Block>, i: nat): Hash
    requires i <= |a|
  {
    if i == 0 then HashOf(c, genesis) else HashOf(c, a[i - 1])
  }

  predicate IsChain(c: Crypto, genesis: Block, a: seq<Block>) {
    && (forall i | 0 <= i < |a| :: Empty(c, a[i]) && a[i].header.previousHash == At(c, genesis, a, i))
    && forall i: nat, j: nat | i < j <= |a| :: At(c, genesis, a, i) != At(c, genesis, a, j)
  }

  function ChainWork(genesis: Block, a: seq<Block>, i: nat): nat
    requires i <= |a|
  {
    if i == 0 then BlockWork(genesis.header) else SatAdd(ChainWork(genesis, a, i - 1), BlockWork(a[i - 1].header))
  }

  lemma EmptyApplies(c: Crypto, l: LedgerState, b: Block)
    requires Empty(c, b)
    ensures ApplyTracked(c, l, b, b.header.height) == (l, Ok(EMPTY_DIFF))
  {
  }

  /** An empty child of the tip becomes the tip. */
  lemma ChildBecomesTip(c: Crypto, n: Node, b: Block)
    requires StoreOk(c, n.store) && Empty(c, b) && HashOf(c, b) !in n.store.cache
        && b.header.previousHash == n.store.tip
    requires Acyclic(n.store.cache) && Acyclic(AddBlock(c, n.store, b).0.cache)
    ensures
      var s, s' := n.store, Receive(c, n, b).0.store;
      && s'.tip == HashOf(c, b) && s'.tipWork == SatAdd(s.tipWork, BlockWork(b.header))
      && s'.cache == s.cache[HashOf(c, b) := b]
  {
    hide OrphansOk, RestorableDiffs, ApplyTracked, FindLca, ChainToFork, Reorganise, Acyclic, EntryOk;
    EmptyApplies(c, n.ledger, b);
    TipEntry(c, n.store);
    AddedEntry(c, n.store, b);
    AddBlockKeepsStore(c, n.store, b);
  }

  lemma AtDiffers(c: Crypto, genesis: Block, a: seq<Block>, i: nat, j: nat)
    requires IsChain(c, genesis, a) && i < j <= |a|
    ensures At(c, genesis, a, i) != At(c, genesis, a, j)
  {
  }

  lemma {:induction false} InChainTree(c: Crypto, genesis: Block, a: seq<Block>, i: nat, k: nat)
    requires IsChain(c, genesis, a) && k <= i <= |a|
    ensures
      var t, h := TreeOf(c, genesis, a, i), At(c, genesis, a, k);
      h in t && t[h] == if k == 0 then genesis else a[k - 1]
  {
    hide IsChain;
    if k < i {
      InChainTree(c, genesis, a, i - 1, k);
      AtDiffers(c, genesis, a, k, i);
    }
  }

  lemma {:induction false} NotInChainTree(c: Crypto, genesis: Block, a: seq<Block>, i: nat, h: Hash)
    requires i <= |a| && forall k: nat | k <= i :: At(c, genesis, a, k) != h
    ensures h !in TreeOf(c, genesis, a, i)
  {
    assert At(c, genesis, a, i) != h;
    if i > 0 { NotInChainTree(c, genesis, a, i - 1, h); }
  }

  /** While a chain is delivered in order, the tip is its last block. */
  lemma {:induction false} ChainIsFollowed(c: Crypto, genesis: Block, ledger: LedgerState, a: seq<Block>,
      bs: seq<Block>, nodes: seq<Node>, i: nat)
    requires NoZeroHash(c) && IsGenesis(genesis) && IsChain(c, genesis, a) && a <= bs && i <= |a|
    requires Run(c, genesis, ledger, Deliveries(bs), nodes)
    ensures
      var s := nodes[i].store;
      && StoreOk(c, s) && WellFounded(s.cache) && s.cache == TreeOf(c, genesis, a, i)
      && s.tip == At(c, genesis, a, i) && s.tipWork == ChainWork(genesis, a, i)
  {
    hide StoreOk, Receive, NoZeroHash, Acyclic, Closed, Empty, IsChain, Extends;
    RunKeepsStore(c, genesis, ledger, Deliveries(bs), nodes, i, i);
    TreesAreWellFounded(c, nodes[i].store, nodes[i].store);
    if i > 0 {
      ChainIsFollowed(c, genesis, ledger, a, bs, nodes, i - 1);
      assert Step(c, nodes[i - 1], Deliveries(bs)[i - 1], nodes[i]);
      NextOfChain(c, genesis, a, i - 1);
      ChildBecomesTip(c, nodes[i - 1], a[i - 1]);
    }
  }

  lemma NextOfChain(c: Crypto, genesis: Block, a: seq<Block>, i: nat)
    requires IsChain(c, genesis, a) && i < |a|
    ensures Empty(c, a[i]) && a[i].header.previousHash == At(c, genesis, a, i)
    ensures HashOf(c, a[i]) == At(c, genesis, a, i + 1) && HashOf(c, a[i]) !in TreeOf(c, genesis, a, i)
  {
    hide TreeOf;
    NotInChainTree(c, genesis, a, i, At(c, genesis, a, i + 1));
  }

  lemma {:induction false} ChainAncestors(c: Crypto, genesis: Block, a: seq<Block>, t: Tree, i: nat)
    requires IsChain(c, genesis, a) && IsGenesis(genesis) && WellFounded(t) && i <= |a|
    requires Extends(TreeOf(c, genesis, a, |a|), t)
    ensures At(c, genesis, a, i) in t
    ensures |Ancestors(t, At(c, genesis, a, i))| == i + 1 && Ancestors(t, At(c, genesis, a, i))[i] == HashOf(c, genesis)
  {
    hide Acyclic, TreeOf, Empty, IsChain, Extends, Ancestors;
    ChainLink(c, genesis, a, t, i);
    AncestorsStep(t, At(c, genesis, a, i));
    if i > 0 { ChainAncestors(c, genesis, a, t, i - 1); }
  }

  lemma ChainLink(c: Crypto, genesis: Block, a: seq<Block>, t: Tree, i: nat)
    requires IsChain(c, genesis, a) && IsGenesis(genesis) && i <= |a| && Extends(TreeOf(c, genesis, a, |a|), t)
    ensures At(c, genesis, a, i) in t
    ensures Prev(t, At(c, genesis, a, i)) == if i == 0 then ZERO else At(c, genesis, a, i - 1)
  {
    hide TreeOf, Empty;
    InChainTree(c, genesis, a, |a|, i);
  }

  // ----- Ties

  /** Of two empty children of genesis, the first stays tip unless the second is heavier. */
  lemma FirstChildStays(c: Crypto, genesis: Block, ledger: LedgerState, x: Block, y: Block, nodes: seq<Node>)
    requires NoZeroHash(c) && IsGenesis(genesis) && IsChain(c, genesis, [x]) && IsChain(c, genesis, [y])
    requires HashOf(c, x) != HashOf(c, y) && BlockWork(y.header) <= BlockWork(x.header)
    requires Run(c, genesis, ledger, Deliveries([x, y]), nodes)
    ensures nodes[2].store.tip == HashOf(c, x) && HashOf(c, y) in nodes[2].store.cache
  {
    hide StoreOk, NoZeroHash, Acyclic, Receive;
    ChainIsFollowed(c, genesis, ledger, [x], [x, y], nodes, 1);
    ChildOfGenesis(c, genesis, [x], y, nodes[1]);
    assert Step(c, nodes[1], Deliveries([x, y])[1], nodes[2]);
    assert ChainWork(genesis, [x], 1) == SatAdd(ChainWork(genesis, [x], 0), BlockWork(x.header));
    LighterIsStored(c, nodes[1], y);
  }

  /** What delivering another empty child of genesis meets after a chain. */
  lemma ChildOfGenesis(c: Crypto, genesis: Block, a: seq<Block>, b: Block, n: Node)
    requires StoreOk(c, n.store) && IsGenesis(genesis) && IsChain(c, genesis, a) && IsChain(c, genesis, [b]) && a != []
    requires forall i | 0 <= i < |a| :: HashOf(c, a[i]) != HashOf(c, b)
    requires n.store.cache == TreeOf(c, genesis, a, |a|) && n.store.tip == At(c, genesis, a, |a|)
    ensures
      var s, g, h := n.store, HashOf(c, genesis), HashOf(c, b);
      && Empty(c, b) && b.header.previousHash == g && g in s.cache && h !in s.cache && s.tip != g
      && g in s.blocks && s.blocks[g].accumulatedWork == BlockWork(genesis.header)
      && ChainWork(genesis, [b], 1) == SatAdd(BlockWork(genesis.header), BlockWork(b.header))
  {
    hide StoreOk, TreeOf, Empty;
    assert At(c, genesis, [b], 0) == HashOf(c, genesis) == At(c, genesis, a, 0)
        && At(c, genesis, [b], 1) == HashOf(c, b);
    assert Empty(c, [b][0]);
    InChainTree(c, genesis, a, |a|, 0);
    NotInChainTree(c, genesis, a, |a|, HashOf(c, b));
    GenesisEntry(c, n.store, genesis);
    assert ChainWork(genesis, [b], 1) == SatAdd(ChainWork(genesis, [b], 0), BlockWork([b][0].header));
  }

  /** A block beside the tip that is not heavier is stored and changes nothing else. */
  lemma LighterIsStored(c: Crypto, n: Node, b: Block)
    requires StoreOk(c, n.store) && Empty(c, b) && HashOf(c, b) !in n.store.cache
    requires b.header.previousHash in n.store.blocks && b.header.previousHash != n.store.tip
    requires SatAdd(n.store.blocks[b.header.previousHash].accumulatedWork, BlockWork(b.header)) <= n.store.tipWork
    requires Acyclic(n.store.cache) && Acyclic(AddBlock(c, n.store, b).0.cache)
    ensures
      var s' := Receive(c, n, b).0.store;
      s'.tip == n.store.tip && HashOf(c, b) in s'.cache
  {
    hide OrphansOk, RestorableDiffs, NoZeroHash, EntryOk, FindLca, ChainToFork, Reorganise, ExtendTip, Acyclic;
    AddBlockKeepsStore(c, n.store, b);
    StoredParent(c, n.store, b);
  }

  lemma StoredParent(c: Crypto, s: Store, b: Block)
    requires StoreOk(c, s) && b.header.previousHash in s.blocks && HashOf(c, b) !in s.cache
    ensures
      var (s', r) := AddBlock(c, s, b);
      && r.Ok? && b.header.previousHash in s.cache && b.header.previousHash in s'.blocks
      && s'.blocks[b.header.previousHash] == s.blocks[b.header.previousHash]
  {
  }

  lemma GenesisEntry(c: Crypto, s: Store, genesis: Block)
    requires StoreOk(c, s) && IsGenesis(genesis) && HashOf(c, genesis) in s.cache
        && s.cache[HashOf(c, genesis)] == genesis
    ensures HashOf(c, genesis) in s.blocks && s.blocks[HashOf(c, genesis)].accumulatedWork == BlockWork(genesis.header)
  {
    assert EntryOk(c, s.blocks, s.cache, HashOf(c, genesis), PathWork(s.cache, HashOf(c, genesis)));
    assert BlockWork(genesis.header) <= U128_MAX;
  }

  /** Two equally heavy children of genesis, delivered in both orders, leave different tips for good. */
  lemma TieLeavesTwoTips(c: Crypto, genesis: Block, ledger: LedgerState, x: Block, y: Block, nodes: seq<Node>,
      nodes': seq<Node>)
    requires NoZeroHash(c) && IsGenesis(genesis) && IsChain(c, genesis, [x]) && IsChain(c, genesis, [y])
    requires HashOf(c, x) != HashOf(c, y) && BlockWork(x.header) == BlockWork(y.header)
    requires Run(c, genesis, ledger, Deliveries([x, y]), nodes) && Run(c, genesis, ledger, Deliveries([y, x]), nodes')
    ensures nodes[2].store.tip == HashOf(c, x) && nodes'[2].store.tip == HashOf(c, y)
        && nodes[2].store.tip != nodes'[2].store.tip
  {
    FirstChildStays(c, genesis, ledger, x, y, nodes);
    FirstChildStays(c, genesis, ledger, y, x, nodes');
  }

  // ----- Depth

  /** A heavier block beside the tip whose plan exceeds the cap is stored, and the rest stays as it was. */
  lemma DeepIsRefused(c: Crypto, n: Node, b: Block)
    requires StoreOk(c, n.store) && Empty(c, b) && HashOf(c, b) !in n.store.cache
    requires b.header.previousHash in n.store.blocks && b.header.previousHash != n.store.tip
    requires SatAdd(n.store.blocks[b.header.previousHash].accumulatedWork, BlockWork(b.header)) > n.store.tipWork
    requires Acyclic(n.store.cache) && Acyclic(AddBlock(c, n.store, b).0.cache)
    requires
      var t, fork := AddBlock(c, n.store, b).0.cache, b.header.previousHash;
      FindLca(t, fork, n.store.tip) == Some(fork) && |ChainToFork(t, n.store.tip, fork)| > MAX_REORG
    ensures
      var (n', e) := Receive(c, n, b);
      && e == Some(ReorgTooDeep) && n'.store == AddBlock(c, n.store, b).0
      && HashOf(c, b) in n'.store.blocks
      && n'.store.blocks[HashOf(c, b)].accumulatedWork
         == SatAdd(n.store.blocks[b.header.previousHash].accumulatedWork, BlockWork(b.header))
  {
    hide OrphansOk, RestorableDiffs, NoZeroHash, EntryOk, FindLca, ChainToFork, ReorgInner, ExtendTip, Acyclic, Reverse;
    AddBlockKeepsStore(c, n.store, b);
    StoredParent(c, n.store, b);
  }

  /** A chain longer than the cap, then a single heavier child of genesis: the reorganisation is refused
      although the block is stored, and the tip is not a heaviest block. */
  lemma {:induction false} DeepReorgIsRefused(c: Crypto, genesis: Block, ledger: LedgerState, a: seq<Block>, b: Block,
      nodes: seq<Node>)
    requires NoZeroHash(c) && IsGenesis(genesis) && IsChain(c, genesis, a) && IsChain(c, genesis, [b])
    requires |a| > 100 && forall i | 0 <= i < |a| :: HashOf(c, a[i]) != HashOf(c, b)
    requires ChainWork(genesis, [b], 1) > ChainWork(genesis, a, |a|)
    requires Run(c, genesis, ledger, Deliveries(a + [b]), nodes)
    ensures
      var s := nodes[|a| + 1].store;
      && s.tip == At(c, genesis, a, |a|) && s.tipWork == ChainWork(genesis, a, |a|)
      && HashOf(c, b) in s.blocks && s.blocks[HashOf(c, b)].accumulatedWork == ChainWork(genesis, [b], 1)
          && !Heaviest(s)
  {
    hide StoreOk, NoZeroHash, IsChain, ChainWork, Acyclic, Closed, ChainToFork, Ancestors, FindLca, Receive, Empty,
        TreeOf;
    var n, k := nodes[|a|], |a|;
    ChainIsFollowed(c, genesis, ledger, a, a + [b], nodes, k);
    ChildOfGenesis(c, genesis, a, b, n);
    assert Step(c, n, Deliveries(a + [b])[k], nodes[k + 1]);
    AddBlockKeepsStore(c, n.store, b);
    StoreIsWellFounded(c, AddBlock(c, n.store, b).0);
    LongUnwind(c, genesis, a, AddBlock(c, n.store, b).0.cache);
    DeepIsRefused(c, n, b);
    AddKeepsTip(c, n.store, b);
  }

  lemma AddKeepsTip(c: Crypto, s: Store, b: Block)
    ensures var s' := AddBlock(c, s, b).0; s'.tip == s.tip && s'.tipWork == s.tipWork
  {
  }

  lemma StoreIsWellFounded(c: Crypto, s: Store)
    requires StoreOk(c, s)
    ensures WellFounded(s.cache)
  {
  }

  lemma LongUnwind(c: Crypto, genesis: Block, a: seq<Block>, t: Tree)
    requires IsChain(c, genesis, a) && IsGenesis(genesis) && WellFounded(t) && Extends(TreeOf(c, genesis, a, |a|), t)
    ensures
      var g, tip := HashOf(c, genesis), At(c, genesis, a, |a|);
      FindLca(t, g, tip) == Some(g) && |ChainToFork(t, tip, g)| == |a|
  {
    hide Acyclic, Closed, ChainToFork, TreeOf, Empty;
    var g, tip := HashOf(c, genesis), At(c, genesis, a, |a|);
    ChainAncestors(c, genesis, a, t, 0);
    ChainAncestors(c, genesis, a, t, |a|);
    ChainToForkIsPrefix(t, tip, |a|);
    assert Ancestors(t, g) == [g];
    assert g in Ancestors(t, tip);
  }

  /** The other order never has to reorganise, so the nodes end with tips of different work. */
  lemma {:induction false} RefusedReorgSplits(c: Crypto, genesis: Block, ledger: LedgerState, a: seq<Block>, b: Block,
      nodes: seq<Node>, nodes': seq<Node>)
    requires NoZeroHash(c) && IsGenesis(genesis) && IsChain(c, genesis, a) && IsChain(c, genesis, [b])
    requires |a| > 100 && forall i | 0 <= i < |a| :: HashOf(c, a[i]) != HashOf(c, b)
    requires ChainWork(genesis, [b], 1) > ChainWork(genesis, a, |a|)
    requires Run(c, genesis, ledger, Deliveries(a + [b]), nodes) && Run(c, genesis, ledger, Deliveries([b] + a), nodes')
    ensures nodes[|a| + 1].store.tipWork < nodes'[|a| + 1].store.tipWork
  {
    hide StoreOk, NoZeroHash, Step, IsChain, ChainWork;
    DeepReorgIsRefused(c, genesis, ledger, a, b, nodes);
    ChainIsFollowed(c, genesis, ledger, [b], [b] + a, nodes', 1);
    RunKeepsStore(c, genesis, ledger, Deliveries([b] + a), nodes', 1, |a| + 1);
  }

  // ----- Both families exist

  /** Hashes a header to its nonce, and accepts any proof of work. */
  function Numbered(c: Crypto): Crypto {
    c.(blockHash := (header: BlockHeader) => header.nonce + 1, powOk := (b: Block) => true)
  }

  /** A block without transactions, hashed to `nonce + 1`. */
  function EmptyBlock(previous: Hash, height: u64, difficulty: u64, nonce: u64): Block {
    Block(BlockHeader(1, previous, 0, 0, height, 0, difficulty, 0, 0, 0, 0, 0, nonce, 0, None), [], 0)
  }

  /** Blocks of the least work, each on the one before. */
  function LongChain(n: nat): (a: seq<Block>)
    requires n < 1000
    ensures |a| == n && forall i | 0 <= i < n :: a[i] == EmptyBlock(i + 1, i + 1, U64_LIMIT - 1, i + 1)
  {
    seq(n, i requires 0 <= i < n => EmptyBlock(i + 1, i + 1, U64_LIMIT - 1, i + 1))
  }

  function LightGenesis(): Block { EmptyBlock(ZERO, 0, U64_LIMIT - 1, 0) }

  lemma LongChainAt(c: Crypto, n: nat, i: nat)
    requires i <= n < 1000
    ensures At(Numbered(c), LightGenesis(), LongChain(n), i) == i + 1
  {
    hide LongChain;
  }

  lemma LongChainIsChain(c: Crypto, n: nat)
    requires n < 1000
    ensures IsChain(Numbered(c), LightGenesis(), LongChain(n))
  {
    hide At, LightGenesis, LongChain;
    forall i: nat, j: nat | i < j <= n
      ensures At(Numbered(c), LightGenesis(), LongChain(n), i) != At(Numbered(c), LightGenesis(), LongChain(n), j)
    {
      LongChainAt(c, n, i);
      LongChainAt(c, n, j);
    }
    forall i | 0 <= i < n
      ensures Empty(Numbered(c), LongChain(n)[i])
      ensures LongChain(n)[i].header.previousHash == At(Numbered(c), LightGenesis(), LongChain(n), i)
    {
      LongChainAt(c, n, i);
    }
  }

  lemma LeastWork(previous: Hash, height: u64, nonce: u64)
    ensures BlockWork(EmptyBlock(previous, height, U64_LIMIT - 1, nonce).header) == 1
    ensures BlockWork(EmptyBlock(previous, height, 1, nonce).header) == U64_LIMIT - 1
  {
  }

  lemma {:induction false} LongChainWork(n: nat, i: nat)
    requires i <= n < 1000
    ensures ChainWork(LightGenesis(), LongChain(n), i) == i + 1
  {
    hide BlockWork;
    if i > 0 {
      LongChainWork(n, i - 1);
      LeastWork(i, i, i);
    } else {
      LeastWork(ZERO, 0, 0);
    }
  }

  /** Blocks to which `DeepReorgIsRefused` and `RefusedReorgSplits` apply. */
  lemma DeepFamilyExists(c: Crypto) returns (genesis: Block, a: seq<Block>, b: Block)
    ensures NoZeroHash(Numbered(c)) && IsGenesis(genesis)
    ensures IsChain(Numbered(c), genesis, a) && IsChain(Numbered(c), genesis, [b]) && |a| > 100
    ensures forall i | 0 <= i < |a| :: HashOf(Numbered(c), a[i]) != HashOf(Numbered(c), b)
    ensures ChainWork(genesis, [b], 1) > ChainWork(genesis, a, |a|)
  {
    hide BlockWork, LongChain, IsChain, ChainWork, LightGenesis;
    var n := MAX_REORG + 1;
    genesis, a, b := LightGenesis(), LongChain(n), EmptyBlock(1, 1, 1, 1000);
    LongChainIsChain(c, n);
    HeavyBlock(c, b);
    LongChainWork(n, n);
  }

  lemma HeavyBlock(c: Crypto, b: Block)
    requires b == EmptyBlock(1, 1, 1, 1000)
    ensures NoZeroHash(Numbered(c)) && IsGenesis(LightGenesis()) && IsChain(Numbered(c), LightGenesis(), [b])
    ensures ChainWork(LightGenesis(), [b], 1) == U64_LIMIT
  {
    hide BlockWork;
    LeastWork(ZERO, 0, 0);
    LeastWork(1, 1, 1000);
    assert ChainWork(LightGenesis(), [b], 1) == SatAdd(ChainWork(LightGenesis(), [b], 0), BlockWork(b.header));
  }

  /** Blocks to which `TieLeavesTwoTips` applies. */
  lemma TieExists(c: Crypto) returns (genesis: Block, x: Block, y: Block)
    ensures NoZeroHash(Numbered(c)) && IsGenesis(genesis)
    ensures IsChain(Numbered(c), genesis, [x]) && IsChain(Numbered(c), genesis, [y])
    ensures HashOf(Numbered(c), x) != HashOf(Numbered(c), y) && BlockWork(x.header) == BlockWork(y.header)
  {
    genesis, x, y := LightGenesis(), EmptyBlock(1, 1, 1, 1), EmptyBlock(1, 1, 1, 2);
  }
}
