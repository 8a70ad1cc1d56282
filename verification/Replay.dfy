/** The plain replay of the blocks from genesis to a given block, and what a node must satisfy to
    agree with it. */
module Replay {
  import opened Types
  import opened Ledger
  import opened LedgerProofs
  import opened BlockTree
  import opened Chain

  /** Where a node starts: the genesis block, its hash, and the ledger that goes with it. */
  datatype Origin = Origin(c: Crypto, genesis: Hash, ledger: LedgerState)

  /** The ledger after the blocks above genesis up to `h`, or none if one of them does not apply. */
  ghost function ReplayTo(o: Origin, t: Tree, h: Hash): Option<LedgerState>
    requires Acyclic(t)
    decreases Depth(t, h)
  {
    if h == o.genesis then Some(o.ledger)
    else if h !in t || Prev(t, h) == ZERO then None
    else match ReplayTo(o, t, Prev(t, h))
      case None => None
      case Some(l) => ReplayBlock(o.c, l, t[h])
  }

  ghost function ReplayBlock(c: Crypto, l: LedgerState, b: Block): Option<LedgerState> {
    var (l', r) := ApplyTracked(c, l, b, b.header.height);
    if r.Ok? then Some(l') else None
  }

  lemma {:induction false} ReplayExtend(o: Origin, t: Tree, t': Tree, h: Hash)
    requires WellFounded(t) && WellFounded(t') && Extends(t, t') && h in t
    ensures ReplayTo(o, t', h) == ReplayTo(o, t, h)
    decreases Depth(t, h)
  {
    hide ReplayBlock;
    if h != o.genesis && Prev(t, h) != ZERO { ReplayExtend(o, t, t', Prev(t, h)); }
  }

  /** The replay reaches `h` through the replay of its parent. */
  predicate HasParent(o: Origin, t: Tree, h: Hash) {
    h in t && h != o.genesis && Prev(t, h) != ZERO
  }

  /** On every branch, each block that is reached by a successful replay is reversible there. */
  ghost predicate SafeTree(o: Origin, t: Tree) {
    Acyclic(t) && forall h | h in t :: SafeBlock(o, t, h)
  }

  ghost predicate SafeBlock(o: Origin, t: Tree, h: Hash)
    requires Acyclic(t)
  {
    HasParent(o, t, h) && ReplayTo(o, t, Prev(t, h)).Some? ==>
      Reversible(o.c, ReplayTo(o, t, Prev(t, h)).value, t[h].transactions)
  }

  /** The blocks that the decision on a stored block undertakes to apply are reversible where they apply. */
  ghost predicate SafeDecision(o: Origin, s: Store, b: Block)
    requires Acyclic(s.cache)
  {
    match AnalyzeFork(o.c, s, b)
    case ExtendCanonical => SafeBlock(o, s.cache, HashOf(o.c, b))
    case ReorgToNew(unwind, apply) =>
      |unwind| <= MAX_REORG && |apply| <= MAX_REORG ==> forall h | h in apply :: SafeBlock(o, s.cache, h)
    case _ => true
  }

  lemma SafeSubtree(o: Origin, t: Tree, t': Tree)
    requires WellFounded(t) && WellFounded(t') && Extends(t, t') && SafeTree(o, t')
    ensures SafeTree(o, t)
  {
    hide ReplayTo;
    forall h | h in t
      ensures SafeBlock(o, t, h)
    {
      assert SafeBlock(o, t', h);
      if HasParent(o, t, h) { ReplayExtend(o, t, t', Prev(t, h)); }
    }
  }

  // ----- A node that agrees with the replay

  predicate EntryOk(c: Crypto, blocks: map<Hash, BlockEntry>, t: Tree, h: Hash, work: nat)
    requires h in t && h in blocks
  {
    HashOf(c, t[h]) == h && blocks[h] == BlockEntry(t[h].header.height, Min(U128_MAX, work))
  }

  /** Both maps hold the same blocks, under their hashes, with their accumulated work. */
  ghost predicate BlocksOk(c: Crypto, blocks: map<Hash, BlockEntry>, t: Tree) {
    && WellFounded(t)
    && blocks.Keys == t.Keys
    && forall h | h in t :: EntryOk(c, blocks, t, h, PathWork(t, h))
  }

  predicate TipOk(s: Store) {
    s.tip in s.blocks && s.blocks[s.tip] == BlockEntry(s.tipHeight, s.tipWork)
  }

  /** The queue lists the orphans once each, under their hashes, and there is room for them. */
  predicate OrphansOk(c: Crypto, orphans: map<Hash, Block>, order: seq<Hash>) {
    && (forall h | h in orphans :: h in order && HashOf(c, orphans[h]) == h)
    && (forall h | h in order :: h in orphans)
    && (forall i, j | 0 <= i < j < |order| :: order[i] != order[j])
    && |orphans| <= MAX_ORPHANS
  }

  ghost predicate NoZeroHash(c: Crypto) { forall hd :: c.blockHash(hd) != ZERO }

  ghost predicate RestorableDiffs(diffs: map<Hash, BlockDiff>) {
    forall h | h in diffs :: Restorable(diffs[h])
  }

  /** What every operation on the store keeps. */
  ghost predicate StoreOk(c: Crypto, s: Store) {
    && NoZeroHash(c)
    && BlocksOk(c, s.blocks, s.cache)
    && TipOk(s)
    && OrphansOk(c, s.orphans, s.orphanOrder)
    && RestorableDiffs(s.diffs)
  }

  /** A stored diff is the one the replay of its block produces, and unwinds that block. */
  ghost predicate DiffOk(o: Origin, t: Tree, h: Hash, d: BlockDiff)
    requires Acyclic(t)
  {
    && HasParent(o, t, h)
    && ReplayTo(o, t, Prev(t, h)).Some?
    && var l := ReplayTo(o, t, Prev(t, h)).value;
       var (l', r) := ApplyTracked(o.c, l, t[h], t[h].header.height);
       r == Ok(d) && Unwind(l', d) == l
  }

  ghost predicate DiffsOk(o: Origin, s: Store)
    requires Acyclic(s.cache)
  {
    forall h | h in s.diffs && h != o.genesis :: DiffOk(o, s.cache, h, s.diffs[h])
  }

  /** The tip descends from genesis, every block on the way has its diff, and the ledger is the replay. */
  ghost predicate LedgerOk(o: Origin, n: Node)
    requires Acyclic(n.store.cache)
  {
    var t, tip := n.store.cache, n.store.tip;
    && o.genesis in Ancestors(t, tip)
    && (forall h | h in Ancestors(t, tip) && h != o.genesis :: h in n.store.diffs)
    && ReplayTo(o, t, tip) == Some(n.ledger)
  }

  predicate GenesisOk(o: Origin, t: Tree) {
    o.genesis in t && Prev(t, o.genesis) == ZERO
  }

  ghost predicate NodeOk(o: Origin, n: Node) {
    StoreOk(o.c, n.store) && GenesisOk(o, n.store.cache) && DiffsOk(o, n.store) && LedgerOk(o, n)
  }

  lemma StartIsOk(c: Crypto, genesis: Block, ledger: LedgerState)
    requires genesis.header.previousHash == ZERO && genesis.header.height == 0 && NoZeroHash(c)
    ensures NodeOk(Origin(c, HashOf(c, genesis), ledger), Node(NewStore(c, genesis), ledger))
  {
    var s := NewStore(c, genesis);
    RootIsWellFounded(s.tip, genesis);
    assert BlockWork(genesis.header) <= U128_MAX;
  }

  // ----- Insertion keeps it

  lemma AddBlockKeepsBlocks(c: Crypto, s: Store, b: Block)
    requires BlocksOk(c, s.blocks, s.cache) && AddBlock(c, s, b).1.Ok? && NoZeroHash(c)
    ensures
      var s', h := AddBlock(c, s, b).0, HashOf(c, b);
      BlocksOk(c, s'.blocks, s'.cache) && h !in s.cache && s'.cache == s.cache[h := b] && Extends(s.cache, s'.cache)
  {
    var s', h := AddBlock(c, s, b).0, HashOf(c, b);
    InsertIsWellFounded(s.cache, h, b);
    forall x | x in s'.cache
      ensures EntryOk(c, s'.blocks, s'.cache, x, PathWork(s'.cache, x))
    {
      if x != h {
        assert EntryOk(c, s.blocks, s.cache, x, PathWork(s.cache, x));
        PathWorkExtend(s.cache, s'.cache, x);
      } else if Prev(s'.cache, h) in s.cache {
        assert EntryOk(c, s.blocks, s.cache, Prev(s'.cache, h), PathWork(s.cache, Prev(s'.cache, h)));
        PathWorkExtend(s.cache, s'.cache, Prev(s'.cache, h));
      }
    }
  }

  lemma AddBlockKeepsStore(c: Crypto, s: Store, b: Block)
    requires StoreOk(c, s)
    ensures
      var (s', r) := AddBlock(c, s, b);
      && StoreOk(c, s') && Extends(s.cache, s'.cache)
      && (r.Ok? ==> HashOf(c, b) !in s.cache && s'.cache == s.cache[HashOf(c, b) := b])
      && (r.Err? ==> s' == s)
  {
    hide BlocksOk, OrphansOk, NoZeroHash, RestorableDiffs;
    if AddBlock(c, s, b).1.Ok? {
      AddBlockKeepsBlocks(c, s, b);
    }
  }

  /** What a node knows about its ledger survives any growth of the tree. */
  lemma ExtendKeepsLedger(o: Origin, n: Node, s': Store)
    requires NodeOk(o, n) && StoreOk(o.c, s') && Extends(n.store.cache, s'.cache)
    requires s'.diffs == n.store.diffs && s'.tip == n.store.tip
    ensures NodeOk(o, n.(store := s'))
  {
    hide Acyclic, ReplayTo, Ancestors, EntryOk, OrphansOk, RestorableDiffs, NoZeroHash;
    var t, t' := n.store.cache, s'.cache;
    forall h | h in s'.diffs && h != o.genesis
      ensures DiffOk(o, t', h, s'.diffs[h])
    {
      assert DiffOk(o, t, h, n.store.diffs[h]);
      ReplayExtend(o, t, t', Prev(t, h));
    }
    ReplayExtend(o, t, t', n.store.tip);
    AncestorsExtend(t, t', n.store.tip);
  }

  lemma AddBlockKeeps(o: Origin, n: Node, b: Block)
    requires NodeOk(o, n)
    ensures NodeOk(o, n.(store := AddBlock(o.c, n.store, b).0))
  {
    hide StoreOk, DiffsOk, LedgerOk, GenesisOk;
    AddBlockKeepsStore(o.c, n.store, b);
    ExtendKeepsLedger(o, n, AddBlock(o.c, n.store, b).0);
  }
}
