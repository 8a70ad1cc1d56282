/** Rebuilding the block store from the block log after a restart. The log is a sequence of blocks;
    an exit of the process is an error result, and the store that is still empty is `null`. */
module Rebuild {
  import opened Types
  import opened Ledger
  import opened BlockTree
  import opened Chain
  import opened Replay
  import opened Runs
  import opened ForkChoice
  import opened Convergence
  import opened Merkle
  import ChainStores

  type ChainStore? = ChainStores.ChainStore?

  /** A log as an undisturbed node writes it: genesis, then intact blocks after their parents. */
  predicate CleanLog(c: Crypto, pair: PairHash, log: seq<Block>) {
    && log != [] && IsGenesis(log[0])
    && ParentFirst(c, log[0], log[1..])
    && (forall i | 0 <= i < |log| :: Intact(c, pair, log[i]))
    && forall i | 0 < i < |log| :: log[i].header.height > 0
  }

  predicate FromLog(c: Crypto, log: seq<Block>, n: nat, h: Hash)
    requires n <= |log|
  {
    exists i :: 0 <= i < n && HashOf(c, log[i]) == h
  }

  predicate AllFromLog(c: Crypto, log: seq<Block>, n: nat, s: Store)
    requires n <= |log|
  {
    forall h | h in s.blocks :: FromLog(c, log, n, h)
  }

  lemma NextFromLog(c: Crypto, log: seq<Block>, i: nat, s: Store, s': Store)
    requires i < |log| && AllFromLog(c, log, i, s)
    requires forall h | h in s'.blocks :: h in s.blocks || h == HashOf(c, log[i])
    ensures AllFromLog(c, log, i + 1, s')
  {
  }

  lemma GenesisOnly(c: Crypto, log: seq<Block>, i: nat)
    requires i < |log|
    ensures AllFromLog(c, log, i + 1, NewStore(c, log[i]))
  {
    assert FromLog(c, log, i + 1, HashOf(c, log[i]));
  }

  /** On a clean log, the step for block `i` adds it to the tree. */
  lemma CleanStep(c: Crypto, pair: PairHash, log: seq<Block>, i: nat, s: Store)
    requires CleanLog(c, pair, log) && 0 < i < |log| && StoreOk(c, s) && s.cache == TreeOf(c, log[0], log[1..], i - 1)
    ensures
      var h, b := HashOf(c, log[i]), log[i];
      && (h in s.cache ==> s.cache == TreeOf(c, log[0], log[1..], i))
      && (h !in s.cache ==>
            && b.header.height > 0 && b.header.previousHash in s.cache
            && AddBlock(c, s, b).0.cache == TreeOf(c, log[0], log[1..], i))
  {
    hide Intact, StoreOk;
    var bs := log[1..];
    assert bs[i - 1] == log[i];
    assert Deliverable(c, log[0], bs, i - 1);
    StoredAreEntered(c, s);
    TreeOfMembers(c, log[0], bs, i - 1, HashOf(c, log[i]));
    if HashOf(c, log[i]) in s.cache {
      assert s.cache[HashOf(c, log[i])] == log[i];
    }
  }

  /** The rebuilt store is in order and its tip is a heaviest stored block; from a clean log, its tree is
      exactly the log. */
  method RebuildChainStore(c: Crypto, pair: PairHash, log: seq<Block>)
    returns (halted: Option<Error>, store: ChainStore?)
    requires NoZeroHash(c)
    requires forall i | 0 <= i < |log| && log[i].header.height == 0 :: log[i].header.previousHash == ZERO
    ensures halted == None && store != null ==>
              fresh(store) && store.c == c && store.Valid() && Heaviest(store.Value())
                  && AllFromLog(c, log, |log|, store.Value())
    ensures halted == None && store != null && (exists h | h in store.blocks :: store.blocks[h].accumulatedWork > 0) ==>
              TipIsFirst(c, log, store.Value())
    ensures halted == None ==> forall i | 0 <= i < |log| :: Intact(c, pair, log[i])
    ensures CleanLog(c, pair, log) ==>
              halted == None && store != null && store.blockCache == TreeOf(c, log[0], log[1..], |log| - 1)
  {
    hide StoreOk, Intact, TreeOf, ParentFirst, AllFromLog, NoZeroHash;
    halted, store := None, null;
    for i := 0 to |log|
      invariant i == 0 ==> store == null
      invariant store != null ==> fresh(store) && store.c == c && store.Valid() && AllFromLog(c, log, i, store.Value())
      invariant forall j | 0 <= j < i :: Intact(c, pair, log[j])
      invariant CleanLog(c, pair, log) && i > 0 ==>
                  store != null && store.blockCache == TreeOf(c, log[0], log[1..], i - 1)
    {
      var block := log[i];
      var e := ValidateBlockIntegrity(c, pair, block);
      if e.Some? { return e, store; }
      var hash, prev := HashOf(c, block), block.header.previousHash;
      if store != null && CleanLog(c, pair, log) && i > 0 { CleanStep(c, pair, log, i, store.Value()); }
      if store == null || hash !in store.blockCache {
        if block.header.height == 0 {
          store := new ChainStores.ChainStore(c, block);
          GenesisOnly(c, log, i);
          FirstTree(c, pair, log);
        } else if prev == ZERO || (store != null && prev in store.blockCache) {
          // Refused, without a trace, if the parent is not stored.
          if store != null {
            ghost var before := store.Value();
            var _ := store.AddBlock(block);
            NextFromLog(c, log, i, before, store.Value());
          }
        } else {
          return Some(ParentLost), store;
        }
      } else {
        NextFromLog(c, log, i, store.Value(), store.Value());
      }
    }
    if store != null { PickHeaviest(store, log); }
  }

  lemma FirstTree(c: Crypto, pair: PairHash, log: seq<Block>)
    requires log != []
    ensures NewStore(c, log[0]).cache == TreeOf(c, log[0], log[1..], 0)
  {
  }

  /** Moves the tip to the first of the heaviest stored blocks, in the order of the log. */
  method PickHeaviest(store: ChainStores.ChainStore, log: seq<Block>)
    requires store.Valid() && AllFromLog(store.c, log, |log|, store.Value())
    modifies store
    ensures store.Valid() && Heaviest(store.Value()) && AllFromLog(store.c, log, |log|, store.Value())
    ensures store.blockCache == old(store.blockCache)
    ensures (exists h | h in store.blocks :: store.blocks[h].accumulatedWork > 0)
        ==> TipIsFirst(store.c, log, store.Value())
  {
    hide BlocksOk, OrphansOk, RestorableDiffs, AllFromLog;
    var bestHash, bestWork := ZERO, 0;
    ghost var first := 0;
    for i := 0 to |log|
      invariant forall j | 0 <= j < i :: HashOf(store.c, log[j]) in store.blocks ==>
                  store.blocks[HashOf(store.c, log[j])].accumulatedWork <= bestWork
      invariant if bestWork == 0 then bestHash == ZERO
                else bestHash in store.blocks && bestHash != ZERO && store.blocks[bestHash].accumulatedWork == bestWork
      invariant 0 <= first <= i
      invariant bestWork > 0 ==> first < i && HashOf(store.c, log[first]) == bestHash
      invariant forall j | 0 <= j < first :: HashOf(store.c, log[j]) in store.blocks ==>
                  store.blocks[HashOf(store.c, log[j])].accumulatedWork < bestWork
    {
      var h := HashOf(store.c, log[i]);
      if h in store.blocks && store.blocks[h].accumulatedWork > bestWork {
        bestWork, bestHash, first := store.blocks[h].accumulatedWork, h, i;
      }
    }
    LogBounds(store.c, log, store.Value(), bestWork);
    ghost var before := store.Value();
    if bestHash != ZERO { var _ := store.SetChainTip(bestHash); }
    SameFromLog(store.c, log, before, store.Value());
    if bestHash != ZERO { assert FirstAt(store.c, log, store.Value(), first); }
  }

  lemma SameFromLog(c: Crypto, log: seq<Block>, s: Store, s': Store)
    requires AllFromLog(c, log, |log|, s) && s'.blocks == s.blocks
    ensures AllFromLog(c, log, |log|, s')
  {
  }

  lemma LogBounds(c: Crypto, log: seq<Block>, s: Store, bound: nat)
    requires AllFromLog(c, log, |log|, s)
    requires forall j | 0 <= j < |log| ::
               HashOf(c, log[j]) in s.blocks ==> s.blocks[HashOf(c, log[j])].accumulatedWork <= bound
    ensures forall h | h in s.blocks :: s.blocks[h].accumulatedWork <= bound
  {
  }

  /** Restarted from the log of a run in which no block was rejected, a node has the same tree, the same
      work and, where every block adds work, the same tip, also among equally heavy ones. */
  lemma RestartAgrees(c: Crypto, genesis: Block, ledger: LedgerState, bs: seq<Block>, nodes: seq<Node>, s: Store)
    requires NoZeroHash(c) && IsGenesis(genesis) && ParentFirst(c, genesis, bs)
    requires Run(c, genesis, ledger, Deliveries(bs), nodes) && NoneRejected(c, bs, nodes)
    requires StoreOk(c, s) && Heaviest(s) && s.cache == TreeOf(c, genesis, bs, |bs|)
    requires (exists h | h in s.blocks :: s.blocks[h].accumulatedWork > 0) ==> TipIsFirst(c, [genesis] + bs, s)
    ensures s.blocks == nodes[|bs|].store.blocks && s.tipWork == nodes[|bs|].store.tipWork
    ensures WorkGrows(s.cache) ==> s.tip == nodes[|bs|].store.tip
  {
    hide StoreOk, NoZeroHash, NoCollisions, Deliverable, NoneRejected, TreeOf, WorkGrows, TipIsFirst, Step;
    var n := nodes[|bs|];
    DeliveredTree(c, genesis, ledger, bs, nodes, |bs|);
    TipIsHeaviest(c, genesis, ledger, bs, nodes, |bs|);
    RunKeepsStore(c, genesis, ledger, Deliveries(bs), nodes, |bs|, |bs|);
    SameTreeSameBlocks(c, s, n.store);
    if WorkGrows(s.cache) {
      TipIsFirstHeaviest(c, genesis, ledger, bs, nodes, |bs|);
      assert bs[..|bs|] == bs;
      GrowingHasWork(c, s);
      TipIsOk(c, s);
      TipIsOk(c, n.store);
      FirstIsUnique(c, [genesis] + bs, s, n.store);
    }
  }

  lemma TipIsOk(c: Crypto, s: Store)
    requires StoreOk(c, s)
    ensures TipOk(s)
  {
  }

  lemma GrowingHasWork(c: Crypto, s: Store)
    requires StoreOk(c, s) && WorkGrows(s.cache)
    ensures exists h | h in s.blocks :: s.blocks[h].accumulatedWork > 0
  {
    assert EntryOk(c, s.blocks, s.cache, s.tip, PathWork(s.cache, s.tip));
    assert s.blocks[s.tip].accumulatedWork > 0;
  }
}
