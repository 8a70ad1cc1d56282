/** Fork decision, reorganisation with rollback, and the receive step, on the mutable store and
    UTXO set. */
module NodeStep {
  import opened Types
  import opened Ledger
  import opened BlockTree
  import opened Chain
  import opened Replay
  import NodeProofs
  import Arrivals
  import ChainStores
  import UtxoSets

  type ChainStore = ChainStores.ChainStore
  type UtxoSet = UtxoSets.UtxoSet

  method AnalyzeFork(block: Block, store: ChainStore) returns (decision: ForkDecision)
    requires store.Valid()
    ensures decision == Chain.AnalyzeFork(store.c, store.Value(), block)
  {
    hide StoreOk, Acyclic, Ancestors, ChainToFork;
    ChainStores.TreeIsWellFounded(store.c, store.Value());
    var hash, prevHash := HashOf(store.c, block), block.header.previousHash;
    if prevHash !in store.blockCache {
      return if block.header.height == 0 then Reject else Orphan;
    }
    if prevHash == store.chainTip { return ExtendCanonical; }
    var parentWork := if prevHash in store.blocks then store.blocks[prevHash].accumulatedWork else 0;
    var newWork := SatAdd(parentWork, BlockWork(block.header));
    if newWork > store.tipWork {
      var fork := store.FindLca(prevHash, store.chainTip);
      if fork.Some? {
        var toUnwind := store.GetChainToFork(store.chainTip, fork.value);
        var toApply := store.GetChainToFork(prevHash, fork.value);
        return ReorgToNew(toUnwind, Reverse(toApply) + [hash]);
      }
    }
    return Sidechain;
  }

  /** The diff of a block loaded without one, made up from its transactions. */
  method BuildFallbackDiff(c: Crypto, block: Block) returns (d: BlockDiff)
    ensures d == FallbackDiff(c, block.transactions, |block.transactions|)
    ensures Restorable(d)
  {
    d := EMPTY_DIFF;
    var txs := block.transactions;
    for i := 0 to |txs|
      invariant d == FallbackDiff(c, txs, i) && d.consumed == map[]
    {
      d := d.(created := d.created + OutputKeys(TxHash(c, txs[i]), |txs[i].outputs|));
      if i == 0 {
        d := d.(supplyDelta := d.supplyDelta + CoinbaseAmount(txs[i]));
      } else {
        d := d.(keyImages := d.keyImages
                             + seq(|txs[i].inputs|, k requires 0 <= k < |txs[i].inputs| => txs[i].inputs[k].keyImage));
      }
    }
  }

  method UnwindBlocks(toUnwind: seq<Hash>, store: ChainStore, state: UtxoSet) returns (e: Option<Error>)
    requires store.Valid()
    modifies state
    ensures
      match UnwindFrom(store.c, store.Value(), old(state.Value()), toUnwind, 0)
      case Ok(l) => e == None && state.Value() == l
      case Err(err) => e == Some(err)
  {
    hide Unwind, BlocksOk, OrphansOk, Restorable;
    for i := 0 to |toUnwind|
      invariant UnwindFrom(store.c, store.Value(), old(state.Value()), toUnwind, 0)
             == UnwindFrom(store.c, store.Value(), state.Value(), toUnwind, i)
    {
      var hash := toUnwind[i];
      if hash !in store.blockCache { return Some(BlockMissingInUnwind); }
      var diff;
      if hash in store.blockDiffs {
        diff := store.blockDiffs[hash];
      } else {
        diff := BuildFallbackDiff(store.c, store.blockCache[hash]);
      }
      state.UnwindWithDiff(diff);
    }
    return None;
  }

  method ApplyBlocks(toApply: seq<Hash>, store: ChainStore, state: UtxoSet) returns (e: Option<Error>)
    requires store.Valid()
    modifies state, store
    ensures store.Valid()
    ensures Applied(store.Value(), state.Value(), e) == ApplyPath(store.c, old(store.Value()), old(state.Value()),
        toApply, 0)
  {
    hide ApplyTracked, StoreOk, Restorable;
    for i := 0 to |toApply|
      invariant store.Valid()
      invariant ApplyPath(store.c, old(store.Value()), old(state.Value()), toApply, 0)
             == ApplyPath(store.c, store.Value(), state.Value(), toApply, i)
    {
      var hash := toApply[i];
      if hash !in store.blockCache { return Some(BlockMissingInApply); }
      var block := store.blockCache[hash];
      NodeProofs.TrackedDiffIsRestorable(store.c, state.Value(), block);
      var diff := state.ApplyBlockAndTrack(store.c, block, block.header.height);
      if diff.Err? { return Some(diff.error); }
      store.StoreDiff(hash, diff.value);
    }
    return None;
  }

  method IsInNewChain(c: Crypto, toApply: seq<Hash>, store: ChainStore, h: Hash) returns (found: bool)
    ensures found == InNewChain(c, store.Value(), toApply, h)
  {
    for i := 0 to |toApply|
      invariant !InNewChain(c, store.Value(), toApply[..i], h)
    {
      if toApply[i] in store.blockCache {
        var txs := store.blockCache[toApply[i]].transactions;
        for k := 0 to |txs|
          invariant forall m | 0 <= m < k :: TxHash(c, txs[m]) != h
        {
          if TxHash(c, txs[k]) == h {
            assert toApply[i] in store.Value().cache;
            return true;
          }
        }
      }
      assert toApply[..i + 1] == toApply[..i] + [toApply[i]];
    }
    assert toApply[..|toApply|] == toApply;
    return false;
  }

  /** The transactions of the unwound blocks to return to the memory pool. */
  method CollectResurrected(toUnwind: seq<Hash>, toApply: seq<Hash>, store: ChainStore, state: UtxoSet)
    returns (hashes: seq<Hash>)
    ensures hashes == Resurrect(store.c, store.Value(), state.Value(), toApply, toUnwind, |toUnwind|)
  {
    hide InNewChain;
    hashes := [];
    var c := store.c;
    for i := 0 to |toUnwind|
      invariant hashes == Resurrect(c, store.Value(), state.Value(), toApply, toUnwind, i)
    {
      if toUnwind[i] in store.blockCache {
        var txs := store.blockCache[toUnwind[i]].transactions;
        var fromBlock := [];
        for k := 0 to |txs|
          invariant fromBlock == ResurrectBlock(c, store.Value(), state.Value(), toApply, txs, k)
        {
          var tx := txs[k];
          if k > 0 && tx.inputs != [] {
            var allStillSpent := forall m | 0 <= m < |tx.inputs| :: tx.inputs[m].keyImage in state.spentKeyImages;
            if !allStillSpent {
              var already := IsInNewChain(c, toApply, store, TxHash(c, tx));
              if !already { fromBlock := fromBlock + [TxHash(c, tx)]; }
            }
          }
        }
        hashes := hashes + fromBlock;
      }
    }
  }

  /** Unwinds, applies, moves the tip. On an error both objects may be left half-way. */
  method ExecuteReorgInner(toUnwind: seq<Hash>, toApply: seq<Hash>, store: ChainStore, state: UtxoSet)
    returns (r: Result<seq<Hash>>)
    requires store.Valid()
    modifies store, state
    ensures store.Valid()
    ensures
      var (n', r') := ReorgInner(store.c, Node(old(store.Value()), old(state.Value())), toUnwind, toApply);
      r == r' && (r.Ok? ==> Node(store.Value(), state.Value()) == n')
  {
    hide UnwindFrom, ApplyPath, StoreOk, Resurrect;
    var e := UnwindBlocks(toUnwind, store, state);
    if e.Some? { return Err(e.value); }
    e := ApplyBlocks(toApply, store, state);
    if e.Some? { return Err(e.value); }
    if toApply == [] { return Err(NothingToApply); }
    e := store.SetChainTip(toApply[|toApply| - 1]);
    if e.Some? { return Err(e.value); }
    var resurrect := CollectResurrected(toUnwind, toApply, store, state);
    return Ok(resurrect);
  }

  /** The reorganisation, with both objects put back to their snapshots on an error. */
  method ExecuteReorg(toUnwind: seq<Hash>, toApply: seq<Hash>, store: ChainStore, state: UtxoSet)
    returns (r: Result<seq<Hash>>)
    requires store.Valid()
    modifies store, state
    ensures store.Valid()
    ensures (Node(store.Value(), state.Value()), r)
         == Reorganise(store.c, Node(old(store.Value()), old(state.Value())), toUnwind, toApply)
  {
    hide ReorgInner, StoreOk;
    if |toUnwind| > MAX_REORG || |toApply| > MAX_REORG { return Err(ReorgTooDeep); }
    var (utxos, images, supply) := (state.utxos, state.spentKeyImages, state.totalSupply);
    var (blocks, cache, diffs, tip) := (store.blocks, store.blockCache, store.blockDiffs, store.chainTip);
    var (orphans, order, height, work) := (store.orphans, store.orphanOrder, store.tipHeight, store.tipWork);
    NodeProofs.FailedReorgIsIdentity(store.c, Node(store.Value(), state.Value()), toUnwind, toApply);
    r := ExecuteReorgInner(toUnwind, toApply, store, state);
    if r.Err? {
      state.utxos, state.spentKeyImages, state.totalSupply := utxos, images, supply;
      store.Restore(blocks, cache, diffs, tip, orphans, order, height, work);
    }
  }

  /** A block arrives from a peer. */
  method ValidateAndApplyBlock(block: Block, state: UtxoSet, store: ChainStore) returns (e: Option<Error>)
    requires store.Valid()
    modifies state, store
    ensures store.Valid()
    ensures Acyclic(Chain.AddBlock(store.c, old(store.Value()), block).0.cache)
    ensures (Node(store.Value(), state.Value()), e)
         == Receive(store.c, Node(old(store.Value()), old(state.Value())), block)
    ensures e == Some(BadProofOfWork) <==> !store.c.powOk(block)
    ensures e == Some(BadProofOfWork) ==> store.Value() == old(store.Value()) && state.Value() == old(state.Value())
  {
    hide StoreOk, Acyclic, ApplyTracked, Reorganise, Ancestors, ChainToFork;
    Arrivals.ArrivalExactly(store.c, Node(store.Value(), state.Value()), block);
    var c, height, hash := store.c, block.header.height, HashOf(store.c, block);
    NodeProofs.AddBlockIsAcyclic(c, store.Value(), block);
    if !c.powOk(block) { return Some(BadProofOfWork); }
    if block.header.previousHash !in store.blockCache && height > 0 {
      store.AddOrphan(block);
      return None;
    }
    if hash in store.blockCache { return Some(DuplicateBlock); }
    var added := store.AddBlock(block);
    if added.Err? { return Some(added.error); }
    var decision := AnalyzeFork(block, store);
    match decision {
      case ExtendCanonical =>
        NodeProofs.TrackedDiffIsRestorable(c, state.Value(), block);
        var diff := state.ApplyBlockAndTrack(c, block, height);
        if diff.Err? { return Some(diff.error); }
        store.StoreDiff(hash, diff.value);
        var ignored := store.SetChainTip(hash);
      case ReorgToNew(toUnwind, toApply) =>
        var resurrected := ExecuteReorg(toUnwind, toApply, store, state);
        if resurrected.Err? { return Some(resurrected.error); }
      case Sidechain =>
      case Orphan =>
      case Reject => return Some(BlockRejected);
    }
    return None;
  }
}
