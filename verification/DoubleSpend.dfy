/** No key image is spent twice on any chain, and the ledger knows exactly the images that the current
    chain has spent, also after reorganisations. */
module DoubleSpend {
  import opened Types
  import opened Ledger
  import opened LedgerProofs
  import opened BlockTree
  import opened Chain
  import opened Replay
  import opened Runs

  function TxImages(tx: Transaction): set<Bytes32> { LedgerProofs.ImagesOf(tx.inputs, |tx.inputs|) }

  predicate UsedFrom(txs: seq<Transaction>, i: nat, ki: Bytes32) {
    exists s | i <= s < |txs| :: 0 < s && ki in TxImages(txs[s])
  }

  /** From `i` on, no transaction shares an image with the set or with another transaction. */
  predicate SpendsOnce(txs: seq<Transaction>, i: nat, spent: set<Bytes32>) {
    && (forall s | i <= s < |txs| && 0 < s :: TxImages(txs[s]) !! spent)
    && forall s, t | i <= s < t < |txs| && 0 < s :: TxImages(txs[s]) !! TxImages(txs[t])
  }

  lemma ApplyTxSpends(c: Crypto, l: LedgerState, d: BlockDiff, tx: Transaction, idx: nat, height: u64)
    requires ApplyTx(c, l, d, tx, idx, height).error.None?
    ensures ApplyTx(c, l, d, tx, idx, height).ledger.spent == if idx == 0 then l.spent else l.spent + TxImages(tx)
    ensures idx > 0 ==> TxImages(tx) !! l.spent
  {
    hide CheckSpend, CheckCoinbase, Preimage, AddOutputs;
    if idx > 0 {
      InputSumOk(l, tx.inputs, 0, 0, true);
      SpendAllSpent(l, tx.inputs, |tx.inputs|);
    }
  }

  lemma {:induction false} BlockSpendsOnce(c: Crypto, l: LedgerState, d: BlockDiff, txs: seq<Transaction>,
      height: u64, i: nat)
    requires i <= |txs| && ApplyFrom(c, l, d, txs, height, i).error.None?
    ensures
      var spent := ApplyFrom(c, l, d, txs, height, i).ledger.spent;
      SpendsOnce(txs, i, l.spent) && forall ki :: ki in spent <==> ki in l.spent || UsedFrom(txs, i, ki)
    decreases |txs| - i
  {
    hide ApplyTx, TxImages, SpendsOnce, UsedFrom;
    if i == |txs| {
      NothingUsed(txs, l.spent);
    } else {
      var o := ApplyTx(c, l, d, txs[i], i, height);
      ApplyTxSpends(c, l, d, txs[i], i, height);
      BlockSpendsOnce(c, o.ledger, o.diff, txs, height, i + 1);
      OneMoreSpend(txs, i, l.spent, o.ledger.spent);
    }
  }

  lemma NothingUsed(txs: seq<Transaction>, spent: set<Bytes32>)
    ensures SpendsOnce(txs, |txs|, spent) && forall ki :: !UsedFrom(txs, |txs|, ki)
  {
  }

  lemma OneMoreSpend(txs: seq<Transaction>, i: nat, spent: set<Bytes32>, spent': set<Bytes32>)
    requires i < |txs| && SpendsOnce(txs, i + 1, spent')
    requires spent' == if i == 0 then spent else spent + TxImages(txs[i])
    requires i > 0 ==> TxImages(txs[i]) !! spent
    ensures SpendsOnce(txs, i, spent)
    ensures forall ki :: (ki in spent' || UsedFrom(txs, i + 1, ki)) <==> (ki in spent || UsedFrom(txs, i, ki))
  {
    hide TxImages;
  }

  // ----- Along a chain

  /** A block above genesis, up to `h`, spends the image. */
  ghost predicate UsedBelow(o: Origin, t: Tree, h: Hash, ki: Bytes32)
    requires Acyclic(t)
    decreases Depth(t, h)
  {
    HasParent(o, t, h) && (UsedFrom(t[h].transactions, 0, ki) || UsedBelow(o, t, Prev(t, h), ki))
  }

  /** From genesis to `h`, no two transactions share a key image, nor does one use an image that was
      spent before genesis. */
  ghost predicate ChainSpendsOnce(o: Origin, t: Tree, h: Hash)
    requires Acyclic(t)
    decreases Depth(t, h)
  {
    HasParent(o, t, h) ==>
      && SpendsOnce(t[h].transactions, 0, o.ledger.spent)
      && (forall ki | UsedFrom(t[h].transactions, 0, ki) :: !UsedBelow(o, t, Prev(t, h), ki))
      && ChainSpendsOnce(o, t, Prev(t, h))
  }

  lemma {:induction false} ReplaySpendsOnce(o: Origin, t: Tree, h: Hash)
    requires Acyclic(t) && ReplayTo(o, t, h).Some?
    ensures ChainSpendsOnce(o, t, h)
    ensures forall ki :: ki in ReplayTo(o, t, h).value.spent <==> ki in o.ledger.spent || UsedBelow(o, t, h, ki)
    decreases Depth(t, h)
  {
    hide Acyclic, SpendsOnce, UsedFrom, ApplyFrom;
    if h != o.genesis {
      var l, b := ReplayTo(o, t, Prev(t, h)).value, t[h];
      DepthOfParent(t, h);
      ReplaySpendsOnce(o, t, Prev(t, h));
      BlockSpendsOnce(o.c, l, EMPTY_DIFF, b.transactions, b.header.height, 0);
      UsedIsNotSpent(b.transactions, l.spent);
      FewerSpent(b.transactions, o.ledger.spent, l.spent);
    }
  }

  lemma UsedIsNotSpent(txs: seq<Transaction>, spent: set<Bytes32>)
    requires SpendsOnce(txs, 0, spent)
    ensures forall ki | UsedFrom(txs, 0, ki) :: ki !in spent
  {
    hide TxImages;
  }

  lemma FewerSpent(txs: seq<Transaction>, spent: set<Bytes32>, spent': set<Bytes32>)
    requires SpendsOnce(txs, 0, spent') && forall ki | ki in spent :: ki in spent'
    ensures SpendsOnce(txs, 0, spent)
  {
    hide TxImages;
  }

  /** In every state of every run: no key image is spent twice on the current chain, and the ledger's set
      of spent images is exactly what that chain has spent. */
  lemma NoDoubleSpend(c: Crypto, genesis: Block, ledger: LedgerState, events: seq<Event>, nodes: seq<Node>, i: nat)
    requires NoZeroHash(c) && IsGenesis(genesis)
    requires Run(c, genesis, ledger, events, nodes) && i < |nodes|
    requires SafeRun(OriginOf(c, genesis, ledger), events, nodes)
    ensures
      var o, t, tip := OriginOf(c, genesis, ledger), nodes[i].store.cache, nodes[i].store.tip;
      && Acyclic(t) && ChainSpendsOnce(o, t, tip)
      && forall ki :: ki in nodes[i].ledger.spent <==> ki in ledger.spent || UsedBelow(o, t, tip, ki)
  {
    hide Acyclic, NodeOk, StoreOk, Run, SafeRun, ChainSpendsOnce, UsedBelow;
    RunKeepsStore(c, genesis, ledger, events, nodes, i, i);
    TreesAreWellFounded(c, nodes[i].store, nodes[i].store);
    LedgerIsReplay(c, genesis, ledger, events, nodes, i);
    ReplaySpendsOnce(OriginOf(c, genesis, ledger), nodes[i].store.cache, nodes[i].store.tip);
  }
}
