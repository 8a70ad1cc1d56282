/** No output is spent twice: on a chain whose blocks make no outpoint again, no outpoint is named by two
    transactions, whatever key images these carry. */
module OutputsOnce {
  import opened Types
  import opened Ledger
  import opened LedgerProofs
  import opened BlockTree
  import opened Chain
  import opened Replay
  import opened Runs
  import opened Hygiene
  import opened Conservation

  /** The transaction spends the outpoint. */
  predicate Names(tx: Transaction, k: UtxoKey) {
    exists i | 0 <= i < |tx.inputs| :: tx.inputs[i].Outpoint() == k
  }

  predicate NamedFrom(txs: seq<Transaction>, i: nat, k: UtxoKey) {
    exists s | i <= s < |txs| :: 0 < s && Names(txs[s], k)
  }

  predicate MakesFrom(c: Crypto, txs: seq<Transaction>, i: nat, k: UtxoKey) {
    exists s | i <= s < |txs| :: k.txHash == TxHash(c, txs[s]) && k.outputIndex < |txs[s].outputs|
  }

  /** At most one transaction of the block names the outpoint. */
  predicate OnceIn(txs: seq<Transaction>, k: UtxoKey) {
    forall s, t | 0 < s < t < |txs| && Names(txs[s], k) :: !Names(txs[t], k)
  }

  /** What one transaction does to an outpoint. */
  lemma ApplyTxAt(c: Crypto, l: LedgerState, d: BlockDiff, tx: Transaction, idx: nat, height: u64, k: UtxoKey)
    requires ApplyTx(c, l, d, tx, idx, height).error.None?
    ensures idx > 0 && Names(tx, k) ==> k in l.utxos
    ensures k in ApplyTx(c, l, d, tx, idx, height).ledger.utxos
       <==> (k.txHash == TxHash(c, tx) && k.outputIndex < |tx.outputs|) || (k in l.utxos && !(idx > 0 && Names(tx, k)))
  {
    AddOutputsAt(l.utxos, TxHash(c, tx), tx.outputs, height, idx, |tx.outputs|);
    if idx > 0 {
      InputSumOk(l, tx.inputs, 0, 0, true);
      SpendAllUtxos(l, tx.inputs, |tx.inputs|, k);
      AddOutputsAt(SpendAll(l, tx.inputs, |tx.inputs|).utxos, TxHash(c, tx), tx.outputs, height, idx, |tx.outputs|);
    }
  }

  /** What is not there and not made is not named, and stays away. */
  lemma {:induction false} GoneIsNotNamed(c: Crypto, l: LedgerState, d: BlockDiff, txs: seq<Transaction>, height: u64,
      i: nat, k: UtxoKey)
    requires i <= |txs| && ApplyFrom(c, l, d, txs, height, i).error.None?
    requires k !in l.utxos && !MakesFrom(c, txs, i, k)
    ensures !NamedFrom(txs, i, k) && k !in ApplyFrom(c, l, d, txs, height, i).ledger.utxos
    decreases |txs| - i
  {
    hide ApplyTx, Names;
    if i < |txs| {
      var o := ApplyTx(c, l, d, txs[i], i, height);
      ApplyTxAt(c, l, d, txs[i], i, height, k);
      GoneIsNotNamed(c, o.ledger, o.diff, txs, height, i + 1, k);
    }
  }

  /** In a block whose outpoints are new, an outpoint that one transaction names is named by no later one,
      and is gone at the end of the block. */
  lemma {:induction false} NamedIsGone(c: Crypto, l: LedgerState, d: BlockDiff, txs: seq<Transaction>, height: u64,
      i: nat, k: UtxoKey)
    requires i <= |txs| && ApplyFrom(c, l, d, txs, height, i).error.None? && NamedFrom(txs, i, k)
    requires DistinctHashes(c, txs) && forall j | i <= j < |txs| :: Unmade(c, l, txs[j])
    ensures k !in ApplyFrom(c, l, d, txs, height, i).ledger.utxos
    ensures k in l.utxos || MakesFrom(c, txs, i, k)
    ensures forall s, t | i <= s < t < |txs| && 0 < s && Names(txs[s], k) :: !Names(txs[t], k)
    decreases |txs| - i
  {
    hide ApplyTx, Names, DistinctHashes;
    var o := ApplyTx(c, l, d, txs[i], i, height);
    ApplyTxAt(c, l, d, txs[i], i, height, k);
    if i > 0 && Names(txs[i], k) {
      GoneIsNotNamed(c, o.ledger, o.diff, txs, height, i + 1, k);
    } else {
      forall j | i + 1 <= j < |txs|
        ensures Unmade(c, o.ledger, txs[j])
      {
        LaterStaysUnmade(c, l, d, txs, i, j, height);
      }
      NamedIsGone(c, o.ledger, o.diff, txs, height, i + 1, k);
    }
  }

  // ----- Along a chain

  /** A block above genesis, up to `h`, spends the outpoint. */
  ghost predicate NamedBelow(o: Origin, t: Tree, h: Hash, k: UtxoKey)
    requires Acyclic(t)
    decreases Depth(t, h)
  {
    HasParent(o, t, h) && (NamedFrom(t[h].transactions, 0, k) || NamedBelow(o, t, Prev(t, h), k))
  }

  /** From genesis to `h`, no outpoint is named by two transactions. */
  ghost predicate ChainNamesOnce(o: Origin, t: Tree, h: Hash)
    requires Acyclic(t)
    decreases Depth(t, h)
  {
    HasParent(o, t, h) ==>
      && (forall k :: OnceIn(t[h].transactions, k))
      && (forall k | NamedFrom(t[h].transactions, 0, k) :: !NamedBelow(o, t, Prev(t, h), k))
      && ChainNamesOnce(o, t, Prev(t, h))
  }

  /** What the chain up to `h` knows about one outpoint: once named it is gone, and it was there before. */
  ghost predicate GoneOnceNamed(o: Origin, t: Tree, h: Hash, l: LedgerState, k: UtxoKey)
    requires Acyclic(t)
  {
    NamedBelow(o, t, h, k) ==> k !in l.utxos && (k in o.ledger.utxos || MadeBelow(o, t, h, k))
  }

  /** One block on a branch: what it names was not named below, and is gone afterwards. */
  lemma BlockNamesOnce(o: Origin, t: Tree, h: Hash, l: LedgerState, k: UtxoKey)
    requires SoundTree(o, t) && HasParent(o, t, h) && ReplayTo(o, t, Prev(t, h)) == Some(l)
    requires ReplayTo(o, t, h).Some? && GoneOnceNamed(o, t, Prev(t, h), l, k)
    ensures NamedFrom(t[h].transactions, 0, k) ==> !NamedBelow(o, t, Prev(t, h), k)
    ensures OnceIn(t[h].transactions, k)
    ensures GoneOnceNamed(o, t, h, ReplayTo(o, t, h).value, k)
  {
    hide Acyclic, Names, Unwind, DistinctHashes;
    var txs, height := t[h].transactions, t[h].header.height;
    assert ApplyFrom(o.c, l, EMPTY_DIFF, txs, height, 0).error.None?;
    assert HygienicBlock(o, t, h);
    assert MakesFrom(o.c, txs, 0, k) <==> Makes(o.c, txs, k);
    if NamedBelow(o, t, Prev(t, h), k) { GoneIsNotNamed(o.c, l, EMPTY_DIFF, txs, height, 0, k); }
    if NamedFrom(txs, 0, k) {
      HygienicBlockIsSafe(o, t, h);
      ReplayAdds(o, t, Prev(t, h));
      NamedIsGone(o.c, l, EMPTY_DIFF, txs, height, 0, k);
    }
  }

  /** On every branch that replays, without an outpoint made twice: no outpoint is named by two transactions,
      and one that is named is spent for good. */
  lemma {:induction false} ReplayNamesOnce(o: Origin, t: Tree, h: Hash)
    requires SoundTree(o, t) && ReplayTo(o, t, h).Some?
    ensures ChainNamesOnce(o, t, h)
    ensures forall k :: GoneOnceNamed(o, t, h, ReplayTo(o, t, h).value, k)
    decreases Depth(t, h)
  {
    hide SoundTree, Acyclic, ReplayBlock, Names, NamedFrom, OnceIn;
    if h != o.genesis {
      assert Acyclic(t) by { SoundIsAcyclic(o, t); }
      var l := ReplayTo(o, t, Prev(t, h)).value;
      DepthOfParent(t, h);
      ReplayNamesOnce(o, t, Prev(t, h));
      forall k
        ensures NamedFrom(t[h].transactions, 0, k) ==> !NamedBelow(o, t, Prev(t, h), k)
        ensures OnceIn(t[h].transactions, k)
        ensures GoneOnceNamed(o, t, h, ReplayTo(o, t, h).value, k)
      {
        BlockNamesOnce(o, t, h, l, k);
      }
    }
  }

  lemma SoundIsAcyclic(o: Origin, t: Tree)
    requires SoundTree(o, t)
    ensures Acyclic(t)
  {
  }

  /** In every state of every run: if no outpoint is made twice on the current chain, none is spent by two of its
      transactions, and what it has spent is not in the ledger. */
  lemma NoOutputIsSpentTwice(c: Crypto, genesis: Block, ledger: LedgerState, events: seq<Event>, nodes: seq<Node>,
      i: nat)
    requires NoZeroHash(c) && IsGenesis(genesis)
    requires Run(c, genesis, ledger, events, nodes) && i < |nodes|
    requires SafeRun(OriginOf(c, genesis, ledger), events, nodes)
    requires SoundTree(OriginOf(c, genesis, ledger), nodes[i].store.cache)
    ensures
      var o, t, tip := OriginOf(c, genesis, ledger), nodes[i].store.cache, nodes[i].store.tip;
      && Acyclic(t) && ChainNamesOnce(o, t, tip)
      && forall k | NamedBelow(o, t, tip, k) :: k !in nodes[i].ledger.utxos
  {
    hide Acyclic, NodeOk, Run, SafeRun, ChainNamesOnce, NamedBelow, SoundTree;
    var o := OriginOf(c, genesis, ledger);
    SoundIsAcyclic(o, nodes[i].store.cache);
    LedgerIsReplay(c, genesis, ledger, events, nodes, i);
    ReplayNamesOnce(o, nodes[i].store.cache, nodes[i].store.tip);
    forall k | NamedBelow(o, nodes[i].store.cache, nodes[i].store.tip, k)
      ensures k !in nodes[i].ledger.utxos
    {
      assert GoneOnceNamed(o, nodes[i].store.cache, nodes[i].store.tip, nodes[i].ledger, k);
    }
  }
}
