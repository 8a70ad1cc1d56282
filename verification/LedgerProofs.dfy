/** Unwinding the diff of a block gives back the ledger it was applied to, at every point of the
    apply loop, and exactly when. */
module LedgerProofs {
  import opened Types
  import opened Ledger

  // ----- What the source leaves to its callers

  /** No transaction of the block creates an outpoint that the ledger already holds. */
  predicate FreshOutputs(c: Crypto, l: LedgerState, txs: seq<Transaction>) {
    forall t, i | 0 <= t < |txs| && 0 <= i < |txs[t].outputs| :: UtxoKey(TxHash(c, txs[t]), i) !in l.utxos
  }

  /** No earlier input names the same outpoint: only the first one to do so removes it. */
  predicate FirstNaming(inputs: seq<TxInput>, i: nat) {
    i < |inputs| && forall k | 0 <= k < i :: inputs[k].Outpoint() != inputs[i].Outpoint()
  }

  predicate SharesImage(inputs: seq<TxInput>, i: nat, j: nat)
    requires i < j
  {
    FirstNaming(inputs, i) && FirstNaming(inputs, j) && inputs[i].keyImage == inputs[j].keyImage
  }

  /** No two inputs of a transaction remove two outpoints under one key image, the later one from the ledger. */
  predicate UnambiguousImages(l: LedgerState, inputs: seq<TxInput>) {
    forall i, j | 0 <= i < j < |inputs| && SharesImage(inputs, i, j) :: inputs[j].Outpoint() !in l.utxos
  }

  /** A coinbase within the emission cap does not overflow the total supply. */
  predicate SupplyFits(l: LedgerState, txs: seq<Transaction>) {
    txs != [] ==>
      var amount := CoinbaseAmount(txs[0]);
      amount > MAX_EMISSION || amount == 0 || l.supply + amount < U64_LIMIT
  }

  predicate Reversible(c: Crypto, l: LedgerState, txs: seq<Transaction>) {
    && FreshOutputs(c, l, txs)
    && SupplyFits(l, txs)
    && forall t | 0 < t < |txs| :: UnambiguousImages(l, txs[t].inputs)
  }

  // ----- Basic facts

  lemma OutputKeysMembers(h: Hash, n: nat)
    ensures forall k: UtxoKey :: k in OutputKeys(h, n) <==> k.txHash == h && k.outputIndex < n
  {
    forall k: UtxoKey | k.txHash == h && k.outputIndex < n
      ensures k in OutputKeys(h, n)
    {
      assert OutputKeys(h, n)[k.outputIndex] == k;
    }
  }

  lemma {:induction false} AddOutputsAt(utxos: map<UtxoKey, UtxoEntry>, h: Hash, outputs: seq<TxOutput>, height: u64,
      txIndex: nat, n: nat)
    requires n <= |outputs|
    ensures
      var u := AddOutputs(utxos, h, outputs, height, txIndex, n);
      forall k: UtxoKey :: if k.txHash == h && k.outputIndex < n
                  then k in u && u[k] == EntryOf(outputs[k.outputIndex], height, txIndex, k.outputIndex)
                  else (k in u <==> k in utxos) && (k in u ==> u[k] == utxos[k])
  {
    if n > 0 { AddOutputsAt(utxos, h, outputs, height, txIndex, n - 1); }
  }

  lemma {:induction false} InputSumOk(l: LedgerState, inputs: seq<TxInput>, i: nat, acc: u64, checkImages: bool)
    requires i <= |inputs| && InputSum(l, inputs, i, acc, checkImages).Ok?
    ensures forall k | i <= k < |inputs| ::
              inputs[k].Outpoint() in l.utxos && (checkImages ==> inputs[k].keyImage !in l.spent)
    decreases |inputs| - i
  {
    if i < |inputs| {
      InputSumOk(l, inputs, i + 1, acc + l.utxos[inputs[i].Outpoint()].amount, checkImages);
    }
  }

  function ImagesOf(inputs: seq<TxInput>, n: nat): set<Bytes32>
    requires n <= |inputs|
  {
    set k | 0 <= k < n :: inputs[k].keyImage
  }

  lemma {:induction false} SpendAllSpent(l: LedgerState, inputs: seq<TxInput>, n: nat)
    requires n <= |inputs|
    ensures SpendAll(l, inputs, n).spent == l.spent + ImagesOf(inputs, n)
    ensures SpendAll(l, inputs, n).supply == l.supply
  {
    if n > 0 {
      SpendAllSpent(l, inputs, n - 1);
      assert ImagesOf(inputs, n) == ImagesOf(inputs, n - 1) + {inputs[n - 1].keyImage};
    }
  }

  lemma {:induction false} SpendAllUtxos(l: LedgerState, inputs: seq<TxInput>, n: nat, key: UtxoKey)
    requires n <= |inputs|
    ensures
      var u := SpendAll(l, inputs, n).utxos;
      && (key in u <==> key in l.utxos && forall k | 0 <= k < n :: inputs[k].Outpoint() != key)
      && (key in u ==> u[key] == l.utxos[key])
  {
    if n > 0 { SpendAllUtxos(l, inputs, n - 1, key); }
  }

  function Images(d: BlockDiff): set<Bytes32> { set ki | ki in d.keyImages }

  // ----- The loop invariant

  /** Where an outpoint the block did not create is: untouched, or consumed and recorded. */
  ghost predicate TracksKey(l0: LedgerState, l: LedgerState, d: BlockDiff, k: UtxoKey) {
    if k in l0.utxos then
      || (k in l.utxos && l.utxos[k] == l0.utxos[k] && k !in ConsumedKeys(d))
      || (k !in l.utxos && k in ConsumedKeys(d))
    else k !in l.utxos && k !in ConsumedKeys(d)
  }

  ghost predicate TracksImage(l0: LedgerState, d: BlockDiff, ki: Bytes32)
    requires ki in d.consumed
  {
    var (k, e) := d.consumed[ki];
    k !in d.created ==> k in l0.utxos && e == l0.utxos[k]
  }

  /** `d` records how `l` came from `l0`. */
  ghost predicate Tracks(l0: LedgerState, l: LedgerState, d: BlockDiff) {
    && (forall k | k in d.created :: k !in l0.utxos)
    && (forall k | k !in d.created :: TracksKey(l0, l, d, k))
    && (forall ki | ki in d.consumed :: TracksImage(l0, d, ki))
    && l.spent == l0.spent + Images(d) && Images(d) !! l0.spent && d.consumed.Keys <= Images(d)
    && l.supply == l0.supply + d.supplyDelta && d.supplyDelta >= 0
  }

  lemma TracksRestores(l0: LedgerState, l: LedgerState, d: BlockDiff)
    requires Tracks(l0, l, d)
    ensures Unwind(l, d) == l0
  {
  }

  lemma {:induction false} SpendKeepsTracks(l0: LedgerState, l: LedgerState, d: BlockDiff, inputs: seq<TxInput>, n: nat)
    requires Tracks(l0, l, d) && n <= |inputs| && l0.spent <= l.spent
    requires forall k | 0 <= k < |inputs| :: inputs[k].keyImage !in l.spent
    requires UnambiguousImages(l0, inputs)
    ensures Tracks(l0, SpendAll(l, inputs, n), RecordAll(l, d, inputs, n))
  {
    hide Tracks, UnambiguousImages;
    if n > 0 {
      SpendKeepsTracks(l0, l, d, inputs, n - 1);
      SpendAllSpent(l, inputs, n - 1);
      SpendOneKeepsTracks(l0, l, d, inputs, n - 1);
    }
  }

  /** What a spend records, it records for the first input that names the outpoint. */
  lemma {:induction false} RecordedByFirst(l: LedgerState, d: BlockDiff, inputs: seq<TxInput>, n: nat, ki: Bytes32)
    requires n <= |inputs| && ki !in d.consumed && ki in RecordAll(l, d, inputs, n).consumed
    ensures exists i: nat :: i < n && FirstNaming(inputs, i) && inputs[i].keyImage == ki
  {
    var m := n - 1;
    SpendAllUtxos(l, inputs, m, inputs[m].Outpoint());
    if ki in RecordAll(l, d, inputs, m).consumed {
      RecordedByFirst(l, d, inputs, m, ki);
    } else {
      assert FirstNaming(inputs, m);
    }
  }

  /** The input `m` either finds its outpoint gone, or its key image unused, or an outpoint that is new. */
  lemma NothingHidden(l0: LedgerState, l: LedgerState, d: BlockDiff, inputs: seq<TxInput>, m: nat)
    requires m < |inputs| && UnambiguousImages(l0, inputs) && inputs[m].keyImage !in d.consumed
    requires inputs[m].Outpoint() in SpendAll(l, inputs, m).utxos
    requires inputs[m].keyImage in RecordAll(l, d, inputs, m).consumed
    ensures inputs[m].Outpoint() !in l0.utxos
  {
    SpendAllUtxos(l, inputs, m, inputs[m].Outpoint());
    RecordedByFirst(l, d, inputs, m, inputs[m].keyImage);
    var i: nat :| i < m && FirstNaming(inputs, i) && inputs[i].keyImage == inputs[m].keyImage;
    assert SharesImage(inputs, i, m);
  }

  lemma SpendOneKeepsTracks(l0: LedgerState, l: LedgerState, d: BlockDiff, inputs: seq<TxInput>, m: nat)
    requires m < |inputs| && Tracks(l0, l, d) && Tracks(l0, SpendAll(l, inputs, m), RecordAll(l, d, inputs, m))
    requires inputs[m].keyImage !in l.spent && UnambiguousImages(l0, inputs)
    ensures Tracks(l0, SpendAll(l, inputs, m + 1), RecordAll(l, d, inputs, m + 1))
  {
    hide UnambiguousImages, TracksKey, TracksImage;
    SpendAllSpent(l, inputs, m);
    if inputs[m].Outpoint() in SpendAll(l, inputs, m).utxos && inputs[m].keyImage in RecordAll(l, d, inputs,
        m).consumed {
      NothingHidden(l0, l, d, inputs, m);
    }
    OneInputKeepsTracks(l0, SpendAll(l, inputs, m), RecordAll(l, d, inputs, m), inputs[m]);
  }

  lemma OneInputKeepsTracks(l0: LedgerState, l: LedgerState, d: BlockDiff, input: TxInput)
    requires Tracks(l0, l, d) && input.keyImage !in l0.spent
    requires input.Outpoint() in l.utxos && input.keyImage in d.consumed ==> input.Outpoint() !in l0.utxos
    ensures Tracks(l0, SpendOne(l, input), RecordOne(l, d, input))
  {
    var key, ki := input.Outpoint(), input.keyImage;
    var l', d' := SpendOne(l, input), RecordOne(l, d, input);
    assert Images(d') == Images(d) + {ki};
    forall k | k !in d'.created
      ensures TracksKey(l0, l', d', k)
    {
      assert TracksKey(l0, l, d, k);
      if k == key && k in l0.utxos && k in l.utxos {
        assert d'.consumed[ki].0 == k;
      }
      ConsumedAfter(l, d, input, k);
    }
    forall x | x in d'.consumed
      ensures TracksImage(l0, d', x)
    {
      if x in d.consumed {
        assert TracksImage(l0, d, x);
      } else if key !in d.created {
        assert TracksKey(l0, l, d, key);
      }
    }
  }

  lemma ConsumedAfter(l: LedgerState, d: BlockDiff, input: TxInput, k: UtxoKey)
    ensures k in ConsumedKeys(RecordOne(l, d, input)) <==>
              || k in ConsumedKeys(d)
              || (k == input.Outpoint() && input.keyImage !in d.consumed && k in l.utxos)
  {
    var d' := RecordOne(l, d, input);
    if k in ConsumedKeys(d) {
      var x :| x in d.consumed && d.consumed[x].0 == k;
      assert d'.consumed[x].0 == k;
    }
    if k == input.Outpoint() && input.keyImage !in d.consumed && k in l.utxos {
      assert d'.consumed[input.keyImage].0 == k;
    }
  }

  lemma OutputsKeepTracks(l0: LedgerState, l: LedgerState, d: BlockDiff, h: Hash, outputs: seq<TxOutput>, height: u64,
      idx: nat, l': LedgerState, d': BlockDiff, amount: nat)
    requires Tracks(l0, l, d)
    requires forall i | 0 <= i < |outputs| :: UtxoKey(h, i) !in l0.utxos
    requires l' == l.(utxos := AddOutputs(l.utxos, h, outputs, height, idx, |outputs|), supply := l.supply + amount)
    requires d' == d.(created := d.created + OutputKeys(h, |outputs|), supplyDelta := d.supplyDelta + amount)
    ensures Tracks(l0, l', d')
  {
    AddOutputsAt(l.utxos, h, outputs, height, idx, |outputs|);
    OutputKeysMembers(h, |outputs|);
    assert ConsumedKeys(d') == ConsumedKeys(d);
    forall k | k in d'.created
      ensures k !in l0.utxos
    {
      if k !in d.created { assert k == UtxoKey(h, k.outputIndex); }
    }
    forall k | k !in d'.created
      ensures TracksKey(l0, l', d', k)
    {
      assert TracksKey(l0, l, d, k);
    }
    forall ki | ki in d'.consumed
      ensures TracksImage(l0, d', ki)
    {
      assert TracksImage(l0, d, ki);
    }
  }

  lemma ApplyTxKeepsTracks(c: Crypto, l0: LedgerState, l: LedgerState, d: BlockDiff, txs: seq<Transaction>, i: nat,
      height: u64)
    requires i < |txs| && Tracks(l0, l, d) && Reversible(c, l0, txs)
    requires i == 0 ==> l.supply == l0.supply
    ensures var o := ApplyTx(c, l, d, txs[i], i, height); Tracks(l0, o.ledger, o.diff)
  {
    var tx, o := txs[i], ApplyTx(c, l, d, txs[i], i, height);
    if o.error.None? {
      var h := TxHash(c, tx);
      if i == 0 {
        OutputsKeepTracks(l0, l, d, h, tx.outputs, height, i, o.ledger, o.diff, CoinbaseAmount(tx));
      } else {
        InputSumOk(l, tx.inputs, 0, 0, true);
        SpendKeepsTracks(l0, l, d, tx.inputs, |tx.inputs|);
        OutputsKeepTracks(l0, SpendAll(l, tx.inputs, |tx.inputs|), RecordAll(l, d, tx.inputs, |tx.inputs|),
                          h, tx.outputs, height, i, o.ledger, o.diff, 0);
      }
    }
  }

  /** The invariant of the apply loop, from any point of it to the end or to the first error. */
  lemma {:induction false} ApplyKeepsTracks(c: Crypto, l0: LedgerState, l: LedgerState, d: BlockDiff,
      txs: seq<Transaction>, height: u64, i: nat)
    requires i <= |txs| && Tracks(l0, l, d) && Reversible(c, l0, txs)
    requires i == 0 ==> l.supply == l0.supply
    ensures var o := ApplyFrom(c, l, d, txs, height, i); Tracks(l0, o.ledger, o.diff)
    decreases |txs| - i
  {
    hide Tracks, Reversible, ApplyTx;
    if i < |txs| {
      ApplyTxKeepsTracks(c, l0, l, d, txs, i, height);
      var o := ApplyTx(c, l, d, txs[i], i, height);
      if o.error.None? { ApplyKeepsTracks(c, l0, o.ledger, o.diff, txs, height, i + 1); }
    }
  }

  lemma EmptyTracks(l: LedgerState)
    ensures Tracks(l, l, EMPTY_DIFF)
  {
  }

  /** Wherever the apply loop stops, at the end or at an error, the diff built so far leads back. */
  lemma UnwindRestores(c: Crypto, l: LedgerState, txs: seq<Transaction>, height: u64)
    requires Reversible(c, l, txs)
    ensures
      var o := ApplyFrom(c, l, EMPTY_DIFF, txs, height, 0);
      Unwind(o.ledger, o.diff) == l
  {
    EmptyTracks(l);
    ApplyKeepsTracks(c, l, l, EMPTY_DIFF, txs, height, 0);
    var o := ApplyFrom(c, l, EMPTY_DIFF, txs, height, 0);
    TracksRestores(l, o.ledger, o.diff);
  }

  /** A failed apply changes nothing, and a successful one is undone by its diff. */
  lemma ApplyIsAtomic(c: Crypto, l: LedgerState, b: Block, height: u64)
    requires Reversible(c, l, b.transactions)
    ensures
      var (l', r) := ApplyTracked(c, l, b, height);
      match r
      case Err(_) => l' == l
      case Ok(d) => Unwind(l', d) == l
  {
    UnwindRestores(c, l, b.transactions, height);
  }

  // ----- The order of restoring never matters

  /** An outpoint the block did not create is consumed at most once, and is gone once consumed. */
  ghost predicate ConsumedOnce(l: LedgerState, d: BlockDiff) {
    && (forall ki | ki in d.consumed && d.consumed[ki].0 !in d.created :: d.consumed[ki].0 !in l.utxos)
    && Restorable(d)
  }

  lemma {:induction false} SpendKeepsConsumedOnce(l: LedgerState, d: BlockDiff, inputs: seq<TxInput>, n: nat)
    requires ConsumedOnce(l, d) && n <= |inputs|
    ensures ConsumedOnce(SpendAll(l, inputs, n), RecordAll(l, d, inputs, n))
  {
    if n > 0 { SpendKeepsConsumedOnce(l, d, inputs, n - 1); }
  }

  lemma ApplyTxKeepsConsumedOnce(c: Crypto, l: LedgerState, d: BlockDiff, tx: Transaction, idx: nat, height: u64)
    requires ConsumedOnce(l, d)
    ensures var o := ApplyTx(c, l, d, tx, idx, height); ConsumedOnce(o.ledger, o.diff)
  {
    var h, n, o := TxHash(c, tx), |tx.outputs|, ApplyTx(c, l, d, tx, idx, height);
    if o.error.None? {
      OutputKeysMembers(h, n);
      if idx == 0 {
        AddOutputsAt(l.utxos, h, tx.outputs, height, idx, n);
      } else {
        SpendKeepsConsumedOnce(l, d, tx.inputs, |tx.inputs|);
        AddOutputsAt(SpendAll(l, tx.inputs, |tx.inputs|).utxos, h, tx.outputs, height, idx, n);
      }
    }
  }

  lemma {:induction false} ApplyIsRestorable(c: Crypto, l: LedgerState, d: BlockDiff, txs: seq<Transaction>,
      height: u64, i: nat)
    requires i <= |txs| && ConsumedOnce(l, d)
    ensures Restorable(ApplyFrom(c, l, d, txs, height, i).diff)
    decreases |txs| - i
  {
    if i < |txs| {
      ApplyTxKeepsConsumedOnce(c, l, d, txs[i], i, height);
      var o := ApplyTx(c, l, d, txs[i], i, height);
      if o.error.None? { ApplyIsRestorable(c, o.ledger, o.diff, txs, height, i + 1); }
    }
  }
}
