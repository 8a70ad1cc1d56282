/** The conditions under which unwinding restores the ledger cannot be weakened: whether an apply ends
    well or stops at an error, its diff leads back exactly if the transactions applied so far are
    `Reversible`. */
module Reversibility {
  import opened Types
  import opened Ledger
  import opened LedgerProofs

  /** Neither held nor recorded as consumed: unwinding cannot bring the outpoint back. */
  predicate Lost(l: LedgerState, d: BlockDiff, key: UtxoKey) {
    key !in l.utxos && key !in ConsumedKeys(d)
  }

  predicate NotCreated(c: Crypto, txs: seq<Transaction>, key: UtxoKey) {
    forall t, i | 0 <= t < |txs| && 0 <= i < |txs[t].outputs| :: UtxoKey(TxHash(c, txs[t]), i) != key
  }

  // ----- Within one transaction

  lemma {:induction false} SpendKeepsLost(l: LedgerState, d: BlockDiff, inputs: seq<TxInput>, n: nat, key: UtxoKey)
    requires n <= |inputs| && Lost(l, d, key)
    ensures Lost(SpendAll(l, inputs, n), RecordAll(l, d, inputs, n), key)
  {
    if n > 0 {
      SpendKeepsLost(l, d, inputs, n - 1, key);
      ConsumedAfter(SpendAll(l, inputs, n - 1), RecordAll(l, d, inputs, n - 1), inputs[n - 1], key);
    }
  }

  /** The second input under a repeated key image removes its outpoint without recording it. */
  lemma {:induction false} SpendLoses(l: LedgerState, d: BlockDiff, inputs: seq<TxInput>, i: nat, j: nat, n: nat)
    requires i < j && SharesImage(inputs, i, j) && n <= |inputs|
    requires forall k | 0 <= k < |inputs| :: inputs[k].Outpoint() in l.utxos
    requires inputs[j].Outpoint() !in ConsumedKeys(d)
    ensures inputs[j].Outpoint() !in ConsumedKeys(RecordAll(l, d, inputs, n))
    ensures n > i ==> inputs[i].keyImage in RecordAll(l, d, inputs, n).consumed
    ensures n > j ==> inputs[j].Outpoint() !in SpendAll(l, inputs, n).utxos
  {
    if n > 0 {
      var m := n - 1;
      SpendLoses(l, d, inputs, i, j, m);
      SpendAllUtxos(l, inputs, m, inputs[m].Outpoint());
      ConsumedAfter(SpendAll(l, inputs, m), RecordAll(l, d, inputs, m), inputs[m], inputs[j].Outpoint());
    }
  }

  lemma KeyIsNotCreated(c: Crypto, txs: seq<Transaction>, s: nat, key: UtxoKey)
    requires s < |txs| && NotCreated(c, txs, key)
    ensures key !in OutputKeys(TxHash(c, txs[s]), |txs[s].outputs|)
  {
  }

  // ----- Through the rest of the block

  lemma ApplyTxKeepsLost(c: Crypto, l: LedgerState, d: BlockDiff, txs: seq<Transaction>, i: nat, height: u64,
      key: UtxoKey)
    requires i < |txs| && Lost(l, d, key) && NotCreated(c, txs, key)
    ensures var o := ApplyTx(c, l, d, txs[i], i, height); Lost(o.ledger, o.diff, key)
  {
    var tx, o := txs[i], ApplyTx(c, l, d, txs[i], i, height);
    if o.error.None? {
      var h, n := TxHash(c, tx), |tx.outputs|;
      OutputKeysMembers(h, n);
      KeyIsNotCreated(c, txs, i, key);
      if i == 0 {
        AddOutputsAt(l.utxos, h, tx.outputs, height, i, n);
        assert ConsumedKeys(o.diff) == ConsumedKeys(d);
      } else {
        SpendKeepsLost(l, d, tx.inputs, |tx.inputs|, key);
        AddOutputsAt(SpendAll(l, tx.inputs, |tx.inputs|).utxos, h, tx.outputs, height, i, n);
        assert ConsumedKeys(o.diff) == ConsumedKeys(RecordAll(l, d, tx.inputs, |tx.inputs|));
      }
    }
  }

  lemma {:induction false} ApplyKeepsLost(c: Crypto, l: LedgerState, d: BlockDiff, txs: seq<Transaction>, height: u64,
      i: nat, key: UtxoKey)
    requires i <= |txs| && Lost(l, d, key) && NotCreated(c, txs, key)
    ensures var o := ApplyFrom(c, l, d, txs, height, i); Lost(o.ledger, o.diff, key)
    decreases |txs| - i
  {
    hide ApplyTx, Lost, NotCreated;
    if i < |txs| {
      ApplyTxKeepsLost(c, l, d, txs, i, height, key);
      var o := ApplyTx(c, l, d, txs[i], i, height);
      if o.error.None? { ApplyKeepsLost(c, o.ledger, o.diff, txs, height, i + 1, key); }
    }
  }

  /** What a successful step does to the diff. */
  lemma ApplyTxDiff(c: Crypto, l: LedgerState, d: BlockDiff, tx: Transaction, idx: nat, height: u64)
    requires ApplyTx(c, l, d, tx, idx, height).error.None?
    ensures
      var o := ApplyTx(c, l, d, tx, idx, height);
      && o.diff.created == d.created + OutputKeys(TxHash(c, tx), |tx.outputs|)
      && (idx > 0 ==> o.ledger.supply == l.supply && o.diff.supplyDelta == d.supplyDelta)
  {
    if idx > 0 {
      SpendAllSpent(l, tx.inputs, |tx.inputs|);
      RecordAllCreated(l, d, tx.inputs, |tx.inputs|);
    }
  }

  lemma {:induction false} RecordAllCreated(l: LedgerState, d: BlockDiff, inputs: seq<TxInput>, n: nat)
    requires n <= |inputs|
    ensures
      var d' := RecordAll(l, d, inputs, n);
      d'.created == d.created && d'.supplyDelta == d.supplyDelta
  {
    if n > 0 { RecordAllCreated(l, d, inputs, n - 1); }
  }

  /** The diff of a successful apply lists every outpoint of the block as created. */
  lemma {:induction false} ApplyCreates(c: Crypto, l: LedgerState, d: BlockDiff, txs: seq<Transaction>, height: u64,
      i: nat)
    requires i <= |txs| && ApplyFrom(c, l, d, txs, height, i).error.None?
    ensures
      var o := ApplyFrom(c, l, d, txs, height, i);
      && (forall key | key in d.created :: key in o.diff.created)
      && (forall t, k | i <= t < |txs| && 0 <= k < |txs[t].outputs| :: UtxoKey(TxHash(c, txs[t]), k) in o.diff.created)
      && (i > 0 ==> o.ledger.supply == l.supply && o.diff.supplyDelta == d.supplyDelta)
    decreases |txs| - i
  {
    hide ApplyTx;
    if i < |txs| {
      var o := ApplyTx(c, l, d, txs[i], i, height);
      ApplyTxDiff(c, l, d, txs[i], i, height);
      OutputKeysMembers(TxHash(c, txs[i]), |txs[i].outputs|);
      ApplyCreates(c, o.ledger, o.diff, txs, height, i + 1);
    }
  }

  /** An outpoint the block does not create is never listed as created. */
  lemma {:induction false} ApplyLosesAmbiguous(c: Crypto, l: LedgerState, d: BlockDiff, txs: seq<Transaction>,
      height: u64, s: nat, t: nat, i: nat, j: nat)
    requires s <= t < |txs| && t > 0 && i < j && SharesImage(txs[t].inputs, i, j)
    requires NotCreated(c, txs, txs[t].inputs[j].Outpoint()) && txs[t].inputs[j].Outpoint() !in d.created
    requires ConsumedOnce(l, d)
    requires ApplyFrom(c, l, d, txs, height, s).error.None?
    ensures var o := ApplyFrom(c, l, d, txs, height, s); Lost(o.ledger, o.diff, txs[t].inputs[j].Outpoint())
    decreases t - s
  {
    hide ApplyTx, NotCreated, ConsumedOnce;
    var key := txs[t].inputs[j].Outpoint();
    var o := ApplyTx(c, l, d, txs[s], s, height);
    if s < t {
      ApplyTxKeepsConsumedOnce(c, l, d, txs[s], s, height);
      ApplyTxDiff(c, l, d, txs[s], s, height);
      KeyIsNotCreated(c, txs, s, key);
      ApplyLosesAmbiguous(c, o.ledger, o.diff, txs, height, s + 1, t, i, j);
    } else {
      ApplyTxLoses(c, l, d, txs, t, height, i, j);
      ApplyKeepsLost(c, o.ledger, o.diff, txs, height, t + 1, key);
    }
  }

  lemma ApplyTxLoses(c: Crypto, l: LedgerState, d: BlockDiff, txs: seq<Transaction>, t: nat, height: u64, i: nat,
      j: nat)
    requires 0 < t < |txs| && i < j && SharesImage(txs[t].inputs, i, j)
    requires NotCreated(c, txs, txs[t].inputs[j].Outpoint()) && txs[t].inputs[j].Outpoint() !in d.created
    requires ConsumedOnce(l, d) && ApplyTx(c, l, d, txs[t], t, height).error.None?
    ensures var o := ApplyTx(c, l, d, txs[t], t, height); Lost(o.ledger, o.diff, txs[t].inputs[j].Outpoint())
  {
    var tx, h, n := txs[t], TxHash(c, txs[t]), |txs[t].outputs|;
    var key := tx.inputs[j].Outpoint();
    InputSumOk(l, tx.inputs, 0, 0, true);
    SpendLoses(l, d, tx.inputs, i, j, |tx.inputs|);
    AddOutputsAt(SpendAll(l, tx.inputs, |tx.inputs|).utxos, h, tx.outputs, height, t, n);
    OutputKeysMembers(h, n);
    KeyIsNotCreated(c, txs, t, key);
    var o := ApplyTx(c, l, d, tx, t, height);
    assert ConsumedKeys(o.diff) == ConsumedKeys(RecordAll(l, d, tx.inputs, |tx.inputs|));
  }

  // ----- Each condition is needed

  lemma StaleOutputIsLost(c: Crypto, l: LedgerState, txs: seq<Transaction>, height: u64)
    requires ApplyFrom(c, l, EMPTY_DIFF, txs, height, 0).error.None? && !FreshOutputs(c, l, txs)
    ensures var o := ApplyFrom(c, l, EMPTY_DIFF, txs, height, 0); exists k | k in o.diff.created :: k in l.utxos
    ensures var o := ApplyFrom(c, l, EMPTY_DIFF, txs, height, 0); Unwind(o.ledger, o.diff) != l
  {
    ApplyCreates(c, l, EMPTY_DIFF, txs, height, 0);
    var t, i :| 0 <= t < |txs| && 0 <= i < |txs[t].outputs| && UtxoKey(TxHash(c, txs[t]), i) in l.utxos;
    var o := ApplyFrom(c, l, EMPTY_DIFF, txs, height, 0);
    assert UtxoKey(TxHash(c, txs[t]), i) !in Unwind(o.ledger, o.diff).utxos;
  }

  lemma SkippedSupplyIsLost(c: Crypto, l: LedgerState, txs: seq<Transaction>, height: u64)
    requires ApplyFrom(c, l, EMPTY_DIFF, txs, height, 0).error.None? && !SupplyFits(l, txs)
    ensures var o := ApplyFrom(c, l, EMPTY_DIFF, txs, height, 0); Unwind(o.ledger, o.diff).supply != l.supply
  {
    var o := ApplyTx(c, l, EMPTY_DIFF, txs[0], 0, height);
    ApplyCreates(c, o.ledger, o.diff, txs, height, 1);
  }

  lemma AmbiguousImageIsLost(c: Crypto, l: LedgerState, txs: seq<Transaction>, height: u64, t: nat)
    requires ApplyFrom(c, l, EMPTY_DIFF, txs, height, 0).error.None? && FreshOutputs(c, l, txs)
    requires 0 < t < |txs| && !UnambiguousImages(l, txs[t].inputs)
    ensures var o := ApplyFrom(c, l, EMPTY_DIFF, txs, height, 0); Unwind(o.ledger, o.diff) != l
  {
    var inputs := txs[t].inputs;
    var i: nat, j: nat :| i < j < |inputs| && SharesImage(inputs, i, j) && inputs[j].Outpoint() in l.utxos;
    ApplyLosesAmbiguous(c, l, EMPTY_DIFF, txs, height, 0, t, i, j);
    var o := ApplyFrom(c, l, EMPTY_DIFF, txs, height, 0);
    assert inputs[j].Outpoint() !in Unwind(o.ledger, o.diff).utxos;
  }

  /** A successful apply is undone by its diff exactly if the block is reversible. */
  lemma UndoneExactlyIfReversible(c: Crypto, l: LedgerState, txs: seq<Transaction>, height: u64)
    requires ApplyFrom(c, l, EMPTY_DIFF, txs, height, 0).error.None?
    ensures
      var o := ApplyFrom(c, l, EMPTY_DIFF, txs, height, 0);
      Unwind(o.ledger, o.diff) == l <==> Reversible(c, l, txs)
  {
    hide ApplyTx, ApplyFrom, Unwind, FreshOutputs, SupplyFits, UnambiguousImages;
    if Reversible(c, l, txs) {
      UnwindRestores(c, l, txs, height);
    } else if !FreshOutputs(c, l, txs) {
      StaleOutputIsLost(c, l, txs, height);
    } else if !SupplyFits(l, txs) {
      SkippedSupplyIsLost(c, l, txs, height);
    } else {
      var t :| 0 < t < |txs| && !UnambiguousImages(l, txs[t].inputs);
      AmbiguousImageIsLost(c, l, txs, height, t);
    }
  }

  // ----- Failed applies

  /** How many transactions are done with when the apply ends, all of them or those before the first error. */
  function AppliedCount(c: Crypto, l: LedgerState, d: BlockDiff, txs: seq<Transaction>, height: u64, i: nat): (k: nat)
    requires i <= |txs|
    ensures i <= k <= |txs|
    decreases |txs| - i
  {
    if i == |txs| then i
    else
      var o := ApplyTx(c, l, d, txs[i], i, height);
      if o.error.Some? then i else AppliedCount(c, o.ledger, o.diff, txs, height, i + 1)
  }

  /** An apply that stops at an error leaves what the transactions before it leave. */
  lemma {:induction false} StopsAfter(c: Crypto, l: LedgerState, d: BlockDiff, txs: seq<Transaction>, height: u64,
      i: nat)
    requires i <= |txs|
    ensures
      var k := AppliedCount(c, l, d, txs, height, i);
      var o, p := ApplyFrom(c, l, d, txs, height, i), ApplyFrom(c, l, d, txs[..k], height, i);
      p == Outcome(o.ledger, o.diff, None) && (o.error.None? <==> k == |txs|)
    decreases |txs| - i
  {
    hide ApplyTx;
    if i < |txs| {
      var o := ApplyTx(c, l, d, txs[i], i, height);
      FailingChangesNothing(c, l, d, txs[i], i, height);
      if o.error.None? { StopsAfter(c, o.ledger, o.diff, txs, height, i + 1); }
    }
  }

  lemma FailingChangesNothing(c: Crypto, l: LedgerState, d: BlockDiff, tx: Transaction, idx: nat, height: u64)
    ensures var o := ApplyTx(c, l, d, tx, idx, height); o.error.Some? ==> o.ledger == l && o.diff == d
  {
  }

  /** For every ledger and every list of transactions, wherever the apply ends: its diff leads back
      exactly if the transactions that were applied are reversible. */
  lemma UnwoundExactly(c: Crypto, l: LedgerState, txs: seq<Transaction>, height: u64)
    ensures
      var o, k := ApplyFrom(c, l, EMPTY_DIFF, txs, height, 0), AppliedCount(c, l, EMPTY_DIFF, txs, height, 0);
      Unwind(o.ledger, o.diff) == l <==> Reversible(c, l, txs[..k])
  {
    hide ApplyFrom, Unwind, Reversible;
    StopsAfter(c, l, EMPTY_DIFF, txs, height, 0);
    UndoneExactlyIfReversible(c, l, txs[..AppliedCount(c, l, EMPTY_DIFF, txs, height, 0)], height);
  }

  /** A failed apply changes nothing exactly if the transactions before the failing one are reversible. */
  lemma AtomicExactly(c: Crypto, l: LedgerState, b: Block, height: u64)
    requires ApplyTracked(c, l, b, height).1.Err?
    ensures ApplyTracked(c, l, b, height).0 == l
       <==> Reversible(c, l, b.transactions[..AppliedCount(c, l, EMPTY_DIFF, b.transactions, height, 0)])
  {
    hide ApplyFrom, Unwind, Reversible;
    UnwoundExactly(c, l, b.transactions, height);
  }

  /** A failed apply that does change the ledger: a coinbase that makes an existing outpoint again, then
      an empty transaction. */
  lemma FailedApplyExample(c: Crypto, header: BlockHeader, height: u64)
    ensures
      var o := TxOutput(0, 0, FounderLock(height), None, None, None, None);
      var coinbase, empty := Transaction(1, [], [o], 1, [], None, None), Transaction(1, [], [], 1, [], None, None);
      var l := LedgerState(map[UtxoKey(TxHash(c, coinbase), 0) := EntryOf(o, height, 0, 0)], {}, 0);
      var (l', r) := ApplyTracked(c, l, Block(header, [coinbase, empty], ZERO), height);
      r == Err(EmptyTx) && l' != l
  {
    var o := TxOutput(0, 0, FounderLock(height), None, None, None, None);
    var coinbase, empty := Transaction(1, [], [o], 1, [], None, None), Transaction(1, [], [], 1, [], None, None);
    var l := LedgerState(map[UtxoKey(TxHash(c, coinbase), 0) := EntryOf(o, height, 0, 0)], {}, 0);
    var b := Block(header, [coinbase, empty], ZERO);
    assert PlainSum(coinbase.outputs, 0) == 0 && PlainSum(coinbase.outputs, 1) == 0;
    assert CheckCoinbase(coinbase, height) == None;
    var first := ApplyTx(c, l, EMPTY_DIFF, coinbase, 0, height);
    assert first.error == None;
    assert ApplyTx(c, first.ledger, first.diff, empty, 1, height).error == Some(EmptyTx);
    assert ApplyFrom(c, first.ledger, first.diff, b.transactions, height, 1).error == Some(EmptyTx);
    assert AppliedCount(c, first.ledger, first.diff, b.transactions, height, 1) == 1;
    assert AppliedCount(c, l, EMPTY_DIFF, b.transactions, height, 0) == 1;
    assert b.transactions[..1][0] == coinbase && UtxoKey(TxHash(c, coinbase), 0) in l.utxos;
    AtomicExactly(c, l, b, height);
  }

  /** Two coinbases that differ at most in the time lock have the same hash, so when blocks at two
      heights pay the same outputs, the later block is not undone by its diff. */
  lemma RepeatedCoinbaseIsNotUndone(c: Crypto, l: LedgerState, first: Transaction, second: Transaction, h1: u64,
      h2: u64)
    requires Preimage(first) == Preimage(second) && first.outputs != []
    requires ApplyFrom(c, l, EMPTY_DIFF, [first], h1, 0).error.None?
    requires
      var l1 := ApplyFrom(c, l, EMPTY_DIFF, [first], h1, 0).ledger;
      ApplyFrom(c, l1, EMPTY_DIFF, [second], h2, 0).error.None?
    ensures
      var l1 := ApplyFrom(c, l, EMPTY_DIFF, [first], h1, 0).ledger;
      var o := ApplyFrom(c, l1, EMPTY_DIFF, [second], h2, 0);
      Unwind(o.ledger, o.diff) != l1
  {
    var o1 := ApplyTx(c, l, EMPTY_DIFF, first, 0, h1);
    assert ApplyFrom(c, l, EMPTY_DIFF, [first], h1, 0) == o1;
    AddOutputsAt(l.utxos, TxHash(c, first), first.outputs, h1, 0, |first.outputs|);
    assert |Preimage(first).outputs| == |Preimage(second).outputs|;
    assert UtxoKey(TxHash(c, [second][0]), 0) in o1.ledger.utxos;
    UndoneExactlyIfReversible(c, o1.ledger, [second], h2);
  }
}
