/** The diff that a reorganisation makes up for a block whose own diff was not kept: of the blocks that
    any diff can undo, it undoes exactly those that spend nothing that the ledger held before. */
module Fallback {
  import opened Types
  import opened Ledger
  import opened LedgerProofs
  import opened Reversibility
  import opened Chain

  /** Every input names an output that the same block creates, so that none comes from the ledger `l`. */
  predicate SpendsNothingOf(l: LedgerState, txs: seq<Transaction>) {
    forall t, j | 0 < t < |txs| && 0 <= j < |txs[t].inputs| :: txs[t].inputs[j].Outpoint() !in l.utxos
  }

  predicate SpentBefore(txs: seq<Transaction>, n: nat, key: UtxoKey)
    requires n <= |txs|
  {
    exists t, j | 0 < t < n && 0 <= j < |txs[t].inputs| :: txs[t].inputs[j].Outpoint() == key
  }

  /** `f` is `d` without the consumed entries. */
  predicate Forgets(d: BlockDiff, f: BlockDiff) {
    f == d.(consumed := map[])
  }

  lemma {:induction false} RecordAllFields(l: LedgerState, d: BlockDiff, inputs: seq<TxInput>, n: nat)
    requires n <= |inputs|
    ensures
      var d' := RecordAll(l, d, inputs, n);
      && d'.created == d.created && d'.supplyDelta == d.supplyDelta
      && d'.keyImages == d.keyImages + seq(n, i requires 0 <= i < n => inputs[i].keyImage)
  {
    if n > 0 { RecordAllFields(l, d, inputs, n - 1); }
  }

  lemma TxKeepsForgets(c: Crypto, l: LedgerState, d: BlockDiff, txs: seq<Transaction>, i: nat, height: u64)
    requires i < |txs| && Forgets(d, FallbackDiff(c, txs, i))
    ensures
      var o := ApplyTx(c, l, d, txs[i], i, height);
      o.error.None? ==> Forgets(o.diff, FallbackDiff(c, txs, i + 1))
  {
    RecordAllFields(l, d, txs[i].inputs, |txs[i].inputs|);
  }

  /** On a block that applies, the made-up diff is the recorded one without the consumed entries. */
  lemma {:induction false} FallbackForgets(c: Crypto, l: LedgerState, d: BlockDiff, txs: seq<Transaction>,
      height: u64, i: nat)
    requires i <= |txs| && Forgets(d, FallbackDiff(c, txs, i))
    ensures
      var o := ApplyFrom(c, l, d, txs, height, i);
      o.error.None? ==> Forgets(o.diff, FallbackDiff(c, txs, |txs|))
    decreases |txs| - i
  {
    hide ApplyTx, FallbackDiff, Forgets;
    if i < |txs| {
      TxKeepsForgets(c, l, d, txs, i, height);
      var o := ApplyTx(c, l, d, txs[i], i, height);
      if o.error.None? { FallbackForgets(c, o.ledger, o.diff, txs, height, i + 1); }
    }
  }

  /** An outpoint of the ledger survives a transaction exactly if no input names it. */
  lemma TxSpends(c: Crypto, l0: LedgerState, l: LedgerState, d: BlockDiff, txs: seq<Transaction>, i: nat, height: u64,
      key: UtxoKey)
    requires i < |txs| && FreshOutputs(c, l0, txs) && key in l0.utxos
    requires key in l.utxos <==> !SpentBefore(txs, i, key)
    ensures
      var o := ApplyTx(c, l, d, txs[i], i, height);
      o.error.None? ==> (key in o.ledger.utxos <==> !SpentBefore(txs, i + 1, key))
  {
    hide Preimage, CheckSpend, Validate, CheckCoinbase, CoinbaseAmount, AddSupply;
    var tx, o := txs[i], ApplyTx(c, l, d, txs[i], i, height);
    if o.error.None? {
      var h, n := TxHash(c, tx), |tx.outputs|;
      if i == 0 {
        AddOutputsAt(l.utxos, h, tx.outputs, height, i, n);
      } else {
        SpendAllUtxos(l, tx.inputs, |tx.inputs|, key);
        AddOutputsAt(SpendAll(l, tx.inputs, |tx.inputs|).utxos, h, tx.outputs, height, i, n);
      }
      HeldIsNotCreated(c, l0, txs, i, key);
    }
  }

  lemma HeldIsNotCreated(c: Crypto, l0: LedgerState, txs: seq<Transaction>, i: nat, key: UtxoKey)
    requires i < |txs| && FreshOutputs(c, l0, txs) && key in l0.utxos
    ensures !(key.txHash == TxHash(c, txs[i]) && key.outputIndex < |txs[i].outputs|)
  {
    forall j | 0 <= j < |txs[i].outputs|
      ensures key != UtxoKey(TxHash(c, txs[i]), j)
    {
    }
  }

  lemma {:induction false} BlockSpends(c: Crypto, l0: LedgerState, l: LedgerState, d: BlockDiff,
      txs: seq<Transaction>, height: u64, i: nat, key: UtxoKey)
    requires i <= |txs| && FreshOutputs(c, l0, txs) && key in l0.utxos
    requires key in l.utxos <==> !SpentBefore(txs, i, key)
    ensures
      var o := ApplyFrom(c, l, d, txs, height, i);
      o.error.None? ==> (key in o.ledger.utxos <==> !SpentBefore(txs, |txs|, key))
    decreases |txs| - i
  {
    hide ApplyTx, FreshOutputs, SpentBefore;
    if i < |txs| {
      TxSpends(c, l0, l, d, txs, i, height, key);
      var o := ApplyTx(c, l, d, txs[i], i, height);
      if o.error.None? { BlockSpends(c, l0, o.ledger, o.diff, txs, height, i + 1, key); }
    }
  }

  /** Where the unwound ledger agrees with the old one: everywhere but at the spent outpoints. */
  lemma ForgetfulUnwind(l0: LedgerState, l: LedgerState, d: BlockDiff, f: BlockDiff, key: UtxoKey)
    requires Tracks(l0, l, d) && Forgets(d, f)
    ensures Unwind(l, f).spent == l0.spent && Unwind(l, f).supply == l0.supply
    ensures
      var u := Unwind(l, f).utxos;
      && (key in u <==> key in l0.utxos && key in l.utxos)
      && (key in u ==> u[key] == l0.utxos[key])
  {
    assert ConsumedKeys(f) == {};
    if key !in d.created { assert TracksKey(l0, l, d, key); }
  }

  lemma FallbackRestores(c: Crypto, l: LedgerState, txs: seq<Transaction>, height: u64)
    requires FreshOutputs(c, l, txs) && SupplyFits(l, txs) && SpendsNothingOf(l, txs)
    requires ApplyFrom(c, l, EMPTY_DIFF, txs, height, 0).error.None?
    ensures Unwind(ApplyFrom(c, l, EMPTY_DIFF, txs, height, 0).ledger, FallbackDiff(c, txs, |txs|)) == l
  {
    hide ApplyFrom, Tracks, Forgets, Unwind, FreshOutputs, SupplyFits, FallbackDiff;
    var o, f := ApplyFrom(c, l, EMPTY_DIFF, txs, height, 0), FallbackDiff(c, txs, |txs|);
    var u := Unwind(o.ledger, f);
    NothingSpentIsReversible(c, l, txs);
    EmptyTracks(l);
    ApplyKeepsTracks(c, l, l, EMPTY_DIFF, txs, height, 0);
    StartsForgetful(c, txs);
    FallbackForgets(c, l, EMPTY_DIFF, txs, height, 0);
    ForgetfulUnwind(l, o.ledger, o.diff, f, UtxoKey(ZERO, 0));
    forall key
      ensures key in u.utxos <==> key in l.utxos
      ensures key in u.utxos ==> u.utxos[key] == l.utxos[key]
    {
      ForgetfulUnwind(l, o.ledger, o.diff, f, key);
      if key in l.utxos { BlockSpends(c, l, l, EMPTY_DIFF, txs, height, 0, key); }
    }
    assert u.utxos == l.utxos;
  }

  lemma NothingSpentIsReversible(c: Crypto, l: LedgerState, txs: seq<Transaction>)
    requires FreshOutputs(c, l, txs) && SupplyFits(l, txs) && SpendsNothingOf(l, txs)
    ensures Reversible(c, l, txs)
  {
  }

  /** Reorganising away a block with the made-up diff restores the ledger exactly if the block makes no
      outpoint again, does not overflow the supply, and names in no input an output from before it. */
  lemma FallbackRestoresExactly(c: Crypto, l: LedgerState, txs: seq<Transaction>, height: u64)
    requires ApplyFrom(c, l, EMPTY_DIFF, txs, height, 0).error.None?
    ensures
      Unwind(ApplyFrom(c, l, EMPTY_DIFF, txs, height, 0).ledger, FallbackDiff(c, txs, |txs|)) == l
      <==> FreshOutputs(c, l, txs) && SupplyFits(l, txs) && SpendsNothingOf(l, txs)
  {
    hide ApplyFrom, Unwind, FreshOutputs, SupplyFits, FallbackDiff, Forgets;
    var o, f := ApplyFrom(c, l, EMPTY_DIFF, txs, height, 0), FallbackDiff(c, txs, |txs|);
    StartsForgetful(c, txs);
    FallbackForgets(c, l, EMPTY_DIFF, txs, height, 0);
    if !FreshOutputs(c, l, txs) {
      StaleOutputIsLost(c, l, txs, height);
      var k :| k in o.diff.created && k in l.utxos;
      ForgottenIsGone(o.ledger, o.diff, f, k);
    } else if !SupplyFits(l, txs) {
      SkippedSupplyIsLost(c, l, txs, height);
      ForgottenIsGone(o.ledger, o.diff, f, UtxoKey(ZERO, 0));
    } else if !SpendsNothingOf(l, txs) {
      var t, j :| 0 < t < |txs| && 0 <= j < |txs[t].inputs| && txs[t].inputs[j].Outpoint() in l.utxos;
      var key := txs[t].inputs[j].Outpoint();
      assert SpentBefore(txs, |txs|, key);
      BlockSpends(c, l, l, EMPTY_DIFF, txs, height, 0, key);
      ForgottenIsGone(o.ledger, o.diff, f, key);
    } else {
      FallbackRestores(c, l, txs, height);
    }
  }

  /** What the made-up diff cannot bring back. */
  lemma ForgottenIsGone(l: LedgerState, d: BlockDiff, f: BlockDiff, key: UtxoKey)
    requires Forgets(d, f)
    ensures key in Unwind(l, f).utxos <==> key in l.utxos && key !in d.created
    ensures Unwind(l, f).supply == Unwind(l, d).supply
  {
    assert ConsumedKeys(f) == {};
  }

  lemma StartsForgetful(c: Crypto, txs: seq<Transaction>)
    ensures Forgets(EMPTY_DIFF, FallbackDiff(c, txs, 0))
  {
  }
}
