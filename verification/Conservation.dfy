/** Where money comes from and goes: in every replayed ledger, and so in every reachable one, the supply is
    the sum of the unspent amounts plus the fees dropped on the way, up to what was made out of nothing, not
    counted, or overwritten. All three are measured on the transactions, and any of them may happen. */
module Conservation {
  import opened Types
  import opened Ledger
  import opened LedgerProofs
  import opened BlockTree
  import opened Chain
  import opened Replay
  import opened Runs
  import opened Hygiene

  type Utxos = map<UtxoKey, UtxoEntry>

  /** The sum of all unspent amounts. */
  ghost function Total(u: Utxos): nat
    decreases |u|
  {
    if u == map[] then 0
    else
      var k :| k in u;
      assert (u - {k}).Keys == u.Keys - {k};
      u[k].amount + Total(u - {k})
  }

  lemma {:induction false} TotalRemove(u: Utxos, k: UtxoKey)
    requires k in u
    ensures Total(u) == u[k].amount + Total(u - {k})
    decreases |u|
  {
    var x :| x in u && Total(u) == u[x].amount + Total(u - {x});
    if x != k {
      assert (u - {x}).Keys == u.Keys - {x} && (u - {k}).Keys == u.Keys - {k};
      TotalRemove(u - {x}, k);
      TotalRemove(u - {k}, x);
      assert u - {x} - {k} == u - {k} - {x};
    }
  }

  lemma TotalInsert(u: Utxos, k: UtxoKey, e: UtxoEntry)
    requires k !in u
    ensures Total(u[k := e]) == Total(u) + e.amount
  {
    TotalRemove(u[k := e], k);
    assert u[k := e] - {k} == u;
  }

  // ----- One transaction

  function InputAmounts(l: LedgerState, inputs: seq<TxInput>, n: nat): nat
    requires n <= |inputs| && forall k | 0 <= k < |inputs| :: inputs[k].Outpoint() in l.utxos
  {
    if n == 0 then 0 else InputAmounts(l, inputs, n - 1) + l.utxos[inputs[n - 1].Outpoint()].amount
  }

  /** What the inputs of a transaction hold beyond what its outputs pay. */
  function Fee(l: LedgerState, tx: Transaction): int {
    if forall k | 0 <= k < |tx.inputs| :: tx.inputs[k].Outpoint() in l.utxos
    then InputAmounts(l, tx.inputs, |tx.inputs|) - PlainSum(tx.outputs, |tx.outputs|)
    else 0
  }

  /** What the inputs among the first `n` hold that name an outpoint a second time. */
  function RepeatedAmounts(l: LedgerState, inputs: seq<TxInput>, n: nat): nat
    requires n <= |inputs| && forall k | 0 <= k < |inputs| :: inputs[k].Outpoint() in l.utxos
  {
    if n == 0 then 0
    else
      RepeatedAmounts(l, inputs, n - 1)
      + if FirstNaming(inputs, n - 1) then 0 else l.utxos[inputs[n - 1].Outpoint()].amount
  }

  /** Every input that names an outpoint again names a worthless one. */
  predicate WorthlessRepeats(l: LedgerState, inputs: seq<TxInput>)
    requires forall k | 0 <= k < |inputs| :: inputs[k].Outpoint() in l.utxos
  {
    forall k | 0 <= k < |inputs| && !FirstNaming(inputs, k) :: l.utxos[inputs[k].Outpoint()].amount == 0
  }

  lemma {:induction false} NoRepeatedAmounts(l: LedgerState, inputs: seq<TxInput>, n: nat)
    requires n <= |inputs| && forall k | 0 <= k < |inputs| :: inputs[k].Outpoint() in l.utxos
    ensures RepeatedAmounts(l, inputs, n) == 0
       <==> forall k | 0 <= k < n && !FirstNaming(inputs, k) :: l.utxos[inputs[k].Outpoint()].amount == 0
  {
    if n > 0 { NoRepeatedAmounts(l, inputs, n - 1); }
  }

  /** Inputs are added up once each, but an outpoint is removed only once. */
  lemma {:induction false} SpendingRemoves(l: LedgerState, inputs: seq<TxInput>, n: nat)
    requires n <= |inputs|
    requires forall k | 0 <= k < |inputs| :: inputs[k].Outpoint() in l.utxos
    ensures Total(SpendAll(l, inputs, n).utxos) + InputAmounts(l, inputs, n)
         == Total(l.utxos) + RepeatedAmounts(l, inputs, n)
  {
    if n > 0 {
      var u, key := SpendAll(l, inputs, n - 1).utxos, inputs[n - 1].Outpoint();
      SpendingRemoves(l, inputs, n - 1);
      SpendAllUtxos(l, inputs, n - 1, key);
      if key in u {
        TotalRemove(u, key);
      } else {
        assert u - {key} == u;
      }
    }
  }

  /** What the first `n` outputs under a hash replace, if they exist already. */
  function Overwritten(u: Utxos, h: Hash, n: nat): nat {
    if n == 0 then 0
    else Overwritten(u, h, n - 1) + if UtxoKey(h, n - 1) in u then u[UtxoKey(h, n - 1)].amount else 0
  }

  lemma TotalUpdate(u: Utxos, k: UtxoKey, e: UtxoEntry)
    ensures Total(u[k := e]) + (if k in u then u[k].amount else 0) == Total(u) + e.amount
  {
    if k in u {
      TotalRemove(u, k);
      TotalRemove(u[k := e], k);
      assert u[k := e] - {k} == u - {k};
    } else {
      TotalInsert(u, k, e);
    }
  }

  lemma {:induction false} CreatingAdds(u: Utxos, h: Hash, outputs: seq<TxOutput>, height: u64, idx: nat, n: nat)
    requires n <= |outputs|
    ensures Total(AddOutputs(u, h, outputs, height, idx, n)) + Overwritten(u, h, n) == Total(u) + PlainSum(outputs, n)
  {
    hide Total;
    if n > 0 {
      CreatingAdds(u, h, outputs, height, idx, n - 1);
      AddOutputsAt(u, h, outputs, height, idx, n - 1);
      TotalUpdate(AddOutputs(u, h, outputs, height, idx, n - 1), UtxoKey(h, n - 1),
          EntryOf(outputs[n - 1], height, idx, n - 1));
    }
  }

  lemma {:induction false} NothingOverwritten(u: Utxos, h: Hash, n: nat)
    requires forall i | 0 <= i < n :: UtxoKey(h, i) !in u
    ensures Overwritten(u, h, n) == 0
  {
    if n > 0 { NothingOverwritten(u, h, n - 1); }
  }

  /** Outputs that exist already with the same amounts are overwritten in full. */
  lemma {:induction false} AllOverwritten(u: Utxos, h: Hash, outputs: seq<TxOutput>, n: nat)
    requires n <= |outputs|
    requires forall i | 0 <= i < n :: UtxoKey(h, i) in u && u[UtxoKey(h, i)].amount == outputs[i].amount
    ensures Overwritten(u, h, n) == PlainSum(outputs, n)
  {
    if n > 0 { AllOverwritten(u, h, outputs, n - 1); }
  }

  lemma {:induction false} InputSumIsSum(l: LedgerState, inputs: seq<TxInput>, i: nat, acc: u64, checkImages: bool)
    requires i <= |inputs| && InputSum(l, inputs, i, acc, checkImages).Ok?
    requires forall k | 0 <= k < |inputs| :: inputs[k].Outpoint() in l.utxos
    requires acc == InputAmounts(l, inputs, i)
    ensures InputSum(l, inputs, i, acc, checkImages).value == InputAmounts(l, inputs, |inputs|)
    decreases |inputs| - i
  {
    if i < |inputs| {
      InputSumIsSum(l, inputs, i + 1, acc + l.utxos[inputs[i].Outpoint()].amount, checkImages);
    }
  }

  lemma {:induction false} OutputSumIsSum(outputs: seq<TxOutput>, i: nat, acc: u64)
    requires i <= |outputs| && OutputSum(outputs, i, acc).Ok? && acc == PlainSum(outputs, i)
    ensures OutputSum(outputs, i, acc).value == PlainSum(outputs, |outputs|)
    decreases |outputs| - i
  {
    if i < |outputs| { OutputSumIsSum(outputs, i + 1, acc + outputs[i].amount); }
  }

  /** A transaction that validates has a fee that is not negative, unless it pays out without any input:
      the source compares the two sums only if there are inputs. */
  lemma FeeIsNonNegativeExactly(l: LedgerState, tx: Transaction)
    requires Validate(l, tx).None?
    ensures Fee(l, tx) >= 0 <==> tx.inputs != [] || PlainSum(tx.outputs, |tx.outputs|) == 0
  {
    InputSumOk(l, tx.inputs, 0, 0, true);
    InputSumIsSum(l, tx.inputs, 0, 0, true);
    OutputSumIsSum(tx.outputs, 0, 0);
  }

  predicate Unmade(c: Crypto, l: LedgerState, tx: Transaction) {
    forall i | 0 <= i < |tx.outputs| :: UtxoKey(TxHash(c, tx), i) !in l.utxos
  }

  /** What becomes of money that is not moved: the fees dropped, what is made out of nothing, what a coinbase pays
      without the supply taking it up, and the unspent amounts that are lost because their outpoint is made again. */
  datatype Account = Account(fees: int, surplus: nat, skipped: nat, overwritten: nat) {
    function Plus(a: Account): Account {
      Account(fees + a.fees, surplus + a.surplus, skipped + a.skipped, overwritten + a.overwritten)
    }

    predicate Balanced() { surplus + skipped == overwritten }
  }

  const NOTHING := Account(0, 0, 0, 0)

  /** What a transaction adds to the unspent amounts out of nothing: what a coinbase pays beyond its
      wrapped sum, and what a spend takes from an outpoint it names again. */
  function Surplus(l: LedgerState, tx: Transaction, idx: nat): nat {
    if idx == 0 then PlainSum(tx.outputs, |tx.outputs|) - CoinbaseAmount(tx)
    else if forall k | 0 <= k < |tx.inputs| :: tx.inputs[k].Outpoint() in l.utxos
    then RepeatedAmounts(l, tx.inputs, |tx.inputs|)
    else 0
  }

  function TxAccount(c: Crypto, l: LedgerState, tx: Transaction, idx: nat): Account {
    var n, amount := |tx.outputs|, CoinbaseAmount(tx);
    if idx == 0 then
      var skipped := if l.supply + amount < U64_LIMIT then 0 else amount;
      Account(0, Surplus(l, tx, 0), skipped, Overwritten(l.utxos, TxHash(c, tx), n))
    else
      Account(Fee(l, tx), Surplus(l, tx, idx), 0,
              Overwritten(SpendAll(l, tx.inputs, |tx.inputs|).utxos, TxHash(c, tx), n))
  }

  /** From one ledger to the other, unspent amounts and fees rise by as much as the supply, up to the account. */
  ghost predicate Accounts(l: LedgerState, l': LedgerState, a: Account) {
    && Total(l'.utxos) + a.fees - Total(l.utxos) == l'.supply - l.supply + a.surplus + a.skipped - a.overwritten
    && (Total(l'.utxos) + a.fees - Total(l.utxos) == l'.supply - l.supply <==> a.Balanced())
  }

  /** Every transaction that applies is accounted for. */
  lemma TxAccounts(c: Crypto, l: LedgerState, d: BlockDiff, tx: Transaction, idx: nat, height: u64)
    requires ApplyTx(c, l, d, tx, idx, height).error.None?
    ensures Accounts(l, ApplyTx(c, l, d, tx, idx, height).ledger, TxAccount(c, l, tx, idx))
    ensures idx == 0 || tx.inputs != [] || PlainSum(tx.outputs, |tx.outputs|) == 0 ==>
              TxAccount(c, l, tx, idx).fees >= 0
  {
    if idx == 0 {
      CreatingAdds(l.utxos, TxHash(c, tx), tx.outputs, height, 0, |tx.outputs|);
    } else {
      InputSumOk(l, tx.inputs, 0, 0, true);
      SpendingRemoves(l, tx.inputs, |tx.inputs|);
      SpendAllShrinks(l, tx.inputs, |tx.inputs|);
      CreatingAdds(SpendAll(l, tx.inputs, |tx.inputs|).utxos, TxHash(c, tx), tx.outputs, height, idx, |tx.outputs|);
      FeeIsNonNegativeExactly(l, tx);
    }
  }

  /** A spend that applies moves its inputs to its outputs and its fee, exactly if what it takes from outpoints
      that it names again is what its outputs overwrite; for new outputs, if it names nothing of value twice.
      The supply stays. */
  lemma SpendConservesExactly(c: Crypto, l: LedgerState, d: BlockDiff, tx: Transaction, idx: nat, height: u64)
    requires idx > 0 && ApplyTx(c, l, d, tx, idx, height).error.None?
    ensures forall k | 0 <= k < |tx.inputs| :: tx.inputs[k].Outpoint() in l.utxos
    ensures
      var l' := ApplyTx(c, l, d, tx, idx, height).ledger;
      var lost := Overwritten(SpendAll(l, tx.inputs, |tx.inputs|).utxos, TxHash(c, tx), |tx.outputs|);
      && Total(l'.utxos) + Fee(l, tx) + lost == Total(l.utxos) + Surplus(l, tx, idx) && l'.supply == l.supply
      && (Total(l'.utxos) + Fee(l, tx) == Total(l.utxos) <==> RepeatedAmounts(l, tx.inputs, |tx.inputs|) == lost)
      && (Unmade(c, l, tx) ==>
            (Total(l'.utxos) + Fee(l, tx) == Total(l.utxos) <==> WorthlessRepeats(l, tx.inputs)))
  {
    InputSumOk(l, tx.inputs, 0, 0, true);
    SpendAllShrinks(l, tx.inputs, |tx.inputs|);
    TxAccounts(c, l, d, tx, idx, height);
    NoRepeatedAmounts(l, tx.inputs, |tx.inputs|);
    if Unmade(c, l, tx) {
      NothingOverwritten(SpendAll(l, tx.inputs, |tx.inputs|).utxos, TxHash(c, tx), |tx.outputs|);
    }
  }

  /** Naming one outpoint twice makes as much money as it holds. */
  lemma NamedTwiceMakesMoney(c: Crypto, l: LedgerState, d: BlockDiff, tx: Transaction, x: TxInput, idx: nat,
      height: u64)
    requires idx > 0 && ApplyTx(c, l, d, tx, idx, height).error.None? && Unmade(c, l, tx) && tx.inputs == [x, x]
    ensures x.Outpoint() in l.utxos
    ensures
      var l' := ApplyTx(c, l, d, tx, idx, height).ledger;
      Total(l'.utxos) + Fee(l, tx) == Total(l.utxos) + l.utxos[x.Outpoint()].amount && l'.supply == l.supply
  {
    SpendConservesExactly(c, l, d, tx, idx, height);
    SpendAllShrinks(l, tx.inputs, |tx.inputs|);
    NothingOverwritten(SpendAll(l, tx.inputs, |tx.inputs|).utxos, TxHash(c, tx), |tx.outputs|);
    assert tx.inputs[0] == x;
    assert RepeatedAmounts(l, tx.inputs, 1) == 0 && !FirstNaming(tx.inputs, 1);
  }

  /** A plain spend that names an output of 5 twice and pays out 10. */
  function SpendTwice(key: UtxoKey, pubkey: Bytes): Transaction {
    var x := TxInput(key.txHash, key.outputIndex, 1, pubkey);
    Transaction(1, [x, x], [TxOutput(10, 0, 0, None, None, None, None)], 1, [], None, None)
  }

  /** It applies to a ledger that holds no more than those 5, and leaves 10. */
  lemma NamedTwiceExample(c: Crypto, key: UtxoKey, pubkey: Bytes, supply: nat, height: u64)
    requires pubkey != [] && c.signatureOk(pubkey, MsgOf(SpendTwice(key, pubkey)), [])
    requires key.txHash != TxHash(c, SpendTwice(key, pubkey))
    ensures
      var l := LedgerState(map[key := UtxoEntry(5, c.hashPubkey(pubkey), 0, 0, 0, 0, None, None, None)], {}, supply);
      var o := ApplyTx(c, l, EMPTY_DIFF, SpendTwice(key, pubkey), 1, height);
      o.error == None && Total(l.utxos) == 5 && Total(o.ledger.utxos) == 10 && o.ledger.supply == supply
  {
    var tx := SpendTwice(key, pubkey);
    var l := LedgerState(map[key := UtxoEntry(5, c.hashPubkey(pubkey), 0, 0, 0, 0, None, None, None)], {}, supply);
    var x := tx.inputs[0];
    assert x.Outpoint() == key && tx.inputs[1] == x;
    assert InputSum(l, tx.inputs, 2, 10, true) == Ok(10) == InputSum(l, tx.inputs, 1, 5, true);
    assert OutputSum(tx.outputs, 1, 10) == Ok(10);
    assert CheckInputs(c, l, tx, height, 2) == None == CheckInputs(c, l, tx, height, 1);
    assert CheckOutputs(c, tx.outputs, 1) == None;
    assert CheckSpend(c, l, tx, height) == None && Validate(l, tx) == None;
    NamedTwiceMakesMoney(c, l, EMPTY_DIFF, tx, x, 1, height);
    TotalInsert(map[], key, l.utxos[key]);
    assert InputAmounts(l, tx.inputs, 1) == 5 && PlainSum(tx.outputs, 1) == 10;
  }

  /** A coinbase raises supply and unspent amounts alike exactly if what it wraps away and what the supply does
      not take up is what its outputs overwrite; if they are new and the supply has room, if its sum does not wrap. */
  lemma CoinbaseConservesExactly(c: Crypto, l: LedgerState, d: BlockDiff, tx: Transaction, height: u64)
    requires ApplyTx(c, l, d, tx, 0, height).error.None?
    ensures
      var l' := ApplyTx(c, l, d, tx, 0, height).ledger;
      var raisesAlike := Total(l'.utxos) - Total(l.utxos) == l'.supply - l.supply;
      && (raisesAlike <==> TxAccount(c, l, tx, 0).Balanced())
      && (Unmade(c, l, tx) && SupplyFits(l, [tx]) ==>
            (raisesAlike <==> PlainSum(tx.outputs, |tx.outputs|) < U64_LIMIT))
  {
    hide Total, Unmade, SupplyFits, CheckCoinbase, Surplus, Overwritten, AddOutputs;
    TxAccounts(c, l, d, tx, 0, height);
    AppliedCoinbaseIsSmall(c, l, d, tx, height);
    if Unmade(c, l, tx) && SupplyFits(l, [tx]) { SmallCoinbaseIsBalanced(c, l, tx); }
  }

  lemma AppliedCoinbaseIsSmall(c: Crypto, l: LedgerState, d: BlockDiff, tx: Transaction, height: u64)
    requires ApplyTx(c, l, d, tx, 0, height).error.None?
    ensures CoinbaseAmount(tx) <= MAX_EMISSION
  {
  }

  lemma SmallCoinbaseIsBalanced(c: Crypto, l: LedgerState, tx: Transaction)
    requires Unmade(c, l, tx) && SupplyFits(l, [tx]) && CoinbaseAmount(tx) <= MAX_EMISSION
    ensures TxAccount(c, l, tx, 0).Balanced() <==> PlainSum(tx.outputs, |tx.outputs|) < U64_LIMIT
  {
    WrapIsIdentityBelow(PlainSum(tx.outputs, |tx.outputs|));
    NothingOverwritten(l.utxos, TxHash(c, tx), |tx.outputs|);
  }

  lemma WrapIsIdentityBelow(x: nat)
    ensures x % U64_LIMIT == x <==> x < U64_LIMIT
  {
  }

  /** A coinbase that repeats an earlier one, up to its time lock, overwrites it: the supply rises, unspent
      amounts do not. */
  lemma RepeatedCoinbaseLoses(c: Crypto, l: LedgerState, first: Transaction, second: Transaction, h1: u64, h2: u64,
      d: BlockDiff)
    requires Preimage(first) == Preimage(second) && ApplyTx(c, l, EMPTY_DIFF, first, 0, h1).error.None?
    requires ApplyTx(c, ApplyTx(c, l, EMPTY_DIFF, first, 0, h1).ledger, d, second, 0, h2).error.None?
    ensures
      var l1 := ApplyTx(c, l, EMPTY_DIFF, first, 0, h1).ledger;
      var l2 := ApplyTx(c, l1, d, second, 0, h2).ledger;
      && Total(l2.utxos) == Total(l1.utxos)
      && l2.supply == AddSupply(l1.supply, CoinbaseAmount(second))
  {
    var l1, h, n := ApplyTx(c, l, EMPTY_DIFF, first, 0, h1).ledger, TxHash(c, first), |first.outputs|;
    AddOutputsAt(l.utxos, h, first.outputs, h1, 0, n);
    assert |Preimage(first).outputs| == |Preimage(second).outputs|;
    forall i | 0 <= i < n
      ensures UtxoKey(h, i) in l1.utxos && l1.utxos[UtxoKey(h, i)].amount == second.outputs[i].amount
    {
      assert Preimage(first).outputs[i] == Preimage(second).outputs[i];
    }
    AllOverwritten(l1.utxos, h, second.outputs, n);
    CreatingAdds(l1.utxos, h, second.outputs, h2, 0, n);
  }

  /** A coinbase that the supply has no room for is paid out all the same. */
  lemma SkippedCoinbaseMakesMoney(c: Crypto, l: LedgerState, d: BlockDiff, tx: Transaction, height: u64)
    requires ApplyTx(c, l, d, tx, 0, height).error.None? && Unmade(c, l, tx)
    requires l.supply + CoinbaseAmount(tx) >= U64_LIMIT
    ensures
      var l' := ApplyTx(c, l, d, tx, 0, height).ledger;
      l'.supply == l.supply && Total(l'.utxos) == Total(l.utxos) + PlainSum(tx.outputs, |tx.outputs|)
  {
    TxAccounts(c, l, d, tx, 0, height);
    NothingOverwritten(l.utxos, TxHash(c, tx), |tx.outputs|);
  }

  /** A spend without inputs, applied a second time in its block, overwrites what it made. */
  lemma RepeatedSpendLoses(c: Crypto, l: LedgerState, d: BlockDiff, tx: Transaction, i: nat, d': BlockDiff, j: nat,
      height: u64)
    requires i > 0 && j > 0 && tx.inputs == [] && ApplyTx(c, l, d, tx, i, height).error.None?
    requires ApplyTx(c, ApplyTx(c, l, d, tx, i, height).ledger, d', tx, j, height).error.None?
    ensures
      var l1 := ApplyTx(c, l, d, tx, i, height).ledger;
      Total(ApplyTx(c, l1, d', tx, j, height).ledger.utxos) == Total(l1.utxos)
  {
    var l1, h, n := ApplyTx(c, l, d, tx, i, height).ledger, TxHash(c, tx), |tx.outputs|;
    AddOutputsAt(l.utxos, h, tx.outputs, height, i, n);
    AllOverwritten(l1.utxos, h, tx.outputs, n);
    CreatingAdds(l1.utxos, h, tx.outputs, height, j, n);
  }

  // ----- One block

  predicate DistinctHashes(c: Crypto, txs: seq<Transaction>) {
    forall i, j | 0 <= i < j < |txs| :: TxHash(c, txs[i]) != TxHash(c, txs[j])
  }

  /** Every spend has an input or pays nothing: what the source does not ask of it. */
  predicate PaysFromInputs(txs: seq<Transaction>) {
    forall i | 0 < i < |txs| :: txs[i].inputs != [] || PlainSum(txs[i].outputs, |txs[i].outputs|) == 0
  }

  /** The account of the transactions from `i` on, each measured on the ledger it is applied to. */
  function BlockAccount(c: Crypto, l: LedgerState, d: BlockDiff, txs: seq<Transaction>, height: u64, i: nat): Account
    requires i <= |txs|
    decreases |txs| - i
  {
    if i == |txs| then NOTHING
    else
      var o := ApplyTx(c, l, d, txs[i], i, height);
      TxAccount(c, l, txs[i], i).Plus(BlockAccount(c, o.ledger, o.diff, txs, height, i + 1))
  }

  /** Every block that applies is accounted for. */
  lemma {:induction false} BlockAccounts(c: Crypto, l: LedgerState, d: BlockDiff, txs: seq<Transaction>, height: u64,
      i: nat)
    requires i <= |txs| && ApplyFrom(c, l, d, txs, height, i).error.None?
    ensures Accounts(l, ApplyFrom(c, l, d, txs, height, i).ledger, BlockAccount(c, l, d, txs, height, i))
    ensures PaysFromInputs(txs) ==> BlockAccount(c, l, d, txs, height, i).fees >= 0
    decreases |txs| - i
  {
    hide ApplyTx, TxAccount, Total;
    if i < |txs| {
      var o := ApplyTx(c, l, d, txs[i], i, height);
      TxAccounts(c, l, d, txs[i], i, height);
      BlockAccounts(c, o.ledger, o.diff, txs, height, i + 1);
    }
  }

  lemma LaterStaysUnmade(c: Crypto, l: LedgerState, d: BlockDiff, txs: seq<Transaction>, i: nat, j: nat, height: u64)
    requires i < j < |txs| && DistinctHashes(c, txs) && Unmade(c, l, txs[j])
    ensures Unmade(c, ApplyTx(c, l, d, txs[i], i, height).ledger, txs[j])
  {
    var tx, n := txs[i], |txs[i].outputs|;
    AddOutputsAt(l.utxos, TxHash(c, tx), tx.outputs, height, i, n);
    SpendAllShrinks(l, tx.inputs, |tx.inputs|);
    AddOutputsAt(SpendAll(l, tx.inputs, |tx.inputs|).utxos, TxHash(c, tx), tx.outputs, height, i, n);
  }

  lemma TxLosesNothing(c: Crypto, l: LedgerState, txs: seq<Transaction>, i: nat)
    requires i < |txs| && Unmade(c, l, txs[i])
    requires i == 0 ==> SupplyFits(l, txs) && CoinbaseAmount(txs[0]) <= MAX_EMISSION
    ensures TxAccount(c, l, txs[i], i).skipped == 0 && TxAccount(c, l, txs[i], i).overwritten == 0
  {
    var tx := txs[i];
    SpendAllShrinks(l, tx.inputs, |tx.inputs|);
    NothingOverwritten(l.utxos, TxHash(c, tx), |tx.outputs|);
    NothingOverwritten(SpendAll(l, tx.inputs, |tx.inputs|).utxos, TxHash(c, tx), |tx.outputs|);
  }

  /** A block whose transactions have distinct hashes and make new outpoints, and whose coinbase fits the
      supply, overwrites nothing and skips nothing: only its surpluses are left. */
  lemma {:induction false} SoundBlockLosesNothing(c: Crypto, l: LedgerState, d: BlockDiff, txs: seq<Transaction>,
      height: u64, i: nat)
    requires i <= |txs| && DistinctHashes(c, txs) && (i == 0 ==> SupplyFits(l, txs))
    requires forall j | i <= j < |txs| :: Unmade(c, l, txs[j])
    requires ApplyFrom(c, l, d, txs, height, i).error.None?
    ensures
      var a := BlockAccount(c, l, d, txs, height, i);
      a.skipped == 0 && a.overwritten == 0
    decreases |txs| - i
  {
    hide ApplyTx, TxAccount, DistinctHashes, Unmade, SupplyFits;
    if i < |txs| {
      var o := ApplyTx(c, l, d, txs[i], i, height);
      if i == 0 { AppliedCoinbaseIsSmall(c, l, d, txs[0], height); }
      TxLosesNothing(c, l, txs, i);
      forall j | i + 1 <= j < |txs|
        ensures Unmade(c, o.ledger, txs[j])
      {
        LaterStaysUnmade(c, l, d, txs, i, j, height);
      }
      SoundBlockLosesNothing(c, o.ledger, o.diff, txs, height, i + 1);
    }
  }

  // ----- Every replayed and every reachable ledger

  /** The account of one block on the replay of its parent. */
  ghost function AccountOn(c: Crypto, l: LedgerState, b: Block): Account {
    BlockAccount(c, l, EMPTY_DIFF, b.transactions, b.header.height, 0)
  }

  /** The account of the blocks above genesis up to `h`. */
  ghost function AccountTo(o: Origin, t: Tree, h: Hash): Account
    requires Acyclic(t)
    decreases Depth(t, h)
  {
    if HasParent(o, t, h) && ReplayTo(o, t, Prev(t, h)).Some? then
      AccountTo(o, t, Prev(t, h)).Plus(AccountOn(o.c, ReplayTo(o, t, Prev(t, h)).value, t[h]))
    else NOTHING
  }

  predicate AllPayFromInputs(t: Tree) {
    forall h | h in t :: PaysFromInputs(t[h].transactions)
  }

  /** Every branch that replays is accounted for, whatever its blocks are. */
  lemma {:induction false} ReplayAccounts(o: Origin, t: Tree, h: Hash)
    requires Acyclic(t) && ReplayTo(o, t, h).Some?
    ensures Accounts(o.ledger, ReplayTo(o, t, h).value, AccountTo(o, t, h))
    ensures AllPayFromInputs(t) ==> AccountTo(o, t, h).fees >= 0
    decreases Depth(t, h)
  {
    hide Acyclic, PaysFromInputs, Unwind, Total, BlockAccount, ApplyFrom, Accounts, Ancestors;
    if h == o.genesis {
      NothingHappened(o.ledger);
    } else {
      var l, b := ReplayTo(o, t, Prev(t, h)).value, t[h];
      DepthOfParent(t, h);
      ReplayAccounts(o, t, Prev(t, h));
      BlockAccounts(o.c, l, EMPTY_DIFF, b.transactions, b.header.height, 0);
      AccountsCompose(o.ledger, l, ReplayTo(o, t, h).value, AccountTo(o, t, Prev(t, h)), AccountOn(o.c, l, b));
    }
  }

  lemma NothingHappened(l: LedgerState)
    ensures Accounts(l, l, NOTHING)
  {
  }

  lemma AccountsCompose(l: LedgerState, l': LedgerState, l'': LedgerState, a: Account, a': Account)
    requires Accounts(l, l', a) && Accounts(l', l'', a')
    ensures Accounts(l, l'', a.Plus(a'))
  {
    hide Total;
  }

  ghost predicate SoundTree(o: Origin, t: Tree) {
    HygienicTree(o, t) && forall h | h in t && h != o.genesis :: DistinctHashes(o.c, t[h].transactions)
  }

  /** On hygienic branches with distinct hashes in each block nothing is lost, so that only surpluses are left. */
  lemma {:induction false} SoundReplayLosesNothing(o: Origin, t: Tree, h: Hash)
    requires SoundTree(o, t) && ReplayTo(o, t, h).Some?
    ensures AccountTo(o, t, h).skipped == 0 && AccountTo(o, t, h).overwritten == 0
    decreases Depth(t, h)
  {
    hide Acyclic, HygienicBlock, DistinctHashes, Unwind, BlockAccount, ApplyFrom;
    if h != o.genesis {
      DepthOfParent(t, h);
      SoundReplayLosesNothing(o, t, Prev(t, h));
      HygienicBlockIsSafe(o, t, h);
      var l, b := ReplayTo(o, t, Prev(t, h)).value, t[h];
      SoundBlockLosesNothing(o.c, l, EMPTY_DIFF, b.transactions, b.header.height, 0);
    }
  }

  /** In every state of every run, started from a ledger whose supply is what it holds, and after any number of
      reorganisations: the supply is the sum of the unspent amounts plus the fees dropped on the current chain,
      exactly if what the chain made out of nothing or did not count is what it overwrote; on sound chains, if it
      made nothing. Each block raises the supply by at most the emission cap. */
  lemma SupplyIsConservedExactly(c: Crypto, genesis: Block, ledger: LedgerState, events: seq<Event>, nodes: seq<Node>,
      i: nat)
    requires NoZeroHash(c) && IsGenesis(genesis) && ledger.supply == Total(ledger.utxos)
    requires Run(c, genesis, ledger, events, nodes) && i < |nodes|
    requires SafeRun(OriginOf(c, genesis, ledger), events, nodes)
    ensures
      var o, n := OriginOf(c, genesis, ledger), nodes[i];
      && Acyclic(n.store.cache)
      && var a := AccountTo(o, n.store.cache, n.store.tip);
      && n.ledger.supply + a.surplus + a.skipped == Total(n.ledger.utxos) + a.fees + a.overwritten
      && (n.ledger.supply == Total(n.ledger.utxos) + a.fees <==> a.Balanced())
      && (SoundTree(o, n.store.cache) ==> (a.Balanced() <==> a.surplus == 0))
      && (AllPayFromInputs(n.store.cache) ==> a.fees >= 0)
      && n.ledger.supply <= ledger.supply + (|Ancestors(n.store.cache, n.store.tip)| - 1) * MAX_EMISSION
  {
    hide Acyclic, HygienicBlock, DistinctHashes, PaysFromInputs, Total, AccountTo, NodeOk, StoreOk, Run, SafeRun;
    var o := OriginOf(c, genesis, ledger);
    LedgerIsReplay(c, genesis, ledger, events, nodes, i);
    RunKeepsStore(c, genesis, ledger, events, nodes, i, i);
    TreesAreWellFounded(c, nodes[i].store, nodes[i].store);
    ReplayAccounts(o, nodes[i].store.cache, nodes[i].store.tip);
    ReplayAdds(o, nodes[i].store.cache, nodes[i].store.tip);
    if SoundTree(o, nodes[i].store.cache) {
      SoundReplayLosesNothing(o, nodes[i].store.cache, nodes[i].store.tip);
    }
  }
}
