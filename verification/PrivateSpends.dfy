/** What an accepted private spend is bound to. The signature is over the outpoints, and its rings are read from
    the ledger; nothing ties an input to a ring, nor a key image of the transaction to one of the signature. */
module PrivateSpends {
  import opened Types
  import opened Ledger
  import opened LedgerProofs

  /** The two inputs name one outpoint, which both ledgers hold with the same amount and time lock, and neither
      or both of their key images are spent. Who owns the output is left open. */
  predicate SameInput(l: LedgerState, l': LedgerState, a: TxInput, b: TxInput) {
    && a.Outpoint() == b.Outpoint() && (a.keyImage in l.spent <==> b.keyImage in l'.spent)
    && (a.Outpoint() in l.utxos <==> a.Outpoint() in l'.utxos)
    && (a.Outpoint() in l.utxos ==>
          && l.utxos[a.Outpoint()].amount == l'.utxos[a.Outpoint()].amount
          && l.utxos[a.Outpoint()].spendableAfter == l'.utxos[a.Outpoint()].spendableAfter)
  }

  /** The transactions differ at most in key images and revealed keys. */
  predicate SameButImages(l: LedgerState, l': LedgerState, tx: Transaction, tx': Transaction) {
    && tx' == tx.(inputs := tx'.inputs) && |tx'.inputs| == |tx.inputs|
    && forall k | 0 <= k < |tx.inputs| :: SameInput(l, l', tx.inputs[k], tx'.inputs[k])
  }

  /** Both ledgers give the ring members the same keys. */
  predicate SameRings(c: Crypto, l: LedgerState, l': LedgerState, tx: Transaction) {
    tx.ringMembers.Some? ==>
      forall i, j | 0 <= i < |tx.ringMembers.value| && 0 <= j < |tx.ringMembers.value[i]| ::
        RingKey(c, l.utxos, tx.ringMembers.value[i][j]) == RingKey(c, l'.utxos, tx.ringMembers.value[i][j])
  }

  /** The input names an unlocked output and an unspent key image. */
  predicate Open(l: LedgerState, input: TxInput, height: nat) {
    && input.keyImage !in l.spent && input.Outpoint() in l.utxos
    && l.utxos[input.Outpoint()].spendableAfter <= height
  }

  /** A private transaction is asked nothing more of its inputs than that each is open. */
  lemma {:induction false} InputsPassExactly(c: Crypto, l: LedgerState, tx: Transaction, height: nat, i: nat)
    requires tx.mlsag.Some? && i <= |tx.inputs|
    ensures CheckInputs(c, l, tx, height, i) == None
       <==> forall k | i <= k < |tx.inputs| :: Open(l, tx.inputs[k], height)
    decreases |tx.inputs| - i
  {
    if i < |tx.inputs| { InputsPassExactly(c, l, tx, height, i + 1); }
  }

  /** What an accepted private spend establishes: a signature by the rings that it names, open inputs, range proofs
      for its outputs, and no more out than in. */
  lemma PrivateSpendIsAcceptedExactly(c: Crypto, l: LedgerState, tx: Transaction, height: nat)
    requires tx.mlsag.Some?
    ensures CheckSpend(c, l, tx, height) == None <==>
              && CheckRing(c, l, tx) == None
              && (forall k | 0 <= k < |tx.inputs| :: Open(l, tx.inputs[k], height))
              && CheckOutputs(c, tx.outputs, 0) == None && CheckBalance(l, tx) == None
  {
    hide CheckRing, CheckOutputs, CheckBalance, CheckInputs;
    InputsPassExactly(c, l, tx, height, 0);
  }

  lemma {:induction false} SameInputSum(l: LedgerState, l': LedgerState, tx: Transaction, tx': Transaction, i: nat,
      acc: u64, checkImages: bool)
    requires SameButImages(l, l', tx, tx') && i <= |tx.inputs|
    ensures InputSum(l, tx.inputs, i, acc, checkImages) == InputSum(l', tx'.inputs, i, acc, checkImages)
    decreases |tx.inputs| - i
  {
    hide SameButImages;
    SameAt(l, l', tx, tx', i);
    if i < |tx.inputs| {
      var key := tx.inputs[i].Outpoint();
      if key in l.utxos && acc + l.utxos[key].amount < U64_LIMIT {
        SameInputSum(l, l', tx, tx', i + 1, acc + l.utxos[key].amount, checkImages);
      }
    }
  }

  lemma SameAt(l: LedgerState, l': LedgerState, tx: Transaction, tx': Transaction, i: nat)
    requires SameButImages(l, l', tx, tx')
    ensures tx' == tx.(inputs := tx'.inputs) && |tx'.inputs| == |tx.inputs|
    ensures i < |tx.inputs| ==> SameInput(l, l', tx.inputs[i], tx'.inputs[i])
  {
  }

  lemma {:induction false} SameInputChecks(c: Crypto, l: LedgerState, l': LedgerState, tx: Transaction,
      tx': Transaction, height: nat, i: nat)
    requires SameButImages(l, l', tx, tx') && tx.mlsag.Some? && i <= |tx.inputs|
    ensures CheckInputs(c, l, tx, height, i) == CheckInputs(c, l', tx', height, i)
    decreases |tx.inputs| - i
  {
    hide SameButImages;
    SameAt(l, l', tx, tx', i);
    if i < |tx.inputs| { SameInputChecks(c, l, l', tx, tx', height, i + 1); }
  }

  lemma {:induction false} SameRing(c: Crypto, l: LedgerState, l': LedgerState, members: seq<UtxoKey>, i: nat,
      acc: seq<Point>)
    requires i <= |members|
    requires forall j | 0 <= j < |members| :: RingKey(c, l.utxos, members[j]) == RingKey(c, l'.utxos, members[j])
    ensures BuildRing(c, l.utxos, members, i, acc) == BuildRing(c, l'.utxos, members, i, acc)
    decreases |members| - i
  {
    if i < |members| && RingKey(c, l.utxos, members[i]).Ok? {
      SameRing(c, l, l', members, i + 1, acc + [RingKey(c, l.utxos, members[i]).value]);
    }
  }

  lemma {:induction false} SameLayers(c: Crypto, l: LedgerState, l': LedgerState, tx: Transaction, i: nat,
      acc: seq<seq<Point>>)
    requires tx.ringMembers.Some? && SameRings(c, l, l', tx) && i <= |tx.ringMembers.value|
    ensures BuildLayers(c, l.utxos, tx.ringMembers.value, i, acc) == BuildLayers(c, l'.utxos, tx.ringMembers.value, i,
        acc)
    decreases |tx.ringMembers.value| - i
  {
    hide RingKey;
    var rings := tx.ringMembers.value;
    if i < |rings| {
      SameRing(c, l, l', rings[i], 0, []);
      var layer := BuildRing(c, l.utxos, rings[i], 0, []);
      if layer.Ok? { SameLayers(c, l, l', tx, i + 1, acc + [layer.value]); }
    }
  }

  lemma SameMessage(l: LedgerState, l': LedgerState, tx: Transaction, tx': Transaction)
    requires SameButImages(l, l', tx, tx')
    ensures MsgOf(tx) == MsgOf(tx')
  {
    forall k | 0 <= k < |tx.inputs|
      ensures tx.inputs[k].Outpoint() == tx'.inputs[k].Outpoint()
    {
      SameAt(l, l', tx, tx', k);
    }
  }

  lemma SameRingCheck(c: Crypto, l: LedgerState, l': LedgerState, tx: Transaction, tx': Transaction)
    requires SameButImages(l, l', tx, tx') && SameRings(c, l, l', tx)
    ensures CheckRing(c, l, tx) == CheckRing(c, l', tx')
  {
    hide MlsagOk, Transpose, MsgOf, SameInput;
    SameMessage(l, l', tx, tx');
    if tx.ringMembers.Some? { SameLayers(c, l, l', tx, 0, []); }
  }

  /** Whether a private transaction is accepted depends on the ledger and on its inputs only through the keys of its
      ring members and, for each outpoint named, its existence, amount and time lock and whether the key image
      given with it is spent. */
  lemma PrivateSpendReads(c: Crypto, l: LedgerState, l': LedgerState, tx: Transaction, tx': Transaction, height: nat)
    requires tx.mlsag.Some? && SameButImages(l, l', tx, tx') && SameRings(c, l, l', tx)
    ensures Validate(l, tx) == Validate(l', tx')
    ensures CheckSpend(c, l, tx, height) == CheckSpend(c, l', tx', height)
  {
    hide CheckRing, CheckInputs, CheckOutputs, InputSum, OutputSum, SameButImages, SameRings;
    SameAt(l, l', tx, tx', 0);
    SameInputSum(l, l', tx, tx', 0, 0, true);
    SameInputSum(l, l', tx, tx', 0, 0, false);
    SameInputChecks(c, l, l', tx, tx', height, 0);
    SameRingCheck(c, l, l', tx, tx');
  }

  function WithImage(tx: Transaction, image: Bytes32): Transaction
    requires tx.inputs != []
  {
    tx.(inputs := tx.inputs[0 := tx.inputs[0].(keyImage := image)])
  }

  /** Any unspent key image may stand in the first input of an accepted private transaction: it is accepted as before
      under the same signature, spends the same outputs, and marks that image instead. */
  lemma ImageIsNotBound(c: Crypto, l: LedgerState, tx: Transaction, image: Bytes32, height: nat)
    requires tx.mlsag.Some? && tx.inputs != [] && image !in l.spent
    requires Validate(l, tx) == None && CheckSpend(c, l, tx, height) == None
    ensures
      var tx' := WithImage(tx, image);
      && Validate(l, tx') == None && CheckSpend(c, l, tx', height) == None
      && image in SpendAll(l, tx'.inputs, |tx'.inputs|).spent
      && SpendAll(l, tx'.inputs, |tx'.inputs|).utxos == SpendAll(l, tx.inputs, |tx.inputs|).utxos
  {
    hide CheckSpend;
    var tx' := WithImage(tx, image);
    InputSumOk(l, tx.inputs, 0, 0, true);
    PrivateSpendReads(c, l, l, tx, tx', height);
    SpendAllSpent(l, tx'.inputs, |tx'.inputs|);
    assert tx'.inputs[0].keyImage == image;
    SameRemoved(l, tx.inputs, tx'.inputs, |tx.inputs|);
  }

  lemma {:induction false} SameRemoved(l: LedgerState, a: seq<TxInput>, b: seq<TxInput>, n: nat)
    requires n <= |a| == |b| && forall k | 0 <= k < |a| :: a[k].Outpoint() == b[k].Outpoint()
    ensures SpendAll(l, a, n).utxos == SpendAll(l, b, n).utxos
  {
    if n > 0 { SameRemoved(l, a, b, n - 1); }
  }
}
