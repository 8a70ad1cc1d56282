/** The mutable UTXO set. Every method is proved against the function of `Ledger` that says what
    it does to the ledger as a value. */
module UtxoSets {
  import opened Types
  import opened Ledger
  import LedgerProofs
  import Field
  import Mlsag
  import RangeProofs

  // ----- Rings of a private transaction

  method BuildRingInline(c: Crypto, utxos: map<UtxoKey, UtxoEntry>, members: seq<UtxoKey>)
    returns (r: Result<seq<Point>>)
    ensures r == BuildRing(c, utxos, members, 0, [])
  {
    var ring := [];
    for i := 0 to |members|
      invariant BuildRing(c, utxos, members, 0, []) == BuildRing(c, utxos, members, i, ring)
    {
      if members[i] !in utxos { return Err(RingUtxoNotFound); }
      var dest := utxos[members[i]].stealthDest;
      if dest.None? { return Err(LegacyRingMember); }
      var p := c.decompress(dest.value);
      if p.None? { return Err(InvalidStealthPoint); }
      ring := ring + [p.value];
    }
    return Ok(ring);
  }

  method BuildAllRings(c: Crypto, utxos: map<UtxoKey, UtxoEntry>, rings: seq<seq<UtxoKey>>)
    returns (r: Result<seq<seq<Point>>>)
    ensures r == BuildLayers(c, utxos, rings, 0, [])
  {
    var layers := [];
    for i := 0 to |rings|
      invariant BuildLayers(c, utxos, rings, 0, []) == BuildLayers(c, utxos, rings, i, layers)
    {
      var layer := BuildRingInline(c, utxos, rings[i]);
      if layer.Err? { return Err(layer.error); }
      layers := layers + [layer.value];
    }
    return Ok(layers);
  }

  method TransposeRings(layers: seq<seq<Point>>) returns (ring: Mlsag.Ring)
    requires layers != [] && forall k | 0 <= k < |layers| :: |layers[0]| <= |layers[k]|
    ensures ring == Transpose(layers)
  {
    ring := [];
    for pos := 0 to |layers[0]|
      invariant ring == Transpose(layers)[..pos]
    {
      var row := [];
      for layer := 0 to |layers|
        invariant row == Transpose(layers)[pos][..layer]
      {
        row := row + [layers[layer][pos]];
      }
      assert row == Transpose(layers)[pos];
      ring := ring + [row];
    }
  }

  method ToSig(c: Crypto, data: MlsagData) returns (sig: Option<Mlsag.Signature>)
    ensures sig == ToSignature(c, data)
  {
    var images := [];
    for i := 0 to |data.keyImages|
      invariant DecompressAll(c, data.keyImages, 0, []) == DecompressAll(c, data.keyImages, i, images)
    {
      var p := c.decompress(data.keyImages[i]);
      if p.None? { return None; }
      images := images + [p.value];
    }
    return Some(Mlsag.Signature(data.ringSize, data.nLayers, images, data.c0 % c.grp.q,
        ReduceAll(c.grp.q, data.responses)));
  }

  method VerifyMlsag(c: Crypto, data: MlsagData, ring: Mlsag.Ring, msg: Msg) returns (ok: bool)
    ensures ok == MlsagOk(c, data, ring, msg)
  {
    var sig := ToSig(c, data);
    if sig.None? { return false; }
    ok := Mlsag.Verify(c.grp, sig.value, ring, msg);
  }

  /** The signature check both the ledger and the memory pool make on a private transaction. */
  method VerifyRing(c: Crypto, ghost l: LedgerState, utxos: map<UtxoKey, UtxoEntry>, tx: Transaction)
    returns (e: Option<Error>)
    requires l.utxos == utxos
    ensures e == CheckRing(c, l, tx)
  {
    if tx.mlsag.None? { return None; }
    if tx.ringMembers.None? { return Some(NoRingMembers); }
    var layers := BuildAllRings(c, utxos, tx.ringMembers.value);
    if layers.Err? { return Some(layers.error); }
    if layers.value == [] { return Some(NoRings); }
    for k := 0 to |layers.value|
      invariant forall m | 0 <= m < k :: |layers.value[0]| <= |layers.value[m]|
    {
      if |layers.value[k]| < |layers.value[0]| { return Some(BadMlsag); }
    }
    var ring := TransposeRings(layers.value);
    var ok := VerifyMlsag(c, tx.mlsag.value, ring, MsgOf(tx));
    return if ok then None else Some(BadMlsag);
  }

  // ----- Outputs

  method VerifyRangeProofs(c: Crypto, outputs: seq<TxOutput>) returns (e: Option<Error>)
    ensures e == CheckOutputs(c, outputs, 0)
  {
    for i := 0 to |outputs|
      invariant CheckOutputs(c, outputs, 0) == CheckOutputs(c, outputs, i)
    {
      var o := outputs[i];
      if o.IsPrivate() {
        if o.rangeProof.None? { return Some(MissingRangeProof); }
        if o.commitment.None? { return Some(MissingCommitment); }
        var proof := c.decodeProof(o.rangeProof.value);
        if proof.None? { return Some(BadRangeProofEncoding); }
        var p := c.decompress(o.commitment.value);
        if p.None? { return Some(BadCommitmentPoint); }
        var ok := RangeProofs.VerifyRange(c.grp, proof.value, p.value);
        if !ok { return Some(BadRangeProof); }
      }
    }
    return None;
  }

  method SumOutputs(outputs: seq<TxOutput>) returns (r: Result<u64>)
    ensures r == OutputSum(outputs, 0, 0)
  {
    var sum: u64 := 0;
    for i := 0 to |outputs|
      invariant OutputSum(outputs, 0, 0) == OutputSum(outputs, i, sum)
    {
      if sum + outputs[i].amount >= U64_LIMIT { return Err(Overflow); }
      sum := sum + outputs[i].amount;
    }
    return Ok(sum);
  }

  lemma WrapStep(a: nat, b: nat)
    ensures (a % U64_LIMIT + b) % U64_LIMIT == (a + b) % U64_LIMIT
  {
    Field.CongMod(U64_LIMIT, a);
    Field.CongAdd(U64_LIMIT, a % U64_LIMIT, a, b, b);
  }

  method WrappingSum(tx: Transaction) returns (sum: u64)
    ensures sum == CoinbaseAmount(tx)
  {
    sum := 0;
    for i := 0 to |tx.outputs|
      invariant sum == PlainSum(tx.outputs, i) % U64_LIMIT
    {
      WrapStep(PlainSum(tx.outputs, i), tx.outputs[i].amount);
      sum := (sum + tx.outputs[i].amount) % U64_LIMIT;
    }
  }

  class UtxoSet {
    var utxos: map<UtxoKey, UtxoEntry>
    var spentKeyImages: set<Bytes32>
    var totalSupply: u64

    ghost function Value(): LedgerState
      reads this
    {
      LedgerState(utxos, spentKeyImages, totalSupply)
    }

    constructor ()
      ensures Value() == LedgerState(map[], {}, 0)
    {
      utxos, spentKeyImages, totalSupply := map[], {}, 0;
    }

    method AddTransactionOutputs(h: Hash, tx: Transaction, height: u64, txIndex: nat)
      modifies this
      ensures Value() == old(Value()).(utxos := AddOutputs(old(utxos), h, tx.outputs, height, txIndex, |tx.outputs|))
      ensures forall i | 0 <= i < |tx.outputs| ::
                var o := tx.outputs[i];
                && UtxoKey(h, i) in utxos
                && utxos[UtxoKey(h, i)] == UtxoEntry(o.amount, o.pubkeyHash, o.spendableAfter, height, txIndex, i,
                                                     o.stealthDest, o.ephemeral, o.commitment)
    {
      LedgerProofs.AddOutputsAt(utxos, h, tx.outputs, height, txIndex, |tx.outputs|);
      for i := 0 to |tx.outputs|
        invariant Value() == old(Value()).(utxos := AddOutputs(old(utxos), h, tx.outputs, height, txIndex, i))
      {
        var o := tx.outputs[i];
        utxos := utxos[UtxoKey(h, i) := UtxoEntry(o.amount, o.pubkeyHash, o.spendableAfter, height, txIndex, i,
                                                  o.stealthDest, o.ephemeral, o.commitment)];
      }
    }

    method AddCoinbaseSupply(amount: u64)
      modifies this
      ensures Value() == old(Value()).(supply := AddSupply(old(totalSupply), amount))
    {
      if totalSupply + amount < U64_LIMIT {
        totalSupply := totalSupply + amount;
      }
    }

    /** Sums the amounts the inputs refer to. */
    method SumInputs(inputs: seq<TxInput>, checkImages: bool) returns (r: Result<u64>)
      ensures r == InputSum(Value(), inputs, 0, 0, checkImages)
    {
      var sum: u64 := 0;
      for i := 0 to |inputs|
        invariant InputSum(Value(), inputs, 0, 0, checkImages) == InputSum(Value(), inputs, i, sum, checkImages)
      {
        var key := inputs[i].Outpoint();
        if key !in utxos { return Err(UtxoNotFound); }
        if sum + utxos[key].amount >= U64_LIMIT { return Err(Overflow); }
        if checkImages && inputs[i].keyImage in spentKeyImages { return Err(DoubleSpend); }
        sum := sum + utxos[key].amount;
      }
      return Ok(sum);
    }

    method ValidateTransaction(tx: Transaction) returns (e: Option<Error>)
      ensures e == Validate(Value(), tx)
    {
      if tx.inputs == [] && tx.outputs == [] { return Some(EmptyTx); }
      var ins := SumInputs(tx.inputs, true);
      if ins.Err? { return Some(ins.error); }
      var outs := SumOutputs(tx.outputs);
      if outs.Err? { return Some(outs.error); }
      if tx.inputs != [] && ins.value < outs.value { return Some(CreatesMoney); }
      return None;
    }

    method VerifyInputs(c: Crypto, tx: Transaction, height: nat) returns (e: Option<Error>)
      ensures e == CheckInputs(c, Value(), tx, height, 0)
    {
      for i := 0 to |tx.inputs|
        invariant CheckInputs(c, Value(), tx, height, 0) == CheckInputs(c, Value(), tx, height, i)
      {
        var input := tx.inputs[i];
        if input.keyImage in spentKeyImages { return Some(DoubleSpend); }
        if input.Outpoint() !in utxos { return Some(UtxoNotFound); }
        var utxo := utxos[input.Outpoint()];
        if height < utxo.spendableAfter { return Some(TimeLocked); }
        if tx.mlsag.None? {
          if input.revealedPubkey == [] { return Some(MissingPubkey); }
          if c.hashPubkey(input.revealedPubkey) != utxo.pubkeyHash { return Some(PubkeyMismatch); }
          if !c.signatureOk(input.revealedPubkey, MsgOf(tx), tx.signatures) { return Some(BadSignature); }
        }
      }
      return None;
    }

    method VerifyBalance(tx: Transaction) returns (e: Option<Error>)
      ensures e == CheckBalance(Value(), tx)
    {
      var private, allPrivate := false, true;
      for i := 0 to |tx.outputs|
        invariant private <==> exists k | 0 <= k < i :: tx.outputs[k].IsPrivate()
        invariant allPrivate <==> forall k | 0 <= k < i :: tx.outputs[k].IsPrivate()
      {
        if tx.outputs[i].IsPrivate() { private := true; } else { allPrivate := false; }
      }
      if private && !allPrivate { return Some(HybridTx); }
      if private || tx.mlsag.Some? {
        var ins := SumInputs(tx.inputs, false);
        if ins.Err? { return Some(ins.error); }
        var outs := SumOutputs(tx.outputs);
        if outs.Err? { return Some(outs.error); }
        if ins.value < outs.value { return Some(Inflation); }
      }
      return None;
    }

    /** Verifies the whole transaction before the first change, then spends its inputs one by one,
        each recorded in the diff just before it is removed. A caller that needs no diff drops it. */
    method SpendTransactionInputsWithDiff(c: Crypto, tx: Transaction, height: nat, diff: BlockDiff)
      returns (e: Option<Error>, diff': BlockDiff)
      modifies this
      ensures e == CheckSpend(c, old(Value()), tx, height)
      ensures e.Some? ==> Value() == old(Value()) && diff' == diff
      ensures e.None? ==> Value() == SpendAll(old(Value()), tx.inputs, |tx.inputs|)
                          && diff' == RecordAll(old(Value()), diff, tx.inputs, |tx.inputs|)
    {
      diff' := diff;
      e := VerifyRing(c, Value(), utxos, tx);
      if e.Some? { return; }
      e := VerifyInputs(c, tx, height);
      if e.Some? { return; }
      e := VerifyRangeProofs(c, tx.outputs);
      if e.Some? { return; }
      e := VerifyBalance(tx);
      if e.Some? { return; }
      for i := 0 to |tx.inputs|
        invariant Value() == SpendAll(old(Value()), tx.inputs, i)
        invariant diff' == RecordAll(old(Value()), diff, tx.inputs, i)
      {
        var input := tx.inputs[i];
        var key := input.Outpoint();
        if input.keyImage !in diff'.consumed && key in utxos {
          diff' := diff'.(consumed := diff'.consumed[input.keyImage := (key, utxos[key])]);
        }
        diff' := diff'.(keyImages := diff'.keyImages + [input.keyImage]);
        utxos := utxos - {key};
        spentKeyImages := spentKeyImages + {input.keyImage};
      }
    }

    method SpendTransactionInputs(c: Crypto, tx: Transaction, height: nat) returns (e: Option<Error>)
      modifies this
      ensures e == CheckSpend(c, old(Value()), tx, height)
      ensures Value() == if e.None? then SpendAll(old(Value()), tx.inputs, |tx.inputs|) else old(Value())
    {
      var dropped;
      e, dropped := SpendTransactionInputsWithDiff(c, tx, height, EMPTY_DIFF);
    }

    /** The coinbase rules: no inputs, a capped amount, and the lock of its height on every output. */
    method VerifyCoinbase(tx: Transaction, height: u64) returns (e: Option<Error>, amount: u64)
      ensures e == CheckCoinbase(tx, height) && amount == CoinbaseAmount(tx)
    {
      amount := WrappingSum(tx);
      if tx.inputs != [] { return Some(CoinbaseHasInputs), amount; }
      if amount > MAX_EMISSION { return Some(CoinbaseTooLarge), amount; }
      for i := 0 to |tx.outputs|
        invariant forall k | 0 <= k < i :: tx.outputs[k].spendableAfter == FounderLock(height)
      {
        if tx.outputs[i].spendableAfter != FounderLock(height) { return Some(CoinbaseBadLock), amount; }
      }
      return None, amount;
    }

    /** One transaction of a block; the first is its coinbase. */
    method ApplyTransaction(c: Crypto, tx: Transaction, idx: nat, height: u64, diff: BlockDiff)
      returns (e: Option<Error>, diff': BlockDiff)
      modifies this
      ensures Outcome(Value(), diff', e) == ApplyTx(c, old(Value()), diff, tx, idx, height)
    {
      diff' := diff;
      var h := TxHash(c, tx);
      if idx == 0 {
        var amount;
        e, amount := VerifyCoinbase(tx, height);
        if e.Some? { return; }
        AddTransactionOutputs(h, tx, height, idx);
        AddCoinbaseSupply(amount);
        diff' := diff'.(created := diff'.created + OutputKeys(h, |tx.outputs|),
            supplyDelta := diff'.supplyDelta + amount);
      } else {
        e := ValidateTransaction(tx);
        if e.Some? { return; }
        e, diff' := SpendTransactionInputsWithDiff(c, tx, height, diff);
        if e.Some? { return; }
        diff' := diff'.(created := diff'.created + OutputKeys(h, |tx.outputs|));
        AddTransactionOutputs(h, tx, height, idx);
      }
    }

    method ApplyBlockInner(c: Crypto, block: Block, height: u64) returns (e: Option<Error>, diff: BlockDiff)
      modifies this
      ensures Outcome(Value(), diff, e) == ApplyFrom(c, old(Value()), EMPTY_DIFF, block.transactions, height, 0)
    {
      diff, e := EMPTY_DIFF, None;
      var txs := block.transactions;
      for i := 0 to |txs|
        invariant e.None?
        invariant ApplyFrom(c, old(Value()), EMPTY_DIFF, txs, height, 0) == ApplyFrom(c, Value(), diff, txs, height, i)
      {
        e, diff := ApplyTransaction(c, txs[i], i, height, diff);
        if e.Some? { return; }
      }
    }

    method ApplyBlock(c: Crypto, block: Block, height: u64) returns (e: Option<Error>)
      modifies this
      ensures
        var o := ApplyFrom(c, old(Value()), EMPTY_DIFF, block.transactions, height, 0);
        Value() == o.ledger && e == o.error
    {
      var dropped;
      e, dropped := ApplyBlockInner(c, block, height);
    }

    method ApplyBlockAndTrack(c: Crypto, block: Block, height: u64) returns (r: Result<BlockDiff>)
      modifies this
      ensures (Value(), r) == ApplyTracked(c, old(Value()), block, height)
    {
      var e, diff := ApplyBlockInner(c, block, height);
      if e.None? { return Ok(diff); }
      LedgerProofs.ApplyIsRestorable(c, old(Value()), EMPTY_DIFF, block.transactions, height, 0);
      UnwindWithDiff(diff);
      return Err(e.value);
    }

    method RestoreConsumed(consumed: map<Bytes32, (UtxoKey, UtxoEntry)>)
      modifies this
      ensures RestoredFrom(old(utxos), consumed, consumed.Keys, utxos)
      ensures spentKeyImages == old(spentKeyImages) && totalSupply == old(totalSupply)
    {
      hide RestoredFrom;
      var left := consumed.Keys;
      NothingRestored(utxos, consumed);
      assert consumed.Keys - left == {};
      while left != {}
        invariant left <= consumed.Keys
        invariant RestoredFrom(old(utxos), consumed, consumed.Keys - left, utxos)
        invariant spentKeyImages == old(spentKeyImages) && totalSupply == old(totalSupply)
        decreases left
      {
        var ki :| ki in left;
        RestoreStep(old(utxos), consumed, consumed.Keys - left, utxos, ki);
        assert consumed.Keys - (left - {ki}) == consumed.Keys - left + {ki};
        utxos := utxos[consumed[ki].0 := consumed[ki].1];
        left := left - {ki};
      }
      assert consumed.Keys - left == consumed.Keys;
    }

    /** Reverses what a diff records. The consumed entries are restored in an arbitrary order. */
    method UnwindWithDiff(diff: BlockDiff)
      modifies this
      ensures Restorable(diff) ==> Value() == Unwind(old(Value()), diff)
    {
      RestoreConsumed(diff.consumed);
      ghost var restored := utxos;
      for i := 0 to |diff.created|
        invariant utxos == restored - (set k | k in diff.created[..i])
        invariant spentKeyImages == old(spentKeyImages) && totalSupply == old(totalSupply)
      {
        utxos := utxos - {diff.created[i]};
      }
      for i := 0 to |diff.keyImages|
        invariant utxos == restored - (set k | k in diff.created)
        invariant spentKeyImages == old(spentKeyImages) - (set ki | ki in diff.keyImages[..i])
        invariant totalSupply == old(totalSupply)
      {
        spentKeyImages := spentKeyImages - {diff.keyImages[i]};
      }
      if diff.supplyDelta > 0 {
        totalSupply := Max(0, totalSupply - diff.supplyDelta);
      }
      if Restorable(diff) { RestoredAgrees(old(Value()), diff, restored); }
    }
  }

  predicate RestoresTo(consumed: map<Bytes32, (UtxoKey, UtxoEntry)>, ki: Bytes32, k: UtxoKey) {
    ki in consumed && consumed[ki].0 == k
  }

  /** `k` holds an entry consumed under an image in `done`, or what it held before if there is none. */
  ghost predicate RestoredAt(u0: map<UtxoKey, UtxoEntry>, consumed: map<Bytes32, (UtxoKey, UtxoEntry)>,
      done: set<Bytes32>, u: map<UtxoKey, UtxoEntry>, k: UtxoKey)
  {
    if exists ki :: ki in done && RestoresTo(consumed, ki, k)
    then k in u && exists ki :: ki in done && RestoresTo(consumed, ki, k) && consumed[ki].1 == u[k]
    else (k in u <==> k in u0) && (k in u ==> u[k] == u0[k])
  }

  ghost predicate RestoredFrom(u0: map<UtxoKey, UtxoEntry>, consumed: map<Bytes32, (UtxoKey, UtxoEntry)>,
      done: set<Bytes32>, u: map<UtxoKey, UtxoEntry>)
  {
    forall k :: RestoredAt(u0, consumed, done, u, k)
  }

  lemma NothingRestored(u: map<UtxoKey, UtxoEntry>, consumed: map<Bytes32, (UtxoKey, UtxoEntry)>)
    ensures RestoredFrom(u, consumed, {}, u)
  {
  }

  lemma RestoreStepAt(u0: map<UtxoKey, UtxoEntry>, consumed: map<Bytes32, (UtxoKey, UtxoEntry)>, done: set<Bytes32>,
      u: map<UtxoKey, UtxoEntry>, ki: Bytes32, k: UtxoKey)
    requires ki in consumed && RestoredAt(u0, consumed, done, u, k)
    ensures RestoredAt(u0, consumed, done + {ki}, u[consumed[ki].0 := consumed[ki].1], k)
  {
  }

  lemma RestoreStep(u0: map<UtxoKey, UtxoEntry>, consumed: map<Bytes32, (UtxoKey, UtxoEntry)>, done: set<Bytes32>,
      u: map<UtxoKey, UtxoEntry>, ki: Bytes32)
    requires ki in consumed && RestoredFrom(u0, consumed, done, u)
    ensures RestoredFrom(u0, consumed, done + {ki}, u[consumed[ki].0 := consumed[ki].1])
  {
    hide RestoredAt;
    var done', u' := done + {ki}, u[consumed[ki].0 := consumed[ki].1];
    forall k
      ensures RestoredAt(u0, consumed, done', u', k)
    {
      RestoreStepAt(u0, consumed, done, u, ki, k);
    }
  }

  lemma RestoredAgreesAt(l: LedgerState, d: BlockDiff, restored: map<UtxoKey, UtxoEntry>, k: UtxoKey)
    requires RestoredAt(l.utxos, d.consumed, d.consumed.Keys, restored, k) && Restorable(d) && k !in d.created
    ensures k in restored <==> k in Unwind(l, d).utxos
    ensures k in restored ==> restored[k] == Unwind(l, d).utxos[k]
  {
    if k in ConsumedKeys(d) {
      var x :| x in d.consumed && d.consumed[x].0 == k && d.consumed[x].1 == RestoredEntry(d, k);
      assert x in d.consumed.Keys && RestoresTo(d.consumed, x, k);
    }
  }

  predicate SameAt(u: map<UtxoKey, UtxoEntry>, v: map<UtxoKey, UtxoEntry>, k: UtxoKey) {
    (k in u <==> k in v) && (k in u ==> u[k] == v[k])
  }

  lemma RestoredAgrees(l: LedgerState, d: BlockDiff, restored: map<UtxoKey, UtxoEntry>)
    requires RestoredFrom(l.utxos, d.consumed, d.consumed.Keys, restored) && Restorable(d)
    ensures restored - (set k | k in d.created) == Unwind(l, d).utxos
  {
    hide RestoredAt, Restorable;
    var u, u' := restored - (set k | k in d.created), Unwind(l, d).utxos;
    forall k
      ensures SameAt(u, u', k)
    {
      if k !in d.created { RestoredAgreesAt(l, d, restored, k); }
    }
    assert forall k | k in u || k in u' :: SameAt(u, u', k);
  }
}
