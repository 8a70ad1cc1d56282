/** What the ledger accepts, spelled out: the signatures, owners, locks, amounts and range proofs that stand behind a
    transaction that passes, and the changes that are refused. */
module Acceptance {
  import opened Types
  import opened Field
  import opened Ledger
  import LedgerProofs
  import Mlsag
  import RangeProofs
  import opened Conservation

  // ----- The ring signature

  /** The ledger holds a stealth output there, whose destination is the point. */
  predicate HoldsKey(c: Crypto, utxos: map<UtxoKey, UtxoEntry>, k: UtxoKey, p: Point) {
    k in utxos && utxos[k].stealthDest.Some? && c.decompress(utxos[k].stealthDest.value) == Some(p)
  }

  predicate HasKey(c: Crypto, utxos: map<UtxoKey, UtxoEntry>, k: UtxoKey) {
    k in utxos && utxos[k].stealthDest.Some? && c.decompress(utxos[k].stealthDest.value).Some?
  }

  /** The ring whose entry for a position and a layer is the key of that member of that input's ring. */
  ghost predicate ReadsRing(c: Crypto, utxos: map<UtxoKey, UtxoEntry>, members: seq<seq<UtxoKey>>, ring: Mlsag.Ring) {
    && members != [] && |ring| == |members[0]|
    && (forall pos | 0 <= pos < |ring| :: |ring[pos]| == |members|)
    && (forall layer | 0 <= layer < |members| :: |ring| <= |members[layer]|)
    && (forall layer, pos | 0 <= layer < |members| && 0 <= pos < |ring| ::
          HoldsKey(c, utxos, members[layer][pos], ring[pos][layer]))
    && forall layer, pos | 0 <= layer < |members| && |ring| <= pos < |members[layer]| ::
         HasKey(c, utxos, members[layer][pos])
  }

  /** The signature in uncompressed form, its scalars reduced modulo the group order. */
  ghost predicate Decodes(c: Crypto, data: MlsagData, sig: Mlsag.Signature) {
    && sig.ringSize == data.ringSize && sig.nLayers == data.nLayers && sig.c0 == data.c0 % c.grp.q
    && |sig.keyImages| == |data.keyImages|
    && (forall i | 0 <= i < |data.keyImages| :: c.decompress(data.keyImages[i]) == Some(sig.keyImages[i]))
    && |sig.responses| == |data.responses|
    && (forall i | 0 <= i < |data.responses| :: |sig.responses[i]| == |data.responses[i]|)
    && forall i, j | 0 <= i < |data.responses| && 0 <= j < |data.responses[i]| ::
         sig.responses[i][j] == data.responses[i][j] % c.grp.q
  }

  /** A ring read from the ledger has signed the transaction. */
  ghost predicate Signed(c: Crypto, l: LedgerState, tx: Transaction) {
    && tx.mlsag.Some? && tx.ringMembers.Some?
    && exists sig, ring ::
         && Decodes(c, tx.mlsag.value, sig) && ReadsRing(c, l.utxos, tx.ringMembers.value, ring)
         && Mlsag.Accepts(c.grp, sig, ring, MsgOf(tx))
  }

  lemma {:induction false} DecompressedAll(c: Crypto, points: seq<Bytes32>, i: nat, acc: seq<Point>)
    requires i <= |points|
    ensures
      var r := DecompressAll(c, points, i, acc);
      && (r.None? ==> exists k | i <= k < |points| :: c.decompress(points[k]) == None)
      && (r.Some? ==>
            && |r.value| == |acc| + |points| - i && r.value[..|acc|] == acc
            && forall k | i <= k < |points| :: c.decompress(points[k]) == Some(r.value[|acc| + k - i]))
    decreases |points| - i
  {
    if i < |points| && c.decompress(points[i]).Some? {
      var acc' := acc + [c.decompress(points[i]).value];
      DecompressedAll(c, points, i + 1, acc');
      var r := DecompressAll(c, points, i + 1, acc');
      if r.Some? {
        assert acc == acc'[..|acc|];
        assert r.value[|acc|] == r.value[..|acc'|][|acc|];
      }
    }
  }

  lemma DecodedExactly(c: Crypto, data: MlsagData, sig: Mlsag.Signature)
    ensures Decodes(c, data, sig) <==> ToSignature(c, data) == Some(sig)
  {
    DecompressedAll(c, data.keyImages, 0, []);
    var r := ToSignature(c, data);
    if r.Some? && Decodes(c, data, sig) {
      assert sig.keyImages == r.value.keyImages;
      forall i | 0 <= i < |data.responses|
        ensures sig.responses[i] == r.value.responses[i]
      {
      }
      assert sig.responses == r.value.responses;
    }
  }

  lemma {:induction false} RingKeys(c: Crypto, utxos: map<UtxoKey, UtxoEntry>, members: seq<UtxoKey>, i: nat,
      acc: seq<Point>)
    requires i <= |members|
    ensures
      var r := BuildRing(c, utxos, members, i, acc);
      && (r.Err? ==> exists k | i <= k < |members| :: !HasKey(c, utxos, members[k]))
      && (r.Ok? ==>
            && |r.value| == |acc| + |members| - i && r.value[..|acc|] == acc
            && forall k | i <= k < |members| :: HoldsKey(c, utxos, members[k], r.value[|acc| + k - i]))
    decreases |members| - i
  {
    if i < |members| {
      var key := RingKey(c, utxos, members[i]);
      if key.Ok? {
        var acc' := acc + [key.value];
        RingKeys(c, utxos, members, i + 1, acc');
        var r := BuildRing(c, utxos, members, i + 1, acc');
        if r.Ok? {
          assert acc == acc'[..|acc|];
          assert r.value[|acc|] == r.value[..|acc'|][|acc|];
        }
      } else {
        assert !HasKey(c, utxos, members[i]);
      }
    }
  }

  /** The layer holds the keys of the members. */
  predicate IsLayer(c: Crypto, utxos: map<UtxoKey, UtxoEntry>, members: seq<UtxoKey>, layer: seq<Point>) {
    |layer| == |members| && forall k | 0 <= k < |members| :: HoldsKey(c, utxos, members[k], layer[k])
  }

  predicate HasLayer(c: Crypto, utxos: map<UtxoKey, UtxoEntry>, members: seq<UtxoKey>) {
    forall k | 0 <= k < |members| :: HasKey(c, utxos, members[k])
  }

  lemma {:induction false} LayerKeys(c: Crypto, utxos: map<UtxoKey, UtxoEntry>, rings: seq<seq<UtxoKey>>, i: nat,
      acc: seq<seq<Point>>)
    requires i <= |rings|
    ensures
      var r := BuildLayers(c, utxos, rings, i, acc);
      && (r.Err? ==> exists k | i <= k < |rings| :: !HasLayer(c, utxos, rings[k]))
      && (r.Ok? ==>
            && |r.value| == |acc| + |rings| - i && r.value[..|acc|] == acc
            && forall k | i <= k < |rings| :: IsLayer(c, utxos, rings[k], r.value[|acc| + k - i]))
    decreases |rings| - i
  {
    hide HoldsKey, HasKey;
    if i < |rings| {
      RingKeys(c, utxos, rings[i], 0, []);
      var layer := BuildRing(c, utxos, rings[i], 0, []);
      if layer.Ok? {
        var acc' := acc + [layer.value];
        LayerKeys(c, utxos, rings, i + 1, acc');
        var r := BuildLayers(c, utxos, rings, i + 1, acc');
        if r.Ok? {
          assert acc == acc'[..|acc|];
          assert r.value[|acc|] == r.value[..|acc'|][|acc|];
        }
      } else {
        assert !HasLayer(c, utxos, rings[i]);
      }
    }
  }

  lemma LayersAreRead(c: Crypto, utxos: map<UtxoKey, UtxoEntry>, members: seq<seq<UtxoKey>>, layers: seq<seq<Point>>)
    requires |layers| == |members| > 0 && forall k | 0 <= k < |members| :: |layers[0]| <= |layers[k]|
    requires forall k | 0 <= k < |members| :: IsLayer(c, utxos, members[k], layers[k])
    ensures ReadsRing(c, utxos, members, Transpose(layers))
  {
    var ring := Transpose(layers);
    forall layer, pos | 0 <= layer < |members| && 0 <= pos < |members[layer]|
      ensures HoldsKey(c, utxos, members[layer][pos], layers[layer][pos])
      ensures HasKey(c, utxos, members[layer][pos])
    {
      assert IsLayer(c, utxos, members[layer], layers[layer]);
    }
    assert |layers[0]| == |members[0]| by { assert IsLayer(c, utxos, members[0], layers[0]); }
    forall layer | 0 <= layer < |members|
      ensures |ring| <= |members[layer]|
    {
      assert IsLayer(c, utxos, members[layer], layers[layer]);
    }
  }

  lemma ReadRingIsUnique(c: Crypto, utxos: map<UtxoKey, UtxoEntry>, members: seq<seq<UtxoKey>>, ring: Mlsag.Ring,
      ring': Mlsag.Ring)
    requires ReadsRing(c, utxos, members, ring) && ReadsRing(c, utxos, members, ring')
    ensures ring == ring'
  {
    forall pos | 0 <= pos < |ring|
      ensures ring[pos] == ring'[pos]
    {
      forall layer | 0 <= layer < |members|
        ensures ring[pos][layer] == ring'[pos][layer]
      {
        assert HoldsKey(c, utxos, members[layer][pos], ring[pos][layer]);
        assert HoldsKey(c, utxos, members[layer][pos], ring'[pos][layer]);
      }
    }
  }

  lemma ReadRingHasLayers(c: Crypto, utxos: map<UtxoKey, UtxoEntry>, members: seq<seq<UtxoKey>>, ring: Mlsag.Ring)
    requires ReadsRing(c, utxos, members, ring)
    ensures forall k | 0 <= k < |members| :: HasLayer(c, utxos, members[k])
  {
    forall layer, pos | 0 <= layer < |members| && 0 <= pos < |members[layer]|
      ensures HasKey(c, utxos, members[layer][pos])
    {
      if pos < |ring| { assert HoldsKey(c, utxos, members[layer][pos], ring[pos][layer]); }
    }
    forall k | 0 <= k < |members|
      ensures HasLayer(c, utxos, members[k])
    {
    }
  }

  /** The ring check passes exactly if there is no signature, or the ring that the transaction names has signed it. */
  lemma SignedExactly(c: Crypto, l: LedgerState, tx: Transaction)
    ensures CheckRing(c, l, tx) == None <==> tx.mlsag.None? || Signed(c, l, tx)
  {
    hide Transpose, MsgOf, Decodes, ReadsRing, HoldsKey, ToSignature, Mlsag.Accepts, BuildLayers, IsLayer, HasLayer;
    if tx.mlsag.Some? && tx.ringMembers.Some? {
      LayerKeys(c, l.utxos, tx.ringMembers.value, 0, []);
      if CheckRing(c, l, tx) == None { CheckedIsSigned(c, l, tx); }
      if Signed(c, l, tx) { SignedIsChecked(c, l, tx); }
    }
  }

  lemma CheckedIsSigned(c: Crypto, l: LedgerState, tx: Transaction)
    requires tx.mlsag.Some? && tx.ringMembers.Some? && CheckRing(c, l, tx) == None
    ensures Signed(c, l, tx)
  {
    hide Transpose, MsgOf, Decodes, ReadsRing, HoldsKey, ToSignature, Mlsag.Accepts, BuildLayers, IsLayer, HasLayer;
    LayerKeys(c, l.utxos, tx.ringMembers.value, 0, []);
    var layers := BuildLayers(c, l.utxos, tx.ringMembers.value, 0, []);
    DecodedExactly(c, tx.mlsag.value, ToSignature(c, tx.mlsag.value).value);
    LayersAreRead(c, l.utxos, tx.ringMembers.value, layers.value);
  }

  lemma SignedIsChecked(c: Crypto, l: LedgerState, tx: Transaction)
    requires Signed(c, l, tx)
    ensures CheckRing(c, l, tx) == None
  {
    hide Transpose, MsgOf, Decodes, ReadsRing, HoldsKey, ToSignature, Mlsag.Accepts, BuildLayers, IsLayer, HasLayer;
    var data, members := tx.mlsag.value, tx.ringMembers.value;
    var sig, ring :| Decodes(c, data, sig) && ReadsRing(c, l.utxos, members, ring)
      && Mlsag.Accepts(c.grp, sig, ring, MsgOf(tx));
    LayerKeys(c, l.utxos, members, 0, []);
    var layers := BuildLayers(c, l.utxos, members, 0, []);
    DecodedExactly(c, data, sig);
    ReadRingHasLayers(c, l.utxos, members, ring);
    ReadRingSizes(c, l.utxos, members, ring, layers.value);
    LayersAreRead(c, l.utxos, members, layers.value);
    ReadRingIsUnique(c, l.utxos, members, ring, Transpose(layers.value));
  }

  lemma ReadRingSizes(c: Crypto, utxos: map<UtxoKey, UtxoEntry>, members: seq<seq<UtxoKey>>, ring: Mlsag.Ring,
      layers: seq<seq<Point>>)
    requires ReadsRing(c, utxos, members, ring) && |layers| == |members|
    requires forall k | 0 <= k < |members| :: IsLayer(c, utxos, members[k], layers[k])
    ensures members != [] && forall k | 0 <= k < |members| :: |layers[0]| <= |layers[k]|
  {
    hide HoldsKey;
    forall k | 0 <= k < |members|
      ensures |layers[k]| == |members[k]|
    {
      assert IsLayer(c, utxos, members[k], layers[k]);
    }
  }

  // ----- What a signature covers

  /** The same outputs, up to their time lock. */
  predicate SameOutput(o: TxOutput, o': TxOutput) { o' == o.(spendableAfter := o'.spendableAfter) }

  /** The transactions name the same outpoints, have the same outputs up to time locks, and the same ring size. */
  predicate Covered(tx: Transaction, tx': Transaction) {
    && tx.ringSize == tx'.ringSize && |tx.inputs| == |tx'.inputs| && |tx.outputs| == |tx'.outputs|
    && (forall i | 0 <= i < |tx.inputs| :: tx.inputs[i].Outpoint() == tx'.inputs[i].Outpoint())
    && forall i | 0 <= i < |tx.outputs| :: SameOutput(tx.outputs[i], tx'.outputs[i])
  }

  /** The signed message is the same exactly for such transactions. */
  lemma MessageCovers(tx: Transaction, tx': Transaction)
    ensures MsgOf(tx) == MsgOf(tx') <==> Covered(tx, tx')
  {
    var (m, m') := (MsgOf(tx), MsgOf(tx'));
    if m == m' {
      assert |m.inputs| == |m'.inputs| && |m.outputs| == |m'.outputs|;
      forall i | 0 <= i < |tx.inputs|
        ensures tx.inputs[i].Outpoint() == tx'.inputs[i].Outpoint()
      {
        assert m.inputs[i] == m'.inputs[i];
      }
      forall i | 0 <= i < |tx.outputs|
        ensures SameOutput(tx.outputs[i], tx'.outputs[i])
      {
        assert m.outputs[i] == m'.outputs[i];
      }
    }
    if Covered(tx, tx') {
      assert m.inputs == m'.inputs;
      forall i | 0 <= i < |tx.outputs|
        ensures m.outputs[i] == m'.outputs[i]
      {
        assert SameOutput(tx.outputs[i], tx'.outputs[i]);
      }
      assert m.outputs == m'.outputs;
    }
  }

  /** An accepted private transaction whose outpoints, outputs or ring size are changed under the same signature is
      refused, by every ledger and at every height. */
  lemma TamperedIsRefused(c: Crypto, l: LedgerState, tx: Transaction, height: nat, l': LedgerState, tx': Transaction,
      height': nat)
    requires Mlsag.InjectiveChallenge(c.grp) && tx.mlsag.Some? && CheckSpend(c, l, tx, height) == None
    requires tx'.mlsag == tx.mlsag && !Covered(tx, tx')
    ensures CheckSpend(c, l', tx', height') != None
  {
    hide CheckRing, CheckInputs, CheckOutputs, CheckBalance, Covered, MsgOf, ReadsRing, Decodes, Mlsag.Accepts,
        Mlsag.InjectiveChallenge;
    MessageCovers(tx, tx');
    if CheckSpend(c, l', tx', height') == None {
      SignedExactly(c, l, tx);
      SignedExactly(c, l', tx');
      var sig, ring :| Decodes(c, tx.mlsag.value, sig) && ReadsRing(c, l.utxos, tx.ringMembers.value, ring)
        && Mlsag.Accepts(c.grp, sig, ring, MsgOf(tx));
      var sig', ring' :| Decodes(c, tx'.mlsag.value, sig') && ReadsRing(c, l'.utxos, tx'.ringMembers.value, ring')
        && Mlsag.Accepts(c.grp, sig', ring', MsgOf(tx'));
      SameStart(c, tx.mlsag.value, sig, sig');
      Mlsag.OneMessage(c.grp, sig, ring, MsgOf(tx), sig', ring', MsgOf(tx'));
    }
  }

  lemma SameStart(c: Crypto, data: MlsagData, sig: Mlsag.Signature, sig': Mlsag.Signature)
    requires Decodes(c, data, sig) && Decodes(c, data, sig')
    ensures sig.c0 == sig'.c0
  {
  }

  predicate SameHashed(o: TxOutput, o': TxOutput) {
    o.amount == o'.amount && o.pubkeyHash == o'.pubkeyHash && o.stealthDest == o'.stealthDest
        && o.commitment == o'.commitment
  }

  /** The transactions agree in version and ring size, in outpoints and key images, and in the amounts, owners and
      commitments of their outputs. */
  predicate HashedAlike(tx: Transaction, tx': Transaction) {
    && tx.version == tx'.version && tx.ringSize == tx'.ringSize
    && |tx.inputs| == |tx'.inputs| && |tx.outputs| == |tx'.outputs|
    && (forall i | 0 <= i < |tx.inputs| ::
          tx.inputs[i].Outpoint() == tx'.inputs[i].Outpoint() && tx.inputs[i].keyImage == tx'.inputs[i].keyImage)
    && forall i | 0 <= i < |tx.outputs| :: SameHashed(tx.outputs[i], tx'.outputs[i])
  }

  /** What the hash of a transaction is taken of is the same exactly for such transactions. */
  lemma HashCovers(tx: Transaction, tx': Transaction)
    ensures Preimage(tx) == Preimage(tx') <==> HashedAlike(tx, tx')
  {
    var (m, m') := (Preimage(tx), Preimage(tx'));
    if m == m' {
      assert |m.inputs| == |m'.inputs| && |m.outputs| == |m'.outputs|;
      forall i | 0 <= i < |tx.inputs|
        ensures tx.inputs[i].Outpoint() == tx'.inputs[i].Outpoint() && tx.inputs[i].keyImage == tx'.inputs[i].keyImage
      {
        assert m.inputs[i] == m'.inputs[i];
      }
      forall i | 0 <= i < |tx.outputs|
        ensures SameHashed(tx.outputs[i], tx'.outputs[i])
      {
        assert m.outputs[i] == m'.outputs[i];
      }
    }
    if HashedAlike(tx, tx') {
      assert m.inputs == m'.inputs;
      forall i | 0 <= i < |tx.outputs|
        ensures m.outputs[i] == m'.outputs[i]
      {
        assert SameHashed(tx.outputs[i], tx'.outputs[i]);
      }
      assert m.outputs == m'.outputs;
    }
  }

  // ----- Spends

  lemma {:induction false} InputAmountsGrow(l: LedgerState, inputs: seq<TxInput>, m: nat, n: nat)
    requires m <= n <= |inputs| && forall k | 0 <= k < |inputs| :: inputs[k].Outpoint() in l.utxos
    ensures InputAmounts(l, inputs, m) <= InputAmounts(l, inputs, n)
  {
    if m < n { InputAmountsGrow(l, inputs, m, n - 1); }
  }

  lemma {:induction false} PlainSumGrows(outputs: seq<TxOutput>, m: nat, n: nat)
    requires m <= n <= |outputs|
    ensures PlainSum(outputs, m) <= PlainSum(outputs, n)
  {
    if m < n { PlainSumGrows(outputs, m, n - 1); }
  }

  lemma {:induction false} OutputSumExactly(outputs: seq<TxOutput>, i: nat, acc: u64)
    requires i <= |outputs| && acc == PlainSum(outputs, i)
    ensures OutputSum(outputs, i, acc).Ok? <==> PlainSum(outputs, |outputs|) < U64_LIMIT
    ensures OutputSum(outputs, i, acc).Ok? ==> OutputSum(outputs, i, acc).value == PlainSum(outputs, |outputs|)
    decreases |outputs| - i
  {
    if i < |outputs| {
      PlainSumGrows(outputs, i + 1, |outputs|);
      if acc + outputs[i].amount < U64_LIMIT { OutputSumExactly(outputs, i + 1, acc + outputs[i].amount); }
    }
  }

  predicate AllExist(l: LedgerState, inputs: seq<TxInput>) {
    forall k | 0 <= k < |inputs| :: inputs[k].Outpoint() in l.utxos
  }

  predicate NoneSpent(l: LedgerState, inputs: seq<TxInput>, i: nat) {
    forall k | i <= k < |inputs| :: inputs[k].keyImage !in l.spent
  }

  lemma {:induction false} InputSumExactly(l: LedgerState, inputs: seq<TxInput>, i: nat, acc: u64, checkImages: bool)
    requires i <= |inputs| && AllExist(l, inputs) && acc == InputAmounts(l, inputs, i)
    ensures
      var r, total := InputSum(l, inputs, i, acc, checkImages), InputAmounts(l, inputs, |inputs|);
      && (r.Ok? <==> total < U64_LIMIT && (checkImages ==> NoneSpent(l, inputs, i)))
      && (r.Ok? ==> r.value == total)
    decreases |inputs| - i
  {
    if i < |inputs| {
      InputAmountsGrow(l, inputs, i + 1, |inputs|);
      var next := acc + l.utxos[inputs[i].Outpoint()].amount;
      if next < U64_LIMIT { InputSumExactly(l, inputs, i + 1, next, checkImages); }
    }
  }

  /** Everything named exists, and its amounts add up to no less than those of the outputs, within 64 bits. */
  predicate Affordable(l: LedgerState, tx: Transaction) {
    && AllExist(l, tx.inputs) && InputAmounts(l, tx.inputs, |tx.inputs|) < U64_LIMIT
    && PlainSum(tx.outputs, |tx.outputs|) <= InputAmounts(l, tx.inputs, |tx.inputs|)
  }

  /** What a transaction needs to validate: something in it, inputs that exist and are unspent, sums within 64 bits,
      and, if it has inputs, no more out than in. */
  lemma ValidatesExactly(l: LedgerState, tx: Transaction)
    ensures Validate(l, tx) == None <==>
              && (tx.inputs != [] || tx.outputs != [])
              && AllExist(l, tx.inputs) && NoneSpent(l, tx.inputs, 0)
              && (if tx.inputs == [] then PlainSum(tx.outputs, |tx.outputs|) < U64_LIMIT else Affordable(l, tx))
  {
    if AllExist(l, tx.inputs) {
      InputSumExactly(l, tx.inputs, 0, 0, true);
      OutputSumExactly(tx.outputs, 0, 0);
    } else if InputSum(l, tx.inputs, 0, 0, true).Ok? {
      LedgerProofs.InputSumOk(l, tx.inputs, 0, 0, true);
    }
  }

  /** The input shows the public key of its output and carries that key's signature of the transaction. */
  predicate Owned(c: Crypto, l: LedgerState, tx: Transaction, input: TxInput)
    requires input.Outpoint() in l.utxos
  {
    && input.revealedPubkey != []
    && c.hashPubkey(input.revealedPubkey) == l.utxos[input.Outpoint()].pubkeyHash
    && c.signatureOk(input.revealedPubkey, MsgOf(tx), tx.signatures)
  }

  /** The input exists, is unspent and unlocked, and, unless a ring signs for all inputs, its owner has signed. */
  predicate Spendable(c: Crypto, l: LedgerState, tx: Transaction, input: TxInput, height: nat) {
    && input.Outpoint() in l.utxos && input.keyImage !in l.spent
    && l.utxos[input.Outpoint()].spendableAfter <= height
    && (tx.mlsag.None? ==> Owned(c, l, tx, input))
  }

  lemma {:induction false} InputsAreSpendable(c: Crypto, l: LedgerState, tx: Transaction, height: nat, i: nat)
    requires i <= |tx.inputs|
    ensures CheckInputs(c, l, tx, height, i) == None
       <==> forall k | i <= k < |tx.inputs| :: Spendable(c, l, tx, tx.inputs[k], height)
    decreases |tx.inputs| - i
  {
    hide MsgOf;
    if i < |tx.inputs| { InputsAreSpendable(c, l, tx, height, i + 1); }
  }

  /** Why an input is refused, by the first of these that applies. */
  lemma InputErrors(c: Crypto, l: LedgerState, tx: Transaction, input: TxInput, height: nat)
    ensures
      var e, k := CheckInput(c, l, tx, input, height), input.Outpoint();
      var (unspent, plain) := (input.keyImage !in l.spent, tx.mlsag.None?);
      var open := unspent && k in l.utxos && l.utxos[k].spendableAfter <= height;
      && (e == Some(DoubleSpend) <==> !unspent)
      && (e == Some(UtxoNotFound) <==> unspent && k !in l.utxos)
      && (e == Some(TimeLocked) <==> unspent && k in l.utxos && l.utxos[k].spendableAfter > height)
      && (e == Some(MissingPubkey) <==> open && plain && input.revealedPubkey == [])
      && (e == Some(PubkeyMismatch) <==>
            && open && plain && input.revealedPubkey != []
            && c.hashPubkey(input.revealedPubkey) != l.utxos[k].pubkeyHash)
      && (e == Some(BadSignature) <==>
            && open && plain && input.revealedPubkey != []
            && c.hashPubkey(input.revealedPubkey) == l.utxos[k].pubkeyHash
            && !c.signatureOk(input.revealedPubkey, MsgOf(tx), tx.signatures))
  {
    hide MsgOf;
  }

  /** The first refused input decides. */
  lemma {:induction false} FirstRefusedDecides(c: Crypto, l: LedgerState, tx: Transaction, height: nat, i: nat, k: nat)
    requires i <= k < |tx.inputs| && CheckInput(c, l, tx, tx.inputs[k], height).Some?
    requires forall j | i <= j < k :: CheckInput(c, l, tx, tx.inputs[j], height) == None
    ensures CheckInputs(c, l, tx, height, i) == CheckInput(c, l, tx, tx.inputs[k], height)
    decreases |tx.inputs| - i
  {
    hide CheckInput;
    if i < k { FirstRefusedDecides(c, l, tx, height, i + 1, k); }
  }

  /** The output is plain, or carries a range proof that is accepted for its commitment. */
  predicate RangeProved(c: Crypto, o: TxOutput) {
    o.IsPrivate() ==>
      && o.rangeProof.Some? && o.commitment.Some?
      && c.decodeProof(o.rangeProof.value).Some? && c.decompress(o.commitment.value).Some?
      && var (proof, commitment) := (c.decodeProof(o.rangeProof.value).value, c.decompress(o.commitment.value).value);
         RangeProofs.AcceptsRange(c.grp, proof, commitment)
  }

  lemma {:induction false} OutputsAreProved(c: Crypto, outputs: seq<TxOutput>, i: nat)
    requires i <= |outputs|
    ensures CheckOutputs(c, outputs, i) == None <==> forall k | i <= k < |outputs| :: RangeProved(c, outputs[k])
    decreases |outputs| - i
  {
    hide RangeProofs.AcceptsRange;
    if i < |outputs| { OutputsAreProved(c, outputs, i + 1); }
  }

  /** Private outputs do not mix with plain ones, and where there are any, or a ring signature, nothing is made. */
  predicate Balanced(l: LedgerState, tx: Transaction) {
    && (forall i, j | 0 <= i < |tx.outputs| && 0 <= j < |tx.outputs| && tx.outputs[i].IsPrivate() ::
          tx.outputs[j].IsPrivate())
    && ((tx.mlsag.Some? || exists i | 0 <= i < |tx.outputs| :: tx.outputs[i].IsPrivate()) ==> Affordable(l, tx))
  }

  lemma BalancedExactly(l: LedgerState, tx: Transaction)
    ensures CheckBalance(l, tx) == None <==> Balanced(l, tx)
  {
    if AllExist(l, tx.inputs) {
      InputSumExactly(l, tx.inputs, 0, 0, false);
      OutputSumExactly(tx.outputs, 0, 0);
    } else if InputSum(l, tx.inputs, 0, 0, false).Ok? {
      LedgerProofs.InputSumOk(l, tx.inputs, 0, 0, false);
    }
  }

  /** The ledger spends the inputs of a transaction exactly if the ring that it names has signed it or its owners have,
      each input is unspent and unlocked, its private outputs are proved, and it balances. */
  lemma SpendIsAcceptedExactly(c: Crypto, l: LedgerState, tx: Transaction, height: nat)
    ensures CheckSpend(c, l, tx, height) == None <==>
              && (tx.mlsag.Some? ==> Signed(c, l, tx))
              && (forall k | 0 <= k < |tx.inputs| :: Spendable(c, l, tx, tx.inputs[k], height))
              && (forall k | 0 <= k < |tx.outputs| :: RangeProved(c, tx.outputs[k]))
              && Balanced(l, tx)
  {
    hide CheckRing, CheckInputs, CheckOutputs, CheckBalance, Signed, Spendable, RangeProved, Balanced;
    SignedExactly(c, l, tx);
    InputsAreSpendable(c, l, tx, height, 0);
    OutputsAreProved(c, tx.outputs, 0);
    BalancedExactly(l, tx);
  }

  // ----- Coinbases

  /** A coinbase passes exactly if it has no inputs, pays at most 20 units of 100,000,000, added up in 64 bits, and
      locks every output, in the first 10,000 blocks to height 50,000, and then not. The 40,000 blocks that an early
      coinbase is to wait at least are always over by then. */
  lemma CoinbaseIsAcceptedExactly(tx: Transaction, height: nat)
    ensures CheckCoinbase(tx, height) == None <==>
              && tx.inputs == [] && PlainSum(tx.outputs, |tx.outputs|) % U64_LIMIT <= 2_000_000_000
              && forall i | 0 <= i < |tx.outputs| ::
                   tx.outputs[i].spendableAfter == if height < 10_000 then 50_000 else 0
  {
  }

  /** An output of one of the first 10,000 coinbases cannot be spent below height 50,000, in any ledger that still
      holds it. */
  lemma FounderOutputIsLocked(c: Crypto, l: LedgerState, d: BlockDiff, coinbase: Transaction, height: u64, i: nat,
      l': LedgerState, tx: Transaction, height': nat)
    requires height < 10_000 && ApplyTx(c, l, d, coinbase, 0, height).error == None && i < |coinbase.outputs|
    requires
      var k := UtxoKey(TxHash(c, coinbase), i);
      k in l'.utxos && k in ApplyTx(c, l, d, coinbase, 0, height).ledger.utxos
      && l'.utxos[k] == ApplyTx(c, l, d, coinbase, 0, height).ledger.utxos[k]
    requires exists j | 0 <= j < |tx.inputs| :: tx.inputs[j].Outpoint() == UtxoKey(TxHash(c, coinbase), i)
    requires height' < 50_000
    ensures CheckSpend(c, l', tx, height') != None
  {
    hide CheckRing, CheckInputs, CheckOutputs, CheckBalance, Signed, RangeProved, Balanced, Preimage;
    LedgerProofs.AddOutputsAt(l.utxos, TxHash(c, coinbase), coinbase.outputs, height, 0, |coinbase.outputs|);
    SpendIsAcceptedExactly(c, l', tx, height');
    CoinbaseIsAcceptedExactly(coinbase, height);
    assert CheckCoinbase(coinbase, height) == None;
    var j :| 0 <= j < |tx.inputs| && tx.inputs[j].Outpoint() == UtxoKey(TxHash(c, coinbase), i);
    assert !Spendable(c, l', tx, tx.inputs[j], height');
  }
}
