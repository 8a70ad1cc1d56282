/** A payment from end to end: the payer's wallet makes it, the ledger takes it in, and both wallets
    find what it pays them and can open it. */
module Payments {
  import opened Types
  import opened Field
  import opened Mlsag
  import opened RangeProofs
  import opened Ledger
  import LedgerProofs
  import opened Wallets
  import UtxoSets

  /** The stealth address of a wallet key. */
  function AddressOf(c: Crypto, k: WalletKey): StealthAddress {
    StealthAddress(Mul(c.grp.q, k.spendSecret % c.grp.q, c.grp.g), Mul(c.grp.q, k.viewSecret % c.grp.q, c.grp.g))
  }

  /** The encoded address in the key is the one of its secrets. */
  predicate WellFormed(c: Crypto, k: WalletKey) {
    c.decompress(k.spendKey) == Some(AddressOf(c, k).spendKey)
        && c.decompress(k.viewKey) == Some(AddressOf(c, k).viewKey)
  }

  /** The entry is a one-time output to the address. */
  predicate PaysTo(c: Crypto, addr: StealthAddress, r: Scalar, entry: UtxoEntry) {
    var (dest, ephemeral) := DeriveDestination(c.grp, addr, r);
    entry.stealthDest == Some(c.compress(dest)) && entry.ephemeral == Some(c.compress(ephemeral))
  }

  /** The scan lists the output, with the scalar that opens its destination. */
  ghost predicate Finds(c: Crypto, keys: seq<WalletKey>, utxos: map<UtxoKey, UtxoEntry>, order: seq<UtxoKey>,
      key: UtxoKey, dest: Point)
    requires Enumerates(utxos, order)
  {
    exists o | o in Scanned(c, keys, utxos, order, |order|) ::
      o.key == key && key in utxos && o.entry == utxos[key] && Mul(c.grp.q, o.oneTimeKey, c.grp.g) == dest
  }

  lemma {:induction false} OwnerExists(c: Crypto, keys: seq<WalletKey>, ephemeral: Point, dest: Bytes32, i: nat, k: nat)
    requires i <= k < |keys| && StealthSecret(c, keys[k], ephemeral, dest).Some?
    ensures StealthOwner(c, keys, ephemeral, dest, i).Some?
    decreases k - i
  {
    if StealthSecret(c, keys[i], ephemeral, dest).None? { OwnerExists(c, keys, ephemeral, dest, i + 1, k); }
  }

  lemma {:induction false} ScannedHas(c: Crypto, keys: seq<WalletKey>, utxos: map<UtxoKey, UtxoEntry>,
      order: seq<UtxoKey>, n: nat, i: nat)
    requires i < n <= |order| && forall j | 0 <= j < |order| :: order[j] in utxos
    requires Owned(c, keys, order[i], utxos[order[i]]).Some?
    ensures Owned(c, keys, order[i], utxos[order[i]]).value in Scanned(c, keys, utxos, order, n)
  {
    hide Owned;
    if i < n - 1 { ScannedHas(c, keys, utxos, order, n - 1, i); }
  }

  /** Whoever holds the secrets of the address finds an output to it, in every order of scanning. */
  lemma OutputIsFound(c: Crypto, keys: seq<WalletKey>, k: nat, r: Scalar, utxos: map<UtxoKey, UtxoEntry>,
      order: seq<UtxoKey>, key: UtxoKey)
    requires Laws(c) && Enumerates(utxos, order) && k < |keys| && key in utxos
    requires PaysTo(c, AddressOf(c, keys[k]), r, utxos[key])
    ensures Finds(c, keys, utxos, order, key, DeriveDestination(c.grp, AddressOf(c, keys[k]), r).0)
  {
    hide SuitableGroup, DeriveDestination, RecoverOneTimeKey, Scanned;
    var grp, entry := c.grp, utxos[key];
    var (dest, ephemeral) := DeriveDestination(grp, AddressOf(c, keys[k]), r);
    RecoveryOpensDestination(grp, keys[k].viewSecret % grp.q, keys[k].spendSecret % grp.q, r);
    OwnerExists(c, keys, ephemeral, entry.stealthDest.value, 0, k);
    StealthOwnerOpens(c, keys, ephemeral, entry.stealthDest.value, 0);
    var i :| 0 <= i < |order| && order[i] == key;
    ScannedHas(c, keys, utxos, order, |order|, i);
  }

  /** The outputs of a transaction once they are entered. */
  predicate Entered(c: Crypto, utxos: map<UtxoKey, UtxoEntry>, tx: Transaction, height: u64, txIndex: nat) {
    forall i | 0 <= i < |tx.outputs| ::
      UtxoKey(TxHash(c, tx), i) in utxos && utxos[UtxoKey(TxHash(c, tx), i)]
          == EntryOf(tx.outputs[i], height, txIndex, i)
  }

  /** The payer's wallet builds a payment from the UTXO set, the set spends its inputs and takes in its
      outputs. It is built and accepted, for a prepared payer, exactly if the balance suffices and both
      amounts fit; afterwards the payee finds the payment and the payer the change. */
  method Pay(c: Crypto, payer: seq<WalletKey>, payee: seq<WalletKey>, k: nat, amount: u64, state: UtxoSets.UtxoSet,
      order: seq<UtxoKey>, rnd: Randomness, height: u64)
    returns (r: Result<Transaction>, e: Option<Error>)
    requires Enumerates(state.utxos, order) && SuitableGroup(c.grp) && k < |payee|
    modifies state
    ensures
      var l := old(state.Value());
      Prepared(c, payer, l, order, amount, height) && CanPay(c, payer, l.utxos, order, amount) ==> r.Ok?
    ensures
      var l := old(state.Value());
      r.Ok? && Prepared(c, payer, l, order, amount, height) ==> (e == None <==> AmountsFit(r.value.outputs))
    ensures r.Err? || e.Some? ==> state.Value() == old(state.Value())
    ensures r.Ok? && e == None ==>
              var images := LedgerProofs.ImagesOf(r.value.inputs, |r.value.inputs|);
              state.spentKeyImages == old(state.spentKeyImages) + images
    ensures r.Ok? && e == None ==> Entered(c, state.utxos, r.value, height, 0)
    ensures r.Ok? && e == None && Laws(c) ==> r.value.outputs != [] && r.value.outputs[0].amount == amount
    ensures r.Ok? && e == None && Laws(c) ==>
              forall order' | Enumerates(state.utxos, order') ::
                var dest := DeriveDestination(c.grp, AddressOf(c, payee[k]), rnd.ephemeral(0)).0;
                Finds(c, payee, state.utxos, order', UtxoKey(TxHash(c, r.value), 0), dest)
    ensures r.Ok? && e == None && Laws(c) && |r.value.outputs| == 2 && payer != [] && WellFormed(c, payer[0]) ==>
              forall order' | Enumerates(state.utxos, order') ::
                var dest := DeriveDestination(c.grp, AddressOf(c, payer[0]), rnd.ephemeral(1)).0;
                Finds(c, payer, state.utxos, order', UtxoKey(TxHash(c, r.value), 1), dest)
  {
    hide SuitableGroup, Prepared, CanPay, CheckSpend, Validate, Laws, Enumerates, Scanned, DeriveDestination,
        AddOutputs, SpendAll, AmountsFit, Preimage, Finds, OutputSum, CheckOutputs, InputSum;
    e := None;
    r := CreatePrivateTx(c, payer, AddressOf(c, payee[k]), amount, state.utxos, order, rnd, state.Value(), height);
    if r.Err? { return; }
    var tx := r.value;
    e := state.SpendTransactionInputs(c, tx, height);
    if e.Some? { return; }
    LedgerProofs.SpendAllSpent(old(state.Value()), tx.inputs, |tx.inputs|);
    LedgerProofs.AddOutputsAt(state.utxos, TxHash(c, tx), tx.outputs, height, 0, |tx.outputs|);
    state.AddTransactionOutputs(TxHash(c, tx), tx, height, 0);
    if Laws(c) {
      var total: u64, self :| amount <= total && Pays(c, tx.outputs, AddressOf(c, payee[k]), self, amount, total, rnd)
        && payer != [] && c.decompress(payer[0].spendKey) == Some(self.spendKey)
        && c.decompress(payer[0].viewKey) == Some(self.viewKey);
      forall order' | Enumerates(state.utxos, order')
        ensures Finds(c, payee, state.utxos, order', UtxoKey(TxHash(c, tx), 0),
                      DeriveDestination(c.grp, AddressOf(c, payee[k]), rnd.ephemeral(0)).0)
      {
        OutputIsFound(c, payee, k, rnd.ephemeral(0), state.utxos, order', UtxoKey(TxHash(c, tx), 0));
      }
      if |tx.outputs| == 2 && WellFormed(c, payer[0]) {
        forall order' | Enumerates(state.utxos, order')
          ensures Finds(c, payer, state.utxos, order', UtxoKey(TxHash(c, tx), 1),
                        DeriveDestination(c.grp, AddressOf(c, payer[0]), rnd.ephemeral(1)).0)
        {
          OutputIsFound(c, payer, 0, rnd.ephemeral(1), state.utxos, order', UtxoKey(TxHash(c, tx), 1));
        }
      }
    }
  }
}
