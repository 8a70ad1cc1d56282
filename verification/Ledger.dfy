/** The ledger as a value, and what applying and unwinding a block do to it. The methods of
    `UtxoSet` are proved against these functions. */
module Ledger {
  import opened Types
  import opened Field
  import opened Mlsag
  import opened RangeProofs

  /** Every hash function, codec and signature check the ledger calls, all arbitrary. */
  datatype Crypto = Crypto(
    grp: Group,
    txHash: TxPreimage -> Hash,
    blockHash: BlockHeader -> Hash,
    hashPubkey: Bytes -> nat,
    signatureOk: (Bytes, Msg, seq<Bytes>) -> bool,
    verifyingKeyOk: Bytes -> bool,
    compress: Point -> Bytes32,
    decompress: Bytes32 -> Option<Point>,
    encodeProof: RangeProof -> Bytes,
    decodeProof: Bytes -> Option<RangeProof>,
    powOk: Block -> bool)

  datatype LedgerState = LedgerState(utxos: map<UtxoKey, UtxoEntry>, spent: set<Bytes32>, supply: nat)

  /** What a block changed, so that it can be unwound. */
  datatype BlockDiff = BlockDiff(
    consumed: map<Bytes32, (UtxoKey, UtxoEntry)>, created: seq<UtxoKey>, keyImages: seq<Bytes32>, supplyDelta: int)

  const EMPTY_DIFF := BlockDiff(map[], [], [], 0)

  const MAX_EMISSION: nat := 100_000_000 * 20

  const RAMP_UP_BLOCKS: nat := 10_000

  function TxHash(c: Crypto, tx: Transaction): Hash { c.txHash(Preimage(tx)) }

  function FounderLock(height: nat): nat {
    if height < RAMP_UP_BLOCKS then Max(50_000, height + 40_000) else 0
  }

  // ----- Validation

  /** Sums the amounts the inputs from `i` on refer to, or reports the first failing input. */
  function InputSum(l: LedgerState, inputs: seq<TxInput>, i: nat, acc: u64, checkImages: bool): Result<u64>
    requires i <= |inputs|
    decreases |inputs| - i
  {
    if i == |inputs| then Ok(acc)
    else
      var key := inputs[i].Outpoint();
      if key !in l.utxos then Err(UtxoNotFound)
      else if acc + l.utxos[key].amount >= U64_LIMIT then Err(Overflow)
      else if checkImages && inputs[i].keyImage in l.spent then Err(DoubleSpend)
      else InputSum(l, inputs, i + 1, acc + l.utxos[key].amount, checkImages)
  }

  function OutputSum(outputs: seq<TxOutput>, i: nat, acc: u64): Result<u64>
    requires i <= |outputs|
    decreases |outputs| - i
  {
    if i == |outputs| then Ok(acc)
    else if acc + outputs[i].amount >= U64_LIMIT then Err(Overflow)
    else OutputSum(outputs, i + 1, acc + outputs[i].amount)
  }

  function Validate(l: LedgerState, tx: Transaction): Option<Error> {
    if tx.inputs == [] && tx.outputs == [] then Some(EmptyTx)
    else match InputSum(l, tx.inputs, 0, 0, true)
      case Err(e) => Some(e)
      case Ok(ins) =>
        match OutputSum(tx.outputs, 0, 0)
        case Err(e) => Some(e)
        case Ok(outs) => if tx.inputs != [] && ins < outs then Some(CreatesMoney) else None
  }

  // ----- Ring signature of a private transaction

  /** The key of a ring member: only stealth outputs may appear in a ring. */
  function RingKey(c: Crypto, utxos: map<UtxoKey, UtxoEntry>, member: UtxoKey): Result<Point> {
    if member !in utxos then Err(RingUtxoNotFound)
    else match utxos[member].stealthDest
      case None => Err(LegacyRingMember)
      case Some(dest) =>
        match c.decompress(dest)
        case None => Err(InvalidStealthPoint)
        case Some(p) => Ok(p)
  }

  function BuildRing(c: Crypto, utxos: map<UtxoKey, UtxoEntry>, members: seq<UtxoKey>, i: nat, acc: seq<Point>)
      : Result<seq<Point>>
    requires i <= |members|
    decreases |members| - i
  {
    if i == |members| then Ok(acc)
    else match RingKey(c, utxos, members[i])
      case Err(e) => Err(e)
      case Ok(p) => BuildRing(c, utxos, members, i + 1, acc + [p])
  }

  function BuildLayers(c: Crypto, utxos: map<UtxoKey, UtxoEntry>, rings: seq<seq<UtxoKey>>, i: nat,
      acc: seq<seq<Point>>)
    : Result<seq<seq<Point>>>
    requires i <= |rings|
    decreases |rings| - i
  {
    if i == |rings| then Ok(acc)
    else match BuildRing(c, utxos, rings[i], 0, [])
      case Err(e) => Err(e)
      case Ok(layer) => BuildLayers(c, utxos, rings, i + 1, acc + [layer])
  }

  /** From one ring per input to one row per ring position, as wide as the first ring. */
  function Transpose(layers: seq<seq<Point>>): Ring
    requires layers != [] && forall k | 0 <= k < |layers| :: |layers[0]| <= |layers[k]|
  {
    seq(|layers[0]|, pos requires 0 <= pos < |layers[0]| =>
      seq(|layers|, layer requires 0 <= layer < |layers| => layers[layer][pos]))
  }

  function DecompressAll(c: Crypto, points: seq<Bytes32>, i: nat, acc: seq<Point>): Option<seq<Point>>
    requires i <= |points|
    decreases |points| - i
  {
    if i == |points| then Some(acc)
    else match c.decompress(points[i])
      case None => None
      case Some(p) => DecompressAll(c, points, i + 1, acc + [p])
  }

  /** Every scalar read from 32 bytes is reduced modulo the group order. */
  function ReduceAll(q: Modulus, rows: seq<seq<Bytes32>>): seq<seq<Scalar>> {
    seq(|rows|, i requires 0 <= i < |rows| => seq(|rows[i]|, j requires 0 <= j < |rows[i]| => rows[i][j] % q))
  }

  function ToSignature(c: Crypto, data: MlsagData): Option<Signature> {
    match DecompressAll(c, data.keyImages, 0, [])
    case None => None
    case Some(images) =>
      Some(Signature(data.ringSize, data.nLayers, images, data.c0 % c.grp.q, ReduceAll(c.grp.q, data.responses)))
  }

  function MlsagOk(c: Crypto, data: MlsagData, ring: Ring, msg: Msg): bool {
    match ToSignature(c, data)
    case None => false
    case Some(sig) => Accepts(c.grp, sig, ring, msg)
  }

  /** Where a later ring is shorter than the first, the source stops on an index out of range; that
      outcome is `BadMlsag` here. */
  function CheckRing(c: Crypto, l: LedgerState, tx: Transaction): Option<Error> {
    if tx.mlsag.None? then None
    else if tx.ringMembers.None? then Some(NoRingMembers)
    else match BuildLayers(c, l.utxos, tx.ringMembers.value, 0, [])
      case Err(e) => Some(e)
      case Ok(layers) =>
        if layers == [] then Some(NoRings)
        else if exists k | 0 <= k < |layers| :: |layers[k]| < |layers[0]| then Some(BadMlsag)
        else if MlsagOk(c, tx.mlsag.value, Transpose(layers), MsgOf(tx)) then None
        else Some(BadMlsag)
  }

  // ----- Spending

  function CheckInput(c: Crypto, l: LedgerState, tx: Transaction, input: TxInput, height: nat): Option<Error> {
    if input.keyImage in l.spent then Some(DoubleSpend)
    else if input.Outpoint() !in l.utxos then Some(UtxoNotFound)
    else
      var utxo := l.utxos[input.Outpoint()];
      if height < utxo.spendableAfter then Some(TimeLocked)
      else if tx.mlsag.Some? then None
      else if input.revealedPubkey == [] then Some(MissingPubkey)
      else if c.hashPubkey(input.revealedPubkey) != utxo.pubkeyHash then Some(PubkeyMismatch)
      else if !c.signatureOk(input.revealedPubkey, MsgOf(tx), tx.signatures) then Some(BadSignature)
      else None
  }

  function CheckInputs(c: Crypto, l: LedgerState, tx: Transaction, height: nat, i: nat): Option<Error>
    requires i <= |tx.inputs|
    decreases |tx.inputs| - i
  {
    if i == |tx.inputs| then None
    else match CheckInput(c, l, tx, tx.inputs[i], height)
      case Some(e) => Some(e)
      case None => CheckInputs(c, l, tx, height, i + 1)
  }

  function CheckOutput(c: Crypto, o: TxOutput): Option<Error> {
    if !o.IsPrivate() then None
    else if o.rangeProof.None? then Some(MissingRangeProof)
    else if o.commitment.None? then Some(MissingCommitment)
    else match c.decodeProof(o.rangeProof.value)
      case None => Some(BadRangeProofEncoding)
      case Some(proof) =>
        match c.decompress(o.commitment.value)
        case None => Some(BadCommitmentPoint)
        case Some(p) => if AcceptsRange(c.grp, proof, p) then None else Some(BadRangeProof)
  }

  function CheckOutputs(c: Crypto, outputs: seq<TxOutput>, i: nat): Option<Error>
    requires i <= |outputs|
    decreases |outputs| - i
  {
    if i == |outputs| then None
    else match CheckOutput(c, outputs[i])
      case Some(e) => Some(e)
      case None => CheckOutputs(c, outputs, i + 1)
  }

  predicate HasPrivate(outputs: seq<TxOutput>) {
    exists i | 0 <= i < |outputs| :: outputs[i].IsPrivate()
  }

  /** A private transaction has only private outputs and does not pay out more than it takes in. */
  function CheckBalance(l: LedgerState, tx: Transaction): Option<Error> {
    var private := HasPrivate(tx.outputs);
    if private && exists i | 0 <= i < |tx.outputs| :: !tx.outputs[i].IsPrivate() then Some(HybridTx)
    else if !private && tx.mlsag.None? then None
    else match InputSum(l, tx.inputs, 0, 0, false)
      case Err(e) => Some(e)
      case Ok(ins) =>
        match OutputSum(tx.outputs, 0, 0)
        case Err(e) => Some(e)
        case Ok(outs) => if ins < outs then Some(Inflation) else None
  }

  /** Everything that is checked before the first input is spent. */
  function CheckSpend(c: Crypto, l: LedgerState, tx: Transaction, height: nat): Option<Error> {
    match CheckRing(c, l, tx)
    case Some(e) => Some(e)
    case None =>
      match CheckInputs(c, l, tx, height, 0)
      case Some(e) => Some(e)
      case None =>
        match CheckOutputs(c, tx.outputs, 0)
        case Some(e) => Some(e)
        case None => CheckBalance(l, tx)
  }

  function SpendOne(l: LedgerState, input: TxInput): LedgerState {
    l.(utxos := l.utxos - {input.Outpoint()}, spent := l.spent + {input.keyImage})
  }

  function RecordOne(l: LedgerState, d: BlockDiff, input: TxInput): BlockDiff {
    var key := input.Outpoint();
    d.(consumed := if input.keyImage !in d.consumed && key in l.utxos
                   then d.consumed[input.keyImage := (key, l.utxos[key])] else d.consumed,
       keyImages := d.keyImages + [input.keyImage])
  }

  /** The ledger after the first `n` inputs are spent. */
  function SpendAll(l: LedgerState, inputs: seq<TxInput>, n: nat): LedgerState
    requires n <= |inputs|
  {
    if n == 0 then l else SpendOne(SpendAll(l, inputs, n - 1), inputs[n - 1])
  }

  function RecordAll(l: LedgerState, d: BlockDiff, inputs: seq<TxInput>, n: nat): BlockDiff
    requires n <= |inputs|
  {
    if n == 0 then d
    else RecordOne(SpendAll(l, inputs, n - 1), RecordAll(l, d, inputs, n - 1), inputs[n - 1])
  }

  // ----- Creating outputs

  function EntryOf(o: TxOutput, height: u64, txIndex: nat, i: nat): UtxoEntry {
    UtxoEntry(o.amount, o.pubkeyHash, o.spendableAfter, height, txIndex, i, o.stealthDest, o.ephemeral, o.commitment)
  }

  /** The UTXO map after the first `n` outputs of a transaction are inserted. */
  function AddOutputs(utxos: map<UtxoKey, UtxoEntry>, h: Hash, outputs: seq<TxOutput>, height: u64, txIndex: nat,
      n: nat)
    : map<UtxoKey, UtxoEntry>
    requires n <= |outputs|
  {
    if n == 0 then utxos
    else AddOutputs(utxos, h, outputs, height, txIndex, n - 1)
         [UtxoKey(h, n - 1) := EntryOf(outputs[n - 1], height, txIndex, n - 1)]
  }

  function OutputKeys(h: Hash, n: nat): seq<UtxoKey> {
    seq(n, i requires 0 <= i < n => UtxoKey(h, i))
  }

  function PlainSum(outputs: seq<TxOutput>, n: nat): nat
    requires n <= |outputs|
  {
    if n == 0 then 0 else PlainSum(outputs, n - 1) + outputs[n - 1].amount
  }

  /** The coinbase amount as the source adds it up, in wrapping 64-bit arithmetic. */
  function CoinbaseAmount(tx: Transaction): u64 { PlainSum(tx.outputs, |tx.outputs|) % U64_LIMIT }

  function CheckCoinbase(tx: Transaction, height: nat): Option<Error> {
    if tx.inputs != [] then Some(CoinbaseHasInputs)
    else if CoinbaseAmount(tx) > MAX_EMISSION then Some(CoinbaseTooLarge)
    else if exists i | 0 <= i < |tx.outputs| :: tx.outputs[i].spendableAfter != FounderLock(height)
        then Some(CoinbaseBadLock)
    else None
  }

  function AddSupply(supply: nat, amount: nat): nat {
    if supply + amount < U64_LIMIT then supply + amount else supply
  }

  // ----- Applying and unwinding a block

  datatype Outcome = Outcome(ledger: LedgerState, diff: BlockDiff, error: Option<Error>)

  function ApplyTx(c: Crypto, l: LedgerState, d: BlockDiff, tx: Transaction, idx: nat, height: u64): Outcome {
    var h, n := TxHash(c, tx), |tx.outputs|;
    if idx == 0 then
      match CheckCoinbase(tx, height)
      case Some(e) => Outcome(l, d, Some(e))
      case None =>
        var amount := CoinbaseAmount(tx);
        Outcome(
          l.(utxos := AddOutputs(l.utxos, h, tx.outputs, height, idx, n), supply := AddSupply(l.supply, amount)),
          d.(created := d.created + OutputKeys(h, n), supplyDelta := d.supplyDelta + amount),
          None)
    else
      match Validate(l, tx)
      case Some(e) => Outcome(l, d, Some(e))
      case None =>
        match CheckSpend(c, l, tx, height)
        case Some(e) => Outcome(l, d, Some(e))
        case None =>
          var l' := SpendAll(l, tx.inputs, |tx.inputs|);
          var d' := RecordAll(l, d, tx.inputs, |tx.inputs|);
          Outcome(
            l'.(utxos := AddOutputs(l'.utxos, h, tx.outputs, height, idx, n)),
            d'.(created := d'.created + OutputKeys(h, n)),
            None)
  }

  /** Applies the transactions from `i` on, stopping with the state so far at the first error. */
  function ApplyFrom(c: Crypto, l: LedgerState, d: BlockDiff, txs: seq<Transaction>, height: u64, i: nat): Outcome
    requires i <= |txs|
    decreases |txs| - i
  {
    if i == |txs| then Outcome(l, d, None)
    else
      var o := ApplyTx(c, l, d, txs[i], i, height);
      if o.error.Some? then o else ApplyFrom(c, o.ledger, o.diff, txs, height, i + 1)
  }

  function ConsumedKeys(d: BlockDiff): set<UtxoKey> {
    set ki | ki in d.consumed :: d.consumed[ki].0
  }

  /** Two key images that restore the same outpoint agree on its entry, unless the outpoint is removed anyway.
      The order in which the source restores the consumed entries then does not matter. */
  ghost predicate Restorable(d: BlockDiff) {
    forall a, b | a in d.consumed && b in d.consumed && d.consumed[a].0 == d.consumed[b].0
        && d.consumed[a].0 !in d.created ::
      d.consumed[a].1 == d.consumed[b].1
  }

  ghost function RestoredEntry(d: BlockDiff, key: UtxoKey): UtxoEntry
    requires key in ConsumedKeys(d)
  {
    var ki :| ki in d.consumed && d.consumed[ki].0 == key;
    d.consumed[ki].1
  }

  /** Restores consumed entries, then removes created ones, un-marks key images, and takes back the supply. */
  ghost function Unwind(l: LedgerState, d: BlockDiff): LedgerState {
    LedgerState(
      map k | k in l.utxos.Keys + ConsumedKeys(d) && k !in d.created ::
        if k in ConsumedKeys(d) then RestoredEntry(d, k) else l.utxos[k],
      l.spent - (set ki | ki in d.keyImages),
      if d.supplyDelta > 0 then Max(0, l.supply - d.supplyDelta) else l.supply)
  }

  /** Applies a block; on an error the part already applied is unwound with the diff built so far. */
  ghost function ApplyTracked(c: Crypto, l: LedgerState, b: Block, height: u64): (LedgerState, Result<BlockDiff>) {
    var o := ApplyFrom(c, l, EMPTY_DIFF, b.transactions, height, 0);
    match o.error
    case None => (o.ledger, Ok(o.diff))
    case Some(e) => (Unwind(o.ledger, o.diff), Err(e))
  }
}
