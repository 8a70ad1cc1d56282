/** The entities of the ledger: transactions, blocks, UTXO entries, and the error values that
    the source reports as strings.

    A 32-byte digest, key image or compressed point is a natural number, zero standing for
    the all-zero string. Machine integers keep their width where the width can matter. */
module Types {

  datatype Option<+T> = None | Some(value: T)

  datatype Result<+T> = Ok(value: T) | Err(error: Error)

  datatype Error =
    | EmptyTx | UtxoNotFound | Overflow | DoubleSpend | CreatesMoney
    | NoRingMembers | RingUtxoNotFound | InvalidStealthPoint | LegacyRingMember | NoRings | BadMlsag
    | TimeLocked | MissingPubkey | PubkeyMismatch | BadSignature
    | MissingRangeProof | MissingCommitment | BadRangeProofEncoding | BadCommitmentPoint | BadRangeProof
    | HybridTx | Inflation
    | CoinbaseHasInputs | CoinbaseTooLarge | CoinbaseBadLock
    | BlockExists | ParentNotFound | TipNotFound
    | BlockMissingInUnwind | BlockMissingInApply | NothingToApply | ReorgTooDeep
    | BadProofOfWork | DuplicateBlock | BlockRejected
    | MempoolKeyImageSpent | MempoolKeyImagePending | MempoolUtxoPending | MempoolFull
    | MerkleMismatch | SelfParent | EmissionTooHigh | ZeroProofHash | ParentLost
    | WalkLengthMismatch | DifficultyNotMet | RootMismatch | MissingSample | PositionMismatch | MixMismatch
    | OffsetNotMonotonic
    | BadEntropyLength | BadWordIndex | BadWordCount | UnknownWord | BadChecksum
    | NoWalletKeys | ZeroAmount | BadWalletAddress | InsufficientBalance | RingTooSmall

  const U64_LIMIT: nat := 0x1_0000_0000_0000_0000
  const U128_MAX: nat := 0xFFFF_FFFF_FFFF_FFFF_FFFF_FFFF_FFFF_FFFF

  type u64 = x: nat | x < 0x1_0000_0000_0000_0000

  type Bytes32 = nat
  type Hash = Bytes32
  type Bytes = seq<nat>
  type Scalar = nat
  type Point = nat

  const ZERO: Hash := 0

  datatype UtxoKey = UtxoKey(txHash: Hash, outputIndex: nat)

  datatype UtxoEntry = UtxoEntry(
    amount: u64, pubkeyHash: nat, spendableAfter: u64, blockHeight: u64, txIndex: nat, outputIndex: nat,
    stealthDest: Option<Bytes32>, ephemeral: Option<Bytes32>, commitment: Option<Bytes32>)

  datatype TxInput = TxInput(previousTxHash: Hash, outputIndex: nat, keyImage: Bytes32, revealedPubkey: Bytes)
  {
    function Outpoint(): UtxoKey { UtxoKey(previousTxHash, outputIndex) }
  }

  datatype TxOutput = TxOutput(
    amount: u64, pubkeyHash: nat, spendableAfter: u64,
    stealthDest: Option<Bytes32>, commitment: Option<Bytes32>, rangeProof: Option<Bytes>, ephemeral: Option<Bytes32>)
  {
    predicate IsPrivate() { stealthDest.Some? }
  }

  /** A ring signature in compressed form, as a transaction carries it. */
  datatype MlsagData = MlsagData(
    ringSize: nat, nLayers: nat, keyImages: seq<Bytes32>, c0: Bytes32, responses: seq<seq<Bytes32>>)

  datatype Transaction = Transaction(
    version: nat, inputs: seq<TxInput>, outputs: seq<TxOutput>, ringSize: nat, signatures: seq<Bytes>,
    mlsag: Option<MlsagData>, ringMembers: Option<seq<seq<UtxoKey>>>)

  datatype BlockHeader = BlockHeader(
    version: nat, previousHash: Hash, merkleRoot: Hash, timestamp: u64, height: u64, epoch: u64,
    difficultyTarget: u64, totalEffectiveCommit: u64, emissionRate: u64, minerEffectiveCommit: u64,
    vrBlock: u64, coinbaseBurn: u64, nonce: u64, elapsedMs: nat, proofMerkleRoot: Option<Hash>)

  datatype Block = Block(header: BlockHeader, transactions: seq<Transaction>, proofHash: Hash)

  /** The fields of a transaction that its hash covers: the height, the time lock, the ephemeral
      key, the range proof, the signature and the ring members are not among them. */
  datatype TxPreimage = TxPreimage(
    version: nat, inputs: seq<(Hash, nat, Bytes32)>,
    outputs: seq<(u64, nat, Option<Bytes32>, Option<Bytes32>)>, ringSize: nat)

  function Preimage(tx: Transaction): TxPreimage {
    TxPreimage(
      tx.version,
      seq(|tx.inputs|, i requires 0 <= i < |tx.inputs| =>
        (tx.inputs[i].previousTxHash, tx.inputs[i].outputIndex, tx.inputs[i].keyImage)),
      seq(|tx.outputs|, i requires 0 <= i < |tx.outputs| =>
        (tx.outputs[i].amount, tx.outputs[i].pubkeyHash, tx.outputs[i].stealthDest, tx.outputs[i].commitment)),
      tx.ringSize)
  }

  /** What a signature covers: the outpoints, the outputs without their time lock, the ring size.
      `BitMsg(i)` is the label under which the proof of bit `i` is signed. */
  datatype Msg =
    | TxMsg(inputs: seq<UtxoKey>,
            outputs: seq<(u64, nat, Option<Bytes32>, Option<Bytes32>, Option<Bytes>, Option<Bytes32>)>,
            ringSize: nat)
    | BitMsg(bit: nat)

  function MsgOf(tx: Transaction): Msg {
    TxMsg(
      seq(|tx.inputs|, i requires 0 <= i < |tx.inputs| => tx.inputs[i].Outpoint()),
      seq(|tx.outputs|, i requires 0 <= i < |tx.outputs| =>
        (tx.outputs[i].amount, tx.outputs[i].pubkeyHash, tx.outputs[i].stealthDest, tx.outputs[i].commitment,
         tx.outputs[i].rangeProof, tx.outputs[i].ephemeral)),
      tx.ringSize)
  }

  function Min(a: int, b: int): int { if a <= b then a else b }

  function Max(a: int, b: int): int { if a <= b then b else a }
}
