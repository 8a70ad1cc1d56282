/** The block store, the fork decision, the reorganisation and the receive step of a node, on
    values. The classes `ChainStore` and the methods of `Reorg` and `NodeStep` are proved against them. */
module Chain {
  import opened Types
  import opened Ledger
  import opened BlockTree

  datatype BlockEntry = BlockEntry(height: nat, accumulatedWork: nat)

  /** `blocks` holds the metadata and `cache` the full blocks, under the same hashes. */
  datatype Store = Store(
    blocks: map<Hash, BlockEntry>, cache: Tree, diffs: map<Hash, BlockDiff>,
    tip: Hash, tipHeight: nat, tipWork: nat,
    orphans: map<Hash, Block>, orphanOrder: seq<Hash>)

  datatype Node = Node(store: Store, ledger: LedgerState)

  const MAX_ORPHANS: nat := 500
  const MAX_REORG: nat := 100

  function HashOf(c: Crypto, b: Block): Hash { c.blockHash(b.header) }

  // ----- Insertion

  function NewStore(c: Crypto, genesis: Block): Store {
    var h, w := HashOf(c, genesis), BlockWork(genesis.header);
    Store(map[h := BlockEntry(0, w)], map[h := genesis], map[], h, 0, w, map[], [])
  }

  /** Adds a block to the tree without moving the tip, and returns its accumulated work. */
  function AddBlock(c: Crypto, s: Store, b: Block): (Store, Result<nat>) {
    var h, p := HashOf(c, b), b.header.previousHash;
    if h in s.blocks then (s, Err(BlockExists))
    else if p !in s.blocks && !(p == ZERO && b.header.height == 0) then (s, Err(ParentNotFound))
    else
      var work := SatAdd(if p in s.blocks then s.blocks[p].accumulatedWork else 0, BlockWork(b.header));
      (s.(blocks := s.blocks[h := BlockEntry(b.header.height, work)], cache := s.cache[h := b]), Ok(work))
  }

  function SetTip(s: Store, h: Hash): (Store, Option<Error>) {
    if h !in s.blocks then (s, Some(TipNotFound))
    else (s.(tip := h, tipHeight := s.blocks[h].height, tipWork := s.blocks[h].accumulatedWork), None)
  }

  // ----- Orphans

  /** Drops the oldest orphans until there is room for one more. */
  function Evict(orphans: map<Hash, Block>, order: seq<Hash>): (map<Hash, Block>, seq<Hash>)
    decreases |order|
  {
    if |orphans| < MAX_ORPHANS || order == [] then (orphans, order)
    else Evict(orphans - {order[0]}, order[1..])
  }

  function AddOrphan(c: Crypto, s: Store, b: Block): Store {
    var h := HashOf(c, b);
    if h in s.orphans then s
    else
      var (orphans, order) := Evict(s.orphans, s.orphanOrder);
      s.(orphans := orphans[h := b], orphanOrder := order + [h])
  }

  // ----- Fork decision

  datatype ForkDecision =
    | ExtendCanonical
    | ReorgToNew(toUnwind: seq<Hash>, toApply: seq<Hash>)
    | Sidechain
    | Orphan
    | Reject

  ghost function AnalyzeFork(c: Crypto, s: Store, b: Block): ForkDecision
    requires Acyclic(s.cache)
  {
    var prev := b.header.previousHash;
    if prev !in s.cache then (if b.header.height == 0 then Reject else Orphan)
    else if prev == s.tip then ExtendCanonical
    else if SatAdd(if prev in s.blocks then s.blocks[prev].accumulatedWork else 0, BlockWork(b.header)) <= s.tipWork
        then Sidechain
    else match FindLca(s.cache, prev, s.tip)
      case None => Sidechain
      case Some(fork) =>
        ReorgToNew(ChainToFork(s.cache, s.tip, fork), Reverse(ChainToFork(s.cache, prev, fork)) + [HashOf(c, b)])
  }

  // ----- Reorganisation

  /** The diff made up from the block itself when none was recorded: it cannot restore inputs. */
  function FallbackDiff(c: Crypto, txs: seq<Transaction>, n: nat): BlockDiff
    requires n <= |txs|
  {
    if n == 0 then EMPTY_DIFF
    else
      var d, tx := FallbackDiff(c, txs, n - 1), txs[n - 1];
      var created := d.created + OutputKeys(TxHash(c, tx), |tx.outputs|);
      if n == 1 then d.(created := created, supplyDelta := d.supplyDelta + CoinbaseAmount(tx))
      else d.(created := created,
              keyImages := d.keyImages + seq(|tx.inputs|, i requires 0 <= i < |tx.inputs| => tx.inputs[i].keyImage))
  }

  function DiffOf(c: Crypto, s: Store, h: Hash): BlockDiff
    requires h in s.cache
  {
    if h in s.diffs then s.diffs[h] else FallbackDiff(c, s.cache[h].transactions, |s.cache[h].transactions|)
  }

  ghost function UnwindFrom(c: Crypto, s: Store, l: LedgerState, hashes: seq<Hash>, i: nat): Result<LedgerState>
    requires i <= |hashes|
    decreases |hashes| - i
  {
    if i == |hashes| then Ok(l)
    else if hashes[i] !in s.cache then Err(BlockMissingInUnwind)
    else UnwindFrom(c, s, Unwind(l, DiffOf(c, s, hashes[i])), hashes, i + 1)
  }

  datatype Applied = Applied(store: Store, ledger: LedgerState, error: Option<Error>)

  ghost function ApplyPath(c: Crypto, s: Store, l: LedgerState, hashes: seq<Hash>, i: nat): Applied
    requires i <= |hashes|
    decreases |hashes| - i
  {
    if i == |hashes| then Applied(s, l, None)
    else if hashes[i] !in s.cache then Applied(s, l, Some(BlockMissingInApply))
    else
      var b := s.cache[hashes[i]];
      var (l', r) := ApplyTracked(c, l, b, b.header.height);
      match r
      case Err(e) => Applied(s, l', Some(e))
      case Ok(d) => ApplyPath(c, s.(diffs := s.diffs[hashes[i] := d]), l', hashes, i + 1)
  }

  predicate InNewChain(c: Crypto, s: Store, apply: seq<Hash>, h: Hash) {
    exists i | 0 <= i < |apply| ::
      apply[i] in s.cache &&
      exists k | 0 <= k < |s.cache[apply[i]].transactions| :: TxHash(c, s.cache[apply[i]].transactions[k]) == h
  }

  /** A transaction to return to the memory pool: some input is unspent again, and it is not in the new chain. */
  predicate Resurrectable(c: Crypto, s: Store, l: LedgerState, apply: seq<Hash>, tx: Transaction, idx: nat) {
    && idx > 0 && tx.inputs != []
    && (exists i | 0 <= i < |tx.inputs| :: tx.inputs[i].keyImage !in l.spent)
    && !InNewChain(c, s, apply, TxHash(c, tx))
  }

  function ResurrectBlock(c: Crypto, s: Store, l: LedgerState, apply: seq<Hash>, txs: seq<Transaction>, n: nat)
      : seq<Hash>
    requires n <= |txs|
  {
    if n == 0 then []
    else ResurrectBlock(c, s, l, apply, txs, n - 1) +
         if Resurrectable(c, s, l, apply, txs[n - 1], n - 1) then [TxHash(c, txs[n - 1])] else []
  }

  function Resurrect(c: Crypto, s: Store, l: LedgerState, apply: seq<Hash>, unwind: seq<Hash>, n: nat): seq<Hash>
    requires n <= |unwind|
  {
    if n == 0 then []
    else Resurrect(c, s, l, apply, unwind, n - 1) +
         if unwind[n - 1] in s.cache
         then ResurrectBlock(c, s, l, apply, s.cache[unwind[n - 1]].transactions, |s.cache[unwind[n - 1]].transactions|)
         else []
  }

  /** The reorganisation itself; on an error its partial changes are discarded by `Reorganise`. */
  ghost function ReorgInner(c: Crypto, n: Node, unwind: seq<Hash>, apply: seq<Hash>): (Node, Result<seq<Hash>>) {
    match UnwindFrom(c, n.store, n.ledger, unwind, 0)
    case Err(e) => (n, Err(e))
    case Ok(l1) =>
      var a := ApplyPath(c, n.store, l1, apply, 0);
      if a.error.Some? then (n, Err(a.error.value))
      else if apply == [] then (n, Err(NothingToApply))
      else
        var (s', e) := SetTip(a.store, apply[|apply| - 1]);
        if e.Some? then (n, Err(e.value))
        else (Node(s', a.ledger), Ok(Resurrect(c, s', a.ledger, apply, unwind, |unwind|)))
  }

  ghost function Reorganise(c: Crypto, n: Node, unwind: seq<Hash>, apply: seq<Hash>): (Node, Result<seq<Hash>>) {
    if |unwind| > MAX_REORG || |apply| > MAX_REORG then (n, Err(ReorgTooDeep))
    else ReorgInner(c, n, unwind, apply)
  }

  // ----- The receive step

  ghost function ExtendTip(c: Crypto, n: Node, b: Block): (Node, Option<Error>) {
    var (l', r) := ApplyTracked(c, n.ledger, b, b.header.height);
    match r
    case Err(e) => (Node(n.store, l'), Some(e))
    case Ok(d) =>
      var h := HashOf(c, b);
      (Node(SetTip(n.store.(diffs := n.store.diffs[h := d]), h).0, l'), None)
  }

  ghost function Decide(c: Crypto, n: Node, b: Block): (Node, Option<Error>)
    requires Acyclic(n.store.cache)
  {
    match AnalyzeFork(c, n.store, b)
    case ExtendCanonical => ExtendTip(c, n, b)
    case ReorgToNew(unwind, apply) =>
      var (n', r) := Reorganise(c, n, unwind, apply);
      (n', if r.Err? then Some(r.error) else None)
    case Sidechain => (n, None)
    case Orphan => (n, None)
    case Reject => (n, Some(BlockRejected))
  }

  /** A block arrives: proof of work, orphan pool, duplicate check, insertion, fork decision. */
  ghost function Receive(c: Crypto, n: Node, b: Block): (Node, Option<Error>)
    requires Acyclic(n.store.cache) && Acyclic(AddBlock(c, n.store, b).0.cache)
  {
    var parentKnown := b.header.previousHash in n.store.cache;
    if !c.powOk(b) then (n, Some(BadProofOfWork))
    else if !parentKnown && b.header.height > 0 then (n.(store := AddOrphan(c, n.store, b)), None)
    else if HashOf(c, b) in n.store.cache then (n, Some(DuplicateBlock))
    else
      var (s', r) := AddBlock(c, n.store, b);
      if r.Err? then (n, Some(r.error)) else Decide(c, n.(store := s'), b)
  }
}
