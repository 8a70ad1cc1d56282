/** What happens to a block on its arrival, told apart by what is returned, and what that means for every block that
    a node queues or stores. */
module Arrivals {
  import opened Types
  import opened Ledger
  import opened BlockTree
  import opened Chain
  import opened Replay
  import opened Orphans
  import opened NodeProofs
  import opened Runs

  // ----- Errors of the ledger and of a reorganisation

  /** None of the errors that are decided before the block is stored. */
  predicate Late(e: Error) { e !in {BadProofOfWork, DuplicateBlock, ParentNotFound, BlockExists} }

  predicate LateOrNone(e: Option<Error>) { e.Some? ==> Late(e.value) }

  lemma {:induction false} InputSumFailsLate(l: LedgerState, inputs: seq<TxInput>, i: nat, acc: u64, checkImages: bool)
    requires i <= |inputs|
    ensures var r := InputSum(l, inputs, i, acc, checkImages); r.Err? ==> Late(r.error)
    decreases |inputs| - i
  {
    if i < |inputs| && inputs[i].Outpoint() in l.utxos && acc + l.utxos[inputs[i].Outpoint()].amount < U64_LIMIT {
      InputSumFailsLate(l, inputs, i + 1, acc + l.utxos[inputs[i].Outpoint()].amount, checkImages);
    }
  }

  lemma {:induction false} OutputSumFailsLate(outputs: seq<TxOutput>, i: nat, acc: u64)
    requires i <= |outputs|
    ensures var r := OutputSum(outputs, i, acc); r.Err? ==> Late(r.error)
    decreases |outputs| - i
  {
    if i < |outputs| && acc + outputs[i].amount < U64_LIMIT {
      OutputSumFailsLate(outputs, i + 1, acc + outputs[i].amount);
    }
  }

  lemma {:induction false} BuildRingFailsLate(c: Crypto, utxos: map<UtxoKey, UtxoEntry>, members: seq<UtxoKey>, i: nat,
      acc: seq<Point>)
    requires i <= |members|
    ensures var r := BuildRing(c, utxos, members, i, acc); r.Err? ==> Late(r.error)
    decreases |members| - i
  {
    if i < |members| && RingKey(c, utxos, members[i]).Ok? {
      BuildRingFailsLate(c, utxos, members, i + 1, acc + [RingKey(c, utxos, members[i]).value]);
    }
  }

  lemma {:induction false} BuildLayersFailsLate(c: Crypto, utxos: map<UtxoKey, UtxoEntry>, rings: seq<seq<UtxoKey>>,
      i: nat, acc: seq<seq<Point>>)
    requires i <= |rings|
    ensures var r := BuildLayers(c, utxos, rings, i, acc); r.Err? ==> Late(r.error)
    decreases |rings| - i
  {
    if i < |rings| {
      BuildRingFailsLate(c, utxos, rings[i], 0, []);
      var layer := BuildRing(c, utxos, rings[i], 0, []);
      if layer.Ok? { BuildLayersFailsLate(c, utxos, rings, i + 1, acc + [layer.value]); }
    }
  }

  lemma {:induction false} InputsFailLate(c: Crypto, l: LedgerState, tx: Transaction, height: nat, i: nat)
    requires i <= |tx.inputs|
    ensures LateOrNone(CheckInputs(c, l, tx, height, i))
    decreases |tx.inputs| - i
  {
    if i < |tx.inputs| { InputsFailLate(c, l, tx, height, i + 1); }
  }

  lemma {:induction false} OutputsFailLate(c: Crypto, outputs: seq<TxOutput>, i: nat)
    requires i <= |outputs|
    ensures LateOrNone(CheckOutputs(c, outputs, i))
    decreases |outputs| - i
  {
    if i < |outputs| { OutputsFailLate(c, outputs, i + 1); }
  }

  lemma RingFailsLate(c: Crypto, l: LedgerState, tx: Transaction)
    ensures LateOrNone(CheckRing(c, l, tx))
  {
    hide MlsagOk, Transpose, MsgOf;
    if tx.ringMembers.Some? { BuildLayersFailsLate(c, l.utxos, tx.ringMembers.value, 0, []); }
  }

  lemma SumsFailLate(l: LedgerState, tx: Transaction)
    ensures LateOrNone(CheckBalance(l, tx)) && LateOrNone(Validate(l, tx))
  {
    InputSumFailsLate(l, tx.inputs, 0, 0, true);
    InputSumFailsLate(l, tx.inputs, 0, 0, false);
    OutputSumFailsLate(tx.outputs, 0, 0);
  }

  lemma ApplyTxFailsLate(c: Crypto, l: LedgerState, d: BlockDiff, tx: Transaction, idx: nat, height: u64)
    ensures LateOrNone(ApplyTx(c, l, d, tx, idx, height).error)
  {
    hide CheckRing, CheckInputs, CheckOutputs, CheckBalance, Validate, Late;
    RingFailsLate(c, l, tx);
    InputsFailLate(c, l, tx, height, 0);
    OutputsFailLate(c, tx.outputs, 0);
    SumsFailLate(l, tx);
    CoinbaseFailsLate(tx, height);
  }

  lemma CoinbaseFailsLate(tx: Transaction, height: nat)
    ensures LateOrNone(CheckCoinbase(tx, height))
  {
  }

  lemma {:induction false} ApplyFailsLate(c: Crypto, l: LedgerState, d: BlockDiff, txs: seq<Transaction>, height: u64,
      i: nat)
    requires i <= |txs|
    ensures LateOrNone(ApplyFrom(c, l, d, txs, height, i).error)
    decreases |txs| - i
  {
    hide ApplyTx, Late;
    if i < |txs| {
      ApplyTxFailsLate(c, l, d, txs[i], i, height);
      var o := ApplyTx(c, l, d, txs[i], i, height);
      if o.error.None? { ApplyFailsLate(c, o.ledger, o.diff, txs, height, i + 1); }
    }
  }

  lemma TrackedFailsLate(c: Crypto, l: LedgerState, b: Block)
    ensures var r := ApplyTracked(c, l, b, b.header.height).1; r.Err? ==> Late(r.error)
  {
    hide ApplyFrom, Unwind, Late;
    ApplyFailsLate(c, l, EMPTY_DIFF, b.transactions, b.header.height, 0);
  }

  lemma {:induction false} UnwindFailsLate(c: Crypto, s: Store, l: LedgerState, hashes: seq<Hash>, i: nat)
    requires i <= |hashes|
    ensures var r := UnwindFrom(c, s, l, hashes, i); r.Err? ==> Late(r.error)
    decreases |hashes| - i
  {
    hide Unwind;
    if i < |hashes| && hashes[i] in s.cache {
      UnwindFailsLate(c, s, Unwind(l, DiffOf(c, s, hashes[i])), hashes, i + 1);
    }
  }

  lemma {:induction false} PathFailsLate(c: Crypto, s: Store, l: LedgerState, hashes: seq<Hash>, i: nat)
    requires i <= |hashes|
    ensures LateOrNone(ApplyPath(c, s, l, hashes, i).error)
    decreases |hashes| - i
  {
    hide ApplyTracked;
    if i < |hashes| && hashes[i] in s.cache {
      var b := s.cache[hashes[i]];
      TrackedFailsLate(c, l, b);
      var (l', r) := ApplyTracked(c, l, b, b.header.height);
      if r.Ok? { PathFailsLate(c, s.(diffs := s.diffs[hashes[i] := r.value]), l', hashes, i + 1); }
    }
  }

  lemma DecideFailsLate(c: Crypto, n: Node, b: Block)
    requires Acyclic(n.store.cache)
    ensures LateOrNone(Decide(c, n, b).1)
  {
    hide ApplyTracked, UnwindFrom, ApplyPath, FindLca, ChainToFork, Acyclic, Resurrect;
    TrackedFailsLate(c, n.ledger, b);
    match AnalyzeFork(c, n.store, b)
    case ReorgToNew(unwind, apply) =>
      UnwindFailsLate(c, n.store, n.ledger, unwind, 0);
      var u := UnwindFrom(c, n.store, n.ledger, unwind, 0);
      if u.Ok? { PathFailsLate(c, n.store, u.value, apply, 0); }
    case _ =>
  }

  // ----- The arrival

  /** A block is turned away before anything else if and only if it lacks proof of work, then if it is stored already,
      then if it is a root that names a parent; the node stays as it was. A block above the root height whose parent
      is unknown is only queued. */
  lemma ArrivalExactly(c: Crypto, n: Node, b: Block)
    requires StoreOk(c, n.store)
    ensures Acyclic(n.store.cache) && Acyclic(AddBlock(c, n.store, b).0.cache)
    ensures
      var (n', e) := Receive(c, n, b);
      var known, stored := b.header.previousHash in n.store.cache, HashOf(c, b) in n.store.cache;
      && (e == Some(BadProofOfWork) <==> !c.powOk(b))
      && (e == Some(DuplicateBlock) <==> c.powOk(b) && (known || b.header.height == 0) && stored)
      && (e == Some(ParentNotFound) <==>
            c.powOk(b) && !known && b.header.height == 0 && !stored && b.header.previousHash != ZERO)
      && (e in {Some(BadProofOfWork), Some(DuplicateBlock), Some(ParentNotFound)} ==> n' == n)
      && (c.powOk(b) && !known && b.header.height > 0 ==> e == None && n' == n.(store := AddOrphan(c, n.store, b)))
  {
    hide Decide, AddOrphan, OrphansOk, RestorableDiffs, Acyclic, EntryOk;
    AddBlockIsAcyclic(c, n.store, b);
    var (s', r) := AddBlock(c, n.store, b);
    if r.Ok? { DecideFailsLate(c, n.(store := s'), b); }
  }

  // ----- Orphans

  /** A new orphan is queued last, whatever is in the pool; if that holds 500, the oldest alone gives way. */
  lemma OrphanIsQueued(c: Crypto, s: Store, b: Block)
    requires OrphansOk(c, s.orphans, s.orphanOrder)
    ensures
      var (s', h) := (AddOrphan(c, s, b), HashOf(c, b));
      && h in s'.orphans
      && if h in s.orphans then s' == s
         else if |s.orphans| < 500 then
           s' == s.(orphans := s.orphans[h := b], orphanOrder := s.orphanOrder + [h])
         else
           && s.orphanOrder != []
           && s' == s.(orphans := (s.orphans - {s.orphanOrder[0]})[h := b], orphanOrder := s.orphanOrder[1..] + [h])
  {
    var h := HashOf(c, b);
    if h !in s.orphans && |s.orphans| >= 500 {
      if s.orphanOrder == [] { NoKeys(s.orphans); }
      var oldest := s.orphanOrder[0];
      assert (s.orphans - {oldest}).Keys == s.orphans.Keys - {oldest};
      assert oldest in s.orphans;
      var (rest, later) := (s.orphans - {oldest}, s.orphanOrder[1..]);
      assert |rest.Keys| == |s.orphans.Keys| - 1;
      assert |rest| == |rest.Keys| && |s.orphans| == |s.orphans.Keys|;
      assert Evict(rest, later) == (rest, later);
      assert Evict(s.orphans, s.orphanOrder) == (rest, later);
    }
  }

  /** An orphan that is queued is in the tree once the orphans of its parent are resolved. */
  lemma OrphanIsRecovered(c: Crypto, s: Store, b: Block, s': Store)
    requires OrphansOk(c, s.orphans, s.orphanOrder) && HashOf(c, b) !in s.orphans
    requires Resolved(c, AddOrphan(c, s, b), s', b.header.previousHash)
    ensures HashOf(c, b) in s'.cache
  {
    hide StoreOk, ClosedUnder;
    OrphanIsQueued(c, s, b);
    var h := HashOf(c, b);
    assert AddOrphan(c, s, b).orphans[h] == b;
  }

  // ----- Every run

  /** Every queued block and every stored one but genesis has its proof of work. */
  predicate AllProved(c: Crypto, genesis: Hash, s: Store) {
    && (forall h | h in s.orphans :: c.powOk(s.orphans[h]))
    && forall h | h in s.cache && h != genesis :: c.powOk(s.cache[h])
  }

  lemma ReceiveKeepsProved(c: Crypto, genesis: Hash, n: Node, b: Block)
    requires StoreOk(c, n.store) && AllProved(c, genesis, n.store)
    ensures Acyclic(n.store.cache) && Acyclic(AddBlock(c, n.store, b).0.cache)
    ensures AllProved(c, genesis, Receive(c, n, b).0.store)
  {
    hide Decide, OrphansOk, RestorableDiffs, Acyclic, BlocksOk, AddOrphan;
    ArrivalExactly(c, n, b);
    ReceiveKeepsStore(c, n, b);
    AddBlockKeepsStore(c, n.store, b);
    var (s', r) := AddBlock(c, n.store, b);
    if c.powOk(b) && b.header.previousHash !in n.store.cache && b.header.height > 0 {
      QueueKeepsProved(c, genesis, n.store, b);
    } else if c.powOk(b) && HashOf(c, b) !in n.store.cache && r.Ok? {
      DecideKeepsStore(c, n.(store := s'), b);
    }
  }

  lemma QueueKeepsProved(c: Crypto, genesis: Hash, s: Store, b: Block)
    requires OrphansOk(c, s.orphans, s.orphanOrder) && AllProved(c, genesis, s) && c.powOk(b)
    ensures AllProved(c, genesis, AddOrphan(c, s, b))
  {
    OrphanIsQueued(c, s, b);
  }

  /** In every state of every run, with resolved orphans among the steps: whatever is queued or stored above genesis
      has its proof of work. */
  lemma {:induction false} EveryBlockIsProved(c: Crypto, genesis: Block, ledger: LedgerState, events: seq<Event>,
      nodes: seq<Node>, i: nat)
    requires NoZeroHash(c) && IsGenesis(genesis)
    requires Run(c, genesis, ledger, events, nodes) && i < |nodes|
    ensures AllProved(c, HashOf(c, genesis), nodes[i].store)
  {
    hide StoreOk, Receive, Acyclic, ClosedUnder, NoZeroHash;
    if i > 0 {
      EveryBlockIsProved(c, genesis, ledger, events, nodes, i - 1);
      RunKeepsStore(c, genesis, ledger, events, nodes, i - 1, i - 1);
      assert Step(c, nodes[i - 1], events[i - 1], nodes[i]);
      if events[i - 1].Deliver? { ReceiveKeepsProved(c, HashOf(c, genesis), nodes[i - 1], events[i - 1].block); }
    }
  }
}
