/** The memory pool: pending transactions by falling fee, and two indices over their inputs. */
module Mempools {
  import opened Types
  import opened Ledger
  import UtxoSets

  const MAX_MEMPOOL_TXS: nat := 5000

  datatype PendingTx = PendingTx(tx: Transaction, fee: nat, txHash: Hash)

  // ----- An index from the inputs of pending transactions to the transaction that spends them

  /** `index` holds exactly the keys of all entries, each under the hash of its entry, and no key occurs in two. */
  ghost predicate Agrees<K(!new)>(keys: seq<set<K>>, hashes: seq<Hash>, index: map<K, Hash>) {
    && |keys| == |hashes|
    && (forall i, k | 0 <= i < |keys| && k in keys[i] :: k in index && index[k] == hashes[i])
    && (forall k | k in index :: exists i :: 0 <= i < |keys| && k in keys[i])
    && forall i, j, k | 0 <= i < j < |keys| && k in keys[i] :: k !in keys[j]
  }

  /** The last entry moves into the place of the removed one. */
  function SwapRemove<T>(s: seq<T>, i: nat): (r: seq<T>)
    requires i < |s|
    ensures |r| == |s| - 1
    ensures forall k | 0 <= k < |r| :: r[k] == if k == i then s[|s| - 1] else s[k]
  {
    s[i := s[|s| - 1]][..|s| - 1]
  }

  function InsertAt<T>(s: seq<T>, p: nat, x: T): (r: seq<T>)
    requires p <= |s|
    ensures |r| == |s| + 1
    ensures forall k | 0 <= k < |r| :: r[k] == if k < p then s[k] else if k == p then x else s[k - 1]
  {
    s[..p] + [x] + s[p..]
  }

  lemma SwapRemoveAgrees<K(!new)>(keys: seq<set<K>>, hashes: seq<Hash>, index: map<K, Hash>, i: nat)
    requires Agrees(keys, hashes, index) && i < |keys|
    ensures Agrees(SwapRemove(keys, i), SwapRemove(hashes, i), index - keys[i])
  {
  }

  lemma InsertAgrees<K(!new)
      >(keys: seq<set<K>>, hashes: seq<Hash>, index: map<K, Hash>, p: nat, ks: set<K>, h: Hash, index': map<K, Hash>)
    requires Agrees(keys, hashes, index) && p <= |keys| && ks !! index.Keys
    requires index'.Keys == index.Keys + ks && (forall k | k in ks :: index'[k] == h) && forall k | k in index ::
        index'[k] == index[k]
    ensures Agrees(InsertAt(keys, p, ks), InsertAt(hashes, p, h), index')
  {
    var keys' := InsertAt(keys, p, ks);
    forall k | k in index'
      ensures exists j :: 0 <= j < |keys'| && k in keys'[j]
    {
      if k in ks {
        assert k in keys'[p];
      } else {
        var j :| 0 <= j < |keys| && k in keys[j];
        assert k in keys'[if j < p then j else j + 1];
      }
    }
    forall i, j, k | 0 <= i < j < |keys'| && k in keys'[i]
      ensures k !in keys'[j]
    {
      var (i0, j0) := (if i < p then i else i - 1, if j < p then j else j - 1);
      if i != p { assert k in keys[i0]; }
      assert keys'[j] == if j == p then ks else keys[j0];
    }
  }

  lemma AppendAgrees<K(!new)
      >(keys: seq<set<K>>, hashes: seq<Hash>, index: map<K, Hash>, ks: set<K>, h: Hash, index': map<K, Hash>)
    requires Agrees(keys, hashes, index) && ks !! index.Keys
    requires index'.Keys == index.Keys + ks && (forall k | k in ks :: index'[k] == h) && forall k | k in index ::
        index'[k] == index[k]
    ensures Agrees(keys + [ks], hashes + [h], index')
  {
    assert InsertAt(keys, |keys|, ks) == keys + [ks];
    assert InsertAt(hashes, |hashes|, h) == hashes + [h];
    InsertAgrees(keys, hashes, index, |keys|, ks, h, index');
  }

  // ----- Views of the pending list

  function ImageSeq(tx: Transaction): seq<Bytes32> {
    seq(|tx.inputs|, i requires 0 <= i < |tx.inputs| => tx.inputs[i].keyImage)
  }

  function OutpointSeq(tx: Transaction): seq<UtxoKey> {
    seq(|tx.inputs|, i requires 0 <= i < |tx.inputs| => tx.inputs[i].Outpoint())
  }

  /** The index after the first `n` keys are entered under a hash. */
  function PutAll<K>(index: map<K, Hash>, keys: seq<K>, n: nat, h: Hash): map<K, Hash>
    requires n <= |keys|
  {
    if n == 0 then index else PutAll(index, keys, n - 1, h)[keys[n - 1] := h]
  }

  lemma {:induction false} PutAllFacts<K>(index: map<K, Hash>, keys: seq<K>, n: nat, h: Hash)
    requires n <= |keys|
    ensures
      var index', put := PutAll(index, keys, n, h), set k | k in keys[..n];
      && index'.Keys == index.Keys + put
      && (forall k | k in put :: index'[k] == h)
      && forall k | k in index && k !in put :: index'[k] == index[k]
  {
    if n > 0 {
      PutAllFacts(index, keys, n - 1, h);
      assert keys[..n] == keys[..n - 1] + [keys[n - 1]];
    }
  }

  lemma SeqsAndSets(tx: Transaction)
    ensures (set k | k in ImageSeq(tx)) == Images(tx) && (set k | k in OutpointSeq(tx)) == Outpoints(tx)
  {
    forall i | 0 <= i < |tx.inputs|
      ensures tx.inputs[i].keyImage in ImageSeq(tx) && tx.inputs[i].Outpoint() in OutpointSeq(tx)
    {
      assert ImageSeq(tx)[i] == tx.inputs[i].keyImage && OutpointSeq(tx)[i] == tx.inputs[i].Outpoint();
    }
  }

  function Images(tx: Transaction): set<Bytes32> { set i | 0 <= i < |tx.inputs| :: tx.inputs[i].keyImage }

  function Outpoints(tx: Transaction): set<UtxoKey> { set i | 0 <= i < |tx.inputs| :: tx.inputs[i].Outpoint() }

  function ImagesOf(pending: seq<PendingTx>): (r: seq<set<Bytes32>>)
    ensures |r| == |pending| && forall i | 0 <= i < |r| :: r[i] == Images(pending[i].tx)
  {
    seq(|pending|, i requires 0 <= i < |pending| => Images(pending[i].tx))
  }

  function OutpointsOf(pending: seq<PendingTx>): (r: seq<set<UtxoKey>>)
    ensures |r| == |pending| && forall i | 0 <= i < |r| :: r[i] == Outpoints(pending[i].tx)
  {
    seq(|pending|, i requires 0 <= i < |pending| => Outpoints(pending[i].tx))
  }

  function HashesOf(pending: seq<PendingTx>): (r: seq<Hash>)
    ensures |r| == |pending| && forall i | 0 <= i < |r| :: r[i] == pending[i].txHash
  {
    seq(|pending|, i requires 0 <= i < |pending| => pending[i].txHash)
  }

  predicate FallingFees(pending: seq<PendingTx>) {
    forall i, j | 0 <= i < j < |pending| :: pending[i].fee >= pending[j].fee
  }

  /** The smallest fee in the pool, at the first place it occurs. */
  predicate FirstMinimum(pending: seq<PendingTx>, idx: nat) {
    && idx < |pending|
    && (forall i | 0 <= i < |pending| :: pending[idx].fee <= pending[i].fee)
    && forall i | 0 <= i < idx :: pending[idx].fee < pending[i].fee
  }

  /** Swap-removing the first minimum keeps the fees falling: all that follows it has the same fee. */
  lemma SwapRemoveKeepsFalling(pending: seq<PendingTx>, idx: nat)
    requires FallingFees(pending) && FirstMinimum(pending, idx)
    ensures FallingFees(SwapRemove(pending, idx))
  {
  }

  /** A place where a fee fits. The order of hashes within equal fees may be broken, so a search that
      compares hashes can end anywhere in a group of equal fees; it never leaves the group. */
  predicate FitsAt(pending: seq<PendingTx>, p: nat, fee: nat) {
    && p <= |pending|
    && (p > 0 ==> pending[p - 1].fee >= fee)
    && (p < |pending| ==> fee >= pending[p].fee)
  }

  lemma InsertKeepsFalling(pending: seq<PendingTx>, p: nat, x: PendingTx)
    requires FallingFees(pending) && FitsAt(pending, p, x.fee)
    ensures FallingFees(InsertAt(pending, p, x))
  {
  }

  /** Binary search by falling fee, then rising hash, with an arbitrary probe in each round. */
  method SearchPosition(pending: seq<PendingTx>, fee: nat, txHash: Hash) returns (p: nat)
    requires FallingFees(pending)
    ensures FitsAt(pending, p, fee)
  {
    var lo, hi := 0, |pending|;
    while lo < hi
      invariant lo <= hi <= |pending|
      invariant lo > 0 ==> pending[lo - 1].fee >= fee
      invariant hi < |pending| ==> fee >= pending[hi].fee
    {
      var mid :| lo <= mid < hi;
      var pt := pending[mid];
      if pt.fee == fee && pt.txHash == txHash {
        return mid;
      } else if pt.fee > fee || (pt.fee == fee && pt.txHash < txHash) {
        lo := mid + 1;
      } else {
        hi := mid;
      }
    }
    return lo;
  }

  // ----- Fees

  function SaturatingSub(a: nat, b: nat): nat { if a > b then a - b else 0 }

  function FeeOf(l: LedgerState, tx: Transaction): Result<nat> {
    if tx.inputs == [] then Ok(0)
    else match InputSum(l, tx.inputs, 0, 0, false)
      case Err(e) => Err(e)
      case Ok(ins) =>
        match OutputSum(tx.outputs, 0, 0)
        case Err(e) => Err(e)
        case Ok(outs) => Ok(SaturatingSub(ins, outs))
  }

  method ComputeFee(tx: Transaction, state: UtxoSets.UtxoSet) returns (r: Result<nat>)
    ensures r == FeeOf(state.Value(), tx)
  {
    if tx.inputs == [] { return Ok(0); }
    var ins := state.SumInputs(tx.inputs, false);
    if ins.Err? { return Err(ins.error); }
    var outs := UtxoSets.SumOutputs(tx.outputs);
    if outs.Err? { return Err(outs.error); }
    return Ok(SaturatingSub(ins.value, outs.value));
  }

  /** The checks a transaction must pass before the pool itself is looked at. */
  function StatelessError(c: Crypto, l: LedgerState, tx: Transaction): Option<Error> {
    if Validate(l, tx).Some? then Validate(l, tx)
    else if FeeOf(l, tx).Err? then Some(FeeOf(l, tx).error)
    else if CheckRing(c, l, tx).Some? then CheckRing(c, l, tx)
    else if !(Images(tx) !! l.spent) then Some(MempoolKeyImageSpent)
    else None
  }

  class Mempool {
    const c: Crypto
    var pending: seq<PendingTx>
    var keyImages: map<Bytes32, Hash>
    var utxoSpends: map<UtxoKey, Hash>

    ghost predicate Valid()
      reads this
    {
      && FallingFees(pending) && |pending| <= MAX_MEMPOOL_TXS
      && (forall i | 0 <= i < |pending| :: pending[i].txHash == TxHash(c, pending[i].tx))
      && Agrees(ImagesOf(pending), HashesOf(pending), keyImages)
      && Agrees(OutpointsOf(pending), HashesOf(pending), utxoSpends)
    }

    constructor (c: Crypto)
      ensures Valid() && pending == [] && this.c == c
    {
      this.c := c;
      pending, keyImages, utxoSpends := [], map[], map[];
    }

    /** Why the pool turns a checked transaction away. */
    ghost function PoolError(tx: Transaction, fee: nat): Option<Error>
      reads this
    {
      if !(Images(tx) !! keyImages.Keys) then Some(MempoolKeyImagePending)
      else if !(Outpoints(tx) !! utxoSpends.Keys) then Some(MempoolUtxoPending)
      else if |pending| >= MAX_MEMPOOL_TXS &&
              exists i | 0 <= i < |pending| :: fee <= pending[i].fee && FirstMinimum(pending, i)
      then Some(MempoolFull)
      else None
    }

    /** Finds an input for which `hit` holds. */
    method AnyImage(tx: Transaction, images: set<Bytes32>) returns (hit: bool)
      ensures hit <==> !(Images(tx) !! images)
    {
      hit := false;
      for i := 0 to |tx.inputs|
        invariant hit <==> exists k | 0 <= k < i :: tx.inputs[k].keyImage in images
      {
        if tx.inputs[i].keyImage in images { hit := true; }
      }
      if hit {
        var k :| 0 <= k < |tx.inputs| && tx.inputs[k].keyImage in images;
        assert tx.inputs[k].keyImage in Images(tx) && tx.inputs[k].keyImage in images;
      }
    }

    method AnyOutpoint(tx: Transaction) returns (hit: bool)
      ensures hit <==> !(Outpoints(tx) !! utxoSpends.Keys)
    {
      hit := false;
      for i := 0 to |tx.inputs|
        invariant hit <==> exists k | 0 <= k < i :: tx.inputs[k].Outpoint() in utxoSpends
      {
        if tx.inputs[i].Outpoint() in utxoSpends { hit := true; }
      }
      if hit {
        var k :| 0 <= k < |tx.inputs| && tx.inputs[k].Outpoint() in utxoSpends;
        assert tx.inputs[k].Outpoint() in Outpoints(tx) && tx.inputs[k].Outpoint() in utxoSpends.Keys;
      }
    }

    method FindMinimum() returns (idx: nat)
      requires pending != []
      ensures FirstMinimum(pending, idx)
    {
      idx := 0;
      for i := 1 to |pending|
        invariant idx < i && FirstMinimum(pending[..i], idx)
      {
        if pending[i].fee < pending[idx].fee { idx := i; }
      }
      assert pending[..|pending|] == pending;
    }

    /** Removes the entries of a transaction's inputs from both indices. */
    method Unindex(tx: Transaction)
      modifies this`keyImages, this`utxoSpends
      ensures keyImages == old(keyImages) - Images(tx) && utxoSpends == old(utxoSpends) - Outpoints(tx)
    {
      for i := 0 to |tx.inputs|
        invariant keyImages == old(keyImages) - (set k | 0 <= k < i :: tx.inputs[k].keyImage)
        invariant utxoSpends == old(utxoSpends) - (set k | 0 <= k < i :: tx.inputs[k].Outpoint())
      {
        keyImages := keyImages - {tx.inputs[i].keyImage};
        utxoSpends := utxoSpends - {tx.inputs[i].Outpoint()};
      }
    }

    /** Enters a transaction's inputs in both indices. */
    method Index(tx: Transaction, h: Hash)
      modifies this`keyImages, this`utxoSpends
      ensures keyImages.Keys == old(keyImages).Keys + Images(tx)
          && utxoSpends.Keys == old(utxoSpends).Keys + Outpoints(tx)
      ensures forall k | k in Images(tx) :: keyImages[k] == h
      ensures forall k | k in Outpoints(tx) :: utxoSpends[k] == h
      ensures forall k | k in old(keyImages) && k !in Images(tx) :: keyImages[k] == old(keyImages)[k]
      ensures forall k | k in old(utxoSpends) && k !in Outpoints(tx) :: utxoSpends[k] == old(utxoSpends)[k]
    {
      for i := 0 to |tx.inputs|
        invariant keyImages == PutAll(old(keyImages), ImageSeq(tx), i, h)
        invariant utxoSpends == PutAll(old(utxoSpends), OutpointSeq(tx), i, h)
      {
        keyImages := keyImages[tx.inputs[i].keyImage := h];
        utxoSpends := utxoSpends[tx.inputs[i].Outpoint() := h];
      }
      var n := |tx.inputs|;
      PutAllFacts(old(keyImages), ImageSeq(tx), n, h);
      PutAllFacts(old(utxoSpends), OutpointSeq(tx), n, h);
      SeqsAndSets(tx);
      assert ImageSeq(tx)[..n] == ImageSeq(tx) && OutpointSeq(tx)[..n] == OutpointSeq(tx);
    }

    /** Removes the first lowest-fee transaction. */
    method EvictAt(idx: nat)
      requires Valid() && FirstMinimum(pending, idx)
      modifies this
      ensures Valid() && pending == SwapRemove(old(pending), idx)
      ensures keyImages.Keys <= old(keyImages).Keys && utxoSpends.Keys <= old(utxoSpends).Keys
    {
      SwapRemoveKeepsFalling(pending, idx);
      SwapRemoveAgrees(ImagesOf(pending), HashesOf(pending), keyImages, idx);
      SwapRemoveAgrees(OutpointsOf(pending), HashesOf(pending), utxoSpends, idx);
      SwapRemoveViews(pending, idx);
      var evicted := pending[idx];
      pending := SwapRemove(pending, idx);
      Unindex(evicted.tx);
    }

    /** Enters a transaction in both indices and at its place by fee. */
    method Insert(pt: PendingTx)
      requires Valid() && |pending| < MAX_MEMPOOL_TXS && pt.txHash == TxHash(c, pt.tx)
      requires Images(pt.tx) !! keyImages.Keys && Outpoints(pt.tx) !! utxoSpends.Keys
      modifies this
      ensures Valid()
      ensures exists p: nat | p <= |old(pending)| ::
                FitsAt(old(pending), p, pt.fee) && pending == InsertAt(old(pending), p, pt)
    {
      Index(pt.tx, pt.txHash);
      var p := SearchPosition(pending, pt.fee, pt.txHash);
      InsertKeepsFalling(pending, p, pt);
      InsertAgrees(ImagesOf(pending), HashesOf(pending), old(keyImages), p, Images(pt.tx), pt.txHash, keyImages);
      InsertAgrees(OutpointsOf(pending), HashesOf(pending), old(utxoSpends), p, Outpoints(pt.tx), pt.txHash,
          utxoSpends);
      InsertViews(pending, p, pt);
      pending := InsertAt(pending, p, pt);
    }

    /** Submits a transaction. A full pool gives up one lowest-fee transaction for a strictly higher fee. */
    method Submit(tx: Transaction, state: UtxoSets.UtxoSet) returns (e: Option<Error>)
      requires Valid()
      modifies this
      ensures Valid()
      ensures
        var l := state.Value();
        if StatelessError(c, l, tx).Some? then e == StatelessError(c, l, tx)
        else e == old(PoolError(tx, FeeOf(l, tx).value))
      ensures e.Some? ==> pending == old(pending) && keyImages == old(keyImages) && utxoSpends == old(utxoSpends)
      ensures |pending| <= 5000
      ensures StatelessError(c, state.Value(), tx) == None ==>
        (e.None? <==>
          && Images(tx) !! old(keyImages).Keys && Outpoints(tx) !! old(utxoSpends).Keys
          && (|old(pending)| < 5000 || exists i | 0 <= i < |old(pending)| ::
                old(pending)[i].fee < FeeOf(state.Value(), tx).value))
      ensures StatelessError(c, state.Value(), tx) == None ==>
        var (images, outpoints) := (Images(tx) !! old(keyImages).Keys, Outpoints(tx) !! old(utxoSpends).Keys);
        && (e == Some(MempoolKeyImagePending) <==> !images)
        && (e == Some(MempoolUtxoPending) <==> images && !outpoints)
      ensures e.None? ==>
        var pt := PendingTx(tx, FeeOf(state.Value(), tx).value, TxHash(c, tx));
        if |old(pending)| < MAX_MEMPOOL_TXS
        then exists p: nat | p <= |old(pending)| ::
               FitsAt(old(pending), p, pt.fee) && pending == InsertAt(old(pending), p, pt)
        else exists idx: nat, p: nat | FirstMinimum(old(pending), idx) && p < |old(pending)| ::
               && old(pending)[idx].fee < pt.fee
               && pending == InsertAt(SwapRemove(old(pending), idx), p, pt)
    {
      hide Validate, CheckRing, InputSum, OutputSum, Agrees, FallingFees;
      e := state.ValidateTransaction(tx);
      if e.Some? { return; }
      var fee := ComputeFee(tx, state);
      if fee.Err? { return Some(fee.error); }
      e := UtxoSets.VerifyRing(c, state.Value(), state.utxos, tx);
      if e.Some? { return; }
      var hit := AnyImage(tx, state.spentKeyImages);
      if hit { return Some(MempoolKeyImageSpent); }
      hit := AnyImage(tx, keyImages.Keys);
      if hit { return Some(MempoolKeyImagePending); }
      hit := AnyOutpoint(tx);
      if hit { return Some(MempoolUtxoPending); }
      var pt := PendingTx(tx, fee.value, TxHash(c, tx));
      assert Images(tx) !! keyImages.Keys && Outpoints(tx) !! utxoSpends.Keys;
      if |pending| >= MAX_MEMPOOL_TXS {
        var idx := FindMinimum();
        MinimumIsUnique(pending, idx);
        if pt.fee <= pending[idx].fee { return Some(MempoolFull); }
        EvictAt(idx);
      }
      Insert(pt);
      return None;
    }

    /** Up to `limit` transactions with the highest fees; the pool is left as it is. */
    method TakeForMining(limit: nat) returns (txs: seq<Transaction>)
      requires Valid()
      ensures |txs| == Min(limit, |pending|)
      ensures forall i | 0 <= i < |txs| :: txs[i] == pending[i].tx
      ensures forall i, j | 0 <= i < |txs| <= j < |pending| :: pending[i].fee >= pending[j].fee
    {
      var (n, ps) := (Min(limit, |pending|), pending);
      return seq(n, i requires 0 <= i < n => ps[i].tx);
    }

    /** Builds both indices anew from a pending list that shares no input. */
    method RebuildIndices()
      requires Disjoint(ImagesOf(pending)) && Disjoint(OutpointsOf(pending))
      modifies this`keyImages, this`utxoSpends
      ensures Agrees(ImagesOf(pending), HashesOf(pending), keyImages)
      ensures Agrees(OutpointsOf(pending), HashesOf(pending), utxoSpends)
    {
      hide Agrees, Disjoint, Images, Outpoints;
      var (images, outpoints, hashes) := (ImagesOf(pending), OutpointsOf(pending), HashesOf(pending));
      keyImages, utxoSpends := map[], map[];
      NothingAgrees(keyImages);
      NothingAgrees(utxoSpends);
      assert images[..0] == [] && outpoints[..0] == [] && hashes[..0] == [];
      for i := 0 to |pending|
        invariant Agrees(images[..i], hashes[..i], keyImages)
        invariant Agrees(outpoints[..i], hashes[..i], utxoSpends)
      {
        ghost var (ki, us, tx, h) := (keyImages, utxoSpends, pending[i].tx, pending[i].txHash);
        NotYetIndexed(images, hashes, ki, i);
        NotYetIndexed(outpoints, hashes, us, i);
        Index(pending[i].tx, pending[i].txHash);
        AppendAgrees(images[..i], hashes[..i], ki, Images(tx), h, keyImages);
        AppendAgrees(outpoints[..i], hashes[..i], us, Outpoints(tx), h, utxoSpends);
        assert images[..i + 1] == images[..i] + [Images(tx)];
        assert outpoints[..i + 1] == outpoints[..i] + [Outpoints(tx)];
        assert hashes[..i + 1] == hashes[..i] + [h];
      }
      assert images[..|images|] == images && outpoints[..|images|] == outpoints && hashes[..|images|] == hashes;
    }

    /** Removes mined transactions and rebuilds both indices. */
    method ConfirmMined(txHashes: set<Hash>)
      requires Valid()
      modifies this
      ensures Valid() && pending == Without(old(pending), txHashes, |old(pending)|)
      ensures forall pt :: pt in pending <==> pt in old(pending) && pt.txHash !in txHashes
      ensures exists at :: Subsequence(pending, old(pending), at)
    {
      hide Agrees, Disjoint, FallingFees;
      var kept: seq<PendingTx> := [];
      for i := 0 to |pending|
        invariant kept == Without(pending, txHashes, i)
      {
        if pending[i].txHash !in txHashes { kept := kept + [pending[i]]; }
      }
      KeptIsDisjoint(c, pending, txHashes, keyImages, utxoSpends);
      ghost var at := WithoutIsSubsequence(pending, txHashes, |pending|);
      KeptExactly(pending, txHashes, |pending|);
      assert pending[..|pending|] == pending;
      pending := kept;
      RebuildIndices();
    }

    method Drain() returns (txs: seq<Transaction>)
      requires Valid()
      modifies this
      ensures Valid() && pending == [] && keyImages == map[] && utxoSpends == map[]
      ensures |txs| == |old(pending)| && forall i | 0 <= i < |txs| :: txs[i] == old(pending)[i].tx
    {
      var ps := pending;
      txs := seq(|ps|, i requires 0 <= i < |ps| => ps[i].tx);
      pending, keyImages, utxoSpends := [], map[], map[];
    }
  }

  // ----- Supporting facts

  lemma MinimumIsUnique(pending: seq<PendingTx>, idx: nat)
    requires FirstMinimum(pending, idx)
    ensures forall i: nat | FirstMinimum(pending, i) :: i == idx
  {
    forall i: nat | FirstMinimum(pending, i)
      ensures i == idx
    {
      TwoMinima(pending, i, idx);
    }
  }

  lemma TwoMinima(pending: seq<PendingTx>, i: nat, j: nat)
    requires FirstMinimum(pending, i) && FirstMinimum(pending, j)
    ensures i == j
  {
    if i < j {
      BeatsEarlier(pending, i, j);
    } else if j < i {
      BeatsEarlier(pending, j, i);
    }
  }

  lemma BeatsEarlier(pending: seq<PendingTx>, k: nat, idx: nat)
    requires FirstMinimum(pending, idx) && k < idx
    ensures pending[idx].fee < pending[k].fee
  {
  }

  lemma NothingAgrees<K(!new)>(index: map<K, Hash>)
    requires index == map[]
    ensures Agrees([], [], index)
  {
  }

  lemma SwapRemoveViews(pending: seq<PendingTx>, i: nat)
    requires i < |pending|
    ensures ImagesOf(SwapRemove(pending, i)) == SwapRemove(ImagesOf(pending), i)
    ensures OutpointsOf(SwapRemove(pending, i)) == SwapRemove(OutpointsOf(pending), i)
    ensures HashesOf(SwapRemove(pending, i)) == SwapRemove(HashesOf(pending), i)
  {
  }

  lemma InsertViews(pending: seq<PendingTx>, p: nat, x: PendingTx)
    requires p <= |pending|
    ensures ImagesOf(InsertAt(pending, p, x)) == InsertAt(ImagesOf(pending), p, Images(x.tx))
    ensures OutpointsOf(InsertAt(pending, p, x)) == InsertAt(OutpointsOf(pending), p, Outpoints(x.tx))
    ensures HashesOf(InsertAt(pending, p, x)) == InsertAt(HashesOf(pending), p, x.txHash)
  {
  }

  /** The transactions among the first `n` whose hash is not in the set, in order. */
  function Without(pending: seq<PendingTx>, hashes: set<Hash>, n: nat): seq<PendingTx>
    requires n <= |pending|
  {
    if n == 0 then []
    else Without(pending, hashes, n - 1) + if pending[n - 1].txHash in hashes then [] else [pending[n - 1]]
  }

  ghost predicate Subsequence(sub: seq<PendingTx>, s: seq<PendingTx>, at: seq<nat>) {
    && |at| == |sub|
    && (forall i | 0 <= i < |sub| :: at[i] < |s| && sub[i] == s[at[i]])
    && forall i, j | 0 <= i < j < |sub| :: at[i] < at[j]
  }

  lemma {:induction false} WithoutIsSubsequence(pending: seq<PendingTx>, hashes: set<Hash>, n: nat)
    returns (at: seq<nat>)
    requires n <= |pending|
    ensures Subsequence(Without(pending, hashes, n), pending, at) && forall i | 0 <= i < |at| :: at[i] < n
  {
    hide Subsequence;
    at := [];
    if n == 0 {
      NothingIsSubsequence(pending);
    } else {
      at := WithoutIsSubsequence(pending, hashes, n - 1);
      if pending[n - 1].txHash !in hashes {
        SubsequenceGrows(Without(pending, hashes, n - 1), pending, at, n - 1);
        at := at + [n - 1];
      } else {
        assert Without(pending, hashes, n) == Without(pending, hashes, n - 1);
      }
    }
  }

  lemma NothingIsSubsequence(s: seq<PendingTx>)
    ensures Subsequence([], s, [])
  {
  }

  lemma SubsequenceGrows(sub: seq<PendingTx>, s: seq<PendingTx>, at: seq<nat>, n: nat)
    requires Subsequence(sub, s, at) && n < |s| && forall i | 0 <= i < |at| :: at[i] < n
    ensures Subsequence(sub + [s[n]], s, at + [n])
  {
  }

  /** Exactly those whose hash is not in the set are kept. */
  lemma {:induction false} KeptExactly(pending: seq<PendingTx>, hashes: set<Hash>, n: nat)
    requires n <= |pending|
    ensures forall pt :: pt in Without(pending, hashes, n) <==> pt in pending[..n] && pt.txHash !in hashes
  {
    if n > 0 {
      KeptExactly(pending, hashes, n - 1);
      assert pending[..n] == pending[..n - 1] + [pending[n - 1]];
    }
  }

  ghost predicate Disjoint<K(!new)>(keys: seq<set<K>>) {
    forall i, j, k | 0 <= i < j < |keys| && k in keys[i] :: k !in keys[j]
  }

  lemma KeptIsDisjoint(c: Crypto, pending: seq<PendingTx>, hashes: set<Hash>, keyImages: map<Bytes32, Hash>,
      utxoSpends: map<UtxoKey, Hash>)
    requires Agrees(ImagesOf(pending), HashesOf(pending), keyImages)
        && Agrees(OutpointsOf(pending), HashesOf(pending), utxoSpends)
    requires FallingFees(pending) && forall i | 0 <= i < |pending| :: pending[i].txHash == TxHash(c, pending[i].tx)
    ensures
      var kept := Without(pending, hashes, |pending|);
      && Disjoint(ImagesOf(kept)) && Disjoint(OutpointsOf(kept)) && FallingFees(kept) && |kept| <= |pending|
      && forall i | 0 <= i < |kept| :: kept[i].txHash == TxHash(c, kept[i].tx)
  {
    var kept := Without(pending, hashes, |pending|);
    var at := WithoutIsSubsequence(pending, hashes, |pending|);
    forall i, j, k | 0 <= i < j < |kept| && k in ImagesOf(kept)[i]
      ensures k !in ImagesOf(kept)[j]
    {
      assert k in ImagesOf(pending)[at[i]];
    }
    forall i, j, k | 0 <= i < j < |kept| && k in OutpointsOf(kept)[i]
      ensures k !in OutpointsOf(kept)[j]
    {
      assert k in OutpointsOf(pending)[at[i]];
    }
    RisingIsShort(at, |pending|);
  }

  lemma {:induction false} RisingIsShort(at: seq<nat>, n: nat)
    requires (forall i | 0 <= i < |at| :: at[i] < n) && forall i, j | 0 <= i < j < |at| :: at[i] < at[j]
    ensures |at| <= n
  {
    if at != [] {
      var last := at[|at| - 1];
      RisingIsShort(at[..|at| - 1], last);
    }
  }

  lemma NotYetIndexed<K(!new)>(keys: seq<set<K>>, hashes: seq<Hash>, index: map<K, Hash>, i: nat)
    requires Disjoint(keys) && |keys| == |hashes| && i < |keys| && Agrees(keys[..i], hashes[..i], index)
    ensures keys[i] !! index.Keys
  {
  }
}
