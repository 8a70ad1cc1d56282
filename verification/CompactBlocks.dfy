/** Compact blocks: a block travels as its header, its coinbase and short ids of the other
    transactions, and is put together again from the receiver's mempool. */
module CompactBlocks {
  import opened Types
  import opened Ledger
  import opened Merkle

  type ShortId = nat
  type ShortIdHash = (Hash, u64) -> ShortId

  datatype CompactBlock = CompactBlock(
    header: BlockHeader, nonce: u64, coinbase: Transaction, shortIds: seq<ShortId>, proofHash: Hash)

  function IdOf(c: Crypto, sid: ShortIdHash, tx: Transaction, nonce: u64): ShortId { sid(TxHash(c, tx), nonce) }

  /** A block without transactions makes the source panic. */
  function BlockToCompact(c: Crypto, sid: ShortIdHash, b: Block, nonce: u64): CompactBlock
    requires b.transactions != []
  {
    var rest := b.transactions[1..];
    CompactBlock(
      b.header, nonce, b.transactions[0],
      seq<ShortId>(|rest|, i requires 0 <= i < |rest| => IdOf(c, sid, rest[i], nonce)), b.proofHash)
  }

  predicate Has(c: Crypto, sid: ShortIdHash, mempool: seq<Transaction>, nonce: u64, id: ShortId) {
    exists tx :: tx in mempool && IdOf(c, sid, tx, nonce) == id
  }

  predicate AllDistinct(ids: seq<nat>) {
    forall i, j | 0 <= i < j < |ids| :: ids[i] != ids[j]
  }

  /** The pool indexed by short id; of two transactions with one id, the later one stays. */
  method IndexPool(c: Crypto, sid: ShortIdHash, mempool: seq<Transaction>, nonce: u64)
    returns (m: map<ShortId, Transaction>)
    ensures forall id :: id in m <==> Has(c, sid, mempool, nonce, id)
    ensures forall id | id in m :: m[id] in mempool && IdOf(c, sid, m[id], nonce) == id
  {
    hide Preimage;
    m := map[];
    for i := 0 to |mempool|
      invariant forall j | 0 <= j < i :: IdOf(c, sid, mempool[j], nonce) in m
      invariant forall id | id in m :: m[id] in mempool && IdOf(c, sid, m[id], nonce) == id
    {
      var id := IdOf(c, sid, mempool[i], nonce);
      m := m[id := mempool[i]];
    }
  }

  /** Succeeds exactly if every short id is in the pool and none is repeated, since a transaction that
      has been used is taken out of the index. */
  method ReconstructBlock(c: Crypto, sid: ShortIdHash, cb: CompactBlock, mempool: seq<Transaction>)
    returns (r: Option<Block>)
    ensures r.Some? <==>
              (forall i | 0 <= i < |cb.shortIds| :: Has(c, sid, mempool, cb.nonce, cb.shortIds[i]))
                  && AllDistinct(cb.shortIds)
    ensures r.Some? ==> Answers(c, sid, cb, mempool, r.value)
  {
    hide Has, IdOf;
    var sidMap := IndexPool(c, sid, mempool, cb.nonce);
    ghost var all := sidMap;
    var txs := [cb.coinbase];
    for k := 0 to |cb.shortIds|
      invariant |txs| == k + 1 && txs[0] == cb.coinbase
      invariant forall i | 0 <= i < k :: cb.shortIds[i] in all
      invariant forall i | 0 < i <= k :: txs[i] == all[cb.shortIds[i - 1]]
      invariant AllDistinct(cb.shortIds[..k])
      invariant sidMap == all - (set i | 0 <= i < k :: cb.shortIds[i])
    {
      var id := cb.shortIds[k];
      if id !in sidMap {
        assert id in all ==> !AllDistinct(cb.shortIds);
        return None;
      }
      txs, sidMap := txs + [sidMap[id]], sidMap - {id};
    }
    assert cb.shortIds[..|cb.shortIds|] == cb.shortIds;
    var block := Block(cb.header, txs, cb.proofHash);
    return Some(block);
  }

  /** The header, the coinbase, and pool transactions with the right ids in the right places. */
  predicate Answers(c: Crypto, sid: ShortIdHash, cb: CompactBlock, mempool: seq<Transaction>, b: Block) {
    && b.header == cb.header && b.proofHash == cb.proofHash
    && |b.transactions| == |cb.shortIds| + 1 && b.transactions[0] == cb.coinbase
    && forall i | 0 < i < |b.transactions| ::
         b.transactions[i] in mempool && IdOf(c, sid, b.transactions[i], cb.nonce) == cb.shortIds[i - 1]
  }

  // ----- The round trip

  function Others(b: Block): seq<Transaction> { if b.transactions == [] then [] else b.transactions[1..] }

  /** No two transactions of block and pool share a short id under this nonce without sharing their hash. The
      coinbase, which has no short id, does not count. */
  predicate CollisionFree(c: Crypto, sid: ShortIdHash, b: Block, mempool: seq<Transaction>, nonce: u64) {
    forall x, y | x in Others(b) && y in Others(b) + mempool
        && IdOf(c, sid, x, nonce) == IdOf(c, sid, y, nonce) ::
      TxHash(c, x) == TxHash(c, y)
  }

  predicate InPool(c: Crypto, mempool: seq<Transaction>, h: Hash) {
    exists tx :: tx in mempool && TxHash(c, tx) == h
  }

  lemma FoundByHash(c: Crypto, sid: ShortIdHash, b: Block, mempool: seq<Transaction>, nonce: u64, i: nat)
    requires 0 < i < |b.transactions| && CollisionFree(c, sid, b, mempool, nonce)
    ensures Has(c, sid, mempool, nonce, IdOf(c, sid, b.transactions[i], nonce))
        <==> InPool(c, mempool, TxHash(c, b.transactions[i]))
  {
  }

  lemma DistinctByHash(c: Crypto, sid: ShortIdHash, b: Block, mempool: seq<Transaction>, nonce: u64)
    requires b.transactions != [] && CollisionFree(c, sid, b, mempool, nonce)
    ensures AllDistinct(BlockToCompact(c, sid, b, nonce).shortIds) <==> AllDistinct(TxHashes(c, b)[1..])
  {
    hide Preimage;
    var ids, hs := BlockToCompact(c, sid, b, nonce).shortIds, TxHashes(c, b)[1..];
    forall i, j | 0 <= i < j < |ids|
      ensures ids[i] == ids[j] <==> hs[i] == hs[j]
    {
      var x, y := b.transactions[i + 1], b.transactions[j + 1];
      assert ids[i] == IdOf(c, sid, x, nonce) && ids[j] == IdOf(c, sid, y, nonce);
      assert x in Others(b) && y in Others(b) + mempool by { assert Others(b)[i] == x && Others(b)[j] == y; }
    }
  }

  /** The same hashes in the same places. */
  lemma SameHashes(c: Crypto, sid: ShortIdHash, b: Block, nonce: u64, mempool: seq<Transaction>, b': Block)
    requires b.transactions != [] && CollisionFree(c, sid, b, mempool, nonce)
    requires Answers(c, sid, BlockToCompact(c, sid, b, nonce), mempool, b')
    ensures TxHashes(c, b') == TxHashes(c, b)
  {
  }

  /** A block comes back exactly if its transactions other than the coinbase are distinct and all in the
      pool; it then has the same header, proof hash and transaction hashes, and is as intact as before. */
  method RoundTrip(c: Crypto, sid: ShortIdHash, pair: PairHash, b: Block, nonce: u64, mempool: seq<Transaction>)
    returns (r: Option<Block>)
    requires b.transactions != [] && CollisionFree(c, sid, b, mempool, nonce)
    ensures r.Some? <==>
              && AllDistinct(TxHashes(c, b)[1..])
              && forall i | 0 < i < |b.transactions| :: InPool(c, mempool, TxHash(c, b.transactions[i]))
    ensures r.Some? ==>
              && r.value.header == b.header && r.value.proofHash == b.proofHash
                  && TxHashes(c, r.value) == TxHashes(c, b)
              && (Intact(c, pair, r.value) <==> Intact(c, pair, b))
  {
    hide CollisionFree, Has, InPool, IdOf, TxHash, Root, AllDistinct;
    var cb := BlockToCompact(c, sid, b, nonce);
    r := ReconstructBlock(c, sid, cb, mempool);
    forall i | 0 < i < |b.transactions|
      ensures Has(c, sid, mempool, nonce, cb.shortIds[i - 1]) <==> InPool(c, mempool, TxHash(c, b.transactions[i]))
    {
      FoundByHash(c, sid, b, mempool, nonce, i);
    }
    assert forall k | 0 <= k < |cb.shortIds| :: b.transactions[k + 1] == b.transactions[1..][k];
    DistinctByHash(c, sid, b, mempool, nonce);
    if r.Some? { SameHashes(c, sid, b, nonce, mempool, r.value); }
  }
}
