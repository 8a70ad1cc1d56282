/** The Merkle root over transaction hashes or trace samples, with odd nodes paired with themselves,
    and the integrity check of a stored block that relies on it. */
module Merkle {
  import opened Types
  import opened Ledger

  type PairHash = (Hash, Hash) -> Hash

  /** The level above: nodes are paired from the left, and a last odd one is paired with itself. */
  function NextLevel(pair: PairHash, level: seq<Hash>): (next: seq<Hash>)
    ensures |next| == (|level| + 1) / 2
  {
    seq((|level| + 1) / 2, i requires 0 <= i < (|level| + 1) / 2 =>
      pair(level[2 * i], if 2 * i + 1 < |level| then level[2 * i + 1] else level[2 * i]))
  }

  function Root(pair: PairHash, leaves: seq<Hash>): Hash
    decreases |leaves|
  {
    if leaves == [] then ZERO
    else if |leaves| == 1 then leaves[0]
    else Root(pair, NextLevel(pair, leaves))
  }

  /** The root as the proof of work computes it, chunk by chunk. */
  method MerkleRootFromLeaves(pair: PairHash, leaves: seq<Hash>) returns (root: Hash)
    ensures root == Root(pair, leaves)
  {
    hide NextLevel;
    if leaves == [] { return ZERO; }
    var level := leaves;
    while |level| > 1
      invariant level != [] && Root(pair, level) == Root(pair, leaves)
      decreases |level|
    {
      level := PairChunks(pair, level);
    }
    root := level[0];
  }

  method PairChunks(pair: PairHash, level: seq<Hash>) returns (next: seq<Hash>)
    ensures next == NextLevel(pair, level)
  {
    hide NextLevel;
    next := [];
    var rest := level;
    while rest != []
      invariant NextLevel(pair, level) == next + NextLevel(pair, rest)
      decreases |rest|
    {
      var chunk := rest[..Min(2, |rest|)];
      var h := pair(chunk[0], if |chunk| > 1 then chunk[1] else chunk[0]);
      PeelChunk(pair, rest);
      next, rest := next + [h], rest[|chunk|..];
    }
  }

  lemma PeelChunk(pair: PairHash, rest: seq<Hash>)
    requires rest != []
    ensures NextLevel(pair, rest)
         == [pair(rest[0], if |rest| > 1 then rest[1] else rest[0])] + NextLevel(pair, rest[Min(2, |rest|)..])
  {
  }

  // ----- Binding

  ghost predicate Injective(pair: PairHash) {
    forall a, b, c, d | pair(a, b) == pair(c, d) :: a == c && b == d
  }

  lemma NextLevelBinds(pair: PairHash, xs: seq<Hash>, ys: seq<Hash>)
    requires Injective(pair) && |xs| == |ys| && NextLevel(pair, xs) == NextLevel(pair, ys)
    ensures xs == ys
  {
    forall k | 0 <= k < |xs|
      ensures xs[k] == ys[k]
    {
      var i := k / 2;
      assert NextLevel(pair, xs)[i] == NextLevel(pair, ys)[i];
    }
  }

  /** Lists with the same root are equal exactly if they are equally long. */
  lemma {:induction false} RootBinds(pair: PairHash, xs: seq<Hash>, ys: seq<Hash>)
    requires Injective(pair) && Root(pair, xs) == Root(pair, ys)
    ensures xs == ys <==> |xs| == |ys|
    decreases |xs|
  {
    if |xs| == |ys| && |xs| > 1 {
      RootBinds(pair, NextLevel(pair, xs), NextLevel(pair, ys));
      NextLevelBinds(pair, xs, ys);
    }
  }

  /** The roots of the shortest lists: pairs from the left, and an odd last node with itself. */
  lemma SmallRoots(pair: PairHash, a: Hash, b: Hash, c: Hash)
    ensures Root(pair, []) == ZERO && Root(pair, [a]) == a && Root(pair, [a, b]) == pair(a, b)
    ensures Root(pair, [a, b, c]) == pair(pair(a, b), pair(c, c))
  {
    RootOfTwo(pair, a, b);
    RootOfTwo(pair, pair(a, b), pair(c, c));
    assert NextLevel(pair, [a, b, c]) == [pair(a, b), pair(c, c)];
  }

  lemma RootOfTwo(pair: PairHash, a: Hash, b: Hash)
    ensures Root(pair, [a, b]) == pair(a, b)
  {
    assert NextLevel(pair, [a, b]) == [pair(a, b)];
  }

  // ----- The integrity of a stored block

  const MAX_STORED_EMISSION: nat := 5_000_000_000

  function TxHashes(c: Crypto, b: Block): seq<Hash> {
    seq(|b.transactions|, i requires 0 <= i < |b.transactions| => TxHash(c, b.transactions[i]))
  }

  /** A block is intact if its header names the root of its transactions, it is not its own parent,
      its emission is bounded, and it carries a proof hash; an empty block escapes the first check. */
  predicate Intact(c: Crypto, pair: PairHash, b: Block) {
    && (b.transactions == [] || Root(pair, TxHashes(c, b)) == b.header.merkleRoot)
    && (b.header.height > 0 ==> b.header.previousHash != c.blockHash(b.header) && b.proofHash != ZERO)
    && b.header.emissionRate <= MAX_STORED_EMISSION
  }

  /** The check that runs when blocks are loaded, with its own copy of the Merkle loop. */
  method ValidateBlockIntegrity(c: Crypto, pair: PairHash, b: Block) returns (e: Option<Error>)
    ensures e == None <==> Intact(c, pair, b)
    ensures e == Some(MerkleMismatch) <==> b.transactions != [] && Root(pair, TxHashes(c, b)) != b.header.merkleRoot
    ensures b.transactions == [] ==> (e == None <==>
              && b.header.emissionRate <= 5_000_000_000
              && (b.header.height == 0 || (b.header.previousHash != c.blockHash(b.header) && b.proofHash != ZERO)))
    ensures |b.transactions| > 0 ==> (e == None <==>
              && Root(pair, TxHashes(c, b)) == b.header.merkleRoot && b.header.emissionRate <= 5_000_000_000
              && (b.header.height == 0 || (b.header.previousHash != c.blockHash(b.header) && b.proofHash != ZERO)))
  {
    hide NextLevel;
    var txHashes := TxHashes(c, b);
    if txHashes != [] {
      while |txHashes| > 1
        invariant txHashes != [] && Root(pair, txHashes) == Root(pair, TxHashes(c, b))
        decreases |txHashes|
      {
        txHashes := PairByIndex(pair, txHashes);
      }
      if txHashes[0] != b.header.merkleRoot { return Some(MerkleMismatch); }
    }
    if b.header.height > 0 && b.header.previousHash == c.blockHash(b.header) { return Some(SelfParent); }
    if b.header.emissionRate > MAX_STORED_EMISSION { return Some(EmissionTooHigh); }
    if b.header.height > 0 && b.proofHash == ZERO { return Some(ZeroProofHash); }
    return None;
  }

  method PairByIndex(pair: PairHash, level: seq<Hash>) returns (next: seq<Hash>)
    ensures next == NextLevel(pair, level)
  {
    next := [];
    var i := 0;
    while i < |level|
      invariant i % 2 == 0 && i <= |level| + 1 && |next| == i / 2
      invariant forall k | 0 <= k < |next| :: next[k] == NextLevel(pair, level)[k]
    {
      next := next + [pair(level[i], if i + 1 < |level| then level[i + 1] else level[i])];
      i := i + 2;
    }
  }
}
