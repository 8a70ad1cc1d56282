/** Which transactions a reorganisation hands back to the memory pool: those of the unwound blocks that can be spent
    again and that the new branch does not hold, in the order of the blocks. */
module Resurrection {
  import opened Types
  import opened Ledger
  import opened BlockTree
  import opened Chain

  /** A transaction by the position of its block on the unwound path and its own in the block. */
  datatype Place = Place(block: nat, tx: nat)

  predicate Precedes(a: Place, b: Place) { a.block < b.block || (a.block == b.block && a.tx < b.tx) }

  /** There is such a transaction, and it is not a coinbase. */
  predicate IsSpendAt(t: Tree, unwind: seq<Hash>, p: Place) {
    && p.block < |unwind| && unwind[p.block] in t
    && 0 < p.tx < |t[unwind[p.block]].transactions| && t[unwind[p.block]].transactions[p.tx].inputs != []
  }

  function TxAt(t: Tree, unwind: seq<Hash>, p: Place): Transaction
    requires IsSpendAt(t, unwind, p)
  {
    t[unwind[p.block]].transactions[p.tx]
  }

  predicate HoldsHash(c: Crypto, b: Block, h: Hash) {
    exists k | 0 <= k < |b.transactions| :: TxHash(c, b.transactions[k]) == h
  }

  /** One of the key images of the transaction is unspent, and no applied block holds its hash. */
  predicate Returns(c: Crypto, t: Tree, l: LedgerState, unwind: seq<Hash>, apply: seq<Hash>, p: Place) {
    && IsSpendAt(t, unwind, p)
    && (exists i | 0 <= i < |TxAt(t, unwind, p).inputs| :: TxAt(t, unwind, p).inputs[i].keyImage !in l.spent)
    && forall j | 0 <= j < |apply| && apply[j] in t :: !HoldsHash(c, t[apply[j]], TxHash(c, TxAt(t, unwind, p)))
  }

  /** The list has the hashes of exactly the returning transactions in the first `n` blocks, the last of these up to
      `m`, in order of place. */
  ghost predicate ListsUpTo(c: Crypto, t: Tree, l: LedgerState, unwind: seq<Hash>, apply: seq<Hash>, list: seq<Hash>,
      places: seq<Place>, n: nat, m: nat)
  {
    && |places| == |list|
    && (forall k | 0 <= k < |list| ::
          Returns(c, t, l, unwind, apply, places[k]) && Precedes(places[k], Place(n, m))
              && list[k] == TxHash(c, TxAt(t, unwind, places[k])))
    && (forall a, b | 0 <= a < b < |places| :: Precedes(places[a], places[b]))
    && forall p | Returns(c, t, l, unwind, apply, p) && Precedes(p, Place(n, m)) :: p in places
  }

  lemma ListsNext(c: Crypto, t: Tree, l: LedgerState, unwind: seq<Hash>, apply: seq<Hash>, list: seq<Hash>,
      places: seq<Place>, n: nat, m: nat) returns (places': seq<Place>)
    requires ListsUpTo(c, t, l, unwind, apply, list, places, n, m)
    ensures
      var p := Place(n, m);
      var here := if Returns(c, t, l, unwind, apply, p) then [TxHash(c, TxAt(t, unwind, p))] else [];
      ListsUpTo(c, t, l, unwind, apply, list + here, places', n, m + 1)
  {
    hide Returns, TxAt, IsSpendAt;
    var p := Place(n, m);
    places' := if Returns(c, t, l, unwind, apply, p) then places + [p] else places;
    forall q | Returns(c, t, l, unwind, apply, q) && Precedes(q, Place(n, m + 1))
      ensures q in places'
    {
      if q == p { assert places'[|places|] == p; } else { assert Precedes(q, p) && q in places; }
    }
    IsSpendWhereItReturns(c, t, l, unwind, apply);
  }

  lemma IsSpendWhereItReturns(c: Crypto, t: Tree, l: LedgerState, unwind: seq<Hash>, apply: seq<Hash>)
    ensures forall p | Returns(c, t, l, unwind, apply, p) :: IsSpendAt(t, unwind, p)
  {
  }

  lemma ReturnsExactly(c: Crypto, s: Store, l: LedgerState, unwind: seq<Hash>, apply: seq<Hash>, n: nat, m: nat)
    requires n < |unwind| && unwind[n] in s.cache && m < |s.cache[unwind[n]].transactions|
    ensures Resurrectable(c, s, l, apply, s.cache[unwind[n]].transactions[m], m)
       <==> Returns(c, s.cache, l, unwind, apply, Place(n, m))
  {
    hide TxHash;
    var p, tx := Place(n, m), s.cache[unwind[n]].transactions[m];
    if IsSpendAt(s.cache, unwind, p) {
      assert TxAt(s.cache, unwind, p) == tx;
      NewChainHolds(c, s, apply, TxHash(c, tx));
    }
  }

  lemma NewChainHolds(c: Crypto, s: Store, apply: seq<Hash>, h: Hash)
    ensures InNewChain(c, s, apply, h)
       <==> exists j | 0 <= j < |apply| :: apply[j] in s.cache && HoldsHash(c, s.cache[apply[j]], h)
  {
    hide TxHash;
    if j :| 0 <= j < |apply| && apply[j] in s.cache && HoldsHash(c, s.cache[apply[j]], h) {
      var k :| 0 <= k < |s.cache[apply[j]].transactions| && TxHash(c, s.cache[apply[j]].transactions[k]) == h;
    }
    if InNewChain(c, s, apply, h) {
      var j :| 0 <= j < |apply| && apply[j] in s.cache
        && exists k | 0 <= k < |s.cache[apply[j]].transactions| :: TxHash(c, s.cache[apply[j]].transactions[k]) == h;
      assert HoldsHash(c, s.cache[apply[j]], h);
    }
  }

  lemma {:induction false} BlockIsListed(c: Crypto, s: Store, l: LedgerState, unwind: seq<Hash>, apply: seq<Hash>,
      list: seq<Hash>, places: seq<Place>, n: nat, m: nat) returns (places': seq<Place>)
    requires n < |unwind| && unwind[n] in s.cache && m <= |s.cache[unwind[n]].transactions|
    requires ListsUpTo(c, s.cache, l, unwind, apply, list, places, n, 0)
    ensures
      var more := ResurrectBlock(c, s, l, apply, s.cache[unwind[n]].transactions, m);
      ListsUpTo(c, s.cache, l, unwind, apply, list + more, places', n, m)
  {
    hide ListsUpTo, Resurrectable, Returns;
    var txs := s.cache[unwind[n]].transactions;
    if m == 0 {
      places' := places;
      assert list + [] == list;
    } else {
      var before := BlockIsListed(c, s, l, unwind, apply, list, places, n, m - 1);
      var more := ResurrectBlock(c, s, l, apply, txs, m - 1);
      ReturnsExactly(c, s, l, unwind, apply, n, m - 1);
      IsSpendWhereItReturns(c, s.cache, l, unwind, apply);
      places' := ListsNext(c, s.cache, l, unwind, apply, list + more, before, n, m - 1);
      var here := if Resurrectable(c, s, l, apply, txs[m - 1], m - 1) then [TxHash(c, txs[m - 1])] else [];
      assert list + more + here == list + (more + here);
    }
  }

  /** Where no transaction is left in a block, the list is complete up to the next one. */
  lemma BlockIsDone(c: Crypto, t: Tree, l: LedgerState, unwind: seq<Hash>, apply: seq<Hash>, list: seq<Hash>,
      places: seq<Place>, n: nat, m: nat)
    requires ListsUpTo(c, t, l, unwind, apply, list, places, n, m)
    requires n < |unwind| && unwind[n] in t ==> m >= |t[unwind[n]].transactions|
    ensures ListsUpTo(c, t, l, unwind, apply, list, places, n + 1, 0)
  {
    hide TxAt;
    forall p | Returns(c, t, l, unwind, apply, p) && Precedes(p, Place(n + 1, 0))
      ensures p in places
    {
      assert Precedes(p, Place(n, m));
    }
  }

  lemma {:induction false} PathIsListed(c: Crypto, s: Store, l: LedgerState, unwind: seq<Hash>, apply: seq<Hash>,
      n: nat)
      returns (places: seq<Place>)
    requires n <= |unwind|
    ensures ListsUpTo(c, s.cache, l, unwind, apply, Resurrect(c, s, l, apply, unwind, n), places, n, 0)
  {
    hide ListsUpTo, Returns;
    if n == 0 {
      places := [];
      NothingIsListed(c, s.cache, l, unwind, apply);
    } else {
      var list := Resurrect(c, s, l, apply, unwind, n - 1);
      places := PathIsListed(c, s, l, unwind, apply, n - 1);
      if unwind[n - 1] in s.cache {
        var txs := s.cache[unwind[n - 1]].transactions;
        places := BlockIsListed(c, s, l, unwind, apply, list, places, n - 1, |txs|);
        BlockIsDone(c, s.cache, l, unwind, apply, list + ResurrectBlock(c, s, l, apply, txs, |txs|), places, n - 1,
            |txs|);
      } else {
        BlockIsDone(c, s.cache, l, unwind, apply, list, places, n - 1, 0);
        assert list + [] == list;
      }
    }
  }

  lemma NothingIsListed(c: Crypto, t: Tree, l: LedgerState, unwind: seq<Hash>, apply: seq<Hash>)
    ensures ListsUpTo(c, t, l, unwind, apply, [], [], 0, 0)
  {
  }

  lemma {:induction false} ApplyPathKeepsTree(c: Crypto, s: Store, l: LedgerState, hashes: seq<Hash>, i: nat)
    requires i <= |hashes|
    ensures ApplyPath(c, s, l, hashes, i).store.cache == s.cache
    decreases |hashes| - i
  {
    hide ApplyTracked;
    if i < |hashes| && hashes[i] in s.cache {
      var b := s.cache[hashes[i]];
      var (l', r) := ApplyTracked(c, l, b, b.header.height);
      if r.Ok? { ApplyPathKeepsTree(c, s.(diffs := s.diffs[hashes[i] := r.value]), l', hashes, i + 1); }
    }
  }

  /** The list follows the places of the returning transactions. */
  ghost predicate ListsInOrder(c: Crypto, t: Tree, l: LedgerState, unwind: seq<Hash>, apply: seq<Hash>, list: seq<Hash>,
      places: seq<Place>)
  {
    && |places| == |list|
    && (forall k | 0 <= k < |list| ::
          Returns(c, t, l, unwind, apply, places[k]) && list[k] == TxHash(c, TxAt(t, unwind, places[k])))
    && (forall a, b | 0 <= a < b < |places| :: Precedes(places[a], places[b]))
  }

  /** What a successful reorganisation lists: a hash if and only if some unwound block has a spend with that hash, one
      of whose key images the new ledger does not hold, and no applied block has a transaction with it; each
      once for every such transaction, in the order of the unwound blocks and of the transactions in them. */
  lemma ListedExactly(c: Crypto, n: Node, unwind: seq<Hash>, apply: seq<Hash>)
    requires Reorganise(c, n, unwind, apply).1.Ok?
    ensures
      var (n', r) := Reorganise(c, n, unwind, apply);
      && (forall h :: h in r.value <==>
            exists p :: Returns(c, n.store.cache, n'.ledger, unwind, apply, p)
                        && TxHash(c, TxAt(n.store.cache, unwind, p)) == h)
      && exists places ::
           && ListsInOrder(c, n.store.cache, n'.ledger, unwind, apply, r.value, places)
           && forall p | Returns(c, n.store.cache, n'.ledger, unwind, apply, p) :: p in places
  {
    hide Returns, TxAt, IsSpendAt, UnwindFrom, ApplyPath, Resurrect;
    var (n', r) := Reorganise(c, n, unwind, apply);
    var t := n.store.cache;
    ApplyPathKeepsTree(c, n.store, UnwindFrom(c, n.store, n.ledger, unwind, 0).value, apply, 0);
    assert n'.store.cache == t;
    var places := PathIsListed(c, n'.store, n'.ledger, unwind, apply, |unwind|);
    IsSpendWhereItReturns(c, t, n'.ledger, unwind, apply);
    forall p | Returns(c, t, n'.ledger, unwind, apply, p)
      ensures p in places
    {
      PlaceIsOnPath(c, t, n'.ledger, unwind, apply, p);
    }
    forall h | exists p :: Returns(c, t, n'.ledger, unwind, apply, p) && TxHash(c, TxAt(t, unwind, p)) == h
      ensures h in r.value
    {
      var p :| Returns(c, t, n'.ledger, unwind, apply, p) && TxHash(c, TxAt(t, unwind, p)) == h;
      var k :| 0 <= k < |places| && places[k] == p;
      assert r.value[k] == h;
    }
    assert ListsInOrder(c, t, n'.ledger, unwind, apply, r.value, places);
  }

  lemma PlaceIsOnPath(c: Crypto, t: Tree, l: LedgerState, unwind: seq<Hash>, apply: seq<Hash>, p: Place)
    requires Returns(c, t, l, unwind, apply, p)
    ensures Precedes(p, Place(|unwind|, 0))
  {
  }
}
