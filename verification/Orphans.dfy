/** What resolving the orphans of a stored block does to the store. */
module Orphans {
  import opened Types
  import opened Ledger
  import opened BlockTree
  import opened Chain
  import opened Replay

  type Pool = map<Hash, Block>

  /** A chain of pool blocks from `path[0]` up to a child of `p`, none of them in the tree yet. */
  predicate PoolPath(pool: Pool, stored: set<Hash>, p: Hash, path: seq<Hash>) {
    forall i | 0 <= i < |path| :: PoolLink(pool, stored, p, path, i)
  }

  predicate PoolLink(pool: Pool, stored: set<Hash>, p: Hash, path: seq<Hash>, i: nat)
    requires i < |path|
  {
    && path[i] in pool && path[i] !in stored
    && pool[path[i]].header.previousHash == if i + 1 < |path| then path[i + 1] else p
  }

  /** `h` descends from `p` through orphans that are not in the tree. */
  ghost predicate Descends(pool: Pool, stored: set<Hash>, p: Hash, h: Hash) {
    exists path :: path != [] && path[0] == h && PoolPath(pool, stored, p, path)
  }

  /** A child of `p` moves. */
  lemma ChildDescends(pool: Pool, stored: set<Hash>, p: Hash, h: Hash)
    requires h in pool && h !in stored && pool[h].header.previousHash == p
    ensures Descends(pool, stored, p, h)
  {
    assert PoolPath(pool, stored, p, [h]);
  }

  /** A descendant of a child of `p` in a smaller pool and a larger tree is a descendant of `p`. */
  lemma DescendsThroughChild(pool: Pool, stored: set<Hash>, p: Hash, e: Hash, pool': Pool, stored': set<Hash>, h: Hash)
    requires Descends(pool', stored', e, h)
    requires forall x | x in pool' :: x in pool && pool[x] == pool'[x]
    requires stored <= stored' && e in pool && e !in stored && pool[e].header.previousHash == p
    ensures Descends(pool, stored, p, h)
  {
    var path :| path != [] && path[0] == h && PoolPath(pool', stored', e, path);
    var path' := path + [e];
    forall i | 0 <= i < |path'|
      ensures PoolLink(pool, stored, p, path', i)
    {
      if i < |path| { assert PoolLink(pool', stored', e, path, i); }
    }
    assert path'[0] == h && PoolPath(pool, stored, p, path');
  }

  /** The orphans added to the tree between two states of the store. */
  function Moved(s: Store, s': Store): set<Hash> { s'.cache.Keys - s.cache.Keys }

  /** Nothing but the pool and the tree changed: blocks moved from one to the other, and orphans that
      the tree already held were dropped. */
  ghost predicate MovesOrphans(c: Crypto, s: Store, s': Store) {
    && StoreOk(c, s')
    && s' == s.(cache := s'.cache, blocks := s'.blocks, orphans := s'.orphans, orphanOrder := s'.orphanOrder)
    && Extends(s.cache, s'.cache)
    && (forall h | h in s'.orphans :: h in s.orphans && s'.orphans[h] == s.orphans[h])
    && (forall h | h in Moved(s, s') :: h in s.orphans && h !in s'.orphans && s'.cache[h] == s.orphans[h])
    && (forall h | h in s.orphans && h !in s'.orphans :: h in s'.cache)
  }

  /** Every moved block descends from `p`, and no block that is left has a moved parent. */
  ghost predicate ClosedUnder(s: Store, s': Store, p: Hash) {
    && (forall h | h in Moved(s, s') :: Descends(s.orphans, s.cache.Keys, p, h))
    && (forall h | h in s'.orphans :: s'.orphans[h].header.previousHash !in Moved(s, s'))
  }

  ghost predicate Resolved(c: Crypto, s: Store, s': Store, p: Hash) {
    && MovesOrphans(c, s, s') && ClosedUnder(s, s', p)
    && forall h | h in s'.orphans :: s'.orphans[h].header.previousHash != p
  }

  lemma {:induction false} PathMoves(c: Crypto, s: Store, s': Store, p: Hash, path: seq<Hash>, i: nat)
    requires Resolved(c, s, s', p) && PoolPath(s.orphans, s.cache.Keys, p, path) && i < |path|
    ensures path[i] in Moved(s, s')
    decreases |path| - i
  {
    hide StoreOk, Descends;
    assert PoolLink(s.orphans, s.cache.Keys, p, path, i);
    if i + 1 < |path| { PathMoves(c, s, s', p, path, i + 1); }
  }

  /** Resolving moves exactly the orphans that descend from `p`. */
  lemma MovesExactlyDescendants(c: Crypto, s: Store, s': Store, p: Hash)
    requires Resolved(c, s, s', p)
    ensures forall h :: h in Moved(s, s') <==> Descends(s.orphans, s.cache.Keys, p, h)
  {
    hide StoreOk, MovesOrphans;
    forall h | Descends(s.orphans, s.cache.Keys, p, h)
      ensures h in Moved(s, s')
    {
      var path :| path != [] && path[0] == h && PoolPath(s.orphans, s.cache.Keys, p, path);
      PathMoves(c, s, s', p, path, 0);
    }
  }

  lemma ResolvedKeepsLedger(o: Origin, n: Node, s': Store, p: Hash)
    requires NodeOk(o, n) && Resolved(o.c, n.store, s', p)
    ensures NodeOk(o, n.(store := s'))
  {
    hide StoreOk, Descends, DiffsOk, LedgerOk;
    ExtendKeepsLedger(o, n, s');
  }
}
