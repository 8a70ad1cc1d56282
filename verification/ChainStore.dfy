/** The mutable block store. */
module ChainStores {
  import opened Types
  import opened Ledger
  import opened BlockTree
  import opened Chain
  import opened Replay
  import opened Orphans
  import NodeProofs

  class ChainStore {
    const c: Crypto
    var blocks: map<Hash, BlockEntry>
    var blockCache: Tree
    var blockDiffs: map<Hash, BlockDiff>
    var chainTip: Hash
    var orphans: map<Hash, Block>
    var orphanOrder: seq<Hash>
    var tipHeight: nat
    var tipWork: nat

    ghost function Value(): Store
      reads this
    {
      Store(blocks, blockCache, blockDiffs, chainTip, tipHeight, tipWork, orphans, orphanOrder)
    }

    ghost predicate Valid()
      reads this
    {
      StoreOk(c, Value())
    }

    constructor (c: Crypto, genesis: Block)
      requires genesis.header.previousHash == ZERO && genesis.header.height == 0 && NoZeroHash(c)
      ensures Valid() && this.c == c && Value() == NewStore(c, genesis)
    {
      var h, w := HashOf(c, genesis), BlockWork(genesis.header);
      this.c := c;
      blocks, blockCache, blockDiffs := map[h := BlockEntry(0, w)], map[h := genesis], map[];
      chainTip, tipHeight, tipWork := h, 0, w;
      orphans, orphanOrder := map[], [];
      new;
      StartIsOk(c, genesis, LedgerState(map[], {}, 0));
    }

    // ----- Insertion

    method AddBlock(block: Block) returns (r: Result<nat>)
      requires Valid()
      modifies this
      ensures Valid() && (Value(), r) == Chain.AddBlock(c, old(Value()), block)
    {
      AddBlockKeepsStore(c, Value(), block);
      var hash, parentHash := HashOf(c, block), block.header.previousHash;
      if hash in blocks { return Err(BlockExists); }
      var parentWork := 0;
      if parentHash in blocks {
        parentWork := blocks[parentHash].accumulatedWork;
      } else if !(parentHash == ZERO && block.header.height == 0) {
        return Err(ParentNotFound);
      }
      var work := SatAdd(parentWork, BlockWork(block.header));
      blocks := blocks[hash := BlockEntry(block.header.height, work)];
      blockCache := blockCache[hash := block];
      return Ok(work);
    }

    method AddBlockWithDiff(block: Block, diff: BlockDiff) returns (r: Result<nat>)
      requires Valid() && Restorable(diff)
      modifies this
      ensures Valid()
      ensures
        var (s, r') := Chain.AddBlock(c, old(Value()), block);
        r == r' && Value() == if r.Ok? then s.(diffs := s.diffs[HashOf(c, block) := diff]) else s
    {
      hide BlocksOk, OrphansOk;
      r := AddBlock(block);
      if r.Ok? { blockDiffs := blockDiffs[HashOf(c, block) := diff]; }
    }

    method StoreDiff(hash: Hash, diff: BlockDiff)
      requires Valid() && Restorable(diff)
      modifies this`blockDiffs
      ensures Valid() && Value() == old(Value()).(diffs := old(blockDiffs)[hash := diff])
    {
      hide BlocksOk, OrphansOk;
      blockDiffs := blockDiffs[hash := diff];
    }

    method SetChainTip(hash: Hash) returns (e: Option<Error>)
      requires Valid()
      modifies this
      ensures Valid() && (Value(), e) == SetTip(old(Value()), hash)
    {
      if hash !in blocks { return Some(TipNotFound); }
      chainTip, tipHeight, tipWork := hash, blocks[hash].height, blocks[hash].accumulatedWork;
      return None;
    }

    /** Puts back an earlier value of the store, as after a failed reorganisation. */
    method Restore(blocks: map<Hash, BlockEntry>, blockCache: Tree, blockDiffs: map<Hash, BlockDiff>, chainTip: Hash,
        orphans: map<Hash, Block>, orphanOrder: seq<Hash>, tipHeight: nat, tipWork: nat)
      requires StoreOk(c, Store(blocks, blockCache, blockDiffs, chainTip, tipHeight, tipWork, orphans, orphanOrder))
      modifies this
      ensures Valid() && Value() == Store(blocks, blockCache, blockDiffs, chainTip, tipHeight, tipWork, orphans,
          orphanOrder)
    {
      hide StoreOk;
      this.blocks, this.blockCache, this.blockDiffs, this.chainTip := blocks, blockCache, blockDiffs, chainTip;
      this.orphans, this.orphanOrder, this.tipHeight, this.tipWork := orphans, orphanOrder, tipHeight, tipWork;
    }

    // ----- Orphans

    method AddOrphan(block: Block)
      requires Valid()
      modifies this
      ensures Valid() && Value() == Chain.AddOrphan(c, old(Value()), block)
    {
      hide StoreOk, Evict;
      NodeProofs.AddOrphanKeepsStore(c, Value(), block);
      var hash := HashOf(c, block);
      if hash in orphans { return; }
      while |orphans| >= MAX_ORPHANS && orphanOrder != []
        invariant Evict(old(orphans), old(orphanOrder)) == Evict(orphans, orphanOrder)
        invariant Value() == old(Value()).(orphans := orphans, orphanOrder := orphanOrder)
        decreases |orphanOrder|
      {
        EvictStep(orphans, orphanOrder);
        orphans := orphans - {orphanOrder[0]};
        orphanOrder := orphanOrder[1..];
      }
      EvictDone(orphans, orphanOrder);
      orphans := orphans[hash := block];
      orphanOrder := orphanOrder + [hash];
    }

    /** The orphans waiting for `parent`, in an arbitrary order. */
    method WaitingFor(parent: Hash) returns (hs: seq<Hash>)
      ensures forall h :: h in hs <==> h in orphans && orphans[h].header.previousHash == parent
    {
      hs := [];
      var left := orphans.Keys;
      while left != {}
        invariant left <= orphans.Keys
        invariant forall h :: h in hs <==> h in orphans.Keys - left && orphans[h].header.previousHash == parent
        decreases left
      {
        var h :| h in left;
        if orphans[h].header.previousHash == parent { hs := hs + [h]; }
        left := left - {h};
      }
    }

    /** The queue without one hash. */
    method QueueWithout(h: Hash) returns (kept: seq<Hash>)
      requires forall i, j | 0 <= i < j < |orphanOrder| :: orphanOrder[i] != orphanOrder[j]
      ensures forall x :: x in kept <==> x in orphanOrder && x != h
      ensures forall i, j | 0 <= i < j < |kept| :: kept[i] != kept[j]
    {
      kept := [];
      for i := 0 to |orphanOrder|
        invariant forall x :: x in kept <==> x in orphanOrder[..i] && x != h
        invariant forall a, b | 0 <= a < b < |kept| :: kept[a] != kept[b]
      {
        if orphanOrder[i] != h {
          assert orphanOrder[i] !in orphanOrder[..i];
          kept := kept + [orphanOrder[i]];
        }
      }
      assert orphanOrder[..|orphanOrder|] == orphanOrder;
    }

    /** Takes an orphan out of the pool and, unless the tree holds it already, adds it to the tree. */
    method MoveOrphan(h: Hash) returns (moved: bool)
      requires Valid() && h in orphans && orphans[h].header.previousHash in blockCache
      modifies this
      ensures Valid() && MovesOrphans(c, old(Value()), Value())
      ensures orphans == old(orphans) - {h}
      ensures moved <==> h !in old(blockCache)
      ensures Moved(old(Value()), Value()) == if moved then {h} else {}
    {
      hide StoreOk, MovesOrphans;
      SameKeys(c, Value());
      var block := orphans[h];
      ghost var before := Value();
      var kept := QueueWithout(h);
      orphans := orphans - {h};
      orphanOrder := kept;
      DropKeeps(c, before, h, kept);
      ghost var dropped := Value();
      var r := AddBlock(block);
      moved := r.Ok?;
      OneMoves(c, before, dropped, Value(), h, block);
    }

    method ResolveOrphans(parent: Hash) returns (resolved: seq<Hash>)
      requires Valid() && parent in blockCache
      modifies this
      ensures Valid() && Resolved(c, old(Value()), Value(), parent)
      ensures |orphans| <= old(|orphans|)
      ensures forall h :: h in resolved <==> h in Moved(old(Value()), Value())
      ensures forall h :: h in resolved <==> Descends(old(orphans), old(blockCache).Keys, parent, h)
      decreases |orphans|
    {
      hide StoreOk, Descends, MovesOrphans, ClosedUnder, Moved;
      resolved := [];
      var found := true;
      NothingMoved(c, Value(), parent);
      while found
        invariant Valid() && MovesOrphans(c, old(Value()), Value()) && ClosedUnder(old(Value()), Value(), parent)
        invariant parent in blockCache && |orphans| <= old(|orphans|)
        invariant forall h :: h in resolved <==> h in Moved(old(Value()), Value())
        invariant !found ==> forall h | h in orphans :: orphans[h].header.previousHash != parent
        decreases |orphans|, found
      {
        found := false;
        var toResolve := WaitingFor(parent);
        ghost var size := |orphans|;
        for i := 0 to |toResolve|
          invariant Valid() && MovesOrphans(c, old(Value()), Value()) && ClosedUnder(old(Value()), Value(), parent)
          invariant parent in blockCache && |orphans| <= old(|orphans|) && |orphans| <= size
          invariant i > 0 ==> |orphans| < size
          invariant i == 0 ==> forall h | h in orphans && orphans[h].header.previousHash == parent :: h in toResolve
          invariant i == 0 ==> forall h | h in toResolve :: h in orphans
          invariant forall h | h in toResolve && h in orphans :: orphans[h].header.previousHash == parent
          invariant forall h :: h in resolved <==> h in Moved(old(Value()), Value())
        {
          var hash := toResolve[i];
          if hash in orphans {
            ghost var before := Value();
            var moved := MoveOrphan(hash);
            ghost var middle := Value();
            MovesFrame(c, before, middle);
            if moved {
              resolved := resolved + [hash];
              var children := ResolveOrphans(hash);
              resolved := resolved + children;
              MovesFrame(c, middle, Value());
              ChildResolved(c, old(Value()), before, middle, Value(), parent, hash);
            } else {
              DropResolved(c, old(Value()), before, Value(), parent);
            }
          }
        }
        if toResolve != [] { found := true; }
      }
      MovesExactlyDescendants(c, old(Value()), Value(), parent);
    }

    // ----- Ancestor walks

    method GetAncestors(fromHash: Hash) returns (ancestors: seq<Hash>)
      requires Valid()
      ensures ancestors == Ancestors(blockCache, fromHash)
    {
      hide StoreOk, Acyclic, Depth, Ancestors;
      TreeIsWellFounded(c, Value());
      var cache := blockCache;
      ancestors := [];
      var current := fromHash;
      while true
        invariant ancestors + Ancestors(cache, current) == Ancestors(cache, fromHash)
        decreases Depth(cache, current)
      {
        AncestorsStep(cache, current);
        PushFront(ancestors, current, Ancestors(cache, current)[1..]);
        ancestors := ancestors + [current];
        if current !in cache { return; }
        var prev := cache[current].header.previousHash;
        if prev == ZERO { return; }
        DepthOfParent(cache, current);
        current := prev;
      }
    }

    method FindLca(a: Hash, b: Hash) returns (fork: Option<Hash>)
      requires Valid()
      ensures fork == BlockTree.FindLca(blockCache, a, b)
    {
      var ancestorsA := GetAncestors(a);
      var list := GetAncestors(b);
      var ancestorsB := set h | h in list;
      for i := 0 to |ancestorsA|
        invariant FirstIn(ancestorsA, ancestorsB, 0) == FirstIn(ancestorsA, ancestorsB, i)
      {
        if ancestorsA[i] in ancestorsB { return Some(ancestorsA[i]); }
      }
      return None;
    }

    method GetChainToFork(tip: Hash, fork: Hash) returns (chain: seq<Hash>)
      requires Valid()
      ensures chain == ChainToFork(blockCache, tip, fork)
    {
      hide StoreOk, Acyclic, Depth, ChainToFork;
      TreeIsWellFounded(c, Value());
      var cache := blockCache;
      chain := [];
      var current := tip;
      while true
        invariant chain + ChainToFork(cache, current, fork) == ChainToFork(cache, tip, fork)
        decreases Depth(cache, current)
      {
        ChainToForkStep(cache, current, fork);
        if current == fork || current == ZERO { return; }
        PushFront(chain, current, ChainToFork(cache, current, fork)[1..]);
        chain := chain + [current];
        if current !in cache { return; }
        DepthOfParent(cache, current);
        current := cache[current].header.previousHash;
      }
    }
  }

  lemma PushFront(done: seq<Hash>, h: Hash, rest: seq<Hash>)
    ensures done + ([h] + rest) == done + [h] + rest
  {
  }

  lemma TreeIsWellFounded(c: Crypto, s: Store)
    requires StoreOk(c, s)
    ensures WellFounded(s.cache)
  {
  }

  lemma EvictStep(orphans: map<Hash, Block>, order: seq<Hash>)
    requires |orphans| >= MAX_ORPHANS && order != []
    ensures Evict(orphans, order) == Evict(orphans - {order[0]}, order[1..])
  {
  }

  lemma EvictDone(orphans: map<Hash, Block>, order: seq<Hash>)
    requires |orphans| < MAX_ORPHANS || order == []
    ensures Evict(orphans, order) == (orphans, order)
  {
  }

  // ----- Steps of orphan resolution

  lemma DropKeeps(c: Crypto, s: Store, h: Hash, kept: seq<Hash>)
    requires StoreOk(c, s) && h in s.orphans
    requires forall x :: x in kept <==> x in s.orphanOrder && x != h
    requires forall a, b | 0 <= a < b < |kept| :: kept[a] != kept[b]
    ensures StoreOk(c, s.(orphans := s.orphans - {h}, orphanOrder := kept))
  {
    hide BlocksOk, RestorableDiffs;
    assert (s.orphans - {h}).Keys == s.orphans.Keys - {h};
    assert |s.orphans - {h}| == |s.orphans| - 1;
  }

  lemma OneMoves(c: Crypto, before: Store, dropped: Store, after: Store, h: Hash, b: Block)
    requires StoreOk(c, before) && h in before.orphans && b == before.orphans[h]
    requires dropped == before.(orphans := before.orphans - {h}, orphanOrder := dropped.orphanOrder)
        && StoreOk(c, dropped)
    requires after == AddBlock(c, dropped, b).0 && b.header.previousHash in before.cache
    ensures
      && MovesOrphans(c, before, after)
      && (AddBlock(c, dropped, b).1.Ok? <==> h !in before.cache)
      && Moved(before, after) == if h in before.cache then {} else {h}
  {
    hide BlocksOk, RestorableDiffs, NoZeroHash, OrphansOk;
    AddBlockKeepsStore(c, dropped, b);
    SameKeys(c, before);
    assert HashOf(c, b) == h;
  }

  lemma MovesFrame(c: Crypto, s: Store, s': Store)
    requires MovesOrphans(c, s, s')
    ensures forall h | h in s'.orphans :: h in s.orphans && s'.orphans[h] == s.orphans[h]
    ensures Extends(s.cache, s'.cache)
    ensures Moved(s, s') <= s'.cache.Keys
  {
  }

  lemma SameKeys(c: Crypto, s: Store)
    requires StoreOk(c, s)
    ensures s.blocks.Keys == s.cache.Keys
    ensures forall h | h in s.orphans :: HashOf(c, s.orphans[h]) == h
    ensures forall i, j | 0 <= i < j < |s.orphanOrder| :: s.orphanOrder[i] != s.orphanOrder[j]
  {
  }

  lemma NothingMoved(c: Crypto, s: Store, p: Hash)
    requires StoreOk(c, s)
    ensures MovesOrphans(c, s, s) && ClosedUnder(s, s, p) && Moved(s, s) == {}
  {
    hide StoreOk, Descends;
  }

  lemma MovesCompose(c: Crypto, s0: Store, s1: Store, s2: Store)
    requires MovesOrphans(c, s0, s1) && MovesOrphans(c, s1, s2)
    ensures MovesOrphans(c, s0, s2) && Moved(s0, s2) == Moved(s0, s1) + Moved(s1, s2)
  {
    hide StoreOk;
  }

  /** One orphan that the tree already held is dropped. */
  lemma DropResolved(c: Crypto, s: Store, before: Store, after: Store, p: Hash)
    requires MovesOrphans(c, s, before) && ClosedUnder(s, before, p)
    requires MovesOrphans(c, before, after) && Moved(before, after) == {}
    ensures MovesOrphans(c, s, after) && ClosedUnder(s, after, p) && Moved(s, after) == Moved(s, before)
  {
    hide StoreOk, Descends;
    MovesCompose(c, s, before, after);
  }

  /** One waiting orphan is moved and its own descendants are resolved. */
  lemma ChildResolved(c: Crypto, s: Store, before: Store, middle: Store, after: Store, p: Hash, e: Hash)
    requires MovesOrphans(c, s, before) && ClosedUnder(s, before, p)
    requires MovesOrphans(c, before, middle) && Moved(before, middle) == {e} && e in before.orphans
    requires before.orphans[e].header.previousHash == p
    requires Resolved(c, middle, after, e)
    ensures MovesOrphans(c, s, after) && ClosedUnder(s, after, p)
    ensures Moved(s, after) == Moved(s, before) + {e} + Moved(middle, after)
  {
    hide StoreOk, Descends;
    MovesCompose(c, s, before, middle);
    MovesCompose(c, s, middle, after);
    ChildDescends(s.orphans, s.cache.Keys, p, e);
    forall h | h in Moved(middle, after)
      ensures Descends(s.orphans, s.cache.Keys, p, h)
    {
      DescendsThroughChild(s.orphans, s.cache.Keys, p, e, middle.orphans, middle.cache.Keys, h);
    }
  }
}
