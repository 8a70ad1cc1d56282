/** Every step of a node keeps its ledger equal to the replay of its chain. */
module NodeProofs {
  import opened Types
  import opened Ledger
  import opened LedgerProofs
  import opened BlockTree
  import opened Chain
  import opened Replay

  // ----- Extending the tip

  /** A recorded diff of a block applied on the replay of its parent is the one to store. */
  lemma AppliedDiffIsOk(o: Origin, t: Tree, h: Hash, l: LedgerState)
    requires WellFounded(t) && SafeBlock(o, t, h) && HasParent(o, t, h) && ReplayTo(o, t, Prev(t, h)) == Some(l)
    ensures
      var (l', r) := ApplyTracked(o.c, l, t[h], t[h].header.height);
      if r.Ok? then DiffOk(o, t, h, r.value) && Restorable(r.value) && ReplayTo(o, t, h) == Some(l')
      else l' == l && ReplayTo(o, t, h) == None
  {
    hide Reversible, ApplyFrom, Unwind, Restorable;
    ApplyIsAtomic(o.c, l, t[h], t[h].header.height);
    EmptyConsumedOnce(l);
    ApplyIsRestorable(o.c, l, EMPTY_DIFF, t[h].transactions, t[h].header.height, 0);
  }

  lemma EmptyConsumedOnce(l: LedgerState)
    ensures ConsumedOnce(l, EMPTY_DIFF)
  {
  }

  lemma ExtendTipKeeps(o: Origin, n: Node, b: Block)
    requires NodeOk(o, n)
    requires HashOf(o.c, b) in n.store.cache && n.store.cache[HashOf(o.c, b)] == b
    requires SafeBlock(o, n.store.cache, HashOf(o.c, b))
    requires b.header.previousHash == n.store.tip && HashOf(o.c, b) != o.genesis
    ensures NodeOk(o, ExtendTip(o.c, n, b).0)
  {
    hide ReplayTo, ApplyTracked, Acyclic, Closed, DiffOk, EntryOk, OrphansOk, SafeBlock;
    var t, h := n.store.cache, HashOf(o.c, b);
    TipIsNotZero(o, n);
    AppliedDiffIsOk(o, t, h, n.ledger);
    var (l', r) := ApplyTracked(o.c, n.ledger, b, b.header.height);
    if r.Ok? {
      var s1 := n.store.(diffs := n.store.diffs[h := r.value]);
      SetTipKeeps(o, Node(s1, l'), h);
    }
  }

  lemma TipIsNotZero(o: Origin, n: Node)
    requires NodeOk(o, n)
    ensures n.store.tip != ZERO
  {
  }

  /** Moving the tip to a block whose replay is the ledger, with diffs all the way down. */
  lemma SetTipKeeps(o: Origin, n: Node, h: Hash)
    requires NoZeroHash(o.c) && BlocksOk(o.c, n.store.blocks, n.store.cache) && GenesisOk(o, n.store.cache)
    requires OrphansOk(o.c, n.store.orphans, n.store.orphanOrder) && RestorableDiffs(n.store.diffs)
        && DiffsOk(o, n.store)
    requires h in n.store.cache && ReplayTo(o, n.store.cache, h) == Some(n.ledger)
    requires o.genesis in Ancestors(n.store.cache, h)
    requires forall x | x in Ancestors(n.store.cache, h) && x != o.genesis :: x in n.store.diffs
    ensures NodeOk(o, n.(store := SetTip(n.store, h).0)) && SetTip(n.store, h).1.None?
  {
  }

  // ----- Unwinding and applying along a fork plan

  /** After unwinding the first `i` blocks below the tip, the ledger is the replay of the next one. */
  lemma {:induction false} UnwindReplays(o: Origin, n: Node, m: nat, i: nat, l: LedgerState)
    requires NodeOk(o, n) && i <= m < |Ancestors(n.store.cache, n.store.tip)|
    requires o.genesis !in Ancestors(n.store.cache, n.store.tip)[..m]
    requires ReplayTo(o, n.store.cache, Ancestors(n.store.cache, n.store.tip)[i]) == Some(l)
    ensures
      var t, a := n.store.cache, Ancestors(n.store.cache, n.store.tip);
      var r := UnwindFrom(o.c, n.store, l, a[..m], i);
      r.Ok? && ReplayTo(o, t, a[m]) == Some(r.value)
    decreases m - i
  {
    hide ReplayTo, ApplyTracked, Unwind, Acyclic, Closed, EntryOk, OrphansOk, Restorable;
    var t, a := n.store.cache, Ancestors(n.store.cache, n.store.tip);
    if i < m {
      AncestorsLinked(t, n.store.tip, i);
      assert a[..m][i] == a[i];
      assert DiffOk(o, t, a[i], n.store.diffs[a[i]]);
      ReplayStep(o, t, a[i]);
      UnwindReplays(o, n, m, i + 1, Unwind(l, n.store.diffs[a[i]]));
    }
  }

  /** One step of the replay, from the parent. */
  lemma ReplayStep(o: Origin, t: Tree, h: Hash)
    requires Acyclic(t) && HasParent(o, t, h)
    ensures
      var r := ReplayTo(o, t, Prev(t, h));
      ReplayTo(o, t, h) == if r.None? then None else ReplayBlock(o.c, r.value, t[h])
  {
  }

  function ParentOn(fork: Hash, path: seq<Hash>, i: nat): Hash
    requires i <= |path|
  {
    if i == 0 then fork else path[i - 1]
  }

  /** Applying upward from the fork point either fails or ends at the replay of the last block, and
      every diff it stores is the one to store. */
  lemma {:induction false} ApplyReplays(o: Origin, s: Store, l: LedgerState, fork: Hash, path: seq<Hash>, i: nat)
    requires WellFounded(s.cache) && DiffsOk(o, s) && RestorableDiffs(s.diffs)
    requires forall h | h in path :: SafeBlock(o, s.cache, h)
    requires i <= |path| && LinkedUp(s.cache, fork, path) && fork in s.cache && o.genesis !in path
    requires ReplayTo(o, s.cache, ParentOn(fork, path, i)) == Some(l)
    ensures
      var a := ApplyPath(o.c, s, l, path, i);
      && a.store == s.(diffs := a.store.diffs)
      && DiffsOk(o, a.store) && RestorableDiffs(a.store.diffs)
      && (forall x | x in s.diffs :: x in a.store.diffs)
      && (a.error.None? ==>
            && ReplayTo(o, s.cache, ParentOn(fork, path, |path|)) == Some(a.ledger)
            && forall k | i <= k < |path| :: path[k] in a.store.diffs)
      && (a.error.Some? ==> exists k | i <= k < |path| :: ReplayTo(o, s.cache, path[k]) == None)
    decreases |path| - i
  {
    hide ReplayTo, ApplyTracked, Acyclic, DiffOk, SafeBlock;
    if i < |path| {
      var t, h := s.cache, path[i];
      assert UpLink(t, fork, path, i) && SafeBlock(o, t, h);
      ParentOnInTree(t, fork, path, i);
      AppliedDiffIsOk(o, t, h, l);
      var (l', r) := ApplyTracked(o.c, l, t[h], t[h].header.height);
      if r.Ok? {
        ApplyReplays(o, s.(diffs := s.diffs[h := r.value]), l', fork, path, i + 1);
      }
    }
  }

  lemma ParentOnInTree(t: Tree, fork: Hash, path: seq<Hash>, i: nat)
    requires Closed(t) && fork in t && i <= |path| && LinkedUp(t, fork, path)
    ensures ParentOn(fork, path, i) in t && ParentOn(fork, path, i) != ZERO
  {
    if i > 0 { assert UpLink(t, fork, path, i - 1); }
  }

  // ----- Reorganising

  /** The fork point of two blocks, one of which descends from genesis, does too; genesis stays below it. */
  lemma ForkIsAboveGenesis(o: Origin, n: Node, i: nat)
    requires NodeOk(o, n) && i < |Ancestors(n.store.cache, n.store.tip)|
    ensures o.genesis in Ancestors(n.store.cache, Ancestors(n.store.cache, n.store.tip)[i])
    ensures o.genesis !in Ancestors(n.store.cache, n.store.tip)[..i]
  {
    hide Acyclic, Closed, EntryOk, OrphansOk, DiffsOk, ReplayTo;
    var t, a := n.store.cache, Ancestors(n.store.cache, n.store.tip);
    var g :| 0 <= g < |a| && a[g] == o.genesis;
    AncestorsLinked(t, n.store.tip, g);
    if g + 1 < |a| { AncestorIsNotZero(t, n.store.tip, g + 1); }
    assert g == |a| - 1;
    AncestorsSuffix(t, n.store.tip, i);
    assert a[i..][g - i] == o.genesis;
    forall k | 0 <= k < i
      ensures a[k] != o.genesis
    {
      AncestorsDistinct(t, n.store.tip, k, g);
    }
  }

  lemma AncestorIsNotZero(t: Tree, h: Hash, i: nat)
    requires WellFounded(t) && h in t && i < |Ancestors(t, h)|
    ensures Ancestors(t, h)[i] != ZERO
  {
    AncestorsSuffix(t, h, i);
  }

  /** The ancestors of the new tip: the applied path, then the ancestors of the fork point. */
  lemma NewTipAncestors(t: Tree, h: Hash, j: nat)
    requires WellFounded(t) && h in t && Prev(t, h) in t && j < |Ancestors(t, Prev(t, h))|
    ensures
      var ap := Ancestors(t, Prev(t, h));
      && (forall x | x in Ancestors(t, h) :: x in Reverse(ap[..j]) + [h] || x in Ancestors(t, ap[j]))
      && (forall x | x in Ancestors(t, ap[j]) :: x in Ancestors(t, h))
  {
    hide Acyclic;
    var ap := Ancestors(t, Prev(t, h));
    AncestorsSuffix(t, Prev(t, h), j);
    assert Ancestors(t, h) == [h] + ap;
    assert ap == ap[..j] + ap[j..];
    forall x | x in ap[..j]
      ensures x in Reverse(ap[..j])
    {
      var k :| 0 <= k < j && ap[..j][k] == x;
      assert Reverse(ap[..j])[j - 1 - k] == x;
    }
  }

  lemma ReorgKeeps(o: Origin, n: Node, h: Hash)
    requires NodeOk(o, n)
    requires h in n.store.cache && Prev(n.store.cache, h) in n.store.cache && h != o.genesis
    requires h !in Ancestors(n.store.cache, n.store.tip)
    requires FindLca(n.store.cache, Prev(n.store.cache, h), n.store.tip).Some?
    requires
      var t := n.store.cache;
      var fork := FindLca(t, Prev(t, h), n.store.tip).value;
      var path := Reverse(ChainToFork(t, Prev(t, h), fork)) + [h];
      |ChainToFork(t, n.store.tip, fork)| <= MAX_REORG && |path| <= MAX_REORG ==>
        forall x | x in path :: SafeBlock(o, t, x)
    ensures
      var t := n.store.cache;
      var fork := FindLca(t, Prev(t, h), n.store.tip).value;
      var (unwind, path) := (ChainToFork(t, n.store.tip, fork), Reverse(ChainToFork(t, Prev(t, h), fork)) + [h]);
      var (n', r) := Reorganise(o.c, n, unwind, path);
      && NodeOk(o, n')
      && (if r.Ok? then n'.store.tip == h && n'.store.cache == t else n' == n)
      && (r.Err? && |unwind| <= MAX_REORG && |path| <= MAX_REORG ==> exists x | x in path :: ReplayTo(o, t, x) == None)
  {
    hide ReplayTo, Acyclic, Closed, DiffOk, EntryOk, OrphansOk, SafeBlock, Ancestors, ChainToFork, LinkedUp, LinkedDown,
        FindLca, UnwindFrom, ApplyPath, Resurrect;
    var t, prev := n.store.cache, Prev(n.store.cache, h);
    var fork := FindLca(t, prev, n.store.tip).value;
    var i, j := ForkIndices(t, prev, n.store.tip);
    ForkPlanIsSound(t, h, n.store.tip);
    ForkIsAboveGenesis(o, n, i);
    AncestorsSuffix(t, n.store.tip, i);
    var (unwind, path) := (ChainToFork(t, n.store.tip, fork), Reverse(ChainToFork(t, prev, fork)) + [h]);
    UnwindReplays(o, n, i, 0, n.ledger);
    GenesisNotOnPath(o, n, prev, i, j, h);
    var u := UnwindFrom(o.c, n.store, n.ledger, unwind, 0);
    if |unwind| > MAX_REORG || |path| > MAX_REORG { return; }
    ApplyReplays(o, n.store, u.value, fork, path, 0);
    var a := ApplyPath(o.c, n.store, u.value, path, 0);
    if a.error.None? {
      NewTipAncestors(t, h, j);
      DiffsBelowFork(o, n, i);
      SetTipKeeps(o, Node(a.store, a.ledger), h);
    }
  }

  lemma GenesisNotOnPath(o: Origin, n: Node, prev: Hash, i: nat, j: nat, h: Hash)
    requires NodeOk(o, n) && prev in n.store.cache && h != o.genesis
    requires i < |Ancestors(n.store.cache, n.store.tip)| && j < |Ancestors(n.store.cache, prev)|
    requires forall m | 0 <= m < j :: Ancestors(n.store.cache, prev)[m] !in Ancestors(n.store.cache, n.store.tip)
    ensures o.genesis !in Reverse(Ancestors(n.store.cache, prev)[..j]) + [h]
  {
    hide Acyclic, Closed, EntryOk, OrphansOk, DiffsOk, ReplayTo;
    var down := Ancestors(n.store.cache, prev)[..j];
    forall k | 0 <= k < |Reverse(down)|
      ensures Reverse(down)[k] != o.genesis
    {
      assert Reverse(down)[k] == Ancestors(n.store.cache, prev)[j - 1 - k];
    }
  }

  lemma DiffsBelowFork(o: Origin, n: Node, i: nat)
    requires NodeOk(o, n) && i < |Ancestors(n.store.cache, n.store.tip)|
    ensures forall x | x in Ancestors(n.store.cache, Ancestors(n.store.cache, n.store.tip)[i]) && x != o.genesis ::
        x in n.store.diffs
  {
    hide Acyclic, EntryOk, OrphansOk, DiffsOk, ReplayTo;
    AncestorsSuffix(n.store.cache, n.store.tip, i);
  }

  // ----- The receive step

  lemma NoKeys(m: map<Hash, Block>)
    requires forall h :: h !in m
    ensures |m| == 0
  {
    assert m.Keys == {};
  }

  lemma {:induction false} EvictKeeps(orphans: map<Hash, Block>, order: seq<Hash>)
    requires (forall h | h in orphans :: h in order) && (forall h | h in order :: h in orphans)
    requires forall i, j | 0 <= i < j < |order| :: order[i] != order[j]
    ensures
      var (orphans', order') := Evict(orphans, order);
      && (forall h | h in orphans' :: h in orphans && orphans'[h] == orphans[h] && h in order')
      && (forall h | h in order' :: h in orphans')
      && (forall i, j | 0 <= i < j < |order'| :: order'[i] != order'[j])
      && |orphans'| < MAX_ORPHANS
    decreases |order|
  {
    if |orphans| >= MAX_ORPHANS {
      if order == [] {
        NoKeys(orphans);
      } else {
        assert order[0] !in order[1..];
        EvictKeeps(orphans - {order[0]}, order[1..]);
      }
    }
  }

  lemma PushKeeps(c: Crypto, orphans: map<Hash, Block>, order: seq<Hash>, b: Block)
    requires OrphansOk(c, orphans, order) && |orphans| < MAX_ORPHANS && HashOf(c, b) !in orphans
    ensures OrphansOk(c, orphans[HashOf(c, b) := b], order + [HashOf(c, b)])
  {
    var h := HashOf(c, b);
    assert orphans[h := b].Keys == orphans.Keys + {h};
    assert |orphans[h := b]| == |orphans| + 1;
  }

  lemma AddOrphanKeeps(c: Crypto, s: Store, b: Block)
    requires OrphansOk(c, s.orphans, s.orphanOrder)
    ensures var s' := AddOrphan(c, s, b); OrphansOk(c, s'.orphans, s'.orphanOrder)
  {
    var h := HashOf(c, b);
    if h !in s.orphans {
      EvictKeeps(s.orphans, s.orphanOrder);
      var (orphans, order) := Evict(s.orphans, s.orphanOrder);
      PushKeeps(c, orphans, order, b);
    }
  }

  lemma NewBlockIsNotAnAncestor(o: Origin, n: Node, s': Store, h: Hash)
    requires NodeOk(o, n) && WellFounded(s'.cache) && Extends(n.store.cache, s'.cache) && h !in n.store.cache
    ensures h !in Ancestors(s'.cache, n.store.tip)
  {
    hide Acyclic, Closed, EntryOk, OrphansOk, DiffsOk, ReplayTo;
    var t := n.store.cache;
    AncestorsExtend(t, s'.cache, n.store.tip);
    forall k | 0 <= k < |Ancestors(t, n.store.tip)|
      ensures Ancestors(t, n.store.tip)[k] != h
    {
      AncestorsSuffix(t, n.store.tip, k);
    }
  }

  /** The fork decision on a block just added keeps the node in agreement. */
  lemma DecideKeeps(o: Origin, n: Node, b: Block)
    requires NodeOk(o, n) && Acyclic(n.store.cache) && SafeDecision(o, n.store, b)
    requires HashOf(o.c, b) in n.store.cache && n.store.cache[HashOf(o.c, b)] == b && HashOf(o.c, b) != o.genesis
    requires HashOf(o.c, b) !in Ancestors(n.store.cache, n.store.tip)
    ensures NodeOk(o, Decide(o.c, n, b).0)
  {
    hide ReplayTo, ApplyTracked, Closed, DiffsOk, EntryOk, OrphansOk, SafeBlock, ChainToFork, FindLca, UnwindFrom,
        ApplyPath, Resurrect;
    match AnalyzeFork(o.c, n.store, b)
    case ExtendCanonical => ExtendTipKeeps(o, n, b);
    case ReorgToNew(unwind, apply) => ReorgKeeps(o, n, HashOf(o.c, b));
    case _ =>
  }

  // ----- What needs no hypothesis on the blocks

  lemma TrackedDiffIsRestorable(c: Crypto, l: LedgerState, b: Block)
    ensures
      var (l', r) := ApplyTracked(c, l, b, b.header.height);
      r.Ok? ==> Restorable(r.value)
  {
    hide Restorable, ApplyFrom, Unwind;
    EmptyConsumedOnce(l);
    ApplyIsRestorable(c, l, EMPTY_DIFF, b.transactions, b.header.height, 0);
  }

  lemma {:induction false} ApplyPathFrame(c: Crypto, s: Store, l: LedgerState, hashes: seq<Hash>, i: nat)
    requires i <= |hashes| && RestorableDiffs(s.diffs)
    ensures
      var a := ApplyPath(c, s, l, hashes, i);
      a.store == s.(diffs := a.store.diffs) && RestorableDiffs(a.store.diffs)
    decreases |hashes| - i
  {
    hide ApplyTracked, Restorable;
    if i < |hashes| && hashes[i] in s.cache {
      var b := s.cache[hashes[i]];
      var (l', r) := ApplyTracked(c, l, b, b.header.height);
      TrackedDiffIsRestorable(c, l, b);
      if r.Ok? { ApplyPathFrame(c, s.(diffs := s.diffs[hashes[i] := r.value]), l', hashes, i + 1); }
    }
  }

  /** A reorganisation changes no more than the diffs and the tip of the store, and on an error nothing. */
  lemma ReorgFrame(c: Crypto, n: Node, unwind: seq<Hash>, apply: seq<Hash>)
    requires RestorableDiffs(n.store.diffs)
    ensures
      var (n', r) := Reorganise(c, n, unwind, apply);
      && RestorableDiffs(n'.store.diffs)
      && (if r.Err? then n' == n
          else apply != [] && apply[|apply| - 1] in n.store.blocks
               && n'.store == SetTip(n.store.(diffs := n'.store.diffs), apply[|apply| - 1]).0)
  {
    hide Unwind, ApplyTracked, Resurrect, RestorableDiffs;
    var u := UnwindFrom(c, n.store, n.ledger, unwind, 0);
    if u.Ok? { ApplyPathFrame(c, n.store, u.value, apply, 0); }
  }

  lemma FailedReorgIsIdentity(c: Crypto, n: Node, unwind: seq<Hash>, apply: seq<Hash>)
    ensures var (n', r) := ReorgInner(c, n, unwind, apply); r.Err? ==> n' == n
  {
    hide UnwindFrom, ApplyPath, Resurrect;
  }

  predicate SameBlocks(s: Store, s': Store) {
    s'.cache == s.cache && s'.blocks == s.blocks && s'.orphans == s.orphans && s'.orphanOrder == s.orphanOrder
  }

  lemma DecideKeepsStore(c: Crypto, n: Node, b: Block)
    requires StoreOk(c, n.store)
    requires HashOf(c, b) in n.store.cache && n.store.cache[HashOf(c, b)] == b
    ensures
      var (n', e) := Decide(c, n, b);
      StoreOk(c, n'.store) && SameBlocks(n.store, n'.store) && n'.store.tipWork >= n.store.tipWork
  {
    hide ApplyTracked, Acyclic, Closed, OrphansOk, ChainToFork, FindLca, UnwindFrom, ApplyPath, Resurrect, PathWork,
        Restorable, Reorganise;
    var s, h := n.store, HashOf(c, b);
    assert EntryOk(c, s.blocks, s.cache, h, PathWork(s.cache, h));
    if b.header.previousHash in s.cache { WorkOfChild(c, s, b); }
    match AnalyzeFork(c, s, b)
    case ExtendCanonical => TrackedDiffIsRestorable(c, n.ledger, b);
    case ReorgToNew(unwind, apply) => ReorgFrame(c, n, unwind, apply);
    case _ =>
  }

  /** The entry of a stored block adds its own work to that of its parent. */
  lemma WorkOfChild(c: Crypto, s: Store, b: Block)
    requires BlocksOk(c, s.blocks, s.cache)
    requires HashOf(c, b) in s.cache && s.cache[HashOf(c, b)] == b && b.header.previousHash in s.cache
    ensures s.blocks[HashOf(c, b)].accumulatedWork == SatAdd(s.blocks[b.header.previousHash].accumulatedWork,
        BlockWork(b.header))
  {
  }

  lemma AddOrphanKeepsStore(c: Crypto, s: Store, b: Block)
    requires StoreOk(c, s)
    ensures
      var s' := AddOrphan(c, s, b);
      StoreOk(c, s') && s' == s.(orphans := s'.orphans, orphanOrder := s'.orphanOrder)
  {
    hide BlocksOk, RestorableDiffs, OrphansOk, Evict;
    AddOrphanKeeps(c, s, b);
  }

  /** Whether the step inserts the block in the tree. */
  predicate Inserts(c: Crypto, n: Node, b: Block) {
    && c.powOk(b)
    && (b.header.previousHash in n.store.cache || b.header.height == 0)
    && HashOf(c, b) !in n.store.cache
    && AddBlock(c, n.store, b).1.Ok?
  }

  /** For any block and whatever the step returns: the store stays consistent, the tree only grows,
      and the work of the tip never falls. */
  lemma ReceiveKeepsStore(c: Crypto, n: Node, b: Block)
    requires StoreOk(c, n.store)
    ensures Acyclic(AddBlock(c, n.store, b).0.cache)
    ensures
      var (n', e) := Receive(c, n, b);
      && StoreOk(c, n'.store)
      && n'.store.cache == (if Inserts(c, n, b) then n.store.cache[HashOf(c, b) := b] else n.store.cache)
      && Extends(n.store.cache, n'.store.cache)
      && n'.store.tipWork >= n.store.tipWork
  {
    hide BlocksOk, OrphansOk, RestorableDiffs, Decide, AddOrphan;
    AddBlockKeepsStore(c, n.store, b);
    AddBlockIsAcyclic(c, n.store, b);
    AddOrphanKeepsStore(c, n.store, b);
    var (s', r) := AddBlock(c, n.store, b);
    if r.Ok? { DecideKeepsStore(c, n.(store := s'), b); }
  }

  lemma AddBlockIsAcyclic(c: Crypto, s: Store, b: Block)
    requires StoreOk(c, s)
    ensures Acyclic(s.cache) && Acyclic(AddBlock(c, s, b).0.cache)
  {
    hide Acyclic;
    AddBlockKeepsStore(c, s, b);
  }

  // ----- The whole step

  lemma OrphanFrame(o: Origin, n: Node, b: Block)
    requires NodeOk(o, n)
    ensures NodeOk(o, n.(store := AddOrphan(o.c, n.store, b)))
  {
    hide ReplayTo, Closed, EntryOk, ApplyTracked;
    AddOrphanKeeps(o.c, n.store, b);
    var s' := AddOrphan(o.c, n.store, b);
    assert s' == n.store.(orphans := s'.orphans, orphanOrder := s'.orphanOrder);
  }

  /** One step of a node, whatever it returns, keeps its ledger equal to the replay of its chain. */
  lemma ReceiveKeeps(o: Origin, n: Node, b: Block)
    requires NodeOk(o, n) && Acyclic(AddBlock(o.c, n.store, b).0.cache)
    requires Inserts(o.c, n, b) ==> SafeDecision(o, AddBlock(o.c, n.store, b).0, b)
    ensures NodeOk(o, Receive(o.c, n, b).0)
  {
    hide ReplayTo, ApplyTracked, Acyclic, Closed, DiffsOk, LedgerOk, EntryOk, OrphansOk, SafeBlock, ChainToFork,
        FindLca, UnwindFrom, ApplyPath, Resurrect, Decide, Ancestors, AddOrphan, SafeDecision;
    var h := HashOf(o.c, b);
    AddBlockKeepsStore(o.c, n.store, b);
    AddBlockKeeps(o, n, b);
    ReceiveKeepsStore(o.c, n, b);
    OrphanFrame(o, n, b);
    if Inserts(o.c, n, b) {
      var s' := AddBlock(o.c, n.store, b).0;
      NewBlockIsNotAnAncestor(o, n, s', h);
      DecideKeeps(o, n.(store := s'), b);
    }
  }
}
