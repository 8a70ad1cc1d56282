/** Exactly when the order of delivery matters: a set of blocks has an order in which a valid block is rejected if
    and only if one valid branch overtakes another too deep, and orders end with different tips if and only if
    several blocks are heaviest. */
module Rejections {
  import opened Types
  import opened Ledger
  import opened BlockTree
  import opened Chain
  import opened Replay
  import opened NodeProofs
  import opened Runs
  import opened ForkChoice
  import opened ValidForkChoice
  import opened Convergence

  // ----- Orders with a lead

  /** The blocks above genesis on the way to `h`, oldest first. */
  ghost function PathTo(t: Tree, genesis: Hash, h: Hash): seq<Block>
    requires Acyclic(t)
    decreases Depth(t, h)
  {
    if h == genesis || h !in t then [] else PathTo(t, genesis, Prev(t, h)) + [t[h]]
  }

  predicate ParentBefore(c: Crypto, genesis: Block, lead: seq<Block>, i: nat)
    requires i < |lead|
  {
    || lead[i].header.previousHash == HashOf(c, genesis)
    || exists j | 0 <= j < i :: HashOf(c, lead[j]) == lead[i].header.previousHash
  }

  /** Each block comes after its parent, which is genesis or among them. */
  predicate SelfContained(c: Crypto, genesis: Block, lead: seq<Block>) {
    forall i | 0 <= i < |lead| :: ParentBefore(c, genesis, lead, i)
  }

  predicate Hashed(c: Crypto, t: Tree) {
    forall h | h in t :: HashOf(c, t[h]) == h
  }

  /** Some of the blocks may be delivered ahead, parents first, and then all of them. */
  lemma LeadIsAnOrder(c: Crypto, genesis: Block, lead: seq<Block>, bs: seq<Block>)
    requires ParentFirst(c, genesis, bs) && SelfContained(c, genesis, lead) && forall b | b in lead :: b in bs
    ensures ParentFirst(c, genesis, lead + bs) && SameMembers(lead + bs, bs)
  {
    hide TreeOf;
    var order, n := lead + bs, |lead|;
    assert forall b :: b in order <==> b in bs;
    assert NoCollisions(c, genesis, order) by {
      assert forall i | 0 <= i < |order| :: order[i] in bs;
    }
    forall i | 0 <= i < |order|
      ensures Deliverable(c, genesis, order, i)
    {
      var prev := order[i].header.previousHash;
      TreeOfMembers(c, genesis, order, i, prev);
      if i < n {
        assert ParentBefore(c, genesis, lead, i) && order[i] in bs;
        var k :| 0 <= k < |bs| && bs[k] == order[i];
        assert Deliverable(c, genesis, bs, k);
        if prev != HashOf(c, genesis) {
          var j :| 0 <= j < i && HashOf(c, lead[j]) == prev;
          assert HashOf(c, order[j]) == prev;
        }
      } else {
        assert Deliverable(c, genesis, bs, i - n);
        TreeOfMembers(c, genesis, bs, i - n, prev);
        if prev != HashOf(c, genesis) {
          var j :| 0 <= j < i - n && HashOf(c, bs[j]) == prev;
          assert HashOf(c, order[n + j]) == prev;
        }
      }
    }
  }

  /** The path to a block is its ancestors, turned round and without genesis. */
  lemma {:induction false} PathIsAncestors(o: Origin, t: Tree, h: Hash)
    requires WellFounded(t) && SingleRoot(o, t) && GenesisOk(o, t) && h in t
    ensures
      var p, a := PathTo(t, o.genesis, h), Ancestors(t, h);
      && |a| == |p| + 1 && a[|p|] == o.genesis
      && forall k | 0 <= k < |p| :: a[k] in t && t[a[k]] == p[|p| - 1 - k]
    decreases Depth(t, h)
  {
    if h != o.genesis {
      var prev := Prev(t, h);
      PathIsAncestors(o, t, prev);
      var p, q, a := PathTo(t, o.genesis, h), PathTo(t, o.genesis, prev), Ancestors(t, h);
      assert a == [h] + Ancestors(t, prev) && p == q + [t[h]];
      forall k | 0 <= k < |p|
        ensures a[k] in t && t[a[k]] == p[|p| - 1 - k]
      {
        if k > 0 { assert a[k] == Ancestors(t, prev)[k - 1]; }
      }
    }
  }

  /** The blocks on a path, each with its parent. */
  lemma PathAt(o: Origin, t: Tree, h: Hash, k: nat)
    requires WellFounded(t) && SingleRoot(o, t) && GenesisOk(o, t) && Hashed(o.c, t) && h in t
    requires k < |PathTo(t, o.genesis, h)|
    ensures
      var p := PathTo(t, o.genesis, h);
      var x := HashOf(o.c, p[k]);
      && x in t && t[x] == p[k] && x in Ancestors(t, h) && (x == h <==> k == |p| - 1) && x != o.genesis
      && Prev(t, x) == (if k == 0 then o.genesis else HashOf(o.c, p[k - 1]))
  {
    hide Acyclic, Closed, Ancestors, PathTo;
    PathIsAncestors(o, t, h);
    var p, a := PathTo(t, o.genesis, h), Ancestors(t, h);
    var m := |p| - 1 - k;
    assert t[a[m]] == p[k];
    AncestorsLinked(t, h, m);
    AncestorsDistinct(t, h, m, |p|);
    if k < |p| - 1 { AncestorsDistinct(t, h, 0, m); }
  }

  lemma PathIsSelfContained(o: Origin, genesis: Block, t: Tree, h: Hash)
    requires WellFounded(t) && SingleRoot(o, t) && GenesisOk(o, t) && Hashed(o.c, t) && h in t
    requires o.genesis == HashOf(o.c, genesis)
    ensures SelfContained(o.c, genesis, PathTo(t, o.genesis, h))
  {
    hide PathTo, Acyclic, Closed;
    var p := PathTo(t, o.genesis, h);
    forall i | 0 <= i < |p|
      ensures ParentBefore(o.c, genesis, p, i)
    {
      PathAt(o, t, h, i);
    }
  }

  lemma ConcatIsSelfContained(c: Crypto, genesis: Block, p: seq<Block>, q: seq<Block>)
    requires SelfContained(c, genesis, p) && SelfContained(c, genesis, q)
    ensures SelfContained(c, genesis, p + q)
  {
    forall i | 0 <= i < |p + q|
      ensures ParentBefore(c, genesis, p + q, i)
    {
      if i < |p| {
        assert ParentBefore(c, genesis, p, i);
        if p[i].header.previousHash != HashOf(c, genesis) {
          var j :| 0 <= j < i && HashOf(c, p[j]) == p[i].header.previousHash;
          assert (p + q)[j] == p[j];
        }
      } else {
        assert ParentBefore(c, genesis, q, i - |p|);
        if q[i - |p|].header.previousHash != HashOf(c, genesis) {
          var j :| 0 <= j < i - |p| && HashOf(c, q[j]) == q[i - |p|].header.previousHash;
          assert (p + q)[|p| + j] == q[j];
        }
      }
    }
  }

  /** Every list of deliveries has a run. */
  lemma {:induction false} RunExists(c: Crypto, genesis: Block, ledger: LedgerState, bs: seq<Block>, n: nat)
      returns (nodes: seq<Node>)
    requires NoZeroHash(c) && IsGenesis(genesis) && n <= |bs|
    ensures Run(c, genesis, ledger, Deliveries(bs[..n]), nodes)
  {
    hide StoreOk, Receive, NoZeroHash, Acyclic;
    if n == 0 {
      nodes := [Node(NewStore(c, genesis), ledger)];
    } else {
      var before := RunExists(c, genesis, ledger, bs, n - 1);
      RunKeepsStore(c, genesis, ledger, Deliveries(bs[..n - 1]), before, n - 1, n - 1);
      AddBlockIsAcyclic(c, before[n - 1].store, bs[n - 1]);
      nodes := before + [Receive(c, before[n - 1], bs[n - 1]).0];
      forall i | 0 <= i < n
        ensures Step(c, nodes[i], Deliveries(bs[..n])[i], nodes[i + 1])
      {
        if i < n - 1 { assert Step(c, before[i], Deliveries(bs[..n - 1])[i], before[i + 1]); }
      }
    }
  }

  // ----- A deep overtake has an order in which it is rejected

  lemma {:induction false} WorkAlong(t: Tree, h: Hash, x: Hash)
    requires WellFounded(t) && h in t && x in Ancestors(t, h)
    ensures x in t && PathWork(t, x) <= PathWork(t, h)
    decreases Depth(t, h)
  {
    if x != h { WorkAlong(t, Prev(t, h), x); }
  }

  /** The entry of the tip carries its work in any larger tree. */
  lemma TipWorkIn(c: Crypto, s: Store, t: Tree, h: Hash)
    requires StoreOk(c, s) && WellFounded(t) && Extends(s.cache, t)
    ensures s.tip in s.cache && s.tipWork == WorkOf(t, s.tip)
    ensures h in s.cache ==> h in s.blocks && s.blocks[h].accumulatedWork == WorkOf(t, h)
  {
    hide Acyclic, PathWork, EntryOk;
    EntryWork(c, s, s.tip);
    PathWorkExtend(s.cache, t, s.tip);
    if h in s.cache {
      EntryWork(c, s, h);
      PathWorkExtend(s.cache, t, h);
    }
  }

  lemma SubtreeHasSingleRoot(o: Origin, t: Tree, t': Tree)
    requires Extends(t, t') && SingleRoot(o, t')
    ensures SingleRoot(o, t)
  {
  }

  /** An accepted ancestor of the overtaking block, below it, leaves the tip on the other branch. */
  lemma TipStaysPut(o: Origin, t: Tree, n: Node, z: Block, x: Hash, y: Hash)
    requires StoreOk(o.c, n.store) && WellFounded(t) && SingleRoot(o, t) && Overtakes(t, x, y)
    requires Acyclic(n.store.cache) && Acyclic(AddBlock(o.c, n.store, z).0.cache) && Accepted(o.c, n, z)
    requires Extends(n.store.cache, t) && Extends(Receive(o.c, n, z).0.store.cache, t)
    requires n.store.tip == y && HashOf(o.c, z) in Ancestors(t, Prev(t, x))
    ensures Receive(o.c, n, z).0.store.tip == y
  {
    hide StoreOk, Acyclic, Closed, Receive, Inserts, PathWork, Ancestors, SingleRoot;
    var s', h := Receive(o.c, n, z).0.store, HashOf(o.c, z);
    if Inserts(o.c, n, z) {
      SubtreeHasSingleRoot(o, n.store.cache, t);
      AcceptedMovesTip(o, n, z);
      ReceiveKeepsStore(o.c, n, z);
      if s'.tip == h {
        TipWorkIn(o.c, n.store, t, n.store.tip);
        TipWorkIn(o.c, s', t, h);
        WorkAlong(t, Prev(t, x), h);
        assert z == t[h];
        NextIsAncestor(t, x, h);
      }
    } else {
      NotInserted(o.c, n, z);
    }
  }

  /** With a proper ancestor, its parent is an ancestor too. */
  lemma NextIsAncestor(t: Tree, x: Hash, h: Hash)
    requires WellFounded(t) && x in t && Prev(t, x) in t && h in Ancestors(t, Prev(t, x))
    ensures h in t && h in Ancestors(t, x) && (Prev(t, h) in t ==> Prev(t, h) in Ancestors(t, x))
  {
    hide Acyclic, Closed, Ancestors;
    AncestorsStep(t, x);
    PrevIsNotZero(t, x);
    var a := Ancestors(t, Prev(t, x));
    var k :| 0 <= k < |a| && a[k] == h;
    AncestorsLinked(t, Prev(t, x), k);
    if Prev(t, h) in t { PrevIsNotZero(t, h); }
  }

  /** If the overtaking block itself is accepted, its plan was within the cap. */
  lemma OvertakeIsShort(o: Origin, t: Tree, n: Node, b: Block, y: Hash)
    requires StoreOk(o.c, n.store) && WellFounded(t) && SingleRoot(o, t) && o.c.powOk(b)
    requires Acyclic(n.store.cache) && Acyclic(AddBlock(o.c, n.store, b).0.cache) && Accepted(o.c, n, b)
    requires Extends(n.store.cache, t) && Extends(Receive(o.c, n, b).0.store.cache, t)
    requires HashOf(o.c, b) !in n.store.cache && b.header.previousHash in n.store.cache && n.store.tip == y
    requires HashOf(o.c, b) in t && t[HashOf(o.c, b)] == b && Overtakes(t, HashOf(o.c, b), y)
    ensures ShortOf(t, HashOf(o.c, b), y) && ShortOf(t, y, HashOf(o.c, b))
  {
    hide BlocksOk, OrphansOk, RestorableDiffs, Acyclic, Closed, Receive, PathWork, Ancestors, SingleRoot, Decide,
        WorkOf, ShortOf;
    var s', x, prev := AddBlock(o.c, n.store, b).0, HashOf(o.c, b), b.header.previousHash;
    StoredAreEntered(o.c, n.store);
    InsertDecides(o.c, n, b);
    TipWorkIn(o.c, s', t, x);
    WorkOfStored(o.c, s', b);
    AncestorsStep(t, x);
    PrevIsNotZero(t, x);
    assert prev != y;
    SubtreeHasSingleRoot(o, s'.cache, t);
    ForkExists(o, s'.cache, prev, y);
    DecidedIsShort(o.c, n.(store := s'), b);
    var i, j := ForkIndices(s'.cache, prev, y);
    AncestorsExtend(s'.cache, t, prev);
    AncestorsExtend(s'.cache, t, y);
    ShortFromPlan(t, x, y, i, j);
  }

  lemma WorkOfStored(c: Crypto, s: Store, b: Block)
    requires StoreOk(c, s) && HashOf(c, b) in s.cache && s.cache[HashOf(c, b)] == b && b.header.previousHash in s.cache
    ensures s.blocks[HashOf(c, b)].accumulatedWork == SatAdd(s.blocks[b.header.previousHash].accumulatedWork,
        BlockWork(b.header))
    ensures b.header.previousHash in s.blocks
  {
    WorkOfChild(c, s, b);
  }

  lemma DecidedIsShort(c: Crypto, n: Node, b: Block)
    requires Acyclic(n.store.cache) && Decide(c, n, b).1 == None
    requires b.header.previousHash in n.store.cache && b.header.previousHash in n.store.blocks
    requires b.header.previousHash != n.store.tip && FindLca(n.store.cache, b.header.previousHash, n.store.tip).Some?
    requires SatAdd(n.store.blocks[b.header.previousHash].accumulatedWork, BlockWork(b.header)) > n.store.tipWork
    ensures
      var fork := FindLca(n.store.cache, b.header.previousHash, n.store.tip).value;
      && |ChainToFork(n.store.cache, n.store.tip, fork)| <= MAX_REORG
      && |ChainToFork(n.store.cache, b.header.previousHash, fork)| < MAX_REORG
  {
    hide FindLca, ChainToFork, ReorgInner, Acyclic, ExtendTip;
  }

  lemma ShortFromPlan(t: Tree, x: Hash, y: Hash, i: nat, j: nat)
    requires WellFounded(t) && x in t && y in t && Prev(t, x) in t
    requires i < |Ancestors(t, y)| && j < |Ancestors(t, Prev(t, x))|
    requires Ancestors(t, y)[i] == Ancestors(t, Prev(t, x))[j] && i <= MAX_REORG && j < MAX_REORG
    ensures ShortOf(t, x, y) && ShortOf(t, y, x)
  {
    hide Acyclic, Closed, Ancestors;
    var up, down := Ancestors(t, Prev(t, x)), Ancestors(t, y);
    AncestorsStep(t, x);
    PrevIsNotZero(t, x);
    AncestorsSuffix(t, y, i);
    AncestorsSuffix(t, Prev(t, x), j);
    assert up[j..] == down[i..];
    if |up| + 1 > MAX_REORG { assert down[i..][MAX_REORG - 1 - j] == up[MAX_REORG - 1]; }
    if |down| > MAX_REORG { assert up[j..][MAX_REORG - i] == down[MAX_REORG]; }
  }

  /** The tree that a parent-first list of blocks leaves, whatever the order. */
  lemma TreeFacts(o: Origin, genesis: Block, ledger: LedgerState, bs: seq<Block>, nodes: seq<Node>)
    requires NoZeroHash(o.c) && IsGenesis(genesis) && ParentFirst(o.c, genesis, bs)
    requires o == OriginOf(o.c, genesis, ledger) && Run(o.c, genesis, ledger, Deliveries(bs), nodes)
    ensures
      var t := TreeOf(o.c, genesis, bs, |bs|);
      WellFounded(t) && SingleRoot(o, t) && GenesisOk(o, t) && Hashed(o.c, t)
  {
    hide StoreOk, Step, NoZeroHash, NoCollisions, Deliverable, TreeOf, Acyclic, Closed;
    DeliveredTree(o.c, genesis, ledger, bs, nodes, |bs|);
    RunKeepsStore(o.c, genesis, ledger, Deliveries(bs), nodes, |bs|, |bs|);
    TreesAreWellFounded(o.c, nodes[|bs|].store, nodes[|bs|].store);
    TreeOfHasSingleRoot(o, o.c, genesis, bs);
    TreeOfMembers(o.c, genesis, bs, |bs|, o.genesis);
    StoredUnderHash(o.c, nodes[|bs|].store);
  }

  lemma StoredUnderHash(c: Crypto, s: Store)
    requires StoreOk(c, s)
    ensures Hashed(c, s.cache)
  {
    forall h | h in s.cache
      ensures HashOf(c, s.cache[h]) == h
    {
      assert EntryOk(c, s.blocks, s.cache, h, PathWork(s.cache, h));
    }
  }

  /** The states of a run while the first `k` blocks of an order are delivered without a rejection. */
  lemma OnTheWay(o: Origin, genesis: Block, ledger: LedgerState, bs: seq<Block>, nodes: seq<Node>, k: nat)
    requires NoZeroHash(o.c) && IsGenesis(genesis) && ParentFirst(o.c, genesis, bs) && k <= |bs|
    requires o == OriginOf(o.c, genesis, ledger) && Run(o.c, genesis, ledger, Deliveries(bs), nodes)
    requires forall i | 0 <= i < k :: Accepted(o.c, nodes[i], bs[i])
    ensures
      var s := nodes[k].store;
      && StoreOk(o.c, s) && TipIsLeaf(s) && s.tip in s.cache && s.cache == TreeOf(o.c, genesis, bs, k)
      && Extends(s.cache, TreeOf(o.c, genesis, bs, |bs|))
  {
    hide StoreOk, Step, NoZeroHash, NoCollisions, Deliverable, TreeOf, Accepted, TipIsLeaf, Extends;
    RunKeepsStore(o.c, genesis, ledger, Deliveries(bs), nodes, k, |bs|);
    DeliveredTree(o.c, genesis, ledger, bs, nodes, k);
    DeliveredTree(o.c, genesis, ledger, bs, nodes, |bs|);
    RunPrefix(o.c, genesis, ledger, bs, nodes, k);
    TipIsHeaviest(o.c, genesis, ledger, bs[..k], nodes[..k + 1], k);
    TipEntry(o.c, nodes[k].store);
    StoredAreEntered(o.c, nodes[k].store);
  }

  /** A block below the last one of a path is the parent of the next one on it. */
  lemma NextOnPath(o: Origin, t: Tree, h: Hash, k: int, x: Hash)
    requires WellFounded(t) && SingleRoot(o, t) && GenesisOk(o, t) && Hashed(o.c, t) && h in t && x != h
    requires
      var p := PathTo(t, o.genesis, h);
      -1 <= k < |p| && x == if k == -1 then o.genesis else HashOf(o.c, p[k])
    ensures
      var p := PathTo(t, o.genesis, h);
      && k + 1 < |p| && HashOf(o.c, p[k + 1]) in t && t[HashOf(o.c, p[k + 1])] == p[k + 1]
      && p[k + 1].header.previousHash == x
  {
    hide Acyclic, Closed, PathTo, Ancestors;
    if k >= 0 { PathAt(o, t, h, k); } else { PathStarts(o, t, h); }
    PathAt(o, t, h, k + 1);
  }

  lemma PathStarts(o: Origin, t: Tree, h: Hash)
    requires Acyclic(t) && h in t && h != o.genesis
    ensures PathTo(t, o.genesis, h) != []
  {
  }

  /** Delivered along its path, an accepted block becomes the tip: the tip has no children. */
  lemma PathMakesTip(o: Origin, genesis: Block, ledger: LedgerState, bs: seq<Block>, nodes: seq<Node>, y: Hash)
    requires NoZeroHash(o.c) && IsGenesis(genesis) && ParentFirst(o.c, genesis, bs)
    requires o == OriginOf(o.c, genesis, ledger) && Run(o.c, genesis, ledger, Deliveries(bs), nodes)
    requires Acyclic(TreeOf(o.c, genesis, bs, |bs|)) && y in TreeOf(o.c, genesis, bs, |bs|)
    requires
      var py := PathTo(TreeOf(o.c, genesis, bs, |bs|), o.genesis, y);
      py <= bs && forall i | 0 <= i < |py| :: Accepted(o.c, nodes[i], bs[i])
    ensures
      var py := PathTo(TreeOf(o.c, genesis, bs, |bs|), o.genesis, y);
      nodes[|py|].store.tip == y
  {
    hide StoreOk, Step, NoZeroHash, NoCollisions, Deliverable, TreeOf, Accepted, Acyclic, Closed, PathTo, Ancestors;
    var t := TreeOf(o.c, genesis, bs, |bs|);
    var py := PathTo(t, o.genesis, y);
    var s := nodes[|py|].store;
    TreeFacts(o, genesis, ledger, bs, nodes);
    OnTheWay(o, genesis, ledger, bs, nodes, |py|);
    TreeOfMembers(o.c, genesis, bs, |py|, s.tip);
    if s.tip != y {
      var k := -1;
      if s.tip != o.genesis { k :| 0 <= k < |py| && HashOf(o.c, bs[k]) == s.tip; }
      NextOnPath(o, t, y, k, s.tip);
      TreeOfMembers(o.c, genesis, bs, |py|, HashOf(o.c, bs[k + 1]));
    }
  }

  /** After that, the path to an overtaking block leaves the tip alone until the block itself comes. */
  lemma {:induction false} PathLeavesTip(o: Origin, genesis: Block, ledger: LedgerState, bs: seq<Block>,
      nodes: seq<Node>, x: Hash, y: Hash, k: nat)
    requires NoZeroHash(o.c) && IsGenesis(genesis) && ParentFirst(o.c, genesis, bs)
    requires o == OriginOf(o.c, genesis, ledger) && Run(o.c, genesis, ledger, Deliveries(bs), nodes)
    requires Acyclic(TreeOf(o.c, genesis, bs, |bs|)) && Overtakes(TreeOf(o.c, genesis, bs, |bs|), x, y)
    requires
      var t := TreeOf(o.c, genesis, bs, |bs|);
      var (py, px) := (PathTo(t, o.genesis, y), PathTo(t, o.genesis, x));
      && py + px <= bs && k < |px| && forall i | 0 <= i < |py| + |px| :: Accepted(o.c, nodes[i], bs[i])
    ensures nodes[|PathTo(TreeOf(o.c, genesis, bs, |bs|), o.genesis, y)| + k].store.tip == y
  {
    hide StoreOk, Receive, NoZeroHash, NoCollisions, Deliverable, TreeOf, Accepted, Acyclic, Closed, PathTo, Ancestors,
        Overtakes, Extends, SingleRoot;
    var t := TreeOf(o.c, genesis, bs, |bs|);
    var (py, px) := (PathTo(t, o.genesis, y), PathTo(t, o.genesis, x));
    if k == 0 {
      assert py <= bs;
      OvertakesInTree(t, x, y);
      PathMakesTip(o, genesis, ledger, bs, nodes, y);
    } else {
      PathLeavesTip(o, genesis, ledger, bs, nodes, x, y, k - 1);
      var m := |py| + k - 1;
      assert bs[m] == (py + px)[m] == px[k - 1];
      TreeFacts(o, genesis, ledger, bs, nodes);
      OnTheWay(o, genesis, ledger, bs, nodes, m);
      OnTheWay(o, genesis, ledger, bs, nodes, m + 1);
      assert Step(o.c, nodes[m], Deliveries(bs)[m], nodes[m + 1]);
      OvertakesInTree(t, x, y);
      BelowOnPath(o, t, x, k - 1);
      TipStaysPut(o, t, nodes[m], bs[m], x, y);
    }
  }

  lemma OvertakesInTree(t: Tree, x: Hash, y: Hash)
    requires Acyclic(t) && Overtakes(t, x, y)
    ensures x in t && y in t && Prev(t, x) in t && x !in Ancestors(t, y) && y !in Ancestors(t, x)
  {
  }

  lemma BelowOnPath(o: Origin, t: Tree, x: Hash, k: nat)
    requires WellFounded(t) && SingleRoot(o, t) && GenesisOk(o, t) && Hashed(o.c, t) && x in t && Prev(t, x) in t
    requires k + 1 < |PathTo(t, o.genesis, x)|
    ensures HashOf(o.c, PathTo(t, o.genesis, x)[k]) in Ancestors(t, Prev(t, x))
  {
    hide Acyclic, Closed, PathTo, Ancestors;
    PathAt(o, t, x, k);
    AncestorsStep(t, x);
  }

  /** A deep overtake, valid or not: delivered along the path of the overtaken block and then along its own, the
      overtaking block or one below it is rejected, whatever is delivered afterwards. */
  lemma DeepOvertakeIsRejected(o: Origin, genesis: Block, ledger: LedgerState, bs: seq<Block>, nodes: seq<Node>,
      x: Hash, y: Hash)
    requires NoZeroHash(o.c) && IsGenesis(genesis) && ParentFirst(o.c, genesis, bs)
    requires o == OriginOf(o.c, genesis, ledger) && Run(o.c, genesis, ledger, Deliveries(bs), nodes)
    requires
      var t := TreeOf(o.c, genesis, bs, |bs|);
      && Acyclic(t) && Overtakes(t, x, y) && !(ShortOf(t, x, y) && ShortOf(t, y, x))
      && PathTo(t, o.genesis, y) + PathTo(t, o.genesis, x) <= bs
    ensures
      var t := TreeOf(o.c, genesis, bs, |bs|);
      exists i | 0 <= i < |PathTo(t, o.genesis, y) + PathTo(t, o.genesis, x)| :: !Accepted(o.c, nodes[i], bs[i])
  {
    hide StoreOk, Receive, NoZeroHash, NoCollisions, TreeOf, Accepted, Acyclic, Closed, PathTo, Ancestors, Overtakes,
        Extends, ShortOf, SingleRoot, GenesisOk, Hashed;
    var t := TreeOf(o.c, genesis, bs, |bs|);
    var (py, px) := (PathTo(t, o.genesis, y), PathTo(t, o.genesis, x));
    if forall i | 0 <= i < |py + px| :: Accepted(o.c, nodes[i], bs[i]) {
      TreeFacts(o, genesis, ledger, bs, nodes);
      OvertakesInTree(t, x, y);
      PathIsNotEmpty(o, t, x, y);
      var k := |px| - 1;
      var m := |py| + k;
      assert bs[m] == (py + px)[m] == px[k];
      PathLeavesTip(o, genesis, ledger, bs, nodes, x, y, k);
      OnTheWay(o, genesis, ledger, bs, nodes, m);
      OnTheWay(o, genesis, ledger, bs, nodes, m + 1);
      assert Step(o.c, nodes[m], Deliveries(bs)[m], nodes[m + 1]);
      PathAt(o, t, x, k);
      NotYetDelivered(o, genesis, ledger, bs, nodes, x, y, m);
      assert Deliverable(o.c, genesis, bs, m);
      OvertakeIsShort(o, t, nodes[m], bs[m], y);
    }
  }

  lemma PathIsNotEmpty(o: Origin, t: Tree, x: Hash, y: Hash)
    requires WellFounded(t) && SingleRoot(o, t) && GenesisOk(o, t) && x in t && y in t && x !in Ancestors(t, y)
    ensures x != o.genesis && PathTo(t, o.genesis, x) != []
  {
    hide Acyclic, Ancestors;
    GenesisIsAncestor(o, t, y);
  }

  /** The overtaking block is not delivered before it comes on its own path. */
  lemma NotYetDelivered(o: Origin, genesis: Block, ledger: LedgerState, bs: seq<Block>, nodes: seq<Node>,
      x: Hash, y: Hash, m: nat)
    requires NoZeroHash(o.c) && IsGenesis(genesis) && ParentFirst(o.c, genesis, bs)
    requires o == OriginOf(o.c, genesis, ledger) && Run(o.c, genesis, ledger, Deliveries(bs), nodes)
    requires
      var t := TreeOf(o.c, genesis, bs, |bs|);
      && Acyclic(t) && x in t && y in t && x !in Ancestors(t, y)
      && PathTo(t, o.genesis, y) + PathTo(t, o.genesis, x) <= bs
      && m + 1 == |PathTo(t, o.genesis, y) + PathTo(t, o.genesis, x)|
    ensures x !in TreeOf(o.c, genesis, bs, m)
  {
    hide StoreOk, Step, NoZeroHash, TreeOf, Acyclic, Closed, PathTo, Ancestors;
    var t := TreeOf(o.c, genesis, bs, |bs|);
    var (py, px) := (PathTo(t, o.genesis, y), PathTo(t, o.genesis, x));
    TreeFacts(o, genesis, ledger, bs, nodes);
    TreeOfMembers(o.c, genesis, bs, m, x);
    PathIsNotEmpty(o, t, x, y);
    if x in TreeOf(o.c, genesis, bs, m) {
      var i :| 0 <= i < m && HashOf(o.c, bs[i]) == x;
      assert bs[i] == (py + px)[i];
      if i < |py| { PathAt(o, t, y, i); } else { PathAt(o, t, x, i - |py|); }
    }
  }

  // ----- Exactly when

  /** A run over the blocks of `bs`, delivered in some order that puts parents first, possibly repeatedly. */
  ghost predicate Order(c: Crypto, genesis: Block, ledger: LedgerState, bs: seq<Block>, order: seq<Block>,
      nodes: seq<Node>)
  {
    ParentFirst(c, genesis, order) && SameMembers(order, bs) && Run(c, genesis, ledger, Deliveries(order), nodes)
  }

  /** No block that is valid in the tree is rejected on its arrival. */
  ghost predicate NoValidRejected(o: Origin, t: Tree, bs: seq<Block>, nodes: seq<Node>) {
    && Acyclic(t) && |nodes| == |bs| + 1
    && forall i | 0 <= i < |bs| && ValidIn(o, t, HashOf(o.c, bs[i])) :: Accepted(o.c, nodes[i], bs[i])
  }

  lemma PathIsAmong(o: Origin, genesis: Block, bs: seq<Block>, h: Hash, b: Block)
    requires o.genesis == HashOf(o.c, genesis) && NoCollisions(o.c, genesis, bs)
    requires
      var t := TreeOf(o.c, genesis, bs, |bs|);
      && WellFounded(t) && SingleRoot(o, t) && GenesisOk(o, t) && Hashed(o.c, t) && h in t
      && b in PathTo(t, o.genesis, h)
    ensures b in bs && HashOf(o.c, b) in Ancestors(TreeOf(o.c, genesis, bs, |bs|), h)
  {
    hide NoCollisions, TreeOf, Acyclic, PathTo, Ancestors;
    var t := TreeOf(o.c, genesis, bs, |bs|);
    var k :| 0 <= k < |PathTo(t, o.genesis, h)| && PathTo(t, o.genesis, h)[k] == b;
    PathAt(o, t, h, k);
    TreeOfMembers(o.c, genesis, bs, |bs|, HashOf(o.c, b));
  }

  /** The order in which a deep overtake is rejected. */
  lemma DeepOvertakeHasAnOrder(o: Origin, genesis: Block, ledger: LedgerState, bs: seq<Block>, x: Hash, y: Hash)
      returns (order: seq<Block>, nodes: seq<Node>, i: nat)
    requires NoZeroHash(o.c) && IsGenesis(genesis) && ParentFirst(o.c, genesis, bs)
        && o == OriginOf(o.c, genesis, ledger)
    requires
      var t := TreeOf(o.c, genesis, bs, |bs|);
      Acyclic(t) && Overtakes(t, x, y) && !(ShortOf(t, x, y) && ShortOf(t, y, x))
    ensures Order(o.c, genesis, ledger, bs, order, nodes)
    ensures i < |order| && !Accepted(o.c, nodes[i], order[i])
    ensures
      var t, h := TreeOf(o.c, genesis, bs, |bs|), HashOf(o.c, order[i]);
      WellFounded(t) && GenesisOk(o, t) && (h in Ancestors(t, x) || h in Ancestors(t, y))
  {
    hide Step, NoZeroHash, TreeOf, Accepted, Acyclic, Closed, PathTo, Ancestors, Overtakes, ShortOf, SingleRoot, Hashed,
        NoCollisions, SelfContained, Deliverable, ParentFirst, SameMembers;
    var t := TreeOf(o.c, genesis, bs, |bs|);
    var first := RunExists(o.c, genesis, ledger, bs, |bs|);
    assert bs[..|bs|] == bs;
    TreeFacts(o, genesis, ledger, bs, first);
    OvertakesInTree(t, x, y);
    ParentFirstHasNoCollisions(o.c, genesis, bs);
    var lead := PathTo(t, o.genesis, y) + PathTo(t, o.genesis, x);
    forall b | b in lead
      ensures b in bs && (HashOf(o.c, b) in Ancestors(t, x) || HashOf(o.c, b) in Ancestors(t, y))
    {
      PathIsAmong(o, genesis, bs, if b in PathTo(t, o.genesis, y) then y else x, b);
    }
    PathIsSelfContained(o, genesis, t, x);
    PathIsSelfContained(o, genesis, t, y);
    ConcatIsSelfContained(o.c, genesis, PathTo(t, o.genesis, y), PathTo(t, o.genesis, x));
    LeadIsAnOrder(o.c, genesis, lead, bs);
    order := lead + bs;
    ParentFirstHasNoCollisions(o.c, genesis, order);
    TreeOfIsASet(o.c, genesis, order, bs);
    nodes := RunExists(o.c, genesis, ledger, order, |order|);
    assert order[..|order|] == order && lead <= order;
    DeepOvertakeIsRejected(o, genesis, ledger, order, nodes, x, y);
    i :| 0 <= i < |lead| && !Accepted(o.c, nodes[i], order[i]);
    assert order[i] == lead[i];
  }

  lemma ParentFirstHasNoCollisions(c: Crypto, genesis: Block, bs: seq<Block>)
    requires ParentFirst(c, genesis, bs)
    ensures NoCollisions(c, genesis, bs)
  {
  }

  /** What every order leads to, if overtakes are shallow. */
  lemma ShallowRejectsNone(c: Crypto, genesis: Block, ledger: LedgerState, bs: seq<Block>, order: seq<Block>,
      nodes: seq<Node>)
    requires NoZeroHash(c) && IsGenesis(genesis) && ParentFirst(c, genesis, bs)
    requires Order(c, genesis, ledger, bs, order, nodes)
    requires
      var o, t := OriginOf(c, genesis, ledger), TreeOf(c, genesis, bs, |bs|);
      SafeTree(o, t) && ShallowAmongValid(o, t)
    ensures NoValidRejected(OriginOf(c, genesis, ledger), TreeOf(c, genesis, bs, |bs|), order, nodes)
  {
    hide Step, NoZeroHash, TreeOf, Accepted, Acyclic, SafeTree, ShallowAmongValid, ReplayTo, NoCollisions, Deliverable,
        TipLeads;
    TreeOfIsASet(c, genesis, order, bs);
    DeliveredTree(c, genesis, ledger, order, nodes, |order|);
    TipLeadsValid(c, genesis, ledger, order, nodes, |order|);
    ShallowIsAcyclic(OriginOf(c, genesis, ledger), TreeOf(c, genesis, bs, |bs|));
  }

  lemma ShallowIsAcyclic(o: Origin, t: Tree)
    requires ShallowAmongValid(o, t) || SafeTree(o, t)
    ensures Acyclic(t)
  {
  }

  /** For every set of blocks that are reversible where they apply, invalid ones included: no order of delivery has a
      valid block rejected if and only if, wherever one valid branch overtakes another, neither has left the other
      more than 100 blocks ago. */
  lemma ValidIsNeverRejectedExactly(c: Crypto, genesis: Block, ledger: LedgerState, bs: seq<Block>)
    requires NoZeroHash(c) && IsGenesis(genesis) && ParentFirst(c, genesis, bs)
    requires SafeTree(OriginOf(c, genesis, ledger), TreeOf(c, genesis, bs, |bs|))
    ensures
      var o, t := OriginOf(c, genesis, ledger), TreeOf(c, genesis, bs, |bs|);
      (forall order, nodes | Order(c, genesis, ledger, bs, order, nodes) :: NoValidRejected(o, t, order, nodes))
      <==> ShallowAmongValid(o, t)
  {
    hide NoZeroHash, TreeOf, Accepted, Acyclic, SafeTree, ReplayTo, ParentFirst, Order, Overtakes, ShortOf, Ancestors;
    var o, t := OriginOf(c, genesis, ledger), TreeOf(c, genesis, bs, |bs|);
    ShallowIsAcyclic(o, t);
    if ShallowAmongValid(o, t) {
      forall order, nodes | Order(c, genesis, ledger, bs, order, nodes)
        ensures NoValidRejected(o, t, order, nodes)
      {
        ShallowRejectsNone(c, genesis, ledger, bs, order, nodes);
      }
    } else {
      var x: Hash, y: Hash :|
        ValidIn(o, t, x) && ValidIn(o, t, y) && Overtakes(t, x, y) && !(ShortOf(t, x, y) && ShortOf(t, y, x));
      var order, nodes, i := DeepOvertakeHasAnOrder(o, genesis, ledger, bs, x, y);
      ValidAncestors(o, t, if HashOf(c, order[i]) in Ancestors(t, x) then x else y, HashOf(c, order[i]));
      assert !NoValidRejected(o, t, order, nodes);
    }
  }

  /** Where all blocks are valid, no order has any block rejected if and only if overtakes are shallow. */
  lemma NoneIsRejectedExactly(c: Crypto, genesis: Block, ledger: LedgerState, bs: seq<Block>)
    requires NoZeroHash(c) && IsGenesis(genesis) && ParentFirst(c, genesis, bs)
    requires AllValid(OriginOf(c, genesis, ledger), TreeOf(c, genesis, bs, |bs|))
    ensures
      (forall order, nodes | Order(c, genesis, ledger, bs, order, nodes) ::
          |nodes| == |order| + 1 && NoneRejected(c, order, nodes))
      <==> ShallowOvertakes(TreeOf(c, genesis, bs, |bs|))
  {
    hide NoZeroHash, TreeOf, Accepted, Acyclic, AllValid, ShallowOvertakes, ReplayTo, ParentFirst, Step, SameMembers;
    var o, t := OriginOf(c, genesis, ledger), TreeOf(c, genesis, bs, |bs|);
    AllValidIsShallow(o, t);
    ValidIsNeverRejectedExactly(c, genesis, ledger, bs);
    forall order, nodes | Order(c, genesis, ledger, bs, order, nodes)
      ensures |nodes| == |order| + 1 && (NoneRejected(c, order, nodes) <==> NoValidRejected(o, t, order, nodes))
    {
      OrderIsStored(c, genesis, bs, order);
      ShallowIsAcyclic(o, t);
      forall i | 0 <= i < |order|
        ensures ValidIn(o, t, HashOf(c, order[i]))
      {
      }
    }
  }

  lemma OrderIsStored(c: Crypto, genesis: Block, bs: seq<Block>, order: seq<Block>)
    requires ParentFirst(c, genesis, bs) && SameMembers(order, bs)
    ensures forall i | 0 <= i < |order| :: HashOf(c, order[i]) in TreeOf(c, genesis, bs, |bs|)
  {
    hide TreeOf, NoCollisions;
    forall i | 0 <= i < |order|
      ensures HashOf(c, order[i]) in TreeOf(c, genesis, bs, |bs|)
    {
      assert order[i] in bs;
      var k :| 0 <= k < |bs| && bs[k] == order[i];
      TreeOfMembers(c, genesis, bs, |bs|, HashOf(c, order[i]));
    }
  }
}
