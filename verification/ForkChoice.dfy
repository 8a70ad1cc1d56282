/** The fork choice: as long as no inserted block is rejected, the tip is a heaviest stored block, and
    among equally heavy ones the first that arrived. Nothing is asked of the blocks themselves. */
module ForkChoice {
  import opened Types
  import opened Ledger
  import opened BlockTree
  import opened Chain
  import opened Replay
  import opened NodeProofs
  import opened Runs

  predicate Heaviest(s: Store) {
    forall h | h in s.blocks :: s.blocks[h].accumulatedWork <= s.tipWork
  }

  /** Genesis is the only root. */
  predicate SingleRoot(o: Origin, t: Tree) {
    forall h | h in t && h != o.genesis :: Prev(t, h) != ZERO
  }

  /** No stored block has the tip as parent. */
  predicate TipIsLeaf(s: Store) {
    forall h | h in s.cache :: Prev(s.cache, h) != s.tip
  }

  /** If the step inserts the block, it does not fail afterwards: not the proof of work, the orphan pool
      and duplicates, but refused applies, reorganisations and second roots count. */
  ghost predicate Accepted(c: Crypto, n: Node, b: Block) {
    (Acyclic(n.store.cache) && Acyclic(AddBlock(c, n.store, b).0.cache) && Inserts(c, n, b)) ==>
      Receive(c, n, b).1 == None
  }

  ghost predicate NoneRejected(c: Crypto, bs: seq<Block>, nodes: seq<Node>)
    requires |nodes| == |bs| + 1
  {
    forall i | 0 <= i < |bs| :: Accepted(c, nodes[i], bs[i])
  }

  function Deliveries(bs: seq<Block>): seq<Event> {
    seq(|bs|, i requires 0 <= i < |bs| => Deliver(bs[i]))
  }

  // ----- One step

  lemma {:induction false} GenesisIsAncestor(o: Origin, t: Tree, h: Hash)
    requires WellFounded(t) && SingleRoot(o, t) && h in t
    ensures o.genesis in Ancestors(t, h)
    decreases Depth(t, h)
  {
    if h != o.genesis { GenesisIsAncestor(o, t, Prev(t, h)); }
  }

  lemma ForkExists(o: Origin, t: Tree, a: Hash, b: Hash)
    requires WellFounded(t) && SingleRoot(o, t) && a in t && b in t
    ensures FindLca(t, a, b).Some?
  {
    hide Acyclic, Closed, Ancestors, FindLca;
    GenesisIsAncestor(o, t, a);
    GenesisIsAncestor(o, t, b);
    LcaIsLowest(t, a, b);
  }

  /** For a block that is inserted, the step is the fork decision on the grown tree. */
  lemma InsertDecides(c: Crypto, n: Node, b: Block)
    requires StoreOk(c, n.store) && Inserts(c, n, b)
    requires Acyclic(n.store.cache) && Acyclic(AddBlock(c, n.store, b).0.cache)
    ensures
      var (s, s', h) := (n.store, AddBlock(c, n.store, b).0, HashOf(c, b));
      && Receive(c, n, b) == Decide(c, n.(store := s'), b)
      && StoreOk(c, s') && WellFounded(s'.cache) && h !in s.cache && s'.cache == s.cache[h := b]
      && Receive(c, n, b).0.store.cache == s'.cache
      && s'.tip == s.tip && s'.tipWork == s.tipWork && s.tip in s.cache
      && forall x | x in s'.blocks && x != h :: x in s.blocks && s'.blocks[x] == s.blocks[x]
  {
    hide EntryOk, OrphansOk, RestorableDiffs, Acyclic, Decide;
    AddBlockKeepsStore(c, n.store, b);
    ReceiveKeepsStore(c, n, b);
  }

  /** A second root is rejected, so an accepted block has its parent in the tree. */
  lemma AcceptedHasParent(c: Crypto, n: Node, b: Block)
    requires StoreOk(c, n.store) && Inserts(c, n, b) && Acyclic(n.store.cache)
        && Acyclic(AddBlock(c, n.store, b).0.cache)
    requires Receive(c, n, b).1 == None
    ensures b.header.previousHash in n.store.cache
  {
    hide EntryOk, OrphansOk, RestorableDiffs, Acyclic, ExtendTip, Reorganise, FindLca, ChainToFork;
    AddBlockKeepsStore(c, n.store, b);
  }

  /** What an accepted block does to the tip: it becomes the tip, heavier than the old one or its child,
      or it is stored beside it and not heavier. */
  lemma AcceptedMovesTip(o: Origin, n: Node, b: Block)
    requires StoreOk(o.c, n.store) && SingleRoot(o, n.store.cache)
    requires Inserts(o.c, n, b) && Acyclic(n.store.cache) && Acyclic(AddBlock(o.c, n.store, b).0.cache)
    requires Receive(o.c, n, b).1 == None
    ensures b.header.previousHash in n.store.cache && SingleRoot(o, n.store.cache[HashOf(o.c, b) := b])
    ensures
      var (s, s', h) := (n.store, Receive(o.c, n, b).0.store, HashOf(o.c, b));
      && s'.blocks == AddBlock(o.c, s, b).0.blocks && s'.cache == s.cache[h := b] && h !in s.blocks && h in s'.blocks
      && (if s'.tip == h then
            s'.tipWork == s'.blocks[h].accumulatedWork && (b.header.previousHash == s.tip || s'.tipWork > s.tipWork)
          else s'.tip == s.tip && s'.tipWork == s.tipWork && s'.blocks[h].accumulatedWork <= s.tipWork)
      && (b.header.previousHash == s.tip ==> s'.tip == h)
  {
    hide BlocksOk, OrphansOk, Acyclic, Decide, RestorableDiffs, Receive, Inserts;
    var s', h, prev := AddBlock(o.c, n.store, b).0, HashOf(o.c, b), b.header.previousHash;
    AcceptedHasParent(o.c, n, b);
    InsertDecides(o.c, n, b);
    AddedEntry(o.c, n.store, b);
    ForkExists(o, s'.cache, prev, s'.tip);
    DecisionMovesTip(o.c, n.(store := s'), b);
  }

  /** What a decision that does not fail does to the tip. */
  lemma DecisionMovesTip(c: Crypto, n: Node, b: Block)
    requires StoreOk(c, n.store) && Acyclic(n.store.cache) && Decide(c, n, b).1 == None
    requires HashOf(c, b) in n.store.blocks && b.header.previousHash in n.store.cache
        && b.header.previousHash in n.store.blocks
    requires FindLca(n.store.cache, b.header.previousHash, n.store.tip).Some? && HashOf(c, b) != n.store.tip
    requires n.store.blocks[HashOf(c, b)].accumulatedWork
          == SatAdd(n.store.blocks[b.header.previousHash].accumulatedWork, BlockWork(b.header))
    ensures
      var (s, s', h) := (n.store, Decide(c, n, b).0.store, HashOf(c, b));
      && s'.blocks == s.blocks && s'.cache == s.cache
      && (if s'.tip == h then
            s'.tipWork == s.blocks[h].accumulatedWork && (b.header.previousHash == s.tip || s'.tipWork > s.tipWork)
          else s'.tip == s.tip && s'.tipWork == s.tipWork && s.blocks[h].accumulatedWork <= s.tipWork)
      && (b.header.previousHash == s.tip ==> s'.tip == h)
  {
    hide BlocksOk, OrphansOk, Acyclic, FindLca, ChainToFork, Reorganise, ApplyTracked, RestorableDiffs;
    match AnalyzeFork(c, n.store, b)
    case ReorgToNew(unwind, apply) => ReorgFrame(c, n, unwind, apply);
    case _ =>
  }

  lemma AddedEntry(c: Crypto, s: Store, b: Block)
    requires StoreOk(c, s) && AddBlock(c, s, b).1.Ok? && b.header.previousHash in s.cache
    ensures
      var (s', h) := (AddBlock(c, s, b).0, HashOf(c, b));
      && h !in s.blocks && b.header.previousHash in s.blocks
      && s'.blocks == s.blocks[h := s'.blocks[h]]
      && s'.blocks[h].accumulatedWork == SatAdd(s.blocks[b.header.previousHash].accumulatedWork, BlockWork(b.header))
  {
  }

  lemma AcceptedKeepsHeaviest(o: Origin, n: Node, b: Block)
    requires StoreOk(o.c, n.store) && SingleRoot(o, n.store.cache) && Heaviest(n.store)
    requires Acyclic(n.store.cache) && Acyclic(AddBlock(o.c, n.store, b).0.cache) && Accepted(o.c, n, b)
    ensures Heaviest(Receive(o.c, n, b).0.store) && SingleRoot(o, Receive(o.c, n, b).0.store.cache)
  {
    hide BlocksOk, OrphansOk, RestorableDiffs, Acyclic, Receive, AddOrphan;
    if Inserts(o.c, n, b) {
      AcceptedMovesTip(o, n, b);
      TipEntry(o.c, n.store);
      if b.header.previousHash == n.store.tip {
        AcceptedHasParent(o.c, n, b);
        AddedEntry(o.c, n.store, b);
      }
    } else {
      NotInserted(o.c, n, b);
    }
  }

  lemma TipEntry(c: Crypto, s: Store)
    requires StoreOk(c, s)
    ensures s.tip in s.blocks && s.blocks[s.tip].accumulatedWork == s.tipWork && s.tipWork <= U128_MAX
  {
    assert EntryOk(c, s.blocks, s.cache, s.tip, PathWork(s.cache, s.tip));
  }

  /** A block that is not inserted changes at most the orphan pool. */
  lemma NotInserted(c: Crypto, n: Node, b: Block)
    requires StoreOk(c, n.store) && !Inserts(c, n, b)
    requires Acyclic(n.store.cache) && Acyclic(AddBlock(c, n.store, b).0.cache)
    ensures
      var s' := Receive(c, n, b).0.store;
      s' == n.store.(orphans := s'.orphans, orphanOrder := s'.orphanOrder)
  {
    hide BlocksOk, OrphansOk, RestorableDiffs, Acyclic, Decide, AddOrphan;
    AddOrphanKeepsStore(c, n.store, b);
    AddBlockKeepsStore(c, n.store, b);
  }

  lemma AcceptedKeepsLeaf(o: Origin, n: Node, b: Block)
    requires StoreOk(o.c, n.store) && SingleRoot(o, n.store.cache) && TipIsLeaf(n.store)
    requires Acyclic(n.store.cache) && Acyclic(AddBlock(o.c, n.store, b).0.cache) && Accepted(o.c, n, b)
    ensures TipIsLeaf(Receive(o.c, n, b).0.store)
  {
    hide EntryOk, OrphansOk, RestorableDiffs, Acyclic, Receive, Inserts;
    if Inserts(o.c, n, b) { AcceptedMovesTip(o, n, b); } else { NotInserted(o.c, n, b); }
  }

  // ----- Every run

  /** In every run of deliveries in which no inserted block is rejected, and in every state of it: the
      tip is a heaviest stored block, genesis is the only root, and the tip has no children. */
  lemma {:induction false} TipIsHeaviest(c: Crypto, genesis: Block, ledger: LedgerState, bs: seq<Block>,
      nodes: seq<Node>, i: nat)
    requires NoZeroHash(c) && IsGenesis(genesis)
    requires Run(c, genesis, ledger, Deliveries(bs), nodes) && NoneRejected(c, bs, nodes) && i < |nodes|
    ensures Heaviest(nodes[i].store) && SingleRoot(OriginOf(c, genesis, ledger), nodes[i].store.cache)
    ensures TipIsLeaf(nodes[i].store)
  {
    hide StoreOk, Receive, Accepted, SingleRoot, NoZeroHash, Acyclic, Heaviest, TipIsLeaf;
    var o := OriginOf(c, genesis, ledger);
    if i == 0 {
      StartIsHeaviest(c, genesis, o);
    } else {
      TipIsHeaviest(c, genesis, ledger, bs, nodes, i - 1);
      RunKeepsStore(c, genesis, ledger, Deliveries(bs), nodes, i - 1, i - 1);
      assert Step(c, nodes[i - 1], Deliveries(bs)[i - 1], nodes[i]);
      assert Accepted(c, nodes[i - 1], bs[i - 1]);
      AcceptedKeepsHeaviest(o, nodes[i - 1], bs[i - 1]);
      AcceptedKeepsLeaf(o, nodes[i - 1], bs[i - 1]);
    }
  }

  lemma StartIsHeaviest(c: Crypto, genesis: Block, o: Origin)
    requires IsGenesis(genesis) && NoZeroHash(c) && o.genesis == HashOf(c, genesis)
    ensures var s := NewStore(c, genesis); Heaviest(s) && SingleRoot(o, s.cache) && TipIsLeaf(s)
  {
  }

  // ----- Ties

  /** Every block has some work, and no path saturates the sum. */
  ghost predicate WorkGrows(t: Tree) {
    Acyclic(t) && forall h | h in t :: BlockWork(t[h].header) > 0 && PathWork(t, h) <= U128_MAX
  }

  predicate FirstAt(c: Crypto, log: seq<Block>, s: Store, i: nat) {
    && i < |log| && HashOf(c, log[i]) == s.tip && s.tip in s.blocks
    && forall j | 0 <= j < i && HashOf(c, log[j]) in s.blocks ::
         s.blocks[HashOf(c, log[j])].accumulatedWork < s.blocks[s.tip].accumulatedWork
  }

  /** The tip is the first heaviest block of the list. */
  ghost predicate TipIsFirst(c: Crypto, log: seq<Block>, s: Store) {
    Heaviest(s) && exists i: nat :: FirstAt(c, log, s, i)
  }

  lemma FirstIsUnique(c: Crypto, log: seq<Block>, s: Store, s': Store)
    requires s.blocks == s'.blocks && TipOk(s) && TipOk(s') && TipIsFirst(c, log, s) && TipIsFirst(c, log, s')
    ensures s.tip == s'.tip
  {
    var i: nat :| FirstAt(c, log, s, i);
    var j: nat :| FirstAt(c, log, s', j);
  }

  lemma FirstStays(c: Crypto, log: seq<Block>, b: Block, s: Store, s': Store)
    requires TipIsFirst(c, log, s) && Heaviest(s') && s'.tip == s.tip && s.tip in s'.blocks
    requires forall h | h in s.blocks :: h in s'.blocks && s'.blocks[h] == s.blocks[h]
    requires forall h | h in s'.blocks :: h in s.blocks || forall j | 0 <= j < |log| :: HashOf(c, log[j]) != h
    ensures TipIsFirst(c, log + [b], s')
  {
    var i: nat :| FirstAt(c, log, s, i);
    assert FirstAt(c, log + [b], s', i);
  }

  /** The parent's work is less than the child's, if sums do not saturate. */
  lemma ChildIsHeavier(c: Crypto, s: Store, h: Hash)
    requires BlocksOk(c, s.blocks, s.cache) && WorkGrows(s.cache) && h in s.cache && Prev(s.cache, h) in s.cache
    ensures s.blocks[h].accumulatedWork > s.blocks[Prev(s.cache, h)].accumulatedWork
  {
    assert EntryOk(c, s.blocks, s.cache, h, PathWork(s.cache, h));
    assert EntryOk(c, s.blocks, s.cache, Prev(s.cache, h), PathWork(s.cache, Prev(s.cache, h)));
  }
}
