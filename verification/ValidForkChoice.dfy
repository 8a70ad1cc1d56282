/** The fork choice among all blocks, valid or not: the tip is a heaviest one of the stored blocks whose branch
    replays, as long as such branches overtake each other within the reorganisation cap. */
module ValidForkChoice {
  import opened Types
  import opened Ledger
  import opened BlockTree
  import opened Chain
  import opened Replay
  import opened NodeProofs
  import opened Runs
  import opened ForkChoice

  // ----- Conditions on the blocks

  /** The block applies on the replay of its own branch, all of which applies. */
  ghost predicate ValidIn(o: Origin, t: Tree, h: Hash)
    requires Acyclic(t)
  {
    h in t && ReplayTo(o, t, h).Some?
  }

  /** Every block applies on the replay of its own branch, and is reversible there. */
  ghost predicate AllValid(o: Origin, t: Tree) {
    SafeTree(o, t) && forall h | h in t :: ReplayTo(o, t, h).Some?
  }

  /** The accumulated work of a block, as its entry carries it. */
  ghost function WorkOf(t: Tree, h: Hash): nat
    requires Acyclic(t)
  {
    Min(U128_MAX, PathWork(t, h))
  }

  /** On different branches, and the first block is the one that makes its branch the heavier one. */
  ghost predicate Overtakes(t: Tree, x: Hash, y: Hash)
    requires Acyclic(t)
  {
    && x in t && y in t && Prev(t, x) in t && x !in Ancestors(t, y) && y !in Ancestors(t, x)
    && WorkOf(t, Prev(t, x)) <= WorkOf(t, y) < WorkOf(t, x)
  }

  /** The branch of `x` has at most 100 blocks that are not on the branch of `y`. */
  ghost predicate ShortOf(t: Tree, x: Hash, y: Hash)
    requires Acyclic(t)
  {
    |Ancestors(t, x)| > 100 ==> Ancestors(t, x)[100] in Ancestors(t, y)
  }

  /** Where one branch overtakes another, neither has left the other more than 100 blocks ago. */
  ghost predicate ShallowOvertakes(t: Tree) {
    Acyclic(t) && forall x, y | x in t && y in t && Overtakes(t, x, y) :: ShortOf(t, x, y) && ShortOf(t, y, x)
  }

  /** The same among valid blocks. */
  ghost predicate ShallowAmongValid(o: Origin, t: Tree) {
    && Acyclic(t)
    && forall x, y | ValidIn(o, t, x) && ValidIn(o, t, y) && Overtakes(t, x, y) :: ShortOf(t, x, y) && ShortOf(t, y, x)
  }

  /** The tip is a heaviest valid block, and no valid block has it as parent. */
  ghost predicate TipLeads(o: Origin, s: Store) {
    && Acyclic(s.cache)
    && (forall h | ValidIn(o, s.cache, h) :: WorkOf(s.cache, h) <= s.tipWork)
    && forall h | ValidIn(o, s.cache, h) && h != o.genesis :: Prev(s.cache, h) != s.tip
  }

  lemma ShallowSubtree(o: Origin, t: Tree, t': Tree)
    requires WellFounded(t) && WellFounded(t') && Extends(t, t') && ShallowAmongValid(o, t')
    ensures ShallowAmongValid(o, t)
  {
    hide Acyclic, Closed, Ancestors, PathWork, ReplayTo;
    forall x, y | ValidIn(o, t, x) && ValidIn(o, t, y) && Overtakes(t, x, y)
      ensures ShortOf(t, x, y) && ShortOf(t, y, x)
    {
      AncestorsExtend(t, t', x);
      AncestorsExtend(t, t', y);
      PathWorkExtend(t, t', x);
      PathWorkExtend(t, t', y);
      PathWorkExtend(t, t', Prev(t, x));
      ReplayExtend(o, t, t', x);
      ReplayExtend(o, t, t', y);
      assert Overtakes(t', x, y);
    }
  }

  lemma AllValidIsShallow(o: Origin, t: Tree)
    requires AllValid(o, t)
    ensures SafeTree(o, t) && (ShallowAmongValid(o, t) <==> ShallowOvertakes(t))
    ensures forall h | h in t :: ValidIn(o, t, h)
  {
    hide ReplayTo, SafeBlock, Ancestors, PathWork, ShortOf, Acyclic;
  }

  /** The ancestors of a valid block are valid, down to genesis. */
  lemma {:induction false} ValidAncestors(o: Origin, t: Tree, h: Hash, x: Hash)
    requires WellFounded(t) && GenesisOk(o, t) && ValidIn(o, t, h)
    ensures o.genesis in Ancestors(t, h) && (x in Ancestors(t, h) ==> ValidIn(o, t, x))
    decreases Depth(t, h)
  {
    hide Acyclic, ReplayBlock;
    if h != o.genesis { ValidAncestors(o, t, Prev(t, h), x); }
  }

  // ----- One step

  lemma ValidBlockApplies(o: Origin, t: Tree, h: Hash, l: LedgerState)
    requires Acyclic(t) && HasParent(o, t, h) && ReplayTo(o, t, h).Some? && ReplayTo(o, t, Prev(t, h)) == Some(l)
    ensures ApplyTracked(o.c, l, t[h], t[h].header.height).1.Ok?
  {
    ReplayStep(o, t, h);
  }

  /** The plan for an overtaking block is within the cap. */
  lemma PlanIsShort(t: Tree, h: Hash, tip: Hash)
    requires WellFounded(t) && Overtakes(t, h, tip) && ShortOf(t, h, tip) && ShortOf(t, tip, h)
    requires FindLca(t, Prev(t, h), tip).Some?
    ensures
      var fork := FindLca(t, Prev(t, h), tip).value;
      |ChainToFork(t, tip, fork)| <= MAX_REORG && |ChainToFork(t, Prev(t, h), fork)| < MAX_REORG
  {
    hide Acyclic, Closed, PathWork, ChainToFork, FindLca, Ancestors;
    var i, j := ForkIndices(t, Prev(t, h), tip);
    AncestorsStep(t, h);
    var (down, up) := (Ancestors(t, tip), Ancestors(t, Prev(t, h)));
    assert Ancestors(t, h) == [h] + up by { PrevIsNotZero(t, h); }
    if i > MAX_REORG {
      var m :| 0 <= m < |up| && up[m] == down[MAX_REORG];
      CommonIsAbove(t, Prev(t, h), tip, i, j, MAX_REORG, m);
    }
  }

  lemma PrevIsNotZero(t: Tree, h: Hash)
    requires Closed(t) && h in t && Prev(t, h) in t
    ensures Prev(t, h) != ZERO
  {
  }

  /** A common ancestor stands at or above the fork on both sides. */
  lemma CommonIsAbove(t: Tree, prev: Hash, tip: Hash, i: nat, j: nat, k: nat, m: nat)
    requires WellFounded(t) && prev in t && tip in t
    requires i < |Ancestors(t, tip)| && j < |Ancestors(t, prev)| && Ancestors(t, tip)[i] == Ancestors(t, prev)[j]
    requires forall m' | 0 <= m' < j :: Ancestors(t, prev)[m'] !in Ancestors(t, tip)
    requires k < |Ancestors(t, tip)| && m < |Ancestors(t, prev)| && Ancestors(t, prev)[m] == Ancestors(t, tip)[k]
    ensures k >= i
  {
    hide Acyclic, Closed, Ancestors;
    var (down, up) := (Ancestors(t, tip), Ancestors(t, prev));
    assert down[k] in down && m >= j;
    AncestorsSuffix(t, tip, i);
    AncestorsSuffix(t, prev, j);
    assert up[j..][m - j] == down[k];
    assert down[k] in down[i..];
    var n :| 0 <= n < |down[i..]| && down[i..][n] == down[k];
    if k < i + n { AncestorsDistinct(t, tip, k, i + n); }
  }

  lemma NodeIsStored(o: Origin, n: Node)
    requires NodeOk(o, n)
    ensures StoreOk(o.c, n.store) && BlocksOk(o.c, n.store.blocks, n.store.cache) && o.genesis in n.store.cache
    ensures NoZeroHash(o.c)
  {
  }

  lemma ParentIsNotItself(t: Tree, h: Hash)
    requires Acyclic(t) && h in t && Prev(t, h) in t
    ensures Prev(t, h) != h
  {
    DepthOfParent(t, h);
  }

  lemma EntryWork(c: Crypto, s: Store, h: Hash)
    requires BlocksOk(c, s.blocks, s.cache) && h in s.cache
    ensures h in s.blocks && s.blocks[h].accumulatedWork == WorkOf(s.cache, h)
  {
    assert EntryOk(c, s.blocks, s.cache, h, PathWork(s.cache, h));
  }

  /** Where no valid block has the tip as parent, a valid block has it as ancestor only if it is the tip. */
  lemma LeadIsNotAnAncestor(o: Origin, t: Tree, h: Hash, tip: Hash)
    requires WellFounded(t) && GenesisOk(o, t) && ValidIn(o, t, h) && h != tip
    requires forall x | ValidIn(o, t, x) && x != o.genesis :: Prev(t, x) != tip
    ensures tip !in Ancestors(t, h)
  {
    hide Acyclic, Closed, ReplayTo;
    var a := Ancestors(t, h);
    if tip in a {
      var k :| 0 <= k < |a| && a[k] == tip;
      AncestorsLinked(t, h, k - 1);
      ValidAncestors(o, t, h, a[k - 1]);
      AncestorIsNotZero(t, h, k);
    }
  }

  /** A valid block is decided without an error, unless it overtakes too deep. */
  lemma ValidIsDecided(o: Origin, n: Node, b: Block)
    requires NodeOk(o, n) && SafeTree(o, n.store.cache) && ShallowAmongValid(o, n.store.cache)
    requires HashOf(o.c, b) in n.store.cache && n.store.cache[HashOf(o.c, b)] == b && HashOf(o.c, b) != o.genesis
    requires ValidIn(o, n.store.cache, HashOf(o.c, b)) && b.header.previousHash in n.store.cache
    requires HashOf(o.c, b) !in Ancestors(n.store.cache, n.store.tip)
    requires b.header.previousHash != n.store.tip ==> n.store.tip !in Ancestors(n.store.cache, HashOf(o.c, b))
    requires WorkOf(n.store.cache, b.header.previousHash) <= n.store.tipWork
    ensures Decide(o.c, n, b).1 == None
  {
    hide ReplayTo, ApplyTracked, Acyclic, DiffsOk, EntryOk, OrphansOk, SafeBlock, ChainToFork, FindLca, Reorganise,
        Ancestors, PathWork, SafeTree, ShallowAmongValid, ShortOf;
    var s, t, h := n.store, n.store.cache, HashOf(o.c, b);
    var prev := b.header.previousHash;
    PrevIsNotZero(t, h);
    match AnalyzeFork(o.c, s, b)
    case ExtendCanonical =>
      ValidBlockApplies(o, t, h, n.ledger);
    case ReorgToNew(unwind, apply) =>
      EntryWork(o.c, s, h);
      EntryWork(o.c, s, prev);
      EntryWork(o.c, s, s.tip);
      WorkOfChild(o.c, s, b);
      ParentIsNotItself(t, h);
      ShallowHere(o, t, h, s.tip);
      PlanIsShort(t, h, s.tip);
      SafeTreeIsSafeDecision(o, s, b);
      ReorgKeeps(o, n, h);
      PlanIsValid(o, t, h, s.tip);
    case _ =>
  }

  lemma ShallowHere(o: Origin, t: Tree, x: Hash, y: Hash)
    requires ShallowAmongValid(o, t) && ValidIn(o, t, x) && ValidIn(o, t, y) && Overtakes(t, x, y)
    ensures ShortOf(t, x, y) && ShortOf(t, y, x)
  {
  }

  /** All blocks to apply are ancestors of the new block, and valid with it. */
  lemma PlanIsValid(o: Origin, t: Tree, h: Hash, tip: Hash)
    requires WellFounded(t) && GenesisOk(o, t) && ValidIn(o, t, h) && h != o.genesis && Prev(t, h) in t && tip in t
    requires FindLca(t, Prev(t, h), tip).Some?
    ensures
      var path := Reverse(ChainToFork(t, Prev(t, h), FindLca(t, Prev(t, h), tip).value)) + [h];
      forall x | x in path :: ReplayTo(o, t, x).Some?
  {
    hide Acyclic, Closed, ReplayTo, ChainToFork, FindLca, Ancestors;
    var i, j := ForkIndices(t, Prev(t, h), tip);
    var down := Ancestors(t, Prev(t, h));
    AncestorsStep(t, h);
    PrevIsNotZero(t, h);
    forall k | 0 <= k < j
      ensures ReplayTo(o, t, down[k]).Some?
    {
      assert down[k] in Ancestors(t, h);
      ValidAncestors(o, t, h, down[k]);
    }
  }

  /** A block that is not valid leaves the tip where it is. */
  lemma InvalidIsDecided(o: Origin, n: Node, b: Block)
    requires NodeOk(o, n) && SafeTree(o, n.store.cache)
    requires HashOf(o.c, b) in n.store.cache && n.store.cache[HashOf(o.c, b)] == b && HashOf(o.c, b) != o.genesis
    requires HashOf(o.c, b) !in Ancestors(n.store.cache, n.store.tip)
    requires ReplayTo(o, n.store.cache, HashOf(o.c, b)) == None
    ensures
      var s' := Decide(o.c, n, b).0.store;
      s'.tip == n.store.tip && s'.tipWork == n.store.tipWork
  {
    hide ReplayTo, ApplyTracked, Acyclic, Closed, DiffsOk, EntryOk, OrphansOk, SafeBlock, ChainToFork, FindLca,
        Reorganise, Ancestors, SafeTree;
    var t, h := n.store.cache, HashOf(o.c, b);
    match AnalyzeFork(o.c, n.store, b)
    case ExtendCanonical =>
      TipIsNotZero(o, n);
      ReplayStep(o, t, h);
    case ReorgToNew(unwind, apply) =>
      SafeTreeIsSafeDecision(o, n.store, b);
      ReorgKeeps(o, n, h);
    case _ =>
  }

  /** The tip leads all valid blocks but the one just stored, which has no children. */
  ghost predicate LeadsTheOthers(o: Origin, s: Store, h: Hash) {
    && Acyclic(s.cache) && h != s.tip
    && (forall x | x in s.cache :: Prev(s.cache, x) != h)
    && (forall x | x != h && ValidIn(o, s.cache, x) :: WorkOf(s.cache, x) <= s.tipWork)
    && forall x | x != h && ValidIn(o, s.cache, x) && x != o.genesis :: Prev(s.cache, x) != s.tip
  }

  lemma GrownStillLeads(o: Origin, s: Store, s': Store, b: Block)
    requires TipLeads(o, s) && WellFounded(s.cache) && WellFounded(s'.cache) && s.tip in s.cache
    requires HashOf(o.c, b) !in s.cache && s'.cache == s.cache[HashOf(o.c, b) := b] && HashOf(o.c, b) != ZERO
    requires s'.tip == s.tip && s'.tipWork == s.tipWork
    ensures LeadsTheOthers(o, s', HashOf(o.c, b))
  {
    hide Acyclic, ReplayTo, PathWork;
    var t, t', h := s.cache, s'.cache, HashOf(o.c, b);
    forall x | x in t'
      ensures Prev(t', x) != h
    {
      if x == h && Prev(t', h) == h { ParentIsNotItself(t', h); }
      if x != h { assert Prev(t, x) == ZERO || Prev(t, x) in t; }
    }
    forall x | x != h && ValidIn(o, t', x)
      ensures WorkOf(t', x) <= s.tipWork && (x != o.genesis ==> Prev(t', x) != s.tip)
    {
      ReplayExtend(o, t, t', x);
      PathWorkExtend(t, t', x);
      assert ValidIn(o, t, x);
    }
  }

  lemma ValidParent(o: Origin, t: Tree, h: Hash)
    requires Acyclic(t) && GenesisOk(o, t) && ValidIn(o, t, h) && h != o.genesis
    ensures Prev(t, h) in t && ValidIn(o, t, Prev(t, h)) && Prev(t, h) != h
  {
    DepthOfParent(t, h);
    assert ReplayTo(o, t, Prev(t, h)).Some?;
    if Prev(t, h) != o.genesis { assert Prev(t, h) in t; }
  }

  lemma ValidForkExists(o: Origin, t: Tree, a: Hash, b: Hash)
    requires WellFounded(t) && GenesisOk(o, t) && ValidIn(o, t, a) && ValidIn(o, t, b)
    ensures FindLca(t, a, b).Some?
  {
    hide Acyclic, Closed, Ancestors, FindLca, ReplayTo;
    ValidAncestors(o, t, a, a);
    ValidAncestors(o, t, b, b);
    LcaIsLowest(t, a, b);
  }

  lemma TipIsValid(o: Origin, n: Node)
    requires NodeOk(o, n)
    ensures WellFounded(n.store.cache) && GenesisOk(o, n.store.cache) && ValidIn(o, n.store.cache, n.store.tip)
    ensures n.store.tipWork == WorkOf(n.store.cache, n.store.tip)
  {
    EntryWork(o.c, n.store, n.store.tip);
  }

  /** The decision on the block just stored makes the tip lead all valid blocks again. */
  lemma DecisionKeepsLead(o: Origin, n: Node, b: Block)
    requires NodeOk(o, n) && Acyclic(n.store.cache)
    requires SafeTree(o, n.store.cache) && ShallowAmongValid(o, n.store.cache)
    requires HashOf(o.c, b) in n.store.cache && n.store.cache[HashOf(o.c, b)] == b && HashOf(o.c, b) != o.genesis
    requires HashOf(o.c, b) !in Ancestors(n.store.cache, n.store.tip) && LeadsTheOthers(o, n.store, HashOf(o.c, b))
    ensures TipLeads(o, Decide(o.c, n, b).0.store)
    ensures ValidIn(o, n.store.cache, HashOf(o.c, b)) ==> Decide(o.c, n, b).1 == None
  {
    hide NodeOk, StoreOk, Acyclic, WellFounded, GenesisOk, Decide, Ancestors, SafeTree, ShallowAmongValid, ReplayTo,
        PathWork, WorkOf, FindLca;
    var s, t, h, prev := n.store, n.store.cache, HashOf(o.c, b), b.header.previousHash;
    NodeIsStored(o, n);
    TipIsValid(o, n);
    DecideKeepsStore(o.c, n, b);
    if ValidIn(o, t, h) {
      ValidParent(o, t, h);
      if prev != s.tip { LeadIsNotAnAncestor(o, t, h, s.tip); }
      ValidIsDecided(o, n, b);
      ValidForkExists(o, t, prev, s.tip);
      WorkOfChild(o.c, s, b);
      EntryWork(o.c, s, h);
      EntryWork(o.c, s, prev);
      DecisionMovesTip(o.c, n, b);
    } else {
      InvalidIsDecided(o, n, b);
    }
  }

  /** One step keeps the tip a heaviest valid block, and does not reject a valid one. */
  lemma StepKeepsLead(o: Origin, n: Node, b: Block)
    requires NodeOk(o, n) && TipLeads(o, n.store)
    requires Acyclic(n.store.cache) && Acyclic(AddBlock(o.c, n.store, b).0.cache)
    requires
      var t := Receive(o.c, n, b).0.store.cache;
      SafeTree(o, t) && ShallowAmongValid(o, t)
    ensures TipLeads(o, Receive(o.c, n, b).0.store)
    ensures
      var t := Receive(o.c, n, b).0.store.cache;
      Acyclic(t) && (ValidIn(o, t, HashOf(o.c, b)) ==> Accepted(o.c, n, b))
  {
    hide NodeOk, StoreOk, BlocksOk, WellFounded, Acyclic, Decide, Ancestors, SafeTree, ShallowAmongValid, ReplayTo,
        Receive, Inserts, AddBlock;
    NodeIsStored(o, n);
    if Inserts(o.c, n, b) {
      var s', h := AddBlock(o.c, n.store, b).0, HashOf(o.c, b);
      InsertDecides(o.c, n, b);
      AddBlockKeeps(o, n, b);
      NewBlockIsNotAnAncestor(o, n, s', h);
      GrownStillLeads(o, n.store, s', b);
      DecisionKeepsLead(o, n.(store := s'), b);
    } else {
      NotInserted(o.c, n, b);
    }
  }

  // ----- Every run

  lemma LeadStep(c: Crypto, genesis: Block, ledger: LedgerState, bs: seq<Block>, nodes: seq<Node>, i: nat)
    requires NoZeroHash(c) && IsGenesis(genesis) && i < |bs|
    requires Run(c, genesis, ledger, Deliveries(bs), nodes)
    requires
      var o, t := OriginOf(c, genesis, ledger), nodes[|bs|].store.cache;
      && SafeTree(o, t) && ShallowAmongValid(o, t) && NodeOk(o, nodes[i]) && TipLeads(o, nodes[i].store)
    ensures TipLeads(OriginOf(c, genesis, ledger), nodes[i + 1].store) && Acyclic(nodes[i + 1].store.cache)
    ensures ValidIn(OriginOf(c, genesis, ledger), nodes[i + 1].store.cache, HashOf(c, bs[i])) ==>
              Accepted(c, nodes[i], bs[i])
  {
    hide StoreOk, NodeOk, Receive, NoZeroHash, Acyclic, Closed, Accepted, ShallowAmongValid, SafeTree, TipLeads,
        ReplayTo, GenesisOk, Inserts, Extends;
    var o, last := OriginOf(c, genesis, ledger), nodes[|bs|].store.cache;
    RunKeepsStore(c, genesis, ledger, Deliveries(bs), nodes, i + 1, |bs|);
    TreesAreWellFounded(c, nodes[i + 1].store, nodes[|bs|].store);
    SafeSubtree(o, nodes[i + 1].store.cache, last);
    ShallowSubtree(o, nodes[i + 1].store.cache, last);
    assert Step(c, nodes[i], Deliveries(bs)[i], nodes[i + 1]);
    StepKeepsLead(o, nodes[i], bs[i]);
  }

  /** A block that its step inserts is in the tree right after it, and is as valid there as at the end. */
  lemma InsertedIsStored(c: Crypto, genesis: Block, ledger: LedgerState, bs: seq<Block>, nodes: seq<Node>, i: nat)
    requires NoZeroHash(c) && IsGenesis(genesis) && i < |bs|
    requires Run(c, genesis, ledger, Deliveries(bs), nodes) && Inserts(c, nodes[i], bs[i])
    ensures
      var o, h, t, last := OriginOf(c, genesis, ledger), HashOf(c, bs[i]), nodes[i + 1].store.cache,
        nodes[|bs|].store.cache;
      && Acyclic(t) && Acyclic(last) && h in t && h in last && (ValidIn(o, t, h) <==> ValidIn(o, last, h))
  {
    hide StoreOk, Receive, NoZeroHash, Acyclic, Closed, ReplayTo, Inserts, Extends;
    RunKeepsStore(c, genesis, ledger, Deliveries(bs), nodes, i, i + 1);
    RunKeepsStore(c, genesis, ledger, Deliveries(bs), nodes, i + 1, |bs|);
    TreesAreWellFounded(c, nodes[i + 1].store, nodes[|bs|].store);
    assert Step(c, nodes[i], Deliveries(bs)[i], nodes[i + 1]);
    InsertedStays(c, nodes[i], bs[i], nodes[i + 1]);
    ReplayExtend(OriginOf(c, genesis, ledger), nodes[i + 1].store.cache, nodes[|bs|].store.cache, HashOf(c, bs[i]));
    InLarger(nodes[i + 1].store.cache, nodes[|bs|].store.cache, HashOf(c, bs[i]));
  }

  lemma InLarger(t: Tree, t': Tree, h: Hash)
    requires Extends(t, t') && h in t
    ensures h in t'
  {
  }

  /** In every state of every run of deliveries, of valid and invalid blocks, whose tree is reversible and shallow
      among its valid blocks: the tip is a heaviest stored block whose branch replays, the ledger is that replay,
      and no step so far has rejected a valid block. */
  lemma {:induction false} TipLeadsValid(c: Crypto, genesis: Block, ledger: LedgerState, bs: seq<Block>,
      nodes: seq<Node>, i: nat)
    requires NoZeroHash(c) && IsGenesis(genesis) && i <= |bs|
    requires Run(c, genesis, ledger, Deliveries(bs), nodes)
    requires
      var o, t := OriginOf(c, genesis, ledger), nodes[|bs|].store.cache;
      SafeTree(o, t) && ShallowAmongValid(o, t)
    ensures
      var o, n := OriginOf(c, genesis, ledger), nodes[i];
      && TipLeads(o, n.store) && n.store.tip in n.store.cache
      && ReplayTo(o, n.store.cache, n.store.tip) == Some(n.ledger)
    ensures
      var o, t := OriginOf(c, genesis, ledger), nodes[|bs|].store.cache;
      forall j | 0 <= j < i && ValidIn(o, t, HashOf(c, bs[j])) :: Accepted(c, nodes[j], bs[j])
  {
    hide StoreOk, NodeOk, Step, NoZeroHash, Acyclic, Closed, Accepted, ShallowAmongValid, SafeTree, TipLeads, ReplayTo,
        SafeRun, GenesisOk, Inserts, ValidIn;
    var o := OriginOf(c, genesis, ledger);
    SafeTreeIsSafeRun(c, genesis, ledger, Deliveries(bs), nodes);
    LedgerIsReplay(c, genesis, ledger, Deliveries(bs), nodes, i);
    TipIsStored(o, nodes[i]);
    if i == 0 {
      StartLeads(c, genesis, ledger);
    } else {
      TipLeadsValid(c, genesis, ledger, bs, nodes, i - 1);
      LedgerIsReplay(c, genesis, ledger, Deliveries(bs), nodes, i - 1);
      LeadStep(c, genesis, ledger, bs, nodes, i - 1);
      if Inserts(c, nodes[i - 1], bs[i - 1]) {
        InsertedIsStored(c, genesis, ledger, bs, nodes, i - 1);
      } else {
        NotInsertedIsAccepted(c, nodes[i - 1], bs[i - 1]);
      }
    }
  }

  lemma TipIsStored(o: Origin, n: Node)
    requires NodeOk(o, n)
    ensures n.store.tip in n.store.cache
  {
  }

  lemma InsertedStays(c: Crypto, n: Node, b: Block, n': Node)
    requires StoreOk(c, n.store) && Inserts(c, n, b) && Step(c, n, Deliver(b), n')
    ensures HashOf(c, b) in n'.store.cache
  {
    hide StoreOk, Receive, Acyclic;
    AddedIsStored(c, n, b);
  }

  lemma NotInsertedIsAccepted(c: Crypto, n: Node, b: Block)
    requires !Inserts(c, n, b)
    ensures Accepted(c, n, b)
  {
  }

  lemma StartLeads(c: Crypto, genesis: Block, ledger: LedgerState)
    requires NoZeroHash(c) && IsGenesis(genesis)
    ensures TipLeads(OriginOf(c, genesis, ledger), NewStore(c, genesis))
  {
    StartIsOk(c, genesis, ledger);
    TipIsValid(OriginOf(c, genesis, ledger), Node(NewStore(c, genesis), ledger));
  }

  /** Where all blocks are valid, no block is rejected. */
  lemma ValidBlocksAreAccepted(c: Crypto, genesis: Block, ledger: LedgerState, bs: seq<Block>, nodes: seq<Node>)
    requires NoZeroHash(c) && IsGenesis(genesis)
    requires Run(c, genesis, ledger, Deliveries(bs), nodes)
    requires AllValid(OriginOf(c, genesis, ledger), nodes[|bs|].store.cache)
    requires ShallowOvertakes(nodes[|bs|].store.cache)
    ensures NoneRejected(c, bs, nodes)
  {
    hide AllValid, Step, ShallowOvertakes, Accepted, Inserts, Acyclic, ValidIn, SafeTree, ShallowAmongValid, NoZeroHash;
    var o, t := OriginOf(c, genesis, ledger), nodes[|bs|].store.cache;
    AllValidIsShallow(o, t);
    TipLeadsValid(c, genesis, ledger, bs, nodes, |bs|);
    forall i | 0 <= i < |bs|
      ensures Accepted(c, nodes[i], bs[i])
    {
      if Inserts(c, nodes[i], bs[i]) {
        InsertedIsStored(c, genesis, ledger, bs, nodes, i);
        assert ValidIn(o, t, HashOf(c, bs[i]));
      } else {
        NotInsertedIsAccepted(c, nodes[i], bs[i]);
      }
    }
  }
}
