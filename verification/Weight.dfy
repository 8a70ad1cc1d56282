/** What a difficulty target weighs, and what that means for the fork choice, in terms of targets alone. */
module Weight {
  import opened Arith
  import opened Types
  import opened Ledger
  import opened BlockTree
  import opened Chain
  import opened Replay
  import opened NodeProofs
  import opened ForkChoice
  import opened ValidForkChoice

  /** A block of target `t` weighs the largest 64-bit number divided by `t`, rounded down; without a target, nothing. */
  lemma WorkIsQuotient(header: BlockHeader)
    ensures
      var (t, w) := (header.difficultyTarget, BlockWork(header));
      if t == 0 then w == 0 else w * t <= 0xFFFF_FFFF_FFFF_FFFF < (w + 1) * t
  {
    if header.difficultyTarget > 0 { QuotientRemainder(U64_LIMIT - 1, header.difficultyTarget); }
  }

  /** With at most half the target, a block weighs at least twice as much, and so on. */
  lemma HarderIsHeavier(n: nat, hard: BlockHeader, easy: BlockHeader)
    requires hard.difficultyTarget > 0
    requires easy.difficultyTarget == 0 || n * hard.difficultyTarget <= easy.difficultyTarget
    ensures n * BlockWork(easy) <= BlockWork(hard)
  {
    var (t, d, w, v) := (hard.difficultyTarget, easy.difficultyTarget, BlockWork(easy), BlockWork(hard));
    WorkIsQuotient(hard);
    WorkIsQuotient(easy);
    if d == 0 {
      assert n * w == 0;
    } else {
      Scales(n * t, d, w);
      assert (n * w) * t == (n * t) * w && d * w == w * d;
      if n * w > v { Scales(v + 1, n * w, t); }
    }
  }

  /** No block above the ancestor at place `n` has a target that is positive and less than `d`. */
  ghost predicate EasyAbove(t: Tree, h: Hash, n: nat, d: nat)
    requires Acyclic(t)
  {
    forall k | 0 <= k < n && k < |Ancestors(t, h)| && Ancestors(t, h)[k] in t ::
      var target := t[Ancestors(t, h)[k]].header.difficultyTarget;
      target == 0 || target >= d
  }

  /** If one block of the hard target outweighs `n` easy ones, it outweighs every branch of `n` such blocks. */
  lemma {:induction false} EasyBranch(t: Tree, h: Hash, n: nat, d: nat, easy: nat)
    requires WellFounded(t) && h in t && n < |Ancestors(t, h)| && EasyAbove(t, h, n, d)
    requires forall header: BlockHeader | header.difficultyTarget == 0 || header.difficultyTarget >= d ::
               BlockWork(header) <= easy
    ensures Ancestors(t, h)[n] in t && PathWork(t, h) <= PathWork(t, Ancestors(t, h)[n]) + n * easy
    decreases n
  {
    hide Acyclic, BlockWork;
    if n > 0 {
      var a, up := Ancestors(t, h), Ancestors(t, Prev(t, h));
      AncestorsStep(t, h);
      assert a[0] == h && BlockWork(t[h].header) <= easy;
      forall k | 0 <= k < n - 1 && k < |up| && up[k] in t
        ensures t[up[k]].header.difficultyTarget == 0 || t[up[k]].header.difficultyTarget >= d
      {
        assert a[k + 1] == up[k];
      }
      EasyBranch(t, Prev(t, h), n - 1, d, easy);
      assert (n - 1) * easy + easy == n * easy;
    }
  }

  lemma EasyWork(d: nat, sample: BlockHeader)
    requires 0 < d < U64_LIMIT && sample.difficultyTarget == d
    ensures forall header: BlockHeader | header.difficultyTarget == 0 || header.difficultyTarget >= d ::
              BlockWork(header) <= BlockWork(sample)
  {
    forall header: BlockHeader | header.difficultyTarget == 0 || header.difficultyTarget >= d
      ensures BlockWork(header) <= BlockWork(sample)
    {
      HarderIsHeavier(1, sample, header);
    }
  }

  /** The tip stands alone on the fork, with target `t`; a block arrives as the last of `n` blocks on the same fork,
      all of target at least `d`. If `n * t <= d`, the block is put aside. */
  lemma EasyBranchIsSidechain(c: Crypto, s: Store, b: Block, n: nat, d: u64)
    requires StoreOk(c, s) && Acyclic(s.cache) && HashOf(c, b) in s.cache && s.cache[HashOf(c, b)] == b
    requires s.tip in s.cache && Prev(s.cache, s.tip) in s.cache
    requires b.header.previousHash in s.cache && b.header.previousHash != s.tip
    requires n < |Ancestors(s.cache, HashOf(c, b))|
        && Ancestors(s.cache, HashOf(c, b))[n] == Prev(s.cache, s.tip)
    requires 0 < d && EasyAbove(s.cache, HashOf(c, b), n, d)
    requires s.cache[s.tip].header.difficultyTarget > 0 && n * s.cache[s.tip].header.difficultyTarget <= d
    ensures AnalyzeFork(c, s, b) == Sidechain
  {
    hide Acyclic, BlockWork, OrphansOk, RestorableDiffs, Ancestors, FindLca, ChainToFork, PathWork;
    var (t, h) := (s.cache, HashOf(c, b));
    var sample := b.header.(difficultyTarget := d);
    EasyWork(d, sample);
    EasyBranch(t, h, n, d, BlockWork(sample));
    HarderIsHeavier(n, t[s.tip].header, sample);
    PathWorkStep(t, s.tip);
    EntryWork(c, s, h);
    EntryWork(c, s, s.tip);
    EntryWork(c, s, b.header.previousHash);
    WorkOfChild(c, s, b);
  }

  lemma PathWorkStep(t: Tree, h: Hash)
    requires Acyclic(t) && h in t && Prev(t, h) in t
    ensures PathWork(t, h) == PathWork(t, Prev(t, h)) + BlockWork(t[h].header)
  {
  }

  /** The other way round: the tip is the last of `n` blocks on a fork, all of target at least `d`, and a block of
      target `t` arrives on the fork itself. If `(n + 1) * t <= d` and sums do not saturate, the node reorganises. */
  lemma HardBlockWins(c: Crypto, s: Store, b: Block, n: nat, d: u64)
    requires StoreOk(c, s) && Acyclic(s.cache) && HashOf(c, b) in s.cache && s.cache[HashOf(c, b)] == b
    requires s.tip in s.cache && b.header.previousHash in s.cache && b.header.previousHash != s.tip
    requires n < |Ancestors(s.cache, s.tip)| && Ancestors(s.cache, s.tip)[n] == b.header.previousHash
    requires 0 < d && EasyAbove(s.cache, s.tip, n, d) && PathWork(s.cache, HashOf(c, b)) <= U128_MAX
    requires b.header.difficultyTarget > 0 && (n + 1) * b.header.difficultyTarget <= d
    ensures AnalyzeFork(c, s, b).ReorgToNew?
  {
    hide Acyclic, BlockWork, OrphansOk, RestorableDiffs, Ancestors, FindLca, ChainToFork, PathWork;
    var (t, h, prev) := (s.cache, HashOf(c, b), b.header.previousHash);
    var sample := b.header.(difficultyTarget := d);
    EasyWork(d, sample);
    EasyBranch(t, s.tip, n, d, BlockWork(sample));
    HarderIsHeavier(n + 1, b.header, sample);
    HasWork(sample);
    assert (n + 1) * BlockWork(sample) == n * BlockWork(sample) + BlockWork(sample);
    PathWorkStep(t, h);
    EntryWork(c, s, h);
    EntryWork(c, s, s.tip);
    WorkOfChild(c, s, b);
    AncestorsSuffix(t, s.tip, n);
    assert prev in Ancestors(t, s.tip);
    LcaIsLowest(t, prev, s.tip);
    AncestorsStep(t, prev);
    EntryWork(c, s, prev);
  }

  lemma HasWork(header: BlockHeader)
    requires header.difficultyTarget > 0
    ensures BlockWork(header) > 0
  {
    WorkIsQuotient(header);
  }
}
