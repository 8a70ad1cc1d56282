/** The tree of blocks, its ancestor walks, fork points and accumulated work. A walk follows
    parent links, and terminates because a parent is always inserted before its children: heights
    play no part in it. */
module BlockTree {
  import opened Types

  type Tree = map<Hash, Block>

  function Prev(t: Tree, h: Hash): Hash
    requires h in t
  {
    t[h].header.previousHash
  }

  // ----- Well-founded trees

  ghost predicate Ranked(t: Tree, rank: map<Hash, nat>) {
    && t.Keys <= rank.Keys
    && forall h | h in t && Prev(t, h) in t :: rank[Prev(t, h)] < rank[h]
  }

  ghost predicate Acyclic(t: Tree) { exists rank :: Ranked(t, rank) }

  ghost function Rank(t: Tree): map<Hash, nat>
    requires Acyclic(t)
    ensures Ranked(t, Rank(t))
  {
    var rank :| Ranked(t, rank); rank
  }

  ghost function Depth(t: Tree, h: Hash): (d: nat)
    requires Acyclic(t)
    ensures h in t ==> d > 0
  {
    if h in t then Rank(t)[h] + 1 else 0
  }

  lemma DepthOfParent(t: Tree, h: Hash)
    requires Acyclic(t) && h in t
    ensures Depth(t, Prev(t, h)) < Depth(t, h)
  {
  }

  /** Every parent link leads into the tree or ends at a root, and no block hashes to zero. */
  predicate Closed(t: Tree) {
    && ZERO !in t
    && forall h | h in t :: Prev(t, h) == ZERO || Prev(t, h) in t
  }

  ghost predicate WellFounded(t: Tree) { Acyclic(t) && Closed(t) }

  predicate Extends(t: Tree, t': Tree) {
    forall h | h in t :: h in t' && t'[h] == t[h]
  }

  lemma RootIsWellFounded(h: Hash, b: Block)
    requires h != ZERO && b.header.previousHash == ZERO
    ensures WellFounded(map[h := b])
  {
    assert Ranked(map[h := b], map[h := 0]);
  }

  /** Inserting a new block under a stored parent, or as a root, keeps the tree well-founded. */
  lemma InsertIsWellFounded(t: Tree, h: Hash, b: Block)
    requires WellFounded(t) && h != ZERO && h !in t
    requires b.header.previousHash == ZERO || b.header.previousHash in t
    ensures WellFounded(t[h := b]) && Extends(t, t[h := b])
  {
    var p := b.header.previousHash;
    var rank := Rank(t)[h := if p in t then Rank(t)[p] + 1 else 0];
    var t' := t[h := b];
    forall x | x in t' && Prev(t', x) in t'
      ensures rank[Prev(t', x)] < rank[x]
    {
      if x != h { assert Prev(t, x) != h; }
    }
    assert Ranked(t', rank);
    forall x | x in t'
      ensures Prev(t', x) == ZERO || Prev(t', x) in t'
    {
      if x != h { assert Prev(t, x) == Prev(t', x); }
    }
  }

  // ----- Ancestors

  /** The block and all its ancestors, youngest first. */
  ghost function Ancestors(t: Tree, h: Hash): (a: seq<Hash>)
    requires Acyclic(t)
    ensures |a| > 0 && a[0] == h
    decreases Depth(t, h)
  {
    [h] + if h in t && Prev(t, h) != ZERO then Ancestors(t, Prev(t, h)) else []
  }

  lemma AncestorsStep(t: Tree, h: Hash)
    requires Acyclic(t)
    ensures Ancestors(t, h) == [h] + if h in t && Prev(t, h) != ZERO then Ancestors(t, Prev(t, h)) else []
  {
  }

  lemma {:induction false} AncestorsSuffix(t: Tree, h: Hash, i: nat)
    requires WellFounded(t) && h in t && i < |Ancestors(t, h)|
    ensures Ancestors(t, h)[i] in t
    ensures Ancestors(t, Ancestors(t, h)[i]) == Ancestors(t, h)[i..]
    decreases i
  {
    if i > 0 {
      AncestorsSuffix(t, Prev(t, h), i - 1);
      assert Ancestors(t, h)[i..] == Ancestors(t, Prev(t, h))[i - 1..];
    }
  }

  lemma {:induction false} AncestorsDescend(t: Tree, h: Hash, i: nat)
    requires WellFounded(t) && h in t && i < |Ancestors(t, h)|
    ensures Ancestors(t, h)[i] in t && Depth(t, Ancestors(t, h)[i]) <= Depth(t, h) - i
    decreases i
  {
    if i > 0 { AncestorsDescend(t, Prev(t, h), i - 1); }
  }

  lemma AncestorsDistinct(t: Tree, h: Hash, i: nat, j: nat)
    requires WellFounded(t) && h in t && i < j < |Ancestors(t, h)|
    ensures Ancestors(t, h)[i] != Ancestors(t, h)[j]
  {
    var a := Ancestors(t, h);
    AncestorsSuffix(t, h, i);
    AncestorsDescend(t, a[i], j - i);
    assert a[i..][j - i] == a[j];
  }

  /** Consecutive ancestors are child and parent. */
  lemma AncestorsLinked(t: Tree, h: Hash, i: nat)
    requires WellFounded(t) && h in t && i < |Ancestors(t, h)|
    ensures Ancestors(t, h)[i] in t
    ensures Prev(t, Ancestors(t, h)[i]) == if i + 1 < |Ancestors(t, h)| then Ancestors(t, h)[i + 1] else ZERO
  {
    AncestorsSuffix(t, h, i);
    var x := Ancestors(t, h)[i];
    assert Ancestors(t, x) == Ancestors(t, h)[i..];
    if i + 1 < |Ancestors(t, h)| {
      assert Ancestors(t, h)[i..][1] == Ancestors(t, h)[i + 1];
    }
  }

  lemma {:induction false} AncestorsExtend(t: Tree, t': Tree, h: Hash)
    requires WellFounded(t) && Acyclic(t') && Extends(t, t') && h in t
    ensures Ancestors(t', h) == Ancestors(t, h)
    decreases Depth(t, h)
  {
    if Prev(t, h) != ZERO { AncestorsExtend(t, t', Prev(t, h)); }
  }

  // ----- The chain above a fork point

  /** From `tip` down to the block above `fork`. */
  ghost function ChainToFork(t: Tree, tip: Hash, fork: Hash): seq<Hash>
    requires Acyclic(t)
    decreases Depth(t, tip)
  {
    if tip == fork || tip == ZERO then []
    else [tip] + if tip in t then ChainToFork(t, Prev(t, tip), fork) else []
  }

  lemma ChainToForkStep(t: Tree, tip: Hash, fork: Hash)
    requires Acyclic(t)
    ensures
      ChainToFork(t, tip, fork) ==
        if tip == fork || tip == ZERO then []
        else [tip] + if tip in t then ChainToFork(t, Prev(t, tip), fork) else []
  {
  }

  lemma {:induction false} ChainToForkIsPrefix(t: Tree, tip: Hash, i: nat)
    requires WellFounded(t) && tip in t && i < |Ancestors(t, tip)|
    ensures ChainToFork(t, tip, Ancestors(t, tip)[i]) == Ancestors(t, tip)[..i]
    decreases i
  {
    var a := Ancestors(t, tip);
    if i > 0 {
      AncestorsDistinct(t, tip, 0, i);
      ChainToForkIsPrefix(t, Prev(t, tip), i - 1);
      assert a == [tip] + Ancestors(t, Prev(t, tip));
    }
  }

  // ----- Lowest common ancestor

  function FirstIn(xs: seq<Hash>, s: set<Hash>, i: nat): Option<Hash>
    requires i <= |xs|
    decreases |xs| - i
  {
    if i == |xs| then None else if xs[i] in s then Some(xs[i]) else FirstIn(xs, s, i + 1)
  }

  lemma {:induction false} FirstInIndex(xs: seq<Hash>, s: set<Hash>, i: nat) returns (k: nat)
    requires i <= |xs|
    ensures i <= k <= |xs| && forall m | i <= m < k :: xs[m] !in s
    ensures FirstIn(xs, s, i) == if k < |xs| then Some(xs[k]) else None
    ensures k < |xs| ==> xs[k] in s
    decreases |xs| - i
  {
    if i == |xs| || xs[i] in s { k := i; } else { k := FirstInIndex(xs, s, i + 1); }
  }

  ghost function FindLca(t: Tree, a: Hash, b: Hash): Option<Hash>
    requires Acyclic(t)
  {
    FirstIn(Ancestors(t, a), set h | h in Ancestors(t, b), 0)
  }

  /** `FindLca` finds the common ancestor that every other common ancestor is above, if there is one. */
  lemma LcaIsLowest(t: Tree, a: Hash, b: Hash)
    requires WellFounded(t) && a in t && b in t
    ensures
      match FindLca(t, a, b)
      case None => forall x :: !(x in Ancestors(t, a) && x in Ancestors(t, b))
      case Some(f) =>
        && f in t && f in Ancestors(t, a) && f in Ancestors(t, b)
        && forall x | x in Ancestors(t, a) && x in Ancestors(t, b) :: x in Ancestors(t, f)
  {
    var ups, bs := Ancestors(t, a), set h | h in Ancestors(t, b);
    var k := FirstInIndex(ups, bs, 0);
    if k < |ups| {
      AncestorsSuffix(t, a, k);
      forall x | x in ups && x in bs
        ensures x in ups[k..]
      {
        var m :| 0 <= m < |ups| && ups[m] == x;
        assert m >= k;
        assert ups[k..][m - k] == x;
      }
    }
  }

  // ----- Fork plans

  /** A path from above `fork` (excluded) up to its last element, each the child of the one before. */
  predicate LinkedUp(t: Tree, fork: Hash, path: seq<Hash>) {
    forall i | 0 <= i < |path| :: UpLink(t, fork, path, i)
  }

  predicate UpLink(t: Tree, fork: Hash, path: seq<Hash>, i: nat)
    requires i < |path|
  {
    path[i] in t && Prev(t, path[i]) == if i == 0 then fork else path[i - 1]
  }

  /** A path from its first element down to above `fork` (excluded), each the parent of the one before. */
  predicate LinkedDown(t: Tree, fork: Hash, path: seq<Hash>) {
    forall i | 0 <= i < |path| :: DownLink(t, fork, path, i)
  }

  predicate DownLink(t: Tree, fork: Hash, path: seq<Hash>, i: nat)
    requires i < |path|
  {
    path[i] in t && Prev(t, path[i]) == if i + 1 < |path| then path[i + 1] else fork
  }

  function Reverse(s: seq<Hash>): (r: seq<Hash>)
    ensures |r| == |s| && forall i | 0 <= i < |s| :: r[i] == s[|s| - 1 - i]
  {
    seq(|s|, i requires 0 <= i < |s| => s[|s| - 1 - i])
  }

  /** Where the two chains leave the fork point: the indices at which it stands among their ancestors. */
  lemma ForkIndices(t: Tree, prev: Hash, tip: Hash) returns (i: nat, j: nat)
    requires WellFounded(t) && prev in t && tip in t && FindLca(t, prev, tip).Some?
    ensures
      var fork := FindLca(t, prev, tip).value;
      && i < |Ancestors(t, tip)| && Ancestors(t, tip)[i] == fork
      && j < |Ancestors(t, prev)| && Ancestors(t, prev)[j] == fork
      && ChainToFork(t, tip, fork) == Ancestors(t, tip)[..i]
      && ChainToFork(t, prev, fork) == Ancestors(t, prev)[..j]
      && forall m | 0 <= m < j :: Ancestors(t, prev)[m] !in Ancestors(t, tip)
  {
    j := FirstInIndex(Ancestors(t, prev), set h | h in Ancestors(t, tip), 0);
    var fork := FindLca(t, prev, tip).value;
    i :| 0 <= i < |Ancestors(t, tip)| && Ancestors(t, tip)[i] == fork;
    ChainToForkIsPrefix(t, tip, i);
    ChainToForkIsPrefix(t, prev, j);
  }

  lemma UnwindIsLinked(t: Tree, tip: Hash, i: nat)
    requires WellFounded(t) && tip in t && i < |Ancestors(t, tip)|
    ensures LinkedDown(t, Ancestors(t, tip)[i], Ancestors(t, tip)[..i])
    ensures Ancestors(t, tip)[i] !in Ancestors(t, tip)[..i]
  {
    hide Acyclic, Closed;
    var a := Ancestors(t, tip);
    var p := a[..i];
    forall k | 0 <= k < |p|
      ensures DownLink(t, a[i], p, k)
      ensures p[k] != a[i]
    {
      AncestorsLinked(t, tip, k);
      AncestorsDistinct(t, tip, k, i);
    }
  }

  lemma ApplyIsLinked(t: Tree, fork: Hash, down: seq<Hash>, h: Hash)
    requires LinkedDown(t, fork, down) && h in t && Prev(t, h) == (if down == [] then fork else down[0])
    ensures LinkedUp(t, fork, Reverse(down) + [h])
  {
    var up, n := Reverse(down) + [h], |down|;
    forall i | 0 <= i < |up|
      ensures UpLink(t, fork, up, i)
    {
      if i < n {
        var m := n - 1 - i;
        assert DownLink(t, fork, down, m) && up[i] == down[m];
        assert i > 0 ==> up[i - 1] == down[m + 1];
      } else if n > 0 {
        assert up[n - 1] == down[0];
      }
    }
  }

  /** The two halves of a reorganisation: disjoint paths that meet just above the fork point. */
  lemma ForkPlanIsSound(t: Tree, h: Hash, tip: Hash)
    requires WellFounded(t) && h in t && Prev(t, h) in t && tip in t && h !in Ancestors(t, tip)
    requires FindLca(t, Prev(t, h), tip).Some?
    ensures
      var fork := FindLca(t, Prev(t, h), tip).value;
      var unwind := ChainToFork(t, tip, fork);
      var apply := Reverse(ChainToFork(t, Prev(t, h), fork)) + [h];
      && LinkedDown(t, fork, unwind) && LinkedUp(t, fork, apply)
      && (if unwind == [] then tip == fork else unwind[0] == tip)
      && apply[|apply| - 1] == h
      && (forall x | x in unwind :: x !in apply)
      && fork !in unwind && fork !in apply
  {
    hide Acyclic, Closed, LinkedDown, LinkedUp;
    var prev := Prev(t, h);
    var fork := FindLca(t, prev, tip).value;
    var i, j := ForkIndices(t, prev, tip);
    UnwindIsLinked(t, tip, i);
    UnwindIsLinked(t, prev, j);
    var (unwind, down) := (ChainToFork(t, tip, fork), ChainToFork(t, prev, fork));
    ApplyIsLinked(t, fork, down, h);
    NotAmongAncestors(t, prev, tip, j, h);
    assert fork in Ancestors(t, tip);
  }

  lemma NotAmongAncestors(t: Tree, prev: Hash, tip: Hash, j: nat, h: Hash)
    requires WellFounded(t) && j <= |Ancestors(t, prev)| && h !in Ancestors(t, tip)
    requires forall m | 0 <= m < j :: Ancestors(t, prev)[m] !in Ancestors(t, tip)
    ensures forall x | x in Reverse(Ancestors(t, prev)[..j]) + [h] :: x !in Ancestors(t, tip)
  {
  }

  // ----- Work

  /** The work of one block: the largest 64-bit integer divided by the difficulty. */
  function BlockWork(header: BlockHeader): u64 {
    if header.difficultyTarget == 0 then 0 else (U64_LIMIT - 1) / Max(header.difficultyTarget, 1)
  }

  function SatAdd(a: nat, b: nat): nat { Min(U128_MAX, a + b) }

  /** The total work from the root to `h`. */
  ghost function PathWork(t: Tree, h: Hash): nat
    requires Acyclic(t)
    decreases Depth(t, h)
  {
    if h !in t then 0
    else (if Prev(t, h) in t then PathWork(t, Prev(t, h)) else 0) + BlockWork(t[h].header)
  }

  lemma {:induction false} PathWorkExtend(t: Tree, t': Tree, h: Hash)
    requires WellFounded(t) && WellFounded(t') && Extends(t, t') && h in t
    ensures PathWork(t', h) == PathWork(t, h)
    decreases Depth(t, h)
  {
    if Prev(t, h) in t { PathWorkExtend(t, t', Prev(t, h)); }
  }
}
