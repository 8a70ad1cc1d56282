/** Exactly which lists share a Merkle root. An odd node is paired with itself, so what the root commits
    to is the list filled up with copies of its last nodes, and not the length of the list. */
module MerkleBinding {
  import opened Arith
  import opened Types
  import opened Ledger
  import opened Merkle

  // ----- The list behind a root

  function PairUp(xss: seq<seq<Hash>>): (pairs: seq<seq<Hash>>)
    ensures |pairs| == (|xss| + 1) / 2
  {
    seq((|xss| + 1) / 2, i requires 0 <= i < (|xss| + 1) / 2 =>
      xss[2 * i] + if 2 * i + 1 < |xss| then xss[2 * i + 1] else xss[2 * i])
  }

  function Expand(xss: seq<seq<Hash>>): seq<Hash>
    requires xss != []
    decreases |xss|
  {
    if |xss| == 1 then xss[0] else Expand(PairUp(xss))
  }

  function Singletons(xs: seq<Hash>): seq<seq<Hash>> {
    seq(|xs|, i requires 0 <= i < |xs| => [xs[i]])
  }

  /** The list, with the leaves below every self-paired node repeated. */
  function Expansion(xs: seq<Hash>): seq<Hash>
    requires xs != []
  {
    Expand(Singletons(xs))
  }

  /** The root of a full tree. */
  function TreeHash(pair: PairHash, depth: nat, leaves: seq<Hash>): Hash
    requires |leaves| == Pow2(depth)
  {
    if depth == 0 then leaves[0]
    else
      var half := Pow2(depth - 1);
      pair(TreeHash(pair, depth - 1, leaves[..half]), TreeHash(pair, depth - 1, leaves[half..]))
  }

  function Height(n: nat): nat
    requires n > 0
  {
    if n == 1 then 0 else 1 + Height((n + 1) / 2)
  }

  predicate Covers(pair: PairHash, nodes: seq<Hash>, xss: seq<seq<Hash>>, depth: nat) {
    && |nodes| == |xss|
    && forall i | 0 <= i < |xss| :: |xss[i]| == Pow2(depth) && nodes[i] == TreeHash(pair, depth, xss[i])
  }

  lemma NextCovers(pair: PairHash, nodes: seq<Hash>, xss: seq<seq<Hash>>, depth: nat)
    requires Covers(pair, nodes, xss, depth)
    ensures Covers(pair, NextLevel(pair, nodes), PairUp(xss), depth + 1)
  {
    forall i | 0 <= i < |PairUp(xss)|
      ensures |PairUp(xss)[i]| == Pow2(depth + 1) && NextLevel(pair, nodes)[i]
          == TreeHash(pair, depth + 1, PairUp(xss)[i])
    {
      var (l, r) := (2 * i, if 2 * i + 1 < |xss| then 2 * i + 1 else 2 * i);
      assert (xss[l] + xss[r])[..Pow2(depth)] == xss[l] && (xss[l] + xss[r])[Pow2(depth)..] == xss[r];
    }
  }

  /** The root of a list is the root of the full tree over its expansion. */
  lemma {:induction false} RootIsTreeHash(pair: PairHash, nodes: seq<Hash>, xss: seq<seq<Hash>>, depth: nat)
    requires nodes != [] && Covers(pair, nodes, xss, depth)
    ensures |Expand(xss)| == Pow2(depth + Height(|xss|))
    ensures Root(pair, nodes) == TreeHash(pair, depth + Height(|xss|), Expand(xss))
    decreases |nodes|
  {
    hide Pow2, TreeHash, PairUp, NextLevel;
    if |nodes| > 1 {
      NextCovers(pair, nodes, xss, depth);
      RootIsTreeHash(pair, NextLevel(pair, nodes), PairUp(xss), depth + 1);
      assert depth + 1 + Height(|PairUp(xss)|) == depth + Height(|xss|);
    }
  }

  lemma ListCovers(pair: PairHash, xs: seq<Hash>)
    ensures Covers(pair, xs, Singletons(xs), 0)
  {
  }

  // ----- Equal roots

  /** No leaf is the hash of a pair. */
  ghost predicate LeafLike(pair: PairHash, xs: seq<Hash>) {
    forall x, a, b | x in xs :: pair(a, b) != x
  }

  lemma {:induction false} TreeHashBinds(pair: PairHash, d: nat, xs: seq<Hash>, d': nat, ys: seq<Hash>)
    requires Injective(pair) && |xs| == Pow2(d) && |ys| == Pow2(d') && LeafLike(pair, xs) && LeafLike(pair, ys)
    requires TreeHash(pair, d, xs) == TreeHash(pair, d', ys)
    ensures d == d' && xs == ys
    decreases d
  {
    hide Injective;
    if d > 0 && d' > 0 {
      var m, m' := Pow2(d - 1), Pow2(d' - 1);
      PairBinds(pair, TreeHash(pair, d - 1, xs[..m]), TreeHash(pair, d - 1, xs[m..]),
                TreeHash(pair, d' - 1, ys[..m']), TreeHash(pair, d' - 1, ys[m'..]));
      PartsAreLeafLike(pair, xs, m);
      PartsAreLeafLike(pair, ys, m');
      TreeHashBinds(pair, d - 1, xs[..m], d' - 1, ys[..m']);
      TreeHashBinds(pair, d - 1, xs[m..], d' - 1, ys[m'..]);
      assert xs == xs[..m] + xs[m..] && ys == ys[..m'] + ys[m'..];
    } else {
      assert xs[0] in xs && ys[0] in ys;
    }
  }

  lemma PartsAreLeafLike(pair: PairHash, xs: seq<Hash>, m: nat)
    requires m <= |xs| && LeafLike(pair, xs)
    ensures LeafLike(pair, xs[..m]) && LeafLike(pair, xs[m..])
  {
    assert forall x | x in xs[..m] || x in xs[m..] :: x in xs;
  }

  lemma PairBinds(pair: PairHash, a: Hash, b: Hash, c: Hash, d: Hash)
    requires Injective(pair) && pair(a, b) == pair(c, d)
    ensures a == c && b == d
  {
  }

  lemma {:induction false} PowersDiffer(a: nat, b: nat)
    requires Pow2(a) == Pow2(b)
    ensures a == b
  {
    if a > 0 && b > 0 { PowersDiffer(a - 1, b - 1); }
  }

  /** Two lists of any lengths have the same root exactly if their expansions are the same. */
  lemma RootsAgreeExactly(pair: PairHash, xs: seq<Hash>, ys: seq<Hash>)
    requires Injective(pair) && xs != [] && ys != [] && LeafLike(pair, xs) && LeafLike(pair, ys)
    ensures Root(pair, xs) == Root(pair, ys) <==> Expansion(xs) == Expansion(ys)
  {
    hide Pow2, TreeHash, LeafLike, Injective, Root, Expand;
    ListCovers(pair, xs);
    ListCovers(pair, ys);
    RootIsTreeHash(pair, xs, Singletons(xs), 0);
    RootIsTreeHash(pair, ys, Singletons(ys), 0);
    ExpansionIsLeafLike(pair, xs);
    ExpansionIsLeafLike(pair, ys);
    if Root(pair, xs) == Root(pair, ys) {
      TreeHashBinds(pair, Height(|xs|), Expansion(xs), Height(|ys|), Expansion(ys));
    } else if Expansion(xs) == Expansion(ys) {
      PowersDiffer(Height(|xs|), Height(|ys|));
    }
  }

  lemma ExpansionIsLeafLike(pair: PairHash, xs: seq<Hash>)
    requires xs != [] && LeafLike(pair, xs)
    ensures LeafLike(pair, Expansion(xs))
  {
    ExpansionExtends(xs);
  }

  // ----- What an expansion looks like

  function Flat(xss: seq<seq<Hash>>): seq<Hash> {
    if xss == [] then [] else xss[0] + Flat(xss[1..])
  }

  lemma {:induction false} PairUpExtends(xss: seq<seq<Hash>>)
    ensures Flat(xss) <= Flat(PairUp(xss)) && forall x | x in Flat(PairUp(xss)) :: x in Flat(xss)
    decreases |xss|
  {
    var pairs := PairUp(xss);
    if |xss| == 1 {
      assert pairs == [xss[0] + xss[0]] && pairs[1..] == [] && xss[1..] == [];
    } else if |xss| > 1 {
      PairUpExtends(xss[2..]);
      assert pairs[1..] == PairUp(xss[2..]) && pairs[0] == xss[0] + xss[1];
      assert xss[1..][0] == xss[1] && xss[1..][1..] == xss[2..];
      assert Flat(xss) == xss[0] + xss[1] + Flat(xss[2..]);
    }
  }

  lemma {:induction false} ExpandExtends(xss: seq<seq<Hash>>)
    requires xss != []
    ensures Flat(xss) <= Expand(xss) && forall x | x in Expand(xss) :: x in Flat(xss)
    decreases |xss|
  {
    hide PairUp;
    if |xss| == 1 {
      assert xss[1..] == [];
    } else {
      PairUpExtends(xss);
      ExpandExtends(PairUp(xss));
    }
  }

  lemma {:induction false} FlatSingletons(xs: seq<Hash>)
    ensures Flat(Singletons(xs)) == xs
  {
    if xs != [] {
      assert Singletons(xs)[1..] == Singletons(xs[1..]);
      FlatSingletons(xs[1..]);
    }
  }

  /** An expansion begins with the list and goes on with members of it. */
  lemma ExpansionExtends(xs: seq<Hash>)
    requires xs != []
    ensures xs <= Expansion(xs) && forall x | x in Expansion(xs) :: x in xs
  {
    ExpandExtends(Singletons(xs));
    FlatSingletons(xs);
  }

  predicate NoRepeats(xs: seq<Hash>) {
    forall i, j | 0 <= i < j < |xs| :: xs[i] != xs[j]
  }

  /** So of two lists with the same root one begins with the other and goes on with members of it, and
      lists without repetitions are equal. */
  lemma SameExpansion(xs: seq<Hash>, ys: seq<Hash>)
    requires xs != [] && ys != [] && Expansion(xs) == Expansion(ys) && |xs| <= |ys|
    ensures xs <= ys && forall y | y in ys :: y in xs
    ensures NoRepeats(ys) ==> xs == ys
  {
    hide Expansion;
    ExpansionExtends(xs);
    ExpansionExtends(ys);
    assert xs == ys[..|xs|];
    if |xs| < |ys| {
      var y := ys[|xs|];
      assert y in xs;
      var i :| 0 <= i < |xs| && xs[i] == y;
      assert ys[i] == ys[|xs|];
    }
  }

  // ----- Tampering with the transactions of a block

  /** Replacing the transactions of an intact block goes unnoticed exactly if none are left, or if the
      two lists of hashes have the same expansion. */
  lemma UnnoticedExactly(c: Crypto, pair: PairHash, b: Block, txs: seq<Transaction>)
    requires Injective(pair) && Intact(c, pair, b) && b.transactions != []
    requires LeafLike(pair, TxHashes(c, b)) && LeafLike(pair, TxHashes(c, b.(transactions := txs)))
    ensures Intact(c, pair, b.(transactions := txs))
       <==> txs == [] || Expansion(TxHashes(c, b.(transactions := txs))) == Expansion(TxHashes(c, b))
  {
    hide Expansion, Root, LeafLike, Injective;
    if txs != [] { RootsAgreeExactly(pair, TxHashes(c, b.(transactions := txs)), TxHashes(c, b)); }
  }

  /** Where no hash repeats, every change is noticed that leaves a transaction: modified, added, removed
      or reordered. */
  lemma TamperingIsNoticed(c: Crypto, pair: PairHash, b: Block, txs: seq<Transaction>)
    requires Injective(pair) && Intact(c, pair, b) && b.transactions != [] && txs != []
    requires LeafLike(pair, TxHashes(c, b)) && LeafLike(pair, TxHashes(c, b.(transactions := txs)))
    requires NoRepeats(TxHashes(c, b)) && NoRepeats(TxHashes(c, b.(transactions := txs)))
    ensures Intact(c, pair, b.(transactions := txs)) <==> TxHashes(c, b.(transactions := txs)) == TxHashes(c, b)
  {
    hide Expansion, LeafLike, Injective, NoRepeats;
    var xs, ys := TxHashes(c, b), TxHashes(c, b.(transactions := txs));
    UnnoticedExactly(c, pair, b, txs);
    if Expansion(xs) == Expansion(ys) {
      if |xs| <= |ys| { SameExpansion(xs, ys); } else { SameExpansion(ys, xs); }
    }
  }

  /** With the number of transactions unchanged, nothing more is needed than an injective pair hash. */
  lemma SameCountIsNoticed(c: Crypto, pair: PairHash, b: Block, txs: seq<Transaction>)
    requires Injective(pair) && Intact(c, pair, b) && |txs| == |b.transactions|
    ensures Intact(c, pair, b.(transactions := txs)) <==> TxHashes(c, b.(transactions := txs)) == TxHashes(c, b)
  {
    var b' := b.(transactions := txs);
    if txs != [] && Intact(c, pair, b') { RootBinds(pair, TxHashes(c, b), TxHashes(c, b')); }
  }

  /** Three transactions and the same three with the last one repeated have one expansion. */
  lemma RepeatedLastExample(x: Hash, y: Hash, z: Hash)
    ensures Expansion([x, y, z]) == Expansion([x, y, z, z])
  {
    assert Singletons([x, y, z]) == [[x], [y], [z]] && Singletons([x, y, z, z]) == [[x], [y], [z], [z]];
    var (odd, even) := (PairUp([[x], [y], [z]]), PairUp([[x], [y], [z], [z]]));
    assert odd[0] == even[0] && odd[1] == even[1];
    assert odd == even;
  }
}
