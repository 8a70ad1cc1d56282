/** A condition on the blocks alone that makes every block of a tree reversible where it applies:
    on no branch is an outpoint made twice, no transaction removes two outpoints under one key image, and the branch is
    too short for its emission to overflow the supply. */
module Hygiene {
  import opened Types
  import opened Ledger
  import opened LedgerProofs
  import opened BlockTree
  import opened Replay

  predicate Makes(c: Crypto, txs: seq<Transaction>, k: UtxoKey) {
    exists t | 0 <= t < |txs| :: k.txHash == TxHash(c, txs[t]) && k.outputIndex < |txs[t].outputs|
  }

  /** No key image goes with two outpoints; an outpoint may be named again under its own. */
  predicate OneOutpointPerImage(inputs: seq<TxInput>) {
    forall i, j | 0 <= i < j < |inputs| :: !SharesImage(inputs, i, j)
  }

  ghost predicate HygienicBlock(o: Origin, t: Tree, h: Hash)
    requires Acyclic(t)
  {
    HasParent(o, t, h) ==>
      && (forall k | Makes(o.c, t[h].transactions, k) :: k !in o.ledger.utxos && !MadeBelow(o, t, Prev(t, h), k))
      && (forall i | 0 <= i < |t[h].transactions| :: OneOutpointPerImage(t[h].transactions[i].inputs))
      && o.ledger.supply + |Ancestors(t, h)| * MAX_EMISSION < U64_LIMIT
  }

  /** Some block from just above genesis up to `h` makes the outpoint. */
  ghost predicate MadeBelow(o: Origin, t: Tree, h: Hash, k: UtxoKey)
    requires Acyclic(t)
    decreases Depth(t, h)
  {
    HasParent(o, t, h) && (Makes(o.c, t[h].transactions, k) || MadeBelow(o, t, Prev(t, h), k))
  }

  ghost predicate HygienicTree(o: Origin, t: Tree) {
    Acyclic(t) && forall h | h in t :: HygienicBlock(o, t, h)
  }

  // ----- What a block can add

  lemma {:induction false} SpendAllShrinks(l: LedgerState, inputs: seq<TxInput>, n: nat)
    requires n <= |inputs|
    ensures SpendAll(l, inputs, n).utxos.Keys <= l.utxos.Keys && SpendAll(l, inputs, n).supply == l.supply
  {
    if n > 0 { SpendAllShrinks(l, inputs, n - 1); }
  }

  lemma ApplyTxAdds(c: Crypto, l: LedgerState, d: BlockDiff, txs: seq<Transaction>, i: nat, height: u64)
    requires i < |txs|
    ensures
      var o := ApplyTx(c, l, d, txs[i], i, height);
      && (forall k | k in o.ledger.utxos :: k in l.utxos || Makes(c, txs, k))
      && o.ledger.supply <= l.supply + (if i == 0 then MAX_EMISSION else 0)
  {
    var tx, o, n := txs[i], ApplyTx(c, l, d, txs[i], i, height), |txs[i].outputs|;
    if o.error.None? {
      if i == 0 {
        AddOutputsAt(l.utxos, TxHash(c, tx), tx.outputs, height, i, n);
      } else {
        SpendAllShrinks(l, tx.inputs, |tx.inputs|);
        AddOutputsAt(SpendAll(l, tx.inputs, |tx.inputs|).utxos, TxHash(c, tx), tx.outputs, height, i, n);
      }
    }
  }

  lemma {:induction false} ApplyAdds(c: Crypto, l: LedgerState, d: BlockDiff, txs: seq<Transaction>, height: u64,
      i: nat)
    requires i <= |txs|
    ensures
      var o := ApplyFrom(c, l, d, txs, height, i);
      && (forall k | k in o.ledger.utxos :: k in l.utxos || Makes(c, txs, k))
      && o.ledger.supply <= l.supply + (if i == 0 then MAX_EMISSION else 0)
    decreases |txs| - i
  {
    hide ApplyTx, Makes;
    if i < |txs| {
      ApplyTxAdds(c, l, d, txs, i, height);
      var o := ApplyTx(c, l, d, txs[i], i, height);
      if o.error.None? { ApplyAdds(c, o.ledger, o.diff, txs, height, i + 1); }
    }
  }

  /** Outpoints of a replayed ledger come from the start or from a block on the way, and each block
      raises the supply by at most the emission cap. */
  lemma {:induction false} ReplayAdds(o: Origin, t: Tree, h: Hash)
    requires Acyclic(t) && ReplayTo(o, t, h).Some?
    ensures
      var l := ReplayTo(o, t, h).value;
      && (forall k | k in l.utxos :: k in o.ledger.utxos || MadeBelow(o, t, h, k))
      && l.supply <= o.ledger.supply + (|Ancestors(t, h)| - 1) * MAX_EMISSION
    decreases Depth(t, h)
  {
    hide Acyclic, Makes, ApplyFrom, Unwind;
    if h == o.genesis {
      assert 0 <= (|Ancestors(t, h)| - 1) * MAX_EMISSION;
    } else {
      DepthOfParent(t, h);
      ReplayAdds(o, t, Prev(t, h));
      ApplyAdds(o.c, ReplayTo(o, t, Prev(t, h)).value, EMPTY_DIFF, t[h].transactions, t[h].header.height, 0);
    }
  }

  lemma HygienicBlockIsSafe(o: Origin, t: Tree, h: Hash)
    requires Acyclic(t) && HygienicBlock(o, t, h)
    ensures SafeBlock(o, t, h)
  {
    hide Acyclic, ReplayTo, MadeBelow, Preimage, FirstNaming;
    if HasParent(o, t, h) && ReplayTo(o, t, Prev(t, h)).Some? {
      var l, txs := ReplayTo(o, t, Prev(t, h)).value, t[h].transactions;
      ReplayAdds(o, t, Prev(t, h));
      assert |Ancestors(t, h)| == |Ancestors(t, Prev(t, h))| + 1;
      forall i, j | 0 <= i < |txs| && 0 <= j < |txs[i].outputs|
        ensures UtxoKey(TxHash(o.c, txs[i]), j) !in l.utxos
      {
        assert Makes(o.c, txs, UtxoKey(TxHash(o.c, txs[i]), j));
      }
    }
  }

  lemma HygienicTreeIsSafe(o: Origin, t: Tree)
    requires HygienicTree(o, t)
    ensures SafeTree(o, t)
  {
    hide SafeBlock, HygienicBlock, Acyclic;
    forall h | h in t
      ensures SafeBlock(o, t, h)
    {
      HygienicBlockIsSafe(o, t, h);
    }
  }

  lemma {:induction false} MadeBelowExtend(o: Origin, t: Tree, t': Tree, h: Hash, k: UtxoKey)
    requires WellFounded(t) && Acyclic(t') && Extends(t, t') && h in t
    ensures MadeBelow(o, t', h, k) <==> MadeBelow(o, t, h, k)
    decreases Depth(t, h)
  {
    hide Makes;
    if HasParent(o, t, h) { MadeBelowExtend(o, t, t', Prev(t, h), k); }
  }

  lemma HygienicSubtree(o: Origin, t: Tree, t': Tree)
    requires WellFounded(t) && Extends(t, t') && HygienicTree(o, t')
    ensures HygienicTree(o, t)
  {
    hide Makes, OneOutpointPerImage, Ancestors, MadeBelow;
    forall h | h in t
      ensures HygienicBlock(o, t, h)
    {
      assert HygienicBlock(o, t', h);
      AncestorsExtend(t, t', h);
      if HasParent(o, t, h) {
        forall k | Makes(o.c, t[h].transactions, k)
          ensures k !in o.ledger.utxos && !MadeBelow(o, t, Prev(t, h), k)
        {
          MadeBelowExtend(o, t, t', Prev(t, h), k);
        }
      }
    }
  }
}
