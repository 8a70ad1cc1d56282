/** The mining pool: shares are counted per miner, and a reward is split in proportion to them. */
module Pool {
  import opened Arith
  import opened Types

  datatype PoolMiner = PoolMiner(id: Hash, address: Bytes, shares: nat, lastShareTime: u64)

  datatype Share = Share(minerId: Hash, hashHead: u64, difficulty: u64, timestamp: u64)

  datatype Reward = Reward(address: Bytes, amount: nat)

  /** The index of the miner with this id, or the length if there is none. */
  function Find(miners: seq<PoolMiner>, id: Hash): (i: nat)
    ensures i <= |miners| && (i < |miners| ==> miners[i].id == id)
    ensures forall k | 0 <= k < i :: miners[k].id != id
  {
    if miners == [] || miners[0].id == id then 0 else 1 + Find(miners[1..], id)
  }

  function SumShares(miners: seq<PoolMiner>, n: nat): nat
    requires n <= |miners|
  {
    if n == 0 then 0 else SumShares(miners, n - 1) + miners[n - 1].shares
  }

  function Net(reward: u64): u64 { reward - reward / 100 }

  function Capped(a: nat, b: nat): nat {
    if a * b < U64_LIMIT then a * b else U64_LIMIT - 1
  }

  /** A miner's part, with the product capped at the largest 64-bit integer. */
  function Part(net: u64, shares: nat, total: nat): nat
    requires total > 0
  {
    Quotient(Capped(net, shares), total)
  }

  /** The rewards of those of the first `n` miners that have shares. */
  function Rewards(miners: seq<PoolMiner>, net: u64, total: nat, n: nat): seq<Reward>
    requires total > 0 && n <= |miners|
  {
    if n == 0 then []
    else
      var rest, m := Rewards(miners, net, total, n - 1), miners[n - 1];
      if m.shares == 0 then rest else rest + [Reward(m.address, Part(net, m.shares, total))]
  }

  function Paid(rewards: seq<Reward>): nat {
    if rewards == [] then 0 else Paid(rewards[..|rewards| - 1]) + rewards[|rewards| - 1].amount
  }

  predicate NoneSaturates(miners: seq<PoolMiner>, net: u64) {
    forall i | 0 <= i < |miners| :: net * miners[i].shares < U64_LIMIT
  }

  class MiningPool {
    var miners: seq<PoolMiner>
    var totalShares: nat
    /** Shares of submitters that never registered: they count in the total, but for nobody. */
    ghost var strayShares: nat

    ghost predicate Valid()
      reads this
    {
      && (forall i, j | 0 <= i < j < |miners| :: miners[i].id != miners[j].id)
      && SumShares(miners, |miners|) + strayShares == totalShares
    }

    constructor ()
      ensures Valid() && miners == [] && totalShares == 0 && strayShares == 0
    {
      miners, totalShares, strayShares := [], 0, 0;
    }

    method RegisterMiner(id: Hash, address: Bytes)
      requires Valid()
      modifies this`miners
      ensures Valid()
      ensures
        var i, was := Find(old(miners), id), old(miners);
        miners == if i < |was| then was[i := was[i].(address := address)] else was + [PoolMiner(id, address, 0, 0)]
    {
      var i := Find(miners, id);
      if i < |miners| {
        SumOfUpdate(miners, i, miners[i].(address := address), |miners|);
        miners := miners[i := miners[i].(address := address)];
      } else {
        SumOfPrefix(miners, [PoolMiner(id, address, 0, 0)], |miners|);
        miners := miners + [PoolMiner(id, address, 0, 0)];
      }
    }

    method SubmitShare(share: Share) returns (isBlock: bool)
      requires Valid()
      modifies this
      ensures Valid() && totalShares == old(totalShares) + 1
      ensures isBlock <==> share.hashHead < share.difficulty
      ensures
        var i, was := Find(old(miners), share.minerId), old(miners);
        if i < |was| then
          && miners == was[i := was[i].(shares := was[i].shares + 1, lastShareTime := share.timestamp)]
          && strayShares == old(strayShares)
        else miners == was && strayShares == old(strayShares) + 1
    {
      var i := Find(miners, share.minerId);
      if i < |miners| {
        var m := miners[i].(shares := miners[i].shares + 1, lastShareTime := share.timestamp);
        SumOfUpdate(miners, i, m, |miners|);
        miners := miners[i := m];
      } else {
        strayShares := strayShares + 1;
      }
      totalShares := totalShares + 1;
      return share.hashHead < share.difficulty;
    }

    /** Never pays out more than the reward less its fee; and if every submitter was registered and no
        product saturates, rounding keeps back less than one unit per paid miner. */
    method CalculateRewards(totalReward: u64) returns (rewards: seq<Reward>)
      requires Valid()
      ensures 100 * Paid(rewards) <= 99 * totalReward + 99
      ensures totalShares == 0 ==> rewards == []
      ensures totalShares > 0 ==> rewards == Rewards(miners, Net(totalReward), totalShares, |miners|)
      ensures Paid(rewards) <= Net(totalReward)
      ensures totalShares > 0 && strayShares == 0 && NoneSaturates(miners, Net(totalReward)) ==>
                Net(totalReward) - Paid(rewards) < |rewards|
    {
      hide Part, Within, Near, NoneSaturates;
      FeeIsOnePercent(totalReward);
      if totalShares == 0 { return []; }
      var net := Net(totalReward);
      rewards := Rewards(miners, net, totalShares, |miners|);
      PaidAtMost(miners, net, totalShares, |miners|);
      Settles(net, totalShares, Paid(rewards), SumShares(miners, |miners|));
      if strayShares == 0 && NoneSaturates(miners, net) {
        PaidAtLeast(miners, net, totalShares, |miners|);
        Rounds(net, totalShares, Paid(rewards), |rewards|);
      }
    }
  }

  /** The pool keeps one part in a hundred, rounded down. */
  lemma FeeIsOnePercent(reward: u64)
    ensures Net(reward) <= reward && 100 * (reward - Net(reward)) <= reward < 100 * (reward - Net(reward)) + 100
  {
  }

  /** Each miner with shares is paid once, in the order of registration, in proportion to its shares, rounded down;
      where the product does not fit 64 bits, that much less. */
  lemma {:induction false} PaidInProportion(miners: seq<PoolMiner>, net: u64, total: nat, n: nat)
    returns (at: seq<nat>)
    requires total > 0 && n <= |miners|
    ensures
      var rewards := Rewards(miners, net, total, n);
      && |at| == |rewards| && (forall i, j | 0 <= i < j < |at| :: at[i] < at[j])
      && (forall i: nat | i < n :: i in at <==> miners[i].shares > 0)
      && forall k | 0 <= k < |at| ::
           && at[k] < n && rewards[k].address == miners[at[k]].address
           && rewards[k].amount * total <= net * miners[at[k]].shares
           && (net * miners[at[k]].shares < U64_LIMIT ==>
                 net * miners[at[k]].shares < rewards[k].amount * total + total)
           && (net * miners[at[k]].shares >= U64_LIMIT ==>
                 rewards[k].amount * total < U64_LIMIT <= rewards[k].amount * total + total)
  {
    hide Part;
    at := [];
    if n > 0 {
      at := PaidInProportion(miners, net, total, n - 1);
      PartBounds(net, miners[n - 1].shares, total);
      if net * miners[n - 1].shares >= U64_LIMIT { CappedBounds(net, miners[n - 1].shares, total); }
      if miners[n - 1].shares > 0 { at := at + [n - 1]; }
    }
  }

  lemma CappedBounds(net: u64, shares: nat, total: nat)
    requires total > 0 && net * shares >= U64_LIMIT
    ensures Part(net, shares, total) * total < U64_LIMIT <= Part(net, shares, total) * total + total
  {
    QuotientRemainder(Capped(net, shares), total);
  }

  // ----- Supporting facts

  lemma {:induction false} SumOfUpdate(miners: seq<PoolMiner>, i: nat, m: PoolMiner, n: nat)
    requires i < |miners| && n <= |miners|
    ensures SumShares(miners[i := m], n) == SumShares(miners, n) + if i < n then m.shares - miners[i].shares else 0
  {
    if n > 0 { SumOfUpdate(miners, i, m, n - 1); }
  }

  lemma {:induction false} SumOfPrefix(miners: seq<PoolMiner>, more: seq<PoolMiner>, n: nat)
    requires n <= |miners|
    ensures SumShares(miners + more, n) == SumShares(miners, n)
  {
    if n > 0 { SumOfPrefix(miners, more, n - 1); }
  }

  lemma PaidOfAppend(rewards: seq<Reward>, r: Reward)
    ensures Paid(rewards + [r]) == Paid(rewards) + r.amount
  {
    assert (rewards + [r])[..|rewards|] == rewards;
  }

  lemma PartBounds(net: u64, shares: nat, total: nat)
    requires total > 0
    ensures Part(net, shares, total) * total <= net * shares
    ensures net * shares < U64_LIMIT ==> net * shares < Part(net, shares, total) * total + total
  {
    QuotientRemainder(Capped(net, shares), total);
  }

  /** Payments for these shares that are within them, and within one unit of them for each payment. */
  predicate Within(net: nat, total: nat, shares: nat, paid: nat) { paid * total <= net * shares }

  predicate Near(net: nat, total: nat, shares: nat, paid: nat, count: nat) {
    net * shares <= (paid + count) * total - count
  }

  lemma NothingPaid(net: nat, total: nat)
    ensures Within(net, total, 0, 0) && Near(net, total, 0, 0, 0) && Paid([]) == 0
  {
  }

  lemma OneMoreWithin(net: u64, total: nat, shares: nat, paid: nat, more: nat)
    requires total > 0 && Within(net, total, shares, paid)
    ensures Within(net, total, shares + more, paid + Part(net, more, total))
  {
    hide Part;
    PartBounds(net, more, total);
    Distribute(paid, Part(net, more, total), total);
    Distribute(shares, more, net);
  }

  lemma OneMoreNear(net: u64, total: nat, shares: nat, paid: nat, count: nat, more: nat)
    requires total > 0 && net * more < U64_LIMIT && Near(net, total, shares, paid, count)
    ensures Near(net, total, shares + more, paid + Part(net, more, total), count + 1)
  {
    hide Part;
    var part := Part(net, more, total);
    PartBounds(net, more, total);
    Distribute(shares, more, net);
    Distribute(paid + count, part + 1, total);
    Distribute(part, 1, total);
    assert paid + part + (count + 1) == paid + count + (part + 1);
  }

  lemma {:induction false} PaidAtMost(miners: seq<PoolMiner>, net: u64, total: nat, n: nat)
    requires total > 0 && n <= |miners|
    ensures Within(net, total, SumShares(miners, n), Paid(Rewards(miners, net, total, n)))
  {
    hide Part, Within, Paid;
    if n == 0 {
      NothingPaid(net, total);
    } else {
      var rest, m := Rewards(miners, net, total, n - 1), miners[n - 1];
      PaidAtMost(miners, net, total, n - 1);
      if m.shares > 0 {
        OneMoreWithin(net, total, SumShares(miners, n - 1), Paid(rest), m.shares);
        PaidOfAppend(rest, Reward(m.address, Part(net, m.shares, total)));
      }
    }
  }

  lemma {:induction false} PaidAtLeast(miners: seq<PoolMiner>, net: u64, total: nat, n: nat)
    requires total > 0 && n <= |miners| && NoneSaturates(miners, net)
    ensures
      var rewards := Rewards(miners, net, total, n);
      Near(net, total, SumShares(miners, n), Paid(rewards), |rewards|) && (rewards == [] ==> SumShares(miners, n) == 0)
  {
    hide Part, Near, Paid;
    if n == 0 {
      NothingPaid(net, total);
    } else {
      var rest, m := Rewards(miners, net, total, n - 1), miners[n - 1];
      PaidAtLeast(miners, net, total, n - 1);
      if m.shares > 0 {
        OneMoreNear(net, total, SumShares(miners, n - 1), Paid(rest), |rest|, m.shares);
        PaidOfAppend(rest, Reward(m.address, Part(net, m.shares, total)));
      }
    }
  }

  lemma Distribute(a: nat, b: nat, c: nat)
    ensures (a + b) * c == a * c + b * c
  {
  }

  lemma Settles(net: nat, total: nat, paid: nat, shares: nat)
    requires total > 0 && Within(net, total, shares, paid) && shares <= total
    ensures paid <= net
  {
    if paid > net { Exceeds(net, total, paid, shares); }
  }

  lemma Exceeds(net: nat, total: nat, paid: nat, shares: nat)
    requires total > 0 && paid > net && shares <= total
    ensures paid * total > net * shares
  {
    Scales(shares, total, net);
    Scales(net + 1, paid, total);
    Distribute(net, 1, total);
  }

  lemma Rounds(net: nat, total: nat, paid: nat, count: nat)
    requires total > 0 && count > 0 && Near(net, total, total, paid, count)
    ensures net - paid < count
  {
    if net >= paid + count {
      Scales(paid + count, net, total);
    }
  }
}
