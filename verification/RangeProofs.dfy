/** Range proofs by bit decomposition: one commitment and one two-member ring signature per bit. */
module RangeProofs {
  import opened Arith
  import opened Types
  import opened Field
  import opened Mlsag

  datatype RangeProof = RangeProof(bits: nat, commitments: seq<Point>, proofs: seq<Signature>)

  const MAX_BITS: nat := 64

  function Bit(v: nat, i: nat): (b: nat)
    ensures b < 2
  {
    v / Pow2(i) % 2
  }

  /** A Pedersen commitment to `v` under the blinding `a`. */
  function Commit(grp: Group, v: nat, a: Scalar): Point {
    Add(grp.q, Mul(grp.q, a, grp.g), Mul(grp.q, v, grp.h))
  }

  /** The ring of bit `i`: the commitment, and the commitment less one `h`. */
  function BitRing(grp: Group, c: Point): Ring {
    [[Sub(grp.q, c, Mul(grp.q, 0, grp.h))], [Sub(grp.q, c, Mul(grp.q, 1, grp.h))]]
  }

  function WeightedSum(grp: Group, cs: seq<Point>, n: nat): Point
    requires n <= |cs|
  {
    if n == 0 then 0 else Add(grp.q, WeightedSum(grp, cs, n - 1), Mul(grp.q, Pow2(n - 1), cs[n - 1]))
  }

  function WeightedBlinding(grp: Group, blindings: seq<Scalar>, n: nat): Scalar
    requires n <= |blindings|
  {
    if n == 0 then 0
    else Add(grp.q, WeightedBlinding(grp, blindings, n - 1), Mul(grp.q, blindings[n - 1], Pow2(n - 1)))
  }

  predicate AcceptsRange(grp: Group, proof: RangeProof, commitment: Point) {
    && |proof.commitments| <= MAX_BITS
    && |proof.commitments| == |proof.proofs| == proof.bits
    && WeightedSum(grp, proof.commitments, |proof.commitments|) == commitment
    && forall i | 0 <= i < |proof.proofs| :: Accepts(grp, proof.proofs[i], BitRing(grp, proof.commitments[i]),
        BitMsg(i))
  }

  method VerifyRange(grp: Group, proof: RangeProof, commitment: Point) returns (ok: bool)
    ensures ok == AcceptsRange(grp, proof, commitment)
    ensures ok ==> |proof.proofs| == |proof.commitments| == proof.bits <= 64
    ensures ok ==> WeightedSum(grp, proof.commitments, |proof.commitments|) == commitment
    ensures ok ==> forall i | 0 <= i < |proof.proofs| ::
              var (zero, one) := (proof.commitments[i], Sub(grp.q, proof.commitments[i], grp.h % grp.q));
              Accepts(grp, proof.proofs[i], [[zero % grp.q], [one]], BitMsg(i))
  {
    forall c: Point
      ensures BitRing(grp, c) == [[c % grp.q], [Sub(grp.q, c, grp.h % grp.q)]]
    {
      BitRingOf(grp, c);
    }
    if |proof.commitments| > MAX_BITS || |proof.commitments| != |proof.proofs| || |proof.commitments| != proof.bits {
      return false;
    }
    var sum := 0;
    for i := 0 to |proof.commitments|
      invariant sum == WeightedSum(grp, proof.commitments, i)
    {
      sum := Add(grp.q, sum, Mul(grp.q, Pow2(i), proof.commitments[i]));
    }
    if sum != commitment { return false; }
    for i := 0 to |proof.proofs|
      invariant forall k | 0 <= k < i :: Accepts(grp, proof.proofs[k], BitRing(grp, proof.commitments[k]), BitMsg(k))
    {
      var ok' := Verify(grp, proof.proofs[i], BitRing(grp, proof.commitments[i]), BitMsg(i));
      if !ok' { return false; }
    }
    return true;
  }

  /** The ring of a bit: the commitment itself, which opens to zero, and the commitment less one `h`. */
  lemma BitRingOf(grp: Group, c: Point)
    ensures BitRing(grp, c) == [[c % grp.q], [Sub(grp.q, c, grp.h % grp.q)]]
  {
    DivMod(0, grp.q, 0, 0);
    assert Mul(grp.q, 0, grp.h) == 0 && Mul(grp.q, 1, grp.h) == grp.h % grp.q;
  }

  // ----- What is refused

  /** A proof in which two bit signatures stand in each other's place is refused. */
  lemma SwappedBitsAreRefused(grp: Group, proof: RangeProof, commitment: Point, i: nat, j: nat)
    requires InjectiveChallenge(grp) && AcceptsRange(grp, proof, commitment) && i < j < |proof.proofs|
    ensures
      var swapped := proof.proofs[i := proof.proofs[j]][j := proof.proofs[i]];
      !AcceptsRange(grp, proof.(proofs := swapped), commitment)
  {
    hide Accepts, BitRing, WeightedSum;
    var proof' := proof.(proofs := proof.proofs[i := proof.proofs[j]][j := proof.proofs[i]]);
    if AcceptsRange(grp, proof', commitment) {
      assert proof'.proofs[i] == proof.proofs[j];
      OneMessage(grp, proof.proofs[j], BitRing(grp, proof.commitments[j]), BitMsg(j), proof'.proofs[i],
          BitRing(grp, proof.commitments[i]), BitMsg(i));
    }
  }

  /** One in which a bit signature begins with another challenge is refused, under the condition of
      `ChangedStartIsRefused`. */
  lemma ChangedBitIsRefused(grp: Group, proof: RangeProof, commitment: Point, i: nat, c: Scalar)
    requires AcceptsRange(grp, proof, commitment) && i < |proof.proofs| && c != proof.proofs[i].c0
    requires (forall l, r :: grp.challenge(BitMsg(i), l, r) != c) || c % grp.q == proof.proofs[i].c0 % grp.q
    ensures !AcceptsRange(grp, proof.(proofs := proof.proofs[i := proof.proofs[i].(c0 := c)]), commitment)
  {
    hide Accepts, BitRing, WeightedSum;
    var proof' := proof.(proofs := proof.proofs[i := proof.proofs[i].(c0 := c)]);
    ChangedStartIsRefused(grp, proof.proofs[i], BitRing(grp, proof.commitments[i]), BitMsg(i), c);
    assert proof'.proofs[i] == proof.proofs[i].(c0 := c);
  }

  function Swap(a: Scalar, b: Scalar, x: Scalar): Scalar {
    if x == a then b else if x == b then a else x
  }

  /** The challenges after three swaps, which send those of `BitMsg(0)` over (0, 0), (3, 0) and (4, 0) to 0, 2 and 1. */
  function Rewired(grp: Group): Group {
    var (f, msg) := (grp.challenge, BitMsg(0));
    var a := f(msg, 0, 0);
    var b := Swap(a, 0, f(msg, 3, 0));
    var d := Swap(b, 2, Swap(a, 0, f(msg, 4, 0)));
    grp.(h := 1, challenge := (m: Msg, l: Point, r: Point) => Swap(d, 1, Swap(b, 2, Swap(a, 0, f(m, l, r)))))
  }

  lemma RewiredIsInjective(grp: Group)
    requires InjectiveChallenge(grp)
    ensures InjectiveChallenge(Rewired(grp))
    ensures
      var (f, msg) := (Rewired(grp).challenge, BitMsg(0));
      f(msg, 0, 0) == 0 && f(msg, 3, 0) == 2 && f(msg, 4, 0) == 1
  {
    var grp' := Rewired(grp);
    forall m, l, r, m', l', r' | grp'.challenge(m, l, r) == grp'.challenge(m', l', r')
      ensures m == m' && l == l' && r == r'
    {
      assert grp.challenge(m, l, r) == grp.challenge(m', l', r');
    }
  }

  /** A proof of one bit over the commitment 3, whose signature begins with `c`. */
  function OneBit(c: Scalar): RangeProof { RangeProof(1, [3], [Signature(2, 1, [0], c, [[0], [0]])]) }

  /** Some condition is needed: that the challenge is injective does not rule out two accepted proofs that differ in
      their first challenge alone. */
  lemma TwoStarts(grp: Group)
    requires InjectiveChallenge(grp) && grp.q >= 5
    ensures InjectiveChallenge(Rewired(grp))
    ensures AcceptsRange(Rewired(grp), OneBit(0), 3) && AcceptsRange(Rewired(grp), OneBit(1), 3)
  {
    hide Rewired;
    RewiredIsInjective(grp);
    OneBitAccepted(grp, 0, 0, 0, 0);
    OneBitAccepted(grp, 1, 3, 2, 4);
  }

  /** The walk of such a proof, by the challenges that it meets. */
  lemma OneBitAccepted(grp: Group, c: Scalar, l0: Point, c1: Scalar, l1: Point)
    requires grp.q >= 5 && l0 == 3 * c < 5 && l1 == 2 * c1 < 5
    requires Rewired(grp).challenge(BitMsg(0), l0, 0) == c1 && Rewired(grp).challenge(BitMsg(0), l1, 0) == c
    ensures AcceptsRange(Rewired(grp), OneBit(c), 3)
  {
    var grp' := Rewired(grp);
    hide Rewired;
    RewiredKeeps(grp);
    var q, sig := grp'.q, OneBit(c).proofs[0];
    Small(q, 3);
    Small(q, 1);
    Small(q, 2);
    BitRingOf(grp', 3);
    assert BitRing(grp', 3) == [[3], [2]];
    OneStep(grp', c, 3, l0);
    OneStep(grp', c1, 2, l1);
    var ring := [[3], [2]];
    assert Walk(grp', sig, ring, BitMsg(0), 1) == c1;
    assert Walk(grp', sig, ring, BitMsg(0), 2) == c;
    SumOfOne(grp');
  }

  lemma RewiredKeeps(grp: Group)
    ensures Rewired(grp).q == grp.q && Rewired(grp).h == 1
  {
  }

  lemma Small(q: Modulus, x: nat)
    requires x < q
    ensures x % q == x
  {
    DivMod(x, q, 0, x);
  }

  lemma OneStep(grp: Group, c: Scalar, p: Point, l: Point)
    requires l == p * c < grp.q
    ensures Next(grp, BitMsg(0), [0], c, [p], [0]) == grp.challenge(BitMsg(0), l, 0)
  {
    var q, resp, row, images := grp.q, [0], [p], [0];
    Small(q, 0);
    Small(q, l);
    assert Mul(q, 0, grp.g) == 0 && Mul(q, 0, grp.hashPk(p)) == 0 && Mul(q, c, p) == l && Mul(q, c, 0) == 0 by {
      assert 0 * grp.g == 0 && 0 * grp.hashPk(p) == 0 && c * p == l && c * 0 == 0;
    }
    assert Left(grp, resp, c, row, 1) == Add(q, Add(q, Left(grp, resp, c, row, 0), 0), l) == l;
    assert Right(grp, resp, c, row, images, 1) == Add(q, Add(q, Right(grp, resp, c, row, images, 0), 0), 0) == 0;
  }

  lemma SumOfOne(grp: Group)
    requires grp.q >= 5
    ensures WeightedSum(grp, [3], 1) == 3
  {
    Small(grp.q, 3);
    assert Pow2(0) == 1;
    assert WeightedSum(grp, [3], 1) == Add(grp.q, WeightedSum(grp, [3], 0), Mul(grp.q, 1, 3));
  }

  // ----- Provers

  /** `cs` commits to the low bits of `v` under the blindings, and every bit carries an accepted signature. */
  ghost predicate ProvesBits(grp: Group, v: nat, blindings: seq<Scalar>, cs: seq<Point>, proofs: seq<Signature>) {
    && |blindings| == |cs| == |proofs|
    && forall i | 0 <= i < |cs| ::
         && cs[i] == Commit(grp, Bit(v, i), blindings[i])
         && Accepts(grp, proofs[i], BitRing(grp, cs[i]), BitMsg(i))
  }

  lemma CommitLessBit(grp: Group, b: nat, a: Scalar)
    ensures Sub(grp.q, Commit(grp, b, a), Mul(grp.q, b, grp.h)) == Mul(grp.q, a, grp.g)
  {
    var q, x, y := grp.q, Mul(grp.q, a, grp.g), Mul(grp.q, b, grp.h);
    AddCong(q, x, y);
    CongAdd(q, Add(q, x, y), x + y, y, y);
    assert Cong(q, Sub(q, Add(q, x, y), y), x) by { SubCong(q, Add(q, x, y), y); }
    DivMod(x, q, 0, x);
    var s := Sub(q, Add(q, x, y), y);
    DivMod(s, q, 0, s);
  }

  /** Commits to one bit and signs it with the blinding as secret key. */
  method ProveBit(grp: Group, v: nat, i: nat, a: Scalar, alpha: Scalar, filler: Scalar)
    returns (c: Point, sig: Signature)
    ensures c == Commit(grp, Bit(v, i), a)
    ensures Accepts(grp, sig, BitRing(grp, c), BitMsg(i))
  {
    var bit := (v / Pow2(i)) % 2;
    c := Commit(grp, bit, a);
    CommitLessBit(grp, bit, a);
    sig := Sign(grp, BitRing(grp, c), [a], bit, BitMsg(i), [alpha], [[filler], [filler]]);
  }

  /** The loop both provers share: one commitment and signature for each of the first `n` bits. */
  method ProveBits(grp: Group, v: nat, n: nat, blindings: seq<Scalar>, alphas: seq<Scalar>, fillers: seq<Scalar>)
    returns (cs: seq<Point>, proofs: seq<Signature>, total: Scalar)
    requires n <= |blindings| == |alphas| == |fillers|
    ensures ProvesBits(grp, v, blindings[..n], cs, proofs)
    ensures total == WeightedBlinding(grp, blindings, n)
  {
    hide ProvesBits, Accepts, Commit, Bit, BitRing, Pow2, Add, Mul;
    cs, proofs, total := [], [], 0;
    NoBitsYet(grp, v);
    assert blindings[..0] == [];
    for i := 0 to n
      invariant |cs| == i && ProvesBits(grp, v, blindings[..i], cs, proofs)
      invariant total == WeightedBlinding(grp, blindings, i)
    {
      var c, sig := ProveBit(grp, v, i, blindings[i], alphas[i], fillers[i]);
      OneMoreBit(grp, v, blindings[..i], cs, proofs, blindings[i], c, sig);
      assert blindings[..i + 1] == blindings[..i] + [blindings[i]];
      cs, proofs := cs + [c], proofs + [sig];
      total := Add(grp.q, total, Mul(grp.q, blindings[i], Pow2(i)));
    }
  }

  lemma NoBitsYet(grp: Group, v: nat)
    ensures ProvesBits(grp, v, [], [], [])
  {
  }

  lemma OneMoreBit(grp: Group, v: nat, blindings: seq<Scalar>, cs: seq<Point>, proofs: seq<Signature>, a: Scalar,
      c: Point, sig: Signature)
    requires ProvesBits(grp, v, blindings, cs, proofs)
    requires c == Commit(grp, Bit(v, |cs|), a) && Accepts(grp, sig, BitRing(grp, c), BitMsg(|cs|))
    ensures ProvesBits(grp, v, blindings + [a], cs + [c], proofs + [sig])
  {
  }

  /** The prover that draws every blinding and reports their weighted total. */
  method ProveWithBlinding(grp: Group, v: u64, bits: nat, blindings: seq<Scalar>, alphas: seq<Scalar>,
      fillers: seq<Scalar>)
    returns (proof: RangeProof, total: Scalar)
    requires Min(bits, MAX_BITS) <= |blindings| == |alphas| == |fillers|
    requires SuitableGroup(grp)
    ensures proof.bits == Min(bits, MAX_BITS)
    ensures AcceptsRange(grp, proof, Commit(grp, v, total)) <==> v < Pow2(Min(bits, MAX_BITS))
  {
    var n := Min(bits, MAX_BITS);
    var cs, proofs;
    cs, proofs, total := ProveBits(grp, v, n, blindings, alphas, fillers);
    proof := RangeProof(n, cs, proofs);
    WeightedBlindingPrefix(grp, blindings, n, n);
    BitsOpenExactly(grp, v, blindings[..n], cs, proofs, total);
  }

  method Invert(q: Modulus, x: nat, ghost witnessed: nat) returns (y: nat)
    requires witnessed < q && Mul(q, x, witnessed) == 1
    ensures y < q && Mul(q, x, y) == 1
  {
    y :| 0 <= y < q && Mul(q, x, y) == 1;
  }

  /** The prover that solves for the last blinding so that the weighted total is `desired`. */
  method ProveWithExactBlinding(grp: Group, v: u64, desired: Scalar, bits: nat, blindings: seq<Scalar>,
      alphas: seq<Scalar>, fillers: seq<Scalar>)
    returns (proof: RangeProof)
    requires bits >= 1
    requires Min(bits, MAX_BITS) <= |blindings| == |alphas| == |fillers|
    requires SuitableGroup(grp)
    ensures proof.bits == Min(bits, MAX_BITS)
    ensures AcceptsRange(grp, proof, Commit(grp, v, desired)) <==> v < Pow2(Min(bits, MAX_BITS))
  {
    var n := Min(bits, MAX_BITS);
    var last := n - 1;
    var cs, proofs, partial := ProveBits(grp, v, last, blindings, alphas, fillers);
    HalfPowerInverts(grp.q, last);
    var inverse := Invert(grp.q, Pow2(last), HalfPower(grp.q, last));
    var aLast := Mul(grp.q, Sub(grp.q, desired, partial), inverse);
    var c, sig := ProveBit(grp, v, last, aLast, alphas[last], fillers[last]);
    proof := RangeProof(n, cs + [c], proofs + [sig]);

    ghost var drawn := blindings[..last];
    OneMoreBit(grp, v, drawn, cs, proofs, aLast, c, sig);
    WeightedBlindingPrefix(grp, blindings, last, last);
    WeightedBlindingPrefix(grp, drawn + [aLast], last, last);
    assert (drawn + [aLast])[..last] == drawn;
    LastBlindingSolves(grp.q, desired, partial, Pow2(last), inverse);
    BitsOpenExactly(grp, v, drawn + [aLast], proof.commitments, proof.proofs, desired);
  }

  // ----- Why the provers are exact

  /** A prime order above 2^64, and a second generator that is not the identity. */
  ghost predicate SuitableGroup(grp: Group) {
    && PrimeOrder(grp.q)
    && grp.q > U64_LIMIT
    && 0 < grp.h < grp.q
  }

  ghost predicate PrimeOrder(q: Modulus) {
    forall a: nat, b: nat | 0 < a < q && 0 < b < q :: Mul(q, a, b) != 0
  }

  lemma {:induction false} WeightedBlindingPrefix(grp: Group, blindings: seq<Scalar>, m: nat, n: nat)
    requires n <= m <= |blindings|
    ensures WeightedBlinding(grp, blindings[..m], n) == WeightedBlinding(grp, blindings, n)
  {
    if n > 0 { WeightedBlindingPrefix(grp, blindings, m, n - 1); }
  }

  /** One more bit of `v`. */
  lemma LowBits(v: nat, n: nat)
    ensures v % Pow2(n + 1) == v % Pow2(n) + Pow2(n) * Bit(v, n)
  {
    var p := Pow2(n);
    var d := v / p;
    SplitInTwo(v, p, v % p, d / 2, d % 2);
  }

  lemma SplitInTwo(v: nat, p: nat, r: nat, e: nat, b: nat)
    requires p >= 1 && r < p && b < 2 && v == (2 * e + b) * p + r
    ensures v % (2 * p) == r + p * b
  {
    assert (2 * e + b) * p == e * (2 * p) + b * p;
    assert b * p == if b == 0 then 0 else p;
    DivMod(v, 2 * p, e, b * p + r);
  }

  /** The weighted sum of bit commitments is a commitment to the low bits under the weighted blinding. */
  lemma {:induction false} WeightedSumOpens(grp: Group, v: nat, blindings: seq<Scalar>, cs: seq<Point>, n: nat)
    requires |blindings| == |cs| && n <= |cs|
    requires forall i | 0 <= i < |cs| :: cs[i] == Commit(grp, Bit(v, i), blindings[i])
    ensures Cong(grp.q, WeightedSum(grp, cs, n), WeightedBlinding(grp, blindings, n) * grp.g + (v % Pow2(n)) * grp.h)
  {
    if n > 0 {
      var q, m := grp.q, n - 1;
      WeightedSumOpens(grp, v, blindings, cs, m);
      var (w, a, b) := (Pow2(m), blindings[m], Bit(v, m));
      var (sum, bl, low) := (WeightedSum(grp, cs, m), WeightedBlinding(grp, blindings, m), v % Pow2(m));
      CommitCong(grp, b, a);
      CongMul(q, cs[m], a * grp.g + b * grp.h, w);
      MulCong(q, w, cs[m]);
      CongAdd(q, sum, bl * grp.g + low * grp.h, Mul(q, w, cs[m]), w * (a * grp.g + b * grp.h));
      AddCong(q, sum, Mul(q, w, cs[m]));
      MulCong(q, a, w);
      CongAdd(q, bl, bl, Mul(q, a, w), a * w);
      AddCong(q, bl, Mul(q, a, w));
      CongMul(q, WeightedBlinding(grp, blindings, n), bl + a * w, grp.g);
      CongAdd(q, WeightedBlinding(grp, blindings, n) * grp.g, (bl + a * w) * grp.g,
              (low + w * b) * grp.h, (low + w * b) * grp.h);
      Regroup(bl, a, w, b, low, grp.g, grp.h);
      LowBits(v, m);
    } else {
      assert v % 1 == 0;
    }
  }

  lemma Regroup(bl: int, a: int, w: int, b: int, low: int, g: int, h: int)
    ensures (bl * g + low * h) + w * (a * g + b * h) == (bl + a * w) * g + (low + w * b) * h
  {
  }

  lemma CommitCong(grp: Group, v: nat, a: Scalar)
    ensures Cong(grp.q, Commit(grp, v, a), a * grp.g + v * grp.h)
  {
    var q := grp.q;
    MulCong(q, a, grp.g);
    MulCong(q, v, grp.h);
    CongAdd(q, Mul(q, a, grp.g), a * grp.g, Mul(q, v, grp.h), v * grp.h);
    AddCong(q, Mul(q, a, grp.g), Mul(q, v, grp.h));
  }

  /** Two commitments under congruent blindings agree exactly if the values do. */
  lemma CommitmentsAgree(grp: Group, low: nat, v: nat, s: nat, t: nat)
    requires SuitableGroup(grp) && low <= v < U64_LIMIT
    requires Cong(grp.q, s, t * grp.g + low * grp.h)
    ensures Cong(grp.q, s, t * grp.g + v * grp.h) <==> low == v
  {
    if low < v && Cong(grp.q, s, t * grp.g + v * grp.h) {
      EqualCommitments(grp, low, v, s, t);
    }
  }

  lemma EqualCommitments(grp: Group, low: nat, v: nat, s: nat, t: nat)
    requires low <= v
    requires Cong(grp.q, s, t * grp.g + low * grp.h) && Cong(grp.q, s, t * grp.g + v * grp.h)
    ensures Mul(grp.q, v - low, grp.h) == 0
  {
    var q, x := grp.q, t * grp.g;
    CongAdd(q, x + v * grp.h, x + low * grp.h, x + low * grp.h, x + low * grp.h);
    assert (v - low) * grp.h == v * grp.h - low * grp.h;
    DivMod(0, q, 0, 0);
  }

  /** The weighted sum is the commitment to `v` exactly if `v` has no bit above the first `n`. */
  lemma SumIsCommitment(grp: Group, v: u64, blindings: seq<Scalar>, cs: seq<Point>, n: nat, total: Scalar)
    requires SuitableGroup(grp) && |blindings| == |cs| == n
    requires forall i | 0 <= i < |cs| :: cs[i] == Commit(grp, Bit(v, i), blindings[i])
    requires Cong(grp.q, total, WeightedBlinding(grp, blindings, n))
    ensures WeightedSum(grp, cs, n) == Commit(grp, v, total) <==> v < Pow2(n)
  {
    hide PrimeOrder, Commit, Bit;
    var q := grp.q;
    var (sum, bl, low) := (WeightedSum(grp, cs, n), WeightedBlinding(grp, blindings, n), v % Pow2(n));
    WeightedSumOpens(grp, v, blindings, cs, n);
    CongMul(q, total, bl, grp.g);
    CongAdd(q, total * grp.g, bl * grp.g, low * grp.h, low * grp.h);
    LowIsAtMost(v, Pow2(n));
    CommitmentsAgree(grp, low, v, sum, total);
    CommitCong(grp, v, total);
    SumIsReduced(grp, cs, n);
    CommitIsReduced(grp, v, total);
    Reduced(q, sum, Commit(grp, v, total));
  }

  lemma SumIsReduced(grp: Group, cs: seq<Point>, n: nat)
    requires n <= |cs|
    ensures WeightedSum(grp, cs, n) < grp.q
  {
  }

  lemma CommitIsReduced(grp: Group, v: nat, a: Scalar)
    ensures Commit(grp, v, a) < grp.q
  {
  }

  /** The proof is accepted for the commitment to `v` exactly if `v` fits the bits. */
  lemma BitsOpenExactly(grp: Group, v: u64, blindings: seq<Scalar>, cs: seq<Point>, proofs: seq<Signature>,
      total: Scalar)
    requires SuitableGroup(grp) && ProvesBits(grp, v, blindings, cs, proofs) && |cs| <= MAX_BITS
    requires Cong(grp.q, total, WeightedBlinding(grp, blindings, |blindings|))
    ensures AcceptsRange(grp, RangeProof(|cs|, cs, proofs), Commit(grp, v, total)) <==> v < Pow2(|cs|)
  {
    hide PrimeOrder, Commit, Bit, Accepts, WeightedSum, WeightedBlinding;
    SumIsCommitment(grp, v, blindings, cs, |cs|, total);
  }

  lemma Reduced(q: Modulus, a: nat, b: nat)
    requires a < q && b < q
    ensures Cong(q, a, b) <==> a == b
  {
    DivMod(a, q, 0, a);
    DivMod(b, q, 0, b);
  }

  lemma LowIsAtMost(v: nat, p: nat)
    requires p >= 1
    ensures v % p <= v
    ensures v % p == v <==> v < p
  {
    assert v == (v / p) * p + v % p;
    if v < p { if p > 1 { DivMod(v, p, 0, v); } }
  }

  // ----- The inverse of a power of two

  /** The `n`-th power of one half modulo `q`. */
  function HalfPower(q: Modulus, n: nat): (r: nat)
    ensures r < q
  {
    if n == 0 then 1 else Mul(q, HalfPower(q, n - 1), (q + 1) / 2)
  }

  lemma HalvesVanish(q: Modulus)
    requires q % 2 == 0
    ensures Mul(q, 2, q / 2) == 0
  {
    assert 2 * (q / 2) == q;
    DivMod(q, q, 1, 0);
  }

  lemma PrimeIsOdd(q: Modulus)
    requires PrimeOrder(q) && q > 2
    ensures q % 2 == 1
  {
    if q % 2 == 0 {
      HalvesVanish(q);
    }
  }

  lemma {:induction false} HalfPowerInverts(q: Modulus, n: nat)
    requires PrimeOrder(q) && q > 2
    ensures Mul(q, Pow2(n), HalfPower(q, n)) == 1
  {
    if n == 0 {
      DivMod(1, q, 0, 1);
    } else {
      HalfPowerInverts(q, n - 1);
      PrimeIsOdd(q);
      var (w, r, half) := (Pow2(n - 1), HalfPower(q, n - 1), (q + 1) / 2);
      assert 2 * half == q + 1;
      MulCong(q, r, half);
      CongMul(q, HalfPower(q, n), r * half, 2 * w);
      assert (2 * w) * (r * half) == (w * r) * (2 * half) == (w * r) * (q + 1) == w * r + (w * r) * q by {
        TimesHalf(w, r, half, q);
      }
      CongBy(q, (2 * w) * (r * half), w * r, w * r);
      assert Cong(q, Pow2(n) * HalfPower(q, n), w * r);
    }
  }

  lemma TimesHalf(w: int, r: int, half: int, q: int)
    requires 2 * half == q + 1
    ensures (2 * w) * (r * half) == (w * r) * (2 * half) == (w * r) * (q + 1) == w * r + (w * r) * q
  {
    var x := w * r;
    assert (2 * w) * (r * half) == 2 * (w * (r * half)) == 2 * (x * half) by {
      assert w * (r * half) == (w * r) * half;
    }
    assert x * (2 * half) == 2 * (x * half);
  }

  lemma LastBlindingSolves(q: Modulus, desired: nat, partial: nat, w: nat, inverse: nat)
    requires Mul(q, w, inverse) == 1
    ensures Cong(q, desired, Add(q, partial, Mul(q, Mul(q, Sub(q, desired, partial), inverse), w)))
  {
    var d := Sub(q, desired, partial);
    var a := Mul(q, d, inverse);
    SubCong(q, desired, partial);
    MulCong(q, d, inverse);
    CongMul(q, a, d * inverse, w);
    MulCong(q, a, w);
    MulCong(q, w, inverse);
    CongMul(q, w * inverse, 1, d);
    assert (d * inverse) * w == d * (w * inverse) by { assert (d * inverse) * w == d * (inverse * w); }
    assert Cong(q, Mul(q, a, w), d);
    assert Cong(q, Mul(q, a, w), desired - partial);
    CongAdd(q, partial, partial, Mul(q, a, w), desired - partial);
    AddCong(q, partial, Mul(q, a, w));
  }
}
