/** Sampled verification does not bound the position of the last sample, nor does it always pick it: a hashing for
    which solutions with a sample past the end of the walk, or with a made-up last sample, are accepted although
    the walk itself misses the target. */
module PastTheEnd {
  import opened Types
  import opened ProofOfWork

  function Filled(b: bv8, n: nat): (s: seq<bv8>)
    ensures |s| == n && forall i | 0 <= i < n :: s[i] == b
  {
    if n == 0 then [] else [b] + Filled(b, n - 1)
  }

  function Even(): Mix { Filled(0, 64) }

  function Odd(): Mix { Filled(1, 64) }

  function Flip(m: Mix): Mix { if m == Even() then Odd() else Even() }

  /** The even mix has the largest digest, every other the smallest. */
  function Digest(m: Mix): seq<bv8> { if m == Even() then Filled(255, 8) else Filled(0, 8) }

  function Leaf(position: u64, m: Mix): Hash { position }

  function Pair(a: Hash, b: Hash): Hash { a + b }

  /** A toy hashing that alternates between two mixes, of which only the second meets a difficulty. */
  function Alternating(start: Mix): Hashing {
    Hashing((h: Hash, n: u64) => start, Flip, Digest, Leaf, Pair)
  }

  lemma MixesDiffer()
    ensures Even() != Odd()
  {
    assert Even()[0] != Odd()[0];
  }

  lemma AlternatingAccess(start: Mix, m: Mix)
    requires m == Even() || m == Odd()
    ensures Access(Alternating(start), [Even()], m) == Flip(m) && (Flip(m) == Even() || Flip(m) == Odd())
  {
    hide Filled, ReadU64;
    var zero: Mix := Even();
    assert seq(64, k requires 0 <= k < 64 => m[k] ^ zero[k]) == m;
    assert DagIndex([zero], m) == 0;
  }

  lemma {:induction false} AlternatingWalk(start: Mix, n: nat)
    requires start == Even() || start == Odd()
    ensures Walk(Alternating(start), [Even()], start, n) == if n % 2 == 0 then start else Flip(start)
  {
    hide Filled, Access, Alternating;
    MixesDiffer();
    if n > 0 {
      AlternatingWalk(start, n - 1);
      AlternatingAccess(start, Walk(Alternating(start), [Even()], start, n - 1));
    }
  }

  lemma AllOnes()
    ensures ReadU64(Filled(255, 8)) == U64_LIMIT - 1 && ReadU64(Filled(0, 8)) == 0
  {
    assert Filled(255, 8)[..8] == Filled(255, 8) && Filled(0, 8)[..8] == Filled(0, 8);
    Horner(255, 0);
    Horner(255, 1);
    Horner(255, 2);
    Horner(255, 3);
    Horner(255, 4);
    Horner(255, 5);
    Horner(255, 6);
    Horner(255, 7);
    ZeroIsZero(8);
  }

  lemma Horner(b: bv8, n: nat)
    ensures LittleEndian(Filled(b, n + 1)) == b as nat + 256 * LittleEndian(Filled(b, n))
  {
    assert Filled(b, n + 1)[1..] == Filled(b, n);
  }

  lemma {:induction false} ZeroIsZero(n: nat)
    ensures LittleEndian(Filled(0, n)) == 0
  {
    if n > 0 {
      ZeroIsZero(n - 1);
      Horner(0, n - 1);
    }
  }

  /** For every difficulty above one there is a hashing for which a solution is accepted, with its only
      sample picked, that does not solve. */
  lemma PastTheEndExample(header: Hash, difficulty: u64, nonce: u64)
    requires difficulty > 1
    ensures
      var walk := Accesses(difficulty);
      var p := Alternating(if walk % 2 == 0 then Even() else Odd());
      var s := OneSample(p, header, difficulty, [Even()], nonce, walk);
      && Accepts(p, header, difficulty, [Even()], s, [0]) && !Solves(p, header, difficulty, [Even()], s.nonce)
  {
    hide Walk, ReadU64, Accepts, Filled, Accesses, Even, Odd;
    var walk: nat := Accesses(difficulty);
    var start := if walk % 2 == 0 then Even() else Odd();
    WalkIsShort(difficulty);
    AlternatingWalk(start, walk);
    AlternatingWalk(start, walk + 1);
    MixesDiffer();
    AllOnes();
    PastTheEndExactly(Alternating(start), header, difficulty, [Even()], nonce, walk);
  }

  /** As many right samples as are picked, and one more, which is last. */
  function Unfinished(p: Hashing, header: Hash, difficulty: u64, nonce: u64): (s: Solution)
    requires Accesses(difficulty) > 0
    ensures |s.trace| == SAMPLES + 1 && s.nonce == nonce
  {
    var first := AccessSample(0, 0, Walk(p, [Even()], p.initial(header, nonce), 1), 0);
    var last := AccessSample(Accesses(difficulty) - 1, 0, Even(), 0);
    Solution(nonce, seq(SAMPLES, i => first) + [last], 0, Accesses(difficulty), None)
  }

  function AllButLast(): (picks: seq<nat>)
    ensures |picks| == SAMPLES && forall i | 0 <= i < SAMPLES :: picks[i] == i
  {
    seq(SAMPLES, i requires 0 <= i < SAMPLES => i)
  }

  /** There is a solution with one sample more than are picked, a made-up one in the last place, that is accepted
      if the others are picked, and it does not solve. */
  lemma UnpickedExample(header: Hash, difficulty: u64, nonce: u64) returns (p: Hashing, s: Solution, picks: seq<nat>)
    requires difficulty > 1 && Accesses(difficulty) > 0
    ensures |s.trace| == SAMPLES + 1 && |picks| == SAMPLES && forall i | 0 <= i < SAMPLES :: picks[i] == i
    ensures Accepts(p, header, difficulty, [Even()], s, picks) && !Solves(p, header, difficulty, [Even()], nonce)
    ensures s.nonce == nonce
  {
    hide ReadU64, Accepts, Filled, Accesses, Even, Odd, WithLastMix, Unfinished, AllButLast;
    var walk: nat := Accesses(difficulty);
    var start := if walk % 2 == 0 then Even() else Odd();
    p := Alternating(start);
    WalkIsShort(difficulty);
    AlternatingWalk(start, walk);
    MixesDiffer();
    AllOnes();
    var unfinished := Unfinished(p, header, difficulty, nonce);
    s, picks := WithLastMix(p, unfinished, Odd()), AllButLast();
    UnfinishedSamples(p, header, difficulty, nonce);
    UnpickedLastIsFree(p, header, difficulty, [Even()], unfinished, picks, Odd());
  }

  lemma UnfinishedSamples(p: Hashing, header: Hash, difficulty: u64, nonce: u64)
    requires Accesses(difficulty) > 0
    ensures
      var s := Unfinished(p, header, difficulty, nonce);
      && s.walkLength == Accesses(difficulty) && s.trace[SAMPLES].position == Accesses(difficulty) - 1
      && forall i | 0 <= i < SAMPLES :: SampleOk(p, [Even()], p.initial(header, nonce), s.trace[i])
  {
    hide Walk, Even, Accesses;
  }

  lemma WalkIsShort(difficulty: u64)
    ensures Accesses(difficulty) < U64_LIMIT - 1
  {
  }
}
