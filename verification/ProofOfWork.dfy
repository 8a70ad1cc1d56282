/** The memory walk of the proof of work: mining it, and the three ways of verifying it. The hash
    functions, the DAG, the nonces, the clock and the sampling choices are parameters. */
module ProofOfWork {
  import opened Arith
  import opened Types
  import opened Digits
  import opened Merkle

  type Mix = s: seq<bv8> | |s| == 64 witness seq(64, _ => 0)

  /** `initial` seeds the walk, `sha512` ends each access, `keccak` hashes the final mix, and `leaf`
      hashes one sample. */
  datatype Hashing = Hashing(
    initial: (Hash, u64) -> Mix, sha512: Mix -> Mix, keccak: Mix -> seq<bv8>, leaf: (u64, Mix) -> Hash, pair: PairHash)

  datatype AccessSample = AccessSample(position: u64, dagIndex: nat, mixHash: Mix, elapsedOffset: u64)

  datatype Solution = Solution(
    nonce: u64, trace: seq<AccessSample>, elapsedMs: u64, walkLength: u64, merkleRoot: Option<Hash>)

  const SAMPLES: nat := 30

  function LittleEndian(bytes: seq<bv8>): nat {
    if bytes == [] then 0 else bytes[0] as nat + 256 * LittleEndian(bytes[1..])
  }

  function ReadU64(bytes: seq<bv8>): nat { LittleEndian(bytes[..Min(8, |bytes|)]) }

  predicate MeetsDifficulty(digest: seq<bv8>, difficulty: u64) {
    ReadU64(digest) <= (U64_LIMIT - 1) / Max(difficulty, 1)
  }

  /** The product wraps in 64 bits, for the miner and for the verifier alike. */
  function Accesses(difficulty: u64): u64 { 1_000_000_000 * difficulty % U64_LIMIT / 1_000_000_000 }

  function Interval(walk: nat): nat { Max(1, walk / 1000) }

  /** The first eight bytes, the lowest first. */
  lemma ReadsLittleEndian(b: seq<bv8>)
    requires |b| >= 8
    ensures ReadU64(b) == b[0] as nat + 256 * (b[1] as nat + 256 * (b[2] as nat + 256 * (b[3] as nat + 256 *
        (b[4] as nat + 256 * (b[5] as nat + 256 * (b[6] as nat + 256 * (b[7] as nat)))))))
  {
    var s := b[..8];
    assert LittleEndian(s[8..]) == 0;
    LastBytes(s, 7);
    LastBytes(s, 6);
    LastBytes(s, 5);
    LastBytes(s, 4);
    LastBytes(s, 3);
    LastBytes(s, 2);
    LastBytes(s, 1);
    LastBytes(s, 0);
    assert s[0..] == s;
  }

  lemma LastBytes(s: seq<bv8>, i: nat)
    requires i < |s|
    ensures LittleEndian(s[i..]) == s[i] as nat + 256 * LittleEndian(s[i + 1..])
  {
    assert s[i..][1..] == s[i + 1..];
  }

  /** A digest meets a difficulty exactly if their product fits 64 bits; a difficulty of zero counts as one. */
  lemma TargetExactly(digest: seq<bv8>, difficulty: u64)
    ensures MeetsDifficulty(digest, difficulty) <==> ReadU64(digest) * Max(difficulty, 1) < 0x1_0000_0000_0000_0000
  {
    hide ReadU64;
    AtMostQuotient(ReadU64(digest), U64_LIMIT - 1, Max(difficulty, 1));
  }

  /** The walk has as many accesses as the difficulty says, below the value where the product wraps. */
  lemma OneAccessEach(difficulty: u64)
    requires 1_000_000_000 * difficulty < U64_LIMIT
    ensures Accesses(difficulty) == difficulty
  {
  }

  // ----- The walk

  function DagIndex(dag: seq<Mix>, m: Mix): (i: nat)
    requires dag != []
    ensures i < |dag|
  {
    ReadU64(m) % |dag|
  }

  function Access(p: Hashing, dag: seq<Mix>, m: Mix): Mix
    requires dag != []
  {
    p.sha512(seq(64, k requires 0 <= k < 64 => m[k] ^ dag[DagIndex(dag, m)][k]))
  }

  function Walk(p: Hashing, dag: seq<Mix>, m: Mix, n: nat): Mix
    requires dag != []
  {
    if n == 0 then m else Access(p, dag, Walk(p, dag, m, n - 1))
  }

  lemma {:induction false} WalkAdd(p: Hashing, dag: seq<Mix>, m: Mix, a: nat, b: nat)
    requires dag != []
    ensures Walk(p, dag, Walk(p, dag, m, a), b) == Walk(p, dag, m, a + b)
  {
    if b > 0 { WalkAdd(p, dag, m, a, b - 1); }
  }

  method AccessInPlace(p: Hashing, dag: seq<Mix>, mix: array<bv8>)
    requires dag != [] && mix.Length == 64
    modifies mix
    ensures mix[..] == Access(p, dag, old(mix[..]))
    ensures
      var (m, i) := (old(mix[..]), ReadU64(old(mix[..])) % |dag|);
      mix[..] == p.sha512(seq(64, k requires 0 <= k < 64 => m[k] ^ dag[i][k]))
  {
    ghost var before: Mix := mix[..];
    var index := DagIndex(dag, mix[..]);
    var element := dag[index];
    for k := 0 to 64
      invariant forall j | 0 <= j < k :: mix[j] == before[j] ^ element[j]
      invariant forall j | k <= j < 64 :: mix[j] == before[j]
    {
      mix[k] := mix[k] ^ element[k];
    }
    assert mix[..] == seq(64, k requires 0 <= k < 64 => before[k] ^ element[k]);
    var digest := p.sha512(mix[..]);
    forall k | 0 <= k < 64 { mix[k] := digest[k]; }
    assert mix[..] == digest;
  }

  method WalkInPlace(p: Hashing, dag: seq<Mix>, mix: array<bv8>, n: nat)
    requires dag != [] && mix.Length == 64
    modifies mix
    ensures mix[..] == Walk(p, dag, old(mix[..]), n)
  {
    hide Access;
    for i := 0 to n
      invariant mix[..] == Walk(p, dag, old(mix[..]), i)
    {
      AccessInPlace(p, dag, mix);
    }
  }

  method Buffer(m: Mix) returns (mix: array<bv8>)
    ensures fresh(mix) && mix.Length == 64 && mix[..] == m
  {
    mix := new bv8[64](i requires 0 <= i < 64 => m[i]);
  }

  // ----- The trace

  /** One sample for every multiple of the interval among the first `n` accesses. */
  function TraceOf(p: Hashing, dag: seq<Mix>, m: Mix, interval: nat, clock: nat -> u64, n: nat): seq<AccessSample>
    requires dag != [] && interval > 0 && n < U64_LIMIT
  {
    if n == 0 then []
    else
      var trace := TraceOf(p, dag, m, interval, clock, n - 1);
      if (n - 1) % interval != 0 then trace
      else trace + [AccessSample(n - 1, DagIndex(dag, Walk(p, dag, m, n - 1)), Walk(p, dag, m, n), clock(n - 1))]
  }

  /** How many multiples of `d` are below `n`. */
  function Multiples(n: nat, d: nat): nat
    requires d > 0
  {
    (n + d - 1) / d
  }

  lemma NextMultiple(n: nat, d: nat)
    requires d > 0
    ensures n % d == 0 ==> Multiples(n, d) == n / d
    ensures Multiples(n + 1, d) == Multiples(n, d) + if n % d == 0 then 1 else 0
  {
    var q, r := n / d, n % d;
    assert n == q * d + r;
    if r == 0 {
      DivMod(n + d - 1, d, q, d - 1);
      DivMod(n + d, d, q + 1, 0);
    } else {
      DivMod(n + d - 1, d, q + 1, r - 1);
      DivMod(n + d, d, q + 1, r);
    }
  }

  predicate SampleOk(p: Hashing, dag: seq<Mix>, m: Mix, s: AccessSample)
    requires dag != []
  {
    s.mixHash == Walk(p, dag, m, s.position + 1)
  }

  /** Sample `j` stands at the multiple `j` of the interval and holds the mix after that access. */
  predicate SampleAt(p: Hashing, dag: seq<Mix>, m: Mix, interval: nat, clock: nat -> u64, n: nat, j: nat,
      s: AccessSample)
    requires dag != [] && interval > 0
  {
    && s.position < n && s.position % interval == 0 && s.position / interval == j
    && SampleOk(p, dag, m, s) && s.dagIndex == DagIndex(dag, Walk(p, dag, m, s.position))
    && s.elapsedOffset == clock(s.position)
  }

  lemma {:induction false} TraceAt(p: Hashing, dag: seq<Mix>, m: Mix, interval: nat, clock: nat -> u64, n: nat)
    requires dag != [] && interval > 0 && n < U64_LIMIT
    ensures
      var trace := TraceOf(p, dag, m, interval, clock, n);
      && |trace| == Multiples(n, interval)
      && forall j | 0 <= j < |trace| :: SampleAt(p, dag, m, interval, clock, n, j, trace[j])
  {
    hide Walk, DagIndex, SampleAt, Multiples;
    if n == 0 {
      NoMultiples(interval);
    } else {
      var trace, trace' := TraceOf(p, dag, m, interval, clock, n - 1), TraceOf(p, dag, m, interval, clock, n);
      TraceAt(p, dag, m, interval, clock, n - 1);
      NextMultiple(n - 1, interval);
      forall j | 0 <= j < |trace'|
        ensures SampleAt(p, dag, m, interval, clock, n, j, trace'[j])
      {
        if j < |trace| {
          LaterSampleAt(p, dag, m, interval, clock, n - 1, j, trace[j]);
        } else {
          NewSampleAt(p, dag, m, interval, clock, n, trace'[j]);
        }
      }
    }
  }

  lemma NoMultiples(d: nat)
    requires d > 0
    ensures Multiples(0, d) == 0
  {
    DivMod(d - 1, d, 0, d - 1);
  }

  lemma LaterSampleAt(p: Hashing, dag: seq<Mix>, m: Mix, interval: nat, clock: nat -> u64, n: nat, j: nat,
      s: AccessSample)
    requires dag != [] && interval > 0 && SampleAt(p, dag, m, interval, clock, n, j, s)
    ensures SampleAt(p, dag, m, interval, clock, n + 1, j, s)
  {
    hide Walk;
  }

  lemma NewSampleAt(p: Hashing, dag: seq<Mix>, m: Mix, interval: nat, clock: nat -> u64, n: nat, s: AccessSample)
    requires dag != [] && interval > 0 && n > 0 && (n - 1) % interval == 0
    requires s.position == n - 1 && s.mixHash == Walk(p, dag, m, n) && s.elapsedOffset == clock(n - 1)
    requires s.dagIndex == DagIndex(dag, Walk(p, dag, m, n - 1))
    ensures SampleAt(p, dag, m, interval, clock, n, (n - 1) / interval, s)
  {
    hide Walk;
  }

  // ----- Mining

  function Leaves(p: Hashing, trace: seq<AccessSample>): seq<Hash> {
    seq<Hash>(|trace|, i requires 0 <= i < |trace| => p.leaf(trace[i].position, trace[i].mixHash))
  }

  /** The full walk from this nonce ends below the target. */
  predicate Solves(p: Hashing, header: Hash, difficulty: u64, dag: seq<Mix>, nonce: u64)
    requires dag != []
  {
    MeetsDifficulty(p.keccak(Walk(p, dag, p.initial(header, nonce), Accesses(difficulty))), difficulty)
  }

  /** A solution as an honest miner makes it. */
  predicate Honest(p: Hashing, header: Hash, difficulty: u64, dag: seq<Mix>, clock: nat -> u64, s: Solution)
    requires dag != []
  {
    var walk := Accesses(difficulty);
    && Solves(p, header, difficulty, dag, s.nonce) && s.walkLength == walk
    && s.trace == TraceOf(p, dag, p.initial(header, s.nonce), Interval(walk), clock, walk)
    && s.merkleRoot == if s.trace == [] then None else Some(Root(p.pair, Leaves(p, s.trace)))
  }

  /** Tries the nonces in turn and returns the first that solves, with its trace. */
  method Mine(p: Hashing, header: Hash, difficulty: u64, dag: seq<Mix>, nonces: seq<u64>, clocks: nat -> (nat -> u64),
      millis: nat -> u64)
    returns (r: Option<Solution>)
    requires dag != []
    ensures r == None <==> forall a | 0 <= a < |nonces| :: !Solves(p, header, difficulty, dag, nonces[a])
    ensures r.Some? ==> exists a: nat :: a < |nonces| && FirstSolution(p, header, difficulty, dag, nonces, a)
                                         && nonces[a] == r.value.nonce
                                             && Honest(p, header, difficulty, dag, clocks(a), r.value)
                                             && r.value.elapsedMs == millis(a)
  {
    hide Walk, Access, DagIndex, MeetsDifficulty, Root, TraceOf, Accesses, Leaves;
    var walk := Accesses(difficulty);
    var interval := Interval(walk);
    for a: nat := 0 to |nonces|
      invariant forall b | 0 <= b < a :: !Solves(p, header, difficulty, dag, nonces[b])
    {
      var nonce := nonces[a];
      var m := p.initial(header, nonce);
      var mix := Buffer(m);
      var trace := [];
      StartOfWalk(p, dag, m, interval, clocks(a));
      for i := 0 to walk
        invariant mix[..] == Walk(p, dag, m, i) && trace == TraceOf(p, dag, m, interval, clocks(a), i)
      {
        var index := DagIndex(dag, mix[..]);
        AccessInPlace(p, dag, mix);
        NextOfWalk(p, dag, m, interval, clocks(a), i);
        if i % interval == 0 { trace := trace + [AccessSample(i, index, mix[..], clocks(a)(i))]; }
      }
      if MeetsDifficulty(p.keccak(mix[..]), difficulty) {
        var merkleRoot := None;
        if trace != [] {
          var root := MerkleRootFromLeaves(p.pair, Leaves(p, trace));
          merkleRoot := Some(root);
        }
        r := Some(Solution(nonce, trace, millis(a), walk, merkleRoot));
        assert FirstSolution(p, header, difficulty, dag, nonces, a);
        return;
      }
    }
    return None;
  }

  predicate FirstSolution(p: Hashing, header: Hash, difficulty: u64, dag: seq<Mix>, nonces: seq<u64>, a: nat)
    requires dag != [] && a < |nonces|
  {
    Solves(p, header, difficulty, dag, nonces[a])
    && forall b | 0 <= b < a :: !Solves(p, header, difficulty, dag, nonces[b])
  }

  lemma StartOfWalk(p: Hashing, dag: seq<Mix>, m: Mix, interval: nat, clock: nat -> u64)
    requires dag != [] && interval > 0
    ensures Walk(p, dag, m, 0) == m && TraceOf(p, dag, m, interval, clock, 0) == []
  {
  }

  lemma NextOfWalk(p: Hashing, dag: seq<Mix>, m: Mix, interval: nat, clock: nat -> u64, i: nat)
    requires dag != [] && interval > 0 && i + 1 < U64_LIMIT
    ensures Walk(p, dag, m, i + 1) == Access(p, dag, Walk(p, dag, m, i))
    ensures
      var (trace, w) := (TraceOf(p, dag, m, interval, clock, i), Walk(p, dag, m, i));
      TraceOf(p, dag, m, interval, clock, i + 1)
      == if i % interval != 0 then trace else trace + [AccessSample(i, DagIndex(dag, w), Access(p, dag, w), clock(i))]
  {
  }

  // ----- Sampling

  predicate Choices(choices: seq<nat>, n: nat, total: nat) {
    |choices| == n && forall i | 0 <= i < n :: i <= choices[i] < total
  }

  /** Every index below `total`, once each. */
  predicate Arrangement(s: seq<nat>, total: nat) {
    && |s| == total
    && (forall i | 0 <= i < |s| :: s[i] < total)
    && (forall i, j | 0 <= i < j < |s| :: s[i] != s[j])
    && forall x: nat | x < total :: x in s
  }

  lemma IdentityIsArrangement(s: seq<nat>)
    requires forall i | 0 <= i < |s| :: s[i] == i
    ensures Arrangement(s, |s|)
  {
    forall x: nat | x < |s|
      ensures x in s
    {
      assert s[x] == x;
    }
  }

  lemma SwapKeepsArrangement(s: seq<nat>, total: nat, i: nat, j: nat)
    requires Arrangement(s, total) && i < |s| && j < |s|
    ensures Arrangement(s[i := s[j]][j := s[i]], total)
  {
    var s' := s[i := s[j]][j := s[i]];
    forall x: nat | x < total
      ensures x in s'
    {
      assert x in s;
      var k :| 0 <= k < |s| && s[k] == x;
      assert s'[if k == i then j else if k == j then i else k] == x;
    }
  }

  /** Distinct indices below `total`, as many as asked for or all of them, by a partial shuffle. */
  method SampleIndices(n: nat, total: nat, choices: seq<nat>) returns (picks: seq<nat>)
    requires Choices(choices, Min(n, total), total)
    ensures |picks| == Min(n, total)
    ensures forall i | 0 <= i < |picks| :: picks[i] < total
    ensures forall i, j | 0 <= i < j < |picks| :: picks[i] != picks[j]
    ensures n >= total ==> forall x: nat | x < total :: x in picks
  {
    if total == 0 { return []; }
    var count := Min(n, total);
    var indices := new nat[total](i => i);
    IdentityIsArrangement(indices[..]);
    for i := 0 to count
      invariant Arrangement(indices[..], total)
    {
      var j := choices[i];
      SwapKeepsArrangement(indices[..], total, i, j);
      ghost var swapped := indices[..][i := indices[j]][j := indices[i]];
      indices[i], indices[j] := indices[j], indices[i];
      assert indices[..] == swapped;
    }
    assert count == total ==> indices[..count] == indices[..];
    return indices[..count];
  }

  // ----- Verifying

  /** The sample that a full walk expects at access `i`, if it expects one there. */
  predicate SampleDue(p: Hashing, dag: seq<Mix>, m: Mix, interval: nat, trace: seq<AccessSample>, i: nat)
    requires dag != [] && interval > 0
  {
    i % interval == 0 ==>
      var j := i / interval;
      && j < |trace| && trace[j].position == i && SampleOk(p, dag, m, trace[j])
      && trace[j].elapsedOffset >= Before(trace, j)
  }

  function Before(trace: seq<AccessSample>, j: nat): u64
    requires j <= |trace|
  {
    if j == 0 then 0 else trace[j - 1].elapsedOffset
  }

  /** The mix that sampled verification walks to: from the last sample on, wherever it stands. */
  function FromLastSample(p: Hashing, dag: seq<Mix>, trace: seq<AccessSample>, walk: nat): Mix
    requires dag != [] && trace != []
  {
    var last := trace[|trace| - 1];
    Walk(p, dag, last.mixHash, Max(0, walk - (last.position + 1) % U64_LIMIT))
  }

  /** Without a trace the whole walk is recomputed; with a trace and its root only the picked samples
      and the part after the last sample; with a trace alone the whole walk and every sample. */
  predicate Accepts(p: Hashing, header: Hash, difficulty: u64, dag: seq<Mix>, s: Solution, picks: seq<nat>)
    requires dag != [] && forall i | 0 <= i < |picks| :: picks[i] < |s.trace|
  {
    var walk, m := Accesses(difficulty), p.initial(header, s.nonce);
    && s.walkLength == walk
    && if s.trace == [] then Solves(p, header, difficulty, dag, s.nonce)
       else if s.merkleRoot.Some? then
         && Root(p.pair, Leaves(p, s.trace)) == s.merkleRoot.value
         && (forall i | 0 <= i < |picks| :: SampleOk(p, dag, m, s.trace[picks[i]]))
         && MeetsDifficulty(p.keccak(FromLastSample(p, dag, s.trace, walk)), difficulty)
       else
         && (forall i | 0 <= i < walk :: SampleDue(p, dag, m, Interval(walk), s.trace, i))
         && Solves(p, header, difficulty, dag, s.nonce)
  }

  method Verify(p: Hashing, header: Hash, difficulty: u64, dag: seq<Mix>, s: Solution, choices: seq<nat>)
    returns (e: Option<Error>, ghost picks: seq<nat>)
    requires dag != [] && Choices(choices, Min(SAMPLES, |s.trace|), |s.trace|)
    ensures forall i | 0 <= i < |picks| :: picks[i] < |s.trace|
    ensures |s.trace| <= 30 ==> forall x: nat | x < |s.trace| :: x in picks
    ensures e == None <==> Accepts(p, header, difficulty, dag, s, picks)
    ensures e == Some(WalkLengthMismatch) <==> s.walkLength != Accesses(difficulty)
  {
    hide Walk, Access, DagIndex, MeetsDifficulty, Root, Accesses, Leaves, SampleOk, SampleDue;
    var indices := SampleIndices(SAMPLES, |s.trace|, choices);
    picks := indices;
    var walk := Accesses(difficulty);
    if s.walkLength != walk { e := Some(WalkLengthMismatch); return; }
    var m := p.initial(header, s.nonce);
    if s.trace == [] {
      e := CheckWalk(p, dag, m, walk, difficulty);
      return;
    }
    if s.merkleRoot.Some? {
      var root := MerkleRootFromLeaves(p.pair, Leaves(p, s.trace));
      if root != s.merkleRoot.value { e := Some(RootMismatch); return; }
      for k := 0 to |indices|
        invariant forall i | 0 <= i < k :: SampleOk(p, dag, m, s.trace[picks[i]])
      {
        var target := s.trace[indices[k]];
        var ok := CheckSample(p, dag, m, target);
        if !ok { e := Some(MixMismatch); return; }
      }
      var last := s.trace[|s.trace| - 1];
      e := CheckWalk(p, dag, last.mixHash, Max(0, walk - (last.position + 1) % U64_LIMIT), difficulty);
      return;
    }
    e := CheckTrace(p, dag, m, walk, s.trace, difficulty);
  }

  method CheckWalk(p: Hashing, dag: seq<Mix>, m: Mix, n: nat, difficulty: u64) returns (e: Option<Error>)
    requires dag != []
    ensures e == if MeetsDifficulty(p.keccak(Walk(p, dag, m, n)), difficulty) then None else Some(DifficultyNotMet)
  {
    hide Walk, MeetsDifficulty;
    var mix := Buffer(m);
    WalkInPlace(p, dag, mix, n);
    return if MeetsDifficulty(p.keccak(mix[..]), difficulty) then None else Some(DifficultyNotMet);
  }

  method CheckSample(p: Hashing, dag: seq<Mix>, m: Mix, target: AccessSample) returns (ok: bool)
    requires dag != []
    ensures ok <==> SampleOk(p, dag, m, target)
  {
    hide Walk;
    var mix := Buffer(m);
    WalkInPlace(p, dag, mix, target.position + 1);
    ok := mix[..] == target.mixHash;
  }

  /** The full walk, with every sample and its time compared on the way. */
  method CheckTrace(p: Hashing, dag: seq<Mix>, m: Mix, walk: u64, trace: seq<AccessSample>, difficulty: u64)
    returns (e: Option<Error>)
    requires dag != []
    ensures e == None <==>
              && (forall i | 0 <= i < walk :: SampleDue(p, dag, m, Interval(walk), trace, i))
              && MeetsDifficulty(p.keccak(Walk(p, dag, m, walk)), difficulty)
    ensures e != Some(WalkLengthMismatch)
  {
    hide Walk, Access, MeetsDifficulty, Multiples, SampleDue;
    var interval := Interval(walk);
    var mix := Buffer(m);
    var lastOffset: u64 := 0;
    StartOfWalk(p, dag, m, interval, _ => 0);
    NoMultiples(interval);
    for i := 0 to walk
      invariant mix[..] == Walk(p, dag, m, i)
      invariant forall k | 0 <= k < i :: SampleDue(p, dag, m, interval, trace, k)
      invariant Multiples(i, interval) <= |trace| && lastOffset == Before(trace, Multiples(i, interval))
    {
      AccessInPlace(p, dag, mix);
      NextOfWalk(p, dag, m, interval, _ => 0, i);
      NextMultiple(i, interval);
      SampleDueAt(p, dag, m, interval, trace, i);
      if i % interval == 0 {
        var idx := i / interval;
        if idx >= |trace| { return Some(MissingSample); }
        var s := trace[idx];
        if s.position != i { return Some(PositionMismatch); }
        if s.mixHash != mix[..] { return Some(MixMismatch); }
        if s.elapsedOffset < lastOffset { return Some(OffsetNotMonotonic); }
        lastOffset := s.elapsedOffset;
      }
    }
    return if MeetsDifficulty(p.keccak(mix[..]), difficulty) then None else Some(DifficultyNotMet);
  }

  lemma SampleDueAt(p: Hashing, dag: seq<Mix>, m: Mix, interval: nat, trace: seq<AccessSample>, i: nat)
    requires dag != [] && interval > 0
    ensures
      var j := i / interval;
      SampleDue(p, dag, m, interval, trace, i) <==>
      i % interval != 0 ||
      (&& j < |trace| && trace[j].position == i && trace[j].mixHash == Walk(p, dag, m, i + 1)
       && trace[j].elapsedOffset >= Before(trace, j))
  {
    hide Walk;
  }

  // ----- What is mined is accepted

  ghost predicate Monotonic(clock: nat -> u64) {
    forall i: nat, j: nat | i <= j :: clock(i) <= clock(j)
  }

  lemma {:induction false} MultiplesMonotonic(a: nat, b: nat, d: nat)
    requires d > 0 && a <= b
    ensures Multiples(a, d) <= Multiples(b, d)
    decreases b
  {
    hide Multiples;
    if a < b {
      NextMultiple(b - 1, d);
      MultiplesMonotonic(a, b - 1, d);
    }
  }

  lemma SameMultiple(a: nat, b: nat, d: nat)
    requires d > 0 && a % d == 0 && b % d == 0
    ensures a / d == b / d ==> a == b
    ensures a / d < b / d ==> a <= b
  {
    var x, y := a / d, b / d;
    assert a == x * d && b == y * d;
    if x <= y { Scales(x, y, d); }
  }

  /** At every access where one is due, the honest trace has its sample. */
  lemma HonestSampleIsDue(p: Hashing, dag: seq<Mix>, m: Mix, interval: nat, clock: nat -> u64, walk: nat, i: nat)
    requires dag != [] && interval > 0 && walk < U64_LIMIT && i < walk && Monotonic(clock)
    ensures SampleDue(p, dag, m, interval, TraceOf(p, dag, m, interval, clock, walk), i)
  {
    hide Walk, TraceOf, Multiples;
    var trace, j := TraceOf(p, dag, m, interval, clock, walk), i / interval;
    if i % interval == 0 {
      TraceAt(p, dag, m, interval, clock, walk);
      NextMultiple(i, interval);
      MultiplesMonotonic(i + 1, walk, interval);
      assert SampleAt(p, dag, m, interval, clock, walk, j, trace[j]);
      SameMultiple(trace[j].position, i, interval);
      if j > 0 {
        assert SampleAt(p, dag, m, interval, clock, walk, j - 1, trace[j - 1]);
        SameMultiple(trace[j - 1].position, i, interval);
      }
    }
  }

  /** From the last sample on, the verifier walks to where the miner ended. */
  lemma HonestEnd(p: Hashing, dag: seq<Mix>, m: Mix, trace: seq<AccessSample>, walk: u64)
    requires dag != [] && trace != []
    requires var last := trace[|trace| - 1]; SampleOk(p, dag, m, last) && last.position < walk
    ensures FromLastSample(p, dag, trace, walk) == Walk(p, dag, m, walk)
  {
    hide Walk;
    var last := trace[|trace| - 1];
    WalkAdd(p, dag, m, last.position + 1, walk - (last.position + 1));
  }

  /** Every mined solution is accepted in all three forms: with trace and root, with the trace alone, and
      stripped of its trace; for every difficulty, every choice of samples, and a clock that never runs back. */
  lemma HonestIsAccepted(p: Hashing, header: Hash, difficulty: u64, dag: seq<Mix>, clock: nat -> u64, s: Solution,
      picks: seq<nat>, root: Option<Hash>)
    requires dag != [] && Honest(p, header, difficulty, dag, clock, s) && Monotonic(clock)
    requires forall i | 0 <= i < |picks| :: picks[i] < |s.trace|
    ensures Accepts(p, header, difficulty, dag, s, picks)
    ensures Accepts(p, header, difficulty, dag, s.(merkleRoot := None), picks)
    ensures Accepts(p, header, difficulty, dag, s.(trace := [], merkleRoot := root), [])
  {
    hide Walk, MeetsDifficulty, TraceOf, Multiples, Accesses, Root, Leaves, SampleDue, FromLastSample;
    var walk, m := Accesses(difficulty), p.initial(header, s.nonce);
    var interval := Interval(walk);
    TraceAt(p, dag, m, interval, clock, walk);
    forall i | 0 <= i < walk
      ensures SampleDue(p, dag, m, interval, s.trace, i)
    {
      HonestSampleIsDue(p, dag, m, interval, clock, walk, i);
    }
    if s.trace != [] {
      var n := |s.trace| - 1;
      assert SampleAt(p, dag, m, interval, clock, walk, n, s.trace[n]);
      HonestEnd(p, dag, m, s.trace, walk);
      forall i | 0 <= i < |picks|
        ensures SampleOk(p, dag, m, s.trace[picks[i]])
      {
        assert SampleAt(p, dag, m, interval, clock, walk, picks[i], s.trace[picks[i]]);
      }
    }
  }

  // ----- What is accepted

  /** How many accesses the walk has made when sampled verification ends: it starts after the last
      sample, and `position + 1` wraps to zero. */
  function EndOfWalk(position: u64, walk: u64): nat {
    if position == U64_LIMIT - 1 then U64_LIMIT + walk else Max(walk, position + 1)
  }

  lemma SampledEnd(p: Hashing, dag: seq<Mix>, m: Mix, trace: seq<AccessSample>, walk: u64)
    requires dag != [] && trace != [] && SampleOk(p, dag, m, trace[|trace| - 1])
    ensures FromLastSample(p, dag, trace, walk) == Walk(p, dag, m, EndOfWalk(trace[|trace| - 1].position, walk))
  {
    hide Walk;
    var last := trace[|trace| - 1];
    WalkAdd(p, dag, m, last.position + 1, Max(0, walk - (last.position + 1) % U64_LIMIT));
  }

  /** What sampled verification establishes: if the last sample is picked, acceptance means that the root
      and the picked samples are right and that the walk to the later of its end and the last sample's
      position ends below the target. */
  lemma SampledMeansExactly(p: Hashing, header: Hash, difficulty: u64, dag: seq<Mix>, s: Solution, picks: seq<nat>)
    requires dag != [] && forall i | 0 <= i < |picks| :: picks[i] < |s.trace|
    requires s.trace != [] && s.merkleRoot.Some? && |s.trace| - 1 in picks
    ensures
      var m, last := p.initial(header, s.nonce), s.trace[|s.trace| - 1];
      Accepts(p, header, difficulty, dag, s, picks) <==>
        && s.walkLength == Accesses(difficulty) && Root(p.pair, Leaves(p, s.trace)) == s.merkleRoot.value
        && (forall i | 0 <= i < |picks| :: SampleOk(p, dag, m, s.trace[picks[i]]))
        && MeetsDifficulty(p.keccak(Walk(p, dag, m, EndOfWalk(last.position, s.walkLength))), difficulty)
  {
    hide Walk, MeetsDifficulty, Root, Leaves, Accesses, FromLastSample, SampleOk;
    var m, n := p.initial(header, s.nonce), |s.trace| - 1;
    var i :| 0 <= i < |picks| && picks[i] == n;
    if SampleOk(p, dag, m, s.trace[picks[i]]) { SampledEnd(p, dag, m, s.trace, Accesses(difficulty)); }
  }

  /** The trace has as its sample `j` the mix after access `i`, not earlier than the one before. */
  predicate Stands(p: Hashing, dag: seq<Mix>, m: Mix, trace: seq<AccessSample>, j: nat, i: nat)
    requires dag != []
  {
    && j < |trace| && trace[j].position == i && trace[j].mixHash == Walk(p, dag, m, i + 1)
    && (j > 0 ==> trace[j - 1].elapsedOffset <= trace[j].elapsedOffset)
  }

  /** The trace has a sample for each multiple of `d` below the length of the walk. */
  ghost predicate StandsThroughout(p: Hashing, dag: seq<Mix>, m: Mix, trace: seq<AccessSample>, d: nat, walk: nat)
    requires dag != []
  {
    forall j: nat | j * d < walk :: Stands(p, dag, m, trace, j, j * d)
  }

  /** A trace without a root is accepted exactly if the walk ends below the target and the trace has a sample for each
      multiple of the interval below the length of the walk. */
  lemma TraceMeansExactly(p: Hashing, header: Hash, difficulty: u64, dag: seq<Mix>, s: Solution, picks: seq<nat>)
    requires dag != [] && forall i | 0 <= i < |picks| :: picks[i] < |s.trace|
    requires s.trace != [] && s.merkleRoot == None
    ensures
      var (m, interval) := (p.initial(header, s.nonce), Max(1, s.walkLength / 1000));
      Accepts(p, header, difficulty, dag, s, picks) <==>
        && s.walkLength == Accesses(difficulty) && Solves(p, header, difficulty, dag, s.nonce)
        && StandsThroughout(p, dag, m, s.trace, interval, s.walkLength)
  {
    hide Walk, Solves, Accesses, SampleDue, StandsThroughout;
    DueExactly(p, dag, p.initial(header, s.nonce), s.trace, Interval(s.walkLength), s.walkLength);
  }

  lemma DueExactly(p: Hashing, dag: seq<Mix>, m: Mix, trace: seq<AccessSample>, d: nat, walk: nat)
    requires dag != [] && d > 0
    ensures (forall i | 0 <= i < walk :: SampleDue(p, dag, m, d, trace, i))
       <==> StandsThroughout(p, dag, m, trace, d, walk)
  {
    hide Walk;
    if StandsThroughout(p, dag, m, trace, d, walk) {
      forall i: nat | i < walk
        ensures SampleDue(p, dag, m, d, trace, i)
      {
        if i % d == 0 {
          assert i == (i / d) * d;
          assert Stands(p, dag, m, trace, i / d, (i / d) * d);
        }
      }
    }
    if forall i | 0 <= i < walk :: SampleDue(p, dag, m, d, trace, i) {
      forall j: nat | j * d < walk
        ensures Stands(p, dag, m, trace, j, j * d)
      {
        DivMod(j * d, d, j, 0);
        assert SampleDue(p, dag, m, d, trace, j * d);
      }
    }
  }

  /** Accepted without a root, or with the last sample among the picks and in range, a solution stands
      for a full walk that ends below the target. */
  lemma AcceptedIsWork(p: Hashing, header: Hash, difficulty: u64, dag: seq<Mix>, s: Solution, picks: seq<nat>)
    requires dag != [] && forall i | 0 <= i < |picks| :: picks[i] < |s.trace|
    requires Accepts(p, header, difficulty, dag, s, picks)
    requires s.trace == [] || s.merkleRoot.None?
             || (|s.trace| - 1 in picks && s.trace[|s.trace| - 1].position < s.walkLength)
    ensures Solves(p, header, difficulty, dag, s.nonce)
  {
    hide Walk, MeetsDifficulty, Root, Leaves, Accesses, FromLastSample, SampleDue;
    if s.trace != [] && s.merkleRoot.Some? { SampledMeansExactly(p, header, difficulty, dag, s, picks); }
  }

  /** The solution with another mix in its last sample, and the root that goes with it. */
  function WithLastMix(p: Hashing, s: Solution, mix: Mix): (s': Solution)
    requires s.trace != []
    ensures |s'.trace| == |s.trace| && s'.nonce == s.nonce
  {
    var n := |s.trace| - 1;
    var trace := s.trace[n := s.trace[n].(mixHash := mix)];
    s.(trace := trace, merkleRoot := Some(Root(p.pair, Leaves(p, trace))))
  }

  /** A last sample that is not picked is not tied to the walk: with the other samples right, any mix in its place
      is accepted exactly if the rest of the walk, started from that mix, ends below the target. */
  lemma UnpickedLastIsFree(p: Hashing, header: Hash, difficulty: u64, dag: seq<Mix>, s: Solution, picks: seq<nat>,
      mix: Mix)
    requires dag != [] && s.trace != [] && s.walkLength == Accesses(difficulty)
    requires s.trace[|s.trace| - 1].position < s.walkLength
    requires forall i | 0 <= i < |picks| :: picks[i] < |s.trace| - 1
    requires forall i | 0 <= i < |picks| :: SampleOk(p, dag, p.initial(header, s.nonce), s.trace[picks[i]])
    ensures
      var rest := s.walkLength - (s.trace[|s.trace| - 1].position + 1);
      Accepts(p, header, difficulty, dag, WithLastMix(p, s, mix), picks)
      <==> MeetsDifficulty(p.keccak(Walk(p, dag, mix, rest)), difficulty)
  {
    hide Walk, MeetsDifficulty, Root, Leaves, Accesses;
    var s', n := WithLastMix(p, s, mix), |s.trace| - 1;
    forall i | 0 <= i < |picks|
      ensures s'.trace[picks[i]] == s.trace[picks[i]]
    {
    }
  }

  /** A solution whose one sample stands at `position`. */
  function OneSample(p: Hashing, header: Hash, difficulty: u64, dag: seq<Mix>, nonce: u64, position: u64): Solution
    requires dag != []
  {
    var mix := Walk(p, dag, p.initial(header, nonce), position + 1);
    Solution(nonce, [AccessSample(position, 0, mix, 0)], 0, Accesses(difficulty), Some(p.leaf(position, mix)))
  }

  /** The range matters: a sample past the end of the walk is accepted exactly if the longer walk up to it
      ends below the target, whatever the walk of the prescribed length does. */
  lemma PastTheEndExactly(p: Hashing, header: Hash, difficulty: u64, dag: seq<Mix>, nonce: u64, position: u64)
    requires dag != [] && Accesses(difficulty) <= position < U64_LIMIT - 1
    ensures Accepts(p, header, difficulty, dag, OneSample(p, header, difficulty, dag, nonce, position), [0])
       <==> MeetsDifficulty(p.keccak(Walk(p, dag, p.initial(header, nonce), position + 1)), difficulty)
  {
    hide Walk, MeetsDifficulty, Accesses;
    var s := OneSample(p, header, difficulty, dag, nonce, position);
    assert Leaves(p, s.trace) == [s.merkleRoot.value];
    SampledMeansExactly(p, header, difficulty, dag, s, [0]);
  }

  /** Two accepted solutions for one nonce and difficulty, with the same root over equally many samples,
      carry the same samples, if leaves and nodes are hashed injectively. */
  lemma RootCommitsToTrace(p: Hashing, header: Hash, difficulty: u64, dag: seq<Mix>, s: Solution, s': Solution,
      picks: seq<nat>, picks': seq<nat>)
    requires dag != [] && Injective(p.pair)
    requires forall i, j, x, y | p.leaf(i, x) == p.leaf(j, y) :: i == j && x == y
    requires forall i | 0 <= i < |picks| :: picks[i] < |s.trace|
    requires forall i | 0 <= i < |picks'| :: picks'[i] < |s'.trace|
    requires Accepts(p, header, difficulty, dag, s, picks) && Accepts(p, header, difficulty, dag, s', picks')
    requires s.merkleRoot.Some? && s.merkleRoot == s'.merkleRoot && |s.trace| == |s'.trace|
    ensures forall i | 0 <= i < |s.trace| ::
              s.trace[i].position == s'.trace[i].position && s.trace[i].mixHash == s'.trace[i].mixHash
  {
    hide Walk, MeetsDifficulty, Root, Accesses, FromLastSample;
    if s.trace != [] {
      RootBinds(p.pair, Leaves(p, s.trace), Leaves(p, s'.trace));
      forall i | 0 <= i < |s.trace|
        ensures s.trace[i].position == s'.trace[i].position && s.trace[i].mixHash == s'.trace[i].mixHash
      {
        assert Leaves(p, s.trace)[i] == Leaves(p, s'.trace)[i];
      }
    }
  }

  // ----- Blocks from peers

  /** A peer's check of a block: the proof hash as the header, and no trace, so that the whole walk is
      made again and neither the Merkle root nor the time in the header has a say. */
  method VerifyBlock(p: Hashing, dag: seq<Mix>, b: Block) returns (e: Option<Error>)
    requires dag != []
    ensures e == None <==> Solves(p, b.proofHash, b.header.difficultyTarget, dag, b.header.nonce)
  {
    hide Solves, Accesses;
    var walk := Accesses(b.header.difficultyTarget);
    var solution := Solution(b.header.nonce, [], b.header.elapsedMs % U64_LIMIT, walk, b.header.proofMerkleRoot);
    ghost var picks;
    e, picks := Verify(p, b.proofHash, b.header.difficultyTarget, dag, solution, []);
  }

  /** Mines for a block's proof hash, puts nonce and root into the block, and has a peer check it: the peer
      accepts whatever was mined, and something is mined exactly if one of the nonces solves. */
  method MineForPeers(p: Hashing, dag: seq<Mix>, b: Block, nonces: seq<u64>, clocks: nat -> (nat -> u64),
      millis: nat -> u64)
    returns (mined: Option<Block>, e: Option<Error>)
    requires dag != []
    ensures mined.Some? <==> exists a | 0 <= a < |nonces| :: Solves(p, b.proofHash, b.header.difficultyTarget, dag,
        nonces[a])
    ensures mined.Some? ==> e == None && mined.value.header.nonce in nonces
    ensures mined.Some? ==>
              && mined.value.proofHash == b.proofHash && mined.value.transactions == b.transactions
              && mined.value.header.difficultyTarget == b.header.difficultyTarget
  {
    hide Solves, TraceOf, Root;
    var s := Mine(p, b.proofHash, b.header.difficultyTarget, dag, nonces, clocks, millis);
    if s.None? { return None, None; }
    var block := b.(header := b.header.(nonce := s.value.nonce, proofMerkleRoot := s.value.merkleRoot));
    e := VerifyBlock(p, dag, block);
    mined := Some(block);
  }
}
