/** Multilayered ring signatures. The signer walks the ring cyclically from its secret position,
    the verifier from position 0; `Sign` is proved to produce what `Verify` accepts. */
module Mlsag {
  import opened Arith
  import opened Types
  import opened Field

  /** The group order, the two generators, and the hash functions, all arbitrary. */
  datatype Group = Group(
    q: Modulus, g: Point, h: Point,
    hashPk: Point -> Point, challenge: (Msg, Point, Point) -> Scalar, hashToScalar: Point -> Scalar)

  datatype Signature = Signature(
    ringSize: nat, nLayers: nat, keyImages: seq<Point>, c0: Scalar, responses: seq<seq<Scalar>>)

  const MIN_RING_SIZE: nat := 2

  type Ring = seq<seq<Point>>

  predicate RowsHaveLength<T>(rows: seq<seq<T>>, n: nat) {
    forall i | 0 <= i < |rows| :: |rows[i]| == n
  }

  /** The left commitment of one ring position over its first `n` layers. */
  function Left(grp: Group, resp: seq<Scalar>, c: Scalar, row: seq<Point>, n: nat): Point
    requires n <= |resp| && n <= |row|
  {
    if n == 0 then 0
    else
      Add(grp.q, Add(grp.q, Left(grp, resp, c, row, n - 1), Mul(grp.q, resp[n - 1], grp.g)),
          Mul(grp.q, c, row[n - 1]))
  }

  function Right(grp: Group, resp: seq<Scalar>, c: Scalar, row: seq<Point>, images: seq<Point>, n: nat): Point
    requires n <= |resp| && n <= |row| && n <= |images|
  {
    if n == 0 then 0
    else
      Add(grp.q, Add(grp.q, Right(grp, resp, c, row, images, n - 1), Mul(grp.q, resp[n - 1], grp.hashPk(row[n - 1]))),
          Mul(grp.q, c, images[n - 1]))
  }

  /** The challenge that position leaves for the next one, given the challenge `c` it received. */
  function Next(grp: Group, msg: Msg, resp: seq<Scalar>, c: Scalar, row: seq<Point>, images: seq<Point>): Scalar
    requires |resp| == |images| && |images| <= |row|
  {
    grp.challenge(msg, Left(grp, resp, c, row, |images|), Right(grp, resp, c, row, images, |images|))
  }

  predicate WellShaped(sig: Signature, ring: Ring) {
    && |ring| == sig.ringSize >= MIN_RING_SIZE
    && sig.nLayers > 0
    && |sig.responses| == sig.ringSize
    && |sig.keyImages| == sig.nLayers
    && RowsHaveLength(sig.responses, sig.nLayers)
    && RowsHaveLength(ring, sig.nLayers)
  }

  /** The challenge after positions `0..n` of the ring. */
  function Walk(grp: Group, sig: Signature, ring: Ring, msg: Msg, n: nat): Scalar
    requires WellShaped(sig, ring) && n <= |ring|
  {
    if n == 0 then sig.c0
    else Next(grp, msg, sig.responses[n - 1], Walk(grp, sig, ring, msg, n - 1), ring[n - 1], sig.keyImages)
  }

  predicate Accepts(grp: Group, sig: Signature, ring: Ring, msg: Msg) {
    WellShaped(sig, ring) && Walk(grp, sig, ring, msg, |ring|) == sig.c0
  }

  /** One ring position: the sums over the layers, hashed into the next challenge. */
  method Position(grp: Group, msg: Msg, resp: seq<Scalar>, c: Scalar, row: seq<Point>, images: seq<Point>)
    returns (next: Scalar)
    requires |resp| == |images| && |images| <= |row|
    ensures next == Next(grp, msg, resp, c, row, images)
  {
    var l, r := 0, 0;
    for j := 0 to |images|
      invariant l == Left(grp, resp, c, row, j)
      invariant r == Right(grp, resp, c, row, images, j)
    {
      l := Add(grp.q, Add(grp.q, l, Mul(grp.q, resp[j], grp.g)), Mul(grp.q, c, row[j]));
      r := Add(grp.q, Add(grp.q, r, Mul(grp.q, resp[j], grp.hashPk(row[j]))), Mul(grp.q, c, images[j]));
    }
    next := grp.challenge(msg, l, r);
  }

  method Verify(grp: Group, sig: Signature, ring: Ring, msg: Msg) returns (ok: bool)
    ensures ok == Accepts(grp, sig, ring, msg)
    ensures ok ==> |ring| >= 2 && |sig.keyImages| >= 1 && exists l, r :: grp.challenge(msg, l, r) == sig.c0
  {
    if |ring| != sig.ringSize || sig.ringSize < MIN_RING_SIZE || sig.nLayers == 0 {
      return false;
    }
    if |sig.responses| != sig.ringSize || |sig.keyImages| != sig.nLayers {
      return false;
    }
    for i := 0 to |sig.responses|
      invariant forall k | 0 <= k < i :: |sig.responses[k]| == sig.nLayers
    {
      if |sig.responses[i]| != sig.nLayers { return false; }
    }
    for i := 0 to |ring|
      invariant forall k | 0 <= k < i :: |ring[k]| == sig.nLayers
    {
      if |ring[i]| != sig.nLayers { return false; }
    }
    var c := sig.c0;
    for i := 0 to sig.ringSize
      invariant c == Walk(grp, sig, ring, msg, i)
    {
      c := Position(grp, msg, sig.responses[i], c, ring[i], sig.keyImages);
    }
    if c == sig.c0 { StartIsChallenge(grp, sig, ring, msg); }
    return c == sig.c0;
  }

  // ----- Signing

  /** The secrets are the discrete logarithms of the keys in the row. */
  predicate Opens(grp: Group, row: seq<Point>, secrets: seq<Scalar>) {
    |row| == |secrets| && forall j | 0 <= j < |row| :: row[j] == Mul(grp.q, secrets[j], grp.g)
  }

  function KeyImage(grp: Group, secret: Scalar, pk: Point): Point {
    Mul(grp.q, secret, grp.hashPk(pk))
  }

  predicate ImagesOf(grp: Group, images: seq<Point>, row: seq<Point>, secrets: seq<Scalar>) {
    |images| == |secrets| <= |row| && forall j | 0 <= j < |images| :: images[j] == KeyImage(grp, secrets[j], row[j])
  }

  /** The commitments of the real position, made from the nonces alone. */
  function NonceLeft(grp: Group, alpha: seq<Scalar>, n: nat): Point
    requires n <= |alpha|
  {
    if n == 0 then 0 else Add(grp.q, NonceLeft(grp, alpha, n - 1), Mul(grp.q, alpha[n - 1], grp.g))
  }

  function NonceRight(grp: Group, alpha: seq<Scalar>, row: seq<Point>, n: nat): Point
    requires n <= |alpha| && n <= |row|
  {
    if n == 0 then 0
    else Add(grp.q, NonceRight(grp, alpha, row, n - 1), Mul(grp.q, alpha[n - 1], grp.hashPk(row[n - 1])))
  }

  ghost predicate RespondsTo(grp: Group, resp: seq<Scalar>, alpha: seq<Scalar>, c: Scalar, secrets: seq<Scalar>) {
    |resp| == |alpha| == |secrets| &&
    forall j | 0 <= j < |resp| :: resp[j] == Sub(grp.q, alpha[j], Mul(grp.q, c, secrets[j]))
  }

  lemma AddThree(q: Modulus, s: nat, a: nat, b: nat, t: nat)
    requires Cong(q, a + b, t)
    ensures Add(q, Add(q, s, a), b) == Add(q, s, t)
  {
    AddCong(q, s, a);
    CongAdd(q, Add(q, s, a), s + a, b, b);
    CongAdd(q, s, s, a + b, t);
    assert s + a + b == s + (a + b);
  }

  /** At the real position the responses turn the received challenge back into the nonces. */
  lemma {:induction false} RealPositionCloses(grp: Group, resp: seq<Scalar>, alpha: seq<Scalar>, c: Scalar,
      row: seq<Point>, images: seq<Point>, secrets: seq<Scalar>, n: nat)
    requires RespondsTo(grp, resp, alpha, c, secrets) && Opens(grp, row, secrets)
    requires ImagesOf(grp, images, row, secrets)
    requires n <= |row|
    ensures Left(grp, resp, c, row, n) == NonceLeft(grp, alpha, n)
    ensures Right(grp, resp, c, row, images, n) == NonceRight(grp, alpha, row, n)
  {
    if n > 0 {
      RealPositionCloses(grp, resp, alpha, c, row, images, secrets, n - 1);
      var q, j := grp.q, n - 1;
      ResponseCancels(q, alpha[j], c, secrets[j], grp.g);
      AddThree(q, Left(grp, resp, c, row, j), Mul(q, resp[j], grp.g), Mul(q, c, row[j]), Mul(q, alpha[j], grp.g));
      var p := grp.hashPk(row[j]);
      ResponseCancels(q, alpha[j], c, secrets[j], p);
      AddThree(q, Right(grp, resp, c, row, images, j), Mul(q, resp[j], p), Mul(q, c, images[j]), Mul(q, alpha[j], p));
    }
  }

  /** The position before `i` on a ring of size `n`. */
  function Before(i: nat, n: nat): nat
    requires i < n
  {
    if i == 0 then n - 1 else i - 1
  }

  /** `cs[i]` is the challenge that position `i` leaves when it receives that of the position before it. */
  predicate Consistent(grp: Group, msg: Msg, ring: Ring, images: seq<Point>, resps: seq<seq<Scalar>>, cs: seq<Scalar>,
      i: nat)
    requires |cs| == |ring| == |resps| && i < |ring|
    requires RowsHaveLength(resps, |images|)
    requires forall k | 0 <= k < |ring| :: |images| <= |ring[k]|
  {
    cs[i] == Next(grp, msg, resps[i], cs[Before(i, |cs|)], ring[i], images)
  }

  /** If every position of the ring is consistent, the walk from position 0 closes. */
  lemma {:induction false} ConsistentRingCloses(grp: Group, msg: Msg, sig: Signature, ring: Ring, cs: seq<Scalar>,
      n: nat)
    requires WellShaped(sig, ring) && |cs| == |ring| && n <= |ring|
    requires forall i | 0 <= i < |ring| :: Consistent(grp, msg, ring, sig.keyImages, sig.responses, cs, i)
    requires sig.c0 == cs[|cs| - 1]
    ensures Walk(grp, sig, ring, msg, n) == if n == 0 then sig.c0 else cs[n - 1]
  {
    if n > 0 {
      ConsistentRingCloses(grp, msg, sig, ring, cs, n - 1);
      assert Consistent(grp, msg, ring, sig.keyImages, sig.responses, cs, n - 1);
    }
  }

  /** Position `t` steps after `start` on a ring of size `n`. */
  function After(start: nat, t: nat, n: nat): nat
    requires start < n && t < n
    ensures After(start, t, n) < n
    ensures After(start, t, n) == (start + t) % n
  {
    WrapMod(start + t, n);
    if start + t < n then start + t else start + t - n
  }

  lemma WrapMod(x: nat, n: nat)
    requires 0 < n && x < 2 * n
    ensures x % n == if x < n then x else x - n
  {
    if n > 1 { DivMod(x, n, if x < n then 0 else 1, if x < n then x else x - n); }
  }

  /** Every position other than the start is reached by a step count below the ring size. */
  lemma StepsCover(start: nat, i: nat, n: nat) returns (t: nat)
    requires start < n && i < n && i != start
    ensures 1 <= t < n && After(start, t, n) == i
  {
    t := if i > start then i - start else i + n - start;
  }

  method KeyImages(grp: Group, secretKeys: seq<Scalar>, row: seq<Point>) returns (images: seq<Point>)
    requires |secretKeys| <= |row|
    ensures ImagesOf(grp, images, row, secretKeys)
  {
    images := [];
    for j := 0 to |secretKeys|
      invariant |images| == j
      invariant forall k | 0 <= k < j :: images[k] == KeyImage(grp, secretKeys[k], row[k])
    {
      images := images + [Mul(grp.q, secretKeys[j], grp.hashPk(row[j]))];
    }
  }

  method NonceChallenge(grp: Group, msg: Msg, alpha: seq<Scalar>, row: seq<Point>) returns (c: Scalar)
    requires |alpha| <= |row|
    ensures c == grp.challenge(msg, NonceLeft(grp, alpha, |alpha|), NonceRight(grp, alpha, row, |alpha|))
  {
    var l, r := 0, 0;
    for j := 0 to |alpha|
      invariant l == NonceLeft(grp, alpha, j) && r == NonceRight(grp, alpha, row, j)
    {
      l := Add(grp.q, l, Mul(grp.q, alpha[j], grp.g));
      r := Add(grp.q, r, Mul(grp.q, alpha[j], grp.hashPk(row[j])));
    }
    c := grp.challenge(msg, l, r);
  }

  /** `cs` was filled by a walk that began with the nonces at `start` and took `steps - 1` steps. */
  predicate Walked(grp: Group, msg: Msg, ring: Ring, images: seq<Point>, resps: seq<seq<Scalar>>, cs: seq<Scalar>,
      start: nat, c: Scalar, steps: nat)
    requires |cs| == |ring| == |resps| && start < |ring| && steps <= |ring|
    requires RowsHaveLength(resps, |images|)
    requires forall k | 0 <= k < |ring| :: |images| <= |ring[k]|
  {
    && cs[start] == c
    && forall t | 1 <= t < steps :: Consistent(grp, msg, ring, images, resps, cs, After(start, t, |ring|))
  }

  lemma WalkExtends(grp: Group, msg: Msg, ring: Ring, images: seq<Point>, resps: seq<seq<Scalar>>, cs: seq<Scalar>,
      start: nat, c: Scalar, step: nat, next: Scalar)
    requires |cs| == |ring| == |resps| && start < |ring| && 1 <= step < |ring|
    requires RowsHaveLength(resps, |images|)
    requires forall k | 0 <= k < |ring| :: |images| <= |ring[k]|
    requires Walked(grp, msg, ring, images, resps, cs, start, c, step)
    requires
      var idx := After(start, step, |ring|);
      next == Next(grp, msg, resps[idx], cs[Before(idx, |ring|)], ring[idx], images)
    ensures Walked(grp, msg, ring, images, resps, cs[After(start, step, |ring|) := next], start, c, step + 1)
  {
    var cs' := cs[After(start, step, |ring|) := next];
    forall t | 1 <= t < step + 1
      ensures Consistent(grp, msg, ring, images, resps, cs', After(start, t, |ring|))
    {
      if t < step {
        assert Consistent(grp, msg, ring, images, resps, cs, After(start, t, |ring|));
      }
    }
  }

  /** Replacing the filler at the real position by the response to its received challenge closes the ring. */
  lemma RealResponseCloses(grp: Group, msg: Msg, ring: Ring, secretKeys: seq<Scalar>, start: nat, alpha: seq<Scalar>,
      filler: seq<seq<Scalar>>, cs: seq<Scalar>, row: seq<Scalar>, sig: Signature)
    requires |cs| == |ring| == |filler| && start < |ring| && RowsHaveLength(filler, |sig.keyImages|)
    requires RowsHaveLength(ring, |sig.keyImages|) && |alpha| == |secretKeys|
    requires ImagesOf(grp, sig.keyImages, ring[start], secretKeys) && Opens(grp, ring[start], secretKeys)
    requires
      Walked(grp, msg, ring, sig.keyImages, filler, cs, start,
             grp.challenge(msg, NonceLeft(grp, alpha, |alpha|), NonceRight(grp, alpha, ring[start], |alpha|)), |ring|)
    requires RespondsTo(grp, row, alpha, cs[Before(start, |ring|)], secretKeys)
    requires sig.responses == filler[start := row] && sig.c0 == cs[|cs| - 1]
    requires WellShaped(sig, ring)
    ensures Accepts(grp, sig, ring, msg)
  {
    hide Left, Right, NonceLeft, NonceRight, Opens, Walk;
    RealPositionCloses(grp, row, alpha, cs[Before(start, |ring|)], ring[start], sig.keyImages, secretKeys, |alpha|);
    forall i | 0 <= i < |ring|
      ensures Consistent(grp, msg, ring, sig.keyImages, sig.responses, cs, i)
    {
      if i != start {
        var t := StepsCover(start, i, |ring|);
        assert Consistent(grp, msg, ring, sig.keyImages, filler, cs, After(start, t, |ring|));
      }
    }
    ConsistentRingCloses(grp, msg, sig, ring, cs, |ring|);
    assert Walk(grp, sig, ring, msg, |ring|) == sig.c0;
  }

  /** The signer. The nonces `alpha` and the responses `filler` of the other positions are its randomness. */
  method Sign(grp: Group, ring: Ring, secretKeys: seq<Scalar>, realIndex: nat, msg: Msg, alpha: seq<Scalar>,
      filler: seq<seq<Scalar>>) returns (sig: Signature)
    requires realIndex < |ring| && |alpha| == |secretKeys|
    requires forall k | 0 <= k < |ring| :: |secretKeys| <= |ring[k]|
    requires |filler| == |ring| && RowsHaveLength(filler, |secretKeys|)
    ensures sig.ringSize == |ring| == |sig.responses| && sig.nLayers == |secretKeys|
    ensures RowsHaveLength(sig.responses, |secretKeys|)
    ensures ImagesOf(grp, sig.keyImages, ring[realIndex], secretKeys)
    ensures forall k | 0 <= k < |ring| && k != realIndex :: sig.responses[k] == filler[k]
    ensures forall j | 0 <= j < |secretKeys| :: sig.responses[realIndex][j] < grp.q
    ensures
      (&& |ring| >= MIN_RING_SIZE
       && |secretKeys| > 0
       && RowsHaveLength(ring, |secretKeys|)
       && Opens(grp, ring[realIndex], secretKeys))
      ==> Accepts(grp, sig, ring, msg)
  {
    var ringSize, nLayers := |ring|, |secretKeys|;
    var images := KeyImages(grp, secretKeys, ring[realIndex]);
    var challenges: seq<Scalar> := seq(ringSize, _ => 0);
    var c := NonceChallenge(grp, msg, alpha, ring[realIndex]);
    ghost var c' := c;
    challenges := challenges[realIndex := c];

    for step := 1 to ringSize
      invariant |challenges| == ringSize
      invariant Walked(grp, msg, ring, images, filler, challenges, realIndex, c', step)
    {
      var idx := (realIndex + step) % ringSize;
      assert idx == After(realIndex, step, ringSize);
      WrapMod(idx + ringSize - 1, ringSize);
      var cPrev := challenges[(idx + ringSize - 1) % ringSize];
      c := Position(grp, msg, filler[idx], cPrev, ring[idx], images);
      WalkExtends(grp, msg, ring, images, filler, challenges, realIndex, c', step, c);
      challenges := challenges[idx := c];
    }

    WrapMod(realIndex + ringSize - 1, ringSize);
    var cPi := challenges[(realIndex + ringSize - 1) % ringSize];
    var row: seq<Scalar> := [];
    for j := 0 to nLayers
      invariant |row| == j
      invariant forall k | 0 <= k < j :: row[k] == Sub(grp.q, alpha[k], Mul(grp.q, cPi, secretKeys[k]))
    {
      row := row + [Sub(grp.q, alpha[j], Mul(grp.q, cPi, secretKeys[j]))];
    }
    sig := Signature(ringSize, nLayers, images, challenges[ringSize - 1], filler[realIndex := row]);

    if ringSize >= MIN_RING_SIZE && nLayers > 0 && RowsHaveLength(ring, nLayers)
        && Opens(grp, ring[realIndex], secretKeys) {
      RealResponseCloses(grp, msg, ring, secretKeys, realIndex, alpha, filler, challenges, row, sig);
    }
  }

  // ----- What is accepted

  function Total(terms: seq<nat>): nat {
    if terms == [] then 0 else Total(terms[..|terms| - 1]) + terms[|terms| - 1]
  }

  /** What one layer adds to a commitment. */
  function Term(a: nat, x: nat, c: nat, y: nat): nat { Product(a, x) + Product(c, y) }

  function Product(a: nat, b: nat): (p: nat)
    ensures p == a * b
  {
    a * b
  }

  /** One term for each layer: the response on the generator, and the challenge on the key. */
  function LeftTerms(grp: Group, resp: seq<Scalar>, c: Scalar, row: seq<Point>, n: nat): (terms: seq<nat>)
    requires n <= |resp| && n <= |row|
    ensures |terms| == n && forall j | 0 <= j < n :: terms[j] == Term(resp[j], grp.g, c, row[j])
  {
    seq<nat>(n, j requires 0 <= j < n => Term(resp[j], grp.g, c, row[j]))
  }

  /** The response on the hash of the key, and the challenge on the key image. */
  function RightTerms(grp: Group, resp: seq<Scalar>, c: Scalar, row: seq<Point>, images: seq<Point>, n: nat)
      : (terms: seq<nat>)
    requires n <= |resp| && n <= |row| && n <= |images|
    ensures |terms| == n && forall j | 0 <= j < n :: terms[j] == Term(resp[j], grp.hashPk(row[j]), c, images[j])
  {
    seq<nat>(n, j requires 0 <= j < n => Term(resp[j], grp.hashPk(row[j]), c, images[j]))
  }

  lemma AddTerm(q: Modulus, sum: nat, a: nat, x: nat, c: nat, y: nat)
    ensures Add(q, Add(q, sum % q, Mul(q, a, x)), Mul(q, c, y)) == (sum + Term(a, x, c, y)) % q
  {
    var s, t := a * x, c * y;
    CongMod(q, sum);
    CongMod(q, s);
    CongMod(q, t);
    CongAdd(q, sum % q, sum, s % q, s);
    AddCong(q, sum % q, s % q);
    CongAdd(q, Add(q, sum % q, s % q), sum + s, t % q, t);
  }

  lemma TotalOfAppend(terms: seq<nat>, rest: seq<nat>, x: nat)
    requires terms == rest + [x]
    ensures Total(terms) == Total(rest) + x
  {
    assert terms[..|terms| - 1] == rest;
  }

  /** The commitments of a position are these sums, reduced once. */
  lemma {:induction false} LeftIsSum(grp: Group, resp: seq<Scalar>, c: Scalar, row: seq<Point>, n: nat)
    requires n <= |resp| && n <= |row|
    ensures Left(grp, resp, c, row, n) == Total(LeftTerms(grp, resp, c, row, n)) % grp.q
  {
    hide Term;
    if n > 0 {
      var terms := LeftTerms(grp, resp, c, row, n - 1);
      LeftIsSum(grp, resp, c, row, n - 1);
      hide Add, Mul, Total;
      TotalOfAppend(LeftTerms(grp, resp, c, row, n), terms, Term(resp[n - 1], grp.g, c, row[n - 1]));
      AddTerm(grp.q, Total(terms), resp[n - 1], grp.g, c, row[n - 1]);
    } else {
      DivMod(0, grp.q, 0, 0);
    }
  }

  lemma {:induction false} RightIsSum(grp: Group, resp: seq<Scalar>, c: Scalar, row: seq<Point>, images: seq<Point>,
      n: nat)
    requires n <= |resp| && n <= |row| && n <= |images|
    ensures Right(grp, resp, c, row, images, n) == Total(RightTerms(grp, resp, c, row, images, n)) % grp.q
  {
    hide Term;
    if n > 0 {
      var terms, p := RightTerms(grp, resp, c, row, images, n - 1), grp.hashPk(row[n - 1]);
      RightIsSum(grp, resp, c, row, images, n - 1);
      hide Add, Mul, Total;
      TotalOfAppend(RightTerms(grp, resp, c, row, images, n), terms, Term(resp[n - 1], p, c, images[n - 1]));
      AddTerm(grp.q, Total(terms), resp[n - 1], p, c, images[n - 1]);
    } else {
      DivMod(0, grp.q, 0, 0);
    }
  }

  /** The challenges from position 0 around the ring and back to the first: each is the hash of the message and the two
      sums that the one before makes with the responses, the keys and the key images. */
  ghost predicate Closes(grp: Group, sig: Signature, ring: Ring, msg: Msg, cs: seq<Scalar>) {
    var layers := |sig.keyImages|;
    && |ring| == |sig.responses| && |cs| == |ring| + 1 && cs[0] == sig.c0 == cs[|ring|]
    && (forall i | 0 <= i < |ring| :: layers <= |sig.responses[i]| && layers <= |ring[i]|)
    && forall i | 0 <= i < |ring| ::
         cs[i + 1] == grp.challenge(msg, Total(LeftTerms(grp, sig.responses[i], cs[i], ring[i], layers)) % grp.q,
             Total(RightTerms(grp, sig.responses[i], cs[i], ring[i], sig.keyImages, layers)) % grp.q)
  }

  /** A signature is accepted exactly if it has a response and the ring a key for each of at least two positions and
      each of at least one layer, and such challenges exist. */
  lemma AcceptsExactly(grp: Group, sig: Signature, ring: Ring, msg: Msg)
    ensures Accepts(grp, sig, ring, msg) <==>
              && |ring| == sig.ringSize == |sig.responses| && sig.ringSize >= 2
              && sig.nLayers == |sig.keyImages| && sig.nLayers > 0
              && (forall i | 0 <= i < |ring| :: |ring[i]| == |sig.responses[i]| == sig.nLayers)
              && exists cs :: Closes(grp, sig, ring, msg, cs)
  {
    hide Total, LeftTerms, RightTerms, Left, Right;
    if Accepts(grp, sig, ring, msg) {
      var cs: seq<Scalar> := seq<Scalar>(|ring| + 1, i requires 0 <= i <= |ring| => Walk(grp, sig, ring, msg, i));
      forall i | 0 <= i < |ring|
        ensures cs[i + 1] == grp.challenge(msg,
            Total(LeftTerms(grp, sig.responses[i], cs[i], ring[i], |sig.keyImages|)) % grp.q,
            Total(RightTerms(grp, sig.responses[i], cs[i], ring[i], sig.keyImages, |sig.keyImages|)) % grp.q)
      {
        LeftIsSum(grp, sig.responses[i], cs[i], ring[i], |sig.keyImages|);
        RightIsSum(grp, sig.responses[i], cs[i], ring[i], sig.keyImages, |sig.keyImages|);
      }
      assert Closes(grp, sig, ring, msg, cs);
    }
    if WellShaped(sig, ring) && exists cs :: Closes(grp, sig, ring, msg, cs) {
      var cs :| Closes(grp, sig, ring, msg, cs);
      ClosingWalk(grp, sig, ring, msg, cs, |ring|);
    }
  }

  lemma {:induction false} ClosingWalk(grp: Group, sig: Signature, ring: Ring, msg: Msg, cs: seq<Scalar>, n: nat)
    requires WellShaped(sig, ring) && Closes(grp, sig, ring, msg, cs) && n <= |ring|
    ensures Walk(grp, sig, ring, msg, n) == cs[n]
  {
    hide Total, LeftTerms, RightTerms, Left, Right;
    if n > 0 {
      ClosingWalk(grp, sig, ring, msg, cs, n - 1);
      LeftIsSum(grp, sig.responses[n - 1], cs[n - 1], ring[n - 1], |sig.keyImages|);
      RightIsSum(grp, sig.responses[n - 1], cs[n - 1], ring[n - 1], sig.keyImages, |sig.keyImages|);
    }
  }

  // ----- What a signature is bound to

  /** The challenge hash tells messages and commitments apart. */
  ghost predicate InjectiveChallenge(grp: Group) {
    forall m, l, r, m', l', r' | grp.challenge(m, l, r) == grp.challenge(m', l', r') :: m == m' && l == l' && r == r'
  }

  /** The first challenge of an accepted signature is the last one computed: a challenge for its message. */
  lemma StartIsChallenge(grp: Group, sig: Signature, ring: Ring, msg: Msg)
    requires Accepts(grp, sig, ring, msg)
    ensures exists l, r :: grp.challenge(msg, l, r) == sig.c0
  {
    var n := |ring| - 1;
    var c := Walk(grp, sig, ring, msg, n);
    assert Walk(grp, sig, ring, msg, n + 1) == Next(grp, msg, sig.responses[n], c, ring[n], sig.keyImages);
  }

  /** A signature is accepted for one message only, whatever the rings. */
  lemma OneMessage(grp: Group, sig: Signature, ring: Ring, msg: Msg, sig': Signature, ring': Ring, msg': Msg)
    requires InjectiveChallenge(grp) && sig.c0 == sig'.c0
    requires Accepts(grp, sig, ring, msg) && Accepts(grp, sig', ring', msg')
    ensures msg == msg'
  {
    StartIsChallenge(grp, sig, ring, msg);
    StartIsChallenge(grp, sig', ring', msg');
    var l, r :| grp.challenge(msg, l, r) == sig.c0;
    var l', r' :| grp.challenge(msg', l', r') == sig.c0;
  }

  /** With another first challenge a signature is refused, if that is no challenge for the message or congruent to
      the old one. */
  lemma ChangedStartIsRefused(grp: Group, sig: Signature, ring: Ring, msg: Msg, c: Scalar)
    requires Accepts(grp, sig, ring, msg) && c != sig.c0
    requires (forall l, r :: grp.challenge(msg, l, r) != c) || c % grp.q == sig.c0 % grp.q
    ensures !Accepts(grp, sig.(c0 := c), ring, msg)
  {
    var sig' := sig.(c0 := c);
    if Accepts(grp, sig', ring, msg) {
      StartIsChallenge(grp, sig', ring, msg);
      CongruentStarts(grp, sig, ring, msg, c, |ring|);
    }
  }

  lemma {:induction false} CongruentStarts(grp: Group, sig: Signature, ring: Ring, msg: Msg, c: Scalar, n: nat)
    requires WellShaped(sig, ring) && c % grp.q == sig.c0 % grp.q && 0 < n <= |ring|
    ensures Walk(grp, sig.(c0 := c), ring, msg, n) == Walk(grp, sig, ring, msg, n)
  {
    if n > 1 {
      CongruentStarts(grp, sig, ring, msg, c, n - 1);
    } else {
      CongruentCommitments(grp, sig.responses[0], sig.c0, c, ring[0], sig.keyImages, |sig.keyImages|);
    }
  }

  lemma {:induction false} CongruentCommitments(grp: Group, resp: seq<Scalar>, c: Scalar, c': Scalar, row: seq<Point>,
      images: seq<Point>, n: nat)
    requires c % grp.q == c' % grp.q && n <= |resp| && n <= |row| && n <= |images|
    ensures Left(grp, resp, c, row, n) == Left(grp, resp, c', row, n)
    ensures Right(grp, resp, c, row, images, n) == Right(grp, resp, c', row, images, n)
  {
    if n > 0 {
      CongruentCommitments(grp, resp, c, c', row, images, n - 1);
      CongMul(grp.q, c, c', row[n - 1]);
      CongMul(grp.q, c, c', images[n - 1]);
    }
  }

  // ----- Stealth addresses

  datatype StealthAddress = StealthAddress(spendKey: Point, viewKey: Point)

  /** A one-time destination for the address, made with the sender's scalar `r`, and the
      ephemeral point that goes with it. */
  function DeriveDestination(grp: Group, addr: StealthAddress, r: Scalar): (Point, Point) {
    var shared := Mul(grp.q, r, addr.viewKey);
    (Add(grp.q, Mul(grp.q, grp.hashToScalar(shared), grp.g), addr.spendKey), Mul(grp.q, r, grp.g))
  }

  function RecoverOneTimeKey(grp: Group, view: Scalar, spend: Scalar, ephemeral: Point): Scalar {
    var shared := Mul(grp.q, view, ephemeral);
    Add(grp.q, grp.hashToScalar(shared), spend)
  }

  lemma MulSwap(q: Modulus, a: nat, b: nat, p: nat)
    ensures Mul(q, a, Mul(q, b, p)) == Mul(q, b, Mul(q, a, p))
  {
    MulCong(q, b, p);
    CongMul(q, Mul(q, b, p), b * p, a);
    MulCong(q, a, p);
    CongMul(q, Mul(q, a, p), a * p, b);
    assert a * (b * p) == b * (a * p);
  }

  /** The receiver's recovered scalar opens the destination that the sender derived. */
  lemma RecoveryOpensDestination(grp: Group, view: Scalar, spend: Scalar, r: Scalar)
    ensures
      var q := grp.q;
      var addr := StealthAddress(Mul(q, spend, grp.g), Mul(q, view, grp.g));
      var (dest, ephemeral) := DeriveDestination(grp, addr, r);
      Mul(q, RecoverOneTimeKey(grp, view, spend, ephemeral), grp.g) == dest
  {
    var q := grp.q;
    MulSwap(q, r, view, grp.g);
    var hs := grp.hashToScalar(Mul(q, r, Mul(q, view, grp.g)));
    AddCong(q, hs, spend);
    CongMul(q, Add(q, hs, spend), hs + spend, grp.g);
    MulCong(q, hs, grp.g);
    MulCong(q, spend, grp.g);
    CongAdd(q, Mul(q, hs, grp.g), hs * grp.g, Mul(q, spend, grp.g), spend * grp.g);
    assert (hs + spend) * grp.g == hs * grp.g + spend * grp.g;
  }
}
