/** The wallet: which outputs it owns, and the private transactions it makes. A transaction it
    returns is accepted by the ledger exactly if its amounts fit the range proofs. */
module Wallets {
  import opened Arith
  import opened Digits
  import opened Types
  import opened Field
  import opened Mlsag
  import opened RangeProofs
  import opened Ledger

  datatype WalletKey = WalletKey(
    viewSecret: nat, spendSecret: nat, spendKey: Bytes32, viewKey: Bytes32, legacyPublicKey: Bytes)

  datatype OwnedUtxo = OwnedUtxo(key: UtxoKey, entry: UtxoEntry, oneTimeKey: Scalar)

  const RING_SIZE: nat := 11
  const RANGE_BITS: nat := 32

  // ----- Scanning

  /** The scalar with which the wallet key spends a stealth output, if it owns it. */
  function StealthSecret(c: Crypto, k: WalletKey, ephemeral: Point, dest: Bytes32): Option<Scalar> {
    var derived := RecoverOneTimeKey(c.grp, k.viewSecret % c.grp.q, k.spendSecret % c.grp.q, ephemeral);
    if c.decompress(dest) == Some(Mul(c.grp.q, derived, c.grp.g)) then Some(derived) else None
  }

  function StealthOwner(c: Crypto, keys: seq<WalletKey>, ephemeral: Point, dest: Bytes32, i: nat): Option<Scalar>
    requires i <= |keys|
    decreases |keys| - i
  {
    if i == |keys| then None
    else if StealthSecret(c, keys[i], ephemeral, dest).Some? then StealthSecret(c, keys[i], ephemeral, dest)
    else StealthOwner(c, keys, ephemeral, dest, i + 1)
  }

  predicate LegacyOwns(c: Crypto, k: WalletKey, entry: UtxoEntry) {
    && |k.legacyPublicKey| == 32 && c.verifyingKeyOk(k.legacyPublicKey)
    && entry.pubkeyHash != 0 && entry.pubkeyHash == c.hashPubkey(k.legacyPublicKey)
  }

  /** What the wallet makes of one output: its own stealth output, its own legacy output, or not its own.
      A malformed ephemeral key hides the output from the legacy check too. */
  function Owned(c: Crypto, keys: seq<WalletKey>, key: UtxoKey, entry: UtxoEntry): Option<OwnedUtxo> {
    if entry.stealthDest.Some? && entry.ephemeral.Some? && c.decompress(entry.ephemeral.value).None? then None
    else
      var secret := if entry.stealthDest.Some? && entry.ephemeral.Some?
                    then StealthOwner(c, keys, c.decompress(entry.ephemeral.value).value, entry.stealthDest.value, 0)
                    else None;
      if secret.Some? then Some(OwnedUtxo(key, entry, secret.value))
      else if exists i | 0 <= i < |keys| :: LegacyOwns(c, keys[i], entry) then Some(OwnedUtxo(key, entry, 0))
      else None
  }

  function Scanned(c: Crypto, keys: seq<WalletKey>, utxos: map<UtxoKey, UtxoEntry>, order: seq<UtxoKey>, n: nat)
      : seq<OwnedUtxo>
    requires n <= |order| && forall i | 0 <= i < |order| :: order[i] in utxos
  {
    if n == 0 then []
    else
      var o := Owned(c, keys, order[n - 1], utxos[order[n - 1]]);
      Scanned(c, keys, utxos, order, n - 1) + if o.Some? then [o.value] else []
  }

  /** An enumeration of the UTXO map, as iterating over it yields. */
  ghost predicate Enumerates(utxos: map<UtxoKey, UtxoEntry>, order: seq<UtxoKey>) {
    && (forall i | 0 <= i < |order| :: order[i] in utxos)
    && (forall k | k in utxos :: k in order)
    && (forall i, j | 0 <= i < j < |order| :: order[i] != order[j])
  }

  method ScanUtxos(c: Crypto, keys: seq<WalletKey>, utxos: map<UtxoKey, UtxoEntry>, order: seq<UtxoKey>)
    returns (owned: seq<OwnedUtxo>)
    requires Enumerates(utxos, order)
    ensures owned == Scanned(c, keys, utxos, order, |order|)
  {
    owned := [];
    for n := 0 to |order|
      invariant owned == Scanned(c, keys, utxos, order, n)
    {
      var key, entry := order[n], utxos[order[n]];
      var matched, skipped := false, false;
      ghost var before := owned;
      if entry.stealthDest.Some? && entry.ephemeral.Some? {
        var ephemeral := c.decompress(entry.ephemeral.value);
        if ephemeral.None? {
          skipped := true;
        } else {
          var i := 0;
          while i < |keys| && !matched
            invariant i <= |keys|
            invariant !matched ==> owned == before && StealthOwner(c, keys, ephemeral.value, entry.stealthDest.value, 0)
                                                   == StealthOwner(c, keys, ephemeral.value, entry.stealthDest.value, i)
            invariant matched ==>
                        var secret := StealthOwner(c, keys, ephemeral.value, entry.stealthDest.value, 0);
                        secret.Some? && owned == before + [OwnedUtxo(key, entry, secret.value)]
            decreases |keys| - i, !matched
          {
            var secret := StealthSecret(c, keys[i], ephemeral.value, entry.stealthDest.value);
            if secret.Some? {
              owned := owned + [OwnedUtxo(key, entry, secret.value)];
              matched := true;
            } else {
              i := i + 1;
            }
          }
        }
      }
      if !skipped && !matched {
        var i, found := 0, false;
        while i < |keys| && !found
          invariant i <= |keys|
          invariant !found ==> owned == before && forall k | 0 <= k < i :: !LegacyOwns(c, keys[k], entry)
          invariant found ==> owned == before + [OwnedUtxo(key, entry, 0)] && exists k | 0 <= k < |keys| ::
              LegacyOwns(c, keys[k], entry)
          decreases |keys| - i, !found
        {
          if LegacyOwns(c, keys[i], entry) {
            owned := owned + [OwnedUtxo(key, entry, 0)];
            found := true;
          } else {
            i := i + 1;
          }
        }
      }
    }
  }

  /** What the scan lists, and nothing else: an output with a destination that one of the stealth keys opens, under
      the scalar of the first such key; or else, unless its ephemeral key is malformed, one whose owner is the hash of
      a legacy key that is well-formed, without a scalar. */
  lemma OwnedExactly(c: Crypto, keys: seq<WalletKey>, key: UtxoKey, entry: UtxoEntry)
    ensures
      var q := c.grp.q;
      var (stealth, e) := (entry.stealthDest.Some? && entry.ephemeral.Some?,
        if entry.ephemeral.Some? then c.decompress(entry.ephemeral.value) else None);
      var opens := (k: WalletKey) =>
        if stealth && e.Some? && c.decompress(entry.stealthDest.value) == Some(
            Mul(q, RecoverOneTimeKey(c.grp, k.viewSecret % q, k.spendSecret % q, e.value), c.grp.g))
        then Some(RecoverOneTimeKey(c.grp, k.viewSecret % q, k.spendSecret % q, e.value)) else None;
      var owned := Owned(c, keys, key, entry);
      && (stealth && e.None? ==> owned == None)
      && (forall i | 0 <= i < |keys| && opens(keys[i]).Some? && forall j | 0 <= j < i :: opens(keys[j]).None? ::
            owned == Some(OwnedUtxo(key, entry, opens(keys[i]).value)))
      && ((forall i | 0 <= i < |keys| :: opens(keys[i]).None?) && !(stealth && e.None?) ==>
            owned == if exists i | 0 <= i < |keys| ::
                          && |keys[i].legacyPublicKey| == 32 && c.verifyingKeyOk(keys[i].legacyPublicKey)
                          && c.hashPubkey(keys[i].legacyPublicKey) == entry.pubkeyHash != 0
                     then Some(OwnedUtxo(key, entry, 0)) else None)
  {
    if entry.stealthDest.Some? && entry.ephemeral.Some? && c.decompress(entry.ephemeral.value).Some? {
      FirstOwner(c, keys, c.decompress(entry.ephemeral.value).value, entry.stealthDest.value, 0);
    }
  }

  lemma {:induction false} FirstOwner(c: Crypto, keys: seq<WalletKey>, ephemeral: Point, dest: Bytes32, i: nat)
    requires i <= |keys|
    ensures
      var r := StealthOwner(c, keys, ephemeral, dest, i);
      && (r.None? <==> forall k | i <= k < |keys| :: StealthSecret(c, keys[k], ephemeral, dest).None?)
      && forall k | i <= k < |keys| && StealthSecret(c, keys[k], ephemeral, dest).Some?
             && forall j | i <= j < k :: StealthSecret(c, keys[j], ephemeral, dest).None? ::
           r == StealthSecret(c, keys[k], ephemeral, dest)
    decreases |keys| - i
  {
    hide StealthSecret;
    if i < |keys| && StealthSecret(c, keys[i], ephemeral, dest).None? {
      FirstOwner(c, keys, ephemeral, dest, i + 1);
    }
  }

  /** Each output of the map is listed exactly if it is owned. */
  lemma ScannedExactly(c: Crypto, keys: seq<WalletKey>, utxos: map<UtxoKey, UtxoEntry>, order: seq<UtxoKey>)
    requires Enumerates(utxos, order)
    ensures forall o :: o in Scanned(c, keys, utxos, order, |order|)
                    <==> o.key in utxos && Owned(c, keys, o.key, utxos[o.key]) == Some(o)
  {
    hide Owned;
    ScannedUpTo(c, keys, utxos, order, |order|);
    assert order[..|order|] == order;
  }

  lemma {:induction false} ScannedUpTo(c: Crypto, keys: seq<WalletKey>, utxos: map<UtxoKey, UtxoEntry>,
      order: seq<UtxoKey>, n: nat)
    requires n <= |order| && forall i | 0 <= i < |order| :: order[i] in utxos
    ensures forall o :: o in Scanned(c, keys, utxos, order, n)
                    <==> o.key in order[..n] && Owned(c, keys, o.key, utxos[o.key]) == Some(o)
  {
    if n > 0 {
      ScannedUpTo(c, keys, utxos, order, n - 1);
      assert order[..n] == order[..n - 1] + [order[n - 1]];
      OwnedNamesItself(c, keys, order[n - 1], utxos[order[n - 1]]);
    }
  }

  lemma OwnedNamesItself(c: Crypto, keys: seq<WalletKey>, key: UtxoKey, entry: UtxoEntry)
    ensures Owned(c, keys, key, entry).Some? ==> Owned(c, keys, key, entry).value.key == key
  {
  }

  // ----- Selecting inputs

  function OwnedSum(owned: seq<OwnedUtxo>, n: nat): nat
    requires n <= |owned|
  {
    if n == 0 then 0 else OwnedSum(owned, n - 1) + owned[n - 1].entry.amount
  }

  /** The shortest prefix of the owned outputs whose sum reaches the amount, with all sums wrapping in
      64 bits as in the source; below 2^64 they are exact. */
  method SelectUtxos(owned: seq<OwnedUtxo>, amount: u64) returns (r: Option<seq<OwnedUtxo>>, total: u64)
    ensures r.None? <==> OwnedSum(owned, |owned|) % U64_LIMIT < amount
    ensures r.Some? ==>
              && r.value <= owned && total == OwnedSum(owned, |r.value|) % U64_LIMIT && total >= amount
              && (forall k | 0 <= k < |r.value| :: OwnedSum(owned, k) % U64_LIMIT < amount)
              && (amount > 0 ==> r.value != [])
  {
    hide OwnedSum;
    NothingOwned(owned);
    var available: u64 := 0;
    for i := 0 to |owned|
      invariant available == OwnedSum(owned, i) % U64_LIMIT
    {
      OwnedSumWraps(owned, i);
      available := (available + owned[i].entry.amount) % U64_LIMIT;
    }
    total := 0;
    if available < amount { return None, 0; }
    var n := 0;
    while n < |owned| && total < amount
      invariant n <= |owned| && total == OwnedSum(owned, n) % U64_LIMIT
      invariant forall k | 0 <= k < n :: OwnedSum(owned, k) % U64_LIMIT < amount
    {
      OwnedSumWraps(owned, n);
      total := (total + owned[n].entry.amount) % U64_LIMIT;
      n := n + 1;
    }
    return Some(owned[..n]), total;
  }

  lemma NothingOwned(owned: seq<OwnedUtxo>)
    ensures OwnedSum(owned, 0) % U64_LIMIT == 0
  {
  }

  lemma OwnedSumWraps(owned: seq<OwnedUtxo>, n: nat)
    requires n < |owned|
    ensures OwnedSum(owned, n + 1) % U64_LIMIT == (OwnedSum(owned, n) % U64_LIMIT + owned[n].entry.amount) % U64_LIMIT
  {
  }

  // ----- Building a ring

  /** All positions below `n`, in an order drawn by swapping from the end. */
  method ShuffledIndices(n: nat, draws: seq<nat>) returns (indices: seq<nat>)
    requires n <= |draws|
    ensures IsPermutation(indices, n)
  {
    indices := seq(n, i => i);
    var i := n;
    while i > 1
      invariant i <= n || n == 0
      invariant IsPermutation(indices, n)
    {
      i := i - 1;
      var j := draws[i] % (i + 1);
      indices := indices[i := indices[j]][j := indices[i]];
    }
  }

  predicate IsPermutation(indices: seq<nat>, n: nat) {
    && |indices| == n
    && (forall i | 0 <= i < n :: indices[i] < n)
    && forall i, j | 0 <= i < j < n :: indices[i] != indices[j]
  }

  /** Ten ring members other than `own`, taken in shuffled order. */
  method PickDecoys(candidates: seq<UtxoKey>, own: UtxoKey, indices: seq<nat>) returns (decoys: seq<UtxoKey>)
    requires IsPermutation(indices, |candidates|)
    requires forall i, j | 0 <= i < j < |candidates| :: candidates[i] != candidates[j]
    ensures forall d | d in decoys :: d in candidates && d != own
    ensures |decoys| <= RING_SIZE - 1
    ensures |candidates| >= RING_SIZE ==> |decoys| == RING_SIZE - 1
  {
    decoys := [];
    ghost var skipped := 0;
    var i := 0;
    while i < |indices| && |decoys| < RING_SIZE - 1
      invariant i <= |indices| && |decoys| <= RING_SIZE - 1
      invariant forall d | d in decoys :: d in candidates && d != own
      invariant |decoys| == i - skipped && 0 <= skipped <= 1
      invariant skipped == 0 ==> forall k | 0 <= k < i :: candidates[indices[k]] != own
      invariant skipped == 1 ==> exists k | 0 <= k < i :: candidates[indices[k]] == own
    {
      var key := candidates[indices[i]];
      if key != own {
        decoys := decoys + [key];
      } else {
        assert skipped == 0 by { DistinctCandidates(candidates, indices, i); }
        skipped := skipped + 1;
      }
      i := i + 1;
    }
  }

  lemma DistinctCandidates(candidates: seq<UtxoKey>, indices: seq<nat>, i: nat)
    requires IsPermutation(indices, |candidates|) && i < |indices|
    requires forall i, j | 0 <= i < j < |candidates| :: candidates[i] != candidates[j]
    ensures forall k | 0 <= k < i :: candidates[indices[k]] != candidates[indices[i]]
  {
  }

  /** The public keys of the ring members. */
  method RingKeys(c: Crypto, utxos: map<UtxoKey, UtxoEntry>, members: seq<UtxoKey>) returns (r: Result<seq<Point>>)
    ensures r.Ok? ==> BuildRing(c, utxos, members, 0, []) == r && |r.value| == |members|
    ensures r.Ok? ==> forall i | 0 <= i < |members| :: RingKey(c, utxos, members[i]) == Ok(r.value[i])
    ensures r.Err? ==> exists i | 0 <= i < |members| :: RingKey(c, utxos, members[i]).Err?
  {
    var ring := [];
    for i := 0 to |members|
      invariant BuildRing(c, utxos, members, 0, []) == BuildRing(c, utxos, members, i, ring)
      invariant |ring| == i && forall k | 0 <= k < i :: RingKey(c, utxos, members[k]) == Ok(ring[k])
    {
      if members[i] !in utxos { return Err(RingUtxoNotFound); }
      var dest := utxos[members[i]].stealthDest;
      if dest.None? || c.decompress(dest.value).None? { return Err(InvalidStealthPoint); }
      ring := ring + [c.decompress(dest.value).value];
    }
    return Ok(ring);
  }

  // ----- Making a transaction

  /** The random draws of one transaction. */
  datatype Randomness = Randomness(
    index: nat, swap: (nat, nat) -> nat, ephemeral: nat -> Scalar,
    blinding: (nat, nat) -> Scalar, nonce: (nat, nat) -> Scalar, response: (nat, nat) -> Scalar,
    alpha: nat -> Scalar, filler: (nat, nat) -> Scalar)

  /** One selected input with its ring. */
  datatype RingInput = RingInput(utxo: OwnedUtxo, members: seq<UtxoKey>, layer: seq<Point>)

  function Candidates(utxos: map<UtxoKey, UtxoEntry>, order: seq<UtxoKey>, n: nat): seq<UtxoKey>
    requires n <= |order| && forall i | 0 <= i < |order| :: order[i] in utxos
  {
    if n == 0 then []
    else Candidates(utxos, order, n - 1) + if utxos[order[n - 1]].stealthDest.Some? then [order[n - 1]] else []
  }

  method StealthCandidates(utxos: map<UtxoKey, UtxoEntry>, order: seq<UtxoKey>) returns (candidates: seq<UtxoKey>)
    requires Enumerates(utxos, order)
    ensures candidates == Candidates(utxos, order, |order|)
    ensures forall i, j | 0 <= i < j < |candidates| :: candidates[i] != candidates[j]
    ensures forall k | k in candidates :: k in utxos && utxos[k].stealthDest.Some?
  {
    candidates := [];
    for n := 0 to |order|
      invariant candidates == Candidates(utxos, order, n)
      invariant forall k | k in candidates :: k in order[..n] && k in utxos && utxos[k].stealthDest.Some?
      invariant forall i, j | 0 <= i < j < |candidates| :: candidates[i] != candidates[j]
    {
      if utxos[order[n]].stealthDest.Some? {
        assert order[n] !in order[..n];
        candidates := candidates + [order[n]];
      }
    }
  }

  function InputOf(c: Crypto, r: RingInput, realIndex: nat): TxInput
    requires realIndex < |r.layer|
  {
    TxInput(r.utxo.key.txHash, r.utxo.key.outputIndex,
            c.compress(KeyImage(c.grp, r.utxo.oneTimeKey, r.layer[realIndex])), [])
  }

  /** The ring of an input is built from its members, and the input itself stands at the shared index. */
  predicate RingInputOk(c: Crypto, utxos: map<UtxoKey, UtxoEntry>, r: RingInput, realIndex: nat) {
    && realIndex < |r.layer|
    && BuildRing(c, utxos, r.members, 0, []) == Ok(r.layer)
    && RingKey(c, utxos, r.utxo.key) == Ok(r.layer[realIndex])
  }

  predicate AllStealthPointsValid(c: Crypto, utxos: map<UtxoKey, UtxoEntry>) {
    forall k | k in utxos && utxos[k].stealthDest.Some? :: c.decompress(utxos[k].stealthDest.value).Some?
  }

  method BuildRingInput(c: Crypto, utxos: map<UtxoKey, UtxoEntry>, candidates: seq<UtxoKey>, utxo: OwnedUtxo,
      realIndex: nat, draws: seq<nat>) returns (r: Result<RingInput>)
    requires |candidates| <= |draws| && realIndex < RING_SIZE
    requires forall i, j | 0 <= i < j < |candidates| :: candidates[i] != candidates[j]
    requires forall k | k in candidates :: k in utxos && utxos[k].stealthDest.Some?
    ensures r.Ok? ==> r.value.utxo == utxo && RingInputOk(c, utxos, r.value, realIndex)
    ensures r.Ok? && |candidates| >= RING_SIZE ==> |r.value.layer| == RING_SIZE
    ensures
      (&& |candidates| >= RING_SIZE
       && AllStealthPointsValid(c, utxos)
       && utxo.key in utxos && utxos[utxo.key].stealthDest.Some?)
      ==> r.Ok?
  {
    var indices := ShuffledIndices(|candidates|, draws);
    var decoys := PickDecoys(candidates, utxo.key, indices);
    var insertPos := Min(realIndex, |decoys|);
    var members := decoys[..insertPos] + [utxo.key] + decoys[insertPos..];
    var layer := RingKeys(c, utxos, members);
    if layer.Err? { return Err(layer.error); }
    if realIndex >= |layer.value| { return Err(RingTooSmall); }
    assert members[realIndex] == utxo.key;
    return Ok(RingInput(utxo, members, layer.value));
  }

  /** What the codecs and the scalar type guarantee: points and proofs survive encoding, and challenges are reduced. */
  ghost predicate Laws(c: Crypto) {
    && SuitableGroup(c.grp)
    && (forall p: Point :: c.decompress(c.compress(p)) == Some(p))
    && (forall proof :: c.decodeProof(c.encodeProof(proof)) == Some(proof))
    && (forall m, l, r :: c.grp.challenge(m, l, r) < c.grp.q)
  }

  /** A private output to an address, with its range proof. */
  method MakeOutput(c: Crypto, addr: StealthAddress, amount: u64, rnd: Randomness, which: nat) returns (o: TxOutput)
    requires SuitableGroup(c.grp)
    ensures
      var (dest, ephemeral) := DeriveDestination(c.grp, addr, rnd.ephemeral(which));
      && o.amount == amount && o.spendableAfter == 0
      && o.stealthDest == Some(c.compress(dest)) && o.ephemeral == Some(c.compress(ephemeral))
    ensures Laws(c) ==> CheckOutput(c, o) == if amount < Pow2(RANGE_BITS) then None else Some(BadRangeProof)
  {
    var (dest, ephemeral) := DeriveDestination(c.grp, addr, rnd.ephemeral(which));
    var blindings: seq<Scalar> := seq(RANGE_BITS, (i: nat) => rnd.blinding(which, i));
    var nonces: seq<Scalar> := seq(RANGE_BITS, (i: nat) => rnd.nonce(which, i));
    var fillers: seq<Scalar> := seq(RANGE_BITS, (i: nat) => rnd.response(which, i));
    hide SuitableGroup, AcceptsRange, Commit, Pow2, CheckOutput;
    var proof, total := ProveWithBlinding(c.grp, amount, RANGE_BITS, blindings, nonces, fillers);
    var commitment := Commit(c.grp, amount, total);
    o := TxOutput(amount, 0, 0, Some(c.compress(dest)), Some(c.compress(commitment)), Some(c.encodeProof(proof)),
                  Some(c.compress(ephemeral)));
    if Laws(c) { EncodedOutputChecks(c, o, proof, commitment); }
  }

  lemma EncodedOutputChecks(c: Crypto, o: TxOutput, proof: RangeProof, commitment: Point)
    requires Laws(c) && o.IsPrivate()
    requires o.rangeProof == Some(c.encodeProof(proof)) && o.commitment == Some(c.compress(commitment))
    ensures CheckOutput(c, o) == if AcceptsRange(c.grp, proof, commitment) then None else Some(BadRangeProof)
  {
    hide SuitableGroup, AcceptsRange;
  }

  function CompressAll(c: Crypto, points: seq<Point>): (data: seq<Bytes32>)
    ensures |data| == |points| && forall i | 0 <= i < |points| :: data[i] == c.compress(points[i])
  {
    if points == [] then [] else CompressAll(c, points[..|points| - 1]) + [c.compress(points[|points| - 1])]
  }

  function FromSig(c: Crypto, sig: Signature): MlsagData {
    MlsagData(sig.ringSize, sig.nLayers, CompressAll(c, sig.keyImages), sig.c0, sig.responses)
  }

  // ----- Why the ledger accepts

  lemma {:induction false} DecompressCompressed(c: Crypto, points: seq<Point>, data: seq<Bytes32>, i: nat)
    requires Laws(c) && |data| == |points| && i <= |points|
    requires forall k | 0 <= k < |points| :: data[k] == c.compress(points[k])
    ensures DecompressAll(c, data, i, points[..i]) == Some(points)
    decreases |points| - i
  {
    hide SuitableGroup;
    if i < |points| {
      assert points[..i] + [points[i]] == points[..i + 1];
      DecompressCompressed(c, points, data, i + 1);
    } else {
      assert points[..i] == points;
    }
  }

  /** An accepted signature with reduced responses survives encoding. */
  lemma SignatureRoundTrip(c: Crypto, sig: Signature, ring: Ring, msg: Msg)
    requires Laws(c) && Accepts(c.grp, sig, ring, msg)
    requires forall i, j | 0 <= i < |sig.responses| && 0 <= j < |sig.responses[i]| :: sig.responses[i][j] < c.grp.q
    ensures ToSignature(c, FromSig(c, sig)) == Some(sig)
  {
    hide SuitableGroup, Left, Right;
    DecompressCompressed(c, sig.keyImages, CompressAll(c, sig.keyImages), 0);
    assert sig.keyImages[..0] == [];
    assert sig.c0 == Next(c.grp, msg, sig.responses[|ring| - 1], Walk(c.grp, sig, ring, msg, |ring| - 1),
        ring[|ring| - 1], sig.keyImages);
    SmallMod(sig.c0, c.grp.q);
    ReducedRows(c.grp.q, sig.responses);
  }

  lemma ReducedRows(q: Modulus, rows: seq<seq<Scalar>>)
    requires forall i, j | 0 <= i < |rows| && 0 <= j < |rows[i]| :: rows[i][j] < q
    ensures ReduceAll(q, rows) == rows
  {
    forall i | 0 <= i < |rows|
      ensures ReduceAll(q, rows)[i] == rows[i]
    {
      forall j | 0 <= j < |rows[i]|
        ensures ReduceAll(q, rows)[i][j] == rows[i][j]
      {
        SmallMod(rows[i][j], q);
      }
    }
  }

  lemma SmallMod(x: nat, q: Modulus)
    requires x < q
    ensures x % q == x
  {
    DivMod(x, q, 0, x);
  }

  lemma {:induction false} LayersAreBuilt(c: Crypto, utxos: map<UtxoKey, UtxoEntry>, rings: seq<seq<UtxoKey>>,
      layers: seq<seq<Point>>, i: nat)
    requires |rings| == |layers| && i <= |rings|
    requires forall k | 0 <= k < |rings| :: BuildRing(c, utxos, rings[k], 0, []) == Ok(layers[k])
    ensures BuildLayers(c, utxos, rings, i, layers[..i]) == Ok(layers)
    decreases |rings| - i
  {
    if i < |rings| {
      assert layers[..i] + [layers[i]] == layers[..i + 1];
      LayersAreBuilt(c, utxos, rings, layers, i + 1);
    } else {
      assert layers[..i] == layers;
    }
  }

  /** The owned output is a stealth output that the one-time key opens. */
  predicate OwnsStealth(c: Crypto, utxos: map<UtxoKey, UtxoEntry>, o: OwnedUtxo) {
    && o.key in utxos && o.entry == utxos[o.key]
    && RingKey(c, utxos, o.key) == Ok(Mul(c.grp.q, o.oneTimeKey, c.grp.g))
  }

  /** The owned output is unlocked and its key image is not spent. */
  predicate Unspent(c: Crypto, l: LedgerState, o: OwnedUtxo, height: nat) {
    && o.entry.spendableAfter <= height
    && c.compress(KeyImage(c.grp, o.oneTimeKey, Mul(c.grp.q, o.oneTimeKey, c.grp.g))) !in l.spent
  }

  predicate NoLegacyOutputs(c: Crypto, keys: seq<WalletKey>, utxos: map<UtxoKey, UtxoEntry>) {
    forall k, i | k in utxos && 0 <= i < |keys| :: !LegacyOwns(c, keys[i], utxos[k])
  }

  lemma {:induction false} StealthOwnerOpens(c: Crypto, keys: seq<WalletKey>, ephemeral: Point, dest: Bytes32, i: nat)
    requires i <= |keys| && StealthOwner(c, keys, ephemeral, dest, i).Some?
    ensures c.decompress(dest) == Some(Mul(c.grp.q, StealthOwner(c, keys, ephemeral, dest, i).value, c.grp.g))
    decreases |keys| - i
  {
    if StealthSecret(c, keys[i], ephemeral, dest).None? { StealthOwnerOpens(c, keys, ephemeral, dest, i + 1); }
  }

  /** Without legacy outputs, all that the wallet finds are stealth outputs it can open. */
  lemma {:induction false} ScannedAreStealth(c: Crypto, keys: seq<WalletKey>, utxos: map<UtxoKey, UtxoEntry>,
      order: seq<UtxoKey>, n: nat)
    requires NoLegacyOutputs(c, keys, utxos) && n <= |order| && forall i | 0 <= i < |order| :: order[i] in utxos
    ensures forall o | o in Scanned(c, keys, utxos, order, n) :: OwnsStealth(c, utxos, o)
  {
    if n > 0 {
      ScannedAreStealth(c, keys, utxos, order, n - 1);
      var entry := utxos[order[n - 1]];
      if Owned(c, keys, order[n - 1], entry).Some? {
        StealthOwnerOpens(c, keys, c.decompress(entry.ephemeral.value).value, entry.stealthDest.value, 0);
      }
    }
  }

  /** The ingredients of a transaction made from selected inputs. */
  datatype Draft = Draft(rs: seq<RingInput>, realIndex: nat, outputs: seq<TxOutput>)

  ghost predicate DraftOk(c: Crypto, utxos: map<UtxoKey, UtxoEntry>, d: Draft) {
    && d.rs != [] && d.realIndex < RING_SIZE
    && forall i | 0 <= i < |d.rs| ::
         && RingInputOk(c, utxos, d.rs[i], d.realIndex) && |d.rs[i].layer| == RING_SIZE
         && OwnsStealth(c, utxos, d.rs[i].utxo)
  }

  function Layers(rs: seq<RingInput>): (layers: seq<seq<Point>>)
    ensures |layers| == |rs| && forall i | 0 <= i < |rs| :: layers[i] == rs[i].layer
  {
    seq(|rs|, i requires 0 <= i < |rs| => rs[i].layer)
  }

  function Secrets(rs: seq<RingInput>): (secrets: seq<Scalar>)
    ensures |secrets| == |rs| && forall i | 0 <= i < |rs| :: secrets[i] == rs[i].utxo.oneTimeKey
  {
    seq(|rs|, i requires 0 <= i < |rs| => rs[i].utxo.oneTimeKey)
  }

  function TxOf(c: Crypto, d: Draft, mlsag: Option<MlsagData>): Transaction
    requires forall i | 0 <= i < |d.rs| :: d.realIndex < |d.rs[i].layer|
  {
    Transaction(1, seq(|d.rs|, i requires 0 <= i < |d.rs| => InputOf(c, d.rs[i], d.realIndex)), d.outputs, RING_SIZE,
        [],
                mlsag, Some(seq(|d.rs|, i requires 0 <= i < |d.rs| => d.rs[i].members)))
  }

  /** The ring the wallet signs is the one the ledger rebuilds, and the secrets open it at the real index. */
  lemma DraftRing(c: Crypto, utxos: map<UtxoKey, UtxoEntry>, d: Draft)
    requires DraftOk(c, utxos, d)
    ensures Layers(d.rs) != [] && forall k | 0 <= k < |d.rs| :: |Layers(d.rs)[0]| <= |Layers(d.rs)[k]|
    ensures
      var ring := Transpose(Layers(d.rs));
      && |ring| == RING_SIZE && RowsHaveLength(ring, |d.rs|)
      && Opens(c.grp, ring[d.realIndex], Secrets(d.rs))
    ensures BuildLayers(c, utxos, TxOf(c, d, None).ringMembers.value, 0, []) == Ok(Layers(d.rs))
  {
    hide BuildRing, RingKey;
    var layers, members := Layers(d.rs), TxOf(c, d, None).ringMembers.value;
    var ring := Transpose(layers);
    forall j | 0 <= j < |d.rs|
      ensures ring[d.realIndex][j] == Mul(c.grp.q, Secrets(d.rs)[j], c.grp.g)
    {
      assert RingInputOk(c, utxos, d.rs[j], d.realIndex);
    }
    LayersAreBuilt(c, utxos, members, layers, 0);
    assert layers[..0] == [];
  }

  method SignDraft(c: Crypto, ghost utxos: map<UtxoKey, UtxoEntry>, d: Draft, rnd: Randomness) returns (tx: Transaction)
    requires d.rs != []
    requires forall i | 0 <= i < |d.rs| :: d.realIndex < |d.rs[i].layer| && |d.rs[0].layer| <= |d.rs[i].layer|
    ensures tx.mlsag.Some? && tx == TxOf(c, d, tx.mlsag)
    ensures Laws(c) && DraftOk(c, utxos, d) ==> MlsagOk(c, tx.mlsag.value, Transpose(Layers(d.rs)), MsgOf(tx))
  {
    hide DraftOk, Accepts, Opens, ImagesOf, RingInputOk;
    var layers := Layers(d.rs);
    var ring := Transpose(layers);
    var n, q := |d.rs|, c.grp.q;
    var unsigned := TxOf(c, d, None);
    var alpha: seq<Scalar> := seq(n, (j: nat) => rnd.alpha(j));
    var filler: seq<seq<Scalar>> := seq(|ring|, (i: nat) => seq(n, (j: nat) => rnd.filler(i, j) % q));
    var sig := Sign(c.grp, ring, Secrets(d.rs), d.realIndex, MsgOf(unsigned), alpha, filler);
    tx := unsigned.(mlsag := Some(FromSig(c, sig)));
    assert MsgOf(tx) == MsgOf(unsigned);
    if Laws(c) && DraftOk(c, utxos, d) {
      hide Laws;
      DraftRing(c, utxos, d);
      forall i, j | 0 <= i < |sig.responses| && 0 <= j < |sig.responses[i]|
        ensures sig.responses[i][j] < q
      {
        if i != d.realIndex { assert sig.responses[i] == filler[i]; }
      }
      SignatureRoundTrip(c, sig, ring, MsgOf(tx));
    }
  }

  function DraftSum(rs: seq<RingInput>, n: nat): nat
    requires n <= |rs|
  {
    if n == 0 then 0 else DraftSum(rs, n - 1) + rs[n - 1].utxo.entry.amount
  }

  ghost predicate DraftUnspent(c: Crypto, l: LedgerState, d: Draft, height: nat) {
    forall i | 0 <= i < |d.rs| :: Unspent(c, l, d.rs[i].utxo, height)
  }

  lemma DraftInputPasses(c: Crypto, l: LedgerState, d: Draft, tx: Transaction, height: nat, i: nat)
    requires DraftOk(c, l.utxos, d) && tx == TxOf(c, d, tx.mlsag) && tx.mlsag.Some?
    requires DraftUnspent(c, l, d, height) && i < |d.rs|
    ensures |tx.inputs| == |d.rs| && tx.inputs[i].Outpoint() == d.rs[i].utxo.key
    ensures tx.inputs[i].keyImage !in l.spent && tx.inputs[i].Outpoint() in l.utxos
    ensures l.utxos[tx.inputs[i].Outpoint()] == d.rs[i].utxo.entry
    ensures CheckInput(c, l, tx, tx.inputs[i], height) == None
  {
    hide BuildRing, RingKey;
    assert RingInputOk(c, l.utxos, d.rs[i], d.realIndex);
    assert Unspent(c, l, d.rs[i].utxo, height);
  }

  lemma {:induction false} DraftInputsPass(c: Crypto, l: LedgerState, d: Draft, tx: Transaction, height: nat, i: nat,
      checkImages: bool)
    requires DraftOk(c, l.utxos, d) && tx == TxOf(c, d, tx.mlsag) && tx.mlsag.Some? && |tx.inputs| == |d.rs|
    requires DraftUnspent(c, l, d, height) && i <= |d.rs|
    requires DraftSum(d.rs, |d.rs|) < U64_LIMIT && DraftSum(d.rs, i) < U64_LIMIT
    ensures CheckInputs(c, l, tx, height, i) == None
    ensures InputSum(l, tx.inputs, i, DraftSum(d.rs, i), checkImages) == Ok(DraftSum(d.rs, |d.rs|))
    decreases |d.rs| - i
  {
    hide DraftOk, DraftUnspent, CheckInput;
    if i < |d.rs| {
      DraftInputPasses(c, l, d, tx, height, i);
      DraftSumGrows(d.rs, i + 1, |d.rs|);
      DraftInputsPass(c, l, d, tx, height, i + 1, checkImages);
    }
  }

  lemma {:induction false} DraftSumGrows(rs: seq<RingInput>, m: nat, n: nat)
    requires m <= n <= |rs|
    ensures DraftSum(rs, m) <= DraftSum(rs, n)
  {
    if m < n { DraftSumGrows(rs, m, n - 1); }
  }

  /** The ledger's checks on a drafted and signed transaction come down to its range proofs. */
  lemma DraftPasses(c: Crypto, l: LedgerState, d: Draft, tx: Transaction, height: nat)
    requires DraftOk(c, l.utxos, d) && tx == TxOf(c, d, tx.mlsag) && tx.mlsag.Some?
    requires MlsagOk(c, tx.mlsag.value, Transpose(Layers(d.rs)), MsgOf(tx))
    requires DraftUnspent(c, l, d, height) && DraftSum(d.rs, |d.rs|) < U64_LIMIT
    requires OutputSum(d.outputs, 0, 0) == Ok(DraftSum(d.rs, |d.rs|))
    requires forall i | 0 <= i < |d.outputs| :: d.outputs[i].IsPrivate()
    ensures CheckSpend(c, l, tx, height) == CheckOutputs(c, d.outputs, 0)
    ensures Validate(l, tx) == None
    ensures InputSum(l, tx.inputs, 0, 0, true) == OutputSum(tx.outputs, 0, 0)
  {
    DraftRing(c, l.utxos, d);
    hide MlsagOk, Transpose, RingInputOk, BuildLayers, CheckInputs, InputSum;
    DraftInputsPass(c, l, d, tx, height, 0, true);
    DraftInputsPass(c, l, d, tx, height, 0, false);
    assert CheckRing(c, l, tx) == None;
    assert tx.inputs != [];
  }

  // ----- The whole transaction

  /** The conditions under which a private transaction can be made and spent: the laws of the codecs, no
      legacy outputs, enough stealth outputs for a full ring, and that the outputs which the payment takes up,
      those with less than the amount before them, are unlocked and unspent and add up without wrapping around. */
  ghost predicate Prepared(c: Crypto, keys: seq<WalletKey>, l: LedgerState, order: seq<UtxoKey>, amount: nat,
      height: nat)
    requires forall i | 0 <= i < |order| :: order[i] in l.utxos
  {
    && Laws(c) && NoLegacyOutputs(c, keys, l.utxos)
    && |Candidates(l.utxos, order, |order|)| >= 11
    && var owned := Scanned(c, keys, l.utxos, order, |order|);
    && forall k | 0 <= k < |owned| && OwnedSum(owned, k) < amount ::
         Unspent(c, l, owned[k], height) && OwnedSum(owned, k + 1) < U64_LIMIT
  }

  ghost predicate CanPay(c: Crypto, keys: seq<WalletKey>, utxos: map<UtxoKey, UtxoEntry>, order: seq<UtxoKey>,
      amount: nat)
    requires forall i | 0 <= i < |order| :: order[i] in utxos
  {
    && keys != [] && amount > 0
    && c.decompress(keys[0].spendKey).Some? && c.decompress(keys[0].viewKey).Some?
    && AllStealthPointsValid(c, utxos)
    && var owned := Scanned(c, keys, utxos, order, |order|); OwnedSum(owned, |owned|) % U64_LIMIT >= amount
  }

  /** One ring for each selected output, all with the output itself at the same index. */
  method BuildRings(c: Crypto, utxos: map<UtxoKey, UtxoEntry>, candidates: seq<UtxoKey>, selected: seq<OwnedUtxo>,
      realIndex: nat, rnd: Randomness) returns (r: Result<seq<RingInput>>)
    requires realIndex < RING_SIZE
    requires forall i, j | 0 <= i < j < |candidates| :: candidates[i] != candidates[j]
    requires forall k | k in candidates :: k in utxos && utxos[k].stealthDest.Some?
    ensures r.Ok? ==>
              |r.value| == |selected| && forall i | 0 <= i < |selected| ::
                && r.value[i].utxo == selected[i] && RingInputOk(c, utxos, r.value[i], realIndex)
                && (|candidates| >= RING_SIZE ==> |r.value[i].layer| == RING_SIZE)
    ensures
      (&& |candidates| >= RING_SIZE && AllStealthPointsValid(c, utxos)
       && forall i | 0 <= i < |selected| :: selected[i].key in utxos && utxos[selected[i].key].stealthDest.Some?)
      ==> r.Ok?
  {
    hide RingInputOk;
    var rs: seq<RingInput> := [];
    for i := 0 to |selected|
      invariant |rs| == i
      invariant forall k | 0 <= k < i ::
                  && rs[k].utxo == selected[k] && RingInputOk(c, utxos, rs[k], realIndex)
                  && (|candidates| >= RING_SIZE ==> |rs[k].layer| == RING_SIZE)
    {
      var draws: seq<nat> := seq(|candidates|, (j: nat) => rnd.swap(i, j));
      var ring := BuildRingInput(c, utxos, candidates, selected[i], realIndex, draws);
      if ring.Err? { return Err(ring.error); }
      rs := rs + [ring.value];
    }
    return Ok(rs);
  }

  lemma {:induction false} SumsAgree(rs: seq<RingInput>, owned: seq<OwnedUtxo>, n: nat)
    requires n <= |rs| <= |owned| && forall i | 0 <= i < |rs| :: rs[i].utxo == owned[i]
    ensures DraftSum(rs, n) == OwnedSum(owned, n)
  {
    if n > 0 { SumsAgree(rs, owned, n - 1); }
  }

  predicate AmountsFit(outputs: seq<TxOutput>) {
    forall i | 0 <= i < |outputs| :: outputs[i].amount < Pow2(RANGE_BITS)
  }

  /** Range proofs are made for 32 bits. */
  lemma AmountsFitExactly(outputs: seq<TxOutput>)
    ensures AmountsFit(outputs) <==> forall i | 0 <= i < |outputs| :: outputs[i].amount < 0x1_0000_0000
  {
    SmallPowers();
    Pow2Add(8, 8);
    Pow2Add(16, 16);
  }

  /** The payment, and the change back to the wallet's own address if there is any. */
  method MakeOutputs(c: Crypto, to: StealthAddress, self: StealthAddress, amount: u64, total: u64, rnd: Randomness)
    returns (outputs: seq<TxOutput>)
    requires SuitableGroup(c.grp) && amount <= total
    ensures OutputSum(outputs, 0, 0) == Ok(total)
    ensures |outputs| == (if total > amount then 2 else 1) && outputs[0].amount == amount
    ensures outputs[0].stealthDest == Some(c.compress(DeriveDestination(c.grp, to, rnd.ephemeral(0)).0))
    ensures outputs[0].ephemeral == Some(c.compress(DeriveDestination(c.grp, to, rnd.ephemeral(0)).1))
    ensures |outputs| == 2 ==>
              && outputs[1].amount == total - amount
              && outputs[1].stealthDest == Some(c.compress(DeriveDestination(c.grp, self, rnd.ephemeral(1)).0))
              && outputs[1].ephemeral == Some(c.compress(DeriveDestination(c.grp, self, rnd.ephemeral(1)).1))
    ensures Laws(c) ==> (CheckOutputs(c, outputs, 0) == None <==> AmountsFit(outputs))
  {
    hide SuitableGroup, CheckOutput, Pow2, DeriveDestination;
    var payment := MakeOutput(c, to, amount, rnd, 0);
    outputs := [payment];
    if total > amount {
      var change := MakeOutput(c, self, total - amount, rnd, 1);
      outputs := outputs + [change];
      assert OutputSum(outputs, 1, amount) == OutputSum(outputs, 2, total);
      if Laws(c) {
        hide Laws;
        assert CheckOutputs(c, outputs, 0) == if CheckOutput(c, payment).Some? then CheckOutput(c, payment)
            else CheckOutputs(c, outputs, 1);
        assert CheckOutputs(c, outputs, 1) == if CheckOutput(c, change).Some? then CheckOutput(c, change)
            else CheckOutputs(c, outputs, 2);
        assert AmountsFit(outputs) <==> outputs[0].amount < Pow2(RANGE_BITS) && outputs[1].amount < Pow2(RANGE_BITS);
      }
    } else {
      assert OutputSum(outputs, 0, 0) == OutputSum(outputs, 1, amount);
      if Laws(c) {
        hide Laws;
        assert CheckOutputs(c, outputs, 0) == if CheckOutput(c, payment).Some? then CheckOutput(c, payment)
            else CheckOutputs(c, outputs, 1);
        assert AmountsFit(outputs) <==> outputs[0].amount < Pow2(RANGE_BITS);
      }
    }
  }

  /** Builds the rings and the outputs and signs. Where a ring comes out too short for the shared index, or
      rings of different length meet, the source stops on an index out of range; that outcome is `RingTooSmall`. */
  method SpendSelected(c: Crypto, utxos: map<UtxoKey, UtxoEntry>, candidates: seq<UtxoKey>, selected: seq<OwnedUtxo>,
      to: StealthAddress, self: StealthAddress, amount: u64, total: u64, rnd: Randomness)
    returns (r: Result<Transaction>, ghost d: Draft)
    requires SuitableGroup(c.grp) && amount <= total && selected != []
    requires forall i, j | 0 <= i < j < |candidates| :: candidates[i] != candidates[j]
    requires forall k | k in candidates :: k in utxos && utxos[k].stealthDest.Some?
    ensures r.Ok? ==> Drafted(c, utxos, r.value, d, candidates, selected)
    ensures r.Ok? ==> Pays(c, r.value.outputs, to, self, amount, total, rnd)
    ensures
      (&& |candidates| >= RING_SIZE && AllStealthPointsValid(c, utxos)
       && forall i | 0 <= i < |selected| :: selected[i].key in utxos && utxos[selected[i].key].stealthDest.Some?)
      ==> r.Ok?
  {
    hide SuitableGroup, RingInputOk, DeriveDestination, AmountsFit, TxOf, Laws, Transpose, MlsagOk, CheckOutputs,
        OutputSum, DraftOk;
    var realIndex := rnd.index % RING_SIZE;
    d := Draft([], realIndex, []);
    var rings := BuildRings(c, utxos, candidates, selected, realIndex, rnd);
    if rings.Err? { return Err(rings.error), d; }
    var rs := rings.value;
    LayersReachIndex(c, utxos, rs, realIndex);
    for k := 0 to |rs|
      invariant forall m | 0 <= m < k :: |rs[0].layer| <= |rs[m].layer|
    {
      if |rs[k].layer| < |rs[0].layer| { return Err(RingTooSmall), d; }
    }
    var outputs := MakeOutputs(c, to, self, amount, total, rnd);
    var draft := Draft(rs, realIndex, outputs);
    var tx := SignDraft(c, utxos, draft, rnd);
    TxOfOutputs(c, draft, tx.mlsag);
    return Ok(tx), draft;
  }

  /** The transaction is the signed draft over the selected outputs. */
  ghost predicate Drafted(c: Crypto, utxos: map<UtxoKey, UtxoEntry>, tx: Transaction, d: Draft,
      candidates: seq<UtxoKey>, selected: seq<OwnedUtxo>)
  {
    && |d.rs| == |selected| && d.realIndex < RING_SIZE
    && (forall i | 0 <= i < |selected| ::
          && d.rs[i].utxo == selected[i] && RingInputOk(c, utxos, d.rs[i], d.realIndex)
          && (|candidates| >= RING_SIZE ==> |d.rs[i].layer| == RING_SIZE))
    && tx.mlsag.Some? && tx == TxOf(c, d, tx.mlsag) && tx.outputs == d.outputs
    && (Laws(c) && DraftOk(c, utxos, d) ==> d.rs != [] && MlsagOk(c, tx.mlsag.value, Transpose(Layers(d.rs)),
        MsgOf(tx)))
  }

  /** The outputs pay the amount to the recipient and the rest of the inputs back to the wallet, and their
      range proofs are accepted exactly if both amounts fit. */
  ghost predicate Pays(c: Crypto, outputs: seq<TxOutput>, to: StealthAddress, self: StealthAddress, amount: u64,
      total: u64, rnd: Randomness)
    requires amount <= total
  {
    && OutputSum(outputs, 0, 0) == Ok(total)
    && |outputs| == (if total > amount then 2 else 1) && outputs[0].amount == amount
    && outputs[0].stealthDest == Some(c.compress(DeriveDestination(c.grp, to, rnd.ephemeral(0)).0))
    && outputs[0].ephemeral == Some(c.compress(DeriveDestination(c.grp, to, rnd.ephemeral(0)).1))
    && (|outputs| == 2 ==> outputs[1].amount == total - amount
                           && outputs[1].stealthDest == Some(c.compress(DeriveDestination(c.grp, self,
                               rnd.ephemeral(1)).0))
                           && outputs[1].ephemeral == Some(c.compress(DeriveDestination(c.grp, self,
                               rnd.ephemeral(1)).1)))
    && (Laws(c) ==> (CheckOutputs(c, outputs, 0) == None <==> AmountsFit(outputs)))
  }

  /** The transaction spends the first of these outputs, each under the image of its one-time key at the key that the
      set holds for it, in rings of 11, and reveals no public key. */
  ghost predicate SpendsFirst(c: Crypto, utxos: map<UtxoKey, UtxoEntry>, owned: seq<OwnedUtxo>, tx: Transaction) {
    && tx.version == 1 && tx.ringSize == 11 && tx.signatures == [] && tx.mlsag.Some?
    && tx.ringMembers.Some? && |tx.ringMembers.value| == |tx.inputs| <= |owned|
    && forall i | 0 <= i < |tx.inputs| ::
         && tx.inputs[i].Outpoint() == owned[i].key && tx.inputs[i].revealedPubkey == []
         && RingKey(c, utxos, owned[i].key).Ok?
         && var p := RingKey(c, utxos, owned[i].key).value;
            tx.inputs[i].keyImage == c.compress(Mul(c.grp.q, owned[i].oneTimeKey, c.grp.hashPk(p)))
  }

  lemma DraftSpendsFirst(c: Crypto, utxos: map<UtxoKey, UtxoEntry>, tx: Transaction, d: Draft,
      candidates: seq<UtxoKey>, selected: seq<OwnedUtxo>, owned: seq<OwnedUtxo>)
    requires Drafted(c, utxos, tx, d, candidates, selected) && selected <= owned
    ensures SpendsFirst(c, utxos, owned, tx)
  {
    hide BuildRing, RingKey, Laws, MlsagOk, DraftOk, Transpose;
    forall i | 0 <= i < |tx.inputs|
      ensures tx.inputs[i] == InputOf(c, d.rs[i], d.realIndex) && RingInputOk(c, utxos, d.rs[i], d.realIndex)
      ensures d.rs[i].utxo == owned[i]
    {
      assert d.rs[i].utxo == selected[i];
    }
  }

  method CreatePrivateTx(c: Crypto, keys: seq<WalletKey>, to: StealthAddress, amount: u64,
      utxos: map<UtxoKey, UtxoEntry>, order: seq<UtxoKey>, rnd: Randomness, ghost l: LedgerState, ghost height: nat)
    returns (r: Result<Transaction>)
    requires l.utxos == utxos && Enumerates(utxos, order) && SuitableGroup(c.grp)
    ensures r.Ok? && Prepared(c, keys, l, order, amount, height) ==>
              && (CheckSpend(c, l, r.value, height) == None <==> AmountsFit(r.value.outputs))
              && Validate(l, r.value) == None
              && InputSum(l, r.value.inputs, 0, 0, true) == OutputSum(r.value.outputs, 0, 0)
    ensures Prepared(c, keys, l, order, amount, height) && CanPay(c, keys, utxos, order, amount) ==> r.Ok?
    ensures r.Ok? ==> SpendsFirst(c, utxos, Scanned(c, keys, utxos, order, |order|), r.value)
    ensures r.Ok? ==> exists total: u64, self ::
              && amount <= total && Pays(c, r.value.outputs, to, self, amount, total, rnd)
              && keys != [] && c.decompress(keys[0].spendKey) == Some(self.spendKey)
              && c.decompress(keys[0].viewKey) == Some(self.viewKey)
  {
    hide SuitableGroup, Scanned, Candidates, CheckSpend, Validate, Drafted, Pays, AllStealthPointsValid, Laws,
        NoLegacyOutputs, Unspent, AmountsFit, OwnedSum, SpendsFirst;
    if keys == [] { return Err(NoWalletKeys); }
    if amount == 0 { return Err(ZeroAmount); }
    var (spendKey, viewKey) := (c.decompress(keys[0].spendKey), c.decompress(keys[0].viewKey));
    if spendKey.None? || viewKey.None? { return Err(BadWalletAddress); }
    var self := StealthAddress(spendKey.value, viewKey.value);

    var owned := ScanUtxos(c, keys, utxos, order);
    var selection, total := SelectUtxos(owned, amount);
    if selection.None? { return Err(InsufficientBalance); }
    var selected := selection.value;
    var candidates := StealthCandidates(utxos, order);
    if Prepared(c, keys, l, order, amount, height) { SelectedAreStealth(c, keys, utxos, order, owned, selected); }
    ghost var d;
    r, d := SpendSelected(c, utxos, candidates, selected, to, self, amount, total, rnd);
    if r.Ok? { DraftSpendsFirst(c, utxos, r.value, d, candidates, selected, owned); }
    if r.Ok? && Prepared(c, keys, l, order, amount, height) {
      PreparedIsAccepted(c, keys, l, order, height, owned, selected, candidates, r.value, d, to, self, amount, total,
          rnd);
    }
  }

  /** If no output taken up makes the sum wrap, the wrapped sums of the selection are its sums. */
  lemma {:induction false} SelectedSums(owned: seq<OwnedUtxo>, n: nat, amount: nat)
    requires n <= |owned|
    requires forall k | 0 <= k < |owned| && OwnedSum(owned, k) < amount :: OwnedSum(owned, k + 1) < U64_LIMIT
    requires forall k | 0 <= k < n :: OwnedSum(owned, k) % U64_LIMIT < amount
    ensures forall k | 0 <= k < n :: OwnedSum(owned, k) < amount
    ensures OwnedSum(owned, n) < U64_LIMIT
  {
    if n > 0 { SelectedSums(owned, n - 1, amount); }
  }

  lemma PreparedSums(c: Crypto, keys: seq<WalletKey>, l: LedgerState, order: seq<UtxoKey>, amount: nat, height: nat,
      owned: seq<OwnedUtxo>, n: nat)
    requires (forall i | 0 <= i < |order| :: order[i] in l.utxos) && Prepared(c, keys, l, order, amount, height)
    requires owned == Scanned(c, keys, l.utxos, order, |order|) && n <= |owned|
    requires forall k | 0 <= k < n :: OwnedSum(owned, k) % U64_LIMIT < amount
    ensures Laws(c) && forall k | 0 <= k < n :: OwnedSum(owned, k) < amount
    ensures OwnedSum(owned, n) < U64_LIMIT
  {
    hide Laws, Scanned, OwnedSum, Unspent, Candidates;
    SelectedSums(owned, n, amount);
  }

  lemma PreparedRing(c: Crypto, keys: seq<WalletKey>, l: LedgerState, order: seq<UtxoKey>, amount: nat, height: nat)
    requires (forall i | 0 <= i < |order| :: order[i] in l.utxos) && Prepared(c, keys, l, order, amount, height)
    ensures |Candidates(l.utxos, order, |order|)| >= RING_SIZE
  {
  }

  lemma PreparedIsAccepted(c: Crypto, keys: seq<WalletKey>, l: LedgerState, order: seq<UtxoKey>, height: nat,
      owned: seq<OwnedUtxo>, selected: seq<OwnedUtxo>, candidates: seq<UtxoKey>, tx: Transaction, d: Draft,
      to: StealthAddress, self: StealthAddress, amount: u64, total: u64, rnd: Randomness)
    requires (forall i | 0 <= i < |order| :: order[i] in l.utxos) && Prepared(c, keys, l, order, amount, height)
    requires owned == Scanned(c, keys, l.utxos, order, |order|) && selected <= owned && selected != []
    requires forall k | 0 <= k < |selected| :: OwnedSum(owned, k) % U64_LIMIT < amount
    requires candidates == Candidates(l.utxos, order, |order|)
    requires Drafted(c, l.utxos, tx, d, candidates, selected)
    requires amount <= total == OwnedSum(owned, |selected|) % U64_LIMIT
    requires Pays(c, tx.outputs, to, self, amount, total, rnd)
    ensures CheckSpend(c, l, tx, height) == None <==> AmountsFit(tx.outputs)
    ensures Validate(l, tx) == None
    ensures InputSum(l, tx.inputs, 0, 0, true) == OutputSum(tx.outputs, 0, 0)
  {
    hide Scanned, Candidates, RingInputOk, CheckSpend, Validate, AmountsFit, TxOf, Laws, NoLegacyOutputs, Transpose,
        MlsagOk, CheckOutputs, OutputSum, DraftOk, DraftUnspent, DeriveDestination, Unspent, OwnedSum, Prepared;
    PreparedSums(c, keys, l, order, amount, height, owned, |selected|);
    PreparedRing(c, keys, l, order, amount, height);
    SelectedDraft(c, keys, l, order, owned, selected, d, amount, height);
    SumsAgree(d.rs, owned, |d.rs|);
    OutputsArePrivate(tx.outputs);
    DraftPasses(c, l, d, tx, height);
  }

  lemma OutputsArePrivate(outputs: seq<TxOutput>)
    requires 1 <= |outputs| <= 2 && outputs[0].stealthDest.Some? && (|outputs| == 2 ==> outputs[1].stealthDest.Some?)
    ensures forall i | 0 <= i < |outputs| :: outputs[i].IsPrivate()
  {
  }

  lemma TxOfOutputs(c: Crypto, d: Draft, mlsag: Option<MlsagData>)
    requires forall i | 0 <= i < |d.rs| :: d.realIndex < |d.rs[i].layer|
    ensures TxOf(c, d, mlsag).outputs == d.outputs
  {
  }

  lemma LayersReachIndex(c: Crypto, utxos: map<UtxoKey, UtxoEntry>, rs: seq<RingInput>, realIndex: nat)
    requires forall i | 0 <= i < |rs| :: RingInputOk(c, utxos, rs[i], realIndex)
    ensures forall i | 0 <= i < |rs| :: realIndex < |rs[i].layer|
  {
  }

  lemma SelectedAreStealth(c: Crypto, keys: seq<WalletKey>, utxos: map<UtxoKey, UtxoEntry>, order: seq<UtxoKey>,
      owned: seq<OwnedUtxo>, selected: seq<OwnedUtxo>)
    requires (forall i | 0 <= i < |order| :: order[i] in utxos) && NoLegacyOutputs(c, keys, utxos)
    requires owned == Scanned(c, keys, utxos, order, |order|) && selected <= owned
    ensures forall i | 0 <= i < |selected| :: OwnsStealth(c, utxos, selected[i]) && selected[i] in owned
    ensures forall i | 0 <= i < |selected| :: selected[i].key in utxos && utxos[selected[i].key].stealthDest.Some?
  {
    ScannedAreStealth(c, keys, utxos, order, |order|);
    forall i | 0 <= i < |selected|
      ensures selected[i] in owned
    {
      assert selected[i] == owned[i];
    }
  }

  lemma SelectedDraft(c: Crypto, keys: seq<WalletKey>, l: LedgerState, order: seq<UtxoKey>, owned: seq<OwnedUtxo>,
      selected: seq<OwnedUtxo>, d: Draft, amount: nat, height: nat)
    requires (forall i | 0 <= i < |order| :: order[i] in l.utxos) && Prepared(c, keys, l, order, amount, height)
    requires owned == Scanned(c, keys, l.utxos, order, |order|) && selected <= owned && selected != []
    requires forall k | 0 <= k < |selected| :: OwnedSum(owned, k) < amount
    requires |d.rs| == |selected| && d.realIndex < RING_SIZE
    requires forall i | 0 <= i < |selected| ::
               d.rs[i].utxo == selected[i] && RingInputOk(c, l.utxos, d.rs[i], d.realIndex)
                   && |d.rs[i].layer| == RING_SIZE
    ensures DraftOk(c, l.utxos, d) && DraftUnspent(c, l, d, height)
  {
    hide RingInputOk, OwnsStealth, Unspent, Laws;
    SelectedAreStealth(c, keys, l.utxos, order, owned, selected);
  }
}
