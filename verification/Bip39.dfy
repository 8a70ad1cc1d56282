/** The mnemonic code of BIP-39 (section "Generating the mnemonic"): entropy bytes and a checksum,
    re-cut into 11-bit word indices, and back. SHA-256 is a parameter `h`, of which only the first
    byte of the digest is used. */
module Bip39 {
  import opened Arith
  import opened Types
  import opened Digits

  type Byte = x: nat | x < 256
  type Word = string
  type FirstByte = seq<Byte> -> Byte

  const LIST_SIZE: nat := 2048

  predicate LegalLength(n: nat) { 16 <= n <= 32 && n % 4 == 0 }

  predicate LegalCount(n: nat) { 12 <= n <= 24 && n % 3 == 0 }

  predicate Distinct(list: seq<Word>) {
    forall i, j | 0 <= i < j < |list| :: list[i] != list[j]
  }

  function Checksum(h: FirstByte, entropy: seq<Byte>, bits: nat): (c: nat)
    requires bits <= 8
    ensures c < Pow2(bits)
  {
    Pow2Add(8 - bits, bits);
    SmallPowers();
    SplitSum(0, Pow2(bits), Pow2(8 - bits), h(entropy));
    ShiftRight(h(entropy), 8 - bits)
  }

  /** The checksum is the top bits of the first byte of the digest. */
  lemma ChecksumIsTop(h: FirstByte, entropy: seq<Byte>, bits: nat)
    requires bits <= 8
    ensures
      var (c, unit) := (Checksum(h, entropy, bits), Pow2(8 - bits));
      c * unit <= h(entropy) < c * unit + unit
  {
    DivMod(h(entropy), Pow2(8 - bits), h(entropy) / Pow2(8 - bits), h(entropy) % Pow2(8 - bits));
  }

  /** One checksum bit for every four bytes; entropy and checksum together are the word indices. */
  predicate Encodes(h: FirstByte, entropy: seq<Byte>, indices: seq<nat>) {
    && LegalLength(|entropy|) && |indices| == 3 * (|entropy| / 4) && Fits(indices, 11)
    && Value(indices, 11) == ShiftLeft(Value(entropy, 8), |entropy| / 4, Checksum(h, entropy, |entropy| / 4))
  }

  predicate Spells(list: seq<Word>, indices: seq<nat>, words: seq<Word>) {
    |words| == |indices| && forall k | 0 <= k < |words| :: indices[k] < |list| && words[k] == list[indices[k]]
  }

  ghost predicate IsPhraseOf(list: seq<Word>, h: FirstByte, entropy: seq<Byte>, words: seq<Word>) {
    exists indices :: Spells(list, indices, words) && Encodes(h, entropy, indices)
  }

  // ----- Phrases and entropies determine each other

  lemma BytesFit(bytes: seq<Byte>)
    ensures Fits(bytes, 8)
  {
    SmallPowers();
  }

  lemma SpellingIsUnique(list: seq<Word>, a: seq<nat>, b: seq<nat>, words: seq<Word>)
    requires Distinct(list) && Spells(list, a, words) && Spells(list, b, words)
    ensures a == b
  {
  }

  /** The bits in front of the checksum are the entropy, and the checksum is what is left. */
  lemma EntropyIsRead(h: FirstByte, entropy: seq<Byte>, indices: seq<nat>, bytes: seq<Byte>, rest: nat)
    requires Encodes(h, entropy, indices) && |bytes| == |entropy|
    requires Carries(Value(indices, 11), bytes, 8, rest, |entropy| / 4)
    ensures bytes == entropy && rest == Checksum(h, entropy, |entropy| / 4)
  {
    hide Value, Pow2;
    var n := |entropy| / 4;
    DivMod(Value(indices, 11), Pow2(n), Value(bytes, 8), rest);
    DivMod(Value(indices, 11), Pow2(n), Value(entropy, 8), Checksum(h, entropy, n));
    BytesFit(bytes);
    BytesFit(entropy);
    DigitsAreUnique(bytes, entropy, 8);
  }

  /** One phrase stands for at most one entropy. */
  lemma EntropyIsUnique(list: seq<Word>, h: FirstByte, a: seq<Byte>, b: seq<Byte>, words: seq<Word>)
    requires Distinct(list) && IsPhraseOf(list, h, a, words) && IsPhraseOf(list, h, b, words)
    ensures a == b
  {
    hide Value, Pow2;
    var i :| Spells(list, i, words) && Encodes(h, a, i);
    var j :| Spells(list, j, words) && Encodes(h, b, j);
    SpellingIsUnique(list, i, j, words);
    EntropyIsRead(h, a, i, b, Checksum(h, b, |b| / 4));
  }

  /** One entropy has at most one phrase, in every word list with the same first 2048 words. */
  lemma PhraseIsUnique(list: seq<Word>, list': seq<Word>, h: FirstByte, entropy: seq<Byte>, words: seq<Word>,
      words': seq<Word>)
    requires |list| >= LIST_SIZE && |list'| >= LIST_SIZE && list[..LIST_SIZE] == list'[..LIST_SIZE]
    requires IsPhraseOf(list, h, entropy, words) && IsPhraseOf(list', h, entropy, words')
    ensures words == words'
  {
    hide Value, Pow2;
    var i :| Spells(list, i, words) && Encodes(h, entropy, i);
    var j :| Spells(list', j, words') && Encodes(h, entropy, j);
    DigitsAreUnique(i, j, 11);
    SmallPowers();
    forall k | 0 <= k < |i|
      ensures words[k] == words'[k]
    {
      assert list[..LIST_SIZE][i[k]] == list'[..LIST_SIZE][i[k]];
    }
  }

  // ----- Encoding

  /** Moves every complete 11-bit group from the buffer to the phrase. */
  method ExtractWords(list: seq<Word>, bits: nat, count: nat, words: seq<Word>, ghost v: nat, ghost indices: seq<nat>)
    returns (ok: bool, bits': nat, count': nat, words': seq<Word>, ghost indices': seq<nat>)
    requires Carries(v, indices, 11, bits, count) && Fits(indices, 11) && Spells(list, indices, words)
    ensures |list| >= LIST_SIZE ==> ok
    ensures ok ==>
              && Carries(v, indices', 11, bits', count') && Fits(indices', 11) && Spells(list, indices', words')
              && count' < 11 && 11 * |indices'| + count' == 11 * |indices| + count
  {
    hide Value, Pow2, ShiftRight, Low, Carries;
    bits', count', words', indices' := bits, count, words, indices;
    while count' >= 11
      invariant Carries(v, indices', 11, bits', count') && Fits(indices', 11) && Spells(list, indices', words')
      invariant 11 * |indices'| + count' == 11 * |indices| + count
    {
      TakeOut(v, indices', 11, bits', count');
      count' := count' - 11;
      var idx := ShiftRight(bits', count');
      SmallPowers();
      if idx < |list| {
        words' := words' + [list[idx]];
      } else {
        return false, bits', count', words', indices';
      }
      indices' := indices' + [idx];
      bits' := Low(bits', count');
    }
    ok := true;
  }

  /** Packs all bytes into words; fewer than eleven bits stay in the buffer. */
  method PackBytes(list: seq<Word>, entropy: seq<Byte>)
    returns (ok: bool, bits: nat, count: nat, words: seq<Word>, ghost indices: seq<nat>)
    ensures |list| >= LIST_SIZE ==> ok
    ensures ok ==>
              && Carries(Value(entropy, 8), indices, 11, bits, count) && Fits(indices, 11)
                  && Spells(list, indices, words)
              && count < 11 && 11 * |indices| + count == 8 * |entropy|
  {
    hide Value, Pow2, ShiftLeft, Carries, Fits, Spells;
    ok, bits, count, words, indices := true, 0, 0, [], [];
    NothingCarried(list);
    assert entropy[..0] == [];
    for i := 0 to |entropy|
      invariant Carries(Value(entropy[..i], 8), indices, 11, bits, count)
      invariant Fits(indices, 11) && Spells(list, indices, words)
      invariant count < 11 && 11 * |indices| + count == 8 * i
    {
      ByteIn(entropy, i, indices, bits, count);
      bits, count := ShiftLeft(bits, 8, entropy[i]), count + 8;
      ok, bits, count, words, indices := ExtractWords(list, bits, count, words, Value(entropy[..i + 1], 8), indices);
      if !ok { return; }
    }
    ok := true;
    assert entropy[..|entropy|] == entropy;
  }

  /** The streaming encoder: bytes go into the buffer, words come out of it, the checksum goes in last. */
  method EntropyToMnemonic(list: seq<Word>, h: FirstByte, entropy: seq<Byte>) returns (r: Result<seq<Word>>)
    ensures r.Ok? ==> IsPhraseOf(list, h, entropy, r.value)
    ensures r == Err(BadEntropyLength) <==> !LegalLength(|entropy|)
    ensures r.Err? ==> r.error in {BadEntropyLength, BadWordIndex}
    ensures r == Err(BadWordIndex) ==> |list| < LIST_SIZE
  {
    hide Value, Pow2, ShiftLeft, ShiftRight, Low, Carries, Fits, Spells, Checksum, Encodes, IsPhraseOf;
    if |entropy| < 16 || |entropy| > 32 || |entropy| % 4 != 0 { return Err(BadEntropyLength); }
    var checksumBits := |entropy| * 8 / 32;
    var checksum := Checksum(h, entropy, checksumBits);
    var ok, bits, count, words, indices := PackBytes(list, entropy);
    if !ok { return Err(BadWordIndex); }
    ghost var v := Value(entropy, 8);
    ShiftIn(v, indices, 11, bits, count, checksum, checksumBits);
    bits := ShiftLeft(bits, checksumBits, checksum);
    count := count + checksumBits;
    v := ShiftLeft(v, checksumBits, checksum);
    ok, bits, count, words, indices := ExtractWords(list, bits, count, words, v, indices);
    if !ok { return Err(BadWordIndex); }
    // 33 bits for every four bytes: the buffer is empty, and the number of words is as expected.
    assert count == 0 && |indices| == (|entropy| * 8 + checksumBits) / 11;
    PhraseIsComplete(list, h, entropy, indices, words, bits);
    return Ok(words);
  }

  lemma NothingCarried(list: seq<Word>)
    ensures Carries(Value([], 8), [], 11, 0, 0) && Carries(Value([], 11), [], 8, 0, 0)
    ensures Fits([], 11) && Spells(list, [], [])
  {
    assert Pow2(0) == 1 && Value([], 8) == 0 && Value([], 11) == 0;
  }

  lemma ByteIn(entropy: seq<Byte>, i: nat, indices: seq<nat>, bits: nat, count: nat)
    requires i < |entropy| && Carries(Value(entropy[..i], 8), indices, 11, bits, count)
    ensures Carries(Value(entropy[..i + 1], 8), indices, 11, ShiftLeft(bits, 8, entropy[i]), count + 8)
  {
    hide Value, Pow2, Carries;
    SmallPowers();
    ShiftIn(Value(entropy[..i], 8), indices, 11, bits, count, entropy[i], 8);
    ValueOfAppend(entropy[..i], entropy[i], 8);
    assert entropy[..i + 1] == entropy[..i] + [entropy[i]];
  }

  lemma PhraseIsComplete(list: seq<Word>, h: FirstByte, entropy: seq<Byte>, indices: seq<nat>, words: seq<Word>,
      bits: nat)
    requires LegalLength(|entropy|) && |indices| == 3 * (|entropy| / 4) && Fits(indices, 11)
        && Spells(list, indices, words)
    requires
      var n := |entropy| / 4;
      Carries(ShiftLeft(Value(entropy, 8), n, Checksum(h, entropy, n)), indices, 11, bits, 0)
    ensures IsPhraseOf(list, h, entropy, words)
  {
    assert Encodes(h, entropy, indices);
  }

  // ----- Decoding

  method FindWord(list: seq<Word>, word: Word) returns (idx: nat)
    ensures idx <= |list|
    ensures idx < |list| ==> list[idx] == word
    ensures idx == |list| ==> word !in list
  {
    idx := 0;
    while idx < |list| && list[idx] != word
      invariant idx <= |list| && word !in list[..idx]
    {
      idx := idx + 1;
    }
  }

  /** Moves complete bytes from the buffer to the entropy, up to `target` of them. */
  method ExtractBytes(bits: nat, count: nat, bytes: seq<Byte>, target: nat, ghost v: nat)
    returns (bits': nat, count': nat, bytes': seq<Byte>)
    requires Carries(v, bytes, 8, bits, count) && |bytes| <= target
    ensures Carries(v, bytes', 8, bits', count') && |bytes'| <= target
    ensures count' < 8 || |bytes'| == target
    ensures 8 * |bytes'| + count' == 8 * |bytes| + count
  {
    hide Value, Pow2, ShiftRight, Low, Carries;
    bits', count', bytes' := bits, count, bytes;
    while count' >= 8 && |bytes'| < target
      invariant Carries(v, bytes', 8, bits', count') && |bytes'| <= target
      invariant 8 * |bytes'| + count' == 8 * |bytes| + count
    {
      TakeOut(v, bytes', 8, bits', count');
      SmallPowers();
      count' := count' - 8;
      var byte: Byte := ShiftRight(bits', count');
      bytes', bits' := bytes' + [byte], Low(bits', count');
    }
  }

  /** Reads the words into the buffer and takes `target` bytes out of it. */
  method ReadWords(list: seq<Word>, words: seq<Word>, target: nat)
    returns (known: bool, bits: nat, count: nat, bytes: seq<Byte>, ghost indices: seq<nat>)
    requires |list| == LIST_SIZE
    ensures known <==> forall k | 0 <= k < |words| :: words[k] in list
    ensures known ==>
              && Carries(Value(indices, 11), bytes, 8, bits, count) && Fits(indices, 11) && Spells(list, indices, words)
              && |indices| == |words| && |bytes| <= target
              && (count < 8 || |bytes| == target) && 8 * |bytes| + count == 11 * |words|
  {
    hide Value, Pow2, ShiftLeft, Carries, Fits, Spells;
    known, bits, count, bytes, indices := true, 0, 0, [], [];
    NothingCarried(list);
    assert words[..0] == [];
    for k := 0 to |words|
      invariant Carries(Value(indices, 11), bytes, 8, bits, count)
      invariant Fits(indices, 11) && Spells(list, indices, words[..k])
      invariant |indices| == k && forall i | 0 <= i < k :: words[i] in list
      invariant |bytes| <= target && (count < 8 || |bytes| == target) && 8 * |bytes| + count == 11 * k
    {
      var idx := FindWord(list, words[k]);
      if idx == |list| {
        known := false;
        return;
      }
      WordIn(list, words, k, indices, idx, bytes, bits, count);
      indices := indices + [idx];
      bits, count, bytes := ExtractBytes(ShiftLeft(bits, 11, idx), count + 11, bytes, target, Value(indices, 11));
    }
    assert words[..|words|] == words;
  }

  /** The streaming decoder accepts exactly the phrases that encode some entropy, and returns it. */
  method MnemonicToEntropy(list: seq<Word>, h: FirstByte, words: seq<Word>) returns (r: Result<seq<Byte>>)
    requires |list| == LIST_SIZE && Distinct(list)
    ensures r == Err(BadWordCount) <==> !LegalCount(|words|)
    ensures r == Err(UnknownWord) <==> LegalCount(|words|) && exists k | 0 <= k < |words| :: words[k] !in list
    ensures r.Ok? ==> IsPhraseOf(list, h, r.value, words)
    ensures r.Err? ==> r.error in {BadWordCount, UnknownWord, BadChecksum}
    ensures r == Err(BadChecksum) ==> forall e :: !IsPhraseOf(list, h, e, words)
  {
    hide Value, Pow2, ShiftLeft, ShiftRight, Low, Carries, Fits, Spells, Distinct, Checksum, Encodes, IsPhraseOf;
    if |words| < 12 || |words| > 24 || |words| % 3 != 0 { return Err(BadWordCount); }
    var totalBits := |words| * 11;
    var entropyBits := totalBits - totalBits / 33;
    var checksumBits := totalBits - entropyBits;
    var target := entropyBits / 8;
    var known, bits, count, bytes, indices := ReadWords(list, words, target);
    if !known { return Err(UnknownWord); }
    // All of the entropy has been read, and exactly the checksum is left in the buffer.
    assert |bytes| == target && count == checksumBits == |bytes| / 4;
    WholeBuffer(Value(indices, 11), bytes, bits, checksumBits);
    var stored := Low(ShiftRight(bits, count - checksumBits), checksumBits);
    var expected := Checksum(h, bytes, checksumBits);
    if stored != expected {
      CandidateFails(list, h, words, indices, bytes, stored);
      return Err(BadChecksum);
    }
    CandidateHolds(list, h, words, indices, bytes, stored);
    return Ok(bytes);
  }

  lemma WordIn(list: seq<Word>, words: seq<Word>, k: nat, indices: seq<nat>, idx: nat, bytes: seq<Byte>, bits: nat,
      count: nat)
    requires k < |words| && |list| == LIST_SIZE && idx < |list| && list[idx] == words[k]
    requires Carries(Value(indices, 11), bytes, 8, bits, count) && Fits(indices, 11)
        && Spells(list, indices, words[..k])
    ensures Carries(Value(indices + [idx], 11), bytes, 8, ShiftLeft(bits, 11, idx), count + 11)
    ensures Fits(indices + [idx], 11) && Spells(list, indices + [idx], words[..k + 1])
  {
    hide Value, Pow2, Carries;
    SmallPowers();
    ShiftIn(Value(indices, 11), bytes, 8, bits, count, idx, 11);
    ValueOfAppend(indices, idx, 11);
  }

  lemma WholeBuffer(v: nat, bytes: seq<Byte>, bits: nat, count: nat)
    requires Carries(v, bytes, 8, bits, count)
    ensures Low(ShiftRight(bits, count - count), count) == bits
  {
    assert Pow2(count - count) == 1;
    DivMod(bits, Pow2(count), 0, bits);
  }

  lemma CandidateHolds(list: seq<Word>, h: FirstByte, words: seq<Word>, indices: seq<nat>, bytes: seq<Byte>, rest: nat)
    requires Spells(list, indices, words) && |words| == 3 * (|bytes| / 4) && LegalLength(|bytes|) && Fits(indices, 11)
    requires Carries(Value(indices, 11), bytes, 8, rest, |bytes| / 4)
    requires rest == Checksum(h, bytes, |bytes| / 4)
    ensures IsPhraseOf(list, h, bytes, words)
  {
    assert Encodes(h, bytes, indices);
  }

  lemma CandidateFails(list: seq<Word>, h: FirstByte, words: seq<Word>, indices: seq<nat>, bytes: seq<Byte>, rest: nat)
    requires Distinct(list) && Spells(list, indices, words) && |words| == 3 * (|bytes| / 4) && LegalLength(|bytes|)
    requires Carries(Value(indices, 11), bytes, 8, rest, |bytes| / 4)
    requires rest != Checksum(h, bytes, |bytes| / 4)
    ensures forall e :: !IsPhraseOf(list, h, e, words)
  {
    hide Value, Pow2, Checksum, Distinct, Carries;
    forall e | IsPhraseOf(list, h, e, words)
      ensures false
    {
      var i :| Spells(list, i, words) && Encodes(h, e, i);
      SpellingIsUnique(list, i, indices, words);
      EntropyIsRead(h, e, i, bytes, rest);
    }
  }

  // ----- Round trips

  /** What comes out of the encoder goes back to the same entropy, for every legal length. */
  method EntropyRoundTrip(list: seq<Word>, h: FirstByte, entropy: seq<Byte>) returns (r: Result<seq<Byte>>)
    requires |list| == LIST_SIZE && Distinct(list) && LegalLength(|entropy|)
    ensures r == Ok(entropy)
  {
    hide Distinct, IsPhraseOf;
    var w := EntropyToMnemonic(list, h, entropy);
    r := MnemonicToEntropy(list, h, w.value);
    PhraseIsLegal(list, h, entropy, w.value);
    EntropyIsUnique(list, h, entropy, r.value, w.value);
  }

  /** Every phrase that the decoder accepts is what the encoder makes of the decoded entropy. */
  method PhraseRoundTrip(list: seq<Word>, h: FirstByte, words: seq<Word>) returns (accepted: bool, r: Result<seq<Word>>)
    requires |list| == LIST_SIZE && Distinct(list)
    ensures accepted <==> exists e :: IsPhraseOf(list, h, e, words)
    ensures accepted ==> r == Ok(words)
  {
    hide Distinct, IsPhraseOf;
    var e := MnemonicToEntropy(list, h, words);
    if e.Err? {
      forall x | IsPhraseOf(list, h, x, words)
        ensures false
      {
        PhraseIsLegal(list, h, x, words);
      }
      return false, Err(e.error);
    }
    PhraseIsLegal(list, h, e.value, words);
    r := EntropyToMnemonic(list, h, e.value);
    PhraseIsUnique(list, list, h, e.value, words, r.value);
    accepted := true;
  }

  lemma PhraseIsLegal(list: seq<Word>, h: FirstByte, entropy: seq<Byte>, words: seq<Word>)
    requires IsPhraseOf(list, h, entropy, words)
    ensures LegalLength(|entropy|) && LegalCount(|words|) && forall k | 0 <= k < |words| :: words[k] in list
  {
    var i :| Spells(list, i, words) && Encodes(h, entropy, i);
  }
}
