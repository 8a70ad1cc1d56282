/** The wallet's own seed phrases: a sliding-window encoder and a decoder that never masks its
    buffer, over a word list of 2049 words, one more than an 11-bit index can name. */
module SeedPhrase {
  import opened Arith
  import opened Types
  import opened Digits
  import opened Bip39

  const WALLET_LIST_SIZE: nat := 2049
  const EXTRA: nat := 2048

  // ----- Encoding

  /** The first `n` bits of the byte string. */
  function FirstBits(bytes: seq<Byte>, n: nat): nat
    requires n <= 8 * |bytes|
  {
    ShiftRight(Value(bytes, 8), 8 * |bytes| - n)
  }

  function Window(b0: Byte, b1: Byte, b2: Byte): nat { b0 * 65536 + b1 * 256 + b2 }

  lemma WindowValue(bytes: seq<Byte>, s: nat)
    requires s + 3 <= |bytes|
    ensures Value(bytes[..s + 3], 8) == ShiftLeft(Value(bytes[..s], 8), 24,
        Window(bytes[s], bytes[s + 1], bytes[s + 2]))
  {
    hide Value, Pow2;
    assert bytes[..s + 1] == bytes[..s] + [bytes[s]];
    assert bytes[..s + 2] == bytes[..s + 1] + [bytes[s + 1]];
    assert bytes[..s + 3] == bytes[..s + 2] + [bytes[s + 2]];
    ValueOfAppend(bytes[..s], bytes[s], 8);
    ValueOfAppend(bytes[..s + 1], bytes[s + 1], 8);
    ValueOfAppend(bytes[..s + 2], bytes[s + 2], 8);
    SmallPowers();
    Pow2Add(8, 8);
    Pow2Add(16, 8);
  }

  /** The eleven bits read from the window are the next ones of the stream. */
  lemma WindowReadsNext(bytes: seq<Byte>, i: nat)
    requires 11 * i / 8 + 3 <= |bytes|
    ensures 11 * (i + 1) <= 8 * |bytes|
    ensures
      var s := 11 * i / 8;
      var index := Low(ShiftRight(Window(bytes[s], bytes[s + 1], bytes[s + 2]), 13 - 11 * i % 8), 11);
      FirstBits(bytes, 11 * (i + 1)) == ShiftLeft(FirstBits(bytes, 11 * i), 11, index)
  {
    hide Value, Pow2, ShiftLeft, ShiftRight, Low;
    var s, a := 11 * i / 8, 13 - 11 * i % 8;
    var v := Value(bytes[..s + 3], 8);
    BytesFit(bytes);
    LeadingBitsShift(bytes, s + 3, 11 * i);
    LeadingBitsShift(bytes, s + 3, 11 * i + 11);
    assert 8 * (s + 3) - 11 * i == a + 11 && 8 * (s + 3) - (11 * i + 11) == a;
    Resplit(v, a, 11);
    WindowValue(bytes, s);
    WindowIgnores(Value(bytes[..s], 8), 24, Window(bytes[s], bytes[s + 1], bytes[s + 2]), a, 11);
  }

  lemma LeadingBitsShift(bytes: seq<Byte>, j: nat, n: nat)
    requires Fits(bytes, 8) && j <= |bytes| && n <= 8 * j
    ensures FirstBits(bytes, n) == ShiftRight(Value(bytes[..j], 8), 8 * j - n)
  {
    hide Value, Pow2;
    LeadingBits(bytes, j, n);
  }

  /** The 24 windows together are the entropy followed by the first byte of its digest. */
  lemma AllWindows(h: FirstByte, entropy: seq<Byte>, bits: seq<Byte>, padded: seq<Byte>, indices: seq<nat>)
    requires |entropy| == 32 && bits == entropy + [h(entropy)] && padded == bits + [0]
    requires |indices| == 24 && Fits(indices, 11) && Value(indices, 11) == FirstBits(padded, 264)
    ensures Encodes(h, entropy, indices)
  {
    hide Value, Pow2;
    BytesFit(padded);
    LeadingBitsShift(padded, 33, 264);
    assert padded[..33] == bits;
    ValueOfAppend(entropy, h(entropy), 8);
    NoShift(Value(bits, 8));
    NoShift(h(entropy));
  }

  lemma NoShift(x: nat)
    ensures ShiftRight(x, 0) == x
  {
    assert Pow2(0) == 1;
  }

  lemma NoBits(bytes: seq<Byte>)
    ensures Value([], 11) == FirstBits(bytes, 0)
  {
    BytesFit(bytes);
    LeadingBitsShift(bytes, 0, 0);
    assert bytes[..0] == [];
    NoShift(Value([], 8));
  }

  /** The sliding-window encoder writes the phrase that BIP-39 prescribes. */
  method EntropyToMnemonic(list: seq<Word>, h: FirstByte, entropy: seq<Byte>) returns (words: seq<Word>)
    requires |entropy| == 32 && |list| == WALLET_LIST_SIZE
    ensures IsPhraseOf(list, h, entropy, words)
  {
    hide Value, Pow2, ShiftLeft, ShiftRight, Low, FirstBits, Fits, Encodes, Window;
    var bits := entropy + [h(entropy)];
    ghost var padded := bits + [0];
    ghost var indices: seq<nat> := [];
    words := [];
    NoBits(padded);
    NothingCarried(list);
    for i := 0 to 24
      invariant |indices| == i && Fits(indices, 11) && Spells(list, indices, words)
      invariant Value(indices, 11) == FirstBits(padded, 11 * i)
    {
      var offset := i * 11;
      var start, within := offset / 8, offset % 8;
      // The three bytes are disjoint in the window, so that adding them is the same as `|`.
      var b1: Byte := if start + 1 < 33 then bits[start + 1] else 0;
      var b2: Byte := if start + 2 < 33 then bits[start + 2] else 0;
      var index := Low(ShiftRight(Window(bits[start], b1, b2), 13 - within), 11);
      WindowReadsNext(padded, i);
      IndexIn(list, indices, words, index, Window(bits[start], b1, b2), 13 - within);
      words, indices := words + [list[index]], indices + [index];
    }
    AllWindows(h, entropy, bits, padded, indices);
  }

  lemma IndexIn(list: seq<Word>, indices: seq<nat>, words: seq<Word>, index: nat, window: nat, a: nat)
    requires |list| == WALLET_LIST_SIZE && index == Low(ShiftRight(window, a), 11)
    requires Fits(indices, 11) && Spells(list, indices, words)
    ensures index < |list| && Fits(indices + [index], 11) && Spells(list, indices + [index], words + [list[index]])
    ensures Value(indices + [index], 11) == ShiftLeft(Value(indices, 11), 11, index)
  {
    hide Value, ShiftRight;
    SmallPowers();
    ValueOfAppend(indices, index, 11);
  }

  // ----- Decoding

  /** What the decoder makes of the index at `k`. The extra word does not fit into eleven bits: it
      counts as index 0, and its twelfth bit falls on the word before it, unless that word has
      already been written out as bytes, which happens after every eighth word. */
  function Effective(indices: seq<nat>, k: nat): nat
    requires k < |indices|
  {
    var own := if indices[k] == EXTRA then 0 else indices[k];
    if k + 1 < |indices| && (k + 1) % 8 != 0 && indices[k + 1] == EXTRA then SetLowBit(own) else own
  }

  function SetLowBit(x: nat): nat { if x % 2 == 0 then x + 1 else x }

  function Normal(indices: seq<nat>): (digits: seq<nat>)
    ensures |digits| == |indices|
  {
    seq(|indices|, k requires 0 <= k < |indices| => Effective(indices, k))
  }

  ghost predicate ReadsAs(list: seq<Word>, h: FirstByte, words: seq<Word>, entropy: seq<Byte>) {
    exists indices :: Spells(list, indices, words) && Encodes(h, entropy, Normal(indices))
  }

  /** `(x << 11) | index` in 64 bits, for an index of at most twelve bits whose low bits are free. */
  function OrInto(x: u64, index: nat): (r: u64)
    requires index <= EXTRA
  {
    var shifted := x * 2048 % U64_LIMIT;
    if index < EXTRA then shifted + index
    else if shifted / 2048 % 2 == 0 then shifted + EXTRA else shifted
  }

  const KEPT: nat := 0x20_0000_0000_0000

  /** The shift keeps 53 bits; the twelfth bit of the extra word falls on the lowest of them. */
  lemma OrIntoValue(x: u64, index: nat)
    requires index <= EXTRA
    ensures OrInto(x, index) == if index < EXTRA then x % KEPT * 2048 + index else SetLowBit(x % KEPT) * 2048
  {
    DivMod(x * 2048, U64_LIMIT, x / KEPT, x % KEPT * 2048);
  }

  lemma Pow2Of53()
    ensures Pow2(53) == KEPT
  {
    SmallPowers();
    assert Pow2(5) == 32;
    hide Pow2;
    Pow2Add(8, 8);
    assert Pow2(16) == 65536;
    Pow2Add(16, 16);
    assert Pow2(32) == 65536 * 65536;
    Pow2Add(16, 5);
    Pow2Add(32, 21);
  }

  lemma SetLowBitMod(t: nat, n: nat)
    requires n > 0 && n % 2 == 0
    ensures SetLowBit(t) % n == SetLowBit(t % n)
  {
    hide SetLowBit, Quotient;
    QuotientRemainder(t, n);
    SetLowBitOver(Quotient(t, n), n, t % n);
  }

  lemma SetLowBitOver(q: nat, n: nat, r: nat)
    requires n % 2 == 0 && r < n
    ensures SetLowBit(q * n + r) % n == SetLowBit(r)
  {
    hide SetLowBit;
    EvenMultiple(q, n);
    SetLowBitSum(q * n, n, r);
    DivMod(q * n + SetLowBit(r), n, q, SetLowBit(r));
  }

  lemma SetLowBitSum(x: nat, n: nat, r: nat)
    requires x % 2 == 0 && n % 2 == 0 && r < n
    ensures SetLowBit(x + r) == x + SetLowBit(r) && SetLowBit(r) < n
  {
  }

  lemma EvenMultiple(q: nat, n: nat)
    requires n % 2 == 0
    ensures q * n % 2 == 0
  {
    var p := n / 2;
    assert n == 2 * p;
    assert q * (2 * p) == 2 * (q * p);
  }

  lemma ScaledMod(t: nat, p: nat, d: nat)
    requires p > 0 && d < 2048
    ensures (t * 2048 + d) % (p * 2048) == t % p * 2048 + d
  {
    ShiftSum(t / p, p, t % p, 2048, d);
    DivMod(t * 2048 + d, p * 2048, t / p, t % p * 2048 + d);
  }

  /** What shifting in a word does to the bits of the buffer that are still to be read. */
  lemma BufferIn(buffer: u64, count: nat, index: nat)
    requires count < 8 && index <= EXTRA
    ensures
      var low := Low(buffer, count);
      Low(OrInto(buffer, index), count + 11) ==
      if index < EXTRA then ShiftLeft(low, 11, index)
      else ShiftLeft(if count == 0 then low else SetLowBit(low), 11, 0)
  {
    hide OrInto, SetLowBit, Pow2;
    var t, p := buffer % KEPT, Pow2(count);
    SmallPowers();
    Pow2Add(count, 11);
    Pow2Of53();
    LowIgnores(buffer / KEPT, 53, t, count);
    assert buffer == ShiftLeft(buffer / KEPT, 53, t);
    assert t % p == Low(buffer, count);
    OrIntoValue(buffer, index);
    if index < EXTRA {
      ScaledMod(t, p, index);
    } else {
      ScaledMod(SetLowBit(t), p, 0);
      LowBitIn(t, count);
    }
  }

  lemma LowBitIn(t: nat, count: nat)
    ensures SetLowBit(t) % Pow2(count) == if count == 0 then t % Pow2(count) else SetLowBit(t % Pow2(count))
  {
    if count > 0 { SetLowBitMod(t, Pow2(count)); }
  }

  /** The digits read so far, after the word that follows them has been shifted in. */
  function Bumped(digits: seq<nat>, index: nat): seq<nat> {
    if index == EXTRA && |digits| % 8 != 0 then digits[..|digits| - 1] + [SetLowBit(digits[|digits| - 1])] else digits
  }

  lemma NormalOfAppend(indices: seq<nat>, index: nat)
    ensures Normal(indices + [index]) == Bumped(Normal(indices), index) + [if index == EXTRA then 0 else index]
  {
  }

  lemma NormalFits(indices: seq<nat>)
    requires forall k | 0 <= k < |indices| :: indices[k] <= EXTRA
    ensures Fits(Normal(indices), 11)
  {
    SmallPowers();
  }

  /** Setting the lowest bit of the last digit sets the lowest bit of the buffer. */
  lemma BumpCarries(digits: seq<nat>, bytes: seq<nat>, low: nat, count: nat)
    requires digits != [] && count > 0 && Carries(Value(digits, 11), bytes, 8, low, count)
    ensures
      var n := |digits| - 1;
      Carries(Value(digits[..n] + [SetLowBit(digits[n])], 11), bytes, 8, SetLowBit(low), count)
  {
    hide Value, Pow2;
    var n := |digits| - 1;
    assert digits == digits[..n] + [digits[n]];
    ValueOfAppend(digits[..n], digits[n], 11);
    ValueOfAppend(digits[..n], SetLowBit(digits[n]), 11);
    SmallPowers();
    EvenPower(count);
    EvenMultiple(Value(bytes, 8), Pow2(count));
    SameLowBit(Value(digits[..n], 11), digits[n], Value(bytes, 8) * Pow2(count), low, Pow2(count));
  }

  lemma EvenPower(n: nat)
    requires n > 0
    ensures Pow2(n) % 2 == 0
  {
  }

  lemma SameLowBit(x: nat, last: nat, y: nat, low: nat, p: nat)
    requires x * 2048 + last == y + low && y % 2 == 0 && p % 2 == 0 && low < p
    ensures x * 2048 + SetLowBit(last) == y + SetLowBit(low) && SetLowBit(low) < p
  {
    assert last % 2 == low % 2 by {
      assert last - low == 2 * (y / 2 - x * 1024);
    }
    assert p == 2 * (p / 2);
  }

  lemma WordRead(indices: seq<nat>, index: nat, bytes: seq<Byte>, buffer: u64, count: nat)
    requires index <= EXTRA && count < 8 && 8 * |bytes| + count == 11 * |indices|
    requires Carries(Value(Normal(indices), 11), bytes, 8, Low(buffer, count), count)
    ensures Carries(Value(Normal(indices + [index]), 11), bytes, 8, Low(OrInto(buffer, index), count + 11), count + 11)
  {
    hide Value, Pow2, OrInto, Low, Carries, Normal, SetLowBit, ShiftLeft;
    var digits, low := Normal(indices), Low(buffer, count);
    NormalOfAppend(indices, index);
    BufferIn(buffer, count, index);
    SmallPowers();
    if index < EXTRA {
      ShiftIn(Value(digits, 11), bytes, 8, low, count, index, 11);
      ValueOfAppend(digits, index, 11);
    } else if count == 0 {
      assert |digits| % 8 == 0;
      ShiftIn(Value(digits, 11), bytes, 8, low, count, 0, 11);
      ValueOfAppend(digits, 0, 11);
    } else {
      var bumped := Bumped(digits, index);
      BumpCarries(digits, bytes, low, count);
      ShiftIn(Value(bumped, 11), bytes, 8, SetLowBit(low), count, 0, 11);
      ValueOfAppend(bumped, 0, 11);
    }
  }

  /** Writes out every complete byte; the bits already written stay in the buffer. */
  method PopBytes(buffer: u64, count: nat, bytes: seq<Byte>, ghost v: nat) returns (count': nat, bytes': seq<Byte>)
    requires Carries(v, bytes, 8, Low(buffer, count), count)
    ensures Carries(v, bytes', 8, Low(buffer, count'), count') && count' < 8
    ensures 8 * |bytes'| + count' == 8 * |bytes| + count
  {
    hide Value, Pow2, ShiftRight, Low, Carries;
    count', bytes' := count, bytes;
    while count' >= 8
      invariant Carries(v, bytes', 8, Low(buffer, count'), count')
      invariant 8 * |bytes'| + count' == 8 * |bytes| + count
    {
      DirtyBuffer(buffer, count');
      TakeOut(v, bytes', 8, Low(buffer, count'), count');
      SmallPowers();
      count' := count' - 8;
      var byte: Byte := Low(ShiftRight(buffer, count'), 8);
      bytes' := bytes' + [byte];
    }
  }

  /** The decoder accepts exactly the phrases that read as some entropy, and returns it. */
  method MnemonicToEntropy(list: seq<Word>, h: FirstByte, words: seq<Word>) returns (r: Result<seq<Byte>>)
    requires |list| == WALLET_LIST_SIZE && Distinct(list)
    ensures r == Err(BadWordCount) <==> |words| != 24
    ensures r == Err(UnknownWord) <==> |words| == 24 && exists k | 0 <= k < |words| :: words[k] !in list
    ensures r.Ok? ==> ReadsAs(list, h, words, r.value)
    ensures r.Err? ==> r.error in {BadWordCount, UnknownWord, BadChecksum}
    ensures r == Err(BadChecksum) ==> forall e :: !ReadsAs(list, h, words, e)
  {
    hide Value, Pow2, Low, Carries, Normal, OrInto, Spells, Distinct, Encodes, ReadsAs;
    if |words| != 24 { return Err(BadWordCount); }
    var buffer: u64, count: nat, bytes: seq<Byte> := 0, 0, [];
    ghost var indices: seq<nat> := [];
    NothingRead(list);
    assert words[..0] == [];
    for k := 0 to |words|
      invariant Carries(Value(Normal(indices), 11), bytes, 8, Low(buffer, count), count)
      invariant Spells(list, indices, words[..k]) && |indices| == k
      invariant count < 8 && 8 * |bytes| + count == 11 * k
      invariant forall i | 0 <= i < k :: words[i] in list
    {
      var index := FindWord(list, words[k]);
      if index == |list| { return Err(UnknownWord); }
      WordRead(indices, index, bytes, buffer, count);
      SpellsNext(list, indices, words, k, index);
      buffer, indices := OrInto(buffer, index), indices + [index];
      count, bytes := PopBytes(buffer, count + 11, bytes, Value(Normal(indices), 11));
    }
    // 24 words are 33 whole bytes: no bit is left over, and none is missing.
    assert count == 0 && |bytes| == 33;
    assert words[..|words|] == words;
    var entropy := bytes[..32];
    var expected, actual := h(entropy), bytes[32];
    ReadExactly(list, h, words, indices, bytes, Low(buffer, 0));
    if expected != actual { return Err(BadChecksum); }
    return Ok(entropy);
  }

  lemma NothingRead(list: seq<Word>)
    ensures Carries(Value(Normal([]), 11), [], 8, Low(0, 0), 0) && Spells(list, [], [])
  {
    assert Pow2(0) == 1 && Value([], 8) == 0 && Value([], 11) == 0;
    assert Normal([]) == [];
  }

  lemma SpellsNext(list: seq<Word>, indices: seq<nat>, words: seq<Word>, k: nat, index: nat)
    requires k < |words| && index < |list| && list[index] == words[k] && Spells(list, indices, words[..k])
    ensures Spells(list, indices + [index], words[..k + 1])
  {
  }

  lemma ReadExactly(list: seq<Word>, h: FirstByte, words: seq<Word>, indices: seq<nat>, bytes: seq<Byte>, low: nat)
    requires |list| == WALLET_LIST_SIZE && Distinct(list) && Spells(list, indices, words) && |words| == 24
    requires |bytes| == 33 && Carries(Value(Normal(indices), 11), bytes, 8, low, 0)
    ensures forall e :: ReadsAs(list, h, words, e) <==> e == bytes[..32] && h(e) == bytes[32]
  {
    hide Value, Pow2, Checksum, Distinct, Normal, Fits;
    var entropy, digits := bytes[..32], Normal(indices);
    NothingLeft(Value(digits, 11), bytes, 8, low);
    assert bytes == entropy + [bytes[32]];
    ValueOfAppend(entropy, bytes[32], 8);
    NormalFits(indices);
    WholeByte(h);
    SmallPowers();
    if h(entropy) == bytes[32] {
      assert Encodes(h, entropy, digits);
    }
    forall e | ReadsAs(list, h, words, e)
      ensures e == entropy && h(e) == bytes[32]
    {
      var i :| Spells(list, i, words) && Encodes(h, e, Normal(i));
      SpellingIsUnique(list, i, indices, words);
      EntropyIsRead(h, e, digits, entropy, bytes[32]);
    }
  }

  lemma WholeByte(h: FirstByte)
    ensures forall e :: Checksum(h, e, 8) == h(e)
  {
    assert Pow2(0) == 1;
  }

  lemma NothingLeft(v: nat, out: seq<nat>, width: nat, low: nat)
    requires Carries(v, out, width, low, 0)
    ensures v == Value(out, width)
  {
    assert Pow2(0) == 1;
  }

  // ----- Round trips

  lemma NormalOfPlain(indices: seq<nat>)
    requires forall k | 0 <= k < |indices| :: indices[k] < EXTRA
    ensures Normal(indices) == indices
  {
  }

  /** What the wallet writes down, it reads back. */
  method EntropyRoundTrip(list: seq<Word>, h: FirstByte, entropy: seq<Byte>) returns (r: Result<seq<Byte>>)
    requires |entropy| == 32 && |list| == WALLET_LIST_SIZE && Distinct(list)
    ensures r == Ok(entropy)
  {
    hide Distinct, IsPhraseOf, ReadsAs;
    var words := EntropyToMnemonic(list, h, entropy);
    r := MnemonicToEntropy(list, h, words);
    PhraseIsLegal(list, h, entropy, words);
    PhraseLength(list, h, entropy, words);
    PhraseReads(list, h, entropy, words);
    if r.Ok? { ReadingIsUnique(list, h, words, entropy, r.value); }
  }

  lemma PhraseLength(list: seq<Word>, h: FirstByte, entropy: seq<Byte>, words: seq<Word>)
    requires IsPhraseOf(list, h, entropy, words)
    ensures |words| == 3 * (|entropy| / 4)
  {
    var i :| Spells(list, i, words) && Encodes(h, entropy, i);
  }

  lemma PhraseReads(list: seq<Word>, h: FirstByte, entropy: seq<Byte>, words: seq<Word>)
    requires IsPhraseOf(list, h, entropy, words)
    ensures ReadsAs(list, h, words, entropy)
  {
    hide Value, Pow2, Checksum;
    var i :| Spells(list, i, words) && Encodes(h, entropy, i);
    SmallPowers();
    NormalOfPlain(i);
  }

  lemma ReadingIsUnique(list: seq<Word>, h: FirstByte, words: seq<Word>, a: seq<Byte>, b: seq<Byte>)
    requires Distinct(list) && ReadsAs(list, h, words, a) && ReadsAs(list, h, words, b)
    ensures a == b
  {
    hide Value, Pow2, Checksum, Normal;
    var i :| Spells(list, i, words) && Encodes(h, a, Normal(i));
    var j :| Spells(list, j, words) && Encodes(h, b, Normal(j));
    SpellingIsUnique(list, i, j, words);
    EntropyIsRead(h, a, Normal(i), b, Checksum(h, b, |b| / 4));
  }

  /** Encoding what was decoded gives the same phrase back exactly if the phrase does not use the
      extra word of the list. */
  lemma PhraseComesBackExactly(list: seq<Word>, h: FirstByte, words: seq<Word>, entropy: seq<Byte>, words': seq<Word>)
    requires |list| == WALLET_LIST_SIZE && Distinct(list)
    requires ReadsAs(list, h, words, entropy) && IsPhraseOf(list, h, entropy, words')
    ensures words' == words <==> list[EXTRA] !in words
  {
    hide Value, Pow2, Checksum, Distinct, Normal;
    var i :| Spells(list, i, words) && Encodes(h, entropy, Normal(i));
    var j :| Spells(list, j, words') && Encodes(h, entropy, j);
    DigitsAreUnique(Normal(i), j, 11);
    SmallPowers();
    if list[EXTRA] in words {
      var k :| 0 <= k < |words| && words[k] == list[EXTRA];
      if words == words' { SpellingIsUnique(list, i, j, words); SpellingOf(list, i, words, k, EXTRA); }
    } else {
      forall k | 0 <= k < |i|
        ensures i[k] < EXTRA
      {
        assert words[k] in words;
      }
      NormalOfPlain(i);
    }
  }

  lemma SpellingOf(list: seq<Word>, indices: seq<nat>, words: seq<Word>, k: nat, index: nat)
    requires Distinct(list) && Spells(list, indices, words) && k < |words| && index < |list| && words[k] == list[index]
    ensures indices[k] == index
  {
  }

  /** The case happens: with the extra word in front, the phrase of any entropy whose phrase begins
      with the first word of the list is read as that entropy too. */
  lemma ExtraWordIsAccepted(list: seq<Word>, h: FirstByte, entropy: seq<Byte>, words: seq<Word>)
    requires |list| == WALLET_LIST_SIZE && Distinct(list)
    requires IsPhraseOf(list, h, entropy, words) && words[0] == list[0]
    ensures ReadsAs(list, h, words[0 := list[EXTRA]], entropy)
  {
    hide Value, Pow2, Checksum, Normal;
    var i :| Spells(list, i, words) && Encodes(h, entropy, i);
    SpellingOf(list, i, words, 0, 0);
    var i' := i[0 := EXTRA];
    SmallPowers();
    NormalOfFront(i);
    assert Spells(list, i', words[0 := list[EXTRA]]);
  }

  lemma NormalOfFront(indices: seq<nat>)
    requires indices != [] && indices[0] == 0 && forall k | 0 <= k < |indices| :: indices[k] < EXTRA
    ensures Normal(indices[0 := EXTRA]) == indices
  {
  }

  function Repeat<T>(x: T, n: nat): seq<T> { seq(n, _ => x) }

  function Zeros(n: nat): seq<Byte> { seq(n, _ => 0) }

  lemma {:induction false} ValueOfZeros(n: nat, width: nat)
    ensures Value(Zeros(n), width) == 0
  {
    hide Pow2;
    if n > 0 {
      ValueOfZeros(n - 1, width);
      assert Zeros(n)[..n - 1] == Zeros(n - 1);
      assert Value(Zeros(n), width) == 0 * Pow2(width) + 0;
    }
  }

  /** A phrase that the wallet accepts but never writes: the extra word, 22 times the first word, and
      the checksum word of the all-zero entropy. */
  lemma ExtraWordExample(list: seq<Word>, h: FirstByte)
    requires |list| == WALLET_LIST_SIZE && Distinct(list)
    ensures
      var zero := Zeros(32);
      var phrase := [list[EXTRA]] + Repeat(list[0], 22) + [list[h(zero)]];
      ReadsAs(list, h, phrase, zero) && !IsPhraseOf(list, h, zero, phrase)
  {
    hide Value, Pow2, Checksum, Normal, Encodes, Distinct;
    var zero := Zeros(32);
    var words := Repeat(list[0], 23) + [list[h(zero)]];
    var phrase := [list[EXTRA]] + Repeat(list[0], 22) + [list[h(zero)]];
    ZeroEncodes(h, zero);
    var indices := Zeros(23) + [h(zero)];
    assert Spells(list, indices, words);
    ExtraWordIsAccepted(list, h, zero, words);
    assert words[0 := list[EXTRA]] == phrase;
    if IsPhraseOf(list, h, zero, phrase) {
      PhraseComesBackExactly(list, h, phrase, zero, phrase);
    }
  }

  lemma ZeroEncodes(h: FirstByte, zero: seq<Byte>)
    requires zero == Zeros(32)
    ensures Encodes(h, zero, Zeros(23) + [h(zero)])
  {
    hide Value, Pow2, Checksum;
    ValueOfZeros(32, 8);
    ValueOfZeros(23, 11);
    ValueOfAppend(Zeros(23), h(zero), 11);
    WholeByte(h);
    SmallPowers();
  }
}