/** The repository has two word lists that differ: one for `Bip39`, one for the wallet. What the two
    encoders and the two decoders make of each other, for any two lists. */
module TwoLists {
  import opened Arith
  import opened Types
  import opened Digits
  import opened Bip39
  import SeedPhrase

  /** The lists have the same words at these places. */
  predicate SameWords(list: seq<Word>, list': seq<Word>, indices: seq<nat>) {
    forall k | 0 <= k < |indices| ::
      indices[k] < |list| && indices[k] < |list'| && list[indices[k]] == list'[indices[k]]
  }

  /** Both phrases of an entropy are spelled from the one index sequence that encodes it, so they are
      equal exactly if the lists agree there. */
  lemma PhrasesAgreeExactly(list: seq<Word>, list': seq<Word>, h: FirstByte, entropy: seq<Byte>, indices: seq<nat>,
      words: seq<Word>, words': seq<Word>)
    requires Encodes(h, entropy, indices)
    requires IsPhraseOf(list, h, entropy, words) && IsPhraseOf(list', h, entropy, words')
    ensures Spells(list, indices, words) && Spells(list', indices, words')
    ensures words == words' <==> SameWords(list, list', indices)
  {
    hide Value, Pow2, Checksum;
    OnlyIndices(list, h, entropy, indices, words);
    OnlyIndices(list', h, entropy, indices, words');
  }

  lemma OnlyIndices(list: seq<Word>, h: FirstByte, entropy: seq<Byte>, indices: seq<nat>, words: seq<Word>)
    requires Encodes(h, entropy, indices) && IsPhraseOf(list, h, entropy, words)
    ensures Spells(list, indices, words)
  {
    hide Value, Pow2, Checksum;
    var i :| Spells(list, i, words) && Encodes(h, entropy, i);
    DigitsAreUnique(i, indices, 11);
  }

  /** The streaming and the sliding-window encoder on the same 32 bytes: one index sequence, and the same
      words exactly where the lists agree on it. */
  method BothEncoders(list: seq<Word>, walletList: seq<Word>, h: FirstByte, entropy: seq<Byte>)
    returns (words: seq<Word>, walletWords: seq<Word>, ghost indices: seq<nat>)
    requires |entropy| == 32 && |list| == LIST_SIZE && |walletList| == SeedPhrase.WALLET_LIST_SIZE
    ensures IsPhraseOf(list, h, entropy, words) && IsPhraseOf(walletList, h, entropy, walletWords)
    ensures Encodes(h, entropy, indices) && Spells(list, indices, words) && Spells(walletList, indices, walletWords)
    ensures words == walletWords <==> SameWords(list, walletList, indices)
  {
    hide Encodes, Spells, SameWords;
    var r := EntropyToMnemonic(list, h, entropy);
    words := r.value;
    walletWords := SeedPhrase.EntropyToMnemonic(walletList, h, entropy);
    indices :| Spells(list, indices, words) && Encodes(h, entropy, indices);
    PhrasesAgreeExactly(list, walletList, h, entropy, indices, words, walletWords);
  }

  // ----- Each decoder on the other's phrase

  /** The streaming decoder reads a wallet phrase back exactly if the lists agree on it; otherwise it
      meets an unknown word, a wrong checksum, or another entropy. */
  method WalletPhraseInBip39(list: seq<Word>, walletList: seq<Word>, h: FirstByte, entropy: seq<Byte>,
      ghost indices: seq<nat>)
    returns (r: Result<seq<Byte>>)
    requires |entropy| == 32 && |list| == LIST_SIZE && Distinct(list) && |walletList| == SeedPhrase.WALLET_LIST_SIZE
    requires Encodes(h, entropy, indices)
    ensures r == Ok(entropy) <==> SameWords(list, walletList, indices)
    ensures r == Err(UnknownWord) <==>
              exists k | 0 <= k < |indices| :: indices[k] < |walletList| && walletList[indices[k]] !in list
  {
    hide Encodes, Distinct, IsPhraseOf;
    var words := SeedPhrase.EntropyToMnemonic(walletList, h, entropy);
    OnlyIndices(walletList, h, entropy, indices, words);
    PhraseIsLegal(walletList, h, entropy, words);
    r := MnemonicToEntropy(list, h, words);
    ReadInOtherList(list, walletList, h, entropy, indices, words);
    if r.Ok? && IsPhraseOf(list, h, entropy, words) { EntropyIsUnique(list, h, entropy, r.value, words); }
  }

  lemma ReadInOtherList(list: seq<Word>, list': seq<Word>, h: FirstByte, entropy: seq<Byte>, indices: seq<nat>,
      words: seq<Word>)
    requires Encodes(h, entropy, indices) && Spells(list', indices, words)
    ensures IsPhraseOf(list, h, entropy, words) <==> SameWords(list, list', indices)
  {
    hide Value, Pow2, Checksum, Encodes;
    if IsPhraseOf(list, h, entropy, words) {
      OnlyIndices(list, h, entropy, indices, words);
    }
    if SameWords(list, list', indices) { SpellsInOtherList(list, list', indices, words); }
  }

  lemma SpellsInOtherList(list: seq<Word>, list': seq<Word>, indices: seq<nat>, words: seq<Word>)
    requires Spells(list', indices, words) && SameWords(list, list', indices)
    ensures Spells(list, indices, words)
  {
  }

  /** The wallet reads a standard phrase back exactly if it has all the words, and its reading of them,
      in which the extra word counts as index 0, is the index sequence of the phrase. */
  method Bip39PhraseInWallet(list: seq<Word>, walletList: seq<Word>, h: FirstByte, entropy: seq<Byte>,
      ghost indices: seq<nat>)
    returns (r: Result<seq<Byte>>, words: seq<Word>)
    requires |entropy| == 32 && |list| == LIST_SIZE
    requires |walletList| == SeedPhrase.WALLET_LIST_SIZE && Distinct(walletList) && Encodes(h, entropy, indices)
    ensures Spells(list, indices, words)
    ensures r == Ok(entropy) <==> exists own :: Spells(walletList, own, words) && SeedPhrase.Normal(own) == indices
    ensures walletList[SeedPhrase.EXTRA] !in words ==> (r == Ok(entropy) <==> SameWords(walletList, list, indices))
    ensures r == Err(UnknownWord) <==> exists k | 0 <= k < |words| :: words[k] !in walletList
  {
    hide Encodes, Distinct, IsPhraseOf, Spells, SeedPhrase.ReadsAs, SeedPhrase.Normal, SameWords;
    var phrase := EntropyToMnemonic(list, h, entropy);
    words := phrase.value;
    OnlyIndices(list, h, entropy, indices, words);
    SeedPhrase.PhraseLength(list, h, entropy, words);
    r := SeedPhrase.MnemonicToEntropy(walletList, h, words);
    ReadInWallet(list, walletList, h, entropy, indices, words);
    if r.Ok? && SeedPhrase.ReadsAs(walletList, h, words, entropy) {
      SeedPhrase.ReadingIsUnique(walletList, h, words, entropy, r.value);
    }
    if SeedPhrase.ReadsAs(walletList, h, words, entropy) { ReadWordsAreKnown(walletList, h, entropy, words); }
  }

  lemma ReadWordsAreKnown(list: seq<Word>, h: FirstByte, entropy: seq<Byte>, words: seq<Word>)
    requires SeedPhrase.ReadsAs(list, h, words, entropy)
    ensures forall k | 0 <= k < |words| :: words[k] in list
  {
  }

  lemma ReadInWallet(list: seq<Word>, walletList: seq<Word>, h: FirstByte, entropy: seq<Byte>, indices: seq<nat>,
      words: seq<Word>)
    requires |walletList| == SeedPhrase.WALLET_LIST_SIZE && Encodes(h, entropy, indices) && Spells(list, indices, words)
    ensures SeedPhrase.ReadsAs(walletList, h, words, entropy)
       <==> exists own :: Spells(walletList, own, words) && SeedPhrase.Normal(own) == indices
    ensures walletList[SeedPhrase.EXTRA] !in words ==>
              (SeedPhrase.ReadsAs(walletList, h, words, entropy) <==> SameWords(walletList, list, indices))
  {
    hide Value, Pow2, Checksum, SeedPhrase.Normal;
    if SeedPhrase.ReadsAs(walletList, h, words, entropy) {
      var own :| Spells(walletList, own, words) && Encodes(h, entropy, SeedPhrase.Normal(own));
      DigitsAreUnique(SeedPhrase.Normal(own), indices, 11);
    }
    if walletList[SeedPhrase.EXTRA] !in words {
      SmallPowers();
      forall own | Spells(walletList, own, words)
        ensures SeedPhrase.Normal(own) == own
      {
        forall k | 0 <= k < |own|
          ensures own[k] < SeedPhrase.EXTRA
        {
          assert words[k] in words;
        }
        SeedPhrase.NormalOfPlain(own);
      }
      if SameWords(walletList, list, indices) { assert Spells(walletList, indices, words); }
    }
  }

  // ----- The lists do differ

  lemma {:induction false} ValueOfZeroTail(digits: seq<nat>, n: nat, width: nat)
    ensures Value(digits + SeedPhrase.Zeros(n), width) == Value(digits, width) * Pow2(width * n)
  {
    hide Value;
    if n == 0 {
      assert digits + SeedPhrase.Zeros(0) == digits;
      assert width * 0 == 0 && Pow2(0) == 1;
    } else {
      hide Pow2;
      ValueOfZeroTail(digits, n - 1, width);
      ZeroStep(digits, n, width);
      assert width * n == width * (n - 1) + width;
      Pow2Add(width * (n - 1), width);
      Associates(Value(digits, width), Pow2(width * (n - 1)), Pow2(width));
    }
  }

  lemma Associates(a: nat, b: nat, c: nat)
    ensures a * b * c == a * (b * c)
  {
  }

  lemma ZeroStep(digits: seq<nat>, n: nat, width: nat)
    requires n > 0
    ensures Value(digits + SeedPhrase.Zeros(n), width) == Value(digits + SeedPhrase.Zeros(n - 1), width) * Pow2(width)
  {
    hide Value, Pow2;
    assert digits + SeedPhrase.Zeros(n) == digits + SeedPhrase.Zeros(n - 1) + [0];
    ValueOfAppend(digits + SeedPhrase.Zeros(n - 1), 0, width);
  }

  /** Where the two lists first differ. */
  const DIFFERENCE: nat := 163

  function ExampleEntropy(): seq<Byte> { [20, 96] + SeedPhrase.Zeros(30) }

  /** The first eleven bits of the example are 163. */
  lemma ExampleIndices(h: FirstByte)
    ensures Encodes(h, ExampleEntropy(), [DIFFERENCE] + SeedPhrase.Zeros(22) + [h(ExampleEntropy())])
  {
    hide Value, Pow2, Checksum;
    var (e, tail) := (ExampleEntropy(), h(ExampleEntropy()));
    SmallPowers();
    SeedPhrase.WholeByte(h);
    ValueOfZeroTail([20, 96], 30, 8);
    ValueOfZeroTail([DIFFERENCE], 22, 11);
    ValueOfAppend([DIFFERENCE] + SeedPhrase.Zeros(22), tail, 11);
    ShortValues();
    Pow2Add(5, 240);
    Pow2Add(245, 8);
    Pow2Add(242, 11);
    ExampleSum(Pow2(240), Pow2(245), Pow2(253), Pow2(242));
  }

  lemma ExampleSum(a: nat, b: nat, p: nat, d: nat)
    requires b == 32 * a && p == b * 256 && p == d * 2048
    ensures 5216 * a * 256 == 163 * d * 2048
  {
  }

  lemma ShortValues()
    ensures Value([20, 96], 8) == 5216 && Value([DIFFERENCE], 11) == 163 && Pow2(5) == 32
  {
    SmallPowers();
    assert Value([20, 96][..1], 8) == 20 by {
      assert Value([], 8) == 0 && [20, 96][..1] == [20];
    }
    assert Value([], 11) == 0;
  }

  /** For lists that differ at index 163 the two encoders disagree on the example, and neither phrase is
      one that the other list gives it. */
  lemma ListsDisagree(list: seq<Word>, walletList: seq<Word>, h: FirstByte, words: seq<Word>, walletWords: seq<Word>)
    requires |list| == LIST_SIZE && |walletList| == SeedPhrase.WALLET_LIST_SIZE
        && list[DIFFERENCE] != walletList[DIFFERENCE]
    requires IsPhraseOf(list, h, ExampleEntropy(), words) && IsPhraseOf(walletList, h, ExampleEntropy(), walletWords)
    ensures words[0] == list[DIFFERENCE] && walletWords[0] == walletList[DIFFERENCE] && words != walletWords
    ensures !IsPhraseOf(list, h, ExampleEntropy(), walletWords) && !IsPhraseOf(walletList, h, ExampleEntropy(), words)
  {
    hide Value, Pow2, Checksum, Encodes;
    var indices := [DIFFERENCE] + SeedPhrase.Zeros(22) + [h(ExampleEntropy())];
    ExampleIndices(h);
    PhrasesAgreeExactly(list, walletList, h, ExampleEntropy(), indices, words, walletWords);
    ReadInOtherList(list, walletList, h, ExampleEntropy(), indices, walletWords);
    ReadInOtherList(walletList, list, h, ExampleEntropy(), indices, words);
    assert indices[0] == DIFFERENCE;
  }
}
