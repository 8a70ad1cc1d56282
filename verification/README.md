# A verified model of the Ewatts node

Ewatts is a proof-of-work chain with ring-signed private transactions. This project models the part of
the node that decides what the ledger is, and proves what the rest of the system relies on. It checks
with `dafny verify dfyconfig.toml`; nothing was executed.

**Ledger and chain** (`Ledger`, `UtxoSet`, `BlockTree`, `Chain`, `ChainStore`, `Node`). The mutable
objects of the source are classes: `UtxoSet` applies a block, records a diff and unwinds it; `ChainStore`
holds the block tree, the tip and the orphan pool; `Node` decides between extending, reorganising and
storing, and carries reorganisations out with rollback. Each method is proved equal to a function on
values. About those functions the project proves:

* the ledger is, after every step of every run, failed steps included, the replay of the blocks from
  genesis to the tip, given that the blocks that a step undertakes to apply are reversible (`Runs`, `Replay`,
  `NodeProofs`);
* what reversible means: whether an apply succeeds or fails, its diff leads back exactly if the applied
  transactions meet three conditions that the code does not check (`LedgerProofs`, `Reversibility`); a
  condition on the blocks alone guarantees them (`Hygiene`), and the made-up diff of a reorganisation
  works exactly for such blocks that spend nothing old (`Fallback`);
* what an accepted transaction has behind it: whose signature, over which outputs, unlocked, proved and balanced,
  and which changes to it are refused (`Acceptance`); the same for what the memory pool admits (`Admission`);
* what becomes of a block on its arrival, so that nothing without proof of work is ever queued or stored (`Arrivals`);
  which transactions a reorganisation hands back (`Resurrection`); what a difficulty target weighs (`Weight`);
* no key image is spent twice on a chain (`DoubleSpend`), and no output is, where none is made twice
  (`OutputsOnce`); what an accepted private spend depends on (`PrivateSpends`);
* an account of all money, for every transaction, block and chain that applies: value is conserved exactly if what
  is made out of nothing or not counted is what is overwritten (`Conservation`);
* while no inserted block is rejected, the tip is the first heaviest one, whatever the blocks are
  (`ForkChoice`); among valid and invalid blocks it is a heaviest valid one, if valid branches overtake each
  other within the reorganisation cap (`ValidForkChoice`); the work of the tip never falls (`Runs`);
* nodes that receive the same blocks in different orders agree under a condition on the blocks (`Convergence`);
  exactly that condition keeps every order free of rejections (`Rejections`), and exactly one heaviest block
  makes every order end with one tip (`Ties`); `Divergence` has concrete failing blocks, and a node restarted from
  its block log agrees with the one that wrote it (`Rebuild`).

**Privacy** (`Field`, `Mlsag`, `RangeProofs`, `Wallet`). Scalars are residues modulo the group order and
points are discrete logarithms to a fixed base; the hash functions are arbitrary. The signer, which
starts at a secret position, and the verifier, which starts at 0, agree; a range proof is accepted
exactly if the value fits; a transaction that the wallet builds is accepted by the ledger, and both
wallets find what it pays them (`Payment`).

**Mempool, seed phrases, proof of work, Merkle roots, compact blocks, pool** (`Mempool`; `Digits`, `Bip39`,
`SeedPhrase`, `TwoLists`; `ProofOfWork`, `PastTheEnd`; `Merkle`, `MerkleBinding`; `CompactBlocks`; `Pool`).
`Arith` holds the arithmetic that they share.

Hash functions, signatures, codecs, clocks, random choices and the iteration order of hash maps are
parameters or arbitrary choices. 64-bit sums wrap, saturate or are checked where the source's do;
`overflow-checks` is not set in its release profile, so unchecked sums wrap.

## What does not hold as written in the source

* An apply is not always undone by its diff, nor does a failed one always change nothing. `UnwoundExactly`
  says when; a coinbase that repeats an earlier one, which `Transaction::hash` allows since it omits the
  height, is the simplest failing case (`RepeatedCoinbaseIsNotUndone`, `FailedApplyExample`).
* Value is not always conserved. It is made by a spend that names an outpoint twice, since the amount is added up
  for each input and the outpoint removed once (`NamedTwiceMakesMoney`, `NamedTwiceExample`), by a coinbase whose sum
  wraps (`CoinbaseConservesExactly`), and by one that the supply has no room for, whose outputs are entered all
  the same (`SkippedCoinbaseMakesMoney`). It is lost where outputs are made again: by a coinbase that repeats an
  earlier one (`RepeatedCoinbaseLoses`), and by two equal spends without inputs in a block (`RepeatedSpendLoses`). A fee
  is negative for a spend with outputs and no inputs (`FeeIsNonNegativeExactly`).
* A private spend is bound to the outpoints that it names and to its rings, but nothing ties an input to a ring or its
  key image to the signature: `PrivateSpendReads` says what acceptance depends on, and by `ImageIsNotBound` any
  unspent image may stand in an accepted transaction. That no key image is spent twice says less, therefore, than
  that no output is (`NoOutputIsSpentTwice`).
* The 40,000 blocks that src/reward.rs:40 adds to the height of an early coinbase never count: below height 10,000 the
  other bound, 50,000, is the larger one (`CoinbaseIsAcceptedExactly`).
* The comment at src/store.rs:360-361 says that the Merkle check catches every change to the transactions.
  `UnnoticedExactly` says which it does not catch: dropping all of them, and changes that keep the
  self-paired expansion of the hashes, such as repeating the last of three. Where no hash repeats, every
  change that leaves a transaction is caught (`TamperingIsNoticed`).
* The wallet's word list (src/wallet.rs:393-599) has 2049 words, one more than src/bip39_english.txt, and the
  two lists first differ at index 163. So the two encoders agree on word indices, and on words exactly where
  the lists do (`TwoLists.BothEncoders`, `ListsDisagree`), and the decoders read each other's phrases under
  the same condition (`WalletPhraseInBip39`, `Bip39PhraseInWallet`). The wallet reads back what it writes, but
  it also accepts phrases with its extra word, which it never writes (`PhraseComesBackExactly`,
  `ExtraWordExample`).
* Sampled verification does not bound the position of the last sample (`PastTheEndExactly`), and where that sample is
  not picked, any mix may stand in it (`UnpickedLastIsFree`, `UnpickedExample`).
* The receive step queues orphans but never resolves them; only src/shuffle.rs:60-66 does. Resolution is
  therefore an event of its own in a run.
* The convergence promised at docs/3-layer-architecture.md:347-357 is not unconditional. Some order of delivery has
  a valid block rejected if and only if one valid branch overtakes another and one of them has left the other more
  than 100 blocks ago (`ValidIsNeverRejectedExactly`); a later, heavier branch can still unite the nodes. And without
  rejections all orders end with one tip if and only if one block is heaviest (`OneTipExactly`).

## Model

| member | source | states |
|---|---|---|
| `Mlsag.Verify` | src/privacy.rs:262-302 | accepts exactly the well-shaped signatures whose challenges, walked from position 0 around the ring, return to `c0` |
| `Mlsag.AcceptsExactly` | src/privacy.rs:262-302 | a signature is accepted if and only if there are challenges around the ring, from `c0` back to `c0`, each the hash of the message and of the two sums that the one before makes with the responses on the generator and the hashed keys, and with itself on the keys and the key images |
| `Mlsag.OneMessage` | src/privacy.rs:262-302 | with an injective challenge, signatures that begin with the same challenge are accepted for one message only, whatever their rings |
| `Mlsag.ChangedStartIsRefused` | src/privacy.rs:289-302 | an accepted signature with another first challenge is refused, if that is no challenge for the message or is congruent to the old one |
| `Mlsag.Sign` | src/privacy.rs:178-255 | completeness: for every ring of at least 2, every number of layers, real index and randomness, if the secrets open the real row, the verifier accepts; the key images belong to the secrets and the other responses are the drawn ones |
| `Mlsag.RealPositionCloses` | src/privacy.rs:239-243 | at the real position the responses turn the received challenge back into the nonce points |
| `Mlsag.ConsistentRingCloses` | src/privacy.rs:289-302 | if every position leaves the challenge that the next receives, the walk from 0 closes wherever the signer began |
| `Mlsag.RealResponseCloses` | src/privacy.rs:221-247 | replacing the filler at the signer's starting point by its response closes the ring |
| `Mlsag.RecoveryOpensDestination` | src/privacy.rs:108-127 | the scalar that the receiver recovers is the discrete logarithm of the destination that the sender derived |
| `RangeProofs.VerifyRange` | src/privacy.rs:401-432 | accepts exactly the proofs of at most 64 bits whose weighted commitments add up to the commitment and whose every bit signature is accepted, on the ring of its commitment and that less one `h`, for its own bit |
| `RangeProofs.SwappedBitsAreRefused` | src/privacy.rs:421-430 | with an injective challenge, an accepted proof with two bit signatures exchanged is refused |
| `RangeProofs.ChangedBitIsRefused` | src/privacy.rs:421-430 | so is one in which a bit signature begins with another challenge, if that is no challenge for the bit or is congruent to the old one |
| `RangeProofs.TwoStarts` | src/privacy.rs:421-430 | that needs a condition: for every injective challenge there is another one, and two accepted proofs that differ in the first challenge alone |
| `RangeProofs.ProveWithBlinding` | src/privacy.rs:324-359 | the proof is accepted for the commitment under the returned total blinding if and only if the value is below two to the (clamped) number of bits |
| `RangeProofs.ProveWithExactBlinding` | src/privacy.rs:362-398 | the same for the commitment under the desired blinding, with the last blinding solved for |
| `RangeProofs.SumIsCommitment` | src/privacy.rs:413-420 | in a group of prime order above 2^64, the weighted sum of the bit commitments is the commitment to the value exactly if no higher bit is set |
| `RangeProofs.BitsOpenExactly` | src/privacy.rs:401-432 | exactness of range proofs from completeness of each bit proof |
| `RangeProofs.HalfPowerInverts` | src/privacy.rs:384-388 | the weight of the last bit has an inverse, so the last blinding can be solved for |
| `UtxoSets.BuildRingInline` | src/state.rs:140-171 | the ring of the named outputs, or the first failing member's error: unknown, legacy, or not a point |
| `UtxoSets.TransposeRings` | src/state.rs:267-277 | one row per ring position with one key per input |
| `UtxoSets.VerifyRing` | src/state.rs:248-283 | the signature check of a private transaction against the rings it names; `Acceptance.SignedExactly` says what passes it |
| `Acceptance.SignedExactly` | src/state.rs:127-283 | the check passes if and only if there is no signature, or the decoded one is accepted for the message of the transaction on the ring whose entry at a position and layer is the key that the ledger holds for that member |
| `Acceptance.MessageCovers` | src/state.rs:80-108 | two transactions have the same signed message if and only if they have the same outpoints, the same outputs up to time locks, and the same ring size |
| `Acceptance.TamperedIsRefused` | src/state.rs:127-283 | with an injective challenge, an accepted private transaction in which one of these is changed under the same signature is refused by every ledger |
| `Acceptance.HashCovers` | src/block.rs:260-282 | two transactions are hashed alike if and only if they agree in version, ring size, outpoints, key images, and the amounts, owners and commitments of their outputs |
| `Acceptance.ValidatesExactly` | src/state.rs:577-600 | a transaction validates if and only if it is not empty, its inputs exist and are unspent, sums fit 64 bits, and, where it has inputs, it pays out no more than they hold |
| `Acceptance.SpendIsAcceptedExactly` | src/state.rs:242-368 | a spend is accepted if and only if the ring it names has signed it or the owner of every input has, each input exists, is unspent and unlocked, every private output is proved, and it balances |
| `Acceptance.InputErrors` | src/state.rs:286-315 | why an input is refused, each error exactly when it applies |
| `Acceptance.FirstRefusedDecides` | src/state.rs:286-315 | among several the first refused input decides |
| `Acceptance.CoinbaseIsAcceptedExactly` | src/state.rs:463-482 | a coinbase passes if and only if it has no inputs, pays at most 2,000,000,000 as added up in 64 bits, and locks its outputs to height 50,000 below height 10,000 and not at all from there on |
| `Acceptance.FounderOutputIsLocked` | src/reward.rs:38-44 | no spend of an output of a coinbase below height 10,000 is accepted below height 50,000 |
| `UtxoSets.WrappingSum` | src/state.rs:468-469 | the coinbase sum as its true sum modulo 2^64 |
| `UtxoSets.SumOutputs` | src/state.rs:586-592 | the true sum of the outputs, or an overflow error |
| `UtxoSets.UtxoSet.AddTransactionOutputs` | src/state.rs:202-222 | the outputs of a transaction are entered under its hash, and nothing else changes |
| `UtxoSets.UtxoSet.AddCoinbaseSupply` | src/state.rs:224-229 | supply grows by the amount unless that overflows, when it silently stays |
| `UtxoSets.UtxoSet.ValidateTransaction` | src/state.rs:577-600 | the order of checks and their errors; the value check only with inputs |
| `UtxoSets.UtxoSet.VerifyInputs` | src/state.rs:286-315 | the first input that is spent, unknown, locked or badly signed decides |
| `UtxoSets.VerifyRangeProofs` | src/state.rs:318-337 | the first private output without an acceptable range proof decides |
| `UtxoSets.UtxoSet.VerifyBalance` | src/state.rs:342-368 | no mixture of private and plain outputs, and no more out than in |
| `UtxoSets.UtxoSet.SpendTransactionInputsWithDiff` | src/state.rs:242-390 | spends all inputs and records each entry before removing it, or changes nothing |
| `UtxoSets.UtxoSet.SpendTransactionInputs` | src/state.rs:232-239 | the same without a diff |
| `UtxoSets.UtxoSet.ApplyBlockInner` | src/state.rs:460-509 | state and diff at the end of the block or at its first error |
| `UtxoSets.UtxoSet.ApplyBlockAndTrack` | src/state.rs:447-458 | on an error, the state after unwinding the diff built so far |
| `UtxoSets.UtxoSet.ApplyBlock` | src/state.rs:441-444 | the inner apply with its diff dropped, and no rollback on an error |
| `UtxoSets.UtxoSet.UnwindWithDiff` | src/state.rs:513-531 | restores consumed entries, then removes created ones, whatever the order of the map, for every diff the apply loop can build |
| `LedgerProofs.ApplyKeepsTracks` | src/state.rs:460-509 | the invariant of the apply loop, for reversible blocks: the diff built so far accounts for every difference to the start |
| `LedgerProofs.UnwindRestores` | src/state.rs:447-531 | wherever the loop stops, unwinding the diff gives back the start, for reversible blocks |
| `LedgerProofs.ApplyIsAtomic` | src/state.rs:447-458 | for reversible blocks, a failed apply changes nothing and a successful one is undone by its diff; `Reversibility.AtomicExactly` has the exact condition |
| `LedgerProofs.ApplyIsRestorable` | src/state.rs:513-522 | every diff of the apply loop restores the same ledger in every order, for all blocks |
| `Reversibility.UndoneExactlyIfReversible` | src/state.rs:371-531 | for every block that applies, also one that names an outpoint twice: its diff undoes it if and only if it makes no outpoint that exists, removes no two old outpoints under one key image, and does not overflow the supply |
| `Reversibility.UnwoundExactly` | src/state.rs:447-531 | for every ledger and block, wherever the apply ends: unwinding leads back if and only if the transactions applied so far are reversible |
| `Reversibility.AtomicExactly` | src/state.rs:447-458 | a failed apply changes nothing if and only if the transactions before the failing one are reversible |
| `Reversibility.FailedApplyExample` | src/state.rs:447-458 | a concrete failed apply that changes the ledger: a coinbase that makes an existing outpoint again, then an empty transaction |
| `Reversibility.StaleOutputIsLost` | src/state.rs:202-222 | a block that makes an existing outpoint is not undone |
| `Reversibility.SkippedSupplyIsLost` | src/state.rs:224-229 | nor one whose coinbase overflows the supply |
| `Reversibility.AmbiguousImageIsLost` | src/state.rs:378-382 | nor one that removes two outpoints, the later one old, under one key image |
| `Reversibility.RepeatedCoinbaseIsNotUndone` | src/block.rs:260-282 | two coinbases that differ in their time lock alone collide, and the later block is not undone |
| `Fallback.FallbackForgets` | src/reorg.rs:110-130 | for every block that applies, the made-up diff is the recorded one without its consumed entries |
| `Fallback.FallbackRestoresExactly` | src/reorg.rs:106-133 | for every block that applies, unwinding with the made-up diff restores the ledger if and only if the block makes no outpoint that exists, does not overflow the supply, and names in no input an output from before it |
| `BlockTree.InsertIsWellFounded` | src/chain.rs:124-167 | adding a block under a stored parent keeps all ancestor walks finite |
| `BlockTree.LcaIsLowest` | src/chain.rs:265-275 | the result is a common ancestor that every other common ancestor is above; none only if there is no common ancestor |
| `BlockTree.ChainToForkIsPrefix` | src/chain.rs:304-319 | the chain to an ancestor is the part of the ancestor walk in front of it |
| `BlockTree.ForkPlanIsSound` | src/reorg.rs:45-52 | the two paths of a plan are disjoint and parent-linked, from the old tip down to just above the fork and from there up to the new block |
| `ChainStores.ChainStore.constructor` | src/chain.rs:39-59 | a consistent store that holds genesis as its tip |
| `ChainStores.ChainStore.AddBlock` | src/chain.rs:113-167 | adds a block with saturating work, or refuses a duplicate or a missing parent; the store stays consistent |
| `ChainStores.ChainStore.AddBlockWithDiff` | src/chain.rs:119-167 | the same, with the diff stored exactly if the block is |
| `ChainStores.ChainStore.SetChainTip` | src/chain.rs:178-185 | moves the tip to a stored block, or fails and changes nothing |
| `ChainStores.ChainStore.AddOrphan` | src/chain.rs:190-206 | queues an unknown block after dropping the oldest; pool and queue keep the same distinct hashes, at most 500 |
| `ChainStores.ChainStore.ResolveOrphans` | src/chain.rs:211-241 | terminates, and returns exactly the pool blocks that descend from the parent through the pool, all now in the tree, for every iteration order |
| `ChainStores.ChainStore.GetAncestors` | src/chain.rs:246-262 | the walk terminates with the ancestors from the block up |
| `ChainStores.ChainStore.FindLca` | src/chain.rs:265-275 | the first ancestor of one block among those of the other |
| `ChainStores.ChainStore.GetChainToFork` | src/chain.rs:304-319 | the walk terminates with the chain in front of the fork |
| `Orphans.MovesExactlyDescendants` | src/chain.rs:211-241 | a resolution that is closed under children moves the descendants, all of them and nothing else |
| `Orphans.ResolvedKeepsLedger` | src/chain.rs:211-241 | resolving orphans keeps a node whose ledger is the replay in that state |
| `NodeStep.AnalyzeFork` | src/reorg.rs:21-56 | the decision, by parent, tip and saturating work; `Weight` says what it means in terms of targets |
| `Weight.WorkIsQuotient` | src/chain.rs:325-330 | the work of a block is the largest number whose product with the target fits 64 bits, and zero without a target |
| `Weight.HarderIsHeavier` | src/chain.rs:325-330 | `n` blocks do not outweigh one of at most an `n`-th of their target |
| `Weight.EasyBranchIsSidechain` | src/reorg.rs:39-55 | a branch of `n` blocks of target at least `d` does not displace a tip of target `t` on the same fork, if `n * t <= d` |
| `Weight.HardBlockWins` | src/reorg.rs:39-55 | a block of target `t` displaces `n` blocks of target at least `d` on the same fork, if `(n + 1) * t <= d` and sums do not saturate |
| `NodeStep.BuildFallbackDiff` | src/reorg.rs:110-130 | the diff made up for a block without a recorded one |
| `NodeStep.ExecuteReorgInner` | src/reorg.rs:94-181 | unwinds, applies with fresh diffs, moves the tip and lists the transactions to resubmit |
| `NodeStep.ExecuteReorg` | src/reorg.rs:59-91 | refuses more than 100 blocks either way; on any error both objects are back at their snapshots |
| `NodeStep.CollectResurrected` | src/reorg.rs:157-180 | the hashes that `Resurrection.ListedExactly` describes |
| `Resurrection.ListedExactly` | src/reorg.rs:157-180 | a successful reorganisation lists a hash if and only if an unwound block has a spend of that hash, one of whose key images the new ledger does not hold, and no applied block holds one; once for each such spend, in the order of the unwound blocks and of the spends in them |
| `NodeStep.ValidateAndApplyBlock` | src/p2p.rs:358-422 | the whole receive step, in every branch and error; a block without proof of work is refused and changes nothing, and no other is refused for that |
| `Arrivals.ArrivalExactly` | src/p2p.rs:365-390 | which blocks are turned away before they are stored, and with which error: first those without proof of work, then those stored already, then roots that name a parent; all leave the node as it was, and a block with an unknown parent is only queued |
| `Arrivals.EveryBlockIsProved` | src/p2p.rs:365-385 | in every state of every run, orphan resolution included, every queued block and every stored one but genesis has its proof of work |
| `Arrivals.OrphanIsQueued` | src/chain.rs:190-206 | a new orphan is queued last and nothing else changes, but that of 500 the oldest gives way |
| `Arrivals.OrphanIsRecovered` | src/chain.rs:190-241 | a queued orphan is in the tree once the orphans of its parent are resolved |
| `NodeProofs.ReorgKeeps` | src/reorg.rs:59-181 | if the blocks of a plan within the cap are reversible where they apply: a reorganisation, whether it succeeds or fails, leaves the ledger equal to the replay of the resulting tip, and it fails only for its depth or for a block of the plan that does not apply |
| `NodeProofs.UnwindReplays` | src/reorg.rs:98-133 | unwinding the old chain arrives at the replay of the fork point |
| `NodeProofs.ApplyReplays` | src/reorg.rs:136-145 | if they are reversible, applying the blocks of the new chain arrives at the replay of its last block, with the diffs of that replay |
| `NodeProofs.ReceiveKeeps` | src/p2p.rs:358-422 | if the blocks that it undertakes to apply are reversible, one step, whatever it returns, keeps ledger and stored diffs equal to what the replay produces |
| `NodeProofs.ReceiveKeepsStore` | src/p2p.rs:358-422 | with no hypothesis on the block: the tree only grows, entries keep their path's work, the tip's work never falls |
| `NodeProofs.WorkOfChild` | src/chain.rs:135-157 | an entry carries its parent's work plus its own, saturating |
| `NodeProofs.EvictKeeps` | src/chain.rs:195-203 | eviction ends with room for one more and keeps pool and queue in agreement |
| `Runs.RunKeepsStore` | docs/3-layer-architecture.md:359-363 | in every run, of any blocks, work is the saturating path sum, the tree grows, and the work of the tip never falls |
| `Runs.LedgerIsReplay` | src/p2p.rs:379-421 | in every state of every run, given that the blocks which its steps undertake to apply are reversible where they apply: the ledger is the replay from genesis to the tip and each stored diff is the one its replay produces |
| `Runs.SafeTreeIsSafeRun` | src/p2p.rs:379-421 | that is so in every run whose blocks are all reversible where they apply |
| `Hygiene.HygienicTreeIsSafe` | src/state.rs:202-229 | no outpoint made twice on a branch, no key image for two outpoints in a transaction and a short enough branch make every block reversible where it applies |
| `Hygiene.ReplayAdds` | src/state.rs:460-509 | a replay holds only outpoints of genesis or of blocks on the path, and at most the emission cap per block more supply |
| `DoubleSpend.BlockSpendsOnce` | src/state.rs:286-290 | a block that applies shares no key image with the ledger or among its transactions, and marks exactly its own |
| `DoubleSpend.ReplaySpendsOnce` | src/state.rs:286-290 | along every branch that replays, no two transactions share a key image, and the spent set is exactly what the branch has spent |
| `DoubleSpend.NoDoubleSpend` | docs/3-layer-architecture.md:335-339 | the same for the current chain in every state of every run, given that the blocks which its steps undertake to apply are reversible |
| `OutputsOnce.BlockNamesOnce` | src/state.rs:371-390 | on a branch without an outpoint made twice or equal hashes in a block, a block names no outpoint that was named below it or that it names in another transaction, and what it names is gone afterwards |
| `OutputsOnce.ReplayNamesOnce` | src/state.rs:371-390 | along every such branch that replays, no two transactions spend one output, whatever their key images, and what is spent is not in the ledger |
| `OutputsOnce.NoOutputIsSpentTwice` | docs/3-layer-architecture.md:335-339 | the same for the current chain in every state of every run whose tree is such and whose steps apply only reversible blocks |
| `PrivateSpends.PrivateSpendIsAcceptedExactly` | src/state.rs:242-368 | a private spend is accepted exactly if its rings sign it, its inputs exist, are unlocked and carry unspent key images, its range proofs are accepted, and it balances |
| `PrivateSpends.PrivateSpendReads` | src/state.rs:242-368 | two private spends of the same outpoints under one signature are treated alike by any two ledgers that agree on the keys of the ring members and on amount, lock and spentness of the inputs: neither the owner of an input nor its key image is read |
| `PrivateSpends.ImageIsNotBound` | src/state.rs:286-315 | any unspent key image may stand in the first input of an accepted private spend, which is then accepted, spends the same outputs and marks that image |
| `Conservation.FeeIsNonNegativeExactly` | src/state.rs:577-600 | a validated transaction has a fee of at least zero if and only if it has inputs or pays nothing |
| `Conservation.TxAccounts` | src/state.rs:371-505 | for every transaction that applies: unspent amounts plus fee rise by what the supply rises, plus what is made out of nothing or not counted, less what is overwritten |
| `Conservation.SpendConservesExactly` | src/state.rs:342-390 | for every spend that applies: unspent amounts plus fee stay if and only if what its inputs hold that name an outpoint again equals what its outputs overwrite; for new outputs, if and only if every such input names a worthless one |
| `Conservation.NamedTwiceMakesMoney` | src/state.rs:342-390 | a spend whose two inputs are the same makes as much money as its outpoint holds |
| `Conservation.NamedTwiceExample` | src/state.rs:342-390 | a concrete spend that turns an output of 5 into one of 10 |
| `Conservation.CoinbaseConservesExactly` | src/state.rs:463-490 | for every coinbase that applies: supply and unspent amounts rise alike if and only if what wraps away and what the supply does not take up equals what is overwritten; for new outputs and a supply with room, if and only if the sum does not wrap |
| `Conservation.RepeatedCoinbaseLoses` | src/block.rs:260-282 | a coinbase that repeats an earlier one up to its time lock leaves the unspent total as it is, while the supply takes up its amount |
| `Conservation.SkippedCoinbaseMakesMoney` | src/state.rs:224-229 | a coinbase that would overflow the supply leaves it as it is, while its outputs are entered |
| `Conservation.RepeatedSpendLoses` | src/state.rs:202-222 | a spend without inputs that applies a second time leaves the unspent total as it is |
| `Conservation.BlockAccounts` | src/state.rs:460-509 | over every block that applies, whatever its transactions: unspent amounts plus fees rise by what the supply rises, plus surpluses and skipped coinbase amounts, less overwritten amounts; they rise alike if and only if these balance; fees are not negative if every spend has inputs or pays nothing |
| `Conservation.ReplayAccounts` | src/state.rs:460-531 | the same along every branch that replays |
| `Conservation.SoundReplayLosesNothing` | src/state.rs:460-531 | on hygienic branches with distinct hashes in each block nothing is skipped or overwritten |
| `Conservation.SupplyIsConservedExactly` | src/state.rs:460-531 | in every state of every run whose steps apply only reversible blocks: the supply is the unspent amounts plus the fees dropped on the chain if and only if surpluses and skipped amounts equal overwritten ones, on sound trees if and only if there is no surplus; and it rises by at most 2,000,000,000 per block |
| `ForkChoice.TipIsHeaviest` | src/reorg.rs:39-55 | in every state of every run of deliveries in which no inserted block is rejected, the tip is a heaviest stored block and has no children; the blocks may be anything |
| `ForkChoice.AcceptedMovesTip` | src/p2p.rs:387-421 | an accepted block becomes the tip, as its child or heavier than it, or is stored and not heavier |
| `Convergence.TipIsFirstHeaviest` | src/reorg.rs:39-55 | where every block adds work, the tip is the first heaviest block that was delivered |
| `ValidForkChoice.TipLeadsValid` | src/reorg.rs:39-91 | in every state of every run of valid and invalid blocks, given that all are reversible where they apply and that valid branches overtake each other within the cap: the tip is a heaviest valid block, the ledger is its replay, and no valid block has been rejected |
| `ValidForkChoice.ValidIsDecided` | src/reorg.rs:59-91 | under those conditions the decision on a valid block does not fail |
| `ValidForkChoice.InvalidIsDecided` | src/reorg.rs:59-91 | the decision on an invalid one leaves the tip where it is |
| `ValidForkChoice.ValidBlocksAreAccepted` | src/reorg.rs:59-91 | a condition on the blocks alone under which none is rejected in any order: all are valid on their branches, and where one branch overtakes another neither has left the other more than 100 blocks ago |
| `Rejections.DeepOvertakeIsRejected` | src/reorg.rs:68-76 | for any blocks: where one overtakes another and either has left the other more than 100 blocks ago, delivering first the path of the overtaken one and then that of the overtaking one has a block of these rejected |
| `Rejections.ValidIsNeverRejectedExactly` | src/reorg.rs:59-91 | for every set of valid and invalid blocks that are reversible where they apply: no order of delivery has a valid block rejected if and only if valid branches overtake each other within the cap |
| `Rejections.NoneIsRejectedExactly` | src/reorg.rs:59-91 | where all blocks are valid, no order has any block rejected if and only if branches overtake each other within the cap |
| `Convergence.DeliveredTree` | src/p2p.rs:379-388 | a node to which blocks come parents first holds exactly those blocks |
| `Convergence.AcceptedRunsAgree` | src/shuffle.rs:138-147 | two orders of the same blocks, of any kind, in which nothing inserted is rejected end with the same tree and the same tip work |
| `Convergence.DeliveryOrderIsIrrelevant` | src/shuffle.rs:138-147 | two orders of the same blocks, valid or not, which are reversible where they apply and whose valid branches overtake each other within the cap, end with the same tree and tip work, and with the same tip and ledger if one valid block is heaviest |
| `Ties.TipsAgreeExactly` | src/reorg.rs:45-55 | two orders of the same blocks, all of which add work, in which nothing is rejected end with the same tip if and only if the same heaviest block comes first in both |
| `Ties.HeaviestCanBeTip` | src/reorg.rs:45-55 | where all blocks are valid and add work and overtakes are within the cap, every heaviest block is the tip after some order |
| `Ties.OneTipExactly` | docs/3-layer-architecture.md:347-357 | under the same conditions all orders end with the same tip if and only if one block is heavier than all others |
| `Divergence.TieLeavesTwoTips` | src/reorg.rs:45-55 | two equally heavy children of genesis leave different tips in the two orders |
| `Divergence.TieExists` | src/reorg.rs:45-55 | concrete blocks for it |
| `Divergence.DeepFamilyExists` | src/reorg.rs:68-76 | concrete blocks for the two results that follow |
| `Divergence.DeepReorgIsRefused` | src/reorg.rs:68-76 | after a chain longer than 100 blocks a single heavier block is stored but its reorganisation is refused, and the tip is not heaviest |
| `Divergence.RefusedReorgSplits` | src/reorg.rs:68-76 | so two orders of those blocks end with tips of different work |
| `Rebuild.RebuildChainStore` | src/store.rs:458-509 | from any log whose height-0 blocks have no parent it halts or ends with a consistent store whose tip is heaviest, the first one if there is work; from a clean log its tree is exactly the log |
| `Rebuild.PickHeaviest` | src/store.rs:487-506 | the tip becomes the first heaviest stored block of the log and the tree stays |
| `Rebuild.RestartAgrees` | src/store.rs:487-508 | after a run without rejections, the rebuilt store has the tree, the work and, where every block adds work, the tip of the node that wrote the log, ties included |
| `Wallets.ScanUtxos` | src/wallet.rs:123-179 | the owned outputs, each once, by the first stealth key that opens it or else by a legacy key |
| `Wallets.ScannedExactly` | src/wallet.rs:123-179 | an output is listed if and only if it is in the map and owned |
| `Wallets.OwnedExactly` | src/wallet.rs:123-179 | which outputs are owned, and with which scalar: that of the first stealth key that opens the destination, or none for a legacy owner |
| `Wallets.ScannedAreStealth` | src/wallet.rs:130-157 | without legacy outputs, each found output comes with the discrete logarithm of its destination |
| `Wallets.SelectUtxos` | src/wallet.rs:218-237 | the shortest prefix of the owned outputs whose sum, wrapping in 64 bits, reaches the amount; none exactly if the wrapped total does not |
| `Wallets.ShuffledIndices` | src/wallet.rs:258-265 | a permutation, for all draws |
| `Wallets.PickDecoys` | src/wallet.rs:266-275 | distinct decoys other than the own output, as many as the ring needs if there are enough |
| `Wallets.BuildRingInput` | src/wallet.rs:257-316 | a ring over ledger outputs with the own output at the shared index |
| `Wallets.MakeOutput` | src/wallet.rs:319-354 | the output passes the ledger's range check if and only if its amount is below 2^32 |
| `Wallets.AmountsFitExactly` | src/wallet.rs:319-354 | amounts fit the range proofs if and only if they are below 2^32 |
| `Wallets.DraftRing` | src/wallet.rs:356-367 | the wallet's and the ledger's transposition of the rings agree, for any number of inputs |
| `Wallets.SignatureRoundTrip` | src/state.rs:127-138 | a signature keeps its acceptance through encoding and decoding |
| `Wallets.SignDraft` | src/wallet.rs:356-387 | the signed draft carries a signature that the ledger's ring check accepts |
| `Wallets.CreatePrivateTx` | src/wallet.rs:195-388 | it spends the first of the outputs that the scan finds, under the images of their one-time keys; with stealth-only outputs, at least 11 of them, and selected outputs that are unlocked, unspent and add up below 2^64: the ledger accepts the transaction if and only if amount and change are below 2^32; it validates and conserves value; it pays the recipient and the wallet itself; and it is built whenever the balance suffices |
| `Payments.OutputIsFound` | src/wallet.rs:123-157 | whoever holds the secrets of an address finds every output to it, in every order of scanning, with the scalar that opens it |
| `Payments.Pay` | src/wallet.rs:752-800 | from end to end: the payment is built, the ledger spends its inputs exactly if both amounts fit and takes in its outputs, the payee finds the payment and the payer the change |
| `Mempools.SearchPosition` | src/mempool.rs:172-178 | a position that keeps the fees falling, even where hashes within one fee are out of order |
| `Mempools.SwapRemoveAgrees` | src/mempool.rs:141-146 | moving the last transaction into the gap keeps an index in agreement |
| `Mempools.ComputeFee` | src/mempool.rs:43-67 | inputs minus outputs, saturating, or the error of the failing sum |
| `Mempools.Mempool.Submit` | src/mempool.rs:71-182 | the exact error, or the transaction entered at its place by fee; a full pool either stays unchanged or gives up one lowest-fee transaction for a strictly higher fee; both indices hold exactly the pending inputs, no two transactions share one, at most 5000 |
| `Admission.AdmittedExactly` | src/mempool.rs:71-120 | what passes before the pool is looked at: a transaction that is not empty, with existing, unspent inputs, no more out than in, and a ring that has signed it |
| `Admission.FeeIsDifference` | src/mempool.rs:43-67 | the fee of a valid transaction is what its inputs hold beyond its outputs, and zero without inputs |
| `Mempools.Mempool.TakeForMining` | src/mempool.rs:195-201 | the highest fees, up to the limit |
| `Mempools.Mempool.ConfirmMined` | src/mempool.rs:204-218 | keeps exactly the transactions whose hash is not mined, in their order, and rebuilds both indices |
| `Mempools.Mempool.Drain` | src/mempool.rs:221-228 | returns all transactions in order and leaves pool and indices empty |
| `Bip39.EntropyToMnemonic` | src/bip39.rs:9-70 | succeeds for exactly the five legal lengths, with the phrase whose word indices spell entropy and checksum |
| `Bip39.ChecksumIsTop` | src/bip39.rs:9-70 | the checksum is the top bits of the first byte of the digest |
| `Bip39.MnemonicToEntropy` | src/bip39.rs:73-123 | accepts exactly the phrases that encode some entropy and returns it; each error exactly when it applies |
| `Bip39.EntropyIsUnique` | src/bip39.rs:73-123 | a phrase encodes at most one entropy |
| `Bip39.PhraseIsUnique` | src/bip39.rs:9-70 | an entropy has at most one phrase |
| `Bip39.EntropyRoundTrip` | src/bip39.rs:175-186 | decoding an encoded entropy returns it, for all five lengths |
| `Bip39.PhraseRoundTrip` | src/bip39.rs:175-186 | encoding what an accepted phrase decodes to gives the same words |
| `SeedPhrase.WindowReadsNext` | src/wallet.rs:614-629 | the eleven bits read from the three-byte window are the next ones of the bit stream |
| `SeedPhrase.EntropyToMnemonic` | src/wallet.rs:602-633 | the sliding window writes the phrase that the standard prescribes |
| `TwoLists.PhrasesAgreeExactly` | src/wallet.rs:602-633 | for any two lists, both phrases of an entropy are spelled from its one index sequence, and are equal if and only if the lists agree at those indices |
| `TwoLists.BothEncoders` | src/wallet.rs:602-633 | the sliding-window and the streaming encoder on any 32 bytes: one index sequence, and the same words exactly where the lists agree on it |
| `SeedPhrase.WordRead` | src/wallet.rs:652-660 | what a word does to the unmasked 64-bit buffer, with the twelfth bit of the extra word falling on the word before |
| `SeedPhrase.MnemonicToEntropy` | src/wallet.rs:641-677 | accepts exactly the 24 known words that read as some entropy with its checksum, and returns it |
| `SeedPhrase.EntropyRoundTrip` | src/wallet.rs:602-677 | what the wallet writes, it reads back |
| `SeedPhrase.PhraseComesBackExactly` | src/wallet.rs:641-677 | encoding what was decoded gives the same phrase if and only if the phrase does not use the 2049th word |
| `SeedPhrase.ExtraWordExample` | src/wallet.rs:393-599 | a concrete accepted phrase that is never written |
| `TwoLists.WalletPhraseInBip39` | src/bip39.rs:73-123 | the streaming decoder reads a wallet phrase back if and only if the lists agree on it, and reports an unknown word exactly if its list lacks one |
| `TwoLists.Bip39PhraseInWallet` | src/wallet.rs:641-677 | the wallet reads a standard phrase back if and only if its own reading of the words, with the extra word as index 0, is the index sequence |
| `TwoLists.ExampleIndices` | src/bip39.rs:9-70 | an entropy whose first eleven bits are 163, the first index at which the two lists of the repository differ |
| `TwoLists.ListsDisagree` | src/wallet.rs:393-599 | for lists that differ there, the two encoders disagree on it and neither phrase is one of the other list |
| `Merkle.MerkleRootFromLeaves` | src/proof.rs:55-75 | the root by levels, with an odd last node paired with itself |
| `Merkle.SmallRoots` | src/proof.rs:55-75 | the roots of none, one, two and three leaves |
| `Merkle.ValidateBlockIntegrity` | src/store.rs:359-411 | passes exactly the blocks whose header names the root of their transactions, if any, which are not their own parent, carry a proof hash and keep the emission bound; its own loop computes the same root as the proof of work's |
| `Merkle.PairByIndex` | src/main.rs:587-597 | one level of the index-based loop is one level of the chunk-based one |
| `Merkle.RootBinds` | src/proof.rs:55-75 | with an injective pair hash, lists with the same root are equal if and only if they are equally long |
| `MerkleBinding.RootsAgreeExactly` | src/proof.rs:55-75 | with an injective pair hash and leaves that are not hashes of pairs, lists of any lengths have the same root if and only if their self-paired expansions are the same |
| `MerkleBinding.UnnoticedExactly` | src/store.rs:360-384 | replacing the transactions of an intact block goes unnoticed if and only if none are left or the expansions of the hashes are the same |
| `MerkleBinding.TamperingIsNoticed` | src/store.rs:360-384 | where no hash repeats, every change that leaves a transaction is noticed: modified, added, removed or reordered |
| `MerkleBinding.SameCountIsNoticed` | src/store.rs:360-384 | among as many transactions exactly those with the same hashes pass, whatever the leaves |
| `MerkleBinding.RepeatedLastExample` | src/store.rs:366-383 | three leaves and the same with the last one repeated have one expansion |
| `ProofOfWork.AccessInPlace` | src/proof.rs:115-121 | one access in place: mix with the indexed element, then hash |
| `ProofOfWork.TargetExactly` | src/proof.rs:30-33 | a digest meets a difficulty if and only if the product of its first eight bytes with the difficulty fits 64 bits |
| `ProofOfWork.ReadsLittleEndian` | src/proof.rs:23-28 | these bytes are read from the lowest |
| `ProofOfWork.OneAccessEach` | src/proof.rs:35-37 | the walk has as many accesses as the difficulty says, below the value at which the product wraps |
| `ProofOfWork.TraceAt` | src/proof.rs:122-129 | sample `j` stands at the `j`-th multiple of the interval with the mix after that access |
| `ProofOfWork.Mine` | src/proof.rs:99-153 | returns the first nonce that solves, with its honest trace and root; nothing exactly if no nonce solves |
| `ProofOfWork.SampleIndices` | src/proof.rs:86-97 | distinct indices in range, as many as asked for; all of them if there are no more |
| `ProofOfWork.Verify` | src/proof.rs:155-264 | what is accepted in each of the three modes, exactly |
| `ProofOfWork.HonestIsAccepted` | src/proof.rs:99-264 | with a clock that does not run backwards, every mined solution is accepted with trace and root, with the trace alone and stripped, for every difficulty and every choice of samples |
| `ProofOfWork.VerifyBlock` | src/p2p.rs:365-377 | a peer accepts the proof of a block if and only if its nonce solves for its proof hash, whatever root and time it carries |
| `ProofOfWork.MineForPeers` | src/p2p.rs:365-377 | round trip: a block into which a mined nonce and root are put is accepted by a peer, and one is mined exactly if one of the nonces solves |
| `ProofOfWork.SampledMeansExactly` | src/proof.rs:187-234 | with the last sample picked, acceptance means exactly: root and picked samples are right, and the walk to the later of its end and the last sample ends below the target |
| `ProofOfWork.TraceMeansExactly` | src/proof.rs:236-264 | a trace without a root is accepted if and only if the walk ends below the target and every multiple of the interval has its sample, with the mix after that access and a time not before the last |
| `ProofOfWork.AcceptedIsWork` | src/proof.rs:155-264 | acceptance stands for a full walk below the target if there is no root, or if the last sample was picked and stands within the walk |
| `ProofOfWork.UnpickedLastIsFree` | src/proof.rs:206-234 | a last sample that is not picked may carry any mix, with the root to match: acceptance then means that the rest of the walk from that mix ends below the target |
| `PastTheEnd.UnpickedExample` | src/proof.rs:206-234 | a solution with one sample more than are picked that is accepted and does not solve |
| `ProofOfWork.PastTheEndExactly` | src/proof.rs:206-234 | a sample past the end is accepted if and only if the longer walk up to it ends below the target |
| `PastTheEnd.PastTheEndExample` | src/proof.rs:206-234 | for every difficulty above one, a hashing for which such a solution is accepted and does not solve |
| `ProofOfWork.RootCommitsToTrace` | src/proof.rs:191-201 | accepted traces of one length under one root carry the same samples |
| `CompactBlocks.ReconstructBlock` | src/p2p.rs:206-235 | succeeds if and only if every short id is in the pool and none repeats; answers each with a pool transaction |
| `CompactBlocks.RoundTrip` | src/p2p.rs:174-235 | without colliding short ids, a block comes back if and only if its other transactions are distinct and in the pool, then with the same header, proof hash and transaction hashes, and as intact as before |
| `Pool.MiningPool.RegisterMiner` | src/pool.rs:46-57 | a known miner's address changes, an unknown one is added; share counts stay |
| `Pool.MiningPool.SubmitShare` | src/pool.rs:60-74 | the total counts every share, the miner's only if registered |
| `Pool.MiningPool.CalculateRewards` | src/pool.rs:77-91 | after any history the payouts sum to at most the reward less its fee; if every submitter was registered and nothing saturates, less than one unit per paid miner is kept back |
| `Pool.FeeIsOnePercent` | src/pool.rs:80-82 | the pool keeps one part in a hundred, rounded down |
| `Pool.PaidInProportion` | src/pool.rs:84-90 | each miner with shares is paid once, in order, its part of the net reward rounded down, or less where the product does not fit 64 bits |

## Left out

- The libp2p swarm, gossip, HTTP, the command line, timers and file formats: input and output.
- `mine_block_with_difficulty` as a ledger step (src/main.rs:425-616): it spends inputs on the live state before the block is applied again. The receive path is modelled instead.
- The link from a mined header hash to `proof_hash`: the miner solves the header hash before all fields are filled in, peers check `proof_hash`. The proof-of-work results are about `mine` and `verify`, and in a node the check is an arbitrary predicate of the block.
- Unforgeability, anonymity and binding of the cryptography, curve arithmetic, SHA, Keccak and ed25519 internals.
- The `f64` economics (`reward.rs`, `vr.rs`, `difficulty.rs`, `commitment.rs`), except the integer lock height of the coinbase.
- DAG generation and `bootstrap_table.rs`: the DAG is any non-empty sequence of elements.
- Reorganisations after a restart over blocks that spend old outputs: their diffs are not stored; `FallbackRestoresExactly` says when the substitute works.
- The fast path of `load_chain_store` (src/store.rs:413-455), which trusts the stored tree.
- The orphan retry in src/shuffle.rs:60-66: the resolved blocks meet the early return for stored blocks.
- `PeerManager` and the token bucket in src/p2p.rs: bookkeeping with easy invariants.
- Narrowing casts of indices to `u32` and of sizes to `usize`: transactions are taken to have fewer than 2^32 outputs, and sizes to fit 64 bits.
- Out-of-range indexing that panics in the source is an error result: ragged rings in the ledger's check, and a wallet ring without room for the real index.
- The diff is always tracked: the untracked call of the source behaves as the tracked one with its diff dropped.
- The `commitments` of a block body, which no modelled code reads and which compact blocks drop.
- Transaction hashes and signed messages are taken of the fields, not of their concatenated bytes, so that encodings that coincide across field boundaries are not represented.
- The challenge hash is taken to be injective where a result says so; in the source it is reduced modulo the group order.
- Wallets.CreatePrivateTx: what it promises about acceptance needs selected amounts that sum to less than 2^64, because the source adds them up unchecked; selection itself is modelled with sums that wrap.
- Wallets.ScanUtxos: the iteration order of the UTXO map is a parameter that enumerates it.
- Rebuild.RebuildChainStore: requires that log blocks of height 0 have no parent, because a store that starts from such a block would not be a tree with that root.
- ChainStores.ChainStore.constructor: requires height 0 and no parent of the first block, for the same reason.
- ChainStores.ChainStore.ResolveOrphans: requires the parent to be stored, as its only caller guarantees.
- ChainStores.ChainStore.AddBlockWithDiff: requires a diff that restores each outpoint with one entry, as every diff of the apply loop does, so that the order of its hash map has no say.
- Runs.LedgerIsReplay: says nothing about runs in which a step applies a block that is not reversible; there the code does not restore the ledger (`UnwoundExactly`).
- NodeProofs.ReorgKeeps: says nothing about plans with a block that is not reversible where it applies, for the same reason.
- NodeProofs.ApplyReplays: as NodeProofs.ReorgKeeps; the diffs that it stores are promised to undo their blocks, which only reversible blocks guarantee.
- NodeProofs.ReceiveKeeps: as NodeProofs.ReorgKeeps; what a step keeps for any block is in NodeProofs.ReceiveKeepsStore.
- DoubleSpend.NoDoubleSpend: needs the same, because it speaks of the ledger of a node; for the replay of a branch there is no such hypothesis (`ReplaySpendsOnce`).
- LedgerProofs.ApplyIsAtomic: is about reversible blocks only; `AtomicExactly` and `UndoneExactlyIfReversible` cover the others.
- Conservation.SupplyIsConservedExactly: needs the same; for the replay of a branch there is no such hypothesis (`ReplayAccounts`).
- OutputsOnce.NoOutputIsSpentTwice: says nothing about trees in which an outpoint is made twice; there the outpoint can be spent once for each time it is made.
- Ties.OneTipExactly: is about trees of valid blocks; with invalid ones among them, one heaviest valid block still suffices (`DeliveryOrderIsIrrelevant`).
- Mempools.Mempool.Submit: the lock around the global pool is not modelled; operations are sequential.
- ProofOfWork.HonestIsAccepted: assumes a clock that does not run backwards, since one mode compares the recorded times.
- Pool.MiningPool.SubmitShare: share counters are unbounded, because 2^64 shares cannot be submitted.
