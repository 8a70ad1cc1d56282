/** What the memory pool admits, spelled out. */
module Admission {
  import opened Types
  import opened Ledger
  import opened Conservation
  import opened Acceptance
  import opened Mempools

  /** A transaction gets past the checks that do not look at the pool exactly if it has something in it, its inputs
      exist and are unspent, it pays out no more than it takes in, within 64 bits, and the ring that it names has
      signed it. */
  lemma AdmittedExactly(c: Crypto, l: LedgerState, tx: Transaction)
    ensures StatelessError(c, l, tx) == None <==>
              && (tx.inputs != [] || tx.outputs != [])
              && AllExist(l, tx.inputs) && NoneSpent(l, tx.inputs, 0)
              && (if tx.inputs == [] then PlainSum(tx.outputs, |tx.outputs|) < U64_LIMIT else Affordable(l, tx))
              && (tx.mlsag.Some? ==> Signed(c, l, tx))
  {
    hide CheckRing, Signed, InputSum, OutputSum, Validate;
    ValidatesExactly(l, tx);
    SignedExactly(c, l, tx);
    if Validate(l, tx) == None { FeeIsDifference(l, tx); }
    assert NoneSpent(l, tx.inputs, 0) <==> Images(tx) !! l.spent;
  }

  /** The fee of a transaction that validates is what its inputs hold beyond what its outputs pay, and nothing where
      it has no inputs. */
  lemma FeeIsDifference(l: LedgerState, tx: Transaction)
    requires Validate(l, tx) == None
    ensures AllExist(l, tx.inputs) && FeeOf(l, tx).Ok?
    ensures FeeOf(l, tx).value == if tx.inputs == [] then 0
                                  else InputAmounts(l, tx.inputs, |tx.inputs|) - PlainSum(tx.outputs, |tx.outputs|)
  {
    ValidatesExactly(l, tx);
    InputSumExactly(l, tx.inputs, 0, 0, false);
    OutputSumExactly(tx.outputs, 0, 0);
  }
}
