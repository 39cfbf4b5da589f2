/** Entries of the unspent transaction output set (blockchain/utxoviewpoint.go). */
module UtxoEntries {
  import opened Transactions

  datatype UtxoOutput = UtxoOutput(amount: int, scriptVersion: nat, pkScript: Bytes, compressed: bool, spent: bool)

  /** What is known about the transaction an entry belongs to. */
  datatype Header = Header(height: nat, index: nat, isCoinBase: bool, hasExpiry: bool, txType: TxType,
                           stakeExtra: Bytes)

  datatype UtxoEntry = UtxoEntry(sparseOutputs: map<nat, UtxoOutput>, header: Header, txVersion: nat, modified: bool)
  {
    predicate IsUnspent(i: nat) {
      i in sparseOutputs && !sparseOutputs[i].spent
    }

    predicate IsFullySpent() {
      forall i :: i in sparseOutputs ==> sparseOutputs[i].spent
    }
  }
}
