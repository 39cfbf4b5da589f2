/** Transactions and blocks as the chain engine sees them. */
module Transactions {

  type Byte = x: int | 0 <= x < 256
  type Bytes = seq<Byte>

  datatype Hash = Hash(digest: int)

  datatype TxType = Regular | SStx | SSGen | SSRtx

  /** `unspendable` is the verdict of the script package on the output. */
  datatype TxOut = TxOut(value: int, version: nat, pkScript: Bytes, unspendable: bool)

  /** A transaction hash together with the content it commits to.  Two transactions with the same
      TxId have the same outputs, type and expiry: hashes are collision free.  The witness data of
      the inputs (TxIn) is not committed to, as in the source. */
  datatype TxId = TxId(hash: Hash, version: nat, hasExpiry: bool, txType: TxType, isCoinBase: bool, outs: seq<TxOut>)

  datatype OutPoint = OutPoint(id: TxId, index: nat)

  /** An input with its fraud-proof fields: the amount, height and block index it claims to spend. */
  datatype TxIn = TxIn(prevOut: OutPoint, valueIn: int, blockHeight: nat, blockIndex: nat)

  datatype Tx = Tx(id: TxId, ins: seq<TxIn>)

  datatype Block = Block(approvesParent: bool, stxs: seq<Tx>, txs: seq<Tx>)
}
