/** The transaction record (common/model/transaction.h). */
module Transactions {
  import opened Ternary
  import opened Sponges

  type UInt64 = x: int | 0 <= x < 0x1_0000_0000_0000_0000

  type Int64 = x: int | -0x8000_0000_0000_0000 <= x < 0x8000_0000_0000_0000

  /** int64_t without its least value, on which llabs is undefined. */
  type Value = x: int | -0x8000_0000_0000_0000 < x < 0x8000_0000_0000_0000

  /** signature_or_message is held as its 27 blocks of 243 trits. */
  datatype Transaction = Transaction(
    signature: seq<Hash>,
    address: Hash,
    value: Value,
    obsoleteTag: seq<Trit>,
    timestamp: UInt64,
    currentIndex: UInt64,
    lastIndex: UInt64,
    bundle: Hash,
    trunk: Hash,
    branch: Hash,
    tag: seq<Trit>,
    attachmentTimestamp: UInt64,
    attachmentTimestampLower: UInt64,
    attachmentTimestampUpper: UInt64,
    nonce: seq<Trit>)
  {
    /** Every buffer has its declared number of trits. */
    predicate Sized()
    {
      && |signature| == 27 && (forall i :: 0 <= i < 27 ==> |signature[i].trits| == HASH_LENGTH)
      && |address.trits| == HASH_LENGTH && |bundle.trits| == HASH_LENGTH
      && |trunk.trits| == HASH_LENGTH && |branch.trits| == HASH_LENGTH
      && |obsoleteTag| == 81 && |tag| == 81 && |nonce| == 81
    }
  }

  ghost predicate AllSized(txs: seq<Transaction>)
  {
    forall i :: 0 <= i < |txs| ==> txs[i].Sized()
  }
}
