/** The block-oriented backing store the cache sits in front of. */
module Disk {
  import opened Bytes

  /** Size in bytes of every block (c_blockSize). */
  const BlockSize: nat := 512

  /** Block number to contents; a block that was never written reads as zeros. */
  type Store = map<int, seq<byte>>

  /** One blocking request issued to the backing store. */
  datatype DiskOp = DiskRead(block: int) | DiskWrite(block: int, bytes: seq<byte>)

  predicate WellFormedStore(store: Store)
  {
    forall b :: b in store ==> |store[b]| == BlockSize
  }

  function StoreRead(store: Store, b: int): (r: seq<byte>)
    requires WellFormedStore(store)
    ensures |r| == BlockSize
  {
    if b in store then store[b] else Zeros(BlockSize)
  }
}
