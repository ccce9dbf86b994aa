/**
 * One cache slot (BlockHolder in Testbed3D/BufferCache.cs): a block number, a
 * BlockSize-byte buffer and a dirty bit, together with the blocking disk work a
 * slot does for itself. Disk calls are modelled by passing the store in and
 * returning the updated store plus the list of requests issued.
 */
module Holder {
  import opened Bytes
  import opened Disk

  /** Block number of a slot that has never held a block. */
  const NoBlock: int := -1

  datatype BlockHolder = BlockHolder(blockNum: int, data: seq<byte>, dirty: bool)

  /** What a caller asks of the cache: read a block, or overwrite it with new bytes. */
  datatype Access = ReadAccess | WriteAccess(bytes: seq<byte>)
  {
    predicate Valid()
    {
      WriteAccess? ==> |bytes| == BlockSize
    }
  }

  /** A slot and a store after some disk work, with the requests it issued in order. */
  datatype IoResult = IoResult(holder: BlockHolder, store: Store, ops: seq<DiskOp>)

  /** A slot's shape never changes: full-size buffer, and an empty slot is never dirty. */
  predicate WellFormed(h: BlockHolder)
  {
    && |h.data| == BlockSize
    && h.blockNum >= NoBlock
    && (h.blockNum == NoBlock ==> !h.dirty)
  }

  /** A clean slot that holds a block holds exactly the store's bytes for it. */
  predicate Mirrors(h: BlockHolder, store: Store)
    requires WellFormedStore(store)
  {
    h.blockNum != NoBlock && !h.dirty ==> h.data == StoreRead(store, h.blockNum)
  }

  /** The store after a write-back of h: h's bytes under h's number iff h was dirty, all else kept. */
  ghost predicate WroteBack(h: BlockHolder, store: Store, store': Store)
    requires WellFormedStore(store) && WellFormedStore(store')
  {
    && (h.dirty ==> StoreRead(store', h.blockNum) == h.data)
    && (!h.dirty ==> store' == store)
    && (forall b :: b != h.blockNum ==> StoreRead(store', b) == StoreRead(store, b))
  }

  /** The disk requests of a write-back: one write of the slot's bytes iff it is dirty. */
  function WriteBackOps(h: BlockHolder): (ops: seq<DiskOp>)
    ensures |ops| <= 1
    ensures ops != [] <==> h.dirty
    ensures h.dirty ==> ops[0] == DiskWrite(h.blockNum, h.data)
  {
    if h.dirty then [DiskWrite(h.blockNum, h.data)] else []
  }

  /** The slot as built by the constructor; its buffer is zero-filled. */
  function EmptyHolder(): (h: BlockHolder)
    ensures WellFormed(h) && h.blockNum == NoBlock && !h.dirty
  {
    BlockHolder(NoBlock, Zeros(BlockSize), false)
  }

  /** SetData: replaces the buffer and marks the slot dirty; the block number is kept. */
  function SetData(h: BlockHolder, data: seq<byte>): (r: BlockHolder)
    requires |data| == BlockSize
    ensures r.blockNum == h.blockNum && r.data == data && r.dirty
    ensures h.blockNum >= 0 ==> WellFormed(r)
  {
    h.(data := data, dirty := true)
  }

  /** WriteDataToDisk: writes the buffer back under the slot's number if dirty, then cleans the slot. */
  function WriteDataToDisk(h: BlockHolder, store: Store): (r: IoResult)
    requires WellFormed(h) && WellFormedStore(store)
    ensures WellFormedStore(r.store) && WellFormed(r.holder)
    ensures r.holder.blockNum == h.blockNum && r.holder.data == h.data && !r.holder.dirty
    ensures WroteBack(h, store, r.store)
    ensures r.ops == WriteBackOps(h)
    ensures h.dirty || Mirrors(h, store) ==> Mirrors(r.holder, r.store)
  {
    if h.dirty then
      IoResult(h.(dirty := false), store[h.blockNum := h.data], [DiskWrite(h.blockNum, h.data)])
    else
      IoResult(h, store, [])
  }

  /**
   * PopulateHolderFromDisk: write-back of the old contents, then a read of block b
   * into the buffer. The slot comes out clean, numbered b, and mirroring the store.
   */
  function PopulateHolderFromDisk(h: BlockHolder, store: Store, b: int): (r: IoResult)
    requires WellFormed(h) && WellFormedStore(store) && b >= 0
    ensures WellFormedStore(r.store) && WellFormed(r.holder)
    ensures r.holder.blockNum == b && !r.holder.dirty
    ensures r.holder.data == StoreRead(r.store, b)
    ensures b != h.blockNum ==> r.holder.data == StoreRead(store, b)
    ensures WroteBack(h, store, r.store)
    ensures r.ops == WriteBackOps(h) + [DiskRead(b)]
  {
    var w := WriteDataToDisk(h, store);
    IoResult(BlockHolder(b, StoreRead(w.store, b), false), w.store, w.ops + [DiskRead(b)])
  }

  /**
   * PopulateHolderWithData: write-back of the old contents, then the slot is
   * renumbered b and given the caller's bytes, dirty. Nothing is read from disk.
   */
  function PopulateHolderWithData(h: BlockHolder, store: Store, b: int, data: seq<byte>): (r: IoResult)
    requires WellFormed(h) && WellFormedStore(store) && b >= 0 && |data| == BlockSize
    ensures WellFormedStore(r.store) && WellFormed(r.holder)
    ensures r.holder == BlockHolder(b, data, true)
    ensures WroteBack(h, store, r.store)
    ensures r.ops == WriteBackOps(h)
  {
    var w := WriteDataToDisk(h, store);
    IoResult(SetData(w.holder.(blockNum := b), data), w.store, w.ops)
  }

  /** The cache-hit delegate of ReadBlock (nothing changes) and of WriteBlock (SetData). */
  function HitAction(h: BlockHolder, acc: Access): (r: BlockHolder)
    requires acc.Valid()
    ensures r.blockNum == h.blockNum
    ensures acc.ReadAccess? ==> r == h
    ensures acc.WriteAccess? ==> r.data == acc.bytes && r.dirty
  {
    match acc
    case ReadAccess => h
    case WriteAccess(d) => SetData(h, d)
  }

  /** The cache-miss delegate of ReadBlock (reload) and of WriteBlock (overwrite). */
  function MissAction(h: BlockHolder, store: Store, b: int, acc: Access): (r: IoResult)
    requires WellFormed(h) && WellFormedStore(store) && b >= 0 && acc.Valid()
    ensures WellFormedStore(r.store) && WellFormed(r.holder)
    ensures r.holder.blockNum == b
    ensures WroteBack(h, store, r.store)
    ensures acc.ReadAccess? ==> !r.holder.dirty && r.holder.data == StoreRead(r.store, b)
    ensures acc.WriteAccess? ==> r.holder.dirty && r.holder.data == acc.bytes
    ensures r.ops == WriteBackOps(h) + (if acc.ReadAccess? then [DiskRead(b)] else [])
  {
    match acc
    case ReadAccess => PopulateHolderFromDisk(h, store, b)
    case WriteAccess(d) => PopulateHolderWithData(h, store, b, d)
  }
}
