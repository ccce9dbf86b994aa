/**
 * The bookkeeping of BufferCache that lives under its lock: the recency-ordered
 * list of resident slots (m_cache, least recently used first) and the set of block
 * numbers some caller is fetching or storing (m_diskQueue). Each function here is
 * one step done while holding the lock.
 */
module CachePool {
  import opened Wrappers
  import opened Disk
  import opened Holder

  /** Number of slots the cache owns (c_cacheBlocks). */
  const CacheBlocks: nat := 256

  datatype Cache = Cache(pool: seq<BlockHolder>, inFlight: set<int>)

  /**
   * Which bookkeeping a miss does for its victim. AsWritten is the source: only the
   * requested block goes in flight. GuardedWriteBack also keeps a dirty victim's old
   * block number in flight until the miss completes, so nobody can fetch that block
   * while its write-back is still pending.
   */
  datatype Protocol = AsWritten | GuardedWriteBack

  /** The lock-held half of a miss: the pool without its victim, the victim, and the extra id guarded. */
  datatype Miss = Miss(cache: Cache, victim: BlockHolder, guard: Option<int>)

  /** The outcome of the first locked section of PerformBlockOperation. */
  datatype Entry =
    | Served(cache: Cache, holder: BlockHolder)  // a hit: the hit action ran and the slot is now most recent
    | Claimed(miss: Miss)                        // a miss: the victim is detached for disk work
    | Wait                                       // the block is in flight, or no slot is free: retry later

  /** The block numbers of the pool, least recently used first. */
  function Ids(pool: seq<BlockHolder>): (ids: seq<int>)
    ensures |ids| == |pool|
    ensures forall i :: 0 <= i < |pool| ==> ids[i] == pool[i].blockNum
  {
    seq(|pool|, i requires 0 <= i < |pool| => pool[i].blockNum)
  }

  /** No block number other than the empty sentinel is held by two slots of the pool. */
  predicate Unique(pool: seq<BlockHolder>)
  {
    forall i, j :: 0 <= i < j < |pool| && pool[i].blockNum == pool[j].blockNum ==> pool[i].blockNum == NoBlock
  }

  function GuardIds(guard: Option<int>): set<int>
  {
    if guard.Some? then {guard.value} else {}
  }

  /** The constructor: CacheBlocks empty, clean slots and nothing in flight. */
  function NewCache(): (c: Cache)
    ensures |c.pool| == CacheBlocks && c.inFlight == {}
    ensures forall i :: 0 <= i < |c.pool| ==> c.pool[i].blockNum == NoBlock && !c.pool[i].dirty && WellFormed(c.pool[i])
  {
    Cache(seq(CacheBlocks, _ => EmptyHolder()), {})
  }

  /** GetHolderForBlockNumInCache: the position of the first slot holding b, if any. */
  function Lookup(pool: seq<BlockHolder>, b: int): (r: Option<nat>)
    ensures r.Some? ==> r.value < |pool| && pool[r.value].blockNum == b
    ensures r.Some? ==> forall j :: 0 <= j < r.value ==> pool[j].blockNum != b
    ensures r.None? <==> forall j :: 0 <= j < |pool| ==> pool[j].blockNum != b
  {
    if |pool| == 0 then None
    else if pool[0].blockNum == b then Some(0)
    else match Lookup(pool[1..], b)
      case None => None
      case Some(k) => Some(k + 1)
  }

  /**
   * UpdateLastUsedTime: the slot at position i, replaced by h, moves to the
   * most-recently-used end; every other slot keeps its relative order.
   */
  function UpdateLastUsedTime(pool: seq<BlockHolder>, i: nat, h: BlockHolder): (r: seq<BlockHolder>)
    requires i < |pool|
    ensures |r| == |pool| && r[|r| - 1] == h
    ensures forall j :: 0 <= j < i ==> r[j] == pool[j]
    ensures forall j :: i <= j < |pool| - 1 ==> r[j] == pool[j + 1]
    ensures forall x :: x in r ==> x in pool || x == h
  {
    pool[..i] + pool[i + 1..] + [h]
  }

  /** The id a miss keeps in flight for its victim's write-back, if the protocol asks for one. */
  function WriteBackGuard(victim: BlockHolder, proto: Protocol): (g: Option<int>)
    ensures g.Some? <==> proto == GuardedWriteBack && victim.dirty
    ensures g.Some? ==> g.value == victim.blockNum
  {
    if proto == GuardedWriteBack && victim.dirty then Some(victim.blockNum) else None
  }

  /**
   * GetOldestCacheItem plus the in-flight registration of a miss: the head (least
   * recently used) slot is detached and b joins the in-flight set.
   */
  function BeginMiss(c: Cache, b: int, proto: Protocol): (r: Miss)
    requires |c.pool| > 0
    ensures r.victim == c.pool[0] && r.cache.pool == c.pool[1..]
    ensures |r.cache.pool| == |c.pool| - 1
    ensures r.guard == WriteBackGuard(c.pool[0], proto)
    ensures r.cache.inFlight == c.inFlight + {b} + GuardIds(r.guard)
  {
    var g := WriteBackGuard(c.pool[0], proto);
    Miss(Cache(c.pool[1..], c.inFlight + {b} + GuardIds(g)), c.pool[0], g)
  }

  /**
   * The second locked section: AddMostRecentlyUsed of the refilled slot, and removal
   * of its (new) block number, plus any guarded id, from the in-flight set.
   */
  function CompleteMiss(c: Cache, h: BlockHolder, guard: Option<int>): (r: Cache)
    ensures r.pool == c.pool + [h] && |r.pool| == |c.pool| + 1
    ensures r.inFlight == c.inFlight - {h.blockNum} - GuardIds(guard)
    ensures h.blockNum !in r.inFlight
  {
    Cache(c.pool + [h], c.inFlight - {h.blockNum} - GuardIds(guard))
  }

  /**
   * The first locked section of PerformBlockOperation for block b: a hit runs the
   * hit action and refreshes the slot; a miss on a block nobody is fetching claims
   * the least recently used slot; otherwise the caller must wait and retry.
   */
  function Enter(c: Cache, b: int, acc: Access, proto: Protocol): (r: Entry)
    requires acc.Valid()
    ensures r.Served? <==> Lookup(c.pool, b).Some?
    ensures r.Wait? <==> Lookup(c.pool, b).None? && (|c.pool| == 0 || b in c.inFlight)
    ensures r.Served? ==> r.cache.inFlight == c.inFlight && |r.cache.pool| == |c.pool|
    ensures r.Served? ==> r.holder.blockNum == b && r.cache.pool[|c.pool| - 1] == r.holder
    ensures r.Claimed? ==> r.miss.victim == c.pool[0] && r.miss.cache.pool == c.pool[1..]
    ensures r.Claimed? ==> b !in c.inFlight && b in r.miss.cache.inFlight
  {
    match Lookup(c.pool, b)
    case Some(i) =>
      var h := HitAction(c.pool[i], acc);
      Served(Cache(UpdateLastUsedTime(c.pool, i, h), c.inFlight), h)
    case None =>
      if |c.pool| == 0 || b in c.inFlight then Wait
      else Claimed(BeginMiss(c, b, proto))
  }

  /** A hit neither adds nor drops a block: the pool holds the same block numbers afterwards. */
  lemma {:induction false} HitKeepsBlockNumbers(pool: seq<BlockHolder>, i: nat, h: BlockHolder)
    requires i < |pool| && h.blockNum == pool[i].blockNum
    ensures multiset(Ids(UpdateLastUsedTime(pool, i, h))) == multiset(Ids(pool))
  {
    var r := UpdateLastUsedTime(pool, i, h);
    assert Ids(r) == Ids(pool)[..i] + Ids(pool)[i + 1..] + [pool[i].blockNum];
    assert Ids(pool) == Ids(pool)[..i] + [pool[i].blockNum] + Ids(pool)[i + 1..];
  }

  /** A hit keeps the pool free of duplicate block numbers. */
  lemma HitKeepsUnique(pool: seq<BlockHolder>, i: nat, h: BlockHolder)
    requires i < |pool| && h.blockNum == pool[i].blockNum && Unique(pool)
    ensures Unique(UpdateLastUsedTime(pool, i, h))
  {
    var r := UpdateLastUsedTime(pool, i, h);
    var n := |pool|;
    forall j, k | 0 <= j < k < n && r[j].blockNum == r[k].blockNum
      ensures r[j].blockNum == NoBlock
    {
      var j' := if j < i then j else j + 1;
      var k' := if k == n - 1 then i else if k < i then k else k + 1;
      assert r[j].blockNum == pool[j'].blockNum;
      assert r[k].blockNum == pool[k'].blockNum;
      assert j' != k';
      if j' < k' {
        assert pool[j'].blockNum == NoBlock;
      } else {
        assert pool[k'].blockNum == NoBlock;
      }
    }
  }

  /** Dropping the least recently used slot keeps the pool free of repeats. */
  lemma UniqueDrop(pool: seq<BlockHolder>)
    requires Unique(pool) && |pool| > 0
    ensures Unique(pool[1..])
  {
    forall i, j | 0 <= i < j < |pool| - 1 && pool[1..][i].blockNum == pool[1..][j].blockNum
      ensures pool[1..][i].blockNum == NoBlock
    {
      assert pool[1..][i] == pool[i + 1] && pool[1..][j] == pool[j + 1];
    }
  }

  /** In a pool without repeats, a real head block is absent from the rest of the pool. */
  lemma HeadNotInTail(pool: seq<BlockHolder>)
    requires Unique(pool) && |pool| > 0 && pool[0].blockNum != NoBlock
    ensures Lookup(pool[1..], pool[0].blockNum).None?
  {
    forall j | 0 <= j < |pool| - 1 ensures pool[1..][j].blockNum != pool[0].blockNum {
      assert pool[1..][j] == pool[j + 1];
    }
  }

  /** A pool without repeats finds block b exactly where some slot holds it. */
  lemma LookupFindsUnique(pool: seq<BlockHolder>, b: int, k: nat)
    requires Unique(pool) && b != NoBlock && k < |pool| && pool[k].blockNum == b
    ensures Lookup(pool, b) == Some(k)
  {
  }
}
