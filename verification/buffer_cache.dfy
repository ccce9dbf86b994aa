/**
 * BufferCache as one caller sees it (Testbed3D/BufferCache.cs): ReadBlock and
 * WriteBlock run to completion with no other caller in between, on a cache whose
 * misses keep a dirty victim's old block in flight (the guarded protocol). Between
 * operations the cache is quiescent: nothing in flight, bookkeeping intact, clean
 * slots mirroring the disk.
 */
module BufferCache {
  import opened Wrappers
  import opened Bytes
  import opened Disk
  import opened Holder
  import opened CachePool
  import opened CacheMachine
  import opened Recency

  /** The cache and the disk after an operation, the bytes it returned, and the disk requests it issued. */
  datatype Outcome = Outcome(cache: Cache, store: Store, data: seq<byte>, ops: seq<DiskOp>)

  /** A cache between operations. */
  predicate Quiescent(c: Cache, store: Store)
  {
    && Inv(Machine(c, map[], store), GuardedWriteBack)
    && Coherent(Machine(c, map[], store))
  }

  /** What a reader of block x is owed: the resident copy if there is one, else the disk's bytes. */
  function View(c: Cache, store: Store, x: nat): seq<byte>
    requires WellFormedStore(store)
  {
    match Lookup(c.pool, x)
    case Some(i) => c.pool[i].data
    case None => StoreRead(store, x)
  }

  /** The machine steps one caller takes for one operation on block b. */
  function OpSteps(b: nat, acc: Access): seq<Step>
  {
    [Begin(b, acc), Transfer(b), Finish(b)]
  }

  /**
   * PerformBlockOperation with no other caller active: a hit runs the hit action and
   * refreshes the slot; a miss detaches the least recently used slot, runs the miss
   * action on it (write-back, then read or overwrite) and appends it as most recent.
   *
   * A hit makes the slot the most recently used one, keeps every other slot in its
   * order and does no disk work. A miss evicts exactly the least recently used slot:
   * it writes that slot back iff it is dirty, reads b from disk iff the operation is
   * a read, and appends b as the most recently used slot; a write-miss leaves b dirty,
   * its disk write deferred.
   */
  function PerformBlockOperation(c: Cache, store: Store, b: nat, acc: Access): (r: Outcome)
    requires Quiescent(c, store) && acc.Valid()
    ensures WellFormedStore(r.store) && |r.cache.pool| == |c.pool|
    ensures acc.ReadAccess? ==> r.data == View(c, store, b)
    ensures acc.WriteAccess? ==> r.data == acc.bytes
    ensures Lookup(c.pool, b).Some? ==>
              var i := Lookup(c.pool, b).value;
              && r.cache.pool[..|c.pool| - 1] == c.pool[..i] + c.pool[i + 1..]
              && r.cache.pool[|c.pool| - 1].blockNum == b
              && r.store == store && r.ops == []
    ensures Lookup(c.pool, b).None? ==>
              && |c.pool| > 0
              && r.cache.pool[..|c.pool| - 1] == c.pool[1..]
              && r.cache.pool[|c.pool| - 1].blockNum == b
              && r.cache.pool[|c.pool| - 1].dirty == acc.WriteAccess?
              && r.ops == WriteBackOps(c.pool[0]) + (if acc.ReadAccess? then [DiskRead(b)] else [])
  {
    match Lookup(c.pool, b)
    case Some(i) =>
      var h := HitAction(c.pool[i], acc);
      Outcome(Cache(UpdateLastUsedTime(c.pool, i, h), c.inFlight), store, h.data, [])
    case None =>
      assert c.pool[0] in c.pool;
      var miss := BeginMiss(c, b, GuardedWriteBack);
      var io := MissAction(miss.victim, store, b, acc);
      Outcome(CompleteMiss(miss.cache, io.holder, miss.guard), io.store, io.holder.data, io.ops)
  }

  /** ReadBlock: the block's bytes, from the cache or, on a miss, from the disk. */
  function ReadBlock(c: Cache, store: Store, b: nat): (r: Outcome)
    requires Quiescent(c, store)
    ensures r.data == View(c, store, b)
    ensures Quiescent(r.cache, r.store)
    ensures forall x: nat :: View(r.cache, r.store, x) == View(c, store, x)
  {
    PerformKeepsQuiescent(c, store, b, ReadAccess);
    forall x: nat ensures View(PerformBlockOperation(c, store, b, ReadAccess).cache,
                               PerformBlockOperation(c, store, b, ReadAccess).store, x) == View(c, store, x) {
      PerformUpdatesView(c, store, b, ReadAccess, x);
    }
    PerformBlockOperation(c, store, b, ReadAccess)
  }

  /** WriteBlock: block b now reads back as data; every other block reads as before. */
  function WriteBlock(c: Cache, store: Store, b: nat, data: seq<byte>): (r: Outcome)
    requires Quiescent(c, store) && |data| == BlockSize
    ensures Quiescent(r.cache, r.store)
    ensures View(r.cache, r.store, b) == data
    ensures forall x: nat :: x != b ==> View(r.cache, r.store, x) == View(c, store, x)
  {
    var acc := WriteAccess(data);
    PerformKeepsQuiescent(c, store, b, acc);
    forall x: nat ensures View(PerformBlockOperation(c, store, b, acc).cache,
                               PerformBlockOperation(c, store, b, acc).store, x)
                          == (if x == b then data else View(c, store, x)) {
      PerformUpdatesView(c, store, b, acc, x);
    }
    PerformBlockOperation(c, store, b, acc)
  }

  /** What the caller of ReadBlock holds afterwards: the cache, the disk, the status and its own buffer. */
  datatype CallerRead = CallerRead(cache: Cache, store: Store, status: int, buffer: seq<byte>)

  /**
   * ReadBlock as written: both delegates assign the block's bytes to ReadBlock's
   * own parameter, a copy of the caller's array reference, so the caller's buffer
   * comes back exactly as it was passed; the status is always 0.
   */
  function ReadBlockAsWritten(c: Cache, store: Store, buffer: seq<byte>, b: nat): (r: CallerRead)
    requires Quiescent(c, store)
    ensures Quiescent(r.cache, r.store) && r.status == 0
    ensures r.buffer == buffer
  {
    var out := ReadBlock(c, store, b);
    CallerRead(out.cache, out.store, 0, buffer)
  }

  /** As written, a caller whose buffer does not already hold the block never receives the block's bytes. */
  lemma ReadBlockAsWrittenLosesData(c: Cache, store: Store, buffer: seq<byte>, b: nat)
    requires Quiescent(c, store) && buffer != View(c, store, b)
    ensures ReadBlockAsWritten(c, store, buffer, b).buffer != ReadBlock(c, store, b).data
  {
  }

  /**
   * The constructor, over a given disk: every slot empty and clean, nothing in
   * flight, and every block shown exactly as the disk holds it.
   */
  function NewBufferCache(store: Store): (c: Cache)
    requires WellFormedStore(store)
    ensures Quiescent(c, store)
    ensures |c.pool| == CacheBlocks && c.inFlight == {}
    ensures forall i :: 0 <= i < |c.pool| ==> c.pool[i].blockNum == NoBlock && !c.pool[i].dirty
    ensures forall x: nat :: View(c, store, x) == StoreRead(store, x)
  {
    Init(store, GuardedWriteBack).cache
  }

  /** One operation is exactly one caller's Begin, Transfer and Finish run back to back. */
  lemma PerformIsRun(c: Cache, store: Store, b: nat, acc: Access)
    requires Quiescent(c, store) && acc.Valid()
    ensures var r := PerformBlockOperation(c, store, b, acc);
            Machine(r.cache, map[], r.store) == Run(Machine(c, map[], store), OpSteps(b, acc), GuardedWriteBack)
  {
    assert Guards(map[]) == {};
    match Lookup(c.pool, b)
    case Some(i) => {
      HitIsRun(c, store, b, acc, i);
    }
    case None => {
      assert c.pool[0] in c.pool;
      MissIsRun(c, store, b, acc);
    }
  }

  lemma HitIsRun(c: Cache, store: Store, b: nat, acc: Access, i: nat)
    requires WellFormedStore(store) && acc.Valid() && Lookup(c.pool, b) == Some(i)
    ensures var h := HitAction(c.pool[i], acc);
            Run(Machine(c, map[], store), OpSteps(b, acc), GuardedWriteBack)
            == Machine(Cache(UpdateLastUsedTime(c.pool, i, h), c.inFlight), map[], store)
  {
    var m := Machine(c, map[], store);
    var m1 := Machine(Cache(UpdateLastUsedTime(c.pool, i, HitAction(c.pool[i], acc)), c.inFlight), map[], store);
    assert Next(m, Begin(b, acc), GuardedWriteBack) == m1;
    RunThree(m, m1, m1, m1, Begin(b, acc), Transfer(b), Finish(b), GuardedWriteBack);
  }

  lemma MissIsRun(c: Cache, store: Store, b: nat, acc: Access)
    requires WellFormedStore(store) && acc.Valid() && Lookup(c.pool, b).None?
    requires |c.pool| > 0 && WellFormed(c.pool[0]) && c.inFlight == {}
    ensures var miss := BeginMiss(c, b, GuardedWriteBack);
            var io := MissAction(miss.victim, store, b, acc);
            Run(Machine(c, map[], store), OpSteps(b, acc), GuardedWriteBack)
            == Machine(CompleteMiss(miss.cache, io.holder, miss.guard), map[], io.store)
  {
    var m := Machine(c, map[], store);
    var v := c.pool[0];
    var miss := BeginMiss(c, b, GuardedWriteBack);
    var io := MissAction(v, store, b, acc);
    var m1 := Machine(miss.cache, map[b := Claim(v, acc, Detached, miss.guard)], store);
    var m2 := Machine(miss.cache, map[b := Claim(io.holder, acc, Filled, miss.guard)], io.store);
    var m3 := Machine(CompleteMiss(miss.cache, io.holder, miss.guard), map[], io.store);
    assert Next(m, Begin(b, acc), GuardedWriteBack) == m1;
    assert Next(m1, Transfer(b), GuardedWriteBack) == m2;
    assert Next(m2, Finish(b), GuardedWriteBack) == m3 by {
      assert m2.claims - {b} == map[];
    }
    RunThree(m, m1, m2, m3, Begin(b, acc), Transfer(b), Finish(b), GuardedWriteBack);
  }

  /** An operation leaves the cache quiescent again. */
  lemma PerformKeepsQuiescent(c: Cache, store: Store, b: nat, acc: Access)
    requires Quiescent(c, store) && acc.Valid()
    ensures var r := PerformBlockOperation(c, store, b, acc);
            Quiescent(r.cache, r.store)
  {
    PerformIsRun(c, store, b, acc);
  }

  /**
   * An operation changes what readers see only for block b, and only by a write:
   * afterwards b reads as the written bytes and every other block as before.
   */
  lemma PerformUpdatesView(c: Cache, store: Store, b: nat, acc: Access, x: nat)
    requires Quiescent(c, store) && acc.Valid()
    ensures var r := PerformBlockOperation(c, store, b, acc);
            View(r.cache, r.store, x) == if x == b && acc.WriteAccess? then acc.bytes else View(c, store, x)
  {
    if Lookup(c.pool, b).Some? {
      HitUpdatesView(c, store, b, acc, x);
    } else {
      MissUpdatesView(c, store, b, acc, x);
    }
  }

  lemma HitUpdatesView(c: Cache, store: Store, b: nat, acc: Access, x: nat)
    requires Quiescent(c, store) && acc.Valid() && Lookup(c.pool, b).Some?
    ensures var r := PerformBlockOperation(c, store, b, acc);
            View(r.cache, r.store, x) == if x == b && acc.WriteAccess? then acc.bytes else View(c, store, x)
  {
    var i := Lookup(c.pool, b).value;
    var h := HitAction(c.pool[i], acc);
    var pool' := UpdateLastUsedTime(c.pool, i, h);
    var r := PerformBlockOperation(c, store, b, acc);
    assert r.cache.pool == pool' && r.store == store;
    assert Unique(c.pool) && Unique(pool') by {
      HitKeepsUnique(c.pool, i, h);
    }
    if x == b {
      ViewOf(r.cache, store, x, |pool'| - 1);
    } else {
      match Lookup(c.pool, x)
      case Some(j) => {
        var j' := if j < i then j else j - 1;
        assert j != i && pool'[j'] == c.pool[j];
        ViewOf(r.cache, store, x, j');
      }
      case None => {
        forall k | 0 <= k < |pool'| ensures pool'[k].blockNum != x {
          assert pool'[k] in pool';
        }
      }
    }
  }

  lemma MissUpdatesView(c: Cache, store: Store, b: nat, acc: Access, x: nat)
    requires Quiescent(c, store) && acc.Valid() && Lookup(c.pool, b).None?
    ensures var r := PerformBlockOperation(c, store, b, acc);
            View(r.cache, r.store, x) == if x == b && acc.WriteAccess? then acc.bytes else View(c, store, x)
  {
    var v := c.pool[0];
    assert v in c.pool;
    var io := MissAction(v, store, b, acc);
    var r := PerformBlockOperation(c, store, b, acc);
    var pool' := c.pool[1..] + [io.holder];
    assert r.cache.pool == pool' && r.store == io.store;
    PerformKeepsQuiescent(c, store, b, acc);
    assert Unique(pool');
    assert v.blockNum != b;
    if x == b {
      ViewOf(r.cache, r.store, x, |pool'| - 1);
    } else if x == v.blockNum {
      EvictedViewKept(c, store, r.cache, io.store, x);
    } else {
      OtherViewKept(c, store, r.cache, io.store, x);
    }
  }

  /** The evicted block reads as before: its bytes went to disk if dirty, and were there already if clean. */
  lemma EvictedViewKept(c: Cache, store: Store, c': Cache, store': Store, x: nat)
    requires WellFormedStore(store) && WellFormedStore(store') && PoolOk(c) && |c.pool| > 0
    requires Mirrors(c.pool[0], store) && x == c.pool[0].blockNum
    requires WroteBack(c.pool[0], store, store')
    requires |c'.pool| == |c.pool| && c'.pool[..|c'.pool| - 1] == c.pool[1..] && c'.pool[|c'.pool| - 1].blockNum != x
    ensures View(c', store', x) == View(c, store, x)
  {
    assert c.pool[0] in c.pool;
    HeadNotInTail(c.pool);
    forall k | 0 <= k < |c'.pool| ensures c'.pool[k].blockNum != x {
      if k < |c'.pool| - 1 {
        assert c'.pool[k] == c'.pool[..|c'.pool| - 1][k];
      }
    }
    ViewOf(c, store, x, 0);
  }

  /** A block other than the evicted and the requested one reads as before. */
  lemma OtherViewKept(c: Cache, store: Store, c': Cache, store': Store, x: nat)
    requires WellFormedStore(store) && WellFormedStore(store') && PoolOk(c) && |c.pool| > 0
    requires x != c.pool[0].blockNum && WroteBack(c.pool[0], store, store') && Unique(c'.pool)
    requires |c'.pool| == |c.pool| && c'.pool[..|c'.pool| - 1] == c.pool[1..] && c'.pool[|c'.pool| - 1].blockNum != x
    ensures View(c', store', x) == View(c, store, x)
  {
    match Lookup(c.pool, x)
    case Some(j) => {
      assert j != 0 && c'.pool[j - 1] == c'.pool[..|c'.pool| - 1][j - 1];
      ViewOf(c', store', x, j - 1);
    }
    case None => {
      forall k | 0 <= k < |c'.pool| ensures c'.pool[k].blockNum != x {
        if k < |c'.pool| - 1 {
          assert c'.pool[k] == c'.pool[..|c'.pool| - 1][k];
        }
      }
    }
  }

  /** In a pool without repeats, the view of a resident block is the data of the slot holding it. */
  lemma ViewOf(c: Cache, store: Store, x: nat, k: nat)
    requires WellFormedStore(store) && Unique(c.pool) && k < |c.pool| && c.pool[k].blockNum == x
    ensures View(c, store, x) == c.pool[k].data
  {
    LookupFindsUnique(c.pool, x, k);
  }

  /** One request of a caller: a block number and a read or a write. */
  datatype Request = Request(block: nat, acc: Access)

  /** A cache and its disk. */
  datatype State = State(cache: Cache, store: Store)

  predicate RequestsValid(rs: seq<Request>)
  {
    forall i :: 0 <= i < |rs| ==> rs[i].acc.Valid()
  }

  /** The block numbers the requests name, in order. */
  function Blocks(rs: seq<Request>): (bs: seq<int>)
    ensures |bs| == |rs| && forall i :: 0 <= i < |rs| ==> bs[i] == rs[i].block
  {
    seq(|rs|, i requires 0 <= i < |rs| => rs[i].block)
  }

  /** The requests served one after another, with no other caller in between. */
  function Replay(c: Cache, store: Store, rs: seq<Request>): (s: State)
    requires Quiescent(c, store) && RequestsValid(rs)
    ensures Quiescent(s.cache, s.store)
    decreases |rs|
  {
    if rs == [] then State(c, store)
    else
      var q := rs[|rs| - 1];
      var init := rs[..|rs| - 1];
      assert RequestsValid(init) by {
        forall i | 0 <= i < |init| ensures init[i].acc.Valid() {
          assert init[i] == rs[i];
        }
      }
      var prev := Replay(c, store, init);
      PerformKeepsQuiescent(prev.cache, prev.store, q.block, q.acc);
      var r := PerformBlockOperation(prev.cache, prev.store, q.block, q.acc);
      State(r.cache, r.store)
  }

  /**
   * A new cache serving the requests one after another. LRU from an empty cache:
   * afterwards the slots hold the CacheBlocks most recently accessed blocks, least
   * recently accessed first, behind empty slots while fewer blocks than that have
   * been accessed.
   */
  function ServeFromNew(store: Store, rs: seq<Request>): (s: State)
    requires WellFormedStore(store) && RequestsValid(rs)
    ensures Quiescent(s.cache, s.store)
    ensures Ids(s.cache.pool) == Layout(RecencyOrder(Blocks(rs)), CacheBlocks)
  {
    var c := NewBufferCache(store);
    assert Ids(c.pool) == Blank(CacheBlocks);
    ReplayFollowsFrom(c, store, rs, []);
    assert [] + Blocks(rs) == Blocks(rs);
    Replay(c, store, rs)
  }

  /** The same from any quiescent cache already laid out by some earlier history. */
  lemma {:induction false} ReplayFollowsFrom(c: Cache, store: Store, rs: seq<Request>, history: seq<int>)
    requires Quiescent(c, store) && RequestsValid(rs)
    requires Ids(c.pool) == Layout(RecencyOrder(history), CacheBlocks)
    ensures Ids(Replay(c, store, rs).cache.pool) == Layout(RecencyOrder(history + Blocks(rs)), CacheBlocks)
    decreases |rs|
  {
    if rs == [] {
      assert history + Blocks(rs) == history;
    } else {
      InitValid(rs);
      ReplayFollowsFrom(c, store, rs[..|rs| - 1], history);
      ReplayStepFollows(c, store, rs, history);
    }
  }

  /** The inductive step: if the replay of all but the last request follows the order, so does the whole replay. */
  lemma ReplayStepFollows(c: Cache, store: Store, rs: seq<Request>, history: seq<int>)
    requires Quiescent(c, store) && RequestsValid(rs) && rs != []
    requires RequestsValid(rs[..|rs| - 1])
    requires Ids(Replay(c, store, rs[..|rs| - 1]).cache.pool)
          == Layout(RecencyOrder(history + Blocks(rs[..|rs| - 1])), CacheBlocks)
    ensures Ids(Replay(c, store, rs).cache.pool) == Layout(RecencyOrder(history + Blocks(rs)), CacheBlocks)
  {
    var init := rs[..|rs| - 1];
    var q := rs[|rs| - 1];
    var prev := Replay(c, store, init);
    ReplayLast(c, store, rs);
    HistoryLast(history, rs);
    PerformFollowsRecency(prev.cache, prev.store, q.block, q.acc, history + Blocks(init));
  }

  /** Every request but the last is still a well-formed request. */
  lemma InitValid(rs: seq<Request>)
    requires RequestsValid(rs) && rs != []
    ensures RequestsValid(rs[..|rs| - 1])
  {
    var init := rs[..|rs| - 1];
    forall i | 0 <= i < |init| ensures init[i].acc.Valid() {
      assert init[i] == rs[i];
    }
  }

  /** The blocks of a request list, after some history, end with the block of its last request. */
  lemma HistoryLast(history: seq<int>, rs: seq<Request>)
    requires rs != []
    ensures history + Blocks(rs) == (history + Blocks(rs[..|rs| - 1])) + [rs[|rs| - 1].block]
  {
    assert Blocks(rs) == Blocks(rs[..|rs| - 1]) + [rs[|rs| - 1].block];
  }

  /** Replaying a non-empty list is replaying all but its last request, then serving that one. */
  lemma ReplayLast(c: Cache, store: Store, rs: seq<Request>)
    requires Quiescent(c, store) && RequestsValid(rs) && rs != []
    ensures RequestsValid(rs[..|rs| - 1])
    ensures var prev := Replay(c, store, rs[..|rs| - 1]);
            var q := rs[|rs| - 1];
            Replay(c, store, rs).cache == PerformBlockOperation(prev.cache, prev.store, q.block, q.acc).cache
  {
    InitValid(rs);
  }

  /**
   * Once CacheBlocks distinct blocks have been accessed, a request for any block
   * outside the CacheBlocks most recent ones misses, and the slot it evicts holds the
   * least recently accessed of those.
   */
  lemma ReplayEvictsLeastRecent(store: Store, rs: seq<Request>, b: nat)
    requires WellFormedStore(store) && RequestsValid(rs)
    requires CacheBlocks <= |RecencyOrder(Blocks(rs))|
    requires b !in Last(RecencyOrder(Blocks(rs)), CacheBlocks)
    ensures var s := ServeFromNew(store, rs);
            var order := RecencyOrder(Blocks(rs));
            && Lookup(s.cache.pool, b).None?
            && s.cache.pool[0].blockNum == order[|order| - CacheBlocks]
  {
    FullLayout(ServeFromNew(store, rs).cache.pool, RecencyOrder(Blocks(rs)), b);
  }

  /** A full layout holds only the most recent blocks, the least recent of them in the head slot. */
  lemma FullLayout(pool: seq<BlockHolder>, order: seq<int>, b: int)
    requires CacheBlocks <= |order| && Ids(pool) == Layout(order, CacheBlocks)
    requires b !in Last(order, CacheBlocks)
    ensures Lookup(pool, b).None?
    ensures |pool| > 0 && pool[0].blockNum == order[|order| - CacheBlocks]
  {
    assert Ids(pool) == Last(order, CacheBlocks);
    assert Ids(pool)[0] == pool[0].blockNum;
    forall j | 0 <= j < |pool| ensures pool[j].blockNum != b {
      assert Ids(pool)[j] == pool[j].blockNum;
    }
  }

  /** One operation on b turns the LRU layout of a history into that of the history followed by b. */
  lemma PerformFollowsRecency(c: Cache, store: Store, b: nat, acc: Access, history: seq<int>)
    requires Quiescent(c, store) && acc.Valid()
    requires Ids(c.pool) == Layout(RecencyOrder(history), CacheBlocks)
    ensures Ids(PerformBlockOperation(c, store, b, acc).cache.pool) == Layout(RecencyOrder(history + [b]), CacheBlocks)
  {
    QuiescentPool(c, store);
    if Lookup(c.pool, b).Some? {
      HitCaseFollows(c, store, b, acc, history);
    } else {
      MissCaseFollows(c, store, b, acc, history);
    }
  }

  /** A quiescent cache owns all its slots and holds every block at most once. */
  lemma QuiescentPool(c: Cache, store: Store)
    requires Quiescent(c, store)
    ensures Unique(c.pool) && |c.pool| == CacheBlocks
  {
    assert Inv(Machine(c, map[], store), GuardedWriteBack);
  }

  lemma HitCaseFollows(c: Cache, store: Store, b: nat, acc: Access, history: seq<int>)
    requires Quiescent(c, store) && acc.Valid() && Lookup(c.pool, b).Some?
    requires Unique(c.pool) && |c.pool| == CacheBlocks
    requires Ids(c.pool) == Layout(RecencyOrder(history), CacheBlocks)
    ensures Ids(PerformBlockOperation(c, store, b, acc).cache.pool) == Layout(RecencyOrder(history + [b]), CacheBlocks)
  {
    var r := PerformBlockOperation(c, store, b, acc);
    HitFollowsRecency(c.pool, r.cache.pool, Lookup(c.pool, b).value, b, history);
  }

  lemma MissCaseFollows(c: Cache, store: Store, b: nat, acc: Access, history: seq<int>)
    requires Quiescent(c, store) && acc.Valid() && Lookup(c.pool, b).None?
    requires |c.pool| == CacheBlocks
    requires Ids(c.pool) == Layout(RecencyOrder(history), CacheBlocks)
    ensures Ids(PerformBlockOperation(c, store, b, acc).cache.pool) == Layout(RecencyOrder(history + [b]), CacheBlocks)
  {
    var r := PerformBlockOperation(c, store, b, acc);
    MissFollowsRecency(c.pool, r.cache.pool, b, history);
  }

  /** The access order after b: b leaves its old place and becomes the most recent. */
  lemma RecencyAppend(history: seq<int>, b: int)
    ensures RecencyOrder(history + [b]) == Without(RecencyOrder(history), b) + [b]
  {
    assert (history + [b])[..|history|] == history;
  }

  /** The block numbers of a pool that ends in a slot holding b. */
  lemma IdsLast(pool: seq<BlockHolder>, b: int)
    requires |pool| > 0 && pool[|pool| - 1].blockNum == b
    ensures Ids(pool) == Ids(pool[..|pool| - 1]) + [b]
  {
    assert pool == pool[..|pool| - 1] + [pool[|pool| - 1]];
    IdsConcat(pool[..|pool| - 1], [pool[|pool| - 1]]);
  }

  /** A real block is in the layout exactly when it is among the most recent ones kept. */
  lemma InLayout(order: seq<int>, b: nat)
    ensures b in Layout(order, CacheBlocks) <==> b in Last(order, Min(CacheBlocks, |order|))
  {
    var k := Min(CacheBlocks, |order|);
    var bl := Blank(CacheBlocks - k);
    assert b !in bl by {
      forall j | 0 <= j < |bl| ensures bl[j] != b {
      }
    }
  }

  lemma HitFollowsRecency(pool: seq<BlockHolder>, pool': seq<BlockHolder>, i: nat, b: nat, history: seq<int>)
    requires Unique(pool) && i < |pool| && pool[i].blockNum == b && |pool'| == |pool| == CacheBlocks
    requires Ids(pool) == Layout(RecencyOrder(history), CacheBlocks)
    requires pool'[..|pool| - 1] == pool[..i] + pool[i + 1..] && pool'[|pool| - 1].blockNum == b
    ensures Ids(pool') == Layout(RecencyOrder(history + [b]), CacheBlocks)
  {
    var order := RecencyOrder(history);
    RecencyAppend(history, b);
    IdsLast(pool', b);
    IdsWithout(pool, i, b);
    assert Ids(pool)[i] == b;
    InLayout(order, b);
    LayoutHit(order, b, CacheBlocks);
  }

  lemma MissFollowsRecency(pool: seq<BlockHolder>, pool': seq<BlockHolder>, b: nat, history: seq<int>)
    requires |pool'| == |pool| == CacheBlocks && Lookup(pool, b).None?
    requires Ids(pool) == Layout(RecencyOrder(history), CacheBlocks)
    requires pool'[..|pool| - 1] == pool[1..] && pool'[|pool| - 1].blockNum == b
    ensures Ids(pool') == Layout(RecencyOrder(history + [b]), CacheBlocks)
  {
    var order := RecencyOrder(history);
    RecencyAppend(history, b);
    IdsLast(pool', b);
    IdsDrop(pool);
    AbsentFromIds(pool, b);
    InLayout(order, b);
    LayoutMiss(order, b, CacheBlocks);
  }

  /** Dropping the first slot drops the first block number. */
  lemma IdsDrop(pool: seq<BlockHolder>)
    requires |pool| > 0
    ensures Ids(pool[1..]) == Ids(pool)[1..]
  {
  }

  /** A block the lookup does not find is not among the pool's block numbers. */
  lemma AbsentFromIds(pool: seq<BlockHolder>, b: int)
    requires Lookup(pool, b).None?
    ensures b !in Ids(pool)
  {
    var ids := Ids(pool);
    forall j | 0 <= j < |ids| ensures ids[j] != b {
    }
  }

  lemma IdsConcat(a: seq<BlockHolder>, b: seq<BlockHolder>)
    ensures Ids(a + b) == Ids(a) + Ids(b)
  {
  }

  /** Taking out the one slot that holds b takes b out of the block numbers and changes nothing else. */
  lemma IdsWithout(pool: seq<BlockHolder>, i: nat, b: int)
    requires i < |pool| && pool[i].blockNum == b && b != NoBlock && Unique(pool)
    ensures Ids(pool[..i] + pool[i + 1..]) == Without(Ids(pool), b)
  {
    var pre, post := pool[..i], pool[i + 1..];
    assert pool == pre + [pool[i]] + post;
    IdsConcat(pre + [pool[i]], post);
    IdsConcat(pre, [pool[i]]);
    IdsConcat(pre, post);
    assert Ids([pool[i]]) == [b];
    assert Without([b], b) == [];
    assert b !in Ids(pre) by {
      forall j | 0 <= j < i ensures Ids(pre)[j] != b {
        assert pre[j] == pool[j];
      }
    }
    assert b !in Ids(post) by {
      forall j | 0 <= j < |post| ensures Ids(post)[j] != b {
        assert post[j] == pool[i + 1 + j];
      }
    }
    WithoutConcat(Ids(pre) + [b], Ids(post), b);
    WithoutConcat(Ids(pre), [b], b);
    WithoutAbsent(Ids(pre), b);
    WithoutAbsent(Ids(post), b);
  }
}
