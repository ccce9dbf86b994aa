/**
 * PerformBlockOperation as a concurrent state machine. Each locked section is one
 * atomic step, and so is the blocking disk work a caller does outside the lock on
 * the slot it has detached. Every caller with a miss in progress owns one claim,
 * keyed by the block it is fetching; steps of different callers interleave freely.
 * Threads, locks and the spin-waits themselves are not modelled: a caller that
 * must wait simply takes a step that changes nothing.
 */
module CacheMachine {
  import opened Wrappers
  import opened Disk
  import opened Holder
  import opened CachePool

  /** A claimed slot is Detached until its disk work is done, then Filled until reinserted. */
  datatype Phase = Detached | Filled

  /** A miss in progress: the detached slot, what the caller asked, and the extra id it keeps in flight. */
  datatype Claim = Claim(holder: BlockHolder, acc: Access, phase: Phase, guard: Option<int>)

  datatype Machine = Machine(cache: Cache, claims: map<int, Claim>, store: Store)

  /**
   * Begin: the first locked section for block b. Transfer: the disk work of the
   * miss on block t (write-back of the victim, then reload or overwrite). Finish:
   * the second locked section of the miss on t.
   */
  datatype Step = Begin(b: nat, acc: Access) | Transfer(t: int) | Finish(t: int)

  predicate ClaimOk(t: int, cl: Claim, proto: Protocol)
  {
    && t >= 0
    && WellFormed(cl.holder) && cl.acc.Valid()
    && (cl.phase == Filled ==> cl.holder.blockNum == t)
    && (cl.phase == Detached ==> cl.guard == WriteBackGuard(cl.holder, proto) && cl.holder.blockNum != t)
    && (cl.guard.Some? ==> cl.guard.value >= 0 && cl.guard.value != t)
    && (proto == AsWritten ==> cl.guard.None?)
  }

  /** The victims' old block numbers kept in flight by the misses in progress. */
  function Guards(claims: map<int, Claim>): set<int>
  {
    set t | t in claims && claims[t].guard.Some? :: claims[t].guard.value
  }

  /** No two misses guard the same id, and no miss guards an id another one is fetching. */
  predicate GuardsDistinct(claims: map<int, Claim>)
  {
    && (forall t, u :: t in claims && u in claims && t != u && claims[t].guard.Some? ==> claims[t].guard != claims[u].guard)
    && (forall t, u :: t in claims && u in claims ==> claims[t].guard != Some(u))
  }

  /** Resident slots are well formed, hold distinct blocks, and none of their blocks is in flight. */
  predicate PoolOk(c: Cache)
  {
    && (forall h :: h in c.pool ==> WellFormed(h) && h.blockNum !in c.inFlight)
    && Unique(c.pool)
  }

  predicate EachClaimOk(claims: map<int, Claim>, proto: Protocol)
  {
    forall t :: t in claims ==> ClaimOk(t, claims[t], proto)
  }

  predicate ClaimsOk(claims: map<int, Claim>, proto: Protocol)
  {
    EachClaimOk(claims, proto) && GuardsDistinct(claims)
  }

  /** Every slot is resident or claimed, and the in-flight set is exactly the claimed and guarded ids. */
  predicate Accounted(m: Machine)
  {
    && |m.cache.pool| + |m.claims| == CacheBlocks
    && m.cache.inFlight == m.claims.Keys + Guards(m.claims)
  }

  /**
   * The bookkeeping invariant: every slot is either resident or claimed, no block is
   * resident twice, no resident block is in flight, and the in-flight set is exactly
   * the blocks being fetched plus the ids guarded for write-back.
   */
  predicate Inv(m: Machine, proto: Protocol)
  {
    && WellFormedStore(m.store)
    && PoolOk(m.cache)
    && ClaimsOk(m.claims, proto)
    && Accounted(m)
  }

  /** Every clean slot that holds a block, resident or refilled and waiting, mirrors the store. */
  predicate Coherent(m: Machine)
    requires WellFormedStore(m.store)
  {
    && (forall h :: h in m.cache.pool ==> Mirrors(h, m.store))
    && (forall t :: t in m.claims && m.claims[t].phase == Filled ==> Mirrors(m.claims[t].holder, m.store))
  }

  /** What a step needs of a state: a well-formed store, and well-formed claims on real blocks. */
  predicate Steppable(m: Machine)
  {
    && WellFormedStore(m.store)
    && (forall t :: t in m.claims ==> t >= 0 && WellFormed(m.claims[t].holder) && m.claims[t].acc.Valid())
  }

  /** A step is well formed when a write it begins brings exactly one block of bytes. */
  predicate StepOk(s: Step)
  {
    s.Begin? ==> s.acc.Valid()
  }

  /**
   * One atomic step; a step that is not enabled (a wait, a spin) changes nothing.
   * Begin is the first locked section: a hit refreshes the slot, a miss on a block
   * neither resident nor in flight detaches the least recently used slot for the
   * caller. Transfer is the disk work outside the lock, the only step that touches the
   * disk: the claimed slot comes to hold the caller's block. Finish is the second
   * locked section: the slot rejoins the pool as most recent and the claim ends.
   */
  function Next(m: Machine, s: Step, proto: Protocol): (m': Machine)
    requires Steppable(m) && StepOk(s)
    ensures !s.Transfer? ==> m'.store == m.store
    ensures !s.Begin? ==> m'.cache.pool == m.cache.pool || (s.Finish? && |m'.cache.pool| == |m.cache.pool| + 1)
    ensures s.Begin? && Lookup(m.cache.pool, s.b).Some? ==>
      && m'.claims == m.claims && m'.cache.inFlight == m.cache.inFlight
      && |m'.cache.pool| == |m.cache.pool| && m'.cache.pool[|m.cache.pool| - 1].blockNum == s.b
    ensures s.Begin? && Lookup(m.cache.pool, s.b).None? && (|m.cache.pool| == 0 || s.b in m.cache.inFlight) ==> m' == m
    ensures s.Begin? && Lookup(m.cache.pool, s.b).None? && |m.cache.pool| > 0 && s.b !in m.cache.inFlight ==>
      && m'.cache.pool == m.cache.pool[1..] && s.b in m'.cache.inFlight
      && m'.claims.Keys == m.claims.Keys + {s.b}
      && m'.claims[s.b].holder == m.cache.pool[0] && m'.claims[s.b].acc == s.acc && m'.claims[s.b].phase == Detached
    ensures s.Transfer? ==> m'.cache == m.cache && m'.claims.Keys == m.claims.Keys
    ensures s.Transfer? && s.t in m.claims && m.claims[s.t].phase == Detached ==>
      m'.claims[s.t].phase == Filled && m'.claims[s.t].holder.blockNum == s.t
    ensures (s.Transfer? || s.Finish?) && !(s.t in m.claims && m.claims[s.t].phase == (if s.Transfer? then Detached else Filled)) ==>
      m' == m
    ensures s.Finish? && s.t in m.claims && m.claims[s.t].phase == Filled ==>
      && m'.claims == m.claims - {s.t}
      && m'.cache.pool == m.cache.pool + [m.claims[s.t].holder] && m.claims[s.t].holder.blockNum !in m'.cache.inFlight
  {
    match s
    case Begin(b, acc) =>
      (match Enter(m.cache, b, acc, proto)
       case Served(c, _) => m.(cache := c)
       case Wait => m
       case Claimed(miss) =>
         Machine(miss.cache, m.claims[b := Claim(miss.victim, acc, Detached, miss.guard)], m.store))
    case Transfer(t) =>
      if t in m.claims && m.claims[t].phase == Detached then
        var cl := m.claims[t];
        var io := MissAction(cl.holder, m.store, t, cl.acc);
        Machine(m.cache, m.claims[t := cl.(holder := io.holder, phase := Filled)], io.store)
      else m
    case Finish(t) =>
      if t in m.claims && m.claims[t].phase == Filled then
        var cl := m.claims[t];
        Machine(CompleteMiss(m.cache, cl.holder, cl.guard), m.claims - {t}, m.store)
      else m
  }

  /**
   * The machine of a newly constructed cache over a disk: no miss in progress, the
   * bookkeeping invariant holding under either protocol, and every slot coherent.
   */
  function Init(store: Store, proto: Protocol): (m: Machine)
    requires WellFormedStore(store)
    ensures m.cache == NewCache() && m.claims == map[] && m.store == store
    ensures Inv(m, proto) && Coherent(m)
  {
    var m := Machine(NewCache(), map[], store);
    assert Guards(m.claims) == {};
    assert forall h :: h in m.cache.pool ==> WellFormed(h) && h.blockNum !in m.cache.inFlight && Mirrors(h, store);
    m
  }

  lemma GuardsAdd(claims: map<int, Claim>, b: int, cl: Claim)
    requires b !in claims
    ensures Guards(claims[b := cl]) == Guards(claims) + GuardIds(cl.guard)
  {
    var c' := claims[b := cl];
    forall x | x in Guards(c')
      ensures x in Guards(claims) + GuardIds(cl.guard)
    {
      var t :| t in c' && c'[t].guard.Some? && c'[t].guard.value == x;
      if t != b {
        assert claims[t].guard.Some?;
      }
    }
    forall x | x in Guards(claims) ensures x in Guards(c') {
      var t :| t in claims && claims[t].guard.Some? && claims[t].guard.value == x;
      assert t in c' && c'[t] == claims[t];
    }
    if cl.guard.Some? {
      assert b in c' && c'[b] == cl;
      assert cl.guard.value in Guards(c');
    }
  }

  lemma GuardsReplace(claims: map<int, Claim>, t: int, cl: Claim)
    requires t in claims && cl.guard == claims[t].guard
    ensures Guards(claims[t := cl]) == Guards(claims)
  {
    var c' := claims[t := cl];
    forall x | x in Guards(claims) ensures x in Guards(c') {
      var u :| u in claims && claims[u].guard.Some? && claims[u].guard.value == x;
      assert c'[u].guard == claims[u].guard;
    }
  }

  lemma GuardsRemove(claims: map<int, Claim>, t: int)
    requires t in claims && GuardsDistinct(claims)
    ensures Guards(claims - {t}) == Guards(claims) - GuardIds(claims[t].guard)
  {
    var c' := claims - {t};
    forall x | x in Guards(claims) - GuardIds(claims[t].guard) ensures x in Guards(c') {
      var u :| u in claims && claims[u].guard.Some? && claims[u].guard.value == x;
      assert u != t;
      assert u in c' && c'[u] == claims[u];
    }
    forall x | x in Guards(c') ensures x !in GuardIds(claims[t].guard) {
      var u :| u in c' && c'[u].guard.Some? && c'[u].guard.value == x;
      assert claims[u].guard != claims[t].guard;
    }
  }

  /** A hit on the resident slot at position i. */
  lemma HitPreservesInv(m: Machine, i: nat, acc: Access, proto: Protocol)
    requires Inv(m, proto) && acc.Valid() && i < |m.cache.pool| && m.cache.pool[i].blockNum >= 0
    ensures var h := HitAction(m.cache.pool[i], acc);
            var m' := m.(cache := Cache(UpdateLastUsedTime(m.cache.pool, i, h), m.cache.inFlight));
            Inv(m', proto) && (Coherent(m) ==> Coherent(m'))
  {
    var pool := m.cache.pool;
    var h := HitAction(pool[i], acc);
    assert pool[i] in pool;
    HitKeepsUnique(pool, i, h);
  }

  /** A miss on block b, not resident and not in flight, detaching the least recently used slot. */
  lemma ClaimPreservesInv(m: Machine, b: nat, acc: Access, proto: Protocol)
    requires Inv(m, proto) && acc.Valid() && |m.cache.pool| > 0
    requires Lookup(m.cache.pool, b).None? && b !in m.cache.inFlight
    ensures var miss := BeginMiss(m.cache, b, proto);
            var m' := Machine(miss.cache, m.claims[b := Claim(miss.victim, acc, Detached, miss.guard)], m.store);
            Inv(m', proto) && (Coherent(m) ==> Coherent(m'))
  {
    var miss := BeginMiss(m.cache, b, proto);
    var cl := Claim(miss.victim, acc, Detached, miss.guard);
    var m' := Machine(miss.cache, m.claims[b := cl], m.store);
    assert PoolOk(m'.cache) by {
      ClaimKeepsPoolOk(m, b, proto);
    }
    assert ClaimsOk(m'.claims, proto) by {
      ClaimKeepsClaimsOk(m, b, acc, proto);
    }
    assert Accounted(m') by {
      assert b !in m.claims;
      AddKeepsAccounted(m, miss.cache, b, cl);
    }
    assert Coherent(m) ==> Coherent(m') by {
      if Coherent(m) {
        forall h | h in m'.cache.pool ensures Mirrors(h, m'.store) {
          assert h in m.cache.pool;
        }
      }
    }
  }

  lemma AddKeepsAccounted(m: Machine, c': Cache, b: int, cl: Claim)
    requires Accounted(m) && b !in m.claims
    requires |c'.pool| + 1 == |m.cache.pool|
    requires c'.inFlight == m.cache.inFlight + {b} + GuardIds(cl.guard)
    ensures Accounted(Machine(c', m.claims[b := cl], m.store))
  {
    var cs := m.claims[b := cl];
    assert cs.Keys == m.claims.Keys + {b};
    GuardsAdd(m.claims, b, cl);
    UnionRegroup(m.claims.Keys, Guards(m.claims), {b}, GuardIds(cl.guard));
  }

  lemma UnionRegroup(keys: set<int>, guards: set<int>, added: set<int>, guarded: set<int>)
    ensures keys + guards + added + guarded == (keys + added) + (guards + guarded)
  {
  }

  lemma ClaimKeepsPoolOk(m: Machine, b: nat, proto: Protocol)
    requires Inv(m, proto) && |m.cache.pool| > 0
    requires Lookup(m.cache.pool, b).None? && b !in m.cache.inFlight
    ensures PoolOk(BeginMiss(m.cache, b, proto).cache)
  {
    var pool := m.cache.pool;
    var miss := BeginMiss(m.cache, b, proto);
    var v := pool[0];
    assert v in pool;
    var g := miss.guard;
    forall h | h in miss.cache.pool
      ensures WellFormed(h) && h.blockNum !in miss.cache.inFlight
    {
      TailResidentOk(m.cache, b, proto, h);
    }
    UniqueDrop(pool);
  }

  lemma TailResidentOk(c: Cache, b: nat, proto: Protocol, h: BlockHolder)
    requires PoolOk(c) && |c.pool| > 0
    requires Lookup(c.pool, b).None? && h in c.pool[1..]
    ensures WellFormed(h) && h.blockNum !in BeginMiss(c, b, proto).cache.inFlight
  {
    var v := c.pool[0];
    assert v in c.pool;
    var j :| 0 <= j < |c.pool| - 1 && c.pool[1..][j] == h;
    assert c.pool[j + 1] == h;
    if WriteBackGuard(v, proto).Some? {
      assert h.blockNum != v.blockNum;
    }
  }

  lemma ClaimKeepsClaimsOk(m: Machine, b: nat, acc: Access, proto: Protocol)
    requires Inv(m, proto) && acc.Valid() && |m.cache.pool| > 0
    requires Lookup(m.cache.pool, b).None? && b !in m.cache.inFlight
    ensures var miss := BeginMiss(m.cache, b, proto);
            ClaimsOk(m.claims[b := Claim(miss.victim, acc, Detached, miss.guard)], proto)
  {
    var miss := BeginMiss(m.cache, b, proto);
    var cl := Claim(m.cache.pool[0], acc, Detached, miss.guard);
    assert ClaimOk(b, cl, proto) by {
      assert m.cache.pool[0] in m.cache.pool;
    }
    AddKeepsClaimOk(m.claims, b, cl, proto);
    ClaimGuardFacts(m, b, proto);
    AddKeepsGuardsDistinct(m.claims, b, cl);
  }

  lemma AddKeepsClaimOk(claims: map<int, Claim>, b: int, cl: Claim, proto: Protocol)
    requires EachClaimOk(claims, proto) && ClaimOk(b, cl, proto)
    ensures EachClaimOk(claims[b := cl], proto)
  {
  }

  /** A new miss's key and guard clash with nothing the misses in progress fetch or guard. */
  lemma ClaimGuardFacts(m: Machine, b: nat, proto: Protocol)
    requires Inv(m, proto) && |m.cache.pool| > 0
    requires b !in m.cache.inFlight
    ensures b !in m.claims
    ensures forall t :: t in m.claims ==> m.claims[t].guard != Some(b)
    ensures var g := BeginMiss(m.cache, b, proto).guard;
            g.Some? ==> forall t :: t in m.claims ==> m.claims[t].guard != g && t != g.value
  {
    var v := m.cache.pool[0];
    var g := BeginMiss(m.cache, b, proto).guard;
    forall t | t in m.claims && m.claims[t].guard.Some?
      ensures m.claims[t].guard.value in m.cache.inFlight
    {
      assert m.claims[t].guard.value in Guards(m.claims);
    }
    if g.Some? {
      assert v in m.cache.pool;
    }
  }

  lemma AddKeepsGuardsDistinct(claims: map<int, Claim>, b: int, cl: Claim)
    requires GuardsDistinct(claims) && b !in claims && cl.guard != Some(b)
    requires forall t :: t in claims ==> claims[t].guard != Some(b)
    requires cl.guard.Some? ==> forall t :: t in claims ==> claims[t].guard != cl.guard && t != cl.guard.value
    ensures GuardsDistinct(claims[b := cl])
  {
    var c' := claims[b := cl];
    forall t, u | t in c' && u in c' && t != u && c'[t].guard.Some?
      ensures c'[t].guard != c'[u].guard
    {
      if t != b && u != b {
        assert c'[t] == claims[t] && c'[u] == claims[u];
      }
    }
    forall t, u | t in c' && u in c'
      ensures c'[t].guard != Some(u)
    {
      if t != b && u != b {
        assert c'[t] == claims[t] && claims[u] == claims[u];
      }
    }
  }

  lemma BeginPreservesInv(m: Machine, b: nat, acc: Access, proto: Protocol)
    requires Inv(m, proto) && acc.Valid()
    ensures Inv(Next(m, Begin(b, acc), proto), proto)
    ensures Coherent(m) ==> Coherent(Next(m, Begin(b, acc), proto))
  {
    match Lookup(m.cache.pool, b) {
      case Some(i) => HitPreservesInv(m, i, acc, proto);
      case None =>
        if |m.cache.pool| > 0 && b !in m.cache.inFlight {
          ClaimPreservesInv(m, b, acc, proto);
        }
    }
  }

  lemma TransferPreservesInv(m: Machine, t: int, proto: Protocol)
    requires Inv(m, proto)
    ensures Inv(Next(m, Transfer(t), proto), proto)
    ensures proto == GuardedWriteBack && Coherent(m) ==> Coherent(Next(m, Transfer(t), proto))
  {
    if t in m.claims && m.claims[t].phase == Detached {
      var cl := m.claims[t];
      var io := MissAction(cl.holder, m.store, t, cl.acc);
      var cl' := cl.(holder := io.holder, phase := Filled);
      var m' := Machine(m.cache, m.claims[t := cl'], io.store);
      assert m' == Next(m, Transfer(t), proto);
      assert ClaimsOk(m'.claims, proto) by {
        assert ClaimOk(t, cl, proto);
        ReplaceKeepsClaimsOk(m.claims, t, cl', proto);
      }
      assert Accounted(m') by {
        GuardsReplace(m.claims, t, cl');
        assert m'.claims.Keys == m.claims.Keys;
      }
      if proto == GuardedWriteBack && Coherent(m) {
        TransferKeepsCoherent(m, t);
      }
    }
  }

  lemma ReplaceKeepsClaimsOk(claims: map<int, Claim>, t: int, cl: Claim, proto: Protocol)
    requires ClaimsOk(claims, proto) && t in claims
    requires ClaimOk(t, cl, proto) && cl.guard == claims[t].guard
    ensures ClaimsOk(claims[t := cl], proto)
  {
    var c' := claims[t := cl];
    assert forall u :: u in c' ==> u in claims && c'[u].guard == claims[u].guard;
  }

  lemma RemoveKeepsClaimsOk(claims: map<int, Claim>, t: int, proto: Protocol)
    requires ClaimsOk(claims, proto)
    ensures ClaimsOk(claims - {t}, proto)
  {
  }

  lemma TransferKeepsCoherent(m: Machine, t: int)
    requires Inv(m, GuardedWriteBack) && Coherent(m)
    requires t in m.claims && m.claims[t].phase == Detached
    ensures Coherent(Next(m, Transfer(t), GuardedWriteBack))
  {
    var cl := m.claims[t];
    assert ClaimOk(t, cl, GuardedWriteBack);
    var m' := Next(m, Transfer(t), GuardedWriteBack);
    var o := cl.holder.blockNum;
    assert WroteBack(cl.holder, m.store, m'.store);
    forall h | h in m'.cache.pool
      ensures Mirrors(h, m'.store)
    {
      assert Mirrors(h, m.store);
      if cl.holder.dirty {
        assert o in Guards(m.claims);
        assert h.blockNum != o;
      }
    }
    forall u | u in m'.claims && m'.claims[u].phase == Filled
      ensures Mirrors(m'.claims[u].holder, m'.store)
    {
      if u != t {
        assert Mirrors(m.claims[u].holder, m.store);
        assert ClaimOk(u, m.claims[u], GuardedWriteBack);
        if cl.holder.dirty {
          assert cl.guard == Some(o);
          assert o != u;
        }
      }
    }
  }

  lemma FinishPreservesInv(m: Machine, t: int, proto: Protocol)
    requires Inv(m, proto)
    ensures Inv(Next(m, Finish(t), proto), proto)
    ensures Coherent(m) ==> Coherent(Next(m, Finish(t), proto))
  {
    if t in m.claims && m.claims[t].phase == Filled {
      var cl := m.claims[t];
      var m' := Machine(CompleteMiss(m.cache, cl.holder, cl.guard), m.claims - {t}, m.store);
      assert m' == Next(m, Finish(t), proto);
      assert PoolOk(m'.cache) by {
        FinishKeepsPoolOk(m, t, proto);
      }
      assert ClaimsOk(m'.claims, proto) by {
        RemoveKeepsClaimsOk(m.claims, t, proto);
      }
      assert Accounted(m') by {
        assert ClaimOk(t, cl, proto);
        RemoveKeepsAccounted(m, t);
      }
      if Coherent(m) {
        FinishKeepsCoherent(m, t, proto);
      }
    }
  }

  lemma FinishKeepsCoherent(m: Machine, t: int, proto: Protocol)
    requires Steppable(m) && Coherent(m) && t in m.claims && m.claims[t].phase == Filled
    ensures Coherent(Next(m, Finish(t), proto))
  {
    assert Mirrors(m.claims[t].holder, m.store);
  }

  lemma RemoveKeepsAccounted(m: Machine, t: int)
    requires Accounted(m) && t in m.claims && GuardsDistinct(m.claims)
    requires m.claims[t].holder.blockNum == t
    ensures var cl := m.claims[t];
            Accounted(Machine(CompleteMiss(m.cache, cl.holder, cl.guard), m.claims - {t}, m.store))
  {
    GuardsRemove(m.claims, t);
    assert (m.claims - {t}).Keys == m.claims.Keys - {t};
    var cl := m.claims[t];
    forall u | u in m.claims
      ensures cl.guard != Some(u)
    {
    }
    forall u | u in m.claims && m.claims[u].guard.Some?
      ensures m.claims[u].guard.value != t
    {
      assert m.claims[u].guard != Some(t);
    }
  }

  lemma FinishKeepsPoolOk(m: Machine, t: int, proto: Protocol)
    requires Inv(m, proto) && t in m.claims && m.claims[t].phase == Filled
    ensures PoolOk(CompleteMiss(m.cache, m.claims[t].holder, m.claims[t].guard))
  {
    var cl := m.claims[t];
    assert ClaimOk(t, cl, proto);
    var pool := m.cache.pool;
    forall j | 0 <= j < |pool|
      ensures pool[j].blockNum != t
    {
      assert pool[j] in pool;
    }
    var c' := CompleteMiss(m.cache, cl.holder, cl.guard);
    assert Unique(c'.pool);
  }

  /** Every step of every caller, interleaved in any order, preserves the bookkeeping invariant. */
  lemma NextPreservesInv(m: Machine, s: Step, proto: Protocol)
    requires Inv(m, proto)
    requires StepOk(s)
    ensures Inv(Next(m, s, proto), proto)
  {
    match s
    case Begin(b, acc) => BeginPreservesInv(m, b, acc, proto);
    case Transfer(t) => TransferPreservesInv(m, t, proto);
    case Finish(t) => FinishPreservesInv(m, t, proto);
  }

  /** With write-back guarded, every step keeps clean slots mirroring the store. */
  lemma NextPreservesCoherence(m: Machine, s: Step)
    requires Inv(m, GuardedWriteBack) && Coherent(m)
    requires StepOk(s)
    ensures Coherent(Next(m, s, GuardedWriteBack))
  {
    match s
    case Begin(b, acc) => BeginPreservesInv(m, b, acc, GuardedWriteBack);
    case Transfer(t) => TransferPreservesInv(m, t, GuardedWriteBack);
    case Finish(t) => FinishPreservesInv(m, t, GuardedWriteBack);
  }

  /** As written, resident slots plus in-flight ids account for every one of the cache's slots. */
  lemma AsWrittenSlotCount(m: Machine)
    requires Inv(m, AsWritten)
    ensures |m.cache.pool| + |m.cache.inFlight| == CacheBlocks
    ensures m.cache.inFlight == m.claims.Keys
  {
    forall t | t in m.claims
      ensures m.claims[t].guard.None?
    {
      assert ClaimOk(t, m.claims[t], AsWritten);
    }
    assert Guards(m.claims) == {};
  }

  /**
   * Runs the steps in order, one interleaving of the callers' steps. The run ends
   * early at a malformed step or at a state no step is defined on; no state
   * satisfying the invariant is such a state.
   */
  function Run(m: Machine, steps: seq<Step>, proto: Protocol): (m': Machine)
    ensures Inv(m, proto) ==> Inv(m', proto)
    ensures Inv(m, proto) && proto == GuardedWriteBack && Coherent(m) ==> Coherent(m')
    decreases |steps|
  {
    if steps == [] || !Steppable(m) || !StepOk(steps[0]) then m
    else if Inv(m, proto) then
      NextPreservesInv(m, steps[0], proto);
      if proto == GuardedWriteBack && Coherent(m) then
        NextPreservesCoherence(m, steps[0]);
        Run(Next(m, steps[0], proto), steps[1..], proto)
      else
        Run(Next(m, steps[0], proto), steps[1..], proto)
    else
      Run(Next(m, steps[0], proto), steps[1..], proto)
  }

  /**
   * The block ids that the disk work of a miss in progress may touch: the block it
   * fetches, and, before its transfer, the old number of a dirty victim.
   */
  function PendingIds(t: int, cl: Claim): set<int>
  {
    {t} + (if cl.phase == Detached && cl.holder.dirty then {cl.holder.blockNum} else {})
  }

  /**
   * With write-back guarded, no two misses in progress touch the same block on disk,
   * and no block a miss touches is resident.
   */
  lemma GuardedIoExclusive(m: Machine)
    requires Inv(m, GuardedWriteBack)
    ensures forall t, u :: t in m.claims && u in m.claims && t != u ==> PendingIds(t, m.claims[t]) !! PendingIds(u, m.claims[u])
    ensures forall t, h :: t in m.claims && h in m.cache.pool ==> h.blockNum !in PendingIds(t, m.claims[t])
  {
    forall t, u | t in m.claims && u in m.claims && t != u
      ensures PendingIds(t, m.claims[t]) !! PendingIds(u, m.claims[u])
    {
      PendingIsGuarded(m, t);
      PendingIsGuarded(m, u);
    }
    forall t, h | t in m.claims && h in m.cache.pool
      ensures h.blockNum !in PendingIds(t, m.claims[t])
    {
      PendingIsGuarded(m, t);
    }
  }

  /** The ids a guarded miss may touch are its own key and its guard, all in flight. */
  lemma PendingIsGuarded(m: Machine, t: int)
    requires Inv(m, GuardedWriteBack) && t in m.claims
    ensures PendingIds(t, m.claims[t]) <= {t} + GuardIds(m.claims[t].guard)
    ensures PendingIds(t, m.claims[t]) <= m.cache.inFlight
  {
    var cl := m.claims[t];
    assert ClaimOk(t, cl, GuardedWriteBack);
    if cl.guard.Some? {
      assert cl.guard.value in Guards(m.claims);
    }
  }

  /**
   * As written, a stale read: caller A misses on b and detaches the least recently
   * used slot, which holds block o dirty. Before A writes o back, caller B misses on
   * o (o is neither resident nor in flight), reads the store's old bytes for o, and
   * installs them as a clean resident slot. When A's write-back then lands, that
   * clean slot no longer mirrors the store, and B was served bytes that differ from
   * what the cache held for o.
   */
  lemma AsWrittenStaleRead(m: Machine, b: nat)
    requires Inv(m, AsWritten) && Coherent(m) && m.claims == map[]
    requires m.cache.pool[0].dirty
    requires m.cache.pool[0].data != StoreRead(m.store, m.cache.pool[0].blockNum)
    requires Lookup(m.cache.pool, b).None?
    ensures m.cache.pool[0].blockNum >= 0
    ensures var o: nat := m.cache.pool[0].blockNum;
            var m4 := Run(m, [Begin(b, ReadAccess), Begin(o, ReadAccess), Transfer(o), Finish(o)], AsWritten);
            var m5 := Next(m4, Transfer(b), AsWritten);
            && BlockHolder(o, StoreRead(m.store, o), false) in m4.cache.pool
            && StoreRead(m5.store, o) == m.cache.pool[0].data
            && !Coherent(m5)
  {
    var pool := m.cache.pool;
    var v := pool[0];
    var o: nat := v.blockNum;
    var ho := BlockHolder(o, StoreRead(m.store, o), false);
    var s1, s2, s3, s4 := Begin(b, ReadAccess), Begin(o, ReadAccess), Transfer(o), Finish(o);
    var m1, m2 := StaleReadMisses(m, b);
    var m3, m4 := StaleReadFill(m2, b, o, v, pool[1], ho);
    StaleReadWriteBack(m4, b, v, ho);
    RunFour(m, m1, m2, m3, m4, s1, s2, s3, s4, AsWritten);
  }

  /** A's miss on b, then B's miss on o. */
  lemma StaleReadMisses(m: Machine, b: nat) returns (m1: Machine, m2: Machine)
    requires Inv(m, AsWritten) && m.claims == map[] && Lookup(m.cache.pool, b).None?
    requires m.cache.pool[0].dirty
    ensures |m.cache.pool| == CacheBlocks && m.cache.pool[0].blockNum >= 0
    ensures var o: nat := m.cache.pool[0].blockNum;
            && m1 == Next(m, Begin(b, ReadAccess), AsWritten) && Steppable(m1)
            && m2 == Next(m1, Begin(o, ReadAccess), AsWritten) && Steppable(m2)
            && o != b && m.cache.pool[1].blockNum != o && WellFormed(m.cache.pool[1])
            && m2 == Machine(Cache(m.cache.pool[2..], {b, o}),
                             map[b := Claim(m.cache.pool[0], ReadAccess, Detached, None),
                                 o := Claim(m.cache.pool[1], ReadAccess, Detached, None)], m.store)
  {
    m1 := StaleReadFirstMiss(m, b);
    m2 := StaleReadSecondMiss(m, b, m1);
    assert m.cache.pool[1] in m.cache.pool;
  }

  /** B's fetch of o and the installation of B's slot, while A's miss is still in progress. */
  lemma StaleReadFill(m2: Machine, b: nat, o: nat, v: BlockHolder, w: BlockHolder, ho: BlockHolder)
    returns (m3: Machine, m4: Machine)
    requires Steppable(m2) && o != b && w.blockNum != o
    requires m2.claims == map[b := Claim(v, ReadAccess, Detached, None), o := Claim(w, ReadAccess, Detached, None)]
    requires m2.cache.inFlight == {b, o}
    requires ho == BlockHolder(o, StoreRead(m2.store, o), false)
    ensures m3 == Next(m2, Transfer(o), AsWritten) && Steppable(m3)
    ensures m4 == Next(m3, Finish(o), AsWritten) && Steppable(m4)
    ensures m4.claims == map[b := Claim(v, ReadAccess, Detached, None)]
    ensures ho in m4.cache.pool
  {
    m3 := StaleReadTransfer(m2, o, ho);
    m4 := StaleReadFinish(m3, o, b);
  }

  /** A misses on b and detaches the head slot, which holds o. */
  lemma StaleReadFirstMiss(m: Machine, b: nat) returns (m1: Machine)
    requires Inv(m, AsWritten) && m.claims == map[] && Lookup(m.cache.pool, b).None?
    ensures |m.cache.pool| == CacheBlocks && WellFormed(m.cache.pool[0])
    ensures m1 == Next(m, Begin(b, ReadAccess), AsWritten) && Steppable(m1)
    ensures m1 == Machine(Cache(m.cache.pool[1..], {b}),
                          map[b := Claim(m.cache.pool[0], ReadAccess, Detached, None)], m.store)
  {
    assert Guards(m.claims) == {};
    assert m.cache.pool[0] in m.cache.pool;
    BeginClaimsVictim(m, b, ReadAccess, AsWritten);
    m1 := Next(m, Begin(b, ReadAccess), AsWritten);
  }

  /** B misses on o, which is neither resident nor in flight, and detaches the next slot. */
  lemma StaleReadSecondMiss(m: Machine, b: nat, m1: Machine) returns (m2: Machine)
    requires PoolOk(m.cache) && WellFormedStore(m.store) && |m.cache.pool| == CacheBlocks
    requires Lookup(m.cache.pool, b).None?
    requires m.cache.pool[0].dirty
    requires m1 == Machine(Cache(m.cache.pool[1..], {b}),
                           map[b := Claim(m.cache.pool[0], ReadAccess, Detached, None)], m.store)
    ensures m.cache.pool[0].blockNum >= 0 && Steppable(m1)
    ensures var o: nat := m.cache.pool[0].blockNum;
            && m2 == Next(m1, Begin(o, ReadAccess), AsWritten) && Steppable(m2)
            && m.cache.pool[1].blockNum != o
            && m2 == Machine(Cache(m.cache.pool[2..], {b, o}),
                             map[b := Claim(m.cache.pool[0], ReadAccess, Detached, None),
                                 o := Claim(m.cache.pool[1], ReadAccess, Detached, None)], m.store)
  {
    var pool := m.cache.pool;
    var v, w := pool[0], pool[1];
    assert v in pool && w in pool;
    var o: nat := v.blockNum;
    assert o != b;
    HeadNotInTail(pool);
    BeginClaimsVictim(m1, o, ReadAccess, AsWritten);
    assert pool[1..][1..] == pool[2..];
    m2 := Next(m1, Begin(o, ReadAccess), AsWritten);
  }

  /** B's slot is installed as the most recently used one; A's miss is still in progress. */
  lemma StaleReadFinish(m3: Machine, o: nat, b: nat) returns (m4: Machine)
    requires Steppable(m3) && o in m3.claims && m3.claims[o].phase == Filled && m3.claims[o].guard == None
    requires m3.claims.Keys == {b, o} && b != o && m3.cache.inFlight == {b, o}
    ensures m4 == Next(m3, Finish(o), AsWritten) && Steppable(m4)
    ensures m4.cache.pool == m3.cache.pool + [m3.claims[o].holder] && m4.store == m3.store
    ensures m4.claims == map[b := m3.claims[b]]
  {
    m4 := Next(m3, Finish(o), AsWritten);
    assert m3.claims.Keys - {o} == {b};
  }

  /** A's write-back of o lands after B's slot for o was installed clean. */
  lemma StaleReadWriteBack(m4: Machine, b: nat, v: BlockHolder, ho: BlockHolder)
    requires Steppable(m4) && m4.claims == map[b := Claim(v, ReadAccess, Detached, None)]
    requires v.dirty && ho.blockNum == v.blockNum && ho.blockNum != b && ho in m4.cache.pool
    requires !ho.dirty && ho.data != v.data
    ensures StoreRead(Next(m4, Transfer(b), AsWritten).store, ho.blockNum) == v.data
    ensures !Coherent(Next(m4, Transfer(b), AsWritten))
  {
    var m5 := Next(m4, Transfer(b), AsWritten);
    assert m5.cache == m4.cache;
    assert !Mirrors(ho, m5.store);
  }

  /** B's fetch of o: the block is read from a store where only w's write-back has changed. */
  lemma StaleReadTransfer(m2: Machine, o: nat, ho: BlockHolder) returns (m3: Machine)
    requires Steppable(m2) && o in m2.claims && m2.claims[o].phase == Detached
    requires m2.claims[o].acc == ReadAccess && m2.claims[o].holder.blockNum != o
    requires ho == BlockHolder(o, StoreRead(m2.store, o), false)
    ensures m3 == Next(m2, Transfer(o), AsWritten) && Steppable(m3)
    ensures m3.cache == m2.cache && m3.claims == m2.claims[o := m2.claims[o].(holder := ho, phase := Filled)]
    ensures WellFormedStore(m3.store) && StoreRead(m3.store, o) == StoreRead(m2.store, o)
  {
    m3 := Next(m2, Transfer(o), AsWritten);
  }

  /** A miss on a block that is neither resident nor in flight detaches the head slot. */
  lemma BeginClaimsVictim(m: Machine, b: nat, acc: Access, proto: Protocol)
    requires Steppable(m) && acc.Valid() && |m.cache.pool| > 0
    requires Lookup(m.cache.pool, b).None? && b !in m.cache.inFlight
    ensures var g := WriteBackGuard(m.cache.pool[0], proto);
            Next(m, Begin(b, acc), proto)
            == Machine(Cache(m.cache.pool[1..], m.cache.inFlight + {b} + GuardIds(g)),
                       m.claims[b := Claim(m.cache.pool[0], acc, Detached, g)], m.store)
  {
  }

  /** Three steps run in order reach the state that three successive steps reach. */
  lemma RunThree(m: Machine, m1: Machine, m2: Machine, m3: Machine,
                 s1: Step, s2: Step, s3: Step, proto: Protocol)
    requires StepOk(s1) && StepOk(s2) && StepOk(s3)
    requires Steppable(m) && Steppable(m1) && Steppable(m2)
    requires m1 == Next(m, s1, proto) && m2 == Next(m1, s2, proto) && m3 == Next(m2, s3, proto)
    ensures Run(m, [s1, s2, s3], proto) == m3
  {
    RunStep(m2, s3, [], proto);
    RunStep(m1, s2, [s3], proto);
    RunStep(m, s1, [s2, s3], proto);
  }

  /** Running a first step and then the rest is running the rest from that step's result. */
  lemma RunStep(m: Machine, s: Step, rest: seq<Step>, proto: Protocol)
    requires Steppable(m) && StepOk(s)
    ensures Run(m, [s] + rest, proto) == Run(Next(m, s, proto), rest, proto)
  {
    assert ([s] + rest)[1..] == rest;
  }

  lemma RunFour(m: Machine, m1: Machine, m2: Machine, m3: Machine, m4: Machine,
                s1: Step, s2: Step, s3: Step, s4: Step, proto: Protocol)
    requires StepOk(s1) && StepOk(s2) && StepOk(s3) && StepOk(s4)
    requires Steppable(m) && Steppable(m1) && Steppable(m2) && Steppable(m3)
    requires m1 == Next(m, s1, proto) && m2 == Next(m1, s2, proto)
    requires m3 == Next(m2, s3, proto) && m4 == Next(m3, s4, proto)
    ensures Run(m, [s1, s2, s3, s4], proto) == m4
  {
    RunThree(m1, m2, m3, m4, s2, s3, s4, proto);
    RunStep(m, s1, [s2, s3, s4], proto);
  }
}
