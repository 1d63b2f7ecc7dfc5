/** What the consistency check looks for, as a property of the address book. It accepts every consistent
    book; a book that it accepts is consistent once its ids, its addresses and its slots are in order. */
module AddrBookCheck {
  import opened AddrBook
  import opened AddrBookOps
  import opened AddrBookRuns
  import AddrBookTheorems

  /** What `operator[]` of the map of addresses finds: a missing address reads as id zero. */
  function Lookup(byAddr: map<NetAddr, int>, ip: NetAddr): int {
    if ip in byAddr then byAddr[ip] else 0
  }

  ghost predicate EntryPasses(s: State, n: int)
    requires n in s.info
  {
    var e := s.info[n];
    && (if e.inTried then e.lastSuccess != 0 && e.refCount == 0 else 1 <= e.refCount <= NEW_BUCKETS_PER_ADDRESS)
    && Lookup(s.byAddr, e.addr.svc.ip) == n
    && 0 <= e.randomPos < |s.random| && s.random[e.randomPos] == n
    && 0 <= e.lastTry && 0 <= e.lastSuccess
  }

  ghost predicate AllEntriesPass(s: State) {
    forall n <- s.info :: EntryPasses(s, n)
  }

  ghost predicate TriedSlotPasses(h: Hashes, s: State, sl: Slot)
    requires sl in s.triedTable
  {
    var v := s.triedTable[sl];
    v in s.info && s.info[v].inTried && sl == TriedSlot(h, s.info[v].addr.svc)
  }

  ghost predicate HasTriedSlot(h: Hashes, s: State, k: int)
    requires k in s.info
  {
    var sl := TriedSlot(h, s.info[k].addr.svc);
    sl in s.triedTable && s.triedTable[sl] == k
  }

  ghost predicate TriedTablePasses(h: Hashes, s: State) {
    && (forall sl <- s.triedTable :: TriedSlotPasses(h, s, sl))
    && (forall k <- s.info | s.info[k].inTried :: HasTriedSlot(h, s, k))
  }

  ghost predicate NewSlotPasses(h: Hashes, s: State, sl: Slot)
    requires sl in s.newTable
  {
    var v := s.newTable[sl];
    v in s.info && !s.info[v].inTried && sl.pos == Position(h, s.info[v].addr.svc, true, sl.bucket)
  }

  ghost predicate NewTablePasses(h: Hashes, s: State) {
    && (forall sl <- s.newTable :: NewSlotPasses(h, s, sl))
    && (forall k <- s.info | !s.info[k].inTried :: s.info[k].refCount == |RefSlots(s.newTable, k)|)
  }

  /** Everything that `Check_` tests of the book itself. */
  ghost predicate Passes(h: Hashes, s: State) {
    && |s.random| == s.nTried + s.nNew
    && AllEntriesPass(s)
    && |TriedIds(s.info)| == s.nTried && |FreshIds(s.info)| == s.nNew
    && TriedTablePasses(h, s) && NewTablePasses(h, s)
  }

  /** What the invariant asks for and `Check_` does not look at: ids that were handed out, no stale address, and
      slots of the new table that exist. */
  ghost predicate Unchecked(s: State) {
    && (forall id <- s.info :: 0 <= id < s.idCount) && 0 <= s.idCount
    && AddrOk(s)
    && (forall sl <- s.newTable :: 0 <= sl.bucket < NEW_BUCKET_COUNT)
  }

  // ---------------------------------------------------------------- against the invariant

  lemma CountsAdd(info: map<int, AddrInfo>)
    ensures |TriedIds(info)| + |FreshIds(info)| == |info|
  {
    assert info.Keys == TriedIds(info) + FreshIds(info) && TriedIds(info) !! FreshIds(info);
    assert |info.Keys| == |info|;
  }

  lemma InvUnchecked(h: Hashes, s: State)
    requires Inv(h, s, {}, 0)
    ensures Unchecked(s)
  {
    forall id <- s.info ensures 0 <= id < s.idCount {
      assert EntryOk(h, s, id, id in {});
    }
  }

  lemma InvEntryPasses(h: Hashes, s: State, n: int)
    requires Inv(h, s, {}, 0) && n in s.info
    ensures EntryPasses(s, n) <==> StatsOk(s.info[n])
    ensures s.info[n].inTried ==> HasTriedSlot(h, s, n)
    ensures s.info[n].refCount == |RefSlots(s.newTable, n)|
  {
    assert EntryOk(h, s, n, n in {});
  }

  lemma OccupantIsFresh(h: Hashes, s: State, sl: Slot)
    requires Inv(h, s, {}, 0) && sl in s.newTable
    ensures NewSlotPasses(h, s, sl)
  {
    var v := s.newTable[sl];
    assert EntryOk(h, s, v, v in {});
    assert sl in RefSlots(s.newTable, v);
  }

  /** On the structure that every operation keeps, the check accepts exactly the books with sound times. */
  lemma InvPasses(h: Hashes, s: State)
    requires Inv(h, s, {}, 0)
    ensures Passes(h, s) <==> AllStatsOk(s)
  {
    CountsAdd(s.info);
    forall n <- s.info
      ensures EntryPasses(s, n) <==> StatsOk(s.info[n])
      ensures s.info[n].inTried ==> HasTriedSlot(h, s, n)
      ensures s.info[n].refCount == |RefSlots(s.newTable, n)|
    {
      InvEntryPasses(h, s, n);
    }
    forall sl <- s.newTable ensures NewSlotPasses(h, s, sl) {
      OccupantIsFresh(h, s, sl);
    }
    hide HasTriedSlot, EntryPasses, StatsOk, EntryOk, AddrOk, FreshOk;
  }

  lemma PickElement<T>(ids: set<T>) returns (n: T)
    requires ids != {}
    ensures n in ids
  {
    n :| n in ids;
  }

  /** The positions of a set of entries: one each. */
  lemma Positions(s: State, ids: set<int>) returns (ps: set<int>)
    requires AllEntriesPass(s) && ids <= s.info.Keys
    ensures |ps| == |ids|
    ensures forall p <- ps :: 0 <= p < |s.random| && s.random[p] in ids && s.info[s.random[p]].randomPos == p
    decreases |ids|
  {
    ps := {};
    if ids != {} {
      var n := PickElement(ids);
      assert EntryPasses(s, n);
      ps := Positions(s, ids - {n});
      ps := ps + {s.info[n].randomPos};
    }
  }

  ghost function Range(n: nat): (r: set<int>)
    ensures |r| == n && forall i :: i in r <==> 0 <= i < n
  {
    if n == 0 then {} else Range(n - 1) + {n - 1}
  }

  /** As many entries as places in the random order, each in a place of its own: every place is taken. */
  lemma PassesRandom(h: Hashes, s: State)
    requires Passes(h, s)
    ensures RandomOk(s)
  {
    CountsAdd(s.info);
    assert |s.info.Keys| == |s.info|;
    var ps := Positions(s, s.info.Keys);
    var all := Range(|s.random|);
    assert ps <= all;
    assert all == ps + (all - ps);
    assert all - ps == {};
    forall id <- s.info
      ensures 0 <= s.info[id].randomPos < |s.random| && s.random[s.info[id].randomPos] == id
    {
      assert EntryPasses(s, id);
    }
    forall i | 0 <= i < |s.random| ensures s.random[i] in s.info && s.info[s.random[i]].randomPos == i {
      assert i in all;
    }
  }

  lemma PassesEntry(h: Hashes, s: State, n: int)
    requires Passes(h, s) && Unchecked(s) && n in s.info
    ensures EntryOk(h, s, n, n in {}) && StatsOk(s.info[n])
  {
    assert EntryPasses(s, n);
    if s.info[n].inTried {
      assert HasTriedSlot(h, s, n);
      forall sl <- s.newTable ensures s.newTable[sl] != n {
        assert NewSlotPasses(h, s, sl);
      }
      assert RefSlots(s.newTable, n) == {};
    }
  }

  /** The check is exact up to what it does not look at. */
  lemma ConsistentIffPasses(h: Hashes, s: State)
    ensures Consistent(h, s) <==> Passes(h, s) && Unchecked(s)
  {
    if Consistent(h, s) {
      InvPasses(h, s);
      InvUnchecked(h, s);
    }
    if Passes(h, s) && Unchecked(s) {
      PassesIsConsistent(h, s);
    }
  }

  lemma PassesTables(h: Hashes, s: State)
    requires Passes(h, s) && Unchecked(s)
    ensures FreshOk(h, s) && TriedOk(h, s)
  {
    hide EntryPasses, AllEntriesPass, AddrOk, TriedIds, FreshIds;
    forall sl <- s.newTable ensures NewSlotPasses(h, s, sl) {}
    forall sl <- s.triedTable ensures TriedSlotPasses(h, s, sl) {}
  }

  lemma PassesIsConsistent(h: Hashes, s: State)
    requires Passes(h, s) && Unchecked(s)
    ensures Consistent(h, s)
  {
    PassesRandom(h, s);
    forall n <- s.info ensures EntryOk(h, s, n, n in {}) && StatsOk(s.info[n]) {
      PassesEntry(h, s, n);
    }
    PassesTables(h, s);
    hide RandomOk, AddrOk, EntryOk, StatsOk, FreshOk, TriedOk, AllEntriesPass, TriedTablePasses, NewTablePasses;
  }

  // ---------------------------------------------------------------- the books it rejects

  /** After Good_ on a consistent book the check succeeds exactly when the time was positive or no entry
      was found. */
  lemma GoodPasses(h: Hashes, s: State, svc: Service, time: int)
    requires Consistent(h, s)
    ensures GoodDefined(h, s, svc, time)
    ensures Passes(h, Good(h, s, svc, time)) <==> (Target(s, svc) in s.info ==> 0 < time)
  {
    hide Inv, Passes, AllStatsOk, Target, Good, GoodDefined;
    GoodKeepsConsistency(h, s, svc, time);
    GoodKeepsInv(h, s, svc, time);
    InvPasses(h, Good(h, s, svc, time));
  }

  /** After Attempt_ the time must not have been negative. */
  lemma AttemptPasses(h: Hashes, s: State, svc: Service, time: int)
    requires Consistent(h, s)
    ensures Passes(h, Attempt(s, svc, time)) <==> (Target(s, svc) in s.info ==> 0 <= time)
  {
    hide Inv, Passes, AllStatsOk, Target, Attempt;
    AttemptKeepsConsistency(h, s, svc, time);
    AttemptKeepsInv(h, s, svc, time);
    InvPasses(h, Attempt(s, svc, time));
  }

  /** Two calls from the empty book reach a book that the check rejects, whatever the hashes, the address and
      the draw: an addition, then Good_ at time zero or Attempt_ before time zero. */
  lemma RejectedAfterTwoCalls(h: Hashes, a: Address, source: NetAddr, penalty: int, now: int, draw: nat, time: int)
    ensures Addable(h, EMPTY, a, source, penalty, now, draw)
    ensures var s := Add(h, EMPTY, a, true, source, penalty, now, draw);
      && Passes(h, s)
      && GoodDefined(h, s, a.svc, time)
      && (time <= 0 ==> !Passes(h, Good(h, s, a.svc, time)))
      && (time < 0 ==> !Passes(h, Attempt(s, a.svc, time)))
  {
    EmptyIsConsistent(h);
    AddrBookTheorems.AddKeepsConsistency(h, EMPTY, a, true, source, penalty, now, draw);
    var s := Add(h, EMPTY, a, true, source, penalty, now, draw);
    AddedIsFound(h, a, source, penalty, now, draw);
    hide Passes, Good, GoodDefined, Attempt, Consistent, Target, Add, Addable;
    ConsistentIffPasses(h, s);
    GoodPasses(h, s, a.svc, time);
    AttemptPasses(h, s, a.svc, time);
  }

  lemma AddedIsFound(h: Hashes, a: Address, source: NetAddr, penalty: int, now: int, draw: nat)
    requires Addable(h, EMPTY, a, source, penalty, now, draw)
    ensures var s := Add(h, EMPTY, a, true, source, penalty, now, draw); Target(s, a.svc) in s.info
  {
    hide NewSlot, IsTerrible;
    assert Find(EMPTY, a.svc.ip) == -1;
    var (t, id) := AddPrepared(EMPTY, a, source, penalty, now, draw);
    assert id == 0 && t.newTable == map[];
  }
}
