/** Each internal step of the address book keeps the invariant, with the ids that the step leaves in
    neither table accounted for in `limbo`; the assertions of the original never fail on the way.

    A step is proved one conjunct of the invariant at a time; the other conjuncts stay hidden. */
module AddrBookSteps {
  import opened AddrBook

  // ---------------------------------------------------------------- counting slots

  lemma RefSlotsAfterSet(t: Table, sl: Slot, id: int, other: int)
    requires sl !in t
    ensures RefSlots(t[sl := id], other) == if other == id then RefSlots(t, other) + {sl} else RefSlots(t, other)
  {
  }

  lemma RefSlotsAfterClear(t: Table, sl: Slot, other: int)
    requires sl in t
    ensures RefSlots(t - {sl}, other) == if other == t[sl] then RefSlots(t, other) - {sl} else RefSlots(t, other)
    ensures sl in RefSlots(t, t[sl])
  {
  }

  /** An id that counts no slots has none. */
  lemma NoRefs(t: Table, id: int)
    requires |RefSlots(t, id)| == 0
    ensures forall sl <- t :: t[sl] != id
  {
    assert forall sl <- t :: t[sl] == id ==> sl in RefSlots(t, id);
  }

  // ---------------------------------------------------------------- one entry changes

  /** One entry changes, but neither its address nor its place in the random order. */
  ghost predicate SameButOne(info: map<int, AddrInfo>, info': map<int, AddrInfo>, id: int) {
    && info.Keys == info'.Keys
    && id in info
    && (forall k <- info | k != id :: info'[k] == info[k])
    && info'[id].addr.svc == info[id].addr.svc
    && info'[id].randomPos == info[id].randomPos
  }

  lemma SameButOneTried(info: map<int, AddrInfo>, info': map<int, AddrInfo>, id: int)
    requires SameButOne(info, info', id)
    ensures TriedIds(info') == if info'[id].inTried then TriedIds(info) + {id} else TriedIds(info) - {id}
  {
    forall k
      ensures k in TriedIds(info') <==> k in if info'[id].inTried then TriedIds(info) + {id} else TriedIds(info) - {id}
    {
      assert k in info.Keys <==> k in info'.Keys;
    }
  }

  lemma SameButOneFresh(info: map<int, AddrInfo>, info': map<int, AddrInfo>, id: int)
    requires SameButOne(info, info', id)
    ensures FreshIds(info') == if info'[id].inTried then FreshIds(info) - {id} else FreshIds(info) + {id}
  {
    forall k
      ensures k in FreshIds(info') <==> k in if info'[id].inTried then FreshIds(info) - {id} else FreshIds(info) + {id}
    {
      assert k in info.Keys <==> k in info'.Keys;
    }
  }

  lemma SameButOneSize(info: map<int, AddrInfo>, info': map<int, AddrInfo>, id: int)
    requires SameButOne(info, info', id)
    ensures id in info && id in info' && |info| == |info'|
    ensures id in TriedIds(info) <==> info[id].inTried
    ensures id in FreshIds(info) <==> !info[id].inTried
  {
    assert |info.Keys| == |info| && |info'.Keys| == |info'|;
  }

  lemma SameButOneCounts(info: map<int, AddrInfo>, info': map<int, AddrInfo>, id: int)
    requires SameButOne(info, info', id)
    ensures |info| == |info'|
    ensures info'[id].inTried == info[id].inTried ==>
      |TriedIds(info')| == |TriedIds(info)| && |FreshIds(info')| == |FreshIds(info)|
    ensures info'[id].inTried && !info[id].inTried ==>
      |TriedIds(info')| == |TriedIds(info)| + 1 && |FreshIds(info')| == |FreshIds(info)| - 1
    ensures !info'[id].inTried && info[id].inTried ==>
      |TriedIds(info')| == |TriedIds(info)| - 1 && |FreshIds(info')| == |FreshIds(info)| + 1
  {
    hide TriedIds, FreshIds, SameButOne;
    SameButOneSize(info, info', id);
    SameButOneTried(info, info', id);
    SameButOneFresh(info, info', id);
    if info[id].inTried {
      assert TriedIds(info) + {id} == TriedIds(info) && FreshIds(info) - {id} == FreshIds(info);
    } else {
      assert TriedIds(info) - {id} == TriedIds(info) && FreshIds(info) + {id} == FreshIds(info);
    }
  }

  lemma IndexesKept(s: State, t: State, id: int)
    requires RandomOk(s) && AddrOk(s) && SameButOne(s.info, t.info, id)
    requires t.random == s.random && t.byAddr == s.byAddr
    ensures RandomOk(t) && AddrOk(t)
  {
    assert |s.info.Keys| == |s.info| && |t.info.Keys| == |t.info|;
    forall k | k in t.info
      ensures k in s.info && t.info[k].addr.svc == s.info[k].addr.svc && t.info[k].randomPos == s.info[k].randomPos
    {
      assert k in s.info.Keys;
    }
  }

  lemma NewTableShrunk(h: Hashes, s: State, t: State, id: int)
    requires FreshOk(h, s) && SameButOne(s.info, t.info, id)
    requires forall sl <- t.newTable :: sl in s.newTable && t.newTable[sl] == s.newTable[sl]
    ensures FreshOk(h, t)
  {
  }

  lemma NewTableGrown(h: Hashes, s: State, t: State, sl: Slot, id: int)
    requires FreshOk(h, s) && SameButOne(s.info, t.info, id) && t.newTable == s.newTable[sl := id]
    requires 0 <= sl.bucket < NEW_BUCKET_COUNT && sl.pos == Position(h, s.info[id].addr.svc, true, sl.bucket)
    ensures FreshOk(h, t)
  {
    forall x | x in t.newTable
      ensures t.newTable[x] in t.info && 0 <= x.bucket < NEW_BUCKET_COUNT
      ensures x.pos == Position(h, t.info[t.newTable[x]].addr.svc, true, x.bucket)
    {
      if x != sl {
        var k := s.newTable[x];
        assert k in s.info.Keys;
      }
    }
  }

  lemma TriedTableKept(h: Hashes, s: State, t: State, id: int)
    requires TriedOk(h, s) && SameButOne(s.info, t.info, id)
    requires forall sl <- t.triedTable :: sl in s.triedTable && t.triedTable[sl] == s.triedTable[sl]
    requires t.info[id].inTried || forall sl <- t.triedTable :: t.triedTable[sl] != id
    ensures TriedOk(h, t)
  {
    forall sl | sl in t.triedTable
      ensures t.triedTable[sl] in t.info && t.info[t.triedTable[sl]].inTried
      ensures sl == TriedSlot(h, t.info[t.triedTable[sl]].addr.svc)
    {
      var k := s.triedTable[sl];
      assert sl in s.triedTable && k in s.info.Keys && s.info[k].inTried;
    }
  }

  lemma EntryKept(h: Hashes, s: State, t: State, k: int, id: int, limbo: bool)
    requires k in s.info && EntryOk(h, s, k, limbo) && SameButOne(s.info, t.info, id) && k != id
    requires t.idCount == s.idCount && RefSlots(t.newTable, k) == RefSlots(s.newTable, k)
    requires forall sl <- s.triedTable | s.triedTable[sl] == k :: sl in t.triedTable && t.triedTable[sl] == k
    ensures k in t.info && EntryOk(h, t, k, limbo)
  {
    assert k in t.info.Keys;
  }

  lemma InNewSlot(h: Hashes, s: State, sl: Slot)
    requires FreshOk(h, s) && sl in s.newTable
    ensures s.newTable[sl] in s.info
  {
  }

  lemma InTriedSlot(h: Hashes, s: State, sl: Slot)
    requires TriedOk(h, s) && sl in s.triedTable
    ensures s.triedTable[sl] in s.info && s.info[s.triedTable[sl]].inTried
  {
  }

  lemma InLimbo(h: Hashes, s: State, id: int)
    requires id in s.info && EntryOk(h, s, id, true)
    ensures s.info[id].refCount == 0 && !s.info[id].inTried
  {
  }

  // ---------------------------------------------------------------- statistics

  /** An entry's statistics change in a way that leaves it where it is. */
  ghost predicate StatsOnly(e: AddrInfo, e': AddrInfo) {
    && e'.addr.svc == e.addr.svc && e'.randomPos == e.randomPos
    && e'.refCount == e.refCount && e'.inTried == e.inTried
    && e'.source == e.source
  }

  lemma StatsEntryOk(h: Hashes, s: State, id: int, e: AddrInfo, limbo: bool)
    requires id in s.info && EntryOk(h, s, id, limbo) && StatsOnly(s.info[id], e)
    ensures EntryOk(h, s.(info := s.info[id := e]), id, limbo)
  {
  }

  lemma StatsKeepInv(h: Hashes, s: State, id: int, e: AddrInfo)
    requires Inv(h, s, {}, 0) && id in s.info && StatsOnly(s.info[id], e)
    ensures Inv(h, s.(info := s.info[id := e]), {}, 0)
  {
    hide RandomOk, AddrOk, TriedOk, FreshOk, EntryOk, TriedIds, FreshIds, RefSlots;
    var t := s.(info := s.info[id := e]);
    assert t.info.Keys == s.info.Keys;
    assert SameButOne(s.info, t.info, id);
    SameButOneCounts(s.info, t.info, id);
    IndexesKept(s, t, id);
    NewTableShrunk(h, s, t, id);
    StatsTriedTable(h, s, t, id);
    forall k | k in t.info ensures EntryOk(h, t, k, k in {}) {
      assert k in s.info.Keys;
      assert EntryOk(h, s, k, k in {});
      if k != id {
        EntryKept(h, s, t, k, id, false);
      } else {
        StatsEntryOk(h, s, id, e, false);
      }
    }
  }

  lemma StatsTriedTable(h: Hashes, s: State, t: State, id: int)
    requires TriedOk(h, s) && SameButOne(s.info, t.info, id) && t.triedTable == s.triedTable
    requires t.info[id].inTried == s.info[id].inTried
    ensures TriedOk(h, t)
  {
    if !t.info[id].inTried {
      assert forall sl <- s.triedTable :: s.triedTable[sl] != id;
    }
    TriedTableKept(h, s, t, id);
  }

  // ---------------------------------------------------------------- swap, delete, create

  /** Only places in the random order differ. */
  ghost predicate SameButOrder(info: map<int, AddrInfo>, info': map<int, AddrInfo>) {
    && info.Keys == info'.Keys
    && forall k <- info :: info'[k].(randomPos := 0) == info[k].(randomPos := 0)
  }

  lemma OrderIrrelevant(h: Hashes, s: State, t: State)
    requires SameButOrder(s.info, t.info) && AddrOk(s) && FreshOk(h, s) && TriedOk(h, s)
    requires t == s.(info := t.info, random := t.random)
    ensures AddrOk(t) && FreshOk(h, t) && TriedOk(h, t)
    ensures TriedIds(t.info) == TriedIds(s.info) && FreshIds(t.info) == FreshIds(s.info)
  {
    forall k
      ensures k in s.info <==> k in t.info
      ensures k in t.info ==> t.info[k].addr == s.info[k].addr && t.info[k].inTried == s.info[k].inTried
    {
      assert k in s.info.Keys <==> k in t.info.Keys;
      if k in s.info {
        assert t.info[k].(randomPos := 0) == s.info[k].(randomPos := 0);
      }
    }
  }

  lemma OrderIrrelevantEntry(h: Hashes, s: State, t: State, k: int, limbo: bool)
    requires SameButOrder(s.info, t.info) && k in s.info && EntryOk(h, s, k, limbo)
    requires t == s.(info := t.info, random := t.random)
    ensures k in t.info && EntryOk(h, t, k, limbo)
  {
    assert k in t.info.Keys;
    assert t.info[k].(randomPos := 0) == s.info[k].(randomPos := 0);
  }

  lemma SwapIsOrder(s: State, i: int, j: int)
    requires i != j ==> Swappable(s, i, j)
    ensures SameButOrder(s.info, SwapRandom(s, i, j).info)
    ensures SwapRandom(s, i, j) == s.(info := SwapRandom(s, i, j).info, random := SwapRandom(s, i, j).random)
  {
    assert SwapRandom(s, i, j).info.Keys == s.info.Keys;
  }

  lemma SwappableAnywhere(s: State, i: int, j: int)
    requires RandomOk(s) && 0 <= i < |s.random| && 0 <= j < |s.random|
    ensures Swappable(s, i, j)
  {
  }

  lemma SwapKeepsInv(h: Hashes, s: State, i: int, j: int, limbo: set<int>, uncounted: int)
    requires Inv(h, s, limbo, uncounted) && 0 <= i < |s.random| && 0 <= j < |s.random|
    ensures Swappable(s, i, j)
    ensures Inv(h, SwapRandom(s, i, j), limbo, uncounted)
    ensures SameButOrder(s.info, SwapRandom(s, i, j).info)
  {
    hide RandomOk, AddrOk, TriedOk, FreshOk, EntryOk, TriedIds, FreshIds, RefSlots, SwapRandom, Swappable;
    SwappableAnywhere(s, i, j);
    SwapKeepsRandom(s, i, j);
    SwapIsOrder(s, i, j);
    var t := SwapRandom(s, i, j);
    OrderIrrelevant(h, s, t);
    forall k | k in t.info ensures EntryOk(h, t, k, k in limbo) {
      assert k in s.info.Keys;
      assert EntryOk(h, s, k, k in limbo);
      OrderIrrelevantEntry(h, s, t, k, k in limbo);
    }
  }

  lemma LimboIsDeletable(h: Hashes, s: State, id: int, limbo: set<int>, uncounted: int)
    requires Inv(h, s, limbo, uncounted) && id in limbo
    ensures Deletable(s, id)
    ensures s.random[s.info[id].randomPos] == id
    ensures forall sl <- s.newTable :: s.newTable[sl] != id
    ensures forall sl <- s.triedTable :: s.triedTable[sl] != id
  {
    assert EntryOk(h, s, id, true);
    NoRefs(s.newTable, id);
  }

  /** The last element of the random order is dropped from the two indexes. */
  lemma DropKeepsRandom(t: State, u: State, id: int)
    requires RandomOk(t) && id in t.info && |t.random| > 0 && t.random[|t.random| - 1] == id
    requires u == Dropped(t, id)
    ensures RandomOk(u)
  {
    DropSize(t, u, id);
    DropKeepsPositions(t, id);
    DropKeepsOrder(t, id);
  }

  lemma DropSize(t: State, u: State, id: int)
    requires id in t.info && |t.random| > 0 && u == Dropped(t, id)
    ensures |u.info| == |t.info| - 1
  {
    assert u.info.Keys == t.info.Keys - {id};
    assert |u.info.Keys| == |u.info| && |t.info.Keys| == |t.info|;
  }

  lemma DropKeepsPositions(t: State, id: int)
    requires RandomOk(t) && id in t.info && |t.random| > 0 && t.random[|t.random| - 1] == id
    ensures forall k <- t.info | k != id ::
      0 <= t.info[k].randomPos < |t.random| - 1 && t.random[t.info[k].randomPos] == k
  {
  }

  lemma DropKeepsOrder(t: State, id: int)
    requires RandomOk(t) && id in t.info && |t.random| > 0 && t.random[|t.random| - 1] == id
    ensures forall i | 0 <= i < |t.random| - 1 ::
      t.random[i] in t.info - {id} && t.info[t.random[i]].randomPos == i
  {
  }

  lemma DropKeepsAddr(t: State, u: State, id: int)
    requires AddrOk(t) && id in t.info && |t.random| > 0 && u == Dropped(t, id)
    ensures AddrOk(u)
  {
  }

  function Dropped(t: State, id: int): State
    requires id in t.info && |t.random| > 0
  {
    t.(random := t.random[..|t.random| - 1],
       byAddr := t.byAddr - {t.info[id].addr.svc.ip},
       info := t.info - {id},
       nNew := t.nNew - 1)
  }

  lemma DropKeepsTables(h: Hashes, t: State, u: State, id: int)
    requires FreshOk(h, t) && TriedOk(h, t) && id in t.info && |t.random| > 0 && u == Dropped(t, id)
    requires !t.info[id].inTried
    requires forall sl <- t.newTable :: t.newTable[sl] != id
    ensures FreshOk(h, u) && TriedOk(h, u)
    ensures |TriedIds(u.info)| == |TriedIds(t.info)| && |FreshIds(u.info)| == |FreshIds(t.info)| - 1
  {
    assert TriedIds(u.info) == TriedIds(t.info);
    assert FreshIds(u.info) == FreshIds(t.info) - {id} && id in FreshIds(t.info);
  }

  lemma DropKeepsEntry(h: Hashes, t: State, u: State, id: int, k: int, limbo: bool)
    requires id in t.info && |t.random| > 0 && u == Dropped(t, id)
    requires k in u.info && EntryOk(h, t, k, limbo)
    ensures EntryOk(h, u, k, limbo)
  {
  }

  lemma DeleteIsDropped(s: State, id: int)
    requires Deletable(s, id)
    ensures var t := SwapRandom(s, s.info[id].randomPos, |s.random| - 1);
      && id in t.info && t.info[id].addr.svc == s.info[id].addr.svc
      && |t.random| == |s.random| > 0 && Delete(s, id) == Dropped(t, id)
      && (s.random[s.info[id].randomPos] == id ==> t.random[|t.random| - 1] == id)
  {
    hide SwapRandom;
    SwapKeepsEntry(s, s.info[id].randomPos, |s.random| - 1, id);
  }

  lemma SwapKeepsEntry(s: State, i: int, j: int, id: int)
    requires Swappable(s, i, j) && id in s.info
    ensures var t := SwapRandom(s, i, j);
      && id in t.info && t.info[id].addr == s.info[id].addr
      && |t.random| == |s.random| && t.random[j] == s.random[i]
      && t.byAddr == s.byAddr && t.nNew == s.nNew
  {
  }

  lemma DropKeepsInv(h: Hashes, t: State, id: int, limbo: set<int>, uncounted: int)
    requires Inv(h, t, limbo, uncounted) && id in limbo && |t.random| > 0 && t.random[|t.random| - 1] == id
    ensures Inv(h, Dropped(t, id), limbo - {id}, uncounted)
  {
    hide RandomOk, AddrOk, TriedOk, FreshOk, EntryOk, TriedIds, FreshIds, RefSlots;
    var u := Dropped(t, id);
    LimboIsDeletable(h, t, id, limbo, uncounted);
    DropKeepsRandom(t, u, id);
    DropKeepsAddr(t, u, id);
    assert EntryOk(h, t, id, id in limbo);
    InLimbo(h, t, id);
    DropKeepsTables(h, t, u, id);
    assert u.info.Keys == t.info.Keys - {id};
    forall k | k in u.info ensures EntryOk(h, u, k, k in limbo - {id}) {
      assert k in u.info.Keys && k in t.info.Keys && k != id;
      assert EntryOk(h, t, k, k in limbo);
      DropKeepsEntry(h, t, u, id, k, k in limbo);
    }
  }

  lemma DeleteKeepsInv(h: Hashes, s: State, id: int, limbo: set<int>, uncounted: int)
    requires Inv(h, s, limbo, uncounted) && id in limbo
    ensures Deletable(s, id)
    ensures Inv(h, Delete(s, id), limbo - {id}, uncounted)
    ensures SameButOrder(s.info - {id}, Delete(s, id).info)
    ensures Delete(s, id).byAddr == s.byAddr - {s.info[id].addr.svc.ip}
    ensures Delete(s, id) == s.(info := Delete(s, id).info, byAddr := Delete(s, id).byAddr,
                                random := Delete(s, id).random, nNew := s.nNew - 1)
  {
    LimboIsDeletable(h, s, id, limbo, uncounted);
    hide *;
    DeleteIsDropped(s, id);
    var last := |s.random| - 1;
    SwapKeepsInv(h, s, s.info[id].randomPos, last, limbo, uncounted);
    SwapIsOrder(s, s.info[id].randomPos, last);
    var t := SwapRandom(s, s.info[id].randomPos, last);
    DropKeepsInv(h, t, id, limbo, uncounted);
    DropLemma(s, t, Delete(s, id), id);
  }

  lemma DropLemma(s: State, t: State, u: State, id: int)
    requires SameButOrder(s.info, t.info) && t == s.(info := t.info, random := t.random)
    requires id in t.info && |t.random| > 0 && u == Dropped(t, id)
    ensures SameButOrder(s.info - {id}, u.info)
    ensures u.info.Keys == t.info.Keys - {id}
    ensures u == s.(info := u.info, byAddr := u.byAddr, random := u.random, nNew := s.nNew - 1)
    ensures t.info[id].addr.svc == s.info[id].addr.svc ==> u.byAddr == s.byAddr - {s.info[id].addr.svc.ip}
  {
    assert u.info.Keys == t.info.Keys - {id};
    assert (s.info - {id}).Keys == s.info.Keys - {id};
  }

  lemma CreateKeepsRandom(s: State, t: State, e: AddrInfo)
    requires RandomOk(s) && s.idCount !in s.info
    requires e.randomPos == |s.random| && t.info == s.info[s.idCount := e] && t.random == s.random + [s.idCount]
    ensures RandomOk(t)
  {
    assert t.info.Keys == s.info.Keys + {s.idCount};
    assert |t.info.Keys| == |t.info| && |s.info.Keys| == |s.info|;
  }

  lemma CreateKeepsAddr(s: State, t: State, e: AddrInfo)
    requires AddrOk(s) && s.idCount !in s.info && e.addr.svc.ip !in s.byAddr
    requires t.info == s.info[s.idCount := e] && t.byAddr == s.byAddr[e.addr.svc.ip := s.idCount]
    ensures AddrOk(t)
  {
  }

  lemma CreateIsFresh(h: Hashes, s: State)
    requires Inv(h, s, {}, 0)
    ensures s.idCount !in s.info
  {
    forall id | id in s.info ensures id < s.idCount {
      assert EntryOk(h, s, id, id in {});
    }
  }

  lemma CreateKeepsTables(h: Hashes, s: State, t: State, e: AddrInfo)
    requires FreshOk(h, s) && TriedOk(h, s) && s.idCount !in s.info && !e.inTried
    requires t.info == s.info[s.idCount := e] && t.newTable == s.newTable && t.triedTable == s.triedTable
    ensures FreshOk(h, t) && TriedOk(h, t)
  {
    hide Position, TriedSlot;
  }

  lemma CreateCounts(s: State, t: State, e: AddrInfo)
    requires s.idCount !in s.info && !e.inTried && t.info == s.info[s.idCount := e]
    ensures |TriedIds(t.info)| == |TriedIds(s.info)| && |FreshIds(t.info)| == |FreshIds(s.info)| + 1
  {
    assert TriedIds(t.info) == TriedIds(s.info);
    assert FreshIds(t.info) == FreshIds(s.info) + {s.idCount} && s.idCount !in FreshIds(s.info);
  }

  lemma CreateEntryOk(h: Hashes, s: State, t: State, k: int, e: AddrInfo)
    requires FreshOk(h, s) && s.idCount !in s.info && 0 <= s.idCount
    requires e.refCount == e.lastTry == e.lastSuccess == 0 && !e.inTried
    requires t.info == s.info[s.idCount := e] && t.newTable == s.newTable && t.triedTable == s.triedTable
    requires t.idCount == s.idCount + 1
    requires k in t.info && (k != s.idCount ==> EntryOk(h, s, k, false))
    ensures EntryOk(h, t, k, k == s.idCount)
  {
    if k == s.idCount {
      assert RefSlots(t.newTable, k) == {};
    }
  }

  lemma CreateNewShape(s: State, a: Address, source: NetAddr, penalty: int)
    ensures var t := CreateNew(s, a, source, penalty);
      && s.idCount in t.info
      && var e := t.info[s.idCount];
         && t == s.(idCount := s.idCount + 1, info := s.info[s.idCount := e], byAddr := s.byAddr[a.svc.ip := s.idCount],
                    random := s.random + [s.idCount], nNew := s.nNew + 1)
         && e.addr.svc == a.svc && e.source == source && e.randomPos == |s.random|
         && e.refCount == e.lastTry == e.lastSuccess == e.attempts == 0 && !e.inTried
  {
  }

  /** A new entry is known, counted as new, and has no slot yet. */
  lemma CreateNewKeepsInv(h: Hashes, s: State, a: Address, source: NetAddr, penalty: int)
    requires Inv(h, s, {}, 0) && a.svc.ip !in s.byAddr
    ensures Inv(h, CreateNew(s, a, source, penalty), {s.idCount}, 0)
  {
    hide RandomOk, AddrOk, TriedOk, FreshOk, EntryOk, TriedIds, FreshIds, RefSlots, CreateNew;
    CreateIsFresh(h, s);
    CreateNewShape(s, a, source, penalty);
    var t := CreateNew(s, a, source, penalty);
    var e := t.info[s.idCount];
    CreateKeepsRandom(s, t, e);
    CreateKeepsAddr(s, t, e);
    CreateCounts(s, t, e);
    CreateKeepsTables(h, s, t, e);
    forall k | k in t.info ensures EntryOk(h, t, k, k in {s.idCount}) {
      if k != s.idCount {
        assert k in s.info && EntryOk(h, s, k, k in {});
      }
      CreateEntryOk(h, s, t, k, e);
    }
  }

  // ---------------------------------------------------------------- slots of the new table

  lemma UnslotEntryOk(h: Hashes, s: State, sl: Slot, limbo: bool)
    requires sl in s.newTable && s.newTable[sl] in s.info && EntryOk(h, s, s.newTable[sl], limbo)
    ensures var id := s.newTable[sl];
      && !limbo && 1 <= s.info[id].refCount && !s.info[id].inTried
      && EntryOk(h, Unslot(s, sl), id, s.info[id].refCount == 1)
  {
    RefSlotsAfterClear(s.newTable, sl, s.newTable[sl]);
  }

  lemma UnslotKeepsInv(h: Hashes, s: State, sl: Slot, limbo: set<int>, uncounted: int)
    requires Inv(h, s, limbo, uncounted) && sl in s.newTable
    ensures var id := s.newTable[sl];
      && id in s.info && id !in limbo && 1 <= s.info[id].refCount && !s.info[id].inTried
      && Inv(h, Unslot(s, sl), if s.info[id].refCount == 1 then limbo + {id} else limbo, uncounted)
  {
    hide RandomOk, AddrOk, TriedOk, FreshOk, EntryOk, TriedIds, FreshIds, RefSlots;
    var id := s.newTable[sl];
    InNewSlot(h, s, sl);
    assert EntryOk(h, s, id, id in limbo);
    UnslotEntryOk(h, s, sl, id in limbo);
    var t := Unslot(s, sl);
    assert t.info.Keys == s.info.Keys;
    assert SameButOne(s.info, t.info, id);
    SameButOneCounts(s.info, t.info, id);
    IndexesKept(s, t, id);
    StatsTriedTable(h, s, t, id);
    NewTableShrunk(h, s, t, id);
    forall k | k in t.info ensures EntryOk(h, t, k, k in if s.info[id].refCount == 1 then limbo + {id} else limbo) {
      assert k in s.info.Keys;
      assert EntryOk(h, s, k, k in limbo);
      RefSlotsAfterClear(s.newTable, sl, k);
      if k != id {
        EntryKept(h, s, t, k, id, k in limbo);
      }
    }
  }

  /** The entry that clearing a slot forgets: the slot's occupant, when that was its last slot. */
  ghost function Forgotten(s: State, sl: Slot): set<int> {
    if sl in s.newTable && s.newTable[sl] in s.info && s.info[s.newTable[sl]].refCount == 1
    then {s.newTable[sl]} else {}
  }

  ghost function Occupants(s: State, sl: Slot): set<int> {
    if sl in s.newTable then {s.newTable[sl]} else {}
  }

  /** What is recorded about an address, as opposed to where its entry is. */
  ghost predicate SameRecord(e: AddrInfo, e': AddrInfo) {
    && e'.addr == e.addr && e'.source == e.source
    && e'.lastTry == e.lastTry && e'.lastSuccess == e.lastSuccess && e'.attempts == e.attempts
  }

  /** No entry appears, records stay, and only the given ids change tables or multiplicity. */
  ghost predicate FrameExcept(s: State, t: State, ids: set<int>) {
    forall k <- t.info ::
      && k in s.info && SameRecord(s.info[k], t.info[k])
      && (k !in ids ==> t.info[k].inTried == s.info[k].inTried && t.info[k].refCount == s.info[k].refCount)
  }

  lemma FrameTransitive(s: State, t: State, u: State, a: set<int>, b: set<int>)
    requires FrameExcept(s, t, a) && FrameExcept(t, u, b)
    ensures FrameExcept(s, u, a + b)
  {
    forall k | k in u.info
      ensures k in s.info && SameRecord(s.info[k], u.info[k])
      ensures k !in a + b ==> u.info[k].inTried == s.info[k].inTried && u.info[k].refCount == s.info[k].refCount
    {
      assert k in t.info && SameRecord(t.info[k], u.info[k]);
      assert SameRecord(s.info[k], t.info[k]);
    }
  }

  lemma OrderFrame(s: State, t: State, u: State, id: int, ids: set<int>)
    requires FrameExcept(s, t, ids) && id in t.info && SameButOrder(t.info - {id}, u.info)
    ensures FrameExcept(s, u, ids)
    ensures u.info.Keys == t.info.Keys - {id}
  {
    assert (t.info - {id}).Keys == t.info.Keys - {id};
    forall k | k in u.info
      ensures k in s.info && SameRecord(s.info[k], u.info[k])
      ensures k !in ids ==> u.info[k].inTried == s.info[k].inTried && u.info[k].refCount == s.info[k].refCount
    {
      assert k in (t.info - {id}).Keys;
      assert u.info[k].(randomPos := 0) == t.info[k].(randomPos := 0);
      assert SameRecord(s.info[k], t.info[k]);
    }
  }

  ghost predicate Cleared(s: State, sl: Slot)
    requires Clearable(s, sl)
  {
    var t := ClearNew(s, sl);
    && t.newTable == s.newTable - {sl} && t.triedTable == s.triedTable && t.idCount == s.idCount
    && t.info.Keys == s.info.Keys - Forgotten(s, sl)
    && t.byAddr == s.byAddr - AddrsOf(s, Forgotten(s, sl))
    && FrameExcept(s, t, Occupants(s, sl))
  }

  ghost function AddrsOf(s: State, ids: set<int>): set<NetAddr> {
    set id | id in ids && id in s.info :: s.info[id].addr.svc.ip
  }

  lemma UnslotFrame(s: State, sl: Slot)
    requires sl in s.newTable && s.newTable[sl] in s.info
    ensures FrameExcept(s, Unslot(s, sl), {s.newTable[sl]})
    ensures Unslot(s, sl).info.Keys == s.info.Keys
    ensures AddrsOf(s, {s.newTable[sl]}) == {Unslot(s, sl).info[s.newTable[sl]].addr.svc.ip}
  {
    assert Unslot(s, sl).info.Keys == s.info.Keys;
  }

  /** Clearing a slot keeps the invariant and forgets at most the slot's occupant. */
  lemma ClearNewKeepsInv(h: Hashes, s: State, sl: Slot, limbo: set<int>, uncounted: int)
    requires Inv(h, s, limbo, uncounted)
    ensures Clearable(s, sl)
    ensures Inv(h, ClearNew(s, sl), limbo, uncounted)
    ensures Cleared(s, sl)
    ensures limbo !! Forgotten(s, sl)
  {
    hide RandomOk, AddrOk, TriedOk, FreshOk, EntryOk, TriedIds, FreshIds, RefSlots, Delete, Deletable,
      FrameExcept, AddrsOf, SameButOrder;
    if sl in s.newTable {
      var id := s.newTable[sl];
      UnslotKeepsInv(h, s, sl, limbo, uncounted);
      var t := Unslot(s, sl);
      UnslotFrame(s, sl);
      if s.info[id].refCount == 1 {
        DeleteKeepsInv(h, t, id, limbo + {id}, uncounted);
        assert limbo + {id} - {id} == limbo;
        OrderFrame(s, t, Delete(t, id), id, {id});
      } else {
        NoAddrs(s);
      }
    } else {
      assert s.newTable - {sl} == s.newTable;
      NoAddrs(s);
    }
  }

  lemma NoAddrs(s: State)
    ensures AddrsOf(s, {}) == {}
    ensures s.byAddr - AddrsOf(s, {}) == s.byAddr
    ensures FrameExcept(s, s, {})
  {
  }

  lemma EnterEntryOk(h: Hashes, s: State, sl: Slot, id: int, limbo: bool, refCount: int)
    requires id in s.info && EntryOk(h, s, id, limbo) && !s.info[id].inTried
    requires sl !in s.newTable && refCount == s.info[id].refCount + 1 <= NEW_BUCKETS_PER_ADDRESS
    ensures EntryOk(h, Enter(s, sl, id, refCount), id, false)
  {
    RefSlotsAfterSet(s.newTable, sl, id, id);
    assert sl !in RefSlots(s.newTable, id);
  }

  /** An untried id, in limbo or below the maximum multiplicity, takes a free slot at its place. */
  lemma EnterKeepsInv(h: Hashes, s: State, sl: Slot, id: int, limbo: set<int>, uncounted: int, refCount: int)
    requires Inv(h, s, limbo, uncounted) && id in s.info && !s.info[id].inTried && sl !in s.newTable
    requires refCount == s.info[id].refCount + 1 <= NEW_BUCKETS_PER_ADDRESS
    requires 0 <= sl.bucket < NEW_BUCKET_COUNT && sl.pos == Position(h, s.info[id].addr.svc, true, sl.bucket)
    ensures Inv(h, Enter(s, sl, id, refCount), limbo - {id}, uncounted)
  {
    hide RandomOk, AddrOk, TriedOk, FreshOk, EntryOk, Position, TriedIds, FreshIds, RefSlots;
    var t := Enter(s, sl, id, refCount);
    assert t.info.Keys == s.info.Keys;
    assert SameButOne(s.info, t.info, id);
    SameButOneCounts(s.info, t.info, id);
    IndexesKept(s, t, id);
    StatsTriedTable(h, s, t, id);
    NewTableGrown(h, s, t, sl, id);
    forall k | k in t.info ensures EntryOk(h, t, k, k in limbo - {id}) {
      assert k in s.info.Keys;
      assert EntryOk(h, s, k, k in limbo);
      RefSlotsAfterSet(s.newTable, sl, id, k);
      if k != id {
        EntryKept(h, s, t, k, id, k in limbo);
      } else {
        EnterEntryOk(h, s, sl, id, k in limbo, refCount);
      }
    }
  }

  // ---------------------------------------------------------------- between the tables

  lemma LeaveNewEntryOk(h: Hashes, s: State, id: int)
    requires id in s.info && EntryOk(h, s, id, false) && !s.info[id].inTried
    ensures EntryOk(h, LeaveNew(s, id), id, true)
  {
    assert RefSlots(LeaveNew(s, id).newTable, id) == {};
  }

  lemma LeaveNewKeepsInv(h: Hashes, s: State, id: int)
    requires Inv(h, s, {}, 0) && id in s.info && !s.info[id].inTried
    ensures Inv(h, LeaveNew(s, id), {id}, 1)
  {
    hide RandomOk, AddrOk, TriedOk, FreshOk, EntryOk, TriedIds, FreshIds;
    var t := LeaveNew(s, id);
    assert t.info.Keys == s.info.Keys;
    assert SameButOne(s.info, t.info, id);
    SameButOneCounts(s.info, t.info, id);
    IndexesKept(s, t, id);
    StatsTriedTable(h, s, t, id);
    NewTableShrunk(h, s, t, id);
    forall k | k in t.info ensures EntryOk(h, t, k, k in {id}) {
      assert k in s.info.Keys;
      assert EntryOk(h, s, k, k in {});
      if k != id {
        assert RefSlots(t.newTable, k) == RefSlots(s.newTable, k);
        EntryKept(h, s, t, k, id, false);
      } else {
        LeaveNewEntryOk(h, s, id);
      }
    }
  }

  lemma LeaveTriedEntryOk(h: Hashes, s: State, sl: Slot, limbo: bool)
    requires TriedOk(h, s) && sl in s.triedTable && s.triedTable[sl] in s.info && EntryOk(h, s, s.triedTable[sl], limbo)
    ensures !limbo && EntryOk(h, LeaveTried(s, sl), s.triedTable[sl], true)
    ensures TriedOk(h, LeaveTried(s, sl))
  {
    var id := s.triedTable[sl];
    var t := LeaveTried(s, sl);
    assert t.info.Keys == s.info.Keys;
    forall x | x in t.triedTable ensures t.triedTable[x] != id {
      assert x in s.triedTable;
    }
    TriedTableKept(h, s, t, id);
  }

  lemma LeaveTriedKeepsInv(h: Hashes, s: State, sl: Slot, limbo: set<int>, uncounted: int)
    requires Inv(h, s, limbo, uncounted) && sl in s.triedTable
    ensures s.triedTable[sl] in s.info && s.triedTable[sl] !in limbo
    ensures Inv(h, LeaveTried(s, sl), limbo + {s.triedTable[sl]}, uncounted + 1)
  {
    hide RandomOk, AddrOk, TriedOk, FreshOk, EntryOk, TriedIds, FreshIds, RefSlots;
    var id := s.triedTable[sl];
    InTriedSlot(h, s, sl);
    assert EntryOk(h, s, id, id in limbo);
    LeaveTriedEntryOk(h, s, sl, id in limbo);
    var t := LeaveTried(s, sl);
    assert t.info.Keys == s.info.Keys;
    assert SameButOne(s.info, t.info, id);
    SameButOneCounts(s.info, t.info, id);
    IndexesKept(s, t, id);
    NewTableShrunk(h, s, t, id);
    forall k | k in t.info ensures EntryOk(h, t, k, k in limbo + {id}) {
      assert k in s.info.Keys;
      assert EntryOk(h, s, k, k in limbo);
      if k != id {
        EntryKept(h, s, t, k, id, k in limbo);
      }
    }
  }

  lemma EnterTriedTableOk(h: Hashes, s: State, id: int)
    requires TriedOk(h, s) && id in s.info && TriedSlot(h, s.info[id].addr.svc) !in s.triedTable
    ensures TriedOk(h, EnterTried(s, TriedSlot(h, s.info[id].addr.svc), id))
  {
    var slot := TriedSlot(h, s.info[id].addr.svc);
    var t := EnterTried(s, slot, id);
    forall sl | sl in t.triedTable
      ensures t.triedTable[sl] in t.info && t.info[t.triedTable[sl]].inTried
      ensures sl == TriedSlot(h, t.info[t.triedTable[sl]].addr.svc)
    {
      if sl != slot {
        assert s.triedTable[sl] in s.info;
      }
    }
  }

  lemma EnterTriedEntryOk(h: Hashes, s: State, id: int)
    requires id in s.info && EntryOk(h, s, id, true)
    ensures EntryOk(h, EnterTried(s, TriedSlot(h, s.info[id].addr.svc), id), id, false)
  {
  }

  lemma EnterTriedKeepsInv(h: Hashes, s: State, id: int)
    requires Inv(h, s, {id}, 1) && id in s.info
    requires TriedSlot(h, s.info[id].addr.svc) !in s.triedTable
    ensures Inv(h, EnterTried(s, TriedSlot(h, s.info[id].addr.svc), id), {}, 0)
  {
    hide RandomOk, AddrOk, TriedOk, FreshOk, EntryOk, TriedIds, FreshIds, RefSlots, TriedSlot;
    assert EntryOk(h, s, id, id in {id});
    InLimbo(h, s, id);
    var slot := TriedSlot(h, s.info[id].addr.svc);
    var t := EnterTried(s, slot, id);
    assert t.info.Keys == s.info.Keys;
    assert SameButOne(s.info, t.info, id);
    SameButOneCounts(s.info, t.info, id);
    IndexesKept(s, t, id);
    NewTableShrunk(h, s, t, id);
    EnterTriedTableOk(h, s, id);
    forall k | k in t.info ensures EntryOk(h, t, k, k in {}) {
      assert k in s.info.Keys;
      assert EntryOk(h, s, k, k in {id});
      if k != id {
        EntryKept(h, s, t, k, id, false);
      } else {
        EnterTriedEntryOk(h, s, id);
      }
    }
  }
}
