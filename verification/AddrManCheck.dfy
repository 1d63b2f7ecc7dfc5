/** The first loop of `Check_` sorts the ids into the tried ones and the reference counts of the rest. */
module EntrySorting {
  import opened AddrBook

  /** The reference counts of the entries that are not tried. */
  ghost predicate References(info: map<int, AddrInfo>, counts: map<int, int>) {
    counts.Keys == FreshIds(info) && forall k <- counts :: k in info && counts[k] == info[k].refCount
  }

  /** The ids gone through are sorted into the tried set and the reference counts. */
  ghost predicate Sorted(info: map<int, AddrInfo>, seen: set<int>, setTried: set<int>, mapNew: map<int, int>) {
    && setTried == TriedIds(info) * seen && mapNew.Keys == FreshIds(info) * seen
    && (forall k <- mapNew :: k in info && mapNew[k] == info[k].refCount)
  }

  method PickOne<T(==)>(todo: set<T>) returns (n: T)
    requires todo != {}
    ensures n in todo
  {
    n :| n in todo;
  }

  lemma SortOne(info: map<int, AddrInfo>, seen: set<int>, setTried: set<int>, mapNew: map<int, int>, n: int)
    requires Sorted(info, seen, setTried, mapNew) && n in info
    ensures info[n].inTried ==> Sorted(info, seen + {n}, setTried + {n}, mapNew)
    ensures !info[n].inTried ==> Sorted(info, seen + {n}, setTried, mapNew[n := info[n].refCount])
  {
  }

  lemma AllSorted(info: map<int, AddrInfo>, setTried: set<int>, mapNew: map<int, int>)
    requires Sorted(info, info.Keys, setTried, mapNew)
    ensures setTried == TriedIds(info) && References(info, mapNew)
  {
    assert TriedIds(info) <= info.Keys && FreshIds(info) <= info.Keys;
  }
}

/** The consistency check that the original runs in debug builds only, as it runs: it returns zero exactly
    on the books that pass. */
module AddrManCheck {
  import opened AddrBook
  import opened AddrBookCheck
  import opened AddrMan
  import AddrBookSteps
  import AddrBookTheorems
  import opened EntrySorting

  /** Whether a loop over buckets and positions that is at (n, i) has passed a slot. */
  predicate Passed(sl: Slot, n: int, i: int) {
    sl.bucket < n || (sl.bucket == n && sl.pos < i)
  }

  /** The lookups agree; the map may have gained zeros. */
  ghost predicate SameLookups(a: map<NetAddr, int>, b: map<NetAddr, int>) {
    forall ip: NetAddr :: Lookup(a, ip) == Lookup(b, ip)
  }

  /** What the first loop tests of one entry. */
  method CheckEntry(m: AddrMan, n: int) returns (err: int)
    requires m.Valid() && n in m.mapInfo
    modifies m`mapAddr
    ensures err == 0 <==> EntryPasses(old(m.View()), n)
    ensures SameLookups(m.mapAddr, old(m.mapAddr))
    ensures old(m.mapInfo[n].addr.svc.ip in m.mapAddr) ==> m.mapAddr == old(m.mapAddr)
  {
    hide Represents, TableOf;
    var info := m.mapInfo[n];
    if info.inTried {
      if info.lastSuccess == 0 { return -1; }
      if info.refCount != 0 { return -2; }
    } else {
      if info.refCount < 0 || info.refCount > NEW_BUCKETS_PER_ADDRESS { return -3; }
      if info.refCount == 0 { return -4; }
    }
    // operator[] of the map inserts a zero when the address is missing
    if info.addr.svc.ip !in m.mapAddr {
      m.mapAddr := m.mapAddr[info.addr.svc.ip := 0];
    }
    if m.mapAddr[info.addr.svc.ip] != n { return -5; }
    if info.randomPos < 0 || info.randomPos >= |m.vRandom| || m.vRandom[info.randomPos] != n { return -14; }
    if info.lastTry < 0 { return -6; }
    if info.lastSuccess < 0 { return -8; }
    return 0;
  }

  lemma SameLookupsPass(s: State, byAddr: map<NetAddr, int>, n: int)
    requires SameLookups(byAddr, s.byAddr) && n in s.info
    ensures EntryPasses(s.(byAddr := byAddr), n) <==> EntryPasses(s, n)
  {
    assert Lookup(byAddr, s.info[n].addr.svc.ip) == Lookup(s.byAddr, s.info[n].addr.svc.ip);
  }

  lemma LookupsChain(a: map<NetAddr, int>, b: map<NetAddr, int>, c: map<NetAddr, int>)
    requires SameLookups(a, b) && SameLookups(b, c)
    ensures SameLookups(a, c)
  {
    forall ip: NetAddr ensures Lookup(a, ip) == Lookup(c, ip) {
      assert Lookup(a, ip) == Lookup(b, ip);
    }
  }

  /** The first loop of `Check_`: every entry on its own. */
  method CheckEntries(m: AddrMan) returns (err: int, setTried: set<int>, mapNew: map<int, int>)
    requires m.Valid()
    modifies m`mapAddr
    ensures err == 0 <==> AllEntriesPass(old(m.View()))
    ensures err == 0 ==> setTried == TriedIds(m.mapInfo) && References(m.mapInfo, mapNew)
    ensures SameLookups(m.mapAddr, old(m.mapAddr))
    ensures AddrOk(old(m.View())) ==> m.mapAddr == old(m.mapAddr)
  {
    hide Represents, TableOf, EntryPasses, SameLookups;
    err, setTried, mapNew := 0, {}, map[];
    ghost var s := m.View();
    assert SameLookups(m.mapAddr, s.byAddr) by { LookupsReflexive(s.byAddr); }
    var info := m.mapInfo;
    var todo := info.Keys;
    while todo != {}
      invariant todo <= info.Keys && m.mapInfo == info
      invariant m.View() == s.(byAddr := m.mapAddr) && SameLookups(m.mapAddr, s.byAddr)
      invariant AddrOk(s) ==> m.mapAddr == s.byAddr
      invariant Sorted(info, info.Keys - todo, setTried, mapNew)
      invariant forall k <- info.Keys - todo :: EntryPasses(s, k)
      decreases |todo|
    {
      var n := PickOne(todo);
      ghost var before := m.mapAddr;
      SameLookupsPass(s, m.mapAddr, n);
      err := CheckEntry(m, n);
      LookupsChain(m.mapAddr, before, s.byAddr);
      if err != 0 { return; }
      SortOne(info, info.Keys - todo, setTried, mapNew, n);
      if info[n].inTried {
        setTried := setTried + {n};
      } else {
        mapNew := mapNew[n := info[n].refCount];
      }
      assert info.Keys - (todo - {n}) == info.Keys - todo + {n};
      todo := todo - {n};
    }
    assert info.Keys - todo == info.Keys;
    AllSorted(info, setTried, mapNew);
    err := 0;
  }

  lemma LookupsReflexive(a: map<NetAddr, int>)
    ensures SameLookups(a, a)
  {
  }

  /** The ids that the second loop still has to meet. */
  ghost predicate StillTried(h: Hashes, s: State, setTried: set<int>, n: int, i: int) {
    forall k :: k in setTried <==>
      k in TriedIds(s.info) && !(Passed(TriedSlot(h, s.info[k].addr.svc), n, i) && HasTriedSlot(h, s, k))
  }

  ghost predicate TriedPassed(h: Hashes, s: State, n: int, i: int) {
    forall sl <- s.triedTable | Passed(sl, n, i) :: TriedSlotPasses(h, s, sl)
  }

  /** The second loop: every tried slot holds a tried entry in its place, and no entry is left over. */
  method CheckTried(m: AddrMan, tried: set<int>) returns (err: int, setTried: set<int>)
    requires m.Valid() && tried == TriedIds(m.mapInfo)
    ensures err == 0 && setTried == {} <==> TriedTablePasses(m.h, m.View())
  {
    hide Represents, TriedSlot, TableOf, TriedTablePasses, StillTried, TriedPassed, TriedSlotPasses, Passed;
    err, setTried := 0, tried;
    ghost var s := m.View();
    NothingPassed(m, s, tried);
    var n := 0;
    while n < TRIED_BUCKET_COUNT
      invariant 0 <= n <= TRIED_BUCKET_COUNT
      invariant StillTried(m.h, s, setTried, n, 0) && TriedPassed(m.h, s, n, 0)
    {
      var i := 0;
      while i < BUCKET_SIZE
        invariant 0 <= i <= BUCKET_SIZE
        invariant StillTried(m.h, s, setTried, n, i) && TriedPassed(m.h, s, n, i)
      {
        var v := m.vvTried[n, i];
        SlotOf(m.vvTried, n, i);
        TriedStep(m.h, s, setTried, n, i);
        if v != FREE {
          if v !in setTried { return -11, setTried; }
          assert v in m.mapInfo;
          if TriedSlot(m.h, m.mapInfo[v].addr.svc).bucket != n { return -17, setTried; }
          if Position(m.h, m.mapInfo[v].addr.svc, false, n) != i { return -18, setTried; }
          setTried := setTried - {v};
        }
        i := i + 1;
      }
      TriedRow(m, s, setTried, n);
      n := n + 1;
    }
    TriedEnd(m, s, setTried);
  }

  lemma NothingPassed(m: AddrMan, s: State, tried: set<int>)
    requires m.Valid() && s == m.View() && tried == TriedIds(s.info)
    ensures StillTried(m.h, s, tried, 0, 0) && TriedPassed(m.h, s, 0, 0)
  {
    hide TriedSlot, TableOf;
  }

  lemma TriedStep(h: Hashes, s: State, setTried: set<int>, n: int, i: int)
    requires StillTried(h, s, setTried, n, i) && TriedPassed(h, s, n, i)
    ensures var sl := Slot(n, i);
      if sl !in s.triedTable then StillTried(h, s, setTried, n, i + 1) && TriedPassed(h, s, n, i + 1)
      else
        var v := s.triedTable[sl];
        && (v in setTried ==> v in s.info)
        && (v !in setTried ==> !TriedTablePasses(h, s))
        && (v in setTried && TriedSlot(h, s.info[v].addr.svc) == sl ==>
              StillTried(h, s, setTried - {v}, n, i + 1) && TriedPassed(h, s, n, i + 1))
        && (v in setTried && TriedSlot(h, s.info[v].addr.svc) != sl ==> !TriedTablePasses(h, s))
        && (v in setTried ==>
              (TriedSlot(h, s.info[v].addr.svc) == sl <==>
                TriedSlot(h, s.info[v].addr.svc).bucket == n && Position(h, s.info[v].addr.svc, false, n) == i))
  {
  }

  lemma TriedRow(m: AddrMan, s: State, setTried: set<int>, n: int)
    requires m.Valid() && s == m.View()
    requires StillTried(m.h, s, setTried, n, BUCKET_SIZE) && TriedPassed(m.h, s, n, BUCKET_SIZE)
    ensures StillTried(m.h, s, setTried, n + 1, 0) && TriedPassed(m.h, s, n + 1, 0)
  {
    hide TableOf;
  }

  lemma TriedEnd(m: AddrMan, s: State, setTried: set<int>)
    requires m.Valid() && s == m.View()
    requires StillTried(m.h, s, setTried, TRIED_BUCKET_COUNT, 0) && TriedPassed(m.h, s, TRIED_BUCKET_COUNT, 0)
    ensures setTried == {} <==> TriedTablePasses(m.h, s)
  {
    hide TableOf;
    forall sl <- s.triedTable ensures TriedSlotPasses(m.h, s, sl) {
      assert Passed(sl, TRIED_BUCKET_COUNT, 0);
    }
    if setTried == {} {
      forall k <- s.info | s.info[k].inTried ensures HasTriedSlot(m.h, s, k) {
        assert k !in setTried;
      }
    }
    if TriedTablePasses(m.h, s) {
      forall k ensures k !in setTried {
        if k in TriedIds(s.info) {
          assert HasTriedSlot(m.h, s, k) && Passed(TriedSlot(m.h, s.info[k].addr.svc), TRIED_BUCKET_COUNT, 0);
        }
      }
    }
  }

  /** The part of the table that the third loop has passed. */
  ghost predicate Part(t: Table, part: Table, n: int, i: int) {
    && (forall sl <- part :: sl in t && part[sl] == t[sl] && Passed(sl, n, i))
    && (forall sl <- t | Passed(sl, n, i) :: sl in part)
  }

  /** What is left to count for each new entry, and nothing was counted twice or out of place. */
  ghost predicate Counted(h: Hashes, s: State, part: Table, mapNew: map<int, int>) {
    && (forall k :: k in mapNew <==> k in FreshIds(s.info) && s.info[k].refCount > |RefSlots(part, k)|)
    && (forall k <- mapNew :: k in s.info && mapNew[k] == s.info[k].refCount - |RefSlots(part, k)|)
    && (forall k <- FreshIds(s.info) :: s.info[k].refCount >= |RefSlots(part, k)|)
    && (forall sl <- part :: sl in s.newTable && NewSlotPasses(h, s, sl))
  }

  /** The third loop: every new slot holds a new entry in its place, and counts against its references. */
  method CheckNew(m: AddrMan, counts: map<int, int>) returns (err: int, mapNew: map<int, int>)
    requires m.Valid() && AllEntriesPass(m.View()) && References(m.mapInfo, counts)
    ensures err == 0 && mapNew.Keys == {} <==> NewTablePasses(m.h, m.View())
  {
    hide Represents, TableOf, RefSlots, AllEntriesPass, NewTablePasses, Part, Counted, NewSlotPasses;
    err, mapNew := 0, counts;
    ghost var s := m.View();
    ghost var part: Table := map[];
    NothingCounted(m, s, mapNew);
    var n := 0;
    while n < NEW_BUCKET_COUNT
      invariant 0 <= n <= NEW_BUCKET_COUNT
      invariant Part(s.newTable, part, n, 0) && Counted(m.h, s, part, mapNew)
    {
      var i := 0;
      while i < BUCKET_SIZE
        invariant 0 <= i <= BUCKET_SIZE
        invariant Part(s.newTable, part, n, i) && Counted(m.h, s, part, mapNew)
      {
        var v := m.vvNew[n, i];
        SlotOf(m.vvNew, n, i);
        ghost var sl := Slot(n, i);
        NewStep(m.h, s, part, mapNew, n, i);
        PartMoves(s.newTable, part, n, i);
        if v != FREE {
          if v !in mapNew { return -12, mapNew; }
          if Position(m.h, m.mapInfo[v].addr.svc, true, n) != i { return -19, mapNew; }
          part := part[sl := v];
          mapNew := mapNew[v := mapNew[v] - 1];
          if mapNew[v] == 0 {
            mapNew := mapNew - {v};
          }
        }
        i := i + 1;
      }
      PartRow(m, s, part, n);
      n := n + 1;
    }
    AllCounted(m, s, part, mapNew);
  }

  lemma NothingCounted(m: AddrMan, s: State, mapNew: map<int, int>)
    requires m.Valid() && s == m.View() && AllEntriesPass(s) && References(s.info, mapNew)
    ensures Part(s.newTable, map[], 0, 0) && Counted(m.h, s, map[], mapNew)
  {
    hide TableOf;
    forall k
      ensures RefSlots(map[], k) == {}
      ensures k in FreshIds(s.info) ==> s.info[k].refCount > 0
    {
      if k in FreshIds(s.info) {
        assert EntryPasses(s, k);
      }
    }
  }

  /** A slot of the new table: in order, its entry still has a reference to count; or the table does not pass. */
  lemma NewStep(h: Hashes, s: State, part: Table, mapNew: map<int, int>, n: int, i: int)
    requires Part(s.newTable, part, n, i) && Counted(h, s, part, mapNew)
    ensures var sl := Slot(n, i);
      sl in s.newTable ==>
        var v := s.newTable[sl];
        && (v in mapNew ==> v in s.info)
        && (v !in mapNew ==> !NewTablePasses(h, s))
        && (v in mapNew && Position(h, s.info[v].addr.svc, true, n) != i ==> !NewTablePasses(h, s))
        && (v in mapNew && Position(h, s.info[v].addr.svc, true, n) == i ==>
              var next := mapNew[v := mapNew[v] - 1];
              Counted(h, s, part[sl := v], if next[v] == 0 then next - {v} else next))
  {
    hide Part, Position, RefSlots, NewTablePasses;
    var sl := Slot(n, i);
    if sl in s.newTable {
      var v := s.newTable[sl];
      OneMoreToCount(h, s, part, n, i);
      if v in mapNew {
        if Position(h, s.info[v].addr.svc, true, n) == i {
          forall k
            ensures |RefSlots(part[sl := v], k)| == |RefSlots(part, k)| + if k == v then 1 else 0
          {
            AddrBookSteps.RefSlotsAfterSet(part, sl, v, k);
          }
        } else {
          OutOfPlace(h, s, sl);
        }
      }
    }
  }

  lemma OutOfPlace(h: Hashes, s: State, sl: Slot)
    requires sl in s.newTable && !NewSlotPasses(h, s, sl)
    ensures !NewTablePasses(h, s)
  {
  }

  lemma OneMoreToCount(h: Hashes, s: State, part: Table, n: int, i: int)
    requires Slot(n, i) in s.newTable && Part(s.newTable, part, n, i)
    ensures var v := s.newTable[Slot(n, i)];
      && Slot(n, i) !in part && Slot(n, i) !in RefSlots(part, v)
      && (NewTablePasses(h, s) ==> v in FreshIds(s.info) && |RefSlots(part, v)| < s.info[v].refCount)
  {
    var sl := Slot(n, i);
    var v := s.newTable[sl];
    PartRefs(s.newTable, part, n, i, v);
    assert sl in RefSlots(s.newTable, v);
    assert RefSlots(part, v) + {sl} <= RefSlots(s.newTable, v);
    AddrBookTheorems.SubsetSize(RefSlots(part, v) + {sl}, RefSlots(s.newTable, v));
    if NewTablePasses(h, s) {
      assert NewSlotPasses(h, s, sl);
    }
  }

  lemma PartRefs(t: Table, part: Table, n: int, i: int, v: int)
    requires Part(t, part, n, i)
    ensures RefSlots(part, v) <= RefSlots(t, v)
  {
  }

  lemma PartMoves(t: Table, part: Table, n: int, i: int)
    requires Part(t, part, n, i)
    ensures var sl := Slot(n, i); Part(t, if sl in t then part[sl := t[sl]] else part, n, i + 1)
  {
    forall sl | sl in t && Passed(sl, n, i + 1) ensures sl == Slot(n, i) || Passed(sl, n, i) {}
  }

  lemma PartRow(m: AddrMan, s: State, part: Table, n: int)
    requires m.Valid() && s == m.View() && Part(s.newTable, part, n, BUCKET_SIZE)
    ensures Part(s.newTable, part, n + 1, 0)
  {
    hide TableOf;
  }

  lemma AllCounted(m: AddrMan, s: State, part: Table, mapNew: map<int, int>)
    requires m.Valid() && s == m.View()
    requires Part(s.newTable, part, NEW_BUCKET_COUNT, 0) && Counted(m.h, s, part, mapNew)
    ensures mapNew.Keys == {} <==> NewTablePasses(m.h, s)
  {
    hide TableOf, NewSlotPasses;
    forall sl | sl in s.newTable ensures Passed(sl, NEW_BUCKET_COUNT, 0) {}
    assert part.Keys == s.newTable.Keys;
    assert part == s.newTable;
    hide RefSlots, Part, Passed;
    if mapNew.Keys == {} {
      forall k <- s.info | !s.info[k].inTried ensures s.info[k].refCount == |RefSlots(s.newTable, k)| {
        assert k in FreshIds(s.info) && k !in mapNew.Keys;
      }
    } else {
      var k := PickElement(mapNew.Keys);
      assert k in mapNew;
    }
  }

  /** `Check_`: zero exactly when the book passes and the key is not null. The one effect it can have is that
      looking up a missing address leaves a zero behind; it has none on a book that names all its addresses. */
  method Check(m: AddrMan, keyIsNull: bool) returns (err: int)
    requires m.Valid()
    modifies m`mapAddr
    ensures err == 0 <==> Passes(m.h, old(m.View())) && !keyIsNull
    ensures SameLookups(m.mapAddr, old(m.mapAddr))
    ensures Consistent(m.h, old(m.View())) ==> m.View() == old(m.View())
  {
    hide Represents, TableOf, AllEntriesPass, TriedTablePasses, NewTablePasses, SameLookups, Inv, AllStatsOk;
    ghost var s := m.View();
    LookupsReflexive(s.byAddr);
    if |m.vRandom| != m.nTried + m.nNew {
      return -7;
    }
    var setTried, mapNew;
    err, setTried, mapNew := CheckEntries(m);
    ghost var t := m.View();
    AddressesIrrelevant(m.h, s, t);
    if Consistent(m.h, s) { ConsistentNames(m.h, s); }
    if err != 0 { return; }
    if |setTried| != m.nTried { return -9; }
    assert |mapNew| == |mapNew.Keys|;
    if |mapNew| != m.nNew { return -10; }
    err, setTried := CheckTried(m, setTried);
    if err != 0 { return; }
    err, mapNew := CheckNew(m, mapNew);
    if err != 0 { return; }
    if |setTried| != 0 { return -13; }
    assert |mapNew| == |mapNew.Keys|;
    if |mapNew| != 0 { return -15; }
    if keyIsNull { return -16; }
    return 0;
  }

  lemma ConsistentNames(h: Hashes, s: State)
    requires Consistent(h, s)
    ensures AddrOk(s)
  {
  }

  lemma AddressesIrrelevant(h: Hashes, s: State, t: State)
    requires t == s.(byAddr := t.byAddr) && SameLookups(t.byAddr, s.byAddr)
    ensures AllEntriesPass(t) <==> AllEntriesPass(s)
    ensures TriedTablePasses(h, t) <==> TriedTablePasses(h, s)
    ensures NewTablePasses(h, t) <==> NewTablePasses(h, s)
  {
    hide SameLookups, EntryPasses;
    forall n <- s.info ensures EntryPasses(t, n) <==> EntryPasses(s, n) {
      SameLookupsPass(s, t.byAddr, n);
    }
    forall sl <- s.triedTable ensures TriedSlotPasses(h, t, sl) <==> TriedSlotPasses(h, s, sl) {}
    forall k <- s.info ensures HasTriedSlot(h, t, k) <==> HasTriedSlot(h, s, k) {}
    forall sl <- s.newTable ensures NewSlotPasses(h, t, sl) <==> NewSlotPasses(h, s, sl) {}
  }
}
