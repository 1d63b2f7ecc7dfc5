/** The main properties of the address book: what promotion and addition can forget, what the other
    operations leave alone, and consistency of every state that any run of operations reaches. */
module AddrBookTheorems {
  import opened AddrBook
  import opened AddrBookSteps
  import opened AddrBookOps

  // ---------------------------------------------------------------- promotion

  lemma KnownOf(s: State, t: State, gone: set<int>)
    requires t.byAddr == s.byAddr - AddrsOf(s, gone)
    ensures Known(t) == Known(s) - AddrsOf(s, gone)
  {
  }

  lemma AddrsOfAtMostOne(s: State, gone: set<int>, id: int)
    requires gone <= {id}
    ensures |AddrsOf(s, gone)| <= 1
  {
    if id in gone && id in s.info {
      assert AddrsOf(s, gone) == {s.info[id].addr.svc.ip};
    } else {
      assert AddrsOf(s, gone) == {};
    }
  }

  lemma SubsetSize<T>(a: set<T>, b: set<T>)
    requires a <= b
    ensures |a| <= |b|
  {
    assert b == a + (b - a);
  }

  /** What a promotion keeps of the evicted entry, which moves to the slot that its own source selects, and which single
      address it may forget. */
  ghost predicate EvicteeKept(h: Hashes, s: State, id: int, t: State)
    requires id in s.info
    requires var sl := TriedSlot(h, s.info[id].addr.svc); sl in s.triedTable && s.triedTable[sl] in s.info
  {
    var evictee := s.triedTable[TriedSlot(h, s.info[id].addr.svc)];
    var refuge := NewSlot(h, s.info[evictee].addr.svc, s.info[evictee].source);
    && evictee in t.info && !t.info[evictee].inTried
    && RefSlots(t.newTable, evictee) == {refuge}
    && s.info[evictee].addr.svc.ip in Known(t)
    && forall a <- Known(s) - Known(t) ::
         && refuge in s.newTable
         && var victim := s.newTable[refuge];
            && victim in s.info && s.info[victim].addr.svc.ip == a
            && s.info[victim].refCount == 1 && victim != id
  }

  /** Moving an untried address to the tried table: afterwards it is tried, in its own slot; an entry
      evicted from that slot stays known in exactly one new-table slot; and at most one address is
      forgotten, that of the previous occupant of that new-table slot, if it had no other slot. */
  lemma PromotionForgetsAtMostOne(h: Hashes, s: State, id: int)
    requires Inv(h, s, {}, 0) && id in s.info && !s.info[id].inTried
    ensures Promotable(h, s, id)
    ensures var t, sl := MakeTried(h, s, id), TriedSlot(h, s.info[id].addr.svc);
      && t.triedTable == s.triedTable[sl := id]
      && s.info[id].addr.svc.ip in Known(t)
      && Known(t) <= Known(s) && |Known(s) - Known(t)| <= 1
      && (sl !in s.triedTable ==> Known(t) == Known(s))
      && (sl in s.triedTable ==> s.triedTable[sl] in s.info && EvicteeKept(h, s, id, t))
  {
    MakeTriedKeepsInv(h, s, id);
    hide *;
    PromotionKnown(h, s, id, MakeTried(h, s, id));
    if TriedSlot(h, s.info[id].addr.svc) in s.triedTable {
      EvicteeSlots(h, s, id);
      PromotionEvictee(h, s, id, MakeTried(h, s, id));
    }
  }

  lemma PromotionKnown(h: Hashes, s: State, id: int, t: State)
    requires id in s.info && AddrOk(t)
    requires var sl := TriedSlot(h, s.info[id].addr.svc); sl in s.triedTable ==> s.triedTable[sl] in s.info
    requires Promoted(h, s, id, t)
    ensures t.triedTable == s.triedTable[TriedSlot(h, s.info[id].addr.svc) := id]
    ensures s.info[id].addr.svc.ip in Known(t)
    ensures Known(t) <= Known(s) && |Known(s) - Known(t)| <= 1
    ensures TriedSlot(h, s.info[id].addr.svc) !in s.triedTable ==> Known(t) == Known(s)
  {
    hide AddrsOf, Forgotten, FrameExcept, AddrOk, TriedSlot, NewSlot, Without;
    var sl, gone := TriedSlot(h, s.info[id].addr.svc), Victims(h, s, id);
    KnownOf(s, t, gone);
    ForgottenAtMostOne(h, s, id);
    assert Known(s) - Known(t) <= AddrsOf(s, gone);
    SubsetSize(Known(s) - Known(t), AddrsOf(s, gone));
    AddressStays(s, t, Moved(h, s, id), id);
    NoAddrs(s);
  }

  lemma ForgottenAtMostOne(h: Hashes, s: State, id: int)
    requires id in s.info
    requires var sl := TriedSlot(h, s.info[id].addr.svc); sl in s.triedTable ==> s.triedTable[sl] in s.info
    ensures |AddrsOf(s, Victims(h, s, id))| <= 1
  {
    var sl := TriedSlot(h, s.info[id].addr.svc);
    AddrsOfAtMostOne(s, Victims(h, s, id),
      if sl in s.triedTable && Refuge(h, s, id) in s.newTable then s.newTable[Refuge(h, s, id)] else -1);
  }

  lemma PromotionEvictee(h: Hashes, s: State, id: int, t: State)
    requires id in s.info && AddrOk(t)
    requires var sl := TriedSlot(h, s.info[id].addr.svc);
      sl in s.triedTable && s.triedTable[sl] in s.info && RefSlots(t.newTable, s.triedTable[sl]) == {Refuge(h, s, id)}
    requires Promoted(h, s, id, t)
    ensures EvicteeKept(h, s, id, t)
  {
    hide FrameExcept, AddrOk, TriedSlot, NewSlot, RefSlots, Without;
    AddressStays(s, t, Moved(h, s, id), s.triedTable[TriedSlot(h, s.info[id].addr.svc)]);
    forall a | a in Known(s) - Known(t) ensures a in AddrsOf(s, Victims(h, s, id)) {
    }
  }

  lemma AddressStays(s: State, t: State, ids: set<int>, id: int)
    requires AddrOk(t) && FrameExcept(s, t, ids) && id in t.info
    ensures id in s.info && s.info[id].addr.svc.ip in Known(t)
  {
    InFrame(s, t, ids, id);
  }

  lemma EvicteeSlots(h: Hashes, s: State, id: int)
    requires Inv(h, s, {}, 0) && id in s.info && !s.info[id].inTried && Promotable(h, s, id)
    requires var sl := TriedSlot(h, s.info[id].addr.svc);
      sl in s.triedTable && s.triedTable[sl] in s.info && Promoted(h, s, id, MakeTried(h, s, id))
    ensures var sl := TriedSlot(h, s.info[id].addr.svc);
      RefSlots(MakeTried(h, s, id).newTable, s.triedTable[sl]) == {Refuge(h, s, id)}
  {
    var sl := TriedSlot(h, s.info[id].addr.svc);
    var evictee := s.triedTable[sl];
    hide MakeTried, Promotable, FrameExcept, AddrsOf, RandomOk, AddrOk, FreshOk, TriedIds, FreshIds;
    InTriedSlot(h, s, sl);
    assert EntryOk(h, s, evictee, evictee in {});
    NoRefs(s.newTable, evictee);
  }

  /** Good_ on any consistent state: addresses other than the one marked good keep being known, but for
      at most one; the tried table only ever gains the marked address at its own slot. */
  lemma GoodForgetsAtMostOne(h: Hashes, s: State, svc: Service, time: int)
    requires Inv(h, s, {}, 0)
    ensures GoodDefined(h, s, svc, time)
    ensures var t := Good(h, s, svc, time);
      && Known(t) <= Known(s) && |Known(s) - Known(t)| <= 1
      && (svc.ip in Known(s) ==> svc.ip in Known(t))
      && t.triedTable
           == (if Target(s, svc) in s.info then s.triedTable[TriedSlot(h, svc) := Target(s, svc)] else s.triedTable)
  {
    GoodKeepsInv(h, s, svc, time);
    var id := Target(s, svc);
    if id in s.info {
      if !s.info[id].inTried {
        StatsKeepInv(h, s, id, s.info[id].(lastSuccess := time, lastTry := time, attempts := 0));
        hide Inv, MakeTried, Promotable;
        PromotionForgetsAtMostOne(h, MarkGood(s, id, time), id);
      } else {
        assert EntryOk(h, s, id, id in {});
        assert s.triedTable[TriedSlot(h, svc) := id] == s.triedTable;
        NoneForgotten(s);
      }
    } else {
      NoneForgotten(s);
    }
  }

  lemma NoneForgotten(s: State)
    ensures |Known(s) - Known(s)| <= 1
  {
    assert Known(s) - Known(s) == {};
  }

  // ---------------------------------------------------------------- addition

  lemma PlaceOverwrites(h: Hashes, s: State, sl: Slot, id: int, now: int, limbo: set<int>)
    requires id in s.info && limbo <= {id} && Inv(h, s, limbo, 0)
    requires !s.info[id].inTried && s.info[id].refCount < NEW_BUCKETS_PER_ADDRESS
    requires 0 <= sl.bucket < NEW_BUCKET_COUNT && sl.pos == Position(h, s.info[id].addr.svc, true, sl.bucket)
    requires !(sl in s.newTable && s.newTable[sl] == id) && Overwrites(s, sl, id, now)
    ensures Placeable(s, sl, id, now) && Inv(h, Place(s, sl, id, now), {}, 0)
      && Placed(s, sl, id, now, Place(s, sl, id, now))
  {
    hide RandomOk, AddrOk, TriedOk, FreshOk, EntryOk, TriedIds, FreshIds, RefSlots, ClearNew, Clearable, Delete,
      Deletable,
      FrameExcept, AddrsOf, Overwrites, SameButOrder, Position;
    ClearNewKeepsInv(h, s, sl, limbo, 0);
    var t := ClearNew(s, sl);
    assert id in t.info.Keys by {
      assert id in s.info.Keys;
    }
    InFrame(s, t, Occupants(s, sl), id);
    EnterKeepsInv(h, t, sl, id, limbo, 0, t.info[id].refCount + 1);
    assert limbo - {id} == {};
    EnterFrame(t, sl, id, t.info[id].refCount + 1);
    FrameTransitive(s, t, Place(s, sl, id, now), Occupants(s, sl), {id});
  }

  lemma PlaceDeletes(h: Hashes, s: State, sl: Slot, id: int, now: int)
    requires id in s.info && Inv(h, s, {id}, 0) && s.info[id].refCount == 0
    requires !(sl in s.newTable && s.newTable[sl] == id) && !Overwrites(s, sl, id, now)
    ensures Placeable(s, sl, id, now) && Inv(h, Place(s, sl, id, now), {}, 0)
      && Placed(s, sl, id, now, Place(s, sl, id, now))
  {
    hide RandomOk, AddrOk, TriedOk, FreshOk, EntryOk, TriedIds, FreshIds, RefSlots, ClearNew, Clearable, Delete,
      Deletable,
      FrameExcept, AddrsOf, Overwrites, SameButOrder;
    DeleteKeepsInv(h, s, id, {id}, 0);
    assert {id} - {id} == {};
    DeletedAddr(s, id);
    OrderFrame(s, s, Delete(s, id), id, {});
  }

  /** Placing an untried entry that is in limbo, or below the maximum multiplicity. */
  lemma PlaceKeepsInv(h: Hashes, s: State, source: NetAddr, id: int, now: int, limbo: set<int>)
    requires id in s.info && limbo <= {id} && Inv(h, s, limbo, 0)
    requires !s.info[id].inTried && s.info[id].refCount != NEW_BUCKETS_PER_ADDRESS
    ensures var sl := NewSlot(h, s.info[id].addr.svc, source);
      Placeable(s, sl, id, now) && Inv(h, Place(s, sl, id, now), {}, 0) && Placed(s, sl, id, now, Place(s, sl, id, now))
  {
    hide RandomOk, AddrOk, TriedOk, FreshOk, EntryOk, TriedIds, FreshIds, RefSlots, ClearNew, Clearable, Delete,
      Deletable,
      FrameExcept, AddrsOf, Overwrites;
    var sl := NewSlot(h, s.info[id].addr.svc, source);
    assert EntryOk(h, s, id, id in limbo);
    InLimboIff(h, s, id, id in limbo);
    assert limbo == if id in limbo then {id} else {};
    if sl in s.newTable && s.newTable[sl] == id {
      UnslotKeepsInv(h, s, sl, limbo, 0);
    } else if Overwrites(s, sl, id, now) {
      PlaceOverwrites(h, s, sl, id, now, limbo);
    } else if s.info[id].refCount == 0 {
      PlaceDeletes(h, s, sl, id, now);
    }
  }

  lemma DeletedAddr(s: State, id: int)
    requires id in s.info
    ensures AddrsOf(s, {id}) == {s.info[id].addr.svc.ip}
    ensures FrameExcept(s, s, {})
  {
  }

  lemma InLimboIff(h: Hashes, s: State, id: int, limbo: bool)
    requires id in s.info && EntryOk(h, s, id, limbo) && !s.info[id].inTried
    ensures limbo <==> s.info[id].refCount == 0
    ensures 0 <= s.info[id].refCount <= NEW_BUCKETS_PER_ADDRESS
  {
  }

  /** What placing does to the tables and to the known ids. */
  ghost predicate Placed(s: State, sl: Slot, id: int, now: int, t: State)
    requires id in s.info
  {
    && t.triedTable == s.triedTable && t.idCount == s.idCount
    && if sl in s.newTable && s.newTable[sl] == id then t == s
       else if Overwrites(s, sl, id, now) then
         && t.newTable == s.newTable[sl := id]
         && t.info.Keys == s.info.Keys - Forgotten(s, sl)
         && t.byAddr == s.byAddr - AddrsOf(s, Forgotten(s, sl))
         && FrameExcept(s, t, Occupants(s, sl) + {id})
       else if s.info[id].refCount == 0 then
         && t.newTable == s.newTable
         && t.info.Keys == s.info.Keys - {id}
         && t.byAddr == s.byAddr - AddrsOf(s, {id})
         && FrameExcept(s, t, {})
       else t == s
  }

  lemma PreparedKnown(h: Hashes, s: State, a: Address, source: NetAddr, penalty: int, now: int, draw: nat)
    requires Inv(h, s, {}, 0) && Find(s, a.svc.ip) in s.info
    ensures var (t, id) := AddPrepared(s, a, source, penalty, now, draw);
      && Inv(h, t, {}, 0)
      && SameButOne(s.info, t.info, Find(s, a.svc.ip))
        && StatsOnly(s.info[Find(s, a.svc.ip)], t.info[Find(s, a.svc.ip)])
      && t == s.(info := t.info)
      && t.info[Find(s, a.svc.ip)].lastTry == s.info[Find(s, a.svc.ip)].lastTry
      && t.info[Find(s, a.svc.ip)].lastSuccess == s.info[Find(s, a.svc.ip)].lastSuccess
      && t.info[Find(s, a.svc.ip)].attempts == s.info[Find(s, a.svc.ip)].attempts
      && (id != -1 ==> id == Find(s, a.svc.ip) && !t.info[id].inTried && t.info[id].refCount != NEW_BUCKETS_PER_ADDRESS)
  {
    hide Inv;
    var id := Find(s, a.svc.ip);
    StatsKeepInv(h, s, id, Refresh(s.info[id], a, penalty, now));
    assert RefreshEntry(s, id, a, penalty, now).info.Keys == s.info.Keys;
  }

  lemma PreparedNew(h: Hashes, s: State, a: Address, source: NetAddr, penalty: int, now: int, draw: nat)
    requires Inv(h, s, {}, 0) && Find(s, a.svc.ip) !in s.info
    ensures var (t, id) := AddPrepared(s, a, source, penalty, now, draw);
      && a.svc.ip !in s.byAddr
      && Inv(h, t, {id}, 0) && id == s.idCount && id != -1 && id in t.info
      && !t.info[id].inTried && t.info[id].refCount == 0 && t.info[id].addr.svc == a.svc
      && t.info[id].lastTry == 0 && t.info[id].lastSuccess == 0 && t.info[id].attempts == 0
      && t.info == s.info[id := t.info[id]] && t.newTable == s.newTable && t.triedTable == s.triedTable
      && t.byAddr == s.byAddr[a.svc.ip := id] && id !in s.info
  {
    hide RandomOk, TriedOk, FreshOk, EntryOk, TriedIds, FreshIds, RefSlots, CreateNew;
    CreateNewKeepsInv(h, s, a, source, penalty);
    CreateNewShape(s, a, source, penalty);
    CreateIsFresh(h, s);
  }

  lemma AddKeepsInv(h: Hashes, s: State, a: Address, routable: bool, source: NetAddr, penalty: int, now: int, draw: nat)
    requires Inv(h, s, {}, 0)
    ensures Addable(h, s, a, source, penalty, now, draw)
    ensures Inv(h, Add(h, s, a, routable, source, penalty, now, draw), {}, 0)
    ensures Added(h, s, a, routable, source, penalty, now, draw)
  {
    hide Inv, AddPrepared, Place, Placeable, Find, SameButOne, StatsOnly, NewSlot;
    if Find(s, a.svc.ip) in s.info {
      PreparedKnown(h, s, a, source, penalty, now, draw);
      var (t, id) := AddPrepared(s, a, source, penalty, now, draw);
      if id != -1 {
        assert id in t.info by {
          KnownStays(s, t, id);
        }
        PlaceKeepsInv(h, t, source, id, now, {});
      }
    } else {
      PreparedNew(h, s, a, source, penalty, now, draw);
      var (t, id) := AddPrepared(s, a, source, penalty, now, draw);
      PlaceKeepsInv(h, t, source, id, now, {id});
    }
  }

  lemma KnownStays(s: State, t: State, id: int)
    requires SameButOne(s.info, t.info, id)
    ensures id in t.info
  {
    assert id in t.info.Keys;
  }

  /** Add_ is a preparation followed, unless it stops there, by a placement. */
  ghost predicate Added(h: Hashes, s: State, a: Address, routable: bool, source: NetAddr, penalty: int, now: int,
      draw: nat)
    requires Addable(h, s, a, source, penalty, now, draw)
  {
    var (t, id) := AddPrepared(s, a, source, penalty, now, draw);
    routable && id != -1 ==>
      Placed(t, NewSlot(h, t.info[id].addr.svc, source), id, now, Add(h, s, a, routable, source, penalty, now, draw))
  }

  lemma PlacedKeepsStats(s: State, sl: Slot, id: int, now: int, t: State)
    requires id in s.info && AllStatsOk(s) && Placed(s, sl, id, now, t) && !s.info[id].inTried
    requires forall k <- t.info :: t.info[k].inTried ==> k in s.info && s.info[k].inTried
    ensures AllStatsOk(t)
  {
    forall k | k in t.info ensures StatsOk(t.info[k]) {
      assert k in s.info && SameRecord(s.info[k], t.info[k]);
      assert StatsOk(s.info[k]);
    }
  }

  lemma SameTried(h: Hashes, s: State, t: State, limbo: set<int>)
    requires Inv(h, s, limbo, 0) && Inv(h, t, {}, 0) && s.triedTable == t.triedTable
    ensures forall k <- t.info :: t.info[k].inTried ==> k in s.info && s.info[k].inTried
  {
    forall k | k in t.info && t.info[k].inTried ensures k in s.info && s.info[k].inTried {
      assert EntryOk(h, t, k, k in {});
      assert TriedOk(h, s);
    }
  }

  /** Add_ keeps the address book consistent. */
  lemma AddKeepsConsistency(h: Hashes, s: State, a: Address, routable: bool, source: NetAddr, penalty: int, now: int,
      draw: nat)
    requires Consistent(h, s)
    ensures Addable(h, s, a, source, penalty, now, draw)
    ensures Consistent(h, Add(h, s, a, routable, source, penalty, now, draw))
  {
    AddKeepsInv(h, s, a, routable, source, penalty, now, draw);
    hide Inv, AddPrepared, Place, Placeable, Find, NewSlot, Placed, Addable;
    var t := Add(h, s, a, routable, source, penalty, now, draw);
    if routable {
      var (u, id) := AddPrepared(s, a, source, penalty, now, draw);
      var limbo: set<int> := if Find(s, a.svc.ip) in s.info then {} else {id};
      if Find(s, a.svc.ip) in s.info {
        PreparedKnown(h, s, a, source, penalty, now, draw);
        RefreshedStats(s, u, Find(s, a.svc.ip));
      } else {
        PreparedNew(h, s, a, source, penalty, now, draw);
        assert AllStatsOk(u);
      }
      if id != -1 {
        assert u.triedTable == s.triedTable;
        PlacedTried(u, NewSlot(h, u.info[id].addr.svc, source), id, now, t);
        SameTried(h, u, t, limbo);
        PlacedKeepsStats(u, NewSlot(h, u.info[id].addr.svc, source), id, now, t);
      } else {
        assert t == u;
      }
    }
  }

  lemma PlacedTried(s: State, sl: Slot, id: int, now: int, t: State)
    requires id in s.info && Placed(s, sl, id, now, t)
    ensures t.triedTable == s.triedTable
  {
  }

  lemma RefreshedStats(s: State, u: State, id: int)
    requires AllStatsOk(s) && SameButOne(s.info, u.info, id) && StatsOnly(s.info[id], u.info[id])
    requires u.info[id].lastTry == s.info[id].lastTry && u.info[id].lastSuccess == s.info[id].lastSuccess
    ensures AllStatsOk(u)
  {
    forall k | k in u.info ensures StatsOk(u.info[k]) {
      assert k in s.info.Keys;
      assert StatsOk(s.info[k]);
    }
  }

  /** An address that a placement may forget: that of the slot's occupant, if the occupant has no other
      slot and is terrible. */
  ghost predicate Victim(s: State, sl: Slot, now: int, x: NetAddr) {
    && sl in s.newTable && s.newTable[sl] in s.info
    && s.info[s.newTable[sl]].refCount == 1 && IsTerrible(s.info[s.newTable[sl]], now)
    && s.info[s.newTable[sl]].addr.svc.ip == x
  }

  lemma OverwritingForgets(s: State, sl: Slot, id: int, now: int, t: State)
    requires AddrOk(s) && AddrOk(t) && id in s.info && Placed(s, sl, id, now, t) && s.info[id].refCount >= 0
    requires sl in s.newTable ==> s.newTable[sl] in s.info && s.info[s.newTable[sl]].refCount > 0
    requires !(sl in s.newTable && s.newTable[sl] == id) && Overwrites(s, sl, id, now)
    ensures Known(t) <= Known(s) && |Known(s) - Known(t)| <= 1
    ensures forall x <- Known(s) - Known(t) :: Victim(s, sl, now, x) && s.newTable[sl] != id
    ensures s.info[id].addr.svc.ip in Known(t)
  {
    hide IsTerrible, FrameExcept;
    var gone := Forgotten(s, sl);
    KnownOf(s, t, gone);
    AddrsOfAtMostOne(s, gone, if sl in s.newTable then s.newTable[sl] else -1);
    SubsetSize(Known(s) - Known(t), AddrsOf(s, gone));
    assert id in t.info.Keys;
    AddressStays(s, t, Occupants(s, sl) + {id}, id);
  }

  lemma PlacedForgets(s: State, sl: Slot, id: int, now: int, t: State)
    requires AddrOk(s) && AddrOk(t) && id in s.info && Placed(s, sl, id, now, t) && s.info[id].refCount >= 0
    requires sl in s.newTable ==> s.newTable[sl] in s.info && s.info[s.newTable[sl]].refCount > 0
    ensures Known(t) <= Known(s) && |Known(s) - Known(t)| <= 1
    ensures forall x <- Known(s) - Known(t) ::
      (Victim(s, sl, now, x) && s.newTable[sl] != id) || (x == s.info[id].addr.svc.ip && s.info[id].refCount == 0)
    ensures s.info[id].refCount > 0 ==> s.info[id].addr.svc.ip in Known(t)
  {
    NoneForgotten(s);
    if sl in s.newTable && s.newTable[sl] == id {
    } else if Overwrites(s, sl, id, now) {
      OverwritingForgets(s, sl, id, now, t);
    } else if s.info[id].refCount == 0 {
      hide IsTerrible, FrameExcept;
      KnownOf(s, t, {id});
      AddrsOfAtMostOne(s, {id}, id);
      SubsetSize(Known(s) - Known(t), AddrsOf(s, {id}));
    }
  }

  /** The service of the entry that an announcement is about: the port of a known entry stays. */
  function Entrant(s: State, a: Address): Service {
    var id := Find(s, a.svc.ip);
    if id in s.info then s.info[id].addr.svc else a.svc
  }

  /** Add_ never touches the tried table and forgets at most one address, namely that of the occupant of the slot
      it takes, and that one only if it is terrible and has no other slot; the added address, if known, stays. */
  lemma AddForgetsAtMostOne(h: Hashes, s: State, a: Address, routable: bool, source: NetAddr, penalty: int, now: int,
      draw: nat)
    requires Inv(h, s, {}, 0)
    ensures Addable(h, s, a, source, penalty, now, draw)
    ensures var t := Add(h, s, a, routable, source, penalty, now, draw);
      && t.triedTable == s.triedTable
      && Known(t) <= Known(s) + {a.svc.ip}
      && |Known(s) - Known(t)| <= 1
      && (a.svc.ip in Known(s) ==> a.svc.ip in Known(t))
      && forall x <- Known(s) - Known(t) :: Victim(s, NewSlot(h, Entrant(s, a), source), now, x)
  {
    AddKeepsInv(h, s, a, routable, source, penalty, now, draw);
    hide *;
    if !routable {
      AddUnroutable(h, s, a, source, penalty, now, draw);
    } else if Find(s, a.svc.ip) in s.info {
      AddKnownForgets(h, s, a, source, penalty, now, draw);
    } else {
      AddNewForgets(h, s, a, source, penalty, now, draw);
      NotKnown(s, a.svc.ip);
    }
  }

  lemma NotKnown(s: State, ip: NetAddr)
    requires ip !in s.byAddr
    ensures ip !in Known(s)
  {
  }

  lemma AddUnroutable(h: Hashes, s: State, a: Address, source: NetAddr, penalty: int, now: int, draw: nat)
    requires Addable(h, s, a, source, penalty, now, draw)
    ensures Add(h, s, a, false, source, penalty, now, draw) == s
    ensures Known(s) <= Known(s) + {a.svc.ip} && Known(s) - Known(s) == {}
  {
  }

  lemma OccupantOk(h: Hashes, s: State, sl: Slot, limbo: set<int>)
    requires Inv(h, s, limbo, 0)
    ensures sl in s.newTable ==> s.newTable[sl] in s.info && s.info[s.newTable[sl]].refCount > 0
    ensures AddrOk(s)
  {
    if sl in s.newTable {
      UnslotKeepsInv(h, s, sl, limbo, 0);
    }
  }

  lemma UntriedRefs(h: Hashes, s: State, id: int)
    requires Inv(h, s, {}, 0) && id in s.info && !s.info[id].inTried
    ensures s.info[id].refCount > 0
  {
    assert EntryOk(h, s, id, id in {});
  }

  lemma FindIs(s: State, ip: NetAddr)
    requires AddrOk(s) && Find(s, ip) in s.info && -1 !in s.info
    ensures ip in Known(s) && s.info[Find(s, ip)].addr.svc.ip == ip
  {
  }

  lemma AddKnownForgets(h: Hashes, s: State, a: Address, source: NetAddr, penalty: int, now: int, draw: nat)
    requires Inv(h, s, {}, 0) && Find(s, a.svc.ip) in s.info && Addable(h, s, a, source, penalty, now, draw)
    requires Added(h, s, a, true, source, penalty, now, draw)
    requires Inv(h, Add(h, s, a, true, source, penalty, now, draw), {}, 0)
    ensures var t := Add(h, s, a, true, source, penalty, now, draw);
      && t.triedTable == s.triedTable && Known(t) <= Known(s) && |Known(s) - Known(t)| <= 1
      && (a.svc.ip in Known(s) ==> a.svc.ip in Known(t))
      && forall x <- Known(s) - Known(t) :: Victim(s, NewSlot(h, Entrant(s, a), source), now, x)
  {
    var t := Add(h, s, a, true, source, penalty, now, draw);
    var (u, id) := AddPrepared(s, a, source, penalty, now, draw);
    hide Inv, AddPrepared, Placed, Find, NewSlot, Addable, Place, Placeable, AddrOk, IsTerrible;
    PreparedKnown(h, s, a, source, penalty, now, draw);
    NoneForgotten(s);
    if id != -1 {
      KnownStays(s, u, id);
      var sl := NewSlot(h, u.info[id].addr.svc, source);
      assert u.info[id].addr.svc == Entrant(s, a);
      OccupantOk(h, s, sl, {});
      OccupantOk(h, u, sl, {});
      OccupantOk(h, t, sl, {});
      UntriedRefs(h, u, id);
      TargetIsKnown(h, s, a.svc);
      FindIs(s, a.svc.ip);
      PlacedTried(u, sl, id, now, t);
      PlacedForgets(u, sl, id, now, t);
      forall x | x in Known(s) - Known(t) ensures Victim(s, sl, now, x) {
        assert Victim(u, sl, now, x) && u.newTable[sl] != id;
      }
    }
  }

  lemma AddNewForgets(h: Hashes, s: State, a: Address, source: NetAddr, penalty: int, now: int, draw: nat)
    requires Inv(h, s, {}, 0) && Find(s, a.svc.ip) !in s.info && Addable(h, s, a, source, penalty, now, draw)
    requires Added(h, s, a, true, source, penalty, now, draw)
    requires Inv(h, Add(h, s, a, true, source, penalty, now, draw), {}, 0)
    ensures var t := Add(h, s, a, true, source, penalty, now, draw);
      && t.triedTable == s.triedTable && Known(t) <= Known(s) + {a.svc.ip} && |Known(s) - Known(t)| <= 1
      && a.svc.ip !in s.byAddr
      && forall x <- Known(s) - Known(t) :: Victim(s, NewSlot(h, Entrant(s, a), source), now, x)
  {
    var t := Add(h, s, a, true, source, penalty, now, draw);
    var (u, id) := AddPrepared(s, a, source, penalty, now, draw);
    hide Inv, AddPrepared, Placed, Find, NewSlot, Addable, Place, Placeable, AddrOk, IsTerrible, Victim, Known;
    PreparedNew(h, s, a, source, penalty, now, draw);
    var sl := NewSlot(h, u.info[id].addr.svc, source);
    assert u.info[id].addr.svc == Entrant(s, a);
    OccupantOk(h, s, sl, {});
    OccupantOk(h, u, sl, {id});
    OccupantOk(h, t, sl, {});
    PlacedTried(u, sl, id, now, t);
    PlacedForgets(u, sl, id, now, t);
    NewVictims(s, u, sl, id, now, a.svc.ip, t);
  }

  lemma NewVictims(s: State, u: State, sl: Slot, id: int, now: int, ip: NetAddr, t: State)
    requires id in u.info && u.info == s.info[id := u.info[id]] && u.newTable == s.newTable
    requires u.byAddr == s.byAddr[ip := id] && ip !in s.byAddr && u.info[id].addr.svc.ip == ip
    requires Known(t) <= Known(u) && |Known(u) - Known(t)| <= 1
    requires forall x <- Known(u) - Known(t) ::
      (Victim(u, sl, now, x) && u.newTable[sl] != id) || (x == u.info[id].addr.svc.ip && u.info[id].refCount == 0)
    ensures Known(t) <= Known(s) + {ip} && |Known(s) - Known(t)| <= 1
    ensures forall x <- Known(s) - Known(t) :: Victim(s, sl, now, x)
  {
    hide IsTerrible;
    assert Known(u) == Known(s) + {ip};
    SubsetSize(Known(s) - Known(t), Known(u) - Known(t));
    forall x | x in Known(s) - Known(t) ensures Victim(s, sl, now, x) {
      assert x in Known(u) - Known(t) && x != ip;
      assert Victim(u, sl, now, x) && u.newTable[sl] != id;
    }
  }
}
