/** Every operation of the address book is defined on every consistent state, that is, none of its
    assertions can fail, and leaves a consistent state. Promotion and addition forget at most one
    address, and addition never touches the tried table. */
module AddrBookOps {
  import opened AddrBook
  import opened AddrBookSteps

  /** The addresses that are known. */
  ghost function Known(s: State): set<NetAddr> {
    s.byAddr.Keys
  }

  // ---------------------------------------------------------------- eviction

  /** What an eviction does: the occupant of the tried slot keeps being known, in exactly one slot of
      the new table; only the previous occupant of that slot can be forgotten, when it had no other. */
  ghost predicate Evicted(h: Hashes, s: State, sl: Slot, t: State)
    requires sl in s.triedTable && s.triedTable[sl] in s.info
  {
    var evictee, target := s.triedTable[sl], EvictionSlot(h, s, sl);
    && t.newTable == s.newTable[target := evictee]
    && t.triedTable == s.triedTable - {sl}
    && t.idCount == s.idCount
    && evictee in t.info && !t.info[evictee].inTried && t.info[evictee].refCount == 1
    && t.info.Keys == s.info.Keys - Forgotten(s, target)
    && t.byAddr == s.byAddr - AddrsOf(s, Forgotten(s, target))
    && FrameExcept(s, t, {evictee} + Occupants(s, target))
  }

  lemma LeaveTriedFrame(s: State, sl: Slot, target: Slot)
    requires sl in s.triedTable && s.triedTable[sl] in s.info
    ensures LeaveTried(s, sl).info.Keys == s.info.Keys
    ensures FrameExcept(s, LeaveTried(s, sl), {s.triedTable[sl]})
    ensures Forgotten(LeaveTried(s, sl), target) == Forgotten(s, target)
    ensures AddrsOf(LeaveTried(s, sl), Forgotten(s, target)) == AddrsOf(s, Forgotten(s, target))
  {
    assert LeaveTried(s, sl).info.Keys == s.info.Keys;
  }

  lemma EnterFrame(s: State, sl: Slot, id: int, n: int)
    requires id in s.info
    ensures Enter(s, sl, id, n).info.Keys == s.info.Keys
    ensures FrameExcept(s, Enter(s, sl, id, n), {id})
  {
    assert Enter(s, sl, id, n).info.Keys == s.info.Keys;
  }

  lemma CountOneMore(h: Hashes, s: State, limbo: set<int>, uncounted: int)
    requires Inv(h, s, limbo, uncounted)
    ensures Inv(h, s.(nNew := s.nNew + 1), limbo, uncounted - 1)
  {
    hide EntryOk, RefSlots, TriedIds, FreshIds, Position, TriedSlot;
    var t := s.(nNew := s.nNew + 1);
    forall k | k in t.info ensures EntryOk(h, t, k, k in limbo) {
      assert EntryOk(h, s, k, k in limbo);
      CountIrrelevant(h, s, k, k in limbo);
    }
  }

  lemma CountIrrelevant(h: Hashes, s: State, k: int, limbo: bool)
    requires k in s.info && EntryOk(h, s, k, limbo)
    ensures EntryOk(h, s.(nNew := s.nNew + 1), k, limbo)
  {
  }

  /** Halfway: the tried slot and the target slot are empty, and the evictee is in neither table. */
  ghost predicate HalfEvicted(h: Hashes, s: State, sl: Slot, u: State)
    requires sl in s.triedTable && s.triedTable[sl] in s.info
  {
    var evictee, target := s.triedTable[sl], EvictionSlot(h, s, sl);
    && u.newTable == s.newTable - {target}
    && u.triedTable == s.triedTable - {sl}
    && u.idCount == s.idCount
    && evictee in u.info && !u.info[evictee].inTried && u.info[evictee].refCount == 0
    && u.info[evictee].addr == s.info[evictee].addr && u.info[evictee].source == s.info[evictee].source
    && u.info.Keys == s.info.Keys - Forgotten(s, target)
    && u.byAddr == s.byAddr - AddrsOf(s, Forgotten(s, target))
    && FrameExcept(s, u, {evictee} + Occupants(s, target))
  }

  lemma EvictClears(h: Hashes, s: State, sl: Slot, id: int) returns (u: State)
    requires Inv(h, s, {id}, 1) && sl in s.triedTable
    ensures s.triedTable[sl] in s.info && s.triedTable[sl] != id
    ensures Clearable(LeaveTried(s, sl), EvictionSlot(h, s, sl))
    ensures u == ClearNew(LeaveTried(s, sl), EvictionSlot(h, s, sl))
    ensures HalfEvicted(h, s, sl, u) && Inv(h, u, {id} + {s.triedTable[sl]}, 2)
    ensures !(Forgotten(s, EvictionSlot(h, s, sl)) >= {id})
  {
    hide RandomOk, AddrOk, TriedOk, FreshOk, EntryOk, TriedIds, FreshIds, RefSlots, ClearNew, Clearable,
      FrameExcept, AddrsOf, Forgotten, Position, EvictionSlot;
    LeaveTriedKeepsInv(h, s, sl, {id}, 1);
    var evictee, target := s.triedTable[sl], EvictionSlot(h, s, sl);
    var t := LeaveTried(s, sl);
    LeaveTriedFrame(s, sl, target);
    LimboIsDeletable(h, t, evictee, {id} + {evictee}, 2);
    ClearNewKeepsInv(h, t, target, {id} + {evictee}, 2);
    u := ClearNew(t, target);
    assert evictee in u.info.Keys by {
      assert evictee in t.info.Keys;
    }
    assert EntryOk(h, u, evictee, evictee in {id} + {evictee});
    InLimbo(h, u, evictee);
    EvicteePlace(h, t, u, evictee, Occupants(t, target));
    FrameTransitive(s, t, u, {evictee}, Occupants(t, target));
  }

  /** The evictee enters its slot of the new table, and is counted there. */
  ghost function Readmitted(h: Hashes, s: State, sl: Slot, u: State): State
    requires sl in s.triedTable && s.triedTable[sl] in s.info && s.triedTable[sl] in u.info
  {
    var v := Enter(u, EvictionSlot(h, s, sl), s.triedTable[sl], 1);
    v.(nNew := v.nNew + 1)
  }

  lemma ReadmittedKeepsInv(h: Hashes, s: State, sl: Slot, id: int, u: State)
    requires sl in s.triedTable && s.triedTable[sl] in s.info && s.triedTable[sl] != id
    requires HalfEvicted(h, s, sl, u) && Inv(h, u, {id} + {s.triedTable[sl]}, 2)
    ensures Inv(h, Readmitted(h, s, sl, u), {id}, 1)
  {
    hide Inv, FrameExcept, AddrsOf, Forgotten, Position;
    var evictee, target := s.triedTable[sl], EvictionSlot(h, s, sl);
    EnterKeepsInv(h, u, target, evictee, {id} + {evictee}, 2, 1);
    assert {id} + {evictee} - {evictee} == {id};
    CountOneMore(h, Enter(u, target, evictee, 1), {id}, 2);
  }

  lemma ReadmittedIsEvicted(h: Hashes, s: State, sl: Slot, u: State)
    requires sl in s.triedTable && s.triedTable[sl] in s.info && HalfEvicted(h, s, sl, u)
    ensures Evicted(h, s, sl, Readmitted(h, s, sl, u))
  {
    hide FrameExcept, AddrsOf, Forgotten, Position, EvictionSlot, Occupants;
    var evictee, target := s.triedTable[sl], EvictionSlot(h, s, sl);
    var v := Enter(u, target, evictee, 1);
    EnterFrame(u, target, evictee, 1);
    FrameTransitive(s, u, v, {evictee} + Occupants(s, target), {evictee});
    assert {evictee} + Occupants(s, target) + {evictee} == {evictee} + Occupants(s, target);
    assert s.newTable - {target} + map[target := evictee] == s.newTable[target := evictee];
    FrameNew(s, v, {evictee} + Occupants(s, target));
  }

  lemma EvictKeepsInv(h: Hashes, s: State, sl: Slot, id: int)
    requires Inv(h, s, {id}, 1) && sl in s.triedTable
    ensures s.triedTable[sl] in s.info && s.triedTable[sl] != id
    ensures Evictable(h, s, sl)
    ensures Inv(h, Evict(h, s, sl), {id}, 1)
    ensures Evicted(h, s, sl, Evict(h, s, sl))
    ensures !(Forgotten(s, EvictionSlot(h, s, sl)) >= {id})
    ensures forall x <- s.newTable :: s.newTable[x] != id
  {
    hide Inv, Evicted, HalfEvicted, ClearNew, Clearable, LeaveTried, Forgotten, EvictionSlot;
    var u := EvictClears(h, s, sl, id);
    HalfEvictedKnows(h, s, sl, u);
    ReadmittedKeepsInv(h, s, sl, id, u);
    ReadmittedIsEvicted(h, s, sl, u);
    LimboIsDeletable(h, s, id, {id}, 1);
  }

  lemma HalfEvictedKnows(h: Hashes, s: State, sl: Slot, u: State)
    requires sl in s.triedTable && s.triedTable[sl] in s.info && HalfEvicted(h, s, sl, u)
    ensures s.triedTable[sl] in u.info
  {
  }

  lemma FrameNew(s: State, v: State, ids: set<int>)
    requires FrameExcept(s, v, ids)
    ensures FrameExcept(s, v.(nNew := v.nNew + 1), ids)
  {
  }

  lemma EvicteePlace(h: Hashes, t: State, u: State, k: int, ids: set<int>)
    requires FrameExcept(t, u, ids) && k in u.info
    ensures k in t.info && u.info[k].addr == t.info[k].addr && u.info[k].source == t.info[k].source
  {
    assert SameRecord(t.info[k], u.info[k]);
  }

  // ---------------------------------------------------------------- promotion

  /** The slot of the new table to which a promotion moves the entry that it evicts. */
  ghost function Refuge(h: Hashes, s: State, id: int): Slot
    requires id in s.info
    requires var sl := TriedSlot(h, s.info[id].addr.svc); sl in s.triedTable && s.triedTable[sl] in s.info
  {
    EvictionSlot(h, s, TriedSlot(h, s.info[id].addr.svc))
  }

  /** The only entry that a promotion can forget: the occupant of the refuge, unless it is the promoted
      entry itself or has another slot. */
  ghost function Victims(h: Hashes, s: State, id: int): set<int>
    requires id in s.info
    requires var sl := TriedSlot(h, s.info[id].addr.svc); sl in s.triedTable ==> s.triedTable[sl] in s.info
  {
    if TriedSlot(h, s.info[id].addr.svc) in s.triedTable then Forgotten(s, Refuge(h, s, id)) - {id} else {}
  }

  ghost predicate Promoted(h: Hashes, s: State, id: int, t: State)
    requires id in s.info
    requires var sl := TriedSlot(h, s.info[id].addr.svc); sl in s.triedTable ==> s.triedTable[sl] in s.info
  {
    var sl := TriedSlot(h, s.info[id].addr.svc);
    && t.triedTable == s.triedTable[sl := id]
    && id in t.info && t.info[id].inTried && t.info[id].refCount == 0
    && t.info.Keys == s.info.Keys - Victims(h, s, id)
    && t.byAddr == s.byAddr - AddrsOf(s, Victims(h, s, id))
    && t.idCount == s.idCount
    && (if sl !in s.triedTable then
          t.newTable == Without(s.newTable, id) && FrameExcept(s, t, {id})
        else
          && t.newTable == Without(s.newTable, id)[Refuge(h, s, id) := s.triedTable[sl]]
          && s.triedTable[sl] in t.info && !t.info[s.triedTable[sl]].inTried
          && t.info[s.triedTable[sl]].refCount == 1
          && FrameExcept(s, t, {id, s.triedTable[sl]} + Occupants(s, Refuge(h, s, id))))
  }

  ghost function Without(t: Table, id: int): Table {
    t - RefSlots(t, id)
  }

  lemma LeaveNewFrame(h: Hashes, s: State, id: int)
    requires id in s.info
    ensures var t := LeaveNew(s, id);
      && t.info.Keys == s.info.Keys && FrameExcept(s, t, {id})
      && t.newTable == Without(s.newTable, id) && t.info[id].addr == s.info[id].addr
  {
    assert LeaveNew(s, id).info.Keys == s.info.Keys;
  }

  lemma LeaveNewForgets(h: Hashes, s: State, id: int, sl: Slot)
    requires id in s.info && sl in s.triedTable && s.triedTable[sl] in s.info
    ensures var t, target := LeaveNew(s, id), EvictionSlot(h, s, sl);
      && s.triedTable[sl] in t.info && EvictionSlot(h, t, sl) == target
      && Forgotten(t, target) == Forgotten(s, target) - {id}
      && Occupants(t, target) == Occupants(s, target) - {id}
      && AddrsOf(t, Forgotten(t, target)) == AddrsOf(s, Forgotten(t, target))
  {
  }

  lemma NoEviction(h: Hashes, s: State, sl: Slot)
    requires sl !in s.triedTable
    ensures Evictable(h, s, sl) && Evict(h, s, sl) == s
  {
  }

  lemma EnterTriedFrame(s: State, sl: Slot, id: int)
    requires id in s.info
    ensures EnterTried(s, sl, id).info.Keys == s.info.Keys
    ensures FrameExcept(s, EnterTried(s, sl, id), {id})
    ensures forall k <- s.info | k != id :: EnterTried(s, sl, id).info[k] == s.info[k]
  {
    assert EnterTried(s, sl, id).info.Keys == s.info.Keys;
  }

  lemma PromoteWithoutEviction(h: Hashes, s: State, id: int)
    requires Inv(h, s, {}, 0) && id in s.info && !s.info[id].inTried
    requires TriedSlot(h, s.info[id].addr.svc) !in s.triedTable
    ensures Promotable(h, s, id)
    ensures Inv(h, MakeTried(h, s, id), {}, 0)
    ensures Promoted(h, s, id, MakeTried(h, s, id))
  {
    hide RandomOk, AddrOk, TriedOk, FreshOk, EntryOk, TriedIds, FreshIds, RefSlots, FrameExcept, AddrsOf, TriedSlot,
      Without;
    var sl := TriedSlot(h, s.info[id].addr.svc);
    var t := LeaveNew(s, id);
    LeaveNewKeepsInv(h, s, id);
    LeaveNewFrame(h, s, id);
    NoEviction(h, t, sl);
    assert EntryOk(h, t, id, id in {id});
    InLimbo(h, t, id);
    EnterTriedKeepsInv(h, t, id);
    EnterTriedFrame(t, sl, id);
    FrameTransitive(s, t, EnterTried(t, sl, id), {id}, {id});
    assert {id} + {id} == {id};
    NoAddrs(s);
  }

  /** A promotion up to its last step: the old occupant of the tried slot has found its refuge. */
  ghost predicate RoomMade(h: Hashes, s: State, id: int, sl: Slot, u: State)
    requires id in s.info && sl in s.triedTable && s.triedTable[sl] in s.info
  {
    var evictee, refuge := s.triedTable[sl], EvictionSlot(h, s, sl);
    && u.newTable == Without(s.newTable, id)[refuge := evictee]
    && u.triedTable == s.triedTable - {sl}
    && u.idCount == s.idCount
    && evictee != id && evictee in u.info && !u.info[evictee].inTried && u.info[evictee].refCount == 1
    && u.info.Keys == s.info.Keys - (Forgotten(s, refuge) - {id})
    && u.byAddr == s.byAddr - AddrsOf(s, Forgotten(s, refuge) - {id})
    && id in u.info && !u.info[id].inTried && u.info[id].refCount == 0 && u.info[id].addr == s.info[id].addr
    && FrameExcept(s, u, {id, evictee} + Occupants(s, refuge))
  }

  lemma MakeRoom(h: Hashes, s: State, id: int, sl: Slot) returns (u: State)
    requires Inv(h, s, {}, 0) && id in s.info && !s.info[id].inTried && sl in s.triedTable
    ensures s.triedTable[sl] in s.info && Evictable(h, LeaveNew(s, id), sl) && u == Evict(h, LeaveNew(s, id), sl)
    ensures Inv(h, u, {id}, 1) && RoomMade(h, s, id, sl, u)
  {
    hide RandomOk, AddrOk, TriedOk, FreshOk, EntryOk, TriedIds, FreshIds, RefSlots, FrameExcept, AddrsOf, TriedSlot,
      Without, Evict, Evictable, Forgotten, EvictionSlot;
    InTriedSlot(h, s, sl);
    var evictee := s.triedTable[sl];
    var t := LeaveNew(s, id);
    LeaveNewKeepsInv(h, s, id);
    LeaveNewFrame(h, s, id);
    EvictKeepsInv(h, t, sl, id);
    u := Evict(h, t, sl);
    var refuge := EvictionSlot(h, t, sl);
    LeaveNewForgets(h, s, id, sl);
    assert id in u.info.Keys by {
      assert id in t.info.Keys;
    }
    assert EntryOk(h, u, id, id in {id});
    InLimbo(h, u, id);
    EvicteePlace(h, t, u, id, {evictee} + Occupants(t, refuge));
    FrameTransitive(s, t, u, {id}, {evictee} + Occupants(t, refuge));
    assert {id} + ({evictee} + Occupants(t, refuge)) == {id, evictee} + Occupants(s, refuge);
  }

  lemma PromoteWithEviction(h: Hashes, s: State, id: int)
    requires Inv(h, s, {}, 0) && id in s.info && !s.info[id].inTried
    requires TriedSlot(h, s.info[id].addr.svc) in s.triedTable
    ensures Promotable(h, s, id)
    ensures Inv(h, MakeTried(h, s, id), {}, 0)
    ensures s.triedTable[TriedSlot(h, s.info[id].addr.svc)] in s.info
    ensures Promoted(h, s, id, MakeTried(h, s, id))
  {
    hide Inv, FrameExcept, AddrsOf, TriedSlot, Without, Evict, Evictable, Forgotten, EvictionSlot, LeaveNew;
    var sl := TriedSlot(h, s.info[id].addr.svc);
    var u := MakeRoom(h, s, id, sl);
    var evictee, refuge := s.triedTable[sl], EvictionSlot(h, s, sl);
    EnterTriedKeepsInv(h, u, id);
    EnterTriedFrame(u, sl, id);
    var v := EnterTried(u, sl, id);
    FrameTransitive(s, u, v, {id, evictee} + Occupants(s, refuge), {id});
    assert {id, evictee} + Occupants(s, refuge) + {id} == {id, evictee} + Occupants(s, refuge);
    assert s.triedTable - {sl} + map[sl := id] == s.triedTable[sl := id];
  }

  lemma MakeTriedKeepsInv(h: Hashes, s: State, id: int)
    requires Inv(h, s, {}, 0) && id in s.info && !s.info[id].inTried
    ensures Promotable(h, s, id)
    ensures Inv(h, MakeTried(h, s, id), {}, 0)
    ensures var sl := TriedSlot(h, s.info[id].addr.svc); sl in s.triedTable ==> s.triedTable[sl] in s.info
    ensures Promoted(h, s, id, MakeTried(h, s, id))
  {
    if TriedSlot(h, s.info[id].addr.svc) in s.triedTable {
      PromoteWithEviction(h, s, id);
    } else {
      PromoteWithoutEviction(h, s, id);
    }
  }

  // ---------------------------------------------------------------- Good

  lemma TargetIsKnown(h: Hashes, s: State, svc: Service)
    requires Inv(h, s, {}, 0)
    ensures var id := Target(s, svc);
      id in s.info <==> svc.ip in s.byAddr && s.byAddr[svc.ip] in s.info && s.info[s.byAddr[svc.ip]].addr.svc == svc
    ensures -1 !in s.info
  {
    forall id | id in s.info ensures id != -1 {
      assert EntryOk(h, s, id, id in {});
    }
  }

  lemma GoodKeepsInv(h: Hashes, s: State, svc: Service, time: int)
    requires Inv(h, s, {}, 0)
    ensures GoodDefined(h, s, svc, time)
    ensures Inv(h, Good(h, s, svc, time), {}, 0)
  {
    hide Inv, Promotable, MakeTried, Target, Promoted;
    var id := Target(s, svc);
    if id in s.info {
      StatsKeepInv(h, s, id, s.info[id].(lastSuccess := time, lastTry := time, attempts := 0));
      if !s.info[id].inTried {
        MakeTriedKeepsInv(h, MarkGood(s, id, time), id);
      }
    }
  }

  /** The ids whose place a promotion changes. */
  ghost function Moved(h: Hashes, s: State, id: int): set<int>
    requires id in s.info
    requires var sl := TriedSlot(h, s.info[id].addr.svc); sl in s.triedTable ==> s.triedTable[sl] in s.info
  {
    var sl := TriedSlot(h, s.info[id].addr.svc);
    if sl in s.triedTable then {id, s.triedTable[sl]} + Occupants(s, Refuge(h, s, id)) else {id}
  }

  lemma PromotionStats(h: Hashes, s: State, id: int)
    requires Inv(h, s, {}, 0) && id in s.info && !s.info[id].inTried
    requires AllStatsOk(s.(info := s.info - {id}))
    requires Promotable(h, s, id)
    ensures var t := MakeTried(h, s, id);
      AllStatsOk(t) <==> 0 < s.info[id].lastSuccess && 0 <= s.info[id].lastTry
  {
    MakeTriedKeepsInv(h, s, id);
    hide Inv, MakeTried, Promotable, FrameExcept, AddrsOf, Without;
    var t := MakeTried(h, s, id);
    var ids := Moved(h, s, id);
    assert FrameExcept(s, t, ids);
    InFrame(s, t, ids, id);
    forall k | k in t.info && k != id ensures StatsOk(t.info[k]) {
      InFrame(s, t, ids, k);
      assert k in s.(info := s.info - {id}).info;
      assert StatsOk(s.info[k]);
      if t.info[k].inTried && !s.info[k].inTried {
        OnlyPromotedTurnsTried(h, s, id, k);
      }
    }
  }

  lemma InFrame(s: State, t: State, ids: set<int>, k: int)
    requires FrameExcept(s, t, ids) && k in t.info
    ensures k in s.info && SameRecord(s.info[k], t.info[k])
    ensures k !in ids ==> t.info[k].inTried == s.info[k].inTried && t.info[k].refCount == s.info[k].refCount
  {
  }

  lemma TriedIffSlotted(h: Hashes, s: State, k: int)
    requires Inv(h, s, {}, 0) && k in s.info
    ensures s.info[k].inTried <==> exists sl :: sl in s.triedTable && s.triedTable[sl] == k
  {
    assert EntryOk(h, s, k, k in {});
  }

  lemma OnlyPromotedTurnsTried(h: Hashes, s: State, id: int, k: int)
    requires Inv(h, s, {}, 0) && id in s.info && !s.info[id].inTried && Promotable(h, s, id)
    requires k in s.info && k != id && !s.info[k].inTried && k in MakeTried(h, s, id).info
    ensures !MakeTried(h, s, id).info[k].inTried
  {
    MakeTriedKeepsInv(h, s, id);
    hide MakeTried, Promotable;
    TriedIffSlotted(h, s, k);
    TriedIffSlotted(h, MakeTried(h, s, id), k);
  }

  /** Good_ leaves a consistent state exactly when the time it is given is positive, or when it finds
      no entry with that address and port. */
  lemma GoodKeepsConsistency(h: Hashes, s: State, svc: Service, time: int)
    requires Consistent(h, s)
    ensures GoodDefined(h, s, svc, time)
    ensures Consistent(h, Good(h, s, svc, time)) <==> (Target(s, svc) in s.info ==> 0 < time)
  {
    GoodKeepsInv(h, s, svc, time);
    hide Inv, Promotable, MakeTried, Target, MarkGood, AllStatsOk;
    var id := Target(s, svc);
    if id in s.info {
      MarkGoodStats(s, id, time);
      if !s.info[id].inTried {
        MarkedUntried(h, s, id, time);
        PromotionStats(h, MarkGood(s, id, time), id);
      }
    }
  }

  lemma MarkedUntried(h: Hashes, s: State, id: int, time: int)
    requires Inv(h, s, {}, 0) && id in s.info && !s.info[id].inTried
    ensures var u := MarkGood(s, id, time); Inv(h, u, {}, 0) && id in u.info && !u.info[id].inTried
  {
    StatsKeepInv(h, s, id, MarkGood(s, id, time).info[id]);
  }

  lemma MarkGoodStats(s: State, id: int, time: int)
    requires AllStatsOk(s) && id in s.info
    ensures var u := MarkGood(s, id, time);
      && id in u.info && u.info[id].lastSuccess == time == u.info[id].lastTry
      && AllStatsOk(u.(info := u.info - {id}))
      && (s.info[id].inTried ==> (AllStatsOk(u) <==> 0 < time))
  {
    var u := MarkGood(s, id, time);
    assert u.info - {id} == s.info - {id};
    assert forall k <- u.info | k != id :: k in s.info && u.info[k] == s.info[k];
  }
}
