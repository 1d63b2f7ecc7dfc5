/** What an announcement, a connection and a look at an entry come to, in terms of the book before the call. */
module AddrBookOutcomes {
  import opened AddrBook
  import opened AddrBookSteps
  import opened AddrBookOps
  import opened AddrBookTheorems
  import opened Powers

  // ---------------------------------------------------------------- one entry

  /** An entry that was tried within the last minute is not terrible. Any other is when it was announced for a time more
      than ten minutes ahead, for no time or for one more than thirty days ago, when three attempts failed and none ever
      succeeded, or when ten attempts failed and the last success is more than a week ago. */
  lemma TerribleWhen(e: AddrInfo, now: int)
    ensures IsTerrible(e, now) <==>
      && (e.lastTry == 0 || now - e.lastTry > 60)
      && (|| e.addr.time == 0 || e.addr.time - now > 600 || now - e.addr.time > 2592000
          || (e.lastSuccess == 0 && e.attempts >= 3)
          || (now - e.lastSuccess > 604800 && e.attempts >= 10))
  {
  }

  /** After a connection to a known service its entry's time is at most twenty minutes behind, unless the time does not
      fit the 32-bit field; nothing but that time changes, and only when it was further behind. */
  lemma ConnectedOutcome(s: State, svc: Service, time: int)
    ensures Target(s, svc) !in s.info ==> Connected(s, svc, time) == s
    ensures var id, t := Target(s, svc), Connected(s, svc, time);
      id in s.info ==>
        && id in t.info
        && t == s.(info := s.info[id := s.info[id].(addr := s.info[id].addr.(time := t.info[id].addr.time))])
        && (s.info[id].addr.time >= time - 1200 ==> t == s)
        && (t.info[id].addr.time >= time - 1200 <==> s.info[id].addr.time >= time - 1200 || time < 0x1_0000_0000)
        && (s.info[id].addr.time < time - 1200 && 0 <= time < 0x1_0000_0000 ==> t.info[id].addr.time == time)
  {
    hide Target;
    var id := Target(s, svc);
    if id in s.info {
      assert s.info[id := s.info[id]] == s.info;
      Wrapped(time);
    }
  }

  lemma Wrapped(x: int)
    ensures 0 <= ToUint32(x) < 0x1_0000_0000
    ensures 0 <= x < 0x1_0000_0000 ==> ToUint32(x) == x
    ensures x >= 0x1_0000_0000 ==> ToUint32(x) <= x - 0x1_0000_0000
  {
  }

  // ---------------------------------------------------------------- places

  /** Where the entries of a consistent book are: a tried entry in the one slot that its hashes select, an untried one
      in one to eight slots, each at the position in its bucket that the hash for the new table selects. */
  lemma PlacesByHash(h: Hashes, s: State, id: int)
    requires Inv(h, s, {}, 0) && id in s.info
    ensures var svc := s.info[id].addr.svc;
      var bucket := h.triedHash(svc) % 256;
      var slot := Slot(bucket, h.positionHash(svc, false, bucket) % 64);
      && (forall sl <- s.triedTable :: s.triedTable[sl] == id <==> s.info[id].inTried && sl == slot)
      && (s.info[id].inTried ==> slot in s.triedTable && RefSlots(s.newTable, id) == {})
      && (!s.info[id].inTried ==> 1 <= |RefSlots(s.newTable, id)| <= 8)
      && (forall sl <- s.newTable | s.newTable[sl] == id ::
            0 <= sl.bucket < 1024 && sl.pos == h.positionHash(svc, true, sl.bucket) % 64)
  {
    assert EntryOk(h, s, id, id in {});
  }

  /** The slot for which an announced address competes. */
  lemma NewSlotByHash(h: Hashes, svc: Service, source: NetAddr)
    ensures var bucket := h.newHash(svc, source) % 1024;
      NewSlot(h, svc, source) == Slot(bucket, h.positionHash(svc, true, bucket) % 64)
  {
  }

  // ---------------------------------------------------------------- the entry that is placed

  /** The entry that takes a slot has one reference more and is otherwise the same. */
  lemma PlacedEntry(h: Hashes, s: State, sl: Slot, id: int, now: int, limbo: set<int>)
    requires id in s.info && Inv(h, s, limbo, 0) && Placeable(s, sl, id, now)
    requires !(sl in s.newTable && s.newTable[sl] == id) && Overwrites(s, sl, id, now)
    ensures var t := Place(s, sl, id, now);
      && id in t.info && SameRecord(s.info[id], t.info[id])
      && t.info[id].inTried == s.info[id].inTried && t.info[id].refCount == s.info[id].refCount + 1
  {
    hide Inv, FrameExcept, Overwrites, ClearNew, Clearable, Delete, Deletable, AddrsOf;
    ClearNewKeepsInv(h, s, sl, limbo, 0);
    InFrame(s, ClearNew(s, sl), Occupants(s, sl), id);
  }

  lemma RefsCounted(h: Hashes, s: State, id: int)
    requires Inv(h, s, {}, 0) && id in s.info
    ensures s.info[id].refCount == |RefSlots(s.newTable, id)|
  {
    assert EntryOk(h, s, id, id in {});
  }

  // ---------------------------------------------------------------- an unknown address

  /** The slot is free, or its entry is terrible or has another slot. */
  ghost predicate Yields(s: State, sl: Slot, now: int) {
    sl in s.newTable ==>
      && s.newTable[sl] in s.info
      && (IsTerrible(s.info[s.newTable[sl]], now) || |RefSlots(s.newTable, s.newTable[sl])| > 1)
  }

  /** Deleting what was just created leaves nothing but the used id. */
  lemma CreatedAndDeleted(s: State, a: Address, source: NetAddr, penalty: int)
    requires s.idCount !in s.info && a.svc.ip !in s.byAddr
    requires Deletable(CreateNew(s, a, source, penalty), s.idCount)
    ensures Delete(CreateNew(s, a, source, penalty), s.idCount) == s.(idCount := s.idCount + 1)
  {
    hide ToUint32, Max0;
    var t := CreateNew(s, a, source, penalty);
    assert SwapRandom(t, t.info[s.idCount].randomPos, |t.random| - 1) == t;
    assert t.random[..|t.random| - 1] == s.random;
    assert t.info - {s.idCount} == s.info;
    assert t.byAddr - {a.svc.ip} == s.byAddr;
  }

  lemma CreatedEntry(s: State, a: Address, source: NetAddr, penalty: int)
    ensures var t := CreateNew(s, a, source, penalty);
      && s.idCount in t.info && t.info[s.idCount].source == source
      && t.info[s.idCount].addr == a.(time := (if a.time > penalty then a.time - penalty else 0) % 0x1_0000_0000)
  {
  }

  lemma UnknownYields(h: Hashes, s: State, u: State, sl: Slot, id: int, now: int)
    requires Inv(h, s, {}, 0) && id !in s.info && id in u.info && u.info == s.info[id := u.info[id]]
    requires u.newTable == s.newTable && u.info[id].refCount == 0
    ensures Overwrites(u, sl, id, now) <==> Yields(s, sl, now)
    ensures !(sl in u.newTable && u.newTable[sl] == id)
  {
    hide IsTerrible, Inv, RefSlots;
    OccupantOk(h, s, sl, {});
    if sl in s.newTable {
      RefsCounted(h, s, s.newTable[sl]);
    }
  }

  /** An unknown routable address becomes known exactly when the slot that its source selects is free or is held by an
      entry that is terrible or has another slot. It then has that slot and no other; otherwise all that remains of the
      call is the used id. */
  lemma UnknownOutcome(h: Hashes, s: State, a: Address, source: NetAddr, penalty: int, now: int, draw: nat)
    requires Inv(h, s, {}, 0) && a.svc.ip !in Known(s)
    ensures Addable(h, s, a, source, penalty, now, draw)
    ensures var t, sl := Add(h, s, a, true, source, penalty, now, draw), NewSlot(h, a.svc, source);
      && (a.svc.ip in Known(t) <==> Yields(s, sl, now))
      && (a.svc.ip !in Known(t) ==> t == s.(idCount := s.idCount + 1))
      && (a.svc.ip in Known(t) ==>
            && t.newTable == s.newTable[sl := s.idCount]
            && t.byAddr[a.svc.ip] == s.idCount && s.idCount in t.info
            && t.info[s.idCount].refCount == 1 && !t.info[s.idCount].inTried
            && t.info[s.idCount].source == source
            && t.info[s.idCount].addr == a.(time := (if a.time > penalty then a.time - penalty else 0) % 0x1_0000_0000))
  {
    AddKeepsInv(h, s, a, true, source, penalty, now, draw);
    TargetIsKnown(h, s, a.svc);
    PreparedNew(h, s, a, source, penalty, now, draw);
    CreatedEntry(s, a, source, penalty);
    var (u, id) := AddPrepared(s, a, source, penalty, now, draw);
    var t, sl := Add(h, s, a, true, source, penalty, now, draw), NewSlot(h, a.svc, source);
    hide Inv, Overwrites, NewSlot, CreateNew, Delete, Deletable, ClearNew, Clearable, FrameExcept, AddrsOf, IsTerrible,
      Yields, RefSlots;
    UnknownYields(h, s, u, sl, id, now);
    if Overwrites(u, sl, id, now) {
      PlacedEntry(h, u, sl, id, now, {id});
      AddrInBook(h, t, id);
    } else {
      CreatedAndDeleted(s, a, source, penalty);
    }
  }

  lemma AddrInBook(h: Hashes, s: State, id: int)
    requires Inv(h, s, {}, 0) && id in s.info
    ensures s.info[id].addr.svc.ip in s.byAddr && s.byAddr[s.info[id].addr.svc.ip] == id
  {
  }

  // ---------------------------------------------------------------- a known address

  /** The time of an entry after an announcement: it moves on when the announced time is ahead of it by more than the
      penalty and an hour, or a day when the announced time is itself older than a day. */
  function TimeAfter(time: int, announced: int, penalty: int, now: int): int {
    var interval := if now - announced < 86400 then 3600 else 86400;
    if announced != 0 && (time == 0 || announced - time > interval + penalty)
    then (if announced > penalty then announced - penalty else 0) % 0x1_0000_0000 else time
  }

  /** A known entry gains the slot that the source of the announcement selects. */
  ghost predicate Gains(s: State, id: int, sl: Slot, a: Address, penalty: int, now: int, draw: nat)
    requires id in s.info
  {
    var e := s.info[id];
    var time := TimeAfter(e.addr.time, a.time, penalty, now);
    && !e.inTried && |RefSlots(s.newTable, id)| < 8
    && a.time != 0 && (time == 0 || a.time > time)
    && draw % Pow2(|RefSlots(s.newTable, id)|) == 0
    && (sl in s.newTable ==>
          s.newTable[sl] in s.info && s.newTable[sl] != id && IsTerrible(s.info[s.newTable[sl]], now))
  }

  lemma RefreshIs(e: AddrInfo, a: Address, penalty: int, now: int)
    ensures var r := Refresh(e, a, penalty, now);
      r == e.(addr := Address(e.addr.svc, e.addr.services + a.services, TimeAfter(e.addr.time, a.time, penalty, now)))
  {
  }

  lemma FindIn(s: State, ip: NetAddr)
    requires AddrOk(s) && ip in s.byAddr
    ensures Find(s, ip) == s.byAddr[ip] && s.byAddr[ip] in s.info
  {
  }

  /** The refreshed entry goes on to the placement and gets its slot exactly when it gains it. */
  lemma KnownGains(h: Hashes, s: State, u: State, id: int, sl: Slot, a: Address, penalty: int, now: int, draw: nat)
    requires Inv(h, s, {}, 0) && id in s.info && u == RefreshEntry(s, id, a, penalty, now)
    ensures id in u.info
    ensures Gains(s, id, sl, a, penalty, now, draw) <==>
      Proceeds(u.info[id], a, draw) && !(sl in u.newTable && u.newTable[sl] == id) && Overwrites(u, sl, id, now)
  {
    hide IsTerrible, Inv, RefSlots, Refresh, TimeAfter, Pow2;
    RefreshIs(s.info[id], a, penalty, now);
    RefsCounted(h, s, id);
    OccupantOk(h, s, sl, {});
    EntryBounds(h, s, id);
    ModOne(draw);
  }

  lemma ModOne(x: nat)
    ensures x % Pow2(0) == 0
  {
  }

  lemma EntryBounds(h: Hashes, s: State, id: int)
    requires Inv(h, s, {}, 0) && id in s.info
    ensures 0 <= s.info[id].refCount <= NEW_BUCKETS_PER_ADDRESS
    ensures !s.info[id].inTried ==> s.info[id].refCount > 0
  {
    assert EntryOk(h, s, id, id in {});
  }

  /** An announcement of a known address adds the announced services and moves the time on. The entry takes the slot
      that the source selects exactly when it is untried, has less than eight slots, is announced for a time that is
      still ahead of its own, has the luck of one in 2^n for the n slots it has, and finds the slot free or held by
      another, terrible, entry. Otherwise nothing else changes. */
  lemma KnownOutcome(h: Hashes, s: State, a: Address, source: NetAddr, penalty: int, now: int, draw: nat)
    requires Inv(h, s, {}, 0) && a.svc.ip in Known(s)
    ensures Addable(h, s, a, source, penalty, now, draw) && s.byAddr[a.svc.ip] in s.info
    ensures var t, id := Add(h, s, a, true, source, penalty, now, draw), s.byAddr[a.svc.ip];
      var e := s.info[id];
      var addr := Address(e.addr.svc, e.addr.services + a.services, TimeAfter(e.addr.time, a.time, penalty, now));
      var sl := NewSlot(h, e.addr.svc, source);
      if Gains(s, id, sl, a, penalty, now, draw) then
        && t.newTable == s.newTable[sl := id]
        && id in t.info && t.info[id].refCount == e.refCount + 1 && !t.info[id].inTried
        && SameRecord(e.(addr := addr), t.info[id])
      else t == s.(info := s.info[id := e.(addr := addr)])
  {
    AddKeepsInv(h, s, a, true, source, penalty, now, draw);
    hide Inv, Overwrites, NewSlot, Delete, Deletable, ClearNew, Clearable, FrameExcept, AddrsOf, IsTerrible,
      Gains, RefSlots, Refresh, Proceeds, TimeAfter;
    InvHasIndexes(h, s);
    FindIn(s, a.svc.ip);
    PreparedKnown(h, s, a, source, penalty, now, draw);
    var (u, k) := AddPrepared(s, a, source, penalty, now, draw);
    var id := s.byAddr[a.svc.ip];
    var sl := NewSlot(h, s.info[id].addr.svc, source);
    RefreshIs(s.info[id], a, penalty, now);
    KnownGains(h, s, u, id, sl, a, penalty, now, draw);
    UntriedIds(h, s, id);
    if Gains(s, id, sl, a, penalty, now, draw) {
      PlacedEntry(h, u, sl, id, now, {});
    } else if k != -1 {
      UntriedRefs(h, u, id);
    }
  }

  lemma InvHasIndexes(h: Hashes, s: State)
    requires Inv(h, s, {}, 0)
    ensures AddrOk(s)
  {
  }

  lemma UntriedIds(h: Hashes, s: State, id: int)
    requires Inv(h, s, {}, 0) && id in s.info
    ensures id != -1
  {
    assert EntryOk(h, s, id, id in {});
  }
}
