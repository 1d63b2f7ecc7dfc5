/** The peer address manager as an object that updates its maps, its random order and its two bucket
    tables in place. Every method is proved against the address book: it takes the old view of the
    object to what the corresponding operation says, and none of its assertions can fail.

    A reference into `mapInfo` is modelled by the entry's id; wherever the original goes through such
    a reference, the entry is shown to be still in the map. */
module AddrMan {
  import opened AddrBook
  import opened AddrBookSteps
  import opened AddrBookOps
  import opened AddrBookTheorems
  import opened AddrBookRuns
  import opened Powers

  const FREE := -1

  /** A table lists the occupied slots of an array of buckets. */
  ghost predicate Represents(t: Table, a: array2<int>)
    reads a
  {
    && (forall sl <- t ::
          && 0 <= sl.bucket < a.Length0 && 0 <= sl.pos < a.Length1
          && a[sl.bucket, sl.pos] != FREE && t[sl] == a[sl.bucket, sl.pos])
    && (forall b, p | 0 <= b < a.Length0 && 0 <= p < a.Length1 && a[b, p] != FREE :: Slot(b, p) in t)
  }

  /** The occupied slots of the first `p` positions of a bucket, and of the first `b` buckets. */
  ghost function BucketUpTo(a: array2<int>, b: nat, p: nat): (t: Table)
    requires b < a.Length0 && p <= a.Length1
    reads a
    ensures forall sl <- t :: sl.bucket == b && 0 <= sl.pos < p && a[b, sl.pos] != FREE && t[sl] == a[b, sl.pos]
    ensures forall q | 0 <= q < p && a[b, q] != FREE :: Slot(b, q) in t
  {
    if p == 0 then map[]
    else if a[b, p - 1] == FREE then BucketUpTo(a, b, p - 1)
    else BucketUpTo(a, b, p - 1)[Slot(b, p - 1) := a[b, p - 1]]
  }

  ghost function BucketsUpTo(a: array2<int>, b: nat): (t: Table)
    requires b <= a.Length0
    reads a
    ensures forall sl <- t ::
      && 0 <= sl.bucket < b && 0 <= sl.pos < a.Length1
      && a[sl.bucket, sl.pos] != FREE && t[sl] == a[sl.bucket, sl.pos]
    ensures forall c, q | 0 <= c < b && 0 <= q < a.Length1 && a[c, q] != FREE :: Slot(c, q) in t
  {
    if b == 0 then map[] else BucketsUpTo(a, b - 1) + BucketUpTo(a, b - 1, a.Length1)
  }

  /** The table that an array of buckets stands for. */
  ghost function TableOf(a: array2<int>): (t: Table)
    reads a
    ensures Represents(t, a)
  {
    BucketsUpTo(a, a.Length0)
  }

  lemma TableIsUnique(t: Table, a: array2<int>)
    requires Represents(t, a)
    ensures t == TableOf(a)
  {
    var u := TableOf(a);
    forall sl ensures sl in t <==> sl in u {
      if sl in t {
        assert Slot(sl.bucket, sl.pos) in u;
      }
      if sl in u {
        assert Slot(sl.bucket, sl.pos) in t;
      }
    }
  }

  class AddrMan {
    const h: Hashes
    var nIdCount: int
    var mapInfo: map<int, AddrInfo>
    var mapAddr: map<NetAddr, int>
    var vRandom: seq<int>
    var nTried: int
    const vvTried: array2<int>
    var nNew: int
    const vvNew: array2<int>

    /** The shape of the tables; what they hold is the business of the invariant. */
    ghost predicate Valid()
      reads this
    {
      && vvTried.Length0 == TRIED_BUCKET_COUNT && vvTried.Length1 == BUCKET_SIZE
      && vvNew.Length0 == NEW_BUCKET_COUNT && vvNew.Length1 == BUCKET_SIZE
      && vvTried != vvNew
    }

    ghost function View(): State
      reads this, vvTried, vvNew
    {
      State(nIdCount, mapInfo, mapAddr, vRandom, nTried, nNew, TableOf(vvTried), TableOf(vvNew))
    }

    constructor (h: Hashes)
      ensures Valid() && fresh(vvTried) && fresh(vvNew)
      ensures this.h == h && View() == EMPTY
    {
      this.h := h;
      vvTried := new int[TRIED_BUCKET_COUNT, BUCKET_SIZE]((i, j) => FREE);
      vvNew := new int[NEW_BUCKET_COUNT, BUCKET_SIZE]((i, j) => FREE);
      nIdCount, nTried, nNew := 0, 0, 0;
      mapInfo, mapAddr, vRandom := map[], map[], [];
      new;
      TableIsUnique(map[], vvTried);
      TableIsUnique(map[], vvNew);
    }

    method SetSlot(a: array2<int>, b: int, p: int, v: int)
      requires 0 <= b < a.Length0 && 0 <= p < a.Length1
      modifies a
      ensures TableOf(a) == if v == FREE then old(TableOf(a)) - {Slot(b, p)} else old(TableOf(a))[Slot(b, p) := v]
      ensures forall i, j | 0 <= i < a.Length0 && 0 <= j < a.Length1 && (i != b || j != p) :: a[i, j] == old(a[i, j])
      ensures a[b, p] == v
    {
      ghost var t := TableOf(a);
      hide TableOf;
      a[b, p] := v;
      TableIsUnique(if v == FREE then t - {Slot(b, p)} else t[Slot(b, p) := v], a);
    }

    method FindId(ip: NetAddr) returns (nId: int)
      ensures nId == Find(View(), ip)
    {
      if ip !in mapAddr {
        return -1;
      }
      nId := mapAddr[ip];
      if nId !in mapInfo {
        return -1;
      }
    }

    method CreateEntry(addr: Address, source: NetAddr) returns (nId: int)
      modifies this
      ensures nId == old(nIdCount) && View() == Create(old(View()), addr, source)
    {
      nId := nIdCount;
      nIdCount := nIdCount + 1;
      mapInfo := mapInfo[nId := FreshInfo(addr, source)];
      mapAddr := mapAddr[addr.svc.ip := nId];
      mapInfo := mapInfo[nId := mapInfo[nId].(randomPos := |vRandom|)];
      vRandom := vRandom + [nId];
      assert mapInfo == old(mapInfo)[nId := FreshInfo(addr, source).(randomPos := |old(vRandom)|)];
    }

    method Swap(nRndPos1: int, nRndPos2: int)
      requires nRndPos1 != nRndPos2 ==> Swappable(View(), nRndPos1, nRndPos2)
      modifies this`mapInfo, this`vRandom
      ensures View() == SwapRandom(old(View()), nRndPos1, nRndPos2)
    {
      if nRndPos1 == nRndPos2 {
        return;
      }
      var nId1, nId2 := vRandom[nRndPos1], vRandom[nRndPos2];
      mapInfo := mapInfo[nId1 := mapInfo[nId1].(randomPos := nRndPos2)];
      mapInfo := mapInfo[nId2 := mapInfo[nId2].(randomPos := nRndPos1)];
      vRandom := vRandom[nRndPos1 := nId2];
      vRandom := vRandom[nRndPos2 := nId1];
    }

    method DeleteEntry(nId: int)
      requires Deletable(View(), nId)
      modifies this`mapInfo, this`mapAddr, this`vRandom, this`nNew
      ensures View() == Delete(old(View()), nId)
    {
      assert nId in mapInfo && !mapInfo[nId].inTried && mapInfo[nId].refCount == 0;
      var ip := mapInfo[nId].addr.svc.ip;
      Swap(mapInfo[nId].randomPos, |vRandom| - 1);
      vRandom := vRandom[..|vRandom| - 1];
      mapAddr := mapAddr - {ip};
      mapInfo := mapInfo - {nId};
      nNew := nNew - 1;
    }

    method ClearSlot(nUBucket: int, nUBucketPos: int)
      requires Valid() && 0 <= nUBucket < NEW_BUCKET_COUNT && 0 <= nUBucketPos < BUCKET_SIZE
      requires Clearable(View(), Slot(nUBucket, nUBucketPos))
      modifies this`mapInfo, this`mapAddr, this`vRandom, this`nNew, vvNew
      ensures View() == ClearNew(old(View()), Slot(nUBucket, nUBucketPos))
    {
      if vvNew[nUBucket, nUBucketPos] != FREE {
        var nIdDelete := vvNew[nUBucket, nUBucketPos];
        assert Slot(nUBucket, nUBucketPos) in View().newTable;
        assert mapInfo[nIdDelete].refCount > 0;
        mapInfo := mapInfo[nIdDelete := mapInfo[nIdDelete].(refCount := mapInfo[nIdDelete].refCount - 1)];
        SetSlot(vvNew, nUBucket, nUBucketPos, FREE);
        assert View() == Unslot(old(View()), Slot(nUBucket, nUBucketPos));
        if mapInfo[nIdDelete].refCount == 0 {
          DeleteEntry(nIdDelete);
        }
      }
    }

    /** One round of the first loop of `MakeTried`: empty the slot that the id may have in a bucket. */
    method LeaveBucket(nId: int, bucket: int)
      requires Valid() && nId in mapInfo && 0 <= nId && 0 <= bucket < NEW_BUCKET_COUNT
      requires mapInfo[nId].refCount == |RefSlots(TableOf(vvNew), nId)|
      modifies this`mapInfo, vvNew
      ensures TableOf(vvNew) ==
        var sl, t := Slot(bucket, Position(h, old(mapInfo)[nId].addr.svc, true, bucket)), old(TableOf(vvNew));
        if sl in t && t[sl] == nId then t - {sl} else t
      ensures mapInfo == old(mapInfo)[nId := old(mapInfo)[nId].(refCount := |RefSlots(TableOf(vvNew), nId)|)]
    {
      hide RefSlots, Position, Represents;
      var pos := Position(h, mapInfo[nId].addr.svc, true, bucket);
      SlotOf(vvNew, bucket, pos);
      if vvNew[bucket, pos] == nId {
        RefSlotsAfterClear(TableOf(vvNew), Slot(bucket, pos), nId);
        SetSlot(vvNew, bucket, pos, FREE);
        mapInfo := mapInfo[nId := mapInfo[nId].(refCount := mapInfo[nId].refCount - 1)];
      }
    }

    /** The first loop of `MakeTried`: empty every slot of the new table that holds the id. */
    method LeaveAllNew(nId: int)
      requires Valid() && FreshOk(h, View()) && nId in mapInfo && 0 <= nId
      requires mapInfo[nId].refCount == |RefSlots(TableOf(vvNew), nId)|
      modifies this`mapInfo, this`nNew, vvNew
      ensures View() == LeaveNew(old(View()), nId)
    {
      hide FreshOk, WithoutBelow, RefSlots, Position, Represents, LeaveNew;
      ghost var before := View();
      WithoutNone(before.newTable, nId);
      for bucket := 0 to NEW_BUCKET_COUNT
        invariant mapInfo == before.info[nId := before.info[nId].(refCount := |RefSlots(TableOf(vvNew), nId)|)]
        invariant TableOf(vvNew) == WithoutBelow(before.newTable, nId, bucket)
        invariant nNew == before.nNew
      {
        WithoutOneMore(h, before, nId, bucket);
        ghost var info := mapInfo;
        LeaveBucket(nId, bucket);
        UpdateTwice(before.info, nId, info[nId], mapInfo[nId]);
      }
      assert mapInfo[nId].refCount == |RefSlots(TableOf(vvNew), nId)|;
      nNew := nNew - 1;
      WithoutAll(h, before, nId);
    }

    /** The middle part of `MakeTried`: make room in a slot of the tried table. */
    method EvictFrom(nKBucket: int, nKBucketPos: int)
      requires Valid() && 0 <= nKBucket < TRIED_BUCKET_COUNT && 0 <= nKBucketPos < BUCKET_SIZE
      requires Evictable(h, View(), Slot(nKBucket, nKBucketPos))
      modifies this, vvTried, vvNew
      ensures View() == Evict(h, old(View()), Slot(nKBucket, nKBucketPos))
      ensures vvTried[nKBucket, nKBucketPos] == FREE
    {
      hide TableOf, Represents, TriedSlot, NewSlot, ClearNew, Clearable, Position;
      ghost var before := View();
      ghost var sl := Slot(nKBucket, nKBucketPos);
      SlotOf(vvTried, nKBucket, nKBucketPos);
      if vvTried[nKBucket, nKBucketPos] != FREE {
        var nIdEvict := vvTried[nKBucket, nKBucketPos];
        assert nIdEvict in mapInfo;
        mapInfo := mapInfo[nIdEvict := mapInfo[nIdEvict].(inTried := false)];
        SetSlot(vvTried, nKBucket, nKBucketPos, FREE);
        nTried := nTried - 1;
        assert View() == LeaveTried(before, sl);

        var target := NewSlot(h, mapInfo[nIdEvict].addr.svc, mapInfo[nIdEvict].source);
        assert target == EvictionSlot(h, before, sl);
        ClearSlot(target.bucket, target.pos);

        mapInfo := mapInfo[nIdEvict := mapInfo[nIdEvict].(refCount := 1)];
        SetSlot(vvNew, target.bucket, target.pos, nIdEvict);
        nNew := nNew + 1;
      }
    }

    method MakeTried_(nId: int)
      requires Valid() && FreshOk(h, View()) && Promotable(h, View(), nId) && 0 <= nId
      requires mapInfo[nId].refCount == |RefSlots(TableOf(vvNew), nId)|
      modifies this, vvTried, vvNew
      ensures View() == MakeTried(h, old(View()), nId)
    {
      hide FreshOk, Position, TableOf, Represents, RefSlots, Evictable, Evict, LeaveNew, TriedSlot;
      LeaveNewKeepsAddr(View(), nId);
      LeaveAllNew(nId);
      var sl := TriedSlot(h, mapInfo[nId].addr.svc);
      EvictFrom(sl.bucket, sl.pos);
      assert vvTried[sl.bucket, sl.pos] == FREE;
      SetSlot(vvTried, sl.bucket, sl.pos, nId);
      nTried := nTried + 1;
      mapInfo := mapInfo[nId := mapInfo[nId].(inTried := true)];
    }

    /** The search loop of `Good_`: a bucket that holds the id, starting from a random one. */
    method FindBucket(nId: int, nRnd: nat) returns (nUBucket: int)
      requires Valid() && FreshOk(h, View()) && nId in mapInfo && 0 <= nId
      ensures nUBucket == -1 <==> RefSlots(TableOf(vvNew), nId) == {}
    {
      nUBucket := -1;
      var n := 0;
      while n < NEW_BUCKET_COUNT
        invariant 0 <= n <= NEW_BUCKET_COUNT && nUBucket == -1
        invariant forall sl <- TableOf(vvNew) | TableOf(vvNew)[sl] == nId :: n <= (sl.bucket - nRnd) % NEW_BUCKET_COUNT
      {
        hide FreshOk, Position, Represents;
        var nB := (n + nRnd) % NEW_BUCKET_COUNT;
        var nBpos := Position(h, mapInfo[nId].addr.svc, true, nB);
        SlotOf(vvNew, nB, nBpos);
        if vvNew[nB, nBpos] == nId {
          nUBucket := nB;
          assert Slot(nB, nBpos) in RefSlots(TableOf(vvNew), nId);
          return;
        }
        forall sl | sl in TableOf(vvNew) && TableOf(vvNew)[sl] == nId
          ensures (sl.bucket - nRnd) % NEW_BUCKET_COUNT != n
        {
          OnlySlotInBucket(h, View(), sl, nId);
          Rotation(sl.bucket, nRnd, n);
        }
        n := n + 1;
      }
      assert forall sl <- TableOf(vvNew) :: TableOf(vvNew)[sl] != nId;
      assert RefSlots(TableOf(vvNew), nId) == {};
    }

    /** The end of `Good_`, for a known entry that is not in the tried table. That no bucket is found
        cannot happen: the bail-out of the original is unreachable. */
    method PromoteKnown(nId: int, nRnd: nat)
      requires Valid() && Inv(h, View(), {}, 0) && nId in mapInfo && !mapInfo[nId].inTried
      modifies this, vvTried, vvNew
      ensures Promotable(h, old(View()), nId) && View() == MakeTried(h, old(View()), nId)
    {
      hide Inv, FreshOk, Represents, Promotable, MakeTried, RefSlots;
      MakeTriedKeepsInv(h, View(), nId);
      RefCountsSlots(h, View(), nId);
      UntriedRefs(h, View(), nId);
      var nUBucket := FindBucket(nId, nRnd);
      if nUBucket == -1 {
        assert false;
      }
      MakeTried_(nId);
    }

    /** Mark an address good. */
    method Good_(svc: Service, nTime: int, nRnd: nat)
      requires Valid() && Inv(h, View(), {}, 0)
      modifies this, vvTried, vvNew
      ensures GoodDefined(h, old(View()), svc, nTime) && View() == Good(h, old(View()), svc, nTime)
    {
      hide Inv, FreshOk, Represents, Promotable, MakeTried;
      ghost var before := View();
      TargetIsKnown(h, before, svc);
      GoodKeepsInv(h, before, svc, nTime);
      var nId := FindId(svc.ip);
      if nId == -1 || mapInfo[nId].addr.svc != svc {
        return;
      }
      mapInfo := mapInfo[nId := mapInfo[nId].(lastSuccess := nTime, lastTry := nTime, attempts := 0)];
      assert View() == MarkGood(before, nId, nTime);
      if mapInfo[nId].inTried {
        return;
      }
      StatsKeepInv(h, before, nId, mapInfo[nId]);
      PromoteKnown(nId, nRnd);
    }

    /** Mark an attempt to connect. */
    method Attempt_(svc: Service, nTime: int)
      requires -1 !in mapInfo
      modifies this`mapInfo
      ensures View() == Attempt(old(View()), svc, nTime)
    {
      var nId := FindId(svc.ip);
      if nId == -1 || mapInfo[nId].addr.svc != svc {
        return;
      }
      mapInfo := mapInfo[nId := mapInfo[nId].(lastTry := nTime, attempts := mapInfo[nId].attempts + 1)];
    }

    /** Mark an address as currently connected. */
    method Connected_(svc: Service, nTime: int)
      requires -1 !in mapInfo
      modifies this`mapInfo
      ensures View() == Connected(old(View()), svc, nTime)
    {
      var nId := FindId(svc.ip);
      if nId == -1 || mapInfo[nId].addr.svc != svc {
        return;
      }
      var nUpdateInterval := 20 * 60;
      if nTime - mapInfo[nId].addr.time > nUpdateInterval {
        mapInfo := mapInfo[nId := mapInfo[nId].(addr := mapInfo[nId].addr.(time := ToUint32(nTime)))];
      }
    }

    /** Announce an address; the result tells whether it was unknown before. */
    method Add_(addr: Address, routable: bool, source: NetAddr, nTimePenalty: int, now: int, draw: nat)
        returns (fNew: bool)
      requires Valid() && Inv(h, View(), {}, 0)
      modifies this, vvNew
      ensures Addable(h, old(View()), addr, source, nTimePenalty, now, draw)
      ensures View() == Add(h, old(View()), addr, routable, source, nTimePenalty, now, draw)
      ensures fNew <==> routable && addr.svc.ip !in Known(old(View()))
    {
      hide Inv, Represents, Place, Placeable, Proceeds, RefreshEntry, NewSlot, CreateNew, Add, Addable, Known, Find;
      ghost var before := View();
      AddKeepsInv(h, before, addr, routable, source, nTimePenalty, now, draw);
      AddCases(h, before, addr, routable, source, nTimePenalty, now, draw);
      FindsKnown(h, before, addr.svc.ip);
      fNew := false;
      if !routable {
        return;
      }
      var nId := FindId(addr.svc.ip);
      if nId != -1 {
        var stop := RefreshFields(nId, addr, nTimePenalty, now, draw);
        if stop {
          return;
        }
      } else {
        nId := AddEntry(addr, source, nTimePenalty);
        fNew := true;
      }
      PlaceEntry(nId, source, now);
    }

    /** The part of `Add_` for an unknown address. */
    method AddEntry(addr: Address, source: NetAddr, nTimePenalty: int) returns (nId: int)
      modifies this
      ensures nId == old(nIdCount) && View() == CreateNew(old(View()), addr, source, nTimePenalty)
    {
      nId := CreateEntry(addr, source);
      mapInfo := mapInfo[nId := mapInfo[nId].(addr := mapInfo[nId].addr.(time := ToUint32(Max0(mapInfo[nId].addr.time
        - nTimePenalty))))];
      nNew := nNew + 1;
    }

    /** The part of `Add_` for a known address; `stop` tells that `Add_` returns there. */
    method RefreshFields(nId: int, a: Address, nTimePenalty: int, now: int, draw: nat) returns (stop: bool)
      requires nId in mapInfo && mapInfo[nId].refCount >= 0
      modifies this`mapInfo
      ensures View() == RefreshEntry(old(View()), nId, a, nTimePenalty, now)
      ensures stop <==> !Proceeds(mapInfo[nId], a, draw)
    {
      hide TableOf, Represents, ToUint32, Max0;
      ghost var e := mapInfo[nId];
      var fCurrentlyOnline := now - a.time < 24 * 60 * 60;
      var nUpdateInterval := if fCurrentlyOnline then 60 * 60 else 24 * 60 * 60;
      var time := mapInfo[nId].addr.time;
      if a.time != 0 && (time == 0 || time < a.time - nUpdateInterval - nTimePenalty) {
        mapInfo := mapInfo[nId := mapInfo[nId].(addr := mapInfo[nId].addr.(time := ToUint32(Max0(a.time
          - nTimePenalty))))];
      }
      mapInfo := mapInfo[nId := mapInfo[nId].(addr := mapInfo[nId].addr.(services := mapInfo[nId].addr.services
        + a.services))];
      assert mapInfo[nId] == Refresh(e, a, nTimePenalty, now);
      assert mapInfo == old(mapInfo)[nId := mapInfo[nId]];

      if a.time == 0 || (mapInfo[nId].addr.time != 0 && a.time <= mapInfo[nId].addr.time) {
        return true;
      }
      if mapInfo[nId].inTried {
        return true;
      }
      if mapInfo[nId].refCount == NEW_BUCKETS_PER_ADDRESS {
        return true;
      }
      var nFactor := Factor(mapInfo[nId].refCount);
      return nFactor > 1 && draw % nFactor != 0;
    }

    /** The loop of `Add_` that makes each further slot twice as hard to get. */
    static method Factor(nRefCount: nat) returns (nFactor: nat)
      ensures nFactor == Pow2(nRefCount)
    {
      nFactor := 1;
      for n := 0 to nRefCount
        invariant nFactor == Pow2(n)
      {
        nFactor := nFactor * 2;
      }
    }

    /** The part of `Add_` that takes a slot for the entry, or drops it when it is left with none. */
    method PlaceEntry(nId: int, source: NetAddr, now: int)
      requires Valid() && nId in mapInfo && nId != FREE
      requires Placeable(View(), NewSlot(h, mapInfo[nId].addr.svc, source), nId, now)
      modifies this, vvNew
      ensures View() == Place(old(View()), NewSlot(h, old(mapInfo)[nId].addr.svc, source), nId, now)
    {
      ghost var before := View();
      hide TableOf, Represents, NewSlot, ClearNew, Clearable, Delete, Deletable;
      var sl := NewSlot(h, mapInfo[nId].addr.svc, source);
      SlotOf(vvNew, sl.bucket, sl.pos);
      if vvNew[sl.bucket, sl.pos] != nId {
        var fInsert := vvNew[sl.bucket, sl.pos] == FREE;
        if !fInsert {
          var nIdExisting := vvNew[sl.bucket, sl.pos];
          if nIdExisting in mapInfo &&
             (IsTerrible(mapInfo[nIdExisting], now)
               || (mapInfo[nIdExisting].refCount > 1 && mapInfo[nId].refCount == 0)) {
            fInsert := true;
          }
        }
        if fInsert {
          ClearSlot(sl.bucket, sl.pos);
          mapInfo := mapInfo[nId := mapInfo[nId].(refCount := mapInfo[nId].refCount + 1)];
          SetSlot(vvNew, sl.bucket, sl.pos, nId);
        } else if mapInfo[nId].refCount == 0 {
          DeleteEntry(nId);
        }
      }
    }

    /** Report a random selection of addresses. */
    method GetAddr_(draws: nat -> nat, now: int) returns (vAddr: seq<Address>)
      requires RandomOk(View())
      modifies this`mapInfo, this`vRandom
      ensures (View(), vAddr) == GetAddr(old(View()), draws, now)
    {
      hide Represents, IsTerrible, Pick, RandomOk, SwapRandom, GetAddrFrom;
      var nNodes := GETADDR_MAX_PCT * |vRandom| / 100;
      if nNodes > GETADDR_MAX {
        nNodes := GETADDR_MAX;
      }
      vAddr := [];
      var n := 0;
      while n < |vRandom| && |vAddr| < nNodes
        invariant 0 <= n <= |vRandom| == old(|vRandom|) && RandomOk(View())
        invariant GetAddrFrom(View(), n, vAddr, nNodes, draws, now)
          == GetAddrFrom(old(View()), 0, [], nNodes, draws, now)
        decreases |vRandom| - n
      {
        GetAddrStep(View(), n, vAddr, nNodes, draws, now);
        var nRndPos := Pick(draws, n, |vRandom|);
        Swap(n, nRndPos);
        assert vRandom[n] in mapInfo;
        var ai := mapInfo[vRandom[n]];
        if !IsTerrible(ai, now) {
          vAddr := vAddr + [ai.addr];
        }
        n := n + 1;
      }
      GetAddrStops(View(), n, vAddr, nNodes, draws, now);
    }
  }

  // ---------------------------------------------------------------- the scan over all buckets

  /** What is left of a table when an id has been taken out of the first buckets. */
  ghost function WithoutBelow(t: Table, id: int, bucket: int): Table {
    t - (set sl | sl in t && t[sl] == id && 0 <= sl.bucket < bucket)
  }

  lemma LeaveNewKeepsAddr(s: State, id: int)
    requires id in s.info
    ensures id in LeaveNew(s, id).info && LeaveNew(s, id).info[id].addr == s.info[id].addr
  {
  }

  lemma WithoutNone(t: Table, id: int)
    ensures WithoutBelow(t, id, 0) == t
  {
  }

  lemma WithoutOneMore(h: Hashes, s: State, id: int, bucket: int)
    requires FreshOk(h, s) && id in s.info && 0 <= bucket < NEW_BUCKET_COUNT
    ensures var sl, t := Slot(bucket, Position(h, s.info[id].addr.svc, true, bucket)),
      WithoutBelow(s.newTable, id, bucket);
      WithoutBelow(s.newTable, id, bucket + 1) == if sl in t && t[sl] == id then t - {sl} else t
  {
    var sl, t := Slot(bucket, Position(h, s.info[id].addr.svc, true, bucket)), WithoutBelow(s.newTable, id, bucket);
    var u := WithoutBelow(s.newTable, id, bucket + 1);
    forall x
      ensures x in u <==> x in (if sl in t && t[sl] == id then t - {sl} else t)
      ensures x in u ==> u[x] == t[x]
    {
      if x in s.newTable && s.newTable[x] == id && x.bucket == bucket {
        assert x == sl;
      }
    }
  }

  lemma SlotOf(a: array2<int>, b: int, p: int)
    requires 0 <= b < a.Length0 && 0 <= p < a.Length1
    ensures Slot(b, p) in TableOf(a) <==> a[b, p] != FREE
    ensures Slot(b, p) in TableOf(a) ==> TableOf(a)[Slot(b, p)] == a[b, p]
  {
  }

  lemma RefCountsSlots(h: Hashes, s: State, id: int)
    requires Inv(h, s, {}, 0) && id in s.info
    ensures FreshOk(h, s) && s.info[id].refCount == |RefSlots(s.newTable, id)|
    ensures 0 <= id
  {
    assert EntryOk(h, s, id, id in {});
  }

  lemma WithoutAll(h: Hashes, s: State, id: int)
    requires FreshOk(h, s) && id in s.info
    ensures var t := WithoutBelow(s.newTable, id, NEW_BUCKET_COUNT);
      |RefSlots(t, id)| == 0 &&
      LeaveNew(s, id) == s.(info := s.info[id := s.info[id].(refCount := 0)], newTable := t, nNew := s.nNew - 1)
  {
    assert RefSlots(WithoutBelow(s.newTable, id, NEW_BUCKET_COUNT), id) == {};
  }

  lemma UpdateTwice<K, V>(m: map<K, V>, k: K, x: V, y: V)
    ensures m[k := x][k := y] == m[k := y]
  {
  }

  lemma Rotation(b: int, r: int, n: int)
    requires 0 <= b < NEW_BUCKET_COUNT && 0 <= n < NEW_BUCKET_COUNT
    ensures (b - r) % NEW_BUCKET_COUNT == n <==> b == (n + r) % NEW_BUCKET_COUNT
  {
  }

  lemma OnlySlotInBucket(h: Hashes, s: State, sl: Slot, id: int)
    requires FreshOk(h, s) && sl in s.newTable && s.newTable[sl] == id
    ensures id in s.info && sl == Slot(sl.bucket, Position(h, s.info[id].addr.svc, true, sl.bucket))
    ensures 0 <= sl.bucket < NEW_BUCKET_COUNT
  {
  }

  lemma FindsKnown(h: Hashes, s: State, ip: NetAddr)
    requires Inv(h, s, {}, 0)
    ensures ip in Known(s) <==> Find(s, ip) in s.info
    ensures Find(s, ip) in s.info || Find(s, ip) == -1
    ensures Find(s, ip) in s.info ==> s.info[Find(s, ip)].refCount >= 0
    ensures s.idCount >= 0 && -1 !in s.info
  {
    TargetIsKnown(h, s, Service(ip, 0));
    if Find(s, ip) in s.info {
      assert EntryOk(h, s, Find(s, ip), Find(s, ip) in {});
    }
  }

  /** The three ways through Add_. */
  lemma AddCases(h: Hashes, s: State, a: Address, routable: bool, source: NetAddr, penalty: int, now: int, draw: nat)
    requires Addable(h, s, a, source, penalty, now, draw)
    ensures !routable ==> Add(h, s, a, routable, source, penalty, now, draw) == s
    ensures routable && Find(s, a.svc.ip) in s.info && Find(s, a.svc.ip) != -1 ==>
      var id := Find(s, a.svc.ip);
      var t := RefreshEntry(s, id, a, penalty, now);
      && id in t.info
      && if Proceeds(t.info[id], a, draw) then
           var sl := NewSlot(h, t.info[id].addr.svc, source);
           Placeable(t, sl, id, now) && Add(h, s, a, routable, source, penalty, now, draw) == Place(t, sl, id, now)
         else Add(h, s, a, routable, source, penalty, now, draw) == t
    ensures routable && Find(s, a.svc.ip) !in s.info && s.idCount >= 0 ==>
      var t := CreateNew(s, a, source, penalty);
      && s.idCount in t.info
      && var sl := NewSlot(h, t.info[s.idCount].addr.svc, source);
         Placeable(t, sl, s.idCount, now)
           && Add(h, s, a, routable, source, penalty, now, draw) == Place(t, sl, s.idCount, now)
  {
    hide Place, Placeable, NewSlot, Proceeds;
  }

  lemma GetAddrStep(s: State, n: nat, out: seq<Address>, limit: nat, draws: nat -> nat, now: int)
    requires RandomOk(s) && n < |s.random| && |out| < limit
    ensures var j := Pick(draws, n, |s.random|); Swappable(s, n, j) && var t := SwapRandom(s, n, j);
      && RandomOk(t) && |t.random| == |s.random| && t.random[n] in t.info
      && var e := t.info[t.random[n]];
         GetAddrFrom(s, n, out, limit, draws, now) ==
         GetAddrFrom(t, n + 1, if IsTerrible(e, now) then out else out + [e.addr], limit, draws, now)
  {
    hide IsTerrible;
    SwapKeepsRandom(s, n, Pick(draws, n, |s.random|));
  }

  lemma GetAddrStops(s: State, n: nat, out: seq<Address>, limit: nat, draws: nat -> nat, now: int)
    requires RandomOk(s) && n <= |s.random| && (n == |s.random| || |out| >= limit)
    ensures GetAddrFrom(s, n, out, limit, draws, now) == (s, out)
  {
  }
}
