/** The address book of the peer address manager as a value: the state of `CAddrMan`, what each of
    its operations does to that state, and the consistency invariant that the debug-only `Check_`
    looks for, strengthened until every operation keeps it.

    Bucket hashes, the clock and the random draws are parameters. */
module AddrBook {
  import opened Powers

  const NEW_BUCKET_COUNT := 1024
  const TRIED_BUCKET_COUNT := 256
  const BUCKET_SIZE := 64
  const NEW_BUCKETS_PER_ADDRESS := 8
  const HORIZON_DAYS := 30
  const RETRIES := 3
  const MAX_FAILURES := 10
  const MIN_FAIL_DAYS := 7
  const GETADDR_MAX_PCT := 23
  const GETADDR_MAX := 2500

  /** A network address without a port (the key of `mapAddr`), and with one. */
  type NetAddr = nat
  datatype Service = Service(ip: NetAddr, port: nat)

  /** An announced address: service flags as the set of set bits, and a time, an unsigned 32-bit field
      of the original. */
  datatype Address = Address(svc: Service, services: set<nat>, time: int)

  datatype AddrInfo = AddrInfo(
    addr: Address, source: NetAddr, lastTry: int, lastSuccess: int, attempts: int,
    refCount: int, inTried: bool, randomPos: int)

  /** The keyed hashes that place an entry; arbitrary functions. */
  datatype Hashes = Hashes(
    triedHash: Service -> nat,
    newHash: (Service, NetAddr) -> nat,
    positionHash: (Service, bool, int) -> nat)

  datatype Slot = Slot(bucket: int, pos: int)

  /** A table holds an id in each of its occupied slots. */
  type Table = map<Slot, int>

  datatype State = State(
    idCount: int, info: map<int, AddrInfo>, byAddr: map<NetAddr, int>, random: seq<int>,
    nTried: int, nNew: int, triedTable: Table, newTable: Table)

  const EMPTY := State(0, map[], map[], [], 0, 0, map[], map[])

  // ---------------------------------------------------------------- placement

  function Position(h: Hashes, svc: Service, isNew: bool, bucket: int): (p: int)
    ensures 0 <= p < BUCKET_SIZE
  {
    h.positionHash(svc, isNew, bucket) % BUCKET_SIZE
  }

  function TriedSlot(h: Hashes, svc: Service): (sl: Slot)
    ensures 0 <= sl.bucket < TRIED_BUCKET_COUNT && 0 <= sl.pos < BUCKET_SIZE
  {
    var b := h.triedHash(svc) % TRIED_BUCKET_COUNT;
    Slot(b, Position(h, svc, false, b))
  }

  function NewSlot(h: Hashes, svc: Service, source: NetAddr): (sl: Slot)
    ensures 0 <= sl.bucket < NEW_BUCKET_COUNT && 0 <= sl.pos < BUCKET_SIZE
  {
    var b := h.newHash(svc, source) % NEW_BUCKET_COUNT;
    Slot(b, Position(h, svc, true, b))
  }

  /** Whether an entry is bad enough to be overwritten or left out of a reply. */
  predicate IsTerrible(e: AddrInfo, now: int) {
    if e.lastTry != 0 && e.lastTry >= now - 60 then false
    else if e.addr.time > now + 10 * 60 then true
    else if e.addr.time == 0 || now - e.addr.time > HORIZON_DAYS * 24 * 60 * 60 then true
    else if e.lastSuccess == 0 && e.attempts >= RETRIES then true
    else now - e.lastSuccess > MIN_FAIL_DAYS * 24 * 60 * 60 && e.attempts >= MAX_FAILURES
  }

  // ---------------------------------------------------------------- the invariant

  ghost function RefSlots(t: Table, id: int): set<Slot> {
    set sl | sl in t && t[sl] == id
  }

  ghost function TriedIds(info: map<int, AddrInfo>): set<int> {
    set id | id in info && info[id].inTried
  }

  ghost function FreshIds(info: map<int, AddrInfo>): set<int> {
    set id | id in info && !info[id].inTried
  }

  ghost predicate RandomOk(s: State) {
    && |s.random| == |s.info|
    && (forall id <- s.info :: 0 <= s.info[id].randomPos < |s.random| && s.random[s.info[id].randomPos] == id)
    && (forall i | 0 <= i < |s.random| :: s.random[i] in s.info && s.info[s.random[i]].randomPos == i)
  }

  ghost predicate AddrOk(s: State) {
    && (forall id <- s.info :: s.info[id].addr.svc.ip in s.byAddr && s.byAddr[s.info[id].addr.svc.ip] == id)
    && (forall a <- s.byAddr :: s.byAddr[a] in s.info && s.info[s.byAddr[a]].addr.svc.ip == a)
  }

  ghost predicate EntryOk(h: Hashes, s: State, id: int, inLimbo: bool)
    requires id in s.info
  {
    var e := s.info[id];
    && 0 <= id < s.idCount
    && e.refCount == |RefSlots(s.newTable, id)|
    && if inLimbo then e.refCount == 0 && !e.inTried
       else if e.inTried then
         && e.refCount == 0
         && TriedSlot(h, e.addr.svc) in s.triedTable && s.triedTable[TriedSlot(h, e.addr.svc)] == id
       else 1 <= e.refCount <= NEW_BUCKETS_PER_ADDRESS
  }

  ghost predicate FreshOk(h: Hashes, s: State) {
    forall sl <- s.newTable ::
      && s.newTable[sl] in s.info
      && 0 <= sl.bucket < NEW_BUCKET_COUNT
      && sl.pos == Position(h, s.info[s.newTable[sl]].addr.svc, true, sl.bucket)
  }

  ghost predicate TriedOk(h: Hashes, s: State) {
    forall sl <- s.triedTable ::
      && s.triedTable[sl] in s.info && s.info[s.triedTable[sl]].inTried
      && sl == TriedSlot(h, s.info[s.triedTable[sl]].addr.svc)
  }

  /** Structural consistency up to the ids in `limbo`, which are known but in neither table, and up to `uncounted`
      of the untried ids, which `nNew` does not count. Both occur only while an operation runs. */
  ghost predicate Inv(h: Hashes, s: State, limbo: set<int>, uncounted: int) {
    && 0 <= s.idCount
    && RandomOk(s)
    && AddrOk(s)
    && FreshOk(h, s)
    && TriedOk(h, s)
    && limbo <= s.info.Keys
    && (forall id <- s.info :: EntryOk(h, s, id, id in limbo))
    && s.nTried == |TriedIds(s.info)|
    && s.nNew == |FreshIds(s.info)| - uncounted
  }

  /** What the times recorded for an entry satisfy. */
  ghost predicate StatsOk(e: AddrInfo) {
    0 <= e.lastTry && 0 <= e.lastSuccess && (e.inTried ==> e.lastSuccess != 0)
  }

  ghost predicate AllStatsOk(s: State) {
    forall id <- s.info :: StatsOk(s.info[id])
  }

  /** The invariant between operations: everything that `Check_` checks, and more. */
  ghost predicate Consistent(h: Hashes, s: State) {
    Inv(h, s, {}, 0) && AllStatsOk(s)
  }

  // ---------------------------------------------------------------- the steps

  predicate Swappable(s: State, i: int, j: int) {
    && 0 <= i < |s.random| && 0 <= j < |s.random|
    && s.random[i] in s.info && s.random[j] in s.info
  }

  function SwapRandom(s: State, i: int, j: int): State
    requires i != j ==> Swappable(s, i, j)
  {
    if i == j then s else
    var a, b := s.random[i], s.random[j];
    var info := s.info[a := s.info[a].(randomPos := j)];
    s.(info := info[b := info[b].(randomPos := i)], random := s.random[i := b][j := a])
  }

  /** What the assertions in `Delete` and in the swap it makes ask for. */
  predicate Deletable(s: State, id: int) {
    && id in s.info && !s.info[id].inTried && s.info[id].refCount == 0
    && Swappable(s, s.info[id].randomPos, |s.random| - 1)
  }

  function Delete(s: State, id: int): State
    requires Deletable(s, id)
  {
    var t := SwapRandom(s, s.info[id].randomPos, |s.random| - 1);
    t.(random := t.random[..|t.random| - 1],
       byAddr := t.byAddr - {s.info[id].addr.svc.ip},
       info := t.info - {id},
       nNew := t.nNew - 1)
  }

  /** Find's answer: the id under which an address is known. */
  function Find(s: State, ip: NetAddr): (r: int) {
    if ip in s.byAddr && s.byAddr[ip] in s.info then s.byAddr[ip] else -1
  }

  function FreshInfo(a: Address, source: NetAddr): AddrInfo {
    AddrInfo(a, source, 0, 0, 0, 0, false, -1)
  }

  function Create(s: State, a: Address, source: NetAddr): State {
    s.(idCount := s.idCount + 1,
       info := s.info[s.idCount := FreshInfo(a, source).(randomPos := |s.random|)],
       byAddr := s.byAddr[a.svc.ip := s.idCount],
       random := s.random + [s.idCount])
  }

  /** Take the entry in a new-table slot out of that slot. */
  function Unslot(s: State, sl: Slot): State
    requires sl in s.newTable && s.newTable[sl] in s.info
  {
    var id := s.newTable[sl];
    s.(info := s.info[id := s.info[id].(refCount := s.info[id].refCount - 1)], newTable := s.newTable - {sl})
  }

  predicate Clearable(s: State, sl: Slot) {
    sl in s.newTable ==>
      && s.newTable[sl] in s.info && s.info[s.newTable[sl]].refCount > 0
      && (s.info[s.newTable[sl]].refCount == 1 ==> Deletable(Unslot(s, sl), s.newTable[sl]))
  }

  function ClearNew(s: State, sl: Slot): State
    requires Clearable(s, sl)
  {
    if sl !in s.newTable then s else
    var id := s.newTable[sl];
    if s.info[id].refCount == 1 then Delete(Unslot(s, sl), id) else Unslot(s, sl)
  }

  /** The last two statements of Add_'s insertion and of an eviction: put an id into a free slot. */
  function Enter(s: State, sl: Slot, id: int, refCount: int): State
    requires id in s.info
  {
    s.(info := s.info[id := s.info[id].(refCount := refCount)], newTable := s.newTable[sl := id])
  }

  // ---------------------------------------------------------------- promotion to tried

  /** All new-table slots of an id are emptied. */
  function LeaveNew(s: State, id: int): State
    requires id in s.info
  {
    s.(info := s.info[id := s.info[id].(refCount := 0)],
       newTable := s.newTable - (set sl | sl in s.newTable && s.newTable[sl] == id),
       nNew := s.nNew - 1)
  }

  /** The id in a tried slot loses the slot. */
  function LeaveTried(s: State, sl: Slot): State
    requires sl in s.triedTable && s.triedTable[sl] in s.info
  {
    var id := s.triedTable[sl];
    s.(info := s.info[id := s.info[id].(inTried := false)], triedTable := s.triedTable - {sl}, nTried := s.nTried - 1)
  }

  function EvictionSlot(h: Hashes, s: State, sl: Slot): Slot
    requires sl in s.triedTable && s.triedTable[sl] in s.info
  {
    NewSlot(h, s.info[s.triedTable[sl]].addr.svc, s.info[s.triedTable[sl]].source)
  }

  predicate Evictable(h: Hashes, s: State, sl: Slot) {
    sl in s.triedTable ==>
      && s.triedTable[sl] in s.info
      && Clearable(LeaveTried(s, sl), EvictionSlot(h, s, sl))
      && s.triedTable[sl] in ClearNew(LeaveTried(s, sl), EvictionSlot(h, s, sl)).info
  }

  /** Make room in a tried slot: its occupant goes back to one slot of the new table. */
  function Evict(h: Hashes, s: State, sl: Slot): State
    requires Evictable(h, s, sl)
  {
    if sl !in s.triedTable then s else
    var target := EvictionSlot(h, s, sl);
    var t := Enter(ClearNew(LeaveTried(s, sl), target), target, s.triedTable[sl], 1);
    t.(nNew := t.nNew + 1)
  }

  function EnterTried(s: State, sl: Slot, id: int): State
    requires id in s.info
  {
    s.(info := s.info[id := s.info[id].(inTried := true)], triedTable := s.triedTable[sl := id], nTried := s.nTried + 1)
  }

  predicate Promotable(h: Hashes, s: State, id: int) {
    && id in s.info
    && var sl := TriedSlot(h, s.info[id].addr.svc);
       Evictable(h, LeaveNew(s, id), sl) && id in Evict(h, LeaveNew(s, id), sl).info
  }

  function MakeTried(h: Hashes, s: State, id: int): State
    requires Promotable(h, s, id)
  {
    var sl := TriedSlot(h, s.info[id].addr.svc);
    EnterTried(Evict(h, LeaveNew(s, id), sl), sl, id)
  }

  /** The entry an operation on a service applies to: known, and with the same port. */
  function Target(s: State, svc: Service): (r: int) {
    var id := Find(s, svc.ip);
    if id in s.info && s.info[id].addr.svc == svc then id else -1
  }

  function MarkGood(s: State, id: int, time: int): State
    requires id in s.info
  {
    s.(info := s.info[id := s.info[id].(lastSuccess := time, lastTry := time, attempts := 0)])
  }

  predicate GoodDefined(h: Hashes, s: State, svc: Service, time: int) {
    var id := Target(s, svc);
    id in s.info && !s.info[id].inTried ==> Promotable(h, MarkGood(s, id, time), id)
  }

  function Good(h: Hashes, s: State, svc: Service, time: int): State
    requires GoodDefined(h, s, svc, time)
  {
    var id := Target(s, svc);
    if id !in s.info then s
    else if s.info[id].inTried then MarkGood(s, id, time)
    else MakeTried(h, MarkGood(s, id, time), id)
  }

  // ---------------------------------------------------------------- adding

  function Max0(x: int): int { if x < 0 then 0 else x }

  function ToUint32(x: int): int { x % 0x1_0000_0000 }

  /** The fields of a known entry that an announcement refreshes, whether or not it goes on. */
  function Refresh(e: AddrInfo, a: Address, penalty: int, now: int): AddrInfo {
    var interval := if now - a.time < 24 * 60 * 60 then 60 * 60 else 24 * 60 * 60;
    var e1 := if a.time != 0 && (e.addr.time == 0 || e.addr.time < a.time - interval - penalty)
              then e.(addr := e.addr.(time := ToUint32(Max0(a.time - penalty)))) else e;
    e1.(addr := e1.addr.(services := e1.addr.services + a.services))
  }

  /** Whether a refreshed entry is considered for one more slot; `draw` is the random number. */
  predicate Proceeds(e: AddrInfo, a: Address, draw: nat) {
    && a.time != 0 && !(e.addr.time != 0 && a.time <= e.addr.time)
    && !e.inTried
    && e.refCount != NEW_BUCKETS_PER_ADDRESS
    && (e.refCount > 0 ==> draw % Pow2(e.refCount) == 0)
  }

  function CreateNew(s: State, a: Address, source: NetAddr, penalty: int): State {
    var t := Create(s, a, source);
    var e := t.info[s.idCount];
    t.(info := t.info[s.idCount := e.(addr := e.addr.(time := ToUint32(Max0(e.addr.time - penalty))))],
       nNew := t.nNew + 1)
  }

  predicate Overwrites(s: State, sl: Slot, id: int, now: int)
    requires id in s.info
  {
    sl !in s.newTable ||
    (s.newTable[sl] in s.info &&
     (IsTerrible(s.info[s.newTable[sl]], now) || (s.info[s.newTable[sl]].refCount > 1 && s.info[id].refCount == 0)))
  }

  predicate Placeable(s: State, sl: Slot, id: int, now: int) {
    && id in s.info
    && (!(sl in s.newTable && s.newTable[sl] == id) ==>
        if Overwrites(s, sl, id, now) then Clearable(s, sl) && id in ClearNew(s, sl).info
        else s.info[id].refCount == 0 ==> Deletable(s, id))
  }

  /** Try to give an entry the slot that the source of the announcement selects. */
  function Place(s: State, sl: Slot, id: int, now: int): State
    requires Placeable(s, sl, id, now)
  {
    if sl in s.newTable && s.newTable[sl] == id then s
    else if Overwrites(s, sl, id, now) then
      var t := ClearNew(s, sl);
      Enter(t, sl, id, t.info[id].refCount + 1)
    else if s.info[id].refCount == 0 then Delete(s, id)
    else s
  }

  function RefreshEntry(s: State, id: int, a: Address, penalty: int, now: int): State
    requires id in s.info
  {
    s.(info := s.info[id := Refresh(s.info[id], a, penalty, now)])
  }

  /** The state in which Add_ comes to place the entry, and the id of the entry; -1 when it stops before. */
  function AddPrepared(s: State, a: Address, source: NetAddr, penalty: int, now: int, draw: nat): (State, int) {
    var id := Find(s, a.svc.ip);
    if id in s.info then
      var t := RefreshEntry(s, id, a, penalty, now);
      (t, if Proceeds(t.info[id], a, draw) then id else -1)
    else (CreateNew(s, a, source, penalty), s.idCount)
  }

  predicate Addable(h: Hashes, s: State, a: Address, source: NetAddr, penalty: int, now: int, draw: nat) {
    var (t, id) := AddPrepared(s, a, source, penalty, now, draw);
    id != -1 ==> id in t.info && Placeable(t, NewSlot(h, t.info[id].addr.svc, source), id, now)
  }

  function Add(h: Hashes, s: State, a: Address, routable: bool, source: NetAddr, penalty: int, now: int,
      draw: nat): State
    requires routable ==> Addable(h, s, a, source, penalty, now, draw)
  {
    if !routable then s else
    var (t, id) := AddPrepared(s, a, source, penalty, now, draw);
    if id == -1 then t else Place(t, NewSlot(h, t.info[id].addr.svc, source), id, now)
  }

  // ---------------------------------------------------------------- the other operations

  function Attempt(s: State, svc: Service, time: int): State {
    var id := Target(s, svc);
    if id !in s.info then s
    else s.(info := s.info[id := s.info[id].(lastTry := time, attempts := s.info[id].attempts + 1)])
  }

  function Connected(s: State, svc: Service, time: int): State {
    var id := Target(s, svc);
    if id in s.info && time - s.info[id].addr.time > 20 * 60
    then s.(info := s.info[id := s.info[id].(addr := s.info[id].addr.(time := ToUint32(time)))])
    else s
  }

  function GetAddrLimit(s: State): (n: nat) {
    var n := GETADDR_MAX_PCT * |s.random| / 100;
    if n > GETADDR_MAX then GETADDR_MAX else n
  }

  /** The position that the shuffle swaps with position `n`. */
  function Pick(draws: nat -> nat, n: nat, size: nat): (j: nat)
    requires n < size
    ensures n <= j < size
  {
    n + draws(n) % (size - n)
  }

  /** The loop of GetAddr_ from position `n` on. */
  function GetAddrFrom(s: State, n: nat, out: seq<Address>, limit: nat, draws: nat -> nat,
      now: int): (r: (State, seq<Address>))
    requires RandomOk(s) && n <= |s.random|
    decreases |s.random| - n
  {
    if n == |s.random| || |out| >= limit then (s, out) else
    var t := SwapRandom(s, n, Pick(draws, n, |s.random|));
    SwapKeepsRandom(s, n, Pick(draws, n, |s.random|));
    var e := t.info[t.random[n]];
    GetAddrFrom(t, n + 1, if IsTerrible(e, now) then out else out + [e.addr], limit, draws, now)
  }

  lemma SwapKeepsRandom(s: State, i: int, j: int)
    requires RandomOk(s) && 0 <= i < |s.random| && 0 <= j < |s.random|
    ensures RandomOk(SwapRandom(s, i, j))
    ensures |SwapRandom(s, i, j).random| == |s.random|
  {
    SwapKeepsSizes(s, i, j);
    SwapKeepsPositions(s, i, j);
    SwapKeepsOrder(s, i, j);
  }

  lemma SwapKeepsSizes(s: State, i: int, j: int)
    requires i != j ==> Swappable(s, i, j)
    ensures var t := SwapRandom(s, i, j); |t.random| == |s.random| && |t.info| == |s.info|
  {
    var t := SwapRandom(s, i, j);
    assert t.info.Keys == s.info.Keys;
    assert |t.info.Keys| == |t.info| && |s.info.Keys| == |s.info|;
  }

  lemma SwapKeepsPositions(s: State, i: int, j: int)
    requires RandomOk(s) && Swappable(s, i, j)
    ensures var t := SwapRandom(s, i, j); forall id <- t.info ::
      0 <= t.info[id].randomPos < |t.random| && t.random[t.info[id].randomPos] == id
  {
  }

  lemma SwapKeepsOrder(s: State, i: int, j: int)
    requires RandomOk(s) && Swappable(s, i, j)
    ensures var t := SwapRandom(s, i, j); forall k | 0 <= k < |t.random| ::
      t.random[k] in t.info && t.info[t.random[k]].randomPos == k
  {
  }
}
