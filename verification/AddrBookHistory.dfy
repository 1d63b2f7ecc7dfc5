/** What an entry records about attempts to connect is the history of the calls since the entry was created, in every
    state that a run of operations reaches. */
module AddrBookHistory {
  import opened AddrBook
  import opened AddrBookSteps
  import opened AddrBookOps
  import opened AddrBookTheorems
  import opened AddrBookRuns
  import opened AddrBookOutcomes

  // ---------------------------------------------------------------- histories

  predicate IsAttempt(op: Op, svc: Service) {
    op.AttemptOp? && op.svc == svc
  }

  predicate IsGood(op: Op, svc: Service) {
    op.GoodOp? && op.svc == svc
  }

  /** How often a connection to the service was attempted. */
  ghost function Attempts(ops: seq<Op>, svc: Service): nat {
    if ops == [] then 0
    else Attempts(ops[..|ops| - 1], svc) + if IsAttempt(ops[|ops| - 1], svc) then 1 else 0
  }

  /** The calls after the last one that marked the service good. */
  ghost function SinceGood(ops: seq<Op>, svc: Service): seq<Op> {
    if ops == [] || IsGood(ops[|ops| - 1], svc) then []
    else SinceGood(ops[..|ops| - 1], svc) + [ops[|ops| - 1]]
  }

  /** The time of the last call that marked the service good, or 0. */
  ghost function LastGood(ops: seq<Op>, svc: Service): int {
    if ops == [] then 0
    else if IsGood(ops[|ops| - 1], svc) then ops[|ops| - 1].time
    else LastGood(ops[..|ops| - 1], svc)
  }

  /** The time of the last call that marked the service good or attempted, or 0. */
  ghost function LastTried(ops: seq<Op>, svc: Service): int {
    if ops == [] then 0
    else if IsGood(ops[|ops| - 1], svc) || IsAttempt(ops[|ops| - 1], svc) then ops[|ops| - 1].time
    else LastTried(ops[..|ops| - 1], svc)
  }

  // ---------------------------------------------------------------- one step

  /** The address with its port and the record of attempts stay. */
  ghost predicate SameHistory(e: AddrInfo, e': AddrInfo) {
    && e'.addr.svc == e.addr.svc && e'.attempts == e.attempts
    && e'.lastTry == e.lastTry && e'.lastSuccess == e.lastSuccess
  }

  ghost predicate NoHistory(e: AddrInfo) {
    e.attempts == e.lastTry == e.lastSuccess == 0
  }

  /** What one call does to an entry. */
  ghost predicate Follows(e: AddrInfo, e': AddrInfo, op: Op) {
    if IsAttempt(op, e.addr.svc) then
      SameHistory(e.(attempts := e.attempts + 1, lastTry := op.time), e')
    else if IsGood(op, e.addr.svc) then
      SameHistory(e.(attempts := 0, lastTry := op.time, lastSuccess := op.time), e')
    else SameHistory(e, e')
  }

  lemma FrameHistory(s: State, t: State, ids: set<int>, id: int)
    requires FrameExcept(s, t, ids) && id in t.info
    ensures id in s.info && SameHistory(s.info[id], t.info[id])
  {
    InFrame(s, t, ids, id);
  }

  lemma PlacedHistory(s: State, sl: Slot, k: int, now: int, t: State, id: int)
    requires k in s.info && Placed(s, sl, k, now, t) && id in t.info
    ensures id in s.info && SameHistory(s.info[id], t.info[id])
  {
    hide FrameExcept, IsTerrible;
    if sl in s.newTable && s.newTable[sl] == k {
    } else if Overwrites(s, sl, k, now) {
      FrameHistory(s, t, Occupants(s, sl) + {k}, id);
    } else if s.info[k].refCount == 0 {
      FrameHistory(s, t, {}, id);
    }
  }

  lemma PreparedHistory(h: Hashes, s: State, a: Address, source: NetAddr, penalty: int, now: int, draw: nat, id: int)
    requires Inv(h, s, {}, 0) && id in AddPrepared(s, a, source, penalty, now, draw).0.info
    ensures var (u, k) := AddPrepared(s, a, source, penalty, now, draw);
      && (k != -1 ==> k in u.info)
      && if id in s.info then SameHistory(s.info[id], u.info[id])
         else u.info[id].addr.svc == a.svc && NoHistory(u.info[id])
  {
    hide Inv, AddPrepared, Find;
    var (u, k) := AddPrepared(s, a, source, penalty, now, draw);
    if Find(s, a.svc.ip) in s.info {
      PreparedKnown(h, s, a, source, penalty, now, draw);
      assert k != -1 ==> k in u.info.Keys;
      assert id in s.info.Keys;
    } else {
      PreparedNew(h, s, a, source, penalty, now, draw);
    }
  }

  lemma AddHistory(h: Hashes, s: State, a: Address, routable: bool, source: NetAddr, penalty: int, now: int, draw: nat,
                   id: int)
    requires Inv(h, s, {}, 0) && Addable(h, s, a, source, penalty, now, draw)
    requires id in Add(h, s, a, routable, source, penalty, now, draw).info
    ensures var e := Add(h, s, a, routable, source, penalty, now, draw).info[id];
      if id in s.info then SameHistory(s.info[id], e) else routable && e.addr.svc == a.svc && NoHistory(e)
  {
    AddKeepsInv(h, s, a, routable, source, penalty, now, draw);
    hide Inv, AddPrepared, Place, Placeable, NewSlot, Placed, Addable;
    if routable {
      var (u, k) := AddPrepared(s, a, source, penalty, now, draw);
      var t := Add(h, s, a, routable, source, penalty, now, draw);
      if k != -1 {
        PlacedHistory(u, NewSlot(h, u.info[k].addr.svc, source), k, now, t, id);
      }
      PreparedHistory(h, s, a, source, penalty, now, draw, id);
    }
  }

  lemma TargetIsEntry(h: Hashes, s: State, svc: Service, id: int)
    requires Inv(h, s, {}, 0) && id in s.info
    ensures Target(s, svc) == id <==> s.info[id].addr.svc == svc
  {
    TargetIsKnown(h, s, svc);
    AddrInBook(h, s, id);
  }

  lemma GoodHistory(h: Hashes, s: State, svc: Service, time: int, id: int)
    requires Inv(h, s, {}, 0) && GoodDefined(h, s, svc, time) && id in Good(h, s, svc, time).info
    ensures id in s.info && Follows(s.info[id], Good(h, s, svc, time).info[id], GoodOp(svc, time))
  {
    hide Inv, Promotable, MakeTried, Target, FrameExcept;
    var k := Target(s, svc);
    if k in s.info {
      var u := MarkGood(s, k, time);
      if !s.info[k].inTried {
        StatsKeepInv(h, s, k, u.info[k]);
        MakeTriedKeepsInv(h, u, k);
        FrameHistory(u, MakeTried(h, u, k), Moved(h, u, k), id);
      }
      assert id in u.info.Keys;
    }
    TargetIsEntry(h, s, svc, id);
  }

  lemma GetAddrHistory(h: Hashes, s: State, draws: nat -> nat, now: int, id: int)
    requires Consistent(h, s) && RandomOk(s) && id in GetAddr(s, draws, now).0.info
    ensures id in s.info && SameHistory(s.info[id], GetAddr(s, draws, now).0.info[id])
  {
    GetAddrReports(h, s, draws, now);
    hide *;
    OrderHistory(s, GetAddr(s, draws, now).0, id);
  }

  lemma OrderHistory(s: State, t: State, id: int)
    requires SameButOrder(s.info, t.info) && id in t.info
    ensures id in s.info && SameHistory(s.info[id], t.info[id])
  {
    assert id in s.info.Keys;
    assert t.info[id].(randomPos := 0) == s.info[id].(randomPos := 0);
  }

  lemma StepHistory(h: Hashes, s: State, op: Op, id: int)
    requires Consistent(h, s) && Timely(op) && id in Step(h, s, op).info
    ensures var e := Step(h, s, op).info[id];
      if id in s.info then Follows(s.info[id], e, op)
      else op.AddOp? && op.routable && op.addr.svc == e.addr.svc && NoHistory(e)
  {
    hide Inv, Good, GoodDefined, Add, Addable, Target, GetAddr, AllStatsOk, RandomOk;
    match op
    case AddOp(a, routable, source, penalty, now, draw) =>
      AddKeepsConsistency(h, s, a, routable, source, penalty, now, draw);
      AddHistory(h, s, a, routable, source, penalty, now, draw, id);
    case GoodOp(svc, time) =>
      GoodKeepsConsistency(h, s, svc, time);
      GoodHistory(h, s, svc, time, id);
    case AttemptOp(svc, time) =>
      TargetIsEntry(h, s, svc, id);
    case ConnectedOp(svc, time) =>
    case GetAddrOp(draws, now) =>
      InvHasRandom(h, s);
      GetAddrHistory(h, s, draws, now, id);
  }

  // ---------------------------------------------------------------- runs

  ghost predicate KnownAfter(h: Hashes, ops: seq<Op>, j: nat, id: int)
    requires j <= |ops| && forall op <- ops :: Timely(op)
  {
    id in Run(h, ops[..j]).info
  }

  /** An entry records what calls did: the attempts since the service was last marked good, the time of that, and the
      time of the last call that did either. */
  ghost predicate Records(e: AddrInfo, calls: seq<Op>) {
    && e.attempts == Attempts(SinceGood(calls, e.addr.svc), e.addr.svc)
    && e.lastSuccess == LastGood(calls, e.addr.svc)
    && e.lastTry == LastTried(calls, e.addr.svc)
  }

  /** After any run, every entry was created by some call, the k-th, that announced its address; it has been known ever
      since, and it records the calls since then. */
  lemma {:induction false} History(h: Hashes, ops: seq<Op>, id: int) returns (k: nat)
    requires forall op <- ops :: Timely(op)
    requires id in Run(h, ops).info
    ensures 0 < k <= |ops| && !KnownAfter(h, ops, k - 1, id) && forall j | k <= j <= |ops| :: KnownAfter(h, ops, j, id)
    ensures ops[k - 1].AddOp? && ops[k - 1].routable && ops[k - 1].addr.svc == Run(h, ops).info[id].addr.svc
    ensures Records(Run(h, ops).info[id], ops[k..])
    decreases |ops|
  {
    hide Step, Consistent, Records, Follows, KnownAfter, NoHistory;
    if ops == [] {
    } else {
      var before, op := ops[..|ops| - 1], ops[|ops| - 1];
      var s, t := Run(h, before), Run(h, ops);
      StepHistory(h, s, op, id);
      if id in s.info {
        k := History(h, before, id);
        Prefixes(h, ops, k, id);
        assert ops[k..] == before[k..] + [op];
        RecordsNext(s.info[id], t.info[id], before[k..], op);
      } else {
        k := |ops|;
        CreatedLast(h, ops, id);
      }
    }
  }

  lemma CreatedLast(h: Hashes, ops: seq<Op>, id: int)
    requires ops != [] && forall op <- ops :: Timely(op)
    requires id in Run(h, ops).info && id !in Run(h, ops[..|ops| - 1]).info && NoHistory(Run(h, ops).info[id])
    ensures !KnownAfter(h, ops, |ops| - 1, id) && KnownAfter(h, ops, |ops|, id)
    ensures Records(Run(h, ops).info[id], ops[|ops|..])
  {
    hide Run, Timely, Records, NoHistory;
    WholeRun(h, ops, id);
    RecordsNothing(Run(h, ops).info[id]);
    assert ops[|ops|..] == [];
  }

  lemma RecordsNothing(e: AddrInfo)
    requires NoHistory(e)
    ensures Records(e, [])
  {
  }

  lemma RecordsNext(e: AddrInfo, e': AddrInfo, calls: seq<Op>, op: Op)
    requires Records(e, calls) && Follows(e, e', op)
    ensures Records(e', calls + [op]) && e'.addr.svc == e.addr.svc
  {
    hide Attempts, SinceGood, LastGood, LastTried;
    Extended(calls + [op], calls, op, e.addr.svc);
  }

  lemma SamePrefix(h: Hashes, ops: seq<Op>, j: nat, id: int)
    requires forall op <- ops :: Timely(op)
    requires j < |ops|
    ensures KnownAfter(h, ops[..|ops| - 1], j, id) <==> KnownAfter(h, ops, j, id)
  {
    hide Run, Timely;
    assert ops[..|ops| - 1][..j] == ops[..j];
  }

  lemma WholeRun(h: Hashes, ops: seq<Op>, id: int)
    requires forall op <- ops :: Timely(op)
    ensures KnownAfter(h, ops, |ops|, id) <==> id in Run(h, ops).info
  {
    hide Run, Timely;
    assert ops[..|ops|] == ops;
  }

  lemma Prefixes(h: Hashes, ops: seq<Op>, k: nat, id: int)
    requires forall op <- ops :: Timely(op)
    requires 0 < k <= |ops| - 1 && id in Run(h, ops).info
    requires var before := ops[..|ops| - 1];
      !KnownAfter(h, before, k - 1, id) && forall j | k <= j <= |before| :: KnownAfter(h, before, j, id)
    ensures !KnownAfter(h, ops, k - 1, id) && forall j | k <= j <= |ops| :: KnownAfter(h, ops, j, id)
  {
    hide Run, Timely, KnownAfter;
    SamePrefix(h, ops, k - 1, id);
    WholeRun(h, ops, id);
    forall j | k <= j <= |ops| ensures KnownAfter(h, ops, j, id) {
      if j < |ops| {
        SamePrefix(h, ops, j, id);
      }
    }
  }

  lemma Extended(calls: seq<Op>, before: seq<Op>, op: Op, svc: Service)
    requires calls == before + [op]
    ensures SinceGood(calls, svc) == if IsGood(op, svc) then [] else SinceGood(before, svc) + [op]
    ensures Attempts(SinceGood(calls, svc), svc)
      == if IsGood(op, svc) then 0 else Attempts(SinceGood(before, svc), svc) + if IsAttempt(op, svc) then 1 else 0
    ensures LastGood(calls, svc) == if IsGood(op, svc) then op.time else LastGood(before, svc)
    ensures LastTried(calls, svc)
      == if IsGood(op, svc) || IsAttempt(op, svc) then op.time else LastTried(before, svc)
  {
    assert calls[..|calls| - 1] == before;
    assert (SinceGood(before, svc) + [op])[..|SinceGood(before, svc)|] == SinceGood(before, svc);
  }

  /** Which entries are terrible after a run, by the calls since each was created: not one that was tried within the
      last minute; one whose time is bad; one never good after three attempts; and one that was last good more than a
      week ago and has failed ten attempts since. */
  lemma TerribleAfterRun(h: Hashes, ops: seq<Op>, id: int, now: int) returns (k: nat)
    requires forall op <- ops :: Timely(op)
    requires id in Run(h, ops).info
    ensures 0 < k <= |ops| && !KnownAfter(h, ops, k - 1, id) && forall j | k <= j <= |ops| :: KnownAfter(h, ops, j, id)
    ensures var e := Run(h, ops).info[id];
      var svc, calls := e.addr.svc, ops[k..];
      var failures := Attempts(SinceGood(calls, svc), svc);
      IsTerrible(e, now) <==>
        && (LastTried(calls, svc) == 0 || now - LastTried(calls, svc) > 60)
        && (|| e.addr.time == 0 || e.addr.time - now > 600 || now - e.addr.time > 2592000
            || (LastGood(calls, svc) == 0 && failures >= 3)
            || (now - LastGood(calls, svc) > 604800 && failures >= 10))
  {
    hide Run, IsTerrible, Attempts, SinceGood, LastGood, LastTried, KnownAfter;
    k := History(h, ops, id);
    TerribleWhen(Run(h, ops).info[id], now);
  }
}
