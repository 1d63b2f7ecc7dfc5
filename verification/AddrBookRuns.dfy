/** The remaining operations of the address book, and runs of operations. */
module AddrBookRuns {
  import opened AddrBook
  import opened AddrBookSteps
  import opened AddrBookOps
  import opened AddrBookTheorems

  // ---------------------------------------------------------------- Attempt and Connected

  lemma AttemptKeepsInv(h: Hashes, s: State, svc: Service, time: int)
    requires Inv(h, s, {}, 0)
    ensures Inv(h, Attempt(s, svc, time), {}, 0)
  {
    hide Inv, Target;
    var id := Target(s, svc);
    if id in s.info {
      StatsKeepInv(h, s, id, s.info[id].(lastTry := time, attempts := s.info[id].attempts + 1));
    }
  }

  /** Attempt_ leaves a consistent state exactly when its time is not negative, or when it finds no
      entry with that address and port. */
  lemma AttemptKeepsConsistency(h: Hashes, s: State, svc: Service, time: int)
    requires Consistent(h, s)
    ensures Consistent(h, Attempt(s, svc, time)) <==> (Target(s, svc) in s.info ==> 0 <= time)
  {
    AttemptKeepsInv(h, s, svc, time);
    hide Inv, Target;
    var id := Target(s, svc);
    if id in s.info {
      var t := Attempt(s, svc, time);
      assert StatsOk(s.info[id]);
      assert StatsOk(t.info[id]) <==> 0 <= time;
      assert forall k <- t.info | k != id :: k in s.info && t.info[k] == s.info[k];
      assert id in t.info;
    }
  }

  /** Connected_ keeps consistency whatever time it is given. */
  lemma ConnectedKeepsConsistency(h: Hashes, s: State, svc: Service, time: int)
    requires Consistent(h, s)
    ensures Consistent(h, Connected(s, svc, time))
  {
    hide Inv, Target;
    var id := Target(s, svc);
    if id in s.info && time - s.info[id].addr.time > 20 * 60 {
      var t := Connected(s, svc, time);
      StatsKeepInv(h, s, id, t.info[id]);
      assert StatsOk(s.info[id]);
      assert forall k <- t.info | k != id :: k in s.info && t.info[k] == s.info[k];
    }
  }

  // ---------------------------------------------------------------- GetAddr

  /** The addresses of the listed ids that are not terrible, in order. */
  ghost function Presentable(info: map<int, AddrInfo>, ids: seq<int>, now: int): seq<Address> {
    if ids == [] then []
    else
      (if ids[0] in info && !IsTerrible(info[ids[0]], now) then [info[ids[0]].addr] else [])
      + Presentable(info, ids[1..], now)
  }

  lemma {:induction false} PresentableSplit(info: map<int, AddrInfo>, a: seq<int>, b: seq<int>, now: int)
    ensures Presentable(info, a + b, now) == Presentable(info, a, now) + Presentable(info, b, now)
  {
    if a == [] {
      assert a + b == b;
    } else {
      assert (a + b)[1..] == a[1..] + b;
      PresentableSplit(info, a[1..], b, now);
    }
  }

  lemma {:induction false} PresentableByOrder(info: map<int, AddrInfo>, info': map<int, AddrInfo>, ids: seq<int>,
      now: int)
    requires SameButOrder(info, info')
    ensures Presentable(info', ids, now) == Presentable(info, ids, now)
  {
    if ids == [] {
    } else {
      PresentableByOrder(info, info', ids[1..], now);
      var k := ids[0];
      assert k in info.Keys <==> k in info'.Keys;
      if k in info {
        assert info'[k].(randomPos := 0) == info[k].(randomPos := 0);
      }
    }
  }

  lemma SameOrderTransitive(a: map<int, AddrInfo>, b: map<int, AddrInfo>, c: map<int, AddrInfo>)
    requires SameButOrder(a, b) && SameButOrder(b, c)
    ensures SameButOrder(a, c)
  {
    forall k | k in a ensures c[k].(randomPos := 0) == a[k].(randomPos := 0) {
      assert k in b.Keys;
      assert b[k].(randomPos := 0) == a[k].(randomPos := 0);
    }
  }

  lemma ReportStep(info: map<int, AddrInfo>, info1: map<int, AddrInfo>, ids: seq<int>, n: nat, m: nat,
                   out: seq<Address>, out': seq<Address>, now: int)
    requires SameButOrder(info, info1) && n < m <= |ids| && ids[n] in info1
    requires var e := info1[ids[n]];
      out' == (if IsTerrible(e, now) then out else out + [e.addr]) + Presentable(info1, ids[n + 1..m], now)
    ensures out' == out + Presentable(info, ids[n..m], now)
  {
    PresentableByOrder(info, info1, ids[n..m], now);
    assert ids[n..m] == [ids[n]] + ids[n + 1..m];
    assert [ids[n]][1..] == [];
    hide IsTerrible;
    PresentableSplit(info1, [ids[n]], ids[n + 1..m], now);
  }

  /** What is left of a state by a shuffle that has fixed the first `n` places. */
  ghost predicate Shuffled(h: Hashes, s: State, t: State, n: nat) {
    && Inv(h, t, {}, 0) && SameButOrder(s.info, t.info) && t == s.(info := t.info, random := t.random)
    && n <= |t.random| == |s.random| && t.random[..n] == s.random[..n]
  }

  lemma ShuffledTransitive(h: Hashes, s: State, t: State, u: State, n: nat)
    requires Shuffled(h, s, t, n) && Shuffled(h, t, u, n + 1)
    ensures Shuffled(h, s, u, n) && u.random[n] == t.random[n]
  {
    hide Inv;
    SameOrderTransitive(s.info, t.info, u.info);
    assert u.random[..n + 1][..n] == u.random[..n] && t.random[..n + 1][..n] == t.random[..n];
    assert u.random[n] == u.random[..n + 1][n] && t.random[n] == t.random[..n + 1][n];
  }

  lemma SwapIsShuffle(h: Hashes, s: State, n: nat, j: nat)
    requires Inv(h, s, {}, 0) && n <= j < |s.random|
    ensures RandomOk(s) && Swappable(s, n, j)
    ensures Shuffled(h, s, SwapRandom(s, n, j), n)
    ensures SwapRandom(s, n, j).random[n] in SwapRandom(s, n, j).info
  {
    SwapKeepsInv(h, s, n, j, {}, 0);
    SwapIsOrder(s, n, j);
    SwapKeepsRandom(s, n, j);
    assert SwapRandom(s, n, j).random[..n] == s.random[..n];
  }

  /** The shuffle fixes a prefix of the random order and reports what is presentable in the part that
      it has fixed; it stops only at the limit or when everything has been looked at. */
  lemma {:induction false} GetAddrFromReports(h: Hashes, s: State, n: nat, out: seq<Address>, limit: nat,
      draws: nat -> nat, now: int)
      returns (m: nat)
    requires Inv(h, s, {}, 0) && n <= |s.random|
    ensures RandomOk(s)
    ensures var (t, out') := GetAddrFrom(s, n, out, limit, draws, now);
      && Shuffled(h, s, t, n)
      && n <= m <= |t.random|
      && out' == out + Presentable(s.info, t.random[n..m], now)
      && (m == |t.random| || |out'| >= limit)
      && |out'| <= (if |out| < limit then limit else |out|)
    decreases |s.random| - n
  {
    hide Inv, IsTerrible, Shuffled, RandomOk, SwapRandom, Pick, Presentable, SameButOrder;
    InvHasRandom(h, s);
    if n == |s.random| || |out| >= limit {
      m := n;
      ShuffledSelf(h, s, n, now);
    } else {
      var j := Pick(draws, n, |s.random|);
      SwapIsShuffle(h, s, n, j);
      var t1 := SwapRandom(s, n, j);
      ShuffledMeans(h, s, t1, n);
      var e := t1.info[t1.random[n]];
      var out1 := if IsTerrible(e, now) then out else out + [e.addr];
      m := GetAddrFromReports(h, t1, n + 1, out1, limit, draws, now);
      var (t, out') := GetAddrFrom(t1, n + 1, out1, limit, draws, now);
      ShuffledTransitive(h, s, t1, t, n);
      ShuffledMeans(h, s, t, n);
      ReportStep(s.info, t1.info, t.random, n, m, out, out', now);
    }
  }

  lemma ShuffledSelf(h: Hashes, s: State, n: nat, now: int)
    requires Inv(h, s, {}, 0) && n <= |s.random|
    ensures Shuffled(h, s, s, n)
    ensures Presentable(s.info, s.random[n..n], now) == []
  {
  }

  lemma ShuffledMeans(h: Hashes, s: State, t: State, n: nat)
    requires Shuffled(h, s, t, n)
    ensures Inv(h, t, {}, 0) && SameButOrder(s.info, t.info) && n <= |t.random| == |s.random|
  {
  }

  lemma InvHasRandom(h: Hashes, s: State)
    requires Inv(h, s, {}, 0)
    ensures RandomOk(s)
  {
  }

  /** GetAddr_ with an empty vector to fill. */
  function GetAddr(s: State, draws: nat -> nat, now: int): (r: (State, seq<Address>))
    requires RandomOk(s)
  {
    GetAddrFrom(s, 0, [], GetAddrLimit(s), draws, now)
  }

  /** The entry whose address is reported at a place in a reply. */
  lemma {:induction false} PresentableMember(s: State, ids: seq<int>, now: int, i: nat) returns (k: nat)
    requires i < |Presentable(s.info, ids, now)|
    ensures k < |ids| && ids[k] in s.info && !IsTerrible(s.info[ids[k]], now)
    ensures s.info[ids[k]].addr == Presentable(s.info, ids, now)[i]
    ensures |Presentable(s.info, ids[..k], now)| == i
  {
    hide IsTerrible;
    if ids[0] in s.info && !IsTerrible(s.info[ids[0]], now) && i == 0 {
      k := 0;
      assert ids[..0] == [];
    } else {
      var first := if ids[0] in s.info && !IsTerrible(s.info[ids[0]], now) then 1 else 0;
      var k' := PresentableMember(s, ids[1..], now, i - first);
      k := k' + 1;
      assert ids[..k] == [ids[0]] + ids[1..][..k'];
      assert ids[..k][1..] == ids[1..][..k'];
    }
  }

  /** The limit of a reply: 2500 addresses, and 23 percent of what is known, rounded down. */
  lemma LimitIs(s: State)
    ensures GetAddrLimit(s) <= 2500 && 100 * GetAddrLimit(s) <= 23 * |s.random|
    ensures GetAddrLimit(s) == 2500 || 100 * (GetAddrLimit(s) + 1) > 23 * |s.random|
  {
  }

  /** A reply holds at most 2500 addresses and 23 percent of the known ones; each is that of a known entry that is not
      terrible; no network address is reported twice; and below that limit every such entry is reported. */
  lemma GetAddrReports(h: Hashes, s: State, draws: nat -> nat, now: int)
    requires Consistent(h, s)
    ensures var (t, out) := GetAddr(s, draws, now);
      && Consistent(h, t) && SameButOrder(s.info, t.info) && t == s.(info := t.info, random := t.random)
      && |out| <= 2500 && 100 * |out| <= 23 * |s.info|
      && (forall a <- out :: exists id <- s.info :: s.info[id].addr == a && !IsTerrible(s.info[id], now))
      && (forall i, j | 0 <= i < j < |out| :: out[i].svc.ip != out[j].svc.ip)
      && (|out| < 2500 && 100 * (|out| + 1) <= 23 * |s.info| ==>
            forall id <- s.info | !IsTerrible(s.info[id], now) :: s.info[id].addr in out)
  {
    hide IsTerrible, SwapRandom, Pick, GetAddrLimit;
    LimitIs(s);
    InvHasRandom(h, s);
    KnownCount(s);
    var m := GetAddrFromReports(h, s, 0, [], GetAddrLimit(s), draws, now);
    var (t, out) := GetAddr(s, draws, now);
    hide Inv, GetAddrFrom;
    ShuffledMeans(h, s, t, 0);
    assert out == Presentable(s.info, t.random[0..m], now);
    OrderKeepsStats(s, t);
    InvHasRandom(h, t);
    InvHasAddr(h, s);
    ReplyDistinct(s, t, m, now);
    ReplyKnown(s, t.random[0..m], now);
    if |out| < GetAddrLimit(s) {
      assert m == |t.random|;
      ReplyComplete(s, t, now);
      assert t.random[0..m] == t.random;
    }
  }

  lemma KnownCount(s: State)
    requires RandomOk(s)
    ensures |s.random| == |s.info|
  {
  }

  lemma OrderKeepsStats(s: State, t: State)
    requires SameButOrder(s.info, t.info)
    ensures AllStatsOk(s) ==> AllStatsOk(t)
  {
    if AllStatsOk(s) {
      forall k | k in t.info ensures StatsOk(t.info[k]) {
        assert k in s.info.Keys && StatsOk(s.info[k]);
        assert t.info[k].(randomPos := 0) == s.info[k].(randomPos := 0);
      }
    }
  }

  lemma InvHasAddr(h: Hashes, s: State)
    requires Inv(h, s, {}, 0)
    ensures AddrOk(s)
  {
  }

  lemma ReplyKnown(s: State, ids: seq<int>, now: int)
    ensures forall a <- Presentable(s.info, ids, now) ::
      exists id <- s.info :: s.info[id].addr == a && !IsTerrible(s.info[id], now)
  {
    hide IsTerrible;
    forall a | a in Presentable(s.info, ids, now)
      ensures exists id <- s.info :: s.info[id].addr == a && !IsTerrible(s.info[id], now)
    {
      var i :| 0 <= i < |Presentable(s.info, ids, now)| && Presentable(s.info, ids, now)[i] == a;
      var k := PresentableMember(s, ids, now, i);
      var id := ids[k];
      assert id in s.info && s.info[id].addr == a && !IsTerrible(s.info[id], now);
    }
  }

  lemma AddrInverse(s: State, id: int)
    requires AddrOk(s) && id in s.info
    ensures s.info[id].addr.svc.ip in s.byAddr && s.byAddr[s.info[id].addr.svc.ip] == id
  {
  }

  lemma ReplyDistinct(s: State, t: State, m: nat, now: int)
    requires AddrOk(s) && RandomOk(t) && SameButOrder(s.info, t.info) && m <= |t.random|
    ensures var out := Presentable(s.info, t.random[0..m], now);
      forall i, j | 0 <= i < j < |out| :: out[i].svc.ip != out[j].svc.ip
  {
    hide IsTerrible;
    var ids := t.random[0..m];
    var out := Presentable(s.info, ids, now);
    forall i, j | 0 <= i < j < |out| ensures out[i].svc.ip != out[j].svc.ip {
      var k := PresentableMember(s, ids, now, i);
      var l := PresentableMember(s, ids, now, j);
      assert k != l;
      assert t.info[t.random[k]].randomPos == k && t.info[t.random[l]].randomPos == l;
      AddrInverse(s, ids[k]);
      AddrInverse(s, ids[l]);
    }
  }

  lemma {:induction false} PresentableHas(info: map<int, AddrInfo>, ids: seq<int>, now: int, k: nat)
    requires k < |ids| && ids[k] in info && !IsTerrible(info[ids[k]], now)
    ensures info[ids[k]].addr in Presentable(info, ids, now)
  {
    if k == 0 {
    } else {
      PresentableHas(info, ids[1..], now, k - 1);
    }
  }

  lemma ReplyComplete(s: State, t: State, now: int)
    requires RandomOk(t) && SameButOrder(s.info, t.info)
    ensures forall id <- s.info | !IsTerrible(s.info[id], now) :: s.info[id].addr in Presentable(s.info, t.random, now)
  {
    hide IsTerrible;
    forall id | id in s.info && !IsTerrible(s.info[id], now)
      ensures s.info[id].addr in Presentable(s.info, t.random, now)
    {
      assert id in t.info.Keys;
      PresentableHas(s.info, t.random, now, t.info[id].randomPos);
    }
  }

  // ---------------------------------------------------------------- every order is possible

  /** All known ids, each once. */
  ghost predicate Arrangement(s: State, ids: seq<int>) {
    && |ids| == |s.random|
    && (forall i | 0 <= i < |ids| :: ids[i] in s.info)
    && (forall i, j | 0 <= i < j < |ids| :: ids[i] != ids[j])
  }

  function Cut(addrs: seq<Address>, limit: nat): (r: seq<Address>)
    ensures |r| <= limit && r <= addrs && (|r| < limit ==> r == addrs)
  {
    if |addrs| <= limit then addrs else addrs[..limit]
  }

  /** Only the draws still to come matter. */
  lemma {:induction false} LaterDraws(s: State, n: nat, out: seq<Address>, limit: nat, draws: nat -> nat,
      draws': nat -> nat, now: int)
    requires RandomOk(s) && n <= |s.random| && forall i: nat | n <= i :: draws(i) == draws'(i)
    ensures GetAddrFrom(s, n, out, limit, draws, now) == GetAddrFrom(s, n, out, limit, draws', now)
    decreases |s.random| - n
  {
    hide RandomOk, SwapRandom, IsTerrible;
    if n == |s.random| || |out| >= limit {
    } else {
      var j := Pick(draws, n, |s.random|);
      SwappableAnywhere(s, n, j);
      SwapKeepsRandom(s, n, j);
      var t := SwapRandom(s, n, j);
      FixedKnown(t, n);
      var e := t.info[t.random[n]];
      LaterDraws(t, n + 1, if IsTerrible(e, now) then out else out + [e.addr], limit, draws, draws', now);
    }
  }

  lemma FixedKnown(s: State, n: nat)
    requires RandomOk(s) && n < |s.random|
    ensures s.random[n] in s.info
  {
  }

  lemma PrefixAt(a: seq<int>, b: seq<int>, n: nat)
    requires n <= |a| && n <= |b| && a[..n] == b[..n]
    ensures forall i | 0 <= i < n :: a[i] == b[i]
  {
    forall i | 0 <= i < n ensures a[i] == b[i] {
      assert a[..n][i] == a[i] && b[..n][i] == b[i];
    }
  }

  lemma PositionOf(s: State, id: int)
    requires RandomOk(s) && id in s.info
    ensures 0 <= s.info[id].randomPos < |s.random| && s.random[s.info[id].randomPos] == id
  {
  }

  /** The id that is wanted next is among those not fixed yet. */
  lemma NotFixed(s: State, ids: seq<int>, n: nat) returns (j: nat)
    requires RandomOk(s) && Arrangement(s, ids) && n < |s.random| && ids[..n] == s.random[..n]
    ensures n <= j < |s.random| && s.random[j] == ids[n]
  {
    assert ids[n] in s.info;
    PositionOf(s, ids[n]);
    j := s.info[ids[n]].randomPos;
    PrefixAt(ids, s.random, n);
  }

  lemma PickIs(draws: nat -> nat, n: nat, j: nat, size: nat)
    requires n <= j < size && draws(n) == j - n
    ensures Pick(draws, n, size) == j
  {
  }

  lemma FixedNext(s: State, ids: seq<int>, n: nat, j: nat)
    requires RandomOk(s) && Arrangement(s, ids) && n <= j < |s.random| && ids[..n] == s.random[..n]
    requires s.random[j] == ids[n]
    ensures Swappable(s, n, j)
    ensures var t := SwapRandom(s, n, j);
      && RandomOk(t) && |t.random| == |s.random| && SameButOrder(s.info, t.info)
      && Arrangement(t, ids) && t.random[n] == ids[n] && ids[n] in t.info && ids[..n + 1] == t.random[..n + 1]
  {
    SwapKeepsRandom(s, n, j);
    SwapIsOrder(s, n, j);
    var t := SwapRandom(s, n, j);
    forall i | 0 <= i < |ids| ensures ids[i] in t.info {
      assert ids[i] in s.info.Keys;
    }
    assert ids[..n + 1] == ids[..n] + [ids[n]];
    assert t.random[..n + 1] == s.random[..n] + [ids[n]];
  }

  lemma {:induction false} EveryOrderFrom(s: State, n: nat, out: seq<Address>, limit: nat, now: int, ids: seq<int>)
      returns (draws: nat -> nat)
    requires RandomOk(s) && Arrangement(s, ids) && n <= |s.random| && ids[..n] == s.random[..n] && |out| <= limit
    ensures GetAddrFrom(s, n, out, limit, draws, now).1 == Cut(out + Presentable(s.info, ids[n..], now), limit)
    decreases |s.random| - n
  {
    hide RandomOk, SwapRandom, IsTerrible, Arrangement, SameButOrder, Pick, Presentable;
    ArrangementSize(s, ids);
    if n == |s.random| || |out| == limit {
      draws := i => 0;
      NothingMore(s, n, ids, now);
    } else {
      var j := NotFixed(s, ids, n);
      FixedNext(s, ids, n, j);
      var t := SwapRandom(s, n, j);
      var e := t.info[ids[n]];
      var out' := if IsTerrible(e, now) then out else out + [e.addr];
      assert ids[n + 1..|ids|] == ids[n + 1..] && ids[n..|ids|] == ids[n..];
      var rest := EveryOrderFrom(t, n + 1, out', limit, now, ids);
      draws := i => if i == n then j - n else rest(i);
      PickIs(draws, n, j, |s.random|);
      LaterDraws(t, n + 1, out', limit, draws, rest, now);
      ReportStep(s.info, t.info, ids, n, |ids|, out, out' + Presentable(t.info, ids[n + 1..], now), now);
    }
  }

  lemma ArrangementSize(s: State, ids: seq<int>)
    requires Arrangement(s, ids)
    ensures |ids| == |s.random|
  {
  }

  lemma NothingMore(s: State, n: nat, ids: seq<int>, now: int)
    requires n <= |ids|
    ensures n == |ids| ==> Presentable(s.info, ids[n..], now) == []
  {
  }

  /** For every order of the known entries there are draws for which the reply lists the addresses of those that are not
      terrible in that order, up to the limit. */
  lemma EveryOrderReplied(h: Hashes, s: State, now: int, ids: seq<int>) returns (draws: nat -> nat)
    requires Consistent(h, s) && Arrangement(s, ids)
    ensures RandomOk(s) && GetAddr(s, draws, now).1 == Cut(Presentable(s.info, ids, now), GetAddrLimit(s))
  {
    hide Inv, RandomOk, AllStatsOk, Arrangement, GetAddrFrom, GetAddrLimit, Presentable;
    InvHasRandom(h, s);
    draws := EveryOrderFrom(s, 0, [], GetAddrLimit(s), now, ids);
  }

  // ---------------------------------------------------------------- runs

  /** The calls the address manager answers, with the clock and the random draws of each. */
  datatype Op =
    | AddOp(addr: Address, routable: bool, source: NetAddr, penalty: int, now: int, draw: nat)
    | GoodOp(svc: Service, time: int)
    | AttemptOp(svc: Service, time: int)
    | ConnectedOp(svc: Service, time: int)
    | GetAddrOp(draws: nat -> nat, now: int)

  /** Times are those of a clock. */
  predicate Timely(op: Op) {
    match op
    case GoodOp(_, time) => 0 < time
    case AttemptOp(_, time) => 0 <= time
    case _ => true
  }

  ghost function Step(h: Hashes, s: State, op: Op): (t: State)
    requires Consistent(h, s) && Timely(op)
    ensures Consistent(h, t)
  {
    match op
    case AddOp(a, routable, source, penalty, now, draw) =>
      AddKeepsConsistency(h, s, a, routable, source, penalty, now, draw);
      Add(h, s, a, routable, source, penalty, now, draw)
    case GoodOp(svc, time) =>
      GoodKeepsConsistency(h, s, svc, time);
      Good(h, s, svc, time)
    case AttemptOp(svc, time) =>
      AttemptKeepsConsistency(h, s, svc, time);
      Attempt(s, svc, time)
    case ConnectedOp(svc, time) =>
      ConnectedKeepsConsistency(h, s, svc, time);
      Connected(s, svc, time)
    case GetAddrOp(draws, now) =>
      GetAddrReports(h, s, draws, now);
      GetAddr(s, draws, now).0
  }

  lemma EmptyIsConsistent(h: Hashes)
    ensures Consistent(h, EMPTY)
  {
    assert TriedIds(EMPTY.info) == {} && FreshIds(EMPTY.info) == {};
  }

  /** The state after any run from the empty address book: it is always consistent, whatever the
      hashes, the clock and the draws are. */
  ghost function Run(h: Hashes, ops: seq<Op>): (s: State)
    requires forall op <- ops :: Timely(op)
    ensures Consistent(h, s)
  {
    if ops == [] then EmptyIsConsistent(h); EMPTY
    else Step(h, Run(h, ops[..|ops| - 1]), ops[|ops| - 1])
  }
}
