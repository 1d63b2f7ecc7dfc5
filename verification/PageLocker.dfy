/** The lock count per memory page of pagelocker.h. */
module PageLocker {
  import opened Primes

  /** A range of addresses, empty when its size is 0. */
  datatype Range = Range(base: nat, size: nat)

  /** The first address of the page of an address, which masking computes. */
  function PageOf(addr: nat, pageSize: nat): (p: nat)
    requires pageSize > 0
    ensures p <= addr < p + pageSize && IsPage(p, pageSize)
  {
    PageFacts(addr, pageSize);
    addr - addr % pageSize
  }

  predicate IsPage(p: nat, pageSize: nat)
    requires pageSize > 0
  {
    p % pageSize == 0
  }

  lemma PageFacts(addr: nat, pageSize: nat)
    requires pageSize > 0
    ensures addr % pageSize <= addr && IsPage(addr - addr % pageSize, pageSize)
  {
    var q := addr / pageSize;
    assert addr == q * pageSize + addr % pageSize;
    MultiplePage(q, pageSize);
  }

  lemma {:induction false} MultiplePage(q: nat, pageSize: nat)
    requires pageSize > 0
    ensures IsPage(q * pageSize, pageSize)
  {
    if q == 0 {
    } else {
      MultiplePage(q - 1, pageSize);
      NextPage((q - 1) * pageSize, pageSize);
      assert (q - 1) * pageSize + pageSize == q * pageSize;
    }
  }

  lemma NextPage(p: nat, pageSize: nat)
    requires pageSize > 0
    ensures IsPage(p + pageSize, pageSize) <==> IsPage(p, pageSize)
  {
    var q, r := p / pageSize, p % pageSize;
    assert p + pageSize == (q + 1) * pageSize + r;
    ModUnique(p + pageSize, pageSize, q + 1, r);
  }

  /** Pages lie a whole page size apart. */
  lemma PagesApart(p: nat, q: nat, pageSize: nat)
    requires pageSize > 0 && IsPage(p, pageSize) && IsPage(q, pageSize) && p < q
    ensures p + pageSize <= q
  {
    var d := q - p;
    if d < pageSize {
      var k := p / pageSize;
      assert q == k * pageSize + d;
      ModUnique(q, pageSize, k, d);
    }
  }

  /** A range touches a page when one of its addresses lies in it. */
  predicate Touches(r: Range, page: nat, pageSize: nat)
    requires pageSize > 0
  {
    r.size > 0 && IsPage(page, pageSize) && r.base < page + pageSize && page < r.base + r.size
  }

  /** The pages from that of the first address to that of the last are the ones touched. */
  lemma TouchedPages(r: Range, page: nat, pageSize: nat)
    requires pageSize > 0 && r.size > 0 && IsPage(page, pageSize)
    ensures Touches(r, page, pageSize) <==>
      PageOf(r.base, pageSize) <= page <= PageOf(r.base + r.size - 1, pageSize)
  {
    var first, last := PageOf(r.base, pageSize), PageOf(r.base + r.size - 1, pageSize);
    if page < first { PagesApart(page, first, pageSize); }
    if last < page { PagesApart(last, page, pageSize); }
  }

  /** How many of the ranges touch a page. */
  function Touching(ranges: seq<Range>, page: nat, pageSize: nat): nat
    requires pageSize > 0
  {
    if ranges == [] then 0
    else (if Touches(ranges[0], page, pageSize) then 1 else 0) + Touching(ranges[1..], page, pageSize)
  }

  lemma {:induction false} TouchingRemove(ranges: seq<Range>, i: nat, page: nat, pageSize: nat)
    requires pageSize > 0 && i < |ranges|
    ensures Touching(ranges, page, pageSize)
         == Touching(ranges[..i] + ranges[i + 1..], page, pageSize)
            + if Touches(ranges[i], page, pageSize) then 1 else 0
  {
    var rest := ranges[..i] + ranges[i + 1..];
    if i == 0 {
      assert rest == ranges[1..];
    } else {
      TouchingRemove(ranges[1..], i - 1, page, pageSize);
      assert rest[1..] == ranges[1..][..i - 1] + ranges[1..][i..];
      assert rest[0] == ranges[0];
    }
  }

  /** One occurrence of a range is taken out. */
  ghost predicate OneFewer(before: seq<Range>, r: Range, after: seq<Range>) {
    exists i | 0 <= i < |before| :: before[i] == r && after == before[..i] + before[i + 1..]
  }

  lemma OneFewerAt(before: seq<Range>, i: nat)
    requires i < |before|
    ensures OneFewer(before, before[i], before[..i] + before[i + 1..])
  {
  }

  /** The addresses of the range exist, and those of the page after it. */
  predicate InReach(r: Range, pageSize: nat) {
    r.size > 0 ==> r.base + r.size + pageSize <= 0x1_0000_0000_0000_0000
  }

  class LockedPageManager {
    const pageSize: nat
    var histogram: map<nat, nat>
    /** The pages that the calls to Locker.Lock and Locker.Unlock have left locked. */
    var locked: set<nat>
    /** The ranges locked and not yet unlocked. */
    ghost var outstanding: seq<Range>

    /** 1 for the pages that a loop from `start` has visited. */
    function Visited(start: nat, q: nat, page: nat): nat
      requires pageSize > 0
    {
      if start <= q < page && IsPage(q, pageSize) then 1 else 0
    }

    /** What one range contributes to the count of a page. */
    function One(r: Range, q: nat): nat
      requires pageSize > 0
    {
      if Touches(r, q, pageSize) then 1 else 0
    }

    function Count(page: nat): nat
      reads this
    {
      if page in histogram then histogram[page] else 0
    }

    /** Every count is the number of outstanding ranges on its page, and exactly the pages with a positive
        count are keys and are locked. */
    ghost predicate Valid()
      reads this
    {
      && pageSize > 0
      && (forall page: nat :: Count(page) == Touching(outstanding, page, pageSize))
      && (forall page <- histogram :: histogram[page] > 0)
      && locked == histogram.Keys
    }

    constructor (pageSize: nat)
      requires pageSize > 0
      ensures Valid() && outstanding == [] && this.pageSize == pageSize
    {
      this.pageSize := pageSize;
      histogram := map[];
      locked := {};
      outstanding := [];
    }

    /** `LockRange`. An empty range is not recorded. */
    method LockRange(r: Range)
      requires Valid() && InReach(r, pageSize)
      modifies this
      ensures Valid() && outstanding == if r.size == 0 then old(outstanding) else [r] + old(outstanding)
    {
      hide Touches, Touching, IsPage, PageOf;
      if r.size == 0 {
        return;
      }
      ghost var before := outstanding;
      Joined(r, before);
      outstanding := [r] + outstanding;
      var startPage := PageOf(r.base, pageSize);
      var endPage := PageOf(r.base + r.size - 1, pageSize);
      var page := startPage;
      while page <= endPage
        invariant startPage <= page && IsPage(page, pageSize) && page <= endPage + pageSize
        invariant outstanding == [r] + before && locked == histogram.Keys
        invariant forall q <- histogram :: histogram[q] > 0
        invariant forall q: nat :: Count(q) == Touching(before, q, pageSize) + Visited(startPage, q, page)
        decreases endPage + pageSize - page
      {
        assert Count(page) == Touching(before, page, pageSize);
        ghost var counts := histogram;
        if page !in histogram {
          assert page !in locked;
          locked := locked + {page};
          histogram := histogram[page := 1];
        } else {
          histogram := histogram[page := histogram[page] + 1];
        }
        StepPage(page);
        page := page + pageSize;
      }
      Covered(r, page);
    }

    /** `UnlockRange` for an empty range, or one that is locked. The assertion that its pages are known is
        proved. */
    method UnlockRange(r: Range)
      requires Valid() && InReach(r, pageSize) && (r.size > 0 ==> r in outstanding)
      modifies this
      ensures Valid()
      ensures if r.size == 0 then outstanding == old(outstanding) else OneFewer(old(outstanding), r, outstanding)
    {
      hide Touches, Touching, IsPage, PageOf, OneFewer;
      if r.size == 0 {
        return;
      }
      ghost var before := outstanding;
      ghost var i :| 0 <= i < |before| && before[i] == r;
      Removed(before, i);
      outstanding := before[..i] + before[i + 1..];
      ghost var after := outstanding;
      OneFewerAt(before, i);
      var startPage := PageOf(r.base, pageSize);
      var endPage := PageOf(r.base + r.size - 1, pageSize);
      var page := startPage;
      while page <= endPage
        invariant startPage <= page && IsPage(page, pageSize) && page <= endPage + pageSize
        invariant outstanding == after && locked == histogram.Keys
        invariant forall q <- histogram :: histogram[q] > 0
        invariant forall q: nat :: Count(q) == Touching(before, q, pageSize) - Visited(startPage, q, page)
        decreases endPage + pageSize - page
      {
        Within(r, page);
        assert Count(page) == Touching(before, page, pageSize) >= 1;
        assert page in histogram;
        histogram := histogram[page := histogram[page] - 1];
        if histogram[page] == 0 {
          assert page in locked;
          locked := locked - {page};
          histogram := histogram - {page};
        }
        StepPage(page);
        page := page + pageSize;
      }
      Covered(r, page);
    }

    // -------------------------------------------------------------- about the pages of a range

    lemma Joined(r: Range, ranges: seq<Range>)
      requires pageSize > 0
      ensures forall q: nat :: Touching([r] + ranges, q, pageSize) == Touching(ranges, q, pageSize) + One(r, q)
    {
      assert ([r] + ranges)[1..] == ranges;
    }

    lemma Removed(ranges: seq<Range>, i: nat)
      requires pageSize > 0 && i < |ranges|
      ensures forall q: nat ::
        Touching(ranges, q, pageSize) == Touching(ranges[..i] + ranges[i + 1..], q, pageSize) + One(ranges[i], q)
    {
      forall q: nat
        ensures Touching(ranges, q, pageSize)
          == Touching(ranges[..i] + ranges[i + 1..], q, pageSize) + One(ranges[i], q)
      {
        TouchingRemove(ranges, i, q, pageSize);
      }
    }

    lemma StepPage(page: nat)
      requires pageSize > 0 && IsPage(page, pageSize)
      ensures IsPage(page + pageSize, pageSize)
      ensures forall q: nat :: IsPage(q, pageSize) && page <= q < page + pageSize ==> q == page
    {
      NextPage(page, pageSize);
      forall q: nat | IsPage(q, pageSize) && page < q
        ensures page + pageSize <= q
      {
        PagesApart(page, q, pageSize);
      }
    }

    lemma Within(r: Range, page: nat)
      requires pageSize > 0 && r.size > 0 && IsPage(page, pageSize)
      requires PageOf(r.base, pageSize) <= page <= PageOf(r.base + r.size - 1, pageSize)
      ensures Touches(r, page, pageSize)
    {
      TouchedPages(r, page, pageSize);
    }

    /** The pages visited are the pages touched. */
    lemma Covered(r: Range, end: nat)
      requires pageSize > 0 && r.size > 0 && IsPage(end, pageSize)
      requires PageOf(r.base + r.size - 1, pageSize) < end <= PageOf(r.base + r.size - 1, pageSize) + pageSize
      ensures forall q: nat :: Touches(r, q, pageSize) <==> PageOf(r.base, pageSize) <= q < end && IsPage(q, pageSize)
    {
      forall q: nat
        ensures Touches(r, q, pageSize) <==> PageOf(r.base, pageSize) <= q < end && IsPage(q, pageSize)
      {
        var last := PageOf(r.base + r.size - 1, pageSize);
        PagesApart(last, end, pageSize);
        if IsPage(q, pageSize) {
          TouchedPages(r, q, pageSize);
          if last < q { PagesApart(last, q, pageSize); }
        }
      }
    }

    /** `GetLockedPageCount`. */
    method GetLockedPageCount() returns (n: nat)
      requires Valid()
      ensures n == |locked|
    {
      n := |histogram|;
      assert |histogram| == |histogram.Keys|;
    }
  }

  // ---------------------------------------------------------------- whole runs

  datatype Op = Lock(r: Range) | Unlock(r: Range)

  /** What a call does to the ranges outstanding. */
  ghost function After(counts: multiset<Range>, op: Op): multiset<Range> {
    if op.r.size == 0 then counts
    else if op.Lock? then counts + multiset{op.r}
    else counts - multiset{op.r}
  }

  /** Every range unlocked is empty or one of those locked and not yet unlocked. */
  ghost predicate Matched(counts: multiset<Range>, ops: seq<Op>, pageSize: nat)
    decreases |ops|
  {
    ops == [] ||
    (&& InReach(ops[0].r, pageSize) && (ops[0].Unlock? && ops[0].r.size > 0 ==> ops[0].r in counts)
     && Matched(After(counts, ops[0]), ops[1..], pageSize))
  }

  /** The ranges outstanding after a run. */
  ghost function Remaining(counts: multiset<Range>, ops: seq<Op>): multiset<Range>
    decreases |ops|
  {
    if ops == [] then counts else Remaining(After(counts, ops[0]), ops[1..])
  }

  lemma RemoveOne(before: seq<Range>, r: Range, after: seq<Range>)
    requires OneFewer(before, r, after)
    ensures multiset(after) == multiset(before) - multiset{r}
  {
    var i :| 0 <= i < |before| && before[i] == r && after == before[..i] + before[i + 1..];
    assert before == before[..i] + [before[i]] + before[i + 1..];
  }

  method Apply(m: LockedPageManager, op: Op)
    requires m.Valid() && InReach(op.r, m.pageSize) && (op.Unlock? && op.r.size > 0 ==> op.r in m.outstanding)
    modifies m
    ensures m.Valid() && multiset(m.outstanding) == After(old(multiset(m.outstanding)), op)
  {
    ghost var before := m.outstanding;
    hide LockedPageManager.Valid, InReach, OneFewer;
    match op
    case Lock(r) =>
      m.LockRange(r);
    case Unlock(r) =>
      m.UnlockRange(r);
      if r.size > 0 { RemoveOne(before, r, m.outstanding); }
  }

  /** Any matched run keeps the counts exact. */
  method RunAll(m: LockedPageManager, ops: seq<Op>)
    requires m.Valid() && Matched(multiset(m.outstanding), ops, m.pageSize)
    modifies m
    ensures m.Valid() && multiset(m.outstanding) == Remaining(old(multiset(m.outstanding)), ops)
    decreases |ops|
  {
    var i := 0;
    assert ops[0..] == ops;
    while i < |ops|
      invariant 0 <= i <= |ops| && m.Valid()
      invariant Matched(multiset(m.outstanding), ops[i..], m.pageSize)
      invariant Remaining(multiset(m.outstanding), ops[i..]) == Remaining(old(multiset(m.outstanding)), ops)
    {
      MatchedStep(multiset(m.outstanding), ops, i, m.pageSize);
      Apply(m, ops[i]);
      i := i + 1;
    }
    assert ops[i..] == [];
  }

  lemma MatchedStep(counts: multiset<Range>, ops: seq<Op>, i: nat, pageSize: nat)
    requires i < |ops| && Matched(counts, ops[i..], pageSize)
    ensures InReach(ops[i].r, pageSize) && (ops[i].Unlock? && ops[i].r.size > 0 ==> ops[i].r in counts)
    ensures Matched(After(counts, ops[i]), ops[i + 1..], pageSize)
    ensures Remaining(counts, ops[i..]) == Remaining(After(counts, ops[i]), ops[i + 1..])
  {
    assert ops[i..][1..] == ops[i + 1..];
  }

  // ---------------------------------------------------------------- a bounded address space

  /** The loop's step to the next page where addresses wrap around at `limit`. */
  function Step(page: nat, pageSize: nat, limit: nat): nat {
    if page + pageSize < limit then page + pageSize else page + pageSize - limit
  }

  function StepsFrom(page: nat, k: nat, pageSize: nat, limit: nat): nat
    decreases k
  {
    if k == 0 then page else StepsFrom(Step(page, pageSize, limit), k - 1, pageSize, limit)
  }

  lemma {:induction false} StaysAPage(page: nat, k: nat, pageSize: nat, limit: nat)
    requires pageSize > 0 && IsPage(limit, pageSize) && IsPage(page, pageSize) && page < limit
    ensures IsPage(StepsFrom(page, k, pageSize, limit), pageSize) && StepsFrom(page, k, pageSize, limit) < limit
    decreases k
  {
    hide IsPage;
    if k == 0 {
    } else {
      PagesApart(page, limit, pageSize);
      NextPage(page, pageSize);
      if page + pageSize == limit { MultiplePage(0, pageSize); }
      StaysAPage(Step(page, pageSize, limit), k - 1, pageSize, limit);
    }
  }

  lemma {:induction false} StepsPast(page: nat, end: nat, pageSize: nat, limit: nat) returns (k: nat)
    requires pageSize > 0 && IsPage(page, pageSize) && IsPage(end, pageSize) && page <= end && end + pageSize < limit
    ensures StepsFrom(page, k, pageSize, limit) == end + pageSize
    decreases end - page
  {
    hide IsPage;
    if page == end {
      k := 1;
      assert StepsFrom(page + pageSize, 0, pageSize, limit) == page + pageSize;
    } else {
      PagesApart(page, end, pageSize);
      NextPage(page, pageSize);
      var j := StepsPast(page + pageSize, end, pageSize, limit);
      k := j + 1;
    }
  }

  /** The loop over the pages of a range ends exactly when the page of its last address is not the top
      one of the address space: from there the step wraps around to 0, below every end page. */
  lemma LoopEnds(start: nat, end: nat, pageSize: nat, limit: nat)
    requires pageSize > 0 && IsPage(limit, pageSize) && IsPage(start, pageSize) && IsPage(end, pageSize)
    requires start <= end < limit
    ensures (exists k :: StepsFrom(start, k, pageSize, limit) > end) <==> end + pageSize < limit
  {
    hide IsPage;
    if end + pageSize < limit {
      var k := StepsPast(start, end, pageSize, limit);
    } else {
      forall k
        ensures StepsFrom(start, k, pageSize, limit) <= end
      {
        StaysAPage(start, k, pageSize, limit);
        PagesApart(StepsFrom(start, k, pageSize, limit), limit, pageSize);
      }
    }
  }
}
