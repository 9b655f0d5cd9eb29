/** The page allocator seen as sets of page numbers: first-fit search for a run of free pages, and
    every history of allocations and releases (kernel/mm/pmm.c). */
module PageRuns {
  import opened Bits
  import opened Memory

  predicate InRun(p: int, s: nat, count: nat) {
    s <= p < s + count
  }

  /** Pages s .. s + count - 1. */
  function Run(s: nat, count: nat): (r: set<nat>)
    ensures forall p :: p in r <==> InRun(p, s, count)
  {
    set p: nat | s <= p < s + count && InRun(p, s, count)
  }

  lemma {:induction false} RunSize(s: nat, count: nat)
    ensures |Run(s, count)| == count
  {
    if count > 0 {
      RunSize(s, count - 1);
      assert Run(s, count) == Run(s, count - 1) + {s + count - 1};
    }
  }

  predicate AllFree(free: set<nat>, s: nat, count: nat) {
    forall p :: s <= p < s + count ==> p in free
  }

  /** First start at or after s of a free run of `count` pages below `total`; `total` if none. */
  function FirstRun(free: set<nat>, total: nat, count: nat, s: nat): (r: nat)
    decreases total - s
  {
    if s + count > total || s >= total then total
    else if AllFree(free, s, count) then s
    else FirstRun(free, total, count, s + 1)
  }

  /** The search finds the lowest run, and fails exactly when there is none. */
  lemma {:induction false} FirstRunIsLowest(free: set<nat>, total: nat, count: nat, s: nat)
    requires count > 0 && s <= total
    requires forall p :: p in free ==> p < total
    ensures var r := FirstRun(free, total, count, s);
            && s <= r <= total
            && (r < total ==> AllFree(free, r, count) && r + count <= total)
            && forall t :: s <= t < r ==> !AllFree(free, t, count)
    decreases total - s
  {
    if s < total && s + count <= total && !AllFree(free, s, count) {
      FirstRunIsLowest(free, total, count, s + 1);
    } else if s + count > total {
      forall t | s <= t < total ensures !AllFree(free, t, count) {
        assert t + count - 1 !in free;
      }
    }
  }

  /** The search in plain terms: every page of the run it finds is free, and a run that starts lower has
      a page that is not. */
  lemma FirstRunPages(free: set<nat>, total: nat, count: nat, t: nat)
    requires count > 0 && forall p :: p in free ==> p < total
    ensures var r := FirstRun(free, total, count, 0);
            && r <= total
            && (r < total ==> forall p :: r <= p < r + count ==> p in free)
            && (t < r ==> exists p :: t <= p < t + count && p !in free)
  {
    FirstRunIsLowest(free, total, count, 0);
    if t < FirstRun(free, total, count, 0) { assert !AllFree(free, t, count); }
  }

  // ----- histories

  /** Page numbers are taken modulo 2^52, as 64-bit addresses wrap. */
  const PAGE_NUMBERS: nat := 0x10_0000_0000_0000

  /** Free pages, and the pages that callers hold according to their receipts: each allocation adds
      the pages it returned, each release takes out the pages given back. A page handed out twice
      would count twice. */
  datatype Pages = Pages(free: set<nat>, held: multiset<nat>)

  /** pmm_alloc_page and pmm_alloc_pages, pmm_free_page, pmm_free_pages, with their arguments. */
  datatype Request = Take(count: U64) | Give(addr: U64) | GiveRun(start: U64, count: U64)

  /** Page i of a run that starts at page `first` has number p. */
  predicate Visits(first: nat, i: nat, p: nat) {
    (first + i) % PAGE_NUMBERS == p
  }

  predicate Swept(first: nat, count: nat, p: nat) {
    exists i: nat :: i < count && Visits(first, i, p)
  }

  lemma SweptNext(first: nat, i: nat, p: nat)
    ensures Swept(first, i + 1, p) <==> Swept(first, i, p) || p == (first + i) % PAGE_NUMBERS
    ensures !Swept(first, 0, p)
  {
    if Swept(first, i, p) {
      var j: nat :| j < i && Visits(first, j, p);
      assert j < i + 1 && Visits(first, j, p);
    }
    assert p == (first + i) % PAGE_NUMBERS ==> Visits(first, i, p);
  }

  lemma SweptRun(first: nat, count: nat, p: nat)
    requires first + count <= PAGE_NUMBERS
    ensures Swept(first, count, p) <==> InRun(p, first, count)
  {
    if InRun(p, first, count) { assert Visits(first, p - first, p); }
  }

  /** The pages a release can reach; page 0 and pages out of range are never freed. */
  function Released(q: Request, total: nat): set<nat> {
    match q
    case Take(_) => {}
    case Give(a) => set p: nat | 0 < p < total && a == p * PAGE
    case GiveRun(a, count) =>
      if a == 0 || a % PAGE != 0 then {} else set p: nat | 0 < p < total && Swept(a / PAGE, count, p)
  }

  /** What a request does, whoever makes it. */
  function Step(st: Pages, total: nat, q: Request): Pages {
    match q
    case Take(count) =>
      var s := FirstRun(st.free, total, count, 0);
      if count == 0 || s == total then st
      else Pages(st.free - Run(s, count), st.held + multiset(Run(s, count)))
    case _ =>
      Pages(st.free + Released(q, total), st.held - multiset(Released(q, total)))
  }

  function History(st: Pages, total: nat, qs: seq<Request>): Pages
    decreases |qs|
  {
    if qs == [] then st else History(Step(st, total, qs[0]), total, qs[1..])
  }

  /** The caller releases only pages that are held; a page that is free already may be named too. */
  ghost predicate Disciplined(st: Pages, total: nat, q: Request) {
    forall p :: p in Released(q, total) ==> p in st.held || p in st.free
  }

  ghost predicate DisciplinedRun(st: Pages, total: nat, qs: seq<Request>)
    decreases |qs|
  {
    qs == [] || (Disciplined(st, total, qs[0]) && DisciplinedRun(Step(st, total, qs[0]), total, qs[1..]))
  }

  /** A run is disciplined exactly when each of its requests is when its turn comes. */
  lemma {:induction false} DisciplinedEach(st: Pages, total: nat, qs: seq<Request>)
    ensures DisciplinedRun(st, total, qs) <==>
            forall i :: 0 <= i < |qs| ==> Disciplined(History(st, total, qs[..i]), total, qs[i])
    decreases |qs|
  {
    hide Disciplined, Step;
    if qs != [] {
      var st', rest := Step(st, total, qs[0]), qs[1..];
      DisciplinedEach(st', total, rest);
      assert History(st, total, qs[..0]) == st;
      forall i | 0 <= i < |rest| ensures History(st, total, qs[..i + 1]) == History(st', total, rest[..i]) && rest[i] == qs[i + 1] {
        assert qs[..i + 1][1..] == rest[..i];
      }
      if forall i :: 0 <= i < |qs| ==> Disciplined(History(st, total, qs[..i]), total, qs[i]) {
        forall i | 0 <= i < |rest| ensures Disciplined(History(st', total, rest[..i]), total, rest[i]) {
          assert Disciplined(History(st, total, qs[..i + 1]), total, qs[i + 1]);
        }
      }
      if DisciplinedRun(st, total, qs) {
        forall i | 0 <= i < |qs| ensures Disciplined(History(st, total, qs[..i]), total, qs[i]) {
          if i > 0 { assert Disciplined(History(st', total, rest[..i - 1]), total, rest[i - 1]); }
        }
      }
    }
  }

  /** The pages that are not free are held, once each. */
  ghost predicate Partition(st: Pages, pool: set<nat>) {
    st.free <= pool && st.held == multiset(pool - st.free)
  }

  /** Every page of the pool is free or held, never both, and no page is held twice. */
  lemma PartitionMeans(st: Pages, pool: set<nat>)
    ensures Partition(st, pool) <==>
            forall p :: (p in pool <==> p in st.free || p in st.held) && !(p in st.free && p in st.held) && st.held[p] <= 1
  {
    if forall p :: (p in pool <==> p in st.free || p in st.held) && !(p in st.free && p in st.held) && st.held[p] <= 1 {
      forall p ensures st.held[p] == multiset(pool - st.free)[p] {
        assert p in pool - st.free <==> p in st.held;
      }
      assert st.held == multiset(pool - st.free);
    }
    if Partition(st, pool) {
      forall p ensures (p in pool <==> p in st.free || p in st.held) && st.held[p] <= 1 {
        assert p in st.held <==> p in pool - st.free;
      }
    }
  }

  /** Taking a free run out, in both components. */
  lemma TakePages(pool: set<nat>, free: set<nat>, run: set<nat>)
    requires run <= free <= pool
    ensures multiset(pool - free) + multiset(run) == multiset(pool - (free - run))
  {
    var a, b := pool - free, pool - (free - run);
    forall p ensures (multiset(a) + multiset(run))[p] == multiset(b)[p] {
      assert p in b <==> p in a || p in run;
    }
  }

  lemma GivePages(pool: set<nat>, free: set<nat>, run: set<nat>)
    ensures multiset(pool - free) - multiset(run) == multiset(pool - (free + run))
  {
    var a, b := pool - free, pool - (free + run);
    forall p ensures (multiset(a) - multiset(run))[p] == multiset(b)[p] {
      assert p in b <==> p in a && p !in run;
    }
  }

  lemma TakenRun(free: set<nat>, total: nat, count: nat)
    requires count > 0 && FirstRun(free, total, count, 0) < total && forall p :: p in free ==> p < total
    ensures var s := FirstRun(free, total, count, 0);
            s + count <= total && AllFree(free, s, count) && Run(s, count) <= free && s in free
  {
    FirstRunIsLowest(free, total, count, 0);
    assert AllFree(free, FirstRun(free, total, count, 0), count);
  }

  /** A request keeps the partition exactly when it releases no page that is neither held nor free. */
  lemma StepKeepsPartition(st: Pages, total: nat, q: Request, pool: set<nat>)
    requires Partition(st, pool) && forall p :: p in pool ==> p < total
    ensures Partition(Step(st, total, q), pool) <==> Disciplined(st, total, q)
  {
    PartitionMeans(st, pool);
    if q.Take? {
      if q.count > 0 && FirstRun(st.free, total, q.count, 0) < total {
        TakenRun(st.free, total, q.count);
        TakePages(pool, st.free, Run(FirstRun(st.free, total, q.count, 0), q.count));
      } else if q.count > 0 {
        FirstRunIsLowest(st.free, total, q.count, 0);
      }
    } else {
      GivePages(pool, st.free, Released(q, total));
    }
  }

  /** Over every history in which callers free only what they hold, whole runs or parts of them:
      free and held pages partition the pool, no page is held twice, and once nothing is held the
      free set is the pool again. */
  lemma {:induction false} HistoryKeepsPartition(st: Pages, total: nat, qs: seq<Request>, pool: set<nat>)
    requires Partition(st, pool) && (forall p :: p in pool ==> p < total) && DisciplinedRun(st, total, qs)
    ensures var end := History(st, total, qs);
            && Partition(end, pool)
            && (forall p :: end.held[p] <= 1 && !(p in end.free && p in end.held))
            && (end.held == multiset{} ==> end.free == pool)
    decreases |qs|
  {
    PartitionMeans(st, pool);
    if qs != [] {
      StepKeepsPartition(st, total, qs[0], pool);
      HistoryKeepsPartition(Step(st, total, qs[0]), total, qs[1..], pool);
    }
  }

  /** After every such history, an allocation returns no page that is still held. */
  lemma NotHandedOutTwice(st: Pages, total: nat, qs: seq<Request>, pool: set<nat>, count: U64)
    requires Partition(st, pool) && (forall p :: p in pool ==> p < total) && DisciplinedRun(st, total, qs)
    requires count > 0
    ensures var end := History(st, total, qs);
            var s := FirstRun(end.free, total, count, 0);
            s < total ==> forall p :: s <= p < s + count ==> p in pool && p !in end.held
  {
    HistoryKeepsPartition(st, total, qs, pool);
    var end := History(st, total, qs);
    if FirstRun(end.free, total, count, 0) < total { TakenRun(end.free, total, count); }
  }

  /** Releasing the same pages again changes nothing. */
  lemma GiveTwice(st: Pages, total: nat, q: Request, pool: set<nat>)
    requires Partition(st, pool) && !q.Take?
    ensures Step(Step(st, total, q), total, q) == Step(st, total, q)
  {
    var r := Released(q, total);
    GivePages(pool, st.free, r);
    GivePages(pool, st.free + r, r);
    assert st.free + r + r == st.free + r;
  }

  /** Releases may come in any order. */
  lemma GivesCommute(st: Pages, total: nat, p: Request, q: Request)
    requires !p.Take? && !q.Take?
    ensures Step(Step(st, total, p), total, q) == Step(Step(st, total, q), total, p)
  {
    var a, b := Released(p, total), Released(q, total);
    assert st.free + a + b == st.free + b + a;
    assert st.held - multiset(a) - multiset(b) == st.held - multiset(b) - multiset(a);
  }

  /** Releasing an allocation at once restores the state. */
  lemma TakeThenGive(st: Pages, total: nat, count: U64, pool: set<nat>)
    requires Partition(st, pool) && 0 !in pool && (forall p :: p in pool ==> p < total) && total * PAGE <= WORD
    requires count > 0
    ensures var s := FirstRun(st.free, total, count, 0);
            s < total ==> s * PAGE < WORD && Step(Step(st, total, Take(count)), total, GiveRun(s * PAGE, count)) == st
  {
    var s := FirstRun(st.free, total, count, 0);
    if s < total {
      hide FirstRun, AllFree, Swept, Released;
      TakenRun(st.free, total, count);
      ReleasedRun(s, count, total);
      TakenAndGiven(st.free, st.held, Run(s, count));
    }
  }

  lemma TakenAndGiven(free: set<nat>, held: multiset<nat>, run: set<nat>)
    requires run <= free
    ensures (free - run) + run == free && (held + multiset(run)) - multiset(run) == held
  {
  }

  /** What the two releases reach, in plain terms, for ranges that do not wrap. */
  lemma ReleasedPages(a: U64, count: U64, total: nat, p: nat)
    requires a + count * 0x1000 <= WORD
    ensures p in Released(Give(a), total) <==> a == p * 0x1000 && 0 < p < total
    ensures p in Released(GiveRun(a, count), total) <==>
            a != 0 && a % 0x1000 == 0 && 0 < p < total && a / 0x1000 <= p < a / 0x1000 + count
  {
    hide Swept;
    if a % 0x1000 == 0 { SweptRun(a / 0x1000, count, p); }
  }

  /** Giving back a run in range releases exactly its pages. */
  lemma ReleasedRun(s: nat, count: U64, total: nat)
    requires 0 < s && 0 < count && s + count <= total && total * PAGE <= WORD
    ensures s * PAGE < WORD && Released(GiveRun(s * PAGE, count), total) == Run(s, count)
  {
    assert (s * PAGE) / PAGE == s && (s * PAGE) % PAGE == 0;
    forall p: nat ensures Swept(s, count, p) <==> InRun(p, s, count) {
      SweptRun(s, count, p);
    }
  }
}
