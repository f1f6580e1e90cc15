/**
 Admission control for a mapping request: how many frames it can still need, and
 why a pool that holds that many cannot run dry before the last page is mapped.
 */
module Admission {
  import opened FrameAllocator
  import opened PageTables
  import opened TableCleanup
  import opened MmapProofs

  /** How many of the lowest tables `i..end` do not exist yet. */
  function MissingP1(s: Space, i: nat, end: nat): nat
    decreases end + 1 - i
  {
    if i > end then 0 else (if P1(i) in s.tables then 0 else 1) + MissingP1(s, i + 1, end)
  }

  /** How many tables on the way to the request's pages do not exist yet. */
  function Missing(s: Space, first: nat, count: nat): nat
    requires count > 0
  {
    MissingP1(s, first / PAGES_PER_P1, (first + count - 1) / PAGES_PER_P1)
    + (if P2(first / PAGES_PER_P2) in s.tables then 0 else 1)
    + (if P3 in s.tables then 0 else 1)
  }

  /** The request stays below one table of the second level, in the process's slot. */
  predicate OneRegion(first: nat, count: nat) {
    count > 0 && first / PAGES_PER_P2 == (first + count - 1) / PAGES_PER_P2
    && InSlot(first) && InSlot(first + count - 1)
  }

  predicate Enough(p: Pool, s: Space, first: nat, count: nat, remaining: nat)
    requires count > 0
  {
    Available(p) >= remaining + Missing(s, first, count)
  }

  lemma {:induction false} MissingP1Bound(s: Space, i: nat, end: nat)
    requires i <= end + 1
    ensures MissingP1(s, i, end) <= end + 1 - i
    decreases end + 1 - i
  {
    if i <= end { MissingP1Bound(s, i + 1, end); }
  }

  lemma {:induction false} MissingP1Same(s: Space, t: Space, i: nat, end: nat)
    requires forall j :: i <= j <= end ==> (P1(j) in s.tables <==> P1(j) in t.tables)
    ensures MissingP1(t, i, end) == MissingP1(s, i, end)
    decreases end + 1 - i
  {
    if i <= end { MissingP1Same(s, t, i + 1, end); }
  }

  lemma {:induction false} MissingP1Add(s: Space, i: nat, end: nat, j: nat, f: nat)
    requires i <= j <= end && P1(j) !in s.tables
    ensures MissingP1(s, i, end) == MissingP1(AddTable(s, P1(j), f), i, end) + 1
    decreases end + 1 - i
  {
    var t := AddTable(s, P1(j), f);
    if i == j {
      MissingP1Same(s, t, i + 1, end);
    } else {
      MissingP1Add(s, i + 1, end, j, f);
    }
  }

  /** A new table on the way is one missing table fewer. */
  lemma MissingAdd(s: Space, n: Node, f: nat, first: nat, count: nat)
    requires OneRegion(first, count) && Touched(n, first, count) && n !in s.tables
    ensures Missing(s, first, count) == Missing(AddTable(s, n, f), first, count) + 1
  {
    var i, end := first / PAGES_PER_P1, (first + count - 1) / PAGES_PER_P1;
    if n.P1? {
      MissingP1Add(s, i, end, n.index, f);
    } else {
      MissingP1Same(s, AddTable(s, n, f), i, end);
    }
  }

  lemma AllocateAvailable(p: Pool)
    ensures Allocate(p).0.Some? <==> Available(p) > 0
    ensures Allocate(p).0.Some? ==> Available(Allocate(p).1) == Available(p) - 1
  {
  }

  lemma EnsureEnough(p: Pool, s: Space, n: Node, first: nat, count: nat, remaining: nat)
    requires OneRegion(first, count) && Touched(n, first, count) && Enough(p, s, first, count, remaining)
    ensures var r := EnsureTable(p, s, n); r.0 && Enough(r.1, r.2, first, count, remaining)
  {
    hide Missing, Available, Allocate, OneRegion, Touched;
    AllocateAvailable(p);
    if n !in s.tables {
      MissingAdd(s, n, 0, first, count);
      MissingAdd(s, n, Allocate(p).0.value, first, count);
    }
  }

  lemma MissingOwned(s: Space, owned: seq<nat>, pages: map<nat, Entry>, first: nat, count: nat)
    requires count > 0
    ensures Missing(s.(owned := owned, pages := pages), first, count) == Missing(s, first, count)
  {
    MissingP1Same(s, s.(owned := owned, pages := pages), first / PAGES_PER_P1, (first + count - 1) / PAGES_PER_P1);
  }

  lemma BuildEnough(p: Pool, s: Space, page: nat, first: nat, count: nat, remaining: nat)
    requires OneRegion(first, count) && first <= page < first + count && Enough(p, s, first, count, remaining)
    ensures var r := BuildPath(p, s, page, NO_FAULT); r.0 && Enough(r.1, r.2, first, count, remaining)
  {
    hide EnsureTable, Enough, OneRegion, Touched;
    AboveTouched(P3, page, first, count);
    AboveTouched(P2(page / PAGES_PER_P2), page, first, count);
    AboveTouched(P1(page / PAGES_PER_P1), page, first, count);
    EnsureEnough(p, s, P3, first, count, remaining);
    var a := EnsureTable(p, s, P3);
    EnsureEnough(a.1, a.2, P2(page / PAGES_PER_P2), first, count, remaining);
    var b := EnsureTable(a.1, a.2, P2(page / PAGES_PER_P2));
    EnsureEnough(b.1, b.2, P1(page / PAGES_PER_P1), first, count, remaining);
  }

  lemma SlotBetween(first: nat, count: nat, page: nat)
    requires OneRegion(first, count) && first <= page < first + count
    ensures InSlot(page)
  {
  }

  /** With enough frames in the pool a page is mapped, and enough remain for the rest of the request. */
  lemma MapEnough(p: Pool, s: Space, page: nat, flags: Flags, first: nat, count: nat, remaining: nat)
    requires OneRegion(first, count) && first <= page < first + count && page !in s.pages
    requires Enough(p, s, first, count, remaining + 1)
    ensures var r := MapPage(p, s, page, flags, NO_FAULT); r.0 && Enough(r.1, r.2, first, count, remaining)
  {
    hide OneRegion, BuildPath, Missing, Available, Allocate;
    SlotBetween(first, count, page);
    AllocateAvailable(p);
    var a, f := Allocate(p).1, Allocate(p).0.value;
    var s1 := s.(owned := s.owned + [f]);
    MissingOwned(s, s1.owned, s.pages, first, count);
    BuildEnough(a, s1, page, first, count, remaining);
    var b := BuildPath(a, s1, page, NO_FAULT);
    MissingOwned(b.2, b.2.owned, s.pages[page := Entry(f, flags)], first, count);
  }

  /** The request's worst case, counted in 2 MiB stretches of addresses, covers what it can need. */
  lemma WorstCaseCovers(p: Pool, s: Space, first: nat, count: nat, worst: nat)
    requires count > 0 && Available(p) >= worst
    requires worst == count + ((4096 * (first + count) - 1) / 0x20_0000 - (4096 * first) / 0x20_0000 + 1) + 2
    ensures Enough(p, s, first, count, count)
  {
    Stretches(first);
    LastStretch(first + count);
    MissingP1Bound(s, first / PAGES_PER_P1, (first + count - 1) / PAGES_PER_P1);
  }

  lemma Stretches(first: nat)
    ensures (4096 * first) / 0x20_0000 == first / PAGES_PER_P1
  {
  }

  lemma LastStretch(end: nat)
    requires end > 0
    ensures (4096 * end - 1) / 0x20_0000 == (end - 1) / PAGES_PER_P1
  {
  }
}
