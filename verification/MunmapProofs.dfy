/**
 The stages of an unmap request spread over many critical sections: leaves removed
 up to some record, ownership given up to some planned removal, tables swept up to
 some page.
 */
module MunmapProofs {
  import opened Prelude
  import opened FrameAllocator
  import opened Ownership
  import opened PageTables
  import opened TableCleanup
  import opened MmapProofs
  import opened FrameConservation
  import opened Unmapping
  import opened UnmapRange

  // ---- Collecting ----

  lemma RecordsConcat(s: Space, first: nat, a: nat, b: nat)
    requires AllMapped(s, first, a) && AllMapped(s, first + a, b)
    ensures AllMapped(s, first, a + b)
    ensures Records(s, first, a) + Records(s, first + a, b) == Records(s, first, a + b)
  {
  }

  // ---- Removing leaves ----

  /** `s` without the leaves of the first `k` records. */
  function Cut(s: Space, records: seq<Record>, k: nat): Space
    requires k <= |records|
  {
    s.(pages := s.pages - PagesOf(records[..k]))
  }

  lemma CutNone(s: Space, records: seq<Record>)
    ensures Cut(s, records, 0) == s
  {
    NoPages(s.pages, records);
  }

  lemma CutMatching(s: Space, records: seq<Record>, k: nat, end: nat)
    requires Matching(s.pages, records) && k <= end <= |records|
    ensures Matching(Cut(s, records, k).pages, records[k..end])
  {
    forall i | k <= i < end ensures records[i].page in Cut(s, records, k).pages {
      assert forall j :: 0 <= j < k ==> records[..k][j].page != records[i].page;
    }
  }

  lemma PagesOfConcat(records: seq<Record>, k: nat, end: nat)
    requires k <= end <= |records|
    ensures PagesOf(records[..end]) == PagesOf(records[..k]) + PagesOf(records[k..end])
  {
    var a, b, c := records[..end], records[..k], records[k..end];
    forall g | g in PagesOf(a) ensures g in PagesOf(b) + PagesOf(c) {
      var i :| 0 <= i < |a| && a[i].page == g;
      if i < k { assert b[i].page == g; } else { assert c[i - k].page == g; }
    }
    forall g | g in PagesOf(b) ensures g in PagesOf(a) {
      var i :| 0 <= i < |b| && b[i].page == g;
      assert a[i].page == g;
    }
    forall g | g in PagesOf(c) ensures g in PagesOf(a) {
      var i :| 0 <= i < |c| && c[i].page == g;
      assert a[k + i].page == g;
    }
  }

  lemma CutMore(s: Space, records: seq<Record>, k: nat, end: nat)
    requires k <= end <= |records|
    ensures Cut(s, records, k).pages - PagesOf(records[k..end]) == Cut(s, records, end).pages
  {
    hide PagesOf;
    PagesOfConcat(records, k, end);
  }

  lemma CutAll(s: Space, first: nat, count: nat)
    requires AllMapped(s, first, count)
    ensures |Records(s, first, count)| == count
    ensures Cut(s, Records(s, first, count), count).pages == WithoutPages(s, first, count).pages
  {
    RecordsPages(s, first, count);
    var records := Records(s, first, count);
    assert records[..count] == records;
  }

  lemma CutInv(sys: Sys, pid: nat, s: Space, records: seq<Record>, k: nat)
    requires Inv(sys) && pid in sys.spaces && WellFormed(s) && s.owned == sys.spaces[pid].owned && k <= |records|
    ensures Inv(WithSpace(sys, pid, sys.pool, Cut(s, records, k)))
    ensures List(WithSpace(sys, pid, sys.pool, Cut(s, records, k)), Transit(pid)) == List(sys, Transit(pid))
  {
    hide Inv, WellFormed, PagesOf;
    RemoveLeavesFormed(s, PagesOf(records[..k]));
    PagesOnlyInv(sys, pid, Cut(s, records, k));
  }

  // ---- Giving up ownership ----

  /** The leaves are gone and the first `k` planned removals are done. */
  function Handed(s: Space, first: nat, count: nat, k: nat): Space
    requires k <= |Plan(s.owned, PageFrames(s, first, count))|
  {
    var left := Apply(s.owned, Plan(s.owned, PageFrames(s, first, count))[..k]);
    WithoutPages(s, first, count).(owned := if left.Some? then left.value else [])
  }

  lemma HandedNone(s: Space, first: nat, count: nat)
    ensures Handed(s, first, count, 0) == WithoutPages(s, first, count).(owned := s.owned)
  {
    hide PageFrames, Drop;
    assert Plan(s.owned, PageFrames(s, first, count))[..0] == [];
  }

  lemma HandedAll(s: Space, first: nat, count: nat)
    ensures var n := |Plan(s.owned, PageFrames(s, first, count))|;
      Handed(s, first, count, n) == WithoutPages(s, first, count)
  {
    hide PageFrames, Drop, Apply, Plan;
    var plan := Plan(s.owned, PageFrames(s, first, count));
    assert plan[..|plan|] == plan;
    PlanAll(s.owned, PageFrames(s, first, count));
  }

  lemma HandedMore(s: Space, first: nat, count: nat, k: nat, end: nat)
    requires k <= end <= |Plan(s.owned, PageFrames(s, first, count))|
    ensures var plan := Plan(s.owned, PageFrames(s, first, count));
      Apply(Handed(s, first, count, k).owned, plan[k..end]) == Some(Handed(s, first, count, end).owned)
  {
    hide PageFrames, Drop, Apply, Plan;
    var gone := PageFrames(s, first, count);
    var plan := Plan(s.owned, gone);
    PlanCarriedOut(s.owned, gone, k);
    PlanCarriedOut(s.owned, gone, end);
    assert plan[..end] == plan[..k] + plan[k..end];
    ApplyConcat(s.owned, plan[..k], plan[k..end]);
  }

  lemma {:induction false} PlanFrames(snapshot: seq<nat>, gone: set<nat>, i: nat)
    requires i < |Plan(snapshot, gone)|
    ensures Plan(snapshot, gone)[i].frame in gone
    decreases |snapshot|
  {
    var last := |snapshot| - 1;
    if snapshot[last] in gone {
      if i > 0 { PlanFrames(snapshot[..last], gone, i - 1); }
    } else {
      PlanFrames(snapshot[..last], gone, i);
    }
  }

  /** A frame of the removed range is no longer part of the structure. */
  lemma Unused(s: Space, first: nat, count: nat, owned: seq<nat>, f: nat)
    requires WellFormed(s) && f in PageFrames(s, first, count)
    ensures !Busy(WithoutPages(s, first, count).(owned := owned), f)
  {
    hide WellFormed, PageFrames, Drop, Busy, WithoutPages;
    var t, u := WithoutPages(s, first, count), WithoutPages(s, first, count).(owned := owned);
    forall r ensures !Uses(u, r, f) {
      WithoutPagesUses(s, first, count, r, f);
      assert Uses(u, r, f) <==> Uses(t, r, f);
    }
    BusyIsInUse(u, f);
  }

  /** The next chunk of planned removals can be carried out, and does what the plan says. */
  lemma HandOver(sys: Sys, pid: nat, s: Space, first: nat, count: nat, k: nat, end: nat)
    requires Inv(sys) && pid in sys.spaces && WellFormed(s) && List(sys, Transit(pid)) == []
    requires k <= end <= |Plan(s.owned, PageFrames(s, first, count))|
    requires sys.spaces[pid] == Handed(s, first, count, k)
    ensures var e := Disown(pid, Plan(s.owned, PageFrames(s, first, count))[k..end]);
      && Enabled(sys, e) && Inv(Step(sys, e)) && Step(sys, e).mem == sys.mem
      && pid in Step(sys, e).spaces && Step(sys, e).spaces[pid] == Handed(s, first, count, end)
  {
    hide Inv, WellFormed, PageFrames, Drop, Apply, Plan, Busy, FramesOf;
    var gone := PageFrames(s, first, count);
    var chunk := Plan(s.owned, gone)[k..end];
    HandedMore(s, first, count, k, end);
    forall i | 0 <= i < |chunk| ensures !Busy(sys.spaces[pid], chunk[i].frame) {
      PlanFrames(s.owned, gone, k + i);
      Unused(s, first, count, sys.spaces[pid].owned, chunk[i].frame);
    }
    StepInv(sys, Disown(pid, chunk));
  }

  lemma HandBack(sys: Sys, pid: nat)
    requires Inv(sys) && pid in sys.spaces
    ensures var t := Step(sys, ReleaseDisowned(pid));
      && Inv(t) && t.spaces == sys.spaces && t.mem == sys.mem && List(t, Transit(pid)) == []
  {
    hide Inv;
    StepInv(sys, ReleaseDisowned(pid));
  }

  // ---- Sweeping tables ----

  /** Tables are swept up to page `from`: any empty one left lies ahead. */
  ghost predicate Swept(s1: Space, s: Space, from: nat, count: nat) {
    && WellFormed(s) && Exact(s)
    && s.root == s1.root && s.pages == s1.pages
    && (forall n :: n in s.tables ==> n in s1.tables && s.tables[n] == s1.tables[n])
    && s.owned == Drop(s1.owned, Freed(s1, s))
    && FewerTables(s1, s)
    && (forall n :: n in s.tables && Childless(s, n) ==> Touched(n, from, count))
  }

  lemma SweepStart(s: Space, first: nat, count: nat)
    requires Settled(s)
    ensures Swept(WithoutPages(s, first, count), WithoutPages(s, first, count), first, count)
  {
    hide WellFormed, Exact, Drop, Touched;
    var t := WithoutPages(s, first, count);
    WithoutPagesFormed(s, first, count);
    DropNothing(t.owned, Freed(t, t));
    forall n | n in t.tables && Childless(t, n) ensures Touched(n, first, count) {
      assert !Childless(s, n);
      if n.P1? {
        var g :| g in s.pages && g / PAGES_PER_P1 == n.index;
        assert g !in t.pages;
        AboveTouched(n, g, first, count);
      }
    }
  }

  lemma TouchedSplit(n: Node, first: nat, a: nat, b: nat)
    requires Touched(n, first, a + b) && a > 0
    ensures Touched(n, first, a) || Touched(n, first + a, b)
  {
  }

  lemma ParentTouched(j: nat, first: nat, count: nat)
    requires Touched(P1(j), first, count)
    ensures Touched(P2(j / 512), first, count)
  {
    IndexChain(first);
    IndexChain(first + count - 1);
  }

  /** A table that became empty in a sweep lost a child the sweep touched, so the sweep touched it too. */
  lemma EmptiedIsTouched(s: Space, t: Space, n: Node, first: nat, count: nat)
    requires count > 0 && t.pages == s.pages && n in t.tables && !Childless(s, n) && Childless(t, n)
    requires forall m :: m in s.tables && m !in t.tables ==> Touched(m, first, count)
    ensures Touched(n, first, count)
  {
    hide Touched;
    match n
    case P3 => PTop(first, count);
    case P2(i) =>
      var c :| c in s.tables && c.P1? && c.index / 512 == i;
      assert c !in t.tables;
      ParentTouched(c.index, first, count);
    case P1(i) =>
  }

  lemma PTop(first: nat, count: nat)
    requires count > 0
    ensures Touched(P3, first, count)
  {
  }

  lemma SweepStep(p: Pool, s1: Space, s: Space, from: nat, batch: nat, count: nat)
    requires p.next <= |p.frames| && Simple(Load(p, s)) && 0 < batch <= count && Swept(s1, s, from, count)
    ensures Swept(s1, CleanUp(p, s, from, batch).1, from + batch, count - batch)
  {
    hide WellFormed, Exact, Simple, Load, CleanUp, Drop, Touched, Childless, Freed, FewerTables;
    var t := CleanUp(p, s, from, batch).1;
    CleanUpShrinks(p, s, from, batch);
    SubTablesSame(s, t);
    FewerTrans(s1, s, t);
    FreedTrans(s1, s, t);
    DropTwice(s1.owned, Freed(s1, s), Freed(s, t));
    forall n | n in t.tables && Childless(t, n) ensures Touched(n, from + batch, count - batch) {
      if Childless(s, n) {
        TouchedSplit(n, from, batch, count - batch);
      } else {
        EmptiedIsTouched(s, t, n, from, batch);
      }
    }
  }

  lemma SubTablesSame(s: Space, t: Space)
    requires FewerTables(s, t)
    ensures forall n :: n in t.tables ==> n in s.tables && t.tables[n] == s.tables[n]
  {
  }

  /** What a successful request leaves: the range unmapped, its frames and the emptied tables' frames given up. */
  ghost predicate Unmapped(s0: Space, s: Space, first: nat, count: nat) {
    && s.root == s0.root
    && (forall g :: g in s.pages <==> g in s0.pages && !(first <= g < first + count))
    && (forall g :: g in s.pages ==> s.pages[g] == s0.pages[g])
    && (forall n :: n in s.tables ==> n in s0.tables && s.tables[n] == s0.tables[n])
    && s.owned == Drop(s0.owned, PageFrames(s0, first, count) + Freed(s0, s))
  }

  lemma SweepEnd(s0: Space, s: Space, first: nat, count: nat, from: nat)
    requires Swept(WithoutPages(s0, first, count), s, from, 0)
    ensures Settled(s) && Unmapped(s0, s, first, count)
  {
    hide WellFormed, Exact, Drop, PageFrames;
    var s1 := WithoutPages(s0, first, count);
    assert Freed(s1, s) == Freed(s0, s);
    DropTwice(s0.owned, PageFrames(s0, first, count), Freed(s0, s));
  }
}
