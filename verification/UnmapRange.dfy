/**
 Unmapping a whole range as one atomic step: all of its leaves, their ownership
 and their frames, or nothing.
 */
module UnmapRange {
  import opened Prelude
  import opened FrameAllocator
  import opened Ownership
  import opened PageTables
  import opened TableCleanup
  import opened UserMemory
  import opened MmapProofs
  import opened Unmapping

  // ---- The records of a range and the space without it ----

  lemma RecordsMatch(s: Space, first: nat, count: nat)
    requires AllMapped(s, first, count)
    ensures Matching(s.pages, Records(s, first, count))
  {
  }

  lemma RecordsFrames(s: Space, first: nat, count: nat)
    requires WellFormed(s) && AllMapped(s, first, count)
    ensures NoDup(RecordFrames(Records(s, first, count)))
    ensures forall f :: f in RecordFrames(Records(s, first, count)) <==> f in PageFrames(s, first, count)
  {
    hide Covered, Rooted;
    var records := Records(s, first, count);
    var frames := RecordFrames(records);
    forall i, j | 0 <= i < j < |frames| ensures frames[i] != frames[j] {
      assert Uses(s, Leaf(first + i), frames[i]);
      assert Uses(s, Leaf(first + j), frames[j]);
    }
    forall f | f in PageFrames(s, first, count) ensures f in frames {
      var g :| g in s.pages && first <= g < first + count && s.pages[g].frame == f;
      assert frames[g - first] == f;
    }
  }

  lemma RecordsPages(s: Space, first: nat, count: nat)
    requires AllMapped(s, first, count)
    ensures s.pages - PagesOf(Records(s, first, count)) == WithoutPages(s, first, count).pages
  {
    var records := Records(s, first, count);
    forall g ensures g in PagesOf(records) <==> first <= g < first + count {
      if first <= g < first + count { assert records[g - first].page == g; }
    }
  }

  lemma FramesOwned(s: Space, first: nat, count: nat)
    requires WellFormed(s)
    ensures forall f :: f in PageFrames(s, first, count) ==> f in s.owned
  {
    hide Unshared, Rooted;
    forall f | f in PageFrames(s, first, count) ensures f in s.owned {
      var g :| g in s.pages && first <= g < first + count && s.pages[g].frame == f;
      assert Uses(s, Leaf(g), f);
    }
  }

  // ---- Dropping frames ----

  lemma {:induction false} DropNoDup(s: seq<nat>, gone: set<nat>)
    requires NoDup(s)
    ensures NoDup(Drop(s, gone))
  {
    if s != [] {
      var front, x := s[..|s| - 1], s[|s| - 1];
      DropNoDup(front, gone);
      DropMember(front, gone, x);
    }
  }

  /** Dropping frames from the list and listing them separately keeps the total. */
  lemma DropMoves(s: seq<nat>, gone: set<nat>, frames: seq<nat>)
    requires NoDup(s) && NoDup(frames)
    requires forall f :: f in frames <==> f in gone
    requires forall f :: f in gone ==> f in s
    ensures multiset(s) == multiset(Drop(s, gone)) + multiset(frames)
  {
    hide NoDup, Drop;
    DropNoDup(s, gone);
    forall f ensures multiset(s)[f] == multiset(Drop(s, gone))[f] + multiset(frames)[f] {
      NoDupCount(s, f);
      NoDupCount(Drop(s, gone), f);
      NoDupCount(frames, f);
      DropMember(s, gone, f);
    }
  }

  lemma WithoutPagesLoad(p: Pool, s: Space, first: nat, count: nat, frames: seq<nat>)
    requires p.next <= |p.frames| && Simple(Load(p, s)) && WellFormed(s) && NoDup(frames)
    requires forall f :: f in frames <==> f in PageFrames(s, first, count)
    ensures Load(p.(freed := p.freed + frames), WithoutPages(s, first, count)) == Load(p, s)
  {
    hide WellFormed, Simple, NoDup, Drop, PageFrames;
    OwnedNoDup(p, s);
    FramesOwned(s, first, count);
    DropMoves(s.owned, PageFrames(s, first, count), frames);
    assert multiset(Obtainable(p.(freed := p.freed + frames))) == multiset(Obtainable(p)) + multiset(frames);
  }

  method UnmapRangeAtomic(p: Pool, s: Space, start: nat, count: nat, fault: nat)
    returns (ok: bool, q: Pool, t: Space)
    requires start <= U64_MAX && count <= U64_MAX
    requires p.next <= |p.frames| && Simple(Load(p, s)) && WellFormed(s)
    ensures ok <==> count > 0 && start % PAGE_SIZE == 0 && RangeOk(s, start, PAGE_SIZE * count, false) && fault >= count
    ensures ok ==> t == WithoutPages(s, start / PAGE_SIZE, count)
    ensures ok ==> q == p.(freed := q.freed) && Load(q, t) == Load(p, s)
    ensures !ok ==> q == p && t == s
  {
    hide WellFormed, Simple, Load, NoDup, RangeOk, Drop, Records, RecordFrames, PageFrames, Matching, PagesOf, Plan,
      Apply;
    q, t := p, s;
    var collected := CollectUnmapRecords(s, start, count, []);
    if collected.None? { return false, q, t; }
    var records := collected.value;
    ghost var first := start / PAGE_SIZE;
    assert records == Records(s, first, count);
    RecordsMatch(s, first, count);
    RecordsFrames(s, first, count);
    RecordsPages(s, first, count);
    var sorted := UnmapRecordFrames(records);
    var frames := sorted.value;
    var gone := set f | f in frames;
    SameMembers(frames, RecordFrames(records));
    assert gone == PageFrames(s, first, count);
    OwnedNoDup(p, s);
    FramesOwned(s, first, count);
    PlanCompleteIff(s.owned, gone);
    var plan := PlanUnmapOwnership(s.owned, gone);
    var unmapped, left := UnmapRecordsAtomic(s.pages, records, fault);
    RecordsLength(s, first, count);
    if !unmapped { return false, q, t; }
    PlanCarriedOut(s.owned, gone, 0);
    // Every planned index still names its frame, so this cannot be refused.
    var disowned, owned := RemoveUnmappedOwnership(s.owned, plan.value);
    PlanAll(s.owned, gone);
    WithoutPagesLoad(p, s, first, count, frames);
    q, t := p.(freed := p.freed + frames), s.(pages := left, owned := owned);
    ok := true;
  }

  lemma RecordsLength(s: Space, first: nat, count: nat)
    requires AllMapped(s, first, count)
    ensures |Records(s, first, count)| == count
  {
  }

  lemma PlanAll(snapshot: seq<nat>, gone: set<nat>)
    ensures Apply(snapshot, Plan(snapshot, gone)) == Some(Drop(snapshot, gone))
  {
    hide Apply, Plan, Drop;
    PlanCarriedOut(snapshot, gone, 0);
    var plan := Plan(snapshot, gone);
    assert plan[..0] == [] && plan[0..] == plan;
    ApplyNone(snapshot);
  }

  lemma ApplyNone(owned: seq<nat>)
    ensures Apply(owned, []) == Some(owned)
  {
  }

  lemma SameMembers(s: seq<nat>, t: seq<nat>)
    requires multiset(s) == multiset(t)
    ensures forall f :: f in s <==> f in t
  {
    assert forall f :: f in s <==> f in multiset(s);
    assert forall f :: f in t <==> f in multiset(t);
  }
}
