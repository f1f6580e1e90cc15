/**
 What an address space looks like in the middle of an anonymous-memory request,
 and why undoing the request gives back the very same address space.
 */
module MmapProofs {
  import opened FrameAllocator
  import opened Ownership
  import opened PageTables
  import opened TableCleanup

  /** An address space between system calls: no empty tables, no frame held without use. */
  ghost predicate Settled(s: Space) { WellFormed(s) && Tight(s) && Exact(s) }

  /**
   `s` is `s0` plus the pages `[lo, hi)` of the request `[first, first + count)`, plus tables the
   request needs. Everything new is stored in frames `s0` did not own, at the end of the list.
   */
  ghost predicate Around(s0: Space, s: Space, first: nat, count: nat, lo: nat, hi: nat) {
    && WellFormed(s) && Exact(s)
    && s.root == s0.root && s0.owned <= s.owned
    && NewTables(s0, s, first, count)
    && NewPages(s0, s, lo, hi)
  }

  ghost predicate NewTables(s0: Space, s: Space, first: nat, count: nat) {
    && (forall n :: n in s0.tables ==> n in s.tables && s.tables[n] == s0.tables[n])
    && (forall n :: n in s.tables && n !in s0.tables ==> Touched(n, first, count) && s.tables[n] !in s0.owned)
  }

  ghost predicate NewPages(s0: Space, s: Space, lo: nat, hi: nat) {
    && (forall g :: g in s0.pages ==> g in s.pages && s.pages[g] == s0.pages[g])
    && (forall g :: g in s.pages <==> g in s0.pages || lo <= g < hi)
    && (forall g :: lo <= g < hi ==> g !in s0.pages && s.pages[g].frame !in s0.owned)
  }

  lemma AboveTouched(n: Node, page: nat, first: nat, count: nat)
    requires Above(n, page) && first <= page < first + count
    ensures Touched(n, first, count)
  {
  }

  /** One more page, or a failed attempt that only left tables behind. */
  lemma AroundMap(s0: Space, p: Pool, s: Space, first: nat, count: nat, lo: nat, hi: nat, flags: Flags, fault: nat)
    requires p.next <= |p.frames| && Simple(Load(p, s)) && Around(s0, s, first, count, lo, hi)
    requires lo <= hi && first <= hi < first + count && hi !in s0.pages
    ensures var r := MapPage(p, s, hi, flags, fault);
      && Around(s0, r.2, first, count, lo, if r.0 then hi + 1 else hi)
      && (r.0 ==> r.2.pages == s.pages[hi := r.2.pages[hi]] && r.2.pages[hi].flags == flags)
  {
    hide MapPage, Simple, Load, WellFormed, Exact, Touched, Above, Uses;
    var r := MapPage(p, s, hi, flags, fault);
    var t := r.2;
    MapPageGrows(p, s, hi, flags, fault);
    ExactGrows(p, s, r.1, t, hi);
    forall n | n in t.tables && n !in s0.tables ensures Touched(n, first, count) && t.tables[n] !in s0.owned {
      if n !in s.tables { AboveTouched(n, hi, first, count); }
    }
  }

  lemma ExactGrows(p: Pool, s: Space, q: Pool, t: Space, page: nat)
    requires p.next <= |p.frames| && Grows(p, s, q, t, page) && Exact(s)
    ensures Exact(t)
  {
    hide WellFormed, Load;
    forall f | f in t.owned ensures InUse(t, f) {
      if f in s.owned {
        var r :| Uses(s, r, f);
        assert Uses(t, r, f);
      }
    }
  }

  // ---- Taking pages away ----

  /** The space without pages `[lo, lo + k)` and their frames. */
  function WithoutPages(s: Space, lo: nat, k: nat): Space {
    s.(pages := map g | g in s.pages && !(lo <= g < lo + k) :: s.pages[g],
       owned := Drop(s.owned, PageFrames(s, lo, k)))
  }

  function PageFrames(s: Space, lo: nat, k: nat): set<nat> {
    set g | g in s.pages && lo <= g < lo + k :: s.pages[g].frame
  }

  lemma WithoutPagesUses(s: Space, lo: nat, k: nat, r: Role, f: nat)
    requires WellFormed(s)
    ensures Uses(WithoutPages(s, lo, k), r, f) <==> Uses(s, r, f) && !(r.Leaf? && lo <= r.page < lo + k)
    ensures Uses(WithoutPages(s, lo, k), r, f) ==> f !in PageFrames(s, lo, k)
  {
    hide Covered, Rooted, Drop;
    var t := WithoutPages(s, lo, k);
    assert forall g :: g in s.pages ==> Uses(s, Leaf(g), s.pages[g].frame);
  }

  lemma WithoutPagesFormed(s: Space, lo: nat, k: nat)
    requires WellFormed(s)
    ensures WellFormed(WithoutPages(s, lo, k))
    ensures Exact(s) ==> Exact(WithoutPages(s, lo, k))
  {
    hide Drop, PageFrames;
    var t, gone := WithoutPages(s, lo, k), PageFrames(s, lo, k);
    forall r, f ensures Uses(t, r, f) ==> f in t.owned && Uses(s, r, f) {
      WithoutPagesUses(s, lo, k, r, f);
      DropMember(s.owned, gone, f);
    }
    if Exact(s) {
      forall f | f in t.owned ensures InUse(t, f) {
        DropMember(s.owned, gone, f);
        StaysInUse(s, lo, k, f);
      }
    }
  }

  lemma StaysInUse(s: Space, lo: nat, k: nat, f: nat)
    requires WellFormed(s) && InUse(s, f) && f !in PageFrames(s, lo, k)
    ensures InUse(WithoutPages(s, lo, k), f)
  {
    hide WellFormed, Drop;
    var r :| Uses(s, r, f);
    WithoutPagesUses(s, lo, k, r, f);
    assert Uses(WithoutPages(s, lo, k), r, f);
  }

  lemma AroundUnmap(s0: Space, s: Space, first: nat, count: nat, lo: nat, k: nat, hi: nat)
    requires Around(s0, s, first, count, lo, hi) && lo + k <= hi
    ensures Around(s0, WithoutPages(s, lo, k), first, count, lo + k, hi)
  {
    hide WellFormed, Exact, Touched, Drop;
    WithoutPagesFormed(s, lo, k);
    DropKeepsPrefix(s0.owned, s.owned, PageFrames(s, lo, k));
  }

  // ---- The way back ----

  /** Cleaning up after the last page is gone leaves the tables of `s0`. */
  lemma TablesBack(s0: Space, s: Space, t: Space, first: nat, count: nat)
    requires Settled(s0) && NewTables(s0, s, first, count) && s.pages == s0.pages
    requires FewerTables(s, t) && t.pages == s.pages
    requires forall n :: n in t.tables && Touched(n, first, count) ==> !Childless(t, n)
    ensures t.tables == s0.tables
  {
    hide Exact, Touched, Covered, Unshared;
    KeptByChild(s0, s, t);
    forall n | n in t.tables && n.P1? ensures n in s0.tables {
      assert n in s0.tables || !Childless(t, n);
    }
    forall n | n in t.tables && n.P2? ensures n in s0.tables {
      assert n in s0.tables || !Childless(t, n);
    }
    forall n | n in t.tables && n.P3? ensures n in s0.tables {
      assert n in s0.tables || !Childless(t, n);
    }
    assert forall n :: n in s0.tables ==> n in t.tables;
  }

  lemma KeptByChild(s0: Space, s: Space, t: Space)
    requires Tight(s0) && s.pages == s0.pages && t.pages == s.pages && FewerTables(s, t)
    requires forall n :: n in s0.tables ==> n in s.tables
    ensures forall n :: n in s0.tables ==> n in t.tables
  {
    assert forall n :: n in s0.tables && n.P1? ==> !Childless(s0, n);
    assert forall n :: n in s0.tables && n.P1? ==> n in t.tables;
    assert forall n :: n in s0.tables && n.P2? ==> !Childless(s0, n);
    assert forall n :: n in s0.tables && n.P2? ==> n in t.tables;
    assert forall n :: n in s0.tables && n.P3? ==> !Childless(s0, n);
  }

  /** Rolling a request back restores the page map, the tables and the ownership list, order included. */
  lemma RollbackExact(s0: Space, p: Pool, s: Space, first: nat, count: nat, x: nat)
    requires count > 0 && Settled(s0) && Around(s0, s, first, count, x, x)
    requires p.next <= |p.frames| && Simple(Load(p, s))
    ensures CleanUp(p, s, first, count).1 == s0
  {
    hide Simple, Load, WellFormed, Exact, Tight, CleanUp, Touched, Childless, Uses, Drop, Freed;
    var r := CleanUp(p, s, first, count);
    var t := r.1;
    CleanUpShrinks(p, s, first, count);
    assert s.pages == s0.pages;
    TablesBack(s0, s, t, first, count);
    forall f | f in s0.owned ensures f !in Freed(s, t) { NotFreed(s0, s, t, first, count, f); }
    DropKeepsPrefix(s0.owned, s.owned, Freed(s, t));
    OwnedNoDup(r.0, t);
    forall f | f in t.owned ensures f in s0.owned { InUseBefore(s0, t, f); }
    PrefixIsAll(s0.owned, t.owned);
  }

  lemma NotFreed(s0: Space, s: Space, t: Space, first: nat, count: nat, f: nat)
    requires NewTables(s0, s, first, count) && t.tables == s0.tables && f in s0.owned
    ensures f !in Freed(s, t)
  {
  }

  lemma InUseBefore(s0: Space, t: Space, f: nat)
    requires WellFormed(s0) && Exact(t) && t.root == s0.root && t.tables == s0.tables && t.pages == s0.pages
    requires f in t.owned
    ensures f in s0.owned
  {
    var r :| Uses(t, r, f);
    assert Uses(s0, r, f);
  }
}
