/**
 Facts the memory system calls rest on: what other tasks can do between two
 batches of a call, and what zeroing, narrowing and completing a request keep.
 */
module VmProofs {
  import opened Prelude
  import opened FrameAllocator
  import opened Ownership
  import opened PageTables
  import opened TableCleanup
  import opened UserMemory
  import opened MmapProofs
  import opened FrameConservation

  // ---- Preemption ----

  /** Process `q` sees no difference between the two states. */
  ghost predicate Undisturbed(a: Sys, b: Sys, q: nat) {
    && q in a.spaces && q in b.spaces && b.spaces[q] == a.spaces[q]
    && List(b, Transit(q)) == List(a, Transit(q))
    && b.pool.frames == a.pool.frames
    && Kept(a.mem, b.mem, a.spaces[q].owned)
  }

  /** The contents of `frames` are the same in both memories. */
  ghost predicate Kept(a: Memory, b: Memory, frames: seq<nat>) {
    forall f :: f in frames && f in a ==> f in b && b[f] == a[f]
  }

  lemma KeptTrans(a: Memory, b: Memory, c: Memory, frames: seq<nat>)
    requires Kept(a, b, frames) && Kept(b, c, frames)
    ensures Kept(a, c, frames)
  {
  }

  lemma KeptFewer(a: Memory, b: Memory, frames: seq<nat>, fewer: seq<nat>)
    requires Kept(a, b, frames) && fewer <= frames
    ensures Kept(a, b, fewer)
  {
    assert forall f :: f in fewer ==> f in frames;
  }

  lemma UndisturbedTrans(a: Sys, b: Sys, c: Sys, q: nat)
    requires Undisturbed(a, b, q) && Undisturbed(b, c, q)
    ensures Undisturbed(a, c, q)
  {
    hide List;
  }

  /** A critical section of another process leaves this one's tables, ownership and bytes alone. */
  lemma StepElsewhere(sys: Sys, e: Event, q: nat)
    requires Inv(sys) && q in sys.spaces && e.pid != q
    ensures Undisturbed(sys, Step(sys, e), q)
  {
    hide Inv, Busy, Apply, MapPage, CleanUp;
    if Enabled(sys, e) {
      StepFrames(sys, e);
      if e.Store? { LeafElsewhere(sys, e.pid, e.page, q); }
    }
  }

  lemma LeafElsewhere(sys: Sys, r: nat, page: nat, q: nat)
    requires Inv(sys) && r in sys.spaces && q in sys.spaces && r != q && page in sys.spaces[r].pages
    ensures sys.spaces[r].pages[page].frame !in sys.spaces[q].owned
  {
    hide Rooted, Unshared, NoDup;
    var f := sys.spaces[r].pages[page].frame;
    assert Uses(sys.spaces[r], Leaf(page), f);
    assert f in List(sys, Of(r));
    assert forall g :: g in sys.spaces[q].owned ==> g in List(sys, Of(q));
  }

  lemma StepFrames(sys: Sys, e: Event)
    requires Inv(sys)
    ensures Step(sys, e).pool.frames == sys.pool.frames
  {
    hide Inv, Busy, Apply, MapPage, CleanUp, Load, Simple, WellFormed;
    if Enabled(sys, e) && (e.AddPage? || e.Clean?) {
      InvParts(sys);
      NextBound(sys);
      SpaceFormed(sys, e.pid);
      LoadSimple(sys, e.pid);
      if e.AddPage? {
        MapPageGrows(sys.pool, sys.spaces[e.pid], e.page, e.flags, e.fault);
      } else {
        CleanUpShrinks(sys.pool, sys.spaces[e.pid], e.first, e.count);
      }
    }
  }

  // ---- Zeroing ----

  ghost predicate ZeroPages(mem: Memory, s: Space, first: nat, count: nat) {
    forall g :: first <= g < first + count ==> ZeroPage(mem, s, g)
  }

  predicate ZeroPage(mem: Memory, s: Space, g: nat) {
    g in s.pages && s.pages[g].frame in mem && mem[s.pages[g].frame] == ZeroFrame()
  }

  function ZeroBytes(len: nat): seq<byte> { seq(len, _ => 0) }

  lemma ByteOf(mem: Memory, s: Space, g: nat, o: nat)
    requires g in s.pages && s.pages[g].frame in mem && o < PAGE_SIZE
    ensures Mapped(s, PAGE_SIZE * g + o) && ByteAt(mem, s, PAGE_SIZE * g + o) == mem[s.pages[g].frame][o]
  {
    assert (PAGE_SIZE * g + o) / PAGE_SIZE == g && (PAGE_SIZE * g + o) % PAGE_SIZE == o;
  }

  lemma WroteZeroPage(a: Memory, b: Memory, s: Space, first: nat, count: nat, g: nat)
    requires Wrote(a, b, s, PAGE_SIZE * first, ZeroBytes(PAGE_SIZE * count)) && g in s.pages
    requires first <= g < first + count
    ensures ZeroPage(b, s, g)
  {
    hide ByteAt;
    var f := s.pages[g].frame;
    forall o | 0 <= o < PAGE_SIZE ensures b[f][o] == 0 {
      ByteOf(b, s, g, o);
      ByteOf(a, s, g, o);
    }
    ZeroIs(b[f]);
  }

  lemma ZeroIs(data: FrameData)
    requires forall o :: 0 <= o < PAGE_SIZE ==> data[o] == 0
    ensures data == ZeroFrame()
  {
  }

  lemma WroteOtherPage(a: Memory, b: Memory, s: Space, dest: nat, data: seq<byte>, g: nat)
    requires Wrote(a, b, s, dest, data) && g in s.pages
    requires PAGE_SIZE * g + PAGE_SIZE <= dest || dest + |data| <= PAGE_SIZE * g
    ensures s.pages[g].frame in a && s.pages[g].frame in b && b[s.pages[g].frame] == a[s.pages[g].frame]
  {
    hide ByteAt;
    var f := s.pages[g].frame;
    forall o | 0 <= o < PAGE_SIZE ensures b[f][o] == a[f][o] {
      ByteOf(b, s, g, o);
      ByteOf(a, s, g, o);
    }
  }

  lemma ZeroMore(a: Memory, b: Memory, s: Space, first: nat, done: nat, count: nat)
    requires ZeroPages(a, s, first, done)
    requires Wrote(a, b, s, PAGE_SIZE * (first + done), ZeroBytes(PAGE_SIZE * count))
    requires forall g :: first <= g < first + done + count ==> g in s.pages
    ensures ZeroPages(b, s, first, done + count)
  {
    hide Wrote, ZeroPage, ZeroBytes;
    forall g | first <= g < first + done + count ensures ZeroPage(b, s, g) {
      if g < first + done {
        ZeroLength(PAGE_SIZE * count);
        WroteOtherPage(a, b, s, PAGE_SIZE * (first + done), ZeroBytes(PAGE_SIZE * count), g);
        ZeroPageSame(a, b, s, g);
      } else {
        WroteZeroPage(a, b, s, first + done, count, g);
      }
    }
  }

  lemma ZeroLength(len: nat)
    ensures |ZeroBytes(len)| == len
  {
  }

  lemma ZeroPageSame(a: Memory, b: Memory, s: Space, g: nat)
    requires ZeroPage(a, s, g) && s.pages[g].frame in b && b[s.pages[g].frame] == a[s.pages[g].frame]
    ensures ZeroPage(b, s, g)
  {
  }

  /** Zero pages stay zero while the owned frames keep their contents. */
  lemma ZeroKept(a: Memory, b: Memory, s: Space, first: nat, count: nat)
    requires ZeroPages(a, s, first, count) && Kept(a, b, s.owned) && WellFormed(s)
    ensures ZeroPages(b, s, first, count)
  {
    hide Unshared, Rooted;
    forall g | first <= g < first + count ensures ZeroPage(b, s, g) {
      assert ZeroPage(a, s, g);
      assert Uses(s, Leaf(g), s.pages[g].frame);
    }
  }

  /** Writing to the new pages of a request leaves every frame owned before it as it was. */
  lemma WroteKeeps(a: Memory, b: Memory, s0: Space, s: Space, lo: nat, hi: nat, dest: nat, data: seq<byte>)
    requires Wrote(a, b, s, dest, data) && NewPages(s0, s, lo, hi)
    requires PAGE_SIZE * lo <= dest && dest + |data| <= PAGE_SIZE * hi
    ensures Kept(a, b, s0.owned)
  {
    hide Wrote;
    forall f | f in s0.owned && f in a ensures f in b && b[f] == a[f] {
      if g :| g in s.pages && s.pages[g].frame == f {
        assert !(lo <= g < hi);
        WroteOtherPage(a, b, s, dest, data, g);
      } else {
        OutsideLeaves(a, b, s, dest, data, f);
      }
    }
  }

  // ---- Narrowing ----

  function WithFlags(s: Space, page: nat, flags: Flags): Space
    requires page in s.pages
  {
    s.(pages := s.pages[page := Entry(s.pages[page].frame, flags)])
  }

  lemma WithFlagsExact(s: Space, page: nat, flags: Flags)
    requires page in s.pages && Exact(s)
    ensures Exact(WithFlags(s, page, flags))
  {
    var t := WithFlags(s, page, flags);
    forall f | f in t.owned ensures InUse(t, f) {
      var r :| Uses(s, r, f);
      assert Uses(t, r, f);
    }
  }

  lemma AroundFlags(s0: Space, s: Space, first: nat, count: nat, lo: nat, hi: nat, page: nat, flags: Flags)
    requires Around(s0, s, first, count, lo, hi) && lo <= page < hi
    ensures Around(s0, WithFlags(s, page, flags), first, count, lo, hi)
  {
    hide WellFormed, Exact, Touched;
    FlagsFormed(s, page, flags);
    WithFlagsExact(s, page, flags);
  }

  // ---- Completion ----

  /** A new address space, with nothing but its root, is settled. */
  lemma RootSettled(f: nat)
    ensures Settled(Space(f, map[], map[], [f]))
  {
    var s := Space(f, map[], map[], [f]);
    RootOnly(f);
    assert Uses(s, Root, f);
  }

  /** Tables of `s` that were there before, or lie on the way to a page of the request, are not empty. */
  lemma CompleteIsTight(s0: Space, s: Space, first: nat, count: nat)
    requires Tight(s0) && Around(s0, s, first, count, first, first + count)
    ensures Tight(s)
  {
    hide WellFormed, Exact, Touched, Childless, Above;
    forall n | n in s.tables ensures !Childless(s, n) {
      if n in s0.tables {
        ChildKept(s0, s, n);
      } else {
        var page := PageBelow(n, first, count);
        ChildOfPage(s, n, page);
      }
    }
  }

  lemma ChildKept(s0: Space, s: Space, n: Node)
    requires n in s0.tables && !Childless(s0, n)
    requires forall g :: g in s0.pages ==> g in s.pages
    requires forall m :: m in s0.tables ==> m in s.tables
    ensures !Childless(s, n)
  {
  }

  lemma PageBelow(n: Node, first: nat, count: nat) returns (page: nat)
    requires Touched(n, first, count)
    ensures first <= page < first + count && Above(n, page)
  {
    match n
    case P3 => page := first;
    case P2(i) => page := if PAGES_PER_P2 * i < first then first else PAGES_PER_P2 * i;
    case P1(i) => page := if PAGES_PER_P1 * i < first then first else PAGES_PER_P1 * i;
  }

  lemma ChildOfPage(s: Space, n: Node, page: nat)
    requires WellFormed(s) && page in s.pages && Above(n, page)
    ensures !Childless(s, n)
  {
    IndexChain(page);
    assert P1(page / PAGES_PER_P1) in s.tables;
    assert P2(page / PAGES_PER_P2) in s.tables;
  }
}
