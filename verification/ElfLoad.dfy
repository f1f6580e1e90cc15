/**
 The loading pass of the ELF64 loader: segment by segment it maps the page span
 writable, zeroes all of it, copies the file bytes in, and then sets the
 permissions the segment asks for.

 The loader runs with interrupts enabled: between any two of its steps other tasks
 may run any of their own, while the new address space is still nobody else's.
 */
module ElfLoad {
  import opened Prelude
  import opened FrameAllocator
  import opened PageTables
  import opened UserMemory
  import opened MmapProofs
  import opened FrameConservation
  import opened Unmapping
  import opened VmProofs
  import opened Admission
  import opened ElfHeaders
  import VmCalls

  const STAGING := Flags(true, true, true, false)

  function Lo(h: ProgramHeader): nat { h.vaddr / PAGE_SIZE }

  function Hi(h: ProgramHeader): nat { (h.vaddr + h.memsz + 0xFFF) / PAGE_SIZE }

  predicate InSpan(h: ProgramHeader, g: nat) { Lo(h) <= g < Hi(h) }

  /** The byte a process must find at address `a` of the segment's span. */
  function ImageByte(bytes: seq<byte>, h: ProgramHeader, a: nat): byte
    requires h.offset + h.filesz <= |bytes|
  {
    if h.vaddr <= a < h.vaddr + h.filesz then bytes[h.offset + (a - h.vaddr)] else 0
  }

  // ---- State of a load ----

  /** Frames are accounted for and every one of them is memory. */
  ghost predicate Context(p: Pool, s: Space, mem: Memory) {
    && p.next <= |p.frames| && Simple(Load(p, s)) && WellFormed(s)
    && (forall f :: f in Load(p, s) ==> f in mem)
  }

  lemma ContextBacked(p: Pool, s: Space, mem: Memory)
    requires Context(p, s, mem)
    ensures Backed(mem, s) && Unshared(s)
  {
    hide Rooted;
    forall g | g in s.pages ensures s.pages[g].frame in mem {
      assert Uses(s, Leaf(g), s.pages[g].frame);
      assert s.pages[g].frame in multiset(s.owned);
    }
  }

  lemma ContextMoved(p: Pool, s: Space, q: Pool, t: Space, mem: Memory, after: Memory)
    requires Context(p, s, mem) && q.next <= |q.frames| && Load(q, t) == Load(p, s) && WellFormed(t)
    requires after.Keys == mem.Keys
    ensures Context(q, t, after)
  {
    hide WellFormed, Load;
    forall f | f in Load(q, t) ensures f in after { assert f in mem.Keys; }
  }

  predicate FlagsAre(s: Space, lo: nat, hi: nat, flags: Flags) {
    forall g :: lo <= g < hi ==> g in s.pages && s.pages[g].flags == flags
  }

  ghost predicate Contents(mem: Memory, s: Space, bytes: seq<byte>, h: ProgramHeader, g: nat)
    requires h.offset + h.filesz <= |bytes|
  {
    && g in s.pages && s.pages[g].frame in mem
    && forall o :: 0 <= o < PAGE_SIZE ==> mem[s.pages[g].frame][o] == ImageByte(bytes, h, PAGE_SIZE * g + o)
  }

  /** The segment's whole span is there with its contents and permissions. */
  ghost predicate SegmentIn(mem: Memory, s: Space, bytes: seq<byte>, h: ProgramHeader)
    requires h.offset + h.filesz <= |bytes|
  {
    && FlagsAre(s, Lo(h), Hi(h), SegmentFlags(h.flags))
    && forall g :: InSpan(h, g) ==> Contents(mem, s, bytes, h, g)
  }

  // ---- One segment ----

  /** The span is free and the pool holds every frame it can need, with `slack` to spare. */
  predicate Fits(p: Pool, s: Space, lo: nat, hi: nat, slack: nat) {
    && lo < hi && OneRegion(lo, hi - lo) && Enough(p, s, lo, hi - lo, hi - lo + slack)
    && forall g :: lo <= g < hi ==> g !in s.pages
  }

  /** The step at which the mapper refuses `page`; `refuse` holds the pages it refuses. */
  function Refusal(refuse: map<nat, nat>, page: nat): nat {
    if page in refuse then refuse[page] % NO_FAULT else NO_FAULT
  }

  predicate Allowed(refuse: map<nat, nat>, lo: nat, hi: nat) { forall g :: lo <= g < hi ==> g !in refuse }

  /** `keep` holds the pages of which the mapper refuses to change the permissions. */
  predicate Changeable(keep: set<nat>, lo: nat, hi: nat) { forall g :: lo <= g < hi ==> g !in keep }

  method MapSpan(vm: VmCalls.VmProcess, lo: nat, hi: nat, refuse: map<nat, nat>, ghost s0: Space, ghost slack: nat)
    returns (ok: bool)
    requires vm.Alive() && vm.Own() == s0 && Settled(s0) && lo <= hi
    modifies vm`sys, vm`script
    ensures vm.Alive() && Kept(old(vm.sys.mem), vm.sys.mem, s0.owned) && SameTransit(old(vm.sys), vm.sys, vm.pid)
    ensures ok ==> Around(s0, vm.Own(), lo, hi - lo, lo, hi) && FlagsAre(vm.Own(), lo, hi, STAGING)
    ensures old(vm.script) == [] ==> vm.script == []
    ensures old(vm.script) == [] && old(Fits(vm.sys.pool, vm.Own(), lo, hi, slack)) && Allowed(refuse, lo, hi) ==>
              ok && Available(vm.sys.pool) >= slack
  {
    hide Inv, Around, Settled, MapPage, FlagsAre, Enough, OneRegion, Kept, SameTransit, Available;
    AroundNone(s0, lo, hi - lo);
    VmCalls.KeptSame(vm.sys.mem, s0.owned);
    TransitSame(vm.sys, vm.pid);
    var page := lo;
    while page < hi
      invariant lo <= page <= hi && vm.Alive() && Kept(old(vm.sys.mem), vm.sys.mem, s0.owned)
      invariant SameTransit(old(vm.sys), vm.sys, vm.pid) && (old(vm.script) == [] ==> vm.script == [])
      invariant Around(s0, vm.Own(), lo, hi - lo, lo, page) && FlagsAre(vm.Own(), lo, page, STAGING)
      invariant old(vm.script) == [] && old(Fits(vm.sys.pool, vm.Own(), lo, hi, slack)) && Allowed(refuse, lo, hi) ==>
                  Enough(vm.sys.pool, vm.Own(), lo, hi - lo, hi - page + slack)
    {
      SpanStep(vm.sys, vm.pid, s0, lo, hi, page, refuse, slack);
      var r := MapPage(vm.sys.pool, vm.Own(), page, STAGING, Refusal(refuse, page));
      TransitWith(old(vm.sys), vm.sys, vm.pid, r.1, r.2);
      vm.sys := WithSpace(vm.sys, vm.pid, r.1, r.2);
      if !r.0 { return false; }
      page := page + 1;
      label Before: assert true;
      vm.Yield();
      VmCalls.KeptAround(s0, old(vm.sys.mem), old@Before(vm.sys), vm.sys, vm.pid, lo, hi - lo, lo, page);
      TransitAcross(old(vm.sys), old@Before(vm.sys), vm.sys, vm.pid);
    }
    if lo < hi && Enough(vm.sys.pool, vm.Own(), lo, hi - lo, slack) {
      Spare(vm.sys.pool, vm.Own(), lo, hi - lo, slack);
    }
    ok := true;
  }

  /** Nothing of process `q` is in transit in one state and not in the other. */
  ghost predicate SameTransit(a: Sys, b: Sys, q: nat) { List(b, Transit(q)) == List(a, Transit(q)) }

  lemma TransitSame(a: Sys, q: nat)
    ensures SameTransit(a, a, q)
  {
  }

  lemma TransitWith(a: Sys, b: Sys, q: nat, p: Pool, s: Space)
    requires SameTransit(a, b, q)
    ensures SameTransit(a, WithSpace(b, q, p, s), q)
  {
  }

  lemma TransitAcross(a: Sys, b: Sys, c: Sys, q: nat)
    requires SameTransit(a, b, q) && Undisturbed(b, c, q)
    ensures SameTransit(a, c, q)
  {
  }

  lemma TransitMem(a: Sys, b: Sys, q: nat, mem: Memory)
    requires SameTransit(a, b, q)
    ensures SameTransit(a, b.(mem := mem), q)
  {
  }

  lemma InvContext(sys: Sys, q: nat)
    requires Inv(sys) && q in sys.spaces
    ensures Context(sys.pool, sys.spaces[q], sys.mem)
  {
    hide WellFormed, Simple, OnceEach, OnePlace;
    NextBound(sys);
    LoadSimple(sys, q);
    var s := sys.spaces[q];
    forall f | f in Load(sys.pool, s) ensures f in sys.mem {
      assert f in List(sys, Fresh) || f in List(sys, Free) || f in List(sys, Of(q));
      assert Held(sys, f);
    }
  }

  lemma SpanStep(sys: Sys, q: nat, s0: Space, lo: nat, hi: nat, page: nat, refuse: map<nat, nat>, slack: nat)
    requires Inv(sys) && q in sys.spaces && lo <= page < hi
    requires Around(s0, sys.spaces[q], lo, hi - lo, lo, page) && FlagsAre(sys.spaces[q], lo, page, STAGING)
    ensures var r := MapPage(sys.pool, sys.spaces[q], page, STAGING, Refusal(refuse, page));
      && Inv(WithSpace(sys, q, r.1, r.2))
      && (r.0 ==> Around(s0, r.2, lo, hi - lo, lo, page + 1) && FlagsAre(r.2, lo, page + 1, STAGING))
      && (OneRegion(lo, hi - lo) && Enough(sys.pool, sys.spaces[q], lo, hi - lo, hi - page + slack)
          && page !in s0.pages && page !in refuse ==>
            r.0 && Enough(r.1, r.2, lo, hi - lo, hi - page - 1 + slack))
  {
    hide Inv, Around, MapPage, FlagsAre, Enough, OneRegion, Context;
    InvContext(sys, q);
    MapStep(sys.pool, sys.spaces[q], s0, sys.mem, lo, hi, page, refuse, slack);
    AddPageInv(sys, q, page, STAGING, Refusal(refuse, page));
    var r := MapPage(sys.pool, sys.spaces[q], page, STAGING, Refusal(refuse, page));
    assert Step(sys, AddPage(q, page, STAGING, Refusal(refuse, page))) == WithSpace(sys, q, r.1, r.2);
  }

  lemma Spare(p: Pool, s: Space, first: nat, count: nat, slack: nat)
    requires count > 0 && Enough(p, s, first, count, slack)
    ensures Available(p) >= slack
  {
  }

  lemma AroundNone(s: Space, lo: nat, count: nat)
    requires Settled(s)
    ensures Around(s, s, lo, count, lo, lo) && FlagsAre(s, lo, lo, STAGING)
  {
    hide WellFormed, Tight, Exact;
  }

  lemma MapStep(p: Pool, s: Space, s0: Space, mem: Memory, lo: nat, hi: nat, page: nat,
                refuse: map<nat, nat>, slack: nat)
    requires Context(p, s, mem) && lo <= page < hi
    requires Around(s0, s, lo, hi - lo, lo, page) && FlagsAre(s, lo, page, STAGING)
    ensures var r := MapPage(p, s, page, STAGING, Refusal(refuse, page));
      && Context(r.1, r.2, mem) && r.1.next <= |r.1.frames| && Load(r.1, r.2) == Load(p, s)
      && (r.0 ==> Around(s0, r.2, lo, hi - lo, lo, page + 1) && FlagsAre(r.2, lo, page + 1, STAGING))
      && (OneRegion(lo, hi - lo) && Enough(p, s, lo, hi - lo, hi - page + slack)
          && page !in s0.pages && page !in refuse
          ==> r.0 && Enough(r.1, r.2, lo, hi - lo, hi - page - 1 + slack))
  {
    hide Around, MapPage, Load, Simple, Enough, OneRegion, WellFormed, InUse, Above;
    var r := MapPage(p, s, page, STAGING, Refusal(refuse, page));
    MapPageGrows(p, s, page, STAGING, Refusal(refuse, page));
    ContextMoved(p, s, r.1, r.2, mem, mem);
    if page !in s0.pages {
      AroundMap(s0, p, s, lo, hi - lo, lo, page, STAGING, Refusal(refuse, page));
      if OneRegion(lo, hi - lo) && Enough(p, s, lo, hi - lo, hi - page + slack) && page !in refuse {
        AbsentSoFar(s0, s, lo, hi - lo, page);
        MapEnough(p, s, page, STAGING, lo, hi - lo, hi - page - 1 + slack);
      }
    } else {
      PresentBefore(s0, s, lo, hi - lo, page);
    }
  }

  lemma AbsentSoFar(s0: Space, s: Space, lo: nat, count: nat, page: nat)
    requires Around(s0, s, lo, count, lo, page) && page !in s0.pages
    ensures page !in s.pages
  {
  }

  lemma PresentBefore(s0: Space, s: Space, lo: nat, count: nat, page: nat)
    requires Around(s0, s, lo, count, lo, page) && page in s0.pages
    ensures page in s.pages
  {
  }

  /** Zeroing a span and copying into it leaves file bytes where the file has them and zeros elsewhere. */
  lemma ImageWritten(a: Memory, b: Memory, s: Space, bytes: seq<byte>, h: ProgramHeader, g: nat)
    requires h.offset + h.filesz <= |bytes| && InSpan(h, g) && ZeroPage(a, s, g)
    requires Wrote(a, b, s, h.vaddr, bytes[h.offset..h.offset + h.filesz])
    ensures Contents(b, s, bytes, h, g)
  {
    var f, data := s.pages[g].frame, bytes[h.offset..h.offset + h.filesz];
    forall o | 0 <= o < PAGE_SIZE ensures b[f][o] == ImageByte(bytes, h, PAGE_SIZE * g + o) {
      ByteOf(a, s, g, o);
      ByteOf(b, s, g, o);
      WroteByte(a, b, s, h.vaddr, data, PAGE_SIZE * g + o);
    }
  }

  lemma WroteByte(a: Memory, b: Memory, s: Space, dest: nat, data: seq<byte>, x: nat)
    requires Wrote(a, b, s, dest, data) && Mapped(s, x)
    ensures s.pages[x / PAGE_SIZE].frame in a && s.pages[x / PAGE_SIZE].frame in b
    ensures ByteAt(b, s, x) == if dest <= x < dest + |data| then data[x - dest] else ByteAt(a, s, x)
  {
  }

  /** The staged span passes validation for its zeroing and for the copy, unless it is empty. */
  lemma SpanRanges(s: Space, bytes: seq<byte>, h: ProgramHeader)
    requires SegmentOk(bytes, h) && FlagsAre(s, Lo(h), Hi(h), STAGING) && Lo(h) < Hi(h)
    ensures RangeOk(s, PAGE_SIZE * Lo(h), PAGE_SIZE * (Hi(h) - Lo(h)), true)
    ensures RangeOk(s, h.vaddr, h.filesz, true)
  {
    RangeIsPages(s, Lo(h), Hi(h) - Lo(h), true);
    assert InRegion(h.vaddr);
    forall a: nat | h.vaddr <= a < h.vaddr + h.filesz ensures Accessible(s, a, true) {
      assert Lo(h) <= a / PAGE_SIZE < Hi(h);
    }
  }

  lemma EmptySpan(s: Space, bytes: seq<byte>, h: ProgramHeader)
    requires SegmentOk(bytes, h) && Lo(h) == Hi(h)
    ensures h.filesz == 0 && PAGE_SIZE * Lo(h) == h.vaddr
    ensures RangeOk(s, h.vaddr, 0, true) <==> InRegion(h.vaddr)
  {
  }

  lemma SpanBounds(bytes: seq<byte>, h: ProgramHeader)
    requires SegmentOk(bytes, h)
    ensures Lo(h) <= Hi(h) && PAGE_SIZE * Lo(h) <= h.vaddr && h.vaddr + h.filesz <= PAGE_SIZE * Hi(h)
    ensures h.offset + h.filesz <= |bytes|
    ensures PAGE_SIZE * Hi(h) <= USER_SPACE_END && h.vaddr <= U64_MAX && h.filesz <= U64_MAX
    ensures Lo(h) < Hi(h) ==> OneRegion(Lo(h), Hi(h) - Lo(h))
  {
  }

  method LoadSegment(vm: VmCalls.VmProcess, bytes: seq<byte>, h: ProgramHeader, refuse: map<nat, nat>, keep: set<nat>,
                     ghost s0: Space, ghost slack: nat)
    returns (ok: bool)
    requires vm.Alive() && vm.Own() == s0 && Settled(s0) && SegmentOk(bytes, h)
    modifies vm`sys, vm`script
    ensures vm.Alive() && Kept(old(vm.sys.mem), vm.sys.mem, s0.owned) && SameTransit(old(vm.sys), vm.sys, vm.pid)
    ensures ok ==> Settled(vm.Own()) && NewPages(s0, vm.Own(), Lo(h), Hi(h)) && s0.owned <= vm.Own().owned
    ensures ok ==> SegmentIn(vm.sys.mem, vm.Own(), bytes, h)
    ensures old(vm.script) == [] ==> vm.script == []
    ensures old(vm.script) == [] && Allowed(refuse, Lo(h), Hi(h)) && Changeable(keep, Lo(h), Hi(h)) ==>
              (old(Fits(vm.sys.pool, vm.Own(), Lo(h), Hi(h), slack)) ==> ok && Available(vm.sys.pool) >= slack)
  {
    hide Inv, Around, Settled, SegmentIn, Kept, NewPages, SegmentOk, Lo, Hi, FlagsAre, SegmentFlags, Contents,
      Available, SameTransit, Allowed, Changeable, Enough, OneRegion;
    SpanBounds(bytes, h);
    ok := MapSpan(vm, Lo(h), Hi(h), refuse, s0, slack);
    if !ok { return; }
    label Spanned: assert true;
    ok := FillSpan(vm, bytes, h, s0);
    KeptTrans(old(vm.sys.mem), old@Spanned(vm.sys.mem), vm.sys.mem, s0.owned);
    TransitTrans(old(vm.sys), old@Spanned(vm.sys), vm.sys, vm.pid);
    if !ok { return; }
    var flags := SegmentFlags(h.flags);
    if flags != STAGING {
      label Filled: assert true;
      ok := Narrow(vm, bytes, h, flags, keep, s0);
      KeptTrans(old(vm.sys.mem), old@Filled(vm.sys.mem), vm.sys.mem, s0.owned);
      TransitTrans(old(vm.sys), old@Filled(vm.sys), vm.sys, vm.pid);
      if !ok { return; }
    }
    SegmentDone(s0, vm.Own(), bytes, h, Lo(h), Hi(h), vm.sys.mem);
  }

  lemma TransitTrans(a: Sys, b: Sys, c: Sys, q: nat)
    requires SameTransit(a, b, q) && SameTransit(b, c, q)
    ensures SameTransit(a, c, q)
  {
  }

  /** Zeroes the staged span and copies the segment's file bytes into it. */
  method FillSpan(vm: VmCalls.VmProcess, bytes: seq<byte>, h: ProgramHeader, ghost s0: Space) returns (ok: bool)
    requires vm.Alive() && SegmentOk(bytes, h)
    requires Around(s0, vm.Own(), Lo(h), Hi(h) - Lo(h), Lo(h), Hi(h)) && FlagsAre(vm.Own(), Lo(h), Hi(h), STAGING)
    modifies vm`sys, vm`script
    ensures vm.Alive() && vm.Own() == old(vm.Own()) && Kept(old(vm.sys.mem), vm.sys.mem, s0.owned)
    ensures SameTransit(old(vm.sys), vm.sys, vm.pid)
    ensures Lo(h) < Hi(h) ==> ok
    ensures ok ==> forall g :: InSpan(h, g) ==> Contents(vm.sys.mem, vm.Own(), bytes, h, g)
    ensures old(vm.script) == [] ==> vm.script == [] && vm.sys.pool == old(vm.sys.pool)
  {
    hide Inv, Around, Kept, SegmentOk, Lo, Hi, FlagsAre, Wrote, RangeOk, ZeroBytes, Unshared, Backed, Contents,
      SameTransit, Context, ZeroPages, InSpan, SegmentFlags;
    SpanBounds(bytes, h);
    var lo, hi := Lo(h), Hi(h);
    InvContext(vm.sys, vm.pid);
    ContextBacked(vm.sys.pool, vm.Own(), vm.sys.mem);
    if lo < hi { SpanRanges(vm.Own(), bytes, h); } else { EmptySpan(vm.Own(), bytes, h); }
    ZeroLength(PAGE_SIZE * (hi - lo));
    TransitSame(vm.sys, vm.pid);
    VmCalls.KeptSame(vm.sys.mem, s0.owned);
    var zeroed, blank := WriteBytes(vm.sys.mem, vm.Own(), PAGE_SIZE * lo, ZeroBytes(PAGE_SIZE * (hi - lo)));
    if !zeroed { return false; }
    AfterZeroing(vm.sys.pool, vm.Own(), s0, vm.sys.mem, blank, lo, hi);
    SameKeys(vm.sys.mem, blank, vm.Own(), PAGE_SIZE * lo, ZeroBytes(PAGE_SIZE * (hi - lo)));
    VmCalls.MemoryInv(vm.sys, blank);
    TransitMem(old(vm.sys), vm.sys, vm.pid, blank);
    vm.sys := vm.sys.(mem := blank);
    label Zeroed: assert true;
    vm.Yield();
    VmCalls.KeptAround(s0, old(vm.sys.mem), old@Zeroed(vm.sys), vm.sys, vm.pid, lo, hi - lo, lo, hi);
    VmCalls.ZeroAcross(old@Zeroed(vm.sys), vm.sys, vm.pid, lo, hi - lo);
    TransitAcross(old(vm.sys), old@Zeroed(vm.sys), vm.sys, vm.pid);
    InvContext(vm.sys, vm.pid);
    ContextBacked(vm.sys.pool, vm.Own(), vm.sys.mem);
    var copied, full := WriteBytes(vm.sys.mem, vm.Own(), h.vaddr, bytes[h.offset..h.offset + h.filesz]);
    assert copied;
    AfterCopy(vm.sys.pool, vm.Own(), s0, old(vm.sys.mem), vm.sys.mem, full, bytes, h);
    SameKeys(vm.sys.mem, full, vm.Own(), h.vaddr, bytes[h.offset..h.offset + h.filesz]);
    VmCalls.MemoryInv(vm.sys, full);
    TransitMem(old(vm.sys), vm.sys, vm.pid, full);
    vm.sys := vm.sys.(mem := full);
    label Copied: assert true;
    vm.Yield();
    VmCalls.KeptAround(s0, old(vm.sys.mem), old@Copied(vm.sys), vm.sys, vm.pid, lo, hi - lo, lo, hi);
    ContentsAcross(old@Copied(vm.sys), vm.sys, vm.pid, bytes, h);
    TransitAcross(old(vm.sys), old@Copied(vm.sys), vm.sys, vm.pid);
    ok := true;
  }

  lemma SameKeys(a: Memory, b: Memory, s: Space, dest: nat, data: seq<byte>)
    requires Wrote(a, b, s, dest, data)
    ensures b.Keys == a.Keys
  {
  }

  lemma ContentsKept(a: Memory, b: Memory, s: Space, bytes: seq<byte>, h: ProgramHeader, g: nat)
    requires h.offset + h.filesz <= |bytes| && Contents(a, s, bytes, h, g) && WellFormed(s) && Kept(a, b, s.owned)
    ensures Contents(b, s, bytes, h, g)
  {
    hide Unshared, Rooted, ImageByte;
    assert Uses(s, Leaf(g), s.pages[g].frame);
  }

  lemma ContentsAcross(a: Sys, b: Sys, q: nat, bytes: seq<byte>, h: ProgramHeader)
    requires SegmentOk(bytes, h) && Inv(a) && Undisturbed(a, b, q)
    requires forall g :: InSpan(h, g) ==> Contents(a.mem, a.spaces[q], bytes, h, g)
    ensures forall g :: InSpan(h, g) ==> Contents(b.mem, b.spaces[q], bytes, h, g)
  {
    hide Inv, Contents, WellFormed, Kept, Lo, Hi;
    SpaceFormed(a, q);
    forall g | InSpan(h, g) ensures Contents(b.mem, b.spaces[q], bytes, h, g) {
      ContentsKept(a.mem, b.mem, a.spaces[q], bytes, h, g);
    }
  }

  lemma AfterZeroing(p: Pool, s: Space, s0: Space, mem0: Memory, blank: Memory, lo: nat, hi: nat)
    requires Context(p, s, mem0) && lo <= hi && Around(s0, s, lo, hi - lo, lo, hi)
    requires Wrote(mem0, blank, s, PAGE_SIZE * lo, ZeroBytes(PAGE_SIZE * (hi - lo)))
    ensures Context(p, s, blank) && Backed(blank, s) && Kept(mem0, blank, s0.owned) && ZeroPages(blank, s, lo, hi - lo)
  {
    hide Context, Kept, WellFormed, Exact, NewTables, ZeroPage, ZeroBytes, Load, Backed;
    AroundParts(s0, s, lo, hi - lo, lo, hi);
    ZeroLength(PAGE_SIZE * (hi - lo));
    assert forall g :: lo <= g < lo + 0 + (hi - lo) ==> g in s.pages;
    ZeroMore(mem0, blank, s, lo, 0, hi - lo);
    WroteKeeps(mem0, blank, s0, s, lo, hi, PAGE_SIZE * lo, ZeroBytes(PAGE_SIZE * (hi - lo)));
    ContextNext(p, s, mem0, blank);
    ContextBacked(p, s, blank);
  }

  lemma ContextNext(p: Pool, s: Space, mem: Memory, after: Memory)
    requires Context(p, s, mem) && after.Keys == mem.Keys
    ensures Context(p, s, after)
  {
    hide WellFormed, Load;
    ContextMoved(p, s, p, s, mem, after);
  }

  lemma AroundParts(s0: Space, s: Space, first: nat, count: nat, lo: nat, hi: nat)
    requires Around(s0, s, first, count, lo, hi)
    ensures WellFormed(s) && Exact(s) && s0.owned <= s.owned && NewPages(s0, s, lo, hi)
  {
  }

  lemma AfterCopy(p: Pool, s: Space, s0: Space, mem0: Memory, blank: Memory, full: Memory, bytes: seq<byte>,
                  h: ProgramHeader)
    requires SegmentOk(bytes, h) && Context(p, s, blank) && Kept(mem0, blank, s0.owned)
    requires Around(s0, s, Lo(h), Hi(h) - Lo(h), Lo(h), Hi(h)) && ZeroPages(blank, s, Lo(h), Hi(h) - Lo(h))
    requires Wrote(blank, full, s, h.vaddr, bytes[h.offset..h.offset + h.filesz])
    ensures Context(p, s, full) && Kept(mem0, full, s0.owned)
    ensures forall g :: InSpan(h, g) ==> Contents(full, s, bytes, h, g)
  {
    hide Context, Kept, WellFormed, Exact, NewTables, NewPages, ZeroPage, Load, Lo, Hi, Contents;
    SpanBounds(bytes, h);
    AroundParts(s0, s, Lo(h), Hi(h) - Lo(h), Lo(h), Hi(h));
    WroteKeeps(blank, full, s0, s, Lo(h), Hi(h), h.vaddr, bytes[h.offset..h.offset + h.filesz]);
    KeptTrans(mem0, blank, full, s0.owned);
    ContextNext(p, s, blank, full);
    forall g | InSpan(h, g) ensures Contents(full, s, bytes, h, g) {
      assert ZeroPage(blank, s, g);
      ImageWritten(blank, full, s, bytes, h, g);
    }
  }

  /** Replaces the staging permissions of the span, unless the mapper refuses one of its pages. */
  method Narrow(vm: VmCalls.VmProcess, bytes: seq<byte>, h: ProgramHeader, flags: Flags, keep: set<nat>,
                ghost s0: Space)
    returns (ok: bool)
    requires vm.Alive() && SegmentOk(bytes, h)
    requires Around(s0, vm.Own(), Lo(h), Hi(h) - Lo(h), Lo(h), Hi(h))
    requires forall g :: InSpan(h, g) ==> Contents(vm.sys.mem, vm.Own(), bytes, h, g)
    modifies vm`sys, vm`script
    ensures vm.Alive() && Kept(old(vm.sys.mem), vm.sys.mem, s0.owned) && SameTransit(old(vm.sys), vm.sys, vm.pid)
    ensures Around(s0, vm.Own(), Lo(h), Hi(h) - Lo(h), Lo(h), Hi(h))
    ensures ok <==> Changeable(keep, Lo(h), Hi(h))
    ensures ok ==> FlagsAre(vm.Own(), Lo(h), Hi(h), flags)
    ensures forall g :: InSpan(h, g) ==> Contents(vm.sys.mem, vm.Own(), bytes, h, g)
    ensures old(vm.script) == [] ==> vm.script == [] && vm.sys.pool == old(vm.sys.pool)
  {
    hide Inv, Around, Kept, Contents, Lo, Hi, SameTransit, SegmentOk, FlagsAre;
    SpanBounds(bytes, h);
    VmCalls.KeptSame(vm.sys.mem, s0.owned);
    TransitSame(vm.sys, vm.pid);
    NoFlags(vm.Own(), Lo(h), flags);
    var page := Lo(h);
    while page < Hi(h)
      invariant Lo(h) <= page <= Hi(h) && vm.Alive() && Kept(old(vm.sys.mem), vm.sys.mem, s0.owned)
      invariant SameTransit(old(vm.sys), vm.sys, vm.pid)
      invariant Around(s0, vm.Own(), Lo(h), Hi(h) - Lo(h), Lo(h), Hi(h)) && FlagsAre(vm.Own(), Lo(h), page, flags)
      invariant forall g :: InSpan(h, g) ==> Contents(vm.sys.mem, vm.Own(), bytes, h, g)
      invariant Changeable(keep, Lo(h), page)
      invariant old(vm.script) == [] ==> vm.script == [] && vm.sys.pool == old(vm.sys.pool)
    {
      if page in keep { return false; }
      NarrowStep(vm.sys, vm.pid, s0, bytes, h, page, flags);
      TransitWith(old(vm.sys), vm.sys, vm.pid, vm.sys.pool, WithFlags(vm.Own(), page, flags));
      vm.sys := WithSpace(vm.sys, vm.pid, vm.sys.pool, WithFlags(vm.Own(), page, flags));
      page := page + 1;
      label Before: assert true;
      vm.Yield();
      VmCalls.KeptAround(s0, old(vm.sys.mem), old@Before(vm.sys), vm.sys, vm.pid, Lo(h), Hi(h) - Lo(h), Lo(h), Hi(h));
      ContentsAcross(old@Before(vm.sys), vm.sys, vm.pid, bytes, h);
      TransitAcross(old(vm.sys), old@Before(vm.sys), vm.sys, vm.pid);
    }
    ok := true;
  }

  lemma NoFlags(s: Space, lo: nat, flags: Flags)
    ensures FlagsAre(s, lo, lo, flags)
  {
  }

  lemma NarrowStep(sys: Sys, q: nat, s0: Space, bytes: seq<byte>, h: ProgramHeader, page: nat, flags: Flags)
    requires SegmentOk(bytes, h) && Inv(sys) && q in sys.spaces && InSpan(h, page)
    requires Around(s0, sys.spaces[q], Lo(h), Hi(h) - Lo(h), Lo(h), Hi(h))
    requires FlagsAre(sys.spaces[q], Lo(h), page, flags)
    requires forall g :: InSpan(h, g) ==> Contents(sys.mem, sys.spaces[q], bytes, h, g)
    ensures page in sys.spaces[q].pages
    ensures var t := WithFlags(sys.spaces[q], page, flags);
      && Inv(WithSpace(sys, q, sys.pool, t))
      && Around(s0, t, Lo(h), Hi(h) - Lo(h), Lo(h), Hi(h)) && FlagsAre(t, Lo(h), page + 1, flags)
      && (forall g :: InSpan(h, g) ==> Contents(sys.mem, t, bytes, h, g))
  {
    hide Inv, Around, Lo, Hi, WellFormed, ImageByte;
    var s := sys.spaces[q];
    assert Contents(sys.mem, s, bytes, h, page);
    var t := WithFlags(s, page, flags);
    SpaceFormed(sys, q);
    FlagsFormed(s, page, flags);
    PagesOnlyInv(sys, q, t);
    AroundFlags(s0, s, Lo(h), Hi(h) - Lo(h), Lo(h), Hi(h), page, flags);
    forall g | InSpan(h, g) ensures Contents(sys.mem, t, bytes, h, g) { assert Contents(sys.mem, s, bytes, h, g); }
  }

  lemma SegmentDone(s0: Space, s: Space, bytes: seq<byte>, h: ProgramHeader, lo: nat, hi: nat, mem: Memory)
    requires SegmentOk(bytes, h) && Settled(s0) && lo == Lo(h) && hi == Hi(h) && lo <= hi
    requires Around(s0, s, lo, hi - lo, lo, hi) && FlagsAre(s, lo, hi, SegmentFlags(h.flags))
    requires forall g :: InSpan(h, g) ==> Contents(mem, s, bytes, h, g)
    ensures Settled(s) && NewPages(s0, s, lo, hi) && s0.owned <= s.owned && SegmentIn(mem, s, bytes, h)
  {
    hide WellFormed, Tight, Exact, Contents, FlagsAre, Lo, Hi;
    CompleteIsTight(s0, s, lo, hi - lo);
  }

  // ---- All segments ----

  ghost predicate SegmentsOk(bytes: seq<byte>, segments: seq<ProgramHeader>) {
    forall i :: 0 <= i < |segments| ==> SegmentOk(bytes, segments[i])
  }

  /** The first `k` segments are in place. */
  ghost predicate AllIn(mem: Memory, s: Space, bytes: seq<byte>, segments: seq<ProgramHeader>, k: nat)
    requires k <= |segments| && SegmentsOk(bytes, segments)
  {
    forall i :: 0 <= i < k ==> SegmentIn(mem, s, bytes, segments[i])
  }

  /** Which of the first `k` segments claim page `g`. */
  function Claims(segments: seq<ProgramHeader>, k: nat, g: nat): set<nat>
    requires k <= |segments|
  {
    set i | 0 <= i < k && InSpan(segments[i], g)
  }

  /** The mapped pages are those of `s0` and the spans of the first `k` segments, all disjoint. */
  ghost predicate PagesAre(s0: Space, s: Space, segments: seq<ProgramHeader>, k: nat)
    requires k <= |segments|
  {
    && (forall g :: g in s0.pages ==> g in s.pages && s.pages[g] == s0.pages[g] && Claims(segments, k, g) == {})
    && (forall g :: g in s.pages <==> g in s0.pages || Claims(segments, k, g) != {})
    && (forall g, i, j :: i in Claims(segments, k, g) && j in Claims(segments, k, g) ==> i == j)
  }

  lemma ClaimsMore(segments: seq<ProgramHeader>, k: nat, g: nat)
    requires k < |segments|
    ensures Claims(segments, k + 1, g) == Claims(segments, k, g) + if InSpan(segments[k], g) then {k} else {}
  {
  }

  lemma PagesMore(s0: Space, s: Space, t: Space, segments: seq<ProgramHeader>, k: nat)
    requires k < |segments| && PagesAre(s0, s, segments, k)
    requires NewPages(s, t, Lo(segments[k]), Hi(segments[k]))
    ensures PagesAre(s0, t, segments, k + 1)
  {
    hide Claims, Lo, Hi;
    forall g ensures Claims(segments, k + 1, g) == Claims(segments, k, g) + if InSpan(segments[k], g) then {k} else {} {
      ClaimsMore(segments, k, g);
    }
  }

  /** A segment already in place stays as it is while later segments are loaded. */
  lemma StaysIn(a: Memory, b: Memory, s: Space, t: Space, bytes: seq<byte>, h: ProgramHeader, lo: nat, hi: nat)
    requires h.offset + h.filesz <= |bytes| && SegmentIn(a, s, bytes, h) && WellFormed(s)
    requires NewPages(s, t, lo, hi) && Kept(a, b, s.owned)
    ensures SegmentIn(b, t, bytes, h)
  {
    hide Lo, Hi, Unshared, Rooted, ImageByte;
    forall g | InSpan(h, g) ensures Contents(b, t, bytes, h, g) {
      assert Contents(a, s, bytes, h, g);
      assert Uses(s, Leaf(g), s.pages[g].frame);
    }
  }

  lemma AllInMore(a: Memory, b: Memory, s: Space, t: Space, bytes: seq<byte>, segments: seq<ProgramHeader>, k: nat)
    requires SegmentsOk(bytes, segments) && k < |segments| && AllIn(a, s, bytes, segments, k) && WellFormed(s)
    requires NewPages(s, t, Lo(segments[k]), Hi(segments[k])) && Kept(a, b, s.owned)
    requires SegmentIn(b, t, bytes, segments[k])
    ensures AllIn(b, t, bytes, segments, k + 1)
  {
    hide SegmentIn, NewPages, Kept, WellFormed, Lo, Hi;
    forall i | 0 <= i < k ensures SegmentIn(b, t, bytes, segments[i]) {
      StaysIn(a, b, s, t, bytes, segments[i], Lo(segments[k]), Hi(segments[k]));
    }
  }

  /** Everything a successful load promises. */
  ghost predicate Loaded(s0: Space, mem0: Memory, s: Space, mem: Memory, bytes: seq<byte>)
    requires ImageOf(bytes).Ok?
  {
    var segments := ImageOf(bytes).value.segments;
    && SegmentsOk(bytes, segments)
    && PagesAre(s0, s, segments, |segments|)
    && AllIn(mem, s, bytes, segments, |segments|)
    && Kept(mem0, mem, s0.owned)
  }

  // ---- When a load succeeds ----

  /** The most frames a segment can take: its pages, the lowest tables above them, and two more tables. */
  function Worst(h: ProgramHeader): nat {
    if Lo(h) >= Hi(h) then 0
    else (Hi(h) - Lo(h)) + ((Hi(h) - 1) / PAGES_PER_P1 - Lo(h) / PAGES_PER_P1 + 1) + 2
  }

  function WorstFrom(segments: seq<ProgramHeader>, k: nat): nat
    requires k <= |segments|
    decreases |segments| - k
  {
    if k == |segments| then 0 else Worst(segments[k]) + WorstFrom(segments, k + 1)
  }

  /** No span is empty, no two share a page, none is taken, and the pool covers them all. */
  ghost predicate Loadable(p: Pool, s: Space, segments: seq<ProgramHeader>) {
    && (forall i :: 0 <= i < |segments| ==> Lo(segments[i]) < Hi(segments[i]))
    && (forall g :: g in s.pages ==> Claims(segments, |segments|, g) == {})
    && (forall g, i, j :: i in Claims(segments, |segments|, g) && j in Claims(segments, |segments|, g) ==> i == j)
    && Available(p) >= WorstFrom(segments, 0)
  }

  lemma WorstIsEnough(p: Pool, s: Space, bytes: seq<byte>, h: ProgramHeader, slack: nat)
    requires SegmentOk(bytes, h) && Lo(h) < Hi(h) && Available(p) >= Worst(h) + slack
    ensures OneRegion(Lo(h), Hi(h) - Lo(h)) && Enough(p, s, Lo(h), Hi(h) - Lo(h), Hi(h) - Lo(h) + slack)
  {
    hide Lo, Hi, SegmentOk, OneRegion;
    SpanBounds(bytes, h);
    MissingP1Bound(s, Lo(h) / PAGES_PER_P1, (Hi(h) - 1) / PAGES_PER_P1);
  }

  lemma NextFits(p0: Pool, s0: Space, p: Pool, s: Space, bytes: seq<byte>, segments: seq<ProgramHeader>, k: nat)
    requires k < |segments| && SegmentsOk(bytes, segments) && Loadable(p0, s0, segments)
    requires PagesAre(s0, s, segments, k) && Available(p) >= WorstFrom(segments, k)
    ensures Fits(p, s, Lo(segments[k]), Hi(segments[k]), WorstFrom(segments, k + 1))
  {
    hide Lo, Hi, SegmentOk, OneRegion, Enough, Available, Worst;
    var h := segments[k];
    WorstIsEnough(p, s, bytes, h, WorstFrom(segments, k + 1));
    forall g | Lo(h) <= g < Hi(h) ensures g !in s.pages {
      assert k in Claims(segments, |segments|, g);
      assert forall i :: i in Claims(segments, k, g) ==> i in Claims(segments, |segments|, g);
    }
  }

  method LoadImage(vm: VmCalls.VmProcess, bytes: seq<byte>, refuse: map<nat, nat>, keep: set<nat>)
    returns (r: Result<nat>)
    requires vm.Alive() && Settled(vm.Own()) && |bytes| <= U64_MAX
    modifies vm`sys, vm`script
    ensures vm.Alive() && Kept(old(vm.sys.mem), vm.sys.mem, old(vm.Own()).owned)
    ensures SameTransit(old(vm.sys), vm.sys, vm.pid)
    ensures ImageOf(bytes).Err? ==> r.Err? && vm.sys == old(vm.sys)
    ensures r.Ok? ==> ImageOf(bytes).Ok? && r.value == ImageOf(bytes).value.entry
    ensures r.Ok? ==> Settled(vm.Own()) && Loaded(old(vm.Own()), old(vm.sys.mem), vm.Own(), vm.sys.mem, bytes)
    ensures old(vm.script) == [] && refuse == map[] && keep == {} && ImageOf(bytes).Ok? ==>
              (Loadable(old(vm.sys.pool), old(vm.Own()), ImageOf(bytes).value.segments) ==> r.Ok?)
  {
    hide Inv, Loadable, Available, WorstFrom, Settled, AllIn, PagesAre, SegmentIn, SegmentOk, Kept, NewPages, ImageOf,
      Lo, Hi, Fits, SameTransit, Allowed, Changeable;
    ghost var p0, s0 := vm.sys.pool, vm.Own();
    TransitSame(vm.sys, vm.pid);
    VmCalls.KeptSame(vm.sys.mem, s0.owned);
    var parsed := ParseImage(bytes);
    if parsed.Err? { return Err; }
    var segments := parsed.value.segments;
    ImageSound(bytes);
    NothingIn(s0, vm.sys.mem, bytes, segments);
    ghost var easy := vm.script == [] && Loadable(p0, s0, segments) && refuse == map[] && keep == {};
    if easy { LoadableStart(p0, s0, segments); }
    for k := 0 to |segments|
      invariant vm.Alive() && Settled(vm.Own()) && SameTransit(old(vm.sys), vm.sys, vm.pid)
      invariant SegmentsOk(bytes, segments) && PagesAre(s0, vm.Own(), segments, k)
      invariant AllIn(vm.sys.mem, vm.Own(), bytes, segments, k)
      invariant Kept(old(vm.sys.mem), vm.sys.mem, s0.owned) && s0.owned <= vm.Own().owned
      invariant easy ==> vm.script == [] && Available(vm.sys.pool) >= WorstFrom(segments, k)
    {
      ghost var s := vm.Own();
      if easy { NextFits(p0, s0, vm.sys.pool, s, bytes, segments, k); NoneRefused(segments[k]); }
      label Before: assert true;
      var ok := LoadSegment(vm, bytes, segments[k], refuse, keep, s, WorstFrom(segments, k + 1));
      KeptFewer(old@Before(vm.sys.mem), vm.sys.mem, s.owned, s0.owned);
      KeptTrans(old(vm.sys.mem), old@Before(vm.sys.mem), vm.sys.mem, s0.owned);
      TransitTrans(old(vm.sys), old@Before(vm.sys), vm.sys, vm.pid);
      if !ok { return Err; }
      SettledFormed(s);
      PagesMore(s0, s, vm.Own(), segments, k);
      AllInMore(old@Before(vm.sys.mem), vm.sys.mem, s, vm.Own(), bytes, segments, k);
    }
    r := Ok(parsed.value.entry);
  }

  lemma NoneRefused(h: ProgramHeader)
    ensures Allowed(map[], Lo(h), Hi(h)) && Changeable({}, Lo(h), Hi(h))
  {
  }

  lemma LoadableStart(p: Pool, s: Space, segments: seq<ProgramHeader>)
    requires Loadable(p, s, segments)
    ensures Available(p) >= WorstFrom(segments, 0)
  {
  }

  lemma SettledFormed(s: Space)
    requires Settled(s)
    ensures WellFormed(s)
  {
  }

  lemma NothingIn(s: Space, mem: Memory, bytes: seq<byte>, segments: seq<ProgramHeader>)
    requires SegmentsOk(bytes, segments)
    ensures PagesAre(s, s, segments, 0) && AllIn(mem, s, bytes, segments, 0) && Kept(mem, mem, s.owned)
  {
    assert forall g :: Claims(segments, 0, g) == {};
  }
}
