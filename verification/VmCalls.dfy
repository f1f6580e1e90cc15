/**
 The anonymous-memory system calls of one process.

 Each call works in batches of four pages, one critical section per batch, and can
 be preempted between any two of them. What the other tasks do meanwhile is an
 arbitrary script of their own critical sections, so every statement about a call
 holds under every interleaving.
 */
module VmCalls {
  import opened Prelude
  import opened FrameAllocator
  import opened Ownership
  import opened PageTables
  import opened TableCleanup
  import opened UserMemory
  import opened MmapProofs
  import opened FrameConservation
  import opened Unmapping
  import opened UnmapRange
  import opened MunmapProofs
  import opened VmProofs
  import opened Admission

  const USER_MMAP_BASE := USER_SPACE_BASE + 0x1000_0000
  const USER_MMAP_LIMIT := USER_SPACE_BASE + USER_SPACE_SIZE - 0x10_0000
  const MAX_MMAP_LEN := 64 * 1024 * 1024
  const VM_BATCH_PAGES := 4
  const TABLE_CLEANUP_BATCH_PAGES := 512

  const STAGING := Flags(true, true, true, true)
  const READ_ONLY := Flags(true, false, true, true)

  function PageCountFor(len: nat): (r: Option<nat>)
    ensures r.Some? <==> 0 < len && len + 0xFFF <= U64_MAX
    ensures r.Some? ==> PAGE_SIZE * (r.value - 1) < len <= PAGE_SIZE * r.value
  {
    if len == 0 || len + 0xFFF > U64_MAX then None else Some((len + 0xFFF) / PAGE_SIZE)
  }

  /**
   The page index, counted from the start of the request, at which a phase is made to fail; `step` is the
   step of the mapper that refuses when mapping does.
   */
  datatype Faults = Faults(mapping: nat, step: nat, zeroing: nat, narrowing: nat, rollback: nat)

  /** How a request ends: with a region, refused without a trace, or in the fail-closed exit of the caller. */
  datatype Reply = Placed(start: nat) | Refused | Exited

  /** No phase that runs is made to fail. */
  predicate Faultless(faults: Faults, pages: nat, writable: bool) {
    faults.mapping >= pages && faults.zeroing >= pages && (writable || faults.narrowing >= pages)
  }

  /** Some phase is made to fail, and then the removal of a page that has been mapped. */
  predicate Stranded(faults: Faults, pages: nat, writable: bool) {
    !Faultless(faults, pages, writable) && faults.rollback < Min(faults.mapping, pages)
  }

  class VmProcess {
    const pid: nat
    var sys: Sys
    var mmapNext: nat
    var script: seq<seq<Event>>
    ghost var regions: seq<(nat, nat)>

    ghost predicate Alive()
      reads this
    {
      Inv(sys) && pid in sys.spaces
    }

    /** Between system calls. */
    ghost predicate Ready()
      reads this
    {
      && Alive() && Settled(sys.spaces[pid]) && List(sys, Transit(pid)) == []
      && USER_MMAP_BASE <= mmapNext <= USER_MMAP_LIMIT && mmapNext % PAGE_SIZE == 0
      && RegionsOk(regions, mmapNext)
    }

    function Own(): Space
      requires pid in sys.spaces
      reads this
    {
      sys.spaces[pid]
    }

    /** Interrupts are enabled for a moment: other tasks run some of their critical sections. */
    method Yield()
      requires Alive()
      modifies `sys, `script
      ensures Alive() && Undisturbed(old(sys), sys, pid)
      ensures old(script) == [] ==> script == [] && sys == old(sys)
    {
      hide Inv, Step, Undisturbed;
      StaysUndisturbed(sys, pid);
      if script == [] { return; }
      var others := script[0];
      script := script[1..];
      for i := 0 to |others|
        invariant Alive() && Undisturbed(old(sys), sys, pid)
      {
        if others[i].pid != pid {
          StepInv(sys, others[i]);
          StepElsewhere(sys, others[i], pid);
          UndisturbedTrans(old(sys), sys, Step(sys, others[i]), pid);
          UndisturbedAlive(sys, Step(sys, others[i]), pid);
          sys := Step(sys, others[i]);
        }
      }
    }

    /** Looks for pages already mapped in `[first, first + pages)`. */
    method CheckClear(first: nat, pages: nat) returns (clear: bool)
      requires Alive()
      modifies `sys, `script
      ensures Alive() && Undisturbed(old(sys), sys, pid)
      ensures old(script) == [] ==> script == [] && sys == old(sys)
      ensures clear <==> forall g :: first <= g < first + pages ==> g !in Own().pages
    {
      hide Inv;
      var checked := 0;
      Yield();
      while checked < pages
        invariant checked <= pages && Alive() && Undisturbed(old(sys), sys, pid)
        invariant old(script) == [] ==> script == [] && sys == old(sys)
        invariant forall g :: first <= g < first + checked ==> g !in Own().pages
      {
        var batch := Min(VM_BATCH_PAGES, pages - checked);
        if exists g :: first + checked <= g < first + checked + batch && g in Own().pages { return false; }
        assert forall g :: first <= g < first + checked + batch ==> g !in Own().pages;
        checked := checked + batch;
        label Before: assert true;
        Yield();
        UndisturbedTrans(old(sys), old@Before(sys), sys, pid);
        assert Own() == old@Before(Own());
      }
      clear := true;
    }

    /** One batch of the mapping loop, inside one critical section. */
    method MapBatch(first: nat, count: nat, from: nat, batch: nat, fault: nat, step: nat, ghost s0: Space)
      returns (done: nat)
      requires Alive() && first <= from && from + batch <= first + count
      requires Around(s0, Own(), first, count, first, from) && Staged(Own(), first, from)
      requires count > 0 && OneRegion(first, count) && forall g :: first <= g < first + count ==> g !in s0.pages
      modifies `sys
      ensures Alive() && done <= batch && sys.mem == old(sys.mem)
      ensures List(sys, Transit(pid)) == old(List(sys, Transit(pid)))
      ensures Around(s0, Own(), first, count, first, from + done) && Staged(Own(), first, from + done)
      ensures done == batch ==> !(from <= first + fault < from + batch)
      ensures old(Enough(sys.pool, Own(), first, count, first + count - from)) ==>
                && done == (if from <= first + fault < from + batch then first + fault - from else batch)
                && (done == batch ==> Enough(sys.pool, Own(), first, count, first + count - from - batch))
    {
      hide Inv, MapPage, Around, Staged, Step, Enough, OneRegion;
      done := 0;
      while done < batch
        invariant done <= batch && Alive()
        invariant sys.mem == old(sys.mem) && List(sys, Transit(pid)) == old(List(sys, Transit(pid)))
        invariant Around(s0, Own(), first, count, first, from + done) && Staged(Own(), first, from + done)
        invariant !(from <= first + fault < from + done)
        invariant old(Enough(sys.pool, Own(), first, count, first + count - from)) ==>
                    Enough(sys.pool, Own(), first, count, first + count - from - done)
      {
        var page := from + done;
        var refuse := if page - first == fault then step % NO_FAULT else NO_FAULT;
        var r := MapPage(sys.pool, Own(), page, STAGING, refuse);
        MapOne(sys, pid, s0, first, count, page, refuse);
        sys := WithSpace(sys, pid, r.1, r.2);
        if !r.0 { return; }
        done := done + 1;
      }
    }

    /** Maps the request batch by batch until a page fails. */
    method MapPages(first: nat, pages: nat, fault: nat, step: nat, ghost s0: Space) returns (mapped: nat)
      requires Alive() && Around(s0, Own(), first, pages, first, first)
      requires pages > 0 && OneRegion(first, pages) && forall g :: first <= g < first + pages ==> g !in s0.pages
      modifies `sys, `script
      ensures Alive() && mapped <= pages && List(sys, Transit(pid)) == old(List(sys, Transit(pid)))
      ensures Around(s0, Own(), first, pages, first, first + mapped) && Staged(Own(), first, first + mapped)
      ensures Kept(old(sys.mem), sys.mem, s0.owned)
      ensures mapped == pages ==> fault >= pages
      ensures old(script) == [] ==> script == []
      ensures old(script) == [] && old(Enough(sys.pool, Own(), first, pages, pages)) ==> mapped == Min(fault, pages)
    {
      hide Inv, Around, Staged, Kept, List, Enough, OneRegion;
      mapped := 0;
      StagedNone(Own(), first);
      KeptSame(sys.mem, s0.owned);
      while mapped < pages
        invariant mapped <= pages && Alive() && List(sys, Transit(pid)) == old(List(sys, Transit(pid)))
        invariant Around(s0, Own(), first, pages, first, first + mapped) && Staged(Own(), first, first + mapped)
        invariant Kept(old(sys.mem), sys.mem, s0.owned)
        invariant fault >= mapped && (old(script) == [] ==> script == [])
        invariant old(script) == [] && old(Enough(sys.pool, Own(), first, pages, pages))
          ==> Enough(sys.pool, Own(), first, pages, pages - mapped)
      {
        var batch := Min(VM_BATCH_PAGES, pages - mapped);
        var now := MapBatch(first, pages, first + mapped, batch, fault, step, s0);
        mapped := mapped + now;
        label Before: assert true;
        Yield();
        KeptAround(s0, old(sys.mem), old@Before(sys), sys, pid, first, pages, first, first + mapped);
        if now != batch { return; }
      }
    }

    /** Zeroes the mapped request batch by batch. */
    method ZeroMapped(first: nat, pages: nat, fault: nat, ghost s0: Space) returns (ok: bool)
      requires Alive() && pages > 0 && Around(s0, Own(), first, pages, first, first + pages)
      requires Staged(Own(), first, first + pages) && InArena(first, pages)
      modifies `sys, `script
      ensures Alive() && Own() == old(Own()) && List(sys, Transit(pid)) == old(List(sys, Transit(pid)))
      ensures ok <==> fault >= pages
      ensures ok ==> ZeroPages(sys.mem, Own(), first, pages)
      ensures Kept(old(sys.mem), sys.mem, s0.owned)
    {
      hide Inv, Around, Staged, Kept, List, ZeroPages, InArena, RangeOk, Wrote, Unshared, Backed;
      var zeroed := 0;
      KeptSame(sys.mem, s0.owned);
      ZeroNone(sys.mem, Own(), first);
      while zeroed < pages
        invariant zeroed <= pages && zeroed <= fault && Alive()
        invariant Own() == old(Own())
        invariant List(sys, Transit(pid)) == old(List(sys, Transit(pid)))
        invariant ZeroPages(sys.mem, Own(), first, zeroed)
        invariant Kept(old(sys.mem), sys.mem, s0.owned)
      {
        var batch := Min(VM_BATCH_PAGES, pages - zeroed);
        var address := PAGE_SIZE * (first + zeroed);
        ZeroReady(sys, pid, s0, first, pages, zeroed, batch);
        ZeroLength(PAGE_SIZE * batch);
        var done, mem := WriteBytes(sys.mem, Own(), address, ZeroBytes(PAGE_SIZE * batch));
        if zeroed <= fault < zeroed + batch { return false; }
        ZeroOne(sys, pid, s0, first, pages, zeroed, batch, mem);
        KeptTrans(old(sys.mem), sys.mem, mem, s0.owned);
        sys := sys.(mem := mem);
        zeroed := zeroed + batch;
        label Before: assert true;
        Yield();
        KeptAround(s0, old(sys.mem), old@Before(sys), sys, pid, first, pages, first, first + pages);
        ZeroAcross(old@Before(sys), sys, pid, first, zeroed);
        assert Own() == old@Before(Own());
      }
      ok := true;
    }

    /** Takes write permission away from the zeroed request batch by batch. */
    method NarrowMapped(first: nat, pages: nat, fault: nat, ghost s0: Space) returns (ok: bool)
      requires Alive() && Around(s0, Own(), first, pages, first, first + pages)
      requires Narrowed(Own(), first, 0, pages) && ZeroPages(sys.mem, Own(), first, pages)
      modifies `sys, `script
      ensures Alive() && List(sys, Transit(pid)) == old(List(sys, Transit(pid)))
      ensures Around(s0, Own(), first, pages, first, first + pages) && PagesPermit(Own(), first, pages, false)
      ensures ok <==> fault >= pages
      ensures ok ==> Narrowed(Own(), first, pages, pages) && ZeroPages(sys.mem, Own(), first, pages)
      ensures Kept(old(sys.mem), sys.mem, s0.owned)
    {
      hide Inv, Around, Kept, List, ZeroPages, Narrowed, PagesPermit;
      var done := 0;
      KeptSame(sys.mem, s0.owned);
      while done < pages
        invariant done <= pages && done <= fault && Alive() && List(sys, Transit(pid)) == old(List(sys, Transit(pid)))
        invariant Around(s0, Own(), first, pages, first, first + pages)
        invariant Narrowed(Own(), first, done, pages) && ZeroPages(sys.mem, Own(), first, pages)
        invariant Kept(old(sys.mem), sys.mem, s0.owned)
      {
        var end := done + Min(VM_BATCH_PAGES, pages - done);
        while done < end
          invariant done <= end <= pages && done <= fault && Alive()
          invariant List(sys, Transit(pid)) == old(List(sys, Transit(pid)))
          invariant Around(s0, Own(), first, pages, first, first + pages)
          invariant Narrowed(Own(), first, done, pages) && ZeroPages(sys.mem, Own(), first, pages)
          invariant Kept(old(sys.mem), sys.mem, s0.owned)
        {
          if done == fault {
            NarrowedPermits(Own(), first, done, pages);
            return false;
          }
          NarrowOne(sys, pid, s0, first, done, pages);
          sys := WithSpace(sys, pid, sys.pool, WithFlags(Own(), first + done, READ_ONLY));
          done := done + 1;
        }
        label Before: assert true;
        Yield();
        KeptAround(s0, old(sys.mem), old@Before(sys), sys, pid, first, pages, first, first + pages);
        ZeroAcross(old@Before(sys), sys, pid, first, pages);
      }
      NarrowedPermits(Own(), first, done, pages);
      ok := true;
    }

    /**
     Undoes a request of which the first `mapped` pages are in place; the mapper refuses to remove page
     `fault` of it, if there is one. `restored` tells whether every batch could be unmapped, and `after`
     is the frame count compared with the one before.
     */
    method Rollback(first: nat, mapped: nat, pages: nat, fault: nat, ghost s0: Space)
      returns (restored: bool, after: nat, ghost rolled: nat)
      requires Alive() && 0 < pages && mapped <= pages && InArena(first, pages) && Settled(s0)
      requires Around(s0, Own(), first, pages, first, first + mapped) && PagesPermit(Own(), first, mapped, false)
      modifies `sys, `script
      ensures Alive() && List(sys, Transit(pid)) == old(List(sys, Transit(pid)))
      ensures restored <==> fault >= mapped
      ensures restored ==> Own() == s0 && after == |s0.owned|
      ensures !restored ==> rolled <= fault < mapped && Around(s0, Own(), first, pages, first + rolled, first + mapped)
      ensures Kept(old(sys.mem), sys.mem, s0.owned)
    {
      hide Inv, Around, Kept, List, PagesPermit, InArena, Settled, RangeOk, WellFormed, Simple, Load, CleanUp;
      var done := 0;
      KeptSame(sys.mem, s0.owned);
      while done < mapped
        invariant done <= mapped && done <= fault
        invariant Alive() && List(sys, Transit(pid)) == old(List(sys, Transit(pid)))
        invariant Around(s0, Own(), first, pages, first + done, first + mapped)
        invariant PagesPermit(Own(), first + done, mapped - done, false)
        invariant Kept(old(sys.mem), sys.mem, s0.owned)
      {
        var batch := Min(VM_BATCH_PAGES, mapped - done);
        RollbackReady(sys, pid, first, pages, done, batch, mapped);
        var ok, q, t := UnmapRangeAtomic(sys.pool, Own(), PAGE_SIZE * (first + done), batch, fault - done);
        if !ok { return false, |Own().owned|, done; }
        PageStart(first + done);
        RollbackOne(sys, pid, s0, first, pages, done, batch, mapped, q);
        sys := WithSpace(sys, pid, q, t);
        done := done + batch;
        label Before: assert true;
        Yield();
        KeptAround(s0, old(sys.mem), old@Before(sys), sys, pid, first, pages, first + done, first + mapped);
      }
      RollbackLast(sys, pid, s0, first, pages, first + mapped);
      var r := CleanUp(sys.pool, Own(), first, pages);
      sys := WithSpace(sys, pid, r.0, r.1);
      return true, |Own().owned|, mapped;
    }

    /** Frames the request may need: its pages, the lowest tables it touches, and two tables above them. */
    static function WorstCase(start: nat, pages: nat): nat
      requires pages > 0
    {
      pages + ((start + PAGE_SIZE * pages - 1) / 0x20_0000 - start / 0x20_0000 + 1) + 2
    }

    /** Zeroes the mapped request and, unless it is to be writable, narrows it. */
    method Fill(first: nat, pages: nat, writable: bool, faults: Faults, ghost s0: Space) returns (ok: bool)
      requires Alive() && pages > 0 && Around(s0, Own(), first, pages, first, first + pages)
      requires Staged(Own(), first, first + pages) && InArena(first, pages)
      modifies `sys, `script
      ensures Alive() && List(sys, Transit(pid)) == old(List(sys, Transit(pid)))
      ensures Around(s0, Own(), first, pages, first, first + pages) && PagesPermit(Own(), first, pages, false)
      ensures Kept(old(sys.mem), sys.mem, s0.owned)
      ensures ok <==> faults.zeroing >= pages && (writable || faults.narrowing >= pages)
      ensures ok ==> ZeroPages(sys.mem, Own(), first, pages)
      ensures ok ==> if writable then Staged(Own(), first, first + pages) else Narrowed(Own(), first, pages, pages)
    {
      hide Inv, Around, Kept, List, ZeroPages, Staged, Narrowed, PagesPermit, InArena;
      ok := ZeroMapped(first, pages, faults.zeroing, s0);
      StagedPermits(Own(), first, pages);
      if ok && !writable {
        label Zeroed: assert true;
        StagedNarrowed(Own(), first, pages);
        ok := NarrowMapped(first, pages, faults.narrowing, s0);
        KeptTrans(old(sys.mem), old@Zeroed(sys.mem), sys.mem, s0.owned);
      }
    }

    /** The request is well formed, fits the arena, and finds its pages free and its worst case available. */
    predicate Admissible(len: nat)
      requires pid in sys.spaces && len <= U64_MAX
      reads this
    {
      0 < len <= MAX_MMAP_LEN &&
      var pages := PageCountFor(len).value;
      && mmapNext + PAGE_SIZE * pages <= USER_MMAP_LIMIT
      && Available(sys.pool) >= WorstCase(mmapNext, pages)
      && (forall g :: mmapNext / PAGE_SIZE <= g < mmapNext / PAGE_SIZE + pages ==> g !in Own().pages)
    }

    /**
     Grows the arena by `len` bytes, or changes nothing. If the mapper refuses to undo a failed request,
     the caller exits, with what could not be undone still in its address space.
     */
    method Mmap(len: nat, writable: bool, faults: Faults) returns (r: Reply)
      requires Ready() && len <= U64_MAX
      modifies `sys, `script, `mmapNext, `regions
      ensures Alive() && List(sys, Transit(pid)) == [] && Kept(old(sys.mem), sys.mem, old(Own()).owned)
      ensures !r.Exited? ==> Ready()
      ensures r.Refused? ==> Own() == old(Own()) && mmapNext == old(mmapNext) && regions == old(regions)
      ensures r.Placed? ==> PageCountFor(len).Some?
      ensures r.Placed? ==>
        && r.start == old(mmapNext) && mmapNext == r.start + PAGE_SIZE * PageCountFor(len).value
        && regions == old(regions) + [(r.start, mmapNext)]
        && Granted(old(Own()), Own(), sys.mem, r.start / PAGE_SIZE, PageCountFor(len).value, writable)
      ensures r.Exited? ==> PageCountFor(len).Some? && faults.rollback < PageCountFor(len).value
      ensures r.Exited? ==>
                Leftover(old(Own()), Own(), old(mmapNext) / PAGE_SIZE, PageCountFor(len).value, faults.rollback)
      ensures r.Placed? ==> old(Admissible(len)) && Faultless(faults, PageCountFor(len).value, writable)
      ensures r.Exited? ==> old(Admissible(len))
      ensures old(script) == [] && old(Admissible(len)) ==>
                && PageCountFor(len).Some?
                && (r.Placed? <==> Faultless(faults, PageCountFor(len).value, writable))
                && (r.Exited? <==> Stranded(faults, PageCountFor(len).value, writable))
    {
      hide Enough, Inv, Kept, List, Settled, Granted, WorstCase, Undisturbed, Faultless, Stranded, Leftover;
      KeptSame(sys.mem, Own().owned);
      if len == 0 || len > MAX_MMAP_LEN { return Refused; }
      var pages := PageCountFor(len).value;
      var start := mmapNext;
      var end := start + PAGE_SIZE * pages;
      if end > USER_MMAP_LIMIT { return Refused; }
      if Available(sys.pool) < WorstCase(start, pages) { return Refused; }
      ghost var s0 := Own();
      var first := start / PAGE_SIZE;
      var clear := CheckClear(first, pages);
      Resumed(old(sys), sys, pid);
      if !clear { return Refused; }
      if old(script) == [] { Admitted(sys.pool, s0, start, pages); }
      label Checked: assert true;
      r := MapRegion(first, pages, writable, faults, s0);
      KeptTrans(old(sys.mem), old@Checked(sys.mem), sys.mem, s0.owned);
      if !r.Placed? { return; }
      RegionsGrow(regions, start, end);
      mmapNext, regions := end, regions + [(start, end)];
    }

    /** Maps, zeroes and protects a free region of the arena, or undoes all of it. */
    method MapRegion(first: nat, pages: nat, writable: bool, faults: Faults, ghost s0: Space) returns (r: Reply)
      requires Alive() && pages > 0 && InArena(first, pages) && Settled(s0) && Own() == s0
      requires forall g :: first <= g < first + pages ==> g !in s0.pages
      modifies `sys, `script
      ensures Alive() && List(sys, Transit(pid)) == old(List(sys, Transit(pid)))
      ensures Kept(old(sys.mem), sys.mem, s0.owned)
      ensures r.Refused? ==> Own() == s0
      ensures r.Placed? ==> r.start == PAGE_SIZE * first && Settled(Own()) && Faultless(faults, pages, writable)
      ensures r.Placed? ==> Granted(s0, Own(), sys.mem, first, pages, writable)
      ensures r.Exited? ==> faults.rollback < pages && Leftover(s0, Own(), first, pages, faults.rollback)
      ensures old(script) == [] && old(Enough(sys.pool, Own(), first, pages, pages)) ==>
                && (r.Placed? <==> Faultless(faults, pages, writable))
                && (r.Exited? <==> Stranded(faults, pages, writable))
    {
      hide OneRegion, Enough, Inv, Around, Kept, List, ZeroPages, Settled, Staged, Narrowed, PagesPermit, Granted,
        NewPages, InArena, Leftover;
      AroundSelf(s0, first, pages);
      ArenaRegion(first, pages);
      var mapped := MapPages(first, pages, faults.mapping, faults.step, s0);
      if mapped != pages {
        StagedPermits(Own(), first, mapped);
        r := Undo(first, mapped, pages, faults.rollback, s0, old(sys.mem));
        return;
      }
      label Filled: assert true;
      var ok := Fill(first, pages, writable, faults, s0);
      KeptTrans(old(sys.mem), old@Filled(sys.mem), sys.mem, s0.owned);
      if !ok {
        r := Undo(first, pages, pages, faults.rollback, s0, old(sys.mem));
        return;
      }
      Complete(s0, Own(), sys.mem, first, pages, writable);
      r := Placed(PAGE_SIZE * first);
    }

    /** Captures the whole range before anything changes. */
    method Collect(ptr: nat, pages: nat) returns (r: Option<seq<Record>>)
      requires Alive() && ptr % PAGE_SIZE == 0 && USER_SPACE_BASE <= ptr && ptr + PAGE_SIZE * pages <= USER_SPACE_END
      modifies `sys, `script
      ensures Alive() && Undisturbed(old(sys), sys, pid)
      ensures old(script) == [] ==> script == [] && sys == old(sys)
      ensures r.Some? <==> PagesPermit(Own(), ptr / PAGE_SIZE, pages, false)
      ensures r.Some? ==> AllMapped(Own(), ptr / PAGE_SIZE, pages) && r.value == Records(Own(), ptr / PAGE_SIZE, pages)
    {
      hide Inv, Undisturbed, Records, RangeOk, Permits;
      var records: seq<Record> := [];
      var collected := 0;
      var first := ptr / PAGE_SIZE;
      Yield();
      RecordsNone(Own(), first);
      while collected < pages
        invariant collected <= pages && Alive() && Undisturbed(old(sys), sys, pid)
        invariant old(script) == [] ==> script == [] && sys == old(sys)
        invariant AllMapped(Own(), first, collected) && records == Records(Own(), first, collected)
        invariant PagesPermit(Own(), first, collected, false)
      {
        var batch := Min(VM_BATCH_PAGES, pages - collected);
        PageStart(first + collected);
        RangeIsPages(Own(), first + collected, batch, false);
        var more := CollectUnmapRecords(Own(), ptr + PAGE_SIZE * collected, batch, records);
        if more.None? { return None; }
        RecordsConcat(Own(), first, collected, batch);
        records := more.value;
        collected := collected + batch;
        label Before: assert true;
        Yield();
        UndisturbedTrans(old(sys), old@Before(sys), sys, pid);
        UndisturbedAlive(old@Before(sys), sys, pid);
      }
      r := Some(records);
    }

    /** Removes the leaves batch by batch; if the mapper refuses record `fault`, puts all of them back. */
    method RemoveAllLeaves(records: seq<Record>, fault: nat, ghost s0: Space) returns (ok: bool)
      requires Alive() && Own() == s0 && Matching(s0.pages, records)
      modifies `sys, `script
      ensures Alive() && List(sys, Transit(pid)) == old(List(sys, Transit(pid)))
      ensures Own() == if ok then Cut(s0, records, |records|) else s0
      ensures Kept(old(sys.mem), sys.mem, s0.owned)
      ensures ok <==> fault >= |records|
      ensures old(script) == [] ==> script == [] && (!ok ==> sys == old(sys))
    {
      hide Inv, Undisturbed, Matching, Kept, List, PagesOf;
      var removed := 0;
      CutNone(s0, records);
      KeptSame(sys.mem, s0.owned);
      while removed < |records|
        invariant removed <= |records| && removed <= fault
        invariant Alive() && List(sys, Transit(pid)) == old(List(sys, Transit(pid)))
        invariant Own() == Cut(s0, records, removed)
        invariant Kept(old(sys.mem), sys.mem, s0.owned)
        invariant old(script) == [] ==> script == [] && sys == old(sys).(spaces := old(sys).spaces[pid := Own()])
      {
        var end := Min(removed + VM_BATCH_PAGES, |records|);
        CutMatching(s0, records, removed, end);
        var done, left := UnmapRecordsAtomic(Own().pages, records[removed..end], fault - removed);
        if !done {
          label Refused: assert true;
          Yield();
          CutAcross(s0, records, removed, old(sys.mem), old@Refused(sys), sys, pid);
          MatchingPrefix(s0.pages, records, removed);
          var pages := RestoreUnmapRecords(Own().pages, records[..removed], s0.pages);
          RestoreInv(sys, pid, s0, old(sys));
          sys := WithSpace(sys, pid, sys.pool, Own().(pages := pages));
          return false;
        }
        CutMore(s0, records, removed, end);
        SpaceFormed(old(sys), pid);
        CutInv(sys, pid, s0, records, end);
        sys := WithSpace(sys, pid, sys.pool, Own().(pages := left));
        removed := end;
        label Before: assert true;
        Yield();
        CutAcross(s0, records, removed, old(sys.mem), old@Before(sys), sys, pid);
      }
      ok := true;
    }

    /** Carries the removal plan out in chunks, returning each chunk's frames in a section of its own. */
    method GiveUp(plan: seq<Removal>, ghost s0: Space, ghost first: nat, ghost count: nat)
      requires Alive() && WellFormed(s0) && Own() == Handed(s0, first, count, 0) && List(sys, Transit(pid)) == []
      requires plan == Plan(s0.owned, PageFrames(s0, first, count))
      modifies `sys, `script
      ensures Alive() && List(sys, Transit(pid)) == [] && Own() == WithoutPages(s0, first, count)
      ensures Kept(old(sys.mem), sys.mem, Own().owned)
    {
      hide Inv, Undisturbed, Handed, WithoutPages, Plan, PageFrames, Kept, List, WellFormed, Apply, Step, Enabled;
      var k := 0;
      KeptSame(sys.mem, Own().owned);
      while k < |plan|
        invariant k <= |plan| && Alive() && List(sys, Transit(pid)) == []
        invariant Own() == Handed(s0, first, count, k)
        invariant Kept(old(sys.mem), sys.mem, Own().owned)
      {
        var end := Min(k + VM_BATCH_PAGES, |plan|);
        HandOver(sys, pid, s0, first, count, k, end);
        HandedMore(s0, first, count, k, end);
        HandedShrinks(Own().owned, plan[k..end]);
        var removed, owned := RemoveUnmappedOwnership(Own().owned, plan[k..end]);
        assert removed;
        KeptSubset(old(sys.mem), sys.mem, Own().owned, owned);
        sys := Step(sys, Disown(pid, plan[k..end]));
        label Gone: assert true;
        Yield();
        AcrossYield(old(sys.mem), old@Gone(sys), sys, pid);
        HandBack(sys, pid);
        sys := Step(sys, ReleaseDisowned(pid));
        k := end;
        label Returned: assert true;
        Yield();
        AcrossYield(old(sys.mem), old@Returned(sys), sys, pid);
      }
      HandedAll(s0, first, count);
    }

    /** Reclaims the tables the range leaves empty, 512 pages at a time. */
    method SweepTables(first: nat, pages: nat, ghost s1: Space)
      requires Alive() && Swept(s1, Own(), first, pages)
      modifies `sys, `script
      ensures Alive() && List(sys, Transit(pid)) == old(List(sys, Transit(pid)))
      ensures Swept(s1, Own(), first + pages, 0)
      ensures Kept(old(sys.mem), sys.mem, Own().owned)
    {
      hide Inv, Undisturbed, Swept, Kept, List, CleanUp;
      var cleaned := 0;
      KeptSame(sys.mem, Own().owned);
      while cleaned < pages
        invariant cleaned <= pages && Alive() && List(sys, Transit(pid)) == old(List(sys, Transit(pid)))
        invariant Swept(s1, Own(), first + cleaned, pages - cleaned)
        invariant Kept(old(sys.mem), sys.mem, Own().owned)
      {
        var batch := Min(TABLE_CLEANUP_BATCH_PAGES, pages - cleaned);
        SweepOne(sys, pid, s1, first + cleaned, batch, pages - cleaned);
        var r := CleanUp(sys.pool, Own(), first + cleaned, batch);
        KeptSubset(old(sys.mem), sys.mem, Own().owned, r.1.owned);
        sys := WithSpace(sys, pid, r.0, r.1);
        cleaned := cleaned + batch;
        label Before: assert true;
        Yield();
        AcrossYield(old(sys.mem), old@Before(sys), sys, pid);
      }
    }

    /** Whole pages of the arena, all of them mapped for user access, none of which the mapper refuses. */
    predicate Removable(ptr: nat, len: nat, fault: nat)
      requires pid in sys.spaces
      reads this
    {
      && len > 0 && ptr % PAGE_SIZE == 0 && len % PAGE_SIZE == 0
      && USER_MMAP_BASE <= ptr && ptr + len <= mmapNext
      && PagesPermit(Own(), ptr / PAGE_SIZE, len / PAGE_SIZE, false) && fault >= len / PAGE_SIZE
    }

    /** Unmaps `[ptr, ptr + len)` entirely, or changes nothing. */
    method Munmap(ptr: nat, len: nat, fault: nat) returns (ok: bool)
      requires Ready() && ptr <= U64_MAX && len <= U64_MAX
      modifies `sys, `script
      ensures Ready() && Kept(old(sys.mem), sys.mem, Own().owned)
      ensures ok <==> old(Removable(ptr, len, fault))
      ensures ok ==> Unmapped(old(Own()), Own(), ptr / PAGE_SIZE, len / PAGE_SIZE)
      ensures !ok ==> Own() == old(Own())
      ensures !ok && old(script) == [] ==> sys == old(sys)
    {
      hide PagesPermit, Inv, Undisturbed, Swept, Kept, List, Records, Matching, Plan, PageFrames, WithoutPages,
        Unmapped, Settled, Handed, Cut;
      KeptSame(sys.mem, Own().owned);
      if len == 0 || ptr % PAGE_SIZE != 0 || len % PAGE_SIZE != 0 { return false; }
      if ptr + len > U64_MAX || ptr < USER_MMAP_BASE || ptr + len > mmapNext { return false; }
      ghost var s0 := Own();
      var first, pages := ptr / PAGE_SIZE, len / PAGE_SIZE;
      var collected := Collect(ptr, pages);
      Resumed(old(sys), sys, pid);
      if collected.None? { return false; }
      var records := collected.value;
      Prepared(sys, pid, first, pages);
      var frames := UnmapRecordFrames(records);
      SameMembers(frames.value, RecordFrames(records));
      label Collected: assert true;
      Yield();
      Resumed(old@Collected(sys), sys, pid);
      KeptTrans(old(sys.mem), old@Collected(sys.mem), sys.mem, s0.owned);
      var gone := set f | f in frames.value;
      assert gone == PageFrames(s0, first, pages);
      var plan := PlanUnmapOwnership(Own().owned, gone);
      label Planned: assert true;
      ok := RemoveAllLeaves(records, fault, s0);
      KeptTrans(old(sys.mem), old@Planned(sys.mem), sys.mem, s0.owned);
      if !ok { return; }
      ReadyToGive(s0, first, pages);
      label Cleared: assert true;
      GiveUp(plan.value, s0, first, pages);
      WithoutFewer(s0, first, pages);
      KeptSubset(old(sys.mem), old@Cleared(sys.mem), s0.owned, Own().owned);
      KeptTrans(old(sys.mem), old@Cleared(sys.mem), sys.mem, Own().owned);
      SweepStart(s0, first, pages);
      label Given: assert true;
      SweepTables(first, pages, WithoutPages(s0, first, pages));
      SweptFewer(WithoutPages(s0, first, pages), Own(), first + pages);
      KeptSubset(old(sys.mem), old@Given(sys.mem), old@Given(Own()).owned, Own().owned);
      KeptTrans(old(sys.mem), old@Given(sys.mem), sys.mem, Own().owned);
      SweepEnd(s0, Own(), first, pages, first + pages);
    }

    /**
     Rolls back and compares the frame counts. The comparison never fails; the caller exits exactly
     when the mapper refused a removal.
     */
    method Undo(first: nat, mapped: nat, pages: nat, fault: nat, ghost s0: Space, ghost start: Memory)
      returns (r: Reply)
      requires Alive() && 0 < pages && mapped <= pages && InArena(first, pages) && Settled(s0)
      requires Around(s0, Own(), first, pages, first, first + mapped) && PagesPermit(Own(), first, mapped, false)
      requires Kept(start, sys.mem, s0.owned)
      modifies `sys, `script
      ensures Alive() && List(sys, Transit(pid)) == old(List(sys, Transit(pid))) && Kept(start, sys.mem, s0.owned)
      ensures r == if fault >= mapped then Refused else Exited
      ensures r.Refused? ==> Own() == s0
      ensures r.Exited? ==> Leftover(s0, Own(), first, pages, fault)
    {
      hide Inv, Around, Kept, List, PagesPermit, InArena, Settled;
      var restored, count, rolled := Rollback(first, mapped, pages, fault, s0);
      KeptTrans(start, old(sys.mem), sys.mem, s0.owned);
      if !restored {
        assert Remains(s0, Own(), first, pages, fault, rolled, mapped);
        return Exited;
      }
      assert count == |s0.owned|;
      r := Refused;
    }
  }

  // ---- Regions and exits ----

  /** Every region granted so far ends before the next one starts, and before the arena's end. */
  ghost predicate RegionsOk(regions: seq<(nat, nat)>, end: nat) {
    && (forall i :: 0 <= i < |regions| ==> regions[i].0 < regions[i].1 <= end)
    && (forall i, j :: 0 <= i < j < |regions| ==> regions[i].1 <= regions[j].0)
  }

  lemma RegionsGrow(regions: seq<(nat, nat)>, start: nat, end: nat)
    requires RegionsOk(regions, start) && start < end
    ensures RegionsOk(regions + [(start, end)], end)
  {
  }

  /** Pages `[first + rolled, first + mapped)` of the request, page `fault` among them, are still mapped. */
  ghost predicate Remains(s0: Space, s: Space, first: nat, pages: nat, fault: nat, rolled: nat, mapped: nat) {
    rolled <= fault < mapped <= pages && Around(s0, s, first, pages, first + rolled, first + mapped)
  }

  /** What an exit in the middle of a rollback leaves: the old space plus the pages not yet removed. */
  ghost predicate Leftover(s0: Space, s: Space, first: nat, pages: nat, fault: nat) {
    exists rolled, mapped :: Remains(s0, s, first, pages, fault, rolled, mapped)
  }

  /** When an exited process's space is freed, every frame it owns returns to the pool and none is lost. */
  lemma ExitReturnsAll(sys: Sys, q: nat)
    requires Inv(sys) && q in sys.spaces && List(sys, Transit(q)) == []
    ensures var t := Step(sys, FreeSpace(q));
      && Inv(t) && t.lost == sys.lost && q !in t.spaces
      && t.pool.freed == sys.pool.freed + sys.spaces[q].owned
  {
    hide Inv;
    StepInv(sys, FreeSpace(q));
    LostStep(sys, FreeSpace(q));
  }

  // ---- Lemmas about single steps ----

  lemma KeptSubset(a: Memory, b: Memory, frames: seq<nat>, fewer: seq<nat>)
    requires Kept(a, b, frames) && forall f :: f in fewer ==> f in frames
    ensures Kept(a, b, fewer)
  {
  }

  lemma AcrossYield(start: Memory, a: Sys, b: Sys, pid: nat)
    requires Undisturbed(a, b, pid) && Kept(start, a.mem, a.spaces[pid].owned)
    ensures b.spaces[pid] == a.spaces[pid] && List(b, Transit(pid)) == List(a, Transit(pid))
    ensures Kept(start, b.mem, b.spaces[pid].owned)
  {
    hide Kept;
    KeptTrans(start, a.mem, b.mem, a.spaces[pid].owned);
  }

  lemma HandedShrinks(owned: seq<nat>, removals: seq<Removal>)
    requires Apply(owned, removals).Some?
    ensures forall f :: f in Apply(owned, removals).value ==> f in owned
  {
    ApplyMoves(owned, removals);
    var left := Apply(owned, removals).value;
    forall f | f in left ensures f in owned { assert f in multiset(left) && f in multiset(owned); }
  }

  lemma SweepOne(sys: Sys, pid: nat, s1: Space, from: nat, batch: nat, count: nat)
    requires Inv(sys) && pid in sys.spaces && 0 < batch <= count && Swept(s1, sys.spaces[pid], from, count)
    ensures var r := CleanUp(sys.pool, sys.spaces[pid], from, batch);
      && Inv(WithSpace(sys, pid, r.0, r.1))
      && List(WithSpace(sys, pid, r.0, r.1), Transit(pid)) == List(sys, Transit(pid))
      && Swept(s1, r.1, from + batch, count - batch)
      && forall f :: f in r.1.owned ==> f in sys.spaces[pid].owned
  {
    hide Conserved, CleanUp, Simple, Load, WellFormed, Swept, Drop, Freed, FewerTables, Childless, Touched;
    var s := sys.spaces[pid];
    var r := CleanUp(sys.pool, s, from, batch);
    NextBound(sys);
    LoadSimple(sys, pid);
    CleanInv(sys, pid, from, batch);
    assert Step(sys, Clean(pid, from, batch)) == WithSpace(sys, pid, r.0, r.1);
    SweepStep(sys.pool, s1, s, from, batch, count);
    CleanUpShrinks(sys.pool, s, from, batch);
    forall f | f in r.1.owned ensures f in s.owned { DropMember(s.owned, Freed(s, r.1), f); }
  }

  lemma SweptFewer(s1: Space, s: Space, from: nat)
    requires Swept(s1, s, from, 0)
    ensures forall f :: f in s.owned ==> f in s1.owned
  {
    hide WellFormed, Exact, Drop, Freed, FewerTables, Childless, Touched;
    forall f | f in s.owned ensures f in s1.owned { DropMember(s1.owned, Freed(s1, s), f); }
  }

  lemma WithoutFewer(s: Space, first: nat, count: nat)
    ensures forall f :: f in WithoutPages(s, first, count).owned ==> f in s.owned
  {
    hide Drop, PageFrames;
    forall f | f in WithoutPages(s, first, count).owned ensures f in s.owned {
      DropMember(s.owned, PageFrames(s, first, count), f);
    }
  }

  /** The captured range can be planned for: distinct frames, all of them owned. */
  lemma Prepared(sys: Sys, pid: nat, first: nat, pages: nat)
    requires Inv(sys) && pid in sys.spaces && AllMapped(sys.spaces[pid], first, pages)
    ensures var s := sys.spaces[pid]; var records := Records(s, first, pages);
      && Matching(s.pages, records) && |records| == pages && NoDup(RecordFrames(records))
      && (forall f :: f in RecordFrames(records) <==> f in PageFrames(s, first, pages))
      && |Plan(s.owned, PageFrames(s, first, pages))| == |PageFrames(s, first, pages)|
  {
    hide Conserved, Simple, Load, WellFormed, Records, RecordFrames, PageFrames, Plan, NoDup;
    var s := sys.spaces[pid];
    NextBound(sys);
    LoadSimple(sys, pid);
    SpaceFormed(sys, pid);
    OwnedNoDup(sys.pool, s);
    RecordsMatch(s, first, pages);
    RecordsLength(s, first, pages);
    RecordsFrames(s, first, pages);
    FramesOwned(s, first, pages);
    PlanCompleteIff(s.owned, PageFrames(s, first, pages));
  }

  lemma ReadyToGive(s: Space, first: nat, pages: nat)
    requires Settled(s) && AllMapped(s, first, pages)
    ensures WellFormed(s) && |Records(s, first, pages)| == pages
    ensures Cut(s, Records(s, first, pages), pages) == Handed(s, first, pages, 0)
  {
    hide WellFormed, Tight, Exact, Records, PageFrames, Drop, Plan;
    CutAll(s, first, pages);
    HandedNone(s, first, pages);
  }

  lemma RecordsNone(s: Space, first: nat)
    ensures AllMapped(s, first, 0) && Records(s, first, 0) == []
  {
  }

  lemma MatchingPrefix(pages: map<nat, Entry>, records: seq<Record>, k: nat)
    requires Matching(pages, records) && k <= |records|
    ensures Matching(pages, records[..k])
  {
  }

  lemma CutAcross(s0: Space, records: seq<Record>, k: nat, start: Memory, a: Sys, b: Sys, pid: nat)
    requires k <= |records| && Undisturbed(a, b, pid) && a.spaces[pid] == Cut(s0, records, k)
    requires Kept(start, a.mem, s0.owned)
    ensures b.spaces[pid] == a.spaces[pid] && List(b, Transit(pid)) == List(a, Transit(pid))
    ensures Kept(start, b.mem, s0.owned)
  {
    hide List, Kept, PagesOf;
    KeptTrans(start, a.mem, b.mem, s0.owned);
  }

  lemma RestoreInv(sys: Sys, pid: nat, s0: Space, before: Sys)
    requires Inv(sys) && pid in sys.spaces && s0.owned == sys.spaces[pid].owned
    requires Inv(before) && pid in before.spaces && before.spaces[pid] == s0
    ensures Inv(WithSpace(sys, pid, sys.pool, s0))
    ensures List(WithSpace(sys, pid, sys.pool, s0), Transit(pid)) == List(sys, Transit(pid))
  {
    hide Inv;
    SpaceFormed(before, pid);
    PagesOnlyInv(sys, pid, s0);
  }

  /** The pages of the request, and only they, are new: zeroed and with the permissions asked for. */
  ghost predicate Granted(s0: Space, s: Space, mem: Memory, first: nat, pages: nat, writable: bool) {
    && NewPages(s0, s, first, first + pages)
    && (forall g :: first <= g < first + pages ==> s.pages[g].flags == if writable then STAGING else READ_ONLY)
    && ZeroPages(mem, s, first, pages)
  }

  lemma Resumed(a: Sys, b: Sys, pid: nat)
    requires Undisturbed(a, b, pid)
    ensures b.spaces[pid] == a.spaces[pid] && List(b, Transit(pid)) == List(a, Transit(pid))
    ensures Kept(a.mem, b.mem, a.spaces[pid].owned)
  {
  }

  lemma AroundSelf(s: Space, first: nat, pages: nat)
    requires Settled(s)
    ensures Around(s, s, first, pages, first, first)
  {
    hide WellFormed, Tight, Exact;
  }

  lemma StagedPermits(s: Space, first: nat, pages: nat)
    requires Staged(s, first, first + pages)
    ensures PagesPermit(s, first, pages, false)
  {
  }

  lemma StagedNarrowed(s: Space, first: nat, pages: nat)
    requires Staged(s, first, first + pages)
    ensures Narrowed(s, first, 0, pages)
  {
  }

  lemma Complete(s0: Space, s: Space, mem: Memory, first: nat, pages: nat, writable: bool)
    requires Settled(s0) && Around(s0, s, first, pages, first, first + pages) && ZeroPages(mem, s, first, pages)
    requires if writable then Staged(s, first, first + pages) else Narrowed(s, first, pages, pages)
    ensures Settled(s) && Granted(s0, s, mem, first, pages, writable)
  {
    hide WellFormed, Tight, Exact, ZeroPages;
    CompleteIsTight(s0, s, first, pages);
  }

  /** The first `k` pages of the request are read-only, the others still staged. */
  ghost predicate Narrowed(s: Space, first: nat, k: nat, pages: nat) {
    forall g :: first <= g < first + pages ==>
      g in s.pages && s.pages[g].flags == if g < first + k then READ_ONLY else STAGING
  }

  lemma NarrowedPermits(s: Space, first: nat, k: nat, pages: nat)
    requires Narrowed(s, first, k, pages)
    ensures PagesPermit(s, first, pages, false)
  {
  }

  lemma NarrowOne(sys: Sys, pid: nat, s0: Space, first: nat, done: nat, pages: nat)
    requires Inv(sys) && pid in sys.spaces && done < pages
    requires Around(s0, sys.spaces[pid], first, pages, first, first + pages)
    requires Narrowed(sys.spaces[pid], first, done, pages) && ZeroPages(sys.mem, sys.spaces[pid], first, pages)
    ensures first + done in sys.spaces[pid].pages
    ensures var t := WithFlags(sys.spaces[pid], first + done, READ_ONLY);
      && Inv(WithSpace(sys, pid, sys.pool, t))
      && List(WithSpace(sys, pid, sys.pool, t), Transit(pid)) == List(sys, Transit(pid))
      && Around(s0, t, first, pages, first, first + pages)
      && Narrowed(t, first, done + 1, pages) && ZeroPages(sys.mem, t, first, pages)
  {
    hide Inv, Around, WellFormed;
    var s := sys.spaces[pid];
    var t := WithFlags(s, first + done, READ_ONLY);
    SpaceFormed(sys, pid);
    FlagsFormed(s, first + done, READ_ONLY);
    PagesOnlyInv(sys, pid, t);
    AroundFlags(s0, s, first, pages, first, first + pages, first + done, READ_ONLY);
    forall g | first <= g < first + pages ensures ZeroPage(sys.mem, t, g) { assert ZeroPage(sys.mem, s, g); }
  }

  lemma RollbackReady(sys: Sys, pid: nat, first: nat, pages: nat, rolled: nat, batch: nat, mapped: nat)
    requires Inv(sys) && pid in sys.spaces && 0 < batch && rolled + batch <= mapped <= pages && InArena(first, pages)
    requires PagesPermit(sys.spaces[pid], first + rolled, mapped - rolled, false)
    ensures sys.pool.next <= |sys.pool.frames| && Simple(Load(sys.pool, sys.spaces[pid])) && WellFormed(sys.spaces[pid])
    ensures PAGE_SIZE * (first + rolled) <= U64_MAX && batch <= U64_MAX
    ensures RangeOk(sys.spaces[pid], PAGE_SIZE * (first + rolled), PAGE_SIZE * batch, false)
  {
    hide Conserved, WellFormed, Simple, Load, RangeOk, Permits;
    NextBound(sys);
    LoadSimple(sys, pid);
    SpaceFormed(sys, pid);
    RangeIsPages(sys.spaces[pid], first + rolled, batch, false);
  }

  lemma RollbackOne(sys: Sys, pid: nat, s0: Space, first: nat, pages: nat, rolled: nat, batch: nat, mapped: nat,
                    q: Pool)
    requires Inv(sys) && pid in sys.spaces && rolled + batch <= mapped <= pages
    requires Around(s0, sys.spaces[pid], first, pages, first + rolled, first + mapped)
    requires PagesPermit(sys.spaces[pid], first + rolled, mapped - rolled, false)
    requires sys.pool.next <= |sys.pool.frames| && q == sys.pool.(freed := q.freed)
    requires Load(q, WithoutPages(sys.spaces[pid], first + rolled, batch)) == Load(sys.pool, sys.spaces[pid])
    ensures var t := WithoutPages(sys.spaces[pid], first + rolled, batch);
      && Inv(WithSpace(sys, pid, q, t))
      && List(WithSpace(sys, pid, q, t), Transit(pid)) == List(sys, Transit(pid))
      && Around(s0, t, first, pages, first + rolled + batch, first + mapped)
      && PagesPermit(t, first + rolled + batch, mapped - rolled - batch, false)
  {
    hide Inv, Around, WellFormed, Load, Drop, PageFrames, Permits;
    var s := sys.spaces[pid];
    SpaceFormed(sys, pid);
    WithoutPagesFormed(s, first + rolled, batch);
    WithSpaceInv(sys, pid, q, WithoutPages(s, first + rolled, batch));
    AroundUnmap(s0, s, first, pages, first + rolled, batch, first + mapped);
  }

  lemma KeptAround(s0: Space, start: Memory, a: Sys, b: Sys, pid: nat, first: nat, count: nat, lo: nat, hi: nat)
    requires Undisturbed(a, b, pid) && Kept(start, a.mem, s0.owned)
    requires Around(s0, a.spaces[pid], first, count, lo, hi)
    ensures b.spaces[pid] == a.spaces[pid] && List(b, Transit(pid)) == List(a, Transit(pid))
    ensures Kept(start, b.mem, s0.owned)
  {
    hide List, Kept, WellFormed, Exact, NewTables, NewPages;
    KeptFewer(a.mem, b.mem, a.spaces[pid].owned, s0.owned);
    KeptTrans(start, a.mem, b.mem, s0.owned);
  }

  lemma RollbackLast(sys: Sys, pid: nat, s0: Space, first: nat, pages: nat, x: nat)
    requires Inv(sys) && pid in sys.spaces && 0 < pages && Settled(s0)
    requires Around(s0, sys.spaces[pid], first, pages, x, x)
    ensures var r := CleanUp(sys.pool, sys.spaces[pid], first, pages);
      && r.1 == s0 && Inv(WithSpace(sys, pid, r.0, r.1))
      && List(WithSpace(sys, pid, r.0, r.1), Transit(pid)) == List(sys, Transit(pid))
  {
    hide Conserved, Around, Settled, CleanUp, Simple, Load, WellFormed;
    NextBound(sys);
    LoadSimple(sys, pid);
    RollbackExact(s0, sys.pool, sys.spaces[pid], first, pages, x);
    CleanInv(sys, pid, first, pages);
    var r := CleanUp(sys.pool, sys.spaces[pid], first, pages);
    assert Step(sys, Clean(pid, first, pages)) == WithSpace(sys, pid, r.0, r.1);
  }

  ghost predicate InArena(first: nat, pages: nat) {
    USER_MMAP_BASE <= PAGE_SIZE * first && PAGE_SIZE * (first + pages) <= USER_MMAP_LIMIT
  }

  lemma StagedNone(s: Space, first: nat)
    ensures Staged(s, first, first)
  {
  }

  lemma KeptSame(mem: Memory, frames: seq<nat>)
    ensures Kept(mem, mem, frames)
  {
  }

  lemma ZeroNone(mem: Memory, s: Space, first: nat)
    ensures ZeroPages(mem, s, first, 0)
  {
  }

  lemma ZeroAcross(a: Sys, b: Sys, pid: nat, first: nat, count: nat)
    requires Undisturbed(a, b, pid) && Inv(a) && ZeroPages(a.mem, a.spaces[pid], first, count)
    ensures ZeroPages(b.mem, b.spaces[pid], first, count)
  {
    hide Kept, WellFormed, ZeroPages, Conserved, List;
    SpaceFormed(a, pid);
    ZeroKept(a.mem, b.mem, a.spaces[pid], first, count);
  }

  lemma BackedInv(sys: Sys, pid: nat)
    requires Inv(sys) && pid in sys.spaces
    ensures Backed(sys.mem, sys.spaces[pid])
  {
    hide Rooted, Unshared, NoDup, OnceEach, OnePlace;
    var s := sys.spaces[pid];
    forall g | g in s.pages ensures s.pages[g].frame in sys.mem {
      assert Uses(s, Leaf(g), s.pages[g].frame);
      assert s.pages[g].frame in List(sys, Of(pid));
      assert Held(sys, s.pages[g].frame);
    }
  }

  /** The batch about to be zeroed passes validation. */
  lemma ZeroReady(sys: Sys, pid: nat, s0: Space, first: nat, pages: nat, done: nat, batch: nat)
    requires Inv(sys) && pid in sys.spaces && 0 < batch && done + batch <= pages && InArena(first, pages)
    requires Around(s0, sys.spaces[pid], first, pages, first, first + pages)
    requires Staged(sys.spaces[pid], first, first + pages)
    ensures Backed(sys.mem, sys.spaces[pid]) && Unshared(sys.spaces[pid])
    ensures PAGE_SIZE * (first + done) <= U64_MAX && PAGE_SIZE * batch <= U64_MAX
    ensures RangeOk(sys.spaces[pid], PAGE_SIZE * (first + done), PAGE_SIZE * batch, true)
  {
    hide RangeOk, Inv, Covered, Rooted, Exact, NewTables, NewPages;
    BackedInv(sys, pid);
    RangeIsPages(sys.spaces[pid], first + done, batch, true);
  }

  lemma ZeroOne(sys: Sys, pid: nat, s0: Space, first: nat, pages: nat, done: nat, batch: nat, mem: Memory)
    requires Inv(sys) && pid in sys.spaces && done + batch <= pages
    requires Around(s0, sys.spaces[pid], first, pages, first, first + pages)
    requires ZeroPages(sys.mem, sys.spaces[pid], first, done)
    requires Wrote(sys.mem, mem, sys.spaces[pid], PAGE_SIZE * (first + done), ZeroBytes(PAGE_SIZE * batch))
    ensures Inv(sys.(mem := mem)) && List(sys.(mem := mem), Transit(pid)) == List(sys, Transit(pid))
    ensures ZeroPages(mem, sys.spaces[pid], first, done + batch)
    ensures Kept(sys.mem, mem, s0.owned)
  {
    hide Inv, WellFormed, Exact, ZeroPages, Kept, ZeroBytes, NewTables;
    var s := sys.spaces[pid];
    ZeroLength(PAGE_SIZE * batch);
    assert forall g :: first <= g < first + pages ==> g in s.pages;
    WroteKeeps(sys.mem, mem, s0, s, first, first + pages, PAGE_SIZE * (first + done), ZeroBytes(PAGE_SIZE * batch));
    ZeroMore(sys.mem, mem, s, first, done, batch);
    MemoryInv(sys, mem);
  }

  lemma MemoryInv(sys: Sys, mem: Memory)
    requires Inv(sys) && mem.Keys == sys.mem.Keys
    ensures Inv(sys.(mem := mem))
  {
    hide WellFormed, NoDup;
    var t := sys.(mem := mem);
    assert forall p :: List(t, p) == List(sys, p);
    assert forall f :: Held(t, f) <==> Held(sys, f);
    assert forall f :: f in sys.mem.Keys <==> f in mem.Keys;
  }

  lemma StaysUndisturbed(sys: Sys, q: nat)
    requires q in sys.spaces
    ensures Undisturbed(sys, sys, q)
  {
  }

  lemma UndisturbedAlive(a: Sys, b: Sys, q: nat)
    requires Undisturbed(a, b, q)
    ensures q in b.spaces && b.spaces[q] == a.spaces[q]
  {
  }

  ghost predicate Staged(s: Space, lo: nat, hi: nat) {
    forall g :: lo <= g < hi ==> g in s.pages && s.pages[g].flags == STAGING
  }

  lemma MapOne(sys: Sys, pid: nat, s0: Space, first: nat, count: nat, page: nat, fault: nat)
    requires Inv(sys) && pid in sys.spaces && first <= page < first + count
    requires Around(s0, sys.spaces[pid], first, count, first, page) && Staged(sys.spaces[pid], first, page)
    requires page !in s0.pages && OneRegion(first, count)
    ensures var r := MapPage(sys.pool, sys.spaces[pid], page, STAGING, fault);
      && Inv(WithSpace(sys, pid, r.1, r.2))
      && Around(s0, r.2, first, count, first, if r.0 then page + 1 else page)
      && Staged(r.2, first, if r.0 then page + 1 else page)
      && (r.0 ==> fault >= NO_FAULT)
      && (fault == NO_FAULT && Enough(sys.pool, sys.spaces[pid], first, count, first + count - page)
          ==> r.0 && Enough(r.1, r.2, first, count, first + count - page - 1))
  {
    hide Conserved, Around, Simple, Load, Grows, Enough, OneRegion, BuildPath, Allocate, Remove;
    NextBound(sys);
    LoadSimple(sys, pid);
    var s := sys.spaces[pid];
    var r := MapPage(sys.pool, s, page, STAGING, fault);
    AddPageInv(sys, pid, page, STAGING, fault);
    AroundMap(s0, sys.pool, s, first, count, first, page, STAGING, fault);
    MapPageGrows(sys.pool, s, page, STAGING, fault);
    assert Step(sys, AddPage(pid, page, STAGING, fault)) == WithSpace(sys, pid, r.1, r.2);
    if fault < NO_FAULT { RefusedFails(sys.pool, s, page, STAGING, fault); }
    if fault == NO_FAULT && Enough(sys.pool, s, first, count, first + count - page) {
      NotYetMapped(s0, s, first, count, page);
      MapEnough(sys.pool, s, page, STAGING, first, count, first + count - page - 1);
    }
  }

  lemma NotYetMapped(s0: Space, s: Space, first: nat, count: nat, page: nat)
    requires Around(s0, s, first, count, first, page) && page !in s0.pages
    ensures page !in s.pages
  {
  }

  /** The worst-case estimate is an upper bound of what the mapping loop takes. */
  lemma Admitted(p: Pool, s: Space, start: nat, pages: nat)
    requires pages > 0 && start % PAGE_SIZE == 0 && Available(p) >= VmProcess.WorstCase(start, pages)
    ensures Enough(p, s, start / PAGE_SIZE, pages, pages)
  {
    hide Enough, Available;
    WorstCaseCovers(p, s, start / PAGE_SIZE, pages, VmProcess.WorstCase(start, pages));
  }

  lemma ArenaRegion(first: nat, pages: nat)
    requires InArena(first, pages) && pages > 0
    ensures OneRegion(first, pages)
  {
  }
}
