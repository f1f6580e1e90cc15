/**
 Every physical frame is in exactly one place, over every run of the memory
 system: the frame pool, the address spaces of any number of processes, and the
 frames a process has given up but not yet returned.
 Each event is one critical section of the kernel.
 */
module FrameConservation {
  import opened FrameAllocator
  import opened Ownership
  import opened PageTables
  import opened TableCleanup
  import opened UserMemory

  datatype Sys = Sys(
    pool: Pool,
    kernel: seq<nat>,
    spaces: map<nat, Space>,
    transit: map<nat, seq<nat>>,
    lost: seq<nat>,
    mem: Memory)

  /** Where a frame can be. */
  datatype Place = Fresh | Free | Kernel | Of(pid: nat) | Transit(pid: nat) | Lost

  function List(sys: Sys, p: Place): seq<nat> {
    match p
    case Fresh => if sys.pool.next <= |sys.pool.frames| then sys.pool.frames[sys.pool.next..] else []
    case Free => sys.pool.freed
    case Kernel => sys.kernel
    case Of(q) => if q in sys.spaces then sys.spaces[q].owned else []
    case Transit(q) => if q in sys.transit then sys.transit[q] else []
    case Lost => sys.lost
  }

  ghost predicate Held(sys: Sys, f: nat) { exists p :: f in List(sys, p) }

  ghost predicate OnePlace(sys: Sys) {
    forall a, b, f :: f in List(sys, a) && f in List(sys, b) ==> a == b
  }

  ghost predicate OnceEach(sys: Sys) { forall p :: NoDup(List(sys, p)) }

  ghost predicate AllHeld(sys: Sys) { forall f :: f in sys.pool.frames <==> Held(sys, f) }

  /** Each usable frame is in exactly one place, and there exactly once. */
  ghost predicate Conserved(sys: Sys) {
    && sys.pool.next <= |sys.pool.frames| && NoDup(sys.pool.frames)
    && OnceEach(sys) && OnePlace(sys) && AllHeld(sys)
  }

  ghost predicate SpacesOk(sys: Sys) {
    forall q :: q in sys.spaces ==> WellFormed(sys.spaces[q])
  }

  ghost predicate MemoryOk(sys: Sys) { forall f :: f in sys.pool.frames ==> f in sys.mem }

  ghost predicate Inv(sys: Sys) { Conserved(sys) && SpacesOk(sys) && MemoryOk(sys) }

  // ---- Events ----

  datatype Event =
    | NewSpace(pid: nat)
    | AddPage(pid: nat, page: nat, flags: Flags, fault: nat)
    | SetFlags(pid: nat, page: nat, flags: Flags)
    | Store(pid: nat, page: nat, data: FrameData)
    | RemoveLeaves(pid: nat, pages: set<nat>)
    | RestoreLeaf(pid: nat, page: nat, entry: Entry)
    | Disown(pid: nat, removals: seq<Removal>)
    | ReleaseDisowned(pid: nat)
    | Clean(pid: nat, first: nat, count: nat)
    | FreeSpace(pid: nat)

  predicate Busy(s: Space, f: nat) {
    || f == s.root
    || (exists n :: n in s.tables && s.tables[n] == f)
    || (exists g :: g in s.pages && s.pages[g].frame == f)
  }

  lemma BusyIsInUse(s: Space, f: nat)
    ensures Busy(s, f) <==> InUse(s, f)
  {
    if f == s.root { assert Uses(s, Root, f); }
    if n :| n in s.tables && s.tables[n] == f { assert Uses(s, Table(n), f); }
    if g :| g in s.pages && s.pages[g].frame == f { assert Uses(s, Leaf(g), f); }
  }

  predicate Enabled(sys: Sys, e: Event) {
    match e
    case NewSpace(q) => q !in sys.spaces && List(sys, Transit(q)) == []
    case AddPage(q, _, _, _) => q in sys.spaces
    case SetFlags(q, page, _) => q in sys.spaces && page in sys.spaces[q].pages
    case Store(q, page, _) => q in sys.spaces && page in sys.spaces[q].pages
    case RemoveLeaves(q, _) => q in sys.spaces
    case RestoreLeaf(q, page, entry) =>
      && q in sys.spaces && page !in sys.spaces[q].pages && P1(page / PAGES_PER_P1) in sys.spaces[q].tables
      && entry.frame in sys.spaces[q].owned && !Busy(sys.spaces[q], entry.frame)
    case Disown(q, removals) =>
      && q in sys.spaces && List(sys, Transit(q)) == []
      && Apply(sys.spaces[q].owned, removals).Some?
      && (forall i :: 0 <= i < |removals| ==> !Busy(sys.spaces[q], removals[i].frame))
    case ReleaseDisowned(q) => q in sys.spaces && q in sys.transit
    case Clean(q, _, count) => q in sys.spaces && count > 0
    case FreeSpace(q) => q in sys.spaces
  }

  function WithSpace(sys: Sys, q: nat, p: Pool, s: Space): Sys {
    sys.(pool := p, spaces := sys.spaces[q := s])
  }

  function Step(sys: Sys, e: Event): Sys {
    if !Enabled(sys, e) then sys
    else
      match e
      case NewSpace(q) =>
        var a := Allocate(sys.pool);
        if a.0.None? then sys else WithSpace(sys, q, a.1, Space(a.0.value, map[], map[], [a.0.value]))
      case AddPage(q, page, flags, fault) =>
        var r := MapPage(sys.pool, sys.spaces[q], page, flags, fault);
        WithSpace(sys, q, r.1, r.2)
      case SetFlags(q, page, flags) =>
        var s := sys.spaces[q];
        WithSpace(sys, q, sys.pool, s.(pages := s.pages[page := Entry(s.pages[page].frame, flags)]))
      case Store(q, page, data) =>
        sys.(mem := sys.mem[sys.spaces[q].pages[page].frame := data])
      case RemoveLeaves(q, pages) =>
        WithSpace(sys, q, sys.pool, sys.spaces[q].(pages := sys.spaces[q].pages - pages))
      case RestoreLeaf(q, page, entry) =>
        WithSpace(sys, q, sys.pool, sys.spaces[q].(pages := sys.spaces[q].pages[page := entry]))
      case Disown(q, removals) =>
        sys.(spaces := sys.spaces[q := sys.spaces[q].(owned := Apply(sys.spaces[q].owned, removals).value)],
             transit := sys.transit[q := FramesOf(removals)])
      case ReleaseDisowned(q) =>
        sys.(pool := sys.pool.(freed := sys.pool.freed + sys.transit[q]), transit := sys.transit[q := []])
      case Clean(q, first, count) =>
        var r := CleanUp(sys.pool, sys.spaces[q], first, count);
        WithSpace(sys, q, r.0, r.1)
      case FreeSpace(q) =>
        sys.(pool := sys.pool.(freed := sys.pool.freed + sys.spaces[q].owned),
             spaces := sys.spaces - {q},
             lost := sys.lost + List(sys, Transit(q)),
             transit := sys.transit - {q})
  }

  /** A frame the bump cursor has passed is in exactly one place, and that place is not ahead of the cursor. */
  lemma IssuedFrame(sys: Sys, i: nat) returns (p: Place)
    requires Conserved(sys) && i < sys.pool.next
    ensures p != Fresh && sys.pool.frames[i] in List(sys, p)
    ensures forall r :: sys.pool.frames[i] in List(sys, r) ==> r == p
  {
    var f := sys.pool.frames[i];
    assert f in sys.pool.frames;
    p :| f in List(sys, p);
  }

  // ---- Moving frames among the places one process can reach ----

  predicate Reach(q: nat, p: Place) { p in {Fresh, Free, Lost, Of(q), Transit(q)} }

  ghost function Share(sys: Sys, q: nat): multiset<nat> {
    multiset(List(sys, Fresh)) + multiset(List(sys, Free)) + multiset(List(sys, Of(q)))
    + multiset(List(sys, Transit(q))) + multiset(List(sys, Lost))
  }

  /** Nothing outside the reach of `q` changed, and inside it frames only moved. */
  ghost predicate Local(a: Sys, b: Sys, q: nat) {
    && b.pool.frames == a.pool.frames && b.pool.next <= |b.pool.frames|
    && (forall p :: !Reach(q, p) ==> List(b, p) == List(a, p))
    && Share(b, q) == Share(a, q)
  }

  predicate SameElsewhere(a: Sys, b: Sys, q: nat) {
    && b.kernel == a.kernel && b.mem == a.mem
    && a.spaces - {q} == b.spaces - {q}
    && a.transit - {q} == b.transit - {q}
  }

  lemma OthersUntouched(a: Sys, b: Sys, q: nat, p: Place)
    requires SameElsewhere(a, b, q) && !Reach(q, p)
    ensures List(b, p) == List(a, p)
  {
    match p
    case Of(r) => assert r in a.spaces - {q} <==> r in a.spaces; assert r in b.spaces - {q} <==> r in b.spaces;
      if r in a.spaces { assert (a.spaces - {q})[r] == (b.spaces - {q})[r]; }
    case Transit(r) => assert r in a.transit - {q} <==> r in a.transit; assert r in b.transit - {q} <==> r in b.transit;
      if r in a.transit { assert (a.transit - {q})[r] == (b.transit - {q})[r]; }
    case _ =>
  }

  lemma LocalFrom(a: Sys, b: Sys, q: nat)
    requires SameElsewhere(a, b, q) && Share(b, q) == Share(a, q)
    requires b.pool.frames == a.pool.frames && b.pool.next <= |b.pool.frames|
    ensures Local(a, b, q)
  {
    hide List, Share, Reach, SameElsewhere;
    forall p | !Reach(q, p) ensures List(b, p) == List(a, p) { OthersUntouched(a, b, q, p); }
  }

  lemma InShare(sys: Sys, q: nat, f: nat)
    ensures f in Share(sys, q) <==> exists p :: Reach(q, p) && f in List(sys, p)
  {
    if f in Share(sys, q) {
      if f in List(sys, Fresh) { assert Reach(q, Fresh); }
      else if f in List(sys, Free) { assert Reach(q, Free); }
      else if f in List(sys, Of(q)) { assert Reach(q, Of(q)); }
      else if f in List(sys, Transit(q)) { assert Reach(q, Transit(q)); }
      else { assert Reach(q, Lost) && f in List(sys, Lost); }
    }
  }

  lemma ShareSimple(sys: Sys, q: nat)
    requires OnceEach(sys) && OnePlace(sys)
    ensures Simple(Share(sys, q))
  {
    hide List;
    forall f ensures Share(sys, q)[f] <= 1 {
      NoDupCount(List(sys, Fresh), f);
      NoDupCount(List(sys, Free), f);
      NoDupCount(List(sys, Of(q)), f);
      NoDupCount(List(sys, Transit(q)), f);
      NoDupCount(List(sys, Lost), f);
    }
  }

  lemma CountInShare(sys: Sys, q: nat, a: Place, f: nat)
    requires Reach(q, a)
    ensures multiset(List(sys, a))[f] <= Share(sys, q)[f]
  {
  }

  lemma CountBoth(sys: Sys, q: nat, a: Place, b: Place, f: nat)
    requires Reach(q, a) && Reach(q, b) && a != b
    ensures multiset(List(sys, a))[f] + multiset(List(sys, b))[f] <= Share(sys, q)[f]
  {
    hide List;
  }

  lemma LocalOnceEach(a: Sys, b: Sys, q: nat)
    requires Local(a, b, q) && Conserved(a)
    ensures OnceEach(b)
  {
    hide List, Share, Reach;
    ShareSimple(a, q);
    forall p ensures NoDup(List(b, p)) {
      if Reach(q, p) {
        forall f ensures multiset(List(b, p))[f] <= 1 { CountInShare(b, q, p, f); }
        SimpleNoDup(List(b, p));
      }
    }
  }

  lemma LocalOnePlace(a: Sys, b: Sys, q: nat)
    requires Local(a, b, q) && Conserved(a)
    ensures OnePlace(b)
  {
    hide List, Share, Reach, NoDup;
    ShareSimple(a, q);
    forall x, y, f | f in List(b, x) && f in List(b, y) ensures x == y {
      if Reach(q, x) && Reach(q, y) {
        if x != y { CountBoth(b, q, x, y, f); }
      } else if Reach(q, x) || Reach(q, y) {
        InShare(a, q, f);
        InShare(b, q, f);
      }
    }
  }

  lemma LocalAllHeld(a: Sys, b: Sys, q: nat)
    requires Local(a, b, q) && Conserved(a)
    ensures AllHeld(b)
  {
    hide List, Share, Reach, NoDup;
    forall f ensures Held(b, f) <==> Held(a, f) {
      InShare(a, q, f);
      InShare(b, q, f);
    }
  }

  lemma LocalConserves(a: Sys, b: Sys, q: nat)
    requires Local(a, b, q) && Conserved(a)
    ensures Conserved(b)
  {
    LocalOnceEach(a, b, q);
    LocalOnePlace(a, b, q);
    LocalAllHeld(a, b, q);
  }

  // ---- Each event moves frames and keeps every space well formed ----

  lemma LoadSimple(sys: Sys, q: nat)
    requires Conserved(sys) && q in sys.spaces
    ensures Simple(Load(sys.pool, sys.spaces[q]))
  {
    hide NoDup;
    ShareSimple(sys, q);
    forall f ensures Load(sys.pool, sys.spaces[q])[f] <= 1 { assert Share(sys, q)[f] <= 1; }
  }

  lemma WithSpaceLocal(sys: Sys, q: nat, p: Pool, s: Space)
    requires q in sys.spaces && sys.pool.next <= |sys.pool.frames|
    requires p.next <= |p.frames| && p.frames == sys.pool.frames
    requires Load(p, s) == Load(sys.pool, sys.spaces[q])
    ensures Local(sys, WithSpace(sys, q, p, s), q)
  {
    hide List, Load, Share, SameElsewhere;
    WithSpaceShare(sys, q, p, s);
    WithSpaceElsewhere(sys, q, p, s);
    LocalFrom(sys, WithSpace(sys, q, p, s), q);
  }

  lemma WithSpaceElsewhere(sys: Sys, q: nat, p: Pool, s: Space)
    ensures SameElsewhere(sys, WithSpace(sys, q, p, s), q)
  {
  }

  /** The frames of the pool and three lists. */
  ghost function Total(p: Pool, own: seq<nat>, transit: seq<nat>, lost: seq<nat>): multiset<nat>
    requires p.next <= |p.frames|
  {
    multiset(Obtainable(p)) + multiset(own) + (multiset(transit) + multiset(lost))
  }

  lemma ShareIs(sys: Sys, q: nat)
    requires sys.pool.next <= |sys.pool.frames|
    ensures Share(sys, q) == Total(sys.pool, List(sys, Of(q)), List(sys, Transit(q)), sys.lost)
  {
    var ahead, back := multiset(sys.pool.frames[sys.pool.next..]), multiset(sys.pool.freed);
    Regroup5(ahead, back, multiset(List(sys, Of(q))), multiset(List(sys, Transit(q))), multiset(sys.lost));
  }

  lemma Regroup5(a: multiset<nat>, b: multiset<nat>, c: multiset<nat>, d: multiset<nat>, e: multiset<nat>)
    ensures a + b + c + d + e == ((b + a) + c) + (d + e)
  {
  }

  lemma WithSpaceShare(sys: Sys, q: nat, p: Pool, s: Space)
    requires q in sys.spaces && sys.pool.next <= |sys.pool.frames|
    requires p.next <= |p.frames| && p.frames == sys.pool.frames
    requires Load(p, s) == Load(sys.pool, sys.spaces[q])
    ensures Share(WithSpace(sys, q, p, s), q) == Share(sys, q)
  {
    hide Share, Obtainable;
    ShareIs(sys, q);
    ShareIs(WithSpace(sys, q, p, s), q);
  }

  lemma LocalFromTotal(a: Sys, b: Sys, q: nat)
    requires a.pool.next <= |a.pool.frames| && b.pool.next <= |b.pool.frames|
    requires SameElsewhere(a, b, q) && b.pool.frames == a.pool.frames
    requires Total(b.pool, List(b, Of(q)), List(b, Transit(q)), b.lost)
          == Total(a.pool, List(a, Of(q)), List(a, Transit(q)), a.lost)
    ensures Local(a, b, q)
  {
    hide List, Share, SameElsewhere, Total;
    ShareIs(a, q);
    ShareIs(b, q);
    LocalFrom(a, b, q);
  }

  lemma TakeTotal(p: Pool, lost: seq<nat>)
    requires p.next <= |p.frames| && Allocate(p).0.Some?
    ensures Allocate(p).1.next <= |p.frames| && Allocate(p).1.frames == p.frames
    ensures Total(Allocate(p).1, [Allocate(p).0.value], [], lost) == Total(p, [], [], lost)
  {
    hide Allocate, Obtainable;
    AllocateMoves(p);
  }

  lemma DisownTotal(p: Pool, owned: seq<nat>, removals: seq<Removal>, lost: seq<nat>)
    requires p.next <= |p.frames| && Apply(owned, removals).Some?
    ensures Total(p, Apply(owned, removals).value, FramesOf(removals), lost) == Total(p, owned, [], lost)
  {
    hide Apply, Obtainable, FramesOf;
    ApplyMoves(owned, removals);
  }

  lemma ReturnTotal(p: Pool, own: seq<nat>, transit: seq<nat>, lost: seq<nat>)
    requires p.next <= |p.frames|
    ensures Total(p.(freed := p.freed + transit), own, [], lost) == Total(p, own, transit, lost)
  {
    ObtainableMore(p, transit);
  }

  lemma FreeTotal(p: Pool, own: seq<nat>, transit: seq<nat>, lost: seq<nat>)
    requires p.next <= |p.frames|
    ensures Total(p.(freed := p.freed + own), [], [], lost + transit) == Total(p, own, transit, lost)
  {
    ObtainableMore(p, own);
  }

  lemma ObtainableMore(p: Pool, more: seq<nat>)
    requires p.next <= |p.frames|
    ensures multiset(Obtainable(p.(freed := p.freed + more))) == multiset(Obtainable(p)) + multiset(more)
  {
  }

  lemma WithSpaceInv(sys: Sys, q: nat, p: Pool, s: Space)
    requires Inv(sys) && q in sys.spaces && WellFormed(s)
    requires p.next <= |p.frames| && p.frames == sys.pool.frames
    requires Load(p, s) == Load(sys.pool, sys.spaces[q])
    ensures Inv(WithSpace(sys, q, p, s))
  {
    hide Conserved, WellFormed, Load, Local;
    NextBound(sys);
    WithSpaceLocal(sys, q, p, s);
    LocalConserves(sys, WithSpace(sys, q, p, s), q);
  }

  lemma NextBound(sys: Sys)
    requires Conserved(sys)
    ensures sys.pool.next <= |sys.pool.frames|
  {
  }

  lemma NewSpaceInv(sys: Sys, q: nat)
    requires Inv(sys) && q !in sys.spaces && Allocate(sys.pool).0.Some?
    ensures Inv(Step(sys, NewSpace(q)))
  {
    hide Conserved, Inv, Total, WellFormed, Local, Allocate;
    var e := NewSpace(q);
    if Enabled(sys, e) {
      assert Conserved(sys) && SpacesOk(sys) && MemoryOk(sys) by { InvParts(sys); }
      NextBound(sys);
      TakeTotal(sys.pool, sys.lost);
      RootOnly(Allocate(sys.pool).0.value);
      var t := Step(sys, e);
      LocalFromTotal(sys, t, q);
      LocalConserves(sys, t, q);
      InvFrom(t);
    }
  }

  lemma InvParts(sys: Sys)
    requires Inv(sys)
    ensures Conserved(sys) && SpacesOk(sys) && MemoryOk(sys)
  {
  }

  lemma InvFrom(sys: Sys)
    requires Conserved(sys) && SpacesOk(sys) && MemoryOk(sys)
    ensures Inv(sys)
  {
  }

  lemma RootOnly(f: nat)
    ensures WellFormed(Space(f, map[], map[], [f]))
  {
    var s := Space(f, map[], map[], [f]);
    assert forall r, g :: Uses(s, r, g) ==> r == Root;
  }

  lemma FlagsFormed(s: Space, page: nat, flags: Flags)
    requires WellFormed(s) && page in s.pages
    ensures WellFormed(s.(pages := s.pages[page := Entry(s.pages[page].frame, flags)]))
  {
    var t := s.(pages := s.pages[page := Entry(s.pages[page].frame, flags)]);
    assert forall r, f :: Uses(t, r, f) <==> Uses(s, r, f);
  }

  lemma RemoveLeavesFormed(s: Space, pages: set<nat>)
    requires WellFormed(s)
    ensures WellFormed(s.(pages := s.pages - pages))
  {
    var t := s.(pages := s.pages - pages);
    assert forall r, f :: Uses(t, r, f) ==> Uses(s, r, f);
  }

  lemma DisownFormed(s: Space, removals: seq<Removal>)
    requires WellFormed(s) && Apply(s.owned, removals).Some?
    requires forall i :: 0 <= i < |removals| ==> !Busy(s, removals[i].frame)
    ensures WellFormed(s.(owned := Apply(s.owned, removals).value))
  {
    hide Apply, Rooted, Unshared, Busy;
    var left, frames := Apply(s.owned, removals).value, FramesOf(removals);
    ApplyMoves(s.owned, removals);
    forall r, f | Uses(s, r, f) ensures f in left {
      assert InUse(s, f);
      BusyIsInUse(s, f);
      assert f !in frames;
      assert f in multiset(s.owned);
    }
    ReorderOwned(s, left);
  }

  lemma DisownInv(sys: Sys, q: nat, removals: seq<Removal>)
    requires Inv(sys) && Enabled(sys, Disown(q, removals))
    ensures Inv(Step(sys, Disown(q, removals)))
  {
    hide Conserved, Apply, Busy, WellFormed, Total, Local, FramesOf;
    var t := Step(sys, Disown(q, removals));
    NextBound(sys);
    DisownTotal(sys.pool, sys.spaces[q].owned, removals, sys.lost);
    DisownFormed(sys.spaces[q], removals);
    LocalFromTotal(sys, t, q);
    LocalConserves(sys, t, q);
  }

  lemma ReleaseDisownedInv(sys: Sys, q: nat)
    requires Inv(sys) && Enabled(sys, ReleaseDisowned(q))
    ensures Inv(Step(sys, ReleaseDisowned(q)))
  {
    hide Conserved, WellFormed, Total, Local;
    var t := Step(sys, ReleaseDisowned(q));
    NextBound(sys);
    ReturnTotal(sys.pool, List(sys, Of(q)), sys.transit[q], sys.lost);
    LocalFromTotal(sys, t, q);
    LocalConserves(sys, t, q);
  }

  lemma FreeSpaceInv(sys: Sys, q: nat)
    requires Inv(sys) && Enabled(sys, FreeSpace(q))
    ensures Inv(Step(sys, FreeSpace(q)))
  {
    hide Conserved, WellFormed, Total, Local;
    var t := Step(sys, FreeSpace(q));
    NextBound(sys);
    FreeTotal(sys.pool, sys.spaces[q].owned, List(sys, Transit(q)), sys.lost);
    LocalFromTotal(sys, t, q);
    LocalConserves(sys, t, q);
  }

  lemma AddPageInv(sys: Sys, q: nat, page: nat, flags: Flags, fault: nat)
    requires Inv(sys) && q in sys.spaces
    ensures Inv(Step(sys, AddPage(q, page, flags, fault)))
  {
    hide Conserved, WellFormed, MapPage, Load, Simple;
    NextBound(sys);
    LoadSimple(sys, q);
    MapPageGrows(sys.pool, sys.spaces[q], page, flags, fault);
    var r := MapPage(sys.pool, sys.spaces[q], page, flags, fault);
    WithSpaceInv(sys, q, r.1, r.2);
  }

  lemma CleanInv(sys: Sys, q: nat, first: nat, count: nat)
    requires Inv(sys) && q in sys.spaces && count > 0
    ensures Inv(Step(sys, Clean(q, first, count)))
  {
    hide Conserved, WellFormed, CleanUp, Load, Simple;
    NextBound(sys);
    LoadSimple(sys, q);
    CleanUpShrinks(sys.pool, sys.spaces[q], first, count);
    var r := CleanUp(sys.pool, sys.spaces[q], first, count);
    WithSpaceInv(sys, q, r.0, r.1);
  }

  lemma PagesOnlyInv(sys: Sys, q: nat, s: Space)
    requires Inv(sys) && q in sys.spaces && WellFormed(s) && s.owned == sys.spaces[q].owned
    ensures Inv(WithSpace(sys, q, sys.pool, s))
  {
    hide Conserved, WellFormed, Load;
    NextBound(sys);
    SameLoad(sys.pool, sys.spaces[q], s);
    WithSpaceInv(sys, q, sys.pool, s);
  }

  lemma RestoreLeafInv(sys: Sys, q: nat, page: nat, entry: Entry)
    requires Inv(sys) && Enabled(sys, RestoreLeaf(q, page, entry))
    ensures Inv(Step(sys, RestoreLeaf(q, page, entry)))
  {
    hide Conserved, WellFormed, Busy, InUse;
    var s := sys.spaces[q];
    BusyIsInUse(s, entry.frame);
    AddLeafWellFormed(s, page, entry);
    PagesOnlyInv(sys, q, s.(pages := s.pages[page := entry]));
  }

  lemma StoreInv(sys: Sys, q: nat, page: nat, data: FrameData)
    requires Inv(sys) && Enabled(sys, Store(q, page, data))
    ensures Inv(Step(sys, Store(q, page, data)))
  {
    hide WellFormed, NoDup;
    var t := Step(sys, Store(q, page, data));
    assert forall p :: List(t, p) == List(sys, p);
    assert forall f :: Held(t, f) <==> Held(sys, f);
  }

  /** Every critical section keeps every frame in exactly one place. */
  lemma StepInv(sys: Sys, e: Event)
    requires Inv(sys)
    ensures Inv(Step(sys, e))
  {
    hide Inv, Busy, Apply, MapPage, CleanUp;
    if Enabled(sys, e) {
      match e
      case NewSpace(q) =>
        if Allocate(sys.pool).0.Some? { NewSpaceInv(sys, q); }
      case AddPage(q, page, flags, fault) => AddPageInv(sys, q, page, flags, fault);
      case SetFlags(q, page, flags) =>
        SpaceFormed(sys, q);
        FlagsFormed(sys.spaces[q], page, flags);
        var s := sys.spaces[q];
        PagesOnlyInv(sys, q, s.(pages := s.pages[page := Entry(s.pages[page].frame, flags)]));
      case Store(q, page, data) => StoreInv(sys, q, page, data);
      case RemoveLeaves(q, pages) =>
        SpaceFormed(sys, q);
        RemoveLeavesFormed(sys.spaces[q], pages);
        PagesOnlyInv(sys, q, sys.spaces[q].(pages := sys.spaces[q].pages - pages));
      case RestoreLeaf(q, page, entry) => RestoreLeafInv(sys, q, page, entry);
      case Disown(q, removals) => DisownInv(sys, q, removals);
      case ReleaseDisowned(q) => ReleaseDisownedInv(sys, q);
      case Clean(q, first, count) => CleanInv(sys, q, first, count);
      case FreeSpace(q) => FreeSpaceInv(sys, q);
    }
  }

  lemma SpaceFormed(sys: Sys, q: nat)
    requires Inv(sys) && q in sys.spaces
    ensures WellFormed(sys.spaces[q])
  {
  }

  // ---- Runs ----

  function Run(sys: Sys, events: seq<Event>): Sys
    decreases |events|
  {
    if events == [] then sys else Run(Step(sys, events[0]), events[1..])
  }

  /** The state at boot: nothing issued but the frames the kernel keeps, all from the front of the list. */
  function Boot(frames: seq<nat>, used: nat, mem: Memory): Sys
    requires used <= |frames|
  {
    Sys(Pool(frames, used, []), frames[..used], map[], map[], [], mem)
  }

  lemma BootInv(frames: seq<nat>, used: nat, mem: Memory)
    requires used <= |frames| && NoDup(frames) && forall f :: f in frames ==> f in mem
    ensures Inv(Boot(frames, used, mem))
  {
    var sys := Boot(frames, used, mem);
    assert frames == frames[..used] + frames[used..];
    forall f ensures f in frames <==> Held(sys, f) {
      if f in frames[..used] { assert f in List(sys, Kernel); }
      if f in frames[used..] { assert f in List(sys, Fresh); }
    }
    BootApart(frames, used);
  }

  lemma BootApart(frames: seq<nat>, used: nat)
    requires used <= |frames| && NoDup(frames)
    ensures forall f :: f in frames[..used] ==> f !in frames[used..]
  {
    forall f | f in frames[..used] ensures f !in frames[used..] {
      var i :| 0 <= i < used && frames[i] == f;
      assert forall j :: used <= j < |frames| ==> frames[j] != f;
    }
  }

  /** Frame conservation in every reachable state. */
  lemma {:induction false} RunConserves(sys: Sys, events: seq<Event>)
    requires Inv(sys)
    ensures Inv(Run(sys, events))
    decreases |events|
  {
    hide Inv, Step;
    if events != [] {
      StepInv(sys, events[0]);
      RunConserves(Step(sys, events[0]), events[1..]);
    }
  }

  /** No event of the run frees a space whose owner still has frames in transit. */
  predicate NoKillInTransit(sys: Sys, events: seq<Event>)
    decreases |events|
  {
    events == []
    || (&& (events[0].FreeSpace? && events[0].pid in sys.spaces ==> List(sys, Transit(events[0].pid)) == [])
        && NoKillInTransit(Step(sys, events[0]), events[1..]))
  }

  lemma LostStep(sys: Sys, e: Event)
    ensures |Step(sys, e).lost| >= |sys.lost|
    ensures e.FreeSpace? && e.pid in sys.spaces && List(sys, Transit(e.pid)) != [] ==> |Step(sys, e).lost| > |sys.lost|
    ensures !(e.FreeSpace? && e.pid in sys.spaces && List(sys, Transit(e.pid)) != []) ==> Step(sys, e).lost == sys.lost
  {
    hide MapPage, CleanUp, Apply, Busy;
  }

  lemma {:induction false} LostGrows(sys: Sys, events: seq<Event>)
    ensures |Run(sys, events).lost| >= |sys.lost|
    decreases |events|
  {
    hide Step;
    if events != [] {
      LostStep(sys, events[0]);
      LostGrows(Step(sys, events[0]), events[1..]);
    }
  }

  /** A run loses a frame exactly when it kills a process between giving frames up and returning them. */
  lemma {:induction false} NothingLostIff(sys: Sys, events: seq<Event>)
    ensures Run(sys, events).lost == sys.lost <==> NoKillInTransit(sys, events)
    decreases |events|
  {
    hide Step, List;
    if events != [] {
      LostStep(sys, events[0]);
      LostGrows(Step(sys, events[0]), events[1..]);
      NothingLostIff(Step(sys, events[0]), events[1..]);
    }
  }
}
