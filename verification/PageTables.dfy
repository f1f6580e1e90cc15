/**
 A process's private page tables and the list of frames it owns.

 The mapper is given a contract over an abstract state: a map from page number to
 (frame, flags) and a map from page-table node to the frame that stores it.
 Creating a mapping may fail at any point, for lack of frames or without a reason;
 tables installed before the failure stay, as empty tables.
 */
module PageTables {
  import opened FrameAllocator
  import opened Ownership

  const PAGES_PER_P1 := 512
  const PAGES_PER_P2 := 0x4_0000
  const PAGES_PER_SLOT := 0x800_0000
  const USER_SLOT := 224

  datatype Flags = Flags(present: bool, writable: bool, user: bool, noExecute: bool)
  datatype Entry = Entry(frame: nat, flags: Flags)

  /** A page table below the root, numbered by the stretch of pages it covers. */
  datatype Node = P3 | P2(index: nat) | P1(index: nat)

  datatype Space = Space(root: nat, tables: map<Node, nat>, pages: map<nat, Entry>, owned: seq<nat>)

  /** The one root slot that holds a process's private subtree. */
  predicate InSlot(page: nat) { page / PAGES_PER_SLOT == USER_SLOT }

  predicate Above(n: Node, page: nat) {
    match n
    case P3 => true
    case P2(i) => i == page / PAGES_PER_P2
    case P1(i) => i == page / PAGES_PER_P1
  }

  // ---- Well-formed spaces ----

  datatype Role = Root | Table(node: Node) | Leaf(page: nat)

  /** Frame `f` plays role `r` in the translation structure. */
  predicate Uses(s: Space, r: Role, f: nat) {
    match r
    case Root => f == s.root
    case Table(n) => n in s.tables && s.tables[n] == f
    case Leaf(p) => p in s.pages && s.pages[p].frame == f
  }

  /** The structure uses owned frames only. */
  ghost predicate Covered(s: Space) { forall r, f :: Uses(s, r, f) ==> f in s.owned }

  /** No frame plays two roles. */
  ghost predicate Unshared(s: Space) { forall r, q, f :: Uses(s, r, f) && Uses(s, q, f) ==> r == q }

  /** Every entry hangs below its parent tables. */
  predicate Rooted(s: Space) {
    && (forall p :: p in s.pages ==> P1(p / PAGES_PER_P1) in s.tables)
    && (forall n :: n in s.tables && n.P1? ==> P2(n.index / 512) in s.tables)
    && (forall n :: n in s.tables && n.P2? ==> P3 in s.tables)
  }

  ghost predicate WellFormed(s: Space) { Covered(s) && Unshared(s) && Rooted(s) }

  /** Every owned frame is in use: nothing is held for later. */
  ghost predicate Exact(s: Space) { forall f :: f in s.owned ==> InUse(s, f) }

  ghost predicate InUse(s: Space, f: nat) { exists r :: Uses(s, r, f) }

  predicate Childless(s: Space, n: Node) {
    match n
    case P1(i) => forall p :: p in s.pages ==> p / PAGES_PER_P1 != i
    case P2(i) => forall c :: c in s.tables && c.P1? ==> c.index / 512 != i
    case P3 => forall c :: c in s.tables ==> !c.P2?
  }

  /** No table is empty. */
  predicate Tight(s: Space) { forall n :: n in s.tables ==> !Childless(s, n) }

  // ---- Frames move, none appears or disappears ----

  /** Frames the pool can still hand out. */
  function Obtainable(p: Pool): seq<nat>
    requires p.next <= |p.frames|
  {
    p.freed + p.frames[p.next..]
  }

  ghost function Load(p: Pool, s: Space): multiset<nat>
    requires p.next <= |p.frames|
  {
    multiset(Obtainable(p)) + multiset(s.owned)
  }

  /** No frame occurs twice. */
  ghost predicate Simple(m: multiset<nat>) { forall f :: m[f] <= 1 }

  lemma AllocateMoves(p: Pool)
    requires p.next <= |p.frames| && Allocate(p).0.Some?
    ensures Allocate(p).1.next <= |p.frames| && Allocate(p).1.frames == p.frames
    ensures multiset(Obtainable(p)) == multiset(Obtainable(Allocate(p).1)) + multiset{Allocate(p).0.value}
  {
    var f, q := Allocate(p).0.value, Allocate(p).1;
    if |p.freed| > 0 {
      assert p.freed == q.freed + [f];
    } else {
      assert p.frames[p.next..] == [f] + q.frames[q.next..];
    }
  }

  /** Handing the next frame to a space keeps the total. */
  lemma TakeMoves(p: Pool, s: Space)
    requires p.next <= |p.frames| && Allocate(p).0.Some?
    ensures Allocate(p).1.next <= |p.frames| && Allocate(p).1.frames == p.frames
    ensures forall t: Space :: t.owned == s.owned + [Allocate(p).0.value] ==> Load(Allocate(p).1, t) == Load(p, s)
  {
    AllocateMoves(p);
  }

  lemma ReleaseMoves(p: Pool, f: nat)
    requires p.next <= |p.frames|
    ensures multiset(Obtainable(Release(p, f))) == multiset(Obtainable(p)) + multiset{f}
  {
  }

  // ---- Creating a mapping ----

  function AddTable(s: Space, n: Node, f: nat): Space {
    s.(tables := s.tables[n := f], owned := s.owned + [f])
  }

  function EnsureTable(p: Pool, s: Space, n: Node): (bool, Pool, Space) {
    if n in s.tables then (true, p, s)
    else
      var a := Allocate(p);
      if a.0.None? then (false, p, s) else (true, a.1, AddTable(s, n, a.0.value))
  }

  /** The mapper takes four steps: three tables and the leaf. It refuses step `fault`, if there is one. */
  const NO_FAULT := 4

  function BuildPath(p: Pool, s: Space, page: nat, fault: nat): (bool, Pool, Space) {
    var a := if fault == 0 then (false, p, s) else EnsureTable(p, s, P3);
    if !a.0 || fault == 1 then (false, a.1, a.2)
    else
      var b := EnsureTable(a.1, a.2, P2(page / PAGES_PER_P2));
      if !b.0 || fault == 2 then (false, b.1, b.2) else EnsureTable(b.1, b.2, P1(page / PAGES_PER_P1))
  }

  function MapPage(p: Pool, s: Space, page: nat, flags: Flags, fault: nat): (bool, Pool, Space) {
    var a := Allocate(p);
    if !InSlot(page) || a.0.None? then (false, p, s)
    else
      var f := a.0.value;
      var b := BuildPath(a.1, s.(owned := s.owned + [f]), page, fault);
      if b.0 && fault != 3 && page !in s.pages then (true, b.1, b.2.(pages := s.pages[page := Entry(f, flags)]))
      else (false, Release(b.1, f), b.2.(owned := Remove(b.2.owned, f)))
  }

  lemma RefusedFails(p: Pool, s: Space, page: nat, flags: Flags, fault: nat)
    requires fault < NO_FAULT
    ensures !MapPage(p, s, page, flags, fault).0
  {
  }

  /** What mapping `page` may change: at most the page itself and the tables above it are new. */
  ghost predicate Grows(p: Pool, s: Space, q: Pool, t: Space, page: nat)
    requires p.next <= |p.frames|
  {
    && q.next <= |q.frames| && q.frames == p.frames
    && WellFormed(t)
    && Load(q, t) == Load(p, s)
    && t.root == s.root && s.owned <= t.owned
    && (forall g :: g in s.pages ==> g in t.pages && t.pages[g] == s.pages[g])
    && (forall g :: g in t.pages ==> g in s.pages || (g == page && t.pages[g].frame !in s.owned))
    && (forall n :: n in s.tables ==> n in t.tables && t.tables[n] == s.tables[n])
    && (forall n :: n in t.tables ==> n in s.tables || (Above(n, page) && t.tables[n] !in s.owned))
    && (forall f :: f in t.owned ==> f in s.owned || InUse(t, f))
  }

  lemma NotOwned(p: Pool, s: Space)
    requires p.next <= |p.frames| && Simple(Load(p, s)) && Allocate(p).0.Some?
    ensures Allocate(p).0.value !in s.owned
  {
    AllocateMoves(p);
    assert Load(p, s)[Allocate(p).0.value] <= 1;
  }

  lemma AddTableWellFormed(s: Space, n: Node, f: nat)
    requires WellFormed(s) && n !in s.tables && f !in s.owned
    requires n.P2? ==> P3 in s.tables
    requires n.P1? ==> P2(n.index / 512) in s.tables
    ensures WellFormed(AddTable(s, n, f))
  {
    var t := AddTable(s, n, f);
    forall r, g | Uses(t, r, g)
      ensures g in t.owned && (r == Table(n) ==> g == f) && (r != Table(n) ==> Uses(s, r, g))
    {
      if r != Table(n) { assert Uses(s, r, g); }
    }
  }

  lemma EnsureTableGrows(p: Pool, s: Space, n: Node, page: nat)
    requires p.next <= |p.frames| && Simple(Load(p, s)) && WellFormed(s) && Above(n, page)
    requires n.P2? ==> P3 in s.tables
    requires n.P1? ==> P2(n.index / 512) in s.tables
    ensures var r := EnsureTable(p, s, n);
      Grows(p, s, r.1, r.2, page) && r.2.pages == s.pages && (r.0 ==> n in r.2.tables)
  {
    hide WellFormed, Simple, Load, Allocate;
    if n !in s.tables && Allocate(p).0.Some? {
      var f := Allocate(p).0.value;
      var t := AddTable(s, n, f);
      TakeMoves(p, s);
      NotOwned(p, s);
      AddTableWellFormed(s, n, f);
      assert Uses(t, Table(n), f);
    }
  }

  lemma GrowsTrans(p: Pool, s: Space, q: Pool, t: Space, r: Pool, u: Space, page: nat)
    requires p.next <= |p.frames| && Grows(p, s, q, t, page) && Grows(q, t, r, u, page)
    ensures Grows(p, s, r, u, page)
  {
    hide WellFormed, Load;
    forall f | f in u.owned ensures f in s.owned || InUse(u, f) {
      if f in t.owned && f !in s.owned {
        var role :| Uses(t, role, f);
        assert Uses(u, role, f);
      }
    }
  }

  lemma GrowsRefl(p: Pool, s: Space, page: nat)
    requires p.next <= |p.frames| && WellFormed(s)
    ensures Grows(p, s, p, s, page)
  {
    hide WellFormed;
  }

  lemma IndexChain(page: nat)
    ensures page / PAGES_PER_P1 / 512 == page / PAGES_PER_P2
  {
  }

  lemma BuildPathGrows(p: Pool, s: Space, page: nat, fault: nat)
    requires p.next <= |p.frames| && Simple(Load(p, s)) && WellFormed(s)
    ensures var r := BuildPath(p, s, page, fault);
      && Grows(p, s, r.1, r.2, page)
      && r.2.pages == s.pages
      && (r.0 ==> P1(page / PAGES_PER_P1) in r.2.tables)
  {
    hide WellFormed, Simple, Load, EnsureTable;
    IndexChain(page);
    GrowsRefl(p, s, page);
    EnsureTableGrows(p, s, P3, page);
    var a := EnsureTable(p, s, P3);
    if a.0 {
      EnsureTableGrows(a.1, a.2, P2(page / PAGES_PER_P2), page);
      var b := EnsureTable(a.1, a.2, P2(page / PAGES_PER_P2));
      GrowsTrans(p, s, a.1, a.2, b.1, b.2, page);
      if b.0 {
        EnsureTableGrows(b.1, b.2, P1(page / PAGES_PER_P1), page);
        var c := EnsureTable(b.1, b.2, P1(page / PAGES_PER_P1));
        GrowsTrans(p, s, b.1, b.2, c.1, c.2, page);
      }
    }
  }

  lemma ReorderOwned(s: Space, owned: seq<nat>)
    requires WellFormed(s)
    requires forall r, f :: Uses(s, r, f) ==> f in owned
    ensures WellFormed(s.(owned := owned))
  {
    var t := s.(owned := owned);
    assert forall r, f :: Uses(t, r, f) <==> Uses(s, r, f);
  }

  lemma AddLeafWellFormed(s: Space, page: nat, e: Entry)
    requires WellFormed(s) && page !in s.pages && e.frame in s.owned && !InUse(s, e.frame)
    requires P1(page / PAGES_PER_P1) in s.tables
    ensures WellFormed(s.(pages := s.pages[page := e]))
  {
    var t := s.(pages := s.pages[page := e]);
    forall r, g | Uses(t, r, g) ensures (r == Leaf(page) ==> g == e.frame) && (r != Leaf(page) ==> Uses(s, r, g)) {
      if r != Leaf(page) { assert Uses(s, r, g); }
    }
  }

  /** The state in which the tables are built: the leaf frame is owned but not yet used. */
  lemma ClaimLeaf(p: Pool, s: Space)
    requires p.next <= |p.frames| && Simple(Load(p, s)) && WellFormed(s) && Allocate(p).0.Some?
    ensures Allocate(p).1.next <= |p.frames| && Allocate(p).1.frames == p.frames
    ensures var t := s.(owned := s.owned + [Allocate(p).0.value]);
      && WellFormed(t) && Load(Allocate(p).1, t) == Load(p, s)
      && Allocate(p).0.value !in s.owned && !InUse(t, Allocate(p).0.value)
  {
    hide Simple, Load, Rooted, Unshared;
    TakeMoves(p, s);
    NotOwned(p, s);
    var f := Allocate(p).0.value;
    var t := s.(owned := s.owned + [f]);
    ReorderOwned(s, t.owned);
    assert forall r, g :: Uses(t, r, g) <==> Uses(s, r, g);
  }

  /** A frame that was owned but unused before the tables grew is still unused. */
  lemma StillUnused(p: Pool, s: Space, q: Pool, t: Space, page: nat, f: nat)
    requires p.next <= |p.frames| && Grows(p, s, q, t, page) && t.pages == s.pages && f in s.owned && !InUse(s, f)
    ensures !InUse(t, f)
  {
    hide WellFormed, Load;
    forall r ensures !Uses(t, r, f) {
      assert !Uses(s, r, f);
    }
  }

  /** Giving one owned frame back to the pool keeps the total. */
  lemma GiveMoves(p: Pool, s: Space, f: nat)
    requires p.next <= |p.frames| && f in s.owned
    ensures Load(Release(p, f), s.(owned := Remove(s.owned, f))) == Load(p, s)
  {
    RemoveMoves(s.owned, f);
    ReleaseMoves(p, f);
  }

  lemma RemoveOnce(p: Pool, s: Space, f: nat)
    requires p.next <= |p.frames| && Simple(Load(p, s)) && f in s.owned
    ensures forall g :: g in Remove(s.owned, f) <==> g in s.owned && g != f
  {
    RemoveMoves(s.owned, f);
    assert Load(p, s)[f] <= 1;
    var t := Remove(s.owned, f);
    assert forall g :: g in t <==> g in multiset(t);
    assert forall g :: g in s.owned <==> g in multiset(s.owned);
  }

  lemma MapFailed(p: Pool, s: Space, f: nat, a: Pool, b: Pool, u: Space, page: nat)
    requires p.next <= |p.frames| && a.next <= |a.frames| && a.frames == p.frames
    requires Simple(Load(p, s)) && f !in s.owned
    requires Grows(a, s.(owned := s.owned + [f]), b, u, page) && Load(a, s.(owned := s.owned + [f])) == Load(p, s)
    requires u.pages == s.pages && !InUse(u, f)
    ensures Grows(p, s, Release(b, f), u.(owned := Remove(u.owned, f)), page)
  {
    hide WellFormed, Load, Simple, Remove;
    var s1 := s.(owned := s.owned + [f]);
    var t := u.(owned := Remove(u.owned, f));
    assert s1.owned[|s.owned|] == f;
    assert f in u.owned;
    GiveMoves(b, u, f);
    RemoveOnce(b, u, f);
    assert s.owned <= s1.owned <= u.owned;
    RemovePrefix(s.owned, u.owned, f);
    MapFailedFormed(u, f);
    forall g | g in t.owned ensures g in s.owned || InUse(t, g) {
      if g !in s1.owned { var r :| Uses(u, r, g); assert Uses(t, r, g); }
    }
  }

  lemma MapFailedFormed(u: Space, f: nat)
    requires WellFormed(u) && f in u.owned && !InUse(u, f)
    ensures WellFormed(u.(owned := Remove(u.owned, f)))
  {
    hide Rooted, Unshared;
    RemoveMoves(u.owned, f);
    forall r, g | Uses(u, r, g) ensures g in Remove(u.owned, f) {
      assert g in u.owned && g != f;
      assert g in multiset(u.owned);
    }
    ReorderOwned(u, Remove(u.owned, f));
  }

  lemma MapSucceeded(p: Pool, s: Space, f: nat, a: Pool, b: Pool, u: Space, page: nat, flags: Flags)
    requires p.next <= |p.frames| && a.next <= |a.frames| && a.frames == p.frames && f !in s.owned
    requires Grows(a, s.(owned := s.owned + [f]), b, u, page) && Load(a, s.(owned := s.owned + [f])) == Load(p, s)
    requires u.pages == s.pages && page !in s.pages && !InUse(u, f) && P1(page / PAGES_PER_P1) in u.tables
    ensures Grows(p, s, b, u.(pages := s.pages[page := Entry(f, flags)]), page)
  {
    hide WellFormed, Load;
    var t := u.(pages := s.pages[page := Entry(f, flags)]);
    assert (s.owned + [f])[|s.owned|] == f;
    AddLeafWellFormed(u, page, Entry(f, flags));
    SameLoad(b, u, t);
    assert s.owned <= s.owned + [f] <= t.owned;
    forall g | g in t.owned ensures g in s.owned || InUse(t, g) {
      if g == f {
        assert Uses(t, Leaf(page), f);
      } else if g !in s.owned {
        var r :| Uses(u, r, g);
        assert Uses(t, r, g);
      }
    }
  }

  lemma SameLoad(p: Pool, s: Space, t: Space)
    requires p.next <= |p.frames| && t.owned == s.owned
    ensures Load(p, t) == Load(p, s)
  {
  }

  /**
   Mapping a page either adds exactly that page, with the given flags and a frame the space did not
   own, or adds no page; in both cases every frame taken from the pool is accounted for.
   */
  lemma MapPageGrows(p: Pool, s: Space, page: nat, flags: Flags, fault: nat)
    requires p.next <= |p.frames| && Simple(Load(p, s)) && WellFormed(s)
    ensures var r := MapPage(p, s, page, flags, fault);
      && Grows(p, s, r.1, r.2, page)
      && (r.0 ==> page !in s.pages && page in r.2.pages && r.2.pages[page].flags == flags)
      && (!r.0 ==> r.2.pages == s.pages)
  {
    hide WellFormed, Simple, Load, Allocate, BuildPath, Remove, InUse;
    if InSlot(page) && Allocate(p).0.Some? {
      var a, f := Allocate(p).1, Allocate(p).0.value;
      var s1 := s.(owned := s.owned + [f]);
      ClaimLeaf(p, s);
      BuildPathGrows(a, s1, page, fault);
      var b := BuildPath(a, s1, page, fault);
      StillUnused(a, s1, b.1, b.2, page, f);
      if b.0 && fault != 3 && page !in s.pages {
        MapSucceeded(p, s, f, a, b.1, b.2, page, flags);
      } else {
        MapFailed(p, s, f, a, b.1, b.2, page);
      }
    }
  }
}
