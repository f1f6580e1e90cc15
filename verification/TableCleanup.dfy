/**
 Reclaiming empty page tables: bottom up over the tables a page range touches,
 each table without children is unlinked, disowned and returned to the pool.
 */
module TableCleanup {
  import opened FrameAllocator
  import opened Ownership
  import opened PageTables

  /** The tables on the way to some page of `[first, first + count)`. */
  predicate Touched(n: Node, first: nat, count: nat) {
    count > 0 &&
    match n
    case P3 => true
    case P2(i) => first / PAGES_PER_P2 <= i <= (first + count - 1) / PAGES_PER_P2
    case P1(i) => first / PAGES_PER_P1 <= i <= (first + count - 1) / PAGES_PER_P1
  }

  function DropTable(p: Pool, s: Space, n: Node): (Pool, Space) {
    if n in s.tables && Childless(s, n) then
      (Release(p, s.tables[n]), s.(tables := s.tables - {n}, owned := Remove(s.owned, s.tables[n])))
    else (p, s)
  }

  function DropP1s(p: Pool, s: Space, i: nat, end: nat): (Pool, Space)
    decreases end + 1 - i
  {
    if i > end then (p, s)
    else
      var a := DropTable(p, s, P1(i));
      DropP1s(a.0, a.1, i + 1, end)
  }

  function DropP2s(p: Pool, s: Space, i: nat, end: nat): (Pool, Space)
    decreases end + 1 - i
  {
    if i > end then (p, s)
    else
      var a := DropTable(p, s, P2(i));
      DropP2s(a.0, a.1, i + 1, end)
  }

  function CleanUp(p: Pool, s: Space, first: nat, count: nat): (Pool, Space)
    requires count > 0
  {
    var last := first + count - 1;
    var a := DropP1s(p, s, first / PAGES_PER_P1, last / PAGES_PER_P1);
    var b := DropP2s(a.0, a.1, first / PAGES_PER_P2, last / PAGES_PER_P2);
    DropTable(b.0, b.1, P3)
  }

  // ---- What cleaning keeps ----

  ghost function Freed(s: Space, t: Space): set<nat> {
    set n | n in s.tables && n !in t.tables :: s.tables[n]
  }

  ghost predicate FewerTables(s: Space, t: Space) {
    && (forall n :: n in t.tables ==> n in s.tables && t.tables[n] == s.tables[n])
    && (forall n :: n in s.tables && n !in t.tables ==> Childless(t, n))
  }

  /** Only empty tables go; their frames, and no others, leave the ownership list for the pool. */
  ghost predicate Shrinks(p: Pool, s: Space, q: Pool, t: Space)
    requires p.next <= |p.frames|
  {
    && q.next <= |q.frames| && q.frames == p.frames
    && WellFormed(t) && Load(q, t) == Load(p, s)
    && t.root == s.root && t.pages == s.pages
    && FewerTables(s, t)
    && t.owned == Drop(s.owned, Freed(s, t))
    && (Exact(s) ==> Exact(t))
  }

  lemma FreedTrans(s: Space, t: Space, u: Space)
    requires FewerTables(s, t) && FewerTables(t, u)
    ensures Freed(s, t) + Freed(t, u) == Freed(s, u)
  {
    hide Childless;
    forall f | f in Freed(s, u) ensures f in Freed(s, t) + Freed(t, u) {
      var n :| n in s.tables && n !in u.tables && s.tables[n] == f;
      assert n !in t.tables || t.tables[n] == f;
    }
    forall f | f in Freed(t, u) ensures f in Freed(s, u) {
      var n :| n in t.tables && n !in u.tables && t.tables[n] == f;
      assert n in s.tables;
    }
  }

  lemma FewerTrans(s: Space, t: Space, u: Space)
    requires FewerTables(s, t) && FewerTables(t, u) && t.pages == s.pages && u.pages == t.pages
    ensures FewerTables(s, u)
  {
    forall n | n in s.tables && n !in u.tables ensures Childless(u, n) {
      if n !in t.tables { assert Childless(t, n); }
    }
  }

  lemma ShrinksTrans(p: Pool, s: Space, q: Pool, t: Space, r: Pool, u: Space)
    requires p.next <= |p.frames| && Shrinks(p, s, q, t) && Shrinks(q, t, r, u)
    ensures Shrinks(p, s, r, u)
  {
    hide WellFormed, Load, Exact, FewerTables, Freed;
    FewerTrans(s, t, u);
    FreedTrans(s, t, u);
    DropTwice(s.owned, Freed(s, t), Freed(t, u));
  }

  lemma ShrinksRefl(p: Pool, s: Space)
    requires p.next <= |p.frames| && WellFormed(s)
    ensures Shrinks(p, s, p, s)
  {
    hide WellFormed, Exact, Childless;
    DropNothing(s.owned, Freed(s, s));
  }

  lemma OwnedNoDup(p: Pool, s: Space)
    requires p.next <= |p.frames| && Simple(Load(p, s))
    ensures NoDup(s.owned)
  {
    forall f ensures multiset(s.owned)[f] <= 1 {
      assert Load(p, s)[f] <= 1;
    }
    SimpleNoDup(s.owned);
  }

  lemma DropTableFormed(s: Space, n: Node, owned: seq<nat>)
    requires WellFormed(s) && n in s.tables && Childless(s, n)
    requires forall g :: g in owned <==> g in s.owned && g != s.tables[n]
    ensures WellFormed(s.(tables := s.tables - {n}, owned := owned))
    ensures Exact(s) ==> Exact(s.(tables := s.tables - {n}, owned := owned))
  {
    var t := s.(tables := s.tables - {n}, owned := owned);
    assert forall r, g :: Uses(t, r, g) <==> Uses(s, r, g) && r != Table(n);
    assert Uses(s, Table(n), s.tables[n]);
    assert Covered(t) && Unshared(t);
    DropTableRooted(s, n, owned);
    if Exact(s) {
      forall f | f in t.owned ensures InUse(t, f) {
        var r :| Uses(s, r, f);
        assert r != Table(n);
        assert Uses(t, r, f);
      }
    }
  }

  lemma DropTableRooted(s: Space, n: Node, owned: seq<nat>)
    requires Rooted(s) && n in s.tables && Childless(s, n)
    ensures Rooted(s.(tables := s.tables - {n}, owned := owned))
  {
  }

  lemma DropTableShrinks(p: Pool, s: Space, n: Node)
    requires p.next <= |p.frames| && Simple(Load(p, s)) && WellFormed(s)
    ensures var r := DropTable(p, s, n);
      && Shrinks(p, s, r.0, r.1)
      && (forall m :: m in s.tables && m != n ==> m in r.1.tables)
      && (n in r.1.tables ==> !Childless(r.1, n))
  {
    hide WellFormed, Simple, Load, Remove, Exact;
    ShrinksRefl(p, s);
    if n in s.tables && Childless(s, n) {
      var f := s.tables[n];
      var t := s.(tables := s.tables - {n}, owned := Remove(s.owned, f));
      TableOwned(s, n);
      OwnedNoDup(p, s);
      RemoveIsDrop(s.owned, f);
      forall g ensures g in t.owned <==> g in s.owned && g != f { DropMember(s.owned, {f}, g); }
      DropTableFormed(s, n, t.owned);
      GiveMoves(p, s, f);
      SameLoad(Release(p, f), s.(owned := t.owned), t);
      assert Freed(s, t) == {f};
      ChildlessAfter(s, n, t);
    }
  }

  lemma TableOwned(s: Space, n: Node)
    requires WellFormed(s) && n in s.tables
    ensures s.tables[n] in s.owned
  {
    assert Uses(s, Table(n), s.tables[n]);
  }

  lemma ChildlessAfter(s: Space, n: Node, t: Space)
    requires Childless(s, n) && t.pages == s.pages && t.tables == s.tables - {n}
    ensures Childless(t, n)
  {
  }

  lemma {:induction false} DropP1sShrinks(p: Pool, s: Space, i: nat, end: nat)
    requires p.next <= |p.frames| && Simple(Load(p, s)) && WellFormed(s)
    ensures var r := DropP1s(p, s, i, end);
      && Shrinks(p, s, r.0, r.1)
      && (forall m :: m in s.tables && m !in r.1.tables ==> m.P1? && i <= m.index <= end)
      && (forall j :: i <= j <= end && P1(j) in r.1.tables ==> !Childless(r.1, P1(j)))
    decreases end + 1 - i
  {
    hide WellFormed, Simple, Load, DropTable, Childless, Exact, FewerTables;
    if i > end {
      ShrinksRefl(p, s);
    } else {
      var a := DropTable(p, s, P1(i));
      DropTableShrinks(p, s, P1(i));
      DropP1sShrinks(a.0, a.1, i + 1, end);
      var r := DropP1s(a.0, a.1, i + 1, end);
      ShrinksTrans(p, s, a.0, a.1, r.0, r.1);
      if P1(i) in r.1.tables { KeepsP1Child(a.1, r.1, i); }
    }
  }

  lemma KeepsP1Child(s: Space, t: Space, i: nat)
    requires FewerTables(s, t) && t.pages == s.pages && P1(i) in t.tables
    requires P1(i) in s.tables ==> !Childless(s, P1(i))
    ensures !Childless(t, P1(i))
  {
  }

  lemma {:induction false} DropP2sShrinks(p: Pool, s: Space, i: nat, end: nat)
    requires p.next <= |p.frames| && Simple(Load(p, s)) && WellFormed(s)
    ensures var r := DropP2s(p, s, i, end);
      && Shrinks(p, s, r.0, r.1)
      && (forall m :: m in s.tables && m !in r.1.tables ==> m.P2? && i <= m.index <= end)
      && (forall j :: i <= j <= end && P2(j) in r.1.tables ==> !Childless(r.1, P2(j)))
    decreases end + 1 - i
  {
    hide WellFormed, Simple, Load, DropTable, Childless, Exact, FewerTables;
    if i > end {
      ShrinksRefl(p, s);
    } else {
      var a := DropTable(p, s, P2(i));
      DropTableShrinks(p, s, P2(i));
      DropP2sShrinks(a.0, a.1, i + 1, end);
      var r := DropP2s(a.0, a.1, i + 1, end);
      ShrinksTrans(p, s, a.0, a.1, r.0, r.1);
      if P2(i) in r.1.tables { KeepsP2Child(a.1, r.1, i); }
    }
  }

  lemma KeepsP2Child(s: Space, t: Space, i: nat)
    requires FewerTables(s, t) && P2(i) in t.tables
    requires forall m :: m in s.tables && !m.P2? ==> m in t.tables
    requires P2(i) in s.tables ==> !Childless(s, P2(i))
    ensures !Childless(t, P2(i))
  {
    var c :| c in s.tables && c.P1? && c.index / 512 == i;
    assert c in t.tables;
  }

  /** Afterwards no table the range touches is empty, and every table that went is one nothing hangs below. */
  lemma CleanUpShrinks(p: Pool, s: Space, first: nat, count: nat)
    requires p.next <= |p.frames| && Simple(Load(p, s)) && WellFormed(s) && count > 0
    ensures var r := CleanUp(p, s, first, count);
      && Shrinks(p, s, r.0, r.1)
      && (forall n :: n in s.tables && n !in r.1.tables ==> Touched(n, first, count))
      && (forall n :: n in r.1.tables && Touched(n, first, count) ==> !Childless(r.1, n))
  {
    hide WellFormed, Simple, Load, DropTable, DropP1s, DropP2s, Childless, Exact, FewerTables, Freed;
    var last := first + count - 1;
    var a := DropP1s(p, s, first / PAGES_PER_P1, last / PAGES_PER_P1);
    var b := DropP2s(a.0, a.1, first / PAGES_PER_P2, last / PAGES_PER_P2);
    var c := DropTable(b.0, b.1, P3);
    DropP1sShrinks(p, s, first / PAGES_PER_P1, last / PAGES_PER_P1);
    DropP2sShrinks(a.0, a.1, first / PAGES_PER_P2, last / PAGES_PER_P2);
    DropTableShrinks(b.0, b.1, P3);
    ShrinksTrans(p, s, a.0, a.1, b.0, b.1);
    ShrinksTrans(p, s, b.0, b.1, c.0, c.1);
    SubTables(a.1, b.1);
    SubTables(b.1, c.1);
    forall n | n in c.1.tables && Touched(n, first, count) ensures !Childless(c.1, n) {
      match n
      case P3 =>
      case P2(i) =>
        SameBelow(b.1, c.1, n);
      case P1(i) =>
        assert n in b.1.tables && n in a.1.tables;
        SameBelow(a.1, b.1, n);
        SameBelow(b.1, c.1, n);
    }
  }

  lemma SubTables(s: Space, t: Space)
    requires FewerTables(s, t)
    ensures forall n :: n in t.tables ==> n in s.tables
  {
  }

  lemma SameBelow(s: Space, t: Space, n: Node)
    requires t.pages == s.pages && n in s.tables && !n.P3? && !Childless(s, n)
    requires forall m :: m in s.tables && m.P1? ==> m in t.tables
    ensures !Childless(t, n)
  {
    if n.P2? {
      var c :| c in s.tables && c.P1? && c.index / 512 == n.index;
      assert c in t.tables;
    }
  }
}
