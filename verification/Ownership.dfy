/**
 The list of frames an address space owns, and the planned removal of some of
 them: indices are computed once from a snapshot and then removed from the
 highest down, in bounded chunks, each removal rechecking the frame it names.
 */
module Ownership {
  import opened Prelude
  import opened FrameAllocator

  /** `s` without the first occurrence of `f`. */
  function Remove(s: seq<nat>, f: nat): seq<nat> {
    if s == [] then [] else if s[0] == f then s[1..] else [s[0]] + Remove(s[1..], f)
  }

  /** `s` without the frames of `gone`, in the same order. */
  function Drop(s: seq<nat>, gone: set<nat>): seq<nat> {
    if s == [] then []
    else if s[|s| - 1] in gone then Drop(s[..|s| - 1], gone)
    else Drop(s[..|s| - 1], gone) + [s[|s| - 1]]
  }

  // ---- The plan ----

  datatype Removal = Removal(index: nat, frame: nat)

  /** The removals a snapshot calls for, highest index first. */
  function Plan(snapshot: seq<nat>, gone: set<nat>): seq<Removal> {
    if snapshot == [] then []
    else
      var last := |snapshot| - 1;
      (if snapshot[last] in gone then [Removal(last, snapshot[last])] else []) + Plan(snapshot[..last], gone)
  }

  // ---- The plan covers the frames ----

  function Common(s: seq<nat>, gone: set<nat>): set<nat> { set f | f in s && f in gone }

  lemma CommonSnoc(s: seq<nat>, x: nat, gone: set<nat>)
    requires x !in s
    ensures |Common(s + [x], gone)| == |Common(s, gone)| + if x in gone then 1 else 0
  {
    var a, b := Common(s + [x], gone), Common(s, gone);
    assert a == b + if x in gone then {x} else {};
  }

  lemma {:induction false} PlanCount(s: seq<nat>, gone: set<nat>)
    requires NoDup(s)
    ensures |Plan(s, gone)| == |Common(s, gone)|
    decreases |s|
  {
    hide Common;
    if s == [] {
      CommonNone(s, gone);
    } else {
      var front, x := s[..|s| - 1], s[|s| - 1];
      PlanCount(front, gone);
      assert s == front + [x];
      CommonSnoc(front, x, gone);
    }
  }

  lemma CommonNone(s: seq<nat>, gone: set<nat>)
    requires s == []
    ensures |Common(s, gone)| == 0
  {
  }

  lemma SmallerSubset(a: set<nat>, b: set<nat>)
    requires a <= b && |a| == |b|
    ensures a == b
  {
    if a != b {
      var x :| x in b && x !in a;
      SubsetSize(a, b - {x});
    }
  }

  lemma {:induction false} SubsetSize(a: set<nat>, b: set<nat>)
    requires a <= b
    ensures |a| <= |b|
    decreases |a|
  {
    if a != {} {
      var x :| x in a;
      SubsetSize(a - {x}, b - {x});
    }
  }

  /** A list without duplicates yields as many removals as there are frames exactly when it holds them all. */
  lemma PlanCompleteIff(s: seq<nat>, gone: set<nat>)
    requires NoDup(s)
    ensures |Plan(s, gone)| == |gone| <==> forall f :: f in gone ==> f in s
  {
    hide Plan;
    PlanCount(s, gone);
    if |Plan(s, gone)| == |gone| {
      SmallerSubset(Common(s, gone), gone);
      forall f | f in gone ensures f in s { assert f in Common(s, gone); }
    }
    if forall f :: f in gone ==> f in s {
      assert Common(s, gone) == gone;
    }
  }

  method PlanUnmapOwnership(snapshot: seq<nat>, gone: set<nat>) returns (r: Option<seq<Removal>>)
    ensures r == if |Plan(snapshot, gone)| == |gone| then Some(Plan(snapshot, gone)) else None
    ensures NoDup(snapshot) ==> (r.Some? <==> forall f :: f in gone ==> f in snapshot)
  {
    var removals: seq<Removal> := [];
    for index := 0 to |snapshot|
      invariant removals == Plan(snapshot[..index], gone)
    {
      assert snapshot[..index + 1][..index] == snapshot[..index];
      // Indices only grow, so putting each removal in front sorts them in descending order.
      if snapshot[index] in gone { removals := [Removal(index, snapshot[index])] + removals; }
    }
    assert snapshot[..|snapshot|] == snapshot;
    if NoDup(snapshot) { PlanCompleteIff(snapshot, gone); }
    r := if |removals| == |gone| then Some(removals) else None;
  }

  // ---- Carrying the plan out ----

  function RemoveAt(s: seq<nat>, i: nat): seq<nat>
    requires i < |s|
  {
    s[..i] + s[i + 1..]
  }

  /** Applies removals in order; fails at the first whose frame is not at its index. */
  function Apply(owned: seq<nat>, removals: seq<Removal>): Option<seq<nat>>
    decreases |removals|
  {
    if removals == [] then Some(owned)
    else if removals[0].index >= |owned| || owned[removals[0].index] != removals[0].frame then None
    else Apply(RemoveAt(owned, removals[0].index), removals[1..])
  }

  lemma {:induction false} ApplyConcat(owned: seq<nat>, a: seq<Removal>, b: seq<Removal>)
    ensures Apply(owned, a + b)
         == if Apply(owned, a).None? then None else Apply(Apply(owned, a).value, b)
    decreases |a|
  {
    if a == [] {
      assert a + b == b;
    } else {
      assert (a + b)[1..] == a[1..] + b;
      if a[0].index < |owned| && owned[a[0].index] == a[0].frame {
        ApplyConcat(RemoveAt(owned, a[0].index), a[1..], b);
      }
    }
  }

  lemma {:induction false} ApplyPlanTail(s: seq<nat>, tail: seq<nat>, gone: set<nat>)
    ensures Apply(s + tail, Plan(s, gone)) == Some(Drop(s, gone) + tail)
    decreases |s|
  {
    if s == [] {
      assert s + tail == tail;
    } else {
      var last := |s| - 1;
      var front := s[..last];
      assert s == front + [s[last]];
      if s[last] in gone {
        assert RemoveAt(s + tail, last) == front + tail;
        assert Plan(s, gone)[1..] == Plan(front, gone);
        ApplyPlanTail(front, tail, gone);
      } else {
        assert s + tail == front + ([s[last]] + tail);
        assert Plan(s, gone) == Plan(front, gone);
        ApplyPlanTail(front, [s[last]] + tail, gone);
        assert Drop(front, gone) + ([s[last]] + tail) == Drop(s, gone) + tail;
      }
    }
  }

  /**
   However the plan is cut into chunks, every check of every chunk succeeds, and carrying out all of
   them leaves exactly the snapshot without the planned frames, in the original order.
   */
  lemma PlanCarriedOut(snapshot: seq<nat>, gone: set<nat>, k: nat)
    requires k <= |Plan(snapshot, gone)|
    ensures var plan := Plan(snapshot, gone);
      && Apply(snapshot, plan[..k]).Some?
      && Apply(Apply(snapshot, plan[..k]).value, plan[k..]) == Some(Drop(snapshot, gone))
  {
    var plan := Plan(snapshot, gone);
    assert plan == plan[..k] + plan[k..];
    assert snapshot == snapshot + [];
    ApplyPlanTail(snapshot, [], gone);
    ApplyConcat(snapshot, plan[..k], plan[k..]);
    assert Drop(snapshot, gone) + [] == Drop(snapshot, gone);
  }

  method RemoveUnmappedOwnership(owned: seq<nat>, removals: seq<Removal>) returns (ok: bool, left: seq<nat>)
    ensures ok == Apply(owned, removals).Some?
    ensures ok ==> left == Apply(owned, removals).value
  {
    left := owned;
    for i := 0 to |removals|
      invariant Apply(left, removals[i..]) == Apply(owned, removals)
    {
      var step := removals[i];
      assert removals[i..][0] == step && removals[i..][1..] == removals[i + 1..];
      if step.index >= |left| || left[step.index] != step.frame { return false, left; }
      left := RemoveAt(left, step.index);
    }
    ok := true;
  }

  function FramesOf(removals: seq<Removal>): seq<nat> {
    seq(|removals|, i requires 0 <= i < |removals| => removals[i].frame)
  }

  lemma FramesOfNone(removals: seq<Removal>)
    requires removals == []
    ensures FramesOf(removals) == []
  {
  }

  lemma FramesOfHead(removals: seq<Removal>)
    requires removals != []
    ensures FramesOf(removals) == [removals[0].frame] + FramesOf(removals[1..])
  {
  }

  lemma RemoveAtMoves(s: seq<nat>, i: nat)
    requires i < |s|
    ensures multiset(s) == multiset(RemoveAt(s, i)) + multiset{s[i]}
  {
    assert s == s[..i] + [s[i]] + s[i + 1..];
  }

  lemma Regroup(a: multiset<nat>, b: multiset<nat>, c: multiset<nat>)
    ensures a + b + c == a + (c + b)
  {
  }

  /** The removed frames are exactly the ones the removals name. */
  lemma {:induction false} ApplyMoves(owned: seq<nat>, removals: seq<Removal>)
    requires Apply(owned, removals).Some?
    ensures multiset(owned) == multiset(Apply(owned, removals).value) + multiset(FramesOf(removals))
    decreases |removals|
  {
    hide RemoveAt, FramesOf;
    if removals == [] {
      assert FramesOf(removals) == [] by { FramesOfNone(removals); }
    } else {
      var i, rest := removals[0].index, removals[1..];
      var left := Apply(owned, removals).value;
      RemoveAtMoves(owned, i);
      ApplyMoves(RemoveAt(owned, i), rest);
      FramesOfHead(removals);
      assert multiset(FramesOf(removals)) == multiset{owned[i]} + multiset(FramesOf(rest));
      Regroup(multiset(left), multiset(FramesOf(rest)), multiset{owned[i]});
    }
  }

  // ---- Facts about the lists ----

  lemma {:induction false} DropMember(s: seq<nat>, gone: set<nat>, f: nat)
    ensures f in Drop(s, gone) <==> f in s && f !in gone
  {
    if s != [] {
      assert s == s[..|s| - 1] + [s[|s| - 1]];
      DropMember(s[..|s| - 1], gone, f);
    }
  }

  lemma {:induction false} DropNothing(s: seq<nat>, gone: set<nat>)
    requires forall f :: f in s ==> f !in gone
    ensures Drop(s, gone) == s
  {
    if s != [] { DropNothing(s[..|s| - 1], gone); }
  }

  lemma {:induction false} DropConcat(s: seq<nat>, t: seq<nat>, gone: set<nat>)
    ensures Drop(s + t, gone) == Drop(s, gone) + Drop(t, gone)
    decreases |t|
  {
    if t == [] {
      assert s + t == s;
    } else {
      assert (s + t)[..|s + t| - 1] == s + t[..|t| - 1];
      DropConcat(s, t[..|t| - 1], gone);
    }
  }

  lemma {:induction false} DropTwice(s: seq<nat>, a: set<nat>, b: set<nat>)
    ensures Drop(Drop(s, a), b) == Drop(s, a + b)
  {
    if s != [] {
      var front, x := s[..|s| - 1], s[|s| - 1];
      DropTwice(front, a, b);
      if x !in a { assert (Drop(front, a) + [x])[..|Drop(front, a)|] == Drop(front, a); }
    }
  }

  /** A prefix that loses nothing stays a prefix. */
  lemma DropKeepsPrefix(base: seq<nat>, s: seq<nat>, gone: set<nat>)
    requires base <= s && forall f :: f in base ==> f !in gone
    ensures base <= Drop(s, gone)
  {
    assert s == base + s[|base|..];
    DropConcat(base, s[|base|..], gone);
    DropNothing(base, gone);
  }

  lemma {:induction false} RemoveIsDrop(s: seq<nat>, f: nat)
    requires NoDup(s)
    ensures Remove(s, f) == Drop(s, {f})
  {
    if s != [] {
      var head, rest := [s[0]], s[1..];
      assert s == head + rest;
      assert head[..0] == [];
      DropConcat(head, rest, {f});
      if s[0] == f {
        assert Drop(head, {f}) == [];
        DropNothing(rest, {f});
      } else {
        assert Drop(head, {f}) == head;
        RemoveIsDrop(rest, f);
      }
    }
  }

  lemma {:induction false} RemoveMoves(s: seq<nat>, f: nat)
    requires f in s
    ensures multiset(s) == multiset(Remove(s, f)) + multiset{f}
  {
    assert s == [s[0]] + s[1..];
    if s[0] != f { RemoveMoves(s[1..], f); }
  }

  lemma {:induction false} RemovePrefix(t: seq<nat>, s: seq<nat>, f: nat)
    requires t <= s && f !in t
    ensures t <= Remove(s, f)
  {
    if t != [] {
      RemovePrefix(t[1..], s[1..], f);
      assert t == [t[0]] + t[1..];
    }
  }

  lemma {:induction false} NoDupCount(s: seq<nat>, f: nat)
    requires NoDup(s)
    ensures multiset(s)[f] == if f in s then 1 else 0
  {
    if s != [] {
      assert s == s[..|s| - 1] + [s[|s| - 1]];
      NoDupCount(s[..|s| - 1], f);
    }
  }

  lemma SimpleNoDup(s: seq<nat>)
    requires forall f :: multiset(s)[f] <= 1
    ensures NoDup(s)
  {
    forall i, j | 0 <= i < j < |s| ensures s[i] != s[j] {
      assert s == s[..j] + [s[j]] + s[j + 1..];
      assert multiset(s)[s[j]] >= multiset(s[..j])[s[j]] + 1;
      assert s[i] in s[..j];
    }
  }

  lemma NewElement(base: seq<nat>, s: seq<nat>)
    requires base < s && NoDup(s)
    ensures s[|base|] in s && s[|base|] !in base
  {
  }

  /** A list without repetition whose elements all lie in one of its prefixes is that prefix. */
  lemma PrefixIsAll(base: seq<nat>, s: seq<nat>)
    requires base <= s && NoDup(s) && forall f :: f in s ==> f in base
    ensures s == base
  {
    if base != s { NewElement(base, s); }
  }
}
