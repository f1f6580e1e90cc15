/**
 What every scheduler operation keeps: the loaded page-table root belongs to the
 current task, no space is freed while it is loaded, and every task that can
 still run has what it needs to run.
 */
module SchedulerSafety {
  import opened Prelude
  import opened SchedulerModel

  // ---- The invariant ----

  ghost predicate TaskOk(s: Sched, currentId: nat, t: Tcb) {
    && 0 < t.id < s.nextId
    && (t.state == Running ==> t.id == currentId)
    && (t.user && (t.state != Terminated || t.id == currentId) ==> t.space.Some?)
    && (t.space.Some? ==> t.user && t.space.value in s.live && t.space.value !in s.loose)
  }

  ghost predicate Unique(tasks: seq<Tcb>) {
    forall i, j :: 0 <= i < j < |tasks| ==>
      && tasks[i].id != tasks[j].id
      && (tasks[i].space.Some? ==> tasks[i].space != tasks[j].space)
  }

  ghost predicate Attached(tasks: seq<Tcb>, root: nat) { exists t :: t in tasks && t.space == Some(root) }

  /**
   Every live space belongs to a task, to a process still being built, or to a kill that has yet to free it;
   the kernel's root is none of them.
   */
  ghost predicate RootsOk(s: Sched) {
    && s.kernelRoot !in s.live
    && s.detached <= s.loose <= s.live
    && forall r :: r in s.live ==> r in s.loose || Attached(s.tasks, r)
  }

  /** No space was freed while its root was loaded. */
  ghost predicate LogOk(log: seq<Release>) { forall e :: e in log ==> e.root != e.loaded }

  ghost predicate TasksOk(s: Sched, currentId: nat) { forall t :: t in s.tasks ==> TaskOk(s, currentId, t) }

  ghost predicate Inv(s: Sched) {
    && s.current < |s.tasks|
    && Unique(s.tasks)
    && TasksOk(s, s.tasks[s.current].id)
    && RootsOk(s)
    && LogOk(s.log)
    && s.cr3 == RootOf(s, s.tasks[s.current])
  }

  lemma InvBound(s: Sched)
    requires Inv(s)
    ensures s.current < |s.tasks|
  {
  }

  lemma QueueLength(tasks: seq<Tcb>, current: nat)
    requires current < |tasks|
    ensures |Queue(tasks, current)| == |tasks| - 1
  {
  }

  // ---- Changing one task ----

  /** Task `i` may change anything but its id and space. */
  lemma ReplaceOk(s: Sched, i: nat, t: Tcb)
    requires Inv(s) && i < |s.tasks|
    requires t.id == s.tasks[i].id && t.space == s.tasks[i].space && t.user == s.tasks[i].user
    requires TaskOk(s, s.tasks[s.current].id, t)
    ensures Inv(s.(tasks := s.tasks[i := t]))
  {
    var u := s.(tasks := s.tasks[i := t]);
    forall x | x in u.tasks ensures TaskOk(u, s.tasks[s.current].id, x) {
      var k :| 0 <= k < |u.tasks| && u.tasks[k] == x;
      if k != i { assert s.tasks[k] in s.tasks; }
    }
    forall r | r in u.live ensures r in u.loose || Attached(u.tasks, r) {
      if r !in s.loose { StaysAttached(s.tasks, i, t, r); }
    }
  }

  lemma StaysAttached(tasks: seq<Tcb>, i: nat, t: Tcb, r: nat)
    requires i < |tasks| && t.space == tasks[i].space && Attached(tasks, r)
    ensures Attached(tasks[i := t], r)
  {
    var u := tasks[i := t];
    var x :| x in tasks && x.space == Some(r);
    var k :| 0 <= k < |tasks| && tasks[k] == x;
    assert u[k] in u && u[k].space == Some(r);
  }

  /** Task `i`, not the one whose root is loaded, gives its space up and the space is freed. */
  lemma ReleaseOk(s: Sched, i: nat, t: Tcb, currentId: nat)
    requires i < |s.tasks| && s.current < |s.tasks| && currentId == s.tasks[s.current].id && i != s.current
    requires Unique(s.tasks) && TasksOk(s, currentId) && RootsOk(s) && LogOk(s.log)
    requires s.cr3 == RootOf(s, s.tasks[s.current])
    requires t.id == s.tasks[i].id && t.user == s.tasks[i].user && t.space.None? && t.state == Terminated
    ensures Inv(Free(s.(tasks := s.tasks[i := t]), s.tasks[i].space))
  {
    var space := s.tasks[i].space;
    var u := Free(s.(tasks := s.tasks[i := t]), space);
    assert s.tasks[i] in s.tasks && s.tasks[s.current] in s.tasks;
    assert s.tasks[i].id != s.tasks[s.current].id;
    forall x | x in u.tasks ensures TaskOk(u, currentId, x) {
      var k :| 0 <= k < |u.tasks| && u.tasks[k] == x;
      assert s.tasks[k] in s.tasks;
    }
    forall r | r in u.live ensures r in u.loose || Attached(u.tasks, r) {
      if r !in s.loose { AttachedElsewhere(s.tasks, i, t, r); }
    }
    if space.Some? { NotLoaded(s, i); }
  }

  lemma AttachedElsewhere(tasks: seq<Tcb>, i: nat, t: Tcb, r: nat)
    requires i < |tasks| && Attached(tasks, r) && tasks[i].space != Some(r)
    ensures Attached(tasks[i := t], r)
  {
    var u := tasks[i := t];
    var x :| x in tasks && x.space == Some(r);
    var k :| 0 <= k < |tasks| && tasks[k] == x;
    assert u[k] in u;
  }

  lemma NotLoaded(s: Sched, i: nat)
    requires i < |s.tasks| && s.current < |s.tasks| && i != s.current && Unique(s.tasks) && RootsOk(s)
    requires s.cr3 == RootOf(s, s.tasks[s.current]) && s.tasks[i].space.Some? && s.tasks[i].space.value in s.live
    ensures s.tasks[i].space.value != s.cr3
  {
  }

  // ---- Simple operations ----

  lemma BlockOk(s: Sched, ticks: nat)
    requires Inv(s)
    ensures Inv(Block(s, ticks))
  {
    hide Unique, RootsOk;
    var t := s.tasks[s.current];
    assert t in s.tasks;
    ReplaceOk(s, s.current, t.(state := Blocked, wakeAt := s.now + ticks));
  }

  lemma TerminateOk(s: Sched)
    requires Inv(s)
    ensures Inv(Terminate(s))
  {
    hide Unique, RootsOk;
    var t := s.tasks[s.current];
    assert t in s.tasks;
    ReplaceOk(s, s.current, t.(state := Terminated, terminatedAt := s.now));
  }

  lemma ActivateOk(s: Sched, id: nat)
    requires Inv(s)
    ensures Inv(Activate(s, id))
  {
    hide Unique, RootsOk;
    var found := FindId(s.tasks, id);
    if found.Some? {
      var t := s.tasks[found.value];
      assert t in s.tasks;
      if t.state == Blocked && t.wakeAt == 0 { ReplaceOk(s, found.value, t.(state := Ready)); }
    }
  }

  lemma KillOk(s: Sched, id: nat)
    requires Inv(s)
    ensures Inv(Kill(s, id))
  {
    hide RootsOk;
    var found := FindId(s.tasks, id);
    if id != SHELL_ID && found.Some? {
      var i := found.value;
      var t := s.tasks[i].(state := Terminated, terminatedAt := s.now);
      assert s.tasks[i] in s.tasks;
      if s.tasks[s.current].id == id {
        assert i == s.current;
        ReplaceOk(s, i, t);
      } else {
        DetachOk(s, i, t.(space := None));
      }
    }
  }

  /** Task `i`, not the current one, gives its space up, and nobody has freed the space yet. */
  lemma DetachOk(s: Sched, i: nat, t: Tcb)
    requires Inv(s) && i < |s.tasks| && i != s.current
    requires t.id == s.tasks[i].id && t.user == s.tasks[i].user && t.space.None? && t.state == Terminated
    ensures Inv(Detach(s.(tasks := s.tasks[i := t]), s.tasks[i].space))
  {
    var space, currentId := s.tasks[i].space, s.tasks[s.current].id;
    var u := Detach(s.(tasks := s.tasks[i := t]), space);
    assert s.tasks[i] in s.tasks;
    assert s.tasks[i].id != currentId;
    forall x | x in u.tasks ensures TaskOk(u, currentId, x) {
      var k :| 0 <= k < |u.tasks| && u.tasks[k] == x;
      assert s.tasks[k] in s.tasks;
    }
    forall r | r in u.live ensures r in u.loose || Attached(u.tasks, r) {
      if r !in u.loose { AttachedElsewhere(s.tasks, i, t, r); }
    }
  }

  /** Whatever ran since the kill, the space it detached can be freed. */
  lemma ReleaseDetachedOk(s: Sched, root: nat)
    requires Inv(s) && root in s.detached
    ensures Inv(Free(s, Some(root)))
    ensures root in s.live && root != s.cr3 && !Attached(s.tasks, root)
  {
    assert s.tasks[s.current] in s.tasks;
    FreeLooseOk(s, root);
  }

  lemma ClockOk(s: Sched, now: nat, since: nat, foreground: nat)
    requires Inv(s)
    ensures Inv(s.(now := now, sinceSwitch := since, foreground := foreground))
  {
    var u := s.(now := now, sinceSwitch := since, foreground := foreground);
    forall x | x in u.tasks ensures TaskOk(u, s.tasks[s.current].id, x) { assert TaskOk(s, s.tasks[s.current].id, x); }
  }

  lemma WakeOk(s: Sched, now: nat)
    requires Inv(s)
    ensures Inv(s.(tasks := WakeAll(s.tasks, now)))
  {
    var u := s.(tasks := WakeAll(s.tasks, now));
    forall x | x in u.tasks ensures TaskOk(u, s.tasks[s.current].id, x) {
      var k :| 0 <= k < |u.tasks| && u.tasks[k] == x;
      assert s.tasks[k] in s.tasks;
    }
    forall r | r in u.live ensures r in u.loose || Attached(u.tasks, r) {
      if r !in s.loose {
        var x :| x in s.tasks && x.space == Some(r);
        var k :| 0 <= k < |s.tasks| && s.tasks[k] == x;
        assert u.tasks[k] in u.tasks && u.tasks[k].space == Some(r);
      }
    }
  }

  lemma PushOk(s: Sched, t: Tcb, loose: set<nat>)
    requires Inv(s) && t.id == s.nextId && s.nextId > 0 && t.state != Running && (t.user <==> t.space.Some?)
    requires loose == s.loose - if t.space.Some? then {t.space.value} else {}
    requires t.space.Some? ==> t.space.value in s.loose - s.detached
    ensures Inv(s.(tasks := s.tasks + [t], nextId := s.nextId + 1, loose := loose))
  {
    var u := s.(tasks := s.tasks + [t], nextId := s.nextId + 1, loose := loose);
    forall k | 0 <= k < |s.tasks| ensures s.tasks[k].id < s.nextId && (t.space.Some? ==> s.tasks[k].space != t.space) {
      assert s.tasks[k] in s.tasks;
    }
    forall r | r in u.live ensures r in u.loose || Attached(u.tasks, r) {
      if r !in s.loose {
        var x :| x in s.tasks && x.space == Some(r);
        assert x in u.tasks;
      } else if r !in loose {
        assert t in u.tasks;
      }
    }
  }

  lemma NewSpaceOk(s: Sched, root: nat)
    requires Inv(s) && root !in s.live && root != s.kernelRoot
    ensures Inv(NewSpace(s, root))
  {
    var u := NewSpace(s, root);
    forall x | x in u.tasks ensures TaskOk(u, s.tasks[s.current].id, x) { assert TaskOk(s, s.tasks[s.current].id, x); }
  }

  lemma FreeLooseOk(s: Sched, root: nat)
    requires Inv(s) && root in s.loose
    ensures Inv(Free(s, Some(root)))
  {
    var u := Free(s, Some(root));
    forall x | x in u.tasks ensures TaskOk(u, s.tasks[s.current].id, x) { assert TaskOk(s, s.tasks[s.current].id, x); }
    assert s.tasks[s.current] in s.tasks;
  }

  lemma NextIdOk(s: Sched)
    requires Inv(s)
    ensures Inv(s.(nextId := s.nextId + 1))
  {
    var u := s.(nextId := s.nextId + 1);
    forall x | x in u.tasks ensures TaskOk(u, s.tasks[s.current].id, x) { assert TaskOk(s, s.tasks[s.current].id, x); }
  }

  lemma SpawnUserOk(s: Sched, root: nat, suspended: bool)
    requires Inv(s) && root in s.loose - s.detached
    ensures Inv(SpawnUser(s, root, suspended))
  {
    hide Inv;
    if |s.tasks| >= MAX_TASKS {
      NextIdOk(s);
    } else {
      IdPositive(s);
      PushOk(s, Tcb(s.nextId, if suspended then Blocked else Ready, 0, true, Some(root), 0), s.loose - {root});
    }
  }

  lemma IdPositive(s: Sched)
    requires Inv(s)
    ensures s.nextId > 0
  {
    assert s.tasks[s.current] in s.tasks;
  }

  // ---- Reaping ----

  lemma {:induction false} KeptMember(tasks: seq<Tcb>, id: nat, now: nat, force: bool, t: Tcb)
    ensures t in Kept(tasks, id, now, force) <==> t in tasks && !ShouldReap(t, id, now, force)
  {
    if tasks != [] {
      assert tasks == [tasks[0]] + tasks[1..];
      KeptMember(tasks[1..], id, now, force, t);
    }
  }

  lemma {:induction false} KeptConcat(a: seq<Tcb>, b: seq<Tcb>, id: nat, now: nat, force: bool)
    ensures Kept(a + b, id, now, force) == Kept(a, id, now, force) + Kept(b, id, now, force)
  {
    if a == [] {
      assert a + b == b;
    } else {
      assert (a + b)[1..] == a[1..] + b;
      KeptConcat(a[1..], b, id, now, force);
    }
  }

  /** The current task is where the recomputed index says. */
  lemma KeptCurrent(tasks: seq<Tcb>, current: nat, now: nat, force: bool)
    requires current < |tasks|
    ensures var id := tasks[current].id; var kept := Kept(tasks, id, now, force);
      var before := Kept(tasks[..current], id, now, force);
      && |before| < |kept| && kept[|before|] == tasks[current]
      && kept[..|before|] == before && kept[|before| + 1..] == Kept(tasks[current + 1..], id, now, force)
  {
    var id := tasks[current].id;
    var a, b, c := tasks[..current], [tasks[current]], tasks[current + 1..];
    assert tasks == a + (b + c);
    assert b[1..] == [];
    KeptConcat(a, b + c, id, now, force);
    KeptConcat(b, c, id, now, force);
    assert Kept(b, id, now, force) == b;
  }

  lemma {:induction false} KeptUnique(tasks: seq<Tcb>, id: nat, now: nat, force: bool)
    requires Unique(tasks)
    ensures Unique(Kept(tasks, id, now, force))
  {
    if tasks != [] {
      var head, rest := tasks[0], Kept(tasks[1..], id, now, force);
      KeptUnique(tasks[1..], id, now, force);
      forall k | 0 <= k < |rest|
        ensures head.id != rest[k].id && (head.space.Some? ==> head.space != rest[k].space)
      {
        KeptMember(tasks[1..], id, now, force, rest[k]);
      }
    }
  }

  /** The space with this root belonged to one of the first `k` tasks due for reaping. */
  ghost predicate Gone(s: Sched, id: nat, force: bool, k: nat, r: nat)
    requires k <= |s.tasks|
  {
    exists i :: 0 <= i < k && ShouldReap(s.tasks[i], id, s.now, force) && s.tasks[i].space == Some(r)
  }

  lemma {:induction false} FreeReapedIs(s: Sched, force: bool, k: nat)
    requires Inv(s) && k <= |s.tasks|
    ensures var id := s.tasks[s.current].id; var u := FreeReaped(s, id, force, k);
      && u == s.(live := u.live, log := u.log) && LogOk(u.log)
      && forall r :: r in u.live <==> r in s.live && !Gone(s, id, force, k, r)
    decreases k
  {
    hide Unique, RootsOk;
    var id := s.tasks[s.current].id;
    if k > 0 {
      FreeReapedIs(s, force, k - 1);
      var b, t := FreeReaped(s, id, force, k - 1), s.tasks[k - 1];
      assert t in s.tasks && TaskOk(s, id, t);
      GoneMore(s, id, force, k - 1);
      if ShouldReap(t, id, s.now, force) && t.space.Some? {
        AttachedNotLoose(s, k - 1);
        assert b.loose - {t.space.value} == b.loose && b.detached - {t.space.value} == b.detached;
        NotLoadedInv(s, k - 1);
      }
    }
  }

  lemma AttachedNotLoose(s: Sched, i: nat)
    requires Inv(s) && i < |s.tasks| && s.tasks[i].space.Some?
    ensures s.tasks[i].space.value !in s.loose && s.tasks[i].space.value !in s.detached
  {
    assert s.tasks[i] in s.tasks;
  }

  lemma NotLoadedInv(s: Sched, i: nat)
    requires Inv(s) && i < |s.tasks| && s.tasks[i].id != s.tasks[s.current].id && s.tasks[i].space.Some?
    ensures s.tasks[i].space.value != s.cr3
  {
    assert s.tasks[i] in s.tasks;
    NotLoaded(s, i);
  }

  lemma GoneMore(s: Sched, id: nat, force: bool, k: nat)
    requires k < |s.tasks|
    ensures forall r: nat ::
      (Gone(s, id, force, k + 1, r)
       <==> Gone(s, id, force, k, r) || (ShouldReap(s.tasks[k], id, s.now, force) && s.tasks[k].space == Some(r)))
  {
  }

  lemma ReapOk(s: Sched, force: bool)
    requires Inv(s)
    ensures Inv(Reap(s, force)) && Reap(s, force).tasks[Reap(s, force).current] == s.tasks[s.current]
  {
    hide Unique, LogOk, ShouldReap;
    var id := s.tasks[s.current].id;
    var u := Reap(s, force);
    FreeReapedIs(s, force, |s.tasks|);
    KeptCurrent(s.tasks, s.current, s.now, force);
    KeptUnique(s.tasks, id, s.now, force);
    forall t | t in u.tasks ensures TaskOk(u, id, t) {
      KeptMember(s.tasks, id, s.now, force, t);
      assert TaskOk(s, id, t);
      if t.space.Some? { KeptNotGone(s, id, force, t); }
    }
    forall r | r in s.loose ensures r in u.live { LooseNotGone(s, id, force, r); }
    forall r | r in u.live ensures r in u.loose || Attached(u.tasks, r) {
      if r !in s.loose { KeptAttached(s, id, force, r); }
    }
  }

  lemma KeptNotGone(s: Sched, id: nat, force: bool, t: Tcb)
    requires Unique(s.tasks) && t in s.tasks && !ShouldReap(t, id, s.now, force) && t.space.Some?
    ensures !Gone(s, id, force, |s.tasks|, t.space.value)
  {
    hide ShouldReap;
    var j :| 0 <= j < |s.tasks| && s.tasks[j] == t;
    assert forall i :: 0 <= i < |s.tasks| && i != j ==> s.tasks[i].space != t.space;
  }

  lemma LooseNotGone(s: Sched, id: nat, force: bool, r: nat)
    requires TasksOk(s, id) && r in s.loose
    ensures !Gone(s, id, force, |s.tasks|, r)
  {
    hide ShouldReap;
    assert forall i :: 0 <= i < |s.tasks| ==> TaskOk(s, id, s.tasks[i]);
  }

  lemma KeptAttached(s: Sched, id: nat, force: bool, r: nat)
    requires Attached(s.tasks, r) && !Gone(s, id, force, |s.tasks|, r)
    ensures Attached(Kept(s.tasks, id, s.now, force), r)
  {
    hide ShouldReap, Kept;
    var t :| t in s.tasks && t.space == Some(r);
    var j :| 0 <= j < |s.tasks| && s.tasks[j] == t;
    KeptMember(s.tasks, id, s.now, force, t);
  }

  // ---- Switching ----

  lemma OfferedOk(s: Sched)
    requires Inv(s)
    ensures Inv(s.(tasks := Offered(s)))
  {
    hide Unique, RootsOk, LogOk;
    var t := s.tasks[s.current];
    assert t in s.tasks;
    if t.state == Running { ReplaceOk(s, s.current, t.(state := Ready)); }
  }

  /** Moving to another `Ready` task when nobody is marked running. */
  lemma MoveOk(s: Sched, next: nat)
    requires Inv(s) && next < |s.tasks| && next != s.current && s.tasks[next].state == Ready
    requires s.tasks[s.current].state != Running
    requires s.tasks[s.current].state != Terminated
    ensures Inv(SwitchTo(s, next))
  {
    var u := SwitchTo(s, next);
    var id := s.tasks[next].id;
    assert s.tasks[next] in s.tasks && s.tasks[s.current] in s.tasks;
    forall t | t in u.tasks ensures TaskOk(u, id, t) {
      var k :| 0 <= k < |u.tasks| && u.tasks[k] == t;
      assert s.tasks[k] in s.tasks;
      assert TaskOk(s, s.tasks[s.current].id, s.tasks[k]);
    }
    forall r | r in u.live ensures r in u.loose || Attached(u.tasks, r) {
      if r !in s.loose { StaysAttached(s.tasks, next, u.tasks[next], r); }
    }
  }

  /** Leaving a terminated task: its space is freed once the next root is loaded. */
  lemma LeaveOk(s: Sched, next: nat)
    requires Inv(s) && next < |s.tasks| && next != s.current && s.tasks[next].state == Ready
    requires s.tasks[s.current].state == Terminated
    ensures Inv(SwitchTo(s, next))
  {
    var out := s.tasks[s.current];
    var m := s.(tasks := s.tasks[next := s.tasks[next].(state := Running)], current := next,
                cr3 := RootOf(s, s.tasks[next]));
    assert s.tasks[next] in s.tasks && out in s.tasks;
    forall t | t in m.tasks ensures TaskOk(m, s.tasks[next].id, t) {
      var k :| 0 <= k < |m.tasks| && m.tasks[k] == t;
      assert s.tasks[k] in s.tasks;
      assert TaskOk(s, out.id, s.tasks[k]);
    }
    forall r | r in m.live ensures r in m.loose || Attached(m.tasks, r) {
      if r !in s.loose { StaysAttached(s.tasks, next, m.tasks[next], r); }
    }
    ReleaseOk(m, s.current, out.(space := None), m.tasks[next].id);
    assert s.tasks[s.current := out.(space := None)][next := s.tasks[next].(state := Running)]
        == m.tasks[s.current := out.(space := None)];
  }

  lemma ChosenReady(tasks: seq<Tcb>, current: nat, requested: nat)
    requires current < |tasks|
    ensures var i := Choose(tasks, current, requested); i != current ==> tasks[i].state == Ready
  {
  }

  lemma DecideOk(s: Sched)
    requires Inv(s)
    ensures Inv(Decide(s))
  {
    hide Unique, RootsOk, LogOk, TasksOk, Choose, SwitchTo;
    if |s.tasks| >= 2 {
      OfferedOk(s);
      var t := s.(tasks := Offered(s), foreground := 0);
      ClockOk(s.(tasks := Offered(s)), s.now, s.sinceSwitch, 0);
      assert t == s.(tasks := Offered(s)).(now := s.now, sinceSwitch := s.sinceSwitch, foreground := 0);
      var next := Choose(t.tasks, t.current, s.foreground);
      ChosenReady(t.tasks, t.current, s.foreground);
      if next != s.current {
        if t.tasks[s.current].state == Terminated { LeaveOk(t, next); } else { MoveOk(t, next); }
      } else if t.tasks[s.current].state != Terminated {
        ResumeOk(t);
      }
    }
  }

  lemma ResumeOk(s: Sched)
    requires Inv(s)
    requires s.tasks[s.current].state != Terminated
    ensures Inv(s.(tasks := s.tasks[s.current := s.tasks[s.current].(state := Running)]))
  {
    hide Unique, RootsOk, LogOk;
    var t := s.tasks[s.current];
    assert t in s.tasks;
    ReplaceOk(s, s.current, t.(state := Running));
  }

  lemma ScheduleOk(s: Sched)
    requires Inv(s)
    ensures Inv(Schedule(s))
  {
    hide Unique, RootsOk, LogOk, TasksOk, Reap, Decide;
    ReapOk(s, false);
    DecideOk(Reap(s, false));
  }

  // ---- Runs ----

  /** Every operation keeps the invariant. */
  lemma ExecOk(s: Sched, op: Op)
    requires Inv(s)
    ensures Inv(Exec(s, op))
  {
    hide Inv, Schedule, Reap, Kill, Activate, WakeAll;
    if Possible(s, op) {
      match op
      case OpTick =>
        WakeOk(s, s.now + 1);
        ClockOk(s.(tasks := WakeAll(s.tasks, s.now + 1)), s.now + 1, s.sinceSwitch + 1, s.foreground);
        ClockOk(s.(tasks := WakeAll(s.tasks, s.now + 1)), s.now + 1, 0, s.foreground);
        var t := s.(now := s.now + 1, tasks := WakeAll(s.tasks, s.now + 1));
        if s.sinceSwitch + 1 >= TIME_SLICE_TICKS { ScheduleOk(t.(sinceSwitch := 0)); }
      case OpSchedule => ScheduleOk(s);
      case OpYield =>
        ClockOk(s, s.now, 0, s.foreground);
        ScheduleOk(s.(sinceSwitch := 0));
      case OpBlock(ticks) => BlockOk(s, ticks);
      case OpTerminate => TerminateOk(s);
      case OpKill(id) => KillOk(s, id);
      case OpRelease(root) => ReleaseDetachedOk(s, root);
      case OpActivate(id) => ActivateOk(s, id);
      case OpForeground(id) => ClockOk(s, s.now, TIME_SLICE_TICKS, id);
      case OpReap => ReapOk(s, true);
      case OpSpawnKernel =>
        IdPositive(s);
        PushOk(s, Tcb(s.nextId, Ready, 0, false, None, 0), s.loose);
      case OpNewSpace(root) => NewSpaceOk(s, root);
      case OpSpawnUser(root, suspended) => SpawnUserOk(s, root, suspended);
      case OpFailSpawn(root) => FreeLooseOk(s, root);
    }
  }

  /** Shell running, idle ready, nothing else. */
  function Boot(kernelRoot: nat): Sched {
    Sched([Tcb(SHELL_ID, Running, 0, false, None, 0), Tcb(IDLE_ID, Ready, 0, false, None, 0)],
          0, kernelRoot, kernelRoot, {}, {}, [], 0, 0, 0, 3, {})
  }

  lemma BootOk(kernelRoot: nat)
    ensures Inv(Boot(kernelRoot))
  {
  }

  /** Safety over whole runs of the scheduler. */
  lemma {:induction false} RunOk(s: Sched, ops: seq<Op>)
    requires Inv(s)
    ensures Inv(Run(s, ops))
    decreases |ops|
  {
    hide Inv, Exec;
    if ops != [] {
      ExecOk(s, ops[0]);
      RunOk(Exec(s, ops[0]), ops[1..]);
    }
  }

  /** What the invariant means at any moment of any run from boot. */
  lemma AnyMoment(kernelRoot: nat, ops: seq<Op>)
    ensures var s := Run(Boot(kernelRoot), ops);
      && s.current < |s.tasks|
      && var cur := s.tasks[s.current];
      && (cur.user ==> cur.space == Some(s.cr3) && s.cr3 in s.live)
      && (!cur.user ==> s.cr3 == s.kernelRoot)
      && (forall e :: e in s.log ==> e.root != e.loaded)
      && (forall t :: t in s.tasks && t.user && t.state != Terminated ==> t.space.Some? && t.space.value in s.live)
      && (forall i :: 0 <= i < |s.tasks| && i != s.current ==> s.tasks[i].state != Running)
  {
    hide Run, RootsOk;
    BootOk(kernelRoot);
    RunOk(Boot(kernelRoot), ops);
    var s := Run(Boot(kernelRoot), ops);
    assert s.tasks[s.current] in s.tasks;
    forall i | 0 <= i < |s.tasks| && i != s.current ensures s.tasks[i].state != Running {
      assert s.tasks[i] in s.tasks;
      assert s.tasks[i].id != s.tasks[s.current].id;
    }
  }
}
