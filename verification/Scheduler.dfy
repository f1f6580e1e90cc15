/**
 The scheduler object. Each method performs one operation in place and is tied to
 the function that describes it; freeing an address space demands that its root
 is not the one loaded.
 */
module Scheduler {
  import opened Prelude
  import opened SchedulerModel
  import opened SchedulerSafety

  class TaskScheduler {
    var tasks: seq<Tcb>
    var current: nat
    var cr3: nat
    const kernelRoot: nat
    var live: set<nat>
    var loose: set<nat>
    ghost var log: seq<Release>
    var now: nat
    var sinceSwitch: nat
    var foreground: nat
    var nextId: nat
    var detached: set<nat>

    ghost function View(): Sched
      reads this
    {
      Sched(tasks, current, cr3, kernelRoot, live, loose, log, now, sinceSwitch, foreground, nextId, detached)
    }

    ghost predicate Valid()
      reads this
    {
      Inv(View())
    }

    constructor (root: nat)
      ensures View() == Boot(root) && Valid()
    {
      tasks := [Tcb(SHELL_ID, Running, 0, false, None, 0), Tcb(IDLE_ID, Ready, 0, false, None, 0)];
      current, cr3, kernelRoot := 0, root, root;
      live, loose, detached, log := {}, {}, {}, [];
      now, sinceSwitch, foreground, nextId := 0, 0, 0, 3;
      new;
      BootOk(root);
    }

    /** Returns a space's frames to the pool. The caller must have moved off it. */
    method FreeAddressSpace(root: nat)
      requires root != cr3
      modifies `live, `loose, `detached, `log
      ensures View() == Free(old(View()), Some(root))
    {
      live, loose, detached := live - {root}, loose - {root}, detached - {root};
      log := log + [Release(root, cr3)];
    }

    /** Removes terminated tasks other than the current one, and finds the current one again. */
    method ReapTerminated(force: bool)
      requires Valid()
      modifies this
      ensures Valid() && View() == Reap(old(View()), force)
      ensures tasks[current] == old(tasks[current])
    {
      hide Inv, ShouldReap;
      ghost var s := View();
      ReapOk(s, force);
      InvBound(s);
      var id := tasks[current].id;
      for k := 0 to |tasks|
        invariant tasks == s.tasks && current == s.current && now == s.now
        invariant View() == FreeReaped(s, id, force, k)
      {
        if ShouldReap(tasks[k], id, now, force) && tasks[k].space.Some? {
          StillLoaded(s, force, k);
          FreeAddressSpace(tasks[k].space.value);
        }
      }
      ghost var freed := View();
      var kept: seq<Tcb> := [];
      var position := 0;
      KeptNone(id, now, force);
      for k := 0 to |tasks|
        invariant tasks == s.tasks && View() == freed && kept == Kept(tasks[..k], id, now, force)
        invariant position == if k <= current then |kept| else |Kept(tasks[..current], id, now, force)|
      {
        KeptSnoc(tasks, k, id, now, force);
        if k == current { position := |kept|; }
        if !ShouldReap(tasks[k], id, now, force) { kept := kept + [tasks[k]]; }
        if k < current { position := |kept|; }
      }
      assert tasks[..|tasks|] == tasks;
      tasks, current := kept, position;
    }

    /** Takes one scheduling decision; loads the next root before freeing what the last task left. */
    method ScheduleNext()
      requires Valid()
      modifies this
      ensures Valid() && View() == Schedule(old(View()))
    {
      hide Inv, Reap;
      ScheduleOk(View());
      ReapTerminated(false);
      ghost var s := View();
      InvBound(s);
      if |tasks| < 2 { return; }
      if tasks[current].state == Running { tasks := tasks[current := tasks[current].(state := Ready)]; }
      var requested := foreground;
      foreground := 0;
      assert tasks == Offered(s);
      var next := PickNext(requested);
      if next == current {
        if tasks[current].state != Terminated {
          tasks := tasks[current := tasks[current].(state := Running)];
        }
        return;
      }
      ReadyToLeave(s, requested);
      var reclaim := None;
      if tasks[current].state == Terminated {
        reclaim := tasks[current].space;
        tasks := tasks[current := tasks[current].(space := None)];
      }
      cr3 := if tasks[next].space.Some? then tasks[next].space.value else kernelRoot;
      tasks := tasks[next := tasks[next].(state := Running)];
      current := next;
      if reclaim.Some? { FreeAddressSpace(reclaim.value); }
    }

    /** The index of the task to run: an answered foreground request, or the next ready task in turn. */
    method PickNext(requested: nat) returns (next: nat)
      requires current < |tasks| && |tasks| >= 2
      ensures next == Choose(tasks, current, requested)
    {
      hide Queue;
      if requested != 0 {
        var i := 0;
        while i < |tasks|
          invariant i <= |tasks| && forall k :: 0 <= k < i ==> !Wanted(tasks[k], requested, tasks[current].id)
        {
          if Wanted(tasks[i], requested, tasks[current].id) {
            FirstWanted(tasks, requested, tasks[current].id, i);
            return i;
          }
          i := i + 1;
        }
      }
      var n := |tasks|;
      QueueLength(tasks, current);
      ghost var queue := Queue(tasks, current);
      for offset := 1 to n
        invariant forall k :: 0 <= k < offset - 1 ==> queue[k].state != Ready
      {
        var index := (current + offset) % n;
        Wraps(current, offset, n);
        assert index == At(tasks, current, offset - 1);
        if tasks[index].state == Ready {
          FirstIs(queue, offset - 1);
          return index;
        }
      }
      // The last candidate of a full turn is the current task itself.
      return current;
    }

    /** Timer interrupt: wakes sleepers whose tick has come, and preempts at the end of a time slice. */
    method OnTimerTick()
      requires Valid()
      modifies this
      ensures Valid() && View() == Tick(old(View()))
    {
      hide Inv, Schedule;
      ghost var s := View();
      InvBound(s);
      ExecOk(s, OpTick);
      now := now + 1;
      for k := 0 to |tasks|
        invariant View() == s.(now := s.now + 1, tasks := tasks) && |tasks| == |s.tasks|
        invariant forall i :: 0 <= i < |tasks| ==> tasks[i] == if i < k then Woken(s.tasks[i], now) else s.tasks[i]
      {
        if tasks[k].state == Blocked && tasks[k].wakeAt != 0 && now >= tasks[k].wakeAt {
          tasks := tasks[k := tasks[k].(state := Ready, wakeAt := 0)];
        }
      }
      assert tasks == WakeAll(s.tasks, now);
      sinceSwitch := sinceSwitch + 1;
      if sinceSwitch >= TIME_SLICE_TICKS {
        sinceSwitch := 0;
        WakeOk(s, s.now + 1);
        ClockOk(s.(tasks := tasks), s.now + 1, 0, s.foreground);
        ScheduleNext();
      }
    }

    method SleepTicks(ticks: nat)
      requires Valid()
      modifies this
      ensures Valid() && View() == Schedule(Block(old(View()), ticks))
    {
      hide Inv, Schedule;
      InvBound(View());
      BlockOk(View(), ticks);
      tasks := tasks[current := tasks[current].(state := Blocked, wakeAt := now + ticks)];
      ScheduleNext();
    }

    method ExitCurrent()
      requires Valid()
      modifies this
      ensures Valid() && View() == Schedule(Terminate(old(View())))
    {
      hide Inv, Schedule;
      InvBound(View());
      TerminateOk(View());
      tasks := tasks[current := tasks[current].(state := Terminated, terminatedAt := now)];
      ScheduleNext();
    }

    /**
     Terminates a task. Unless it is the current one, its space is handed out to be freed by `FreeDetached`
     once the lock is released; other operations may come in between.
     */
    method KillTask(id: nat) returns (ok: bool, reclaim: Option<nat>)
      requires Valid()
      modifies this
      ensures Valid() && View() == Kill(old(View()), id)
      ensures ok <==> id != SHELL_ID && exists t :: t in old(tasks) && t.id == id
      ensures reclaim.Some? ==> reclaim.value in detached && reclaim.value !in old(detached)
      ensures reclaim.None? ==> detached == old(detached)
    {
      reclaim := None;
      hide Inv, RootOf;
      ghost var s := View();
      InvBound(s);
      KillOk(s, id);
      if id == SHELL_ID { return false, None; }
      var found := FindId(tasks, id);
      if found.None? { return false, None; }
      var i := found.value;
      assert tasks[i] in old(tasks);
      var isCurrent := tasks[current].id == id;
      var space := tasks[i].space;
      if isCurrent {
        tasks := tasks[i := tasks[i].(state := Terminated, terminatedAt := now)];
      } else {
        tasks := tasks[i := tasks[i].(state := Terminated, terminatedAt := now, space := None)];
        if space.Some? {
          AttachedNotLoose(s, i);
          loose, detached, reclaim := loose + {space.value}, detached + {space.value}, space;
        }
      }
      ok := true;
    }

    /** The rest of a kill: whatever ran since, the space is not the loaded one. */
    method FreeDetached(root: nat)
      requires Valid() && root in detached
      modifies `live, `loose, `detached, `log
      ensures Valid() && View() == Free(old(View()), Some(root))
    {
      hide Inv;
      ghost var s := View();
      ReleaseDetachedOk(s, root);
      FreeAddressSpace(root);
    }

    method ActivateTask(id: nat) returns (ok: bool)
      requires Valid()
      modifies `tasks
      ensures Valid() && View() == Activate(old(View()), id)
      ensures ok <==> exists t :: t in old(tasks) && t.id == id && t.state == Blocked && t.wakeAt == 0
      ensures !ok ==> tasks == old(tasks)
    {
      hide Inv;
      ActivateOk(View(), id);
      OnlyTask(View(), id);
      var found := FindId(tasks, id);
      if found.None? { return false; }
      var t := tasks[found.value];
      if t.state != Blocked || t.wakeAt != 0 { return false; }
      tasks := tasks[found.value := t.(state := Ready)];
      ok := true;
    }

    /** Enters a finished process into the table; when that is full, `ReclaimUnstarted` is to follow. */
    method AddProcess(root: nat, suspended: bool) returns (ok: bool)
      requires Valid() && root in loose - detached
      modifies this
      ensures Valid() && View() == SpawnUser(old(View()), root, suspended)
      ensures ok <==> |old(tasks)| < MAX_TASKS
      ensures !ok ==> root in loose - detached
    {
      hide Inv;
      ghost var s := View();
      SpawnUserOk(s, root, suspended);
      var id := nextId;
      nextId := nextId + 1;
      if |tasks| >= MAX_TASKS { return false; }
      tasks := tasks + [Tcb(id, if suspended then Blocked else Ready, 0, true, Some(root), 0)];
      loose := loose - {root};
      ok := true;
    }

    /** Frees the space of a process that never started, outside the lock. */
    method ReclaimUnstarted(root: nat)
      requires Valid() && root in loose - detached
      modifies `live, `loose, `detached, `log
      ensures Valid() && View() == Free(old(View()), Some(root))
    {
      hide Inv;
      FreeLooseOk(View(), root);
      LooseNotLoaded(View(), root);
      FreeAddressSpace(root);
    }
  }

  // ---- Lemmas the methods use ----

  /** An id names at most one task, the one a search finds. */
  lemma OnlyTask(s: Sched, id: nat)
    requires Inv(s)
    ensures FindId(s.tasks, id).Some? ==> s.tasks[FindId(s.tasks, id).value] in s.tasks
    ensures forall t :: t in s.tasks && t.id == id ==>
              FindId(s.tasks, id).Some? && t == s.tasks[FindId(s.tasks, id).value]
  {
    hide RootsOk, LogOk, TasksOk;
    forall t | t in s.tasks && t.id == id
      ensures FindId(s.tasks, id).Some? && t == s.tasks[FindId(s.tasks, id).value]
    {
      var k :| 0 <= k < |s.tasks| && s.tasks[k] == t;
    }
  }

  /** While reaping runs, a task it is about to free is not the one whose root is loaded. */
  lemma StillLoaded(s: Sched, force: bool, k: nat)
    requires Inv(s) && k < |s.tasks| && s.tasks[k].space.Some?
    requires ShouldReap(s.tasks[k], s.tasks[s.current].id, s.now, force)
    ensures s.tasks[k].space.value != s.cr3
    ensures FreeReaped(s, s.tasks[s.current].id, force, k).cr3 == s.cr3
  {
    hide Inv;
    InvBound(s);
    NotLoadedInv(s, k);
    FreeReapedIs(s, force, k);
  }

  lemma KeptNone(id: nat, now: nat, force: bool)
    ensures forall tasks: seq<Tcb> :: Kept(tasks[..0], id, now, force) == []
  {
  }

  lemma KeptSnoc(tasks: seq<Tcb>, k: nat, id: nat, now: nat, force: bool)
    requires k < |tasks|
    ensures Kept(tasks[..k + 1], id, now, force)
         == Kept(tasks[..k], id, now, force) + if ShouldReap(tasks[k], id, now, force) then [] else [tasks[k]]
  {
    hide ShouldReap;
    var one := [tasks[k]];
    assert tasks[..k + 1] == tasks[..k] + one;
    assert one[1..] == [];
    KeptConcat(tasks[..k], one, id, now, force);
  }

  lemma {:induction false} FirstWanted(tasks: seq<Tcb>, id: nat, currentId: nat, i: nat)
    requires i < |tasks| && Wanted(tasks[i], id, currentId)
    requires forall k :: 0 <= k < i ==> !Wanted(tasks[k], id, currentId)
    ensures FindWanted(tasks, id, currentId) == Some(i)
  {
    var r := FindWanted(tasks, id, currentId);
    if r.Some? && r.value > i { FindWantedFirst(tasks, id, currentId, i); }
  }

  lemma {:induction false} FindWantedFirst(tasks: seq<Tcb>, id: nat, currentId: nat, i: nat)
    requires i < |tasks| && Wanted(tasks[i], id, currentId)
    ensures FindWanted(tasks, id, currentId).Some? && FindWanted(tasks, id, currentId).value <= i
  {
    if !Wanted(tasks[0], id, currentId) { FindWantedFirst(tasks[1..], id, currentId, i - 1); }
  }

  lemma FirstIs(queue: seq<Tcb>, k: nat)
    requires k < |queue| && queue[k].state == Ready && forall j :: 0 <= j < k ==> queue[j].state != Ready
    ensures FirstReady(queue) == Some(k)
  {
  }

  lemma Wraps(current: nat, offset: nat, n: nat)
    requires current < n && 1 <= offset < n
    ensures (current + offset) % n == if current + offset < n then current + offset else current + offset - n
  {
    if current + offset >= n { assert (current + offset) % n == (current + offset - n) % n; }
  }

  /** In a decision that leaves a terminated task, the root to be loaded is not the one to be freed. */
  lemma ReadyToLeave(s: Sched, requested: nat)
    requires Inv(s) && |s.tasks| >= 2
    requires Choose(Offered(s), s.current, requested) != s.current
    ensures var tasks := Offered(s); var next := Choose(tasks, s.current, requested);
      && tasks[next].state == Ready
      && (tasks[s.current].space.Some? ==> tasks[s.current].space.value != RootOf(s, tasks[next]))
  {
    hide LogOk, Choose;
    var tasks := Offered(s);
    ChosenReady(tasks, s.current, requested);
    var next := Choose(tasks, s.current, requested);
    assert s.tasks[s.current] in s.tasks && s.tasks[next] in s.tasks;
    assert s.tasks[next].space.Some? ==> s.tasks[next].space != s.tasks[s.current].space;
  }

  lemma LooseNotLoaded(s: Sched, root: nat)
    requires Inv(s) && root in s.loose
    ensures root != s.cr3
  {
    assert s.tasks[s.current] in s.tasks;
  }
}
