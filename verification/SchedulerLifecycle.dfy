/**
 What can bring a terminated task back, what can take idle away, and when a sleep
 is cut short: each with its exact condition and a run from boot that meets it.
 */
module SchedulerLifecycle {
  import opened Prelude
  import opened SchedulerModel
  import opened SchedulerSafety
  import opened SchedulerProgress

  // ---- Following one task through an operation ----

  /** Whoever has this id is terminated; nobody has it once the task is reaped. */
  ghost predicate Dead(s: Sched, id: nat) { forall t :: t in s.tasks && t.id == id ==> t.state == Terminated }

  /** The current task is `id` and the operation is a sleep. */
  predicate SleepsAs(s: Sched, op: Op, id: nat) {
    op.OpBlock? && s.current < |s.tasks| && s.tasks[s.current].id == id
  }

  lemma DeadAt(s: Sched, id: nat, i: nat)
    requires Dead(s, id) && i < |s.tasks| && s.tasks[i].id == id
    ensures s.tasks[i].state == Terminated
  {
    assert s.tasks[i] in s.tasks;
  }

  /** Same ids at the same places, and nothing terminated was changed to something else. */
  lemma DeadPointwise(s: Sched, t: Sched, id: nat)
    requires Dead(s, id) && SameIds(s.tasks, t.tasks)
    requires forall i :: 0 <= i < |s.tasks| && s.tasks[i].id == id && s.tasks[i].state == Terminated ==>
               t.tasks[i].state == Terminated
    ensures Dead(t, id)
  {
    forall x | x in t.tasks && x.id == id ensures x.state == Terminated {
      var i :| 0 <= i < |t.tasks| && t.tasks[i] == x;
      DeadAt(s, id, i);
    }
  }

  lemma DeadReap(s: Sched, force: bool, id: nat)
    requires Inv(s) && Dead(s, id)
    ensures Dead(Reap(s, force), id)
  {
    hide Inv, Kept;
    InvBound(s);
    FreeReapedIs(s, force, |s.tasks|);
    forall x | x in Reap(s, force).tasks && x.id == id ensures x.state == Terminated {
      KeptMember(s.tasks, s.tasks[s.current].id, s.now, force, x);
    }
  }

  /** A decision picks ready tasks only, and resumes the current one only if it has not terminated. */
  lemma DecideTerminated(s: Sched, i: nat)
    requires s.current < |s.tasks| && i < |s.tasks| && s.tasks[i].state == Terminated
    ensures |Decide(s).tasks| == |s.tasks| && Decide(s).tasks[i].state == Terminated
  {
    hide Choose, RootOf;
    if |s.tasks| >= 2 { ChosenReady(Offered(s), s.current, s.foreground); }
  }

  lemma DecideIds(s: Sched)
    requires s.current < |s.tasks|
    ensures SameIds(s.tasks, Decide(s).tasks)
  {
    hide Choose, RootOf;
  }

  lemma DeadSchedule(s: Sched, id: nat)
    requires Inv(s) && Dead(s, id)
    ensures Dead(Schedule(s), id)
  {
    hide Inv, Reap, Decide, Dead;
    InvBound(s);
    ReapOk(s, false);
    var r := Reap(s, false);
    InvBound(r);
    DeadReap(s, false, id);
    DecideIds(r);
    forall i | 0 <= i < |r.tasks| && r.tasks[i].id == id && r.tasks[i].state == Terminated
      ensures Decide(r).tasks[i].state == Terminated
    {
      DecideTerminated(r, i);
    }
    DeadPointwise(r, Decide(r), id);
  }

  lemma DeadTick(s: Sched, id: nat)
    requires Inv(s) && Dead(s, id)
    ensures Dead(Tick(s), id)
  {
    hide Inv, Schedule, Dead;
    InvBound(s);
    WakeOk(s, s.now + 1);
    ClockOk(s.(tasks := WakeAll(s.tasks, s.now + 1)), s.now + 1, 0, s.foreground);
    var t := s.(now := s.now + 1, tasks := WakeAll(s.tasks, s.now + 1));
    DeadPointwise(s, t.(sinceSwitch := 0), id);
    DeadPointwise(s, t.(sinceSwitch := s.sinceSwitch + 1), id);
    if s.sinceSwitch + 1 >= TIME_SLICE_TICKS { DeadSchedule(t.(sinceSwitch := 0), id); }
  }

  lemma DeadAppend(s: Sched, t: Sched, x: Tcb, id: nat)
    requires Dead(s, id) && x.id != id && t.tasks == s.tasks + [x]
    ensures Dead(t, id)
  {
  }

  /** Only one thing brings a terminated task back: as the current task, it goes to sleep. */
  lemma RevivedIff(s: Sched, op: Op, id: nat)
    requires Inv(s) && id < s.nextId && Dead(s, id)
    ensures Dead(Exec(s, op), id) <==> !SleepsAs(s, op, id)
  {
    hide Inv, Schedule, Reap, Tick, Dead;
    InvBound(s);
    var t := Exec(s, op);
    if Possible(s, op) {
      match op
      case OpTick => DeadTick(s, id);
      case OpSchedule => DeadSchedule(s, id);
      case OpYield =>
        ClockOk(s, s.now, 0, s.foreground);
        DeadPointwise(s, s.(sinceSwitch := 0), id);
        DeadSchedule(s.(sinceSwitch := 0), id);
      case OpReap => DeadReap(s, true, id);
      case OpBlock(_) =>
        if SleepsAs(s, op, id) { NotDead(t, id); } else { DeadPointwise(s, t, id); }
      case OpKill(k) =>
        KillSame(s, k);
        DeadPointwise(s, t, id);
      case OpSpawnKernel => DeadAppend(s, t, t.tasks[|s.tasks|], id);
      case OpSpawnUser(_, _) =>
        if |s.tasks| < MAX_TASKS { DeadAppend(s, t, t.tasks[|s.tasks|], id); } else { DeadPointwise(s, t, id); }
      case _ => DeadPointwise(s, t, id);
    }
  }

  lemma NotDead(t: Sched, id: nat)
    requires t.current < |t.tasks| && t.tasks[t.current].id == id && t.tasks[t.current].state == Blocked
    ensures !Dead(t, id)
  {
    assert t.tasks[t.current] in t.tasks;
  }

  // ---- Over runs ----

  /** In every state of the run the task is terminated or gone. */
  ghost predicate StaysDead(s: Sched, ops: seq<Op>, id: nat)
    decreases |ops|
  {
    Dead(s, id) && (ops == [] || StaysDead(Exec(s, ops[0]), ops[1..], id))
  }

  /** At no point of the run does `id` go to sleep as the current task. */
  predicate NeverSleepsAs(s: Sched, ops: seq<Op>, id: nat)
    decreases |ops|
  {
    ops == [] || (!SleepsAs(s, ops[0], id) && NeverSleepsAs(Exec(s, ops[0]), ops[1..], id))
  }

  lemma NextIdGrows(s: Sched, op: Op)
    requires Inv(s)
    ensures Exec(s, op).nextId >= s.nextId
  {
    hide Inv, Schedule, Kept, RootOf, WakeAll, FindId;
    InvBound(s);
    if op.OpTick? {
      WakeOk(s, s.now + 1);
      ClockOk(s.(tasks := WakeAll(s.tasks, s.now + 1)), s.now + 1, 0, s.foreground);
      NextIdSchedule(s.(now := s.now + 1, tasks := WakeAll(s.tasks, s.now + 1)).(sinceSwitch := 0));
    } else if op.OpSchedule? {
      NextIdSchedule(s);
    } else if op.OpYield? {
      ClockOk(s, s.now, 0, s.foreground);
      NextIdSchedule(s.(sinceSwitch := 0));
    } else if op.OpReap? {
      FreeReapedIs(s, true, |s.tasks|);
    }
  }

  lemma NextIdSchedule(s: Sched)
    requires Inv(s)
    ensures s.current < |s.tasks| && Schedule(s).nextId == s.nextId
  {
    hide Inv, Kept, Choose;
    InvBound(s);
    FreeReapedIs(s, false, |s.tasks|);
  }

  /** A terminated task stays terminated over a whole run if and only if it never sleeps in it. */
  lemma {:induction false} StaysDeadIff(s: Sched, ops: seq<Op>, id: nat)
    requires Inv(s) && id < s.nextId && Dead(s, id)
    ensures StaysDead(s, ops, id) <==> NeverSleepsAs(s, ops, id)
    decreases |ops|
  {
    hide Inv, Exec, Dead;
    if ops != [] {
      RevivedIff(s, ops[0], id);
      if !SleepsAs(s, ops[0], id) {
        ExecOk(s, ops[0]);
        NextIdGrows(s, ops[0]);
        StaysDeadIff(Exec(s, ops[0]), ops[1..], id);
      } else {
        StartsAlive(Exec(s, ops[0]), ops[1..], id);
      }
    }
  }

  lemma StartsAlive(s: Sched, ops: seq<Op>, id: nat)
    requires !Dead(s, id)
    ensures !StaysDead(s, ops, id)
  {
  }

  // ---- Runs from boot ----

  lemma OneStep(s: Sched, ops: seq<Op>)
    requires ops != []
    ensures Run(s, ops) == Run(Exec(s, ops[0]), ops[1..])
  {
    hide Exec;
  }

  lemma FiveSteps(s: Sched, a: Sched, b: Sched, c: Sched, d: Sched, ops: seq<Op>)
    requires |ops| == 5 && Exec(s, ops[0]) == a && Exec(a, ops[1]) == b && Exec(b, ops[2]) == c && Exec(c, ops[3]) == d
    ensures Run(s, ops) == Exec(d, ops[4])
  {
    hide Exec, Run;
    OneStep(s, ops);
    OneStep(a, ops[1..]);
    OneStep(b, ops[2..]);
    OneStep(c, ops[3..]);
    OneStep(d, ops[4..]);
    assert ops[1..][1..] == ops[2..] && ops[2..][1..] == ops[3..] && ops[3..][1..] == ops[4..] && ops[4..][1..] == [];
    NoStep(Exec(d, ops[4]));
  }

  lemma NoStep(s: Sched)
    ensures Run(s, []) == s
  {
  }

  function Kernel(id: nat, state: State, wake: nat): Tcb { Tcb(id, state, wake, false, None, 0) }

  /** The three tasks that initialization leaves: shell, idle and heartbeat. */
  function Trio(k: nat, shell: Tcb, idle: State, beat: State, current: nat, now: nat, since: nat, wake: nat): Sched {
    Sched([shell, Kernel(IDLE_ID, idle, wake), Kernel(HEARTBEAT_ID, beat, 0)],
          current, k, k, {}, {}, [], now, since, 0, 4, {})
  }

  /** Initialization starts the heartbeat task. */
  lemma HeartbeatStarts(k: nat)
    ensures Exec(Boot(k), OpSpawnKernel) == Trio(k, Kernel(SHELL_ID, Running, 0), Ready, Ready, 0, 0, 0, 0)
  {
  }

  lemma {:induction false} KeptAll(tasks: seq<Tcb>, id: nat, now: nat, force: bool)
    requires forall i :: 0 <= i < |tasks| ==> !ShouldReap(tasks[i], id, now, force)
    ensures Kept(tasks, id, now, force) == tasks
  {
    hide ShouldReap;
    if tasks != [] {
      KeptAll(tasks[1..], id, now, force);
      assert tasks == [tasks[0]] + tasks[1..];
    }
  }

  lemma {:induction false} FreeNobody(s: Sched, id: nat, force: bool, k: nat)
    requires k <= |s.tasks| && forall i :: 0 <= i < k ==> !ShouldReap(s.tasks[i], id, s.now, force)
    ensures FreeReaped(s, id, force, k) == s
  {
    hide ShouldReap;
    if k > 0 { FreeNobody(s, id, force, k - 1); }
  }

  /** With nobody due, reaping changes nothing. */
  lemma ReapNobody(s: Sched, force: bool)
    requires s.current < |s.tasks|
    requires forall i :: 0 <= i < |s.tasks| ==> !ShouldReap(s.tasks[i], s.tasks[s.current].id, s.now, force)
    ensures Reap(s, force) == s
  {
    hide ShouldReap, Kept, FreeReaped;
    var id := s.tasks[s.current].id;
    KeptAll(s.tasks, id, s.now, force);
    KeptAll(s.tasks[..s.current], id, s.now, force);
    FreeNobody(s, id, force, |s.tasks|);
  }

  lemma YieldToIdle(k: nat)
    ensures Exec(Trio(k, Kernel(SHELL_ID, Running, 0), Ready, Ready, 0, 0, 0, 0), OpYield)
         == Trio(k, Kernel(SHELL_ID, Ready, 0), Running, Ready, 1, 0, 0, 0)
  {
    hide Reap;
    var s, u := Trio(k, Kernel(SHELL_ID, Running, 0), Ready, Ready, 0, 0, 0, 0),
      Trio(k, Kernel(SHELL_ID, Ready, 0), Running, Ready, 1, 0, 0, 0);
    ReapNobody(s, false);
    var tasks := Offered(s);
    assert Queue(tasks, 0)[0] == tasks[1];
    assert SwitchTo(s.(tasks := tasks), 1).tasks == u.tasks;
  }

  /** Idle runs, kills itself, sleeps, and the next tick makes it ready. */
  function ReviveOps(): seq<Op> { [OpSpawnKernel, OpYield, OpKill(IDLE_ID), OpBlock(1), OpTick] }

  /** A run from boot in which a task is killed, and which ends with that task ready to run. */
  lemma KillThenSleepRevives(k: nat)
    ensures Run(Boot(k), ReviveOps()[..3]) == Trio(k, Kernel(SHELL_ID, Ready, 0), Terminated, Ready, 1, 0, 0, 0)
    ensures Run(Boot(k), ReviveOps()) == Trio(k, Kernel(SHELL_ID, Ready, 0), Ready, Ready, 1, 1, 1, 0)
  {
    hide Run;
    var shell := Kernel(SHELL_ID, Ready, 0);
    var a, b := Trio(k, shell.(state := Running), Ready, Ready, 0, 0, 0, 0), Trio(k, shell, Running, Ready, 1, 0, 0, 0);
    var c, d := Trio(k, shell, Terminated, Ready, 1, 0, 0, 0), Trio(k, shell, Blocked, Ready, 1, 0, 0, 1);
    HeartbeatStarts(k);
    YieldToIdle(k);
    KilledIdle(k);
    assert Exec(c, OpBlock(1)) == d;
    WokenIdle(k);
    FiveSteps(Boot(k), a, b, c, d, ReviveOps());
    ThreeSteps(Boot(k), a, b, ReviveOps()[..3]);
  }

  lemma ThreeSteps(s: Sched, a: Sched, b: Sched, ops: seq<Op>)
    requires |ops| == 3 && Exec(s, ops[0]) == a && Exec(a, ops[1]) == b
    ensures Run(s, ops) == Exec(b, ops[2])
  {
    hide Exec, Run;
    OneStep(s, ops);
    OneStep(a, ops[1..]);
    OneStep(b, ops[2..]);
    assert ops[1..][1..] == ops[2..] && ops[2..][1..] == [];
    NoStep(Exec(b, ops[2]));
  }

  lemma KilledIdle(k: nat)
    ensures Exec(Trio(k, Kernel(SHELL_ID, Ready, 0), Running, Ready, 1, 0, 0, 0), OpKill(IDLE_ID))
         == Trio(k, Kernel(SHELL_ID, Ready, 0), Terminated, Ready, 1, 0, 0, 0)
  {
    hide FindId;
    var s := Trio(k, Kernel(SHELL_ID, Ready, 0), Running, Ready, 1, 0, 0, 0);
    assert s.tasks[1].id == IDLE_ID;
    assert FindId(s.tasks, IDLE_ID) == Some(1);
  }

  lemma WokenIdle(k: nat)
    ensures Exec(Trio(k, Kernel(SHELL_ID, Ready, 0), Blocked, Ready, 1, 0, 0, 1), OpTick)
         == Trio(k, Kernel(SHELL_ID, Ready, 0), Ready, Ready, 1, 1, 1, 0)
  {
    hide Schedule;
    var s, u := Trio(k, Kernel(SHELL_ID, Ready, 0), Blocked, Ready, 1, 0, 0, 1),
      Trio(k, Kernel(SHELL_ID, Ready, 0), Ready, Ready, 1, 1, 1, 0);
    assert WakeAll(s.tasks, 1) == u.tasks;
  }

  // ---- Idle ----

  /** The operation kills idle, or idle itself sleeps or exits. */
  predicate EndsIdle(s: Sched, op: Op) {
    op == OpKill(IDLE_ID)
    || ((op.OpBlock? || op.OpTerminate?) && s.current < |s.tasks| && s.tasks[s.current].id == IDLE_ID)
  }

  /** A task with this id is ready or running at some place. */
  lemma IdleIndex(s: Sched) returns (i: nat)
    requires IdleAlive(s)
    ensures i < |s.tasks| && s.tasks[i].id == IDLE_ID && (s.tasks[i].state == Ready || s.tasks[i].state == Running)
  {
    var t :| t in s.tasks && t.id == IDLE_ID && (t.state == Ready || t.state == Running);
    i :| 0 <= i < |s.tasks| && s.tasks[i] == t;
  }

  lemma IdleThere(s: Sched, i: nat)
    requires i < |s.tasks| && s.tasks[i].id == IDLE_ID && (s.tasks[i].state == Ready || s.tasks[i].state == Running)
    ensures IdleAlive(s)
  {
    assert s.tasks[i] in s.tasks;
  }

  lemma DecideLively(s: Sched, i: nat)
    requires s.current < |s.tasks| && i < |s.tasks| && (s.tasks[i].state == Ready || s.tasks[i].state == Running)
    ensures |Decide(s).tasks| == |s.tasks| && Decide(s).tasks[i].id == s.tasks[i].id
    ensures Decide(s).tasks[i].state == Ready || Decide(s).tasks[i].state == Running
  {
    hide Choose, RootOf;
  }

  lemma IdleSchedule(s: Sched)
    requires Inv(s) && IdleAlive(s)
    ensures s.current < |s.tasks| && IdleAlive(Schedule(s))
  {
    hide Inv, Reap, Decide, IdleAlive;
    InvBound(s);
    ReapOk(s, false);
    InvBound(Reap(s, false));
    IdleReap(s, false);
    var i := IdleIndex(Reap(s, false));
    DecideLively(Reap(s, false), i);
    IdleThere(Decide(Reap(s, false)), i);
  }

  lemma IdleTick(s: Sched)
    requires Inv(s) && IdleAlive(s)
    ensures s.current < |s.tasks| && IdleAlive(Tick(s))
  {
    hide Inv, Schedule, IdleAlive;
    InvBound(s);
    var i := IdleIndex(s);
    WakeOk(s, s.now + 1);
    ClockOk(s.(tasks := WakeAll(s.tasks, s.now + 1)), s.now + 1, 0, s.foreground);
    var t := s.(now := s.now + 1, tasks := WakeAll(s.tasks, s.now + 1));
    IdleThere(t.(sinceSwitch := 0), i);
    IdleThere(t.(sinceSwitch := s.sinceSwitch + 1), i);
    if s.sinceSwitch + 1 >= TIME_SLICE_TICKS { IdleSchedule(t.(sinceSwitch := 0)); }
  }

  /** Idle stays alive unless it is killed, or itself sleeps or exits, which its loop never does. */
  lemma IdleKept(s: Sched, op: Op)
    requires Inv(s) && IdleAlive(s) && !EndsIdle(s, op)
    ensures IdleAlive(Exec(s, op))
  {
    hide Inv, Schedule, Reap, Tick, IdleAlive;
    InvBound(s);
    if Possible(s, op) {
      match op
      case OpTick => IdleTick(s);
      case OpSchedule => IdleSchedule(s);
      case OpYield =>
        var i := IdleIndex(s);
        ClockOk(s, s.now, 0, s.foreground);
        IdleThere(s.(sinceSwitch := 0), i);
        IdleSchedule(s.(sinceSwitch := 0));
      case OpReap => IdleReap(s, true);
      case _ =>
        var i := IdleIndex(s);
        IdleThere(Exec(s, op), i);
    }
  }

  predicate NeverEndsIdle(s: Sched, ops: seq<Op>)
    decreases |ops|
  {
    ops == [] || (!EndsIdle(s, ops[0]) && NeverEndsIdle(Exec(s, ops[0]), ops[1..]))
  }

  /** From boot, idle is alive as long as nothing has ended it. */
  lemma {:induction false} IdleRun(s: Sched, ops: seq<Op>)
    requires Inv(s) && IdleAlive(s) && NeverEndsIdle(s, ops)
    ensures IdleAlive(Run(s, ops))
    decreases |ops|
  {
    hide Inv, Exec, IdleAlive, EndsIdle;
    if ops != [] {
      IdleKept(s, ops[0]);
      ExecOk(s, ops[0]);
      IdleRun(Exec(s, ops[0]), ops[1..]);
    }
  }

  // ---- Sleeps cut short ----

  /**
   What a decision does to a current task that has just blocked itself. It keeps the processor exactly when
   no other task is ready; it is then marked running, except alone in the table, where it runs on as blocked.
   */
  lemma SleepCutShort(s: Sched)
    requires Inv(s) && s.tasks[s.current].state == Blocked
    ensures Decide(s).current == s.current
       <==> forall i :: 0 <= i < |s.tasks| && i != s.current ==> s.tasks[i].state != Ready
    ensures Decide(s).current == s.current && |s.tasks| >= 2 ==> Decide(s).tasks[s.current].state == Running
    ensures |s.tasks| == 1 ==> Decide(s) == s
  {
    if i :| 0 <= i < |s.tasks| && i != s.current && s.tasks[i].state == Ready {
      ForegroundNeverPins(s, i);
    } else {
      hide RootsOk, LogOk, TasksOk;
      ChosenReady(Offered(s), s.current, s.foreground);
    }
  }

  /** While idle is alive no sleep of another task is cut short. */
  lemma SleepNotCutShort(s: Sched)
    requires Inv(s) && IdleAlive(s) && s.tasks[s.current].state == Blocked && s.tasks[s.current].id != IDLE_ID
    ensures Decide(s).current != s.current
  {
    hide RootsOk, LogOk;
    var i := IdleIndex(s);
    assert s.tasks[i] in s.tasks;
    assert TaskOk(s, s.tasks[s.current].id, s.tasks[i]);
    ForegroundNeverPins(s, i);
  }

  // ---- A sleep that is cut short ----

  /** The shell kills idle and heartbeat and goes to sleep for ten ticks. */
  function CutShortOps(): seq<Op> {
    [OpSpawnKernel, OpKill(IDLE_ID), OpKill(HEARTBEAT_ID), OpBlock(10), OpSchedule]
  }

  /** A run from boot after which the shell, asleep until tick 10, is running at tick 0. */
  lemma ShellSleepCutShort(k: nat)
    ensures Run(Boot(k), CutShortOps()[..3])
         == Trio(k, Kernel(SHELL_ID, Running, 0), Terminated, Terminated, 0, 0, 0, 0)
    ensures Run(Boot(k), CutShortOps())
         == Trio(k, Kernel(SHELL_ID, Running, 10), Terminated, Terminated, 0, 0, 0, 0)
  {
    hide Run, Schedule;
    var shell := Kernel(SHELL_ID, Running, 0);
    var a, b := Trio(k, shell, Ready, Ready, 0, 0, 0, 0), Trio(k, shell, Terminated, Ready, 0, 0, 0, 0);
    var c := Trio(k, shell, Terminated, Terminated, 0, 0, 0, 0);
    var d := Trio(k, Kernel(SHELL_ID, Blocked, 10), Terminated, Terminated, 0, 0, 0, 0);
    HeartbeatStarts(k);
    ShellKills(k);
    assert Exec(c, OpBlock(10)) == d;
    ResumesAtOnce(k);
    FiveSteps(Boot(k), a, b, c, d, CutShortOps());
    ThreeSteps(Boot(k), a, b, CutShortOps()[..3]);
  }

  lemma ShellKills(k: nat)
    ensures var shell := Kernel(SHELL_ID, Running, 0);
      && Exec(Trio(k, shell, Ready, Ready, 0, 0, 0, 0), OpKill(IDLE_ID))
         == Trio(k, shell, Terminated, Ready, 0, 0, 0, 0)
      && Exec(Trio(k, shell, Terminated, Ready, 0, 0, 0, 0), OpKill(HEARTBEAT_ID))
         == Trio(k, shell, Terminated, Terminated, 0, 0, 0, 0)
  {
    hide FindId;
    var shell := Kernel(SHELL_ID, Running, 0);
    var s, t := Trio(k, shell, Ready, Ready, 0, 0, 0, 0), Trio(k, shell, Terminated, Ready, 0, 0, 0, 0);
    assert s.tasks[1].id == IDLE_ID && t.tasks[2].id == HEARTBEAT_ID;
    assert FindId(s.tasks, IDLE_ID) == Some(1) && FindId(t.tasks, HEARTBEAT_ID) == Some(2);
  }

  lemma ResumesAtOnce(k: nat)
    ensures Exec(Trio(k, Kernel(SHELL_ID, Blocked, 10), Terminated, Terminated, 0, 0, 0, 0), OpSchedule)
         == Trio(k, Kernel(SHELL_ID, Running, 10), Terminated, Terminated, 0, 0, 0, 0)
  {
    hide Reap;
    var s := Trio(k, Kernel(SHELL_ID, Blocked, 10), Terminated, Terminated, 0, 0, 0, 0);
    ReapNobody(s, false);
    assert Queue(Offered(s), 0) == [s.tasks[1], s.tasks[2]];
  }
}
