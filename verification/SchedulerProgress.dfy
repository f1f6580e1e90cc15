/**
 Who runs next, and when: a ready task is picked within a bounded number of
 decisions, a foreground request cannot pin the current task, and a blocked task
 is not picked before its time.
 */
module SchedulerProgress {
  import opened SchedulerModel
  import opened SchedulerSafety

  // ---- Waiting ----

  function Position(queue: seq<Tcb>, id: nat): (k: nat)
    ensures k <= |queue|
    ensures k < |queue| ==> queue[k].id == id
    ensures forall i :: 0 <= i < k ==> queue[i].id != id
  {
    if queue == [] || queue[0].id == id then 0 else 1 + Position(queue[1..], id)
  }

  predicate ReadyIn(queue: seq<Tcb>, id: nat) {
    Position(queue, id) < |queue| && queue[Position(queue, id)].state == Ready
  }

  /** Task `id` is ready and somebody else is current. */
  predicate Waiting(s: Sched, id: nat) { s.current < |s.tasks| && ReadyIn(Queue(s.tasks, s.current), id) }

  /** How many tasks round robin looks at before `id`. */
  function Wait(s: Sched, id: nat): nat
    requires s.current < |s.tasks|
  {
    Position(Queue(s.tasks, s.current), id)
  }

  predicate SameIds(a: seq<Tcb>, b: seq<Tcb>) {
    |a| == |b| && forall i :: 0 <= i < |a| ==> a[i].id == b[i].id
  }

  lemma {:induction false} PositionSame(a: seq<Tcb>, b: seq<Tcb>, id: nat)
    requires SameIds(a, b)
    ensures Position(a, id) == Position(b, id)
  {
    if a != [] && a[0].id != id { PositionSame(a[1..], b[1..], id); }
  }

  lemma WaitSame(s: Sched, t: Sched, id: nat)
    requires s.current < |s.tasks| && t.current == s.current && SameIds(s.tasks, t.tasks)
    ensures Wait(t, id) == Wait(s, id)
  {
    hide Position;
    PositionSame(Queue(s.tasks, s.current), Queue(t.tasks, s.current), id);
  }

  // ---- Reaping shortens waits ----

  lemma {:induction false} KeptPosition(queue: seq<Tcb>, currentId: nat, now: nat, force: bool, id: nat)
    requires ReadyIn(queue, id)
    ensures ReadyIn(Kept(queue, currentId, now, force), id)
    ensures Position(Kept(queue, currentId, now, force), id) <= Position(queue, id)
  {
    var rest := Kept(queue[1..], currentId, now, force);
    if queue[0].id != id {
      assert queue[Position(queue, id)] == queue[1..][Position(queue[1..], id)];
      KeptPosition(queue[1..], currentId, now, force, id);
      PositionCons(queue[0], rest, id);
    } else {
      assert !ShouldReap(queue[0], currentId, now, force);
      assert Position([queue[0]] + rest, id) == 0;
    }
  }

  lemma PositionCons(t: Tcb, rest: seq<Tcb>, id: nat)
    requires t.id != id
    ensures Position([t] + rest, id) == Position(rest, id) + 1
    ensures ReadyIn(rest, id) ==> ReadyIn([t] + rest, id)
  {
    assert ([t] + rest)[1..] == rest;
  }

  /** Reaping removes tasks from the queue and reorders nothing. */
  lemma ReapQueue(s: Sched, force: bool)
    requires Inv(s)
    ensures var r := Reap(s, force);
      && r.current < |r.tasks| && r.foreground == s.foreground && r.now == s.now
      && Queue(r.tasks, r.current) == Kept(Queue(s.tasks, s.current), s.tasks[s.current].id, s.now, force)
  {
    hide Inv;
    InvBound(s);
    FreeReapedIs(s, force, |s.tasks|);
    var id := s.tasks[s.current].id;
    KeptCurrent(s.tasks, s.current, s.now, force);
    KeptConcat(s.tasks[s.current + 1..], s.tasks[..s.current], id, s.now, force);
  }

  lemma ReapWait(s: Sched, force: bool, id: nat)
    requires Inv(s) && Waiting(s, id)
    ensures Waiting(Reap(s, force), id) && Wait(Reap(s, force), id) <= Wait(s, id)
  {
    hide Inv, Reap, Queue, Position, Kept;
    ReapQueue(s, force);
    KeptPosition(Queue(s.tasks, s.current), s.tasks[s.current].id, s.now, force, id);
  }

  // ---- A decision shortens waits strictly ----

  /** The queue seen from the task at position `k` of the queue. */
  lemma Rotated(tasks: seq<Tcb>, current: nat, k: nat)
    requires current < |tasks| && k < |tasks| - 1
    ensures var q := Queue(tasks, current);
      Queue(tasks, At(tasks, current, k)) == q[k + 1..] + [tasks[current]] + q[..k]
  {
    var q, i, n := Queue(tasks, current), At(tasks, current, k), |tasks|;
    if current + 1 + k < n {
      assert i == current + 1 + k;
      assert q[k + 1..] == tasks[i + 1..] + tasks[..current];
      assert q[..k] == tasks[current + 1..i];
      assert tasks[..i] == tasks[..current] + [tasks[current]] + tasks[current + 1..i];
    } else {
      assert i == current + 1 + k - n;
      assert q[k + 1..] == tasks[i + 1..current];
      assert q[..k] == tasks[current + 1..] + tasks[..i];
      assert tasks[i + 1..] == tasks[i + 1..current] + [tasks[current]] + tasks[current + 1..];
    }
  }

  lemma {:induction false} PositionDrop(q: seq<Tcb>, rest: seq<Tcb>, k: nat, id: nat)
    requires k < Position(q, id) < |q|
    ensures Position(q[k + 1..] + rest, id) == Position(q, id) - k - 1
  {
    if k == 0 {
      PositionConcat(q[1..], rest, id);
    } else {
      PositionDrop(q[1..], rest, k - 1, id);
      assert q[1..][k..] == q[k + 1..];
    }
  }

  lemma {:induction false} PositionConcat(q: seq<Tcb>, rest: seq<Tcb>, id: nat)
    requires Position(q, id) < |q|
    ensures Position(q + rest, id) == Position(q, id)
  {
    if q[0].id != id {
      PositionConcat(q[1..], rest, id);
      assert (q + rest)[1..] == q[1..] + rest;
    }
  }

  lemma OfferedQueue(s: Sched)
    requires s.current < |s.tasks|
    ensures Queue(Offered(s), s.current) == Queue(s.tasks, s.current) && SameIds(Offered(s), s.tasks)
  {
  }

  lemma SwitchIds(s: Sched, next: nat)
    requires s.current < |s.tasks| && next < |s.tasks|
    ensures SameIds(SwitchTo(s, next).tasks, s.tasks) && SwitchTo(s, next).current == next
    ensures SwitchTo(s, next).foreground == s.foreground
  {
  }

  /** Seen from the task at position `k`, a task further down the queue is closer. */
  lemma Closer(tasks: seq<Tcb>, current: nat, k: nat, id: nat)
    requires current < |tasks| && k < Position(Queue(tasks, current), id) < |Queue(tasks, current)|
    ensures Position(Queue(tasks, At(tasks, current, k)), id) < Position(Queue(tasks, current), id)
  {
    hide Position, At;
    var q := Queue(tasks, current);
    Rotated(tasks, current, k);
    PositionDrop(q, [tasks[current]] + q[..k], k, id);
    assert q[k + 1..] + ([tasks[current]] + q[..k]) == q[k + 1..] + [tasks[current]] + q[..k];
  }

  /** Round robin picks `id` or moves strictly closer to it. */
  lemma DecideProgress(s: Sched, id: nat)
    requires s.current < |s.tasks| && s.foreground == 0 && Waiting(s, id)
    ensures var t := Decide(s);
      && t.current < |t.tasks| && t.foreground == 0
      && (t.tasks[t.current].id == id || Wait(t, id) < Wait(s, id))
  {
    hide SwitchTo, Offered, Position, Queue, FirstReady;
    var q, tasks := Queue(s.tasks, s.current), Offered(s);
    OfferedQueue(s);
    QueueLength(s.tasks, s.current);
    var k := FirstReady(q).value;
    var next := At(tasks, s.current, k);
    var m := s.(tasks := tasks, foreground := 0);
    SwitchIds(m, next);
    if k < Position(q, id) {
      Closer(tasks, s.current, k, id);
      WaitSame(m.(current := next), SwitchTo(m, next), id);
    }
  }

  lemma ScheduleProgress(s: Sched, id: nat)
    requires Inv(s) && s.foreground == 0 && Waiting(s, id)
    ensures var t := Schedule(s);
      && t.current < |t.tasks| && t.foreground == 0
      && (t.tasks[t.current].id == id || Wait(t, id) < Wait(s, id))
  {
    hide Inv, Reap, Decide, Waiting, Wait;
    InvBound(s);
    ReapQueue(s, false);
    ReapWait(s, false, id);
    DecideProgress(Reap(s, false), id);
  }

  // ---- Runs ----

  /** Nobody asks for the foreground and no task is added. */
  predicate Quiet(op: Op) { !op.OpForeground? && !op.OpSpawnKernel? && !op.OpSpawnUser? }

  /** The operation takes a scheduling decision. */
  predicate Decides(s: Sched, op: Op) {
    op.OpSchedule? || op.OpYield? || (op.OpTick? && s.sinceSwitch + 1 >= TIME_SLICE_TICKS)
  }

  function Decisions(s: Sched, ops: seq<Op>): nat
    decreases |ops|
  {
    if ops == [] then 0 else (if Decides(s, ops[0]) then 1 else 0) + Decisions(Exec(s, ops[0]), ops[1..])
  }

  /** In every state of the run `id` is ready but not current. */
  predicate KeepsWaiting(s: Sched, ops: seq<Op>, id: nat)
    decreases |ops|
  {
    Waiting(s, id) && (ops == [] || KeepsWaiting(Exec(s, ops[0]), ops[1..], id))
  }

  lemma WokenWaiting(s: Sched, id: nat, now: nat, since: nat)
    requires Waiting(s, id)
    ensures var t := s.(now := now, sinceSwitch := since, tasks := WakeAll(s.tasks, now));
      Waiting(t, id) && Wait(t, id) == Wait(s, id)
  {
    hide Position;
    var t := s.(now := now, sinceSwitch := since, tasks := WakeAll(s.tasks, now));
    WaitSame(s, t, id);
    var q, p, k := Queue(s.tasks, s.current), Queue(t.tasks, s.current), Wait(s, id);
    assert p[k] == Woken(q[k], now);
  }

  lemma NotCurrent(t: Sched, id: nat)
    requires t.current < |t.tasks| && Waiting(t, id) && Unique(t.tasks)
    ensures t.tasks[t.current].id != id
  {
    var q := Queue(t.tasks, t.current);
    var k := Position(q, id);
    assert t.tasks[At(t.tasks, t.current, k)] == q[k];
  }

  lemma TickStep(s: Sched, id: nat)
    requires Inv(s) && s.foreground == 0 && Waiting(s, id) && Waiting(Tick(s), id)
    requires s.sinceSwitch + 1 >= TIME_SLICE_TICKS
    ensures Wait(Tick(s), id) < Wait(s, id) && Tick(s).foreground == 0
  {
    hide Inv, Schedule, Waiting, Wait, WakeAll;
    ExecOk(s, OpTick);
    InvBound(s);
    WakeOk(s, s.now + 1);
    WokenWaiting(s, id, s.now + 1, 0);
    ClockOk(s.(tasks := WakeAll(s.tasks, s.now + 1)), s.now + 1, 0, s.foreground);
    ScheduleProgress(s.(now := s.now + 1, tasks := WakeAll(s.tasks, s.now + 1)).(sinceSwitch := 0), id);
    InvUnique(Tick(s));
    NotCurrent(Tick(s), id);
  }

  lemma InvUnique(s: Sched)
    requires Inv(s)
    ensures s.current < |s.tasks| && Unique(s.tasks)
  {
  }

  lemma KillSame(s: Sched, id: nat)
    requires s.current < |s.tasks|
    ensures SameIds(s.tasks, Kill(s, id).tasks) && Kill(s, id).current == s.current
    ensures Kill(s, id).foreground == s.foreground
  {
  }

  lemma ActivateSame(s: Sched, id: nat)
    ensures SameIds(s.tasks, Activate(s, id).tasks) && Activate(s, id).current == s.current
    ensures Activate(s, id).foreground == s.foreground
  {
  }

  lemma YieldStep(s: Sched, since: nat, id: nat)
    requires Inv(s) && s.foreground == 0 && Waiting(s, id) && Waiting(Schedule(s.(sinceSwitch := since)), id)
    ensures var t := Schedule(s.(sinceSwitch := since)); Wait(t, id) < Wait(s, id) && t.foreground == 0
  {
    hide Inv, Schedule, Position;
    ClockOk(s, s.now, since, s.foreground);
    assert s.(sinceSwitch := since) == s.(now := s.now, sinceSwitch := since, foreground := s.foreground);
    ScheduleProgress(s.(sinceSwitch := since), id);
    ScheduleOk(s.(sinceSwitch := since));
    InvUnique(Schedule(s.(sinceSwitch := since)));
    NotCurrent(Schedule(s.(sinceSwitch := since)), id);
  }

  /** No quiet operation lengthens a wait, whether or not a request is outstanding. */
  lemma CalmStep(s: Sched, op: Op, id: nat)
    requires Inv(s) && Quiet(op) && !Decides(s, op) && Waiting(s, id) && Waiting(Exec(s, op), id)
    ensures Exec(s, op).foreground == s.foreground && Wait(Exec(s, op), id) <= Wait(s, id)
  {
    hide Inv, Schedule, Reap, Kill, Activate, Waiting, Wait, WakeAll;
    InvBound(s);
    var t := Exec(s, op);
    if Possible(s, op) {
      match op
      case OpTick => WokenWaiting(s, id, s.now + 1, s.sinceSwitch + 1);
      case OpReap =>
        ReapQueue(s, true);
        ReapWait(s, true, id);
      case OpKill(k) =>
        KillSame(s, k);
        WaitSame(s, t, id);
      case OpActivate(k) =>
        ActivateSame(s, k);
        WaitSame(s, t, id);
      case OpBlock(_) => WaitSame(s, t, id);
      case OpTerminate => WaitSame(s, t, id);
      case OpNewSpace(_) => WaitSame(s, t, id);
      case OpFailSpawn(_) => WaitSame(s, t, id);
      case OpRelease(_) => WaitSame(s, t, id);
    }
  }

  /** No quiet operation lengthens a wait, and each decision shortens it. */
  lemma QuietStep(s: Sched, op: Op, id: nat)
    requires Inv(s) && s.foreground == 0 && Quiet(op) && Waiting(s, id) && Waiting(Exec(s, op), id)
    ensures Exec(s, op).foreground == 0
    ensures Wait(Exec(s, op), id) + (if Decides(s, op) then 1 else 0) <= Wait(s, id)
  {
    hide Inv, Schedule, Waiting, Wait, Tick;
    InvBound(s);
    if !Decides(s, op) {
      CalmStep(s, op, id);
    } else {
      match op
      case OpTick => TickStep(s, id);
      case OpSchedule =>
        assert s.(sinceSwitch := s.sinceSwitch) == s;
        YieldStep(s, s.sinceSwitch, id);
      case OpYield => YieldStep(s, 0, id);
    }
  }

  predicate AllQuiet(ops: seq<Op>) { forall i :: 0 <= i < |ops| ==> Quiet(ops[i]) }

  lemma {:induction false} DecisionsBound(s: Sched, ops: seq<Op>, id: nat)
    requires Inv(s) && s.foreground == 0 && AllQuiet(ops) && KeepsWaiting(s, ops, id)
    ensures s.current < |s.tasks| && Decisions(s, ops) <= Wait(s, id)
    decreases |ops|
  {
    hide Inv, Exec, Waiting, Wait, Decides;
    InvBound(s);
    if ops != [] {
      KeepsNow(Exec(s, ops[0]), ops[1..], id);
      QuietStep(s, ops[0], id);
      ExecOk(s, ops[0]);
      DecisionsBound(Exec(s, ops[0]), ops[1..], id);
    }
  }

  lemma KeepsNow(s: Sched, ops: seq<Op>, id: nat)
    requires KeepsWaiting(s, ops, id)
    ensures Waiting(s, id)
  {
  }

  /** A task that stays ready is picked within n - 1 decisions: it cannot be passed over that often. */
  lemma PickedInTime(s: Sched, ops: seq<Op>, id: nat)
    requires Inv(s) && s.foreground == 0 && AllQuiet(ops) && KeepsWaiting(s, ops, id)
    ensures Decisions(s, ops) < |s.tasks| - 1
  {
    hide Inv, Decisions, Position;
    DecisionsBound(s, ops, id);
    KeepsNow(s, ops, id);
  }

  // ---- Foreground requests ----

  /** Whatever the request, the current task does not run again while another task is ready. */
  lemma ForegroundNeverPins(s: Sched, other: nat)
    requires Inv(s) && other < |s.tasks| && other != s.current && s.tasks[other].state == Ready
    ensures Decide(s).current != s.current
    ensures s.foreground != 0 && s.tasks[other].id == s.foreground ==> Decide(s).current == other
  {
    hide RootsOk, LogOk, TasksOk, SwitchTo, Queue;
    var tasks := Offered(s);
    assert tasks[other] == s.tasks[other] && tasks[s.current].id == s.tasks[s.current].id;
    var next := Choose(tasks, s.current, s.foreground);
    InQueue(tasks, s.current, other);
    SwitchIds(s.(tasks := tasks, foreground := 0), next);
    OfferedUnique(s);
  }

  lemma OfferedUnique(s: Sched)
    requires s.current < |s.tasks| && Unique(s.tasks)
    ensures forall i, j :: 0 <= i < j < |Offered(s)| ==> Offered(s)[i].id != Offered(s)[j].id
  {
  }

  lemma InQueue(tasks: seq<Tcb>, current: nat, other: nat)
    requires current < |tasks| && other < |tasks| && other != current && tasks[other].state == Ready
    ensures FirstReady(Queue(tasks, current)).Some?
  {
    var q := Queue(tasks, current);
    var k := if other > current then other - current - 1 else |tasks| - current - 1 + other;
    assert q[k] == tasks[other];
  }

  // ---- Sleepers and suspended tasks ----

  /** Task `id` is blocked: until tick `wake`, or until activated if `wake` is 0. */
  ghost predicate Asleep(s: Sched, id: nat, wake: nat) {
    exists t :: t in s.tasks && t.id == id && t.state == Blocked && t.wakeAt == wake
  }

  /** The idle task is ready or running. */
  ghost predicate IdleAlive(s: Sched) {
    exists t :: t in s.tasks && t.id == IDLE_ID && (t.state == Ready || t.state == Running)
  }

  /** The operation is neither an end of the sleep nor an action of the sleeper itself. */
  predicate LeavesAsleep(s: Sched, op: Op, id: nat, wake: nat) {
    && s.current < |s.tasks|
    && op != OpKill(id)
    && (wake == 0 ==> op != OpActivate(id))
    && (op.OpBlock? || op.OpTerminate? ==> s.tasks[s.current].id != id)
  }

  lemma AsleepIndex(s: Sched, id: nat, wake: nat) returns (i: nat)
    requires Asleep(s, id, wake)
    ensures i < |s.tasks| && s.tasks[i].id == id && s.tasks[i].state == Blocked && s.tasks[i].wakeAt == wake
  {
    var t :| t in s.tasks && t.id == id && t.state == Blocked && t.wakeAt == wake;
    i :| 0 <= i < |s.tasks| && s.tasks[i] == t;
  }

  lemma AsleepReap(s: Sched, force: bool, id: nat, wake: nat)
    requires Inv(s) && Asleep(s, id, wake)
    ensures Asleep(Reap(s, force), id, wake)
  {
    hide Inv, Kept;
    InvBound(s);
    FreeReapedIs(s, force, |s.tasks|);
    var t :| t in s.tasks && t.id == id && t.state == Blocked && t.wakeAt == wake;
    KeptMember(s.tasks, s.tasks[s.current].id, s.now, force, t);
  }

  lemma IdleReap(s: Sched, force: bool)
    requires Inv(s) && IdleAlive(s)
    ensures IdleAlive(Reap(s, force))
  {
    hide Inv, Kept;
    InvBound(s);
    FreeReapedIs(s, force, |s.tasks|);
    var t :| t in s.tasks && t.id == IDLE_ID && (t.state == Ready || t.state == Running);
    KeptMember(s.tasks, s.tasks[s.current].id, s.now, force, t);
  }

  /** With idle alive a decision never resumes a blocked current task, and never picks a blocked one. */
  lemma AsleepDecide(s: Sched, id: nat, wake: nat)
    requires Inv(s) && IdleAlive(s) && id != IDLE_ID && Asleep(s, id, wake)
    ensures Asleep(Decide(s), id, wake)
  {
    hide RootsOk, LogOk;
    var i := AsleepIndex(s, id, wake);
    var idle :| idle in s.tasks && idle.id == IDLE_ID && (idle.state == Ready || idle.state == Running);
    var j :| 0 <= j < |s.tasks| && s.tasks[j] == idle;
    assert i != j;
    if i == s.current {
      assert TaskOk(s, s.tasks[s.current].id, idle);
      ForegroundNeverPins(s, j);
    }
    DecideLeaves(s, i);
    assert Decide(s).tasks[i] in Decide(s).tasks;
  }

  /** A decision changes nothing about a blocked task it does not resume. */
  lemma DecideLeaves(s: Sched, i: nat)
    requires s.current < |s.tasks| && i < |s.tasks| && s.tasks[i].state == Blocked
    requires i == s.current ==> Decide(s).current != s.current
    ensures |Decide(s).tasks| == |s.tasks| && Decide(s).tasks[i] == s.tasks[i]
  {
    hide Choose, RootOf;
    if |s.tasks| >= 2 {
      var tasks := Offered(s);
      ChosenReady(tasks, s.current, s.foreground);
    }
  }

  lemma AsleepSchedule(s: Sched, id: nat, wake: nat)
    requires Inv(s) && IdleAlive(s) && id != IDLE_ID && Asleep(s, id, wake)
    ensures Asleep(Schedule(s), id, wake)
  {
    hide Inv, Reap, Decide, IdleAlive, Asleep;
    InvBound(s);
    ReapOk(s, false);
    InvBound(Reap(s, false));
    AsleepReap(s, false, id, wake);
    IdleReap(s, false);
    AsleepDecide(Reap(s, false), id, wake);
  }

  lemma AsleepWake(s: Sched, id: nat, wake: nat, now: nat, since: nat)
    requires Asleep(s, id, wake) && IdleAlive(s) && (wake != 0 ==> now < wake)
    ensures var t := s.(now := now, sinceSwitch := since, tasks := WakeAll(s.tasks, now));
      Asleep(t, id, wake) && IdleAlive(t)
  {
    var t := s.(now := now, sinceSwitch := since, tasks := WakeAll(s.tasks, now));
    var i := AsleepIndex(s, id, wake);
    assert t.tasks[i] in t.tasks;
    var idle :| idle in s.tasks && idle.id == IDLE_ID && (idle.state == Ready || idle.state == Running);
    var j :| 0 <= j < |s.tasks| && s.tasks[j] == idle;
    assert t.tasks[j] in t.tasks;
  }

  /** A task changed at an index other than the sleeper's leaves the sleeper. */
  lemma AsleepElsewhere(s: Sched, tasks: seq<Tcb>, id: nat, wake: nat)
    requires Asleep(s, id, wake) && |s.tasks| <= |tasks|
    requires forall k :: 0 <= k < |s.tasks| && s.tasks[k].id == id ==> tasks[k] == s.tasks[k]
    ensures forall t: Sched :: t.tasks == tasks ==> Asleep(t, id, wake)
  {
    var i := AsleepIndex(s, id, wake);
    assert tasks[i] in tasks;
  }

  lemma AsleepTick(s: Sched, id: nat, wake: nat)
    requires Inv(s) && IdleAlive(s) && id != IDLE_ID && Asleep(s, id, wake)
    requires wake != 0 ==> Tick(s).now < wake
    ensures Asleep(Tick(s), id, wake)
  {
    hide Inv, Schedule, WakeAll, IdleAlive, Asleep;
    NowAfterTick(s);
    if s.sinceSwitch + 1 >= TIME_SLICE_TICKS {
      WakeOk(s, s.now + 1);
      AsleepWake(s, id, wake, s.now + 1, 0);
      ClockOk(s.(tasks := WakeAll(s.tasks, s.now + 1)), s.now + 1, 0, s.foreground);
      AsleepSchedule(s.(now := s.now + 1, tasks := WakeAll(s.tasks, s.now + 1)).(sinceSwitch := 0), id, wake);
    } else {
      AsleepWake(s, id, wake, s.now + 1, s.sinceSwitch + 1);
    }
  }

  lemma AsleepKill(s: Sched, k: nat, id: nat, wake: nat)
    requires Inv(s) && Asleep(s, id, wake) && k != id
    ensures Asleep(Kill(s, k), id, wake)
  {
    hide Inv, RootOf;
    InvBound(s);
    AsleepElsewhere(s, Kill(s, k).tasks, id, wake);
  }

  lemma AsleepStep(s: Sched, op: Op, id: nat, wake: nat)
    requires Inv(s) && IdleAlive(s) && id != IDLE_ID && Asleep(s, id, wake) && LeavesAsleep(s, op, id, wake)
    requires wake != 0 ==> Exec(s, op).now < wake
    ensures Asleep(Exec(s, op), id, wake)
  {
    hide Inv, Schedule, Reap, Tick, Kill, Activate, IdleAlive, Asleep;
    if Possible(s, op) {
      match op
      case OpTick => AsleepTick(s, id, wake);
      case OpSchedule => AsleepSchedule(s, id, wake);
      case OpYield =>
        ClockOk(s, s.now, 0, s.foreground);
        SameTasks(s, s.(sinceSwitch := 0), id, wake);
        AsleepSchedule(s.(sinceSwitch := 0), id, wake);
      case OpReap => AsleepReap(s, true, id, wake);
      case OpKill(k) => AsleepKill(s, k, id, wake);
      case OpActivate(k) => AsleepActivate(s, k, id, wake);
      case _ => AsleepElsewhere(s, Exec(s, op).tasks, id, wake);
    }
  }

  lemma AsleepActivate(s: Sched, k: nat, id: nat, wake: nat)
    requires Inv(s) && Asleep(s, id, wake) && (wake == 0 ==> k != id)
    ensures Asleep(Activate(s, k), id, wake)
  {
    var i := AsleepIndex(s, id, wake);
    var found := FindId(s.tasks, k);
    var u := Activate(s, k);
    if found.Some? && found.value == i { assert s.tasks[i].id == k; }
    assert u.tasks[i] in u.tasks;
  }

  lemma SameTasks(s: Sched, t: Sched, id: nat, wake: nat)
    requires t.tasks == s.tasks && Asleep(s, id, wake) && IdleAlive(s)
    ensures Asleep(t, id, wake) && IdleAlive(t)
  {
  }

  lemma NowAfterTick(s: Sched)
    requires Inv(s)
    ensures Tick(s).now == s.now + 1
  {
    hide Inv, Schedule;
    InvBound(s);
    WakeOk(s, s.now + 1);
    ClockOk(s.(tasks := WakeAll(s.tasks, s.now + 1)), s.now + 1, 0, s.foreground);
    NowAfterSchedule(s.(now := s.now + 1, tasks := WakeAll(s.tasks, s.now + 1)).(sinceSwitch := 0));
  }

  lemma NowAfterSchedule(s: Sched)
    requires Inv(s)
    ensures s.current < |s.tasks| && Schedule(s).now == s.now
  {
    hide Inv, Reap, Decide, Queue, Kept;
    InvBound(s);
    ReapQueue(s, false);
    NowAfterDecide(Reap(s, false));
  }

  lemma NowAfterDecide(s: Sched)
    requires s.current < |s.tasks|
    ensures Decide(s).now == s.now
  {
    hide Offered, Choose;
  }

  /** The run keeps idle alive and contains nothing that ends the sleep before tick `wake`. */
  ghost predicate Undisturbed(s: Sched, ops: seq<Op>, id: nat, wake: nat)
    decreases |ops|
  {
    IdleAlive(s) &&
    (ops == []
     || (&& LeavesAsleep(s, ops[0], id, wake)
         && (wake != 0 ==> Exec(s, ops[0]).now < wake)
         && Undisturbed(Exec(s, ops[0]), ops[1..], id, wake)))
  }

  /** A sleeper is not picked before its wake tick, nor a suspended task before its activation. */
  lemma {:induction false} NotPickedEarly(s: Sched, ops: seq<Op>, id: nat, wake: nat)
    requires Inv(s) && id != IDLE_ID && Asleep(s, id, wake) && Undisturbed(s, ops, id, wake)
    ensures Asleep(Run(s, ops), id, wake)
    decreases |ops|
  {
    hide Inv, Exec, Asleep, IdleAlive;
    if ops != [] {
      AsleepStep(s, ops[0], id, wake);
      ExecOk(s, ops[0]);
      NotPickedEarly(Exec(s, ops[0]), ops[1..], id, wake);
    }
  }
}
