/**
 Waiting under foreground requests. A request is answered once, so each one costs a
 ready task at most one round; without a bound on requests there is no bound on the
 wait, and two tasks can keep a third from ever being picked.
 */
module SchedulerFairness {
  import opened Prelude
  import opened SchedulerModel
  import opened SchedulerSafety
  import opened SchedulerProgress
  import opened SchedulerLifecycle

  predicate Spawns(op: Op) { op.OpSpawnKernel? || op.OpSpawnUser? }

  function SpawnCount(ops: seq<Op>): nat {
    if ops == [] then 0 else (if Spawns(ops[0]) then 1 else 0) + SpawnCount(ops[1..])
  }

  function RequestCount(ops: seq<Op>): nat {
    if ops == [] then 0 else (if ops[0].OpForeground? then 1 else 0) + RequestCount(ops[1..])
  }

  /** The wait, and one round of a table of `bound` tasks if a request is outstanding. */
  function Debt(s: Sched, id: nat, bound: nat): nat
    requires s.current < |s.tasks|
  {
    Wait(s, id) + if s.foreground != 0 then bound else 0
  }

  // ---- Table sizes ----

  lemma {:induction false} KeptShorter(tasks: seq<Tcb>, id: nat, now: nat, force: bool)
    ensures |Kept(tasks, id, now, force)| <= |tasks|
  {
    if tasks != [] { KeptShorter(tasks[1..], id, now, force); }
  }

  lemma DecideClears(s: Sched)
    requires s.current < |s.tasks| && |s.tasks| >= 2
    ensures Decide(s).foreground == 0 && |Decide(s).tasks| == |s.tasks|
  {
    hide Offered, Choose;
  }

  lemma ScheduleClears(s: Sched, id: nat)
    requires Inv(s) && Waiting(s, id)
    ensures s.current < |s.tasks| && Schedule(s).foreground == 0 && |Schedule(s).tasks| <= |s.tasks|
  {
    hide Inv, Decide, Wait, Kept, Position;
    InvBound(s);
    ReapWait(s, false, id);
    KeptShorter(s.tasks, s.tasks[s.current].id, s.now, false);
    DecideClears(Reap(s, false));
  }

  /** A decision consumes the request. */
  lemma DecisionClears(s: Sched, op: Op, id: nat)
    requires Inv(s) && Waiting(s, id) && Decides(s, op)
    ensures Exec(s, op).foreground == 0 && |Exec(s, op).tasks| <= |s.tasks|
  {
    hide Inv, Schedule, Waiting, WakeAll;
    InvBound(s);
    match op
    case OpSchedule => ScheduleClears(s, id);
    case OpYield =>
      ClockOk(s, s.now, 0, s.foreground);
      assert s.(sinceSwitch := 0) == s.(now := s.now, sinceSwitch := 0, foreground := s.foreground);
      SameWaiting(s, s.(sinceSwitch := 0), id);
      ScheduleClears(s.(sinceSwitch := 0), id);
    case OpTick =>
      WakeOk(s, s.now + 1);
      WokenWaiting(s, id, s.now + 1, 0);
      ClockOk(s.(tasks := WakeAll(s.tasks, s.now + 1)), s.now + 1, 0, s.foreground);
      ScheduleClears(s.(now := s.now + 1, tasks := WakeAll(s.tasks, s.now + 1)).(sinceSwitch := 0), id);
  }

  lemma SameWaiting(s: Sched, t: Sched, id: nat)
    requires Waiting(s, id) && t.tasks == s.tasks && t.current == s.current
    ensures Waiting(t, id)
  {
  }

  lemma CalmSize(s: Sched, op: Op)
    requires s.current < |s.tasks| && !Decides(s, op)
    ensures |Exec(s, op).tasks| <= |s.tasks| + if Spawns(op) then 1 else 0
  {
    hide Schedule, Kept;
    KeptShorter(s.tasks, s.tasks[s.current].id, s.now, true);
  }

  // ---- One operation ----

  lemma {:induction false} PositionInsert(a: seq<Tcb>, t: Tcb, b: seq<Tcb>, id: nat)
    ensures Position(a + [t] + b, id) <= Position(a + b, id) + 1
  {
    if a == [] {
      assert (a + [t] + b)[0] == t && (a + [t] + b)[1..] == b && a + b == b;
    } else {
      PositionInsert(a[1..], t, b, id);
      assert (a + [t] + b)[1..] == a[1..] + [t] + b && (a + b)[1..] == a[1..] + b;
    }
  }

  lemma PushWait(s: Sched, u: Sched, t: Tcb, id: nat)
    requires s.current < |s.tasks| && u.tasks == s.tasks + [t] && u.current == s.current
    ensures Wait(u, id) <= Wait(s, id) + 1
  {
    hide Position;
    PositionInsert(s.tasks[s.current + 1..], t, s.tasks[..s.current], id);
    assert u.tasks[s.current + 1..] == s.tasks[s.current + 1..] + [t] && u.tasks[..s.current] == s.tasks[..s.current];
  }

  lemma SpawnWait(s: Sched, op: Op, id: nat)
    requires s.current < |s.tasks| && Spawns(op)
    ensures var t := Exec(s, op);
      t.current < |t.tasks| && t.foreground == s.foreground && Wait(t, id) <= Wait(s, id) + 1
  {
    hide Wait;
    var t := Exec(s, op);
    if |t.tasks| > |s.tasks| {
      PushWait(s, t, t.tasks[|s.tasks|], id);
    } else {
      WaitSame(s, t, id);
    }
  }

  lemma WaitBound(s: Sched, id: nat)
    requires Waiting(s, id)
    ensures Wait(s, id) + 2 <= |s.tasks|
  {
    hide Position;
  }

  /** Decisions are paid for: each lowers the debt, only requests and new tasks raise it. */
  lemma AnyStep(s: Sched, op: Op, id: nat, bound: nat)
    requires Inv(s) && Waiting(s, id) && Waiting(Exec(s, op), id)
    requires |s.tasks| + (if Spawns(op) then 1 else 0) <= bound
    ensures |Exec(s, op).tasks| <= |s.tasks| + if Spawns(op) then 1 else 0
    ensures Debt(Exec(s, op), id, bound) + (if Decides(s, op) then 1 else 0)
         <= Debt(s, id, bound) + (if Spawns(op) then 1 else 0) + if op.OpForeground? then bound else 0
  {
    hide Inv, Exec, Waiting, Wait;
    InvBound(s);
    InvUnique(s);
    if Decides(s, op) {
      DecisionClears(s, op, id);
      if s.foreground == 0 {
        QuietStep(s, op, id);
      } else {
        ExecOk(s, op);
        WaitBound(Exec(s, op), id);
      }
    } else {
      CalmSize(s, op);
      if Spawns(op) {
        SpawnWait(s, op, id);
      } else if op.OpForeground? {
        RequestWait(s, op, id);
      } else {
        CalmStep(s, op, id);
      }
    }
  }

  lemma RequestWait(s: Sched, op: Op, id: nat)
    requires s.current < |s.tasks| && op.OpForeground?
    ensures var t := Exec(s, op); t.current < |t.tasks| && Wait(t, id) == Wait(s, id)
  {
    hide Wait;
    WaitSame(s, Exec(s, op), id);
  }

  // ---- Runs ----

  lemma {:induction false} DebtPays(s: Sched, ops: seq<Op>, id: nat, bound: nat)
    requires Inv(s) && KeepsWaiting(s, ops, id) && |s.tasks| + SpawnCount(ops) <= bound
    ensures s.current < |s.tasks|
    ensures Decisions(s, ops) <= Debt(s, id, bound) + SpawnCount(ops) + bound * RequestCount(ops)
    decreases |ops|
  {
    hide Inv, Exec, Waiting, Wait, Decides, Debt;
    InvBound(s);
    if ops != [] {
      KeepsNow(Exec(s, ops[0]), ops[1..], id);
      AnyStep(s, ops[0], id, bound);
      ExecOk(s, ops[0]);
      DebtPays(Exec(s, ops[0]), ops[1..], id, bound);
      var r := RequestCount(ops[1..]);
      assert bound * (1 + r) == bound + bound * r;
    }
  }

  /**
   A task that stays ready over any run is passed over less than one round for each request, for the one
   outstanding at the start, and once more; a round counts every task of the start and every new one.
   */
  lemma PickedDespiteRequests(s: Sched, ops: seq<Op>, id: nat)
    requires Inv(s) && KeepsWaiting(s, ops, id)
    ensures var rounds := RequestCount(ops) + (if s.foreground != 0 then 1 else 0) + 1;
      Decisions(s, ops) < (|s.tasks| + SpawnCount(ops)) * rounds
  {
    hide Inv, Decisions, Wait, SpawnCount, RequestCount;
    var bound, r := |s.tasks| + SpawnCount(ops), RequestCount(ops);
    InvBound(s);
    DebtPays(s, ops, id, bound);
    KeepsNow(s, ops, id);
    WaitBound(s, id);
    Product(bound, r, if s.foreground != 0 then 1 else 0);
  }

  lemma Product(bound: nat, r: nat, extra: nat)
    requires extra <= 1
    ensures bound * (r + extra + 1) == bound * r + (if extra == 1 then bound else 0) + bound
  {
  }

  // ---- Two tasks that starve a third ----

  /** The shell is asked for before every decision. */
  function Round(): seq<Op> { [OpForeground(SHELL_ID), OpYield, OpForeground(SHELL_ID), OpYield] }

  function Rounds(n: nat): seq<Op> { if n == 0 then [] else Round() + Rounds(n - 1) }

  function Started(k: nat): Sched { Trio(k, Kernel(SHELL_ID, Running, 0), Ready, Ready, 0, 0, 0, 0) }

  /** The shell asks for itself while current: the request has no answer and idle is next. */
  lemma ToIdle(k: nat)
    ensures Exec(Exec(Started(k), OpForeground(SHELL_ID)), OpYield) == AtIdle(k)
  {
    hide Reap, FindWanted;
    var s := Exec(Started(k), OpForeground(SHELL_ID)).(sinceSwitch := 0);
    ReapNobody(s, false);
    var tasks := Offered(s);
    assert Queue(tasks, 0)[0] == tasks[1];
    assert FindWanted(tasks, SHELL_ID, SHELL_ID) == None;
    assert SwitchTo(s.(tasks := tasks, foreground := 0), 1).tasks == AtIdle(k).tasks;
  }

  function AtIdle(k: nat): Sched { Trio(k, Kernel(SHELL_ID, Ready, 0), Running, Ready, 1, 0, 0, 0) }

  /** While idle is current the request is answered, and heartbeat is passed over. */
  lemma ToShell(k: nat)
    ensures Exec(Exec(AtIdle(k), OpForeground(SHELL_ID)), OpYield) == Started(k)
  {
    hide Reap, Queue;
    var s := Exec(AtIdle(k), OpForeground(SHELL_ID)).(sinceSwitch := 0);
    ReapNobody(s, false);
    var tasks := Offered(s);
    assert FindWanted(tasks, SHELL_ID, IDLE_ID) == Some(0);
    assert SwitchTo(s.(tasks := tasks, foreground := 0), 0).tasks == Started(k).tasks;
  }

  lemma HeartbeatWaits(k: nat)
    ensures var a, b := Started(k), AtIdle(k);
      && Waiting(a, HEARTBEAT_ID) && Waiting(Exec(a, OpForeground(SHELL_ID)), HEARTBEAT_ID)
      && Waiting(b, HEARTBEAT_ID) && Waiting(Exec(b, OpForeground(SHELL_ID)), HEARTBEAT_ID)
  {
    var a, b := Started(k), AtIdle(k);
    assert Queue(a.tasks, 0) == [a.tasks[1], a.tasks[2]];
    assert Queue(b.tasks, 1) == [b.tasks[2], b.tasks[0]];
  }

  lemma TwoOps(s: Sched, a: Op, b: Op, rest: seq<Op>, id: nat)
    requires Waiting(s, id) && Waiting(Exec(s, a), id)
    ensures var t := Exec(Exec(s, a), b); var ops := [a, b] + rest;
      && Run(s, ops) == Run(t, rest)
      && (KeepsWaiting(t, rest, id) ==> KeepsWaiting(s, ops, id))
      && Decisions(s, ops) == (if Decides(s, a) then 1 else 0) + (if Decides(Exec(s, a), b) then 1 else 0)
                              + Decisions(t, rest)
      && RequestCount(ops) == (if a.OpForeground? then 1 else 0) + (if b.OpForeground? then 1 else 0)
                              + RequestCount(rest)
  {
    hide Exec, Waiting, Decides;
    var ops := [a, b] + rest;
    assert ops[1..] == [b] + rest && ops[1..][1..] == rest;
    assert KeepsWaiting(s, ops, id) == KeepsWaiting(Exec(s, a), ops[1..], id);
    assert KeepsWaiting(Exec(s, a), ops[1..], id) == KeepsWaiting(Exec(Exec(s, a), b), rest, id);
  }

  /** However long the run, heartbeat is ready in every state of it and never picked. */
  lemma {:induction false} HeartbeatStarves(k: nat, n: nat)
    ensures Exec(Boot(k), OpSpawnKernel) == Started(k)
    ensures KeepsWaiting(Started(k), Rounds(n), HEARTBEAT_ID) && Run(Started(k), Rounds(n)) == Started(k)
    ensures Decisions(Started(k), Rounds(n)) == RequestCount(Rounds(n)) == 2 * n
  {
    hide Exec, Waiting, Trio, Run, KeepsWaiting, Decisions;
    HeartbeatStarts(k);
    HeartbeatWaits(k);
    if n == 0 {
      Stays(Started(k), HEARTBEAT_ID);
    } else {
      HeartbeatStarves(k, n - 1);
      ToIdle(k);
      ToShell(k);
      var ask, rest := OpForeground(SHELL_ID), Rounds(n - 1);
      TwoOps(AtIdle(k), ask, OpYield, rest, HEARTBEAT_ID);
      TwoOps(Started(k), ask, OpYield, [ask, OpYield] + rest, HEARTBEAT_ID);
      assert Rounds(n) == [ask, OpYield] + ([ask, OpYield] + rest);
    }
  }

  lemma Stays(s: Sched, id: nat)
    requires Waiting(s, id)
    ensures KeepsWaiting(s, [], id) && Run(s, []) == s && Decisions(s, []) == 0
  {
  }
}
