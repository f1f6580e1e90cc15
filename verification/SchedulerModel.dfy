/**
 The task table and every operation on it, as functions of the scheduler state.
 An address space is identified by its page-table root. The state remembers which
 roots exist and, for each space that was freed, which root was loaded at that moment.
 */
module SchedulerModel {
  import opened Prelude

  const TIME_SLICE_TICKS := 5
  const REAP_GRACE_TICKS := 500
  const MAX_TASKS := 64
  const SHELL_ID := 1
  const IDLE_ID := 2
  const HEARTBEAT_ID := 3

  datatype State = Ready | Running | Blocked | Terminated

  datatype Tcb = Tcb(id: nat, state: State, wakeAt: nat, user: bool, space: Option<nat>, terminatedAt: nat)

  datatype Release = Release(root: nat, loaded: nat)

  datatype Sched = Sched(
    tasks: seq<Tcb>,
    current: nat,
    cr3: nat,
    kernelRoot: nat,
    live: set<nat>,
    loose: set<nat>,
    log: seq<Release>,
    now: nat,
    sinceSwitch: nat,
    foreground: nat,
    nextId: nat,
    detached: set<nat>)

  function RootOf(s: Sched, t: Tcb): nat { if t.space.Some? then t.space.value else s.kernelRoot }

  /** Returns a space to the frame pool; the log keeps what was loaded at the time. */
  function Free(s: Sched, space: Option<nat>): Sched {
    if space.None? then s
    else s.(live := s.live - {space.value}, loose := s.loose - {space.value}, detached := s.detached - {space.value},
            log := s.log + [Release(space.value, s.cr3)])
  }

  /** A space taken from its task and not yet freed. */
  function Detach(s: Sched, space: Option<nat>): Sched {
    if space.None? then s
    else s.(loose := s.loose + {space.value}, detached := s.detached + {space.value})
  }

  // ---- Reaping ----

  predicate ShouldReap(t: Tcb, currentId: nat, now: nat, force: bool) {
    && t.id != currentId && t.state == Terminated
    && (force || now >= t.terminatedAt + REAP_GRACE_TICKS)
  }

  function Kept(tasks: seq<Tcb>, currentId: nat, now: nat, force: bool): seq<Tcb> {
    if tasks == [] then []
    else
      var rest := Kept(tasks[1..], currentId, now, force);
      if ShouldReap(tasks[0], currentId, now, force) then rest else [tasks[0]] + rest
  }

  /** Frees whatever space the first `k` tasks due for reaping still have. */
  function FreeReaped(s: Sched, currentId: nat, force: bool, k: nat): Sched
    requires k <= |s.tasks|
  {
    if k == 0 then s
    else
      var before := FreeReaped(s, currentId, force, k - 1);
      if ShouldReap(s.tasks[k - 1], currentId, s.now, force) then Free(before, s.tasks[k - 1].space) else before
  }

  function Reap(s: Sched, force: bool): Sched
    requires s.current < |s.tasks|
  {
    var id := s.tasks[s.current].id;
    FreeReaped(s, id, force, |s.tasks|).(
      tasks := Kept(s.tasks, id, s.now, force),
      current := |Kept(s.tasks[..s.current], id, s.now, force)|)
  }

  // ---- Choosing ----

  /** The other tasks in the order in which round robin looks at them. */
  function Queue(tasks: seq<Tcb>, current: nat): seq<Tcb>
    requires current < |tasks|
  {
    tasks[current + 1..] + tasks[..current]
  }

  /** Position of the first `Ready` task of a queue. */
  function FirstReady(queue: seq<Tcb>): (r: Option<nat>)
    ensures r.Some? ==> r.value < |queue| && queue[r.value].state == Ready
    ensures r.Some? ==> forall k :: 0 <= k < r.value ==> queue[k].state != Ready
    ensures r.None? ==> forall k :: 0 <= k < |queue| ==> queue[k].state != Ready
  {
    if queue == [] then None
    else if queue[0].state == Ready then Some(0)
    else
      var rest := FirstReady(queue[1..]);
      if rest.None? then None else Some(rest.value + 1)
  }

  /** Index in the task table of position `k` of the queue. */
  function At(tasks: seq<Tcb>, current: nat, k: nat): (i: nat)
    requires current < |tasks| && k < |tasks| - 1
    ensures i < |tasks| && i != current
    ensures tasks[i] == Queue(tasks, current)[k]
  {
    if current + 1 + k < |tasks| then current + 1 + k else current + 1 + k - |tasks|
  }

  function RoundRobin(tasks: seq<Tcb>, current: nat): (i: nat)
    requires current < |tasks|
    ensures i < |tasks|
  {
    var k := FirstReady(Queue(tasks, current));
    if k.None? then current else At(tasks, current, k.value)
  }

  predicate Wanted(t: Tcb, id: nat, currentId: nat) { t.id == id && t.state == Ready && t.id != currentId }

  /** First task that answers a foreground request. */
  function FindWanted(tasks: seq<Tcb>, id: nat, currentId: nat): (r: Option<nat>)
    ensures r.Some? ==> r.value < |tasks| && Wanted(tasks[r.value], id, currentId)
    ensures r.None? ==> forall k :: 0 <= k < |tasks| ==> !Wanted(tasks[k], id, currentId)
  {
    if tasks == [] then None
    else if Wanted(tasks[0], id, currentId) then Some(0)
    else
      var rest := FindWanted(tasks[1..], id, currentId);
      if rest.None? then None else Some(rest.value + 1)
  }

  function Choose(tasks: seq<Tcb>, current: nat, requested: nat): (i: nat)
    requires current < |tasks|
    ensures i < |tasks|
  {
    var wanted := if requested == 0 then None else FindWanted(tasks, requested, tasks[current].id);
    if wanted.Some? then wanted.value else RoundRobin(tasks, current)
  }

  // ---- Switching ----

  /** The task table a decision looks at: the running task competes again. */
  function Offered(s: Sched): (tasks: seq<Tcb>)
    requires s.current < |s.tasks|
    ensures |tasks| == |s.tasks|
  {
    var t := s.tasks[s.current];
    if t.state == Running then s.tasks[s.current := t.(state := Ready)] else s.tasks
  }

  /** Loads the root of task `next`, then frees the outgoing task's space if it has terminated. */
  function SwitchTo(s: Sched, next: nat): Sched
    requires s.current < |s.tasks| && next < |s.tasks|
  {
    var out := s.tasks[s.current];
    var reclaim := if out.state == Terminated then out.space else None;
    var left := if out.state == Terminated then s.tasks[s.current := out.(space := None)] else s.tasks;
    var tasks := left[next := left[next].(state := Running)];
    Free(s.(tasks := tasks, current := next, cr3 := RootOf(s, left[next])), reclaim)
  }

  function Decide(s: Sched): Sched
    requires s.current < |s.tasks|
  {
    if |s.tasks| < 2 then s
    else
      var tasks := Offered(s);
      var next := Choose(tasks, s.current, s.foreground);
      var t := s.(tasks := tasks, foreground := 0);
      if next != s.current then SwitchTo(t, next)
      else if tasks[s.current].state == Terminated then t
      else t.(tasks := tasks[s.current := tasks[s.current].(state := Running)])
  }

  function Schedule(s: Sched): Sched
    requires s.current < |s.tasks|
  {
    var r := Reap(s, false);
    if r.current < |r.tasks| then Decide(r) else r
  }

  // ---- The other operations ----

  function Woken(t: Tcb, now: nat): Tcb {
    if t.state == Blocked && t.wakeAt != 0 && now >= t.wakeAt then t.(state := Ready, wakeAt := 0) else t
  }

  function WakeAll(tasks: seq<Tcb>, now: nat): (r: seq<Tcb>)
    ensures |r| == |tasks| && forall i :: 0 <= i < |tasks| ==> r[i] == Woken(tasks[i], now)
  {
    seq(|tasks|, i requires 0 <= i < |tasks| => Woken(tasks[i], now))
  }

  function Tick(s: Sched): Sched
    requires s.current < |s.tasks|
  {
    var t := s.(now := s.now + 1, tasks := WakeAll(s.tasks, s.now + 1));
    if t.sinceSwitch + 1 >= TIME_SLICE_TICKS then Schedule(t.(sinceSwitch := 0))
    else t.(sinceSwitch := t.sinceSwitch + 1)
  }

  /** First half of a sleep: the second is a scheduling decision, and a tick may come between. */
  function Block(s: Sched, ticks: nat): Sched
    requires s.current < |s.tasks|
  {
    s.(tasks := s.tasks[s.current := s.tasks[s.current].(state := Blocked, wakeAt := s.now + ticks)])
  }

  /** First half of an exit. */
  function Terminate(s: Sched): Sched
    requires s.current < |s.tasks|
  {
    s.(tasks := s.tasks[s.current := s.tasks[s.current].(state := Terminated, terminatedAt := s.now)])
  }

  function FindId(tasks: seq<Tcb>, id: nat): (r: Option<nat>)
    ensures r.Some? ==> r.value < |tasks| && tasks[r.value].id == id
    ensures r.None? ==> forall k :: 0 <= k < |tasks| ==> tasks[k].id != id
  {
    if tasks == [] then None
    else if tasks[0].id == id then Some(0)
    else
      var rest := FindId(tasks[1..], id);
      if rest.None? then None else Some(rest.value + 1)
  }

  /** The part of a kill under the lock: unless the task is the current one, its space is left to be freed. */
  function Kill(s: Sched, id: nat): Sched
    requires s.current < |s.tasks|
  {
    var found := FindId(s.tasks, id);
    if id == SHELL_ID || found.None? then s
    else
      var i := found.value;
      var t := s.tasks[i].(state := Terminated, terminatedAt := s.now);
      if s.tasks[s.current].id == id then s.(tasks := s.tasks[i := t])
      else Detach(s.(tasks := s.tasks[i := t.(space := None)]), t.space)
  }

  function Activate(s: Sched, id: nat): Sched {
    var found := FindId(s.tasks, id);
    if found.None? then s
    else
      var t := s.tasks[found.value];
      if t.state != Blocked || t.wakeAt != 0 then s
      else s.(tasks := s.tasks[found.value := t.(state := Ready)])
  }

  function SpawnKernel(s: Sched): Sched {
    s.(tasks := s.tasks + [Tcb(s.nextId, Ready, 0, false, None, 0)], nextId := s.nextId + 1)
  }

  /** A space for a process that is still being built. */
  function NewSpace(s: Sched, root: nat): Sched {
    s.(live := s.live + {root}, loose := s.loose + {root})
  }

  /** Enters a finished process into the table; when that is full, its space stays for the caller to free. */
  function SpawnUser(s: Sched, root: nat, suspended: bool): Sched {
    var t := s.(nextId := s.nextId + 1);
    if |s.tasks| >= MAX_TASKS then t
    else
      t.(tasks := s.tasks + [Tcb(s.nextId, if suspended then Blocked else Ready, 0, true, Some(root), 0)],
         loose := s.loose - {root})
  }

  // ---- Runs ----

  datatype Op =
    | OpTick
    | OpSchedule
    | OpYield
    | OpBlock(ticks: nat)
    | OpTerminate
    | OpKill(id: nat)
    | OpRelease(root: nat)
    | OpActivate(id: nat)
    | OpForeground(id: nat)
    | OpReap
    | OpSpawnKernel
    | OpNewSpace(root: nat)
    | OpSpawnUser(root: nat, suspended: bool)
    | OpFailSpawn(root: nat)

  /** A root handed out for a new space is a frame nobody uses; a process is finished or abandoned once. */
  predicate Possible(s: Sched, op: Op) {
    && s.current < |s.tasks|
    && (op.OpNewSpace? ==> op.root !in s.live && op.root != s.kernelRoot)
    && (op.OpSpawnUser? || op.OpFailSpawn? ==> op.root in s.loose - s.detached)
    && (op.OpRelease? ==> op.root in s.detached)
  }

  function Exec(s: Sched, op: Op): Sched {
    if !Possible(s, op) then s
    else
      match op
      case OpTick => Tick(s)
      case OpYield => Schedule(s.(sinceSwitch := 0))
      case OpSchedule => Schedule(s)
      case OpBlock(ticks) => Block(s, ticks)
      case OpTerminate => Terminate(s)
      case OpKill(id) => Kill(s, id)
      case OpRelease(root) => Free(s, Some(root))
      case OpActivate(id) => Activate(s, id)
      case OpForeground(id) => s.(foreground := id, sinceSwitch := TIME_SLICE_TICKS)
      case OpReap => Reap(s, true)
      case OpSpawnKernel => SpawnKernel(s)
      case OpNewSpace(root) => NewSpace(s, root)
      case OpSpawnUser(root, suspended) => SpawnUser(s, root, suspended)
      case OpFailSpawn(root) => Free(s, Some(root))
  }

  function Run(s: Sched, ops: seq<Op>): Sched
    decreases |ops|
  {
    if ops == [] then s else Run(Exec(s, ops[0]), ops[1..])
  }
}
