/**
 Writers and readers of the root filesystem under every interleaving. Each atomic
 step of `mutate_and_persist`, `sync_to_disk` and `with_fs` is one event; a writer
 can be preempted or killed between any two of them, and between any two sector writes.

 Over every run the published trees form one chain, each the result of one
 operation on its predecessor, every reader holds one published tree, and the disk
 never falls behind what was published.
 */
module FsConcurrency {
  import opened Prelude
  import opened BlockDevice
  import opened Text
  import opened TreeCodec
  import opened TreeCodecProofs
  import opened Checkpoint
  import opened CrashSafety
  import opened TreeOps
  import Vfs
  import Confinement

  datatype Op = Mutation(path: Str, e: Edit) | SyncOnly

  /** The tree an operation stores, computed from its own snapshot. */
  function Outcome(op: Op, snapshot: FsNode): Result<FsNode> {
    match op
    case Mutation(path, e) => EditPath(snapshot, path, e)
    case SyncOnly => Ok(snapshot)
  }

  /** What reaches the tree operations: the path has been normalized. */
  predicate NormalOp(op: Op) { op.Mutation? ==> Vfs.Normal(op.path) && ValidUtf8(op.path) }

  /** An operation through a normalized path turns a legal tree into a legal tree. */
  lemma OutcomeLegal(op: Op, snapshot: FsNode)
    requires NormalOp(op) && LegalTree(snapshot) && Outcome(op, snapshot).Ok?
    ensures LegalTree(Outcome(op, snapshot).value)
  {
    hide Vfs.Normal, LegalTree, ValidUtf8, EditPath, Vfs.Normalized;
    if op.Mutation? {
      Confinement.NormalRoot();
      AsciiIsUtf8(Vfs.ROOT);
      Vfs.NormalFixed(Vfs.ROOT, op.path);
      Confinement.MutationKeepsLegal(snapshot, Vfs.ROOT, op.path, op.e);
    }
  }

  /**
   A call that reported failure, or whose thread was killed while it wrote: the tree it tried to store, if
   it got that far, and how many of how many sector writes it had made.
   */
  datatype Failure = Failure(candidate: Option<FsNode>, done: nat, total: nat)

  /** Everything was written, and the reader takes it back. */
  predicate Complete(f: Failure) {
    f.done >= f.total && f.candidate.Some? && NodeCount(f.candidate.value) <= MAX_NODE_COUNT
  }

  /** The failure whose candidate is complete on disk and has not been touched since. */
  function PendingIndex(failures: seq<Failure>): (i: Option<nat>)
    ensures i.Some? ==> i.value < |failures|
  {
    if failures == [] then None
    else
      var last := |failures| - 1;
      if failures[last].done == 0 then PendingIndex(failures[..last])
      else if !Complete(failures[last]) then None
      else Some(last)
  }

  function Pending(failures: seq<Failure>): Option<FsNode> {
    var i := PendingIndex(failures);
    if i.None? then None else failures[i.value].candidate
  }

  /** Failure `i` is complete and every later one wrote no sector. */
  predicate LeftBy(failures: seq<Failure>, i: nat) {
    && i < |failures| && failures[i].done > 0 && Complete(failures[i])
    && forall j :: i < j < |failures| ==> failures[j].done == 0
  }

  lemma {:induction false} PendingIndexIff(failures: seq<Failure>, i: nat)
    ensures PendingIndex(failures) == Some(i) <==> LeftBy(failures, i)
  {
    hide Complete;
    if failures != [] {
      var last := |failures| - 1;
      PendingIndexIff(failures[..last], i);
      assert failures == failures[..last] + [failures[last]];
    }
  }

  /** Only a call with a candidate gets as far as writing. */
  predicate FailuresOk(failures: seq<Failure>) {
    forall i :: 0 <= i < |failures| && failures[i].done > 0 ==> failures[i].candidate.Some?
  }

  /**
   The tree a mount finds was left by a failure before the last one exactly when something is pending and
   the last failure came before its first sector.
   */
  lemma MissesLastIff(failures: seq<Failure>)
    requires failures != [] && FailuresOk(failures)
    ensures Pending(failures).Some? <==> PendingIndex(failures).Some?
    ensures PendingIndex(failures).Some? && PendingIndex(failures).value != |failures| - 1
       <==> Pending(failures).Some? && failures[|failures| - 1].done == 0
  {
    var i := PendingIndex(failures);
    if i.Some? { PendingIndexIff(failures, i.value); }
  }

  lemma PendingSnoc(failures: seq<Failure>, f: Failure)
    ensures Pending(failures + [f])
         == if f.done == 0 then Pending(failures) else if !Complete(f) then None else f.candidate
  {
    hide Complete;
    assert (failures + [f])[..|failures|] == failures;
  }

  datatype Phase =
    | Idle
    | Reading(at: nat, snapshot: FsNode)
    | Holding(op: Op)
    | Cloned(op: Op, snapshot: FsNode)
    | Ready(op: Op, snapshot: FsNode, candidate: FsNode)
    | Writing(op: Op, snapshot: FsNode, candidate: FsNode, base: Volume, baseSpec: Spec, done: nat)
    | Stored(op: Op, snapshot: FsNode, candidate: FsNode)
    | Releasing
    | Killed

  predicate HoldsGuard(p: Phase) { !p.Idle? && !p.Reading? && !p.Killed? }

  /**
   `busy` is WRITER_ACTIVE and `published` the tree behind the FS lock. The last six
   fields are bookkeeping for the proof: who holds the guard, every tree published so
   far with the operation behind it, what the disk commits to, every failure since the
   last sync that succeeded, and a tree synced by a writer killed before publishing it.
   */
  datatype Sys = Sys(
    published: FsNode, busy: bool, threads: seq<Phase>, volume: Volume,
    owner: Option<nat>, history: seq<FsNode>, ops: seq<Op>, spec: Spec, failures: seq<Failure>,
    orphan: Option<FsNode>)

  datatype Event =
    | BeginRead(t: nat) | EndRead(t: nat)
    | Acquire(t: nat, op: Op) | Clone(t: nat) | Compute(t: nat) | BeginSync(t: nat)
    | WriteSector(t: nat) | FailSync(t: nat) | FinishSync(t: nat) | Publish(t: nat) | Release(t: nat)
    | Kill(t: nat)

  function At(s: Sys, t: nat, p: Phase): Sys
    requires t < |s.threads|
  {
    s.(threads := s.threads[t := p])
  }

  /** The guard is dropped and the call returns. */
  function Leave(s: Sys, t: nat): Sys
    requires t < |s.threads|
  {
    At(s, t, Idle).(busy := false, owner := None)
  }

  /** The thread is gone and never drops its guard. */
  function Abandon(s: Sys, t: nat): Sys
    requires t < |s.threads|
  {
    At(s, t, Killed).(owner := None)
  }

  /** A guard holder was killed: nobody can take the guard again. */
  predicate Stuck(s: Sys) { s.busy && s.owner.None? }

  /** The call returns an error. */
  function Reported(s: Sys, f: Failure): Sys { s.(failures := s.failures + [f]) }

  /** The next state, or `Err` when the event is not possible here. */
  ghost function Step(s: Sys, ev: Event): Result<Sys> {
    if ev.t >= |s.threads| then Err
    else
      var p := s.threads[ev.t];
      match ev
      case BeginRead(t) => if p.Idle? then Ok(At(s, t, Reading(|s.ops|, s.published))) else Err
      case EndRead(t) => if p.Reading? then Ok(At(s, t, Idle)) else Err
      case Acquire(t, op) =>
        if !p.Idle? || !NormalOp(op) then Err
        else if s.busy then Ok(Reported(s, Failure(None, 0, 0)))
        else Ok(At(s, t, Holding(op)).(busy := true, owner := Some(t)))
      case Clone(t) => if p.Holding? then Ok(At(s, t, Cloned(p.op, s.published))) else Err
      case Compute(t) =>
        if !p.Cloned? then Err
        else
          var result := Outcome(p.op, p.snapshot);
          if result.Err? then Ok(Reported(Leave(s, t), Failure(None, 0, 0)))
          else Ok(At(s, t, Ready(p.op, p.snapshot, result.value)))
      case BeginSync(t) =>
        if !p.Ready? then Err
        else if SyncBlob(s.volume, p.candidate).Err? then Ok(Reported(Leave(s, t), Failure(Some(p.candidate), 0, 0)))
        else Ok(At(s, t, Writing(p.op, p.snapshot, p.candidate, s.volume, s.spec, 0)))
      case WriteSector(t) =>
        if !p.Writing? || SyncBlob(p.base, p.candidate).Err? || p.done >= |SyncWrites(p.base, p.candidate)| then Err
        else
          var w := SyncWrites(p.base, p.candidate)[p.done];
          Ok(At(s, t, p.(done := p.done + 1)).(
            volume := s.volume.(disk := s.volume.disk[w.lba := w.data]),
            spec := SpecNext(p.base, p.baseSpec, Sync(p.candidate, p.done + 1, false))))
      case FailSync(t) =>
        if !p.Writing? || SyncBlob(p.base, p.candidate).Err? then Err
        else
          var total := |SyncWrites(p.base, p.candidate)|;
          Ok(Reported(Leave(s, t), Failure(Some(p.candidate), p.done, total)))
      case FinishSync(t) =>
        if !p.Writing? || SyncBlob(p.base, p.candidate).Err? || p.done != |SyncWrites(p.base, p.candidate)| then Err
        else if NodeCount(p.candidate) > MAX_NODE_COUNT then Err
        else Ok(At(s, t, Stored(p.op, p.snapshot, p.candidate)).(
               volume := Volume(s.volume.disk, SyncTarget(p.base), p.base.generation + 1),
               spec := Spec(p.candidate, None), failures := []))
      case Publish(t) =>
        if !p.Stored? then Err
        else if p.op.SyncOnly? then Ok(At(s, t, Releasing))
        else Ok(At(s, t, Releasing).(
               published := p.candidate, history := s.history + [p.candidate], ops := s.ops + [p.op]))
      case Release(t) => if p.Releasing? then Ok(Leave(s, t)) else Err
      case Kill(t) =>
        if p.Killed? || (p.Writing? && SyncBlob(p.base, p.candidate).Err?) then Err
        else if !HoldsGuard(p) then Ok(At(s, t, Killed))
        else if p.Writing? then
          Ok(Reported(Abandon(s, t), Failure(Some(p.candidate), p.done, |SyncWrites(p.base, p.candidate)|)))
        else if p.Stored? then Ok(Abandon(s, t).(orphan := Some(p.candidate)))
        else Ok(Abandon(s, t))
  }

  // ---- The invariant ----

  /** Each published tree is the recorded operation applied to the one before it. */
  predicate Chain(history: seq<FsNode>, ops: seq<Op>) {
    && |history| == |ops| + 1
    && forall i :: 0 <= i < |ops| ==> Outcome(ops[i], history[i]) == Ok(history[i + 1])
  }

  ghost predicate PhaseOk(s: Sys, p: Phase) {
    match p
    case Idle => true
    case Killed => true
    case Reading(at, snapshot) => at < |s.history| && s.history[at] == snapshot
    case Holding(op) => Settled(s) && NormalOp(op)
    case Cloned(op, snapshot) => Settled(s) && NormalOp(op) && snapshot == s.published
    case Ready(op, snapshot, candidate) =>
      Settled(s) && LegalTree(candidate) && snapshot == s.published && Outcome(op, snapshot) == Ok(candidate)
    case Writing(op, snapshot, candidate, base, baseSpec, done) =>
      && snapshot == s.published && Outcome(op, snapshot) == Ok(candidate)
      && LegalTree(candidate) && SyncBlob(base, candidate).Ok?
      && Good(base, baseSpec) && baseSpec.committed == s.published
      && baseSpec.pending == Pending(s.failures)
      && done <= |SyncWrites(base, candidate)|
      && s.volume == Volume(Apply(base.disk, SyncWrites(base, candidate)[..done]), base.activeSlot, base.generation)
      && s.spec == SpecNext(base, baseSpec, Sync(candidate, done, false))
    case Stored(op, snapshot, candidate) =>
      && snapshot == s.published && Outcome(op, snapshot) == Ok(candidate) && s.spec == Spec(candidate, None)
      && LegalTree(candidate) && Pending(s.failures).None?
    case Releasing => Settled(s)
  }

  /** The disk commits to the published tree, or holds a failed writer's candidate on top of it. */
  predicate Settled(s: Sys) {
    s.spec.committed == s.published && s.spec.pending == Pending(s.failures)
  }

  ghost predicate Inv(s: Sys) {
    && Good(s.volume, s.spec) && LegalTree(s.published) && FailuresOk(s.failures)
    && Chain(s.history, s.ops) && s.history[|s.ops|] == s.published
    && (s.owner.Some? ==> s.busy && s.owner.value < |s.threads|)
    && (forall t :: 0 <= t < |s.threads| ==>
          PhaseOk(s, s.threads[t]) && (HoldsGuard(s.threads[t]) <==> s.owner == Some(t)))
    && (s.orphan.Some? ==> Stuck(s) && s.spec == Spec(s.orphan.value, None))
    && (s.owner.None? && s.orphan.None? ==> Settled(s))
  }

  /** Mutual exclusion: nobody else is inside the guard. */
  lemma OnlyOwner(s: Sys, t: nat)
    requires Inv(s) && t < |s.threads| && HoldsGuard(s.threads[t])
    ensures s.busy && s.owner == Some(t)
    ensures forall u :: 0 <= u < |s.threads| && u != t ==> !HoldsGuard(s.threads[u])
  {}

  /** Threads outside the guard stay fine as long as published trees are only appended. */
  lemma OthersOk(s: Sys, s': Sys, t: nat)
    requires Inv(s) && t < |s.threads| == |s'.threads|
    requires forall u :: 0 <= u < |s.threads| && u != t ==> s'.threads[u] == s.threads[u] && !HoldsGuard(s.threads[u])
    requires |s.history| <= |s'.history| && s'.history[..|s.history|] == s.history
    ensures forall u :: 0 <= u < |s.threads| && u != t ==> PhaseOk(s', s'.threads[u])
  {
    hide Good, SpecNext, Settled, LegalTree, Pending, NormalOp, Chain, Outcome;
    forall u | 0 <= u < |s.threads| && u != t ensures PhaseOk(s', s'.threads[u]) {
      assert PhaseOk(s, s.threads[u]);
      if s.threads[u].Reading? {
        assert s'.history[s.threads[u].at] == s'.history[..|s.history|][s.threads[u].at];
      }
    }
  }

  /** A sector write moves the disk one write further along the sync. */
  lemma WriteKeepsGood(base: Volume, baseSpec: Spec, candidate: FsNode, done: nat)
    requires Good(base, baseSpec) && LegalTree(candidate) && SyncBlob(base, candidate).Ok?
    requires done <= |SyncWrites(base, candidate)|
    ensures Good(Volume(Apply(base.disk, SyncWrites(base, candidate)[..done]), base.activeSlot, base.generation),
                 SpecNext(base, baseSpec, Sync(candidate, done, false)))
  {
    hide Good, LegalTree, SyncWrites, SpecNext, Next;
    var after := Volume(Apply(base.disk, SyncWrites(base, candidate)[..done]), base.activeSlot, base.generation);
    SyncStep(base, candidate, done, after);
    StepSafe(base, baseSpec, Sync(candidate, done, false), after);
  }

  lemma FinishKeepsGood(base: Volume, baseSpec: Spec, candidate: FsNode)
    requires Good(base, baseSpec) && Storable(candidate) && SyncBlob(base, candidate).Ok?
    ensures Good(Volume(Apply(base.disk, SyncWrites(base, candidate)), SyncTarget(base), base.generation + 1),
                 Spec(candidate, None))
  {
    hide Good, LegalTree, NodeCount, CheckpointWrites, Apply, FlattenNode;
    var w := SyncWrites(base, candidate);
    assert w[..|w|] == w;
    var after := Volume(Apply(base.disk, w), SyncTarget(base), base.generation + 1);
    StepSafe(base, baseSpec, Sync(candidate, |w|, true), after);
  }

  // ---- Every event keeps the invariant ----

  lemma ReaderStep(s: Sys, ev: Event)
    requires Inv(s) && (ev.BeginRead? || ev.EndRead?) && Step(s, ev).Ok?
    ensures Inv(Step(s, ev).value)
  {
    hide Good, SpecNext, Storable, SyncBlob, SyncWrites, Outcome, LegalTree, Pending, NormalOp;
    var s' := Step(s, ev).value;
    forall u | 0 <= u < |s.threads| ensures PhaseOk(s', s'.threads[u]) {
      assert PhaseOk(s, s.threads[u]);
    }
  }

  /** A call that finds the guard taken reports failure and changes nothing else. */
  lemma BusyStep(s: Sys, t: nat, op: Op)
    requires Inv(s) && s.busy && Step(s, Acquire(t, op)).Ok?
    ensures Inv(Step(s, Acquire(t, op)).value)
  {
    hide Good, Storable, SyncBlob, SyncWrites, Outcome, Apply, SpecNext, LegalTree, Pending, NormalOp, Chain;
    var s' := Step(s, Acquire(t, op)).value;
    PendingSnoc(s.failures, Failure(None, 0, 0));
    forall u | 0 <= u < |s.threads| ensures PhaseOk(s', s'.threads[u]) {
      assert PhaseOk(s, s.threads[u]);
    }
  }

  lemma AcquireStep(s: Sys, t: nat, op: Op)
    requires Inv(s) && !s.busy && Step(s, Acquire(t, op)).Ok?
    ensures Inv(Step(s, Acquire(t, op)).value)
  {
    hide Good, Storable, SyncBlob, SyncWrites, Outcome, Apply, SpecNext, LegalTree, Pending, NormalOp, Chain;
    var s' := Step(s, Acquire(t, op)).value;
    assert s'.history[..|s.history|] == s.history;
    OthersOk(s, s', t);
  }

  lemma CloneStep(s: Sys, t: nat)
    requires Inv(s) && Step(s, Clone(t)).Ok?
    ensures Inv(Step(s, Clone(t)).value)
  {
    hide Good, Storable, SyncBlob, SyncWrites, Outcome, Apply, SpecNext, LegalTree, Pending, NormalOp, Chain;
    var s' := Step(s, Clone(t)).value;
    assert PhaseOk(s, s.threads[t]);
    assert s'.history[..|s.history|] == s.history;
    OnlyOwner(s, t);
    OthersOk(s, s', t);
  }

  lemma ComputeStep(s: Sys, t: nat)
    requires Inv(s) && Step(s, Compute(t)).Ok?
    ensures Inv(Step(s, Compute(t)).value)
  {
    hide Good, Storable, SyncBlob, SyncWrites, Outcome, Apply, SpecNext, LegalTree, Pending, NormalOp, Chain;
    var s', p := Step(s, Compute(t)).value, s.threads[t];
    assert PhaseOk(s, p);
    assert s'.history[..|s.history|] == s.history;
    OnlyOwner(s, t);
    OthersOk(s, s', t);
    PendingSnoc(s.failures, Failure(None, 0, 0));
    if Outcome(p.op, p.snapshot).Ok? { OutcomeLegal(p.op, p.snapshot); }
  }

  lemma BeginSyncStep(s: Sys, t: nat)
    requires Inv(s) && Step(s, BeginSync(t)).Ok?
    ensures Inv(Step(s, BeginSync(t)).value)
  {
    hide Good, SyncBlob, SyncWrites, Outcome, Apply, LegalTree, NodeCount, Pending, NormalOp, Chain;
    var s', p := Step(s, BeginSync(t)).value, s.threads[t];
    assert PhaseOk(s, p);
    assert s'.history[..|s.history|] == s.history;
    OnlyOwner(s, t);
    OthersOk(s, s', t);
    PendingSnoc(s.failures, Failure(Some(p.candidate), 0, 0));
    if s'.threads[t].Writing? {
      assert SyncWrites(s.volume, p.candidate)[..0] == [];
      ApplyNone(s.volume.disk);
    }
  }

  lemma ApplyNone(disk: Disk)
    ensures Apply(disk, []) == disk
  {}

  lemma WriteStep(s: Sys, t: nat)
    requires Inv(s) && Step(s, WriteSector(t)).Ok?
    ensures Inv(Step(s, WriteSector(t)).value)
  {
    hide Good, Storable, SyncBlob, SyncWrites, Outcome, Apply, SpecNext, LegalTree, Pending, NormalOp, Chain;
    var s', p := Step(s, WriteSector(t)).value, s.threads[t];
    assert PhaseOk(s, p);
    OnlyOwner(s, t);
    assert s'.history[..|s.history|] == s.history;
    OthersOk(s, s', t);
    ApplyNext(p.base.disk, SyncWrites(p.base, p.candidate), p.done);
    WriteKeepsGood(p.base, p.baseSpec, p.candidate, p.done + 1);
    assert PhaseOk(s', s'.threads[t]);
  }

  lemma FailStep(s: Sys, t: nat)
    requires Inv(s) && Step(s, FailSync(t)).Ok?
    ensures Inv(Step(s, FailSync(t)).value)
  {
    hide Good, NodeCount, SyncBlob, SyncWrites, Outcome, Apply, LegalTree, Pending, NormalOp, Chain;
    var s', p := Step(s, FailSync(t)).value, s.threads[t];
    assert PhaseOk(s, p);
    PendingSnoc(s.failures, Failure(Some(p.candidate), p.done, |SyncWrites(p.base, p.candidate)|));
    OnlyOwner(s, t);
    assert s'.history[..|s.history|] == s.history;
    OthersOk(s, s', t);
  }

  lemma FinishStep(s: Sys, t: nat)
    requires Inv(s) && Step(s, FinishSync(t)).Ok?
    ensures Inv(Step(s, FinishSync(t)).value)
  {
    hide Good, SyncBlob, SyncWrites, Outcome, Apply, SpecNext, LegalTree, NodeCount, NormalOp, Chain;
    var s', p := Step(s, FinishSync(t)).value, s.threads[t];
    assert PhaseOk(s, p);
    OnlyOwner(s, t);
    assert s'.history[..|s.history|] == s.history;
    OthersOk(s, s', t);
    var w := SyncWrites(p.base, p.candidate);
    assert w[..|w|] == w;
    FinishKeepsGood(p.base, p.baseSpec, p.candidate);
  }

  lemma PublishStep(s: Sys, t: nat)
    requires Inv(s) && Step(s, Publish(t)).Ok?
    ensures Inv(Step(s, Publish(t)).value)
  {
    hide Good, Storable, SyncBlob, SyncWrites, Outcome, Apply, SpecNext, LegalTree, Pending, NormalOp;
    var s', p := Step(s, Publish(t)).value, s.threads[t];
    assert PhaseOk(s, p);
    OnlyOwner(s, t);
    assert s'.history[..|s.history|] == s.history;
    OthersOk(s, s', t);
    SyncOnlyKeeps(p.op, p.snapshot);
    if p.op.Mutation? { ChainGrows(s.history, s.ops, p.op, p.candidate); }
  }

  lemma SyncOnlyKeeps(op: Op, snapshot: FsNode)
    ensures op.SyncOnly? ==> Outcome(op, snapshot) == Ok(snapshot)
  {}

  lemma ChainGrows(history: seq<FsNode>, ops: seq<Op>, op: Op, tree: FsNode)
    requires Chain(history, ops) && Outcome(op, history[|ops|]) == Ok(tree)
    ensures Chain(history + [tree], ops + [op])
  {
    hide Outcome;
  }

  lemma ReleaseStep(s: Sys, t: nat)
    requires Inv(s) && Step(s, Release(t)).Ok?
    ensures Inv(Step(s, Release(t)).value)
  {
    hide Good, Storable, SyncBlob, SyncWrites, Outcome, Apply, SpecNext, LegalTree, Pending, NormalOp, Chain;
    var s' := Step(s, Release(t)).value;
    assert PhaseOk(s, s.threads[t]);
    OnlyOwner(s, t);
    assert s'.history[..|s.history|] == s.history;
    OthersOk(s, s', t);
  }

  lemma KillStep(s: Sys, t: nat)
    requires Inv(s) && Step(s, Kill(t)).Ok?
    ensures Inv(Step(s, Kill(t)).value)
  {
    hide Good, NodeCount, SyncBlob, SyncWrites, Outcome, Apply, LegalTree, Pending, NormalOp, Chain;
    var s', p := Step(s, Kill(t)).value, s.threads[t];
    assert PhaseOk(s, p);
    assert s'.history[..|s.history|] == s.history;
    if HoldsGuard(p) {
      OnlyOwner(s, t);
      OthersOk(s, s', t);
      if p.Writing? {
        PendingSnoc(s.failures, Failure(Some(p.candidate), p.done, |SyncWrites(p.base, p.candidate)|));
      }
    } else {
      BystanderKilled(s, t);
    }
  }

  lemma BystanderKilled(s: Sys, t: nat)
    requires Inv(s) && t < |s.threads| && !HoldsGuard(s.threads[t])
    ensures Inv(At(s, t, Killed))
  {
    hide Good, SpecNext, SyncBlob, SyncWrites, Outcome, LegalTree, Pending, NormalOp, Chain;
    var s' := At(s, t, Killed);
    forall u | 0 <= u < |s.threads|
      ensures PhaseOk(s', s'.threads[u]) && (HoldsGuard(s'.threads[u]) <==> s'.owner == Some(u))
    {
      assert PhaseOk(s, s.threads[u]);
    }
  }

  lemma StepKeepsInv(s: Sys, ev: Event)
    requires Inv(s) && Step(s, ev).Ok?
    ensures Inv(Step(s, ev).value)
    ensures s.history <= Step(s, ev).value.history
  {
    hide Inv, NormalOp, NodeCount, Outcome, SyncBlob, SyncWrites;
    match ev
    case Acquire(t, op) => if s.busy { BusyStep(s, t, op); } else { AcquireStep(s, t, op); }
    case Clone(t) => CloneStep(s, t);
    case Compute(t) => ComputeStep(s, t);
    case BeginSync(t) => BeginSyncStep(s, t);
    case BeginRead(_) => ReaderStep(s, ev);
    case EndRead(_) => ReaderStep(s, ev);
    case WriteSector(t) => WriteStep(s, t);
    case FailSync(t) => FailStep(s, t);
    case FinishSync(t) => FinishStep(s, t);
    case Publish(t) => PublishStep(s, t);
    case Release(t) => ReleaseStep(s, t);
    case Kill(t) => KillStep(s, t);
  }

  // ---- Whole runs ----

  ghost function RunEvents(s: Sys, events: seq<Event>): Result<Sys>
    decreases |events|
  {
    if events == [] then Ok(s)
    else
      var before := RunEvents(s, events[..|events| - 1]);
      if before.Err? then Err else Step(before.value, events[|events| - 1])
  }

  /** A freshly mounted system with `n` threads. */
  function Boot(volume: Volume, tree: FsNode, n: nat): Sys {
    Sys(tree, false, seq(n, i => Idle), volume, None, [tree], [], Spec(tree, None), [], None)
  }

  lemma StorableLegal(tree: FsNode)
    requires Storable(tree)
    ensures LegalTree(tree) && Pending([]).None?
  {
  }

  /** What a mount finds while no writer has touched the disk since the last failure. */
  function AtRest(s: Sys): FsNode {
    if Pending(s.failures).Some? then Pending(s.failures).value else s.published
  }

  /** What a mount finds at any moment, whoever is writing or was killed. */
  ghost function Found(s: Sys): FsNode {
    if s.orphan.Some? then s.orphan.value
    else if s.owner.None? || s.owner.value >= |s.threads| then AtRest(s)
    else
      match s.threads[s.owner.value]
      case Writing(_, _, candidate, base, _, done) =>
        if done == 0 || SyncBlob(base, candidate).Err? then AtRest(s)
        else if done < |SyncWrites(base, candidate)| || NodeCount(candidate) > MAX_NODE_COUNT then s.published
        else candidate
      case Stored(_, _, candidate) => candidate
      case _ => AtRest(s)
  }

  lemma FoundVisible(s: Sys)
    requires Inv(s)
    ensures Visible(s.spec) == Found(s)
  {
    hide Good, SyncBlob, SyncWrites, Outcome, LegalTree, Pending, NormalOp, Chain, NodeCount, Apply;
    if s.owner.Some? { assert PhaseOk(s, s.threads[s.owner.value]); }
  }

  lemma FoundAtRest(s: Sys)
    requires Inv(s) && !s.busy
    ensures Found(s) == AtRest(s)
  {
    hide Good, LegalTree, Pending, Chain;
  }

  /**
   After every run of every interleaving: the published trees form one chain with no
   lost update, every reader holds one published tree, and a mount at any moment would
   return what `Found` says: with no writer active, the pending candidate or else the
   published tree.
   */
  lemma {:induction false} EveryInterleaving(volume: Volume, tree: FsNode, n: nat, events: seq<Event>)
    requires Good(volume, Spec(tree, None)) && RunEvents(Boot(volume, tree, n), events).Ok?
    ensures var s := RunEvents(Boot(volume, tree, n), events).value;
            && Inv(s)
            && Chain(s.history, s.ops) && s.history[0] == tree && s.history[|s.ops|] == s.published
            && (forall t :: 0 <= t < |s.threads| && s.threads[t].Reading? ==> s.threads[t].snapshot in s.history)
            && Mount(s.volume.disk).Mounted? && Mount(s.volume.disk).tree == Found(s)
            && (!s.busy ==> Found(s) == AtRest(s))
            && FailuresOk(s.failures)
    decreases |events|
  {
    hide Good, Mount, Step, Outcome, LegalTree, Pending, Found;
    var start := Boot(volume, tree, n);
    CommittedSyncable(volume, Spec(tree, None));
    StorableLegal(tree);
    if events != [] {
      var head := events[..|events| - 1];
      EveryInterleaving(volume, tree, n, head);
      StepKeepsInv(RunEvents(start, head).value, events[|events| - 1]);
    }
    var s := RunEvents(start, events).value;
    MountGood(s.volume, s.spec);
    FoundVisible(s);
    if !s.busy { FoundAtRest(s); }
    forall t | 0 <= t < |s.threads| && s.threads[t].Reading? ensures s.threads[t].snapshot in s.history {
      assert PhaseOk(s, s.threads[t]);
    }
  }

  /**
   With no writer active, a mount returns a tree that is neither the published one nor the last failed
   writer's exactly when an earlier writer failed with such a tree complete on disk and nobody has
   written a sector since.
   */
  lemma MountMissesLastIff(s: Sys)
    requires Inv(s) && !s.busy && s.failures != []
    ensures var m, n := Mount(s.volume.disk), |s.failures| - 1;
      m.Mounted? &&
      (m.tree != s.published && Some(m.tree) != s.failures[n].candidate
       <==> exists i :: 0 <= i < n && LeftBy(s.failures, i) && s.failures[i].candidate != Some(s.published)
                        && s.failures[i].candidate != s.failures[n].candidate)
  {
    hide Good, Mount, LegalTree, Chain, Complete, LeftBy, Found;
    MountGood(s.volume, s.spec);
    FoundVisible(s);
    FoundAtRest(s);
    PendingLeftBy(s.failures);
  }

  lemma PendingLeftBy(failures: seq<Failure>)
    requires FailuresOk(failures)
    ensures forall i: nat :: LeftBy(failures, i) <==> PendingIndex(failures) == Some(i)
    ensures Pending(failures).Some? <==> PendingIndex(failures).Some?
  {
    hide Complete;
    forall i: nat ensures LeftBy(failures, i) <==> PendingIndex(failures) == Some(i) { PendingIndexIff(failures, i); }
    if PendingIndex(failures).Some? { PendingIndexIff(failures, PendingIndex(failures).value); }
  }

  // ---- A writer killed inside the guard ----

  /** The event kills the thread that holds the guard. */
  predicate KillsHolder(s: Sys, ev: Event) { ev.Kill? && ev.t < |s.threads| && HoldsGuard(s.threads[ev.t]) }

  /** Some event of the run does. */
  ghost predicate HolderKilled(s: Sys, events: seq<Event>)
    requires RunEvents(s, events).Ok?
    decreases |events|
  {
    events != [] &&
    var head := events[..|events| - 1];
    HolderKilled(s, head) || KillsHolder(RunEvents(s, head).value, events[|events| - 1])
  }

  /** One event makes the guard stuck exactly when it kills the holder, and nothing undoes that. */
  lemma StuckStep(s: Sys, ev: Event)
    requires Inv(s) && Step(s, ev).Ok?
    ensures Stuck(Step(s, ev).value) <==> Stuck(s) || KillsHolder(s, ev)
    ensures Stuck(s) ==> Frozen(s, Step(s, ev).value)
  {
    hide Good, LegalTree, Chain, PhaseOk, Settled, SyncBlob, SyncWrites, Outcome, NormalOp, NodeCount, FailuresOk,
      SpecNext;
    var p := s.threads[ev.t];
    if HoldsGuard(p) { assert s.owner == Some(ev.t); }
  }

  /** Nothing is written or published. */
  predicate Frozen(s: Sys, t: Sys) {
    && t.volume == s.volume && t.published == s.published && t.history == s.history && t.ops == s.ops
    && t.orphan == s.orphan
  }

  /** After a run from boot the guard is stuck if and only if its holder was killed in the run. */
  lemma {:induction false} StuckIff(volume: Volume, tree: FsNode, n: nat, events: seq<Event>)
    requires Good(volume, Spec(tree, None)) && RunEvents(Boot(volume, tree, n), events).Ok?
    ensures Stuck(RunEvents(Boot(volume, tree, n), events).value) <==> HolderKilled(Boot(volume, tree, n), events)
    decreases |events|
  {
    hide Good, Step, Inv, KillsHolder;
    if events != [] {
      var head := events[..|events| - 1];
      StuckIff(volume, tree, n, head);
      EveryInterleaving(volume, tree, n, head);
      StuckStep(RunEvents(Boot(volume, tree, n), head).value, events[|events| - 1]);
    }
  }

  /** From then on every call to write reports that the filesystem is busy, and disk and tree stay as they are. */
  lemma {:induction false} StuckForever(s: Sys, events: seq<Event>)
    requires Inv(s) && Stuck(s) && RunEvents(s, events).Ok?
    ensures var r := RunEvents(s, events).value; Inv(r) && Stuck(r) && Frozen(s, r)
    decreases |events|
  {
    hide Step, Inv, KillsHolder;
    if events != [] {
      var head := events[..|events| - 1];
      StuckForever(s, head);
      var r, ev := RunEvents(s, head).value, events[|events| - 1];
      StuckStep(r, ev);
      StepKeepsInv(r, ev);
    }
  }

  /** The shortest such run: a writer is killed as soon as it has the guard. */
  lemma KilledWriterBlocks(volume: Volume, tree: FsNode, n: nat, op: Op)
    requires n >= 1 && NormalOp(op)
    ensures RunEvents(Boot(volume, tree, n), [Acquire(0, op), Kill(0)]).Ok?
    ensures Stuck(RunEvents(Boot(volume, tree, n), [Acquire(0, op), Kill(0)]).value)
  {
    hide NormalOp;
    var start, events := Boot(volume, tree, n), [Acquire(0, op), Kill(0)];
    assert events[..1] == [Acquire(0, op)];
    RunOne(start, Acquire(0, op));
  }

  // ---- A guard that is not stuck is released ----

  /** What the holder still has to do, if it fails as early as it can. */
  function GivesUp(t: nat, p: Phase): seq<Event> {
    match p
    case Holding(_) => [Clone(t)]
    case Cloned(_, _) => [Compute(t)]
    case Ready(_, _, _) => [BeginSync(t)]
    case Writing(_, _, _, _, _, _) => [FailSync(t)]
    case Stored(_, _, _) => [Publish(t)]
    case Releasing => [Release(t)]
    case _ => []
  }

  /** How many of these steps are left. */
  function Left(p: Phase): nat {
    match p
    case Holding(_) => 4
    case Cloned(_, _) => 3
    case Ready(_, _, _) => 2
    case Writing(_, _, _, _, _, _) => 1
    case Stored(_, _, _) => 2
    case Releasing => 1
    case _ => 0
  }

  lemma HolderMoves(s: Sys, t: nat) returns (ev: Event)
    requires Inv(s) && s.owner == Some(t)
    ensures Step(s, ev).Ok? && Inv(Step(s, ev).value) && !KillsHolder(s, ev)
    ensures var s' := Step(s, ev).value;
      (!s'.busy && s'.owner.None?) || (s'.owner == Some(t) && Left(s'.threads[t]) < Left(s.threads[t]))
  {
    hide Good, LegalTree, Chain, Settled, SyncWrites, Outcome, NormalOp, NodeCount, FailuresOk, SpecNext, Apply,
      Pending, SyncBlob;
    var p := s.threads[t];
    assert PhaseOk(s, p) && HoldsGuard(p);
    ev := GivesUp(t, p)[0];
    StepKeepsInv(s, ev);
  }

  /**
   Writers can start again after some run without a kill, if and only if the guard is not stuck. The
   events are those of the holder alone.
   */
  lemma {:induction false} Released(s: Sys) returns (events: seq<Event>)
    requires Inv(s) && !Stuck(s)
    ensures RunEvents(s, events).Ok? && !RunEvents(s, events).value.busy
    decreases if s.owner.Some? && s.owner.value < |s.threads| then Left(s.threads[s.owner.value]) else 0
  {
    hide Step, KillsHolder, Good, PhaseOk;
    if s.owner.None? {
      events := [];
    } else {
      var t := s.owner.value;
      var ev := HolderMoves(s, t);
      var s' := Step(s, ev).value;
      RunOne(s, ev);
      if s'.owner.None? {
        events := [ev];
      } else {
        var rest := Released(s');
        RunConcat(s, [ev], rest);
        events := [ev] + rest;
      }
    }
  }

  /** A run after which a new writer gets the guard exists exactly when no holder was killed. */
  lemma WritersCanStartIff(s: Sys)
    requires Inv(s)
    ensures (exists events :: RunEvents(s, events).Ok? && !RunEvents(s, events).value.busy) <==> !Stuck(s)
  {
    hide RunEvents, Inv;
    if Stuck(s) {
      forall events | RunEvents(s, events).Ok? ensures RunEvents(s, events).value.busy { StuckForever(s, events); }
    } else {
      var events := Released(s);
    }
  }

  // ---- A mount that returns neither the published nor the last failed writer's tree ----

  lemma {:induction false} RunConcat(s: Sys, a: seq<Event>, b: seq<Event>)
    requires RunEvents(s, a).Ok?
    ensures RunEvents(s, a + b) == RunEvents(RunEvents(s, a).value, b)
    decreases |b|
  {
    hide Step;
    if b == [] {
      assert a + b == a;
    } else {
      RunConcat(s, a, b[..|b| - 1]);
      assert (a + b)[..|a + b| - 1] == a + b[..|b| - 1];
    }
  }

  lemma RunOne(s: Sys, ev: Event)
    ensures RunEvents(s, [ev]) == Step(s, ev)
  {
    hide Step;
    assert [ev][..0] == [];
    assert RunEvents(s, []) == Ok(s);
  }

  /** The four steps of a writer before its first sector. */
  function Preparing(t: nat, op: Op): seq<Event> { [Acquire(t, op), Clone(t), Compute(t), BeginSync(t)] }

  function Writes(t: nat, k: nat): seq<Event> { seq(k, i => WriteSector(t)) }

  /** A writer that fails after `k` sector writes. */
  function FailingWriter(t: nat, op: Op, k: nat): seq<Event> { Preparing(t, op) + Writes(t, k) + [FailSync(t)] }

  ghost predicate CanWrite(s: Sys, t: nat, op: Op, candidate: FsNode) {
    && t < |s.threads| && s.threads[t].Idle? && !s.busy && NormalOp(op)
    && Outcome(op, s.published) == Ok(candidate) && SyncBlob(s.volume, candidate).Ok?
  }

  function AtWriting(s: Sys, t: nat, op: Op, candidate: FsNode): Sys
    requires t < |s.threads|
  {
    At(s, t, Writing(op, s.published, candidate, s.volume, s.spec, 0)).(busy := true, owner := Some(t))
  }

  lemma Prepares(s: Sys, t: nat, op: Op, candidate: FsNode)
    requires CanWrite(s, t, op, candidate)
    ensures RunEvents(s, Preparing(t, op)) == Ok(AtWriting(s, t, op, candidate))
  {
    hide NormalOp, Outcome, SyncBlob, NodeCount, RunEvents;
    var a := At(s, t, Holding(op)).(busy := true, owner := Some(t));
    var b := At(a, t, Cloned(op, s.published));
    var c := At(b, t, Ready(op, s.published, candidate));
    assert Step(s, Acquire(t, op)) == Ok(a) && Step(a, Clone(t)) == Ok(b);
    assert Step(b, Compute(t)) == Ok(c);
    assert c.threads[t := Writing(op, s.published, candidate, s.volume, s.spec, 0)]
        == AtWriting(s, t, op, candidate).threads;
    assert Step(c, BeginSync(t)) == Ok(AtWriting(s, t, op, candidate));
    FourEvents(s, a, b, c, Preparing(t, op));
  }

  lemma FourEvents(s: Sys, a: Sys, b: Sys, c: Sys, e: seq<Event>)
    requires |e| == 4 && Step(s, e[0]) == Ok(a) && Step(a, e[1]) == Ok(b) && Step(b, e[2]) == Ok(c)
    ensures RunEvents(s, e) == Step(c, e[3])
  {
    hide Step;
    assert e[..1] == [e[0]] && e[..2][..1] == e[..1] && e[..3][..2] == e[..2] && e[..3] == e[..|e| - 1];
    RunOne(s, e[0]);
    assert RunEvents(s, e[..2]) == Step(a, e[1]);
    assert RunEvents(s, e[..3]) == Step(b, e[2]);
  }

  /** After `k` sector writes: only the disk, its specification and the writer's count have moved. */
  lemma {:induction false} WritesRun(s: Sys, t: nat, k: nat) returns (r: Sys)
    requires t < |s.threads| && s.threads[t].Writing? && s.threads[t].done == 0
    requires SyncBlob(s.threads[t].base, s.threads[t].candidate).Ok?
    requires k <= |SyncWrites(s.threads[t].base, s.threads[t].candidate)|
    ensures RunEvents(s, Writes(t, k)) == Ok(r)
    ensures r == s.(threads := s.threads[t := s.threads[t].(done := k)], volume := r.volume, spec := r.spec)
    ensures r.volume == s.volume.(disk := r.volume.disk)
    decreases k
  {
    hide SyncBlob, SyncWrites, SpecNext;
    if k == 0 {
      r := s;
      assert s.threads[t := s.threads[t].(done := 0)] == s.threads;
    } else {
      var q := WritesRun(s, t, k - 1);
      assert Writes(t, k)[..k - 1] == Writes(t, k - 1);
      r := Step(q, WriteSector(t)).value;
    }
  }

  /** A writer can fail after any number of sector writes; the state then differs only on disk and in the report. */
  lemma WriterFails(s: Sys, t: nat, op: Op, candidate: FsNode, k: nat) returns (r: Sys)
    requires CanWrite(s, t, op, candidate) && s.owner.None? && k <= |SyncWrites(s.volume, candidate)|
    ensures RunEvents(s, FailingWriter(t, op, k)) == Ok(r)
    ensures r == s.(volume := r.volume, spec := r.spec, failures := r.failures)
    ensures r.volume == s.volume.(disk := r.volume.disk)
    ensures r.failures == s.failures + [Failure(Some(candidate), k, |SyncWrites(s.volume, candidate)|)]
  {
    hide SyncBlob, SyncWrites, RunEvents, NormalOp, Outcome, NodeCount;
    var a := AtWriting(s, t, op, candidate);
    Prepares(s, t, op, candidate);
    var b := WritesRun(a, t, k);
    RunConcat(s, Preparing(t, op), Writes(t, k));
    RunConcat(s, Preparing(t, op) + Writes(t, k), [FailSync(t)]);
    RunOne(b, FailSync(t));
    r := Step(b, FailSync(t)).value;
    assert r.threads == s.threads;
  }

  // A concrete run: one writer fails with every sector written, the next before its first.

  function Create(name: byte): Op { Mutation([SLASH, name], CreateFile) }

  function OneFile(name: byte): FsNode { Dir([Child([name], File([]))]) }

  lemma CreateNormal(name: byte)
    requires 0x61 <= name <= 0x7A
    ensures NormalOp(Create(name)) && Outcome(Create(name), EmptyRoot()) == Ok(OneFile(name))
  {
    hide Vfs.Normalized, Split;
    var path: Str, c: Str := [SLASH, name], [name];
    AsciiIsUtf8(path);
    Vfs.StackAbs([c]);
    assert Vfs.Abs([c]) == path;
    Vfs.AbsParts([c]);
    assert SplitAbsolute(path) == Ok([c]);
    assert [c][..0] == [];
    var children: seq<Child> := [];
    assert Find(children, c) == 0;
    assert children + [Child(c, File([]))] == OneFile(name).children;
    assert EditChildren(children, c, CreateFile) == Ok(OneFile(name).children);
    assert EditAt(EmptyRoot(), [], c, CreateFile) == Ok(OneFile(name));
  }

  lemma OneFileSyncs(v: Volume, name: byte)
    requires 0x61 <= name <= 0x7A && v.generation < U64_MAX
    ensures NodeCount(OneFile(name)) <= MAX_NODE_COUNT && SyncBlob(v, OneFile(name)).Ok?
    ensures |SyncWrites(v, OneFile(name))| == 3
  {
    hide CheckpointWrites;
    var c, path: Str := OneFile(name).children, [name];
    assert c[1..] == [] && c[0].node == File([]) && JoinPath([], c[0].name) == path;
    assert FlattenChildren([], c[1..]) == Ok([]);
    assert FlattenNode(path, c[0].node) == WriteRecord(path, File([])) == Ok(RecordBytes(path, File([])));
    assert |RecordBytes(path, File([]))| == 5;
    assert FlattenChildren([], c) == Append(FlattenNode(path, c[0].node), FlattenChildren([], c[1..]));
    assert FlattenNode([], OneFile(name)) == Append(Ok([]), FlattenChildren([], c));
    assert SerializeTree(OneFile(name)).Ok? && |SerializeTree(OneFile(name)).value| == 9;
    assert Records([], c[1..]) == [] && RecordsBelow([path], c[0].node) == [];
    assert [] + [c[0].name] == [path];
    assert |Records([], c)| == 1;
  }

  function LostWriters(): seq<Event> {
    FailingWriter(0, Create(0x61), 3) + FailingWriter(1, Create(0x62), 0)
  }

  /**
   On a freshly formatted volume with two threads: the first writer fails with its commit header written,
   the second before its first sector. The next mount returns the first writer's tree, which is neither
   the published one nor the last failed writer's.
   */
  lemma MountMissesLastWriter(disk: Disk)
    requires SLOT_B_LBA in disk && disk[SLOT_B_LBA] == Zeros(512)
    ensures var start := Boot(Volume(Apply(disk, FormatWrites()), 0, 1), EmptyRoot(), 2);
      RunEvents(start, LostWriters()).Ok? &&
      var s := RunEvents(start, LostWriters()).value;
      && !s.busy && s.published == EmptyRoot() && |s.failures| == 2
      && s.failures[1].candidate == Some(OneFile(0x62))
      && Mount(s.volume.disk).Mounted? && Mount(s.volume.disk).tree == OneFile(0x61)
      && OneFile(0x61) != EmptyRoot() && OneFile(0x61) != OneFile(0x62)
  {
    hide SyncBlob, SyncWrites, RunEvents, NormalOp, Outcome, NodeCount, Mount, Good, FormatWrites, Apply, Inv, Chain;
    var v := Volume(Apply(disk, FormatWrites()), 0, 1);
    var start := Boot(v, EmptyRoot(), 2);
    FormatGood(disk);
    CreateNormal(0x61);
    CreateNormal(0x62);
    OneFileSyncs(v, 0x61);
    var a := WriterFails(start, 0, Create(0x61), OneFile(0x61), 3);
    OneFileSyncs(a.volume, 0x62);
    var b := WriterFails(a, 1, Create(0x62), OneFile(0x62), 0);
    RunConcat(start, FailingWriter(0, Create(0x61), 3), FailingWriter(1, Create(0x62), 0));
    EveryInterleaving(v, EmptyRoot(), 2, LostWriters());
    TwoFailures(b.failures);
  }

  lemma TwoFailures(f: seq<Failure>)
    requires |f| == 2 && f[0].done > 0 && Complete(f[0]) && f[1].done == 0
    ensures Pending(f) == f[0].candidate
  {
    PendingIndexIff(f, 0);
  }
}
