/**
 Crash safety of TuwaiqFS v3 over whole runs. A run is any sequence of syncs, each
 cut after any prefix of its sector writes (power loss or a device error), and
 reboots. The volume refines a register that holds the last committed tree and at
 most one pending candidate: the one whose committed header reached the disk
 although its sync never reported success.
 */
module CrashSafety {
  import opened Prelude
  import opened BlockDevice
  import opened Crc32
  import opened TreeCodec
  import opened TreeCodecProofs
  import opened TreeCodecAccepted
  import opened Checkpoint
  import opened CheckpointProofs

  datatype Spec = Spec(committed: FsNode, pending: Option<FsNode>)

  /** What a mount must return. */
  function Visible(s: Spec): FsNode { if s.pending.Some? then s.pending.value else s.committed }

  /** Trees the reader takes back: legal, and within its node limit. */
  ghost predicate Storable(root: FsNode) { LegalTree(root) && NodeCount(root) <= MAX_NODE_COUNT }

  /** Syncs the register covers: a tree beyond the node limit must not be acknowledged. */
  ghost predicate Covered(root: FsNode, ok: bool) { LegalTree(root) && (ok ==> NodeCount(root) <= MAX_NODE_COUNT) }

  predicate Formatted(disk: Disk) { SUPERBLOCK_LBA in disk && disk[SUPERBLOCK_LBA] == Superblock() }

  /** The slot not in use is unusable, older, or holds exactly the pending candidate. */
  predicate OtherSlot(other: Result<Option<Loaded>>, generation: nat, pending: Option<FsNode>) {
    if !Loads(other) then pending.None?
    else if pending.None? then other.value.value.generation < generation
    else generation + 1 <= U64_MAX && other.value.value == Loaded(generation + 1, pending.value)
  }

  predicate Good(v: Volume, s: Spec) {
    && v.activeSlot <= 1 && 1 <= v.generation <= U64_MAX
    && Formatted(v.disk)
    && LoadCheckpoint(v.disk, v.activeSlot) == Ok(Some(Loaded(v.generation, s.committed)))
    && OtherSlot(LoadCheckpoint(v.disk, 1 - v.activeSlot), v.generation, s.pending)
  }

  // ---- Steps ----

  datatype Step =
    | Sync(root: FsNode, done: nat, ok: bool)
    | Reboot

  /** The steps `TuwaiqFs.SyncTree` and a mount after power loss can take. */
  ghost predicate Next(v: Volume, step: Step, v': Volume) {
    match step
    case Reboot =>
      var m := Mount(v.disk);
      m.Mounted? && v' == Volume(v.disk, m.slot, m.generation)
    case Sync(root, done, ok) =>
      Covered(root, ok) &&
      if SyncBlob(v, root).Err? then !ok && v' == v
      else
        var w := SyncWrites(v, root);
        && done <= |w| && v'.disk == Apply(v.disk, w[..done])
        && (ok ==> done == |w| && v'.activeSlot == SyncTarget(v) && v'.generation == v.generation + 1)
        && (!ok ==> v'.activeSlot == v.activeSlot && v'.generation == v.generation)
  }

  ghost function SpecNext(v: Volume, s: Spec, step: Step): Spec {
    match step
    case Reboot => Spec(Visible(s), None)
    case Sync(root, done, ok) =>
      if SyncBlob(v, root).Err? || done == 0 then s
      else if ok then Spec(root, None)
      else if done < |SyncWrites(v, root)| || NodeCount(root) > MAX_NODE_COUNT then Spec(s.committed, None)
      else Spec(s.committed, Some(root))
  }

  // ---- One step ----

  lemma SuperblockFields()
    ensures var sb := Superblock();
            && sb[..8] == MAGIC && FromLe(sb[8..12]) == VERSION
            && FromLe(sb[12..16]) == SLOT_A_LBA && FromLe(sb[16..20]) == SLOT_SECTORS
  {
    hide FromLe, ToLe;
    var sb := Superblock();
    Pow256Values();
    LeRoundTrip(VERSION, 4);
    LeRoundTrip(SLOT_A_LBA, 4);
    LeRoundTrip(SLOT_SECTORS, 4);
    assert sb[8..12] == ToLe(VERSION, 4);
    assert sb[12..16] == ToLe(SLOT_A_LBA, 4);
    assert sb[16..20] == ToLe(SLOT_SECTORS, 4);
  }

  lemma MountIsLoadLatest(disk: Disk)
    requires Formatted(disk)
    ensures Mount(disk) == LoadLatest(disk)
  {
    hide LoadLatest, Superblock, FromLe;
    SuperblockFields();
  }

  /** A mount returns exactly the visible tree, from the slot that holds it. */
  lemma MountGood(v: Volume, s: Spec)
    requires Good(v, s)
    ensures Mount(v.disk) == if s.pending.Some? then Mounted(1 - v.activeSlot, v.generation + 1, Visible(s))
                             else Mounted(v.activeSlot, v.generation, Visible(s))
  {
    hide LoadCheckpoint, Superblock, Mount;
    MountIsLoadLatest(v.disk);
  }

  /** The volume after the first `done` writes of a sync that is not rejected. */
  lemma CutSync(v: Volume, s: Spec, root: FsNode, done: nat)
    requires Good(v, s) && LegalTree(root) && SyncBlob(v, root).Ok?
    requires 1 <= done <= |SyncWrites(v, root)|
    ensures var d := Apply(v.disk, SyncWrites(v, root)[..done]);
            && Formatted(d)
            && LoadCheckpoint(d, v.activeSlot) == LoadCheckpoint(v.disk, v.activeSlot)
            && LoadCheckpoint(d, 1 - v.activeSlot)
               == if done < |SyncWrites(v, root)| || NodeCount(root) > MAX_NODE_COUNT then Ok(None)
                  else Ok(Some(Loaded(v.generation + 1, root)))
  {
    hide LoadCheckpoint, Superblock, NodeCount, SerializeTree, LegalTree, Apply, CheckpointWrites;
    var target, blob := SyncTarget(v), SyncBlob(v, root).value;
    var w := SyncWrites(v, root);
    OtherSlotUntouched(v.disk, target, v.generation + 1, blob, done);
    if done < |w| {
      CutSlotIsEmpty(v.disk, target, v.generation + 1, blob, done);
    } else {
      assert w[..done] == w;
      CompleteTree(v.disk, target, v.generation + 1, root);
    }
  }

  lemma StepSafe(v: Volume, s: Spec, step: Step, v': Volume)
    requires Good(v, s) && Next(v, step, v')
    ensures Good(v', SpecNext(v, s, step))
  {
    hide LoadCheckpoint, Superblock, LegalTree, NodeCount, Mount, CheckpointWrites, FlattenNode;
    match step {
      case Reboot => MountGood(v, s);
      case Sync(root, done, ok) =>
        if SyncBlob(v, root).Ok? {
          if done == 0 {
            assert SyncWrites(v, root)[..0] == [];
          } else {
            CutSync(v, s, root, done);
          }
        }
    }
  }

  // ---- Whole runs ----

  ghost predicate Run(vs: seq<Volume>, steps: seq<Step>) {
    && |vs| == |steps| + 1
    && forall i :: 0 <= i < |steps| ==> Next(vs[i], steps[i], vs[i + 1])
  }

  ghost function SpecRun(vs: seq<Volume>, steps: seq<Step>, s: Spec): Spec
    requires Run(vs, steps)
    decreases |steps|
  {
    if steps == [] then s
    else SpecNext(vs[|steps| - 1], SpecRun(vs[..|steps|], steps[..|steps| - 1], s), steps[|steps| - 1])
  }

  /**
   Over every run of syncs cut anywhere and reboots, a mount succeeds and returns
   the committed tree, or the one candidate whose committed header was written.
   */
  lemma {:induction false} CrashSafe(vs: seq<Volume>, steps: seq<Step>, s: Spec)
    requires Run(vs, steps) && Good(vs[0], s)
    ensures var last := vs[|steps|];
            var spec := SpecRun(vs, steps, s);
            && Good(last, spec)
            && Mount(last.disk).Mounted? && Mount(last.disk).tree == Visible(spec)
    decreases |steps|
  {
    hide Next, Good, Mount, SpecNext;
    var n := |steps|;
    if n != 0 {
      var init, head := vs[..n], steps[..n - 1];
      assert Run(init, head) by {
        forall i | 0 <= i < |head| ensures Next(init[i], head[i], init[i + 1]) {
          assert Next(vs[i], steps[i], vs[i + 1]);
        }
      }
      CrashSafe(init, head, s);
      StepSafe(vs[n - 1], SpecRun(init, head, s), steps[n - 1], vs[n]);
    }
    MountGood(vs[n], SpecRun(vs, steps, s));
  }

  /** One sync cut after `done` writes: the exact tree the next mount returns. */
  lemma CutThenMount(v: Volume, s: Spec, root: FsNode, done: nat)
    requires Good(v, s) && LegalTree(root) && SyncBlob(v, root).Ok?
    requires done <= |SyncWrites(v, root)|
    ensures var m := Mount(Apply(v.disk, SyncWrites(v, root)[..done]));
            && m.Mounted?
            && m.tree == (if done == 0 then Visible(s)
                          else if done < |SyncWrites(v, root)| || NodeCount(root) > MAX_NODE_COUNT then s.committed
                          else root)
  {
    hide Next, Good, Mount, SyncWrites, LegalTree, NodeCount;
    var v' := Volume(Apply(v.disk, SyncWrites(v, root)[..done]), v.activeSlot, v.generation);
    var step := Sync(root, done, false);
    SyncStep(v, root, done, v');
    StepSafe(v, s, step, v');
    MountGood(v', SpecNext(v, s, step));
  }

  lemma SyncStep(v: Volume, root: FsNode, done: nat, v': Volume)
    requires LegalTree(root) && SyncBlob(v, root).Ok? && done <= |SyncWrites(v, root)|
    requires v' == Volume(Apply(v.disk, SyncWrites(v, root)[..done]), v.activeSlot, v.generation)
    ensures Next(v, Sync(root, done, false), v')
  {}

  /** A reboot followed by syncs none of which has succeeded. */
  ghost predicate UntilSuccess(steps: seq<Step>) {
    && steps != [] && steps[0].Reboot?
    && forall i :: 1 <= i < |steps| ==> steps[i].Sync? && !steps[i].ok
  }

  lemma {:induction false} SlotStays(vs: seq<Volume>, steps: seq<Step>, i: nat)
    requires Run(vs, steps) && UntilSuccess(steps) && 1 <= i <= |steps|
    ensures Mount(vs[0].disk).Mounted? && vs[i].activeSlot == Mount(vs[0].disk).slot <= 1
  {
    hide Mount, SyncWrites, SyncBlob, LegalTree, NodeCount, Apply;
    if i == 1 {
      assert Next(vs[0], steps[0], vs[1]);
      MountSlot(vs[0].disk);
    } else {
      SlotStays(vs, steps, i - 1);
      assert Next(vs[i - 1], steps[i - 1], vs[i]);
    }
  }

  lemma MountSlot(disk: Disk)
    ensures Mount(disk).Mounted? ==> Mount(disk).slot <= 1
  {
    hide LoadCheckpoint, Superblock, FromLe;
  }

  /**
   From a mount on, up to and including the first sync that succeeds, no sync writes a sector of the
   slot that was mounted.
   */
  lemma MountedSlotSpared(vs: seq<Volume>, steps: seq<Step>, i: nat, root: FsNode)
    requires Run(vs, steps) && UntilSuccess(steps) && 1 <= i <= |steps| && SyncBlob(vs[i], root).Ok?
    ensures Mount(vs[0].disk).Mounted? && SyncTarget(vs[i]) != Mount(vs[0].disk).slot
    ensures var w, lba := SyncWrites(vs[i], root), SlotLba(Mount(vs[0].disk).slot);
            forall k :: 0 <= k < |w| ==> !(lba <= w[k].lba < lba + SLOT_SECTORS)
  {
    hide Mount, CheckpointWrites, FlattenNode;
    assert Next(vs[0], steps[0], vs[1]);
    SlotStays(vs, steps, i);
    var w := SyncWrites(vs[i], root);
    SlotWrites(SyncTarget(vs[i]), vs[i].generation + 1, SyncBlob(vs[i], root).value, |w|);
    assert w[..|w|] == w;
  }

  /** A sync that reported success survives any number of reboots and of syncs cut before their commit. */
  lemma {:induction false} AcknowledgedSurvives(vs: seq<Volume>, steps: seq<Step>, root: FsNode)
    requires Run(vs, steps) && Good(vs[0], Spec(root, None))
    requires forall i :: 0 <= i < |steps| && steps[i].Sync? && SyncBlob(vs[i], steps[i].root).Ok? ==>
               !steps[i].ok && steps[i].done < |SyncWrites(vs[i], steps[i].root)|
    ensures SpecRun(vs, steps, Spec(root, None)) == Spec(root, None)
    ensures Mount(vs[|steps|].disk).Mounted? && Mount(vs[|steps|].disk).tree == root
    decreases |steps|
  {
    hide Next, Good, Mount, SyncWrites, SyncBlob;
    var n := |steps|;
    if n != 0 {
      var init, head := vs[..n], steps[..n - 1];
      assert Run(init, head) by {
        forall i | 0 <= i < |head| ensures Next(init[i], head[i], init[i + 1]) {
          assert Next(vs[i], steps[i], vs[i + 1]);
        }
      }
      AcknowledgedSurvives(init, head, root);
    }
    CrashSafe(vs, steps, Spec(root, None));
  }

  // ---- What was committed can be committed again ----

  lemma {:induction false} ReadLength(disk: Disk, lba: nat, length: nat)
    requires ReadFrom(disk, lba, length).Ok?
    ensures |ReadFrom(disk, lba, length).value| == length
    decreases length
  {
    if length > 0 { ReadLength(disk, lba + 1, length - Min(length, 512)); }
  }

  lemma LoadedPayload(disk: Disk, slot: nat) returns (blob: seq<byte>)
    requires Loads(LoadCheckpoint(disk, slot))
    ensures 4 <= |blob| <= MAX_METADATA_BYTES
    ensures ParseTree(blob[4..]) == Ok(LoadCheckpoint(disk, slot).value.value.tree)
  {
    hide FromLe, Checksum, ParseTree;
    var header := disk[SlotLba(slot)];
    blob := ReadFrom(disk, SlotLba(slot) + 1, FromLe(header[16..20])).value;
    ReadLength(disk, SlotLba(slot) + 1, FromLe(header[16..20]));
  }

  /** The committed tree is legal and within the node limit, and a sync of it is not rejected. */
  lemma CommittedSyncable(v: Volume, s: Spec)
    requires Good(v, s)
    ensures Storable(s.committed)
    ensures v.generation < U64_MAX ==> SyncBlob(v, s.committed).Ok?
  {
    hide LoadCheckpoint, Superblock, ParseTree, SerializeTree, LegalTree, NodeCount;
    var blob := LoadedPayload(v.disk, v.activeSlot);
    var rs := AcceptedReserializes(blob[4..]);
  }

  // ---- Where the promise ends ----

  /**
   A sync that writes everything and reports success is durable exactly when the
   tree has at most 1024 nodes. Beyond that the next mount returns the tree that
   was committed before: the writer has no limit of its own.
   */
  lemma DurableIff(v: Volume, s: Spec, root: FsNode)
    requires Good(v, s) && LegalTree(root) && SyncBlob(v, root).Ok?
    ensures var m := Mount(Apply(v.disk, SyncWrites(v, root)));
            && (NodeCount(root) <= MAX_NODE_COUNT ==> m == Mounted(SyncTarget(v), v.generation + 1, root))
            && (NodeCount(root) > MAX_NODE_COUNT ==> m == Mounted(v.activeSlot, v.generation, s.committed))
  {
    hide LoadCheckpoint, Superblock, NodeCount, SerializeTree, LegalTree, Apply, CheckpointWrites, Mount;
    var w := SyncWrites(v, root);
    assert w[..|w|] == w;
    OtherSlotUntouched(v.disk, SyncTarget(v), v.generation + 1, SyncBlob(v, root).value, |w|);
    CompleteTree(v.disk, SyncTarget(v), v.generation + 1, root);
    MountIsLoadLatest(Apply(v.disk, w));
  }

  /** Two successful syncs beyond the limit leave nothing to mount. */
  lemma TwoOversizedSyncs(v: Volume, s: Spec, root: FsNode)
    requires Good(v, s) && LegalTree(root) && NodeCount(root) > MAX_NODE_COUNT
    requires SyncBlob(v, root).Ok?
    ensures var v1 := Volume(Apply(v.disk, SyncWrites(v, root)), SyncTarget(v), v.generation + 1);
            && (v.generation + 2 <= U64_MAX ==> SyncBlob(v1, root).Ok?)
            && (SyncBlob(v1, root).Ok? ==> Mount(Apply(v1.disk, SyncWrites(v1, root))) == Unmountable)
  {
    hide LoadCheckpoint, Superblock, NodeCount, SerializeTree, LegalTree, Apply, CheckpointWrites, Mount;
    var w := SyncWrites(v, root);
    assert w[..|w|] == w;
    var v1 := Volume(Apply(v.disk, w), SyncTarget(v), v.generation + 1);
    if SyncBlob(v1, root).Ok? {
      var w1 := SyncWrites(v1, root);
      assert w1[..|w1|] == w1;
      OtherSlotUntouched(v.disk, SyncTarget(v), v.generation + 1, SyncBlob(v, root).value, |w|);
      CompleteTree(v.disk, SyncTarget(v), v.generation + 1, root);
      OtherSlotUntouched(v1.disk, SyncTarget(v1), v1.generation + 1, SyncBlob(v1, root).value, |w1|);
      CompleteTree(v1.disk, SyncTarget(v1), v1.generation + 1, root);
      MountIsLoadLatest(Apply(v1.disk, w1));
    }
  }

  // ---- Damage and formatting ----

  /**
   A committed slot whose payload was damaged within four consecutive bytes is not
   loaded, so a mount falls back to the other slot.
   */
  lemma BurstDamageRejected(disk: Disk, slot: nat, generation: nat,
                            prefix: seq<byte>, a: seq<byte>, b: seq<byte>, suffix: seq<byte>)
    requires slot <= 1 && generation <= U64_MAX && SlotLba(slot) in disk
    requires |a| == |b| <= 4 && a != b && |prefix + a + suffix| <= MAX_METADATA_BYTES
    requires disk[SlotLba(slot)] == Header(generation, prefix + a + suffix, true)
    requires ReadFrom(disk, SlotLba(slot) + 1, |prefix + a + suffix|) == Ok(prefix + b + suffix)
    ensures LoadCheckpoint(disk, slot) == Ok(None)
    ensures Formatted(disk) && Loads(LoadCheckpoint(disk, 1 - slot)) ==>
              Mount(disk) == Choose(1 - slot, LoadCheckpoint(disk, 1 - slot).value.value)
  {
    hide FromLe, Header, Checksum, ReadFrom, ParseTree, Superblock, Mount;
    HeaderFields(generation, prefix + a + suffix, true);
    BurstDetected(prefix, a, b, suffix);
    if Formatted(disk) { MountIsLoadLatest(disk); }
  }

  /** All sector writes of a first-time format. */
  function FormatWrites(): seq<Write> {
    [Write(SUPERBLOCK_LBA, Superblock())] + CheckpointWrites(0, 1, TREE_MAGIC)
  }

  /**
   Formatting is not crash safe: a cut after the superblock and before the committed
   header leaves a volume that refuses to mount; it is never silently reformatted.
   */
  lemma FormatCut(disk: Disk, done: nat)
    requires SUPERBLOCK_LBA in disk && disk[SUPERBLOCK_LBA] == Zeros(512)
    requires SLOT_A_LBA in disk && disk[SLOT_A_LBA] == Zeros(512)
    requires SLOT_B_LBA in disk && disk[SLOT_B_LBA] == Zeros(512)
    requires done <= |FormatWrites()|
    ensures SerializeTree(EmptyRoot()) == Ok(TREE_MAGIC)
    ensures Mount(Apply(disk, FormatWrites()[..done]))
         == if done == 0 then Unformatted
            else if done < |FormatWrites()| then Unmountable
            else Mounted(0, 1, EmptyRoot())
  {
    hide LoadCheckpoint, Superblock, CheckpointWrites, Header;
    EmptySerialized();
    if done == 0 {
      assert FormatWrites()[..0] == [];
      assert Zeros(512)[..8][0] == 0;
    } else {
      var w := CheckpointWrites(0, 1, TREE_MAGIC);
      var sb := [Write(SUPERBLOCK_LBA, Superblock())];
      assert FormatWrites()[..done] == sb + w[..done - 1];
      ApplyConcat(disk, sb, w[..done - 1]);
      ApplyOne(disk, sb[0]);
      FormatTail(Apply(disk, sb), done - 1);
    }
  }

  lemma EmptySerialized()
    ensures SerializeTree(EmptyRoot()) == Ok(TREE_MAGIC)
  {
    var nothing: seq<byte> := [];
    assert nothing + nothing == nothing;
    assert FlattenNode([], EmptyRoot()) == Ok(nothing);
    assert TREE_MAGIC + nothing == TREE_MAGIC;
  }

  lemma FormatTail(d: Disk, k: nat)
    requires Formatted(d) && k <= |CheckpointWrites(0, 1, TREE_MAGIC)|
    requires SLOT_A_LBA in d && d[SLOT_A_LBA] == Zeros(512)
    requires SLOT_B_LBA in d && d[SLOT_B_LBA] == Zeros(512)
    ensures Mount(Apply(d, CheckpointWrites(0, 1, TREE_MAGIC)[..k]))
         == if k < |CheckpointWrites(0, 1, TREE_MAGIC)| then Unmountable else Mounted(0, 1, EmptyRoot())
  {
    hide LoadCheckpoint, Superblock, CheckpointWrites, Mount, Header, Checksum, ParseTree, Apply;
    var w := CheckpointWrites(0, 1, TREE_MAGIC);
    OtherSlotUntouched(d, 0, 1, TREE_MAGIC, k);
    ZeroSlot(d, 0);
    ZeroSlot(d, 1);
    MountIsLoadLatest(Apply(d, w[..k]));
    if k == 0 {
      ApplyNext(d, w, 0);
    } else if k < |w| {
      CutSlotIsEmpty(d, 0, 1, TREE_MAGIC, k);
    } else {
      assert w[..k] == w;
      CompleteSlot(d, 0, 1, TREE_MAGIC);
      EmptyPayload(TREE_MAGIC, 1);
    }
  }

  lemma EmptyPayload(blob: seq<byte>, generation: nat)
    requires blob == TREE_MAGIC
    ensures CheckBlob(blob, generation, Checksum(blob)) == Some(Loaded(generation, EmptyRoot()))
  {
    hide Checksum;
    assert blob[4..] == [];
  }

  /** A completed format is where runs start: the empty tree committed, nothing pending. */
  lemma FormatGood(disk: Disk)
    requires SLOT_B_LBA in disk && disk[SLOT_B_LBA] == Zeros(512)
    ensures Good(Volume(Apply(disk, FormatWrites()), 0, 1), Spec(EmptyRoot(), None))
  {
    hide LoadCheckpoint, Superblock, CheckpointWrites, Checksum, ParseTree, Apply;
    var w := CheckpointWrites(0, 1, TREE_MAGIC);
    var sb := [Write(SUPERBLOCK_LBA, Superblock())];
    var d := Apply(disk, sb);
    ApplyConcat(disk, sb, w);
    ApplyOne(disk, sb[0]);
    assert w[..|w|] == w;
    OtherSlotUntouched(d, 0, 1, TREE_MAGIC, |w|);
    ZeroSlot(d, 1);
    CompleteSlot(d, 0, 1, TREE_MAGIC);
    EmptyPayload(TREE_MAGIC, 1);
  }

  lemma ZeroSlot(d: Disk, slot: nat)
    requires slot <= 1 && SlotLba(slot) in d && d[SlotLba(slot)] == Zeros(512)
    ensures LoadCheckpoint(d, slot) == Ok(None)
  {
    assert Zeros(512)[..8][0] == 0;
  }
}
