/**
 The TuwaiqFS driver: the disk and the two atomics that name the active slot and
 its generation, updated in place. Every method is proved against the decisions of
 `Checkpoint` and the step relation of `CrashSafety`.
 */
module TuwaiqFs {
  import opened Prelude
  import opened BlockDevice
  import opened Crc32
  import opened TreeCodec
  import opened Checkpoint
  import opened CheckpointProofs
  import opened CrashSafety

  class Driver {
    var disk: Disk
    var activeSlot: nat
    var generation: nat

    ghost function State(): Volume
      reads this
    {
      Volume(disk, activeSlot, generation)
    }

    /** A failed write may or may not have reached the medium. */
    method WriteSector(lba: nat, data: Sector) returns (ok: bool)
      modifies this`disk
      ensures disk == old(disk) || disk == old(disk)[lba := data]
      ensures ok ==> disk == old(disk)[lba := data]
    {
      var outcome: int := *;
      if outcome == 0 { return false; }
      disk := disk[lba := data];
      ok := outcome != 1;
    }

    method ReadSector(lba: nat) returns (r: Result<Sector>)
      ensures r == if lba in disk then Ok(disk[lba]) else Err
    {
      if lba in disk { r := Ok(disk[lba]); } else { r := Err; }
    }

    /** Stops at the first failed write; `done` counts the writes that reached the medium. */
    method WriteCheckpoint(slot: nat, gen: nat, blob: seq<byte>) returns (ok: bool, ghost done: nat)
      modifies this`disk
      ensures var w := CheckpointWrites(slot, gen, blob);
              done <= |w| && disk == Apply(old(disk), w[..done]) && (ok ==> done == |w|)
    {
      hide Header, PayloadSector, Apply;
      ghost var w, start := CheckpointWrites(slot, gen, blob), disk;
      var lba := SlotLba(slot);
      ApplyNext(start, w, 0);
      ok := WriteSector(lba, Header(gen, blob, false));
      done := if disk == Apply(start, w[..1]) then 1 else 0;
      if !ok { return; }
      for index := 0 to SectorCount(|blob|)
        invariant ok && done == index + 1 && disk == Apply(start, w[..done])
      {
        PayloadWriteAt(lba, blob, SectorCount(|blob|), index);
        ApplyNext(start, w, done);
        ok := WriteSector(lba + 1 + index, PayloadSector(blob, index));
        done := if disk == Apply(start, w[..done + 1]) then done + 1 else done;
        if !ok { return; }
      }
      ApplyNext(start, w, done);
      ok := WriteSector(lba, Header(gen, blob, true));
      done := if disk == Apply(start, w[..done + 1]) then done + 1 else done;
    }

    /** Persist the whole tree; the volatile slot and generation move only after success. */
    method SyncTree(root: FsNode) returns (ok: bool, ghost done: nat)
      modifies this
      ensures SyncBlob(old(State()), root).Err? ==> !ok && State() == old(State())
      ensures SyncBlob(old(State()), root).Ok? ==>
                var w := SyncWrites(old(State()), root);
                && done <= |w| && disk == Apply(old(disk), w[..done])
                && (ok ==> done == |w| && activeSlot == SyncTarget(old(State())) && generation == old(generation) + 1)
                && (!ok ==> activeSlot == old(activeSlot) && generation == old(generation))
      ensures Covered(root, ok) ==> Next(old(State()), Sync(root, done, ok), State())
      ensures forall s :: Covered(root, ok) && Good(old(State()), s) ==>
                Good(State(), SpecNext(old(State()), s, Sync(root, done, ok)))
    {
      hide CheckpointWrites, Apply, FlattenNode, Good, Covered;
      done := 0;
      var blob := FlattenTree([], root, TREE_MAGIC);
      if blob.Err? || |blob.value| > MAX_METADATA_BYTES { return false, 0; }
      if generation + 1 > U64_MAX { return false, 0; }
      var target := 1 - Min(activeSlot, 1);
      ok, done := WriteCheckpoint(target, generation + 1, blob.value);
      if ok { activeSlot, generation := target, generation + 1; }
      forall s | Covered(root, ok) && Good(old(State()), s)
        ensures Good(State(), SpecNext(old(State()), s, Sync(root, done, ok)))
      {
        StepSafe(old(State()), s, Sync(root, done, ok), State());
      }
    }

    method ReadMetadataAt(lba: nat, length: nat) returns (r: Result<seq<byte>>)
      ensures r == ReadFrom(disk, lba, length)
    {
      var blob, sector := [], lba;
      ghost var whole := ReadFrom(disk, lba, length);
      assert whole.Ok? ==> [] + whole.value == whole.value;
      while |blob| < length
        invariant |blob| <= length
        invariant var rest := ReadFrom(disk, sector, length - |blob|);
                  ReadFrom(disk, lba, length) == if rest.Err? then Err else Ok(blob + rest.value)
      {
        var data := ReadSector(sector);
        if data.Err? { return Err; }
        var take := Min(length - |blob|, 512);
        ghost var rest := ReadFrom(disk, sector + 1, length - |blob| - take);
        if rest.Ok? {
          assert blob + (data.value[..take] + rest.value) == (blob + data.value[..take]) + rest.value;
        }
        blob, sector := blob + data.value[..take], sector + 1;
      }
      assert blob + [] == blob;
      r := Ok(blob);
    }

    method LoadSlot(slot: nat) returns (r: Result<Option<Loaded>>)
      ensures r == LoadCheckpoint(disk, slot)
    {
      hide FromLe, ParseTree, Checksum;
      var lba := SlotLba(slot);
      var sector := ReadSector(lba);
      if sector.Err? { return Err; }
      var header := sector.value;
      if header[..8] != SLOT_MAGIC || FromLe(header[24..28]) != SLOT_COMMITTED { return Ok(None); }
      var gen, length := FromLe(header[8..16]), FromLe(header[16..20]);
      if gen == 0 || length == 0 || length > MAX_METADATA_BYTES { return Ok(None); }
      var blob := ReadMetadataAt(lba + 1, length);
      if blob.Err? { return Err; }
      var crc := Compute(blob.value);
      if crc != FromLe(header[20..24]) || |blob.value| < 4 || blob.value[..4] != TREE_MAGIC { return Ok(None); }
      var tree := DeserializeTree(blob.value[4..]);
      if tree.Err? { return Ok(None); }
      return Ok(Some(Loaded(gen, tree.value)));
    }

    /** Load the newest valid checkpoint of a v3 volume and make its slot the active one. */
    method LoadLatestCheckpoint() returns (r: Result<FsNode>)
      modifies this`activeSlot, this`generation
      ensures var m := LoadLatest(disk);
              && (r.Ok? <==> m.Mounted?)
              && (r.Ok? ==> r.value == m.tree && activeSlot == m.slot && generation == m.generation)
              && (r.Err? ==> State() == old(State()))
    {
      hide LoadCheckpoint;
      var first := LoadSlot(0);
      var second := LoadSlot(1);
      var slot, chosen;
      if Loads(first) && Loads(second) {
        if first.value.value.generation >= second.value.value.generation {
          slot, chosen := 0, first.value.value;
        } else {
          slot, chosen := 1, second.value.value;
        }
      } else if Loads(first) {
        slot, chosen := 0, first.value.value;
      } else if Loads(second) {
        slot, chosen := 1, second.value.value;
      } else {
        return Err;
      }
      activeSlot, generation := slot, chosen.generation;
      r := Ok(chosen.tree);
    }

    /** The superblock first, then generation 1 of the empty tree into slot 0. */
    method FormatRegion() returns (ok: bool, ghost done: nat)
      modifies this
      ensures done <= |FormatWrites()| && disk == Apply(old(disk), FormatWrites()[..done])
      ensures ok ==> done == |FormatWrites()| && activeSlot == 0 && generation == 1
    {
      hide Superblock, Apply, CheckpointWrites, Next, Good, SpecNext;
      ghost var w, start := FormatWrites(), disk;
      ApplyNext(start, w, 0);
      ok := WriteSector(SUPERBLOCK_LBA, Superblock());
      done := if disk == Apply(start, w[..1]) then 1 else 0;
      if !ok { return; }
      activeSlot, generation := 1, 0;
      ghost var middle, rest := disk, CheckpointWrites(0, 1, TREE_MAGIC);
      EmptySerialized();
      ghost var more;
      ok, more := SyncTree(EmptyRoot());
      done := 1 + more;
      assert w[..done] == w[..1] + rest[..more];
      ApplyConcat(start, w[..1], rest[..more]);
    }

    /** Mount the volume, formatting a blank region; legacy volumes are not modelled. */
    method MountVolume() returns (r: Result<FsNode>)
      modifies this
      ensures var m := Mount(old(disk));
              && (m.Mounted? ==> r == Ok(m.tree) && State() == Volume(old(disk), m.slot, m.generation))
              && (m.Unmountable? || m.LegacyVolume? ==> r.Err? && State() == old(State()))
              && (m.Unformatted? && r.Ok? ==>
                    r.value == EmptyRoot() && State() == Volume(Apply(old(disk), FormatWrites()), 0, 1))
      ensures forall s :: Good(old(State()), s) ==> r == Ok(Visible(s)) && Good(State(), Spec(Visible(s), None))
    {
      hide Superblock, LoadLatest, LoadCheckpoint, FromLe, FormatWrites, Apply;
      ghost var before := State();
      GoodMounts(before);
      var sb := ReadSector(SUPERBLOCK_LBA);
      if sb.Err? { return Err; }
      if sb.value[..8] != MAGIC {
        var a := ReadSector(SLOT_A_LBA);
        if a.Err? { return Err; }
        var b := ReadSector(SLOT_B_LBA);
        if b.Err? { return Err; }
        if sb.value != Zeros(512) || a.value != Zeros(512) || b.value != Zeros(512) { return Err; }
        var ok, _ := FormatRegion();
        if !ok { return Err; }
        assert FormatWrites()[..|FormatWrites()|] == FormatWrites();
        return Ok(EmptyRoot());
      }
      var version, lba, sectors := FromLe(sb.value[8..12]), FromLe(sb.value[12..16]), FromLe(sb.value[16..20]);
      if version != VERSION || lba != SLOT_A_LBA || sectors != SLOT_SECTORS { return Err; }
      r := LoadLatestCheckpoint();
    }
  }

  /** What any good volume mounts as, and that mounting keeps it good. */
  lemma GoodMounts(v: Volume)
    ensures forall s :: Good(v, s) ==>
              && Mount(v.disk).Mounted? && Mount(v.disk).tree == Visible(s)
              && Good(Volume(v.disk, Mount(v.disk).slot, Mount(v.disk).generation), Spec(Visible(s), None))
  {
    hide Mount, Good;
    forall s | Good(v, s)
      ensures Mount(v.disk).Mounted? && Mount(v.disk).tree == Visible(s)
      ensures Good(Volume(v.disk, Mount(v.disk).slot, Mount(v.disk).generation), Spec(Visible(s), None))
    {
      MountGood(v, s);
      StepSafe(v, s, Reboot, Volume(v.disk, Mount(v.disk).slot, Mount(v.disk).generation));
    }
  }
}
