/**
 TuwaiqFS v3 on disk: a superblock and two checkpoint slots. A sync writes the
 inactive slot sector by sector, the committed header last; a mount loads the
 newest slot that passes every check.
 */
module Checkpoint {
  import opened Prelude
  import opened BlockDevice
  import opened Crc32
  import opened TreeCodec

  const SUPERBLOCK_LBA := 8192
  const LEGACY_METADATA_LBA := 8465
  const LEGACY_METADATA_SECTORS := 248
  const SLOT_A_LBA := 23_490
  const SLOT_SECTORS := 512
  const SLOT_B_LBA := SLOT_A_LBA + SLOT_SECTORS
  const MAX_METADATA_BYTES := (SLOT_SECTORS - 1) * 512
  const VERSION := 3
  const LEGACY_VERSION := 2
  const MAGIC: seq<byte> := [0x54, 0x51, 0x46, 0x53, 0x76, 0x32, 0, 0]
  const SLOT_MAGIC: seq<byte> := [0x54, 0x51, 0x43, 0x4B, 0x50, 0x54, 0, 0]
  const SLOT_COMMITTED := 0x434F_4D54

  datatype Write = Write(lba: nat, data: Sector)

  function Apply(disk: Disk, writes: seq<Write>): Disk
    decreases |writes|
  {
    if writes == [] then disk
    else Apply(disk, writes[..|writes| - 1])[writes[|writes| - 1].lba := writes[|writes| - 1].data]
  }

  // ---- Writing a checkpoint ----

  function SlotLba(slot: nat): nat { if slot == 0 then SLOT_A_LBA else SLOT_B_LBA }

  function Header(generation: nat, blob: seq<byte>, committed: bool): (h: Sector) {
    SLOT_MAGIC + ToLe(generation, 8) + ToLe(|blob|, 4) + ToLe(Checksum(blob), 4)
    + (if committed then ToLe(SLOT_COMMITTED, 4) else Zeros(4)) + Zeros(484)
  }

  function SectorCount(length: nat): nat { (length + 511) / 512 }

  /** The `index`-th payload sector, padded with zeros. */
  function PayloadSector(blob: seq<byte>, index: nat): Sector
    requires index < SectorCount(|blob|)
  {
    var offset := index * 512;
    var count := Min(|blob| - offset, 512);
    blob[offset..offset + count] + Zeros(512 - count)
  }

  function PayloadWrites(lba: nat, blob: seq<byte>, count: nat): (w: seq<Write>)
    requires count <= SectorCount(|blob|)
    ensures |w| == count
  {
    if count == 0 then []
    else PayloadWrites(lba, blob, count - 1) + [Write(lba + count, PayloadSector(blob, count - 1))]
  }

  /** All sector writes of one checkpoint, in order. */
  function CheckpointWrites(slot: nat, generation: nat, blob: seq<byte>): (w: seq<Write>)
    ensures |w| == SectorCount(|blob|) + 2
  {
    var lba := SlotLba(slot);
    [Write(lba, Header(generation, blob, false))]
    + PayloadWrites(lba, blob, SectorCount(|blob|))
    + [Write(lba, Header(generation, blob, true))]
  }

  // ---- Reading ----

  datatype Loaded = Loaded(generation: nat, tree: FsNode)

  function LoadCheckpoint(disk: Disk, slot: nat): Result<Option<Loaded>> {
    var lba := SlotLba(slot);
    if lba !in disk then Err
    else
      var header := disk[lba];
      if header[..8] != SLOT_MAGIC || FromLe(header[24..28]) != SLOT_COMMITTED then Ok(None)
      else
        var generation, length := FromLe(header[8..16]), FromLe(header[16..20]);
        if generation == 0 || length == 0 || length > MAX_METADATA_BYTES then Ok(None)
        else
          var blob := ReadFrom(disk, lba + 1, length);
          if blob.Err? then Err
          else Ok(CheckBlob(blob.value, generation, FromLe(header[20..24])))
  }

  function CheckBlob(blob: seq<byte>, generation: nat, crc: nat): Option<Loaded> {
    if Checksum(blob) != crc || |blob| < 4 || blob[..4] != TREE_MAGIC then None
    else
      var tree := ParseTree(blob[4..]);
      if tree.Err? then None else Some(Loaded(generation, tree.value))
  }

  datatype Mounted =
    | Mounted(slot: nat, generation: nat, tree: FsNode)
    | Unformatted
    | LegacyVolume
    | Unmountable

  predicate Loads(r: Result<Option<Loaded>>) { r.Ok? && r.value.Some? }

  /** The newest of the two slots; the older or only valid one if the other fails. */
  function LoadLatest(disk: Disk): Mounted {
    var first, second := LoadCheckpoint(disk, 0), LoadCheckpoint(disk, 1);
    if Loads(first) && Loads(second) then
      if first.value.value.generation >= second.value.value.generation then Choose(0, first.value.value)
      else Choose(1, second.value.value)
    else if Loads(first) then Choose(0, first.value.value)
    else if Loads(second) then Choose(1, second.value.value)
    else Unmountable
  }

  function Choose(slot: nat, l: Loaded): Mounted { Mounted(slot, l.generation, l.tree) }

  function Superblock(): Sector {
    MAGIC + ToLe(VERSION, 4) + ToLe(SLOT_A_LBA, 4) + ToLe(SLOT_SECTORS, 4) + Zeros(492)
  }

  /** What `mount` decides from the disk alone. */
  function Mount(disk: Disk): Mounted {
    if SUPERBLOCK_LBA !in disk then Unmountable
    else
      var sb := disk[SUPERBLOCK_LBA];
      if sb[..8] != MAGIC then
        if SLOT_A_LBA !in disk || SLOT_B_LBA !in disk then Unmountable
        else if sb == Zeros(512) && disk[SLOT_A_LBA] == Zeros(512) && disk[SLOT_B_LBA] == Zeros(512) then Unformatted
        else Unmountable
      else
        var version, lba, sectors := FromLe(sb[8..12]), FromLe(sb[12..16]), FromLe(sb[16..20]);
        if version == VERSION then
          if lba != SLOT_A_LBA || sectors != SLOT_SECTORS then Unmountable else LoadLatest(disk)
        else if version == LEGACY_VERSION && lba == LEGACY_METADATA_LBA && sectors == LEGACY_METADATA_SECTORS then
          LegacyVolume
        else Unmountable
  }

  // ---- The driver state ----

  datatype Volume = Volume(disk: Disk, activeSlot: nat, generation: nat)

  function SyncTarget(v: Volume): nat { 1 - Min(v.activeSlot, 1) }

  /** The payload a sync would write, unless it is rejected before the first write. */
  function SyncBlob(v: Volume, root: FsNode): Result<seq<byte>> {
    var blob := SerializeTree(root);
    if blob.Err? || |blob.value| > MAX_METADATA_BYTES || v.generation + 1 > U64_MAX then Err else blob
  }

  function SyncWrites(v: Volume, root: FsNode): seq<Write>
    requires SyncBlob(v, root).Ok?
  {
    CheckpointWrites(SyncTarget(v), v.generation + 1, SyncBlob(v, root).value)
  }

  lemma ApplyNext(disk: Disk, w: seq<Write>, k: nat)
    requires k < |w|
    ensures Apply(disk, w[..0]) == disk
    ensures Apply(disk, w[..k + 1]) == Apply(disk, w[..k])[w[k].lba := w[k].data]
  {
    assert w[..k + 1][..k] == w[..k];
  }

  lemma {:induction false} PayloadWriteAt(lba: nat, blob: seq<byte>, count: nat, i: nat)
    requires i < count <= SectorCount(|blob|)
    ensures PayloadWrites(lba, blob, count)[i] == Write(lba + 1 + i, PayloadSector(blob, i))
    decreases count
  {
    if i + 1 < count { PayloadWriteAt(lba, blob, count - 1, i); }
  }
}
