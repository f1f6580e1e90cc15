/** What a slot holds after any prefix of a checkpoint's sector writes. */
module CheckpointProofs {
  import opened Prelude
  import opened BlockDevice
  import opened Crc32
  import opened TreeCodec
  import opened TreeCodecProofs
  import opened Checkpoint

  // ---- Header fields ----

  lemma HeaderFields(generation: nat, blob: seq<byte>, committed: bool)
    requires generation <= U64_MAX && |blob| <= U32_MAX
    ensures var h := Header(generation, blob, committed);
            && h[..8] == SLOT_MAGIC
            && FromLe(h[8..16]) == generation
            && FromLe(h[16..20]) == |blob|
            && FromLe(h[20..24]) == Checksum(blob)
            && (FromLe(h[24..28]) == SLOT_COMMITTED <==> committed)
  {
    hide FromLe, ToLe, Checksum;
    var h := Header(generation, blob, committed);
    Pow256Values();
    LeRoundTrip(generation, 8);
    LeRoundTrip(|blob|, 4);
    ChecksumBound(blob);
    LeRoundTrip(Checksum(blob), 4);
    LeRoundTrip(SLOT_COMMITTED, 4);
    ZeroField();
    assert h[8..16] == ToLe(generation, 8);
    assert h[16..20] == ToLe(|blob|, 4);
    assert h[20..24] == ToLe(Checksum(blob), 4);
    assert h[24..28] == if committed then ToLe(SLOT_COMMITTED, 4) else Zeros(4);
  }

  lemma ZeroField()
    ensures FromLe(Zeros(4)) == 0
  {
    assert Zeros(4)[1..] == Zeros(3) && Zeros(3)[1..] == Zeros(2) && Zeros(2)[1..] == Zeros(1) && Zeros(1)[1..] == [];
    assert FromLe(Zeros(1)) == 0 && FromLe(Zeros(2)) == 0 && FromLe(Zeros(3)) == 0;
  }

  // ---- Applying writes ----

  lemma {:induction false} ApplyConcat(disk: Disk, a: seq<Write>, b: seq<Write>)
    ensures Apply(disk, a + b) == Apply(Apply(disk, a), b)
    decreases |b|
  {
    if b == [] {
      assert a + b == a;
    } else {
      assert (a + b)[..|a + b| - 1] == a + b[..|b| - 1];
      ApplyConcat(disk, a, b[..|b| - 1]);
    }
  }

  ghost predicate SameSector(a: Disk, b: Disk, lba: nat) {
    (lba in a <==> lba in b) && (lba in a ==> a[lba] == b[lba])
  }

  lemma {:induction false} ApplyFrame(disk: Disk, w: seq<Write>, lba: nat)
    requires forall i :: 0 <= i < |w| ==> w[i].lba != lba
    ensures SameSector(disk, Apply(disk, w), lba)
    decreases |w|
  {
    if w != [] { ApplyFrame(disk, w[..|w| - 1], lba); }
  }

  /** The payload writes put every payload sector in place and leave all other sectors alone. */
  lemma {:induction false} PayloadApplied(disk: Disk, lba: nat, blob: seq<byte>, count: nat)
    requires count <= SectorCount(|blob|)
    ensures PayloadInPlace(disk, Apply(disk, PayloadWrites(lba, blob, count)), lba, blob, count)
    decreases count
  {
    hide PayloadSector, PayloadInPlace, SectorCount;
    if count == 0 {
      NoPayload(disk, lba, blob);
    } else {
      PayloadApplied(disk, lba, blob, count - 1);
      var w := PayloadWrites(lba, blob, count);
      assert w[..count - 1] == PayloadWrites(lba, blob, count - 1);
      NextPayload(disk, Apply(disk, w[..count - 1]), lba, blob, count);
    }
  }

  lemma NoPayload(disk: Disk, lba: nat, blob: seq<byte>)
    ensures PayloadInPlace(disk, disk, lba, blob, 0)
  {
    hide PayloadSector;
  }

  lemma NextPayload(disk: Disk, before: Disk, lba: nat, blob: seq<byte>, count: nat)
    requires 0 < count <= SectorCount(|blob|) && PayloadInPlace(disk, before, lba, blob, count - 1)
    ensures PayloadInPlace(disk, before[lba + count := PayloadSector(blob, count - 1)], lba, blob, count)
  {
    hide PayloadSector, SectorCount;
    var d := before[lba + count := PayloadSector(blob, count - 1)];
    forall i | 0 <= i < count ensures HasPayload(d, lba, blob, i) {
      if i < count - 1 { assert HasPayload(before, lba, blob, i); }
    }
    forall x: nat | x <= lba || x > lba + count ensures SameSector(disk, d, x) {
      assert SameSector(disk, before, x);
    }
  }

  ghost predicate PayloadInPlace(before: Disk, after: Disk, lba: nat, blob: seq<byte>, count: nat)
    requires count <= SectorCount(|blob|)
  {
    && (forall i :: 0 <= i < count ==> HasPayload(after, lba, blob, i))
    && (forall x: nat :: x <= lba || x > lba + count ==> SameSector(before, after, x))
  }

  ghost predicate HasPayload(disk: Disk, lba: nat, blob: seq<byte>, i: nat)
    requires i < SectorCount(|blob|)
  {
    lba + 1 + i in disk && disk[lba + 1 + i] == PayloadSector(blob, i)
  }

  lemma {:induction false} PayloadPrefix(lba: nat, blob: seq<byte>, count: nat, k: nat)
    requires k <= count <= SectorCount(|blob|)
    ensures PayloadWrites(lba, blob, count)[..k] == PayloadWrites(lba, blob, k)
    decreases count
  {
    if k < count {
      PayloadPrefix(lba, blob, count - 1, k);
      assert PayloadWrites(lba, blob, count)[..k] == PayloadWrites(lba, blob, count - 1)[..k];
    } else {
      assert PayloadWrites(lba, blob, count)[..k] == PayloadWrites(lba, blob, count);
    }
  }

  /** A cut after the first header and before the committed one. */
  lemma CutWrites(slot: nat, generation: nat, blob: seq<byte>, k: nat)
    requires 1 <= k <= SectorCount(|blob|) + 1
    ensures CheckpointWrites(slot, generation, blob)[..k]
         == [Write(SlotLba(slot), Header(generation, blob, false))] + PayloadWrites(SlotLba(slot), blob, k - 1)
  {
    hide Header;
    PayloadPrefix(SlotLba(slot), blob, SectorCount(|blob|), k - 1);
  }

  lemma SlotWrites(slot: nat, generation: nat, blob: seq<byte>, k: nat)
    requires |blob| <= MAX_METADATA_BYTES && k <= |CheckpointWrites(slot, generation, blob)|
    ensures forall i :: 0 <= i < k ==>
              SlotLba(slot) <= CheckpointWrites(slot, generation, blob)[..k][i].lba < SlotLba(slot) + SLOT_SECTORS
  {
    hide Header, PayloadSector;
    var w, lba, n := CheckpointWrites(slot, generation, blob), SlotLba(slot), SectorCount(|blob|);
    forall i | 0 <= i < k ensures lba <= w[..k][i].lba < lba + SLOT_SECTORS {
      if 1 <= i <= n { PayloadWriteAt(lba, blob, n, i - 1); }
    }
  }

  // ---- What a slot loads as ----

  /** Loading a slot looks only at that slot's sectors. */
  lemma LoadFrame(a: Disk, b: Disk, slot: nat)
    requires forall x: nat :: SlotLba(slot) <= x < SlotLba(slot) + SLOT_SECTORS ==> SameSector(a, b, x)
    ensures LoadCheckpoint(a, slot) == LoadCheckpoint(b, slot)
  {
    hide FromLe, CheckBlob;
    var lba := SlotLba(slot);
    assert SameSector(a, b, lba);
    if lba in a {
      var length := FromLe(a[lba][16..20]);
      if length <= MAX_METADATA_BYTES { ReadFrame(a, b, lba + 1, length); }
    }
  }

  lemma {:induction false} ReadFrame(a: Disk, b: Disk, lba: nat, length: nat)
    requires forall x: nat :: lba <= x < lba + SectorCount(length) ==> SameSector(a, b, x)
    ensures ReadFrom(a, lba, length) == ReadFrom(b, lba, length)
    decreases length
  {
    if length != 0 {
      var take := Min(length, 512);
      assert SameSector(a, b, lba);
      SectorStep(length);
      ReadFrame(a, b, lba + 1, length - take);
    }
  }

  lemma SectorStep(length: nat)
    requires length > 0
    ensures SectorCount(length) == 1 + SectorCount(length - Min(length, 512))
  {}

  /** Writes into one slot never change how the other loads. */
  lemma OtherSlotUntouched(disk: Disk, slot: nat, generation: nat, blob: seq<byte>, k: nat)
    requires slot <= 1 && |blob| <= MAX_METADATA_BYTES && k <= |CheckpointWrites(slot, generation, blob)|
    ensures var d := Apply(disk, CheckpointWrites(slot, generation, blob)[..k]);
            && LoadCheckpoint(d, 1 - slot) == LoadCheckpoint(disk, 1 - slot)
            && SameSector(disk, d, SUPERBLOCK_LBA)
  {
    hide CheckpointWrites, LoadCheckpoint;
    var w := CheckpointWrites(slot, generation, blob)[..k];
    var d, other := Apply(disk, w), SlotLba(1 - slot);
    SlotWrites(slot, generation, blob, k);
    forall x: nat | other <= x < other + SLOT_SECTORS ensures SameSector(disk, d, x) {
      ApplyFrame(disk, w, x);
    }
    LoadFrame(disk, d, 1 - slot);
    ApplyFrame(disk, w, SUPERBLOCK_LBA);
  }

  /** A checkpoint cut before its committed header loads as nothing. */
  lemma CutSlotIsEmpty(disk: Disk, slot: nat, generation: nat, blob: seq<byte>, k: nat)
    requires generation <= U64_MAX && |blob| <= MAX_METADATA_BYTES
    requires 1 <= k <= SectorCount(|blob|) + 1
    ensures LoadCheckpoint(Apply(disk, CheckpointWrites(slot, generation, blob)[..k]), slot) == Ok(None)
  {
    hide Header, FromLe, CheckBlob, ReadFrom, PayloadWrites;
    var lba := SlotLba(slot);
    var first := [Write(lba, Header(generation, blob, false))];
    CutWrites(slot, generation, blob, k);
    ApplyConcat(disk, first, PayloadWrites(lba, blob, k - 1));
    PayloadApplied(Apply(disk, first), lba, blob, k - 1);
    ApplyOne(disk, first[0]);
    assert SameSector(Apply(disk, first), Apply(disk, CheckpointWrites(slot, generation, blob)[..k]), lba);
    HeaderFields(generation, blob, false);
  }

  lemma ApplyOne(disk: Disk, w: Write)
    ensures Apply(disk, [w]) == disk[w.lba := w.data]
  {
    assert [w][..0] == [];
  }

  lemma {:induction false} ReadPayload(disk: Disk, lba: nat, blob: seq<byte>, i: nat)
    requires i <= SectorCount(|blob|)
    requires forall j :: i <= j < SectorCount(|blob|) ==> HasPayload(disk, lba, blob, j)
    requires 512 * i <= |blob| || i == SectorCount(|blob|)
    ensures var rest := if 512 * i <= |blob| then blob[512 * i..] else [];
            ReadFrom(disk, lba + 1 + i, |rest|) == Ok(rest)
    decreases SectorCount(|blob|) - i
  {
    if i < SectorCount(|blob|) {
      assert HasPayload(disk, lba, blob, i);
      var rest := blob[512 * i..];
      var take := Min(|rest|, 512);
      ReadPayload(disk, lba, blob, i + 1);
      assert disk[lba + 1 + i][..take] == rest[..take];
      assert rest == rest[..take] + rest[take..];
      if |rest| >= 512 {
        assert rest[take..] == blob[512 * (i + 1)..];
      } else {
        assert rest[take..] == [];
      }
    }
  }

  /** A complete checkpoint reads back its own payload. */
  lemma CompleteSlot(disk: Disk, slot: nat, generation: nat, blob: seq<byte>)
    requires 1 <= generation <= U64_MAX && 1 <= |blob| <= MAX_METADATA_BYTES
    ensures LoadCheckpoint(Apply(disk, CheckpointWrites(slot, generation, blob)), slot)
         == Ok(CheckBlob(blob, generation, Checksum(blob)))
  {
    hide Header, FromLe, CheckBlob, ReadFrom, PayloadWrites, PayloadSector, Checksum;
    var lba, n := SlotLba(slot), SectorCount(|blob|);
    var w := CheckpointWrites(slot, generation, blob);
    assert w[..n + 1] + [Write(lba, Header(generation, blob, true))] == w;
    CutWrites(slot, generation, blob, n + 1);
    var first := [Write(lba, Header(generation, blob, false))];
    ApplyConcat(disk, first, PayloadWrites(lba, blob, n));
    PayloadApplied(Apply(disk, first), lba, blob, n);
    ApplyConcat(disk, w[..n + 1], [Write(lba, Header(generation, blob, true))]);
    var d := Apply(disk, w[..n + 1]);
    ApplyOne(d, Write(lba, Header(generation, blob, true)));
    var full := d[lba := Header(generation, blob, true)];
    forall j | 0 <= j < n ensures HasPayload(full, lba, blob, j) {
      assert HasPayload(d, lba, blob, j);
    }
    ReadPayload(full, lba, blob, 0);
    assert blob[0..] == blob;
    HeaderFields(generation, blob, true);
  }

  /** A complete checkpoint of a legal tree loads as that tree exactly when the reader's node limit is met. */
  lemma CompleteTree(disk: Disk, slot: nat, generation: nat, root: FsNode)
    requires LegalTree(root) && 1 <= generation <= U64_MAX
    requires SerializeTree(root).Ok? && |SerializeTree(root).value| <= MAX_METADATA_BYTES
    ensures LoadCheckpoint(Apply(disk, CheckpointWrites(slot, generation, SerializeTree(root).value)), slot)
         == if NodeCount(root) <= MAX_NODE_COUNT then Ok(Some(Loaded(generation, root))) else Ok(None)
  {
    hide LoadCheckpoint, CheckpointWrites, FlattenNode, ParseTree, Checksum, NodeCount;
    RoundTripIff(root);
    CompleteSlot(disk, slot, generation, SerializeTree(root).value);
  }
}
