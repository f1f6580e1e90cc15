/**
 The read-only FAT32 volume: geometry checks at mount, the cluster chain reader and
 the directory walk. Whatever the disk contains, a mounted volume only touched sectors
 of its FAT and data regions and none of the unchecked `u32` additions can overflow.
 */
module Fat32 {
  import opened Prelude
  import opened BlockDevice

  const FAT32_MIN_CLUSTERS := 65_525
  const FAT32_EOC := 0x0FFF_FFF8
  const FAT32_BAD := 0x0FFF_FFF7
  const CLUSTER_MASK := 0x1000_0000
  const MAX_DIRECTORY_ENTRIES := 4096
  const MAX_READ_FILE_SIZE := 256 * 1024

  datatype Volume = Volume(
    partitionStart: nat, partitionSectors: nat, sectorsPerCluster: nat,
    fatStart: nat, fatSectors: nat, dataStart: nat, rootCluster: nat, clusterCount: nat)

  /** What a successful mount establishes about the geometry. */
  predicate Sound(v: Volume) {
    && 1 <= v.sectorsPerCluster <= 128
    && v.partitionStart < v.fatStart
    && v.fatStart + v.fatSectors <= v.dataStart
    && v.dataStart + v.clusterCount * v.sectorsPerCluster <= v.partitionStart + v.partitionSectors <= U32_MAX
    && FAT32_MIN_CLUSTERS <= v.clusterCount
    && v.clusterCount + 2 <= U32_MAX
    && v.clusterCount + 2 <= v.fatSectors * 128
    && 2 <= v.rootCluster < v.clusterCount + 2
  }

  predicate InFat(v: Volume, lba: nat) { v.fatStart <= lba < v.fatStart + v.fatSectors }

  predicate InData(v: Volume, lba: nat) {
    v.dataStart <= lba < v.dataStart + v.clusterCount * v.sectorsPerCluster
  }

  predicate InRegion(v: Volume, lba: nat) { InFat(v, lba) || InData(v, lba) }

  // ---- Mount ----

  function Le(s: seq<byte>, at: nat, width: nat): nat
    requires at + width <= |s|
  {
    FromLe(s[at..at + width])
  }

  predicate PowerOfTwo(n: byte) { n in {1, 2, 4, 8, 16, 32, 64, 128} }

  predicate Signed(s: Sector) { s[510] == 0x55 && s[511] == 0xAA }

  /** A partition entry that looks like FAT32 and whose boot sector agrees. */
  predicate Candidate(disk: Disk, mbr: Sector, index: nat)
    requires index < 4
  {
    var offset := 446 + index * 16;
    && (mbr[offset + 4] == 0x0B || mbr[offset + 4] == 0x0C)
    && var start := Le(mbr, offset + 8, 4);
       && start != 0 && Le(mbr, offset + 12, 4) != 0 && start in disk
       && Le(disk[start], 17, 2) == 0 && Le(disk[start], 22, 2) == 0 && Le(disk[start], 32, 4) != 0
  }

  /** The boot sector fields the reader uses. */
  datatype Bpb = Bpb(
    perCluster: byte, reserved: nat, fats: nat, rootEntries: nat, total: nat, fatSectors: nat, root: nat)

  function ParseBpb(s: Sector): Bpb {
    Bpb(s[13], Le(s, 14, 2), s[16], Le(s, 17, 2), Le(s, 32, 4), Le(s, 36, 4), Le(s, 44, 4) % CLUSTER_MASK)
  }

  predicate PlausibleBpb(b: Bpb, sectors: nat) {
    && b.perCluster != 0 && PowerOfTwo(b.perCluster) && b.reserved != 0 && b.fats != 0 && b.rootEntries == 0
    && b.total != 0 && b.total <= sectors && b.fatSectors != 0 && b.root >= 2
  }

  /** The layout of a plausible boot sector, checked with 32-bit arithmetic. */
  function Layout(b: Bpb, start: nat, fatArea: nat): Result<Volume>
    requires b.perCluster != 0
  {
    var dataRelative := b.reserved + fatArea;
    if fatArea > U32_MAX || dataRelative > U32_MAX || dataRelative >= b.total then Err
    else
      var clusters := (b.total - dataRelative) / b.perCluster as int;
      if clusters < FAT32_MIN_CLUSTERS || b.fatSectors * 128 < clusters + 2 || b.root >= clusters + 2 then Err
      else if start + b.reserved > U32_MAX || start + dataRelative > U32_MAX || start + b.total > U32_MAX then Err
      else
        Ok(Volume(start, b.total, b.perCluster, start + b.reserved, b.fatSectors, start + dataRelative, b.root,
                  clusters))
  }

  function Geometry(bpb: Sector, start: nat, sectors: nat): Result<Volume> {
    var b := ParseBpb(bpb);
    if !Signed(bpb) || Le(bpb, 11, 2) != 512 || !PlausibleBpb(b, sectors) then Err
    else Layout(b, start, b.fats * b.fatSectors)
  }

  /** The first partition entry at or after `index` that is a candidate, or 4. */
  function FirstCandidate(disk: Disk, mbr: Sector, index: nat): (i: nat)
    requires index <= 4
    ensures index <= i <= 4
    ensures i < 4 ==> Candidate(disk, mbr, i)
    ensures forall j :: index <= j < i ==> !Candidate(disk, mbr, j)
    decreases 4 - index
  {
    if index == 4 || Candidate(disk, mbr, index) then index else FirstCandidate(disk, mbr, index + 1)
  }

  function Mounted(disk: Disk): Result<Volume> {
    if 0 !in disk || !Signed(disk[0]) then Err
    else
      var index := FirstCandidate(disk, disk[0], 0);
      if index == 4 then Err
      else
        var start := Le(disk[0], 446 + index * 16 + 8, 4);
        Geometry(disk[start], start, Le(disk[0], 446 + index * 16 + 12, 4))
  }

  method MountVolume(disk: Disk) returns (r: Result<Volume>)
    ensures r == Mounted(disk)
    ensures r.Ok? ==> Sound(r.value)
  {
    hide Geometry, Sound, Le, Signed;
    if 0 !in disk || !Signed(disk[0]) { return Err; }
    var mbr := disk[0];
    var found, start, sectors := false, 0, 0;
    for index := 0 to 4
      invariant !found && FirstCandidate(disk, mbr, index) == FirstCandidate(disk, mbr, 0)
    {
      if Candidate(disk, mbr, index) {
        found, start, sectors := true, Le(mbr, 446 + index * 16 + 8, 4), Le(mbr, 446 + index * 16 + 12, 4);
        break;
      }
    }
    if !found { return Err; }
    r := Geometry(disk[start], start, sectors);
    if r.Ok? { GeometrySound(disk[start], start, sectors); }
  }

  lemma GeometrySound(bpb: Sector, start: nat, sectors: nat)
    requires Geometry(bpb, start, sectors).Ok?
    ensures Sound(Geometry(bpb, start, sectors).value)
  {
    hide Le, ParseBpb, Sound, Layout;
    var b := ParseBpb(bpb);
    assert b.fats * b.fatSectors >= b.fatSectors by { ScaleLe(1, b.fats, b.fatSectors); }
    LayoutSound(b, start, sectors, b.fats * b.fatSectors);
  }

  lemma LayoutSound(b: Bpb, start: nat, sectors: nat, fatArea: nat)
    requires PlausibleBpb(b, sectors) && fatArea >= b.fatSectors && Layout(b, start, fatArea).Ok?
    ensures Sound(Layout(b, start, fatArea).value)
  {
    var data := b.total - (b.reserved + fatArea);
    WholeClusters(data, b.perCluster);
  }

  lemma WholeClusters(sectors: nat, per: nat)
    requires per >= 1
    ensures (sectors / per) * per <= sectors && sectors / per <= sectors
  {}

  lemma ScaleLe(a: nat, b: nat, k: nat)
    requires a <= b
    ensures a * k <= b * k
  {}

  // ---- Clusters ----

  predicate ValidCluster(v: Volume, c: nat) { 2 <= c < v.clusterCount + 2 }

  function ClusterLba(v: Volume, c: nat): Result<nat> {
    if !ValidCluster(v, c) then Err
    else
      var relative := (c - 2) * v.sectorsPerCluster;
      if relative > U32_MAX || v.dataStart + relative > U32_MAX then Err
      else if v.partitionStart + v.partitionSectors > U32_MAX then Err
      else if v.dataStart + relative >= v.partitionStart + v.partitionSectors then Err
      else Ok(v.dataStart + relative)
  }

  /** Every sector of every valid cluster lies in the data region; no addition overflows. */
  lemma ClusterInData(v: Volume, c: nat, index: nat)
    requires Sound(v) && ValidCluster(v, c) && index < v.sectorsPerCluster
    ensures ClusterLba(v, c) == Ok(v.dataStart + (c - 2) * v.sectorsPerCluster)
    ensures InData(v, ClusterLba(v, c).value + index)
    ensures ClusterLba(v, c).value + index <= U32_MAX
  {
    ClusterFits(c, v.clusterCount, v.sectorsPerCluster);
  }

  lemma ClusterFits(c: nat, count: nat, per: nat)
    requires 2 <= c < count + 2
    ensures 0 <= (c - 2) * per && (c - 2) * per + per <= count * per
  {
    ScaleLe(c - 1, count, per);
  }

  function FatLba(v: Volume, c: nat): nat { v.fatStart + c * 4 / 512 }

  /** The FAT entry of a valid cluster lies in the FAT; no addition overflows. */
  lemma EntryInFat(v: Volume, c: nat)
    requires Sound(v) && ValidCluster(v, c)
    ensures c * 4 / 512 < v.fatSectors && InFat(v, FatLba(v, c)) && FatLba(v, c) <= U32_MAX
  {}

  function NextCluster(disk: Disk, v: Volume, c: nat): Result<Option<nat>> {
    if !ValidCluster(v, c) || c * 4 > U32_MAX then Err
    else if c * 4 / 512 >= v.fatSectors || FatLba(v, c) !in disk then Err
    else
      var value := Le(disk[FatLba(v, c)], c * 4 % 512, 4) % CLUSTER_MASK;
      if value >= FAT32_EOC then Ok(None)
      else if value == FAT32_BAD || value < 2 || !ValidCluster(v, value) then Err
      else Ok(Some(value))
  }

  /** The `k`-th cluster of the chain that starts at `c`, if the chain is that long. */
  function ClusterAt(disk: Disk, v: Volume, c: nat, k: nat): (r: Option<nat>)
    ensures r.Some? ==> ValidCluster(v, r.value)
    decreases k
  {
    if !ValidCluster(v, c) then None
    else if k == 0 then Some(c)
    else
      var next := NextCluster(disk, v, c);
      if next.Err? || next.value.None? then None else ClusterAt(disk, v, next.value.value, k - 1)
  }

  // ---- Reading a file ----

  function ClusterSize(v: Volume): nat { 512 * v.sectorsPerCluster }

  /** `need` bytes of the chain that starts at `c`. */
  function FileBytes(disk: Disk, v: Volume, c: nat, need: nat): Result<seq<byte>>
    requires v.sectorsPerCluster >= 1
    decreases need
  {
    if need == 0 then Ok([])
    else
      var lba := ClusterLba(v, c);
      if lba.Err? then Err
      else
        var chunk := ReadFrom(disk, lba.value, Min(need, ClusterSize(v)));
        if chunk.Err? || need <= ClusterSize(v) then chunk
        else
          var next := NextCluster(disk, v, c);
          if next.Err? || next.value.None? then Err
          else
            var rest := FileBytes(disk, v, next.value.value, need - ClusterSize(v));
            if rest.Err? then Err else Ok(chunk.value + rest.value)
  }

  function FileRead(disk: Disk, v: Volume, first: nat, size: nat): Result<seq<byte>>
    requires v.sectorsPerCluster >= 1
  {
    if size > MAX_READ_FILE_SIZE then Err
    else if size == 0 then Ok([])
    else if !ValidCluster(v, first) then Err
    else FileBytes(disk, v, first, size)
  }

  /** What has been read so far, followed by what is still to come, is the whole read. */
  predicate Continues(whole: Result<seq<byte>>, bytes: seq<byte>, rest: Result<seq<byte>>) {
    whole == if rest.Err? then Err else Ok(bytes + rest.value)
  }

  lemma ContinuesStart(whole: Result<seq<byte>>)
    ensures Continues(whole, [], whole)
  {
    if whole.Ok? { assert [] + whole.value == whole.value; }
  }

  lemma ContinuesNext(whole: Result<seq<byte>>, bytes: seq<byte>, chunk: seq<byte>, rest: Result<seq<byte>>)
    requires Continues(whole, bytes, if rest.Err? then Err else Ok(chunk + rest.value))
    ensures Continues(whole, bytes + chunk, rest)
  {
    if rest.Ok? { assert bytes + (chunk + rest.value) == (bytes + chunk) + rest.value; }
  }

  /** The inner loop: sectors of one cluster, up to `need` bytes. */
  method ReadCluster(disk: Disk, v: Volume, c: nat, need: nat) returns (r: Result<seq<byte>>, ghost touched: set<nat>)
    requires Sound(v) && ValidCluster(v, c) && need > 0
    ensures ClusterLba(v, c).Ok?
    ensures r == ReadFrom(disk, ClusterLba(v, c).value, Min(need, ClusterSize(v)))
    ensures r.Ok? ==> |r.value| == Min(need, ClusterSize(v))
    ensures forall l :: l in touched ==> InData(v, l) && l <= U32_MAX
  {
    hide Sound, ClusterLba, InData, ValidCluster;
    PerClusterPositive(v);
    ClusterInData(v, c, 0);
    var lba, target := ClusterLba(v, c).value, Min(need, ClusterSize(v));
    var bytes: seq<byte>, index := [], 0;
    touched := {};
    ghost var whole := ReadFrom(disk, lba, target);
    ContinuesStart(whole);
    while index < v.sectorsPerCluster && |bytes| < target
      invariant index <= v.sectorsPerCluster && |bytes| == Min(target, 512 * index)
      invariant Continues(whole, bytes, ReadFrom(disk, lba + index, target - |bytes|))
      invariant forall l :: l in touched ==> InData(v, l) && l <= U32_MAX
    {
      ClusterInData(v, c, index);
      touched := touched + {lba + index};
      if lba + index !in disk { return Err, touched; }
      var take := Min(target - |bytes|, 512);
      ghost var rest := ReadFrom(disk, lba + index + 1, target - |bytes| - take);
      ContinuesNext(whole, bytes, disk[lba + index][..take], rest);
      bytes, index := bytes + disk[lba + index][..take], index + 1;
    }
    assert |bytes| == target && bytes + [] == bytes;
    r := Ok(bytes);
  }

  lemma PerClusterPositive(v: Volume)
    requires Sound(v)
    ensures 1 <= v.sectorsPerCluster <= 128 && v.clusterCount >= FAT32_MIN_CLUSTERS
  {}

  /** The chain loop; its "cluster loop" error is unreachable. */
  method ReadFile(disk: Disk, v: Volume, first: nat, size: nat)
    returns (r: Result<seq<byte>>, visited: nat, ghost touched: set<nat>)
    requires Sound(v)
    ensures v.sectorsPerCluster >= 1 && r == FileRead(disk, v, first, size)
    ensures visited <= 512
    ensures forall l :: l in touched ==> InRegion(v, l) && l <= U32_MAX
  {
    hide Sound, ClusterLba, InData, InFat, ValidCluster, NextCluster, ReadFrom;
    PerClusterPositive(v);
    visited, touched := 0, {};
    if size > MAX_READ_FILE_SIZE { return Err, visited, touched; }
    if size == 0 { return Ok([]), visited, touched; }
    if !ValidCluster(v, first) { return Err, visited, touched; }
    var bytes: seq<byte>, c := [], first;
    ghost var whole := FileBytes(disk, v, first, size);
    ContinuesStart(whole);
    while |bytes| < size
      invariant |bytes| <= size && 512 * visited <= |bytes| + 511 && visited <= 512
      invariant |bytes| < size ==> 512 * visited <= |bytes|
      invariant ValidCluster(v, c)
      invariant |bytes| < size ==> Continues(whole, bytes, FileBytes(disk, v, c, size - |bytes|))
      invariant |bytes| == size ==> whole == Ok(bytes)
      invariant forall l :: l in touched ==> InRegion(v, l) && l <= U32_MAX
    {
      visited := visited + 1;
      if visited > v.clusterCount { return Err, visited, touched; }
      var chunk, seen := ReadCluster(disk, v, c, size - |bytes|);
      touched := touched + seen;
      if chunk.Err? { return Err, visited, touched; }
      ghost var before, need := bytes, size - |bytes|;
      bytes := bytes + chunk.value;
      if |bytes| < size {
        EntryInFat(v, c);
        touched := touched + {FatLba(v, c)};
        var next := NextCluster(disk, v, c);
        if next.Err? || next.value.None? { return Err, visited, touched; }
        NextIsValid(disk, v, c);
        ghost var rest := FileBytes(disk, v, next.value.value, need - ClusterSize(v));
        ContinuesNext(whole, before, chunk.value, rest);
        c := next.value.value;
      }
    }
    r := Ok(bytes);
  }

  lemma NextIsValid(disk: Disk, v: Volume, c: nat)
    ensures var next := NextCluster(disk, v, c); next.Ok? && next.value.Some? ==> ValidCluster(v, next.value.value)
  {}

  // ---- The bytes of a file are the bytes of its chain ----

  /** The sector that holds byte `i` of the chain, if the chain reaches that far. */
  function SectorOf(disk: Disk, v: Volume, c: nat, i: nat): Option<nat>
    requires v.sectorsPerCluster >= 1
    decreases i
  {
    var lba := ClusterLba(v, c);
    if lba.Err? then None
    else if i < ClusterSize(v) then Some(lba.value + i / 512)
    else
      var next := NextCluster(disk, v, c);
      if next.Err? || next.value.None? then None else SectorOf(disk, v, next.value.value, i - ClusterSize(v))
  }

  /** Byte `i` of the chain can be read. */
  predicate Readable(disk: Disk, v: Volume, c: nat, i: nat)
    requires v.sectorsPerCluster >= 1
  {
    SectorOf(disk, v, c, i).Some? && SectorOf(disk, v, c, i).value in disk
  }

  /** `data` is the chain's bytes from the start. */
  predicate IsChainData(disk: Disk, v: Volume, c: nat, data: seq<byte>)
    requires v.sectorsPerCluster >= 1
  {
    forall i :: 0 <= i < |data| ==>
      Readable(disk, v, c, i) && data[i] == disk[SectorOf(disk, v, c, i).value][i % 512]
  }

  /** Byte `i` counted from sector `lba` can be read. */
  predicate Held(disk: Disk, lba: nat, i: nat) { lba + i / 512 in disk }

  lemma {:induction false} ReadFromBytes(disk: Disk, lba: nat, length: nat)
    ensures ReadFrom(disk, lba, length).Ok? <==> forall i :: 0 <= i < length ==> Held(disk, lba, i)
    ensures ReadFrom(disk, lba, length).Ok? ==>
              && |ReadFrom(disk, lba, length).value| == length
              && forall i :: 0 <= i < length ==>
                   Held(disk, lba, i) && ReadFrom(disk, lba, length).value[i] == disk[lba + i / 512][i % 512]
    decreases length
  {
    if length != 0 {
      var take := Min(length, 512);
      ReadFromBytes(disk, lba + 1, length - take);
      var all, rest := ReadFrom(disk, lba, length), ReadFrom(disk, lba + 1, length - take);
      if all.Ok? {
        forall i | 0 <= i < length ensures Held(disk, lba, i) && all.value[i] == disk[lba + i / 512][i % 512] {
          if i >= take { assert Held(disk, lba + 1, i - take); }
        }
      } else if lba !in disk {
        assert !Held(disk, lba, 0);
      } else {
        var j :| 0 <= j < length - take && !Held(disk, lba + 1, j);
        assert !Held(disk, lba, j + take);
      }
    }
  }

  lemma FirstCluster(disk: Disk, v: Volume, c: nat, take: nat)
    requires Sound(v) && ValidCluster(v, c) && take <= ClusterSize(v)
    ensures ClusterLba(v, c).Ok?
    ensures ReadFrom(disk, ClusterLba(v, c).value, take).Ok? <==> forall i :: 0 <= i < take ==> Readable(disk, v, c, i)
    ensures ReadFrom(disk, ClusterLba(v, c).value, take).Ok? ==>
              && |ReadFrom(disk, ClusterLba(v, c).value, take).value| == take
              && IsChainData(disk, v, c, ReadFrom(disk, ClusterLba(v, c).value, take).value)
  {
    hide Sound, ClusterLba, NextCluster, ReadFrom, ValidCluster;
    PerClusterPositive(v);
    ClusterInData(v, c, 0);
    ReadFromBytes(disk, ClusterLba(v, c).value, take);
    forall i | 0 <= i < take
      ensures SectorOf(disk, v, c, i) == Some(ClusterLba(v, c).value + i / 512)
      ensures Readable(disk, v, c, i) <==> Held(disk, ClusterLba(v, c).value, i)
    {}
  }

  /** Data of the first cluster followed by data of the rest of the chain. */
  lemma ChainDataConcat(disk: Disk, v: Volume, c: nat, next: nat, chunk: seq<byte>, rest: seq<byte>)
    requires Sound(v) && ValidCluster(v, c) && NextCluster(disk, v, c) == Ok(Some(next))
    requires |chunk| == ClusterSize(v) && IsChainData(disk, v, c, chunk) && IsChainData(disk, v, next, rest)
    ensures IsChainData(disk, v, c, chunk + rest)
  {
    hide ClusterLba, NextCluster, ValidCluster;
    ClusterInData(v, c, 0);
    var data := chunk + rest;
    forall i | 0 <= i < |data|
      ensures Readable(disk, v, c, i) && data[i] == disk[SectorOf(disk, v, c, i).value][i % 512]
    {
      if i < |chunk| {
        assert data[i] == chunk[i];
      } else {
        var j := i - |chunk|;
        assert data[i] == rest[j] && Readable(disk, v, next, j);
        SameOffset(i, v.sectorsPerCluster);
      }
    }
  }

  lemma SameOffset(i: nat, k: nat)
    requires i >= 512 * k
    ensures (i - 512 * k) % 512 == i % 512
  {}

  /** The chain is readable up to `need` bytes exactly when its first cluster and the rest are. */
  lemma ReadableSplit(disk: Disk, v: Volume, c: nat, need: nat)
    requires Sound(v) && ValidCluster(v, c) && need > ClusterSize(v)
    ensures (forall i :: 0 <= i < need ==> Readable(disk, v, c, i)) <==>
            && (forall i :: 0 <= i < ClusterSize(v) ==> Readable(disk, v, c, i))
            && NextCluster(disk, v, c).Ok? && NextCluster(disk, v, c).value.Some?
            && (forall i :: 0 <= i < need - ClusterSize(v) ==>
                  Readable(disk, v, NextCluster(disk, v, c).value.value, i))
  {
    hide ClusterLba, NextCluster, ValidCluster;
    ClusterInData(v, c, 0);
    var next, size := NextCluster(disk, v, c), ClusterSize(v);
    if next.Ok? && next.value.Some? {
      forall i | size <= i < need
        ensures Readable(disk, v, c, i) <==> Readable(disk, v, next.value.value, i - size)
      {}
      if forall i :: 0 <= i < need ==> Readable(disk, v, c, i) {
        forall i | 0 <= i < need - size ensures Readable(disk, v, next.value.value, i) {
          assert Readable(disk, v, c, i + size);
        }
      }
    } else {
      assert !Readable(disk, v, c, size);
    }
  }

  /**
   A file read succeeds exactly when every byte of the file lies on a readable sector
   of its chain, and then returns exactly those bytes, in order.
   */
  lemma {:induction false} FileIsChain(disk: Disk, v: Volume, c: nat, need: nat)
    requires Sound(v) && ValidCluster(v, c)
    ensures FileBytes(disk, v, c, need).Ok? <==> forall i :: 0 <= i < need ==> Readable(disk, v, c, i)
    ensures FileBytes(disk, v, c, need).Ok? ==>
              |FileBytes(disk, v, c, need).value| == need && IsChainData(disk, v, c, FileBytes(disk, v, c, need).value)
    decreases need
  {
    hide Sound, ClusterLba, NextCluster, ReadFrom, Readable, ValidCluster, IsChainData;
    PerClusterPositive(v);
    if need == 0 {
      NoData(disk, v, c);
      return;
    }
    var size := ClusterSize(v);
    FirstCluster(disk, v, c, Min(need, size));
    if need > size {
      var next := NextCluster(disk, v, c);
      NextIsValid(disk, v, c);
      ReadableSplit(disk, v, c, need);
      if next.Ok? && next.value.Some? {
        FileIsChain(disk, v, next.value.value, need - size);
        if FileBytes(disk, v, c, need).Ok? {
          ChainDataConcat(disk, v, c, next.value.value,
                          ReadFrom(disk, ClusterLba(v, c).value, size).value,
                          FileBytes(disk, v, next.value.value, need - size).value);
        }
      }
    }
  }

  lemma NoData(disk: Disk, v: Volume, c: nat)
    requires v.sectorsPerCluster >= 1
    ensures IsChainData(disk, v, c, [])
  {}
}
