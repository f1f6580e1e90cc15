/**
 The FAT32 directory walk: it terminates on any disk contents, reads only the
 volume's own sectors, and reports a loop only if the chain really revisits a cluster.
 */
module Fat32Directory {
  import opened Prelude
  import opened BlockDevice
  import opened Text
  import opened Fat32

  datatype DirEntry = DirEntry(name: Str, isDirectory: bool, firstCluster: nat, size: nat)

  // ---- Records ----

  /** Number of bytes up to the last one that is not a space. */
  function TrimmedLength(s: seq<byte>): (n: nat)
    ensures n <= |s|
  {
    if s == [] then 0 else if s[|s| - 1] != 0x20 then |s| else TrimmedLength(s[..|s| - 1])
  }

  predicate ShortNameByte(b: byte) { 0x21 <= b <= 0x7E && b != SLASH && b != BACKSLASH }

  function ShortComponent(s: seq<byte>): Result<Str> {
    var kept := s[..TrimmedLength(s)];
    if forall i :: 0 <= i < |kept| ==> ShortNameByte(kept[i]) then Ok(kept) else Err
  }

  function ShortName(raw: seq<byte>): Result<Str>
    requires |raw| == 32
  {
    var base := ShortComponent(raw[..8]);
    var extension := ShortComponent(raw[8..11]);
    if base.Err? || extension.Err? then Err
    else Ok(if extension.value == [] then base.value else base.value + DOT + extension.value)
  }

  function DecodeEntry(raw: seq<byte>): Result<DirEntry>
    requires |raw| == 32
  {
    var name := ShortName(raw);
    var cluster := (Le(raw, 20, 2) * 0x1_0000 + Le(raw, 26, 2)) % CLUSTER_MASK;
    var isDirectory := raw[11] / 16 % 2 == 1;
    if name.Err? || name.value in {[], DOT, DOT_DOT} then Err
    else if isDirectory && cluster < 2 then Err
    else Ok(DirEntry(name.value, isDirectory, cluster, Le(raw, 28, 4)))
  }

  const SELF_NAME: seq<byte> := [0x2E, 0x20, 0x20, 0x20, 0x20, 0x20, 0x20, 0x20, 0x20, 0x20, 0x20]
  const PARENT_NAME: seq<byte> := [0x2E, 0x2E, 0x20, 0x20, 0x20, 0x20, 0x20, 0x20, 0x20, 0x20, 0x20]

  predicate Skipped(raw: seq<byte>)
    requires |raw| == 32
  {
    raw[0] == 0xE5 || raw[11] == 0x0F || raw[11] / 8 % 2 == 1 || raw[..11] == SELF_NAME || raw[..11] == PARENT_NAME
  }

  datatype Scan = More(entries: seq<DirEntry>) | End(entries: seq<DirEntry>) | Bad

  function ScanRecord(raw: seq<byte>, entries: seq<DirEntry>): Scan
    requires |raw| == 32
  {
    if raw[0] == 0 then End(entries)
    else if Skipped(raw) then More(entries)
    else if |entries| >= MAX_DIRECTORY_ENTRIES || DecodeEntry(raw).Err? then Bad
    else More(entries + [DecodeEntry(raw).value])
  }

  /** The records of one sector from record `k` on. */
  function ScanSector(sector: Sector, k: nat, entries: seq<DirEntry>): Scan
    requires k <= 16
    decreases 16 - k
  {
    if k == 16 then More(entries)
    else
      var one := ScanRecord(sector[32 * k..32 * k + 32], entries);
      if one.More? then ScanSector(sector, k + 1, one.entries) else one
  }

  /** The sectors of one cluster from sector `index` on. */
  function ScanCluster(disk: Disk, lba: nat, index: nat, count: nat, entries: seq<DirEntry>): Scan
    requires index <= count
    decreases count - index
  {
    if index == count then More(entries)
    else if lba + index !in disk then Bad
    else
      var one := ScanSector(disk[lba + index], 0, entries);
      if one.More? then ScanCluster(disk, lba, index + 1, count, one.entries) else one
  }

  // ---- The walk ----

  datatype Walk = Entries(entries: seq<DirEntry>) | Loop | Failed

  function WalkFrom(disk: Disk, v: Volume, c: nat, visited: nat, entries: seq<DirEntry>): Walk
    requires visited <= v.clusterCount
    decreases v.clusterCount - visited
  {
    if visited + 1 > v.clusterCount then Loop
    else if ClusterLba(v, c).Err? then Failed
    else
      match ScanCluster(disk, ClusterLba(v, c).value, 0, v.sectorsPerCluster, entries)
      case Bad => Failed
      case End(all) => Entries(all)
      case More(all) =>
        var next := NextCluster(disk, v, c);
        if next.Err? then Failed
        else if next.value.None? then Entries(all)
        else WalkFrom(disk, v, next.value.value, visited + 1, all)
  }

  function ReadWalk(disk: Disk, v: Volume, start: nat): Walk {
    if !ValidCluster(v, start) then Failed else WalkFrom(disk, v, start, 0, [])
  }

  method ScanSectors(disk: Disk, v: Volume, c: nat, entries: seq<DirEntry>) returns (r: Scan, ghost touched: set<nat>)
    requires Sound(v) && ValidCluster(v, c)
    ensures ClusterLba(v, c).Ok?
    ensures r == ScanCluster(disk, ClusterLba(v, c).value, 0, v.sectorsPerCluster, entries)
    ensures forall l :: l in touched ==> InData(v, l) && l <= U32_MAX
  {
    hide Sound, ClusterLba, InData, ValidCluster, ScanSector;
    PerClusterPositive(v);
    ClusterInData(v, c, 0);
    var lba, all := ClusterLba(v, c).value, entries;
    touched := {};
    for index := 0 to v.sectorsPerCluster
      invariant ScanCluster(disk, lba, index, v.sectorsPerCluster, all)
             == ScanCluster(disk, lba, 0, v.sectorsPerCluster, entries)
      invariant forall l :: l in touched ==> InData(v, l) && l <= U32_MAX
    {
      ClusterInData(v, c, index);
      touched := touched + {lba + index};
      if lba + index !in disk { return Bad, touched; }
      var one := ScanOneSector(disk[lba + index], all);
      if !one.More? { return one, touched; }
      all := one.entries;
    }
    r := More(all);
  }

  /** The sixteen records of one sector. */
  method ScanOneSector(sector: Sector, entries: seq<DirEntry>) returns (r: Scan)
    ensures r == ScanSector(sector, 0, entries)
  {
    hide ScanRecord;
    var all := entries;
    for k := 0 to 16
      invariant ScanSector(sector, k, all) == ScanSector(sector, 0, entries)
    {
      var one := ScanRecord(sector[32 * k..32 * k + 32], all);
      if !one.More? { return one; }
      all := one.entries;
    }
    r := More(all);
  }

  method ReadDirectory(disk: Disk, v: Volume, start: nat) returns (r: Walk, ghost touched: set<nat>)
    requires Sound(v)
    ensures r == ReadWalk(disk, v, start)
    ensures forall l :: l in touched ==> InRegion(v, l) && l <= U32_MAX
  {
    hide Sound, ClusterLba, InData, InFat, ValidCluster, NextCluster, ScanCluster;
    touched := {};
    if !ValidCluster(v, start) { return Failed, touched; }
    var c, visited, entries := start, 0, [];
    while true
      invariant visited <= v.clusterCount && ValidCluster(v, c)
      invariant WalkFrom(disk, v, c, visited, entries) == ReadWalk(disk, v, start)
      invariant forall l :: l in touched ==> InRegion(v, l) && l <= U32_MAX
      decreases v.clusterCount - visited
    {
      visited := visited + 1;
      if visited > v.clusterCount { return Loop, touched; }
      var scan, seen := ScanSectors(disk, v, c, entries);
      touched := touched + seen;
      if scan.Bad? { return Failed, touched; }
      if scan.End? { return Entries(scan.entries), touched; }
      EntryInFat(v, c);
      touched := touched + {FatLba(v, c)};
      var next := NextCluster(disk, v, c);
      if next.Err? { return Failed, touched; }
      if next.value.None? { return Entries(scan.entries), touched; }
      NextIsValid(disk, v, c);
      c, entries := next.value.value, scan.entries;
    }
  }

  // ---- A reported loop is a loop ----

  /** The chain comes back to a cluster it has already visited. */
  predicate Revisits(disk: Disk, v: Volume, start: nat) {
    exists i, j :: 0 <= i < j <= v.clusterCount
      && ClusterAt(disk, v, start, i).Some? && ClusterAt(disk, v, start, i) == ClusterAt(disk, v, start, j)
  }

  lemma {:induction false} ClusterAtNext(disk: Disk, v: Volume, c: nat, k: nat)
    requires ClusterAt(disk, v, c, k).Some?
    ensures ClusterAt(disk, v, c, k + 1)
         == var next := NextCluster(disk, v, ClusterAt(disk, v, c, k).value);
            if next.Ok? && next.value.Some? then next.value else None
    decreases k
  {
    hide NextCluster;
    NextIsValid(disk, v, c);
    if k != 0 { ClusterAtNext(disk, v, NextCluster(disk, v, c).value.value, k - 1); }
  }

  /** A walk that reports a loop has followed at least as many links as there are clusters. */
  lemma {:induction false} LoopIsLong(disk: Disk, v: Volume, start: nat, c: nat, visited: nat, entries: seq<DirEntry>)
    requires visited <= v.clusterCount && ClusterAt(disk, v, start, visited) == Some(c)
    requires forall k :: 0 <= k <= visited ==> ClusterAt(disk, v, start, k).Some?
    requires WalkFrom(disk, v, c, visited, entries) == Loop
    ensures forall k :: 0 <= k <= v.clusterCount ==> ClusterAt(disk, v, start, k).Some?
    decreases v.clusterCount - visited
  {
    hide NextCluster, ScanCluster, ClusterAt, ClusterLba;
    if visited < v.clusterCount {
      var all := ScanCluster(disk, ClusterLba(v, c).value, 0, v.sectorsPerCluster, entries).entries;
      var next := NextCluster(disk, v, c).value.value;
      ClusterAtNext(disk, v, start, visited);
      LoopIsLong(disk, v, start, next, visited + 1, all);
    }
  }

  /** Values below `n`, one more of them than there is room for, repeat. */
  lemma {:induction false} Pigeonhole(f: seq<nat>, n: nat)
    requires |f| > n && forall i :: 0 <= i < |f| ==> f[i] < n
    ensures exists i, j :: 0 <= i < j < |f| && f[i] == f[j]
    decreases n
  {
    var last := |f| - 1;
    if k :| 0 <= k < last && f[k] == f[last] {
      assert f[k] == f[last];
    } else {
      var x := f[last];
      var g := seq(last, i requires 0 <= i < last => if f[i] > x then (f[i] - 1) as nat else f[i]);
      Pigeonhole(g, n - 1);
      var i, j :| 0 <= i < j < |g| && g[i] == g[j];
      assert f[i] != x && f[j] != x;
      assert f[i] == f[j];
    }
  }

  /** The walk never mistakes an acyclic chain for a loop. */
  lemma LoopIsReal(disk: Disk, v: Volume, start: nat)
    requires ReadWalk(disk, v, start) == Loop
    ensures Revisits(disk, v, start)
  {
    hide NextCluster, WalkFrom, ClusterLba;
    var n := v.clusterCount;
    assert ClusterAt(disk, v, start, 0) == Some(start);
    LoopIsLong(disk, v, start, start, 0, []);
    var f := seq(n + 1, k requires 0 <= k <= n => Slot(disk, v, start, k));
    Pigeonhole(f, n);
    var i, j :| 0 <= i < j < |f| && f[i] == f[j];
    assert f[i] == Slot(disk, v, start, i) && f[j] == Slot(disk, v, start, j);
    assert ClusterAt(disk, v, start, i).Some? && ClusterAt(disk, v, start, j).Some?;
  }

  function Slot(disk: Disk, v: Volume, start: nat, k: nat): nat {
    var c := ClusterAt(disk, v, start, k);
    if c.Some? then c.value - 2 else 0
  }

  // ---- The entries are those of the chain's bytes ----

  /** The records of a byte string, 32 bytes each, up to the end mark. */
  function ScanBytes(data: seq<byte>, entries: seq<DirEntry>): Scan
    requires |data| % 32 == 0
    decreases |data|
  {
    if data == [] then More(entries)
    else
      var one := ScanRecord(data[..32], entries);
      if one.More? then ScanBytes(data[32..], one.entries) else one
  }

  lemma {:induction false} ScanBytesConcat(a: seq<byte>, b: seq<byte>, entries: seq<DirEntry>)
    requires |a| % 32 == 0 && |b| % 32 == 0
    ensures |a + b| % 32 == 0
    ensures ScanBytes(a + b, entries)
         == var first := ScanBytes(a, entries); if first.More? then ScanBytes(b, first.entries) else first
    decreases |a|
  {
    hide ScanRecord;
    if a == [] {
      assert a + b == b;
    } else {
      assert (a + b)[..32] == a[..32] && (a + b)[32..] == a[32..] + b;
      var one := ScanRecord(a[..32], entries);
      if one.More? { ScanBytesConcat(a[32..], b, one.entries); }
    }
  }

  lemma {:induction false} ScanSectorBytes(sector: Sector, k: nat, entries: seq<DirEntry>)
    requires k <= 16
    ensures ScanSector(sector, k, entries) == ScanBytes(sector[32 * k..], entries)
    decreases 16 - k
  {
    hide ScanRecord;
    if k < 16 {
      var rest := sector[32 * k..];
      assert rest[..32] == sector[32 * k..32 * k + 32] && rest[32..] == sector[32 * (k + 1)..];
      var one := ScanRecord(rest[..32], entries);
      if one.More? { ScanSectorBytes(sector, k + 1, one.entries); }
    }
  }

  lemma ReadSectorFirst(disk: Disk, lba: nat, n: nat)
    requires lba in disk && ReadFrom(disk, lba + 1, 512 * n).Ok?
    ensures ReadFrom(disk, lba, 512 * (n + 1)) == Ok(disk[lba] + ReadFrom(disk, lba + 1, 512 * n).value)
  {
    assert 512 * (n + 1) - Min(512 * (n + 1), 512) == 512 * n;
    assert disk[lba][..512] == disk[lba];
  }

  /** A cluster scan that does not fail has scanned the bytes of its first `n` sectors: all, unless it met the end. */
  lemma {:induction false} ScanClusterBytes(disk: Disk, lba: nat, index: nat, count: nat, entries: seq<DirEntry>)
    returns (n: nat, data: seq<byte>)
    requires index <= count && !ScanCluster(disk, lba, index, count, entries).Bad?
    ensures n <= count - index && ReadFrom(disk, lba + index, 512 * n) == Ok(data) && |data| == 512 * n
    ensures |data| % 32 == 0
    ensures ScanBytes(data, entries) == ScanCluster(disk, lba, index, count, entries)
    ensures ScanCluster(disk, lba, index, count, entries).More? ==> n == count - index
    decreases count - index
  {
    hide ScanRecord, ScanSector, ReadFrom;
    if index == count {
      n, data := 0, [];
      ReadNothing(disk, lba + index);
    } else {
      var sector := disk[lba + index];
      assert sector[32 * 0..] == sector;
      ScanSectorBytes(sector, 0, entries);
      var one := ScanSector(sector, 0, entries);
      ReadNothing(disk, lba + index + 1);
      var m: nat, rest: seq<byte> := 0, [];
      if one.More? { m, rest := ScanClusterBytes(disk, lba, index + 1, count, one.entries); }
      n, data := m + 1, sector + rest;
      ReadSectorFirst(disk, lba + index, m);
      ScanBytesConcat(sector, rest, entries);
    }
  }

  lemma ReadNothing(disk: Disk, lba: nat)
    ensures ReadFrom(disk, lba, 0) == Ok([])
  {
  }

  /** The chain from `c` has exactly `n` clusters. */
  predicate ChainLength(disk: Disk, v: Volume, c: nat, n: nat) {
    n > 0 && ClusterAt(disk, v, c, n - 1).Some? && NextCluster(disk, v, ClusterAt(disk, v, c, n - 1).value) == Ok(None)
  }

  ghost predicate WholeChain(disk: Disk, v: Volume, c: nat, length: nat) {
    exists n: nat :: ChainLength(disk, v, c, n) && length == n * ClusterSize(v)
  }

  /** `data` is the directory's contents up to the end mark, or all of it if there is none. */
  ghost predicate DirectoryData(disk: Disk, v: Volume, c: nat, data: seq<byte>, before: seq<DirEntry>,
                                after: seq<DirEntry>)
    requires v.sectorsPerCluster >= 1
  {
    && |data| % 32 == 0 && IsChainData(disk, v, c, data)
    && (|| ScanBytes(data, before) == End(after)
        || (ScanBytes(data, before) == More(after) && WholeChain(disk, v, c, |data|)))
  }

  lemma FirstChunk(disk: Disk, v: Volume, c: nat, entries: seq<DirEntry>) returns (chunk: seq<byte>)
    requires Sound(v) && ValidCluster(v, c) && ClusterLba(v, c).Ok?
    requires !ScanCluster(disk, ClusterLba(v, c).value, 0, v.sectorsPerCluster, entries).Bad?
    ensures v.sectorsPerCluster >= 1 && |chunk| % 32 == 0 && IsChainData(disk, v, c, chunk)
    ensures ScanBytes(chunk, entries) == ScanCluster(disk, ClusterLba(v, c).value, 0, v.sectorsPerCluster, entries)
    ensures ScanBytes(chunk, entries).More? ==> |chunk| == ClusterSize(v)
  {
    hide Sound, ClusterLba, ValidCluster, ScanCluster, IsChainData, ScanBytes, ReadFrom, Readable;
    PerClusterPositive(v);
    var lba := ClusterLba(v, c).value;
    var n, data := ScanClusterBytes(disk, lba, 0, v.sectorsPerCluster, entries);
    chunk := data;
    FirstCluster(disk, v, c, 512 * n);
  }

  lemma ChainLengthNext(disk: Disk, v: Volume, c: nat, next: nat, n: nat)
    requires NextCluster(disk, v, c) == Ok(Some(next)) && ValidCluster(v, c) && ChainLength(disk, v, next, n)
    ensures ChainLength(disk, v, c, n + 1)
  {
    hide NextCluster;
  }

  lemma {:induction false} WalkData(disk: Disk, v: Volume, c: nat, visited: nat, entries: seq<DirEntry>)
    returns (data: seq<byte>)
    requires Sound(v) && ValidCluster(v, c) && visited <= v.clusterCount
    requires WalkFrom(disk, v, c, visited, entries).Entries?
    ensures v.sectorsPerCluster >= 1
    ensures DirectoryData(disk, v, c, data, entries, WalkFrom(disk, v, c, visited, entries).entries)
    decreases v.clusterCount - visited
  {
    hide Sound, ClusterLba, ValidCluster, NextCluster, ScanCluster, IsChainData, ScanBytes, WholeChain, ClusterSize;
    var chunk := FirstChunk(disk, v, c, entries);
    data := chunk;
    var scan := ScanCluster(disk, ClusterLba(v, c).value, 0, v.sectorsPerCluster, entries);
    if scan.More? {
      var next := NextCluster(disk, v, c).value;
      if next.None? {
        LastCluster(disk, v, c);
      } else {
        NextIsValid(disk, v, c);
        var rest := WalkData(disk, v, next.value, visited + 1, scan.entries);
        ChainDataConcat(disk, v, c, next.value, chunk, rest);
        ScanBytesConcat(chunk, rest, entries);
        data := chunk + rest;
        if WholeChain(disk, v, next.value, |rest|) { LongerChain(disk, v, c, next.value, |rest|); }
      }
    }
  }

  lemma LastCluster(disk: Disk, v: Volume, c: nat)
    requires ValidCluster(v, c) && NextCluster(disk, v, c) == Ok(None)
    ensures WholeChain(disk, v, c, ClusterSize(v))
  {
    hide NextCluster;
    assert ChainLength(disk, v, c, 1) && ClusterSize(v) == 1 * ClusterSize(v);
  }

  lemma LongerChain(disk: Disk, v: Volume, c: nat, next: nat, length: nat)
    requires ValidCluster(v, c) && NextCluster(disk, v, c) == Ok(Some(next)) && WholeChain(disk, v, next, length)
    ensures WholeChain(disk, v, c, ClusterSize(v) + length)
  {
    hide NextCluster, ValidCluster, ChainLength, ClusterSize;
    var n: nat :| ChainLength(disk, v, next, n) && length == n * ClusterSize(v);
    ChainLengthNext(disk, v, c, next, n);
    OneMore(n, ClusterSize(v));
  }

  lemma OneMore(n: nat, size: nat)
    ensures (n + 1) * size == size + n * size
  {
  }

  /** A directory that is read has the live entries of its chain's bytes before the end mark, in order. */
  lemma WalkIsChain(disk: Disk, v: Volume, start: nat)
    requires Sound(v) && ReadWalk(disk, v, start).Entries?
    ensures v.sectorsPerCluster >= 1
    ensures exists data :: DirectoryData(disk, v, start, data, [], ReadWalk(disk, v, start).entries)
  {
    hide Sound, DirectoryData, WalkFrom;
    var data := WalkData(disk, v, start, 0, []);
  }
}
