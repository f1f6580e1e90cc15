/**
 A legal tree with one node more than the reader accepts: the writer stores it, and
 what a mount then finds.
 */
module OversizedTrees {
  import opened Prelude
  import opened BlockDevice
  import opened Text
  import opened TreeCodec
  import opened TreeCodecProofs
  import opened Checkpoint
  import opened CrashSafety

  /** A root directory with `n` empty files. */
  function WideTree(n: nat): FsNode
    requires n <= 1040
  {
    Dir(seq(n, i requires 0 <= i < n => Child(WideName(i), File([]))))
  }

  function WideName(i: nat): seq<byte>
    requires i < 1040
  {
    [0x30 + i / 26, 0x61 + i % 26]
  }

  lemma WideNameLegal(i: nat)
    requires i < 1040
    ensures LegalName(WideName(i))
  {
    hide ValidUtf8;
    var name := WideName(i);
    assert forall k :: 0 <= k < |name| ==> 0x30 <= name[k] < 0x80 && name[k] != BACKSLASH;
    AsciiIsUtf8(name);
  }

  /** A concrete legal tree the reader refuses. */
  lemma WideTreeRefused()
    ensures LegalTree(WideTree(1025)) && NodeCount(WideTree(1025)) > MAX_NODE_COUNT
  {
    var root := WideTree(1025);
    WideTreeLegal(1025);
    WideCount([], root.children);
  }

  // ---- The writer accepts it ----

  /** An empty file with a two-byte path takes six bytes. */
  predicate SmallRecord(r: Record) { |Join(r.parts)| == 2 && r.leaf == File([]) }

  lemma {:induction false} SmallRecords(rs: seq<Record>)
    requires LegalRecords(rs) && forall i :: 0 <= i < |rs| ==> SmallRecord(rs[i])
    ensures |Encode(rs)| == 6 * |rs|
  {
    hide LegalRecord, Join;
    if rs != [] {
      assert SmallRecord(rs[0]);
      SmallRecords(rs[1..]);
      OneSmall(Join(rs[0].parts));
    }
  }

  lemma OneSmall(path: Str)
    requires |path| == 2
    ensures |RecordBytes(path, File([]))| == 6
  {
  }

  lemma {:induction false} WideRecords(children: seq<Child>, i: nat)
    requires forall k :: 0 <= k < |children| ==> |children[k].name| == 2 && children[k].node == File([])
    requires i < |Records([], children)|
    ensures SmallRecord(Records([], children)[i])
    decreases |children|
  {
    var name := children[0].name;
    assert [] + [name] == [name];
    if i > 0 { WideRecords(children[1..], i - 1); }
  }

  /** Its payload is 6154 bytes, far below the slot size, so a sync is not rejected. */
  lemma WideTreeAccepted(v: Volume)
    requires v.generation < U64_MAX
    ensures SyncBlob(v, WideTree(1025)).Ok?
  {
    hide LegalTree, Encode, SerializeTree, Records, WideName;
    var root := WideTree(1025);
    WideTreeLegal(1025);
    WideCount([], root.children);
    SerializeLegal(root);
    var rs := Records([], root.children);
    forall k | 0 <= k < |root.children| ensures |root.children[k].name| == 2 { WideNameSize(k); }
    forall i | 0 <= i < |rs| ensures SmallRecord(rs[i]) { WideRecords(root.children, i); }
    SmallRecords(rs);
  }

  lemma WideNameSize(i: nat)
    requires i < 1040
    ensures |WideName(i)| == 2
  {
  }

  // ---- Two syncs on a freshly formatted volume ----

  function Fresh(disk: Disk): Volume { Volume(Apply(disk, FormatWrites()), 0, 1) }

  /** The volume after a sync of `root` that reported success. */
  function Synced(v: Volume, root: FsNode): Volume
    requires SyncBlob(v, root).Ok?
  {
    Volume(Apply(v.disk, SyncWrites(v, root)), SyncTarget(v), v.generation + 1)
  }

  /**
   On every freshly formatted volume a sync of this tree succeeds and the next mount returns the empty
   tree; a second sync succeeds too, and then there is nothing to mount.
   */
  lemma OversizedSyncLost(disk: Disk)
    requires SLOT_B_LBA in disk && disk[SLOT_B_LBA] == Zeros(512)
    ensures var v := Fresh(disk); var root := WideTree(1025);
      && SyncBlob(v, root).Ok? && Mount(Synced(v, root).disk) == Mounted(0, 1, EmptyRoot())
      && SyncBlob(Synced(v, root), root).Ok? && Mount(Synced(Synced(v, root), root).disk) == Unmountable
  {
    hide Mount, SyncBlob, SyncWrites, FormatWrites, Apply, Good, WideTree, LegalTree, NodeCount;
    var v, root, s := Fresh(disk), WideTree(1025), Spec(EmptyRoot(), None);
    FormatGood(disk);
    WideTreeRefused();
    WideTreeAccepted(v);
    WideTreeAccepted(Synced(v, root));
    DurableIff(v, s, root);
    TwoOversizedSyncs(v, s, root);
  }

  // ---- The tree is legal ----

  lemma WideTreeLegal(n: nat)
    requires n <= 1040
    ensures LegalTree(WideTree(n))
  {
    hide LegalName, WideName, Join;
    var children := WideTree(n).children;
    forall i | 0 <= i < n
      ensures LegalName(children[i].name)
      ensures |Join([] + [children[i].name])| <= MAX_RECORD_PATH
    {
      WideNameLegal(i);
      WideNameLength(i);
    }
    forall i, j | 0 <= i < j < n ensures children[i].name != children[j].name {
      WideNamesDiffer(i, j);
    }
    assert LegalChildren([], children);
  }

  lemma WideNameLength(i: nat)
    requires i < 1040
    ensures |Join([] + [WideName(i)])| == 2
  {
    assert [] + [WideName(i)] == [WideName(i)];
  }

  lemma WideNamesDiffer(i: nat, j: nat)
    requires i < j < 1040
    ensures WideName(i) != WideName(j)
  {}

  lemma {:induction false} WideCount(prefix: seq<seq<byte>>, children: seq<Child>)
    requires forall i :: 0 <= i < |children| ==> children[i].node.File?
    ensures |Records(prefix, children)| == |children|
    decreases children
  {
    if children != [] { WideCount(prefix, children[1..]); }
  }
}
