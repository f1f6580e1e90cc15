/**
 The tree codec loses nothing: every well-formed tree of at most 1024 nodes is
 read back exactly, and every payload the reader accepts stands for a
 well-formed tree that can be written again.
 */
module TreeCodecProofs {
  import opened Prelude
  import opened Text
  import opened TreeCodec

  // ---- Well-formed trees ----

  predicate LegalName(name: Str) {
    && ValidComponent(name) && NoSlash(name) && BACKSLASH !in name
    && (forall i :: 0 <= i < |name| ==> name[i] >= 0x20)
    && ValidUtf8(name)
  }

  ghost predicate DistinctNames(children: seq<Child>) {
    forall i, j :: 0 <= i < j < |children| ==> children[i].name != children[j].name
  }

  /** `node`, found at the path `prefix`, is a tree the kernel may hold. */
  ghost predicate LegalNode(prefix: seq<Str>, node: FsNode)
    decreases node, 1
  {
    match node
    case File(content) => |content| <= MAX_FILE_SIZE
    case Dir(children) => DistinctNames(children) && LegalChildren(prefix, children)
  }

  ghost predicate LegalChildren(prefix: seq<Str>, children: seq<Child>)
    decreases children, 0
  {
    forall i :: 0 <= i < |children| ==>
      && LegalName(children[i].name)
      && |Join(prefix + [children[i].name])| <= MAX_RECORD_PATH
      && LegalNode(prefix + [children[i].name], children[i].node)
  }

  ghost predicate LegalTree(root: FsNode) { root.Dir? && LegalNode([], root) }

  // ---- Records ----

  datatype Record = Record(parts: seq<Str>, leaf: FsNode)

  function Shallow(node: FsNode): FsNode { if node.File? then node else Dir([]) }

  /** The records of a directory's descendants, in the order the writer emits them. */
  function Records(prefix: seq<Str>, children: seq<Child>): (r: seq<Record>)
    decreases children, 0
  {
    if children == [] then []
    else
      [Record(prefix + [children[0].name], Shallow(children[0].node))]
      + RecordsBelow(prefix + [children[0].name], children[0].node)
      + Records(prefix, children[1..])
  }

  function RecordsBelow(prefix: seq<Str>, node: FsNode): seq<Record>
    decreases node, 1
  {
    if node.File? then [] else Records(prefix, node.children)
  }

  /** Number of files and directories below the root: one record each. */
  function NodeCount(root: FsNode): nat { |RecordsBelow([], root)| }

  ghost predicate LegalParts(parts: seq<Str>) {
    && parts != []
    && (forall i :: 0 <= i < |parts| ==> LegalName(parts[i]))
    && |Join(parts)| <= MAX_RECORD_PATH
  }

  ghost predicate LegalRecord(r: Record) {
    && LegalParts(r.parts)
    && (match r.leaf
        case File(content) => |content| <= MAX_FILE_SIZE
        case Dir(children) => children == [])
  }

  ghost predicate LegalRecords(rs: seq<Record>) {
    forall i :: 0 <= i < |rs| ==> LegalRecord(rs[i])
  }

  ghost function Encode(rs: seq<Record>): (e: seq<byte>)
    requires LegalRecords(rs)
  {
    if rs == [] then [] else RecordBytes(Join(rs[0].parts), rs[0].leaf) + Encode(rs[1..])
  }

  function InsertAll(root: FsNode, rs: seq<Record>): Result<FsNode>
    decreases |rs|
  {
    if rs == [] then Ok(root)
    else if rs[0].parts == [] then Err
    else
      var grown := Insert(root, rs[0].parts, rs[0].leaf);
      if grown.Err? then Err else InsertAll(grown.value, rs[1..])
  }

  // ---- Paths ----

  /** A legal path passes the reader's checks and splits back into its parts. */
  lemma LegalPathAccepted(parts: seq<Str>)
    requires LegalParts(parts)
    ensures AcceptedPath(Join(parts))
    ensures NonEmpty(Split(Join(parts))) == parts
  {
    JoinSplit(parts);
    NonEmptyIdentity(parts);
    Utf8Join(parts);
    JoinBytes(parts);
  }

  lemma {:induction false} JoinBytes(parts: seq<Str>)
    requires parts != [] && forall i :: 0 <= i < |parts| ==> LegalName(parts[i])
    ensures var p := Join(parts);
            && p != [] && p[0] != SLASH && p[|p| - 1] != SLASH
            && BACKSLASH !in p
            && forall i :: 0 <= i < |p| ==> p[i] >= 0x20
  {
    if |parts| > 1 { JoinBytes(parts[1..]); }
  }

  /** A path the reader accepts is made of legal names. */
  lemma AcceptedPathLegal(path: Str)
    requires AcceptedPath(path)
    ensures LegalParts(Split(path))
    ensures NonEmpty(Split(path)) == Split(path)
    ensures Join(Split(path)) == path
  {
    var parts := Split(path);
    SplitJoin(path);
    Utf8Join(parts);
    NonEmptyIdentity(parts);
    forall i | 0 <= i < |parts| ensures LegalName(parts[i]) {
      PartBytes(parts, i);
    }
  }

  lemma {:induction false} PartBytes(parts: seq<Str>, k: nat)
    requires k < |parts|
    ensures forall i :: 0 <= i < |parts[k]| ==> parts[k][i] in Join(parts)
  {
    if |parts| > 1 {
      if k == 0 {
      } else {
        PartBytes(parts[1..], k - 1);
      }
      forall i | 0 <= i < |parts[k]| ensures parts[k][i] in Join(parts) {
        if k == 0 {
          assert Join(parts)[i] == parts[0][i];
        } else {
          assert parts[1..][k - 1] == parts[k];
        }
      }
    }
  }

  // ---- One record through the reader ----

  lemma FileLayout(path: Str, content: seq<byte>, rest: seq<byte>)
    requires |path| < 256 && |content| <= MAX_FILE_SIZE
    ensures var data, n := RecordBytes(path, File(content)) + rest, 2 + |path|;
            && |RecordBytes(path, File(content))| == n + 2 + |content| <= |data|
            && data[0] == 1 && data[1] == |path| && data[2..n] == path
            && FromLe(data[n..n + 2]) == |content|
            && data[n + 2..n + 2 + |content|] == content
  {
    Pow256Values();
    LeRoundTrip(|content|, 2);
    var data, n := RecordBytes(path, File(content)) + rest, 2 + |path|;
    assert data[n..n + 2] == ToLe(|content|, 2);
  }

  lemma DirLayout(path: Str, children: seq<Child>, rest: seq<byte>)
    requires |path| < 256
    ensures var data, n := RecordBytes(path, Dir(children)) + rest, 2 + |path|;
            && |RecordBytes(path, Dir(children))| == n <= |data|
            && data[0] == 2 && data[1] == |path| && data[2..n] == path
  {}

  lemma DecodeEncoded(parts: seq<Str>, leaf: FsNode, rest: seq<byte>)
    requires LegalRecord(Record(parts, leaf))
    ensures var bytes := RecordBytes(Join(parts), leaf);
            DecodeRecord(bytes + rest) == Ok(Decoded(Join(parts), leaf, |bytes|))
  {
    hide AcceptedPath, LegalName, FromLe, RecordBytes;
    var path := Join(parts);
    LegalPathAccepted(parts);
    match leaf {
      case File(content) => FileLayout(path, content, rest);
      case Dir(children) => DirLayout(path, children, rest);
    }
  }

  /** The reader on written records is plain insertion, as long as the node limit is met. */
  lemma {:induction false} ParseEncoded(rs: seq<Record>, count: nat, root: FsNode)
    requires LegalRecords(rs)
    ensures ParseFrom(Encode(rs), count, root)
         == if rs == [] || count + |rs| <= MAX_NODE_COUNT then InsertAll(root, rs) else Err
    decreases |rs|
  {
    hide ParseFrom, Insert, RecordBytes, Join;
    if rs == [] {
      ParseEmpty(count, root);
      return;
    }
    ParseStep(rs[0], Encode(rs[1..]), count, root);
    var grown := Insert(root, rs[0].parts, rs[0].leaf);
    if grown.Ok? {
      ParseEncoded(rs[1..], count + 1, grown.value);
    }
  }

  lemma ParseEmpty(count: nat, root: FsNode)
    ensures ParseFrom([], count, root) == Ok(root)
  {}

  lemma ParseStep(r: Record, rest: seq<byte>, count: nat, root: FsNode)
    requires LegalRecord(r)
    ensures ParseFrom(RecordBytes(Join(r.parts), r.leaf) + rest, count, root)
         == var grown := Insert(root, r.parts, r.leaf);
            if count + 1 > MAX_NODE_COUNT || grown.Err? then Err
            else ParseFrom(rest, count + 1, grown.value)
  {
    DecodeEncoded(r.parts, r.leaf, rest);
    LegalPathAccepted(r.parts);
    var bytes := RecordBytes(Join(r.parts), r.leaf);
    assert (bytes + rest)[|bytes|..] == rest;
  }

  // ---- Rebuilding a tree from its records ----

  /** The same records, one directory deeper. */
  function Nest(name: Str, rs: seq<Record>): (r: seq<Record>)
    ensures |r| == |rs|
    ensures forall i :: 0 <= i < |rs| ==> r[i] == Record([name] + rs[i].parts, rs[i].leaf)
  {
    seq(|rs|, i requires 0 <= i < |rs| => Record([name] + rs[i].parts, rs[i].leaf))
  }

  lemma {:induction false} RecordsNest(name: Str, prefix: seq<Str>, children: seq<Child>)
    ensures Records([name] + prefix, children) == Nest(name, Records(prefix, children))
    decreases children
  {
    if children != [] {
      var c := children[0];
      assert [name] + (prefix + [c.name]) == [name] + prefix + [c.name];
      if c.node.Dir? {
        RecordsNest(name, prefix + [c.name], c.node.children);
      }
      RecordsNest(name, prefix, children[1..]);
    }
  }

  lemma {:induction false} InsertAllConcat(root: FsNode, a: seq<Record>, b: seq<Record>)
    ensures InsertAll(root, a + b)
         == var first := InsertAll(root, a); if first.Err? then Err else InsertAll(first.value, b)
    decreases |a|
  {
    if a == [] {
      assert a + b == b;
    } else {
      assert (a + b)[1..] == a[1..] + b;
      if a[0].parts != [] {
        var grown := Insert(root, a[0].parts, a[0].leaf);
        if grown.Ok? { InsertAllConcat(grown.value, a[1..], b); }
      }
    }
  }

  /** Records below the last child only change that child. */
  lemma {:induction false} InsertUnderLast(before: seq<Child>, name: Str, node: FsNode, rs: seq<Record>)
    requires forall i :: 0 <= i < |before| ==> before[i].name != name
    ensures InsertAll(Dir(before + [Child(name, node)]), Nest(name, rs))
         == var below := InsertAll(node, rs);
            if below.Err? then Err else Ok(Dir(before + [Child(name, below.value)]))
    decreases |rs|
  {
    if rs != [] {
      InsertLast(before, name, node, rs[0]);
      assert Nest(name, rs)[1..] == Nest(name, rs[1..]);
      if rs[0].parts != [] {
        var grown := Insert(node, rs[0].parts, rs[0].leaf);
        if grown.Ok? { InsertUnderLast(before, name, grown.value, rs[1..]); }
      }
    }
  }

  lemma InsertLast(before: seq<Child>, name: Str, node: FsNode, r: Record)
    requires forall i :: 0 <= i < |before| ==> before[i].name != name
    ensures Insert(Dir(before + [Child(name, node)]), [name] + r.parts, r.leaf)
         == if r.parts == [] then Err
            else
              var below := Insert(node, r.parts, r.leaf);
              if below.Err? then Err else Ok(Dir(before + [Child(name, below.value)]))
  {
    var children := before + [Child(name, node)];
    assert children[|before|].name == name;
    assert Find(children, name) == |before|;
    assert ([name] + r.parts)[1..] == r.parts;
    if r.parts != [] {
      var below := Insert(node, r.parts, r.leaf);
      if below.Ok? {
        assert children[|before| := Child(name, below.value)] == before + [Child(name, below.value)];
      }
    }
  }

  ghost predicate DistinctBelow(node: FsNode)
    decreases node
  {
    node.Dir? ==>
      && DistinctNames(node.children)
      && forall i :: 0 <= i < |node.children| ==> DistinctBelow(node.children[i].node)
  }

  /** Inserting the records of `after` into a directory appends exactly `after`. */
  lemma {:induction false} Rebuild(before: seq<Child>, after: seq<Child>)
    requires DistinctNames(before + after)
    requires forall i :: 0 <= i < |after| ==> DistinctBelow(after[i].node)
    ensures InsertAll(Dir(before), Records([], after)) == Ok(Dir(before + after))
    decreases after
  {
    hide Insert;
    if after == [] {
      assert before + after == before;
    } else {
      var name, node := after[0].name, after[0].node;
      var first := [Record([name], Shallow(node))];
      var below := RecordsBelow([name], node);
      assert [] + [name] == [name] && [name] + [] == [name];
      NewChild(before, name, Shallow(node), after);
      if node.Dir? {
        RecordsNest(name, [], node.children);
        Rebuild([], node.children);
        assert [] + node.children == node.children;
        InsertUnderLast(before, name, Dir([]), Records([], node.children));
      }
      var grown := before + [after[0]];
      assert InsertAll(Dir(before + [Child(name, Shallow(node))]), below) == Ok(Dir(grown));
      assert grown + after[1..] == before + after;
      Rebuild(grown, after[1..]);
      InsertAllConcat(Dir(before), first + below, Records([], after[1..]));
      InsertAllConcat(Dir(before), first, below);
    }
  }

  lemma NewChild(before: seq<Child>, name: Str, leaf: FsNode, after: seq<Child>)
    requires after != [] && after[0].name == name && DistinctNames(before + after)
    ensures forall i :: 0 <= i < |before| ==> before[i].name != name
    ensures InsertAll(Dir(before), [Record([name], leaf)]) == Ok(Dir(before + [Child(name, leaf)]))
  {
    forall i | 0 <= i < |before| ensures before[i].name != name {
      assert (before + after)[i] == before[i] && (before + after)[|before|] == after[0];
    }
    assert Find(before, name) == |before|;
    assert [Record([name], leaf)][1..] == [];
  }

  // ---- The writer emits exactly the records ----

  lemma {:induction false} LegalIsDistinct(prefix: seq<Str>, node: FsNode)
    requires LegalNode(prefix, node)
    ensures DistinctBelow(node)
    decreases node
  {
    if node.Dir? {
      forall i | 0 <= i < |node.children| ensures DistinctBelow(node.children[i].node) {
        LegalIsDistinct(prefix + [node.children[i].name], node.children[i].node);
      }
    }
  }

  ghost predicate LegalPrefix(prefix: seq<Str>) {
    forall i :: 0 <= i < |prefix| ==> LegalName(prefix[i])
  }

  lemma {:induction false} LegalTreeRecords(prefix: seq<Str>, children: seq<Child>)
    requires LegalPrefix(prefix) && LegalChildren(prefix, children)
    ensures LegalRecords(Records(prefix, children))
    decreases children
  {
    hide LegalName;
    if children != [] {
      var c := children[0];
      assert LegalNode(prefix + [c.name], c.node);
      LegalTail(prefix, children);
      if c.node.Dir? {
        LegalTreeRecords(prefix + [c.name], c.node.children);
      }
      LegalTreeRecords(prefix, children[1..]);
    }
  }

  lemma LegalTail(prefix: seq<Str>, children: seq<Child>)
    requires children != [] && LegalChildren(prefix, children)
    ensures LegalChildren(prefix, children[1..])
  {
    var rest := children[1..];
    assert forall i :: 0 <= i < |rest| ==> rest[i] == children[i + 1];
  }

  ghost function RecordCode(r: Record): seq<byte>
    requires LegalRecord(r)
  {
    RecordBytes(Join(r.parts), r.leaf)
  }

  lemma EncodeFirst(rs: seq<Record>)
    requires LegalRecords(rs) && rs != []
    ensures LegalRecord(rs[0]) && LegalRecords(rs[1..]) && Encode(rs) == RecordCode(rs[0]) + Encode(rs[1..])
  {
    hide RecordBytes;
  }

  lemma LegalConcat(a: seq<Record>, b: seq<Record>)
    requires LegalRecords(a) && LegalRecords(b)
    ensures LegalRecords(a + b)
  {
    hide LegalRecord;
  }

  lemma {:induction false} EncodeConcat(a: seq<Record>, b: seq<Record>)
    requires LegalRecords(a) && LegalRecords(b)
    ensures LegalRecords(a + b)
    ensures Encode(a + b) == Encode(a) + Encode(b)
  {
    hide LegalRecord, LegalRecords, RecordCode, Encode;
    LegalConcat(a, b);
    if a == [] {
      assert a + b == b;
      EncodeNone(a);
    } else {
      EncodeFirst(a);
      EncodeFirst(a + b);
      assert (a + b)[1..] == a[1..] + b && (a + b)[0] == a[0];
      EncodeConcat(a[1..], b);
      var x, y, z := RecordCode(a[0]), Encode(a[1..]), Encode(b);
      assert x + (y + z) == (x + y) + z;
    }
  }

  lemma EncodeNone(rs: seq<Record>)
    requires rs == []
    ensures LegalRecords(rs) && Encode(rs) == []
  {
  }

  lemma JoinPrefix(prefix: seq<Str>, name: Str)
    requires LegalPrefix(prefix)
    ensures JoinPath(Join(prefix), name) == Join(prefix + [name])
  {
    if prefix == [] {
      assert prefix + [name] == [name];
    } else {
      JoinConcat(prefix, [name]);
      JoinBytes(prefix);
    }
  }

  lemma {:induction false} FlattenIsEncode(prefix: seq<Str>, children: seq<Child>)
    requires LegalPrefix(prefix) && LegalChildren(prefix, children)
    ensures LegalRecords(Records(prefix, children))
    ensures FlattenChildren(Join(prefix), children) == Ok(Encode(Records(prefix, children)))
    decreases children
  {
    hide LegalName, RecordBytes, Join;
    LegalTreeRecords(prefix, children);
    if children != [] {
      var c := children[0];
      var path := prefix + [c.name];
      var first, below := [Record(path, Shallow(c.node))], RecordsBelow(path, c.node);
      var rest := Records(prefix, children[1..]);
      assert Records(prefix, children) == first + below + rest;
      LegalTail(prefix, children);
      assert LegalNode(path, c.node);
      JoinPrefix(prefix, c.name);
      FlattenIsEncode(prefix, children[1..]);
      FlattenOne(path, c.node);
      EncodeConcat(first + below, rest);
    }
  }

  /** One node: its own record, then everything below it. */
  lemma {:induction false} FlattenOne(path: seq<Str>, node: FsNode)
    requires path != [] && LegalPrefix(path) && |Join(path)| <= MAX_RECORD_PATH && LegalNode(path, node)
    ensures var rs := [Record(path, Shallow(node))] + RecordsBelow(path, node);
            LegalRecords(rs) && FlattenNode(Join(path), node) == Ok(Encode(rs))
    decreases node
  {
    hide LegalName;
    JoinBytes(path);
    var first, below := [Record(path, Shallow(node))], RecordsBelow(path, node);
    assert first[1..] == [];
    assert Encode(first) == RecordBytes(Join(path), Shallow(node));
    if node.Dir? {
      FlattenIsEncode(path, node.children);
      EncodeConcat(first, below);
    } else {
      assert first + below == first;
    }
  }

  // ---- Main results ----

  /** What the writer emits for a legal tree. */
  lemma SerializeLegal(root: FsNode)
    requires LegalTree(root)
    ensures LegalRecords(Records([], root.children))
    ensures SerializeTree(root) == Ok(TREE_MAGIC + Encode(Records([], root.children)))
  {
    FlattenIsEncode([], root.children);
    var body := Encode(Records([], root.children));
    assert [] + body == body;
  }

  /**
   A legal tree is read back exactly, child order included, if and only if it has
   at most 1024 nodes: only the reader enforces that limit, the writer does not.
   */
  lemma RoundTripIff(root: FsNode)
    requires LegalTree(root)
    ensures var blob := SerializeTree(root);
            && blob.Ok? && |blob.value| >= 4 && blob.value[..4] == TREE_MAGIC
            && (NodeCount(root) <= MAX_NODE_COUNT ==> ParseTree(blob.value[4..]) == Ok(root))
            && (NodeCount(root) > MAX_NODE_COUNT ==> ParseTree(blob.value[4..]) == Err)
  {
    var rs := Records([], root.children);
    SerializeLegal(root);
    var blob := TREE_MAGIC + Encode(rs);
    assert blob[4..] == Encode(rs) && blob[..4] == TREE_MAGIC;
    ParseEncoded(rs, 0, EmptyRoot());
    LegalIsDistinct([], root);
    assert [] + root.children == root.children;
    Rebuild([], root.children);
  }
}
