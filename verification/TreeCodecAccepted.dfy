/**
 What the tree reader accepts. Any accepted payload is the encoding of some legal
 records; the tree it yields is legal, and writing that tree again emits the same
 records in some order. A mounted volume can therefore always be synced again.
 */
module TreeCodecAccepted {
  import opened Prelude
  import opened Text
  import opened TreeCodec
  import opened TreeCodecProofs

  // ---- Accepted bytes are encoded records ----

  lemma FileBytes(data: seq<byte>, n: nat, used: nat)
    requires 2 <= n && n + 2 <= used <= |data| && data[0] == 1 && data[1] == n - 2
    requires FromLe(data[n..n + 2]) == used - n - 2
    ensures used - n - 2 <= MAX_FILE_SIZE
    ensures RecordBytes(data[2..n], File(data[n + 2..used])) == data[..used]
  {
    Pow256Values();
    LeRoundTripBytes(data[n..n + 2]);
    assert data[..used] == [data[0], data[1]] + data[2..n] + data[n..n + 2] + data[n + 2..used];
  }

  lemma DirBytes(data: seq<byte>, n: nat)
    requires 2 <= n <= |data| && data[0] == 2 && data[1] == n - 2
    ensures RecordBytes(data[2..n], Dir([])) == data[..n]
  {
    assert data[..n] == [data[0], data[1]] + data[2..n];
  }

  lemma DecodedIsEncoded(data: seq<byte>)
    requires DecodeRecord(data).Ok?
    ensures var Decoded(path, leaf, used) := DecodeRecord(data).value;
            && AcceptedPath(path)
            && LegalRecord(Record(Split(path), leaf))
            && RecordBytes(path, leaf) == data[..used]
  {
    hide LegalName, AcceptedPath, RecordBytes, FromLe, Split, Join;
    var Decoded(path, leaf, used) := DecodeRecord(data).value;
    AcceptedPathLegal(path);
    if leaf.File? {
      FileBytes(data, 2 + data[1] as int, used);
    } else {
      DirBytes(data, used);
    }
  }

  lemma {:induction false} AcceptedIsEncoded(data: seq<byte>, count: nat, root: FsNode) returns (rs: seq<Record>)
    requires ParseFrom(data, count, root).Ok?
    ensures LegalRecords(rs) && data == Encode(rs)
    ensures rs == [] || count + |rs| <= MAX_NODE_COUNT
    ensures InsertAll(root, rs) == ParseFrom(data, count, root)
    decreases |data|
  {
    hide DecodeRecord, RecordBytes, LegalName, Insert, Split, Join;
    if data == [] {
      rs := [];
    } else {
      DecodedIsEncoded(data);
      var Decoded(path, leaf, used) := DecodeRecord(data).value;
      AcceptedPathLegal(path);
      var grown := Insert(root, Split(path), leaf);
      var rest := AcceptedIsEncoded(data[used..], count + 1, grown.value);
      rs := [Record(Split(path), leaf)] + rest;
      assert rs[1..] == rest;
      assert data == data[..used] + data[used..];
    }
  }

  // ---- Insertion keeps trees legal and adds exactly one record ----

  lemma {:induction false} RecordsConcat(prefix: seq<Str>, a: seq<Child>, b: seq<Child>)
    ensures Records(prefix, a + b) == Records(prefix, a) + Records(prefix, b)
    decreases |a|
  {
    if a == [] {
      assert a + b == b;
    } else {
      RecordsConcat(prefix, a[1..], b);
      assert (a + b)[1..] == a[1..] + b;
    }
  }

  lemma RecordsSingle(prefix: seq<Str>, c: Child)
    ensures Records(prefix, [c])
         == [Record(prefix + [c.name], Shallow(c.node))] + RecordsBelow(prefix + [c.name], c.node)
  {
    assert [c][1..] == [];
  }

  /** Replacing one child's subtree swaps that subtree's records. */
  lemma RecordsReplace(prefix: seq<Str>, children: seq<Child>, pos: nat, node: FsNode)
    requires pos < |children| && children[pos].node.Dir? && node.Dir?
    ensures multiset(Records(prefix, children[pos := Child(children[pos].name, node)]))
            + multiset(RecordsBelow(prefix + [children[pos].name], children[pos].node))
         == multiset(Records(prefix, children))
            + multiset(RecordsBelow(prefix + [children[pos].name], node))
  {
    hide Records, RecordsBelow;
    var a, c, b := children[..pos], children[pos], children[pos + 1..];
    var d := Child(c.name, node);
    assert children == a + ([c] + b);
    assert children[pos := d] == a + ([d] + b);
    RecordsConcat(prefix, a, [c] + b);
    RecordsConcat(prefix, [c], b);
    RecordsConcat(prefix, a, [d] + b);
    RecordsConcat(prefix, [d], b);
    RecordsSingle(prefix, c);
    RecordsSingle(prefix, d);
  }

  lemma {:induction false} InsertRecord(prefix: seq<Str>, node: FsNode, parts: seq<Str>, leaf: FsNode)
    requires parts != [] && (leaf.Dir? ==> leaf.children == [])
    requires Insert(node, parts, leaf).Ok?
    ensures var grown := Insert(node, parts, leaf).value;
            && node.Dir? && grown.Dir?
            && multiset(RecordsBelow(prefix, grown))
               == multiset(RecordsBelow(prefix, node)) + multiset{Record(prefix + parts, leaf)}
    decreases |parts|
  {
    hide Records, Find;
    var children := node.children;
    var pos := Find(children, parts[0]);
    if |parts| == 1 {
      assert prefix + parts == prefix + [parts[0]];
      AppendRecord(prefix, children, parts[0], leaf);
    } else {
      var path, below := prefix + [parts[0]], Insert(children[pos].node, parts[1..], leaf).value;
      assert path + parts[1..] == prefix + parts;
      InsertRecord(path, children[pos].node, parts[1..], leaf);
      RecordsReplace(prefix, children, pos, below);
      CancelShared(multiset(RecordsBelow(prefix, Insert(node, parts, leaf).value)),
                   multiset(RecordsBelow(path, children[pos].node)),
                   multiset(RecordsBelow(prefix, node)), Record(prefix + parts, leaf));
    }
  }

  lemma CancelShared(grown: multiset<Record>, shared: multiset<Record>, was: multiset<Record>, r: Record)
    requires grown + shared == was + (shared + multiset{r})
    ensures grown == was + multiset{r}
  {
    assert forall e :: (grown + shared)[e] == grown[e] + shared[e];
  }

  lemma AppendRecord(prefix: seq<Str>, children: seq<Child>, name: Str, leaf: FsNode)
    requires leaf.Dir? ==> leaf.children == []
    ensures multiset(Records(prefix, children + [Child(name, leaf)]))
         == multiset(Records(prefix, children)) + multiset{Record(prefix + [name], leaf)}
  {
    RecordsConcat(prefix, children, [Child(name, leaf)]);
    RecordsSingle(prefix, Child(name, leaf));
  }

  lemma {:induction false} InsertLegal(prefix: seq<Str>, node: FsNode, parts: seq<Str>, leaf: FsNode)
    requires parts != [] && LegalRecord(Record(prefix + parts, leaf))
    requires LegalNode(prefix, node)
    requires Insert(node, parts, leaf).Ok?
    ensures LegalNode(prefix, Insert(node, parts, leaf).value)
    decreases |parts|
  {
    hide LegalName;
    var children, name := node.children, parts[0];
    var pos := Find(children, name);
    assert (prefix + parts)[|prefix|] == name;
    if |parts| == 1 {
      assert prefix + parts == prefix + [name];
      AppendLegal(prefix, children, Child(name, leaf));
    } else {
      var path := prefix + [name];
      assert path + parts[1..] == prefix + parts;
      assert LegalNode(path, children[pos].node);
      InsertLegal(path, children[pos].node, parts[1..], leaf);
      ReplaceLegal(prefix, children, pos, Insert(children[pos].node, parts[1..], leaf).value);
    }
  }

  lemma AppendLegal(prefix: seq<Str>, children: seq<Child>, c: Child)
    requires LegalNode(prefix, Dir(children)) && Find(children, c.name) == |children|
    requires LegalName(c.name) && |Join(prefix + [c.name])| <= MAX_RECORD_PATH
    requires LegalNode(prefix + [c.name], c.node)
    ensures LegalNode(prefix, Dir(children + [c]))
  {}

  lemma ReplaceLegal(prefix: seq<Str>, children: seq<Child>, pos: nat, node: FsNode)
    requires LegalNode(prefix, Dir(children)) && pos < |children|
    requires LegalNode(prefix + [children[pos].name], node)
    ensures LegalNode(prefix, Dir(children[pos := Child(children[pos].name, node)]))
  {}

  lemma {:induction false} InsertAllLegal(root: FsNode, rs: seq<Record>)
    requires LegalTree(root) && LegalRecords(rs)
    requires InsertAll(root, rs).Ok?
    ensures var grown := InsertAll(root, rs).value;
            && LegalTree(grown)
            && multiset(RecordsBelow([], grown)) == multiset(RecordsBelow([], root)) + multiset(rs)
    decreases |rs|
  {
    hide LegalName, Insert, RecordsBelow;
    if rs == [] {
      assert multiset(rs) == multiset{};
    } else {
      var grown := Insert(root, rs[0].parts, rs[0].leaf).value;
      assert [] + rs[0].parts == rs[0].parts;
      InsertLegal([], root, rs[0].parts, rs[0].leaf);
      InsertRecord([], root, rs[0].parts, rs[0].leaf);
      assert rs[0] == Record(rs[0].parts, rs[0].leaf);
      assert rs == [rs[0]] + rs[1..];
      InsertAllLegal(grown, rs[1..]);
    }
  }

  // ---- Reordering records keeps the encoded length ----

  lemma {:induction false} SameRecordsSameLength(a: seq<Record>, b: seq<Record>)
    requires LegalRecords(a) && LegalRecords(b) && multiset(a) == multiset(b)
    ensures |a| == |b| && |Encode(a)| == |Encode(b)|
    decreases |a|
  {
    hide LegalRecord, RecordBytes, Encode;
    if a == [] {
      assert |multiset(b)| == 0;
    } else {
      assert a[0] in multiset(b);
      var k :| 0 <= k < |b| && b[k] == a[0];
      WithoutRecord(a, b, k);
      SameRecordsSameLength(a[1..], b[..k] + b[k + 1..]);
      EncodedAround(b, k);
      EncodedAround(a, 0);
      assert a[..0] + a[1..] == a[1..];
    }
  }

  lemma WithoutRecord(a: seq<Record>, b: seq<Record>, k: nat)
    requires multiset(a) == multiset(b) && a != [] && k < |b| && b[k] == a[0]
    ensures multiset(a[1..]) == multiset(b[..k] + b[k + 1..])
  {
    assert a == [a[0]] + a[1..];
    assert b == b[..k] + ([b[k]] + b[k + 1..]);
    assert multiset(a[1..]) == multiset(a) - multiset{a[0]};
    assert multiset(b[..k] + b[k + 1..]) == multiset(b) - multiset{b[k]};
  }

  lemma EncodedAround(b: seq<Record>, k: nat)
    requires LegalRecords(b) && k < |b|
    ensures |Encode(b)| == |RecordBytes(Join(b[k].parts), b[k].leaf)| + |Encode(b[..k] + b[k + 1..])|
  {
    hide LegalName, RecordBytes, Join;
    var a, one, c := b[..k], [b[k]], b[k + 1..];
    assert b == a + (one + c);
    EncodeConcat(a, one + c);
    EncodeConcat(one, c);
    EncodeConcat(a, c);
    assert one[1..] == [];
    assert Encode(one) == RecordBytes(Join(b[k].parts), b[k].leaf) + Encode(one[1..]);
    assert Encode(one) == RecordBytes(Join(b[k].parts), b[k].leaf);
  }

  lemma EmptyIsLegal()
    ensures LegalTree(EmptyRoot()) && RecordsBelow([], EmptyRoot()) == []
  {}

  /**
   Every payload the reader accepts yields a legal tree; writing that tree succeeds,
   emits a permutation of the records that were read, has the same length, and is
   read back as the same tree.
   */
  lemma AcceptedReserializes(data: seq<byte>) returns (rs: seq<Record>)
    requires ParseTree(data).Ok?
    ensures LegalRecords(rs) && data == Encode(rs)
    ensures var root := ParseTree(data).value;
            var blob := SerializeTree(root);
            && LegalTree(root) && NodeCount(root) == |rs| <= MAX_NODE_COUNT
            && multiset(Records([], root.children)) == multiset(rs)
            && blob.Ok? && |blob.value| == 4 + |data|
            && ParseTree(blob.value[4..]) == Ok(root)
  {
    hide ParseFrom, FlattenNode, LegalNode, Encode, InsertAll;
    rs := AcceptedIsEncoded(data, 0, EmptyRoot());
    EmptyIsLegal();
    InsertAllLegal(EmptyRoot(), rs);
    var root := ParseTree(data).value;
    SerializeLegal(root);
    RoundTripIff(root);
    SameRecordsSameLength(Records([], root.children), rs);
  }
}
