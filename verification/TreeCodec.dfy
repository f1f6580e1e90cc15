/**
 The TuwaiqFS tree payload: one record per file or directory, parents before
 descendants. `FlattenNode` and `ParseFrom` are the specifications of the two
 loops `FlattenTree` and `DeserializeTree`.
 */
module TreeCodec {
  import opened Prelude
  import opened Text

  datatype FsNode = File(content: seq<byte>) | Dir(children: seq<Child>)
  datatype Child = Child(name: Str, node: FsNode)

  const TREE_MAGIC: seq<byte> := [0x54, 0x52, 0x45, 0x45]
  const MAX_FILE_SIZE := 0xFFFF
  const MAX_NODE_COUNT := 1024
  const MAX_RECORD_PATH := 120
  const MAX_COMPONENT := 64

  function EmptyRoot(): FsNode { Dir([]) }

  // ---- Writing ----

  function JoinPath(base: Str, name: Str): Str {
    if base == [] then name else base + [SLASH] + name
  }

  /** The bytes of one record; `node` is a file or stands for its own directory. */
  function RecordBytes(path: Str, node: FsNode): (r: seq<byte>)
    requires |path| < 256
    requires node.File? ==> |node.content| <= MAX_FILE_SIZE
  {
    match node
    case File(content) => [1, |path|] + path + ToLe(|content|, 2) + content
    case Dir(_) => [2, |path|] + path
  }

  function WriteRecord(path: Str, node: FsNode): Result<seq<byte>> {
    if path == [] || |path| > MAX_RECORD_PATH then Err
    else if node.File? && |node.content| > MAX_FILE_SIZE then Err
    else Ok(RecordBytes(path, node))
  }

  function Append(a: Result<seq<byte>>, b: Result<seq<byte>>): Result<seq<byte>> {
    if a.Ok? && b.Ok? then Ok(a.value + b.value) else Err
  }

  function FlattenNode(path: Str, node: FsNode): Result<seq<byte>>
    decreases node, 1
  {
    match node
    case File(_) => WriteRecord(path, node)
    case Dir(children) =>
      Append(if path == [] then Ok([]) else WriteRecord(path, node), FlattenChildren(path, children))
  }

  function FlattenChildren(path: Str, children: seq<Child>): Result<seq<byte>>
    decreases children, 0
  {
    if children == [] then Ok([])
    else Append(FlattenNode(JoinPath(path, children[0].name), children[0].node),
                FlattenChildren(path, children[1..]))
  }

  function SerializeTree(root: FsNode): Result<seq<byte>> {
    Append(Ok(TREE_MAGIC), FlattenNode([], root))
  }

  lemma AppendAssoc(a: Result<seq<byte>>, b: Result<seq<byte>>, c: Result<seq<byte>>)
    ensures Append(Append(a, b), c) == Append(a, Append(b, c))
    ensures Append(a, Ok([])) == a && Append(Ok([]), a) == a
  {
    if a.Ok? && b.Ok? && c.Ok? {
      assert (a.value + b.value) + c.value == a.value + (b.value + c.value);
    }
    if a.Ok? {
      assert a.value + [] == a.value && [] + a.value == a.value;
    }
  }

  method FlattenTree(path: Str, node: FsNode, out: seq<byte>) returns (r: Result<seq<byte>>)
    ensures r == Append(Ok(out), FlattenNode(path, node))
    decreases node
  {
    match node
    case File(_) =>
      r := Append(Ok(out), WriteRecord(path, node));
    case Dir(children) =>
      ghost var head := if path == [] then Ok([]) else WriteRecord(path, node);
      AppendAssoc(Ok(out), head, FlattenChildren(path, children));
      r := Ok(out);
      if path != [] {
        r := Append(r, WriteRecord(path, node));
        if r.Err? { return; }
      }
      for i := 0 to |children|
        invariant r.Ok?
        invariant Append(r, FlattenChildren(path, children[i..])) == Append(Ok(out), FlattenNode(path, node))
      {
        var child := children[i];
        assert children[i..][0] == child && children[i..][1..] == children[i + 1..];
        AppendAssoc(r, FlattenNode(JoinPath(path, child.name), child.node), FlattenChildren(path, children[i + 1..]));
        r := FlattenTree(JoinPath(path, child.name), child.node, r.value);
        if r.Err? { return; }
      }
      AppendAssoc(r, Ok([]), Ok([]));
  }

  // ---- Reading ----

  predicate ValidMetadataPath(path: Str) {
    && path != [] && |path| <= MAX_RECORD_PATH
    && path[0] != SLASH && path[|path| - 1] != SLASH
    && BACKSLASH !in path
    && (forall i :: 0 <= i < |path| ==> path[i] >= 0x20)
    && (forall i :: 0 <= i < |Split(path)| ==> ValidComponent(Split(path)[i]))
  }

  predicate ValidComponent(component: Str) {
    component != [] && component != DOT && component != DOT_DOT && |component| <= MAX_COMPONENT
  }

  predicate AcceptedPath(path: Str) { ValidUtf8(path) && ValidMetadataPath(path) }

  datatype Decoded = Decoded(path: Str, leaf: FsNode, used: nat)

  /** The record at the front of `data`. */
  function DecodeRecord(data: seq<byte>): (r: Result<Decoded>)
    ensures r.Ok? ==> 2 <= r.value.used <= |data|
  {
    if |data| < 2 then Err
    else
      var kind, pathEnd := data[0], 2 + data[1] as int;
      if pathEnd > |data| then Err
      else
        var path := data[2..pathEnd];
        if !AcceptedPath(path) then Err
        else if kind == 1 then
          if pathEnd + 2 > |data| then Err
          else
            var end := pathEnd + 2 + FromLe(data[pathEnd..pathEnd + 2]);
            if end > |data| then Err
            else Ok(Decoded(path, File(data[pathEnd + 2..end]), end))
        else if kind == 2 then Ok(Decoded(path, Dir([]), pathEnd))
        else Err
  }

  /** Position of the first child called `name`. */
  function Find(children: seq<Child>, name: Str): (i: nat)
    ensures i <= |children|
    ensures i < |children| ==> children[i].name == name
    ensures forall j :: 0 <= j < i ==> children[j].name != name
  {
    if children == [] then 0
    else if children[0].name == name then 0
    else 1 + Find(children[1..], name)
  }

  function Insert(node: FsNode, parts: seq<Str>, leaf: FsNode): Result<FsNode>
    requires parts != []
    decreases |parts|
  {
    match node
    case File(_) => Err
    case Dir(children) =>
      var pos := Find(children, parts[0]);
      if |parts| == 1 then
        if pos < |children| then Err else Ok(Dir(children + [Child(parts[0], leaf)]))
      else if pos == |children| then Err
      else
        var below := Insert(children[pos].node, parts[1..], leaf);
        if below.Err? then Err else Ok(Dir(children[pos := Child(parts[0], below.value)]))
  }

  function InsertAtPath(root: FsNode, path: Str, leaf: FsNode): Result<FsNode> {
    var parts := NonEmpty(Split(path));
    if parts == [] then Ok(root) else Insert(root, parts, leaf)
  }

  function ParseFrom(data: seq<byte>, count: nat, root: FsNode): Result<FsNode>
    decreases |data|
  {
    if data == [] then Ok(root)
    else if count + 1 > MAX_NODE_COUNT then Err
    else
      var record := DecodeRecord(data);
      if record.Err? then Err
      else
        var grown := InsertAtPath(root, record.value.path, record.value.leaf);
        if grown.Err? then Err else ParseFrom(data[record.value.used..], count + 1, grown.value)
  }

  /** The tree a payload without its magic stands for. */
  function ParseTree(data: seq<byte>): Result<FsNode> { ParseFrom(data, 0, EmptyRoot()) }

  /** The record that starts at `offset`. */
  method ReadRecord(data: seq<byte>, offset: nat) returns (r: Result<Decoded>)
    requires offset < |data|
    ensures r == DecodeRecord(data[offset..])
  {
    hide AcceptedPath, FromLe;
    ghost var rest := data[offset..];
    if offset + 2 > |data| { return Err; }
    var kind, pathLength := data[offset], data[offset + 1];
    var at := offset + 2;
    if at + pathLength > |data| { return Err; }
    var path := data[at..at + pathLength];
    assert rest[2..2 + pathLength] == path;
    if !AcceptedPath(path) { return Err; }
    at := at + pathLength;
    if kind == 1 {
      if at + 2 > |data| { return Err; }
      assert rest[2 + pathLength..2 + pathLength + 2] == data[at..at + 2];
      var contentLength := FromLe(data[at..at + 2]);
      at := at + 2;
      if at + contentLength > |data| { return Err; }
      assert rest[at - offset..at - offset + contentLength] == data[at..at + contentLength];
      return Ok(Decoded(path, File(data[at..at + contentLength]), at + contentLength - offset));
    }
    if kind == 2 { return Ok(Decoded(path, Dir([]), at - offset)); }
    return Err;
  }

  method DeserializeTree(data: seq<byte>) returns (r: Result<FsNode>)
    ensures r == ParseTree(data)
  {
    hide DecodeRecord, InsertAtPath;
    var root, offset, count := EmptyRoot(), 0, 0;
    while offset < |data|
      invariant 0 <= offset <= |data| && count >= 0
      invariant ParseFrom(data[offset..], count, root) == ParseTree(data)
    {
      count := count + 1;
      if count > MAX_NODE_COUNT { return Err; }
      var record := ReadRecord(data, offset);
      if record.Err? { return Err; }
      var Decoded(path, leaf, used) := record.value;
      var grown := InsertAtPath(root, path, leaf);
      if grown.Err? { return Err; }
      assert data[offset..][used..] == data[offset + used..];
      root, offset := grown.value, offset + used;
    }
    r := Ok(root);
  }
}
