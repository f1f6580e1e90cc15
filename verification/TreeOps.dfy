/**
 The in-memory tree operations of the root filesystem. Each one refines an update
 at a single key of the map from path to entry: create, write and remove change
 what is found at the named path and nowhere else, and touch only the parent's
 child list.
 */
module TreeOps {
  import opened Prelude
  import opened Text
  import opened TreeCodec
  import opened TreeCodecProofs
  import opened TreeCodecAccepted

  datatype Edit = CreateFile | CreateDir | WriteFile(bytes: seq<byte>) | Remove

  // ---- What the code does ----

  /** `split_absolute_path`. */
  function SplitAbsolute(path: Str): Result<seq<Str>> {
    if path == [] || path[0] != SLASH then Err else Ok(NonEmpty(Split(path)))
  }

  function Lookup(node: FsNode, parts: seq<Str>): Result<FsNode>
    decreases |parts|
  {
    if parts == [] then Ok(node)
    else
      var child := ChildOf(node, parts[0]);
      if child.None? then Err else Lookup(child.value, parts[1..])
  }

  /** `find_child`: the first child with that name, if `node` is a directory. */
  function ChildOf(node: FsNode, name: Str): Option<FsNode> {
    if node.File? then None
    else
      var pos := Find(node.children, name);
      if pos == |node.children| then None else Some(node.children[pos].node)
  }

  function EditChildren(children: seq<Child>, name: Str, e: Edit): Result<seq<Child>> {
    var pos := Find(children, name);
    var present := pos < |children|;
    match e
    case CreateFile => if present then Err else Ok(children + [Child(name, File([]))])
    case CreateDir => if present then Err else Ok(children + [Child(name, Dir([]))])
    case WriteFile(bytes) =>
      if |bytes| > MAX_FILE_SIZE then Err
      else if !present then Ok(children + [Child(name, File(bytes))])
      else if children[pos].node.Dir? then Err
      else Ok(children[pos := Child(name, File(bytes))])
    case Remove =>
      if !present then Err
      else if children[pos].node.Dir? && children[pos].node.children != [] then Err
      else Ok(children[..pos] + children[pos + 1..])
  }

  /** Walk to the parent directory and edit its child list. */
  function EditAt(node: FsNode, parent: seq<Str>, name: Str, e: Edit): Result<FsNode>
    decreases |parent|
  {
    if node.File? then Err
    else if parent == [] then
      var edited := EditChildren(node.children, name, e);
      if edited.Err? then Err else Ok(Dir(edited.value))
    else
      var pos := Find(node.children, parent[0]);
      if pos == |node.children| then Err
      else
        var below := EditAt(node.children[pos].node, parent[1..], name, e);
        if below.Err? then Err else Ok(Dir(node.children[pos := Child(parent[0], below.value)]))
  }

  function EditPath(root: FsNode, path: Str, e: Edit): Result<FsNode> {
    var parts := SplitAbsolute(path);
    if parts.Err? || parts.value == [] then Err
    else EditAt(root, parts.value[..|parts.value| - 1], parts.value[|parts.value| - 1], e)
  }

  class FileSystem {
    var root: FsNode

    method EntryAt(parts: seq<Str>) returns (r: Result<FsNode>)
      ensures r == Lookup(root, parts)
    {
      var node := root;
      for i := 0 to |parts|
        invariant Lookup(node, parts[i..]) == Lookup(root, parts)
      {
        assert parts[i..][1..] == parts[i + 1..];
        var child := ChildOf(node, parts[i]);
        if child.None? { return Err; }
        node := child.value;
      }
      r := Ok(node);
    }

    /**
     One of `create_file_at`, `create_dir_at`, `write_at`, `remove_at`: walks down to the parent directory,
     edits its child list, and puts the edited directory back into the ones above it.
     */
    method Mutate(path: Str, e: Edit) returns (ok: bool)
      modifies this
      ensures ok <==> Permitted(old(root), path, e)
      ensures ok ==> EditPath(old(root), path, e) == Ok(root)
      ensures ok && DistinctBelow(old(root)) ==> Updated(old(root), root, SplitAbsolute(path).value, e)
      ensures !ok ==> root == old(root)
    {
      hide View, Listing, Lookup, EditChildren, Updated, DistinctBelow, Allowed, EditAt;
      var split := SplitAbsolute(path);
      if split.Err? || split.value == [] { return false; }
      var parts := split.value;
      var parent, name := parts[..|parts| - 1], parts[|parts| - 1];
      assert parent + [name] == parts;
      EditAllowedIff(root, parent, name, e);
      var node: FsNode, spine: seq<Level> := root, [];
      PlugNone(EditAt(root, parent, name, e));
      for i := 0 to |parent|
        invariant root == old(root)
        invariant PlugResult(spine, EditAt(node, parent[i..], name, e)) == EditAt(root, parent, name, e)
      {
        EditStep(node, parent[i..], name, e);
        PlugErr(spine);
        assert parent[i..][1..] == parent[i + 1..] && parent[i..][0] == parent[i];
        if node.File? { return false; }
        var pos := Find(node.children, parent[i]);
        if pos == |node.children| { return false; }
        PlugMore(spine, Level(node.children, pos), EditAt(node.children[pos].node, parent[i + 1..], name, e));
        spine, node := spine + [Level(node.children, pos)], node.children[pos].node;
      }
      EditStep(node, parent[|parent|..], name, e);
      PlugErr(spine);
      if node.File? { return false; }
      var edited := EditChildren(node.children, name, e);
      if edited.Err? { return false; }
      node := Dir(edited.value);
      PlugOk(spine, node);
      ghost var whole := Plug(spine, node);
      for k := |spine| downto 0
        invariant root == old(root) && Plug(spine[..k], node) == whole
      {
        assert spine[..k + 1][..k] == spine[..k];
        node := Lift(spine[k], node);
      }
      root := node;
      if DistinctBelow(old(root)) { EditUpdates(old(root), parent, name, e); }
      ok := true;
    }
  }

  // ---- Walking down and putting back ----

  /** A directory passed on the way down, and which of its children was entered. */
  datatype Level = Level(children: seq<Child>, pos: nat)

  function Lift(l: Level, node: FsNode): FsNode {
    if l.pos < |l.children| then Dir(l.children[l.pos := Child(l.children[l.pos].name, node)]) else node
  }

  function LiftResult(l: Level, r: Result<FsNode>): Result<FsNode> {
    if r.Err? then Err else Ok(Lift(l, r.value))
  }

  function AsDir(r: Result<seq<Child>>): Result<FsNode> { if r.Err? then Err else Ok(Dir(r.value)) }

  /** The tree around `node`, the innermost level last. */
  function Plug(spine: seq<Level>, node: FsNode): FsNode {
    if spine == [] then node else Plug(spine[..|spine| - 1], Lift(spine[|spine| - 1], node))
  }

  function PlugResult(spine: seq<Level>, r: Result<FsNode>): Result<FsNode> {
    if r.Err? then Err else Ok(Plug(spine, r.value))
  }

  lemma PlugNone(r: Result<FsNode>)
    ensures PlugResult([], r) == r
  {
  }

  lemma PlugErr(spine: seq<Level>)
    ensures PlugResult(spine, Err) == Err
  {
  }

  lemma PlugOk(spine: seq<Level>, node: FsNode)
    ensures PlugResult(spine, Ok(node)) == Ok(Plug(spine, node)) && spine[..|spine|] == spine
  {
  }

  lemma PlugMore(spine: seq<Level>, l: Level, r: Result<FsNode>)
    ensures PlugResult(spine + [l], r) == PlugResult(spine, LiftResult(l, r))
  {
    assert (spine + [l])[..|spine|] == spine;
  }

  /** The edit below the child the walk enters, if there is one. */
  function EditBelow(children: seq<Child>, parent: seq<Str>, name: Str, e: Edit): Result<FsNode>
    requires parent != []
  {
    var pos := Find(children, parent[0]);
    if pos == |children| then Err
    else LiftResult(Level(children, pos), EditAt(children[pos].node, parent[1..], name, e))
  }

  /** One step of the walk, as the edit of a path describes it. */
  lemma EditStep(node: FsNode, parent: seq<Str>, name: Str, e: Edit)
    ensures node.File? ==> EditAt(node, parent, name, e) == Err
    ensures node.Dir? && parent == [] ==> EditAt(node, parent, name, e) == AsDir(EditChildren(node.children, name, e))
    ensures node.Dir? && parent != [] ==>
              EditAt(node, parent, name, e) == EditBelow(node.children, parent, name, e)
  {
    hide EditChildren;
  }

  /** The edit of this path is allowed, judged from the map from path to entry. */
  predicate Permitted(root: FsNode, path: Str, e: Edit) {
    var parts := SplitAbsolute(path);
    parts.Ok? && parts.value != []
    && Allowed(root, parts.value[..|parts.value| - 1], parts.value[|parts.value| - 1], e)
  }

  /** The map changed at `parts`, the parent's listing as the edit says, and nothing else did. */
  ghost predicate Updated(before: FsNode, after: FsNode, parts: seq<Str>, e: Edit) {
    && parts != []
    && var parent, name := parts[..|parts| - 1], parts[|parts| - 1];
    && Listing(before, parent).Some?
    && Listing(after, parent) == Some(Relisted(Listing(before, parent).value, name, e))
    && (forall q :: View(after, q) == if q == parts then Written(e) else View(before, q))
    && (forall q :: q != parent && q != parts ==> Listing(after, q) == Listing(before, q))
  }

  lemma EditUpdates(node: FsNode, parent: seq<Str>, name: Str, e: Edit)
    requires DistinctBelow(node) && EditAt(node, parent, name, e).Ok?
    ensures Updated(node, EditAt(node, parent, name, e).value, parent + [name], e)
  {
    hide View, Listing, EditAt, Relisted, DistinctBelow;
    var parts := parent + [name];
    assert parts[..|parts| - 1] == parent && parts[|parts| - 1] == name;
    EditListing(node, parent, name, e, parent);
    forall q ensures View(EditAt(node, parent, name, e).value, q) == if q == parts then Written(e) else View(node, q) {
      EditIsUpdate(node, parent, name, e, q);
    }
    forall q | q != parent && q != parts ensures Listing(EditAt(node, parent, name, e).value, q) == Listing(node, q) {
      EditListing(node, parent, name, e, q);
    }
  }

  // ---- The abstract view: a map from path to entry ----

  datatype Entry = FileEntry(content: seq<byte>) | DirEntry

  function View(root: FsNode, path: seq<Str>): Option<Entry> {
    var found := Lookup(root, path);
    if found.Err? then None
    else if found.value.File? then Some(FileEntry(found.value.content))
    else Some(DirEntry)
  }

  /** The names listed by a directory, in order. */
  function Listing(root: FsNode, path: seq<Str>): Option<seq<Str>> {
    var found := Lookup(root, path);
    if found.Err? || found.value.File? then None else Some(Names(found.value.children))
  }

  function Names(children: seq<Child>): (names: seq<Str>)
    ensures |names| == |children|
    ensures forall i :: 0 <= i < |names| ==> names[i] == children[i].name
  {
    seq(|children|, i requires 0 <= i < |children| => children[i].name)
  }

  /** What stands at the named path afterwards. */
  function Written(e: Edit): Option<Entry> {
    match e
    case CreateFile => Some(FileEntry([]))
    case CreateDir => Some(DirEntry)
    case WriteFile(bytes) => Some(FileEntry(bytes))
    case Remove => None
  }

  /** The parent's listing afterwards. */
  function Relisted(names: seq<Str>, name: Str, e: Edit): seq<Str> {
    if e.Remove? then Without(names, name) else if name in names then names else names + [name]
  }

  function Without(names: seq<Str>, name: Str): seq<Str> {
    if names == [] then []
    else if names[0] == name then names[1..]
    else [names[0]] + Without(names[1..], name)
  }

  /** When an edit is allowed, in terms of the view alone. */
  predicate Allowed(root: FsNode, parent: seq<Str>, name: Str, e: Edit) {
    var path := parent + [name];
    && View(root, parent) == Some(DirEntry)
    && match e
       case CreateFile => View(root, path).None?
       case CreateDir => View(root, path).None?
       case WriteFile(bytes) => |bytes| <= MAX_FILE_SIZE && View(root, path) != Some(DirEntry)
       case Remove => View(root, path).Some? && (Listing(root, path).Some? ==> Listing(root, path).value == [])
  }

  // ---- One directory ----

  lemma EditedChild(children: seq<Child>, name: Str, e: Edit, x: Str)
    requires DistinctNames(children) && EditChildren(children, name, e).Ok?
    ensures var after := Dir(EditChildren(children, name, e).value);
            && (x != name ==> ChildOf(after, x) == ChildOf(Dir(children), x))
            && (x == name ==> match e
                              case CreateFile => ChildOf(after, x) == Some(File([]))
                              case CreateDir => ChildOf(after, x) == Some(Dir([]))
                              case WriteFile(bytes) => ChildOf(after, x) == Some(File(bytes))
                              case Remove => ChildOf(after, x) == None)
  {
    var pos, after := Find(children, name), EditChildren(children, name, e).value;
    if e.Remove? {
      RemovedChild(children, pos, x);
    } else if pos < |children| {
      ReplacedChild(children, pos, after[pos].node, x);
    } else {
      AppendedChild(children, after[|children|], x);
    }
  }

  /** The position of a name is where it stands, if it stands nowhere earlier. */
  lemma FindIs(children: seq<Child>, name: Str, pos: nat)
    requires pos <= |children| && (pos < |children| ==> children[pos].name == name)
    requires forall j :: 0 <= j < pos ==> children[j].name != name
    ensures Find(children, name) == pos
  {}

  lemma AppendedChild(children: seq<Child>, c: Child, x: Str)
    requires Find(children, c.name) == |children|
    ensures ChildOf(Dir(children + [c]), x) == if x == c.name then Some(c.node) else ChildOf(Dir(children), x)
  {
    var pos := Find(children, x);
    FindIs(children + [c], x, if pos == |children| && x != c.name then pos + 1 else pos);
  }

  lemma ReplacedChild(children: seq<Child>, pos: nat, node: FsNode, x: Str)
    requires pos < |children| && Find(children, children[pos].name) == pos
    ensures ChildOf(Dir(children[pos := Child(children[pos].name, node)]), x)
         == if x == children[pos].name then Some(node) else ChildOf(Dir(children), x)
  {
    FindIs(children[pos := Child(children[pos].name, node)], x, Find(children, x));
  }

  lemma RemovedChild(children: seq<Child>, pos: nat, x: Str)
    requires pos < |children| && DistinctNames(children)
    ensures ChildOf(Dir(children[..pos] + children[pos + 1..]), x)
         == if x == children[pos].name then None else ChildOf(Dir(children), x)
  {
    var after, at := children[..pos] + children[pos + 1..], Find(children, x);
    FindIs(after, x, if x == children[pos].name then |after| else if at > pos then at - 1 else at);
  }

  // ---- The whole tree ----

  lemma ViewStep(node: FsNode, path: seq<Str>)
    requires path != []
    ensures var child := ChildOf(node, path[0]);
            && Lookup(node, path) == (if child.None? then Err else Lookup(child.value, path[1..]))
            && View(node, path) == (if child.None? then None else View(child.value, path[1..]))
            && Listing(node, path) == (if child.None? then None else Listing(child.value, path[1..]))
  {}

  /** Below a file or an empty directory there is nothing. */
  lemma NothingBelow(node: FsNode, path: seq<Str>)
    requires path != [] && (node.Dir? ==> node.children == [])
    ensures View(node, path) == None && Listing(node, path) == None
  {}

  /** An edit is a map update at one key. */
  lemma {:induction false} EditIsUpdate(node: FsNode, parent: seq<Str>, name: Str, e: Edit, q: seq<Str>)
    requires DistinctBelow(node) && EditAt(node, parent, name, e).Ok?
    ensures View(EditAt(node, parent, name, e).value, q)
         == if q == parent + [name] then Written(e) else View(node, q)
    decreases |parent|
  {
    hide View, Lookup;
    var after := EditAt(node, parent, name, e).value;
    if q == [] {
      RootView(node);
      RootView(after);
    } else if parent == [] {
      EditHere(node.children, name, e, q);
    } else {
      var pos := Find(node.children, parent[0]);
      ReplacedChild(node.children, pos, after.children[pos].node, q[0]);
      ViewStep(node, q);
      ViewStep(after, q);
      if q[0] == parent[0] {
        EditIsUpdate(node.children[pos].node, parent[1..], name, e, q[1..]);
        assert q == parent + [name] <==> q[1..] == parent[1..] + [name] by {
          assert (parent + [name])[1..] == parent[1..] + [name];
          assert q == [q[0]] + q[1..];
          assert parent + [name] == [parent[0]] + (parent[1..] + [name]);
        }
      } else {
        assert (parent + [name])[0] == parent[0];
      }
    }
  }

  lemma RootView(node: FsNode)
    ensures View(node, []) == Some(if node.File? then FileEntry(node.content) else DirEntry)
  {}

  lemma EditHere(children: seq<Child>, name: Str, e: Edit, q: seq<Str>)
    requires DistinctNames(children) && EditChildren(children, name, e).Ok? && q != []
    ensures View(Dir(EditChildren(children, name, e).value), q)
         == if q == [name] then Written(e) else View(Dir(children), q)
  {
    hide View, Lookup, ChildOf;
    var after := Dir(EditChildren(children, name, e).value);
    EditedChild(children, name, e, q[0]);
    ViewStep(Dir(children), q);
    ViewStep(after, q);
    if q[0] == name {
      var child := ChildOf(after, name);
      if q[1..] == [] {
        assert q == [name];
        if child.Some? { RootView(child.value); }
      } else {
        if child.Some? { NothingBelow(child.value, q[1..]); }
        ReplacedHadNothing(children, name, e, q[1..]);
      }
    }
  }

  lemma ReplacedHadNothing(children: seq<Child>, name: Str, e: Edit, rest: seq<Str>)
    requires EditChildren(children, name, e).Ok? && rest != []
    ensures var child := ChildOf(Dir(children), name);
            child.None? || View(child.value, rest) == None
  {
    var child := ChildOf(Dir(children), name);
    if child.Some? { NothingBelow(child.value, rest); }
  }

  /** Only the parent's listing changes, besides the entry itself. */
  lemma {:induction false} EditListing(node: FsNode, parent: seq<Str>, name: Str, e: Edit, q: seq<Str>)
    requires DistinctBelow(node) && EditAt(node, parent, name, e).Ok?
    ensures Listing(node, parent).Some?
    ensures Listing(EditAt(node, parent, name, e).value, q)
         == if q == parent then Some(Relisted(Listing(node, parent).value, name, e))
            else if q == parent + [name] then (if e.CreateDir? then Some([]) else None)
            else Listing(node, q)
    decreases |parent|
  {
    hide Listing, Lookup, Names;
    var after := EditAt(node, parent, name, e).value;
    if parent == [] {
      RootListing(node);
      RootListing(after);
      if q == [] {
        RelistedHere(node.children, name, e);
      } else {
        ListHere(node.children, name, e, q);
      }
    } else {
      var pos := Find(node.children, parent[0]);
      var child := node.children[pos].node;
      ViewStep(node, parent);
      EditListing(child, parent[1..], name, e, if q == [] then [] else q[1..]);
      if q == [] {
        RootListing(node);
        RootListing(after);
        SameNames(node.children, pos, after.children[pos].node);
      } else {
        ReplacedChild(node.children, pos, after.children[pos].node, q[0]);
        ViewStep(node, q);
        ViewStep(after, q);
        Tails(parent, name, q);
      }
    }
  }

  lemma Tails(parent: seq<Str>, name: Str, q: seq<Str>)
    requires parent != [] && q != []
    ensures q == parent <==> q[0] == parent[0] && q[1..] == parent[1..]
    ensures q == parent + [name] <==> q[0] == parent[0] && q[1..] == parent[1..] + [name]
  {
    assert q == [q[0]] + q[1..] && parent == [parent[0]] + parent[1..];
    assert parent + [name] == [parent[0]] + (parent[1..] + [name]);
  }

  lemma RootListing(node: FsNode)
    ensures Listing(node, []) == if node.File? then None else Some(Names(node.children))
  {}

  lemma SameNames(children: seq<Child>, pos: nat, node: FsNode)
    requires pos < |children|
    ensures Names(children[pos := Child(children[pos].name, node)]) == Names(children)
  {}

  lemma ListHere(children: seq<Child>, name: Str, e: Edit, q: seq<Str>)
    requires DistinctNames(children) && EditChildren(children, name, e).Ok? && q != []
    ensures Listing(Dir(EditChildren(children, name, e).value), q)
         == if q == [name] then (if e.CreateDir? then Some([]) else None) else Listing(Dir(children), q)
  {
    hide Listing, Lookup, ChildOf;
    var after := Dir(EditChildren(children, name, e).value);
    EditedChild(children, name, e, q[0]);
    ViewStep(Dir(children), q);
    ViewStep(after, q);
    if q[0] == name {
      var child := ChildOf(after, name);
      if q[1..] == [] {
        assert q == [name];
        if child.Some? { RootListing(child.value); }
      } else {
        if child.Some? { NothingBelow(child.value, q[1..]); }
        NoListingBelow(children, name, e, q[1..]);
      }
    }
  }

  lemma NoListingBelow(children: seq<Child>, name: Str, e: Edit, rest: seq<Str>)
    requires EditChildren(children, name, e).Ok? && rest != []
    ensures var child := ChildOf(Dir(children), name);
            child.None? || Listing(child.value, rest) == None
  {
    var child := ChildOf(Dir(children), name);
    if child.Some? { NothingBelow(child.value, rest); }
  }

  lemma RelistedHere(children: seq<Child>, name: Str, e: Edit)
    requires EditChildren(children, name, e).Ok?
    ensures Names(EditChildren(children, name, e).value) == Relisted(Names(children), name, e)
  {
    hide Without;
    var pos := Find(children, name);
    var names, after := Names(children), EditChildren(children, name, e).value;
    if e.Remove? {
      WithoutAt(names, name, pos);
      assert after == children[..pos] + children[pos + 1..];
      assert Names(after) == names[..pos] + names[pos + 1..];
    } else if pos < |children| {
      assert names[pos] == name;
      assert Names(after) == names;
    } else {
      assert name !in names;
      assert Names(after) == names + [name];
    }
  }

  lemma {:induction false} WithoutAt(names: seq<Str>, name: Str, pos: nat)
    requires pos < |names| && names[pos] == name
    requires forall j :: 0 <= j < pos ==> names[j] != name
    ensures Without(names, name) == names[..pos] + names[pos + 1..]
  {
    if pos != 0 { WithoutAt(names[1..], name, pos - 1); }
  }

  /** An edit succeeds exactly when the view allows it. */
  lemma {:induction false} EditAllowedIff(node: FsNode, parent: seq<Str>, name: Str, e: Edit)
    ensures EditAt(node, parent, name, e).Ok? <==> Allowed(node, parent, name, e)
    decreases |parent|
  {
    hide View, Listing, Lookup;
    if parent == [] {
      assert [] + [name] == [name];
      AllowedHere(node, name, e);
    } else {
      ViewStep(node, parent);
      ViewStep(node, parent + [name]);
      assert (parent + [name])[1..] == parent[1..] + [name];
      var child := ChildOf(node, parent[0]);
      if child.Some? {
        EditAllowedIff(child.value, parent[1..], name, e);
      }
    }
  }

  lemma AllowedHere(node: FsNode, name: Str, e: Edit)
    ensures EditAt(node, [], name, e).Ok? <==> Allowed(node, [], name, e)
  {
    hide View, Listing, Lookup;
    var parent: seq<Str> := [];
    assert parent + [name] == [name];
    assert [name][1..] == [];
    RootView(node);
    ViewStep(node, [name]);
    var child := ChildOf(node, name);
    if child.Some? {
      RootView(child.value);
      RootListing(child.value);
      assert child.value.Dir? ==> (|Names(child.value.children)| == 0 <==> child.value.children == []);
    }
  }

  /** Edits at legal paths keep the tree one that can be written and read back. */
  lemma {:induction false} EditLegal(prefix: seq<Str>, node: FsNode, parent: seq<Str>, name: Str, e: Edit)
    requires LegalNode(prefix, node) && LegalParts(prefix + parent + [name])
    requires EditAt(node, parent, name, e).Ok?
    ensures LegalNode(prefix, EditAt(node, parent, name, e).value)
    decreases |parent|
  {
    hide LegalName, Join;
    var children := node.children;
    if parent == [] {
      assert prefix + parent + [name] == prefix + [name];
      assert (prefix + [name])[|prefix|] == name;
      EditHereLegal(prefix, children, name, e);
    } else {
      var pos := Find(children, parent[0]);
      var path := prefix + [parent[0]];
      assert path + parent[1..] + [name] == prefix + parent + [name];
      assert LegalNode(path, children[pos].node);
      EditLegal(path, children[pos].node, parent[1..], name, e);
      ReplaceLegal(prefix, children, pos, EditAt(children[pos].node, parent[1..], name, e).value);
    }
  }

  lemma EditHereLegal(prefix: seq<Str>, children: seq<Child>, name: Str, e: Edit)
    requires LegalNode(prefix, Dir(children)) && EditChildren(children, name, e).Ok?
    requires LegalName(name) && |Join(prefix + [name])| <= MAX_RECORD_PATH
    ensures LegalNode(prefix, Dir(EditChildren(children, name, e).value))
  {
    hide LegalName, Join;
    var pos, after := Find(children, name), EditChildren(children, name, e).value;
    if e.Remove? {
      RemoveLegal(prefix, children, pos);
    } else if pos < |children| {
      ReplaceLegal(prefix, children, pos, after[pos].node);
    } else {
      AppendLegal(prefix, children, after[|children|]);
    }
  }

  lemma RemoveLegal(prefix: seq<Str>, children: seq<Child>, pos: nat)
    requires LegalNode(prefix, Dir(children)) && pos < |children|
    ensures LegalNode(prefix, Dir(children[..pos] + children[pos + 1..]))
  {
    hide LegalName, Join;
    var after := children[..pos] + children[pos + 1..];
    forall i | 0 <= i < |after| ensures after[i] == children[if i < pos then i else i + 1] {}
  }
}
