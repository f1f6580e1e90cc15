/**
 Where paths lead. Mount selection works on whole components, mutations by a Ring 3
 process stay below its own `/data/<name>`, and every path the policy lets through
 keeps the stored tree legal.
 */
module Confinement {
  import opened Prelude
  import opened Text
  import opened TreeCodec
  import opened TreeCodecProofs
  import opened TreeOps
  import opened Vfs

  const DATA: Str := [0x64, 0x61, 0x74, 0x61]

  /** `absolute.strip_prefix(root)` leaves a suffix that starts with '/'. */
  predicate StrictlyBelow(root: Str, absolute: Str) {
    |absolute| > |root| && absolute[..|root|] == root && absolute[|root|] == SLASH
  }

  /** `/data/<name>`. */
  function DataRoot(name: Str): Str { [SLASH] + DATA + [SLASH] + name }

  function PrivateMutationPath(cwd: Str, name: Str, path: Str, allowDataRoot: bool): Option<Str> {
    var absolute := Normalized(cwd, path);
    if absolute.Err? then None
    else if |name| > NAME_MAX || Normalized(ROOT, DataRoot(name)) != Ok(DataRoot(name)) then None
    else if StrictlyBelow(DataRoot(name), absolute.value) || (allowDataRoot && absolute.value == DataRoot(name))
    then Some(absolute.value)
    else None
  }

  /** `a` is an initial part of `b`. */
  predicate Prefix(a: seq<Str>, b: seq<Str>) { a <= b }

  // ---- String prefixes of normal paths are component prefixes ----

  lemma NormalRoot()
    ensures Normal(ROOT) && Stack(ROOT) == []
  {}

  lemma BelowIsPrefix(root: Str, absolute: Str)
    requires Normal(root) && Normal(absolute) && root != ROOT
    ensures StrictlyBelow(root, absolute) <==> Stack(root) < Stack(absolute)
    ensures StrictlyBelow(root, absolute) ==> Abs(Stack(absolute)[|Stack(root)|..]) == absolute[|root|..]
  {
    hide LegalComponent, GoodBytes, Join;
    var a, b := Stack(root), Stack(absolute);
    if a < b {
      var rest := b[|a|..];
      assert b == a + rest;
      PrefixPath(a, rest);
    }
    if StrictlyBelow(root, absolute) {
      BelowSplits(root, absolute);
    }
  }

  lemma PrefixPath(a: seq<Str>, rest: seq<Str>)
    requires a != [] && rest != []
    ensures Abs(a + rest) == Abs(a) + Abs(rest)
  {
    hide Join;
    JoinConcat(a, rest);
    var x, y := Join(a), Join(rest);
    assert [SLASH] + (x + [SLASH] + y) == ([SLASH] + x) + ([SLASH] + y);
  }

  lemma BelowSplits(root: Str, absolute: Str)
    requires Normal(root) && Normal(absolute) && root != ROOT && StrictlyBelow(root, absolute)
    ensures Stack(root) < Stack(absolute)
    ensures Abs(Stack(absolute)[|Stack(root)|..]) == absolute[|root|..]
  {
    hide LegalComponent, GoodBytes, Split;
    var x, y := root[1..], absolute[|root| + 1..];
    AbsStarts(Stack(root));
    assert absolute[1..] == x + [SLASH] + y;
    SplitConcat(x, y);
    SplitJoin(y);
    assert Stack(absolute)[|Stack(root)|..] == Split(y);
    assert absolute[|root|..] == [SLASH] + y;
  }

  // ---- Confinement of Ring 3 mutations ----

  lemma DataRootStack(name: Str)
    requires NoSlash(name) && Normal(DataRoot(name))
    ensures Stack(DataRoot(name)) == [DATA, name]
  {
    assert DataRoot(name)[1..] == DATA + [SLASH] + name;
    SplitConcat(DATA, name);
    SplitNoSlash(DATA);
    SplitNoSlash(name);
  }

  lemma DataRootNormal(name: Str)
    requires Normalized(ROOT, DataRoot(name)) == Ok(DataRoot(name))
    ensures Normal(DataRoot(name)) && DataRoot(name) != ROOT
  {
    hide Normalized, Normal;
    NormalRoot();
    NormalizeResolves(ROOT, DataRoot(name));
  }

  /** Every path a process may mutate is normal and lies below its own data root. */
  lemma MutationConfined(cwd: Str, name: Str, path: Str, allowDataRoot: bool)
    requires Normal(cwd) && PrivateMutationPath(cwd, name, path, allowDataRoot).Some?
    ensures var target := PrivateMutationPath(cwd, name, path, allowDataRoot).value;
            && Normal(target)
            && Prefix(Stack(DataRoot(name)), Stack(target))
            && (!allowDataRoot ==> Stack(DataRoot(name)) < Stack(target))
            && (NoSlash(name) ==> Prefix([DATA, name], Stack(target)))
  {
    hide Normalized, Normal, Stack, StrictlyBelow;
    NormalizeResolves(cwd, path);
    DataRootNormal(name);
    var target := Normalized(cwd, path).value;
    BelowIsPrefix(DataRoot(name), target);
    if NoSlash(name) { DataRootStack(name); }
  }

  /** Two processes with different slash-free names never share a mutation target. */
  lemma MutationsDisjoint(cwd1: Str, name1: Str, path1: Str, root1: bool,
                          cwd2: Str, name2: Str, path2: Str, root2: bool)
    requires Normal(cwd1) && Normal(cwd2) && NoSlash(name1) && NoSlash(name2) && name1 != name2
    requires PrivateMutationPath(cwd1, name1, path1, root1).Some?
    requires PrivateMutationPath(cwd2, name2, path2, root2).Some?
    ensures PrivateMutationPath(cwd1, name1, path1, root1) != PrivateMutationPath(cwd2, name2, path2, root2)
  {
    hide PrivateMutationPath, Normal;
    MutationConfined(cwd1, name1, path1, root1);
    MutationConfined(cwd2, name2, path2, root2);
    var s1 := Stack(PrivateMutationPath(cwd1, name1, path1, root1).value);
    var s2 := Stack(PrivateMutationPath(cwd2, name2, path2, root2).value);
    assert s1[1] == [DATA, name1][1] && s2[1] == [DATA, name2][1];
  }

  // ---- Which names are separated ----

  /** The name gives a data root the policy accepts. */
  predicate AcceptedName(name: Str) { |name| <= NAME_MAX && Normalized(ROOT, DataRoot(name)) == Ok(DataRoot(name)) }

  /** Both calls are granted, and for the same path. */
  predicate SameTarget(cwd1: Str, name1: Str, path1: Str, root1: bool, cwd2: Str, name2: Str, path2: Str, root2: bool) {
    && Normal(cwd1) && Normal(cwd2)
    && PrivateMutationPath(cwd1, name1, path1, root1).Some?
    && PrivateMutationPath(cwd1, name1, path1, root1) == PrivateMutationPath(cwd2, name2, path2, root2)
  }

  /** Some pair of calls by processes of these names has the same target. */
  ghost predicate Overlap(name1: Str, name2: Str) {
    exists cwd1, path1, root1, cwd2, path2, root2 :: SameTarget(cwd1, name1, path1, root1, cwd2, name2, path2, root2)
  }

  lemma PrefixesCompare(a: seq<Str>, b: seq<Str>, whole: seq<Str>)
    requires Prefix(a, whole) && Prefix(b, whole)
    ensures Prefix(a, b) || Prefix(b, a)
  {
    assert a == whole[..|a|] && b == whole[..|b|];
  }

  /** A process may mutate the data root of another whose root is at or below its own. */
  lemma DeeperRoot(name: Str, deeper: Str)
    requires AcceptedName(name) && AcceptedName(deeper) && Prefix(Stack(DataRoot(name)), Stack(DataRoot(deeper)))
    ensures PrivateMutationPath(ROOT, name, DataRoot(deeper), true) == Some(DataRoot(deeper))
  {
    hide Normalized, Normal, Stack, StrictlyBelow;
    DataRootNormal(name);
    DataRootNormal(deeper);
    BelowIsPrefix(DataRoot(name), DataRoot(deeper));
    SamePath(DataRoot(name), DataRoot(deeper));
  }

  /** Targets of two names can coincide if and only if one data root lies at or below the other. */
  lemma OverlapIff(name1: Str, name2: Str)
    requires AcceptedName(name1) && AcceptedName(name2)
    ensures Overlap(name1, name2) <==>
            (|| Prefix(Stack(DataRoot(name1)), Stack(DataRoot(name2)))
             || Prefix(Stack(DataRoot(name2)), Stack(DataRoot(name1))))
  {
    hide PrivateMutationPath, Normal, Stack, AcceptedName, Prefix;
    NormalRoot();
    var a, b := DataRoot(name1), DataRoot(name2);
    if Prefix(Stack(a), Stack(b)) {
      DeeperRoot(name1, name2);
      OwnRoot(name2);
      assert SameTarget(ROOT, name1, b, true, ROOT, name2, b, true);
    }
    if Prefix(Stack(b), Stack(a)) {
      DeeperRoot(name2, name1);
      OwnRoot(name1);
      assert SameTarget(ROOT, name1, a, true, ROOT, name2, a, true);
    }
    if cwd1, path1, root1, cwd2, path2, root2 :| SameTarget(cwd1, name1, path1, root1, cwd2, name2, path2, root2) {
      MutationConfined(cwd1, name1, path1, root1);
      MutationConfined(cwd2, name2, path2, root2);
      PrefixesCompare(Stack(a), Stack(b), Stack(PrivateMutationPath(cwd1, name1, path1, root1).value));
    }
  }

  lemma OwnRoot(name: Str)
    requires AcceptedName(name)
    ensures PrivateMutationPath(ROOT, name, DataRoot(name), true) == Some(DataRoot(name))
  {
    DeeperRoot(name, name);
  }

  /** A name that is accepted has the components of its text. */
  lemma NameParts(name: Str, parts: seq<Str>)
    requires LegalStack(parts) && parts != [] && Join(parts) == name && |DataRoot(name)| <= PATH_MAX
    ensures Normal(DataRoot(name)) && Stack(DataRoot(name)) == [DATA] + parts
    ensures |name| <= NAME_MAX ==> AcceptedName(name)
  {
    hide Normalized, Split;
    var stack := [DATA] + parts;
    assert stack[1..] == parts;
    assert LegalComponent(DATA);
    assert Abs(stack) == DataRoot(name);
    StackAbs(stack);
    NormalRoot();
    NormalFixed(ROOT, DataRoot(name));
  }

  /** Names with a slash are not separated: "a" and "a/b" share a target. */
  lemma SlashNamesOverlap()
    ensures var a: Str, b: Str := [0x61], [0x61, SLASH, 0x62];
      AcceptedName(a) && AcceptedName(b) && Overlap(a, b)
  {
    hide AcceptedName, Overlap, Normal, Stack;
    var a: Str, b: Str := [0x61], [0x61, SLASH, 0x62];
    var x: Str, y: Str := [0x61], [0x62];
    assert Join([x]) == a;
    assert [x, y][1..] == [y];
    assert Join([x, y]) == b;
    NameParts(a, [x]);
    NameParts(b, [x, y]);
    assert [DATA] + [x] <= [DATA] + [x, y];
    OverlapIff(a, b);
  }

  // ---- Mount selection ----

  datatype Mount = Mount(path: Str, readOnly: bool)

  predicate MountMatches(mount: Str, absolute: Str) {
    mount == ROOT || absolute == mount || StrictlyBelow(mount, absolute)
  }

  /** A mount covers a path exactly when its components are a prefix of the path's. */
  lemma MatchIsPrefix(mount: Str, absolute: Str)
    requires Normal(mount) && Normal(absolute)
    ensures MountMatches(mount, absolute) <==> Prefix(Stack(mount), Stack(absolute))
  {
    hide StrictlyBelow, Normal;
    if mount == ROOT {
      NormalRoot();
    } else {
      BelowIsPrefix(mount, absolute);
      SamePath(mount, absolute);
    }
  }

  lemma SamePath(a: Str, b: Str)
    requires Normal(a) && Normal(b)
    ensures a == b <==> Stack(a) == Stack(b)
  {}

  /** Of two mounts covering a path, the one with the longer path has more components. */
  lemma LongerIsDeeper(a: Str, b: Str, absolute: Str)
    requires Normal(a) && Normal(b) && Normal(absolute)
    requires MountMatches(a, absolute) && MountMatches(b, absolute)
    ensures |a| < |b| ==> Stack(a) < Stack(b)
    ensures |a| == |b| ==> a == b
  {
    hide Normal, Stack, Abs;
    MatchIsPrefix(a, absolute);
    MatchIsPrefix(b, absolute);
    var x, y := Stack(a), Stack(b);
    NormalAbs(a);
    NormalAbs(b);
    if |x| <= |y| {
      assert y == x + y[|x|..];
      AbsMonotone(x, y[|x|..]);
    } else {
      assert x == y + x[|y|..];
      AbsMonotone(y, x[|y|..]);
    }
    if |x| == |y| {
      assert x == y;
    } else if |x| < |y| {
      StrictlyLonger(x, y);
    } else {
      StrictlyLonger(y, x);
    }
  }

  lemma NormalAbs(p: Str)
    requires Normal(p)
    ensures p == Abs(Stack(p)) && LegalStack(Stack(p))
  {}

  lemma StrictlyLonger(x: seq<Str>, y: seq<Str>)
    requires x < y && LegalStack(y)
    ensures |Abs(x)| < |Abs(y)|
  {
    hide Abs, GoodBytes;
    var c, rest := y[|x|], y[|x| + 1..];
    assert y == (x + [c]) + rest;
    AbsSnoc(x, c);
    RootAbs();
    AbsMonotone(x + [c], rest);
  }

  const MAX_MOUNTS := 8

  class MountTable {
    var mounts: seq<Mount>

    ghost predicate Valid()
      reads this
    {
      && |mounts| <= MAX_MOUNTS
      && (forall i :: 0 <= i < |mounts| ==> Normal(mounts[i].path))
      && forall i, j :: 0 <= i < j < |mounts| ==> mounts[i].path != mounts[j].path
    }

    method Register(path: Str, readOnly: bool) returns (ok: bool)
      requires Valid()
      modifies this
      ensures Valid()
      ensures ok <==> |old(mounts)| < MAX_MOUNTS && Normal(path)
                      && forall i :: 0 <= i < |old(mounts)| ==> old(mounts)[i].path != path
      ensures mounts == if ok then old(mounts) + [Mount(path, readOnly)] else old(mounts)
    {
      hide Normalized, Normal;
      if |mounts| >= MAX_MOUNTS { return false; }
      var normalized := Normalize(ROOT, path);
      NormalExactly(path);
      if normalized != Ok(path) || exists i :: 0 <= i < |mounts| && mounts[i].path == path { return false; }
      mounts := mounts + [Mount(path, readOnly)];
      ok := true;
    }

    /** The deepest mount covering the path, and what is left of the path below it. */
    method Resolve(absolute: Str) returns (r: Option<(Mount, Str)>)
      requires Valid() && Normal(absolute)
      ensures r.None? <==> forall i :: 0 <= i < |mounts| ==> !Prefix(Stack(mounts[i].path), Stack(absolute))
      ensures r.Some? ==>
                var (mount, backend) := r.value;
                && mount in mounts
                && Prefix(Stack(mount.path), Stack(absolute))
                && backend == Abs(Stack(absolute)[|Stack(mount.path)|..])
                && forall i :: 0 <= i < |mounts| && Prefix(Stack(mounts[i].path), Stack(absolute)) ==>
                     mounts[i] == mount || Stack(mounts[i].path) < Stack(mount.path)
    {
      hide Normal, Stack, Abs, MountMatches;
      var best := None;
      for i := 0 to |mounts|
        invariant best.Some? ==> best.value in mounts[..i] && MountMatches(best.value.path, absolute)
        invariant best.None? ==> forall j :: 0 <= j < i ==> !MountMatches(mounts[j].path, absolute)
        invariant best.Some? ==> forall j :: 0 <= j < i && MountMatches(mounts[j].path, absolute) ==>
                    |mounts[j].path| <= |best.value.path|
      {
        if MountMatches(mounts[i].path, absolute)
           && (best.None? || |mounts[i].path| >= |best.value.path|) {
          best := Some(mounts[i]);
        }
      }
      forall i | 0 <= i < |mounts|
        ensures MountMatches(mounts[i].path, absolute) <==> Prefix(Stack(mounts[i].path), Stack(absolute))
      {
        MatchIsPrefix(mounts[i].path, absolute);
      }
      if best.None? { return None; }
      var mount := best.value;
      MatchIsPrefix(mount.path, absolute);
      forall i | 0 <= i < |mounts| && MountMatches(mounts[i].path, absolute)
        ensures mounts[i] == mount || Stack(mounts[i].path) < Stack(mount.path)
      {
        LongerIsDeeper(mounts[i].path, mount.path, absolute);
      }
      var suffix := Suffix(mount.path, absolute);
      return Some((mount, suffix));
    }
  }

  /** A path is registered under exactly its own normal form. */
  lemma NormalExactly(path: Str)
    ensures Normalized(ROOT, path) == Ok(path) <==> Normal(path)
  {
    hide Normalized, Normal;
    NormalRoot();
    NormalizeResolves(ROOT, path);
    if Normal(path) { NormalFixed(ROOT, path); }
  }

  /** The backend path below a mount. */
  function Suffix(mount: Str, absolute: Str): (s: Str)
    requires Normal(mount) && Normal(absolute) && MountMatches(mount, absolute)
    requires Prefix(Stack(mount), Stack(absolute))
    ensures s == Abs(Stack(absolute)[|Stack(mount)|..])
  {
    SuffixIsAbs(mount, absolute);
    if mount == ROOT then absolute
    else if absolute == mount then ROOT
    else absolute[|mount|..]
  }

  lemma SuffixIsAbs(mount: Str, absolute: Str)
    requires Normal(mount) && Normal(absolute) && MountMatches(mount, absolute)
    requires Prefix(Stack(mount), Stack(absolute))
    ensures Abs(Stack(absolute)[|Stack(mount)|..])
         == if mount == ROOT then absolute else if absolute == mount then ROOT else absolute[|mount|..]
  {
    hide Stack;
    NormalRoot();
    if mount == ROOT {
      assert Stack(absolute)[0..] == Stack(absolute);
    } else if absolute == mount {
      assert Stack(absolute)[|Stack(mount)|..] == [];
    } else {
      BelowIsPrefix(mount, absolute);
    }
  }

  // ---- Paths let through keep the tree legal ----

  lemma {:induction false} ResolveUtf8(stack: seq<Str>, components: seq<Str>)
    requires forall i :: 0 <= i < |stack| ==> ValidUtf8(stack[i])
    requires forall i :: 0 <= i < |components| ==> ValidUtf8(components[i])
    ensures forall i :: 0 <= i < |Resolve(stack, components)| ==> ValidUtf8(Resolve(stack, components)[i])
    decreases |components|
  {
    hide ValidUtf8;
    if components != [] { ResolveUtf8(Turn(stack, components[0]), components[1..]); }
  }

  /** A normalized path other than "/" names a legal tree position. */
  lemma NormalizedIsLegal(cwd: Str, input: Str)
    requires Normal(cwd) && ValidUtf8(cwd) && ValidUtf8(input)
    requires Normalized(cwd, input).Ok? && Normalized(cwd, input).value != ROOT
    ensures LegalParts(Stack(Normalized(cwd, input).value))
    ensures SplitAbsolute(Normalized(cwd, input).value) == Ok(Stack(Normalized(cwd, input).value))
  {
    hide Normalized, ValidUtf8, Resolve, WithinLimits, Split, Join;
    var p := Normalized(cwd, input).value;
    NormalizeResolves(cwd, input);
    var start := if input[0] == SLASH then [] else Stack(cwd);
    var result := Resolve(start, Split(input));
    StackUtf8(cwd);
    SplitUtf8(input);
    ResolveUtf8(start, Split(input));
    InputComponents(input);
    NormalCwd(cwd);
    BufferIsStack(start, Split(input));
    StackAbs(result);
    AbsParts(result);
  }

  lemma SplitUtf8(s: Str)
    requires ValidUtf8(s)
    ensures forall i :: 0 <= i < |Split(s)| ==> ValidUtf8(Split(s)[i])
  {
    SplitJoin(s);
    Utf8Join(Split(s));
  }

  lemma StackUtf8(p: Str)
    requires Normal(p) && ValidUtf8(p)
    ensures forall i :: 0 <= i < |Stack(p)| ==> ValidUtf8(Stack(p)[i])
  {
    hide Split, Join, ValidUtf8;
    if Stack(p) != [] {
      AbsStarts(Stack(p));
      assert p == [] + [SLASH] + p[1..];
      Utf8Slash([], p[1..]);
      SplitUtf8(p[1..]);
    }
  }

  /** Any edit through a normalized path keeps the tree one that the disk format can hold. */
  lemma MutationKeepsLegal(root: FsNode, cwd: Str, input: Str, e: Edit)
    requires LegalTree(root) && Normal(cwd) && ValidUtf8(cwd) && ValidUtf8(input)
    requires Normalized(cwd, input).Ok? && EditPath(root, Normalized(cwd, input).value, e).Ok?
    ensures LegalTree(EditPath(root, Normalized(cwd, input).value, e).value)
  {
    hide Normalized, ValidUtf8, Normal, Stack, LegalNode, EditChildren;
    var p := Normalized(cwd, input).value;
    if p == ROOT {
      RootParts();
      assert false;
    }
    NormalizedIsLegal(cwd, input);
    var parts := Stack(p);
    var parent, name := parts[..|parts| - 1], parts[|parts| - 1];
    assert [] + parent + [name] == parts;
    EditLegal([], root, parent, name, e);
  }
}
