/**
 Path policy of the virtual filesystem. `Normalize` edits one string buffer in
 place; it is proved to be resolution on a stack of components clamped at the root,
 to fail exactly when a byte, a component or an intermediate length is illegal, and
 to be idempotent.
 */
module Vfs {
  import opened Prelude
  import opened Text

  const PATH_MAX := 120
  const NAME_MAX := 64
  const ROOT: Str := [0x2F]

  predicate GoodBytes(s: Str) { BACKSLASH !in s && forall i :: 0 <= i < |s| ==> s[i] >= 0x20 }

  /** `validate_component`. */
  predicate GoodComponent(c: Str) { c != [] && |c| <= NAME_MAX && c != DOT && c != DOT_DOT }

  // ---- What the code does to its buffer ----

  /** Position of the last '/'; the buffer always starts with one. */
  function LastSlash(s: Str): (i: nat)
    requires s != [] && s[0] == SLASH
    ensures i < |s| && s[i] == SLASH
    ensures forall j :: i < j < |s| ==> s[j] != SLASH
  {
    if s[|s| - 1] == SLASH then |s| - 1 else LastSlash(s[..|s| - 1])
  }

  /** One component of the input applied to the buffer. */
  function Apply(buffer: Str, c: Str): Result<Str>
    requires buffer != [] && buffer[0] == SLASH
  {
    if c == [] || c == DOT then Ok(buffer)
    else if c == DOT_DOT then
      if |buffer| > 1 then
        var separator := LastSlash(buffer);
        Ok(buffer[..if separator > 1 then separator else 1])
      else Ok(buffer)
    else if !GoodComponent(c) then Err
    else
      var separated := if buffer == ROOT then buffer else buffer + [SLASH];
      if |separated| + |c| > PATH_MAX then Err else Ok(separated + c)
  }

  function ApplyAll(buffer: Str, components: seq<Str>): Result<Str>
    requires buffer != [] && buffer[0] == SLASH
    decreases |components|
  {
    if components == [] then Ok(buffer)
    else
      var next := Apply(buffer, components[0]);
      if next.Err? then Err else ApplyAll(next.value, components[1..])
  }

  /** The checks on a working directory that a relative path is resolved against. */
  predicate GoodCwd(cwd: Str) {
    && GoodBytes(cwd)
    && (cwd == ROOT || cwd == [] || cwd[|cwd| - 1] != SLASH)
    && forall i :: 0 <= i < |NonEmpty(Split(cwd))| ==> GoodComponent(NonEmpty(Split(cwd))[i])
  }

  function Normalized(cwd: Str, input: Str): Result<Str> {
    if input == [] then Err
    else if cwd == [] || cwd[0] != SLASH || |cwd| > PATH_MAX then Err
    else if !GoodBytes(input) then Err
    else if input[0] == SLASH then ApplyAll(ROOT, Split(input))
    else if !GoodCwd(cwd) then Err
    else ApplyAll(cwd, Split(input))
  }

  method Normalize(cwd: Str, input: Str) returns (r: Result<Str>)
    ensures r == Normalized(cwd, input)
  {
    if input == [] { return Err; }
    if cwd == [] || cwd[0] != SLASH || |cwd| > PATH_MAX { return Err; }
    if !GoodBytes(input) { return Err; }
    var normalized := ROOT;
    if input[0] != SLASH {
      if !GoodCwd(cwd) { return Err; }
      normalized := cwd;
    }
    var components := Split(input);
    ghost var start := normalized;
    for i := 0 to |components|
      invariant normalized != [] && normalized[0] == SLASH
      invariant ApplyAll(normalized, components[i..]) == ApplyAll(start, components)
    {
      var c := components[i];
      assert components[i..][1..] == components[i + 1..];
      if c == [] || c == DOT {
      } else if c == DOT_DOT {
        if |normalized| > 1 {
          var separator := LastSlash(normalized);
          normalized := normalized[..if separator > 1 then separator else 1];
        }
      } else {
        if !GoodComponent(c) { return Err; }
        var separatorLength := if normalized != ROOT then 1 else 0;
        if |normalized| + separatorLength + |c| > PATH_MAX { return Err; }
        if separatorLength != 0 { normalized := normalized + [SLASH]; }
        normalized := normalized + c;
      }
    }
    r := Ok(normalized);
  }

  // ---- Component stacks ----

  /** The absolute path of a stack. */
  function Abs(stack: seq<Str>): (p: Str) { if stack == [] then ROOT else [SLASH] + Join(stack) }

  /** The stack of an absolute path. */
  function Stack(p: Str): seq<Str> { if p == ROOT || p == [] then [] else Split(p[1..]) }

  predicate LegalComponent(c: Str) { GoodComponent(c) && NoSlash(c) && GoodBytes(c) }

  predicate LegalStack(stack: seq<Str>) { forall i :: 0 <= i < |stack| ==> LegalComponent(stack[i]) }

  /** A path in normal form. */
  predicate Normal(p: Str) { p == Abs(Stack(p)) && LegalStack(Stack(p)) && |p| <= PATH_MAX }

  /** Textbook resolution: no limits, ".." at the root stays at the root. */
  function Resolve(stack: seq<Str>, components: seq<Str>): seq<Str>
    decreases |components|
  {
    if components == [] then stack
    else Resolve(Turn(stack, components[0]), components[1..])
  }

  function Turn(stack: seq<Str>, c: Str): seq<Str> {
    if c == [] || c == DOT then stack
    else if c == DOT_DOT then if stack == [] then [] else stack[..|stack| - 1]
    else stack + [c]
  }

  predicate Ordinary(c: Str) { c != [] && c != DOT && c != DOT_DOT }

  /** Every component that is pushed is short enough and so is the path it makes. */
  predicate WithinLimits(stack: seq<Str>, components: seq<Str>)
    decreases |components|
  {
    components != [] ==>
      && (Ordinary(components[0]) ==>
            |components[0]| <= NAME_MAX && |Abs(stack + [components[0]])| <= PATH_MAX)
      && WithinLimits(Turn(stack, components[0]), components[1..])
  }

  // ---- The buffer is the stack ----

  lemma AbsSnoc(stack: seq<Str>, c: Str)
    ensures Abs(stack + [c]) == if stack == [] then ROOT + c else Abs(stack) + [SLASH] + c
  {
    if stack == [] {
      assert stack + [c] == [c];
    } else {
      JoinConcat(stack, [c]);
    }
  }

  lemma StackAbs(stack: seq<Str>)
    requires LegalStack(stack)
    ensures Stack(Abs(stack)) == stack
    ensures stack != [] ==> Abs(stack) != ROOT
  {
    if stack != [] {
      JoinSplit(stack);
      assert Abs(stack)[1..] == Join(stack);
      if |stack| > 1 { assert Join(stack)[0] == stack[0][0]; }
    }
  }

  lemma PopBuffer(stack: seq<Str>)
    requires stack != [] && LegalStack(stack)
    ensures |Abs(stack)| > 1
    ensures Apply(Abs(stack), DOT_DOT) == Ok(Abs(stack[..|stack| - 1]))
  {
    hide Abs, LastSlash, GoodBytes, Join;
    var init, c := stack[..|stack| - 1], stack[|stack| - 1];
    assert stack == init + [c];
    AbsSnoc(init, c);
    RootAbs();
    if init == [] {
      LastSlashAt([], c);
      assert [] + [SLASH] + c == ROOT + c;
      assert (ROOT + c)[..1] == ROOT;
    } else {
      StackAbs(init);
      AbsStarts(init);
      LastSlashAt(Abs(init), c);
      assert Abs(stack)[..|Abs(init)|] == Abs(init);
    }
  }

  lemma AbsStarts(stack: seq<Str>)
    requires LegalStack(stack)
    ensures Abs(stack) != [] && Abs(stack)[0] == SLASH && (stack != [] ==> |Abs(stack)| > 1)
  {
    if |stack| > 1 { assert |Join(stack)| > |stack[0]|; }
  }

  lemma LastSlashAt(prefix: Str, c: Str)
    requires NoSlash(c) && (prefix == [] || prefix[0] == SLASH)
    ensures LastSlash(prefix + [SLASH] + c) == |prefix|
  {
    hide LastSlash;
    var s := prefix + [SLASH] + c;
    assert s[|prefix|] == SLASH;
  }

  lemma PushBuffer(stack: seq<Str>, c: Str)
    requires LegalStack(stack) && Ordinary(c) && NoSlash(c) && GoodBytes(c)
    ensures Apply(Abs(stack), c)
         == if |c| <= NAME_MAX && |Abs(stack + [c])| <= PATH_MAX then Ok(Abs(stack + [c])) else Err
  {
    AbsSnoc(stack, c);
    StackAbs(stack);
  }

  lemma TurnLegal(stack: seq<Str>, c: Str)
    requires LegalStack(stack) && NoSlash(c) && GoodBytes(c)
    requires Ordinary(c) ==> |c| <= NAME_MAX
    ensures LegalStack(Turn(stack, c))
  {}

  lemma {:induction false} BufferIsStack(stack: seq<Str>, components: seq<Str>)
    requires LegalStack(stack)
    requires forall i :: 0 <= i < |components| ==> NoSlash(components[i]) && GoodBytes(components[i])
    ensures ApplyAll(Abs(stack), components)
         == if WithinLimits(stack, components) then Ok(Abs(Resolve(stack, components))) else Err
    ensures WithinLimits(stack, components) ==> LegalStack(Resolve(stack, components))
    decreases |components|
  {
    hide Abs, LastSlash, GoodBytes, GoodComponent;
    if components != [] {
      var c := components[0];
      StepBuffer(stack, c);
      if Ordinary(c) ==> |c| <= NAME_MAX && |Abs(stack + [c])| <= PATH_MAX {
        TurnLegal(stack, c);
        BufferIsStack(Turn(stack, c), components[1..]);
      }
    }
  }

  lemma StepBuffer(stack: seq<Str>, c: Str)
    requires LegalStack(stack) && NoSlash(c) && GoodBytes(c)
    ensures Abs(stack) != [] && Abs(stack)[0] == SLASH
    ensures Apply(Abs(stack), c)
         == if Ordinary(c) ==> |c| <= NAME_MAX && |Abs(stack + [c])| <= PATH_MAX then Ok(Abs(Turn(stack, c))) else Err
  {
    if Ordinary(c) {
      PushBuffer(stack, c);
    } else if c == DOT_DOT && stack != [] {
      PopBuffer(stack);
    }
  }

  // ---- Main results ----

  lemma InputComponents(input: Str)
    requires GoodBytes(input)
    ensures forall i :: 0 <= i < |Split(input)| ==> NoSlash(Split(input)[i]) && GoodBytes(Split(input)[i])
  {
    hide Split, Join;
    SplitJoin(input);
    forall i | 0 <= i < |Split(input)| ensures NoSlash(Split(input)[i]) && GoodBytes(Split(input)[i]) {
      PartOfJoin(Split(input), i);
    }
  }

  lemma {:induction false} PartOfJoin(parts: seq<Str>, k: nat)
    requires k < |parts|
    ensures GoodBytes(Join(parts)) ==> GoodBytes(parts[k])
  {
    if |parts| > 1 {
      var whole, rest := Join(parts), Join(parts[1..]);
      if k != 0 { PartOfJoin(parts[1..], k - 1); }
      if GoodBytes(whole) {
        assert forall i :: 0 <= i < |parts[0]| ==> whole[i] == parts[0][i];
        assert forall i :: 0 <= i < |rest| ==> whole[|parts[0]| + 1 + i] == rest[i];
      }
    }
  }

  /** A directory in normal form passes the checks made on a working directory. */
  lemma NormalCwd(cwd: Str)
    requires Normal(cwd)
    ensures cwd != [] && cwd[0] == SLASH && GoodCwd(cwd)
  {
    hide Split, NonEmpty, Join;
    var stack := Stack(cwd);
    AbsParts(stack);
    if stack != [] { NormalJoin(stack); }
  }

  /** The nonempty components of a stack's path are the stack. */
  lemma AbsParts(stack: seq<Str>)
    requires LegalStack(stack)
    ensures NonEmpty(Split(Abs(stack))) == stack
  {
    hide GoodBytes, Split, Abs;
    if stack == [] {
      RootAbs();
      RootParts();
    } else {
      AbsSplit(stack);
      NonEmptyConcat([[]], stack);
      NonEmptyIdentity(stack);
    }
  }

  lemma AbsSplit(stack: seq<Str>)
    requires stack != [] && AllNoSlash(stack)
    ensures Split(Abs(stack)) == [[]] + stack
  {
    JoinSplit(stack);
    assert Abs(stack) == [] + [SLASH] + Join(stack);
    SplitConcat([], Join(stack));
  }

  lemma RootParts()
    ensures NonEmpty(Split(ROOT)) == []
  {
    RootSplit();
    var two: seq<Str> := [[], []];
    assert two[1..] == [[]] && two[1..][1..] == [];
  }

  lemma {:induction false} NormalJoin(stack: seq<Str>)
    requires stack != [] && LegalStack(stack)
    ensures Join(stack) != [] && Join(stack)[|Join(stack)| - 1] != SLASH && GoodBytes(Join(stack))
  {
    if |stack| > 1 { NormalJoin(stack[1..]); }
  }

  /**
   For a working directory in normal form, normalization is textbook resolution on
   component stacks. It succeeds exactly when the input is nonempty, has no illegal
   byte, and every pushed component and every intermediate path is short enough.
   */
  lemma NormalizeResolves(cwd: Str, input: Str)
    requires Normal(cwd)
    ensures var start := if input != [] && input[0] == SLASH then [] else Stack(cwd);
            Normalized(cwd, input)
            == if input != [] && GoodBytes(input) && WithinLimits(start, Split(input))
               then Ok(Abs(Resolve(start, Split(input)))) else Err
    ensures Normalized(cwd, input).Ok? ==> Normal(Normalized(cwd, input).value)
  {
    hide WithinLimits, Resolve, ApplyAll, GoodCwd, Split, Abs, Stack;
    NormalCwd(cwd);
    if input != [] && GoodBytes(input) {
      var start := if input[0] == SLASH then [] else Stack(cwd);
      InputComponents(input);
      assert LegalStack(start);
      BufferIsStack(start, Split(input));
      RootAbs();
      if WithinLimits(start, Split(input)) {
        var result := Resolve(start, Split(input));
        ResolveWithin(start, Split(input));
        StackAbs(result);
      }
    }
  }

  lemma RootAbs()
    ensures Abs([]) == ROOT
  {}

  lemma {:induction false} ResolveWithin(stack: seq<Str>, components: seq<Str>)
    requires |Abs(stack)| <= PATH_MAX && WithinLimits(stack, components)
    ensures |Abs(Resolve(stack, components))| <= PATH_MAX
    decreases |components|
  {
    hide Abs;
    if components != [] {
      TurnWithin(stack, components[0]);
      ResolveWithin(Turn(stack, components[0]), components[1..]);
    }
  }

  lemma TurnWithin(stack: seq<Str>, c: Str)
    requires |Abs(stack)| <= PATH_MAX && (Ordinary(c) ==> |Abs(stack + [c])| <= PATH_MAX)
    ensures |Abs(Turn(stack, c))| <= PATH_MAX
  {
    if c == DOT_DOT && stack != [] {
      assert stack == stack[..|stack| - 1] + [stack[|stack| - 1]];
      AbsSnoc(stack[..|stack| - 1], stack[|stack| - 1]);
    }
  }

  /** Resolving a legal stack's own components pushes them all. */
  lemma {:induction false} ResolveSelf(done: seq<Str>, rest: seq<Str>)
    requires LegalStack(done + rest) && |Abs(done + rest)| <= PATH_MAX
    ensures WithinLimits(done, rest) && Resolve(done, rest) == done + rest
    decreases |rest|
  {
    hide Abs, GoodBytes;
    if rest == [] {
      assert done + rest == done;
    } else {
      var c := rest[0];
      assert (done + rest)[|done|] == c;
      assert done + [c] + rest[1..] == done + rest;
      AbsMonotone(done + [c], rest[1..]);
      ResolveSelf(done + [c], rest[1..]);
    }
  }

  lemma {:induction false} AbsMonotone(a: seq<Str>, b: seq<Str>)
    ensures |Abs(a)| <= |Abs(a + b)|
    decreases |b|
  {
    if b == [] {
      assert a + b == a;
    } else {
      assert a + b == (a + b[..|b| - 1]) + [b[|b| - 1]];
      AbsSnoc(a + b[..|b| - 1], b[|b| - 1]);
      AbsMonotone(a, b[..|b| - 1]);
    }
  }

  /** A normal path is its own normalization, whatever the working directory. */
  lemma NormalFixed(cwd: Str, p: Str)
    requires Normal(cwd) && Normal(p)
    ensures Normalized(cwd, p) == Ok(p)
  {
    hide WithinLimits, Resolve, ApplyAll, Normalized, GoodBytes;
    var stack := Stack(p);
    NormalizeResolves(cwd, p);
    NormalBytes(p);
    if stack == [] {
      RootSplit();
      ResolveBlanks();
    } else {
      AbsSplit(stack);
      ResolveBlank(stack);
      assert [] + stack == stack;
      ResolveSelf([], stack);
    }
  }

  lemma NormalBytes(p: Str)
    requires Normal(p)
    ensures p != [] && p[0] == SLASH && GoodBytes(p)
  {
    if Stack(p) != [] { NormalJoin(Stack(p)); }
  }

  lemma RootSplit()
    ensures Split(ROOT) == [[], []]
  {
    assert ROOT[1..] == [];
    assert Split(ROOT) == [[]] + [[]];
  }

  lemma ResolveBlanks()
    ensures WithinLimits([], [[], []]) && Resolve([], [[], []]) == []
  {
    var two: seq<Str> := [[], []];
    assert two[1..] == [[]] && two[1..][1..] == [];
  }

  lemma ResolveBlank(stack: seq<Str>)
    ensures WithinLimits([], [[]] + stack) <==> WithinLimits([], stack)
    ensures Resolve([], [[]] + stack) == Resolve([], stack)
  {
    assert ([[]] + stack)[1..] == stack;
  }

  /** Normalizing twice changes nothing. */
  lemma NormalizeIdempotent(cwd: Str, input: Str)
    requires Normal(cwd) && Normalized(cwd, input).Ok?
    ensures Normalized(cwd, Normalized(cwd, input).value) == Normalized(cwd, input)
  {
    hide Normalized;
    NormalizeResolves(cwd, input);
    NormalFixed(cwd, Normalized(cwd, input).value);
  }
}
