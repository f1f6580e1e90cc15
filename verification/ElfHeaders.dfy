/**
 The validating pass of the ELF64 loader: it reads the header and the program
 header table, and either accepts the list of loadable segments or rejects the
 file before anything is mapped.
 */
module ElfHeaders {
  import opened Prelude
  import opened UserMemory
  import opened PageTables

  const EHDR_SIZE := 64
  const PHDR_SIZE := 56
  const ET_EXEC := 2
  const EM_X86_64 := 62
  const PT_LOAD := 1
  const PT_DYNAMIC := 2
  const PT_INTERP := 3

  datatype ProgramHeader = ProgramHeader(
    kind: nat, flags: nat, offset: nat, vaddr: nat, filesz: nat, memsz: nat)

  datatype Image = Image(entry: nat, segments: seq<ProgramHeader>)

  function ParseProgramHeader(bytes: seq<byte>, at: nat): (r: Result<ProgramHeader>)
    ensures r.Ok? <==> at + PHDR_SIZE <= |bytes|
  {
    if at + PHDR_SIZE > |bytes| then Err
    else
      Ok(ProgramHeader(
        FromLe(bytes[at..at + 4]), FromLe(bytes[at + 4..at + 8]), FromLe(bytes[at + 8..at + 16]),
        FromLe(bytes[at + 16..at + 24]), FromLe(bytes[at + 32..at + 40]), FromLe(bytes[at + 40..at + 48])))
  }

  predicate InUserRange(address: nat, len: nat) {
    address + len <= U64_MAX && address >= USER_SPACE_BASE && address + len <= USER_SPACE_END
  }

  predicate Executable(flags: nat) { flags % 2 == 1 }
  predicate Writable(flags: nat) { flags / 2 % 2 == 1 }
  predicate Readable(flags: nat) { flags / 4 % 2 == 1 }

  function SegmentFlags(flags: nat): Flags { Flags(true, Writable(flags), true, !Executable(flags)) }

  /** A segment the loader may map: its file bytes exist, its addresses are the process's own. */
  predicate SegmentOk(bytes: seq<byte>, h: ProgramHeader) {
    && h.kind == PT_LOAD
    && h.filesz <= h.memsz
    && h.offset + h.filesz <= |bytes|
    && InUserRange(h.vaddr, h.memsz)
    && Readable(h.flags)
  }

  datatype Verdict = Take | Skip | Reject

  function Judge(bytes: seq<byte>, h: ProgramHeader): Verdict {
    if h.kind == PT_DYNAMIC || h.kind == PT_INTERP then Reject
    else if h.kind != PT_LOAD then Skip
    else if h.filesz > h.memsz then Reject
    else if h.offset + h.filesz > U64_MAX || h.offset + h.filesz > |bytes| then Reject
    else if !InUserRange(h.vaddr, h.memsz) then Reject
    else if !Readable(h.flags) then Reject
    else Take
  }

  /** The loadable segments among entries `i..n` of the table at `table`. */
  function SegmentsFrom(bytes: seq<byte>, table: nat, i: nat, n: nat): Result<seq<ProgramHeader>>
    requires i <= n
    decreases n - i
  {
    if i == n then Ok([])
    else
      var h := ParseProgramHeader(bytes, table + i * PHDR_SIZE);
      if h.Err? || Judge(bytes, h.value).Reject? then Err
      else
        var rest := SegmentsFrom(bytes, table, i + 1, n);
        if rest.Err? then Err
        else Ok((if Judge(bytes, h.value).Take? then [h.value] else []) + rest.value)
  }

  predicate HeaderOk(bytes: seq<byte>) {
    && |bytes| >= EHDR_SIZE
    && bytes[0..4] == [0x7F, 0x45, 0x4C, 0x46]
    && bytes[4] == 2 && bytes[5] == 1 && bytes[6] == 1
    && FromLe(bytes[16..18]) == ET_EXEC
    && FromLe(bytes[18..20]) == EM_X86_64
    && FromLe(bytes[20..24]) == 1
    && FromLe(bytes[54..56]) == PHDR_SIZE
    && FromLe(bytes[56..58]) > 0
    && FromLe(bytes[32..40]) + PHDR_SIZE * FromLe(bytes[56..58]) <= |bytes|
    && InUserRange(FromLe(bytes[24..32]), 1)
  }

  /** What the file describes, if the loader accepts it. */
  function ImageOf(bytes: seq<byte>): Result<Image> {
    if !HeaderOk(bytes) then Err
    else
      var segments := SegmentsFrom(bytes, FromLe(bytes[32..40]), 0, FromLe(bytes[56..58]));
      if segments.Err? || segments.value == [] then Err
      else Ok(Image(FromLe(bytes[24..32]), segments.value))
  }

  method ParseImage(bytes: seq<byte>) returns (r: Result<Image>)
    requires |bytes| <= U64_MAX
    ensures r == ImageOf(bytes)
  {
    hide FromLe, InUserRange, Judge, Extends;
    if |bytes| < EHDR_SIZE { return Err; }
    if bytes[0..4] != [0x7F, 0x45, 0x4C, 0x46] { return Err; }
    if bytes[4] != 2 || bytes[5] != 1 || bytes[6] != 1 { return Err; }
    if FromLe(bytes[16..18]) != ET_EXEC || FromLe(bytes[18..20]) != EM_X86_64 { return Err; }
    if FromLe(bytes[20..24]) != 1 || FromLe(bytes[54..56]) != PHDR_SIZE { return Err; }
    var entry, table, n := FromLe(bytes[24..32]), FromLe(bytes[32..40]), FromLe(bytes[56..58]);
    if n == 0 || table + PHDR_SIZE * n > U64_MAX || table + PHDR_SIZE * n > |bytes| { return Err; }
    if !InUserRange(entry, 1) { return Err; }
    var headers: seq<ProgramHeader> := [];
    ExtendsStart(SegmentsFrom(bytes, table, 0, n));
    for i := 0 to n
      invariant Extends(SegmentsFrom(bytes, table, 0, n), headers, SegmentsFrom(bytes, table, i, n))
    {
      var h := ParseProgramHeader(bytes, table + i * PHDR_SIZE);
      if h.Err? || Judge(bytes, h.value).Reject? {
        ExtendsFail(SegmentsFrom(bytes, table, 0, n), headers);
        return Err;
      }
      var taken := if Judge(bytes, h.value).Take? then [h.value] else [];
      ExtendsMore(SegmentsFrom(bytes, table, 0, n), headers, taken, SegmentsFrom(bytes, table, i + 1, n));
      headers := headers + taken;
    }
    ExtendsEnd(SegmentsFrom(bytes, table, 0, n), headers);
    if headers == [] { return Err; }
    r := Ok(Image(entry, headers));
  }

  /** `whole` is `done` followed by `rest`, or both fail. */
  predicate Extends(whole: Result<seq<ProgramHeader>>, done: seq<ProgramHeader>, rest: Result<seq<ProgramHeader>>) {
    if rest.Err? then whole.Err? else whole == Ok(done + rest.value)
  }

  lemma ExtendsStart(whole: Result<seq<ProgramHeader>>)
    ensures Extends(whole, [], whole)
  {
    if whole.Ok? { assert [] + whole.value == whole.value; }
  }

  lemma ExtendsEnd(whole: Result<seq<ProgramHeader>>, done: seq<ProgramHeader>)
    requires Extends(whole, done, Ok([]))
    ensures whole == Ok(done)
  {
    assert done + [] == done;
  }

  lemma ExtendsFail(whole: Result<seq<ProgramHeader>>, done: seq<ProgramHeader>)
    requires Extends(whole, done, Err)
    ensures whole == Err
  {
  }

  lemma ExtendsMore(whole: Result<seq<ProgramHeader>>, done: seq<ProgramHeader>, taken: seq<ProgramHeader>,
                    rest: Result<seq<ProgramHeader>>)
    requires Extends(whole, done, if rest.Err? then Err else Ok(taken + rest.value))
    ensures Extends(whole, done + taken, rest)
  {
    if rest.Ok? { assert done + (taken + rest.value) == done + taken + rest.value; }
  }

  lemma {:induction false} SegmentsSound(bytes: seq<byte>, table: nat, i: nat, n: nat, k: nat)
    requires i <= n && SegmentsFrom(bytes, table, i, n).Ok? && k < |SegmentsFrom(bytes, table, i, n).value|
    ensures SegmentOk(bytes, SegmentsFrom(bytes, table, i, n).value[k])
    decreases n - i
  {
    hide FromLe, InUserRange;
    var h := ParseProgramHeader(bytes, table + i * PHDR_SIZE).value;
    if Judge(bytes, h).Take? {
      if k > 0 { SegmentsSound(bytes, table, i + 1, n, k - 1); }
    } else {
      SegmentsSound(bytes, table, i + 1, n, k);
    }
  }

  lemma {:induction false} SegmentsAccepted(bytes: seq<byte>, table: nat, i: nat, n: nat)
    requires i <= n
    ensures SegmentsFrom(bytes, table, i, n).Ok?
       <==> forall j :: i <= j < n ==> EntryOk(bytes, table, j)
    decreases n - i
  {
    hide FromLe, InUserRange, Judge;
    if i < n {
      SegmentsAccepted(bytes, table, i + 1, n);
      var rest := SegmentsFrom(bytes, table, i + 1, n);
      assert SegmentsFrom(bytes, table, i, n).Ok? <==> EntryOk(bytes, table, i) && rest.Ok?;
    }
  }

  /** Entry `j` of the table lies in the file and is not one the loader refuses. */
  predicate EntryOk(bytes: seq<byte>, table: nat, j: nat) {
    var h := ParseProgramHeader(bytes, table + j * PHDR_SIZE);
    h.Ok? && !Judge(bytes, h.value).Reject?
  }

  /** Every segment of an accepted image can be loaded without leaving the file or the user region. */
  lemma ImageSound(bytes: seq<byte>)
    requires ImageOf(bytes).Ok?
    ensures var image := ImageOf(bytes).value;
      && InRegion(image.entry) && image.segments != []
      && forall k :: 0 <= k < |image.segments| ==> SegmentOk(bytes, image.segments[k])
  {
    hide FromLe, SegmentOk;
    var image := ImageOf(bytes).value;
    forall k | 0 <= k < |image.segments| ensures SegmentOk(bytes, image.segments[k]) {
      SegmentsSound(bytes, FromLe(bytes[32..40]), 0, FromLe(bytes[56..58]), k);
    }
  }
}
