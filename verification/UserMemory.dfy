/**
 Access to a process's memory through its page tables: prevalidation of a whole
 range page by page, then copying in or out chunk by chunk.
 */
module UserMemory {
  import opened Prelude
  import opened PageTables

  const PAGE_SIZE := 4096
  const USER_SPACE_BASE := 0x7000_0000_0000
  const USER_SPACE_SIZE := 0x4000_0000
  const USER_SPACE_END := USER_SPACE_BASE + USER_SPACE_SIZE

  type FrameData = s: seq<byte> | |s| == PAGE_SIZE witness seq(PAGE_SIZE, _ => 0)

  /** Physical memory, frame by frame. */
  type Memory = map<nat, FrameData>

  function ZeroFrame(): FrameData { seq(PAGE_SIZE, _ => 0) }

  predicate Canonical(raw: nat) { raw < 0x8000_0000_0000 || raw >= 0xFFFF_8000_0000_0000 }

  predicate InRegion(raw: nat) { USER_SPACE_BASE <= raw < USER_SPACE_END }

  function CheckedUserAddr(raw: nat): (r: Result<nat>)
    ensures r.Ok? <==> InRegion(raw)
    ensures r.Ok? ==> r.value == raw
  {
    if !Canonical(raw) then Err else if raw < USER_SPACE_BASE || raw >= USER_SPACE_END then Err else Ok(raw)
  }

  predicate Mapped(s: Space, a: nat) { a / PAGE_SIZE in s.pages }

  predicate Permits(e: Entry, writable: bool) {
    e.flags.present && e.flags.user && (writable ==> e.flags.writable)
  }

  /** User code may touch byte `a`. */
  predicate Accessible(s: Space, a: nat, writable: bool) {
    InRegion(a) && Mapped(s, a) && Permits(s.pages[a / PAGE_SIZE], writable)
  }

  /** Every byte of `[start, start + len)`; an empty range still needs a user address. */
  ghost predicate RangeOk(s: Space, start: nat, len: nat, writable: bool) {
    InRegion(start) && forall a: nat :: start <= a < start + len ==> Accessible(s, a, writable)
  }

  function Chunk(address: nat, left: nat): (n: nat)
    ensures n <= left && (left > 0 ==> n > 0)
  {
    Min(PAGE_SIZE - address % PAGE_SIZE, left)
  }

  lemma SamePage(address: nat, left: nat, a: nat)
    requires address <= a < address + Chunk(address, left)
    ensures a / PAGE_SIZE == address / PAGE_SIZE
    ensures a % PAGE_SIZE == address % PAGE_SIZE + (a - address)
  {
  }

  method ValidateUserRange(s: Space, start: nat, len: nat, writable: bool) returns (ok: bool)
    requires start <= U64_MAX && len <= U64_MAX
    ensures ok <==> RangeOk(s, start, len, writable)
  {
    hide InRegion, Permits;
    if CheckedUserAddr(start).Err? { return false; }
    if start + len > U64_MAX || start + len > USER_SPACE_END {
      OutsideRegion();
      InRegionBounds(start);
      assert !Accessible(s, USER_SPACE_END, writable);
      return false;
    }
    var checked := 0;
    while checked < len
      invariant checked <= len
      invariant forall a: nat :: start <= a < start + checked ==> Accessible(s, a, writable)
    {
      var raw := start + checked;
      InRegionBounds(start);
      InRegionOf(start, raw);
      if raw / PAGE_SIZE !in s.pages || !Permits(s.pages[raw / PAGE_SIZE], writable) {
        assert !Accessible(s, raw, writable);
        return false;
      }
      var chunk := Chunk(raw, len - checked);
      forall a | raw <= a < raw + chunk ensures Accessible(s, a, writable) {
        SamePage(raw, len - checked, a);
        InRegionOf(start, a);
      }
      checked := checked + chunk;
    }
    ok := true;
  }

  lemma OutsideRegion()
    ensures !InRegion(USER_SPACE_END)
  {
  }

  lemma InRegionBounds(a: nat)
    requires InRegion(a)
    ensures USER_SPACE_BASE <= a < USER_SPACE_END
  {
  }

  lemma InRegionOf(start: nat, a: nat)
    requires InRegion(start) && start <= a < USER_SPACE_END
    ensures InRegion(a)
  {
  }

  // ---- Copying ----

  /** Every leaf frame is a frame of memory. */
  ghost predicate Backed(mem: Memory, s: Space) {
    forall g :: g in s.pages ==> s.pages[g].frame in mem
  }

  function ByteAt(mem: Memory, s: Space, a: nat): byte
    requires Mapped(s, a) && s.pages[a / PAGE_SIZE].frame in mem
  {
    mem[s.pages[a / PAGE_SIZE].frame][a % PAGE_SIZE]
  }

  function Splice(page: FrameData, offset: nat, data: seq<byte>): FrameData
    requires offset + |data| <= PAGE_SIZE
  {
    page[..offset] + data + page[offset + |data|..]
  }

  /** Seen through `s`, memory changed from `before` to `after` exactly by `data` at `dest`. */
  ghost predicate Wrote(before: Memory, after: Memory, s: Space, dest: nat, data: seq<byte>) {
    && after.Keys == before.Keys
    && Backed(before, s)
    && (forall a: nat :: Mapped(s, a) && dest <= a < dest + |data| ==> ByteAt(after, s, a) == data[a - dest])
    && (forall a: nat :: Mapped(s, a) && !(dest <= a < dest + |data|) ==> ByteAt(after, s, a) == ByteAt(before, s, a))
    && (forall f :: f in before && !IsLeaf(s, f) ==> after[f] == before[f])
  }

  ghost predicate IsLeaf(s: Space, f: nat) { exists g :: g in s.pages && s.pages[g].frame == f }

  method WriteBytes(mem: Memory, s: Space, dest: nat, data: seq<byte>) returns (ok: bool, after: Memory)
    requires dest <= U64_MAX && |data| <= U64_MAX
    requires Unshared(s) && Backed(mem, s)
    ensures ok <==> RangeOk(s, dest, |data|, true)
    ensures ok ==> Wrote(mem, after, s, dest, data)
    ensures !ok ==> after == mem
  {
    hide InRegion, Permits, Wrote, Unshared;
    after := mem;
    ok := ValidateUserRange(s, dest, |data|, true);
    if !ok { return; }
    var written := 0;
    WroteNothing(mem, s, dest);
    while written < |data|
      invariant written <= |data|
      invariant RangeOk(s, dest, |data|, true)
      invariant Wrote(mem, after, s, dest, data[..written])
    {
      var address := dest + written;
      // The translation and permission checks repeated here cannot fail any more.
      assert Accessible(s, address, true);
      var chunk := Chunk(address, |data| - written);
      var frame := s.pages[address / PAGE_SIZE].frame;
      WroteBacked(mem, after, s, dest, data[..written]);
      WroteChunk(mem, after, s, dest, data, written, chunk);
      after := after[frame := Splice(after[frame], address % PAGE_SIZE, data[written..written + chunk])];
      written := written + chunk;
    }
    assert data[..written] == data;
  }

  lemma WroteNothing(mem: Memory, s: Space, dest: nat)
    requires Backed(mem, s)
    ensures Wrote(mem, mem, s, dest, [])
  {
  }

  lemma WroteBacked(mem: Memory, after: Memory, s: Space, dest: nat, data: seq<byte>)
    requires Wrote(mem, after, s, dest, data)
    ensures Backed(after, s)
  {
  }

  lemma WroteChunk(mem: Memory, now: Memory, s: Space, dest: nat, data: seq<byte>, written: nat, chunk: nat)
    requires Unshared(s) && written < |data| && chunk == Chunk(dest + written, |data| - written)
    requires Wrote(mem, now, s, dest, data[..written]) && Mapped(s, dest + written) && Backed(now, s)
    ensures var frame := s.pages[(dest + written) / PAGE_SIZE].frame;
      Wrote(mem, now[frame := Splice(now[frame], (dest + written) % PAGE_SIZE, data[written..written + chunk])],
            s, dest, data[..written + chunk])
  {
    hide Unshared, Splice;
    var address := dest + written;
    var page := address / PAGE_SIZE;
    var frame := s.pages[page].frame;
    var after := now[frame := Splice(now[frame], address % PAGE_SIZE, data[written..written + chunk])];
    forall a: nat | Mapped(s, a)
      ensures dest <= a < dest + written + chunk ==> ByteAt(after, s, a) == data[a - dest]
      ensures !(dest <= a < dest + written + chunk) ==> ByteAt(after, s, a) == ByteAt(mem, s, a)
    {
      ChunkByte(now, s, address, data, written, chunk, a);
    }
    assert page in s.pages && IsLeaf(s, frame);
    assert data[..written + chunk][..written] == data[..written];
  }

  lemma ChunkByte(now: Memory, s: Space, address: nat, data: seq<byte>, written: nat, chunk: nat, a: nat)
    requires Unshared(s) && Backed(now, s) && Mapped(s, address) && Mapped(s, a)
    requires written < |data| && chunk == Chunk(address, |data| - written)
    ensures var frame := s.pages[address / PAGE_SIZE].frame;
      var after := now[frame := Splice(now[frame], address % PAGE_SIZE, data[written..written + chunk])];
      ByteAt(after, s, a)
      == if address <= a < address + chunk then data[written + (a - address)] else ByteAt(now, s, a)
  {
    assert Uses(s, Leaf(a / PAGE_SIZE), s.pages[a / PAGE_SIZE].frame);
    assert Uses(s, Leaf(address / PAGE_SIZE), s.pages[address / PAGE_SIZE].frame);
    if address <= a < address + chunk { SamePage(address, |data| - written, a); }
  }

  /** Seen through `s`, the bytes at `src` are `data`. */
  ghost predicate Holds(mem: Memory, s: Space, src: nat, data: seq<byte>)
    requires Backed(mem, s)
  {
    forall a: nat :: src <= a < src + |data| ==> Mapped(s, a) && data[a - src] == ByteAt(mem, s, a)
  }

  method ReadBytes(mem: Memory, s: Space, src: nat, len: nat) returns (r: Result<seq<byte>>)
    requires src <= U64_MAX && len <= U64_MAX
    requires Backed(mem, s)
    ensures r.Ok? <==> RangeOk(s, src, len, false)
    ensures r.Ok? ==> |r.value| == len && Holds(mem, s, src, r.value)
  {
    hide InRegion, Permits;
    var ok := ValidateUserRange(s, src, len, false);
    if !ok { return Err; }
    var out: seq<byte> := [];
    while |out| < len
      invariant |out| <= len && RangeOk(s, src, len, false)
      invariant Holds(mem, s, src, out)
    {
      var address := src + |out|;
      assert Accessible(s, address, false);
      var chunk := Chunk(address, len - |out|);
      var offset := address % PAGE_SIZE;
      var piece := mem[s.pages[address / PAGE_SIZE].frame][offset..offset + chunk];
      forall a: nat | address <= a < address + chunk
        ensures Mapped(s, a) && piece[a - address] == ByteAt(mem, s, a)
      {
        SamePage(address, len - |out|, a);
      }
      out := out + piece;
    }
    r := Ok(out);
  }

  /** What was written is what a read of the same range returns. */
  lemma WriteThenRead(before: Memory, after: Memory, s: Space, dest: nat, data: seq<byte>)
    requires Wrote(before, after, s, dest, data) && RangeOk(s, dest, |data|, true)
    ensures RangeOk(s, dest, |data|, false) && Backed(after, s) && Holds(after, s, dest, data)
  {
    hide InRegion, Permits;
    forall a: nat | dest <= a < dest + |data| ensures Accessible(s, a, false) && Mapped(s, a) {
      assert Accessible(s, a, true);
      WritableIsReadable(s.pages[a / PAGE_SIZE]);
    }
  }

  lemma WritableIsReadable(e: Entry)
    requires Permits(e, true)
    ensures Permits(e, false)
  {
  }

  /** A space that shares no frame with the writer sees no change at all. */
  lemma OtherSpaceUntouched(before: Memory, after: Memory, s: Space, dest: nat, data: seq<byte>, t: Space, a: nat)
    requires Wrote(before, after, s, dest, data) && Backed(before, t) && Mapped(t, a)
    requires Covered(s) && Covered(t) && forall f :: f in s.owned ==> f !in t.owned
    ensures ByteAt(after, t, a) == ByteAt(before, t, a)
  {
    hide Wrote;
    var f := t.pages[a / PAGE_SIZE].frame;
    assert Uses(t, Leaf(a / PAGE_SIZE), f);
    assert forall g :: g in s.pages ==> Uses(s, Leaf(g), s.pages[g].frame);
    OutsideLeaves(before, after, s, dest, data, f);
  }

  lemma OutsideLeaves(before: Memory, after: Memory, s: Space, dest: nat, data: seq<byte>, f: nat)
    requires Wrote(before, after, s, dest, data) && f in before && !IsLeaf(s, f)
    ensures f in after && after[f] == before[f]
  {
  }
}
