/**
 Physical frame allocation: a bump cursor over the usable regions of the boot
 memory map, with a pool of returned frames that is drawn from first.
 Frames are identified by their number, that is, physical address / 4096.
 */
module FrameAllocator {
  import opened Prelude

  const FRAME_SIZE := 4096

  datatype Region = Region(start: nat, end: nat, usable: bool)

  /** The frames of one region, in address order. */
  function RegionFrames(r: Region): seq<nat>
    requires r.start <= r.end
  {
    seq(FrameCount(r), i requires 0 <= i => r.start / FRAME_SIZE + i)
  }

  /** The regions a boot loader reports: page aligned and not inverted. */
  predicate BootMap(regions: seq<Region>) {
    forall i :: 0 <= i < |regions| && regions[i].usable
      ==> regions[i].start <= regions[i].end <= U64_MAX && regions[i].start % FRAME_SIZE == 0
  }

  /** Every usable frame of the memory map, in map order. */
  function Flat(regions: seq<Region>): seq<nat>
    requires BootMap(regions)
  {
    if regions == [] then []
    else if !regions[0].usable then Flat(regions[1..])
    else RegionFrames(regions[0]) + Flat(regions[1..])
  }

  function FrameCount(r: Region): nat
    requires r.start <= r.end
  {
    (r.end - r.start) / FRAME_SIZE
  }

  lemma BootMapRest(regions: seq<Region>)
    requires BootMap(regions) && regions != []
    ensures BootMap(regions[1..])
    ensures regions[0].usable ==> regions[0].start <= regions[0].end && regions[0].start % FRAME_SIZE == 0
  {
  }

  /** The frame a region-by-region search finds. */
  function FrameAt(regions: seq<Region>, k: nat): Option<nat>
    requires BootMap(regions)
  {
    if regions == [] then None
    else if !regions[0].usable then FrameAt(regions[1..], k)
    else if k < FrameCount(regions[0]) then Some(regions[0].start / FRAME_SIZE + k)
    else FrameAt(regions[1..], k - FrameCount(regions[0]))
  }

  /** The search finds the k-th element of the flattened list, and nothing past its end. */
  lemma {:induction false} FrameAtIsFlat(regions: seq<Region>, k: nat)
    requires BootMap(regions)
    ensures FrameAt(regions, k) == if k < |Flat(regions)| then Some(Flat(regions)[k]) else None
  {
    if regions != [] {
      var skip := if regions[0].usable then FrameCount(regions[0]) else 0;
      if skip <= k { FrameAtIsFlat(regions[1..], k - skip); }
    }
  }

  lemma FrameOf(start: nat, k: nat)
    requires start % FRAME_SIZE == 0
    ensures (start + k * FRAME_SIZE) / FRAME_SIZE == start / FRAME_SIZE + k
  {
  }

  predicate NoDup<T(==)>(s: seq<T>) {
    forall i, j :: 0 <= i < j < |s| ==> s[i] != s[j]
  }

  // ---- The pool as a value ----

  datatype Pool = Pool(frames: seq<nat>, next: nat, freed: seq<nat>)

  function Available(p: Pool): nat {
    |p.freed| + if p.next <= |p.frames| then |p.frames| - p.next else 0
  }

  function Allocate(p: Pool): (r: (Option<nat>, Pool)) {
    if |p.freed| > 0 then (Some(p.freed[|p.freed| - 1]), p.(freed := p.freed[..|p.freed| - 1]))
    else if p.next < |p.frames| then (Some(p.frames[p.next]), p.(next := p.next + 1))
    else (None, p)
  }

  function Release(p: Pool, frame: nat): Pool { p.(freed := p.freed + [frame]) }

  function AllocateMany(p: Pool, n: nat): (seq<nat>, Pool)
    decreases n
  {
    if n == 0 || Allocate(p).0.None? then ([], p)
    else
      var rest := AllocateMany(Allocate(p).1, n - 1);
      ([Allocate(p).0.value] + rest.0, rest.1)
  }

  /** Of any number of attempts, exactly the first `Available` ones succeed. */
  lemma {:induction false} AvailableIsExact(p: Pool, n: nat)
    ensures |AllocateMany(p, n).0| == Min(n, Available(p))
    ensures Available(AllocateMany(p, n).1) == Available(p) - Min(n, Available(p))
    decreases n
  {
    if n > 0 && Allocate(p).0.Some? { AvailableIsExact(Allocate(p).1, n - 1); }
  }

  // ---- The allocator object ----

  class BootInfoFrameAllocator {
    const regions: seq<Region>
    var next: nat
    var freed: seq<nat>
    var allocatedCount: nat

    constructor (regions: seq<Region>)
      requires BootMap(regions)
      ensures this.regions == regions && State() == Pool(Flat(regions), 0, []) && allocatedCount == 0
    {
      this.regions, next, freed, allocatedCount := regions, 0, [], 0;
    }

    function State(): Pool
      requires BootMap(regions)
      reads this
    {
      Pool(Flat(regions), next, freed)
    }

    /** Finds the region holding a bump index without listing the frames before it. */
    method UsableFrameAt(index: nat) returns (r: Option<nat>)
      requires BootMap(regions)
      ensures r == if index < |Flat(regions)| then Some(Flat(regions)[index]) else None
    {
      hide BootMap, Flat, FrameCount, RegionFrames;
      var rest: nat := index;
      for i := 0 to |regions|
        invariant BootMap(regions) && BootMap(regions[i..])
        invariant FrameAt(regions[i..], rest) == FrameAt(regions, index)
      {
        assert regions[i..][0] == regions[i] && regions[i..][1..] == regions[i + 1..];
        BootMapRest(regions[i..]);
        if regions[i].usable {
          var count := FrameCount(regions[i]);
          if rest < count {
            FrameAtIsFlat(regions, index);
            FrameOf(regions[i].start, rest);
            return Some((regions[i].start + rest * FRAME_SIZE) / FRAME_SIZE);
          }
          rest := rest - count;
        }
      }
      FrameAtIsFlat(regions, index);
      return None;
    }

    method UsableFrameCount() returns (n: nat)
      requires BootMap(regions)
      ensures n == |Flat(regions)|
    {
      n := 0;
      for i := 0 to |regions|
        invariant n + |Flat(regions[i..])| == |Flat(regions)|
      {
        assert regions[i..][0] == regions[i] && regions[i..][1..] == regions[i + 1..];
        if regions[i].usable { n := n + FrameCount(regions[i]); }
      }
    }

    method FramesAvailable() returns (n: nat)
      requires BootMap(regions)
      ensures n == Available(State())
    {
      var usable := UsableFrameCount();
      n := |freed| + if next <= usable then usable - next else 0;
    }

    method AllocateFrame() returns (r: Option<nat>)
      requires BootMap(regions)
      modifies this
      ensures (r, State()) == Allocate(old(State()))
      ensures allocatedCount == old(allocatedCount) + if r.Some? then 1 else 0
    {
      if |freed| > 0 {
        r, freed := Some(freed[|freed| - 1]), freed[..|freed| - 1];
        allocatedCount := allocatedCount + 1;
        return;
      }
      r := UsableFrameAt(next);
      if r.Some? {
        next, allocatedCount := next + 1, allocatedCount + 1;
      }
    }

    method DeallocateFrame(frame: nat)
      requires BootMap(regions)
      modifies this
      ensures State() == Release(old(State()), frame) && allocatedCount == old(allocatedCount)
    {
      freed := freed + [frame];
    }
  }

  // ---- Distinct frames ----

  predicate Separate(a: Region, b: Region) { a.end <= b.start || b.end <= a.start }

  /** No two usable regions overlap. */
  predicate Disjoint(regions: seq<Region>) {
    forall i, j :: 0 <= i < j < |regions| && regions[i].usable && regions[j].usable
      ==> Separate(regions[i], regions[j])
  }

  lemma {:induction false} FlatWithin(regions: seq<Region>, k: nat) returns (i: nat)
    requires BootMap(regions) && k < |Flat(regions)|
    ensures i < |regions| && regions[i].usable
    ensures regions[i].start <= Flat(regions)[k] * FRAME_SIZE
    ensures Flat(regions)[k] * FRAME_SIZE + FRAME_SIZE <= regions[i].end
  {
    if !regions[0].usable {
      i := FlatWithin(regions[1..], k);
      i := i + 1;
    } else {
      var n := |RegionFrames(regions[0])|;
      if k < n {
        i := 0;
        assert Flat(regions)[k] == RegionFrames(regions[0])[k];
      } else {
        assert Flat(regions)[k] == Flat(regions[1..])[k - n];
        i := FlatWithin(regions[1..], k - n);
        i := i + 1;
      }
    }
  }

  /** Disjoint regions give a frame list without repetition, so the bump cursor never repeats a frame. */
  lemma {:induction false} FlatNoDup(regions: seq<Region>)
    requires BootMap(regions) && Disjoint(regions)
    ensures NoDup(Flat(regions))
  {
    if regions != [] {
      var rest := regions[1..];
      FlatNoDup(rest);
      if regions[0].usable {
        var a, b := RegionFrames(regions[0]), Flat(rest);
        forall i, j | 0 <= i < j < |a + b| ensures (a + b)[i] != (a + b)[j] {
          if i < |a| <= j {
            var q := FlatWithin(rest, j - |a|);
            assert Separate(regions[0], regions[q + 1]);
          } else if |a| <= i {
            assert b[i - |a|] != b[j - |a|];
          }
        }
      }
    }
  }
}
