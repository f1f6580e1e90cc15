/**
 Taking a range of leaf mappings out of an address space: capture records of the
 whole range first, remove the leaves (putting them back if the mapper refuses
 part way), and only then give up ownership of the frames.
 */
module Unmapping {
  import opened Prelude
  import opened FrameAllocator
  import opened Ownership
  import opened PageTables
  import opened UserMemory

  datatype Record = Record(page: nat, entry: Entry)

  predicate AllMapped(s: Space, first: nat, count: nat) {
    forall g :: first <= g < first + count ==> g in s.pages
  }

  predicate PagesPermit(s: Space, first: nat, count: nat, writable: bool) {
    forall g :: first <= g < first + count ==> g in s.pages && Permits(s.pages[g], writable)
  }

  /** A whole-page range is accessible byte by byte exactly when each page is. */
  lemma RangeIsPages(s: Space, first: nat, count: nat, writable: bool)
    requires count > 0
    ensures RangeOk(s, PAGE_SIZE * first, PAGE_SIZE * count, writable)
       <==> (&& USER_SPACE_BASE <= PAGE_SIZE * first && PAGE_SIZE * (first + count) <= USER_SPACE_END
             && PagesPermit(s, first, count, writable))
  {
    hide Permits;
    var start, len := PAGE_SIZE * first, PAGE_SIZE * count;
    if RangeOk(s, start, len, writable) {
      assert Accessible(s, start + len - 1, writable);
      forall g | first <= g < first + count ensures g in s.pages && Permits(s.pages[g], writable) {
        PageStart(g);
        assert Accessible(s, PAGE_SIZE * g, writable);
      }
    }
    if PagesPermit(s, first, count, writable) && USER_SPACE_BASE <= start && start + len <= USER_SPACE_END {
      forall a: nat | start <= a < start + len ensures Accessible(s, a, writable) {
        PageOf(a, first, count);
      }
    }
  }

  lemma PageStart(g: nat)
    ensures (PAGE_SIZE * g) / PAGE_SIZE == g
  {
  }

  lemma PageOf(a: nat, first: nat, count: nat)
    requires PAGE_SIZE * first <= a < PAGE_SIZE * (first + count)
    ensures first <= a / PAGE_SIZE < first + count
  {
  }

  function Records(s: Space, first: nat, count: nat): seq<Record>
    requires AllMapped(s, first, count)
  {
    seq(count, i requires 0 <= i < count => Record(first + i, s.pages[first + i]))
  }

  method CollectUnmapRecords(s: Space, start: nat, count: nat, known: seq<Record>) returns (r: Option<seq<Record>>)
    requires start <= U64_MAX && count <= U64_MAX
    ensures r.Some? <==> count > 0 && start % PAGE_SIZE == 0 && RangeOk(s, start, PAGE_SIZE * count, false)
    ensures r.Some? ==> AllMapped(s, start / PAGE_SIZE, count)
    ensures r.Some? ==> r.value == known + Records(s, start / PAGE_SIZE, count)
  {
    hide Permits, Canonical;
    if count == 0 || start % PAGE_SIZE != 0 { return None; }
    if PAGE_SIZE * count > U64_MAX {
      TooLong(s, start, PAGE_SIZE * count);
      return None;
    }
    var valid := ValidateUserRange(s, start, PAGE_SIZE * count, false);
    if !valid { return None; }
    var first := start / PAGE_SIZE;
    RangeIsPages(s, first, count, false);
    var out := known;
    for i := 0 to count
      invariant AllMapped(s, first, count)
      invariant out == known + Records(s, first, count)[..i]
    {
      out := out + [Record(first + i, s.pages[first + i])];
    }
    assert Records(s, first, count)[..count] == Records(s, first, count);
    r := Some(out);
  }

  lemma TooLong(s: Space, start: nat, len: nat)
    requires len > U64_MAX
    ensures !RangeOk(s, start, len, false)
  {
    if InRegion(start) { assert !Accessible(s, USER_SPACE_END, false); }
  }

  // ---- Leaves ----

  function PagesOf(records: seq<Record>): set<nat> { set i | 0 <= i < |records| :: records[i].page }

  /** The records describe distinct pages as they are mapped now. */
  predicate Matching(pages: map<nat, Entry>, records: seq<Record>) {
    && (forall i :: 0 <= i < |records| ==> records[i].page in pages && pages[records[i].page] == records[i].entry)
    && (forall i, j :: 0 <= i < j < |records| ==> records[i].page != records[j].page)
  }

  lemma PagesOfSnoc(records: seq<Record>, i: nat)
    requires i < |records|
    ensures PagesOf(records[..i + 1]) == PagesOf(records[..i]) + {records[i].page}
  {
    var a, b := records[..i + 1], records[..i];
    forall g | g in PagesOf(a) ensures g in PagesOf(b) + {records[i].page} {
      var k :| 0 <= k < |a| && a[k].page == g;
      if k < i { assert b[k].page == g; }
    }
    forall g | g in PagesOf(b) ensures g in PagesOf(a) {
      var k :| 0 <= k < |b| && b[k].page == g;
      assert a[k].page == g;
    }
    assert a[i].page == records[i].page;
  }

  lemma StillThere(pages: map<nat, Entry>, records: seq<Record>, i: nat)
    requires Matching(pages, records) && i < |records|
    ensures records[i].page !in PagesOf(records[..i])
  {
  }

  /** Removing a leaf and putting it back gives the map one removal earlier. */
  lemma PutBack(pages: map<nat, Entry>, records: seq<Record>, i: nat)
    requires Matching(pages, records) && i < |records|
    ensures (pages - PagesOf(records[..i + 1]))[records[i].page := records[i].entry] == pages - PagesOf(records[..i])
  {
    PagesOfSnoc(records, i);
    StillThere(pages, records, i);
  }

  /** The same pages are mapped, to the same frames. */
  ghost predicate SameFrames(a: map<nat, Entry>, b: map<nat, Entry>) {
    && (forall g :: g in a <==> g in b)
    && (forall g :: g in a ==> b[g].frame == a[g].frame)
  }

  /** `left` is `pages` without the leaves of `gone`, up to flags. */
  ghost predicate Without(pages: map<nat, Entry>, left: map<nat, Entry>, gone: seq<Record>) {
    && (forall g :: g in left <==> g in pages && g !in PagesOf(gone))
    && (forall g :: g in left ==> left[g].frame == pages[g].frame)
    && (forall i :: 0 <= i < |gone| ==> gone[i].page in pages && pages[gone[i].page].frame == gone[i].entry.frame)
  }

  lemma WithoutMore(pages: map<nat, Entry>, left: map<nat, Entry>, records: seq<Record>, i: nat)
    requires i < |records| && Without(pages, left, records[..i])
    requires records[i].page in left && left[records[i].page].frame == records[i].entry.frame
    ensures Without(pages, left - {records[i].page}, records[..i + 1])
  {
    hide PagesOf;
    PagesOfSnoc(records, i);
  }

  lemma WithoutLess(pages: map<nat, Entry>, left: map<nat, Entry>, records: seq<Record>, i: nat)
    requires i < |records| && Without(pages, left, records[..i + 1]) && records[i].page !in PagesOf(records[..i])
    ensures Without(pages, left[records[i].page := records[i].entry], records[..i])
  {
    hide PagesOf;
    PagesOfSnoc(records, i);
    assert records[..i + 1][i] == records[i];
    assert forall k :: 0 <= k < i ==> records[..i][k] == records[..i + 1][k];
  }

  /** The records so far name different pages. */
  predicate Distinct(records: seq<Record>, k: nat)
    requires k <= |records|
  {
    forall i :: 0 <= i < k ==> records[i].page !in PagesOf(records[..i])
  }

  /**
   Removes the leaves of `records`; the mapper refuses at index `fault`, if there is one. A leaf that is
   not there, or holds another frame, ends the removal too; the other frame is mapped back with the
   record's flags. Then everything removed so far is put back, last first.
   */
  method UnmapRecordsAtomic(pages: map<nat, Entry>, records: seq<Record>, fault: nat)
    returns (ok: bool, left: map<nat, Entry>)
    ensures ok ==> fault >= |records| && left == pages - PagesOf(records)
    ensures !ok ==> SameFrames(pages, left)
    ensures Matching(pages, records) ==> ok == (fault >= |records|) && (!ok ==> left == pages)
  {
    hide PagesOf, Without;
    left := pages;
    var removed := 0;
    NoPages(pages, records);
    WithoutNone(pages, records);
    var stopped := false;
    while removed < |records| && removed != fault && !stopped
      invariant removed <= |records| && removed <= fault && Distinct(records, removed)
      invariant Without(pages, left, records[..removed])
      invariant !stopped || Matching(pages, records) ==> left == pages - PagesOf(records[..removed])
      invariant stopped ==> removed < |records| && !Matching(pages, records)
      decreases |records| - removed, if stopped then 0 else 1
    {
      var r := records[removed];
      WithoutKeys(pages, left, records[..removed]);
      if r.page !in left {
        if Matching(pages, records) { StillThere(pages, records, removed); }
        stopped := true;
      } else if left[r.page].frame != r.entry.frame {
        WithoutFlags(pages, left, records[..removed], r.page, r.entry.flags);
        left := left[r.page := Entry(left[r.page].frame, r.entry.flags)];
        stopped := true;
      } else {
        PagesOfSnoc(records, removed);
        WithoutMore(pages, left, records, removed);
        left := left - {r.page};
        removed := removed + 1;
      }
    }
    if removed == |records| {
      assert records[..removed] == records;
      return true, left;
    }
    while removed > 0
      invariant removed <= |records| && Distinct(records, removed)
      invariant Without(pages, left, records[..removed])
      invariant Matching(pages, records) ==> left == pages - PagesOf(records[..removed])
    {
      removed := removed - 1;
      if Matching(pages, records) { PutBack(pages, records, removed); }
      WithoutLess(pages, left, records, removed);
      left := left[records[removed].page := records[removed].entry];
    }
    AllBack(pages, left, records);
    ok := false;
  }

  lemma WithoutNone(pages: map<nat, Entry>, records: seq<Record>)
    ensures Without(pages, pages, records[..0])
  {
  }

  lemma WithoutKeys(pages: map<nat, Entry>, left: map<nat, Entry>, gone: seq<Record>)
    requires Without(pages, left, gone)
    ensures forall g :: g in left <==> g in pages && g !in PagesOf(gone)
    ensures forall g :: g in left ==> left[g].frame == pages[g].frame
  {
  }

  lemma WithoutFlags(pages: map<nat, Entry>, left: map<nat, Entry>, gone: seq<Record>, page: nat, flags: Flags)
    requires Without(pages, left, gone) && page in left
    ensures Without(pages, left[page := Entry(left[page].frame, flags)], gone)
  {
  }

  lemma AllBack(pages: map<nat, Entry>, left: map<nat, Entry>, records: seq<Record>)
    requires Without(pages, left, records[..0])
    ensures SameFrames(pages, left)
  {
  }

  lemma NoPages(pages: map<nat, Entry>, records: seq<Record>)
    ensures pages - PagesOf(records[..0]) == pages
  {
  }

  /** Puts back the leaves of `records`, all of them gone from the map. */
  method RestoreUnmapRecords(now: map<nat, Entry>, records: seq<Record>, ghost pages: map<nat, Entry>)
    returns (left: map<nat, Entry>)
    requires Matching(pages, records) && now == pages - PagesOf(records)
    ensures left == pages
  {
    hide PagesOf;
    left := now;
    for i := 0 to |records|
      invariant forall g :: g in left ==> g in pages && left[g] == pages[g]
      invariant forall g :: g in pages ==> g in left || g in PagesOf(records[i..])
    {
      FirstOf(records[i..]);
      assert records[i..][1..] == records[i + 1..];
      left := left[records[i].page := records[i].entry];
    }
    NoneLeft(records[|records|..]);
  }

  lemma FirstOf(records: seq<Record>)
    requires records != []
    ensures forall g :: g in PagesOf(records) ==> g == records[0].page || g in PagesOf(records[1..])
  {
    forall g | g in PagesOf(records) && g != records[0].page ensures g in PagesOf(records[1..]) {
      var k :| 0 <= k < |records| && records[k].page == g;
      assert records[1..][k - 1].page == g;
    }
  }

  lemma NoneLeft(records: seq<Record>)
    requires records == []
    ensures PagesOf(records) == {}
  {
  }

  // ---- Frames ----

  function RecordFrames(records: seq<Record>): seq<nat> {
    seq(|records|, i requires 0 <= i < |records| => records[i].entry.frame)
  }

  function Insert(s: seq<nat>, x: nat): seq<nat> {
    if s == [] || x <= s[0] then [x] + s else [s[0]] + Insert(s[1..], x)
  }

  function Sort(s: seq<nat>): seq<nat> {
    if s == [] then [] else Insert(Sort(s[1..]), s[0])
  }

  /** Keeps the first of each run of equal neighbours. */
  function Dedup(s: seq<nat>): seq<nat> {
    if |s| <= 1 then s else if s[0] == s[1] then Dedup(s[1..]) else [s[0]] + Dedup(s[1..])
  }

  predicate Ascending(s: seq<nat>) { forall i, j :: 0 <= i < j < |s| ==> s[i] <= s[j] }

  predicate AtLeast(s: seq<nat>, low: nat) { forall i :: 0 <= i < |s| ==> low <= s[i] }

  lemma {:induction false} InsertAtLeast(s: seq<nat>, x: nat, low: nat)
    requires AtLeast(s, low) && low <= x
    ensures AtLeast(Insert(s, x), low) && |Insert(s, x)| == |s| + 1
  {
    if s != [] && x > s[0] { InsertAtLeast(s[1..], x, low); }
  }

  lemma {:induction false} InsertMoves(s: seq<nat>, x: nat)
    ensures multiset(Insert(s, x)) == multiset(s) + multiset{x}
  {
    if s != [] && x > s[0] {
      InsertMoves(s[1..], x);
      assert s == [s[0]] + s[1..];
    }
  }

  lemma {:induction false} InsertSorts(s: seq<nat>, x: nat)
    requires Ascending(s)
    ensures Ascending(Insert(s, x)) && |Insert(s, x)| == |s| + 1
  {
    if s != [] && x > s[0] {
      InsertSorts(s[1..], x);
      InsertAtLeast(s[1..], x, s[0]);
    }
  }

  lemma {:induction false} SortSorts(s: seq<nat>)
    ensures Ascending(Sort(s)) && multiset(Sort(s)) == multiset(s) && |Sort(s)| == |s|
  {
    if s != [] {
      assert s == [s[0]] + s[1..];
      SortSorts(s[1..]);
      InsertSorts(Sort(s[1..]), s[0]);
      InsertMoves(Sort(s[1..]), s[0]);
    }
  }

  lemma {:induction false} DedupLength(s: seq<nat>)
    requires Ascending(s)
    ensures |Dedup(s)| <= |s| && (|Dedup(s)| == |s| <==> NoDup(s)) && (NoDup(s) ==> Dedup(s) == s)
  {
    if |s| > 1 {
      DedupLength(s[1..]);
      if s[0] == s[1] {
        assert !NoDup(s);
      } else {
        assert forall j :: 0 < j < |s| ==> s[0] != s[j];
        assert NoDup(s[1..]) ==> NoDup(s);
        assert NoDup(s) ==> NoDup(s[1..]);
      }
    }
  }

  lemma NoDupByCount(s: seq<nat>, t: seq<nat>)
    requires multiset(s) == multiset(t) && NoDup(s)
    ensures NoDup(t)
  {
    forall f ensures multiset(t)[f] <= 1 { NoDupCount(s, f); }
    SimpleNoDup(t);
  }

  /** The transaction's frames in ascending order, or nothing if two records share one. */
  method UnmapRecordFrames(records: seq<Record>) returns (r: Option<seq<nat>>)
    ensures r.Some? <==> NoDup(RecordFrames(records))
    ensures r.Some? ==> multiset(r.value) == multiset(RecordFrames(records)) && Ascending(r.value) && NoDup(r.value)
  {
    hide NoDup, Ascending, Dedup, Sort;
    var sorted := Sort(RecordFrames(records));
    SortSorts(RecordFrames(records));
    var frames := Dedup(sorted);
    DedupLength(sorted);
    if NoDup(sorted) { NoDupByCount(sorted, RecordFrames(records)); }
    if NoDup(RecordFrames(records)) { NoDupByCount(RecordFrames(records), sorted); }
    r := if |frames| == |records| then Some(frames) else None;
  }
}
