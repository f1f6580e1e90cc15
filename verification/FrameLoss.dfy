/** A run that does lose a frame, from boot: one process, one page, killed half way through giving it up. */
module FrameLoss {
  import opened Prelude
  import opened FrameAllocator
  import opened Ownership
  import opened PageTables
  import opened FrameConservation
  import opened UserMemory

  const PAGE := 0x7_0000_0000
  const USER_FLAGS := Flags(true, true, true, true)

  function FiveFrames(): Memory {
    map[0 := ZeroFrame(), 1 := ZeroFrame(), 2 := ZeroFrame(), 3 := ZeroFrame(), 4 := ZeroFrame()]
  }

  function Start(): Sys { Boot([0, 1, 2, 3, 4], 0, FiveFrames()) }

  function Killed(): seq<Event> {
    [NewSpace(9), AddPage(9, PAGE, USER_FLAGS, NO_FAULT), RemoveLeaves(9, {PAGE}), Disown(9, [Removal(1, 1)]),
     FreeSpace(9)]
  }

  function Built(): Space {
    Space(0, map[P3 := 2, P2(PAGE / PAGES_PER_P2) := 3, P1(PAGE / PAGES_PER_P1) := 4],
          map[PAGE := Entry(1, USER_FLAGS)], [0, 1, 2, 3, 4])
  }

  lemma MapsOne()
    ensures MapPage(Pool([0, 1, 2, 3, 4], 1, []), Space(0, map[], map[], [0]), PAGE, USER_FLAGS, NO_FAULT)
         == (true, Pool([0, 1, 2, 3, 4], 5, []), Built())
  {
    var s1 := Space(0, map[], map[], [0, 1]);
    var s2 := Space(0, map[P3 := 2], map[], [0, 1, 2]);
    var s3 := Space(0, map[P3 := 2, P2(PAGE / PAGES_PER_P2) := 3], map[], [0, 1, 2, 3]);
    var s4 := Space(0, map[P3 := 2, P2(PAGE / PAGES_PER_P2) := 3, P1(PAGE / PAGES_PER_P1) := 4], map[],
                    [0, 1, 2, 3, 4]);
    var f := [0, 1, 2, 3, 4];
    assert [0] + [1] == s1.owned && AddTable(s1, P3, 2) == s2;
    assert AddTable(s2, P2(PAGE / PAGES_PER_P2), 3) == s3 && AddTable(s3, P1(PAGE / PAGES_PER_P1), 4) == s4;
    assert EnsureTable(Pool(f, 2, []), s1, P3) == (true, Pool(f, 3, []), s2);
    assert EnsureTable(Pool(f, 3, []), s2, P2(PAGE / PAGES_PER_P2)) == (true, Pool(f, 4, []), s3);
    assert EnsureTable(Pool(f, 4, []), s3, P1(PAGE / PAGES_PER_P1)) == (true, Pool(f, 5, []), s4);
  }

  function OneMapped(): Sys {
    Sys(Pool([0, 1, 2, 3, 4], 5, []), [], map[9 := Built()], map[], [], FiveFrames())
  }

  lemma Maps()
    ensures Step(Step(Start(), NewSpace(9)), AddPage(9, PAGE, USER_FLAGS, NO_FAULT)) == OneMapped()
  {
    hide MapPage, FiveFrames;
    var b := Sys(Pool([0, 1, 2, 3, 4], 1, []), [], map[9 := Space(0, map[], map[], [0])], map[], [], FiveFrames());
    assert Step(Start(), NewSpace(9)) == b;
    MapsOne();
    assert Step(b, AddPage(9, PAGE, USER_FLAGS, NO_FAULT)) == OneMapped();
  }

  lemma Loses()
    ensures var h := Step(Step(Step(OneMapped(), RemoveLeaves(9, {PAGE})), Disown(9, [Removal(1, 1)])), FreeSpace(9));
      h.lost == [1] && h.pool.freed == [0, 2, 3, 4] && h.spaces == map[]
  {
    hide FiveFrames;
    var cut := Built().(pages := map[]);
    var d := OneMapped().(spaces := map[9 := cut]);
    var g := d.(spaces := map[9 := cut.(owned := [0, 2, 3, 4])], transit := map[9 := [1]]);
    Leaves(cut);
    assert Step(OneMapped(), RemoveLeaves(9, {PAGE})) == d;
    GivesUp(cut);
    assert Step(d, Disown(9, [Removal(1, 1)])) == g;
  }

  /** Frame 1 ends up in no process, not in the pool, and not with the kernel. */
  lemma FrameLost()
    ensures Inv(Start()) && Run(Start(), Killed()).lost == [1]
    ensures 1 !in Run(Start(), Killed()).pool.freed && Run(Start(), Killed()).spaces == map[]
  {
    hide Run, Step, Inv;
    BootInv([0, 1, 2, 3, 4], 0, FiveFrames());
    Maps();
    Loses();
    FiveSteps(Start(), Killed());
  }

  lemma Leaves(cut: Space)
    requires cut == Built().(pages := map[])
    ensures Built().pages - {PAGE} == cut.pages
  {
  }

  lemma GivesUp(cut: Space)
    requires cut == Built().(pages := map[])
    ensures Apply(cut.owned, [Removal(1, 1)]) == Some([0, 2, 3, 4]) && FramesOf([Removal(1, 1)]) == [1]
    ensures !Busy(cut, 1)
  {
    assert [Removal(1, 1)][1..] == [];
    assert RemoveAt(cut.owned, 1) == [0, 2, 3, 4];
  }

  lemma FiveSteps(s: Sys, e: seq<Event>)
    requires |e| == 5
    ensures Run(s, e) == Step(Step(Step(Step(Step(s, e[0]), e[1]), e[2]), e[3]), e[4])
  {
    hide Step;
    OneStep(s, e);
    OneStep(Step(s, e[0]), e[1..]);
    OneStep(Step(Step(s, e[0]), e[1]), e[2..]);
    OneStep(Step(Step(Step(s, e[0]), e[1]), e[2]), e[3..]);
    OneStep(Step(Step(Step(Step(s, e[0]), e[1]), e[2]), e[3]), e[4..]);
    assert e[1..][1..] == e[2..] && e[2..][1..] == e[3..] && e[3..][1..] == e[4..] && e[4..][1..] == [];
  }

  lemma OneStep(s: Sys, e: seq<Event>)
    requires e != []
    ensures Run(s, e) == Run(Step(s, e[0]), e[1..])
  {
    hide Step;
  }
}
