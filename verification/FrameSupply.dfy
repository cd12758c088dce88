/** How many frames are left, and what they are enough for: conditions a caller of the page allocator can
    check before the call. */
module FrameSupply {
  import opened PhysicalMap
  import opened MapInvariant
  import opened Frames
  import opened PageTables
  import opened Words
  import opened VirtualPages
  import opened PageRuns

  /** The frames in one free region; none in the one at address 0, which is never used. */
  function FramesIn(e: Region): nat {
    if e.kind == FREE && e.base != 0 then e.length / 4096 else 0
  }

  function Available(m: seq<Region>): nat {
    if m == [] then 0 else FramesIn(m[0]) + Available(m[1..])
  }

  lemma {:induction false} AvailableAppend(a: seq<Region>, b: seq<Region>)
    ensures Available(a + b) == Available(a) + Available(b)
    decreases |a|
  {
    if a == [] {
      assert a + b == b;
    } else {
      assert (a + b)[1..] == a[1..] + b;
      AvailableAppend(a[1..], b);
    }
  }

  lemma AvailableAround(a: seq<Region>, p: seq<Region>, b: seq<Region>)
    ensures Available(a + p + b) == Available(a) + Available(p) + Available(b)
  {
    AvailableAppend(a + p, b);
    AvailableAppend(a, p);
  }

  /** Some region holds a frame exactly when there is one available. */
  lemma {:induction false} FrameLeft(m: seq<Region>)
    ensures Available(m) > 0 <==> exists k :: 0 <= k < |m| && Eligible(m[k], PAGE)
  {
    if m != [] {
      FrameLeft(m[1..]);
      assert Eligible(m[0], PAGE) <==> FramesIn(m[0]) > 0;
      assert forall k :: 1 <= k < |m| ==> m[k] == m[1..][k - 1];
      assert forall k :: 0 <= k < |m[1..]| ==> m[1..][k] == m[k + 1];
    }
  }

  lemma PiecesFrames(e: Region)
    requires Eligible(e, PAGE)
    ensures Available(Pieces(e)) == FramesIn(e) - 1
  {
    var rest := Region(e.base + PAGE, e.length - PAGE, FREE, e.acpi);
    var taken := Region(e.base, PAGE, USED, e.acpi);
    assert (e.length - 4096) / 4096 == e.length / 4096 - 1;
    if e.length == PAGE {
      assert Pieces(e) == [taken];
      assert Available([taken]) == 0;
    } else {
      assert Pieces(e) == [taken] + [rest];
      AvailableAppend([taken], [rest]);
      assert Available([taken]) == 0 && Available([rest]) == FramesIn(rest);
    }
  }

  /** While the table has room, a frame can be had exactly when one is available; having it leaves one
      fewer available, and at most one entry more. */
  lemma AllocateLowers(m: seq<Region>)
    ensures |m| < MAX_ENTRIES ==> (Grants(m, PAGE) <==> Available(m) > 0)
    ensures Grants(m, PAGE) ==> Available(m) > 0
    ensures var m' := Allocate(m, PAGE).regions;
      if Grants(m, PAGE) then Available(m') == Available(m) - 1 && |m'| <= |m| + 1 else m' == m
  {
    FrameLeft(m);
    if Grants(m, PAGE) {
      var k := BestFit(m, PAGE);
      AllocatedPieces(m);
      PiecesFrames(m[k]);
      AvailableAround(m[..k], [m[k]], m[k + 1..]);
      AvailableAround(m[..k], Pieces(m[k]), m[k + 1..]);
      assert m == m[..k] + [m[k]] + m[k + 1..];
      assert Available([m[k]]) == FramesIn(m[k]);
    }
  }

  // ----- What mapping pages costs -----

  /** The directory slots that have a table. */
  ghost function Tables(s: Mmu): set<nat>
    requires |s.directory| == ENTRIES
  {
    set d: nat | d < ENTRIES && IsPresent(s.directory[d])
  }

  /** One frame for a page, and one for its table if that is missing. */
  ghost function TurnNeeds(tables: set<nat>, v: nat): nat {
    if DirectoryIndex(v) in tables then 1 else 2
  }

  /** The frames that mapping `count` pages from `v` on takes. */
  ghost function Needed(tables: set<nat>, v: nat, count: nat): nat
    decreases count
  {
    if count == 0 then 0
    else TurnNeeds(tables, v) + Needed(tables + {DirectoryIndex(v)}, v + PAGE, count - 1)
  }

  /** The slots that have a table afterwards. */
  ghost function TablesAfter(tables: set<nat>, v: nat, count: nat): set<nat>
    decreases count
  {
    if count == 0 then tables else TablesAfter(tables + {DirectoryIndex(v)}, v + PAGE, count - 1)
  }

  ghost predicate AllMapped(s: Mmu, pages: set<nat>)
    requires WellSized(s)
  {
    forall w :: w in pages && w < TWO32 ==> IsPresent(Pte(s, w))
  }

  /** `s'` has `n` frames less to give, and `tables`. */
  ghost predicate Spent(s: Mmu, s': Mmu, n: nat, tables: set<nat>)
    requires |s'.directory| == ENTRIES
  {
    && Available(s'.regions) == Available(s.regions) - n
    && |s'.regions| <= |s.regions| + n
    && Tables(s') == tables
  }

  lemma EnsureTableSpends(s: Mmu, d: nat, flags: nat, boot: seq<Region>, image: nat)
    requires MmuInv(s, boot, image) && Aligned(s.regions) && d < ENTRIES && IsFlags(flags)
    requires IsPresent(s.directory[d]) || Grants(s.regions, PAGE)
    ensures var s' := EnsureTable(s, d, flags);
      Spent(s, s', if d in Tables(s) then 0 else 1, Tables(s) + {d}) && IsPresent(s'.directory[d])
  {
    hide Allocate, Grants;
    if !IsPresent(s.directory[d]) {
      GrantFrame(s.regions, boot, image);
      AllocateLowers(s.regions);
      NewTableDirectory(s, d, flags);
    }
  }

  lemma WriteEntrySpends(s: Mmu, v: nat, word: nat, user: bool)
    requires WellSized(s) && v < TWO32 && IsPresent(s.directory[DirectoryIndex(v)])
    ensures WriteEntry(s, v, word, user).regions == s.regions && Tables(WriteEntry(s, v, word, user)) == Tables(s)
  {
    WithUserFrame(s.directory[DirectoryIndex(v)]);
    hide PageStart, WithUser, IsPresent, IsUser;
  }

  lemma MapPageSpends(s: Mmu, physical: nat, v: nat, flags: nat, boot: seq<Region>, image: nat)
    requires MmuInv(s, boot, image) && Aligned(s.regions) && v < TWO32 && IsFlags(flags) && Mappable(s, v)
    ensures Spent(s, MapPage(s, physical, v, flags), TurnNeeds(Tables(s), v) - 1, Tables(s) + {DirectoryIndex(v)})
  {
    hide Grants, WriteEntry, EnsureTable, TablesOwned, TablesDistinct, UserUnderUser, SlotsWritable, FrameMap,
         Available;
    EnsureTableSpends(s, DirectoryIndex(v), flags, boot, image);
    WriteEntrySpends(EnsureTable(s, DirectoryIndex(v), flags), v, PageStart(physical) + flags, IsUser(flags));
  }

  /** A turn with frames enough for the page and its table maps it; no other does. */
  lemma TurnSpends(s: Mmu, v: nat, flags: nat, granted: set<nat>, boot: seq<Region>, image: nat)
    requires Held(s, granted, boot, image) && Aligned(s.regions) && IsFlags(flags) && v < TWO32
    requires |s.regions| + TurnNeeds(Tables(s), v) <= MAX_ENTRIES
    ensures Allocate(s.regions, PAGE).address != 0 && TurnMaps(s, v)
            <==> Available(s.regions) >= TurnNeeds(Tables(s), v)
    ensures Available(s.regions) >= TurnNeeds(Tables(s), v) ==>
              Spent(s, Turn(s, v, flags), TurnNeeds(Tables(s), v), Tables(s) + {DirectoryIndex(v)})
  {
    hide Allocate, Grants, Pte, MapPage, FramesOwned, FramesDistinct, TablesOwned, TablesDistinct, UserUnderUser,
         SlotsWritable, FrameMap, Available;
    GrantFrame(s.regions, boot, image);
    GrantKeeps(s, granted, boot, image);
    AllocateAligned(s.regions);
    AllocateLowers(s.regions);
    var g := Allocate(s.regions, PAGE);
    var s1 := s.(regions := g.regions);
    AllocateLowers(s1.regions);
    assert Tables(s1) == Tables(s);
    if Available(s.regions) >= TurnNeeds(Tables(s), v) {
      MapPageSpends(s1, g.address, v, flags, boot, image);
    }
  }

  /** The loop of `allocate_pages_contig` maps every one of its pages if and only if there are frames
      enough for them and for the tables they lack; and it takes exactly those. */
  lemma {:induction false} MapFramesSpends(s: Mmu, v: nat, count: nat, flags: nat, granted: set<nat>,
                                           boot: seq<Region>, image: nat)
    requires Held(s, granted, boot, image) && Aligned(s.regions) && IsFlags(flags) && IsPresent(flags)
    requires v % 4096 == 0 && v + count * 4096 <= TWO32 && granted !! PageSet(v, count)
    requires |s.regions| + Needed(Tables(s), v, count) <= MAX_ENTRIES
    ensures var r := MapFrames(s, v, count, flags);
      && (r.complete && AllMapped(r.mmu, PageSet(v, count))
          <==> Available(s.regions) >= Needed(Tables(s), v, count))
      && (Available(s.regions) >= Needed(Tables(s), v, count) ==>
            Spent(s, r.mmu, Needed(Tables(s), v, count), TablesAfter(Tables(s), v, count)))
    decreases count
  {
    hide Allocate, MapFrames, Turn, TurnMaps, Pte, PageSet, WellSized, Aligned, FlagsAre, Held, AllMapped, TurnNeeds,
         Tables, Available;
    HeldSized(s, granted, boot, image);
    if count == 0 {
      MapFramesNone(s, v, flags);
    } else {
      PageSetHead(v, count, granted);
      MapFramesTurn(s, v, count, flags);
      NeededTurn(Tables(s), v, count);
      TurnSpends(s, v, flags, granted, boot, image);
      if Allocate(s.regions, PAGE).address != 0 {
        TurnHolds(s, v, flags, granted, boot, image);
        var s' := Turn(s, v, flags);
        assert v + PAGE + (count - 1) * 4096 == v + count * 4096;
        MapFramesHolds(s', v + PAGE, count - 1, flags, granted + {v}, boot, image);
        AllMappedTurn(MapFrames(s, v, count, flags).mmu, v, count);
        if TurnMaps(s, v) {
          MapFramesSpends(s', v + PAGE, count - 1, flags, granted + {v}, boot, image);
        }
      }
    }
  }

  /** The frames without which the loop stops early: as many, but none for the last page's table. */
  ghost function Least(tables: set<nat>, v: nat, count: nat): nat
    decreases count
  {
    if count <= 1 then count
    else TurnNeeds(tables, v) + Least(tables + {DirectoryIndex(v)}, v + PAGE, count - 1)
  }

  lemma {:induction false} LeastBelow(tables: set<nat>, v: nat, count: nat)
    ensures Least(tables, v, count) <= Needed(tables, v, count) <= Least(tables, v, count) + 1
    decreases count
  {
    if count == 1 {
      NeededTurn(tables, v, 1);
    } else if count > 1 {
      LeastBelow(tables + {DirectoryIndex(v)}, v + PAGE, count - 1);
    }
  }

  lemma LeastTurn(tables: set<nat>, v: nat, count: nat)
    requires count > 0
    ensures Least(tables, v, count) ==
            if count == 1 then 1
            else TurnNeeds(tables, v) + Least(tables + {DirectoryIndex(v)}, v + PAGE, count - 1)
    ensures 0 < Least(tables, v, count)
  {
    hide DirectoryIndex;
  }

  /** The loop gives every page a frame if and only if there are that many. */
  lemma {:induction false} MapFramesCompletes(s: Mmu, v: nat, count: nat, flags: nat, granted: set<nat>,
                                              boot: seq<Region>, image: nat)
    requires Held(s, granted, boot, image) && Aligned(s.regions) && IsFlags(flags)
    requires v % 4096 == 0 && v + count * 4096 <= TWO32 && granted !! PageSet(v, count)
    requires |s.regions| + Needed(Tables(s), v, count) <= MAX_ENTRIES
    ensures MapFrames(s, v, count, flags).complete <==> Available(s.regions) >= Least(Tables(s), v, count)
    decreases count
  {
    hide Allocate, MapFrames, Turn, TurnMaps, Pte, PageSet, WellSized, Aligned, FlagsAre, Held, AllMapped, TurnNeeds,
         Tables, Available, Grants;
    HeldSized(s, granted, boot, image);
    if count == 0 {
      MapFramesNone(s, v, flags);
    } else {
      PageSetHead(v, count, granted);
      MapFramesTurn(s, v, count, flags);
      NeededTurn(Tables(s), v, count);
      LeastTurn(Tables(s), v, count);
      FrameToBeHad(s, v, granted, boot, image);
      TurnSpends(s, v, flags, granted, boot, image);
      if Allocate(s.regions, PAGE).address != 0 {
        TurnHolds(s, v, flags, granted, boot, image);
        var s' := Turn(s, v, flags);
        assert v + PAGE + (count - 1) * 4096 == v + count * 4096;
        if count == 1 {
          MapFramesNone(s', v + PAGE, flags);
        } else {
          MapFramesTurn(s', v + PAGE, count - 1, flags);
          LeastTurn(Tables(s) + {DirectoryIndex(v)}, v + PAGE, count - 1);
          if TurnMaps(s, v) {
            MapFramesCompletes(s', v + PAGE, count - 1, flags, granted + {v}, boot, image);
          }
        }
      }
    }
  }

  lemma FrameToBeHad(s: Mmu, v: nat, granted: set<nat>, boot: seq<Region>, image: nat)
    requires Held(s, granted, boot, image) && |s.regions| + TurnNeeds(Tables(s), v) <= MAX_ENTRIES
    ensures Allocate(s.regions, PAGE).address != 0 <==> Available(s.regions) > 0
    ensures 1 <= TurnNeeds(Tables(s), v) <= 2
  {
    hide Allocate, Grants, Available;
    GrantFrame(s.regions, boot, image);
    AllocateLowers(s.regions);
  }

  lemma MapFramesNone(s: Mmu, v: nat, flags: nat)
    requires WellSized(s) && Aligned(s.regions) && IsFlags(flags)
    ensures MapFrames(s, v, 0, flags) == Mapped(s, true) && AllMapped(s, PageSet(v, 0))
  {
  }

  lemma HeldSized(s: Mmu, granted: set<nat>, boot: seq<Region>, image: nat)
    requires Held(s, granted, boot, image)
    ensures WellSized(s) && |s.directory| == ENTRIES
  {
  }

  lemma NeededTurn(tables: set<nat>, v: nat, count: nat)
    requires count > 0
    ensures Needed(tables, v, count)
            == TurnNeeds(tables, v) + Needed(tables + {DirectoryIndex(v)}, v + PAGE, count - 1)
  {
  }

  lemma AllMappedTurn(s: Mmu, v: nat, count: nat)
    requires WellSized(s) && v < TWO32 && count > 0
    ensures AllMapped(s, PageSet(v, count)) <==> IsPresent(Pte(s, v)) && AllMapped(s, PageSet(v + PAGE, count - 1))
  {
    hide Pte;
  }

  // ----- The page allocator -----

  /** There are frames for the `count` pages from `v` on, and the table has room to record them. */
  ghost predicate Supplied(s: Mmu, v: nat, count: nat)
    requires |s.directory| == ENTRIES
  {
    var n := Needed(Tables(s), v, count);
    |s.regions| + n <= MAX_ENTRIES && Available(s.regions) >= n
  }

  /** `allocate_page` grants a mapped page if and only if there is a frame for it and one for its table. */
  lemma PageSpends(s: Vm, flag: nat, granted: set<nat>, boot: seq<Region>, image: nat)
    requires Owns(s, granted, boot, image) && Ready(s) && IsFlags(flag) && IsPresent(EffectiveFlags(flag))
    requires s.stack == [] ==> s.next + PAGE < TWO32
    requires |s.mmu.regions| + Needed(Tables(s.mmu), PickPage(s).page, 1) <= MAX_ENTRIES
    ensures var g, v := AllocatePage(s, flag), PickPage(s).page;
      var n := Needed(Tables(s.mmu), v, 1);
      && (g.page != 0 && IsPresent(Pte(g.vm.mmu, g.page)) <==> Available(s.mmu.regions) >= n)
      && (Available(s.mmu.regions) >= n ==>
            g.page == v && Spent(s.mmu, g.vm.mmu, n, TablesAfter(Tables(s.mmu), v, 1)))
  {
    hide Pte, Allocate, MapPage, MmuInv, FramesOwned, FramesDistinct, Tables, Available;
    var v := PickPage(s).page;
    PickFresh(s, granted, boot, image);
    OwnsHeld(s, granted, boot, image);
    HeldSized(s.mmu, granted, boot, image);
    NeededTurn(Tables(s.mmu), v, 1);
    TurnSpends(s.mmu, v, EffectiveFlags(flag), granted, boot, image);
    PageTurn(s, flag);
    if Allocate(s.mmu.regions, PAGE).address != 0 {
      TurnHolds(s.mmu, v, EffectiveFlags(flag), granted, boot, image);
    }
  }

  /** `allocate_page` is one turn of the loop of `allocate_pages_contig`, on the page it picks. */
  lemma PageTurn(s: Vm, flag: nat)
    requires Ready(s) && IsFlags(flag)
    ensures var g := AllocatePage(s, flag);
      if Allocate(s.mmu.regions, PAGE).address == 0 then g.page == 0
      else g.page == PickPage(s).page && g.vm.mmu == Turn(s.mmu, PickPage(s).page, EffectiveFlags(flag))
  {
    hide Allocate, MapPage;
  }

  /** `allocate_pages_contig` grants pages that are all mapped if and only if there are frames for all; it
      grants pages at all if and only if there are frames for all but the last page's table. */
  lemma ContigSpends(s: Vm, count: nat, flag: nat, granted: set<nat>, boot: seq<Region>, image: nat)
    requires Owns(s, granted, boot, image) && Ready(s) && IsFlags(flag) && IsPresent(EffectiveFlags(flag))
    requires s.next + count * 4096 < TWO32
    requires |s.mmu.regions| + Needed(Tables(s.mmu), s.next, count) <= MAX_ENTRIES
    ensures var g, n := AllocatePagesContig(s, count, flag), Needed(Tables(s.mmu), s.next, count);
      && (g.page != 0 <==> Available(s.mmu.regions) >= Least(Tables(s.mmu), s.next, count))
      && (g.page != 0 && AllMapped(g.vm.mmu, PageSet(g.page, count)) <==> Available(s.mmu.regions) >= n)
      && (Available(s.mmu.regions) >= n ==> Spent(s.mmu, g.vm.mmu, n, TablesAfter(Tables(s.mmu), s.next, count)))
  {
    hide Pte, MapFrames, MmuInv, FramesOwned, FramesDistinct, AllMapped, PageSet, StackInv, Tables, Available;
    PageSetBounds(s.next, count);
    OwnsHeld(s, granted, boot, image);
    MapFramesSpends(s.mmu, s.next, count, EffectiveFlags(flag), granted, boot, image);
    MapFramesCompletes(s.mmu, s.next, count, EffectiveFlags(flag), granted, boot, image);
  }

  /** The request finds the frames it needs. */
  ghost predicate Enough(h: Holding, op: PageOp)
    requires Ready(h.vm)
  {
    match op
    case GetPage(flag) => Supplied(h.vm.mmu, PickPage(h.vm).page, 1)
    case GetPages(count, flag) => Supplied(h.vm.mmu, h.vm.next, count)
    case GivePage(page) => true
  }

  ghost predicate EnoughRun(h: Holding, ops: seq<PageOp>)
    requires Ready(h.vm) && AllowedRun(h, ops)
    decreases |ops|
  {
    ops != [] ==>
      Enough(h, ops[0]) && (PerformReady(h, ops[0]); EnoughRun(Perform(h, ops[0]), ops[1..]))
  }

  lemma StepMapped(h: Holding, op: PageOp, boot: seq<Region>, image: nat)
    requires Ready(h.vm) && Allowed(h, op) && Enough(h, op)
    requires Owns(h.vm, h.granted, boot, image) && AllMapped(h.vm.mmu, h.granted)
    ensures var h' := Perform(h, op);
      && Ready(h'.vm) && Owns(h'.vm, h'.granted, boot, image) && AllMapped(h'.vm.mmu, h'.granted)
  {
    hide Pte, AllocatePage, AllocatePagesContig, FreePage, Owns, PageSet, Needed, Tables, Available;
    PerformReady(h, op);
    match op {
      case GetPage(flag) =>
        AllocatePageOwns(h.vm, flag, h.granted, boot, image);
        PageSpends(h.vm, flag, h.granted, boot, image);
      case GetPages(count, flag) =>
        ContigOwns(h.vm, count, flag, h.granted, boot, image);
        ContigSpends(h.vm, count, flag, h.granted, boot, image);
      case GivePage(page) => FreePageReturns(h.vm, page, h.granted, boot, image);
    }
  }

  /** As long as every request finds the frames it needs, every page in hand is mapped in every state of a
      run; with `Owns`, to a frame of its own. */
  lemma {:induction false} RunMapped(h: Holding, ops: seq<PageOp>, boot: seq<Region>, image: nat)
    requires Ready(h.vm) && AllowedRun(h, ops) && EnoughRun(h, ops)
    requires Owns(h.vm, h.granted, boot, image) && AllMapped(h.vm.mmu, h.granted)
    ensures var h' := PerformAll(h, ops); Owns(h'.vm, h'.granted, boot, image) && AllMapped(h'.vm.mmu, h'.granted)
    decreases |ops|
  {
    if ops != [] {
      hide Perform, Owns, AllMapped, Enough, Allowed;
      StepMapped(h, ops[0], boot, image);
      RunMapped(Perform(h, ops[0]), ops[1..], boot, image);
    }
  }
}
