/** Contiguous grants, and whole runs of the virtual page allocator. */
module PageRuns {
  import opened PhysicalMap
  import opened MapTiling
  import opened Frames
  import opened PageTables
  import opened Words
  import opened VirtualPages

  /** The `count` pages from `v` on. */
  ghost function PageSet(v: nat, count: nat): set<nat>
    decreases count
  {
    if count == 0 then {} else {v} + PageSet(v + PAGE, count - 1)
  }

  /** The invariant of the pages in `granted`, without the bookkeeping of free pages. */
  ghost predicate Held(s: Mmu, granted: set<nat>, boot: seq<Region>, image: nat) {
    && MmuInv(s, boot, image)
    && FramesOwned(s, granted, boot)
    && FramesDistinct(s, granted)
    && forall w :: w in granted ==> w % 4096 == 0
  }

  /** Each of these pages is mapped with just these flags, or has no entry. */
  ghost predicate FlagsAre(s: Mmu, pages: set<nat>, flags: nat)
    requires WellSized(s)
  {
    forall w :: w in pages && w < TWO32 ==> Pte(s, w) == 0 || Pte(s, w) == PageStart(Pte(s, w)) + flags
  }

  lemma HeldSubset(s: Mmu, granted: set<nat>, fewer: set<nat>, boot: seq<Region>, image: nat)
    requires Held(s, granted, boot, image) && fewer <= granted
    ensures Held(s, fewer, boot, image)
  {
  }

  /** The memory one turn of the loop of `allocate_pages_contig` leaves, when it gets its frame. */
  ghost function Turn(s: Mmu, v: nat, flags: nat): (s': Mmu)
    requires WellSized(s) && Aligned(s.regions) && IsFlags(flags)
    ensures WellSized(s') && Aligned(s'.regions)
  {
    AllocateAligned(s.regions);
    var g := Allocate(s.regions, PAGE);
    MapPage(s.(regions := g.regions), g.address, v % 0x1_0000_0000, flags)
  }

  /** In that turn the page finds a table, or a second frame for one. */
  ghost predicate TurnMaps(s: Mmu, v: nat)
    requires |s.directory| == ENTRIES
  {
    Mappable(s.(regions := Allocate(s.regions, PAGE).regions), v % 0x1_0000_0000)
  }

  lemma MapFramesTurn(s: Mmu, v: nat, count: nat, flags: nat)
    requires WellSized(s) && Aligned(s.regions) && IsFlags(flags) && count > 0
    ensures Allocate(s.regions, PAGE).address == 0 ==> !MapFrames(s, v, count, flags).complete
    ensures Allocate(s.regions, PAGE).address != 0 ==>
              MapFrames(s, v, count, flags) == MapFrames(Turn(s, v, flags), v + PAGE, count - 1, flags)
  {
    hide Allocate, MapPage;
  }

  /** A turn that gets its frame. */
  lemma TurnHolds(s: Mmu, v: nat, flags: nat, granted: set<nat>, boot: seq<Region>, image: nat)
    requires Held(s, granted, boot, image) && Aligned(s.regions) && IsFlags(flags)
    requires v % 4096 == 0 && v < TWO32 && v !in granted && Allocate(s.regions, PAGE).address != 0
    ensures var s' := Turn(s, v, flags);
      && Held(s', granted + {v}, boot, image)
      && (IsPresent(flags) ==> (IsPresent(Pte(s', v)) <==> TurnMaps(s, v)))
      && (!TurnMaps(s, v) ==> Allocate(s'.regions, PAGE).address == 0)
  {
    hide Allocate, MapPage, Pte, FramesOwned, FramesDistinct, MmuInv, Mappable, PageStart;
    MapOneFrame(s, v, flags, granted, boot, image);
    AllocateAligned(s.regions);
    FlagsWord(Allocate(s.regions, PAGE).address, flags);
  }

  /** One turn of the loop of `allocate_pages_contig`. */
  lemma MapOneFrame(s: Mmu, v: nat, flags: nat, granted: set<nat>, boot: seq<Region>, image: nat)
    requires Held(s, granted, boot, image) && IsFlags(flags)
    requires v % 4096 == 0 && v < TWO32 && v !in granted
    ensures Aligned(s.regions)
    ensures var g := Allocate(s.regions, PAGE);
      var s1 := s.(regions := g.regions);
      && Held(s1, granted, boot, image)
      && (forall w :: 0 <= w < TWO32 ==> Pte(s1, w) == Pte(s, w))
      && (g.address != 0 ==>
            && Aligned(s1.regions)
            && Held(MapPage(s1, g.address, v, flags), granted + {v}, boot, image)
            && FlagsAre(MapPage(s1, g.address, v, flags), {v}, flags)
            && Pte(MapPage(s1, g.address, v, flags), v) == (if Mappable(s1, v) then g.address + flags else 0)
            && (!Mappable(s1, v) ==> Allocate(MapPage(s1, g.address, v, flags).regions, PAGE).address == 0)
            && forall w :: w in granted && w < TWO32 ==> Pte(MapPage(s1, g.address, v, flags), w) == Pte(s, w))
  {
    hide Pte, PageStart, Allocate, MapPage, TablesOwned, TablesDistinct, UserUnderUser, SlotsWritable, FramesOwned,
         FramesDistinct;
    GrantKeeps(s, granted, boot, image);
    ShapedAligned(s.regions, boot, image);
    AllocateAligned(s.regions);
    var g := Allocate(s.regions, PAGE);
    var s1 := s.(regions := g.regions);
    if g.address != 0 {
      FreshFrameUnheld(s, s1, g.address, granted, boot);
      MapFresh(s1, g.address, v, flags, granted, boot, image);
      FlagsWord(g.address, flags);
      UnmappedStarves(s1, g.address, v, flags, boot, image);
    }
  }

  /** A page is left without a table only when there are no frames left. */
  lemma UnmappedStarves(s: Mmu, physical: nat, v: nat, flags: nat, boot: seq<Region>, image: nat)
    requires MmuInv(s, boot, image) && Aligned(s.regions) && v < TWO32 && IsFlags(flags)
    ensures !Mappable(s, v) ==> Allocate(MapPage(s, physical, v, flags).regions, PAGE).address == 0
  {
    hide Allocate, TablesOwned, TablesDistinct, UserUnderUser, SlotsWritable;
    GrantFrame(s.regions, boot, image);
  }

  lemma {:induction false} PageSetBounds(v: nat, count: nat)
    requires v % 4096 == 0
    ensures forall w :: w in PageSet(v, count) <==> w % 4096 == 0 && v <= w < v + count * 4096
    decreases count
  {
    if count > 0 {
      PageSetBounds(v + PAGE, count - 1);
      assert v + PAGE + (count - 1) * 4096 == v + count * 4096;
    }
  }

  lemma {:induction false} MapFramesHolds(s: Mmu, v: nat, count: nat, flags: nat, granted: set<nat>,
                                          boot: seq<Region>, image: nat)
    requires Held(s, granted, boot, image) && Aligned(s.regions) && IsFlags(flags)
    requires v % 4096 == 0 && v + count * 4096 <= TWO32
    requires granted !! PageSet(v, count)
    ensures var r := MapFrames(s, v, count, flags);
      && Held(r.mmu, granted, boot, image)
      && (r.complete ==> Held(r.mmu, granted + PageSet(v, count), boot, image)
                         && FlagsAre(r.mmu, PageSet(v, count), flags))
      && (forall w :: w in granted && w < TWO32 ==> Pte(r.mmu, w) == Pte(s, w))
    decreases count
  {
    hide Allocate, MapPage, Pte, FramesOwned, FramesDistinct, TablesOwned, TablesDistinct, UserUnderUser, SlotsWritable,
         FrameMap;
    if count == 0 {
      assert granted + PageSet(v, count) == granted;
    } else {
      PageSetBounds(v + 4096, count - 1);
      MapOneFrame(s, v, flags, granted, boot, image);
      var g := Allocate(s.regions, PAGE);
      if g.address != 0 {
        var s2 := MapPage(s.(regions := g.regions), g.address, v, flags);
        assert v + PAGE + (count - 1) * 4096 == v + count * 4096;
        MapFramesHolds(s2, v + PAGE, count - 1, flags, granted + {v}, boot, image);
        assert granted + {v} + PageSet(v + PAGE, count - 1) == granted + PageSet(v, count);
        HeldSubset(MapFrames(s2, v + PAGE, count - 1, flags).mmu, granted + {v}, granted, boot, image);
      }
    }
  }

  /** The last turn of the loop finds its page table, or a frame for it. */
  ghost predicate LastMapped(s: Mmu, v: nat, count: nat, flags: nat)
    requires WellSized(s) && Aligned(s.regions) && IsFlags(flags) && count > 0
    decreases count
  {
    if count == 1 then TurnMaps(s, v) else LastMapped(Turn(s, v, flags), v + PAGE, count - 1, flags)
  }

  /** Of the pages from `v` on, all are mapped but the last, which is mapped exactly under `LastMapped`. */
  ghost predicate MappedRun(s: Mmu, v: nat, count: nat, last: bool)
    requires WellSized(s)
  {
    && (forall w :: w in PageSet(v, count) && w + 4096 < v + count * 4096 && w < TWO32 ==> IsPresent(Pte(s, w)))
    && (forall w :: w in PageSet(v, count) && w + 4096 == v + count * 4096 && w < TWO32 ==>
          (IsPresent(Pte(s, w)) <==> last))
  }

  lemma MappedRunFrom(s: Mmu, v: nat, count: nat, last: bool)
    requires WellSized(s) && v % 4096 == 0 && v < TWO32 && count > 0
    requires if count == 1 then IsPresent(Pte(s, v)) <==> last
             else IsPresent(Pte(s, v)) && MappedRun(s, v + PAGE, count - 1, last)
    ensures MappedRun(s, v, count, last)
  {
    hide Pte;
    PageSetBounds(v + 4096, count - 1);
  }

  /** The page of one turn is not among those of the turns to come. */
  lemma PageSetHead(v: nat, count: nat, granted: set<nat>)
    requires v % 4096 == 0 && count > 0 && granted !! PageSet(v, count)
    ensures v !in granted && granted + {v} !! PageSet(v + PAGE, count - 1)
  {
    PageSetBounds(v + 4096, count - 1);
  }

  /** A turn that finds no table for its page takes the last frame there is, so no turn follows it. */
  lemma {:induction false} MapFramesMaps(s: Mmu, v: nat, count: nat, flags: nat, granted: set<nat>,
                                         boot: seq<Region>, image: nat)
    requires Held(s, granted, boot, image) && Aligned(s.regions) && IsFlags(flags) && IsPresent(flags)
    requires v % 4096 == 0 && v + count * 4096 <= TWO32 && count > 0
    requires granted !! PageSet(v, count)
    requires MapFrames(s, v, count, flags).complete
    ensures MappedRun(MapFrames(s, v, count, flags).mmu, v, count, LastMapped(s, v, count, flags))
    decreases count
  {
    hide Allocate, MapFrames, Turn, TurnMaps, Pte, MappedRun, PageSet, FlagsAre, WellSized, Aligned, LastMapped,
         FrameMap, TablesOwned, TablesDistinct, UserUnderUser, SlotsWritable, FramesOwned, FramesDistinct;
    PageSetHead(v, count, granted);
    MapFramesTurn(s, v, count, flags);
    TurnHolds(s, v, flags, granted, boot, image);
    var s' := Turn(s, v, flags);
    assert v + PAGE + (count - 1) * 4096 == v + count * 4096;
    MapFramesHolds(s', v + PAGE, count - 1, flags, granted + {v}, boot, image);
    if count > 1 {
      MapFramesTurn(s', v + PAGE, count - 1, flags);
      MapFramesMaps(s', v + PAGE, count - 1, flags, granted + {v}, boot, image);
    }
    LastMappedTurn(s, v, count, flags);
    MappedRunFrom(MapFrames(s, v, count, flags).mmu, v, count, LastMapped(s, v, count, flags));
  }

  lemma LastMappedTurn(s: Mmu, v: nat, count: nat, flags: nat)
    requires WellSized(s) && Aligned(s.regions) && IsFlags(flags) && count > 0
    ensures LastMapped(s, v, count, flags) ==
            if count == 1 then TurnMaps(s, v) else LastMapped(Turn(s, v, flags), v + PAGE, count - 1, flags)
  {
  }

  /** `allocate_pages_contig` grants `count` consecutive pages nobody holds, or returns 0; either way
      the pages in hand stay mapped as they were. Every page granted is mapped, to a frame of its own,
      except the last when there was neither a table for it nor a frame for one. */
  lemma ContigOwns(s: Vm, count: nat, flag: nat, granted: set<nat>, boot: seq<Region>, image: nat)
    requires Owns(s, granted, boot, image) && Ready(s) && IsFlags(flag)
    requires s.next + count * 4096 < TWO32
    ensures var g := AllocatePagesContig(s, count, flag);
      && (g.page == 0 ==> Owns(g.vm, granted, boot, image))
      && (g.page != 0 ==> g.page == s.next && granted !! PageSet(g.page, count)
                          && Owns(g.vm, granted + PageSet(g.page, count), boot, image))
      && (g.page != 0 && count > 0 && IsPresent(EffectiveFlags(flag)) ==>
            && FlagsAre(g.vm.mmu, PageSet(g.page, count), EffectiveFlags(flag))
            && MappedRun(g.vm.mmu, g.page, count, LastMapped(s.mmu, s.next, count, EffectiveFlags(flag))))
      && (forall w :: w in granted && w < TWO32 ==> Pte(g.vm.mmu, w) == Pte(s.mmu, w))
  {
    hide Pte, MapFrames, MmuInv, FramesOwned, FramesDistinct, MappedRun, FlagsAre, LastMapped, PageSet, StackInv;
    PageSetBounds(s.next, count);
    OwnsHeld(s, granted, boot, image);
    MapFramesHolds(s.mmu, s.next, count, EffectiveFlags(flag), granted, boot, image);
    assert (s.next + count * 4096) % 4096 == 0;
    var g := AllocatePagesContig(s, count, flag);
    if g.page != 0 && count > 0 && IsPresent(EffectiveFlags(flag)) {
      MapFramesMaps(s.mmu, s.next, count, EffectiveFlags(flag), granted, boot, image);
    }
    StackBelow(s, g.vm, granted, PageSet(s.next, count));
  }

  lemma OwnsHeld(s: Vm, granted: set<nat>, boot: seq<Region>, image: nat)
    requires Owns(s, granted, boot, image)
    ensures Held(s.mmu, granted, boot, image)
  {
  }

  /** New pages lie above everything on the free stack. */
  lemma StackBelow(s: Vm, s': Vm, granted: set<nat>, pages: set<nat>)
    requires StackInv(s, granted) && s'.stack == s.stack && s.next <= s'.next
    requires forall w :: w in pages ==> s.next <= w
    ensures StackInv(s', granted) && StackInv(s', granted + pages)
  {
  }

  /** With one frame left and no table at 4 MiB, a page is granted there that is not mapped. */
  lemma ContigUnmapped(flag: nat)
    requires IsFlags(flag)
    ensures var boot := [Region(0x10_0000, 0x1000, FREE, 1)];
      var s := Vm(FirstPage(boot, 0x3_0000), 0x40_0000, []);
      && FrameMap(boot, boot, 0x3_0000) && Ready(s) && Owns(s, {}, boot, 0x3_0000)
      && AllocatePagesContig(s, 1, flag).page == 0x40_0000
      && Pte(AllocatePagesContig(s, 1, flag).vm.mmu, 0x40_0000) == 0
  {
    var boot := [Region(0x10_0000, 0x1000, FREE, 1)];
    TilesItself(boot);
    BootOwns(boot, 0x3_0000, 0x40_0000);
    var mmu := FirstPage(boot, 0x3_0000);
    var s := Vm(mmu, 0x40_0000, []);
    var none := [Region(0x10_0000, 0x1000, USED, 1)];
    assert BestFit(boot, PAGE) == 0 && BestFit(none, PAGE) == -1;
    assert Allocate(boot, PAGE) == PhysicalMap.Grant(none, 0x10_0000);
    hide FirstPage, FrameMap, MmuInv, Allocate, Owns;
    var left := MapPage(mmu.(regions := none), 0x10_0000, 0x40_0000, EffectiveFlags(flag));
    assert Allocate(none, PAGE).address == 0;
    assert left.directory == mmu.directory;
    assert MapFrames(mmu, 0x40_0000, 1, EffectiveFlags(flag)) == Mapped(left, true);
  }

  // ----- Runs -----

  datatype PageOp = GetPage(flag: nat) | GetPages(count: nat, flag: nat) | GivePage(page: nat)

  /** The allocator, and the pages its callers hold. */
  datatype Holding = Holding(vm: Vm, granted: set<nat>)

  /** Pages are given back only by whoever holds them, at most 1024 freed pages are kept, and the bump
      pointer stays below 4 GiB: the source checks none of this. */
  ghost predicate Allowed(h: Holding, op: PageOp) {
    match op
    case GetPage(flag) =>
      IsFlags(flag) && IsPresent(EffectiveFlags(flag)) && (h.vm.stack == [] ==> h.vm.next + PAGE < TWO32)
    case GetPages(count, flag) =>
      IsFlags(flag) && IsPresent(EffectiveFlags(flag)) && h.vm.next + count * 4096 < TWO32
    case GivePage(page) =>
      page in h.granted && page < TWO32 && |h.vm.stack| < MAX_FREE_PAGES
  }

  ghost function Perform(h: Holding, op: PageOp): Holding
    requires Ready(h.vm) && Allowed(h, op)
  {
    match op
    case GetPage(flag) =>
      var g := AllocatePage(h.vm, flag);
      Holding(g.vm, if g.page == 0 then h.granted else h.granted + {g.page})
    case GetPages(count, flag) =>
      var g := AllocatePagesContig(h.vm, count, flag);
      Holding(g.vm, if g.page == 0 then h.granted else h.granted + PageSet(g.page, count))
    case GivePage(page) =>
      Holding(FreePage(h.vm, page), h.granted - {page})
  }

  lemma PerformReady(h: Holding, op: PageOp)
    requires Ready(h.vm) && Allowed(h, op)
    ensures Ready(Perform(h, op).vm)
  {
  }

  ghost predicate AllowedRun(h: Holding, ops: seq<PageOp>)
    requires Ready(h.vm)
    decreases |ops|
  {
    ops != [] ==>
      Allowed(h, ops[0]) && (PerformReady(h, ops[0]); AllowedRun(Perform(h, ops[0]), ops[1..]))
  }

  ghost function PerformAll(h: Holding, ops: seq<PageOp>): Holding
    requires Ready(h.vm) && AllowedRun(h, ops)
    decreases |ops|
  {
    if ops == [] then h else (PerformReady(h, ops[0]); PerformAll(Perform(h, ops[0]), ops[1..]))
  }

  /** The page allocator at boot: the first 4 MiB mapped, nothing handed out, and the bump pointer at
      the first page after the kernel image. */
  lemma BootOwns(boot: seq<Region>, image: nat, next: nat)
    requires FrameMap(boot, boot, image) && image % 4096 == 0
    requires next % 4096 == 0 && 0 < next < TWO32
    ensures var vm := Vm(FirstPage(boot, image), next, []);
      Ready(vm) && Owns(vm, {}, boot, image)
  {
    FirstPageInv(boot, boot, image);
    ShapedAligned(boot, boot, image);
    hide Pte, FirstPage, FrameMap;
  }

  /** Over any run of the three operations, the pages in hand and the free stack stay disjoint and
      free of duplicates, and pages in hand that are mapped keep frames of their own. */
  lemma {:induction false} RunOwns(h: Holding, ops: seq<PageOp>, boot: seq<Region>, image: nat)
    requires Ready(h.vm) && AllowedRun(h, ops)
    requires Owns(h.vm, h.granted, boot, image)
    ensures var h' := PerformAll(h, ops); Owns(h'.vm, h'.granted, boot, image)
    decreases |ops|
  {
    if ops != [] {
      var op := ops[0];
      PerformReady(h, op);
      match op {
        case GetPage(flag) => AllocatePageOwns(h.vm, flag, h.granted, boot, image);
        case GetPages(count, flag) => ContigOwns(h.vm, count, flag, h.granted, boot, image);
        case GivePage(page) => FreePageReturns(h.vm, page, h.granted, boot, image);
      }
      RunOwns(Perform(h, op), ops[1..], boot, image);
    }
  }

  // ----- No page is lost -----

  /** Every page from `first` up to the bump pointer is in hand, freed, or in `lost`, and in one of these only. */
  ghost predicate Accounted(h: Holding, lost: set<nat>, first: nat) {
    && (forall w :: w in h.granted || w in h.vm.stack || w in lost <==> w % 4096 == 0 && first <= w < h.vm.next)
    && lost !! h.granted && (forall w :: w in h.vm.stack ==> w !in lost && w !in h.granted)
  }

  /** The pages a request loses: those of a contiguous request that fails. */
  ghost function Loses(h: Holding, op: PageOp): set<nat>
    requires Ready(h.vm) && Allowed(h, op)
  {
    if op.GetPages? && AllocatePagesContig(h.vm, op.count, op.flag).page == 0 then PageSet(h.vm.next, op.count) else {}
  }

  ghost function LosesAll(h: Holding, ops: seq<PageOp>): set<nat>
    requires Ready(h.vm) && AllowedRun(h, ops)
    decreases |ops|
  {
    if ops == [] then {} else
      PerformReady(h, ops[0]);
      Loses(h, ops[0]) + LosesAll(Perform(h, ops[0]), ops[1..])
  }

  lemma GetPageAccounts(h: Holding, flag: nat, lost: set<nat>, first: nat, boot: seq<Region>, image: nat)
    requires Ready(h.vm) && Allowed(h, GetPage(flag)) && Accounted(h, lost, first)
    requires Owns(h.vm, h.granted, boot, image) && first <= h.vm.next
    ensures Accounted(Perform(h, GetPage(flag)), lost, first)
    ensures h.vm.next <= Perform(h, GetPage(flag)).vm.next
  {
    hide AllocatePage, Allocate, MmuInv, FramesOwned, FramesDistinct, Ready, Accounted;
    var s, g, h' := h.vm, AllocatePage(h.vm, flag), Perform(h, GetPage(flag));
    PageTaken(s, flag);
    if Allocate(s.mmu.regions, PAGE).address == 0 {
      NothingTaken(h, h', lost, first);
    } else if s.stack != [] {
      assert s.stack[|s.stack| - 1] == g.page;
      FreedTaken(h, h', g.page, lost, first);
    } else {
      NextTaken(h, h', lost, first);
    }
  }

  lemma NothingTaken(h: Holding, h': Holding, lost: set<nat>, first: nat)
    requires Accounted(h, lost, first)
    requires h'.vm.stack == h.vm.stack && h'.vm.next == h.vm.next && h'.granted == h.granted
    ensures Accounted(h', lost, first)
  {
  }

  lemma FreedTaken(h: Holding, h': Holding, page: nat, lost: set<nat>, first: nat)
    requires Accounted(h, lost, first)
    requires forall i, j :: 0 <= i < j < |h.vm.stack| ==> h.vm.stack[i] != h.vm.stack[j]
    requires h.vm.stack == h'.vm.stack + [page] && h'.vm.next == h.vm.next && h'.granted == h.granted + {page}
    ensures Accounted(h', lost, first)
  {
    PageReturns(h.vm.stack, h'.vm.stack, page);
  }

  lemma NextTaken(h: Holding, h': Holding, lost: set<nat>, first: nat)
    requires Accounted(h, lost, first) && h.vm.next % 4096 == 0 && first <= h.vm.next
    requires h.vm.stack == h'.vm.stack == [] && h'.vm.next == h.vm.next + 4096
    requires h'.granted == h.granted + {h.vm.next}
    ensures Accounted(h', lost, first)
  {
    NextPage(h.vm.next);
    var p := h.vm.next;
    assert p !in h.granted && p !in lost;
    forall w ensures w in h'.granted || w in lost <==> w % 4096 == 0 && first <= w < h'.vm.next {
      assert w % 4096 == 0 && p <= w < p + 4096 <==> w == p;
    }
  }

  lemma PageReturns(stack: seq<nat>, stack': seq<nat>, page: nat)
    requires stack == stack' + [page]
    requires forall i, j :: 0 <= i < j < |stack| ==> stack[i] != stack[j]
    ensures page !in stack' && forall w :: w in stack <==> w in stack' || w == page
  {
    forall i | 0 <= i < |stack'| ensures stack'[i] != page {
      assert stack[i] == stack'[i] && stack[|stack'|] == page;
    }
  }

  /** Between an aligned address and the next page there is just that page. */
  lemma NextPage(p: nat)
    requires p % 4096 == 0
    ensures forall w: nat :: w % 4096 == 0 && p <= w < p + 4096 <==> w == p
  {
  }

  lemma GetPagesAccounts(h: Holding, count: nat, flag: nat, lost: set<nat>, first: nat, boot: seq<Region>, image: nat)
    requires Ready(h.vm) && Allowed(h, GetPages(count, flag)) && Accounted(h, lost, first)
    requires Owns(h.vm, h.granted, boot, image) && first <= h.vm.next
    ensures Accounted(Perform(h, GetPages(count, flag)), lost + Loses(h, GetPages(count, flag)), first)
    ensures h.vm.next <= Perform(h, GetPages(count, flag)).vm.next
  {
    hide MapFrames, MmuInv, FramesOwned, FramesDistinct, PageSet;
    PageSetBounds(h.vm.next, count);
  }

  lemma GivePageAccounts(h: Holding, page: nat, lost: set<nat>, first: nat)
    requires Ready(h.vm) && Allowed(h, GivePage(page)) && Accounted(h, lost, first)
    ensures Accounted(Perform(h, GivePage(page)), lost, first)
    ensures h.vm.next == Perform(h, GivePage(page)).vm.next
  {
    hide ReleasePage;
  }

  /** Over any run from a state without freed pages, such as boot, the pages in hand, the freed ones and
      those lost to failed contiguous requests are exactly the pages below the bump pointer. */
  lemma {:induction false} RunAccounts(h: Holding, ops: seq<PageOp>, lost: set<nat>, first: nat,
                                       boot: seq<Region>, image: nat)
    requires Ready(h.vm) && AllowedRun(h, ops) && Accounted(h, lost, first) && first <= h.vm.next
    requires Owns(h.vm, h.granted, boot, image)
    ensures Accounted(PerformAll(h, ops), lost + LosesAll(h, ops), first)
    decreases |ops|
  {
    if ops == [] {
      assert lost + LosesAll(h, ops) == lost;
    } else {
      hide Perform, Allowed, Accounted, Owns, Loses;
      var op := ops[0];
      PerformReady(h, op);
      RunOwns(h, [op], boot, image);
      OneOp(h, op);
      var now := lost + Loses(h, op);
      match op {
        case GetPage(flag) =>
          GetPageAccounts(h, flag, lost, first, boot, image);
          assert now == lost by { LosesNone(h, op); }
        case GetPages(count, flag) => GetPagesAccounts(h, count, flag, lost, first, boot, image);
        case GivePage(page) =>
          GivePageAccounts(h, page, lost, first);
          assert now == lost by { LosesNone(h, op); }
      }
      RunAccounts(Perform(h, op), ops[1..], now, first, boot, image);
      assert now + LosesAll(Perform(h, op), ops[1..]) == lost + LosesAll(h, ops);
    }
  }

  lemma LosesNone(h: Holding, op: PageOp)
    requires Ready(h.vm) && Allowed(h, op) && !op.GetPages?
    ensures Loses(h, op) == {}
  {
  }

  lemma OneOp(h: Holding, op: PageOp)
    requires Ready(h.vm) && Allowed(h, op)
    ensures AllowedRun(h, [op]) && PerformAll(h, [op]) == Perform(h, op)
  {
    hide Perform, Allowed;
    PerformReady(h, op);
    assert [op][1..] == [];
  }

  lemma BootAccounts(boot: seq<Region>, image: nat, next: nat)
    requires image % 4096 == 0
    ensures Accounted(Holding(Vm(FirstPage(boot, image), next, []), {}), {}, next)
  {
  }
}
