/** The virtual page allocator of kernel/pmm.c: a bump pointer and a stack of freed pages. */
module VirtualPages {
  import opened PhysicalMap
  import opened Frames
  import opened PageTables
  import opened Words

  const MAX_FREE_PAGES: nat := 1024

  datatype Vm = Vm(mmu: Mmu, next: nat, stack: seq<nat>)

  /** A page granted, or 0, with the state it leaves. */
  datatype PageGrant = PageGrant(vm: Vm, page: nat)

  function EffectiveFlags(flag: nat): nat {
    if flag == 0 then PRESENT + WRITE else flag
  }

  ghost predicate Ready(s: Vm) {
    WellSized(s.mmu) && Aligned(s.mmu.regions) && s.next < TWO32
    && forall i :: 0 <= i < |s.stack| ==> s.stack[i] < TWO32
  }

  /** The page `allocate_page` picks: the last one freed, else the next one never used. */
  function PickPage(s: Vm): (p: PageGrant)
    requires Ready(s)
    ensures Ready(p.vm) && p.page < TWO32 && p.vm.mmu == s.mmu
  {
    if s.stack != [] then
      PageGrant(s.(stack := s.stack[..|s.stack| - 1]), s.stack[|s.stack| - 1])
    else
      PageGrant(s.(next := (s.next + PAGE) % 0x1_0000_0000), s.next)
  }

  function AllocatePage(s: Vm, flag: nat): (g: PageGrant)
    requires Ready(s) && IsFlags(flag)
    ensures Ready(g.vm)
  {
    AllocateAligned(s.mmu.regions);
    var frame := Allocate(s.mmu.regions, PAGE);
    var s1 := s.(mmu := s.mmu.(regions := frame.regions));
    if frame.address == 0 then PageGrant(s1, 0) else
      var p := PickPage(s1);
      PageGrant(p.vm.(mmu := MapPage(s1.mmu, frame.address, p.page, EffectiveFlags(flag))), p.page)
  }

  function AllocatePagesContig(s: Vm, count: nat, flag: nat): (g: PageGrant)
    requires Ready(s) && IsFlags(flag)
    ensures Ready(g.vm)
  {
    var r := MapFrames(s.mmu, s.next, count, EffectiveFlags(flag));
    PageGrant(s.(mmu := r.mmu, next := (s.next + count * 4096) % 0x1_0000_0000), if r.complete then s.next else 0)
  }

  /** `free_page` stacks the page, and frees and unmaps its frame if it has one. */
  function FreePage(s: Vm, v: nat): (s': Vm)
    requires Ready(s) && v < TWO32
    ensures Ready(s')
  {
    var stack: seq<nat> := s.stack + [v];
    Vm(ReleasePage(s.mmu, v), s.next, stack)
  }

  // ----- Ownership -----

  /** What holds of the pages handed out and not yet freed: none is on the free stack, none was
      handed out twice, and the mapped ones have a live frame each, of their own. */
  ghost predicate Owns(s: Vm, granted: set<nat>, boot: seq<Region>, image: nat) {
    && MmuInv(s.mmu, boot, image)
    && s.next % 4096 == 0 && 0 < s.next < TWO32
    && (forall v :: v in granted ==> v % 4096 == 0 && 0 < v < s.next)
    && StackInv(s, granted)
    && FramesOwned(s.mmu, granted, boot)
    && FramesDistinct(s.mmu, granted)
  }

  ghost predicate StackInv(s: Vm, granted: set<nat>) {
    && (forall i :: 0 <= i < |s.stack| ==>
          s.stack[i] % 4096 == 0 && 0 < s.stack[i] < s.next && s.stack[i] !in granted)
    && (forall i, j :: 0 <= i < j < |s.stack| ==> s.stack[i] != s.stack[j])
  }

  ghost predicate FramesOwned(s: Mmu, granted: set<nat>, boot: seq<Region>)
    requires WellSized(s)
  {
    forall v :: v in granted && v < TWO32 && IsPresent(Pte(s, v)) ==>
      Owned(s.regions, boot, PageStart(Pte(s, v))) && !IsTable(s, PageStart(Pte(s, v)))
  }

  ghost predicate FramesDistinct(s: Mmu, granted: set<nat>)
    requires WellSized(s)
  {
    forall v, w :: v in granted && w in granted && v != w && v < TWO32 && w < TWO32
                   && IsPresent(Pte(s, v)) && IsPresent(Pte(s, w)) ==>
      PageStart(Pte(s, v)) != PageStart(Pte(s, w))
  }

  /** Only frame allocation changed: the tables and the pages they map are the same. */
  lemma GrantKeeps(s: Mmu, granted: set<nat>, boot: seq<Region>, image: nat)
    requires MmuInv(s, boot, image) && FramesOwned(s, granted, boot) && FramesDistinct(s, granted)
    ensures var g := Allocate(s.regions, PAGE);
      var s1 := s.(regions := g.regions);
      && MmuInv(s1, boot, image) && FramesOwned(s1, granted, boot) && FramesDistinct(s1, granted)
      && (forall v :: 0 <= v < TWO32 ==> Pte(s1, v) == Pte(s, v))
      && (g.address != 0 ==>
            && g.address % 4096 == 0 && Owned(s1.regions, boot, g.address) && !IsTable(s1, g.address)
            && !Owned(s.regions, boot, g.address))
      && (g.address == 0 ==> s1 == s)
  {
    GrantFrame(s.regions, boot, image);
    var g := Allocate(s.regions, PAGE);
    var s1 := s.(regions := g.regions);
    assert forall v :: 0 <= v < TWO32 ==> Pte(s1, v) == Pte(s, v);
    assert forall h :: IsTable(s1, h) <==> IsTable(s, h);
  }

  /** Mapping one more page, to a frame none of the others has, keeps frames owned and distinct. */
  lemma HeldExtends(s: Mmu, s': Mmu, frame: nat, v: nat, granted: set<nat>, boot: seq<Region>)
    requires WellSized(s) && WellSized(s') && v < TWO32
    requires FramesOwned(s, granted, boot) && FramesDistinct(s, granted)
    requires Owned(s'.regions, boot, frame) && !IsTable(s', frame)
    requires forall w :: w in granted && w < TWO32 ==> Pte(s', w) == Pte(s, w)
    requires forall w :: w in granted && w < TWO32 && IsPresent(Pte(s, w)) ==> PageStart(Pte(s, w)) != frame
    requires forall h :: Owned(s.regions, boot, h) ==> Owned(s'.regions, boot, h)
    requires forall h :: IsTable(s', h) ==> IsTable(s, h) || !Owned(s.regions, boot, h)
    requires IsPresent(Pte(s', v)) ==> PageStart(Pte(s', v)) == frame
    ensures FramesOwned(s', granted + {v}, boot) && FramesDistinct(s', granted + {v})
  {
  }

  /** Mapping a fresh frame at a fresh page gives that page an owner of its own. */
  lemma MapFresh(s: Mmu, frame: nat, v: nat, flags: nat, granted: set<nat>, boot: seq<Region>, image: nat)
    requires MmuInv(s, boot, image) && FramesOwned(s, granted, boot) && FramesDistinct(s, granted)
    requires frame % 4096 == 0 && Owned(s.regions, boot, frame) && !IsTable(s, frame)
    requires forall w :: w in granted && w < TWO32 && IsPresent(Pte(s, w)) ==> PageStart(Pte(s, w)) != frame
    requires v % 4096 == 0 && v < TWO32 && v !in granted && IsFlags(flags)
    requires forall w :: w in granted ==> w % 4096 == 0
    ensures Aligned(s.regions)
    ensures var s' := MapPage(s, frame, v, flags);
      && MmuInv(s', boot, image) && FramesOwned(s', granted + {v}, boot) && FramesDistinct(s', granted + {v})
      && (forall w :: w in granted && w < TWO32 ==> Pte(s', w) == Pte(s, w))
      && Pte(s', v) == if Mappable(s, v) then frame + flags else 0
  {
    MapPageRefines(s, frame, v, flags, boot, image);
    FlagsWord(frame, flags);
    var s' := MapPage(s, frame, v, flags);
    forall w | w in granted && w < TWO32 ensures Pte(s', w) == Pte(s, w) {
      assert w / 4096 != v / 4096;
    }
    assert !Mappable(s, v) ==> Pte(s', v) == 0;
    assert !IsTable(s', frame);
    HeldExtends(s, s', frame, v, granted, boot);
  }

  /** The page picked is new to everyone, and picking it keeps the stack in order. */
  lemma PickFresh(s: Vm, granted: set<nat>, boot: seq<Region>, image: nat)
    requires Owns(s, granted, boot, image) && Ready(s)
    requires s.stack == [] ==> s.next + PAGE < TWO32
    ensures var p := PickPage(s);
      && p.page % 4096 == 0 && 0 < p.page < p.vm.next < TWO32 && p.vm.next % 4096 == 0 && p.page !in granted
      && p.vm.mmu == s.mmu && s.next <= p.vm.next
      && StackInv(p.vm, granted + {p.page})
  {
    if s.stack != [] {
      var last := |s.stack| - 1;
      assert forall i :: 0 <= i < last ==> s.stack[i] != s.stack[last];
    }
  }

  lemma FreshFrameUnheld(s: Mmu, s': Mmu, frame: nat, granted: set<nat>, boot: seq<Region>)
    requires WellSized(s) && WellSized(s') && FramesOwned(s, granted, boot) && !Owned(s.regions, boot, frame)
    requires forall v :: 0 <= v < TWO32 ==> Pte(s', v) == Pte(s, v)
    ensures forall w :: w in granted && w < TWO32 && IsPresent(Pte(s', w)) ==> PageStart(Pte(s', w)) != frame
  {
  }

  /** The second half of `allocate_page`, once frame and page are picked. */
  lemma MapPicked(s: Vm, frame: nat, v: nat, flags: nat, granted: set<nat>, boot: seq<Region>, image: nat)
    requires Ready(s) && MmuInv(s.mmu, boot, image)
    requires FramesOwned(s.mmu, granted, boot) && FramesDistinct(s.mmu, granted)
    requires frame % 4096 == 0 && Owned(s.mmu.regions, boot, frame) && !IsTable(s.mmu, frame)
    requires forall w :: w in granted && w < TWO32 && IsPresent(Pte(s.mmu, w)) ==> PageStart(Pte(s.mmu, w)) != frame
    requires forall w :: w in granted ==> w % 4096 == 0 && 0 < w < s.next
    requires s.next % 4096 == 0 && v % 4096 == 0 && 0 < v < s.next && v !in granted
    requires IsFlags(flags) && IsPresent(flags) && StackInv(s, granted + {v})
    ensures var mmu := MapPage(s.mmu, frame, v, flags);
      && Owns(s.(mmu := mmu), granted + {v}, boot, image)
      && (forall w :: w in granted && w < TWO32 ==> Pte(mmu, w) == Pte(s.mmu, w))
      && Pte(mmu, v) == (if Mappable(s.mmu, v) then frame + flags else 0)
      && GetMap(mmu, v) == (if Mappable(s.mmu, v) then frame else 0)
  {
    MapFresh(s.mmu, frame, v, flags, granted, boot, image);
    FlagsWord(frame, flags);
  }

  /** `allocate_page` grants a page nobody holds. It is mapped to a frame of its own as soon as its
      page table exists or a second frame can be had; a page it grants without either stays unmapped. */
  lemma AllocatePageOwns(s: Vm, flag: nat, granted: set<nat>, boot: seq<Region>, image: nat)
    requires Owns(s, granted, boot, image) && Ready(s) && IsFlags(flag) && IsPresent(EffectiveFlags(flag))
    requires s.stack == [] ==> s.next + PAGE < TWO32
    ensures var g := AllocatePage(s, flag);
      var frame := Allocate(s.mmu.regions, PAGE);
      && (g.page == 0 <==> frame.address == 0)
      && (g.page == 0 ==> g.vm == s)
      && (g.page != 0 ==>
            && g.page !in granted && Owns(g.vm, granted + {g.page}, boot, image)
            && (forall w :: w in granted && w < TWO32 ==> Pte(g.vm.mmu, w) == Pte(s.mmu, w))
            && var mapped := Mappable(s.mmu.(regions := frame.regions), g.page);
               && Pte(g.vm.mmu, g.page) == (if mapped then frame.address + EffectiveFlags(flag) else 0)
               && GetMap(g.vm.mmu, g.page) == (if mapped then frame.address else 0))
  {
    GrantKeeps(s.mmu, granted, boot, image);
    var frame := Allocate(s.mmu.regions, PAGE);
    if frame.address != 0 {
      var s1 := s.(mmu := s.mmu.(regions := frame.regions));
      AllocateAligned(s.mmu.regions);
      assert Owns(s1, granted, boot, image);
      PickFresh(s1, granted, boot, image);
      var p := PickPage(s1);
      FreshFrameUnheld(s.mmu, s1.mmu, frame.address, granted, boot);
      MapPicked(p.vm, frame.address, p.page, EffectiveFlags(flag), granted, boot, image);
    }
  }

  // ----- Freeing -----

  lemma HeldShrinks(s: Mmu, s': Mmu, v: nat, granted: set<nat>, boot: seq<Region>)
    requires WellSized(s) && WellSized(s') && v in granted && v < TWO32
    requires FramesOwned(s, granted, boot) && FramesDistinct(s, granted)
    requires forall w :: w in granted ==> w % 4096 == 0
    requires forall w :: 0 <= w < TWO32 ==> Pte(s', w) == if w / 4096 == v / 4096 then 0 else Pte(s, w)
    requires forall h :: Owned(s'.regions, boot, h) <==>
                         Owned(s.regions, boot, h) && !(IsPresent(Pte(s, v)) && h == PageStart(Pte(s, v)))
    requires forall h :: IsTable(s', h) <==> IsTable(s, h)
    ensures FramesOwned(s', granted - {v}, boot) && FramesDistinct(s', granted - {v})
    ensures forall w :: w in granted - {v} && w < TWO32 ==> Pte(s', w) == Pte(s, w)
  {
    forall w | w in granted - {v} && w < TWO32 ensures Pte(s', w) == Pte(s, w) {
      assert w / 4096 != v / 4096;
    }
  }

  lemma StackPush(s: Vm, v: nat, granted: set<nat>)
    requires StackInv(s, granted) && v in granted && v % 4096 == 0 && 0 < v < s.next
    ensures var stack: seq<nat> := s.stack + [v]; StackInv(s.(stack := stack), granted - {v})
  {
  }

  /** `free_page` of a page in hand gives back exactly the frame that page was mapped to, unmaps it,
      and leaves every other page in hand mapped as it was. */
  lemma FreePageReturns(s: Vm, v: nat, granted: set<nat>, boot: seq<Region>, image: nat)
    requires Owns(s, granted, boot, image) && Ready(s) && v in granted
    ensures v < TWO32
    ensures var s' := FreePage(s, v);
      && Owns(s', granted - {v}, boot, image)
      && GetMap(s'.mmu, v) == 0
      && (forall w :: w in granted - {v} && w < TWO32 ==> Pte(s'.mmu, w) == Pte(s.mmu, w))
      && (IsPresent(Pte(s.mmu, v)) ==> forall h ::
            Owned(s'.mmu.regions, boot, h) <==> Owned(s.mmu.regions, boot, h) && h != PageStart(Pte(s.mmu, v)))
  {
    var s' := FreePage(s, v);
    StackPush(s, v, granted);
    if IsPresent(Pte(s.mmu, v)) {
      ReleasePageRefines(s.mmu, v, boot, image);
      HeldShrinks(s.mmu, s'.mmu, v, granted, boot);
    }
  }

  /** Flag 0 stands for present and writable. */
  lemma ZeroFlag(s: Vm, count: nat)
    requires Ready(s)
    ensures AllocatePage(s, 0) == AllocatePage(s, 3)
    ensures AllocatePagesContig(s, count, 0) == AllocatePagesContig(s, count, 3)
  {
  }

  // ----- Freed pages come back -----

  /** The page freed last is the next one granted, and then stack and bump pointer are as before. */
  lemma FreedComesBack(s: Vm, v: nat, flag: nat)
    requires Ready(s) && v < TWO32 && IsFlags(flag)
    ensures var g := AllocatePage(FreePage(s, v), flag);
      Allocate(FreePage(s, v).mmu.regions, PAGE).address != 0 ==>
        g.page == v && g.vm.stack == s.stack && g.vm.next == s.next
  {
    hide MapPage, ReleasePage, Allocate;
    var stack: seq<nat> := s.stack + [v];
    assert stack[..|stack| - 1] == s.stack;
  }

  /** Where a page comes from: no frame, no page; else the page freed last, or one never used. */
  lemma PageTaken(s: Vm, flag: nat)
    requires Ready(s) && IsFlags(flag)
    ensures var g := AllocatePage(s, flag);
      if Allocate(s.mmu.regions, PAGE).address == 0 then
        g.page == 0 && g.vm.stack == s.stack && g.vm.next == s.next
      else if s.stack == [] then
        g.page == s.next && g.vm.stack == [] && g.vm.next == (s.next + 4096) % 0x1_0000_0000
      else
        s.stack == g.vm.stack + [g.page] && g.vm.next == s.next
  {
    hide MapPage, Allocate;
  }

  function FreeAll(s: Vm, pages: seq<nat>): (s': Vm)
    requires Ready(s) && forall i :: 0 <= i < |pages| ==> pages[i] < TWO32
    ensures Ready(s')
    decreases |pages|
  {
    if pages == [] then s else FreeAll(FreePage(s, pages[0]), pages[1..])
  }

  /** Several grants in a row: the pages, and the state they leave. */
  datatype PageGrants = PageGrants(vm: Vm, pages: seq<nat>)

  function GrantAll(s: Vm, n: nat, flag: nat): (g: PageGrants)
    requires Ready(s) && IsFlags(flag)
    ensures Ready(g.vm) && |g.pages| == n
    decreases n
  {
    if n == 0 then PageGrants(s, []) else
      var g := AllocatePage(s, flag);
      var rest := GrantAll(g.vm, n - 1, flag);
      PageGrants(rest.vm, [g.page] + rest.pages)
  }

  lemma {:induction false} FreeAllStacks(s: Vm, pages: seq<nat>)
    requires Ready(s) && forall i :: 0 <= i < |pages| ==> pages[i] < TWO32
    ensures FreeAll(s, pages).stack == s.stack + pages && FreeAll(s, pages).next == s.next
    decreases |pages|
  {
    if pages == [] {
      assert s.stack + pages == s.stack;
    } else {
      hide ReleasePage;
      FreeAllStacks(FreePage(s, pages[0]), pages[1..]);
      assert s.stack + [pages[0]] + pages[1..] == s.stack + pages;
    }
  }

  /** Grants that succeed take pages off the stack from its end. */
  lemma {:induction false} GrantAllUnstacks(s: Vm, n: nat, flag: nat)
    requires Ready(s) && IsFlags(flag) && n <= |s.stack| && 0 !in GrantAll(s, n, flag).pages
    ensures var g := GrantAll(s, n, flag); g.vm.next == s.next && s.stack == g.vm.stack + Backwards(g.pages)
    decreases n
  {
    if n == 0 {
      GrantNone(s, flag);
    } else {
      hide AllocatePage, Allocate, Ready, GrantAll, Backwards;
      var g := AllocatePage(s, flag);
      GrantOne(s, n, flag);
      PageTaken(s, flag);
      GrantAllUnstacks(g.vm, n - 1, flag);
      var rest := GrantAll(g.vm, n - 1, flag);
      BackwardsFrom(g.page, rest.pages);
      assert rest.vm.stack + Backwards(rest.pages) + [g.page] == rest.vm.stack + Backwards([g.page] + rest.pages);
    }
  }

  lemma BackwardsFrom(page: nat, pages: seq<nat>)
    ensures Backwards([page] + pages) == Backwards(pages) + [page]
  {
    assert ([page] + pages)[1..] == pages;
  }

  lemma GrantNone(s: Vm, flag: nat)
    requires Ready(s) && IsFlags(flag)
    ensures var g := GrantAll(s, 0, flag); g.vm == s && s.stack == g.vm.stack + Backwards(g.pages)
  {
    assert s.stack + [] == s.stack;
  }

  lemma GrantOne(s: Vm, n: nat, flag: nat)
    requires Ready(s) && IsFlags(flag) && n > 0 && 0 !in GrantAll(s, n, flag).pages
    ensures var g, pages := AllocatePage(s, flag), GrantAll(s, n, flag).pages;
      && pages == [g.page] + GrantAll(g.vm, n - 1, flag).pages
      && g.page != 0 && 0 !in GrantAll(g.vm, n - 1, flag).pages
      && GrantAll(s, n, flag).vm == GrantAll(g.vm, n - 1, flag).vm
      && Allocate(s.mmu.regions, PAGE).address != 0
  {
    hide Allocate, MapPage;
    PageTaken(s, flag);
    var pages := GrantAll(s, n, flag).pages;
    assert pages[0] in pages;
  }

  function Backwards(pages: seq<nat>): (r: seq<nat>)
    ensures |r| == |pages|
    ensures forall i :: 0 <= i < |pages| ==> r[i] == pages[|pages| - 1 - i]
  {
    if pages == [] then [] else Backwards(pages[1..]) + [pages[0]]
  }

  /** Pages freed one after another are granted again in reverse order, by as many grants if they all
      succeed, and stack and bump pointer end up as they were before the first free. */
  lemma FreesReverse(s: Vm, pages: seq<nat>, flag: nat)
    requires Ready(s) && IsFlags(flag) && forall i :: 0 <= i < |pages| ==> pages[i] < TWO32
    requires 0 !in GrantAll(FreeAll(s, pages), |pages|, flag).pages
    ensures var g := GrantAll(FreeAll(s, pages), |pages|, flag);
      && g.vm.stack == s.stack && g.vm.next == s.next
      && forall i :: 0 <= i < |pages| ==> g.pages[i] == pages[|pages| - 1 - i]
  {
    hide FreeAll, GrantAll, Backwards, Ready;
    FreeAllStacks(s, pages);
    var f := FreeAll(s, pages);
    GrantAllUnstacks(f, |pages|, flag);
    var g := GrantAll(f, |pages|, flag);
    var back := Backwards(g.pages);
    assert f.stack == s.stack + pages == g.vm.stack + back;
    SameSplit(s.stack, pages, g.vm.stack, back);
    forall i | 0 <= i < |pages| ensures g.pages[i] == pages[|pages| - 1 - i] {
      assert back[|pages| - 1 - i] == g.pages[i];
    }
  }

  lemma SameSplit(a: seq<nat>, b: seq<nat>, c: seq<nat>, d: seq<nat>)
    requires a + b == c + d && |b| == |d|
    ensures a == c && b == d
  {
    assert (a + b)[..|a|] == a && (c + d)[..|c|] == c;
    assert (a + b)[|a|..] == b && (c + d)[|c|..] == d;
  }
}
