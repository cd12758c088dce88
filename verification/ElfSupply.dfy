/** When a load succeeds: how each segment ends, and how many frames the whole file takes (kernel/elf.c). */
module ElfSupply {
  import opened PhysicalMap
  import opened Words
  import opened PageTables
  import opened PageRuns
  import opened FrameSupply
  import opened ElfImage
  import opened ElfCorrectness
  import opened Frames
  import opened VirtualPages

  const LOAD_FLAGS: nat := PRESENT + USER + WRITE

  /** Storing faults exactly when it meets a page that is not present. */
  lemma {:induction false} StoreFaults(im: Image, v: nat, bytes: seq<Byte>)
    requires WellSized(im.mmu) && v + |bytes| <= TWO32
    ensures Store(im, v, bytes).Some? <==> forall x :: v <= x < v + |bytes| ==> IsPresent(Pte(im.mmu, x))
    decreases |bytes|
  {
    hide Pte, Physical;
    if bytes != [] && IsPresent(Pte(im.mmu, v)) {
      StoreFaults(im.(ram := im.ram[Physical(im.mmu, v) := bytes[0]]), v + 1, bytes[1..]);
    }
  }

  /** Every page of a segment that is not empty holds one of its bytes. */
  lemma PageHasByte(file: seq<Byte>, ph: Phdr, w: nat) returns (x: nat)
    requires Loadable(file, ph) && ph.memsz > 0 && w in PagesOf(ph)
    ensures ph.vaddr <= x < ph.vaddr + ph.memsz && PageStart(x) == w
  {
    var first := PageStart(ph.vaddr);
    SplitAddress(ph.vaddr);
    PageSetBounds(first, PageCount(ph));
    CountBelow(ph.vaddr % 4096 + ph.memsz);
    x := if w < ph.vaddr then ph.vaddr else w;
    if w < ph.vaddr {
      NoPageBetween(first, w);
    }
  }

  lemma CountBelow(m: nat)
    ensures (m + 0xFFF) / 4096 * 4096 <= m + 0xFFF
  {
  }

  lemma NoPageBetween(p: nat, w: nat)
    requires p % 4096 == 0 && w % 4096 == 0 && p <= w < p + 4096
    ensures w == p
  {
  }

  /** The bytes of a segment that is not empty are all on mapped pages exactly when its pages are mapped. */
  lemma BytesMapped(s: Mmu, file: seq<Byte>, ph: Phdr)
    requires WellSized(s) && Loadable(file, ph) && ph.memsz > 0
    ensures (forall x :: ph.vaddr <= x < ph.vaddr + ph.memsz ==> IsPresent(Pte(s, x))) <==> AllMapped(s, PagesOf(ph))
  {
    hide Pte, PageStart, PagesOf, PageCount;
    if AllMapped(s, PagesOf(ph)) {
      forall x | ph.vaddr <= x < ph.vaddr + ph.memsz ensures IsPresent(Pte(s, x)) {
        SegmentPages(file, ph, x);
        PageBelow(x);
        SamePte(s, x);
      }
    }
    if forall x :: ph.vaddr <= x < ph.vaddr + ph.memsz ==> IsPresent(Pte(s, x)) {
      forall w | w in PagesOf(ph) && w < TWO32 ensures IsPresent(Pte(s, w)) {
        var x := PageHasByte(file, ph, w);
        SamePte(s, x);
      }
    }
  }

  /** The pages of a segment are all mapped, last one included. */
  lemma RunMappedWhole(s: Mmu, file: seq<Byte>, ph: Phdr, last: bool)
    requires WellSized(s) && Loadable(file, ph) && PageCount(ph) > 0
    requires MappedRun(s, PageStart(ph.vaddr), PageCount(ph), last)
    ensures AllMapped(s, PagesOf(ph)) <==> last
  {
    hide Pte;
    var first, n := PageStart(ph.vaddr), PageCount(ph);
    LastPageBelow(file, ph);
    PageSetBounds(first, n);
    var end := first + (n - 1) * 4096;
    assert end in PageSet(first, n) && end + 4096 == first + n * 4096;
    LaterPages(first, n);
  }

  lemma LaterPages(first: nat, n: nat)
    requires first % 4096 == 0 && n > 0
    ensures forall w :: w in PageSet(first, n) ==> w + 4096 <= first + n * 4096
  {
    PageSetBounds(first, n);
    forall w | w in PageSet(first, n) ensures w + 4096 <= first + n * 4096 {
      var p, q := first / 4096, w / 4096;
      assert first == 4096 * p && w == 4096 * q;
      assert q < p + n;
    }
  }

  /** A segment faults when all pages got a frame but the last found no page table, and there is a byte to
      store there. */
  lemma LoadSegmentFaults(im: Image, file: seq<Byte>, ph: Phdr, granted: set<nat>, boot: seq<Region>, image: nat)
    requires ImageReady(im) && Loadable(file, ph) && Held(im.mmu, granted, boot, image)
    requires granted !! PagesOf(ph)
    ensures var r, first := LoadSegment(im, file, ph), PageStart(ph.vaddr);
      r.Fault? <==> MapFrames(im.mmu, first, PageCount(ph), LOAD_FLAGS).complete
                    && ph.memsz > 0 && PageCount(ph) > 0
                    && !LastMapped(im.mmu, first, PageCount(ph), LOAD_FLAGS)
  {
    hide Pte, MapFrames, Store, Held, LastMapped, MappedRun, PageStart, PageCount;
    SegmentEnds(im, file, ph);
    var first, n := PageStart(ph.vaddr), PageCount(ph);
    var mapped := MapFrames(im.mmu, first, n, LOAD_FLAGS);
    if mapped.complete && ph.memsz > 0 {
      SomePage(ph);
      LastPageBelow(file, ph);
      MapFramesMaps(im.mmu, first, n, LOAD_FLAGS, granted, boot, image);
      RunMappedWhole(mapped.mmu, file, ph, LastMapped(im.mmu, first, n, LOAD_FLAGS));
    }
  }

  lemma SomePage(ph: Phdr)
    ensures ph.memsz > 0 ==> PageCount(ph) > 0
  {
  }

  /** The same in terms of the memory after mapping. */
  lemma SegmentEnds(im: Image, file: seq<Byte>, ph: Phdr)
    requires ImageReady(im) && Loadable(file, ph)
    ensures var mapped := MapFrames(im.mmu, PageStart(ph.vaddr), PageCount(ph), LOAD_FLAGS);
      var r := LoadSegment(im, file, ph);
      && (r.Short? <==> !mapped.complete)
      && (r.Fault? <==> mapped.complete && ph.memsz > 0 && !AllMapped(mapped.mmu, PagesOf(ph)))
      && (r.Loaded? ==> r.image.mmu == mapped.mmu)
  {
    hide Pte, MapFrames, Store, AllMapped, PageStart, PageCount, PagesOf;
    var mapped := MapFrames(im.mmu, PageStart(ph.vaddr), PageCount(ph), LOAD_FLAGS);
    StoreFaults(im.(mmu := mapped.mmu), ph.vaddr, Contents(file, ph));
    if ph.memsz > 0 {
      BytesMapped(mapped.mmu, file, ph);
    }
  }

  /** The frames one segment takes. */
  ghost function SegmentNeeds(tables: set<nat>, ph: Phdr): nat {
    Needed(tables, PageStart(ph.vaddr), PageCount(ph))
  }

  ghost function SegmentTables(tables: set<nat>, ph: Phdr): set<nat> {
    TablesAfter(tables, PageStart(ph.vaddr), PageCount(ph))
  }

  /** With frames enough a segment is loaded whole, and takes exactly those; without, no segment that is
      not empty is. */
  lemma LoadSegmentSpends(im: Image, file: seq<Byte>, ph: Phdr, granted: set<nat>, boot: seq<Region>, image: nat)
    requires ImageReady(im) && Loadable(file, ph) && Held(im.mmu, granted, boot, image)
    requires granted !! PagesOf(ph)
    requires |im.mmu.regions| + SegmentNeeds(Tables(im.mmu), ph) <= MAX_ENTRIES
    ensures var r, n := LoadSegment(im, file, ph), SegmentNeeds(Tables(im.mmu), ph);
      && (Available(im.mmu.regions) >= n ==>
            r.Loaded? && Spent(im.mmu, r.image.mmu, n, SegmentTables(Tables(im.mmu), ph)))
      && (r.Loaded? && ph.memsz > 0 ==> Available(im.mmu.regions) >= n)
  {
    hide Pte, MapFrames, LoadSegment, AllMapped, PageStart, PageCount, Needed, TablesAfter, Available, Tables, Spent;
    LastPageBelow(file, ph);
    SegmentEnds(im, file, ph);
    Words.FlagsWord(0, LOAD_FLAGS);
    MapFramesSpends(im.mmu, PageStart(ph.vaddr), PageCount(ph), LOAD_FLAGS, granted, boot, image);
  }

  /** The frames without which the segment is cut short. */
  ghost function SegmentLeast(tables: set<nat>, ph: Phdr): nat {
    Least(tables, PageStart(ph.vaddr), PageCount(ph))
  }

  /** How a segment that is not empty ends, by the frames there are: too few for its pages, and it is cut
      short; enough for those but one too few for its last page table, and it faults; else it is whole. */
  lemma LoadSegmentEnds(im: Image, file: seq<Byte>, ph: Phdr, granted: set<nat>, boot: seq<Region>, image: nat)
    requires ImageReady(im) && Loadable(file, ph) && Held(im.mmu, granted, boot, image)
    requires granted !! PagesOf(ph)
    requires |im.mmu.regions| + SegmentNeeds(Tables(im.mmu), ph) <= MAX_ENTRIES
    ensures var r, frames := LoadSegment(im, file, ph), Available(im.mmu.regions);
      var least, needs := SegmentLeast(Tables(im.mmu), ph), SegmentNeeds(Tables(im.mmu), ph);
      && least <= needs <= least + 1
      && (r.Short? <==> frames < least)
      && (r.Fault? <==> least <= frames < needs && ph.memsz > 0)
  {
    hide Pte, MapFrames, LoadSegment, AllMapped, PageStart, PageCount, Needed, Least, Available, Tables, Spent;
    var first, n := PageStart(ph.vaddr), PageCount(ph);
    LastPageBelow(file, ph);
    SegmentEnds(im, file, ph);
    Words.FlagsWord(0, LOAD_FLAGS);
    LeastBelow(Tables(im.mmu), first, n);
    MapFramesSpends(im.mmu, first, n, LOAD_FLAGS, granted, boot, image);
    MapFramesCompletes(im.mmu, first, n, LOAD_FLAGS, granted, boot, image);
  }

  // ----- The whole file -----

  /** The frames all loadable segments take, one after the other. */
  ghost function FileNeeds(tables: set<nat>, phs: seq<Phdr>): nat
    decreases |phs|
  {
    if phs == [] then 0
    else if phs[0].kind != PT_LOAD then FileNeeds(tables, phs[1..])
    else SegmentNeeds(tables, phs[0]) + FileNeeds(SegmentTables(tables, phs[0]), phs[1..])
  }

  ghost predicate NoneEmpty(phs: seq<Phdr>) {
    forall i :: 0 <= i < |phs| && phs[i].kind == PT_LOAD ==> phs[i].memsz > 0
  }

  /** A file is loaded whole when there are frames for all its pages and their tables; and, unless it has
      empty segments, only then. */
  lemma {:induction false} LoadAllLoads(im: Image, file: seq<Byte>, phs: seq<Phdr>, granted: set<nat>,
                                        boot: seq<Region>, image: nat)
    requires ImageReady(im) && AllLoadable(file, phs) && Held(im.mmu, granted, boot, image)
    requires Separate(phs, granted)
    requires |im.mmu.regions| + FileNeeds(Tables(im.mmu), phs) <= MAX_ENTRIES
    ensures Available(im.mmu.regions) >= FileNeeds(Tables(im.mmu), phs) ==> LoadAll(im, file, phs).Loaded?
    ensures LoadAll(im, file, phs).Loaded? && NoneEmpty(phs) ==>
              Available(im.mmu.regions) >= FileNeeds(Tables(im.mmu), phs)
    decreases |phs|
  {
    if phs != [] {
      hide LoadSegment, Held, PagesOf, Loadable, SegmentNeeds, SegmentTables, Tables, Available;
      assert forall i :: 0 <= i < |phs[1..]| ==> phs[1..][i] == phs[i + 1];
      if phs[0].kind != PT_LOAD {
        SeparateTail(phs, granted, {});
        assert granted + {} == granted;
        LoadAllLoads(im, file, phs[1..], granted, boot, image);
      } else {
        LoadSegmentSpends(im, file, phs[0], granted, boot, image);
        if LoadSegment(im, file, phs[0]).Loaded? {
          var im1 := LoadSegment(im, file, phs[0]).image;
          LoadSegmentShows(im, file, phs[0], granted, boot, image);
          SeparateTail(phs, granted, PagesOf(phs[0]));
          if Available(im.mmu.regions) >= SegmentNeeds(Tables(im.mmu), phs[0]) {
            LoadAllLoads(im1, file, phs[1..], granted + PagesOf(phs[0]), boot, image);
          }
        }
      }
    }
  }

  /** So with frames enough, virtual memory holds every segment at once, and the pages in hand are as
      they were. */
  lemma LoadSucceeds(im: Image, file: seq<Byte>, phs: seq<Phdr>, granted: set<nat>, boot: seq<Region>, image: nat)
    requires ImageReady(im) && AllLoadable(file, phs) && Held(im.mmu, granted, boot, image)
    requires Separate(phs, granted)
    requires |im.mmu.regions| + FileNeeds(Tables(im.mmu), phs) <= MAX_ENTRIES
    requires Available(im.mmu.regions) >= FileNeeds(Tables(im.mmu), phs)
    ensures LoadAll(im, file, phs).Loaded?
    ensures var im' := LoadAll(im, file, phs).image;
      && SameIn(im, im', granted)
      && forall i :: 0 <= i < |phs| && phs[i].kind == PT_LOAD ==> Shows(im', file, phs[i]) && Open(im', file, phs[i])
  {
    hide LoadAll, Shows, Open, SameIn, Held, Separate, FileNeeds;
    LoadAllLoads(im, file, phs, granted, boot, image);
    LoadAllShows(im, file, phs, granted, boot, image);
  }

  /** The loop that maps pages stops early only when no frame is left. */
  lemma {:induction false} MapFramesExhausts(s: Mmu, v: nat, count: nat, flags: nat, granted: set<nat>,
                                             boot: seq<Region>, image: nat)
    requires Held(s, granted, boot, image) && Aligned(s.regions) && IsFlags(flags)
    requires v % 4096 == 0 && v + count * 4096 <= TWO32 && granted !! PageSet(v, count)
    requires !MapFrames(s, v, count, flags).complete
    ensures Allocate(MapFrames(s, v, count, flags).mmu.regions, PAGE).address == 0
    decreases count
  {
    hide Allocate, MapPage, Turn, Pte, PageSet, FlagsAre, FrameMap, TablesOwned, TablesDistinct, UserUnderUser,
         SlotsWritable, FramesOwned, FramesDistinct;
    if count > 0 {
      PageSetHead(v, count, granted);
      assert v + PAGE + (count - 1) * 4096 == v + count * 4096;
      if Allocate(s.regions, PAGE).address == 0 {
        NoFrame(s.regions, boot, image);
      } else {
        MapFramesTurn(s, v, count, flags);
        TurnHolds(s, v, flags, granted, boot, image);
        MapFramesExhausts(Turn(s, v, flags), v + PAGE, count - 1, flags, granted + {v}, boot, image);
      }
    }
  }

  lemma NoFrame(m: seq<Region>, boot: seq<Region>, image: nat)
    requires FrameMap(m, boot, image) && Allocate(m, PAGE).address == 0
    ensures Allocate(Allocate(m, PAGE).regions, PAGE).address == 0
  {
    GrantFrame(m, boot, image);
    hide Allocate;
  }

  /** So a segment that is cut short leaves no frame for any later one; it writes nothing, and the pages in
      hand are as they were. */
  lemma ShortExhausts(im: Image, file: seq<Byte>, ph: Phdr, granted: set<nat>, boot: seq<Region>, image: nat)
    requires ImageReady(im) && Loadable(file, ph) && Held(im.mmu, granted, boot, image)
    requires granted !! PagesOf(ph) && LoadSegment(im, file, ph).Short?
    ensures var im' := LoadSegment(im, file, ph).image;
      && Allocate(im'.mmu.regions, PAGE).address == 0
      && im'.ram == im.ram && Held(im'.mmu, granted, boot, image) && SameIn(im, im', granted)
  {
    hide Pte, MapFrames, Store, PageStart, PageCount, Allocate, FramesOwned, FramesDistinct, MmuInv, SameIn;
    LastPageBelow(file, ph);
    var first, n := PageStart(ph.vaddr), PageCount(ph);
    var mapped := MapFrames(im.mmu, first, n, LOAD_FLAGS);
    MapFramesExhausts(im.mmu, first, n, LOAD_FLAGS, granted, boot, image);
    MapFramesHolds(im.mmu, first, n, LOAD_FLAGS, granted, boot, image);
    ReadThrough(im, mapped.mmu, granted);
  }

  /** Loading goes through the whole table: whatever becomes of the segments of `a` short of a fault, those
      of `b` are loaded after them, and one cut short anywhere makes the load partial. */
  lemma {:induction false} LoadAllAppend(im: Image, file: seq<Byte>, a: seq<Phdr>, b: seq<Phdr>)
    requires ImageReady(im) && AllLoadable(file, a) && AllLoadable(file, b)
    ensures AllLoadable(file, a + b)
    ensures var first := LoadAll(im, file, a);
      && (first.Fault? ==> LoadAll(im, file, a + b).Fault?)
      && (!first.Fault? ==>
            var second := LoadAll(first.image, file, b);
            LoadAll(im, file, a + b) ==
            if second.Loaded? && first.Short? then Short(second.image) else second)
    decreases |a|
  {
    hide LoadSegment, ImageReady, Loadable;
    if a == [] {
      assert a + b == b;
    } else {
      assert (a + b)[1..] == a[1..] + b;
      var one := if a[0].kind == PT_LOAD then LoadSegment(im, file, a[0]) else Loaded(im);
      if !one.Fault? {
        LoadAllAppend(one.image, file, a[1..], b);
      }
    }
  }

  /** One segment by itself. */
  lemma LoadAllOne(im: Image, file: seq<Byte>, ph: Phdr)
    requires ImageReady(im) && Loadable(file, ph)
    ensures LoadAll(im, file, [ph]) == if ph.kind == 1 then LoadSegment(im, file, ph) else Loaded(im)
  {
    hide LoadSegment;
  }
}
