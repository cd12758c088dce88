/** Two-level page tables (Intel SDM Volume 3A, section 4.3), as kernel/pmm.c builds them.

    The page tables live in frames that come from the physical allocator, except the first one,
    which is linked into the kernel image. They are modelled by their contents, keyed by frame. */
module PageTables {
  import opened PhysicalMap
  import opened MapInvariant
  import opened Frames
  import opened Words

  const ENTRIES: nat := 1024
  datatype Mmu = Mmu(regions: seq<Region>, directory: seq<nat>, tables: map<nat, seq<nat>>)

  function DirectoryIndex(v: nat): nat { v / 0x40_0000 }
  function TableIndex(v: nat): nat { v / 4096 % 1024 }

  ghost predicate WellSized(s: Mmu) {
    && |s.directory| == ENTRIES
    && (forall d :: 0 <= d < ENTRIES && IsPresent(s.directory[d]) ==> PageStart(s.directory[d]) in s.tables)
    && (forall f :: f in s.tables ==> |s.tables[f]| == ENTRIES)
  }

  function ZeroTable(): (t: seq<nat>)
    ensures |t| == ENTRIES && forall k :: 0 <= k < ENTRIES ==> t[k] == 0
  {
    seq(ENTRIES, _ => 0)
  }

  /** The first half of `map_page`: give directory slot `d` a table if it has none. */
  function EnsureTable(s: Mmu, d: nat, flags: nat): (s': Mmu)
    requires WellSized(s) && d < ENTRIES && IsFlags(flags)
    requires Aligned(s.regions)
    ensures WellSized(s') && Aligned(s'.regions)
  {
    AllocateAligned(s.regions);
    if IsPresent(s.directory[d]) then s else
      var g := Allocate(s.regions, PAGE);
      if g.address == 0 then s.(regions := g.regions) else
        TableSlotFrame(g.address, flags);
        Mmu(g.regions, s.directory[d := TableSlot(g.address, flags)], s.tables[g.address := ZeroTable()])
  }

  /** The directory entry of a new table. Frames are aligned, so or-ing the flags in is adding them. */
  function TableSlot(frame: nat, flags: nat): nat {
    frame + (PRESENT + WRITE + (if IsUser(flags) then USER else 0))
  }

  lemma TableSlotFrame(frame: nat, flags: nat)
    requires frame % 4096 == 0
    ensures PageStart(TableSlot(frame, flags)) == frame && IsPresent(TableSlot(frame, flags))
    ensures IsWritable(TableSlot(frame, flags))
  {
    FlagsWord(frame, TableSlot(frame, flags) - frame);
  }

  /** The second half: set the user bit of the slot if asked, and write the table entry. */
  function WriteEntry(s: Mmu, v: nat, word: nat, user: bool): (s': Mmu)
    requires WellSized(s) && v < TWO32 && IsPresent(s.directory[DirectoryIndex(v)])
    ensures WellSized(s')
  {
    var d := DirectoryIndex(v);
    var slot := if user then WithUser(s.directory[d]) else s.directory[d];
    WithUserFrame(s.directory[d]);
    var f := PageStart(slot);
    var table: seq<nat> := s.tables[f][TableIndex(v) := word];
    s.(directory := s.directory[d := slot], tables := s.tables[f := table])
  }

  function MapPage(s: Mmu, physical: nat, v: nat, flags: nat): (s': Mmu)
    requires WellSized(s) && v < TWO32 && IsFlags(flags)
    requires Aligned(s.regions)
    ensures WellSized(s') && Aligned(s'.regions)
  {
    var s1 := EnsureTable(s, DirectoryIndex(v), flags);
    if IsPresent(s1.directory[DirectoryIndex(v)])
    then WriteEntry(s1, v, PageStart(physical) + flags, IsUser(flags))
    else s1
  }

  /** Memory after mapping several pages, and whether all of them got a frame. */
  datatype Mapped = Mapped(mmu: Mmu, complete: bool)

  /** The loop of `allocate_pages_contig`: map `count` fresh frames from `v` on, stopping at the first
      failure. */
  function MapFrames(s: Mmu, v: nat, count: nat, flags: nat): (r: Mapped)
    requires WellSized(s) && Aligned(s.regions) && IsFlags(flags)
    ensures WellSized(r.mmu) && Aligned(r.mmu.regions)
    decreases count
  {
    AllocateAligned(s.regions);
    if count == 0 then Mapped(s, true) else
      var frame := Allocate(s.regions, PAGE);
      var s1 := s.(regions := frame.regions);
      if frame.address == 0 then Mapped(s1, false)
      else MapFrames(MapPage(s1, frame.address, v % 0x1_0000_0000, flags), v + PAGE, count - 1, flags)
  }

  /** The word `get_pte` points at, or 0 when there is no table for `v`. */
  function Pte(s: Mmu, v: nat): nat
    requires WellSized(s) && v < TWO32
  {
    var slot := s.directory[DirectoryIndex(v)];
    if IsPresent(slot) then s.tables[PageStart(slot)][TableIndex(v)] else 0
  }

  /** `get_map`: the frame `v` is mapped to, or 0. */
  function GetMap(s: Mmu, v: nat): nat
    requires WellSized(s) && v < TWO32
  {
    if IsPresent(Pte(s, v)) then PageStart(Pte(s, v)) else 0
  }

  function UnmapPage(s: Mmu, v: nat): (s': Mmu)
    requires WellSized(s) && v < TWO32
    ensures WellSized(s')
  {
    if IsPresent(Pte(s, v)) then WriteEntry(s, v, 0, false) else s
  }

  /** What `free_page` does to memory: free the frame of `v` and clear its entry, if it is mapped. */
  function ReleasePage(s: Mmu, v: nat): (s': Mmu)
    requires WellSized(s) && Aligned(s.regions) && v < TWO32
    ensures WellSized(s') && Aligned(s'.regions)
  {
    var word := Pte(s, v);
    if !IsPresent(word) then s else
      FreeAligned(s.regions, PageStart(word));
      WriteEntry(s.(regions := Free(s.regions, PageStart(word))), v, 0, false)
  }

  /** `build_first_page`: the first 4 MiB mapped to themselves, nothing else. */
  function FirstPage(regions: seq<Region>, image: nat): (s: Mmu)
    requires image % 4096 == 0
    ensures WellSized(s)
    ensures s.regions == regions && s.directory[0] == image + 7
    ensures forall d :: 1 <= d < ENTRIES ==> s.directory[d] == 0
  {
    FlagsWord(image, 7);
    Mmu(regions, seq(ENTRIES, k => if k == 0 then image + 7 else 0),
        map[image := IdentityTable()])
  }

  function IdentityTable(): (t: seq<nat>)
    ensures |t| == ENTRIES && forall k :: 0 <= k < ENTRIES ==> t[k] == k * 0x1000 + 7
  {
    seq(ENTRIES, k requires 0 <= k => k * 0x1000 + 7)
  }

  // ----- Invariant -----

  ghost predicate IsTable(s: Mmu, f: nat)
    requires |s.directory| == ENTRIES
  {
    exists d :: 0 <= d < ENTRIES && IsPresent(s.directory[d]) && PageStart(s.directory[d]) == f
  }

  /** Tables are owned frames (or the image's), no two directory slots share one, and a user page
      is only ever found under a user directory slot; and no slot in use bars writing. */
  ghost predicate MmuInv(s: Mmu, boot: seq<Region>, image: nat) {
    && WellSized(s)
    && FrameMap(s.regions, boot, image) && image % 4096 == 0
    && TablesOwned(s, boot, image)
    && TablesDistinct(s)
    && UserUnderUser(s)
    && SlotsWritable(s)
  }

  ghost predicate TablesOwned(s: Mmu, boot: seq<Region>, image: nat)
    requires |s.directory| == ENTRIES
  {
    forall d :: 0 <= d < ENTRIES && IsPresent(s.directory[d]) ==>
      PageStart(s.directory[d]) == image || Owned(s.regions, boot, PageStart(s.directory[d]))
  }

  ghost predicate TablesDistinct(s: Mmu)
    requires |s.directory| == ENTRIES
  {
    forall c, d :: 0 <= c < d < ENTRIES && IsPresent(s.directory[c]) && IsPresent(s.directory[d]) ==>
      PageStart(s.directory[c]) != PageStart(s.directory[d])
  }

  /** Every directory slot in use lets its pages be written. */
  ghost predicate SlotsWritable(s: Mmu)
    requires |s.directory| == ENTRIES
  {
    forall d :: 0 <= d < ENTRIES && IsPresent(s.directory[d]) ==> IsWritable(s.directory[d])
  }

  ghost predicate UserUnderUser(s: Mmu)
    requires WellSized(s)
  {
    forall v :: 0 <= v < TWO32 && IsUser(Pte(s, v)) ==> IsUser(s.directory[DirectoryIndex(v)])
  }

  lemma PageOf(v: nat, w: nat)
    ensures v / 4096 == w / 4096 <==> DirectoryIndex(v) == DirectoryIndex(w) && TableIndex(v) == TableIndex(w)
  {
    assert v / 0x40_0000 == v / 4096 / 1024;
    assert w / 0x40_0000 == w / 4096 / 1024;
  }

  /** `map_page` has somewhere to write the entry. */
  predicate Mappable(s: Mmu, v: nat)
    requires |s.directory| == ENTRIES && v < TWO32
  {
    IsPresent(s.directory[DirectoryIndex(v)]) || Grants(s.regions, PAGE)
  }

  /** A new table maps nothing and disturbs nothing. */
  lemma EnsureTableInv(s: Mmu, d: nat, flags: nat, boot: seq<Region>, image: nat)
    requires MmuInv(s, boot, image) && d < ENTRIES && IsFlags(flags)
    ensures Aligned(s.regions)
    ensures var s' := EnsureTable(s, d, flags);
      && MmuInv(s', boot, image)
      && (forall v :: 0 <= v < TWO32 ==> Pte(s', v) == Pte(s, v))
      && (IsPresent(s'.directory[d]) <==> IsPresent(s.directory[d]) || Grants(s.regions, PAGE))
      && (forall h :: Owned(s.regions, boot, h) ==> Owned(s'.regions, boot, h))
      && (forall h :: IsTable(s', h) ==> IsTable(s, h) || !Owned(s.regions, boot, h))
  {
    ShapedAligned(s.regions, boot, image);
    GrantFrame(s.regions, boot, image);
    var g := Allocate(s.regions, PAGE);
    if !IsPresent(s.directory[d]) && g.address != 0 {
      NewTableInv(s, d, flags, boot, image);
    }
  }

  /** The frame granted for a new table is not yet anybody's table. */
  lemma NewTableFresh(s: Mmu, boot: seq<Region>, image: nat)
    requires MmuInv(s, boot, image) && Allocate(s.regions, PAGE).address != 0
    ensures var f := Allocate(s.regions, PAGE).address;
      f % 4096 == 0 && !IsTable(s, f) && !Owned(s.regions, boot, f)
  {
    GrantFrame(s.regions, boot, image);
  }

  lemma NewTablePtes(s: Mmu, d: nat, flags: nat, v: nat)
    requires WellSized(s) && d < ENTRIES && IsFlags(flags) && Aligned(s.regions) && v < TWO32
    requires !IsPresent(s.directory[d]) && Allocate(s.regions, PAGE).address != 0
    requires !IsTable(s, Allocate(s.regions, PAGE).address)
    ensures Pte(EnsureTable(s, d, flags), v) == Pte(s, v)
    ensures DirectoryIndex(v) == d ==> Pte(s, v) == 0
  {
    AllocateAligned(s.regions);
    var f := Allocate(s.regions, PAGE).address;
    var s' := EnsureTable(s, d, flags);
    var c := DirectoryIndex(v);
    TableSlotFrame(f, flags);
    if c == d {
      assert PageStart(s'.directory[d]) == f;
    } else if IsPresent(s.directory[c]) {
      assert PageStart(s.directory[c]) != f;
    }
  }

  lemma NewTableDirectory(s: Mmu, d: nat, flags: nat)
    requires WellSized(s) && d < ENTRIES && IsFlags(flags) && Aligned(s.regions)
    requires !IsPresent(s.directory[d]) && Allocate(s.regions, PAGE).address != 0
    ensures var s' := EnsureTable(s, d, flags);
      && PageStart(s'.directory[d]) == Allocate(s.regions, PAGE).address
      && s'.directory == s.directory[d := s'.directory[d]]
      && IsPresent(s'.directory[d]) && IsWritable(s'.directory[d])
  {
    AllocateAligned(s.regions);
    TableSlotFrame(Allocate(s.regions, PAGE).address, flags);
  }

  lemma NewTableInv(s: Mmu, d: nat, flags: nat, boot: seq<Region>, image: nat)
    requires MmuInv(s, boot, image) && Aligned(s.regions) && d < ENTRIES && IsFlags(flags)
    requires !IsPresent(s.directory[d]) && Allocate(s.regions, PAGE).address != 0
    ensures var s' := EnsureTable(s, d, flags);
      && MmuInv(s', boot, image)
      && (forall v :: 0 <= v < TWO32 ==> Pte(s', v) == Pte(s, v))
      && IsPresent(s'.directory[d])
      && (forall h :: IsTable(s', h) ==> IsTable(s, h) || !Owned(s.regions, boot, h))
  {
    hide Pte, FrameMap, PageStart, Allocate;
    var s' := EnsureTable(s, d, flags);
    NewTableFresh(s, boot, image);
    NewTableDirectory(s, d, flags);
    GrantFrame(s.regions, boot, image);
    forall v | 0 <= v < TWO32 ensures Pte(s', v) == Pte(s, v) {
      NewTablePtes(s, d, flags, v);
    }
    assert UserUnderUser(s') by {
      forall v | 0 <= v < TWO32 && IsUser(Pte(s', v)) ensures IsUser(s'.directory[DirectoryIndex(v)]) {
        NewTablePtes(s, d, flags, v);
      }
    }
  }

  /** Writing an entry changes what one page is mapped to, and nothing else. */
  lemma WriteEntryRefines(s: Mmu, v: nat, word: nat, user: bool)
    requires WellSized(s) && TablesDistinct(s) && v < TWO32 && IsPresent(s.directory[DirectoryIndex(v)])
    ensures var s' := WriteEntry(s, v, word, user);
      forall w :: 0 <= w < TWO32 ==> Pte(s', w) == if w / 4096 == v / 4096 then word else Pte(s, w)
  {
    var s' := WriteEntry(s, v, word, user);
    var d := DirectoryIndex(v);
    WithUserFrame(s.directory[d]);
    forall w | 0 <= w < TWO32
      ensures Pte(s', w) == if w / 4096 == v / 4096 then word else Pte(s, w)
    {
      PageOf(v, w);
      var c := DirectoryIndex(w);
      assert c != d && IsPresent(s.directory[c]) ==> PageStart(s.directory[c]) != PageStart(s.directory[d]);
    }
  }

  lemma WriteEntryInv(s: Mmu, v: nat, word: nat, user: bool, boot: seq<Region>, image: nat)
    requires MmuInv(s, boot, image) && v < TWO32 && IsPresent(s.directory[DirectoryIndex(v)])
    requires IsUser(word) ==> user
    ensures MmuInv(WriteEntry(s, v, word, user), boot, image)
    ensures forall h :: IsTable(WriteEntry(s, v, word, user), h) <==> IsTable(s, h)
  {
    var s' := WriteEntry(s, v, word, user);
    var d := DirectoryIndex(v);
    WithUserFrame(s.directory[d]);
    WriteEntryRefines(s, v, word, user);
    forall c | 0 <= c < ENTRIES
      ensures PageStart(s'.directory[c]) == PageStart(s.directory[c])
      ensures IsPresent(s'.directory[c]) <==> IsPresent(s.directory[c])
      ensures IsUser(s.directory[c]) ==> IsUser(s'.directory[c])
      ensures IsWritable(s'.directory[c]) <==> IsWritable(s.directory[c])
    {
    }
    forall w | 0 <= w < TWO32 && IsUser(Pte(s', w)) ensures IsUser(s'.directory[DirectoryIndex(w)]) {
      PageOf(v, w);
    }
  }

  /** `map_page` updates a finite map from pages to words at one page, whenever that page's table
      exists or a frame for it can be had; otherwise no page changes. */
  lemma MapPageRefines(s: Mmu, physical: nat, v: nat, flags: nat, boot: seq<Region>, image: nat)
    requires MmuInv(s, boot, image) && v < TWO32 && IsFlags(flags)
    ensures Aligned(s.regions)
    ensures var s' := MapPage(s, physical, v, flags);
      && MmuInv(s', boot, image)
      && (forall w :: 0 <= w < TWO32 ==>
            Pte(s', w) == if w / 4096 == v / 4096 && Mappable(s, v) then PageStart(physical) + flags else Pte(s, w))
      && (forall h :: Owned(s.regions, boot, h) ==> Owned(s'.regions, boot, h))
      && (forall h :: IsTable(s', h) ==> IsTable(s, h) || !Owned(s.regions, boot, h))
  {
    var d := DirectoryIndex(v);
    EnsureTableInv(s, d, flags, boot, image);
    var s1 := EnsureTable(s, d, flags);
    if IsPresent(s1.directory[d]) {
      FlagsWord(physical, flags);
      WriteEntryRefines(s1, v, PageStart(physical) + flags, IsUser(flags));
      WriteEntryInv(s1, v, PageStart(physical) + flags, IsUser(flags), boot, image);
    }
  }

  /** What `map_page` does to the directory. A missing entry becomes the frame of the new table plus 3,
      present and writable, or plus 7 for a user page; an entry in use at most gains the user bit, and
      only for a user page; no other entry changes. */
  lemma MapPageDirectory(s: Mmu, physical: nat, v: nat, flags: nat)
    requires WellSized(s) && Aligned(s.regions) && v < TWO32 && IsFlags(flags)
    ensures var s', d, user := MapPage(s, physical, v, flags), v / 0x40_0000, flags >= 4;
      var frame := Allocate(s.regions, PAGE).address;
      && (forall c :: 0 <= c < ENTRIES && c != d ==> s'.directory[c] == s.directory[c])
      && s'.directory[d] == (if IsPresent(s.directory[d]) then
                               s.directory[d] + (if user && s.directory[d] % 8 < 4 then 4 else 0)
                             else if frame == 0 then s.directory[d]
                             else if user then frame + 7 else frame + 3)
  {
    hide Allocate;
    AllocateAligned(s.regions);
    var frame := Allocate(s.regions, PAGE).address;
    NewSlotBits(frame, flags);
  }

  lemma NewSlotBits(frame: nat, flags: nat)
    requires frame % 4096 == 0 && IsFlags(flags)
    ensures IsUser(flags) <==> flags >= 4
    ensures IsUser(flags) ==> IsUser(TableSlot(frame, flags))
    ensures IsPresent(TableSlot(frame, flags))
  {
    FlagsWord(frame, TableSlot(frame, flags) - frame);
  }

  /** Neither unmapping nor releasing a page touches the directory. */
  lemma DirectoryKept(s: Mmu, v: nat)
    requires WellSized(s) && Aligned(s.regions) && v < TWO32
    ensures UnmapPage(s, v).directory == s.directory && ReleasePage(s, v).directory == s.directory
  {
  }

  /** Address `v` is in a page that user code may write, by both levels of the tables. */
  ghost predicate UserWritable(s: Mmu, v: nat)
    requires WellSized(s) && v < TWO32
  {
    var slot, word := s.directory[v / 0x40_0000], Pte(s, v);
    IsPresent(slot) && IsWritable(slot) && IsUser(slot) && IsPresent(word) && IsWritable(word) && IsUser(word)
  }

  /** A page whose entry has the flags 7 is such a page. */
  lemma UserPage(s: Mmu, v: nat, boot: seq<Region>, image: nat)
    requires MmuInv(s, boot, image) && v < TWO32 && Pte(s, v) == PageStart(Pte(s, v)) + 7
    ensures UserWritable(s, v)
  {
    FlagsWord(Pte(s, v), 7);
    var d := DirectoryIndex(v);
    assert IsPresent(s.directory[d]);
    hide FrameMap, TablesOwned, TablesDistinct;
  }

  /** It stays one while its entry stays. */
  lemma UserWritableKept(s: Mmu, s': Mmu, v: nat, boot: seq<Region>, image: nat)
    requires WellSized(s) && MmuInv(s', boot, image) && v < TWO32 && UserWritable(s, v) && Pte(s', v) == Pte(s, v)
    ensures UserWritable(s', v)
  {
    assert !IsPresent(0);
    assert IsPresent(s'.directory[DirectoryIndex(v)]);
    hide FrameMap, TablesOwned, TablesDistinct;
  }

  /** `unmap_page` removes exactly one page from the map; afterwards `get_map` finds nothing there. */
  lemma UnmapPageRefines(s: Mmu, v: nat, boot: seq<Region>, image: nat)
    requires MmuInv(s, boot, image) && v < TWO32
    ensures MmuInv(UnmapPage(s, v), boot, image)
    ensures forall w :: 0 <= w < TWO32 ==>
              GetMap(UnmapPage(s, v), w) == if w / 4096 == v / 4096 then 0 else GetMap(s, w)
    ensures forall w :: 0 <= w < TWO32 ==>
              Pte(UnmapPage(s, v), w) == if w / 4096 == v / 4096 && IsPresent(Pte(s, v)) then 0 else Pte(s, w)
    ensures forall h :: IsTable(UnmapPage(s, v), h) <==> IsTable(s, h)
  {
    if IsPresent(Pte(s, v)) {
      WriteEntryRefines(s, v, 0, false);
      WriteEntryInv(s, v, 0, false, boot, image);
    } else {
      forall w | 0 <= w < TWO32 && w / 4096 == v / 4096 ensures Pte(s, w) == Pte(s, v) {
        PageOf(v, w);
      }
    }
  }

  /** Releasing a page whose frame is owned, and is not a page table, ends that ownership, clears that
      page, and nothing else. */
  lemma ReleasePageRefines(s: Mmu, v: nat, boot: seq<Region>, image: nat)
    requires MmuInv(s, boot, image) && Aligned(s.regions) && v < TWO32 && IsPresent(Pte(s, v))
    requires Owned(s.regions, boot, PageStart(Pte(s, v))) && !IsTable(s, PageStart(Pte(s, v)))
    ensures var s' := ReleasePage(s, v);
      && MmuInv(s', boot, image)
      && (forall w :: 0 <= w < TWO32 ==> Pte(s', w) == if w / 4096 == v / 4096 then 0 else Pte(s, w))
      && (forall h :: Owned(s'.regions, boot, h) <==> Owned(s.regions, boot, h) && h != PageStart(Pte(s, v)))
      && (forall h :: IsTable(s', h) <==> IsTable(s, h))
  {
    hide Free, FrameMap, PageStart;
    var frame := PageStart(Pte(s, v));
    var s1 := s.(regions := Free(s.regions, frame));
    ReleaseFrame(s.regions, frame, boot, image);
    assert forall w :: 0 <= w < TWO32 ==> Pte(s1, w) == Pte(s, w);
    assert MmuInv(s1, boot, image);
    WriteEntryRefines(s1, v, 0, false);
    WriteEntryInv(s1, v, 0, false, boot, image);
  }

  lemma IdentityPage(v: nat)
    ensures v < 0x40_0000 ==> DirectoryIndex(v) == 0 && TableIndex(v) == v / 4096 && v / 4096 * 0x1000 == PageStart(v)
    ensures v >= 0x40_0000 ==> DirectoryIndex(v) > 0
  {
  }

  lemma FirstPagePte(regions: seq<Region>, image: nat, v: nat)
    requires image % 4096 == 0 && v < TWO32
    ensures Pte(FirstPage(regions, image), v) == if v < 0x40_0000 then PageStart(v) + 7 else 0
  {
    FlagsWord(image, 7);
    IdentityPage(v);
    hide PageStart;
  }

  /** The boot mapping meets the invariant, and is the identity on the first 4 MiB. */
  lemma FirstPageSlots(regions: seq<Region>, boot: seq<Region>, image: nat)
    requires image % 4096 == 0
    ensures var s := FirstPage(regions, image);
      TablesOwned(s, boot, image) && TablesDistinct(s) && SlotsWritable(s)
  {
    FlagsWord(image, 7);
    hide Pte, PageStart, FirstPage;
    assert IsPresent(image + 7) && IsWritable(image + 7) && !IsPresent(0);
  }

  lemma FirstPageInv(regions: seq<Region>, boot: seq<Region>, image: nat)
    requires FrameMap(regions, boot, image) && image % 4096 == 0
    ensures MmuInv(FirstPage(regions, image), boot, image)
    ensures forall v :: 0 <= v < TWO32 ==>
              Pte(FirstPage(regions, image), v) == if v < 0x40_0000 then PageStart(v) + 7 else 0
  {
    var s := FirstPage(regions, image);
    FlagsWord(image, 7);
    hide FrameMap, PageStart, Pte, FirstPage;
    forall v | 0 <= v < TWO32
      ensures Pte(s, v) == if v < 0x40_0000 then PageStart(v) + 7 else 0
      ensures IsUser(Pte(s, v)) ==> IsUser(s.directory[DirectoryIndex(v)])
    {
      FirstPagePte(regions, image, v);
      IdentityPage(v);
    }
    FirstPageSlots(regions, boot, image);
  }
}
