/** After a complete load, virtual memory holds every segment of the file at once. */
module ElfCorrectness {
  import opened PhysicalMap
  import opened MapTiling
  import opened Words
  import opened PageTables
  import opened VirtualPages
  import opened PageRuns
  import opened ElfImage

  lemma SplitAddress(v: nat)
    ensures PageStart(v) % 4096 == 0 && v == PageStart(v) + v % 4096
  {
    WordBits(v / 4096, 0);
    assert PageStart(v) == 4096 * (v / 4096);
  }

  lemma SamePte(s: Mmu, v: nat)
    requires WellSized(s) && v < TWO32
    ensures Pte(s, v) == Pte(s, PageStart(v))
  {
    SplitAddress(v);
    WordBits(v / 4096, v % 4096);
    WordBits(v / 4096, 0);
    var q := v / 4096;
    assert PageStart(v) == 4096 * q;
    PageTables.PageOf(v, 4096 * q);
    assert (4096 * q) / 4096 == q;
    hide Pte;
    SameIndexSamePte(s, v, PageStart(v));
  }

  lemma SameIndexSamePte(s: Mmu, v: nat, w: nat)
    requires WellSized(s) && v < TWO32 && w < TWO32
    requires DirectoryIndex(v) == DirectoryIndex(w) && TableIndex(v) == TableIndex(w)
    ensures Pte(s, v) == Pte(s, w)
  {
  }

  /** Two addresses in pages in hand share a byte of physical memory only if they are the same. */
  lemma PhysicalInjective(s: Mmu, granted: set<nat>, v: nat, w: nat)
    requires WellSized(s) && FramesDistinct(s, granted) && v < TWO32 && w < TWO32
    requires PageStart(v) in granted && PageStart(w) in granted
    requires IsPresent(Pte(s, v)) && IsPresent(Pte(s, w)) && v != w
    ensures Physical(s, v) != Physical(s, w)
  {
    SamePte(s, v);
    SamePte(s, w);
    SplitAddress(v);
    SplitAddress(w);
    hide Pte;
    FramePlusOffset(Pte(s, v), v % 4096);
    FramePlusOffset(Pte(s, w), w % 4096);
  }

  lemma FramePlusOffset(word: nat, offset: nat)
    requires offset < 4096
    ensures (PageStart(word) + offset) % 4096 == offset
  {
    assert PageStart(word) == 4096 * (word / 4096);
    WordBits(word / 4096, offset);
  }

  /** Storing one byte changes that byte, and nothing else in the pages in hand. */
  lemma StoreOne(im: Image, granted: set<nat>, v: nat, b: Byte, w: nat)
    requires WellSized(im.mmu) && FramesDistinct(im.mmu, granted) && v < TWO32 && w < TWO32
    requires PageStart(v) in granted && PageStart(w) in granted && IsPresent(Pte(im.mmu, v))
    ensures var im' := im.(ram := im.ram[Physical(im.mmu, v) := b]);
      Read(im', w) == if w == v then Some(b) else Read(im, w)
  {
    if w != v && IsPresent(Pte(im.mmu, w)) {
      PhysicalInjective(im.mmu, granted, v, w);
    }
    hide Pte;
  }

  /** Storing bytes puts them where they belong, and changes nothing else in the pages in hand. */
  lemma {:induction false} StoreEffect(im: Image, granted: set<nat>, v: nat, bytes: seq<Byte>, w: nat)
    requires WellSized(im.mmu) && FramesDistinct(im.mmu, granted)
    requires v + |bytes| <= TWO32 && w < TWO32 && PageStart(w) in granted
    requires forall x :: v <= x < v + |bytes| ==> PageStart(x) in granted
    requires Store(im, v, bytes).Some?
    ensures var im' := Store(im, v, bytes).value;
      Read(im', w) == if v <= w < v + |bytes| then Some(bytes[w - v]) else Read(im, w)
    decreases |bytes|
  {
    hide Pte, FramesDistinct, Read, Physical, PageStart, WellSized;
    if bytes != [] {
      assert PageStart(v) in granted;
      var im1 := im.(ram := im.ram[Physical(im.mmu, v) := bytes[0]]);
      StoreOne(im, granted, v, bytes[0], w);
      StoreEffect(im1, granted, v + 1, bytes[1..], w);
    }
  }

  // ----- One segment -----

  /** The pages of a segment. */
  ghost function PagesOf(ph: Phdr): set<nat> {
    PageSet(PageStart(ph.vaddr), PageCount(ph))
  }

  /** Every byte of the segment lies in one of its pages. */
  lemma SegmentPages(file: seq<Byte>, ph: Phdr, v: nat)
    requires Loadable(file, ph) && ph.vaddr <= v < ph.vaddr + ph.memsz
    ensures PageStart(v) in PagesOf(ph)
  {
    var first, n := PageStart(ph.vaddr), PageCount(ph);
    SplitAddress(ph.vaddr);
    SplitAddress(v);
    PageSetBounds(first, n);
    CountCovers(ph.vaddr % 4096 + ph.memsz);
    PageDown(first, v, n);
  }

  lemma CountCovers(m: nat)
    ensures (m + 0xFFF) / 4096 * 4096 >= m
  {
  }

  lemma PageDown(first: nat, a: nat, n: nat)
    requires first % 4096 == 0 && first <= a < first + n * 4096
    ensures first <= PageStart(a) < first + n * 4096
  {
    var p, q := first / 4096, a / 4096;
    assert first == 4096 * p && PageStart(a) == 4096 * q;
    assert p <= q;
  }

  lemma LastPageBelow(file: seq<Byte>, ph: Phdr)
    requires Loadable(file, ph)
    ensures PageStart(ph.vaddr) % 4096 == 0 && PageStart(ph.vaddr) + PageCount(ph) * 4096 <= TWO32
  {
    SplitAddress(ph.vaddr);
  }

  /** Virtual memory holds the segment: the file's bytes, then zeros up to its size in memory. */
  ghost predicate Shows(im: Image, file: seq<Byte>, ph: Phdr)
    requires WellSized(im.mmu) && Loadable(file, ph)
  {
    forall v :: ph.vaddr <= v < ph.vaddr + ph.memsz ==> Read(im, v) == Some(ByteAt(file, ph, v))
  }

  /** User code may write the whole segment. */
  ghost predicate Open(im: Image, file: seq<Byte>, ph: Phdr)
    requires WellSized(im.mmu) && Loadable(file, ph)
  {
    forall v :: ph.vaddr <= v < ph.vaddr + ph.memsz ==> UserWritable(im.mmu, v)
  }

  /** The byte the segment has at address `v`. */
  function ByteAt(file: seq<Byte>, ph: Phdr, v: nat): Byte
    requires Loadable(file, ph) && ph.vaddr <= v < ph.vaddr + ph.memsz
  {
    if v - ph.vaddr < ph.filesz then file[ph.offset + (v - ph.vaddr)] else 0
  }

  /** The pages in hand are mapped and read the same. */
  ghost predicate SameIn(im: Image, im': Image, granted: set<nat>)
    requires WellSized(im.mmu) && WellSized(im'.mmu)
  {
    forall w :: 0 <= w < TWO32 && PageStart(w) in granted ==>
      Read(im', w) == Read(im, w) && Pte(im'.mmu, w) == Pte(im.mmu, w)
  }

  lemma ReadThrough(im: Image, mmu: Mmu, granted: set<nat>)
    requires WellSized(im.mmu) && WellSized(mmu)
    requires forall w :: w in granted && w < TWO32 ==> Pte(mmu, w) == Pte(im.mmu, w)
    ensures SameIn(im, im.(mmu := mmu), granted)
  {
    hide Pte, PageStart, Read;
    forall w | 0 <= w < TWO32 && PageStart(w) in granted
      ensures Read(im.(mmu := mmu), w) == Read(im, w) && Pte(mmu, w) == Pte(im.mmu, w)
    {
      PageBelow(w);
      SamePte(im.mmu, w);
      SamePte(mmu, w);
      SameRead(im, mmu, w);
    }
  }

  lemma PageBelow(w: nat)
    requires w < TWO32
    ensures PageStart(w) < TWO32
  {
  }

  lemma SameRead(im: Image, mmu: Mmu, w: nat)
    requires WellSized(im.mmu) && WellSized(mmu) && w < TWO32 && Pte(mmu, w) == Pte(im.mmu, w)
    ensures Read(im.(mmu := mmu), w) == Read(im, w)
  {
    hide Pte;
  }

  lemma StoreSegment(im: Image, file: seq<Byte>, ph: Phdr, granted: set<nat>)
    requires WellSized(im.mmu) && FramesDistinct(im.mmu, granted) && Loadable(file, ph) && PagesOf(ph) <= granted
    requires Store(im, ph.vaddr, Contents(file, ph)).Some?
    ensures var im' := Store(im, ph.vaddr, Contents(file, ph)).value;
      && Shows(im', file, ph)
      && forall w :: 0 <= w < TWO32 && PageStart(w) in granted && !(ph.vaddr <= w < ph.vaddr + ph.memsz) ==>
           Read(im', w) == Read(im, w)
  {
    hide Pte, Read, Store, FramesDistinct, PagesOf;
    var bytes := Contents(file, ph);
    forall x | ph.vaddr <= x < ph.vaddr + |bytes| ensures PageStart(x) in granted {
      SegmentPages(file, ph, x);
    }
    hide PageStart;
    var im' := Store(im, ph.vaddr, bytes).value;
    forall v | ph.vaddr <= v < ph.vaddr + ph.memsz ensures Read(im', v) == Some(ByteAt(file, ph, v)) {
      StoreEffect(im, granted, ph.vaddr, bytes, v);
    }
    forall w | 0 <= w < TWO32 && PageStart(w) in granted && !(ph.vaddr <= w < ph.vaddr + ph.memsz)
      ensures Read(im', w) == Read(im, w)
    {
      StoreEffect(im, granted, ph.vaddr, bytes, w);
    }
  }

  /** What `LoadSegment` comes to when nothing goes wrong. */
  lemma LoadedStores(im: Image, file: seq<Byte>, ph: Phdr)
    requires ImageReady(im) && Loadable(file, ph) && LoadSegment(im, file, ph).Loaded?
    ensures var mapped := MapFrames(im.mmu, PageStart(ph.vaddr), PageCount(ph), PRESENT + USER + WRITE);
      var r := Store(im.(mmu := mapped.mmu), ph.vaddr, Contents(file, ph));
      mapped.complete && r.Some? && LoadSegment(im, file, ph).image == r.value
  {
    hide Pte, MapFrames, Store;
  }

  /** Where a segment can be read, its pages have the flags they were mapped with. */
  lemma SegmentOpen(im: Image, file: seq<Byte>, ph: Phdr, boot: seq<Region>, image: nat)
    requires MmuInv(im.mmu, boot, image) && Loadable(file, ph)
    requires FlagsAre(im.mmu, PagesOf(ph), PRESENT + USER + WRITE) && Shows(im, file, ph)
    ensures Open(im, file, ph)
  {
    hide Pte, PagesOf, PageStart, MmuInv, Physical;
    SizedOf(im.mmu, boot, image);
    forall v | ph.vaddr <= v < ph.vaddr + ph.memsz ensures UserWritable(im.mmu, v) {
      assert Read(im, v).Some?;
      SegmentPages(file, ph, v);
      PageBelow(v);
      SamePte(im.mmu, v);
      assert IsPresent(Pte(im.mmu, v));
      UserPage(im.mmu, v, boot, image);
    }
  }

  lemma SizedOf(s: Mmu, boot: seq<Region>, image: nat)
    requires MmuInv(s, boot, image)
    ensures WellSized(s)
  {
  }

  /** A segment loaded whole is in memory, where user code may read and write it, and the pages that
      were in hand before are as they were. */
  lemma LoadSegmentShows(im: Image, file: seq<Byte>, ph: Phdr, granted: set<nat>, boot: seq<Region>, image: nat)
    requires ImageReady(im) && Loadable(file, ph) && Held(im.mmu, granted, boot, image)
    requires granted !! PagesOf(ph) && LoadSegment(im, file, ph).Loaded?
    ensures var im' := LoadSegment(im, file, ph).image;
      && Held(im'.mmu, granted + PagesOf(ph), boot, image)
      && FlagsAre(im'.mmu, PagesOf(ph), PRESENT + USER + WRITE)
      && Shows(im', file, ph) && Open(im', file, ph)
      && SameIn(im, im', granted)
  {
    hide Pte, MapFrames, Read, Store, LoadSegment, FramesDistinct, FramesOwned, TablesOwned, TablesDistinct,
         UserUnderUser, SlotsWritable, PageStart;
    LastPageBelow(file, ph);
    LoadedStores(im, file, ph);
    var mapped := MapFrames(im.mmu, PageStart(ph.vaddr), PageCount(ph), PRESENT + USER + WRITE);
    MapFramesHolds(im.mmu, PageStart(ph.vaddr), PageCount(ph), PRESENT + USER + WRITE, granted, boot, image);
    var im1 := im.(mmu := mapped.mmu);
    ReadThrough(im, mapped.mmu, granted);
    StoreSegment(im1, file, ph, granted + PagesOf(ph));
    var im' := LoadSegment(im, file, ph).image;
    SegmentOpen(im', file, ph, boot, image);
    forall w | 0 <= w < TWO32 && PageStart(w) in granted
      ensures Read(im', w) == Read(im, w) && Pte(im'.mmu, w) == Pte(im.mmu, w)
    {
      assert Read(im1, w) == Read(im, w);
      if ph.vaddr <= w < ph.vaddr + ph.memsz {
        SegmentPages(file, ph, w);
      }
    }
  }

  // ----- The whole file -----

  /** Segments to load touch no page in hand, and no page of one another. */
  ghost predicate Separate(phs: seq<Phdr>, granted: set<nat>) {
    && (forall i :: 0 <= i < |phs| && phs[i].kind == PT_LOAD ==> granted !! PagesOf(phs[i]))
    && (forall i, j :: 0 <= i < j < |phs| && phs[i].kind == PT_LOAD && phs[j].kind == PT_LOAD ==>
          PagesOf(phs[i]) !! PagesOf(phs[j]))
  }

  ghost predicate AllLoadable(file: seq<Byte>, phs: seq<Phdr>) {
    forall i :: 0 <= i < |phs| && phs[i].kind == PT_LOAD ==> Loadable(file, phs[i])
  }

  /** When `elf_load_exec` ends with every segment loaded whole, reading virtual memory gives every
      segment of the file at once, and user code may write them: later segments spoil neither earlier
      ones nor the pages that were in hand before. */
  lemma {:induction false} LoadAllShows(im: Image, file: seq<Byte>, phs: seq<Phdr>, granted: set<nat>,
                                        boot: seq<Region>, image: nat)
    requires ImageReady(im) && AllLoadable(file, phs) && Held(im.mmu, granted, boot, image)
    requires Separate(phs, granted) && LoadAll(im, file, phs).Loaded?
    ensures var im' := LoadAll(im, file, phs).image;
      && SameIn(im, im', granted)
      && MmuInv(im'.mmu, boot, image)
      && forall i :: 0 <= i < |phs| && phs[i].kind == PT_LOAD ==>
           Shows(im', file, phs[i]) && Open(im', file, phs[i])
    decreases |phs|
  {
    if phs == [] {
      SameSelf(im, granted);
    } else {
      hide LoadSegment, Read, Held, MmuInv, Shows, Open, PagesOf, Loadable, SameIn;
      var rest := phs[1..];
      var load := phs[0].kind == PT_LOAD;
      var first := if load then PagesOf(phs[0]) else {};
      var im1 := if load then LoadSegment(im, file, phs[0]).image else im;
      if load {
        LoadSegmentShows(im, file, phs[0], granted, boot, image);
      } else {
        SameSelf(im, granted);
        assert granted + first == granted;
      }
      SeparateTail(phs, granted, first);
      LoadAllShows(im1, file, rest, granted + first, boot, image);
      var im' := LoadAll(im1, file, rest).image;
      SameChain(im, im1, im', granted, granted + first);
      forall i | 0 <= i < |phs| && phs[i].kind == PT_LOAD ensures Shows(im', file, phs[i]) && Open(im', file, phs[i]) {
        if i > 0 {
          assert phs[i] == rest[i - 1];
        } else {
          ShowsStill(im1, im', file, phs[0], granted + first);
          OpenStill(im1, im', file, phs[0], granted + first, boot, image);
        }
      }
    }
  }

  lemma SeparateTail(phs: seq<Phdr>, granted: set<nat>, first: set<nat>)
    requires phs != [] && Separate(phs, granted)
    requires first == if phs[0].kind == PT_LOAD then PagesOf(phs[0]) else {}
    ensures Separate(phs[1..], granted + first)
  {
    hide PagesOf;
    forall i | 0 <= i < |phs[1..]| && phs[1..][i].kind == PT_LOAD ensures granted + first !! PagesOf(phs[1..][i]) {
      assert phs[1..][i] == phs[i + 1];
      assert granted !! PagesOf(phs[i + 1]);
      assert phs[0].kind == PT_LOAD ==> PagesOf(phs[0]) !! PagesOf(phs[i + 1]);
    }
    forall i, j | 0 <= i < j < |phs[1..]| && phs[1..][i].kind == PT_LOAD && phs[1..][j].kind == PT_LOAD
      ensures PagesOf(phs[1..][i]) !! PagesOf(phs[1..][j])
    {
      assert PagesOf(phs[i + 1]) !! PagesOf(phs[j + 1]);
    }
  }

  lemma SameSelf(im: Image, granted: set<nat>)
    requires WellSized(im.mmu)
    ensures SameIn(im, im, granted)
  {
  }

  lemma SameChain(a: Image, b: Image, c: Image, granted: set<nat>, more: set<nat>)
    requires WellSized(a.mmu) && WellSized(b.mmu) && WellSized(c.mmu)
    requires SameIn(a, b, granted) && SameIn(b, c, more) && granted <= more
    ensures SameIn(a, c, granted)
  {
    hide Read, PageStart, Pte;
    forall w | 0 <= w < TWO32 && PageStart(w) in granted
      ensures Read(c, w) == Read(a, w) && Pte(c.mmu, w) == Pte(a.mmu, w)
    {
      assert Read(b, w) == Read(a, w);
    }
  }

  lemma ShowsStill(im: Image, im': Image, file: seq<Byte>, ph: Phdr, granted: set<nat>)
    requires WellSized(im.mmu) && WellSized(im'.mmu) && Loadable(file, ph)
    requires Shows(im, file, ph) && SameIn(im, im', granted) && PagesOf(ph) <= granted
    ensures Shows(im', file, ph)
  {
    hide Read, PageStart, PagesOf;
    forall v | ph.vaddr <= v < ph.vaddr + ph.memsz ensures Read(im', v) == Some(ByteAt(file, ph, v)) {
      SegmentPages(file, ph, v);
      assert Read(im', v) == Read(im, v);
    }
  }

  lemma OpenStill(im: Image, im': Image, file: seq<Byte>, ph: Phdr, granted: set<nat>, boot: seq<Region>, image: nat)
    requires WellSized(im.mmu) && MmuInv(im'.mmu, boot, image) && Loadable(file, ph)
    requires Open(im, file, ph) && SameIn(im, im', granted) && PagesOf(ph) <= granted
    ensures Open(im', file, ph)
  {
    hide Read, PageStart, PagesOf, Pte, MmuInv, UserWritable;
    SizedOf(im'.mmu, boot, image);
    forall v | ph.vaddr <= v < ph.vaddr + ph.memsz ensures UserWritable(im'.mmu, v) {
      SegmentPages(file, ph, v);
      assert Read(im', v) == Read(im, v);
      UserWritableKept(im.mmu, im'.mmu, v, boot, image);
    }
  }

  /** Consecutive bytes of a page are consecutive in its frame. */
  lemma PhysicalOffset(s: Mmu, v: nat)
    requires WellSized(s) && v < TWO32 && IsPresent(Pte(s, v))
    ensures PageStart(v) < TWO32
    ensures Physical(s, v) == GetMap(s, PageStart(v)) + (v - PageStart(v))
  {
    SamePte(s, v);
    hide Pte;
  }
}
