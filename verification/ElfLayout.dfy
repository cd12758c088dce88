/** The layout of an ELF file (kernel/elf.h; System V gABI, chapters 4 and 5), by writers of its headers:
    reading a file that holds given headers gives those headers back. */
module ElfLayout {
  import opened PhysicalMap
  import opened MapTiling
  import opened PageTables
  import opened PageRuns
  import opened FrameSupply
  import opened ElfImage
  import opened ElfCorrectness
  import opened ElfSupply

  /** The ELF header: all its fields but the ten bytes of identification that nobody reads. */
  datatype Header = Header(magic: seq<Byte>, class32: Byte, data: Byte, identVersion: Byte,
                           kind: nat, machine: nat, version: nat, entry: nat, phoff: nat, shoff: nat,
                           flags: nat, ehsize: nat, phsize: nat, phnum: nat, shsize: nat, shnum: nat, shindex: nat)

  /** A program header with all its fields. */
  datatype Entry = Entry(kind: nat, offset: nat, vaddr: nat, paddr: nat,
                         filesz: nat, memsz: nat, flags: nat, align: nat)

  // ----- Writing -----

  /** A number in `n` bytes, the lowest first. */
  function LittleEndian(value: nat, n: nat): (bytes: seq<Byte>)
    ensures |bytes| == n
  {
    if n == 0 then [] else [value % 256] + LittleEndian(value / 256, n - 1)
  }

  function Half(value: nat): (bytes: seq<Byte>) ensures |bytes| == 2 { LittleEndian(value, 2) }

  function Word(value: nat): (bytes: seq<Byte>) ensures |bytes| == 4 { LittleEndian(value, 4) }

  function HeaderBytes(h: Header): (bytes: seq<Byte>)
    requires |h.magic| == 4
    ensures |bytes| == 52
  {
    h.magic + [h.class32, h.data, h.identVersion] + Fill(0, 9)
    + Half(h.kind) + Half(h.machine) + Word(h.version)
    + Word(h.entry) + Word(h.phoff) + Word(h.shoff) + Word(h.flags)
    + Half(h.ehsize) + Half(h.phsize) + Half(h.phnum) + Half(h.shsize) + Half(h.shnum) + Half(h.shindex)
  }

  function EntryBytes(e: Entry): (bytes: seq<Byte>)
    ensures |bytes| == 32
  {
    Word(e.kind) + Word(e.offset) + Word(e.vaddr) + Word(e.paddr)
    + Word(e.filesz) + Word(e.memsz) + Word(e.flags) + Word(e.align)
  }

  const LIMIT16: nat := 0x1_0000
  const LIMIT32: nat := 0x1_0000_0000

  /** Every field fits its width. */
  predicate HeaderFits(h: Header) {
    && |h.magic| == 4
    && h.kind < LIMIT16 && h.machine < LIMIT16 && h.version < LIMIT32 && h.entry < LIMIT32 && h.phoff < LIMIT32
    && h.shoff < LIMIT32 && h.flags < LIMIT32 && h.ehsize < LIMIT16 && h.phsize < LIMIT16 && h.phnum < LIMIT16
    && h.shsize < LIMIT16 && h.shnum < LIMIT16 && h.shindex < LIMIT16
  }

  predicate EntryFits(e: Entry) {
    && e.kind < LIMIT32 && e.offset < LIMIT32 && e.vaddr < LIMIT32 && e.paddr < LIMIT32
    && e.filesz < LIMIT32 && e.memsz < LIMIT32 && e.flags < LIMIT32 && e.align < LIMIT32
  }

  /** The file starts with header `h`, and its table holds `entries`. */
  ghost predicate LaidOut(file: seq<Byte>, h: Header, entries: seq<Entry>) {
    && HeaderFits(h) && |file| >= 52 && file[..52] == HeaderBytes(h)
    && h.phnum == |entries|
    && forall i :: 0 <= i < |entries| ==>
         HoldsEntry(file, EntryPlace(h, i), entries[i])
  }

  /** Where entry number `i` of the table starts. */
  function EntryPlace(h: Header, i: nat): nat { h.phoff + i * h.phsize }

  /** Entry `e` stands at place `at`. */
  ghost predicate HoldsEntry(file: seq<Byte>, at: nat, e: Entry) {
    EntryFits(e) && at + 32 <= |file| && file[at..at + 32] == EntryBytes(e)
  }

  // ----- Reading back -----

  lemma HalfBack(file: seq<Byte>, at: nat, value: nat)
    requires at + 2 <= |file| && value < LIMIT16 && file[at..at + 2] == Half(value)
    ensures U16(file, at) == value
  {
    var bytes := file[at..at + 2];
    assert bytes[0] == file[at] && bytes[1] == file[at + 1];
    assert LittleEndian(value / 256, 1) == [value / 256 % 256] + LittleEndian(value / 256 / 256, 0);
    assert Half(value) == [value % 256, value / 256 % 256];
  }

  lemma WordBack(file: seq<Byte>, at: nat, value: nat)
    requires at + 4 <= |file| && value < LIMIT32 && file[at..at + 4] == Word(value)
    ensures U32(file, at) == value
  {
    var low, high := value % 0x1_0000, value / 0x1_0000;
    assert value == 0x1_0000 * high + low;
    WordHalves(value);
    assert file[at..at + 2] == file[at..at + 4][..2];
    assert file[at + 2..at + 4] == file[at..at + 4][2..];
    HalfBack(file, at, low);
    HalfBack(file, at + 2, high);
  }

  lemma WordHalves(value: nat)
    requires value < LIMIT32
    ensures Word(value) == Half(value % 0x1_0000) + Half(value / 0x1_0000)
  {
    var a, b := value / 256, value / 0x1_0000;
    assert a / 256 == b;
    assert LittleEndian(value, 4) == [value % 256, a % 256] + LittleEndian(b, 2);
    var low := value % 0x1_0000;
    assert low % 256 == value % 256 && low / 256 % 256 == a % 256;
    assert LittleEndian(low, 2) == [low % 256, low / 256 % 256];
  }

  /** A part of a part. */
  lemma Part(file: seq<Byte>, at: nat, bytes: seq<Byte>, from: nat, to: nat)
    requires from <= to <= |bytes| && at + |bytes| <= |file| && file[at..at + |bytes|] == bytes
    ensures file[at + from..at + to] == bytes[from..to]
  {
    forall k | 0 <= k < to - from ensures file[at + from..at + to][k] == bytes[from..to][k] {
      assert file[at + from + k] == file[at..at + |bytes|][from + k];
    }
  }

  /** The five fields of a program header the loader uses. */
  function Fields(e: Entry): Phdr {
    Phdr(e.kind, e.offset, e.vaddr, e.filesz, e.memsz)
  }

  lemma EntryBack(file: seq<Byte>, at: nat, e: Entry)
    requires HoldsEntry(file, at, e)
    ensures PhdrFrom(file, at) == Fields(e)
  {
    var bytes := EntryBytes(e);
    EntryParts(e);
    hide EntryBytes, LittleEndian, Word, U32;
    Part(file, at, bytes, 0, 4);
    Part(file, at, bytes, 4, 8);
    Part(file, at, bytes, 8, 12);
    Part(file, at, bytes, 16, 20);
    Part(file, at, bytes, 20, 24);
    WordBack(file, at, e.kind);
    WordBack(file, at + 4, e.offset);
    WordBack(file, at + 8, e.vaddr);
    WordBack(file, at + 16, e.filesz);
    WordBack(file, at + 20, e.memsz);
  }

  lemma EntryParts(e: Entry)
    ensures var b := EntryBytes(e);
      && b[0..4] == Word(e.kind) && b[4..8] == Word(e.offset) && b[8..12] == Word(e.vaddr)
      && b[16..20] == Word(e.filesz) && b[20..24] == Word(e.memsz)
  {
    hide LittleEndian, Word;
  }

  lemma HeaderParts(h: Header)
    requires |h.magic| == 4
    ensures var b := HeaderBytes(h);
      && b[..4] == h.magic && b[4] == h.class32 && b[6] == h.identVersion
      && b[16..18] == Half(h.kind) && b[18..20] == Half(h.machine)
      && b[24..28] == Word(h.entry) && b[28..32] == Word(h.phoff)
      && b[42..44] == Half(h.phsize) && b[44..46] == Half(h.phnum)
  {
    hide LittleEndian, Word, Half, Fill;
  }

  lemma HeaderBack(file: seq<Byte>, h: Header)
    requires HeaderFits(h) && |file| >= 52 && file[..52] == HeaderBytes(h)
    ensures file[..4] == h.magic && file[4] == h.class32 && file[6] == h.identVersion
    ensures U16(file, 16) == h.kind && U16(file, 18) == h.machine
    ensures U32(file, 24) == h.entry && U32(file, 28) == h.phoff
    ensures U16(file, 42) == h.phsize && U16(file, 44) == h.phnum
  {
    var b := HeaderBytes(h);
    HeaderParts(h);
    hide HeaderBytes, LittleEndian, Word, Half, U16, U32;
    assert file[0..0 + |b|] == b && file[..4] == file[0..4] && b[..4] == b[0..4];
    Part(file, 0, b, 0, 4);
    assert file[4] == file[..52][4] && file[6] == file[..52][6];
    Part(file, 0, b, 16, 18);
    Part(file, 0, b, 18, 20);
    Part(file, 0, b, 24, 28);
    Part(file, 0, b, 28, 32);
    Part(file, 0, b, 42, 44);
    Part(file, 0, b, 44, 46);
    HalfBack(file, 16, h.kind);
    HalfBack(file, 18, h.machine);
    WordBack(file, 24, h.entry);
    WordBack(file, 28, h.phoff);
    HalfBack(file, 42, h.phsize);
    HalfBack(file, 44, h.phnum);
  }

  function AllFields(entries: seq<Entry>): (phs: seq<Phdr>)
    ensures |phs| == |entries| && forall i :: 0 <= i < |entries| ==> phs[i] == Fields(entries[i])
  {
    if entries == [] then [] else [Fields(entries[0])] + AllFields(entries[1..])
  }

  /** Reading a file in which these headers are laid out gives them back. */
  lemma HeadersBack(file: seq<Byte>, h: Header, entries: seq<Entry>)
    requires LaidOut(file, h, entries)
    ensures HeadersInside(file) && U16(file, 44) == |entries| && U32(file, 24) == h.entry
    ensures Phdrs(file, U16(file, 44)) == AllFields(entries)
  {
    hide HeaderBytes, EntryBytes, U16, U32, PhdrFrom, HeaderFits, EntryFits;
    HeaderBack(file, h);
    assert forall i: nat :: PhdrPlace(file, i) == EntryPlace(h, i);
    hide PhdrPlace, EntryPlace;
    forall i | 0 <= i < |entries|
      ensures PhdrPlace(file, i) + PHDR_SIZE <= |file| && PhdrFrom(file, PhdrPlace(file, i)) == Fields(entries[i])
    {
      assert HoldsEntry(file, EntryPlace(h, i), entries[i]);
      EntryBack(file, EntryPlace(h, i), entries[i]);
    }
    assert HeadersInside(file);
    var phs := Phdrs(file, U16(file, 44));
    forall i | 0 <= i < |entries| ensures phs[i] == Fields(entries[i]) {
      assert phs[i] == PhdrAt(file, i);
    }
  }

  /** The files accepted: 7F 45 4C 46, 32 bits, version 1, Intel 386, relocatable or executable. */
  lemma SupportedExactly(file: seq<Byte>, h: Header)
    requires HeaderFits(h) && |file| >= 52 && file[..52] == HeaderBytes(h)
    ensures Supported(file) <==> && h.magic == [0x7F, 0x45, 0x4C, 0x46] && h.class32 == 1 && h.identVersion == 1
                                 && h.machine == 3 && (h.kind == 1 || h.kind == 2)
  {
    hide HeaderBytes, U16, U32;
    HeaderBack(file, h);
  }

  // ----- From the file to memory -----

  /** Byte `k` of a loadable segment, as the file has it. */
  function SegmentByte(file: seq<Byte>, e: Entry, k: nat): Byte
    requires e.offset + e.filesz <= |file|
  {
    if k < e.filesz then file[e.offset + k] else 0
  }

  /** Memory has the bytes of every entry of type 1 from its virtual address on, where user code may
      read and write them. */
  ghost predicate InMemory(im: Image, file: seq<Byte>, entries: seq<Entry>)
    requires WellSized(im.mmu)
  {
    forall i :: 0 <= i < |entries| && entries[i].kind == 1 ==> EntryInMemory(im, file, entries[i])
  }

  ghost predicate EntryInMemory(im: Image, file: seq<Byte>, e: Entry)
    requires WellSized(im.mmu)
  {
    && e.offset + e.filesz <= |file| && e.vaddr + e.memsz <= TWO32
    && forall k :: 0 <= k < e.memsz ==>
         Read(im, e.vaddr + k) == Some(SegmentByte(file, e, k)) && UserWritable(im.mmu, e.vaddr + k)
  }

  /** With frames enough, loading a file in which these headers are laid out puts all its segments in
      memory at once, leaves the pages in hand as they were, and gives its entry point. */
  lemma FileLoads(im: Image, file: seq<Byte>, h: Header, entries: seq<Entry>, granted: set<nat>,
                  boot: seq<Region>, image: nat)
    requires LaidOut(file, h, entries)
    requires ImageReady(im) && Held(im.mmu, granted, boot, image)
    requires AllLoadable(file, AllFields(entries)) && Separate(AllFields(entries), granted)
    requires |im.mmu.regions| + FileNeeds(Tables(im.mmu), AllFields(entries)) <= MAX_ENTRIES
    requires Available(im.mmu.regions) >= FileNeeds(Tables(im.mmu), AllFields(entries))
    ensures HeadersInside(file) && U32(file, 24) == h.entry && Phdrs(file, U16(file, 44)) == AllFields(entries)
    ensures var r := LoadAll(im, file, Phdrs(file, U16(file, 44)));
      r.Loaded? && InMemory(r.image, file, entries) && SameIn(im, r.image, granted)
  {
    hide LoadAll, Read, SameIn, Held, Separate, FileNeeds, LaidOut, U16, U32, Available, UserWritable, Tables, PhdrAt;
    HeadersBack(file, h, entries);
    var phs := AllFields(entries);
    LoadSucceeds(im, file, phs, granted, boot, image);
    var im' := LoadAll(im, file, phs).image;
    forall i | 0 <= i < |entries| && entries[i].kind == 1 ensures EntryInMemory(im', file, entries[i]) {
      assert phs[i] == Fields(entries[i]);
      assert Shows(im', file, phs[i]) && Open(im', file, phs[i]);
      EntryShown(im', file, entries[i]);
    }
  }

  lemma EntryShown(im: Image, file: seq<Byte>, e: Entry)
    requires WellSized(im.mmu) && Loadable(file, Fields(e)) && Shows(im, file, Fields(e)) && Open(im, file, Fields(e))
    ensures EntryInMemory(im, file, e)
  {
    hide Read, UserWritable, WellSized;
    forall k | 0 <= k < e.memsz
      ensures Read(im, e.vaddr + k) == Some(SegmentByte(file, e, k)) && UserWritable(im.mmu, e.vaddr + k)
    {
      assert Read(im, e.vaddr + k) == Some(ByteAt(file, Fields(e), e.vaddr + k));
    }
  }
}
