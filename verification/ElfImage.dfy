/** Loading a 32-bit ELF executable (kernel/elf.c; System V gABI, chapter 5).

    `ram` is the contents of the frames that hold data, by physical address; virtual addresses reach it
    through the page tables. */
module ElfImage {
  import opened MapTiling
  import opened Words
  import opened PageTables

  type Byte = b: nat | b < 256

  datatype Image = Image(mmu: Mmu, ram: map<nat, Byte>)

  ghost predicate ImageReady(im: Image) {
    WellSized(im.mmu) && Frames.Aligned(im.mmu.regions)
  }

  // ----- Headers -----

  /** Little-endian fields. */
  function U16(file: seq<Byte>, at: nat): nat
    requires at + 2 <= |file|
  {
    file[at] as int + 256 * file[at + 1] as int
  }

  function U32(file: seq<Byte>, at: nat): nat
    requires at + 4 <= |file|
  {
    U16(file, at) + 0x1_0000 * U16(file, at + 2)
  }

  const EHDR_SIZE: nat := 52
  const PHDR_SIZE: nat := 32
  const PT_LOAD: nat := 1

  datatype Phdr = Phdr(kind: nat, offset: nat, vaddr: nat, filesz: nat, memsz: nat)

  /** Where program header number `i` starts. */
  function PhdrPlace(file: seq<Byte>, i: nat): nat
    requires |file| >= EHDR_SIZE
  {
    U32(file, 28) + i * U16(file, 42)
  }

  /** Program header number `i`, which the file must hold. */
  function PhdrAt(file: seq<Byte>, i: nat): Phdr
    requires |file| >= EHDR_SIZE && PhdrPlace(file, i) + PHDR_SIZE <= |file|
  {
    PhdrFrom(file, PhdrPlace(file, i))
  }

  function PhdrFrom(file: seq<Byte>, at: nat): Phdr
    requires at + PHDR_SIZE <= |file|
  {
    Phdr(U32(file, at), U32(file, at + 4), U32(file, at + 8), U32(file, at + 16), U32(file, at + 20))
  }

  /** The header table lies inside the file; the source does not check. */
  predicate HeadersInside(file: seq<Byte>) {
    && |file| >= EHDR_SIZE
    && forall i :: 0 <= i < U16(file, 44) ==> PhdrPlace(file, i) + PHDR_SIZE <= |file|
  }

  /** The first `n` program headers. */
  function Phdrs(file: seq<Byte>, n: nat): (phs: seq<Phdr>)
    requires HeadersInside(file) && n <= U16(file, 44)
    ensures |phs| == n && forall i :: 0 <= i < n ==> phs[i] == PhdrAt(file, i)
  {
    if n == 0 then [] else Phdrs(file, n - 1) + [PhdrAt(file, n - 1)]
  }

  /** Magic number, 32-bit class, Intel 386, current version, and relocatable or executable. */
  predicate Supported(file: seq<Byte>)
    requires |file| >= EHDR_SIZE
  {
    && file[..4] == [0x7F, 'E' as int, 'L' as int, 'F' as int]
    && file[4] == 1 && U16(file, 18) == 3 && file[6] == 1
    && (U16(file, 16) == 1 || U16(file, 16) == 2)
  }

  // ----- Memory through the page tables -----

  /** Where virtual address `v` is in physical memory. */
  function Physical(s: Mmu, v: nat): nat
    requires WellSized(s) && v < 0x1_0000_0000
  {
    PageStart(Pte(s, v)) + v % 4096
  }

  function Read(im: Image, v: nat): Option<Byte>
    requires WellSized(im.mmu) && v < 0x1_0000_0000
  {
    if IsPresent(Pte(im.mmu, v)) && Physical(im.mmu, v) in im.ram then Some(im.ram[Physical(im.mmu, v)]) else None
  }

  /** Store bytes from `v` on, one by one; None stands for a page fault. */
  function Store(im: Image, v: nat, bytes: seq<Byte>): (r: Option<Image>)
    requires WellSized(im.mmu) && v + |bytes| <= 0x1_0000_0000
    ensures r.Some? ==> r.value.mmu == im.mmu
    decreases |bytes|
  {
    if bytes == [] then Some(im)
    else if !IsPresent(Pte(im.mmu, v)) then None
    else Store(im.(ram := im.ram[Physical(im.mmu, v) := bytes[0]]), v + 1, bytes[1..])
  }

  // ----- Segments -----

  /** How many pages from there on the segment touches. */
  function PageCount(ph: Phdr): nat {
    (ph.vaddr % 4096 + ph.memsz + 0xFFF) / 4096
  }

  /** The file part is in the file and in the segment, and no 32-bit sum wraps. */
  predicate Loadable(file: seq<Byte>, ph: Phdr) {
    && ph.offset + ph.filesz <= |file| && ph.filesz <= ph.memsz
    && ph.vaddr + ph.memsz + 0xFFF < 0x1_0000_0000
  }

  function Fill(value: Byte, n: nat): (z: seq<Byte>)
    ensures |z| == n && forall k :: 0 <= k < n ==> z[k] == value
  {
    if n == 0 then [] else Fill(value, n - 1) + [value]
  }

  /** What the segment is to hold: the file's bytes, then zeros. */
  function Contents(file: seq<Byte>, ph: Phdr): (bytes: seq<Byte>)
    requires Loadable(file, ph)
    ensures |bytes| == ph.memsz
  {
    file[ph.offset..ph.offset + ph.filesz] + Fill(0, ph.memsz - ph.filesz)
  }

  /** Loaded; loaded in part, for want of frames; or stopped by a page fault. */
  datatype Loading = Loaded(image: Image) | Short(image: Image) | Fault

  /** Every page gets a fresh frame, user and writable; then the contents are stored. */
  function LoadSegment(im: Image, file: seq<Byte>, ph: Phdr): (r: Loading)
    requires ImageReady(im) && Loadable(file, ph)
    ensures !r.Fault? ==> ImageReady(r.image)
  {
    var mapped := MapFrames(im.mmu, PageStart(ph.vaddr), PageCount(ph), PRESENT + USER + WRITE);
    var im1 := im.(mmu := mapped.mmu);
    if !mapped.complete then Short(im1)
    else match Store(im1, ph.vaddr, Contents(file, ph))
      case None => Fault
      case Some(im2) => Loaded(im2)
  }

  /** The loop of `elf_load_exec`: a segment cut short does not stop it. */
  function LoadAll(im: Image, file: seq<Byte>, phs: seq<Phdr>): (r: Loading)
    requires ImageReady(im) && forall i :: 0 <= i < |phs| && phs[i].kind == PT_LOAD ==> Loadable(file, phs[i])
    ensures !r.Fault? ==> ImageReady(r.image)
    decreases |phs|
  {
    if phs == [] then Loaded(im)
    else if phs[0].kind != PT_LOAD then LoadAll(im, file, phs[1..])
    else
      match LoadSegment(im, file, phs[0])
      case Fault => Fault
      case Short(im1) =>
        (match LoadAll(im1, file, phs[1..])
         case Fault => Fault
         case Loaded(im2) => Short(im2)
         case Short(im2) => Short(im2))
      case Loaded(im1) => LoadAll(im1, file, phs[1..])
  }
}
