/** The ELF loader as it runs: loops that map pages and copy bytes through them (kernel/elf.c,
    and `memcpy` and `memset` of kernel/pmm.c). */
module ElfLoader {
  import opened MapTiling
  import opened Words
  import opened E = ElfImage
  import PT = PageTables
  import PageMapper

  lemma {:induction false} StoreAppend(im: Image, v: nat, a: seq<Byte>, b: seq<Byte>)
    requires PT.WellSized(im.mmu) && v + |a| + |b| <= 0x1_0000_0000
    ensures Store(im, v, a + b) ==
            match Store(im, v, a) case None => None case Some(x) => Store(x, v + |a|, b)
    decreases |a|
  {
    hide PT.Pte, Physical;
    if a == [] {
      assert a + b == b;
    } else {
      assert (a + b)[1..] == a[1..] + b;
      if IsPresent(PT.Pte(im.mmu, v)) {
        StoreAppend(im.(ram := im.ram[Physical(im.mmu, v) := a[0]]), v + 1, a[1..], b);
      }
    }
  }

  /** How a load ends. */
  datatype Status = Complete | Partial | Faulted

  class Loader {
    const mapper: PageMapper.Mapper
    var ram: map<nat, Byte>

    constructor (mapper: PageMapper.Mapper)
      ensures this.mapper == mapper && ram == map[]
    {
      this.mapper, ram := mapper, map[];
    }

    ghost predicate Valid()
      reads this, mapper, mapper.directory, mapper.physical, mapper.physical.regions
    {
      mapper.Valid() && ImageReady(Model())
    }

    ghost function Model(): Image
      reads this, mapper, mapper.directory, mapper.physical, mapper.physical.regions
      requires mapper.Valid()
    {
      Image(mapper.Model(), ram)
    }

    /** One byte through the page tables; a page that is not present faults. */
    method StoreByte(v: nat, b: Byte) returns (fault: bool)
      requires Valid() && v < 0x1_0000_0000
      modifies this`ram
      ensures Valid() && fault == !IsPresent(PT.Pte(old(Model()).mmu, v))
      ensures Model() == if fault then old(Model()) else
                         old(Model()).(ram := old(ram)[Physical(old(Model()).mmu, v) := b])
    {
      hide PT.Pte, PT.WellSized;
      var word := mapper.EntryOf(v);
      fault := !IsPresent(word);
      if !fault {
        ram := ram[PageStart(word) + v % 4096 := b];
      }
    }

    method Memcpy(dest: nat, src: seq<Byte>) returns (fault: bool)
      requires Valid() && dest + |src| <= 0x1_0000_0000
      modifies this`ram
      ensures Valid()
      ensures Store(old(Model()), dest, src) == if fault then None else Some(Model())
    {
      hide PT.Pte, PT.WellSized, Physical;
      for i := 0 to |src|
        invariant Valid()
        invariant Store(Model(), dest + i, src[i..]) == Store(old(Model()), dest, src)
      {
        assert src[i..][1..] == src[i + 1..];
        fault := StoreByte(dest + i, src[i]);
        if fault {
          return;
        }
      }
      fault := false;
    }

    method Memset(dest: nat, value: Byte, size: nat) returns (fault: bool)
      requires Valid() && dest + size <= 0x1_0000_0000
      modifies this`ram
      ensures Valid()
      ensures Store(old(Model()), dest, Fill(value, size)) == if fault then None else Some(Model())
    {
      hide PT.Pte, PT.WellSized, Physical, Fill;
      ghost var bytes := Fill(value, size);
      var at, left := dest, size;
      while left > 0
        invariant 0 <= left <= size && at == dest + (size - left)
        invariant Valid()
        invariant Store(Model(), at, bytes[size - left..]) == Store(old(Model()), dest, bytes)
      {
        assert bytes[size - left..][1..] == bytes[size - left + 1..];
        fault := StoreByte(at, value);
        if fault {
          return;
        }
        at, left := at + 1, left - 1;
      }
      fault := false;
    }

    /** `load_segment`: the pages first, each with a frame of its own, then the bytes. */
    method LoadSegment(file: seq<Byte>, ph: Phdr) returns (status: Status)
      requires Valid() && Loadable(file, ph)
      modifies this, mapper, mapper.directory, mapper.physical, mapper.physical.regions
      ensures status != Faulted ==> Valid()
      ensures E.LoadSegment(old(Model()), file, ph) ==
              if status == Faulted then Fault else if status == Partial then Short(Model()) else Loaded(Model())
    {
      hide PT.MapFrames, PT.WellSized, Store;
      var first := ph.vaddr - ph.vaddr % 4096;
      var count := PageCount(ph);
      var complete := mapper.MapFrames(first, count, PRESENT + USER + WRITE);
      if !complete {
        return Partial;
      }
      var fault := Fetch(file, ph);
      status := if fault then Faulted else Complete;
    }

    /** The copy and the clearing of `load_segment`. */
    method Fetch(file: seq<Byte>, ph: Phdr) returns (fault: bool)
      requires Valid() && Loadable(file, ph)
      modifies this`ram
      ensures Valid()
      ensures Store(old(Model()), ph.vaddr, Contents(file, ph)) == if fault then None else Some(Model())
    {
      hide PT.WellSized, Store, Fill;
      StoreAppend(Model(), ph.vaddr, file[ph.offset..ph.offset + ph.filesz], Fill(0, ph.memsz - ph.filesz));
      fault := Memcpy(ph.vaddr, file[ph.offset..ph.offset + ph.filesz]);
      if fault {
        return;
      }
      if ph.memsz > ph.filesz {
        fault := Memset(ph.vaddr + ph.filesz, 0, ph.memsz - ph.filesz);
      } else {
        NothingToStore(Model(), ph.vaddr + ph.filesz);
      }
    }

    static lemma NothingToStore(im: Image, v: nat)
      requires PT.WellSized(im.mmu) && v <= 0x1_0000_0000
      ensures Store(im, v, Fill(0, 0)) == Some(im)
    {
    }

    /** `elf_load_exec`: the loadable segments in the order of the header table. */
    method ElfLoadExec(file: seq<Byte>) returns (status: Status, entry: nat)
      requires Valid() && HeadersInside(file)
      requires forall i :: 0 <= i < U16(file, 44) && PhdrAt(file, i).kind == PT_LOAD ==> Loadable(file, PhdrAt(file, i))
      modifies this, mapper, mapper.directory, mapper.physical, mapper.physical.regions
      ensures status != Faulted ==> Valid() && entry == U32(file, 24)
      ensures LoadAll(old(Model()), file, Phdrs(file, U16(file, 44))) ==
              if status == Faulted then Fault else if status == Partial then Short(Model()) else Loaded(Model())
    {
      hide E.LoadSegment, PT.WellSized, Loadable;
      ghost var phs := Phdrs(file, U16(file, 44));
      ghost var all := LoadAll(Model(), file, phs);
      status := Complete;
      for i := 0 to U16(file, 44)
        invariant Valid() && status != Faulted
        invariant all == Merge(status, LoadAll(Model(), file, phs[i..]))
      {
        var ph := PhdrAt(file, i);
        assert phs[i..][0] == ph && phs[i..][1..] == phs[i + 1..];
        if ph.kind == PT_LOAD {
          var one := LoadSegment(file, ph);
          if one == Faulted {
            return Faulted, 0;
          }
          if one == Partial {
            status := Partial;
          }
        }
      }
      entry := U32(file, 24);
    }

    /** A load already known to be partial stays so. */
    static ghost function Merge(status: Status, rest: Loading): Loading {
      if status == Partial && rest.Loaded? then Short(rest.image) else rest
    }

    /** `check_elf_supported`, test by test. */
    static method CheckElfSupported(file: seq<Byte>) returns (ok: bool)
      requires |file| >= EHDR_SIZE
      ensures ok <==> Supported(file)
    {
      if file[0] != 0x7F { return false; }
      if file[1] != 'E' as int { return false; }
      if file[2] != 'L' as int { return false; }
      if file[3] != 'F' as int { return false; }
      if file[4] != 1 { return false; }
      if U16(file, 18) != 3 { return false; }
      if file[6] != 1 { return false; }
      if U16(file, 16) != 1 && U16(file, 16) != 2 { return false; }
      ok := true;
    }
  }
}
