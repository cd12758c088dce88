/** The paging code of kernel/pmm.c on its own globals: the page directory, and the tables in memory. */
module PageMapper {
  import opened PhysicalMap
  import opened Frames
  import opened Words
  import PT = PageTables
  import PhysicalAllocator

  class Mapper {
    const physical: PhysicalAllocator.Allocator
    const directory: array<nat>
    var tables: map<nat, seq<nat>>

    constructor (physical: PhysicalAllocator.Allocator, directory: array<nat>)
      requires directory.Length == PT.ENTRIES
      ensures this.physical == physical && this.directory == directory
    {
      this.physical := physical;
      this.directory := directory;
      this.tables := map[];
    }

    ghost predicate Valid()
      reads this, directory, physical, physical.regions
    {
      physical.Valid() && directory.Length == PT.ENTRIES && PT.WellSized(Model())
    }

    ghost function Model(): PT.Mmu
      reads this, directory, physical, physical.regions
      requires physical.Valid()
    {
      PT.Mmu(physical.Contents(), directory[..], tables)
    }

    /** The loop of `build_first_page` over the table linked into the kernel. */
    method FirstTable() returns (words: seq<nat>)
      ensures words == PT.IdentityTable()
    {
      var table := new nat[PT.ENTRIES];
      for k := 0 to PT.ENTRIES
        invariant forall j :: 0 <= j < k ==> table[j] == j * 0x1000 + 7
      {
        table[k] := k * 0x1000 + 7;
      }
      words := table[..];
    }

    /** `image` is the address of the page table linked into the kernel. */
    method BuildFirstPage(image: nat)
      requires physical.Valid() && directory.Length == PT.ENTRIES && image % 4096 == 0
      modifies this, directory
      ensures Valid()
      ensures Model() == PT.FirstPage(old(physical.Contents()), image)
    {
      var table := FirstTable();
      tables := map[image := table];
      directory[0] := image + 7;
      for k := 1 to PT.ENTRIES
        invariant directory[0] == image + 7 && tables == map[image := table]
        invariant forall j :: 1 <= j < k ==> directory[j] == 0
      {
        directory[k] := 0;
      }
      assert directory[..] == PT.FirstPage(physical.Contents(), image).directory;
    }

    /** The first half of `map_page`. */
    method EnsureTable(d: nat, flags: nat)
      requires Valid() && d < PT.ENTRIES && IsFlags(flags)
      requires Aligned(physical.Contents())
      modifies this, directory, physical, physical.regions
      ensures Valid()
      ensures Model() == PT.EnsureTable(old(Model()), d, flags)
    {
      AllocateAligned(physical.Contents());
      if !IsPresent(directory[d]) {
        var newTable := physical.Allocate(PAGE);
        if newTable == 0 {
          return;
        }
        var words := ZeroedTable();
        tables := tables[newTable := words];
        var directoryFlags := PRESENT + WRITE;
        if IsUser(flags) {
          directoryFlags := directoryFlags + USER;
        }
        directory[d] := newTable + directoryFlags;
        assert directory[..] == PT.EnsureTable(old(Model()), d, flags).directory;
      }
    }

    method MapPage(address: nat, v: nat, flags: nat)
      requires Valid() && v < TWO32 && IsFlags(flags)
      requires Aligned(physical.Contents())
      modifies this, directory, physical, physical.regions
      ensures Valid()
      ensures Model() == PT.MapPage(old(Model()), address, v, flags)
    {
      var d := PT.DirectoryIndex(v);
      EnsureTable(d, flags);
      if !IsPresent(directory[d]) {
        return;
      }
      Write(v, PageStart(address) + flags, IsUser(flags));
    }

    /** Clearing a fresh table entry by entry, whatever the frame held before. */
    method ZeroedTable() returns (words: seq<nat>)
      ensures words == PT.ZeroTable()
    {
      var table := new nat[PT.ENTRIES];
      for k := 0 to PT.ENTRIES
        invariant forall j :: 0 <= j < k ==> table[j] == 0
      {
        table[k] := 0;
      }
      words := table[..];
    }

    method Write(v: nat, word: nat, user: bool)
      requires Valid() && v < TWO32 && IsPresent(directory[PT.DirectoryIndex(v)])
      modifies this, directory
      ensures Valid()
      ensures Model() == PT.WriteEntry(old(Model()), v, word, user)
    {
      var d := PT.DirectoryIndex(v);
      if user {
        WithUserFrame(directory[d]);
        directory[d] := WithUser(directory[d]);
      }
      var f := PageStart(directory[d]);
      var table: seq<nat> := tables[f][PT.TableIndex(v) := word];
      tables := tables[f := table];
      ghost var s := PT.WriteEntry(old(Model()), v, word, user);
      assert directory[..] == s.directory;
    }

    method GetMap(v: nat) returns (frame: nat)
      requires Valid() && v < TWO32
      ensures frame == PT.GetMap(Model(), v)
    {
      var slot := directory[PT.DirectoryIndex(v)];
      if !IsPresent(slot) {
        return 0;
      }
      var word := tables[PageStart(slot)][PT.TableIndex(v)];
      frame := if IsPresent(word) then PageStart(word) else 0;
    }

    /** The word `get_pte` finds, 0 standing for no table. */
    method EntryOf(v: nat) returns (word: nat)
      requires Valid() && v < TWO32
      ensures word == PT.Pte(Model(), v)
    {
      var slot := directory[PT.DirectoryIndex(v)];
      word := if IsPresent(slot) then tables[PageStart(slot)][PT.TableIndex(v)] else 0;
    }

    method UnmapPage(v: nat)
      requires Valid() && v < TWO32
      modifies this, directory
      ensures Valid()
      ensures Model() == PT.UnmapPage(old(Model()), v)
    {
      var slot := directory[PT.DirectoryIndex(v)];
      if !IsPresent(slot) || !IsPresent(tables[PageStart(slot)][PT.TableIndex(v)]) {
        return;
      }
      Write(v, 0, false);
    }

    /** The loop of `allocate_pages_contig`. */
    method MapFrames(start: nat, count: nat, flags: nat) returns (complete: bool)
      requires Valid() && Aligned(physical.Contents()) && IsFlags(flags)
      modifies this, directory, physical, physical.regions
      ensures Valid()
      ensures PT.Mapped(Model(), complete) == PT.MapFrames(old(Model()), start, count, flags)
    {
      hide Allocate, PT.MapPage, PT.WellSized;
      ghost var all := PT.MapFrames(Model(), start, count, flags);
      for k := 0 to count
        invariant Valid() && Aligned(physical.Contents())
        invariant PT.MapFrames(Model(), start + k * 4096, count - k, flags) == all
      {
        complete := MapNext((start + k * 4096) % 0x1_0000_0000, flags);
        if !complete {
          return;
        }
      }
      complete := true;
    }

    method MapNext(v: nat, flags: nat) returns (granted: bool)
      requires Valid() && Aligned(physical.Contents()) && v < TWO32 && IsFlags(flags)
      modifies this, directory, physical, physical.regions
      ensures Valid() && Aligned(physical.Contents())
      ensures var g := Allocate(old(physical.Contents()), PAGE);
              var s1 := old(Model()).(regions := g.regions);
              && granted == (g.address != 0)
              && Model() == if granted then PT.MapPage(s1, g.address, v, flags) else s1
    {
      AllocateAligned(physical.Contents());
      var address := physical.Allocate(PAGE);
      granted := address != 0;
      if granted {
        MapPage(address, v, flags);
      }
    }

    /** The part of `free_page` after the page is stacked. */
    method ReleasePage(v: nat)
      requires Valid() && v < TWO32 && Aligned(physical.Contents())
      modifies this, directory, physical, physical.regions
      ensures Valid()
      ensures Model() == PT.ReleasePage(old(Model()), v)
    {
      var slot := directory[PT.DirectoryIndex(v)];
      if !IsPresent(slot) {
        return;
      }
      var word := tables[PageStart(slot)][PT.TableIndex(v)];
      if !IsPresent(word) {
        return;
      }
      physical.Free(PageStart(word));
      Write(v, 0, false);
    }
  }
}
