/** The virtual page allocator on its own globals: `next_virtual`, `free_virtual` and `free_count`. */
module PageAllocator {
  import opened P = PhysicalMap
  import opened Frames
  import opened Words
  import PT = PageTables
  import VP = VirtualPages
  import PageMapper

  class Pages {
    const mapper: PageMapper.Mapper
    const freeVirtual: array<nat>
    var freeCount: nat
    var nextVirtual: nat

    constructor (mapper: PageMapper.Mapper, freeVirtual: array<nat>, nextVirtual: nat)
      requires freeVirtual.Length == VP.MAX_FREE_PAGES
      ensures this.mapper == mapper && this.freeVirtual == freeVirtual
      ensures this.nextVirtual == nextVirtual && freeCount == 0
    {
      this.mapper := mapper;
      this.freeVirtual := freeVirtual;
      this.freeCount := 0;
      this.nextVirtual := nextVirtual;
    }

    ghost function Repr(): set<object>
      reads this
    {
      {this, freeVirtual, mapper, mapper.directory, mapper.physical, mapper.physical.regions}
    }

    ghost predicate Valid()
      reads this, freeVirtual, mapper, mapper.directory, mapper.physical, mapper.physical.regions
    {
      && mapper.Valid() && freeVirtual.Length == VP.MAX_FREE_PAGES && freeCount <= freeVirtual.Length
      && freeVirtual != mapper.directory
      && VP.Ready(Model())
    }

    ghost function Model(): VP.Vm
      reads this, freeVirtual, mapper, mapper.directory, mapper.physical, mapper.physical.regions
      requires mapper.Valid() && freeCount <= freeVirtual.Length
    {
      VP.Vm(mapper.Model(), nextVirtual, freeVirtual[..freeCount])
    }

    method AllocatePage(flag: nat) returns (page: nat)
      requires Valid() && IsFlags(flag)
      modifies Repr()
      ensures Valid()
      ensures VP.PageGrant(Model(), page) == VP.AllocatePage(old(Model()), flag)
    {
      hide PT.MapPage;
      var flags := if flag == 0 then PRESENT + WRITE else flag;
      AllocateAligned(mapper.physical.Contents());
      var physical := mapper.physical.Allocate(PAGE);
      if physical == 0 {
        return 0;
      }
      if freeCount > 0 {
        freeCount := freeCount - 1;
        page := freeVirtual[freeCount];
        assert old(freeVirtual[..freeCount])[..freeCount] == freeVirtual[..freeCount];
      } else {
        page := nextVirtual;
        nextVirtual := (nextVirtual + PAGE) % 0x1_0000_0000;
      }
      mapper.MapPage(physical, page, flags);
    }

    method AllocatePagesContig(count: nat, flag: nat) returns (page: nat)
      requires Valid() && IsFlags(flag)
      modifies Repr()
      ensures Valid()
      ensures VP.PageGrant(Model(), page) == VP.AllocatePagesContig(old(Model()), count, flag)
    {
      var flags := if flag == 0 then PRESENT + WRITE else flag;
      hide PT.MapFrames, PT.WellSized;
      var start := nextVirtual;
      nextVirtual := (nextVirtual + count * 4096) % 0x1_0000_0000;
      var complete := mapper.MapFrames(start, count, flags);
      page := if complete then start else 0;
    }

    /** The source does not check that the free stack has room; its callers must. */
    method FreePage(v: nat)
      requires Valid() && v < TWO32 && freeCount < VP.MAX_FREE_PAGES
      modifies Repr()
      ensures Valid()
      ensures Model() == VP.FreePage(old(Model()), v)
    {
      freeVirtual[freeCount] := v;
      freeCount := freeCount + 1;
      assert freeVirtual[..freeCount] == old(freeVirtual[..freeCount]) + [v];
      mapper.ReleasePage(v);
    }
  }
}
