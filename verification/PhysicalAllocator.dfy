/** The memory map as the kernel holds it: an array changed in place (kernel/pmm.c). */
module PhysicalAllocator {
  import opened P = PhysicalMap

  /** The table at physical address 0x504 and its entry count at 0x500. */
  class Allocator {
    const regions: array<Region>
    var count: nat

    ghost predicate Valid()
      reads this, regions
    {
      MAX_ENTRIES <= regions.Length && count <= regions.Length && Fits64(regions[..count])
    }

    ghost function Contents(): seq<Region>
      reads this, regions
      requires count <= regions.Length
    {
      regions[..count]
    }

    constructor (table: array<Region>, count: nat)
      requires MAX_ENTRIES <= table.Length && count <= table.Length && Fits64(table[..count])
      ensures Valid() && regions == table && this.count == count
    {
      this.regions := table;
      this.count := count;
    }

    /** The scan of `allocate`. */
    method FindBest(size: nat) returns (best: int)
      requires Valid()
      ensures best == BestFit(Contents(), size)
    {
      best := -1;
      ghost var m := Contents();
      for k := 0 to count
        invariant best == BestFit(m[..k], size)
      {
        assert m[..k + 1][..k] == m[..k];
        if regions[k].base != 0 {
          if regions[k].length >= size && regions[k].kind == FREE {
            if best == -1 || regions[best].length > regions[k].length {
              best := k;
            }
          }
        }
      }
      assert m[..count] == m;
    }

    method Allocate(size: nat) returns (address: nat)
      requires Valid()
      modifies this, regions
      ensures Valid()
      ensures Grant(Contents(), address) == P.Allocate(old(Contents()), size)
    {
      var best := FindBest(size);
      hide BestFit;
      if best == -1 {
        return 0;
      }
      if regions[best].length - size > 0 {
        if count >= MAX_ENTRIES {
          return 0;
        }
        address := regions[best].base % 0x1_0000_0000;
        SplitAt(best, size);
      } else {
        ghost var m := Contents();
        regions[best] := regions[best].(length := size, kind := USED);
        assert Contents() == m[best := m[best].(kind := USED)];
        address := regions[best].base % 0x1_0000_0000;
      }
    }

    /** Shift the entries above `best` one slot right and write the two parts. */
    method SplitAt(best: nat, size: nat)
      requires Valid() && best < count < MAX_ENTRIES && size < regions[best].length
      modifies this, regions
      ensures Valid()
      ensures Contents() == Split(old(Contents()), best, size)
    {
      ghost var m := Contents();
      var remain := regions[best].length - size;
      ShiftRight(best);
      ghost var shifted := regions[..count + 1];
      assert shifted == m[..best + 1] + m[best..];
      regions[best + 1] := Region(regions[best].base + size, remain, FREE, regions[best].acpi);
      count := count + 1;
      regions[best] := regions[best].(length := size, kind := USED);
      assert Contents() == shifted[best := regions[best]][best + 1 := regions[best + 1]];
      assert Contents() == Split(m, best, size);
    }

    /** Move the entries above `k` one slot up, leaving two copies of entry `k`. */
    method ShiftRight(k: nat)
      requires Valid() && k < count < regions.Length
      modifies regions
      ensures regions[..count + 1] == old(regions[..k + 1]) + old(regions[k..count])
    {
      var i := count;
      while i > k
        invariant k <= i <= count
        invariant forall j :: 0 <= j <= i && j < count ==> regions[j] == old(regions[j])
        invariant forall j :: i < j <= count ==> regions[j] == old(regions[j - 1])
      {
        regions[i] := regions[i - 1];
        i := i - 1;
      }
    }

    /** Drop entry `k`, moving the entries above it one slot down. */
    method ShiftLeft(k: nat)
      requires Valid() && k < count
      modifies this`count, regions
      ensures count == old(count) - 1
      ensures regions[..count] == old(regions[..k]) + old(regions[k + 1..count])
    {
      var i := k;
      while i < count - 1
        invariant count == old(count) && k <= i <= count - 1
        invariant forall j :: 0 <= j < k ==> regions[j] == old(regions[j])
        invariant forall j :: k <= j < i ==> regions[j] == old(regions[j + 1])
        invariant forall j :: i <= j < count ==> regions[j] == old(regions[j])
      {
        regions[i] := regions[i + 1];
        i := i + 1;
      }
      count := count - 1;
    }

    /** One merge of `free`: grow entry `k` over entry `k + 1`, then drop the latter. */
    method Merge(k: nat)
      requires Valid() && k + 1 < count && Touch(regions[k], regions[k + 1])
      modifies this`count, regions
      ensures Valid() && count == old(count) - 1
      ensures Contents() == Join(old(Contents()), k)
    {
      ghost var m := Contents();
      regions[k] := regions[k].(length := regions[k].length + regions[k + 1].length);
      label grown:
      assert regions[k].End() == m[k + 1].End();
      assert Fits64(regions[..count]);
      ShiftLeft(k + 1);
      assert old@grown(regions[..k + 1]) == m[..k] + [m[k].(length := m[k].length + m[k + 1].length)];
      assert Contents() == Join(m, k);
    }

    /** The test before each merge of `free`; the C sum is a 64-bit one. */
    method MergeIfTouching(k: int) returns (merged: bool)
      requires Valid() && -1 <= k < count
      modifies this`count, regions
      ensures Valid()
      ensures Contents() == JoinIfTouching(old(Contents()), k)
      ensures merged == (|Contents()| < |old(Contents())|)
    {
      ghost var m := Contents();
      merged := 0 <= k && k < count - 1 && regions[k].kind == FREE && regions[k + 1].kind == FREE
                && (regions[k].base + regions[k].length) % 0x1_0000_0000_0000_0000 == regions[k + 1].base;
      if merged {
        assert m[k] == regions[k] && m[k + 1] == regions[k + 1];
        Merge(k);
      }
    }

    /** The search of `free`. */
    method Find(address: nat) returns (index: int)
      requires Valid()
      ensures index == IndexOf(Contents(), address)
    {
      ghost var m := Contents();
      for k := 0 to count
        invariant forall j :: 0 <= j < k ==> m[j].base != address
      {
        if regions[k].base == address {
          assert m[k].base == address;
          return k;
        }
      }
      index := -1;
    }

    method Free(address: nat)
      requires Valid()
      modifies this`count, regions
      ensures Valid()
      ensures Contents() == P.Free(old(Contents()), address)
    {
      ghost var m := Contents();
      var index := Find(address);
      if index == -1 {
        return;
      }
      regions[index] := regions[index].(kind := FREE);
      assert Contents() == m[index := m[index].(kind := FREE)];
      var merged := MergeIfTouching(index - 1);
      if merged {
        index := index - 1;
      }
      merged := MergeIfTouching(index);
    }
  }
}
