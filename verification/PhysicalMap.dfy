/** The physical allocator of kernel/pmm.c: a best-fit allocator that splits and
    coalesces the BIOS memory map (INT 15H, function E820H; section 15.1 of ACPI 6.5) in place.

    `Allocate` and `Free` say on sequences what the two C functions do to the table; class
    `PhysicalAllocator.Allocator` is the table itself, changed by scanning and shifting loops. */
module PhysicalMap {

  const TWO32: nat := 0x1_0000_0000
  const TWO64: nat := 0x1_0000_0000_0000_0000
  const MAX_ENTRIES: nat := 1024
  const FREE: nat := 1
  const USED: nat := 2

  /** One 24-byte entry of the table. Kind 2 is both what the BIOS reserves and what
      `Allocate` hands out. */
  datatype Region = Region(base: nat, length: nat, kind: nat, acpi: nat) {
    function End(): nat { base + length }

    predicate Contains(address: nat) { base <= address < base + length }
  }

  /** A table and the address `Allocate` returned with it; address 0 is the failure value. */
  datatype Grant = Grant(regions: seq<Region>, address: nat)

  /** Regions that start at physical address 0 are never handed out. */
  predicate Eligible(e: Region, size: nat) {
    e.base != 0 && e.kind == FREE && e.length >= size
  }

  /** The first of the smallest regions that can hold `size` bytes, or -1. */
  function BestFit(m: seq<Region>, size: nat): (best: int)
    ensures -1 <= best < |m|
    ensures best == -1 ==> forall k :: 0 <= k < |m| ==> !Eligible(m[k], size)
    ensures best != -1 ==> Eligible(m[best], size)
    ensures best != -1 ==> forall k :: 0 <= k < |m| && Eligible(m[k], size) ==> m[best].length <= m[k].length
    ensures best != -1 ==> forall k :: 0 <= k < best && Eligible(m[k], size) ==> m[best].length < m[k].length
  {
    if m == [] then -1 else
      var last := |m| - 1;
      var best := BestFit(m[..last], size);
      if Eligible(m[last], size) && (best == -1 || m[best].length > m[last].length) then last else best
  }

  /** `m` with the region at `k` split in two: `size` bytes in use, the rest still free. */
  function Split(m: seq<Region>, k: nat, size: nat): seq<Region>
    requires k < |m| && size <= m[k].length
  {
    m[..k] + [Region(m[k].base, size, USED, m[k].acpi),
              Region(m[k].base + size, m[k].length - size, FREE, m[k].acpi)] + m[k + 1..]
  }

  function Allocate(m: seq<Region>, size: nat): Grant {
    var best := BestFit(m, size);
    if best == -1 then
      Grant(m, 0)
    else if m[best].length == size then
      Grant(m[best := m[best].(kind := USED)], m[best].base % 0x1_0000_0000)
    else if |m| >= MAX_ENTRIES then
      Grant(m, 0)
    else
      Grant(Split(m, best, size), m[best].base % 0x1_0000_0000)
  }

  /** The first entry that starts at `address`, or -1. */
  function IndexOf(m: seq<Region>, address: nat): (k: int)
    ensures -1 <= k < |m|
    ensures k == -1 ==> forall j :: 0 <= j < |m| ==> m[j].base != address
    ensures k != -1 ==> m[k].base == address && forall j :: 0 <= j < k ==> m[j].base != address
  {
    if m == [] then -1
    else if m[0].base == address then 0
    else
      var k := IndexOf(m[1..], address);
      if k == -1 then -1 else k + 1
  }

  /** Two free regions with no gap between them. */
  predicate Touch(a: Region, b: Region) {
    a.kind == FREE && b.kind == FREE && a.End() == b.base
  }

  /** `m` with entries `k` and `k + 1` merged into one. */
  function Join(m: seq<Region>, k: nat): seq<Region>
    requires k + 1 < |m|
  {
    m[..k] + [m[k].(length := m[k].length + m[k + 1].length)] + m[k + 2..]
  }

  function JoinIfTouching(m: seq<Region>, k: int): seq<Region> {
    if 0 <= k < |m| - 1 && Touch(m[k], m[k + 1]) then Join(m, k) else m
  }

  /** Free the entry at `k`: first merge it to the left, then merge the result to the right. */
  function FreeAt(m: seq<Region>, k: nat): seq<Region>
    requires k < |m|
  {
    var freed := m[k := m[k].(kind := FREE)];
    var left := JoinIfTouching(freed, k - 1);
    JoinIfTouching(left, if |left| < |m| then k - 1 else k)
  }

  function Free(m: seq<Region>, address: nat): seq<Region> {
    var k := IndexOf(m, address);
    if k == -1 then m else FreeAt(m, k)
  }

  /** Every entry ends inside the 64-bit address space, so no 64-bit sum of the table wraps. */
  ghost predicate Fits64(m: seq<Region>) {
    forall k :: 0 <= k < |m| ==> m[k].End() < TWO64
  }
}
