/** Page frames: what the physical allocator promises to the layers that only ask it for 4096 bytes. */
module Frames {
  import opened PhysicalMap
  import opened MapTiling
  import opened MapInvariant
  import opened MapRuns
  import opened MapResults
  import Words

  const PAGE: nat := 4096

  /** A region the allocator may hand out in frames: page aligned, below 4 GiB, not at address 0,
      and away from `image`, the frame of the page table linked into the kernel. */
  predicate FrameSized(e: Region, image: nat) {
    e.base % 4096 == 0 && e.base != 0 && e.End() <= TWO32 && !e.Contains(image)
  }

  ghost predicate Shaped(m: seq<Region>, boot: seq<Region>, image: nat) {
    forall e :: e in m ==> e in Used(boot) || (e.kind == FREE && e.base == 0) || FrameSized(e, image)
  }

  /** The allocator invariant as seen from the paging code. On the boot map it is the assumption this
      kernel makes about the machine. */
  ghost predicate FrameMap(m: seq<Region>, boot: seq<Region>, image: nat) {
    Canonical(boot) && Inv(m, boot) && Shaped(m, boot, image)
  }

  /** `frame` is a live block of one page. */
  ghost predicate Owned(m: seq<Region>, boot: seq<Region>, frame: nat) {
    exists e :: e in Live(m, boot) && e.base == frame && e.length == PAGE
  }

  function Pieces(e: Region): seq<Region>
    requires e.length >= PAGE
  {
    [Region(e.base, PAGE, USED, e.acpi)]
    + (if e.length == PAGE then [] else [Region(e.base + PAGE, e.length - PAGE, FREE, e.acpi)])
  }

  lemma AllocatedPieces(m: seq<Region>)
    requires Grants(m, PAGE)
    ensures var k := BestFit(m, PAGE);
            m[k].kind == FREE && Allocate(m, PAGE).regions == m[..k] + Pieces(m[k]) + m[k + 1..]
  {
    var k := BestFit(m, PAGE);
    if m[k].length == PAGE {
      assert m[k := m[k].(kind := USED)] == m[..k] + [m[k].(kind := USED)] + m[k + 1..];
    }
  }

  lemma AllocateShaped(m: seq<Region>, boot: seq<Region>, image: nat)
    requires Shaped(m, boot, image)
    ensures Shaped(Allocate(m, PAGE).regions, boot, image)
  {
    if Grants(m, PAGE) {
      AllocatedPieces(m);
      var e := m[BestFit(m, PAGE)];
      assert e !in Used(boot);
      assert e in m;
      assert forall p :: p in Pieces(e) ==> FrameSized(p, image);
    }
  }

  lemma FlipShaped(m: seq<Region>, k: nat, boot: seq<Region>, image: nat)
    requires Shaped(m, boot, image) && k < |m| && m[k] !in Used(boot)
    ensures Shaped(m[k := m[k].(kind := FREE)], boot, image)
  {
    assert m[k] in m;
    var m' := m[k := m[k].(kind := FREE)];
    assert forall e :: e in m' ==> e in m || e == m[k].(kind := FREE);
  }

  lemma JoinShaped(m: seq<Region>, k: int, boot: seq<Region>, image: nat)
    requires Shaped(m, boot, image)
    requires forall e :: e in m ==> e.length > 0
    ensures Shaped(JoinIfTouching(m, k), boot, image)
    ensures forall e :: e in JoinIfTouching(m, k) ==> e.length > 0
  {
    if 0 <= k < |m| - 1 && Touch(m[k], m[k + 1]) {
      assert m[k] in m && m[k + 1] in m;
      var c := m[k].(length := m[k].length + m[k + 1].length);
      assert c.base == 0 || FrameSized(c, image);
      assert forall e :: e in Join(m, k) ==> e in m || e == c;
    }
  }

  lemma FreeAtShaped(m: seq<Region>, k: nat, boot: seq<Region>, image: nat)
    requires Sorted(m) && Shaped(m, boot, image) && k < |m| && m[k] !in Used(boot)
    ensures Shaped(FreeAt(m, k), boot, image)
  {
    var freed := m[k := m[k].(kind := FREE)];
    FlipShaped(m, k, boot, image);
    assert forall e :: e in freed ==> e.length > 0;
    JoinShaped(freed, k - 1, boot, image);
    var left := JoinIfTouching(freed, k - 1);
    JoinShaped(left, if |left| < |m| then k - 1 else k, boot, image);
  }

  /** `allocate(4096)` either fails and changes nothing, or grants an aligned frame nobody owned. */
  lemma GrantFrame(m: seq<Region>, boot: seq<Region>, image: nat)
    requires FrameMap(m, boot, image)
    ensures var g := Allocate(m, PAGE);
            && FrameMap(g.regions, boot, image)
            && (g.address == 0 <==> !Grants(m, PAGE))
            && (g.address == 0 ==> g.regions == m)
            && (g.address != 0 ==>
                  && g.address % 4096 == 0 && g.address < TWO32 && g.address != image
                  && !Owned(m, boot, g.address)
                  && forall h :: Owned(g.regions, boot, h) <==> Owned(m, boot, h) || h == g.address)
  {
    var g := Allocate(m, PAGE);
    AllocateInv(m, PAGE, boot);
    AllocateShaped(m, boot, image);
    AllocateFailsExactly(m, PAGE);
    if Grants(m, PAGE) {
      var b := Block(m, PAGE);
      GrantedShape(m, boot, image);
      AllocateEffect(m, PAGE, boot);
      NotYetOwned(m, boot);
      forall h ensures Owned(g.regions, boot, h) <==> Owned(m, boot, h) || h == g.address {
        assert b in Live(g.regions, boot);
      }
    }
  }

  lemma GrantedShape(m: seq<Region>, boot: seq<Region>, image: nat)
    requires Shaped(m, boot, image) && Grants(m, PAGE)
    ensures FrameSized(Block(m, PAGE), image)
  {
    var e := m[BestFit(m, PAGE)];
    assert e in m && e !in Used(boot);
  }

  lemma NotYetOwned(m: seq<Region>, boot: seq<Region>)
    requires Canonical(boot) && Inv(m, boot) && Grants(m, PAGE)
    ensures !Owned(m, boot, Block(m, PAGE).base)
  {
    InvCanonical(m, boot);
    OnlyBase(m, BestFit(m, PAGE));
  }

  /** Freeing an owned frame ends that ownership and no other. */
  lemma ReleaseFrame(m: seq<Region>, frame: nat, boot: seq<Region>, image: nat)
    requires FrameMap(m, boot, image) && Owned(m, boot, frame)
    ensures FrameMap(Free(m, frame), boot, image)
    ensures forall h :: Owned(Free(m, frame), boot, h) <==> Owned(m, boot, h) && h != frame
  {
    hide Inv, FreeAt, Shaped, FreeAddress;
    var e :| e in Live(m, boot) && e.base == frame && e.length == PAGE;
    var k :| 0 <= k < |m| && m[k] == e;
    InvCanonical(m, boot);
    OnlyBase(m, k);
    FreeAtInv(m, k, boot);
    FreeAtShaped(m, k, boot, image);
    FreeEffect(m, k, boot);
  }

  /** A PC with 128 MiB: conventional memory with the kernel image in it, the reserved area below 1 MiB,
      and extended memory. */
  lemma SmallPc()
    ensures var low := Region(0, 0x9_FC00, FREE, 1);
      var bios := Region(0xF_0000, 0x1_0000, USED, 1);
      var high := Region(0x10_0000, 0x7E0_0000, FREE, 1);
      FrameMap([low, bios, high], [low, bios, high], 0x3_0000)
  {
    var boot := [Region(0, 0x9_FC00, FREE, 1), Region(0xF_0000, 0x1_0000, USED, 1),
                 Region(0x10_0000, 0x7E0_0000, FREE, 1)];
    assert boot[1] in Used(boot);
    TilesItself(boot);
  }

  /** Every region frames can come from starts on a page boundary. */
  ghost predicate Aligned(m: seq<Region>) {
    forall e :: e in m && e.kind == FREE && e.base != 0 ==> e.base % 4096 == 0
  }

  lemma ShapedAligned(m: seq<Region>, boot: seq<Region>, image: nat)
    requires Shaped(m, boot, image)
    ensures Aligned(m)
  {
  }

  lemma AllocateAligned(m: seq<Region>)
    requires Aligned(m)
    ensures Allocate(m, PAGE).address % 4096 == 0
    ensures Aligned(Allocate(m, PAGE).regions)
  {
    hide BestFit;
    if Grants(m, PAGE) {
      AllocatedPieces(m);
      var e := m[BestFit(m, PAGE)];
      assert e in m && Eligible(e, PAGE);
      LowBitsAligned(e.base);
      assert forall p :: p in Pieces(e) ==> p.base % 4096 == 0;
    }
  }

  lemma LowBitsAligned(base: nat)
    requires base % 4096 == 0
    ensures base % 0x1_0000_0000 % 4096 == 0 && (base + 4096) % 4096 == 0
  {
    var q, k := base / 4096, base / 0x1_0000_0000;
    Words.WordBits(q + 1, 0);
    assert base % 0x1_0000_0000 == 4096 * (q - 0x10_0000 * k);
    Words.WordBits(q - 0x10_0000 * k, 0);
  }

  lemma JoinAligned(m: seq<Region>, k: int)
    requires Aligned(m)
    ensures Aligned(JoinIfTouching(m, k))
  {
    if 0 <= k < |m| - 1 && Touch(m[k], m[k + 1]) {
      assert m[k] in m;
    }
  }

  lemma FreeAligned(m: seq<Region>, frame: nat)
    requires Aligned(m) && frame % 4096 == 0
    ensures Aligned(Free(m, frame))
  {
    var k := IndexOf(m, frame);
    if k != -1 {
      var freed := m[k := m[k].(kind := FREE)];
      assert forall e :: e in freed ==> e in m || e == m[k].(kind := FREE);
      JoinAligned(freed, k - 1);
      var left := JoinIfTouching(freed, k - 1);
      JoinAligned(left, if |left| < |m| then k - 1 else k);
    }
  }
}
