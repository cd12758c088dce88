/** What one call of the physical allocator promises: exact failure, exact effect, exact undo. */
module MapResults {
  import opened PhysicalMap
  import opened MapTiling
  import opened MapInvariant
  import opened MapRuns

  /** `Allocate` succeeds exactly when some region fits, and the table has a free slot or some region
      fits exactly; when it fails the table is unchanged and the result is 0. */
  lemma AllocateFailsExactly(m: seq<Region>, size: nat)
    ensures Grants(m, size) <==>
            exists k :: 0 <= k < |m| && m[k].kind == 1 && m[k].base != 0 && m[k].length >= size
                        && (m[k].length == size || |m| < 1024)
    ensures !Grants(m, size) ==> Allocate(m, size) == Grant(m, 0)
    ensures Grants(m, size) && Block(m, size).base < TWO32 ==> Allocate(m, size).address == Block(m, size).base != 0
  {
    var best := BestFit(m, size);
    if Grants(m, size) {
      assert Eligible(m[best], size);
    }
    if k :| 0 <= k < |m| && m[k].kind == 1 && m[k].base != 0 && m[k].length >= size
             && (m[k].length == size || |m| < 1024) {
      assert Eligible(m[k], size);
      assert m[best].length <= m[k].length;
    }
  }

  /** A table and the same table with one more block in use differ in exactly that block's bytes. */
  lemma BlockBytes(m: seq<Region>, with: seq<Region>, k: nat, boot: seq<Region>, a: nat)
    requires Canonical(boot) && Inv(m, boot) && Inv(with, boot)
    requires k < |with| && with[k] !in Used(m) && Used(with) == Used(m) + {with[k]}
    ensures FreeAddress(with, a) <==> FreeAddress(m, a) && !with[k].Contains(a)
    ensures FreeAddress(m, a) <==> FreeAddress(with, a) || with[k].Contains(a)
  {
    InvCanonical(m, boot);
    InvCanonical(with, boot);
    CoverageConserved(m, boot, a);
    CoverageConserved(with, boot, a);
    FreeIsUnused(m, a);
    FreeIsUnused(with, a);
    OthersApart(with, k, a);
  }

  /** An address inside entry `k` is in no other entry. */
  lemma OthersApart(m: seq<Region>, k: nat, a: nat)
    requires Sorted(m) && k < |m|
    ensures m[k].Contains(a) ==> Covered(m, a) && forall e :: e in m && e != m[k] ==> !e.Contains(a)
  {
    if m[k].Contains(a) {
      forall e | e in m && e != m[k] ensures !e.Contains(a) {
        var j :| 0 <= j < |m| && m[j] == e;
        assert j < k || k < j;
      }
    }
  }

  /** No two entries of a sorted table start at the same address. */
  lemma OnlyBase(m: seq<Region>, k: nat)
    requires Sorted(m) && k < |m|
    ensures forall e :: e in m && e.base == m[k].base ==> e == m[k]
    ensures IndexOf(m, m[k].base) == k
  {
    forall j | 0 <= j < |m| && j != k ensures m[j].base != m[k].base {
      assert j < k || k < j;
    }
  }

  lemma BlockApart(m: seq<Region>, size: nat)
    requires Sorted(m) && size > 0 && Grants(m, size)
    ensures Block(m, size) !in Used(m)
    ensures forall e :: e in Used(m) ==> e.End() <= Block(m, size).base || Block(m, size).End() <= e.base
  {
    var k, b := BestFit(m, size), Block(m, size);
    forall e | e in Used(m) ensures e != b && (e.End() <= b.base || b.End() <= e.base) {
      var j :| 0 <= j < |m| && m[j] == e;
      assert j < k || k < j;
    }
  }

  /** The block granted starts the first of the smallest regions that fit, and was free all through;
      granting it removes exactly its bytes from the free addresses. */
  lemma AllocateEffect(m: seq<Region>, size: nat, boot: seq<Region>)
    requires Canonical(boot) && Inv(m, boot) && size > 0 && Grants(m, size)
    ensures Live(Allocate(m, size).regions, boot) == Live(m, boot) + {Block(m, size)}
    ensures Block(m, size) !in Used(m)
    ensures forall a :: FreeAddress(Allocate(m, size).regions, a)
                        <==> FreeAddress(m, a) && !Block(m, size).Contains(a)
    ensures forall a :: Block(m, size).Contains(a) ==> FreeAddress(m, a)
  {
    var b, m' := Block(m, size), Allocate(m, size).regions;
    InvCanonical(m, boot);
    BlockApart(m, size);
    AllocateUsed(m, size);
    AllocateInv(m, size, boot);
    ReservedKept(m, boot);
    assert b in Used(m');
    var k :| 0 <= k < |m'| && m'[k] == b;
    forall a ensures (FreeAddress(m', a) <==> FreeAddress(m, a) && !b.Contains(a))
                     && (b.Contains(a) ==> FreeAddress(m, a)) {
      BlockBytes(m, m', k, boot, a);
    }
  }

  /** The base of a live block is not one the BIOS reserved. */
  lemma LiveReleasable(m: seq<Region>, k: nat, boot: seq<Region>)
    requires Canonical(boot) && Inv(m, boot) && k < |m| && m[k] !in Used(boot)
    ensures Releasable(boot, m[k].base)
  {
    InvCanonical(m, boot);
    ReservedKept(m, boot);
    OnlyBase(m, k);
    forall i | 0 <= i < |boot| && boot[i].kind != FREE ensures boot[i].base != m[k].base {
      assert boot[i] in Used(boot) && boot[i] in Used(m);
    }
  }

  /** Freeing a live block makes exactly its bytes free again. */
  lemma FreeEffect(m: seq<Region>, k: nat, boot: seq<Region>)
    requires Canonical(boot) && Inv(m, boot) && k < |m| && m[k] in Live(m, boot)
    ensures Live(Free(m, m[k].base), boot) == Live(m, boot) - {m[k]}
    ensures forall a :: FreeAddress(Free(m, m[k].base), a) <==> FreeAddress(m, a) || m[k].Contains(a)
  {
    var b := m[k];
    var m' := Free(m, b.base);
    InvCanonical(m, boot);
    LiveReleasable(m, k, boot);
    OnlyBase(m, k);
    FreeAtUsed(m, k);
    FreeInv(m, b.base, boot);
    assert Used(m) == Used(m') + {b};
    forall a ensures FreeAddress(m', a) <==> FreeAddress(m, a) || b.Contains(a) {
      BlockBytes(m', m, k, boot, a);
    }
  }

  /** `free` undoes `allocate` exactly when the 32-bit address returned is the address of the block:
      a block granted above 4 GiB is returned truncated and can never be given back. */
  lemma FreeUndoesAllocate(m: seq<Region>, size: nat, boot: seq<Region>)
    requires Canonical(boot) && Inv(m, boot) && size > 0 && Grants(m, size)
    ensures var g := Allocate(m, size); Free(g.regions, g.address) == m <==> Block(m, size).base < TWO32
  {
    hide Canonical, Inv, Sorted, Used, Allocate, Free;
    if Block(m, size).base < TWO32 {
      AllocateUsed(m, size);
      UndoLow(m, size, boot);
    } else {
      AllocateInv(m, size, boot);
      InvCanonical(Allocate(m, size).regions, boot);
      InvCanonical(m, boot);
      AllocateUsed(m, size);
      BlockApart(m, size);
      BlockSurvives(Allocate(m, size).regions, Block(m, size), Allocate(m, size).address);
    }
  }

  /** With memory above 4 GiB only, a page is granted there and 0 returned, which reads as failure. */
  lemma HighBlockLooksLikeFailure()
    ensures var low, high := Region(0, 0x9_F000, FREE, 1), Region(0x1_0000_0000, 0x4000_0000, FREE, 1);
      var boot := [low, high];
      && Canonical(boot) && Inv(boot, boot) && Grants(boot, 4096)
      && Block(boot, 4096) == Region(0x1_0000_0000, 4096, USED, 1)
      && Allocate(boot, 4096).address == 0
      && Allocate(boot, 4096).regions == [low, Block(boot, 4096), Region(0x1_0000_1000, 0x3FFF_F000, FREE, 1)]
  {
    var boot := [Region(0, 0x9_F000, FREE, 1), Region(0x1_0000_0000, 0x4000_0000, FREE, 1)];
    assert BestFit(boot, 4096) == 1;
    TilesItself(boot);
  }

  /** Freeing an address keeps every used entry that starts elsewhere. */
  lemma BlockSurvives(m: seq<Region>, e: Region, address: nat)
    requires Sorted(m) && e in Used(m) && e.base != address
    ensures e in Used(Free(m, address))
  {
    var j := IndexOf(m, address);
    if j != -1 {
      FreeAtUsed(m, j);
    }
  }

  lemma UndoLow(m: seq<Region>, size: nat, boot: seq<Region>)
    requires Canonical(boot) && Inv(m, boot) && size > 0 && Grants(m, size)
    ensures Free(Allocate(m, size).regions, Block(m, size).base) == m
  {
    var m', b := Allocate(m, size).regions, Block(m, size);
    AllocateEffect(m, size, boot);
    AllocateInv(m, size, boot);
    assert b in Live(m', boot);
    var k :| 0 <= k < |m'| && m'[k] == b;
    LiveReleasable(m', k, boot);
    FreeEffect(m', k, boot);
    FreeInv(m', b.base, boot);
    SameLive(Free(m', b.base), m, boot);
  }

  // ----- The size of the table -----

  /** Cutting into a free region takes no used entry away. */
  lemma CutInside(boot: seq<Region>, e: Region)
    requires boot != [] && boot[0].kind == FREE && CutOff(boot, e).Some? && e.length < boot[0].length
    ensures var r := CutOff(boot, e).value;
      Used(r) == Used(boot) && |r| == |boot| && r != [] && r[0].kind == FREE
  {
    var r := CutOff(boot, e).value;
    assert r == [r[0]] + boot[1..] && boot == [boot[0]] + boot[1..];
    UsedAppend([r[0]], boot[1..]);
    UsedAppend([boot[0]], boot[1..]);
    assert Used([r[0]]) == Used([boot[0]]) == {};
  }

  lemma {:induction false} TableBoundFrom(m: seq<Region>, boot: seq<Region>)
    requires Canonical(boot) && Inv(m, boot)
    ensures |m| + (if m != [] && m[0].kind != FREE && boot != [] && boot[0].kind == FREE then 1 else 0)
            <= |boot| + 2 * (|Used(m)| - |Used(boot)|)
  {
    if m == [] {
      assert Used(m) == {} && Used(boot) == {};
    } else {
      var r := CutOff(boot, m[0]).value;
      CutOffCanonical(boot, m[0]);
      TailInv(m, boot);
      TailUsed(m, boot);
      TableBoundFrom(m[1..], r);
      HeadUsed(boot);
      assert m[0] in m;
      if boot[0].kind == FREE && m[0].length < boot[0].length {
        CutInside(boot, m[0]);
        if m[0].kind == FREE {
          UsedPieceFollows(m, boot);
        }
      }
    }
  }

  lemma HeadUsed(boot: seq<Region>)
    requires boot != [] && Canonical(boot)
    ensures Used(boot[1..]) == Used(boot) - {boot[0]}
    ensures boot[0].kind == FREE ==> Used(boot[1..]) == Used(boot)
  {
    assert boot == [boot[0]] + boot[1..];
    UsedAppend([boot[0]], boot[1..]);
    assert boot[0] !in boot[1..];
  }

  /** With R boot regions and L live blocks the table holds at most R + 2L entries. */
  lemma TableBound(m: seq<Region>, boot: seq<Region>)
    requires Canonical(boot) && Inv(m, boot)
    ensures |m| <= |boot| + 2 * |Live(m, boot)|
  {
    TableBoundFrom(m, boot);
    ReservedKept(m, boot);
    assert Used(m) == Used(boot) + Live(m, boot);
  }

  /** So while R + 2L is below 1024, allocation fails only when no region is large enough. */
  lemma FailsOnlyWhenNothingFits(m: seq<Region>, size: nat, boot: seq<Region>)
    requires Canonical(boot) && Inv(m, boot)
    requires |boot| + 2 * |Live(m, boot)| < MAX_ENTRIES
    ensures Grants(m, size) <==> exists k :: 0 <= k < |m| && Eligible(m[k], size)
  {
    TableBound(m, boot);
    AllocateFailsExactly(m, size);
  }
}
