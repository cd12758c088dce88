/** `Allocate` and `Free` keep the invariant, and change the used entries by exactly one block. */
module MapInvariant {
  import opened PhysicalMap
  import opened MapTiling

  /** The block `Allocate` carves out, when it succeeds. */
  function Block(m: seq<Region>, size: nat): Region
    requires BestFit(m, size) != -1
  {
    var e := m[BestFit(m, size)];
    Region(e.base, size, USED, e.acpi)
  }

  /** `Allocate` has room to record what it finds. */
  predicate Grants(m: seq<Region>, size: nat) {
    var best := BestFit(m, size);
    best != -1 && (m[best].length == size || |m| < MAX_ENTRIES)
  }

  lemma AllocateInv(m: seq<Region>, size: nat, boot: seq<Region>)
    requires Canonical(boot) && Inv(m, boot) && size > 0
    ensures Inv(Allocate(m, size).regions, boot)
  {
    var k := BestFit(m, size);
    if Grants(m, size) {
      var m' := Allocate(m, size).regions;
      if m[k].length == size {
        FlipTiles(m, k, USED, boot);
      } else {
        SplitTiles(m, k, size, boot);
      }
      forall i, j | 0 <= i && j == i + 1 < |m'| ensures !Touch(m'[i], m'[j]) {
        if m[k].length == size || i < k {
          assert !Touch(m[i], m[j]);
        } else if i > k {
          assert !Touch(m[i - 1], m[j - 1]);
        }
      }
    }
  }

  /** All unmerged free pairs of `m` start at a position from `lo` to `hi`. */
  ghost predicate TouchesWithin(m: seq<Region>, lo: int, hi: int) {
    forall i, j :: 0 <= i && j == i + 1 < |m| && Touch(m[i], m[j]) ==> lo <= i <= hi
  }

  lemma FlipTouches(m: seq<Region>, k: nat)
    requires Coalesced(m) && k < |m|
    ensures TouchesWithin(m[k := m[k].(kind := FREE)], k - 1, k)
  {
    var m' := m[k := m[k].(kind := FREE)];
    forall i, j | 0 <= i && j == i + 1 < |m'| && Touch(m'[i], m'[j]) ensures k - 1 <= i <= k {
      assert !Touch(m[i], m[j]);
    }
  }

  lemma JoinTouches(m: seq<Region>, k: nat, hi: int)
    requires k + 1 < |m| && Touch(m[k], m[k + 1]) && k <= hi <= k + 1
    requires TouchesWithin(m, k, hi)
    ensures TouchesWithin(Join(m, k), k, hi - 1)
  {
    var n := Join(m, k);
    forall i, j | 0 <= i && j == i + 1 < |n| ensures Touch(n[i], n[j]) ==> k <= i <= hi - 1 {
      var i' := if i < k then i else i + 1;
      assert Touch(n[i], n[j]) <==> Touch(m[i'], m[i' + 1]);
    }
  }

  /** A merge that is due leaves one place less where a merge may be due. */
  lemma MergeStep(m: seq<Region>, k: int, hi: int, boot: seq<Region>)
    requires Canonical(boot) && Tiles(m, boot) && -1 <= k < |m| && k <= hi <= k + 1
    requires TouchesWithin(m, k, hi)
    ensures Tiles(JoinIfTouching(m, k), boot)
    ensures var n := JoinIfTouching(m, k);
            if |n| < |m| then TouchesWithin(n, k, hi - 1) else TouchesWithin(n, k + 1, hi)
  {
    if 0 <= k < |m| - 1 && Touch(m[k], m[k + 1]) {
      JoinTiles(m, k, boot);
      JoinTouches(m, k, hi);
    }
  }

  lemma FreeAtInv(m: seq<Region>, k: nat, boot: seq<Region>)
    requires Canonical(boot) && Inv(m, boot) && k < |m| && m[k] !in Used(boot)
    ensures Inv(FreeAt(m, k), boot)
  {
    var freed := m[k := m[k].(kind := FREE)];
    FlipTiles(m, k, FREE, boot);
    FlipTouches(m, k);
    var left := JoinIfTouching(freed, k - 1);
    MergeStep(freed, k - 1, k, boot);
    var k' := if |left| < |m| then k - 1 else k;
    MergeStep(left, k', k', boot);
    assert TouchesWithin(FreeAt(m, k), k' + 1, k') || TouchesWithin(FreeAt(m, k), k', k' - 1);
  }

  /** The address is not the base of a region the BIOS reserved. Callers can check it beforehand. */
  predicate Releasable(boot: seq<Region>, address: nat) {
    forall k :: 0 <= k < |boot| && boot[k].kind != FREE ==> boot[k].base != address
  }

  lemma FreeInv(m: seq<Region>, address: nat, boot: seq<Region>)
    requires Canonical(boot) && Inv(m, boot) && Releasable(boot, address)
    ensures Inv(Free(m, address), boot)
  {
    var k := IndexOf(m, address);
    if k != -1 {
      FreeAtInv(m, k, boot);
    }
  }

  // ----- The used entries -----

  lemma UsedAppend(a: seq<Region>, b: seq<Region>)
    ensures Used(a + b) == Used(a) + Used(b)
  {
  }

  lemma SpliceUsed(m: seq<Region>, k: nat, mid: seq<Region>)
    requires k < |m|
    ensures Used(m[..k] + mid + m[k + 1..]) == Used(m[..k]) + Used(mid) + Used(m[k + 1..])
  {
    UsedAppend(m[..k] + mid, m[k + 1..]);
    UsedAppend(m[..k], mid);
  }

  lemma AllocateUsed(m: seq<Region>, size: nat)
    requires Grants(m, size)
    ensures Used(Allocate(m, size).regions) == Used(m) + {Block(m, size)}
    ensures Allocate(m, size).address == Block(m, size).base % 0x1_0000_0000
  {
    var k := BestFit(m, size);
    var block := Block(m, size);
    var mid := if m[k].length == size then [block]
               else [block, Region(m[k].base + size, m[k].length - size, FREE, m[k].acpi)];
    assert Used(mid) == {block} && Used([m[k]]) == {};
    assert m == m[..k] + [m[k]] + m[k + 1..];
    assert Allocate(m, size).regions == m[..k] + mid + m[k + 1..];
    hide Used, Allocate, BestFit, Block;
    SpliceUsed(m, k, [m[k]]);
    SpliceUsed(m, k, mid);
  }

  lemma JoinUsed(m: seq<Region>, k: int)
    ensures Used(JoinIfTouching(m, k)) == Used(m)
  {
    if 0 <= k < |m| - 1 && Touch(m[k], m[k + 1]) {
      var c := m[k].(length := m[k].length + m[k + 1].length);
      assert m == m[..k] + [m[k], m[k + 1]] + m[k + 2..];
      UsedAppend(m[..k] + [m[k], m[k + 1]], m[k + 2..]);
      UsedAppend(m[..k], [m[k], m[k + 1]]);
      UsedAppend(m[..k] + [c], m[k + 2..]);
      UsedAppend(m[..k], [c]);
    }
  }

  lemma FlipUsed(m: seq<Region>, k: nat)
    requires Sorted(m) && k < |m|
    ensures Used(m[k := m[k].(kind := FREE)]) == Used(m) - {m[k]}
  {
    var e' := m[k].(kind := FREE);
    assert m[k] !in m[..k];
    assert m[k] !in m[k + 1..];
    assert m == m[..k] + [m[k]] + m[k + 1..];
    assert m[k := e'] == m[..k] + [e'] + m[k + 1..];
    SpliceUsed(m, k, [m[k]]);
    SpliceUsed(m, k, [e']);
  }

  lemma FreeAtUsed(m: seq<Region>, k: nat)
    requires Sorted(m) && k < |m|
    ensures Used(FreeAt(m, k)) == Used(m) - {m[k]}
  {
    hide JoinIfTouching, Used, Sorted;
    var freed := m[k := m[k].(kind := FREE)];
    FlipUsed(m, k);
    var left := JoinIfTouching(freed, k - 1);
    JoinUsed(freed, k - 1);
    JoinUsed(left, if |left| < |m| then k - 1 else k);
  }

  // ----- The free addresses -----

  /** `address` lies in a free region. */
  ghost predicate FreeAddress(m: seq<Region>, address: nat) {
    exists e :: e in m && e.kind == FREE && e.Contains(address)
  }

  /** `address` lies in some region. */
  ghost predicate Covered(m: seq<Region>, address: nat) {
    exists e :: e in m && e.Contains(address)
  }

  lemma CoveredCons(e: Region, m: seq<Region>, address: nat)
    ensures Covered([e] + m, address) <==> e.Contains(address) || Covered(m, address)
  {
    if e.Contains(address) {
      assert e in [e] + m;
    }
    if Covered(m, address) {
      var x :| x in m && x.Contains(address);
      assert x in [e] + m;
    }
  }

  lemma CutOffCovers(boot: seq<Region>, e: Region, address: nat)
    requires CutOff(boot, e).Some?
    ensures Covered(boot, address) <==> e.Contains(address) || Covered(CutOff(boot, e).value, address)
  {
    var r := CutOff(boot, e).value;
    assert boot == [boot[0]] + boot[1..];
    CoveredCons(boot[0], boot[1..], address);
    if e != boot[0] && e.length < boot[0].length {
      assert r == [r[0]] + boot[1..];
      CoveredCons(r[0], boot[1..], address);
    }
  }

  /** No operation changes which addresses the table describes. */
  lemma {:induction false} CoverageConserved(m: seq<Region>, boot: seq<Region>, address: nat)
    requires Tiles(m, boot)
    ensures Covered(m, address) <==> Covered(boot, address)
  {
    if m != [] {
      var r := CutOff(boot, m[0]).value;
      CutOffCovers(boot, m[0], address);
      CoverageConserved(m[1..], r, address);
      assert m == [m[0]] + m[1..];
      CoveredCons(m[0], m[1..], address);
    }
  }

  /** Used entries determine the free addresses: an address is free when it is covered and unused. */
  lemma FreeIsUnused(m: seq<Region>, address: nat)
    requires Sorted(m)
    ensures FreeAddress(m, address) <==> Covered(m, address) && forall e :: e in Used(m) ==> !e.Contains(address)
  {
    if FreeAddress(m, address) {
      var e :| e in m && e.kind == FREE && e.Contains(address);
      forall u | u in Used(m) ensures !u.Contains(address) {
        var i :| 0 <= i < |m| && m[i] == e;
        var j :| 0 <= j < |m| && m[j] == u;
        assert i != j;
      }
    }
    if Covered(m, address) && forall e :: e in Used(m) ==> !e.Contains(address) {
      var e :| e in m && e.Contains(address);
      assert e !in Used(m);
    }
  }
}
