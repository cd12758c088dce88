/** Whole runs of the physical allocator: what any sequence of requests leaves behind. */
module MapRuns {
  import opened PhysicalMap
  import opened MapTiling
  import opened MapInvariant

  datatype Request = Alloc(size: nat) | Release(address: nat)

  function Serve(m: seq<Region>, q: Request): seq<Region> {
    match q
    case Alloc(size) => Allocate(m, size).regions
    case Release(address) => Free(m, address)
  }

  function ServeAll(m: seq<Region>, qs: seq<Request>): seq<Region>
    decreases |qs|
  {
    if qs == [] then m else ServeAll(Serve(m, qs[0]), qs[1..])
  }

  /** Requests ask for at least one byte, addresses given back are 32-bit, and never those of a region the
      BIOS reserved. */
  predicate Legal(boot: seq<Region>, q: Request) {
    match q
    case Alloc(size) => size > 0
    case Release(address) => address < TWO32 && Releasable(boot, address)
  }

  /** What has been allocated and not freed. */
  ghost function Live(m: seq<Region>, boot: seq<Region>): set<Region> {
    Used(m) - Used(boot)
  }

  lemma ServeInv(m: seq<Region>, q: Request, boot: seq<Region>)
    requires Canonical(boot) && Inv(m, boot) && Legal(boot, q)
    ensures Inv(Serve(m, q), boot)
  {
    match q
    case Alloc(size) => AllocateInv(m, size, boot);
    case Release(address) => FreeInv(m, address, boot);
  }

  lemma {:induction false} RunInv(m: seq<Region>, qs: seq<Request>, boot: seq<Region>)
    requires Canonical(boot) && Inv(m, boot)
    requires forall q :: q in qs ==> Legal(boot, q)
    ensures Inv(ServeAll(m, qs), boot)
    decreases |qs|
  {
    if qs != [] {
      ServeInv(m, qs[0], boot);
      RunInv(Serve(m, qs[0]), qs[1..], boot);
    }
  }

  /** From the boot map on, every legal run keeps the table sorted, disjoint and merged. */
  lemma RunKeepsCanonical(boot: seq<Region>, qs: seq<Request>)
    requires Canonical(boot)
    requires forall q :: q in qs ==> Legal(boot, q)
    ensures Inv(ServeAll(boot, qs), boot) && Canonical(ServeAll(boot, qs))
    ensures Used(boot) <= Used(ServeAll(boot, qs))
    ensures forall a :: Covered(ServeAll(boot, qs), a) <==> Covered(boot, a)
  {
    TilesItself(boot);
    RunInv(boot, qs, boot);
    var m := ServeAll(boot, qs);
    InvCanonical(m, boot);
    ReservedKept(m, boot);
    forall a ensures Covered(m, a) <==> Covered(boot, a) {
      CoverageConserved(m, boot, a);
    }
  }

  lemma {:induction false} ReservedKept(m: seq<Region>, boot: seq<Region>)
    requires Tiles(m, boot)
    ensures Used(boot) <= Used(m)
  {
    if m != [] {
      var r := CutOff(boot, m[0]).value;
      ReservedKept(m[1..], r);
      forall e | e in Used(boot) ensures e in Used(m) {
        if e == boot[0] {
          assert m[0] == e;
        } else {
          assert e in boot[1..] && e in r;
          assert e in Used(m[1..]);
        }
      }
    }
  }

  // ----- Any request whatever -----

  /** What `Canonical` comes to: entries of positive length, each ending at or before the start of the
      next, and no two neighbours of kind 1 that touch. */
  lemma CanonicalMeans(m: seq<Region>)
    ensures Canonical(m) <==>
            && (forall i :: 0 <= i < |m| ==> m[i].length > 0)
            && (forall i, j :: 0 <= i && j == i + 1 < |m| ==> m[i].base + m[i].length <= m[j].base)
            && (forall i, j :: 0 <= i && j == i + 1 < |m| ==>
                  !(m[i].kind == 1 && m[j].kind == 1 && m[i].base + m[i].length == m[j].base))
  {
    if (forall i :: 0 <= i < |m| ==> m[i].length > 0)
       && forall i, j :: 0 <= i && j == i + 1 < |m| ==> m[i].base + m[i].length <= m[j].base {
      forall i, j | 0 <= i < j < |m| ensures m[i].End() <= m[j].base {
        NeighboursSuffice(m, i, j);
      }
    }
  }

  lemma {:induction false} NeighboursSuffice(m: seq<Region>, i: nat, j: nat)
    requires i < j < |m|
    requires forall i :: 0 <= i < |m| ==> m[i].length > 0
    requires forall i, j :: 0 <= i && j == i + 1 < |m| ==> m[i].base + m[i].length <= m[j].base
    ensures m[i].End() <= m[j].base
    decreases j
  {
    if i + 1 < j {
      NeighboursSuffice(m, i, j - 1);
      assert m[j - 1].base + m[j - 1].length <= m[j].base;
    }
  }

  /** Sorted, and merged but for pairs that start at a position from `lo` to `hi`. */
  ghost predicate SortedBut(m: seq<Region>, lo: int, hi: int) {
    Sorted(m) && TouchesWithin(m, lo, hi)
  }

  lemma JoinIsSorted(m: seq<Region>, k: nat)
    requires Sorted(m) && k + 1 < |m| && Touch(m[k], m[k + 1])
    ensures Sorted(Join(m, k))
  {
    var n := Join(m, k);
    forall i, j | 0 <= i < j < |n| ensures n[i].End() <= n[j].base {
      var i', j' := if i <= k then i else i + 1, if j <= k then j else j + 1;
      assert m[i'].End() <= m[j'].base;
      assert m[k + 1].End() <= m[j'].base || j' <= k + 1;
    }
  }

  lemma JoinSorted(m: seq<Region>, k: int, hi: int)
    requires SortedBut(m, k, hi) && -1 <= k < |m| && k <= hi <= k + 1
    ensures var n := JoinIfTouching(m, k);
      if |n| < |m| then SortedBut(n, k, hi - 1) else SortedBut(n, k + 1, hi)
    ensures forall a :: Covered(JoinIfTouching(m, k), a) <==> Covered(m, a)
  {
    hide Sorted, Covered;
    if 0 <= k < |m| - 1 && Touch(m[k], m[k + 1]) {
      JoinIsSorted(m, k);
      JoinTouches(m, k, hi);
      forall a ensures Covered(Join(m, k), a) <==> Covered(m, a) {
        JoinCovers(m, k, a);
      }
    }
  }

  lemma CoveredAt(m: seq<Region>, a: nat)
    ensures Covered(m, a) <==> exists i :: 0 <= i < |m| && m[i].Contains(a)
  {
    if Covered(m, a) {
      var e :| e in m && e.Contains(a);
      var i :| 0 <= i < |m| && m[i] == e;
    }
    if i :| 0 <= i < |m| && m[i].Contains(a) {
      assert m[i] in m;
    }
  }

  lemma JoinCovers(m: seq<Region>, k: nat, a: nat)
    requires k + 1 < |m| && Touch(m[k], m[k + 1])
    ensures Covered(Join(m, k), a) <==> Covered(m, a)
  {
    var n := Join(m, k);
    CoveredAt(m, a);
    CoveredAt(n, a);
    if i :| 0 <= i < |m| && m[i].Contains(a) {
      assert n[if i <= k then i else i - 1].Contains(a);
    }
    if i :| 0 <= i < |n| && n[i].Contains(a) {
      assert m[if i <= k then i else i + 1].Contains(a) || m[k + 1].Contains(a);
    }
  }

  /** Freeing any address at all, a reserved region's included, leaves the table sorted, disjoint and
      merged, and describing the same addresses. */
  lemma FreeCanonical(m: seq<Region>, address: nat)
    requires Canonical(m)
    ensures Canonical(Free(m, address))
    ensures forall a :: Covered(Free(m, address), a) <==> Covered(m, a)
  {
    var k := IndexOf(m, address);
    if k != -1 {
      var freed := m[k := m[k].(kind := FREE)];
      FlipSorted(m, k);
      hide Covered, Canonical, Coalesced, Sorted, TouchesWithin, JoinIfTouching;
      JoinSorted(freed, k - 1, k);
      var left := JoinIfTouching(freed, k - 1);
      var k' := if |left| < |m| then k - 1 else k;
      JoinSorted(left, k', k');
      NothingToMerge(FreeAt(m, k));
    }
  }

  lemma FlipSorted(m: seq<Region>, k: nat)
    requires Canonical(m) && k < |m|
    ensures var freed := m[k := m[k].(kind := FREE)];
      SortedBut(freed, k - 1, k) && forall a :: Covered(freed, a) <==> Covered(m, a)
  {
    var freed := m[k := m[k].(kind := FREE)];
    FlipTouches(m, k);
    forall a ensures Covered(freed, a) <==> Covered(m, a) {
      CoveredAt(m, a);
      CoveredAt(freed, a);
      assert forall i :: 0 <= i < |m| ==> (freed[i].Contains(a) <==> m[i].Contains(a));
    }
  }

  lemma NothingToMerge(m: seq<Region>)
    ensures forall lo, hi :: SortedBut(m, lo, hi) && hi < lo ==> Canonical(m)
  {
  }

  /** Every run of requests for at least one byte and of frees keeps the table so. */
  lemma {:induction false} RunKeepsOrder(m: seq<Region>, qs: seq<Request>)
    requires Canonical(m)
    requires forall q :: q in qs && q.Alloc? ==> q.size > 0
    ensures Canonical(ServeAll(m, qs))
    ensures forall a :: Covered(ServeAll(m, qs), a) <==> Covered(m, a)
    decreases |qs|
  {
    if qs != [] {
      hide Canonical, Covered, Allocate, Free, Inv;
      match qs[0] {
        case Alloc(size) =>
          InvItself(m);
          AllocateInv(m, size, m);
          InvCanonical(Serve(m, qs[0]), m);
          SameCoverage(Serve(m, qs[0]), m);
        case Release(address) => FreeCanonical(m, address);
      }
      RunKeepsOrder(Serve(m, qs[0]), qs[1..]);
    }
  }

  lemma SameCoverage(m: seq<Region>, boot: seq<Region>)
    requires Inv(m, boot)
    ensures forall a :: Covered(m, a) <==> Covered(boot, a)
  {
    forall a ensures Covered(m, a) <==> Covered(boot, a) {
      CoverageConserved(m, boot, a);
    }
  }

  // ----- One table per set of live blocks -----

  /** The live blocks determine the table. */
  lemma {:induction false} UsedDeterminesMap(m: seq<Region>, n: seq<Region>, boot: seq<Region>)
    requires Canonical(boot) && Inv(m, boot) && Inv(n, boot) && Used(m) == Used(n)
    ensures m == n
  {
    if m != [] && n != [] {
      SameHead(m, n, boot);
      var r := CutOff(boot, m[0]).value;
      CutOffCanonical(boot, m[0]);
      TailInv(m, boot);
      TailInv(n, boot);
      TailUsed(m, boot);
      TailUsed(n, boot);
      UsedDeterminesMap(m[1..], n[1..], r);
      assert m == [m[0]] + m[1..];
      assert n == [n[0]] + n[1..];
    }
  }

  lemma TailInv(m: seq<Region>, boot: seq<Region>)
    requires m != [] && Inv(m, boot)
    ensures Inv(m[1..], CutOff(boot, m[0]).value)
  {
    forall i, j | 0 <= i && j == i + 1 < |m[1..]| ensures !Touch(m[1..][i], m[1..][j]) {
      assert !Touch(m[i + 1], m[j + 1]);
    }
  }

  lemma TailUsed(m: seq<Region>, boot: seq<Region>)
    requires m != [] && Canonical(boot) && Tiles(m, boot)
    ensures Used(m[1..]) == Used(m) - {m[0]}
  {
    TilesSorted(m, boot);
    assert m[0] !in m[1..];
    assert m == [m[0]] + m[1..];
    UsedAppend([m[0]], m[1..]);
  }

  lemma SameHead(m: seq<Region>, n: seq<Region>, boot: seq<Region>)
    requires m != [] && n != []
    requires Canonical(boot) && Inv(m, boot) && Inv(n, boot) && Used(m) == Used(n)
    ensures m[0] == n[0]
  {
    TilesSorted(m, boot);
    TilesSorted(n, boot);
    if boot[0].kind == FREE {
      if m[0].kind != FREE {
        UsedHead(m, n);
      } else if n[0].kind != FREE {
        UsedHead(n, m);
      } else {
        FreeHeadNotShorter(m, n, boot);
        FreeHeadNotShorter(n, m, boot);
      }
    }
  }

  /** A used first entry is the other table's first entry too, when both start at the same address. */
  lemma UsedHead(m: seq<Region>, n: seq<Region>)
    requires m != [] && n != [] && Sorted(m) && Sorted(n) && m[0].base == n[0].base
    requires m[0].kind != FREE && Used(m) == Used(n)
    ensures m[0] == n[0]
  {
    assert m[0] in Used(n);
    var j :| 0 <= j < |n| && n[j] == m[0];
  }

  lemma FreeHeadNotShorter(m: seq<Region>, n: seq<Region>, boot: seq<Region>)
    requires m != [] && n != [] && Sorted(n)
    requires Canonical(boot) && Inv(m, boot) && Inv(n, boot) && Used(m) == Used(n)
    requires m[0].kind == FREE && n[0].kind == FREE && boot[0].kind == FREE
    ensures m[0].length >= n[0].length
  {
    if m[0].length < n[0].length {
      UsedPieceFollows(m, boot);
      NothingStartsInside(n, m[1]);
    }
  }

  /** The piece after a free piece that leaves some of its boot region is in use. */
  lemma UsedPieceFollows(m: seq<Region>, boot: seq<Region>)
    requires m != [] && Inv(m, boot) && m[0].kind == FREE && m[0].length < boot[0].length
    ensures |m| > 1 && m[1] in Used(m) && m[1].base == m[0].End()
  {
    var r := CutOff(boot, m[0]).value;
    assert Rest(m[1..], r) == Some([]);
    assert CutOff(r, m[1..][0]).Some?;
    assert !Touch(m[0], m[1]);
  }

  lemma NothingStartsInside(n: seq<Region>, e: Region)
    requires n != [] && Sorted(n) && n[0].base < e.base < n[0].End()
    ensures e !in n
  {
    forall j | 0 <= j < |n| ensures n[j] != e {
      assert j > 0 ==> n[0].End() <= n[j].base;
    }
  }

  // ----- Main results -----

  function Releases(addresses: seq<nat>): (qs: seq<Request>)
    ensures |qs| == |addresses|
    ensures forall k :: 0 <= k < |qs| ==> qs[k] == Release(addresses[k])
  {
    if addresses == [] then [] else [Release(addresses[0])] + Releases(addresses[1..])
  }

  /** Freeing a live block takes just that block out of the live set; any other address changes nothing. */
  lemma FreeLive(m: seq<Region>, address: nat, boot: seq<Region>)
    requires Canonical(boot) && Inv(m, boot) && Releasable(boot, address)
    ensures Live(Free(m, address), boot) == set e | e in Live(m, boot) && e.base != address
  {
    InvCanonical(m, boot);
    ReservedKept(m, boot);
    var k := IndexOf(m, address);
    if k == -1 {
      assert forall e :: e in Used(m) ==> e.base != address;
    } else {
      FreeAtUsed(m, k);
      forall e | e in Used(m) && e.base == address ensures e == m[k] {
        var j :| 0 <= j < |m| && m[j] == e;
        assert j == k;
      }
      assert m[k] !in Used(boot);
    }
  }

  lemma {:induction false} ReleasesLive(m: seq<Region>, addresses: seq<nat>, boot: seq<Region>)
    requires Canonical(boot) && Inv(m, boot)
    requires forall a :: a in addresses ==> Releasable(boot, a)
    ensures Inv(ServeAll(m, Releases(addresses)), boot)
    ensures Live(ServeAll(m, Releases(addresses)), boot) == set e | e in Live(m, boot) && e.base !in addresses
    decreases |addresses|
  {
    if addresses != [] {
      var a, rest := addresses[0], addresses[1..];
      FreeInv(m, a, boot);
      FreeLive(m, a, boot);
      ReleasesLive(Free(m, a), rest, boot);
      assert Releases(addresses) == [Release(a)] + Releases(rest);
      assert Releases(addresses)[1..] == Releases(rest);
      assert addresses == [a] + rest;
    }
  }

  /** After any legal run, giving back every live block that has a 32-bit address, in any order and even
      more than once, restores the table the BIOS left, every entry, the count and the acpi fields, if
      and only if no live block lies at or above 4 GiB. */
  lemma FreeingAllRestoresBoot(boot: seq<Region>, qs: seq<Request>, addresses: seq<nat>)
    requires Canonical(boot)
    requires forall q :: q in qs ==> Legal(boot, q)
    requires forall a :: a in addresses ==> Legal(boot, Release(a))
    requires forall e :: e in Live(ServeAll(boot, qs), boot) && e.base < TWO32 ==> e.base in addresses
    ensures ServeAll(ServeAll(boot, qs), Releases(addresses)) == boot <==>
            forall e :: e in Live(ServeAll(boot, qs), boot) ==> e.base < TWO32
  {
    hide Inv, Canonical, Used, ServeAll, Releasable;
    RunKeepsCanonical(boot, qs);
    var m := ServeAll(boot, qs);
    ReleasesLive(m, addresses, boot);
    var n := ServeAll(m, Releases(addresses));
    InvItself(boot);
    if Live(n, boot) == {} {
      SameLive(n, boot, boot);
      forall e | e in Live(m, boot) ensures e.base < TWO32 {
        assert e.base !in addresses ==> e in Live(n, boot);
        assert forall a :: a in addresses ==> Legal(boot, Release(a));
      }
    } else {
      var e :| e in Live(n, boot);
      assert e in Live(m, boot) && e.base !in addresses;
    }
  }

  lemma InvItself(boot: seq<Region>)
    requires Canonical(boot)
    ensures Inv(boot, boot) && Live(boot, boot) == {}
  {
    TilesItself(boot);
  }

  /** Two legal runs that leave the same blocks live leave the same table. */
  lemma SameLiveSameMap(boot: seq<Region>, ps: seq<Request>, qs: seq<Request>)
    requires Canonical(boot)
    requires forall q :: q in ps || q in qs ==> Legal(boot, q)
    requires Live(ServeAll(boot, ps), boot) == Live(ServeAll(boot, qs), boot)
    ensures ServeAll(boot, ps) == ServeAll(boot, qs)
  {
    RunKeepsCanonical(boot, ps);
    RunKeepsCanonical(boot, qs);
    SameLive(ServeAll(boot, ps), ServeAll(boot, qs), boot);
  }

  /** Frees commute, and freeing twice is freeing once. */
  lemma FreesCommute(m: seq<Region>, a: nat, b: nat, boot: seq<Region>)
    requires Canonical(boot) && Inv(m, boot) && Releasable(boot, a) && Releasable(boot, b)
    ensures Free(Free(m, a), b) == Free(Free(m, b), a)
    ensures Free(Free(m, a), a) == Free(m, a)
  {
    var ab, ba := Free(Free(m, a), b), Free(Free(m, b), a);
    FreeInv(m, a, boot);
    FreeInv(m, b, boot);
    FreeInv(Free(m, a), b, boot);
    FreeInv(Free(m, b), a, boot);
    FreeInv(Free(m, a), a, boot);
    FreeLive(m, a, boot);
    FreeLive(m, b, boot);
    FreeLive(Free(m, a), b, boot);
    FreeLive(Free(m, b), a, boot);
    FreeLive(Free(m, a), a, boot);
    SameLive(ab, ba, boot);
    SameLive(Free(Free(m, a), a), Free(m, a), boot);
  }

  lemma SameLive(m: seq<Region>, n: seq<Region>, boot: seq<Region>)
    requires Canonical(boot) && Inv(m, boot) && Inv(n, boot) && Live(m, boot) == Live(n, boot)
    ensures m == n
  {
    ReservedKept(m, boot);
    ReservedKept(n, boot);
    assert Used(m) == Live(m, boot) + Used(boot);
    assert Used(n) == Live(n, boot) + Used(boot);
    UsedDeterminesMap(m, n, boot);
  }
}
