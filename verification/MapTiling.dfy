/** What every run of `Allocate` and `Free` keeps.

    A table *tiles* the boot table when it is the boot table with some of its free regions cut
    into pieces. Tiling is defined by cutting the pieces of the table off the front of the boot
    table, one at a time, so that each operation is a local rewrite of two or three pieces. */
module MapTiling {
  import opened PhysicalMap

  datatype Option<+T> = None | Some(value: T)

  /** Positive lengths, ascending addresses, no overlap, no two free regions left unmerged. */
  ghost predicate Canonical(m: seq<Region>) {
    Sorted(m) && Coalesced(m)
  }

  ghost predicate Sorted(m: seq<Region>) {
    && (forall i :: 0 <= i < |m| ==> m[i].length > 0)
    && (forall i, j :: 0 <= i < j < |m| ==> m[i].End() <= m[j].base)
  }

  ghost predicate Coalesced(m: seq<Region>) {
    forall i, j :: 0 <= i && j == i + 1 < |m| ==> !Touch(m[i], m[j])
  }

  /** Entries that are not free, whether reserved at boot or allocated since. */
  ghost function Used(m: seq<Region>): set<Region> {
    set e | e in m && e.kind != FREE
  }

  /** What is left of `boot` once piece `e` is cut off its front. */
  function CutOff(boot: seq<Region>, e: Region): Option<seq<Region>> {
    if boot == [] then None
    else if boot[0].kind != FREE then
      if e == boot[0] then Some(boot[1..]) else None
    else if e.base == boot[0].base && 0 < e.length <= boot[0].length && e.acpi == boot[0].acpi
            && (e.kind == FREE || e.kind == USED) then
      if e.length == boot[0].length then Some(boot[1..])
      else Some([Region(e.End(), boot[0].length - e.length, FREE, e.acpi)] + boot[1..])
    else None
  }

  /** What is left of `boot` once all pieces of `m` are cut off its front. */
  function Rest(m: seq<Region>, boot: seq<Region>): Option<seq<Region>> {
    if m == [] then Some(boot)
    else match CutOff(boot, m[0])
      case None => None
      case Some(boot') => Rest(m[1..], boot')
  }

  ghost predicate Tiles(m: seq<Region>, boot: seq<Region>) {
    Rest(m, boot) == Some([])
  }

  /** The invariant of the physical allocator. */
  ghost predicate Inv(m: seq<Region>, boot: seq<Region>) {
    Tiles(m, boot) && Coalesced(m)
  }

  lemma {:induction false} RestAppend(a: seq<Region>, b: seq<Region>, boot: seq<Region>)
    ensures Rest(a + b, boot) == match Rest(a, boot) case None => None case Some(r) => Rest(b, r)
  {
    if a == [] {
      assert a + b == b;
    } else {
      assert (a + b)[1..] == a[1..] + b;
      match CutOff(boot, a[0])
      case None =>
      case Some(boot') => RestAppend(a[1..], b, boot');
    }
  }

  lemma {:induction false} TilesItself(boot: seq<Region>)
    requires Canonical(boot)
    ensures Tiles(boot, boot)
  {
    if boot != [] {
      TailCanonical(boot);
      TilesItself(boot[1..]);
    }
  }

  lemma TailCanonical(m: seq<Region>)
    requires m != [] && Canonical(m)
    ensures Canonical(m[1..])
  {
    forall i, j | 0 <= i && j == i + 1 < |m[1..]| ensures !Touch(m[1..][i], m[1..][j]) {
      assert !Touch(m[i + 1], m[j + 1]);
    }
  }

  lemma CutOffCanonical(boot: seq<Region>, e: Region)
    requires Canonical(boot) && CutOff(boot, e).Some?
    ensures Canonical(CutOff(boot, e).value)
    ensures e.base == boot[0].base && e.length > 0 && e.End() <= boot[0].End()
    ensures forall x :: x in CutOff(boot, e).value ==> e.End() <= x.base
  {
    TailCanonical(boot);
    var r := CutOff(boot, e).value;
    if r != boot[1..] {
      forall i, j | 0 <= i && j == i + 1 < |r| ensures !Touch(r[i], r[j]) {
        assert !Touch(boot[i], boot[j]);
      }
    }
  }

  lemma {:induction false} RestCanonical(m: seq<Region>, boot: seq<Region>)
    requires Canonical(boot) && Rest(m, boot).Some?
    ensures Canonical(Rest(m, boot).value)
  {
    if m != [] {
      CutOffCanonical(boot, m[0]);
      RestCanonical(m[1..], CutOff(boot, m[0]).value);
    }
  }

  /** A table that tiles a sorted table is sorted, and stays inside it. */
  lemma {:induction false} TilesSorted(m: seq<Region>, boot: seq<Region>)
    requires Canonical(boot) && Rest(m, boot).Some?
    ensures Sorted(m)
    ensures forall e :: e in m ==> boot != [] && boot[0].base <= e.base
  {
    if m != [] {
      CutOffCanonical(boot, m[0]);
      var r := CutOff(boot, m[0]).value;
      TilesSorted(m[1..], r);
      forall i, j | 0 <= i < j < |m| ensures m[i].End() <= m[j].base {
        assert m[j] == m[1..][j - 1] && m[j] in m[1..];
        assert r[0] in r;
        if i > 0 {
          assert m[i] == m[1..][i - 1];
        }
      }
      forall i | 0 <= i < |m| ensures m[i].length > 0 {
        if i > 0 { assert m[i] == m[1..][i - 1]; }
      }
      forall e | e in m ensures boot[0].base <= e.base {
        if e != m[0] { assert e in m[1..]; assert r[0] in r; }
      }
    }
  }

  lemma InvCanonical(m: seq<Region>, boot: seq<Region>)
    requires Canonical(boot) && Inv(m, boot)
    ensures Canonical(m)
  {
    TilesSorted(m, boot);
  }

  // ----- Rewriting the middle of a table -----

  /** Replacing a middle part by one that cuts the same amount off leaves a tiling. */
  lemma ReplaceMiddle(pre: seq<Region>, before: seq<Region>, after: seq<Region>, post: seq<Region>, boot: seq<Region>)
    requires Canonical(boot) && Tiles(pre + before + post, boot)
    requires forall r :: Canonical(r) && Rest(before, r).Some? ==> Rest(after, r) == Rest(before, r)
    ensures Tiles(pre + after + post, boot)
  {
    RestAppend(pre + before, post, boot);
    RestAppend(pre, before, boot);
    RestCanonical(pre, boot);
    RestAppend(pre, after, boot);
    RestAppend(pre + after, post, boot);
  }

  lemma RestTwo(a: Region, b: Region, boot: seq<Region>)
    ensures Rest([a], boot) == CutOff(boot, a)
    ensures Rest([a, b], boot) == match CutOff(boot, a) case None => None case Some(r) => CutOff(r, b)
  {
    assert [a, b][1..] == [b];
    match CutOff(boot, a)
    case None =>
    case Some(r) => assert Rest([b], r) == CutOff(r, b);
  }

  lemma SplitTiles(m: seq<Region>, k: nat, size: nat, boot: seq<Region>)
    requires Canonical(boot) && Tiles(m, boot)
    requires k < |m| && m[k].kind == FREE && 0 < size < m[k].length
    ensures Tiles(Split(m, k, size), boot)
  {
    var e := m[k];
    var a := Region(e.base, size, USED, e.acpi);
    var b := Region(e.base + size, e.length - size, FREE, e.acpi);
    assert m == m[..k] + [e] + m[k + 1..];
    forall r: seq<Region> | Canonical(r) && Rest([e], r).Some? ensures Rest([a, b], r) == Rest([e], r) {
      RestTwo(a, b, r);
      RestTwo(e, e, r);
      assert CutOff(r, a) == Some([Region(a.End(), r[0].length - size, FREE, a.acpi)] + r[1..]);
      assert ([Region(a.End(), r[0].length - size, FREE, a.acpi)] + r[1..])[1..] == r[1..];
    }
    ReplaceMiddle(m[..k], [e], [a, b], m[k + 1..], boot);
  }

  /** A piece of a free boot region may change between free and in use. */
  lemma FlipTiles(m: seq<Region>, k: nat, kind: nat, boot: seq<Region>)
    requires Canonical(boot) && Tiles(m, boot) && k < |m|
    requires m[k].kind == FREE || m[k] !in Used(boot)
    requires kind == FREE || kind == USED
    ensures Tiles(m[k := m[k].(kind := kind)], boot)
  {
    var e := m[k];
    var e' := e.(kind := kind);
    var pre, post := m[..k], m[k + 1..];
    assert m == pre + [e] + post;
    RestAppend(pre + [e], post, boot);
    RestAppend(pre, [e], boot);
    var r := Rest(pre, boot).value;
    RestTwo(e, e, r);
    RestTwo(e', e', r);
    RestUsed(pre, boot);
    assert r[0] in r;
    RestAppend(pre, [e'], boot);
    RestAppend(pre + [e'], post, boot);
    assert m[k := e'] == pre + [e'] + post;
  }

  /** Cutting never turns a free boot region into a used one. */
  lemma {:induction false} RestUsed(m: seq<Region>, boot: seq<Region>)
    requires Rest(m, boot).Some?
    ensures forall e :: e in Rest(m, boot).value && e.kind != FREE ==> e in Used(boot)
  {
    if m != [] {
      var r := CutOff(boot, m[0]).value;
      assert forall e :: e in r && e.kind != FREE ==> e in boot;
      RestUsed(m[1..], r);
    }
  }

  lemma JoinTiles(m: seq<Region>, k: nat, boot: seq<Region>)
    requires Canonical(boot) && Tiles(m, boot)
    requires k + 1 < |m| && Touch(m[k], m[k + 1])
    ensures Tiles(Join(m, k), boot)
  {
    var a, b := m[k], m[k + 1];
    var c := a.(length := a.length + b.length);
    assert m == m[..k] + [a, b] + m[k + 2..];
    forall r: seq<Region> | Canonical(r) && Rest([a, b], r).Some? ensures Rest([c], r) == Rest([a, b], r) {
      RestTwo(a, b, r);
      RestTwo(c, c, r);
      assert |r| > 1 ==> !Touch(r[0], r[1]);
      var r' := CutOff(r, a).value;
      assert r'[1..] == r[1..];
    }
    ReplaceMiddle(m[..k], [a, b], [c], m[k + 2..], boot);
  }
}
