/** `kmalloc` and `kfree` as they run: headers in memory linked by addresses, searched by loops. */
module HeapAllocator {
  import opened H = HeapBlocks
  import HeapRuns
  import opened Words
  import VP = VirtualPages
  import PageAllocator

  /** A 9-byte header. `next` is an address, 0 standing for NULL. */
  datatype Block = Block(size: nat, kind: nat, next: nat)

  function NextOf(chain: seq<nat>, i: nat): nat
    requires i < |chain|
  {
    if i + 1 < |chain| then chain[i + 1] else 0
  }

  /** The `next` fields spell out `chain`, which has no repetition. */
  ghost predicate SpellsOut(blocks: map<nat, Block>, chain: seq<nat>) {
    && (forall i :: 0 <= i < |chain| ==> chain[i] != 0 && chain[i] in blocks)
    && (forall i {:trigger NextOf(chain, i)} :: 0 <= i < |chain| ==> blocks[chain[i]].next == NextOf(chain, i))
    && (forall i, j :: 0 <= i < j < |chain| ==> chain[i] != chain[j])
  }

  ghost function CellsOf(blocks: map<nat, Block>): (cells: map<nat, Cell>)
    ensures cells.Keys == blocks.Keys
  {
    map a | a in blocks :: Cell(blocks[a].size, blocks[a].kind)
  }

  /** Linking a new block in after number `k`. */
  lemma InsertSpells(blocks: map<nat, Block>, chain: seq<nat>, k: nat, rest: nat, c: Block, d: Block)
    requires SpellsOut(blocks, chain) && k < |chain| && rest != 0 && rest !in blocks
    requires c.next == NextOf(chain, k) && d.next == rest
    ensures SpellsOut(blocks[rest := c][chain[k] := d], chain[..k + 1] + [rest] + chain[k + 1..])
  {
    var chain' := chain[..k + 1] + [rest] + chain[k + 1..];
    var blocks' := blocks[rest := c][chain[k] := d];
    InsertedAt(chain, k, rest);
    forall i | 0 <= i < |chain'|
      ensures chain'[i] != 0 && chain'[i] in blocks' && blocks'[chain'[i]].next == NextOf(chain', i)
    {
      if i > k + 1 {
        assert chain'[i] == chain[i - 1] && chain[i - 1] != chain[k];
        assert NextOf(chain', i) == NextOf(chain, i - 1);
      } else if i < k {
        assert chain[i] != chain[k];
        assert NextOf(chain', i) == NextOf(chain, i);
      }
    }
    forall i, j | 0 <= i < j < |chain'| ensures chain'[i] != chain'[j] {
      if j > k + 1 { assert chain'[j] == chain[j - 1]; }
      if i > k + 1 { assert chain'[i] == chain[i - 1]; }
    }
  }

  /** Changing a block without its link. */
  lemma MarkSpells(blocks: map<nat, Block>, chain: seq<nat>, a: nat, b: Block)
    requires SpellsOut(blocks, chain) && a in blocks && b.next == blocks[a].next
    ensures SpellsOut(blocks[a := b], chain)
  {
  }

  /** Following `next` from block `i` leads to block `i + 1`, or to NULL at the end. */
  lemma Follow(blocks: map<nat, Block>, chain: seq<nat>, i: nat)
    requires SpellsOut(blocks, chain) && i < |chain|
    ensures blocks[chain[i]].next == if i + 1 < |chain| then chain[i + 1] else 0
  {
    assert blocks[chain[i]].next == NextOf(chain, i);
  }

  /** A new page behind block `k`: the rest of the list is cut off. */
  lemma AppendSpells(blocks: map<nat, Block>, chain: seq<nat>, k: nat, page: nat, c: Block, d: Block)
    requires SpellsOut(blocks, chain) && k < |chain| && page != 0 && page !in blocks
    requires c.next == 0 && d.next == page
    ensures SpellsOut(blocks[page := c][chain[k] := d], chain[..k + 1] + [page])
  {
    var chain' := chain[..k + 1] + [page];
    forall i | 0 <= i < k ensures NextOf(chain', i) == NextOf(chain, i) && chain'[i] == chain[i] != chain[k] {
    }
  }

  class KernelHeap {
    const pages: PageAllocator.Pages
    var head: nat
    var current: nat
    var blocks: map<nat, Block>
    ghost var chain: seq<nat>
    ghost var last: nat

    constructor (pages: PageAllocator.Pages)
      ensures this.pages == pages && head == 0 && blocks == map[] && chain == [] && last == 0
    {
      this.pages := pages;
      head, current, blocks, chain, last := 0, 0, map[], [], 0;
    }

    ghost function Cells(): (cells: map<nat, Cell>)
      reads this
    {
      CellsOf(blocks)
    }

    ghost function Model(): Heap
      reads this
    {
      Heap(Cells(), chain, last)
    }

    ghost predicate Valid()
      reads this
    {
      && Linked(Model())
      && head == (if chain == [] then 0 else chain[0])
      && (chain != [] ==> current == chain[last])
      && SpellsOut(blocks, chain)
    }

    /** The search of `kmalloc`: walk the list, keeping the smallest block that fits. */
    method FindBest(size: nat) returns (best: nat, ghost k: int)
      requires Valid()
      ensures k == BestBlock(Cells(), chain, size)
      ensures best == if k == -1 then 0 else chain[k]
      ensures best == 0 <==> k == -1
    {
      best, k := 0, -1;
      var at := head;
      ghost var i := 0;
      while at != 0
        invariant 0 <= i <= |chain|
        invariant at == if i < |chain| then chain[i] else 0
        invariant k == BestBlock(Cells(), chain[..i], size)
        invariant best == if k == -1 then 0 else chain[k]
        decreases |chain| - i
      {
        assert chain[..i + 1][..i] == chain[..i];
        if blocks[at].kind == FREE && blocks[at].size >= size {
          if best == 0 || blocks[best].size > blocks[at].size {
            best, k := at, i;
          }
        }
        Follow(blocks, chain, i);
        at := blocks[at].next;
        i := i + 1;
      }
      assert chain[..i] == chain;
    }

    /** Write the header of a new page and hook it behind the head of the newest page. */
    method AddPage(page: nat)
      requires Valid() && page != 0 && page !in blocks
      modifies this
      ensures Valid() && Model() == H.AddPage(old(Model()), page)
      ensures current == page && chain[|chain| - 1] == page
    {
      var header := Block(4096 - HEADER, FREE, 0);
      if head == 0 {
        blocks := blocks[page := header];
        head := page;
        chain, last := [page], 0;
      } else {
        var behind := blocks[current].(next := page);
        AppendSpells(blocks, chain, last, page, header, behind);
        blocks := blocks[page := header][current := behind];
        chain, last := chain[..last + 1] + [page], last + 1;
      }
      current := page;
      hide SpellsOut;
      assert Cells() == H.AddPage(old(Model()), page).cells;
    }

    /** Hand out block `best`, which is number `k` of the list. */
    method Take(best: nat, size: nat, ghost k: nat)
      requires Valid() && k < |chain| && best == chain[k]
      requires blocks[best].size >= size + HEADER ==> best + HEADER + size !in blocks
      modifies this
      ensures Valid() && Model() == H.Take(old(Model()), k, size)
    {
      if blocks[best].size >= size + HEADER {
        var rest := best + HEADER + size;
        var left := Block(blocks[best].size - size - HEADER, FREE, blocks[best].next);
        var taken := Block(size, TAKEN, rest);
        assert left.next == NextOf(chain, k);
        InsertSpells(blocks, chain, k, rest, left, taken);
        hide SpellsOut;
        ghost var cells := SplitCells(Cells(), best, size);
        blocks := blocks[rest := left][best := taken];
        assert Cells() == cells;
        chain := chain[..k + 1] + [rest] + chain[k + 1..];
        last := if k < last then last + 1 else last;
      } else {
        MarkSpells(blocks, chain, best, blocks[best].(kind := TAKEN));
        hide SpellsOut;
        blocks := blocks[best := blocks[best].(kind := TAKEN)];
        assert Cells() == H.Take(old(Model()), k, size).cells;
      }
    }

    /** The search of `kfree`. */
    method Find(address: nat) returns (at: nat, ghost k: int)
      requires Valid()
      ensures k == Locate(chain, address)
      ensures at == if k == -1 then 0 else chain[k]
    {
      at, k := head, -1;
      ghost var i := 0;
      while at != 0
        invariant 0 <= i <= |chain|
        invariant at == if i < |chain| then chain[i] else 0
        invariant forall j :: 0 <= j < i ==> chain[j] + HEADER != address
        decreases |chain| - i
      {
        if at + HEADER == address {
          k := i;
          return;
        }
        Follow(blocks, chain, i);
        at := blocks[at].next;
        i := i + 1;
      }
    }

    method Kfree(address: nat)
      requires Valid()
      modifies this
      ensures Valid() && Model() == H.Kfree(old(Model()), address)
    {
      ghost var k: int;
      var at;
      at, k := Find(address);
      if at != 0 {
        MarkSpells(blocks, chain, at, blocks[at].(kind := FREE));
        hide SpellsOut;
        blocks := blocks[at := blocks[at].(kind := FREE)];
        assert Cells() == H.Kfree(old(Model()), address).cells;
      }
    }

    ghost predicate AllValid()
      reads this, pages, pages.Repr()
    {
      Valid() && pages.Valid() && HeapInv(Model())
    }

    ghost function Memory(): HeapRuns.Memory
      reads this, pages, pages.Repr()
      requires AllValid()
    {
      HeapRuns.Memory(Model(), pages.Model())
    }

    /** Ask for a page and make it the newest page of the heap. */
    method Grow(flag: nat) returns (page: nat)
      requires AllValid() && IsFlags(flag)
      requires NewPage(Model(), VP.AllocatePage(pages.Model(), flag).page)
      modifies this, pages.Repr()
      ensures AllValid()
      ensures VP.PageGrant(pages.Model(), page) == VP.AllocatePage(old(pages.Model()), flag)
      ensures Model() == H.AddPage(old(Model()), page)
      ensures chain != [] && chain[|chain| - 1] == page
    {
      hide VP.AllocatePage, VP.Ready, Tiled, Segmented, SpellsOut, Linked, CellsOf;
      ghost var h := Model();
      page := pages.AllocatePage(flag);
      assert Model() == h;
      AddPageTiled(h, page);
      AddPageSegmented(h, page);
      AddPage(page);
    }

    /** The first lines of `kmalloc`: the heap gets its first page. */
    method Start(flag: nat)
      requires AllValid() && IsFlags(flag)
      requires chain == [] ==> NewPage(Model(), VP.AllocatePage(pages.Model(), flag).page)
      modifies this, pages.Repr()
      ensures AllValid()
      ensures Memory() == HeapRuns.Start(old(Memory()), flag)
    {
      hide VP.AllocatePage, VP.Ready, Tiled, Segmented, CellsOf, H.AddPage;
      if head == 0 {
        var page := Grow(flag);
      }
    }

    /** The last lines of `kmalloc`. */
    method Serve(best: nat, size: nat, ghost k: nat)
      requires Valid() && HeapInv(Model()) && k < |chain| && best == chain[k]
      modifies this
      ensures Valid() && HeapInv(Model()) && Model() == H.Take(old(Model()), k, size)
    {
      TakeInv(Model(), k, size);
      if Cells()[best].size >= size + HEADER {
        SplitPoint(Cells(), best, size);
      }
      hide Tiled, Segmented, SpellsOut;
      Take(best, size, k);
    }

    /** The middle of `kmalloc`: search, grow if nothing fits, take. */
    method Choose(size: nat, flag: nat) returns (address: nat)
      requires AllValid() && IsFlags(flag) && chain != []
      requires BestBlock(Cells(), chain, size) == -1 ==>
                 NewPage(Model(), VP.AllocatePage(pages.Model(), flag).page)
      modifies this, pages.Repr()
      ensures AllValid()
      ensures HeapRuns.MemoryGrant(Memory(), address) == HeapRuns.Choose(old(Memory()), size, flag)
    {
      hide VP.AllocatePage, VP.Ready, Tiled, Segmented, SpellsOut, CellsOf, H.AddPage, BestBlock, H.Take;
      var best; ghost var k;
      best, k := FindBest(size);
      if best == 0 {
        best := Grow(flag);
        k := |chain| - 1;
      }
      Serve(best, size, k);
      address := best + HEADER;
    }

    method Kmalloc(size: nat, flag: nat) returns (address: nat)
      requires AllValid() && IsFlags(flag)
      requires HeapRuns.PagesNew(Memory(), size, flag)
      modifies this, pages.Repr()
      ensures AllValid()
      ensures HeapRuns.MemoryGrant(Memory(), address) == HeapRuns.Kmalloc(old(Memory()), size, flag)
    {
      hide VP.AllocatePage, VP.Ready, Tiled, Segmented, SpellsOut, CellsOf, H.AddPage, BestBlock, H.Take,
           HeapRuns.Choose;
      if size > 4096 || size == 0 {
        return 0;
      }
      Start(flag);
      address := Choose(size, flag);
    }
  }
}
