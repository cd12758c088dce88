/** The kernel heap of kernel/pmm.c: blocks with 9-byte headers inside pages of 4096 bytes.

    `cells` holds every header ever written, reachable or not; `chain` is the linked list from
    `heap_head` on, and `last` the place in it of `current_block`, the head of the newest page. */
module HeapBlocks {
  import opened Words

  const HEADER: nat := 9
  const FREE: nat := 1
  const TAKEN: nat := 2

  datatype Cell = Cell(size: nat, kind: nat)

  datatype Heap = Heap(cells: map<nat, Cell>, chain: seq<nat>, last: nat)

  const EMPTY := Heap(map[], [], 0)

  /** One past the payload of block `a`. */
  function End(cells: map<nat, Cell>, a: nat): nat
    requires a in cells
  {
    a + 9 + cells[a].size
  }

  ghost predicate Linked(h: Heap) {
    && (forall i :: 0 <= i < |h.chain| ==> h.chain[i] in h.cells)
    && (h.chain != [] ==> h.last < |h.chain|)
  }

  predicate Fits(c: Cell, size: nat) {
    c.kind == FREE && c.size >= size
  }

  /** The first of the smallest free blocks of `chain` that can hold `size` bytes, or -1. */
  function BestBlock(cells: map<nat, Cell>, chain: seq<nat>, size: nat): (best: int)
    requires forall i :: 0 <= i < |chain| ==> chain[i] in cells
    ensures -1 <= best < |chain|
    ensures best == -1 ==> forall i :: 0 <= i < |chain| ==> !Fits(cells[chain[i]], size)
    ensures best != -1 ==> Fits(cells[chain[best]], size)
    ensures best != -1 ==>
              forall i :: 0 <= i < |chain| && Fits(cells[chain[i]], size) ==>
                cells[chain[best]].size <= cells[chain[i]].size
    ensures best != -1 ==>
              forall i :: 0 <= i < best && Fits(cells[chain[i]], size) ==>
                cells[chain[best]].size < cells[chain[i]].size
  {
    if chain == [] then -1 else
      var n := |chain| - 1;
      var best := BestBlock(cells, chain[..n], size);
      if Fits(cells[chain[n]], size) && (best == -1 || cells[chain[best]].size > cells[chain[n]].size) then n
      else best
  }

  /** Start a new page. Its head becomes the successor of the previous page's head, so whatever
      followed that head in the list is no longer reachable. */
  function AddPage(h: Heap, page: nat): (h': Heap)
    requires Linked(h)
    ensures Linked(h') && h'.chain != []
  {
    var kept := if h.chain == [] then [] else h.chain[..h.last + 1];
    Heap(h.cells[page := Cell(4096 - HEADER, FREE)], kept + [page], |kept|)
  }

  function SplitCells(cells: map<nat, Cell>, a: nat, size: nat): map<nat, Cell>
    requires a in cells && cells[a].size >= size + HEADER
  {
    cells[a + HEADER + size := Cell(cells[a].size - size - HEADER, FREE)][a := Cell(size, TAKEN)]
  }

  /** Hand out block `k` of the list, keeping what is left of it as a new free block if a header fits. */
  function Take(h: Heap, k: nat, size: nat): (h': Heap)
    requires Linked(h) && k < |h.chain|
    ensures Linked(h')
  {
    var a := h.chain[k];
    var c := h.cells[a];
    if c.size >= size + HEADER then
      var rest := a + HEADER + size;
      Heap(SplitCells(h.cells, a, size),
           h.chain[..k + 1] + [rest] + h.chain[k + 1..],
           if k < h.last then h.last + 1 else h.last)
    else
      h.(cells := h.cells[a := c.(kind := TAKEN)])
  }

  /** The heap after `kmalloc` once it has chosen, and the address it returns. */
  datatype Grant = Grant(heap: Heap, address: nat)

  /** `kmalloc` on a heap that has a page already. `page` is what `allocate_page` returns if asked. */
  function TakeBest(h: Heap, size: nat, page: nat): (g: Grant)
    requires Linked(h) && h.chain != []
    ensures Linked(g.heap)
  {
    var best := BestBlock(h.cells, h.chain, size);
    if best != -1 then
      Grant(Take(h, best, size), h.chain[best] + HEADER)
    else
      var h1 := AddPage(h, page);
      Grant(Take(h1, |h1.chain| - 1, size), page + HEADER)
  }

  /** `kfree`: mark the block whose payload starts at `address`, if the list still reaches it. */
  function Kfree(h: Heap, address: nat): (h': Heap)
    requires Linked(h)
    ensures Linked(h')
  {
    var k := Locate(h.chain, address);
    if k == -1 then h else
      h.(cells := h.cells[h.chain[k] := h.cells[h.chain[k]].(kind := FREE)])
  }

  function Locate(chain: seq<nat>, address: nat): (k: int)
    ensures -1 <= k < |chain|
    ensures k == -1 ==> forall i :: 0 <= i < |chain| ==> chain[i] + HEADER != address
    ensures k != -1 ==> chain[k] + HEADER == address && forall i :: 0 <= i < k ==> chain[i] + HEADER != address
  {
    if chain == [] then -1
    else if chain[0] + HEADER == address then 0
    else
      var k := Locate(chain[1..], address);
      if k == -1 then -1 else k + 1
  }

  // ----- Invariant -----

  /** Block `a` lies inside its page, and ends where the next block starts or where the page ends. */
  ghost predicate InPage(cells: map<nat, Cell>, a: nat)
    requires a in cells
  {
    && a != 0 && PageStart(a) in cells
    && End(cells, a) <= PageStart(a) + 4096
    && (End(cells, a) == PageStart(a) + 4096 || End(cells, a) in cells)
  }

  ghost predicate AllInPage(cells: map<nat, Cell>) {
    forall a {:trigger InPage(cells, a)} :: a in cells ==> InPage(cells, a)
  }

  ghost predicate Apart(cells: map<nat, Cell>) {
    forall a, b :: a in cells && b in cells && a < b ==> End(cells, a) <= b
  }

  /** The blocks of every page, detached ones included, tile that page exactly. */
  ghost predicate Tiled(cells: map<nat, Cell>) {
    AllInPage(cells) && Apart(cells)
  }

  ghost predicate Distinct(chain: seq<nat>) {
    forall i, j :: 0 <= i < j < |chain| ==> chain[i] != chain[j]
  }

  /** Every listed block heads a page or starts where the block before it ends. */
  ghost predicate Contiguous(h: Heap)
    requires Linked(h)
  {
    && (h.chain != [] ==> h.chain[0] == PageStart(h.chain[0]))
    && forall i, j :: 0 <= i && j == i + 1 < |h.chain| ==>
         h.chain[j] == PageStart(h.chain[j]) || h.chain[j] == End(h.cells, h.chain[i])
  }

  /** From `current_block` on, the list stays in one page and runs to its last byte. */
  ghost predicate NewestTiled(h: Heap)
    requires Linked(h)
  {
    h.chain != [] ==>
      && h.chain[h.last] == PageStart(h.chain[h.last])
      && (forall i :: h.last < i < |h.chain| ==>
            PageStart(h.chain[i]) == h.chain[h.last] && h.chain[i] != PageStart(h.chain[i]))
      && End(h.cells, h.chain[|h.chain| - 1]) == h.chain[h.last] + 4096
  }

  /** The list is made of page segments in order. Each starts at the head of its page and is contiguous,
      and the segment of `current_block` runs to the end of its page. */
  ghost predicate Segmented(h: Heap)
    requires Linked(h)
  {
    Distinct(h.chain) && Contiguous(h) && NewestTiled(h)
  }

  ghost predicate HeapInv(h: Heap) {
    Linked(h) && Tiled(h.cells) && Segmented(h)
  }

  /** A page the heap does not use yet. */
  ghost predicate NewPage(h: Heap, page: nat) {
    page != 0 && page % 4096 == 0 && page !in h.cells
  }

  lemma PageStartUnique(p: nat, b: nat)
    requires p % 4096 == 0 && p <= b < p + 4096
    ensures PageStart(b) == p
  {
    var q := p / 4096;
    assert p == 4096 * q && b == 4096 * q + (b - p);
    WordBits(q, b - p);
  }

  lemma PageStartAligned(a: nat)
    ensures PageStart(a) % 4096 == 0 && PageStart(a) <= a < PageStart(a) + 4096
    ensures PageStart(PageStart(a)) == PageStart(a)
  {
    var q := a / 4096;
    assert PageStart(a) == 4096 * q + 0;
    WordBits(q, 0);
  }

  lemma AlignedGap(p: nat, q: nat)
    requires p % 4096 == 0 && q % 4096 == 0 && p < q
    ensures p + 4096 <= q
  {
    var i, j := p / 4096, q / 4096;
    assert p == 4096 * i && q == 4096 * j;
    assert i + 1 <= j;
  }

  // ----- A new page -----

  lemma AddPageTiled(h: Heap, page: nat)
    requires HeapInv(h) && NewPage(h, page)
    ensures Tiled(AddPage(h, page).cells)
  {
    var cells := AddPage(h, page).cells;
    PageStartUnique(page, page);
    assert PageStart(page) == page;
    hide PageStart, Segmented, Linked, Apart, AddPage;
    forall a | a in h.cells ensures InPage(cells, a) {
      assert InPage(h.cells, a);
    }
    assert AllInPage(cells);
    AddPageApart(h.cells, cells, page);
  }

  lemma AddPageApart(cells: map<nat, Cell>, cells': map<nat, Cell>, page: nat)
    requires Tiled(cells) && page % 4096 == 0 && page !in cells
    requires cells' == cells[page := Cell(4096 - HEADER, FREE)]
    ensures Apart(cells')
  {
    hide PageStart;
    forall a | a in cells ensures (a < page ==> End(cells, a) <= page) && (page < a ==> page + 4096 <= a) {
      PageApart(cells, a, page);
    }
  }

  /** A page no block is in lies wholly before or wholly after any block. */
  lemma PageApart(cells: map<nat, Cell>, a: nat, page: nat)
    requires Tiled(cells) && page % 4096 == 0 && page !in cells && a in cells
    ensures a < page ==> End(cells, a) <= page
    ensures page < a ==> page + 4096 <= a
  {
    hide PageStart, Apart;
    assert InPage(cells, a);
    PageStartAligned(a);
    if PageStart(a) < page { AlignedGap(PageStart(a), page); } else { AlignedGap(page, PageStart(a)); }
  }

  lemma AddPageSegmented(h: Heap, page: nat)
    requires HeapInv(h) && NewPage(h, page)
    ensures Segmented(AddPage(h, page))
  {
    var h' := AddPage(h, page);
    PageStartUnique(page, page);
    forall i | 0 <= i < |h'.chain| - 1
      ensures h'.chain[i] == h.chain[i] && h'.chain[i] != page && End(h'.cells, h'.chain[i]) == End(h.cells, h.chain[i])
    {
    }
  }

  // ----- Taking a block -----

  lemma SplitPoint(cells: map<nat, Cell>, a: nat, size: nat)
    requires Tiled(cells) && a in cells && cells[a].size >= size + HEADER
    ensures var rest := a + HEADER + size; rest !in cells && PageStart(rest) == PageStart(a) && rest != PageStart(rest)
  {
    hide PageStart;
    assert InPage(cells, a);
    PageStartAligned(a);
    PageStartUnique(PageStart(a), a + HEADER + size);
  }

  lemma SplitTiled(cells: map<nat, Cell>, a: nat, size: nat)
    requires Tiled(cells) && a in cells && cells[a].size >= size + HEADER
    ensures Tiled(SplitCells(cells, a, size))
  {
    hide PageStart, Apart;
    var rest := a + HEADER + size;
    var cells' := SplitCells(cells, a, size);
    SplitPoint(cells, a, size);
    assert InPage(cells, a);
    forall b | b in cells' ensures InPage(cells', b) {
      if b != rest {
        assert InPage(cells, b);
      }
    }
    SplitApart(cells, a, size);
  }

  lemma SplitApart(cells: map<nat, Cell>, a: nat, size: nat)
    requires Apart(cells) && a in cells && cells[a].size >= size + HEADER
    requires a + HEADER + size !in cells
    ensures Apart(SplitCells(cells, a, size))
  {
    var rest := a + HEADER + size;
    var cells' := SplitCells(cells, a, size);
    forall b | b in cells && b != a ensures (b < a && End(cells, b) <= a) || (rest < b && End(cells, a) <= b) {
      assert b < a ==> End(cells, b) <= a;
      assert a < b ==> End(cells, a) <= b;
    }
    forall b, c | b in cells' && c in cells' && b < c ensures End(cells', b) <= c {
      if b != a && b != rest && c != rest {
        assert End(cells, b) <= c;
      }
    }
  }

  /** How a split changes the list: one block more, right after the one taken. */
  ghost predicate SplitStep(h: Heap, k: nat, rest: nat, h': Heap)
    requires Linked(h) && Linked(h') && k < |h.chain|
  {
    && |h'.chain| == |h.chain| + 1
    && (forall i :: 0 <= i <= k ==> h'.chain[i] == h.chain[i])
    && h'.chain[k + 1] == rest
    && (forall i, j :: k < i && j == i + 1 < |h'.chain| ==> h'.chain[j] == h.chain[i])
    && h'.last == (if k < h.last then h.last + 1 else h.last)
    && End(h'.cells, rest) == End(h.cells, h.chain[k]) && End(h'.cells, h.chain[k]) == rest
    && (forall a :: a in h.cells && a != h.chain[k] && a != rest ==>
          a in h'.cells && End(h'.cells, a) == End(h.cells, a))
    && rest !in h.cells && rest != PageStart(rest) && PageStart(rest) == PageStart(h.chain[k])
  }

  lemma InsertedAt(s: seq<nat>, k: nat, x: nat)
    requires k < |s|
    ensures var t := s[..k + 1] + [x] + s[k + 1..];
      && |t| == |s| + 1
      && (forall i :: 0 <= i <= k ==> t[i] == s[i])
      && t[k + 1] == x
      && (forall i, j :: k < i && j == i + 1 < |t| ==> t[j] == s[i])
  {
  }

  lemma SplitEnds(cells: map<nat, Cell>, a: nat, size: nat)
    requires a in cells && cells[a].size >= size + HEADER && a + HEADER + size !in cells
    ensures var rest := a + HEADER + size;
      var cells' := SplitCells(cells, a, size);
      && End(cells', rest) == End(cells, a) && End(cells', a) == rest
      && (forall b :: b in cells && b != a && b != rest ==> b in cells' && End(cells', b) == End(cells, b))
  {
  }

  lemma TakeIsSplitStep(h: Heap, k: nat, size: nat)
    requires HeapInv(h) && k < |h.chain| && h.cells[h.chain[k]].size >= size + HEADER
    ensures SplitStep(h, k, h.chain[k] + HEADER + size, Take(h, k, size))
  {
    hide PageStart, Tiled, Segmented;
    SplitPoint(h.cells, h.chain[k], size);
    InsertedAt(h.chain, k, h.chain[k] + HEADER + size);
    SplitEnds(h.cells, h.chain[k], size);
    hide SplitCells, End;
  }

  lemma SplitDistinct(h: Heap, k: nat, rest: nat, h': Heap)
    requires Linked(h) && Linked(h') && k < |h.chain| && SplitStep(h, k, rest, h') && Distinct(h.chain)
    ensures Distinct(h'.chain)
  {
    hide PageStart;
    forall i, j | 0 <= i < j < |h'.chain| ensures h'.chain[i] != h'.chain[j] {
      if j > k + 1 { assert h'.chain[j] == h.chain[j - 1]; }
      if i > k + 1 { assert h'.chain[i] == h.chain[i - 1]; }
    }
  }

  lemma SplitContiguous(h: Heap, k: nat, rest: nat, h': Heap)
    requires Linked(h) && Linked(h') && k < |h.chain| && SplitStep(h, k, rest, h')
    requires Distinct(h.chain) && Contiguous(h)
    ensures Contiguous(h')
  {
    hide PageStart;
    forall i, j | 0 <= i && j == i + 1 < |h'.chain|
      ensures h'.chain[j] == PageStart(h'.chain[j]) || h'.chain[j] == End(h'.cells, h'.chain[i])
    {
      if i < k {
        assert h.chain[i] != h.chain[k];
      } else if i > k {
        assert h'.chain[j] == h.chain[i];
        if i > k + 1 {
          assert h'.chain[i] == h.chain[i - 1];
          assert h.chain[i - 1] != h.chain[k];
        }
      }
    }
  }

  lemma SplitNewest(h: Heap, k: nat, rest: nat, h': Heap)
    requires Linked(h) && Linked(h') && k < |h.chain| && SplitStep(h, k, rest, h')
    requires Distinct(h.chain) && NewestTiled(h)
    ensures NewestTiled(h')
  {
    hide PageStart;
    assert h'.chain[h'.last] == h.chain[h.last];
    forall i | h'.last < i < |h'.chain|
      ensures PageStart(h'.chain[i]) == h'.chain[h'.last] && h'.chain[i] != PageStart(h'.chain[i])
    {
      if i > k + 1 {
        assert h'.chain[i] == h.chain[i - 1];
      }
    }
    var n := |h.chain|;
    if k + 1 < n {
      assert h'.chain[n] == h.chain[n - 1];
      assert h.chain[n - 1] != h.chain[k];
    }
  }

  lemma TakeSegmented(h: Heap, k: nat, size: nat)
    requires HeapInv(h) && k < |h.chain|
    ensures Segmented(Take(h, k, size))
  {
    hide PageStart, Tiled;
    var a := h.chain[k];
    var h' := Take(h, k, size);
    if h.cells[a].size >= size + HEADER {
      hide Contiguous, NewestTiled, Distinct;
      TakeIsSplitStep(h, k, size);
      SplitDistinct(h, k, a + HEADER + size, h');
      SplitContiguous(h, k, a + HEADER + size, h');
      SplitNewest(h, k, a + HEADER + size, h');
    } else {
      KindSegmented(h, k, TAKEN);
    }
  }

  /** Marking a block free or taken moves nothing. */
  lemma KindSegmented(h: Heap, k: nat, kind: nat)
    requires Linked(h) && Segmented(h) && k < |h.chain|
    ensures Segmented(h.(cells := h.cells[h.chain[k] := h.cells[h.chain[k]].(kind := kind)]))
  {
    hide PageStart;
    var h' := h.(cells := h.cells[h.chain[k] := h.cells[h.chain[k]].(kind := kind)]);
    assert forall i :: 0 <= i < |h.chain| ==> End(h'.cells, h.chain[i]) == End(h.cells, h.chain[i]);
  }

  lemma TakeInv(h: Heap, k: nat, size: nat)
    requires HeapInv(h) && k < |h.chain|
    ensures HeapInv(Take(h, k, size))
  {
    hide PageStart, Tiled, Segmented;
    var a := h.chain[k];
    TakeSegmented(h, k, size);
    if h.cells[a].size >= size + HEADER {
      SplitTiled(h.cells, a, size);
    } else {
      KindTiled(h.cells, a, TAKEN);
    }
  }

  /** Handing out `size` bytes of a block of `n`. If they leave room for a header, the rest is a free block
      of `n - size - 9` bytes, listed right behind; if not, the block is handed out whole. No other
      block changes. */
  lemma TakeSplits(h: Heap, k: nat, size: nat)
    requires HeapInv(h) && k < |h.chain|
    ensures var a, h' := h.chain[k], Take(h, k, size);
      var n, rest := h.cells[a].size, a + 9 + size;
      && (n >= size + 9 ==>
            && rest !in h.cells && h'.cells.Keys == h.cells.Keys + {rest}
            && h'.chain == h.chain[..k + 1] + [rest] + h.chain[k + 1..]
            && h'.cells[a] == Cell(size, 2) && h'.cells[rest] == Cell(n - size - 9, 1))
      && (n < size + 9 ==>
            h'.cells.Keys == h.cells.Keys && h'.chain == h.chain && h'.cells[a] == Cell(n, 2))
      && (forall b :: b in h.cells && b != a ==> h'.cells[b] == h.cells[b])
  {
    hide PageStart, Tiled, Segmented;
    if h.cells[h.chain[k]].size >= size + HEADER {
      SplitPoint(h.cells, h.chain[k], size);
    }
  }

  lemma KindTiled(cells: map<nat, Cell>, a: nat, kind: nat)
    requires Tiled(cells) && a in cells
    ensures Tiled(cells[a := cells[a].(kind := kind)])
  {
    var cells' := cells[a := cells[a].(kind := kind)];
    forall b | b in cells' ensures InPage(cells', b) {
      assert InPage(cells, b);
    }
    forall b, c | b in cells' && c in cells' && b < c ensures End(cells', b) <= c {
      assert End(cells, b) <= c;
    }
  }

  lemma KfreeInv(h: Heap, address: nat)
    requires HeapInv(h)
    ensures HeapInv(Kfree(h, address))
  {
    hide PageStart, Tiled, Segmented;
    var k := Locate(h.chain, address);
    if k != -1 {
      KindTiled(h.cells, h.chain[k], FREE);
      KindSegmented(h, k, FREE);
    }
  }

  lemma TakeBestInv(h: Heap, size: nat, page: nat)
    requires HeapInv(h) && h.chain != []
    requires BestBlock(h.cells, h.chain, size) == -1 ==> NewPage(h, page)
    ensures HeapInv(TakeBest(h, size, page).heap)
  {
    hide PageStart, Tiled, Segmented, BestBlock, Take;
    var best := BestBlock(h.cells, h.chain, size);
    if best != -1 {
      TakeInv(h, best, size);
    } else {
      AddPageTiled(h, page);
      AddPageSegmented(h, page);
      var h1 := AddPage(h, page);
      TakeInv(h1, |h1.chain| - 1, size);
    }
  }
}
