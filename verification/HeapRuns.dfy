/** `kmalloc` and `kfree` on top of the page allocator, and what every run of them keeps. */
module HeapRuns {
  import opened HeapBlocks
  import opened Words
  import Frames
  import PT = PageTables
  import VP = VirtualPages
  import PhysicalMap
  import PageRuns
  import FS = FrameSupply

  /** The heap and the page allocator under it. */
  datatype Memory = Memory(heap: Heap, vm: VP.Vm)

  datatype MemoryGrant = MemoryGrant(memory: Memory, address: nat)

  ghost predicate Ready(m: Memory) {
    Linked(m.heap) && VP.Ready(m.vm)
  }

  /** A heap without pages gets one first. */
  function Start(m: Memory, flag: nat): (m': Memory)
    requires Ready(m) && IsFlags(flag)
    ensures Ready(m') && m'.heap.chain != []
  {
    if m.heap.chain != [] then m else
      var g := VP.AllocatePage(m.vm, flag);
      Memory(AddPage(m.heap, g.page), g.vm)
  }

  /** Choose a block on a heap that has a page, asking for another page if none fits. */
  function Choose(m: Memory, size: nat, flag: nat): (g: MemoryGrant)
    requires Ready(m) && IsFlags(flag) && m.heap.chain != []
    ensures Ready(g.memory)
  {
    if BestBlock(m.heap.cells, m.heap.chain, size) == -1 then
      var p := VP.AllocatePage(m.vm, flag);
      var g := TakeBest(m.heap, size, p.page);
      MemoryGrant(Memory(g.heap, p.vm), g.address)
    else
      var g := TakeBest(m.heap, size, 0);
      MemoryGrant(Memory(g.heap, m.vm), g.address)
  }

  function Kmalloc(m: Memory, size: nat, flag: nat): (g: MemoryGrant)
    requires Ready(m) && IsFlags(flag)
    ensures Ready(g.memory)
  {
    if size > 4096 || size == 0 then MemoryGrant(m, 0) else Choose(Start(m, flag), size, flag)
  }

  /** Every page this call has to ask for is granted, and new to the heap: the source checks neither. */
  ghost predicate PagesNew(m: Memory, size: nat, flag: nat)
    requires Ready(m) && IsFlags(flag)
  {
    0 < size <= 4096 ==>
      && (m.heap.chain == [] ==> NewPage(m.heap, VP.AllocatePage(m.vm, flag).page))
      && var m1 := Start(m, flag);
         BestBlock(m1.heap.cells, m1.heap.chain, size) == -1 ==>
           NewPage(m1.heap, VP.AllocatePage(m1.vm, flag).page)
  }

  // ----- What a grant is worth -----

  /** No block ever holds more than a page less its header. */
  lemma SizeBound(h: Heap, a: nat)
    requires HeapInv(h) && a in h.cells
    ensures h.cells[a].size <= 4087
  {
    hide Segmented;
    assert InPage(h.cells, a);
    PageStartAligned(a);
  }

  /** The pages the heap uses. */
  ghost function HeapPages(cells: map<nat, Cell>): set<nat> {
    set a | a in cells :: PageStart(a)
  }

  lemma HeapPagesExtend(cells: map<nat, Cell>, cells': map<nat, Cell>, base: nat)
    requires forall b :: b in cells' ==> b in cells || PageStart(b) == base
    ensures HeapPages(cells') <= HeapPages(cells) + {base}
  {
  }

  lemma NotInHeapPages(cells: map<nat, Cell>, page: nat)
    requires page !in HeapPages(cells) && PageStart(page) == page
    ensures page !in cells
  {
  }

  /** Serving a request takes one block that was free, or new, and leaves every taken block alone. */
  lemma TakeEffect(h: Heap, k: nat, size: nat)
    requires HeapInv(h) && k < |h.chain| && h.cells[h.chain[k]].kind == FREE
    ensures var a := h.chain[k];
      var h' := Take(h, k, size);
      && a in h'.cells && h'.cells[a].kind == TAKEN
      && h'.cells[a].size == (if h.cells[a].size >= size + HEADER then size else h.cells[a].size)
      && (forall b :: b in h.cells && h.cells[b].kind == TAKEN ==> b != a && b in h'.cells && h'.cells[b] == h.cells[b])
      && HeapPages(h'.cells) <= HeapPages(h.cells)
  {
    hide Segmented, Tiled, PageStart;
    var a := h.chain[k];
    if h.cells[a].size >= size + HEADER {
      SplitPoint(h.cells, a, size);
    }
    var h' := Take(h, k, size);
    HeapPagesExtend(h.cells, h'.cells, PageStart(a));
    assert PageStart(a) in HeapPages(h.cells);
  }

  ghost predicate Serves(h: Heap, g: Grant, size: nat) {
    var a := g.address - HEADER;
    && g.address >= HEADER && a in g.heap.cells && g.heap.cells[a].kind == TAKEN
    && (a in h.cells ==> h.cells[a].kind == FREE)
    && (g.heap.cells[a].size >= size <==> size <= 4087)
    && (forall b :: b in h.cells && h.cells[b].kind == TAKEN ==> b in g.heap.cells && g.heap.cells[b] == h.cells[b])
  }

  /** A grant of `size` bytes, 0 < size <= 4096: the block returned is taken, it was not taken before,
      and it holds the bytes asked for exactly when size <= 4087. */
  lemma TakeBestEffect(h: Heap, size: nat, page: nat)
    requires HeapInv(h) && h.chain != [] && 0 < size <= 4096
    requires BestBlock(h.cells, h.chain, size) == -1 ==> NewPage(h, page)
    ensures Serves(h, TakeBest(h, size, page), size)
    ensures HeapPages(TakeBest(h, size, page).heap.cells) <= HeapPages(h.cells)
            + (if BestBlock(h.cells, h.chain, size) == -1 then {page} else {})
  {
    hide Segmented, Tiled, PageStart, Take;
    var best := BestBlock(h.cells, h.chain, size);
    if best != -1 {
      SizeBound(h, h.chain[best]);
      TakeEffect(h, best, size);
    } else {
      AddPageTiled(h, page);
      AddPageSegmented(h, page);
      var h1 := AddPage(h, page);
      TakeEffect(h1, |h1.chain| - 1, size);
      NewPageStart(page);
      HeapPagesExtend(h.cells, h1.cells, page);
    }
  }

  lemma NewPageStart(page: nat)
    requires page % 4096 == 0
    ensures PageStart(page) == page
  {
  }

  /** The part of the list up to block `i` that lies in the page of block `i` starts at that page's head
      and is contiguous: every page's segment tiles a prefix of the page. */
  lemma {:induction false} SegmentPrefix(h: Heap, i: nat) returns (s: nat)
    requires HeapInv(h) && i < |h.chain|
    ensures s <= i && h.chain[s] == PageStart(h.chain[i])
    ensures forall t :: s <= t < i ==>
              h.chain[t + 1] == End(h.cells, h.chain[t]) && PageStart(h.chain[t]) == PageStart(h.chain[i])
  {
    hide PageStart, Apart, NewestTiled, Distinct;
    var a := h.chain[i];
    if a == PageStart(a) {
      s := i;
    } else {
      assert i > 0;
      var b := h.chain[i - 1];
      assert a == End(h.cells, b);
      SamePage(h.cells, b, a);
      s := SegmentPrefix(h, i - 1);
    }
  }

  lemma SamePage(cells: map<nat, Cell>, b: nat, a: nat)
    requires AllInPage(cells) && b in cells && a == End(cells, b) && a != PageStart(a)
    ensures PageStart(b) == PageStart(a)
  {
    assert InPage(cells, b);
    PageStartAligned(b);
    hide AllInPage;
    var p := PageStart(b);
    if a < p + 4096 {
      PageStartUnique(p, a);
    } else {
      NextAligned(p);
    }
  }

  lemma NextAligned(p: nat)
    requires p % 4096 == 0
    ensures PageStart(p + 4096) == p + 4096
  {
  }

  /** Block `k` of the list is the first of the smallest free ones that hold `size` bytes. */
  ghost predicate FirstSmallest(h: Heap, k: nat, size: nat)
    requires Linked(h) && k < |h.chain|
  {
    && Fits(h.cells[h.chain[k]], size)
    && (forall i :: 0 <= i < |h.chain| && Fits(h.cells[h.chain[i]], size) ==>
          h.cells[h.chain[k]].size <= h.cells[h.chain[i]].size)
    && (forall i :: 0 <= i < k && Fits(h.cells[h.chain[i]], size) ==>
          h.cells[h.chain[k]].size < h.cells[h.chain[i]].size)
  }

  /** A heap without pages gets one first, all of it one free block. Then `kmalloc` takes the first of the
      smallest listed free blocks that fit, without asking for a page; when none fits it takes a new page. */
  lemma KmallocBestFit(m: Memory, size: nat, flag: nat)
    requires Ready(m) && IsFlags(flag) && 0 < size <= 4096
    ensures var g, m1 := Kmalloc(m, size, flag), Start(m, flag);
      var h := m1.heap;
      && (if m.heap.chain != [] then m1 == m
          else
            var p := VP.AllocatePage(m.vm, flag);
            m1.vm == p.vm && h.chain == [p.page] && h.cells[p.page] == Cell(4087, FREE))
      && (if exists i :: 0 <= i < |h.chain| && Fits(h.cells[h.chain[i]], size) then
            && g.memory.vm == m1.vm
            && exists k :: 0 <= k < |h.chain| && FirstSmallest(h, k, size) && g.address == h.chain[k] + HEADER
          else
            var p := VP.AllocatePage(m1.vm, flag);
            g.memory.vm == p.vm && g.address == p.page + HEADER)
  {
    hide VP.AllocatePage, VP.Ready, Take;
    var m1 := Start(m, flag);
    var k := BestBlock(m1.heap.cells, m1.heap.chain, size);
    hide AddPage, Start;
    assert k != -1 ==> Fits(m1.heap.cells[m1.heap.chain[k]], size);
    assert k != -1 ==> FirstSmallest(m1.heap, k, size);
  }

  /** Requests for nothing, or for more than a page, are refused: the answer is 0 and nothing changes. */
  lemma KmallocRefuses(m: Memory, size: nat, flag: nat)
    requires Ready(m) && IsFlags(flag)
    ensures size == 0 || size > 4096 ==> Kmalloc(m, size, flag) == MemoryGrant(m, 0)
    ensures 0 < size <= 4096 ==> Kmalloc(m, size, flag).address != 0
  {
    hide VP.AllocatePage, VP.Ready, Take, AddPage, BestBlock;
  }

  /** What one request leaves over serves the next: if the block taken has room for both and their
      headers, no page is asked for. */
  lemma RestServes(h: Heap, k: nat, size: nat, more: nat)
    requires HeapInv(h) && k < |h.chain| && h.cells[h.chain[k]].size >= size + 9 + more
    ensures var h' := Take(h, k, size); BestBlock(h'.cells, h'.chain, more) != -1
  {
    TakeSplits(h, k, size);
    hide HeapInv, Take;
    var h' := Take(h, k, size);
    assert h'.chain[k + 1] == h.chain[k] + 9 + size;
    assert Fits(h'.cells[h'.chain[k + 1]], more);
  }

  /** Two requests in a row that fit one page, on a heap without pages: they are served side by side in
      the first page, which is the only one asked for. */
  lemma SideBySide(m: Memory, size: nat, more: nat, flag: nat)
    requires Ready(m) && IsFlags(flag) && HeapInv(m.heap) && m.heap.chain == []
    requires 0 < size && 0 < more && size + 9 + more <= 4087
    requires NewPage(m.heap, VP.AllocatePage(m.vm, flag).page)
    ensures var p := VP.AllocatePage(m.vm, flag);
      var g := Kmalloc(m, size, flag);
      var g' := Kmalloc(g.memory, more, flag);
      && g.address == p.page + 9 && g'.address == p.page + 9 + size + 9
      && g.memory.vm == p.vm && g'.memory.vm == p.vm
  {
    hide VP.AllocatePage, VP.Ready, PageStart, Tiled, Segmented, TakeBest, BestBlock;
    var p := VP.AllocatePage(m.vm, flag);
    FirstPageFits(m.heap, p.page, size);
    var h := AddPage(m.heap, p.page);
    assert h.chain == [p.page] && h.cells[p.page] == Cell(4087, FREE);
    hide AddPage;
    TakeOnly(h, size, 0);
    var h' := TakeBest(h, size, 0).heap;
    TakeSecond(h', more, 0);
    assert BestBlock(h'.cells, h'.chain, more) != -1;
  }

  /** Serving from a list of one free block. */
  lemma TakeOnly(h: Heap, size: nat, page: nat)
    requires HeapInv(h) && |h.chain| == 1 && Fits(h.cells[h.chain[0]], size + 9)
    ensures var a, g := h.chain[0], TakeBest(h, size, page);
      && g.address == a + 9 && g.heap.chain == [a, a + 9 + size]
      && g.heap.cells[a].kind == TAKEN
      && g.heap.cells[a + 9 + size] == Cell(h.cells[a].size - size - 9, FREE)
  {
    hide Tiled, Segmented, Take;
    TakeSplits(h, 0, size);
  }

  /** Serving from a list of a taken block and a free one. */
  lemma TakeSecond(h: Heap, size: nat, page: nat)
    requires Linked(h) && |h.chain| == 2 && h.cells[h.chain[0]].kind == TAKEN && Fits(h.cells[h.chain[1]], size)
    ensures BestBlock(h.cells, h.chain, size) == 1 && TakeBest(h, size, page).address == h.chain[1] + 9
  {
    hide Take;
    assert Fits(h.cells[h.chain[1]], size);
  }

  /** `kfree` frees the block whose payload starts at `address` exactly when the list still reaches it;
      otherwise, and for every other block, nothing changes. */
  lemma KfreeEffect(h: Heap, address: nat)
    requires HeapInv(h) && address >= HEADER && address - HEADER in h.cells
    ensures var h' := Kfree(h, address);
      var a := address - HEADER;
      && h'.chain == h.chain && h'.cells.Keys == h.cells.Keys
      && h'.cells[a] == (if a in h.chain then h.cells[a].(kind := FREE) else h.cells[a])
      && forall b :: b in h.cells && b != a ==> h'.cells[b] == h.cells[b]
  {
    hide Tiled, Segmented;
  }

  /** Starting a page detaches exactly the blocks listed after the head of the newest page. */
  lemma AddPageDetaches(h: Heap, page: nat, i: nat)
    requires HeapInv(h) && NewPage(h, page) && i < |h.chain|
    ensures h.chain[i] in AddPage(h, page).chain <==> i <= h.last
    ensures h.chain[i] in AddPage(h, page).cells
  {
    hide Tiled, Contiguous, NewestTiled;
    var chain := AddPage(h, page).chain;
    if i <= h.last {
      assert chain[i] == h.chain[i];
    } else {
      forall j | 0 <= j < |chain| ensures chain[j] != h.chain[i] {
        if j <= h.last {
          assert chain[j] == h.chain[j];
        } else {
          assert chain[j] == page;
        }
      }
    }
  }

  // ----- Live payloads -----

  /** Every payload handed out and not given back is inside a taken block of its own. */
  ghost predicate LiveInv(cells: map<nat, Cell>, live: map<nat, nat>) {
    forall p :: p in live ==>
      && p >= HEADER && p - HEADER in cells && cells[p - HEADER].kind == TAKEN
      && 0 < live[p] <= cells[p - HEADER].size
  }

  /** A listed block is taken exactly when its payload is in use; otherwise it is free. */
  ghost predicate ListedInv(h: Heap, live: map<nat, nat>)
    requires Linked(h)
  {
    forall a :: a in h.chain ==> h.cells[a].kind == if a + HEADER in live then TAKEN else FREE
  }

  lemma TakeListed(h: Heap, k: nat, size: nat, live: map<nat, nat>)
    requires HeapInv(h) && k < |h.chain| && LiveInv(h.cells, live) && ListedInv(h, live)
    ensures ListedInv(Take(h, k, size), live[h.chain[k] + HEADER := size])
  {
    hide PageStart, Tiled, Segmented, Take;
    TakeSplits(h, k, size);
    var a, h', live' := h.chain[k], Take(h, k, size), live[h.chain[k] + HEADER := size];
    forall b | b in h'.chain ensures h'.cells[b].kind == if b + HEADER in live' then TAKEN else FREE {
      if b in h.cells {
        assert b in h.chain by {
          TakeLists(h, k, size, b);
        }
      } else {
        assert b == a + 9 + size;
        NotLive(h.cells, live, b);
      }
    }
  }

  lemma NotLive(cells: map<nat, Cell>, live: map<nat, nat>, a: nat)
    requires LiveInv(cells, live) && a !in cells
    ensures a + HEADER !in live
  {
  }

  /** Only the rest of a split block is new to the list. */
  lemma TakeLists(h: Heap, k: nat, size: nat, b: nat)
    requires HeapInv(h) && k < |h.chain| && b in Take(h, k, size).chain && b in h.cells
    ensures b in h.chain
  {
    TakeSplits(h, k, size);
    hide HeapInv, Take;
  }

  lemma AddPageListed(h: Heap, page: nat, live: map<nat, nat>)
    requires Linked(h) && page !in h.cells && LiveInv(h.cells, live) && ListedInv(h, live)
    ensures ListedInv(AddPage(h, page), live)
  {
  }

  lemma KfreeListed(h: Heap, address: nat, live: map<nat, nat>)
    requires Linked(h) && Distinct(h.chain) && ListedInv(h, live)
    ensures ListedInv(Kfree(h, address), live - {address})
  {
  }

  lemma TakeBestListed(h: Heap, size: nat, page: nat, live: map<nat, nat>)
    requires HeapInv(h) && h.chain != [] && LiveInv(h.cells, live) && ListedInv(h, live)
    requires BestBlock(h.cells, h.chain, size) == -1 ==> NewPage(h, page)
    ensures var g := TakeBest(h, size, page); ListedInv(g.heap, live[g.address := size])
  {
    hide PageStart, Tiled, Segmented, BestBlock, Take, ListedInv;
    var best := BestBlock(h.cells, h.chain, size);
    if best != -1 {
      TakeListed(h, best, size, live);
    } else {
      AddPageTiled(h, page);
      AddPageSegmented(h, page);
      AddPageListed(h, page, live);
      var h1 := AddPage(h, page);
      LiveCarries(h.cells, h1.cells, live);
      TakeListed(h1, |h1.chain| - 1, size, live);
    }
  }

  /** Live payloads are disjoint from each other and from every header ever written, those of blocks
      the list has lost included. */
  lemma LivePayloadsSafe(h: Heap, live: map<nat, nat>)
    requires HeapInv(h) && LiveInv(h.cells, live)
    ensures forall p, q :: p in live && q in live && p != q ==> p + live[p] <= q || q + live[q] <= p
    ensures forall p, a :: p in live && a in h.cells ==> p + live[p] <= a || a + HEADER <= p
    ensures forall p :: p in live ==>
              p >= HEADER && PageStart(p - HEADER) < p && p + live[p] <= PageStart(p - HEADER) + 4096
  {
    hide Segmented, PageStart, AllInPage, Apart, LiveInv;
    forall p, a | p in live && a in h.cells ensures p + live[p] <= a || a + HEADER <= p {
      PayloadMissesHeader(h.cells, live, p, a);
    }
    forall p | p in live
      ensures p >= HEADER && PageStart(p - HEADER) < p && p + live[p] <= PageStart(p - HEADER) + 4096
    {
      PayloadInPage(h.cells, live, p);
    }
    forall p, q | p in live && q in live && p != q ensures p + live[p] <= q || q + live[q] <= p {
      PayloadsMiss(h.cells, live, p, q);
    }
  }

  lemma PayloadMissesHeader(cells: map<nat, Cell>, live: map<nat, nat>, p: nat, a: nat)
    requires Apart(cells) && LiveInv(cells, live) && p in live && a in cells
    ensures p >= HEADER && (p + live[p] <= a || a + HEADER <= p)
  {
    assert a < p - HEADER ==> End(cells, a) <= p - HEADER;
    assert p - HEADER < a ==> End(cells, p - HEADER) <= a;
  }

  lemma PayloadsMiss(cells: map<nat, Cell>, live: map<nat, nat>, p: nat, q: nat)
    requires Apart(cells) && LiveInv(cells, live) && p in live && q in live && p != q
    ensures p + live[p] <= q || q + live[q] <= p
  {
    assert p < q ==> End(cells, p - HEADER) <= q - HEADER;
    assert q < p ==> End(cells, q - HEADER) <= p - HEADER;
  }

  lemma PayloadInPage(cells: map<nat, Cell>, live: map<nat, nat>, p: nat)
    requires AllInPage(cells) && LiveInv(cells, live) && p in live
    ensures p >= HEADER && PageStart(p - HEADER) < p && p + live[p] <= PageStart(p - HEADER) + 4096
  {
    LiveInPage(cells, p - HEADER);
    hide PageStart, AllInPage;
  }

  lemma LiveInPage(cells: map<nat, Cell>, a: nat)
    requires AllInPage(cells) && a in cells
    ensures PageStart(a) <= a && End(cells, a) <= PageStart(a) + 4096
  {
    PageStartAligned(a);
    hide PageStart;
    assert InPage(cells, a);
  }

  // ----- Runs -----

  /** Requests to the heap, and those of everybody else to the page allocator under it. */
  datatype HeapOp = Malloc(size: nat, flag: nat) | Release(address: nat) | Pages(op: PageRuns.PageOp)

  /** Memory, the pages held by the heap and by others, and the payloads in use with the bytes asked for. */
  datatype State = State(memory: Memory, granted: set<nat>, live: map<nat, nat>)

  /** The page allocator can serve one more page and map it; the source does not check. */
  ghost predicate PageReady(vm: VP.Vm, flag: nat)
    requires VP.Ready(vm)
  {
    && IsFlags(flag) && IsPresent(VP.EffectiveFlags(flag))
    && (vm.stack == [] ==> vm.next + 4096 < PhysicalMap.TWO32)
    && var g := VP.AllocatePage(vm, flag);
       g.page != 0 && g.page < PhysicalMap.TWO32 && PT.GetMap(g.vm.mmu, g.page) != 0
  }

  ghost predicate NeedsPage(m: Memory, size: nat)
    requires Ready(m)
  {
    BestBlock(m.heap.cells, m.heap.chain, size) == -1
  }

  /** Requests a page can hold, with a page to be had when one is needed; and page requests of owners that
      give back no page of the heap. */
  ghost predicate Allowed(s: State, op: HeapOp)
    requires Ready(s.memory)
  {
    match op
    case Malloc(size, flag) =>
      0 < size <= 4087 && IsFlags(flag) && (NeedsPage(s.memory, size) ==> PageReady(s.memory.vm, flag))
    case Release(address) => true
    case Pages(op) =>
      PageRuns.Allowed(Holding(s), op) && (op.GivePage? ==> op.page !in HeapPages(s.memory.heap.cells))
  }

  ghost function Holding(s: State): PageRuns.Holding {
    PageRuns.Holding(s.memory.vm, s.granted)
  }

  ghost function Perform(s: State, op: HeapOp): (s': State)
    requires Ready(s.memory) && Allowed(s, op)
    ensures Ready(s'.memory)
  {
    match op
    case Malloc(size, flag) =>
      var g := Kmalloc(s.memory, size, flag);
      var page := VP.AllocatePage(s.memory.vm, flag).page;
      State(g.memory, if NeedsPage(s.memory, size) then s.granted + {page} else s.granted, s.live[g.address := size])
    case Release(address) =>
      State(s.memory.(heap := Kfree(s.memory.heap, address)), s.granted, s.live - {address})
    case Pages(op) =>
      PageRuns.PerformReady(Holding(s), op);
      var h := PageRuns.Perform(Holding(s), op);
      State(s.memory.(vm := h.vm), h.granted, s.live)
  }

  /** Heap pages are pages in hand, and mapped. */
  ghost predicate PagesHeld(s: State)
    requires Ready(s.memory)
  {
    forall p :: p in HeapPages(s.memory.heap.cells) ==>
      p in s.granted && p < PhysicalMap.TWO32 && PT.GetMap(s.memory.vm.mmu, p) != 0
  }

  ghost predicate StateInv(s: State, boot: seq<PhysicalMap.Region>, image: nat) {
    && Ready(s.memory)
    && HeapInv(s.memory.heap)
    && VP.Owns(s.memory.vm, s.granted, boot, image)
    && PagesHeld(s)
    && LiveInv(s.memory.heap.cells, s.live)
    && ListedInv(s.memory.heap, s.live)
  }

  lemma KfreeLive(h: Heap, live: map<nat, nat>, address: nat)
    requires Linked(h) && LiveInv(h.cells, live)
    ensures LiveInv(Kfree(h, address).cells, live - {address})
    ensures Kfree(h, address).cells.Keys == h.cells.Keys
  {
    var k := Locate(h.chain, address);
    if k == -1 {
      FewerLive(h.cells, live, address);
    } else {
      KindLive(h.cells, live, h.chain[k]);
    }
    hide LiveInv;
  }

  lemma FewerLive(cells: map<nat, Cell>, live: map<nat, nat>, address: nat)
    requires LiveInv(cells, live)
    ensures LiveInv(cells, live - {address})
  {
  }

  lemma KindLive(cells: map<nat, Cell>, live: map<nat, nat>, a: nat)
    requires LiveInv(cells, live) && a in cells
    ensures LiveInv(cells[a := cells[a].(kind := FREE)], live - {a + HEADER})
  {
  }

  lemma ReleaseListed(h: Heap, live: map<nat, nat>, address: nat)
    requires HeapInv(h) && ListedInv(h, live)
    ensures ListedInv(Kfree(h, address), live - {address})
  {
    KfreeListed(h, address, live);
    hide ListedInv, Kfree;
  }

  lemma ReleaseKeeps(s: State, address: nat, boot: seq<PhysicalMap.Region>, image: nat)
    requires StateInv(s, boot, image)
    ensures StateInv(Perform(s, Release(address)), boot, image)
  {
    hide PageStart, HeapInv, VP.Owns, LiveInv, ListedInv, Kfree, VP.Ready, PT.GetMap;
    KfreeInv(s.memory.heap, address);
    KfreeLive(s.memory.heap, s.live, address);
    ReleaseListed(s.memory.heap, s.live, address);
    assert HeapPages(Kfree(s.memory.heap, address).cells) == HeapPages(s.memory.heap.cells);
  }

  /** What others ask of the page allocator leaves the pages of the heap in hand and mapped as they were. */
  lemma PagesKeeps(s: State, op: PageRuns.PageOp, boot: seq<PhysicalMap.Region>, image: nat)
    requires StateInv(s, boot, image) && Allowed(s, Pages(op))
    ensures StateInv(Perform(s, Pages(op)), boot, image)
  {
    var h, vm := Holding(s), s.memory.vm;
    hide PageStart, HeapInv, LiveInv, ListedInv, VP.Owns, VP.AllocatePage, VP.AllocatePagesContig, VP.FreePage, PT.Pte,
         PageRuns.MappedRun, PageRuns.FlagsAre, PageRuns.LastMapped;
    PageRuns.PerformReady(h, op);
    match op {
      case GetPage(flag) => VP.AllocatePageOwns(vm, flag, s.granted, boot, image);
      case GetPages(count, flag) => PageRuns.ContigOwns(vm, count, flag, s.granted, boot, image);
      case GivePage(page) => VP.FreePageReturns(vm, page, s.granted, boot, image);
    }
    forall p | p in HeapPages(s.memory.heap.cells)
      ensures PT.GetMap(PageRuns.Perform(h, op).vm.mmu, p) == PT.GetMap(vm.mmu, p)
    {
      assert p in s.granted && p < PhysicalMap.TWO32;
    }
  }

  /** A page can be had, and mapped, exactly when there is a frame for it and one for its table. */
  lemma PageReadyExactly(vm: VP.Vm, flag: nat, granted: set<nat>, boot: seq<PhysicalMap.Region>, image: nat)
    requires VP.Ready(vm) && VP.Owns(vm, granted, boot, image)
    requires IsFlags(flag) && IsPresent(VP.EffectiveFlags(flag))
    requires vm.stack == [] ==> vm.next + 4096 < PhysicalMap.TWO32
    requires |vm.mmu.regions| + FS.Needed(FS.Tables(vm.mmu), VP.PickPage(vm).page, 1) <= PhysicalMap.MAX_ENTRIES
    ensures PageReady(vm, flag) <==> FS.Supplied(vm.mmu, VP.PickPage(vm).page, 1)
  {
    hide VP.AllocatePage, VP.Owns, PT.Pte, PhysicalMap.Allocate, FS.Needed, FS.Tables, FS.Available;
    VP.AllocatePageOwns(vm, flag, granted, boot, image);
    FS.PageSpends(vm, flag, granted, boot, image);
  }

  /** A page granted to the heap is new to it. */
  lemma PageIsNew(s: State, flag: nat, boot: seq<PhysicalMap.Region>, image: nat)
    requires StateInv(s, boot, image) && PageReady(s.memory.vm, flag)
    ensures var g := VP.AllocatePage(s.memory.vm, flag);
      && NewPage(s.memory.heap, g.page)
      && VP.Owns(g.vm, s.granted + {g.page}, boot, image)
      && (forall p :: p in HeapPages(s.memory.heap.cells) ==> PT.GetMap(g.vm.mmu, p) != 0)
  {
    VP.AllocatePageOwns(s.memory.vm, flag, s.granted, boot, image);
    var g := VP.AllocatePage(s.memory.vm, flag);
    hide PageStart, HeapInv, LiveInv, VP.AllocatePage, PT.Pte;
    NewPageStart(g.page);
    NotInHeapPages(s.memory.heap.cells, g.page);
  }

  /** A fresh page serves any request a page can hold. */
  lemma FirstPageFits(h: Heap, page: nat, size: nat)
    requires HeapInv(h) && h.chain == [] && NewPage(h, page) && size <= 4087
    ensures var h1 := AddPage(h, page);
      HeapInv(h1) && h1.chain != [] && BestBlock(h1.cells, h1.chain, size) != -1
      && HeapPages(h1.cells) <= HeapPages(h.cells) + {page}
      && (forall a :: a in h.cells ==> a in h1.cells && h1.cells[a] == h.cells[a])
  {
    AddPageTiled(h, page);
    AddPageSegmented(h, page);
    var h1 := AddPage(h, page);
    NewPageStart(page);
    HeapPagesExtend(h.cells, h1.cells, page);
    assert Fits(h1.cells[h1.chain[0]], size);
  }

  /** Handing out a block keeps the live payloads and adds one. */
  lemma TakeBestLive(h: Heap, size: nat, page: nat, live: map<nat, nat>)
    requires HeapInv(h) && h.chain != [] && 0 < size <= 4087 && LiveInv(h.cells, live)
    requires BestBlock(h.cells, h.chain, size) == -1 ==> NewPage(h, page)
    ensures var g := TakeBest(h, size, page);
      HeapInv(g.heap) && g.address !in live && LiveInv(g.heap.cells, live[g.address := size])
  {
    hide Tiled, Segmented, TakeBest, BestBlock;
    TakeBestInv(h, size, page);
    TakeBestEffect(h, size, page);
    FreeNotLive(h.cells, live, TakeBest(h, size, page).address - HEADER);
  }

  lemma FreeNotLive(cells: map<nat, Cell>, live: map<nat, nat>, a: nat)
    requires LiveInv(cells, live) && (a in cells ==> cells[a].kind == FREE)
    ensures a + HEADER !in live
  {
  }

  /** The heap `kmalloc` chooses from, and the page it may take. */
  lemma KmallocCases(m: Memory, size: nat, flag: nat)
    requires Ready(m) && IsFlags(flag) && 0 < size <= 4087
    ensures var p := VP.AllocatePage(m.vm, flag);
      var h1 := if m.heap.chain == [] then AddPage(m.heap, p.page) else m.heap;
      var page := if m.heap.chain != [] && NeedsPage(m, size) then p.page else 0;
      (m.heap.chain == [] ==> BestBlock(h1.cells, h1.chain, size) != -1) ==>
        && Linked(h1) && h1.chain != []
        && Kmalloc(m, size, flag) ==
           MemoryGrant(Memory(TakeBest(h1, size, page).heap, if NeedsPage(m, size) then p.vm else m.vm),
                       TakeBest(h1, size, page).address)
  {
    hide VP.AllocatePage, VP.Ready, TakeBest;
  }

  /** Whichever heap `kmalloc` chooses from, handing out its best block keeps the invariant. */
  lemma ServeKeeps(h: Heap, vm: VP.Vm, size: nat, page: nat, granted: set<nat>, live: map<nat, nat>,
                   boot: seq<PhysicalMap.Region>, image: nat)
    requires HeapInv(h) && h.chain != [] && 0 < size <= 4087 && LiveInv(h.cells, live) && ListedInv(h, live)
    requires VP.Ready(vm) && VP.Owns(vm, granted, boot, image)
    requires BestBlock(h.cells, h.chain, size) == -1 ==>
               NewPage(h, page) && page in granted && page < PhysicalMap.TWO32 && PT.GetMap(vm.mmu, page) != 0
    requires forall p :: p in HeapPages(h.cells) ==>
               p in granted && p < PhysicalMap.TWO32 && PT.GetMap(vm.mmu, p) != 0
    ensures var g := TakeBest(h, size, page);
      StateInv(State(Memory(g.heap, vm), granted, live[g.address := size]), boot, image)
  {
    hide PageStart, VP.Ready, VP.Owns, TakeBest, PT.GetMap, LiveInv, ListedInv, Tiled, Segmented, BestBlock, HeapPages;
    TakeBestLive(h, size, page, live);
    TakeBestListed(h, size, page, live);
    TakeBestEffect(h, size, page);
  }

  lemma MallocKeeps(s: State, size: nat, flag: nat, boot: seq<PhysicalMap.Region>, image: nat)
    requires StateInv(s, boot, image) && Allowed(s, Malloc(size, flag))
    ensures StateInv(Perform(s, Malloc(size, flag)), boot, image)
  {
    var m := s.memory;
    KmallocCases(m, size, flag);
    var p := VP.AllocatePage(m.vm, flag);
    if !NeedsPage(m, size) {
      hide PageStart, VP.Ready, VP.Owns, TakeBest, PT.GetMap, Kmalloc, LiveInv, ListedInv, Tiled, Segmented, HeapPages;
      ServeKeeps(m.heap, m.vm, size, 0, s.granted, s.live, boot, image);
    } else if m.heap.chain == [] {
      hide PageStart, VP.Ready, VP.Owns, TakeBest, PT.GetMap, Kmalloc, LiveInv, ListedInv, Tiled, Segmented,
           BestBlock, HeapPages, AddPage;
      PageIsNew(s, flag, boot, image);
      FirstPageFits(m.heap, p.page, size);
      var h1 := AddPage(m.heap, p.page);
      LiveCarries(m.heap.cells, h1.cells, s.live);
      PageListed(m.heap, p.page, s.live);
      ServeKeeps(h1, p.vm, size, 0, s.granted + {p.page}, s.live, boot, image);
    } else {
      hide PageStart, VP.Ready, VP.Owns, TakeBest, PT.GetMap, Kmalloc, LiveInv, ListedInv, Tiled, Segmented,
           BestBlock, HeapPages;
      PageIsNew(s, flag, boot, image);
      ServeKeeps(m.heap, p.vm, size, p.page, s.granted + {p.page}, s.live, boot, image);
    }
  }

  lemma PageListed(h: Heap, page: nat, live: map<nat, nat>)
    requires HeapInv(h) && NewPage(h, page) && LiveInv(h.cells, live) && ListedInv(h, live)
    ensures ListedInv(AddPage(h, page), live)
  {
    AddPageListed(h, page, live);
    hide ListedInv, AddPage;
  }

  lemma LiveCarries(cells: map<nat, Cell>, cells': map<nat, Cell>, live: map<nat, nat>)
    requires LiveInv(cells, live)
    requires forall a :: a in cells ==> a in cells' && cells'[a] == cells[a]
    ensures LiveInv(cells', live)
  {
  }

  ghost predicate AllowedRun(s: State, ops: seq<HeapOp>)
    requires Ready(s.memory)
    decreases |ops|
  {
    ops != [] ==> Allowed(s, ops[0]) && AllowedRun(Perform(s, ops[0]), ops[1..])
  }

  ghost function PerformAll(s: State, ops: seq<HeapOp>): State
    requires Ready(s.memory) && AllowedRun(s, ops)
    decreases |ops|
  {
    if ops == [] then s else PerformAll(Perform(s, ops[0]), ops[1..])
  }

  /** Every run of `kmalloc` (1 to 4087 bytes) and `kfree`, with page requests of others in between, keeps
      the blocks of each page tiling it, the list in page segments, the heap on mapped pages of its own,
      and every live payload in one block. */
  lemma {:induction false} RunKeeps(s: State, ops: seq<HeapOp>, boot: seq<PhysicalMap.Region>, image: nat)
    requires StateInv(s, boot, image) && AllowedRun(s, ops)
    ensures StateInv(PerformAll(s, ops), boot, image)
    decreases |ops|
  {
    if ops != [] {
      hide StateInv, Allowed, Perform;
      match ops[0] {
        case Malloc(size, flag) => MallocKeeps(s, size, flag, boot, image);
        case Release(address) => ReleaseKeeps(s, address, boot, image);
        case Pages(op) => PagesKeeps(s, op, boot, image);
      }
      RunKeeps(Perform(s, ops[0]), ops[1..], boot, image);
    }
  }

  /** So over any such run live payloads never overlap each other or a header, and a block the list
      reaches is taken exactly when its payload is live: nothing listed is lost or handed out twice. */
  lemma RunSafe(s: State, ops: seq<HeapOp>, boot: seq<PhysicalMap.Region>, image: nat)
    requires StateInv(s, boot, image) && AllowedRun(s, ops)
    ensures var s' := PerformAll(s, ops);
      && (forall p, q :: p in s'.live && q in s'.live && p != q ==>
            p + s'.live[p] <= q || q + s'.live[q] <= p)
      && (forall p, a :: p in s'.live && a in s'.memory.heap.cells ==>
            p + s'.live[p] <= a || a + HEADER <= p)
      && (forall a :: a in s'.memory.heap.chain ==>
            a in s'.memory.heap.cells && s'.memory.heap.cells[a].kind == if a + 9 in s'.live then 2 else 1)
  {
    RunKeeps(s, ops, boot, image);
    var s' := PerformAll(s, ops);
    LivePayloadsSafe(s'.memory.heap, s'.live);
  }

  /** The heap at boot, on the page allocator at boot: no page, nothing live. */
  lemma BootStateInv(boot: seq<PhysicalMap.Region>, image: nat, next: nat)
    requires Frames.FrameMap(boot, boot, image) && image % 4096 == 0
    requires next % 4096 == 0 && 0 < next < PhysicalMap.TWO32
    ensures StateInv(State(Memory(EMPTY, VP.Vm(PT.FirstPage(boot, image), next, [])), {}, map[]), boot, image)
  {
    PageRuns.BootOwns(boot, image, next);
    hide PT.FirstPage, VP.Owns, VP.Ready, Frames.FrameMap;
  }
}
