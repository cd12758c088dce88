/** The stack half of `sys_fork` (kernel/syscall.c): the live part of the parent's user stack is copied
    into the child's page, then the chain of saved frame pointers is walked and moved along.

    A stack page is 1024 words; `top` is the address just past it. */
module ForkStack {

  /** `a` lies in the page below `top`. */
  predicate InPage(a: nat, top: nat) { top <= a + 4096 && a < top }

  /** A frame pointer the walk follows: it and the word above it are in the live part of the page. */
  predicate InLive(a: nat, top: nat, used: nat) { top <= a + used && a + 4 < top }

  /** Which word of its page `a` is. */
  function Slot(a: nat, top: nat): (i: nat)
    requires InPage(a, top)
    ensures i < 1024
  {
    (a + 4096 - top) / 4
  }

  /** The two user stacks of a fork, and how much of the parent's is in use. */
  datatype Fork = Fork(parentTop: nat, childTop: nat, used: nat) {
    /** Two different pages, and a word-aligned stack pointer inside the parent's own page. */
    ghost predicate Valid() {
      && parentTop % 4096 == 0 && childTop % 4096 == 0 && parentTop != childTop
      && 4096 <= parentTop < 0x1_0000_0000 && 4096 <= childTop < 0x1_0000_0000
      && used <= 4096 && used % 4 == 0
    }

    /** The first live word. */
    function First(): nat
      requires used <= 4096
    {
      1024 - used / 4
    }

    /** `a + delta`. */
    function Moved(a: nat): nat
      requires InPage(a, parentTop) && 4096 <= childTop
    {
      a + childTop - parentTop
    }

    /** `delta`, and sums with it, are 32-bit. */
    function ChildEbp(ebp: nat): nat {
      (ebp + childTop - parentTop) % 0x1_0000_0000
    }
  }

  lemma PagesApart(f: Fork, a: nat)
    requires f.Valid() && InPage(a, f.parentTop)
    ensures InPage(f.Moved(a), f.childTop) && !InPage(f.Moved(a), f.parentTop)
    ensures Slot(f.Moved(a), f.childTop) == Slot(a, f.parentTop)
  {
    var p, c := f.parentTop / 4096, f.childTop / 4096;
    assert f.parentTop == 4096 * p && f.childTop == 4096 * c && p != c;
    assert p < c || c < p;
  }

  /** A stack page is the one that ends at `top`. */
  lemma PageOfStack(a: nat, top: nat)
    requires top % 4096 == 0 && top >= 4096
    ensures InPage(a, top) <==> a / 4096 == top / 4096 - 1
  {
    var p := top / 4096;
    assert top == 4096 * p;
  }

  /** The word number `Slot(a)` of the page is the one at `a`. */
  lemma SlotAddress(a: nat, top: nat)
    requires top % 4096 == 0 && top >= 4096 && a % 4 == 0 && InPage(a, top)
    ensures top - 4096 + 4 * Slot(a, top) == a
  {
    var p, q := top / 4096, a / 4;
    assert top == 4096 * p && a == 4 * q;
    Quarter(q + 1024 - 1024 * p);
  }

  lemma Quarter(x: int)
    ensures 4 * x / 4 == x
  {
  }

  /** The live words are those from the stack pointer up. The walk follows a frame pointer exactly when
      it points at one of them that has another one above it, for the return address. */
  lemma LiveExactly(f: Fork, a: nat)
    requires f.Valid() && a % 4 == 0 && InPage(a, f.parentTop)
    ensures f.parentTop - 4096 + 4 * f.First() == f.parentTop - f.used
    ensures InLive(a, f.parentTop, f.used) <==> f.First() <= Slot(a, f.parentTop) <= 1022
  {
    SlotAddress(a, f.parentTop);
  }

  // ----- The walk -----

  /** How many words from `k` on point into the parent's page. */
  function Pending(words: seq<nat>, k: nat, parentTop: nat): nat
    decreases |words| - k
  {
    if k >= |words| then 0 else (if InPage(words[k], parentTop) then 1 else 0) + Pending(words, k + 1, parentTop)
  }

  /** Each word the walk moves is one fewer that points into the parent's page, so even a cyclic chain
      comes to an end. */
  lemma {:induction false} PendingDrops(words: seq<nat>, k: nat, i: nat, v: nat, parentTop: nat)
    requires i < |words| && InPage(words[i], parentTop) && !InPage(v, parentTop)
    ensures Pending(words[i := v], k, parentTop) == Pending(words, k, parentTop) - (if k <= i then 1 else 0)
    decreases |words| - k
  {
    if k < |words| {
      PendingDrops(words, k + 1, i, v, parentTop);
    }
  }

  /** The walk moves on from `frame`. */
  predicate Follows(f: Fork, words: seq<nat>, frame: nat)
    requires |words| == 1024
  {
    InLive(frame, f.childTop, f.used) && InPage(frame, f.childTop)
    && InPage(words[Slot(frame, f.childTop)], f.parentTop)
  }

  /** Every frame the walk reads from `frame` on is word aligned. */
  ghost predicate Aligned(f: Fork, words: seq<nat>, frame: nat)
    requires f.Valid() && |words| == 1024
    decreases Pending(words, 0, f.parentTop)
  {
    InLive(frame, f.childTop, f.used) ==>
      && frame % 4 == 0
      && (Follows(f, words, frame) ==>
            var i := Slot(frame, f.childTop);
            PagesApart(f, words[i]);
            PendingDrops(words, 0, i, f.Moved(words[i]), f.parentTop);
            Aligned(f, words[i := f.Moved(words[i])], f.Moved(words[i])))
  }

  /** The child's stack once the walk from `frame` is over. */
  function Walk(f: Fork, words: seq<nat>, frame: nat): (r: seq<nat>)
    requires f.Valid() && |words| == 1024
    ensures |r| == 1024
    decreases Pending(words, 0, f.parentTop)
  {
    if Follows(f, words, frame) then
      var i := Slot(frame, f.childTop);
      PagesApart(f, words[i]);
      PendingDrops(words, 0, i, f.Moved(words[i]), f.parentTop);
      Walk(f, words[i := f.Moved(words[i])], f.Moved(words[i]))
    else words
  }

  /** The child's page after the copy: the live part is the parent's, the rest is what it was. */
  function Copied(f: Fork, parent: seq<nat>, child: seq<nat>): (r: seq<nat>)
    requires f.Valid() && |parent| == |child| == 1024
    ensures |r| == 1024
  {
    child[..f.First()] + parent[f.First()..]
  }

  // ----- What it means -----

  /** A set of slots below `n` has at most `n` members. */
  lemma {:induction false} SeenBound(seen: set<nat>, n: nat)
    requires forall i :: i in seen ==> i < n
    ensures |seen| <= n
    decreases n
  {
    if n == 0 {
      assert seen == {};
    } else {
      SeenBound(seen - {n - 1}, n - 1);
    }
  }

  /** The slots of the parent's saved-EBP chain that hold a pointer back into the parent's page: start at
      `frame`, read the saved pointer, go on there, and stop at a slot already seen. */
  ghost function Visited(f: Fork, parent: seq<nat>, frame: nat, seen: set<nat>): (v: set<nat>)
    requires f.Valid() && |parent| == 1024
    requires forall i :: i in seen ==> i < 1024
    decreases 1024 - |seen|
  {
    if !InLive(frame, f.parentTop, f.used) || !InPage(frame, f.parentTop) then {} else
      var i := Slot(frame, f.parentTop);
      if i in seen || !InPage(parent[i], f.parentTop) then {} else
        SeenBound(seen + {i}, 1024);
        {i} + Visited(f, parent, parent[i], seen + {i})
  }

  /** The parent's live words, those in `slots` moved by `delta`, above what the child's page held. */
  ghost predicate Relocated(f: Fork, parent: seq<nat>, child: seq<nat>, slots: set<nat>, r: seq<nat>)
    requires f.Valid() && |parent| == |child| == |r| == 1024
  {
    && (forall i :: 0 <= i < f.First() ==> r[i] == child[i])
    && (forall i :: f.First() <= i < 1024 ==>
          if i in slots then InPage(parent[i], f.parentTop) && r[i] == f.Moved(parent[i]) else r[i] == parent[i])
  }

  lemma LiveSlot(f: Fork, a: nat)
    requires f.Valid() && InLive(a, f.parentTop, f.used)
    ensures InPage(a, f.parentTop) && f.First() <= Slot(a, f.parentTop) < 1024
    ensures InLive(f.Moved(a), f.childTop, f.used) && InPage(f.Moved(a), f.childTop)
  {
    assert 4 * (f.used / 4) == f.used;
  }

  lemma {:induction false} WalkRelocates(f: Fork, parent: seq<nat>, child: seq<nat>, words: seq<nat>,
                                         frame: nat, seen: set<nat>)
    requires f.Valid() && |parent| == |child| == |words| == 1024
    requires forall i :: i in seen ==> i < 1024
    requires Relocated(f, parent, child, seen, words)
    requires InPage(frame, f.parentTop)
    ensures Relocated(f, parent, child, seen + Visited(f, parent, frame, seen), Walk(f, words, f.Moved(frame)))
    decreases 1024 - |seen|
  {
    PagesApart(f, frame);
    var moved := f.Moved(frame);
    if InLive(frame, f.parentTop, f.used) {
      LiveSlot(f, frame);
      var i := Slot(frame, f.parentTop);
      if i in seen {
        PagesApart(f, parent[i]);
      } else if InPage(parent[i], f.parentTop) {
        SeenBound(seen + {i}, 1024);
        PagesApart(f, parent[i]);
        WalkRelocates(f, parent, child, words[i := f.Moved(parent[i])], parent[i], seen + {i});
        assert seen + {i} + Visited(f, parent, parent[i], seen + {i}) == seen + Visited(f, parent, frame, seen);
      }
    }
  }

  lemma ChildEbpMoves(f: Fork, ebp: nat)
    requires f.Valid() && ebp < 0x1_0000_0000
    ensures InLive(f.ChildEbp(ebp), f.childTop, f.used) <==> InLive(ebp, f.parentTop, f.used)
    ensures InLive(ebp, f.parentTop, f.used) ==> InPage(ebp, f.parentTop) && f.ChildEbp(ebp) == f.Moved(ebp)
  {
    var x := ebp + f.childTop - f.parentTop;
    if x < 0 {
      assert f.ChildEbp(ebp) == x + 0x1_0000_0000;
    } else if x >= 0x1_0000_0000 {
      assert f.ChildEbp(ebp) == x - 0x1_0000_0000;
    }
  }

  /** Fork relocation: each live word of the child's stack is the parent's, moved by `delta` exactly when
      it is a saved frame pointer on the parent's chain that points into the parent's page. */
  lemma ForkRelocates(f: Fork, parent: seq<nat>, child: seq<nat>, ebp: nat)
    requires f.Valid() && |parent| == |child| == 1024 && ebp < 0x1_0000_0000
    ensures Relocated(f, parent, child, Visited(f, parent, ebp, {}),
                      Walk(f, Copied(f, parent, child), f.ChildEbp(ebp)))
  {
    var words := Copied(f, parent, child);
    ChildEbpMoves(f, ebp);
    assert Relocated(f, parent, child, {}, words);
    if InLive(ebp, f.parentTop, f.used) {
      WalkRelocates(f, parent, child, words, ebp, {});
      assert {} + Visited(f, parent, ebp, {}) == Visited(f, parent, ebp, {});
    }
  }

  // ----- The child sees the parent's frames -----

  /** The frame pointers met from `frame` on when saved frame pointers are followed through the live part
      of a stack, at most `n` times. */
  ghost function Backtrace(words: seq<nat>, top: nat, used: nat, frame: nat, n: nat): (b: seq<nat>)
    requires |words| == 1024 && used <= 4096
    ensures 1 <= |b| <= n + 1 && b[0] == frame
    decreases n
  {
    if n == 0 || !InLive(frame, top, used) then [frame]
    else [frame] + Backtrace(words, top, used, words[Slot(frame, top)], n - 1)
  }

  /** The slots visited hold pointers into the page, and lead on to each other. */
  lemma {:induction false} VisitedCloses(f: Fork, parent: seq<nat>, frame: nat, seen: set<nat>)
    requires f.Valid() && |parent| == 1024
    requires forall i :: i in seen ==> i < 1024
    ensures Leads(f, parent, frame, seen + Visited(f, parent, frame, seen))
    ensures forall i :: i in Visited(f, parent, frame, seen) ==>
              i < 1024 && Leads(f, parent, parent[i], seen + Visited(f, parent, frame, seen))
    decreases 1024 - |seen|
  {
    if InLive(frame, f.parentTop, f.used) {
      LiveSlot(f, frame);
      var i := Slot(frame, f.parentTop);
      if i !in seen && InPage(parent[i], f.parentTop) {
        SeenBound(seen + {i}, 1024);
        VisitedCloses(f, parent, parent[i], seen + {i});
        assert seen + {i} + Visited(f, parent, parent[i], seen + {i}) == seen + Visited(f, parent, frame, seen);
      }
    }
  }

  /** A live frame whose saved pointer stays in the parent's page has its slot in `slots`. */
  ghost predicate Leads(f: Fork, parent: seq<nat>, frame: nat, slots: set<nat>)
    requires f.Valid() && |parent| == 1024
  {
    InLive(frame, f.parentTop, f.used) && InPage(parent[Slot(frame, f.parentTop)], f.parentTop) ==>
      Slot(frame, f.parentTop) in slots
  }

  /** `c` is `p` seen from the child: frames in the parent's page moved by `delta`, the rest as they are.
      The child's trace is longer exactly when the last pointer of the parent's, one that leaves the
      parent's page, happens to point into the child's. */
  ghost predicate Mirrored(f: Fork, p: seq<nat>, c: seq<nat>, n: nat)
    requires f.Valid() && p != []
  {
    && |p| <= |c|
    && (forall k :: 1 <= k < |p| ==> c[k] == if InPage(p[k], f.parentTop) then f.Moved(p[k]) else p[k])
    && (|p| < |c| <==> 1 < |p| <= n && !InPage(p[|p| - 1], f.parentTop) && InLive(p[|p| - 1], f.childTop, f.used))
  }

  lemma {:induction false} TraceMirrored(f: Fork, parent: seq<nat>, child: seq<nat>, r: seq<nat>, slots: set<nat>,
                                         frame: nat, n: nat)
    requires f.Valid() && |parent| == |child| == |r| == 1024 && Relocated(f, parent, child, slots, r)
    requires InPage(frame, f.parentTop) && Leads(f, parent, frame, slots)
    requires forall i :: i in slots ==> i < 1024 && Leads(f, parent, parent[i], slots)
    ensures Mirrored(f, Backtrace(parent, f.parentTop, f.used, frame, n),
                     Backtrace(r, f.childTop, f.used, f.Moved(frame), n), n)
    decreases n
  {
    PagesApart(f, frame);
    if n > 0 && InLive(frame, f.parentTop, f.used) {
      LiveSlot(f, frame);
      var i := Slot(frame, f.parentTop);
      if InPage(parent[i], f.parentTop) {
        TraceMirrored(f, parent, child, r, slots, parent[i], n - 1);
      }
    }
  }

  /** Following saved frame pointers, the child meets the parent's frames in its own page, as many and in
      the same order, however far one looks and however the chain runs. */
  lemma ChainMirrored(f: Fork, parent: seq<nat>, child: seq<nat>, ebp: nat, n: nat)
    requires f.Valid() && |parent| == |child| == 1024 && ebp < 0x1_0000_0000
    ensures var r := Walk(f, Copied(f, parent, child), f.ChildEbp(ebp));
      Mirrored(f, Backtrace(parent, f.parentTop, f.used, ebp, n),
               Backtrace(r, f.childTop, f.used, f.ChildEbp(ebp), n), n)
  {
    ForkRelocates(f, parent, child, ebp);
    ChildEbpMoves(f, ebp);
    if InLive(ebp, f.parentTop, f.used) {
      var r := Walk(f, Copied(f, parent, child), f.ChildEbp(ebp));
      var slots := Visited(f, parent, ebp, {});
      VisitedCloses(f, parent, ebp, {});
      assert {} + slots == slots;
      TraceMirrored(f, parent, child, r, slots, ebp, n);
    }
  }

  // ----- The handler's loops -----

  /** `memcpy` of the live part, word by word. */
  method CopyStack(f: Fork, parent: array<nat>, child: array<nat>)
    requires f.Valid() && parent.Length == child.Length == 1024 && parent != child
    modifies child
    ensures child[..] == Copied(f, parent[..], old(child[..]))
  {
    for k := f.First() to 1024
      invariant forall j :: 0 <= j < f.First() ==> child[j] == old(child[j])
      invariant forall j :: f.First() <= j < k ==> child[j] == parent[j]
    {
      child[k] := parent[k];
    }
  }

  /** The walk, as long as the frames it meets are word aligned. */
  method WalkFrames(f: Fork, child: array<nat>, ebp: nat)
    requires f.Valid() && child.Length == 1024 && Aligned(f, child[..], ebp)
    modifies child
    ensures child[..] == Walk(f, old(child[..]), ebp)
  {
    var frame := ebp;
    while InLive(frame, f.childTop, f.used)
      invariant Aligned(f, child[..], frame)
      invariant Walk(f, child[..], frame) == Walk(f, old(child[..]), ebp)
      decreases Pending(child[..], 0, f.parentTop)
    {
      LiveInPage(f, frame);
      var i := Slot(frame, f.childTop);
      var saved := child[i];
      if InPage(saved, f.parentTop) {
        PagesApart(f, saved);
        PendingDrops(child[..], 0, i, f.Moved(saved), f.parentTop);
        ghost var next := child[..][i := f.Moved(saved)];
        child[i] := f.Moved(saved);
        assert child[..] == next;
        frame := child[i];
      } else {
        break;
      }
    }
  }

  lemma LiveInPage(f: Fork, frame: nat)
    requires f.Valid() && InLive(frame, f.childTop, f.used)
    ensures InPage(frame, f.childTop)
  {
  }

  /** Copy, then walk from the child's frame pointer: the child's stack is the parent's relocated, and
      the parent's is untouched. */
  method ForkUserStack(f: Fork, parent: array<nat>, child: array<nat>, ebp: nat)
      returns (childEsp: nat, childEbp: nat)
    requires f.Valid() && parent.Length == child.Length == 1024 && parent != child && ebp < 0x1_0000_0000
    requires Aligned(f, Copied(f, parent[..], child[..]), f.ChildEbp(ebp))
    modifies child
    ensures childEsp == f.childTop - f.used && childEbp == f.ChildEbp(ebp)
    ensures Relocated(f, parent[..], old(child[..]), Visited(f, parent[..], ebp, {}), child[..])
    ensures forall n: nat :: Mirrored(f, Backtrace(parent[..], f.parentTop, f.used, ebp, n),
                                      Backtrace(child[..], f.childTop, f.used, childEbp, n), n)
  {
    hide Walk, Relocated, Mirrored, Backtrace, Copied, Aligned, Visited;
    CopyStack(f, parent, child);
    childEsp := f.childTop - f.used;
    childEbp := f.ChildEbp(ebp);
    WalkFrames(f, child, childEbp);
    ForkRelocates(f, parent[..], old(child[..]), ebp);
    forall n: nat
      ensures Mirrored(f, Backtrace(parent[..], f.parentTop, f.used, ebp, n),
                       Backtrace(child[..], f.childTop, f.used, childEbp, n), n)
    {
      ChainMirrored(f, parent[..], old(child[..]), ebp, n);
    }
  }
}
