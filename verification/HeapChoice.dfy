/** Which piece the kernel heap gives, when there is none, and how giving and taking back undo each
    other. */
module HeapChoice {
  import opened Common
  import opened Bits
  import opened Dyadic
  import opened SlabSpec
  import opened SlabAllocator
  import opened Dispatch
  import opened HeapRuns
  import Buddy = BuddyAllocator
  import Spec = BuddySpec
  import Runs = BuddyRuns

  // ----- when there is none -----

  /** Some free block has order `o` or more. */
  ghost predicate HasBlock(s: Spec.State, o: nat) {
    exists b :: b in Spec.FreeSet(s.lists) && o <= b.order
  }

  /** All pages of some block of order `o` are free. */
  ghost predicate HasRun(s: Spec.State, o: nat) {
    exists c: Block :: c.order == o && forall p: nat :: Holds(c, p) ==> Spec.PageFree(s, p)
  }

  /** Every object of every slab of cache `o` is in use. */
  ghost predicate AllInUse(h: Heap, o: nat)
    requires o < |h.caches| && o <= MAX_SLAB_ORDER
  {
    forall k: nat, i: nat :: k < |h.caches[o].chain| && i < Count(Conf(o)) ==> Live(Conf(o), h.caches[o].chain[k], i)
  }

  /** There is no free object of that size and no block for it: a large size needs a free block of its
      order, a small one a block of two pages for a new slab. */
  ghost predicate Exhausted(h: Heap, size: nat)
    requires |h.caches| == MAX_SLAB_ORDER + 1
  {
    if Order(size) > MAX_SLAB_ORDER then
      !HasBlock(h.frames, Order(PageCount(size)))
    else
      AllInUse(h, Order(size)) && !HasBlock(h.frames, 1)
  }

  /** The same for free pages: no aligned run of them is long enough, or no list is. */
  ghost predicate NoRun(h: Heap, size: nat)
    requires |h.caches| == MAX_SLAB_ORDER + 1
  {
    if Order(size) > MAX_SLAB_ORDER then
      Order(PageCount(size)) >= Spec.MAX_ORDER || !HasRun(h.frames, Order(PageCount(size)))
    else
      AllInUse(h, Order(size)) && !HasRun(h.frames, 1)
  }

  lemma AllocNone(s: Spec.State, pages: nat)
    requires Spec.Inv(s) && pages > 0
    ensures Spec.AllocPages(s, pages).1 == None <==> !HasBlock(s, Order(pages))
    ensures Order(pages) < Spec.MAX_ORDER && Spec.Canonical(s) ==>
      (HasBlock(s, Order(pages)) <==> HasRun(s, Order(pages)))
    ensures Order(pages) >= Spec.MAX_ORDER ==> !HasBlock(s, Order(pages))
  {
    Runs.AllocTakes(s, pages);
    Spec.CountOrder(pages);
    if Order(pages) < Spec.MAX_ORDER && Spec.Canonical(s) {
      Runs.AllocComplete(s, pages);
    }
    hide Spec.AllocPages, Order;
    if j: nat :| Order(pages) <= j < Spec.MAX_ORDER && s.lists[j] != [] {
      assert Block(j, s.lists[j][0]) in Spec.FreeSet(s.lists);
    }
  }

  lemma Sizes(h: Heap, o: nat)
    requires Inv(h) && o <= MAX_SLAB_ORDER
    ensures |h.caches| == MAX_SLAB_ORDER + 1 && |h.frames.lists| == Spec.MAX_ORDER && Spec.Inv(h.frames)
    ensures |h.caches[o].chain| == |h.caches[o].blocks|
  {
    assert CacheOk(h, o);
  }

  lemma SlabInUse(c: Config, s: Slab)
    requires ConfigOk(c) && SlabOk(c, s)
    ensures s.free == [] <==> forall i: nat :: i < Count(c) ==> Live(c, s, i)
  {
    if s.free != [] {
      assert s.free[0] in s.free && !Live(c, s, s.free[0]);
    }
  }

  lemma ChainInUse(h: Heap, o: nat)
    requires Inv(h) && o <= MAX_SLAB_ORDER
    ensures var chain := h.caches[o].chain; AllInUse(h, o) <==> FirstFree(chain, 0) == |chain|
  {
    var chain := h.caches[o].chain;
    assert CacheOk(h, o);
    hide Count, Inv;
    forall k: nat | k < |chain|
      ensures chain[k].free == [] <==> forall i: nat :: i < Count(Conf(o)) ==> Live(Conf(o), chain[k], i)
    {
      SlabInUse(Conf(o), chain[k]);
    }
  }

  /** An allocation fails exactly if the heap is exhausted for the size; with coalesced frames that is
      exactly if no aligned run of free pages is long enough. */
  lemma AllocFailsIff(h: Heap, size: nat)
    requires Inv(h)
    ensures Dispatch.Alloc(h, size).1 == None <==> Exhausted(h, size)
    ensures Spec.Canonical(h.frames) ==> (Exhausted(h, size) <==> NoRun(h, size))
  {
    hide Inv, HasBlock, HasRun, Spec.AllocPages, AllInUse, Order, Conf, Spec.Canonical, Spec.Inv, Spec.BadCount;
    var o := Order(size);
    Sizes(h, 0);
    if o > MAX_SLAB_ORDER {
      LargeCount(size);
      AllocNone(h.frames, PageCount(size));
    } else {
      SlabPagesOk();
      AllocNone(h.frames, SLAB_PAGES);
      ChainInUse(h, o);
      Sizes(h, o);
      hide AllocStep;
      var cache := h.caches[o];
      if FirstFree(cache.chain, 0) < |cache.chain| {
        StepFirst(Conf(o), h.start, h.frames, cache.chain, cache.blocks);
      } else {
        NewSlabTaken(Conf(o), h.start, h.frames, cache.chain, cache.blocks);
      }
    }
  }

  lemma LargeCount(size: nat)
    requires Order(size) > MAX_SLAB_ORDER
    ensures PageCount(size) > 0
  {
    OrderIsLeast(size);
  }

  lemma SlabPagesOk()
    ensures Order(SLAB_PAGES) == 1 && !Spec.BadCount(SLAB_PAGES)
  {
    TwoPages();
    Pow2Monotone(1, Spec.MAX_ORDER - 1);
  }

  // ----- which one it is -----

  /** The frames have given block `b`. */
  ghost predicate BlockGiven(s: Spec.State, t: Spec.State, b: Block) {
    exists from: nat :: Runs.TakenFrom(s, t, b, from)
  }

  lemma GivenBlock(s: Spec.State, pages: nat)
    requires Spec.Inv(s)
    ensures var (t, r) := Spec.AllocPages(s, pages); r.Some? ==> BlockGiven(s, t, r.value)
  {
    Runs.AllocTakes(s, pages);
  }

  /** Object `p` was the one freed last of slab `k`, the first that has any. */
  predicate FromSlab(before: Cache, after: Cache, p: Piece, k: nat) {
    && p.Object? && k < |before.chain| == |before.blocks|
    && after.blocks == before.blocks && p.block == before.blocks[k]
    && (forall j :: 0 <= j < k ==> before.chain[j].free == [])
    && var s := before.chain[k];
    && s.free != [] && p.i == s.free[0]
    && after.chain == before.chain[k := Slab(s.page, s.free[1..], s.active + 1)]
  }

  /** Object `p` is the last one of a new slab of `n` objects in front; the next to come are those before it. */
  predicate FromNewSlab(before: Cache, after: Cache, p: Piece, page: nat, n: nat) {
    && p.Object? && p.i + 1 == n && after.blocks == [p.block] + before.blocks
    && after.chain == [Slab(page, Down(p.i), 1)] + before.chain
  }

  /** A piece of a large size is a block from the frames. An object comes from a slab on the chain, and only
      when no slab has one, from a new slab on a block from the frames. */
  ghost predicate Chosen(h: Heap, next: Heap, size: nat, p: Piece)
    requires |h.caches| == |next.caches| == MAX_SLAB_ORDER + 1
  {
    var o := Order(size);
    if o > MAX_SLAB_ORDER then
      p.Pages? && BlockGiven(h.frames, next.frames, p.block) && next.caches == h.caches
    else
      && p.Object? && p.order == o && next.caches == h.caches[o := next.caches[o]]
      && if AllInUse(h, o) then
           && BlockGiven(h.frames, next.frames, p.block)
           && FromNewSlab(h.caches[o], next.caches[o], p, Buddy.AddrOf(h.start, p.block), Count(Conf(o)))
         else
           && next.frames == h.frames
           && exists k: nat :: FromSlab(h.caches[o], next.caches[o], p, k)
  }

  /** What an allocation gives when it gives something. */
  lemma AllocChoice(h: Heap, size: nat)
    requires Inv(h)
    ensures var (next, r) := Dispatch.Alloc(h, size);
      r.Some? ==> |next.caches| == MAX_SLAB_ORDER + 1 && Chosen(h, next, size, r.value)
  {
    var o := Order(size);
    if o > MAX_SLAB_ORDER {
      Runs.AllocTakes(h.frames, PageCount(size));
    } else {
      ChainInUse(h, o);
      if FirstFree(h.caches[o].chain, 0) < |h.caches[o].chain| {
        SlabChoice(h, size);
      } else {
        NewSlabChoice(h, size);
      }
    }
  }

  lemma SlabChoice(h: Heap, size: nat)
    requires Inv(h) && Order(size) <= MAX_SLAB_ORDER && !AllInUse(h, Order(size))
    requires var chain := h.caches[Order(size)].chain; FirstFree(chain, 0) < |chain|
    ensures var (next, r) := Dispatch.Alloc(h, size);
      r.Some? && |next.caches| == MAX_SLAB_ORDER + 1 && Chosen(h, next, size, r.value)
  {
    hide AllInUse, Inv, Spec.AllocPages, Order, Conf, Runs.TakenFrom, BlockGiven, Spec.Inv, FirstFree;
    var o := Order(size);
    Sizes(h, o);
    var cache := h.caches[o];
    hide AllocStep;
    var k := FirstFree(cache.chain, 0);
    StepFirst(Conf(o), h.start, h.frames, cache.chain, cache.blocks);
    var (next, r) := Dispatch.Alloc(h, size);
    assert FromSlab(cache, next.caches[o], r.value, k);
  }

  lemma NewSlabChoice(h: Heap, size: nat)
    requires Inv(h) && Order(size) <= MAX_SLAB_ORDER && AllInUse(h, Order(size))
    requires var chain := h.caches[Order(size)].chain; FirstFree(chain, 0) == |chain|
    ensures var (next, r) := Dispatch.Alloc(h, size);
      r.Some? ==> |next.caches| == MAX_SLAB_ORDER + 1 && Chosen(h, next, size, r.value)
  {
    hide AllInUse, Inv, Spec.AllocPages, Order, Conf, Runs.TakenFrom, BlockGiven, Spec.Inv, FirstFree;
    var o := Order(size);
    Sizes(h, o);
    var cache := h.caches[o];
    SlabPagesOk();
    GivenBlock(h.frames, SLAB_PAGES);
    hide AllocStep;
    SomeObject(Conf(o));
    NewSlabTaken(Conf(o), h.start, h.frames, cache.chain, cache.blocks);
    assert Down(Count(Conf(o)))[1..] == Down(Count(Conf(o)) - 1);
  }

  // ----- giving and taking back -----

  lemma FoundAt(h: Heap, o: nat, k: nat)
    requires Inv(h) && o <= MAX_SLAB_ORDER && k < |h.caches[o].blocks|
    ensures IndexOf(h.caches[o].blocks, h.caches[o].blocks[k]) == k
  {
    var b := h.caches[o].blocks[k];
    var l := IndexOf(h.caches[o].blocks, b);
    assert b in h.caches[o].blocks;
    assert IsSlab(h, o, k, b) && IsSlab(h, o, l, b);
  }

  /** A heap in order whose slabs are all in use and whose free frames are coalesced. */
  ghost predicate Settled(h: Heap) {
    Inv(h) && NoIdleSlab(h) && Spec.Canonical(h.frames)
  }

  /** Returning a piece that was just given restores the heap: every list, every chain, in order. */
  lemma GetThenReturn(h: Heap, size: nat)
    requires Settled(h) && PowerSize(size)
    ensures var (next, r) := Dispatch.Alloc(h, size);
      r.Some? ==>
        && Inv(next) && LivePiece(next, r.value) && Matches(r.value, size) && KeepsChain(next, r.value)
        && Dealloc(next, r.value, size) == h
  {
    AllocSafe(h, size);
    AllocChoice(h, size);
    var (next, r) := Dispatch.Alloc(h, size);
    if r.Some? {
      if Order(size) > MAX_SLAB_ORDER {
        Runs.AllocThenFree(h.frames, PageCount(size), PageCount(size));
      } else {
        ReturnObject(h, next, size, r.value);
      }
    }
  }

  lemma ReturnObject(h: Heap, next: Heap, size: nat, p: Piece)
    requires Settled(h) && Order(size) <= MAX_SLAB_ORDER && Dispatch.Alloc(h, size) == (next, Some(p))
    requires Inv(next) && LivePiece(next, p) && Matches(p, size) && Chosen(h, next, size, p) && next.start == h.start
    ensures KeepsChain(next, p) && Dealloc(next, p, size) == h
  {
    hide Inv, LivePiece, Dispatch.Alloc, Order, Conf, AllInUse, BlockGiven, NoIdleSlab, Spec.Canonical;
    Sizes(h, Order(size));
    if AllInUse(h, Order(size)) {
      ReturnFromNew(h, next, size, p);
    } else {
      var o := Order(size);
      var k: nat :| FromSlab(h.caches[o], next.caches[o], p, k);
      ReturnFromSlab(h, next, size, p, k);
    }
  }

  lemma ReturnFromSlab(h: Heap, next: Heap, size: nat, p: Piece, k: nat)
    requires Settled(h) && Inv(next) && LivePiece(next, p) && Matches(p, size) && p.Object?
    requires next == h.(caches := h.caches[p.order := next.caches[p.order]])
    requires FromSlab(h.caches[p.order], next.caches[p.order], p, k)
    ensures KeepsChain(next, p) && Dealloc(next, p, size) == h
  {
    var o := p.order;
    var s := h.caches[o].chain[k];
    assert s.active > 0;
    FoundAt(next, o, k);
    hide Inv, LivePiece, NoIdleSlab, Spec.Canonical, Order, IndexOf;
    assert [s.free[0]] + s.free[1..] == s.free;
    assert h.caches[o].chain[k := s] == h.caches[o].chain;
    assert Dealloc(next, p, size).caches[o] == h.caches[o];
  }

  lemma ReturnFromNew(h: Heap, next: Heap, size: nat, p: Piece)
    requires Settled(h) && Inv(next) && LivePiece(next, p) && Matches(p, size) && p.Object?
    requires Dispatch.Alloc(h, size) == (next, Some(p)) && AllInUse(h, p.order)
    requires next.caches == h.caches[p.order := next.caches[p.order]]
    requires
      FromNewSlab(h.caches[p.order], next.caches[p.order], p, Buddy.AddrOf(h.start, p.block), Count(Conf(p.order)))
    ensures KeepsChain(next, p) && Dealloc(next, p, size) == h
  {
    var o := p.order;
    ChainInUse(h, o);
    FoundAt(next, o, 0);
    TwoPages();
    SlabPagesOk();
    Runs.AllocThenFree(h.frames, SLAB_PAGES, SLAB_PAGES);
    NewSlabTaken(Conf(o), h.start, h.frames, h.caches[o].chain, h.caches[o].blocks);
    hide Inv, LivePiece, NoIdleSlab, Spec.Canonical, Spec.AllocPages, Spec.FreePages, Order, IndexOf, Conf, AllInUse;
    assert next.caches[o].chain[1..] == h.caches[o].chain && next.caches[o].blocks[1..] == h.caches[o].blocks;
    assert next.caches[o].blocks[0] == p.block;
    assert Dealloc(next, p, size).caches[o] == h.caches[o];
  }

  /** The piece stays a piece of its own when it is returned: its block merges with none, its slab keeps
      another object, and no slab before that one has a free object. */
  predicate StaysApart(h: Heap, p: Piece, size: nat)
    requires |h.frames.lists| == Spec.MAX_ORDER
  {
    match p
    case Pages(b) =>
      !IsPow2(PageCount(size)) || b.order >= Spec.TOP || BuddyIndex(b.index) !in h.frames.lists[b.order]
    case Object(o, b, _) =>
      && o < |h.caches|
      && var k := IndexOf(h.caches[o].blocks, b);
      && k < |h.caches[o].chain| && h.caches[o].chain[k].active > 1
      && forall j :: 0 <= j < k ==> h.caches[o].chain[j].free == []
  }

  /** Asking again after returning such a piece gives it back and restores the heap. */
  lemma ReturnThenGet(h: Heap, p: Piece, size: nat)
    requires Inv(h) && LivePiece(h, p) && Matches(p, size) && StaysApart(h, p, size)
    ensures var next := Dealloc(h, p, size);
      Inv(next) && Dispatch.Alloc(next, size) == (h, Some(p))
  {
    DeallocSafe(h, p, size);
    match p
    case Pages(b) => Runs.LastFreedFirst(h.frames, b, PageCount(size), PageCount(size));
    case Object(o, b, i) => GetObject(h, p, size);
  }

  lemma GetObject(h: Heap, p: Piece, size: nat)
    requires Inv(h) && LivePiece(h, p) && Matches(p, size) && p.Object? && StaysApart(h, p, size)
    ensures var next := Dealloc(h, p, size);
      |next.caches| == MAX_SLAB_ORDER + 1 && Dispatch.Alloc(next, size) == (h, Some(p))
  {
    hide Inv, LivePiece, Order, IndexOf, FirstFree, Conf, SlabSpec.Alloc, AllocStep;
    var o := p.order;
    FoundSlab(h, p);
    Sizes(h, o);
    var cache := h.caches[o];
    var k := IndexOf(cache.blocks, p.block);
    var s := cache.chain[k];
    var chain := cache.chain[k := Give(s, p.i)];
    FirstFreeIs(chain, k);
    StepFirst(Conf(o), h.start, h.frames, chain, cache.blocks);
    TakeUndoesGive(s, p.i);
    assert chain[k := s] == cache.chain;
    var next := Dealloc(h, p, size);
    assert next == h.(caches := h.caches[o := Cache(chain, cache.blocks)]);
    assert next.caches[o := cache] == h.caches;
  }

  lemma FirstFreeIs(chain: seq<Slab>, k: nat)
    requires k < |chain| && chain[k].free != [] && forall j :: 0 <= j < k ==> chain[j].free == []
    ensures FirstFree(chain, 0) == k
  {
    var r := FirstFree(chain, 0);
    assert r >= k;
  }
}
