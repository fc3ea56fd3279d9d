/** The global allocator as the source has it: one frame allocator and thirteen caches over it. */
module GlobalAllocator {
  import opened Common
  import opened Bits
  import opened SlabSpec
  import opened SlabAllocator
  import opened Dispatch
  import opened HeapAlign
  import opened HeapWrites
  import HeapChoice
  import HeapRuns
  import Buddy = BuddyAllocator
  import Spec = BuddySpec
  import Runs = BuddyRuns

  /** The address of the result, or null. */
  function PieceAddr(start: nat, p: Option<Piece>): nat {
    if p == None || (p.value.Object? && p.value.order > MAX_SLAB_ORDER) then 0 else Lo(start, p.value)
  }

  /** The address a cache returns is that of the piece. */
  lemma SmallAddr(h: Heap, size: nat)
    requires Inv(h) && Order(size) <= MAX_SLAB_ORDER
    ensures var o := Order(size);
      var (t, chain, blocks, r) := AllocStep(Conf(o), h.start, h.frames, h.caches[o].chain, h.caches[o].blocks);
      PieceAddr(h.start, Dispatch.Alloc(h, size).1) == ResultAddr(Conf(o), chain, r)
  {
    var o := Order(size);
    var (t, chain, blocks, r) := AllocStep(Conf(o), h.start, h.frames, h.caches[o].chain, h.caches[o].blocks);
    AllocSafe(h, size);
    hide AllocStep, Order;
    assert CacheOk(Dispatch.Alloc(h, size).0, o);
  }

  /** The address is null exactly if there is no piece. */
  lemma NullIff(h: Heap, size: nat)
    requires Inv(h)
    ensures PieceAddr(h.start, Dispatch.Alloc(h, size).1) == 0 <==> Dispatch.Alloc(h, size).1 == None
  {
    AllocSafe(h, size);
    var (next, p) := Dispatch.Alloc(h, size);
    hide Dispatch.Alloc, Order;
    if p.Some? {
      PieceInBlock(next, p.value);
      BlockRanges(next.frames, next.start, p.value.block, p.value.block);
      assert Pow2(p.value.block.order) * PAGE_SIZE > 0;
    }
  }

  lemma ResultAligned(h: Heap, size: nat, e: nat)
    requires Inv(h) && AlignedFor(h.start, h.frames.pages, size, e)
    ensures PieceAddr(h.start, Dispatch.Alloc(h, size).1) % Pow2(e) == 0
  {
    AllocSafe(h, size);
    var (next, p) := Dispatch.Alloc(h, size);
    assert PieceAddr(h.start, p) == if p.Some? then Lo(next.start, p.value) else 0;
    hide Dispatch.Alloc, LivePiece, Matches, Lo, PieceAddr, Order, Pow2, AlignedFor, CacheOk;
    if p.Some? {
      LivePossible(next, p.value, size);
      PossibleAligned(next.start, next.frames.pages, p.value, size, e);
    }
  }

  /** A piece of pages is a block in use inside the range, and returning it frees that block. */
  lemma PagesReturned(h: Heap, p: Piece, size: nat)
    requires Inv(h) && LivePiece(h, p) && Matches(p, size) && Order(size) > MAX_SLAB_ORDER
    ensures p.Pages? && KeepsChain(h, p) && p.block in h.frames.live && Lo(h.start, p) == Buddy.AddrOf(h.start, p.block)
    ensures h.start <= Lo(h.start, p) < h.start + h.frames.pages * PAGE_SIZE
    ensures Order(PageCount(size)) == p.block.order && !Spec.BadCount(PageCount(size))
    ensures Dispatch.Dealloc(h, p, size) == h.(frames := Spec.FreePages(h.frames, p.block, PageCount(size)))
  {
    BlockRanges(h.frames, h.start, p.block, p.block);
    hide Order, Spec.FreePages, Spec.Inv;
    assert Pow2(p.block.order) * PAGE_SIZE > 0;
  }

  /** The thirteen caches over one frame allocator. */
  method NewCaches(f: Buddy.BuddyAllocator) returns (cs: seq<MemCache>)
    requires f.Valid()
    ensures |cs| == MAX_SLAB_ORDER + 1
    ensures forall o: nat :: o < |cs| ==> fresh(cs[o]) && cs[o].c == Conf(o) && cs[o].frames == f
    ensures forall o: nat :: o < |cs| ==> cs[o].Linked() && cs[o].chain == [] && cs[o].blocks == []
    ensures forall o1, o2 :: 0 <= o1 < o2 < |cs| ==> cs[o1] != cs[o2]
  {
    hide Conf, ConfigOk, Buddy.BuddyAllocator.Valid, MemCache.Linked;
    cs := [];
    while |cs| <= MAX_SLAB_ORDER
      invariant |cs| <= MAX_SLAB_ORDER + 1 && f.Valid()
      invariant forall o: nat :: o < |cs| ==> fresh(cs[o]) && cs[o].c == Conf(o) && cs[o].frames == f
      invariant forall o: nat :: o < |cs| ==> cs[o].Linked() && cs[o].chain == [] && cs[o].blocks == []
      invariant forall o1, o2 :: 0 <= o1 < o2 < |cs| ==> cs[o1] != cs[o2]
    {
      var cache := new MemCache(Conf(|cs|), f);
      cs := cs + [cache];
    }
  }

  class GlobalAllocator {
    const frames: Buddy.BuddyAllocator
    const caches: seq<MemCache>

    ghost function CachesAbs(): seq<Cache>
      reads caches
    {
      seq(|caches|, o requires 0 <= o < |caches| reads caches => Cache(caches[o].chain, caches[o].blocks))
    }

    ghost function Abs(): Heap
      requires frames.startAddr <= frames.endAddr
      reads frames, caches
    {
      Heap(frames.startAddr, frames.Abs(), CachesAbs())
    }

    /** Cache `o` serves order `o` from the shared frames. */
    predicate Wired() {
      && |caches| == MAX_SLAB_ORDER + 1
      && (forall o: nat :: o <= MAX_SLAB_ORDER ==> caches[o].c == Conf(o) && caches[o].frames == frames)
      && (forall o1, o2 :: 0 <= o1 < o2 <= MAX_SLAB_ORDER ==> caches[o1] != caches[o2])
    }

    ghost predicate Linked()
      reads caches
    {
      forall o :: 0 <= o < |caches| ==> caches[o].Linked()
    }

    ghost predicate Valid()
      reads frames, frames.freeLists, caches
    {
      Wired() && Linked() && frames.Valid() && Inv(Abs())
    }

    /** No word and no header inside the piece has changed. */
    twostate predicate Spared(q: Piece)
      reads frames, caches
    {
      && (q.Object? ==> q.order <= MAX_SLAB_ORDER)
      && var lo, hi := Lo(frames.startAddr, q), Hi(frames.startAddr, q);
      && SameWithin(old(frames.mem), frames.mem, lo, hi)
      && forall o: nat :: o < |caches| ==> CacheSpares(o, lo, hi)
    }

    twostate predicate CacheSpares(o: nat, lo: nat, hi: nat)
      requires o < |caches|
      reads caches
    {
      && SameWithin(old(caches[o].words), caches[o].words, lo, hi)
      && SameHeadersWithin(old(caches[o].headers), caches[o].headers, lo, hi)
    }

    /** Caches other than `order` have the same memory, and so spare every piece. */
    twostate lemma OthersSpare(new order: nat, new lo: nat, new hi: nat)
      requires forall o: nat :: o < |caches| && o != order ==> SameMemory(o)
      ensures forall o: nat :: o < |caches| && o != order ==> CacheSpares(o, lo, hi)
    {
      forall o: nat | o < |caches| && o != order
        ensures CacheSpares(o, lo, hi)
      {
        assert SameMemory(o);
      }
    }

    /** Cache `o` has the same words and headers. */
    twostate predicate SameMemory(o: nat)
      requires o < |caches|
      reads caches
    {
      && caches[o].words == old(caches[o].words) && caches[o].headers == old(caches[o].headers)
      && caches[o].slabs == old(caches[o].slabs)
    }

    /** Nothing has been written. */
    twostate predicate Idle()
      reads frames, frames.freeLists, caches
    {
      frames.Idle() && forall o: nat :: o < |caches| ==> SameMemory(o)
    }

    constructor ()
      ensures Valid() && fresh(frames) && fresh(frames.freeLists) && fresh(caches)
      ensures Abs() == HeapRuns.EmptyHeap(0, frames.Abs()) && frames.Abs().pages == 0 && frames.live == {}
    {
      var f := new Buddy.BuddyAllocator();
      var cs := NewCaches(f);
      frames, caches := f, cs;
      new;
      HeapRuns.FreshHeap(0, frames.Abs());
      hide Inv, Buddy.BuddyAllocator.LinksOk, Spec.Inv, MemCache.Linked, Conf;
      assert CachesAbs() == HeapRuns.EmptyHeap(0, frames.Abs()).caches;
    }

    /** `init_allocator`. */
    method Init(start: nat, end: nat)
      requires Valid() && Abs() == HeapRuns.EmptyHeap(0, frames.Abs()) && frames.endAddr == 0
      requires 0 < RoundUp(start) < RoundDown(end)
      modifies frames, frames.freeLists
      ensures Valid() && Runs.Fresh(frames.Abs()) && Buddy.LastFirst(frames.lists)
      ensures frames.startAddr == RoundUp(start) && frames.endAddr == RoundDown(end)
      ensures start <= frames.startAddr < start + PAGE_SIZE && frames.endAddr <= end < frames.endAddr + PAGE_SIZE
      ensures Abs() == HeapRuns.EmptyHeap(RoundUp(start), frames.Abs())
    {
      frames.Init(start, end);
      HeapRuns.FreshHeap(frames.startAddr, frames.Abs());
      assert CachesAbs() == HeapRuns.EmptyHeap(0, frames.Abs()).caches;
    }

    method AllocLarge(size: nat) returns (ptr: nat)
      requires Valid() && Order(size) > MAX_SLAB_ORDER
      modifies frames, frames.freeLists
      ensures Valid()
      ensures var (next, p) := Dispatch.Alloc(old(Abs()), size);
        Abs() == next && ptr == PieceAddr(next.start, p)
      ensures forall q :: LivePiece(old(Abs()), q) ==> Spared(q)
      ensures ptr == 0 ==> Idle()
    {
      ghost var h := Abs();
      AllocSafe(Abs(), size);
      hide Inv, Linked, Spec.Inv, Spec.AllocPages, Order, Spared, LivePiece, Buddy.Untouched;
      var pages := (size + (PAGE_SIZE - 1)) / PAGE_SIZE;
      ptr := frames.AllocPages(pages);
      OnlyFrames(h);
    }

    /** Only the frames have written: pieces in blocks in use are spared. */
    twostate lemma OnlyFrames(new h: Heap)
      requires frames.startAddr <= frames.endAddr && Inv(Abs()) && forall o: nat :: o < |caches| ==> SameMemory(o)
      requires forall q :: LivePiece(h, q) ==> LivePiece(Abs(), q)
      requires Buddy.Untouched(old(frames.mem), frames.mem, frames.startAddr, frames.live)
      ensures forall q :: LivePiece(h, q) ==> Spared(q)
    {
      hide Inv, LivePiece, Buddy.Untouched, Lo, Hi;
      forall q | LivePiece(h, q)
        ensures Spared(q)
      {
        FramesSpare(Abs(), q, old(frames.mem), frames.mem);
        OthersSpare(|caches|, Lo(frames.startAddr, q), Hi(frames.startAddr, q));
      }
    }

    lemma CacheReady(o: nat)
      requires Valid() && o <= MAX_SLAB_ORDER
      ensures caches[o].Valid()
    {
      assert CacheOk(Abs(), o);
    }

    /** `SlabAllocator::alloc`: only the cache asked and the frames change. */
    method CacheAlloc(order: nat) returns (ptr: nat)
      requires Wired() && Linked() && order <= MAX_SLAB_ORDER && caches[order].Valid()
      modifies caches, frames, frames.freeLists
      ensures Linked() && frames.Valid() && frames.startAddr == old(frames.startAddr)
      ensures CachesAbs() == old(CachesAbs())[order := Cache(caches[order].chain, caches[order].blocks)]
      ensures var (t, next, held, r) :=
        AllocStep(Conf(order), frames.startAddr, old(frames.Abs()), old(caches[order].chain),
                  old(caches[order].blocks));
        && frames.Abs() == t && caches[order].chain == next && caches[order].blocks == held
        && ptr == ResultAddr(Conf(order), next, r)
      ensures caches[order].Writes() && forall o: nat :: o < |caches| && o != order ==> SameMemory(o)
      ensures ptr == 0 ==> Idle()
    {
      hide Spec.Inv, AllocStep, MemCache.Linked, Held, Conf, Buddy.BuddyAllocator.LinksOk, ResultAddr,
           MemCache.Writes;
      ptr := caches[order].Alloc();
      assert CachesAbs() == old(CachesAbs())[order := Cache(caches[order].chain, caches[order].blocks)];
    }

    method AllocSmall(order: nat, ghost size: nat) returns (ptr: nat)
      requires Valid() && order == Order(size) <= MAX_SLAB_ORDER
      modifies caches, frames, frames.freeLists
      ensures Valid()
      ensures var (next, p) := Dispatch.Alloc(old(Abs()), size);
        Abs() == next && ptr == PieceAddr(next.start, p)
      ensures forall q :: LivePiece(old(Abs()), q) ==> Spared(q)
      ensures ptr == 0 ==> Idle()
    {
      ghost var h := Abs();
      AllocSafe(h, size);
      CacheReady(order);
      SmallAddr(h, size);
      hide Inv, Spec.Inv, Order, AllocStep, MemCache.Linked, Held, Conf, Buddy.BuddyAllocator.LinksOk, ResultAddr,
           PieceAddr, MemCache.Writes, LivePiece, Spared;
      ptr := CacheAlloc(order);
      OneCache(h, order, size);
    }

    /** A cache and the frames have written for an allocation. */
    twostate lemma OneCache(new h: Heap, new order: nat, new size: nat)
      requires Inv(h) && order == Order(size) <= MAX_SLAB_ORDER && Wired() && h.start == frames.startAddr
      requires frames.startAddr <= frames.endAddr && Inv(Abs()) && Abs() == Dispatch.Alloc(h, size).0
      requires forall q :: LivePiece(h, q) ==> LivePiece(Abs(), q)
      requires old(caches[order].chain) == h.caches[order].chain && caches[order].Writes()
      requires forall o: nat :: o < |caches| && o != order ==> SameMemory(o)
      ensures forall q :: LivePiece(h, q) ==> Spared(q)
    {
      hide Inv, LivePiece, Dispatch.Alloc, MemCache.Writes, Spared, Order;
      forall q | LivePiece(h, q)
        ensures Spared(q)
      {
        OneCacheFor(h, order, size, q);
      }
    }

    twostate lemma OneCacheFor(new h: Heap, new order: nat, new size: nat, new q: Piece)
      requires Inv(h) && order == Order(size) <= MAX_SLAB_ORDER && Wired() && h.start == frames.startAddr
      requires frames.startAddr <= frames.endAddr && Inv(Abs()) && Abs() == Dispatch.Alloc(h, size).0
      requires LivePiece(h, q) && LivePiece(Abs(), q)
      requires old(caches[order].chain) == h.caches[order].chain && caches[order].Writes()
      requires forall o: nat :: o < |caches| && o != order ==> SameMemory(o)
      ensures Spared(q)
    {
      NewSlabBlock(h, size);
      assert CacheOk(Abs(), order);
      PieceInBlock(h, q);
      hide Inv, LivePiece, Buddy.Untouched, Lo, Hi, Dispatch.Alloc, SameOutside, SameHeaders, Order, SameWithin,
           SameHeadersWithin, ChainOk, Buddy.AddrOf;
      ghost var next := Abs();
      FramesSpare(next, q, old(frames.mem), frames.mem);
      HeadersSpare(next, order, q, old(caches[order].headers), caches[order].headers);
      OthersSpare(order, Lo(frames.startAddr, q), Hi(frames.startAddr, q));
      if |caches[order].chain| > |old(caches[order].chain)| {
        NewSlabSpares(next, next.caches[order].blocks[0], q, old(caches[order].words), caches[order].words);
      } else {
        NoWords(caches[order].words, Lo(frames.startAddr, q), Hi(frames.startAddr, q));
      }
    }

    /** `alloc`: null or a piece of the heap; `panicked` is the failure of the assertion that the
        result is aligned; `HeapReach.FailsIff` says when it can happen. */
    method Alloc(size: nat, align: nat) returns (ptr: nat, panicked: bool)
      requires Valid() && align > 0
      modifies caches, frames, frames.freeLists
      ensures Valid()
      ensures var (next, p) := Dispatch.Alloc(old(Abs()), size);
        Abs() == next && ptr == PieceAddr(next.start, p)
      ensures ptr == 0 <==> HeapChoice.Exhausted(old(Abs()), size)
      ensures Spec.Canonical(old(frames.Abs())) ==> (ptr == 0 <==> HeapChoice.NoRun(old(Abs()), size))
      ensures ptr == 0 ==> Idle()
      ensures forall q :: LivePiece(old(Abs()), q) ==> Spared(q)
      ensures panicked <==> ptr != 0 && ptr % align != 0
      ensures forall e: nat ::
        align == Pow2(e) && AlignedFor(old(frames.startAddr), old(frames.Abs()).pages, size, e) ==> !panicked
    {
      ghost var h := Abs();
      AllocSafe(h, size);
      HeapChoice.AllocFailsIff(h, size);
      NullIff(h, size);
      hide Inv, Linked, Wired, Buddy.BuddyAllocator.Valid, PieceAddr, Dispatch.Alloc, LivePiece, Matches, AlignedFor,
           Spared, Idle, HeapChoice.Exhausted, HeapChoice.NoRun, Spec.Canonical;
      var order := Order(size);
      if order > MAX_SLAB_ORDER {
        ptr := AllocLarge(size);
      } else {
        ptr := AllocSmall(order, size);
      }
      panicked := ptr != 0 && ptr % align != 0;
      forall e: nat | align == Pow2(e) && AlignedFor(h.start, h.frames.pages, size, e)
        ensures !panicked
      {
        ResultAligned(h, size, e);
      }
    }

    /** After a slab behind the head of cache `order` was emptied: the head stays, all other slabs of the
        cache and all other caches are linked. */
    twostate predicate AllLinkedBut(order: nat, k: nat)
      requires order < |caches|
      reads caches
    {
      && caches[order].slabs == old(caches[order].slabs) && caches[order].LinkedBut(k)
      && forall o: nat :: o < |caches| && o != order ==> caches[o].Linked()
    }

    /** `SlabAllocator::free` of object `i` of slab `k` of cache `order`. */
    method CacheFree(order: nat, ptr: nat, ghost k: nat, ghost i: nat)
      requires Wired() && Linked() && order <= MAX_SLAB_ORDER && caches[order].Valid()
      requires k < |caches[order].chain| && Live(Conf(order), caches[order].chain[k], i)
      requires ptr == ObjAddr(Conf(order), caches[order].chain[k].page, i)
      modifies caches, frames, frames.freeLists
      ensures frames.Valid() && frames.startAddr == old(frames.startAddr)
      ensures CachesAbs() == old(CachesAbs())[order := Cache(caches[order].chain, caches[order].blocks)]
      ensures old(caches[order].chain[k]).active > 0
      ensures var (next, freed) := SlabSpec.Free(old(caches[order].chain), k, i);
        var held := old(caches[order].blocks);
        && caches[order].chain == next
        && caches[order].blocks == (if freed.Some? && k == 0 then held[1..] else held)
        && frames.Abs() ==
          (if freed.Some? then Spec.FreePages(old(frames.Abs()), held[k], SLAB_PAGES) else old(frames.Abs()))
        && (k == 0 || freed == None ==> Linked())
        && (k > 0 && freed.Some? ==> AllLinkedBut(order, k))
      ensures Buddy.Untouched(old(frames.mem), frames.mem, frames.startAddr, frames.live)
      ensures forall a: nat :: a == ptr || SameAt(old(caches[order].words), caches[order].words, a)
      ensures forall a: nat ::
        SameAt(old(caches[order].headers), caches[order].headers, a) || a == old(caches[order].chain[k]).page
      ensures forall o: nat :: o < |caches| && o != order ==> SameMemory(o)
    {
      hide Spec.Inv, Conf, Buddy.BuddyAllocator.LinksOk, Live, ObjAddr, SlabSpec.Free, Spec.FreePages, Spec.PageFree,
           Buddy.Untouched, SameAt, MemCache.LinkedBut;
      caches[order].Free(ptr, k, i);
      assert CachesAbs() == old(CachesAbs())[order := Cache(caches[order].chain, caches[order].blocks)];
    }

    method DeallocLarge(ptr: nat, size: nat, ghost p: Piece)
      requires Valid() && LivePiece(Abs(), p) && Matches(p, size) && ptr == Lo(Abs().start, p)
      requires Order(size) > MAX_SLAB_ORDER
      modifies frames, frames.freeLists
      ensures Valid() && Abs() == Dispatch.Dealloc(old(Abs()), p, size)
      ensures Buddy.Untouched(old(frames.mem), frames.mem, frames.startAddr, frames.live)
    {
      hide Spec.FreePages, Buddy.BuddyAllocator.LinksOk, Linked, Wired, CacheOk, Held, ChainOk, Pow2, Inv, KeepsChain,
           Buddy.Untouched, Buddy.AddrOf, Spec.Inv, IsSlab, LivePiece, Dispatch.Dealloc, Order, Spec.BadCount;
      ghost var h := Abs();
      DeallocSafe(h, p, size);
      PagesReturned(h, p, size);
      var pages := (size + (PAGE_SIZE - 1)) / PAGE_SIZE;
      frames.FreePages(ptr, pages, p.block);
    }

    method DeallocSmall(order: nat, ptr: nat, ghost size: nat, ghost p: Piece)
      requires Valid() && LivePiece(Abs(), p) && Matches(p, size) && ptr == Lo(Abs().start, p)
      requires order == Order(size) <= MAX_SLAB_ORDER
      modifies caches, frames, frames.freeLists
      ensures frames.Valid() && Abs() == Dispatch.Dealloc(old(Abs()), p, size)
      ensures old(KeepsChain(Abs(), p)) ==> Linked()
      ensures !old(KeepsChain(Abs(), p)) ==> AllLinkedBut(order, IndexOf(old(caches[order].blocks), p.block))
      ensures Buddy.Untouched(old(frames.mem), frames.mem, frames.startAddr, frames.live)
      ensures forall a: nat :: a == ptr || SameAt(old(caches[order].words), caches[order].words, a)
      ensures forall a: nat ::
        SameAt(old(caches[order].headers), caches[order].headers, a) || a == Buddy.AddrOf(frames.startAddr, p.block)
      ensures forall o: nat :: o < |caches| && o != order ==> SameMemory(o)
    {
      ghost var h := Abs();
      FoundSlab(h, p);
      CacheReady(order);
      hide Order, Conf, Inv, LivePiece, Linked, Live, Offset, Buddy.BuddyAllocator.LinksOk, Spec.Inv, Spec.FreePages,
           Buddy.Untouched, SameAt, AllLinkedBut;
      CacheFree(order, ptr, IndexOf(caches[order].blocks, p.block), p.i);
    }

    /** `dealloc` of piece `p`, which was allocated with this size. */
    method Dealloc(ptr: nat, size: nat, ghost p: Piece)
      requires Valid() && LivePiece(Abs(), p) && Matches(p, size) && ptr == Lo(Abs().start, p)
      modifies caches, frames, frames.freeLists
      ensures frames.Valid() && Abs() == Dispatch.Dealloc(old(Abs()), p, size)
      ensures old(KeepsChain(Abs(), p)) ==> Valid()
      ensures !old(KeepsChain(Abs(), p)) ==>
        p.Object? && p.order < |caches| && AllLinkedBut(p.order, IndexOf(old(caches[p.order].blocks), p.block))
      ensures forall q :: LivePiece(old(Abs()), q) && q != p ==> Spared(q)
    {
      ghost var h := Abs();
      if KeepsChain(Abs(), p) {
        DeallocSafe(Abs(), p, size);
      }
      hide Inv, LivePiece, Linked, KeepsChain, Dispatch.Dealloc, Lo, Buddy.Untouched, SameAt, Spared, AllLinkedBut;
      var order := Order(size);
      if order > MAX_SLAB_ORDER {
        DeallocLarge(ptr, size, p);
      } else {
        DeallocSmall(order, ptr, size, p);
      }
      ReturnedWrites(h, p, size, order);
    }

    /** A cache and the frames have written for a return. */
    twostate lemma ReturnedWrites(new h: Heap, new p: Piece, new size: nat, new order: nat)
      requires Inv(h) && LivePiece(h, p) && Matches(p, size) && order == Order(size) && h.start == frames.startAddr
      requires frames.startAddr <= frames.endAddr && |caches| == MAX_SLAB_ORDER + 1
      requires Abs() == Dispatch.Dealloc(h, p, size)
      requires Buddy.Untouched(old(frames.mem), frames.mem, frames.startAddr, frames.live)
      requires order <= MAX_SLAB_ORDER ==>
        forall a: nat :: a == Lo(h.start, p) || SameAt(old(caches[order].words), caches[order].words, a)
      requires order <= MAX_SLAB_ORDER ==>
        forall a: nat ::
          SameAt(old(caches[order].headers), caches[order].headers, a) || a == Buddy.AddrOf(frames.startAddr, p.block)
      requires forall o: nat :: o < |caches| && o != order ==> SameMemory(o)
      ensures forall q :: LivePiece(h, q) && q != p ==> Spared(q)
    {
      hide Inv, LivePiece, Buddy.Untouched, Lo, Hi, Dispatch.Dealloc, SameAt, Order, Buddy.AddrOf;
      forall q | LivePiece(h, q) && q != p
        ensures Spared(q)
      {
        OthersStayInUse(h, p, size, q);
        BlockSpared(h, frames.live, q, old(frames.mem), frames.mem);
        if order <= MAX_SLAB_ORDER {
          ReturnSpares(h, p, q, old(caches[order].words), caches[order].words);
          ReturnHeaders(h, p, q, old(caches[order].headers), caches[order].headers);
        }
        OthersSpare(order, Lo(frames.startAddr, q), Hi(frames.startAddr, q));
      }
    }
  }
}
