/** Runs of the kernel heap: any sequence of allocations and frees by callers who return what they
    hold. */
module HeapRuns {
  import opened Common
  import opened Bits
  import opened Dyadic
  import opened SlabSpec
  import opened SlabAllocator
  import opened Dispatch
  import Buddy = BuddyAllocator
  import Spec = BuddySpec
  import Runs = BuddyRuns
  import opened HeapAlign

  datatype Request = Get(size: nat) | Return(piece: Piece)

  /** The heap, and for every piece in use the size it was asked for. */
  datatype World = World(heap: Heap, sizes: map<Piece, nat>)

  ghost predicate WorldOk(w: World) {
    && Inv(w.heap)
    && (forall p :: LivePiece(w.heap, p) <==> p in w.sizes)
    && (forall p :: p in w.sizes ==> Matches(p, w.sizes[p]))
  }

  /** Callers return what they hold; the run never empties a slab behind the head of its chain. */
  predicate Legal(w: World, r: Request) {
    r.Return? ==> r.piece in w.sizes && KeepsChain(w.heap, r.piece)
  }

  ghost function Step(w: World, r: Request): World
    requires WorldOk(w) && Legal(w, r)
  {
    match r
    case Get(size) =>
      var (next, p) := Dispatch.Alloc(w.heap, size);
      World(next, if p.Some? then w.sizes[p.value := size] else w.sizes)
    case Return(p) => World(Dealloc(w.heap, p, w.sizes[p]), w.sizes - {p})
  }

  ghost predicate Reaches(w: World, rs: seq<Request>, v: World)
    decreases |rs|
  {
    if rs == [] then w == v
    else WorldOk(w) && Legal(w, rs[0]) && Reaches(Step(w, rs[0]), rs[1..], v)
  }

  lemma StepSafe(w: World, r: Request)
    requires WorldOk(w) && Legal(w, r)
    ensures WorldOk(Step(w, r)) && Step(w, r).heap.start == w.heap.start
    ensures Step(w, r).heap.frames.pages == w.heap.frames.pages
  {
    match r
    case Get(size) => AllocSafe(w.heap, size);
    case Return(p) => DeallocSafe(w.heap, p, w.sizes[p]);
  }

  lemma HeldPlaced(w: World, p: Piece)
    requires WorldOk(w) && p in w.sizes
    ensures Placed(w, p)
  {
    assert LivePiece(w.heap, p);
    PieceInBlock(w.heap, p);
    BlockRanges(w.heap.frames, w.heap.start, p.block, p.block);
    RoomFor(w.heap.start, p, w.sizes[p]);
    LivePossible(w.heap, p, w.sizes[p]);
    hide LivePiece, Possible, AlignedFor, Lo, Hi;
    forall e: nat | AlignedFor(w.heap.start, w.heap.frames.pages, w.sizes[p], e)
      ensures Lo(w.heap.start, p) % Pow2(e) == 0
    {
      PossibleAligned(w.heap.start, w.heap.frames.pages, p, w.sizes[p], e);
    }
  }

  lemma HeldSeparate(w: World, p: Piece, q: Piece)
    requires WorldOk(w) && p in w.sizes && q in w.sizes && p != q
    ensures Separate(w, p, q)
  {
    assert LivePiece(w.heap, p) && LivePiece(w.heap, q);
    PiecesDisjoint(w.heap, p, q);
    RoomFor(w.heap.start, p, w.sizes[p]);
    RoomFor(w.heap.start, q, w.sizes[q]);
  }

  /** The heap of `frames` with thirteen empty caches. */
  function EmptyHeap(start: nat, frames: Spec.State): Heap {
    Heap(start, frames, seq(MAX_SLAB_ORDER + 1, _ => Cache([], [])))
  }

  /** With nothing handed out, the heap that `init_allocator` leaves is where runs start. */
  lemma FreshHeap(start: nat, s: Spec.State)
    requires Spec.Inv(s) && s.live == {} && start % PAGE_SIZE == 0 && (s.pages > 0 ==> start > 0)
    ensures WorldOk(World(EmptyHeap(start, s), map[]))
  {
    var h := EmptyHeap(start, s);
    assert forall o: nat, k: nat, b :: !IsSlab(h, o, k, b);
    assert forall o: nat :: o <= MAX_SLAB_ORDER ==> CacheOk(h, o);
  }

  lemma {:induction false} RunOk(w: World, rs: seq<Request>, v: World)
    requires WorldOk(w) && Reaches(w, rs, v)
    ensures WorldOk(v) && v.heap.start == w.heap.start && v.heap.frames.pages == w.heap.frames.pages
    decreases |rs|
  {
    hide WorldOk, Legal, Step;
    if rs != [] {
      StepSafe(w, rs[0]);
      RunOk(Step(w, rs[0]), rs[1..], v);
    }
  }

  /** In every run, what is in use is aligned and lies in the managed range, and no two pieces
      overlap over the sizes asked for. */
  lemma RunSafe(w: World, rs: seq<Request>, v: World)
    requires WorldOk(w) && Reaches(w, rs, v)
    ensures WorldOk(v) && v.heap.start == w.heap.start && v.heap.frames.pages == w.heap.frames.pages
    ensures forall p :: p in v.sizes ==> Placed(v, p)
    ensures forall p, q :: p in v.sizes && q in v.sizes && p != q ==> Separate(v, p, q)
  {
    RunOk(w, rs, v);
    forall p | p in v.sizes
      ensures Placed(v, p)
    {
      HeldPlaced(v, p);
    }
    forall p, q | p in v.sizes && q in v.sizes && p != q
      ensures Separate(v, p, q)
    {
      HeldSeparate(v, p, q);
    }
  }

  /** The bytes asked for with `p` are inside the managed range, and aligned to every power of two
      that is promised for their number. */
  ghost predicate Placed(w: World, p: Piece)
    requires p in w.sizes
  {
    && (p.Object? ==> p.order <= MAX_SLAB_ORDER)
    && var a := Lo(w.heap.start, p);
       && w.heap.start <= a && a + w.sizes[p] <= w.heap.start + w.heap.frames.pages * PAGE_SIZE
       && forall e: nat :: AlignedFor(w.heap.start, w.heap.frames.pages, w.sizes[p], e) ==> a % Pow2(e) == 0
  }

  /** The bytes asked for with `p` and with `q` are apart. */
  predicate Separate(w: World, p: Piece, q: Piece)
    requires p in w.sizes && q in w.sizes
  {
    && (p.Object? ==> p.order <= MAX_SLAB_ORDER)
    && (q.Object? ==> q.order <= MAX_SLAB_ORDER)
    && var a, b := Lo(w.heap.start, p), Lo(w.heap.start, q);
       a + w.sizes[p] <= b || b + w.sizes[q] <= a
  }

  // ----- giving everything back -----

  /** Every slab on a chain has an object in use. */
  predicate NoIdleSlab(h: Heap) {
    forall o: nat, k: nat :: o < |h.caches| && k < |h.caches[o].chain| ==> h.caches[o].chain[k].active > 0
  }

  /** Large sizes take a power of two of pages. */
  predicate PowerSize(size: nat) {
    Order(size) > MAX_SLAB_ORDER ==> IsPow2(PageCount(size))
  }

  predicate PowerSizes(rs: seq<Request>) {
    forall i :: 0 <= i < |rs| && rs[i].Get? ==> PowerSize(rs[i].size)
  }

  ghost predicate Tidy(w: World) {
    && WorldOk(w) && NoIdleSlab(w.heap) && Spec.Canonical(w.heap.frames)
    && forall p :: p in w.sizes ==> PowerSize(w.sizes[p])
  }

  lemma GetTidy(h: Heap, size: nat)
    requires Inv(h) && NoIdleSlab(h) && Spec.Canonical(h.frames)
    ensures NoIdleSlab(Dispatch.Alloc(h, size).0) && Spec.Canonical(Dispatch.Alloc(h, size).0.frames)
  {
    var o := Order(size);
    if o > MAX_SLAB_ORDER {
      Runs.AllocCanonical(h.frames, PageCount(size));
    } else {
      var cache := h.caches[o];
      if FirstFree(cache.chain, 0) < |cache.chain| {
        StepFirst(Conf(o), h.start, h.frames, cache.chain, cache.blocks);
      } else {
        Runs.AllocCanonical(h.frames, SLAB_PAGES);
        Runs.AllocSafe(h.frames, SLAB_PAGES);
        NewSlabTaken(Conf(o), h.start, h.frames, cache.chain, cache.blocks);
      }
    }
  }

  /** When all slabs are full, the chain gains one slab with one object in use, or nothing. */
  lemma NewSlabTaken(c: Config, start: nat, s: Spec.State, chain: seq<Slab>, blocks: seq<Block>)
    requires ConfigOk(c) && |s.lists| == Spec.MAX_ORDER && FirstFree(chain, 0) == |chain|
    ensures var (t, next, held, r) := AllocStep(c, start, s, chain, blocks);
      var (t1, b) := Spec.AllocPages(s, SLAB_PAGES);
      && t == t1
      && (b == None ==> next == chain && r == None)
      && (b.Some? ==> next == [Take(NewSlab(c, Buddy.AddrOf(start, b.value)))] + chain && held == [b.value] + blocks)
      && (b.Some? ==> r.Some? && r.value.0 == 0 && r.value.1 == Count(c) - 1)
  {
    hide Spec.AllocPages, Buddy.AddrOf, Count, Offset;
    SomeObject(c);
  }

  lemma ReturnTidy(h: Heap, p: Piece, size: nat)
    requires Inv(h) && NoIdleSlab(h) && Spec.Canonical(h.frames)
    requires LivePiece(h, p) && Matches(p, size) && KeepsChain(h, p) && PowerSize(size)
    ensures NoIdleSlab(Dealloc(h, p, size)) && Spec.Canonical(Dealloc(h, p, size).frames)
  {
    match p
    case Pages(b) => Runs.FreeCanonicalIff(h.frames, b, PageCount(size));
    case Object(o, b, i) =>
      FoundSlab(h, p);
      var cache := h.caches[o];
      var k := IndexOf(cache.blocks, b);
      assert CacheOk(h, o);
      if cache.chain[k].active == 1 {
        TwoPages();
        GiveBack(h.frames, h.start, cache.blocks, cache.chain, k);
        Runs.FreeCanonicalIff(h.frames, b, SLAB_PAGES);
      }
  }

  lemma StepTidy(w: World, r: Request)
    requires Tidy(w) && Legal(w, r) && (r.Get? ==> PowerSize(r.size))
    ensures Tidy(Step(w, r))
  {
    StepSafe(w, r);
    hide Inv, LivePiece, NoIdleSlab, Spec.Canonical, PowerSize;
    match r
    case Get(size) => GetTidy(w.heap, size);
    case Return(p) => ReturnTidy(w.heap, p, w.sizes[p]);
  }

  lemma {:induction false} RunTidy(w: World, rs: seq<Request>, v: World)
    requires Tidy(w) && Reaches(w, rs, v) && PowerSizes(rs)
    ensures Tidy(v)
    decreases |rs|
  {
    hide Tidy, WorldOk, Legal, Step, PowerSize;
    if rs != [] {
      StepTidy(w, rs[0]);
      RunTidy(Step(w, rs[0]), rs[1..], v);
    }
  }

  /** With nothing held, every cache is empty and no frame is in use. */
  lemma NothingHeld(w: World)
    requires Tidy(w) && w.sizes == map[]
    ensures w.heap.frames.live == {} && forall o: nat :: o < |w.heap.caches| ==> w.heap.caches[o] == Cache([], [])
  {
    var h := w.heap;
    forall o: nat | o < |h.caches|
      ensures h.caches[o] == Cache([], [])
    {
      EmptyCache(w, o);
    }
    forall b | b in h.frames.live
      ensures false
    {
      assert LivePiece(h, Pages(b));
    }
  }

  lemma EmptyCache(w: World, o: nat)
    requires Tidy(w) && w.sizes == map[] && o < |w.heap.caches|
    ensures w.heap.caches[o] == Cache([], [])
  {
    var h := w.heap;
    assert CacheOk(h, o);
    if h.caches[o].chain != [] {
      var s := h.caches[o].chain[0];
      ActiveIsLive(Conf(o), s);
      var i: nat :| Live(Conf(o), s, i);
      SlabPieces(h, o, 0, i);
    }
  }

  /** A run that starts on a new heap, empties only head slabs, asks for powers of two of pages and
      has returned everything leaves the heap as initialisation built it: empty caches and the same
      free blocks. */
  lemma GivingBackRestores(start: nat, s: Spec.State, rs: seq<Request>, v: World)
    requires Runs.Fresh(s) && start > 0 && start % PAGE_SIZE == 0
    requires Reaches(World(EmptyHeap(start, s), map[]), rs, v) && PowerSizes(rs) && v.sizes == map[]
    ensures v.heap.caches == EmptyHeap(start, s).caches
    ensures Spec.FreeSet(v.heap.frames.lists) == Spec.FreeSet(s.lists)
  {
    var w := World(EmptyHeap(start, s), map[]);
    FreshHeap(start, s);
    RunTidy(w, rs, v);
    RunOk(w, rs, v);
    NothingHeld(v);
    hide Reaches, LivePiece;
    forall p: nat
      ensures Spec.PageFree(s, p) <==> Spec.PageFree(v.heap.frames, p)
    {
      Runs.FreeOrLive(s, p);
      Runs.FreeOrLive(v.heap.frames, p);
    }
    Runs.SamePagesSameBlocks(s, v.heap.frames);
  }

  // ----- inputs on which the promises fail -----

  /** The slab of a page-sized object once it has been handed out. */
  function FullPageSlab(start: nat, b: Block): Slab {
    Slab(Buddy.AddrOf(start, b), [], 1)
  }

  /** An allocation of a page when all slabs for pages are full: a new slab for it alone. */
  lemma GetPage(w: World, b: Block)
    requires WorldOk(w) && FirstFree(w.heap.caches[12].chain, 0) == |w.heap.caches[12].chain|
    requires Spec.AllocPages(w.heap.frames, SLAB_PAGES).1 == Some(b)
    ensures var cache := w.heap.caches[12];
      var t := Spec.AllocPages(w.heap.frames, SLAB_PAGES).0;
      var v := Step(w, Get(4096));
      && v.heap.frames == t && v.heap.start == w.heap.start && |v.heap.caches| == 13
      && v.heap.caches[12] == Cache([FullPageSlab(w.heap.start, b)] + cache.chain, [b] + cache.blocks)
      && v.sizes == w.sizes[Object(12, b, 0) := 4096]
  {
    var cache := w.heap.caches[12];
    WholePageSlab();
    PowersUpToPage(12);
    assert Pow2(11) == 2048 && Pow2(12) == 4096;
    OrderUnique(4096, 12);
    NewSlabTaken(Conf(12), w.heap.start, w.heap.frames, cache.chain, cache.blocks);
    assert Take(NewSlab(Conf(12), Buddy.AddrOf(w.heap.start, b))) == FullPageSlab(w.heap.start, b) by {
      assert Down(1) == [0];
    }
  }

  /** With no slab for pages yet, the first of two pages ends up alone in a slab behind the head, and
      returning it breaks the heap. */
  lemma SecondSlabHidesFirst(w: World, b1: Block, t: Spec.State, b2: Block)
    requires WorldOk(w) && w.heap.caches[12] == Cache([], [])
    requires Spec.AllocPages(w.heap.frames, SLAB_PAGES) == (t, Some(b1))
    requires |t.lists| == Spec.MAX_ORDER && Spec.AllocPages(t, SLAB_PAGES).1 == Some(b2)
    ensures exists v ::
      && Reaches(w, [Get(4096), Get(4096)], v) && WorldOk(v)
      && var p := Object(12, b1, 0);
         p in v.sizes && v.sizes[p] == 4096 && !KeepsChain(v.heap, p) && !Inv(Dealloc(v.heap, p, 4096))
  {
    hide Step, Spec.AllocPages, LivePiece;
    var get, p, start := Get(4096), Object(12, b1, 0), w.heap.start;
    GetPage(w, b1);
    StepSafe(w, get);
    var u := Step(w, get);
    assert [FullPageSlab(start, b1)] + [] == [FullPageSlab(start, b1)];
    GetPage(u, b2);
    StepSafe(u, get);
    var v := Step(u, get);
    Runs.AllocSafe(w.heap.frames, SLAB_PAGES);
    Runs.AllocSafe(u.heap.frames, SLAB_PAGES);
    assert b1 != b2;
    assert v.heap.caches[12].chain[1] == FullPageSlab(start, b1) && v.heap.caches[12].blocks[1] == b1;
    IndexOfSecond(v.heap.caches[12].blocks, b1);
    hide Inv, FullPageSlab;
    assert [get, get][1..] == [get] && [get][1..] == [];
    assert Reaches(u, [get], v);
    DeallocSafeIff(v.heap, p, 4096);
  }

  lemma IndexOfSecond(blocks: seq<Block>, b: Block)
    requires |blocks| >= 2 && blocks[0] != b && blocks[1] == b
    ensures IndexOf(blocks, b) == 1
  {
    assert blocks[1..][0] == b;
  }

  /** A free aligned pair of pages is enough for a slab. */
  lemma PairIsEnough(s: Spec.State, k: nat)
    requires Spec.Inv(s) && Spec.Canonical(s) && Spec.PageFree(s, 2 * k) && Spec.PageFree(s, 2 * k + 1)
    ensures Spec.AllocPages(s, SLAB_PAGES).1.Some?
  {
    TwoPages();
    assert !Spec.BadCount(SLAB_PAGES) by { Pow2Monotone(1, Spec.MAX_ORDER - 1); }
    var c := Block(1, k);
    forall p: nat | Holds(c, p)
      ensures Spec.PageFree(s, p)
    {
      HoldsIsRange(c, p);
      assert Shl(k, 1) == 2 * k && Pow2(1) == 2;
      assert p == 2 * k || p == 2 * k + 1;
    }
    Runs.AllocComplete(s, SLAB_PAGES);
  }

  lemma AllPagesFree(s: Spec.State, p: nat)
    requires Runs.Fresh(s) && p < s.pages
    ensures Spec.PageFree(s, p)
  {
    Runs.FreeOrLive(s, p);
  }

  /** Fresh frames of two pages hold a slab. */
  lemma RoomForOne(s: Spec.State)
    requires Runs.Fresh(s) && s.pages >= 2
    ensures Spec.AllocPages(s, SLAB_PAGES).1.Some?
  {
    AllPagesFree(s, 0);
    AllPagesFree(s, 1);
    PairIsEnough(s, 0);
  }

  /** Fresh frames of four pages hold two. */
  lemma RoomForTwo(s: Spec.State)
    requires Runs.Fresh(s) && s.pages >= 4
    ensures Spec.AllocPages(s, SLAB_PAGES).1.Some?
    ensures var t := Spec.AllocPages(s, SLAB_PAGES).0;
      |t.lists| == Spec.MAX_ORDER && Spec.AllocPages(t, SLAB_PAGES).1.Some?
  {
    RoomForOne(s);
    Runs.AllocSafe(s, SLAB_PAGES);
    Runs.AllocCanonical(s, SLAB_PAGES);
    TwoPages();
    var (t, r) := Spec.AllocPages(s, SLAB_PAGES);
    var k := if r.value.index == 0 then 1 else 0;
    assert At(2 * k, 1) == k && At(2 * k + 1, 1) == k;
    AllPagesFree(s, 2 * k);
    AllPagesFree(s, 2 * k + 1);
    PairIsEnough(t, k);
  }

  /** On every new heap of at least four pages, two callers asking for a page and the first returning
      it break the heap. */
  lemma StaleSlabWitness(start: nat, s: Spec.State)
    requires Runs.Fresh(s) && s.pages >= 4 && start > 0 && start % PAGE_SIZE == 0
    ensures exists p: Piece, v ::
      && Reaches(World(EmptyHeap(start, s), map[]), [Get(4096), Get(4096)], v) && WorldOk(v)
      && p in v.sizes && v.sizes[p] == 4096 && !KeepsChain(v.heap, p) && !Inv(Dealloc(v.heap, p, 4096))
  {
    FreshHeap(start, s);
    RoomForTwo(s);
    var (t, b1) := Spec.AllocPages(s, SLAB_PAGES);
    var b2 := Spec.AllocPages(t, SLAB_PAGES).1.value;
    SecondSlabHidesFirst(World(EmptyHeap(start, s), map[]), b1.value, t, b2);
  }

  /** On every new heap of at least two pages, the first allocation of 8 bytes lies at 8 modulo 16. */
  lemma SmallMisaligned(start: nat, s: Spec.State)
    requires Runs.Fresh(s) && s.pages >= 2 && start > 0 && start % PAGE_SIZE == 0
    ensures var p := Dispatch.Alloc(EmptyHeap(start, s), 8).1;
      p.Some? && p.value.Object? && p.value.order == 3 && p.value.i == 1018 && Lo(start, p.value) % 16 == 8
  {
    hide Down, NewSlab, Take, Count, Offset, FirstOffset, Spec.AllocPages, AllocStep, Order, Buddy.AddrOf, Pow2;
    RoomForOne(s);
    var b := Spec.AllocPages(s, SLAB_PAGES).1.value;
    EightByteSlab();
    NewSlabTaken(Conf(3), start, s, [], []);
    PageAligned(start, b, 12);
    PowersAbovePage();
    LastEightBytes(Buddy.AddrOf(start, b));
  }

  lemma LastEightBytes(page: nat)
    requires page % 4096 == 0
    ensures (page + 8184) % 16 == 8
  {
  }

  lemma EightByteSlab()
    ensures Order(8) == 3 && Count(Conf(3)) == 1019 && Offset(Conf(3), 1018) == 8184
  {
    assert Pow2(2) == 4 && Pow2(3) == 8;
    OrderUnique(8, 3);
    assert Conf(3) == Config(8, 8) && FirstOffset(Config(8, 8)) == 40;
  }

  /** Where the managed range starts at an odd page, no allocation of two pages is aligned to them. */
  lemma LargeMisaligned(start: nat, s: Spec.State)
    requires Runs.Fresh(s) && s.pages >= 2 && start % 8192 == 4096
    ensures var p := Dispatch.Alloc(EmptyHeap(start, s), 8192).1;
      p.Some? && p.value.Pages? && Lo(start, p.value) % 8192 != 0
  {
    RoomForOne(s);
    Runs.AllocSafe(s, SLAB_PAGES);
    TwoPages();
    PowersAbovePage();
    OrderUnique(8192, 13);
    hide Order, Pow2, Spec.AllocPages;
    assert PageCount(8192) == SLAB_PAGES;
    BlockAlignIff(start, Spec.AllocPages(s, SLAB_PAGES).1.value, 13);
  }
}
