/** Which results of the kernel heap some run gives: every piece of the size within the range, so that
    the alignment assertion fails in some run exactly if the condition of `HeapAlign` fails. */
module HeapReach {
  import opened Common
  import opened Bits
  import opened Dyadic
  import opened SlabSpec
  import opened SlabAllocator
  import opened Dispatch
  import opened HeapAlign
  import opened HeapRuns
  import Spec = BuddySpec
  import Runs = BuddyRuns

  /** Only pieces of this size are held, every slab is in use, and the free blocks are coalesced. */
  ghost predicate Uniform(w: World, size: nat) {
    && WorldOk(w) && NoIdleSlab(w.heap) && Spec.Canonical(w.heap.frames)
    && forall p :: p in w.sizes ==> w.sizes[p] == size
  }

  /** What an allocation of `size` gives. */
  ghost function Given(w: World, size: nat): Option<Piece>
    requires WorldOk(w)
  {
    Dispatch.Alloc(w.heap, size).1
  }

  /** Every block in use serves the size: a slab of its cache, or a piece. */
  lemma BlockServes(w: World, size: nat, c: Block)
    requires Uniform(w, size) && c in w.heap.frames.live
    ensures Order(size) <= MAX_SLAB_ORDER ==> c.order == 1 && exists k: nat :: IsSlab(w.heap, Order(size), k, c)
    ensures Order(size) > MAX_SLAB_ORDER ==> Pages(c) in w.sizes && c.order == Order(PageCount(size))
  {
    var h := w.heap;
    if o: nat, k: nat :| IsSlab(h, o, k, c) {
      assert CacheOk(h, o);
      var s := h.caches[o].chain[k];
      ActiveIsLive(Conf(o), s);
      var i: nat :| Live(Conf(o), s, i);
      assert ObjectLive(h, o, k, c, i);
      assert LivePiece(h, Object(o, c, i));
      assert Object(o, c, i) in w.sizes;
    } else {
      assert LivePiece(h, Pages(c));
    }
  }

  /** A block of which some page is in use, when all blocks in use have its order, is in use. */
  lemma PageInUse(w: World, size: nat, b: Block, n: nat)
    requires Uniform(w, size) && !Spec.BadCount(n) && b.order == Order(n) && Within(b, w.heap.frames.pages)
    requires Spec.AllocPages(w.heap.frames, n).1 == None
    requires forall c :: c in w.heap.frames.live ==> c.order == b.order
    ensures b in w.heap.frames.live
  {
    var s := w.heap.frames;
    Runs.AllocComplete(s, n);
    hide Spec.AllocPages, WorldOk, NoIdleSlab, Order;
    var q: nat :| Holds(b, q) && !Spec.PageFree(s, q);
    HoldsIsRange(b, q);
    Runs.FreeOrLive(s, q);
    var c :| c in s.live && Holds(c, q);
    assert c == b;
  }

  /** When no more can be had, everything possible is held: pages. */
  lemma AllPagesHeld(w: World, size: nat, p: Piece)
    requires Uniform(w, size) && Possible(p, w.heap.frames.pages, size) && p.Pages?
    requires Given(w, size) == None
    ensures p in w.sizes
  {
    forall c | c in w.heap.frames.live
      ensures c.order == p.block.order
    {
      BlockServes(w, size, c);
    }
    PageInUse(w, size, p.block, PageCount(size));
    BlockServes(w, size, p.block);
  }

  /** When no more can be had, everything possible is held: objects. */
  lemma AllObjectsHeld(w: World, size: nat, p: Piece)
    requires Uniform(w, size) && Possible(p, w.heap.frames.pages, size) && p.Object?
    requires Given(w, size) == None
    ensures p in w.sizes
  {
    var h, o := w.heap, Order(size);
    NothingLeft(h, size);
    TwoPages();
    forall c | c in h.frames.live
      ensures c.order == 1
    {
      BlockServes(w, size, c);
    }
    PageInUse(w, size, p.block, SLAB_PAGES);
    BlockServes(w, size, p.block);
    var k: nat :| IsSlab(h, o, k, p.block);
    assert CacheOk(h, o);
    assert h.caches[o].chain[k].free == [];
    assert ObjectLive(h, o, k, p.block, p.i);
    assert LivePiece(h, p);
  }

  /** A failed allocation of an object: all slabs are full and no frame is left. */
  lemma NothingLeft(h: Heap, size: nat)
    requires Inv(h) && Order(size) <= MAX_SLAB_ORDER && Dispatch.Alloc(h, size).1 == None
    ensures var chain := h.caches[Order(size)].chain; FirstFree(chain, 0) == |chain|
    ensures Spec.AllocPages(h.frames, SLAB_PAGES).1 == None
  {
    var o := Order(size);
    var cache := h.caches[o];
    assert CacheOk(h, o);
    hide Order, Spec.AllocPages, Inv;
    assert FirstFree(cache.chain, 0) == |cache.chain|;
    NewSlabTaken(Conf(o), h.start, h.frames, cache.chain, cache.blocks);
  }

  /** All pieces of the size with blocks of a number below `pages`. */
  ghost function Candidates(pages: nat, size: nat): set<Piece> {
    if Order(size) <= MAX_SLAB_ORDER then
      set k: nat, i: nat | k < pages && i < Count(Conf(Order(size))) :: Object(Order(size), Block(1, k), i)
    else
      set k: nat | k < pages :: Pages(Block(Order(PageCount(size)), k))
  }

  lemma IndexBelow(b: Block, pages: nat)
    requires Within(b, pages)
    ensures b.index < pages
  {
    ShlIsProduct(b.index, b.order);
    MulMonotone(1, Pow2(b.order), b.index);
    hide FirstPage;
  }

  lemma PossibleIsCandidate(p: Piece, pages: nat, size: nat)
    requires Possible(p, pages, size)
    ensures p in Candidates(pages, size)
  {
    IndexBelow(p.block, pages);
    hide Within, Order, Count, Conf;
    assert p.block == Block(p.block.order, p.block.index);
  }

  /** The candidates that are not held. */
  ghost function Left(w: World, size: nat): set<Piece> {
    Candidates(w.heap.frames.pages, size) - w.sizes.Keys
  }

  /** One more allocation that succeeds: fewer candidates are left. */
  lemma OneMore(w: World, size: nat)
    requires Uniform(w, size) && Given(w, size).Some?
    ensures var u, r := Step(w, Get(size)), Given(w, size).value;
      && Uniform(u, size) && u.heap.frames.pages == w.heap.frames.pages && u.sizes.Keys == w.sizes.Keys + {r}
      && r !in w.sizes && Left(u, size) < Left(w, size)
  {
    var (next, r) := Dispatch.Alloc(w.heap, size);
    AllocSafe(w.heap, size);
    hide Dispatch.Alloc, Order, Candidates;
    GetTidy(w.heap, size);
    LivePossible(next, r.value, size);
    PossibleIsCandidate(r.value, next.frames.pages, size);
    StepSafe(w, Get(size));
  }

  /** When an allocation fails, every possible piece is held. */
  lemma AllHeld(w: World, size: nat, p: Piece)
    requires Uniform(w, size) && Possible(p, w.heap.frames.pages, size) && Given(w, size) == None
    ensures p in w.sizes
  {
    match p
    case Pages(_) => AllPagesHeld(w, size, p);
    case Object(_, _, _) => AllObjectsHeld(w, size, p);
  }

  lemma ReachesMore(w: World, r: Request, more: seq<Request>, v: World)
    requires WorldOk(w) && Legal(w, r) && Reaches(Step(w, r), more, v)
    ensures Reaches(w, [r] + more, v)
  {
    assert ([r] + more)[1..] == more;
  }

  /** Asking for the size again and again gives every possible piece. */
  lemma {:induction false} Comes(w: World, size: nat, p: Piece) returns (rs: seq<Request>, v: World)
    requires Uniform(w, size) && Possible(p, w.heap.frames.pages, size) && p !in w.sizes
    ensures Reaches(w, rs, v) && WorldOk(v) && Given(v, size) == Some(p)
    ensures forall i :: 0 <= i < |rs| ==> rs[i] == Get(size)
    decreases Left(w, size)
  {
    var r := Given(w, size);
    assert WorldOk(w);
    hide Given, Possible, Left, Uniform, WorldOk, Reaches, Legal;
    if r == Some(p) {
      return [], w;
    }
    assert r.Some? by {
      if r == None {
        AllHeld(w, size, p);
      }
    }
    OneMore(w, size);
    var u := Step(w, Get(size));
    assert Legal(w, Get(size)) && p !in u.sizes;
    hide Step;
    var more;
    more, v := Comes(u, size, p);
    rs := [Get(size)] + more;
    ReachesMore(w, Get(size), more, v);
  }

  /** After some run on a new heap, the next allocation of `size` is not aligned to `2^e`. */
  ghost predicate CanFail(start: nat, s: Spec.State, size: nat, e: nat) {
    exists rs, v, p ::
      && Reaches(World(EmptyHeap(start, s), map[]), rs, v) && WorldOk(v)
      && Given(v, size) == Some(p)
      && (p.Object? ==> p.order <= MAX_SLAB_ORDER) && Lo(start, p) % Pow2(e) != 0
  }

  /** The alignment assertion fails in some run exactly if the condition does not hold. */
  lemma FailsIff(start: nat, s: Spec.State, size: nat, e: nat)
    requires Runs.Fresh(s) && start > 0 && start % PAGE_SIZE == 0
    ensures CanFail(start, s, size, e) <==> !AlignedFor(start, s.pages, size, e)
  {
    var w := World(EmptyHeap(start, s), map[]);
    FreshHeap(start, s);
    AlignedIffAll(start, s.pages, size, e);
    hide AlignedFor, Inv, Possible, Lo;
    if !AlignedFor(start, s.pages, size, e) {
      var p: Piece :| Possible(p, s.pages, size) && Lo(start, p) % Pow2(e) != 0;
      var rs, v := Comes(w, size, p);
    }
    if CanFail(start, s, size, e) {
      var rs, v, p :| Reaches(w, rs, v) && WorldOk(v) && Given(v, size) == Some(p)
        && (p.Object? ==> p.order <= MAX_SLAB_ORDER) && Lo(start, p) % Pow2(e) != 0;
      RunOk(w, rs, v);
      AllocSafe(v.heap, size);
      LivePossible(Dispatch.Alloc(v.heap, size).0, p, size);
    }
  }
}
