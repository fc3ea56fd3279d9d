/** What the heap writes: link words of free blocks, headers of slabs, and link words of free objects,
    none of which lies inside a piece in use. */
module HeapWrites {
  import opened Common
  import opened Bits
  import opened Dyadic
  import opened SlabSpec
  import opened SlabAllocator
  import opened Dispatch
  import Buddy = BuddyAllocator
  import Spec = BuddySpec
  import Runs = BuddyRuns

  /** No word in addresses `lo .. hi` differs. */
  ghost predicate SameWithin<T>(m0: map<nat, T>, m1: map<nat, T>, lo: nat, hi: nat) {
    forall a: nat :: lo <= a < hi ==> SameAt(m0, m1, a)
  }

  lemma NoWords<T>(m: map<nat, T>, lo: nat, hi: nat)
    ensures SameWithin(m, m, lo, hi)
  {
  }

  /** No header that reaches into addresses `lo .. hi` differs. */
  ghost predicate SameHeadersWithin(h0: map<nat, Header>, h1: map<nat, Header>, lo: nat, hi: nat) {
    forall a: nat :: a < hi && lo < a + HEADER_SIZE ==> SameAt(h0, h1, a)
  }

  /** Words of blocks in use are words of the pieces in them. */
  lemma BlockSpared(h: Heap, live: set<Block>, q: Piece, m0: map<nat, nat>, m1: map<nat, nat>)
    requires Inv(h) && LivePiece(h, q) && q.block in live && Buddy.Untouched(m0, m1, h.start, live)
    ensures (q.Object? ==> q.order <= MAX_SLAB_ORDER) && SameWithin(m0, m1, Lo(h.start, q), Hi(h.start, q))
  {
    PieceInBlock(h, q);
    BlockRanges(h.frames, h.start, q.block, q.block);
    hide Lo, Hi, Inv, LivePiece;
    forall a: nat | Lo(h.start, q) <= a < Hi(h.start, q)
      ensures SameAt(m0, m1, a)
    {
      InBlock(h.start, q.block, a);
      assert Buddy.Inside(h.start, live, a);
    }
  }

  lemma FramesSpare(h: Heap, q: Piece, m0: map<nat, nat>, m1: map<nat, nat>)
    requires Inv(h) && LivePiece(h, q) && Buddy.Untouched(m0, m1, h.start, h.frames.live)
    ensures (q.Object? ==> q.order <= MAX_SLAB_ORDER) && SameWithin(m0, m1, Lo(h.start, q), Hi(h.start, q))
  {
    PieceInBlock(h, q);
    BlockSpared(h, h.frames.live, q, m0, m1);
  }

  lemma InBlock(start: nat, b: Block, a: nat)
    requires Buddy.AddrOf(start, b) <= a < Buddy.AddrOf(start, b) + Pow2(b.order) * PAGE_SIZE
    ensures start <= a && Holds(b, (a - start) / PAGE_SIZE)
  {
    HoldsIsRange(b, (a - start) / PAGE_SIZE);
  }

  /** A new slab's words are not those of a piece in another block. */
  lemma NewSlabSpares(h: Heap, b: Block, q: Piece, w0: map<nat, nat>, w1: map<nat, nat>)
    requires Inv(h) && LivePiece(h, q) && b in h.frames.live && b != q.block && b.order == 1
    requires var page := Buddy.AddrOf(h.start, b); SameOutside(w0, w1, page, page + SLAB_BYTES)
    ensures (q.Object? ==> q.order <= MAX_SLAB_ORDER) && SameWithin(w0, w1, Lo(h.start, q), Hi(h.start, q))
  {
    PieceInBlock(h, q);
    BlockRanges(h.frames, h.start, b, q.block);
    assert Pow2(1) == 2;
    hide Lo, Hi, Inv, LivePiece;
  }

  /** The header of a slab does not reach into a piece. */
  lemma HeaderApart(h: Heap, o: nat, k: nat, b: Block, q: Piece)
    requires Inv(h) && LivePiece(h, q) && IsSlab(h, o, k, b)
    ensures q.Object? ==> q.order <= MAX_SLAB_ORDER
    ensures var page := Buddy.AddrOf(h.start, b);
      page + HEADER_SIZE <= Lo(h.start, q) || Hi(h.start, q) <= page
  {
    PieceInBlock(h, q);
    assert o <= MAX_SLAB_ORDER && CacheOk(h, o);
    assert Pow2(1) == 2;
    if b != q.block {
      BlockRanges(h.frames, h.start, b, q.block);
    } else {
      var l: nat :| ObjectLive(h, q.order, l, b, q.i);
      ObjectsFit(Conf(q.order), q.i);
    }
  }

  /** Headers of the slabs of a cache are not inside pieces. */
  lemma HeadersSpare(h: Heap, o: nat, q: Piece, h0: map<nat, Header>, h1: map<nat, Header>)
    requires Inv(h) && LivePiece(h, q) && o <= MAX_SLAB_ORDER && SameHeaders(h0, h1, h.caches[o].chain)
    ensures (q.Object? ==> q.order <= MAX_SLAB_ORDER) && SameHeadersWithin(h0, h1, Lo(h.start, q), Hi(h.start, q))
  {
    PieceInBlock(h, q);
    assert CacheOk(h, o);
    forall a: nat | a < Hi(h.start, q) && Lo(h.start, q) < a + HEADER_SIZE
      ensures SameAt(h0, h1, a)
    {
      if IsPage(h.caches[o].chain, a) {
        var k: nat :| k < |h.caches[o].chain| && h.caches[o].chain[k].page == a;
        HeaderApart(h, o, k, h.caches[o].blocks[k], q);
      }
    }
  }

  /** Returning `p` writes into no other piece. */
  lemma ReturnSpares(h: Heap, p: Piece, q: Piece, w0: map<nat, nat>, w1: map<nat, nat>)
    requires Inv(h) && LivePiece(h, p) && LivePiece(h, q) && p != q && p.Object? && p.order <= MAX_SLAB_ORDER
    requires forall a: nat :: a == Lo(h.start, p) || SameAt(w0, w1, a)
    ensures (q.Object? ==> q.order <= MAX_SLAB_ORDER) && SameWithin(w0, w1, Lo(h.start, q), Hi(h.start, q))
  {
    PieceInBlock(h, p);
    PiecesDisjoint(h, p, q);
  }

  lemma ReturnHeaders(h: Heap, p: Piece, q: Piece, h0: map<nat, Header>, h1: map<nat, Header>)
    requires Inv(h) && LivePiece(h, p) && LivePiece(h, q) && p.Object?
    requires forall a: nat :: SameAt(h0, h1, a) || a == Buddy.AddrOf(h.start, p.block)
    ensures (q.Object? ==> q.order <= MAX_SLAB_ORDER) && SameHeadersWithin(h0, h1, Lo(h.start, q), Hi(h.start, q))
  {
    var k: nat :| ObjectLive(h, p.order, k, p.block, p.i);
    HeaderApart(h, p.order, k, p.block, q);
  }

  /** The block of every other piece stays in use when `p` is returned, even if a slab behind the head
      is emptied. */
  lemma OthersStayInUse(h: Heap, p: Piece, size: nat, q: Piece)
    requires Inv(h) && LivePiece(h, p) && Matches(p, size) && LivePiece(h, q) && p != q
    ensures q.block in Dealloc(h, p, size).frames.live
  {
    PieceInBlock(h, p);
    PieceInBlock(h, q);
    if KeepsChain(h, p) {
      DeallocSafe(h, p, size);
      PieceInBlock(Dealloc(h, p, size), q);
    } else {
      FoundSlab(h, p);
      var cache := h.caches[p.order];
      var k := IndexOf(cache.blocks, p.block);
      assert CacheOk(h, p.order);
      FreeOk(Conf(p.order), cache.chain, k, p.i);
      if q.block == p.block {
        SameSlab(h, p, q);
      }
    }
  }

  /** The frame of a new slab was not in use before. */
  lemma NewSlabBlock(h: Heap, size: nat)
    requires Inv(h) && Order(size) <= MAX_SLAB_ORDER
    ensures var o, next := Order(size), Dispatch.Alloc(h, size).0;
      |next.caches[o].chain| > |h.caches[o].chain| ==>
        next.caches[o].blocks != [] && next.caches[o].blocks[0] !in h.frames.live
  {
    var o := Order(size);
    assert CacheOk(h, o);
    Runs.AllocSafe(h.frames, SLAB_PAGES);
    hide Order, Spec.AllocPages, Spec.Inv;
  }
}
