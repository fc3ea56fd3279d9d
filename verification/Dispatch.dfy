/** The kernel heap: sizes up to a page go to one of thirteen slab caches, larger ones to the buddy
    allocator, and the caches take their slabs from that same allocator. */
module Dispatch {
  import opened Common
  import opened Bits
  import opened Dyadic
  import opened SlabSpec
  import opened SlabAllocator
  import Buddy = BuddyAllocator
  import Spec = BuddySpec
  import Runs = BuddyRuns

  const MAX_SLAB_ORDER: nat := 12

  datatype Cache = Cache(chain: seq<Slab>, blocks: seq<Block>)

  /** The managed range starts at `start`; cache `o` serves sizes of order `o`. */
  datatype Heap = Heap(start: nat, frames: Spec.State, caches: seq<Cache>)

  /** A piece of memory handed out: object `i` of the slab in `block`, or a whole block. */
  datatype Piece = Object(order: nat, block: Block, i: nat) | Pages(block: Block)

  function Conf(o: nat): (c: Config)
    requires o <= MAX_SLAB_ORDER
    ensures ConfigOk(c) && c.size == c.align == if o <= 3 then 8 else Pow2(o)
  {
    PowersUpToPage(o);
    if o <= 3 then Config(8, 8) else Config(Pow2(o), Pow2(o))
  }

  lemma PowersUpToPage(o: nat)
    requires o <= MAX_SLAB_ORDER
    ensures 3 <= o ==> 8 <= Pow2(o) <= PAGE_SIZE && PAGE_SIZE % Pow2(o) == 0
  {
    assert Pow2(0) == 1 && Pow2(1) == 2 && Pow2(2) == 4 && Pow2(3) == 8 && Pow2(4) == 16 && Pow2(5) == 32;
    assert Pow2(6) == 64 && Pow2(7) == 128 && Pow2(8) == 256 && Pow2(9) == 512 && Pow2(10) == 1024;
    assert Pow2(11) == 2048 && Pow2(12) == 4096;
  }

  function PageCount(size: nat): nat {
    (size + (PAGE_SIZE - 1)) / PAGE_SIZE
  }

  // ----- addresses -----

  function Lo(start: nat, p: Piece): nat
    requires p.Object? ==> p.order <= MAX_SLAB_ORDER
  {
    match p
    case Object(o, b, i) => ObjAddr(Conf(o), Buddy.AddrOf(start, b), i)
    case Pages(b) => Buddy.AddrOf(start, b)
  }

  function Hi(start: nat, p: Piece): nat
    requires p.Object? ==> p.order <= MAX_SLAB_ORDER
  {
    match p
    case Object(o, b, i) => ObjAddr(Conf(o), Buddy.AddrOf(start, b), i) + Conf(o).size
    case Pages(b) => Buddy.AddrOf(start, b) + Pow2(b.order) * PAGE_SIZE
  }

  // ----- the heap -----

  /** `b` is the frame of slab `k` of cache `o`. */
  predicate IsSlab(h: Heap, o: nat, k: nat, b: Block) {
    o < |h.caches| && k < |h.caches[o].blocks| && h.caches[o].blocks[k] == b
  }

  ghost predicate CacheOk(h: Heap, o: nat)
    requires o < |h.caches| && o <= MAX_SLAB_ORDER
  {
    && ChainOk(Conf(o), h.caches[o].chain)
    && Held(h.start, h.frames.live, h.caches[o].blocks, h.caches[o].chain)
  }

  ghost predicate Inv(h: Heap) {
    && |h.caches| == MAX_SLAB_ORDER + 1
    && Spec.Inv(h.frames)
    && h.start % PAGE_SIZE == 0
    && (h.frames.pages > 0 ==> h.start > 0)
    && (forall o: nat :: o <= MAX_SLAB_ORDER ==> CacheOk(h, o))
    && (forall o1, k1, o2, k2, b :: IsSlab(h, o1, k1, b) && IsSlab(h, o2, k2, b) ==> o1 == o2 && k1 == k2)
  }

  /** Slab `k` of cache `o` has handed out object `i`. */
  predicate ObjectLive(h: Heap, o: nat, k: nat, b: Block, i: nat) {
    && IsSlab(h, o, k, b) && o <= MAX_SLAB_ORDER && k < |h.caches[o].chain|
    && Live(Conf(o), h.caches[o].chain[k], i)
  }

  ghost predicate LivePiece(h: Heap, p: Piece) {
    match p
    case Object(o, b, i) => exists k: nat :: ObjectLive(h, o, k, b, i)
    case Pages(b) => b in h.frames.live && forall o: nat, k: nat :: !IsSlab(h, o, k, b)
  }

  // ----- live pieces do not overlap -----

  /** Different blocks in use occupy different addresses inside the range. */
  lemma BlockRanges(s: Spec.State, start: nat, b: Block, c: Block)
    requires Spec.Inv(s) && b in s.live && c in s.live
    ensures start <= Buddy.AddrOf(start, b)
    ensures Buddy.AddrOf(start, b) + Pow2(b.order) * PAGE_SIZE <= start + s.pages * PAGE_SIZE
    ensures b != c ==>
      || Buddy.AddrOf(start, b) + Pow2(b.order) * PAGE_SIZE <= Buddy.AddrOf(start, c)
      || Buddy.AddrOf(start, c) + Pow2(c.order) * PAGE_SIZE <= Buddy.AddrOf(start, b)
  {
    var all := Spec.FreeSet(s.lists) + s.live;
    assert b in all && c in all;
    var f, g := FirstPage(b), FirstPage(c);
    var last := f + Pow2(b.order) - 1;
    HoldsIsRange(b, last);
    assert Covers(all, last);
    if b != c {
      HoldsIsRange(b, f);
      HoldsIsRange(b, g);
      HoldsIsRange(c, f);
      HoldsIsRange(c, g);
    }
  }

  /** The block a live piece is part of is in use and contains it. */
  lemma PieceInBlock(h: Heap, p: Piece)
    requires Inv(h) && LivePiece(h, p)
    ensures p.block in h.frames.live
    ensures p.Object? ==> p.order <= MAX_SLAB_ORDER && p.block.order == 1
    ensures Buddy.AddrOf(h.start, p.block) <= Lo(h.start, p) < Hi(h.start, p)
    ensures Hi(h.start, p) <= Buddy.AddrOf(h.start, p.block) + Pow2(p.block.order) * PAGE_SIZE
  {
    if p.Object? {
      var k: nat :| ObjectLive(h, p.order, k, p.block, p.i);
      assert CacheOk(h, p.order);
      ObjectsFit(Conf(p.order), p.i);
      assert Pow2(1) == 2;
    }
  }

  /** Any two pieces in use are disjoint. */
  lemma PiecesDisjoint(h: Heap, p: Piece, q: Piece)
    requires Inv(h) && LivePiece(h, p) && LivePiece(h, q) && p != q
    ensures p.Object? ==> p.order <= MAX_SLAB_ORDER
    ensures q.Object? ==> q.order <= MAX_SLAB_ORDER
    ensures Hi(h.start, p) <= Lo(h.start, q) || Hi(h.start, q) <= Lo(h.start, p)
  {
    PieceInBlock(h, p);
    PieceInBlock(h, q);
    BlockRanges(h.frames, h.start, p.block, q.block);
    if p.block == q.block {
      SameSlab(h, p, q);
      if p.i < q.i {
        ObjectsDisjoint(Conf(p.order), p.i, q.i);
      } else {
        ObjectsDisjoint(Conf(p.order), q.i, p.i);
      }
    }
  }

  lemma SameSlab(h: Heap, p: Piece, q: Piece)
    requires Inv(h) && LivePiece(h, p) && LivePiece(h, q) && p != q && p.block == q.block
    ensures p.Object? && q.Object? && p.order == q.order && p.i != q.i
  {
    if p.Object? {
      var k: nat :| ObjectLive(h, p.order, k, p.block, p.i);
      assert IsSlab(h, p.order, k, q.block);
    }
    if q.Object? {
      var l: nat :| ObjectLive(h, q.order, l, q.block, q.i);
      assert IsSlab(h, q.order, l, p.block);
    }
  }

  // ----- what each change does to the pieces -----

  function WithChain(h: Heap, o: nat, chain: seq<Slab>): Heap
    requires o < |h.caches|
  {
    h.(caches := h.caches[o := h.caches[o].(chain := chain)])
  }

  function WithSlab(h: Heap, o: nat, t: Spec.State, b: Block): Heap
    requires o < |h.caches| && o <= MAX_SLAB_ORDER
  {
    var cache := h.caches[o];
    var n := NewSlab(Conf(o), Buddy.AddrOf(h.start, b));
    h.(frames := t, caches := h.caches[o := Cache([n] + cache.chain, [b] + cache.blocks)])
  }

  /** Replacing slab `k` of cache `o` keeps the heap if the slab stays at its page. */
  lemma ReplaceKeeps(h: Heap, o: nat, k: nat, s: Slab)
    requires Inv(h) && o <= MAX_SLAB_ORDER && k < |h.caches[o].chain|
    requires SlabOk(Conf(o), s) && s.page == h.caches[o].chain[k].page
    ensures Inv(WithChain(h, o, h.caches[o].chain[k := s]))
    ensures forall o1: nat, k1: nat, b :: IsSlab(WithChain(h, o, h.caches[o].chain[k := s]), o1, k1, b) <==>
      IsSlab(h, o1, k1, b)
  {
    var next := WithChain(h, o, h.caches[o].chain[k := s]);
    assert CacheOk(h, o);
    forall o1: nat | o1 <= MAX_SLAB_ORDER
      ensures CacheOk(next, o1)
    {
      assert CacheOk(h, o1);
    }
    forall o1: nat, k1: nat, b
      ensures IsSlab(next, o1, k1, b) <==> IsSlab(h, o1, k1, b)
    {
    }
  }

  /** `q` is a piece of the slab in block `b` of cache `o`. */
  predicate PieceOf(q: Piece, o: nat, b: Block) {
    q.Object? && q.order == o && q.block == b
  }

  /** The pieces after slab `k` of cache `o` has become `s`. */
  lemma PieceChange(h: Heap, o: nat, k: nat, s: Slab, q: Piece)
    requires Inv(h) && o <= MAX_SLAB_ORDER && k < |h.caches[o].chain| == |h.caches[o].blocks|
    requires SlabOk(Conf(o), s) && s.page == h.caches[o].chain[k].page
    ensures LivePiece(WithChain(h, o, h.caches[o].chain[k := s]), q) <==>
      if PieceOf(q, o, h.caches[o].blocks[k]) then Live(Conf(o), s, q.i) else LivePiece(h, q)
  {
    var next := WithChain(h, o, h.caches[o].chain[k := s]);
    ReplaceKeeps(h, o, k, s);
    hide Inv, ChainOk, SlabOk, Count;
    var b := h.caches[o].blocks[k];
    assert IsSlab(h, o, k, b);
    if q.Object? {
      if PieceOf(q, o, b) {
        if LivePiece(next, q) {
          var l: nat :| ObjectLive(next, o, l, b, q.i);
          SlabUnique(h, o, k, o, l, b);
        } else {
          assert IsSlab(next, o, k, b) && !ObjectLive(next, o, k, b, q.i);
        }
      } else {
        forall l: nat
          ensures ObjectLive(next, q.order, l, q.block, q.i) <==> ObjectLive(h, q.order, l, q.block, q.i)
        {
        }
      }
    } else {
      assert forall o1: nat, k1: nat :: IsSlab(h, o1, k1, q.block) <==> IsSlab(next, o1, k1, q.block);
    }
  }

  lemma SlabUnique(h: Heap, o1: nat, k1: nat, o2: nat, k2: nat, b: Block)
    requires Inv(h) && IsSlab(h, o1, k1, b) && IsSlab(h, o2, k2, b)
    ensures o1 == o2 && k1 == k2
  {
  }

  /** Which objects of a slab are in use is what its piece-wise liveness says. */
  lemma SlabPieces(h: Heap, o: nat, k: nat, i: nat)
    requires Inv(h) && o <= MAX_SLAB_ORDER && k < |h.caches[o].chain| == |h.caches[o].blocks|
    ensures LivePiece(h, Object(o, h.caches[o].blocks[k], i)) <==> Live(Conf(o), h.caches[o].chain[k], i)
  {
    hide ChainOk, SlabOk, Count;
    var b := h.caches[o].blocks[k];
    if LivePiece(h, Object(o, b, i)) {
      var l: nat :| ObjectLive(h, o, l, b, i);
      SlabUnique(h, o, k, o, l, b);
    } else {
      assert !ObjectLive(h, o, k, b, i);
    }
  }

  /** Taking an object of a slab adds that piece. */
  lemma TakeKeeps(h: Heap, o: nat, k: nat)
    requires Inv(h) && o <= MAX_SLAB_ORDER && k < |h.caches[o].chain| && h.caches[o].chain[k].free != []
    ensures k < |h.caches[o].blocks|
    ensures var s := h.caches[o].chain[k];
      var next := WithChain(h, o, h.caches[o].chain[k := Take(s)]);
      var p := Object(o, h.caches[o].blocks[k], s.free[0]);
      Inv(next) && !LivePiece(h, p) && forall q :: LivePiece(next, q) <==> LivePiece(h, q) || q == p
  {
    assert CacheOk(h, o);
    var s := h.caches[o].chain[k];
    var b := h.caches[o].blocks[k];
    TakeOk(Conf(o), s);
    ReplaceKeeps(h, o, k, Take(s));
    hide Inv, ChainOk, SlabOk, Count, LivePiece;
    SlabPieces(h, o, k, s.free[0]);
    forall q
      ensures LivePiece(WithChain(h, o, h.caches[o].chain[k := Take(s)]), q) <==>
        LivePiece(h, q) || q == Object(o, b, s.free[0])
    {
      PieceChange(h, o, k, Take(s), q);
      if PieceOf(q, o, b) {
        SlabPieces(h, o, k, q.i);
      }
    }
  }

  /** Giving an object of a slab back removes that piece. */
  lemma GiveKeeps(h: Heap, o: nat, k: nat, i: nat)
    requires Inv(h) && o <= MAX_SLAB_ORDER && k < |h.caches[o].chain| && Live(Conf(o), h.caches[o].chain[k], i)
    ensures k < |h.caches[o].blocks| && h.caches[o].chain[k].active > 0
    ensures var s := h.caches[o].chain[k];
      var next := WithChain(h, o, h.caches[o].chain[k := Give(s, i)]);
      var p := Object(o, h.caches[o].blocks[k], i);
      Inv(next) && LivePiece(h, p) && forall q :: LivePiece(next, q) <==> LivePiece(h, q) && q != p
  {
    assert CacheOk(h, o);
    var s := h.caches[o].chain[k];
    var b := h.caches[o].blocks[k];
    GiveOk(Conf(o), s, i);
    ReplaceKeeps(h, o, k, Give(s, i));
    hide Inv, ChainOk, SlabOk, Count, LivePiece;
    SlabPieces(h, o, k, i);
    forall q
      ensures LivePiece(WithChain(h, o, h.caches[o].chain[k := Give(s, i)]), q) <==>
        LivePiece(h, q) && q != Object(o, b, i)
    {
      PieceChange(h, o, k, Give(s, i), q);
      if PieceOf(q, o, b) {
        SlabPieces(h, o, k, q.i);
      }
    }
  }

  /** Slab numbers after one was put in front of cache `o`. */
  function Older(o: nat, o1: nat, k1: nat): nat
    requires o1 == o ==> k1 > 0
  {
    if o1 == o then k1 - 1 else k1
  }

  lemma AddedSlabs(h: Heap, o: nat, t: Spec.State, b: Block, o1: nat, k1: nat, c: Block)
    requires o < |h.caches| && o <= MAX_SLAB_ORDER
    ensures IsSlab(WithSlab(h, o, t, b), o1, k1, c)
       <==> if o1 == o && k1 == 0 then c == b else IsSlab(h, o1, Older(o, o1, k1), c)
  {
  }

  /** Adding a slab keeps the heap. */
  lemma AddInv(h: Heap, o: nat, t: Spec.State, b: Block)
    requires Inv(h) && o <= MAX_SLAB_ORDER && Spec.AllocPages(h.frames, SLAB_PAGES) == (t, Some(b))
    ensures Inv(WithSlab(h, o, t, b)) && b !in h.frames.live && t.live == h.frames.live + {b}
  {
    var next := WithSlab(h, o, t, b);
    Runs.AllocSafe(h.frames, SLAB_PAGES);
    forall o1: nat | o1 <= MAX_SLAB_ORDER
      ensures CacheOk(next, o1)
    {
      assert CacheOk(h, o1);
      NewFrame(h.frames, h.start, h.caches[o1].blocks, h.caches[o1].chain);
      if o1 == o {
        var page := Buddy.AddrOf(h.start, b);
        NewOk(Conf(o), page);
        HeldCons(h.start, t.live, h.caches[o].blocks, h.caches[o].chain, b, NewSlab(Conf(o), page));
      }
    }
    AddDistinct(h, o, t, b);
  }

  lemma SlabInUse(h: Heap, o: nat, k: nat, b: Block)
    requires Inv(h) && IsSlab(h, o, k, b)
    ensures b in h.frames.live
  {
    assert CacheOk(h, o);
  }

  lemma AddDistinct(h: Heap, o: nat, t: Spec.State, b: Block)
    requires Inv(h) && o <= MAX_SLAB_ORDER && b !in h.frames.live
    ensures var next := WithSlab(h, o, t, b);
      forall o1, k1, o2, k2, c :: IsSlab(next, o1, k1, c) && IsSlab(next, o2, k2, c) ==> o1 == o2 && k1 == k2
  {
    var next := WithSlab(h, o, t, b);
    forall o1: nat, k1: nat, o2: nat, k2: nat, c | IsSlab(next, o1, k1, c) && IsSlab(next, o2, k2, c)
      ensures o1 == o2 && k1 == k2
    {
      AddedSlabs(h, o, t, b, o1, k1, c);
      AddedSlabs(h, o, t, b, o2, k2, c);
      hide CacheOk, WithSlab, Spec.Inv;
      if !(o1 == o && k1 == 0) {
        SlabInUse(h, o1, Older(o, o1, k1), c);
      }
      if !(o2 == o && k2 == 0) {
        SlabInUse(h, o2, Older(o, o2, k2), c);
      }
    }
  }

  /** Adding a slab changes no piece. */
  lemma AddPieces(h: Heap, o: nat, t: Spec.State, b: Block, q: Piece)
    requires Inv(h) && o <= MAX_SLAB_ORDER && Spec.AllocPages(h.frames, SLAB_PAGES) == (t, Some(b))
    ensures LivePiece(WithSlab(h, o, t, b), q) <==> LivePiece(h, q)
  {
    var next := WithSlab(h, o, t, b);
    AddInv(h, o, t, b);
    if q.Object? {
      AddObjects(h, o, t, b, q);
    } else {
      AddPages(h, o, t, b, q);
    }
  }

  lemma AddPages(h: Heap, o: nat, t: Spec.State, b: Block, q: Piece)
    requires Inv(h) && o <= MAX_SLAB_ORDER && q.Pages? && b !in h.frames.live && t.live == h.frames.live + {b}
    ensures LivePiece(WithSlab(h, o, t, b), q) <==> LivePiece(h, q)
  {
    var next := WithSlab(h, o, t, b);
    hide Inv, CacheOk;
    AddedSlabs(h, o, t, b, o, 0, b);
    if LivePiece(h, q) {
      forall o1: nat, k1: nat
        ensures !IsSlab(next, o1, k1, q.block)
      {
        AddedSlabs(h, o, t, b, o1, k1, q.block);
      }
    }
    if LivePiece(next, q) {
      forall o1: nat, k1: nat
        ensures !IsSlab(h, o1, k1, q.block)
      {
        AddedSlabs(h, o, t, b, o1, if o1 == o then k1 + 1 else k1, q.block);
      }
    }
  }

  lemma AddObjects(h: Heap, o: nat, t: Spec.State, b: Block, q: Piece)
    requires Inv(h) && o <= MAX_SLAB_ORDER && q.Object?
    ensures LivePiece(WithSlab(h, o, t, b), q) <==> LivePiece(h, q)
  {
    var next := WithSlab(h, o, t, b);
    ActiveIsNone(Conf(o), Buddy.AddrOf(h.start, b));
    hide Inv, CacheOk, Count;
    if LivePiece(h, q) {
      var l: nat :| ObjectLive(h, q.order, l, q.block, q.i);
      assert ObjectLive(next, q.order, if q.order == o then l + 1 else l, q.block, q.i);
    }
    if LivePiece(next, q) {
      var l: nat :| ObjectLive(next, q.order, l, q.block, q.i);
      assert ObjectLive(h, q.order, Older(o, q.order, l), q.block, q.i);
    }
  }

  lemma ActiveIsNone(c: Config, page: nat)
    requires ConfigOk(c)
    ensures forall i: nat :: !Live(c, NewSlab(c, page), i)
  {
    var n := Count(c);
    hide Count;
    forall i: nat | i < n
      ensures i in Down(n)
    {
      assert Down(n)[n - 1 - i] == i;
    }
  }

  function WithoutHead(h: Heap, o: nat, t: Spec.State): Heap
    requires o < |h.caches| && h.caches[o].chain != [] && h.caches[o].blocks != []
  {
    h.(frames := t, caches := h.caches[o := Cache(h.caches[o].chain[1..], h.caches[o].blocks[1..])])
  }

  lemma DroppedSlabs(h: Heap, o: nat, t: Spec.State, o1: nat, k1: nat, c: Block)
    requires o < |h.caches| && h.caches[o].chain != [] && h.caches[o].blocks != []
    ensures IsSlab(h, o1, k1, c)
       <==> if o1 == o && k1 == 0 then c == h.caches[o].blocks[0]
            else IsSlab(WithoutHead(h, o, t), o1, Older(o, o1, k1), c)
  {
  }

  /** Giving the emptied head slab of cache `o` back. */
  ghost predicate Emptied(h: Heap, o: nat, t: Spec.State) {
    && Inv(h) && o <= MAX_SLAB_ORDER
    && h.caches[o].chain != [] && h.caches[o].blocks != []
    && h.caches[o].chain[0].active == 0
    && h.caches[o].blocks[0] in h.frames.live && h.caches[o].blocks[0].order == 1
    && t == Spec.FreePages(h.frames, h.caches[o].blocks[0], SLAB_PAGES)
  }

  lemma DropInv(h: Heap, o: nat, t: Spec.State)
    requires Emptied(h, o, t)
    ensures Inv(WithoutHead(h, o, t)) && t.live == h.frames.live - {h.caches[o].blocks[0]}
  {
    var next := WithoutHead(h, o, t);
    var b := h.caches[o].blocks[0];
    assert CacheOk(h, o);
    Runs.FreeSafe(h.frames, b, SLAB_PAGES);
    GiveBack(h.frames, h.start, h.caches[o].blocks, h.caches[o].chain, 0);
    forall o1: nat | o1 <= MAX_SLAB_ORDER
      ensures CacheOk(next, o1)
    {
      DropCache(h, o, t, o1);
    }
    DropDistinct(h, o, t);
  }

  lemma DropCache(h: Heap, o: nat, t: Spec.State, o1: nat)
    requires Emptied(h, o, t) && o1 <= MAX_SLAB_ORDER
    requires t.live == h.frames.live - {h.caches[o].blocks[0]}
    requires Held(h.start, t.live, h.caches[o].blocks[1..], h.caches[o].chain[1..])
    ensures CacheOk(WithoutHead(h, o, t), o1)
  {
    assert CacheOk(h, o1);
    hide SlabOk, Apart, Spec.Inv, Spec.FreePages, Count;
    if o1 != o {
      var b := h.caches[o].blocks[0];
      assert IsSlab(h, o, 0, b);
      forall k: nat | k < |h.caches[o1].blocks|
        ensures h.caches[o1].blocks[k] != b
      {
        assert IsSlab(h, o1, k, h.caches[o1].blocks[k]);
      }
    }
  }

  lemma DropDistinct(h: Heap, o: nat, t: Spec.State)
    requires Emptied(h, o, t)
    ensures var next := WithoutHead(h, o, t);
      forall o1, k1, o2, k2, c :: IsSlab(next, o1, k1, c) && IsSlab(next, o2, k2, c) ==> o1 == o2 && k1 == k2
  {
    var next := WithoutHead(h, o, t);
    forall o1: nat, k1: nat, o2: nat, k2: nat, c | IsSlab(next, o1, k1, c) && IsSlab(next, o2, k2, c)
      ensures o1 == o2 && k1 == k2
    {
      var l1, l2 := if o1 == o then k1 + 1 else k1, if o2 == o then k2 + 1 else k2;
      DroppedSlabs(h, o, t, o1, l1, c);
      DroppedSlabs(h, o, t, o2, l2, c);
      hide CacheOk, WithoutHead, Spec.Inv, Spec.FreePages;
      SlabUnique(h, o1, l1, o2, l2, c);
    }
  }

  /** Giving the head slab back changes no piece. */
  lemma DropPieces(h: Heap, o: nat, t: Spec.State, q: Piece)
    requires Emptied(h, o, t)
    ensures LivePiece(WithoutHead(h, o, t), q) <==> LivePiece(h, q)
  {
    var next := WithoutHead(h, o, t);
    DropInv(h, o, t);
    assert CacheOk(h, o);
    ActiveIsLive(Conf(o), h.caches[o].chain[0]);
    hide Inv, CacheOk, Count, SlabOk, Spec.FreePages;
    var b := h.caches[o].blocks[0];
    DroppedSlabs(h, o, t, o, 0, b);
    if LivePiece(h, q) {
      if q.Object? {
        var l: nat :| ObjectLive(h, q.order, l, q.block, q.i);
        assert ObjectLive(next, q.order, Older(o, q.order, l), q.block, q.i);
      } else {
        forall o1: nat, k1: nat
          ensures !IsSlab(next, o1, k1, q.block)
        {
          DroppedSlabs(h, o, t, o1, if o1 == o then k1 + 1 else k1, q.block);
        }
      }
    }
    if LivePiece(next, q) {
      if q.Object? {
        var l: nat :| ObjectLive(next, q.order, l, q.block, q.i);
        assert ObjectLive(h, q.order, if q.order == o then l + 1 else l, q.block, q.i);
      } else {
        forall o1: nat, k1: nat
          ensures !IsSlab(h, o1, k1, q.block)
        {
          DroppedSlabs(h, o, t, o1, k1, q.block);
        }
      }
    }
  }

  /** Allocating pages adds the block as a piece. */
  lemma BigAllocKeeps(h: Heap, pages: nat, t: Spec.State, b: Block)
    requires Inv(h) && Spec.AllocPages(h.frames, pages) == (t, Some(b))
    ensures Inv(h.(frames := t)) && !LivePiece(h, Pages(b))
    ensures forall q :: LivePiece(h.(frames := t), q) <==> LivePiece(h, q) || q == Pages(b)
  {
    var next := h.(frames := t);
    Runs.AllocSafe(h.frames, pages);
    forall o: nat | o <= MAX_SLAB_ORDER
      ensures CacheOk(next, o)
    {
      assert CacheOk(h, o);
    }
    SameSlabs(h, t);
    forall q
      ensures LivePiece(next, q) <==> LivePiece(h, q) || q == Pages(b)
    {
      SameObjects(h, t, q);
      if q == Pages(b) {
        forall o: nat, k: nat
          ensures !IsSlab(next, o, k, b)
        {
          if IsSlab(next, o, k, b) {
            SlabInUse(h, o, k, b);
          }
        }
      }
    }
  }

  lemma SameSlabs(h: Heap, t: Spec.State)
    ensures forall o: nat, k: nat, b :: IsSlab(h.(frames := t), o, k, b) <==> IsSlab(h, o, k, b)
  {
  }

  lemma SameObjects(h: Heap, t: Spec.State, q: Piece)
    ensures q.Object? ==> (LivePiece(h.(frames := t), q) <==> LivePiece(h, q))
    ensures q.Pages? && (q.block in t.live <==> q.block in h.frames.live) ==>
      (LivePiece(h.(frames := t), q) <==> LivePiece(h, q))
  {
    var next := h.(frames := t);
    if q.Object? {
      assert forall k: nat :: ObjectLive(next, q.order, k, q.block, q.i) <==> ObjectLive(h, q.order, k, q.block, q.i);
    } else {
      assert forall o: nat, k: nat :: IsSlab(next, o, k, q.block) <==> IsSlab(h, o, k, q.block);
    }
  }

  /** Freeing the pages of a piece removes it. */
  lemma BigFreeKeeps(h: Heap, b: Block, pages: nat)
    requires Inv(h) && LivePiece(h, Pages(b)) && !Spec.BadCount(pages)
    ensures b.order < Spec.MAX_ORDER
    ensures var t := Spec.FreePages(h.frames, b, pages);
      && Inv(h.(frames := t))
      && forall q :: LivePiece(h.(frames := t), q) <==> LivePiece(h, q) && q != Pages(b)
  {
    var t := Spec.FreePages(h.frames, b, pages);
    var next := h.(frames := t);
    Runs.FreeSafe(h.frames, b, pages);
    forall o: nat | o <= MAX_SLAB_ORDER
      ensures CacheOk(next, o)
    {
      assert CacheOk(h, o);
      forall k: nat | k < |h.caches[o].blocks|
        ensures h.caches[o].blocks[k] != b
      {
        assert IsSlab(h, o, k, h.caches[o].blocks[k]);
      }
    }
    SameSlabs(h, t);
    forall q
      ensures LivePiece(next, q) <==> LivePiece(h, q) && q != Pages(b)
    {
      SameObjects(h, t, q);
    }
  }

  // ----- the two entry points -----

  /** `GlobalAllocator::alloc` of `size` bytes. */
  ghost function Alloc(h: Heap, size: nat): (Heap, Option<Piece>)
    requires |h.caches| == MAX_SLAB_ORDER + 1 && |h.frames.lists| == Spec.MAX_ORDER
  {
    var o := Order(size);
    if o > MAX_SLAB_ORDER then
      var (t, b) := Spec.AllocPages(h.frames, PageCount(size));
      (h.(frames := t), if b.Some? then Some(Pages(b.value)) else None)
    else
      var (t, chain, blocks, r) := AllocStep(Conf(o), h.start, h.frames, h.caches[o].chain, h.caches[o].blocks);
      (h.(frames := t, caches := h.caches[o := Cache(chain, blocks)]),
       if r.Some? && r.value.0 < |blocks| then Some(Object(o, blocks[r.value.0], r.value.1)) else None)
  }

  function IndexOf(blocks: seq<Block>, b: Block): (k: nat)
    ensures k <= |blocks| && (k < |blocks| ==> blocks[k] == b)
    ensures k == |blocks| ==> b !in blocks
  {
    if blocks == [] || blocks[0] == b then 0 else 1 + IndexOf(blocks[1..], b)
  }

  /** The layer, order and page count that `size` selects are those of the piece. */
  predicate Matches(p: Piece, size: nat) {
    match p
    case Object(o, _, _) => Order(size) == o <= MAX_SLAB_ORDER
    case Pages(b) =>
      Order(size) > MAX_SLAB_ORDER && !Spec.BadCount(PageCount(size)) && Order(PageCount(size)) == b.order
  }

  /** The piece is not the last one of a slab behind the head of its chain. */
  predicate KeepsChain(h: Heap, p: Piece) {
    p.Object? && p.order < |h.caches| ==>
      var cache := h.caches[p.order];
      var k := IndexOf(cache.blocks, p.block);
      k == 0 || k >= |cache.chain| || cache.chain[k].active > 1
  }

  /** `GlobalAllocator::dealloc` of a piece with the size it was allocated with. */
  ghost function Dealloc(h: Heap, p: Piece, size: nat): Heap
    requires Inv(h) && LivePiece(h, p) && Matches(p, size)
  {
    match p
    case Pages(b) => h.(frames := Spec.FreePages(h.frames, b, PageCount(size)))
    case Object(o, b, i) =>
      var cache := h.caches[o];
      var k := IndexOf(cache.blocks, b);
      FoundSlab(h, p);
      var (next, freed) := SlabSpec.Free(cache.chain, k, i);
      var t := if freed.Some? then Spec.FreePages(h.frames, b, SLAB_PAGES) else h.frames;
      var blocks := if freed.Some? && k == 0 then cache.blocks[1..] else cache.blocks;
      h.(frames := t, caches := h.caches[o := Cache(next, blocks)])
  }

  lemma FoundSlab(h: Heap, p: Piece)
    requires Inv(h) && LivePiece(h, p) && p.Object?
    ensures p.order <= MAX_SLAB_ORDER && p.block.order == 1
    ensures var cache := h.caches[p.order];
      var k := IndexOf(cache.blocks, p.block);
      k < |cache.chain| == |cache.blocks| && Live(Conf(p.order), cache.chain[k], p.i) && cache.chain[k].active > 0
  {
    var l: nat :| ObjectLive(h, p.order, l, p.block, p.i);
    assert CacheOk(h, p.order);
    var cache := h.caches[p.order];
    var k := IndexOf(cache.blocks, p.block);
    assert cache.blocks[l] in cache.blocks;
    assert IsSlab(h, p.order, k, p.block);
    SlabUnique(h, p.order, k, p.order, l, p.block);
    GiveOk(Conf(p.order), cache.chain[k], p.i);
  }

  /** An allocation adds one piece and changes no other; a failed one changes nothing. */
  lemma AllocSafe(h: Heap, size: nat)
    requires Inv(h)
    ensures var (next, r) := Alloc(h, size);
      && Inv(next) && next.start == h.start && next.frames.pages == h.frames.pages
      && (r == None ==> next == h)
      && (r.Some? ==>
            && Matches(r.value, size) && !LivePiece(h, r.value)
            && forall q :: LivePiece(next, q) <==> LivePiece(h, q) || q == r.value)
  {
    var o := Order(size);
    if o > MAX_SLAB_ORDER {
      Runs.AllocSafe(h.frames, PageCount(size));
      var (t, b) := Spec.AllocPages(h.frames, PageCount(size));
      if b.Some? {
        BigAllocKeeps(h, PageCount(size), t, b.value);
      }
    } else {
      SmallAllocSafe(h, size);
    }
  }

  lemma SmallAllocSafe(h: Heap, size: nat)
    requires Inv(h) && Order(size) <= MAX_SLAB_ORDER
    ensures var (next, r) := Alloc(h, size);
      && Inv(next) && next.start == h.start && next.frames.pages == h.frames.pages
      && (r == None ==> next == h)
      && (r.Some? ==>
            && Matches(r.value, size) && !LivePiece(h, r.value)
            && forall q :: LivePiece(next, q) <==> LivePiece(h, q) || q == r.value)
  {
    var o := Order(size);
    var cache := h.caches[o];
    assert CacheOk(h, o);
    if FirstFree(cache.chain, 0) < |cache.chain| {
      FromChain(h, size);
    } else {
      var (t, b) := Spec.AllocPages(h.frames, SLAB_PAGES);
      Runs.AllocSafe(h.frames, SLAB_PAGES);
      if b == None {
        StepNone(Conf(o), h.start, h.frames, cache.chain, cache.blocks);
        assert h.caches[o := Cache(cache.chain, cache.blocks)] == h.caches;
      } else {
        FromNew(h, size, t, b.value);
      }
    }
  }

  /** Allocating with a new slab is allocating after that slab has been added. */
  lemma AllocGrown(h: Heap, size: nat, t: Spec.State, b: Block)
    requires Inv(h) && Order(size) <= MAX_SLAB_ORDER && |t.lists| == Spec.MAX_ORDER
    requires var chain := h.caches[Order(size)].chain; FirstFree(chain, 0) == |chain|
    requires Spec.AllocPages(h.frames, SLAB_PAGES) == (t, Some(b))
    ensures Alloc(h, size) == Alloc(WithSlab(h, Order(size), t, b), size)
    ensures FirstFree(WithSlab(h, Order(size), t, b).caches[Order(size)].chain, 0) == 0
  {
    var o := Order(size);
    var grown := WithSlab(h, o, t, b);
    StepGrow(Conf(o), h.start, h.frames, t, h.caches[o].chain, h.caches[o].blocks, b);
    hide AllocStep, Spec.AllocPages, Order, FirstFree, CacheOk;
    var (t1, chain, blocks, r) := AllocStep(Conf(o), h.start, h.frames, h.caches[o].chain, h.caches[o].blocks);
    assert grown.caches[o := Cache(chain, blocks)] == h.caches[o := Cache(chain, blocks)];
  }

  lemma FromNew(h: Heap, size: nat, t: Spec.State, b: Block)
    requires Inv(h) && Order(size) <= MAX_SLAB_ORDER && |t.lists| == Spec.MAX_ORDER
    requires var chain := h.caches[Order(size)].chain; FirstFree(chain, 0) == |chain|
    requires Spec.AllocPages(h.frames, SLAB_PAGES) == (t, Some(b))
    ensures var (next, r) := Alloc(h, size);
      && Inv(next) && next.start == h.start && next.frames == t
      && r.Some? && Matches(r.value, size) && !LivePiece(h, r.value)
      && forall q :: LivePiece(next, q) <==> LivePiece(h, q) || q == r.value
  {
    var o := Order(size);
    var grown := WithSlab(h, o, t, b);
    AddInv(h, o, t, b);
    AllocGrown(h, size, t, b);
    FromChain(grown, size);
    hide Alloc, LivePiece, Inv;
    forall q
      ensures LivePiece(grown, q) <==> LivePiece(h, q)
    {
      AddPieces(h, o, t, b, q);
    }
  }

  /** An object from a slab already on the chain. */
  lemma FromChain(h: Heap, size: nat)
    requires Inv(h) && Order(size) <= MAX_SLAB_ORDER
    requires FirstFree(h.caches[Order(size)].chain, 0) < |h.caches[Order(size)].chain|
    ensures var (next, r) := Alloc(h, size);
      && Inv(next) && next.start == h.start && next.frames == h.frames
      && r.Some? && Matches(r.value, size) && !LivePiece(h, r.value)
      && forall q :: LivePiece(next, q) <==> LivePiece(h, q) || q == r.value
  {
    var o := Order(size);
    var cache := h.caches[o];
    var k := FirstFree(cache.chain, 0);
    TakeKeeps(h, o, k);
    StepFirst(Conf(o), h.start, h.frames, cache.chain, cache.blocks);
  }

  /** A free that keeps the chain removes one piece and changes no other. */
  lemma DeallocSafe(h: Heap, p: Piece, size: nat)
    requires Inv(h) && LivePiece(h, p) && Matches(p, size) && KeepsChain(h, p)
    ensures var next := Dealloc(h, p, size);
      && Inv(next) && next.start == h.start && next.frames.pages == h.frames.pages
      && forall q :: LivePiece(next, q) <==> LivePiece(h, q) && q != p
  {
    match p
    case Pages(b) =>
      Runs.FreeSafe(h.frames, b, PageCount(size));
      BigFreeKeeps(h, b, PageCount(size));
    case Object(o, b, i) =>
      FoundSlab(h, p);
      var cache := h.caches[o];
      var k := IndexOf(cache.blocks, b);
      GiveKeeps(h, o, k, i);
      var given := WithChain(h, o, cache.chain[k := Give(cache.chain[k], i)]);
      if cache.chain[k].active == 1 {
        assert CacheOk(h, o);
        var t := Spec.FreePages(h.frames, b, SLAB_PAGES);
        Runs.FreeSafe(h.frames, b, SLAB_PAGES);
        DropInv(given, o, t);
        assert given.caches[o].chain[1..] == cache.chain[1..];
        assert Dealloc(h, p, size) == WithoutHead(given, o, t);
        forall q
          ensures LivePiece(Dealloc(h, p, size), q) <==> LivePiece(given, q)
        {
          DropPieces(given, o, t, q);
        }
      } else {
        assert Dealloc(h, p, size) == given;
      }
  }

  /** Exactly the frees that keep the chain keep the heap. */
  lemma DeallocSafeIff(h: Heap, p: Piece, size: nat)
    requires Inv(h) && LivePiece(h, p) && Matches(p, size)
    ensures Inv(Dealloc(h, p, size)) <==> KeepsChain(h, p)
  {
    if KeepsChain(h, p) {
      DeallocSafe(h, p, size);
    } else {
      FoundSlab(h, p);
      var next := Dealloc(h, p, size);
      var cache := h.caches[p.order];
      var k := IndexOf(cache.blocks, p.block);
      assert CacheOk(h, p.order);
      Runs.FreeSafe(h.frames, p.block, SLAB_PAGES);
      GiveBack(h.frames, h.start, cache.blocks, cache.chain, k);
      assert next.caches[p.order].blocks[k] !in next.frames.live;
      assert !CacheOk(next, p.order);
    }
  }

  // ----- what a piece is good for -----

  lemma PageCountBounds(size: nat)
    ensures size <= PageCount(size) * PAGE_SIZE < size + PAGE_SIZE
  {
  }

  /** A piece has room for the size it was allocated for, and half of it has not, unless it is one of 8
      bytes. The pages asked for are as few as have room. */
  lemma RoomFor(start: nat, p: Piece, size: nat)
    requires Matches(p, size)
    ensures Lo(start, p) + size <= Hi(start, p)
    ensures Hi(start, p) - Lo(start, p) < 2 * size || Hi(start, p) - Lo(start, p) == 8
    ensures p.Pages? ==> size <= PageCount(size) * PAGE_SIZE < size + PAGE_SIZE
  {
    OrderIsLeast(size);
    match p
    case Object(o, _, _) =>
      if o < 3 {
        Pow2Monotone(o, 3);
        assert Pow2(3) == 8;
      }
    case Pages(b) =>
      PageCountBounds(size);
      OrderIsLeast(PageCount(size));
      if b.order > 0 {
        assert Pow2(b.order) == 2 * Pow2(b.order - 1);
      } else {
        Pow2Monotone(MAX_SLAB_ORDER, Order(size) - 1);
        assert Pow2(MAX_SLAB_ORDER) == 4096;
      }
  }
}
