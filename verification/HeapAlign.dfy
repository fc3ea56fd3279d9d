/** Alignment of what the kernel heap hands out: exactly which sizes and alignments the assertion of
    the entry point holds for, whatever has happened before. */
module HeapAlign {
  import opened Common
  import opened Bits
  import opened Dyadic
  import opened SlabSpec
  import opened SlabAllocator
  import opened Dispatch
  import Buddy = BuddyAllocator
  import Spec = BuddySpec

  // ----- powers of two -----

  lemma Pow2Splits(a: nat, b: nat)
    requires a <= b
    ensures exists m: nat :: Pow2(b) == m * Pow2(a)
    decreases b
  {
    if a == b {
      assert Pow2(b) == 1 * Pow2(a);
    } else {
      Pow2Splits(a, b - 1);
      var m: nat :| Pow2(b - 1) == m * Pow2(a);
      assert Pow2(b) == (2 * m) * Pow2(a);
    }
  }

  lemma MultipleOf(x: nat, a: nat, b: nat)
    requires a <= b && x % Pow2(b) == 0
    ensures x % Pow2(a) == 0
  {
    Pow2Splits(a, b);
    var m: nat :| Pow2(b) == m * Pow2(a);
    var q := x / Pow2(b);
    assert x == q * m * Pow2(a);
    MultipleMod(q * m, Pow2(a), 0);
  }

  /** All objects of a cache are aligned to `2^e` exactly when `e` is at most its order, or 3. */
  lemma AlignIff(o: nat, e: nat)
    requires o <= MAX_SLAB_ORDER && e <= MAX_SLAB_ORDER
    ensures (forall i: nat :: i < Count(Conf(o)) ==> Offset(Conf(o), i) % Pow2(e) == 0) <==> e <= 3 || e <= o
  {
    var c := Conf(o);
    var f := if o <= 3 then 3 else o;
    assert c.size == c.align == Pow2(f) by {
      assert Pow2(3) == 8;
    }
    AlignedIff(c);
    hide Count, Offset, Pow2, Conf, ConfigOk;
    if e <= f {
      assert c.size % c.align == 0;
      forall i: nat | i < Count(c)
        ensures Offset(c, i) % Pow2(e) == 0
      {
        MultipleOf(Offset(c, i), e, f);
      }
    } else {
      TwoMisaligned(c, f, e);
    }
  }

  /** The first two objects are not both aligned to more than their size. */
  lemma TwoMisaligned(c: Config, f: nat, e: nat)
    requires ConfigOk(c) && c.size == Pow2(f) && f < e && f <= 11
    ensures Count(c) >= 2 && (Offset(c, 0) % Pow2(e) != 0 || Offset(c, 1) % Pow2(e) != 0)
  {
    assert Pow2(11) == 2048 by { PowersUpToPage(11); }
    Pow2Monotone(f, 11);
    Pow2Monotone(f + 1, e);
    assert Pow2(f) < Pow2(f + 1);
    hide Count, Offset, Pow2;
    TwoObjects(c);
    NextOffset(c, 0);
    NotBothMultiples(Offset(c, 0), c.size, Pow2(e));
  }

  lemma TwoObjects(c: Config)
    requires ConfigOk(c) && c.size <= 2048
    ensures Count(c) >= 2
  {
    FirstOffsetBounds(c);
    AtLeastTwo(SLAB_BYTES - FirstOffset(c), c.size);
  }

  lemma AtLeastTwo(a: nat, b: nat)
    requires 0 < b && 2 * b <= a
    ensures a / b >= 2
  {
    DivBounds(a, b);
    if a / b <= 1 {
      MulMonotone(a / b, 1, b);
      assert false;
    }
  }

  lemma NotBothMultiples(x: nat, s: nat, m: nat)
    requires 0 < s < m
    ensures x % m != 0 || (x + s) % m != 0
  {
    var q, r := x / m, (x + s) / m;
    if x % m == 0 && (x + s) % m == 0 {
      assert (r - q) * m == r * m - q * m == s;
      SmallMultiple(r - q, m);
      assert false;
    }
  }

  lemma {:induction false} ShlIsProduct(a: nat, e: nat)
    ensures Shl(a, e) == a * Pow2(e)
  {
    if e > 0 {
      ShlIsProduct(a, e - 1);
      assert a * Pow2(e) == 2 * (a * Pow2(e - 1));
    }
  }

  lemma {:induction false} PageOfPow2(e: nat)
    ensures Pow2(e) * PAGE_SIZE == Pow2(e + 12)
  {
    if e == 0 {
      PowersUpToPage(12);
    } else {
      PageOfPow2(e - 1);
      assert Pow2(e) * PAGE_SIZE == 2 * (Pow2(e - 1) * PAGE_SIZE);
    }
  }

  // ----- blocks -----

  lemma MulAssoc(a: nat, b: nat, c: nat)
    ensures a * (b * c) == a * b * c
  {
  }

  /** The bytes in front of a block are a multiple of every power of two up to its size. */
  lemma BytesBefore(b: Block, e: nat) returns (q: nat)
    requires e <= b.order + 12
    ensures FirstPage(b) * PAGE_SIZE == q * Pow2(e)
  {
    var k, n := b.index, Pow2(b.order);
    ShlIsProduct(k, b.order);
    PageOfPow2(b.order);
    Pow2Splits(e, b.order + 12);
    var m: nat :| Pow2(b.order + 12) == m * Pow2(e);
    MulAssoc(k, n, PAGE_SIZE);
    MulAssoc(k, m, Pow2(e));
    q := k * m;
  }

  /** Blocks are aligned to their size relative to the start of the range: adding that start is what
      decides. */
  lemma BlockAlignIff(start: nat, b: Block, e: nat)
    requires e <= b.order + 12
    ensures Buddy.AddrOf(start, b) % Pow2(e) == 0 <==> start % Pow2(e) == 0
  {
    var q := BytesBefore(b, e);
    hide FirstPage;
    MultipleMod(q, Pow2(e), start);
  }

  /** Two neighbouring blocks are not both aligned to more than their size. */
  lemma NeighboursDiffer(start: nat, o: nat, e: nat)
    requires e > o + 12
    ensures Buddy.AddrOf(start, Block(o, 0)) % Pow2(e) != 0 || Buddy.AddrOf(start, Block(o, 1)) % Pow2(e) != 0
  {
    ShlIsProduct(0, o);
    ShlIsProduct(1, o);
    PageOfPow2(o);
    Pow2Monotone(o + 12, e);
    NotBothMultiples(start, Pow2(o + 12), Pow2(e));
  }

  /** Above a page, the order of the page count is that of the size. */
  lemma OrderOfPages(size: nat)
    requires Order(size) > 12
    ensures Order(PageCount(size)) == Order(size) - 12
  {
    var o, n := Order(size), PageCount(size);
    OrderIsLeast(size);
    PageOfPow2(o - 12);
    PageOfPow2(o - 13);
    assert size <= Pow2(o - 12) * PAGE_SIZE && Pow2(o - 13) * PAGE_SIZE < size;
    OrderUnique(n, o - 12);
  }

  // ----- pieces -----

  /** The block lies within a range of this many pages. */
  predicate Within(b: Block, pages: nat) {
    FirstPage(b) + Pow2(b.order) <= pages
  }

  /** `p` is what an allocation of `size` bytes from a range of this many pages can return. */
  predicate Possible(p: Piece, pages: nat, size: nat) {
    Matches(p, size) && Within(p.block, pages) && (p.Object? ==> p.block.order == 1 && p.i < Count(Conf(p.order)))
  }

  /** The exponents `e` for which the heap at `start` aligns `size` bytes to `2^e`. Objects: up to a page
      those at most the order of the size, or 3; a page-sized object lies one page into its slab, which
      may be aligned to more. Larger sizes: where the start of the range is, up to the order of the size.
      In a range with room for one slab or one block only, its address decides. A range without room, and
      a size no allocation accepts, have no results. */
  predicate AlignedFor(start: nat, pages: nat, size: nat, e: nat) {
    var o := Order(size);
    if o <= 12 then
      || pages < 2
      || (if e <= 12 then e <= 3 || e <= o
          else o == 12 && (start + 4096) % Pow2(e) == 0 && (e == 13 || pages < 4))
    else
      || Spec.BadCount(PageCount(size)) || pages < Pow2(o - 12)
      || (start % Pow2(e) == 0 && (e <= o || pages < 2 * Pow2(o - 12)))
  }

  /** The first two blocks of an order. */
  lemma FirstBlocks(start: nat, o: nat)
    ensures Buddy.AddrOf(start, Block(o, 0)) == start && FirstPage(Block(o, 0)) == 0
    ensures FirstPage(Block(o, 1)) == Pow2(o)
  {
    ShlIsProduct(0, o);
    ShlIsProduct(1, o);
  }

  /** A range of less than two blocks has only the first. */
  lemma OnlyFirst(b: Block, pages: nat)
    requires Within(b, pages) && pages < 2 * Pow2(b.order)
    ensures b.index == 0
  {
    ShlIsProduct(b.index, b.order);
    if b.index > 0 {
      MulMonotone(1, b.index, Pow2(b.order));
    }
  }

  lemma PageAligned(start: nat, b: Block, e: nat)
    requires start % PAGE_SIZE == 0 && e <= 12
    ensures Buddy.AddrOf(start, b) % Pow2(e) == 0 && start % Pow2(e) == 0
  {
    PowersUpToPage(12);
    assert Pow2(12) == PAGE_SIZE;
    MultipleOf(start, e, 12);
    BlockAlignIff(start, b, e);
  }

  /** A page-sized object is the only one of its slab, one page into it. */
  lemma WholePageSlab()
    ensures Count(Conf(12)) == 1 && Offset(Conf(12), 0) == 4096
  {
    PowersUpToPage(12);
    assert Pow2(12) == 4096;
    assert FirstOffset(Conf(12)) == 4096;
  }

  lemma WholePageAddr(start: nat, k: nat)
    ensures Lo(start, Object(12, Block(1, k), 0)) == start + 8192 * k + 4096
  {
    WholePageSlab();
    hide Offset, Conf;
    assert Shl(k, 1) == 2 * k;
  }

  lemma PowersAbovePage()
    ensures Pow2(12) == 4096 && Pow2(13) == 8192 && Pow2(14) == 16384
  {
    PowersUpToPage(12);
  }

  lemma ModOfSum(x: nat, y: nat, m: nat)
    requires m > 0 && x % m == 0
    ensures (x + y) % m == y % m
  {
    assert x == x / m * m;
    MultipleMod(x / m, m, y);
  }

  /** A page-sized object. */
  lemma PageObjectAligned(start: nat, pages: nat, b: Block, e: nat)
    requires b.order == 1 && Within(b, pages) && (start + 4096) % Pow2(e) == 0 && (e == 13 || pages < 4)
    ensures Lo(start, Object(12, b, 0)) % Pow2(e) == 0
  {
    assert Pow2(1) == 2;
    PowersAbovePage();
    hide Lo, Pow2, Within;
    WholePageAddr(start, b.index);
    assert b == Block(1, b.index);
    if e == 13 {
      MultipleMod(b.index, 8192, start + 4096);
    } else {
      OnlyFirst(b, pages);
    }
  }

  /** Objects up to a page. */
  lemma ObjectAligned(start: nat, pages: nat, p: Piece, size: nat, e: nat)
    requires start % PAGE_SIZE == 0 && Possible(p, pages, size) && p.Object? && AlignedFor(start, pages, size, e)
    ensures Lo(start, p) % Pow2(e) == 0
  {
    assert Pow2(1) == 2;
    hide Lo, Conf, Pow2, Count, Offset, Order, ConfigOk, FirstPage;
    if e <= 12 {
      SmallAligned(start, p.block, p.order, p.i, e);
    } else {
      WholePageSlab();
      PageObjectAligned(start, pages, p.block, e);
    }
  }

  lemma SmallAligned(start: nat, b: Block, o: nat, i: nat, e: nat)
    requires start % PAGE_SIZE == 0 && e <= 12 && o <= 12 && (e <= 3 || e <= o) && i < Count(Conf(o))
    ensures Lo(start, Object(o, b, i)) % Pow2(e) == 0
  {
    PageAligned(start, b, e);
    AlignIff(o, e);
    var page, offset := Buddy.AddrOf(start, b), Offset(Conf(o), i);
    assert Lo(start, Object(o, b, i)) == page + offset;
    hide Buddy.AddrOf, Offset, Lo, Count, Conf;
    ModOfSum(page, offset, Pow2(e));
  }

  /** Every piece an allocation of `size` can return is aligned if the condition holds. */
  lemma PossibleAligned(start: nat, pages: nat, p: Piece, size: nat, e: nat)
    requires start % PAGE_SIZE == 0 && Possible(p, pages, size) && AlignedFor(start, pages, size, e)
    ensures Lo(start, p) % Pow2(e) == 0
  {
    match p
    case Object(_, _, _) => ObjectAligned(start, pages, p, size, e);
    case Pages(b) =>
      OrderOfPages(size);
      if e <= Order(size) {
        BlockAlignIff(start, b, e);
      } else {
        OnlyFirst(b, pages);
        FirstBlocks(start, b.order);
      }
  }

  /** Some object of a cache is not aligned if the condition fails. */
  lemma MisalignedObject(start: nat, pages: nat, size: nat, e: nat) returns (p: Piece)
    requires start % PAGE_SIZE == 0 && Order(size) <= 12 && !AlignedFor(start, pages, size, e)
    ensures Possible(p, pages, size) && Lo(start, p) % Pow2(e) != 0
  {
    var o := Order(size);
    var c := Conf(o);
    FirstBlocks(start, 1);
    assert Pow2(1) == 2;
    if e <= 12 {
      AlignIff(o, e);
      var i: nat :| i < Count(c) && Offset(c, i) % Pow2(e) != 0;
      p := Object(o, Block(1, 0), i);
      PageAligned(start, Block(1, 0), e);
      ModOfSum(start, Offset(c, i), Pow2(e));
    } else if o < 12 {
      p := UnevenPair(start, o, e);
    } else {
      p := UnevenPages(start, pages, e);
    }
  }

  lemma UnevenPair(start: nat, o: nat, e: nat) returns (p: Piece)
    requires o < 12 < e
    ensures p.Object? && p.order == o && p.block == Block(1, 0) && p.i < Count(Conf(o)) && Lo(start, p) % Pow2(e) != 0
  {
    var c := Conf(o);
    var f := if o <= 3 then 3 else o;
    Pow2Monotone(f, 11);
    Pow2Monotone(12, e);
    assert Pow2(11) == 2048 && Pow2(12) == 4096 && Pow2(3) == 8 by { PowersUpToPage(11); }
    TwoObjects(c);
    NextOffset(c, 0);
    var page := Buddy.AddrOf(start, Block(1, 0));
    NotBothMultiples(page + Offset(c, 0), c.size, Pow2(e));
    p := Object(o, Block(1, 0), if (page + Offset(c, 0)) % Pow2(e) != 0 then 0 else 1);
  }

  lemma UnevenPages(start: nat, pages: nat, e: nat) returns (p: Piece)
    requires start % PAGE_SIZE == 0 && e > 12 && pages >= 2
    requires !((start + 4096) % Pow2(e) == 0 && (e == 13 || pages < 4))
    ensures p.Object? && p.order == 12 && p.block.order == 1 && Within(p.block, pages) && p.i < Count(Conf(12))
    ensures Lo(start, p) % Pow2(e) != 0
  {
    FirstBlocks(start, 1);
    assert Pow2(1) == 2;
    hide Lo, Conf, Count, Pow2, Offset, ConfigOk, FirstPage;
    WholePageSlab();
    PowersAbovePage();
    WholePageAddr(start, 0);
    WholePageAddr(start, 1);
    p := Object(12, Block(1, 0), 0);
    if (start + 4096) % Pow2(e) == 0 {
      Pow2Monotone(14, e);
      NotBothMultiples(start + 4096, 8192, Pow2(e));
      p := Object(12, Block(1, 1), 0);
    }
  }

  lemma MisalignedBlock(start: nat, pages: nat, size: nat, e: nat) returns (p: Piece)
    requires Order(size) > 12 && !AlignedFor(start, pages, size, e)
    ensures Possible(p, pages, size) && Lo(start, p) % Pow2(e) != 0
  {
    OrderOfPages(size);
    var o := Order(size) - 12;
    FirstBlocks(start, o);
    p := Pages(Block(o, 0));
    if start % Pow2(e) == 0 {
      NeighboursDiffer(start, o, e);
      p := Pages(Block(o, 1));
    }
  }

  /** Exactly when every result for `size` is aligned to `2^e`. */
  lemma AlignedIffAll(start: nat, pages: nat, size: nat, e: nat)
    requires start % PAGE_SIZE == 0
    ensures (forall p: Piece :: Possible(p, pages, size) ==> Lo(start, p) % Pow2(e) == 0)
       <==> AlignedFor(start, pages, size, e)
  {
    if AlignedFor(start, pages, size, e) {
      forall p: Piece | Possible(p, pages, size)
        ensures Lo(start, p) % Pow2(e) == 0
      {
        PossibleAligned(start, pages, p, size, e);
      }
    } else if Order(size) <= 12 {
      var p := MisalignedObject(start, pages, size, e);
    } else {
      var p := MisalignedBlock(start, pages, size, e);
    }
  }

  lemma LivePossible(h: Heap, p: Piece, size: nat)
    requires Inv(h) && LivePiece(h, p) && Matches(p, size)
    ensures Possible(p, h.frames.pages, size)
  {
    PieceInBlock(h, p);
    BlockRanges(h.frames, h.start, p.block, p.block);
    if p.Object? {
      var k: nat :| ObjectLive(h, p.order, k, p.block, p.i);
    }
  }
}
