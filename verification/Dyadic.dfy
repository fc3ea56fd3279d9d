/** Buddy blocks as nodes of the dyadic tree over page numbers. Page numbers count from the
    allocator's `start_addr`, so alignment is relative to it. */
module Dyadic {
  import opened Bits

  /** The block of `2^order` pages that starts at page `index * 2^order`. */
  datatype Block = Block(order: nat, index: nat)

  /** Number of the order-`order` block that holds page `p`. */
  function At(p: nat, order: nat): nat {
    if order == 0 then p else At(p, order - 1) / 2
  }

  predicate Holds(b: Block, p: nat) {
    At(p, b.order) == b.index
  }

  function FirstPage(b: Block): nat {
    Shl(b.index, b.order)
  }

  function BuddyIndex(k: nat): nat {
    if k % 2 == 0 then k + 1 else k - 1
  }

  function Buddy(b: Block): Block {
    Block(b.order, BuddyIndex(b.index))
  }

  function Parent(b: Block): Block {
    Block(b.order + 1, b.index / 2)
  }

  /** A block holds exactly its `2^order` consecutive pages. */
  lemma {:induction false} HoldsIsRange(b: Block, p: nat)
    ensures Holds(b, p) <==> FirstPage(b) <= p < FirstPage(b) + Pow2(b.order)
    decreases b.order
  {
    if b.order > 0 {
      var o, k := b.order - 1, 2 * b.index;
      HoldsIsRange(Block(o, k), p);
      HoldsIsRange(Block(o, k + 1), p);
      ShlDouble(b.index, o);
      ShlSucc(k, o);
    }
  }

  lemma HoldsFirstPage(b: Block)
    ensures Holds(b, FirstPage(b))
  {
    HoldsIsRange(b, FirstPage(b));
  }

  /** Pages that share a block share every block above it. */
  lemma {:induction false} SharedBelowSharedAbove(p: nat, q: nat, low: nat, high: nat)
    requires low <= high
    requires At(p, low) == At(q, low)
    ensures At(p, high) == At(q, high)
    decreases high
  {
    if low < high {
      SharedBelowSharedAbove(p, q, low, high - 1);
    }
  }

  /** No page is in two blocks of `s`. */
  ghost predicate Disjoint(s: set<Block>) {
    forall b, c, p {:trigger Holds(b, p), Holds(c, p)} ::
      b in s && c in s && Holds(b, p) && Holds(c, p) ==> b == c
  }

  ghost predicate Covers(s: set<Block>, p: nat) {
    exists b :: b in s && Holds(b, p)
  }

  /** The blocks of `s` partition the pages `0 .. n`. */
  ghost predicate Tiles(s: set<Block>, n: nat) {
    && Disjoint(s)
    && forall p: nat :: Covers(s, p) <==> p < n
  }

  /** No two buddies below the top order are both in `s`. */
  ghost predicate Coalesced(s: set<Block>, top: nat) {
    forall b :: b in s && b.order < top ==> Buddy(b) !in s
  }

  /** Replacing two buddies by their parent, or the parent by its halves, keeps a tiling. */
  lemma TilesMerge(s: set<Block>, b: Block, n: nat)
    requires b !in s && Buddy(b) !in s && Parent(b) !in s
    ensures Tiles(s + {b, Buddy(b)}, n) <==> Tiles(s + {Parent(b)}, n)
  {
    var u, v := s + {b, Buddy(b)}, s + {Parent(b)};
    assert forall p: nat :: Holds(Parent(b), p) <==> Holds(b, p) || Holds(Buddy(b), p);
    forall p: nat
      ensures Covers(u, p) <==> Covers(v, p)
    {
      if Covers(u, p) {
        var c :| c in u && Holds(c, p);
        assert c in s ==> c in v;
      }
      if Covers(v, p) {
        var c :| c in v && Holds(c, p);
        assert c in s ==> c in u;
      }
    }
    HoldsFirstPage(b);
    HoldsFirstPage(Buddy(b));
  }

  /** In a coalesced set, a block that meets a fully covered block is at least as large. */
  lemma {:induction false} CoalescedBlockIsWhole(f: set<Block>, c: Block, b: Block, p: nat, top: nat)
    requires Disjoint(f) && Coalesced(f, top)
    requires c.order <= top
    requires forall q: nat :: Holds(c, q) ==> Covers(f, q)
    requires b in f && Holds(b, p) && Holds(c, p)
    ensures b.order >= c.order
    decreases b.order
  {
    if b.order < c.order {
      var q := FirstPage(Buddy(b));
      HoldsFirstPage(Buddy(b));
      assert At(p, b.order + 1) == At(q, b.order + 1);
      SharedBelowSharedAbove(p, q, b.order + 1, c.order);
      assert Covers(f, q);
      var d :| d in f && Holds(d, q);
      if d.order > b.order {
        SharedBelowSharedAbove(p, q, b.order + 1, d.order);
        assert Holds(d, p);
      } else if d.order < b.order {
        CoalescedBlockIsWhole(f, c, d, q, top);
      }
    }
  }

  lemma CoalescedSubset(f: set<Block>, g: set<Block>, b: Block, top: nat)
    requires Disjoint(f) && Coalesced(f, top) && Disjoint(g) && Coalesced(g, top)
    requires forall c :: c in f + g ==> c.order <= top
    requires forall p: nat :: Covers(f, p) <==> Covers(g, p)
    requires b in f
    ensures b in g
  {
    var p := FirstPage(b);
    HoldsFirstPage(b);
    assert Covers(f, p);
    var c :| c in g && Holds(c, p);
    forall q: nat | Holds(b, q)
      ensures Covers(g, q)
    {
      assert Covers(f, q);
    }
    CoalescedBlockIsWhole(g, b, c, p, top);
    forall q: nat | Holds(c, q)
      ensures Covers(f, q)
    {
      assert Covers(g, q);
    }
    CoalescedBlockIsWhole(f, c, b, p, top);
  }

  /** Canonical form: a coalesced set of disjoint blocks is determined by the pages it covers. */
  lemma CanonicalForm(f: set<Block>, g: set<Block>, top: nat)
    requires Disjoint(f) && Coalesced(f, top) && Disjoint(g) && Coalesced(g, top)
    requires forall c :: c in f + g ==> c.order <= top
    requires forall p: nat :: Covers(f, p) <==> Covers(g, p)
    ensures f == g
  {
    forall b | b in f
      ensures b in g
    {
      CoalescedSubset(f, g, b, top);
    }
    forall b | b in g
      ensures b in f
    {
      CoalescedSubset(g, f, b, top);
    }
  }
}
