/** The buddy allocator as the source has it: one head pointer per order, and the `next`
    pointers stored in the first word of each free block. A pointer is an address, with 0 for
    `None`, which is how `Option<NonNull<_>>` is represented. */
module BuddyAllocator {
  import opened Common
  import opened Bits
  import opened Dyadic
  import Spec = BuddySpec
  import Runs = BuddyRuns

  const MAX_ORDER: nat := Spec.MAX_ORDER

  function AddrOf(start: nat, b: Block): nat {
    start + FirstPage(b) * PAGE_SIZE
  }

  /** The pointer stored for position `i` of a list: the block there, or `None` past the end. */
  function PtrAt(start: nat, o: nat, ks: seq<nat>, i: nat): nat {
    if i < |ks| then AddrOf(start, Block(o, ks[i])) else 0
  }

  /** The `next` word of the block at position `i` points to the block after it. */
  predicate NextOk(mem: map<nat, nat>, start: nat, o: nat, ks: seq<nat>, i: nat)
    requires i < |ks|
  {
    var a := AddrOf(start, Block(o, ks[i]));
    a in mem && mem[a] == PtrAt(start, o, ks, i + 1)
  }

  /** From `head`, the `next` words in memory run through the blocks `ks` and end in `None`. */
  predicate Linked(mem: map<nat, nat>, start: nat, head: nat, o: nat, ks: seq<nat>) {
    && head == PtrAt(start, o, ks, 0)
    && forall i: nat {:trigger NextOk(mem, start, o, ks, i)} :: i < |ks| ==> NextOk(mem, start, o, ks, i)
  }

  /** Address `a` lies in one of the blocks. */
  ghost predicate Inside(start: nat, blocks: set<Block>, a: nat) {
    a >= start && Covers(blocks, (a - start) / PAGE_SIZE)
  }

  /** No word inside `blocks` differs between the two memories, and outside only first words of pages. */
  ghost predicate Untouched(m0: map<nat, nat>, m1: map<nat, nat>, start: nat, blocks: set<Block>) {
    forall a: nat :: Inside(start, blocks, a) || !IsBase(start, a) ==> SameAt(m0, m1, a)
  }

  /** Address `a` is that of a page from `start` on. */
  predicate IsBase(start: nat, a: nat) {
    a >= start && (a - start) % PAGE_SIZE == 0
  }

  lemma AddrInjective(start: nat, s: set<Block>, b: Block, c: Block)
    requires Disjoint(s) && b in s && c in s
    requires AddrOf(start, b) == AddrOf(start, c)
    ensures b == c
  {
    HoldsFirstPage(b);
    HoldsFirstPage(c);
    assert FirstPage(b) == FirstPage(c);
  }

  lemma SameOrderInjective(start: nat, o: nat, j: nat, k: nat)
    requires AddrOf(start, Block(o, j)) == AddrOf(start, Block(o, k))
    ensures j == k
  {
    HoldsFirstPage(Block(o, j));
    HoldsFirstPage(Block(o, k));
    assert FirstPage(Block(o, j)) == FirstPage(Block(o, k));
  }

  lemma BaseNotInside(start: nat, blocks: set<Block>, c: Block)
    requires Disjoint(blocks + {c}) && c !in blocks
    ensures !Inside(start, blocks, AddrOf(start, c)) && IsBase(start, AddrOf(start, c))
  {
    HoldsFirstPage(c);
    assert (AddrOf(start, c) - start) / PAGE_SIZE == FirstPage(c);
    assert forall b :: b in blocks ==> b in blocks + {c};
  }

  /** A write elsewhere leaves a list linked. */
  lemma LinkedElsewhere(mem: map<nat, nat>, start: nat, head: nat, o: nat, ks: seq<nat>, w: nat, v: nat)
    requires Linked(mem, start, head, o, ks)
    requires forall i: nat :: i < |ks| ==> AddrOf(start, Block(o, ks[i])) != w
    ensures Linked(mem[w := v], start, head, o, ks)
  {
    var m1 := mem[w := v];
    forall i: nat | i < |ks|
      ensures NextOk(m1, start, o, ks, i)
    {
      assert NextOk(mem, start, o, ks, i);
    }
  }

  /** Redirecting the pointer before position `i` past it takes that block off the list. */
  lemma UnlinkAt(mem: map<nat, nat>, start: nat, head: nat, o: nat, ks: seq<nat>, i: nat)
    requires Linked(mem, start, head, o, ks) && NoDup(ks) && i < |ks|
    ensures i == 0 ==> Linked(mem, start, PtrAt(start, o, ks, 1), o, ks[1..])
    ensures i > 0 ==>
      Linked(mem[PtrAt(start, o, ks, i - 1) := PtrAt(start, o, ks, i + 1)], start, head, o, ks[..i] + ks[i + 1..])
  {
    if i == 0 {
      forall j: nat | j < |ks| - 1
        ensures NextOk(mem, start, o, ks[1..], j)
      {
        assert NextOk(mem, start, o, ks, j + 1);
      }
    } else {
      var rest := ks[..i] + ks[i + 1..];
      var w := PtrAt(start, o, ks, i - 1);
      var m1 := mem[w := PtrAt(start, o, ks, i + 1)];
      forall j: nat | j < |rest|
        ensures NextOk(m1, start, o, rest, j)
      {
        var j0 := if j < i then j else j + 1;
        assert rest[j] == ks[j0] && NextOk(mem, start, o, ks, j0);
        if j != i - 1 && AddrOf(start, Block(o, ks[j0])) == w {
          SameOrderInjective(start, o, ks[j0], ks[i - 1]);
        }
      }
    }
  }

  /** Every list of `lists` is linked from its head. */
  predicate AllLinked(mem: map<nat, nat>, start: nat, heads: seq<nat>, lists: Spec.Lists) {
    && |heads| == MAX_ORDER
    && Spec.ListsOk(lists)
    && forall o: nat :: o < MAX_ORDER ==> Linked(mem, start, heads[o], o, lists[o])
  }

  /** The first word of a block `b` is the first word of no other block of a disjoint set. */
  lemma OwnFirstWord(start: nat, s: set<Block>, b: Block, o: nat, ks: seq<nat>)
    requires Disjoint(s) && b in s && forall k :: k in ks ==> Block(o, k) in s && Block(o, k) != b
    ensures forall i: nat :: i < |ks| ==> AddrOf(start, Block(o, ks[i])) != AddrOf(start, b)
  {
    forall i: nat | i < |ks| && AddrOf(start, Block(o, ks[i])) == AddrOf(start, b)
      ensures false
    {
      AddrInjective(start, s, Block(o, ks[i]), b);
    }
  }

  lemma PushLinks(mem: map<nat, nat>, start: nat, heads: seq<nat>, lists: Spec.Lists, b: Block)
    requires AllLinked(mem, start, heads, lists) && b.order < MAX_ORDER
    requires Disjoint(Spec.FreeSet(lists) + {b}) && b !in Spec.FreeSet(lists)
    ensures var a := AddrOf(start, b);
      AllLinked(mem[a := heads[b.order]], start, heads[b.order := a], Spec.Push(lists, b))
  {
    Spec.PushAdds(lists, b);
    var a, f := AddrOf(start, b), Spec.FreeSet(lists);
    var m, l := mem[a := heads[b.order]], Spec.Push(lists, b);
    forall o: nat | o < MAX_ORDER
      ensures Linked(m, start, heads[b.order := a][o], o, l[o])
    {
      assert forall k :: k in lists[o] ==> Block(o, k) in f;
      OwnFirstWord(start, f + {b}, b, o, lists[o]);
      LinkedElsewhere(mem, start, heads[o], o, lists[o], a, heads[b.order]);
      if o == b.order {
        forall i: nat | i < |l[o]|
          ensures NextOk(m, start, o, l[o], i)
        {
          assert i > 0 ==> NextOk(m, start, o, lists[o], i - 1);
        }
      }
    }
  }

  lemma UnlinkHead(mem: map<nat, nat>, start: nat, heads: seq<nat>, lists: Spec.Lists, o: nat)
    requires AllLinked(mem, start, heads, lists) && o < MAX_ORDER && lists[o] != []
    ensures AllLinked(mem, start, heads[o := PtrAt(start, o, lists[o], 1)],
                      Spec.Unlink(lists, Block(o, lists[o][0])))
  {
    var ks := lists[o];
    Spec.UnlinkRemoves(lists, Block(o, ks[0]));
    UnlinkAt(mem, start, heads[o], o, ks, 0);
  }

  /** Redirecting the pointer before position `i` of list `o` unlinks exactly that block. */
  lemma UnlinkMiddle(mem: map<nat, nat>, start: nat, heads: seq<nat>, lists: Spec.Lists, o: nat, i: nat)
    requires AllLinked(mem, start, heads, lists) && o < MAX_ORDER && 0 < i < |lists[o]|
    requires Disjoint(Spec.FreeSet(lists))
    ensures AllLinked(mem[PtrAt(start, o, lists[o], i - 1) := PtrAt(start, o, lists[o], i + 1)], start, heads,
                      Spec.Unlink(lists, Block(o, lists[o][i])))
  {
    var ks, f := lists[o], Spec.FreeSet(lists);
    var b, next := Block(o, ks[i - 1]), PtrAt(start, o, ks, i + 1);
    var rest := Spec.Unlink(lists, Block(o, ks[i]));
    Spec.UnlinkRemoves(lists, Block(o, ks[i]));
    forall j: nat | j < MAX_ORDER
      ensures Linked(mem[AddrOf(start, b) := next], start, heads[j], j, rest[j])
    {
      if j == o {
        Spec.WithoutAt(ks, i);
        UnlinkAt(mem, start, heads[o], o, ks, i);
      } else {
        assert forall k :: k in lists[j] ==> Block(j, k) in f;
        OwnFirstWord(start, f, b, j, lists[j]);
        LinkedElsewhere(mem, start, heads[j], j, lists[j], AddrOf(start, b), next);
      }
    }
  }

  lemma HalfAddresses(start: nat, b: Block)
    requires b.order > 0
    ensures AddrOf(start, Spec.LeftHalf(b)) == AddrOf(start, b)
    ensures AddrOf(start, Buddy(Spec.LeftHalf(b))) == AddrOf(start, b) + Pow2(b.order - 1) * PAGE_SIZE
  {
    ShlDouble(b.index, b.order - 1);
    ShlSucc(2 * b.index, b.order - 1);
  }

  /** Writing into the right half of `b` touches neither the left half nor the live blocks. */
  lemma HalfUntouched(m0: map<nat, nat>, m1: map<nat, nat>, start: nat, lists: Spec.Lists,
                      live: set<Block>, b: Block, n: nat, v: nat)
    requires b.order > 0 && Spec.InHand(lists, b, live, n)
    requires Untouched(m0, m1, start, live + {b})
    ensures var l := Spec.LeftHalf(b);
      && Untouched(m0, m1[AddrOf(start, Buddy(l)) := v], start, live + {l})
      && Disjoint(Spec.FreeSet(lists) + {Buddy(l)})
  {
    var l := Spec.LeftHalf(b);
    var r := Buddy(l);
    Spec.HalfStep(lists, b, live, n);
    Spec.PushAdds(lists, r);
    var all := Spec.FreeSet(lists) + {r} + live + {l};
    assert forall c :: c in live + {l} + {r} || c in Spec.FreeSet(lists) + {r} ==> c in all;
    BaseNotInside(start, live + {l}, r);
    forall a: nat | Inside(start, live + {l}, a)
      ensures Inside(start, live + {b}, a)
    {
      var c :| c in live + {l} && Holds(c, (a - start) / PAGE_SIZE);
      assert (if c == l then b else c) in live + {b};
    }
  }

  /** A list that is not empty holds pages. */
  lemma SomePage(s: Spec.State, o: nat)
    requires Spec.Inv(s) && o < MAX_ORDER && s.lists[o] != []
    ensures s.pages > 0
  {
    var b := Block(o, s.lists[o][0]);
    HoldsFirstPage(b);
    assert b in Spec.FreeSet(s.lists) + s.live;
    assert Covers(Spec.FreeSet(s.lists) + s.live, FirstPage(b));
  }

  lemma XorPages(a: nat, b: nat)
    ensures Xor(a * PAGE_SIZE, b * PAGE_SIZE) == Xor(a, b) * PAGE_SIZE
  {
    hide Xor;
    ShlPage(a);
    ShlPage(b);
    ShlPage(Xor(a, b));
    hide Shl;
    XorShl(a, b, 12);
  }

  /** The buddy address as the source computes it. */
  function BuddyAddr(start: nat, addr: nat, pages: nat): nat
    requires start <= addr
  {
    start + Xor(addr - start, pages * PAGE_SIZE)
  }

  /** When the count is the block's own size, the exclusive or points at the buddy. */
  lemma BuddyAddrOfPow2(start: nat, b: Block)
    ensures BuddyAddr(start, AddrOf(start, b), Pow2(b.order)) == AddrOf(start, Buddy(b))
  {
    XorPages(FirstPage(b), Pow2(b.order));
    ShlOne(b.order);
    XorShl(b.index, 1, b.order);
    XorOne(b.index);
  }

  /** When the count is not a power of two, it points at no block of that order. */
  lemma BuddyAddrOfOther(start: nat, b: Block, pages: nat, k: nat)
    requires Order(pages) == b.order && 0 < pages && !IsPow2(pages)
    ensures BuddyAddr(start, AddrOf(start, b), pages) != AddrOf(start, Block(b.order, k))
  {
    OrderIsLeast(pages);
    XorPages(FirstPage(b), pages);
    XorLow(b.index, pages, b.order);
    HoldsIsRange(b, FirstPage(b) + pages);
    HoldsFirstPage(Block(b.order, k));
  }

  lemma ParentAddress(start: nat, b: Block)
    ensures AddrOf(start, Parent(b)) ==
      if AddrOf(start, b) < AddrOf(start, Buddy(b)) then AddrOf(start, b) else AddrOf(start, Buddy(b))
  {
    var k := b.index / 2;
    ShlDouble(k, b.order);
    ShlSucc(2 * k, b.order);
  }

  lemma DoubleOrder(pages: nat)
    requires pages > 0 && IsPow2(pages)
    ensures Order(2 * pages) == Order(pages) + 1 && IsPow2(2 * pages)
  {
    OrderIsLeast(pages);
    OrderUnique(2 * pages, Order(pages) + 1);
    OrderIsLeast(2 * pages);
  }

  class BuddyAllocator {
    const freeLists: array<nat>
    var mem: map<nat, nat>
    var startAddr: nat
    var endAddr: nat
    ghost var lists: Spec.Lists
    ghost var live: set<Block>

    ghost function Abs(): Spec.State
      reads this
      requires startAddr <= endAddr
    {
      Spec.State((endAddr - startAddr) / PAGE_SIZE, lists, live)
    }

    ghost predicate LinksOk()
      reads this, freeLists
    {
      AllLinked(mem, startAddr, freeLists[..], lists)
    }

    ghost predicate Valid()
      reads this, freeLists
    {
      && startAddr <= endAddr
      && startAddr % PAGE_SIZE == 0
      && endAddr % PAGE_SIZE == 0
      && (startAddr == 0 ==> endAddr == 0)
      && LinksOk()
      && Spec.Inv(Abs())
    }

    /** Nothing has been written. */
    twostate predicate Idle()
      reads this, freeLists
    {
      mem == old(mem) && freeLists[..] == old(freeLists[..])
    }

    constructor ()
      ensures Valid() && fresh(freeLists)
      ensures startAddr == endAddr == 0 && live == {} && Spec.FreeSet(lists) == {}
    {
      freeLists := new nat[MAX_ORDER](i => 0);
      mem := map[];
      startAddr, endAddr := 0, 0;
      lists := seq(MAX_ORDER, i => []);
      live := {};
      new;
      assert Spec.FreeSet(lists) + live == {};
    }

    /** Writes the old head into the first word of `b` and makes `b` the head. */
    method PushBlock(order: nat, addr: nat, ghost b: Block)
      requires LinksOk() && startAddr > 0
      requires b.order == order < MAX_ORDER && addr == AddrOf(startAddr, b)
      requires Disjoint(Spec.FreeSet(lists) + {b}) && b !in Spec.FreeSet(lists)
      modifies this`mem, this`lists, freeLists
      ensures LinksOk()
      ensures lists == Spec.Push(old(lists), b)
      ensures mem == old(mem)[addr := old(freeLists[order])]
    {
      PushLinks(mem, startAddr, freeLists[..], lists, b);
      mem := mem[addr := freeLists[order]];
      freeLists[order] := addr;
      lists := Spec.Push(lists, b);
    }

    /** Walks list `order` for the block at `target`. When found, `i` is its position and `prev`
        the pointer to the block before it. */
    method Search(order: nat, target: nat) returns (found: bool, prev: nat, ghost i: nat)
      requires LinksOk() && startAddr > 0 && order < MAX_ORDER
      ensures found ==> i < |lists[order]| && target == PtrAt(startAddr, order, lists[order], i)
      ensures found ==> prev == if i == 0 then 0 else PtrAt(startAddr, order, lists[order], i - 1)
      ensures !found ==> forall j :: j in lists[order] ==> target != AddrOf(startAddr, Block(order, j))
    {
      found, prev, i := false, 0, 0;
      ghost var ks := lists[order];
      assert Linked(mem, startAddr, freeLists[order], order, ks);
      if freeLists[order] == 0 {
        return;
      }
      var current := freeLists[order];
      while true
        invariant i < |ks| && current == PtrAt(startAddr, order, ks, i)
        invariant prev == if i == 0 then 0 else PtrAt(startAddr, order, ks, i - 1)
        invariant forall j: nat :: j < i ==> target != AddrOf(startAddr, Block(order, ks[j]))
        decreases |ks| - i
      {
        assert NextOk(mem, startAddr, order, ks, i);
        if current == target {
          found := true;
          return;
        }
        prev := current;
        if mem[current] == 0 {
          return;
        }
        current, i := mem[current], i + 1;
      }
    }

    /** Takes the block at `target`, found at position `i`, off list `order`, at the head or in the
        middle. */
    method UnlinkFound(order: nat, target: nat, prev: nat, ghost i: nat, ghost others: set<Block>)
      requires LinksOk() && startAddr > 0 && order < MAX_ORDER
      requires i < |lists[order]| && target == PtrAt(startAddr, order, lists[order], i)
      requires prev == if i == 0 then 0 else PtrAt(startAddr, order, lists[order], i - 1)
      requires Spec.FreeSet(lists) !! others && Disjoint(Spec.FreeSet(lists) + others)
      modifies this`mem, this`lists, freeLists
      ensures LinksOk()
      ensures lists == Spec.Unlink(old(lists), Block(order, old(lists)[order][i]))
      ensures Untouched(old(mem), mem, startAddr, others)
    {
      ghost var f, ks := Spec.FreeSet(lists), lists[order];
      if i == 0 {
        UnlinkHead(mem, startAddr, freeLists[..], lists, order);
      } else {
        UnlinkMiddle(mem, startAddr, freeLists[..], lists, order, i);
        ghost var p := Block(order, ks[i - 1]);
        assert p in f && forall b :: b in others + {p} ==> b in f + others;
        BaseNotInside(startAddr, others, p);
      }
      assert Linked(mem, startAddr, freeLists[..][order], order, ks) && NextOk(mem, startAddr, order, ks, i);
      lists := Spec.Unlink(lists, Block(order, ks[i]));
      if prev != 0 {
        mem := mem[prev := mem[target]];
      } else {
        freeLists[order] := mem[target];
      }
    }

    /** A null head means an empty list, because no block is at address 0. */
    lemma HeadIsNull(order: nat)
      requires Valid() && order < MAX_ORDER
      ensures freeLists[order] == 0 <==> lists[order] == []
      ensures lists[order] != [] ==> startAddr > 0
    {
      assert Linked(mem, startAddr, freeLists[..][order], order, lists[order]);
      if lists[order] != [] {
        SomePage(Abs(), order);
      }
    }

    /** Takes the head off a list that is not empty. */
    method PopHead(order: nat) returns (block: nat, ghost b: Block)
      requires Valid() && order < MAX_ORDER && lists[order] != []
      modifies this`lists, freeLists
      ensures LinksOk()
      ensures b == Block(order, old(lists)[order][0]) && block == AddrOf(startAddr, b)
      ensures lists == old(lists)[order := old(lists)[order][1..]]
      ensures Spec.InHand(lists, b, live, Abs().pages)
    {
      b := Block(order, lists[order][0]);
      Spec.PopStep(Abs(), order);
      UnlinkHead(mem, startAddr, freeLists[..], lists, order);
      assert Linked(mem, startAddr, freeLists[..][order], order, lists[order]);
      assert NextOk(mem, startAddr, order, lists[order], 0);
      block := freeLists[order];
      freeLists[order] := mem[block];
      lists := lists[order := lists[order][1..]];
    }

    /** Puts the right half of block `b` in hand on its list. */
    method HalveBlock(block: nat, order: nat, ghost b: Block, ghost m0: map<nat, nat>)
      requires LinksOk() && startAddr > 0 && startAddr <= endAddr && order + 1 == b.order
      requires block == AddrOf(startAddr, b) && Spec.InHand(lists, b, live, Abs().pages)
      requires Untouched(m0, mem, startAddr, live + {b})
      modifies this`mem, this`lists, freeLists
      ensures LinksOk() && lists == Spec.Push(old(lists), Buddy(Spec.LeftHalf(b)))
      ensures block == AddrOf(startAddr, Spec.LeftHalf(b))
      ensures Spec.InHand(lists, Spec.LeftHalf(b), live, Abs().pages)
      ensures Untouched(m0, mem, startAddr, live + {Spec.LeftHalf(b)})
    {
      Spec.HalfStep(lists, b, live, Abs().pages);
      HalfAddresses(startAddr, b);
      HalfUntouched(m0, mem, startAddr, lists, live, b, Abs().pages, freeLists[order]);
      PushBlock(order, block + Pow2(order) * PAGE_SIZE, Buddy(Spec.LeftHalf(b)));
    }

    /** Halves block `b` in hand down to `targetOrder`; the address stays the same. */
    method HalveTo(block: nat, blockOrder: nat, targetOrder: nat, ghost b: Block) returns (ghost r: Block)
      requires LinksOk() && 0 < startAddr <= endAddr && targetOrder <= blockOrder == b.order
      requires block == AddrOf(startAddr, b) && Spec.InHand(lists, b, live, Abs().pages)
      modifies this`mem, this`lists, freeLists
      ensures LinksOk() && (lists, r) == Spec.SplitDown(old(lists), b, targetOrder)
      ensures block == AddrOf(startAddr, r) && Spec.InHand(lists, r, live, Abs().pages)
      ensures Untouched(old(mem), mem, startAddr, live + {r})
    {
      r := b;
      var currentOrder := blockOrder;
      while currentOrder > targetOrder
        invariant targetOrder <= currentOrder == r.order
        invariant block == AddrOf(startAddr, r)
        invariant LinksOk() && Spec.InHand(lists, r, live, Abs().pages)
        invariant Spec.SplitDown(lists, r, targetOrder) == Spec.SplitDown(old(lists), b, targetOrder)
        invariant Untouched(old(mem), mem, startAddr, live + {r})
      {
        currentOrder := currentOrder - 1;
        HalveBlock(block, currentOrder, r, old(mem));
        r := Spec.LeftHalf(r);
      }
    }

    /** Takes the head of list `blockOrder` and halves it down to `targetOrder`; each right half
        goes on its own list. */
    method SplitBlock(blockOrder: nat, targetOrder: nat) returns (block: nat)
      requires Valid() && blockOrder < MAX_ORDER
      modifies this`mem, this`lists, this`live, freeLists
      ensures Valid()
      ensures var (t, r) := Spec.SplitBlock(old(Abs()), blockOrder, targetOrder);
        Abs() == t && block == if r.Some? then AddrOf(startAddr, r.value) else 0
      ensures Untouched(old(mem), mem, startAddr, live)
      ensures block == 0 ==> Idle()
    {
      HeadIsNull(blockOrder);
      if blockOrder < targetOrder || freeLists[blockOrder] == 0 {
        return 0;
      }
      ghost var b;
      block, b := PopHead(blockOrder);
      b := HalveTo(block, blockOrder, targetOrder, b);
      Spec.HandOut(lists, b, live, Abs().pages);
      live := live + {b};
    }

    /** Returns the address of a free run of `pages` pages rounded up to a power of two, or 0. */
    method AllocPages(pages: nat) returns (addr: nat)
      requires Valid()
      modifies this`mem, this`lists, this`live, freeLists
      ensures Valid()
      ensures var (t, r) := Spec.AllocPages(old(Abs()), pages);
        Abs() == t && addr == if r.Some? then AddrOf(startAddr, r.value) else 0
      ensures Untouched(old(mem), mem, startAddr, live)
      ensures addr == 0 ==> Idle()
    {
      if pages == 0 {
        return 0;
      }
      if pages > Pow2(MAX_ORDER - 1) {
        return 0;
      }
      var order := Order(pages);
      Spec.CountOrder(pages);
      var o := order;
      while o < MAX_ORDER && freeLists[o] == 0
        modifies {}
        invariant order <= o <= MAX_ORDER
        invariant Spec.FirstNonEmpty(lists, order) == Spec.FirstNonEmpty(lists, o)
      {
        HeadIsNull(o);
        o := o + 1;
      }
      if o == MAX_ORDER {
        return 0;
      }
      HeadIsNull(o);
      addr := SplitBlock(o, order);
    }

    /** One round of `free_pages`: looks for the buddy of block `b` in hand and takes it off its
        list. */
    method TakeBuddy(order: nat, blockAddr: nat, pages: nat, ghost b: Block, ghost m0: map<nat, nat>)
        returns (found: bool, buddyAddr: nat)
      requires LinksOk() && 0 < startAddr <= endAddr
      requires order == b.order < MAX_ORDER - 1 && blockAddr == AddrOf(startAddr, b)
      requires pages > 0 && Order(pages) == order
      requires Spec.InHand(lists, b, live, Abs().pages) && Untouched(m0, mem, startAddr, live)
      modifies this`mem, this`lists, freeLists
      ensures LinksOk() && Untouched(m0, mem, startAddr, live)
      ensures found <==> IsPow2(pages) && Buddy(b).index in old(lists)[order]
      ensures found ==> lists == Spec.Unlink(old(lists), Buddy(b)) && Spec.InHand(lists, Parent(b), live, Abs().pages)
      ensures found ==> AddrOf(startAddr, Parent(b)) == if blockAddr < buddyAddr then blockAddr else buddyAddr
      ensures !found ==> lists == old(lists)
    {
      buddyAddr := BuddyAddr(startAddr, blockAddr, pages);
      ghost var i;
      var prev;
      found, prev, i := Search(order, buddyAddr);
      if IsPow2(pages) {
        OrderIsLeast(pages);
        BuddyAddrOfPow2(startAddr, b);
        ParentAddress(startAddr, b);
      }
      if found {
        if !IsPow2(pages) {
          BuddyAddrOfOther(startAddr, b, pages, lists[order][i]);
        }
        SameOrderInjective(startAddr, order, lists[order][i], Buddy(b).index);
        Spec.MergeStep(lists, b, live, Abs().pages);
        Spec.TakeBack(lists, b, live, Abs().pages);
        UnlinkFound(order, buddyAddr, prev, i, live);
      }
    }

    /** Puts the block in hand on its free list. */
    method InsertFreed(order: nat, addr: nat, ghost b: Block, ghost m0: map<nat, nat>)
      requires LinksOk() && 0 < startAddr <= endAddr && order == b.order && addr == AddrOf(startAddr, b)
      requires Spec.InHand(lists, b, live, Abs().pages) && Untouched(m0, mem, startAddr, live)
      modifies this`mem, this`lists, freeLists
      ensures LinksOk() && lists == Spec.Push(old(lists), b) && Spec.Inv(Abs())
      ensures Untouched(m0, mem, startAddr, live)
    {
      Spec.TakeBack(lists, b, live, Abs().pages);
      assert forall c :: c in live + {b} ==> c in Spec.FreeSet(lists) + live + {b};
      BaseNotInside(startAddr, live, b);
      PushBlock(order, addr, b);
    }

    /** The loop of `free_pages`: merges block `b` in hand upwards and inserts the result. */
    method MergeAndInsert(addr: nat, count: nat, ghost b: Block)
      requires LinksOk() && 0 < startAddr <= endAddr && addr == AddrOf(startAddr, b)
      requires count > 0 && Order(count) == b.order && Spec.InHand(lists, b, live, Abs().pages)
      modifies this`mem, this`lists, freeLists
      ensures LinksOk() && Spec.Inv(Abs())
      ensures lists == if IsPow2(count) then Spec.Coalesce(old(lists), b) else Spec.Push(old(lists), b)
      ensures Untouched(old(mem), mem, startAddr, live)
    {
      var pages, order, blockAddr := count, Order(count), addr;
      ghost var cur := b;
      while order < MAX_ORDER - 1
        invariant order == cur.order && blockAddr == AddrOf(startAddr, cur)
        invariant pages > 0 && Order(pages) == order && IsPow2(pages) == IsPow2(count)
        invariant LinksOk() && Spec.InHand(lists, cur, live, Abs().pages)
        invariant Untouched(old(mem), mem, startAddr, live)
        invariant IsPow2(count) ==> Spec.Coalesce(lists, cur) == Spec.Coalesce(old(lists), b)
        invariant !IsPow2(count) ==> cur == b && lists == old(lists)
        decreases MAX_ORDER - order
      {
        var found, buddyAddr := TakeBuddy(order, blockAddr, pages, cur, old(mem));
        if !found {
          break;
        }
        blockAddr := if blockAddr < buddyAddr then blockAddr else buddyAddr;
        DoubleOrder(pages);
        pages, order, cur := pages * 2, order + 1, Parent(cur);
      }
      InsertFreed(order, blockAddr, cur, old(mem));
    }

    /** Gives a block back, merging it with its buddy as long as that is free. The caller names a
        block handed out (`b`), with a count of its order; other calls return at once. */
    method FreePages(addr: nat, pages: nat, ghost b: Block)
      requires Valid()
      requires !Spec.BadCount(pages) && startAddr <= addr < endAddr ==>
        b in live && addr == AddrOf(startAddr, b) && Order(pages) == b.order
      modifies this`mem, this`lists, this`live, freeLists
      ensures Valid()
      ensures Abs() == if !Spec.BadCount(pages) && startAddr <= addr < endAddr
                       then Spec.FreePages(old(Abs()), b, pages) else old(Abs())
      ensures Untouched(old(mem), mem, startAddr, live)
      ensures Spec.BadCount(pages) || !(startAddr <= addr < endAddr) ==> Idle()
    {
      if pages == 0 || pages > Pow2(MAX_ORDER - 1) {
        return;
      }
      if addr < startAddr || addr >= endAddr {
        return;
      }
      Spec.LiveInHand(Abs(), b);
      live := live - {b};
      MergeAndInsert(addr, pages, b);
    }

    /** The loop of `init`: tiles the range greedily with the largest blocks that fit. */
    method TileRange(start: nat, end: nat, pages: nat)
      requires 0 < start == startAddr && end == start + pages * PAGE_SIZE
      requires LinksOk() && forall o: nat :: o < MAX_ORDER ==> lists[o] == []
      modifies this`mem, this`lists, freeLists
      ensures LinksOk() && Runs.Fresh(Spec.State(pages, lists, {})) && LastFirst(lists)
    {
      var currentSize := Pow2(MAX_ORDER - 1);
      var addr := start;
      ghost var o: nat, k: nat := MAX_ORDER - 1, 0;
      ZeroShl(o);
      while addr < end
        invariant addr == start + Shl(k, o) * PAGE_SIZE && Shl(k, o) <= pages
        invariant LinksOk() && o < MAX_ORDER && currentSize == Pow2(o)
        invariant Greedy(lists, o, Shl(k, o), pages)
        decreases end - addr
      {
        currentSize, o, k := ShrinkToFit(currentSize, addr, end, pages, start, lists, o, k);
        if currentSize == 0 {
          break;
        }
        TrailingZerosPow2(o);
        ShlSucc(k, o);
        GreedyStep(lists, o, k, pages);
        PushBlock(TrailingZeros(currentSize), addr, Block(o, k));
        addr, k := addr + currentSize * PAGE_SIZE, k + 1;
      }
      GreedyDone(lists, o, pages);
    }

    /** Takes over the page-aligned part of the given range. */
    method Init(start0: nat, end0: nat)
      requires Valid() && endAddr == 0
      requires 0 < RoundUp(start0) < RoundDown(end0)
      modifies this, freeLists
      ensures Valid() && startAddr == RoundUp(start0) && endAddr == RoundDown(end0)
      ensures start0 <= startAddr < start0 + PAGE_SIZE && endAddr <= end0 < endAddr + PAGE_SIZE
      ensures startAddr % PAGE_SIZE == endAddr % PAGE_SIZE == 0
      ensures Runs.Fresh(Abs()) && LastFirst(lists)
    {
      var start, end := RoundUp(start0), RoundDown(end0);
      NothingManaged(Abs());
      startAddr, endAddr := start, end;
      TileRange(start, end, (end - start) / PAGE_SIZE);
    }
  }

  /** The inner loop of `init`: halves the block size until it fits. */
  method ShrinkToFit(size0: nat, addr: nat, end: nat, pages: nat, start: nat,
                     ghost lists: Spec.Lists, ghost o0: nat, ghost k0: nat)
      returns (size: nat, ghost o: nat, ghost k: nat)
    requires addr == start + Shl(k0, o0) * PAGE_SIZE && Shl(k0, o0) < pages
    requires end == start + pages * PAGE_SIZE && size0 == Pow2(o0)
    requires Greedy(lists, o0, Shl(k0, o0), pages)
    ensures size == Pow2(o) && Shl(k, o) == Shl(k0, o0)
    ensures addr + size * PAGE_SIZE <= end
    ensures Greedy(lists, o, Shl(k, o), pages)
  {
    size, o, k := size0, o0, k0;
    while size > pages || addr + size * PAGE_SIZE > end
      invariant Shl(k, o) == Shl(k0, o0) && size == Pow2(o)
      invariant Greedy(lists, o, Shl(k, o), pages)
      decreases o
    {
      ShlDouble(k, o - 1);
      size := size / 2;
      o, k := o - 1, 2 * k;
    }
  }

  /** What the tiling loop of `init` keeps: the blocks so far tile the first `p` pages, there is at
      most one block of each order below the top, and what is left is smaller than the sizes
      already passed. */
  ghost predicate Greedy(lists: Spec.Lists, o: nat, p: nat, n: nat) {
    && Spec.ListsOk(lists)
    && o < MAX_ORDER
    && p <= n
    && Tiles(Spec.FreeSet(lists), p)
    && (forall j: nat :: j < o ==> lists[j] == [])
    && (forall j: nat :: j < Spec.TOP ==> |lists[j]| <= 1)
    && (o < Spec.TOP ==> n - p < 2 * Pow2(o))
    && (o < Spec.TOP && lists[o] != [] ==> n - p < Pow2(o))
    && LastFirst(lists)
  }

  /** The list of every order has its blocks from the last page to the first. */
  predicate LastFirst(lists: Spec.Lists) {
    forall o: nat :: o < |lists| ==> Descending(lists[o])
  }

  predicate Descending(ks: seq<nat>) {
    forall i, j :: 0 <= i < j < |ks| ==> ks[i] > ks[j]
  }

  lemma LaterBlock(b: Block, c: Block)
    requires b.order == c.order && FirstPage(b) < FirstPage(c)
    ensures b.index < c.index
  {
    if c.index <= b.index {
      ShlMonotone(c.index, b.index, b.order);
    }
  }

  lemma {:induction false} ShlMonotone(a: nat, b: nat, e: nat)
    requires a <= b
    ensures Shl(a, e) <= Shl(b, e)
  {
    if e > 0 {
      ShlMonotone(a, b, e - 1);
    }
  }

  /** Lists built from the first page to the last, in front each time. */
  lemma PushLast(lists: Spec.Lists, b: Block, p: nat)
    requires |lists| == MAX_ORDER && b.order < MAX_ORDER && LastFirst(lists) && FirstPage(b) == p
    requires forall q: nat :: Covers(Spec.FreeSet(lists), q) ==> q < p
    ensures LastFirst(Spec.Push(lists, b))
  {
    forall k | k in lists[b.order]
      ensures k < b.index
    {
      var c := Block(b.order, k);
      HoldsFirstPage(c);
      assert c in Spec.FreeSet(lists);
      assert Covers(Spec.FreeSet(lists), FirstPage(c));
      LaterBlock(c, b);
    }
    LargerInFront(b.index, lists[b.order]);
  }

  lemma LargerInFront(k: nat, ks: seq<nat>)
    requires Descending(ks) && forall x :: x in ks ==> x < k
    ensures Descending([k] + ks)
  {
    var all := [k] + ks;
    forall i, j | 0 <= i < j < |all|
      ensures all[i] > all[j]
    {
      assert all[j] == ks[j - 1] && ks[j - 1] in ks;
    }
  }

  lemma GreedyStep(lists: Spec.Lists, o: nat, k: nat, n: nat)
    requires Greedy(lists, o, Shl(k, o), n) && Shl(k, o) + Pow2(o) <= n
    ensures Block(o, k) !in Spec.FreeSet(lists) && Disjoint(Spec.FreeSet(lists) + {Block(o, k)})
    ensures Greedy(Spec.Push(lists, Block(o, k)), o, Shl(k, o) + Pow2(o), n)
  {
    var b, f, p := Block(o, k), Spec.FreeSet(lists), Shl(k, o);
    forall q: nat
      ensures Holds(b, q) <==> p <= q < p + Pow2(o)
    {
      HoldsIsRange(b, q);
    }
    assert b !in f by {
      assert Holds(b, p) && !Covers(f, p);
    }
    Spec.PushAdds(lists, b);
    PushLast(lists, b, p);
    hide LastFirst;
    forall q: nat
      ensures Covers(f + {b}, q) <==> q < p + Pow2(o)
    {
      Runs.LiveGrows(f, b, q);
    }
    forall c, q: nat | c in f && Holds(c, q)
      ensures !Holds(b, q)
    {
      assert Covers(f, q);
    }
  }

  lemma GreedyDone(lists: Spec.Lists, o: nat, n: nat)
    requires Greedy(lists, o, n, n)
    ensures Runs.Fresh(Spec.State(n, lists, {}))
  {
    var f := Spec.FreeSet(lists);
    assert f + {} == f;
    forall b | b in f && b.order < Spec.TOP
      ensures Buddy(b) !in f
    {
      var ks := lists[b.order];
      assert ks == [b.index];
    }
  }

  lemma NothingManaged(s: Spec.State)
    requires Spec.Inv(s) && s.pages == 0
    ensures s.live == {} && forall o: nat :: o < MAX_ORDER ==> s.lists[o] == []
  {
    forall b | b in s.live
      ensures false
    {
      assert b in Spec.FreeSet(s.lists) + s.live;
      HoldsFirstPage(b);
      assert Covers(Spec.FreeSet(s.lists) + s.live, FirstPage(b));
    }
    forall o: nat | o < MAX_ORDER
      ensures s.lists[o] == []
    {
      if s.lists[o] != [] {
        SomePage(s, o);
      }
    }
  }

  lemma ZeroShl(o: nat)
    ensures Shl(0, o) == 0
  {
  }
}
