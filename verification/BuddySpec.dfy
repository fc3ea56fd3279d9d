/** The buddy allocator as a state machine on free lists of block numbers, and what every
    run of it keeps. The class in BuddyAllocator.dfy refines these steps. */
module BuddySpec {
  import opened Common
  import opened Bits
  import opened Dyadic

  const MAX_ORDER: nat := 16
  const TOP: nat := MAX_ORDER - 1

  /** One list of block numbers per order. */
  type Lists = seq<seq<nat>>

  /** `pages` under management, the free lists in list order, and the blocks handed out. */
  datatype State = State(pages: nat, lists: Lists, live: set<Block>)

  function FreeSet(lists: Lists): (f: set<Block>)
    ensures forall b {:trigger b in f} :: b in f <==> b.order < |lists| && b.index in lists[b.order]
  {
    FreeSetBelow(lists, |lists|)
  }

  function FreeSetBelow(lists: Lists, n: nat): (f: set<Block>)
    requires n <= |lists|
    ensures forall b {:trigger b in f} :: b in f <==> b.order < n && b.index in lists[b.order]
  {
    if n == 0 then {} else FreeSetBelow(lists, n - 1) + Blocks(n - 1, lists[n - 1])
  }

  function Blocks(o: nat, ks: seq<nat>): set<Block> {
    set k | k in ks :: Block(o, k)
  }

  predicate ListsOk(lists: Lists) {
    && |lists| == MAX_ORDER
    && forall o: nat :: o < MAX_ORDER ==> NoDup(lists[o])
  }

  /** Free and handed-out blocks are pairwise disjoint and tile the managed pages. */
  ghost predicate Inv(s: State) {
    && ListsOk(s.lists)
    && FreeSet(s.lists) !! s.live
    && (forall b :: b in s.live ==> b.order < MAX_ORDER)
    && Tiles(FreeSet(s.lists) + s.live, s.pages)
  }

  ghost predicate Canonical(s: State) {
    Coalesced(FreeSet(s.lists), TOP)
  }

  /** Page `p` is in a free block. */
  ghost predicate PageFree(s: State, p: nat) {
    Covers(FreeSet(s.lists), p)
  }

  // ----- list operations -----

  function Push(lists: Lists, b: Block): Lists
    requires b.order < |lists|
  {
    lists[b.order := [b.index] + lists[b.order]]
  }

  function Without(ks: seq<nat>, k: nat): seq<nat> {
    if ks == [] then [] else if ks[0] == k then ks[1..] else [ks[0]] + Without(ks[1..], k)
  }

  function Unlink(lists: Lists, b: Block): Lists
    requires b.order < |lists|
  {
    lists[b.order := Without(lists[b.order], b.index)]
  }

  lemma {:induction false} WithoutRemoves(ks: seq<nat>, k: nat)
    requires NoDup(ks)
    ensures NoDup(Without(ks, k))
    ensures forall x :: x in Without(ks, k) <==> x in ks && x != k
  {
    if ks != [] {
      WithoutRemoves(ks[1..], k);
      assert forall x :: x in ks <==> x == ks[0] || x in ks[1..];
      assert ks[0] !in ks[1..];
    }
  }

  /** Removing the element at position `i` of a list without repetitions. */
  lemma {:induction false} WithoutAt(ks: seq<nat>, i: nat)
    requires NoDup(ks) && i < |ks|
    ensures Without(ks, ks[i]) == ks[..i] + ks[i + 1..]
  {
    if i > 0 {
      WithoutAt(ks[1..], i - 1);
      assert ks[..i] + ks[i + 1..] == [ks[0]] + (ks[1..][..i - 1] + ks[1..][i..]);
    }
  }

  lemma PushAdds(lists: Lists, b: Block)
    requires ListsOk(lists) && b.order < MAX_ORDER && b !in FreeSet(lists)
    ensures ListsOk(Push(lists, b))
    ensures FreeSet(Push(lists, b)) == FreeSet(lists) + {b}
  {
    var r := Push(lists, b);
    assert forall c: Block :: c in FreeSet(r) <==> c in FreeSet(lists) || c == b;
  }

  lemma UnlinkRemoves(lists: Lists, b: Block)
    requires ListsOk(lists) && b.order < MAX_ORDER
    ensures ListsOk(Unlink(lists, b))
    ensures FreeSet(Unlink(lists, b)) == FreeSet(lists) - {b}
  {
    WithoutRemoves(lists[b.order], b.index);
    var r := Unlink(lists, b);
    assert forall c: Block :: c in FreeSet(r) <==> c in FreeSet(lists) && c != b;
  }

  // ----- allocation -----

  /** The least order from `o` on whose list is not empty, or `MAX_ORDER`. */
  function FirstNonEmpty(lists: Lists, o: nat): (r: nat)
    requires |lists| == MAX_ORDER && o <= MAX_ORDER
    ensures o <= r <= MAX_ORDER
    ensures forall j: nat :: o <= j < r ==> lists[j] == []
    ensures r < MAX_ORDER ==> lists[r] != []
    decreases MAX_ORDER - o
  {
    if o == MAX_ORDER || lists[o] != [] then o else FirstNonEmpty(lists, o + 1)
  }

  function LeftHalf(b: Block): Block
    requires b.order > 0
  {
    Block(b.order - 1, 2 * b.index)
  }

  /** Halves `b` down to order `to`, putting each right half on its free list. */
  function SplitDown(lists: Lists, b: Block, to: nat): (Lists, Block)
    requires |lists| == MAX_ORDER && to <= b.order < MAX_ORDER
    decreases b.order
  {
    if b.order == to then (lists, b)
    else SplitDown(Push(lists, Buddy(LeftHalf(b))), LeftHalf(b), to)
  }

  /** `split_block`: takes the head of list `from` and halves it down to order `to`. */
  function SplitBlock(s: State, from: nat, to: nat): (State, Option<Block>)
    requires |s.lists| == MAX_ORDER && from < MAX_ORDER
  {
    if from < to || s.lists[from] == [] then (s, None)
    else
      var b := Block(from, s.lists[from][0]);
      var (lists, r) := SplitDown(s.lists[from := s.lists[from][1..]], b, to);
      (State(s.pages, lists, s.live + {r}), Some(r))
  }

  /** `split_block` on the first list that is not empty. */
  function AllocBlock(s: State, o: nat): (State, Option<Block>)
    requires |s.lists| == MAX_ORDER && o < MAX_ORDER
  {
    var from := FirstNonEmpty(s.lists, o);
    if from == MAX_ORDER then (s, None) else SplitBlock(s, from, o)
  }

  predicate BadCount(pages: nat) {
    pages == 0 || pages > Pow2(TOP)
  }

  function AllocPages(s: State, pages: nat): (State, Option<Block>)
    requires |s.lists| == MAX_ORDER
  {
    if BadCount(pages) then (s, None)
    else CountOrder(pages); AllocBlock(s, Order(pages))
  }

  // ----- freeing -----

  /** Merges `b` with its buddy while that is on the list, then pushes the result. */
  function Coalesce(lists: Lists, b: Block): Lists
    requires |lists| == MAX_ORDER && b.order < MAX_ORDER
    decreases MAX_ORDER - b.order
  {
    if b.order < TOP && Buddy(b).index in lists[b.order]
    then Coalesce(Unlink(lists, Buddy(b)), Parent(b))
    else Push(lists, b)
  }

  /** `free_pages` on a block handed out: a count that is not a power of two is never merged,
      because the exclusive or then names no block of that order. */
  function FreePages(s: State, b: Block, pages: nat): State
    requires |s.lists| == MAX_ORDER && b.order < MAX_ORDER
  {
    if BadCount(pages) then s
    else State(s.pages, if IsPow2(pages) then Coalesce(s.lists, b) else Push(s.lists, b), s.live - {b})
  }

  /** The allocator accepts exactly the counts, other than zero, whose order has a list. */
  lemma CountOrder(pages: nat)
    ensures BadCount(pages) <==> pages == 0 || Order(pages) >= MAX_ORDER
  {
    OrderIsLeast(pages);
    if Order(pages) >= MAX_ORDER {
      Pow2Monotone(TOP, Order(pages) - 1);
    } else {
      Pow2Monotone(Order(pages), TOP);
    }
  }

  // ----- one block in hand -----

  /** The blocks of `lists`, those of `live` and `b` tile the pages, `b` being in neither. */
  ghost predicate InHand(lists: Lists, b: Block, live: set<Block>, n: nat) {
    && ListsOk(lists)
    && b.order < MAX_ORDER
    && b !in FreeSet(lists) + live
    && FreeSet(lists) !! live
    && (forall c :: c in live ==> c.order < MAX_ORDER)
    && Tiles(FreeSet(lists) + live + {b}, n)
  }

  /** Handing out the block in hand restores the invariant. */
  lemma HandOut(lists: Lists, b: Block, live: set<Block>, n: nat)
    requires InHand(lists, b, live, n)
    ensures Inv(State(n, lists, live + {b}))
  {
    assert FreeSet(lists) + (live + {b}) == FreeSet(lists) + live + {b};
  }

  /** Putting the block in hand on its free list restores it as well. */
  lemma TakeBack(lists: Lists, b: Block, live: set<Block>, n: nat)
    requires InHand(lists, b, live, n)
    ensures Inv(State(n, Push(lists, b), live))
    ensures Disjoint(FreeSet(lists) + {b})
  {
    PushAdds(lists, b);
    assert FreeSet(lists) + {b} + live == FreeSet(lists) + live + {b};
  }

  lemma LiveInHand(s: State, b: Block)
    requires Inv(s) && b in s.live
    ensures InHand(s.lists, b, s.live - {b}, s.pages)
  {
    assert FreeSet(s.lists) + (s.live - {b}) + {b} == FreeSet(s.lists) + s.live;
  }

  lemma OverlapExcluded(s: set<Block>, b: Block, c: Block, n: nat)
    requires Tiles(s + {b}, n) && b !in s
    requires exists p: nat :: Holds(b, p) && Holds(c, p)
    ensures c !in s
  {
    var p: nat :| Holds(b, p) && Holds(c, p);
    assert c in s ==> c in s + {b};
  }

  lemma HalfStep(lists: Lists, b: Block, live: set<Block>, n: nat)
    requires InHand(lists, b, live, n) && b.order > 0
    ensures InHand(Push(lists, Buddy(LeftHalf(b))), LeftHalf(b), live, n)
    ensures Buddy(LeftHalf(b)) !in FreeSet(lists)
  {
    var s, l := FreeSet(lists) + live, LeftHalf(b);
    HoldsFirstPage(l);
    HoldsFirstPage(Buddy(l));
    assert Holds(b, FirstPage(l)) && Holds(b, FirstPage(Buddy(l)));
    OverlapExcluded(s, b, l, n);
    OverlapExcluded(s, b, Buddy(l), n);
    TilesMerge(s, l, n);
    PushAdds(lists, Buddy(l));
    assert FreeSet(Push(lists, Buddy(l))) + live + {l} == s + {l, Buddy(l)};
  }

  lemma MergeStep(lists: Lists, b: Block, live: set<Block>, n: nat)
    requires InHand(lists, b, live, n) && b.order < TOP && Buddy(b) in FreeSet(lists)
    ensures InHand(Unlink(lists, Buddy(b)), Parent(b), live, n)
  {
    var c := Buddy(b);
    var s := FreeSet(lists) - {c} + live;
    UnlinkRemoves(lists, c);
    HoldsFirstPage(b);
    assert Holds(Parent(b), FirstPage(b));
    OverlapExcluded(FreeSet(lists) + live, b, Parent(b), n);
    assert FreeSet(lists) + live + {b} == s + {b, c};
    TilesMerge(s, b, n);
    assert FreeSet(Unlink(lists, c)) + live + {Parent(b)} == s + {Parent(b)};
  }

  /** The block popped from a list is in hand. */
  lemma PopStep(s: State, o: nat)
    requires Inv(s) && o < MAX_ORDER && s.lists[o] != []
    ensures var b := Block(o, s.lists[o][0]);
      var rest := s.lists[o := s.lists[o][1..]];
      FreeSet(rest) == FreeSet(s.lists) - {b} && InHand(rest, b, s.live, s.pages)
  {
    var b := Block(o, s.lists[o][0]);
    WithoutAt(s.lists[o], 0);
    assert s.lists[o][..0] + s.lists[o][1..] == s.lists[o][1..];
    UnlinkRemoves(s.lists, b);
    assert FreeSet(s.lists) - {b} + s.live + {b} == FreeSet(s.lists) + s.live;
  }

  lemma {:induction false} SplitDownKeeps(lists: Lists, b: Block, to: nat, live: set<Block>, n: nat)
    requires InHand(lists, b, live, n) && to <= b.order
    ensures var (lists', r) := SplitDown(lists, b, to);
      r.order == to && InHand(lists', r, live, n)
    decreases b.order
  {
    if b.order != to {
      HalfStep(lists, b, live, n);
      SplitDownKeeps(Push(lists, Buddy(LeftHalf(b))), LeftHalf(b), to, live, n);
    }
  }

  /** Splitting into empty lists leaves the free blocks coalesced. */
  lemma {:induction false} SplitDownCoalesced(lists: Lists, b: Block, to: nat, live: set<Block>, n: nat)
    requires InHand(lists, b, live, n) && to <= b.order
    requires Coalesced(FreeSet(lists), TOP)
    requires forall j: nat :: to <= j < b.order ==> lists[j] == []
    ensures Coalesced(FreeSet(SplitDown(lists, b, to).0), TOP)
    decreases b.order
  {
    if b.order != to {
      var l := LeftHalf(b);
      HalfStep(lists, b, live, n);
      PushAdds(lists, Buddy(l));
      SplitDownCoalesced(Push(lists, Buddy(l)), l, to, live, n);
    }
  }

  lemma {:induction false} CoalesceKeeps(lists: Lists, b: Block, live: set<Block>, n: nat)
    requires InHand(lists, b, live, n)
    ensures Inv(State(n, Coalesce(lists, b), live))
    ensures Coalesced(FreeSet(lists), TOP) ==> Coalesced(FreeSet(Coalesce(lists, b)), TOP)
    decreases MAX_ORDER - b.order
  {
    if b.order < TOP && Buddy(b).index in lists[b.order] {
      MergeStep(lists, b, live, n);
      UnlinkRemoves(lists, Buddy(b));
      CoalesceKeeps(Unlink(lists, Buddy(b)), Parent(b), live, n);
    } else {
      PushAdds(lists, b);
      TakeBack(lists, b, live, n);
    }
  }
}
