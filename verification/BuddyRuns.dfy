/** What holds of the buddy allocator over whole runs of allocations and frees. */
module BuddyRuns {
  import opened Common
  import opened Bits
  import opened Dyadic
  import opened BuddySpec

  /** Under the invariant a managed page is free or handed out, and never both. */
  lemma FreeOrLive(s: State, p: nat)
    requires Inv(s)
    ensures p < s.pages <==> PageFree(s, p) || Covers(s.live, p)
    ensures !(PageFree(s, p) && Covers(s.live, p))
  {
    var f, u := FreeSet(s.lists), FreeSet(s.lists) + s.live;
    assert forall b :: b in u <==> b in f || b in s.live;
    if Covers(u, p) {
      var b :| b in u && Holds(b, p);
    }
    if Covers(f, p) {
      var b :| b in f && Holds(b, p);
      assert b in u;
    }
    if Covers(s.live, p) {
      var b :| b in s.live && Holds(b, p);
      assert b in u;
    }
  }

  /** A successful allocation hands out a block of the requested order whose pages were all
      free, keeps the tiling, and takes exactly those pages from the free ones; a failed one
      changes nothing. */
  lemma AllocSafe(s: State, pages: nat)
    requires Inv(s)
    ensures var (t, r) := AllocPages(s, pages);
      && Inv(t)
      && (r == None ==> t == s)
      && (r.Some? ==>
            && r.value.order == Order(pages) && pages <= Pow2(r.value.order)
            && r.value !in s.live && t.live == s.live + {r.value} && t.pages == s.pages
            && (forall p: nat :: Holds(r.value, p) ==> PageFree(s, p))
            && (forall p: nat :: PageFree(t, p) <==> PageFree(s, p) && !Holds(r.value, p)))
  {
    var (t, r) := AllocPages(s, pages);
    if r.Some? {
      CountOrder(pages);
      OrderIsLeast(pages);
      var from := FirstNonEmpty(s.lists, Order(pages));
      PopStep(s, from);
      SplitDownKeeps(s.lists[from := s.lists[from][1..]], Block(from, s.lists[from][0]),
                     Order(pages), s.live, s.pages);
      HandOut(t.lists, r.value, s.live, s.pages);
      forall p: nat
        ensures PageFree(t, p) <==> PageFree(s, p) && !Holds(r.value, p)
        ensures Holds(r.value, p) ==> PageFree(s, p)
      {
        FreeOrLive(s, p);
        FreeOrLive(t, p);
        LiveGrows(s.live, r.value, p);
        assert forall b :: b in s.live ==> b in FreeSet(t.lists) + t.live;
      }
    }
  }

  lemma LiveGrows(live: set<Block>, b: Block, p: nat)
    ensures Covers(live + {b}, p) <==> Covers(live, p) || Holds(b, p)
  {
    if Covers(live, p) {
      var c :| c in live && Holds(c, p);
      assert c in live + {b};
    }
    assert b in live + {b};
  }

  /** Allocation keeps the free blocks coalesced. */
  lemma AllocCanonical(s: State, pages: nat)
    requires Inv(s) && Canonical(s)
    ensures Canonical(AllocPages(s, pages).0)
  {
    if !BadCount(pages) {
      CountOrder(pages);
      var from := FirstNonEmpty(s.lists, Order(pages));
      if from < MAX_ORDER {
        PopStep(s, from);
        SplitDownCoalesced(s.lists[from := s.lists[from][1..]], Block(from, s.lists[from][0]),
                           Order(pages), s.live, s.pages);
      }
    }
  }

  // ----- which block an allocation takes -----

  /** Block `r` and the lists of `t` come from the head of list `from` of `s`, the first list from the
      order of `r` on that is not empty: `r` is its first part, and each order below `from` gets the one
      block that follows. */
  ghost predicate TakenFrom(s: State, t: State, r: Block, from: nat) {
    && |s.lists| == |t.lists| == MAX_ORDER && r.order <= from < MAX_ORDER
    && s.lists[from] != [] && FirstPage(Block(from, s.lists[from][0])) == FirstPage(r)
    && t.lists[from] == s.lists[from][1..]
    && (forall j: nat :: r.order <= j < from ==>
          s.lists[j] == [] && |t.lists[j]| == 1 && FirstPage(Block(j, t.lists[j][0])) == FirstPage(r) + Pow2(j))
    && (forall j: nat :: j < r.order || from < j < MAX_ORDER ==> t.lists[j] == s.lists[j])
  }

  lemma LeftHalfStarts(b: Block)
    requires b.order > 0
    ensures FirstPage(LeftHalf(b)) == FirstPage(b)
    ensures FirstPage(Buddy(LeftHalf(b))) == FirstPage(b) + Pow2(b.order - 1)
  {
    ShlDouble(b.index, b.order - 1);
    ShlSucc(2 * b.index, b.order - 1);
  }

  /** Splitting puts the right halves in front of the lists below the order of the block. */
  lemma {:induction false} SplitDownLists(lists: Lists, b: Block, to: nat)
    requires |lists| == MAX_ORDER && to <= b.order < MAX_ORDER
    ensures var (next, r) := SplitDown(lists, b, to);
      && |next| == MAX_ORDER && r.order == to && FirstPage(r) == FirstPage(b)
      && (forall j: nat :: to <= j < b.order ==>
            next[j] != [] && next[j][1..] == lists[j] && FirstPage(Block(j, next[j][0])) == FirstPage(b) + Pow2(j))
      && (forall j: nat :: j < to || b.order <= j < MAX_ORDER ==> next[j] == lists[j])
    decreases b.order
  {
    if b.order > to {
      LeftHalfStarts(b);
      SplitDownLists(Push(lists, Buddy(LeftHalf(b))), LeftHalf(b), to);
    }
  }

  /** An allocation takes the head of the first list with a block that is large enough, keeps its first
      part, and returns the rest as one block of each order in between; it fails exactly when there is no
      such list. A free block of the exact order is taken as it is. */
  lemma AllocTakes(s: State, pages: nat)
    requires |s.lists| == MAX_ORDER
    ensures var o, (t, r) := Order(pages), AllocPages(s, pages);
      && (r == None <==> pages == 0 || forall j: nat :: o <= j < MAX_ORDER ==> s.lists[j] == [])
      && (r == None ==> t == s)
      && (r.Some? ==> r.value.order == o < MAX_ORDER && exists from: nat :: TakenFrom(s, t, r.value, from))
      && (pages > 0 && o < MAX_ORDER && s.lists[o] != [] ==> r == Some(Block(o, s.lists[o][0])))
  {
    CountOrder(pages);
    hide Order;
    if BadCount(pages) {
      return;
    }
    var o := Order(pages);
    var from := FirstNonEmpty(s.lists, o);
    if from < MAX_ORDER {
      var b := Block(from, s.lists[from][0]);
      SplitDownLists(s.lists[from := s.lists[from][1..]], b, o);
      var (t, r) := AllocPages(s, pages);
      forall j: nat | o <= j < from
        ensures |t.lists[j]| == 1
      {
        assert t.lists[j][1..] == [];
      }
      assert TakenFrom(s, t, r.value, from);
    }
  }

  /** The block an allocation takes leaves the free ones, and only blocks inside it join them. */
  lemma TakenBlocks(s: State, t: State, r: Block, from: nat)
    requires Inv(s) && TakenFrom(s, t, r, from)
    ensures var b := Block(from, s.lists[from][0]);
      && FreeSet(s.lists) - FreeSet(t.lists) == {b}
      && (forall c :: c in FreeSet(s.lists) && r.order <= c.order ==> from <= c.order)
      && (forall c :: c in FreeSet(t.lists) - FreeSet(s.lists) <==>
            r.order <= c.order < from && FirstPage(c) == FirstPage(r) + Pow2(c.order))
  {
    var b := Block(from, s.lists[from][0]);
    assert s.lists[from][0] !in s.lists[from][1..];
    assert forall k :: k in s.lists[from] <==> k == s.lists[from][0] || k in s.lists[from][1..];
    forall c: Block
      ensures c in FreeSet(s.lists) - FreeSet(t.lists) <==> c == b
      ensures c in FreeSet(t.lists) - FreeSet(s.lists) <==>
        r.order <= c.order < from && FirstPage(c) == FirstPage(r) + Pow2(c.order)
    {
      if r.order <= c.order < from {
        SameStart(c, Block(c.order, t.lists[c.order][0]));
      }
    }
  }

  lemma SameStart(b: Block, c: Block)
    requires b.order == c.order
    ensures FirstPage(b) == FirstPage(c) <==> b == c
  {
    HoldsFirstPage(b);
    HoldsFirstPage(c);
  }

  /** Completeness: with coalesced lists, an accepted request fails exactly when no aligned run
      of that many free pages exists, although only list heads are inspected. */
  lemma AllocComplete(s: State, pages: nat)
    requires Inv(s) && Canonical(s) && !BadCount(pages)
    ensures AllocPages(s, pages).1 == None
       <==> !exists c: Block :: c.order == Order(pages) && forall p: nat :: Holds(c, p) ==> PageFree(s, p)
  {
    AllocSafe(s, pages);
    CountOrder(pages);
    if AllocPages(s, pages).1 == None {
      forall c: Block | c.order == Order(pages) && forall p: nat :: Holds(c, p) ==> PageFree(s, p)
        ensures false
      {
        var q := FirstPage(c);
        HoldsFirstPage(c);
        assert PageFree(s, q);
        var b :| b in FreeSet(s.lists) && Holds(b, q);
        CoalescedBlockIsWhole(FreeSet(s.lists), c, b, q, TOP);
      }
    }
  }

  /** Freeing keeps the tiling for every count, a power of two or not, and gives back exactly
      the pages of the block. */
  lemma FreeSafe(s: State, b: Block, pages: nat)
    requires Inv(s) && b in s.live
    ensures var t := FreePages(s, b, pages);
      && Inv(t)
      && t.pages == s.pages
      && (BadCount(pages) ==> t == s)
      && (!BadCount(pages) ==>
            && t.live == s.live - {b}
            && forall p: nat :: PageFree(t, p) <==> PageFree(s, p) || Holds(b, p))
  {
    var t := FreePages(s, b, pages);
    if !BadCount(pages) {
      LiveInHand(s, b);
      CoalesceKeeps(s.lists, b, t.live, s.pages);
      TakeBack(s.lists, b, t.live, s.pages);
      forall p: nat
        ensures PageFree(t, p) <==> PageFree(s, p) || Holds(b, p)
      {
        FreeOrLive(s, p);
        FreeOrLive(t, p);
        assert s.live == t.live + {b};
        LiveGrows(t.live, b, p);
        assert Holds(b, p) ==> !Covers(t.live, p);
      }
    }
  }

  /** Exactly when a free leaves coalesced lists coalesced: the count is a power of two, or
      there was no free buddy to merge with. */
  lemma FreeCanonicalIff(s: State, b: Block, pages: nat)
    requires Inv(s) && Canonical(s) && b in s.live && !BadCount(pages)
    ensures Canonical(FreePages(s, b, pages))
       <==> IsPow2(pages) || b.order == TOP || Buddy(b) !in FreeSet(s.lists)
  {
    LiveInHand(s, b);
    CoalesceKeeps(s.lists, b, s.live - {b}, s.pages);
    PushAdds(s.lists, b);
  }

  // ----- where a freed block goes -----

  /** Block `b` was merged with its buddy, the result with its own, and so on up to `m`, which is at the
      front of its list; each of these buddies has left its list, and no other list has changed. */
  ghost predicate MergedInto(s: State, t: State, b: Block, m: Block) {
    && |s.lists| == |t.lists| == MAX_ORDER && b.order <= m.order < MAX_ORDER && Holds(m, FirstPage(b))
    && t.lists[m.order] == [m.index] + s.lists[m.order]
    && (forall j: nat :: b.order <= j < m.order ==>
          && OtherHalf(b, j) in s.lists[j] && t.lists[j] == Without(s.lists[j], OtherHalf(b, j)))
    && (forall j: nat :: j < b.order || m.order < j < MAX_ORDER ==> t.lists[j] == s.lists[j])
  }

  /** The number of the buddy of the order-`j` block around `b`. */
  function OtherHalf(b: Block, j: nat): nat {
    BuddyIndex(At(FirstPage(b), j))
  }

  lemma {:induction false} CoalesceLists(lists: Lists, b: Block) returns (m: Block)
    requires |lists| == MAX_ORDER && b.order < MAX_ORDER
    ensures MergedInto(State(0, lists, {}), State(0, Coalesce(lists, b), {}), b, m)
    ensures m.order == TOP || Buddy(m).index !in lists[m.order]
    decreases MAX_ORDER - b.order
  {
    HoldsFirstPage(b);
    if b.order < TOP && Buddy(b).index in lists[b.order] {
      var p := Parent(b);
      m := CoalesceLists(Unlink(lists, Buddy(b)), p);
      HoldsFirstPage(p);
      assert At(FirstPage(b), p.order) == p.index;
      forall j: nat | p.order <= j
        ensures At(FirstPage(b), j) == At(FirstPage(p), j) && OtherHalf(b, j) == OtherHalf(p, j)
      {
        SharedBelowSharedAbove(FirstPage(b), FirstPage(p), p.order, j);
      }
      assert OtherHalf(b, b.order) == Buddy(b).index;
      hide FirstPage, At, Coalesce;
    } else {
      m := b;
    }
  }

  /** A power-of-two count merges the block as far as its buddies are free; any other count puts it in
      front of its own list. A count of zero, or one past the largest list, changes nothing. */
  lemma FreeMerges(s: State, b: Block, pages: nat) returns (m: Block)
    requires |s.lists| == MAX_ORDER && b.order < MAX_ORDER
    ensures if pages == 0 || Order(pages) >= MAX_ORDER then
        FreePages(s, b, pages) == s
      else
        && MergedInto(s, FreePages(s, b, pages), b, m)
        && if IsPow2(pages) then m.order == TOP || Buddy(m).index !in s.lists[m.order] else m == b
  {
    CountOrder(pages);
    if IsPow2(pages) {
      m := CoalesceLists(s.lists, b);
    } else {
      HoldsFirstPage(b);
      m := b;
    }
  }

  lemma {:induction false} MergeUndoesSplit(lists: Lists, b: Block, to: nat)
    requires |lists| == MAX_ORDER && to <= b.order < MAX_ORDER
    ensures var (next, r) := SplitDown(lists, b, to);
      |next| == MAX_ORDER && r.order < MAX_ORDER && Coalesce(next, r) == Coalesce(lists, b)
    decreases b.order
  {
    if b.order > to {
      var l := LeftHalf(b);
      var pushed := Push(lists, Buddy(l));
      MergeUndoesSplit(pushed, l, to);
      assert Unlink(pushed, Buddy(l)) == lists;
    }
  }

  /** On coalesced lists, freeing what was just allocated restores every list in its order. */
  lemma AllocThenFree(s: State, pages: nat, count: nat)
    requires Inv(s) && Canonical(s) && IsPow2(count) && !BadCount(pages) && !BadCount(count)
    ensures var (t, r) := AllocPages(s, pages);
      r.Some? ==> |t.lists| == MAX_ORDER && r.value.order < MAX_ORDER && FreePages(t, r.value, count) == s
  {
    CountOrder(pages);
    AllocSafe(s, pages);
    hide Order;
    var from := FirstNonEmpty(s.lists, Order(pages));
    if from < MAX_ORDER {
      var b := Block(from, s.lists[from][0]);
      var rest := s.lists[from := s.lists[from][1..]];
      MergeUndoesSplit(rest, b, Order(pages));
      assert b in FreeSet(s.lists) && (from < TOP ==> Buddy(b) !in FreeSet(s.lists));
      var list := s.lists[from];
      assert [list[0]] + list[1..] == list;
      assert Push(rest, b) == s.lists;
    }
  }

  /** After a free that merged nothing, the next allocation of that order gives the block back. */
  lemma LastFreedFirst(s: State, b: Block, pages: nat, count: nat)
    requires Inv(s) && b in s.live && !BadCount(pages) && !BadCount(count) && Order(count) == b.order
    requires !IsPow2(pages) || b.order == TOP || Buddy(b).index !in s.lists[b.order]
    ensures AllocPages(FreePages(s, b, pages), count) == (s, Some(b))
  {
    var t := FreePages(s, b, pages);
    assert t.lists == Push(s.lists, b);
    AllocTakes(t, count);
    assert t.lists[b.order] == [b.index] + s.lists[b.order] && t.lists[b.order][1..] == s.lists[b.order];
    assert t.lists[b.order := t.lists[b.order][1..]] == s.lists;
    assert FirstNonEmpty(t.lists, b.order) == b.order;
    assert s.live - {b} + {b} == s.live;
  }

  // ----- runs -----

  datatype Op = Alloc(pages: nat) | Free(block: Block, pages: nat)

  /** What the allocator demands of its caller: a free names a block handed out, with a count
      of the order it was allocated with. */
  predicate Legal(s: State, op: Op) {
    op.Free? ==> op.block in s.live && (BadCount(op.pages) || Order(op.pages) == op.block.order)
  }

  function Step(s: State, op: Op): State
    requires |s.lists| == MAX_ORDER
    requires op.Free? ==> op.block.order < MAX_ORDER
  {
    match op
    case Alloc(pages) => AllocPages(s, pages).0
    case Free(b, pages) => FreePages(s, b, pages)
  }

  /** `t` is reached from `s` by the operations `ops`, each of them legal when it is made. */
  ghost predicate Reaches(s: State, ops: seq<Op>, t: State)
    decreases |ops|
  {
    if ops == [] then s == t
    else Inv(s) && Legal(s, ops[0]) && Reaches(Step(s, ops[0]), ops[1..], t)
  }

  predicate OnlyPow2Frees(ops: seq<Op>) {
    forall i :: 0 <= i < |ops| && ops[i].Free? ==> IsPow2(ops[i].pages)
  }

  /** Nothing handed out and the free blocks coalesced: the state `init` builds. */
  ghost predicate Fresh(s: State) {
    Inv(s) && Canonical(s) && s.live == {}
  }

  lemma StepSafe(s: State, op: Op)
    requires Inv(s) && Legal(s, op)
    ensures Inv(Step(s, op)) && Step(s, op).pages == s.pages
    ensures Canonical(s) && (op.Free? ==> IsPow2(op.pages)) ==> Canonical(Step(s, op))
  {
    match op
    case Alloc(pages) =>
      AllocSafe(s, pages);
      if Canonical(s) {
        AllocCanonical(s, pages);
      }
    case Free(b, pages) =>
      FreeSafe(s, b, pages);
      if Canonical(s) && !BadCount(pages) {
        FreeCanonicalIff(s, b, pages);
      }
  }

  /** Safety over every run, whatever the counts. */
  lemma {:induction false} RunSafe(s: State, ops: seq<Op>, t: State)
    requires Inv(s) && Reaches(s, ops, t)
    ensures Inv(t) && t.pages == s.pages
    ensures forall b, c, p: nat ::
      b in t.live && c in t.live && Holds(b, p) && Holds(c, p) ==> b == c && p < s.pages
    decreases |ops|
  {
    if ops == [] {
      assert forall b :: b in t.live ==> b in FreeSet(t.lists) + t.live;
      forall b, p: nat | b in t.live && Holds(b, p)
        ensures p < s.pages
      {
        assert Covers(FreeSet(t.lists) + t.live, p);
      }
    } else {
      StepSafe(s, ops[0]);
      RunSafe(Step(s, ops[0]), ops[1..], t);
    }
  }

  /** A run whose frees all pass powers of two stays coalesced. */
  lemma {:induction false} RunCanonical(s: State, ops: seq<Op>, t: State)
    requires Inv(s) && Canonical(s) && Reaches(s, ops, t) && OnlyPow2Frees(ops)
    ensures Inv(t) && Canonical(t) && t.pages == s.pages
    decreases |ops|
  {
    if ops != [] {
      StepSafe(s, ops[0]);
      RunCanonical(Step(s, ops[0]), ops[1..], t);
    }
  }

  lemma FreeDisjoint(s: State)
    requires Inv(s)
    ensures Disjoint(FreeSet(s.lists))
  {
    assert forall b :: b in FreeSet(s.lists) ==> b in FreeSet(s.lists) + s.live;
  }

  /** The free pages alone determine the free blocks of coalesced states. */
  lemma SamePagesSameBlocks(s: State, t: State)
    requires Inv(s) && Canonical(s) && Inv(t) && Canonical(t)
    requires forall p: nat :: PageFree(s, p) <==> PageFree(t, p)
    ensures FreeSet(s.lists) == FreeSet(t.lists)
  {
    FreeDisjoint(s);
    FreeDisjoint(t);
    forall p: nat
      ensures Covers(FreeSet(s.lists), p) <==> Covers(FreeSet(t.lists), p)
    {
      assert PageFree(s, p) <==> PageFree(t, p);
    }
    CanonicalForm(FreeSet(s.lists), FreeSet(t.lists), TOP);
  }

  /** The free blocks after such a run depend on the free pages alone, not on the history. */
  lemma FreeBlocksForgetHistory(s1: State, ops1: seq<Op>, t1: State, s2: State, ops2: seq<Op>, t2: State)
    requires Fresh(s1) && Reaches(s1, ops1, t1) && OnlyPow2Frees(ops1)
    requires Fresh(s2) && Reaches(s2, ops2, t2) && OnlyPow2Frees(ops2)
    requires forall p: nat :: PageFree(t1, p) <==> PageFree(t2, p)
    ensures FreeSet(t1.lists) == FreeSet(t2.lists)
  {
    RunCanonical(s1, ops1, t1);
    RunCanonical(s2, ops2, t2);
    SamePagesSameBlocks(t1, t2);
  }

  /** Giving everything back restores exactly the free blocks `init` built. */
  lemma GivingBackRestores(s: State, ops: seq<Op>, t: State)
    requires Fresh(s) && Reaches(s, ops, t) && OnlyPow2Frees(ops) && t.live == {}
    ensures FreeSet(t.lists) == FreeSet(s.lists)
  {
    RunCanonical(s, ops, t);
    forall p: nat
      ensures PageFree(s, p) <==> PageFree(t, p)
    {
      FreeOrLive(s, p);
      FreeOrLive(t, p);
    }
    SamePagesSameBlocks(s, t);
  }

  function EmptyLists(): Lists {
    seq(MAX_ORDER, o => [])
  }

  /** Eight managed pages in one free block. */
  function EightPages(): State {
    State(8, EmptyLists()[3 := [0]], {})
  }

  lemma EightPagesFresh()
    ensures Fresh(EightPages())
  {
    var s := EightPages();
    assert FreeSet(s.lists) + s.live == {Block(3, 0)};
    forall p: nat
      ensures Covers({Block(3, 0)}, p) <==> p < 8
    {
      HoldsIsRange(Block(3, 0), p);
      assert Block(3, 0) in {Block(3, 0)};
      assert Shl(0, 3) == 0 && Pow2(3) == 8;
    }
  }

  /** Allocating three of the eight pages, then freeing three. */
  lemma AllocThree()
    ensures AllocPages(EightPages(), 3) == (State(8, EmptyLists()[2 := [1]], {Block(2, 0)}), Some(Block(2, 0)))
  {
    var s := EightPages();
    OrderUnique(3, 2);
    assert Pow2(TOP) > 3 by { Pow2Monotone(2, TOP); }
    assert s.lists[2] == [] && FirstNonEmpty(s.lists, 2) == 3;
    assert [0][1..] == EmptyLists()[3];
    assert s.lists[3 := s.lists[3][1..]] == EmptyLists();
    assert [1] + EmptyLists()[2] == [1];
    assert Push(EmptyLists(), Block(2, 1)) == EmptyLists()[2 := [1]];
    assert s.lists[3] == [0] && s.live + {Block(2, 0)} == {Block(2, 0)};
    assert SplitDown(EmptyLists(), Block(3, 0), 2) == (EmptyLists()[2 := [1]], Block(2, 0));
    assert SplitBlock(s, 3, 2) == (State(8, EmptyLists()[2 := [1]], {Block(2, 0)}), Some(Block(2, 0)));
  }

  lemma FreeThree()
    ensures FreePages(State(8, EmptyLists()[2 := [1]], {Block(2, 0)}), Block(2, 0), 3)
         == State(8, EmptyLists()[2 := [0, 1]], {})
  {
    assert Pow2(TOP) > 3 by { Pow2Monotone(2, TOP); }
    assert NextPow2(3) == 4;
    assert [0] + [1] == [0, 1];
    assert Push(EmptyLists()[2 := [1]], Block(2, 0)) == EmptyLists()[2 := [0, 1]];
  }

  /** Counts that are not powers of two break coalescing: after three pages are allocated and the
      same three freed, nothing is handed out and all eight pages are free, yet a request for
      eight pages, served before, now fails. */
  lemma OddCountStrandsPages()
    ensures var t := State(8, EmptyLists()[2 := [0, 1]], {});
      && Fresh(EightPages()) && Reaches(EightPages(), [Alloc(3), Free(Block(2, 0), 3)], t)
      && (forall p: nat :: p < 8 ==> PageFree(t, p))
      && AllocPages(EightPages(), 8).1.Some? && AllocPages(t, 8).1 == None
  {
    var s, t := EightPages(), State(8, EmptyLists()[2 := [0, 1]], {});
    var s1 := State(8, EmptyLists()[2 := [1]], {Block(2, 0)});
    var ops := [Alloc(3), Free(Block(2, 0), 3)];
    EightPagesFresh();
    AllocThree();
    FreeThree();
    OrderUnique(3, 2);
    StepSafe(s, ops[0]);
    RunOfTwo(s, ops[0], ops[1]);
    AllFree(t);
    NoEight(t);
  }

  lemma RunOfTwo(s: State, a: Op, b: Op)
    requires Inv(s) && Legal(s, a) && Inv(Step(s, a)) && Legal(Step(s, a), b)
    ensures Reaches(s, [a, b], Step(Step(s, a), b)) && Inv(Step(Step(s, a), b))
  {
    var s1 := Step(s, a);
    StepSafe(s1, b);
    assert [a, b][1..] == [b] && [b][1..] == [];
    assert Reaches(s1, [b], Step(s1, b));
  }

  lemma AllFree(t: State)
    requires Inv(t) && t.live == {}
    ensures forall p: nat :: p < t.pages ==> PageFree(t, p)
  {
    forall p: nat | p < t.pages
      ensures PageFree(t, p)
    {
      FreeOrLive(t, p);
    }
  }

  lemma NoEight(t: State)
    requires t.lists == EmptyLists()[2 := [0, 1]]
    ensures AllocPages(EightPages(), 8).1.Some? && AllocPages(t, 8).1 == None
  {
    OrderUnique(8, 3);
    assert Pow2(TOP) > 8 by { Pow2Monotone(4, TOP); }
    assert FirstNonEmpty(EightPages().lists, 3) == 3;
    assert forall o: nat :: 3 <= o < MAX_ORDER ==> t.lists[o] == [];
  }
}
