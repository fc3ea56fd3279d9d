/** A slab cache as the source has it: a chain of slab headers, and the `next` words of the free
    objects, over frames from the buddy allocator. */
module SlabAllocator {
  import opened Common
  import opened Bits
  import opened Dyadic
  import opened SlabSpec
  import Buddy = BuddyAllocator
  import Spec = BuddySpec
  import Runs = BuddyRuns

  const SLAB_PAGES: nat := 2

  datatype Header = Header(freeList: nat, objectStart: nat, objectEnd: nat, active: nat, next: nat)

  function ObjAddr(c: Config, page: nat, i: nat): nat
    requires ConfigOk(c)
  {
    page + Offset(c, i)
  }

  /** The pointer to position `j` of a free list, or `None` past its end. */
  function ObjPtr(c: Config, page: nat, free: seq<nat>, j: nat): nat
    requires ConfigOk(c)
  {
    if j < |free| then ObjAddr(c, page, free[j]) else 0
  }

  predicate ObjNextOk(words: map<nat, nat>, c: Config, page: nat, free: seq<nat>, j: nat)
    requires ConfigOk(c) && j < |free|
  {
    && ObjPtr(c, page, free, j) in words
    && words[ObjPtr(c, page, free, j)] == ObjPtr(c, page, free, j + 1)
  }

  predicate FreeLinked(words: map<nat, nat>, c: Config, page: nat, free: seq<nat>)
    requires ConfigOk(c)
  {
    && (forall i :: i in free ==> i < Count(c))
    && forall j: nat {:trigger ObjNextOk(words, c, page, free, j)} :: j < |free| ==> ObjNextOk(words, c, page, free, j)
  }

  /** The header of slab `s` holds its free list, its bounds and its count. */
  predicate HeaderOk(h: Header, c: Config, s: Slab)
    requires ConfigOk(c)
  {
    && h.freeList == ObjPtr(c, s.page, s.free, 0)
    && h.objectStart == s.page + FirstOffset(c)
    && h.objectEnd == s.page + Offset(c, Count(c))
    && h.active == s.active
  }

  function PagePtr(chain: seq<Slab>, k: nat): nat {
    if k < |chain| then chain[k].page else 0
  }

  /** Slab `k` of the chain is in memory and points to the one after it. */
  predicate SlabLinked(headers: map<nat, Header>, words: map<nat, nat>, c: Config, chain: seq<Slab>, k: nat)
    requires ConfigOk(c) && k < |chain|
  {
    && chain[k].page in headers
    && headers[chain[k].page].next == PagePtr(chain, k + 1)
    && HeaderOk(headers[chain[k].page], c, chain[k])
    && FreeLinked(words, c, chain[k].page, chain[k].free)
  }

  predicate ChainLinked(headers: map<nat, Header>, words: map<nat, nat>, c: Config, head: nat, chain: seq<Slab>)
    requires ConfigOk(c)
  {
    && head == PagePtr(chain, 0)
    && forall k: nat {:trigger SlabLinked(headers, words, c, chain, k)} :: k < |chain| ==>
         SlabLinked(headers, words, c, chain, k)
  }

  /** The slabs of the chain are the order-1 blocks `blocks`, all in use. */
  ghost predicate Held(start: nat, live: set<Block>, blocks: seq<Block>, chain: seq<Slab>) {
    && |blocks| == |chain|
    && forall k :: 0 <= k < |chain| ==>
         blocks[k] in live && blocks[k].order == 1 && Buddy.AddrOf(start, blocks[k]) == chain[k].page
  }

  // ----- addresses -----

  /** An object of a slab is between its bounds, and outside those of a slab that is apart. */
  lemma ObjectInside(c: Config, p: nat, q: nat, i: nat)
    requires ConfigOk(c) && i < Count(c)
    ensures p + FirstOffset(c) <= ObjAddr(c, p, i) < p + Offset(c, Count(c))
    ensures Apart(p, q) ==> !(q + FirstOffset(c) <= ObjAddr(c, p, i) < q + Offset(c, Count(c)))
  {
    ObjectsDisjoint(c, i, Count(c));
    ObjectsFit(c, i);
    ObjectsFit(c, Count(c) - 1);
    NextOffset(c, Count(c) - 1);
    hide Count, Offset, FirstOffset;
  }

  lemma NextOffset(c: Config, i: nat)
    requires ConfigOk(c)
    ensures Offset(c, i + 1) == Offset(c, i) + c.size
  {
  }

  lemma ObjectsDistinct(c: Config, p: nat, q: nat, i: nat, j: nat)
    requires ConfigOk(c) && i < Count(c) && j < Count(c) && (Apart(p, q) || (p == q && i != j))
    ensures ObjAddr(c, p, i) != ObjAddr(c, q, j)
  {
    hide Count, Offset, FirstOffset;
    if p != q {
      ObjectInside(c, p, q, i);
      ObjectInside(c, q, q, j);
    } else if i < j {
      ObjectsDisjoint(c, i, j);
    } else {
      ObjectsDisjoint(c, j, i);
    }
  }

  /** Two different order-1 blocks are slabs that do not overlap. */
  lemma BlocksApart(start: nat, a: Block, b: Block)
    requires a.order == 1 && b.order == 1 && a != b
    ensures Apart(Buddy.AddrOf(start, a), Buddy.AddrOf(start, b))
  {
    assert Shl(a.index, 1) == 2 * a.index && Shl(b.index, 1) == 2 * b.index;
    assert FirstPage(a) == 2 * a.index && FirstPage(b) == 2 * b.index && a.index != b.index;
  }

  // ----- links -----

  lemma PushObject(words: map<nat, nat>, c: Config, page: nat, free: seq<nat>, i: nat)
    requires ConfigOk(c) && FreeLinked(words, c, page, free)
    requires i < Count(c) && i !in free
    ensures FreeLinked(words[ObjAddr(c, page, i) := ObjPtr(c, page, free, 0)], c, page, [i] + free)
  {
    hide Count, Offset, FirstOffset, ConfigOk;
    var next := words[ObjAddr(c, page, i) := ObjPtr(c, page, free, 0)];
    forall j: nat | j < 1 + |free|
      ensures ObjNextOk(next, c, page, [i] + free, j)
    {
      if j > 0 {
        assert ObjNextOk(words, c, page, free, j - 1);
        assert free[j - 1] in free;
        ObjectsDistinct(c, page, page, i, free[j - 1]);
      }
    }
  }

  lemma PopObject(words: map<nat, nat>, c: Config, page: nat, free: seq<nat>)
    requires ConfigOk(c) && FreeLinked(words, c, page, free) && free != []
    ensures ObjPtr(c, page, free, 0) in words
    ensures words[ObjPtr(c, page, free, 0)] == ObjPtr(c, page, free[1..], 0)
    ensures FreeLinked(words, c, page, free[1..])
  {
    hide Count, Offset, FirstOffset, ConfigOk;
    assert ObjNextOk(words, c, page, free, 0);
    assert forall i :: i in free[1..] ==> i in free;
    forall j: nat | j < |free[1..]|
      ensures ObjNextOk(words, c, page, free[1..], j)
    {
      assert ObjNextOk(words, c, page, free, j + 1);
    }
  }

  /** Writes into another slab leave a free list as it was. */
  lemma FreeElsewhere(w0: map<nat, nat>, w1: map<nat, nat>, c: Config, p: nat, q: nat, free: seq<nat>)
    requires ConfigOk(c) && FreeLinked(w0, c, q, free) && Apart(p, q)
    requires SameOutside(w0, w1, p + FirstOffset(c), p + Offset(c, Count(c)))
    ensures FreeLinked(w1, c, q, free)
  {
    hide Count, Offset, FirstOffset, ConfigOk;
    forall j: nat | j < |free|
      ensures ObjNextOk(w1, c, q, free, j)
    {
      assert ObjNextOk(w0, c, q, free, j);
      assert free[j] in free;
      ObjectInside(c, q, p, free[j]);
      assert SameAt(w0, w1, ObjAddr(c, q, free[j]));
    }
  }

  ghost predicate SameOutside(w0: map<nat, nat>, w1: map<nat, nat>, lo: nat, hi: nat) {
    forall a: nat :: !(lo <= a < hi) ==> SameAt(w0, w1, a)
  }

  /** The headers differ at most for the slabs of the chain. */
  ghost predicate SameHeaders(h0: map<nat, Header>, h1: map<nat, Header>, chain: seq<Slab>) {
    forall a: nat :: SameAt(h0, h1, a) || IsPage(chain, a)
  }

  predicate IsPage(chain: seq<Slab>, a: nat) {
    exists k :: 0 <= k < |chain| && chain[k].page == a
  }

  lemma WithinSlab(c: Config, page: nat, w0: map<nat, nat>, w1: map<nat, nat>)
    requires ConfigOk(c) && SameOutside(w0, w1, page + FirstOffset(c), page + Offset(c, Count(c)))
    ensures SameOutside(w0, w1, page, page + SLAB_BYTES)
  {
    FirstOffsetBounds(c);
    DivBounds(SLAB_BYTES - FirstOffset(c), c.size);
  }

  /** Changes to headers of the chain before and after an object was taken. */
  lemma HeadersTwice(h0: map<nat, Header>, h1: map<nat, Header>, h2: map<nat, Header>, chain: seq<Slab>, k: nat)
    requires k < |chain| && chain[k].free != []
    requires SameHeaders(h0, h1, chain) && SameHeaders(h1, h2, chain[k := Take(chain[k])])
    ensures SameHeaders(h0, h2, chain[k := Take(chain[k])]) && chain[k := Take(chain[k])][0].page == chain[0].page
  {
    var next := chain[k := Take(chain[k])];
    assert forall j :: 0 <= j < |chain| ==> next[j].page == chain[j].page;
    forall a: nat | IsPage(chain, a)
      ensures IsPage(next, a)
    {
      var j :| 0 <= j < |chain| && chain[j].page == a;
      assert next[j].page == a;
    }
  }

  lemma HeaderOfSlab(h0: map<nat, Header>, chain: seq<Slab>, k: nat, h: Header)
    requires k < |chain|
    ensures SameHeaders(h0, h0[chain[k].page := h], chain)
  {
  }

  lemma NothingWritten(w: map<nat, nat>, lo: nat, hi: nat)
    ensures SameOutside(w, w, lo, hi)
  {
  }

  lemma WriteInside(w0: map<nat, nat>, w1: map<nat, nat>, lo: nat, hi: nat, a: nat, v: nat)
    requires SameOutside(w0, w1, lo, hi) && lo <= a < hi
    ensures SameOutside(w0, w1[a := v], lo, hi)
  {
    forall x: nat {:trigger SameAt(w0, w1[a := v], x)} | !(lo <= x < hi)
      ensures SameAt(w0, w1[a := v], x)
    {
      assert SameAt(w0, w1, x);
    }
  }

  /** Replacing slab `k` and its memory keeps the chain linked. */
  lemma ReplaceSlab(
    h0: map<nat, Header>, w0: map<nat, nat>, c: Config, head: nat, chain: seq<Slab>, k: nat, s: Slab,
    h: Header, w1: map<nat, nat>)
    requires ConfigOk(c) && ChainOk(c, chain) && ChainLinked(h0, w0, c, head, chain)
    requires k < |chain| && s.page == chain[k].page && s.page in h0 && h.next == h0[s.page].next
    requires HeaderOk(h, c, s) && FreeLinked(w1, c, s.page, s.free)
    requires SameOutside(w0, w1, s.page + FirstOffset(c), s.page + Offset(c, Count(c)))
    ensures ChainLinked(h0[s.page := h], w1, c, head, chain[k := s])
  {
    hide Count, Offset, FirstOffset, ConfigOk;
    var h1, next := h0[s.page := h], chain[k := s];
    forall j: nat | j < |next|
      ensures SlabLinked(h1, w1, c, next, j)
    {
      assert SlabLinked(h0, w0, c, chain, j);
      assert PagePtr(next, j + 1) == PagePtr(chain, j + 1);
      if j != k {
        FreeElsewhere(w0, w1, c, s.page, chain[j].page, chain[j].free);
      }
    }
  }

  /** A new slab in front keeps the chain linked. */
  lemma PrependSlab(
    h0: map<nat, Header>, w0: map<nat, nat>, c: Config, head: nat, chain: seq<Slab>, s: Slab,
    h: Header, w1: map<nat, nat>)
    requires ConfigOk(c) && ChainLinked(h0, w0, c, head, chain) && h.next == head
    requires forall k :: 0 <= k < |chain| ==> Apart(s.page, chain[k].page)
    requires HeaderOk(h, c, s) && FreeLinked(w1, c, s.page, s.free)
    requires SameOutside(w0, w1, s.page + FirstOffset(c), s.page + Offset(c, Count(c)))
    ensures ChainLinked(h0[s.page := h], w1, c, s.page, [s] + chain)
  {
    hide Count, Offset, FirstOffset, ConfigOk;
    var h1, next := h0[s.page := h], [s] + chain;
    forall j: nat | j < |next|
      ensures SlabLinked(h1, w1, c, next, j)
    {
      assert j > 0 ==> next[j] == chain[j - 1];
      assert PagePtr(next, j + 1) == PagePtr(chain, j);
      if j > 0 {
        assert SlabLinked(h0, w0, c, chain, j - 1);
        FreeElsewhere(w0, w1, c, s.page, chain[j - 1].page, chain[j - 1].free);
      }
    }
  }

  lemma DropHead(headers: map<nat, Header>, words: map<nat, nat>, c: Config, head: nat, chain: seq<Slab>)
    requires ConfigOk(c) && ChainLinked(headers, words, c, head, chain) && chain != []
    ensures head in headers && ChainLinked(headers, words, c, headers[head].next, chain[1..])
  {
    hide Count, Offset, FirstOffset, ConfigOk;
    assert SlabLinked(headers, words, c, chain, 0);
    forall j: nat | j < |chain[1..]|
      ensures SlabLinked(headers, words, c, chain[1..], j)
    {
      assert SlabLinked(headers, words, c, chain, j + 1);
      assert PagePtr(chain[1..], j + 1) == PagePtr(chain, j + 2);
    }
  }

  // ----- the cache -----

  function FrameAddr(start: nat, b: Option<Block>): nat {
    if b.Some? then Buddy.AddrOf(start, b.value) else 0
  }

  function ResultAddr(c: Config, chain: seq<Slab>, r: Option<(nat, nat)>): nat
    requires ConfigOk(c)
  {
    if r.Some? && r.value.0 < |chain| then ObjAddr(c, chain[r.value.0].page, r.value.1) else 0
  }

  /** A frame just allocated is an aligned slab apart from those the cache holds. */
  lemma NewFrame(s: Spec.State, start: nat, blocks: seq<Block>, chain: seq<Slab>)
    requires Spec.Inv(s) && start % PAGE_SIZE == 0 && Held(start, s.live, blocks, chain)
    requires s.pages > 0 ==> start > 0
    ensures var (t, b) := Spec.AllocPages(s, SLAB_PAGES);
      && |t.lists| == Spec.MAX_ORDER && Held(start, t.live, blocks, chain)
      && (b == None ==> t == s)
      && (b.Some? ==>
            && b.value in t.live && b.value.order == 1
            && FrameAddr(start, b) > 0 && FrameAddr(start, b) % PAGE_SIZE == 0
            && forall k :: 0 <= k < |chain| ==> Apart(FrameAddr(start, b), chain[k].page))
  {
    Runs.AllocSafe(s, SLAB_PAGES);
    var (t, b) := Spec.AllocPages(s, SLAB_PAGES);
    if b.Some? {
      TwoPages();
      HoldsFirstPage(b.value);
      assert b.value in Spec.FreeSet(t.lists) + t.live;
      assert Covers(Spec.FreeSet(t.lists) + t.live, FirstPage(b.value));
      forall k | 0 <= k < |chain|
        ensures Apart(FrameAddr(start, b), chain[k].page)
      {
        BlocksApart(start, b.value, blocks[k]);
      }
    }
  }

  /** A slab of the chain is a block the frame allocator takes back; the others stay held. */
  lemma GiveBack(s: Spec.State, start: nat, blocks: seq<Block>, chain: seq<Slab>, k: nat)
    requires Spec.Inv(s) && Held(start, s.live, blocks, chain) && k < |chain|
    requires forall l :: 0 < l < |chain| ==> Apart(chain[0].page, chain[l].page)
    ensures !Spec.BadCount(SLAB_PAGES) && Order(SLAB_PAGES) == 1
    ensures start <= chain[k].page < start + s.pages * PAGE_SIZE
    ensures var t := Spec.FreePages(s, blocks[k], SLAB_PAGES);
      && (forall p: nat :: Holds(blocks[k], p) ==> Spec.PageFree(t, p))
      && (k == 0 ==> Held(start, t.live, blocks[1..], chain[1..]))
  {
    TwoPages();
    Runs.FreeSafe(s, blocks[k], SLAB_PAGES);
    HoldsFirstPage(blocks[k]);
    assert blocks[k] in Spec.FreeSet(s.lists) + s.live;
    assert Covers(Spec.FreeSet(s.lists) + s.live, FirstPage(blocks[k]));
    assert !Spec.BadCount(SLAB_PAGES) by {
      Pow2Monotone(1, Spec.MAX_ORDER - 1);
    }
  }

  lemma HeldSame(start: nat, live: set<Block>, blocks: seq<Block>, chain: seq<Slab>, k: nat, i: nat)
    requires Held(start, live, blocks, chain) && k < |chain|
    ensures chain[k].active > 0 ==> Held(start, live, blocks, chain[k := Give(chain[k], i)])
  {
  }

  /** `SlabHeader::contains`. */
  predicate Contains(c: Config, page: nat, obj: nat)
    requires ConfigOk(c)
  {
    page + FirstOffset(c) <= obj < page + Offset(c, Count(c))
  }

  /** An object lies between the bounds of its own slab only. */
  lemma OnlySlab(c: Config, chain: seq<Slab>, k: nat, i: nat)
    requires ConfigOk(c) && ChainOk(c, chain) && k < |chain| && i < Count(c)
    ensures forall l: nat :: l < |chain| ==> (Contains(c, chain[l].page, ObjAddr(c, chain[k].page, i)) <==> l == k)
  {
    hide Count, Offset, FirstOffset;
    forall l: nat | l < |chain|
      ensures Contains(c, chain[l].page, ObjAddr(c, chain[k].page, i)) <==> l == k
    {
      ObjectInside(c, chain[k].page, chain[l].page, i);
    }
  }

  lemma HeldCons(start: nat, live: set<Block>, blocks: seq<Block>, chain: seq<Slab>, b: Block, s: Slab)
    requires Held(start, live, blocks, chain)
    requires b in live && b.order == 1 && Buddy.AddrOf(start, b) == s.page
    ensures Held(start, live, [b] + blocks, [s] + chain)
  {
  }

  lemma HeldTake(start: nat, live: set<Block>, blocks: seq<Block>, chain: seq<Slab>, k: nat)
    requires Held(start, live, blocks, chain) && k < |chain| && chain[k].free != []
    ensures Held(start, live, blocks, chain[k := Take(chain[k])])
  {
  }

  /** The frames, the chain with its blocks, and the object after an allocation. */
  ghost function AllocStep(c: Config, start: nat, s: Spec.State, chain: seq<Slab>, blocks: seq<Block>)
    : (Spec.State, seq<Slab>, seq<Block>, Option<(nat, nat)>)
    requires ConfigOk(c) && |s.lists| == Spec.MAX_ORDER
  {
    var (t, b) := if FirstFree(chain, 0) < |chain| then (s, None) else Spec.AllocPages(s, SLAB_PAGES);
    var (next, r) := SlabSpec.Alloc(c, chain, if b.Some? then Some(Buddy.AddrOf(start, b.value)) else None);
    (t, next, (if b.Some? then [b.value] else []) + blocks, r)
  }

  lemma StepFirst(c: Config, start: nat, s: Spec.State, chain: seq<Slab>, blocks: seq<Block>)
    requires ConfigOk(c) && |s.lists| == Spec.MAX_ORDER && FirstFree(chain, 0) < |chain|
    ensures var k := FirstFree(chain, 0);
      AllocStep(c, start, s, chain, blocks)
      == (s, chain[k := Take(chain[k])], blocks, Some((k, chain[k].free[0])))
  {
    hide Count, Offset, Spec.AllocPages, Buddy.AddrOf, Take, FirstFree;
    assert [] + blocks == blocks;
  }

  lemma TakenAddr(c: Config, chain: seq<Slab>)
    requires ConfigOk(c) && FirstFree(chain, 0) < |chain|
    ensures var k := FirstFree(chain, 0);
      ResultAddr(c, chain[k := Take(chain[k])], Some((k, chain[k].free[0]))) ==
        ObjAddr(c, chain[k].page, chain[k].free[0])
  {
    hide Count, Offset;
  }

  lemma NoResult(c: Config, chain: seq<Slab>)
    requires ConfigOk(c)
    ensures ResultAddr(c, chain, None) == 0
  {
  }

  lemma StepNone(c: Config, start: nat, s: Spec.State, chain: seq<Slab>, blocks: seq<Block>)
    requires ConfigOk(c) && |s.lists| == Spec.MAX_ORDER && FirstFree(chain, 0) == |chain|
    requires Spec.AllocPages(s, SLAB_PAGES) == (s, None)
    ensures AllocStep(c, start, s, chain, blocks) == (s, chain, blocks, None)
  {
    hide Count, Offset, Spec.AllocPages;
    assert [] + blocks == blocks;
  }

  /** Allocating with a new slab is allocating after that slab has been added. */
  lemma StepGrow(c: Config, start: nat, s: Spec.State, t: Spec.State, chain: seq<Slab>, blocks: seq<Block>, b: Block)
    requires ConfigOk(c) && |s.lists| == |t.lists| == Spec.MAX_ORDER && FirstFree(chain, 0) == |chain|
    requires Spec.AllocPages(s, SLAB_PAGES) == (t, Some(b))
    ensures FirstFree([NewSlab(c, Buddy.AddrOf(start, b))] + chain, 0) == 0
    ensures NewSlab(c, Buddy.AddrOf(start, b)).page == Buddy.AddrOf(start, b)
    ensures AllocStep(c, start, s, chain, blocks)
            == AllocStep(c, start, t, [NewSlab(c, Buddy.AddrOf(start, b))] + chain, [b] + blocks)
  {
    hide Count, Offset, Spec.AllocPages, Buddy.AddrOf;
    SomeObject(c);
    var n := NewSlab(c, Buddy.AddrOf(start, b));
    assert ([n] + chain)[0 := Take(n)] == [Take(n)] + chain;
    StepFirst(c, start, t, [n] + chain, [b] + blocks);
  }

  lemma TwoPages()
    ensures Order(SLAB_PAGES) == 1 && IsPow2(SLAB_PAGES)
  {
    assert Pow2(0) == 1 && Pow2(1) == 2;
    OrderUnique(SLAB_PAGES, 1);
  }

  /** Address of the first object: past the header, rounded up to the alignment. */
  function FirstObject(c: Config, page: nat): nat
    requires ConfigOk(c)
  {
    (page + HEADER_SIZE + c.align - 1) / c.align * c.align
  }

  lemma FirstObjectOffset(c: Config, page: nat)
    requires ConfigOk(c) && page % PAGE_SIZE == 0
    ensures FirstObject(c, page) == page + FirstOffset(c)
    ensures (page + SLAB_BYTES - FirstObject(c, page)) / c.size == Count(c)
    ensures FirstObject(c, page) + c.size * Count(c) == page + Offset(c, Count(c))
  {
    var m, p := page / PAGE_SIZE, PAGE_SIZE / c.align;
    assert p * c.align == PAGE_SIZE;
    assert page == m * p * c.align;
    DivShift(m * p, c.align, HEADER_SIZE + c.align - 1);
    FirstOffsetBounds(c);
  }

  lemma DivShift(q: nat, m: nat, x: nat)
    requires m > 0
    ensures (q * m + x) / m * m == q * m + x / m * m
  {
    MultipleMod(q, m, x);
    DivBounds(q * m + x, m);
  }

  class MemCache {
    const c: Config
    const frames: Buddy.BuddyAllocator
    var slabs: nat
    var headers: map<nat, Header>
    var words: map<nat, nat>
    ghost var chain: seq<Slab>
    ghost var blocks: seq<Block>

    ghost predicate Linked()
      reads this`slabs, this`headers, this`words, this`chain
    {
      ConfigOk(c) && ChainOk(c, chain) && ChainLinked(headers, words, c, slabs, chain)
    }

    /** The chain can be walked and all slabs but number `k` are linked. Slab `k` has its place, its
        bounds and its count; its list of free objects may be overwritten. */
    ghost predicate LinkedBut(k: nat)
      reads this`slabs, this`headers, this`words, this`chain
    {
      && ConfigOk(c) && ChainOk(c, chain) && k < |chain| && slabs == PagePtr(chain, 0)
      && (forall j: nat :: j < |chain| && j != k ==> SlabLinked(headers, words, c, chain, j))
      && chain[k].page in headers
      && var header := headers[chain[k].page];
      && header.next == PagePtr(chain, k + 1) && header.active == chain[k].active
      && header.objectStart == chain[k].page + FirstOffset(c)
      && header.objectEnd == chain[k].page + Offset(c, Count(c))
    }

    /** Nothing has been written. */
    twostate predicate Idle()
      reads this, frames, frames.freeLists
    {
      slabs == old(slabs) && headers == old(headers) && words == old(words) && frames.Idle()
    }

    ghost predicate Valid()
      reads this, frames, frames.freeLists
    {
      && Linked()
      && frames.Valid()
      && Held(frames.startAddr, frames.live, blocks, chain)
    }

    constructor (c: Config, frames: Buddy.BuddyAllocator)
      requires ConfigOk(c) && frames.Valid()
      ensures Valid() && this.c == c && this.frames == frames && chain == [] && blocks == []
    {
      this.c, this.frames := c, frames;
      slabs, headers, words := 0, map[], map[];
      chain, blocks := [], [];
    }

    /** Links `n` objects from `start` on, each in front of the one before; returns the head. */
    method InitObjects(page: nat, start: nat, n: nat) returns (freeList: nat)
      requires ConfigOk(c) && start == page + FirstOffset(c) && n == Count(c)
      modifies this`words
      ensures freeList == ObjPtr(c, page, Down(n), 0) && FreeLinked(words, c, page, Down(n))
      ensures SameOutside(old(words), words, start, page + Offset(c, n))
    {
      hide SameOutside;
      assert SameOutside(old(words), words, start, page + Offset(c, n)) by {
        NothingWritten(words, start, page + Offset(c, n));
      }
      freeList := 0;
      var i := 0;
      while i < n
        invariant 0 <= i <= n
        invariant freeList == ObjPtr(c, page, Down(i), 0) && FreeLinked(words, c, page, Down(i))
        invariant SameOutside(old(words), words, start, page + Offset(c, n))
      {
        var obj := start + i * c.size;
        assert obj == ObjAddr(c, page, i);
        ObjectInside(c, page, page, i);
        PushObject(words, c, page, Down(i), i);
        WriteInside(old(words), words, start, page + Offset(c, n), obj, freeList);
        words := words[obj := freeList];
        freeList := obj;
        i := i + 1;
      }
    }

    /** Makes a slab of the frame at `page` and puts it at the head of the chain. */
    method AddSlab(page: nat)
      requires Linked() && page > 0 && page % PAGE_SIZE == 0
      requires forall k :: 0 <= k < |chain| ==> Apart(page, chain[k].page)
      modifies this`slabs, this`headers, this`words, this`chain
      ensures Linked() && chain == [NewSlab(c, page)] + old(chain)
      ensures SameOutside(old(words), words, page, page + SLAB_BYTES) && SameHeaders(old(headers), headers, chain)
    {
      hide Count, Offset, FirstOffset, FreeLinked, SlabOk, ChainLinked;
      FirstObjectOffset(c, page);
      var start := FirstObject(c, page);
      var n := (page + SLAB_BYTES - start) / c.size;
      ghost var w0 := words;
      var freeList := InitObjects(page, start, n);
      var header := Header(freeList, start, start + c.size * n, 0, slabs);
      NewOk(c, page);
      WithinSlab(c, page, w0, words);
      PrependSlab(headers, w0, c, slabs, chain, NewSlab(c, page), header, words);
      HeaderOfSlab(headers, [NewSlab(c, page)] + chain, 0, header);
      headers := headers[page := header];
      slabs := page;
      chain := [NewSlab(c, page)] + chain;
    }

    /** `alloc_slab`: two pages become a slab at the head of the chain. */
    method AllocSlab() returns (page: nat)
      requires Valid()
      modifies this`slabs, this`headers, this`words, this`chain, this`blocks
      modifies frames`mem, frames`lists, frames`live, frames.freeLists
      ensures Valid() && |frames.lists| == Spec.MAX_ORDER
      ensures page == 0 ==>
        && Spec.AllocPages(old(frames.Abs()), SLAB_PAGES) == (old(frames.Abs()), None)
        && frames.Abs() == old(frames.Abs()) && chain == old(chain) && blocks == old(blocks)
      ensures page != 0 ==>
        && blocks != [] && page == Buddy.AddrOf(frames.startAddr, blocks[0])
        && Spec.AllocPages(old(frames.Abs()), SLAB_PAGES) == (frames.Abs(), Some(blocks[0]))
        && chain == [NewSlab(c, page)] + old(chain) && blocks == [blocks[0]] + old(blocks)
      ensures Buddy.Untouched(old(frames.mem), frames.mem, frames.startAddr, frames.live)
      ensures SameHeaders(old(headers), headers, chain)
      ensures if page == 0 then Idle() else SameOutside(old(words), words, page, page + SLAB_BYTES)
    {
      assert |frames.lists| == Spec.MAX_ORDER && ConfigOk(c);
      hide Linked, Spec.AllocPages, Spec.Inv, Buddy.BuddyAllocator.LinksOk, Apart, Buddy.AddrOf, Held, ChainOk;
      ghost var before := frames.Abs();
      ghost var (t, b) := Spec.AllocPages(before, SLAB_PAGES);
      page := frames.AllocPages(SLAB_PAGES);
      NewFrame(before, frames.startAddr, blocks, chain);
      if page == 0 {
        return;
      }
      HeldCons(frames.startAddr, frames.live, blocks, chain, b.value, NewSlab(c, page));
      AddSlab(page);
      blocks := [b.value] + blocks;
    }

    /** `SlabHeader::alloc` on slab `k`: the head of its free list, or `None`. */
    method TakeObject(slab: nat, ghost k: nat) returns (obj: nat)
      requires Linked() && k < |chain| && slab == chain[k].page
      modifies this`headers, this`chain
      ensures Linked()
      ensures var s := old(chain[k]);
        if s.free == [] then obj == 0 && chain == old(chain)
        else obj == ObjAddr(c, slab, s.free[0]) && chain == old(chain)[k := Take(s)]
      ensures SameHeaders(old(headers), headers, chain) && (obj == 0 ==> headers == old(headers))
    {
      hide Count, Offset, FirstOffset, FreeLinked;
      ghost var s := chain[k];
      assert SlabLinked(headers, words, c, chain, k);
      var header := headers[slab];
      if header.freeList == 0 {
        return 0;
      }
      obj := header.freeList;
      PopObject(words, c, slab, s.free);
      TakeOk(c, s);
      header := header.(freeList := words[obj], active := header.active + 1);
      ReplaceSlab(headers, words, c, slabs, chain, k, Take(s), header, words);
      HeaderOfSlab(headers, chain[k := Take(s)], k, header);
      headers := headers[slab := header];
      chain := chain[k := Take(s)];
    }

    /** The inner loop of `alloc`: the first slab of the chain with a free object. */
    method ScanSlabs() returns (slab: nat)
      requires Linked()
      ensures slab == PagePtr(chain, FirstFree(chain, 0))
    {
      hide Count, Offset, FirstOffset, FreeLinked;
      slab := slabs;
      ghost var k := 0;
      while slab != 0
        invariant k <= |chain| && slab == PagePtr(chain, k) && FirstFree(chain, 0) == FirstFree(chain, k)
        decreases |chain| - k
      {
        assert SlabLinked(headers, words, c, chain, k);
        if headers[slab].freeList != 0 {
          return;
        }
        slab := headers[slab].next;
        k := k + 1;
      }
    }

    /** One turn of the loop of `alloc`: an object from the chain, or `None` if all slabs are full. */
    method TakeFirst() returns (obj: nat)
      requires Valid()
      modifies this`headers, this`chain
      ensures Valid()
      ensures var k := FirstFree(old(chain), 0);
        if k == |old(chain)| then obj == 0 && chain == old(chain)
        else (obj == ObjAddr(c, old(chain)[k].page, old(chain)[k].free[0]) > 0
              && chain == old(chain)[k := Take(old(chain)[k])])
      ensures SameHeaders(old(headers), headers, chain) && (obj == 0 ==> headers == old(headers))
    {
      hide Held, Spec.Inv, Buddy.BuddyAllocator.LinksOk, Buddy.AddrOf, ChainLinked;
      obj := 0;
      var slab := ScanSlabs();
      if slab != 0 {
        ghost var k := FirstFree(chain, 0);
        HeldTake(frames.startAddr, frames.live, blocks, chain, k);
        obj := TakeObject(slab, k);
      }
    }

    /** What an allocation writes: words of a new slab only, headers of slabs on the chain only, and no
        word in a block in use. */
    twostate predicate Writes()
      reads this, frames
    {
      && Buddy.Untouched(old(frames.mem), frames.mem, frames.startAddr, frames.live)
      && SameHeaders(old(headers), headers, chain)
      && |old(chain)| <= |chain|
      && (|chain| == |old(chain)| ==> words == old(words))
      && (|chain| > |old(chain)| ==> SameOutside(old(words), words, chain[0].page, chain[0].page + SLAB_BYTES))
    }

    twostate predicate NothingYet()
      reads this, frames, frames.freeLists
    {
      chain == old(chain) && Idle()
    }

    twostate lemma AtFirst()
      requires Valid() && chain == old(chain) && blocks == old(blocks) && Idle()
      ensures ConfigOk(c) && |frames.lists| == Spec.MAX_ORDER && frames.startAddr <= frames.endAddr
      ensures Writes() && NothingYet()
    {
    }

    /** `alloc`: the first free object along the chain, from a new slab if there is none. */
    method Alloc() returns (obj: nat)
      requires Valid()
      modifies this`slabs, this`headers, this`words, this`chain, this`blocks
      modifies frames`mem, frames`lists, frames`live, frames.freeLists
      ensures Valid()
      ensures var (t, next, held, r) := AllocStep(c, frames.startAddr, old(frames.Abs()), old(chain), old(blocks));
        && frames.Abs() == t && chain == next && blocks == held
        && obj == ResultAddr(c, next, r)
      ensures Writes() && (obj == 0 ==> Idle())
    {
      hide Linked, Held, Buddy.BuddyAllocator.Valid, MemCache.Valid, Buddy.Untouched, SameOutside, SameHeaders,
           Spec.AllocPages, Spec.Inv, Buddy.BuddyAllocator.LinksOk, Buddy.AddrOf, NewSlab, ConfigOk;
      hide AllocStep, FirstFree, ObjAddr, Take, ResultAddr;
      AtFirst();
      while true
        invariant Valid() && |frames.lists| == Spec.MAX_ORDER
        invariant AllocStep(c, frames.startAddr, frames.Abs(), chain, blocks)
                  == AllocStep(c, frames.startAddr, old(frames.Abs()), old(chain), old(blocks))
        invariant Writes() && (FirstFree(chain, 0) == |chain| ==> NothingYet())
        decreases FirstFree(chain, 0) == |chain|
      {
        ghost var s0, chain0, blocks0, headers0 := frames.Abs(), chain, blocks, headers;
        obj := TakeFirst();
        if obj != 0 {
          HeadersTwice(old(headers), headers0, headers, chain0, FirstFree(chain0, 0));
          StepFirst(c, frames.startAddr, s0, chain0, blocks0);
          TakenAddr(c, chain0);
          return;
        }
        var page := AllocSlab();
        if page == 0 {
          StepNone(c, frames.startAddr, s0, chain, blocks);
          NoResult(c, chain);
          return 0;
        }
        StepGrow(c, frames.startAddr, s0, frames.Abs(), chain0, blocks0, blocks[0]);
      }
    }

    /** `SlabHeader::free` of object `i` of slab `k`. */
    method GiveObject(slab: nat, obj: nat, ghost k: nat, ghost i: nat) returns (active: nat)
      requires Linked() && k < |chain| && slab == chain[k].page
      requires Live(c, chain[k], i) && obj == ObjAddr(c, slab, i)
      modifies this`headers, this`words, this`chain
      ensures old(chain[k]).active > 0 && Linked() && active == old(chain[k]).active - 1
      ensures chain == old(chain)[k := Give(old(chain[k]), i)]
      ensures obj in words && words == old(words)[obj := words[obj]]
      ensures slab in headers && headers == old(headers)[slab := headers[slab]]
    {
      hide Count, Offset, FirstOffset, FreeLinked;
      ghost var s := chain[k];
      GiveOk(c, s, i);
      assert SlabLinked(headers, words, c, chain, k);
      var header := headers[slab];
      ObjectInside(c, slab, slab, i);
      PushObject(words, c, slab, s.free, i);
      ghost var w0 := words;
      words := words[obj := header.freeList];
      active := header.active - 1;
      header := header.(freeList := obj, active := active);
      ReplaceSlab(headers, w0, c, slabs, chain, k, Give(s, i), header, words);
      headers := headers[slab := header];
      chain := chain[k := Give(s, i)];
    }

    /** The loop of `free_slab`, which looks for a header pointing to itself: there is none. */
    method SearchChain()
      requires Linked()
    {
      hide Count, Offset, FirstOffset, FreeLinked, HeaderOk;
      var current := slabs;
      ghost var k := 0;
      while current != 0
        invariant k <= |chain| && current == PagePtr(chain, k)
        decreases |chain| - k
      {
        assert SlabLinked(headers, words, c, chain, k);
        assert k + 1 < |chain| ==> Apart(chain[k].page, chain[k + 1].page);
        assert headers[current].next != current;
        current := headers[current].next;
        k := k + 1;
      }
    }

    lemma WalkBut(k: nat)
      requires Linked() && k < |chain|
      ensures LinkedBut(k)
    {
      hide Count, Offset, FirstOffset, FreeLinked;
      assert SlabLinked(headers, words, c, chain, k);
    }

    /** `free_slab` of slab `k`, which has no object in use. */
    method FreeSlab(slab: nat, ghost k: nat)
      requires Valid() && k < |chain| && slab == chain[k].page
      modifies this`slabs, this`chain, this`blocks
      modifies frames`mem, frames`lists, frames`live, frames.freeLists
      ensures frames.Valid() && frames.Abs() == Spec.FreePages(old(frames.Abs()), old(blocks)[k], SLAB_PAGES)
      ensures forall p: nat :: Holds(old(blocks)[k], p) ==> Spec.PageFree(frames.Abs(), p)
      ensures k == 0 ==> Valid() && chain == old(chain)[1..] && blocks == old(blocks)[1..]
      ensures k > 0 ==> chain == old(chain) && blocks == old(blocks) && slabs == old(slabs) && LinkedBut(k)
      ensures Buddy.Untouched(old(frames.mem), frames.mem, frames.startAddr, frames.live)
    {
      WalkBut(k);
      assert |frames.lists| == Spec.MAX_ORDER && (k > 0 ==> Apart(chain[0].page, slab));
      hide Spec.FreePages, Spec.Inv, Buddy.BuddyAllocator.LinksOk, Buddy.AddrOf, ChainLinked, Spec.PageFree, SlabOk;
      GiveBack(frames.Abs(), frames.startAddr, blocks, chain, k);
      hide Held;
      frames.FreePages(slab, SLAB_PAGES, blocks[k]);
      if slabs == slab {
        DropHead(headers, words, c, slabs, chain);
        slabs := headers[slab].next;
        chain, blocks := chain[1..], blocks[1..];
        return;
      }
      SearchChain();
    }

    /** The loop of `free`: the slab between whose bounds `obj` lies, or `None`. */
    method FindSlab(obj: nat, ghost k: nat) returns (slab: nat)
      requires Linked() && k <= |chain|
      requires k < |chain| ==> Contains(c, chain[k].page, obj)
      requires forall l: nat :: l < |chain| && l != k ==> !Contains(c, chain[l].page, obj)
      ensures slab == PagePtr(chain, k)
    {
      assert forall l :: 0 <= l < |chain| ==> chain[l].page > 0;
      hide Count, Offset, FirstOffset, FreeLinked, ChainOk;
      slab := slabs;
      ghost var l := 0;
      while slab != 0
        invariant l <= k && slab == PagePtr(chain, l)
        decreases |chain| - l
      {
        assert SlabLinked(headers, words, c, chain, l);
        assert l < k ==> !Contains(c, chain[l].page, obj);
        if headers[slab].objectStart <= obj < headers[slab].objectEnd {
          return;
        }
        slab := headers[slab].next;
        l := l + 1;
      }
    }

    /** `free` of object `i` of slab `k`, or of an address in no slab (`k` is then the length of the
        chain). The cache stays valid unless a slab behind the head was emptied; in that case the
        slab is still on the chain while all its pages are free. */
    method Free(obj: nat, ghost k: nat, ghost i: nat)
      requires Valid() && k <= |chain|
      requires k < |chain| ==> Live(c, chain[k], i) && obj == ObjAddr(c, chain[k].page, i)
      requires k == |chain| ==> forall l: nat :: l < |chain| ==> !Contains(c, chain[l].page, obj)
      modifies this`slabs, this`headers, this`words, this`chain, this`blocks
      modifies frames`mem, frames`lists, frames`live, frames.freeLists
      ensures frames.Valid()
      ensures k == |old(chain)| ==>
        Valid() && chain == old(chain) && blocks == old(blocks) && frames.Abs() == old(frames.Abs())
      ensures k < |old(chain)| ==>
        && old(chain)[k].active > 0
        && var (next, freed) := SlabSpec.Free(old(chain), k, i);
           && chain == next
           && blocks == (if freed.Some? && k == 0 then old(blocks)[1..] else old(blocks))
           && frames.Abs() == (if freed.Some? then Spec.FreePages(old(frames.Abs()), old(blocks)[k], SLAB_PAGES)
                               else old(frames.Abs()))
           && (k == 0 || freed == None ==> Valid())
           && (k > 0 && freed.Some? ==> slabs == old(slabs) && LinkedBut(k))
           && (freed.Some? ==> forall p: nat :: Holds(old(blocks)[k], p) ==> Spec.PageFree(frames.Abs(), p))
      ensures k == |old(chain)| ==> Idle()
      ensures Buddy.Untouched(old(frames.mem), frames.mem, frames.startAddr, frames.live)
      ensures forall a: nat :: a == obj || SameAt(old(words), words, a)
      ensures forall a: nat :: SameAt(old(headers), headers, a) || (k < |old(chain)| && a == old(chain)[k].page)
    {
      assert |frames.lists| == Spec.MAX_ORDER;
      hide Spec.FreePages, Spec.Inv, Buddy.BuddyAllocator.LinksOk, Buddy.AddrOf, ChainLinked, Spec.PageFree, SlabOk,
           LinkedBut, Buddy.Untouched, SameAt, Live, ObjAddr, Contains;
      if k < |chain| {
        OnlySlab(c, chain, k, i);
      }
      var slab := FindSlab(obj, k);
      if slab != 0 {
        HeldSame(frames.startAddr, frames.live, blocks, chain, k, i);
        hide Held;
        var active := GiveObject(slab, obj, k, i);
        if active == 0 {
          FreeSlab(slab, k);
        }
      }
    }
  }
}
