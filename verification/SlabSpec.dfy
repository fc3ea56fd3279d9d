/** Slabs as values: the objects of a two-page slab, the chain of a cache, and its steps. */
module SlabSpec {
  import opened Common

  const SLAB_BYTES: nat := 8192
  const HEADER_SIZE: nat := 40

  /** Object size and alignment of a cache. */
  datatype Config = Config(size: nat, align: nat)

  /** What `MemCache::new` asserts, for objects of at most a page. */
  predicate ConfigOk(c: Config) {
    8 <= c.align <= c.size <= 4096 && 4096 % c.align == 0
  }

  /** Offset of the first object: the header size rounded up to the alignment. */
  function FirstOffset(c: Config): nat
    requires c.align > 0
  {
    (HEADER_SIZE + c.align - 1) / c.align * c.align
  }

  /** Objects in a slab. */
  function Count(c: Config): nat
    requires ConfigOk(c)
  {
    if FirstOffset(c) <= SLAB_BYTES then (SLAB_BYTES - FirstOffset(c)) / c.size else 0
  }

  function Offset(c: Config, i: nat): nat
    requires ConfigOk(c)
  {
    FirstOffset(c) + i * c.size
  }

  lemma DivBounds(a: nat, b: nat)
    requires b > 0
    ensures a / b * b <= a < a / b * b + b
  {
  }

  lemma MulMonotone(a: nat, b: nat, m: nat)
    requires a <= b
    ensures a * m <= b * m
  {
  }

  lemma FirstOffsetBounds(c: Config)
    requires ConfigOk(c)
    ensures HEADER_SIZE <= FirstOffset(c) <= 4096
  {
    DivBounds(HEADER_SIZE + c.align - 1, c.align);
    var q, p := (HEADER_SIZE + c.align - 1) / c.align, 4096 / c.align;
    DivBounds(4096, c.align);
    assert p * c.align == 4096 && (p + 1) * c.align == 4096 + c.align;
    if q <= p {
      MulMonotone(q, p, c.align);
    } else {
      MulMonotone(p + 1, q, c.align);
    }
  }

  /** A slab holds an object, and every object lies between the header and the end of the slab. */
  lemma ObjectsFit(c: Config, i: nat)
    requires ConfigOk(c) && i < Count(c)
    ensures HEADER_SIZE <= Offset(c, i) && Offset(c, i) + c.size <= SLAB_BYTES
  {
    FirstOffsetBounds(c);
    DivBounds(SLAB_BYTES - FirstOffset(c), c.size);
    MulMonotone(i + 1, Count(c), c.size);
    assert (i + 1) * c.size == i * c.size + c.size;
  }

  /** Objects start at the first aligned place after the header, and there are as many as fit. */
  lemma SlabIsFilled(c: Config)
    requires ConfigOk(c)
    ensures Offset(c, 0) % c.align == 0 && HEADER_SIZE <= Offset(c, 0) < HEADER_SIZE + c.align
    ensures Offset(c, Count(c)) <= SLAB_BYTES < Offset(c, Count(c) + 1)
    ensures forall i: nat :: Offset(c, i + 1) == Offset(c, i) + c.size
  {
    FirstAligned(c);
    FirstOffsetBounds(c);
    DivBounds(HEADER_SIZE + c.align - 1, c.align);
    DivBounds(SLAB_BYTES - FirstOffset(c), c.size);
    forall i: nat
      ensures Offset(c, i + 1) == Offset(c, i) + c.size
    {
      assert (i + 1) * c.size == i * c.size + c.size;
    }
  }

  lemma SomeObject(c: Config)
    requires ConfigOk(c)
    ensures Count(c) > 0
  {
    FirstOffsetBounds(c);
    DivBounds(SLAB_BYTES - FirstOffset(c), c.size);
    assert 0 * c.size == 0;
  }

  /** Different objects of a slab do not overlap. */
  lemma ObjectsDisjoint(c: Config, i: nat, j: nat)
    requires ConfigOk(c) && i < j
    ensures Offset(c, i) + c.size <= Offset(c, j)
  {
    MulMonotone(i + 1, j, c.size);
    assert (i + 1) * c.size == i * c.size + c.size;
  }

  /** All objects of a slab are aligned exactly when there is only one or the object size is a
      multiple of the alignment. */
  lemma AlignedIff(c: Config)
    requires ConfigOk(c)
    ensures (forall i: nat :: i < Count(c) ==> Offset(c, i) % c.align == 0) <==> Count(c) <= 1 || c.size % c.align == 0
  {
    SomeObject(c);
    FirstAligned(c);
    hide Count;
    assert Offset(c, 0) == FirstOffset(c) && Offset(c, 1) == FirstOffset(c) + c.size;
    hide FirstOffset, Offset;
    if c.size % c.align == 0 {
      forall i: nat | i < Count(c)
        ensures Offset(c, i) % c.align == 0
      {
        MultipleAligned(c, i);
      }
    }
  }

  lemma FirstAligned(c: Config)
    requires ConfigOk(c)
    ensures FirstOffset(c) % c.align == 0 && (FirstOffset(c) + c.size) % c.align == c.size % c.align
  {
    var q := (HEADER_SIZE + c.align - 1) / c.align;
    MultipleMod(q, c.align, 0);
    MultipleMod(q, c.align, c.size);
  }

  lemma MultipleAligned(c: Config, i: nat)
    requires ConfigOk(c) && c.size % c.align == 0
    ensures Offset(c, i) % c.align == 0
  {
    var q, s := (HEADER_SIZE + c.align - 1) / c.align, c.size / c.align;
    assert c.size == s * c.align;
    assert Offset(c, i) == (q + i * s) * c.align;
    MultipleMod(q + i * s, c.align, 0);
  }

  // ----- slabs and chains -----

  /** A slab at address `page`: the numbers of its free objects in list order, and its count of
      objects handed out. */
  datatype Slab = Slab(page: nat, free: seq<nat>, active: nat)

  /** Free objects are distinct, and free and active ones make up the slab. */
  predicate SlabOk(c: Config, s: Slab)
    requires ConfigOk(c)
  {
    && s.page > 0 && s.page % 4096 == 0
    && NoDup(s.free)
    && (forall i :: i in s.free ==> i < Count(c))
    && |s.free| + s.active == Count(c)
  }

  /** Slabs do not overlap. */
  predicate Apart(p: nat, q: nat) {
    p + SLAB_BYTES <= q || q + SLAB_BYTES <= p
  }

  predicate ChainOk(c: Config, chain: seq<Slab>)
    requires ConfigOk(c)
  {
    && (forall k :: 0 <= k < |chain| ==> SlabOk(c, chain[k]))
    && (forall k, l :: 0 <= k < l < |chain| ==> Apart(chain[k].page, chain[l].page))
  }

  /** Object `i` of slab `s` is handed out. */
  predicate Live(c: Config, s: Slab, i: nat)
    requires ConfigOk(c)
  {
    i < Count(c) && i !in s.free
  }

  function ToSet(s: seq<nat>): (r: set<nat>)
    ensures forall x :: x in r <==> x in s
  {
    set x | x in s
  }

  lemma {:induction false} NoDupCard(s: seq<nat>)
    requires NoDup(s)
    ensures |ToSet(s)| == |s|
  {
    if s != [] {
      NoDupCard(s[1..]);
      assert ToSet(s) == {s[0]} + ToSet(s[1..]);
      assert s[0] !in s[1..];
    }
  }

  /** The count of active objects is zero exactly when nothing is handed out. */
  lemma ActiveIsLive(c: Config, s: Slab)
    requires ConfigOk(c) && SlabOk(c, s)
    ensures s.active == 0 <==> forall i: nat :: !Live(c, s, i)
  {
    var all := Range(0, Count(c));
    NoDupCard(s.free);
    assert ToSet(s.free) <= all;
    if s.active == 0 {
      SubsetSameSize(ToSet(s.free), all);
    } else {
      assert ToSet(s.free) != all;
      var i :| i in all && i !in ToSet(s.free);
      assert Live(c, s, i);
    }
  }

  lemma {:induction false} SubsetSameSize(a: set<nat>, b: set<nat>)
    requires a <= b && |a| == |b|
    ensures a == b
  {
    if a != {} {
      var x :| x in a;
      SubsetSameSize(a - {x}, b - {x});
    }
  }

  // ----- steps -----

  /** The free list `init` builds: each object is pushed in front of the one before. */
  function Down(n: nat): (s: seq<nat>)
    ensures |s| == n && forall i :: 0 <= i < n ==> s[i] == n - 1 - i
  {
    if n == 0 then [] else [n - 1] + Down(n - 1)
  }

  function NewSlab(c: Config, page: nat): Slab
    requires ConfigOk(c)
  {
    Slab(page, Down(Count(c)), 0)
  }

  /** `SlabHeader::alloc`. */
  function Take(s: Slab): Slab
    requires s.free != []
  {
    Slab(s.page, s.free[1..], s.active + 1)
  }

  /** `SlabHeader::free`. */
  function Give(s: Slab, i: nat): Slab
    requires s.active > 0
  {
    Slab(s.page, [i] + s.free, s.active - 1)
  }

  /** The first slab from `k` on with a free object, or the length of the chain. */
  function FirstFree(chain: seq<Slab>, k: nat): (r: nat)
    requires k <= |chain|
    ensures k <= r <= |chain|
    ensures r < |chain| ==> chain[r].free != []
    ensures forall j :: k <= j < r ==> chain[j].free == []
    decreases |chain| - k
  {
    if k == |chain| || chain[k].free != [] then k else FirstFree(chain, k + 1)
  }

  /** `MemCache::alloc`, `frame` being what the frame allocator returns if it is asked: the chain
      afterwards and the object, by slab position and number. */
  function Alloc(c: Config, chain: seq<Slab>, frame: Option<nat>): (seq<Slab>, Option<(nat, nat)>)
    requires ConfigOk(c)
  {
    var k := FirstFree(chain, 0);
    if k < |chain| then (chain[k := Take(chain[k])], Some((k, chain[k].free[0])))
    else if frame == None then (chain, None)
    else
      SomeObject(c);
      var s := NewSlab(c, frame.value);
      ([Take(s)] + chain, Some((0, s.free[0])))
  }

  /** `MemCache::free` of object `i` of slab `k`: a slab emptied this way is given back, but it is
      taken off the chain only at the head. */
  function Free(chain: seq<Slab>, k: nat, i: nat): (seq<Slab>, Option<nat>)
    requires k < |chain| && chain[k].active > 0
  {
    var s := Give(chain[k], i);
    if s.active > 0 then (chain[k := s], None)
    else if k == 0 then (chain[1..], Some(s.page))
    else (chain[k := s], Some(s.page))
  }

  lemma TakeOk(c: Config, s: Slab)
    requires ConfigOk(c) && SlabOk(c, s) && s.free != []
    ensures SlabOk(c, Take(s)) && !Live(c, s, s.free[0])
    ensures forall i: nat :: Live(c, Take(s), i) <==> Live(c, s, i) || i == s.free[0]
  {
    assert forall i :: i in s.free <==> i == s.free[0] || i in s.free[1..];
    assert s.free[0] !in s.free[1..];
  }

  lemma GiveOk(c: Config, s: Slab, i: nat)
    requires ConfigOk(c) && SlabOk(c, s) && Live(c, s, i)
    ensures s.active > 0 && SlabOk(c, Give(s, i))
    ensures forall j: nat :: Live(c, Give(s, i), j) <==> Live(c, s, j) && j != i
  {
    ActiveIsLive(c, s);
  }

  /** The object given back last is taken first, and taking it undoes giving it. */
  lemma TakeUndoesGive(s: Slab, i: nat)
    requires s.active > 0
    ensures Give(s, i).free != [] && Give(s, i).free[0] == i && Take(Give(s, i)) == s
  {
    assert ([i] + s.free)[1..] == s.free;
  }

  lemma NewOk(c: Config, page: nat)
    requires ConfigOk(c) && page > 0 && page % 4096 == 0
    ensures SlabOk(c, NewSlab(c, page)) && NewSlab(c, page).free != []
    ensures forall i: nat :: !Live(c, NewSlab(c, page), i)
  {
    SomeObject(c);
    ActiveIsLive(c, NewSlab(c, page));
  }

  /** An allocation hands out one object that was not in use, from at most one new slab. */
  lemma AllocOk(c: Config, chain: seq<Slab>, frame: Option<nat>)
    requires ConfigOk(c) && ChainOk(c, chain)
    requires frame.Some? ==> frame.value > 0 && frame.value % 4096 == 0
    requires frame.Some? ==> forall k :: 0 <= k < |chain| ==> Apart(frame.value, chain[k].page)
    ensures var (next, r) := Alloc(c, chain, frame);
      && ChainOk(c, next)
      && (r == None ==> next == chain && frame == None)
      && (r.Some? ==> r.value.0 < |next| && r.value.1 < Count(c) && Live(c, next[r.value.0], r.value.1))
      && |chain| <= |next| <= |chain| + 1
      && (|next| > |chain| ==> forall k :: 0 <= k < |chain| ==> chain[k].free == [])
  {
    var k := FirstFree(chain, 0);
    if k < |chain| {
      TakeOk(c, chain[k]);
    } else if frame.Some? {
      NewOk(c, frame.value);
      TakeOk(c, NewSlab(c, frame.value));
    }
  }

  /** The pages of the chain are frames this cache holds. */
  ghost predicate Owned(chain: seq<Slab>, frames: set<nat>) {
    forall k :: 0 <= k < |chain| ==> chain[k].page in frames
  }

  /** After a free, the chain consists of frames the cache still holds exactly when no slab other
      than the head was emptied. */
  lemma FreeOwnedIff(c: Config, chain: seq<Slab>, frames: set<nat>, k: nat, i: nat)
    requires ConfigOk(c) && ChainOk(c, chain) && Owned(chain, frames)
    requires k < |chain| && Live(c, chain[k], i)
    ensures chain[k].active > 0
    ensures var (next, freed) := Free(chain, k, i);
      Owned(next, if freed.Some? then frames - {freed.value} else frames) <==> k == 0 || chain[k].active > 1
  {
    GiveOk(c, chain[k], i);
    var (next, freed) := Free(chain, k, i);
    if k > 0 && chain[k].active == 1 {
      assert next[k].page == freed.value;
    } else if freed.Some? {
      assert forall l :: 0 <= l < |next| ==> next[l] == chain[l + 1] && Apart(chain[0].page, chain[l + 1].page);
    }
  }

  lemma FreeOk(c: Config, chain: seq<Slab>, k: nat, i: nat)
    requires ConfigOk(c) && ChainOk(c, chain) && k < |chain| && Live(c, chain[k], i)
    ensures chain[k].active > 0 && ChainOk(c, Free(chain, k, i).0)
    ensures Free(chain, k, i).1.Some? ==> forall j: nat :: Live(c, chain[k], j) ==> j == i
  {
    GiveOk(c, chain[k], i);
    ActiveIsLive(c, Give(chain[k], i));
  }

  /** What `free_slab` is meant to do: take the emptied slab off the chain wherever it is. */
  function IntendedFree(chain: seq<Slab>, k: nat, i: nat): (seq<Slab>, Option<nat>)
    requires k < |chain| && chain[k].active > 0
  {
    var s := Give(chain[k], i);
    if s.active > 0 then (chain[k := s], None) else (chain[..k] + chain[k + 1..], Some(s.page))
  }

  /** The code does what is meant exactly when it does not empty a slab behind the head. */
  lemma IntendedIff(chain: seq<Slab>, k: nat, i: nat)
    requires k < |chain| && chain[k].active > 0
    ensures Free(chain, k, i) == IntendedFree(chain, k, i) <==> k == 0 || chain[k].active > 1
  {
    if k > 0 && chain[k].active == 1 {
      assert |Free(chain, k, i).0| == |IntendedFree(chain, k, i).0| + 1;
    }
    assert chain[..0] + chain[1..] == chain[1..];
  }
}
